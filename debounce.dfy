/** The debounce used for free-text fields. Each client file that debounces
    (the Kanban board, the board page, the task modal) declares ONE module-level
    `timer`; every keystroke handler in that file clears it and schedules a new
    callback that sends a remote write after a quiet period. So there is one pending
    slot per file, shared by all the fields that file edits, not one per field. */
module Debounce {
  import opened Common

  /** One file's timer: the write its scheduled callback will send, if any, and the
      writes earlier callbacks have sent, oldest first. */
  datatype Timer<W> = Timer(pending: Option<W>, sent: seq<W>)

  function Idle<W>(): Timer<W>
  {
    Timer(None, [])
  }

  datatype Event<W> =
    | Edit(next: Option<W>) // clearTimeout(timer); then, when next is Some, timer = setTimeout(send next)
    | Elapse                // the quiet period passes without an edit: the scheduled callback runs

  /** One event: an edit replaces the pending write and sends nothing; a pause sends the
      pending write, if any, and leaves nothing pending. */
  function Step<W>(t: Timer<W>, e: Event<W>): (r: Timer<W>)
    ensures e.Edit? ==> r.pending == e.next && r.sent == t.sent
    ensures e.Elapse? ==> r.pending.None? && r.sent == t.sent + (if t.pending.Some? then [t.pending.value] else [])
  {
    match e
    case Edit(next) => Timer(next, t.sent)
    case Elapse => if t.pending.Some? then Timer(None, t.sent + [t.pending.value]) else t
  }

  /** A sequence of events, in order: the writes already sent stay sent, and each
      event sends at most one more. */
  function Run<W>(t: Timer<W>, es: seq<Event<W>>): (r: Timer<W>)
    ensures t.sent <= r.sent
    ensures |r.sent| <= |t.sent| + |es|
    decreases |es|
  {
    if es == [] then t else Run(Step(t, es[0]), es[1..])
  }

  /** The events of a burst of keystrokes that each schedule a write. */
  function Edits<W>(ws: seq<W>): (es: seq<Event<W>>)
    ensures |es| == |ws|
    ensures forall k :: 0 <= k < |ws| ==> es[k] == Edit(Some(ws[k]))
  {
    if ws == [] then [] else [Edit(Some(ws[0]))] + Edits(ws[1..])
  }

  lemma {:induction false} RunAppend<W>(t: Timer<W>, a: seq<Event<W>>, b: seq<Event<W>>)
    ensures Run(t, a + b) == Run(Run(t, a), b)
    decreases |a|
  {
    if a == [] {
      assert a + b == b;
    } else {
      assert (a + b)[1..] == a[1..] + b;
      RunAppend(Step(t, a[0]), a[1..], b);
    }
  }

  /** While the user keeps typing nothing is sent, and the slot holds the last value. */
  lemma {:induction false} BurstSendsNothing<W>(t: Timer<W>, ws: seq<W>)
    requires ws != []
    ensures Run(t, Edits(ws)) == Timer(Some(ws[|ws| - 1]), t.sent)
    decreases |ws|
  {
    if |ws| > 1 {
      BurstSendsNothing(Step(t, Edit(Some(ws[0]))), ws[1..]);
      assert Edits(ws)[1..] == Edits(ws[1..]);
    }
  }

  /** A burst of edits followed by a pause sends exactly one write: the last value. */
  lemma BurstThenPause<W>(t: Timer<W>, ws: seq<W>)
    requires ws != []
    ensures Run(t, Edits(ws) + [Elapse]) == Timer(None, t.sent + [ws[|ws| - 1]])
  {
    RunAppend(t, Edits(ws), [Elapse]);
    BurstSendsNothing(t, ws);
  }

  /** Two bursts separated by a pause send two writes, in order: the last value of each. */
  lemma TwoBursts<W>(t: Timer<W>, ws: seq<W>, vs: seq<W>)
    requires ws != [] && vs != []
    ensures Run(t, Edits(ws) + [Elapse] + Edits(vs) + [Elapse]).sent
         == t.sent + [ws[|ws| - 1], vs[|vs| - 1]]
  {
    RunAppend(t, Edits(ws) + [Elapse], Edits(vs) + [Elapse]);
    assert Edits(ws) + [Elapse] + Edits(vs) + [Elapse] == (Edits(ws) + [Elapse]) + (Edits(vs) + [Elapse]);
    BurstThenPause(t, ws);
    BurstThenPause(Run(t, Edits(ws) + [Elapse]), vs);
  }

  /** An edit that only clears the timer cancels the pending write: the pause after it
      sends nothing. */
  lemma ClearCancels<W>(t: Timer<W>)
    ensures Run(t, [Edit(None), Event.Elapse]) == Timer(None, t.sent)
  {
    var es: seq<Event<W>> := [Edit(None), Elapse];
    assert es[1..] == [Elapse];
    assert es[1..][1..] == [];
  }

  function CountElapses<W>(es: seq<Event<W>>): nat
  {
    if es == [] then 0 else (if es[0].Elapse? then 1 else 0) + CountElapses(es[1..])
  }

  /** Writes only ever go out when a quiet period ends, at most one per pause, and
      earlier writes are never changed. */
  lemma {:induction false} WritesBoundedByPauses<W>(t: Timer<W>, es: seq<Event<W>>)
    ensures |t.sent| <= |Run(t, es).sent| <= |t.sent| + CountElapses(es)
    ensures Run(t, es).sent[..|t.sent|] == t.sent
    decreases |es|
  {
    if es != [] {
      WritesBoundedByPauses(Step(t, es[0]), es[1..]);
      var u := Step(t, es[0]);
      assert u.sent[..|t.sent|] == t.sent;
    }
  }

  /** The module-level `let timer` of one file, as the object its handlers update. */
  class ModuleTimer<W> {
    var pending: Option<W>
    var sent: seq<W>

    function State(): Timer<W>
      reads this
    {
      Timer(pending, sent)
    }

    constructor ()
      ensures State() == Idle()
    {
      pending := None;
      sent := [];
    }

    /** `clearTimeout(timer)`, then `timer = setTimeout(...)` when there is a write to schedule. */
    method Reschedule(next: Option<W>)
      modifies this
      ensures State() == Step(old(State()), Edit(next))
      ensures pending == next && sent == old(sent)
    {
      pending := next;
    }

    /** The quiet period ends: the scheduled callback, if any, sends its write. */
    method Elapse()
      modifies this
      ensures State() == Step(old(State()), Event.Elapse)
    {
      if pending.Some? {
        sent := sent + [pending.value];
        pending := None;
      }
    }
  }
}
