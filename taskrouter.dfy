/** The server's task procedures over the task table. Every failure inside a handler is
    caught and rethrown as INTERNAL_SERVER_ERROR. */
module TaskRouter {
  import opened Common
  import opened Lists
  import opened Table

  datatype TaskRow = TaskRow(
    title: string,
    content: string,
    position: int,
    sectionId: Id,
    createdAt: int,
    archived: bool)

  /** The columns create and update select. */
  datatype TaskView = TaskView(id: Id, title: string, position: int, content: string, createdAt: int)

  function View(id: Id, t: TaskRow): TaskView
  {
    TaskView(id, t.title, t.position, t.content, t.createdAt)
  }

  function Position(t: TaskRow): int
  {
    t.position
  }

  function InSection(s: Id): TaskRow -> bool
  {
    (t: TaskRow) => t.sectionId == s
  }

  /** The data of the updatePosition writes: the list's section id and the key. */
  function Placed(s: Id): (TaskRow, nat) -> TaskRow
  {
    (t: TaskRow, key: nat) => t.(sectionId := s, position := key)
  }

  /** Every field but `sectionId` and `position`. */
  function Unplaced(t: TaskRow): TaskRow
  {
    t.(sectionId := "", position := 0)
  }

  // ------------------------------------------------------------------ updatePosition

  /** The effect of updatePosition: when the sections differ, the reversed resource list is
      written with the resource section id; then, unless that threw, the reversed
      destination list with the destination section id. */
  function Repositioned(rows: map<Id, TaskRow>, resourceList: seq<Id>, destinationList: seq<Id>,
                        resourceSectionId: Id, destinationSectionId: Id): (a: Applied<TaskRow>)
    ensures a.rows.Keys == rows.Keys
  {
    var first :=
      if resourceSectionId != destinationSectionId
      then UpdateAll(rows, Reverse(resourceList), Placed(resourceSectionId))
      else Applied(rows, false);
    if first.failed then first
    else UpdateAll(first.rows, Reverse(destinationList), Placed(destinationSectionId))
  }

  /** updatePosition: both lists are reversed in place, then written with `for...in`. It
      answers `{success: true}`, or INTERNAL_SERVER_ERROR with the writes made so far
      kept. */
  method UpdatePosition(rows: map<Id, TaskRow>, resourceList: seq<Id>, destinationList: seq<Id>,
                        resourceSectionId: Id, destinationSectionId: Id)
    returns (out: map<Id, TaskRow>, reply: Reply<bool>)
    ensures var a := Repositioned(rows, resourceList, destinationList, resourceSectionId, destinationSectionId);
      out == a.rows && reply == (if a.failed then Fail(InternalServerError) else Ok(true))
  {
    var resource := ReversedCopy(resourceList);
    var destination := ReversedCopy(destinationList);
    var start := rows;
    if resourceSectionId != destinationSectionId {
      var failed;
      start, failed := UpdateEach(rows, resource, Placed(resourceSectionId));
      if failed {
        return start, Fail(InternalServerError);
      }
    }
    var failed;
    out, failed := UpdateEach(start, destination, Placed(destinationSectionId));
    reply := if failed then Fail(InternalServerError) else Ok(true);
  }

  /** In a move within one section the resource list is never written: updatePosition
      does the same whatever resource list it is given. */
  lemma SameSectionIgnoresResource(rows: map<Id, TaskRow>, r1: seq<Id>, r2: seq<Id>, d: seq<Id>, s: Id)
    ensures Repositioned(rows, r1, d, s, s) == Repositioned(rows, r2, d, s, s)
  {
  }

  /** Whatever the lists, updatePosition writes only `sectionId` and `position`. */
  lemma RepositionKeepsOtherFields(rows: map<Id, TaskRow>, r: seq<Id>, d: seq<Id>, rs: Id, ds: Id)
    ensures var out := Repositioned(rows, r, d, rs, ds).rows;
      out.Keys == rows.Keys
      && forall id :: id in rows ==> out[id] == rows[id].(sectionId := out[id].sectionId, position := out[id].position)
  {
    UpdateAllPreserves(rows, Reverse(r), Placed(rs), Unplaced);
    var first := if rs != ds then UpdateAll(rows, Reverse(r), Placed(rs)) else Applied(rows, false);
    UpdateAllPreserves(first.rows, Reverse(d), Placed(ds), Unplaced);
  }

  /** A reorder within one section: the task at index i of the destination list of length
      n gets position n-1-i and the section id; the positions are exactly 0..n-1; the tasks
      not in the list are untouched. */
  lemma SameSectionReindexes(rows: map<Id, TaskRow>, r: seq<Id>, d: seq<Id>, s: Id)
    requires Distinct(d)
    requires forall k :: 0 <= k < |d| ==> d[k] in rows
    ensures var a := Repositioned(rows, r, d, s, s);
      var n := |d|;
      && !a.failed
      && (forall i :: 0 <= i < n ==> a.rows[d[i]] == rows[d[i]].(sectionId := s, position := n - 1 - i))
      && (forall p :: 0 <= p < n ==> KeyTaken(a.rows, d, Position, p))
      && (forall id :: id in rows && id !in d ==> a.rows[id] == rows[id])
  {
    var n := |d|;
    ReindexReversed(rows, d, Placed(s));
    var a := Repositioned(rows, r, d, s, s);
    forall p | 0 <= p < n ensures KeyTaken(a.rows, d, Position, p) {
      assert a.rows[d[n - 1 - p]].position == p;
    }
  }

  /** A move across sections: every task of the destination list gets the destination
      section id and position |d|-1-j (the moved task among them); every task of the
      resource list not also in the destination list gets the resource section id and
      position |r|-1-i; both sections' positions cover 0..len-1; nothing else changes. */
  lemma CrossSectionReindexes(rows: map<Id, TaskRow>, r: seq<Id>, d: seq<Id>, rs: Id, ds: Id)
    requires rs != ds
    requires Distinct(r) && Distinct(d)
    requires forall k :: 0 <= k < |r| ==> r[k] in rows
    requires forall k :: 0 <= k < |d| ==> d[k] in rows
    ensures var a := Repositioned(rows, r, d, rs, ds);
      && !a.failed
      && (forall j :: 0 <= j < |d| ==> a.rows[d[j]] == rows[d[j]].(sectionId := ds, position := |d| - 1 - j))
      && (forall i :: 0 <= i < |r| && r[i] !in d ==> a.rows[r[i]] == rows[r[i]].(sectionId := rs, position := |r| - 1 - i))
      && (forall p :: 0 <= p < |d| ==> KeyTaken(a.rows, d, Position, p))
      && (forall id :: id in rows && id !in r && id !in d ==> a.rows[id] == rows[id])
  {
    var first := UpdateAll(rows, Reverse(r), Placed(rs));
    ReindexReversed(rows, r, Placed(rs));
    var a := UpdateAll(first.rows, Reverse(d), Placed(ds));
    ReindexReversed(first.rows, d, Placed(ds));
    assert Repositioned(rows, r, d, rs, ds) == a;
    PlacedTwice(rows, first.rows, a.rows, r, d, rs, ds);
  }

  /** The two loops of a cross-section move, from what each one writes: a task in the
      destination list ends with the destination's data even when the resource loop
      wrote it first. */
  lemma PlacedTwice(rows: map<Id, TaskRow>, f: map<Id, TaskRow>, w: map<Id, TaskRow>, r: seq<Id>, d: seq<Id>, rs: Id, ds: Id)
    requires f.Keys == rows.Keys && w.Keys == rows.Keys
    requires forall i :: 0 <= i < |r| ==> r[i] in rows && f[r[i]] == Placed(rs)(rows[r[i]], |r| - 1 - i)
    requires forall id :: id in rows && id !in r ==> f[id] == rows[id]
    requires forall j :: 0 <= j < |d| ==> d[j] in rows && w[d[j]] == Placed(ds)(f[d[j]], |d| - 1 - j)
    requires forall id :: id in f && id !in d ==> w[id] == f[id]
    ensures forall j :: 0 <= j < |d| ==> w[d[j]] == rows[d[j]].(sectionId := ds, position := |d| - 1 - j)
    ensures forall i :: 0 <= i < |r| && r[i] !in d ==> w[r[i]] == rows[r[i]].(sectionId := rs, position := |r| - 1 - i)
    ensures forall p :: 0 <= p < |d| ==> KeyTaken(w, d, Position, p)
    ensures forall id :: id in rows && id !in r && id !in d ==> w[id] == rows[id]
  {
    forall j | 0 <= j < |d| ensures w[d[j]] == rows[d[j]].(sectionId := ds, position := |d| - 1 - j) {
      if d[j] in r {
        var i :| 0 <= i < |r| && r[i] == d[j];
        assert f[d[j]] == rows[d[j]].(sectionId := rs, position := |r| - 1 - i);
      }
    }
    forall p | 0 <= p < |d| ensures KeyTaken(w, d, Position, p) {
      assert w[d[|d| - 1 - p]].position == p;
    }
  }

  /** When the two lists share no task, as after a drop into another section, the resource
      section's positions also cover 0..|r|-1, and every moved-to-destination task carries
      the destination section id. */
  lemma CrossSectionDisjoint(rows: map<Id, TaskRow>, r: seq<Id>, d: seq<Id>, rs: Id, ds: Id)
    requires rs != ds
    requires Distinct(r) && Distinct(d)
    requires forall i, j :: 0 <= i < |r| && 0 <= j < |d| ==> r[i] != d[j]
    requires forall k :: 0 <= k < |r| ==> r[k] in rows
    requires forall k :: 0 <= k < |d| ==> d[k] in rows
    ensures var a := Repositioned(rows, r, d, rs, ds);
      && (forall i :: 0 <= i < |r| ==> a.rows[r[i]].sectionId == rs && a.rows[r[i]].position == |r| - 1 - i)
      && (forall j :: 0 <= j < |d| ==> a.rows[d[j]].sectionId == ds && a.rows[d[j]].position == |d| - 1 - j)
      && (forall p :: 0 <= p < |r| ==> KeyTaken(a.rows, r, Position, p))
  {
    CrossSectionReindexes(rows, r, d, rs, ds);
    DisjointPlaced(rows, Repositioned(rows, r, d, rs, ds).rows, r, d, rs, ds);
  }

  lemma DisjointPlaced(rows: map<Id, TaskRow>, w: map<Id, TaskRow>, r: seq<Id>, d: seq<Id>, rs: Id, ds: Id)
    requires forall i, j :: 0 <= i < |r| && 0 <= j < |d| ==> r[i] != d[j]
    requires forall k :: 0 <= k < |r| ==> r[k] in rows && r[k] in w
    requires forall j :: 0 <= j < |d| ==> d[j] in rows && d[j] in w && w[d[j]] == rows[d[j]].(sectionId := ds, position := |d| - 1 - j)
    requires forall i :: 0 <= i < |r| && r[i] !in d ==> w[r[i]] == rows[r[i]].(sectionId := rs, position := |r| - 1 - i)
    ensures forall i :: 0 <= i < |r| ==> w[r[i]].sectionId == rs && w[r[i]].position == |r| - 1 - i
    ensures forall j :: 0 <= j < |d| ==> w[d[j]].sectionId == ds && w[d[j]].position == |d| - 1 - j
    ensures forall p :: 0 <= p < |r| ==> KeyTaken(w, r, Position, p)
  {
    assert forall i :: 0 <= i < |r| ==> r[i] !in d;
    forall p | 0 <= p < |r| ensures KeyTaken(w, r, Position, p) {
      assert w[r[|r| - 1 - p]].position == p;
    }
  }

  // ------------------------------------------------------------------ delete

  function Renumber(t: TaskRow, index: nat): TaskRow
  {
    t.(position := index)
  }

  /** The effect of delete: a missing task makes the delete throw; otherwise the task is
      removed and the listed tasks of its section get their index as position. */
  function Deleted(rows: map<Id, TaskRow>, id: Id, order: seq<Id>): (a: Applied<TaskRow>)
    ensures id in rows ==> a.rows.Keys == rows.Keys - {id}
  {
    if id !in rows then Applied(rows, true)
    else UpdateAll(rows - {id}, order, Renumber)
  }

  /** delete: removes the task, lists the remaining tasks of its section by position
      ascending (`order`, what findMany answers), then writes index k as the position of
      the k-th. The answer is given whatever these writes do. */
  method Delete(rows: map<Id, TaskRow>, id: Id, order: seq<Id>) returns (out: map<Id, TaskRow>, reply: Reply<string>)
    requires id in rows ==> IsListing(rows - {id}, InSection(rows[id].sectionId), Position, false, order)
    ensures var a := Deleted(rows, id, order);
      out == a.rows
      && reply == (if id !in rows then Fail(InternalServerError) else Ok("Task deleted successfully"))
  {
    if id !in rows {
      return rows, Fail(InternalServerError);
    }
    var failed;
    out, failed := UpdateEach(rows - {id}, order, Renumber);
    reply := Ok("Task deleted successfully");
  }

  /** After a delete, the task is gone; the rest of its section is renumbered 0..k-1 in
      the order it had; the renumbered section lists back in that same order; every other
      task is untouched. */
  lemma DeleteRenumbers(rows: map<Id, TaskRow>, id: Id, order: seq<Id>)
    requires id in rows
    requires IsListing(rows - {id}, InSection(rows[id].sectionId), Position, false, order)
    ensures var a := Deleted(rows, id, order);
      && !a.failed
      && a.rows.Keys == rows.Keys - {id}
      && (forall k :: 0 <= k < |order| ==> a.rows[order[k]] == rows[order[k]].(position := k))
      && (forall x :: x in rows && x != id && rows[x].sectionId != rows[id].sectionId ==> a.rows[x] == rows[x])
      && IsListing(a.rows, InSection(rows[id].sectionId), Position, false, order)
  {
    var rest := rows - {id};
    assert FirstMissing(rest, order) == |order|;
    WritesDistinct(rest, order, Renumber, |order|);
    var w := Writes(rest, order, Renumber, |order|);
    assert Deleted(rows, id, order) == Applied(w, false);
    RenumberedListing(rows, id, w, order);
  }

  /** Giving the k-th task of a section's ascending listing the position k keeps it that
      section's listing, and leaves the other sections alone. */
  lemma RenumberedListing(rows: map<Id, TaskRow>, id: Id, w: map<Id, TaskRow>, order: seq<Id>)
    requires id in rows
    requires IsListing(rows - {id}, InSection(rows[id].sectionId), Position, false, order)
    requires w.Keys == rows.Keys - {id}
    requires forall k :: 0 <= k < |order| ==> order[k] in rows - {id} && w[order[k]] == Renumber((rows - {id})[order[k]], k)
    requires forall x :: x in rows - {id} && (forall k :: 0 <= k < |order| ==> order[k] != x) ==> w[x] == (rows - {id})[x]
    ensures forall k :: 0 <= k < |order| ==> w[order[k]] == rows[order[k]].(position := k)
    ensures forall x :: x in rows && x != id && rows[x].sectionId != rows[id].sectionId ==> w[x] == rows[x]
    ensures IsListing(w, InSection(rows[id].sectionId), Position, false, order)
  {
    var s := rows[id].sectionId;
    var rest := rows - {id};
    forall x | x in rows && x != id && rows[x].sectionId != s ensures w[x] == rows[x] {
      assert x in rest && !InSection(s)(rest[x]);
      forall k | 0 <= k < |order| ensures order[k] != x {
      }
    }
    RenumberedIsListing(rest, s, w, order);
  }

  /** The listing part of RenumberedListing, stated over the remaining rows. */
  lemma RenumberedIsListing(rest: map<Id, TaskRow>, s: Id, w: map<Id, TaskRow>, order: seq<Id>)
    requires IsListing(rest, InSection(s), Position, false, order)
    requires w.Keys == rest.Keys
    requires forall k :: 0 <= k < |order| ==> order[k] in rest && w[order[k]] == Renumber(rest[order[k]], k)
    requires forall x :: x in rest && (forall k :: 0 <= k < |order| ==> order[k] != x) ==> w[x] == rest[x]
    ensures IsListing(w, InSection(s), Position, false, order)
  {
    forall x | x in w && InSection(s)(w[x]) ensures x in order {
    }
    forall a, b | 0 <= a < b < |order| ensures Position(w[order[a]]) <= Position(w[order[b]]) {
      assert Position(w[order[a]]) == a && Position(w[order[b]]) == b;
    }
  }

  // ------------------------------------------------------------------ create, update

  /** The number of tasks in a section. */
  function SectionCount(rows: map<Id, TaskRow>, sectionId: Id): nat
  {
    |set id | id in rows && rows[id].sectionId == sectionId|
  }

  /** create: the new task's position is `count > 0 ? count + 1 : 1`, counted within the
      section; both branches come to count + 1. The other columns are the schema's
      defaults, given here as a template row. Whether the database refuses the count or
      the insert (a section id no section has, say) is not visible here and is the
      parameter `throws`; the handler's catch turns it into INTERNAL_SERVER_ERROR, with
      nothing written. */
  function Create(rows: map<Id, TaskRow>, sectionId: Id, newId: Id, template: TaskRow, throws: bool): (r: (map<Id, TaskRow>, Reply<TaskView>))
    requires newId !in rows
    ensures throws ==> r == (rows, Fail(InternalServerError))
    ensures !throws ==>
      && r.0 == rows[newId := template.(sectionId := sectionId, position := SectionCount(rows, sectionId) + 1)]
      && r.1 == Ok(View(newId, r.0[newId]))
      && r.1.value.position == SectionCount(rows, sectionId) + 1
  {
    if throws then (rows, Fail(InternalServerError))
    else
      var tasks := SectionCount(rows, sectionId);
      var row := template.(sectionId := sectionId, position := if tasks > 0 then tasks + 1 else 1);
      (rows[newId := row], Ok(View(newId, row)))
  }

  /** update: writes title and content and nothing else; a missing task throws. */
  function Update(rows: map<Id, TaskRow>, id: Id, title: string, content: string): (r: (map<Id, TaskRow>, Reply<TaskView>))
    ensures id !in rows ==> r == (rows, Fail(InternalServerError))
    ensures id in rows ==>
      && r.0.Keys == rows.Keys
      && r.0[id].title == title && r.0[id].content == content
      && r.0[id].(title := rows[id].title, content := rows[id].content) == rows[id]
      && (forall x :: x in rows && x != id ==> r.0[x] == rows[x])
      && r.1 == Ok(View(id, r.0[id]))
  {
    if id !in rows then (rows, Fail(InternalServerError))
    else
      var t := rows[id].(title := title, content := content);
      (rows[id := t], Ok(View(id, t)))
  }
}
