/** The task modal: a local copy of the selected task, its title and content fields,
    and the calls it makes to its parent (onUpdate, onDelete, toggleArchiveTask, onClose).
    Title and content edits share the file's single timer. */
module TaskModal {
  import opened Common
  import opened Kanban
  import Debounce

  /** The payload of `task.update`. */
  datatype TaskWrite = TaskWrite(id: Id, title: string, content: string)

  /** The arguments of `props.toggleArchiveTask`. */
  datatype ArchiveToggle = ArchiveToggle(taskId: Id, sectionId: Id, prevState: bool)

  /** The modal's state, with the calls it has made to its parent, oldest first. */
  datatype Modal = Modal(
    props: Option<Task>,        // props.task
    task: Option<Task>,         // the local copy
    title: string,
    content: string,
    isDeleting: bool,
    updates: seq<Task>,         // props.onUpdate(...)
    deletes: seq<Option<Task>>, // props.onDelete(...); None is `undefined`
    toggles: seq<ArchiveToggle>,
    closes: nat)                // props.onClose()

  function TitleOf(t: Option<Task>): string
  {
    if t.Some? then t.value.title else ""
  }

  function ContentOf(t: Option<Task>): string
  {
    if t.Some? then t.value.content else ""
  }

  /** The first render: the state is initialised from `props.task`. */
  function Open(props: Option<Task>): (m: Modal)
    ensures m.task == props && m.title == TitleOf(props) && m.content == ContentOf(props)
    ensures m.updates == [] && m.deletes == [] && m.toggles == [] && m.closes == 0 && !m.isDeleting
  {
    Modal(props, props, TitleOf(props), ContentOf(props), false, [], [], [], 0)
  }

  /** The effect on `props.task`: the local copy, title and content are reset to the new
      task's, or to '' when it is undefined; nothing is called. */
  function PropsChanged(m: Modal, t: Option<Task>): (r: Modal)
    ensures r.props == t && r.task == t
    ensures t.Some? ==> r.title == t.value.title && r.content == t.value.content
    ensures t.None? ==> r.title == "" && r.content == ""
    ensures r.updates == m.updates && r.deletes == m.deletes && r.toggles == m.toggles
    ensures r.closes == m.closes && r.isDeleting == m.isDeleting
  {
    m.(props := t, task := t, title := TitleOf(t), content := ContentOf(t))
  }

  /** onClose: a defined task is handed to onUpdate with the current title and content,
      then the modal asks to close. */
  function OnClose(m: Modal): (r: Modal)
    ensures r.closes == m.closes + 1
    ensures m.task.None? ==> r.updates == m.updates
    ensures m.task.Some? ==> r.updates == m.updates + [m.task.value.(title := m.title, content := m.content)]
    ensures r.(updates := m.updates, closes := m.closes) == m
  {
    var updates := if m.task.Some? then m.updates + [m.task.value.(title := m.title, content := m.content)] else m.updates;
    m.(updates := updates, closes := m.closes + 1)
  }

  /** The Escape listener. It is added to `window` once, at mount, and never removed, so
      it calls the `onClose` of the first render: the task, title and content it reports
      are those the dialog opened with (`Open(mounted)`), whatever has been edited since.
      It goes on firing after the dialog closes. */
  function OnEscape(mounted: Option<Task>, m: Modal): (r: Modal)
    ensures r.closes == m.closes + 1
    ensures mounted.None? ==> r.updates == m.updates
    ensures mounted.Some? ==> r.updates == m.updates + [mounted.value]
    ensures r.(updates := m.updates, closes := m.closes) == m
  {
    var first := Open(mounted);
    var updates :=
      if first.task.Some? then m.updates + [first.task.value.(title := first.title, content := first.content)]
      else m.updates;
    m.(updates := updates, closes := m.closes + 1)
  }

  /** Before any edit, Escape and the close button do the same. */
  lemma EscapeAtOpenIsClose(mounted: Option<Task>)
    ensures OnEscape(mounted, Open(mounted)) == OnClose(Open(mounted))
  {
  }

  /** After a title edit, the close button reports the new title but Escape reports the
      task as it was when the dialog opened, while the pending write still carries the new
      title: Escape reverts the parent's copy without reverting the server's. */
  lemma EscapeRevertsTitle(t: Task, value: string)
    ensures var m := TitleEdit(Open(Some(t)), value);
      && OnClose(m).updates == [t.(title := value), t.(title := value)]
      && OnEscape(Some(t), m).updates == [t.(title := value), t]
      && TitleWrite(Open(Some(t)), value) == Some(TaskWrite(t.id, value, t.content))
  {
  }

  /** onDeleteTask: the flag is raised first. With a task, the remote delete is awaited,
      and if it throws nothing else happens; otherwise (or with no task at all) the local
      copy is cleared and onDelete gets the copy as it was, `undefined` included. */
  function OnDeleteTask(m: Modal, resolved: bool): (r: Modal)
    ensures r.isDeleting
    ensures m.task.Some? && !resolved ==> r == m.(isDeleting := true)
    ensures m.task.None? || resolved ==> r == m.(isDeleting := true, task := None, deletes := m.deletes + [m.task])
  {
    if m.task.Some? && !resolved then m.(isDeleting := true)
    else m.(isDeleting := true, task := None, deletes := m.deletes + [m.task])
  }

  /** The write a title edit schedules, when there is a task. */
  function TitleWrite(m: Modal, value: string): (w: Option<TaskWrite>)
    ensures w.Some? <==> m.task.Some?
    ensures w.Some? ==> w.value.id == m.task.value.id && w.value.title == value && w.value.content == m.content
  {
    if m.task.Some? then Some(TaskWrite(m.task.value.id, value, m.content)) else None
  }

  /** The write a content edit schedules, when there is a task. */
  function ContentWrite(m: Modal, data: string): (w: Option<TaskWrite>)
    ensures w.Some? <==> m.task.Some?
    ensures w.Some? ==> w.value == TitleWrite(m, m.title).value.(content := data) && w.value.content == data
  {
    if m.task.Some? then Some(TaskWrite(m.task.value.id, m.title, data)) else None
  }

  /** The local half of onUpdateTitle: the title field takes the value, and with a task
      onUpdate at once gets the local copy with only the title replaced. */
  function TitleEdit(m: Modal, value: string): (r: Modal)
    ensures r.title == value
    ensures m.task.None? ==> r.updates == m.updates
    ensures m.task.Some? ==> |r.updates| == |m.updates| + 1 && r.updates[..|m.updates|] == m.updates
    ensures m.task.Some? ==>
      var sent := r.updates[|m.updates|];
      sent.title == value && sent.(title := m.task.value.title) == m.task.value
    ensures r.(title := m.title, updates := m.updates) == m
  {
    var updates := if m.task.Some? then m.updates + [m.task.value.(title := value)] else m.updates;
    m.(title := value, updates := updates)
  }

  /** The local half of onUpdateContent, the same for the content. */
  function ContentEdit(m: Modal, data: string): (r: Modal)
    ensures r.content == data
    ensures m.task.None? ==> r.updates == m.updates
    ensures m.task.Some? ==> |r.updates| == |m.updates| + 1 && r.updates[..|m.updates|] == m.updates
    ensures m.task.Some? ==>
      var sent := r.updates[|m.updates|];
      sent.content == data && sent.(content := m.task.value.content) == m.task.value
    ensures r.(content := m.content, updates := m.updates) == m
  {
    var updates := if m.task.Some? then m.updates + [m.task.value.(content := data)] else m.updates;
    m.(content := data, updates := updates)
  }

  /** onUpdateTitle: clears the timer, and with a task schedules the write; without one
      the timer is only cleared. */
  method OnUpdateTitle(m: Modal, timer: Debounce.ModuleTimer<TaskWrite>, value: string) returns (r: Modal)
    modifies timer
    ensures r == TitleEdit(m, value)
    ensures timer.State() == Debounce.Step(old(timer.State()), Debounce.Edit(TitleWrite(m, value)))
  {
    timer.Reschedule(TitleWrite(m, value));
    r := TitleEdit(m, value);
  }

  /** onUpdateContent: the same timer, the content write. */
  method OnUpdateContent(m: Modal, timer: Debounce.ModuleTimer<TaskWrite>, data: string) returns (r: Modal)
    modifies timer
    ensures r == ContentEdit(m, data)
    ensures timer.State() == Debounce.Step(old(timer.State()), Debounce.Edit(ContentWrite(m, data)))
  {
    timer.Reschedule(ContentWrite(m, data));
    r := ContentEdit(m, data);
  }

  /** The local copy is never updated by an edit, so after a title edit the content
      edit's onUpdate call carries the copy's OLD title (unless the parent passes a new
      task in between); only onClose merges both fields. */
  lemma ContentEditForwardsStaleTitle(m: Modal, value: string, data: string)
    requires m.task.Some?
    ensures var r := ContentEdit(TitleEdit(m, value), data);
      && |r.updates| == |m.updates| + 2
      && r.updates[|m.updates|].title == value
      && r.updates[|m.updates| + 1].title == m.task.value.title
      && r.updates[|m.updates| + 1].content == data
      && OnClose(r).updates[|m.updates| + 2] == m.task.value.(title := value, content := data)
  {
    var r1 := TitleEdit(m, value);
    assert r1.updates[|m.updates|] == m.task.value.(title := value);
  }

  /** Each handler reads the fields after the previous edit, so a title edit followed by
      a content edit within the quiet period sends one write carrying both. */
  lemma TitleThenContent(t: Debounce.Timer<TaskWrite>, m: Modal, value: string, data: string)
    requires m.task.Some?
    ensures Debounce.Run(t, [Debounce.Edit(TitleWrite(m, value)), Debounce.Edit(ContentWrite(TitleEdit(m, value), data)), Debounce.Elapse]).sent
         == t.sent + [TaskWrite(m.task.value.id, value, data)]
  {
    var ws := [TitleWrite(m, value).value, ContentWrite(TitleEdit(m, value), data).value];
    Debounce.BurstThenPause(t, ws);
    assert Debounce.Edits(ws) + [Debounce.Elapse]
        == [Debounce.Edit(TitleWrite(m, value)), Debounce.Edit(ContentWrite(TitleEdit(m, value), data)), Debounce.Elapse];
  }

  /** The writes of typing `titles` one after the other into the title field. */
  function TitleWrites(m: Modal, titles: seq<string>): (ws: seq<TaskWrite>)
    requires m.task.Some?
    ensures |ws| == |titles|
    ensures forall k :: 0 <= k < |titles| ==> ws[k] == TitleWrite(m, titles[k]).value
  {
    seq(|titles|, k requires 0 <= k < |titles| => TaskWrite(m.task.value.id, titles[k], m.content))
  }

  /** Edits within the quiet period send exactly one write, with the last value; an
      edit, a pause and another edit send two writes, in that order. */
  lemma TitleBursts(t: Debounce.Timer<TaskWrite>, m: Modal, first: seq<string>, second: seq<string>)
    requires m.task.Some? && first != [] && second != []
    ensures Debounce.Run(t, Debounce.Edits(TitleWrites(m, first)) + [Debounce.Elapse]).sent
         == t.sent + [TaskWrite(m.task.value.id, first[|first| - 1], m.content)]
    ensures Debounce.Run(t, Debounce.Edits(TitleWrites(m, first)) + [Debounce.Elapse] + Debounce.Edits(TitleWrites(m, second)) + [Debounce.Elapse]).sent
         == t.sent + [TaskWrite(m.task.value.id, first[|first| - 1], m.content), TaskWrite(m.task.value.id, second[|second| - 1], m.content)]
  {
    Debounce.BurstThenPause(t, TitleWrites(m, first));
    Debounce.TwoBursts(t, TitleWrites(m, first), TitleWrites(m, second));
  }

  /** With no task an edit schedules nothing and cancels what was pending. */
  lemma EditWithoutTaskCancels(t: Debounce.Timer<TaskWrite>, m: Modal, value: string)
    requires m.task.None?
    ensures Debounce.Run(t, [Debounce.Edit(TitleWrite(m, value)), Debounce.Elapse]) == Debounce.Timer(None, t.sent)
  {
    Debounce.ClearCancels(t);
  }

  /** handleArchiveToggle: the local copy's `archived` flips when there is one; the
      parent's toggleArchiveTask is called only for a task prop with an id and a section
      id, and a boolean prior value. */
  function HandleArchiveToggle(m: Modal, prevState: Option<bool>): (r: Modal)
    ensures m.task.None? ==> r.task == None
    ensures m.task.Some? ==> r.task == Some(m.task.value.(archived := !m.task.value.archived))
    ensures var call := m.props.Some? && m.props.value.id != "" && Truthy(m.props.value.sectionId) && prevState.Some?;
      && (call ==> r.toggles == m.toggles + [ArchiveToggle(m.props.value.id, m.props.value.sectionId.value, prevState.value)])
      && (!call ==> r.toggles == m.toggles)
    ensures r.(task := m.task, toggles := m.toggles) == m
  {
    var task := if m.task.Some? then Some(m.task.value.(archived := !m.task.value.archived)) else None;
    var toggles :=
      if m.props.Some? && m.props.value.id != "" && Truthy(m.props.value.sectionId) && prevState.Some?
      then m.toggles + [ArchiveToggle(m.props.value.id, m.props.value.sectionId.value, prevState.value)]
      else m.toggles;
    m.(task := task, toggles := toggles)
  }
}
