/** The Kanban board of the active board: its ordered sections (columns), each with
    its ordered tasks (cards), held as component state and updated by the drop
    handler and the section and task handlers. */
module Kanban {
  import opened Common
  import opened Lists
  import opened DragDrop
  import Debounce

  datatype Task = Task(
    id: Id,
    title: string,
    content: string,
    position: int,
    createdAt: int,
    sectionId: Option<Id>, // set only on the copy handed to the task modal
    archived: bool)

  datatype Section = Section(id: Id, title: string, position: int, archived: bool, tasks: seq<Task>)

  /** The remote calls the drop handler makes. */
  datatype RemoteCall =
    | SectionPositions(sections: seq<Section>) // section.positonUpdate(copySection)
    | TaskPositions(                           // task.updatePosition({...})
        resourceSectionId: Id,
        destinationSectionId: Id,
        resourceList: seq<Task>,
        destinationList: seq<Task>)

  /** The new section list and the remote call a drop produces, if any. */
  datatype DropOutcome = DropOutcome(sections: seq<Section>, call: Option<RemoteCall>)

  /** The remote write the section-title debounce sends: section.update({id, title}). */
  datatype SectionWrite = SectionWrite(id: Id, title: string)

  /** `sections.findIndex((s) => s.id === id)`. */
  function SectionIndex(sections: seq<Section>, id: Id): int
  {
    FindIndex(sections, (s: Section) => s.id == id)
  }

  /** `tasks.findIndex((t) => t.id === id)`. */
  function TaskIndex(tasks: seq<Task>, id: Id): int
  {
    FindIndex(tasks, (t: Task) => t.id == id)
  }

  // ------------------------------------------------------------------ onDragEnd

  /** What `onDragEnd` does with a drop. */
  function DragEnd(sections: seq<Section>, r: DropResult): (o: DropOutcome)
    ensures |o.sections| == |sections|
    ensures o.call.None? ==> o.sections == sections
    ensures o.call.Some? ==> !DroppedInPlace(r)
  {
    if DroppedInPlace(r) then DropOutcome(sections, None)
    else
      match r.kind
      case SectionsKind =>
        var moved := SpliceMove(sections, r.source.index, r.destination.at.index);
        DropOutcome(moved, Some(SectionPositions(moved)))
      case TasksKind => DragTasks(sections, r.source, r.destination.at)
      case OtherKind => DropOutcome(sections, None)
  }

  /** The 'TASKS' case: a card moved within its column or into another one. */
  function DragTasks(sections: seq<Section>, src: Location, dst: Location): (o: DropOutcome)
    ensures |o.sections| == |sections|
    ensures o.call.None? <==> SectionIndex(sections, src.droppableId) < 0 || SectionIndex(sections, dst.droppableId) < 0
    ensures o.call.None? ==> o.sections == sections
  {
    var si := SectionIndex(sections, src.droppableId);
    var di := SectionIndex(sections, dst.droppableId);
    if si < 0 || di < 0 then DropOutcome(sections, None)
    else
      var sourceCol := sections[si];
      var destCol := sections[di];
      if src.droppableId != dst.droppableId then
        var sourceItems := Remove(sourceCol.tasks, src.index);
        var destItems :=
          if src.index < |sourceCol.tasks|
          then Insert(destCol.tasks, dst.index, sourceCol.tasks[src.index])
          else destCol.tasks;
        var copy := sections[si := sourceCol.(tasks := sourceItems)][di := destCol.(tasks := destItems)];
        DropOutcome(copy, Some(TaskPositions(src.droppableId, dst.droppableId, sourceItems, destItems)))
      else
        var items := SpliceMove(sourceCol.tasks, src.index, dst.index);
        DropOutcome(
          sections[si := sourceCol.(tasks := items)],
          Some(TaskPositions(src.droppableId, dst.droppableId, destCol.tasks, items)))
  }

  /** `onDragEnd` as written: copies of the lists, spliced in place. */
  method OnDragEnd(sections: seq<Section>, r: DropResult) returns (newSections: seq<Section>, call: Option<RemoteCall>)
    ensures DropOutcome(newSections, call) == DragEnd(sections, r)
  {
    if r.destination.Outside? {
      return sections, None;
    }
    var src, dst := r.source, r.destination.at;
    if dst.droppableId == src.droppableId && src.index == dst.index {
      return sections, None;
    }
    match r.kind {
      case SectionsKind =>
        var copy := new Section[|sections|](k requires 0 <= k < |sections| => sections[k]);
        assert copy[..] == sections;
        if src.index < copy.Length {
          MoveInPlace(copy, src.index, dst.index);
        }
        newSections := copy[..];
        call := Some(SectionPositions(newSections));
      case TasksKind =>
        var si := SectionIndex(sections, src.droppableId);
        var di := SectionIndex(sections, dst.droppableId);
        if si < 0 || di < 0 {
          return sections, None;
        }
        var sourceCol, destCol := sections[si], sections[di];
        if src.droppableId != dst.droppableId {
          var sourceItems := sourceCol.tasks;
          var destItems := destCol.tasks;
          if src.index < |sourceItems| {
            var removed := sourceItems[src.index];
            sourceItems := Remove(sourceItems, src.index);
            destItems := Insert(destItems, dst.index, removed);
          }
          newSections := sections[si := sourceCol.(tasks := sourceItems)][di := destCol.(tasks := destItems)];
          call := Some(TaskPositions(src.droppableId, dst.droppableId, sourceItems, destItems));
        } else {
          var n := |sourceCol.tasks|;
          var items := new Task[n](k requires 0 <= k < n => sourceCol.tasks[k]);
          assert items[..] == sourceCol.tasks;
          if src.index < n {
            MoveInPlace(items, src.index, dst.index);
          }
          newSections := sections[si := sourceCol.(tasks := items[..])];
          call := Some(TaskPositions(src.droppableId, dst.droppableId, destCol.tasks, items[..]));
        }
      case OtherKind =>
        return sections, None;
    }
  }

  /** All the tasks on the board, with multiplicity. */
  function TaskBag(sections: seq<Section>): multiset<Task>
  {
    if sections == [] then multiset{} else multiset(sections[0].tasks) + TaskBag(sections[1..])
  }

  lemma {:induction false} TaskBagUpdate(s: seq<Section>, i: nat, x: Section)
    requires i < |s|
    ensures TaskBag(s[i := x]) + multiset(s[i].tasks) == TaskBag(s) + multiset(x.tasks)
  {
    if i == 0 {
      assert s[i := x][1..] == s[1..];
    } else {
      var t := s[i := x];
      assert t[0] == s[0] && t[1..] == s[1..][i - 1 := x];
      assert s[1..][i - 1] == s[i];
      TaskBagUpdate(s[1..], i - 1, x);
      var a, b, c := multiset(s[0].tasks), multiset(s[i].tasks), multiset(x.tasks);
      calc {
        TaskBag(t) + b;
        a + TaskBag(t[1..]) + b;
        a + (TaskBag(s[1..][i - 1 := x]) + multiset(s[1..][i - 1].tasks));
        a + (TaskBag(s[1..]) + c);
        TaskBag(s) + c;
      }
    }
  }

  /** A drop outside every list, or onto its own place, changes nothing and calls nothing. */
  lemma DropInPlaceIsNoOp(sections: seq<Section>, r: DropResult)
    requires DroppedInPlace(r)
    ensures DragEnd(sections, r) == DropOutcome(sections, None)
  {
  }

  /** A column drag is a splice move of the column list: same length, same columns, the
      moved column at the destination index, and the new list is what is sent. */
  lemma SectionDrag(sections: seq<Section>, r: DropResult)
    requires !DroppedInPlace(r) && r.kind.SectionsKind?
    requires r.source.index < |sections|
    ensures var out := DragEnd(sections, r);
      && out.sections == Move(sections, r.source.index, r.destination.at.index)
      && |out.sections| == |sections|
      && multiset(out.sections) == multiset(sections)
      && out.sections[Landing(r.destination.at.index, |sections|)] == sections[r.source.index]
      && out.call == Some(SectionPositions(out.sections))
  {
    MoveIsPermutation(sections, r.source.index, r.destination.at.index);
  }

  /** An example: columns [A, B, C, D], column 0 dropped at index 2. */
  lemma SectionDragExample(a: Section, b: Section, c: Section, d: Section)
    ensures DragEnd([a, b, c, d], DropResult(Location("column-reorder", 0), Over(Location("column-reorder", 2)), SectionsKind)).sections
         == [b, c, a, d]
  {
    var s := [a, b, c, d];
    assert Remove(s, 0) == [b, c, d];
  }

  /** If either column id is unknown, a card drop changes nothing and calls nothing. */
  lemma MissingSectionIsNoOp(sections: seq<Section>, r: DropResult)
    requires !DroppedInPlace(r) && r.kind.TasksKind?
    requires SectionIndex(sections, r.source.droppableId) < 0 || SectionIndex(sections, r.destination.at.droppableId) < 0
    ensures DragEnd(sections, r) == DropOutcome(sections, None)
  {
  }

  /** The requirements of a card drop into another, known column. */
  ghost predicate CrossDrop(sections: seq<Section>, r: DropResult)
  {
    && !DroppedInPlace(r) && r.kind.TasksKind?
    && r.source.droppableId != r.destination.at.droppableId
    && 0 <= SectionIndex(sections, r.source.droppableId)
    && 0 <= SectionIndex(sections, r.destination.at.droppableId)
    && r.source.index < |sections[SectionIndex(sections, r.source.droppableId)].tasks|
  }

  /** A card dragged into another column leaves its source column with exactly that card
      taken out, lands at the destination index of the destination column, and leaves
      every other column as it was; both new lists are sent, the source column's as the
      resource list and the destination column's as the destination list. */
  lemma CrossSectionDrag(sections: seq<Section>, r: DropResult)
    requires CrossDrop(sections, r)
    ensures var si := SectionIndex(sections, r.source.droppableId);
      var di := SectionIndex(sections, r.destination.at.droppableId);
      var moved := sections[si].tasks[r.source.index];
      var out := DragEnd(sections, r).sections;
      && si != di
      && out == sections[si := sections[si].(tasks := Remove(sections[si].tasks, r.source.index))]
                        [di := sections[di].(tasks := Insert(sections[di].tasks, r.destination.at.index, moved))]
      && out[di].tasks[Clamp(r.destination.at.index, |sections[di].tasks|)] == moved
      && (forall k :: 0 <= k < |out| && k != si && k != di ==> out[k] == sections[k])
      && DragEnd(sections, r).call ==
           Some(TaskPositions(r.source.droppableId, r.destination.at.droppableId, out[si].tasks, out[di].tasks))
  {
  }

  /** A card dragged into another column stays on the board, and no card is lost or
      duplicated: the multiset of all cards, hence their number, is unchanged. */
  lemma CrossSectionKeepsTasks(sections: seq<Section>, r: DropResult)
    requires CrossDrop(sections, r)
    ensures TaskBag(DragEnd(sections, r).sections) == TaskBag(sections)
    ensures |TaskBag(DragEnd(sections, r).sections)| == |TaskBag(sections)|
  {
    CrossSectionDrag(sections, r);
    var si := SectionIndex(sections, r.source.droppableId);
    var di := SectionIndex(sections, r.destination.at.droppableId);
    var src, dst := sections[si], sections[di];
    var moved := src.tasks[r.source.index];
    MultisetRemove(src.tasks, r.source.index);
    MultisetInsert(dst.tasks, r.destination.at.index, moved);
    TwoUpdatesKeepBag(sections, si, di,
      src.(tasks := Remove(src.tasks, r.source.index)),
      dst.(tasks := Insert(dst.tasks, r.destination.at.index, moved)));
  }

  /** Replacing two columns by two others holding the same cards in total keeps the
      board's cards. */
  lemma TwoUpdatesKeepBag(s: seq<Section>, i: nat, j: nat, x: Section, y: Section)
    requires i < |s| && j < |s| && i != j
    requires multiset(x.tasks) + multiset(y.tasks) == multiset(s[i].tasks) + multiset(s[j].tasks)
    ensures TaskBag(s[i := x][j := y]) == TaskBag(s)
  {
    var mid := s[i := x];
    assert mid[j] == s[j];
    TaskBagUpdate(s, i, x);
    TaskBagUpdate(mid, j, y);
    var pi, pj, px, py := multiset(s[i].tasks), multiset(s[j].tasks), multiset(x.tasks), multiset(y.tasks);
    var a, m := TaskBag(mid[j := y]), TaskBag(mid);
    calc {
      a + (pi + pj);
      (a + pj) + pi;
      (m + py) + pi;
      (m + pi) + py;
      (TaskBag(s) + px) + py;
      TaskBag(s) + (pi + pj);
    }
    forall t: Task ensures a[t] == TaskBag(s)[t] {
      assert (a + (pi + pj))[t] == (TaskBag(s) + (pi + pj))[t];
    }
  }

  /** An example: S1 = [T1, T2], S2 = [T3]; T1 dropped at index 0 of S2. */
  lemma CrossSectionExample(t1: Task, t2: Task, t3: Task)
    ensures var s1 := Section("s1", "S1", 0, false, [t1, t2]);
      var s2 := Section("s2", "S2", 1, false, [t3]);
      DragEnd([s1, s2], DropResult(Location("s1", 0), Over(Location("s2", 0)), TasksKind)).sections
        == [s1.(tasks := [t2]), s2.(tasks := [t1, t3])]
  {
    var s1 := Section("s1", "S1", 0, false, [t1, t2]);
    var s2 := Section("s2", "S2", 1, false, [t3]);
    assert [s1, s2][1..] == [s2];
    assert SectionIndex([s1, s2], "s1") == 0;
    assert SectionIndex([s2], "s2") == 0;
    assert SectionIndex([s1, s2], "s2") == 1;
    assert Remove([t1, t2], 0) == [t2];
    assert Insert([t3], 0, t1) == [t1, t3];
    var r := DropResult(Location("s1", 0), Over(Location("s2", 0)), TasksKind);
    assert DragEnd([s1, s2], r) == DragTasks([s1, s2], r.source, r.destination.at);
  }

  /** A card dragged within its own column reorders only that column, and the remote call
      names that column twice and carries the reordered list as the destination list. */
  lemma SameSectionDrag(sections: seq<Section>, r: DropResult)
    requires !DroppedInPlace(r) && r.kind.TasksKind?
    requires r.source.droppableId == r.destination.at.droppableId
    requires 0 <= SectionIndex(sections, r.source.droppableId)
    requires r.source.index < |sections[SectionIndex(sections, r.source.droppableId)].tasks|
    ensures var si := SectionIndex(sections, r.source.droppableId);
      var tasks := sections[si].tasks;
      var out := DragEnd(sections, r);
      && out.sections == sections[si := sections[si].(tasks := Move(tasks, r.source.index, r.destination.at.index))]
      && multiset(out.sections[si].tasks) == multiset(tasks)
      && out.sections[si].tasks[Landing(r.destination.at.index, |tasks|)] == tasks[r.source.index]
      && out.call == Some(TaskPositions(sections[si].id, sections[si].id, tasks, out.sections[si].tasks))
  {
    var si := SectionIndex(sections, r.source.droppableId);
    MoveIsPermutation(sections[si].tasks, r.source.index, r.destination.at.index);
  }

  // ------------------------------------------------------------------ archive toggles

  /** handleArchiveSection: `prev.map((s) => s.id === sectionId ? {...s, archived: !s.archived} : s)`. */
  function ArchiveSection(sections: seq<Section>, sectionId: Id): (r: seq<Section>)
    ensures |r| == |sections|
    ensures forall k :: 0 <= k < |r| ==>
      r[k].(archived := sections[k].archived) == sections[k]
      && (r[k].archived <==> (sections[k].archived != (sections[k].id == sectionId)))
  {
    seq(|sections|, k requires 0 <= k < |sections| =>
      if sections[k].id == sectionId then sections[k].(archived := !sections[k].archived) else sections[k])
  }

  /** Toggling twice restores the columns. */
  lemma ArchiveSectionTwice(sections: seq<Section>, sectionId: Id)
    ensures ArchiveSection(ArchiveSection(sections, sectionId), sectionId) == sections
  {
    var r := ArchiveSection(ArchiveSection(sections, sectionId), sectionId);
    forall k | 0 <= k < |sections| ensures r[k] == sections[k] {
    }
  }

  function FlipTask(t: Task, taskId: Id): (r: Task)
    ensures r.(archived := t.archived) == t
    ensures r.archived <==> (t.archived != (t.id == taskId))
  {
    if t.id != taskId then t else t.(archived := !t.archived)
  }

  /** toggleArchiveTask: flips `archived` of the tasks with that id in the sections with
      that id; nothing else changes, not even the order or the count. */
  function ToggleArchiveTask(sections: seq<Section>, taskId: Id, sectionId: Id): (r: seq<Section>)
    ensures |r| == |sections|
    ensures forall k :: 0 <= k < |r| ==>
      r[k].(tasks := sections[k].tasks) == sections[k] && |r[k].tasks| == |sections[k].tasks|
    ensures forall k, j :: 0 <= k < |r| && 0 <= j < |r[k].tasks| ==>
      var before := sections[k].tasks[j];
      && r[k].tasks[j].(archived := before.archived) == before
      && (r[k].tasks[j].archived <==> (before.archived != (sections[k].id == sectionId && before.id == taskId)))
  {
    seq(|sections|, k requires 0 <= k < |sections| =>
      var s := sections[k];
      if s.id != sectionId then s
      else s.(tasks := seq(|s.tasks|, j requires 0 <= j < |s.tasks| => FlipTask(s.tasks[j], taskId))))
  }

  /** Toggling a task twice restores the columns. */
  lemma ToggleArchiveTaskTwice(sections: seq<Section>, taskId: Id, sectionId: Id)
    ensures ToggleArchiveTask(ToggleArchiveTask(sections, taskId, sectionId), taskId, sectionId) == sections
  {
    var r := ToggleArchiveTask(ToggleArchiveTask(sections, taskId, sectionId), taskId, sectionId);
    forall k | 0 <= k < |sections| ensures r[k] == sections[k] {
      assert r[k].tasks == sections[k].tasks;
    }
  }

  // ------------------------------------------------------------------ task modal callbacks

  /** taskUpdateHandler: the task (with `sectionId` stripped) replaces the first task with
      its id in the first section with its `sectionId`; any other case leaves the list. */
  function TaskUpdate(sections: seq<Section>, task: Task): (r: seq<Section>)
    ensures |r| == |sections|
    ensures !Truthy(task.sectionId) ==> r == sections
    ensures Truthy(task.sectionId) ==>
      var si := SectionIndex(sections, task.sectionId.value);
      if si < 0 || TaskIndex(sections[si].tasks, task.id) < 0 then r == sections
      else
        var ti := TaskIndex(sections[si].tasks, task.id);
        && (forall k :: 0 <= k < |r| && k != si ==> r[k] == sections[k])
        && r[si].(tasks := sections[si].tasks) == sections[si]
        && |r[si].tasks| == |sections[si].tasks|
        && r[si].tasks[ti] == task.(sectionId := None)
        && (forall j :: 0 <= j < |r[si].tasks| && j != ti ==> r[si].tasks[j] == sections[si].tasks[j])
  {
    if !Truthy(task.sectionId) then sections
    else
      var si := SectionIndex(sections, task.sectionId.value);
      if si < 0 then sections
      else
        var ti := TaskIndex(sections[si].tasks, task.id);
        // a missing task gives `task[-1] = rest`: a property, not an element of the list
        if ti < 0 then sections
        else sections[si := sections[si].(tasks := sections[si].tasks[ti := task.(sectionId := None)])]
  }

  /** `xs.splice(-1, 1)`: removes the last element of a non-empty list. */
  function RemoveLast<T>(s: seq<T>): (r: seq<T>)
    ensures s != [] ==> r == s[..|s| - 1]
    ensures s == [] ==> r == []
  {
    if s == [] then [] else s[..|s| - 1]
  }

  /** The tasks of a section after `tasks.splice(tasks.findIndex((t) => t.id === id), 1)`:
      the first task with that id is removed; when there is none, `findIndex` gives -1 and
      `splice(-1, 1)` removes the LAST task. */
  function DeleteTask(tasks: seq<Task>, id: Id): (rest: seq<Task>)
    ensures var ti := TaskIndex(tasks, id);
      && (0 <= ti ==> rest == Remove(tasks, ti) && forall k :: 0 <= k < ti ==> rest[k].id != id)
      && (ti < 0 ==> rest == RemoveLast(tasks))
  {
    var ti := TaskIndex(tasks, id);
    if ti >= 0 then Remove(tasks, ti) else RemoveLast(tasks)
  }

  /** taskDeleteHandler: the first section with the task's `sectionId` loses the task (or
      its last task, see DeleteTask); with a falsy or unknown `sectionId` nothing changes. */
  function TaskDelete(sections: seq<Section>, task: Task): (r: seq<Section>)
    ensures |r| == |sections|
    ensures !Truthy(task.sectionId) || SectionIndex(sections, task.sectionId.value) < 0 ==> r == sections
    ensures Truthy(task.sectionId) && 0 <= SectionIndex(sections, task.sectionId.value) ==>
      var si := SectionIndex(sections, task.sectionId.value);
      && (forall k :: 0 <= k < |r| && k != si ==> r[k] == sections[k])
      && r[si] == sections[si].(tasks := DeleteTask(sections[si].tasks, task.id))
  {
    if !Truthy(task.sectionId) then sections
    else
      var si := SectionIndex(sections, task.sectionId.value);
      if si < 0 then sections
      else sections[si := sections[si].(tasks := DeleteTask(sections[si].tasks, task.id))]
  }

  /** Deleting a task that is in its section removes it and keeps the other tasks in order. */
  lemma TaskDeleteKeepsOrder(sections: seq<Section>, task: Task)
    requires Truthy(task.sectionId)
    requires 0 <= SectionIndex(sections, task.sectionId.value)
    requires 0 <= TaskIndex(sections[SectionIndex(sections, task.sectionId.value)].tasks, task.id)
    ensures var si := SectionIndex(sections, task.sectionId.value);
      var tasks := sections[si].tasks;
      var ti := TaskIndex(tasks, task.id);
      var after := TaskDelete(sections, task)[si].tasks;
      && |after| == |tasks| - 1
      && tasks == after[..ti] + [tasks[ti]] + after[ti..]
      && tasks[ti].id == task.id
  {
    var si := SectionIndex(sections, task.sectionId.value);
    var tasks := sections[si].tasks;
    var ti := TaskIndex(tasks, task.id);
    var after := TaskDelete(sections, task)[si].tasks;
    assert after == Remove(tasks, ti);
    assert after == tasks[..ti] + tasks[ti + 1..];
    assert after[..ti] == tasks[..ti];
    assert after[ti..] == tasks[ti + 1..];
    assert tasks == tasks[..ti] + [tasks[ti]] + tasks[ti + 1..];
  }

  // ------------------------------------------------------------------ create and delete

  /** handleCreateTask: once the remote create resolves, the new task is put at the front
      (`unshift`) of every section with that id; a failed create changes nothing. */
  function CreateTask(sections: seq<Section>, sectionId: Id, created: Response<Task>): (r: seq<Section>)
    ensures |r| == |sections|
    ensures created.Threw? ==> r == sections
    ensures created.Returned? ==> forall k :: 0 <= k < |r| ==>
      r[k] == if sections[k].id == sectionId then sections[k].(tasks := [created.value] + sections[k].tasks) else sections[k]
  {
    match created
    case Threw => sections
    case Returned(t) =>
      seq(|sections|, k requires 0 <= k < |sections| =>
        if sections[k].id == sectionId then sections[k].(tasks := [t] + sections[k].tasks) else sections[k])
  }

  /** handleAddSection: the created section is appended. */
  function AddSection(sections: seq<Section>, created: Response<Section>): (r: seq<Section>)
    ensures created.Threw? ==> r == sections
    ensures created.Returned? ==> |r| == |sections| + 1 && r[..|sections|] == sections && r[|sections|] == created.value
  {
    match created
    case Threw => sections
    case Returned(s) => sections + [s]
  }

  /** handleDeleteSection: after the remote delete resolves, every section with the
      returned id is filtered out and the others keep their order. */
  function DeleteSection(sections: seq<Section>, removed: Response<Id>): (r: seq<Section>)
    ensures removed.Threw? ==> r == sections
    ensures removed.Returned? ==>
      && |r| <= |sections|
      && (forall k :: 0 <= k < |r| ==> r[k].id != removed.value && r[k] in sections)
      && (forall k :: 0 <= k < |sections| && sections[k].id != removed.value ==> sections[k] in r)
      && (forall s :: multiset(r)[s] == if s.id == removed.value then 0 else multiset(sections)[s])
      && Subsequence(r, sections)
  {
    match removed
    case Threw => sections
    case Returned(id) => Filter(sections, (s: Section) => s.id != id)
  }

  // ------------------------------------------------------------------ section title

  /** The local half of handleEditSection: every section with that id gets the new title. */
  function RetitleSection(sections: seq<Section>, id: Id, title: string): (r: seq<Section>)
    ensures |r| == |sections|
    ensures forall k :: 0 <= k < |r| ==>
      r[k].(title := sections[k].title) == sections[k]
      && r[k].title == (if sections[k].id == id then title else sections[k].title)
  {
    seq(|sections|, k requires 0 <= k < |sections| =>
      if sections[k].id == id then sections[k].(title := title) else sections[k])
  }

  /** handleEditSection: retitles the section at once and reschedules the file's single
      timer to send `{id, title}` after the quiet period. */
  method EditSection(sections: seq<Section>, timer: Debounce.ModuleTimer<SectionWrite>, id: Id, value: string)
    returns (newSections: seq<Section>)
    modifies timer
    ensures newSections == RetitleSection(sections, id, value)
    ensures timer.State() == Debounce.Step(old(timer.State()), Debounce.Edit(Some(SectionWrite(id, value))))
  {
    newSections := RetitleSection(sections, id, value);
    timer.Reschedule(Some(SectionWrite(id, value)));
  }

  /** The timer is shared by every column: retitling a second column before the first
      one's quiet period ends cancels the first column's write, so only the second
      column's title reaches the server. */
  lemma SharedTimerAcrossSections(t: Debounce.Timer<SectionWrite>, a: Id, x: string, b: Id, y: string)
    ensures Debounce.Run(t, Debounce.Edits([SectionWrite(a, x), SectionWrite(b, y)]) + [Debounce.Elapse]).sent
         == t.sent + [SectionWrite(b, y)]
  {
    Debounce.BurstThenPause(t, [SectionWrite(a, x), SectionWrite(b, y)]);
  }

  // ------------------------------------------------------------------ header count

  /** The sections the "Not-Archived" count is taken over. */
  function CountedSections(sections: seq<Section>, includeArchived: bool): (r: seq<Section>)
    ensures includeArchived ==> r == sections
    ensures forall s :: multiset(r)[s] == if s.archived && !includeArchived then 0 else multiset(sections)[s]
    ensures Subsequence(r, sections)
  {
    if includeArchived then SubsequenceRefl(sections); sections
    else Filter(sections, (s: Section) => !s.archived)
  }

  function ArchivedCount(sections: seq<Section>): nat
  {
    if sections == [] then 0 else (if sections[0].archived then 1 else 0) + ArchivedCount(sections[1..])
  }

  /** The "Not-Archived" figure is the section count when archived sections are shown,
      and otherwise the sections minus the archived ones. */
  lemma {:induction false} NotArchivedCount(sections: seq<Section>, includeArchived: bool)
    ensures includeArchived ==> |CountedSections(sections, includeArchived)| == |sections|
    ensures !includeArchived ==> |CountedSections(sections, includeArchived)| == |sections| - ArchivedCount(sections)
  {
    if !includeArchived && sections != [] {
      NotArchivedCount(sections[1..], false);
    }
  }
}
