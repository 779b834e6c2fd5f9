/** A task card in a section: whether it is shown, its label, and what clicking it
    selects. */
module Tasks {
  import opened Common
  import opened Kanban
  import opened Lists

  /** The card's `display`: 'none' exactly when the task is archived and archived tasks
      are not being shown. */
  predicate Hidden(t: Task, showArchivedTasks: bool)
    ensures showArchivedTasks ==> !Hidden(t, showArchivedTasks)
  {
    t.archived && !showArchivedTasks
  }

  /** The cards of a list that are displayed: the cards that are not hidden, each as
      often as in the list and in its order. */
  function Shown(tasks: seq<Task>, showArchivedTasks: bool): (r: seq<Task>)
    ensures forall t :: multiset(r)[t] == if Hidden(t, showArchivedTasks) then 0 else multiset(tasks)[t]
    ensures Subsequence(r, tasks)
  {
    Filter(tasks, (t: Task) => !Hidden(t, showArchivedTasks))
  }

  /** With the flag on every card is displayed, in order; with it off exactly the cards
      that are not archived are. */
  lemma {:induction false} Visibility(tasks: seq<Task>, showArchivedTasks: bool)
    ensures showArchivedTasks ==> Shown(tasks, showArchivedTasks) == tasks
    ensures !showArchivedTasks ==>
      && (forall k :: 0 <= k < |Shown(tasks, false)| ==> !Shown(tasks, false)[k].archived)
      && (forall k :: 0 <= k < |tasks| && !tasks[k].archived ==> tasks[k] in Shown(tasks, false))
  {
    if showArchivedTasks && tasks != [] {
      Visibility(tasks[1..], true);
    }
  }

  /** The label: 'Untitled' for an empty title, the title otherwise. */
  function Label(t: Task): (s: string)
    ensures s == "Untitled" <==> (t.title == "" || t.title == "Untitled")
    ensures t.title != "" ==> s == t.title
    ensures s != ""
  {
    if t.title == "" then "Untitled" else t.title
  }

  /** The click handler: the same task with the card's section id attached. */
  function Selection(t: Task, sectionId: Id): (r: Task)
    ensures r.sectionId == Some(sectionId)
    ensures r.(sectionId := t.sectionId) == t
  {
    t.(sectionId := Some(sectionId))
  }
}
