/** The part of react-beautiful-dnd's `DropResult` that the drop handlers read. */
module DragDrop {

  /** A droppable list and an index in it. */
  datatype Location = Location(droppableId: string, index: nat)

  /** The `type` given to the `Droppable`: the Kanban board uses 'SECTIONS' for its columns
      and 'TASKS' for the cards; any other value reaches neither case of its switch. */
  datatype DropKind = SectionsKind | TasksKind | OtherKind

  /** `destination` is absent when the item was dropped outside every droppable. */
  datatype DropResult = DropResult(source: Location, destination: DropTarget, kind: DropKind)

  datatype DropTarget = Outside | Over(at: Location)

  /** The guard shared by the Kanban and favourites handlers: no destination, or the same
      droppable and the same index. */
  predicate DroppedInPlace(r: DropResult)
  {
    r.destination.Outside?
    || (r.destination.at.droppableId == r.source.droppableId && r.destination.at.index == r.source.index)
  }
}
