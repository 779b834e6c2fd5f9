/** The client store: the boards list, the folders (each holding its boards), the
    favourites list and the active-board id. Every setter of the store replaces one of
    these values as a whole, so the store is a record of values. */
module Store {
  import opened Common
  import opened Lists

  datatype Board = Board(
    id: Id,
    title: string,
    icon: string,
    description: string,
    position: int,
    favorite: bool,
    favoritePosition: int,
    createdAt: int,
    userId: Id,
    archived: bool,
    folderId: Option<Id>)

  datatype Folder = Folder(id: Id, name: string, userSchemaId: Id, position: int, boards: seq<Board>)

  /** `active` is the active-board id; it becomes `undefined` (None) once the last board
      is deleted. */
  datatype Store = Store(boards: seq<Board>, folders: seq<Folder>, favorites: seq<Board>, active: Option<Id>)

  /** `board.id === activeBoard`. */
  predicate IsActive(b: Board, active: Option<Id>)
  {
    active == Some(b.id)
  }

  /** `boards.find((board) => board.id === activeBoard)`: the first board with the
      active id, if any. */
  function Current(boards: seq<Board>, active: Option<Id>): (r: Option<Board>)
    ensures r.Some? <==> exists k :: 0 <= k < |boards| && IsActive(boards[k], active)
    ensures r.Some? ==> r.value in boards && IsActive(r.value, active)
    ensures r.Some? ==> exists k ::
      && 0 <= k < |boards| && r.value == boards[k] && IsActive(boards[k], active)
      && forall j :: 0 <= j < k ==> !IsActive(boards[j], active)
  {
    var k := FindIndex(boards, (b: Board) => IsActive(b, active));
    if k < 0 then None else Some(boards[k])
  }

  /** `boards.map((b) => b.id === activeBoard ? f(b) : b)`. */
  function MapActive(boards: seq<Board>, active: Option<Id>, f: Board -> Board): (r: seq<Board>)
    ensures |r| == |boards|
    ensures forall k :: 0 <= k < |r| ==> r[k] == if IsActive(boards[k], active) then f(boards[k]) else boards[k]
  {
    seq(|boards|, k requires 0 <= k < |boards| => if IsActive(boards[k], active) then f(boards[k]) else boards[k])
  }

  /** `boards.filter((board) => board.id !== activeBoard)`: the other boards, each as
      often as before and in their order; the first of them is the first board that is
      not active. */
  function WithoutActive(boards: seq<Board>, active: Option<Id>): (r: seq<Board>)
    ensures |r| <= |boards|
    ensures forall k :: 0 <= k < |r| ==> !IsActive(r[k], active) && r[k] in boards
    ensures forall k :: 0 <= k < |boards| && !IsActive(boards[k], active) ==> boards[k] in r
    ensures forall b :: multiset(r)[b] == if IsActive(b, active) then 0 else multiset(boards)[b]
    ensures Subsequence(r, boards)
    ensures r != [] ==> exists k :: 0 <= k < |boards| && r[0] == boards[k] && !IsActive(boards[k], active)
                                && forall j :: 0 <= j < k ==> IsActive(boards[j], active)
  {
    var other := (b: Board) => !IsActive(b, active);
    FilterHead(boards, other);
    Filter(boards, other)
  }
}
