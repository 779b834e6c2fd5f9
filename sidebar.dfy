/** The sidebar: the user's boards in order, the board reorder by drag and drop, the
    initial load that also derives the favourites, and board creation. */
module Sidebar {
  import opened Common
  import opened Lists
  import opened DragDrop
  import opened Store

  /** The favourites order: ascending `favoritePosition`. */
  function FavoritePosition(b: Board): int
  {
    b.favoritePosition
  }

  /** onDragEnd: no destination does nothing. Otherwise a copy of the list is spliced in
      place and the new order is sent; there is no same-place guard, so a drop onto the
      board's own place gives an equal list and still makes the call. */
  method OnDragEnd(boards: seq<Board>, r: DropResult) returns (newBoards: seq<Board>, call: Option<seq<Board>>)
    requires r.destination.Over? ==> r.source.index < |boards|
    ensures r.destination.Outside? ==> newBoards == boards && call == None
    ensures r.destination.Over? ==>
      && newBoards == Move(boards, r.source.index, r.destination.at.index)
      && |newBoards| == |boards|
      && multiset(newBoards) == multiset(boards)
      && newBoards[Landing(r.destination.at.index, |boards|)] == boards[r.source.index]
      && Remove(newBoards, Landing(r.destination.at.index, |boards|)) == Remove(boards, r.source.index)
      && call == Some(newBoards)
    ensures r.destination.Over? && r.destination.at.index == r.source.index ==> newBoards == boards && call == Some(boards)
  {
    if r.destination.Outside? {
      return boards, None;
    }
    var newList := new Board[|boards|](k requires 0 <= k < |boards| => boards[k]);
    assert newList[..] == boards;
    MoveInPlace(newList, r.source.index, r.destination.at.index);
    newBoards := newList[..];
    MoveIsPermutation(boards, r.source.index, r.destination.at.index);
    MoveKeepsOthersInOrder(boards, r.source.index, r.destination.at.index);
    if r.destination.at.index == r.source.index {
      MoveToSameIndex(boards, r.source.index);
    }
    call := Some(newBoards);
  }

  /** getBoards: only a fetched, non-empty list changes the store. It becomes the boards
      list, its first board becomes active, and the favourites are exactly its boards
      marked favourite, ascending by `favoritePosition`. */
  function GetBoards(s: Store, data: Option<seq<Board>>): (r: Store)
    ensures data.None? || data.value == [] ==> r == s
    ensures data.Some? && data.value != [] ==>
      && r.boards == data.value
      && r.active == Some(data.value[0].id)
      && r.folders == s.folders
      && SortedBy(r.favorites, FavoritePosition)
      && multiset(r.favorites) == multiset(Filter(data.value, (b: Board) => b.favorite))
      && (forall k :: 0 <= k < |r.favorites| ==> r.favorites[k].favorite && r.favorites[k] in data.value)
      && (forall k :: 0 <= k < |data.value| && data.value[k].favorite ==> data.value[k] in r.favorites)
  {
    if data.None? || data.value == [] then s
    else Store(data.value, s.folders, FavoritesOf(data.value), Some(data.value[0].id))
  }

  /** The favourites of a fetched list: its boards marked favourite, stably sorted by
      `favoritePosition`. */
  function FavoritesOf(boards: seq<Board>): (favs: seq<Board>)
    ensures SortedBy(favs, FavoritePosition)
    ensures multiset(favs) == multiset(Filter(boards, (b: Board) => b.favorite))
    ensures forall k :: 0 <= k < |favs| ==> favs[k].favorite && favs[k] in boards
    ensures forall k :: 0 <= k < |boards| && boards[k].favorite ==> boards[k] in favs
  {
    var marked := Filter(boards, (b: Board) => b.favorite);
    var sorted := SortByKey(marked, FavoritePosition);
    forall k | 0 <= k < |sorted| ensures sorted[k].favorite && sorted[k] in boards {
      assert sorted[k] in multiset(marked);
    }
    forall k | 0 <= k < |boards| && boards[k].favorite ensures boards[k] in sorted {
      assert boards[k] in multiset(marked);
    }
    sorted
  }

  /** The create mutation's onSuccess: the new board goes first and becomes active. */
  function CreateOnSuccess(s: Store, created: Board): (r: Store)
    ensures |r.boards| == |s.boards| + 1 && r.boards[0] == created && r.boards[1..] == s.boards
    ensures r.active == Some(created.id)
    ensures r.folders == s.folders && r.favorites == s.favorites
  {
    s.(boards := [created] + s.boards, active := Some(created.id))
  }
}
