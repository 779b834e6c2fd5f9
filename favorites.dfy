/** The favourites list in the sidebar and its drag-and-drop reorder. */
module Favorites {
  import opened Common
  import opened Lists
  import opened DragDrop
  import opened Store

  function Ids(boards: seq<Board>): set<Id>
  {
    set b | b in boards :: b.id
  }

  /** onDragEnd: a drop outside, or onto its own place, does nothing. Otherwise the
      favourites are a splice move of the old ones (same length, same boards, hence the
      same ids; the moved board at the destination index; the others in their old
      order), and that new order is what is sent to `updateFavoritePositon`. */
  method OnDragEnd(favorites: seq<Board>, r: DropResult) returns (newFavorites: seq<Board>, call: Option<seq<Board>>)
    requires !DroppedInPlace(r) ==> r.source.index < |favorites|
    ensures DroppedInPlace(r) ==> newFavorites == favorites && call == None
    ensures !DroppedInPlace(r) ==>
      && newFavorites == Move(favorites, r.source.index, r.destination.at.index)
      && |newFavorites| == |favorites|
      && multiset(newFavorites) == multiset(favorites)
      && Ids(newFavorites) == Ids(favorites)
      && newFavorites[Landing(r.destination.at.index, |favorites|)] == favorites[r.source.index]
      && Remove(newFavorites, Landing(r.destination.at.index, |favorites|)) == Remove(favorites, r.source.index)
      && call == Some(newFavorites)
  {
    if r.destination.Outside? {
      return favorites, None;
    }
    if r.destination.at.droppableId == r.source.droppableId && r.source.index == r.destination.at.index {
      return favorites, None;
    }
    var newList := new Board[|favorites|](k requires 0 <= k < |favorites| => favorites[k]);
    assert newList[..] == favorites;
    MoveInPlace(newList, r.source.index, r.destination.at.index);
    newFavorites := newList[..];
    MoveIsPermutation(favorites, r.source.index, r.destination.at.index);
    MoveKeepsOthersInOrder(favorites, r.source.index, r.destination.at.index);
    SameElementsSameIds(newFavorites, favorites);
    call := Some(newFavorites);
  }

  lemma SameElementsSameIds(a: seq<Board>, b: seq<Board>)
    requires multiset(a) == multiset(b)
    ensures Ids(a) == Ids(b)
  {
    forall x | x in a ensures x in b {
      assert x in multiset(a);
    }
    forall x | x in b ensures x in a {
      assert x in multiset(b);
    }
  }
}
