/** The server's board procedures over the board table. */
module BoardRouter {
  import opened Common
  import opened Lists
  import opened Table

  datatype BoardRow = BoardRow(
    title: string,
    icon: string,
    description: string,
    position: int,
    favorite: bool,
    favoritePosition: int,
    createdAt: int,
    userId: Id,
    archived: bool,
    folderId: Option<Id>)

  /** The data of the reorder updates: `{position: parseInt(key)}`. */
  function SetPosition(b: BoardRow, key: nat): BoardRow
  {
    b.(position := key)
  }

  function Position(b: BoardRow): int
  {
    b.position
  }

  /** The effect of the reorder on the table: the reversed list, then one update per
      index. */
  function Reindexed(rows: map<Id, BoardRow>, boards: seq<Id>): Applied<BoardRow>
  {
    UpdateAll(rows, Reverse(boards), SetPosition)
  }

  /** updatePosition: `input.boards.reverse()` in place, then the loop of updates. It
      answers `{message: 'success'}`, or nothing once an update has thrown. */
  method UpdatePosition(rows: map<Id, BoardRow>, boards: seq<Id>) returns (out: map<Id, BoardRow>, message: Option<string>)
    ensures var a := Reindexed(rows, boards);
      out == a.rows && message == (if a.failed then None else Some("success"))
  {
    var list := ReversedCopy(boards);
    var failed;
    out, failed := UpdateEach(rows, list, SetPosition);
    message := if failed then None else Some("success");
  }

  /** updateFavoritePositon: the same body as updatePosition. It writes `position`, so
      the favourites order overwrites the boards order, and `favoritePosition` is never
      written. */
  method UpdateFavoritePositon(rows: map<Id, BoardRow>, boards: seq<Id>) returns (out: map<Id, BoardRow>, message: Option<string>)
    ensures var a := Reindexed(rows, boards);
      out == a.rows && message == (if a.failed then None else Some("success"))
  {
    out, message := UpdatePosition(rows, boards);
  }

  /** Every field but `position`. */
  function ButPosition(b: BoardRow): BoardRow
  {
    b.(position := 0)
  }

  /** The reorder writes nothing but `position`, whatever the list, even when an update
      throws: every other field of every row, `favoritePosition` included, keeps its
      value. */
  lemma ReorderKeepsOtherFields(rows: map<Id, BoardRow>, boards: seq<Id>)
    ensures var out := Reindexed(rows, boards).rows;
      out.Keys == rows.Keys
      && forall id :: id in rows ==> out[id] == rows[id].(position := out[id].position)
  {
    UpdateAllPreserves(rows, Reverse(boards), SetPosition, ButPosition);
  }

  /** For a list of distinct existing boards of length n, the board at index i gets
      position n-1-i: the head of the list gets the HIGHEST position. The positions
      given are exactly 0..n-1, pairwise distinct, and boards not in the list keep
      theirs. */
  lemma UpdatePositionReindexes(rows: map<Id, BoardRow>, boards: seq<Id>)
    requires Distinct(boards)
    requires forall k :: 0 <= k < |boards| ==> boards[k] in rows
    ensures var a := Reindexed(rows, boards);
      var n := |boards|;
      && !a.failed
      && (forall i :: 0 <= i < n ==> a.rows[boards[i]] == rows[boards[i]].(position := n - 1 - i))
      && (forall p :: 0 <= p < n ==> KeyTaken(a.rows, boards, Position, p))
      && (forall i, j :: 0 <= i < j < n ==> a.rows[boards[i]].position != a.rows[boards[j]].position)
      && (forall id :: id in rows && id !in boards ==> a.rows[id] == rows[id])
  {
    var n := |boards|;
    ReindexReversed(rows, boards, SetPosition);
    var a := Reindexed(rows, boards);
    forall p | 0 <= p < n ensures KeyTaken(a.rows, boards, Position, p) {
      assert a.rows[boards[n - 1 - p]].position == p;
    }
  }

  // ------------------------------------------------------------------ getAll

  function OwnedBy(user: Id): BoardRow -> bool
  {
    (b: BoardRow) => b.userId == user
  }

  /** What getAll may answer: the user's boards, by position descending. */
  ghost predicate GetAll(rows: map<Id, BoardRow>, user: Id, out: seq<Id>)
  {
    IsListing(rows, OwnedBy(user), Position, true, out)
  }

  /** Reorder, then list: after updatePosition with a user's full board list, getAll
      answers that list, in that order, and no other. */
  lemma GetAllAfterUpdatePosition(rows: map<Id, BoardRow>, user: Id, boards: seq<Id>, listed: seq<Id>)
    requires Distinct(boards)
    requires forall id :: id in rows ==> (rows[id].userId == user <==> id in boards)
    requires forall k :: 0 <= k < |boards| ==> boards[k] in rows
    ensures GetAll(Reindexed(rows, boards).rows, user, boards)
    ensures GetAll(Reindexed(rows, boards).rows, user, listed) ==> listed == boards
  {
    var out := Reindexed(rows, boards).rows;
    UpdatePositionReindexes(rows, boards);
    ReorderKeepsOtherFields(rows, boards);
    ReindexedIsListing(rows, out, user, boards);
    if GetAll(out, user, listed) {
      ListingUnique(out, OwnedBy(user), Position, boards, listed);
    }
  }

  /** A table in which only positions changed, and the user's boards got n-1-i in list
      order, lists that user's boards in list order. */
  lemma ReindexedIsListing(rows: map<Id, BoardRow>, out: map<Id, BoardRow>, user: Id, boards: seq<Id>)
    requires Distinct(boards)
    requires forall id :: id in rows ==> (rows[id].userId == user <==> id in boards)
    requires out.Keys == rows.Keys
    requires forall id :: id in rows ==> out[id] == rows[id].(position := out[id].position)
    requires forall i :: 0 <= i < |boards| ==> boards[i] in rows && out[boards[i]].position == |boards| - 1 - i
    ensures forall i :: 0 <= i < |boards| ==> boards[i] in out && Position(out[boards[i]]) == |boards| - 1 - i
    ensures forall id :: id in out ==> (OwnedBy(user)(out[id]) <==> id in boards)
    ensures GetAll(out, user, boards)
  {
    forall id | id in out ensures OwnedBy(user)(out[id]) <==> id in boards {
      assert out[id].userId == rows[id].userId;
    }
  }

  // ------------------------------------------------------------------ create, update, delete

  /** create: the new board's position is `count > 0 ? count + 1 : 1`, the count taken
      over ALL boards; both branches come to count + 1. The other columns are the
      schema's defaults, given here as a template row. */
  function Create(rows: map<Id, BoardRow>, newId: Id, userId: Id, template: BoardRow): (r: (map<Id, BoardRow>, BoardRow))
    requires newId !in rows
    ensures r.1.position == |rows| + 1
    ensures r.1 == template.(userId := userId, position := |rows| + 1)
    ensures r.0 == rows[newId := r.1] && |r.0| == |rows| + 1
  {
    var count := |rows|;
    var row := template.(userId := userId, position := if count > 0 then count + 1 else 1);
    (rows[newId := row], row)
  }

  /** The input of update; a missing field takes the schema's default. */
  datatype UpdateInput = UpdateInput(
    id: Id,
    title: Option<string>,
    icon: Option<string>,
    description: Option<string>,
    favorite: Option<bool>)

  function OrElse<T>(o: Option<T>, d: T): T
  {
    if o.Some? then o.value else d
  }

  /** update: writes title, icon, description and favourite, each defaulted when absent
      ('Untitled', '⛩', 'Add description here', false); a missing board makes the update
      throw, which is caught and answered with null. */
  function Update(rows: map<Id, BoardRow>, input: UpdateInput): (r: (map<Id, BoardRow>, Option<BoardRow>))
    ensures input.id !in rows ==> r == (rows, None)
    ensures input.id in rows ==>
      && r.1.Some?
      && var b := r.1.value;
      && r.0 == rows[input.id := b]
      && b.(title := rows[input.id].title, icon := rows[input.id].icon,
            description := rows[input.id].description, favorite := rows[input.id].favorite) == rows[input.id]
      && (input.title.None? ==> b.title == "Untitled")
      && (input.icon.None? ==> b.icon == "⛩")
      && (input.description.None? ==> b.description == "Add description here")
      && (input.favorite.None? ==> !b.favorite)
      && (input.title.Some? ==> b.title == input.title.value)
      && (input.icon.Some? ==> b.icon == input.icon.value)
      && (input.description.Some? ==> b.description == input.description.value)
      && (input.favorite.Some? ==> b.favorite == input.favorite.value)
  {
    if input.id !in rows then (rows, None)
    else
      var b := rows[input.id].(
        title := OrElse(input.title, "Untitled"),
        icon := OrElse(input.icon, "⛩"),
        description := OrElse(input.description, "Add description here"),
        favorite := OrElse(input.favorite, false));
      (rows[input.id := b], Some(b))
  }

  /** deleteBoard: when no board has that id and that user, the NOT_FOUND error is
      caught and the answer is null, with nothing deleted; otherwise the board is
      deleted and returned. */
  function DeleteBoard(rows: map<Id, BoardRow>, id: Id, userId: Id): (r: (map<Id, BoardRow>, Option<BoardRow>))
    ensures !(id in rows && rows[id].userId == userId) ==> r == (rows, None)
    ensures id in rows && rows[id].userId == userId ==>
      && r.1 == Some(rows[id])
      && r.0.Keys == rows.Keys - {id}
      && (forall k :: k in r.0 ==> r.0[k] == rows[k])
  {
    if id in rows && rows[id].userId == userId then (rows - {id}, Some(rows[id])) else (rows, None)
  }
}
