/** The board page: the active board's title, description, icon, favourite and archive
    controls, its sections, and the handlers that update the store and the server. */
module BoardPage {
  import opened Common
  import opened Lists
  import opened Store
  import Kanban
  import Debounce

  /** The page's local state. The values read from `currentBoard?.…` are undefined (None)
      until the board is known. */
  datatype View = View(
    title: Option<string>,
    description: Option<string>,
    isFavorite: Option<bool>,
    icon: string,
    isArchived: Option<bool>,
    sections: seq<Kanban.Section>)

  datatype Page = Page(store: Store, view: View)

  /** The payload of `board.update`. */
  datatype BoardWrite = BoardWrite(
    id: Option<Id>,
    description: Option<string>,
    title: Option<string>,
    icon: string,
    favorite: Option<bool>)

  /** The payload of `board.archiveBoard`. */
  datatype ArchiveRequest = ArchiveRequest(boardId: Id, prevState: bool)

  /** JavaScript truthiness of a possibly undefined boolean. */
  predicate Yes(b: Option<bool>)
  {
    b == Some(true)
  }

  // ------------------------------------------------------------------ fetchBoard

  /** What `getOne` hands back; `archived` is optional because its select leaves it out. */
  datatype BoardData = BoardData(
    title: string,
    description: string,
    sections: seq<Kanban.Section>,
    favorite: bool,
    icon: string,
    archived: Option<bool>)

  /** The key the page's comparator `a.position - b.position` sees. The section select of
      `getOne` carries no position, so the difference is `undefined - undefined`, NaN,
      which `sort` reads as 0: every pair of sections compares equal. */
  function UnselectedPosition(s: Kanban.Section): int
  {
    0
  }

  /** fetchBoard: loads the board's fields into the page. The sections go through the
      position sort, which with no position selected keeps the server's order; with no
      data they are empty. */
  function FetchBoard(v: View, data: Option<BoardData>): (r: View)
    ensures data.None? ==> r == View(None, None, None, "📝", Some(false), [])
    ensures data.Some? ==>
      && r.title == Some(data.value.title)
      && r.description == Some(data.value.description)
      && r.isFavorite == Some(data.value.favorite)
      && r.icon == (if data.value.icon == "" then "📝" else data.value.icon)
      && r.isArchived == Some(Yes(data.value.archived))
      && r.sections == data.value.sections
  {
    match data
    case None => View(None, None, None, "📝", Some(false), [])
    case Some(d) =>
      SortByEqualKeysKeepsOrder(d.sections, UnselectedPosition);
      View(Some(d.title), Some(d.description), Some(d.favorite),
        if d.icon == "" then "📝" else d.icon,
        Some(Yes(d.archived)),
        SortByKey(d.sections, UnselectedPosition))
  }

  /** A stable sort by a key that never differs keeps the list's order. */
  lemma {:induction false} SortByEqualKeysKeepsOrder(s: seq<Kanban.Section>, key: Kanban.Section -> int)
    requires forall k :: 0 <= k < |s| ==> key(s[k]) == key(s[0])
    ensures SortByKey(s, key) == s
  {
    if s != [] {
      SortByEqualKeysKeepsOrder(s[1..], key);
      assert SortByKey(s, key) == InsertByKey(s[0], s[1..], key);
    }
  }

  // ------------------------------------------------------------------ icon, title, description

  /** onEmojiChange: the icon of the active board changes in `boards`, and in the
      favourites when the board is a favourite; the write goes out at once, carrying the
      page's current title, description and favourite flag. */
  function OnEmojiChange(p: Page, emoji: string): (r: (Page, BoardWrite))
    ensures r.0.view == p.view.(icon := emoji)
    ensures r.0.store.active == p.store.active && r.0.store.folders == p.store.folders
    ensures |r.0.store.boards| == |p.store.boards|
    ensures forall k :: 0 <= k < |p.store.boards| ==>
      var b := p.store.boards[k];
      r.0.store.boards[k] == if IsActive(b, p.store.active) then b.(icon := emoji) else b
    ensures !Yes(p.view.isFavorite) ==> r.0.store.favorites == p.store.favorites
    ensures Yes(p.view.isFavorite) ==>
      r.0.store.favorites == MapActive(p.store.favorites, p.store.active, (b: Board) => b.(icon := emoji))
    ensures r.1 == BoardWrite(p.store.active, p.view.description, p.view.title, emoji, p.view.isFavorite)
  {
    var setIcon := (b: Board) => b.(icon := emoji);
    var fav := if Yes(p.view.isFavorite) then MapActive(p.store.favorites, p.store.active, setIcon) else p.store.favorites;
    var store := p.store.(boards := MapActive(p.store.boards, p.store.active, setIcon), favorites := fav);
    (Page(store, p.view.(icon := emoji)),
     BoardWrite(p.store.active, p.view.description, p.view.title, emoji, p.view.isFavorite))
  }

  /** The local half of updateTitle: only the active board's title changes, in `boards`
      and, if and only if the board is a favourite, in the favourites. */
  function TitleEdit(p: Page, newTitle: string): (r: Page)
    ensures r.view == p.view.(title := Some(newTitle))
    ensures r.store.active == p.store.active && r.store.folders == p.store.folders
    ensures |r.store.boards| == |p.store.boards|
    ensures forall k :: 0 <= k < |p.store.boards| ==>
      var b := p.store.boards[k];
      && r.store.boards[k].(title := b.title) == b
      && r.store.boards[k].title == (if IsActive(b, p.store.active) then newTitle else b.title)
    ensures !Yes(p.view.isFavorite) ==> r.store.favorites == p.store.favorites
    ensures Yes(p.view.isFavorite) ==> |r.store.favorites| == |p.store.favorites|
    ensures Yes(p.view.isFavorite) ==> forall k :: 0 <= k < |p.store.favorites| ==>
      var b := p.store.favorites[k];
      && r.store.favorites[k].(title := b.title) == b
      && r.store.favorites[k].title == (if IsActive(b, p.store.active) then newTitle else b.title)
  {
    var setTitle := (b: Board) => b.(title := newTitle);
    var fav := if Yes(p.view.isFavorite) then MapActive(p.store.favorites, p.store.active, setTitle) else p.store.favorites;
    Page(p.store.(boards := MapActive(p.store.boards, p.store.active, setTitle), favorites := fav),
         p.view.(title := Some(newTitle)))
  }

  /** The write updateTitle schedules: the new title with the page's other values. */
  function TitleWrite(p: Page, newTitle: string): (w: BoardWrite)
    ensures w.id == p.store.active && w.title == Some(newTitle)
    ensures w.description == p.view.description && w.icon == p.view.icon && w.favorite == p.view.isFavorite
  {
    BoardWrite(p.store.active, p.view.description, Some(newTitle), p.view.icon, p.view.isFavorite)
  }

  /** The local half of updateDescription: only the active board's description changes,
      and only in `boards` (the favourites are not touched). */
  function DescriptionEdit(p: Page, newDescription: string): (r: Page)
    ensures r.view == p.view.(description := Some(newDescription))
    ensures r.store.active == p.store.active && r.store.folders == p.store.folders
    ensures r.store.favorites == p.store.favorites
    ensures |r.store.boards| == |p.store.boards|
    ensures forall k :: 0 <= k < |p.store.boards| ==>
      var b := p.store.boards[k];
      && r.store.boards[k].(description := b.description) == b
      && r.store.boards[k].description == (if IsActive(b, p.store.active) then newDescription else b.description)
  {
    Page(p.store.(boards := MapActive(p.store.boards, p.store.active, (b: Board) => b.(description := newDescription))),
         p.view.(description := Some(newDescription)))
  }

  /** The write updateDescription schedules. */
  function DescriptionWrite(p: Page, newDescription: string): (w: BoardWrite)
    ensures w.id == p.store.active && w.description == Some(newDescription)
    ensures p.view.title.Some? ==> w.(description := p.view.description) == TitleWrite(p, p.view.title.value)
  {
    BoardWrite(p.store.active, Some(newDescription), p.view.title, p.view.icon, p.view.isFavorite)
  }

  /** updateTitle: clears the page's single timer, updates the page, and schedules the
      title write. */
  method UpdateTitle(p: Page, timer: Debounce.ModuleTimer<BoardWrite>, newTitle: string) returns (q: Page)
    modifies timer
    ensures q == TitleEdit(p, newTitle)
    ensures timer.State() == Debounce.Step(old(timer.State()), Debounce.Edit(Some(TitleWrite(p, newTitle))))
  {
    q := TitleEdit(p, newTitle);
    timer.Reschedule(Some(TitleWrite(p, newTitle)));
  }

  /** updateDescription: the same timer, the description write. */
  method UpdateDescription(p: Page, timer: Debounce.ModuleTimer<BoardWrite>, newDescription: string) returns (q: Page)
    modifies timer
    ensures q == DescriptionEdit(p, newDescription)
    ensures timer.State() == Debounce.Step(old(timer.State()), Debounce.Edit(Some(DescriptionWrite(p, newDescription))))
  {
    q := DescriptionEdit(p, newDescription);
    timer.Reschedule(Some(DescriptionWrite(p, newDescription)));
  }

  /** Title and description share the timer: a title edit followed by a description
      edit within the quiet period sends one write, and because each handler reads the
      page after the previous edit, that write carries both new values. */
  lemma TitleThenDescription(t: Debounce.Timer<BoardWrite>, p: Page, newTitle: string, newDescription: string)
    ensures var q := TitleEdit(p, newTitle);
      Debounce.Run(t, Debounce.Edits([TitleWrite(p, newTitle), DescriptionWrite(q, newDescription)]) + [Debounce.Elapse]).sent
        == t.sent + [BoardWrite(p.store.active, Some(newDescription), Some(newTitle), p.view.icon, p.view.isFavorite)]
  {
    var q := TitleEdit(p, newTitle);
    Debounce.BurstThenPause(t, [TitleWrite(p, newTitle), DescriptionWrite(q, newDescription)]);
  }

  /** A burst of title edits sends exactly one write, with the last title. */
  lemma TitleBurst(t: Debounce.Timer<BoardWrite>, p: Page, titles: seq<string>)
    requires titles != []
    ensures Debounce.Run(t, Debounce.Edits(TitleWrites(p, titles)) + [Debounce.Elapse]).sent
         == t.sent + [TitleWrite(p, titles[|titles| - 1])]
  {
    Debounce.BurstThenPause(t, TitleWrites(p, titles));
  }

  /** The writes scheduled by typing `titles` one after the other. Only the title
      changes between them, so each is the page's write with that title. */
  function TitleWrites(p: Page, titles: seq<string>): (ws: seq<BoardWrite>)
    ensures |ws| == |titles|
    ensures forall k :: 0 <= k < |titles| ==> ws[k] == TitleWrite(p, titles[k])
  {
    seq(|titles|, k requires 0 <= k < |titles| => TitleWrite(p, titles[k]))
  }

  /** The icon write does not touch the timer: a title write scheduled before an emoji
      change still carries the old icon, and it is sent after the icon write. */
  lemma EmojiDuringPendingTitle(t: Debounce.Timer<BoardWrite>, p: Page, newTitle: string, emoji: string)
    requires emoji != p.view.icon
    ensures var q := TitleEdit(p, newTitle);
      var (_, iconWrite) := OnEmojiChange(q, emoji);
      var u := Debounce.Run(t, [Debounce.Edit(Some(TitleWrite(p, newTitle))), Debounce.Elapse]);
      && iconWrite.icon == emoji
      && u.sent == t.sent + [TitleWrite(p, newTitle)]
      && u.sent[|u.sent| - 1].icon != emoji
  {
    Debounce.BurstThenPause(t, [TitleWrite(p, newTitle)]);
    assert Debounce.Edits([TitleWrite(p, newTitle)]) == [Debounce.Edit(Some(TitleWrite(p, newTitle)))];
  }

  // ------------------------------------------------------------------ favourite

  /** toggleFavorite: the write goes out first; only once it resolves is the page's flag
      flipped and the favourites updated. A former favourite is filtered out; otherwise
      the board, as found in `boards`, is appended. `boards` itself is never updated,
      so the appended entry keeps its old `favorite` field. */
  function ToggleFavorite(p: Page, resolved: bool): (r: (Page, BoardWrite))
    ensures r.1 == BoardWrite(p.store.active, p.view.description, p.view.title, p.view.icon, Some(!Yes(p.view.isFavorite)))
    ensures !resolved ==> r.0 == p
    ensures resolved ==> r.0.view == p.view.(isFavorite := Some(!Yes(p.view.isFavorite)))
    ensures r.0.store.boards == p.store.boards && r.0.store.folders == p.store.folders
    ensures r.0.store.active == p.store.active
    ensures resolved && Yes(p.view.isFavorite) ==> r.0.store.favorites == WithoutActive(p.store.favorites, p.store.active)
    ensures resolved && !Yes(p.view.isFavorite) ==>
      var c := Current(p.store.boards, p.store.active);
      r.0.store.favorites == p.store.favorites + (if c.Some? then [c.value] else [])
  {
    var write := BoardWrite(p.store.active, p.view.description, p.view.title, p.view.icon, Some(!Yes(p.view.isFavorite)));
    if !resolved then (p, write)
    else
      var c := Current(p.store.boards, p.store.active);
      var fav :=
        if Yes(p.view.isFavorite) then WithoutActive(p.store.favorites, p.store.active)
        else p.store.favorites + (if c.Some? then [c.value] else []);
      (Page(p.store.(favorites := fav), p.view.(isFavorite := Some(!Yes(p.view.isFavorite)))), write)
  }

  /** Favouriting a board appends it with the `favorite` flag it had in `boards`, which
      the page never sets: the new favourites entry says it is not a favourite. */
  lemma FavoriteAppendedWithStaleFlag(p: Page, b: Board)
    requires !Yes(p.view.isFavorite)
    requires Current(p.store.boards, p.store.active) == Some(b)
    requires !b.favorite
    ensures var q := ToggleFavorite(p, true).0;
      && |q.store.favorites| == |p.store.favorites| + 1
      && q.store.favorites[|p.store.favorites|] == b
      && IsActive(b, p.store.active) && !b.favorite
      && q.view.isFavorite == Some(true)
  {
  }

  // ------------------------------------------------------------------ delete

  /** No board of the folder has that id. */
  predicate Clean(f: Folder, id: Id)
  {
    forall j :: 0 <= j < |f.boards| ==> f.boards[j].id != id
  }

  /** The `map` step of onDeleteBoard's folder update: the deleted id leaves each
      folder's boards. */
  function StripFolders(folders: seq<Folder>, deletedId: Id): (r: seq<Folder>)
    ensures |r| == |folders|
    ensures forall k :: 0 <= k < |r| ==> r[k] == folders[k].(boards := WithoutId(folders[k].boards, deletedId))
    ensures forall k :: 0 <= k < |r| ==> Clean(r[k], deletedId)
  {
    seq(|folders|, k requires 0 <= k < |folders| => folders[k].(boards := WithoutId(folders[k].boards, deletedId)))
  }

  /** The folder update of onDeleteBoard: the deleted id leaves every folder, and
      folders left with no boards are dropped; the kept folders keep their order. */
  function PruneFolders(folders: seq<Folder>, deletedId: Id): (r: seq<Folder>)
    ensures var stripped := StripFolders(folders, deletedId);
      && |r| <= |folders|
      && (forall k :: 0 <= k < |r| ==> |r[k].boards| > 0 && Clean(r[k], deletedId) && r[k] in stripped)
      && (forall i :: 0 <= i < |folders| && (exists j :: 0 <= j < |folders[i].boards| && folders[i].boards[j].id != deletedId) ==>
            stripped[i] in r)
      && Subsequence(r, stripped)
      && (forall f :: multiset(r)[f] == if |f.boards| > 0 then multiset(stripped)[f] else 0)
  {
    var stripped := StripFolders(folders, deletedId);
    var r := Filter(stripped, (f: Folder) => |f.boards| > 0);
    PrunedFacts(folders, deletedId, stripped, r);
    r
  }

  lemma PrunedFacts(folders: seq<Folder>, deletedId: Id, stripped: seq<Folder>, r: seq<Folder>)
    requires stripped == StripFolders(folders, deletedId)
    requires forall k :: 0 <= k < |r| ==> r[k] in stripped
    requires forall k :: 0 <= k < |stripped| && |stripped[k].boards| > 0 ==> stripped[k] in r
    ensures forall k :: 0 <= k < |r| ==> Clean(r[k], deletedId)
    ensures forall i :: 0 <= i < |folders| && (exists j :: 0 <= j < |folders[i].boards| && folders[i].boards[j].id != deletedId) ==>
      stripped[i] in r
  {
    forall k | 0 <= k < |r| ensures Clean(r[k], deletedId) {
      var i :| 0 <= i < |stripped| && stripped[i] == r[k];
    }
    forall i | 0 <= i < |folders| && (exists j :: 0 <= j < |folders[i].boards| && folders[i].boards[j].id != deletedId)
      ensures |stripped[i].boards| > 0
    {
      var j :| 0 <= j < |folders[i].boards| && folders[i].boards[j].id != deletedId;
      assert folders[i].boards[j] in stripped[i].boards;
    }
  }

  /** `xs.filter((i) => i.id !== id)`: the boards with another id, each as often as
      before and in their order. */
  function WithoutId(boards: seq<Board>, id: Id): (r: seq<Board>)
    ensures |r| <= |boards|
    ensures forall k :: 0 <= k < |r| ==> r[k].id != id && r[k] in boards
    ensures forall k :: 0 <= k < |boards| && boards[k].id != id ==> boards[k] in r
    ensures forall b :: multiset(r)[b] == if b.id == id then 0 else multiset(boards)[b]
    ensures Subsequence(r, boards)
  {
    Filter(boards, (b: Board) => b.id != id)
  }

  /** Some folder holds at least one board: the folder filter's callback, which reads
      `data!.id`, runs only then. */
  predicate SomeFolderHoldsBoards(folders: seq<Folder>)
  {
    exists i :: 0 <= i < |folders| && folders[i].boards != []
  }

  /** onDeleteBoard. A delete that throws changes nothing. Otherwise the active board
      leaves `boards`; then the filter callback over each folder's boards reads
      `data!.id`, which throws when the server answered null and some folder holds a
      board, so the folders, the active board and the favourites are then left as they
      were. Otherwise the folders are pruned (with a null answer every folder is
      board-less and all of them go), the first remaining board (or none) becomes
      active, and a favourite board leaves the favourites. */
  function OnDeleteBoard(p: Page, response: Response<Option<Board>>): (r: Store)
    ensures response.Threw? ==> r == p.store
    ensures response.Returned? ==> r.boards == WithoutActive(p.store.boards, p.store.active)
    ensures response == Returned(None) && SomeFolderHoldsBoards(p.store.folders) ==> r == p.store.(boards := r.boards)
    ensures response.Returned? && (response.value.Some? || !SomeFolderHoldsBoards(p.store.folders)) ==>
      && r.folders == (if response.value.Some? then PruneFolders(p.store.folders, response.value.value.id) else [])
      && r.active == (if r.boards == [] then None else Some(r.boards[0].id))
      && (Yes(p.view.isFavorite) ==> r.favorites == WithoutActive(p.store.favorites, p.store.active))
      && (!Yes(p.view.isFavorite) ==> r.favorites == p.store.favorites)
  {
    match response
    case Threw => p.store
    case Returned(data) =>
      var boards := WithoutActive(p.store.boards, p.store.active);
      if data.None? && SomeFolderHoldsBoards(p.store.folders) then p.store.(boards := boards)
      else
        var folders := if data.Some? then PruneFolders(p.store.folders, data.value.id) else [];
        var active := if boards == [] then None else Some(boards[0].id);
        var fav := if Yes(p.view.isFavorite) then WithoutActive(p.store.favorites, p.store.active) else p.store.favorites;
        Store(boards, folders, fav, active)
  }

  /** After a successful delete the deleted board is in no list the page updates: not in
      `boards`, not in any remaining folder, and not in the favourites if it was one,
      and the active board is one of the remaining boards. */
  lemma DeletedBoardIsGone(p: Page, deleted: Board)
    requires p.store.active == Some(deleted.id)
    ensures var r := OnDeleteBoard(p, Returned(Some(deleted)));
      && (forall k :: 0 <= k < |r.boards| ==> r.boards[k].id != deleted.id)
      && (forall k, j :: 0 <= k < |r.folders| && 0 <= j < |r.folders[k].boards| ==> r.folders[k].boards[j].id != deleted.id)
      && (Yes(p.view.isFavorite) ==> forall k :: 0 <= k < |r.favorites| ==> r.favorites[k].id != deleted.id)
      && (r.active.Some? ==> exists k :: 0 <= k < |r.boards| && r.boards[k].id == r.active.value)
  {
  }

  // ------------------------------------------------------------------ archive

  /** handleArchiveBoard: the local flag flips, the current board's `archived` flips in
      `boards`, and the remote call is made only for a current board with an id and a
      boolean prior value. */
  function HandleArchiveBoard(p: Page, archived: Option<bool>): (r: (Page, Option<ArchiveRequest>))
    ensures r.0.view == p.view.(isArchived := Some(!Yes(p.view.isArchived)))
    ensures r.0.store.folders == p.store.folders && r.0.store.favorites == p.store.favorites
    ensures r.0.store.active == p.store.active
    ensures |r.0.store.boards| == |p.store.boards|
    ensures forall k :: 0 <= k < |p.store.boards| ==>
      var b := p.store.boards[k];
      r.0.store.boards[k] == if IsActive(b, p.store.active) then b.(archived := !b.archived) else b
    ensures var c := Current(p.store.boards, p.store.active);
      r.1.Some? <==> c.Some? && c.value.id != "" && archived.Some?
    ensures r.1.Some? ==> r.1.value == ArchiveRequest(p.store.active.value, archived.value)
  {
    var c := Current(p.store.boards, p.store.active);
    // `b.id === currentBoard?.id`: with no current board nothing matches
    var boards := if c.Some? then MapActive(p.store.boards, p.store.active, (b: Board) => b.(archived := !b.archived)) else p.store.boards;
    var request := if c.Some? && c.value.id != "" && archived.Some? then Some(ArchiveRequest(c.value.id, archived.value)) else None;
    (Page(p.store.(boards := boards), p.view.(isArchived := Some(!Yes(p.view.isArchived)))), request)
  }
}
