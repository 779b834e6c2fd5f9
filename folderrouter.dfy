/** The server's folder procedures. Each of editName, updateFolderPosition and
    folderDelete first refuses a session that exists but has no user. */
module FolderRouter {
  import opened Common
  import opened Lists
  import opened Table
  import BoardRouter

  datatype FolderRow = FolderRow(name: string, userSchemaId: Id, position: int)

  /** The request's session: absent, or present with or without a user. */
  datatype Session = NoSession | Session(user: Option<Id>)

  /** `ctx && ctx.session && !ctx.session.user`: only a session WITHOUT a user is
      refused; a request with no session at all passes. */
  predicate Refused(s: Session)
  {
    s.Session? && s.user.None?
  }

  function Position(f: FolderRow): int
  {
    f.position
  }

  function SetPosition(f: FolderRow, key: nat): FolderRow
  {
    f.(position := key)
  }

  function ButPosition(f: FolderRow): FolderRow
  {
    f.(position := 0)
  }

  // ------------------------------------------------------------------ create

  /** The folder create answers: its columns and its boards. */
  datatype FolderView = FolderView(id: Id, name: string, userSchemaId: Id, position: int, boards: seq<Id>)

  /** The ids of the boards a folder owns. */
  ghost predicate OwnedBoards(boards: map<Id, BoardRouter.BoardRow>, folderId: Id, owned: seq<Id>)
  {
    Distinct(owned)
    && (forall k :: 0 <= k < |owned| ==> owned[k] in boards && boards[owned[k]].folderId == Some(folderId))
    && (forall id :: id in boards && boards[id].folderId == Some(folderId) ==> id in owned)
  }

  /** create: a nested write making the folder and, inside it, one board of this user at
      position 0. The other columns are the schema's defaults, given as template rows. */
  function Create(folders: map<Id, FolderRow>, boards: map<Id, BoardRouter.BoardRow>, userId: Id,
                  folderId: Id, boardId: Id, folderTemplate: FolderRow, boardTemplate: BoardRouter.BoardRow)
    : (r: (map<Id, FolderRow>, map<Id, BoardRouter.BoardRow>, FolderView))
    requires folderId !in folders && boardId !in boards
    ensures r.0 == folders[folderId := folderTemplate.(userSchemaId := userId)]
    ensures r.1 == boards[boardId := boardTemplate.(userId := userId, position := 0, folderId := Some(folderId))]
    ensures r.2.id == folderId && r.2.userSchemaId == userId && r.2.boards == [boardId]
  {
    var f := folderTemplate.(userSchemaId := userId);
    var b := boardTemplate.(userId := userId, position := 0, folderId := Some(folderId));
    (folders[folderId := f], boards[boardId := b], FolderView(folderId, f.name, userId, f.position, [boardId]))
  }

  /** A new folder owns exactly one board, its new board, at position 0 and of its user,
      when no existing board pointed at the new id. */
  lemma CreateOwnsOneBoard(folders: map<Id, FolderRow>, boards: map<Id, BoardRouter.BoardRow>, userId: Id,
                           folderId: Id, boardId: Id, folderTemplate: FolderRow, boardTemplate: BoardRouter.BoardRow)
    requires folderId !in folders && boardId !in boards
    requires forall id :: id in boards ==> boards[id].folderId != Some(folderId)
    ensures var r := Create(folders, boards, userId, folderId, boardId, folderTemplate, boardTemplate);
      && OwnedBoards(r.1, folderId, r.2.boards)
      && |r.2.boards| == 1
      && r.1[r.2.boards[0]].position == 0 && r.1[r.2.boards[0]].userId == userId
  {
  }

  // ------------------------------------------------------------------ editName

  /** editName: answers `{id, name}`; the refusal and a missing folder both come out as
      BAD_REQUEST, since the handler's catch rethrows every error with that code. */
  function EditName(folders: map<Id, FolderRow>, s: Session, folderId: Id, newName: string)
    : (r: (map<Id, FolderRow>, Reply<(Id, string)>))
    ensures (Refused(s) || folderId !in folders) ==> r == (folders, Fail(BadRequest))
    ensures !Refused(s) && folderId in folders ==>
      && r.0 == folders[folderId := folders[folderId].(name := newName)]
      && r.1 == Ok((folderId, newName))
  {
    if Refused(s) || folderId !in folders then (folders, Fail(BadRequest))
    else (folders[folderId := folders[folderId].(name := newName)], Ok((folderId, newName)))
  }

  /** editName changes the name of one folder and nothing else. */
  lemma EditNameOnlyName(folders: map<Id, FolderRow>, s: Session, folderId: Id, newName: string)
    ensures var out := EditName(folders, s, folderId, newName).0;
      out.Keys == folders.Keys
      && forall id :: id in folders ==> out[id].(name := folders[id].name) == folders[id]
  {
  }

  // ------------------------------------------------------------------ updateFolderPosition

  function Reindexed(folders: map<Id, FolderRow>, list: seq<Id>): Applied<FolderRow>
  {
    UpdateAll(folders, Reverse(list), SetPosition)
  }

  /** updateFolderPosition: refuses a session without a user, else reverses the list in
      place and writes the key as position, one folder at a time. Both the refusal and a
      failed write come out as INTERNAL_SERVER_ERROR: the refusal's BAD_REQUEST is thrown
      inside the try and replaced by the catch. Success answers nothing. */
  method UpdateFolderPosition(folders: map<Id, FolderRow>, s: Session, list: seq<Id>)
    returns (out: map<Id, FolderRow>, reply: Reply<()>)
    ensures Refused(s) ==> out == folders && reply == Fail(InternalServerError)
    ensures !Refused(s) ==>
      var a := Reindexed(folders, list);
      out == a.rows && reply == (if a.failed then Fail(InternalServerError) else Ok(()))
  {
    if Refused(s) {
      return folders, Fail(InternalServerError);
    }
    var reversed := ReversedCopy(list);
    var failed;
    out, failed := UpdateEach(folders, reversed, SetPosition);
    reply := if failed then Fail(InternalServerError) else Ok(());
  }

  /** The folder at index i of n distinct existing folders gets position n-1-i; the
      positions are exactly 0..n-1; only `position` is written; folders not in the list
      are untouched. */
  lemma UpdateFolderPositionReindexes(folders: map<Id, FolderRow>, list: seq<Id>)
    requires Distinct(list)
    requires forall k :: 0 <= k < |list| ==> list[k] in folders
    ensures var a := Reindexed(folders, list);
      var n := |list|;
      && !a.failed
      && (forall i :: 0 <= i < n ==> a.rows[list[i]] == folders[list[i]].(position := n - 1 - i))
      && (forall p :: 0 <= p < n ==> KeyTaken(a.rows, list, Position, p))
      && (forall i, j :: 0 <= i < j < n ==> a.rows[list[i]].position != a.rows[list[j]].position)
      && (forall id :: id in folders && id !in list ==> a.rows[id] == folders[id])
  {
    var n := |list|;
    ReindexReversed(folders, list, SetPosition);
    var a := Reindexed(folders, list);
    forall p | 0 <= p < n ensures KeyTaken(a.rows, list, Position, p) {
      assert a.rows[list[n - 1 - p]].position == p;
    }
  }

  /** Whatever the list, even when a write throws, only `position` changes. */
  lemma ReorderKeepsOtherFields(folders: map<Id, FolderRow>, list: seq<Id>)
    ensures var out := Reindexed(folders, list).rows;
      out.Keys == folders.Keys
      && forall id :: id in folders ==> out[id] == folders[id].(position := out[id].position)
  {
    UpdateAllPreserves(folders, Reverse(list), SetPosition, ButPosition);
  }

  // ------------------------------------------------------------------ folderDelete

  /** folderDelete: answers only `{id}` of the deleted folder; the refusal and a missing
      folder both come out as BAD_REQUEST. */
  function FolderDelete(folders: map<Id, FolderRow>, s: Session, folderId: Id): (r: (map<Id, FolderRow>, Reply<Id>))
    ensures (Refused(s) || folderId !in folders) ==> r == (folders, Fail(BadRequest))
    ensures !Refused(s) && folderId in folders ==>
      && r.1 == Ok(folderId)
      && r.0.Keys == folders.Keys - {folderId}
      && (forall id :: id in r.0 ==> r.0[id] == folders[id])
  {
    if Refused(s) || folderId !in folders then (folders, Fail(BadRequest))
    else (folders - {folderId}, Ok(folderId))
  }
}
