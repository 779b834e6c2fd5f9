# My-Kenban, modelled in Dafny

My-Kenban is a kanban web application. A user owns **boards**, optionally grouped into
**folders** and marked **favourite**. A board holds **sections** (columns) of **tasks**
(cards). Boards, favourites, sections and tasks are reordered by drag and drop. The
client changes its own list with an array splice move and sends the new order to the
server. The server stores an integer `position` per row, using a "reverse the list,
then write the loop index" routine. Titles, descriptions and task contents are edited
in place; each keystroke restarts a debounce timer (500 ms on the board page and in the
Kanban columns, 1500 ms in the task dialog), and only the last edit of a burst is
written. Registration validates its input with a zod schema, and the emoji icon is
decoded from its hyphen-separated hexadecimal `unified` code.

This project models that core as Dafny values, functions, methods and lemmas:

| file | module | what it models |
|---|---|---|
| `common.dfy` | `Common` | ids, `Option`, JavaScript truthiness of an optional string, the outcome of an awaited call |
| `lists.dfy` | `Lists` | `splice` removal and insertion, the drag-and-drop splice move, `reverse`, `findIndex`, `filter`, stable `sort` by a numeric key, and array versions of the move and of `reverse` |
| `dragdrop.dfy` | `DragDrop` | the drop result delivered to the drop handlers |
| `debounce.dfy` | `Debounce` | the module-level `setTimeout`/`clearTimeout` debounce as a state machine, and a class holding that mutable timer |
| `store.dfy` | `Store` | the client store: boards, folders, favourites, active board |
| `kanban.dfy` | `Kanban` | the Kanban board component: section and task drag and drop, section add/delete/retitle/archive, task create/update/delete/archive, the archived count |
| `board.dfy` | `BoardPage` | the board page: fetching a board, emoji, title and description edits, favourite toggle, delete, archive |
| `taskmodal.dfy` | `TaskModal` | the task dialog: title and content edits, close, delete, archive toggle |
| `tasks.dfy` | `Tasks` | task card visibility, label and selection |
| `muimenu.dfy` | `ArchiveMenu` | the "show archived" switches |
| `sidebar.dfy` | `Sidebar` | board list drag and drop, loading the boards, creating a board |
| `favorites.dfy` | `Favorites` | favourites drag and drop |
| `emojipicker.dfy` | `EmojiPicker` | `split('-')`, the hexadecimal code-point decoder and `String.fromCodePoint` |
| `table.dfy` | `Table` | a database table as a map from id to row: sequential updates that stop at the first missing id, `orderBy` listings, and the theory of the reverse-then-index routine |
| `boardrouter.dfy` | `BoardRouter` | the `board` procedures: create, getAll, update, updatePosition, updateFavoritePositon, deleteBoard |
| `taskrouter.dfy` | `TaskRouter` | the `task` procedures: create, update, delete (with renumbering), updatePosition |
| `folderrouter.dfy` | `FolderRouter` | the `folder` procedures: create, editName, updateFolderPosition, folderDelete |
| `auth.dfy` | `Auth` | the registration schema (zod, refine) and the `register` procedure |

The model follows the code as written:

- `toggleFavorite` and `onDeleteBoard` wait for the server's answer before changing local state, so a failed call leaves the local state as it was (`BoardPage.ToggleFavorite`, `BoardPage.OnDeleteBoard`). `handleArchiveBoard` changes the local flag and the boards list first and then awaits the request; a failure is only logged, and nothing is rolled back (`BoardPage.HandleArchiveBoard`).
- The splice move restores the list when the element is moved back and both indices are inside the list (`Lists.MoveBack`).
- `onDeleteBoard` reads `data!.id` only inside the callback that filters a folder's boards. A null answer from the server therefore throws only when some folder holds a board; otherwise every folder is dropped and the first remaining board becomes active.
- The server's reindex gives the first id of the list the highest position, `|list| - 1`, and the last id position 0. `getAll` sorts by position in descending order, so the list comes back in the order it was sent (`BoardRouter.GetAllAfterUpdatePosition`).
- `updateFavoritePositon` (spelled that way in the code) writes `position`, not `favoritePosition`. The model does the same.
- `taskDeleteHandler` calls `splice(-1, 1)` when the task id is not in its section. That removes the last task.
- `selectEmoji` hides the picker and reports the emoji. It never sets its own selected emoji; only the `icon` prop effect does.

## Model

| member | source | states |
|---|---|---|
| Lists.Remove | src/components/common/Kanban.tsx:195 | `splice(i, 1)` at a non-negative index: the element at i is removed and the others shift down; an index past the end changes nothing |
| Lists.Insert | src/components/common/Kanban.tsx:196 | `splice(j, 0, x)`: x sits at j, or at the end when j is past the end; the elements before keep their places and the rest shift up by one |
| Lists.MoveIsPermutation | src/components/common/Kanban.tsx:194-196 | a splice move keeps the length and the multiset of elements, and the moved element lands at the destination index (or last) |
| Lists.MoveKeepsOthersInOrder | src/components/common/Kanban.tsx:194-196 | the elements that were not moved keep their relative order |
| Lists.MoveToSameIndex | src/components/common/Sidebar.tsx:99-101 | moving an element to its own index changes nothing |
| Lists.MoveBack | src/components/common/Kanban.tsx:194-196 | moving the element from its landing index back to its source restores the original list |
| Lists.MoveExample | src/components/common/Kanban.tsx:194-196 | [A, B, C, D] with index 0 moved to index 2 gives [B, C, A, D] |
| Lists.ReverseAt | src/server/trpc/router/board.ts:86 | element k of the reversed list is element n-1-k of the original |
| Lists.ReverseElements | src/server/trpc/router/board.ts:86 | the same for every index at once |
| Lists.FindIndex | src/components/common/Kanban.tsx:209-214 | the first index satisfying the predicate, or -1 exactly when none does |
| Lists.Filter | src/components/Board.tsx:276 | the result keeps exactly the elements satisfying the predicate, each as often as in the input and in the input's order (a subsequence with the filtered multiset) |
| Lists.FilterUnique | src/components/Board.tsx:276 | a subsequence of the input holding exactly the filtered multiset is the filter's result, so order and multiplicity determine it |
| Lists.FilterAppend | src/components/Board.tsx:276 | filtering a concatenation is the concatenation of the filtered parts |
| Lists.FilterHead | src/components/Board.tsx:276-286 | the first element of a non-empty filter result is the input's first element satisfying the predicate |
| Lists.Move | src/components/common/Kanban.tsx:194-196 | a splice move keeps the length and puts the moved element at its landing index |
| Lists.SpliceMove | src/components/common/Kanban.tsx:194-196 | the guarded move keeps the length, changes nothing for a source index past the end, and otherwise puts the element at its landing index |
| Lists.InsertRemove | src/components/common/Kanban.tsx:194-196 | putting a removed element back at its own index restores the list |
| Lists.InsertByKey | src/components/Board.tsx:121 | inserting into a key-sorted list keeps it sorted and adds exactly one element |
| Lists.SortByKey | src/components/Board.tsx:121 | the comparator sort gives a list sorted by key that is a permutation of the input |
| Lists.SortedCons | src/components/Board.tsx:121 | an element no larger than every key of a sorted list can be put in front of it |
| Lists.MoveInPlace | src/components/common/Kanban.tsx:194-196 | the in-place two-splice move on an array leaves exactly the splice move of the old contents |
| Lists.ReverseInPlace | src/server/trpc/router/board.ts:86 | in-place `reverse` leaves the reversal of the old contents |
| Lists.ReversedCopy | src/server/trpc/router/board.ts:86 | reversing a copy of the list gives its reversal |
| Lists.MoveShape | src/components/common/Kanban.tsx:194-196 | the moved element lands at the clamped index, the elements between shift by one toward the gap, the rest stay |
| Debounce.Step | src/components/common/Kanban.tsx:123-140 | an edit replaces the pending write and sends nothing; a pause sends the pending write, if any, and clears it |
| Debounce.Run | src/components/common/Kanban.tsx:123-140 | a run only appends writes, at most one per event |
| Debounce.BurstSendsNothing | src/components/common/Kanban.tsx:123-140 | a burst of edits with no pause sends nothing and leaves the last edit pending |
| Debounce.BurstThenPause | src/components/common/Kanban.tsx:123-140 | a burst followed by a pause sends exactly the last edit, once |
| Debounce.TwoBursts | src/components/common/Kanban.tsx:123-140 | two bursts separated by pauses send the last edit of each, in order |
| Debounce.ClearCancels | src/components/common/TaskModal.tsx:147-162 | clearing the timer without rescheduling cancels the pending write |
| Debounce.WritesBoundedByPauses | src/components/common/Kanban.tsx:123-140 | writes are only appended, and at most one per pause |
| Debounce.RunAppend | src/components/common/Kanban.tsx:123-140 | running two event sequences one after the other equals running their concatenation |
| Debounce.ModuleTimer.constructor | src/components/common/Kanban.tsx:32 | the module-level timer starts with nothing pending and nothing sent |
| Debounce.ModuleTimer.Reschedule | src/components/common/Kanban.tsx:123-135 | `clearTimeout` then `setTimeout`: the pending write becomes the new one and nothing is sent |
| Debounce.ModuleTimer.Elapse | src/components/common/Kanban.tsx:135-140 | the timeout fires: the pending write, if any, is sent and cleared |
| Store.Current | src/components/Board.tsx:259 | the active board is found exactly when some board has the active id, and it is the first board with that id |
| Store.MapActive | src/components/Board.tsx:133-141 | the map changes the boards carrying the active id and no other |
| Store.WithoutActive | src/components/Board.tsx:276 | the filter drops exactly the boards carrying the active id and keeps the others in order with their multiplicity; its first element is the first board that is not active |
| Kanban.DragEnd | src/components/common/Kanban.tsx:183-271 | a drop keeps the number of sections; without a remote call nothing changes, and a call is made only for a drop that is not in place |
| Kanban.DragTasks | src/components/common/Kanban.tsx:208-271 | a task drop keeps the number of sections; no call is made exactly when the source or destination section is unknown, and then nothing changes |
| Kanban.FlipTask | src/components/common/Kanban.tsx:329 | only the archived flag can change, and it flips exactly for the task with the id |
| Kanban.CountedSections | src/components/common/Kanban.tsx:382-388 | with archived sections counted the list is unchanged; otherwise the unarchived sections, in order and with their multiplicity |
| Kanban.OnDragEnd | src/components/common/Kanban.tsx:183-276 | the drop handler's new sections and remote call equal the drop-outcome function |
| Kanban.DropInPlaceIsNoOp | src/components/common/Kanban.tsx:185-190 | no destination, or the same droppable and index: nothing changes and nothing is sent |
| Kanban.SectionDrag | src/components/common/Kanban.tsx:193-207 | a column drag is a splice move of the sections, and the new order is sent |
| Kanban.SectionDragExample | src/components/common/Kanban.tsx:193-207 | columns [a, b, c, d] with index 0 dropped at 2 become [b, c, a, d] |
| Kanban.MissingSectionIsNoOp | src/components/common/Kanban.tsx:208-222 | a task drag naming an unknown section changes nothing |
| Kanban.CrossSectionDrag | src/components/common/Kanban.tsx:224-249 | between two sections: the task leaves the source, lands in the destination, the other sections are untouched, and both new lists are sent, the source's as the resource list and the destination's as the destination list |
| Kanban.CrossSectionKeepsTasks | src/components/common/Kanban.tsx:224-249 | a cross-section drag keeps the multiset of all tasks on the board |
| Kanban.TaskBagUpdate | src/components/common/Kanban.tsx:230-238 | replacing one section changes the board's task multiset by exactly that section's tasks |
| Kanban.TwoUpdatesKeepBag | src/components/common/Kanban.tsx:230-238 | replacing two sections whose tasks together are unchanged keeps the task multiset |
| Kanban.CrossSectionExample | src/components/common/Kanban.tsx:224-249 | a concrete drag of a task from one column to the top of another |
| Kanban.SameSectionDrag | src/components/common/Kanban.tsx:250-271 | within one section: a splice move of its tasks, other sections untouched, the new order sent |
| Kanban.ArchiveSection | src/components/common/Kanban.tsx:146-158 | the matching section's archived flag flips, everything else is unchanged |
| Kanban.ArchiveSectionTwice | src/components/common/Kanban.tsx:146-158 | archiving twice restores the sections |
| Kanban.ToggleArchiveTask | src/components/common/Kanban.tsx:314-341 | only the matching task in the matching section flips its archived flag |
| Kanban.ToggleArchiveTaskTwice | src/components/common/Kanban.tsx:314-341 | toggling twice restores the sections |
| Kanban.TaskUpdate | src/components/common/Kanban.tsx:278-295 | with a truthy section id, the first task with the given id in that section is replaced by the task without its section id; in every other case nothing changes |
| Kanban.RemoveLast | src/components/common/Kanban.tsx:308 | `splice(-1, 1)`, reached when the task id is missing, drops the last element |
| Kanban.DeleteTask | src/components/common/Kanban.tsx:302-308 | the first task with the id is removed and no earlier task has it; with no such task the last one is removed |
| Kanban.TaskDelete | src/components/common/Kanban.tsx:297-312 | the task is removed from its section, the last task when its id is missing; an unknown section changes nothing |
| Kanban.TaskDeleteKeepsOrder | src/components/common/Kanban.tsx:297-312 | a found task is deleted and the remaining tasks keep their order |
| Kanban.CreateTask | src/components/common/Kanban.tsx:162-181 | a created task is put at the front of its section; a failed call changes nothing |
| Kanban.AddSection | src/components/common/Kanban.tsx:96-110 | a created section is appended; a failed call changes nothing |
| Kanban.DeleteSection | src/components/common/Kanban.tsx:112-117 | after the delete resolves, exactly the sections with that id are gone and the others keep their order and multiplicity; a failed call changes nothing |
| Kanban.RetitleSection | src/components/common/Kanban.tsx:126-133 | only the matching section takes the new title |
| Kanban.EditSection | src/components/common/Kanban.tsx:119-144 | the sections are retitled at once and the write is rescheduled on the shared timer |
| Kanban.SharedTimerAcrossSections | src/components/common/Kanban.tsx:32-33 | editing two sections within one burst sends only the second section's title |
| Kanban.NotArchivedCount | src/components/common/Kanban.tsx:382-388 | the count shows all sections, or the sections minus the archived ones |
| BoardPage.FetchBoard | src/components/Board.tsx:116-128 | a loaded board fills the view, with default icon 📝 and archived defaulting to false; the sections keep the server's order, since the position sort compares sections that carry no position |
| BoardPage.SortByEqualKeysKeepsOrder | src/components/Board.tsx:121 | a stable sort by a key that is the same for every element keeps the list's order |
| BoardPage.OnEmojiChange | src/components/Board.tsx:131-164 | the icon is changed in the view, in the active board and, if favourite, in the favourites; the write carries the current fields |
| BoardPage.TitleEdit | src/components/Board.tsx:166-206 | the title is changed in the view, the active board and (when favourite) the favourites; nothing else changes |
| BoardPage.DescriptionEdit | src/components/Board.tsx:208-238 | the description is changed in the view and the active board only |
| BoardPage.UpdateTitle | src/components/Board.tsx:166-206 | the method applies the title edit and reschedules the title write on the module timer |
| BoardPage.UpdateDescription | src/components/Board.tsx:208-238 | the method applies the description edit and reschedules the description write |
| BoardPage.TitleThenDescription | src/components/Board.tsx:27 | a description typed while a title write is pending cancels it; only the description write is sent |
| BoardPage.TitleBurst | src/components/Board.tsx:166-206 | a burst of title edits sends one write with the last title |
| BoardPage.TitleWrite | src/components/Board.tsx:197-205 | the title write names the active board, carries the new title and the view's description, icon and favourite flag |
| BoardPage.DescriptionWrite | src/components/Board.tsx:225-236 | the description write names the active board with the new description; apart from it, it is the title write of the view's current title |
| BoardPage.TitleWrites | src/components/Board.tsx:197-204 | each title write carries that title and the page's other fields |
| BoardPage.EmojiDuringPendingTitle | src/components/Board.tsx:131-206 | an emoji change is sent at once and does not cancel the pending title write |
| BoardPage.ToggleFavorite | src/components/Board.tsx:240-266 | the write flips the flag; state changes only after it resolves: removal from, or appending to, the favourites |
| BoardPage.FavoriteAppendedWithStaleFlag | src/components/Board.tsx:257-260 | the board appended to the favourites still carries its old favourite flag |
| BoardPage.StripFolders | src/components/Board.tsx:279-283 | each folder, in place, loses exactly the boards with the deleted id |
| BoardPage.PruneFolders | src/components/Board.tsx:279-283 | the stripped folders that still hold a board, in their order and with their multiplicity; none holds the deleted board, and every folder that had another board is kept |
| BoardPage.WithoutId | src/components/Board.tsx:281 | the filter keeps exactly the boards with another id, in order and with their multiplicity |
| BoardPage.OnDeleteBoard | src/components/Board.tsx:268-297 | after the delete resolves the board leaves the list and the folders, and the first remaining board becomes active; a failure changes nothing; a null answer throws after the board list is updated, leaving the rest, exactly when some folder holds a board, and otherwise drops every folder |
| BoardPage.DeletedBoardIsGone | src/components/Board.tsx:268-297 | no board, folder board or favourite with the deleted id remains |
| BoardPage.HandleArchiveBoard | src/components/Board.tsx:299-323 | the archived flag flips in the view and the active board; a request is sent exactly when a board is current and the flag is known |
| TaskModal.Open | src/components/common/TaskModal.tsx:84-89 | the dialog starts with the task's title and content and no calls made |
| TaskModal.PropsChanged | src/components/common/TaskModal.tsx:91-95 | a new task prop resets the title and content and keeps the call log |
| TaskModal.OnClose | src/components/common/TaskModal.tsx:103-108 | the close button reports the task with the edited title and content, or nothing without a task, and asks to close |
| TaskModal.OnEscape | src/components/common/TaskModal.tsx:97-101 | Escape runs the first render's `onClose`: it reports the task the dialog opened with, unedited, or nothing, and asks to close |
| TaskModal.EscapeAtOpenIsClose | src/components/common/TaskModal.tsx:97-108 | before any edit, Escape and the close button do the same |
| TaskModal.EscapeRevertsTitle | src/components/common/TaskModal.tsx:97-145 | after a title edit, Escape reports the opened task's old title while the pending write still carries the new one |
| TaskModal.OnDeleteTask | src/components/common/TaskModal.tsx:110-126 | deleting sets the flag; the task is cleared and reported only once the call resolves |
| TaskModal.TitleEdit | src/components/common/TaskModal.tsx:128-145 | the title changes and the task with the new title is reported |
| TaskModal.ContentEdit | src/components/common/TaskModal.tsx:147-166 | the content changes and the task with the new content is reported |
| TaskModal.OnUpdateTitle | src/components/common/TaskModal.tsx:128-145 | the method applies the title edit and reschedules the write |
| TaskModal.OnUpdateContent | src/components/common/TaskModal.tsx:147-166 | the method applies the content edit and reschedules the write |
| TaskModal.ContentEditForwardsStaleTitle | src/components/common/TaskModal.tsx:147-166 | the content edit reports the edited title but the task object's old one |
| TaskModal.TitleThenContent | src/components/common/TaskModal.tsx:74-75 | a content edit within the title's burst cancels the title write |
| TaskModal.TitleWrite | src/components/common/TaskModal.tsx:136-142 | a write exists exactly when there is a task; it names the task and carries the new title and the edited content |
| TaskModal.ContentWrite | src/components/common/TaskModal.tsx:155-161 | a write exists exactly when there is a task; it is the title write of the edited title with the new content |
| TaskModal.TitleWrites | src/components/common/TaskModal.tsx:136-141 | each title write carries that title and the task's content |
| TaskModal.TitleBursts | src/components/common/TaskModal.tsx:128-145 | each burst of title edits sends one write, with its last title |
| TaskModal.EditWithoutTaskCancels | src/components/common/TaskModal.tsx:128-135 | with no task, an edit clears the timer and nothing is sent |
| TaskModal.HandleArchiveToggle | src/components/common/TaskModal.tsx:168-175 | the task's archived flag flips; the toggle is reported only with an id, a section id and a known previous state |
| Tasks.Hidden | src/components/common/Tasks.tsx:30 | no card is hidden while archived tasks are shown |
| Tasks.Shown | src/components/common/Tasks.tsx:30 | the displayed cards are the cards that are not hidden, in order and with their multiplicity |
| Tasks.Visibility | src/components/common/Tasks.tsx:30 | all tasks are shown when archived tasks are shown; otherwise exactly the unarchived ones |
| Tasks.Label | src/components/common/Tasks.tsx:39 | the label is the title, or 'Untitled' for an empty title; it is never empty |
| Tasks.Selection | src/components/common/Tasks.tsx:32-37 | the selected task is the card with its section id attached |
| ArchiveMenu.HandleToggle | src/components/utility/MuiMenu.tsx:28-33 | the named switch takes the checked value and the others keep theirs |
| ArchiveMenu.FlagsExtensional | src/components/utility/MuiMenu.tsx:31 | two flag records with the same switches are equal |
| ArchiveMenu.ToggleIdempotent | src/components/utility/MuiMenu.tsx:28-33 | the same toggle twice equals once, and setting a switch to its value changes nothing |
| Sidebar.OnDragEnd | src/components/common/Sidebar.tsx:91-110 | no destination does nothing; otherwise the boards are splice-moved (a permutation, others in order) and the new order is sent, even when dropped in place |
| Sidebar.FavoritesOf | src/components/common/Sidebar.tsx:73-78 | the favourites are the marked boards, sorted by favourite position, a permutation of the filtered list |
| Sidebar.GetBoards | src/components/common/Sidebar.tsx:68-81 | non-empty data becomes the boards, the first one becomes active, the favourites are its favourite boards sorted by favourite position |
| Sidebar.CreateOnSuccess | src/components/common/Sidebar.tsx:50-56 | a created board goes to the front and becomes active |
| Favorites.OnDragEnd | src/components/common/Favorites.tsx:25-50 | a drop in place does nothing; otherwise the favourites are splice-moved, keep their ids, and the new order is sent |
| Favorites.SameElementsSameIds | src/components/common/Favorites.tsx:37-41 | lists with the same multiset of boards have the same ids |
| EmojiPicker.Split | src/components/common/EmojiPicker.tsx:20 | `split('-')` gives at least one part and no part contains the separator |
| EmojiPicker.JoinSplit | src/components/common/EmojiPicker.tsx:20 | joining the parts with the separator gives the string back |
| EmojiPicker.SplitJoin | src/components/common/EmojiPicker.tsx:20 | splitting a join of separator-free parts gives those parts back |
| EmojiPicker.SplitAfterPlain | src/components/common/EmojiPicker.tsx:20 | a separator-free prefix joins the first part |
| EmojiPicker.Join | src/components/common/EmojiPicker.tsx:20 | a join begins with the first part, followed by the separator when there are more parts |
| EmojiPicker.HexValue | src/components/common/EmojiPicker.tsx:22-23 | a segment has a value exactly when it is non-empty and all hexadecimal digits |
| EmojiPicker.HexDigit | src/components/common/EmojiPicker.tsx:22-23 | a hexadecimal digit has a value below 16 |
| EmojiPicker.HexChar | src/components/common/EmojiPicker.tsx:22-23 | a digit's character is never the separator and reads back as that digit |
| EmojiPicker.Hex | src/components/common/EmojiPicker.tsx:22-23 | the hex encoding of a number is non-empty and has no separator |
| EmojiPicker.HexRoundTrip | src/components/common/EmojiPicker.tsx:22-23 | reading a number's hex encoding gives the number |
| EmojiPicker.Decode | src/components/common/EmojiPicker.tsx:18-29 | a unified code decodes exactly when every segment is a valid hex code point, to the segments' values |
| EmojiPicker.DecodeEncode | src/components/common/EmojiPicker.tsx:18-29 | decoding the unified code of valid code points gives them back |
| EmojiPicker.FromCodePoint | src/components/common/EmojiPicker.tsx:23 | `String.fromCodePoint` gives one code point per argument, or throws |
| EmojiPicker.PrefixSegments | src/components/common/EmojiPicker.tsx:21-22 | the loop prefixes every segment with '0x', in order |
| EmojiPicker.FromPrefixed | src/components/common/EmojiPicker.tsx:22-23 | the prefixed codes convert exactly when every segment is valid, to their hex values |
| EmojiPicker.IconChanged | src/components/common/EmojiPicker.tsx:14-16 | a new icon prop becomes the selected emoji |
| EmojiPicker.SelectEmoji | src/components/common/EmojiPicker.tsx:18-29 | a decodable emoji hides the picker and is reported; the selected emoji is not changed |
| Table.Writes | src/server/trpc/router/board.ts:86-96 | the sequential writes keep the table's ids |
| Table.UpdateEach | src/server/trpc/router/board.ts:86-96 | the awaited update loop leaves the state of the sequential-writes function and stops at the first missing id |
| Table.WritesPreserve | src/server/trpc/router/board.ts:88-94 | writes that only touch one field leave every other field of every row unchanged |
| Table.UpdateAll | src/server/trpc/router/board.ts:86-96 | the update loop keeps the table's ids, and fails exactly when some listed id is missing |
| Table.UpdateAllPreserves | src/server/trpc/router/board.ts:86-96 | the update loop keeps the table's ids and every field its write does not touch |
| Table.WritesDistinct | src/server/trpc/router/board.ts:86-96 | over distinct ids each listed row receives its own index and the others are untouched |
| Table.ReindexReversed | src/server/trpc/router/board.ts:86-96 | reverse-then-index gives the i-th listed id the key n-1-i and touches nothing else |
| Table.ListingUnique | src/server/trpc/router/board.ts:60-67 | with distinct keys, a filtered ordered listing is unique |
| BoardRouter.UpdatePosition | src/server/trpc/router/board.ts:74-102 | the procedure's new table is the reindex function's; it answers 'success', or nothing after a failed write |
| BoardRouter.UpdateFavoritePositon | src/server/trpc/router/board.ts:145-173 | the same reindex, written to `position` |
| BoardRouter.ReorderKeepsOtherFields | src/server/trpc/router/board.ts:86-96 | for any list, only positions change and the set of boards is unchanged |
| BoardRouter.UpdatePositionReindexes | src/server/trpc/router/board.ts:74-102 | on distinct stored ids: no failure, the k-th board gets position n-1-k, positions 0..n-1 are all taken and distinct, other boards unchanged |
| BoardRouter.GetAllAfterUpdatePosition | src/server/trpc/router/board.ts:52-102 | after reordering all of a user's boards, getAll lists exactly the order that was sent |
| BoardRouter.Create | src/server/trpc/router/board.ts:39-51 | the new board has position count+1 and the user's id; existing rows are unchanged |
| BoardRouter.Update | src/server/trpc/router/board.ts:115-144 | the four fields are written with their defaults; a missing id answers null and changes nothing |
| BoardRouter.DeleteBoard | src/server/trpc/router/board.ts:174-200 | the row with that id and user is deleted and returned; otherwise nothing changes |
| TaskRouter.UpdatePosition | src/server/trpc/router/task.ts:111-168 | the procedure's new table is the repositioning function's; a failed write gives an internal error |
| TaskRouter.SameSectionIgnoresResource | src/server/trpc/router/task.ts:138-148 | within one section, only the destination list is written |
| TaskRouter.RepositionKeepsOtherFields | src/server/trpc/router/task.ts:138-158 | only the section id and the position change, and no task appears or vanishes |
| TaskRouter.SameSectionReindexes | src/server/trpc/router/task.ts:150-158 | within one section the k-th task gets position n-1-k, other tasks unchanged |
| TaskRouter.CrossSectionReindexes | src/server/trpc/router/task.ts:138-158 | across sections every task of each list gets its section and index from the end; the destination list's positions are all taken |
| TaskRouter.CrossSectionDisjoint | src/server/trpc/router/task.ts:138-158 | with disjoint lists, the source section's tasks keep their own section and indices |
| TaskRouter.Delete | src/server/trpc/router/task.ts:78-109 | the procedure's new table is the delete-and-renumber function's; a missing id gives an internal error |
| TaskRouter.DeleteRenumbers | src/server/trpc/router/task.ts:86-100 | the task is gone, the k-th listed task of its section gets position k, other sections are unchanged, and the section still lists in that order |
| TaskRouter.Repositioned | src/server/trpc/router/task.ts:138-158 | repositioning keeps the table's ids |
| TaskRouter.Deleted | src/server/trpc/router/task.ts:78-100 | deleting a stored task removes exactly its id from the table |
| TaskRouter.Create | src/server/trpc/router/task.ts:6-40 | the new task has position section count + 1 and is answered with its view; a failed count or create answers INTERNAL_SERVER_ERROR and writes nothing |
| TaskRouter.Update | src/server/trpc/router/task.ts:42-76 | only title and content change; a missing id gives an internal error |
| FolderRouter.Create | src/server/trpc/router/folder.ts:17-44 | a new folder and a new board inside it, owned by the user |
| FolderRouter.CreateOwnsOneBoard | src/server/trpc/router/folder.ts:26-37 | the new folder holds exactly the new board |
| FolderRouter.EditName | src/server/trpc/router/folder.ts:45-81 | a refused session or a missing folder gives a bad request; otherwise only the name changes |
| FolderRouter.EditNameOnlyName | src/server/trpc/router/folder.ts:61-72 | renaming changes no other folder and no other field |
| FolderRouter.UpdateFolderPosition | src/server/trpc/router/folder.ts:82-118 | a refused session writes nothing; otherwise the reindex function's table and, if a write failed, an internal error |
| FolderRouter.UpdateFolderPositionReindexes | src/server/trpc/router/folder.ts:101-111 | on distinct stored ids the k-th folder gets position n-1-k, other folders unchanged |
| FolderRouter.ReorderKeepsOtherFields | src/server/trpc/router/folder.ts:101-111 | only folder positions change |
| FolderRouter.FolderDelete | src/server/trpc/router/folder.ts:119-153 | a refused session or a missing folder gives a bad request; otherwise the folder is removed |
| Auth.FindsInLine | src/server/trpc/router/auth.ts:13-19 | a scan that succeeds has found a matching character |
| Auth.MatchesPasswordRule | src/server/trpc/router/auth.ts:13-19 | a password passing the regex has at least 12 characters and does not start with a line terminator |
| Auth.PasswordIssues | src/server/trpc/router/auth.ts:13-19 | at most two issues, each on the `password` path |
| Auth.Issues | src/server/trpc/router/auth.ts:9-25 | at most six issues; none only when the password passes the regex and the confirmation matches |
| Auth.FindsInLineCorrect | src/server/trpc/router/auth.ts:13-19 | the scan finds a matching character exactly when one occurs before the first line terminator |
| Auth.PasswordRule | src/server/trpc/router/auth.ts:13-19 | a one-line password passes the regex exactly when it has an upper-case letter, a digit, a special character and at least 12 characters |
| Auth.FirstLineOnly | src/server/trpc/router/auth.ts:13-19 | a lookahead ignores everything after the first line terminator |
| Auth.PasswordFirstLine | src/server/trpc/router/auth.ts:13-19 | a password passes the regex exactly when its first line does |
| Auth.RuleImpliesMinimum | src/server/trpc/router/auth.ts:13-19 | a password passing the regex is at least 8 characters long |
| Auth.PasswordIssuesMeaning | src/server/trpc/router/auth.ts:13-19 | each failing password check leaves its issue, and there are none exactly when the pattern passes |
| Auth.IssuesMeaning | src/server/trpc/router/auth.ts:9-25 | each broken rule yields its issue, and there are no issues exactly when every rule holds |
| Auth.MismatchOnConfirmPath | src/server/trpc/router/auth.ts:22-25 | differing passwords, all else valid, give exactly one issue, on `confirmPassword` |
| Auth.Register | src/server/trpc/router/auth.ts:27-58 | invalid input is a bad request; a taken email a conflict with nothing written; otherwise the user is stored with the hash and returned without it |
| Auth.RegisterKeepsEmailsUnique | src/server/trpc/router/auth.ts:30-39 | registration keeps emails unique among users |

## Left out

- Rendering, styling, routing, the `isLoading` flags and the layout components: they hold no logic that changes the data.
- Network, database and browser I/O: each awaited call is a parameter (`Response`/`Returned`/`Threw`), and `localStorage` writes are not modelled.
- Concurrency between requests and between awaited handlers: each handler runs to completion, and the database applies writes one at a time without rollback.
- The `forEach` in `task.delete` is not awaited. The model applies its writes in list order, as if they all complete.
- TaskModal.OnEscape: the `keydown` listener is never removed, so it fires after the dialog unmounts, and every mount adds another listener, all of which fire on one key press; the model has a single listener and records its calls in the dialog's own call log.
- Time: the 500 ms and 1500 ms timeouts are an `Elapse` event, and the 200 ms reset of `isDeleting` in the task dialog is not modelled.
- The window-resize debounce in the Kanban component: it only measures the window.
- Sidebar.OnDragEnd: requires a source index inside the list. For an index past the end, the code would insert `undefined`.
- Favorites.OnDragEnd: requires a source index inside the list, for the same reason.
- BoardPage.ToggleFavorite: when no board is active, the code appends `undefined` to the favourites; the model appends nothing.
- Strings are sequences of code points, not UTF-16 units. So zod's `min` lengths count code points, and the emoji's UTF-16 encoding is not modelled.
- `Number()`'s whitespace trimming is not modelled, and neither are its other literal forms (decimal, octal, binary); the only form modelled is the `0x` prefix that `selectEmoji` produces.
- Auth.Register: password hashing (bcrypt) and zod's email check are parameters of the model.
- Auth.Register: email uniqueness is a property of the stored users, which the database index keeps.
- The registration page sends a `name` field that the schema strips; the client pages are not part of this model.
- `src/server/trpc/router/section.ts` is not part of this model.
- The archive calls `board.archiveBoard`, `section.archiveSection` and `task.toggleArchived`: no router defines these procedures, so the calls always reject and the client only logs the failure. The model keeps the local, optimistic part of each handler. `BoardPage.HandleArchiveBoard` also gives the request it sends; `Kanban.ArchiveSection` and `Kanban.ToggleArchiveTask` leave out the section and task archive calls (`src/components/common/Kanban.tsx`, lines 154 and 337).
- FolderRouter.FolderDelete: the database's cascade onto a folder's boards is not modelled; the folder row alone is removed.
- Column defaults of the database schema: they appear as the template rows passed to the create operations.
- FolderRouter.Create: its `catch` only logs and returns undefined; the model has no failure path for it.
- `board.getAll`'s `catch`, and `board.getOne`: reads are modelled only through `BoardPage.FetchBoard` and `BoardRouter.GetAllAfterUpdatePosition`.
- `getOne` selects no section position, so the page's position sort computes `undefined - undefined`, NaN, for every pair, which `sort` reads as equal. The model sorts by a key that is 0 for every section (`BoardPage.UnselectedPosition`), and `BoardPage.FetchBoard` keeps the server's order through `BoardPage.SortByEqualKeysKeepsOrder`.
- Writing `undefined` versus `false` to the database: a field the client leaves undefined is written with the server's default.
- TaskRouter.Delete: the order in which `findMany` returns the section's remaining tasks is an input. The precondition only says that this order lists them ascending by position, as the `orderBy` asks.
