# TaskFlow kanban core in Dafny

TaskFlow is a kanban board application: an ASP.NET Core API over an EF Core
database (boards, columns, cards, labels, memberships) and a React client.
This project models the parts of it that carry real logic:

- **Card and column ordering.** Cards sit in columns and columns sit on
  boards. Each has an integer `Position`. The API creates, moves and
  deletes them, and reads boards back ordered by position. Both are
  modelled as tables of `Positions.Row(id, parent, position)` in storage
  order; for a card the parent is its column, for a column its board.
  `OrderBy(Position)` runs in the database as an `ORDER BY`, which
  orders by position and leaves equal positions in no defined order; the
  model sorts by insertion, keeping ties in storage order, and proves
  (`Positions.StrictOrderUnique`) that with distinct positions every
  sorted order is the same list. The same-column and column
  reorder (remove, clamp-insert, renumber 0..n-1) is proved once, as
  `Positions.MoveWithin`, and the cross-column shift once, as
  `Positions.MoveAcross`.
- **Controllers as state transformers.** Every action is a pure function
  from a database `Db` to a `Reply` (status and new database). An
  exception the action throws is a status of its own, so nothing is saved.
  Database-generated keys are parameters that must be fresh.
- **Referential integrity.** The foreign keys and their cascades (column
  to cards, card to assignment and label rows, board to columns, labels
  and memberships) are modelled as the predicate `Store.Valid`, and every
  action that adds, moves or deletes rows is proved to keep it.
- **Membership.** Board roles Owner, Admin, Member and Observer, the
  membership precheck, the guarded member actions, the board create,
  update and delete gates, and the middleware that turns the precheck's
  exceptions into 404/403/500 replies.
- **Client logic.** The drop handlers that turn a drag into a move request
  are composed with the server model. Also modelled: the board page's
  filter and sort pass, the helpers in `utils.ts`, the auth reducers, the
  error-toast predicate and `getInitials`.

Several behaviours of the code as written are proved as they are, not
idealised away:

- Deletes never renumber the siblings left behind (`Cards.DeleteCardLeavesGap`).
- Cross-column moves do not clamp, so a column stays numbered 0..n-1 only
  when the target is in range (`Positions.MoveAcrossPastEnd`).
- The card and column no-op checks compare a requested index with a
  stored position, so on a board with gaps a real column move is dropped
  (`Columns.MoveColumnSkipsOnGap`).
- The client sends a column's stored position as the target index
  (`DropHandlers.ColumnDropOnGap`).
- A card dropped on itself asks for position -1 or 0, which lands it at
  the top (`DropHandlers.SelfDropGoesToTop`).
- An Admin can add a second Owner (`BoardMembers.AdminAddsSecondOwner`)
  and can demote the Owner (`BoardMembers.AdminDemotesOwner`). So
  "exactly one Owner" is proved only for the actions that keep it
  (`BoardMembers.SoleOwnerKept`).
- A label of another board can be attached to a card
  (`Cards.AttachForeignLabel`).
- The toast's action-type test strips the slashes from its pattern but
  not from the type. So a rejection whose type is the slashed path itself
  still raises a toast (`ToastMiddleware.SlashedTypeStillToasts`).

The files are:

- `wrappers.dfy`: `Option`.
- `text.dfy`: trimming over the JavaScript white-space set or any given set,
  ASCII case mapping, `includes` and UTF-16 length.
- `positions.dfy`: the ordering engine.
- `store.dfy`: the tables, lookups, integrity and the board precheck.
- `http.dfy`: statuses and the exception middleware.
- `cards.dfy`, `columns.dfy`, `boards.dfy` and `members.dfy`: the
  controllers.
- `mapping.dfy`: the AutoMapper projections.
- `drop.dfy`, `boardview.dfy`, `utils.dfy`, `authslice.dfy`, `toast.dfy`
  and `avatar.dfy`: the client.

## Model

| member | source | states |
|---|---|---|
| Positions.IndexOf | API/Controllers/ColumnsController.cs:122 | the index of the first row with the key, or -1 exactly when no row has it |
| Positions.Find | API/Controllers/ColumnsController.cs:122 | `FirstOrDefault` by key finds a row exactly when one carries the key, and the row it returns carries it |
| Positions.FindUnder | API/Controllers/ColumnsController.cs:102 | the lookup by key and parent returns a row with both, and fails only when every row with the key has another parent |
| Positions.Children | API/Controllers/CardsController.cs:190 | `Where(parent == p)` holds exactly the rows of the table under `p` |
| Positions.NotUnderAny | API/Controllers/ColumnsController.cs:109 | what a cascade leaves: exactly the rows whose parent is none of the deleted keys |
| Positions.InsertAt | API/Controllers/CardsController.cs:197 | `List.Insert(k, x)`: x at k, earlier rows unchanged, later rows shifted by one |
| Positions.InsertByPosition | API/Profiles/BoardMappingProfile.cs:12 | inserting into a position-sorted list keeps it sorted and adds exactly the one row (as a multiset: `Positions.InsertPermutes`) |
| Positions.InsertPermutes | API/Profiles/BoardMappingProfile.cs:12 | the insertion's result is the old list plus exactly one copy of the new row, as a multiset |
| Positions.SortByPosition | API/Profiles/BoardMappingProfile.cs:12 | `OrderBy(Position)` returns the same rows, sorted by position; ties keep storage order, a choice the database does not make (see Left out); the permutation is `Positions.SortPermutes` |
| Positions.SortPermutes | API/Profiles/BoardMappingProfile.cs:12 | `OrderBy(Position)` is a permutation: every row comes back exactly as often as it went in |
| Positions.SortSortedIdentity | API/Profiles/BoardMappingProfile.cs:16 | sorting a list already in position order leaves it unchanged (for the model's sort; the database promises no order among ties, see Left out) |
| Positions.StrictOrderUnique | API/Profiles/BoardMappingProfile.cs:16 | two lists with strictly increasing positions and the same rows are equal: with distinct positions the order read back is unique |
| Positions.Ordered | API/Controllers/CardsController.cs:190 | the children of `p` ordered by position: sorted, the same count, and exactly the rows under `p` (as a multiset: `Positions.OrderedPermutes`) |
| Positions.OrderedPermutes | API/Controllers/CardsController.cs:190 | the ordered children are a permutation of the rows stored under `p` |
| Positions.DenseOrderIsIndexed | API/Controllers/ColumnsController.cs:126-129 | under a parent numbered 0..n-1, the row at index k of the ordered children has position k |
| Positions.MaxPosition | API/Controllers/CardsController.cs:82-83 | `Max((int?)Position)` is null exactly for no rows, and otherwise an attained upper bound |
| Positions.AppendPosition | API/Controllers/CardsController.cs:82-89 | a new child gets 0 under an empty parent, otherwise exactly one more than the greatest sibling position, over unbounded integers (no 32-bit wrap, see Left out) |
| Positions.AppendPositionIsCount | API/Controllers/ColumnsController.cs:65-70 | under a parent numbered 0..n-1, "max + 1" is the child count |
| Positions.AppendKeepsDense | API/Controllers/ColumnsController.cs:65-73 | appending under a parent numbered 0..n-1 gives position n and keeps it numbered 0..n |
| Positions.Clamp | API/Controllers/CardsController.cs:197 | `Math.Clamp` stays within the bounds, is the identity inside them and saturates outside |
| Positions.Without | API/Controllers/CardsController.cs:196 | `Where(Id != id)` keeps exactly the rows with another key |
| Positions.WithoutAt | API/Controllers/ColumnsController.cs:131 | with unique keys, removing a present key cuts out exactly its row |
| Positions.Renumber | API/Controllers/CardsController.cs:198-199 | the renumbering loop gives the row at index i position i and changes nothing else |
| Positions.Reinsert | API/Controllers/CardsController.cs:196-199 | the siblings with the moved row taken out and put back at the clamped index: one row more than the others, numbered 0..n-1 by index, with the moved row at that index (the column move at API/Controllers/ColumnsController.cs:131-135 is the same step); where every other row lands is `Positions.ReinsertShape` |
| Positions.MoveWithin | API/Controllers/CardsController.cs:194-200 | a same-parent move keeps the table's length and every row's key at its index; its full effect, with rows of other parents untouched, is `Positions.MoveWithinEffects` |
| Positions.WriteBack | API/Controllers/CardsController.cs:218 | saving tracked rows replaces exactly the rows whose key was updated, in place, and leaves the rest |
| Positions.MoveWithinRows | API/Controllers/CardsController.cs:194-200 | a same-parent move keeps every key and parent, leaves other parents alone, and gives each sibling its index in the reinserted list |
| Positions.MoveWithinDense | API/Controllers/ColumnsController.cs:129-136 | whatever the positions before and whatever the target, the parent ends up numbered 0..n-1 with the same count |
| Positions.MoveWithinLandsAt | API/Controllers/CardsController.cs:197 | the moved row lands at position clamp(target, 0, n-1) |
| Positions.MoveWithinOthers | API/Controllers/CardsController.cs:196-199 | each other sibling takes its index among the others, one more from the moved row's slot on |
| Positions.MoveWithinKeepsOrder | API/Controllers/ColumnsController.cs:131-135 | the other siblings keep their relative order |
| Positions.MoveWithinEffects | API/Controllers/CardsController.cs:194-200 | everything a same-parent move promises: numbered 0..n-1, moved row at the clamped target, others in order, keys and parents kept, other parents untouched |
| Positions.MoveWithinUnique | API/Controllers/CardsController.cs:194-200 | a move keeps keys unique |
| Positions.ReloadedOrder | API/Profiles/BoardMappingProfile.cs:16 | reading the parent back after a move gives exactly the reinserted list |
| Positions.ReinsertBeside | API/Controllers/CardsController.cs:196-197 | reinserting at a sibling's index among the others puts the moved row just before it, and at the next index just after it |
| Positions.MoveWithinIdempotent | API/Controllers/ColumnsController.cs:129-136 | repeating the same move, now from the clamped position, changes nothing |
| Positions.MoveAcross | API/Controllers/CardsController.cs:201-216 | a cross-parent move keeps every key, changes no row's parent but the moved one's, and leaves rows of other parents alone; the shifts are stated by `Positions.MoveAcrossEffects` |
| Positions.MoveAcrossKeys | API/Controllers/CardsController.cs:201-216 | a cross move keeps keys unique and unchanged, changes only the moved row's parent, and moves one from the source count to the destination count |
| Positions.MoveAcrossDense | API/Controllers/CardsController.cs:208-215 | from source and destination numbered 0..n-1, the source stays so, and the destination stays so exactly when 0 <= target <= its count |
| Positions.MoveAcrossEffects | API/Controllers/CardsController.cs:201-216 | later source cards drop by one, destination cards at or after the target rise by one, the moved card takes (column, target) unclamped, and other rows are untouched, over unbounded integers (no 32-bit wrap, see Left out) |
| Positions.MoveAcrossPastEnd | API/Controllers/CardsController.cs:214-215 | without the range condition the destination is left with a gap: the only card moved to position 5 of an empty column |
| Positions.OrderedEndIsAppend | API/Controllers/CardsController.cs:192 | "last ordered position + 1, or 0" equals "max position + 1, or 0": the move default agrees with the create default |
| Positions.EndTargetStable | API/Controllers/CardsController.cs:192 | under a parent numbered 0..n-1, a move to the default end and a second request for the end clamp to the same index |
| Store.FindUser | API/Controllers/CardsController.cs:258-260 | `Users.FindAsync`: a user with the key, or none exists |
| Store.FindUserByEmail | API/Controllers/BoardMembersController.cs:55-59 | a user holding the address, or none holds it; of several holders the model picks the first in storage order, which the unordered query does not promise (see Left out) |
| Store.FindLabel | API/Controllers/CardsController.cs:311-313 | a label with the key from any board, or none has it |
| Store.ColumnBoard | API/Controllers/CardsController.cs:178 | the column's board exists exactly when the column does, and is the board of a column with that key |
| Store.CardOnBoard | API/Controllers/CardsController.cs:176-178 | the card found has the key and a column on the board; none means no card with the key sits on the board |
| Store.FirstCardOnBoard | API/Controllers/CardsController.cs:227 | the same lookup over any list of rows |
| Store.CardOnBoardIsRow | API/Controllers/CardsController.cs:176-178 | with unique keys the card found is the one row with the key |
| BoardValidation.ValidateBoard | API/Services/BoardValidationService.cs:16-27 | passes exactly for a member of an existing board; a missing board is reported as not found before membership is looked at; otherwise access is denied |
| BoardValidation.LoadBoard | API/Services/BoardValidationService.cs:12 | the board is loaded exactly when its key exists |
| BoardValidation.ValidateBoardAsync | API/Services/BoardValidationService.cs:10-14 | the async variant is the same check on the loaded board, passing exactly for a member of an existing board |
| BoardValidation.Rejected | API/Services/BoardValidationService.cs:18-26 | a failed precheck throws a board exception and saves nothing |
| ExceptionHandling.Invoke | API/Middleware/ExceptionHandlingMiddleware.cs:14-48 | every error reply is JSON (`application/json; charset=utf-8`: the `text/json` set first is overwritten when the body is written); nothing is written when nothing was thrown; 404 exactly for board-not-found and 403 exactly for access-denied, each with its own message; 500 exactly for anything else, with the fixed text |
| Cards.ForeignKeyRejected | API/Controllers/CardsController.cs:93 | a save naming a missing column fails as an unexpected exception and changes nothing |
| Cards.CreateCard | API/Controllers/CardsController.cs:73-96 | rejected by the precheck, or failing on a missing column, it changes nothing; otherwise exactly one card is added with the new key, in the column, at max+1 or 0, and no existing card changes, over unbounded integers (no 32-bit wrap, see Left out) |
| Cards.CreateCardKeepsDense | API/Controllers/CardsController.cs:82-92 | in a column numbered 0..n-1 the new card gets n and the column stays numbered that way |
| Cards.CreateCardValid | API/Controllers/CardsController.cs:92-93 | creating a card keeps referential integrity, whether the save succeeds or fails on a missing column |
| Cards.Target | API/Controllers/CardsController.cs:192 | an explicit position is the target; with none, the target is the create default `Positions.AppendPosition` (one past the greatest position, or 0), over unbounded integers (no 32-bit wrap, see Left out) |
| Cards.Shortcut | API/Controllers/CardsController.cs:187-188 | a null position never takes the no-op shortcut (the nullable `==` is false), and when it is taken the requested target is the stored position |
| Cards.DefaultTarget | API/Controllers/CardsController.cs:192 | with no position the target is 0 for an empty destination, otherwise one past its greatest position, over unbounded integers (no 32-bit wrap, see Left out) |
| Cards.MoveCard | API/Controllers/CardsController.cs:169-220 | precheck failure, a card not on the board (NotFound) and the same-column no-op shortcut change nothing; a missing destination fails at save; success changes only cards |
| Cards.MoveCardWithinColumn | API/Controllers/CardsController.cs:194-200 | a same-column move: the column becomes 0..n-1, the card sits at clamp(target, 0, n-1), the others keep their order, other columns are untouched |
| Cards.MoveCardBeside | API/Controllers/CardsController.cs:196-197 | asking for a sibling's index among the others (or one more) puts the card just before (or after) that sibling when read back |
| Cards.CardFoundAt | API/Controllers/CardsController.cs:176-178 | after a repositioning the card is found again, with its new position |
| Cards.MoveCardNoChange | API/Controllers/CardsController.cs:187-200 | helper for `Cards.MoveCardIdempotent`: unfolds `MoveCard` to show that the shortcut, or a reorder whose rows come out as they were, replies NoContent with the database unchanged |
| Cards.MoveCardIdempotent | API/Controllers/CardsController.cs:187-200 | issuing the same same-column request twice gives the same reply and arrangement as issuing it once |
| Cards.MoveWithinSettles | API/Controllers/CardsController.cs:192-200 | repeating a same-column move on its result changes nothing, including when the target is defaulted |
| Cards.MovedCardFound | API/Controllers/CardsController.cs:176-178 | after a same-column move the card is found on the board at its clamped position, and keys stay unique |
| Cards.MoveCardAcross | API/Controllers/CardsController.cs:201-216 | a cross-column move shifts the source down and the destination up around the card, places it unclamped, and keeps both columns numbered 0..n-1 exactly when the target is in range, over unbounded integers (no 32-bit wrap, see Left out) |
| Cards.SameKeysValid | API/Controllers/CardsController.cs:218 | rewriting positions in place, with keys kept, keeps referential integrity when every card's column exists |
| Cards.SameParentsValid | API/Controllers/CardsController.cs:218 | rows whose columns are those of existing rows name existing columns |
| Cards.MoveAcrossValid | API/Controllers/CardsController.cs:214-218 | a cross-column move into an existing column keeps referential integrity |
| Cards.MoveCardValid | API/Controllers/CardsController.cs:169-220 | every move keeps referential integrity |
| Cards.DeleteCard | API/Controllers/CardsController.cs:223-237 | rejected or not found, nothing changes; otherwise it succeeds and only cards and their assignment and label rows change |
| Cards.DeleteCardCutsOut | API/Controllers/CardsController.cs:233 | exactly the card's row is cut out of storage order, so every other card keeps its column and position; only the join rows naming it go |
| Cards.DeleteCardValid | API/Controllers/CardsController.cs:233-234 | deleting keeps referential integrity |
| Cards.DeleteCardLeavesGap | API/Controllers/CardsController.cs:233 | deleting the middle card of a column numbered 0, 1, 2 leaves it numbered 0, 2 |
| Cards.AssignUser | API/Controllers/CardsController.cs:240-273 | card not on the board, unknown user, non-member and already-assigned user are refused in that order with no change; otherwise exactly the one assignment row is added |
| Cards.AssignUserTwice | API/Controllers/CardsController.cs:266-267 | a second identical assignment is refused as already assigned and changes nothing |
| Cards.AttachLabel | API/Controllers/CardsController.cs:299-322 | card not on the board, unknown label and already-attached label are refused with no change; otherwise exactly the one label row is added, the label being looked up by key alone |
| Cards.AttachForeignLabel | API/Controllers/CardsController.cs:311 | a label belonging to another board is attached all the same |
| Cards.JoinRowsValid | API/Controllers/CardsController.cs:269-270 | assigning and attaching keep referential integrity |
| Columns.ColumnOnBoard | API/Controllers/ColumnsController.cs:102 | the column found has the key and the board; none means no column with the key is on the board |
| Columns.CreateColumn | API/Controllers/ColumnsController.cs:62-77 | rejected, nothing changes; otherwise exactly one column is added with the new key, on the board, at max+1 or 0, and no existing column changes, over unbounded integers (no 32-bit wrap, see Left out) |
| Columns.CreateColumnKeepsDense | API/Controllers/ColumnsController.cs:65-74 | on a board numbered 0..n-1 the new column gets n, the board stays numbered that way, and integrity is kept |
| Columns.DeleteColumn | API/Controllers/ColumnsController.cs:98-113 | rejected or not found, nothing changes; otherwise it succeeds and only columns, cards and the cards' join rows change |
| Columns.DeleteColumnCutsOut | API/Controllers/ColumnsController.cs:109 | exactly the column's row is cut out of storage order, every other column keeps board and position, exactly the column's cards go and exactly the join rows naming them |
| Columns.DeleteColumnValid | API/Controllers/ColumnsController.cs:109-110 | deleting keeps referential integrity |
| Columns.OrderedLookupIsColumnOnBoard | API/Controllers/ColumnsController.cs:120-122 | `FirstOrDefault` by key in the board's ordered columns finds the same column as the lookup by key and board |
| Columns.ColumnOnBoardIsRow | API/Controllers/ColumnsController.cs:122 | with unique keys the column found is the one row with the key |
| Columns.ColumnTarget | API/Controllers/ColumnsController.cs:127 | an explicit position is the target; with none and a non-empty board, the index of the last column in position order, one with the greatest position |
| Columns.MoveColumn | API/Controllers/ColumnsController.cs:116-140 | rejected or not found, nothing changes; a stored position equal to the target changes nothing; success changes only columns |
| Columns.MoveColumnReorders | API/Controllers/ColumnsController.cs:129-136 | a move that runs: the board becomes 0..n-1, the column sits at clamp(target, 0, n-1), the others keep their order, the board keeps the same columns, other boards are untouched |
| Columns.ColumnFoundAt | API/Controllers/ColumnsController.cs:122 | after a repositioning the column is found again, with its new position |
| Columns.MoveColumnNoChange | API/Controllers/ColumnsController.cs:129 | helper for `Columns.MoveColumnIdempotent`: unfolds `MoveColumn` to show that a column already at the target, or a reorder whose rows come out as they were, replies NoContent with the database unchanged |
| Columns.MoveColumnIdempotent | API/Controllers/ColumnsController.cs:126-136 | issuing the same column move twice gives the same reply and arrangement as issuing it once |
| Columns.MoveColumnDefaultIsLast | API/Controllers/ColumnsController.cs:127 | with no position the column goes to the last index |
| Columns.MoveColumnSkipsOnGap | API/Controllers/ColumnsController.cs:126-129 | of columns at positions 0, 2, 3, asking the middle one to go last is skipped because its stored position equals the target index |
| Columns.MoveColumnValid | API/Controllers/ColumnsController.cs:138 | every column move keeps referential integrity |
| BoardMapping.ColumnDto | API/Profiles/BoardMappingProfile.cs:16 | the emitted column is the column itself, with its cards |
| BoardMapping.BoardColumns | API/Profiles/BoardMappingProfile.cs:12 | one emitted column per column of the board, index by index in position order |
| BoardMapping.BoardColumnsOrdered | API/Profiles/BoardMappingProfile.cs:12-16 | the board's columns are emitted exactly once each in ascending position, and each column's cards exactly, in ascending position |
| BoardMapping.CardCountIsUnderAny | API/Profiles/BoardMappingProfile.cs:20 | summing per-column card counts counts each card under one of the columns exactly once |
| BoardMapping.TasksCount | API/Profiles/BoardMappingProfile.cs:20 | 0 for a board without columns, and with unique column keys never more than the cards there are; its exact value is `BoardMapping.TasksCountIsCardsOnBoard` |
| BoardMapping.TasksCountIsCardsOnBoard | API/Profiles/BoardMappingProfile.cs:20 | `TasksCount` is the number of cards whose column is on the board |
| BoardMapping.OnBoardIff | API/Profiles/BoardMappingProfile.cs:20 | a column key is among the board's columns exactly when that column is on the board |
| BoardMapping.HasDescription | API/Profiles/BoardMappingProfile.cs:31-36 | holds only for a present, non-empty description, with the trim set a parameter because the trim runs in the database |
| BoardMapping.HasDescriptionIff | API/Profiles/BoardMappingProfile.cs:31-36 | for whatever set of characters the database's trim removes, `HasDescription` holds exactly when the description is present and has a character outside that set |
| BoardMembers.WithMembers | API/Controllers/BoardMembersController.cs:121 | replacing a board's membership keeps the same boards and gives that board exactly the new membership |
| BoardMembers.OwnersUpdate | API/Controllers/BoardMembersController.cs:121 | giving a user a role adds it to, or takes it out of, the owners and touches no one else |
| BoardMembers.OwnersRemove | API/Controllers/BoardMembersController.cs:161 | removing a user takes it out of the owners and touches no one else |
| BoardMembers.AddMember | API/Controllers/BoardMembersController.cs:43-85 | refused unless the caller is Owner or Admin; NotFound for an unknown email; refused for an existing member; adding an Admin takes an Owner; success adds the user with the role |
| BoardMembers.AddMemberAddsOne | API/Controllers/BoardMembersController.cs:74-82 | success adds exactly the new user, with the requested role, changes no one else, and changes the owners only when that role is Owner |
| BoardMembers.AdminAddsSecondOwner | API/Controllers/BoardMembersController.cs:66-72 | an Admin may add a user as a second Owner |
| BoardMembers.UpdateMemberRole | API/Controllers/BoardMembersController.cs:88-125 | NotFound for a non-member; role Owner always refused; touching an Admin takes an Owner; other changes take Owner or Admin; success changes only the target's role |
| BoardMembers.UpdateMemberRolePermission | API/Controllers/BoardMembersController.cs:102-119 | the whole permission table: the Owner sets any role but Owner; an Admin only moves non-Admins between Member and Observer, the Owner included; no one else changes anything |
| BoardMembers.UpdateMemberRoleOwners | API/Controllers/BoardMembersController.cs:102-121 | a role change never creates an Owner: the owners after are those before, less the target |
| BoardMembers.AdminDemotesOwner | API/Controllers/BoardMembersController.cs:108-121 | an Admin can demote the Owner, leaving the board with no Owner |
| BoardMembers.RemoveMember | API/Controllers/BoardMembersController.cs:128-165 | NotFound for a non-member; the Owner is never removed; removing an Admin takes an Owner, anyone else Owner or Admin |
| BoardMembers.RemoveMemberPermission | API/Controllers/BoardMembersController.cs:137-159 | who may remove whom, as an iff: the Owner removes anyone but the Owner, an Admin removes Members and Observers, no one else removes anyone |
| BoardMembers.RemoveMemberKeepsOwners | API/Controllers/BoardMembersController.cs:161 | removal keeps the owners and takes exactly the target out of the membership |
| BoardMembers.TransferOwnership | API/Controllers/BoardMembersController.cs:168-194 | refused unless the caller is Owner and the target a member; the caller becomes Admin, then the target Owner |
| BoardMembers.TransferOwnershipMovesOwner | API/Controllers/BoardMembersController.cs:188-189 | from a sole Owner, the target becomes the only Owner, the caller an Admin, with the same members and every other role kept |
| BoardMembers.TransferToSelf | API/Controllers/BoardMembersController.cs:188-189 | a transfer to oneself changes nothing and still succeeds |
| BoardMembers.LeaveBoard | API/Controllers/BoardMembersController.cs:197-219 | the Owner cannot leave; anyone else is removed, and nothing else changes |
| BoardMembers.LeaveBoardKeepsOwners | API/Controllers/BoardMembersController.cs:215 | leaving keeps the owners, and afterwards the caller fails the precheck |
| BoardMembers.SoleOwnerKept | API/Controllers/BoardMembersController.cs:128-219 | "exactly one Owner" survives removing, leaving and transferring to another member |
| Boards.GetBoards | API/Controllers/BoardsController.cs:30-40 | exactly the boards whose precheck the caller passes, that is, those on which the caller is a member |
| Boards.DefaultLabels | API/Controllers/BoardsController.cs:125-136 | six untitled labels with the given keys, on the board, one per default colour in order |
| Boards.LabelsOf | API/Controllers/BoardsController.cs:69-74 | exactly the labels belonging to the board, in storage order |
| Boards.LabelsNotOf | API/Controllers/BoardsController.cs:119 | exactly the labels of other boards, in storage order |
| Boards.Colors | API/Controllers/BoardsController.cs:129-134 | the colours of a label list, one per label in order |
| Boards.CreateBoard | API/Controllers/BoardsController.cs:56-80 | always created: only boards and labels change, every existing board and label is kept, the new board has the given title and description, and six labels are appended |
| Boards.CreateBoardSoleOwner | API/Controllers/BoardsController.cs:66 | the creator is the only member and the only Owner, passes the precheck, and sees the board among their boards |
| Boards.LabelsOfAppend | API/Controllers/BoardsController.cs:73 | the labels of a board in two lists joined are those of the first list followed by those of the second |
| Boards.LabelsOfAll | API/Controllers/BoardsController.cs:72-73 | a list of labels all on the board is its own board's label list |
| Boards.CreateBoardLabels | API/Controllers/BoardsController.cs:69-74 | the new board has exactly six untitled labels, red, orange, yellow, green, blue, violet |
| Boards.NoLabelsOf | API/Controllers/BoardsController.cs:69-74 | a board key that no label names has no labels |
| Boards.CreateBoardValid | API/Controllers/BoardsController.cs:76-77 | creating a board keeps referential integrity |
| Boards.FindLabelPrefix | API/Controllers/BoardsController.cs:73 | appending labels does not change the result of a lookup that already succeeds |
| Boards.UpdateBoard | API/Controllers/BoardsController.cs:83-104 | refused by the precheck, or forbidden unless the caller is Owner or Admin; it succeeds exactly for those, changing only boards |
| Boards.UpdateBoardOnlyText | API/Controllers/BoardsController.cs:99-100 | an update changes only that board's title and description, and repeating it changes nothing more |
| Boards.DeleteBoard | API/Controllers/BoardsController.cs:107-123 | refused by the precheck, or forbidden unless the caller is Owner; it succeeds exactly for the Owner, removing the board and keeping the users |
| Boards.DeleteBoardCascades | API/Controllers/BoardsController.cs:119 | afterwards no column, card, label or membership of the board is left, and no one lists it |
| Boards.DeleteBoardValid | API/Controllers/BoardsController.cs:119-120 | deleting keeps referential integrity |
| Boards.CardColumnSurvives | API/Controllers/BoardsController.cs:119 | a card that survives the cascade still has its column |
| Boards.CardSurvives | API/Controllers/BoardsController.cs:119 | a card not in one of the board's columns survives |
| DropHandlers.ColumnIndex | frontend/src/features/kanban/components/Board/dropHandlers.ts:24-25 | `findIndex` by column key: the first match, or -1 exactly when there is none |
| DropHandlers.CardDrop | frontend/src/features/kanban/components/Board/dropHandlers.ts:12-61 | no request without a target; a request names the dragged card and a column on the board, and never repeats its current place; a column-body drop requests exactly for another shown column, at its card count |
| DropHandlers.CardDropOnCard | frontend/src/features/kanban/components/Board/dropHandlers.ts:23-44 | on a card, the position is the target's index among the destination's other cards, one more for the bottom edge; no request exactly when that is the card's own column and stored position |
| DropHandlers.SelfDropIndex | frontend/src/features/kanban/components/Board/dropHandlers.ts:27-31 | a card dropped on itself asks for -1 (top edge) or 0 (bottom edge), unless that is its stored position |
| DropHandlers.ColumnOfCardShown | frontend/src/features/kanban/components/Board/dropHandlers.ts:24-25 | the column of a card on the board is shown, with exactly its cards in position order |
| DropHandlers.SameColumnRequest | frontend/src/features/kanban/components/Board/dropHandlers.ts:27-35 | for a drop within the card's own column, the index is counted in the same list without the card that the server reinserts into |
| DropHandlers.SameColumnDropLandsBeside | frontend/src/features/kanban/components/Board/dropHandlers.ts:27-42 | a same-column drop sent to the server puts the card just above (top) or just below (bottom) the target card when the column is read back |
| DropHandlers.SelfDropGoesToTop | frontend/src/features/kanban/components/Board/dropHandlers.ts:27-31 | a self-drop sent to the server puts the card first in its column |
| DropHandlers.ColumnBodyDropAppends | frontend/src/features/kanban/components/Board/dropHandlers.ts:46-58 | a column-body drop asks for the destination's card count, and the server keeps both columns numbered 0..n-1 when they were |
| DropHandlers.ColumnDrop | frontend/src/features/kanban/components/Board/dropHandlers.ts:63-86 | a column move is requested exactly for two different shown columns, naming the dragged one |
| DropHandlers.ColumnDropOnDense | frontend/src/features/kanban/components/Board/dropHandlers.ts:79-83 | on a board numbered 0..n-1 the request asks for the target's index, and the server puts the dragged column there |
| DropHandlers.ColumnDropOnGap | frontend/src/features/kanban/components/Board/dropHandlers.ts:79-83 | with positions 0, 2, 3, dragging the last column onto the middle one asks for 2, the index after the target |
| BoardView.KeepAll | frontend/src/features/kanban/components/Board/Board.tsx:93-95 | a filter never adds cards |
| BoardView.Filtered | frontend/src/features/kanban/components/Board/Board.tsx:88-119 | the search, standard and label filters never add a card and never lengthen the list; which cards stay is `BoardView.FilteredMembership` |
| BoardView.SortByComments | frontend/src/features/kanban/components/Board/Board.tsx:125-129 | the comment sort keeps exactly the cards it was given, as many of them; order and stability are `BoardView.SortByCommentsSorts` |
| BoardView.ViewCards | frontend/src/features/kanban/components/Board/Board.tsx:86-133 | a column shows only cards it had, never more of them |
| BoardView.FilteredColumns | frontend/src/features/kanban/components/Board/Board.tsx:85-136 | the same columns in the same order with the same fields; only each card list is recomputed |
| BoardView.KeepNone | frontend/src/features/kanban/components/Board/Board.tsx:100 | filtering by no tests keeps every card |
| BoardView.PassesBoth | frontend/src/features/kanban/components/Board/Board.tsx:89-119 | passing two lists of tests is passing each |
| BoardView.KeepTwice | frontend/src/features/kanban/components/Board/Board.tsx:89-119 | filtering twice is filtering once by both tests |
| BoardView.KeepMembership | frontend/src/features/kanban/components/Board/Board.tsx:93 | a card is kept exactly when it was there and passes every test |
| BoardView.FilteredIsOnePass | frontend/src/features/kanban/components/Board/Board.tsx:89-119 | the three filter steps equal one pass with the tests that are switched on |
| BoardView.FilteredMembership | frontend/src/features/kanban/components/Board/Board.tsx:89-119 | a card survives exactly when the lowered title or description contains the lowered query (if the trimmed query is not empty), it has comments or assignees as chosen, and it carries the label (if a nonzero one is chosen) |
| BoardView.PassesOne | frontend/src/features/kanban/components/Board/Board.tsx:103-109 | passing a one-test list is passing that test |
| BoardView.KeepIsSubsequence | frontend/src/features/kanban/components/Board/Board.tsx:93-117 | a filtered list is a subsequence of the original |
| BoardView.InsertPermutes | frontend/src/features/kanban/components/Board/Board.tsx:125-129 | inserting adds exactly the one card |
| BoardView.InsertKeepsOrder | frontend/src/features/kanban/components/Board/Board.tsx:128-129 | inserting into a most-comments-first list keeps it so |
| BoardView.InsertStable | frontend/src/features/kanban/components/Board/Board.tsx:125-129 | inserting keeps the relative order of cards with equal counts |
| BoardView.SortByCommentsSorts | frontend/src/features/kanban/components/Board/Board.tsx:128-129 | the comment sort is most-comments-first, a permutation, and stable |
| BoardView.ViewCardsShape | frontend/src/features/kanban/components/Board/Board.tsx:86-133 | unsorted, a column's cards are the filtered cards, a subsequence of the input; sorted by comments, a stable descending permutation of them |
| BoardView.NothingSelectedShowsAll | frontend/src/features/kanban/components/Board/Board.tsx:89-122 | with a blank query, no filter, no label and no sort the board is shown as given |
| Text.TrimStart | frontend/src/features/kanban/components/Board/Board.tsx:89 | drops exactly the leading white space: the result is a suffix, the dropped part is all white space, and the result starts with none |
| Text.TrimEnd | frontend/src/features/kanban/utils.ts:38 | drops exactly the trailing white space, likewise |
| Text.TrimEmptyIff | frontend/src/features/kanban/components/Board/Board.tsx:89 | trimming leaves nothing exactly when every character is white space |
| Text.Utf16Length | frontend/src/features/kanban/utils.ts:38 | the UTF-16 length lies between the code-point count and twice it |
| Text.Lower | frontend/src/features/kanban/components/Board/Board.tsx:90 | lower-casing keeps the length and maps each character |
| Text.Upper | frontend/src/shared/components/Avatar/Avatar.tsx:23 | upper-casing keeps the length and maps each character |
| Text.Includes | frontend/src/features/kanban/components/Board/Board.tsx:94 | `includes` holds exactly when the substring occurs at some index |
| Text.IncludesFrom | frontend/src/features/kanban/components/Board/Board.tsx:94 | the scan from an index finds exactly the occurrences at or after it |
| KanbanUtils.ShallowEqual | frontend/src/features/kanban/utils.ts:1-9 | equal records agree on every key whose value on the left is not `undefined`: the right has the key with the same value |
| KanbanUtils.ShallowEqualBasics | frontend/src/features/kanban/utils.ts:5-8 | different key counts are never equal, and every record equals itself |
| KanbanUtils.ShallowEqualNotSymmetric | frontend/src/features/kanban/utils.ts:8 | `{a: undefined}` equals `{b: 1}` but not the other way round |
| KanbanUtils.ShallowEqualWithoutUndefined | frontend/src/features/kanban/utils.ts:1-9 | with no `undefined` on the left, shallow equality is equality of the records |
| KanbanUtils.RoleOptions | frontend/src/features/kanban/utils.ts:23-30 | three options, none the current role, each with its role's label |
| KanbanUtils.RoleOptionsOffersOthers | frontend/src/features/kanban/utils.ts:23-30 | every other role is offered, in the order Observer, Member, Admin, Owner |
| KanbanUtils.FindChar | frontend/src/features/kanban/utils.ts:33 | the first index of the character, or -1 exactly when absent |
| KanbanUtils.ValidateEmail | frontend/src/features/kanban/utils.ts:32-35 | an accepted address holds an `@` and at least five characters |
| KanbanUtils.ValidateEmailIff | frontend/src/features/kanban/utils.ts:32-35 | the check accepts exactly the strings the regular expression matches |
| KanbanUtils.ValidEmailMatches | frontend/src/features/kanban/utils.ts:33 | an accepted address has the shape of the regular expression |
| KanbanUtils.MatchIsValid | frontend/src/features/kanban/utils.ts:33 | a string of the regular expression's shape is accepted |
| KanbanUtils.ValidateLabelTitle | frontend/src/features/kanban/utils.ts:37-39 | an accepted title has between 1 and 50 characters |
| KanbanUtils.ValidateLabelTitleIff | frontend/src/features/kanban/utils.ts:37-39 | valid exactly when some character is not white space and the UTF-16 length is at most 50 |
| KanbanUtils.HasBoardAdminRights | frontend/src/features/kanban/utils.ts:41-44 | no rights without a member |
| KanbanUtils.AdminRightsMatchServer | frontend/src/features/kanban/utils.ts:41-44 | for a member of the board, the client shows the edit controls exactly when the server accepts a board update |
| AuthSlice.Reduce | frontend/src/features/auth/authSlice.ts:22-42 | each action writes only its own fields; `logout` clears token and user |
| AuthSlice.Run | frontend/src/features/auth/authSlice.ts:22-42 | a field keeps its value through any sequence of actions none of which writes it: the token through no `setToken` or `logout`, the user through no `setUser` or `logout`, the verification data through no `setVerifyEmailData` or `clearVerifyEmailData` |
| AuthSlice.RunSnoc | frontend/src/features/auth/authSlice.ts:22-42 | dispatching one more action applies the reducer once more |
| AuthSlice.RunIsLastWrite | frontend/src/features/auth/authSlice.ts:22-42 | after any actions each field holds what the last action touching it wrote, or its initial value |
| AuthSlice.LogoutKeepsVerification | frontend/src/features/auth/authSlice.ts:29-32 | `logout` nulls token and user, leaves the pending verification alone, and is idempotent |
| AuthSlice.SetThenClearVerification | frontend/src/features/auth/authSlice.ts:36-41 | setting and then clearing the verification data returns it to `undefined` and touches neither token nor user |
| ToastMiddleware.StripNonAlnum | frontend/src/app/toastMiddleware.ts:66 | stripping keeps only ASCII letters and digits and never lengthens |
| ToastMiddleware.StripLength | frontend/src/app/toastMiddleware.ts:66 | stripping keeps exactly one character per letter or digit |
| ToastMiddleware.StrippedShape | frontend/src/app/toastMiddleware.ts:66-67 | a stripped, lower-cased pattern has one character per letter or digit and no `/` |
| ToastMiddleware.PathAlnumCount | frontend/src/app/toastMiddleware.ts:33-36 | the silent path holds 23 letters |
| ToastMiddleware.SilentPatternShape | frontend/src/app/toastMiddleware.ts:63-70 | the stripped silent pattern has 23 characters and no `/` |
| ToastMiddleware.ShouldShowToast | frontend/src/app/toastMiddleware.ts:38-73 | an action from a silent endpoint never toasts, and an action with no endpoint name, no fetch status and an empty type always does |
| ToastMiddleware.ShouldShowToastIff | frontend/src/app/toastMiddleware.ts:38-73 | no toast exactly when the endpoint is silent, or a fetch error's URL contains the silent path, or the lowered type contains the stripped pattern |
| ToastMiddleware.EndpointTest | frontend/src/app/toastMiddleware.ts:40-47 | the endpoint test holds exactly for `refresh-user-token` and `getCurrentUser` |
| ToastMiddleware.UrlTest | frontend/src/app/toastMiddleware.ts:50-60 | the URL test holds exactly for a payload with a status whose `data.url` contains the silent path |
| ToastMiddleware.TypeTest | frontend/src/app/toastMiddleware.ts:63-70 | the type test holds exactly when the lowered type contains the stripped pattern; an empty type, which the source skips, never contains it |
| ToastMiddleware.OnePattern | frontend/src/app/toastMiddleware.ts:55-68 | over one pattern, `some` is a plain inclusion test |
| ToastMiddleware.KindTest | frontend/src/app/toastMiddleware.ts:63-70 | skipping an empty type changes nothing when the stripped pattern is not empty |
| ToastMiddleware.PathIsLowerCase | frontend/src/app/toastMiddleware.ts:35 | the silent path is already lower case |
| ToastMiddleware.StrippedNotInPath | frontend/src/app/toastMiddleware.ts:63-70 | the silent path as written does not contain its stripped form |
| ToastMiddleware.SlashedTypeStillToasts | frontend/src/app/toastMiddleware.ts:63-72 | a rejection typed as the slashed path itself, with no endpoint and no status, still raises a toast |
| ToastMiddleware.Handle | frontend/src/app/toastMiddleware.ts:75-86 | for an action whose `data.url` is absent or a string (see Left out), the action is passed on once, and a toast is raised only for a rejection with a payload |
| ToastMiddleware.HandleAllForwardsEach | frontend/src/app/toastMiddleware.ts:75-86 | over a stream of actions whose `data.url` is absent or a string (see Left out), every action reaches `next` exactly once and in order, with one toast per unsilenced rejection |
| Avatar.Split | frontend/src/shared/components/Avatar/Avatar.tsx:20 | `split(" ")` gives at least one part and no part holds a space |
| Avatar.Initials | frontend/src/shared/components/Avatar/Avatar.tsx:18-25 | at most two characters |
| Avatar.SplitJoin | frontend/src/shared/components/Avatar/Avatar.tsx:20 | joining the parts with spaces gives the name back |
| Avatar.Firsts | frontend/src/shared/components/Avatar/Avatar.tsx:21-22 | at most one character per part |
| Avatar.FirstsOfLaterParts | frontend/src/shared/components/Avatar/Avatar.tsx:20-22 | the first letters of the parts after the first are the word starts after a space |
| Avatar.StartOfFirstPart | frontend/src/shared/components/Avatar/Avatar.tsx:20-21 | the first part is empty exactly for an empty name or a leading space, and otherwise starts with the name's first character |
| Avatar.FirstsAreWordStarts | frontend/src/shared/components/Avatar/Avatar.tsx:20-22 | the first letters of the parts are exactly the word starts of the name |
| Avatar.InitialsAreWordStarts | frontend/src/shared/components/Avatar/Avatar.tsx:18-25 | the initials are the first two word starts, upper-cased; empty parts contribute nothing |
| Avatar.WordStartsIff | frontend/src/shared/components/Avatar/Avatar.tsx:20-22 | a character is a word start exactly when it sits at a position that begins a word |
| Avatar.InitialsExamples | frontend/src/shared/components/Avatar/Avatar.tsx:18-25 | `""` and `"  "` give no initials, and `"a  b c"` gives `"AB"` |

## Left out

- Authentication, JWT, email, attachments, comments and the label
  controller: identity, SMTP and file-system calls, or single-row CRUD.
  The signed-in user is a parameter (`caller`).
- `UpdateCard`, `PatchCard`, `GetCards`, `GetCard`, `UnassignUser` and
  `DetachLabel` in the cards controller, `UpdateColumn` and `GetColumn(s)`,
  `GetBoard` and `GetBoardMembers`: single-row reads and writes with no
  ordering or permission logic beyond the precheck. JSON Patch and NodaTime
  parsing are library code.
- The `ModelState.IsValid` checks: they run the DTO attribute validators,
  which are library code; every request is taken as well formed.
- The legacy `Collumns` controller and models, the migrations and
  `AppDbContext`: the foreign keys and cascades the schema declares are
  modelled as the integrity predicate and the cascading deletes, not as
  DDL.
- Transactions and concurrency: each `SaveChangesAsync` is one atomic step.
- The `AttachmentsCount` and `CommentsCount` projections: they are plain
  counts of rows that are not part of this model. The comment count is an
  input field of the client's card.
- Sorting by name in the board page: `localeCompare` depends on the locale.
- Case mapping is ASCII only: `toLowerCase`, `toUpperCase` and
  `ToLower` beyond ASCII use Unicode tables that are not part of this model.
- `getInitials` takes `n[0]` as one code point. JavaScript takes one
  UTF-16 unit, which splits a surrogate pair.
- `isShallowEqual`: `Object.is` on numbers is modelled as equality of
  integers. Floating point, `NaN` and `-0` are left out.
- The toast's text (`getErrorMessage`), the `console.log` calls, and
  `next`'s return value are left out.
- `ToastMiddleware.SilentPatternShape`: states only the length (23) and
  the absence of `/` of the stripped pattern, not its characters.
- `ToastMiddleware.Handle`: `data.url` is modelled as an optional
  string. In the source, a `data.url` that is present but not a string
  (a number, say) makes `url.includes` throw inside `shouldShowToast`
  (toastMiddleware.ts:55-56). The action is then never passed to `next`.
  The model has no such input, so "every action is passed on" holds only
  for actions whose `data.url` is absent or a string. The same goes for
  `ToastMiddleware.HandleAllForwardsEach`.
- `BoardMembers.LeaveBoard`: the source's not-a-member branch
  (BoardMembersController.cs:205-208) cannot be reached once the precheck
  admits the caller, so no lemma is stated about it.
- `Cards.MoveCardIdempotent`: states idempotence only for an explicit
  position, or for a column numbered 0..n-1 before. With a null position
  over other positions (negative ones, say) the default end target can
  change between the two requests.
- Integer width: positions are unbounded integers, while the source's
  `Position` is a 32-bit `int` and its arithmetic is unchecked. A
  cross-column move stores an unclamped position (CardsController.cs:215),
  so `int.MaxValue` can be stored, and a later `+ 1` then wraps to
  `int.MinValue`. Below that limit the model and the source agree; the
  wrap itself is not modelled. The members whose contracts assume no wrap
  are listed next.
- Positions.AppendPosition: "one more than the greatest position" assumes
  `maxPosition + 1` does not wrap at `int.MaxValue`.
- Cards.CreateCard: placing the card above every sibling assumes
  `maxPosition + 1` (CardsController.cs:89) does not wrap.
- Columns.CreateColumn: placing the column above every sibling assumes
  `maxPosition + 1` (ColumnsController.cs:70) does not wrap.
- Cards.Target: the default target equal to the create default assumes
  `Position + 1` (CardsController.cs:192) does not wrap.
- Cards.DefaultTarget: "one past the greatest position" assumes the same
  `Position + 1` does not wrap.
- Positions.MoveAcrossEffects: "rise by one" and "drop by one" assume
  `c.Position++` and `c.Position--` (CardsController.cs:209, :212) stay
  within the 32-bit range.
- Cards.MoveCardAcross: the destination shift up and the source shift down
  assume the same `++` and `--` do not wrap.
- Positions.SortByPosition: the database's `ORDER BY Position` returns rows
  with equal positions in no defined order; the model's insertion sort
  keeps them in storage order. Ties do occur: the migration that added
  `Columns.Position` gave every existing column 0. With distinct positions
  the choice is forced, since every sorted order is the same list
  (`Positions.StrictOrderUnique`).
- Store.FindUserByEmail: the query has no `OrderBy`, so when several users
  share an address the source may return any of them; the model returns
  the first in storage order.
- BoardMapping.HasDescription: the characters `Trim()` removes are those
  of the database provider's translation of it (the DTO is built by a
  query projection), which is not part of this model; they are a
  parameter, and the .NET `Char.IsWhiteSpace` set is not assumed.
- The React components, drag gestures, scrolling and RTK Query wiring.
