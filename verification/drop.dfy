/** `dropHandlers.ts`: how the board page turns a finished drag into a move
    request. The board is what the server emitted (`BoardMapping`); a
    dragged card is the row it was rendered from, so its parent is the
    column it was dragged out of. */
module DropHandlers {
  import opened Wrappers
  import opened Positions
  import opened Http
  import opened Store
  import opened BoardValidation
  import opened BoardMapping
  import Cards
  import Columns

  /** `extractClosestEdge` on the target card: the half the pointer is
      over, or none. Only "bottom" is told apart. */
  datatype Edge = Top | Bottom | NoEdge

  /** The innermost drop target under a dropped card. */
  datatype CardTarget =
    | NoTarget
    | OnCard(columnId: int, cardId: int, edge: Edge)
    | OnColumn(columnId: int)
    | Elsewhere

  /** The body of a `moveCard` request. */
  datatype CardMove = CardMove(cardId: int, newColumnId: int, newPosition: int)

  /** The body of a `moveColumn` request. */
  datatype ColumnMove = ColumnMove(columnId: int, newPosition: int)

  /** `board.columns.find(col => col.id === id)`, as the index of the column
      found (-1 for none), so that two lookups can be compared as objects. */
  function ColumnIndex(board: seq<ColumnView>, id: int): (k: int)
    ensures -1 <= k < |board|
    ensures 0 <= k ==> board[k].column.id == id && forall j :: 0 <= j < k ==> board[j].column.id != id
    ensures k < 0 ==> forall j :: 0 <= j < |board| ==> board[j].column.id != id
  {
    if board == [] then -1
    else if board[0].column.id == id then 0
    else
      var k := ColumnIndex(board[1..], id);
      if k < 0 then -1 else k + 1
  }

  /** `monitorCardDrop`'s `onDrop`. On a card: the target's index among the
      destination's cards without the dragged one (one more for the bottom
      edge), and nothing when that is the dragged card's own column and
      stored position. On a column body: append to another column. */
  function CardDrop(board: seq<ColumnView>, dragged: Row, target: CardTarget): (r: Option<CardMove>)
    ensures target.NoTarget? || target.Elsewhere? ==> r.None?
    ensures r.Some? ==> r.value.cardId == dragged.id && 0 <= ColumnIndex(board, r.value.newColumnId)
    ensures r.Some? ==> r.value.newColumnId != dragged.parent || r.value.newPosition != dragged.position
    ensures target.OnColumn? ==>
      (r.Some? <==> 0 <= ColumnIndex(board, target.columnId) && target.columnId != dragged.parent)
    ensures target.OnColumn? && r.Some? ==>
      r.value.newColumnId == target.columnId && r.value.newPosition == |board[ColumnIndex(board, target.columnId)].cards|
  {
    match target
    case OnCard(columnId, cardId, edge) =>
      var c := ColumnIndex(board, columnId);
      if c < 0 then None
      else
        var index := IndexOf(Without(board[c].cards, dragged.id), cardId);
        var newPosition := if edge == Bottom then index + 1 else index;
        if board[c].column.id == dragged.parent && newPosition == dragged.position then None
        else Some(CardMove(dragged.id, board[c].column.id, newPosition))
    case OnColumn(columnId) =>
      var c := ColumnIndex(board, columnId);
      if c < 0 || board[c].column.id == dragged.parent then None
      else Some(CardMove(dragged.id, board[c].column.id, |board[c].cards|))
    case _ => None
  }

  /** Dropped on a card of a column the board has, the request names that
      column and the target's index among its other cards (plus one for the
      bottom edge); it is left out only when that equals the stored
      position in the dragged card's own column. */
  lemma CardDropOnCard(board: seq<ColumnView>, dragged: Row, columnId: int, cardId: int, edge: Edge)
    requires 0 <= ColumnIndex(board, columnId)
    ensures var cards := board[ColumnIndex(board, columnId)].cards;
      var newPosition := IndexOf(Without(cards, dragged.id), cardId) + (if edge == Bottom then 1 else 0);
      var r := CardDrop(board, dragged, OnCard(columnId, cardId, edge));
      && -1 <= newPosition <= |cards|
      && (r.None? <==> columnId == dragged.parent && newPosition == dragged.position)
      && (r.Some? ==> r.value == CardMove(dragged.id, columnId, newPosition))
  {
  }

  /** Dropping a card on itself: the dragged card is not in the list it is
      looked up in, so the index is -1 and the request asks for position -1
      (top edge) or 0 (bottom edge). */
  lemma SelfDropIndex(board: seq<ColumnView>, dragged: Row, edge: Edge)
    requires 0 <= ColumnIndex(board, dragged.parent)
    ensures var want := if edge == Bottom then 0 else -1;
      CardDrop(board, dragged, OnCard(dragged.parent, dragged.id, edge))
        == if dragged.position == want then None else Some(CardMove(dragged.id, dragged.parent, want))
  {
    var cards := board[ColumnIndex(board, dragged.parent)].cards;
    assert !HasId(Without(cards, dragged.id), dragged.id) by {
      HasIdIff(Without(cards, dragged.id), dragged.id);
    }
  }

  /** The column the server emitted for a card on the board is found in
      the board, and carries the card's column ordered by position. */
  lemma ColumnOfCardShown(db: Db, boardId: int, card: Row)
    requires UniqueIds(db.columns) && card in db.cards && ColumnBoard(db, card.parent) == Some(boardId)
    ensures var board := BoardColumns(db, boardId);
      var c := ColumnIndex(board, card.parent);
      0 <= c && board[c].cards == Ordered(db.cards, card.parent)
  {
    var board := BoardColumns(db, boardId);
    BoardColumnsOrdered(db, boardId);
    var col :| col in db.columns && col.id == card.parent && col.parent == boardId;
    var i :| 0 <= i < |board| && board[i].column == col;
    var c := ColumnIndex(board, card.parent);
    assert board[c] == ColumnDto(db, Ordered(db.columns, boardId)[c]);
  }

  /** The request a drop on another card of the same column yields: the
      target's index among the column's other cards, one more for the
      bottom edge, and nothing when that is the stored position. */
  lemma SameColumnRequest(db: Db, boardId: int, dragged: Row, target: Row, edge: Edge)
    requires UniqueIds(db.columns) && dragged in db.cards && ColumnBoard(db, dragged.parent) == Some(boardId)
    requires target in db.cards && target.parent == dragged.parent && target.id != dragged.id
    ensures var others := Others(Ordered(db.cards, dragged.parent), dragged);
      var newPosition := IndexOf(others, target.id) + (if edge == Bottom then 1 else 0);
      && HasId(others, target.id)
      && CardDrop(BoardColumns(db, boardId), dragged, OnCard(dragged.parent, target.id, edge))
         == if dragged.position == newPosition then None else Some(CardMove(dragged.id, dragged.parent, newPosition))
  {
    var order := Ordered(db.cards, dragged.parent);
    ColumnOfCardShown(db, boardId, dragged);
    CardDropOnCard(BoardColumns(db, boardId), dragged, dragged.parent, target.id, edge);
    assert target in Others(order, dragged);
    HasIdIff(Others(order, dragged), target.id);
  }

  /** Client and server agree on what a same-column index means: the client
      counts the target's index in the column without the dragged card, and
      the server removes the card and inserts it at that index. So when the
      column is read back, the dragged card sits just above the target card
      (top edge) or just below it (bottom edge). */
  lemma SameColumnDropLandsBeside(db: Db, boardId: int, caller: int, dragged: Row, target: Row, edge: Edge)
    requires UniqueIds(db.cards) && UniqueIds(db.columns) && Admitted(db, boardId, caller)
    requires dragged in db.cards && ColumnBoard(db, dragged.parent) == Some(boardId)
    requires target in db.cards && target.parent == dragged.parent && target.id != dragged.id
    requires CardDrop(BoardColumns(db, boardId), dragged, OnCard(dragged.parent, target.id, edge)).Some?
    ensures var m := CardDrop(BoardColumns(db, boardId), dragged, OnCard(dragged.parent, target.id, edge)).value;
      var r := Cards.MoveCard(db, boardId, caller, m.cardId, m.newColumnId, Some(m.newPosition));
      var o := Ordered(r.db.cards, dragged.parent);
      && m.newColumnId == dragged.parent
      && r.status == NoContent
      && exists k :: 0 <= k && k + 1 < |o| &&
           if edge == Bottom then o[k].id == target.id && o[k + 1].id == dragged.id
           else o[k].id == dragged.id && o[k + 1].id == target.id
  {
    SameColumnRequest(db, boardId, dragged, target, edge);
    var i :| 0 <= i < |db.cards| && db.cards[i] == dragged;
    CardOnBoardIsRow(db, boardId, i, dragged);
    Cards.MoveCardBeside(db, boardId, caller, dragged, target.id, edge == Bottom);
  }

  /** Dropping a card on its own top or bottom edge sends it to the top of
      its column: the server clamps -1 and 0 alike to the first index. */
  lemma SelfDropGoesToTop(db: Db, boardId: int, caller: int, dragged: Row, edge: Edge)
    requires UniqueIds(db.cards) && UniqueIds(db.columns) && Admitted(db, boardId, caller)
    requires dragged in db.cards && ColumnBoard(db, dragged.parent) == Some(boardId)
    requires CardDrop(BoardColumns(db, boardId), dragged, OnCard(dragged.parent, dragged.id, edge)).Some?
    ensures var m := CardDrop(BoardColumns(db, boardId), dragged, OnCard(dragged.parent, dragged.id, edge)).value;
      var r := Cards.MoveCard(db, boardId, caller, m.cardId, m.newColumnId, Some(m.newPosition));
      var o := Ordered(r.db.cards, dragged.parent);
      && m.newPosition == (if edge == Bottom then 0 else -1)
      && |o| > 0 && o[0] == dragged.(position := 0)
  {
    var col := dragged.parent;
    var t := db.cards;
    ColumnOfCardShown(db, boardId, dragged);
    SelfDropIndex(BoardColumns(db, boardId), dragged, edge);
    var newPos := if edge == Bottom then 0 else -1;
    var i :| 0 <= i < |t| && t[i] == dragged;
    CardOnBoardIsRow(db, boardId, i, dragged);
    assert Cards.MoveCard(db, boardId, caller, dragged.id, col, Some(newPos))
        == Reply(NoContent, db.(cards := MoveWithin(t, col, dragged, newPos)));
    ReloadedOrder(t, col, dragged, newPos);
    OrderedUnique(t, col);
    assert dragged in Ordered(t, col);
    ReinsertPositions(Ordered(t, col), dragged, newPos);
  }

  /** Dropping a card on the body of another column appends it: the server
      puts it at that column's card count, which keeps both columns
      numbered 0..n-1 when they were. */
  lemma ColumnBodyDropAppends(db: Db, boardId: int, caller: int, dragged: Row, columnId: int)
    requires UniqueIds(db.cards) && UniqueIds(db.columns) && Admitted(db, boardId, caller)
    requires dragged in db.cards && ColumnBoard(db, dragged.parent) == Some(boardId)
    requires CardDrop(BoardColumns(db, boardId), dragged, OnColumn(columnId)).Some?
    ensures var m := CardDrop(BoardColumns(db, boardId), dragged, OnColumn(columnId)).value;
      var t := db.cards;
      var t' := Cards.MoveCard(db, boardId, caller, m.cardId, m.newColumnId, Some(m.newPosition)).db.cards;
      && m.newColumnId == columnId && m.newPosition == |Children(t, columnId)|
      && (DenseIn(t, dragged.parent) && DenseIn(t, columnId) ==> DenseIn(t', dragged.parent) && DenseIn(t', columnId))
  {
    var board := BoardColumns(db, boardId);
    var c := ColumnIndex(board, columnId);
    assert board[c] == ColumnDto(db, Ordered(db.columns, boardId)[c]);
    var col := Ordered(db.columns, boardId)[c];
    assert col in Ordered(db.columns, boardId);
    HasIdIff(db.columns, columnId);
    var i :| 0 <= i < |db.cards| && db.cards[i] == dragged;
    CardOnBoardIsRow(db, boardId, i, dragged);
    Cards.MoveCardAcross(db, boardId, caller, dragged.id, columnId, Some(|Children(db.cards, columnId)|), dragged);
  }

  /** `monitorColumnDrop`'s `onDrop`: a column dropped on another column of
      the board asks for the target column's stored position. */
  function ColumnDrop(board: seq<ColumnView>, draggedId: int, target: Option<int>): (r: Option<ColumnMove>)
    ensures r.Some? <==> (target.Some? && 0 <= ColumnIndex(board, draggedId) && 0 <= ColumnIndex(board, target.value)
      && ColumnIndex(board, draggedId) != ColumnIndex(board, target.value))
    ensures r.Some? ==> r.value.columnId == draggedId
  {
    if target.None? then None
    else
      var s, d := ColumnIndex(board, draggedId), ColumnIndex(board, target.value);
      if s < 0 || d < 0 || s == d then None
      else Some(ColumnMove(draggedId, board[d].column.position))
  }

  /** On a board numbered 0..n-1 the stored position the request carries is
      the target column's index, and the server moves the dragged column to
      exactly that index. */
  lemma ColumnDropOnDense(db: Db, boardId: int, caller: int, draggedId: int, targetId: int)
    requires UniqueIds(db.columns) && DenseIn(db.columns, boardId) && Admitted(db, boardId, caller)
    requires ColumnDrop(BoardColumns(db, boardId), draggedId, Some(targetId)).Some?
    ensures var board := BoardColumns(db, boardId);
      var m := ColumnDrop(board, draggedId, Some(targetId)).value;
      var t' := Columns.MoveColumn(db, boardId, caller, draggedId, Some(m.newPosition)).db.columns;
      && m.newPosition == ColumnIndex(board, targetId)
      && forall i :: 0 <= i < |db.columns| && db.columns[i].id == draggedId ==> t'[i].position == m.newPosition
  {
    var board := BoardColumns(db, boardId);
    var o := Ordered(db.columns, boardId);
    var s, d := ColumnIndex(board, draggedId), ColumnIndex(board, targetId);
    DenseOrderIsIndexed(db.columns, boardId);
    assert board[d].column == o[d] && board[s].column == o[s];
    var column := o[s];
    assert column in o;
    var j :| 0 <= j < |db.columns| && db.columns[j] == column;
    Columns.ColumnOnBoardIsRow(db, boardId, draggedId, j);
    Columns.MoveColumnReorders(db, boardId, caller, draggedId, Some(d), column);
  }

  /** With a gap in the stored positions the request misses: of columns at
      positions 0, 2, 3, dragging the last onto the middle one asks for
      position 2, which is the index after the target, not the target's
      index 1 (see also `Columns.MoveColumnSkipsOnGap`). */
  lemma ColumnDropOnGap(db: Db)
    requires db.columns == [Row(10, 1, 0), Row(12, 1, 2), Row(13, 1, 3)]
    ensures var board := BoardColumns(db, 1);
      && ColumnIndex(board, 12) == 1 && ColumnIndex(board, 13) == 2
      && ColumnDrop(board, 13, Some(12)) == Some(ColumnMove(13, 2))
  {
    var t := db.columns;
    assert Ordered(t, 1) == t by {
      assert Children(t, 1) == t by {
        assert Children(t[2..], 1) == [t[2]] by { assert t[2..][1..] == []; }
        assert t[1..][1..] == t[2..];
      }
      assert SortedByPosition(t);
      SortSortedIdentity(t);
    }
    var board := BoardColumns(db, 1);
    assert board[0].column.id == 10 && board[1].column == t[1] && board[2].column == t[2];
  }
}
