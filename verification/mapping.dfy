/** `BoardMappingProfile`: what the read side emits. A board's columns come
    ordered by position, each with its cards ordered by position; a brief
    board carries the number of its cards; a brief card says whether it has
    a description. */
module BoardMapping {
  import opened Wrappers
  import opened Positions
  import opened Store
  import opened Text

  /** `FullColumnDto`: a column and its cards. */
  datatype ColumnView = ColumnView(column: Row, cards: seq<Row>)

  /** `Column -> FullColumnDto`: the cards ordered by position. */
  function ColumnDto(db: Db, c: Row): (v: ColumnView)
    ensures v.column == c
  {
    ColumnView(c, Ordered(db.cards, c.id))
  }

  /** `Board -> FullBoardDto`: the columns ordered by position. */
  function BoardColumns(db: Db, boardId: int): (r: seq<ColumnView>)
    ensures |r| == |Children(db.columns, boardId)|
    ensures forall i {:trigger r[i]} :: 0 <= i < |r| ==> r[i] == ColumnDto(db, Ordered(db.columns, boardId)[i])
  {
    var o := Ordered(db.columns, boardId);
    seq(|o|, i requires 0 <= i < |o| => ColumnDto(db, o[i]))
  }

  /** The emitted board lists exactly the board's columns, in ascending
      position, and each column exactly its cards, in ascending position. */
  lemma BoardColumnsOrdered(db: Db, boardId: int)
    ensures var r := BoardColumns(db, boardId);
      && (forall i, j :: 0 <= i < j < |r| ==> r[i].column.position <= r[j].column.position)
      && (forall c :: c in db.columns && c.parent == boardId <==> exists i :: 0 <= i < |r| && r[i].column == c)
      && (forall i :: 0 <= i < |r| ==> SortedByPosition(r[i].cards))
      && (forall i, x :: 0 <= i < |r| ==> (x in r[i].cards <==> x in db.cards && x.parent == r[i].column.id))
  {
    var r := BoardColumns(db, boardId);
    var o := Ordered(db.columns, boardId);
    forall c | c in db.columns && c.parent == boardId
      ensures exists i :: 0 <= i < |r| && r[i].column == c
    {
      assert c in o;
      var i :| 0 <= i < |o| && o[i] == c;
      assert r[i].column == c;
    }
    forall i | 0 <= i < |r| ensures r[i].column in db.columns && r[i].column.parent == boardId {
      assert o[i] in o;
    }
  }

  /** The sum, over `cols`, of the number of cards in each. */
  function CardCount(cards: seq<Row>, cols: seq<Row>): nat {
    if cols == [] then 0 else |Children(cards, cols[0].id)| + CardCount(cards, cols[1..])
  }

  /** `BriefBoardDto.TasksCount`: `Columns.Sum(c => c.Cards.Count)`. */
  function TasksCount(db: Db, boardId: int): (n: nat)
    ensures Children(db.columns, boardId) == [] ==> n == 0
    ensures UniqueIds(db.columns) ==> n <= |db.cards|
  {
    TasksCountBound(db, boardId);
    CardCount(db.cards, Children(db.columns, boardId))
  }

  /** With unique column keys no card is counted twice. */
  lemma TasksCountBound(db: Db, boardId: int)
    ensures UniqueIds(db.columns) ==> CardCount(db.cards, Children(db.columns, boardId)) <= |db.cards|
  {
    if UniqueIds(db.columns) {
      ChildrenUnique(db.columns, boardId);
      CardCountIsUnderAny(db.cards, Children(db.columns, boardId));
    }
  }

  lemma {:induction false} CardCountIsUnderAny(cards: seq<Row>, cols: seq<Row>)
    requires UniqueIds(cols)
    ensures CardCount(cards, cols) == |UnderAny(cards, cols)|
  {
    if cols == [] {
      UnderNone(cards, cols);
    } else {
      assert !HasId(cols[1..], cols[0].id);
      UnderAnySplit(cards, cols);
      CardCountIsUnderAny(cards, cols[1..]);
    }
  }

  /** With unique column keys, the count is the number of cards that sit
      in one of the board's columns: no card is counted twice or missed. */
  lemma TasksCountIsCardsOnBoard(db: Db, boardId: int)
    requires UniqueIds(db.columns)
    ensures TasksCount(db, boardId) == |UnderAny(db.cards, Children(db.columns, boardId))|
    ensures forall x :: x in UnderAny(db.cards, Children(db.columns, boardId)) <==>
      x in db.cards && ColumnBoard(db, x.parent) == Some(boardId)
  {
    var cols := Children(db.columns, boardId);
    ChildrenUnique(db.columns, boardId);
    CardCountIsUnderAny(db.cards, cols);
    forall x | x in db.cards
      ensures HasId(cols, x.parent) <==> ColumnBoard(db, x.parent) == Some(boardId)
    {
      OnBoardIff(db, boardId, x.parent);
    }
  }

  lemma {:induction false} UnderNone(t: seq<Row>, ps: seq<Row>)
    requires ps == []
    ensures UnderAny(t, ps) == []
  {
    if t != [] {
      UnderNone(t[1..], ps);
    }
  }

  /** A column key is among the board's columns exactly when the column
      with that key is on the board. */
  lemma OnBoardIff(db: Db, boardId: int, k: int)
    requires UniqueIds(db.columns)
    ensures HasId(Children(db.columns, boardId), k) <==> ColumnBoard(db, k) == Some(boardId)
  {
    HasIdIff(Children(db.columns, boardId), k);
    HasIdIff(db.columns, k);
    if HasId(db.columns, k) {
      var i := IndexOf(db.columns, k);
      assert db.columns[i] in db.columns;
      forall c | c in db.columns && c.id == k ensures c == db.columns[i] {
        var j :| 0 <= j < |db.columns| && db.columns[j] == c;
      }
    }
  }

  /** `BriefCardDto.HasDescription`: a description that is not null and
      not empty once trimmed. The DTO is built by a query projection, so
      `Trim()` is translated by the database provider and runs in the
      database; the characters it removes are the parameter `trimmed`. */
  function HasDescription(description: Option<string>, trimmed: char -> bool): (has: bool)
    ensures has ==> description.Some? && |description.value| > 0
  {
    if description.Some? then
      TrimEmptyIff(description.value, trimmed);
      |Trim(description.value, trimmed)| > 0
    else false
  }

  /** Whatever the trim set, a description counts exactly when it has a
      character outside it. */
  lemma HasDescriptionIff(description: Option<string>, trimmed: char -> bool)
    ensures HasDescription(description, trimmed) <==>
      description.Some? && exists i :: 0 <= i < |description.value| && !trimmed(description.value[i])
  {
    if description.Some? {
      TrimEmptyIff(description.value, trimmed);
    }
  }
}
