/** `ColumnsController`: creating, deleting and moving the columns of a
    board. Columns are rows whose parent is the board. */
module Columns {
  import opened Wrappers
  import opened Http
  import opened Positions
  import opened Store
  import opened BoardValidation

  const ColumnNotFound: string := "Column not found"

  /** `Columns.Where(c => c.Id == id && c.BoardId == boardId).FirstOrDefault()`. */
  function ColumnOnBoard(db: Db, boardId: int, id: int): (r: Option<Row>)
    ensures r.Some? ==> r.value in db.columns && r.value.id == id && r.value.parent == boardId
    ensures r.None? ==> forall c :: c in db.columns && c.id == id ==> c.parent != boardId
  {
    FindUnder(db.columns, boardId, id)
  }

  /** `CreateColumn`; `newId` is the key the database generates. */
  function CreateColumn(db: Db, boardId: int, caller: int, newId: int): (r: Reply)
    requires !HasId(db.columns, newId)
    ensures !Admitted(db, boardId, caller) ==> r == Rejected(db, boardId, caller)
    ensures Admitted(db, boardId, caller) ==>
      && r.status == Created(newId)
      && r.db == db.(columns := r.db.columns)
      && |r.db.columns| == |db.columns| + 1
      && r.db.columns[..|db.columns|] == db.columns
      && var c := r.db.columns[|db.columns|];
         && c.id == newId && c.parent == boardId
         && (Children(db.columns, boardId) == [] ==> c.position == 0)
         && (forall x :: x in db.columns && x.parent == boardId ==> x.position < c.position)
         && (Children(db.columns, boardId) != [] ==>
               exists x :: x in db.columns && x.parent == boardId && x.position + 1 == c.position)
  {
    if !Admitted(db, boardId, caller) then Rejected(db, boardId, caller)
    else
      var column := Row(newId, boardId, AppendPosition(db.columns, boardId));
      assert (db.columns + [column])[..|db.columns|] == db.columns;
      Reply(Created(newId), db.(columns := db.columns + [column]))
  }

  /** A board whose columns are numbered 0..n-1 gives the new column n and
      stays numbered that way; the tables stay consistent. */
  lemma CreateColumnKeepsDense(db: Db, boardId: int, caller: int, newId: int)
    requires Valid(db) && !HasId(db.columns, newId) && Admitted(db, boardId, caller)
    ensures var r := CreateColumn(db, boardId, caller, newId);
      && Valid(r.db)
      && (DenseIn(db.columns, boardId) ==>
            r.db.columns[|db.columns|].position == |Children(db.columns, boardId)|
            && DenseIn(r.db.columns, boardId))
  {
    var t := db.columns;
    var x := Row(newId, boardId, AppendPosition(t, boardId));
    var t' := t + [x];
    assert UniqueIds(t') by {
      forall i | 0 <= i < |t| ensures t[i].id != newId {
        assert HasId(t, t[i].id) by { HasIdIff(t, t[i].id); }
      }
    }
    forall id | HasId(t, id) ensures HasId(t', id) {
      HasIdIff(t, id);
      HasIdIff(t', id);
    }
    if DenseIn(t, boardId) {
      AppendKeepsDense(t, boardId, newId);
    }
  }

  /** `DeleteColumn`: the column goes, and the database cascades its cards
      and their assignment and label rows. No sibling column is renumbered. */
  function DeleteColumn(db: Db, boardId: int, caller: int, id: int): (r: Reply)
    ensures !Admitted(db, boardId, caller) ==> r == Rejected(db, boardId, caller)
    ensures Admitted(db, boardId, caller) && ColumnOnBoard(db, boardId, id).None? ==>
      r == Reply(NotFound(ColumnNotFound), db)
    ensures Admitted(db, boardId, caller) && ColumnOnBoard(db, boardId, id).Some? ==>
      && r.status == NoContent
      && r.db == db.(columns := r.db.columns, cards := r.db.cards,
                     assignments := r.db.assignments, cardLabels := r.db.cardLabels)
  {
    if !Admitted(db, boardId, caller) then Rejected(db, boardId, caller)
    else match ColumnOnBoard(db, boardId, id)
      case None => Reply(NotFound(ColumnNotFound), db)
      case Some(_) =>
        var gone := Children(db.cards, id);
        Reply(NoContent, db.(columns := Without(db.columns, id),
                             cards := NotUnder(db.cards, id),
                             assignments := (set a | a in db.assignments && !HasId(gone, a.0)),
                             cardLabels := (set a | a in db.cardLabels && !HasId(gone, a.0))))
  }

  /** Deleting cuts exactly the column's row out of storage order, so every
      other column keeps its board and position; of the cards, those in the
      column go; of the join rows, those naming one of those cards go. */
  lemma DeleteColumnCutsOut(db: Db, boardId: int, caller: int, id: int)
    requires UniqueIds(db.columns) && Admitted(db, boardId, caller) && ColumnOnBoard(db, boardId, id).Some?
    ensures var k := IndexOf(db.columns, id);
      var r := DeleteColumn(db, boardId, caller, id).db;
      && 0 <= k && r.columns == db.columns[..k] + db.columns[k + 1..]
      && (forall x :: x in r.cards <==> x in db.cards && x.parent != id)
      && (forall a :: a in r.assignments <==> a in db.assignments && !HasId(Children(db.cards, id), a.0))
      && (forall a :: a in r.cardLabels <==> a in db.cardLabels && !HasId(Children(db.cards, id), a.0))
  {
    var column := ColumnOnBoard(db, boardId, id).value;
    var i :| 0 <= i < |db.columns| && db.columns[i] == column;
    IndexOfUnique(db.columns, i);
    WithoutAt(db.columns, i);
  }

  /** Deleting keeps referential integrity: the cascade removes every row
      that named the column or one of its cards. */
  lemma DeleteColumnValid(db: Db, boardId: int, caller: int, id: int)
    requires Valid(db)
    ensures Valid(DeleteColumn(db, boardId, caller, id).db)
  {
    if Admitted(db, boardId, caller) && ColumnOnBoard(db, boardId, id).Some? {
      var r := DeleteColumn(db, boardId, caller, id).db;
      WithoutKeys(db.columns, id);
      NotUnderUnique(db.cards, id);
      forall c | c in r.cards ensures HasId(r.columns, c.parent) {
        assert c in db.cards && c.parent != id;
      }
      var gone := Children(db.cards, id);
      forall k | HasId(db.cards, k) && !HasId(gone, k) ensures HasId(r.cards, k) {
        HasIdIff(db.cards, k);
        HasIdIff(gone, k);
        HasIdIff(r.cards, k);
        var x :| x in db.cards && x.id == k;
        assert x !in gone;
        assert x in r.cards;
      }
    }
  }

  /** `MoveColumn` looks the column up with `FirstOrDefault(c => c.Id == id)`
      in the board's columns ordered by position. Keys being unique, that is
      the one row with the key on the board, which `ColumnOnBoard` finds. */
  lemma OrderedLookupIsColumnOnBoard(db: Db, boardId: int, id: int)
    requires UniqueIds(db.columns)
    ensures Find(Ordered(db.columns, boardId), id) == ColumnOnBoard(db, boardId, id)
  {
    var o := Ordered(db.columns, boardId);
    var f := Find(o, id);
    var c := ColumnOnBoard(db, boardId, id);
    HasIdIff(o, id);
    if c.Some? {
      assert c.value in o;
      var x := f.value;
      var i :| 0 <= i < |db.columns| && db.columns[i] == x;
      var j :| 0 <= j < |db.columns| && db.columns[j] == c.value;
      assert db.columns[i].id == db.columns[j].id;
    }
  }

  /** With unique keys the column found is the one row carrying the key. */
  lemma ColumnOnBoardIsRow(db: Db, boardId: int, id: int, i: int)
    requires UniqueIds(db.columns) && 0 <= i < |db.columns|
    requires db.columns[i].id == id && db.columns[i].parent == boardId
    ensures ColumnOnBoard(db, boardId, id) == Some(db.columns[i])
  {
    var c := ColumnOnBoard(db, boardId, id).value;
    var j :| 0 <= j < |db.columns| && db.columns[j] == c;
    assert db.columns[j].id == db.columns[i].id;
  }

  /** The requested target: `NewPosition ?? columns.Count - 1`. */
  function ColumnTarget(db: Db, boardId: int, newPosition: Option<int>): (r: int)
    ensures newPosition.Some? ==> r == newPosition.value
    ensures newPosition.None? && Children(db.columns, boardId) != [] ==>
      && 0 <= r < |Ordered(db.columns, boardId)|
      && forall c :: c in db.columns && c.parent == boardId ==> c.position <= Ordered(db.columns, boardId)[r].position
  {
    LastOrderedIsMax(db.columns, boardId);
    newPosition.GetOr(|Children(db.columns, boardId)| - 1)
  }

  /** The last of the ordered children has the greatest position. */
  lemma LastOrderedIsMax(t: seq<Row>, p: int)
    ensures var o := Ordered(t, p);
      o != [] ==> forall c :: c in t && c.parent == p ==> c.position <= o[|o| - 1].position
  {
    var o := Ordered(t, p);
    forall c | c in t && c.parent == p && o != [] ensures c.position <= o[|o| - 1].position {
      SortedLastIsMax(o, c);
    }
  }

  /** `MoveColumn`: the target defaults to the last index, and the reorder
      runs only when the stored position differs from the target. The lookup
      is `ColumnOnBoard` (see `OrderedLookupIsColumnOnBoard`). */
  function MoveColumn(db: Db, boardId: int, caller: int, id: int, newPosition: Option<int>): (r: Reply)
    ensures !Admitted(db, boardId, caller) ==> r == Rejected(db, boardId, caller)
    ensures Admitted(db, boardId, caller) && ColumnOnBoard(db, boardId, id).None? ==>
      r == Reply(NotFound(ColumnNotFound), db)
    ensures (Admitted(db, boardId, caller) && ColumnOnBoard(db, boardId, id).Some?
      && ColumnOnBoard(db, boardId, id).value.position == ColumnTarget(db, boardId, newPosition)) ==>
      r == Reply(NoContent, db)
    ensures r.status.Succeeded() ==> r.status == NoContent && r.db == db.(columns := r.db.columns)
  {
    if !Admitted(db, boardId, caller) then Rejected(db, boardId, caller)
    else match ColumnOnBoard(db, boardId, id)
      case None => Reply(NotFound(ColumnNotFound), db)
      case Some(column) =>
        var newPos := ColumnTarget(db, boardId, newPosition);
        if column.position != newPos then
          Reply(NoContent, db.(columns := MoveWithin(db.columns, boardId, column, newPos)))
        else Reply(NoContent, db)
  }

  /** A move that is not skipped: the board's columns end up numbered
      0..n-1, the column sits at clamp(target, 0, n - 1), the other columns
      keep their relative order, the same columns stay on the same boards,
      and other boards' columns are untouched. */
  lemma MoveColumnReorders(db: Db, boardId: int, caller: int, id: int, newPosition: Option<int>, column: Row)
    requires UniqueIds(db.columns) && Admitted(db, boardId, caller) && ColumnOnBoard(db, boardId, id) == Some(column)
    requires column.position != ColumnTarget(db, boardId, newPosition)
    ensures var r := MoveColumn(db, boardId, caller, id, newPosition);
      var t, t' := db.columns, r.db.columns;
      && r.status == NoContent
      && |t'| == |t|
      && DenseIn(t', boardId)
      && |Children(t, boardId)| >= 1
      && (forall i :: 0 <= i < |t| ==> t'[i].id == t[i].id && t'[i].parent == t[i].parent)
      && (forall i :: 0 <= i < |t| && t[i].id == id ==>
            t'[i] == column.(position := Clamp(ColumnTarget(db, boardId, newPosition), 0, |Children(t, boardId)| - 1)))
      && (forall a, b :: 0 <= a < |t| && 0 <= b < |t| && t[a].parent == boardId && t[b].parent == boardId
            && t[a].id != id && t[b].id != id && t[a].position < t[b].position
            ==> t'[a].position < t'[b].position)
      && (forall i :: 0 <= i < |t| && t[i].parent != boardId ==> t'[i] == t[i])
  {
    var target := ColumnTarget(db, boardId, newPosition);
    var t := db.columns;
    assert MoveColumn(db, boardId, caller, id, newPosition) == Reply(NoContent, db.(columns := MoveWithin(t, boardId, column, target)));
    MoveWithinEffects(t, boardId, column, target);
  }

  /** The column found on a table whose row `i` is the column, repositioned. */
  lemma ColumnFoundAt(db: Db, boardId: int, column: Row, t': seq<Row>, i: int, k: int)
    requires UniqueIds(t') && 0 <= i < |t'| && t'[i] == column.(position := k) && column.parent == boardId
    ensures ColumnOnBoard(db.(columns := t'), boardId, column.id) == Some(column.(position := k))
  {
    ColumnOnBoardIsRow(db.(columns := t'), boardId, column.id, i);
  }

  /** A request whose column is found at the target, or whose reorder
      changes nothing, leaves the board as it is. */
  lemma MoveColumnNoChange(db: Db, boardId: int, caller: int, id: int, newPosition: Option<int>, column: Row)
    requires Admitted(db, boardId, caller) && ColumnOnBoard(db, boardId, id) == Some(column)
    requires column.position == ColumnTarget(db, boardId, newPosition)
      || MoveWithin(db.columns, boardId, column, ColumnTarget(db, boardId, newPosition)) == db.columns
    ensures MoveColumn(db, boardId, caller, id, newPosition) == Reply(NoContent, db)
  {
  }

  /** Moving a column twice with the same request gives the arrangement of
      moving it once: after the first move its stored position either equals
      the target, which skips the reorder, or is the clamped target, at which
      the reorder puts it again. */
  lemma MoveColumnIdempotent(db: Db, boardId: int, caller: int, id: int, newPosition: Option<int>)
    requires UniqueIds(db.columns)
    ensures var r1 := MoveColumn(db, boardId, caller, id, newPosition);
      MoveColumn(r1.db, boardId, caller, id, newPosition) == r1
  {
    if Admitted(db, boardId, caller) && ColumnOnBoard(db, boardId, id).Some? {
      var t := db.columns;
      var column := ColumnOnBoard(db, boardId, id).value;
      var target := ColumnTarget(db, boardId, newPosition);
      if column.position != target {
        var t' := MoveWithin(t, boardId, column, target);
        var db1 := db.(columns := t');
        assert MoveColumn(db, boardId, caller, id, newPosition) == Reply(NoContent, db1);
        var im :| 0 <= im < |t| && t[im] == column;
        assert |Children(t, boardId)| >= 1 by { MovedLandsAt(t, boardId, column, target, im); }
        var k := Clamp(target, 0, |Children(t, boardId)| - 1);
        var column' := column.(position := k);
        assert |t'| == |t| && t'[im] == column' by { MovedLandsAt(t, boardId, column, target, im); }
        assert UniqueIds(t') by { MoveWithinUnique(t, boardId, column, target); }
        ColumnFoundAt(db, boardId, column, t', im, k);
        MoveWithinAgain(t, boardId, column, target, target);
        assert ColumnTarget(db1, boardId, newPosition) == target by {
          MoveWithinDense(t, boardId, column, target);
        }
        MoveColumnNoChange(db1, boardId, caller, id, newPosition, column');
      }
    }
  }

  /** With no position given the column goes to the last index. */
  lemma MoveColumnDefaultIsLast(db: Db, boardId: int, caller: int, id: int)
    requires UniqueIds(db.columns) && Admitted(db, boardId, caller) && ColumnOnBoard(db, boardId, id).Some?
    ensures var r := MoveColumn(db, boardId, caller, id, None);
      var n := |Children(db.columns, boardId)|;
      n >= 1 && forall i :: 0 <= i < |db.columns| && db.columns[i].id == id ==> r.db.columns[i].position == n - 1
  {
    var column := ColumnOnBoard(db, boardId, id).value;
    assert column in Children(db.columns, boardId);
    if column.position != ColumnTarget(db, boardId, None) {
      MoveColumnReorders(db, boardId, caller, id, None, column);
    } else {
      forall i | 0 <= i < |db.columns| && db.columns[i].id == id ensures db.columns[i] == column {
        var k :| 0 <= k < |db.columns| && db.columns[k] == column;
        assert db.columns[i].id == db.columns[k].id;
      }
    }
  }

  /** The skip compares the stored position with the target index, so on a
      board whose positions have a gap a real move is dropped: of columns at
      positions 0, 2, 3, the one at index 1 is asked to go to index 2 (last)
      and nothing changes. */
  lemma MoveColumnSkipsOnGap(db: Db)
    requires Admitted(db, 1, 5)
    requires db.columns == [Row(10, 1, 0), Row(12, 1, 2), Row(13, 1, 3)]
    ensures Ordered(db.columns, 1) == db.columns && db.columns[1].id == 12
    ensures MoveColumn(db, 1, 5, 12, Some(2)) == Reply(NoContent, db)
  {
    var t := db.columns;
    assert Ordered(t, 1) == t by {
      assert Children(t, 1) == t by {
        assert Children(t[2..], 1) == [t[2]] by { assert t[2..][1..] == []; }
        assert t[1..][1..] == t[2..];
      }
      assert SortedByPosition(t);
      SortSortedIdentity(t);
    }
    assert UniqueIds(t);
    assert ColumnOnBoard(db, 1, 12) == Some(t[1]) by { ColumnOnBoardIsRow(db, 1, 12, 1); }
  }

  /** Every move keeps referential integrity. */
  lemma MoveColumnValid(db: Db, boardId: int, caller: int, id: int, newPosition: Option<int>)
    requires Valid(db)
    ensures Valid(MoveColumn(db, boardId, caller, id, newPosition).db)
  {
    if Admitted(db, boardId, caller) && ColumnOnBoard(db, boardId, id).Some? {
      var t := db.columns;
      var column := ColumnOnBoard(db, boardId, id).value;
      var target := ColumnTarget(db, boardId, newPosition);
      if column.position != target {
        var t' := MoveWithin(t, boardId, column, target);
        MoveWithinRows(t, boardId, column, target);
        assert UniqueIds(t') by { MoveWithinUnique(t, boardId, column, target); }
        forall c | c in t' ensures c.parent in db.boards {
          var i :| 0 <= i < |t'| && t'[i] == c;
          assert t[i] in t;
        }
        forall k ensures HasId(t', k) == HasId(t, k) {
          SameKeysSameIndex(t, t', k);
        }
      }
    }
  }
}
