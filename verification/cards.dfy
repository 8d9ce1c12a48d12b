/** `CardsController`: creating, moving and deleting cards (the position
    logic), and the guards of assigning users and attaching labels. Every
    action first runs the membership precheck. */
module Cards {
  import opened Wrappers
  import opened Http
  import opened Positions
  import opened Store
  import opened BoardValidation

  const CardNotFound: string := "Card not found"
  const UserNotFound: string := "User not found"
  const NotABoardMember: string := "User is not a member of this board"
  const AlreadyAssigned: string := "User already assigned"
  const LabelNotFound: string := "Label not found"
  const AlreadyAttached: string := "Label already attached"

  /** `SaveChanges` rejected a row naming a column that does not exist. */
  function ForeignKeyRejected(db: Db): (r: Reply)
    ensures r.db == db && r.status == Threw(Unexpected(ForeignKeyViolation))
  {
    Reply(Threw(Unexpected(ForeignKeyViolation)), db)
  }

  /** `CreateCard`; `newId` is the key the database generates. The column is
      not checked to belong to the board. */
  function CreateCard(db: Db, boardId: int, caller: int, columnId: int, newId: int): (r: Reply)
    requires !HasId(db.cards, newId)
    ensures !Admitted(db, boardId, caller) ==> r == Rejected(db, boardId, caller)
    ensures Admitted(db, boardId, caller) && !HasId(db.columns, columnId) ==> r == ForeignKeyRejected(db)
    ensures Admitted(db, boardId, caller) && HasId(db.columns, columnId) ==>
      && r.status == Created(newId)
      && r.db == db.(cards := r.db.cards)
      && |r.db.cards| == |db.cards| + 1
      && r.db.cards[..|db.cards|] == db.cards
      && var c := r.db.cards[|db.cards|];
         && c.id == newId && c.parent == columnId
         && (Children(db.cards, columnId) == [] ==> c.position == 0)
         && (forall x :: x in db.cards && x.parent == columnId ==> x.position < c.position)
         && (Children(db.cards, columnId) != [] ==>
               exists x :: x in db.cards && x.parent == columnId && x.position + 1 == c.position)
  {
    if !Admitted(db, boardId, caller) then Rejected(db, boardId, caller)
    else if !HasId(db.columns, columnId) then ForeignKeyRejected(db)
    else
      var card := Row(newId, columnId, AppendPosition(db.cards, columnId));
      assert (db.cards + [card])[..|db.cards|] == db.cards;
      Reply(Created(newId), db.(cards := db.cards + [card]))
  }

  /** In a column whose positions are 0..n-1 the new card gets n, and the
      column stays that way. */
  lemma CreateCardKeepsDense(db: Db, boardId: int, caller: int, columnId: int, newId: int)
    requires Valid(db) && !HasId(db.cards, newId) && DenseIn(db.cards, columnId)
    requires Admitted(db, boardId, caller) && HasId(db.columns, columnId)
    ensures var r := CreateCard(db, boardId, caller, columnId, newId);
      && r.db.cards[|db.cards|].position == |Children(db.cards, columnId)|
      && DenseIn(r.db.cards, columnId)
  {
    AppendKeepsDense(db.cards, columnId, newId);
  }

  /** Creating a card keeps referential integrity: the new key is fresh, and
      the save fails unless the column exists. */
  lemma CreateCardValid(db: Db, boardId: int, caller: int, columnId: int, newId: int)
    requires Valid(db) && !HasId(db.cards, newId)
    ensures Valid(CreateCard(db, boardId, caller, columnId, newId).db)
  {
    if Admitted(db, boardId, caller) && HasId(db.columns, columnId) {
      var t := db.cards;
      var t' := t + [Row(newId, columnId, AppendPosition(t, columnId))];
      assert UniqueIds(t') by {
        forall i | 0 <= i < |t| ensures t[i].id != newId {
          assert HasId(t, t[i].id) by { HasIdIff(t, t[i].id); }
        }
      }
      forall id | HasId(t, id) ensures HasId(t', id) {
        HasIdIff(t, id);
        HasIdIff(t', id);
      }
    }
  }

  /** The requested target: `NewPosition ?? last.Position + 1 ?? 0`. */
  function Target(db: Db, newCol: int, newPosition: Option<int>): (r: int)
    ensures newPosition.Some? ==> r == newPosition.value
    ensures newPosition.None? ==> r == AppendPosition(db.cards, newCol)
  {
    OrderedEndIsAppend(db.cards, newCol);
    newPosition.GetOr(EndPosition(Ordered(db.cards, newCol)))
  }

  /** With no position given, the target is one past the destination's
      greatest position, or 0 for an empty destination. */
  lemma DefaultTarget(db: Db, newCol: int)
    ensures Children(db.cards, newCol) == [] ==> Target(db, newCol, None) == 0
    ensures forall x :: x in db.cards && x.parent == newCol ==> x.position < Target(db, newCol, None)
    ensures Children(db.cards, newCol) != [] ==>
      exists x :: x in db.cards && x.parent == newCol && x.position + 1 == Target(db, newCol, None)
  {
    OrderedEndIsAppend(db.cards, newCol);
    var t := db.cards;
    forall x | x in t && x.parent == newCol ensures x.position < Target(db, newCol, None) {
      var i :| 0 <= i < |t| && t[i] == x;
    }
    if Children(t, newCol) != [] {
      var i :| 0 <= i < |t| && t[i].parent == newCol && t[i].position + 1 == AppendPosition(t, newCol);
      assert t[i] in t;
    }
  }

  /** The no-op shortcut: same column and an explicit NewPosition equal to
      the stored Position. A null NewPosition never takes it. */
  function Shortcut(card: Row, newCol: int, newPosition: Option<int>): (b: bool)
    ensures newPosition.None? ==> !b
    ensures b ==> forall db :: Target(db, newCol, newPosition) == card.position
  {
    card.parent == newCol && newPosition == Some(card.position)
  }

  /** `MoveCard`. */
  function MoveCard(db: Db, boardId: int, caller: int, cardId: int, newCol: int, newPosition: Option<int>): (r: Reply)
    ensures !Admitted(db, boardId, caller) ==> r == Rejected(db, boardId, caller)
    ensures Admitted(db, boardId, caller) && CardOnBoard(db, boardId, cardId).None? ==>
      r == Reply(NotFound(CardNotFound), db)
    ensures (Admitted(db, boardId, caller) && CardOnBoard(db, boardId, cardId).Some?
      && Shortcut(CardOnBoard(db, boardId, cardId).value, newCol, newPosition)) ==> r == Reply(NoContent, db)
    ensures (Admitted(db, boardId, caller) && CardOnBoard(db, boardId, cardId).Some?
      && CardOnBoard(db, boardId, cardId).value.parent != newCol && !HasId(db.columns, newCol)) ==>
      r == ForeignKeyRejected(db)
    ensures r.status.Succeeded() ==> r.status == NoContent && r.db == db.(cards := r.db.cards)
  {
    if !Admitted(db, boardId, caller) then Rejected(db, boardId, caller)
    else match CardOnBoard(db, boardId, cardId)
      case None => Reply(NotFound(CardNotFound), db)
      case Some(card) =>
        if Shortcut(card, newCol, newPosition) then Reply(NoContent, db)
        else
          var newPos := Target(db, newCol, newPosition);
          if card.parent == newCol then
            Reply(NoContent, db.(cards := MoveWithin(db.cards, newCol, card, newPos)))
          else if !HasId(db.columns, newCol) then ForeignKeyRejected(db)
          else Reply(NoContent, db.(cards := MoveAcross(db.cards, card, newCol, newPos)))
  }

  /** A same-column move that does not take the shortcut: the column ends up
      numbered 0..n-1, the card sits at clamp(target, 0, n - 1), the other
      cards keep their relative order, and other columns are untouched. */
  lemma MoveCardWithinColumn(db: Db, boardId: int, caller: int, cardId: int, newPosition: Option<int>, card: Row)
    requires UniqueIds(db.cards) && Admitted(db, boardId, caller) && CardOnBoard(db, boardId, cardId) == Some(card)
    requires !Shortcut(card, card.parent, newPosition)
    ensures var col := card.parent;
      var r := MoveCard(db, boardId, caller, cardId, col, newPosition);
      var t, t' := db.cards, r.db.cards;
      && r.status == NoContent
      && |t'| == |t|
      && DenseIn(t', col)
      && |Children(t, col)| >= 1
      && (forall i :: 0 <= i < |t| && t[i].id == cardId ==>
            t'[i] == card.(position := Clamp(Target(db, col, newPosition), 0, |Children(t, col)| - 1)))
      && (forall a, b :: 0 <= a < |t| && 0 <= b < |t| && t[a].parent == col && t[b].parent == col
            && t[a].id != cardId && t[b].id != cardId && t[a].position < t[b].position
            ==> t'[a].position < t'[b].position)
      && (forall i :: 0 <= i < |t| && t[i].parent != col ==> t'[i] == t[i])
  {
    var col := card.parent;
    var target := Target(db, col, newPosition);
    var t := db.cards;
    assert MoveCard(db, boardId, caller, cardId, col, newPosition) == Reply(NoContent, db.(cards := MoveWithin(t, col, card, target)));
    MoveWithinEffects(t, col, card, target);
  }

  /** A same-column request whose position is the index of a target card
      among the column's other cards in order (or one past it) puts the card
      just before (or just after) the target when the column is read back. */
  lemma MoveCardBeside(db: Db, boardId: int, caller: int, card: Row, targetId: int, below: bool)
    requires UniqueIds(db.cards) && Admitted(db, boardId, caller) && CardOnBoard(db, boardId, card.id) == Some(card)
    requires HasId(Others(Ordered(db.cards, card.parent), card), targetId)
    requires card.position != IndexOf(Others(Ordered(db.cards, card.parent), card), targetId) + (if below then 1 else 0)
    ensures var k := IndexOf(Others(Ordered(db.cards, card.parent), card), targetId);
      var r := MoveCard(db, boardId, caller, card.id, card.parent, Some(k + (if below then 1 else 0)));
      var o := Ordered(r.db.cards, card.parent);
      && r.status == NoContent
      && 0 <= k && k + 1 < |o|
      && o[k].id == (if below then targetId else card.id)
      && o[k + 1].id == (if below then card.id else targetId)
  {
    var t, col := db.cards, card.parent;
    var order := Ordered(t, col);
    var k := IndexOf(Others(order, card), targetId);
    var newPos := k + (if below then 1 else 0);
    assert MoveCard(db, boardId, caller, card.id, col, Some(newPos))
        == Reply(NoContent, db.(cards := MoveWithin(t, col, card, newPos)));
    assert card in order;
    ReloadedOrder(t, col, card, newPos);
    OrderedUnique(t, col);
    ReinsertBeside(order, card, targetId);
  }

  /** The card found on a table whose row `i` is the card, repositioned. */
  lemma CardFoundAt(db: Db, boardId: int, card: Row, t': seq<Row>, i: int, k: int)
    requires UniqueIds(t') && 0 <= i < |t'| && t'[i] == card.(position := k)
    requires ColumnBoard(db, card.parent) == Some(boardId)
    ensures CardOnBoard(db.(cards := t'), boardId, card.id) == Some(card.(position := k))
  {
    CardOnBoardIsRow(db.(cards := t'), boardId, i, card.(position := k));
  }

  /** A same-column request whose card is found at the requested position,
      or whose reorder changes nothing, leaves the board as it is. */
  lemma MoveCardNoChange(db: Db, boardId: int, caller: int, cardId: int, newPosition: Option<int>, card: Row)
    requires Admitted(db, boardId, caller) && CardOnBoard(db, boardId, cardId) == Some(card)
    requires Shortcut(card, card.parent, newPosition)
      || MoveWithin(db.cards, card.parent, card, Target(db, card.parent, newPosition)) == db.cards
    ensures MoveCard(db, boardId, caller, cardId, card.parent, newPosition) == Reply(NoContent, db)
  {
  }

  /** Issuing the same same-column request twice gives the arrangement of
      issuing it once, for an explicit position; with a null position the
      column must be numbered 0..n-1 before. */
  lemma MoveCardIdempotent(db: Db, boardId: int, caller: int, cardId: int, newPosition: Option<int>)
    requires UniqueIds(db.cards) && Admitted(db, boardId, caller) && CardOnBoard(db, boardId, cardId).Some?
    requires newPosition.Some? || DenseIn(db.cards, CardOnBoard(db, boardId, cardId).value.parent)
    ensures var col := CardOnBoard(db, boardId, cardId).value.parent;
      var r1 := MoveCard(db, boardId, caller, cardId, col, newPosition);
      MoveCard(r1.db, boardId, caller, cardId, col, newPosition) == r1
  {
    var card := CardOnBoard(db, boardId, cardId).value;
    var col := card.parent;
    if !Shortcut(card, col, newPosition) {
      var target := Target(db, col, newPosition);
      var db1 := db.(cards := MoveWithin(db.cards, col, card, target));
      assert MoveCard(db, boardId, caller, cardId, col, newPosition) == Reply(NoContent, db1);
      MovedCardFound(db, boardId, card, target);
      var card' := card.(position := Clamp(target, 0, |Children(db.cards, col)| - 1));
      MoveWithinSettles(db, card, newPosition);
      assert CardOnBoard(db1, boardId, cardId) == Some(card');
      MoveCardNoChange(db1, boardId, caller, cardId, newPosition, card');
    }
  }

  /** Repeating a same-column move on its own result leaves the cards as
      they are: the card already sits at the clamped target, and a missing
      position still resolves to the same place. */
  lemma MoveWithinSettles(db: Db, card: Row, newPosition: Option<int>)
    requires UniqueIds(db.cards) && card in db.cards
    requires newPosition.Some? || DenseIn(db.cards, card.parent)
    ensures var col := card.parent;
      var target := Target(db, col, newPosition);
      var t' := MoveWithin(db.cards, col, card, target);
      && |Children(db.cards, col)| >= 1
      && MoveWithin(t', col, card.(position := Clamp(target, 0, |Children(db.cards, col)| - 1)),
                    Target(db.(cards := t'), col, newPosition)) == t'
  {
    var t, col := db.cards, card.parent;
    var target := Target(db, col, newPosition);
    var t' := MoveWithin(t, col, card, target);
    var im :| 0 <= im < |t| && t[im] == card;
    MovedLandsAt(t, col, card, target, im);
    var target2 := Target(db.(cards := t'), col, newPosition);
    if newPosition.None? {
      EndTargetStable(t, col, card);
    }
    MoveWithinAgain(t, col, card, target, target2);
  }

  /** After a same-column move the card is found again on the board, at its
      clamped position, and ids stay unique. */
  lemma MovedCardFound(db: Db, boardId: int, card: Row, target: int)
    requires UniqueIds(db.cards) && card in db.cards && ColumnBoard(db, card.parent) == Some(boardId)
    ensures var t' := MoveWithin(db.cards, card.parent, card, target);
      && |Children(db.cards, card.parent)| >= 1
      && UniqueIds(t')
      && CardOnBoard(db.(cards := t'), boardId, card.id)
         == Some(card.(position := Clamp(target, 0, |Children(db.cards, card.parent)| - 1)))
  {
    var t, col := db.cards, card.parent;
    var im :| 0 <= im < |t| && t[im] == card;
    MovedLandsAt(t, col, card, target, im);
    MoveWithinUnique(t, col, card, target);
    var t' := MoveWithin(t, col, card, target);
    CardFoundAt(db, boardId, card, t', im, Clamp(target, 0, |Children(t, col)| - 1));
  }

  /** A cross-column move: later cards of the source column close up by one,
      destination cards at or after the target open up by one, the card takes
      (newCol, target) unclamped, and every other card is untouched. Dense
      columns stay dense exactly when 0 <= target <= the destination's count. */
  lemma MoveCardAcross(db: Db, boardId: int, caller: int, cardId: int, newCol: int, newPosition: Option<int>, card: Row)
    requires UniqueIds(db.cards) && Admitted(db, boardId, caller) && CardOnBoard(db, boardId, cardId) == Some(card)
    requires card.parent != newCol && HasId(db.columns, newCol)
    ensures var src := card.parent;
      var newPos := Target(db, newCol, newPosition);
      var r := MoveCard(db, boardId, caller, cardId, newCol, newPosition);
      var t, t' := db.cards, r.db.cards;
      && r.status == NoContent
      && |t'| == |t|
      && (forall i :: 0 <= i < |t| && t[i].id == cardId ==> t'[i] == card.(parent := newCol, position := newPos))
      && (forall i :: 0 <= i < |t| && t[i].parent == src && t[i].id != cardId ==>
            t'[i] == t[i].(position := if t[i].position > card.position then t[i].position - 1 else t[i].position))
      && (forall i :: 0 <= i < |t| && t[i].parent == newCol ==>
            t'[i] == t[i].(position := if t[i].position >= newPos then t[i].position + 1 else t[i].position))
      && (forall i :: 0 <= i < |t| && t[i].parent != src && t[i].parent != newCol ==> t'[i] == t[i])
      && |Children(t', src)| == |Children(t, src)| - 1
      && |Children(t', newCol)| == |Children(t, newCol)| + 1
      && (DenseIn(t, src) && DenseIn(t, newCol) ==>
            DenseIn(t', src) && (DenseIn(t', newCol) <==> 0 <= newPos <= |Children(t, newCol)|))
  {
    var newPos := Target(db, newCol, newPosition);
    assert MoveCard(db, boardId, caller, cardId, newCol, newPosition)
        == Reply(NoContent, db.(cards := MoveAcross(db.cards, card, newCol, newPos)));
    MoveAcrossEffects(db.cards, card, newCol, newPos);
  }

  /** Positions rewritten in place, every row keeping its key: the tables
      still satisfy referential integrity when every card's column exists. */
  lemma SameKeysValid(db: Db, t': seq<Row>)
    requires Valid(db) && |t'| == |db.cards|
    requires forall i :: 0 <= i < |t'| ==> t'[i].id == db.cards[i].id
    requires forall c :: c in t' ==> HasId(db.columns, c.parent)
    ensures Valid(db.(cards := t'))
  {
    forall id ensures HasId(t', id) == HasId(db.cards, id) {
      SameKeysSameIndex(db.cards, t', id);
    }
  }

  /** Rows whose parents are those of `t`, row by row, name existing columns. */
  lemma SameParentsValid(db: Db, t': seq<Row>)
    requires Valid(db) && |t'| == |db.cards|
    requires forall i :: 0 <= i < |t'| ==> t'[i].id == db.cards[i].id && t'[i].parent == db.cards[i].parent
    ensures Valid(db.(cards := t'))
  {
    forall c | c in t' ensures HasId(db.columns, c.parent) {
      var i :| 0 <= i < |t'| && t'[i] == c;
      assert db.cards[i] in db.cards;
    }
    SameKeysValid(db, t');
  }

  /** A cross-column move into an existing column keeps referential integrity. */
  lemma MoveAcrossValid(db: Db, card: Row, newCol: int, newPos: int)
    requires Valid(db) && card in db.cards && card.parent != newCol && HasId(db.columns, newCol)
    ensures Valid(db.(cards := MoveAcross(db.cards, card, newCol, newPos)))
  {
    var t := db.cards;
    var t' := MoveAcross(t, card, newCol, newPos);
    MoveAcrossKeys(t, card, newCol, newPos);
    forall c | c in t' ensures HasId(db.columns, c.parent) {
      var i :| 0 <= i < |t'| && t'[i] == c;
      assert t[i] in t;
    }
    SameKeysValid(db, t');
  }

  /** Every move that is saved keeps referential integrity. */
  lemma MoveCardValid(db: Db, boardId: int, caller: int, cardId: int, newCol: int, newPosition: Option<int>)
    requires Valid(db)
    ensures Valid(MoveCard(db, boardId, caller, cardId, newCol, newPosition).db)
  {
    if Admitted(db, boardId, caller) && CardOnBoard(db, boardId, cardId).Some? {
      var card := CardOnBoard(db, boardId, cardId).value;
      var newPos := Target(db, newCol, newPosition);
      if Shortcut(card, newCol, newPosition) {
      } else if card.parent == newCol {
        MoveWithinRows(db.cards, newCol, card, newPos);
        SameParentsValid(db, MoveWithin(db.cards, newCol, card, newPos));
      } else if HasId(db.columns, newCol) {
        MoveAcrossValid(db, card, newCol, newPos);
      }
    }
  }

  /** `DeleteCard`: the card's row goes, and the database cascades its
      assignment and label rows. No sibling is renumbered. */
  function DeleteCard(db: Db, boardId: int, caller: int, cardId: int): (r: Reply)
    ensures !Admitted(db, boardId, caller) ==> r == Rejected(db, boardId, caller)
    ensures Admitted(db, boardId, caller) && CardOnBoard(db, boardId, cardId).None? ==>
      r == Reply(NotFound(CardNotFound), db)
    ensures Admitted(db, boardId, caller) && CardOnBoard(db, boardId, cardId).Some? ==>
      && r.status == Ok
      && r.db == db.(cards := r.db.cards, assignments := r.db.assignments, cardLabels := r.db.cardLabels)
  {
    if !Admitted(db, boardId, caller) then Rejected(db, boardId, caller)
    else match CardOnBoard(db, boardId, cardId)
      case None => Reply(NotFound(CardNotFound), db)
      case Some(_) =>
        Reply(Ok, db.(cards := Without(db.cards, cardId),
                      assignments := (set a | a in db.assignments && a.0 != cardId),
                      cardLabels := (set a | a in db.cardLabels && a.0 != cardId)))
  }

  /** Deleting cuts exactly the card's row out of storage order, so every
      other card keeps its column and position; the join rows naming the card
      go and the others stay. */
  lemma DeleteCardCutsOut(db: Db, boardId: int, caller: int, cardId: int)
    requires UniqueIds(db.cards) && Admitted(db, boardId, caller) && CardOnBoard(db, boardId, cardId).Some?
    ensures var k := IndexOf(db.cards, cardId);
      var r := DeleteCard(db, boardId, caller, cardId).db;
      && 0 <= k && r.cards == db.cards[..k] + db.cards[k + 1..]
      && (forall a :: a in r.assignments <==> a in db.assignments && a.0 != cardId)
      && (forall a :: a in r.cardLabels <==> a in db.cardLabels && a.0 != cardId)
  {
    var card := CardOnBoard(db, boardId, cardId).value;
    var i :| 0 <= i < |db.cards| && db.cards[i] == card;
    IndexOfUnique(db.cards, i);
    WithoutAt(db.cards, i);
  }

  /** Deleting keeps referential integrity. */
  lemma DeleteCardValid(db: Db, boardId: int, caller: int, cardId: int)
    requires Valid(db)
    ensures Valid(DeleteCard(db, boardId, caller, cardId).db)
  {
    if Admitted(db, boardId, caller) && CardOnBoard(db, boardId, cardId).Some? {
      WithoutKeys(db.cards, cardId);
    }
  }

  /** Deleting never closes the gap it leaves: a column numbered 0, 1, 2
      loses its middle card and is no longer numbered 0..n-1. */
  lemma DeleteCardLeavesGap(db: Db)
    requires Admitted(db, 1, 5) && db.columns == [Row(10, 1, 0)]
    requires db.cards == [Row(1, 10, 0), Row(2, 10, 1), Row(3, 10, 2)]
    ensures DenseIn(db.cards, 10) && !DenseIn(DeleteCard(db, 1, 5, 2).db.cards, 10)
  {
    var t := db.cards;
    assert Children(t, 10) == t by {
      assert Children(t[2..], 10) == [t[2]] by { assert t[2..][1..] == []; }
      assert t[1..][1..] == t[2..];
    }
    assert Find(db.columns, 10) == Some(Row(10, 1, 0));
    assert CardOnBoard(db, 1, 2).Some? by { assert t[1] in t; }
    DeleteCardCutsOut(db, 1, 5, 2);
    var t' := DeleteCard(db, 1, 5, 2).db.cards;
    assert t' == [Row(1, 10, 0), Row(3, 10, 2)];
    assert |Children(t', 10)| <= 2;
    assert t'[1].parent == 10 && t'[1].position == 2;
  }

  /** `AssignUser`: the card must be on the board, the user must exist and
      be a member of the board, and must not already be assigned. */
  function AssignUser(db: Db, boardId: int, caller: int, cardId: int, userId: int): (r: Reply)
    ensures !Admitted(db, boardId, caller) ==> r == Rejected(db, boardId, caller)
    ensures r.status == NoContent <==>
      && Admitted(db, boardId, caller)
      && CardOnBoard(db, boardId, cardId).Some?
      && FindUser(db.users, userId).Some?
      && userId in db.boards[boardId].members
      && (cardId, userId) !in db.assignments
    ensures r.status == NoContent ==> r.db == db.(assignments := db.assignments + {(cardId, userId)})
    ensures r.status != NoContent ==> r.db == db
    ensures Admitted(db, boardId, caller) && CardOnBoard(db, boardId, cardId).None? ==>
      r.status == NotFound(CardNotFound)
    ensures (Admitted(db, boardId, caller) && CardOnBoard(db, boardId, cardId).Some?
      && FindUser(db.users, userId).None?) ==> r.status == NotFound(UserNotFound)
    ensures (Admitted(db, boardId, caller) && CardOnBoard(db, boardId, cardId).Some?
      && FindUser(db.users, userId).Some? && userId !in db.boards[boardId].members) ==>
      r.status == BadRequest(NotABoardMember)
    ensures (Admitted(db, boardId, caller) && CardOnBoard(db, boardId, cardId).Some?
      && FindUser(db.users, userId).Some? && userId in db.boards[boardId].members
      && (cardId, userId) in db.assignments) ==> r.status == BadRequest(AlreadyAssigned)
  {
    if !Admitted(db, boardId, caller) then Rejected(db, boardId, caller)
    else if CardOnBoard(db, boardId, cardId).None? then Reply(NotFound(CardNotFound), db)
    else if FindUser(db.users, userId).None? then Reply(NotFound(UserNotFound), db)
    else if userId !in db.boards[boardId].members then Reply(BadRequest(NotABoardMember), db)
    else if (cardId, userId) in db.assignments then Reply(BadRequest(AlreadyAssigned), db)
    else Reply(NoContent, db.(assignments := db.assignments + {(cardId, userId)}))
  }

  /** Assigning twice: the second request is refused as already assigned and
      changes nothing. */
  lemma AssignUserTwice(db: Db, boardId: int, caller: int, cardId: int, userId: int)
    requires AssignUser(db, boardId, caller, cardId, userId).status == NoContent
    ensures var db1 := AssignUser(db, boardId, caller, cardId, userId).db;
      AssignUser(db1, boardId, caller, cardId, userId) == Reply(BadRequest(AlreadyAssigned), db1)
  {
    var db1 := AssignUser(db, boardId, caller, cardId, userId).db;
    assert ColumnBoard(db1, CardOnBoard(db, boardId, cardId).value.parent) == Some(boardId);
  }

  /** `AttachLabel`: the label is looked up by key alone, so a label of any
      board can be attached; a label already on the card is refused. */
  function AttachLabel(db: Db, boardId: int, caller: int, cardId: int, labelId: int): (r: Reply)
    ensures !Admitted(db, boardId, caller) ==> r == Rejected(db, boardId, caller)
    ensures r.status == NoContent <==>
      && Admitted(db, boardId, caller)
      && CardOnBoard(db, boardId, cardId).Some?
      && FindLabel(db.labels, labelId).Some?
      && (cardId, labelId) !in db.cardLabels
    ensures r.status == NoContent ==> r.db == db.(cardLabels := db.cardLabels + {(cardId, labelId)})
    ensures r.status != NoContent ==> r.db == db
    ensures Admitted(db, boardId, caller) && CardOnBoard(db, boardId, cardId).None? ==>
      r.status == NotFound(CardNotFound)
    ensures (Admitted(db, boardId, caller) && CardOnBoard(db, boardId, cardId).Some?
      && FindLabel(db.labels, labelId).None?) ==> r.status == NotFound(LabelNotFound)
    ensures (Admitted(db, boardId, caller) && CardOnBoard(db, boardId, cardId).Some?
      && FindLabel(db.labels, labelId).Some? && (cardId, labelId) in db.cardLabels) ==>
      r.status == BadRequest(AlreadyAttached)
  {
    if !Admitted(db, boardId, caller) then Rejected(db, boardId, caller)
    else if CardOnBoard(db, boardId, cardId).None? then Reply(NotFound(CardNotFound), db)
    else if FindLabel(db.labels, labelId).None? then Reply(NotFound(LabelNotFound), db)
    else if (cardId, labelId) in db.cardLabels then Reply(BadRequest(AlreadyAttached), db)
    else Reply(NoContent, db.(cardLabels := db.cardLabels + {(cardId, labelId)}))
  }

  /** A label that belongs to another board is attached all the same. */
  lemma AttachForeignLabel(db: Db)
    requires Admitted(db, 1, 5) && db.columns == [Row(10, 1, 0)] && db.cards == [Row(20, 10, 0)]
    requires db.labels == [Label(30, 2, None, "#ef4444")] && db.cardLabels == {}
    ensures db.labels[0].boardId != 1
    ensures AttachLabel(db, 1, 5, 20, 30).status == NoContent
    ensures (20, 30) in AttachLabel(db, 1, 5, 20, 30).db.cardLabels
  {
    assert Find(db.columns, 10) == Some(Row(10, 1, 0));
    assert CardOnBoard(db, 1, 20).Some? by { assert db.cards[0] in db.cards; }
    assert FindLabel(db.labels, 30).Some?;
  }

  /** Assigning and attaching keep referential integrity. */
  lemma JoinRowsValid(db: Db, boardId: int, caller: int, cardId: int, other: int)
    requires Valid(db)
    ensures Valid(AssignUser(db, boardId, caller, cardId, other).db)
    ensures Valid(AttachLabel(db, boardId, caller, cardId, other).db)
  {
    if Admitted(db, boardId, caller) && CardOnBoard(db, boardId, cardId).Some? {
      assert HasId(db.cards, cardId) by {
        var c := CardOnBoard(db, boardId, cardId).value;
        var i :| 0 <= i < |db.cards| && db.cards[i] == c;
      }
    }
  }
}
