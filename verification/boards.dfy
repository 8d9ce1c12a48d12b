/** `BoardsController`: listing a user's boards, creating a board with its
    Owner and default labels, and the role gates of updating and deleting. */
module Boards {
  import opened Wrappers
  import opened Http
  import opened Positions
  import opened Store
  import opened BoardValidation
  import opened BoardMembers

  /** `GetDefaultLabels`: red, orange, yellow, green, blue, violet. */
  const DefaultColors: seq<string> := ["#ef4444", "#f97316", "#eab308", "#22c55e", "#3b82f6", "#8b5cf6"]

  /** `GetBoards`: the boards with a membership row for the caller. */
  function GetBoards(db: Db, caller: int): (r: set<int>)
    ensures forall b :: b in r <==> ValidateBoardAsync(db, b, caller).None?
  {
    set b | b in db.boards && caller in db.boards[b].members
  }

  /** The untitled labels of a new board, one per default colour in order;
      `ids` are the keys the database generates. */
  function DefaultLabels(boardId: int, ids: seq<int>): (r: seq<Label>)
    requires |ids| == |DefaultColors|
    ensures |r| == |DefaultColors|
    ensures forall i {:trigger r[i]} :: 0 <= i < |r| ==> r[i] == Label(ids[i], boardId, None, DefaultColors[i])
  {
    seq(|DefaultColors|, i requires 0 <= i < |DefaultColors| => Label(ids[i], boardId, None, DefaultColors[i]))
  }

  /** The labels of one board, in storage order. */
  function LabelsOf(labels: seq<Label>, boardId: int): (r: seq<Label>)
    ensures forall l {:trigger l in r} :: l in r <==> l in labels && l.boardId == boardId
  {
    if labels == [] then []
    else (if labels[0].boardId == boardId then [labels[0]] else []) + LabelsOf(labels[1..], boardId)
  }

  /** The labels of every other board, in storage order. */
  function LabelsNotOf(labels: seq<Label>, boardId: int): (r: seq<Label>)
    ensures forall l {:trigger l in r} :: l in r <==> l in labels && l.boardId != boardId
  {
    if labels == [] then []
    else (if labels[0].boardId != boardId then [labels[0]] else []) + LabelsNotOf(labels[1..], boardId)
  }

  function Colors(labels: seq<Label>): (r: seq<string>)
    ensures |r| == |labels|
    ensures forall i {:trigger r[i]} :: 0 <= i < |r| ==> r[i] == labels[i].color
  {
    seq(|labels|, i requires 0 <= i < |labels| => labels[i].color)
  }

  /** `CreateBoard`; `newId` and `labelIds` are the keys the database
      generates. The creator becomes the board's only member, as Owner, and
      the six default labels are attached to the board. */
  function CreateBoard(db: Db, caller: int, title: string, description: Option<string>, newId: int, labelIds: seq<int>): (r: Reply)
    requires newId !in db.boards && |labelIds| == |DefaultColors|
    ensures r.status == Created(newId)
    ensures r.db == db.(boards := r.db.boards, labels := r.db.labels)
    ensures r.db.boards.Keys == db.boards.Keys + {newId}
    ensures forall b :: b in db.boards ==> r.db.boards[b] == db.boards[b]
    ensures r.db.boards[newId].title == title && r.db.boards[newId].description == description
    ensures |r.db.labels| == |db.labels| + |DefaultColors|
    ensures r.db.labels[..|db.labels|] == db.labels
  {
    var labels := db.labels + DefaultLabels(newId, labelIds);
    assert labels[..|db.labels|] == db.labels;
    Reply(Created(newId), db.(boards := db.boards[newId := Board(title, description, map[caller := Owner])],
                              labels := labels))
  }

  /** The creator is the only member and the only Owner, passes the
      precheck on the new board, and sees it among their boards. */
  lemma CreateBoardSoleOwner(db: Db, caller: int, title: string, description: Option<string>, newId: int, labelIds: seq<int>)
    requires newId !in db.boards && |labelIds| == |DefaultColors|
    ensures var r := CreateBoard(db, caller, title, description, newId, labelIds).db;
      && Members(r, newId).Keys == {caller}
      && Owners(Members(r, newId)) == {caller}
      && ValidateBoardAsync(r, newId, caller).None?
      && GetBoards(r, caller) == GetBoards(db, caller) + {newId}
  {
    var r := CreateBoard(db, caller, title, description, newId, labelIds).db;
    assert Members(r, newId) == map[caller := Owner];
  }

  lemma {:induction false} LabelsOfAppend(a: seq<Label>, b: seq<Label>, boardId: int)
    ensures LabelsOf(a + b, boardId) == LabelsOf(a, boardId) + LabelsOf(b, boardId)
  {
    if a == [] {
      assert a + b == b;
    } else {
      var u := a + b;
      assert u[0] == a[0] && u[1..] == a[1..] + b;
      LabelsOfAppend(a[1..], b, boardId);
      var head := if a[0].boardId == boardId then [a[0]] else [];
      calc {
        LabelsOf(u, boardId);
        head + LabelsOf(u[1..], boardId);
        head + (LabelsOf(a[1..], boardId) + LabelsOf(b, boardId));
        (head + LabelsOf(a[1..], boardId)) + LabelsOf(b, boardId);
      }
    }
  }

  lemma {:induction false} LabelsOfAll(s: seq<Label>, boardId: int)
    requires forall i :: 0 <= i < |s| ==> s[i].boardId == boardId
    ensures LabelsOf(s, boardId) == s
  {
    if s != [] {
      LabelsOfAll(s[1..], boardId);
    }
  }

  /** When no existing label names the new key (as in a database whose
      labels all belong to existing boards), the new board's labels are
      exactly six, untitled, in the default colours and order. */
  lemma CreateBoardLabels(db: Db, caller: int, title: string, description: Option<string>, newId: int, labelIds: seq<int>)
    requires newId !in db.boards && |labelIds| == |DefaultColors|
    requires forall l :: l in db.labels ==> l.boardId in db.boards
    ensures var ls := LabelsOf(CreateBoard(db, caller, title, description, newId, labelIds).db.labels, newId);
      && Colors(ls) == DefaultColors
      && (forall i :: 0 <= i < |ls| ==> ls[i].title.None? && ls[i].id == labelIds[i])
  {
    var added := DefaultLabels(newId, labelIds);
    assert CreateBoard(db, caller, title, description, newId, labelIds).db.labels == db.labels + added;
    NoLabelsOf(db.labels, newId);
    LabelsOfAppend(db.labels, added, newId);
    LabelsOfAll(added, newId);
    assert Colors(added) == DefaultColors;
  }

  lemma {:induction false} NoLabelsOf(s: seq<Label>, boardId: int)
    requires forall l :: l in s ==> l.boardId != boardId
    ensures LabelsOf(s, boardId) == []
  {
    if s != [] {
      assert s[0] in s;
      NoLabelsOf(s[1..], boardId);
    }
  }

  /** Creating a board keeps referential integrity. */
  lemma CreateBoardValid(db: Db, caller: int, title: string, description: Option<string>, newId: int, labelIds: seq<int>)
    requires Valid(db) && newId !in db.boards && |labelIds| == |DefaultColors|
    requires forall i, j :: 0 <= i < j < |labelIds| ==> labelIds[i] != labelIds[j]
    requires forall i :: 0 <= i < |labelIds| ==> FindLabel(db.labels, labelIds[i]).None?
    ensures Valid(CreateBoard(db, caller, title, description, newId, labelIds).db)
  {
    var r := CreateBoard(db, caller, title, description, newId, labelIds).db;
    forall a | a in r.cardLabels ensures FindLabel(r.labels, a.1).Some? {
      FindLabelPrefix(db.labels, DefaultLabels(newId, labelIds), a.1);
    }
  }

  /** Appending labels does not hide one already found. */
  lemma {:induction false} FindLabelPrefix(a: seq<Label>, b: seq<Label>, id: int)
    requires FindLabel(a, id).Some?
    ensures FindLabel(a + b, id) == FindLabel(a, id)
  {
    assert (a + b)[0] == a[0];
    if a[0].id != id {
      assert (a + b)[1..] == a[1..] + b;
      FindLabelPrefix(a[1..], b, id);
    }
  }

  /** `UpdateBoard`: an Owner or Admin sets the title and description. */
  function UpdateBoard(db: Db, id: int, caller: int, title: string, description: Option<string>): (r: Reply)
    ensures !Admitted(db, id, caller) ==> r == Rejected(db, id, caller)
    ensures r.status.Succeeded() <==> Admitted(db, id, caller) && Manages(Members(db, id)[caller])
    ensures Admitted(db, id, caller) && !Manages(Members(db, id)[caller]) ==> r == Reply(Forbid, db)
    ensures !r.status.Succeeded() ==> r.db == db
    ensures r.status.Succeeded() ==> r.status == NoContent && r.db == db.(boards := r.db.boards)
  {
    if !Admitted(db, id, caller) then Rejected(db, id, caller)
    else if !Manages(Members(db, id)[caller]) then Reply(Forbid, db)
    else Reply(NoContent, db.(boards := db.boards[id := db.boards[id].(title := title, description := description)]))
  }

  /** An update touches only the title and description of that board: the
      membership and every other board stay, and repeating it changes
      nothing more. */
  lemma UpdateBoardOnlyText(db: Db, id: int, caller: int, title: string, description: Option<string>)
    requires UpdateBoard(db, id, caller, title, description).status.Succeeded()
    ensures var r := UpdateBoard(db, id, caller, title, description).db;
      && r.boards.Keys == db.boards.Keys
      && r.boards[id] == Board(title, description, Members(db, id))
      && (forall b :: b in db.boards && b != id ==> r.boards[b] == db.boards[b])
      && UpdateBoard(r, id, caller, title, description) == Reply(NoContent, r)
  {
    var r := UpdateBoard(db, id, caller, title, description).db;
    assert r.boards[id := r.boards[id].(title := title, description := description)] == r.boards;
  }

  /** `DeleteBoard`: only the Owner may delete. The database cascades the
      board's columns, their cards, the board's labels, and the join rows of
      the cards and labels that go. */
  function DeleteBoard(db: Db, id: int, caller: int): (r: Reply)
    ensures !Admitted(db, id, caller) ==> r == Rejected(db, id, caller)
    ensures r.status.Succeeded() <==> Admitted(db, id, caller) && Members(db, id)[caller] == Owner
    ensures Admitted(db, id, caller) && Members(db, id)[caller] != Owner ==> r == Reply(Forbid, db)
    ensures !r.status.Succeeded() ==> r.db == db
    ensures r.status.Succeeded() ==> r.status == Ok && r.db.boards == db.boards - {id} && r.db.users == db.users
  {
    if !Admitted(db, id, caller) then Rejected(db, id, caller)
    else if Members(db, id)[caller] != Owner then Reply(Forbid, db)
    else
      var goneColumns := Children(db.columns, id);
      var goneCards := UnderAny(db.cards, goneColumns);
      var labels := LabelsNotOf(db.labels, id);
      Reply(Ok, db.(boards := db.boards - {id},
                    columns := NotUnder(db.columns, id),
                    cards := NotUnderAny(db.cards, goneColumns),
                    labels := labels,
                    assignments := (set a | a in db.assignments && !HasId(goneCards, a.0)),
                    cardLabels := (set a | a in db.cardLabels && !HasId(goneCards, a.0) && FindLabel(labels, a.1).Some?)))
  }

  /** After a delete nothing on the board is left: no column names it, no
      card sits in one of its columns, no label belongs to it, and no one
      lists it among their boards. */
  lemma DeleteBoardCascades(db: Db, id: int, caller: int)
    requires DeleteBoard(db, id, caller).status.Succeeded()
    ensures var r := DeleteBoard(db, id, caller).db;
      && (forall c :: c in r.columns ==> c in db.columns && c.parent != id)
      && (forall c :: c in db.columns && c.parent != id ==> c in r.columns)
      && (forall x :: x in r.cards <==> x in db.cards && !HasId(Children(db.columns, id), x.parent))
      && (forall l :: l in r.labels <==> l in db.labels && l.boardId != id)
      && (forall u :: id !in GetBoards(r, u))
  {
  }

  /** Deleting keeps referential integrity: every row that named the board,
      or named a row that went with it, goes too. */
  lemma DeleteBoardValid(db: Db, id: int, caller: int)
    requires Valid(db)
    ensures Valid(DeleteBoard(db, id, caller).db)
  {
    if DeleteBoard(db, id, caller).status.Succeeded() {
      var r := DeleteBoard(db, id, caller).db;
      var goneColumns := Children(db.columns, id);
      var goneCards := UnderAny(db.cards, goneColumns);
      NotUnderUnique(db.columns, id);
      NotUnderAnyUnique(db.cards, goneColumns);
      forall x | x in r.cards ensures HasId(r.columns, x.parent) {
        CardColumnSurvives(db, id, x);
      }
      forall a | a in r.assignments ensures HasId(r.cards, a.0) {
        CardSurvives(db, id, a.0);
      }
      forall a | a in r.cardLabels ensures HasId(r.cards, a.0) {
        CardSurvives(db, id, a.0);
      }
    }
  }

  /** A surviving card's column survives. */
  lemma CardColumnSurvives(db: Db, id: int, x: Row)
    requires Valid(db) && x in db.cards && !HasId(Children(db.columns, id), x.parent)
    ensures HasId(NotUnder(db.columns, id), x.parent)
  {
    HasIdIff(db.columns, x.parent);
    var c :| c in db.columns && c.id == x.parent;
    HasIdIff(Children(db.columns, id), x.parent);
    assert c !in Children(db.columns, id);
    HasIdIff(NotUnder(db.columns, id), x.parent);
  }

  /** A card that is not among the cascaded ones survives. */
  lemma CardSurvives(db: Db, id: int, k: int)
    requires Valid(db) && HasId(db.cards, k) && !HasId(UnderAny(db.cards, Children(db.columns, id)), k)
    ensures HasId(NotUnderAny(db.cards, Children(db.columns, id)), k)
  {
    var gone := Children(db.columns, id);
    HasIdIff(db.cards, k);
    var x :| x in db.cards && x.id == k;
    HasIdIff(UnderAny(db.cards, gone), k);
    assert x !in UnderAny(db.cards, gone);
    HasIdIff(NotUnderAny(db.cards, gone), k);
  }
}
