/** The database the controllers work on, reduced to what the modelled
    actions read and write, plus the membership precheck every board action
    runs first. */
module Store {
  import opened Wrappers
  import opened Http
  import opened Positions

  /** `BoardMemberRole`. */
  datatype Role = Owner | Admin | Member | Observer

  /** A board and its membership rows (`BoardMember`, keyed by user id). */
  datatype Board = Board(title: string, description: Option<string>, members: map<int, Role>)

  datatype User = User(id: int, email: string)

  /** A label belongs to one board; the title may be null. */
  datatype Label = Label(id: int, boardId: int, title: Option<string>, color: string)

  /** Tables: boards by key; users; columns as rows whose parent is the
      board; cards as rows whose parent is the column; labels; and the two
      join tables `CardAssignments` (card, user) and `CardLabels`
      (card, label). Sequences are in storage order. */
  datatype Db = Db(
    boards: map<int, Board>,
    users: seq<User>,
    columns: seq<Row>,
    cards: seq<Row>,
    labels: seq<Label>,
    assignments: set<(int, int)>,
    cardLabels: set<(int, int)>)

  /** An action's status and the database after it. An action that fails
      before `SaveChanges`, or whose `SaveChanges` is rejected, leaves the
      database as it was. */
  datatype Reply = Reply(status: Status, db: Db)

  /** `Users.FindAsync(id)`. */
  function FindUser(users: seq<User>, id: int): (r: Option<User>)
    ensures r.Some? ==> r.value in users && r.value.id == id
    ensures r.None? ==> forall u :: u in users ==> u.id != id
  {
    if users == [] then None
    else if users[0].id == id then Some(users[0])
    else FindUser(users[1..], id)
  }

  /** `Users.Where(u => u.Email == email).FirstOrDefaultAsync()`: a user
      holding the address. Addresses are not unique in the schema and the
      query has no `OrderBy`, so which holder the database returns is not
      defined; the model takes the first in storage order. */
  function FindUserByEmail(users: seq<User>, email: string): (r: Option<User>)
    ensures r.Some? ==> r.value.email == email
    ensures r.Some? ==> exists i :: 0 <= i < |users| && users[i] == r.value && forall j :: 0 <= j < i ==> users[j].email != email
    ensures r.None? ==> forall u :: u in users ==> u.email != email
  {
    if users == [] then None
    else if users[0].email == email then Some(users[0])
    else FindUserByEmail(users[1..], email)
  }

  /** `Labels.FindAsync(id)`: by key alone, whatever board it belongs to. */
  function FindLabel(labels: seq<Label>, id: int): (r: Option<Label>)
    ensures r.Some? ==> r.value in labels && r.value.id == id
    ensures r.None? ==> forall l :: l in labels ==> l.id != id
  {
    if labels == [] then None
    else if labels[0].id == id then Some(labels[0])
    else FindLabel(labels[1..], id)
  }

  /** The board a column belongs to, if the column exists. */
  function ColumnBoard(db: Db, columnId: int): (r: Option<int>)
    ensures r.Some? <==> HasId(db.columns, columnId)
    ensures r.Some? ==> exists c :: c in db.columns && c.id == columnId && c.parent == r.value
  {
    match Find(db.columns, columnId)
    case None => None
    case Some(c) => Some(c.parent)
  }

  /** `Cards.FirstOrDefault(c => c.Id == id && c.Column.BoardId == boardId)`. */
  function CardOnBoard(db: Db, boardId: int, cardId: int): (r: Option<Row>)
    ensures r.Some? ==> r.value in db.cards && r.value.id == cardId
    ensures r.Some? ==> ColumnBoard(db, r.value.parent) == Some(boardId)
    ensures r.None? ==> forall c :: c in db.cards && c.id == cardId ==> ColumnBoard(db, c.parent) != Some(boardId)
  {
    FirstCardOnBoard(db, db.cards, boardId, cardId)
  }

  /** The first row of `s` with key `cardId` whose column is on the board. */
  function FirstCardOnBoard(db: Db, s: seq<Row>, boardId: int, cardId: int): (r: Option<Row>)
    ensures r.Some? ==> r.value in s && r.value.id == cardId && ColumnBoard(db, r.value.parent) == Some(boardId)
    ensures r.None? ==> forall c :: c in s && c.id == cardId ==> ColumnBoard(db, c.parent) != Some(boardId)
  {
    if s == [] then None
    else if s[0].id == cardId && ColumnBoard(db, s[0].parent) == Some(boardId) then Some(s[0])
    else FirstCardOnBoard(db, s[1..], boardId, cardId)
  }

  /** With unique keys the card found is the one row carrying the key. */
  lemma CardOnBoardIsRow(db: Db, boardId: int, i: int, card: Row)
    requires UniqueIds(db.cards) && 0 <= i < |db.cards| && db.cards[i] == card
    requires ColumnBoard(db, card.parent) == Some(boardId)
    ensures CardOnBoard(db, boardId, card.id) == Some(card)
  {
    assert card in db.cards;
    var c := CardOnBoard(db, boardId, card.id).value;
    var j :| 0 <= j < |db.cards| && db.cards[j] == c;
    assert db.cards[j].id == db.cards[i].id;
  }

  /** Referential integrity: keys are unique, every foreign key names an
      existing row, and join rows name existing cards and labels. */
  predicate Valid(db: Db) {
    && UniqueIds(db.columns)
    && UniqueIds(db.cards)
    && (forall c :: c in db.columns ==> c.parent in db.boards)
    && (forall c :: c in db.cards ==> HasId(db.columns, c.parent))
    && (forall l :: l in db.labels ==> l.boardId in db.boards)
    && (forall a :: a in db.assignments ==> HasId(db.cards, a.0))
    && (forall a :: a in db.cardLabels ==> HasId(db.cards, a.0) && FindLabel(db.labels, a.1).Some?)
  }
}

/** `BoardValidationService`: the precheck run at the start of every board
    action. It throws; the model returns the exception it would throw. */
module BoardValidation {
  import opened Wrappers
  import opened Http
  import opened Store

  const BoardNotFoundMessage: string := "Board not found"
  const AccessDeniedMessage: string := "Access denied to the board"

  /** `ValidateBoard`: a missing board is reported before membership is
      looked at; a member passes. */
  function ValidateBoard(board: Option<Board>, userId: int): (r: Option<Exception>)
    ensures r.None? <==> board.Some? && userId in board.value.members
    ensures board.None? ==> r == Some(BoardNotFound(BoardNotFoundMessage))
    ensures board.Some? && userId !in board.value.members ==> r == Some(BoardAccessDenied(AccessDeniedMessage))
  {
    if board.None? then Some(BoardNotFound(BoardNotFoundMessage))
    else if userId !in board.value.members then Some(BoardAccessDenied(AccessDeniedMessage))
    else None
  }

  /** `Boards.Include(b => b.Members).FirstOrDefaultAsync(b => b.Id == boardId)`. */
  function LoadBoard(db: Db, boardId: int): (r: Option<Board>)
    ensures r.Some? <==> boardId in db.boards
    ensures r.Some? ==> r.value == db.boards[boardId]
  {
    if boardId in db.boards then Some(db.boards[boardId]) else None
  }

  /** `ValidateBoardAsync`: load by key, then the same check. */
  function ValidateBoardAsync(db: Db, boardId: int, userId: int): (r: Option<Exception>)
    ensures r == ValidateBoard(LoadBoard(db, boardId), userId)
    ensures r.None? <==> boardId in db.boards && userId in db.boards[boardId].members
  {
    ValidateBoard(LoadBoard(db, boardId), userId)
  }

  /** The caller may act on the board. */
  predicate Admitted(db: Db, boardId: int, userId: int) {
    boardId in db.boards && userId in db.boards[boardId].members
  }

  /** The precheck threw: its exception escapes and nothing is saved. */
  function Rejected(db: Db, boardId: int, caller: int): (r: Reply)
    requires !Admitted(db, boardId, caller)
    ensures r.db == db && r.status.Threw? && !r.status.ex.Unexpected?
  {
    Reply(Threw(ValidateBoardAsync(db, boardId, caller).value), db)
  }
}
