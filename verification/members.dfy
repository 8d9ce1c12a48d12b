/** `BoardMembersController`: the role rules for adding, re-roling and
    removing members, transferring ownership and leaving a board. A board's
    membership is a map from user id to role; every action first runs the
    membership precheck, so the caller is a member when the rules run. */
module BoardMembers {
  import opened Wrappers
  import opened Http
  import opened Store
  import opened BoardValidation

  const OnlyManagersAdd: string := "Only admins and owners can add members"
  const NoSuchEmail: string := "User with this email does not exist"
  const AlreadyMember: string := "User is already a member of this board"
  const OnlyOwnerAddsAdmins: string := "Only the owner can add admins"
  const MemberNotFound: string := "Member not found"
  const CannotMakeOwner: string := "Cannot change owner's role. Use transfer ownership instead"
  const OnlyOwnerManagesAdmins: string := "Only the owner can manage admins"
  const NoRolePermission: string := "You don't have permission to change roles"
  const MemberToRemoveNotFound: string := "Member to remove is not found"
  const CannotRemoveOwner: string := "Cannot remove the owner"
  const OnlyOwnerRemovesAdmins: string := "Only the owner can remove admins"
  const NoRemovePermission: string := "You don't have permission to remove members"
  const NotTheOwner: string := "You are not the owner of this board"
  const OwnerCannotLeave: string := "Board owner cannot leave. Transfer ownership or delete the board."

  /** Owner or Admin: the roles that may manage members at all. */
  predicate Manages(role: Role) {
    role == Owner || role == Admin
  }

  /** The users holding role Owner. */
  function Owners(m: map<int, Role>): set<int> {
    set u | u in m && m[u] == Owner
  }

  function Members(db: Db, boardId: int): map<int, Role>
    requires boardId in db.boards
  {
    db.boards[boardId].members
  }

  /** The database with the board's membership replaced. */
  function WithMembers(db: Db, boardId: int, m: map<int, Role>): (r: Db)
    requires boardId in db.boards
    ensures r.boards.Keys == db.boards.Keys && Members(r, boardId) == m
  {
    db.(boards := db.boards[boardId := db.boards[boardId].(members := m)])
  }

  /** Giving `u` a role adds it to the owners or takes it out of them. */
  lemma OwnersUpdate(m: map<int, Role>, u: int, role: Role)
    ensures Owners(m[u := role]) == if role == Owner then Owners(m) + {u} else Owners(m) - {u}
  {
  }

  lemma OwnersRemove(m: map<int, Role>, u: int)
    ensures Owners(m - {u}) == Owners(m) - {u}
  {
  }

  /** `AddMember`: the caller must be Owner or Admin; the user is found by
      email and must not be a member yet; adding an Admin takes an Owner.
      Adding an Owner is not checked at all. */
  function AddMember(db: Db, boardId: int, caller: int, email: string, role: Role): (r: Reply)
    ensures !Admitted(db, boardId, caller) ==> r == Rejected(db, boardId, caller)
    ensures Admitted(db, boardId, caller) && !Manages(Members(db, boardId)[caller]) ==>
      r == Reply(BadRequest(OnlyManagersAdd), db)
    ensures (Admitted(db, boardId, caller) && Manages(Members(db, boardId)[caller])
      && FindUserByEmail(db.users, email).None?) ==> r == Reply(NotFound(NoSuchEmail), db)
    ensures r.status.Succeeded() <==>
      && Admitted(db, boardId, caller)
      && Manages(Members(db, boardId)[caller])
      && FindUserByEmail(db.users, email).Some?
      && FindUserByEmail(db.users, email).value.id !in Members(db, boardId)
      && (role == Admin ==> Members(db, boardId)[caller] == Owner)
    ensures !r.status.Succeeded() ==> r.db == db
    ensures r.status.Succeeded() ==>
      var u := FindUserByEmail(db.users, email).value;
      r.status == NoContent && r.db == WithMembers(db, boardId, Members(db, boardId)[u.id := role])
  {
    if !Admitted(db, boardId, caller) then Rejected(db, boardId, caller)
    else
      var m := Members(db, boardId);
      if !Manages(m[caller]) then Reply(BadRequest(OnlyManagersAdd), db)
      else match FindUserByEmail(db.users, email)
        case None => Reply(NotFound(NoSuchEmail), db)
        case Some(u) =>
          if u.id in m then Reply(BadRequest(AlreadyMember), db)
          else if role == Admin && m[caller] != Owner then Reply(BadRequest(OnlyOwnerAddsAdmins), db)
          else Reply(NoContent, WithMembers(db, boardId, m[u.id := role]))
  }

  /** A successful add grows the membership by exactly the new user, with the
      requested role, and changes no one else's; the owners change only when
      the requested role is Owner. */
  lemma AddMemberAddsOne(db: Db, boardId: int, caller: int, email: string, role: Role)
    requires AddMember(db, boardId, caller, email, role).status.Succeeded()
    ensures var m, m' := Members(db, boardId), Members(AddMember(db, boardId, caller, email, role).db, boardId);
      var u := FindUserByEmail(db.users, email).value;
      && m'.Keys == m.Keys + {u.id} && u.id !in m
      && |m'| == |m| + 1
      && m'[u.id] == role
      && (forall v :: v in m ==> m'[v] == m[v])
      && Owners(m') == (if role == Owner then Owners(m) + {u.id} else Owners(m))
  {
    var m := Members(db, boardId);
    var u := FindUserByEmail(db.users, email).value;
    OwnersUpdate(m, u.id, role);
    assert u.id !in Owners(m);
  }

  /** Nothing stops an Admin from adding a second Owner. */
  lemma AdminAddsSecondOwner(db: Db)
    requires db.boards == map[1 := Board("b", None, map[10 := Owner, 20 := Admin])]
    requires db.users == [User(30, "x@y.z")]
    ensures var r := AddMember(db, 1, 20, "x@y.z", Owner);
      && r.status == NoContent
      && Owners(Members(db, 1)) == {10}
      && Owners(Members(r.db, 1)) == {10, 30}
  {
    var m := Members(db, 1);
    assert Owners(m) == {10};
    assert FindUserByEmail(db.users, "x@y.z") == Some(User(30, "x@y.z"));
    OwnersUpdate(m, 30, Owner);
  }

  /** `UpdateMemberRole`: the target must be a member; no one can be made
      Owner; touching an Admin (as old or new role) takes an Owner; other
      changes take an Owner or Admin. The target's current role being Owner
      is not checked. */
  function UpdateMemberRole(db: Db, boardId: int, caller: int, userId: int, role: Role): (r: Reply)
    ensures !Admitted(db, boardId, caller) ==> r == Rejected(db, boardId, caller)
    ensures Admitted(db, boardId, caller) && userId !in Members(db, boardId) ==>
      r == Reply(NotFound(MemberNotFound), db)
    ensures Admitted(db, boardId, caller) && userId in Members(db, boardId) && role == Owner ==>
      r == Reply(BadRequest(CannotMakeOwner), db)
    ensures !r.status.Succeeded() ==> r.db == db
    ensures r.status.Succeeded() ==>
      r.status == NoContent && r.db == WithMembers(db, boardId, Members(db, boardId)[userId := role])
  {
    if !Admitted(db, boardId, caller) then Rejected(db, boardId, caller)
    else
      var m := Members(db, boardId);
      var ok := Reply(NoContent, WithMembers(db, boardId, m[userId := role]));
      if userId !in m then Reply(NotFound(MemberNotFound), db)
      else if role == Owner then Reply(BadRequest(CannotMakeOwner), db)
      else if role == Admin || m[userId] == Admin then
        if m[caller] != Owner then Reply(BadRequest(OnlyOwnerManagesAdmins), db) else ok
      else if !Manages(m[caller]) then Reply(BadRequest(NoRolePermission), db)
      else ok
  }

  /** Who may change a role, as a table: the Owner may set any role but
      Owner; an Admin may only move non-Admins between Member and Observer
      (and may do so to the Owner); no one else may change anything. */
  lemma UpdateMemberRolePermission(db: Db, boardId: int, caller: int, userId: int, role: Role)
    requires Admitted(db, boardId, caller)
    ensures var m := Members(db, boardId);
      UpdateMemberRole(db, boardId, caller, userId, role).status.Succeeded() <==>
        && userId in m && role != Owner
        && (|| m[caller] == Owner
            || (m[caller] == Admin && role in {Member, Observer} && m[userId] != Admin))
  {
  }

  /** A role change never creates an Owner: the owners afterwards are the
      owners before, less the target. */
  lemma UpdateMemberRoleOwners(db: Db, boardId: int, caller: int, userId: int, role: Role)
    requires boardId in db.boards
    ensures var r := UpdateMemberRole(db, boardId, caller, userId, role);
      && Owners(Members(r.db, boardId)) <= Owners(Members(db, boardId))
      && (r.status.Succeeded() ==> Owners(Members(r.db, boardId)) == Owners(Members(db, boardId)) - {userId})
  {
    var r := UpdateMemberRole(db, boardId, caller, userId, role);
    if r.status.Succeeded() {
      OwnersUpdate(Members(db, boardId), userId, role);
    }
  }

  /** An Admin can demote the Owner, leaving the board with no Owner. */
  lemma AdminDemotesOwner(db: Db)
    requires db.boards == map[1 := Board("b", None, map[10 := Owner, 20 := Admin])]
    ensures var r := UpdateMemberRole(db, 1, 20, 10, Member);
      && r.status == NoContent
      && Owners(Members(db, 1)) == {10}
      && Owners(Members(r.db, 1)) == {}
  {
    var m := Members(db, 1);
    assert Owners(m) == {10};
    OwnersUpdate(m, 10, Member);
  }

  /** `RemoveMember`: the target must be a member and not the Owner; removing
      an Admin takes an Owner; removing anyone else an Owner or Admin. */
  function RemoveMember(db: Db, boardId: int, caller: int, userId: int): (r: Reply)
    ensures !Admitted(db, boardId, caller) ==> r == Rejected(db, boardId, caller)
    ensures Admitted(db, boardId, caller) && userId !in Members(db, boardId) ==>
      r == Reply(NotFound(MemberToRemoveNotFound), db)
    ensures Admitted(db, boardId, caller) && userId in Members(db, boardId) && Members(db, boardId)[userId] == Owner ==>
      r == Reply(BadRequest(CannotRemoveOwner), db)
    ensures !r.status.Succeeded() ==> r.db == db
    ensures r.status.Succeeded() ==>
      r.status == NoContent && r.db == WithMembers(db, boardId, Members(db, boardId) - {userId})
  {
    if !Admitted(db, boardId, caller) then Rejected(db, boardId, caller)
    else
      var m := Members(db, boardId);
      var ok := Reply(NoContent, WithMembers(db, boardId, m - {userId}));
      if userId !in m then Reply(NotFound(MemberToRemoveNotFound), db)
      else if m[userId] == Owner then Reply(BadRequest(CannotRemoveOwner), db)
      else if m[userId] == Admin then
        if m[caller] != Owner then Reply(BadRequest(OnlyOwnerRemovesAdmins), db) else ok
      else if !Manages(m[caller]) then Reply(BadRequest(NoRemovePermission), db)
      else ok
  }

  /** Who may remove whom: the Owner removes anyone but the Owner; an Admin
      removes Members and Observers; no one else removes anyone. */
  lemma RemoveMemberPermission(db: Db, boardId: int, caller: int, userId: int)
    requires Admitted(db, boardId, caller)
    ensures var m := Members(db, boardId);
      RemoveMember(db, boardId, caller, userId).status.Succeeded() <==>
        && userId in m && m[userId] != Owner
        && (|| m[caller] == Owner
            || (m[caller] == Admin && m[userId] in {Member, Observer}))
  {
  }

  /** Removing a member never touches the owners, and takes exactly the
      target out of the membership. */
  lemma RemoveMemberKeepsOwners(db: Db, boardId: int, caller: int, userId: int)
    requires boardId in db.boards
    ensures var r := RemoveMember(db, boardId, caller, userId);
      && Owners(Members(r.db, boardId)) == Owners(Members(db, boardId))
      && (r.status.Succeeded() ==> userId in Members(db, boardId) && Members(r.db, boardId).Keys == Members(db, boardId).Keys - {userId})
  {
    var r := RemoveMember(db, boardId, caller, userId);
    if r.status.Succeeded() {
      OwnersRemove(Members(db, boardId), userId);
    }
  }

  /** `TransferOwnership`: the caller must be the Owner and the target a
      member; the caller becomes Admin, then the target Owner (so a transfer
      to oneself changes nothing). */
  function TransferOwnership(db: Db, boardId: int, caller: int, userId: int): (r: Reply)
    ensures !Admitted(db, boardId, caller) ==> r == Rejected(db, boardId, caller)
    ensures r.status.Succeeded() <==>
      Admitted(db, boardId, caller) && Members(db, boardId)[caller] == Owner && userId in Members(db, boardId)
    ensures Admitted(db, boardId, caller) && Members(db, boardId)[caller] != Owner ==>
      r == Reply(BadRequest(NotTheOwner), db)
    ensures !r.status.Succeeded() ==> r.db == db
    ensures r.status.Succeeded() ==>
      r.status == NoContent && r.db == WithMembers(db, boardId, Members(db, boardId)[caller := Admin][userId := Owner])
  {
    if !Admitted(db, boardId, caller) then Rejected(db, boardId, caller)
    else
      var m := Members(db, boardId);
      if m[caller] != Owner then Reply(BadRequest(NotTheOwner), db)
      else if userId !in m then Reply(NotFound(MemberNotFound), db)
      else Reply(NoContent, WithMembers(db, boardId, m[caller := Admin][userId := Owner]))
  }

  /** From a board whose only Owner is the caller, a transfer leaves the
      target as the only Owner, the caller an Admin (unless it is the
      target), the same members, and every other role as it was. */
  lemma TransferOwnershipMovesOwner(db: Db, boardId: int, caller: int, userId: int)
    requires Admitted(db, boardId, caller) && Owners(Members(db, boardId)) == {caller}
    requires TransferOwnership(db, boardId, caller, userId).status.Succeeded()
    ensures var m, m' := Members(db, boardId), Members(TransferOwnership(db, boardId, caller, userId).db, boardId);
      && Owners(m') == {userId}
      && m'.Keys == m.Keys
      && (userId != caller ==> m'[caller] == Admin)
      && (forall v :: v in m && v != caller && v != userId ==> m'[v] == m[v])
  {
    var m := Members(db, boardId);
    OwnersUpdate(m, caller, Admin);
    OwnersUpdate(m[caller := Admin], userId, Owner);
  }

  /** Transferring to oneself is a no-op that still reports success. */
  lemma TransferToSelf(db: Db, boardId: int, caller: int)
    requires Admitted(db, boardId, caller) && Members(db, boardId)[caller] == Owner
    ensures TransferOwnership(db, boardId, caller, caller) == Reply(NoContent, db)
  {
    var m := Members(db, boardId);
    assert m[caller := Admin][caller := Owner] == m;
    assert db.boards[boardId := db.boards[boardId].(members := m)] == db.boards;
  }

  /** `LeaveBoard`: anyone but the Owner may leave. The source's not-a-member
      branch cannot be reached once the precheck has admitted the caller. */
  function LeaveBoard(db: Db, boardId: int, caller: int): (r: Reply)
    ensures !Admitted(db, boardId, caller) ==> r == Rejected(db, boardId, caller)
    ensures r.status.Succeeded() <==> Admitted(db, boardId, caller) && Members(db, boardId)[caller] != Owner
    ensures Admitted(db, boardId, caller) && Members(db, boardId)[caller] == Owner ==>
      r == Reply(BadRequest(OwnerCannotLeave), db)
    ensures !r.status.Succeeded() ==> r.db == db
    ensures r.status.Succeeded() ==>
      r.status == NoContent && r.db == WithMembers(db, boardId, Members(db, boardId) - {caller})
  {
    if !Admitted(db, boardId, caller) then Rejected(db, boardId, caller)
    else
      var m := Members(db, boardId);
      if m[caller] == Owner then Reply(BadRequest(OwnerCannotLeave), db)
      else Reply(NoContent, WithMembers(db, boardId, m - {caller}))
  }

  /** Leaving keeps the owners, and afterwards the caller no longer passes
      the precheck. */
  lemma LeaveBoardKeepsOwners(db: Db, boardId: int, caller: int)
    requires boardId in db.boards
    ensures var r := LeaveBoard(db, boardId, caller);
      && Owners(Members(r.db, boardId)) == Owners(Members(db, boardId))
      && (r.status.Succeeded() ==> ValidateBoardAsync(r.db, boardId, caller) == Some(BoardAccessDenied(AccessDeniedMessage)))
  {
    var r := LeaveBoard(db, boardId, caller);
    if r.status.Succeeded() {
      OwnersRemove(Members(db, boardId), caller);
    }
  }

  /** "Exactly one Owner" survives removing, leaving and transferring, but
      not every membership action: see `AdminAddsSecondOwner` and
      `AdminDemotesOwner`. */
  lemma SoleOwnerKept(db: Db, boardId: int, caller: int, userId: int)
    requires boardId in db.boards && |Owners(Members(db, boardId))| == 1
    ensures |Owners(Members(RemoveMember(db, boardId, caller, userId).db, boardId))| == 1
    ensures |Owners(Members(LeaveBoard(db, boardId, caller).db, boardId))| == 1
    ensures |Owners(Members(TransferOwnership(db, boardId, caller, userId).db, boardId))| == 1
  {
    RemoveMemberKeepsOwners(db, boardId, caller, userId);
    LeaveBoardKeepsOwners(db, boardId, caller);
    if TransferOwnership(db, boardId, caller, userId).status.Succeeded() {
      SingletonHolds(Owners(Members(db, boardId)), caller);
      TransferOwnershipMovesOwner(db, boardId, caller, userId);
    }
  }

  /** A one-element set holding `a` is `{a}`. */
  lemma SingletonHolds(s: set<int>, a: int)
    requires |s| == 1 && a in s
    ensures s == {a}
  {
    var rest := s - {a};
    assert s == rest + {a};
    assert |rest| == 0;
    assert rest == {};
  }
}
