/** `kanban/utils.ts`: the client's small helpers — shallow equality of
    form values, the role picker's options, and the email, label-title and
    admin-rights checks. */
module KanbanUtils {
  import opened Wrappers
  import opened Text
  import opened Store
  import opened BoardValidation
  import BoardMembers
  import Boards

  /** A JavaScript value as `Object.is` sees it. Objects are compared by
      identity, so they are represented by a reference. Floating-point
      numbers, where `Object.is` separates +0 from -0 and equates NaN with
      itself, are not part of this model. */
  datatype JsValue = Undefined | Null | Boolean(b: bool) | Number(n: int) | Text(s: string) | Object(ref: int)

  /** A plain object: its own keys and their values. */
  type Record = map<string, JsValue>

  /** Property access: a missing key reads as `undefined`. */
  function Get(o: Record, key: string): JsValue {
    if key in o then o[key] else Undefined
  }

  /** `isShallowEqual`: as many keys on both sides, and every key of the
      first reads the same value from the second. */
  function ShallowEqual(a: Record, b: Record): (eq: bool)
    ensures eq ==> forall k :: k in a && a[k] != Undefined ==> k in b && b[k] == a[k]
  {
    |a.Keys| == |b.Keys| && forall k :: k in a ==> Get(b, k) == a[k]
  }

  /** Different key counts are never equal, and every record equals
      itself. */
  lemma ShallowEqualBasics(a: Record, b: Record)
    ensures |a.Keys| != |b.Keys| ==> !ShallowEqual(a, b)
    ensures ShallowEqual(a, a)
  {
  }

  /** Not symmetric: `{a: undefined}` equals `{b: 1}`, because `b.a` reads
      `undefined`, but not the other way round. */
  lemma ShallowEqualNotSymmetric()
    ensures ShallowEqual(map["a" := Undefined], map["b" := Number(1)])
    ensures !ShallowEqual(map["b" := Number(1)], map["a" := Undefined])
  {
    var a: Record := map["a" := Undefined];
    var b: Record := map["b" := Number(1)];
    assert a.Keys == {"a"} && b.Keys == {"b"};
    assert Get(a, "b") == Undefined;
  }

  /** With no `undefined` values on the left, shallow equality is equality
      of the two records. */
  lemma ShallowEqualWithoutUndefined(a: Record, b: Record)
    requires forall k :: k in a ==> a[k] != Undefined
    ensures ShallowEqual(a, b) <==> a == b
  {
    if ShallowEqual(a, b) {
      assert a.Keys <= b.Keys by {
        forall k | k in a ensures k in b {
          assert Get(b, k) == a[k];
        }
      }
      SubsetOfSameSize(a.Keys, b.Keys);
      assert forall k :: k in b ==> b[k] == a[k] by {
        forall k | k in b ensures b[k] == a[k] {
          assert k in a;
          assert Get(b, k) == a[k];
        }
      }
    }
  }

  lemma SubsetOfSameSize<T>(x: set<T>, y: set<T>)
    requires x <= y && |x| == |y|
    ensures x == y
  {
    var d := y - x;
    assert |d| == |y| - |x| == 0;
    assert d == {};
    assert y == x + d;
  }

  /** The display label the picker shows for a role. */
  function RoleLabel(role: Role): string {
    match role
    case Owner => "Owner"
    case Admin => "Admin"
    case Member => "Member"
    case Observer => "Observer"
  }

  /** `getRoleOptions`: the four roles in picker order, without the
      current one. */
  function RoleOptions(current: Role): (r: seq<(Role, string)>)
    ensures |r| == 3
    ensures forall i :: 0 <= i < |r| ==> r[i].0 != current && r[i].1 == RoleLabel(r[i].0)
  {
    var all := [(Observer, "Observer"), (Member, "Member"), (Admin, "Admin"), (Owner, "Owner")];
    if current == Observer then all[1..]
    else if current == Member then [all[0]] + all[2..]
    else if current == Admin then all[..2] + [all[3]]
    else all[..3]
  }

  /** Picker order: Observer, Member, Admin, Owner. */
  function Rank(role: Role): int {
    match role
    case Observer => 0
    case Member => 1
    case Admin => 2
    case Owner => 3
  }

  /** Each role other than the current one is offered exactly once, in
      picker order. */
  lemma RoleOptionsOffersOthers(current: Role, role: Role)
    ensures var r := RoleOptions(current);
      && (forall i, j :: 0 <= i < j < |r| ==> Rank(r[i].0) < Rank(r[j].0))
      && (role != current <==> exists i :: 0 <= i < |r| && r[i].0 == role)
  {
    var r := RoleOptions(current);
    if role != current {
      if r[0].0 == role {
      } else if r[1].0 == role {
      } else {
        assert r[2].0 == role;
      }
    }
  }

  /** Where `c` first occurs in `s`, or -1. */
  function FindChar(s: string, c: char): (i: int)
    ensures -1 <= i < |s|
    ensures 0 <= i ==> s[i] == c
    ensures forall k :: 0 <= k < |s| && (i < 0 || k < i) ==> s[k] != c
  {
    if s == [] then -1
    else if s[0] == c then 0
    else
      var i := FindChar(s[1..], c);
      if i < 0 then -1 else i + 1
  }

  /** `[^\s@]+` once the length is known to be positive: no white space
      and no `@`. */
  predicate Plain(s: string) {
    forall k :: 0 <= k < |s| ==> !IsJsWhitespace(s[k]) && s[k] != '@'
  }

  /** `validateEmail`: split at the first `@`; the local part must be
      non-empty, and the domain must hold a `.` with text on both sides,
      with no white space and no second `@` anywhere. */
  function ValidateEmail(email: string): (ok: bool)
    ensures ok ==> '@' in email && |email| >= 5
  {
    var at := FindChar(email, '@');
    if at <= 0 then false
    else
      var domain := email[at + 1..];
      Plain(email[..at]) && Plain(domain) && exists j :: 0 < j < |domain| - 1 && domain[j] == '.'
  }

  /** The regular expression `^[^\s@]+@[^\s@]+\.[^\s@]+$`, read as a
      statement about where its `@` and `.` fall. */
  predicate EmailPattern(s: string) {
    exists i, j :: 0 < i && i + 1 < j && j + 1 < |s| && s[i] == '@' && s[j] == '.'
      && Plain(s[..i]) && Plain(s[i + 1..j]) && Plain(s[j + 1..])
  }

  /** The check accepts exactly the strings the regular expression
      matches. */
  lemma ValidateEmailIff(email: string)
    ensures ValidateEmail(email) <==> EmailPattern(email)
  {
    if ValidateEmail(email) {
      ValidEmailMatches(email);
    }
    if EmailPattern(email) {
      var i, j :| 0 < i && i + 1 < j && j + 1 < |email| && email[i] == '@' && email[j] == '.'
        && Plain(email[..i]) && Plain(email[i + 1..j]) && Plain(email[j + 1..]);
      MatchIsValid(email, i, j);
    }
  }

  lemma ValidEmailMatches(email: string)
    requires ValidateEmail(email)
    ensures EmailPattern(email)
  {
    var at := FindChar(email, '@');
    var domain := email[at + 1..];
    var j :| 0 < j < |domain| - 1 && domain[j] == '.';
    var dot := at + 1 + j;
    assert email[at + 1..dot] == domain[..j];
    assert email[dot + 1..] == domain[j + 1..];
    assert email[dot] == '.';
    assert Plain(email[at + 1..dot]) && Plain(email[dot + 1..]);
  }

  lemma MatchIsValid(email: string, i: int, j: int)
    requires 0 < i && i + 1 < j && j + 1 < |email| && email[i] == '@' && email[j] == '.'
    requires Plain(email[..i]) && Plain(email[i + 1..j]) && Plain(email[j + 1..])
    ensures ValidateEmail(email)
  {
    var at := FindChar(email, '@');
    assert at == i by {
      assert forall k :: 0 <= k < i ==> email[k] == email[..i][k];
    }
    var domain := email[at + 1..];
    assert domain[j - i - 1] == '.';
    assert Plain(domain) by {
      forall k | 0 <= k < |domain| ensures !IsJsWhitespace(domain[k]) && domain[k] != '@' {
        if k < j - i - 1 {
          assert domain[k] == email[i + 1..j][k];
        } else if k > j - i - 1 {
          assert domain[k] == email[j + 1..][k - (j - i)];
        }
      }
    }
  }

  /** `validateLabelTitle`: something besides white space, and at most 50
      UTF-16 code units as typed. */
  function ValidateLabelTitle(title: string): (ok: bool)
    ensures ok ==> 1 <= |title| <= 50
  {
    TrimEmptyIff(title, IsJsWhitespace);
    |Trim(title, IsJsWhitespace)| > 0 && Utf16Length(title) <= 50
  }

  lemma ValidateLabelTitleIff(title: string)
    ensures ValidateLabelTitle(title) <==>
      (exists i :: 0 <= i < |title| && !IsJsWhitespace(title[i])) && Utf16Length(title) <= 50
  {
    TrimEmptyIff(title, IsJsWhitespace);
  }

  /** A board member as the client holds it. */
  datatype ClientMember = ClientMember(userId: int, role: Role)

  /** `hasBoardAdminRights`: a member is given and is Owner or Admin. */
  function HasBoardAdminRights(member: Option<ClientMember>): (b: bool)
    ensures b ==> member.Some?
  {
    member.Some? && (member.value.role == Owner || member.value.role == Admin)
  }

  /** The client's gate agrees with the server's: for a member of the
      board, the edit controls are shown exactly when the server would
      accept an update of the board. */
  lemma AdminRightsMatchServer(db: Db, boardId: int, caller: int, title: string, description: Option<string>)
    requires Admitted(db, boardId, caller)
    ensures var member := ClientMember(caller, BoardMembers.Members(db, boardId)[caller]);
      HasBoardAdminRights(Some(member)) <==>
        Boards.UpdateBoard(db, boardId, caller, title, description).status.Succeeded()
  {
  }
}
