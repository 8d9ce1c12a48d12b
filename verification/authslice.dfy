/** `authSlice.ts`: the client's session state and its five reducers. */
module AuthSlice {
  import opened Wrappers

  datatype AppUser = AppUser(id: int, email: string)

  /** What the verify-email page needs: the address and the server's first
      reply (`TitleMessageResponse`). */
  datatype VerifyEmailData = VerifyEmailData(email: string, title: string, message: string)

  /** `null` and `undefined` fields are both `None`. */
  datatype AuthState = AuthState(token: Option<string>, user: Option<AppUser>, verifyEmailData: Option<VerifyEmailData>)

  datatype AuthAction =
    | SetToken(token: string)
    | Logout
    | SetUser(user: AppUser)
    | SetVerifyEmailData(data: VerifyEmailData)
    | ClearVerifyEmailData

  /** `initialState`: signed out, nothing pending. */
  const Initial := AuthState(None, None, None)

  /** The slice's reducer: each action writes only its own fields. */
  function Reduce(s: AuthState, a: AuthAction): (r: AuthState)
    ensures r.token != s.token ==> a.SetToken? || a.Logout?
    ensures r.user != s.user ==> a.SetUser? || a.Logout?
    ensures r.verifyEmailData != s.verifyEmailData ==> a.SetVerifyEmailData? || a.ClearVerifyEmailData?
    ensures a.Logout? ==> r.token.None? && r.user.None?
  {
    match a
    case SetToken(token) => s.(token := Some(token))
    case Logout => s.(token := None, user := None)
    case SetUser(user) => s.(user := Some(user))
    case SetVerifyEmailData(data) => s.(verifyEmailData := Some(data))
    case ClearVerifyEmailData => s.(verifyEmailData := None)
  }

  /** Dispatching `actions` in order. */
  function Run(s: AuthState, actions: seq<AuthAction>): (r: AuthState)
    ensures (forall i :: 0 <= i < |actions| ==> !actions[i].SetToken? && !actions[i].Logout?) ==> r.token == s.token
    ensures (forall i :: 0 <= i < |actions| ==> !actions[i].SetUser? && !actions[i].Logout?) ==> r.user == s.user
    ensures (forall i :: 0 <= i < |actions| ==> !actions[i].SetVerifyEmailData? && !actions[i].ClearVerifyEmailData?) ==>
      r.verifyEmailData == s.verifyEmailData
    decreases |actions|
  {
    if actions == [] then s
    else
      assert forall i :: 0 <= i < |actions| - 1 ==> actions[1..][i] == actions[i + 1];
      Run(Reduce(s, actions[0]), actions[1..])
  }

  /** The token as the last action that speaks of it left it: the payload
      of a `setToken`, nothing after a `logout`, otherwise `start`. */
  function LastToken(actions: seq<AuthAction>, start: Option<string>): Option<string> {
    if actions == [] then start
    else match actions[|actions| - 1]
      case SetToken(token) => Some(token)
      case Logout => None
      case _ => LastToken(actions[..|actions| - 1], start)
  }

  /** The user, likewise: `setUser` sets it, `logout` clears it. */
  function LastUser(actions: seq<AuthAction>, start: Option<AppUser>): Option<AppUser> {
    if actions == [] then start
    else match actions[|actions| - 1]
      case SetUser(user) => Some(user)
      case Logout => None
      case _ => LastUser(actions[..|actions| - 1], start)
  }

  /** The pending verification, likewise: only its own two actions touch
      it; `logout` does not. */
  function LastVerify(actions: seq<AuthAction>, start: Option<VerifyEmailData>): Option<VerifyEmailData> {
    if actions == [] then start
    else match actions[|actions| - 1]
      case SetVerifyEmailData(data) => Some(data)
      case ClearVerifyEmailData => None
      case _ => LastVerify(actions[..|actions| - 1], start)
  }

  lemma {:induction false} RunSnoc(s: AuthState, actions: seq<AuthAction>, a: AuthAction)
    ensures Run(s, actions + [a]) == Reduce(Run(s, actions), a)
    decreases |actions|
  {
    if actions == [] {
      assert ([] + [a])[1..] == [];
    } else {
      assert (actions + [a])[1..] == actions[1..] + [a];
      RunSnoc(Reduce(s, actions[0]), actions[1..], a);
    }
  }

  /** After any sequence of actions each field holds what the last action
      touching it wrote, or its starting value. */
  lemma {:induction false} RunIsLastWrite(s: AuthState, actions: seq<AuthAction>)
    ensures Run(s, actions) == AuthState(
      LastToken(actions, s.token), LastUser(actions, s.user), LastVerify(actions, s.verifyEmailData))
    decreases |actions|
  {
    if actions != [] {
      var init := actions[..|actions| - 1];
      RunIsLastWrite(s, init);
      RunSnoc(s, init, actions[|actions| - 1]);
      assert init + [actions[|actions| - 1]] == actions;
    }
  }

  /** `logout` signs out but leaves a pending email verification alone. */
  lemma LogoutKeepsVerification(s: AuthState)
    ensures Reduce(s, Logout) == AuthState(None, None, s.verifyEmailData)
    ensures Reduce(Reduce(s, Logout), Logout) == Reduce(s, Logout)
  {
  }

  /** Setting then clearing the verification data returns it to `undefined`
      and touches neither token nor user. */
  lemma SetThenClearVerification(s: AuthState, data: VerifyEmailData)
    ensures Run(s, [SetVerifyEmailData(data), ClearVerifyEmailData]) == s.(verifyEmailData := None)
  {
    var actions := [SetVerifyEmailData(data), ClearVerifyEmailData];
    var s1 := Reduce(s, actions[0]);
    assert actions[1..] == [ClearVerifyEmailData] && actions[1..][1..] == [];
    assert Run(s, actions) == Run(s1, [ClearVerifyEmailData]);
    assert Run(s1, [ClearVerifyEmailData]) == Run(Reduce(s1, ClearVerifyEmailData), []);
  }
}
