/** `toastMiddleware.ts`: which rejected requests raise an error toast, and
    the middleware that passes every action on. */
module ToastMiddleware {
  import opened Wrappers
  import opened Text

  /** `SILENT_ENDPOINTS`. */
  const SilentEndpoints: seq<string> := ["refresh-user-token", "getCurrentUser"]

  /** `SILENT_URL_PATTERNS`. */
  const SilentUrlPatterns: seq<string> := ["/api/auth/refresh-user-token"]

  /** A dispatched action, reduced to what the middleware reads:
      whether it is a rejection carrying a payload, `meta.arg.endpointName`,
      whether the payload has a `status` (a fetch error), and the `url`
      field of its `data` object when there is one. That field is taken to
      be a string; a non-string `url`, on which the source's `includes`
      throws, is not modelled. */
  datatype Action = Action(
    kind: string,
    rejectedWithValue: bool,
    endpointName: Option<string>,
    hasStatus: bool,
    dataUrl: Option<string>)

  /** An ASCII letter or digit: what `/[^a-z0-9]/gi` does not remove. */
  predicate IsAsciiAlnum(c: char) {
    ('a' <= c <= 'z') || ('A' <= c <= 'Z') || ('0' <= c <= '9')
  }

  /** `pattern.replace(/[^a-z0-9]/gi, "")`. */
  function StripNonAlnum(s: string): (r: string)
    ensures |r| <= |s|
    ensures forall i :: 0 <= i < |r| ==> IsAsciiAlnum(r[i])
  {
    if s == [] then ""
    else (if IsAsciiAlnum(s[0]) then [s[0]] else "") + StripNonAlnum(s[1..])
  }

  /** `patterns.some((p) => url.includes(p))`. */
  predicate SomeIncluded(url: string, patterns: seq<string>) {
    patterns != [] && (Includes(url, patterns[0]) || SomeIncluded(url, patterns[1..]))
  }

  /** The action-type test: the lower-cased type contains some pattern
      with its punctuation stripped, lower-cased. */
  predicate SomeStrippedIncluded(lowerKind: string, patterns: seq<string>) {
    patterns != [] && (Includes(lowerKind, Stripped(patterns[0])) || SomeStrippedIncluded(lowerKind, patterns[1..]))
  }

  /** The endpoint test; a missing or empty name skips it. */
  predicate SilencedByEndpoint(a: Action) {
    a.endpointName.Some? && a.endpointName.value != "" && a.endpointName.value in SilentEndpoints
  }

  /** The URL test, for fetch errors that carry a `data.url`. */
  predicate SilencedByUrl(a: Action) {
    a.hasStatus && a.dataUrl.Some? && SomeIncluded(a.dataUrl.value, SilentUrlPatterns)
  }

  /** The action-type test; an empty type skips it. */
  predicate SilencedByType(kind: string) {
    kind != "" && SomeStrippedIncluded(Lower(kind), SilentUrlPatterns)
  }

  /** `shouldShowToast`: the three silencing tests in turn. */
  function ShouldShowToast(a: Action): (show: bool)
    ensures a.endpointName == Some("getCurrentUser") || a.endpointName == Some("refresh-user-token") ==> !show
    ensures a.endpointName.None? && !a.hasStatus && a.kind == "" ==> show
  {
    if SilencedByEndpoint(a) then false
    else if SilencedByUrl(a) then false
    else if SilencedByType(a.kind) then false
    else true
  }

  /** What the action-type test looks for: a pattern with its punctuation
      stripped, lower-cased; for the silent path, `apiauthrefreshusertoken`. */
  function Stripped(pattern: string): string {
    Lower(StripNonAlnum(pattern))
  }

  /** How many letters and digits `s` holds from position `i` on. */
  function AlnumCount(s: string, i: nat): nat
    requires i <= |s|
    decreases |s| - i
  {
    if i == |s| then 0 else (if IsAsciiAlnum(s[i]) then 1 else 0) + AlnumCount(s, i + 1)
  }

  /** Stripping keeps exactly the letters and digits. */
  lemma {:induction false} StripLength(s: string, i: nat)
    requires i <= |s|
    ensures |StripNonAlnum(s[i..])| == AlnumCount(s, i)
    decreases |s| - i
  {
    if i < |s| {
      assert s[i..][1..] == s[i + 1..];
      StripLength(s, i + 1);
    }
  }

  /** Stripped and lower-cased, a pattern keeps one character for each
      letter or digit it holds, and never a `/`. */
  lemma StrippedShape(p: string)
    ensures |Stripped(p)| == AlnumCount(p, 0)
    ensures '/' !in Stripped(p)
  {
    StripLength(p, 0);
    assert p[0..] == p;
    var q := Stripped(p);
    forall k | 0 <= k < |q| ensures q[k] != '/' {
      assert IsAsciiAlnum(StripNonAlnum(p)[k]);
    }
  }

  /** The silent path holds 23 letters. */
  lemma PathAlnumCount()
    ensures AlnumCount(SilentUrlPatterns[0], 0) == 23
  {
    var p := SilentUrlPatterns[0];
    assert AlnumCount(p, 27) == 1;
    assert AlnumCount(p, 26) == 2;
    assert AlnumCount(p, 25) == 3;
    assert AlnumCount(p, 24) == 4;
    assert AlnumCount(p, 23) == 5;
    assert AlnumCount(p, 22) == 5;
    assert AlnumCount(p, 21) == 6;
    assert AlnumCount(p, 20) == 7;
    assert AlnumCount(p, 19) == 8;
    assert AlnumCount(p, 18) == 9;
    assert AlnumCount(p, 17) == 9;
    assert AlnumCount(p, 16) == 10;
    assert AlnumCount(p, 15) == 11;
    assert AlnumCount(p, 14) == 12;
    assert AlnumCount(p, 13) == 13;
    assert AlnumCount(p, 12) == 14;
    assert AlnumCount(p, 11) == 15;
    assert AlnumCount(p, 10) == 16;
    assert AlnumCount(p, 9) == 16;
    assert AlnumCount(p, 8) == 17;
    assert AlnumCount(p, 7) == 18;
    assert AlnumCount(p, 6) == 19;
    assert AlnumCount(p, 5) == 20;
    assert AlnumCount(p, 4) == 20;
    assert AlnumCount(p, 3) == 21;
    assert AlnumCount(p, 2) == 22;
    assert AlnumCount(p, 1) == 23;
    assert AlnumCount(p, 0) == 23;
  }

  /** The stripped pattern keeps the 23 letters of the path and none of
      its slashes. */
  lemma SilentPatternShape()
    ensures |Stripped(SilentUrlPatterns[0])| == 23
    ensures '/' !in Stripped(SilentUrlPatterns[0])
  {
    PathAlnumCount();
    StrippedShape(SilentUrlPatterns[0]);
  }

  lemma ShouldShowToastIff(a: Action)
    ensures !ShouldShowToast(a) <==>
      || (a.endpointName.Some? && a.endpointName.value in {"refresh-user-token", "getCurrentUser"})
      || (a.hasStatus && a.dataUrl.Some? && Includes(a.dataUrl.value, "/api/auth/refresh-user-token"))
      || Includes(Lower(a.kind), Stripped(SilentUrlPatterns[0]))
  {
    EndpointTest(a);
    UrlTest(a);
    TypeTest(a.kind);
  }

  lemma EndpointTest(a: Action)
    ensures SilencedByEndpoint(a) <==>
      a.endpointName.Some? && a.endpointName.value in {"refresh-user-token", "getCurrentUser"}
  {
  }

  lemma UrlTest(a: Action)
    ensures SilencedByUrl(a) <==>
      a.hasStatus && a.dataUrl.Some? && Includes(a.dataUrl.value, "/api/auth/refresh-user-token")
  {
    if a.dataUrl.Some? {
      OnePattern(a.dataUrl.value, SilentUrlPatterns);
    }
  }

  lemma TypeTest(kind: string)
    ensures SilencedByType(kind) <==> Includes(Lower(kind), Stripped(SilentUrlPatterns[0]))
  {
    SilentPatternShape();
    KindTest(kind, SilentUrlPatterns);
  }

  /** With a single pattern, the two `some` tests are plain inclusion
      tests. */
  lemma OnePattern(s: string, patterns: seq<string>)
    requires |patterns| == 1
    ensures SomeIncluded(s, patterns) <==> Includes(s, patterns[0])
    ensures SomeStrippedIncluded(s, patterns) <==> Includes(s, Stripped(patterns[0]))
  {
    assert patterns[1..] == [];
  }

  /** The type test, for a single pattern whose stripped form is not
      empty: an empty type can never contain it, so skipping the test for
      one changes nothing. */
  lemma KindTest(kind: string, patterns: seq<string>)
    requires |patterns| == 1 && Stripped(patterns[0]) != []
    ensures (kind != "" && SomeStrippedIncluded(Lower(kind), patterns))
        <==> Includes(Lower(kind), Stripped(patterns[0]))
  {
    OnePattern(Lower(kind), patterns);
    if kind == "" {
      assert forall i :: !OccursAt(Lower(kind), Stripped(patterns[0]), i);
    }
  }

  /** The path is already lower case. */
  lemma PathIsLowerCase()
    ensures Lower(SilentUrlPatterns[0]) == SilentUrlPatterns[0]
  {
    var p := SilentUrlPatterns[0];
    forall i | 0 <= i < |p| ensures AsciiLower(p[i]) == p[i] {
    }
  }

  /** A 28-character string with slashes at 4 and 9 contains no
      23-character string without a slash: every such window spans one of
      them. */
  lemma SlashInEveryWindow(s: string, sub: string)
    requires |s| == 28 && s[4] == '/' && s[9] == '/'
    requires |sub| == 23 && '/' !in sub
    ensures !Includes(s, sub)
  {
  }

  /** The path as written does not contain the stripped pattern. */
  lemma StrippedNotInPath()
    ensures !Includes(SilentUrlPatterns[0], Stripped(SilentUrlPatterns[0]))
  {
    var p := SilentUrlPatterns[0];
    assert |p| == 28 && p[4] == '/' && p[9] == '/';
    SilentPatternShape();
    SlashInEveryWindow(p, Stripped(SilentUrlPatterns[0]));
  }

  /** The type test does not match the path as written: a rejection whose
      type is `/api/auth/refresh-user-token` itself, with no endpoint name
      and no fetch status, still raises a toast. */
  lemma SlashedTypeStillToasts()
    ensures ShouldShowToast(Action("/api/auth/refresh-user-token", true, None, false, None))
  {
    assert SilentUrlPatterns[1..] == [];
    PathIsLowerCase();
    StrippedNotInPath();
  }

  /** What handling one action did: whether a toast was raised, and the
      actions handed to `next`. The toast's text (`getErrorMessage`) and
      `next`'s return value are not part of this model. */
  datatype Step = Step(toast: bool, forwarded: seq<Action>)

  /** `errorToastMiddleware`: a toast for a rejection with a payload that
      is not silenced, and the action passed on whatever happened. */
  function Handle(a: Action): (r: Step)
    ensures r.forwarded == [a]
    ensures r.toast ==> a.rejectedWithValue
  {
    Step(a.rejectedWithValue && ShouldShowToast(a), [a])
  }

  /** Handling a stream of actions: what reaches `next`, and how many
      toasts were raised. */
  function HandleAll(actions: seq<Action>): (seq<Action>, nat) {
    if actions == [] then ([], 0)
    else
      var step := Handle(actions[0]);
      var rest := HandleAll(actions[1..]);
      (step.forwarded + rest.0, (if step.toast then 1 else 0) + rest.1)
  }

  /** The actions that are rejections and not silenced. */
  function Toasted(actions: seq<Action>): nat {
    if actions == [] then 0
    else (if actions[0].rejectedWithValue && ShouldShowToast(actions[0]) then 1 else 0) + Toasted(actions[1..])
  }

  /** Every action reaches `next` exactly once and in order, and a toast is
      raised once per unsilenced rejection, never more than there are
      actions. */
  lemma {:induction false} HandleAllForwardsEach(actions: seq<Action>)
    ensures HandleAll(actions).0 == actions
    ensures HandleAll(actions).1 == Toasted(actions) <= |actions|
  {
    if actions != [] {
      HandleAllForwardsEach(actions[1..]);
      assert actions == [actions[0]] + actions[1..];
    }
  }
}
