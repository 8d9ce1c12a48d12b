/** The board page's filter and sort pass (`Board.tsx`): each column keeps
    its place and its fields, and only its card list is narrowed by the
    search box, the standard filter and the label filter, then optionally
    sorted by comment count. */
module BoardView {
  import opened Wrappers
  import opened Text

  /** `BriefCard` as the page sees it; labels and assignees by id. */
  datatype BriefCard = BriefCard(
    id: int,
    title: string,
    description: Option<string>,
    labels: seq<int>,
    assignees: seq<int>,
    commentsCount: int)

  /** A `Column` of the board the page was given. */
  datatype ViewColumn = ViewColumn(id: int, title: string, position: int, cards: seq<BriefCard>)

  datatype FilterOption = All | HasComments | HasAssignees

  /** Sorting by name uses `localeCompare` and is not part of this model. */
  datatype SortOption = NoSort | ByComments

  /** One test a card can be kept by. */
  datatype Test =
    | Mentions(q: string)     // lower-cased title or description contains q
    | Commented
    | Assigned
    | Labelled(labelId: int)

  predicate Passes(card: BriefCard, t: Test) {
    match t
    case Mentions(q) =>
      Includes(Lower(card.title), q) || (card.description.Some? && Includes(Lower(card.description.value), q))
    case Commented => card.commentsCount > 0
    case Assigned => |card.assignees| > 0
    case Labelled(labelId) => labelId in card.labels
  }

  predicate PassesAll(card: BriefCard, tests: seq<Test>) {
    tests == [] || (Passes(card, tests[0]) && PassesAll(card, tests[1..]))
  }

  /** The cards that pass every test, in their original order. */
  function KeepAll(cards: seq<BriefCard>, tests: seq<Test>): (r: seq<BriefCard>)
    ensures |r| <= |cards|
    ensures forall x :: x in r ==> x in cards
  {
    if cards == [] then []
    else (if PassesAll(cards[0], tests) then [cards[0]] else []) + KeepAll(cards[1..], tests)
  }

  /** `a` is `b` with some elements left out. */
  predicate IsSubsequence(a: seq<BriefCard>, b: seq<BriefCard>) {
    a == [] || (b != [] && ((a[0] == b[0] && IsSubsequence(a[1..], b[1..])) || IsSubsequence(a, b[1..])))
  }

  /** A non-empty trimmed query turns the search on (`searchQuery.trim()`). */
  predicate Searching(query: string) {
    |Trim(query, IsJsWhitespace)| > 0
  }

  /** `if (selectedLabelId)`: null and 0 both leave the label filter off. */
  predicate Labelling(labelId: Option<int>) {
    labelId.Some? && labelId.value != 0
  }

  /** The three filter steps, each applied to the previous one's output.
      The search matches the lower-cased query as typed, untrimmed. */
  function Filtered(cards: seq<BriefCard>, query: string, filterBy: FilterOption, labelId: Option<int>): (r: seq<BriefCard>)
    ensures |r| <= |cards|
    ensures forall x :: x in r ==> x in cards
  {
    var searched := if Searching(query) then KeepAll(cards, [Mentions(Lower(query))]) else cards;
    var standard :=
      if filterBy == All then searched
      else KeepAll(searched, [if filterBy == HasComments then Commented else Assigned]);
    if Labelling(labelId) then KeepAll(standard, [Labelled(labelId.value)]) else standard
  }

  /** Inserts `x` before the first card with no more comments than it has,
      so that among equal counts the earlier card stays first. */
  function InsertByComments(x: BriefCard, s: seq<BriefCard>): (r: seq<BriefCard>)
    ensures |r| == |s| + 1
    ensures forall y :: y in r <==> y == x || y in s
  {
    if s == [] || x.commentsCount >= s[0].commentsCount then [x] + s
    else [s[0]] + InsertByComments(x, s[1..])
  }

  /** `[...cards].sort((a, b) => b.commentsCount - a.commentsCount)`: a
      stable sort, most comments first. */
  function SortByComments(s: seq<BriefCard>): (r: seq<BriefCard>)
    ensures |r| == |s|
    ensures forall y :: y in r <==> y in s
  {
    if s == [] then [] else InsertByComments(s[0], SortByComments(s[1..]))
  }

  function ViewCards(cards: seq<BriefCard>, query: string, filterBy: FilterOption, labelId: Option<int>, sortBy: SortOption): (r: seq<BriefCard>)
    ensures |r| <= |cards|
    ensures forall x :: x in r ==> x in cards
  {
    var f := Filtered(cards, query, filterBy, labelId);
    if sortBy == ByComments then SortByComments(f) else f
  }

  /** The `useEffect` at the heart of the page: every column is kept, in
      its place and with its fields, and only its cards are recomputed. */
  function FilteredColumns(columns: seq<ViewColumn>, query: string, filterBy: FilterOption, labelId: Option<int>, sortBy: SortOption): (r: seq<ViewColumn>)
    ensures |r| == |columns|
    ensures forall i {:trigger r[i]} :: 0 <= i < |r| ==>
      && r[i].id == columns[i].id && r[i].title == columns[i].title && r[i].position == columns[i].position
      && r[i].cards == ViewCards(columns[i].cards, query, filterBy, labelId, sortBy)
  {
    seq(|columns|, i requires 0 <= i < |columns| =>
      columns[i].(cards := ViewCards(columns[i].cards, query, filterBy, labelId, sortBy)))
  }

  /** The tests in force, in the order the page applies them. */
  function ActiveTests(query: string, filterBy: FilterOption, labelId: Option<int>): seq<Test> {
    (if Searching(query) then [Mentions(Lower(query))] else [])
    + (if filterBy == All then [] else [if filterBy == HasComments then Commented else Assigned])
    + (if Labelling(labelId) then [Labelled(labelId.value)] else [])
  }

  lemma {:induction false} KeepNone(cards: seq<BriefCard>)
    ensures KeepAll(cards, []) == cards
  {
    if cards != [] {
      KeepNone(cards[1..]);
    }
  }

  lemma {:induction false} PassesBoth(x: BriefCard, tests: seq<Test>, more: seq<Test>)
    ensures PassesAll(x, tests + more) <==> PassesAll(x, tests) && PassesAll(x, more)
  {
    if tests == [] {
      assert tests + more == more;
    } else {
      assert (tests + more)[1..] == tests[1..] + more;
      PassesBoth(x, tests[1..], more);
    }
  }

  /** Filtering twice is filtering once by both sets of tests. */
  lemma {:induction false} KeepTwice(cards: seq<BriefCard>, tests: seq<Test>, more: seq<Test>)
    ensures KeepAll(KeepAll(cards, tests), more) == KeepAll(cards, tests + more)
  {
    if cards != [] {
      var x := cards[0];
      var rest := KeepAll(cards[1..], tests);
      PassesBoth(x, tests, more);
      KeepTwice(cards[1..], tests, more);
      if PassesAll(x, tests) {
        assert KeepAll(cards, tests) == [x] + rest;
        assert ([x] + rest)[1..] == rest;
        assert KeepAll([x] + rest, more) == (if PassesAll(x, more) then [x] else []) + KeepAll(rest, more);
      } else {
        assert KeepAll(cards, tests) == rest;
      }
    }
  }

  /** A card is kept exactly when it is there and passes every test. */
  lemma {:induction false} KeepMembership(cards: seq<BriefCard>, tests: seq<Test>, x: BriefCard)
    ensures x in KeepAll(cards, tests) <==> x in cards && PassesAll(x, tests)
  {
    if cards != [] {
      KeepMembership(cards[1..], tests, x);
      assert x in cards <==> x == cards[0] || x in cards[1..];
    }
  }

  /** The step-by-step filters equal one pass over the active tests. */
  lemma FilteredIsOnePass(cards: seq<BriefCard>, query: string, filterBy: FilterOption, labelId: Option<int>)
    ensures Filtered(cards, query, filterBy, labelId) == KeepAll(cards, ActiveTests(query, filterBy, labelId))
  {
    var a := if Searching(query) then [Mentions(Lower(query))] else [];
    var b := if filterBy == All then [] else [if filterBy == HasComments then Commented else Assigned];
    var c := if Labelling(labelId) then [Labelled(labelId.value)] else [];
    var searched := if Searching(query) then KeepAll(cards, [Mentions(Lower(query))]) else cards;
    assert searched == KeepAll(cards, a) by {
      KeepNone(cards);
    }
    var standard :=
      if filterBy == All then searched
      else KeepAll(searched, [if filterBy == HasComments then Commented else Assigned]);
    assert standard == KeepAll(cards, a + b) by {
      KeepTwice(cards, a, b);
      if filterBy == All {
        KeepNone(searched);
        assert a + b == a;
      }
    }
    assert Filtered(cards, query, filterBy, labelId) == KeepAll(cards, a + b + c) by {
      KeepTwice(cards, a + b, c);
      if !Labelling(labelId) {
        KeepNone(standard);
        assert a + b + c == a + b;
      }
    }
  }

  /** A card is shown exactly when it is in the column and passes each
      filter that is on. */
  lemma FilteredMembership(cards: seq<BriefCard>, query: string, filterBy: FilterOption, labelId: Option<int>, x: BriefCard)
    ensures x in Filtered(cards, query, filterBy, labelId) <==>
      && x in cards
      && (Searching(query) ==> Includes(Lower(x.title), Lower(query))
                               || (x.description.Some? && Includes(Lower(x.description.value), Lower(query))))
      && (filterBy == HasComments ==> x.commentsCount > 0)
      && (filterBy == HasAssignees ==> |x.assignees| > 0)
      && (Labelling(labelId) ==> labelId.value in x.labels)
  {
    FilteredIsOnePass(cards, query, filterBy, labelId);
    var a := if Searching(query) then [Mentions(Lower(query))] else [];
    var b := if filterBy == All then [] else [if filterBy == HasComments then Commented else Assigned];
    var c := if Labelling(labelId) then [Labelled(labelId.value)] else [];
    KeepMembership(cards, a + b + c, x);
    PassesBoth(x, a + b, c);
    PassesBoth(x, a, b);
    if Searching(query) {
      PassesOne(x, Mentions(Lower(query)));
    }
    if filterBy != All {
      PassesOne(x, if filterBy == HasComments then Commented else Assigned);
    }
    if Labelling(labelId) {
      PassesOne(x, Labelled(labelId.value));
    }
  }

  lemma PassesOne(x: BriefCard, t: Test)
    ensures PassesAll(x, [t]) <==> Passes(x, t)
  {
    assert [t][1..] == [];
  }

  lemma {:induction false} KeepIsSubsequence(cards: seq<BriefCard>, tests: seq<Test>)
    ensures IsSubsequence(KeepAll(cards, tests), cards)
  {
    if cards != [] {
      var rest := KeepAll(cards[1..], tests);
      KeepIsSubsequence(cards[1..], tests);
      if PassesAll(cards[0], tests) {
        assert KeepAll(cards, tests) == [cards[0]] + rest;
        assert ([cards[0]] + rest)[1..] == rest;
      } else {
        assert KeepAll(cards, tests) == rest;
      }
    }
  }

  /** Cards sorted with the most comments first. */
  predicate MostCommentedFirst(s: seq<BriefCard>) {
    forall i, j :: 0 <= i < j < |s| ==> s[i].commentsCount >= s[j].commentsCount
  }

  /** The cards of `s` with exactly `n` comments, in order. */
  function WithCount(s: seq<BriefCard>, n: int): seq<BriefCard> {
    if s == [] then [] else (if s[0].commentsCount == n then [s[0]] else []) + WithCount(s[1..], n)
  }

  lemma {:induction false} InsertPermutes(x: BriefCard, s: seq<BriefCard>)
    ensures multiset(InsertByComments(x, s)) == multiset(s) + multiset{x}
  {
    if s != [] && x.commentsCount < s[0].commentsCount {
      InsertPermutes(x, s[1..]);
      assert s == [s[0]] + s[1..];
    }
  }

  lemma {:induction false} InsertKeepsOrder(x: BriefCard, s: seq<BriefCard>)
    requires MostCommentedFirst(s)
    ensures MostCommentedFirst(InsertByComments(x, s))
  {
    if s != [] && x.commentsCount < s[0].commentsCount {
      InsertKeepsOrder(x, s[1..]);
      InsertPermutes(x, s[1..]);
      var r := InsertByComments(x, s[1..]);
      forall j | 0 <= j < |r| ensures s[0].commentsCount >= r[j].commentsCount {
        assert r[j] in multiset(r);
        assert r[j] == x || r[j] in multiset(s[1..]);
        if r[j] != x {
          var k :| 0 <= k < |s[1..]| && s[1..][k] == r[j];
          assert s[k + 1] == r[j];
        }
      }
    }
  }

  lemma {:induction false} InsertStable(x: BriefCard, s: seq<BriefCard>, n: int)
    ensures WithCount(InsertByComments(x, s), n) == (if x.commentsCount == n then [x] else []) + WithCount(s, n)
  {
    if s == [] || x.commentsCount >= s[0].commentsCount {
      assert ([x] + s)[1..] == s;
      assert WithCount([x] + s, n) == (if x.commentsCount == n then [x] else []) + WithCount(s, n);
    } else {
      var r := InsertByComments(x, s[1..]);
      var head := if s[0].commentsCount == n then [s[0]] else [];
      InsertStable(x, s[1..], n);
      assert ([s[0]] + r)[1..] == r;
      assert WithCount([s[0]] + r, n) == head + WithCount(r, n);
      assert WithCount(s, n) == head + WithCount(s[1..], n);
      assert x.commentsCount == n ==> head == [];
    }
  }

  /** The comment sort is a stable sort, most comments first: it reorders
      the cards without adding or losing any, and cards with the same
      count keep their relative order. */
  lemma {:induction false} SortByCommentsSorts(s: seq<BriefCard>)
    ensures MostCommentedFirst(SortByComments(s))
    ensures multiset(SortByComments(s)) == multiset(s)
    ensures forall n :: WithCount(SortByComments(s), n) == WithCount(s, n)
  {
    if s != [] {
      SortByCommentsSorts(s[1..]);
      InsertKeepsOrder(s[0], SortByComments(s[1..]));
      InsertPermutes(s[0], SortByComments(s[1..]));
      assert s == [s[0]] + s[1..];
      forall n ensures WithCount(SortByComments(s), n) == WithCount(s, n) {
        InsertStable(s[0], SortByComments(s[1..]), n);
      }
    }
  }

  /** What a column shows: without sorting, a subsequence of its cards in
      the server's order; sorted by comments, the same filtered cards
      reordered stably by descending count. */
  lemma ViewCardsShape(cards: seq<BriefCard>, query: string, filterBy: FilterOption, labelId: Option<int>, sortBy: SortOption)
    ensures var f := Filtered(cards, query, filterBy, labelId);
      var r := ViewCards(cards, query, filterBy, labelId, sortBy);
      && (sortBy == NoSort ==> r == f && IsSubsequence(r, cards))
      && (sortBy == ByComments ==>
            && MostCommentedFirst(r) && multiset(r) == multiset(f)
            && forall n :: WithCount(r, n) == WithCount(f, n))
  {
    FilteredIsOnePass(cards, query, filterBy, labelId);
    KeepIsSubsequence(cards, ActiveTests(query, filterBy, labelId));
    SortByCommentsSorts(Filtered(cards, query, filterBy, labelId));
  }

  /** With every filter off and no sorting the page shows the board as
      given. */
  lemma NothingSelectedShowsAll(columns: seq<ViewColumn>, query: string)
    requires !Searching(query)
    ensures FilteredColumns(columns, query, All, None, NoSort) == columns
  {
    var r := FilteredColumns(columns, query, All, None, NoSort);
    forall i | 0 <= i < |columns| ensures r[i] == columns[i] {
      KeepNone(columns[i].cards);
      assert Filtered(columns[i].cards, query, All, None) == columns[i].cards;
    }
  }
}
