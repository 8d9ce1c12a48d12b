/** Positioned children: the rows of the Cards table (parent = ColumnId) and
    of the Columns table (parent = BoardId) each carry an integer Position
    among their siblings. A table is modelled as the sequence of its rows in
    storage order; the reorder algorithms of the controllers are stated here
    once, over that generic shape. */
module Positions {
  import opened Wrappers

  /** One row: primary key, foreign key to the parent, and position. */
  datatype Row = Row(id: int, parent: int, position: int)

  /** Primary-key uniqueness of a table (or of a list drawn from one). */
  predicate UniqueIds(s: seq<Row>) {
    forall i, j :: 0 <= i < j < |s| ==> s[i].id != s[j].id
  }

  /** Index of the first row with key `id`, or -1. */
  function IndexOf(s: seq<Row>, id: int): (k: int)
    ensures -1 <= k < |s|
    ensures 0 <= k ==> s[k].id == id && forall j :: 0 <= j < k ==> s[j].id != id
    ensures k < 0 ==> forall j :: 0 <= j < |s| ==> s[j].id != id
  {
    if s == [] then -1
    else if s[0].id == id then 0
    else
      var k := IndexOf(s[1..], id);
      if k < 0 then -1 else k + 1
  }

  predicate HasId(s: seq<Row>, id: int) {
    IndexOf(s, id) >= 0
  }

  /** `FirstOrDefault(r => r.Id == id)`. */
  function Find(s: seq<Row>, id: int): (r: Option<Row>)
    ensures r.Some? <==> HasId(s, id)
    ensures r.Some? ==> r.value in s && r.value.id == id
  {
    var k := IndexOf(s, id);
    if k < 0 then None else Some(s[k])
  }

  /** `FirstOrDefault(r => r.Id == id && r.Parent == p)`. */
  function FindUnder(s: seq<Row>, p: int, id: int): (r: Option<Row>)
    ensures r.Some? ==> r.value in s && r.value.id == id && r.value.parent == p
    ensures r.None? ==> forall x :: x in s && x.id == id ==> x.parent != p
  {
    if s == [] then None
    else if s[0].id == id && s[0].parent == p then Some(s[0])
    else FindUnder(s[1..], p, id)
  }

  /** With unique keys, the row found for a key is the only one carrying it. */
  lemma IndexOfUnique(s: seq<Row>, i: int)
    requires UniqueIds(s) && 0 <= i < |s|
    ensures IndexOf(s, s[i].id) == i
  {
  }

  /** `Where(r => r.Parent == p)`: the children of `p`, in storage order. */
  function Children(t: seq<Row>, p: int): (c: seq<Row>)
    ensures |c| <= |t|
    ensures forall r {:trigger r in c} :: r in c <==> r in t && r.parent == p
  {
    if t == [] then []
    else (if t[0].parent == p then [t[0]] else []) + Children(t[1..], p)
  }

  /** `Where(r => r.Parent != p)`: the rows outside `p`, in storage order. */
  function NotUnder(t: seq<Row>, p: int): (c: seq<Row>)
    ensures |c| <= |t|
    ensures forall r {:trigger r in c} :: r in c <==> r in t && r.parent != p
  {
    if t == [] then []
    else (if t[0].parent != p then [t[0]] else []) + NotUnder(t[1..], p)
  }

  lemma {:induction false} NotUnderUnique(t: seq<Row>, p: int)
    requires UniqueIds(t)
    ensures UniqueIds(NotUnder(t, p))
  {
    if t != [] {
      NotUnderUnique(t[1..], p);
      var rest := NotUnder(t[1..], p);
      forall r | r in rest ensures r.id != t[0].id {
        assert r in t[1..];
      }
    }
  }

  /** The rows whose parent is a key of `ps`. */
  function UnderAny(t: seq<Row>, ps: seq<Row>): (r: seq<Row>)
    ensures |r| <= |t|
    ensures forall x {:trigger x in r} :: x in r <==> x in t && HasId(ps, x.parent)
  {
    if t == [] then []
    else (if HasId(ps, t[0].parent) then [t[0]] else []) + UnderAny(t[1..], ps)
  }

  /** The rows whose parent is no key of `ps`: what survives when the
      database cascades the deletion of the rows of `ps` to their children. */
  function NotUnderAny(t: seq<Row>, ps: seq<Row>): (r: seq<Row>)
    ensures forall x {:trigger x in r} :: x in r <==> x in t && !HasId(ps, x.parent)
  {
    if t == [] then []
    else (if !HasId(ps, t[0].parent) then [t[0]] else []) + NotUnderAny(t[1..], ps)
  }

  lemma {:induction false} NotUnderAnyUnique(t: seq<Row>, ps: seq<Row>)
    requires UniqueIds(t)
    ensures UniqueIds(NotUnderAny(t, ps))
  {
    if t != [] {
      NotUnderAnyUnique(t[1..], ps);
      var rest := NotUnderAny(t[1..], ps);
      forall x | x in rest ensures x.id != t[0].id {
        assert x in t[1..];
      }
    }
  }

  /** Rows under the first key of `ps` and rows under the rest are told
      apart when the first key does not recur. */
  lemma {:induction false} UnderAnySplit(t: seq<Row>, ps: seq<Row>)
    requires |ps| > 0 && !HasId(ps[1..], ps[0].id)
    ensures |UnderAny(t, ps)| == |Children(t, ps[0].id)| + |UnderAny(t, ps[1..])|
  {
    if t != [] {
      UnderAnySplit(t[1..], ps);
      assert HasId(ps, t[0].parent) <==> t[0].parent == ps[0].id || HasId(ps[1..], t[0].parent);
    }
  }

  lemma {:induction false} ChildrenUnique(t: seq<Row>, p: int)
    requires UniqueIds(t)
    ensures UniqueIds(Children(t, p))
  {
    if t != [] {
      ChildrenUnique(t[1..], p);
      var rest := Children(t[1..], p);
      forall r | r in rest ensures r.id != t[0].id {
        assert r in t[1..];
      }
    }
  }

  lemma {:induction false} ChildrenAppend(t: seq<Row>, x: Row, p: int)
    ensures Children(t + [x], p) == Children(t, p) + (if x.parent == p then [x] else [])
  {
    var tail := if x.parent == p then [x] else [];
    if t == [] {
      assert t + [x] == [x] && [x][1..] == [];
    } else {
      var u := t + [x];
      assert u[0] == t[0] && u[1..] == t[1..] + [x];
      ChildrenAppend(t[1..], x, p);
      var head := if t[0].parent == p then [t[0]] else [];
      calc {
        Children(u, p);
        head + Children(u[1..], p);
        head + (Children(t[1..], p) + tail);
        (head + Children(t[1..], p)) + tail;
        Children(t, p) + tail;
      }
    }
  }

  predicate SortedByPosition(s: seq<Row>) {
    forall i, j :: 0 <= i < j < |s| ==> s[i].position <= s[j].position
  }

  /** No two rows of `s` share a position. */
  predicate DistinctPositions(s: seq<Row>) {
    forall i, j :: 0 <= i < j < |s| ==> s[i].position != s[j].position
  }

  /** `list.Insert(k, x)`. */
  function InsertAt(s: seq<Row>, k: int, x: Row): (r: seq<Row>)
    requires 0 <= k <= |s|
    ensures |r| == |s| + 1 && r[k] == x
    ensures forall i {:trigger r[i]} :: 0 <= i < k ==> r[i] == s[i]
    ensures forall i {:trigger r[i]} :: k < i < |r| ==> r[i] == s[i - 1]
  {
    s[..k] + [x] + s[k..]
  }

  lemma InsertAtMembers(s: seq<Row>, k: int, x: Row)
    requires 0 <= k <= |s|
    ensures forall y :: y in InsertAt(s, k, x) <==> y == x || y in s
    ensures multiset(InsertAt(s, k, x)) == multiset(s) + multiset{x}
  {
    assert s == s[..k] + s[k..];
  }

  /** Number of leading rows whose position is below `pos`. */
  function CountBelow(s: seq<Row>, pos: int): (k: nat)
    requires SortedByPosition(s)
    ensures k <= |s|
    ensures forall i :: 0 <= i < k ==> s[i].position < pos
    ensures forall i :: k <= i < |s| ==> s[i].position >= pos
  {
    if s == [] || s[0].position >= pos then 0 else 1 + CountBelow(s[1..], pos)
  }

  /** Inserts `x` before every row whose position is at least its own, so
      rows of equal position keep their order (a stable insertion). */
  function InsertByPosition(x: Row, s: seq<Row>): (r: seq<Row>)
    requires SortedByPosition(s)
    ensures SortedByPosition(r)
    ensures |r| == |s| + 1
    ensures forall y {:trigger y in r} :: y in r <==> y == x || y in s
  {
    InsertAtMembers(s, CountBelow(s, x.position), x);
    InsertAt(s, CountBelow(s, x.position), x)
  }

  /** The insertion adds exactly one copy of `x` and keeps every other row. */
  lemma InsertPermutes(x: Row, s: seq<Row>)
    requires SortedByPosition(s)
    ensures multiset(InsertByPosition(x, s)) == multiset(s) + multiset{x}
  {
    InsertAtMembers(s, CountBelow(s, x.position), x);
  }

  /** `OrderBy(r => r.Position)`, which the database runs as an `ORDER BY`:
      sorted by position. The database leaves rows of equal position in no
      defined order; this sort keeps them in storage order, and
      `StrictOrderUnique` shows the choice is forced when positions are
      distinct. */
  function SortByPosition(s: seq<Row>): (r: seq<Row>)
    ensures SortedByPosition(r)
    ensures |r| == |s|
    ensures forall y {:trigger y in r} :: y in r <==> y in s
  {
    if s == [] then [] else InsertByPosition(s[0], SortByPosition(s[1..]))
  }

  /** The sort is a permutation: it neither drops, adds nor duplicates a row. */
  lemma {:induction false} SortPermutes(s: seq<Row>)
    ensures multiset(SortByPosition(s)) == multiset(s)
  {
    if s != [] {
      SortPermutes(s[1..]);
      InsertPermutes(s[0], SortByPosition(s[1..]));
      assert s == [s[0]] + s[1..];
    }
  }

  lemma {:induction false} SortUnique(s: seq<Row>)
    requires UniqueIds(s)
    ensures UniqueIds(SortByPosition(s))
  {
    if s != [] {
      var rest := SortByPosition(s[1..]);
      SortUnique(s[1..]);
      forall y | y in rest ensures y.id != s[0].id {
        assert y in s[1..];
      }
      var k := CountBelow(rest, s[0].position);
      var r := InsertAt(rest, k, s[0]);
      forall i, j | 0 <= i < j < |r| ensures r[i].id != r[j].id {
        if i != k && j != k {
          var i' := if i < k then i else i - 1;
          var j' := if j < k then j else j - 1;
          assert r[i] == rest[i'] && r[j] == rest[j'];
        } else if i == k {
          assert r[j] in rest;
        } else {
          assert r[i] in rest;
        }
      }
    }
  }

  lemma {:induction false} SortDistinct(s: seq<Row>)
    requires DistinctPositions(s)
    ensures DistinctPositions(SortByPosition(s))
  {
    if s != [] {
      var rest := SortByPosition(s[1..]);
      SortDistinct(s[1..]);
      forall y | y in rest ensures y.position != s[0].position {
        assert y in s[1..];
      }
      var k := CountBelow(rest, s[0].position);
      var r := InsertAt(rest, k, s[0]);
      forall i, j | 0 <= i < j < |r| ensures r[i].position != r[j].position {
        if i != k && j != k {
          var i' := if i < k then i else i - 1;
          var j' := if j < k then j else j - 1;
          assert r[i] == rest[i'] && r[j] == rest[j'];
        } else if i == k {
          assert r[j] in rest;
        } else {
          assert r[i] in rest;
        }
      }
    }
  }

  /** Sorting a list already in position order leaves it as it is. */
  lemma {:induction false} SortSortedIdentity(s: seq<Row>)
    requires SortedByPosition(s)
    ensures SortByPosition(s) == s
  {
    if s != [] {
      assert SortedByPosition(s[1..]);
      SortSortedIdentity(s[1..]);
      assert CountBelow(s[1..], s[0].position) == 0;
      assert s[..0] + [s[0]] + s[1..] == s;
    }
  }

  lemma HeadIsMember(s: seq<Row>)
    requires s != []
    ensures s[0] in s
  {
  }

  /** Positions strictly increase along the list. */
  predicate StrictlyIncreasing(s: seq<Row>) {
    forall i, j :: 0 <= i < j < |s| ==> s[i].position < s[j].position
  }

  /** Two strictly increasing lists that hold each other's heads start with
      the same row. */
  lemma StrictHeadsAgree(a: seq<Row>, b: seq<Row>)
    requires StrictlyIncreasing(a) && StrictlyIncreasing(b) && a != [] && b != []
    requires a[0] in b && b[0] in a
    ensures a[0] == b[0]
  {
    var ja :| 0 <= ja < |b| && b[ja] == a[0];
    var jb :| 0 <= jb < |a| && a[jb] == b[0];
    assert b[0].position <= a[0].position;
    assert a[0].position <= b[0].position;
    assert ja == 0;
  }

  /** With equal heads, the tails hold the same rows. */
  lemma StrictTailsAgree(a: seq<Row>, b: seq<Row>)
    requires StrictlyIncreasing(a) && StrictlyIncreasing(b) && a != [] && b != [] && a[0] == b[0]
    requires forall y :: y in a <==> y in b
    ensures forall y :: y in a[1..] <==> y in b[1..]
  {
    forall y | y in a[1..] ensures y in b[1..] {
      var i :| 0 <= i < |a[1..]| && a[1..][i] == y;
      assert a[0].position < y.position;
      assert y in b;
      var j :| 0 <= j < |b| && b[j] == y;
      assert b[1..][j - 1] == y;
    }
    forall y | y in b[1..] ensures y in a[1..] {
      var i :| 0 <= i < |b[1..]| && b[1..][i] == y;
      assert b[0].position < y.position;
      assert y in a;
      var j :| 0 <= j < |a| && a[j] == y;
      assert a[1..][j - 1] == y;
    }
  }

  /** Two strictly increasing lists holding the same rows are equal: the
      order by position of a set of rows with distinct positions is unique. */
  lemma {:induction false} StrictOrderUnique(a: seq<Row>, b: seq<Row>)
    requires StrictlyIncreasing(a) && StrictlyIncreasing(b)
    requires forall y :: y in a <==> y in b
    ensures a == b
  {
    if a == [] {
      if b != [] {
        HeadIsMember(b);
        assert false;
      }
    } else if b == [] {
      HeadIsMember(a);
      assert false;
    } else {
      assert a[0] in b && b[0] in a by { HeadIsMember(a); HeadIsMember(b); }
      StrictHeadsAgree(a, b);
      StrictTailsAgree(a, b);
      StrictOrderUnique(a[1..], b[1..]);
      assert a == [a[0]] + a[1..] && b == [b[0]] + b[1..];
    }
  }

  /** The rows under `p` have positions exactly 0..n-1, n being their count:
      every position in range and no two alike. */
  predicate DenseIn(t: seq<Row>, p: int) {
    && (forall i :: 0 <= i < |t| && t[i].parent == p ==> 0 <= t[i].position < |Children(t, p)|)
    && (forall i, j :: 0 <= i < |t| && 0 <= j < |t| && i != j && t[i].parent == p && t[j].parent == p
          ==> t[i].position != t[j].position)
  }

  /** Strictly increasing positions that all lie in 0..n-1 are 0, 1, ..., n-1. */
  lemma StrictInRangeIsIndex(s: seq<Row>)
    requires forall i, j :: 0 <= i < j < |s| ==> s[i].position < s[j].position
    requires forall i :: 0 <= i < |s| ==> 0 <= s[i].position < |s|
    ensures forall k :: 0 <= k < |s| ==> s[k].position == k
  {
    forall k | 0 <= k < |s| ensures s[k].position == k {
      StrictLowerBound(s, k);
      StrictUpperBound(s, k);
    }
  }

  lemma {:induction false} StrictLowerBound(s: seq<Row>, k: int)
    requires forall i, j :: 0 <= i < j < |s| ==> s[i].position < s[j].position
    requires 0 <= k < |s|
    ensures s[k].position >= s[0].position + k
  {
    if k > 0 {
      StrictLowerBound(s, k - 1);
    }
  }

  lemma {:induction false} StrictUpperBound(s: seq<Row>, k: int)
    requires forall i, j :: 0 <= i < j < |s| ==> s[i].position < s[j].position
    requires 0 <= k < |s|
    ensures s[k].position <= s[|s| - 1].position - (|s| - 1 - k)
    decreases |s| - k
  {
    if k < |s| - 1 {
      StrictUpperBound(s, k + 1);
    }
  }

  /** The rows under `p`, ordered by position: what `Where(parent == p)
      .OrderBy(Position)` loads. */
  function Ordered(t: seq<Row>, p: int): (o: seq<Row>)
    ensures SortedByPosition(o)
    ensures |o| == |Children(t, p)|
    ensures forall y {:trigger y in o} :: y in o <==> y in t && y.parent == p
  {
    SortByPosition(Children(t, p))
  }

  /** The ordered children are a permutation of the children: every row
      under `p` is loaded exactly as many times as it is stored. */
  lemma OrderedPermutes(t: seq<Row>, p: int)
    ensures multiset(Ordered(t, p)) == multiset(Children(t, p))
  {
    SortPermutes(Children(t, p));
  }

  lemma OrderedUnique(t: seq<Row>, p: int)
    requires UniqueIds(t)
    ensures UniqueIds(Ordered(t, p))
  {
    ChildrenUnique(t, p);
    SortUnique(Children(t, p));
  }

  /** Under a dense parent, the row at index k of the ordered children has
      position k: index and stored position are the same thing. */
  lemma DenseOrderIsIndexed(t: seq<Row>, p: int)
    requires UniqueIds(t) && DenseIn(t, p)
    ensures forall k :: 0 <= k < |Ordered(t, p)| ==> Ordered(t, p)[k].position == k
  {
    var o := Ordered(t, p);
    OrderedUnique(t, p);
    forall i, j | 0 <= i < j < |o| ensures o[i].position < o[j].position {
      assert o[i] in o && o[j] in o;
      var a :| 0 <= a < |t| && t[a] == o[i];
      var b :| 0 <= b < |t| && t[b] == o[j];
      assert a != b;
    }
    forall i | 0 <= i < |o| ensures 0 <= o[i].position < |o| {
      assert o[i] in o;
      var a :| 0 <= a < |t| && t[a] == o[i];
    }
    StrictInRangeIsIndex(o);
  }

  /** `Max(r => (int?)r.Position)`: null for no rows. */
  function MaxPosition(s: seq<Row>): (m: Option<int>)
    ensures m.None? <==> s == []
    ensures m.Some? ==> forall i :: 0 <= i < |s| ==> s[i].position <= m.value
    ensures m.Some? ==> exists i :: 0 <= i < |s| && s[i].position == m.value
  {
    if s == [] then None
    else
      match MaxPosition(s[1..])
      case None => Some(s[0].position)
      case Some(m) =>
        assert forall i :: 1 <= i < |s| ==> s[i] == s[1..][i - 1];
        Some(if s[0].position >= m then s[0].position else m)
  }

  /** The position a newly created child of `p` gets: `(max ?? -1) + 1`. */
  function AppendPosition(t: seq<Row>, p: int): (pos: int)
    ensures Children(t, p) == [] ==> pos == 0
    ensures forall i :: 0 <= i < |t| && t[i].parent == p ==> t[i].position < pos
    ensures Children(t, p) != [] ==> exists i :: 0 <= i < |t| && t[i].parent == p && t[i].position + 1 == pos
  {
    var c := Children(t, p);
    assert forall i :: 0 <= i < |t| && t[i].parent == p ==> t[i] in c;
    MaxChildAttained(t, p);
    MaxPosition(c).GetOr(-1) + 1
  }

  /** The greatest child position is carried by a row of the table. */
  lemma MaxChildAttained(t: seq<Row>, p: int)
    ensures Children(t, p) != [] ==>
      exists i :: 0 <= i < |t| && t[i].parent == p && t[i].position == MaxPosition(Children(t, p)).value
  {
    var c := Children(t, p);
    if c != [] {
      var m := MaxPosition(c).value;
      var w :| 0 <= w < |c| && c[w].position == m;
      assert c[w] in c;
      var i :| 0 <= i < |t| && t[i] == c[w];
    }
  }

  /** Under a dense parent "max + 1" equals the number of children. */
  lemma AppendPositionIsCount(t: seq<Row>, p: int)
    requires UniqueIds(t) && DenseIn(t, p)
    ensures AppendPosition(t, p) == |Children(t, p)|
  {
    var c := Children(t, p);
    var n := |c|;
    if n > 0 {
      var o := Ordered(t, p);
      DenseOrderIsIndexed(t, p);
      var m := MaxPosition(c).value;
      var w :| 0 <= w < n && c[w].position == m;
      assert c[w] in c;
      var a :| 0 <= a < |t| && t[a] == c[w];
      assert m < n;
      assert o[n - 1] in o;
      var v :| 0 <= v < n && c[v] == o[n - 1];
      assert m >= n - 1;
    }
  }

  /** Appending under a dense parent gives position n and keeps it dense; this
      is the only case in which "max + 1" and "count" agree. */
  lemma AppendKeepsDense(t: seq<Row>, p: int, id: int)
    requires UniqueIds(t) && DenseIn(t, p)
    ensures AppendPosition(t, p) == |Children(t, p)|
    ensures DenseIn(t + [Row(id, p, AppendPosition(t, p))], p)
  {
    AppendPositionIsCount(t, p);
    var n := |Children(t, p)|;
    var x := Row(id, p, n);
    ChildrenAppend(t, x, p);
    var t' := t + [x];
    assert |Children(t', p)| == n + 1;
    forall i | 0 <= i < |t'| && t'[i].parent == p ensures 0 <= t'[i].position < n + 1 {
      if i < |t| { assert t'[i] == t[i]; }
    }
    forall i, j | 0 <= i < |t'| && 0 <= j < |t'| && i != j && t'[i].parent == p && t'[j].parent == p
      ensures t'[i].position != t'[j].position
    {
      if i < |t| { assert t'[i] == t[i]; }
      if j < |t| { assert t'[j] == t[j]; }
    }
  }

  /** `Math.Clamp(x, lo, hi)`; .NET throws when lo > hi, which never happens
      here because the upper bound is a list count. */
  function Clamp(x: int, lo: int, hi: int): (r: int)
    requires lo <= hi
    ensures lo <= r <= hi
    ensures lo <= x <= hi ==> r == x
    ensures x < lo ==> r == lo
    ensures hi < x ==> r == hi
  {
    if x < lo then lo else if hi < x then hi else x
  }

  /** `Where(r => r.Id != id)`. */
  function Without(s: seq<Row>, id: int): (r: seq<Row>)
    ensures |r| <= |s|
    ensures forall y {:trigger y in r} :: y in r <==> y in s && y.id != id
  {
    if s == [] then []
    else (if s[0].id == id then [] else [s[0]]) + Without(s[1..], id)
  }

  /** With unique keys, removing a present key cuts exactly its row out. */
  lemma {:induction false} WithoutAt(s: seq<Row>, k: int)
    requires UniqueIds(s) && 0 <= k < |s|
    ensures Without(s, s[k].id) == s[..k] + s[k + 1..]
  {
    var id := s[k].id;
    var tail := s[1..];
    assert Without(s, id) == (if s[0].id == id then [] else [s[0]]) + Without(tail, id);
    if k == 0 {
      assert forall i :: 0 <= i < |tail| ==> tail[i] == s[i + 1];
      WithoutAbsent(tail, id);
      assert s[..0] + s[1..] == tail;
    } else {
      assert s[0].id != id;
      assert UniqueIds(tail) by {
        assert forall i :: 0 <= i < |tail| ==> tail[i] == s[i + 1];
      }
      assert tail[k - 1] == s[k];
      WithoutAt(tail, k - 1);
      assert tail[..k - 1] == s[1..k];
      assert tail[k..] == s[k + 1..];
      assert s[..k] == [s[0]] + s[1..k];
      calc {
        Without(s, id);
        [s[0]] + Without(tail, id);
        [s[0]] + (s[1..k] + s[k + 1..]);
        ([s[0]] + s[1..k]) + s[k + 1..];
        s[..k] + s[k + 1..];
      }
    }
  }

  lemma {:induction false} WithoutAbsent(s: seq<Row>, id: int)
    requires forall i :: 0 <= i < |s| ==> s[i].id != id
    ensures Without(s, id) == s
  {
    if s != [] {
      WithoutAbsent(s[1..], id);
    }
  }

  /** A key is present exactly when some row carries it. */
  lemma HasIdIff(s: seq<Row>, id: int)
    ensures HasId(s, id) <==> exists x :: x in s && x.id == id
  {
    if exists x :: x in s && x.id == id {
      var x :| x in s && x.id == id;
      var i :| 0 <= i < |s| && s[i] == x;
    }
  }

  /** Removing a key keeps every other key, and keeps keys unique. */
  lemma WithoutKeys(s: seq<Row>, id: int)
    requires UniqueIds(s)
    ensures UniqueIds(Without(s, id))
    ensures forall k :: HasId(Without(s, id), k) <==> HasId(s, k) && k != id
  {
    var w := Without(s, id);
    if HasId(s, id) {
      var k0 := IndexOf(s, id);
      WithoutAt(s, k0);
      forall i, j | 0 <= i < j < |w| ensures w[i].id != w[j].id {
        var a := if i < k0 then i else i + 1;
        var b := if j < k0 then j else j + 1;
        assert w[i] == s[a] && w[j] == s[b];
      }
    } else {
      WithoutAbsent(s, id);
    }
    forall k ensures HasId(w, k) <==> HasId(s, k) && k != id {
      HasIdIff(w, k);
      HasIdIff(s, k);
    }
  }

  /** Renumbering: the row at index i gets position i. */
  function Renumber(s: seq<Row>): (r: seq<Row>)
    ensures |r| == |s|
    ensures forall i {:trigger r[i]} :: 0 <= i < |s| ==> r[i] == s[i].(position := i)
  {
    seq(|s|, i requires 0 <= i < |s| => s[i].(position := i))
  }

  /** The reorder step shared by the card and column moves: drop `moved` from
      the ordered siblings, insert it at the clamped index, and number the
      result 0..n-1 by index. */
  function Reinsert(order: seq<Row>, moved: Row, target: int): (r: seq<Row>)
    ensures |r| == |Without(order, moved.id)| + 1
    ensures forall j {:trigger r[j]} :: 0 <= j < |r| ==> r[j].position == j
    ensures r[Clamp(target, 0, |r| - 1)] == moved.(position := Clamp(target, 0, |r| - 1))
  {
    var others := Without(order, moved.id);
    Renumber(InsertAt(others, Clamp(target, 0, |others|), moved))
  }

  /** Saving tracked rows: every row of `t` whose key occurs in `upd` is
      replaced by the updated row, the rest are left as they were. */
  function WriteBack(t: seq<Row>, upd: seq<Row>): (r: seq<Row>)
    ensures |r| == |t|
    ensures forall i {:trigger r[i]} :: 0 <= i < |t| && !HasId(upd, t[i].id) ==> r[i] == t[i]
    ensures forall i {:trigger r[i]} :: 0 <= i < |t| && HasId(upd, t[i].id) ==> r[i] == upd[IndexOf(upd, t[i].id)]
  {
    seq(|t|, i requires 0 <= i < |t| => Find(upd, t[i].id).GetOr(t[i]))
  }

  /** A move inside one parent (same-column card move, column move). */
  function MoveWithin(t: seq<Row>, p: int, moved: Row, target: int): (r: seq<Row>)
    ensures |r| == |t|
    ensures forall i {:trigger r[i]} :: 0 <= i < |t| ==> r[i].id == t[i].id
  {
    WriteBack(t, Reinsert(Ordered(t, p), moved, target))
  }

  /** The siblings other than `moved`, in their old order. */
  function Others(order: seq<Row>, moved: Row): seq<Row> {
    Without(order, moved.id)
  }

  /** The index the moved row is reinserted at. */
  function Slot(order: seq<Row>, moved: Row, target: int): int {
    Clamp(target, 0, |Others(order, moved)|)
  }

  lemma OthersShape(order: seq<Row>, moved: Row, km: int)
    requires UniqueIds(order) && 0 <= km < |order| && order[km] == moved
    ensures |Others(order, moved)| == |order| - 1
    ensures forall j {:trigger Others(order, moved)[j]} :: 0 <= j < |Others(order, moved)| ==>
      Others(order, moved)[j] == (if j < km then order[j] else order[j + 1])
    ensures UniqueIds(Others(order, moved))
  {
    WithoutAt(order, km);
  }

  /** Index in `order` of the row that ends up at index j after reinsertion. */
  function SourceIndex(km: int, k: int, j: int): int {
    if j == k then km
    else if j < k then (if j < km then j else j + 1)
    else (if j - 1 < km then j - 1 else j)
  }

  lemma ReinsertPositions(order: seq<Row>, moved: Row, target: int)
    requires UniqueIds(order) && moved in order
    ensures |Others(order, moved)| == |order| - 1
    ensures var r := Reinsert(order, moved, target); var k := Slot(order, moved, target);
      && |r| == |order|
      && (forall j :: 0 <= j < |r| ==> r[j].position == j)
      && r[k] == moved.(position := k)
      && (forall j :: 0 <= j < k ==> r[j] == Others(order, moved)[j].(position := j))
      && (forall j :: k < j < |r| ==> r[j] == Others(order, moved)[j - 1].(position := j))
  {
    var km :| 0 <= km < |order| && order[km] == moved;
    OthersShape(order, moved, km);
  }

  lemma ReinsertSources(order: seq<Row>, moved: Row, target: int, km: int)
    requires UniqueIds(order) && 0 <= km < |order| && order[km] == moved
    ensures |Reinsert(order, moved, target)| == |order|
    ensures forall j {:trigger Reinsert(order, moved, target)[j]} :: 0 <= j < |order| ==>
      var s := SourceIndex(km, Slot(order, moved, target), j);
      0 <= s < |order| && Reinsert(order, moved, target)[j] == order[s].(position := j)
  {
    var others := Others(order, moved);
    var k := Slot(order, moved, target);
    var r := Reinsert(order, moved, target);
    OthersShape(order, moved, km);
    assert moved in order;
    ReinsertPositions(order, moved, target);
    forall j | 0 <= j < |order|
      ensures 0 <= SourceIndex(km, k, j) < |order| && r[j] == order[SourceIndex(km, k, j)].(position := j)
    {
      var sj := SourceIndex(km, k, j);
      if j < k {
        var o := others[j];
        assert r[j] == o.(position := j);
        assert o == (if j < km then order[j] else order[j + 1]);
        assert sj == (if j < km then j else j + 1);
      } else if j > k {
        var o := others[j - 1];
        assert r[j] == o.(position := j);
        assert o == (if j - 1 < km then order[j - 1] else order[j]);
        assert sj == (if j - 1 < km then j - 1 else j);
      } else {
        assert r[k] == moved.(position := k);
      }
    }
  }

  lemma ReinsertShape(order: seq<Row>, moved: Row, target: int)
    requires UniqueIds(order) && moved in order
    ensures var r := Reinsert(order, moved, target);
      && |r| == |order|
      && UniqueIds(r)
      && (forall id :: HasId(r, id) <==> HasId(order, id))
      && (forall j :: 0 <= j < |r| ==> HasId(order, r[j].id) && r[j] == order[IndexOf(order, r[j].id)].(position := j))
  {
    var km :| 0 <= km < |order| && order[km] == moved;
    var k := Slot(order, moved, target);
    var r := Reinsert(order, moved, target);
    ReinsertSources(order, moved, target, km);
    forall i, j | 0 <= i < j < |r| ensures r[i].id != r[j].id {
      var a, b := SourceIndex(km, k, i), SourceIndex(km, k, j);
      assert a != b;
      assert r[i].id == order[a].id && r[j].id == order[b].id;
    }
    forall j | 0 <= j < |r|
      ensures HasId(order, r[j].id) && r[j] == order[IndexOf(order, r[j].id)].(position := j)
    {
      var a := SourceIndex(km, k, j);
      IndexOfUnique(order, a);
      assert r[j].id == order[a].id;
    }
    forall id | HasId(order, id) ensures HasId(r, id) {
      var a := IndexOf(order, id);
      var j := if a == km then k
        else if a < km then (if a < k then a else a + 1)
        else (if a - 1 < k then a - 1 else a);
      assert 0 <= j < |r| && SourceIndex(km, k, j) == a;
      assert r[j].id == id;
    }
    forall id | HasId(r, id) ensures HasId(order, id) {
      var j := IndexOf(r, id);
      assert r[j].id == order[SourceIndex(km, k, j)].id;
    }
  }

  /** A row of another parent has no key in the ordered children of `p`. */
  lemma NotChildNotOrdered(t: seq<Row>, p: int, i: int)
    requires UniqueIds(t) && 0 <= i < |t| && t[i].parent != p
    ensures !HasId(Ordered(t, p), t[i].id)
  {
    var order := Ordered(t, p);
    forall j | 0 <= j < |order| ensures order[j].id != t[i].id {
      assert order[j] in order;
      var b :| 0 <= b < |t| && t[b] == order[j];
    }
  }

  /** Row-level effect of a move inside parent `p`: keys and parents never
      change, rows of other parents are untouched, and each child of `p`
      gets its index in the reinserted order as position. */
  lemma MoveWithinRows(t: seq<Row>, p: int, moved: Row, target: int)
    requires UniqueIds(t) && moved in t && moved.parent == p
    ensures var t' := MoveWithin(t, p, moved, target);
      var r := Reinsert(Ordered(t, p), moved, target);
      && |t'| == |t|
      && (forall i :: 0 <= i < |t| ==> t'[i].id == t[i].id && t'[i].parent == t[i].parent)
      && (forall i :: 0 <= i < |t| && t[i].parent != p ==> t'[i] == t[i])
      && (forall i :: 0 <= i < |t| && t[i].parent == p ==>
            HasId(r, t[i].id) && t'[i] == t[i].(position := IndexOf(r, t[i].id)))
  {
    var order := Ordered(t, p);
    OrderedUnique(t, p);
    ReinsertShape(order, moved, target);
    var r := Reinsert(order, moved, target);
    var t' := MoveWithin(t, p, moved, target);
    forall i | 0 <= i < |t|
      ensures t'[i].id == t[i].id && t'[i].parent == t[i].parent
      ensures t[i].parent != p ==> t'[i] == t[i]
      ensures t[i].parent == p ==> HasId(r, t[i].id) && t'[i] == t[i].(position := IndexOf(r, t[i].id))
    {
      if t[i].parent == p {
        assert t[i] in order;
        var a :| 0 <= a < |order| && order[a] == t[i];
        IndexOfUnique(order, a);
      } else {
        NotChildNotOrdered(t, p, i);
      }
    }
  }

  /** `MoveWithinRows` at one index. */
  lemma MoveWithinAt(t: seq<Row>, p: int, moved: Row, target: int, i: int)
    requires UniqueIds(t) && moved in t && moved.parent == p && 0 <= i < |t|
    ensures var t' := MoveWithin(t, p, moved, target);
      var r := Reinsert(Ordered(t, p), moved, target);
      && |t'| == |t|
      && t'[i].id == t[i].id && t'[i].parent == t[i].parent
      && (t[i].parent != p ==> t'[i] == t[i])
      && (t[i].parent == p ==> HasId(r, t[i].id) && t'[i] == t[i].(position := IndexOf(r, t[i].id)))
  {
    MoveWithinRows(t, p, moved, target);
  }

  lemma {:induction false} ChildrenCountSame(t: seq<Row>, t': seq<Row>, p: int)
    requires |t| == |t'|
    requires forall i :: 0 <= i < |t| ==> (t'[i].parent == p <==> t[i].parent == p)
    ensures |Children(t', p)| == |Children(t, p)|
  {
    if t != [] {
      assert t[1..][0..] == t[1..];
      assert forall i :: 0 <= i < |t| - 1 ==> t[1..][i] == t[i + 1] && t'[1..][i] == t'[i + 1];
      ChildrenCountSame(t[1..], t'[1..], p);
    }
  }

  /** A move inside a parent leaves it dense, whatever its positions were
      before and whatever the requested target. */
  lemma MoveWithinDense(t: seq<Row>, p: int, moved: Row, target: int)
    requires UniqueIds(t) && moved in t && moved.parent == p
    ensures DenseIn(MoveWithin(t, p, moved, target), p)
    ensures |Children(MoveWithin(t, p, moved, target), p)| == |Children(t, p)|
  {
    var t' := MoveWithin(t, p, moved, target);
    var order := Ordered(t, p);
    var r := Reinsert(order, moved, target);
    MoveWithinRows(t, p, moved, target);
    OrderedUnique(t, p);
    ReinsertShape(order, moved, target);
    ChildrenCountSame(t, t', p);
    forall i, j | 0 <= i < |t'| && 0 <= j < |t'| && i != j && t'[i].parent == p && t'[j].parent == p
      ensures t'[i].position != t'[j].position
    {
      assert t[i].id != t[j].id;
      assert r[IndexOf(r, t[i].id)].id != r[IndexOf(r, t[j].id)].id;
    }
  }

  /** The moved row sits at the slot after reinsertion. */
  lemma ReinsertFindsMoved(order: seq<Row>, moved: Row, target: int)
    requires UniqueIds(order) && moved in order
    ensures IndexOf(Reinsert(order, moved, target), moved.id) == Clamp(target, 0, |order| - 1)
  {
    var r := Reinsert(order, moved, target);
    var k := Slot(order, moved, target);
    ReinsertPositions(order, moved, target);
    ReinsertShape(order, moved, target);
    IndexOfUnique(r, k);
  }

  lemma MovedLandsAt(t: seq<Row>, p: int, moved: Row, target: int, i: int)
    requires UniqueIds(t) && moved in t && moved.parent == p
    requires 0 <= i < |t| && t[i].id == moved.id
    ensures |Children(t, p)| >= 1
    ensures MoveWithin(t, p, moved, target)[i] == moved.(position := Clamp(target, 0, |Children(t, p)| - 1))
  {
    var order := Ordered(t, p);
    var r := Reinsert(order, moved, target);
    assert t[i] == moved by {
      var im :| 0 <= im < |t| && t[im] == moved;
    }
    assert MoveWithin(t, p, moved, target)[i] == moved.(position := IndexOf(r, moved.id)) by {
      MoveWithinAt(t, p, moved, target, i);
    }
    assert moved in order;
    assert IndexOf(r, moved.id) == Clamp(target, 0, |order| - 1) by {
      OrderedUnique(t, p);
      ReinsertFindsMoved(order, moved, target);
    }
  }

  /** The moved row lands at index clamp(target, 0, n - 1) of its parent. */
  lemma MoveWithinLandsAt(t: seq<Row>, p: int, moved: Row, target: int)
    requires UniqueIds(t) && moved in t && moved.parent == p
    ensures |Children(t, p)| >= 1
    ensures forall i :: 0 <= i < |t| && t[i].id == moved.id ==>
      MoveWithin(t, p, moved, target)[i] == moved.(position := Clamp(target, 0, |Children(t, p)| - 1))
  {
    assert moved in Children(t, p);
    forall i | 0 <= i < |t| && t[i].id == moved.id
      ensures MoveWithin(t, p, moved, target)[i] == moved.(position := Clamp(target, 0, |Children(t, p)| - 1))
    {
      MovedLandsAt(t, p, moved, target, i);
    }
  }

  /** Any other sibling sits at its index among the others, shifted up by
      one from the slot on. */
  lemma ReinsertFindsOther(order: seq<Row>, moved: Row, target: int, y: Row)
    requires UniqueIds(order) && moved in order && y in order && y.id != moved.id
    ensures var j := IndexOf(Others(order, moved), y.id); var k := Slot(order, moved, target);
      0 <= j && IndexOf(Reinsert(order, moved, target), y.id) == (if j < k then j else j + 1)
  {
    var others := Others(order, moved);
    var r := Reinsert(order, moved, target);
    var k := Slot(order, moved, target);
    var j := IndexOf(others, y.id);
    assert 0 <= j by { assert y in others; }
    var j' := if j < k then j else j + 1;
    assert 0 <= j' < |r| && r[j'].id == y.id by { ReinsertPositions(order, moved, target); }
    assert IndexOf(r, y.id) == j' by {
      ReinsertShape(order, moved, target);
      IndexOfUnique(r, j');
    }
  }

  /** Every other child of the parent takes its index among the others,
      shifted up by one from the moved row's slot on. */
  lemma MoveWithinOthers(t: seq<Row>, p: int, moved: Row, target: int)
    requires UniqueIds(t) && moved in t && moved.parent == p
    ensures var t' := MoveWithin(t, p, moved, target);
      var others := Others(Ordered(t, p), moved);
      var k := Slot(Ordered(t, p), moved, target);
      forall i :: 0 <= i < |t| && t[i].parent == p && t[i].id != moved.id ==>
        var j := IndexOf(others, t[i].id);
        0 <= j && t'[i].position == (if j < k then j else j + 1)
  {
    var t' := MoveWithin(t, p, moved, target);
    var order := Ordered(t, p);
    var others := Others(order, moved);
    var k := Slot(order, moved, target);
    MoveWithinRows(t, p, moved, target);
    OrderedUnique(t, p);
    assert moved in order;
    forall i | 0 <= i < |t| && t[i].parent == p && t[i].id != moved.id
      ensures var j := IndexOf(others, t[i].id); 0 <= j && t'[i].position == (if j < k then j else j + 1)
    {
      assert t[i] in order;
      ReinsertFindsOther(order, moved, target, t[i]);
    }
  }

  /** Among the others, the list order follows positions. */
  lemma OthersOrderFollowsPosition(order: seq<Row>, moved: Row, x: Row, y: Row)
    requires UniqueIds(order) && SortedByPosition(order) && moved in order
    requires x in order && y in order && x.id != moved.id && y.id != moved.id
    requires x.position < y.position
    ensures IndexOf(Others(order, moved), x.id) < IndexOf(Others(order, moved), y.id)
  {
    var others := Others(order, moved);
    var km :| 0 <= km < |order| && order[km] == moved;
    OthersSorted(order, moved, km);
    OthersFind(order, moved, km, x);
    OthersFind(order, moved, km, y);
    var ja := IndexOf(others, x.id);
    var jb := IndexOf(others, y.id);
    assert others[ja].position < others[jb].position;
  }

  /** Dropping a row keeps the list sorted. */
  lemma OthersSorted(order: seq<Row>, moved: Row, km: int)
    requires UniqueIds(order) && SortedByPosition(order) && 0 <= km < |order| && order[km] == moved
    ensures SortedByPosition(Others(order, moved))
  {
    var others := Others(order, moved);
    OthersShape(order, moved, km);
    forall i, j | 0 <= i < j < |others| ensures others[i].position <= others[j].position {
      assert others[i] == (if i < km then order[i] else order[i + 1]);
      assert others[j] == (if j < km then order[j] else order[j + 1]);
    }
  }

  /** A row other than the dropped one is found among the others. */
  lemma OthersFind(order: seq<Row>, moved: Row, km: int, x: Row)
    requires UniqueIds(order) && 0 <= km < |order| && order[km] == moved
    requires x in order && x.id != moved.id
    ensures 0 <= IndexOf(Others(order, moved), x.id)
    ensures Others(order, moved)[IndexOf(Others(order, moved), x.id)] == x
  {
    var others := Others(order, moved);
    OthersShape(order, moved, km);
    var v :| 0 <= v < |order| && order[v] == x;
    var j := if v < km then v else v - 1;
    assert v != km;
    assert others[j] == x;
    IndexOfUnique(others, j);
  }

  /** The others keep their relative order: a child placed before another by
      position is still placed before it after the move. */
  lemma MoveWithinKeepsOrder(t: seq<Row>, p: int, moved: Row, target: int)
    requires UniqueIds(t) && moved in t && moved.parent == p
    ensures var t' := MoveWithin(t, p, moved, target);
      forall a, b :: 0 <= a < |t| && 0 <= b < |t| && t[a].parent == p && t[b].parent == p
        && t[a].id != moved.id && t[b].id != moved.id && t[a].position < t[b].position
        ==> t'[a].position < t'[b].position
  {
    var t' := MoveWithin(t, p, moved, target);
    var order := Ordered(t, p);
    OrderedUnique(t, p);
    assert moved in order;
    MoveWithinOthers(t, p, moved, target);
    forall a, b | 0 <= a < |t| && 0 <= b < |t| && t[a].parent == p && t[b].parent == p
        && t[a].id != moved.id && t[b].id != moved.id && t[a].position < t[b].position
      ensures t'[a].position < t'[b].position
    {
      assert t[a] in order && t[b] in order;
      OthersOrderFollowsPosition(order, moved, t[a], t[b]);
    }
  }

  lemma ReloadedSub(t: seq<Row>, p: int, moved: Row, target: int, i: int)
    requires UniqueIds(t) && moved in t && moved.parent == p
    requires 0 <= i < |t| && t[i].parent == p
    ensures MoveWithin(t, p, moved, target)[i] in Reinsert(Ordered(t, p), moved, target)
  {
    var order := Ordered(t, p);
    var r := Reinsert(order, moved, target);
    OrderedUnique(t, p);
    assert moved in order;
    MoveWithinAt(t, p, moved, target, i);
    var j := IndexOf(r, t[i].id);
    assert r[j] == order[IndexOf(order, r[j].id)].(position := j) by {
      ReinsertShape(order, moved, target);
    }
    assert t[i] in order;
    var a :| 0 <= a < |order| && order[a] == t[i];
    IndexOfUnique(order, a);
  }

  lemma ReloadedSup(t: seq<Row>, p: int, moved: Row, target: int, j: int)
    requires UniqueIds(t) && moved in t && moved.parent == p
    requires 0 <= j < |Reinsert(Ordered(t, p), moved, target)|
    ensures Reinsert(Ordered(t, p), moved, target)[j] in MoveWithin(t, p, moved, target)
    ensures Reinsert(Ordered(t, p), moved, target)[j].parent == p
  {
    var order := Ordered(t, p);
    var r := Reinsert(order, moved, target);
    OrderedUnique(t, p);
    assert moved in order;
    assert UniqueIds(r) && HasId(order, r[j].id) && r[j] == order[IndexOf(order, r[j].id)].(position := j) by {
      ReinsertShape(order, moved, target);
    }
    var x := order[IndexOf(order, r[j].id)];
    assert x in order;
    var i :| 0 <= i < |t| && t[i] == x;
    IndexOfUnique(r, j);
    MoveWithinAt(t, p, moved, target, i);
    assert MoveWithin(t, p, moved, target)[i] == r[j];
  }

  /** Everything a move inside one parent promises, in one place: the parent
      ends up numbered 0..n-1, the moved row sits at clamp(target, 0, n - 1),
      the other children keep their relative order, every row keeps its key
      and parent, and rows of other parents are untouched. */
  lemma MoveWithinEffects(t: seq<Row>, p: int, moved: Row, target: int)
    requires UniqueIds(t) && moved in t && moved.parent == p
    ensures var t' := MoveWithin(t, p, moved, target);
      && |t'| == |t|
      && DenseIn(t', p)
      && |Children(t, p)| >= 1
      && (forall i :: 0 <= i < |t| ==> t'[i].id == t[i].id && t'[i].parent == t[i].parent)
      && (forall i :: 0 <= i < |t| && t[i].id == moved.id ==>
            t'[i] == moved.(position := Clamp(target, 0, |Children(t, p)| - 1)))
      && (forall a, b :: 0 <= a < |t| && 0 <= b < |t| && t[a].parent == p && t[b].parent == p
            && t[a].id != moved.id && t[b].id != moved.id && t[a].position < t[b].position
            ==> t'[a].position < t'[b].position)
      && (forall i :: 0 <= i < |t| && t[i].parent != p ==> t'[i] == t[i])
  {
    MoveWithinDense(t, p, moved, target);
    MoveWithinLandsAt(t, p, moved, target);
    MoveWithinKeepsOrder(t, p, moved, target);
    MoveWithinRows(t, p, moved, target);
  }

  /** The rows of the parent after a move are exactly the reinserted ones. */
  lemma ReloadedMembers(t: seq<Row>, p: int, moved: Row, target: int)
    requires UniqueIds(t) && moved in t && moved.parent == p
    ensures forall y :: y in Ordered(MoveWithin(t, p, moved, target), p) <==> y in Reinsert(Ordered(t, p), moved, target)
  {
    forall y | y in Ordered(MoveWithin(t, p, moved, target), p)
      ensures y in Reinsert(Ordered(t, p), moved, target)
    {
      ReloadedMemberSub(t, p, moved, target, y);
    }
    forall y | y in Reinsert(Ordered(t, p), moved, target)
      ensures y in Ordered(MoveWithin(t, p, moved, target), p)
    {
      var r := Reinsert(Ordered(t, p), moved, target);
      var j :| 0 <= j < |r| && r[j] == y;
      ReloadedSup(t, p, moved, target, j);
    }
  }

  lemma ReloadedMemberSub(t: seq<Row>, p: int, moved: Row, target: int, y: Row)
    requires UniqueIds(t) && moved in t && moved.parent == p
    requires y in Ordered(MoveWithin(t, p, moved, target), p)
    ensures y in Reinsert(Ordered(t, p), moved, target)
  {
    var t' := MoveWithin(t, p, moved, target);
    var i :| 0 <= i < |t'| && t'[i] == y;
    assert |t'| == |t| && t'[i].parent == t[i].parent by { MoveWithinAt(t, p, moved, target, i); }
    ReloadedSub(t, p, moved, target, i);
  }

  /** After a move the parent's rows keep unique keys and are indexed. */
  lemma ReloadedIndexed(t: seq<Row>, p: int, moved: Row, target: int)
    requires UniqueIds(t) && moved in t && moved.parent == p
    ensures UniqueIds(MoveWithin(t, p, moved, target))
    ensures var o := Ordered(MoveWithin(t, p, moved, target), p);
      forall k :: 0 <= k < |o| ==> o[k].position == k
  {
    var t' := MoveWithin(t, p, moved, target);
    MoveWithinUnique(t, p, moved, target);
    MoveWithinDense(t, p, moved, target);
    DenseOrderIsIndexed(t', p);
  }

  /** A move keeps keys unique. */
  lemma MoveWithinUnique(t: seq<Row>, p: int, moved: Row, target: int)
    requires UniqueIds(t) && moved in t && moved.parent == p
    ensures UniqueIds(MoveWithin(t, p, moved, target))
  {
    var t' := MoveWithin(t, p, moved, target);
    MoveWithinRows(t, p, moved, target);
    assert forall i :: 0 <= i < |t| ==> t'[i].id == t[i].id;
  }

  /** Reading the parent back after a move yields the reinserted list. */
  lemma ReloadedOrder(t: seq<Row>, p: int, moved: Row, target: int)
    requires UniqueIds(t) && moved in t && moved.parent == p
    ensures UniqueIds(MoveWithin(t, p, moved, target))
    ensures Ordered(MoveWithin(t, p, moved, target), p) == Reinsert(Ordered(t, p), moved, target)
  {
    var order := Ordered(t, p);
    var r := Reinsert(order, moved, target);
    assert moved in order;
    ReloadedIndexed(t, p, moved, target);
    assert forall j :: 0 <= j < |r| ==> r[j].position == j by {
      OrderedUnique(t, p);
      ReinsertPositions(order, moved, target);
    }
    ReloadedMembers(t, p, moved, target);
    StrictOrderUnique(Ordered(MoveWithin(t, p, moved, target), p), r);
  }

  /** Reinserting at a sibling's index among the others puts the moved row
      just before that sibling; one index further, just after it. */
  lemma ReinsertBeside(order: seq<Row>, moved: Row, id: int)
    requires UniqueIds(order) && moved in order && HasId(Others(order, moved), id)
    ensures var k := IndexOf(Others(order, moved), id);
      var top, bottom := Reinsert(order, moved, k), Reinsert(order, moved, k + 1);
      && 0 <= k && k + 1 < |order| && |top| == |order| && |bottom| == |order|
      && top[k].id == moved.id && top[k + 1].id == id
      && bottom[k].id == id && bottom[k + 1].id == moved.id
  {
    var k := IndexOf(Others(order, moved), id);
    ReinsertPositions(order, moved, k);
    ReinsertPositions(order, moved, k + 1);
  }

  /** Reinserting a row of an indexed list at its own index is a no-op. */
  lemma ReinsertAtOwnSlot(r: seq<Row>, k: int, target: int)
    requires UniqueIds(r) && 0 <= k < |r|
    requires forall j :: 0 <= j < |r| ==> r[j].position == j
    requires Clamp(target, 0, |r| - 1) == k
    ensures Reinsert(r, r[k], target) == r
  {
    var r' := Reinsert(r, r[k], target);
    assert r[k] in r;
    ReinsertPositions(r, r[k], target);
    OthersShape(r, r[k], k);
    forall j | 0 <= j < |r| ensures r'[j] == r[j] {
      if j < k {
        assert r'[j] == Others(r, r[k])[j].(position := j);
      } else if j > k {
        assert r'[j] == Others(r, r[k])[j - 1].(position := j);
      }
    }
  }

  /** Writing back the reinserted list a second time changes nothing. */
  lemma WriteBackAgain(t: seq<Row>, p: int, moved: Row, target: int)
    requires UniqueIds(t) && moved in t && moved.parent == p
    ensures var t' := MoveWithin(t, p, moved, target);
      WriteBack(t', Reinsert(Ordered(t, p), moved, target)) == t'
  {
    var t' := MoveWithin(t, p, moved, target);
    var order := Ordered(t, p);
    var r := Reinsert(order, moved, target);
    OrderedUnique(t, p);
    assert moved in order;
    ReinsertShape(order, moved, target);
    MoveWithinRows(t, p, moved, target);
    forall i | 0 <= i < |t'| ensures WriteBack(t', r)[i] == t'[i] {
      if t[i].parent == p {
        var j := IndexOf(r, t[i].id);
        assert r[j] == order[IndexOf(order, r[j].id)].(position := j);
        assert t[i] in order;
        var a :| 0 <= a < |order| && order[a] == t[i];
        IndexOfUnique(order, a);
      } else {
        NotChildNotOrdered(t, p, i);
      }
    }
  }

  /** Reinserting the moved row, now at its clamped index, into the list the
      first reinsertion produced, at a target clamping to the same index,
      changes nothing. */
  lemma ReinsertAgain(t: seq<Row>, p: int, moved: Row, target: int, target2: int)
    requires UniqueIds(t) && moved in t && moved.parent == p
    requires |Children(t, p)| >= 1
    requires Clamp(target2, 0, |Children(t, p)| - 1) == Clamp(target, 0, |Children(t, p)| - 1)
    ensures var r := Reinsert(Ordered(t, p), moved, target);
      Reinsert(r, moved.(position := Clamp(target, 0, |Children(t, p)| - 1)), target2) == r
  {
    var order := Ordered(t, p);
    var r := Reinsert(order, moved, target);
    assert moved in order;
    var k := Clamp(target, 0, |order| - 1);
    assert UniqueIds(r) && |r| == |order| && r[k] == moved.(position := k) by {
      OrderedUnique(t, p);
      ReinsertShape(order, moved, target);
      ReinsertPositions(order, moved, target);
    }
    assert forall j :: 0 <= j < |r| ==> r[j].position == j by {
      OrderedUnique(t, p);
      ReinsertPositions(order, moved, target);
    }
    ReinsertAtOwnSlot(r, k, target2);
  }

  /** The move is a no-op on a table whose reloaded parent is already the
      reinserted list and which already holds that list's rows. */
  lemma MoveWithinFixed(t: seq<Row>, p: int, moved: Row, target: int, r: seq<Row>)
    requires Ordered(t, p) == r && Reinsert(r, moved, target) == r && WriteBack(t, r) == t
    ensures MoveWithin(t, p, moved, target) == t
  {
  }

  /** A second move of the already moved row to a target that clamps to the
      same index changes nothing. */
  lemma MoveWithinAgain(t: seq<Row>, p: int, moved: Row, target: int, target2: int)
    requires UniqueIds(t) && moved in t && moved.parent == p
    requires |Children(t, p)| >= 1
    requires Clamp(target2, 0, |Children(t, p)| - 1) == Clamp(target, 0, |Children(t, p)| - 1)
    ensures var t' := MoveWithin(t, p, moved, target);
      MoveWithin(t', p, moved.(position := Clamp(target, 0, |Children(t, p)| - 1)), target2) == t'
  {
    var t' := MoveWithin(t, p, moved, target);
    var r := Reinsert(Ordered(t, p), moved, target);
    var moved' := moved.(position := Clamp(target, 0, |Children(t, p)| - 1));
    assert Ordered(t', p) == r by { ReloadedOrder(t, p, moved, target); }
    assert Reinsert(r, moved', target2) == r by { ReinsertAgain(t, p, moved, target, target2); }
    assert WriteBack(t', r) == t' by { WriteBackAgain(t, p, moved, target); }
    MoveWithinFixed(t', p, moved', target2, r);
  }

  /** Repeating the same move inside a parent changes nothing more. */
  lemma MoveWithinIdempotent(t: seq<Row>, p: int, moved: Row, target: int)
    requires UniqueIds(t) && moved in t && moved.parent == p
    ensures |Children(t, p)| >= 1
    ensures var t' := MoveWithin(t, p, moved, target);
      var moved' := moved.(position := Clamp(target, 0, |Children(t, p)| - 1));
      moved' in t' && MoveWithin(t', p, moved', target) == t'
  {
    var im :| 0 <= im < |t| && t[im] == moved;
    MovedLandsAt(t, p, moved, target, im);
    MoveWithinAgain(t, p, moved, target, target);
  }

  /** One row's fate in a cross-parent move: the moved row takes (dest,
      newPos); later siblings in its old parent close up by one; rows of the
      destination at or after newPos open up by one. */
  function ShiftRow(x: Row, moved: Row, dest: int, newPos: int): Row {
    if x.id == moved.id then x.(parent := dest, position := newPos)
    else if x.parent == moved.parent && x.position > moved.position then x.(position := x.position - 1)
    else if x.parent == dest && x.position >= newPos then x.(position := x.position + 1)
    else x
  }

  /** A move into another parent; no clamping of `newPos`. */
  function MoveAcross(t: seq<Row>, moved: Row, dest: int, newPos: int): (t': seq<Row>)
    ensures |t'| == |t|
    ensures forall i {:trigger t'[i]} :: 0 <= i < |t| ==> t'[i].id == t[i].id
    ensures forall i {:trigger t'[i]} :: 0 <= i < |t| && t[i].id != moved.id ==> t'[i].parent == t[i].parent
    ensures forall i {:trigger t'[i]} :: 0 <= i < |t| && t[i].id != moved.id && t[i].parent != moved.parent && t[i].parent != dest ==>
      t'[i] == t[i]
  {
    seq(|t|, i requires 0 <= i < |t| => ShiftRow(t[i], moved, dest, newPos))
  }

  /** Parents change at one index only: the count moves from one parent to
      another. */
  lemma {:induction false} ChildrenCountMoved(t: seq<Row>, t': seq<Row>, q: int, im: int)
    requires |t| == |t'| && 0 <= im < |t|
    requires forall i :: 0 <= i < |t| && i != im ==> (t'[i].parent == q <==> t[i].parent == q)
    ensures |Children(t', q)| ==
      |Children(t, q)| + (if t'[im].parent == q then 1 else 0) - (if t[im].parent == q then 1 else 0)
  {
    assert forall i :: 0 <= i < |t| - 1 ==> t[1..][i] == t[i + 1] && t'[1..][i] == t'[i + 1];
    if im == 0 {
      ChildrenCountSame(t[1..], t'[1..], q);
    } else {
      ChildrenCountMoved(t[1..], t'[1..], q, im - 1);
    }
  }

  /** Keys never change, the moved row is the only one to change parent, and
      rows of uninvolved parents are untouched. */
  lemma MoveAcrossKeys(t: seq<Row>, moved: Row, dest: int, newPos: int)
    requires UniqueIds(t) && moved in t && moved.parent != dest
    ensures var t' := MoveAcross(t, moved, dest, newPos);
      && UniqueIds(t')
      && (forall i :: 0 <= i < |t| ==> t'[i].id == t[i].id)
      && (forall i :: 0 <= i < |t| && t[i].id != moved.id ==> t'[i].parent == t[i].parent)
      && (forall i :: 0 <= i < |t| && t[i].parent != moved.parent && t[i].parent != dest ==> t'[i] == t[i])
      && |Children(t', moved.parent)| == |Children(t, moved.parent)| - 1
      && |Children(t', dest)| == |Children(t, dest)| + 1
  {
    var t' := MoveAcross(t, moved, dest, newPos);
    var im :| 0 <= im < |t| && t[im] == moved;
    forall i | 0 <= i < |t| && i != im ensures t'[i].parent == t[i].parent {
      assert t[i].id != moved.id;
    }
    ChildrenCountMoved(t, t', moved.parent, im);
    ChildrenCountMoved(t, t', dest, im);
  }

  lemma MoveAcrossSourceDense(t: seq<Row>, moved: Row, dest: int, newPos: int)
    requires UniqueIds(t) && moved in t && moved.parent != dest && DenseIn(t, moved.parent)
    ensures DenseIn(MoveAcross(t, moved, dest, newPos), moved.parent)
  {
    var t' := MoveAcross(t, moved, dest, newPos);
    var src := moved.parent;
    var im :| 0 <= im < |t| && t[im] == moved;
    var n := |Children(t, src)|;
    assert |Children(t', src)| == n - 1 by { MoveAcrossKeys(t, moved, dest, newPos); }
    assert forall i :: 0 <= i < |t| && i != im ==> t[i].id != moved.id;
    forall i | 0 <= i < |t'| && t'[i].parent == src ensures 0 <= t'[i].position < n - 1 {
      assert i != im && t[i].parent == src && t[i].position != moved.position;
    }
    forall i, j | 0 <= i < |t'| && 0 <= j < |t'| && i != j && t'[i].parent == src && t'[j].parent == src
      ensures t'[i].position != t'[j].position
    {
      assert i != im && j != im;
      assert t[i].position != moved.position && t[j].position != moved.position;
      assert t[i].position != t[j].position;
    }
  }

  lemma MoveAcrossDestDense(t: seq<Row>, moved: Row, dest: int, newPos: int)
    requires UniqueIds(t) && moved in t && moved.parent != dest && DenseIn(t, dest)
    requires 0 <= newPos <= |Children(t, dest)|
    ensures DenseIn(MoveAcross(t, moved, dest, newPos), dest)
  {
    var t' := MoveAcross(t, moved, dest, newPos);
    var im :| 0 <= im < |t| && t[im] == moved;
    var m := |Children(t, dest)|;
    assert |Children(t', dest)| == m + 1 by { MoveAcrossKeys(t, moved, dest, newPos); }
    assert forall i :: 0 <= i < |t| && i != im ==> t[i].id != moved.id;
    forall i | 0 <= i < |t'| && t'[i].parent == dest ensures 0 <= t'[i].position < m + 1 {
      if i != im {
        assert t[i].parent == dest;
      }
    }
    forall i, j | 0 <= i < |t'| && 0 <= j < |t'| && i != j && t'[i].parent == dest && t'[j].parent == dest
      ensures t'[i].position != t'[j].position
    {
      if i != im && j != im {
        assert t[i].parent == dest && t[j].parent == dest;
        assert t[i].position != t[j].position;
      } else if i != im {
        assert t[i].parent == dest;
      } else {
        assert t[j].parent == dest;
      }
    }
  }

  lemma MoveAcrossDestOutOfRange(t: seq<Row>, moved: Row, dest: int, newPos: int)
    requires UniqueIds(t) && moved in t && moved.parent != dest
    requires !(0 <= newPos <= |Children(t, dest)|)
    ensures !DenseIn(MoveAcross(t, moved, dest, newPos), dest)
  {
    var t' := MoveAcross(t, moved, dest, newPos);
    var im :| 0 <= im < |t| && t[im] == moved;
    assert |Children(t', dest)| == |Children(t, dest)| + 1 by { MoveAcrossKeys(t, moved, dest, newPos); }
    assert t'[im] == moved.(parent := dest, position := newPos);
  }

  /** Under dense source and destination parents, the cross move keeps both
      dense exactly when 0 <= newPos <= the destination's child count. */
  lemma MoveAcrossDense(t: seq<Row>, moved: Row, dest: int, newPos: int)
    requires UniqueIds(t) && moved in t && moved.parent != dest
    requires DenseIn(t, moved.parent) && DenseIn(t, dest)
    ensures var t' := MoveAcross(t, moved, dest, newPos);
      && DenseIn(t', moved.parent)
      && (DenseIn(t', dest) <==> 0 <= newPos <= |Children(t, dest)|)
  {
    MoveAcrossSourceDense(t, moved, dest, newPos);
    if 0 <= newPos <= |Children(t, dest)| {
      MoveAcrossDestDense(t, moved, dest, newPos);
    } else {
      MoveAcrossDestOutOfRange(t, moved, dest, newPos);
    }
  }

  /** Everything a cross-parent move promises, in one place. */
  lemma MoveAcrossEffects(t: seq<Row>, moved: Row, dest: int, newPos: int)
    requires UniqueIds(t) && moved in t && moved.parent != dest
    ensures var src, t' := moved.parent, MoveAcross(t, moved, dest, newPos);
      && |t'| == |t|
      && (forall i :: 0 <= i < |t| && t[i].id == moved.id ==> t'[i] == moved.(parent := dest, position := newPos))
      && (forall i :: 0 <= i < |t| && t[i].parent == src && t[i].id != moved.id ==>
            t'[i] == t[i].(position := if t[i].position > moved.position then t[i].position - 1 else t[i].position))
      && (forall i :: 0 <= i < |t| && t[i].parent == dest ==>
            t'[i] == t[i].(position := if t[i].position >= newPos then t[i].position + 1 else t[i].position))
      && (forall i :: 0 <= i < |t| && t[i].parent != src && t[i].parent != dest ==> t'[i] == t[i])
      && |Children(t', src)| == |Children(t, src)| - 1
      && |Children(t', dest)| == |Children(t, dest)| + 1
      && (DenseIn(t, src) && DenseIn(t, dest) ==>
            DenseIn(t', src) && (DenseIn(t', dest) <==> 0 <= newPos <= |Children(t, dest)|))
  {
    var t' := MoveAcross(t, moved, dest, newPos);
    var im :| 0 <= im < |t| && t[im] == moved;
    forall i | 0 <= i < |t| && t[i].id == moved.id
      ensures t'[i] == moved.(parent := dest, position := newPos)
    {
      assert t[i].id == t[im].id;
    }
    MoveAcrossKeys(t, moved, dest, newPos);
    if DenseIn(t, moved.parent) && DenseIn(t, dest) {
      MoveAcrossDense(t, moved, dest, newPos);
    }
  }

  /** Without the range condition the destination is not kept dense: moving
      the only row of parent 1 to position 5 of an empty parent 2. */
  lemma MoveAcrossPastEnd()
    ensures var t := [Row(7, 1, 0)];
      DenseIn(t, 1) && DenseIn(t, 2) && !DenseIn(MoveAcross(t, Row(7, 1, 0), 2, 5), 2)
  {
    var t := [Row(7, 1, 0)];
    assert Children(t, 1) == [Row(7, 1, 0)];
    assert Children(t, 2) == [] by { assert Children(t[1..], 2) == []; }
    var t' := MoveAcross(t, Row(7, 1, 0), 2, 5);
    assert t'[0] == Row(7, 2, 5);
    assert |Children(t', 2)| <= 1;
  }

  /** Rows keyed alike, index by index, are found at the same index. */
  lemma {:induction false} SameKeysSameIndex(t: seq<Row>, t': seq<Row>, id: int)
    requires |t| == |t'| && forall i :: 0 <= i < |t| ==> t'[i].id == t[i].id
    ensures IndexOf(t', id) == IndexOf(t, id)
  {
    if t != [] {
      assert forall i :: 0 <= i < |t| - 1 ==> t[1..][i] == t[i + 1] && t'[1..][i] == t'[i + 1];
      SameKeysSameIndex(t[1..], t'[1..], id);
    }
  }

  /** `list.LastOrDefault()?.Position + 1 ?? 0` over an ordered list. */
  function EndPosition(order: seq<Row>): int {
    if order == [] then 0 else order[|order| - 1].position + 1
  }

  /** One past the last ordered child is one past the greatest position:
      the two append defaults of the controllers agree. */
  lemma OrderedEndIsAppend(t: seq<Row>, p: int)
    ensures EndPosition(Ordered(t, p)) == AppendPosition(t, p)
  {
    var o := Ordered(t, p);
    if Children(t, p) != [] {
      var n := |o|;
      var last := o[n - 1];
      assert last in o;
      assert last.parent == p && last in t;
      var a :| 0 <= a < |t| && t[a] == last;
      assert last.position < AppendPosition(t, p);
      var i :| 0 <= i < |t| && t[i].parent == p && t[i].position + 1 == AppendPosition(t, p);
      assert t[i] in o;
      SortedLastIsMax(o, t[i]);
    }
  }

  /** The last row of a sorted list carries the greatest position. */
  lemma SortedLastIsMax(o: seq<Row>, x: Row)
    requires SortedByPosition(o) && x in o
    ensures x.position <= o[|o| - 1].position
  {
    var v :| 0 <= v < |o| && o[v] == x;
  }

  /** Under a dense parent, moving to the default end target and then asking
      for the end again clamps to the same last index. */
  lemma EndTargetStable(t: seq<Row>, p: int, moved: Row)
    requires UniqueIds(t) && moved in t && moved.parent == p && DenseIn(t, p)
    ensures var target := EndPosition(Ordered(t, p));
      var t' := MoveWithin(t, p, moved, target);
      |Children(t, p)| >= 1
      && Clamp(EndPosition(Ordered(t', p)), 0, |Children(t, p)| - 1) == Clamp(target, 0, |Children(t, p)| - 1)
  {
    var target := EndPosition(Ordered(t, p));
    var t' := MoveWithin(t, p, moved, target);
    assert moved in Children(t, p);
    assert target == |Children(t, p)| by {
      AppendPositionIsCount(t, p);
      OrderedEndIsAppend(t, p);
    }
    assert EndPosition(Ordered(t', p)) == |Children(t, p)| by {
      MoveWithinDense(t, p, moved, target);
      ReloadedOrder(t, p, moved, target);
      AppendPositionIsCount(t', p);
      OrderedEndIsAppend(t', p);
    }
  }
}
