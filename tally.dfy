/**
 * The top-authors chart of `visualize` (main.py:272-278): every present
 * authors cell is split on ',' and each piece is stripped; the pieces are
 * counted with a `Counter`, whose entries keep the order in which each
 * piece was first seen; `most_common(10)` lists the ten largest counts,
 * largest first, equal counts in first-seen order.
 */
module Tally {
  import opened Wrappers
  import opened Text

  // ---------------------------------------------------------------------
  // The credits: all_authors

  /** Every piece of `s`, stripped. */
  function StripEach(pieces: seq<string>): (r: seq<string>)
    ensures |r| == |pieces|
    ensures forall j :: 0 <= j < |pieces| ==> r[j] == Strip(pieces[j])
  {
    seq(|pieces|, j requires 0 <= j < |pieces| => Strip(pieces[j]))
  }

  /** `[a.strip() for a in str(authors).split(',')]` for one cell; a
      missing cell adds nothing (`dropna()`). */
  function CellCredits(cell: Option<string>): seq<string> {
    match cell
    case None => []
    case Some(x) => StripEach(SplitOn(x, ','))
  }

  /** `all_authors` after the loop over the first `|cells|` cells. */
  function Credits(cells: seq<Option<string>>): seq<string> {
    if cells == [] then []
    else Credits(cells[..|cells| - 1]) + CellCredits(cells[|cells| - 1])
  }

  /** The loop of main.py:273-275. */
  method CollectCredits(cells: seq<Option<string>>) returns (all: seq<string>)
    ensures all == Credits(cells)
  {
    all := [];
    var i := 0;
    while i < |cells|
      invariant 0 <= i <= |cells|
      invariant all == Credits(cells[..i])
    {
      assert cells[..i + 1][..i] == cells[..i];
      if cells[i].Some? {
        all := all + StripEach(SplitOn(cells[i].value, ','));
      }
      i := i + 1;
    }
    assert cells[..|cells|] == cells;
  }

  /** A present cell with k commas gives k + 1 credits, each stripped and
      free of commas; a piece that strips to nothing is a credit too. */
  lemma CellCreditsSpec(x: string)
    ensures |CellCredits(Some(x))| == multiset(x)[','] + 1
    ensures forall j :: 0 <= j < |CellCredits(Some(x))| ==>
      ',' !in CellCredits(Some(x))[j] && Strip(CellCredits(Some(x))[j]) == CellCredits(Some(x))[j]
  {
    SplitOnCount(x, ',');
    SplitOnPieces(x, ',');
    var ps := SplitOn(x, ',');
    forall j | 0 <= j < |ps|
      ensures ',' !in Strip(ps[j]) && Strip(Strip(ps[j])) == Strip(ps[j])
    {
      StripPiece(ps[j]);
    }
  }

  lemma StripPiece(p: string)
    requires ',' !in p
    ensures ',' !in Strip(p) && Strip(Strip(p)) == Strip(p)
  {
    StripNoop(Strip(p));
    StripAvoids(p, ',');
  }

  /** Stripping adds no character. */
  lemma StripAvoids(p: string, c: char)
    requires c !in p
    ensures c !in Strip(p)
  {
    var a := StripStart(p);
    assert Strip(p) == p[a..a + |Strip(p)|];
  }

  // ---------------------------------------------------------------------
  // The Counter

  /** The distinct elements of `xs` in order of first occurrence: the key
      order of `Counter(xs)`. */
  function FirstSeen(xs: seq<string>): seq<string> {
    if xs == [] then []
    else
      var p := xs[..|xs| - 1];
      FirstSeen(p) + (if xs[|xs| - 1] in p then [] else [xs[|xs| - 1]])
  }

  /** Where `x` first occurs in `xs`. */
  function FirstIndex(xs: seq<string>, x: string): (i: nat)
    requires x in xs
    ensures i < |xs| && xs[i] == x && x !in xs[..i]
  {
    if xs[0] == x then 0
    else
      var i := FirstIndex(xs[1..], x);
      assert xs[..i + 1] == [xs[0]] + xs[1..][..i];
      i + 1
  }

  lemma FirstIndexPrefix(p: seq<string>, z: string, x: string)
    requires x in p
    ensures FirstIndex(p + [z], x) == FirstIndex(p, x)
  {
    var i := FirstIndex(p, x);
    assert (p + [z])[..i + 1] == p[..i + 1];
  }

  /** FirstSeen lists every element of `xs` once, in the order of first
      occurrences. */
  lemma {:induction false} FirstSeenSpec(xs: seq<string>)
    ensures forall x :: x in FirstSeen(xs) <==> x in xs
    ensures forall i, j :: 0 <= i < j < |FirstSeen(xs)| ==>
      FirstIndex(xs, FirstSeen(xs)[i]) < FirstIndex(xs, FirstSeen(xs)[j])
  {
    if xs != [] {
      var p := xs[..|xs| - 1];
      var z := xs[|xs| - 1];
      assert xs == p + [z];
      FirstSeenSpec(p);
      var f := FirstSeen(p);
      forall x | x in p ensures FirstIndex(xs, x) == FirstIndex(p, x) {
        FirstIndexPrefix(p, z, x);
      }
      if z !in p {
        var g := FirstSeen(xs);
        assert g == f + [z];
        forall i, j | 0 <= i < j < |g| ensures FirstIndex(xs, g[i]) < FirstIndex(xs, g[j]) {
          assert g[i] == f[i] && g[i] in p;
          if j == |f| {
            assert FirstIndex(xs, z) == |p|;
          } else {
            assert g[j] == f[j];
          }
        }
      }
    }
  }

  /** The elements of FirstSeen are distinct. */
  lemma FirstSeenDistinct(xs: seq<string>)
    ensures forall i, j :: 0 <= i < j < |FirstSeen(xs)| ==> FirstSeen(xs)[i] != FirstSeen(xs)[j]
  {
    FirstSeenSpec(xs);
  }

  /** A counted piece and how often it occurs. */
  type Item = (string, nat)

  /** The items of `Counter(xs)`: each distinct element with its number of
      occurrences, in first-seen order. */
  function Counted(xs: seq<string>): (r: seq<Item>)
    ensures |r| == |FirstSeen(xs)|
    ensures forall i :: 0 <= i < |r| ==> r[i].0 == FirstSeen(xs)[i]
  {
    var f := FirstSeen(xs);
    seq(|f|, i requires 0 <= i < |f| => (f[i], multiset(xs)[f[i]]))
  }

  /** The items of a dictionary, in the given key order. */
  function Items(order: seq<string>, counts: map<string, nat>): seq<Item>
    requires forall x :: x in order ==> x in counts
  {
    seq(|order|, j requires 0 <= j < |order| => (order[j], counts[order[j]]))
  }

  /** `Counter(all)`: one pass over the pieces, counting each in a
      dictionary and remembering the order of first insertion. */
  method CountCredits(all: seq<string>) returns (items: seq<Item>)
    ensures items == Counted(all)
  {
    var order: seq<string> := [];
    var counts: map<string, nat> := map[];
    var i := 0;
    while i < |all|
      invariant 0 <= i <= |all|
      invariant CounterOf(all[..i], order, counts)
    {
      var a := all[i];
      assert all[..i + 1] == all[..i] + [a];
      CountAdd(all[..i], a, order, counts);
      if a in counts {
        counts := counts[a := counts[a] + 1];
      } else {
        order := order + [a];
        counts := counts[a := 1];
      }
      i := i + 1;
    }
    assert all[..|all|] == all;
    ItemsCounted(all, order, counts);
    items := Items(order, counts);
  }

  /** The dictionary and key order of a Counter that has seen `seen`. */
  ghost predicate CounterOf(seen: seq<string>, order: seq<string>, counts: map<string, nat>) {
    order == FirstSeen(seen) &&
    (forall x :: x in counts <==> x in seen) &&
    (forall x :: x in counts ==> counts[x] == multiset(seen)[x])
  }

  /** Counting one more element: a known key gains one, a new key enters
      the order with count one. */
  lemma CountAdd(seen: seq<string>, a: string, order: seq<string>, counts: map<string, nat>)
    requires CounterOf(seen, order, counts)
    ensures a in counts ==> CounterOf(seen + [a], order, counts[a := counts[a] + 1])
    ensures a !in counts ==> CounterOf(seen + [a], order + [a], counts[a := 1])
  {
    SeenOneMore(seen, a);
    if a in counts {
      CountKnown(seen, a, order, counts);
    } else {
      CountNew(seen, a, order, counts);
    }
  }

  lemma SeenOneMore(seen: seq<string>, a: string)
    ensures FirstSeen(seen + [a]) == FirstSeen(seen) + (if a in seen then [] else [a])
    ensures forall x :: multiset(seen + [a])[x] == multiset(seen)[x] + (if x == a then 1 else 0)
    ensures forall x :: x in seen + [a] <==> x in seen || x == a
  {
    assert (seen + [a])[..|seen|] == seen;
  }

  lemma CountKnown(seen: seq<string>, a: string, order: seq<string>, counts: map<string, nat>)
    requires CounterOf(seen, order, counts) && a in counts
    requires FirstSeen(seen + [a]) == FirstSeen(seen) + (if a in seen then [] else [a])
    requires forall x :: multiset(seen + [a])[x] == multiset(seen)[x] + (if x == a then 1 else 0)
    requires forall x :: x in seen + [a] <==> x in seen || x == a
    ensures CounterOf(seen + [a], order, counts[a := counts[a] + 1])
  {
  }

  lemma CountNew(seen: seq<string>, a: string, order: seq<string>, counts: map<string, nat>)
    requires CounterOf(seen, order, counts) && a !in counts
    requires FirstSeen(seen + [a]) == FirstSeen(seen) + (if a in seen then [] else [a])
    requires forall x :: multiset(seen + [a])[x] == multiset(seen)[x] + (if x == a then 1 else 0)
    requires forall x :: x in seen + [a] <==> x in seen || x == a
    ensures CounterOf(seen + [a], order + [a], counts[a := 1])
  {
    assert a !in seen;
    var c := counts[a := 1];
    forall x | x in c ensures c[x] == multiset(seen + [a])[x] {
      if x != a {
        assert c[x] == counts[x];
      }
    }
  }

  lemma ItemsCounted(all: seq<string>, order: seq<string>, counts: map<string, nat>)
    requires CounterOf(all, order, counts)
    ensures forall x :: x in order ==> x in counts
    ensures Items(order, counts) == Counted(all)
  {
    FirstSeenSpec(all);
  }

  // ---------------------------------------------------------------------
  // most_common

  /** Item `i` of `e` is listed before entry `j` by `most_common`: a
      larger count first, equal counts in the Counter's order. */
  predicate Before(e: seq<Item>, i: int, j: int) {
    0 <= i < |e| && 0 <= j < |e| &&
    (e[i].1 > e[j].1 || (e[i].1 == e[j].1 && i < j))
  }

  /** Indices listed in the order `most_common` gives them. */
  predicate Ranked(e: seq<Item>, s: seq<nat>) {
    forall a, b :: 0 <= a < b < |s| ==> Before(e, s[a], s[b])
  }

  /** Put index `i` into the ranked list `s`, after every index ranked
      before it. */
  function Insert(e: seq<Item>, s: seq<nat>, i: nat): (r: seq<nat>)
    ensures |r| == |s| + 1
    ensures forall x :: x in r <==> x in s || x == i
  {
    if s == [] then [i]
    else if Before(e, i, s[0]) then [i] + s
    else
      var t := Insert(e, s[1..], i);
      assert forall x :: x in s <==> x == s[0] || x in s[1..];
      [s[0]] + t
  }

  lemma {:induction false} InsertRanked(e: seq<Item>, s: seq<nat>, i: nat)
    requires Ranked(e, s) && i < |e| && i !in s
    requires forall x :: x in s ==> x < |e|
    ensures Ranked(e, Insert(e, s, i))
  {
    if s == [] {
    } else if Before(e, i, s[0]) {
      InsertFront(e, s, i);
    } else {
      assert s[0] in s;
      InsertRanked(e, s[1..], i);
      InsertLater(e, s, i);
    }
  }

  lemma InsertFront(e: seq<Item>, s: seq<nat>, i: nat)
    requires Ranked(e, s) && s != [] && Before(e, i, s[0])
    ensures Ranked(e, [i] + s)
  {
    forall x | x in s ensures Before(e, i, x) {
      HeadBefore(e, s);
      if x != s[0] { assert x in s[1..]; }
    }
    RankedCons(e, i, s);
  }

  lemma InsertLater(e: seq<Item>, s: seq<nat>, i: nat)
    requires Ranked(e, s) && s != [] && i < |e| && s[0] < |e| && i != s[0]
    requires !Before(e, i, s[0])
    requires Ranked(e, Insert(e, s[1..], i))
    ensures Ranked(e, Insert(e, s, i))
  {
    var t := Insert(e, s[1..], i);
    assert Insert(e, s, i) == [s[0]] + t;
    HeadBefore(e, s);
    RankedCons(e, s[0], t);
  }

  /** An index ranked before every index of a ranked list can go in
      front of it. */
  lemma RankedCons(e: seq<Item>, h: nat, t: seq<nat>)
    requires Ranked(e, t) && forall x :: x in t ==> Before(e, h, x)
    ensures Ranked(e, [h] + t)
  {
    var r := [h] + t;
    forall a, b | 0 <= a < b < |r| ensures Before(e, r[a], r[b]) {
      assert r[b] == t[b - 1];
      if a > 0 { assert r[a] == t[a - 1]; } else { assert r[b] in t; }
    }
  }

  /** The first of a ranked list is ranked before every later one. */
  lemma HeadBefore(e: seq<Item>, s: seq<nat>)
    requires Ranked(e, s) && s != []
    ensures forall x :: x in s[1..] ==> Before(e, s[0], x)
  {
    forall x | x in s[1..] ensures Before(e, s[0], x) {
      var c :| 0 <= c < |s[1..]| && s[1..][c] == x;
      assert s[c + 1] == x;
    }
  }

  /** The indices `0 .. m-1` of `e`, ranked: the order of the Counter's
      items after `most_common`'s stable sort. */
  function Rank(e: seq<Item>, m: nat): (r: seq<nat>)
    requires m <= |e|
    ensures |r| == m
    ensures forall x :: x in r <==> 0 <= x < m
  {
    if m == 0 then []
    else
      var s := Rank(e, m - 1);
      var r := Insert(e, s, m - 1);
      r
  }

  lemma {:induction false} RankRanked(e: seq<Item>, m: nat)
    requires m <= |e|
    ensures Ranked(e, Rank(e, m))
  {
    if m > 0 {
      RankRanked(e, m - 1);
      InsertRanked(e, Rank(e, m - 1), m - 1);
    }
  }

  function Min(a: nat, b: nat): nat { if a < b then a else b }

  /** `Counter.most_common(n)` over the Counter's items `e`. */
  function MostCommon(e: seq<Item>, n: nat): (top: seq<Item>)
    ensures |top| == Min(n, |e|)
  {
    var order := Rank(e, |e|);
    assert forall j :: 0 <= j < |order| ==> order[j] in order;
    seq(Min(n, |e|), j requires 0 <= j < Min(n, |e|) => e[order[j]])
  }

  /** `most_common(n)` lists the first `min(n, |e|)` entries of `e` in
      ranked order: larger counts first, equal counts in the Counter's
      order; and no entry left out has a larger count than the last one
      listed. */
  lemma MostCommonSpec(e: seq<Item>, n: nat, order: seq<nat>, top: seq<Item>)
    requires order == Rank(e, |e|) && top == MostCommon(e, n)
    ensures forall j :: 0 <= j < |top| ==> order[j] < |e| && top[j] == e[order[j]]
    ensures forall a, b :: 0 <= a < b < |top| ==> Before(e, order[a], order[b])
    ensures 0 < n ==> forall i :: 0 <= i < |e| && i !in order[..|top|] ==>
      top != [] && Before(e, order[|top| - 1], i)
  {
    RankRanked(e, |e|);
    MostCommonEntries(e, n, order, top);
    if 0 < n {
      forall i | 0 <= i < |e| && i !in order[..|top|]
        ensures top != [] && Before(e, order[|top| - 1], i)
      {
        LeftOutBelow(e, order, |top|, i);
      }
    }
  }

  lemma MostCommonEntries(e: seq<Item>, n: nat, order: seq<nat>, top: seq<Item>)
    requires order == Rank(e, |e|) && top == MostCommon(e, n)
    ensures forall j :: 0 <= j < |top| ==> order[j] < |e| && top[j] == e[order[j]]
  {
    assert forall j :: 0 <= j < |order| ==> order[j] in order;
  }

  /** An index missing from the first `t` places of a ranked order of all
      indices comes after the `t`-th. */
  lemma LeftOutBelow(e: seq<Item>, order: seq<nat>, t: nat, i: nat)
    requires Ranked(e, order) && |order| == |e| && 0 < t <= |order|
    requires forall x :: x in order <==> 0 <= x < |e|
    requires i < |e| && i !in order[..t]
    ensures Before(e, order[t - 1], i)
  {
    assert i in order && order[t - 1] in order;
    var p :| 0 <= p < |order| && order[p] == i;
    assert Before(e, order[t - 1], order[p]);
  }

  // ---------------------------------------------------------------------
  // The chart's data

  /** The top-ten list of main.py:272-278 for the authors cells `cells`. */
  method AuthorTally(cells: seq<Option<string>>) returns (top: seq<Item>)
    ensures top == MostCommon(Counted(Credits(cells)), 10)
  {
    var all := CollectCredits(cells);
    var items := CountCredits(all);
    top := MostCommon(items, 10);
  }

  /** Each listed entry is a credit with its number of occurrences, the
      entries are distinct, and there are ten of them or as many as there
      are distinct credits. */
  lemma TallyEntries(all: seq<string>, top: seq<Item>)
    requires top == MostCommon(Counted(all), 10)
    ensures |top| == Min(10, |FirstSeen(all)|)
    ensures forall j :: 0 <= j < |top| ==> top[j].0 in all && top[j].1 == multiset(all)[top[j].0]
    ensures forall a, b :: 0 <= a < b < |top| ==> top[a].0 != top[b].0
  {
    var e := Counted(all);
    var f := FirstSeen(all);
    var order := Rank(e, |e|);
    MostCommonSpec(e, 10, order, top);
    FirstSeenSpec(all);
    forall j | 0 <= j < |top| ensures top[j].0 in all && top[j].1 == multiset(all)[top[j].0] {
      assert top[j] == e[order[j]];
      assert f[order[j]] in f;
    }
    forall a, b | 0 <= a < b < |top| ensures top[a].0 != top[b].0 {
      assert Before(e, order[a], order[b]);
      FirstSeenDistinct(all);
    }
  }

  /** A larger count comes first, and equal counts appear in the order in
      which the credits were first seen. */
  lemma TallyOrder(all: seq<string>, top: seq<Item>)
    requires top == MostCommon(Counted(all), 10)
    ensures forall a, b :: 0 <= a < b < |top| ==>
      top[a].0 in all && top[b].0 in all &&
      (top[a].1 > top[b].1 ||
       (top[a].1 == top[b].1 && FirstIndex(all, top[a].0) < FirstIndex(all, top[b].0)))
  {
    var e := Counted(all);
    var f := FirstSeen(all);
    var order := Rank(e, |e|);
    MostCommonSpec(e, 10, order, top);
    FirstSeenSpec(all);
    forall a, b | 0 <= a < b < |top|
      ensures top[a].0 in all && top[b].0 in all &&
        (top[a].1 > top[b].1 ||
         (top[a].1 == top[b].1 && FirstIndex(all, top[a].0) < FirstIndex(all, top[b].0)))
    {
      assert Before(e, order[a], order[b]);
      assert top[a] == e[order[a]] && top[b] == e[order[b]];
      assert f[order[a]] in f && f[order[b]] in f;
    }
  }

  /** Every credit left off the list has a count no larger than the last
      one listed, and on a tie it was first seen after that one. */
  lemma TallyRest(all: seq<string>, top: seq<Item>, x: string)
    requires top == MostCommon(Counted(all), 10)
    requires x in all && forall j :: 0 <= j < |top| ==> top[j].0 != x
    ensures top != [] && multiset(all)[x] <= top[|top| - 1].1
    ensures top != [] && top[|top| - 1].0 in all
    ensures top != [] && multiset(all)[x] == top[|top| - 1].1 ==>
      FirstIndex(all, top[|top| - 1].0) < FirstIndex(all, x)
  {
    var e := Counted(all);
    var f := FirstSeen(all);
    var order := Rank(e, |e|);
    MostCommonSpec(e, 10, order, top);
    FirstSeenSpec(all);
    var i :| 0 <= i < |f| && f[i] == x;
    assert e[i].1 == multiset(all)[x];
    assert i !in order[..|top|] by {
      forall j | 0 <= j < |top| ensures order[j] != i {
        assert top[j] == e[order[j]];
      }
    }
    var k := order[|top| - 1];
    assert Before(e, k, i);
    assert top[|top| - 1] == e[k] && f[k] in f;
    if multiset(all)[x] == top[|top| - 1].1 {
      assert k < i;
    }
  }
}
