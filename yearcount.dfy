/**
 * The publications-per-year series of `visualize` (main.py:263-264):
 * `value_counts()` drops the missing years and counts each distinct one,
 * `sort_index()` orders the years ascending. The series is modelled as a
 * list of (year, count) pairs; years are compared as Python compares
 * strings.
 */
module YearCount {
  import opened Wrappers

  /** Python's `<` on strings: lexicographic by code point, a proper
      prefix first. */
  predicate LexLess(a: string, b: string)
    decreases |a|
  {
    if a == [] then b != []
    else if b == [] then false
    else if a[0] != b[0] then a[0] < b[0]
    else LexLess(a[1..], b[1..])
  }

  lemma {:induction false} LexIrreflexive(a: string)
    ensures !LexLess(a, a)
    decreases |a|
  {
    if a != [] { LexIrreflexive(a[1..]); }
  }

  lemma {:induction false} LexTrans(a: string, b: string, c: string)
    requires LexLess(a, b) && LexLess(b, c)
    ensures LexLess(a, c)
    decreases |a|
  {
    if a != [] && b != [] && c != [] && a[0] == b[0] && b[0] == c[0] {
      LexTrans(a[1..], b[1..], c[1..]);
    }
  }

  lemma {:induction false} LexTotal(a: string, b: string)
    requires a != b
    ensures LexLess(a, b) || LexLess(b, a)
    decreases |a|
  {
    if a != [] && b != [] && a[0] == b[0] {
      assert a == [a[0]] + a[1..] && b == [b[0]] + b[1..];
      LexTotal(a[1..], b[1..]);
    }
  }

  /** A year and how many rows hold it. */
  type YearEntry = (string, nat)

  /** Every key of `l` comes after `x`. */
  predicate Above(x: string, l: seq<YearEntry>) {
    forall i :: 0 <= i < |l| ==> LexLess(x, l[i].0)
  }

  /** The keys of `l` strictly ascend. */
  predicate Ascending(l: seq<YearEntry>) {
    l == [] || (Above(l[0].0, l[1..]) && Ascending(l[1..]))
  }

  /** The counts of all entries of `l` whose key is `x`. */
  function CountOf(l: seq<YearEntry>, x: string): nat {
    if l == [] then 0
    else (if l[0].0 == x then l[0].1 else 0) + CountOf(l[1..], x)
  }

  /** The sum of all counts. */
  function Total(l: seq<YearEntry>): nat {
    if l == [] then 0 else l[0].1 + Total(l[1..])
  }

  /** Count one more row holding `k`, keeping the keys in order. */
  function Bump(l: seq<YearEntry>, k: string): seq<YearEntry> {
    if l == [] then [(k, 1)]
    else if l[0].0 == k then [(k, l[0].1 + 1)] + l[1..]
    else if LexLess(k, l[0].0) then [(k, 1)] + l
    else [l[0]] + Bump(l[1..], k)
  }

  /** `column.value_counts().sort_index()` */
  function YearCounts(cells: seq<Option<string>>): seq<YearEntry> {
    if cells == [] then []
    else
      var rest := YearCounts(cells[1..]);
      match cells[0]
      case None => rest
      case Some(y) => Bump(rest, y)
  }

  lemma {:induction false} BumpCount(l: seq<YearEntry>, k: string, x: string)
    ensures CountOf(Bump(l, k), x) == CountOf(l, x) + (if x == k then 1 else 0)
  {
    if l != [] && l[0].0 != k && !LexLess(k, l[0].0) {
      BumpCount(l[1..], k, x);
      assert Bump(l, k)[1..] == Bump(l[1..], k);
    } else if l != [] && l[0].0 == k {
      assert Bump(l, k)[1..] == l[1..];
    } else if l != [] {
      assert Bump(l, k)[1..] == l;
    }
  }

  lemma {:induction false} BumpTotal(l: seq<YearEntry>, k: string)
    ensures Total(Bump(l, k)) == Total(l) + 1
  {
    if l != [] && l[0].0 != k && !LexLess(k, l[0].0) {
      BumpTotal(l[1..], k);
      assert Bump(l, k)[1..] == Bump(l[1..], k);
    } else if l != [] && l[0].0 == k {
      assert Bump(l, k)[1..] == l[1..];
    } else if l != [] {
      assert Bump(l, k)[1..] == l;
    }
  }

  lemma {:induction false} BumpAbove(x: string, l: seq<YearEntry>, k: string)
    requires Above(x, l) && LexLess(x, k)
    ensures Above(x, Bump(l, k))
  {
    if l == [] {
    } else if l[0].0 == k {
      AboveCons(x, l[0], l[1..]);
      AboveCons(x, (k, l[0].1 + 1), l[1..]);
    } else if LexLess(k, l[0].0) {
      AboveCons(x, (k, 1), l);
    } else {
      BumpAbove(x, l[1..], k);
      AboveCons(x, l[0], l[1..]);
      AboveCons(x, l[0], Bump(l[1..], k));
    }
  }

  lemma AboveCons(x: string, e: YearEntry, rest: seq<YearEntry>)
    ensures Above(x, [e] + rest) <==> LexLess(x, e.0) && Above(x, rest)
  {
    if LexLess(x, e.0) && Above(x, rest) {
      forall i | 0 <= i < |[e] + rest| ensures LexLess(x, ([e] + rest)[i].0) {
        if i > 0 { assert ([e] + rest)[i] == rest[i - 1]; }
      }
    }
    if Above(x, [e] + rest) {
      assert ([e] + rest)[0] == e;
      forall i | 0 <= i < |rest| ensures LexLess(x, rest[i].0) {
        assert ([e] + rest)[i + 1] == rest[i];
      }
    }
  }

  lemma {:induction false} BumpAscending(l: seq<YearEntry>, k: string)
    requires Ascending(l)
    ensures Ascending(Bump(l, k))
  {
    if l == [] {
    } else if l[0].0 == k {
      assert Bump(l, k)[1..] == l[1..];
    } else if LexLess(k, l[0].0) {
      assert Bump(l, k)[1..] == l;
      forall i | 0 <= i < |l| ensures LexLess(k, l[i].0) {
        if i > 0 { LexTrans(k, l[0].0, l[i].0); }
      }
    } else {
      LexTotal(k, l[0].0);
      BumpAscending(l[1..], k);
      BumpAbove(l[0].0, l[1..], k);
      assert Bump(l, k)[1..] == Bump(l[1..], k);
    }
  }

  /** Each entry of an ascending list holds the whole count of its key. */
  lemma {:induction false} AscendingEntry(l: seq<YearEntry>, i: nat)
    requires Ascending(l) && i < |l|
    ensures CountOf(l, l[i].0) == l[i].1
  {
    if i == 0 {
      AboveMisses(l[0].0, l[1..]);
    } else {
      AscendingEntry(l[1..], i - 1);
      assert LexLess(l[0].0, l[i].0);
      LexIrreflexive(l[0].0);
    }
  }

  /** A key before every key of `l` has no count in `l`. */
  lemma {:induction false} AboveMisses(x: string, l: seq<YearEntry>)
    requires Above(x, l)
    ensures CountOf(l, x) == 0
  {
    if l != [] {
      LexIrreflexive(x);
      AboveMisses(x, l[1..]);
    }
  }

  /** In an ascending list keys are strictly ascending pairwise, so they
      are distinct. */
  lemma {:induction false} AscendingPairs(l: seq<YearEntry>)
    requires Ascending(l)
    ensures forall i, j :: 0 <= i < j < |l| ==> LexLess(l[i].0, l[j].0)
  {
    if l != [] {
      AscendingPairs(l[1..]);
      assert forall i, j :: 1 <= i < j < |l| ==> l[i] == l[1..][i - 1] && l[j] == l[1..][j - 1];
    }
  }

  /** A key with a positive count is the key of some entry. */
  lemma {:induction false} CountOfPositive(l: seq<YearEntry>, x: string)
    requires CountOf(l, x) > 0
    ensures exists i :: 0 <= i < |l| && l[i].0 == x
  {
    if l[0].0 != x {
      CountOfPositive(l[1..], x);
      var i :| 0 <= i < |l[1..]| && l[1..][i].0 == x;
      assert l[i + 1].0 == x;
    }
  }

  /** The series lists each present year once, in ascending order, with
      the number of cells holding it. */
  lemma {:induction false} YearCountsInvariant(cells: seq<Option<string>>, y: string)
    ensures Ascending(YearCounts(cells))
    ensures CountOf(YearCounts(cells), y) == multiset(cells)[Some(y)]
    ensures Total(YearCounts(cells)) == |cells| - multiset(cells)[None]
  {
    if cells != [] {
      YearCountsInvariant(cells[1..], y);
      assert cells == [cells[0]] + cells[1..];
      var rest := YearCounts(cells[1..]);
      if cells[0].Some? {
        BumpAscending(rest, cells[0].value);
        BumpCount(rest, cells[0].value, y);
        BumpTotal(rest, cells[0].value);
      }
    }
  }

  /** `value_counts().sort_index()` as the chart uses it: the years are
      strictly ascending (so distinct); each year listed is a present
      year, and its count is the number of cells holding it; every
      present year is listed; the counts add up to the number of present
      cells. */
  lemma YearCountsSpec(cells: seq<Option<string>>)
    ensures forall i, j :: 0 <= i < j < |YearCounts(cells)| ==>
      LexLess(YearCounts(cells)[i].0, YearCounts(cells)[j].0)
    ensures forall i :: 0 <= i < |YearCounts(cells)| ==>
      YearCounts(cells)[i].1 == multiset(cells)[Some(YearCounts(cells)[i].0)] &&
      Some(YearCounts(cells)[i].0) in cells
    ensures forall y :: Some(y) in cells ==>
      exists i :: 0 <= i < |YearCounts(cells)| && YearCounts(cells)[i].0 == y
    ensures Total(YearCounts(cells)) == |cells| - multiset(cells)[None]
  {
    var l := YearCounts(cells);
    YearCountsInvariant(cells, []);
    AscendingPairs(l);
    forall i | 0 <= i < |l|
      ensures l[i].1 == multiset(cells)[Some(l[i].0)] && Some(l[i].0) in cells
    {
      YearCountsInvariant(cells, l[i].0);
      AscendingEntry(l, i);
      PositiveCounts(cells, i);
    }
    forall y | Some(y) in cells
      ensures exists i :: 0 <= i < |l| && l[i].0 == y
    {
      YearCountsInvariant(cells, y);
      CountOfPositive(l, y);
    }
  }

  /** No year in the series has count zero. */
  lemma {:induction false} PositiveCounts(cells: seq<Option<string>>, i: nat)
    requires i < |YearCounts(cells)|
    ensures YearCounts(cells)[i].1 > 0
  {
    if cells != [] {
      var rest := YearCounts(cells[1..]);
      if cells[0].None? {
        PositiveCounts(cells[1..], i);
      } else {
        forall j | 0 <= j < |rest| ensures rest[j].1 > 0 {
          PositiveCounts(cells[1..], j);
        }
        BumpPositive(rest, cells[0].value, i);
      }
    }
  }

  lemma {:induction false} BumpPositive(l: seq<YearEntry>, k: string, i: nat)
    requires forall j :: 0 <= j < |l| ==> l[j].1 > 0
    requires i < |Bump(l, k)|
    ensures Bump(l, k)[i].1 > 0
  {
    if l != [] && l[0].0 != k && !LexLess(k, l[0].0) && i > 0 {
      BumpPositive(l[1..], k, i - 1);
      assert Bump(l, k)[i] == Bump(l[1..], k)[i - 1];
    } else if l != [] && l[0].0 == k && i > 0 {
      assert Bump(l, k)[i] == l[i];
    } else if l != [] && LexLess(k, l[0].0) && i > 0 {
      assert Bump(l, k)[i] == l[i - 1];
    }
  }
}
