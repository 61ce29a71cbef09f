/**
 * The publication table as main.py sees it through pandas: named columns
 * and rows whose cells are text or missing (NaN). This module holds the
 * two column-lookup rules of main.py and the row filter of
 * `apply_filter` (main.py:182-209), stated as a selection of rows.
 */
module Tables {
  import opened Wrappers
  import opened Text

  /** A cell: `None` is a missing value (NaN). */
  type Cell = Option<string>

  /** A row maps column names to cells. */
  type Row = map<string, Cell>

  datatype Table = Table(columns: seq<string>, rows: seq<Row>)

  /** The cell of `row` in column `col`; a column the row lacks reads as
      missing. */
  function Get(row: Row, col: string): (c: Cell)
    ensures col !in row ==> c.None?
  {
    if col in row then row[col] else None
  }

  // ---------------------------------------------------------------------
  // Column lookup

  /** Where the first column whose lower-case form is `target` sits in
      `cols`, or `|cols|` when there is none. */
  function ColumnIndex(cols: seq<string>, target: string): (i: nat)
    ensures i <= |cols|
    ensures forall j :: 0 <= j < i ==> Lower(cols[j]) != target
    ensures i < |cols| ==> Lower(cols[i]) == target
  {
    if cols == [] then 0
    else if Lower(cols[0]) == target then 0
    else 1 + ColumnIndex(cols[1..], target)
  }

  /** `next((c for c in columns if c.lower() == target), None)`, the rule
      of the filter and of the charts (main.py:190-193, 259-260). */
  function FindColumn(cols: seq<string>, target: string): (r: Option<string>)
    ensures r.Some? ==> r.value in cols && Lower(r.value) == target
  {
    var i := ColumnIndex(cols, target);
    if i < |cols| then Some(cols[i]) else None
  }

  /** FindColumn returns the first column that equals the target ignoring
      case, and nothing exactly when there is no such column. */
  lemma FindColumnSpec(cols: seq<string>, target: string)
    ensures FindColumn(cols, target).None? <==> forall j :: 0 <= j < |cols| ==> Lower(cols[j]) != target
    ensures FindColumn(cols, target).Some? ==>
      exists i :: 0 <= i < |cols| && cols[i] == FindColumn(cols, target).value &&
        Lower(cols[i]) == target && forall j :: 0 <= j < i ==> Lower(cols[j]) != target
  {
    var i := ColumnIndex(cols, target);
    if i < |cols| {
      assert cols[i] == FindColumn(cols, target).value;
    }
  }

  /** `preferred if preferred in columns else fallback`, guarded by
      `preferred in columns or fallback in columns`: the case-sensitive
      rule of the preprocessing pass (main.py:164-165, 172-173). */
  function ExactColumn(cols: seq<string>, preferred: string, fallback: string): (r: Option<string>)
    ensures r.Some? <==> preferred in cols || fallback in cols
    ensures r.Some? ==> r.value in cols
    ensures preferred in cols ==> r == Some(preferred)
    ensures preferred !in cols && fallback in cols ==> r == Some(fallback)
  {
    if preferred in cols then Some(preferred)
    else if fallback in cols then Some(fallback)
    else None
  }

  /** Every column the preprocessing pass finds is seen by the filter too:
      when "Authors" or "authors" is a column, the caseless lookup for
      "authors" finds a column. */
  lemma ExactFindsCaseless(cols: seq<string>, preferred: string, fallback: string, target: string)
    requires Lower(preferred) == target && Lower(fallback) == target
    ensures ExactColumn(cols, preferred, fallback).Some? ==> FindColumn(cols, target).Some?
  {
    var e := ExactColumn(cols, preferred, fallback);
    if e.Some? {
      var k :| 0 <= k < |cols| && cols[k] == e.value;
      assert Lower(cols[k]) == target;
      FindColumnSpec(cols, target);
    }
  }

  /** The converse fails, and the two rules can also pick different
      columns: with columns ["authors", "Authors"] preprocessing rewrites
      "Authors" while the filter and the charts read "authors"; with
      ["AUTHORS"] preprocessing skips the column the filter reads. */
  lemma ColumnRulesDiffer()
    ensures ExactColumn(["authors", "Authors"], "Authors", "authors") == Some("Authors")
    ensures FindColumn(["authors", "Authors"], "authors") == Some("authors")
    ensures ExactColumn(["AUTHORS"], "Authors", "authors").None?
    ensures FindColumn(["AUTHORS"], "authors") == Some("AUTHORS")
  {
  }

  // ---------------------------------------------------------------------
  // Containment tests

  /** `q` occurs in `s` starting at index `i`. */
  predicate OccursAt(s: string, q: string, i: nat) {
    i + |q| <= |s| && s[i..i + |q|] == q
  }

  /** `q in s`: `q` occurs in `s` as a contiguous piece. */
  predicate Contains(s: string, q: string) {
    exists i: nat :: i <= |s| && OccursAt(s, q, i)
  }

  /** The four search boxes of the window. */
  datatype Field = Title | Authors | Year | Venue

  /** The text `astype(str)` gives a year cell: a missing year becomes
      "nan", as pandas before version 3.0 writes a missing value of an
      object column (main.py:203). */
  function YearText(cell: Cell): (t: string)
    ensures cell.Some? ==> t == cell.value
    ensures cell.None? ==> t == "nan"
  {
    match cell
    case None => "nan"
    case Some(s) => s
  }

  /** One `str.contains` test of main.py:196-206. Title, author and venue
      match ignoring case and a missing cell fails (`na=False`); the year
      matches case-sensitively against `str(year)`. */
  predicate Matches(cell: Cell, field: Field, q: string) {
    if field == Year then Contains(YearText(cell), q)
    else cell.Some? && Contains(Lower(cell.value), Lower(q))
  }

  /** An active filter: the column it reads, its field and its query. */
  datatype Test = Test(col: string, field: Field, query: string)

  predicate Passes(row: Row, t: Test) {
    Matches(Get(row, t.col), t.field, t.query)
  }

  predicate PassesAll(row: Row, ts: seq<Test>) {
    forall i :: 0 <= i < |ts| ==> Passes(row, ts[i])
  }

  // ---------------------------------------------------------------------
  // Selection

  /** The rows that pass every test, in their original order: what
      `filtered[mask]` keeps, one mask after another. */
  function Select(rows: seq<Row>, ts: seq<Test>): seq<Row> {
    if rows == [] then []
    else (if PassesAll(rows[0], ts) then [rows[0]] else []) + Select(rows[1..], ts)
  }

  /** `xs` is `ys` with some elements left out, the rest in order. */
  predicate IsSubsequence<T(==)>(xs: seq<T>, ys: seq<T>)
    decreases |ys|
  {
    xs == [] ||
    (ys != [] &&
     ((xs[0] == ys[0] && IsSubsequence(xs[1..], ys[1..])) || IsSubsequence(xs, ys[1..])))
  }

  /** Every sequence is a subsequence of itself. */
  lemma {:induction false} SubsequenceRefl<T>(xs: seq<T>)
    ensures IsSubsequence(xs, xs)
  {
    if xs != [] {
      SubsequenceRefl(xs[1..]);
    }
  }

  /** Selection keeps rows in order and invents none. */
  lemma {:induction false} SelectSubsequence(rows: seq<Row>, ts: seq<Test>)
    ensures IsSubsequence(Select(rows, ts), rows)
  {
    if rows != [] {
      SelectSubsequence(rows[1..], ts);
      var rest := Select(rows[1..], ts);
      if PassesAll(rows[0], ts) {
        assert Select(rows, ts) == [rows[0]] + rest;
        assert Select(rows, ts)[1..] == rest;
      } else {
        assert Select(rows, ts) == rest;
      }
    }
  }

  /** Every selected row passes the tests, and every row of the input that
      passes them is selected as many times as it occurs. */
  lemma {:induction false} SelectCount(rows: seq<Row>, ts: seq<Test>, row: Row)
    ensures multiset(Select(rows, ts))[row] ==
      if PassesAll(row, ts) then multiset(rows)[row] else 0
  {
    if rows != [] {
      SelectCount(rows[1..], ts, row);
      assert rows == [rows[0]] + rows[1..];
    }
  }

  /** Every selected row passes every test. */
  lemma SelectSound(rows: seq<Row>, ts: seq<Test>)
    ensures forall r :: r in Select(rows, ts) ==> PassesAll(r, ts)
  {
    forall r | r in Select(rows, ts) ensures PassesAll(r, ts) {
      SelectCount(rows, ts, r);
    }
  }

  /** With no test every row is kept. */
  lemma {:induction false} SelectNone(rows: seq<Row>)
    ensures Select(rows, []) == rows
  {
    if rows != [] {
      SelectNone(rows[1..]);
      assert [rows[0]] + rows[1..] == rows;
    }
  }

  /** Applying one more mask to a selection is selecting with one more
      test. */
  lemma {:induction false} SelectThen(rows: seq<Row>, ts: seq<Test>, t: Test)
    ensures Select(Select(rows, ts), [t]) == Select(rows, ts + [t])
  {
    if rows != [] {
      SelectThen(rows[1..], ts, t);
      var head := if PassesAll(rows[0], ts) then [rows[0]] else [];
      SelectAppend(head, Select(rows[1..], ts), [t]);
      assert PassesAll(rows[0], ts + [t]) <==> PassesAll(rows[0], ts) && Passes(rows[0], t) by {
        assert forall i :: 0 <= i < |ts| ==> (ts + [t])[i] == ts[i];
        assert (ts + [t])[|ts|] == t;
      }
      if head != [] {
        assert Select(head, [t]) == if Passes(rows[0], t) then [rows[0]] else [];
      }
    }
  }

  /** Selection distributes over concatenation. */
  lemma {:induction false} SelectAppend(a: seq<Row>, b: seq<Row>, ts: seq<Test>)
    ensures Select(a + b, ts) == Select(a, ts) + Select(b, ts)
  {
    if a != [] {
      SelectAppend(a[1..], b, ts);
      assert (a + b)[1..] == a[1..] + b;
    } else {
      assert a + b == b;
    }
  }

  // ---------------------------------------------------------------------
  // The filter of apply_filter

  /** The four query strings of the window. */
  datatype Queries = Queries(title: string, author: string, year: string, venue: string)

  /** The test one search box adds: none when its query is empty or its
      column is absent. */
  function Step(cols: seq<string>, target: string, field: Field, q: string): (ts: seq<Test>)
    ensures |ts| <= 1
    ensures ts != [] <==> q != [] && FindColumn(cols, target).Some?
  {
    var col := FindColumn(cols, target);
    if q != [] && col.Some? then [Test(col.value, field, q)] else []
  }

  /** The active tests, in the order main.py applies them. */
  function ActiveTests(cols: seq<string>, q: Queries): seq<Test> {
    Step(cols, "title", Title, q.title) + Step(cols, "authors", Authors, q.author)
    + Step(cols, "year", Year, q.year) + Step(cols, "venue", Venue, q.venue)
  }

  /** What `apply_filter` leaves in `filtered_df`: the same columns and
      the rows of the table that pass every active test. */
  function Filtered(t: Table, q: Queries): (r: Table)
    ensures r.columns == t.columns
  {
    Table(t.columns, Select(t.rows, ActiveTests(t.columns, q)))
  }

  /** With all four queries empty the filter keeps the whole table. */
  lemma FilterEmptyQueries(t: Table)
    ensures Filtered(t, Queries([], [], [], [])) == t
  {
    SelectNone(t.rows);
  }

  /** The rows of the filtered table are an order-preserving subsequence of
      the table's rows; each passes every active test; and each row of the
      table that passes them all is kept, as often as it occurs. */
  lemma FilterSpec(t: Table, q: Queries, row: Row)
    ensures IsSubsequence(Filtered(t, q).rows, t.rows)
    ensures row in Filtered(t, q).rows ==> PassesAll(row, ActiveTests(t.columns, q))
    ensures PassesAll(row, ActiveTests(t.columns, q)) ==>
      multiset(Filtered(t, q).rows)[row] == multiset(t.rows)[row]
  {
    SelectSubsequence(t.rows, ActiveTests(t.columns, q));
    SelectCount(t.rows, ActiveTests(t.columns, q), row);
  }
}
