/**
 * The state of a `PublicationExplorer` window (main.py:15-16): the loaded
 * table `df` and the table on display `filtered_df`, and the operations
 * that change them: loading, the preprocessing pass, the filter, clearing
 * the filter, and the data behind the two charts. pandas' `copy()` is
 * value semantics here: a table is a value, so a copy cannot be changed
 * through the original.
 */
module Session {
  import opened Wrappers
  import opened Tables
  import Author
  import Venue
  import YearCount
  import Tally

  // ---------------------------------------------------------------------
  // The preprocessing pass (main.py:157-180)

  /** The two column rewrites of the pass. */
  datatype Normaliser = AuthorNames | VenueNames

  /** One cell through a rewrite: a missing cell stays missing in both. */
  function Normalise(n: Normaliser, cell: Cell): (r: Cell)
    ensures r.None? <==> cell.None?
  {
    match n
    case AuthorNames => Author.ExpandAuthors(cell)
    case VenueNames => Venue.VenueCell(cell)
  }

  /** One row with the cell of column `col` rewritten; the row gains the
      column if it lacked it, as a missing cell. */
  function Update(r: Row, col: string, n: Normaliser): (u: Row)
    ensures u.Keys == r.Keys + {col}
    ensures Get(u, col) == Normalise(n, Get(r, col))
    ensures forall c :: c != col ==> Get(u, c) == Get(r, c)
  {
    r[col := Normalise(n, Get(r, col))]
  }

  /** `df[col] = df[col].apply(...)`: every row gets the rewritten cell of
      column `col`. */
  function RewriteColumn(rows: seq<Row>, col: string, n: Normaliser): (r: seq<Row>)
    ensures |r| == |rows|
    ensures forall i :: 0 <= i < |rows| ==> r[i] == Update(rows[i], col, n)
  {
    seq(|rows|, i requires 0 <= i < |rows| => Update(rows[i], col, n))
  }

  /** The column the pass rewrites for authors, found case-sensitively. */
  function AuthorsColumn(cols: seq<string>): Option<string> {
    ExactColumn(cols, "Authors", "authors")
  }

  /** The column the pass rewrites for venues, found case-sensitively. */
  function VenueColumn(cols: seq<string>): Option<string> {
    ExactColumn(cols, "Venue", "venue")
  }

  function RewriteIf(rows: seq<Row>, col: Option<string>, n: Normaliser): seq<Row> {
    if col.Some? then RewriteColumn(rows, col.value, n) else rows
  }

  function UpdateIf(r: Row, col: Option<string>, n: Normaliser): Row {
    if col.Some? then Update(r, col.value, n) else r
  }

  /** The table after the pass: the authors column, then the venue
      column, rewritten where present. */
  function Preprocessed(t: Table): Table {
    var rows := RewriteIf(t.rows, AuthorsColumn(t.columns), AuthorNames);
    Table(t.columns, RewriteIf(rows, VenueColumn(t.columns), VenueNames))
  }

  /** The pass works row by row. */
  lemma PreprocessedRow(t: Table, i: nat)
    requires i < |t.rows|
    ensures |Preprocessed(t).rows| == |t.rows|
    ensures Preprocessed(t).rows[i] ==
      UpdateIf(UpdateIf(t.rows[i], AuthorsColumn(t.columns), AuthorNames), VenueColumn(t.columns), VenueNames)
  {
  }

  /** The two rewritten columns are different columns. */
  lemma ColumnsApart(cols: seq<string>)
    ensures AuthorsColumn(cols).Some? && VenueColumn(cols).Some? ==>
      AuthorsColumn(cols).value != VenueColumn(cols).value
  {
    var a := AuthorsColumn(cols);
    var v := VenueColumn(cols);
    if a.Some? && v.Some? {
      assert a.value == "Authors" || a.value == "authors";
      assert v.value == "Venue" || v.value == "venue";
      assert a.value[0] != v.value[0];
    }
  }

  /** The pass keeps the columns and the number and order of the rows;
      it changes the authors and venue cells only, each to its normalised
      form, and leaves every other cell as it was. */
  lemma PreprocessCells(t: Table, i: nat, c: string)
    requires i < |t.rows|
    ensures Preprocessed(t).columns == t.columns
    ensures |Preprocessed(t).rows| == |t.rows|
    ensures AuthorsColumn(t.columns) == Some(c) ==>
      Get(Preprocessed(t).rows[i], c) == Author.ExpandAuthors(Get(t.rows[i], c))
    ensures VenueColumn(t.columns) == Some(c) ==>
      Get(Preprocessed(t).rows[i], c) == Venue.VenueCell(Get(t.rows[i], c))
    ensures AuthorsColumn(t.columns) != Some(c) && VenueColumn(t.columns) != Some(c) ==>
      Get(Preprocessed(t).rows[i], c) == Get(t.rows[i], c)
  {
    PreprocessedRow(t, i);
    ColumnsApart(t.columns);
  }

  /** No ','-separated piece after the first of an authors cell is
      blank: the condition under which the pass is idempotent. */
  predicate LaterPiecesFilled(t: Table) {
    AuthorsColumn(t.columns).Some? ==>
      forall i :: 0 <= i < |t.rows| ==> CellSettles(Get(t.rows[i], AuthorsColumn(t.columns).value))
  }

  predicate CellSettles(cell: Cell) {
    cell.Some? ==> Author.LaterPiecesFilled(cell.value)
  }

  /** Running the pass a second time changes nothing exactly when no
      ','-separated piece after the first of an authors cell is blank (such
      a piece gains a space on every run: Author.ExpandBlankPieceGrows). */
  lemma PreprocessIdempotent(t: Table)
    ensures Preprocessed(Preprocessed(t)) == Preprocessed(t) <==> LaterPiecesFilled(t)
  {
    if LaterPiecesFilled(t) {
      PreprocessSettles(t);
    } else {
      var a := AuthorsColumn(t.columns).value;
      var i :| 0 <= i < |t.rows| && !CellSettles(Get(t.rows[i], a));
      PreprocessGrows(t, i, a);
    }
  }

  /** An authors cell with a blank piece after the first changes again on
      a second pass. */
  lemma PreprocessGrows(t: Table, i: nat, a: string)
    requires AuthorsColumn(t.columns) == Some(a) && i < |t.rows|
    requires !CellSettles(Get(t.rows[i], a))
    ensures Preprocessed(Preprocessed(t)) != Preprocessed(t)
  {
    var p := Preprocessed(t);
    PreprocessCells(t, i, a);
    PreprocessCells(p, i, a);
    Author.ExpandIdempotent(Get(t.rows[i], a));
    assert Get(Preprocessed(p).rows[i], a) != Get(p.rows[i], a);
  }

  lemma PreprocessSettles(t: Table)
    requires LaterPiecesFilled(t)
    ensures Preprocessed(Preprocessed(t)) == Preprocessed(t)
  {
    var p := Preprocessed(t);
    var pp := Preprocessed(p);
    forall i | 0 <= i < |p.rows| ensures pp.rows[i] == p.rows[i] {
      PreprocessedRow(t, i);
      PreprocessedRow(p, i);
      ColumnsApart(t.columns);
      var a := AuthorsColumn(t.columns);
      if a.Some? {
        Author.ExpandIdempotent(Get(t.rows[i], a.value));
      }
      RowIdempotent(t.rows[i], a, VenueColumn(t.columns));
    }
  }

  /** One row through the pass twice: a single pass, when the authors
      rewrite of its cell is idempotent. */
  lemma RowIdempotent(r: Row, a: Option<string>, v: Option<string>)
    requires a.Some? && v.Some? ==> a.value != v.value
    requires a.Some? ==> Normalise(AuthorNames, Normalise(AuthorNames, Get(r, a.value))) == Normalise(AuthorNames, Get(r, a.value))
    ensures UpdateIf(UpdateIf(UpdateIf(UpdateIf(r, a, AuthorNames), v, VenueNames), a, AuthorNames), v, VenueNames)
         == UpdateIf(UpdateIf(r, a, AuthorNames), v, VenueNames)
  {
    var ra := UpdateIf(r, a, AuthorNames);
    var rav := UpdateIf(ra, v, VenueNames);
    if v.Some? {
      VenueCellIdempotent(Get(ra, v.value));
    }
    UpdateIfIdempotent(rav, a, AuthorNames);
    UpdateIfIdempotent(rav, v, VenueNames);
  }

  lemma VenueCellIdempotent(cell: Cell)
    ensures Normalise(VenueNames, Normalise(VenueNames, cell)) == Normalise(VenueNames, cell)
  {
    if cell.Some? {
      Venue.VenueIdempotent(cell.value);
    }
  }

  /** Rewriting a cell that is already rewritten leaves the row alone. */
  lemma UpdateIfIdempotent(r: Row, col: Option<string>, n: Normaliser)
    requires col.Some? ==> col.value in r && Normalise(n, r[col.value]) == r[col.value]
    ensures UpdateIf(r, col, n) == r
  {
  }

  /** One search box of `apply_filter` (main.py:196-206): when its query
      is non-empty and its column exists, the rows kept so far are
      narrowed to those whose cell matches; otherwise they stay as they
      are. */
  method Narrow(t: Table, rows: seq<Row>, ghost done: seq<Test>, target: string, field: Field, q: string)
    returns (kept: seq<Row>)
    requires rows == Select(t.rows, done)
    ensures kept == Select(t.rows, done + Step(t.columns, target, field, q))
  {
    var col := FindColumn(t.columns, target);
    if q != [] && col.Some? {
      var test := Test(col.value, field, q);
      SelectThen(t.rows, done, test);
      kept := Select(rows, [test]);
    } else {
      assert done + Step(t.columns, target, field, q) == done;
      kept := rows;
    }
  }

  // ---------------------------------------------------------------------
  // The charts (main.py:246-278)

  /** The cells of column `col`, row by row. */
  function Column(rows: seq<Row>, col: string): (r: seq<Cell>)
    ensures |r| == |rows|
    ensures forall i :: 0 <= i < |rows| ==> r[i] == Get(rows[i], col)
  {
    seq(|rows|, i requires 0 <= i < |rows| => Get(rows[i], col))
  }

  /** The data of the two charts: the per-year series when a year column
      exists, the top-ten authors when an authors column exists. */
  datatype Charts = Charts(
    years: Option<seq<YearCount.YearEntry>>,
    authors: Option<seq<Tally.Item>>)

  /** The chart data for the table on display. */
  function ChartsOf(t: Table): Charts {
    var y := FindColumn(t.columns, "year");
    var a := FindColumn(t.columns, "authors");
    Charts(
      if y.Some? then Some(YearCount.YearCounts(Column(t.rows, y.value))) else None,
      if a.Some? then Some(Tally.MostCommon(Tally.Counted(Tally.Credits(Column(t.rows, a.value))), 10)) else None)
  }

  // ---------------------------------------------------------------------
  // The window's state

  class Explorer {
    /** `self.df`: the loaded table. */
    var df: Option<Table>
    /** `self.filtered_df`: the table on display. */
    var filtered: Option<Table>

    /** The table on display is always the loaded table or a filtered
        view of it: same columns, rows an order-preserving subsequence. */
    predicate Valid()
      reads this
    {
      (df.None? ==> filtered.None?) &&
      (df.Some? ==> filtered.Some? && filtered.value.columns == df.value.columns &&
                    IsSubsequence(filtered.value.rows, df.value.rows))
    }

    /** `__init__`: nothing loaded. */
    constructor()
      ensures Valid() && df.None? && filtered.None?
    {
      df := None;
      filtered := None;
    }

    /** `load_csv` (main.py:96-110). `loaded` is what the file dialog and
        `read_csv` produce; `None` stands for a cancelled dialog or a file
        that fails to load, which leave the state as it was. */
    method LoadCsv(loaded: Option<Table>)
      requires Valid()
      modifies this
      ensures Valid()
      ensures loaded.Some? ==> df == loaded && filtered == loaded
      ensures loaded.None? ==> df == old(df) && filtered == old(filtered)
    {
      if loaded.Some? {
        df := loaded;
        filtered := df;
        SubsequenceRefl(df.value.rows);
      }
    }

    /** `preprocess_data` (main.py:157-180): with nothing loaded nothing
        changes; otherwise the authors and venue columns of `df` are
        rewritten in place and the display is reset to a copy of it. */
    method Preprocess()
      requires Valid()
      modifies this
      ensures Valid()
      ensures old(df).None? ==> df == old(df) && filtered == old(filtered)
      ensures old(df).Some? ==> df == Some(Preprocessed(old(df).value)) && filtered == df
    {
      if df.None? {
        return;
      }
      var t := df.value;
      var authorCol := AuthorsColumn(t.columns);
      if authorCol.Some? {
        df := Some(Table(df.value.columns, RewriteColumn(df.value.rows, authorCol.value, AuthorNames)));
      }
      var venueCol := VenueColumn(df.value.columns);
      if venueCol.Some? {
        df := Some(Table(df.value.columns, RewriteColumn(df.value.rows, venueCol.value, VenueNames)));
      }
      filtered := df;
      SubsequenceRefl(df.value.rows);
    }

    /** `apply_filter` (main.py:182-209): the masks of the active search
        boxes are applied to a copy of `df` one after another and the
        result is put on display; `df` is left alone. */
    method ApplyFilter(q: Queries)
      requires Valid()
      modifies this
      ensures Valid()
      ensures df == old(df)
      ensures old(df).None? ==> filtered == old(filtered)
      ensures old(df).Some? ==> filtered == Some(Filtered(old(df).value, q))
    {
      if df.None? {
        return;
      }
      var t := df.value;
      ghost var d1 := Step(t.columns, "title", Title, q.title);
      ghost var d2 := d1 + Step(t.columns, "authors", Authors, q.author);
      ghost var d3 := d2 + Step(t.columns, "year", Year, q.year);
      SelectNone(t.rows);
      var rows := Narrow(t, t.rows, [], "title", Title, q.title);
      assert [] + d1 == d1;
      rows := Narrow(t, rows, d1, "authors", Authors, q.author);
      rows := Narrow(t, rows, d2, "year", Year, q.year);
      rows := Narrow(t, rows, d3, "venue", Venue, q.venue);
      assert d3 + Step(t.columns, "venue", Venue, q.venue) == ActiveTests(t.columns, q);
      filtered := Some(Table(t.columns, rows));
      FilterSpec(t, q, map[]);
    }

    /** `clear_filter` (main.py:211-218): the display is reset to a copy
        of `df` when a table is loaded. */
    method ClearFilter()
      requires Valid()
      modifies this
      ensures Valid()
      ensures df == old(df)
      ensures df.Some? ==> filtered == df
      ensures df.None? ==> filtered == old(filtered)
    {
      if df.Some? {
        filtered := df;
        SubsequenceRefl(df.value.rows);
      }
    }

    /** `visualize` (main.py:246-278) without the drawing: no charts when
        nothing is on display or the display is empty, otherwise the data
        of the two charts for the table on display. */
    method Visualize() returns (charts: Option<Charts>)
      ensures filtered.None? || filtered.value.rows == [] ==> charts.None?
      ensures filtered.Some? && filtered.value.rows != [] ==> charts == Some(ChartsOf(filtered.value))
    {
      if filtered.None? || filtered.value.rows == [] {
        return None;
      }
      var t := filtered.value;
      var yearCol := FindColumn(t.columns, "year");
      var authorCol := FindColumn(t.columns, "authors");
      var years: Option<seq<YearCount.YearEntry>> := None;
      if yearCol.Some? {
        years := Some(YearCount.YearCounts(Column(t.rows, yearCol.value)));
      }
      var authors: Option<seq<Tally.Item>> := None;
      if authorCol.Some? {
        var top := Tally.AuthorTally(Column(t.rows, authorCol.value));
        authors := Some(top);
      }
      charts := Some(Charts(years, authors));
    }
  }
}
