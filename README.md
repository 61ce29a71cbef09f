# Publication explorer: a Dafny model

`main.py` is a Tkinter window, `PublicationExplorer`, over a table of
scientific publications loaded from CSV. It keeps two tables: the loaded
one, `df`, and the one on display, `filtered_df`. A preprocessing pass
rewrites author names to "initials + family name" form. The same pass
normalises venue names: years and stock words such as "Conference" or
"Journal" are removed, `, - : ( )` become spaces, runs of whitespace
collapse to one space, and the rest is upper-cased. Four search boxes
filter the loaded table by substring match (ignoring case except for the
year) and display the result. A chart window plots publications per
year and the ten most credited authors.

This project models that logic and proves what it promises:

- `text.dfy` (module `Text`) holds the Python string primitives the code
  relies on, over ASCII:
  - `str.isspace`, `str.isalpha`, `str.upper`, `str.lower`;
  - the regex classes `\s`, `\d` and `\w`;
  - `strip`, `split()`, `split(',')` and `join`.

  Word splitting and regex word boundaries share one definition: the
  maximal runs of a character class (`Runs`).
- `author.dfy` (module `Author`) covers `standardize_author` and the
  comma-separated expansion of an authors cell.
- `venue.dfy` (module `Venue`) covers `standardize_venue`. It is a pipeline
  of functions, and each regex step is stated on word runs.
- `table.dfy` (module `Tables`) holds cells, rows and tables, the two
  column-lookup rules, and the filter of `apply_filter` as a selection of
  rows.
- `yearcount.dfy` (module `YearCount`) is `value_counts().sort_index()` on
  the year column.
- `tally.dfy` (module `Tally`) is the author tally. It covers the loop that
  collects the stripped pieces, the `Counter`, and `most_common(10)`.
- `session.dfy` (module `Session`) is the window's state. It is a class
  `Explorer` with the fields `df` and `filtered`, and methods for loading,
  preprocessing, filtering, clearing the filter and computing the chart
  data.

### Cells

A cell is `Option<string>`, where `None` is pandas' NaN. A row is a map
from column name to cell; a column the row lacks reads as missing. A table
is its column list and its sequence of rows. pandas' `copy()` is value
semantics: tables are values, so a copy cannot be changed through the
original.

### Where the model follows the code over its documentation

- **Year filter.** The year filter calls `astype(str)` before `str.contains`
  (main.py:203). With pandas before version 3.0, a missing value of an
  object column becomes the text `"nan"`. A missing year therefore takes
  part as `"nan"` and does not simply fail; a query "na" keeps those rows.
  `Tables.YearText` models this behaviour of pandas 1.x and 2.x.
- **Empty pieces in the tally.** The author tally counts empty pieces too:
  `"A,,B"` credits `""` once.
- **Column lookup.** The preprocessing pass finds its columns
  case-sensitively: `Authors` first, then `authors` (main.py:164-165,
  172-173). The filter and the charts take the first column whose
  lower-case form matches (main.py:190-193, 259-260). The two rules differ
  on `AUTHORS`, for example (`Tables.ColumnRulesDiffer`).
- **Blank pieces in the expansion.** Expanding the authors cell is
  idempotent exactly when no `,`-separated piece after the first is blank
  (`Author.ExpandIdempotent`). `standardize_author` returns a blank piece
  unstripped, and `", "` puts a space in front of every piece but the
  first, so `"A,"` becomes `"A, "` and then `"A,  "`
  (`Author.ExpandBlankPieceGrows`). A blank first piece gets no space and
  stays as it is.
- **Unreachable branch.** The `len(parts) == 0` branch of
  `standardize_author` (main.py:120-121) is unreachable. A name that is not
  blank has at least one word (`Author.AuthorTokens`).

## Model

| member | source | states |
|---|---|---|
| Text.Upper | main.py:127 | each character is upper-cased (ASCII `str.upper`), the length is kept |
| Text.Lower | main.py:190-193 | each character is lower-cased (ASCII `str.lower`), the length is kept |
| Text.Strip | main.py:114-117 | `strip()` is empty exactly when the input is blank; otherwise it is the middle of the input with only whitespace cut from both ends, and it starts and ends with a non-whitespace character |
| Text.RunLen | main.py:118 | the length of the leading run of a character class: all of it in the class, the next character not |
| Text.RunsShape | main.py:118 | `split()` and regex word runs are non-empty and made only of characters of their class |
| Text.RunsEmpty | main.py:114-118 | a string has no runs of a class exactly when none of its characters is in the class (`split()` of a blank string is empty) |
| Text.RunsStrip | main.py:117-118 | stripping a string does not change its whitespace-separated words |
| Text.StripNoop | main.py:153 | a string with no whitespace at either end is its own `strip()` |
| Text.Runs | main.py:118 | the maximal runs of a character class, left to right; a string starting inside the class has at least one (shape in `Text.RunsShape`, concatenation in `Text.RunsAppend`) |
| Text.RunsAppend | main.py:118 | the runs of two strings joined at a class boundary are the runs of the first followed by those of the second |
| Text.StripAmid | main.py:153 | whitespace around a string with no whitespace at its ends is exactly what `strip()` removes |
| Text.JoinEnds | main.py:153 | non-empty tokens without whitespace at their ends, joined by single spaces, give a string without whitespace at its ends |
| Text.Words | main.py:118 | `str.split()`: the maximal runs of non-whitespace (stated through `Text.RunsShape`, `Text.RunsEmpty` and `Text.RunsStrip`) |
| Text.Join | main.py:133 | `sep.join(parts)` (inverse of `split` in `Text.JoinSplit` and `Text.SplitJoin`, of `split()` in `Author.WordsOfJoin`) |
| Text.SplitOn | main.py:167 | `split(',')` never returns an empty list (counts, pieces and round trip in `Text.SplitOnCount`, `Text.SplitOnPieces`, `Text.JoinSplit`) |
| Text.SplitOnCount | main.py:167 | `split(',')` yields one more piece than the string has commas |
| Text.SplitOnPieces | main.py:167 | no piece of `split(',')` contains a comma |
| Text.JoinSplit | main.py:167 | joining the pieces of `split(c)` with `c` gives the string back |
| Text.SplitJoin | main.py:167 | splitting on `c` a join of comma-free pieces gives the pieces back |
| Author.CanonicalAuthor | main.py:112-135 | a blank name comes back unchanged (the words of the result in `Author.AuthorTokens`, idempotence in `Author.AuthorIdempotent`) |
| Author.InitialOf | main.py:126-127 | a token yields an initial exactly when it is non-empty and starts with a letter; that initial is an upper-case letter and a dot |
| Author.StandardizeAuthor | main.py:112-135 | the loop over the given names builds the canonical form `CanonicalAuthor` of the name |
| Author.AuthorTokens | main.py:114-135 | a blank name is returned unchanged; otherwise the words of the result are the initials of the given names, in order, then the family name verbatim; the result is single-spaced and not blank |
| Author.WordsOfJoin | main.py:133 | joining space-free, non-empty tokens with one space and splitting on whitespace gives them back |
| Author.InitialsShape | main.py:124-127 | every collected initial is one upper-case letter followed by `.` |
| Author.InitialsOfInitials | main.py:124-127 | tokens that are already initials are their own initials |
| Author.AuthorIdempotent | main.py:112-135 | standardising a standardised name changes nothing |
| Author.AuthorNoComma | main.py:112-135 | a name without a comma gives a result without a comma |
| Author.ExampleJohnQPublic | main.py:112-135 | "John Q. Public" becomes "J. Q. Public" |
| Author.ExampleMadonna | main.py:132-135 | "Madonna" is returned as "Madonna" (the general single-word case is part of `Author.AuthorTokens`) |
| Author.ExpandAuthors | main.py:166-169 | a missing authors cell stays missing and a present one stays present |
| Author.ExpandPieces | main.py:166-169 | an expanded cell is its normalised pieces joined by ", ", and it has exactly as many commas as the original |
| Author.ExpandIdempotent | main.py:164-169 | expanding a cell twice equals expanding it once if and only if the cell is missing or no `,`-separated piece after the first is blank |
| Author.ExpandBlankLater | main.py:166-169 | when a piece after the first is blank, a second expansion changes the cell |
| Author.CanonicalLeadingSpace | main.py:117 | the leading space that ", " adds before a non-blank piece does not change its canonical form |
| Author.ExpandBlankPieceGrows | main.py:114-115 | a blank piece after the first is not stripped and gains a space on every run, so "A," expands to "A, " and that to "A,  " |
| Venue.DropWords | main.py:145-149 | one regex deletion of whole word runs (its effect on the word runs in `Venue.DropRuns` and `Venue.KeptMembers`, the unchanged case in `Venue.DropNoop`) |
| Venue.KeptMembers | main.py:145-149 | a word survives a deletion exactly when it was there and is not a 4-digit year (or one of the nine keywords, ignoring case) |
| Venue.DropRuns | main.py:145-149 | deleting whole words never merges two words: the word runs afterwards are the old ones minus the deleted words |
| Venue.DropNoop | main.py:145-149 | a deletion that matches no word changes nothing |
| Venue.ReplacePunct | main.py:152 | every `,` `-` `:` `(` `)` becomes a space and every other character is kept |
| Venue.PunctRuns | main.py:152 | replacing punctuation leaves the word runs as they were |
| Venue.Collapse | main.py:153 | `re.sub(r'\s+', ' ', s)`: a non-empty string collapses to a non-empty one that starts with a space exactly where the input starts with whitespace |
| Venue.CollapseTokens | main.py:153 | collapsing text that starts with a token gives its tokens joined by single spaces, plus one space where the text ends in whitespace |
| Venue.CollapseStrip | main.py:153 | collapsing whitespace and stripping is joining the whitespace-separated tokens with single spaces |
| Venue.CollapseShape | main.py:153 | after `\s+` is replaced by one space, no two whitespace characters are adjacent |
| Venue.CollapseNoPunct | main.py:152-153 | collapsing whitespace adds no punctuation |
| Venue.CollapseRuns | main.py:153 | collapsing whitespace leaves the word runs as they were |
| Venue.CollapseNoop | main.py:153 | a string already single-spaced is unchanged by the collapse |
| Venue.UpperRuns | main.py:155 | the word runs of the upper-cased string are the upper-cased word runs |
| Venue.UpperRemoved | main.py:145-149 | upper-casing a word does not change whether it is a year or a keyword |
| Venue.StandardizeVenue | main.py:137-155 | a blank venue comes back unchanged (closed form in `Venue.VenueClosedForm`, words in `Venue.VenueWords`) |
| Venue.VenueClosedForm | main.py:142-155 | the pipeline is the whitespace-separated tokens of the input, after the years and keywords are deleted and the punctuation blanked, joined by single spaces (and upper-cased for a non-blank input), so every other character of a token is kept in place |
| Venue.VenueCell | main.py:174 | a missing venue stays missing and a present one is standardised |
| Venue.VenueWords | main.py:139-155 | a blank venue is returned unchanged; otherwise the words of the result are the upper-cased original words minus 4-digit years and keywords |
| Venue.VenueNoRemovable | main.py:145-149 | no word of the result is a 4-digit year or a keyword in any case |
| Venue.VenueShape | main.py:151-155 | a non-blank venue gives a result with no whitespace at either end, no two adjacent whitespace characters, none of `,-:()` and no lower-case letter |
| Venue.VenueIdempotent | main.py:137-155 | standardising a standardised venue changes nothing |
| Venue.VenueFixpoint | main.py:137-155 | a trimmed, single-spaced, upper-case venue without punctuation, years or keywords is its own standard form |
| Tables.ColumnIndex | main.py:190-193 | the position of the first column whose lower-case name is the target; none before it matches |
| Tables.FindColumn | main.py:190-193 | a column found is one of the columns and its lower-case name is the target (first match and failure in `Tables.FindColumnSpec`) |
| Tables.FindColumnSpec | main.py:190-193 | the lookup fails exactly when no column matches; otherwise it gives the first matching column |
| Tables.ExactColumn | main.py:164-165 | the preprocessing lookup succeeds exactly when `Authors` or `authors` (`Venue` or `venue`) is a column; it gives the capitalised one when present and the lower-case one otherwise |
| Tables.ExactFindsCaseless | main.py:164-165 | whenever the case-sensitive lookup finds a column, the caseless one finds one too |
| Tables.ColumnRulesDiffer | main.py:164-165 | with `authors` and `Authors` the two rules pick different columns; with only `AUTHORS` preprocessing finds none |
| Tables.YearText | main.py:203 | a present year is matched as its own text and a missing one as "nan" (pandas before 3.0) |
| Tables.Matches | main.py:196-206 | one `str.contains` test: title, authors and venue ignore case and fail on a missing cell; the year is matched on its text (properties through `Tables.SelectSound` and `Tables.SelectCount`) |
| Tables.Contains | main.py:196-206 | plain substring containment: the query occurs at some position of the text |
| Tables.Step | main.py:196-206 | a search box adds a test exactly when its query is non-empty and its column exists |
| Tables.Select | main.py:196-206 | the rows passing every test, in order (stated by `Tables.SelectSubsequence`, `Tables.SelectSound` and `Tables.SelectCount`) |
| Tables.ActiveTests | main.py:196-206 | the tests of the four search boxes in the order title, authors, year, venue, each present exactly as `Tables.Step` says |
| Tables.SelectSubsequence | main.py:196-206 | narrowing keeps an order-preserving subsequence of the rows |
| Tables.SelectCount | main.py:196-206 | a row passing every test is kept as often as it occurs; any other row is dropped |
| Tables.SelectSound | main.py:196-206 | every kept row passes every test |
| Tables.SelectThen | main.py:196-206 | narrowing by one more mask equals selecting by all the tests at once |
| Tables.SelectAppend | main.py:196-206 | selection works row by row |
| Tables.Filtered | main.py:187-208 | the filtered table keeps the columns; its rows are stated by `Tables.FilterSpec` |
| Tables.FilterEmptyQueries | main.py:187-208 | with all four queries empty the filter keeps the whole table |
| Tables.FilterSpec | main.py:187-208 | the filtered rows are a subsequence of the table's rows; every kept row passes every active test; no row passing them all is dropped |
| YearCount.LexTotal | main.py:264 | Python's string order is total (with LexIrreflexive and LexTrans it is a strict order) |
| YearCount.YearCounts | main.py:264 | `value_counts().sort_index()` of the year cells, built one cell at a time (stated by `YearCount.YearCountsSpec`) |
| YearCount.BumpAscending | main.py:264 | counting one more year keeps the series sorted |
| YearCount.BumpCount | main.py:264 | counting one more year adds one to that year and nothing to any other |
| YearCount.YearCountsInvariant | main.py:264 | the series is ascending; the count of each year is the number of cells holding it; the counts sum to the non-missing cells |
| YearCount.YearCountsSpec | main.py:263-264 | the years are strictly ascending; each listed year occurs and carries its number of cells; every present year is listed; the counts sum to the number of non-missing cells |
| YearCount.PositiveCounts | main.py:264 | no year in the series has count zero |
| Tally.CellCredits | main.py:275 | the stripped `,`-pieces of a present cell, none for a missing one (stated by `Tally.CellCreditsSpec`) |
| Tally.Credits | main.py:273-275 | the credits of the cells in order, cell after cell (the loop `Tally.CollectCredits` computes it) |
| Tally.StripEach | main.py:275 | every piece is stripped |
| Tally.CollectCredits | main.py:273-275 | the loop over the non-missing cells collects the stripped `,`-pieces of each cell, in order |
| Tally.CellCreditsSpec | main.py:275 | a cell gives one more piece than it has commas, each comma-free and stripped |
| Tally.FirstSeen | main.py:277 | the distinct credits in the order of their first occurrence (stated by `Tally.FirstSeenSpec` and `Tally.FirstSeenDistinct`) |
| Tally.FirstIndex | main.py:277-278 | the first position of an author in the credit list |
| Tally.FirstSeenSpec | main.py:277 | the `Counter` keys are exactly the credited authors, in first-seen order |
| Tally.FirstSeenDistinct | main.py:277 | the `Counter` keys are distinct |
| Tally.Counted | main.py:277 | the `Counter` items follow the first-seen order of the keys |
| Tally.CountCredits | main.py:277 | the loop building the counts and the key order gives each first-seen author with its number of credits |
| Tally.Insert | main.py:278 | inserting an index into a ranking adds exactly that index |
| Tally.InsertRanked | main.py:278 | insertion keeps the ranking by count descending, ties by first-seen order |
| Tally.Rank | main.py:278 | the ranking is a permutation of the item positions |
| Tally.RankRanked | main.py:278 | the ranking orders the items by count descending, ties by first-seen order (a stable sort) |
| Tally.MostCommon | main.py:278 | `most_common(n)` returns `min(n, #items)` entries |
| Tally.MostCommonSpec | main.py:278 | the entries are the ranked items in order, and every item left out is ranked after the last entry: a smaller count, or an equal count and later in the Counter's order |
| Tally.LeftOutBelow | main.py:278 | an item ranked below the cut comes after the last item kept: a smaller count, or an equal count and later in the Counter's order |
| Tally.AuthorTally | main.py:272-278 | the tally of a column is `most_common(10)` of the counted credits |
| Tally.TallyEntries | main.py:273-278 | at most 10 entries, each a credited author with its exact number of credits, no author twice |
| Tally.TallyOrder | main.py:278 | entries are ordered by count descending, ties by the author's first credit |
| Tally.TallyRest | main.py:278 | every credited author not listed has at most the count of the last entry, and on an equal count was first credited after that entry's author |
| Session.Normalise | main.py:166-174 | a rewrite keeps missing cells missing and present cells present |
| Session.Update | main.py:166-174 | rewriting one row's cell changes that cell to its normal form and no other cell |
| Session.RewriteColumn | main.py:166-174 | a column rewrite keeps the number of rows and rewrites each row |
| Session.Preprocessed | main.py:164-174 | the table after the pass: the authors column expanded, then the venue column standardised (stated by `Session.PreprocessCells`) |
| Session.PreprocessedRow | main.py:164-174 | the pass works row by row: the authors cell first, then the venue cell |
| Session.ColumnsApart | main.py:164-173 | the authors and venue columns of the pass are different columns |
| Session.PreprocessCells | main.py:164-174 | the pass keeps the columns and the rows; the authors cell is expanded, the venue cell is standardised, and every other cell is unchanged |
| Session.PreprocessIdempotent | main.py:157-176 | preprocessing twice gives the same table as once if and only if, when an authors column is found, no present authors cell has a blank `,`-separated piece after its first |
| Session.PreprocessSettles | main.py:157-176 | when no authors cell has a blank piece after its first, preprocessing twice gives the same table as once |
| Session.PreprocessGrows | main.py:164-169 | one authors cell with a blank piece after its first makes a second pass change the table |
| Session.RowIdempotent | main.py:166-174 | one row through the pass twice is the row through it once, provided the authors and venue columns differ and the authors cell is itself idempotent under expansion |
| Session.Narrow | main.py:196-206 | one search box narrows the rows so far to those passing its test, or leaves them as they are |
| Session.Column | main.py:263-274 | the cells of a column: one per row, each the row's cell in that column (missing where the row lacks it) |
| Session.ChartsOf | main.py:259-278 | the year series when a year column is found and the top-ten tally when an authors column is found (each stated by `YearCount.YearCountsSpec` and `Tally.TallyEntries`) |
| Session.Explorer.constructor | main.py:15-16 | nothing is loaded or displayed |
| Session.Explorer.LoadCsv | main.py:96-110 | a loaded table becomes both `df` and the display; a cancelled or failed load changes nothing |
| Session.Explorer.Preprocess | main.py:157-180 | with nothing loaded nothing changes; otherwise `df` becomes the preprocessed table and the display is reset to it |
| Session.Explorer.ApplyFilter | main.py:182-209 | `df` is unchanged; the display becomes the filtered `df` (a subsequence of its rows) |
| Session.Explorer.ClearFilter | main.py:211-218 | `df` is unchanged and the display is reset to it |
| Session.Explorer.Visualize | main.py:246-278 | no charts when nothing is displayed or the display is empty; otherwise the year series and the top-ten tally of the display |

## Left out

- The Tkinter interface is not modelled: `setup_ui`, `display_data`, the
  message boxes and the status labels. The four `StringVar` queries are a
  `Queries` parameter, and `clear_filter` resetting them is not modelled.
- File dialogs, `pd.read_csv` and `export_results` / `to_csv` are I/O and
  are not modelled. `LoadCsv` takes the table that was read, or `None` for
  a cancelled dialog or a failed read.
- The matplotlib drawing is not modelled: axes, labels and
  `FigureCanvasTkAgg`. Only the data of the two charts is kept.
- `str.contains` defaults to a regular-expression match. The model assumes
  plain substring containment, which agrees when the query holds no regex
  metacharacters. An invalid pattern, which raises in the source, is not
  modelled.
- pandas dtype inference is not modelled. Every present cell is a string.
  A numeric year column would match `str(year)`, for example "2020.0" for
  a float column. `YearCount.YearCounts` orders years as strings, which
  agrees with numeric order only for years of equal length.
- Only ASCII case mapping and character classes are modelled. Unicode
  `upper`, `isalpha`, `\w`, `\d` and `\s` beyond ASCII behave differently;
  for example `'ß'.upper()` gives two characters.
- Exceptions raised by non-string cells are not modelled: `.strip()` on a
  number during the pass, or `.str` on a non-string column. The pass's
  `try`/`except` therefore has no error path.
