/**
 * The venue normaliser of main.py (`standardize_venue`, main.py:137-155):
 * a fixed pipeline that strips the name, deletes whole 4-digit words,
 * deletes whole words that are one of nine keywords ignoring case, turns
 * the punctuation `, - : ( )` into spaces, collapses whitespace, strips
 * again and uppercases.
 *
 * Both deletions are regex substitutions wrapped in `\b...\b`. Since the
 * pattern inside is made of word characters only, a match starts and ends
 * at the ends of a maximal run of word characters, so each deletion removes
 * whole maximal word runs and leaves every other character where it was;
 * two runs never merge. That is how the model states them.
 */
module Venue {
  import opened Wrappers
  import opened Text

  // ---------------------------------------------------------------------
  // Deleting whole words

  /** The two deletions: `\b\d{4}\b` and the keyword alternation. */
  datatype Removal = Years | Keywords

  /** The keywords of main.py:148, lower-cased; the match ignores case. */
  const KeywordSet: set<string> :=
    {"conference", "proceedings", "workshop", "symposium", "international",
     "journal", "on", "of", "the"}

  /** A maximal word run that `\d{4}` matches whole. */
  predicate IsYear(w: string) {
    |w| == 4 && forall i :: 0 <= i < |w| ==> IsDigit(w[i])
  }

  /** The word run `w` is deleted by the substitution `d`. */
  predicate Removed(w: string, d: Removal) {
    match d
    case Years => IsYear(w)
    case Keywords => Lower(w) in KeywordSet
  }

  /** The substitution `d` applied to `s`: every maximal word run that it
      matches is deleted, every other character is kept. */
  function DropWords(s: string, d: Removal): string
    decreases |s|
  {
    if s == [] then []
    else if !IsWordChar(s[0]) then [s[0]] + DropWords(s[1..], d)
    else
      var n := RunLen(s, Word);
      (if Removed(s[..n], d) then [] else s[..n]) + DropWords(s[n..], d)
  }

  /** The words of `ws` that `d` does not delete, in order. */
  function Kept(ws: seq<string>, d: Removal): seq<string> {
    if ws == [] then []
    else (if Removed(ws[0], d) then [] else [ws[0]]) + Kept(ws[1..], d)
  }

  /** A word is kept exactly when it is one of `ws` and not deleted. */
  lemma {:induction false} KeptMembers(ws: seq<string>, d: Removal)
    ensures forall w :: w in Kept(ws, d) <==> w in ws && !Removed(w, d)
  {
    if ws != [] {
      KeptMembers(ws[1..], d);
      assert ws == [ws[0]] + ws[1..];
    }
  }

  /** The words of the result of a deletion are the words of its input
      that it does not match, in the same order. */
  lemma {:induction false} DropRuns(s: string, d: Removal)
    ensures Runs(DropWords(s, d), Word) == Kept(Runs(s, Word), d)
    decreases |s|
  {
    if s == [] {
    } else if !IsWordChar(s[0]) {
      DropRuns(s[1..], d);
      DropSkip(s, d);
    } else {
      var n := RunLen(s, Word);
      DropRuns(s[n..], d);
      DropRun(s, d, n);
    }
  }

  lemma DropSkip(s: string, d: Removal)
    requires s != [] && !IsWordChar(s[0])
    requires Runs(DropWords(s[1..], d), Word) == Kept(Runs(s[1..], Word), d)
    ensures Runs(DropWords(s, d), Word) == Kept(Runs(s, Word), d)
  {
    RunsSkip(s[0], DropWords(s[1..], d), Word);
    RunsSkip(s[0], s[1..], Word);
    assert [s[0]] + s[1..] == s;
  }

  lemma DropRun(s: string, d: Removal, n: nat)
    requires s != [] && IsWordChar(s[0]) && n == RunLen(s, Word)
    requires Runs(DropWords(s[n..], d), Word) == Kept(Runs(s[n..], Word), d)
    ensures Runs(DropWords(s, d), Word) == Kept(Runs(s, Word), d)
  {
    var w := s[..n];
    var x := if Removed(w, d) then [] else w;
    var rest := DropWords(s[n..], d);
    RunsFront(s, Word);
    var ws := [w] + Runs(s[n..], Word);
    assert ws[0] == w && ws[1..] == Runs(s[n..], Word);
    assert rest == [] || !IsWordChar(rest[0]);
    RunsAppend(x, rest, Word);
    if !Removed(w, d) {
      RunsWhole(w, Word);
    }
  }

  /** A deletion that matches no word changes nothing. */
  lemma {:induction false} DropNoop(s: string, d: Removal)
    requires forall j :: 0 <= j < |Runs(s, Word)| ==> !Removed(Runs(s, Word)[j], d)
    ensures DropWords(s, d) == s
    decreases |s|
  {
    if s == [] {
    } else if !IsWordChar(s[0]) {
      RunsSkip(s[0], s[1..], Word);
      assert [s[0]] + s[1..] == s;
      DropNoop(s[1..], d);
    } else {
      var n := RunLen(s, Word);
      RunsFront(s, Word);
      NoopRest(s, d, n);
      DropNoop(s[n..], d);
      NoopRun(s, d, n);
    }
  }

  /** What DropNoop's requirement says about the first word run of `s`
      and about the rest of `s`. */
  lemma NoopRest(s: string, d: Removal, n: nat)
    requires s != [] && IsWordChar(s[0]) && n == RunLen(s, Word)
    requires Runs(s, Word) == [s[..n]] + Runs(s[n..], Word)
    requires forall j :: 0 <= j < |Runs(s, Word)| ==> !Removed(Runs(s, Word)[j], d)
    ensures !Removed(s[..n], d)
    ensures forall j :: 0 <= j < |Runs(s[n..], Word)| ==> !Removed(Runs(s[n..], Word)[j], d)
  {
    var rs := Runs(s[n..], Word);
    assert Runs(s, Word)[0] == s[..n];
    assert forall j :: 0 <= j < |rs| ==> rs[j] == Runs(s, Word)[j + 1];
  }

  lemma NoopRun(s: string, d: Removal, n: nat)
    requires s != [] && IsWordChar(s[0]) && n == RunLen(s, Word)
    requires !Removed(s[..n], d) && DropWords(s[n..], d) == s[n..]
    ensures DropWords(s, d) == s
  {
    assert DropWords(s, d) == s[..n] + DropWords(s[n..], d);
    assert s[..n] + s[n..] == s;
  }

  // ---------------------------------------------------------------------
  // Punctuation

  /** The class `[,\-:()]` of main.py:152. */
  predicate IsPunct(c: char) {
    c == ',' || c == '-' || c == ':' || c == '(' || c == ')'
  }

  /** `re.sub(r'[,\-:()]', ' ', s)` */
  function ReplacePunct(s: string): (r: string)
    ensures |r| == |s|
    ensures forall i :: 0 <= i < |s| ==> !IsPunct(r[i])
    ensures forall i :: 0 <= i < |s| ==> !IsPunct(s[i]) ==> r[i] == s[i]
    ensures forall i :: 0 <= i < |s| && IsPunct(s[i]) ==> r[i] == ' '
  {
    seq(|s|, i requires 0 <= i < |s| => if IsPunct(s[i]) then ' ' else s[i])
  }

  /** No character of `s` is punctuation. */
  predicate NoPunct(s: string) {
    forall i :: 0 <= i < |s| ==> !IsPunct(s[i])
  }

  /** Two strings that agree on which characters are in class `k`, and on
      those characters, have the same runs of `k`. */
  lemma {:induction false} RunsAgree(s: string, t: string, k: CharClass)
    requires |s| == |t|
    requires forall i :: 0 <= i < |s| ==> (In(s[i], k) <==> In(t[i], k))
    requires forall i :: 0 <= i < |s| ==> In(s[i], k) ==> s[i] == t[i]
    ensures Runs(s, k) == Runs(t, k)
    decreases |s|
  {
    if s != [] {
      RunsAgree(s[1..], t[1..], k);
    }
  }

  /** Punctuation is not a word character, so replacing it keeps the
      words. */
  lemma PunctRuns(s: string)
    ensures Runs(ReplacePunct(s), Word) == Runs(s, Word)
  {
    RunsAgree(ReplacePunct(s), s, Word);
  }

  // ---------------------------------------------------------------------
  // Whitespace

  /** `re.sub(r'\s+', ' ', s)`: every maximal run of whitespace becomes a
      single space. */
  function Collapse(s: string): (r: string)
    ensures s != [] ==> r != [] && r[0] == (if IsSpace(s[0]) then ' ' else s[0])
    decreases |s|
  {
    if s == [] then []
    else if IsSpace(s[0]) then [' '] + Collapse(s[RunLen(s, Space)..])
    else [s[0]] + Collapse(s[1..])
  }

  /** No whitespace at either end of `s`. */
  predicate Trimmed(s: string) {
    s == [] || (!IsSpace(s[0]) && !IsSpace(s[|s| - 1]))
  }

  /** The only whitespace in `s` is ' ', and never two in a row. */
  predicate Collapsed(s: string) {
    forall i :: 0 <= i < |s| && IsSpace(s[i]) ==>
      s[i] == ' ' && (i + 1 == |s| || !IsSpace(s[i + 1]))
  }

  lemma ConsCollapsed(c: char, t: string)
    requires Collapsed(t)
    requires IsSpace(c) ==> c == ' ' && (t == [] || !IsSpace(t[0]))
    ensures Collapsed([c] + t)
  {
    var s := [c] + t;
    forall i | 0 <= i < |s| && IsSpace(s[i])
      ensures s[i] == ' ' && (i + 1 == |s| || !IsSpace(s[i + 1]))
    {
      if i > 0 { assert s[i] == t[i - 1]; }
    }
  }

  /** Collapsing leaves single spaces only. */
  lemma {:induction false} CollapseShape(s: string)
    ensures Collapsed(Collapse(s))
    decreases |s|
  {
    if s != [] {
      if IsSpace(s[0]) {
        var t := s[RunLen(s, Space)..];
        CollapseShape(t);
        ConsCollapsed(' ', Collapse(t));
      } else {
        CollapseShape(s[1..]);
        ConsCollapsed(s[0], Collapse(s[1..]));
      }
    }
  }

  /** Collapsing brings in no character but ' '. */
  lemma {:induction false} CollapseNoPunct(s: string)
    requires NoPunct(s)
    ensures NoPunct(Collapse(s))
    decreases |s|
  {
    if s != [] {
      var t := if IsSpace(s[0]) then s[RunLen(s, Space)..] else s[1..];
      assert NoPunct(t) by {
        forall i | 0 <= i < |t| ensures !IsPunct(t[i]) {
          assert t[i] == s[|s| - |t| + i];
        }
      }
      CollapseNoPunct(t);
      var c := Collapse(s);
      assert c[1..] == Collapse(t);
      forall i | 0 <= i < |c| ensures !IsPunct(c[i]) {
        if i > 0 { assert c[i] == Collapse(t)[i - 1]; }
      }
    }
  }

  /** Whitespace is not a word character, so collapsing keeps the
      words. */
  lemma {:induction false} CollapseRuns(s: string)
    ensures Runs(Collapse(s), Word) == Runs(s, Word)
    decreases |s|
  {
    if s != [] {
      if IsSpace(s[0]) {
        var n := RunLen(s, Space);
        CollapseRuns(s[n..]);
        CollapseSpaceStep(s, n);
      } else {
        CollapseRuns(s[1..]);
        RunsConsAgree(s[0], Collapse(s[1..]), s[1..], Word);
        assert [s[0]] + s[1..] == s;
      }
    }
  }

  lemma CollapseSpaceStep(s: string, n: nat)
    requires s != [] && IsSpace(s[0]) && n == RunLen(s, Space)
    requires Runs(Collapse(s[n..]), Word) == Runs(s[n..], Word)
    ensures Runs(Collapse(s), Word) == Runs(s, Word)
  {
    RunsSkip(' ', Collapse(s[n..]), Word);
    assert s == s[..n] + s[n..];
    BlankOutside(s[..n], Word);
    RunsAppend(s[..n], s[n..], Word);
  }

  /** The same character in front of two strings with the same runs, and
      whose first characters fall on the same side of the class, gives the
      same runs. */
  lemma RunsConsAgree(c: char, t: string, u: string, k: CharClass)
    requires Runs(t, k) == Runs(u, k)
    requires t == [] <==> u == []
    requires t != [] ==> (In(t[0], k) <==> In(u[0], k))
    ensures Runs([c] + t, k) == Runs([c] + u, k)
  {
    assert ([c] + t)[1..] == t;
    assert ([c] + u)[1..] == u;
  }

  /** A collapsed string is its own collapse. */
  lemma {:induction false} CollapseNoop(s: string)
    requires Collapsed(s)
    ensures Collapse(s) == s
    decreases |s|
  {
    if s != [] {
      assert Collapsed(s[1..]) by {
        forall i | 0 <= i < |s| - 1 && IsSpace(s[1..][i])
          ensures s[1..][i] == ' ' && (i + 1 == |s| - 1 || !IsSpace(s[1..][i + 1]))
        {
          assert s[1..][i] == s[i + 1];
        }
      }
      CollapseNoop(s[1..]);
      if IsSpace(s[0]) {
        assert RunLen(s[1..], Space) == 0;
      }
      assert [s[0]] + s[1..] == s;
    }
  }

  /** The one space `re.sub` leaves at an end of the text where that end
      is whitespace. */
  function Edge(space: bool): (r: string)
    ensures IsBlank(r)
  {
    if space then " " else ""
  }

  /** Collapsing text that starts with a token gives its tokens joined by
      single spaces, and one space more where the text ends in
      whitespace. */
  lemma {:induction false} CollapseTokens(s: string)
    requires s == [] || !IsSpace(s[0])
    ensures s != [] ==> Collapse(s) == Join(" ", Words(s)) + Edge(IsSpace(s[|s| - 1]))
    decreases |s|
  {
    if |s| == 1 {
      assert s[1..] == [];
      RunsStart(s[0], s[1..], NonSpace);
    } else if s != [] {
      var t := s[1..];
      assert [s[0]] + t == s && s[|s| - 1] == t[|t| - 1];
      if !IsSpace(t[0]) {
        CollapseTokens(t);
        TokensExtend(s[0], t, Words(t), Edge(IsSpace(t[|t| - 1])));
      } else {
        var u := t[RunLen(t, Space)..];
        if u == [] {
          TokensLast(s[0], t);
        } else {
          CollapseTokens(u);
          assert u[|u| - 1] == t[|t| - 1];
          TokensBreak(s[0], t, u, Words(u), Edge(IsSpace(u[|u| - 1])));
        }
      }
    }
  }

  /** Leading whitespace adds no token and collapses to one space. */
  lemma SkipBlank(s: string, n: nat)
    requires s != [] && IsSpace(s[0]) && n == RunLen(s, Space)
    ensures Words(s) == Words(s[n..])
    ensures Collapse(s) == " " + Collapse(s[n..])
  {
    assert s == s[..n] + s[n..];
    BlankOutside(s[..n], NonSpace);
    RunsAppend(s[..n], s[n..], NonSpace);
  }

  lemma CollapseCons(c: char, t: string)
    requires !IsSpace(c)
    ensures Collapse([c] + t) == [c] + Collapse(t)
  {
    assert ([c] + t)[1..] == t;
  }

  /** CollapseTokens for two token characters in a row. */
  lemma TokensExtend(c: char, t: string, w: seq<string>, e: string)
    requires !IsSpace(c) && t != [] && !IsSpace(t[0]) && w == Words(t)
    requires Collapse(t) == Join(" ", w) + e
    ensures Collapse([c] + t) == Join(" ", Words([c] + t)) + e
  {
    CollapseCons(c, t);
    RunsExtend(c, t, NonSpace);
    JoinConsFirst(c, w, " ");
  }

  /** CollapseTokens for a token character followed by whitespace only. */
  lemma TokensLast(c: char, t: string)
    requires !IsSpace(c) && t != [] && IsSpace(t[0]) && RunLen(t, Space) == |t|
    ensures Collapse([c] + t) == Join(" ", Words([c] + t)) + " "
  {
    CollapseCons(c, t);
    SkipBlank(t, |t|);
    assert t[|t|..] == [];
    RunsStart(c, t, NonSpace);
    assert Join(" ", [[c]]) == [c];
  }

  /** CollapseTokens for a token character followed by whitespace and
      then by the text `u` that starts with a token. */
  lemma TokensBreak(c: char, t: string, u: string, w: seq<string>, e: string)
    requires !IsSpace(c) && t != [] && IsSpace(t[0])
    requires u == t[RunLen(t, Space)..] && w == Words(u) && w != []
    requires Collapse(u) == Join(" ", w) + e
    ensures Collapse([c] + t) == Join(" ", Words([c] + t)) + e
  {
    SkipBlank(t, RunLen(t, Space));
    CollapseCons(c, t);
    RunsStart(c, t, NonSpace);
    JoinCons([c], w, " ");
    BreakJoin(c, Collapse([c] + t), Collapse(t), Join(" ", w), e, Join(" ", [[c]] + w));
  }

  lemma BreakJoin(c: char, x: string, y: string, j: string, e: string, k: string)
    requires x == [c] + y && y == " " + (j + e) && k == [c] + " " + j
    ensures x == k + e
  {
  }

  /** `re.sub(r'\s+', ' ', s).strip()` is `' '.join(s.split())`. */
  lemma CollapseStrip(s: string)
    ensures Strip(Collapse(s)) == Join(" ", Words(s))
  {
    var u := s[RunLen(s, Space)..];
    var pre := if s != [] && IsSpace(s[0]) then " " else "";
    if s != [] && IsSpace(s[0]) {
      SkipBlank(s, RunLen(s, Space));
    } else {
      assert u == s;
    }
    assert Collapse(s) == pre + Collapse(u);
    if u == [] {
      assert IsBlank(Collapse(s));
    } else {
      StripTokens(pre, u);
    }
  }

  lemma StripTokens(pre: string, u: string)
    requires IsBlank(pre) && u != [] && !IsSpace(u[0])
    ensures Strip(pre + Collapse(u)) == Join(" ", Words(u))
  {
    CollapseTokens(u);
    JoinedTrimmed(u);
    StripJoined(pre, Collapse(u), Join(" ", Words(u)), Edge(IsSpace(u[|u| - 1])));
  }

  lemma StripJoined(pre: string, c: string, j: string, e: string)
    requires IsBlank(pre) && IsBlank(e) && c == j + e
    requires j != [] && !IsSpace(j[0]) && !IsSpace(j[|j| - 1])
    ensures Strip(pre + c) == j
  {
    assert pre + c == pre + j + e;
    StripAmid(pre, j, e);
  }

  /** The tokens of text that has one, joined by single spaces, have no
      whitespace at either end. */
  lemma JoinedTrimmed(u: string)
    requires u != [] && !IsSpace(u[0])
    ensures Join(" ", Words(u)) != []
    ensures !IsSpace(Join(" ", Words(u))[0])
    ensures !IsSpace(Join(" ", Words(u))[|Join(" ", Words(u))| - 1])
  {
    RunsShape(u, NonSpace);
    JoinEnds(Words(u));
  }

  /** A slice of a collapsed string is collapsed, and one without
      punctuation has none. */
  lemma SliceKeeps(s: string, a: nat, b: nat)
    requires a <= b <= |s|
    ensures Collapsed(s) ==> Collapsed(s[a..b])
    ensures NoPunct(s) ==> NoPunct(s[a..b])
  {
    var t := s[a..b];
    assert forall i :: 0 <= i < |t| ==> t[i] == s[a + i];
  }

  // ---------------------------------------------------------------------
  // Upper case

  /** Every word uppercased. */
  function UpperEach(ws: seq<string>): (r: seq<string>)
    ensures |r| == |ws|
    ensures forall j :: 0 <= j < |ws| ==> r[j] == Upper(ws[j])
  {
    seq(|ws|, j requires 0 <= j < |ws| => Upper(ws[j]))
  }

  lemma UpperClass(c: char)
    ensures IsWordChar(UpperChar(c)) <==> IsWordChar(c)
    ensures IsSpace(UpperChar(c)) <==> IsSpace(c)
    ensures IsPunct(UpperChar(c)) <==> IsPunct(c)
    ensures !IsLower(UpperChar(c))
  {
  }

  /** The words of an uppercased string are the uppercased words. */
  lemma {:induction false} UpperRuns(s: string)
    ensures Runs(Upper(s), Word) == UpperEach(Runs(s, Word))
    decreases |s|
  {
    if s != [] {
      UpperRuns(s[1..]);
      var u := Upper(s);
      assert u[1..] == Upper(s[1..]);
      UpperClass(s[0]);
      if |s| > 1 { UpperClass(s[1]); }
      if !IsWordChar(s[0]) {
      } else if |s| > 1 && IsWordChar(s[1]) {
        UpperExtend(s, Runs(s[1..], Word));
      } else {
        UpperStart(s, Runs(s[1..], Word));
      }
    }
  }

  lemma UpperExtend(s: string, r: seq<string>)
    requires |s| > 1 && IsWordChar(s[0]) && IsWordChar(s[1])
    requires r == Runs(s[1..], Word) && r != []
    requires Upper(s)[1..] == Upper(s[1..])
    requires Runs(Upper(s[1..]), Word) == UpperEach(r)
    requires IsWordChar(Upper(s)[0]) && IsWordChar(Upper(s)[1])
    ensures Runs(Upper(s), Word) == UpperEach(Runs(s, Word))
  {
    var t, u0, ur := s[1..], UpperChar(s[0]), UpperEach(r);
    assert s == [s[0]] + t;
    RunsExtend(s[0], t, Word);
    UpperCons(s[0], t);
    RunsExtend(u0, Upper(t), Word);
    assert Runs(Upper(s), Word) == [[u0] + ur[0]] + ur[1..];
    UpperCons(s[0], r[0]);
    UpperEachCons([s[0]] + r[0], r[1..]);
    assert UpperEach(r[1..]) == ur[1..];
  }

  lemma UpperStart(s: string, r: seq<string>)
    requires s != [] && IsWordChar(s[0]) && (|s| == 1 || !IsWordChar(s[1]))
    requires r == Runs(s[1..], Word)
    requires Upper(s)[1..] == Upper(s[1..])
    requires Runs(Upper(s[1..]), Word) == UpperEach(r)
    requires IsWordChar(Upper(s)[0]) && (|s| == 1 || !IsWordChar(Upper(s)[1]))
    ensures Runs(Upper(s), Word) == UpperEach(Runs(s, Word))
  {
    var t, u0 := s[1..], UpperChar(s[0]);
    assert s == [s[0]] + t;
    RunsStart(s[0], t, Word);
    assert Runs(s, Word) == [[s[0]]] + r;
    UpperCons(s[0], t);
    assert Upper(s) == [u0] + Upper(t);
    assert Upper(t) == [] || !IsWordChar(Upper(t)[0]);
    RunsStart(u0, Upper(t), Word);
    assert Runs(Upper(s), Word) == [[u0]] + UpperEach(r);
    assert Upper([s[0]]) == [u0];
    UpperEachCons([s[0]], r);
  }

  lemma UpperCons(c: char, t: string)
    ensures Upper([c] + t) == [UpperChar(c)] + Upper(t)
  {
  }

  lemma UpperEachCons(w: string, ws: seq<string>)
    ensures UpperEach([w] + ws) == [Upper(w)] + UpperEach(ws)
  {
  }

  /** Uppercasing a word does not change whether a deletion matches it. */
  lemma UpperRemoved(w: string, d: Removal)
    ensures Removed(Upper(w), d) <==> Removed(w, d)
  {
    var u := Upper(w);
    assert forall i :: 0 <= i < |w| ==> (IsDigit(u[i]) <==> IsDigit(w[i]));
    assert Lower(u) == Lower(w);
  }

  // ---------------------------------------------------------------------
  // The pipeline

  /** Everything of main.py:142-153 before the final upper-casing. */
  function Cleaned(v: string): string {
    Strip(Collapse(ReplacePunct(DropWords(DropWords(Strip(v), Years), Keywords))))
  }

  /** `standardize_venue` on a present cell: blank text comes back as it
      is, anything else goes through the pipeline and is uppercased (the
      empty result of the pipeline is returned as it is, which is the same
      as uppercasing it). */
  function StandardizeVenue(v: string): (r: string)
    ensures IsBlank(v) ==> r == v
  {
    if IsBlank(v) then v
    else
      var c := Cleaned(v);
      if c == [] then c else Upper(c)
  }

  /** The venue column rewrite of main.py:174: a missing cell stays
      missing (`pd.isna` returns it), a present one is normalised. */
  function VenueCell(cell: Option<string>): (r: Option<string>)
    ensures r.None? <==> cell.None?
    ensures cell.Some? ==> r.value == StandardizeVenue(cell.value)
  {
    match cell
    case None => None
    case Some(v) => Some(StandardizeVenue(v))
  }

  /** The words of a normalised venue are the words of the input that are
      neither a 4-digit number nor a keyword, uppercased, in order; blank
      input is returned unchanged. */
  lemma VenueWords(v: string)
    ensures IsBlank(v) ==> StandardizeVenue(v) == v
    ensures !IsBlank(v) ==>
      Runs(StandardizeVenue(v), Word) == UpperEach(Kept(Kept(Runs(v, Word), Years), Keywords))
  {
    if !IsBlank(v) {
      var s0 := Strip(v);
      var s1 := DropWords(s0, Years);
      var s2 := DropWords(s1, Keywords);
      var s3 := ReplacePunct(s2);
      var s4 := Collapse(s3);
      var c := Strip(s4);
      RunsStrip(v, Word);
      DropRuns(s0, Years);
      DropRuns(s1, Keywords);
      PunctRuns(s2);
      CollapseRuns(s3);
      RunsStrip(s4, Word);
      UpperRuns(c);
      assert StandardizeVenue(v) == Upper(c);
    }
  }
  /** The pipeline in closed form: the whitespace-separated tokens left
      once the years and keywords are deleted and the punctuation is
      blanked, joined by single spaces (and uppercased for a non-blank
      input); so every character of a token, word character or not, is
      kept in place. */
  lemma VenueClosedForm(v: string)
    ensures Cleaned(v) ==
      Join(" ", Words(ReplacePunct(DropWords(DropWords(Strip(v), Years), Keywords))))
    ensures !IsBlank(v) ==>
      StandardizeVenue(v) ==
        Upper(Join(" ", Words(ReplacePunct(DropWords(DropWords(Strip(v), Years), Keywords)))))
  {
    CollapseStrip(ReplacePunct(DropWords(DropWords(Strip(v), Years), Keywords)));
  }


  /** Neither deletion finds anything left to delete in a normalised
      venue: no word of it is a 4-digit number or a keyword. */
  lemma VenueNoRemovable(v: string)
    ensures forall j :: 0 <= j < |Runs(StandardizeVenue(v), Word)| ==>
      !IsYear(Runs(StandardizeVenue(v), Word)[j]) &&
      Lower(Runs(StandardizeVenue(v), Word)[j]) !in KeywordSet
  {
    var rs := Runs(StandardizeVenue(v), Word);
    if IsBlank(v) {
      BlankOutside(v, Word);
    } else {
      VenueWords(v);
      var k1 := Kept(Runs(v, Word), Years);
      var k2 := Kept(k1, Keywords);
      KeptMembers(Runs(v, Word), Years);
      KeptMembers(k1, Keywords);
      forall j | 0 <= j < |rs|
        ensures !IsYear(rs[j]) && Lower(rs[j]) !in KeywordSet
      {
        assert rs[j] == Upper(k2[j]) && k2[j] in k2;
        UpperRemoved(k2[j], Years);
        UpperRemoved(k2[j], Keywords);
      }
    }
  }

  /** A normalised non-blank venue has no whitespace at either end, no
      whitespace but single spaces, no punctuation `, - : ( )` and no
      lower-case letter. */
  lemma VenueShape(v: string)
    requires !IsBlank(v)
    ensures Trimmed(StandardizeVenue(v))
    ensures Collapsed(StandardizeVenue(v))
    ensures NoPunct(StandardizeVenue(v))
    ensures forall i :: 0 <= i < |StandardizeVenue(v)| ==> !IsLower(StandardizeVenue(v)[i])
  {
    CleanedShape(v);
    UpperShape(Cleaned(v));
    assert StandardizeVenue(v) == Upper(Cleaned(v));
  }

  /** The pipeline before upper-casing already gives that shape. */
  lemma CleanedShape(v: string)
    ensures Trimmed(Cleaned(v))
    ensures Collapsed(Cleaned(v)) && NoPunct(Cleaned(v))
  {
    var p := ReplacePunct(DropWords(DropWords(Strip(v), Years), Keywords));
    assert NoPunct(p);
    CollapseShape(p);
    CollapseNoPunct(p);
    StripShape(Collapse(p));
  }

  /** Stripping keeps single spaces and the absence of punctuation. */
  lemma StripShape(s: string)
    requires Collapsed(s) && NoPunct(s)
    ensures Trimmed(Strip(s)) && Collapsed(Strip(s)) && NoPunct(Strip(s))
  {
    SliceKeeps(s, StripStart(s), StripStart(s) + |Strip(s)|);
  }

  /** Upper-casing keeps the shape the pipeline gives and leaves no
      lower-case letter. */
  lemma UpperShape(c: string)
    requires Trimmed(c) && Collapsed(c) && NoPunct(c)
    ensures Trimmed(Upper(c))
    ensures Collapsed(Upper(c)) && NoPunct(Upper(c))
    ensures forall i :: 0 <= i < |c| ==> !IsLower(Upper(c)[i])
  {
    forall i | 0 <= i < |c| ensures Upper(c)[i] == UpperChar(c[i]) {}
    forall i | 0 <= i < |c| ensures (IsSpace(Upper(c)[i]) ==> Upper(c)[i] == c[i]) {
      UpperClass(c[i]);
    }
    forall i | 0 <= i < |c| ensures (IsSpace(Upper(c)[i]) <==> IsSpace(c[i])) && !IsPunct(Upper(c)[i]) && !IsLower(Upper(c)[i]) {
      UpperClass(c[i]);
    }
  }

  /** Normalising a normalised venue changes nothing. */
  lemma VenueIdempotent(v: string)
    ensures StandardizeVenue(StandardizeVenue(v)) == StandardizeVenue(v)
  {
    var r := StandardizeVenue(v);
    if !IsBlank(v) && !IsBlank(r) {
      VenueShape(v);
      VenueNoRemovable(v);
      VenueFixpoint(r);
    }
  }

  /** The pipeline leaves alone a non-blank string that already has the
      shape it produces. */
  lemma VenueFixpoint(r: string)
    requires !IsBlank(r)
    requires !IsSpace(r[0]) && !IsSpace(r[|r| - 1])
    requires Collapsed(r) && NoPunct(r)
    requires forall i :: 0 <= i < |r| ==> !IsLower(r[i])
    requires forall j :: 0 <= j < |Runs(r, Word)| ==>
      !IsYear(Runs(r, Word)[j]) && Lower(Runs(r, Word)[j]) !in KeywordSet
    ensures StandardizeVenue(r) == r
  {
    CleanedFixpoint(r);
    UpperNoop(r);
  }

  lemma CleanedFixpoint(r: string)
    requires r != [] && !IsSpace(r[0]) && !IsSpace(r[|r| - 1])
    requires Collapsed(r) && NoPunct(r)
    requires forall j :: 0 <= j < |Runs(r, Word)| ==>
      !IsYear(Runs(r, Word)[j]) && Lower(Runs(r, Word)[j]) !in KeywordSet
    ensures Cleaned(r) == r
  {
    StripNoop(r);
    DropNoop(r, Years);
    DropNoop(r, Keywords);
    PunctNoop(r);
    CollapseNoop(r);
  }

  lemma PunctNoop(s: string)
    requires NoPunct(s)
    ensures ReplacePunct(s) == s
  {
  }

  lemma UpperNoop(s: string)
    requires forall i :: 0 <= i < |s| ==> !IsLower(s[i])
    ensures Upper(s) == s
  {
  }
}
