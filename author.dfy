/**
 * Author-name normalisation (`standardize_author` in main.py) and the
 * multi-author expansion that the preprocessing pass applies to every
 * cell of the authors column.
 */
module Author {
  import opened Wrappers
  import opened Text

  /** An initial as the normaliser writes it: an upper-case letter and a
      period. */
  predicate IsInitial(x: string) {
    |x| == 2 && IsUpper(x[0]) && x[1] == '.'
  }

  /** What one given-name token contributes: its first character
      upper-cased and followed by a period when that character is a
      letter, nothing otherwise. */
  function InitialOf(token: string): (r: seq<string>)
    ensures |r| <= 1
    ensures r != [] <==> token != [] && IsAlpha(token[0])
    ensures forall j :: 0 <= j < |r| ==> IsInitial(r[j])
  {
    if token != [] && IsAlpha(token[0]) then [[UpperChar(token[0]), '.']] else []
  }

  /** The initials of a list of given-name tokens, in token order. */
  function Initials(tokens: seq<string>): seq<string>
  {
    if tokens == [] then [] else Initials(tokens[..|tokens| - 1]) + InitialOf(tokens[|tokens| - 1])
  }

  /** The canonical author form. A blank name is returned as it is;
      otherwise the whitespace-separated tokens are read, every token but
      the last contributes its initial, and the initials and then the last
      token (the family name, verbatim) are joined with single spaces. */
  function CanonicalAuthor(name: string): (r: string)
    ensures IsBlank(name) ==> r == name
  {
    if IsBlank(name) then name
    else
      RunsEmpty(name, NonSpace);
      var parts := Words(name);
      Join(" ", Initials(parts[..|parts| - 1]) + [parts[|parts| - 1]])
  }

  /** `standardize_author`: strip, split on whitespace, collect the
      initials of the given names in a loop, then append the family name. */
  method StandardizeAuthor(name: string) returns (r: string)
    ensures r == CanonicalAuthor(name)
  {
    if Strip(name) == [] {
      return name;
    }
    var stripped := Strip(name);
    var parts := Words(stripped);
    RunsStrip(name, NonSpace);
    RunsEmpty(name, NonSpace);
    // parts is not empty here, so the source's `len(parts) == 0` branch is
    // never taken (see AuthorTokens).
    var initials: seq<string> := [];
    var i := 0;
    while i < |parts| - 1
      invariant 0 <= i <= |parts| - 1
      invariant initials == Initials(parts[..i])
    {
      var part := parts[i];
      assert parts[..i + 1][..i] == parts[..i];
      if part != [] && IsAlpha(part[0]) {
        initials := initials + [[UpperChar(part[0]), '.']];
      }
      i := i + 1;
    }
    var lastName := parts[|parts| - 1];
    if initials != [] {
      r := Join(" ", initials) + " " + lastName;
      JoinSnoc(" ", initials, lastName);
    } else {
      r := lastName;
    }
  }

  /** Joining a list with one more element at the end. */
  lemma {:induction false} JoinSnoc(sep: string, xs: seq<string>, y: string)
    requires xs != []
    ensures Join(sep, xs + [y]) == Join(sep, xs) + sep + y
    decreases |xs|
  {
    if |xs| == 1 {
      assert xs + [y] == [xs[0], y];
      assert [xs[0], y][1..] == [y];
    } else {
      JoinSnoc(sep, xs[1..], y);
      assert (xs + [y])[1..] == xs[1..] + [y];
    }
  }

  // ---------------------------------------------------------------------
  // What the canonical form is

  /** A list of space-free, non-empty tokens joined by single spaces
      splits back into the same tokens. */
  lemma {:induction false} WordsOfJoin(xs: seq<string>)
    requires xs != []
    requires forall j :: 0 <= j < |xs| ==> xs[j] != [] && forall i :: 0 <= i < |xs[j]| ==> !IsSpace(xs[j][i])
    ensures Words(Join(" ", xs)) == xs
    decreases |xs|
  {
    RunsWhole(xs[0], NonSpace);
    if |xs| > 1 {
      WordsOfJoin(xs[1..]);
      var rest := Join(" ", xs[1..]);
      assert Join(" ", xs) == xs[0] + (" " + rest);
      RunsSkip(' ', rest, NonSpace);
      assert (" " + rest) == [' '] + rest;
      RunsAppend(xs[0], " " + rest, NonSpace);
      assert [xs[0]] + xs[1..] == xs;
    }
  }

  /** Every entry of Initials is an initial. */
  lemma {:induction false} InitialsShape(tokens: seq<string>)
    ensures forall j :: 0 <= j < |Initials(tokens)| ==> IsInitial(Initials(tokens)[j])
    decreases |tokens|
  {
    if tokens != [] {
      InitialsShape(tokens[..|tokens| - 1]);
    }
  }

  /** Initials of initials are the same initials. */
  lemma {:induction false} InitialsOfInitials(xs: seq<string>)
    requires forall j :: 0 <= j < |xs| ==> IsInitial(xs[j])
    ensures Initials(xs) == xs
    decreases |xs|
  {
    if xs != [] {
      var last := xs[|xs| - 1];
      InitialsOfInitials(xs[..|xs| - 1]);
      assert InitialOf(last) == [last] by {
        assert [UpperChar(last[0]), '.'] == last;
      }
      assert xs[..|xs| - 1] + [last] == xs;
    }
  }

  /** A non-empty name without surrounding whitespace and without doubled
      spaces is what these tokens describe. */
  predicate SingleSpaced(s: string) {
    s == Join(" ", Words(s))
  }

  /** The shape of the canonical form (main.py:117-135): for a non-blank
      name, the tokens of the output are exactly the initials of the
      name's non-final tokens that start with a letter, then the name's
      last token; they are joined with single spaces, so the output is not
      blank and has no surrounding whitespace. A blank name is returned
      unchanged. */
  lemma AuthorTokens(name: string)
    ensures IsBlank(name) ==> CanonicalAuthor(name) == name
    ensures !IsBlank(name) ==>
      Words(name) != [] &&
      Words(CanonicalAuthor(name)) == Initials(Words(name)[..|Words(name)| - 1]) + [Words(name)[|Words(name)| - 1]] &&
      SingleSpaced(CanonicalAuthor(name)) &&
      !IsBlank(CanonicalAuthor(name))
  {
    if !IsBlank(name) {
      RunsEmpty(name, NonSpace);
      var parts := Words(name);
      var xs := Initials(parts[..|parts| - 1]) + [parts[|parts| - 1]];
      RunsShape(name, NonSpace);
      CanonicalTokens(parts, xs);
      WordsOfJoin(xs);
      RunsEmpty(CanonicalAuthor(name), NonSpace);
    }
  }

  /** The tokens the canonical form joins are non-empty and space-free. */
  lemma CanonicalTokens(parts: seq<string>, xs: seq<string>)
    requires parts != []
    requires forall j :: 0 <= j < |parts| ==> parts[j] != [] && forall i :: 0 <= i < |parts[j]| ==> In(parts[j][i], NonSpace)
    requires xs == Initials(parts[..|parts| - 1]) + [parts[|parts| - 1]]
    ensures xs != []
    ensures forall j :: 0 <= j < |xs| ==> xs[j] != [] && forall i :: 0 <= i < |xs[j]| ==> !IsSpace(xs[j][i])
  {
    InitialsShape(parts[..|parts| - 1]);
  }

  /** `standardize_author` is idempotent. */
  lemma AuthorIdempotent(name: string)
    ensures CanonicalAuthor(CanonicalAuthor(name)) == CanonicalAuthor(name)
  {
    if !IsBlank(name) {
      AuthorTokens(name);
      RunsShape(name, NonSpace);
      var parts := Words(name);
      var inits := Initials(parts[..|parts| - 1]);
      var r := CanonicalAuthor(name);
      var w := Words(r);
      assert w == inits + [parts[|parts| - 1]];
      assert w[..|w| - 1] == inits;
      InitialsShape(parts[..|parts| - 1]);
      InitialsOfInitials(inits);
    }
  }

  /** A string that does not hold `x` joined with a separator that does
      not hold it either does not hold it. */
  lemma {:induction false} JoinAvoid(sep: string, xs: seq<string>, x: char)
    requires x !in sep
    requires forall j :: 0 <= j < |xs| ==> x !in xs[j]
    ensures x !in Join(sep, xs)
    decreases |xs|
  {
    if |xs| > 1 {
      JoinAvoid(sep, xs[1..], x);
    }
  }

  /** A name without a comma normalises to a string without a comma. */
  lemma AuthorNoComma(name: string)
    requires ',' !in name
    ensures ',' !in CanonicalAuthor(name)
  {
    if !IsBlank(name) {
      RunsEmpty(name, NonSpace);
      RunsAvoid(name, NonSpace, ',');
      var parts := Words(name);
      var inits := Initials(parts[..|parts| - 1]);
      InitialsShape(parts[..|parts| - 1]);
      var xs := inits + [parts[|parts| - 1]];
      assert forall j :: 0 <= j < |xs| ==> ',' !in xs[j] by {
        forall j | 0 <= j < |xs| ensures ',' !in xs[j] {
          if j < |inits| {
            assert IsInitial(inits[j]);
            assert inits[j] == [inits[j][0], inits[j][1]];
          }
        }
      }
      JoinAvoid(" ", xs, ',');
    }
  }

  /** "John Q. Public" becomes "J. Q. Public". The name is a parameter
      fixed by the precondition: with the literal itself in a fact, the
      solver unfolds `CanonicalAuthor` and `Words` character by character. */
  lemma ExampleJohnQPublic(name: string)
    requires name == "John Q. Public"
    ensures CanonicalAuthor(name) == "J. Q. Public"
  {
    var toks := ["John", "Q.", "Public"];
    JohnWords(name, toks);
    assert !IsBlank(name) by { assert !IsSpace(name[0]); }
    assert toks[..2] == ["John", "Q."];
    JohnInitials();
    assert ["J.", "Q."] + ["Public"] == ["J.", "Q.", "Public"];
    JoinThree("J.", "Q.", "Public");
  }

  lemma JohnWords(name: string, toks: seq<string>)
    requires name == "John Q. Public" && toks == ["John", "Q.", "Public"]
    ensures Words(name) == toks
  {
    JoinThree("John", "Q.", "Public");
    assert Join(" ", toks) == name;
    WordsOfJoin(toks);
  }

  lemma JohnInitials()
    ensures Initials(["John", "Q."]) == ["J.", "Q."]
  {
    assert ["John", "Q."][..1] == ["John"];
    assert ["John"][..0] == [];
  }

  lemma JoinThree(a: string, b: string, c: string)
    ensures Join(" ", [a, b, c]) == a + " " + b + " " + c
  {
    assert [a, b, c][1..] == [b, c];
    assert [b, c][1..] == [c];
    assert Join(" ", [c]) == c;
    assert Join(" ", [b, c]) == b + " " + c;
  }

  /** A single token is returned as it is: "Madonna" stays "Madonna". */
  lemma ExampleMadonna()
    ensures CanonicalAuthor("Madonna") == "Madonna"
  {
    RunsWhole("Madonna", NonSpace);
    assert !IsBlank("Madonna") by { assert !IsSpace("Madonna"[0]); }
    assert ["Madonna"][..0] == [];
  }

  // ---------------------------------------------------------------------
  // The authors column of the preprocessing pass (main.py:166-169)

  /** Every piece normalised on its own. */
  function CanonicalEach(pieces: seq<string>): seq<string> {
    seq(|pieces|, j requires 0 <= j < |pieces| => CanonicalAuthor(pieces[j]))
  }

  /** The rewrite of one authors cell: a present cell is split on ',',
      every piece is normalised and the pieces are joined again with ", ";
      a missing cell stays missing. */
  function ExpandAuthors(cell: Option<string>): (r: Option<string>)
    ensures r.None? <==> cell.None?
  {
    match cell
    case None => None
    case Some(x) => Some(Join(", ", CanonicalEach(SplitOn(x, ','))))
  }

  /** Every piece with one space put in front. */
  function Prefixed(ys: seq<string>): seq<string> {
    seq(|ys|, j requires 0 <= j < |ys| => " " + ys[j])
  }

  /** Joining with ", " is joining with "," after putting a space in front
      of every piece but the first. */
  lemma JoinCommaSpace(ys: seq<string>)
    requires ys != []
    ensures Join(", ", ys) == Join([','], [ys[0]] + Prefixed(ys[1..]))
  {
    if |ys| > 1 {
      JoinPrefixed(ys[1..]);
      assert ([ys[0]] + Prefixed(ys[1..]))[1..] == Prefixed(ys[1..]);
    }
  }

  lemma {:induction false} JoinPrefixed(ys: seq<string>)
    requires ys != []
    ensures " " + Join(", ", ys) == Join([','], Prefixed(ys))
    decreases |ys|
  {
    if |ys| > 1 {
      JoinPrefixed(ys[1..]);
      assert Prefixed(ys)[1..] == Prefixed(ys[1..]);
    }
  }

  /** The pieces of an expanded cell: splitting the output on ',' gives
      the normalised pieces `ys` of the input, every one but the first with
      the space that ", " put in front of it. In particular the number of
      ','-separated pieces, and so the number of commas, is unchanged. */
  lemma ExpandPieces(x: string, ys: seq<string>)
    requires ys == CanonicalEach(SplitOn(x, ','))
    ensures ExpandAuthors(Some(x)) == Some(Join(", ", ys))
    ensures ys != [] && SplitOn(Join(", ", ys), ',') == [ys[0]] + Prefixed(ys[1..])
    ensures multiset(Join(", ", ys))[','] == multiset(x)[',']
  {
    var zs := [ys[0]] + Prefixed(ys[1..]);
    SplitOnPieces(x, ',');
    PrefixedCommaFree(SplitOn(x, ','), ys);
    JoinCommaSpace(ys);
    SplitJoin(zs, ',');
    SplitOnCount(x, ',');
    SplitOnCount(Join(", ", ys), ',');
  }

  /** The normalised pieces, with or without a space in front, hold no
      comma. */
  lemma PrefixedCommaFree(ps: seq<string>, ys: seq<string>)
    requires ps != [] && forall j :: 0 <= j < |ps| ==> ',' !in ps[j]
    requires ys == CanonicalEach(ps)
    ensures |ys| == |ps| && forall j :: 0 <= j < |ys| ==> ',' !in ([ys[0]] + Prefixed(ys[1..]))[j]
  {
    var zs := [ys[0]] + Prefixed(ys[1..]);
    forall j | 0 <= j < |zs| ensures ',' !in zs[j] {
      AuthorNoComma(ps[j]);
      if j > 0 { assert zs[j] == " " + ys[j]; }
    }
  }

  /** A space in front of a non-blank name does not change its canonical
      form. */
  lemma CanonicalLeadingSpace(y: string)
    requires !IsBlank(y)
    ensures CanonicalAuthor(" " + y) == CanonicalAuthor(y)
  {
    assert " " + y == [' '] + y;
    RunsSkip(' ', y, NonSpace);
    var i :| 0 <= i < |y| && !IsSpace(y[i]);
    assert (" " + y)[i + 1] == y[i];
    assert !IsBlank(" " + y);
  }

  /** No ','-separated piece after the first is blank. Those are the
      pieces ", " puts a space in front of; the first piece gets none. */
  predicate LaterPiecesFilled(x: string) {
    forall j :: 1 <= j < |SplitOn(x, ',')| ==> !IsBlank(SplitOn(x, ',')[j])
  }

  /** Running the preprocessing pass twice rewrites an authors cell the
      same way as running it once exactly when the cell is missing or no
      ','-separated piece after its first is blank. */
  lemma ExpandIdempotent(cell: Option<string>)
    ensures ExpandAuthors(ExpandAuthors(cell)) == ExpandAuthors(cell) <==>
      (cell.Some? ==> LaterPiecesFilled(cell.value))
  {
    if cell.Some? {
      var ps := SplitOn(cell.value, ',');
      var ys := CanonicalEach(ps);
      if LaterPiecesFilled(cell.value) {
        ExpandPieces(cell.value, ys);
        CanonicalEachPrefixed(ps, ys);
      } else {
        ExpandBlankLater(cell.value);
      }
    }
  }

  /** A blank piece after the first gains a space on a second run. */
  lemma ExpandBlankLater(x: string)
    requires !LaterPiecesFilled(x)
    ensures ExpandAuthors(ExpandAuthors(Some(x))) != ExpandAuthors(Some(x))
  {
    var ps := SplitOn(x, ',');
    var ys := CanonicalEach(ps);
    var j :| 1 <= j < |ps| && IsBlank(ps[j]);
    ExpandPieces(x, ys);
    var e1 := Join(", ", ys);
    var zs := [ys[0]] + Prefixed(ys[1..]);
    var ys2 := CanonicalEach(zs);
    ExpandPieces(e1, ys2);
    var e2 := Join(", ", ys2);
    assert ys[j] == ps[j];
    assert zs[j] == " " + ps[j];
    BlankSpace(ps[j]);
    assert ys2[j] == " " + ps[j];
    assert SplitOn(e1, ',')[j] == " " + ps[j];
    assert SplitOn(e2, ',')[j] == " " + (" " + ps[j]);
    assert |SplitOn(e2, ',')[j]| == |SplitOn(e1, ',')[j]| + 1;
  }

  /** A space in front of a blank string leaves it blank. */
  lemma BlankSpace(b: string)
    requires IsBlank(b)
    ensures IsBlank(" " + b)
  {
    forall i | 0 <= i < |" " + b| ensures IsSpace((" " + b)[i]) {
      if i > 0 { assert (" " + b)[i] == b[i - 1]; }
    }
  }

  /** Normalising the pieces of an expanded cell gives them back. */
  lemma CanonicalEachPrefixed(ps: seq<string>, ys: seq<string>)
    requires ps != [] && forall j :: 1 <= j < |ps| ==> !IsBlank(ps[j])
    requires ys == CanonicalEach(ps)
    ensures CanonicalEach([ys[0]] + Prefixed(ys[1..])) == ys
  {
    var zs := [ys[0]] + Prefixed(ys[1..]);
    assert |zs| == |ys|;
    forall j | 0 <= j < |ys| ensures CanonicalAuthor(zs[j]) == ys[j] {
      PrefixedAt(ys, j);
      PieceBack(ps[j], ys[j], zs[j]);
    }
  }

  lemma PrefixedAt(ys: seq<string>, j: nat)
    requires j < |ys|
    ensures ([ys[0]] + Prefixed(ys[1..]))[j] == if j == 0 then ys[0] else " " + ys[j]
  {
  }

  /** A normalised piece normalises to itself, and so does a non-blank
      one with the space that ", " puts before it. */
  lemma PieceBack(p: string, y: string, z: string)
    requires y == CanonicalAuthor(p)
    requires z == y || (!IsBlank(p) && z == " " + y)
    ensures CanonicalAuthor(z) == y
  {
    AuthorIdempotent(p);
    if z != y {
      AuthorTokens(p);
      CanonicalLeadingSpace(y);
    }
  }

  /** A blank piece after the first is returned unstripped and ", " adds
      a space in front of it on every run, so "A," becomes "A, " and then
      "A,  ". */
  lemma ExpandBlankPieceGrows()
    ensures ExpandAuthors(Some("A,")) == Some("A, ")
    ensures ExpandAuthors(Some("A, ")) == Some("A,  ")
  {
    var x, y, z := "A,", "A, ", "A,  ";
    ExpandOneBlank([]);
    assert x == "A," + [] && y == "A, " + [];
    ExpandOneBlank(" ");
    assert y == "A," + " " && z == "A, " + " ";
  }

  /** "A," followed by a blank piece keeps the blank piece after ", ". */
  lemma ExpandOneBlank(blank: string)
    requires IsBlank(blank) && ',' !in blank
    ensures ExpandAuthors(Some("A," + blank)) == Some("A, " + blank)
  {
    assert "A," + blank == ['A'] + [','] + blank;
    SplitAt('A', blank, ',');
    assert "A" == ['A'];
    var pieces := SplitOn("A," + blank, ',');
    assert pieces == ["A", blank];
    SingleLetter();
    assert CanonicalAuthor(blank) == blank;
    var ys := CanonicalEach(pieces);
    assert ys == ["A", blank];
    assert Join(", ", ys) == "A" + ", " + blank by {
      assert ys[1..] == [blank];
    }
    assert "A" + ", " + blank == "A, " + blank;
    assert ExpandAuthors(Some("A," + blank)) == Some(Join(", ", ys));
  }

  lemma SplitAt(c: char, rest: string, sep: char)
    requires c != sep && sep !in rest
    ensures SplitOn([c] + [sep] + rest, sep) == [[c], rest]
  {
    SplitJoin([[c], rest], sep);
    assert Join([sep], [[c], rest]) == [c] + [sep] + rest by {
      assert [[c], rest][1..] == [rest];
    }
  }

  lemma SingleLetter()
    ensures CanonicalAuthor("A") == "A"
  {
    RunsWhole("A", NonSpace);
    assert ["A"][..0] == [];
  }
}
