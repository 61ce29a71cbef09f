/**
 * Character classes and string primitives that main.py takes from Python:
 * str.isspace / str.isalpha / str.upper / str.lower, the regex classes
 * \s, \d and \w, str.strip(), str.split() and str.split(','), and
 * str.join. Every class is the ASCII one: a character outside ASCII is
 * neither a letter, a digit, a word character nor whitespace here.
 */
module Text {

  /** str.isspace() over ASCII: tab, line feed, vertical tab, form feed,
      carriage return, the four separators 0x1C-0x1F, and space. The regex
      class \s and str.strip()/str.split() use the same set. */
  predicate IsSpace(c: char) {
    9 <= c as int <= 13 || 28 <= c as int <= 32
  }

  predicate IsLower(c: char) { 'a' <= c <= 'z' }

  predicate IsUpper(c: char) { 'A' <= c <= 'Z' }

  /** str.isalpha() over ASCII. */
  predicate IsAlpha(c: char) { IsLower(c) || IsUpper(c) }

  /** The regex class \d over ASCII. */
  predicate IsDigit(c: char) { '0' <= c <= '9' }

  /** The regex class \w over ASCII. */
  predicate IsWordChar(c: char) { IsAlpha(c) || IsDigit(c) || c == '_' }

  function UpperChar(c: char): (u: char)
    ensures IsLower(c) ==> IsUpper(u) && u as int == c as int - 32
    ensures !IsLower(c) ==> u == c
  {
    if IsLower(c) then (c as int - 32) as char else c
  }

  function LowerChar(c: char): (l: char)
    ensures IsUpper(c) ==> IsLower(l) && l as int == c as int + 32
    ensures !IsUpper(c) ==> l == c
  {
    if IsUpper(c) then (c as int + 32) as char else c
  }

  /** str.upper() */
  function Upper(s: string): (r: string)
    ensures |r| == |s|
    ensures forall i :: 0 <= i < |s| ==> r[i] == UpperChar(s[i])
  {
    seq(|s|, i requires 0 <= i < |s| => UpperChar(s[i]))
  }

  /** str.lower() */
  function Lower(s: string): (r: string)
    ensures |r| == |s|
    ensures forall i :: 0 <= i < |s| ==> r[i] == LowerChar(s[i])
  {
    seq(|s|, i requires 0 <= i < |s| => LowerChar(s[i]))
  }

  /** `not s.strip()`: the string holds only whitespace. */
  predicate IsBlank(s: string) {
    forall i :: 0 <= i < |s| ==> IsSpace(s[i])
  }

  /** The classes whose maximal runs the source splits on: whitespace,
      non-whitespace (the tokens of str.split()) and word characters (the
      words between two regex \b boundaries). */
  datatype CharClass = Space | NonSpace | Word

  predicate In(c: char, k: CharClass) {
    match k
    case Space => IsSpace(c)
    case NonSpace => !IsSpace(c)
    case Word => IsWordChar(c)
  }

  /** Length of the run of class `k` at the front of `s`. */
  function RunLen(s: string, k: CharClass): (n: nat)
    ensures n <= |s|
    ensures forall i :: 0 <= i < n ==> In(s[i], k)
    ensures n < |s| ==> !In(s[n], k)
  {
    if s == [] || !In(s[0], k) then 0 else 1 + RunLen(s[1..], k)
  }

  /** The maximal runs of class `k` in `s`, left to right, built one
      character at a time: a character outside the class is skipped, one
      inside it either continues the run the next character starts or
      forms a run of its own. With `NonSpace` this is Python's
      `s.split()`. */
  function Runs(s: string, k: CharClass): (r: seq<string>)
    ensures s != [] && In(s[0], k) ==> r != []
    decreases |s|
  {
    if s == [] then []
    else
      var r := Runs(s[1..], k);
      if !In(s[0], k) then r
      else if |s| > 1 && In(s[1], k) then [[s[0]] + r[0]] + r[1..]
      else [[s[0]]] + r
  }

  /** Python's `s.split()`: the whitespace-separated tokens. */
  function Words(s: string): seq<string> {
    Runs(s, NonSpace)
  }

  /** Every run is non-empty and made of characters of its class. */
  lemma {:induction false} RunsShape(s: string, k: CharClass)
    ensures forall j :: 0 <= j < |Runs(s, k)| ==> Runs(s, k)[j] != []
    ensures forall j, i :: 0 <= j < |Runs(s, k)| && 0 <= i < |Runs(s, k)[j]| ==> In(Runs(s, k)[j][i], k)
    decreases |s|
  {
    if s != [] {
      RunsShape(s[1..], k);
    }
  }

  /** A character absent from `s` is absent from every run of `s`. */
  lemma {:induction false} RunsAvoid(s: string, k: CharClass, x: char)
    requires x !in s
    ensures forall j :: 0 <= j < |Runs(s, k)| ==> x !in Runs(s, k)[j]
    decreases |s|
  {
    if s != [] {
      assert x !in s[1..] by { assert forall i :: 0 <= i < |s[1..]| ==> s[1..][i] == s[i + 1]; }
      RunsAvoid(s[1..], k, x);
    }
  }

  /** There are no runs exactly when no character belongs to the class. */
  lemma {:induction false} RunsEmpty(s: string, k: CharClass)
    ensures Runs(s, k) == [] <==> forall i :: 0 <= i < |s| ==> !In(s[i], k)
    decreases |s|
  {
    if s != [] {
      RunsEmpty(s[1..], k);
      assert forall i :: 1 <= i < |s| ==> s[i] == s[1..][i - 1];
    }
  }

  /** Runs of a concatenation split at a class boundary are the runs of
      the two halves. */
  lemma {:induction false} RunsAppend(a: string, b: string, k: CharClass)
    requires a == [] || b == [] || !In(a[|a| - 1], k) || !In(b[0], k)
    ensures Runs(a + b, k) == Runs(a, k) + Runs(b, k)
    decreases |a|
  {
    if a == [] {
      assert a + b == b;
    } else if |a| == 1 {
      assert a == [a[0]];
      AppendLast(a[0], b, k);
    } else {
      RunsAppend(a[1..], b, k);
      if !In(a[0], k) {
        AppendSkip(a, b, k);
      } else if In(a[1], k) {
        AppendExtend(a, b, k);
      } else {
        AppendStart(a, b, k);
      }
    }
  }

  // The four steps of RunsAppend, one lemma each to keep every proof small.

  lemma AppendLast(c: char, b: string, k: CharClass)
    requires b == [] || !In(b[0], k) || !In(c, k)
    ensures Runs([c] + b, k) == Runs([c], k) + Runs(b, k)
  {
    assert [c] + [] == [c];
    if In(c, k) {
      RunsStart(c, b, k);
      RunsStart(c, [], k);
    } else {
      RunsSkip(c, b, k);
      RunsSkip(c, [], k);
    }
  }

  lemma AppendSkip(a: string, b: string, k: CharClass)
    requires |a| > 1 && !In(a[0], k)
    requires Runs(a[1..] + b, k) == Runs(a[1..], k) + Runs(b, k)
    ensures Runs(a + b, k) == Runs(a, k) + Runs(b, k)
  {
    assert (a + b)[1..] == a[1..] + b;
  }

  lemma AppendExtend(a: string, b: string, k: CharClass)
    requires |a| > 1 && In(a[0], k) && In(a[1], k)
    requires Runs(a[1..] + b, k) == Runs(a[1..], k) + Runs(b, k)
    ensures Runs(a + b, k) == Runs(a, k) + Runs(b, k)
  {
    assert a == [a[0]] + a[1..];
    assert a + b == [a[0]] + (a[1..] + b);
    ConsExtend(a[0], a[1..], b, k);
  }

  lemma ConsExtend(c: char, t: string, b: string, k: CharClass)
    requires In(c, k) && t != [] && In(t[0], k)
    requires Runs(t + b, k) == Runs(t, k) + Runs(b, k)
    ensures Runs([c] + (t + b), k) == Runs([c] + t, k) + Runs(b, k)
  {
    assert (t + b)[0] == t[0];
    RunsExtend(c, t + b, k);
    RunsExtend(c, t, k);
    ExtendConcat([c], Runs(t, k), Runs(b, k));
  }

  lemma ExtendConcat(x: string, ra: seq<string>, rb: seq<string>)
    requires ra != []
    ensures [x + (ra + rb)[0]] + (ra + rb)[1..] == ([x + ra[0]] + ra[1..]) + rb
  {
    assert (ra + rb)[0] == ra[0];
    assert (ra + rb)[1..] == ra[1..] + rb;
  }

  lemma AppendStart(a: string, b: string, k: CharClass)
    requires |a| > 1 && In(a[0], k) && !In(a[1], k)
    requires Runs(a[1..] + b, k) == Runs(a[1..], k) + Runs(b, k)
    ensures Runs(a + b, k) == Runs(a, k) + Runs(b, k)
  {
    assert (a + b)[1..] == a[1..] + b;
  }

  /** A class character in front of a run extends that run. */
  lemma RunsExtend(c: char, t: string, k: CharClass)
    requires In(c, k) && t != [] && In(t[0], k)
    ensures Runs([c] + t, k) == [[c] + Runs(t, k)[0]] + Runs(t, k)[1..]
  {
    assert ([c] + t)[1..] == t;
  }

  /** A class character not followed by one is a run of its own. */
  lemma RunsStart(c: char, t: string, k: CharClass)
    requires In(c, k) && (t == [] || !In(t[0], k))
    ensures Runs([c] + t, k) == [[c]] + Runs(t, k)
  {
    assert ([c] + t)[1..] == t;
  }

  /** A character outside the class in front of a string adds no run. */
  lemma RunsSkip(c: char, t: string, k: CharClass)
    requires !In(c, k)
    ensures Runs([c] + t, k) == Runs(t, k)
  {
    assert ([c] + t)[1..] == t;
  }

  /** A string made only of characters outside the class has no runs. */
  lemma RunsNone(s: string, k: CharClass)
    requires forall i :: 0 <= i < |s| ==> !In(s[i], k)
    ensures Runs(s, k) == []
  {
    RunsEmpty(s, k);
  }

  /** A non-empty string made only of characters of the class is one run. */
  lemma {:induction false} RunsWhole(s: string, k: CharClass)
    requires s != [] && forall i :: 0 <= i < |s| ==> In(s[i], k)
    ensures Runs(s, k) == [s]
    decreases |s|
  {
    if |s| == 1 {
      assert s[1..] == [] && s == [s[0]];
    } else {
      RunsWhole(s[1..], k);
      WholeStep(s, k);
    }
  }

  lemma WholeStep(s: string, k: CharClass)
    requires |s| > 1 && In(s[0], k) && In(s[1], k)
    requires Runs(s[1..], k) == [s[1..]]
    ensures Runs(s, k) == [s]
  {
    assert [s[0]] + s[1..] == s;
  }

  /** The run at the front of a string that starts inside the class. */
  lemma RunsFront(s: string, k: CharClass)
    requires s != [] && In(s[0], k)
    ensures Runs(s, k) == [s[..RunLen(s, k)]] + Runs(s[RunLen(s, k)..], k)
  {
    var n := RunLen(s, k);
    assert s == s[..n] + s[n..];
    RunsAppend(s[..n], s[n..], k);
    RunsWhole(s[..n], k);
  }

  /** Whitespace never belongs to the non-space or the word class. */
  lemma SpaceOutside(c: char, k: CharClass)
    requires k != Space && IsSpace(c)
    ensures !In(c, k)
  {
  }

  // ---------------------------------------------------------------------
  // str.strip()

  /** str.lstrip() */
  function StripLeft(s: string): (r: string)
    ensures |r| <= |s| && r == s[|s| - |r|..]
    ensures forall i :: 0 <= i < |s| - |r| ==> IsSpace(s[i])
    ensures r == [] || !IsSpace(r[0])
  {
    s[RunLen(s, Space)..]
  }

  /** str.rstrip() */
  function StripRight(s: string): (r: string)
    ensures |r| <= |s| && r == s[..|r|]
    ensures forall i :: |r| <= i < |s| ==> IsSpace(s[i])
    ensures r == [] || !IsSpace(r[|r| - 1])
  {
    if s == [] || !IsSpace(s[|s| - 1]) then s else StripRight(s[..|s| - 1])
  }

  /** Where `Strip(s)` starts in `s`. */
  function StripStart(s: string): nat {
    RunLen(s, Space)
  }

  /** str.strip(): `s` is `Strip(s)` with whitespace around it. */
  function Strip(s: string): (r: string)
    ensures r == [] <==> IsBlank(s)
    ensures r == [] || (!IsSpace(r[0]) && !IsSpace(r[|r| - 1]))
    ensures StripStart(s) + |r| <= |s| && r == s[StripStart(s)..StripStart(s) + |r|]
    ensures IsBlank(s[..StripStart(s)]) && IsBlank(s[StripStart(s) + |r|..])
  {
    var t := StripLeft(s);
    var r := StripRight(t);
    var p := StripStart(s);
    assert t == s[p..];
    assert forall i :: p + |r| <= i < |s| ==> s[i] == t[i - p];
    r
  }

  /** Stripping does not change the non-space tokens or the words. */
  lemma RunsStrip(s: string, k: CharClass)
    requires k != Space
    ensures Runs(Strip(s), k) == Runs(s, k)
  {
    var r := Strip(s);
    var p := StripStart(s);
    assert s == s[..p] + r + s[p + |r|..];
    RunsAmidBlanks(s[..p], r, s[p + |r|..], k);
  }

  /** Whitespace around a string adds no non-space token and no word. */
  lemma RunsAmidBlanks(pre: string, mid: string, post: string, k: CharClass)
    requires k != Space && IsBlank(pre) && IsBlank(post)
    ensures Runs(pre + mid + post, k) == Runs(mid, k)
  {
    BlankOutside(pre, k);
    BlankOutside(post, k);
    RunsAppend(mid, post, k);
    assert pre + mid + post == pre + (mid + post);
    RunsAppend(pre, mid + post, k);
  }

  /** Whitespace has no runs of the non-space or the word class. */
  lemma BlankOutside(s: string, k: CharClass)
    requires k != Space && IsBlank(s)
    ensures Runs(s, k) == []
    ensures s != [] ==> !In(s[0], k) && !In(s[|s| - 1], k)
  {
    forall i | 0 <= i < |s| ensures !In(s[i], k) { SpaceOutside(s[i], k); }
    RunsNone(s, k);
  }

  /** A string with no surrounding whitespace is its own strip. */
  lemma StripNoop(s: string)
    requires s == [] || (!IsSpace(s[0]) && !IsSpace(s[|s| - 1]))
    ensures Strip(s) == s
  {
    assert RunLen(s, Space) == 0;
    assert s[0..] == s;
  }

  /** Whitespace around a string with no whitespace at its ends is exactly
      what str.strip() removes. */
  lemma StripAmid(pre: string, mid: string, post: string)
    requires IsBlank(pre) && IsBlank(post)
    requires mid != [] && !IsSpace(mid[0]) && !IsSpace(mid[|mid| - 1])
    ensures Strip(pre + mid + post) == mid
  {
    var s := pre + mid + post;
    var a, b := |pre|, |pre| + |mid|;
    assert s[..a] == pre && s[a..b] == mid && s[b..] == post;
    StripBetween(s, a, b);
  }

  /** `strip()` of a string that is blank before `a` and from `b` on, and
      has no whitespace at `a` and at `b - 1`, is the slice between. */
  lemma StripBetween(s: string, a: nat, b: nat)
    requires a < b <= |s| && IsBlank(s[..a]) && IsBlank(s[b..])
    requires !IsSpace(s[a]) && !IsSpace(s[b - 1])
    ensures Strip(s) == s[a..b]
  {
    BlankIndex(s, 0, a);
    StripStartAt(s, a);
    var r := Strip(s);
    BlankIndex(s, a + |r|, |s|);
    BlankIndex(s, b, |s|);
    assert r[|r| - 1] == s[a + |r| - 1];
  }

  /** `strip()` starts at the first character that is not whitespace. */
  lemma StripStartAt(s: string, a: nat)
    requires a < |s| && !IsSpace(s[a]) && forall i :: 0 <= i < a ==> IsSpace(s[i])
    ensures StripStart(s) == a
  {
  }

  /** A blank slice, position by position. */
  lemma BlankIndex(s: string, a: nat, b: nat)
    requires a <= b <= |s| && IsBlank(s[a..b])
    ensures forall i :: a <= i < b ==> IsSpace(s[i])
  {
    forall i | a <= i < b ensures IsSpace(s[i]) {
      assert s[i] == s[a..b][i - a];
    }
  }

  // ---------------------------------------------------------------------
  // str.split(sep) and str.join

  /** `sep.join(parts)` */
  function Join(sep: string, parts: seq<string>): string
    decreases |parts|
  {
    if parts == [] then []
    else if |parts| == 1 then parts[0]
    else parts[0] + sep + Join(sep, parts[1..])
  }

  /** Python's `s.split(sep)` for a one-character separator: the pieces
      between separators, built one character at a time; never empty
      (SplitOnCount, SplitOnPieces and JoinSplit state what it means). */
  function SplitOn(s: string, sep: char): (r: seq<string>)
    ensures |r| >= 1
  {
    if s == [] then [[]]
    else
      var t := SplitOn(s[1..], sep);
      if s[0] == sep then [[]] + t else [[s[0]] + t[0]] + t[1..]
  }

  /** There is one more piece than there are separators. */
  lemma {:induction false} SplitOnCount(s: string, sep: char)
    ensures |SplitOn(s, sep)| == multiset(s)[sep] + 1
    decreases |s|
  {
    if s != [] {
      SplitOnCount(s[1..], sep);
      assert s == [s[0]] + s[1..];
      assert multiset(s) == multiset{s[0]} + multiset(s[1..]);
    }
  }

  /** No piece holds the separator. */
  lemma {:induction false} SplitOnPieces(s: string, sep: char)
    ensures forall j :: 0 <= j < |SplitOn(s, sep)| ==> sep !in SplitOn(s, sep)[j]
    decreases |s|
  {
    if s != [] {
      SplitOnPieces(s[1..], sep);
    }
  }

  /** Joining the pieces with the separator gives the string back. */
  lemma {:induction false} JoinSplit(s: string, sep: char)
    ensures Join([sep], SplitOn(s, sep)) == s
    decreases |s|
  {
    if s != [] {
      JoinSplit(s[1..], sep);
      JoinSplitStep(s, sep);
    }
  }

  lemma JoinSplitStep(s: string, sep: char)
    requires s != []
    requires Join([sep], SplitOn(s[1..], sep)) == s[1..]
    ensures Join([sep], SplitOn(s, sep)) == s
  {
    var t := SplitOn(s[1..], sep);
    assert s == [s[0]] + s[1..];
    if s[0] == sep {
      SplitOnSep(s, sep);
      assert ([[]] + t)[1..] == t;
    } else {
      SplitOnOther(s, sep);
      JoinConsFirst(s[0], t, [sep]);
    }
  }

  lemma JoinConsFirst(c: char, t: seq<string>, sep: string)
    requires t != []
    ensures Join(sep, [[c] + t[0]] + t[1..]) == [c] + Join(sep, t)
  {
    var u := [[c] + t[0]] + t[1..];
    if |t| > 1 {
      assert u[1..] == t[1..];
    }
  }

  /** A part in front of at least one other part is followed by the
      separator. */
  lemma JoinCons(a: string, t: seq<string>, sep: string)
    requires t != []
    ensures Join(sep, [a] + t) == a + sep + Join(sep, t)
  {
    assert ([a] + t)[1..] == t;
  }

  /** Joining non-empty tokens with no whitespace at their ends by single
      spaces leaves no whitespace at the ends. */
  lemma {:induction false} JoinEnds(ws: seq<string>)
    requires ws != []
    requires forall j :: 0 <= j < |ws| ==>
      ws[j] != [] && !IsSpace(ws[j][0]) && !IsSpace(ws[j][|ws[j]| - 1])
    ensures Join(" ", ws) != []
    ensures !IsSpace(Join(" ", ws)[0]) && !IsSpace(Join(" ", ws)[|Join(" ", ws)| - 1])
    decreases |ws|
  {
    if |ws| > 1 {
      JoinEnds(ws[1..]);
      var r := Join(" ", ws);
      var t := Join(" ", ws[1..]);
      assert r == ws[0] + " " + t;
      assert r[0] == ws[0][0];
      assert r[|r| - 1] == t[|t| - 1];
    }
  }

  /** Splitting a string that starts with a separator-free prefix. */
  lemma {:induction false} SplitPrefix(a: string, b: string, sep: char)
    requires sep !in a
    ensures SplitOn(a + b, sep) == [a + SplitOn(b, sep)[0]] + SplitOn(b, sep)[1..]
    decreases |a|
  {
    if a == [] {
      var t := SplitOn(b, sep);
      assert a + b == b && a + t[0] == t[0];
      assert [t[0]] + t[1..] == t;
    } else {
      assert sep !in a[1..];
      SplitPrefix(a[1..], b, sep);
      SplitPrefixStep(a, b, sep, SplitOn(b, sep));
    }
  }

  lemma SplitPrefixStep(a: string, b: string, sep: char, t: seq<string>)
    requires a != [] && a[0] != sep
    requires t == SplitOn(b, sep)
    requires SplitOn(a[1..] + b, sep) == [a[1..] + t[0]] + t[1..]
    ensures SplitOn(a + b, sep) == [a + t[0]] + t[1..]
  {
    var ab := a + b;
    assert ab[1..] == a[1..] + b;
    assert ab[0] == a[0];
    SplitOnOther(ab, sep);
    assert [a[0]] + (a[1..] + t[0]) == a + t[0];
  }

  lemma SplitOnOther(s: string, sep: char)
    requires s != [] && s[0] != sep
    ensures SplitOn(s, sep) == [[s[0]] + SplitOn(s[1..], sep)[0]] + SplitOn(s[1..], sep)[1..]
  {
  }

  lemma SplitOnSep(s: string, sep: char)
    requires s != [] && s[0] == sep
    ensures SplitOn(s, sep) == [[]] + SplitOn(s[1..], sep)
  {
  }

  /** The other round trip: splitting a separator-joined list of
      separator-free pieces gives the pieces back. */
  lemma {:induction false} SplitJoin(parts: seq<string>, sep: char)
    requires parts != []
    requires forall j :: 0 <= j < |parts| ==> sep !in parts[j]
    ensures SplitOn(Join([sep], parts), sep) == parts
    decreases |parts|
  {
    if |parts| == 1 {
      SplitPrefix(parts[0], [], sep);
      assert parts[0] + [] == parts[0];
    } else {
      var rest := Join([sep], parts[1..]);
      assert Join([sep], parts) == parts[0] + ([sep] + rest);
      SplitJoin(parts[1..], sep);
      SplitPrefix(parts[0], [sep] + rest, sep);
      assert ([sep] + rest)[1..] == rest;
      assert parts[0] + [] == parts[0];
      assert [parts[0]] + parts[1..] == parts;
    }
  }
}
