/** Strings and sequences with the semantics of the few Python `str` methods and
    `re.sub` patterns that the scraper applies to extracted text.
    Characters are Unicode scalar values; where Python consults the Unicode
    database (whitespace, letters, case) the model covers ASCII and Latin-1. */
module Text {

  datatype Option<+T> = None | Some(value: T)

  // ---------------------------------------------------------------------------
  // Character classes
  // ---------------------------------------------------------------------------

  /** Python's `str.isspace()`, which is also what `\s` matches in a `str` pattern. */
  predicate IsSpace(c: char) {
    || c == ' ' || c == '\t' || c == '\n' || c == '\r' || c == '\U{0B}' || c == '\U{0C}'
    || ('\U{1C}' <= c <= '\U{1F}') || c == '\U{85}' || c == '\U{A0}' || c == '\U{1680}'
    || ('\U{2000}' <= c <= '\U{200A}') || c == '\U{2028}' || c == '\U{2029}'
    || c == '\U{202F}' || c == '\U{205F}' || c == '\U{3000}'
  }

  /**
   * The ASCII decimal digits: the part of `\d` and `str.isdigit()` this model
   * covers (Python's `\d` also accepts the decimal digits of other scripts,
   * and `str.isdigit()` the superscript digits as well).
   */
  predicate IsDigit(c: char) { '0' <= c <= '9' }

  predicate IsUpper(c: char) {
    ('A' <= c <= 'Z') || ('\U{C0}' <= c <= '\U{D6}') || ('\U{D8}' <= c <= '\U{DE}')
  }

  predicate IsLower(c: char) {
    ('a' <= c <= 'z') || ('\U{DF}' <= c <= '\U{F6}') || ('\U{F8}' <= c <= '\U{FF}') || c == '\U{B5}'
  }

  /** A cased letter in Python's sense (upper or lower case). */
  predicate IsCased(c: char) { IsUpper(c) || IsLower(c) }

  /**
   * The Latin-1 part of `\w`: ASCII digits, the underscore, and the letters of
   * ASCII and Latin-1; Python's `\w` also takes Latin-1's superscript digits
   * and vulgar fractions, and the letters, digits and numerics of every other
   * script.
   */
  predicate IsWordChar(c: char) {
    IsCased(c) || IsDigit(c) || c == '_' || c == '\U{AA}' || c == '\U{BA}'
  }

  /** `str.lower()` on one character. */
  function LowerChar(c: char): (r: char)
    ensures IsCased(c) ==> IsLower(r)
    ensures !IsCased(c) ==> r == c
    ensures IsWordChar(c) <==> IsWordChar(r)
    ensures IsSpace(r) <==> IsSpace(c)
  {
    if IsUpper(c) then (c as int + 32) as char else c
  }

  /** `str.upper()` on one character; letters whose upper case lies outside
      Latin-1 or is two characters long (ß, ÿ, µ) are left unchanged. */
  function UpperChar(c: char): (r: char)
    ensures IsCased(c) ==> IsCased(r)
    ensures !IsCased(c) ==> r == c
  {
    if ('a' <= c <= 'z') || ('\U{E0}' <= c <= '\U{F6}') || ('\U{F8}' <= c <= '\U{FE}') then
      (c as int - 32) as char
    else c
  }

  /** `str.lower()`. */
  function Lower(s: string): (r: string)
    ensures |r| == |s|
    ensures forall i :: 0 <= i < |s| ==> r[i] == LowerChar(s[i])
    ensures forall i :: 0 <= i < |r| ==> LowerChar(r[i]) == r[i]
  {
    seq(|s|, i requires 0 <= i < |s| => LowerChar(s[i]))
  }

  /** `str.title()`: the first cased letter of every run of cased letters is
      upper-cased, the others are lower-cased. */
  function TitleCase(s: string): (r: string)
    ensures |r| == |s|
  {
    TitleFrom(s, false)
  }

  function TitleFrom(s: string, prevCased: bool): (r: string)
    ensures |r| == |s|
    decreases |s|
  {
    if s == [] then []
    else
      var c := s[0];
      [if prevCased then LowerChar(c) else UpperChar(c)] + TitleFrom(s[1..], IsCased(c))
  }

  lemma {:induction false} TitleFromAt(s: string, prevCased: bool, i: nat)
    requires i < |s|
    ensures TitleFrom(s, prevCased)[i] ==
      if (if i == 0 then prevCased else IsCased(s[i - 1])) then LowerChar(s[i]) else UpperChar(s[i])
    decreases i
  {
    if i > 0 {
      TitleFromAt(s[1..], IsCased(s[0]), i - 1);
    }
  }

  /** A character of a title-cased string is upper-cased exactly when it does not follow a cased letter. */
  lemma TitleCaseAt(s: string, i: nat)
    requires i < |s|
    ensures TitleCase(s)[i] == if i > 0 && IsCased(s[i - 1]) then LowerChar(s[i]) else UpperChar(s[i])
  {
    TitleFromAt(s, false, i);
  }

  /** Title-casing changes only case: lower-casing the result gives the lower-cased input. */
  lemma TitleCaseLower(s: string)
    ensures Lower(TitleCase(s)) == Lower(s)
  {
    forall i | 0 <= i < |s| ensures Lower(TitleCase(s))[i] == Lower(s)[i] {
      TitleCaseAt(s, i);
      LowerAfterCase(s[i]);
    }
  }

  lemma LowerAfterCase(c: char)
    ensures LowerChar(UpperChar(c)) == LowerChar(c) && LowerChar(LowerChar(c)) == LowerChar(c)
  {
  }

  // ---------------------------------------------------------------------------
  // Predicates on strings
  // ---------------------------------------------------------------------------

  predicate AllSpace(s: string) { forall i :: 0 <= i < |s| ==> IsSpace(s[i]) }

  predicate AllDigits(s: string) { forall i :: 0 <= i < |s| ==> IsDigit(s[i]) }

  predicate StartsWith(s: string, p: string) { |p| <= |s| && s[..|p|] == p }

  /** `p` occurs in `s` at position `i`. */
  predicate OccursAt(s: string, p: string, i: int) {
    0 <= i <= |s| - |p| && s[i..i + |p|] == p
  }

  /** Python's `p in s` for strings: `p` starts at some position of `s`. */
  predicate Contains(s: string, p: string)
    decreases |s|
  {
    StartsWith(s, p) || (s != [] && Contains(s[1..], p))
  }

  /** The string has a non-whitespace character (Python: `s.strip() != ""`). */
  predicate HasText(s: string)
    decreases |s|
  {
    s != [] && (!IsSpace(s[0]) || HasText(s[1..]))
  }

  /** No three consecutive newlines. */
  predicate NoTripleNewline(s: string) {
    forall i :: 0 <= i < |s| - 2 ==> !(s[i] == '\n' && s[i + 1] == '\n' && s[i + 2] == '\n')
  }

  /** No two consecutive spaces. */
  predicate NoDoubleSpace(s: string) {
    forall i :: 0 <= i < |s| - 1 ==> !(s[i] == ' ' && s[i + 1] == ' ')
  }

  /** The only whitespace character that occurs is the plain space. */
  predicate OnlyPlainSpaces(s: string) {
    forall i :: 0 <= i < |s| ==> IsSpace(s[i]) ==> s[i] == ' '
  }

  predicate IsStripped(s: string) {
    s == [] || (!IsSpace(s[0]) && !IsSpace(s[|s| - 1]))
  }

  // ---------------------------------------------------------------------------
  // str.strip()
  // ---------------------------------------------------------------------------

  function TrimLeft(s: string): (r: string)
    ensures |r| <= |s| && r == s[|s| - |r|..]
    ensures r != [] ==> !IsSpace(r[0])
    ensures AllSpace(s[..|s| - |r|])
    decreases |s|
  {
    if s != [] && IsSpace(s[0]) then
      var r := TrimLeft(s[1..]);
      assert s[1..][|s| - 1 - |r|..] == s[|s| - |r|..];
      assert s[..|s| - |r|] == [s[0]] + s[1..][..|s| - 1 - |r|];
      r
    else s
  }

  function TrimRight(s: string): (r: string)
    ensures |r| <= |s| && r == s[..|r|]
    ensures r != [] ==> !IsSpace(r[|r| - 1])
    ensures AllSpace(s[|r|..])
    decreases |s|
  {
    if s != [] && IsSpace(s[|s| - 1]) then
      var init := s[..|s| - 1];
      var r := TrimRight(init);
      assert init[..|r|] == s[..|r|];
      assert s[|r|..] == init[|r|..] + [s[|s| - 1]];
      r
    else s
  }

  /** `str.strip()`: the longest infix without leading or trailing whitespace. */
  function Strip(s: string): (r: string)
    ensures IsStripped(r)
    ensures OccursAt(s, r, |s| - |TrimLeft(s)|)
    ensures AllSpace(s[..|s| - |TrimLeft(s)|]) && AllSpace(s[|s| - |TrimLeft(s)| + |r|..])
  {
    TrimsStripped(s);
    TrimsOccur(s);
    TrimsDropSpace(s);
    TrimRight(TrimLeft(s))
  }

  /** What the two trims cut off at either end is whitespace. */
  lemma TrimsDropSpace(s: string)
    ensures |s| - |TrimLeft(s)| + |TrimRight(TrimLeft(s))| <= |s|
    ensures AllSpace(s[|s| - |TrimLeft(s)| + |TrimRight(TrimLeft(s))|..])
  {
    var l := TrimLeft(s);
    var r := TrimRight(l);
    SuffixOfSuffix(s, |s| - |l|, |r|);
  }

  lemma SuffixOfSuffix<T>(s: seq<T>, k: nat, j: nat)
    requires k + j <= |s|
    ensures s[k..][j..] == s[k + j..]
  {
  }

  lemma TrimsStripped(s: string)
    ensures IsStripped(TrimRight(TrimLeft(s)))
  {
    var l := TrimLeft(s);
    var r := TrimRight(l);
    assert r != [] ==> r[0] == l[0];
  }

  lemma TrimsOccur(s: string)
    ensures OccursAt(s, TrimRight(TrimLeft(s)), |s| - |TrimLeft(s)|)
  {
    var l := TrimLeft(s);
    var r := TrimRight(l);
    PrefixOfSuffix(s, |s| - |l|, |r|);
  }

  lemma PrefixOfSuffix<T>(s: seq<T>, k: nat, j: nat)
    requires k + j <= |s|
    ensures s[k..][..j] == s[k..k + j]
  {
  }

  /** `str.strip()` returns the empty string exactly for blank strings. */
  lemma {:induction false} StripEmpty(s: string)
    ensures Strip(s) == [] <==> !HasText(s)
    decreases |s|
  {
    if s != [] && IsSpace(s[0]) {
      StripEmpty(s[1..]);
      assert TrimLeft(s) == TrimLeft(s[1..]);
    } else if s != [] {
      var l := TrimLeft(s);
      assert l == s && TrimRight(l)[0] == s[0];
    }
  }

  /** Right-stripping keeps everything up to a non-space character. */
  lemma {:induction false} TrimRightKeeps(s: string, i: nat)
    requires i < |s| && !IsSpace(s[i])
    ensures |TrimRight(s)| > i
    decreases |s|
  {
    if IsSpace(s[|s| - 1]) {
      assert i < |s| - 1;
      TrimRightKeeps(s[..|s| - 1], i);
    }
  }

  lemma TrimLeftSpace(c: char, x: string)
    requires IsSpace(c)
    ensures TrimLeft([c] + x) == TrimLeft(x)
  {
    assert ([c] + x)[1..] == x;
  }

  lemma TrimRightSpace(x: string, c: char)
    requires IsSpace(c)
    ensures TrimRight(x + [c]) == TrimRight(x)
  {
    assert (x + [c])[..|x|] == x;
  }

  /** `"\n## " + t + "\n"` strips to the heading marker and `t`. */
  lemma StripHeading(t: string)
    requires IsStripped(t)
    ensures Strip("\n## " + t + "\n") == if t == [] then "##" else "## " + t
  {
    var body := "## " + t;
    assert "\n## " + t + "\n" == ['\n'] + body + ['\n'];
    StripNewlines(body);
    HeadingTrim(t);
  }

  lemma HeadingTrim(t: string)
    requires IsStripped(t)
    ensures TrimRight("## " + t) == if t == [] then "##" else "## " + t
  {
    var body := "## " + t;
    if t == [] {
      assert body == "##" + [' '];
      TrimRightSpace("##", ' ');
      TrimRightStops("##");
    } else {
      assert body[|body| - 1] == t[|t| - 1];
      TrimRightStops(body);
    }
  }

  /** A string that starts with a non-space character, between two newlines, strips to its right-trimmed self. */
  lemma StripNewlines(body: string)
    requires body != [] && !IsSpace(body[0])
    ensures Strip(['\n'] + body + ['\n']) == TrimRight(body)
  {
    var s := ['\n'] + body + ['\n'];
    assert s == ['\n'] + (body + ['\n']);
    TrimLeftSpace('\n', body + ['\n']);
    TrimLeftStops(body + ['\n']);
    TrimRightSpace(body, '\n');
  }

  lemma TrimLeftStops(s: string)
    requires s != [] && !IsSpace(s[0])
    ensures TrimLeft(s) == s
  {
  }

  lemma TrimRightStops(s: string)
    requires s != [] && !IsSpace(s[|s| - 1])
    ensures TrimRight(s) == s
  {
  }

  /** `HasText` of a concatenation. */
  lemma {:induction false} HasTextAppend(a: string, b: string)
    ensures HasText(a + b) <==> HasText(a) || HasText(b)
    decreases |a|
  {
    if a == [] {
      assert a + b == b;
    } else {
      assert (a + b)[0] == a[0] && (a + b)[1..] == a[1..] + b;
      HasTextAppend(a[1..], b);
    }
  }

  lemma {:induction false} BlankHasNoText(s: string)
    requires AllSpace(s)
    ensures !HasText(s)
    decreases |s|
  {
    if s != [] {
      BlankHasNoText(s[1..]);
    }
  }

  /** A string joined with a whitespace separator has text exactly when one of its pieces has. */
  lemma {:induction false} JoinHasText(parts: seq<string>, sep: string)
    requires AllSpace(sep)
    ensures HasText(Join(parts, sep)) <==> exists k :: 0 <= k < |parts| && HasText(parts[k])
    decreases |parts|
  {
    if |parts| > 1 {
      JoinHasText(parts[1..], sep);
      HasTextAppend(parts[0] + sep, Join(parts[1..], sep));
      HasTextAppend(parts[0], sep);
      BlankHasNoText(sep);
      if exists k :: 0 <= k < |parts| && HasText(parts[k]) {
        var k :| 0 <= k < |parts| && HasText(parts[k]);
        if k > 0 { assert parts[1..][k - 1] == parts[k]; }
      }
      if exists k :: 0 <= k < |parts[1..]| && HasText(parts[1..][k]) {
        var k :| 0 <= k < |parts[1..]| && HasText(parts[1..][k]);
        assert parts[k + 1] == parts[1..][k];
      }
    }
  }

  predicate NoNewline(s: string) { forall i :: 0 <= i < |s| ==> s[i] != '\n' }

  /** Non-empty single-line pieces joined by blank lines never show three newlines in a row. */
  lemma {:induction false} JoinBlankLines(parts: seq<string>)
    requires forall k :: 0 <= k < |parts| ==> parts[k] != [] && NoNewline(parts[k])
    ensures NoTripleNewline(Join(parts, "\n\n"))
    ensures |parts| > 0 ==> Join(parts, "\n\n") != [] && Join(parts, "\n\n")[0] != '\n'
    decreases |parts|
  {
    if |parts| == 1 {
    } else if |parts| > 1 {
      var x := parts[0];
      var y := Join(parts[1..], "\n\n");
      JoinBlankLines(parts[1..]);
      var s := x + "\n\n" + y;
      assert Join(parts, "\n\n") == s;
      forall i | 0 <= i < |s| - 2
        ensures !(s[i] == '\n' && s[i + 1] == '\n' && s[i + 2] == '\n')
      {
        if i < |x| {
          assert s[i] == x[i];
        } else if i == |x| || i == |x| + 1 {
          assert s[|x| + 2] == y[0];
        } else {
          assert s[i] == y[i - |x| - 2] && s[i + 1] == y[i - |x| - 1] && s[i + 2] == y[i - |x|];
        }
      }
      assert s[0] == x[0];
    }
  }

  /** `CollapseBlanks` of each piece. */
  function CollapseEach(parts: seq<string>): (r: seq<string>)
    ensures |r| == |parts| && forall k :: 0 <= k < |r| ==> r[k] == CollapseBlanks(parts[k])
  {
    seq(|parts|, k requires 0 <= k < |parts| => CollapseBlanks(parts[k]))
  }

  /** Collapsing blanks over pieces joined by blank lines is collapsing each piece. */
  lemma {:induction false} CollapseBlanksJoin(parts: seq<string>)
    ensures CollapseBlanks(Join(parts, "\n\n")) == Join(CollapseEach(parts), "\n\n")
    decreases |parts|
  {
    if |parts| > 1 {
      var x := parts[0];
      var y := Join(parts[1..], "\n\n");
      CollapseBlanksJoin(parts[1..]);
      assert x + "\n\n" + y == x + "\n" + ("\n" + y);
      CollapseBlanksSplits(x, "\n" + y, false);
      assert "\n" + y == [] + "\n" + y;
      CollapseBlanksSplits([], y, false);
      assert CollapseEach(parts)[1..] == CollapseEach(parts[1..]);
    }
  }

  /** An infix keeps the absence of newline runs, double spaces and tabs. */
  lemma InfixKeeps(s: string, a: nat, b: nat)
    requires a <= b <= |s|
    ensures NoTripleNewline(s) ==> NoTripleNewline(s[a..b])
    ensures NoDoubleSpace(s) ==> NoDoubleSpace(s[a..b])
    ensures (forall i :: 0 <= i < |s| ==> s[i] != '\t') ==> forall i :: 0 <= i < b - a ==> s[a..b][i] != '\t'
  {
    var t := s[a..b];
    if NoTripleNewline(s) {
      forall i | 0 <= i < |t| - 2 ensures !(t[i] == '\n' && t[i + 1] == '\n' && t[i + 2] == '\n') {
        assert t[i] == s[a + i] && t[i + 1] == s[a + i + 1] && t[i + 2] == s[a + i + 2];
      }
    }
    if NoDoubleSpace(s) {
      forall i | 0 <= i < |t| - 1 ensures !(t[i] == ' ' && t[i + 1] == ' ') {
        assert t[i] == s[a + i] && t[i + 1] == s[a + i + 1];
      }
    }
    if forall i :: 0 <= i < |s| ==> s[i] != '\t' {
      forall i | 0 <= i < b - a ensures t[i] != '\t' {
        assert t[i] == s[a + i];
      }
    }
  }

  lemma StripStripped(s: string)
    requires IsStripped(s)
    ensures Strip(s) == s
  {
  }

  // ---------------------------------------------------------------------------
  // re.sub rewrites used by the normalisation steps
  // ---------------------------------------------------------------------------

  /** The characters of `s` that are not whitespace, in order. */
  function Visible(s: string): string
    decreases |s|
  {
    if s == [] then [] else (if IsSpace(s[0]) then [] else [s[0]]) + Visible(s[1..])
  }

  /** Drops the leading run of whitespace. */
  function SkipSpaces(s: string): (r: string)
    ensures |r| <= |s| && r == s[|s| - |r|..]
    ensures Visible(r) == Visible(s)
    ensures r != [] ==> !IsSpace(r[0])
    ensures s != [] && !IsSpace(s[|s| - 1]) ==> r != []
    decreases |s|
  {
    if s != [] && IsSpace(s[0]) then SkipSpaces(s[1..]) else s
  }

  /** `re.sub(r'\s+', ' ', s)`: every run of whitespace becomes one space. */
  function CollapseSpace(s: string): (r: string)
    ensures OnlyPlainSpaces(r) && NoDoubleSpace(r)
    ensures s != [] ==> r != [] && (r[0] == ' ' <==> IsSpace(s[0]))
    ensures Visible(r) == Visible(s)
    ensures |r| <= |s|
    decreases |s|
  {
    if s == [] then []
    else if IsSpace(s[0]) then
      var t := CollapseSpace(SkipSpaces(s[1..]));
      assert ([' '] + t)[1..] == t;
      [' '] + t
    else
      var t := CollapseSpace(s[1..]);
      assert ([s[0]] + t)[1..] == t;
      [s[0]] + t
  }

  /** `CollapseSpace` keeps a string's non-whitespace ends. */
  lemma {:induction false} CollapseSpaceEnds(s: string)
    requires s != [] && !IsSpace(s[|s| - 1])
    ensures CollapseSpace(s)[|CollapseSpace(s)| - 1] == s[|s| - 1]
    decreases |s|
  {
    if |s| == 1 {
    } else if IsSpace(s[0]) {
      var t := SkipSpaces(s[1..]);
      assert t != [] && t[|t| - 1] == s[|s| - 1];
      CollapseSpaceEnds(t);
    } else {
      CollapseSpaceEnds(s[1..]);
    }
  }

  /** A whitespace run before a text that does not start with whitespace is skipped whole. */
  lemma {:induction false} SkipGap(gap: string, name: string)
    requires AllSpace(gap) && (name == [] || !IsSpace(name[0]))
    ensures SkipSpaces(gap + name) == name
    decreases |gap|
  {
    if gap == [] {
      assert gap + name == name;
    } else {
      assert (gap + name)[1..] == gap[1..] + name;
      SkipGap(gap[1..], name);
    }
  }

  /** Skipping leading whitespace does not reach past a non-whitespace last character. */
  lemma {:induction false} SkipSpacesAppend(x: string, y: string)
    requires x != [] && !IsSpace(x[|x| - 1])
    ensures SkipSpaces(x + y) == SkipSpaces(x) + y
    decreases |x|
  {
    if IsSpace(x[0]) {
      assert (x + y)[1..] == x[1..] + y;
      SkipSpacesAppend(x[1..], y);
    }
  }

  /**
   * `re.sub(r'\s+', ' ', a + w + b)` for a whitespace run `w` between two texts
   * that do not end or start with whitespace: the run becomes one space that
   * separates what `a` and `b` give on their own.
   */
  lemma {:induction false} CollapseSpaceSeparates(a: string, w: string, b: string)
    requires w != [] && AllSpace(w)
    requires a == [] || !IsSpace(a[|a| - 1])
    requires b == [] || !IsSpace(b[0])
    ensures CollapseSpace(a + w + b) == CollapseSpace(a) + " " + CollapseSpace(b)
    decreases |a|
  {
    if a == [] {
      CollapseSpaceGap(w, b);
    } else if IsSpace(a[0]) {
      SkipSpacesLast(a[1..]);
      CollapseSpaceSeparates(SkipSpaces(a[1..]), w, b);
      CollapseLeadSpace(a, w, b);
    } else {
      CollapseSpaceSeparates(a[1..], w, b);
      CollapseLeadChar(a, w, b);
    }
  }

  lemma CollapseSpaceGap(w: string, b: string)
    requires w != [] && AllSpace(w)
    requires b == [] || !IsSpace(b[0])
    ensures CollapseSpace([] + w + b) == [] + " " + CollapseSpace(b)
  {
    EmptyLeft(w, b);
    CollapseSpaceLead(w, b);
    EmptyLeft(" ", CollapseSpace(b));
  }

  /** A whitespace run before a text that does not start with whitespace becomes one space. */
  lemma CollapseSpaceLead(w: string, b: string)
    requires w != [] && AllSpace(w)
    requires b == [] || !IsSpace(b[0])
    ensures CollapseSpace(w + b) == " " + CollapseSpace(b)
  {
    ConsHead(w, b);
    CollapseSpaceAtSpace(w + b);
    SkipGap(w[1..], b);
  }

  lemma EmptyLeft<T>(x: seq<T>, y: seq<T>)
    ensures [] + x + y == x + y
  {
  }

  lemma ConsHead<T>(w: seq<T>, b: seq<T>)
    requires w != []
    ensures (w + b)[0] == w[0] && (w + b)[1..] == w[1..] + b
  {
  }

  lemma SkipSpacesLast(x: string)
    requires x != [] && !IsSpace(x[|x| - 1])
    ensures SkipSpaces(x) != [] && SkipSpaces(x)[|SkipSpaces(x)| - 1] == x[|x| - 1]
    ensures |SkipSpaces(x)| <= |x|
  {
  }

  lemma CollapseLeadSpace(a: string, w: string, b: string)
    requires a != [] && IsSpace(a[0]) && !IsSpace(a[|a| - 1])
    requires CollapseSpace(SkipSpaces(a[1..]) + w + b) == CollapseSpace(SkipSpaces(a[1..])) + " " + CollapseSpace(b)
    ensures CollapseSpace(a + w + b) == CollapseSpace(a) + " " + CollapseSpace(b)
  {
    var rest := SkipSpaces(a[1..]);
    var s := a + w + b;
    DropHead(a, w, b);
    SkipSpacesAppend(a[1..], w + b);
    Regroup(rest, w, b);
    CollapseSpaceAtSpace(s);
    CollapseSpaceAtSpace(a);
    ConsJoin(CollapseSpace(s), CollapseSpace(a), ' ', CollapseSpace(rest + w + b), CollapseSpace(rest), " ", CollapseSpace(b));
  }

  lemma CollapseLeadChar(a: string, w: string, b: string)
    requires a != [] && !IsSpace(a[0])
    requires CollapseSpace(a[1..] + w + b) == CollapseSpace(a[1..]) + " " + CollapseSpace(b)
    ensures CollapseSpace(a + w + b) == CollapseSpace(a) + " " + CollapseSpace(b)
  {
    var s := a + w + b;
    DropHead(a, w, b);
    Regroup(a[1..], w, b);
    CollapseSpaceAtChar(s);
    CollapseSpaceAtChar(a);
    ConsJoin(CollapseSpace(s), CollapseSpace(a), a[0], CollapseSpace(a[1..] + w + b), CollapseSpace(a[1..]), " ", CollapseSpace(b));
  }

  lemma CollapseSpaceAtSpace(s: string)
    requires s != [] && IsSpace(s[0])
    ensures CollapseSpace(s) == [' '] + CollapseSpace(SkipSpaces(s[1..]))
  {
  }

  lemma CollapseSpaceAtChar(s: string)
    requires s != [] && !IsSpace(s[0])
    ensures CollapseSpace(s) == [s[0]] + CollapseSpace(s[1..])
  {
  }

  lemma DropHead<T>(a: seq<T>, w: seq<T>, b: seq<T>)
    requires a != []
    ensures (a + w + b)[0] == a[0] && (a + w + b)[1..] == a[1..] + (w + b)
  {
  }

  lemma ConsJoin<T>(x: seq<T>, y: seq<T>, c: T, u: seq<T>, v: seq<T>, p: seq<T>, q: seq<T>)
    requires x == [c] + u && y == [c] + v && u == v + p + q
    ensures x == y + p + q
  {
  }

  lemma Regroup<T>(x: seq<T>, y: seq<T>, z: seq<T>)
    ensures x + (y + z) == (x + y) + z
  {
  }

  predicate IsBlank(c: char) { c == ' ' || c == '\t' }

  /** `re.sub(r'[ \t]+', ' ', s)`: every run of spaces and tabs becomes one space. */
  function CollapseBlanks(s: string): (r: string) {
    CollapseBlanksAfter(s, false)
  }

  /**
   * The scan behind `CollapseBlanks`; `inRun` says that the character before
   * `s` was a space or tab, whose run has already produced its one space.
   */
  function CollapseBlanksAfter(s: string, inRun: bool): (r: string)
    ensures NoDoubleSpace(r) && forall i :: 0 <= i < |r| ==> r[i] != '\t'
    ensures inRun && r != [] ==> r[0] != ' '
    ensures !inRun && s != [] ==> r != []
    ensures forall i :: 0 <= i < |r| ==> r[i] == ' ' || r[i] in s
    decreases |s|
  {
    if s == [] then []
    else if IsBlank(s[0]) then
      (if inRun then CollapseBlanksAfter(s[1..], true) else [' '] + CollapseBlanksAfter(s[1..], true))
    else [s[0]] + CollapseBlanksAfter(s[1..], false)
  }

  predicate AllBlank(s: string) { forall i :: 0 <= i < |s| ==> IsBlank(s[i]) }

  /**
   * `re.sub(r'[ \t]+', ' ', a + w + b)` for a run `w` of spaces and tabs between
   * two texts that do not end or start with one: the run becomes one space that
   * separates what `a` and `b` give on their own.
   */
  lemma CollapseBlanksSeparates(a: string, w: string, b: string)
    requires w != [] && AllBlank(w)
    requires a == [] || !IsBlank(a[|a| - 1])
    requires b == [] || !IsBlank(b[0])
    ensures CollapseBlanks(a + w + b) == CollapseBlanks(a) + " " + CollapseBlanks(b)
  {
    CollapseBlanksSeparatesAfter(a, w, b, false);
  }

  lemma {:induction false} CollapseBlanksSeparatesAfter(a: string, w: string, b: string, inRun: bool)
    requires w != [] && AllBlank(w)
    requires a == [] || !IsBlank(a[|a| - 1])
    requires b == [] || !IsBlank(b[0])
    requires a != [] || !inRun
    ensures CollapseBlanksAfter(a + w + b, inRun) == CollapseBlanksAfter(a, inRun) + " " + CollapseBlanksAfter(b, false)
    decreases |a|
  {
    if a == [] {
      BlanksGap(w, b);
    } else {
      CollapseBlanksSeparatesAfter(a[1..], w, b, IsBlank(a[0]));
      BlanksLead(a, w, b, inRun);
    }
  }

  lemma BlanksGap(w: string, b: string)
    requires w != [] && AllBlank(w)
    requires b == [] || !IsBlank(b[0])
    ensures CollapseBlanksAfter([] + w + b, false) == CollapseBlanksAfter([], false) + " " + CollapseBlanksAfter(b, false)
  {
    assert [] + w + b == w + b;
    assert (w + b)[1..] == w[1..] + b;
    BlanksSkipped(w[1..], b);
  }

  /** Inside a run, further spaces and tabs produce nothing. */
  lemma {:induction false} BlanksSkipped(v: string, b: string)
    requires AllBlank(v) && (b == [] || !IsBlank(b[0]))
    ensures CollapseBlanksAfter(v + b, true) == CollapseBlanksAfter(b, false)
    decreases |v|
  {
    if v == [] {
      assert v + b == b;
    } else {
      assert (v + b)[1..] == v[1..] + b;
      BlanksSkipped(v[1..], b);
    }
  }

  lemma BlanksLead(a: string, w: string, b: string, inRun: bool)
    requires a != []
    requires CollapseBlanksAfter(a[1..] + w + b, IsBlank(a[0])) == CollapseBlanksAfter(a[1..], IsBlank(a[0])) + " " + CollapseBlanksAfter(b, false)
    ensures CollapseBlanksAfter(a + w + b, inRun) == CollapseBlanksAfter(a, inRun) + " " + CollapseBlanksAfter(b, false)
  {
    var s := a + w + b;
    DropHead(a, w, b);
    Regroup(a[1..], w, b);
    CollapseBlanksAt(s, inRun);
    CollapseBlanksAt(a, inRun);
    if !(IsBlank(a[0]) && inRun) {
      ConsJoin(CollapseBlanksAfter(s, inRun), CollapseBlanksAfter(a, inRun), if IsBlank(a[0]) then ' ' else a[0],
        CollapseBlanksAfter(a[1..] + w + b, IsBlank(a[0])), CollapseBlanksAfter(a[1..], IsBlank(a[0])), " ", CollapseBlanksAfter(b, false));
    }
  }

  lemma CollapseBlanksAt(s: string, inRun: bool)
    requires s != []
    ensures CollapseBlanksAfter(s, inRun) ==
      if IsBlank(s[0]) then (if inRun then CollapseBlanksAfter(s[1..], true) else [' '] + CollapseBlanksAfter(s[1..], true))
      else [s[0]] + CollapseBlanksAfter(s[1..], false)
  {
  }

  /** `CollapseBlanks` neither creates nor removes a non-whitespace character, nor reorders them. */
  lemma {:induction false} CollapseBlanksHasText(s: string, inRun: bool)
    ensures Visible(CollapseBlanksAfter(s, inRun)) == Visible(s)
    ensures HasText(CollapseBlanksAfter(s, inRun)) == HasText(s)
    decreases |s|
  {
    if s != [] {
      CollapseBlanksHasText(s[1..], IsBlank(s[0]));
      var rest := CollapseBlanksAfter(s[1..], IsBlank(s[0]));
      assert ([' '] + rest)[1..] == rest;
      assert ([s[0]] + rest)[1..] == rest;
    }
  }

  /** `CollapseBlanks` works line by line: a newline is never part of a run. */
  lemma {:induction false} CollapseBlanksSplits(a: string, b: string, inRun: bool)
    ensures CollapseBlanksAfter(a + "\n" + b, inRun)
         == CollapseBlanksAfter(a, inRun) + "\n" + CollapseBlanks(b)
    decreases |a|
  {
    var s := a + "\n" + b;
    if a == [] {
      assert s == ['\n'] + b && s[1..] == b;
    } else {
      assert s[0] == a[0] && s[1..] == a[1..] + "\n" + b;
      var next := IsBlank(a[0]);
      CollapseBlanksSplits(a[1..], b, next);
      var x := CollapseBlanksAfter(a[1..], next);
      var y := CollapseBlanks(b);
      assert [' '] + (x + "\n" + y) == ([' '] + x) + "\n" + y;
      assert [a[0]] + (x + "\n" + y) == ([a[0]] + x) + "\n" + y;
    }
  }

  /** Drops the leading run of newlines. */
  function SkipNewlines(s: string): (r: string)
    ensures |r| <= |s| && r == s[|s| - |r|..]
    ensures r != [] ==> r[0] != '\n'
    decreases |s|
  {
    if s != [] && s[0] == '\n' then SkipNewlines(s[1..]) else s
  }

  /** `re.sub(r'\n{3,}', '\n\n', s)`: runs of three or more newlines become two. */
  function CapNewlines(s: string): (r: string)
    decreases |s|
  {
    if s == [] then []
    else if |s| >= 3 && s[0] == '\n' && s[1] == '\n' && s[2] == '\n' then
      "\n\n" + CapNewlines(SkipNewlines(s))
    else [s[0]] + CapNewlines(s[1..])
  }

  /** On a string without a run of three newlines `CapNewlines` changes nothing. */
  lemma {:induction false} CapNewlinesNoop(s: string)
    requires NoTripleNewline(s)
    ensures CapNewlines(s) == s
    decreases |s|
  {
    if s != [] {
      assert NoTripleNewline(s[1..]) by {
        forall i | 0 <= i < |s[1..]| - 2
          ensures !(s[1..][i] == '\n' && s[1..][i + 1] == '\n' && s[1..][i + 2] == '\n')
        {
          assert s[1..][i] == s[i + 1] && s[1..][i + 1] == s[i + 2] && s[1..][i + 2] == s[i + 3];
        }
      }
      CapNewlinesNoop(s[1..]);
    }
  }

  /** Python's `str.replace(pat, rep)`: leftmost non-overlapping occurrences. */
  function Replace(s: string, pat: string, rep: string): (r: string)
    requires pat != []
    ensures s != [] && rep != [] ==> r != []
    decreases |s|
  {
    if |s| < |pat| then s
    else if s[..|pat|] == pat then rep + Replace(s[|pat|..], pat, rep)
    else [s[0]] + Replace(s[1..], pat, rep)
  }

  /** Every character of a replacement comes from the string or from the replacement text. */
  lemma {:induction false} ReplaceChars(s: string, pat: string, rep: string)
    requires pat != []
    ensures forall i :: 0 <= i < |Replace(s, pat, rep)| ==> Replace(s, pat, rep)[i] in s || Replace(s, pat, rep)[i] in rep
    decreases |s|
  {
    if |s| >= |pat| {
      if s[..|pat|] == pat {
        ReplaceChars(s[|pat|..], pat, rep);
        SuffixChars(s, |pat|);
        CharsFrom(Replace(s, pat, rep), rep, Replace(s[|pat|..], pat, rep), s, s[|pat|..], rep);
      } else {
        ReplaceChars(s[1..], pat, rep);
        SuffixChars(s, 1);
        CharsFrom(Replace(s, pat, rep), [s[0]], Replace(s[1..], pat, rep), s, s[1..], rep);
      }
    }
  }

  lemma SuffixChars<T>(s: seq<T>, k: nat)
    requires k <= |s|
    ensures forall c :: c in s[k..] ==> c in s
  {
    forall c | c in s[k..] ensures c in s {
      var j :| 0 <= j < |s[k..]| && s[k..][j] == c;
      assert s[k + j] == c;
    }
  }

  /** Where `x` is `a + t`, the characters of `x` come from `s` or `rep` when those of `a` and `t` do. */
  lemma CharsFrom<T>(x: seq<T>, a: seq<T>, t: seq<T>, s: seq<T>, u: seq<T>, rep: seq<T>)
    requires x == a + t
    requires forall i :: 0 <= i < |a| ==> a[i] in s || a[i] in rep
    requires forall i :: 0 <= i < |t| ==> t[i] in u || t[i] in rep
    requires forall c :: c in u ==> c in s
    ensures forall i :: 0 <= i < |x| ==> x[i] in s || x[i] in rep
  {
    forall i | 0 <= i < |x| ensures x[i] in s || x[i] in rep {
      if i < |a| {
        assert x[i] == a[i];
      } else {
        assert x[i] == t[i - |a|];
      }
    }
  }

  /** `s[1..]` seen from `s`: an occurrence one position further on. */
  lemma OccursShift(s: string, pat: string)
    requires s != []
    ensures forall j :: 0 <= j ==> (OccursAt(s[1..], pat, j) <==> OccursAt(s, pat, j + 1))
  {
    forall j | 0 <= j ensures OccursAt(s[1..], pat, j) <==> OccursAt(s, pat, j + 1) {
      if j <= |s[1..]| - |pat| {
        assert s[1..][j..j + |pat|] == s[j + 1..j + 1 + |pat|];
      }
    }
  }

  /** Python's `str.find(pat)`: the leftmost position where `pat` occurs, if any. */
  function Find(s: string, pat: string): (r: Option<nat>)
    requires pat != []
    ensures r.Some? ==> r.value + |pat| <= |s|
    decreases |s|
  {
    if |s| < |pat| then None
    else if s[..|pat|] == pat then Some(0)
    else
      match Find(s[1..], pat)
      case None => None
      case Some(i) => Some(i + 1)
  }

  /** `Find` gives the leftmost occurrence, and nothing only when there is none. */
  lemma {:induction false} FindLeftmost(s: string, pat: string)
    requires pat != []
    ensures Find(s, pat).Some? ==>
      (OccursAt(s, pat, Find(s, pat).value) && forall j :: 0 <= j < Find(s, pat).value ==> !OccursAt(s, pat, j))
    ensures Find(s, pat).None? ==> forall j :: !OccursAt(s, pat, j)
    decreases |s|
  {
    if |s| < |pat| {
    } else if s[..|pat|] == pat {
      assert s[0..|pat|] == s[..|pat|];
    } else {
      FindLeftmost(s[1..], pat);
      OccursShift(s, pat);
      assert !OccursAt(s, pat, 0) by { assert s[0..|pat|] == s[..|pat|]; }
      forall j | 1 <= j ensures OccursAt(s, pat, j) ==> OccursAt(s[1..], pat, j - 1) {}
    }
  }

  /** `str.replace` with no occurrence of `pat` gives back the string unchanged. */
  lemma {:induction false} ReplaceNoMatch(s: string, pat: string, rep: string)
    requires pat != [] && Find(s, pat).None?
    ensures Replace(s, pat, rep) == s
    decreases |s|
  {
    if |s| >= |pat| {
      ReplaceNoMatch(s[1..], pat, rep);
      assert [s[0]] + s[1..] == s;
    }
  }

  /**
   * `str.replace` as Python documents it: the leftmost occurrence, at `i`, is
   * replaced, what precedes it is kept, and the search goes on after that
   * occurrence, so replaced occurrences never overlap.
   */
  lemma ReplaceLeftmost(s: string, pat: string, rep: string, i: nat)
    requires pat != [] && Find(s, pat) == Some(i)
    ensures Replace(s, pat, rep) == s[..i] + rep + Replace(s[i + |pat|..], pat, rep)
  {
    FindLeftmost(s, pat);
    ReplaceKeepsPrefix(s, pat, rep, i);
    ReplaceOccurrence(s, pat, rep, i);
    JoinAt(Replace(s, pat, rep), s[..i], Replace(s[i..], pat, rep), rep, Replace(s[i + |pat|..], pat, rep));
  }

  /** Before the first occurrence, `str.replace` keeps the string as it is. */
  lemma ReplaceKeepsPrefix(s: string, pat: string, rep: string, i: nat)
    requires pat != [] && i <= |s|
    requires forall j :: 0 <= j < i ==> !OccursAt(s, pat, j)
    ensures Replace(s, pat, rep) == s[..i] + Replace(s[i..], pat, rep)
  {
    ReplaceKeeps(s, pat, rep, 0, i);
    assert s[0..] == s;
    assert s[0..i] == s[..i];
  }

  lemma {:induction false} ReplaceKeeps(s: string, pat: string, rep: string, k: nat, i: nat)
    requires pat != [] && k <= i <= |s|
    requires forall j :: k <= j < i ==> !OccursAt(s, pat, j)
    ensures Replace(s[k..], pat, rep) == s[k..i] + Replace(s[i..], pat, rep)
    decreases i - k
  {
    if k < i {
      ReplaceSkipAt(s, pat, rep, k);
      ReplaceKeeps(s, pat, rep, k + 1, i);
      ConsSlice(s, k, i, Replace(s[i..], pat, rep));
    } else {
      EmptySlice(s, i, Replace(s[i..], pat, rep));
    }
  }

  /** Where no occurrence starts at `k`, the character there is kept. */
  lemma ReplaceSkipAt(s: string, pat: string, rep: string, k: nat)
    requires pat != [] && k < |s| && !OccursAt(s, pat, k)
    ensures Replace(s[k..], pat, rep) == [s[k]] + Replace(s[k + 1..], pat, rep)
  {
    assert s[k..][1..] == s[k + 1..];
    if |pat| <= |s[k..]| {
      assert s[k..][..|pat|] == s[k..k + |pat|];
    } else {
      assert s[k..] == [s[k]] + s[k + 1..];
    }
  }

  /** An occurrence at `i` is replaced. */
  lemma ReplaceOccurrence(s: string, pat: string, rep: string, i: nat)
    requires pat != [] && OccursAt(s, pat, i)
    ensures Replace(s[i..], pat, rep) == rep + Replace(s[i + |pat|..], pat, rep)
  {
    assert s[i..][..|pat|] == s[i..i + |pat|];
    assert s[i..][|pat|..] == s[i + |pat|..];
  }

  lemma JoinAt<T>(x: seq<T>, p: seq<T>, y: seq<T>, a: seq<T>, b: seq<T>)
    requires x == p + y && y == a + b
    ensures x == p + a + b
  {
  }

  lemma ConsSlice<T>(s: seq<T>, k: nat, i: nat, t: seq<T>)
    requires k < i <= |s|
    ensures [s[k]] + (s[k + 1..i] + t) == s[k..i] + t
  {
    assert s[k..i] == [s[k]] + s[k + 1..i];
  }

  lemma EmptySlice<T>(s: seq<T>, i: nat, t: seq<T>)
    requires i <= |s|
    ensures s[i..i] + t == t
  {
  }

  /** No character of `q` occurs in `r`. */
  predicate Disjoint(q: string, r: string) {
    forall i :: 0 <= i < |q| ==> q[i] !in r
  }

  lemma {:induction false} ContainsLonger(s: string, p: string)
    ensures Contains(s, p) ==> |p| <= |s|
    decreases |s|
  {
    if s != [] {
      ContainsLonger(s[1..], p);
    }
  }

  /** An occurrence in a suffix is an occurrence in the whole string. */
  lemma {:induction false} ContainsSuffix(s: string, k: nat, p: string)
    requires k <= |s|
    ensures Contains(s[k..], p) ==> Contains(s, p)
    decreases k
  {
    if k > 0 {
      assert s[1..][k - 1..] == s[k..];
      ContainsSuffix(s[1..], k - 1, p);
    }
  }

  /** A non-empty `p` whose first character is not in `a` cannot start inside `a`. */
  lemma {:induction false} ContainsSkip(a: string, b: string, p: string)
    requires p != [] && p[0] !in a
    ensures Contains(a + b, p) ==> Contains(b, p)
    decreases |a|
  {
    if a == [] {
      assert a + b == b;
    } else {
      assert (a + b)[0] == a[0];
      assert (a + b)[1..] == a[1..] + b;
      ContainsSkip(a[1..], b, p);
    }
  }

  /** Every character of an occurring string is a character of the string it occurs in. */
  lemma {:induction false} ContainsChars(s: string, p: string, i: nat)
    ensures i < |p| && Contains(s, p) ==> p[i] in s
    decreases |s|
  {
    if s != [] {
      ContainsChars(s[1..], p, i);
      if i < |p| && StartsWith(s, p) {
        assert s[i] == p[i];
      }
    }
  }

  /** The only occurrence, after a part that cannot start one, is replaced. */
  lemma {:induction false} ReplaceSingle(a: string, pat: string, rep: string, b: string)
    requires pat != [] && |b| < |pat|
    requires forall i :: 0 <= i < |a| ==> a[i] != pat[0]
    ensures Replace(a + pat + b, pat, rep) == a + rep + b
    decreases |a|
  {
    var s := a + pat + b;
    if a == [] {
      assert s == pat + b && s[..|pat|] == pat && s[|pat|..] == b;
      assert Replace(s, pat, rep) == rep + Replace(b, pat, rep);
      assert Replace(b, pat, rep) == b;
    } else {
      assert s[..|pat|] != pat by {
        assert s[..|pat|][0] == a[0];
      }
      assert s[1..] == a[1..] + pat + b;
      ReplaceSingle(a[1..], pat, rep, b);
      assert Replace(s, pat, rep) == [a[0]] + (a[1..] + rep + b);
      assert [a[0]] + (a[1..] + rep + b) == a + rep + b;
    }
  }

  /** A prefix sharing no character with the replacement was already a prefix. */
  lemma {:induction false} ReplaceStartsWith(s: string, pat: string, rep: string, q: string)
    requires pat != [] && rep != [] && Disjoint(q, rep)
    ensures StartsWith(Replace(s, pat, rep), q) ==> StartsWith(s, q)
    decreases |s|
  {
    if q != [] && |s| >= |pat| {
      var r := Replace(s, pat, rep);
      if s[..|pat|] == pat {
        assert r[0] == rep[0];
        assert q[0] !in rep;
      } else {
        ReplaceStartsWith(s[1..], pat, rep, q[1..]);
        assert r == [s[0]] + Replace(s[1..], pat, rep);
        if StartsWith(r, q) {
          assert r[1..][..|q| - 1] == q[1..];
          assert s == [s[0]] + s[1..];
        }
      }
    }
  }

  /**
   * `str.replace` creates no occurrence of a string that shares no
   * character with the replacement.
   */
  lemma {:induction false} ReplaceContains(s: string, pat: string, rep: string, q: string)
    requires pat != [] && rep != [] && Disjoint(q, rep)
    ensures Contains(Replace(s, pat, rep), q) ==> Contains(s, q)
    decreases |s|
  {
    if q != [] && |s| >= |pat| {
      var r := Replace(s, pat, rep);
      if s[..|pat|] == pat {
        var t := Replace(s[|pat|..], pat, rep);
        assert q[0] !in rep;
        ContainsSkip(rep, t, q);
        ReplaceContains(s[|pat|..], pat, rep, q);
        ContainsSuffix(s, |pat|, q);
      } else {
        var t := Replace(s[1..], pat, rep);
        assert r[1..] == t;
        ReplaceStartsWith(s, pat, rep, q);
        ReplaceContains(s[1..], pat, rep, q);
      }
    }
  }

  /** After `str.replace`, the pattern no longer occurs, when it shares no character with the replacement. */
  lemma {:induction false} ReplaceNoneLeft(s: string, pat: string, rep: string)
    requires pat != [] && rep != [] && Disjoint(pat, rep)
    ensures !Contains(Replace(s, pat, rep), pat)
    decreases |s|
  {
    var r := Replace(s, pat, rep);
    if |s| < |pat| {
      ContainsLonger(s, pat);
    } else if s[..|pat|] == pat {
      var t := Replace(s[|pat|..], pat, rep);
      assert pat[0] !in rep;
      ContainsSkip(rep, t, pat);
      ReplaceNoneLeft(s[|pat|..], pat, rep);
    } else {
      assert r[1..] == Replace(s[1..], pat, rep);
      ReplaceStartsWith(s, pat, rep, pat);
      ReplaceNoneLeft(s[1..], pat, rep);
    }
  }

  // ---------------------------------------------------------------------------
  // join, split and slicing
  // ---------------------------------------------------------------------------

  /** `sep.join(parts)`. */
  function Join(parts: seq<string>, sep: string): (r: string)
    decreases |parts|
  {
    if parts == [] then ""
    else if |parts| == 1 then parts[0]
    else parts[0] + sep + Join(parts[1..], sep)
  }

  /** A character in neither the pieces nor the separator is not in the joined string. */
  lemma {:induction false} JoinAvoids(parts: seq<string>, sep: string, c: char)
    requires c !in sep && forall k :: 0 <= k < |parts| ==> c !in parts[k]
    ensures c !in Join(parts, sep)
    decreases |parts|
  {
    if |parts| > 1 {
      JoinAvoids(parts[1..], sep, c);
    }
  }

  /** `s.split(c)` for a one-character separator: never empty, and the pieces
      contain no separator. */
  function Split(s: string, c: char): (r: seq<string>)
    ensures |r| >= 1
    ensures forall k :: 0 <= k < |r| ==> c !in r[k]
    decreases |s|
  {
    if s == [] then [""]
    else if s[0] == c then [""] + Split(s[1..], c)
    else
      var t := Split(s[1..], c);
      [[s[0]] + t[0]] + t[1..]
  }

  /** Splitting and re-joining on the same character gives the string back. */
  lemma {:induction false} JoinSplit(s: string, c: char)
    ensures Join(Split(s, c), [c]) == s
    decreases |s|
  {
    if s == [] {
    } else if s[0] == c {
      JoinSplit(s[1..], c);
    } else {
      var t := Split(s[1..], c);
      JoinSplit(s[1..], c);
      if |t| == 1 {
      } else {
        assert Join([[s[0]] + t[0]] + t[1..], [c]) == [s[0]] + t[0] + [c] + Join(t[1..], [c]);
        assert Join(t, [c]) == t[0] + [c] + Join(t[1..], [c]);
      }
    }
  }

  /** Joining pieces without the separator and splitting again gives the pieces back. */
  lemma {:induction false} SplitJoin(parts: seq<string>, c: char)
    requires |parts| >= 1
    requires forall k :: 0 <= k < |parts| ==> c !in parts[k]
    ensures Split(Join(parts, [c]), c) == parts
    decreases |parts|, |parts[0]|
  {
    if parts[0] == [] {
      if |parts| == 1 {
      } else {
        assert Join(parts, [c]) == [c] + Join(parts[1..], [c]);
        assert ([c] + Join(parts[1..], [c]))[1..] == Join(parts[1..], [c]);
        SplitJoin(parts[1..], c);
      }
    } else {
      var head := parts[0];
      var parts' := [head[1..]] + parts[1..];
      assert c !in head[1..];
      assert forall k :: 0 <= k < |parts'| ==> c !in parts'[k] by {
        forall k | 0 <= k < |parts'| ensures c !in parts'[k] { if k > 0 { assert parts'[k] == parts[k]; } }
      }
      SplitJoin(parts', c);
      if |parts| == 1 {
        assert Join(parts, [c]) == head;
        assert Join(parts', [c]) == head[1..];
        assert head == [head[0]] + head[1..];
      } else {
        assert Join(parts, [c]) == head + [c] + Join(parts[1..], [c]);
        assert Join(parts', [c]) == head[1..] + [c] + Join(parts[1..], [c]);
        assert Join(parts, [c]) == [head[0]] + Join(parts', [c]);
        assert head[0] != c;
        assert [head[0]] + head[1..] == head;
        assert parts'[1..] == parts[1..];
        assert parts == [head] + parts[1..];
      }
    }
  }

  /** Python's `s[:n]` for an integer `n` (a negative `n` counts from the end). */
  function Take<T>(s: seq<T>, n: int): (r: seq<T>)
    ensures |r| <= |s| && r == s[..|r|]
    ensures n >= 0 ==> |r| == if n < |s| then n else |s|
    ensures n < 0 ==> |r| == if |s| + n > 0 then |s| + n else 0
  {
    if n >= |s| then s
    else if n >= 0 then s[..n]
    else if |s| + n > 0 then s[..|s| + n]
    else []
  }

  // ---------------------------------------------------------------------------
  // Numbers
  // ---------------------------------------------------------------------------

  function DigitChar(d: nat): (c: char)
    requires d < 10
    ensures IsDigit(c) && c as int - '0' as int == d
  {
    "0123456789"[d]
  }

  /** `str(n)` for a natural number. */
  function Decimal(n: nat): (r: string)
    ensures r != [] && AllDigits(r)
    ensures n >= 10 ==> |r| >= 2
    decreases n
  {
    if n < 10 then [DigitChar(n)] else Decimal(n / 10) + [DigitChar(n % 10)]
  }

  /** Distinct numbers have distinct decimal renderings. */
  lemma {:induction false} DecimalInjective(a: nat, b: nat)
    requires Decimal(a) == Decimal(b)
    ensures a == b
    decreases a
  {
    var da, db := Decimal(a), Decimal(b);
    if a < 10 && b < 10 {
      assert DigitChar(a) == da[0] == DigitChar(b);
    } else if a >= 10 && b >= 10 {
      assert DigitChar(a % 10) == da[|da| - 1] == DigitChar(b % 10);
      assert Decimal(a / 10) == da[..|da| - 1] == Decimal(b / 10);
      DecimalInjective(a / 10, b / 10);
    } else {
      assert false;
    }
  }

  /** The value of a string of ASCII digits (`int(s)`). */
  function DigitsValue(s: string): (v: nat)
    requires AllDigits(s)
    decreases |s|
  {
    if s == [] then 0 else DigitsValue(s[..|s| - 1]) * 10 + (s[|s| - 1] as int - '0' as int)
  }

  /** `int(str(n)) == n`: the decimal rendering reads back as the number. */
  lemma {:induction false} DecimalValue(n: nat)
    ensures DigitsValue(Decimal(n)) == n
    decreases n
  {
    var d := Decimal(n);
    if n < 10 {
      assert d[..0] == [];
    } else {
      DecimalValue(n / 10);
      assert d[..|d| - 1] == Decimal(n / 10);
    }
  }

  /** Left pads `Decimal(n)` with zeros to `width` characters. */
  function ZeroPad(n: nat, width: nat): (r: string)
    ensures |r| >= width && AllDigits(r)
  {
    var d := Decimal(n);
    if |d| >= width then d else seq(width - |d|, _ => '0') + d
  }

  // ---------------------------------------------------------------------------
  // Order-preserving de-duplication
  // ---------------------------------------------------------------------------

  predicate NoDup<T(==)>(s: seq<T>) {
    forall i, j :: 0 <= i < j < |s| ==> s[i] != s[j]
  }

  /** `if x not in acc: acc.append(x)`. */
  function AddNew<T(==)>(acc: seq<T>, x: T): seq<T> {
    if x in acc then acc else acc + [x]
  }

  /** The distinct elements of `s` in order of first appearance. */
  function Dedup<T(==)>(s: seq<T>): seq<T>
    decreases |s|
  {
    if s == [] then [] else AddNew(Dedup(s[..|s| - 1]), s[|s| - 1])
  }

  lemma AddNewNoDup<T>(acc: seq<T>, x: T)
    requires NoDup(acc)
    ensures NoDup(AddNew(acc, x)) && |AddNew(acc, x)| <= |acc| + 1
    ensures forall y :: y in AddNew(acc, x) <==> y in acc || y == x
  {
    if x !in acc {
      forall i, j | 0 <= i < j < |acc| + 1 ensures (acc + [x])[i] != (acc + [x])[j] {
        if j == |acc| { assert (acc + [x])[i] == acc[i]; }
      }
    }
  }

  /** Dedup keeps every element once: no repeats, the same elements, and no more of them. */
  lemma {:induction false} DedupShape<T>(s: seq<T>)
    ensures NoDup(Dedup(s)) && |Dedup(s)| <= |s|
    ensures forall x :: x in Dedup(s) <==> x in s
    decreases |s|
  {
    if s != [] {
      var init := s[..|s| - 1];
      DedupShape(init);
      AddNewNoDup(Dedup(init), s[|s| - 1]);
      assert s == init + [s[|s| - 1]];
    }
  }

  /** `for x in xs: if x not in acc: acc.append(x)`. */
  function AddAll<T(==)>(acc: seq<T>, xs: seq<T>): seq<T>
    decreases |xs|
  {
    if xs == [] then acc else AddNew(AddAll(acc, xs[..|xs| - 1]), xs[|xs| - 1])
  }

  lemma DedupAppend<T>(a: seq<T>, x: T)
    ensures Dedup(a + [x]) == AddNew(Dedup(a), x)
  {
    assert (a + [x])[..|a|] == a;
  }

  /** Appending to a de-duplicated list is de-duplicating the concatenation. */
  lemma {:induction false} AddAllDedup<T>(a: seq<T>, xs: seq<T>)
    ensures AddAll(Dedup(a), xs) == Dedup(a + xs)
    decreases |xs|
  {
    if xs == [] {
      assert a + xs == a;
    } else {
      var init := xs[..|xs| - 1];
      AddAllDedup(a, init);
      DedupAppend(a + init, xs[|xs| - 1]);
      assert a + xs == (a + init) + [xs[|xs| - 1]];
    }
  }

  lemma AddNewPrefix<T>(acc: seq<T>, x: T)
    ensures |acc| <= |AddNew(acc, x)| && acc == AddNew(acc, x)[..|acc|]
  {
  }

  lemma PrefixOfPrefix<T>(a: seq<T>, b: seq<T>, c: seq<T>)
    requires |a| <= |b| && a == b[..|a|]
    requires |b| <= |c| && b == c[..|b|]
    ensures |a| <= |c| && a == c[..|a|]
  {
  }

  /** Elements found earlier keep their places when more are appended. */
  lemma {:induction false} DedupPrefix<T>(a: seq<T>, b: seq<T>)
    ensures |Dedup(a)| <= |Dedup(a + b)| && Dedup(a) == Dedup(a + b)[..|Dedup(a)|]
    decreases |b|
  {
    if b == [] {
      assert a + b == a;
    } else {
      var b' := b[..|b| - 1];
      DedupPrefix(a, b');
      assert (a + b)[..|a + b| - 1] == a + b';
      var mid := Dedup(a + b');
      var all := Dedup(a + b);
      var x := b[|b| - 1];
      assert (a + b)[|a + b| - 1] == x;
      assert all == AddNew(mid, x);
      AddNewPrefix(mid, x);
      PrefixOfPrefix(Dedup(a), mid, all);
    }
  }
}
