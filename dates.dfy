// The date extractor (`extract_date`): the first date element whose string,
// once cleaned and with French month names turned into numbers, parses with
// one of four formats, re-rendered as `YYYY-MM-DD`.

module Dates {
  import opened Text
  import opened Dom
  import opened Strptime

  const DateSelectors: seq<seq<Selector>> := [
    One(TagAttr("time", "datetime")),
    One(Class("entry-date")),
    One(Class("post-date")),
    One(Class("published")),
    One(TagAttrIs("meta", "property", "article:published_time"))
  ]

  /** The candidate string of a date element: its `datetime`, else its `content`, else its text. */
  function DateString(n: Node): string {
    match GetFirst(n, ["datetime", "content"])
    case Some(v) => if v != "" then v else GetText(n)
    case None => GetText(n)
  }

  // ---------------------------------------------------------------------------
  // The clean-up applied before every format
  // ---------------------------------------------------------------------------

  /** What `re.sub(r'[^\d\-/\s\w]', '', s)` keeps. */
  predicate Kept(c: char) {
    IsDigit(c) || c == '-' || c == '/' || IsSpace(c) || IsWordChar(c)
  }

  predicate AllKept(s: string) {
    forall i :: 0 <= i < |s| ==> Kept(s[i])
  }

  /** The character filter. */
  function CleanChars(s: string): (r: string)
    ensures AllKept(r)
    ensures forall i :: 0 <= i < |r| ==> r[i] in s
    decreases |s|
  {
    if s == [] then []
    else
      var t := CleanChars(s[1..]);
      assert forall i :: 0 <= i < |t| ==> t[i] in s by {
        forall i | 0 <= i < |t| ensures t[i] in s {
          var k :| 0 <= k < |s[1..]| && s[1..][k] == t[i];
          assert s[k + 1] == t[i];
        }
      }
      if Kept(s[0]) then [s[0]] + t else t
  }

  /** The filter leaves a string of kept characters alone. */
  lemma {:induction false} CleanCharsNoop(s: string)
    requires AllKept(s)
    ensures CleanChars(s) == s
    decreases |s|
  {
    if s != [] {
      CleanCharsNoop(s[1..]);
    }
  }

  /** The filter works character by character: it distributes over concatenation. */
  lemma {:induction false} CleanCharsSplit(a: string, b: string)
    ensures CleanChars(a + b) == CleanChars(a) + CleanChars(b)
    decreases |a|
  {
    if a != [] {
      TailOfAppend(a, b);
      CleanCharsSplit(a[1..], b);
      var t := CleanChars(a[1..]);
      if Kept(a[0]) {
        assert CleanChars(a + b) == [a[0]] + (t + CleanChars(b));
        assert CleanChars(a) == [a[0]] + t;
        ConsAppend(a[0], t, CleanChars(b));
      }
    } else {
      NothingAppend(b);
    }
  }

  lemma TailOfAppend(a: string, b: string)
    requires a != []
    ensures (a + b)[0] == a[0] && (a + b)[1..] == a[1..] + b
  {
  }

  lemma ConsAppend(c: char, t: string, u: string)
    ensures [c] + (t + u) == [c] + t + u
  {
  }

  lemma NothingAppend(b: string)
    ensures [] + b == b
  {
  }

  /**
   * Every character the pattern allows survives, in its place among the
   * survivors of what precedes and follows it; every other one is deleted.
   */
  lemma CleanCharsAt(s: string, i: nat)
    requires i < |s|
    ensures Kept(s[i]) ==> CleanChars(s) == CleanChars(s[..i]) + [s[i]] + CleanChars(s[i + 1..])
    ensures !Kept(s[i]) ==> CleanChars(s) == CleanChars(s[..i]) + CleanChars(s[i + 1..])
  {
    SplitAround(s, i);
    CleanCharsMid(s[..i], s[i], s[i + 1..]);
  }

  lemma SplitAround(s: string, i: nat)
    requires i < |s|
    ensures s == s[..i] + [s[i]] + s[i + 1..]
  {
  }

  lemma CleanCharsMid(p: string, c: char, q: string)
    ensures Kept(c) ==> CleanChars(p + [c] + q) == CleanChars(p) + [c] + CleanChars(q)
    ensures !Kept(c) ==> CleanChars(p + [c] + q) == CleanChars(p) + CleanChars(q)
  {
    CleanCharsSplit(p + [c], q);
    CleanCharsSplit(p, [c]);
    CleanCharsOne(c);
    if !Kept(c) {
      AppendNothing(CleanChars(p));
    }
  }

  lemma CleanCharsOne(c: char)
    ensures CleanChars([c]) == if Kept(c) then [c] else []
  {
    assert [c][1..] == [];
  }

  lemma AppendNothing(a: string)
    ensures a + [] == a
  {
  }

  /** `date_str.split('T')[0]` when the string has a `T`. */
  function BeforeT(s: string): (r: string)
    ensures 'T' !in r
    ensures forall i :: 0 <= i < |r| ==> r[i] in s
  {
    if 'T' in s then
      var r := Split(s, 'T')[0];
      SplitHeadIn(s, 'T');
      r
    else s
  }

  lemma {:induction false} SplitHeadIn(s: string, c: char)
    ensures forall i :: 0 <= i < |Split(s, c)[0]| ==> Split(s, c)[0][i] in s
    decreases |s|
  {
    if s != [] && s[0] != c {
      SplitHeadIn(s[1..], c);
      var h := Split(s[1..], c)[0];
      assert Split(s, c)[0] == [s[0]] + h;
      forall i | 0 <= i < |h| ensures h[i] in s {
        var k :| 0 <= k < |s[1..]| && s[1..][k] == h[i];
        assert s[k + 1] == h[i];
      }
    }
  }

  /** The head of a split is everything before the first separator. */
  lemma {:induction false} SplitHead(a: string, c: char, b: string)
    requires c !in a
    ensures Split(a + [c] + b, c)[0] == a
    decreases |a|
  {
    if a == [] {
      assert a + [c] + b == [c] + b;
    } else {
      assert (a + [c] + b)[1..] == a[1..] + [c] + b;
      SplitHead(a[1..], c, b);
    }
  }

  /** The mapping of French month names, in the dictionary's order. */
  const FrenchMonths: seq<(string, string)> := [
    ("janvier", "01"), ("f\U{E9}vrier", "02"), ("mars", "03"),
    ("avril", "04"), ("mai", "05"), ("juin", "06"),
    ("juillet", "07"), ("ao\U{FB}t", "08"), ("septembre", "09"),
    ("octobre", "10"), ("novembre", "11"), ("d\U{E9}cembre", "12")
  ]

  predicate LowerLetters(s: string) {
    forall i :: 0 <= i < |s| ==> IsLower(s[i])
  }

  /** Every name is lower-case letters and every number is digits, neither empty. */
  predicate MonthTable(ms: seq<(string, string)>) {
    forall k :: 0 <= k < |ms| ==> ms[k].0 != [] && LowerLetters(ms[k].0) && ms[k].1 != [] && AllDigits(ms[k].1)
  }

  lemma FrenchMonthsTable()
    ensures MonthTable(FrenchMonths)
  {
  }

  lemma LettersDisjoint(q: string, r: string)
    requires LowerLetters(q) && AllDigits(r)
    ensures Disjoint(q, r)
  {
    forall i | 0 <= i < |q| ensures q[i] !in r {
      assert forall k :: 0 <= k < |r| ==> r[k] != q[i];
    }
  }

  /** One entry of the month loop: when the lower-cased string contains the name, it is replaced. */
  function MonthStep(cur: string, m: (string, string)): string
    requires m.0 != []
  {
    if Contains(Lower(cur), m.0) then Replace(Lower(cur), m.0, m.1) else cur
  }

  /** The month loop. */
  function MapMonths(cur: string, ms: seq<(string, string)>): string
    requires MonthTable(ms)
    decreases |ms|
  {
    if ms == [] then cur else MapMonths(MonthStep(cur, ms[0]), ms[1..])
  }

  /** One pass of the clean-up, as the body of the format loop performs it. */
  function Pass(s: string): string {
    FrenchMonthsTable();
    MapMonths(Strip(CleanChars(BeforeT(s))), FrenchMonths)
  }

  // ---------------------------------------------------------------------------
  // The clean-up is idempotent
  // ---------------------------------------------------------------------------

  /** What a pass leaves: no `T`, only kept characters, no surrounding whitespace. */
  predicate Normal(s: string) {
    'T' !in s && AllKept(s) && IsStripped(s)
  }

  /** Already lower case. */
  predicate Lowered(s: string) {
    forall i :: 0 <= i < |s| ==> LowerChar(s[i]) == s[i]
  }

  lemma LoweredLower(s: string)
    requires Lowered(s)
    ensures Lower(s) == s
  {
  }

  lemma LowerIsLowered(s: string)
    ensures Lowered(Lower(s))
  {
  }

  lemma LowerNormal(s: string)
    requires Normal(s)
    ensures Normal(Lower(s))
  {
    var l := Lower(s);
    forall i | 0 <= i < |l| ensures l[i] != 'T' {
      assert s[i] != 'T';
    }
  }

  /** The ends of a replacement come from the string or from the replacement text. */
  lemma {:induction false} ReplaceEnds(s: string, pat: string, rep: string)
    requires pat != [] && rep != []
    ensures var r := Replace(s, pat, rep);
      r != [] ==> s != [] && (r[0] == s[0] || r[0] == rep[0]) && (r[|r| - 1] == s[|s| - 1] || r[|r| - 1] == rep[|rep| - 1])
    decreases |s|
  {
    if |s| >= |pat| {
      if s[..|pat|] == pat {
        ReplaceEnds(s[|pat|..], pat, rep);
      } else {
        ReplaceEnds(s[1..], pat, rep);
      }
    }
  }

  /** Replacing a name by a number keeps a pass's output in shape. */
  lemma ReplaceNormal(s: string, pat: string, rep: string)
    requires Normal(s) && Lowered(s) && pat != [] && rep != [] && AllDigits(rep)
    ensures Normal(Replace(s, pat, rep)) && Lowered(Replace(s, pat, rep))
  {
    var r := Replace(s, pat, rep);
    ReplaceEnds(s, pat, rep);
    ReplaceChars(s, pat, rep);
    forall i | 0 <= i < |r| ensures r[i] != 'T' && Kept(r[i]) && LowerChar(r[i]) == r[i] {
      if r[i] in s {
        var k :| 0 <= k < |s| && s[k] == r[i];
      } else {
        var k :| 0 <= k < |rep| && rep[k] == r[i];
      }
    }
  }

  lemma StepNormal(cur: string, m: (string, string))
    requires Normal(cur) && m.0 != [] && m.1 != [] && AllDigits(m.1)
    ensures Normal(MonthStep(cur, m))
  {
    if Contains(Lower(cur), m.0) {
      LowerNormal(cur);
      LowerIsLowered(cur);
      ReplaceNormal(Lower(cur), m.0, m.1);
    }
  }

  lemma {:induction false} MapMonthsNormal(cur: string, ms: seq<(string, string)>)
    requires MonthTable(ms) && Normal(cur)
    ensures Normal(MapMonths(cur, ms))
    decreases |ms|
  {
    if ms != [] {
      StepNormal(cur, ms[0]);
      MapMonthsNormal(MonthStep(cur, ms[0]), ms[1..]);
    }
  }

  /** The month loop creates no occurrence of a lower-case word. */
  lemma {:induction false} MapMonthsKeeps(cur: string, ms: seq<(string, string)>, q: string)
    requires MonthTable(ms) && LowerLetters(q)
    ensures Contains(Lower(MapMonths(cur, ms)), q) ==> Contains(Lower(cur), q)
    decreases |ms|
  {
    if ms != [] {
      var next := MonthStep(cur, ms[0]);
      MapMonthsKeeps(next, ms[1..], q);
      if Contains(Lower(cur), ms[0].0) {
        LowerIsLowered(cur);
        ReplaceLowered(Lower(cur), ms[0].0, ms[0].1);
        LettersDisjoint(q, ms[0].1);
        ReplaceContains(Lower(cur), ms[0].0, ms[0].1, q);
      }
    }
  }

  lemma ReplaceLowered(s: string, pat: string, rep: string)
    requires Lowered(s) && pat != [] && AllDigits(rep)
    ensures Lower(Replace(s, pat, rep)) == Replace(s, pat, rep)
  {
    var r := Replace(s, pat, rep);
    ReplaceChars(s, pat, rep);
    forall i | 0 <= i < |r| ensures LowerChar(r[i]) == r[i] {
      if r[i] in s {
        var k :| 0 <= k < |s| && s[k] == r[i];
      } else {
        var k :| 0 <= k < |rep| && rep[k] == r[i];
      }
    }
    LoweredLower(r);
  }

  /** After the month loop, no name of the table occurs in the lower-cased string. */
  lemma {:induction false} MapMonthsClears(cur: string, ms: seq<(string, string)>)
    requires MonthTable(ms)
    ensures forall k :: 0 <= k < |ms| ==> !Contains(Lower(MapMonths(cur, ms)), ms[k].0)
    decreases |ms|
  {
    if ms != [] {
      var next := MonthStep(cur, ms[0]);
      MapMonthsClears(next, ms[1..]);
      if Contains(Lower(cur), ms[0].0) {
        LowerIsLowered(cur);
        ReplaceLowered(Lower(cur), ms[0].0, ms[0].1);
        LettersDisjoint(ms[0].0, ms[0].1);
        ReplaceNoneLeft(Lower(cur), ms[0].0, ms[0].1);
      }
      MapMonthsKeeps(next, ms[1..], ms[0].0);
      forall k | 1 <= k < |ms| ensures !Contains(Lower(MapMonths(cur, ms)), ms[k].0) {
        assert ms[k] == ms[1..][k - 1];
      }
    }
  }

  /** With no name present, the month loop changes nothing. */
  lemma {:induction false} MapMonthsNoop(cur: string, ms: seq<(string, string)>)
    requires MonthTable(ms)
    requires forall k :: 0 <= k < |ms| ==> !Contains(Lower(cur), ms[k].0)
    ensures MapMonths(cur, ms) == cur
    decreases |ms|
  {
    if ms != [] {
      assert !Contains(Lower(cur), ms[0].0);
      forall k | 0 <= k < |ms[1..]| ensures !Contains(Lower(cur), ms[1..][k].0) {
        assert ms[1..][k] == ms[k + 1];
      }
      MapMonthsNoop(cur, ms[1..]);
    }
  }

  /** The first pass leaves a string that every later pass returns unchanged. */
  lemma PassNormal(s: string)
    ensures Normal(Pass(s))
    ensures forall k :: 0 <= k < |FrenchMonths| ==> !Contains(Lower(Pass(s)), FrenchMonths[k].0)
  {
    FrenchMonthsTable();
    var b := BeforeT(s);
    var c := CleanChars(b);
    var x := Strip(c);
    var start := |c| - |TrimLeft(c)|;
    assert OccursAt(c, x, start);
    forall i | 0 <= i < |x| ensures x[i] != 'T' && Kept(x[i]) {
      assert x[i] == c[start + i];
      assert c[start + i] in b;
    }
    MapMonthsNormal(x, FrenchMonths);
    MapMonthsClears(x, FrenchMonths);
  }

  /** A string already in shape, with no month name in its lower-cased form, passes unchanged. */
  lemma PassFixed(x: string)
    requires Normal(x)
    requires forall k :: 0 <= k < |FrenchMonths| ==> !Contains(Lower(x), FrenchMonths[k].0)
    ensures Pass(x) == x
  {
    FrenchMonthsTable();
    assert BeforeT(x) == x;
    CleanCharsNoop(x);
    StripStripped(x);
    MapMonthsNoop(x, FrenchMonths);
  }

  /** The re-normalisation the loop performs before each format is idempotent after the first pass. */
  lemma PassIdempotent(s: string)
    ensures Pass(Pass(s)) == Pass(s)
  {
    PassNormal(s);
    PassFixed(Pass(s));
  }

  // ---------------------------------------------------------------------------
  // The format loop
  // ---------------------------------------------------------------------------

  /** The format loop as written: each format sees the string as the previous passes left it. */
  function Attempt(s: string, fmts: seq<Format>): (r: Option<Date>)
    ensures r.Some? ==> Valid(r.value)
    decreases |fmts|
  {
    if fmts == [] then None
    else
      var t := Pass(s);
      match Parse(t, fmts[0])
      case Some(d) => Some(d)
      case None => Attempt(t, fmts[1..])
  }

  /** The first format that parses `t`. */
  function FirstParse(t: string, fmts: seq<Format>): Option<Date>
    decreases |fmts|
  {
    if fmts == [] then None
    else
      match Parse(t, fmts[0])
      case Some(d) => Some(d)
      case None => FirstParse(t, fmts[1..])
  }

  /** Every format is tried on the same once-cleaned string. */
  lemma {:induction false} AttemptOnce(s: string, fmts: seq<Format>)
    ensures Attempt(s, fmts) == FirstParse(Pass(s), fmts)
    decreases |fmts|
  {
    if fmts != [] {
      AttemptOnce(Pass(s), fmts[1..]);
      PassIdempotent(s);
    }
  }

  /** A cleaned string never has a colon, so not even the part of the timestamp format before its first colon matches. */
  lemma TimestampNeverMatches(s: string)
    ensures ':' !in Pass(s)
    ensures Match(Iso, Pass(s), 0) == None
  {
    PassNormal(s);
    ColonFree(Pass(s));
  }

  lemma ColonFree(x: string)
    requires AllKept(x)
    ensures ':' !in x && Match(Iso, x, 0) == None
  {
    assert !Kept(':');
    assert Iso[7] == Lit(':');
    MatchNeedsLiteral(Iso, x, 0, ':');
  }

  // ---------------------------------------------------------------------------
  // The selector cascade
  // ---------------------------------------------------------------------------

  /** The selectors tried in turn; an element whose string is empty or fails every format passes the turn on. */
  function DateOf(root: Node, sels: seq<seq<Selector>>): (r: Option<Date>)
    ensures r.Some? ==> Valid(r.value)
    decreases |sels|
  {
    if sels == [] then None
    else
      match SelectOne(DocLoc(root), sels[0])
      case None => DateOf(root, sels[1..])
      case Some(el) =>
        var ds := DateString(el.node);
        if ds == "" then DateOf(root, sels[1..])
        else
          match Attempt(ds, Formats)
          case Some(d) => Some(d)
          case None => DateOf(root, sels[1..])
  }

  /** `extract_date`. */
  function DateText(root: Node): string {
    match DateOf(root, DateSelectors)
    case Some(d) => Render(d)
    case None => ""
  }

  /** The result is empty or a valid date written `YYYY-MM-DD` with zero padding. */
  lemma DateTextShape(root: Node)
    ensures DateText(root) == "" || exists d :: Valid(d) && DateText(root) == Render(d)
    ensures DateText(root) != "" ==> var r := DateText(root);
      |r| == 10 && r[4] == '-' && r[7] == '-' && AllDigits(r[..4]) && AllDigits(r[5..7]) && AllDigits(r[8..])
  {
    if DateOf(root, DateSelectors).Some? {
      RenderShape(DateOf(root, DateSelectors).value);
    }
  }

  /** A selector whose element yields no date hands over to the next selector. */
  lemma FallThrough(root: Node, sels: seq<seq<Selector>>)
    requires sels != []
    requires match SelectOne(DocLoc(root), sels[0])
      case None => true
      case Some(el) => DateString(el.node) == "" || Attempt(DateString(el.node), Formats).None?
    ensures DateOf(root, sels) == DateOf(root, sels[1..])
  {
  }

  /** An element that yields a date decides, whatever the later selectors would give. */
  lemma FirstDateWins(root: Node, sels: seq<seq<Selector>>, el: Located)
    requires sels != [] && SelectOne(DocLoc(root), sels[0]) == Some(el)
    requires DateString(el.node) != "" && Attempt(DateString(el.node), Formats).Some?
    ensures DateOf(root, sels) == FirstParse(Pass(DateString(el.node)), Formats)
  {
    AttemptOnce(DateString(el.node), Formats);
  }

  // ---------------------------------------------------------------------------
  // The extractor's loops
  // ---------------------------------------------------------------------------

  /** The loop over the month dictionary. */
  method MapMonthNames(s: string) returns (r: string)
    ensures r == MapMonths(s, FrenchMonths)
  {
    FrenchMonthsTable();
    r := s;
    var k := 0;
    while k < |FrenchMonths|
      invariant 0 <= k <= |FrenchMonths|
      invariant MapMonths(s, FrenchMonths) == MapMonths(r, FrenchMonths[k..])
    {
      assert FrenchMonths[k..][0] == FrenchMonths[k] && FrenchMonths[k..][1..] == FrenchMonths[k + 1..];
      var (name, number) := FrenchMonths[k];
      if Contains(Lower(r), name) {
        r := Replace(Lower(r), name, number);
      }
      k := k + 1;
    }
  }

  /** One pass of the clean-up, step by step as the loop body performs it. */
  method CleanUp(s: string) returns (r: string)
    ensures r == Pass(s)
  {
    r := s;
    if 'T' in r {
      r := Split(r, 'T')[0];
    }
    r := Strip(CleanChars(r));
    r := MapMonthNames(r);
  }

  /** The loop over the formats, re-cleaning the string before each one. */
  method TryFormats(s: string, fmts: seq<Format>) returns (r: Option<Date>)
    ensures r == Attempt(s, fmts)
  {
    var dateStr := s;
    var j := 0;
    while j < |fmts|
      invariant 0 <= j <= |fmts|
      invariant Attempt(s, fmts) == Attempt(dateStr, fmts[j..])
    {
      assert fmts[j..][0] == fmts[j] && fmts[j..][1..] == fmts[j + 1..];
      dateStr := CleanUp(dateStr);
      r := Parse(dateStr, fmts[j]);
      if r.Some? {
        return;
      }
      j := j + 1;
    }
    r := None;
  }

  /** The loop over the selectors; each element's string goes through the format loop. */
  method DateFrom(soup: Soup, sels: seq<seq<Selector>>) returns (date: Option<Date>)
    ensures date == DateOf(soup.root, sels)
  {
    var i := 0;
    while i < |sels|
      invariant 0 <= i <= |sels|
      invariant DateOf(soup.root, sels) == DateOf(soup.root, sels[i..])
    {
      assert sels[i..][0] == sels[i] && sels[i..][1..] == sels[i + 1..];
      var el := SelectOne(soup.Scope(), sels[i]);
      if el.Some? {
        var dateStr := DateString(el.value.node);
        if dateStr != "" {
          date := TryFormats(dateStr, Formats);
          if date.Some? {
            return;
          }
        }
      }
      i := i + 1;
    }
    date := None;
  }

  /** `extract_date`. */
  method ExtractDate(soup: Soup) returns (date: string)
    ensures date == DateText(soup.root)
  {
    var d := DateFrom(soup, DateSelectors);
    date := if d.Some? then Render(d.value) else "";
  }

  // ---------------------------------------------------------------------------
  // Particular strings
  // ---------------------------------------------------------------------------

  predicate DigitsAndDashes(s: string) {
    forall i :: 0 <= i < |s| ==> IsDigit(s[i]) || s[i] == '-'
  }

  lemma {:induction false} ContainsFirst(s: string, q: string)
    ensures q != [] && Contains(s, q) ==> q[0] in s
    decreases |s|
  {
    if s != [] {
      ContainsFirst(s[1..], q);
      if q != [] && StartsWith(s, q) {
        assert s[0] == q[0];
      }
    }
  }

  /** A string of digits and dashes is its own cleaned form. */
  lemma PlainPass(t: string)
    requires DigitsAndDashes(t) && (t == [] || (t[0] != '-' && t[|t| - 1] != '-'))
    ensures Pass(t) == t
  {
    PlainNormal(t);
    NoMonthIn(t);
    PassFixed(t);
  }

  lemma PlainNormal(t: string)
    requires DigitsAndDashes(t) && (t == [] || (t[0] != '-' && t[|t| - 1] != '-'))
    ensures Normal(t) && Lower(t) == t
  {
    assert forall i :: 0 <= i < |t| ==> t[i] != 'T';
  }

  lemma NoMonthIn(t: string)
    requires DigitsAndDashes(t)
    ensures forall k :: 0 <= k < |FrenchMonths| ==> !Contains(Lower(t), FrenchMonths[k].0)
  {
    FrenchMonthsTable();
    assert Lower(t) == t;
    forall k | 0 <= k < |FrenchMonths| ensures !Contains(t, FrenchMonths[k].0) {
      var q := FrenchMonths[k].0;
      ContainsFirst(t, q);
      assert IsLower(q[0]);
      assert forall i :: 0 <= i < |t| ==> t[i] != q[0];
    }
  }

  lemma RenderPlain(d: Date)
    requires Valid(d)
    ensures DigitsAndDashes(Render(d)) && Render(d)[0] != '-' && Render(d)[9] != '-' && 'T' !in Render(d)
  {
    RenderShape(d);
    var r := Render(d);
    forall i | 0 <= i < |r| ensures IsDigit(r[i]) || r[i] == '-' {
      if i < 4 {
        assert r[..4][i] == r[i];
      } else if 4 < i < 7 {
        assert r[5..7][i - 5] == r[i];
      } else if i > 7 {
        assert r[8..][i - 8] == r[i];
      }
    }
  }

  /** Everything from the first `T` on is dropped. */
  lemma TimestampPass(r: string, time: string)
    requires DigitsAndDashes(r) && r != [] && r[0] != '-' && r[|r| - 1] != '-'
    ensures Pass(r + "T" + time) == r
  {
    PlainNormal(r);
    assert r + "T" + time == r + ['T'] + time;
    SplitHead(r, 'T', time);
    assert (r + "T" + time)[|r|] == 'T';
    assert BeforeT(r + "T" + time) == r == BeforeT(r);
    PlainPass(r);
  }

  /** The first format that reads a rendered date is `%Y-%m-%d`, and it reads the date back. */
  lemma FirstParseRender(d: Date)
    requires Valid(d)
    ensures FirstParse(Render(d), Formats) == Some(d)
  {
    assert Parse(Render(d), Formats[0]) == None;
    RoundTrip(d);
    assert Formats[1..][0] == Formats[1];
  }

  /** A timestamp `YYYY-MM-DDT…` and a bare `YYYY-MM-DD` both give the date. */
  lemma TimestampDate(d: Date, time: string)
    requires Valid(d)
    ensures Attempt(Render(d) + "T" + time, Formats) == Some(d)
    ensures Attempt(Render(d), Formats) == Some(d)
  {
    RenderPlain(d);
    RenderShape(d);
    TimestampPass(Render(d), time);
    PlainPass(Render(d));
    AttemptOnce(Render(d) + "T" + time, Formats);
    AttemptOnce(Render(d), Formats);
    FirstParseRender(d);
  }

  lemma RenderExample()
    ensures Render(Date(2024, 1, 15)) == "2024-01-15"
  {
    YearExample();
    MonthDayExample();
  }

  lemma YearExample()
    ensures ZeroPad(2024, 4) == "2024"
  {
    assert Decimal(2) == "2";
    assert Decimal(20) == Decimal(2) + "0";
    assert Decimal(202) == Decimal(20) + "2";
    assert Decimal(2024) == Decimal(202) + "4";
  }

  lemma MonthDayExample()
    ensures ZeroPad(1, 2) == "01" && ZeroPad(15, 2) == "15"
  {
    assert Decimal(1) == "1";
    assert Decimal(15) == Decimal(1) + "5";
  }

  /** `"2024-01-15T10:30:00+01:00"` gives `2024-01-15`. */
  lemma TimestampExample()
    ensures Attempt("2024-01-15T10:30:00+01:00", Formats) == Some(Date(2024, 1, 15))
  {
    RenderExample();
    assert "2024-01-15T10:30:00+01:00" == Render(Date(2024, 1, 15)) + "T" + "10:30:00+01:00";
    TimestampDate(Date(2024, 1, 15), "10:30:00+01:00");
  }

  /** `"not a date"` fails every format. */
  lemma NotADateExample()
    ensures Attempt("not a date", Formats) == None
  {
    NotADatePass();
    AttemptOnce("not a date", Formats);
    NotADateParse();
  }

  lemma NotADateParse()
    ensures FirstParse("not a date", Formats) == None
  {
    var t := "not a date";
    var f := Formats;
    assert Parse(t, f[0]) == None;
    assert '-' !in t && '/' !in t;
    NumericNeedSeparators(t);
    assert DayCands(t, 0) == [];
    assert Parse(t, f[3]) == None;
    assert f[3..][0] == f[3] && f[3..][1..] == [];
    assert FirstParse(t, f[3..]) == None;
    assert f[2..][0] == f[2] && f[2..][1..] == f[3..];
    assert FirstParse(t, f[2..]) == None;
    assert f[1..][0] == f[1] && f[1..][1..] == f[2..];
    assert FirstParse(t, f[1..]) == None;
  }

  /** Each French month name has a letter that `"not a date"` lacks. */
  const MissingLetter: seq<nat> := [0, 0, 0, 2, 0, 0, 0, 2, 0, 1, 2, 1]

  lemma NotADatePass()
    ensures Pass("not a date") == "not a date"
  {
    var t := "not a date";
    assert Normal(t) by {
      assert forall i :: 0 <= i < |t| ==> t[i] != 'T' && Kept(t[i]);
    }
    assert Lower(t) == t;
    forall k | 0 <= k < |FrenchMonths| ensures !Contains(t, FrenchMonths[k].0) {
      var q := FrenchMonths[k].0;
      ContainsChars(t, q, MissingLetter[k]);
      assert q[MissingLetter[k]] !in t;
    }
    PassFixed(t);
  }

  /** `"15 janvier 2024"` becomes `"15 01 2024"`, which no format reads: the month number is not a `%B` name. */
  lemma FrenchDateExample(t: string)
    requires t == "15 janvier 2024"
    ensures Pass(t) == "15 01 2024"
    ensures Attempt(t, Formats) == None
  {
    FrenchPass(t, "15 01 2024");
    AttemptOnce(t, Formats);
    FrenchParse();
  }

  /** `"15 janvier 2024"` is a day, the month name, and a year. */
  lemma FrenchReplace(t: string, a: string, m: string, b: string)
    requires a == "15 " && m == "janvier" && b == " 2024" && t == a + m + b
    ensures Contains(t, m)
    ensures Replace(t, m, "01") == "15 01 2024"
  {
    assert t[|a|..] == m + b;
    ContainsSuffix(t, |a|, m);
    ReplaceSingle(a, m, "01", b);
  }

  lemma FrenchPass(t: string, x: string)
    requires t == "15 janvier 2024" && x == "15 01 2024"
    ensures Pass(t) == x
  {
    FrenchMonthsTable();
    FrenchClean(t);
    assert Pass(t) == MapMonths(t, FrenchMonths);
    FrenchStep(t, x);
    TableTail(FrenchMonths);
    NumbersStay(x, FrenchMonths[1..]);
  }

  lemma FrenchStep(t: string, x: string)
    requires t == "15 janvier 2024" && x == "15 01 2024"
    ensures MonthStep(t, FrenchMonths[0]) == x
  {
    assert forall i :: 0 <= i < |t| ==> !IsUpper(t[i]);
    assert Lower(t) == t;
    FrenchReplace(t, "15 ", "janvier", " 2024");
  }

  lemma FrenchClean(t: string)
    requires t == "15 janvier 2024"
    ensures Strip(CleanChars(BeforeT(t))) == t
  {
    assert forall i :: 0 <= i < |t| ==> IsDigit(t[i]) || t[i] == ' ' || 'a' <= t[i] <= 'z';
    assert t[0] == '1' && t[|t| - 1] == '4';
    PlainWords(t);
  }

  /** Lower-case ASCII words, digits and spaces, without surrounding space, are already clean. */
  lemma PlainWords(t: string)
    requires forall i :: 0 <= i < |t| ==> IsDigit(t[i]) || t[i] == ' ' || 'a' <= t[i] <= 'z'
    requires t != [] && t[0] != ' ' && t[|t| - 1] != ' '
    ensures Strip(CleanChars(BeforeT(t))) == t
  {
    assert 'T' !in t;
    CleanCharsNoop(t);
    StripStripped(t);
  }

  lemma NumbersStay(x: string, ms: seq<(string, string)>)
    requires x == "15 01 2024" && MonthTable(ms)
    ensures MapMonths(x, ms) == x
  {
    assert Lower(x) == x;
    assert forall i :: 0 <= i < |x| ==> !IsLower(x[i]);
    forall k | 0 <= k < |ms| ensures !Contains(Lower(x), ms[k].0) {
      ContainsChars(x, ms[k].0, 0);
      assert IsLower(ms[k].0[0]);
    }
    MapMonthsNoop(x, ms);
  }

  lemma TableTail(ms: seq<(string, string)>)
    requires ms != [] && MonthTable(ms)
    ensures MonthTable(ms[1..])
  {
    forall k | 0 <= k < |ms| - 1 ensures ms[1..][k] == ms[k + 1] {
    }
  }

  lemma FrenchParse()
    ensures FirstParse("15 01 2024", Formats) == None
  {
    var t := "15 01 2024";
    var f := Formats;
    assert Parse(t, f[0]) == None;
    assert '-' !in t && '/' !in t;
    NumericNeedSeparators(t);
    NumericMonthFails(t);
    assert f[3..][0] == f[3] && f[3..][1..] == [];
    assert FirstParse(t, f[3..]) == None;
    assert f[2..][0] == f[2] && f[2..][1..] == f[3..];
    assert FirstParse(t, f[2..]) == None;
    assert f[1..][0] == f[1] && f[1..][1..] == f[2..];
    assert FirstParse(t, f[1..]) == None;
  }
}
