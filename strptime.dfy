// The part of `datetime.strptime` and `strftime` the date extractor relies on:
// the four formats it tries, compiled to the regular expressions Python
// builds for them, matched with the same alternative order and backtracking,
// then checked for leftover input and calendar validity.

module Strptime {
  import opened Text

  // ---------------------------------------------------------------------------
  // Dates
  // ---------------------------------------------------------------------------

  datatype Date = Date(year: nat, month: nat, day: nat)

  predicate IsLeap(y: nat) { y % 4 == 0 && (y % 100 != 0 || y % 400 == 0) }

  function DaysIn(y: nat, m: nat): nat {
    if m == 2 then (if IsLeap(y) then 29 else 28)
    else if m == 4 || m == 6 || m == 9 || m == 11 then 30
    else 31
  }

  /** What the `datetime` constructor accepts. */
  predicate Valid(d: Date) {
    1 <= d.year <= 9999 && 1 <= d.month <= 12 && 1 <= d.day <= DaysIn(d.year, d.month)
  }

  /** `strftime('%Y-%m-%d')`. */
  function Render(d: Date): string {
    ZeroPad(d.year, 4) + "-" + ZeroPad(d.month, 2) + "-" + ZeroPad(d.day, 2)
  }

  // ---------------------------------------------------------------------------
  // Compiled formats
  // ---------------------------------------------------------------------------

  datatype Field = Year | Month | MonthName | Day | Hour

  /**
   * One piece of a compiled format: a directive, a literal character
   * (the whole pattern is case-insensitive), or the `\s+` a space in the
   * format becomes.
   */
  datatype Item = Directive(field: Field) | Lit(c: char) | Spaces

  /**
   * `%Y-%m-%dT%H:%M:%S%z` up to its first colon. Everything after the colon
   * is left out: a string without a colon fails at that colon already.
   */
  const Iso: seq<Item> := [Directive(Year), Lit('-'), Directive(Month), Lit('-'), Directive(Day), Lit('T'), Directive(Hour), Lit(':')]
  const Ymd: seq<Item> := [Directive(Year), Lit('-'), Directive(Month), Lit('-'), Directive(Day)]
  const Dmy: seq<Item> := [Directive(Day), Lit('/'), Directive(Month), Lit('/'), Directive(Year)]
  const DayMonthYear: seq<Item> := [Directive(Day), Spaces, Directive(MonthName), Spaces, Directive(Year)]

  /** A format as the extractor tries them: its items, and whether the model covers all of it. */
  datatype Format = Format(items: seq<Item>, complete: bool)

  const Formats: seq<Format> := [Format(Iso, false), Format(Ymd, true), Format(Dmy, true), Format(DayMonthYear, true)]

  // ---------------------------------------------------------------------------
  // What each item can match, in the order the regular expression tries it
  // ---------------------------------------------------------------------------

  /** One way to match an item: the length consumed and, for a directive, its value. */
  datatype Cand = Cand(len: nat, value: nat)

  function Digit(c: char): nat
    requires IsDigit(c)
  {
    c as int - '0' as int
  }

  predicate DigitIn(t: string, p: nat, lo: char, hi: char) {
    p < |t| && '0' <= lo <= t[p] <= hi <= '9'
  }

  /** `\d\d\d\d`. */
  function YearCands(t: string, p: nat): seq<Cand> {
    if p + 4 <= |t| && AllDigits(t[p..p + 4]) then [Cand(4, DigitsValue(t[p..p + 4]))] else []
  }

  /** `1[0-2]|0[1-9]|[1-9]`. */
  function MonthCands(t: string, p: nat): seq<Cand> {
    (if DigitIn(t, p, '1', '1') && DigitIn(t, p + 1, '0', '2') then [Cand(2, 10 + Digit(t[p + 1]))] else [])
    + (if DigitIn(t, p, '0', '0') && DigitIn(t, p + 1, '1', '9') then [Cand(2, Digit(t[p + 1]))] else [])
    + (if DigitIn(t, p, '1', '9') then [Cand(1, Digit(t[p]))] else [])
  }

  /** `3[01]|[12]\d|0[1-9]|[1-9]| [1-9]`. */
  function DayCands(t: string, p: nat): seq<Cand> {
    (if DigitIn(t, p, '3', '3') && DigitIn(t, p + 1, '0', '1') then [Cand(2, 30 + Digit(t[p + 1]))] else [])
    + (if DigitIn(t, p, '1', '2') && DigitIn(t, p + 1, '0', '9') then [Cand(2, 10 * Digit(t[p]) + Digit(t[p + 1]))] else [])
    + (if DigitIn(t, p, '0', '0') && DigitIn(t, p + 1, '1', '9') then [Cand(2, Digit(t[p + 1]))] else [])
    + (if DigitIn(t, p, '1', '9') then [Cand(1, Digit(t[p]))] else [])
    + (if p < |t| && t[p] == ' ' && DigitIn(t, p + 1, '1', '9') then [Cand(2, Digit(t[p + 1]))] else [])
  }

  /** `2[0-3]|[0-1]\d|\d`. */
  function HourCands(t: string, p: nat): seq<Cand> {
    (if DigitIn(t, p, '2', '2') && DigitIn(t, p + 1, '0', '3') then [Cand(2, 20 + Digit(t[p + 1]))] else [])
    + (if DigitIn(t, p, '0', '1') && DigitIn(t, p + 1, '0', '9') then [Cand(2, 10 * Digit(t[p]) + Digit(t[p + 1]))] else [])
    + (if DigitIn(t, p, '0', '9') then [Cand(1, Digit(t[p]))] else [])
  }

  /** The English month names (`%B` in the C locale), January first. */
  const MonthNames: seq<string> := [
    "january", "february", "march", "april", "may", "june",
    "july", "august", "september", "october", "november", "december"
  ]

  /** The months in the order the `%B` alternatives are tried: longest name first, ties in calendar order. */
  const NameOrder: seq<nat> := [9, 2, 11, 12, 1, 10, 8, 3, 4, 6, 7, 5]

  function NameCands(t: string, p: nat, order: seq<nat>): seq<Cand>
    requires forall i :: 0 <= i < |order| ==> 1 <= order[i] <= 12
  {
    if order == [] then []
    else
      var name := MonthNames[order[0] - 1];
      (if p + |name| <= |t| && Lower(t[p..p + |name|]) == name then [Cand(|name|, order[0])] else [])
      + NameCands(t, p, order[1..])
  }

  /** The length of the whitespace run at `p`. */
  function SpaceRun(t: string, p: nat): (n: nat)
    ensures p + n <= |t| || n == 0
    decreases |t| - p
  {
    if p < |t| && IsSpace(t[p]) then 1 + SpaceRun(t, p + 1) else 0
  }

  /** `\s+` is greedy: the longest run first, then shorter ones. */
  function SpaceCands(n: nat): seq<Cand> {
    if n == 0 then [] else [Cand(n, 0)] + SpaceCands(n - 1)
  }

  function Cands(item: Item, t: string, p: nat): seq<Cand> {
    match item
    case Lit(c) => if p < |t| && LowerChar(t[p]) == LowerChar(c) then [Cand(1, 0)] else []
    case Spaces => SpaceCands(SpaceRun(t, p))
    case Directive(f) =>
      match f
      case Year => YearCands(t, p)
      case Month => MonthCands(t, p)
      case MonthName => NameCands(t, p, NameOrder)
      case Day => DayCands(t, p)
      case Hour => HourCands(t, p)
  }

  // ---------------------------------------------------------------------------
  // Matching with backtracking
  // ---------------------------------------------------------------------------

  /** A successful match: where it ended and the directive values, in order. */
  datatype Matched = Matched(end: nat, values: seq<(Field, nat)>)

  /** `re.match` of the items at `p`: the first way, in backtracking order, that all of them match. */
  function Match(items: seq<Item>, t: string, p: nat): Option<Matched>
    decreases |items|, 1, 0
  {
    if items == [] then Some(Matched(p, []))
    else Try(Cands(items[0], t, p), items, t, p)
  }

  /** The first item tried with each of its candidates in turn. */
  function Try(cands: seq<Cand>, items: seq<Item>, t: string, p: nat): Option<Matched>
    requires items != []
    decreases |items|, 0, |cands|
  {
    if cands == [] then None
    else
      match Match(items[1..], t, p + cands[0].len)
      case Some(m) =>
        var own := if items[0].Directive? then [(items[0].field, cands[0].value)] else [];
        Some(Matched(m.end, own + m.values))
      case None => Try(cands[1..], items, t, p)
  }

  /** The value of the first directive for `f`, or Python's default when there is none. */
  function Lookup(values: seq<(Field, nat)>, f: Field, default: nat): nat {
    if values == [] then default
    else if values[0].0 == f then values[0].1
    else Lookup(values[1..], f, default)
  }

  /**
   * `datetime.strptime(t, fmt)`: no match, leftover input and an invalid
   * calendar date are all a `ValueError` (here: nothing).
   */
  function Parse(t: string, fmt: Format): (r: Option<Date>)
    ensures r.Some? ==> Valid(r.value)
  {
    match Match(fmt.items, t, 0)
    case None => None
    case Some(m) =>
      if m.end != |t| || !fmt.complete then None
      else
        var d := Date(Lookup(m.values, Year, 1900), Lookup(m.values, Month, Lookup(m.values, MonthName, 1)), Lookup(m.values, Day, 1));
        if Valid(d) then Some(d) else None
  }

  // ---------------------------------------------------------------------------
  // Properties
  // ---------------------------------------------------------------------------

  /** A literal that is not a letter and does not occur in the input makes the match fail. */
  lemma {:induction false} MatchNeedsLiteral(items: seq<Item>, t: string, p: nat, c: char)
    requires Lit(c) in items && !IsCased(c) && c !in t
    ensures Match(items, t, p).None?
    decreases |items|, 1, 0
  {
    TryNeedsLiteral(Cands(items[0], t, p), items, t, p, c);
  }

  lemma {:induction false} TryNeedsLiteral(cands: seq<Cand>, items: seq<Item>, t: string, p: nat, c: char)
    requires items != [] && Lit(c) in items && !IsCased(c) && c !in t
    requires items[0] == Lit(c) ==> cands == Cands(items[0], t, p)
    ensures Try(cands, items, t, p).None?
    decreases |items|, 0, |cands|
  {
    if items[0] == Lit(c) {
      if p < |t| {
        assert t[p] in t;
      }
    } else if cands != [] {
      assert Lit(c) in items[1..] by {
        var i :| 0 <= i < |items| && items[i] == Lit(c);
        assert items[1..][i - 1] == items[i];
      }
      MatchNeedsLiteral(items[1..], t, p + cands[0].len, c);
      TryNeedsLiteral(cands[1..], items, t, p, c);
    }
  }

  /** The timestamp format never succeeds on a string without a colon. */
  lemma IsoNeedsColon(t: string)
    requires ':' !in t
    ensures Parse(t, Formats[0]) == None
  {
    assert Iso[7] == Lit(':');
    MatchNeedsLiteral(Iso, t, 0, ':');
  }

  /** The numeric formats need their separators: `-` for `%Y-%m-%d`, `/` for `%d/%m/%Y`. */
  lemma NumericNeedSeparators(t: string)
    ensures '-' !in t ==> Parse(t, Formats[1]) == None
    ensures '/' !in t ==> Parse(t, Formats[2]) == None
  {
    if '-' !in t {
      assert Ymd[1] == Lit('-');
      MatchNeedsLiteral(Ymd, t, 0, '-');
    }
    if '/' !in t {
      assert Dmy[1] == Lit('/');
      MatchNeedsLiteral(Dmy, t, 0, '/');
    }
  }

  /** `%B` never matches at a digit: every month name starts with a letter. */
  lemma {:induction false} NameNeedsLetter(t: string, p: nat, order: seq<nat>)
    requires forall i :: 0 <= i < |order| ==> 1 <= order[i] <= 12
    requires p < |t| && IsDigit(t[p])
    ensures NameCands(t, p, order) == []
    decreases |order|
  {
    if order != [] {
      var name := MonthNames[order[0] - 1];
      assert IsLower(name[0]);
      if p + |name| <= |t| {
        assert Lower(t[p..p + |name|])[0] == LowerChar(t[p]) == t[p];
      }
      NameNeedsLetter(t, p, order[1..]);
    }
  }

  /** `fails` holds for the length of every candidate. */
  ghost predicate AllFail(cands: seq<Cand>, fails: nat -> bool)
    decreases |cands|
  {
    cands == [] || (fails(cands[0].len) && AllFail(cands[1..], fails))
  }

  /** Whether the rest of the format fails after the first item takes `k` characters. */
  function RestFails(items: seq<Item>, t: string, p: nat): nat -> bool
    requires items != []
  {
    (k: nat) => Match(items[1..], t, p + k) == None
  }

  /** When no candidate lets the rest match, the item fails. */
  lemma {:induction false} TryNone(cands: seq<Cand>, items: seq<Item>, t: string, p: nat)
    requires items != [] && AllFail(cands, RestFails(items, t, p))
    ensures Try(cands, items, t, p) == None
    decreases |cands|
  {
    if cands != [] {
      TryNone(cands[1..], items, t, p);
    }
  }

  /** Candidates one or two characters long all fail when both lengths fail. */
  lemma {:induction false} ShortCandsFail(cands: seq<Cand>, fails: nat -> bool)
    requires forall i :: 0 <= i < |cands| ==> cands[i].len in {1, 2}
    requires fails(1) && fails(2)
    ensures AllFail(cands, fails)
    decreases |cands|
  {
    if cands != [] {
      assert cands[0].len in {1, 2};
      var rest := cands[1..];
      forall i | 0 <= i < |rest| ensures rest[i].len in {1, 2} {
        assert rest[i] == cands[i + 1];
      }
      ShortCandsFail(rest, fails);
    }
  }

  lemma DayCandsLen(t: string, p: nat)
    ensures forall i :: 0 <= i < |DayCands(t, p)| ==> DayCands(t, p)[i].len in {1, 2}
  {
  }

  /**
   * `%d %B %Y` cannot read a two-digit day followed by one space and a
   * number: the month name must start with a letter.
   */
  lemma NumericMonthFails(t: string)
    requires |t| >= 4 && IsDigit(t[0]) && IsDigit(t[1]) && t[2] == ' ' && IsDigit(t[3])
    ensures Match(DayMonthYear, t, 0) == None
  {
    var fails := RestFails(DayMonthYear, t, 0);
    assert fails(1) && fails(2) by {
      SpacesThenDigit(t);
    }
    DayCandsLen(t, 0);
    ShortCandsFail(DayCands(t, 0), fails);
    TryNone(DayCands(t, 0), DayMonthYear, t, 0);
    assert Cands(DayMonthYear[0], t, 0) == DayCands(t, 0);
  }

  /** After either reading of the day, the space run and `%B` cannot match. */
  lemma SpacesThenDigit(t: string)
    requires |t| >= 4 && IsDigit(t[0]) && IsDigit(t[1]) && t[2] == ' ' && IsDigit(t[3])
    ensures Match(DayMonthYear[1..], t, 1) == None && Match(DayMonthYear[1..], t, 2) == None
  {
    var items := DayMonthYear[1..];
    MonthAtDigit(t);
    assert SpaceRun(t, 3) == 0;
    assert SpaceRun(t, 2) == 1;
    assert SpaceCands(1) == [Cand(1, 0)];
    assert items[0] == Spaces;
    assert Cands(items[0], t, 2) == [Cand(1, 0)];
    assert AllFail([Cand(1, 0)], RestFails(items, t, 2));
    TryNone([Cand(1, 0)], items, t, 2);
    assert SpaceRun(t, 1) == 0;
  }

  /** `%B` at the digit after the space fails, and so does the rest of the format there. */
  lemma MonthAtDigit(t: string)
    requires |t| >= 4 && IsDigit(t[3])
    ensures Match(DayMonthYear[1..][1..], t, 3) == None
  {
    var items := DayMonthYear[1..][1..];
    assert items[0] == Directive(MonthName);
    NameAtDigit(t, 3);
    assert Match(items, t, 3) == Try([], items, t, 3);
  }

  lemma NameAtDigit(t: string, p: nat)
    requires p < |t| && IsDigit(t[p])
    ensures Cands(Directive(MonthName), t, p) == []
  {
    NameOrderInRange();
    NameNeedsLetter(t, p, NameOrder);
  }

  lemma NameOrderInRange()
    ensures forall i :: 0 <= i < |NameOrder| ==> 1 <= NameOrder[i] <= 12
  {
  }

  // ---------------------------------------------------------------------------
  // Rendering and parsing back
  // ---------------------------------------------------------------------------

  function Pow10(w: nat): nat {
    if w == 0 then 1 else 10 * Pow10(w - 1)
  }

  /** `n` written with exactly `w` digits. */
  function Fixed(n: nat, w: nat): (r: string)
    ensures |r| == w && AllDigits(r)
  {
    if w == 0 then [] else Fixed(n / 10, w - 1) + [DigitChar(n % 10)]
  }

  lemma DigitCharValue(d: nat)
    requires d < 10
    ensures IsDigit(DigitChar(d)) && Digit(DigitChar(d)) == d
  {
  }

  lemma {:induction false} FixedZero(w: nat)
    ensures Fixed(0, w) == seq(w, _ => '0')
  {
    if w > 0 {
      FixedZero(w - 1);
      assert seq(w, _ => '0') == seq(w - 1, _ => '0') + ['0'];
    }
  }

  /** Zero padding writes a number that fits the width with exactly that many digits. */
  lemma {:induction false} ZeroPadFixed(n: nat, w: nat)
    requires n < Pow10(w) && w >= 1
    ensures ZeroPad(n, w) == Fixed(n, w)
    decreases w
  {
    if n < 10 {
      ZeroPadDigit(n, w);
    } else {
      Pow10Drop(n, w);
      ZeroPadFixed(n / 10, w - 1);
      ZeroPadStep(n, w);
      assert Fixed(n, w) == Fixed(n / 10, w - 1) + [DigitChar(n % 10)];
    }
  }

  /** A single digit padded to `w` columns is `w - 1` zeros and the digit. */
  lemma ZeroPadDigit(n: nat, w: nat)
    requires n < 10 && w >= 1
    ensures ZeroPad(n, w) == Fixed(n, w)
  {
    assert n / 10 == 0 && n % 10 == n;
    var zeros := seq(w - 1, _ => '0');
    assert Fixed(n, w) == zeros + [DigitChar(n)] by {
      FixedZero(w - 1);
    }
    assert ZeroPad(n, w) == zeros + [DigitChar(n)] by {
      assert Decimal(n) == [DigitChar(n)];
      if w == 1 {
        assert zeros == [];
      }
    }
  }

  /** A number of two digits or more that fits `w` digits needs at least two, and all but its last fit `w - 1`. */
  lemma Pow10Drop(n: nat, w: nat)
    requires n < Pow10(w) && n >= 10 && w >= 1
    ensures w >= 2 && n / 10 < Pow10(w - 1)
  {
    assert Pow10(w) == 10 * Pow10(w - 1);
    assert Pow10(0) == 1;
  }

  /** Padding a number of two digits or more pads all but its last digit one column narrower. */
  lemma ZeroPadStep(n: nat, w: nat)
    requires n >= 10 && w >= 1
    ensures ZeroPad(n, w) == ZeroPad(n / 10, w - 1) + [DigitChar(n % 10)]
  {
    var d := Decimal(n / 10);
    var c := [DigitChar(n % 10)];
    assert Decimal(n) == d + c;
    if |d| < w - 1 {
      var zeros := seq(w - 1 - |d|, _ => '0');
      assert ZeroPad(n / 10, w - 1) == zeros + d;
      assert ZeroPad(n, w) == zeros + (d + c);
      assert zeros + (d + c) == (zeros + d) + c;
    }
  }

  lemma {:induction false} FixedValue(n: nat, w: nat)
    requires n < Pow10(w)
    ensures DigitsValue(Fixed(n, w)) == n
    decreases w
  {
    if w > 0 {
      FixedValue(n / 10, w - 1);
      var f := Fixed(n, w);
      assert f[..|f| - 1] == Fixed(n / 10, w - 1);
      DigitCharValue(n % 10);
    }
  }

  /** The text of a valid date is ten characters: four digits, `-`, two digits, `-`, two digits. */
  lemma RenderShape(d: Date)
    requires Valid(d)
    ensures var r := Render(d);
      |r| == 10 && r[4] == '-' && r[7] == '-' && AllDigits(r[..4]) && AllDigits(r[5..7]) && AllDigits(r[8..])
  {
    ZeroPadFixed(d.year, 4);
    ZeroPadFixed(d.month, 2);
    ZeroPadFixed(d.day, 2);
    var r := Render(d);
    assert r[..4] == Fixed(d.year, 4) && r[5..7] == Fixed(d.month, 2) && r[8..] == Fixed(d.day, 2);
  }

  /** Two digits as the month directive reads them. */
  lemma MonthDigits(t: string, p: nat, m: nat)
    requires 1 <= m <= 12 && p + 2 <= |t| && t[p..p + 2] == Fixed(m, 2)
    ensures MonthCands(t, p) != [] && MonthCands(t, p)[0] == Cand(2, m)
  {
    assert t[p] == DigitChar(m / 10) && t[p + 1] == DigitChar(m % 10) by {
      assert Fixed(m, 2) == Fixed(m / 10, 1) + [DigitChar(m % 10)];
      assert Fixed(m / 10, 1) == Fixed(0, 0) + [DigitChar(m / 10 % 10)];
      assert t[p..p + 2][0] == t[p] && t[p..p + 2][1] == t[p + 1];
    }
    DigitCharValue(m / 10);
    DigitCharValue(m % 10);
  }

  /** Two digits as the day directive reads them. */
  lemma DayDigits(t: string, p: nat, d: nat)
    requires 1 <= d <= 31 && p + 2 <= |t| && t[p..p + 2] == Fixed(d, 2)
    ensures DayCands(t, p) != [] && DayCands(t, p)[0] == Cand(2, d)
  {
    assert t[p] == DigitChar(d / 10) && t[p + 1] == DigitChar(d % 10) by {
      assert Fixed(d, 2) == Fixed(d / 10, 1) + [DigitChar(d % 10)];
      assert Fixed(d / 10, 1) == Fixed(0, 0) + [DigitChar(d / 10 % 10)];
      assert t[p..p + 2][0] == t[p] && t[p..p + 2][1] == t[p + 1];
    }
    DigitCharValue(d / 10);
    DigitCharValue(d % 10);
  }

  /** A literal that is there lets the match go on. */
  lemma LitStep(items: seq<Item>, t: string, p: nat, m: Matched)
    requires items != [] && items[0].Lit? && p < |t| && t[p] == items[0].c
    requires Match(items[1..], t, p + 1) == Some(m)
    ensures Match(items, t, p) == Some(m)
  {
    assert Cands(items[0], t, p) == [Cand(1, 0)];
    assert [] + m.values == m.values;
  }

  /** A directive whose first alternative matches, followed by a match of the rest. */
  lemma DirectiveStep(items: seq<Item>, t: string, p: nat, c: Cand, m: Matched)
    requires items != [] && items[0].Directive?
    requires Cands(items[0], t, p) != [] && Cands(items[0], t, p)[0] == c
    requires Match(items[1..], t, p + c.len) == Some(m)
    ensures Match(items, t, p) == Some(Matched(m.end, [(items[0].field, c.value)] + m.values))
  {
  }

  /** The `-%d` tail of `%Y-%m-%d` on a rendered date. */
  lemma DayTail(t: string, d: nat)
    requires |t| == 10 && t[7] == '-'
    requires DayCands(t, 8) != [] && DayCands(t, 8)[0] == Cand(2, d)
    ensures Match(Ymd[3..], t, 7) == Some(Matched(10, [(Day, d)]))
  {
    assert Ymd[3..][1..] == Ymd[4..] && Ymd[4..][1..] == [];
    assert Ymd[4..][0] == Directive(Day) && Ymd[3..][0] == Lit('-');
    DirectiveStep(Ymd[4..], t, 8, Cand(2, d), Matched(10, []));
    assert [(Day, d)] + [] == [(Day, d)];
    LitStep(Ymd[3..], t, 7, Matched(10, [(Day, d)]));
  }

  /** The `-%m-%d` tail of `%Y-%m-%d` on a rendered date. */
  lemma MonthTail(t: string, m: nat, d: nat)
    requires |t| == 10 && t[4] == '-' && t[7] == '-'
    requires MonthCands(t, 5) != [] && MonthCands(t, 5)[0] == Cand(2, m)
    requires DayCands(t, 8) != [] && DayCands(t, 8)[0] == Cand(2, d)
    ensures Match(Ymd[1..], t, 4) == Some(Matched(10, [(Month, m), (Day, d)]))
  {
    DayTail(t, d);
    assert Ymd[1..][1..] == Ymd[2..] && Ymd[2..][1..] == Ymd[3..];
    assert Ymd[2..][0] == Directive(Month) && Ymd[1..][0] == Lit('-');
    DirectiveStep(Ymd[2..], t, 5, Cand(2, m), Matched(10, [(Day, d)]));
    assert [(Month, m)] + [(Day, d)] == [(Month, m), (Day, d)];
    LitStep(Ymd[1..], t, 4, Matched(10, [(Month, m), (Day, d)]));
  }

  /** `%Y-%m-%d` on ten characters shaped like a rendered date reads its three numbers. */
  lemma YmdMatch(t: string, y: nat, m: nat, d: nat)
    requires |t| == 10 && t[4] == '-' && t[7] == '-'
    requires YearCands(t, 0) == [Cand(4, y)]
    requires MonthCands(t, 5) != [] && MonthCands(t, 5)[0] == Cand(2, m)
    requires DayCands(t, 8) != [] && DayCands(t, 8)[0] == Cand(2, d)
    ensures Match(Ymd, t, 0) == Some(Matched(10, [(Year, y), (Month, m), (Day, d)]))
  {
    MonthTail(t, m, d);
    DirectiveStep(Ymd, t, 0, Cand(4, y), Matched(10, [(Month, m), (Day, d)]));
    assert [(Year, y)] + [(Month, m), (Day, d)] == [(Year, y), (Month, m), (Day, d)];
  }

  lemma LookupYmd(y: nat, m: nat, d: nat, dm: nat)
    ensures var v := [(Year, y), (Month, m), (Day, d)];
      Lookup(v, Year, 1900) == y && Lookup(v, Month, dm) == m && Lookup(v, Day, 1) == d
  {
    var v := [(Year, y), (Month, m), (Day, d)];
    assert v[1..] == [(Month, m), (Day, d)] && v[1..][1..] == [(Day, d)];
    assert Lookup(v, Month, dm) == Lookup(v[1..], Month, dm);
    assert Lookup(v, Day, 1) == Lookup(v[1..], Day, 1) == Lookup(v[1..][1..], Day, 1);
  }

  /** `%Y-%m-%d` reads back every valid date `strftime('%Y-%m-%d')` writes. */
  lemma RoundTrip(d: Date)
    requires Valid(d)
    ensures Parse(Render(d), Formats[1]) == Some(d)
  {
    RenderMatches(d);
    RenderShape(d);
    var values := [(Year, d.year), (Month, d.month), (Day, d.day)];
    LookupYmd(d.year, d.month, d.day, Lookup(values, MonthName, 1));
    assert Formats[1] == Format(Ymd, true);
  }

  /** The compiled `%Y-%m-%d` matches all of a rendered date and reads its three numbers. */
  lemma RenderMatches(d: Date)
    requires Valid(d)
    ensures Match(Ymd, Render(d), 0) == Some(Matched(10, [(Year, d.year), (Month, d.month), (Day, d.day)]))
  {
    var t := Render(d);
    RenderShape(d);
    assert YearCands(t, 0) == [Cand(4, d.year)] by {
      ZeroPadFixed(d.year, 4);
      assert t[..4] == Fixed(d.year, 4);
      FixedValue(d.year, 4);
      assert t[0..4] == t[..4];
    }
    assert MonthCands(t, 5) != [] && MonthCands(t, 5)[0] == Cand(2, d.month) by {
      ZeroPadFixed(d.month, 2);
      assert t[5..7] == Fixed(d.month, 2);
      MonthDigits(t, 5, d.month);
    }
    assert DayCands(t, 8) != [] && DayCands(t, 8)[0] == Cand(2, d.day) by {
      ZeroPadFixed(d.day, 2);
      assert t[8..10] == Fixed(d.day, 2);
      DayDigits(t, 8, d.day);
    }
    YmdMatch(t, d.year, d.month, d.day);
  }
}
