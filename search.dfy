/** The search side of the front end: the MongoDB filter document built from
    the request's filters, and the clean-up of the distinct values offered
    in the filter drop-downs. */
module Search {
  import opened Text
  import Strptime

  // ---------------------------------------------------------------------------
  // search_articles: the query document
  // ---------------------------------------------------------------------------

  /** The request's filters; a missing key and an empty value are both falsy. */
  type Filters = map<string, string>

  /** `filters.get(key)` is truthy. */
  predicate Given(filters: Filters, key: string) {
    key in filters && filters[key] != ""
  }

  /** A condition of the query document: `{'$regex': p, '$options': o}` or a date range. */
  datatype Condition = Regex(pattern: string, options: string) | Range(bounds: map<string, string>)

  type Query = map<string, Condition>

  /** The four fields searched by case-insensitive regular expression. */
  const TextFields: seq<string> := ["title", "author", "category", "subcategory"]

  /** `datetime.strptime(t, '%Y-%m-%d').strftime('%Y-%m-%d')`; nothing where it raises `ValueError`. */
  function Bound(t: string): (r: Option<string>)
    ensures r.Some? ==> exists d :: Strptime.Valid(d) && r.value == Strptime.Render(d)
  {
    match Strptime.Parse(t, Strptime.Formats[1])
    case None => None
    case Some(d) => Some(Strptime.Render(d))
  }

  /** The date bound taken from `key`: only when the filter is given and parses. */
  function DateBound(filters: Filters, key: string): Option<string> {
    if Given(filters, key) then Bound(filters[key]) else None
  }

  /** The query holds the case-insensitive regular expression for `key` exactly when that filter is given. */
  predicate Searched(query: Query, filters: Filters, key: string) {
    (key in query <==> Given(filters, key))
    && (key in query ==> query[key] == Regex(filters[key], "i"))
  }

  /** The date range holds `op` exactly when the bound under `key` is valid, with its re-rendered value. */
  predicate Bounded(bounds: map<string, string>, op: string, filters: Filters, key: string) {
    (op in bounds <==> DateBound(filters, key).Some?)
    && (op in bounds ==> bounds[op] == DateBound(filters, key).value)
  }

  /** The filter document of `search_articles`: the text conditions, then the date range when it has a bound. */
  method BuildQuery(filters: Filters) returns (query: Query)
    ensures forall i :: 0 <= i < |TextFields| ==> Searched(query, filters, TextFields[i])
    ensures "publication_date" in query <==> DateBound(filters, "date_start").Some? || DateBound(filters, "date_end").Some?
    ensures "publication_date" in query ==>
      (query["publication_date"].Range? && DatesBounded(query["publication_date"].bounds, filters))
    ensures query.Keys <= {"title", "author", "category", "subcategory", "publication_date"}
  {
    query := TextQuery(filters);
    var dateQuery := DateQuery(filters);
    if dateQuery != map[] {
      query := query["publication_date" := Range(dateQuery)];
    }
  }

  /** The range holds a `$gte` for a valid start, a `$lte` for a valid end, and nothing else. */
  predicate DatesBounded(bounds: map<string, string>, filters: Filters) {
    Bounded(bounds, "$gte", filters, "date_start")
    && Bounded(bounds, "$lte", filters, "date_end")
    && bounds.Keys <= {"$gte", "$lte"}
  }

  /** The four case-insensitive regular expressions, one per given text filter. */
  method TextQuery(filters: Filters) returns (query: Query)
    ensures forall i :: 0 <= i < |TextFields| ==> Searched(query, filters, TextFields[i])
    ensures query.Keys <= {"title", "author", "category", "subcategory"}
  {
    query := map[];
    if Given(filters, "title") {
      query := query["title" := Regex(filters["title"], "i")];
    }
    if Given(filters, "author") {
      query := query["author" := Regex(filters["author"], "i")];
    }
    if Given(filters, "category") {
      query := query["category" := Regex(filters["category"], "i")];
    }
    if Given(filters, "subcategory") {
      query := query["subcategory" := Regex(filters["subcategory"], "i")];
    }
  }

  /** `date_query`: each bound that is given and parses, re-rendered; a bound that raises is skipped. */
  method DateQuery(filters: Filters) returns (dateQuery: map<string, string>)
    ensures DatesBounded(dateQuery, filters)
    ensures dateQuery == map[] <==> DateBound(filters, "date_start").None? && DateBound(filters, "date_end").None?
  {
    dateQuery := map[];
    if Given(filters, "date_start") {
      match Bound(filters["date_start"])
      case Some(start) => dateQuery := dateQuery["$gte" := start];
      case None =>
    }
    if Given(filters, "date_end") {
      match Bound(filters["date_end"])
      case Some(end) => dateQuery := dateQuery["$lte" := end];
      case None =>
    }
    assert "$gte" in dateQuery ==> dateQuery != map[];
    assert "$lte" in dateQuery ==> dateQuery != map[];
  }

  /** A bound already written as `strftime('%Y-%m-%d')` writes it is kept as it is. */
  lemma BoundCanonical(d: Strptime.Date)
    requires Strptime.Valid(d)
    ensures Bound(Strptime.Render(d)) == Some(Strptime.Render(d))
  {
    Strptime.RoundTrip(d);
  }

  /** Re-rendering a bound is idempotent: a bound the query holds reads back as itself. */
  lemma BoundIdempotent(t: string)
    requires Bound(t).Some?
    ensures Bound(Bound(t).value) == Bound(t)
  {
    var d :| Strptime.Valid(d) && Bound(t).value == Strptime.Render(d);
    BoundCanonical(d);
  }

  // ---------------------------------------------------------------------------
  // get_unique_values
  // ---------------------------------------------------------------------------

  /** `v and v.strip()`: present, non-empty and not only whitespace. */
  predicate Truthy(v: Option<string>) {
    v.Some? && v.value != "" && Strip(v.value) != ""
  }

  /** `[v for v in values if v and v.strip()]`. */
  function UniqueValues(values: seq<Option<string>>): (r: seq<string>)
    ensures |r| <= |values|
    ensures forall x :: x in r <==> Some(x) in values && Truthy(Some(x))
    ensures forall i :: 0 <= i < |r| ==> HasText(r[i])
    decreases |values|
  {
    if values == [] then []
    else
      var rest := UniqueValues(values[1..]);
      if Truthy(values[0]) then
        StripEmpty(values[0].value);
        [values[0].value] + rest
      else rest
  }

  /** The filter keeps the order of the values: it works piece by piece. */
  lemma {:induction false} UniqueValuesAppend(a: seq<Option<string>>, b: seq<Option<string>>)
    ensures UniqueValues(a + b) == UniqueValues(a) + UniqueValues(b)
    decreases |a|
  {
    if a != [] {
      assert (a + b)[0] == a[0] && (a + b)[1..] == a[1..] + b;
      UniqueValuesAppend(a[1..], b);
      if Truthy(a[0]) {
        assert [a[0].value] + UniqueValues(a[1..]) + UniqueValues(b) == [a[0].value] + (UniqueValues(a[1..]) + UniqueValues(b));
      }
    } else {
      assert a + b == b;
    }
  }

  // ---------------------------------------------------------------------------
  // get_unique_subcategories
  // ---------------------------------------------------------------------------

  /** Python's `<` on `str`: lexicographic by code point. */
  predicate Below(a: string, b: string)
    decreases |a|
  {
    if a == [] then b != []
    else if b == [] then false
    else a[0] < b[0] || (a[0] == b[0] && Below(a[1..], b[1..]))
  }

  lemma {:induction false} BelowIrreflexive(a: string)
    ensures !Below(a, a)
    decreases |a|
  {
    if a != [] {
      BelowIrreflexive(a[1..]);
    }
  }

  lemma {:induction false} BelowTransitive(a: string, b: string, c: string)
    requires Below(a, b) && Below(b, c)
    ensures Below(a, c)
    decreases |a|
  {
    if a != [] && a[0] == b[0] && b[0] == c[0] {
      BelowTransitive(a[1..], b[1..], c[1..]);
    }
  }

  lemma {:induction false} BelowTotal(a: string, b: string)
    requires a != b
    ensures Below(a, b) || Below(b, a)
    decreases |a|
  {
    if a != [] && b != [] && a[0] == b[0] {
      assert a == [a[0]] + a[1..] && b == [b[0]] + b[1..];
      BelowTotal(a[1..], b[1..]);
    }
  }

  /** Strictly ascending, hence without duplicates. */
  predicate Ascending(r: seq<string>) {
    forall i, j :: 0 <= i < j < |r| ==> Below(r[i], r[j])
  }

  lemma AscendingDistinct(r: seq<string>)
    requires Ascending(r)
    ensures forall i, j :: 0 <= i < j < |r| ==> r[i] != r[j]
  {
    forall i, j | 0 <= i < j < |r| ensures r[i] != r[j] {
      BelowIrreflexive(r[i]);
    }
  }

  /** Places `x` in an ascending list. */
  function Insert(x: string, r: seq<string>): seq<string>
    decreases |r|
  {
    if r == [] then [x]
    else if x == r[0] then r
    else if Below(x, r[0]) then [x] + r
    else [r[0]] + Insert(x, r[1..])
  }

  lemma {:induction false} InsertSorted(x: string, r: seq<string>)
    requires Ascending(r)
    ensures Ascending(Insert(x, r))
    ensures forall y :: y in Insert(x, r) <==> y == x || y in r
    decreases |r|
  {
    if r == [] {
    } else if x == r[0] {
    } else if Below(x, r[0]) {
      var q := [x] + r;
      forall i, j | 0 <= i < j < |q| ensures Below(q[i], q[j]) {
        if i == 0 && j > 1 {
          BelowTransitive(x, r[0], r[j - 1]);
        }
      }
    } else {
      BelowTotal(x, r[0]);
      InsertSorted(x, r[1..]);
      var t := Insert(x, r[1..]);
      var q := [r[0]] + t;
      assert forall y :: y in r <==> y == r[0] || y in r[1..] by {
        assert r == [r[0]] + r[1..];
      }
      forall j | 0 <= j < |t| ensures Below(r[0], t[j]) {
        assert t[j] in t;
        if t[j] != x {
          var k :| 0 <= k < |r[1..]| && r[1..][k] == t[j];
          assert r[k + 1] == t[j];
        }
      }
      forall i, j | 0 <= i < j < |q| ensures Below(q[i], q[j]) {
        if i > 0 {
          assert q[i] == t[i - 1] && q[j] == t[j - 1];
        } else {
          assert q[j] == t[j - 1];
        }
      }
    }
  }

  /** `sorted(items)` for a set of strings. */
  method SortStrings(items: set<string>) returns (r: seq<string>)
    ensures Ascending(r)
    ensures forall x :: x in r <==> x in items
  {
    r := [];
    var rest := items;
    while rest != {}
      invariant rest <= items
      invariant Ascending(r)
      invariant forall x :: x in r <==> x in items && x !in rest
      decreases |rest|
    {
      var x :| x in rest;
      InsertSorted(x, r);
      r := Insert(x, r);
      rest := rest - {x};
    }
  }

  /** The rest of an ascending list is the list without its first element. */
  lemma AscendingTail(a: seq<string>, x: string)
    requires Ascending(a) && a != []
    ensures x in a[1..] <==> x in a && x != a[0]
  {
    if x in a[1..] {
      var k :| 0 <= k < |a[1..]| && a[1..][k] == x;
      BelowIrreflexive(a[0]);
      assert Below(a[0], a[k + 1]);
    }
    if x in a && x != a[0] {
      var k :| 0 <= k < |a| && a[k] == x;
      assert a[1..][k - 1] == x;
    }
  }

  /** An ascending list is determined by its elements: the order `sorted` produces is the only one. */
  lemma {:induction false} AscendingUnique(a: seq<string>, b: seq<string>)
    requires Ascending(a) && Ascending(b)
    requires forall x :: x in a <==> x in b
    ensures a == b
    decreases |a|
  {
    if a != [] {
      assert a[0] in b;
    }
    if b != [] {
      assert b[0] in a;
    }
    if a != [] && b != [] {
      assert a[0] == b[0] by {
        if a[0] != b[0] {
          var i :| 0 <= i < |b| && b[i] == a[0];
          var j :| 0 <= j < |a| && a[j] == b[0];
          assert Below(a[0], a[j]) && Below(b[0], b[i]);
          BelowTransitive(a[0], b[0], a[0]);
          BelowIrreflexive(a[0]);
        }
      }
      forall x ensures x in a[1..] <==> x in b[1..] {
        AscendingTail(a, x);
        AscendingTail(b, x);
      }
      AscendingUnique(a[1..], b[1..]);
      assert a == [a[0]] + a[1..] && b == [b[0]] + b[1..];
    }
  }

  /** `[part.strip() for part in s.split(',')]`. */
  function StrippedParts(s: string): (r: seq<string>)
    ensures |r| == |Split(s, ',')|
    ensures forall k :: 0 <= k < |r| ==> r[k] == Strip(Split(s, ',')[k])
  {
    var parts := Split(s, ',');
    seq(|parts|, k requires 0 <= k < |parts| => Strip(parts[k]))
  }

  /** What one raw value contributes to the set: its stripped comma-separated pieces, when it is truthy. */
  function Pieces(v: Option<string>): set<string> {
    if Truthy(v) then PieceSet(v.value) else {}
  }

  /** The stripped comma-separated pieces of `s`, as a set. */
  function PieceSet(s: string): set<string> {
    set p | p in StrippedParts(s)
  }

  /** The set built from the values, each contributing `pieces` of it. */
  function Collected(raw: seq<Option<string>>, pieces: Option<string> -> set<string>): set<string>
    decreases |raw|
  {
    if raw == [] then {} else Collected(raw[..|raw| - 1], pieces) + pieces(raw[|raw| - 1])
  }

  /** A value without a comma is one piece: the stripped value, as the `else` branch adds it. */
  lemma NoCommaOnePiece(s: string)
    requires ',' !in s
    ensures StrippedParts(s) == [Strip(s)]
    ensures PieceSet(s) == {Strip(s)}
  {
    SplitJoin([s], ',');
    assert Join([s], [',']) == s;
  }

  /** Adding one value to the set adds its pieces. */
  lemma CollectedStep(raw: seq<Option<string>>, pieces: Option<string> -> set<string>, i: nat)
    requires i < |raw|
    ensures Collected(raw[..i + 1], pieces) == Collected(raw[..i], pieces) + pieces(raw[i])
  {
    assert raw[..i + 1][..i] == raw[..i];
  }

  /** The set holds exactly the pieces of the values. */
  lemma {:induction false} CollectedIff(raw: seq<Option<string>>, pieces: Option<string> -> set<string>, x: string)
    ensures x in Collected(raw, pieces) <==> exists k :: 0 <= k < |raw| && x in pieces(raw[k])
    decreases |raw|
  {
    if raw != [] {
      var n := |raw| - 1;
      var init := raw[..n];
      CollectedIff(init, pieces, x);
      if x in Collected(init, pieces) {
        var k :| 0 <= k < |init| && x in pieces(init[k]);
        assert raw[k] == init[k];
      }
      if exists k :: 0 <= k < |raw| && x in pieces(raw[k]) {
        var k :| 0 <= k < |raw| && x in pieces(raw[k]);
        if k < n {
          assert init[k] == raw[k];
        }
      }
    }
  }

  /** One turn of the loop: a truthy value with a comma adds its stripped pieces, one without adds itself stripped. */
  method AddPieces(unique: set<string>, v: Option<string>) returns (u: set<string>)
    ensures u == unique + Pieces(v)
  {
    u := unique;
    match v
    case Some(subcategory) =>
      if subcategory != "" && Strip(subcategory) != "" {
        if ',' in subcategory {
          var parts := StrippedParts(subcategory);
          u := u + set p | p in parts;
        } else {
          NoCommaOnePiece(subcategory);
          u := u + {Strip(subcategory)};
        }
      }
    case None =>
  }

  /** `get_unique_subcategories`: every piece of every value, stripped, without empty pieces, sorted. */
  method UniqueSubcategories(raw: seq<Option<string>>) returns (r: seq<string>)
    ensures Ascending(r)
    ensures forall x :: x in r <==> x in Collected(raw, Pieces) && x != ""
  {
    var unique: set<string> := {};
    var i := 0;
    while i < |raw|
      invariant 0 <= i <= |raw|
      invariant unique == Collected(raw[..i], Pieces)
    {
      CollectedStep(raw, Pieces, i);
      unique := AddPieces(unique, raw[i]);
      i := i + 1;
    }
    assert raw[..i] == raw;
    r := SortStrings(set sub | sub in unique && sub != "");
  }

  /** Every listed subcategory is a non-empty stripped piece of some raw value, and every such piece is listed. */
  lemma SubcategoriesFromPieces(raw: seq<Option<string>>, r: seq<string>, x: string)
    requires forall y :: y in r <==> y in Collected(raw, Pieces) && y != ""
    ensures x in r <==> (x != "" && exists k, j :: 0 <= k < |raw| && Truthy(raw[k])
                                     && 0 <= j < |Split(raw[k].value, ',')| && x == Strip(Split(raw[k].value, ',')[j]))
    ensures x in r ==> IsStripped(x)
  {
    CollectedIff(raw, Pieces, x);
    if x in r {
      var k :| 0 <= k < |raw| && x in Pieces(raw[k]);
      var j :| 0 <= j < |StrippedParts(raw[k].value)| && StrippedParts(raw[k].value)[j] == x;
      assert x == Strip(Split(raw[k].value, ',')[j]);
    }
    if x != "" && (exists k, j :: 0 <= k < |raw| && Truthy(raw[k])
                                  && 0 <= j < |Split(raw[k].value, ',')| && x == Strip(Split(raw[k].value, ',')[j])) {
      var k, j :| 0 <= k < |raw| && Truthy(raw[k])
        && 0 <= j < |Split(raw[k].value, ',')| && x == Strip(Split(raw[k].value, ',')[j]);
      assert StrippedParts(raw[k].value)[j] == x;
      assert x in Pieces(raw[k]);
    }
  }
}
