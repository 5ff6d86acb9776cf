// The older scraper class (`BlogDuModerateurScraper` in `test.py`). It crawls
// and scrapes exactly as the generator version does, with its own summary,
// content and image rules (the `older` variant of `Scraper.Record`), and
// stores each kept record in a collection whose titles are unique instead of
// yielding it. It also carries a category extractor that reads the
// `data-cat` attribute and returns tag records.

module Legacy {
  import opened Text
  import opened Dom
  import Scraper
  import Images

  // ---------------------------------------------------------------------------
  // extract_categories_and_subcategories
  // ---------------------------------------------------------------------------

  /** A tag of the article: its display name and its slug. */
  datatype Term = Term(name: string, slug: string)

  const SectionMeta: seq<Selector> := One(TagAttrIs("div", "id", "section-meta"))
  const ArticleTerms: seq<Selector> := One(TagClass("div", "article-terms"))
  const CatsList: seq<Selector> := One(TagClass("div", "cats-list"))
  const CatSpan: seq<Selector> := One(TagClass("span", "cat"))
  const TagsList: seq<Selector> := One(TagClass("ul", "tags-list"))
  const Item: seq<Selector> := One(Tag("li"))
  const PostTag: seq<Selector> := One(TagClass("a", "post-tags"))

  /** The meta block: the `div#section-meta`, or else the first `div.article-terms`. */
  function MetaBlock(root: Node): (r: Option<Located>)
    ensures SelectOne(DocLoc(root), SectionMeta).Some? ==> r == SelectOne(DocLoc(root), SectionMeta)
    ensures SelectOne(DocLoc(root), SectionMeta).None? ==> r == SelectOne(DocLoc(root), ArticleTerms)
  {
    match SelectOne(DocLoc(root), SectionMeta)
    case Some(m) => Some(m)
    case None => SelectOne(DocLoc(root), ArticleTerms)
  }

  /** The `data-cat` of the first `span.cat` of the first `div.cats-list`, or "" when any is missing. */
  function RawDataCat(meta: Located): string {
    match SelectOne(meta, CatsList)
    case None => ""
    case Some(list) =>
      match SelectOne(list, CatSpan)
      case None => ""
      case Some(span) => GetOr(span.node, "data-cat", "")
  }

  /** The main category the meta block names: its `data-cat`, title-cased. */
  function DataCat(meta: Located): (r: string)
    ensures r == "" <==> RawDataCat(meta) == ""
    ensures Lower(r) == Lower(RawDataCat(meta))
  {
    TitleCaseLower(RawDataCat(meta));
    TitleCase(RawDataCat(meta))
  }

  /** The tag an item offers: its first `a.post-tags` link's `title` (else its stripped text) and `data-tag`. */
  function Candidate(item: Located): Option<Term> {
    match SelectOne(item, PostTag)
    case None => None
    case Some(link) => Some(Term(GetOr(link.node, "title", Strip(RawText(link.node))), GetOr(link.node, "data-tag", "")))
  }

  /** The tags the items offer, in order. */
  function Terms(items: seq<Located>): (r: seq<Term>)
    ensures |r| <= |items|
    ensures forall t :: t in r ==> exists i :: 0 <= i < |items| && Candidate(items[i]) == Some(t)
    ensures forall i :: 0 <= i < |items| && Candidate(items[i]).Some? ==> Candidate(items[i]).value in r
    decreases |items|
  {
    if items == [] then []
    else
      var init := items[..|items| - 1];
      var cand := Candidate(items[|items| - 1]);
      var before := Terms(init);
      var r := before + (if cand.Some? then [cand.value] else []);
      OfferedGrow(Candidate, items, init, before, r);
      r
  }

  /**
   * One more item for a list of what `f` offers: the values stay exactly those
   * of the items that offer one.
   */
  lemma OfferedGrow<X, T>(f: X -> Option<T>, items: seq<X>, init: seq<X>, before: seq<T>, r: seq<T>)
    requires items != [] && init == items[..|items| - 1]
    requires |before| <= |init|
    requires forall t :: t in before ==> exists i :: 0 <= i < |init| && f(init[i]) == Some(t)
    requires forall i :: 0 <= i < |init| && f(init[i]).Some? ==> f(init[i]).value in before
    requires r == before + (if f(items[|items| - 1]).Some? then [f(items[|items| - 1]).value] else [])
    ensures |r| <= |items|
    ensures forall t :: t in r ==> exists i :: 0 <= i < |items| && f(items[i]) == Some(t)
    ensures forall i :: 0 <= i < |items| && f(items[i]).Some? ==> f(items[i]).value in r
  {
    var last := |items| - 1;
    forall t | t in r
      ensures exists i :: 0 <= i < |items| && f(items[i]) == Some(t)
    {
      if t in before {
        var i :| 0 <= i < |init| && f(init[i]) == Some(t);
        assert init[i] == items[i];
      } else {
        assert f(items[last]) == Some(t);
      }
    }
    forall i | 0 <= i < |items| && f(items[i]).Some?
      ensures f(items[i]).value in r
    {
      if i < last {
        assert init[i] == items[i];
      }
    }
  }

  /** The tags of the first `ul.tags-list` in the meta block. */
  function ItemTerms(meta: Located): seq<Term> {
    match SelectOne(meta, TagsList)
    case None => []
    case Some(list) => Terms(Select(list, Item))
  }

  /** The tags whose lower-cased name differs from the lower-cased main category, in order. */
  function Kept(terms: seq<Term>, main: string): (r: seq<Term>)
    ensures |r| <= |terms|
    ensures forall t :: t in r <==> t in terms && Lower(t.name) != Lower(main)
    decreases |terms|
  {
    if terms == [] then []
    else
      var init := terms[..|terms| - 1];
      var last := terms[|terms| - 1];
      assert terms == init + [last];
      Kept(init, main) + (if Lower(last.name) != Lower(main) then [last] else [])
  }

  function Fallback(root: Node): string {
    Scraper.FallbackCategory(root, Scraper.CategoryFallbacks)
  }

  /**
   * `extract_categories_and_subcategories`: the main category and the tags.
   * The tags are filtered against the `data-cat` main category only; the
   * fallback is consulted afterwards.
   */
  function Categories(root: Node): (string, seq<Term>) {
    match MetaBlock(root)
    case None => (Fallback(root), [])
    case Some(meta) =>
      var main := DataCat(meta);
      (if main != "" then main else Fallback(root), Kept(ItemTerms(meta), main))
  }

  /**
   * The tags returned are exactly the tags of the meta block whose name differs
   * from its `data-cat` under any capitalisation; the main category is the
   * title-cased `data-cat`, or the fallback when that is empty or missing.
   */
  lemma CategoriesShape(root: Node)
    ensures var (main, subs) := Categories(root);
      match MetaBlock(root)
      case None => main == Fallback(root) && subs == []
      case Some(meta) =>
        (RawDataCat(meta) != "" ==> main == TitleCase(RawDataCat(meta)))
        && (RawDataCat(meta) == "" ==> main == Fallback(root))
        && forall t :: t in subs <==> t in ItemTerms(meta) && Lower(t.name) != Lower(RawDataCat(meta))
  {
  }

  /**
   * Without a `data-cat`, the tags are compared with the empty string: only
   * nameless tags are dropped, and a tag naming the fallback category stays.
   */
  lemma FallbackNotFiltered(root: Node, meta: Located)
    requires MetaBlock(root) == Some(meta) && RawDataCat(meta) == ""
    ensures forall t :: t in Categories(root).1 <==> t in ItemTerms(meta) && t.name != ""
  {
    forall t: Term ensures Lower(t.name) != Lower("") <==> t.name != "" {
      assert |Lower(t.name)| == |t.name|;
    }
  }

  /** The loop over the items: the tags kept, in order. */
  method CollectTerms(items: seq<Located>, main: string) returns (subcategories: seq<Term>)
    ensures subcategories == Kept(Terms(items), main)
  {
    subcategories := [];
    var j := 0;
    while j < |items|
      invariant 0 <= j <= |items|
      invariant subcategories == Kept(Terms(items[..j]), main)
    {
      TermsStep(items, j);
      var link := SelectOne(items[j], PostTag);
      if link.Some? {
        var term := Term(GetOr(link.value.node, "title", Strip(RawText(link.value.node))), GetOr(link.value.node, "data-tag", ""));
        KeptStep(Terms(items[..j]), term, main);
        if Lower(term.name) != Lower(main) {
          subcategories := subcategories + [term];
        }
      }
      j := j + 1;
    }
    assert items[..j] == items;
  }

  /** One more item adds its tag, if it offers one. */
  lemma TermsStep(items: seq<Located>, j: nat)
    requires j < |items|
    ensures Candidate(items[j]).None? ==> Terms(items[..j + 1]) == Terms(items[..j])
    ensures Candidate(items[j]).Some? ==> Terms(items[..j + 1]) == Terms(items[..j]) + [Candidate(items[j]).value]
  {
    assert items[..j + 1][..j] == items[..j];
    assert items[..j + 1][j] == items[j];
  }

  /** One more tag is kept exactly when its name differs from the main category. */
  lemma KeptStep(terms: seq<Term>, t: Term, main: string)
    ensures Kept(terms + [t], main) == Kept(terms, main) + (if Lower(t.name) != Lower(main) then [t] else [])
  {
    assert (terms + [t])[..|terms|] == terms;
  }

  /** The main category from the `cats-list` span, title-cased when its `data-cat` is set. */
  method FindDataCat(meta: Located) returns (main: string)
    ensures main == DataCat(meta)
  {
    main := "";
    var list := SelectOne(meta, CatsList);
    if list.Some? {
      var span := SelectOne(list.value, CatSpan);
      if span.Some? && GetOr(span.value.node, "data-cat", "") != "" {
        main := TitleCase(GetOr(span.value.node, "data-cat", ""));
      }
    }
  }

  /** `extract_categories_and_subcategories`: the meta block, the tag loop, then the fallback loop. */
  method ExtractCategoriesAndSubcategories(soup: Soup) returns (main: string, subcategories: seq<Term>)
    ensures (main, subcategories) == Categories(soup.root)
  {
    main := "";
    subcategories := [];
    var meta := SelectOne(soup.Scope(), SectionMeta);
    if meta.None? {
      meta := SelectOne(soup.Scope(), ArticleTerms);
    }
    if meta.Some? {
      main := FindDataCat(meta.value);
      var tags := SelectOne(meta.value, TagsList);
      if tags.Some? {
        var items := Select(tags.value, Item);
        subcategories := CollectTerms(items, main);
      }
    }
    if main == "" {
      main := Scraper.FindFallback(soup);
    }
  }

  // ---------------------------------------------------------------------------
  // The collection: one record per title
  // ---------------------------------------------------------------------------

  type Article = Scraper.Article

  predicate HasTitle(coll: seq<Article>, title: string) {
    exists i :: 0 <= i < |coll| && coll[i].title == title
  }

  /** The unique index on `title`: no two stored records share a title. */
  predicate DistinctTitles(coll: seq<Article>) {
    forall i, j :: 0 <= i < j < |coll| ==> coll[i].title != coll[j].title
  }

  /** `save_article`: the collection afterwards and whether the record was inserted. */
  function Save(coll: seq<Article>, a: Article): (seq<Article>, bool) {
    if HasTitle(coll, a.title) then (coll, false) else (coll + [a], true)
  }

  /**
   * A record is inserted exactly when no stored record has its title; stored
   * records are never changed; afterwards its title is stored, and titles stay
   * unique.
   */
  lemma SaveShape(coll: seq<Article>, a: Article)
    ensures var (after, inserted) := Save(coll, a);
      (inserted <==> !HasTitle(coll, a.title))
      && |after| == |coll| + (if inserted then 1 else 0)
      && after[..|coll|] == coll
      && (inserted ==> after[|coll|] == a)
      && HasTitle(after, a.title)
      && (DistinctTitles(coll) ==> DistinctTitles(after))
  {
    var (after, inserted) := Save(coll, a);
    if inserted {
      assert after[|coll|].title == a.title;
    }
  }

  /** Saving the same record twice inserts it once. */
  lemma SaveIdempotent(coll: seq<Article>, a: Article)
    ensures Save(Save(coll, a).0, a) == (Save(coll, a).0, false)
  {
    SaveShape(coll, a);
  }

  /** The records saved one after another, in order. */
  function SaveAll(coll: seq<Article>, batch: seq<Article>): seq<Article>
    decreases |batch|
  {
    if batch == [] then coll
    else Save(SaveAll(coll, batch[..|batch| - 1]), batch[|batch| - 1]).0
  }

  lemma {:induction false} SaveAllAppend(coll: seq<Article>, a: seq<Article>, b: seq<Article>)
    ensures SaveAll(coll, a + b) == SaveAll(SaveAll(coll, a), b)
    decreases |b|
  {
    if b == [] {
      assert a + b == a;
    } else {
      var init := b[..|b| - 1];
      assert (a + b)[..|a + b| - 1] == a + init;
      assert (a + b)[|a + b| - 1] == b[|b| - 1];
      SaveAllAppend(coll, a, init);
    }
  }

  /**
   * A batch of saves keeps every stored record in place, adds only records of
   * the batch, leaves every title of the batch stored and keeps titles unique.
   */
  lemma {:induction false} SaveAllShape(coll: seq<Article>, batch: seq<Article>)
    ensures var after := SaveAll(coll, batch);
      |coll| <= |after| <= |coll| + |batch|
      && after[..|coll|] == coll
      && (forall i :: |coll| <= i < |after| ==> after[i] in batch)
      && (forall a :: a in batch ==> HasTitle(after, a.title))
      && (DistinctTitles(coll) ==> DistinctTitles(after))
    decreases |batch|
  {
    if batch != [] {
      var init := batch[..|batch| - 1];
      var last := batch[|batch| - 1];
      SaveAllShape(coll, init);
      var mid := SaveAll(coll, init);
      SaveShape(mid, last);
      var after := SaveAll(coll, batch);
      assert after[..|mid|] == mid;
      assert after[..|coll|] == mid[..|coll|];
      forall i | |coll| <= i < |after| ensures after[i] in batch {
        if i < |mid| {
          assert after[i] == mid[i] && mid[i] in init;
        }
      }
      forall a | a in batch ensures HasTitle(after, a.title) {
        if a in init {
          var k :| 0 <= k < |mid| && mid[k].title == a.title;
          assert after[k] == mid[k];
        } else {
          assert a == last;
        }
      }
    }
  }

  /** A batch whose titles are all stored already changes nothing. */
  lemma {:induction false} SaveAllStored(coll: seq<Article>, batch: seq<Article>)
    requires forall a :: a in batch ==> HasTitle(coll, a.title)
    ensures SaveAll(coll, batch) == coll
    decreases |batch|
  {
    if batch != [] {
      SaveAllStored(coll, batch[..|batch| - 1]);
      assert batch[|batch| - 1] in batch;
    }
  }

  /** Saving a batch a second time inserts nothing. */
  lemma SaveAllIdempotent(coll: seq<Article>, batch: seq<Article>)
    ensures SaveAll(SaveAll(coll, batch), batch) == SaveAll(coll, batch)
  {
    SaveAllShape(coll, batch);
    SaveAllStored(SaveAll(coll, batch), batch);
  }

  /** The records a run of the older scraper stores, in order, before the unique-title rule. */
  function Harvested(fetch: Scraper.Fetch, now: string, maxCategories: int, maxPages: int, maxArticles: int): seq<Article> {
    Scraper.Run(fetch, Images.SiteUrl, Scraper.ScrapeOf(fetch, Images.SiteUrl, now, true), maxCategories, maxPages, maxArticles)
  }

  /** One more scrape: its record, when kept, is saved after the records before it. */
  lemma SaveStep(start: seq<Article>, before: seq<Option<Article>>, r: Option<Article>, name: string)
    ensures SaveAll(start, Scraper.Harvest(before + [r], name)) ==
      if r.Some? && r.value.title != "" then Save(SaveAll(start, Scraper.Harvest(before, name)), r.value.(source := Some(name))).0
      else SaveAll(start, Scraper.Harvest(before, name))
  {
    assert (before + [r])[..|before|] == before;
    var kept := Scraper.Keep(r, name);
    assert Scraper.Harvest(before + [r], name) == Scraper.Harvest(before, name) + kept;
    SaveAllAppend(start, Scraper.Harvest(before, name), kept);
    if kept != [] {
      assert kept[..0] == [];
    }
  }

  // ---------------------------------------------------------------------------
  // The scraper object
  // ---------------------------------------------------------------------------

  /** The scraper with its collection of stored records. */
  class BlogScraper {
    var collection: seq<Article>

    ghost predicate Valid()
      reads this
    {
      DistinctTitles(collection)
    }

    /** Opening a collection whose titles are unique (creating the unique index fails otherwise). */
    constructor (existing: seq<Article>)
      requires DistinctTitles(existing)
      ensures collection == existing && Valid()
    {
      collection := existing;
    }

    /** `save_article`: insert unless a record with the same title is stored. */
    method SaveArticle(a: Article) returns (saved: bool)
      modifies this
      ensures (collection, saved) == Save(old(collection), a)
      ensures |collection| == |old(collection)| + (if saved then 1 else 0)
      ensures old(Valid()) ==> Valid()
    {
      SaveShape(collection, a);
      if HasTitle(collection, a.title) {
        return false;
      }
      collection := collection + [a];
      return true;
    }

    /** The loop over a category's addresses: each article scraped and, when it has a title, saved. */
    method SaveCategory(fetch: Scraper.Fetch, urls: seq<string>, now: string, name: string) returns (count: nat)
      modifies this
      ensures collection == SaveAll(old(collection), Scraper.Harvest(Scraper.Scraped(Scraper.ScrapeOf(fetch, Images.SiteUrl, now, true), urls), name))
      ensures count == |collection| - |old(collection)|
      ensures old(Valid()) ==> Valid()
    {
      ghost var scrape := Scraper.ScrapeOf(fetch, Images.SiteUrl, now, true);
      ghost var start := collection;
      count := 0;
      var j := 0;
      while j < |urls|
        invariant 0 <= j <= |urls|
        invariant collection == SaveAll(start, Scraper.Harvest(Scraper.Scraped(scrape, urls[..j]), name))
        invariant count == |collection| - |start|
      {
        assert urls[..j + 1][..j] == urls[..j];
        ghost var before := Scraper.Scraped(scrape, urls[..j]);
        var article := Scraper.ScrapeArticle(fetch, urls[j], Images.SiteUrl, now, true);
        assert Scraper.Scraped(scrape, urls[..j + 1]) == before + [article];
        SaveStep(start, before, article, name);
        if article.Some? && article.value.title != "" {
          var saved := SaveArticle(article.value.(source := Some(name)));
          if saved {
            count := count + 1;
          }
        }
        j := j + 1;
      }
      assert urls[..j] == urls;
      SaveAllShape(start, Scraper.Harvest(Scraper.Scraped(scrape, urls), name));
    }

    /**
     * `run_scraper`: every kept record saved in the order of the run; `total`
     * counts the records inserted and `processed` the categories visited.
     */
    method RunScraper(fetch: Scraper.Fetch, now: string, maxCategories: int, maxPages: int, maxArticles: int)
      returns (processed: nat, total: nat)
      modifies this
      ensures collection == SaveAll(old(collection), Harvested(fetch, now, maxCategories, maxPages, maxArticles))
      ensures total == |collection| - |old(collection)|
      ensures processed == |Take(Scraper.CategoryList(fetch, Images.SiteUrl), maxCategories)|
      ensures old(Valid()) ==> Valid()
    {
      ghost var scrape := Scraper.ScrapeOf(fetch, Images.SiteUrl, now, true);
      ghost var start := collection;
      processed, total := 0, 0;
      var categories := Scraper.GetCategoriesList(fetch, Images.SiteUrl);
      if categories == [] {
        return;
      }
      var cats := Take(categories, maxCategories);
      var i := 0;
      while i < |cats|
        invariant 0 <= i <= |cats|
        invariant collection == SaveAll(start, Scraper.RunCategories(fetch, scrape, cats[..i], maxPages, maxArticles))
        invariant total == |collection| - |start| && processed == i
      {
        Scraper.RunStep(fetch, scrape, cats, i, maxPages, maxArticles);
        var category := cats[i];
        var urls := Scraper.GetArticlesFromCategory(fetch, category.url, maxPages);
        urls := Take(urls, maxArticles);
        SaveAllAppend(start, Scraper.RunCategories(fetch, scrape, cats[..i], maxPages, maxArticles),
          Scraper.CategoryRecords(fetch, scrape, category, maxPages, maxArticles));
        var count := SaveCategory(fetch, urls, now, category.name);
        total := total + count;
        processed := processed + 1;
        i := i + 1;
      }
      assert cats[..i] == cats;
      SaveAllShape(start, Scraper.RunCategories(fetch, scrape, cats, maxPages, maxArticles));
    }
  }

  /** A run keeps the collection's titles unique and stores every title the run harvested. */
  lemma RunKeepsTitlesUnique(coll: seq<Article>, fetch: Scraper.Fetch, now: string, maxCategories: int, maxPages: int, maxArticles: int)
    requires DistinctTitles(coll)
    ensures var batch := Harvested(fetch, now, maxCategories, maxPages, maxArticles);
      DistinctTitles(SaveAll(coll, batch)) && forall a :: a in batch ==> HasTitle(SaveAll(coll, batch), a.title)
  {
    SaveAllShape(coll, Harvested(fetch, now, maxCategories, maxPages, maxArticles));
  }
}
