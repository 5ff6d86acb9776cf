// The crawler (`BlogDuModerateurScraper`): the category list, the article
// links of a category's pages, one article's record, and the run over
// categories and articles that hands out the records with a title.
//
// The HTTP session and the HTML parser are one parameter: a fetcher that
// gives a page's top-level nodes, or None when the request fails.

module Scraper {
  import opened Text
  import opened Dom
  import Content
  import Summary
  import Toc
  import Dates
  import Authors
  import Images

  /** `get_page_content`: the parsed page, or None for a failed request. */
  type Fetch = string -> Option<seq<Node>>

  // ---------------------------------------------------------------------------
  // The category list
  // ---------------------------------------------------------------------------

  /** A category: its display name and the link's `href`, which may be missing. */
  datatype Category = Category(name: string, url: Option<string>)

  const ListPath: string := "/liste-des-dossiers/"

  /** One link of the list: the `title` attribute if present (even empty), else the stripped text. */
  function CategoryOf(link: Node): (c: Category)
    ensures c.url == Get(link, "href")
    ensures Get(link, "title").Some? ==> c.name == Get(link, "title").value
    ensures Get(link, "title").None? ==> c.name == Strip(RawText(link)) && IsStripped(c.name)
  {
    Category(GetOr(link, "title", Strip(RawText(link))), Get(link, "href"))
  }

  /** The links of the first `ul.tags-list`, in document order. */
  function ListLinks(root: Node): seq<Located> {
    match SelectOne(DocLoc(root), One(TagClass("ul", "tags-list")))
    case None => []
    case Some(list) => Select(list, One(Tag("a")))
  }

  function Categories(links: seq<Located>): (r: seq<Category>)
    ensures |r| == |links|
    decreases |links|
  {
    if links == [] then [] else Categories(links[..|links| - 1]) + [CategoryOf(links[|links| - 1].node)]
  }

  /** `get_categories_list`. */
  function CategoryList(fetch: Fetch, base: string): seq<Category> {
    match fetch(base + ListPath)
    case None => []
    case Some(top) => Categories(ListLinks(Document(top)))
  }

  /** One category per link of the list, each taken from its own link. */
  lemma {:induction false} CategoriesPerLink(links: seq<Located>)
    ensures forall i :: 0 <= i < |links| ==> Categories(links)[i] == CategoryOf(links[i].node)
    decreases |links|
  {
    if links != [] {
      var init := links[..|links| - 1];
      CategoriesPerLink(init);
      var r := Categories(links);
      assert r == Categories(init) + [CategoryOf(links[|links| - 1].node)];
      forall i | 0 <= i < |links| - 1 ensures r[i] == CategoryOf(links[i].node) {
        assert r[i] == Categories(init)[i];
        assert init[i] == links[i];
      }
    }
  }

  /** `get_categories_list`: the page fetch and the loop over the list's links. */
  method GetCategoriesList(fetch: Fetch, base: string) returns (categories: seq<Category>)
    ensures categories == CategoryList(fetch, base)
    ensures fetch(base + ListPath).None? ==> categories == []
  {
    var page := fetch(base + ListPath);
    if page.None? {
      return [];
    }
    var links := ListLinks(Document(page.value));
    categories := [];
    var i := 0;
    while i < |links|
      invariant 0 <= i <= |links|
      invariant categories == Categories(links[..i])
    {
      CategoriesStep(links, i);
      categories := categories + [CategoryOf(links[i].node)];
      i := i + 1;
    }
    assert links[..i] == links;
  }

  /** One more link adds its own category at the end. */
  lemma CategoriesStep(links: seq<Located>, i: nat)
    requires i < |links|
    ensures Categories(links[..i + 1]) == Categories(links[..i]) + [CategoryOf(links[i].node)]
  {
    assert links[..i + 1][..i] == links[..i];
    assert links[..i + 1][i] == links[i];
  }

  // ---------------------------------------------------------------------------
  // A category's article links
  // ---------------------------------------------------------------------------

  /** The address of page `page` of a category. */
  function PageUrl(cat: string, page: nat): string {
    if page == 1 then cat else cat + "page/" + Decimal(page) + "/"
  }

  /** Distinct page numbers give distinct addresses, so no page is fetched twice. */
  lemma PageUrlInjective(cat: string, p: nat, q: nat)
    requires 1 <= p && 1 <= q && PageUrl(cat, p) == PageUrl(cat, q)
    ensures p == q
  {
    var u := PageUrl(cat, p);
    if p != 1 && q != 1 {
      var n := |cat| + 5;
      assert Decimal(p) == u[n..|u| - 1];
      assert Decimal(q) == u[n..|u| - 1];
      DecimalInjective(p, q);
    }
  }

  /** The `href` of an article's first link, when it is present and not empty. */
  function ArticleLink(article: Located): (r: Option<string>)
    ensures r.Some? ==> r.value != []
  {
    match SelectOne(article, One(Tag("a")))
    case None => None
    case Some(a) =>
      match Get(a.node, "href")
      case Some(h) => if h != "" then Some(h) else None
      case None => None
  }

  /** The article links of a page, in order, repeats included. */
  function PageLinks(arts: seq<Located>): seq<string>
    decreases |arts|
  {
    if arts == [] then []
    else
      var before := PageLinks(arts[..|arts| - 1]);
      match ArticleLink(arts[|arts| - 1])
      case Some(h) => before + [h]
      case None => before
  }

  /** No link of a page is empty. */
  lemma {:induction false} PageLinksNonEmpty(arts: seq<Located>)
    ensures forall i :: 0 <= i < |PageLinks(arts)| ==> PageLinks(arts)[i] != []
    decreases |arts|
  {
    if arts != [] {
      PageLinksNonEmpty(arts[..|arts| - 1]);
    }
  }

  /** The `article` elements of a fetched page. */
  function Articles(top: seq<Node>): seq<Located> {
    Select(DocLoc(Document(top)), One(Tag("article")))
  }

  /** What one page gives the crawl: None when it ends it (failed fetch or no article), else its links. */
  function PageResult(fetch: Fetch, cat: string, page: nat): (r: Option<seq<string>>)
    ensures r.None? <==> fetch(PageUrl(cat, page)).None? || Articles(fetch(PageUrl(cat, page)).value) == []
  {
    match fetch(PageUrl(cat, page))
    case None => None
    case Some(top) => if Articles(top) == [] then None else Some(PageLinks(Articles(top)))
  }

  /** The results of a category's pages, by page number. */
  type Pages = nat -> Option<seq<string>>

  function PagesOf(fetch: Fetch, cat: string): Pages {
    (p: nat) => PageResult(fetch, cat, p)
  }

  /** The links of pages `page`, `page + 1`, ... up to `maxPages`, ending at the first page that ends the crawl. */
  function Crawl(pages: Pages, page: nat, maxPages: int): seq<string>
    decreases if page > maxPages then 0 else maxPages - page + 1
  {
    if page > maxPages || pages(page).None? then []
    else pages(page).value + Crawl(pages, page + 1, maxPages)
  }

  /**
   * The page loop as written: from page `page` on, each page's links are
   * appended to `acc` unless already there, until a page ends the crawl or
   * the page limit is passed.
   */
  function Gather(pages: Pages, page: nat, maxPages: int, acc: seq<string>): seq<string>
    decreases if page > maxPages then 0 else maxPages - page + 1
  {
    if page > maxPages || pages(page).None? then acc
    else Gather(pages, page + 1, maxPages, AddAll(acc, pages(page).value))
  }

  /** `get_articles_from_category`, pages counted from 1. */
  function ArticleUrls(fetch: Fetch, cat: Option<string>, maxPages: int): seq<string> {
    match cat
    case None => []
    case Some(c) => Gather(PagesOf(fetch, c), 1, maxPages, [])
  }

  /** Gathering into a de-duplicated list de-duplicates all links of the crawl. */
  lemma {:induction false} GatherDedup(pages: Pages, page: nat, maxPages: int, seen: seq<string>)
    ensures Gather(pages, page, maxPages, Dedup(seen)) == Dedup(seen + Crawl(pages, page, maxPages))
    decreases if page > maxPages then 0 else maxPages - page + 1
  {
    if page > maxPages || pages(page).None? {
      assert seen + [] == seen;
    } else {
      var links := pages(page).value;
      var rest := Crawl(pages, page + 1, maxPages);
      AddAllDedup(seen, links);
      GatherDedup(pages, page + 1, maxPages, seen + links);
      assert (seen + links) + rest == seen + (links + rest);
    }
  }

  /** The links gathered are those of the whole crawl, first appearances only, in order. */
  lemma UrlsAreDedup(fetch: Fetch, cat: string, maxPages: int)
    ensures ArticleUrls(fetch, Some(cat), maxPages) == Dedup(Crawl(PagesOf(fetch, cat), 1, maxPages))
  {
    var c := Crawl(PagesOf(fetch, cat), 1, maxPages);
    GatherDedup(PagesOf(fetch, cat), 1, maxPages, []);
    assert [] + c == c;
  }

  /** Every page gives non-empty links only. */
  ghost predicate LinksSet(pages: Pages) {
    forall p: nat :: pages(p).Some? ==> forall i :: 0 <= i < |pages(p).value| ==> pages(p).value[i] != []
  }

  lemma PagesOfLinksSet(fetch: Fetch, cat: string)
    ensures LinksSet(PagesOf(fetch, cat))
  {
    forall p: nat | PagesOf(fetch, cat)(p).Some?
      ensures forall i :: 0 <= i < |PagesOf(fetch, cat)(p).value| ==> PagesOf(fetch, cat)(p).value[i] != []
    {
      PageLinksNonEmpty(Articles(fetch(PageUrl(cat, p)).value));
    }
  }

  lemma {:induction false} CrawlNonEmpty(pages: Pages, page: nat, maxPages: int)
    requires LinksSet(pages)
    ensures forall i :: 0 <= i < |Crawl(pages, page, maxPages)| ==> Crawl(pages, page, maxPages)[i] != []
    decreases if page > maxPages then 0 else maxPages - page + 1
  {
    if !(page > maxPages || pages(page).None?) {
      CrawlNonEmpty(pages, page + 1, maxPages);
      var links := pages(page).value;
      var c := Crawl(pages, page, maxPages);
      assert c == links + Crawl(pages, page + 1, maxPages);
      forall i | 0 <= i < |c| ensures c[i] != [] {
        if i >= |links| { assert c[i] == Crawl(pages, page + 1, maxPages)[i - |links|]; }
      }
    }
  }

  /** The links come without repeats, none empty, and each link of a crawled page is among them. */
  lemma UrlsShape(fetch: Fetch, cat: string, maxPages: int)
    ensures var urls := ArticleUrls(fetch, Some(cat), maxPages);
      var crawl := Crawl(PagesOf(fetch, cat), 1, maxPages);
      NoDup(urls)
      && (forall i :: 0 <= i < |urls| ==> urls[i] != [] && urls[i] in crawl)
      && (forall u :: u in crawl ==> u in urls)
  {
    var c := Crawl(PagesOf(fetch, cat), 1, maxPages);
    UrlsAreDedup(fetch, cat, maxPages);
    DedupShape(c);
    PagesOfLinksSet(fetch, cat);
    CrawlNonEmpty(PagesOf(fetch, cat), 1, maxPages);
    var urls := Dedup(c);
    forall i | 0 <= i < |urls| ensures urls[i] != [] {
      assert urls[i] in c;
      var k :| 0 <= k < |c| && c[k] == urls[i];
    }
  }

  /**
   * A page that ends the crawl hides every page after it: the links are
   * those of the pages before it, however many more pages the limit allows.
   */
  lemma {:induction false} StopEndsCrawl(pages: Pages, page: nat, stop: nat, maxPages: int)
    requires page <= stop <= maxPages && pages(stop).None?
    ensures Crawl(pages, page, maxPages) == Crawl(pages, page, stop - 1)
    decreases stop - page
  {
    if page < stop && pages(page).Some? {
      StopEndsCrawl(pages, page + 1, stop, maxPages);
    }
  }

  /** Pages beyond the limit are never fetched: the crawl depends on the first `maxPages` pages only. */
  lemma {:induction false} CrawlWithinLimit(f: Pages, g: Pages, page: nat, maxPages: int)
    requires forall k: nat :: page <= k <= maxPages ==> f(k) == g(k)
    ensures Crawl(f, page, maxPages) == Crawl(g, page, maxPages)
    ensures Gather(f, page, maxPages, []) == Gather(g, page, maxPages, [])
    decreases if page > maxPages then 0 else maxPages - page + 1
  {
    if page <= maxPages {
      CrawlWithinLimit(f, g, page + 1, maxPages);
      GatherWithinLimit(f, g, page, maxPages, []);
    }
  }

  lemma {:induction false} GatherWithinLimit(f: Pages, g: Pages, page: nat, maxPages: int, acc: seq<string>)
    requires forall k: nat :: page <= k <= maxPages ==> f(k) == g(k)
    ensures Gather(f, page, maxPages, acc) == Gather(g, page, maxPages, acc)
    decreases if page > maxPages then 0 else maxPages - page + 1
  {
    if page <= maxPages && f(page).Some? {
      GatherWithinLimit(f, g, page + 1, maxPages, AddAll(acc, f(page).value));
    }
  }

  /** The loop over one page's articles: each new link is appended. */
  method AddPageLinks(urls: seq<string>, articles: seq<Located>) returns (r: seq<string>)
    ensures r == AddAll(urls, PageLinks(articles))
  {
    r := urls;
    var j := 0;
    while j < |articles|
      invariant 0 <= j <= |articles|
      invariant r == AddAll(urls, PageLinks(articles[..j]))
    {
      assert articles[..j + 1][..j] == articles[..j];
      var link := ArticleLink(articles[j]);
      if link.Some? {
        ghost var pre := PageLinks(articles[..j]);
        assert PageLinks(articles[..j + 1]) == pre + [link.value];
        assert (pre + [link.value])[..|pre|] == pre;
        if link.value !in r {
          r := r + [link.value];
        }
      }
      j := j + 1;
    }
    assert articles[..j] == articles;
  }

  /** `get_articles_from_category`: the loop over pages, which ends early at a failed fetch or an empty page. */
  method GetArticlesFromCategory(fetch: Fetch, cat: Option<string>, maxPages: int) returns (urls: seq<string>)
    ensures urls == ArticleUrls(fetch, cat, maxPages)
  {
    urls := [];
    if cat.None? {
      // the first page's request has no address and fails
      return;
    }
    var c := cat.value;
    ghost var pages := PagesOf(fetch, c);
    var page := 1;
    while page <= maxPages
      invariant 1 <= page
      invariant ArticleUrls(fetch, cat, maxPages) == Gather(pages, page, maxPages, urls)
      decreases maxPages - page + 1
    {
      assert pages(page) == PageResult(fetch, c, page);
      var soup := fetch(PageUrl(c, page));
      if soup.None? {
        break;
      }
      var articles := Articles(soup.value);
      if articles == [] {
        break;
      }
      urls := AddPageLinks(urls, articles);
      page := page + 1;
    }
  }

  // ---------------------------------------------------------------------------
  // One article
  // ---------------------------------------------------------------------------

  const TitleGroup: seq<Selector> := [
    [TagClass("h1", "entry-title")], [TagClass("h1", "post-title")], [Tag("h1")], [Class("entry-title")], [Class("post-title")]
  ]

  /** A thumbnail source: an image whose address attributes are read, or a meta tag whose `content` is. */
  datatype Thumb = ImgOf(sel: seq<Selector>) | MetaOf(sel: seq<Selector>)

  const ThumbnailSources: seq<Thumb> := [
    ImgOf([[Class("post-thumbnail"), Tag("img")]]),
    ImgOf([[Class("entry-image"), Tag("img")]]),
    ImgOf([[Class("featured-image"), Tag("img")]]),
    MetaOf(One(TagAttrIs("meta", "property", "og:image")))
  ]

  /**
   * The thumbnail loop from value `cur`: a matching meta tag always ends it
   * with its `content` (or ""); a matching image sets the value to
   * `src or data-src or data-lazy-src`, which may be None, and ends it only
   * when that value is a non-empty string.
   */
  function ThumbFrom(root: Node, srcs: seq<Thumb>, cur: Option<string>): Option<string>
    decreases |srcs|
  {
    if srcs == [] then cur
    else
      match SelectOne(DocLoc(root), srcs[0].sel)
      case None => ThumbFrom(root, srcs[1..], cur)
      case Some(at) =>
        if srcs[0].MetaOf? then Some(GetOr(at.node, "content", ""))
        else
          var u := GetFirst(at.node, Images.UrlKeys);
          if u.Some? && u.value != "" then u else ThumbFrom(root, srcs[1..], u)
  }

  /** The record's `thumbnail`: the loop's value, made absolute when it is a non-empty string. */
  function Thumbnail(root: Node, base: string): Option<string> {
    match ThumbFrom(root, ThumbnailSources, Some(""))
    case Some(u) => Some(if u != "" then Images.Absolutize(u, base) else u)
    case None => None
  }

  /** A source that settles the thumbnail: a matching meta tag, or a matching image with a non-empty address. */
  predicate Settles(root: Node, src: Thumb) {
    match SelectOne(DocLoc(root), src.sel)
    case None => false
    case Some(at) => src.MetaOf? || (GetFirst(at.node, Images.UrlKeys).Some? && GetFirst(at.node, Images.UrlKeys).value != "")
  }

  /** What a settling source gives. */
  function Settled(root: Node, src: Thumb): Option<string>
    requires Settles(root, src)
  {
    var at := SelectOne(DocLoc(root), src.sel).value;
    if src.MetaOf? then Some(GetOr(at.node, "content", "")) else GetFirst(at.node, Images.UrlKeys)
  }

  /** The first settling source decides; the sources before it only pass a value along. */
  lemma {:induction false} FirstSettlingWins(root: Node, srcs: seq<Thumb>, cur: Option<string>, k: nat)
    requires k < |srcs| && Settles(root, srcs[k])
    requires forall j :: 0 <= j < k ==> !Settles(root, srcs[j])
    ensures ThumbFrom(root, srcs, cur) == Settled(root, srcs[k])
    decreases k
  {
    if k > 0 {
      var rest := srcs[1..];
      forall j | 0 <= j < k - 1 ensures !Settles(root, rest[j]) {
        assert rest[j] == srcs[j + 1];
      }
      assert rest[k - 1] == srcs[k];
      assert !Settles(root, srcs[0]);
      var found := SelectOne(DocLoc(root), srcs[0].sel);
      var next := if found.None? then cur else GetFirst(found.value.node, Images.UrlKeys);
      assert ThumbFrom(root, srcs, cur) == ThumbFrom(root, rest, next);
      FirstSettlingWins(root, rest, next, k - 1);
    }
  }

  /**
   * An image found whose `src or data-src or data-lazy-src` evaluates to None
   * leaves the value None: `data-lazy-src` is absent, and `src` and `data-src`
   * are absent or empty.
   */
  predicate LeavesNone(root: Node, src: Thumb) {
    src.ImgOf? && SelectOne(DocLoc(root), src.sel).Some? && GetFirst(SelectOne(DocLoc(root), src.sel).value.node, Images.UrlKeys).None?
  }

  /** The thumbnail is None only when an image was found whose `src or data-src or data-lazy-src` is None. */
  lemma {:induction false} NoneNeedsBareImage(root: Node, srcs: seq<Thumb>, cur: Option<string>)
    requires cur.Some?
    ensures ThumbFrom(root, srcs, cur).None? ==> exists k :: 0 <= k < |srcs| && LeavesNone(root, srcs[k])
    decreases |srcs|
  {
    if srcs != [] && ThumbFrom(root, srcs, cur).None? {
      match SelectOne(DocLoc(root), srcs[0].sel)
      case None =>
        NoneNeedsBareImage(root, srcs[1..], cur);
        var k :| 0 <= k < |srcs[1..]| && LeavesNone(root, srcs[1..][k]);
        assert srcs[1..][k] == srcs[k + 1];
      case Some(at) =>
        var u := GetFirst(at.node, Images.UrlKeys);
        if u.None? {
          assert LeavesNone(root, srcs[0]);
        } else {
          NoneNeedsBareImage(root, srcs[1..], u);
          var k :| 0 <= k < |srcs[1..]| && LeavesNone(root, srcs[1..][k]);
          assert srcs[1..][k] == srcs[k + 1];
        }
    }
  }

  /** With a site root that is not itself relative, a non-empty thumbnail never starts with `/`. */
  lemma ThumbnailAbsolute(root: Node, base: string)
    requires base != [] && base[0] != '/'
    ensures Thumbnail(root, base).Some? && Thumbnail(root, base).value != [] ==> !StartsWith(Thumbnail(root, base).value, "/")
  {
    match ThumbFrom(root, ThumbnailSources, Some(""))
    case Some(u) =>
      if u != "" {
        Images.AbsolutizeIdempotent(u, base);
      }
    case None =>
  }

  /** The thumbnail loop, stopping as described for `ThumbFrom`, then the address fix-up. */
  method FindThumbnail(soup: Soup, base: string) returns (thumbnail: Option<string>)
    ensures thumbnail == Thumbnail(soup.root, base)
  {
    var srcs := ThumbnailSources;
    thumbnail := Some("");
    var i := 0;
    while i < |srcs|
      invariant 0 <= i <= |srcs|
      invariant ThumbFrom(soup.root, srcs, Some("")) == ThumbFrom(soup.root, srcs[i..], thumbnail)
    {
      assert srcs[i..][0] == srcs[i] && srcs[i..][1..] == srcs[i + 1..];
      var element := SelectOne(soup.Scope(), srcs[i].sel);
      if element.Some? {
        if srcs[i].MetaOf? {
          thumbnail := Some(GetOr(element.value.node, "content", ""));
          break;
        }
        thumbnail := GetFirst(element.value.node, Images.UrlKeys);
        if thumbnail.Some? && thumbnail.value != "" {
          break;
        }
      }
      i := i + 1;
    }
    if thumbnail.Some? && thumbnail.value != "" {
      thumbnail := Some(Images.Absolutize(thumbnail.value, base));
    }
  }

  const MetaSection: seq<Selector> := [[Id("section-meta")], [Class("meta-container")]]
  const TagLinks: seq<Selector> := [[Class("tags-list"), TagClass("a", "post-tags")]]
  const CategoryFallbacks: seq<seq<Selector>> := [One(Class("favtag")), One(Class("post-category")), One(Class("entry-category")), One(Class("category"))]

  /** The stripped texts of the tag links in the meta section, in document order. */
  function TagTexts(root: Node): seq<string> {
    match SelectOne(DocLoc(root), MetaSection)
    case None => []
    case Some(section) =>
      var tags := Select(section, TagLinks);
      seq(|tags|, i requires 0 <= i < |tags| => GetText(tags[i].node))
  }

  /** The texts that are not empty, in order. */
  function NonEmpty(texts: seq<string>): (r: seq<string>)
    ensures forall t :: t in r <==> t in texts && t != []
    decreases |texts|
  {
    if texts == [] then []
    else
      var before := NonEmpty(texts[..|texts| - 1]);
      assert texts == texts[..|texts| - 1] + [texts[|texts| - 1]];
      if texts[|texts| - 1] != "" then before + [texts[|texts| - 1]] else before
  }

  /** The subcategories: every tag after the first, without empty texts and repeats. */
  function Subcategories(texts: seq<string>): seq<string> {
    if texts == [] then [] else Dedup(NonEmpty(texts[1..]))
  }

  /** The subcategories are distinct and non-empty, and are exactly the non-empty texts of the later tags. */
  lemma SubcategoriesShape(texts: seq<string>)
    requires texts != []
    ensures var subs := Subcategories(texts);
      NoDup(subs)
      && forall t :: t in subs <==> t in texts[1..] && t != []
  {
    DedupShape(NonEmpty(texts[1..]));
  }

  /** The text of the first fallback element found, even an empty one; "" when none is found. */
  function FallbackCategory(root: Node, sels: seq<seq<Selector>>): string
    decreases |sels|
  {
    if sels == [] then ""
    else
      match SelectOne(DocLoc(root), sels[0])
      case Some(e) => GetText(e.node)
      case None => FallbackCategory(root, sels[1..])
  }

  /** The record's `category`: the first tag's text, or the fallback when that is empty or missing. */
  function CategoryText(root: Node): string {
    var texts := TagTexts(root);
    var first := if texts != [] then texts[0] else "";
    if first != "" then first else FallbackCategory(root, CategoryFallbacks)
  }

  /** The first fallback element found gives the category even when its text is empty. */
  lemma {:induction false} FirstFallbackDecides(root: Node, sels: seq<seq<Selector>>, k: nat)
    requires k < |sels| && SelectOne(DocLoc(root), sels[k]).Some?
    requires forall j :: 0 <= j < k ==> SelectOne(DocLoc(root), sels[j]).None?
    ensures FallbackCategory(root, sels) == GetText(SelectOne(DocLoc(root), sels[k]).value.node)
    decreases k
  {
    if k > 0 {
      forall j | 0 <= j < k - 1 ensures SelectOne(DocLoc(root), sels[1..][j]).None? {
        assert sels[1..][j] == sels[j + 1];
      }
      FirstFallbackDecides(root, sels[1..], k - 1);
    }
  }

  /** The category and subcategory loops over the meta section, then the fallback loop. */
  method FindCategories(soup: Soup) returns (category: string, subcategories: seq<string>)
    ensures category == CategoryText(soup.root)
    ensures subcategories == Subcategories(TagTexts(soup.root))
  {
    category := "";
    subcategories := [];
    var section := SelectOne(soup.Scope(), MetaSection);
    if section.Some? {
      var tags := Select(section.value, TagLinks);
      ghost var texts := TagTexts(soup.root);
      if tags != [] {
        category := GetText(tags[0].node);
        var rest := tags[1..];
        var j := 0;
        while j < |rest|
          invariant 0 <= j <= |rest|
          invariant subcategories == Dedup(NonEmpty(texts[1..][..j]))
        {
          assert texts[1..][..j + 1][..j] == texts[1..][..j];
          assert texts[1..][j] == GetText(rest[j].node);
          var sub := GetText(rest[j].node);
          if sub != "" {
            DedupAppend(NonEmpty(texts[1..][..j]), sub);
            if sub !in subcategories {
              subcategories := subcategories + [sub];
            }
          }
          j := j + 1;
        }
        assert texts[1..][..j] == texts[1..];
      }
    }
    if category == "" {
      category := FindFallback(soup);
    }
  }

  /** The fallback loop: the text of the first element a fallback selector finds. */
  method FindFallback(soup: Soup) returns (category: string)
    ensures category == FallbackCategory(soup.root, CategoryFallbacks)
  {
    var sels := CategoryFallbacks;
    var i := 0;
    while i < |sels|
      invariant 0 <= i <= |sels|
      invariant FallbackCategory(soup.root, sels) == FallbackCategory(soup.root, sels[i..])
    {
      assert sels[i..][0] == sels[i] && sels[i..][1..] == sels[i + 1..];
      var element := SelectOne(soup.Scope(), sels[i]);
      if element.Some? {
        return GetText(element.value.node);
      }
      i := i + 1;
    }
    return "";
  }

  /** The record of one article. `source` is set by the run, naming the category it came from. */
  datatype Article = Article(
    url: string, title: string, thumbnail: Option<string>, toc: seq<string>,
    category: string, subcategory: string, subcategories: seq<string>,
    summary: string, date: string, author: string, content: string,
    images: map<string, Images.ImageInfo>, scrapedAt: string, source: Option<string>)

  /** The title: the text of the first element the title group matches, or "". */
  function TitleText(root: Node): string {
    match SelectOne(DocLoc(root), TitleGroup)
    case Some(e) => GetText(e.node)
    case None => ""
  }

  /**
   * The record built from a page. The table of contents, summary, date and
   * author read the page as fetched; the content extractor then prunes the
   * page, and the images are read from the pruned page. The `older` variant
   * (the scraper class of `test.py`) uses its own summary rule, also removes
   * the summary box from the content, assembles the content without the
   * final clean-up, and looks for image captions in the direct parent.
   */
  function Record(url: string, root: Node, base: string, now: string, older: bool): (a: Article)
    ensures a.url == url && a.source.None? && a.scrapedAt == now
  {
    var step := Content.Cascade(root, Content.Regions, older);
    var images := Images.ImagesOf(step.root, base, older).1;
    var subs := Subcategories(TagTexts(root));
    var summary := if older then Summary.SummaryTextOlder(root) else Summary.SummaryText(root);
    var content := if older then Content.FinishOlder(step.parts) else Content.Finish(step.parts);
    Article(url, TitleText(root), Thumbnail(root, base), Toc.TableOfContents(root, Toc.Fallbacks),
      CategoryText(root), Join(subs, ", "), subs,
      summary, Dates.DateText(root), Authors.AuthorText(root),
      content, images, now, None)
  }

  /** `scrape_article`: None when the page cannot be fetched. */
  function ArticleAt(fetch: Fetch, url: string, base: string, now: string, older: bool): (r: Option<Article>)
    ensures r.Some? <==> fetch(url).Some?
    ensures r.Some? ==> r.value.url == url && r.value.source.None?
  {
    match fetch(url)
    case None => None
    case Some(top) => Some(Record(url, Document(top), base, now, older))
  }

  /** `scrape_article`: the fetch, then every extractor on the same page object in the record's order. */
  method ScrapeArticle(fetch: Fetch, url: string, base: string, now: string, older: bool) returns (article: Option<Article>)
    ensures article == ArticleAt(fetch, url, base, now, older)
    ensures article.Some? ==> article.value.url == url && article.value.source.None?
  {
    var page := fetch(url);
    if page.None? {
      return None;
    }
    var soup := new Soup(page.value);
    var title := TitleText(soup.root);
    var thumbnail := FindThumbnail(soup, base);
    var category, subcategories := FindCategories(soup);
    var subcategory := if subcategories != [] then Join(subcategories, ", ") else "";
    var toc := Toc.ExtractTableOfContents(soup);
    var summary;
    if older {
      summary := Summary.ExtractSummaryOlder(soup);
    } else {
      summary := Summary.ExtractSummary(soup);
    }
    var date := Dates.ExtractDate(soup);
    var author := Authors.ExtractAuthor(soup);
    var content;
    if older {
      content := Content.ExtractArticleContentOlder(soup);
    } else {
      content := Content.ExtractArticleContent(soup);
    }
    var images := Images.ExtractImages(soup, base, older);
    article := Some(Article(url, title, thumbnail, toc, category, subcategory, subcategories,
      summary, date, author, content, images, now, None));
  }

  // ---------------------------------------------------------------------------
  // The run
  // ---------------------------------------------------------------------------

  /** What one scrape contributes: the record tagged with the category, when there is one and it has a title. */
  function Keep(r: Option<Article>, name: string): (k: seq<Article>)
    ensures |k| <= 1
    ensures forall a :: a in k ==> r.Some? && a.title == r.value.title != "" && a.url == r.value.url && a.source == Some(name)
    ensures forall a :: a in k <==> r.Some? && r.value.title != "" && a == r.value.(source := Some(name))
  {
    if r.Some? && r.value.title != "" then [r.value.(source := Some(name))] else []
  }

  /** The records kept from a category's scrapes, in order. */
  function Harvest(results: seq<Option<Article>>, name: string): seq<Article>
    decreases |results|
  {
    if results == [] then []
    else Harvest(results[..|results| - 1], name) + Keep(results[|results| - 1], name)
  }

  /** The scrape of an address: the record of the page there, or None. */
  type Scrape = string -> Option<Article>

  function ScrapeOf(fetch: Fetch, base: string, now: string, older: bool): Scrape {
    u => ArticleAt(fetch, u, base, now, older)
  }

  /** A scrape whose records carry the address they were scraped from. */
  ghost predicate KeepsUrl(scrape: Scrape) {
    forall u :: scrape(u).Some? ==> scrape(u).value.url == u
  }

  lemma ScrapeOfKeepsUrl(fetch: Fetch, base: string, now: string, older: bool)
    ensures KeepsUrl(ScrapeOf(fetch, base, now, older))
  {
    forall u | ScrapeOf(fetch, base, now, older)(u).Some?
      ensures ScrapeOf(fetch, base, now, older)(u).value.url == u
    {
      assert ScrapeOf(fetch, base, now, older)(u) == ArticleAt(fetch, u, base, now, older);
    }
  }

  /** The scrape of each address, in order. */
  function Scraped(scrape: Scrape, urls: seq<string>): (r: seq<Option<Article>>)
    ensures |r| == |urls|
    decreases |urls|
  {
    if urls == [] then []
    else Scraped(scrape, urls[..|urls| - 1]) + [scrape(urls[|urls| - 1])]
  }

  /** The article addresses tried for a category: its crawl, cut to the article limit. */
  function CategoryUrls(fetch: Fetch, cat: Category, maxPages: int, maxArticles: int): seq<string> {
    Take(ArticleUrls(fetch, cat.url, maxPages), maxArticles)
  }

  /** The records a category yields. */
  function CategoryRecords(fetch: Fetch, scrape: Scrape, cat: Category, maxPages: int, maxArticles: int): seq<Article> {
    Harvest(Scraped(scrape, CategoryUrls(fetch, cat, maxPages, maxArticles)), cat.name)
  }

  function RunCategories(fetch: Fetch, scrape: Scrape, cats: seq<Category>, maxPages: int, maxArticles: int): seq<Article>
    decreases |cats|
  {
    if cats == [] then []
    else
      RunCategories(fetch, scrape, cats[..|cats| - 1], maxPages, maxArticles)
        + CategoryRecords(fetch, scrape, cats[|cats| - 1], maxPages, maxArticles)
  }

  /** Every record the run keeps, in order. */
  function Run(fetch: Fetch, base: string, scrape: Scrape, maxCategories: int, maxPages: int, maxArticles: int): seq<Article> {
    RunCategories(fetch, scrape, Take(CategoryList(fetch, base), maxCategories), maxPages, maxArticles)
  }

  /** Each kept record has a title, names the category, and is the record of one of the scrapes. */
  lemma {:induction false} HarvestShape(results: seq<Option<Article>>, name: string)
    ensures |Harvest(results, name)| <= |results|
    ensures forall a :: a in Harvest(results, name) ==>
      a.title != "" && a.source == Some(name) && exists i :: 0 <= i < |results| && results[i].Some? && a == results[i].value.(source := Some(name))
    ensures forall i :: 0 <= i < |results| && results[i].Some? && results[i].value.title != "" ==>
      results[i].value.(source := Some(name)) in Harvest(results, name)
    decreases |results|
  {
    if results != [] {
      var init := results[..|results| - 1];
      var last := results[|results| - 1];
      HarvestShape(init, name);
      assert Harvest(results, name) == Harvest(init, name) + Keep(last, name);
      forall a | a in Harvest(results, name)
        ensures exists i :: 0 <= i < |results| && results[i].Some? && a == results[i].value.(source := Some(name))
      {
        if a in Harvest(init, name) {
          var i :| 0 <= i < |init| && init[i].Some? && a == init[i].value.(source := Some(name));
          assert results[i] == init[i];
        } else {
          assert a in Keep(last, name);
          assert results[|results| - 1] == last;
        }
      }
      forall i | 0 <= i < |results| && results[i].Some? && results[i].value.title != ""
        ensures results[i].value.(source := Some(name)) in Harvest(results, name)
      {
        if i < |init| {
          assert init[i] == results[i];
        } else {
          assert results[i].value.(source := Some(name)) in Keep(last, name);
        }
      }
    }
  }

  /** The `i`-th scrape is of the `i`-th address. */
  lemma {:induction false} ScrapedUrls(scrape: Scrape, urls: seq<string>)
    requires KeepsUrl(scrape)
    ensures forall i :: 0 <= i < |urls| && Scraped(scrape, urls)[i].Some? ==> Scraped(scrape, urls)[i].value.url == urls[i]
    decreases |urls|
  {
    if urls != [] {
      var init := urls[..|urls| - 1];
      ScrapedUrls(scrape, init);
      var r := Scraped(scrape, urls);
      assert r == Scraped(scrape, init) + [scrape(urls[|urls| - 1])];
      forall i | 0 <= i < |urls| - 1 ensures r[i] == Scraped(scrape, init)[i] && urls[i] == init[i] {
      }
    }
  }

  /** Every record of a category has a title, comes from one of the addresses tried and names the category. */
  lemma CategoryRecordsShape(fetch: Fetch, scrape: Scrape, cat: Category, maxPages: int, maxArticles: int)
    requires maxArticles >= 0 && KeepsUrl(scrape)
    ensures |CategoryRecords(fetch, scrape, cat, maxPages, maxArticles)| <= maxArticles
    ensures forall a :: a in CategoryRecords(fetch, scrape, cat, maxPages, maxArticles) ==>
      a.title != "" && a.source == Some(cat.name) && a.url in CategoryUrls(fetch, cat, maxPages, maxArticles)
  {
    var urls := CategoryUrls(fetch, cat, maxPages, maxArticles);
    var results := Scraped(scrape, urls);
    HarvestShape(results, cat.name);
    ScrapedUrls(scrape, urls);
  }

  /**
   * At most `maxArticles` records per category; each record has a title and
   * names one of the categories tried.
   */
  lemma {:induction false} RunCategoriesShape(fetch: Fetch, scrape: Scrape, cats: seq<Category>, maxPages: int, maxArticles: int)
    requires maxArticles >= 0 && KeepsUrl(scrape)
    ensures |RunCategories(fetch, scrape, cats, maxPages, maxArticles)| <= |cats| * maxArticles
    ensures forall a :: a in RunCategories(fetch, scrape, cats, maxPages, maxArticles) ==>
      a.title != "" && exists c :: c in cats && a.source == Some(c.name)
    decreases |cats|
  {
    if cats != [] {
      var init := cats[..|cats| - 1];
      var c := cats[|cats| - 1];
      var before := RunCategories(fetch, scrape, init, maxPages, maxArticles);
      var last := CategoryRecords(fetch, scrape, c, maxPages, maxArticles);
      assert RunCategories(fetch, scrape, cats, maxPages, maxArticles) == before + last;
      SplitLast(cats);
      RunCategoriesShape(fetch, scrape, init, maxPages, maxArticles);
      CategoryRecordsShape(fetch, scrape, c, maxPages, maxArticles);
      assert |before + last| <= |cats| * maxArticles by {
        MulStep(|init|, maxArticles);
      }
      SourcesAppend(before, last, init, c);
    }
  }

  lemma SplitLast<T>(s: seq<T>)
    requires s != []
    ensures s == s[..|s| - 1] + [s[|s| - 1]]
  {
  }

  /** Records tagged with earlier categories followed by records of one more category are tagged with a category of the longer list. */
  lemma SourcesAppend(before: seq<Article>, last: seq<Article>, init: seq<Category>, c: Category)
    requires forall a :: a in before ==> a.title != "" && exists x :: x in init && a.source == Some(x.name)
    requires forall a :: a in last ==> a.title != "" && a.source == Some(c.name)
    ensures forall a :: a in before + last ==> a.title != "" && exists x :: x in init + [c] && a.source == Some(x.name)
  {
    forall a | a in before + last ensures a.title != "" && exists x :: x in init + [c] && a.source == Some(x.name) {
      if a in before {
        var x :| x in init && a.source == Some(x.name);
        assert x in init + [c];
      } else {
        assert c in init + [c];
      }
    }
  }

  lemma RunStep(fetch: Fetch, scrape: Scrape, cats: seq<Category>, i: nat, maxPages: int, maxArticles: int)
    requires i < |cats|
    ensures RunCategories(fetch, scrape, cats[..i + 1], maxPages, maxArticles)
      == RunCategories(fetch, scrape, cats[..i], maxPages, maxArticles) + CategoryRecords(fetch, scrape, cats[i], maxPages, maxArticles)
  {
    assert cats[..i + 1][..i] == cats[..i];
  }

  lemma MulStep(n: nat, m: int)
    ensures (n + 1) * m == n * m + m
  {
  }

  lemma MulMono(a: int, b: int, m: int)
    requires 0 <= a <= b && m >= 0
    ensures a * m <= b * m
  {
  }

  /** The run's bound: no more records than categories times articles, each titled and tagged with a tried category. */
  lemma RunShape(fetch: Fetch, base: string, now: string, older: bool, maxCategories: int, maxPages: int, maxArticles: int)
    requires maxCategories >= 0 && maxArticles >= 0
    ensures var run := Run(fetch, base, ScrapeOf(fetch, base, now, older), maxCategories, maxPages, maxArticles);
      |run| <= maxCategories * maxArticles
      && forall a :: a in run ==> a.title != "" && exists c :: c in Take(CategoryList(fetch, base), maxCategories) && a.source == Some(c.name)
  {
    var cats := Take(CategoryList(fetch, base), maxCategories);
    ScrapeOfKeepsUrl(fetch, base, now, older);
    RunCategoriesShape(fetch, ScrapeOf(fetch, base, now, older), cats, maxPages, maxArticles);
    MulMono(|cats|, maxCategories, maxArticles);
  }

  /** One more address adds what its scrape keeps. */
  lemma HarvestStep(scrape: Scrape, urls: seq<string>, j: nat, name: string)
    requires j < |urls|
    ensures Harvest(Scraped(scrape, urls[..j + 1]), name) == Harvest(Scraped(scrape, urls[..j]), name) + Keep(scrape(urls[j]), name)
  {
    assert urls[..j + 1][..j] == urls[..j];
    var before := Scraped(scrape, urls[..j]);
    assert Scraped(scrape, urls[..j + 1]) == before + [scrape(urls[j])];
    assert (before + [scrape(urls[j])])[..|before|] == before;
  }

  /** The loop over a category's addresses: each article scraped, and kept when it has a title. */
  method ScrapeCategory(fetch: Fetch, urls: seq<string>, base: string, now: string, older: bool, name: string) returns (got: seq<Article>)
    ensures got == Harvest(Scraped(ScrapeOf(fetch, base, now, older), urls), name)
  {
    ghost var scrape := ScrapeOf(fetch, base, now, older);
    got := [];
    var j := 0;
    while j < |urls|
      invariant 0 <= j <= |urls|
      invariant got == Harvest(Scraped(scrape, urls[..j]), name)
    {
      var article := ScrapeArticle(fetch, urls[j], base, now, older);
      assert scrape(urls[j]) == article;
      HarvestStep(scrape, urls, j, name);
      if article.Some? && article.value.title != "" {
        got := got + [article.value.(source := Some(name))];
      }
      j := j + 1;
    }
    assert urls[..j] == urls;
  }

  /** `run_scraper`: the records it yields, the categories processed and the articles counted. */
  method RunScraper(fetch: Fetch, base: string, now: string, maxCategories: int, maxPages: int, maxArticles: int)
    returns (yielded: seq<Article>, processed: nat, total: nat)
    ensures yielded == Run(fetch, base, ScrapeOf(fetch, base, now, false), maxCategories, maxPages, maxArticles)
    ensures total == |yielded|
    ensures processed == |Take(CategoryList(fetch, base), maxCategories)|
  {
    ghost var scrape := ScrapeOf(fetch, base, now, false);
    yielded, processed, total := [], 0, 0;
    var categories := GetCategoriesList(fetch, base);
    if categories == [] {
      return;
    }
    var cats := Take(categories, maxCategories);
    var i := 0;
    while i < |cats|
      invariant 0 <= i <= |cats|
      invariant yielded == RunCategories(fetch, scrape, cats[..i], maxPages, maxArticles)
      invariant total == |yielded| && processed == i
    {
      RunStep(fetch, scrape, cats, i, maxPages, maxArticles);
      var category := cats[i];
      var urls := GetArticlesFromCategory(fetch, category.url, maxPages);
      urls := Take(urls, maxArticles);
      var got := ScrapeCategory(fetch, urls, base, now, false, category.name);
      yielded := yielded + got;
      total := total + |got|;
      processed := processed + 1;
      i := i + 1;
    }
    assert cats[..i] == cats;
  }
}
