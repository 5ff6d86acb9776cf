// The table-of-contents extractor (`extract_table_of_contents`): the link
// titles of the site's own summary widget, else of the first generic
// table-of-contents widget that has links.

module Toc {
  import opened Text
  import opened Dom

  /** The three generic widgets, each as `W ol li a, W ul li a`. */
  const Fallbacks: seq<seq<Selector>> := [
    ListLinks("table-of-contents"),
    ListLinks("toc"),
    ListLinks("wp-block-table-of-contents")
  ]

  function ListLinks(widget: string): seq<Selector> {
    [[Class(widget), Tag("ol"), Tag("li"), Tag("a")], [Class(widget), Tag("ul"), Tag("li"), Tag("a")]]
  }

  /** A link's title: its stripped text with the two entity texts decoded. */
  function Title(link: Located): string {
    Replace(Replace(GetText(link.node), "&nbsp;", " "), "&amp;", "&")
  }

  /** The non-empty titles of `links`, in order. */
  function Titles(links: seq<Located>): (r: seq<string>)
    ensures forall k :: 0 <= k < |r| ==> r[k] != ""
    ensures forall k :: 0 <= k < |r| ==> exists j :: 0 <= j < |links| && Title(links[j]) == r[k]
    ensures forall j :: 0 <= j < |links| && Title(links[j]) != "" ==> Title(links[j]) in r
    decreases |links|
  {
    if links == [] then []
    else
      var init := links[..|links| - 1];
      var last := links[|links| - 1];
      var acc := Titles(init);
      assert forall j :: 0 <= j < |init| ==> init[j] == links[j];
      if Title(last) != "" then acc + [Title(last)] else acc
  }

  /** The link of a widget item (`li.find('a')`): its first `a` descendant. */
  function ItemLink(li: Located): Option<Located> {
    SelectOne(li, One(Tag("a")))
  }

  predicate LinkTitled(item: Located, title: string) {
    ItemLink(item).Some? && Title(ItemLink(item).value) == title
  }

  /** The widget's titles: for each item, its link's title when it has a link and the title is non-empty. */
  function ItemTitles(items: seq<Located>): (r: seq<string>)
    ensures forall k :: 0 <= k < |r| ==> r[k] != ""
    ensures forall k :: 0 <= k < |r| ==> exists j :: 0 <= j < |items| && LinkTitled(items[j], r[k])
    ensures forall j :: 0 <= j < |items| && ItemLink(items[j]).Some? && Title(ItemLink(items[j]).value) != "" ==>
      Title(ItemLink(items[j]).value) in r
    decreases |items|
  {
    if items == [] then []
    else
      var init := items[..|items| - 1];
      var link := ItemLink(items[|items| - 1]);
      var acc := ItemTitles(init);
      assert forall j :: 0 <= j < |init| ==> init[j] == items[j];
      if link.Some? && Title(link.value) != "" then
        var r := acc + [Title(link.value)];
        assert forall k :: 0 <= k < |acc| ==> r[k] == acc[k];
        assert LinkTitled(items[|items| - 1], r[|acc|]);
        r
      else acc
  }

  /** The site's widget list: `.summary-inner` inside the first `.summary-section`, if both exist. */
  function Widget(root: Node): Option<Located> {
    match SelectOne(DocLoc(root), One(Class("summary-section")))
    case None => None
    case Some(section) => SelectOne(section, One(Class("summary-inner")))
  }

  /** The generic widgets tried in turn; the first with links answers, even with no non-empty title. */
  function FromFallbacks(root: Node, groups: seq<seq<Selector>>): seq<string>
    decreases |groups|
  {
    if groups == [] then []
    else
      var links := Select(DocLoc(root), groups[0]);
      if links != [] then Titles(links) else FromFallbacks(root, groups[1..])
  }

  /** The table of contents with the given fallback widgets. */
  function TableOfContents(root: Node, fallbacks: seq<seq<Selector>>): seq<string> {
    match Widget(root)
    case Some(list) => ItemTitles(Select(list, One(Tag("li"))))
    case None => FromFallbacks(root, fallbacks)
  }

  /** No title of the table of contents is empty. */
  lemma {:induction false} TitlesNonEmpty(root: Node, fallbacks: seq<seq<Selector>>)
    ensures forall k :: 0 <= k < |TableOfContents(root, fallbacks)| ==> TableOfContents(root, fallbacks)[k] != ""
    decreases |fallbacks|
  {
    if Widget(root).None? && fallbacks != [] && Select(DocLoc(root), fallbacks[0]) == [] {
      TitlesNonEmpty(root, fallbacks[1..]);
      assert TableOfContents(root, fallbacks) == TableOfContents(root, fallbacks[1..]);
    }
  }

  /** With the site's widget present the generic widgets are never consulted. */
  lemma WidgetPreempts(root: Node, f1: seq<seq<Selector>>, f2: seq<seq<Selector>>)
    requires Widget(root).Some?
    ensures TableOfContents(root, f1) == TableOfContents(root, f2)
  {
  }

  /** Without the site's widget, the first generic widget that has links decides. */
  lemma {:induction false} FirstFallbackWins(root: Node, groups: seq<seq<Selector>>, k: nat)
    requires k < |groups| && Select(DocLoc(root), groups[k]) != []
    requires forall j :: 0 <= j < k ==> Select(DocLoc(root), groups[j]) == []
    ensures FromFallbacks(root, groups) == Titles(Select(DocLoc(root), groups[k]))
    decreases k
  {
    if k > 0 {
      forall j | 0 <= j < k - 1 ensures Select(DocLoc(root), groups[1..][j]) == [] {
        assert groups[1..][j] == groups[j + 1];
      }
      FirstFallbackWins(root, groups[1..], k - 1);
    }
  }

  /** The loop over the widget's list items: each item's link title, when non-empty. */
  method CollectItemTitles(items: seq<Located>) returns (toc: seq<string>)
    ensures toc == ItemTitles(items)
  {
    toc := [];
    var j := 0;
    while j < |items|
      invariant 0 <= j <= |items|
      invariant toc == ItemTitles(items[..j])
    {
      assert items[..j + 1][..j] == items[..j];
      var link := ItemLink(items[j]);
      if link.Some? {
        var title := Title(link.value);
        if title != "" {
          toc := toc + [title];
        }
      }
      j := j + 1;
    }
    assert items[..j] == items;
  }

  /** The loop over a generic widget's links: each non-empty title. */
  method CollectTitles(links: seq<Located>) returns (toc: seq<string>)
    ensures toc == Titles(links)
  {
    toc := [];
    var j := 0;
    while j < |links|
      invariant 0 <= j <= |links|
      invariant toc == Titles(links[..j])
    {
      assert links[..j + 1][..j] == links[..j];
      var title := Title(links[j]);
      if title != "" {
        toc := toc + [title];
      }
      j := j + 1;
    }
    assert links[..j] == links;
  }

  /** `extract_table_of_contents`: the widget's items, else the first generic widget with links. */
  method ExtractTableOfContents(soup: Soup) returns (toc: seq<string>)
    ensures toc == TableOfContents(soup.root, Fallbacks)
  {
    var widget := Widget(soup.root);
    if widget.Some? {
      toc := CollectItemTitles(Select(widget.value, One(Tag("li"))));
      return;
    }
    var i := 0;
    while i < |Fallbacks|
      invariant 0 <= i <= |Fallbacks|
      invariant FromFallbacks(soup.root, Fallbacks) == FromFallbacks(soup.root, Fallbacks[i..])
    {
      assert Fallbacks[i..][0] == Fallbacks[i] && Fallbacks[i..][1..] == Fallbacks[i + 1..];
      var links := Select(soup.Scope(), Fallbacks[i]);
      if links != [] {
        toc := CollectTitles(links);
        return;
      }
      i := i + 1;
    }
    toc := [];
  }
}
