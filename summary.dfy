// The summary extractor (`extract_summary`): the first excerpt-like element or
// description meta tag that exists, else the first paragraph of the body.

module Summary {
  import opened Text
  import opened Dom

  /** Where a summary may come from: an element's text, or a meta tag's `content`. */
  datatype Source = TextOf(sel: seq<Selector>) | ContentOf(sel: seq<Selector>)

  const Sources: seq<Source> := [
    TextOf(One(Class("entry-excerpt"))),
    TextOf(One(Class("post-excerpt"))),
    TextOf(One(Class("article-excerpt"))),
    TextOf(One(Class("summary"))),
    ContentOf(One(TagAttrIs("meta", "name", "description"))),
    ContentOf(One(TagAttrIs("meta", "property", "og:description")))
  ]

  /** The paragraph fallback: a `p` in the body, whichever of the three it is in first. */
  const FirstParagraph: seq<Selector> := [
    [Class("entry-content"), Tag("p")],
    [Class("post-content"), Tag("p")],
    [Tag("article"), Tag("p")]
  ]

  const MaxSummary: nat := 300

  /** What one source answers: nothing when its selector matches nothing, else its (possibly empty) text. */
  function Answer(root: Node, src: Source): (r: Option<string>)
    ensures r.Some? <==> SelectOne(DocLoc(root), src.sel).Some?
  {
    match SelectOne(DocLoc(root), src.sel)
    case None => None
    case Some(at) =>
      if src.TextOf? then Some(GetText(at.node)) else Some(Strip(GetOr(at.node, "content", "")))
  }

  /** The sources tried in turn; the first that matches answers. */
  function FromSources(root: Node, srcs: seq<Source>): Option<string>
    decreases |srcs|
  {
    if srcs == [] then None
    else
      match Answer(root, srcs[0])
      case Some(t) => Some(t)
      case None => FromSources(root, srcs[1..])
  }

  /** A source answers with the first source that matches, even with an empty text. */
  lemma {:induction false} FirstMatchWins(root: Node, srcs: seq<Source>, k: nat)
    requires k < |srcs| && Answer(root, srcs[k]).Some?
    requires forall j :: 0 <= j < k ==> Answer(root, srcs[j]).None?
    ensures FromSources(root, srcs) == Answer(root, srcs[k])
    decreases k
  {
    if k > 0 {
      forall j | 0 <= j < k - 1 ensures Answer(root, srcs[1..][j]).None? {
        assert srcs[1..][j] == srcs[j + 1];
      }
      FirstMatchWins(root, srcs[1..], k - 1);
    }
  }

  /** When no source matches, the sources give nothing. */
  lemma {:induction false} NoMatchNoAnswer(root: Node, srcs: seq<Source>)
    requires forall j :: 0 <= j < |srcs| ==> Answer(root, srcs[j]).None?
    ensures FromSources(root, srcs) == None
    decreases |srcs|
  {
    if srcs != [] {
      forall j | 0 <= j < |srcs| - 1 ensures Answer(root, srcs[1..][j]).None? {
        assert srcs[1..][j] == srcs[j + 1];
      }
      NoMatchNoAnswer(root, srcs[1..]);
    }
  }

  /** A paragraph longer than 300 characters is cut to 300 and marked with an ellipsis. */
  function Truncate(text: string): (r: string)
    ensures |text| <= MaxSummary ==> r == text
    ensures |text| > MaxSummary ==> |r| == MaxSummary + 3 && r[..MaxSummary] == text[..MaxSummary] && r[MaxSummary..] == "..."
  {
    if |text| > MaxSummary then text[..MaxSummary] + "..." else text
  }

  /** What `extract_summary` returns. */
  function SummaryText(root: Node): string {
    match FromSources(root, Sources)
    case Some(t) => t
    case None =>
      match SelectOne(DocLoc(root), FirstParagraph)
      case Some(p) => Truncate(GetText(p.node))
      case None => ""
  }

  /** The older variant keeps the first paragraph only when it is longer than 50 characters. */
  function SummaryTextOlder(root: Node): string {
    match FromSources(root, Sources)
    case Some(t) => t
    case None =>
      match SelectOne(DocLoc(root), FirstParagraph)
      case Some(p) => if |GetText(p.node)| > 50 then Truncate(GetText(p.node)) else ""
      case None => ""
  }

  /**
   * The result, when no source matches, is the first body paragraph's text,
   * at most 303 characters, and unchanged when it is at most 300; with no
   * paragraph it is empty.
   */
  lemma ParagraphFallback(root: Node)
    requires forall j :: 0 <= j < |Sources| ==> Answer(root, Sources[j]).None?
    ensures SelectOne(DocLoc(root), FirstParagraph).None? ==> SummaryText(root) == ""
    ensures SelectOne(DocLoc(root), FirstParagraph).Some? ==>
      var t := GetText(SelectOne(DocLoc(root), FirstParagraph).value.node);
      |SummaryText(root)| <= MaxSummary + 3 && (|t| <= MaxSummary ==> SummaryText(root) == t)
  {
    NoMatchNoAnswer(root, Sources);
  }

  /** The older variant gives the same result except that it drops paragraphs of at most 50 characters. */
  lemma LegacyParagraph(root: Node)
    ensures FromSources(root, Sources).Some? ==> SummaryTextOlder(root) == SummaryText(root)
    ensures FromSources(root, Sources).None? && SelectOne(DocLoc(root), FirstParagraph).Some? ==>
      var t := GetText(SelectOne(DocLoc(root), FirstParagraph).value.node);
      SummaryTextOlder(root) == (if |t| > 50 then SummaryText(root) else "")
  {
  }

  /** A description meta tag answers with its stripped `content`, or the empty string when it has none. */
  lemma MetaAnswer(root: Node, sel: seq<Selector>)
    requires SelectOne(DocLoc(root), sel).Some?
    ensures var n := SelectOne(DocLoc(root), sel).value.node;
      Answer(root, ContentOf(sel)) == Some(if "content" in n.attrs then Strip(n.attrs["content"]) else "")
  {
  }

  // ---------------------------------------------------------------------------
  // The extractor
  // ---------------------------------------------------------------------------

  /** The selector loop: the first source that matches answers with its text or `content`. */
  method FirstSource(soup: Soup) returns (answer: Option<string>)
    ensures answer == FromSources(soup.root, Sources)
  {
    var i := 0;
    while i < |Sources|
      invariant 0 <= i <= |Sources|
      invariant FromSources(soup.root, Sources) == FromSources(soup.root, Sources[i..])
    {
      assert Sources[i..][0] == Sources[i] && Sources[i..][1..] == Sources[i + 1..];
      var element := SelectOne(soup.Scope(), Sources[i].sel);
      if element.Some? {
        if Sources[i].ContentOf? {
          return Some(Strip(GetOr(element.value.node, "content", "")));
        }
        return Some(GetText(element.value.node));
      }
      i := i + 1;
    }
    return None;
  }

  /** `extract_summary`: the sources, else the first paragraph, cut to 300 characters. */
  method ExtractSummary(soup: Soup) returns (summary: string)
    ensures summary == SummaryText(soup.root)
  {
    var answer := FirstSource(soup);
    if answer.Some? {
      return answer.value;
    }
    var first := SelectOne(soup.Scope(), FirstParagraph);
    if first.Some? {
      return Truncate(GetText(first.value.node));
    }
    return "";
  }

  /** The older `extract_summary`: a paragraph of 50 characters or fewer is not used. */
  method ExtractSummaryOlder(soup: Soup) returns (summary: string)
    ensures summary == SummaryTextOlder(soup.root)
  {
    var answer := FirstSource(soup);
    if answer.Some? {
      return answer.value;
    }
    var first := SelectOne(soup.Scope(), FirstParagraph);
    if first.Some? {
      var text := GetText(first.value.node);
      if |text| > 50 {
        return Truncate(text);
      }
    }
    return "";
  }
}
