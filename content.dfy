// The article body extractor (`extract_article_content`): find the content
// region, strip noise from it in place, turn its block elements into text
// blocks, suppress duplicates, join them with blank lines and tidy the result.

module Content {
  import opened Text
  import opened Dom

  /** The places the body is looked for, in priority order. */
  const Regions: seq<seq<Selector>> := [
    One(Class("entry-content")),
    One(Class("post-content")),
    [[Tag("article"), Class("content")]],
    [[Tag("main"), Tag("article")]],
    One(Class("article-content"))
  ]

  /**
   * The removal list. It is passed as a list of names, which the parser
   * compares with tag names only, so the entries written like class or id
   * selectors never match anything.
   */
  const NoiseNames: seq<string> := [
    "script", "style", "aside", ".related-posts", ".social-share",
    ".social-catchphrase", "noscript", ".sharing-button", ".comments-section", "#section-meta"
  ]

  /** Links with one of these classes are buttons and are removed. */
  const ButtonClasses: seq<string> := ["btn", "featured-link", "external"]

  const Headings: seq<string> := ["h1", "h2", "h3", "h4", "h5", "h6"]

  /** The elements the walk turns into blocks, in one document-order pass. */
  const BlockTags: seq<string> := ["p", "h1", "h2", "h3", "h4", "h5", "h6", "ul", "ol", "li", "blockquote", "div"]

  /** A `div` with one of these below it yields nothing itself. */
  const NestedTags: seq<string> := ["p", "h1", "h2", "h3", "h4", "h5", "h6", "ul", "ol", "div"]

  const Bullet: string := "\U{2022} "

  function Buttons(): (g: seq<Simple>)
    ensures |g| == |ButtonClasses| && forall i :: 0 <= i < |g| ==> g[i] == TagClass("a", ButtonClasses[i])
  {
    seq(|ButtonClasses|, i requires 0 <= i < |ButtonClasses| => TagClass("a", ButtonClasses[i]))
  }

  // ---------------------------------------------------------------------------
  // One element's block
  // ---------------------------------------------------------------------------

  function ParentName(at: Located): string {
    match Parent(at)
    case Some(Element(name, _, _, _)) => name
    case _ => ""
  }

  /** An item long enough for the list rule. */
  predicate BigItem(n: Node) { n.Element? && n.name == "li" && |GetText(n)| > 5 }

  /** The bullet lines of a list: its `li` children whose text is longer than 5. */
  function ListItems(items: seq<Located>): (r: seq<string>)
    decreases |items|
  {
    if items == [] then []
    else
      var rest := ListItems(items[1..]);
      var li := items[0].node;
      if BigItem(li) then [Bullet + GetText(li)] + rest else rest
  }

  /** The text an element contributes before the retention test (`text` in the loop). */
  function Raw(at: Located): string {
    var n := at.node;
    if n.TextNode? then ""
    else if n.name in Headings then "\n## " + GetText(n) + "\n"
    else if n.name == "p" then GetText(n)
    else if n.name in ["ul", "ol"] then Join(ListItems(Children(at)), "\n")
    else if n.name == "li" && ParentName(at) !in ["ul", "ol"] then
      (if GetText(n) != "" then Bullet + GetText(n) else "")
    else if n.name == "blockquote" then
      (if GetText(n) != "" then "\"" + GetText(n) + "\"" else "")
    else if n.name == "div" && First(Descendants(at), Names(NestedTags)).None? then
      (if GetText(n) != "" && |GetText(n)| > 10 then GetText(n) else "")
    else ""
  }

  predicate NoTab(s: string) { forall i :: 0 <= i < |s| ==> s[i] != '\t' }

  /** Whitespace runs become one space, then the two entity texts are decoded. */
  function Normalize(raw: string): (r: string)
    ensures Strip(raw) != [] ==> r != []
    ensures NoNewline(r) && NoTab(r)
  {
    var t := CollapseSpace(Strip(raw));
    assert forall i :: 0 <= i < |t| ==> t[i] != '\n' && t[i] != '\t' by {
      forall i | 0 <= i < |t| ensures t[i] != '\n' && t[i] != '\t' {
        assert IsSpace('\n') && IsSpace('\t');
      }
    }
    var u := Replace(t, "&nbsp;", " ");
    ReplaceChars(t, "&nbsp;", " ");
    ReplaceChars(u, "&amp;", "&");
    Replace(u, "&amp;", "&")
  }

  /** A text is kept when its stripped form is longer than 3 characters. */
  function Block(raw: string): (r: Option<string>)
    ensures r.Some? ==> r.value != [] && NoNewline(r.value) && NoTab(r.value)
  {
    if raw != "" && |Strip(raw)| > 3 then Some(Normalize(raw)) else None
  }

  /** The blocks the elements yield, in order, before duplicate suppression. */
  function Kept(els: seq<Located>): (r: seq<string>)
    ensures forall k :: 0 <= k < |r| ==> r[k] != [] && NoNewline(r[k]) && NoTab(r[k])
    decreases |els|
  {
    if els == [] then []
    else
      var rest := Kept(els[..|els| - 1]);
      match Block(Raw(els[|els| - 1]))
      case Some(b) => rest + [b]
      case None => rest
  }

  /** `content_parts` after the walk over `els`: each new block appended unless already present. */
  function Parts(els: seq<Located>): (r: seq<string>)
    ensures NoDup(r)
    ensures forall k :: 0 <= k < |r| ==> r[k] != [] && NoNewline(r[k]) && NoTab(r[k])
    decreases |els|
  {
    if els == [] then []
    else
      var acc := Parts(els[..|els| - 1]);
      match Block(Raw(els[|els| - 1]))
      case Some(b) =>
        assert NoDup(AddNew(acc, b)) by {
          if b !in acc {
            forall i, j | 0 <= i < j < |acc| + 1 ensures (acc + [b])[i] != (acc + [b])[j] {
              if j == |acc| { assert (acc + [b])[i] == acc[i]; }
            }
          }
        }
        AddNew(acc, b)
      case None => acc
  }

  /** The walk keeps, in order of first appearance, each distinct block the elements yield. */
  lemma {:induction false} PartsAreDistinctBlocks(els: seq<Located>)
    ensures Parts(els) == Dedup(Kept(els))
    decreases |els|
  {
    if els != [] {
      var init := els[..|els| - 1];
      PartsAreDistinctBlocks(init);
      match Block(Raw(els[|els| - 1]))
      case Some(b) =>
        var ks := Kept(els);
        assert ks == Kept(init) + [b];
        assert ks[..|ks| - 1] == Kept(init);
      case None =>
    }
  }

  // ---------------------------------------------------------------------------
  // Retention rules
  // ---------------------------------------------------------------------------

  /** Stripping keeps at least a stripped, non-empty head that starts the string. */
  lemma StripKeepsHead(x: string, y: string)
    requires x != [] && IsStripped(x)
    ensures |Strip(x + y)| >= |x|
  {
    var s := x + y;
    assert s[0] == x[0] && s[|x| - 1] == x[|x| - 1];
    assert TrimLeft(s) == s;
    TrimRightKeeps(s, |x| - 1);
  }

  lemma ListRaw(items: seq<string>, t: string)
    requires items != [] && items[0] == Bullet + t && IsStripped(t) && |t| > 5
    ensures |Strip(Join(items, "\n"))| > 3
  {
    var x := Bullet + t;
    assert x[0] == '\U{2022}' && x[|x| - 1] == t[|t| - 1];
    if |items| == 1 {
      assert Join(items, "\n") == x + [];
      StripKeepsHead(x, []);
    } else {
      assert Join(items, "\n") == x + ("\n" + Join(items[1..], "\n"));
      StripKeepsHead(x, "\n" + Join(items[1..], "\n"));
    }
  }

  /** A list has a bullet line exactly when it has a big item, and its first line is one. */
  lemma {:induction false} ListItemsFirst(items: seq<Located>)
    ensures ListItems(items) != [] <==> exists k :: 0 <= k < |items| && BigItem(items[k].node)
    ensures ListItems(items) != [] ==>
      exists k :: 0 <= k < |items| && BigItem(items[k].node) && ListItems(items)[0] == Bullet + GetText(items[k].node)
    decreases |items|
  {
    if items != [] {
      var rest := items[1..];
      ListItemsFirst(rest);
      if exists k :: 0 <= k < |rest| && BigItem(rest[k].node) {
        var k :| 0 <= k < |rest| && BigItem(rest[k].node);
        assert items[k + 1] == rest[k];
      }
      if !BigItem(items[0].node) && ListItems(rest) != [] {
        var k :| 0 <= k < |rest| && BigItem(rest[k].node) && ListItems(rest)[0] == Bullet + GetText(rest[k].node);
        assert items[k + 1] == rest[k];
      }
      if exists k :: 0 <= k < |items| && BigItem(items[k].node) {
        var k :| 0 <= k < |items| && BigItem(items[k].node);
        if k > 0 { assert rest[k - 1] == items[k]; }
      }
    }
  }

  /** A heading yields a block exactly when its text is non-empty. */
  lemma HeadingRule(at: Located)
    requires at.node.Element? && at.node.name in Headings
    ensures Block(Raw(at)).Some? <==> GetText(at.node) != []
  {
    GetTextStripped(at.node);
    StripHeading(GetText(at.node));
  }

  /** A paragraph yields a block exactly when its text is longer than 3. */
  lemma ParagraphRule(at: Located)
    requires at.node.Element? && at.node.name == "p"
    ensures Block(Raw(at)).Some? <==> |GetText(at.node)| > 3
  {
    var t := GetText(at.node);
    assert at.node.name !in Headings;
    assert Raw(at) == t;
    GetTextStripped(at.node);
    StrippedBlock(t);
  }

  /** Stripped text makes a block exactly when it is longer than 3. */
  lemma StrippedBlock(t: string)
    requires IsStripped(t)
    ensures Block(t).Some? <==> |t| > 3
  {
    StripStripped(t);
  }

  /** A list yields a block exactly when one of its own items has text longer than 5. */
  lemma ListRule(at: Located)
    requires at.node.Element? && at.node.name in ["ul", "ol"]
    ensures Block(Raw(at)).Some? <==> exists k :: 0 <= k < |at.node.children| && BigItem(at.node.children[k])
  {
    var n := at.node;
    var kids := Children(at);
    assert n.name !in Headings && n.name != "p";
    assert Raw(at) == Join(ListItems(kids), "\n");
    ListItemsFirst(kids);
    if ListItems(kids) != [] {
      var k :| 0 <= k < |kids| && BigItem(kids[k].node) && ListItems(kids)[0] == Bullet + GetText(kids[k].node);
      GetTextStripped(kids[k].node);
      ListRaw(ListItems(kids), GetText(kids[k].node));
    }
    if exists k :: 0 <= k < |n.children| && BigItem(n.children[k]) {
      var k :| 0 <= k < |n.children| && BigItem(n.children[k]);
      assert kids[k].node == n.children[k];
    }
  }

  /** A wrapped text (bullet or quotes) is kept exactly when the text has at least 2 characters. */
  lemma WrappedRule(t: string, x: string)
    requires IsStripped(t)
    requires x == (if t != "" then Bullet + t else "") || x == (if t != "" then "\"" + t + "\"" else "")
    ensures Block(x).Some? <==> |t| >= 2
  {
    if t != [] {
      assert !IsSpace(x[0]) && !IsSpace(x[|x| - 1]);
      StripStripped(x);
    }
  }

  /** An item outside a list, or a quote, yields a block exactly when its text has at least 2 characters. */
  lemma ItemRule(at: Located)
    requires at.node.Element? && ((at.node.name == "li" && ParentName(at) !in ["ul", "ol"]) || at.node.name == "blockquote")
    ensures Block(Raw(at)).Some? <==> |GetText(at.node)| >= 2
  {
    GetTextStripped(at.node);
    WrappedRule(GetText(at.node), Raw(at));
  }

  /** A div yields a block exactly when no block element is nested in it and its text is longer than 10. */
  lemma DivRule(at: Located)
    requires at.node.Element? && at.node.name == "div"
    ensures Block(Raw(at)).Some? <==> First(Descendants(at), Names(NestedTags)).None? && |GetText(at.node)| > 10
  {
    var t := GetText(at.node);
    assert at.node.name !in Headings && at.node.name !in ["ul", "ol"];
    GetTextStripped(at.node);
    if First(Descendants(at), Names(NestedTags)).None? {
      assert Raw(at) == if t != "" && |t| > 10 then t else "";
      StrippedBlock(t);
    } else {
      assert Raw(at) == "";
    }
  }

  // ---------------------------------------------------------------------------
  // The region cascade
  // ---------------------------------------------------------------------------

  /** The region after the removals (and, in the older variant, without its first summary box). */
  function Cleaned(region: Node, removeSummary: bool): Node {
    var pruned := Prune(Prune(region, TagsOf(NoiseNames)), Buttons());
    if removeSummary then RemoveFirst(pruned, Class("summary-section")).0 else pruned
  }

  /** The block elements of the cleaned region at `path`, in document order. */
  function BlockElements(root: Node, path: seq<nat>, region: Node): seq<Located> {
    Filter(Descendants(Located(path, AncestorsAt(root, path), region)), Names(BlockTags))
  }

  /** The page after an attempt, and the blocks the attempt collected. */
  datatype Step = Step(root: Node, parts: seq<string>)

  /** One selector's attempt: nothing if it matches nothing, else the page with the region cleaned and its blocks. */
  function TryRegion(root: Node, sel: seq<Selector>, removeSummary: bool): Option<Step> {
    match SelectOne(DocLoc(root), sel)
    case None => None
    case Some(at) =>
      var region := Cleaned(at.node, removeSummary);
      var root' := ReplaceAt(root, at.path, region);
      Some(Step(root', Parts(BlockElements(root', at.path, region))))
  }

  /** An attempt on the page with one selector: nothing, or the page afterwards and the blocks collected. */
  type Attempt = (Node, seq<Selector>) -> Option<Step>

  /** The selectors tried in turn on the changing page until one attempt yields a block. */
  function CascadeWith(root: Node, sels: seq<seq<Selector>>, attempt: Attempt): Step
    decreases |sels|
  {
    if sels == [] then Step(root, [])
    else
      match attempt(root, sels[0])
      case Some(st) => if st.parts != [] then st else CascadeWith(st.root, sels[1..], attempt)
      case None => CascadeWith(root, sels[1..], attempt)
  }

  /** The search of `extract_article_content`, each attempt cleaning and walking the region found. */
  function Cascade(root: Node, sels: seq<seq<Selector>>, removeSummary: bool): Step {
    CascadeWith(root, sels, (r, sel) => TryRegion(r, sel, removeSummary))
  }

  /** Once a selector yields blocks, later selectors are never tried. */
  lemma {:induction false} CascadeCommits(root: Node, sels: seq<seq<Selector>>, more: seq<seq<Selector>>, attempt: Attempt)
    requires CascadeWith(root, sels, attempt).parts != []
    ensures CascadeWith(root, sels + more, attempt) == CascadeWith(root, sels, attempt)
    decreases |sels|
  {
    assert (sels + more)[0] == sels[0] && (sels + more)[1..] == sels[1..] + more;
    match attempt(root, sels[0])
    case Some(st) =>
      if st.parts == [] { CascadeCommits(st.root, sels[1..], more, attempt); }
    case None =>
      CascadeCommits(root, sels[1..], more, attempt);
  }

  /** The attempt with selector `k`, on the page the earlier fruitless attempts left, gives the result. */
  predicate WinsAt(root: Node, sels: seq<seq<Selector>>, attempt: Attempt, k: nat)
    requires k < |sels|
  {
    CascadeWith(root, sels[..k], attempt).parts == []
      && attempt(CascadeWith(root, sels[..k], attempt).root, sels[k]) == Some(CascadeWith(root, sels, attempt))
  }

  /** The page the next attempt sees after selector `sel` yields nothing. */
  function After(root: Node, sel: seq<Selector>, attempt: Attempt): Node {
    match attempt(root, sel)
    case Some(st) => st.root
    case None => root
  }

  /** The attempt with `sel` finds no region, or a region with no block. */
  predicate Fruitless(root: Node, sel: seq<Selector>, attempt: Attempt) {
    attempt(root, sel).None? || attempt(root, sel).value.parts == []
  }

  /** A fruitless first attempt hands its page to the rest of the cascade. */
  lemma CascadeSkip(root: Node, sels: seq<seq<Selector>>, attempt: Attempt)
    requires sels != [] && Fruitless(root, sels[0], attempt)
    ensures CascadeWith(root, sels, attempt) == CascadeWith(After(root, sels[0], attempt), sels[1..], attempt)
  {
  }

  /** A fruitful first attempt is the result. */
  lemma CascadeStop(root: Node, sels: seq<seq<Selector>>, attempt: Attempt)
    requires sels != [] && !Fruitless(root, sels[0], attempt)
    ensures CascadeWith(root, sels, attempt) == attempt(root, sels[0]).value
  {
  }

  /** The prefix up to `k + 1` unfolds to the prefix up to `k` of the rest. */
  lemma CascadePrefix(root: Node, sels: seq<seq<Selector>>, attempt: Attempt, k: nat)
    requires k < |sels| - 1 && Fruitless(root, sels[0], attempt)
    ensures CascadeWith(root, sels[..k + 1], attempt) == CascadeWith(After(root, sels[0], attempt), sels[1..][..k], attempt)
    ensures sels[k + 1] == sels[1..][k]
  {
    var pre := sels[..k + 1];
    assert pre[0] == sels[0] && pre[1..] == sels[1..][..k];
    CascadeSkip(root, pre, attempt);
  }

  /**
   * The content comes from exactly one region: the first selector whose
   * attempt yields a block, tried on the page as the earlier (fruitless)
   * attempts left it.
   */
  lemma {:induction false} CascadeWinner(root: Node, sels: seq<seq<Selector>>, attempt: Attempt)
    requires CascadeWith(root, sels, attempt).parts != []
    ensures exists k :: 0 <= k < |sels| && WinsAt(root, sels, attempt, k)
    decreases |sels|
  {
    if !Fruitless(root, sels[0], attempt) {
      CascadeStop(root, sels, attempt);
      assert sels[..0] == [];
      assert WinsAt(root, sels, attempt, 0);
    } else {
      CascadeSkip(root, sels, attempt);
      var next := After(root, sels[0], attempt);
      CascadeWinner(next, sels[1..], attempt);
      var k :| 0 <= k < |sels[1..]| && WinsAt(next, sels[1..], attempt, k);
      CascadePrefix(root, sels, attempt, k);
      assert WinsAt(root, sels, attempt, k + 1);
    }
  }

  /** When nothing is collected, every selector was tried and none yielded a block. */
  lemma {:induction false} CascadeNothing(root: Node, sels: seq<seq<Selector>>, attempt: Attempt, k: nat)
    requires CascadeWith(root, sels, attempt).parts == [] && k < |sels|
    ensures Fruitless(CascadeWith(root, sels[..k], attempt).root, sels[k], attempt)
    decreases |sels|
  {
    if !Fruitless(root, sels[0], attempt) {
      CascadeStop(root, sels, attempt);
      assert false;
    }
    if k == 0 {
      assert sels[..0] == [];
    } else {
      CascadeSkip(root, sels, attempt);
      var next := After(root, sels[0], attempt);
      CascadeNothing(next, sels[1..], attempt, k - 1);
      CascadePrefix(root, sels, attempt, k - 1);
    }
  }

  // ---------------------------------------------------------------------------
  // Assembly
  // ---------------------------------------------------------------------------

  /** The final clean-up: blank-line join, newline-run cap, blank-run collapse, strip. */
  function Finish(parts: seq<string>): string {
    Strip(CollapseBlanks(CapNewlines(Join(parts, "\n\n"))))
  }

  predicate WellFormed(parts: seq<string>) {
    forall k :: 0 <= k < |parts| ==> parts[k] != [] && NoNewline(parts[k])
  }

  /** For blocks as the walk produces them the newline cap never fires. */
  lemma FinishCollapsesEach(parts: seq<string>)
    requires WellFormed(parts)
    ensures Finish(parts) == Strip(Join(CollapseEach(parts), "\n\n"))
  {
    JoinBlankLines(parts);
    CapNewlinesNoop(Join(parts, "\n\n"));
    CollapseBlanksJoin(parts);
  }

  /** Collapsing the blanks of a block keeps it a non-empty line. */
  lemma CollapseEachWellFormed(parts: seq<string>)
    requires WellFormed(parts)
    ensures WellFormed(CollapseEach(parts))
  {
    var c := CollapseEach(parts);
    forall k | 0 <= k < |c| ensures c[k] != [] && NoNewline(c[k]) {
      var r := CollapseBlanksAfter(parts[k], false);
      assert c[k] == r;
      forall i | 0 <= i < |r| ensures r[i] != '\n' {
        assert r[i] == ' ' || r[i] in parts[k];
      }
    }
  }

  /** Stripping keeps the absence of newline runs, double spaces and tabs. */
  lemma StripKeepsShape(s: string)
    ensures NoTripleNewline(s) ==> NoTripleNewline(Strip(s))
    ensures NoDoubleSpace(s) ==> NoDoubleSpace(Strip(s))
    ensures NoTab(s) ==> NoTab(Strip(s))
  {
    InfixShape(s, Strip(s), |s| - |TrimLeft(s)|);
  }

  /** A part of a string keeps its absence of newline runs, double spaces and tabs. */
  lemma InfixShape(s: string, r: string, start: int)
    requires OccursAt(s, r, start)
    ensures NoTripleNewline(s) ==> NoTripleNewline(r)
    ensures NoDoubleSpace(s) ==> NoDoubleSpace(r)
    ensures NoTab(s) ==> NoTab(r)
  {
    InfixKeeps(s, start, start + |r|);
    assert NoTab(s) ==> NoTab(r) by {
      if NoTab(s) {
        forall i | 0 <= i < |r| ensures r[i] != '\t' {
          assert r[i] == s[start..start + |r|][i];
        }
      }
    }
  }

  /**
   * The content is the blocks, each with its blank runs collapsed, joined by
   * blank lines and stripped: it has no three newlines in a row, no two
   * spaces in a row, no tab, and no outer whitespace.
   */
  lemma FinishShape(parts: seq<string>)
    requires WellFormed(parts)
    ensures NoTripleNewline(Finish(parts)) && NoDoubleSpace(Finish(parts)) && NoTab(Finish(parts))
    ensures IsStripped(Finish(parts))
  {
    FinishCollapsesEach(parts);
    CollapseEachWellFormed(parts);
    var c := CollapseEach(parts);
    JoinBlankLines(c);
    CollapseBlanksJoin(parts);
    var cj := Join(c, "\n\n");
    assert cj == CollapseBlanksAfter(Join(parts, "\n\n"), false);
    StripKeepsShape(cj);
  }

  lemma BlankLinesHaveText(c: seq<string>)
    ensures HasText(Join(c, "\n\n")) <==> exists k :: 0 <= k < |c| && HasText(c[k])
  {
    assert AllSpace("\n\n") by { assert IsSpace('\n'); }
    JoinHasText(c, "\n\n");
  }

  lemma CollapseEachHasText(parts: seq<string>)
    ensures (exists k :: 0 <= k < |parts| && HasText(CollapseEach(parts)[k]))
      <==> (exists k :: 0 <= k < |parts| && HasText(parts[k]))
  {
    forall k | 0 <= k < |parts| ensures HasText(CollapseEach(parts)[k]) == HasText(parts[k]) {
      CollapseBlanksHasText(parts[k], false);
    }
  }

  /** The content is empty exactly when every collected block is blank. */
  lemma FinishEmpty(parts: seq<string>)
    requires WellFormed(parts)
    ensures Finish(parts) == [] <==> forall k :: 0 <= k < |parts| ==> !HasText(parts[k])
  {
    var j := Join(CollapseEach(parts), "\n\n");
    FinishCollapsesEach(parts);
    assert Finish(parts) == Strip(j);
    StripEmpty(j);
    BlankLinesHaveText(CollapseEach(parts));
    CollapseEachHasText(parts);
  }

  /** The loop over a region's block elements: each new non-empty block is appended. */
  /** One more element adds its block to the parts, unless the block is missing or already there. */
  lemma PartsStep(els: seq<Located>, j: nat)
    requires j < |els|
    ensures Parts(els[..j + 1]) ==
      if Block(Raw(els[j])).Some? then AddNew(Parts(els[..j]), Block(Raw(els[j])).value) else Parts(els[..j])
  {
    assert els[..j + 1][..j] == els[..j];
  }

  method CollectBlocks(elements: seq<Located>) returns (parts: seq<string>)
    ensures parts == Parts(elements)
  {
    parts := [];
    var j := 0;
    while j < |elements|
      invariant 0 <= j <= |elements|
      invariant parts == Parts(elements[..j])
    {
      PartsStep(elements, j);
      var b := Block(Raw(elements[j]));
      if b.Some? && b.value !in parts {
        parts := parts + [b.value];
      }
      j := j + 1;
    }
    assert elements[..j] == elements;
  }

  /**
   * The older variant's assembly: the blocks joined by blank lines and
   * stripped. Its newline and blank clean-up sits inside the selector loop,
   * after the `break`, so it never runs on collected blocks.
   */
  function FinishOlder(parts: seq<string>): string {
    Strip(Join(parts, "\n\n"))
  }

  /** The older content has no three newlines in a row, no tab and no outer whitespace. */
  lemma FinishOlderShape(parts: seq<string>)
    requires WellFormed(parts) && forall k :: 0 <= k < |parts| ==> NoTab(parts[k])
    ensures NoTripleNewline(FinishOlder(parts)) && NoTab(FinishOlder(parts)) && IsStripped(FinishOlder(parts))
    ensures FinishOlder(parts) == [] <==> forall k :: 0 <= k < |parts| ==> !HasText(parts[k])
  {
    var j := Join(parts, "\n\n");
    JoinBlankLines(parts);
    JoinAvoids(parts, "\n\n", '\t');
    StripKeepsShape(j);
    StripEmpty(j);
    BlankLinesHaveText(parts);
  }

  /** When no block holds a run of blanks, both variants assemble the same content. */
  lemma FinishOlderAgrees(parts: seq<string>)
    requires WellFormed(parts) && forall k :: 0 <= k < |parts| ==> CollapseBlanks(parts[k]) == parts[k]
    ensures FinishOlder(parts) == Finish(parts)
  {
    FinishCollapsesEach(parts);
    assert CollapseEach(parts) == parts;
  }

  /**
   * `extract_article_content`'s search: the selectors in turn, each found
   * region cleaned in the page and walked, stopping at the first walk that
   * collects a block.
   */
  method CollectParts(soup: Soup, removeSummary: bool) returns (parts: seq<string>)
    modifies soup
    ensures Step(soup.root, parts) == Cascade(old(soup.root), Regions, removeSummary)
  {
    parts := [];
    ghost var attempt: Attempt := (r, sel) => TryRegion(r, sel, removeSummary);
    var i := 0;
    while i < |Regions|
      invariant 0 <= i <= |Regions| && parts == []
      invariant Cascade(old(soup.root), Regions, removeSummary) == CascadeWith(soup.root, Regions[i..], attempt)
    {
      assert Regions[i..][0] == Regions[i] && Regions[i..][1..] == Regions[i + 1..];
      var found := SelectOne(soup.Scope(), Regions[i]);
      if found.Some? {
        var at := found.value;
        var region := Cleaned(at.node, removeSummary);
        soup.root := ReplaceAt(soup.root, at.path, region);
        parts := CollectBlocks(BlockElements(soup.root, at.path, region));
        if parts != [] {
          break;
        }
      }
      i := i + 1;
    }
  }

  /** `extract_article_content`: the collected blocks, joined and tidied. */
  method ExtractArticleContent(soup: Soup) returns (content: string)
    modifies soup
    ensures content == Finish(Cascade(old(soup.root), Regions, false).parts)
    ensures soup.root == Cascade(old(soup.root), Regions, false).root
  {
    var parts := CollectParts(soup, false);
    content := "";
    if parts != [] {
      content := Join(parts, "\n\n");
    }
    content := CapNewlines(content);
    content := CollapseBlanks(content);
    content := Strip(content);
  }

  /** The older `extract_article_content`: the summary box also goes, and the result is only stripped. */
  method ExtractArticleContentOlder(soup: Soup) returns (content: string)
    modifies soup
    ensures content == FinishOlder(Cascade(old(soup.root), Regions, true).parts)
    ensures soup.root == Cascade(old(soup.root), Regions, true).root
  {
    var parts := CollectParts(soup, true);
    content := "";
    if parts != [] {
      content := Join(parts, "\n\n");
    }
    content := Strip(content);
  }
}
