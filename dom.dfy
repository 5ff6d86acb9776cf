// A parsed HTML page, as the scraper sees it through its HTML parser: a tree
// of elements and text nodes, searched in document (preorder) order with a
// handful of fixed CSS selectors, read with `get_text`, and pruned in place
// with `decompose`.

module Dom {
  import opened Text

  /** An element (tag name, attributes other than `class`, class list, children) or a text node. */
  datatype Node =
    | Element(name: string, attrs: map<string, string>, classes: seq<string>, children: seq<Node>)
    | TextNode(text: string)

  /** The parser's document object; its name is not a tag name, so no selector matches it. */
  const DocumentName: string := "[document]"

  function Document(top: seq<Node>): (d: Node)
    ensures d.Element? && d.name == DocumentName && d.children == top
  {
    Element(DocumentName, map[], [], top)
  }

  /** `tag.get(key)`: the attribute value, if the attribute is present. */
  function Get(n: Node, key: string): (r: Option<string>)
    ensures r.Some? <==> n.Element? && key in n.attrs
  {
    if n.Element? && key in n.attrs then Some(n.attrs[key]) else None
  }

  /** `tag.get(key, default)`. */
  function GetOr(n: Node, key: string, default: string): (r: string)
    ensures Get(n, key).Some? ==> r == Get(n, key).value
    ensures Get(n, key).None? ==> r == default
  {
    match Get(n, key)
    case Some(v) => v
    case None => default
  }

  /**
   * Python's `a or b or ...` over attribute lookups: the first present,
   * non-empty value; otherwise the value of the last lookup (absent or empty).
   */
  function GetFirst(n: Node, keys: seq<string>): (r: Option<string>)
    requires keys != []
    ensures r.Some? && r.value != [] ==> exists i :: 0 <= i < |keys| && Get(n, keys[i]) == r
    ensures (exists i :: 0 <= i < |keys| && Get(n, keys[i]).Some? && Get(n, keys[i]).value != []) ==> r.Some? && r.value != []
    decreases |keys|
  {
    var v := Get(n, keys[0]);
    if |keys| == 1 || (v.Some? && v.value != []) then v
    else
      var r := GetFirst(n, keys[1..]);
      assert forall i :: 1 <= i < |keys| ==> keys[i] == keys[1..][i - 1];
      r
  }

  /** A lookup Python's `or` treats as true: present and non-empty. */
  predicate Truthy(v: Option<string>) {
    v.Some? && v.value != []
  }

  /** The first key whose value is present and non-empty decides `GetFirst`. */
  lemma {:induction false} GetFirstFirstWins(n: Node, keys: seq<string>, i: nat)
    requires i < |keys| && Truthy(Get(n, keys[i]))
    requires forall j :: 0 <= j < i ==> !Truthy(Get(n, keys[j]))
    ensures GetFirst(n, keys) == Get(n, keys[i])
    decreases i
  {
    if i > 0 {
      assert !Truthy(Get(n, keys[0]));
      assert keys[1..][i - 1] == keys[i];
      forall j | 0 <= j < i - 1 ensures !Truthy(Get(n, keys[1..][j])) {
        assert keys[1..][j] == keys[j + 1];
      }
      GetFirstFirstWins(n, keys[1..], i - 1);
    }
  }

  /** When no value is present and non-empty, `GetFirst` gives the last lookup's result. */
  lemma {:induction false} GetFirstAllFalsy(n: Node, keys: seq<string>)
    requires keys != []
    requires forall j :: 0 <= j < |keys| ==> !Truthy(Get(n, keys[j]))
    ensures GetFirst(n, keys) == Get(n, keys[|keys| - 1])
    decreases |keys|
  {
    if |keys| > 1 {
      assert !Truthy(Get(n, keys[0]));
      forall j | 0 <= j < |keys| - 1 ensures !Truthy(Get(n, keys[1..][j])) {
        assert keys[1..][j] == keys[j + 1];
      }
      GetFirstAllFalsy(n, keys[1..]);
    }
  }

  // ---------------------------------------------------------------------------
  // Text
  // ---------------------------------------------------------------------------

  /**
   * Tags whose strings the parser stores as script, style sheet or template
   * strings; `get_text` on an enclosing element does not include them.
   */
  predicate IsStringContainer(n: Node) {
    n.Element? && n.name in {"script", "style", "template"}
  }

  /**
   * The strings `get_text` collects below `n`, in document order, each
   * stripped when `strip` is set.
   */
  function Strings(n: Node, strip: bool): seq<string>
    decreases n, 1
  {
    match n
    case TextNode(t) => [if strip then Strip(t) else t]
    case Element(_, _, _, kids) => KidStrings(n, 0, strip)
  }

  function KidStrings(n: Node, i: nat, strip: bool): seq<string>
    requires n.Element? && i <= |n.children|
    decreases n, 0, |n.children| - i
  {
    if i == |n.children| then []
    else
      var k := n.children[i];
      (if IsStringContainer(k) then [] else Strings(k, strip)) + KidStrings(n, i + 1, strip)
  }

  function Concat(parts: seq<string>): (r: string)
    ensures |parts| == 1 ==> r == parts[0]
  {
    if parts == [] then [] else Concat(parts[..|parts| - 1]) + parts[|parts| - 1]
  }

  /** Joining stripped pieces gives a stripped string. */
  lemma {:induction false} ConcatStripped(parts: seq<string>)
    requires forall k :: 0 <= k < |parts| ==> IsStripped(parts[k])
    ensures IsStripped(Concat(parts))
    decreases |parts|
  {
    if parts != [] {
      ConcatStripped(parts[..|parts| - 1]);
    }
  }

  /** With `strip` set, every collected string is stripped. */
  lemma {:induction false} StringsStripped(n: Node)
    ensures forall k :: 0 <= k < |Strings(n, true)| ==> IsStripped(Strings(n, true)[k])
    decreases n, 1
  {
    if n.Element? {
      KidStringsStripped(n, 0);
    }
  }

  lemma {:induction false} KidStringsStripped(n: Node, i: nat)
    requires n.Element? && i <= |n.children|
    ensures forall k :: 0 <= k < |KidStrings(n, i, true)| ==> IsStripped(KidStrings(n, i, true)[k])
    decreases n, 0, |n.children| - i
  {
    if i < |n.children| {
      StringsStripped(n.children[i]);
      KidStringsStripped(n, i + 1);
    }
  }

  /** `get_text(strip=True)` never starts or ends with whitespace. */
  lemma GetTextStripped(n: Node)
    ensures IsStripped(GetText(n))
  {
    StringsStripped(n);
    ConcatStripped(Strings(n, true));
  }

  /** `tag.text` (`get_text()`): all strings concatenated. */
  function RawText(n: Node): string {
    Concat(Strings(n, false))
  }

  /**
   * `tag.get_text(strip=True)`: every string stripped, the empty ones dropped,
   * the rest concatenated.
   */
  function GetText(n: Node): string {
    Concat(Strings(n, true))
  }

  // ---------------------------------------------------------------------------
  // Positions and document order
  // ---------------------------------------------------------------------------

  /**
   * A node found in the page: its child-index path from the document, its
   * ancestors (document first) and the node itself.
   */
  datatype Located = Located(path: seq<nat>, anc: seq<Node>, node: Node)

  function DocLoc(root: Node): Located {
    Located([], [], root)
  }

  /** The element directly above a located node (`.parent`). */
  function Parent(at: Located): Option<Node> {
    if at.anc == [] then None else Some(at.anc[|at.anc| - 1])
  }

  /** The direct parent as a located node (`find_parent()` with no name). */
  function ParentAt(at: Located): (r: Option<Located>)
    ensures r.Some? <==> at.anc != []
    ensures r.Some? ==> |r.value.anc| == |at.anc| - 1 && r.value.node == at.anc[|at.anc| - 1]
  {
    if at.anc == [] then None
    else Some(Located(if at.path == [] then [] else at.path[..|at.path| - 1], at.anc[..|at.anc| - 1], at.anc[|at.anc| - 1]))
  }

  /** The descendants of `at.node` in document order, the node itself excluded. */
  function Descendants(at: Located): seq<Located>
    decreases at.node, 1, 0
  {
    if at.node.TextNode? then [] else DescendantsFrom(at, 0)
  }

  function DescendantsFrom(at: Located, i: nat): seq<Located>
    requires at.node.Element? && i <= |at.node.children|
    decreases at.node, 0, |at.node.children| - i
  {
    if i == |at.node.children| then []
    else
      var c := ChildAt(at, i);
      [c] + Descendants(c) + DescendantsFrom(at, i + 1)
  }

  function ChildAt(at: Located, i: nat): (c: Located)
    requires at.node.Element? && i < |at.node.children|
    ensures c.node == at.node.children[i] && c.path == at.path + [i] && c.anc == at.anc + [at.node]
  {
    Located(at.path + [i], at.anc + [at.node], at.node.children[i])
  }

  /** The children of `at.node` (a `recursive=False` search). */
  function Children(at: Located): (r: seq<Located>)
    ensures at.node.Element? ==> |r| == |at.node.children|
    ensures forall k :: 0 <= k < |r| ==> at.node.Element? && k < |at.node.children| && r[k] == ChildAt(at, k)
  {
    if at.node.TextNode? then [] else seq(|at.node.children|, k requires 0 <= k < |at.node.children| => ChildAt(at, k))
  }

  /** The node at `path` below `n`, if the path leads anywhere. */
  function At(n: Node, path: seq<nat>): Option<Node>
    decreases |path|
  {
    if path == [] then Some(n)
    else if n.TextNode? || path[0] >= |n.children| then None
    else At(n.children[path[0]], path[1..])
  }

  /** The nodes on the way from `n` down to the node at `path`, that node excluded. */
  function AncestorsAt(n: Node, path: seq<nat>): seq<Node>
    decreases |path|
  {
    if path == [] || n.TextNode? || path[0] >= |n.children| then []
    else [n] + AncestorsAt(n.children[path[0]], path[1..])
  }

  /** Re-reads the node at `path` in (a possibly changed) `root`. */
  function Relocate(root: Node, path: seq<nat>): Option<Located> {
    match At(root, path)
    case Some(m) => Some(Located(path, AncestorsAt(root, path), m))
    case None => None
  }

  /** The tree with the node at `path` replaced by `m`; unchanged if the path leads nowhere. */
  function ReplaceAt(n: Node, path: seq<nat>, m: Node): (r: Node)
    decreases |path|
  {
    if path == [] then m
    else if n.TextNode? || path[0] >= |n.children| then n
    else n.(children := n.children[path[0] := ReplaceAt(n.children[path[0]], path[1..], m)])
  }

  /** The tree with the node at `path` taken out (`decompose` of that one node). */
  function RemoveAt(n: Node, path: seq<nat>): (r: Node)
    decreases |path|
  {
    if path == [] || n.TextNode? || path[0] >= |n.children| then n
    else if |path| == 1 then n.(children := n.children[..path[0]] + n.children[path[0] + 1..])
    else n.(children := n.children[path[0] := RemoveAt(n.children[path[0]], path[1..])])
  }

  /** Replacing a node and reading it back gives the new node. */
  lemma {:induction false} AtReplaceAt(n: Node, path: seq<nat>, m: Node)
    requires At(n, path).Some?
    ensures At(ReplaceAt(n, path, m), path) == Some(m)
    decreases |path|
  {
    if path != [] {
      AtReplaceAt(n.children[path[0]], path[1..], m);
    }
  }

  /** The path of every descendant leads to it, through its recorded ancestors. */
  lemma {:induction false} DescendantsAreAt(at: Located, k: nat)
    requires k < |Descendants(at)|
    ensures var d := Descendants(at)[k];
      |d.path| > |at.path| && d.path[..|at.path|] == at.path
      && At(at.node, d.path[|at.path|..]) == Some(d.node)
    decreases at.node, 1, 0
  {
    DescendantsFromAreAt(at, 0, k);
  }

  lemma {:induction false} DescendantsFromAreAt(at: Located, i: nat, k: nat)
    requires at.node.Element? && i <= |at.node.children|
    requires k < |DescendantsFrom(at, i)|
    ensures var d := DescendantsFrom(at, i)[k];
      |d.path| > |at.path| && d.path[..|at.path|] == at.path
      && At(at.node, d.path[|at.path|..]) == Some(d.node)
    decreases at.node, 0, |at.node.children| - i
  {
    var c := ChildAt(at, i);
    var below := Descendants(c);
    var rest := DescendantsFrom(at, i + 1);
    assert DescendantsFrom(at, i) == [c] + below + rest;
    var d := DescendantsFrom(at, i)[k];
    if k == 0 {
      assert d == c;
      assert d.path[|at.path|..] == [i];
    } else if k < 1 + |below| {
      assert d == below[k - 1];
      DescendantsAreAt(c, k - 1);
      var tail := d.path[|c.path|..];
      assert d.path[|at.path|..] == [i] + tail;
      assert ([i] + tail)[1..] == tail;
    } else {
      assert d == rest[k - 1 - |below|];
      DescendantsFromAreAt(at, i + 1, k - 1 - |below|);
    }
  }

  // ---------------------------------------------------------------------------
  // Selectors
  // ---------------------------------------------------------------------------

  /**
   * One compound selector: an optional tag name, an optional class, an
   * optional attribute that must be present and, optionally, equal a value.
   * `#x` is the attribute `id` with value `x`.
   */
  datatype Simple = Simple(tag: Option<string>, cls: Option<string>, attr: Option<string>, value: Option<string>)

  function Tag(name: string): Simple { Simple(Some(name), None, None, None) }
  function Class(cls: string): Simple { Simple(None, Some(cls), None, None) }
  function TagClass(name: string, cls: string): Simple { Simple(Some(name), Some(cls), None, None) }
  function Id(id: string): Simple { Simple(None, None, Some("id"), Some(id)) }
  function TagAttr(name: string, attr: string): Simple { Simple(Some(name), None, Some(attr), None) }
  function TagAttrIs(name: string, attr: string, value: string): Simple { Simple(Some(name), None, Some(attr), Some(value)) }
  function AttrIs(attr: string, value: string): Simple { Simple(None, None, Some(attr), Some(value)) }

  predicate SimpleMatches(n: Node, s: Simple) {
    n.Element?
    && (s.tag.Some? ==> n.name == s.tag.value)
    && (s.cls.Some? ==> s.cls.value in n.classes)
    && (s.attr.Some? ==> s.attr.value in n.attrs && (s.value.Some? ==> n.attrs[s.attr.value] == s.value.value))
  }

  predicate AnySimple(n: Node, group: seq<Simple>) {
    exists i :: 0 <= i < |group| && SimpleMatches(n, group[i])
  }

  /**
   * A descendant-combinator chain `A B C`: the node matches the last part, and
   * the earlier parts match ancestors, outermost first.
   */
  type Selector = seq<Simple>

  /** `chain` matches ancestors taken in order from `anc` (a subsequence). */
  predicate AncestorsMatch(anc: seq<Node>, chain: seq<Simple>)
    decreases |anc|
  {
    if chain == [] then true
    else if anc == [] then false
    else if SimpleMatches(anc[|anc| - 1], chain[|chain| - 1]) then AncestorsMatch(anc[..|anc| - 1], chain[..|chain| - 1])
    else AncestorsMatch(anc[..|anc| - 1], chain)
  }

  predicate SelectorMatches(at: Located, sel: Selector) {
    sel != [] && SimpleMatches(at.node, sel[|sel| - 1]) && AncestorsMatch(at.anc, sel[..|sel| - 1])
  }

  /** A comma group `s1, s2, ...` matches when one of its selectors does. */
  predicate GroupMatches(at: Located, group: seq<Selector>) {
    exists i :: 0 <= i < |group| && SelectorMatches(at, group[i])
  }

  /** The located nodes of `locs` a group matches, in their order. */
  function Filter(locs: seq<Located>, group: seq<Selector>): (r: seq<Located>)
    ensures |r| <= |locs|
    ensures forall k :: 0 <= k < |r| ==> GroupMatches(r[k], group) && r[k] in locs
    decreases |locs|
  {
    if locs == [] then []
    else
      var rest := Filter(locs[1..], group);
      if GroupMatches(locs[0], group) then [locs[0]] + rest else rest
  }

  /** The first located node of `locs` a group matches. */
  function First(locs: seq<Located>, group: seq<Selector>): (r: Option<Located>)
    ensures r.Some? ==> GroupMatches(r.value, group) && r.value in locs
    ensures r.Some? <==> Filter(locs, group) != []
    ensures r.Some? ==> r.value == Filter(locs, group)[0]
    decreases |locs|
  {
    if locs == [] then None
    else if GroupMatches(locs[0], group) then Some(locs[0])
    else First(locs[1..], group)
  }

  /** `scope.select(group)`: every matching descendant, in document order. */
  function Select(scope: Located, group: seq<Selector>): seq<Located> {
    Filter(Descendants(scope), group)
  }

  /**
   * `scope.select_one(group)`: the first matching descendant in document
   * order, whichever selector of the group it matches.
   */
  function SelectOne(scope: Located, group: seq<Selector>): Option<Located> {
    First(Descendants(scope), group)
  }

  /** One selector as a group of one. */
  function One(s: Simple): seq<Selector> { [[s]] }

  /** `find_all(names)` with a list of names: one single-part selector per name. */
  function Names(names: seq<string>): (g: seq<Selector>)
    ensures |g| == |names|
    ensures forall i :: 0 <= i < |g| ==> g[i] == [Tag(names[i])]
  {
    seq(|names|, i requires 0 <= i < |names| => [Tag(names[i])])
  }

  /** A list of names as single-part selectors (the list form of `find_all`). */
  function TagsOf(names: seq<string>): (g: seq<Simple>)
    ensures |g| == |names| && forall i :: 0 <= i < |g| ==> g[i] == Tag(names[i])
  {
    seq(|names|, i requires 0 <= i < |names| => Tag(names[i]))
  }

  predicate Named(n: Node, name: string) {
    n.Element? && n.name == name
  }

  /** The nearest ancestor with this tag name (`find_parent(name)`). */
  function FindParent(at: Located, name: string): (r: Option<Located>)
    ensures r.Some? ==> r.value.node.Element? && r.value.node.name == name
    ensures r.Some? ==> r.value.anc < at.anc && r.value.node == at.anc[|r.value.anc|]
    ensures r.Some? && |at.path| == |at.anc| ==> r.value.path == at.path[..|r.value.anc|]
    ensures r.Some? ==> forall k :: |r.value.anc| < k < |at.anc| ==> !Named(at.anc[k], name)
    ensures r.None? <==> forall k :: 0 <= k < |at.anc| ==> !Named(at.anc[k], name)
    decreases |at.anc|
  {
    match ParentAt(at)
    case None => None
    case Some(p) => if p.node.Element? && p.node.name == name then Some(p) else FindParent(p, name)
  }

  // ---------------------------------------------------------------------------
  // Removal
  // ---------------------------------------------------------------------------

  /**
   * `for x in n.find_all(...): x.decompose()` for a group of single-part
   * selectors: every matching descendant is removed with its subtree.
   */
  function Prune(n: Node, group: seq<Simple>): (r: Node)
    ensures r.Element? <==> n.Element?
    ensures n.Element? ==> r.name == n.name && r.attrs == n.attrs && r.classes == n.classes
    ensures n.TextNode? ==> r == n
    decreases n, 1
  {
    match n
    case TextNode(_) => n
    case Element(_, _, _, _) => n.(children := PruneKids(n, 0, group))
  }

  function PruneKids(n: Node, i: nat, group: seq<Simple>): seq<Node>
    requires n.Element? && i <= |n.children|
    decreases n, 0, |n.children| - i
  {
    if i == |n.children| then []
    else
      var k := n.children[i];
      (if AnySimple(k, group) then [] else [Prune(k, group)]) + PruneKids(n, i + 1, group)
  }

  /** The number of elements below `n` that match `s`. */
  function Count(n: Node, s: Simple): nat
    decreases n, 1
  {
    if n.TextNode? then 0 else CountKids(n, 0, s)
  }

  function CountKids(n: Node, i: nat, s: Simple): nat
    requires n.Element? && i <= |n.children|
    decreases n, 0, |n.children| - i
  {
    if i == |n.children| then 0
    else
      var k := n.children[i];
      (if SimpleMatches(k, s) then 1 else 0) + Count(k, s) + CountKids(n, i + 1, s)
  }

  /**
   * `n.find(...).decompose()`: removes the first element below `n`, in
   * document order, that matches `s`; the flag says whether there was one.
   */
  function RemoveFirst(n: Node, s: Simple): (r: (Node, bool))
    ensures r.0.Element? <==> n.Element?
    ensures n.Element? ==> r.0.name == n.name && r.0.attrs == n.attrs && r.0.classes == n.classes
    decreases n, 1
  {
    match n
    case TextNode(_) => (n, false)
    case Element(_, _, _, _) =>
      var (kids, found) := RemoveFirstKids(n, 0, s);
      (n.(children := kids), found)
  }

  function RemoveFirstKids(n: Node, i: nat, s: Simple): (seq<Node>, bool)
    requires n.Element? && i <= |n.children|
    decreases n, 0, |n.children| - i
  {
    if i == |n.children| then ([], false)
    else
      var k := n.children[i];
      if SimpleMatches(k, s) then (n.children[i + 1..], true)
      else
        var (k', inK) := RemoveFirst(k, s);
        if inK then ([k'] + n.children[i + 1..], true)
        else
          var (rest, later) := RemoveFirstKids(n, i + 1, s);
          ([k] + rest, later)
  }

  /**
   * Something is removed exactly when something matches, and at least that one
   * match is gone afterwards (matches nested inside it go with it).
   */
  lemma {:induction false} RemoveFirstCount(n: Node, s: Simple)
    ensures RemoveFirst(n, s).1 <==> Count(n, s) > 0
    ensures RemoveFirst(n, s).1 ==> Count(RemoveFirst(n, s).0, s) < Count(n, s)
    ensures !RemoveFirst(n, s).1 ==> RemoveFirst(n, s).0 == n
    decreases n, 1
  {
    if n.Element? {
      RemoveFirstKidsCount(n, 0, s);
      var (kids, found) := RemoveFirstKids(n, 0, s);
      var r := n.(children := kids);
      CountKidsOf(r, kids, s);
      assert n.children[0..] == n.children;
      CountKidsOf(n, n.children, s);
    }
  }

  /** The count over the children of an element depends only on the children. */
  lemma {:induction false} CountKidsOf(n: Node, kids: seq<Node>, s: Simple)
    requires n.Element? && n.children == kids
    ensures Count(n, s) == SumCounts(kids, s)
  {
    CountKidsSum(n, 0, s);
    assert kids[0..] == kids;
  }

  function SumCounts(kids: seq<Node>, s: Simple): nat
    decreases |kids|
  {
    if kids == [] then 0
    else (if SimpleMatches(kids[0], s) then 1 else 0) + Count(kids[0], s) + SumCounts(kids[1..], s)
  }

  lemma {:induction false} CountKidsSum(n: Node, i: nat, s: Simple)
    requires n.Element? && i <= |n.children|
    ensures CountKids(n, i, s) == SumCounts(n.children[i..], s)
    decreases |n.children| - i
  {
    if i < |n.children| {
      CountKidsSum(n, i + 1, s);
      assert n.children[i..][1..] == n.children[i + 1..];
    }
  }

  lemma {:induction false} RemoveFirstKidsCount(n: Node, i: nat, s: Simple)
    requires n.Element? && i <= |n.children|
    ensures RemoveFirstKids(n, i, s).1 <==> SumCounts(n.children[i..], s) > 0
    ensures RemoveFirstKids(n, i, s).1 ==> SumCounts(RemoveFirstKids(n, i, s).0, s) < SumCounts(n.children[i..], s)
    ensures !RemoveFirstKids(n, i, s).1 ==> RemoveFirstKids(n, i, s).0 == n.children[i..]
    decreases n, 0, |n.children| - i
  {
    if i < |n.children| {
      var k := n.children[i];
      var tail := n.children[i + 1..];
      assert n.children[i..] == [k] + tail;
      assert ([k] + tail)[1..] == tail;
      if !SimpleMatches(k, s) {
        RemoveFirstCount(k, s);
        var (k', inK) := RemoveFirst(k, s);
        if inK {
          assert ([k'] + tail)[1..] == tail;
        } else {
          RemoveFirstKidsCount(n, i + 1, s);
          var (rest, later) := RemoveFirstKids(n, i + 1, s);
          assert ([k] + rest)[1..] == rest;
        }
      }
    }
  }

  /** Nothing below `n` matches the group. */
  predicate Clean(n: Node, group: seq<Simple>)
    decreases n
  {
    n.Element? ==> forall i :: 0 <= i < |n.children| ==> !AnySimple(n.children[i], group) && Clean(n.children[i], group)
  }

  /** After the removal loop, no descendant matching the group is left. */
  lemma {:induction false} PruneCleans(n: Node, group: seq<Simple>)
    ensures Clean(Prune(n, group), group)
    decreases n, 1
  {
    if n.Element? {
      PruneKidsClean(n, 0, group);
    }
  }

  lemma {:induction false} PruneKidsClean(n: Node, i: nat, group: seq<Simple>)
    requires n.Element? && i <= |n.children|
    ensures forall j :: 0 <= j < |PruneKids(n, i, group)| ==>
      !AnySimple(PruneKids(n, i, group)[j], group) && Clean(PruneKids(n, i, group)[j], group)
    decreases n, 0, |n.children| - i
  {
    if i < |n.children| {
      var k := n.children[i];
      PruneKidsClean(n, i + 1, group);
      if !AnySimple(k, group) {
        PruneCleans(k, group);
        assert !AnySimple(Prune(k, group), group) by {
          if AnySimple(Prune(k, group), group) {
            var j :| 0 <= j < |group| && SimpleMatches(Prune(k, group), group[j]);
            assert SimpleMatches(k, group[j]);
          }
        }
      }
    }
  }

  /** Removing again finds nothing more to remove. */
  lemma {:induction false} PruneIdempotent(n: Node, group: seq<Simple>)
    requires Clean(n, group)
    ensures Prune(n, group) == n
    decreases n, 1
  {
    if n.Element? {
      PruneKidsIdempotent(n, 0, group);
      assert n.children[0..] == n.children;
    }
  }

  lemma {:induction false} PruneKidsIdempotent(n: Node, i: nat, group: seq<Simple>)
    requires n.Element? && i <= |n.children| && Clean(n, group)
    ensures PruneKids(n, i, group) == n.children[i..]
    decreases n, 0, |n.children| - i
  {
    if i < |n.children| {
      PruneKidsIdempotent(n, i + 1, group);
      PruneIdempotent(n.children[i], group);
      assert n.children[i..] == [n.children[i]] + n.children[i + 1..];
    }
  }

  /**
   * The page the scraper works on. `decompose` changes the tree in place, so
   * the page is an object whose tree the extractors replace.
   */
  class Soup {
    var root: Node

    constructor (top: seq<Node>)
      ensures root == Document(top)
    {
      root := Document(top);
    }

    /** The whole page as a search scope. */
    function Scope(): Located
      reads this
    {
      DocLoc(root)
    }
  }
}
