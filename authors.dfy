// The author extractor (`extract_author`): the first author element or meta
// tag that exists; an element's text loses one leading "par", "by" or
// "author:" (any case) and the whitespace after it.

module Authors {
  import opened Text
  import opened Dom

  /** An element whose text is cleaned, or a meta tag whose `content` is only stripped. */
  datatype Source = TextOf(sel: seq<Selector>) | MetaOf(sel: seq<Selector>)

  const AuthorSources: seq<Source> := [
    TextOf(One(Class("entry-author"))),
    TextOf(One(Class("post-author"))),
    TextOf(One(Class("author"))),
    MetaOf(One(TagAttrIs("meta", "name", "author"))),
    TextOf(One(Class("byline"))),
    TextOf(One(AttrIs("rel", "author")))
  ]

  /** The alternatives of `^(par|by|author:)`, in the order they are tried. */
  const Prefixes: seq<string> := ["par", "by", "author:"]

  /** `p` (lower case) matches at the start of `t`, ignoring case. */
  predicate CaseStarts(t: string, p: string) {
    |p| <= |t| && Lower(t[..|p|]) == p
  }

  /** The first alternative that matches at the start, with the whitespace run after it, is removed. */
  function StripFirst(t: string, ps: seq<string>): (r: string)
    ensures |r| <= |t| && r == t[|t| - |r|..]
    decreases |ps|
  {
    if ps == [] then t
    else if CaseStarts(t, ps[0]) then SkipSpaces(t[|ps[0]|..])
    else StripFirst(t, ps[1..])
  }

  /** `re.sub(r'^(par|by|author:)\s*', '', t, flags=re.I)`. */
  function StripByline(t: string): string {
    StripFirst(t, Prefixes)
  }

  predicate AnyPrefix(t: string) {
    exists k :: 0 <= k < |Prefixes| && CaseStarts(t, Prefixes[k])
  }

  lemma {:induction false} StripFirstNoMatch(t: string, ps: seq<string>)
    requires forall k :: 0 <= k < |ps| ==> !CaseStarts(t, ps[k])
    ensures StripFirst(t, ps) == t
    decreases |ps|
  {
    if ps != [] {
      assert forall k :: 0 <= k < |ps[1..]| ==> ps[1..][k] == ps[k + 1];
      StripFirstNoMatch(t, ps[1..]);
    }
  }

  /** The text changes exactly when it starts with one of the prefixes, and then it loses at least two characters. */
  lemma BylineChanges(t: string)
    ensures !AnyPrefix(t) ==> StripByline(t) == t
    ensures AnyPrefix(t) ==> |StripByline(t)| <= |t| - 2
  {
    if !AnyPrefix(t) {
      StripFirstNoMatch(t, Prefixes);
    }
  }

  /** Any spelling of a prefix, then whitespace, then a name: only the name is left. */
  lemma BylineRemoved(k: nat, spelled: string, gap: string, name: string)
    requires k < |Prefixes| && Lower(spelled) == Prefixes[k]
    requires AllSpace(gap) && (name == [] || !IsSpace(name[0]))
    ensures StripByline(spelled + gap + name) == name
  {
    var t := spelled + gap + name;
    assert t[..|spelled|] == spelled;
    assert t[|spelled|..] == gap + name;
    SkipGap(gap, name);
    var p := Prefixes[k];
    assert |p| <= |t| && Lower(t[..|p|]) == p;
    PrefixLetters();
    forall m | 0 <= m < k ensures !CaseStarts(t, Prefixes[m]) {
      FirstLetterDiffers(t, p, Prefixes[m]);
    }
    StripFirstAt(t, Prefixes, k);
  }

  /** The alternative removed is the first one that matches. */
  lemma {:induction false} StripFirstAt(t: string, ps: seq<string>, k: nat)
    requires k < |ps| && CaseStarts(t, ps[k])
    requires forall m :: 0 <= m < k ==> !CaseStarts(t, ps[m])
    ensures StripFirst(t, ps) == SkipSpaces(t[|ps[k]|..])
    decreases k
  {
    if k > 0 {
      assert !CaseStarts(t, ps[0]);
      assert forall m :: 0 <= m < |ps[1..]| ==> ps[1..][m] == ps[m + 1];
      StripFirstAt(t, ps[1..], k - 1);
    }
  }

  /** The alternatives start with different letters. */
  lemma PrefixLetters()
    ensures forall m, k :: 0 <= m < k < |Prefixes| ==> Prefixes[m] != [] && Prefixes[k] != [] && Prefixes[m][0] != Prefixes[k][0]
  {
    assert Prefixes[0][0] == 'p' && Prefixes[1][0] == 'b' && Prefixes[2][0] == 'a';
  }

  /** An alternative whose first letter differs from the one that matched does not match. */
  lemma FirstLetterDiffers(t: string, p: string, q: string)
    requires p != [] && q != [] && |p| <= |t| && Lower(t[..|p|]) == p && q[0] != p[0]
    ensures !CaseStarts(t, q)
  {
    assert Lower(t[..|p|])[0] == LowerChar(t[0]);
    if |q| <= |t| {
      assert Lower(t[..|q|])[0] == LowerChar(t[0]);
    }
  }

  /** `"par "` before a name is removed. */
  lemma ParRemoved(name: string)
    requires name == [] || !IsSpace(name[0])
    ensures StripByline("par " + name) == name
  {
    BylineRemoved(0, "par", " ", name);
    assert "par" + " " + name == "par " + name;
  }

  /** Only one prefix goes: `"par par X"` keeps its second `par`. */
  lemma OnePrefixOnly(name: string)
    ensures StripByline("par par " + name) == "par " + name
  {
    ParRemoved("par " + name);
    assert "par " + ("par " + name) == "par par " + name;
  }

  /** The prefix need not be followed by a space: `"Parker"` becomes `"ker"`. */
  lemma ParkerExample()
    ensures StripByline("Parker") == "ker"
  {
    BylineRemoved(0, "Par", "", "ker");
    assert "Par" + "" + "ker" == "Parker";
  }

  /** What one source answers: nothing when its selector matches nothing. */
  function Answer(root: Node, src: Source): (r: Option<string>)
    ensures r.Some? <==> SelectOne(DocLoc(root), src.sel).Some?
  {
    match SelectOne(DocLoc(root), src.sel)
    case None => None
    case Some(at) => Some(NodeAuthor(at.node, src.MetaOf?))
  }

  /** The author an element gives: a meta tag's stripped `content`, or the cleaned text. */
  function NodeAuthor(n: Node, meta: bool): string {
    if meta then Strip(GetOr(n, "content", "")) else StripByline(GetText(n))
  }

  /** A meta tag's content keeps a leading "par" that the same text in an element would lose. */
  lemma MetaKeepsPrefix(m: Node, e: Node, name: string)
    requires name != [] && !IsSpace(name[0]) && !IsSpace(name[|name| - 1])
    requires Get(m, "content") == Some("par " + name) && GetText(e) == "par " + name
    ensures NodeAuthor(m, true) == "par " + name
    ensures NodeAuthor(e, false) == name
  {
    var t := "par " + name;
    assert NodeAuthor(m, true) == t by {
      assert GetOr(m, "content", "") == t;
      assert IsStripped(t) by {
        assert t[0] == 'p' && t[|t| - 1] == name[|name| - 1];
      }
      StripStripped(t);
    }
    assert NodeAuthor(e, false) == name by {
      ParRemoved(name);
    }
  }

  /** The sources tried in turn; the first that matches answers, even with an empty author. */
  function FromSources(root: Node, srcs: seq<Source>): Option<string>
    decreases |srcs|
  {
    if srcs == [] then None
    else
      match Answer(root, srcs[0])
      case Some(a) => Some(a)
      case None => FromSources(root, srcs[1..])
  }

  /** What `extract_author` returns. */
  function AuthorText(root: Node): string {
    match FromSources(root, AuthorSources)
    case Some(a) => a
    case None => ""
  }

  /**
   * The author of a page where the first `k` sources match nothing: the
   * author is empty when no source matches at all, and otherwise comes from
   * source `k` when it matches, as its kind (meta tag or element) reads it.
   */
  lemma AuthorOfFirstMatch(root: Node, k: nat)
    requires k <= |AuthorSources|
    requires forall j :: 0 <= j < k ==> SelectOne(DocLoc(root), AuthorSources[j].sel).None?
    ensures k == |AuthorSources| ==> AuthorText(root) == ""
    ensures k < |AuthorSources| && SelectOne(DocLoc(root), AuthorSources[k].sel).Some? ==>
      AuthorText(root) == NodeAuthor(SelectOne(DocLoc(root), AuthorSources[k].sel).value.node, AuthorSources[k].MetaOf?)
  {
    if k == |AuthorSources| {
      NoSourceNoAuthor(root, AuthorSources);
    } else if SelectOne(DocLoc(root), AuthorSources[k].sel).Some? {
      FirstSourceWins(root, AuthorSources, k);
    }
  }

  /** The first source that matches decides; later sources are never consulted. */
  lemma {:induction false} FirstSourceWins(root: Node, srcs: seq<Source>, k: nat)
    requires k < |srcs| && Answer(root, srcs[k]).Some?
    requires forall j :: 0 <= j < k ==> Answer(root, srcs[j]).None?
    ensures FromSources(root, srcs) == Answer(root, srcs[k])
    decreases k
  {
    if k > 0 {
      forall j | 0 <= j < k - 1 ensures Answer(root, srcs[1..][j]).None? {
        assert srcs[1..][j] == srcs[j + 1];
      }
      assert srcs[1..][k - 1] == srcs[k];
      FirstSourceWins(root, srcs[1..], k - 1);
      assert Answer(root, srcs[0]).None?;
    }
  }

  /** With no source matching, the author is empty. */
  lemma {:induction false} NoSourceNoAuthor(root: Node, srcs: seq<Source>)
    requires forall j :: 0 <= j < |srcs| ==> Answer(root, srcs[j]).None?
    ensures FromSources(root, srcs) == None
    decreases |srcs|
  {
    if srcs != [] {
      forall j | 0 <= j < |srcs| - 1 ensures Answer(root, srcs[1..][j]).None? {
        assert srcs[1..][j] == srcs[j + 1];
      }
      NoSourceNoAuthor(root, srcs[1..]);
    }
  }

  /** `extract_author`: the selector loop, returning at the first source that matches. */
  method ExtractAuthor(soup: Soup) returns (author: string)
    ensures author == AuthorText(soup.root)
  {
    var i := 0;
    while i < |AuthorSources|
      invariant 0 <= i <= |AuthorSources|
      invariant FromSources(soup.root, AuthorSources) == FromSources(soup.root, AuthorSources[i..])
    {
      assert AuthorSources[i..][0] == AuthorSources[i] && AuthorSources[i..][1..] == AuthorSources[i + 1..];
      var element := SelectOne(soup.Scope(), AuthorSources[i].sel);
      if element.Some? {
        if AuthorSources[i].MetaOf? {
          return Strip(GetOr(element.value.node, "content", ""));
        }
        return StripByline(GetText(element.value.node));
      }
      i := i + 1;
    }
    return "";
  }
}
