// The image extractor (`extract_images`): the images of the content region,
// after removing asides, keyed by their position among all images there.

module Images {
  import opened Text
  import opened Dom
  import Content

  /** The removal list; as a list of names only `aside` ever matches. */
  const ImageNoise: seq<string> := ["aside", ".related-posts", ".social-share", ".social-catchphrase", ".expert", ".guest-data"]

  /** The site root the older scraper class carries as `base_url`. */
  const SiteUrl: string := "https://www.blogdumoderateur.com"

  /** The record kept per image; `width` and `height` are the raw attributes, if present. */
  datatype ImageInfo = ImageInfo(url: string, description: string, alt: string, width: Option<string>, height: Option<string>)

  /** A protocol-relative URL gets `https:`, a root-relative one the site root; any other is kept. */
  function Absolutize(url: string, base: string): (r: string)
    ensures StartsWith(url, "//") ==> r == "https:" + url
    ensures StartsWith(url, "/") && !StartsWith(url, "//") ==> r == base + url
    ensures !StartsWith(url, "/") ==> r == url
  {
    if StartsWith(url, "//") then "https:" + url
    else if StartsWith(url, "/") then base + url
    else url
  }

  /** With a site root that is not itself relative, an absolutised URL is never relative and stays as it is. */
  lemma AbsolutizeIdempotent(url: string, base: string)
    requires base != [] && base[0] != '/'
    ensures !StartsWith(Absolutize(url, base), "/")
    ensures Absolutize(Absolutize(url, base), base) == Absolutize(url, base)
  {
    var r := Absolutize(url, base);
    if StartsWith(url, "/") {
      assert r[0] != '/';
    }
  }

  /** The attributes that may hold an image's address, in priority order. */
  const UrlKeys: seq<string> := ["src", "data-src", "data-lazy-src"]

  predicate IsSet(img: Node, key: string) {
    Get(img, key).Some? && Get(img, key).value != []
  }

  /** The image's address: the first of `src`, `data-src`, `data-lazy-src` that is set and non-empty. */
  function ImageUrl(img: Node): (r: Option<string>)
    ensures r.Some? ==> r.value != [] && exists i :: 0 <= i < |UrlKeys| && Get(img, UrlKeys[i]) == r
    ensures (exists i :: 0 <= i < |UrlKeys| && IsSet(img, UrlKeys[i])) ==> r.Some?
    ensures IsSet(img, "src") ==> r == Get(img, "src")
    ensures !IsSet(img, "src") && IsSet(img, "data-src") ==> r == Get(img, "data-src")
    ensures !IsSet(img, "src") && !IsSet(img, "data-src") && IsSet(img, "data-lazy-src") ==> r == Get(img, "data-lazy-src")
  {
    match GetFirst(img, UrlKeys)
    case Some(u) => if u != "" then Some(u) else None
    case None => None
  }

  /** The stripped first non-empty of `alt`, `title`, `data-caption`, or the empty string. */
  function OwnDescription(img: Node): (r: string)
    ensures IsStripped(r)
    ensures IsSet(img, "alt") ==> r == Strip(Get(img, "alt").value)
    ensures !IsSet(img, "alt") && IsSet(img, "title") ==> r == Strip(Get(img, "title").value)
    ensures !IsSet(img, "alt") && !IsSet(img, "title") && IsSet(img, "data-caption") ==> r == Strip(Get(img, "data-caption").value)
    ensures !IsSet(img, "alt") && !IsSet(img, "title") && !IsSet(img, "data-caption") ==> r == ""
  {
    Strip(match GetFirst(img, ["alt", "title", "data-caption"]) case Some(d) => d case None => "")
  }

  /** The text of the first `figcaption` below `scope`, if any. */
  function Caption(scope: Located): Option<string> {
    match SelectOne(scope, One(Tag("figcaption")))
    case Some(c) => Some(GetText(c.node))
    case None => None
  }

  /**
   * The description: a non-empty own text wins; else an enclosing `figure`
   * decides alone, by its caption or not at all; else, in the older variant
   * only, the direct parent's caption; else nothing.
   */
  function Description(img: Located, parentCaption: bool): (r: string)
    ensures OwnDescription(img.node) != "" ==> r == OwnDescription(img.node)
    ensures OwnDescription(img.node) == "" && FindParent(img, "figure").Some? ==>
      r == (if Caption(FindParent(img, "figure").value).Some? then Caption(FindParent(img, "figure").value).value else "")
    ensures (OwnDescription(img.node) == "" && FindParent(img, "figure").None? && parentCaption
      && ParentAt(img).Some? && Caption(ParentAt(img).value).Some?) ==> r == Caption(ParentAt(img).value).value
    ensures (OwnDescription(img.node) == "" && FindParent(img, "figure").None? && parentCaption
      && (ParentAt(img).None? || Caption(ParentAt(img).value).None?)) ==> r == ""
    ensures OwnDescription(img.node) == "" && FindParent(img, "figure").None? && !parentCaption ==> r == ""
  {
    var own := OwnDescription(img.node);
    if own != "" then own
    else
      match FindParent(img, "figure")
      case Some(figure) => (match Caption(figure) case Some(c) => c case None => own)
      case None =>
        if !parentCaption then own
        else
          match ParentAt(img)
          case Some(parent) => (match Caption(parent) case Some(c) => c case None => own)
          case None => own
  }

  /** The direct parent is consulted only when no `figure` encloses the image. */
  lemma FigureIgnoresParent(img: Located)
    requires FindParent(img, "figure").Some?
    ensures Description(img, true) == Description(img, false)
  {
  }

  /** An image whose `width` is all digits and below 200 is an icon and is skipped. */
  predicate TooNarrow(img: Node) {
    match Get(img, "width")
    case Some(w) => w != "" && AllDigits(w) && DigitsValue(w) < 200
    case None => false
  }

  /** What one image contributes: nothing without an address or when too narrow. */
  function Entry(img: Located, base: string, parentCaption: bool): (r: Option<ImageInfo>)
    ensures r.Some? <==> ImageUrl(img.node).Some? && !TooNarrow(img.node)
    ensures r.Some? ==>
      r.value.url == Absolutize(ImageUrl(img.node).value, base) && r.value.alt == GetOr(img.node, "alt", "")
      && r.value.width == Get(img.node, "width") && r.value.height == Get(img.node, "height")
    ensures r.Some? ==> r.value.description == Description(img, parentCaption)
  {
    match ImageUrl(img.node)
    case None => None
    case Some(u) =>
      if TooNarrow(img.node) then None
      else Some(ImageInfo(Absolutize(u, base), Description(img, parentCaption), GetOr(img.node, "alt", ""),
        Get(img.node, "width"), Get(img.node, "height")))
  }

  /** The key of the `i`-th image (counting from 1). */
  function Key(i: nat): string {
    "image_" + Decimal(i)
  }

  lemma KeyInjective(i: nat, j: nat)
    requires Key(i) == Key(j)
    ensures i == j
  {
    assert Decimal(i) == Key(i)[6..] && Decimal(j) == Key(j)[6..];
    DecimalInjective(i, j);
  }

  /** The dictionary built by the loop over `imgs`. */
  function Collect(imgs: seq<Located>, base: string, parentCaption: bool): map<string, ImageInfo>
    decreases |imgs|
  {
    if imgs == [] then map[]
    else
      var m := Collect(imgs[..|imgs| - 1], base, parentCaption);
      match Entry(imgs[|imgs| - 1], base, parentCaption)
      case Some(e) => m[Key(|imgs|) := e]
      case None => m
  }

  predicate Keyed(m: map<string, ImageInfo>, imgs: seq<Located>, base: string, parentCaption: bool, i: nat)
    requires 1 <= i <= |imgs|
  {
    (Key(i) in m <==> Entry(imgs[i - 1], base, parentCaption).Some?)
      && (Key(i) in m ==> m[Key(i)] == Entry(imgs[i - 1], base, parentCaption).value)
  }

  /**
   * `image_i` is present exactly when the `i`-th image (among all images of
   * the region, with or without an address) contributes, and holds its
   * record; no other key is present.
   */
  lemma {:induction false} CollectKeys(imgs: seq<Located>, base: string, parentCaption: bool)
    ensures forall i :: 1 <= i <= |imgs| ==> Keyed(Collect(imgs, base, parentCaption), imgs, base, parentCaption, i)
    ensures forall k :: k in Collect(imgs, base, parentCaption) ==> exists i :: 1 <= i <= |imgs| && k == Key(i)
    decreases |imgs|
  {
    if imgs != [] {
      var n := |imgs|;
      var init := imgs[..n - 1];
      CollectKeys(init, base, parentCaption);
      var m0 := Collect(init, base, parentCaption);
      var m := Collect(imgs, base, parentCaption);
      var last := Entry(imgs[n - 1], base, parentCaption);
      assert m == if last.Some? then m0[Key(n) := last.value] else m0;
      forall i | 1 <= i <= n ensures Keyed(m, imgs, base, parentCaption, i) {
        if i < n {
          assert init[i - 1] == imgs[i - 1];
          assert Keyed(m0, init, base, parentCaption, i);
          if Key(i) == Key(n) { KeyInjective(i, n); }
        } else if Key(n) in m0 {
          var j :| 1 <= j <= n - 1 && Key(n) == Key(j);
          KeyInjective(j, n);
        }
      }
      forall k | k in m ensures exists i :: 1 <= i <= n && k == Key(i) {
        if k !in m0 {
          assert k == Key(n);
        }
      }
    }
  }

  /** An image whose width is all digits and below 200 never gets a key. */
  lemma NarrowExcluded(imgs: seq<Located>, base: string, parentCaption: bool, i: nat)
    requires 1 <= i <= |imgs| && TooNarrow(imgs[i - 1].node)
    ensures Key(i) !in Collect(imgs, base, parentCaption)
  {
    CollectKeys(imgs, base, parentCaption);
    assert Keyed(Collect(imgs, base, parentCaption), imgs, base, parentCaption, i);
  }

  /** The first region selector that matches anything. */
  function FindArea(root: Node, sels: seq<seq<Selector>>): Option<Located>
    decreases |sels|
  {
    if sels == [] then None
    else
      match SelectOne(DocLoc(root), sels[0])
      case Some(at) => Some(at)
      case None => FindArea(root, sels[1..])
  }

  /** The page after the removals, and the images of the cleaned region in document order. */
  function AreaImages(root: Node, area: Located): (Node, seq<Located>) {
    var cleaned := Prune(area.node, TagsOf(ImageNoise));
    var root' := ReplaceAt(root, area.path, cleaned);
    (root', Select(Located(area.path, AncestorsAt(root', area.path), cleaned), One(Tag("img"))))
  }

  /** `extract_images`: the page afterwards and the dictionary. */
  function ImagesOf(root: Node, base: string, parentCaption: bool): (Node, map<string, ImageInfo>) {
    match FindArea(root, Content.Regions)
    case None => (root, map[])
    case Some(area) =>
      var (root', imgs) := AreaImages(root, area);
      (root', Collect(imgs, base, parentCaption))
  }

  /** Without a content region there are no images and the page is left alone. */
  lemma {:induction false} NoAreaNoImages(root: Node, sels: seq<seq<Selector>>)
    requires forall j :: 0 <= j < |sels| ==> SelectOne(DocLoc(root), sels[j]).None?
    ensures FindArea(root, sels) == None
    decreases |sels|
  {
    if sels != [] {
      forall j | 0 <= j < |sels| - 1 ensures SelectOne(DocLoc(root), sels[1..][j]).None? {
        assert sels[1..][j] == sels[j + 1];
      }
      NoAreaNoImages(root, sels[1..]);
    }
  }

  /** The region search: the first content selector that matches. */
  method FindRegion(soup: Soup) returns (area: Option<Located>)
    ensures area == FindArea(soup.root, Content.Regions)
  {
    var i := 0;
    while i < |Content.Regions|
      invariant 0 <= i <= |Content.Regions|
      invariant FindArea(soup.root, Content.Regions) == FindArea(soup.root, Content.Regions[i..])
    {
      assert Content.Regions[i..][0] == Content.Regions[i] && Content.Regions[i..][1..] == Content.Regions[i + 1..];
      area := SelectOne(soup.Scope(), Content.Regions[i]);
      if area.Some? {
        return;
      }
      i := i + 1;
    }
    area := None;
  }

  /** The loop over the images of the cleaned region. */
  method CollectImages(imgs: seq<Located>, base: string, parentCaption: bool) returns (images: map<string, ImageInfo>)
    ensures images == Collect(imgs, base, parentCaption)
  {
    images := map[];
    var j := 0;
    while j < |imgs|
      invariant 0 <= j <= |imgs|
      invariant images == Collect(imgs[..j], base, parentCaption)
    {
      assert imgs[..j + 1][..j] == imgs[..j];
      var e := Entry(imgs[j], base, parentCaption);
      if e.Some? {
        images := images[Key(j + 1) := e.value];
      }
      j := j + 1;
    }
    assert imgs[..j] == imgs;
  }

  /** `extract_images`: the region search, the removals in place, and the loop over the images. */
  method ExtractImages(soup: Soup, base: string, parentCaption: bool) returns (images: map<string, ImageInfo>)
    modifies soup
    ensures (soup.root, images) == ImagesOf(old(soup.root), base, parentCaption)
  {
    var area := FindRegion(soup);
    if area.None? {
      return map[];
    }
    var cleaned := AreaImages(soup.root, area.value);
    soup.root := cleaned.0;
    images := CollectImages(cleaned.1, base, parentCaption);
  }
}
