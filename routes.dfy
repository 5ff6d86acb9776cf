// The content filters of the web front end: Markdown headings turned into
// HTML headings line by line, and video addresses wrapped in a player.

module Routes {
  import opened Text

  // ---------------------------------------------------------------------------
  // convert_markdown_titles
  // ---------------------------------------------------------------------------

  datatype Level = H1 | H2 | H3

  /** The line prefix each pass looks for. */
  function Marker(l: Level): string {
    match l
    case H1 => "# "
    case H2 => "## "
    case H3 => "### "
  }

  function Name(l: Level): string {
    match l
    case H1 => "h1"
    case H2 => "h2"
    case H3 => "h3"
  }

  /** The style classes of each heading. */
  function Classes(l: Level): seq<string> {
    match l
    case H1 => ["text-3xl", "font-bold", "text-gray-100", "mt-8", "mb-6", "border-b-2", "border-pink-500", "pb-2"]
    case H2 => ["text-2xl", "font-bold", "text-gray-100", "mt-8", "mb-4", "border-l-4", "border-pink-500", "pl-4"]
    case H3 => ["text-xl", "font-semibold", "text-gray-200", "mt-6", "mb-3"]
  }

  function Open(l: Level): string {
    "<" + Name(l) + " class=\"" + Join(Classes(l), " ") + "\">"
  }

  function Close(l: Level): string {
    "</" + Name(l) + ">"
  }

  lemma ClassesPlain(l: Level)
    ensures forall k :: 0 <= k < |Classes(l)| ==> '\n' !in Classes(l)[k]
  {
    match l
    case H1 =>
    case H2 =>
    case H3 =>
  }

  /** The heading tags hold no newline, and the opening tag starts with `<`. */
  lemma TagsPlain(l: Level)
    ensures '\n' !in Open(l) && '\n' !in Close(l)
    ensures |Open(l)| > 0 && Open(l)[0] == '<'
  {
    ClassesPlain(l);
    JoinAvoids(Classes(l), " ", '\n');
    assert '\n' !in Name(l);
    WrapPlain(Name(l), Join(Classes(l), " "));
  }

  /** Tags built around a name and a class list without newlines have none either. */
  lemma WrapPlain(name: string, cls: string)
    requires '\n' !in name && '\n' !in cls
    ensures '\n' !in "<" + name + " class=\"" + cls + "\">" && '\n' !in "</" + name + ">"
    ensures ("<" + name + " class=\"" + cls + "\">")[0] == '<'
  {
    assert '\n' !in " class=\"";
    assert '\n' !in "\">";
  }

  /** The opening and closing tag each level is wrapped in. */
  type Tags = Level -> (string, string)

  function HeadingTags(): Tags {
    l => (Open(l), Close(l))
  }

  /** Tags without newlines whose opening tag starts with `<`. */
  ghost predicate Plain(tags: Tags) {
    forall l :: '\n' !in tags(l).0 && '\n' !in tags(l).1 && |tags(l).0| > 0 && tags(l).0[0] == '<'
  }

  lemma HeadingTagsPlain()
    ensures Plain(HeadingTags())
  {
    forall l ensures '\n' !in HeadingTags()(l).0 && '\n' !in HeadingTags()(l).1
      && |HeadingTags()(l).0| > 0 && HeadingTags()(l).0[0] == '<'
    {
      TagsPlain(l);
    }
  }

  /** The line is the marker followed by at least one character: what `^<marker>(.+)$` matches. */
  predicate Marked(line: string, l: Level) {
    StartsWith(line, Marker(l)) && |line| > |Marker(l)|
  }

  /** One line under one pass: a marked line becomes the heading around the rest of the line. */
  function Rewrite(line: string, l: Level, tags: Tags): string {
    if Marked(line, l) then tags(l).0 + line[|Marker(l)|..] + tags(l).1 else line
  }

  function RewriteAll(lines: seq<string>, l: Level, tags: Tags): seq<string> {
    seq(|lines|, i requires 0 <= i < |lines| => Rewrite(lines[i], l, tags))
  }

  /** One `re.sub` pass in multi-line mode: `.+` never crosses a newline, so the pass rewrites each line on its own. */
  function Pass(s: string, l: Level, tags: Tags): string {
    Join(RewriteAll(Split(s, '\n'), l, tags), "\n")
  }

  /** The three passes in the order they run: `##`, then `###`, then `#`. */
  function TitlesWith(s: string, tags: Tags): string {
    Pass(Pass(Pass(s, H2, tags), H3, tags), H1, tags)
  }

  function ConvertTitles(s: string): string {
    TitlesWith(s, HeadingTags())
  }

  /** `convert_markdown_titles`: no content and empty content are returned as they are. */
  function ConvertMarkdownTitles(content: Option<string>): (r: Option<string>)
    ensures content.None? || content == Some("") ==> r == content
    ensures content.Some? ==> r.Some?
  {
    match content
    case None => None
    case Some(s) => if s == "" then content else Some(ConvertTitles(s))
  }

  /** The rule for one line: the first of `## `, `### `, `# ` that marks it decides its heading; an unmarked line stays. */
  function Heading(line: string, tags: Tags): string {
    if Marked(line, H2) then Rewrite(line, H2, tags)
    else if Marked(line, H3) then Rewrite(line, H3, tags)
    else Rewrite(line, H1, tags)
  }

  lemma RewriteNoNewline(line: string, l: Level, tags: Tags)
    requires Plain(tags) && '\n' !in line
    ensures '\n' !in Rewrite(line, l, tags)
  {
    if Marked(line, l) {
      var m := |Marker(l)|;
      assert forall i :: 0 <= i < |line[m..]| ==> line[m..][i] == line[m + i];
    }
  }

  /** After a pass, the lines are the rewritten lines: no line is split or merged. */
  lemma PassLines(s: string, l: Level, tags: Tags)
    requires Plain(tags)
    ensures Split(Pass(s, l, tags), '\n') == RewriteAll(Split(s, '\n'), l, tags)
  {
    var lines := RewriteAll(Split(s, '\n'), l, tags);
    forall k | 0 <= k < |lines| ensures '\n' !in lines[k] {
      RewriteNoNewline(Split(s, '\n')[k], l, tags);
    }
    SplitJoin(lines, '\n');
  }

  /** Every marker starts with `#`. */
  lemma MarkedHash(line: string, l: Level)
    requires Marked(line, l)
    ensures line[0] == '#'
  {
    assert line[..|Marker(l)|][0] == Marker(l)[0];
  }

  /** A rewritten line starts with `<`, so no marker matches it. */
  lemma RewrittenUnmarked(line: string, l: Level, k: Level, tags: Tags)
    requires Plain(tags) && Marked(line, l)
    ensures !Marked(Rewrite(line, l, tags), k)
  {
    var h := Rewrite(line, l, tags);
    assert h[0] == '<';
    if Marked(h, k) {
      MarkedHash(h, k);
    }
  }

  /** Running the three passes on a line amounts to the line rule. */
  lemma HeadingOnce(line: string, tags: Tags)
    requires Plain(tags)
    ensures Rewrite(Rewrite(Rewrite(line, H2, tags), H3, tags), H1, tags) == Heading(line, tags)
  {
    if Marked(line, H2) {
      RewrittenUnmarked(line, H2, H3, tags);
      RewrittenUnmarked(line, H2, H1, tags);
    } else if Marked(line, H3) {
      RewrittenUnmarked(line, H3, H1, tags);
    }
  }

  /**
   * The three passes rewrite each line by `Heading` and nothing else: the
   * result has as many lines as the content, and its `i`-th line is the
   * `i`-th line of the content under `Heading`.
   */
  lemma TitlesByLine(s: string, tags: Tags)
    requires Plain(tags)
    ensures var lines := Split(s, '\n');
      Split(TitlesWith(s, tags), '\n') == seq(|lines|, i requires 0 <= i < |lines| => Heading(lines[i], tags))
  {
    var lines := Split(s, '\n');
    PassLines(s, H2, tags);
    PassLines(Pass(s, H2, tags), H3, tags);
    PassLines(Pass(Pass(s, H2, tags), H3, tags), H1, tags);
    forall i | 0 <= i < |lines|
      ensures Split(TitlesWith(s, tags), '\n')[i] == Heading(lines[i], tags)
    {
      HeadingOnce(lines[i], tags);
    }
  }

  /** `## X` with `X` non-empty becomes the level-2 heading around `X`. */
  lemma HeadingTwo(x: string, tags: Tags)
    requires x != []
    ensures Heading("## " + x, tags) == tags(H2).0 + x + tags(H2).1
  {
    assert ("## " + x)[..3] == "## " && ("## " + x)[3..] == x;
  }

  /** `### X` with `X` non-empty becomes the level-3 heading around `X`. */
  lemma HeadingThree(x: string, tags: Tags)
    requires x != []
    ensures Heading("### " + x, tags) == tags(H3).0 + x + tags(H3).1
  {
    assert ("### " + x)[..4] == "### " && ("### " + x)[4..] == x;
    assert ("### " + x)[..3][2] == '#';
  }

  /** `# X` with `X` non-empty becomes the level-1 heading around `X`. */
  lemma HeadingOne(x: string, tags: Tags)
    requires x != []
    ensures Heading("# " + x, tags) == tags(H1).0 + x + tags(H1).1
  {
    assert ("# " + x)[..2] == "# " && ("# " + x)[2..] == x;
    assert |"# " + x| >= 3 ==> ("# " + x)[..3][1] == ' ';
    assert |"# " + x| >= 4 ==> ("# " + x)[..4][1] == ' ';
  }

  /** A line that does not start with `#` is left as it is. */
  lemma HeadingPlain(line: string, tags: Tags)
    requires line == [] || line[0] != '#'
    ensures Heading(line, tags) == line
  {
    if Marked(line, H2) { MarkedHash(line, H2); }
    if Marked(line, H3) { MarkedHash(line, H3); }
    if Marked(line, H1) { MarkedHash(line, H1); }
  }

  /** A non-empty line stays non-empty. */
  lemma HeadingKeepsText(line: string, tags: Tags)
    requires Plain(tags) && line != []
    ensures Heading(line, tags) != []
  {
  }

  // ---------------------------------------------------------------------------
  // convert_video_links
  // ---------------------------------------------------------------------------

  predicate NoSpace(s: string) {
    forall i :: 0 <= i < |s| ==> !IsSpace(s[i])
  }

  const Exts: seq<string> := ["mp4", "webm", "ogg", "mov", "avi"]

  /** The length of the `.ext` that `t` starts with, for the first extension that fits, or 0. */
  function ExtFrom(t: string, es: seq<string>): (n: nat)
    ensures n > 0 ==> exists i :: 0 <= i < |es| && n == |es[i]| + 1 && StartsWith(t, "." + es[i])
    ensures n == 0 ==> forall i :: 0 <= i < |es| ==> !StartsWith(t, "." + es[i])
    decreases |es|
  {
    if es == [] then 0
    else if StartsWith(t, "." + es[0]) then |es[0]| + 1
    else
      var n := ExtFrom(t, es[1..]);
      assert forall i :: 1 <= i < |es| ==> es[i] == es[1..][i - 1];
      n
  }

  /** `\.(?:mp4|webm|ogg|mov|avi)` at the start of `t`: the length of the match, or 0. */
  function ExtLen(t: string): nat {
    ExtFrom(t, Exts)
  }

  /** How long an extension match at the start of a string is (0 for none). */
  type ExtRule = string -> nat

  /** An extension match lies within the string and holds no whitespace. */
  ghost predicate ExtSound(ext: ExtRule) {
    forall t :: 0 < ext(t) ==> ext(t) <= |t| && NoSpace(t[..ext(t)])
  }

  lemma ExtsPlain()
    ensures forall i :: 0 <= i < |Exts| ==> NoSpace("." + Exts[i])
  {
    assert NoSpace(".mp4") && NoSpace(".webm") && NoSpace(".ogg") && NoSpace(".mov") && NoSpace(".avi");
  }

  /** The video extensions: a dot and one of the five names, never whitespace. */
  lemma ExtLenSound()
    ensures ExtSound(ExtLen)
    ensures forall t :: ExtLen(t) > 0 <==> exists i :: 0 <= i < |Exts| && StartsWith(t, "." + Exts[i])
  {
    ExtsPlain();
    forall t | 0 < ExtLen(t) ensures ExtLen(t) <= |t| && NoSpace(t[..ExtLen(t)]) {
      var i :| 0 <= i < |Exts| && ExtLen(t) == |Exts[i]| + 1 && StartsWith(t, "." + Exts[i]);
      assert t[..ExtLen(t)] == "." + Exts[i];
    }
  }

  /** `https?://`: the scheme's length, or 0. */
  function Scheme(s: string): (p: nat)
    ensures p == 0 || p <= |s|
    ensures p == 0 <==> !StartsWith(s, "http://") && !StartsWith(s, "https://")
    ensures p > 0 ==> s[..p] == "http://" || s[..p] == "https://"
  {
    if StartsWith(s, "https://") then 8 else if StartsWith(s, "http://") then 7 else 0
  }

  /** The two fixed parts of the video pattern: the scheme and the extension, each as the length it matches. */
  datatype Pattern = Pattern(scheme: string -> nat, ext: ExtRule)

  /** A scheme match lies within the string; an extension match too, without whitespace. */
  ghost predicate Sound(pat: Pattern) {
    (forall s :: pat.scheme(s) == 0 || pat.scheme(s) <= |s|) && ExtSound(pat.ext)
  }

  /** `https?://[^\s]+\.(?:mp4|webm|ogg|mov|avi)(?:\?[^\s]*)?`. */
  function VideoPattern(): Pattern {
    Pattern(Scheme, ExtLen)
  }

  lemma VideoPatternSound()
    ensures Sound(VideoPattern())
  {
    ExtLenSound();
  }

  /** The length of the run of non-space characters `s` starts with. */
  function RunLength(s: string): (n: nat)
    ensures n <= |s| && NoSpace(s[..n]) && (n < |s| ==> IsSpace(s[n]))
    decreases |s|
  {
    if s == [] || IsSpace(s[0]) then 0
    else
      var n := RunLength(s[1..]);
      assert s[..n + 1] == [s[0]] + s[1..][..n];
      n + 1
  }

  /** The last position in `[lo, hi)` where an extension starts. */
  function LastExt(s: string, lo: nat, hi: nat, pat: Pattern): (j: Option<nat>)
    requires hi <= |s|
    ensures j.Some? ==> (lo <= j.value < hi && pat.ext(s[j.value..]) > 0
                         && forall i :: j.value < i < hi ==> pat.ext(s[i..]) == 0)
    ensures j.None? ==> forall i :: lo <= i < hi ==> pat.ext(s[i..]) == 0
    decreases hi
  {
    if hi <= lo then None
    else if pat.ext(s[hi - 1..]) > 0 then Some(hi - 1)
    else LastExt(s, lo, hi - 1, pat)
  }

  /** An extension that starts inside a run of non-space characters ends inside it. */
  lemma ExtInRun(s: string, p: nat, end: nat, d: nat, pat: Pattern)
    requires Sound(pat)
    requires p <= |s| && end == p + RunLength(s[p..]) && p <= d < end && pat.ext(s[d..]) > 0
    ensures d + pat.ext(s[d..]) <= end
  {
    var n := pat.ext(s[d..]);
    assert s[d..][..n] == s[d..d + n];
    RunStops(s, p, d, d + n);
  }

  /** Every stretch from `p` inside the run of non-space characters holds no whitespace. */
  lemma RunPrefix(s: string, p: nat, stop: nat)
    requires p <= |s| && p <= stop <= p + RunLength(s[p..])
    ensures NoSpace(s[p..stop])
  {
    assert s[p..stop] == s[p..][..RunLength(s[p..])][..stop - p];
  }

  /** A stretch without whitespace that starts inside the run of non-space characters ends inside it. */
  lemma RunStops(s: string, p: nat, a: nat, b: nat)
    requires p <= a <= b <= |s| && a <= p + RunLength(s[p..]) && NoSpace(s[a..b])
    ensures b <= p + RunLength(s[p..])
  {
    var e := p + RunLength(s[p..]);
    assert forall k :: a <= k < b ==> !IsSpace(s[k]) by {
      forall k | a <= k < b ensures !IsSpace(s[k]) {
        assert s[a..b][k - a] == s[k];
      }
    }
    assert e < |s| ==> IsSpace(s[e]) by {
      if e < |s| {
        assert s[p..][e - p] == s[e];
      }
    }
  }

  /**
   * The match of `https?://[^\s]+` followed by an extension and `(?:\?[^\s]*)?`
   * at the start of `s`, as its length. The greedy `[^\s]+` backs off to the
   * last extension inside the run of non-space characters; a `?` right after
   * the extension takes the rest of that run.
   */
  function MatchWith(s: string, pat: Pattern): (n: Option<nat>)
    requires Sound(pat)
    ensures n.Some? ==> pat.scheme(s) < n.value <= |s| && NoSpace(s[pat.scheme(s)..n.value])
  {
    var p := pat.scheme(s);
    if p == 0 then None
    else
      var end := p + RunLength(s[p..]);
      match LastExt(s, p + 1, end, pat)
      case None => None
      case Some(d) =>
        ExtInRun(s, p, end, d, pat);
        var e := d + pat.ext(s[d..]);
        var stop := if e < end && s[e] == '?' then end else e;
        RunPrefix(s, p, stop);
        Some(stop)
  }

  /** A video address starts `s`: a scheme, at least one character, then an extension, with no whitespace from the scheme on. */
  predicate UrlAt(s: string, d: nat, pat: Pattern) {
    0 < pat.scheme(s) < d <= |s| && pat.ext(s[d..]) > 0 && d + pat.ext(s[d..]) <= |s| && NoSpace(s[pat.scheme(s)..d + pat.ext(s[d..])])
  }

  /** If an address starts at `s` with its extension at `d`, the run of non-space characters reaches past `d`. */
  lemma UrlInRun(s: string, d: nat, pat: Pattern)
    requires UrlAt(s, d, pat)
    ensures d < pat.scheme(s) + RunLength(s[pat.scheme(s)..])
  {
    var p := pat.scheme(s);
    RunStops(s, p, p, d + pat.ext(s[d..]));
  }

  /** A match at the start covers a video address. */
  lemma MatchIsUrl(s: string, pat: Pattern)
    requires Sound(pat) && MatchWith(s, pat).Some?
    ensures exists d: nat :: UrlAt(s, d, pat)
  {
    var p := pat.scheme(s);
    var end := p + RunLength(s[p..]);
    assert p > 0 && LastExt(s, p + 1, end, pat).Some?;
    var d := LastExt(s, p + 1, end, pat).value;
    ExtIsUrl(s, d, pat);
  }

  /** An extension inside the run after the scheme, past its first character, ends a video address. */
  lemma ExtIsUrl(s: string, d: nat, pat: Pattern)
    requires Sound(pat) && 0 < pat.scheme(s) <= |s|
    requires pat.scheme(s) < d < pat.scheme(s) + RunLength(s[pat.scheme(s)..]) && pat.ext(s[d..]) > 0
    ensures UrlAt(s, d, pat)
  {
    var p := pat.scheme(s);
    var end := p + RunLength(s[p..]);
    var n := pat.ext(s[d..]);
    assert d + n <= end <= |s| by {
      ExtInRun(s, p, end, d, pat);
      assert |s[p..]| == |s| - p;
    }
    assert NoSpace(s[p..d + n]) by {
      RunPrefix(s, p, d + n);
    }
  }

  /** A video address at the start is matched, and the match reaches past the start of its extension. */
  lemma UrlIsMatched(s: string, d: nat, pat: Pattern)
    requires Sound(pat) && UrlAt(s, d, pat)
    ensures MatchWith(s, pat).Some? && MatchWith(s, pat).value > d
  {
    UrlInRun(s, d, pat);
    var p := pat.scheme(s);
    var end := p + RunLength(s[p..]);
    var j := LastExt(s, p + 1, end, pat).value;
    ExtInRun(s, p, end, j, pat);
  }

  /** The player that replaces an address; the address appears as the source and as the download link. */
  function Player(url: string): string {
    PlayerHead + url + PlayerMid + url + PlayerTail
  }

  const PlayerHead: string := "<video controls class=\"w-full max-w-2xl mx-auto my-4 rounded-lg shadow-lg\">\n    <source src=\""
  const PlayerMid: string := "\" type=\"video/mp4\">\n    Votre navigateur ne supporte pas la lecture de vid\U{E9}os.\n    <a href=\""
  const PlayerTail: string := "\" target=\"_blank\" class=\"text-pink-500 hover:text-pink-400\">T\U{E9}l\U{E9}charger la vid\U{E9}o</a>\n</video>"

  /** The address occurs twice in its player, at two different places. */
  lemma PlayerTwice(url: string)
    ensures OccursAt(Player(url), url, |PlayerHead|)
    ensures OccursAt(Player(url), url, |PlayerHead| + |url| + |PlayerMid|)
  {
    InTwice(PlayerHead, PlayerMid, PlayerTail, url);
  }

  lemma InTwice(h: string, m: string, t: string, u: string)
    ensures OccursAt(h + u + m + u + t, u, |h|)
    ensures OccursAt(h + u + m + u + t, u, |h| + |u| + |m|)
  {
    var p := h + u + m + u + t;
    assert p == h + u + (m + u + t);
    assert p[|h|..|h| + |u|] == u;
    assert p == (h + u + m) + u + t;
    assert p[|h| + |u| + |m|..|h| + |u| + |m| + |u|] == u;
  }

  /** `re.sub` with the video pattern: scanning left to right, each match replaced by `wrap` of it. */
  function VideosWith(s: string, pat: Pattern, wrap: string -> string): string
    requires Sound(pat)
    decreases |s|
  {
    if s == [] then []
    else
      match MatchWith(s, pat)
      case Some(n) => wrap(s[..n]) + VideosWith(s[n..], pat, wrap)
      case None => [s[0]] + VideosWith(s[1..], pat, wrap)
  }

  function Videos(s: string): string {
    VideoPatternSound();
    VideosWith(s, VideoPattern(), Player)
  }

  /** `convert_video_links`: no content and empty content are returned as they are. */
  function ConvertVideoLinks(content: Option<string>): (r: Option<string>)
    ensures content.None? || content == Some("") ==> r == content
    ensures content.Some? ==> r.Some?
  {
    match content
    case None => None
    case Some(s) => if s == "" then content else Some(Videos(s))
  }

  /** No video address starts anywhere in `s`. */
  ghost predicate NoUrl(s: string, pat: Pattern) {
    forall i, d: nat :: 0 <= i < |s| ==> !UrlAt(s[i..], d, pat)
  }

  /** Where no video address starts, the pattern does not match at the start, and no address starts in the rest. */
  lemma NoUrlSplit(s: string, pat: Pattern)
    requires Sound(pat) && s != [] && NoUrl(s, pat)
    ensures MatchWith(s, pat).None? && NoUrl(s[1..], pat)
  {
    assert forall d: nat :: !UrlAt(s[0..], d, pat);
    assert s[0..] == s;
    if MatchWith(s, pat).Some? {
      MatchIsUrl(s, pat);
    }
    forall i, d: nat | 0 <= i < |s[1..]| ensures !UrlAt(s[1..][i..], d, pat) {
      assert s[1..][i..] == s[i + 1..];
    }
  }

  /** Text in which no video address starts anywhere is left unchanged. */
  lemma {:induction false} VideosUnchanged(s: string, pat: Pattern, wrap: string -> string)
    requires Sound(pat) && NoUrl(s, pat)
    ensures VideosWith(s, pat, wrap) == s
    decreases |s|
  {
    if s != [] {
      NoUrlSplit(s, pat);
      VideosUnchanged(s[1..], pat, wrap);
      assert [s[0]] + s[1..] == s;
    }
  }

  /** An address at the start is replaced by a player around the whole match, which covers the address. */
  lemma VideosAtUrl(s: string, d: nat, pat: Pattern, wrap: string -> string)
    requires Sound(pat) && UrlAt(s, d, pat)
    ensures MatchWith(s, pat).Some? && MatchWith(s, pat).value > d
    ensures VideosWith(s, pat, wrap) == wrap(s[..MatchWith(s, pat).value]) + VideosWith(s[MatchWith(s, pat).value..], pat, wrap)
  {
    UrlIsMatched(s, d, pat);
  }

  /** Content with no video address is returned unchanged. */
  lemma NoVideoUnchanged(s: string)
    requires forall i, d: nat :: 0 <= i < |s| ==> !UrlAt(s[i..], d, VideoPattern())
    ensures ConvertVideoLinks(Some(s)) == Some(s)
  {
    VideoPatternSound();
    VideosUnchanged(s, VideoPattern(), Player);
  }

  // ---------------------------------------------------------------------------
  // process_content
  // ---------------------------------------------------------------------------

  /** `process_content`: headings first, then videos. */
  function ProcessContent(content: Option<string>): (r: Option<string>)
    ensures content.None? || content == Some("") ==> r == content
  {
    ConvertVideoLinks(ConvertMarkdownTitles(content))
  }

  /** Non-empty content is never emptied by the heading passes, so both conversions apply, headings first. */
  lemma ProcessBoth(s: string)
    requires s != ""
    ensures ProcessContent(Some(s)) == Some(Videos(ConvertTitles(s)))
  {
    var c := ConvertTitles(s);
    var lines := Split(s, '\n');
    HeadingTagsPlain();
    TitlesByLine(s, HeadingTags());
    JoinSplit(s, '\n');
    if |lines| == 1 {
      assert s == lines[0];
      HeadingKeepsText(s, HeadingTags());
      JoinSplit(c, '\n');
      assert Split(c, '\n') == [Heading(s, HeadingTags())];
    } else {
      assert |Split(c, '\n')| >= 2;
    }
    assert c != "";
  }
}
