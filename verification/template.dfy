/** Rendering a post page from `blog/post-template.html` (`createArticleFile`)
    and reading the body back out of a page (the article endpoint).

    Each substitution is `String.prototype.replace` with a non-global regular
    expression: only the leftmost match is replaced and the rest of the text
    is kept. The regular expressions used have one of three shapes, and for
    each the match starting at a given position is unique, so a match is
    computed directly rather than by a general regex engine. */
module Template {
  import opened Options
  import opened Strings
  import opened Dates
  import opened Articles

  /** The pattern shapes:
      - `Quoted(open, stop, close)` is `open[^stop]*close`, where `close`
        begins with `stop`, so the run stops at the first `stop`;
      - `Element(open, close)` is `open[^>]*>.*?close`: the rest of the
        opening tag, then the shortest text up to `close` within one line
        (`.` does not match line terminators);
      - `Block(open, close)` is `open[\s\S]*?close`: the shortest text up to
        `close`, across lines. */
  datatype Marker =
    | Quoted(open: string, stop: char, close: string)
    | Element(open: string, close: string)
    | Block(open: string, close: string)

  /** A match: the captured inner text is `t[inner..innerEnd]`, the closing
      text follows it, and the match ends at `end`. */
  datatype Span = Span(inner: nat, innerEnd: nat, end: nat)

  /** The end of the run of characters other than `c` starting at `k`. */
  function RunWithout(t: string, k: nat, c: char): (e: nat)
    requires k <= |t|
    ensures k <= e <= |t|
    ensures forall j | k <= j < e :: t[j] != c
    ensures e < |t| ==> t[e] == c
    decreases |t| - k
  {
    if k == |t| || t[k] == c then k else RunWithout(t, k + 1, c)
  }

  /** `.*?close` from `k`: the first occurrence of `close`, provided no line
      terminator comes before it. */
  function LineTo(t: string, k: nat, close: string): (r: Option<nat>)
    requires k <= |t|
    ensures r.Some? ==> k <= r.value <= |t| && StartsWith(t[r.value..], close)
    ensures r.Some? ==> forall j | k <= j < r.value :: !StartsWith(t[j..], close) && !IsLineTerminator(t[j])
    ensures r.None? ==> forall j | k <= j <= |t| :: StartsWith(t[j..], close) ==>
      exists m | k <= m < j :: IsLineTerminator(t[m])
    decreases |t| - k
  {
    if StartsWith(t[k..], close) then Some(k)
    else if k == |t| || IsLineTerminator(t[k]) then None
    else LineTo(t, k + 1, close)
  }

  /** The match of `m` starting exactly at position `i`, if any. */
  function MatchAt(m: Marker, t: string, i: nat): (r: Option<Span>)
    requires i <= |t|
    ensures r.Some? ==> i + |m.open| <= r.value.inner <= r.value.innerEnd
    ensures r.Some? ==> r.value.end == r.value.innerEnd + |m.close| <= |t|
  {
    if !StartsWith(t[i..], m.open) then None
    else
      match m
      case Quoted(_, stop, close) => QuotedRest(t, i + |m.open|, stop, close)
      case Element(_, close) => ElementRest(t, i + |m.open|, close)
      case Block(_, close) => BlockRest(t, i + |m.open|, close)
  }

  /** `[^stop]*close` from `k`. */
  function QuotedRest(t: string, k: nat, stop: char, close: string): (r: Option<Span>)
    requires k <= |t|
    ensures r.Some? ==> r == Some(Span(k, r.value.innerEnd, r.value.innerEnd + |close|))
    ensures r.Some? ==> k <= r.value.innerEnd && r.value.end <= |t| && StartsWith(t[r.value.innerEnd..], close)
  {
    var e := RunWithout(t, k, stop);
    if StartsWith(t[e..], close) then Some(Span(k, e, e + |close|)) else None
  }

  /** `[^>]*>.*?close` from `k`. */
  function ElementRest(t: string, k: nat, close: string): (r: Option<Span>)
    requires k <= |t|
    ensures r.Some? ==> k <= r.value.inner <= r.value.innerEnd
    ensures r.Some? ==> r.value.end == r.value.innerEnd + |close| <= |t|
    ensures r.Some? ==> StartsWith(t[r.value.innerEnd..], close)
  {
    var g := RunWithout(t, k, '>');
    if g == |t| then None
    else
      match LineTo(t, g + 1, close)
      case None => None
      case Some(e) => Some(Span(g + 1, e, e + |close|))
  }

  /** `[\s\S]*?close` from `k`. */
  function BlockRest(t: string, k: nat, close: string): (r: Option<Span>)
    requires k <= |t|
    ensures r.Some? ==> r == Some(Span(k, r.value.innerEnd, r.value.innerEnd + |close|))
    ensures r.Some? ==> k <= r.value.innerEnd && r.value.end <= |t| && StartsWith(t[r.value.innerEnd..], close)
  {
    match IndexOfFrom(t, close, k)
    case None => None
    case Some(e) => Some(Span(k, e, e + |close|))
  }

  /** A match begins with the opening text and its captured text is
      followed by the closing text. */
  lemma MatchAtDelimited(m: Marker, t: string, i: nat)
    requires i <= |t| && MatchAt(m, t, i).Some?
    ensures StartsWith(t[i..], m.open)
    ensures StartsWith(t[MatchAt(m, t, i).value.innerEnd..], m.close)
  {
  }

  /** The leftmost match starting at or after `i`. */
  function FirstMatchFrom(m: Marker, t: string, i: nat): (r: Option<(nat, Span)>)
    requires i <= |t|
    ensures r.Some? ==> i <= r.value.0 <= |t| && MatchAt(m, t, r.value.0) == Some(r.value.1)
    ensures r.Some? ==> forall j | i <= j < r.value.0 :: MatchAt(m, t, j).None?
    ensures r.None? ==> forall j | i <= j <= |t| :: MatchAt(m, t, j).None?
    decreases |t| - i
  {
    match MatchAt(m, t, i)
    case Some(sp) => Some((i, sp))
    case None =>
      if i == |t| then None
      else
        var r := FirstMatchFrom(m, t, i + 1);
        NoMatchExtends(m, t, i, if r.Some? then r.value.0 else |t| + 1);
        r
  }

  /** No match in `[i + 1, e)` and none at `i` is none in `[i, e)`. */
  lemma NoMatchExtends(m: Marker, t: string, i: nat, e: nat)
    requires i < e <= |t| + 1 && MatchAt(m, t, i).None?
    requires forall j | i + 1 <= j < e :: MatchAt(m, t, j).None?
    ensures forall j | i <= j < e :: MatchAt(m, t, j).None?
  {
  }

  /** `t.match(re)` for a non-global `re`. */
  function FirstMatch(m: Marker, t: string): Option<(nat, Span)> {
    FirstMatchFrom(m, t, 0)
  }

  /** A match at `i` with none further left is the one `FirstMatch` finds. */
  lemma FirstMatchIs(m: Marker, t: string, i: nat)
    requires i <= |t| && MatchAt(m, t, i).Some?
    requires forall j | 0 <= j < i :: MatchAt(m, t, j).None?
    ensures FirstMatch(m, t) == Some((i, MatchAt(m, t, i).value))
  {
  }

  /** `t.replace(re, rep)` for a non-global `re`. */
  function Replace(m: Marker, t: string, rep: string): (r: string)
    ensures (forall j | 0 <= j <= |t| :: MatchAt(m, t, j).None?) ==> r == t
  {
    match FirstMatch(m, t)
    case None => t
    case Some((i, sp)) => t[..i] + rep + t[sp.end..]
  }

  /** The leftmost match is replaced by `rep`, and everything before and
      after it is kept. */
  lemma ReplaceLeftmost(m: Marker, t: string, rep: string, i: nat)
    requires i <= |t| && MatchAt(m, t, i).Some?
    requires forall j | 0 <= j < i :: MatchAt(m, t, j).None?
    ensures Replace(m, t, rep) == t[..i] + rep + t[MatchAt(m, t, i).value.end..]
  {
    FirstMatchIs(m, t, i);
  }

  /** ` name="value"`: one attribute of an HTML start tag. */
  function Attr(name: string, value: string): string {
    " " + name + "=\"" + value + "\""
  }

  /** `<meta name="{name}" content="[^"]*">`. */
  function MetaMarker(name: string): Marker {
    Quoted("<meta" + Attr("name", name) + " content=\"", '"', "\">")
  }

  /** `<meta name="{name}" content="{value}">`. */
  function MetaTag(name: string, value: string): string {
    "<meta" + Attr("name", name) + Attr("content", value) + ">"
  }

  const TitleTag := Quoted("<title>", '<', "</title>")
  const TitleHeading := Element("<h1" + Attr("class", "article-title-main"), "</h1>")
  const DateHeader := Element("<span" + Attr("class", "article-date-header"), "</span>")
  const ReadTimeHeader := Element("<span" + Attr("class", "article-read-time-header"), "</span>")
  const TagsHeader := Element("<div" + Attr("class", "article-tags-header"), "</div>")
  const BodyBlock := Block("<div" + Attr("class", "article-content") + Attr("id", "article-body") + ">", "</div>")

  /** The tag list of the page header: one `article-tag` span per tag. */
  function TagsHtml(tags: seq<string>): string {
    if tags == [] then ""
    else "<span" + Attr("class", "article-tag") + ">" + tags[0] + "</span>" + TagsHtml(tags[1..])
  }

  /** Applies the substitutions one after the other, each to the text the
      previous one produced. */
  function ReplaceAll(t: string, subs: seq<(Marker, string)>): string
    decreases |subs|
  {
    if subs == [] then t else ReplaceAll(Replace(subs[0].0, t, subs[0].1), subs[1..])
  }

  /** The nine header substitutions of `createArticleFile`, in source order:
      each marker with the text that replaces its first match. Numbers print
      in decimal and the tags join with commas. */
  function HeadSubstitutions(parse: DateParser, a: Article): (subs: seq<(Marker, string)>)
    ensures |subs| == 9
  {
    [ (MetaMarker("article-id"), MetaTag("article-id", a.id)),
      (MetaMarker("article-date"), MetaTag("article-date", a.date)),
      (MetaMarker("article-tags"), MetaTag("article-tags", Join(a.tags, ","))),
      (MetaMarker("article-read-time"), MetaTag("article-read-time", IntToString(a.readTime))),
      (TitleTag, "<title>" + a.title + " - Moon</title>"),
      (TitleHeading,
        "<h1" + Attr("class", "article-title-main") + Attr("id", "article-title") + ">" + a.title + "</h1>"),
      (DateHeader,
        "<span" + Attr("class", "article-date-header") + Attr("id", "article-date") + ">"
        + FormatDateString(parse, a.date) + "</span>"),
      (ReadTimeHeader,
        "<span" + Attr("class", "article-read-time-header") + Attr("id", "article-read-time") + ">"
        + IntToString(a.readTime) + " мин чтения</span>"),
      (TagsHeader,
        "<div" + Attr("class", "article-tags-header") + Attr("id", "article-tags") + ">" + TagsHtml(a.tags) + "</div>") ]
  }

  /** The header part of `createArticleFile`. */
  function RenderHead(parse: DateParser, template: string, a: Article): string {
    ReplaceAll(template, HeadSubstitutions(parse, a))
  }

  /** `if (articleData.content)`: a present, non-empty body. */
  predicate HasBody(a: Article) {
    a.content.Some? && a.content.value != ""
  }

  /** Replacing a block by `c` wrapped in the block's own delimiters. */
  function SubstituteInner(m: Marker, t: string, c: string): string {
    Replace(m, t, m.open + c + m.close)
  }

  /** The body substitution of `createArticleFile`. */
  function SubstituteBody(t: string, content: string): string {
    SubstituteInner(BodyBlock, t, content)
  }

  /** The page `createArticleFile` writes for a record: the header
      substitutions, then the body one when there is a body. Read back, the
      body block holds the trimmed content up to its first `</div>`; without
      a body it keeps the template's own placeholder, and a header without a
      body block is the whole page. */
  function RenderPage(parse: DateParser, template: string, a: Article): (r: string)
    ensures FirstMatch(BodyBlock, RenderHead(parse, template, a)).None? ==> r == RenderHead(parse, template, a)
    ensures !HasBody(a) ==> ExtractBody(r) == ExtractBody(RenderHead(parse, template, a))
    ensures HasBody(a) && FirstMatch(BodyBlock, RenderHead(parse, template, a)).Some? ==>
      var c := a.content.value;
      ExtractBody(r) == (if Contains(c, "</div>") then Trim(BeforeClose("</div>", c)) else Trim(c))
  {
    var head := RenderHead(parse, template, a);
    if HasBody(a) then
      if FirstMatch(BodyBlock, head).Some? then
        ExtractSubstituted(head, a.content.value);
        SubstituteBody(head, a.content.value)
      else SubstituteBody(head, a.content.value)
    else head
  }

  /** The captured text of the leftmost match, trimmed, or "" without one. */
  function Inner(m: Marker, html: string): string {
    match FirstMatch(m, html)
    case None => ""
    case Some((_, sp)) => Trim(html[sp.inner..sp.innerEnd])
  }

  /** What the article endpoint reports as the content of a page:
      `match(...)[1].trim()`, or "" when the page has no body block. */
  function ExtractBody(html: string): string {
    Inner(BodyBlock, html)
  }

  lemma StartsWithShorter(s: string, n: nat, j: nat, w: string)
    requires j <= n <= |s|
    requires StartsWith(s[..n][j..], w)
    ensures StartsWith(s[j..], w)
  {
    assert s[..n][j..][..|w|] == s[j..][..|w|];
  }

  /** The part of a content string a page can give back: everything before
      the first occurrence of the closing text. */
  function BeforeClose(close: string, c: string): (r: string)
    requires close != []
    ensures StartsWith(c, r)
    ensures !Contains(r, close)
    ensures Contains(c, close) <==> |r| + |close| <= |c|
  {
    match IndexOf(c, close)
    case None => c
    case Some(p) =>
      forall j | 0 <= j <= p
        ensures !StartsWith(c[..p][j..], close)
      {
        if StartsWith(c[..p][j..], close) {
          StartsWithShorter(c, p, j, close);
        }
      }
      c[..p]
  }

  /** A text whose first character does not occur again in it. */
  predicate HeadOnce(w: string) {
    forall k | 0 < k < |w| :: w[k] != w[0]
  }

  /** A block whose delimiters cannot overlap themselves: this is what lets
      a substituted body be read back. */
  predicate Separated(m: Marker) {
    m.Block? && m.open != [] && m.close != [] && HeadOnce(m.open) && HeadOnce(m.close)
  }

  lemma BodyBlockSeparated()
    ensures Separated(BodyBlock)
  {
    var c1, c2 := Attr("class", "article-content"), Attr("id", "article-body");
    AttrWithout('<', "class", "article-content");
    AttrWithout('<', "id", "article-body");
    assert HeadOnce("<div");
    HeadOnceAppend("<div", c1);
    HeadOnceAppend("<div" + c1, c2);
    HeadOnceAppend("<div" + c1 + c2, ">");
    assert HeadOnce("</div>");
  }

  /** Appending text without the first character keeps it unrepeated. */
  lemma HeadOnceAppend(a: string, b: string)
    requires a != [] && HeadOnce(a) && a[0] !in b
    ensures (a + b)[0] == a[0] && HeadOnce(a + b)
  {
    forall k | 0 < k < |a + b|
      ensures (a + b)[k] != (a + b)[0]
    {
      if k < |a| {
        assert (a + b)[k] == a[k];
      } else {
        assert (a + b)[k] == b[k - |a|];
      }
    }
  }

  /** An attribute holds a character only if its name or value does. */
  lemma AttrWithout(c: char, name: string, value: string)
    requires c !in name && c !in value && c != ' ' && c != '=' && c != '"'
    ensures c !in Attr(name, value)
  {
  }

  /** An occurrence of such a text cannot overlap the start of another one. */
  lemma NoStraddle(u: string, w: string, q: nat, j: nat)
    requires HeadOnce(w)
    requires q < |u| && w != [] && u[q] == w[0]
    requires j < q < j + |w|
    ensures !StartsWith(u[j..], w)
  {
  }

  /** `indexOf` finds an occurrence with none before it. */
  lemma OccursFirst(s: string, w: string, k: nat, q: nat)
    requires k <= q <= |s| && StartsWith(s[q..], w)
    requires forall j | k <= j < q :: !StartsWith(s[j..], w)
    ensures IndexOfFrom(s, w, k) == Some(q)
  {
  }

  /** Occurrences in a suffix are occurrences in the whole, shifted. */
  lemma OccursFirstInSuffix(u: string, k: nat, v: string, w: string, p: nat)
    requires k <= |u| && u[k..] == v && p <= |v|
    requires StartsWith(v[p..], w)
    requires forall j | 0 <= j < p :: !StartsWith(v[j..], w)
    ensures IndexOfFrom(u, w, k) == Some(k + p)
  {
    assert u[k + p..] == v[p..];
    forall j | k <= j < k + p
      ensures !StartsWith(u[j..], w)
    {
      assert u[j..] == v[j - k..];
    }
    OccursFirst(u, w, k, k + p);
  }

  /** Inside the first part of a concatenation, the second is invisible. */
  lemma InFirstPart(c: string, x: string, j: nat, w: string)
    requires j + |w| <= |c|
    ensures StartsWith((c + x)[j..], w) <==> StartsWith(c[j..], w)
  {
    assert (c + x)[j..][..|w|] == c[j..][..|w|];
  }

  /** In content followed by the closing text, the first occurrence of the
      closing text is the one `BeforeClose` stops at. */
  lemma FirstCloseAfterContent(close: string, c: string, rest: string)
    requires close != [] && HeadOnce(close)
    ensures var v := c + (close + rest);
      StartsWith(v[|BeforeClose(close, c)|..], close)
      && forall j | 0 <= j < |BeforeClose(close, c)| :: !StartsWith(v[j..], close)
  {
    var x := close + rest;
    var v := c + x;
    var p := |BeforeClose(close, c)|;
    var n := |close|;
    match IndexOf(c, close)
    case Some(q) =>
      assert q == p;
      InFirstPart(c, x, p, close);
      forall j | 0 <= j < p
        ensures !StartsWith(v[j..], close)
      {
        InFirstPart(c, x, j, close);
      }
    case None =>
      assert p == |c|;
      assert v[p..] == x;
      forall j | 0 <= j < p
        ensures !StartsWith(v[j..], close)
      {
        if j + n <= |c| {
          InFirstPart(c, x, j, close);
        } else {
          assert v[|c|] == close[0];
          NoStraddle(v, close, |c|, j);
        }
      }
  }

  /** The text produced by substituting `c` into the block matched at `i`. */
  function Splice(m: Marker, h: string, i: nat, sp: Span, c: string): string
    requires i <= sp.end <= |h|
  {
    h[..i] + (m.open + (c + (m.close + h[sp.end..])))
  }

  /** A block that does not match at `j` although its closing text occurs
      further on does not open at `j`. */
  lemma NoOpenWithoutMatch(m: Marker, h: string, j: nat)
    requires m.Block? && j + |m.open| <= |h|
    requires MatchAt(m, h, j).None?
    requires IndexOfFrom(h, m.close, j + |m.open|).Some?
    ensures !StartsWith(h[j..], m.open)
  {
  }

  /** In the spliced text, no block starts before the inserted one. */
  lemma SpliceNothingEarlier(m: Marker, h: string, i: nat, sp: Span, c: string, j: nat)
    requires Separated(m)
    requires FirstMatch(m, h) == Some((i, sp))
    requires j < i
    ensures MatchAt(m, Splice(m, h, i, sp, c), j).None?
  {
    var u := Splice(m, h, i, sp, c);
    assert u[i] == m.open[0];
    if j + |m.open| <= i {
      assert u[j..][..|m.open|] == h[j..][..|m.open|];
      MatchAtDelimited(m, h, i);
      assert IndexOfFrom(h, m.close, j + |m.open|).Some?;
      NoOpenWithoutMatch(m, h, j);
    } else {
      NoStraddle(u, m.open, i, j);
    }
  }

  /** Searching from `k`, the closing text is first found `n` characters on. */
  predicate CloseAfter(t: string, close: string, k: nat, n: nat) {
    k <= |t| && IndexOfFrom(t, close, k) == Some(k + n)
  }

  /** How a block matches once its opening and closing texts are located. */
  lemma BlockMatchAt(m: Marker, t: string, i: nat, n: nat)
    requires m.Block? && i <= |t| && StartsWith(t[i..], m.open)
    requires CloseAfter(t, m.close, i + |m.open|, n)
    ensures MatchAt(m, t, i) == Some(Span(i + |m.open|, i + |m.open| + n, i + |m.open| + n + |m.close|))
  {
  }

  /** After the opening text, the closing text is first found where
      `BeforeClose` stops. */
  lemma CloseFoundAt(close: string, c: string, rest: string, u: string, k: nat, x: string)
    requires close != [] && HeadOnce(close)
    requires k <= |u| && u[k..] == c + (close + rest)
    requires x == BeforeClose(close, c)
    ensures CloseAfter(u, close, k, |x|)
  {
    FirstCloseAfterContent(close, c, rest);
    OccursFirstInSuffix(u, k, c + (close + rest), close, |x|);
  }

  /** The captured text is the part of the content before its first closing text. */
  lemma CapturedText(c: string, close: string, rest: string, u: string, k: nat)
    requires close != []
    requires k <= |u| && u[k..] == c + (close + rest)
    ensures var p := |BeforeClose(close, c)|;
      k + p <= |u| && u[k..k + p] == BeforeClose(close, c)
  {
    var v := c + (close + rest);
    var p := |BeforeClose(close, c)|;
    assert u[k..k + p] == v[..p];
    assert v[..p] == c[..p];
  }

  /** Positions in `a + (o + v)`. */
  lemma SplitAt(a: string, o: string, v: string)
    ensures var u := a + (o + v);
      StartsWith(u[|a|..], o) && u[|a| + |o|..] == v
  {
    var u := a + (o + v);
    assert u[|a|..] == o + v;
    assert (o + v)[..|o|] == o;
    assert (o + v)[|o|..] == v;
  }

  /** The captured text of the leftmost match, once that match is known. */
  lemma InnerOfLeftmost(m: Marker, u: string, i: nat, sp: Span, x: string)
    requires i <= |u| && MatchAt(m, u, i) == Some(sp)
    requires forall j | 0 <= j < i :: MatchAt(m, u, j).None?
    requires sp.innerEnd <= |u| && u[sp.inner..sp.innerEnd] == x
    ensures Inner(m, u) == Trim(x)
  {
    FirstMatchIs(m, u, i);
  }

  /** Round trip for a separated block: after its leftmost occurrence is
      replaced by `c`, reading it back gives `c` trimmed, cut at its first
      closing text. */
  lemma InnerSubstituted(m: Marker, h: string, c: string)
    requires Separated(m)
    requires FirstMatch(m, h).Some?
    ensures Inner(m, SubstituteInner(m, h, c)) == Trim(BeforeClose(m.close, c))
  {
    var (i, sp) := FirstMatch(m, h).value;
    SubstituteIsSplice(m, h, c);
    InnerOfSplice(m, h, i, sp, c);
  }

  /** `InnerSubstituted`, stated on the spliced text. */
  lemma InnerOfSplice(m: Marker, h: string, i: nat, sp: Span, c: string)
    requires Separated(m)
    requires FirstMatch(m, h) == Some((i, sp))
    ensures i <= sp.end <= |h|
    ensures Inner(m, Splice(m, h, i, sp, c)) == Trim(BeforeClose(m.close, c))
  {
    var u := Splice(m, h, i, sp, c);
    var x := BeforeClose(m.close, c);
    SpliceNothingBefore(m, h, i, sp, c);
    var found := SpliceMatch(m, h, i, sp, c);
    InnerOfLeftmost(m, u, i, found, x);
  }

  /** No match of the spliced text starts before the splice. */
  lemma SpliceNothingBefore(m: Marker, h: string, i: nat, sp: Span, c: string)
    requires Separated(m)
    requires FirstMatch(m, h) == Some((i, sp))
    ensures i <= sp.end <= |h|
    ensures forall j | 0 <= j < i :: MatchAt(m, Splice(m, h, i, sp, c), j).None?
  {
    forall j | 0 <= j < i
      ensures MatchAt(m, Splice(m, h, i, sp, c), j).None?
    {
      SpliceNothingEarlier(m, h, i, sp, c, j);
    }
  }

  /** The spliced block matches where the old one began. */
  lemma SpliceMatch(m: Marker, h: string, i: nat, sp: Span, c: string) returns (found: Span)
    requires Separated(m)
    requires i <= sp.end <= |h|
    ensures i <= |Splice(m, h, i, sp, c)|
    ensures MatchAt(m, Splice(m, h, i, sp, c), i) == Some(found)
    ensures found.innerEnd <= |Splice(m, h, i, sp, c)|
    ensures Splice(m, h, i, sp, c)[found.inner..found.innerEnd] == BeforeClose(m.close, c)
  {
    SpliceShape(m, h, i, sp, c);
    found := BlockAt(m, Splice(m, h, i, sp, c), i, c, h[sp.end..]);
  }

  /** A block opening at `i` and holding `c` then `rest` ends at the first
      closing text inside `c`, or else at its own closing text. */
  lemma BlockAt(m: Marker, u: string, i: nat, c: string, rest: string) returns (found: Span)
    requires Separated(m)
    requires i + |m.open| <= |u| && StartsWith(u[i..], m.open)
    requires u[i + |m.open|..] == c + (m.close + rest)
    ensures MatchAt(m, u, i) == Some(found)
    ensures found.innerEnd <= |u| && u[found.inner..found.innerEnd] == BeforeClose(m.close, c)
  {
    var k, x := i + |m.open|, BeforeClose(m.close, c);
    CloseFoundAt(m.close, c, rest, u, k, x);
    CapturedText(c, m.close, rest, u, k);
    BlockMatchAt(m, u, i, |x|);
    found := Span(k, k + |x|, k + |x| + |m.close|);
  }

  /** The spliced text holds the opening text at `i`, then the new content. */
  lemma SpliceShape(m: Marker, h: string, i: nat, sp: Span, c: string)
    requires i <= sp.end <= |h|
    ensures i + |m.open| <= |Splice(m, h, i, sp, c)|
    ensures StartsWith(Splice(m, h, i, sp, c)[i..], m.open)
    ensures Splice(m, h, i, sp, c)[i + |m.open|..] == c + (m.close + h[sp.end..])
  {
    SplitAt(h[..i], m.open, c + (m.close + h[sp.end..]));
  }

  lemma SubstituteIsSplice(m: Marker, h: string, c: string)
    requires FirstMatch(m, h).Some?
    ensures var (i, sp) := FirstMatch(m, h).value;
      i <= sp.end <= |h| && SubstituteInner(m, h, c) == Splice(m, h, i, sp, c)
  {
    var (i, sp) := FirstMatch(m, h).value;
    Regroup(h[..i], m.open, c, m.close, h[sp.end..]);
  }

  lemma Regroup(a: string, o: string, c: string, cl: string, rest: string)
    ensures a + (o + c + cl) + rest == a + (o + (c + (cl + rest)))
  {
  }

  /** Body round trip: a content without `</div>` reads back exactly, up to
      surrounding whitespace; a content with one reads back only up to it. */
  lemma ExtractSubstituted(h: string, c: string)
    requires FirstMatch(BodyBlock, h).Some?
    ensures !Contains(c, "</div>") ==> ExtractBody(SubstituteBody(h, c)) == Trim(c)
    ensures Contains(c, "</div>") ==>
      ExtractBody(SubstituteBody(h, c)) == Trim(BeforeClose("</div>", c))
      && |BeforeClose("</div>", c)| + 6 <= |c|
  {
    BodyBlockSeparated();
    InnerSubstituted(BodyBlock, h, c);
  }
}
