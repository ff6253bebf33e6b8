/** What the HTML scanner extracts from a document (html_parse.c). */
module HtmlScan {
  import opened Bytes

  const TAB: byte := 9
  const CR: byte := 13
  const SPACE: byte := 32
  const QUOTE: byte := 34       // '"'
  const APOSTROPHE: byte := 39
  const LT: byte := 60          // '<'
  const EQ: byte := 61          // '='
  const GT: byte := 62          // '>'

  const A_TAG: seq<byte> := [97]
  const LINK: seq<byte> := [108, 105, 110, 107]
  const SCRIPT: seq<byte> := [115, 99, 114, 105, 112, 116]
  const IMG: seq<byte> := [105, 109, 103]
  const STYLE: seq<byte> := [115, 116, 121, 108, 101]
  const REL: seq<byte> := [114, 101, 108]
  const HREF: seq<byte> := [104, 114, 101, 102]
  const SRC: seq<byte> := [115, 114, 99]
  const STYLESHEET: seq<byte> := [115, 116, 121, 108, 101, 115, 104, 101, 101, 116]
  /** "</style", "http://" and "https://". */
  const STYLE_END: seq<byte> := [60, 47, 115, 116, 121, 108, 101]
  const HTTP: seq<byte> := [104, 116, 116, 112, 58, 47, 47]
  const HTTPS: seq<byte> := [104, 116, 116, 112, 115, 58, 47, 47]

  const MAX_RESOURCES: nat := 64
  const MAX_ATTR: nat := 256
  const MAX_REL: nat := 64
  const MAX_TAG: nat := 64
  const MAX_INLINE: nat := 65536

  datatype Kind = Stylesheet | Script | Image | Link | InlineCss

  datatype Resource = Resource(kind: Kind, rawUrl: seq<byte>, name: seq<byte>, inlineLen: nat)

  // ----- characters -----------------------------------------------------------------

  predicate IsSpace(b: byte) { b == SPACE || TAB <= b <= CR }

  predicate IsNonSpace(b: byte) { !IsSpace(b) }

  /** A byte an unquoted value or a tag name may contain. */
  predicate IsBare(b: byte) { !IsSpace(b) && b != GT && b != SLASH }

  function Lower(b: byte): byte { if 65 <= b <= 90 then b + 32 else b }

  /** Equal to a lower-case word, ignoring case. */
  predicate Same(s: seq<byte>, word: seq<byte>) {
    |s| == |word| && forall k :: 0 <= k < |s| ==> Lower(s[k]) == word[k]
  }

  predicate Begins(s: seq<byte>, word: seq<byte>) { |word| <= |s| && Same(s[..|word|], word) }

  /** Number of leading bytes with a property. */
  function Run(s: seq<byte>, p: byte -> bool): (k: nat)
    ensures k <= |s| && (forall i :: 0 <= i < k ==> p(s[i])) && (k < |s| ==> !p(s[k]))
  {
    if s == [] || !p(s[0]) then 0 else 1 + Run(s[1..], p)
  }

  lemma {:induction false} RunUnique(s: seq<byte>, p: byte -> bool, k: nat)
    requires k <= |s| && (forall i :: 0 <= i < k ==> p(s[i])) && (k < |s| ==> !p(s[k]))
    ensures Run(s, p) == k
  {
  }

  function Skip(s: seq<byte>, p: byte -> bool): (r: seq<byte>)
    ensures |r| <= |s| && (r != [] ==> !p(r[0]))
  {
    s[Run(s, p)..]
  }

  // ----- attributes -----------------------------------------------------------------

  /** A value, quoted or not, at the start of `v`. */
  function Value(v: seq<byte>): seq<byte> {
    if v == [] then []
    else if v[0] == QUOTE || v[0] == APOSTROPHE then v[1..][..IndexOf(v[1..], v[0])]
    else v[..Run(v, IsBare)]
  }

  /** The value of the first word that begins with the attribute's name and is followed by '='. */
  function Attr(s: seq<byte>, name: seq<byte>): seq<byte>
    requires name != []
    decreases |s|
  {
    var t := Skip(s, IsSpace);
    if t == [] then []
    else if !Begins(t, name) then Attr(Skip(t, IsNonSpace), name)
    else
      var w := Skip(t[|name|..], IsSpace);
      if w == [] then []
      else if w[0] != EQ then Attr(w, name)
      else Value(Skip(w[1..], IsSpace))
  }

  /** extract_attr into a buffer of `size` bytes, read back as a string. */
  function AttrText(tag: seq<byte>, name: seq<byte>, size: nat): seq<byte>
    requires name != [] && size > 0
  {
    CString(Take(Attr(tag, name), size - 1))
  }

  /** extract_tag_name. */
  function TagName(tag: seq<byte>): seq<byte> {
    var t := if tag != [] && tag[0] == LT then tag[1..] else tag;
    var u := if t != [] && t[0] == SLASH then t[1..] else t;
    CString(Take(u[..Run(u, IsBare)], MAX_TAG - 1))
  }

  predicate SelfClosing(tag: seq<byte>) { tag != [] && tag[|tag| - 1] == SLASH }

  predicate Closing(tag: seq<byte>) { |tag| > 1 && tag[1] == SLASH }

  // ----- names of URLs --------------------------------------------------------------

  /** Index of the last '/', or 0. */
  function LastSlash(s: seq<byte>): (k: nat)
    ensures k == 0 || (k < |s| && s[k] == SLASH)
    ensures SLASH !in s[if k < |s| then k + 1 else |s|..]
  {
    if s == [] then 0
    else if s[|s| - 1] == SLASH then |s| - 1
    else LastSlash(s[..|s| - 1])
  }

  /** html_resolve_url into MAX_ATTR bytes; a base string ends with its terminator. */
  function Resolve(base: Option<seq<byte>>, url: seq<byte>): seq<byte> {
    if Begins(url, HTTP) then Take(url[7..][IndexOf(url[7..], SLASH)..], MAX_ATTR - 1)
    else if Begins(url, HTTPS) then Take(url[8..][IndexOf(url[8..], SLASH)..], MAX_ATTR - 1)
    else if (url != [] && url[0] == SLASH) || base.None? then Take(url, MAX_ATTR - 1)
    else CString(Take((base.value + [0])[..LastSlash(base.value) + 1] + url, MAX_ATTR - 1))
  }

  // ----- the scan -------------------------------------------------------------------

  function OfUrl(kind: Kind, url: seq<byte>, base: Option<seq<byte>>): seq<Resource> {
    if url == [] then [] else [Resource(kind, url, Resolve(base, url), 0)]
  }

  /** The resource a tag names, if any. */
  function Found(tag: seq<byte>, base: Option<seq<byte>>): seq<Resource> {
    var name := TagName(tag);
    if Closing(tag) then []
    else if Same(name, LINK) then
      var kind := if Same(AttrText(tag, REL, MAX_REL), STYLESHEET) then Stylesheet else Link;
      OfUrl(kind, AttrText(tag, HREF, MAX_ATTR), base)
    else if Same(name, SCRIPT) then OfUrl(Script, AttrText(tag, SRC, MAX_ATTR), base)
    else if Same(name, IMG) then OfUrl(Image, AttrText(tag, SRC, MAX_ATTR), base)
    else if Same(name, A_TAG) then OfUrl(Link, AttrText(tag, HREF, MAX_ATTR), base)
    else []
  }

  predicate OpensStyle(tag: seq<byte>) {
    !Closing(tag) && Same(TagName(tag), STYLE) && !SelfClosing(tag)
  }

  function Inline(len: nat): seq<Resource> {
    [Resource(InlineCss, [], [], if len > MAX_INLINE - 1 then MAX_INLINE - 1 else len)]
  }

  /** Where a document ends: outside tags and style blocks, or inside one. */
  datatype Ending = Clean | InTag | InStyle

  datatype Scanned = Scanned(resources: seq<Resource>, ending: Ending)

  function Before(rs: seq<Resource>, s: Scanned): Scanned { Scanned(rs + s.resources, s.ending) }

  /** The whole scan of `s`; inside a style block `css` is how much of it came before `s`. */
  function Scan(s: seq<byte>, css: Option<nat>, base: Option<seq<byte>>): Scanned
    decreases |s|
  {
    var k := IndexOf(s, LT);
    if k == |s| then Scanned([], if css.Some? then InStyle else Clean) else AtTag(s[k..], css, k, base)
  }

  function AtTag(t: seq<byte>, css: Option<nat>, k: nat, base: Option<seq<byte>>): Scanned
    requires t != []
    decreases |t|, 0
  {
    match css
    case Some(n) =>
      if Begins(t, STYLE_END) then Before(Inline(n + k), Scan(t[1..], None, base))
      else Scan(t[1..], Some(n + k + 1), base)
    case None =>
      var g := IndexOf(t, GT);
      if g == |t| then Scanned([], InTag)
      else
        var inside := if OpensStyle(t[..g]) then Some(0) else None;
        Before(Found(t[..g], base), Scan(t[g + 1..], inside, base))
  }

  lemma ScanFromTag(s: seq<byte>, css: Option<nat>, base: Option<seq<byte>>)
    ensures var k := IndexOf(s, LT);
      Scan(s, css, base) == if k == |s| then Scanned([], if css.Some? then InStyle else Clean) else AtTag(s[k..], css, k, base)
  {
  }

  lemma AtTagSteps(t: seq<byte>, css: Option<nat>, k: nat, base: Option<seq<byte>>)
    requires t != []
    ensures AtTag(t, css, k, base) == match css
      case Some(n) =>
        if Begins(t, STYLE_END) then Before(Inline(n + k), Scan(t[1..], None, base))
        else Scan(t[1..], Some(n + k + 1), base)
      case None =>
        var g := IndexOf(t, GT);
        if g == |t| then Scanned([], InTag)
        else Before(Found(t[..g], base), Scan(t[g + 1..], if OpensStyle(t[..g]) then Some(0) else None, base))
  {
  }

  // ----- scanning is compositional --------------------------------------------------

  lemma {:induction false} IndexOfAppend(a: seq<byte>, b: seq<byte>, x: byte)
    ensures IndexOf(a + b, x) == if IndexOf(a, x) < |a| then IndexOf(a, x) else |a| + IndexOf(b, x)
  {
    var k := if IndexOf(a, x) < |a| then IndexOf(a, x) else |a| + IndexOf(b, x);
    assert (a + b)[..k] == if k < |a| then a[..k] else a + b[..k - |a|];
    IndexOfUnique(a + b, x, k);
  }

  lemma {:induction false} StuckInStyle(s: seq<byte>, n: nat, base: Option<seq<byte>>)
    requires |s| < 7
    ensures Scan(s, Some(n), base).ending == InStyle
    decreases |s|
  {
    var k := IndexOf(s, LT);
    if k < |s| { StuckInStyle(s[k..][1..], n + k + 1, base); }
  }

  /** Text before the first tag changes nothing outside a style block. */
  lemma TextSkipped(a: seq<byte>, b: seq<byte>, base: Option<seq<byte>>)
    requires LT !in a
    ensures Scan(a + b, None, base) == Scan(b, None, base)
  {
    hide Found, OpensStyle;
    IndexOfUnique(a, LT, |a|);
    IndexOfAppend(a, b, LT);
    var k := IndexOf(b, LT);
    assert (a + b)[|a| + k..] == b[k..];
  }

  lemma DropFirst(t: seq<byte>, b: seq<byte>, g: nat)
    requires g < |t|
    ensures (t + b)[g + 1..] == t[g + 1..] + b && (t + b)[..g] == t[..g]
  {
  }

  lemma BeginsAppend(t: seq<byte>, b: seq<byte>, word: seq<byte>)
    requires |word| <= |t|
    ensures Begins(t + b, word) == Begins(t, word)
  {
    assert (t + b)[..|word|] == t[..|word|];
  }

  lemma BeforeAssoc(rs: seq<Resource>, a: Scanned, b: Scanned)
    ensures Before(rs, Before(a.resources, b)) == Before(Before(rs, a).resources, b)
  {
  }

  /** If document `a` ends outside any tag and style block, scanning `a` followed by `b` finds
      what scanning each of them finds, in order, and ends as `b` ends. */
  lemma {:induction false} ScanConcat(a: seq<byte>, b: seq<byte>, css: Option<nat>, base: Option<seq<byte>>)
    requires Scan(a, css, base).ending == Clean
    ensures Scan(a + b, css, base) == Before(Scan(a, css, base).resources, Scan(b, None, base))
    decreases |a|, 1
  {
    hide AtTag;
    var k := IndexOf(a, LT);
    IndexOfAppend(a, b, LT);
    if k == |a| {
      TextSkipped(a, b, base);
    } else {
      assert (a + b)[k..] == a[k..] + b;
      AtTagConcat(a[k..], b, css, k, base);
    }
  }

  lemma {:induction false} AtTagConcat(t: seq<byte>, b: seq<byte>, css: Option<nat>, k: nat, base: Option<seq<byte>>)
    requires t != [] && AtTag(t, css, k, base).ending == Clean
    ensures AtTag(t + b, css, k, base) == Before(AtTag(t, css, k, base).resources, Scan(b, None, base))
    decreases |t|, 0
  {
    hide Scan, Found, OpensStyle, Inline, Begins;
    match css {
      case Some(n) =>
        DropFirst(t, b, 0);
        if |t| < 7 {
          TooShort(t, STYLE_END);
          StuckInStyle(t[1..], n + k + 1, base);
        } else {
          BeginsAppend(t, b, STYLE_END);
          if Begins(t, STYLE_END) {
            ScanConcat(t[1..], b, None, base);
            BeforeAssoc(Inline(n + k), Scan(t[1..], None, base), Scan(b, None, base));
          } else {
            ScanConcat(t[1..], b, Some(n + k + 1), base);
          }
        }
      case None =>
        var g := IndexOf(t, GT);
        IndexOfAppend(t, b, GT);
        DropFirst(t, b, g);
        var inside := if OpensStyle(t[..g]) then Some(0) else None;
        ScanConcat(t[g + 1..], b, inside, base);
        BeforeAssoc(Found(t[..g], base), Scan(t[g + 1..], inside, base), Scan(b, None, base));
    }
  }

  /** What html_parse reports: the first 64 resources. */
  function Parsed(html: seq<byte>, base: Option<seq<byte>>): seq<Resource> {
    Take(Scan(html, None, base).resources, MAX_RESOURCES)
  }

  /** So the report on `a` followed by `b` is the report on `a` followed by that on `b`, again cut
      to 64; nothing is cut when the two together have at most 64. */
  lemma ParsedConcat(a: seq<byte>, b: seq<byte>, base: Option<seq<byte>>)
    requires Scan(a, None, base).ending == Clean
    ensures Parsed(a + b, base) == Take(Parsed(a, base) + Parsed(b, base), 64)
    ensures |Scan(a, None, base).resources| + |Scan(b, None, base).resources| <= 64 ==>
              Parsed(a + b, base) == Parsed(a, base) + Parsed(b, base)
  {
    hide Scan;
    ScanConcat(a, b, None, base);
  }

  lemma TooShort(t: seq<byte>, word: seq<byte>)
    requires |t| < |word|
    ensures !Begins(t, word)
  {
  }
}
