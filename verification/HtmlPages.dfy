/** Pages written as text, tags and style blocks, and what the scanner reads back from them. */
module HtmlPages {
  import opened Bytes
  import opened HtmlScan

  datatype Piece = Text(text: seq<byte>) | Tag(kind: Kind, url: seq<byte>) | Css(css: seq<byte>)

  /** rel="stylesheet" */
  const REL_STYLESHEET: seq<byte> := REL + [EQ, QUOTE] + STYLESHEET + [QUOTE]

  /** The element and the attribute that refer to a resource of this kind. */
  function Element(kind: Kind): seq<byte> {
    match kind
    case Stylesheet => LINK
    case Script => SCRIPT
    case Image => IMG
    case _ => A_TAG
  }

  function Reference(kind: Kind): (r: seq<byte>)
    ensures r == SRC || r == HREF
  {
    if kind == Script || kind == Image then SRC else HREF
  }

  /** A tag without its closing '>'. */
  function TagText(kind: Kind, url: seq<byte>): seq<byte> {
    [LT] + Element(kind) + [SPACE]
    + (if kind == Stylesheet then REL_STYLESHEET + [SPACE] else [])
    + (Reference(kind) + [EQ, QUOTE] + url + [QUOTE])
  }

  function Rendered(p: Piece): seq<byte> {
    match p
    case Text(t) => t
    case Tag(kind, url) => TagText(kind, url) + [GT]
    case Css(css) => [LT] + STYLE + [GT] + css + STYLE_END + [GT]
  }

  function Page(ps: seq<Piece>): seq<byte> {
    if ps == [] then [] else Rendered(ps[0]) + Page(ps[1..])
  }

  /** Text and style blocks hold no '<', URLs are non-empty, fit their buffer and hold no NUL,
      '"' or '>'. */
  predicate WellFormed(p: Piece) {
    match p
    case Text(t) => LT !in t
    case Tag(kind, url) => kind != InlineCss && url != [] && |url| < MAX_ATTR && 0 !in url && QUOTE !in url && GT !in url
    case Css(css) => LT !in css
  }

  function Extracted(p: Piece, base: Option<seq<byte>>): seq<Resource> {
    match p
    case Text(_) => []
    case Tag(kind, url) => [Resource(kind, url, Resolve(base, url), 0)]
    case Css(css) => Inline(|css|)
  }

  function AllExtracted(ps: seq<Piece>, base: Option<seq<byte>>): seq<Resource> {
    if ps == [] then [] else Extracted(ps[0], base) + AllExtracted(ps[1..], base)
  }

  // ----- attributes read back -------------------------------------------------------

  lemma SpaceSkipped(t: seq<byte>, name: seq<byte>)
    requires name != []
    ensures Attr([SPACE] + t, name) == Attr(t, name)
  {
    assert ([SPACE] + t)[1..] == t;
    assert Skip([SPACE] + t, IsSpace) == Skip(t, IsSpace);
  }

  lemma BeginsFirst(s: seq<byte>, name: seq<byte>)
    requires name != []
    ensures Begins(s, name) ==> Lower(s[0]) == name[0]
  {
    if Begins(s, name) { assert Lower(s[..|name|][0]) == name[0]; }
  }

  /** A word that does not begin with the attribute's name is passed over. */
  lemma WordSkipped(w: seq<byte>, t: seq<byte>, name: seq<byte>)
    requires name != [] && w != [] && Lower(w[0]) != name[0] && forall i :: 0 <= i < |w| ==> !IsSpace(w[i])
    ensures Attr(w + [SPACE] + t, name) == Attr(t, name)
  {
    var s := w + [SPACE] + t;
    RunUnique(s, IsSpace, 0);
    assert Skip(s, IsSpace) == s;
    BeginsFirst(s, name);
    RunUnique(s, IsNonSpace, |w|);
    assert Skip(s, IsNonSpace) == [SPACE] + t;
    SpaceSkipped(t, name);
  }

  lemma NameFound(name: seq<byte>, v: seq<byte>, rest: seq<byte>)
    requires name == SRC || name == HREF || name == REL
    requires QUOTE !in v
    ensures Attr(name + [EQ, QUOTE] + v + [QUOTE] + rest, name) == v
  {
    var s := name + [EQ, QUOTE] + v + [QUOTE] + rest;
    var value := [QUOTE] + v + [QUOTE] + rest;
    RunUnique(s, IsSpace, 0);
    assert Skip(s, IsSpace) == s;
    assert s[..|name|] == name;
    assert Begins(s, name);
    var w := s[|name|..];
    assert w == [EQ] + value;
    RunUnique(w, IsSpace, 0);
    assert w[1..] == value;
    RunUnique(value, IsSpace, 0);
    QuotedValue(v, rest);
  }

  lemma QuotedValue(v: seq<byte>, rest: seq<byte>)
    requires QUOTE !in v
    ensures Value([QUOTE] + v + [QUOTE] + rest) == v
  {
    var t := ([QUOTE] + v + [QUOTE] + rest)[1..];
    assert t == v + [QUOTE] + rest && t[..|v|] == v;
    IndexOfUnique(t, QUOTE, |v|);
  }

  lemma ElementWord(kind: Kind)
    ensures forall i :: 0 <= i < |Element(kind)| ==> IsBare(Element(kind)[i]) && Element(kind)[i] != 0
    ensures Element(kind) != [] && |Element(kind)| < MAX_TAG && Same(Element(kind), Element(kind))
  {
  }

  lemma TagNameOf(e: seq<byte>, rest: seq<byte>)
    requires e != [] && |e| < MAX_TAG && forall i :: 0 <= i < |e| ==> IsBare(e[i]) && e[i] != 0
    requires rest == [] || rest[0] == SPACE
    ensures TagName([LT] + e + rest) == e && !Closing([LT] + e + rest)
  {
    var tag := [LT] + e + rest;
    assert tag[1..] == e + rest && tag[1] == e[0] && IsBare(e[0]);
    RunUnique(e + rest, IsBare, |e|);
    assert (e + rest)[..|e|] == e;
    assert CString(e) == e;
  }

  /** The tag written for a reference holds exactly that reference. */
  lemma TagAttributes(kind: Kind, url: seq<byte>)
    requires QUOTE !in url && kind != InlineCss
    ensures TagName(TagText(kind, url)) == Element(kind) && !Closing(TagText(kind, url))
    ensures Attr(TagText(kind, url), Reference(kind)) == url
    ensures kind == Stylesheet ==> Attr(TagText(kind, url), REL) == STYLESHEET
  {
    hide Attr, TagName, Closing;
    var e, name := Element(kind), Reference(kind);
    var last := name + [EQ, QUOTE] + url + [QUOTE];
    ElementWord(kind);
    var rest := if kind == Stylesheet then REL_STYLESHEET + [SPACE] + last else last;
    assert TagText(kind, url) == [LT] + e + ([SPACE] + rest) == ([LT] + e) + [SPACE] + rest;
    TagNameOf(e, [SPACE] + rest);
    WordSkipped([LT] + e, rest, name);
    assert last + [] == last;
    NameFound(name, url, []);
    if kind == Stylesheet {
      WordSkipped(REL_STYLESHEET, last, name);
      WordSkipped([LT] + e, rest, REL);
      assert REL_STYLESHEET + [SPACE] + last == REL + [EQ, QUOTE] + STYLESHEET + [QUOTE] + ([SPACE] + last);
      NameFound(REL, STYLESHEET, [SPACE] + last);
    }
  }

  // ----- pages read back ------------------------------------------------------------

  lemma ElementTests(kind: Kind)
    requires kind != InlineCss
    ensures Same(Element(kind), LINK) <==> kind == Stylesheet
    ensures Same(Element(kind), SCRIPT) <==> kind == Script
    ensures Same(Element(kind), IMG) <==> kind == Image
    ensures Same(Element(kind), A_TAG) <==> kind == Link
    ensures !Same(Element(kind), STYLE) && Same(STYLESHEET, STYLESHEET)
  {
  }

  lemma AttrWhole(tag: seq<byte>, name: seq<byte>, size: nat)
    requires name != [] && size > 0 && |Attr(tag, name)| < size && 0 !in Attr(tag, name)
    ensures AttrText(tag, name, size) == Attr(tag, name)
  {
    hide Attr;
  }

  lemma TagFound(kind: Kind, url: seq<byte>, base: Option<seq<byte>>)
    requires WellFormed(Tag(kind, url))
    ensures Found(TagText(kind, url), base) == Extracted(Tag(kind, url), base)
    ensures !OpensStyle(TagText(kind, url))
  {
    hide Attr, TagName, Closing, Resolve, TagText, Same, AttrText, Element;
    TagAttributes(kind, url);
    ElementTests(kind);
    AttrWhole(TagText(kind, url), Reference(kind), MAX_ATTR);
    if kind == Stylesheet { AttrWhole(TagText(kind, url), REL, MAX_REL); }
  }

  lemma TagTextPlain(kind: Kind, url: seq<byte>)
    requires WellFormed(Tag(kind, url))
    ensures GT !in TagText(kind, url) && TagText(kind, url) != [] && TagText(kind, url)[0] == LT
  {
  }

  lemma TagScanned(tag: seq<byte>, rest: seq<byte>, base: Option<seq<byte>>)
    requires GT !in tag && tag != [] && tag[0] == LT
    ensures Scan(tag + [GT] + rest, None, base)
         == Before(Found(tag, base), Scan(rest, if OpensStyle(tag) then Some(0) else None, base))
  {
    hide Found, OpensStyle;
    var t := tag + [GT] + rest;
    IndexOfUnique(t, LT, 0);
    assert t[0..] == t && t[..|tag|] == tag && t[|tag| + 1..] == rest;
    IndexOfUnique(t, GT, |tag|);
  }

  lemma CssScanned(css: seq<byte>, base: Option<seq<byte>>)
    requires LT !in css
    ensures Scan(css + STYLE_END + [GT], Some(0), base) == Scanned(Inline(|css|), Clean)
  {
    hide Inline;
    var s := css + STYLE_END + [GT];
    assert s[..|css|] == css && s[|css|..] == STYLE_END + [GT];
    IndexOfUnique(s, LT, |css|);
    EndBegins();
    var rest := (STYLE_END + [GT])[1..];
    IndexOfUnique(rest, LT, |rest|);
    hide Begins, Scan;
    ScanFromTag(s, Some(0), base);
    ScanFromTag(rest, None, base);
  }

  lemma EndBegins()
    ensures Begins(STYLE_END + [GT], STYLE_END) && STYLE_END + [GT] != []
  {
    assert (STYLE_END + [GT])[..7] == STYLE_END;
  }

  lemma PieceScanned(p: Piece, base: Option<seq<byte>>)
    requires WellFormed(p)
    ensures Scan(Rendered(p), None, base) == Scanned(Extracted(p, base), Clean)
  {
    match p {
      case Text(t) => IndexOfUnique(t, LT, |t|);
      case Tag(kind, url) => TagPieceScanned(kind, url, base);
      case Css(css) => StylePieceScanned(css, base);
    }
  }

  lemma TagPieceScanned(kind: Kind, url: seq<byte>, base: Option<seq<byte>>)
    requires WellFormed(Tag(kind, url))
    ensures Scan(Rendered(Tag(kind, url)), None, base) == Scanned(Extracted(Tag(kind, url), base), Clean)
  {
    hide TagText, Found, OpensStyle, Extracted;
    TagFound(kind, url, base);
    TagTextPlain(kind, url);
    var tag := TagText(kind, url);
    assert tag + [GT] + [] == tag + [GT];
    IndexOfUnique([], LT, 0);
    TagScanned(tag, [], base);
  }

  lemma StylePieceScanned(css: seq<byte>, base: Option<seq<byte>>)
    requires LT !in css
    ensures Scan([LT] + STYLE + [GT] + css + STYLE_END + [GT], None, base) == Scanned(Inline(|css|), Clean)
  {
    var rest := css + STYLE_END + [GT];
    assert [LT] + STYLE + [GT] + css + STYLE_END + [GT] == [LT] + STYLE + [GT] + rest;
    hide Found, OpensStyle, Inline, Scan;
    StyleTag(base);
    TagScanned([LT] + STYLE, rest, base);
    CssScanned(css, base);
  }

  lemma StyleTag(base: Option<seq<byte>>)
    ensures Found([LT] + STYLE, base) == [] && OpensStyle([LT] + STYLE)
  {
    hide TagName;
    assert [LT] + STYLE + [] == [LT] + STYLE;
    TagNameOf(STYLE, []);
    assert !Same(STYLE, LINK) && !Same(STYLE, SCRIPT) && !Same(STYLE, IMG) && !Same(STYLE, A_TAG) && Same(STYLE, STYLE);
  }

  /** Scanning a page gives back exactly the references and style blocks it was written from, in
      order: with their URLs, the names these resolve to, and the lengths of the style blocks. */
  lemma {:induction false} PageScanned(ps: seq<Piece>, base: Option<seq<byte>>)
    requires forall i :: 0 <= i < |ps| ==> WellFormed(ps[i])
    ensures Scan(Page(ps), None, base) == Scanned(AllExtracted(ps, base), Clean)
  {
    if ps != [] {
      hide Scan, Rendered, WellFormed, Extracted;
      PieceScanned(ps[0], base);
      PageScanned(ps[1..], base);
      ScanConcat(Rendered(ps[0]), Page(ps[1..]), None, base);
    }
  }

  lemma EndStart(t: seq<byte>)
    ensures Begins(t, STYLE_END) ==> |t| > 1 && t[1] == SLASH
  {
    if Begins(t, STYLE_END) { assert Lower(t[..7][1]) == STYLE_END[1]; }
  }

  lemma HiddenInStyle(t: seq<byte>, base: Option<seq<byte>>)
    requires |t| > 1 && t[0] == LT && t[1] != SLASH && LT !in t[1..]
    ensures Scan(t, Some(0), base).resources == []
  {
    hide Begins, Found, OpensStyle, Inline, Scan;
    IndexOfUnique(t, LT, 0);
    ScanFromTag(t, Some(0), base);
    assert t[0..] == t;
    EndStart(t);
    IndexOfUnique(t[1..], LT, |t| - 1);
    ScanFromTag(t[1..], Some(1), base);
  }

  lemma TagTextStart(kind: Kind, url: seq<byte>)
    requires kind != InlineCss && LT !in url
    ensures var t := TagText(kind, url);
      |t| > 1 && t[0] == LT && t[1] != SLASH && LT !in t[1..]
  {
    ElementWord(kind);
    assert TagText(kind, url)[1] == Element(kind)[0];
    assert LT !in Element(kind) && LT !in REL_STYLESHEET;
  }

  lemma RenderedStart(kind: Kind, url: seq<byte>, base: Option<seq<byte>>)
    requires WellFormed(Tag(kind, url)) && LT !in url
    ensures var t := Rendered(Tag(kind, url));
      |t| > 1 && t[0] == LT && t[1] != SLASH && LT !in t[1..]
    ensures Extracted(Tag(kind, url), base) != []
  {
    TagTextStart(kind, url);
    hide TagText;
    assert Rendered(Tag(kind, url))[1..] == TagText(kind, url)[1..] + [GT];
  }

  /** Ending outside style blocks matters: after an unclosed one the same tag is not found. */
  lemma StyleHidesTags(kind: Kind, url: seq<byte>, base: Option<seq<byte>>)
    requires WellFormed(Tag(kind, url)) && LT !in url
    ensures Scan(Rendered(Tag(kind, url)), None, base).resources != []
    ensures Scan([LT] + STYLE + [GT] + Rendered(Tag(kind, url)), None, base).resources == []
  {
    hide Rendered, Extracted, Scan, Found, OpensStyle, WellFormed;
    PieceScanned(Tag(kind, url), base);
    RenderedStart(kind, url, base);
    StyleTag(base);
    TagScanned([LT] + STYLE, Rendered(Tag(kind, url)), base);
    HiddenInStyle(Rendered(Tag(kind, url)), base);
  }
}
