/** The other ways to write a tag and a URL: any case, apostrophes, no quotes at all, spaces around
    '=', other elements and relations; and where a URL leads from the page it is on. */
module HtmlForms {
  import opened Bytes
  import opened HtmlScan
  import opened HtmlPages

  // ----- characters and words -------------------------------------------------------

  lemma WordsSpelled()
    ensures A_TAG == Ascii("a") && LINK == Ascii("link") && SCRIPT == Ascii("script") && IMG == Ascii("img")
    ensures STYLE == Ascii("style") && REL == Ascii("rel") && HREF == Ascii("href") && SRC == Ascii("src")
    ensures STYLESHEET == Ascii("stylesheet") && STYLE_END == Ascii("</style")
    ensures HTTP == Ascii("http://") && HTTPS == Ascii("https://")
    ensures [QUOTE, APOSTROPHE, LT, EQ, GT, SPACE] == Ascii("\"'<=> ")
  {
  }

  /** isspace in the C locale, and what ends an unquoted value. */
  lemma BytesSpelled(b: byte)
    ensures IsSpace(b) <==> b in Ascii(" \t\n\r") || b == 11 || b == 12
    ensures IsBare(b) <==> !IsSpace(b) && b !in Ascii(">/")
    ensures Lower(b) == if 'A' as int <= b <= 'Z' as int then b - 'A' as int + 'a' as int else b
  {
    assert Ascii(" \t\n\r") == [32, 9, 10, 13] && Ascii(">/") == [62, 47];
  }

  // ----- values ---------------------------------------------------------------------

  /** A quoted value ends at the next quote of the same kind, or with the tag. */
  lemma QuotedForms(q: byte, v: seq<byte>, rest: seq<byte>)
    requires q in Ascii("\"'") && q !in v
    ensures Value([q] + v + [q] + rest) == v && Value([q] + v) == v
  {
    assert Ascii("\"'") == [QUOTE, APOSTROPHE];
    var t := ([q] + v + [q] + rest)[1..];
    assert t == v + [q] + rest && t[..|v|] == v;
    IndexOfUnique(t, q, |v|);
    assert ([q] + v)[1..] == v && v[..|v|] == v;
    IndexOfUnique(v, q, |v|);
  }

  /** A value without quotes ends at the first space, '>' or '/'. */
  lemma BareForm(v: seq<byte>, rest: seq<byte>)
    requires v != [] && v[0] !in Ascii("\"'") && forall i :: 0 <= i < |v| ==> IsBare(v[i])
    requires rest == [] || !IsBare(rest[0])
    ensures Value(v + rest) == v
  {
    assert Ascii("\"'") == [QUOTE, APOSTROPHE];
    RunUnique(v + rest, IsBare, |v|);
    assert (v + rest)[..|v|] == v;
  }

  predicate Blank(s: seq<byte>) { forall i :: 0 <= i < |s| ==> IsSpace(s[i]) }

  lemma BlankSkipped(s: seq<byte>, t: seq<byte>)
    requires Blank(s) && (t == [] || !IsSpace(t[0]))
    ensures Skip(s + t, IsSpace) == t
  {
    RunUnique(s + t, IsSpace, |s|);
    assert (s + t)[|s|..] == t;
  }

  /** The attribute's name in any case, with spaces before it and on both sides of the '='. */
  lemma AttrForms(s: seq<byte>, word: seq<byte>, name: seq<byte>, s1: seq<byte>, s2: seq<byte>, x: seq<byte>)
    requires name == SRC || name == HREF || name == REL
    requires Same(word, name) && Blank(s) && Blank(s1) && Blank(s2) && x != [] && !IsSpace(x[0])
    ensures Attr(s + (word + (s1 + ([EQ] + (s2 + x)))), name) == Value(x)
  {
    var w := s1 + ([EQ] + (s2 + x));
    assert Lower(word[0]) == name[0];
    BlankSkipped(s, word + w);
    assert (word + w)[..|name|] == word && (word + w)[|name|..] == w;
    BlankSkipped(s1, [EQ] + (s2 + x));
    assert ([EQ] + (s2 + x))[1..] == s2 + x;
    BlankSkipped(s2, x);
    hide Value, Skip;
    AttrTaken(s + (word + w), name, word + w, [EQ] + (s2 + x));
  }

  lemma AttrTaken(s: seq<byte>, name: seq<byte>, t: seq<byte>, w: seq<byte>)
    requires name != [] && Skip(s, IsSpace) == t && t != [] && Begins(t, name)
    requires Skip(t[|name|..], IsSpace) == w && w != [] && w[0] == EQ
    ensures Attr(s, name) == Value(Skip(w[1..], IsSpace))
  {
    hide Value, Skip, Begins;
  }

  /** A word that only begins with the attribute's name, like srcset, is passed over. */
  lemma LongerWordSkipped(word: seq<byte>, more: seq<byte>, t: seq<byte>, name: seq<byte>)
    requires name == SRC || name == HREF || name == REL
    requires Same(word, name) && more != [] && more[0] != EQ && Lower(more[0]) != name[0]
    requires forall i :: 0 <= i < |more| ==> !IsSpace(more[i])
    ensures Attr(word + more + [SPACE] + t, name) == Attr(t, name)
  {
    hide Attr, Skip, Begins, Same, IsSpace, Lower;
    var w := more + [SPACE] + t;
    WordInFront(word, w, name);
    assert word + more + [SPACE] + t == word + w && w[0] == more[0];
    NothingBlank(w);
    SameLength(word, name);
    AttrPassed(word + w, name, w);
    WordSkipped(more, t, name);
  }

  lemma SameLength(s: seq<byte>, word: seq<byte>)
    requires Same(s, word)
    ensures |s| == |word|
  {
  }

  lemma NothingBlank(t: seq<byte>)
    requires t == [] || !IsSpace(t[0])
    ensures Skip(t, IsSpace) == t
  {
    BlankSkipped([], t);
    assert [] + t == t;
  }

  lemma WordInFront(word: seq<byte>, w: seq<byte>, name: seq<byte>)
    requires name == SRC || name == HREF || name == REL
    requires Same(word, name)
    ensures var s := word + w;
      s != [] && Skip(s, IsSpace) == s && Begins(s, name) && s[|name|..] == w
  {
    var s := word + w;
    assert Lower(word[0]) == name[0];
    assert s[..|name|] == word;
    NothingBlank(s);
  }

  lemma AttrPassed(s: seq<byte>, name: seq<byte>, w: seq<byte>)
    requires name != [] && s != [] && Skip(s, IsSpace) == s && Begins(s, name) && |name| <= |s| && s[|name|..] == w
    requires Skip(w, IsSpace) == w && w != [] && w[0] != EQ
    ensures Attr(s, name) == Attr(w, name)
  {
    hide Value, Skip, Begins;
  }

  /** A value that does not fit its buffer is cut to one byte less than that. */
  lemma LongValueCut(tag: seq<byte>, name: seq<byte>, size: nat)
    requires name != [] && size > 0 && 0 !in Attr(tag, name)
    ensures AttrText(tag, name, size) == if |Attr(tag, name)| < size then Attr(tag, name) else Attr(tag, name)[..size - 1]
  {
    hide Attr;
    var v := Attr(tag, name);
    assert |v| < size ==> Take(v, size - 1) == v;
    assert 0 !in Take(v, size - 1);
  }

  // ----- elements -------------------------------------------------------------------

  /** Equal but for the case of their letters. */
  predicate SameWord(a: seq<byte>, b: seq<byte>) {
    |a| == |b| && forall i :: 0 <= i < |a| ==> Lower(a[i]) == Lower(b[i])
  }

  predicate IsElement(e: seq<byte>) {
    e != [] && |e| < MAX_TAG && forall i :: 0 <= i < |e| ==> IsBare(e[i]) && e[i] != 0
  }

  lemma SameEither(a: seq<byte>, b: seq<byte>, word: seq<byte>)
    requires SameWord(a, b)
    ensures Same(a, word) == Same(b, word)
  {
  }

  lemma FirstWord(e: seq<byte>, rest: seq<byte>, name: seq<byte>)
    requires IsElement(e) && (name == SRC || name == HREF || name == REL)
    ensures Attr([LT] + e + [SPACE] + rest, name) == Attr(rest, name)
  {
    WordSkipped([LT] + e, rest, name);
  }

  /** The case of an element's name does not matter. */
  lemma CaseIgnored(e: seq<byte>, f: seq<byte>, rest: seq<byte>, base: Option<seq<byte>>)
    requires IsElement(e) && IsElement(f) && SameWord(e, f)
    ensures Found([LT] + e + [SPACE] + rest, base) == Found([LT] + f + [SPACE] + rest, base)
    ensures rest != [] ==> OpensStyle([LT] + e + [SPACE] + rest) == OpensStyle([LT] + f + [SPACE] + rest)
  {
    hide Attr, TagName, Closing, Resolve, Same, AttrText, OfUrl, SameWord, IsElement;
    Named(e, rest);
    Named(f, rest);
    AttrTextAfter(e, rest, SRC, MAX_ATTR);
    AttrTextAfter(f, rest, SRC, MAX_ATTR);
    AttrTextAfter(e, rest, HREF, MAX_ATTR);
    AttrTextAfter(f, rest, HREF, MAX_ATTR);
    AttrTextAfter(e, rest, REL, MAX_REL);
    AttrTextAfter(f, rest, REL, MAX_REL);
    SameElements(e, f);
    SameEnd(e, f, rest);
  }

  lemma SameElements(e: seq<byte>, f: seq<byte>)
    requires SameWord(e, f)
    ensures forall word <- [LINK, SCRIPT, IMG, A_TAG, STYLE] :: Same(e, word) == Same(f, word)
    ensures Same(e, LINK) == Same(f, LINK) && Same(e, SCRIPT) == Same(f, SCRIPT) && Same(e, IMG) == Same(f, IMG)
            && Same(e, A_TAG) == Same(f, A_TAG) && Same(e, STYLE) == Same(f, STYLE)
  {
    hide Same, SameWord;
    forall word ensures Same(e, word) == Same(f, word) { SameEither(e, f, word); }
  }

  lemma Named(e: seq<byte>, rest: seq<byte>)
    requires IsElement(e)
    ensures TagName([LT] + e + [SPACE] + rest) == e && !Closing([LT] + e + [SPACE] + rest)
  {
    hide TagName, Closing;
    assert [LT] + e + ([SPACE] + rest) == [LT] + e + [SPACE] + rest;
    TagNameOf(e, [SPACE] + rest);
  }

  lemma AttrTextAfter(e: seq<byte>, rest: seq<byte>, name: seq<byte>, size: nat)
    requires IsElement(e) && size > 0 && (name == SRC || name == HREF || name == REL)
    ensures AttrText([LT] + e + [SPACE] + rest, name, size) == AttrText(rest, name, size)
  {
    hide Attr;
    FirstWord(e, rest, name);
  }

  lemma SameEnd(e: seq<byte>, f: seq<byte>, rest: seq<byte>)
    ensures rest != [] ==> SelfClosing([LT] + e + [SPACE] + rest) == SelfClosing([LT] + f + [SPACE] + rest)
  {
  }

  /** A link is a stylesheet when its relation says so, in any case, and else a plain link. */
  lemma LinkFound(rel: seq<byte>, url: seq<byte>, base: Option<seq<byte>>)
    requires QUOTE !in rel && 0 !in rel && |rel| < 64 && (forall i :: 0 <= i < |rel| ==> !IsSpace(rel[i]))
    requires QUOTE !in url && 0 !in url && 0 < |url| < 256
    ensures Found([LT] + LINK + [SPACE] + (Quoted(REL, rel) + [SPACE] + Quoted(HREF, url)), base)
         == [Resource(if Same(rel, STYLESHEET) then Stylesheet else Link, url, Resolve(base, url), 0)]
  {
    var rest := Quoted(REL, rel) + [SPACE] + Quoted(HREF, url);
    hide Attr, TagName, Closing, Resolve, AttrText, Same, Quoted, IsElement;
    LinkIsLink();
    Named(LINK, rest);
    AttrTextAfter(LINK, rest, REL, MAX_REL);
    AttrTextAfter(LINK, rest, HREF, MAX_ATTR);
    LinkAttrs(rel, url);
    AttrWhole(rest, REL, MAX_REL);
    AttrWhole(rest, HREF, MAX_ATTR);
  }

  function Quoted(name: seq<byte>, v: seq<byte>): seq<byte> { name + [EQ, QUOTE] + v + [QUOTE] }

  lemma LinkAttrs(rel: seq<byte>, url: seq<byte>)
    requires QUOTE !in rel && QUOTE !in url && forall i :: 0 <= i < |rel| ==> !IsSpace(rel[i])
    ensures var rest := Quoted(REL, rel) + [SPACE] + Quoted(HREF, url);
      Attr(rest, REL) == rel && Attr(rest, HREF) == url
  {
    hide Attr;
    var first, last := Quoted(REL, rel), Quoted(HREF, url);
    assert first + [SPACE] + last == REL + [EQ, QUOTE] + rel + [QUOTE] + ([SPACE] + last);
    NameFound(REL, rel, [SPACE] + last);
    WordSkipped(first, last, HREF);
    assert last + [] == last;
    NameFound(HREF, url, []);
  }

  lemma LinkIsLink()
    ensures Same(LINK, LINK) && IsElement(LINK)
  {
  }

  /** Closing tags, other elements and tags without a URL name no resource. */
  lemma NothingFound(e: seq<byte>, rest: seq<byte>, base: Option<seq<byte>>)
    requires IsElement(e)
    ensures Found([LT, SLASH] + rest, base) == [] && !OpensStyle([LT, SLASH] + rest)
    ensures Found([LT] + e, base) == []
    ensures !Same(e, LINK) && !Same(e, SCRIPT) && !Same(e, IMG) && !Same(e, A_TAG) ==>
              Found([LT] + e + [SPACE] + rest, base) == []
  {
    hide Attr, TagName, Same, AttrText, Resolve;
    assert ([LT, SLASH] + rest)[1] == SLASH;
    assert [LT] + e + [] == [LT] + e;
    assert [LT] + e + ([SPACE] + rest) == [LT] + e + [SPACE] + rest;
    TagNameOf(e, []);
    TagNameOf(e, [SPACE] + rest);
    NoAttr(e, SRC);
    NoAttr(e, HREF);
    AttrWhole([LT] + e, SRC, MAX_ATTR);
    AttrWhole([LT] + e, HREF, MAX_ATTR);
  }

  lemma NoAttr(e: seq<byte>, name: seq<byte>)
    requires IsElement(e) && (name == SRC || name == HREF)
    ensures Attr([LT] + e, name) == []
  {
    hide Attr, Begins, Skip;
    var s := [LT] + e;
    NothingBlank(s);
    NothingBlank([]);
    BeginsFirst(s, name);
    OneWord(s);
    AttrMissed(s, name);
  }

  lemma OneWord(s: seq<byte>)
    requires forall i :: 0 <= i < |s| ==> !IsSpace(s[i])
    ensures Skip(s, IsNonSpace) == []
  {
    RunUnique(s, IsNonSpace, |s|);
  }

  lemma AttrMissed(s: seq<byte>, name: seq<byte>)
    requires name != [] && s != [] && Skip(s, IsSpace) == s && !Begins(s, name) && Skip(s, IsNonSpace) == []
    requires Skip([], IsSpace) == []
    ensures Attr(s, name) == []
  {
    hide Begins, Skip, Value;
    assert Attr([], name) == [];
  }

  /** A style element opens a block unless it closes itself. */
  lemma StyleOpens(e: seq<byte>, rest: seq<byte>)
    requires IsElement(e) && rest != []
    ensures OpensStyle([LT] + e + [SPACE] + rest) <==> SameWord(e, Ascii("style")) && rest[|rest| - 1] != SLASH
  {
    var tag := [LT] + e + [SPACE] + rest;
    assert tag[|tag| - 1] == rest[|rest| - 1];
    hide TagName, Closing, Same, SameWord, IsElement;
    Named(e, rest);
    StyleWord(e);
  }

  lemma StyleWord(e: seq<byte>)
    ensures SameWord(e, Ascii("style")) <==> Same(e, STYLE)
  {
    assert Ascii("style") == STYLE;
    assert forall i :: 0 <= i < 5 ==> Lower(STYLE[i]) == STYLE[i];
  }

  /** A style block ends at "</style" in any case; at most 65535 bytes of it count. */
  lemma StyleEnds(css: seq<byte>, end: seq<byte>, base: Option<seq<byte>>)
    requires LT !in css && Same(end, STYLE_END)
    ensures Scan(css + end + [GT], Some(0), base)
         == Scanned([Resource(InlineCss, [], [], if |css| > 65535 then 65535 else |css|)], Clean)
  {
    var s := css + end + [GT];
    assert Lower(end[0]) == STYLE_END[0];
    assert s[..|css|] == css && s[|css|..] == end + [GT];
    IndexOfUnique(s, LT, |css|);
    assert (end + [GT])[..7] == end;
    assert Begins(end + [GT], STYLE_END);
    var rest := (end + [GT])[1..];
    forall i | 0 <= i < |rest| ensures rest[i] != LT {
      if i < 6 { assert Lower(end[i + 1]) == STYLE_END[i + 1]; }
    }
    assert rest[..|rest|] == rest;
    IndexOfUnique(rest, LT, |rest|);
    hide Begins, Scan;
    ScanFromTag(s, Some(0), base);
    ScanFromTag(rest, None, base);
  }

  // ----- where a URL leads ----------------------------------------------------------

  lemma BeginsSame(a: seq<byte>, rest: seq<byte>, word: seq<byte>)
    requires Same(a, word)
    ensures Begins(a + rest, word) && (a + rest)[|word|..] == rest
  {
    assert (a + rest)[..|word|] == a;
  }

  /** An absolute URL, its scheme in any case, leads to the path behind the host. */
  lemma AbsoluteResolved(scheme: seq<byte>, host: seq<byte>, path: seq<byte>, base: Option<seq<byte>>)
    requires Same(scheme, HTTP) || Same(scheme, HTTPS)
    requires SLASH !in host && (path == [] || path[0] == SLASH)
    ensures Resolve(base, scheme + (host + path)) == Take(path, 255)
  {
    var url, rest := scheme + (host + path), host + path;
    assert rest[..|host|] == host && rest[|host|..] == path;
    IndexOfUnique(rest, SLASH, |host|);
    if Same(scheme, HTTP) {
      BeginsSame(scheme, rest, HTTP);
    } else {
      BeginsSame(scheme, rest, HTTPS);
      assert Lower(scheme[4]) == HTTPS[4];
      NotPlain(url);
    }
  }

  lemma NotPlain(url: seq<byte>)
    requires |url| > 4 && Lower(url[4]) == 115
    ensures !Begins(url, HTTP)
  {
    BeginsAt(url, HTTP, 4);
  }

  lemma BeginsAt(s: seq<byte>, word: seq<byte>, i: nat)
    requires i < |word|
    ensures Begins(s, word) ==> i < |s| && Lower(s[i]) == word[i]
  {
    if Begins(s, word) { assert Lower(s[..|word|][i]) == word[i]; }
  }

  lemma RootedIsNotAbsolute(url: seq<byte>)
    requires url != [] && url[0] == SLASH
    ensures !Begins(url, HTTP) && !Begins(url, HTTPS)
  {
    BeginsAt(url, HTTP, 0);
    BeginsAt(url, HTTPS, 0);
  }

  /** A rooted URL stays what it is, and any other relative one does on a page without a name. */
  lemma RootedResolved(url: seq<byte>, base: Option<seq<byte>>)
    ensures url != [] && url[0] == SLASH ==> Resolve(base, url) == Take(url, 255)
    ensures !Begins(url, HTTP) && !Begins(url, HTTPS) ==> Resolve(None, url) == Take(url, 255)
  {
    if url != [] && url[0] == SLASH { RootedIsNotAbsolute(url); }
  }

  predicate Relative(url: seq<byte>) {
    !Begins(url, HTTP) && !Begins(url, HTTPS) && (url == [] || url[0] != SLASH) && 0 !in url
  }

  lemma {:induction false} LastSlashAt(dir: seq<byte>, file: seq<byte>)
    requires SLASH !in file
    ensures LastSlash(dir + [SLASH] + file) == |dir|
  {
    var s := dir + [SLASH] + file;
    if file != [] {
      assert s[|s| - 1] == file[|file| - 1] && s[..|s| - 1] == dir + [SLASH] + file[..|file| - 1];
      LastSlashAt(dir, file[..|file| - 1]);
    }
  }

  /** A relative URL replaces what follows the last slash of the page's name. */
  lemma RelativeResolved(dir: seq<byte>, file: seq<byte>, url: seq<byte>)
    requires Relative(url) && SLASH !in file && 0 !in dir && |dir| + 1 + |url| <= 255
    ensures Resolve(Some(dir + [SLASH] + file), url) == dir + [SLASH] + url
  {
    var base := dir + [SLASH] + file;
    LastSlashAt(dir, file);
    assert (base + [0])[..|dir| + 1] == dir + [SLASH];
    assert Take(dir + [SLASH] + url, 255) == dir + [SLASH] + url;
  }

  /** On a page whose name has no slash its first byte is kept, and nothing is left of the URL when
      the name is empty. */
  lemma NoDirectory(base: seq<byte>, url: seq<byte>)
    requires Relative(url) && SLASH !in base && 0 !in base && |url| < 255
    ensures Resolve(Some(base), url) == if base == [] then [] else [base[0]] + url
  {
    hide Begins;
    assert LastSlash(base) == 0;
    var head := (base + [0])[..1];
    assert Take(head + url, 255) == head + url;
    if base == [] {
      assert head == [0] && ([0] + url)[..0] == [];
      IndexOfUnique([0] + url, 0, 0);
    } else {
      assert head == [base[0]] && 0 !in head + url;
    }
  }
}
