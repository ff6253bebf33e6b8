/** html_parse and its helpers as they run: positions that move over a document. A tag is given as
    in the C code, by the text from its '<' on and its length up to the closing '>'. */
module HtmlParse {
  import opened Bytes
  import opened HtmlScan

  predicate IsTag(text: seq<byte>, len: nat) { len < |text| && text[len] == GT }

  /** The scan `while (i < len && p(s[i])) i++`. */
  method SkipWhile(s: seq<byte>, start: nat, p: byte -> bool) returns (i: nat)
    requires start <= |s|
    ensures i == start + Run(s[start..], p) && i <= |s| && s[i..] == Skip(s[start..], p)
  {
    i := start;
    while i < |s| && p(s[i])
      invariant start <= i <= |s|
      invariant forall k :: start <= k < i ==> p(s[k])
    {
      i := i + 1;
    }
    RunUnique(s[start..], p, i - start);
  }

  /** strncasecmp may read past a tag, but never past its '>'. */
  lemma ComparisonStaysInTag(text: seq<byte>, len: nat, i: nat, name: seq<byte>)
    requires IsTag(text, len) && i <= len && GT !in name
    ensures Begins(text[i..], name) == Begins(text[..len][i..], name)
  {
    if |name| <= len - i {
      assert text[i..][..|name|] == text[..len][i..][..|name|];
    } else {
      MismatchAtEnd(text[i..], len - i, name);
    }
  }

  lemma MismatchAtEnd(s: seq<byte>, k: nat, name: seq<byte>)
    requires k < |s| && s[k] == GT && GT !in name && k < |name|
    ensures !Begins(s, name)
  {
    if |name| <= |s| { assert s[..|name|][k] == GT && name[k] in name; }
  }

  lemma AttrStep(s: seq<byte>, name: seq<byte>)
    requires name != []
    ensures var t := Skip(s, IsSpace);
      && (t == [] ==> Attr(s, name) == [])
      && (t != [] && !Begins(t, name) ==> Attr(s, name) == Attr(Skip(t, IsNonSpace), name))
  {
  }

  lemma AttrMatch(s: seq<byte>, name: seq<byte>)
    requires name != [] && Begins(Skip(s, IsSpace), name)
    ensures var w := Skip(Skip(s, IsSpace)[|name|..], IsSpace);
      && (w == [] ==> Attr(s, name) == [])
      && (w != [] && w[0] != EQ ==> Attr(s, name) == Attr(w, name))
      && (w != [] && w[0] == EQ ==> Attr(s, name) == Value(Skip(w[1..], IsSpace)))
  {
  }

  lemma BeginsLength(s: seq<byte>, name: seq<byte>)
    requires Begins(s, name)
    ensures |name| <= |s|
  {
  }

  /** extract_attr; the result is what the filled buffer holds as a string. */
  method ExtractAttr(text: seq<byte>, len: nat, name: seq<byte>, size: nat) returns (out: seq<byte>)
    requires IsTag(text, len) && name != [] && GT !in name && size > 0
    ensures out == AttrText(text[..len], name, size)
  {
    hide Attr, Run, Skip, Begins, Value, CString;
    var tag, i := text[..len], 0;
    while i < len
      invariant i <= len && Attr(tag, name) == Attr(tag[i..], name)
    {
      AttrStep(tag[i..], name);
      var t := SkipWhile(tag, i, IsSpace);
      if t >= len { break; }
      ComparisonStaysInTag(text, len, t, name);
      if Begins(text[t..], name) {
        AttrMatch(tag[i..], name);
        BeginsLength(tag[t..], name);
        var k := t + |name|;
        assert tag[t..][|name|..] == tag[k..];
        var w := SkipWhile(tag, k, IsSpace);
        if w >= len { break; }
        if tag[w] != EQ {
          i := w;
          continue;
        }
        assert tag[w..][1..] == tag[w + 1..];
        var v := SkipWhile(tag, w + 1, IsSpace);
        out := ExtractValue(tag[v..], size);
        return;
      }
      i := SkipWhile(tag, t, IsNonSpace);
      WordIsNonEmpty(tag, t);
    }
    if i == len { AttrOfNothing(tag[i..], name); }
    out := CString([]);
  }

  lemma WordIsNonEmpty(s: seq<byte>, t: nat)
    requires t < |s| && !IsSpace(s[t])
    ensures Run(s[t..], IsNonSpace) > 0
  {
  }

  lemma AttrOfNothing(s: seq<byte>, name: seq<byte>)
    requires s == [] && name != []
    ensures Attr(s, name) == []
  {
  }

  /** The value at the start of what is left of the tag, cut to the buffer. */
  method ExtractValue(v: seq<byte>, size: nat) returns (out: seq<byte>)
    requires size > 0
    ensures out == CString(Take(Value(v), size - 1))
  {
    hide CString;
    if v == [] { return CString([]); }
    if v[0] == QUOTE || v[0] == APOSTROPHE {
      var j := SkipTo(v, 1, v[0]);
      out := CString(Clipped(v[1..], j - 1, size));
    } else {
      var j := SkipWhile(v, 0, IsBare);
      assert v[0..] == v;
      out := CString(Clipped(v, j, size));
    }
  }

  /** vlen bytes, or all that fit before the terminator. */
  function Clipped(s: seq<byte>, len: nat, size: nat): (r: seq<byte>)
    requires len <= |s| && size > 0
    ensures r == Take(s[..len], size - 1)
  {
    if len >= size then s[..size - 1] else s[..len]
  }

  /** extract_tag_name. */
  method ExtractTagName(tag: seq<byte>) returns (name: seq<byte>)
    ensures name == TagName(tag)
  {
    hide CString, Run, Take, Skip, Clipped;
    var i := 0;
    if i < |tag| && tag[i] == LT { i := i + 1; }
    ghost var t := tag[i..];
    assert tag[0..] == tag;
    if i < |tag| && tag[i] == SLASH { i := i + 1; }
    assert tag[i..] == if t != [] && t[0] == SLASH then t[1..] else t;
    var j := SkipWhile(tag, i, IsBare);
    name := CString(Clipped(tag[i..], j - i, MAX_TAG));
  }

  method FindLastSlash(s: seq<byte>) returns (last: nat)
    ensures last == LastSlash(s)
  {
    last := 0;
    for i := 0 to |s|
      invariant last == LastSlash(s[..i])
    {
      assert s[..i + 1][..i] == s[..i];
      if s[i] == SLASH { last := i; }
    }
    assert s[..|s|] == s;
  }

  /** What follows the host of an absolute URL. */
  method PathOf(url: seq<byte>, from: nat) returns (path: seq<byte>)
    requires from <= |url|
    ensures path == url[from..][IndexOf(url[from..], SLASH)..]
  {
    var i := SkipTo(url, from, SLASH);
    path := url[i..];
  }

  /** html_resolve_url. */
  method ResolveUrl(base: Option<seq<byte>>, url: seq<byte>) returns (name: seq<byte>)
    ensures name == Resolve(base, url)
  {
    hide Begins, CString, Take, LastSlash, IndexOf;
    if Begins(url, HTTP) {
      BeginsLength(url, HTTP);
      var path := PathOf(url, 7);
      return Take(path, MAX_ATTR - 1);
    }
    if Begins(url, HTTPS) {
      BeginsLength(url, HTTPS);
      var path := PathOf(url, 8);
      return Take(path, MAX_ATTR - 1);
    }
    if (url != [] && url[0] == SLASH) || base.None? { return Take(url, MAX_ATTR - 1); }
    var last := FindLastSlash(base.value);
    name := CString(Take((base.value + [0])[..last + 1] + url, MAX_ATTR - 1));
  }

  // ----- the scan -------------------------------------------------------------------

  /** What scanning html[i..] still finds. */
  function Remaining(html: seq<byte>, i: nat, css: Option<nat>, base: Option<seq<byte>>): seq<Resource>
    requires i <= |html|
  {
    Scan(html[i..], css, base).resources
  }

  lemma NoTagLeft(html: seq<byte>, i: nat, css: Option<nat>, base: Option<seq<byte>>)
    requires i <= |html| && IndexOf(html[i..], LT) == |html| - i
    ensures Remaining(html, i, css, base) == []
  {
    hide Scan;
    ScanFromTag(html[i..], css, base);
  }

  lemma NoTagEnd(html: seq<byte>, i: nat, k: nat, base: Option<seq<byte>>)
    requires i <= k < |html| && IndexOf(html[i..], LT) == k - i
    requires IndexOf(html[k..], GT) == |html| - k
    ensures Remaining(html, i, None, base) == []
  {
    hide Scan, AtTag, Found, OpensStyle;
    ScanFromTag(html[i..], None, base);
    AtTagSteps(html[k..], None, k - i, base);
    assert html[i..][k - i..] == html[k..];
  }

  lemma StyleStep(html: seq<byte>, i: nat, k: nat, n: nat, base: Option<seq<byte>>)
    requires i <= k < |html| && IndexOf(html[i..], LT) == k - i
    ensures Remaining(html, i, Some(n), base)
         == if Begins(html[k..], STYLE_END) then Inline(n + k - i) + Remaining(html, k + 1, None, base)
            else Remaining(html, k + 1, Some(n + k - i + 1), base)
  {
    hide Inline, Begins, Scan, AtTag, Found, OpensStyle;
    ScanFromTag(html[i..], Some(n), base);
    AtTagSteps(html[k..], Some(n), k - i, base);
    assert html[i..][k - i..] == html[k..] && html[k..][1..] == html[k + 1..];
  }

  lemma TagStep(html: seq<byte>, i: nat, k: nat, g: nat, base: Option<seq<byte>>)
    requires i <= k <= g < |html| && IndexOf(html[i..], LT) == k - i && IndexOf(html[k..], GT) == g - k
    ensures var tag := html[k..g];
      Remaining(html, i, None, base)
      == Found(tag, base) + Remaining(html, g + 1, if OpensStyle(tag) then Some(0) else None, base)
  {
    hide Found, OpensStyle, Scan, AtTag, IndexOf, Begins, Inline;
    ScanFromTag(html[i..], None, base);
    AtTagSteps(html[k..], None, k - i, base);
    TagSlices(html, i, k, g);
  }

  lemma TagSlices(html: seq<byte>, i: nat, k: nat, g: nat)
    requires i <= k <= g < |html|
    ensures html[i..][k - i..] == html[k..] && html[k..][..g - k] == html[k..g]
    ensures html[k..][g - k + 1..] == html[g + 1..]
  {
  }

  /** The branch of html_parse for one tag: the resource it adds, and whether it opens a style block. */
  method ReadTag(text: seq<byte>, len: nat, base: Option<seq<byte>>) returns (found: seq<Resource>, opens: bool)
    requires IsTag(text, len)
    ensures found == Found(text[..len], base) && opens == OpensStyle(text[..len])
  {
    hide Same, Attr, AttrText, TagName, Resolve;
    var name := ExtractTagName(text[..len]);
    found, opens := [], false;
    if len > 1 && text[1] == SLASH { return; }
    var kind, url := Link, [];
    if Same(name, LINK) {
      var rel := ExtractAttr(text, len, REL, MAX_REL);
      url := ExtractAttr(text, len, HREF, MAX_ATTR);
      kind := if Same(rel, STYLESHEET) then Stylesheet else Link;
    } else if Same(name, SCRIPT) {
      kind := Script;
      url := ExtractAttr(text, len, SRC, MAX_ATTR);
    } else if Same(name, IMG) {
      kind := Image;
      url := ExtractAttr(text, len, SRC, MAX_ATTR);
    } else if Same(name, A_TAG) {
      url := ExtractAttr(text, len, HREF, MAX_ATTR);
    } else if Same(name, STYLE) {
      opens := !(len > 0 && text[len - 1] == SLASH);
    }
    if url != [] {
      var resolved := ResolveUrl(base, url);
      found := [Resource(kind, url, resolved, 0)];
    }
    StyleIsNoReference(name);
  }

  lemma StyleIsNoReference(name: seq<byte>)
    ensures Same(name, STYLE) ==> !Same(name, LINK) && !Same(name, SCRIPT) && !Same(name, IMG) && !Same(name, A_TAG)
  {
  }

  /** html_parse: the first 64 resources of the document, in order. */
  method Parse(html: seq<byte>, base: Option<seq<byte>>, out: array<Resource>) returns (count: nat)
    requires out.Length == MAX_RESOURCES
    modifies out
    ensures count <= MAX_RESOURCES && out[..count] == Parsed(html, base)
  {
    hide Scan, Remaining, Found, OpensStyle, Begins, Inline, IndexOf;
    var i, inStyle, styleStart := 0, false, 0;
    count := 0;
    ghost var all := Remaining(html, 0, None, base);
    while i < |html| && count < MAX_RESOURCES
      invariant styleStart <= i <= |html| && count <= MAX_RESOURCES
      invariant all == out[..count] + Remaining(html, i, if inStyle then Some(i - styleStart) else None, base)
    {
      ghost var before := out[..count];
      var k := SkipTo(html, i, LT);
      if k >= |html| {
        NoTagLeft(html, i, if inStyle then Some(i - styleStart) else None, base);
        break;
      }
      if inStyle {
        StyleStep(html, i, k, i - styleStart, base);
        if Begins(html[k..], STYLE_END) {
          var len := k - styleStart;
          if len > MAX_INLINE - 1 { len := MAX_INLINE - 1; }
          out[count] := Resource(InlineCss, [], [], len);
          count := count + 1;
          inStyle := false;
          InlineIs(k - styleStart, len);
          assert out[..count] == before + Inline(k - styleStart);
          Assoc(before, Inline(k - styleStart), Remaining(html, k + 1, None, base));
        }
        i := k + 1;
        continue;
      }
      var g := SkipTo(html, k, GT);
      if g >= |html| {
        NoTagEnd(html, i, k, base);
        break;
      }
      TagStep(html, i, k, g, base);
      assert html[k..][..g - k] == html[k..g];
      var found, opens := ReadTag(html[k..], g - k, base);
      AtMostOne(html[k..g], base);
      if found != [] {
        out[count] := found[0];
        count := count + 1;
      }
      assert out[..count] == before + found;
      if opens { inStyle, styleStart := true, g + 1; }
      i := g + 1;
      Assoc(before, found, Remaining(html, i, if opens then Some(0) else None, base));
    }
    ParseDone(html, base, out[..count], i, if inStyle then Some(i - styleStart) else None);
  }

  lemma InlineIs(n: nat, len: nat)
    requires len == if n > MAX_INLINE - 1 then MAX_INLINE - 1 else n
    ensures Inline(n) == [Resource(InlineCss, [], [], len)]
  {
  }

  lemma AtMostOne(tag: seq<byte>, base: Option<seq<byte>>)
    ensures |Found(tag, base)| <= 1
  {
    hide Same, TagName, Closing, Resolve, AttrText;
  }

  /** At the end of the document, or with the array full, the array holds what was asked for. */
  lemma ParseDone(html: seq<byte>, base: Option<seq<byte>>, rs: seq<Resource>, i: nat, css: Option<nat>)
    requires i <= |html| && |rs| <= MAX_RESOURCES
    requires Remaining(html, 0, None, base) == rs + Remaining(html, i, css, base)
    requires i == |html| || |rs| == MAX_RESOURCES || Remaining(html, i, css, base) == []
    ensures rs == Parsed(html, base)
  {
    hide Scan;
    assert html[0..] == html;
    if i == |html| { NoTagLeft(html, i, css, base); }
  }
}
