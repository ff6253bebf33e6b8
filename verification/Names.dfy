/** Hierarchical content names: parsing, printing and comparing. */
module Names {
  import opened Bytes
  import opened Fnv

  const MAX_COMPONENTS: nat := 16
  const MAX_COMPONENT: nat := 64
  const MAX_NAME: nat := 1024

  /** Components are C strings, held here as their bytes without the terminating NUL. */
  datatype Name = Name(components: seq<seq<byte>>, hash: u64, version: u64, hasVersion: bool)

  /** Outcome of an initialiser: when `ok` is false, `name` is what it had filled in so far. */
  datatype Init = Init(ok: bool, name: Name)

  datatype Component = Component(text: seq<byte>, version: u64, hasVersion: bool)

  const EMPTY_NAME := Name([], 0, 0, false)

  // ----- text -----------------------------------------------------------------------

  /** "/" in front of every component. */
  function TextOf(cs: seq<seq<byte>>): seq<byte> {
    if cs == [] then [] else TextOf(cs[..|cs| - 1]) + [SLASH] + cs[|cs| - 1]
  }

  function VersionText(v: u64): seq<byte> { [AT] + Digits(v) }

  /** The optional "@version" at the end of a path. */
  function Suffix(v: Option<u64>): seq<byte> {
    if v.Some? then VersionText(v.value) else []
  }

  /** The text psirp_name_to_string prints when the buffer is large enough. */
  function NameText(n: Name): seq<byte> {
    TextOf(n.components)
    + if n.hasVersion && n.components != [] then VersionText(n.version) else []
  }

  lemma {:induction false} TextSnoc(cs: seq<seq<byte>>, c: seq<byte>)
    ensures TextOf(cs + [c]) == TextOf(cs) + [SLASH] + c
  {
    assert (cs + [c])[..|cs|] == cs;
  }

  lemma {:induction false} TextIsJoin(cs: seq<seq<byte>>)
    requires cs != []
    ensures TextOf(cs) == [SLASH] + Join(cs, SLASH)
  {
    var n := |cs| - 1;
    assert cs == cs[..n] + [cs[n]];
    if n == 0 {
      assert TextOf(cs[..n]) == [];
    } else {
      TextIsJoin(cs[..n]);
      JoinSnoc(cs[..n], cs[n], SLASH);
    }
  }

  // ----- parsing --------------------------------------------------------------------

  predicate AllDigits(s: seq<byte>) { forall b <- s :: IsDigit(b) }

  /** parse_component: `src` runs from the component to the end of the C string, so the digits
      after '@' are read to the end of the whole path, not of the component. */
  function ParseComponent(src: seq<byte>, len: nat): Option<Component>
    requires len <= |src|
  {
    if len >= MAX_COMPONENT then None
    else
      var at := IndexOf(src[..len], AT);
      if at == len then Some(Component(src[..len], 0, false))
      else
        var v := src[at + 1..];
        if v == [] || !AllDigits(v) then None
        else Some(Component(src[..at], DecimalValue(v), true))
  }

  function Append(n: Name, c: Component): Name {
    Name(n.components + [c.text], n.hash,
         if c.hasVersion then c.version else n.version, n.hasVersion || c.hasVersion)
  }

  /** The component loop of psirp_name_init over the unread part of the path. */
  function InitFrom(rest: seq<byte>, name: Name): Init
    decreases |rest|
  {
    if rest == [] || |name.components| >= MAX_COMPONENTS then Init(true, name)
    else
      var k := IndexOf(rest, SLASH);
      if k == 0 then InitFrom(rest[1..], name)
      else
        match ParseComponent(rest, k)
        case None => Init(false, name)
        case Some(c) => InitFrom(if k < |rest| then rest[k + 1..] else [], Append(name, c))
  }

  lemma InitFromUnfolds(rest: seq<byte>, name: Name, k: nat)
    requires rest != [] && |name.components| < MAX_COMPONENTS && k == IndexOf(rest, SLASH) > 0
    ensures InitFrom(rest, name)
            == match ParseComponent(rest, k)
               case None => Init(false, name)
               case Some(c) => InitFrom(if k < |rest| then rest[k + 1..] else [], Append(name, c))
  {
  }

  lemma InitFromSlash(rest: seq<byte>, name: Name)
    requires rest != [] && |name.components| < MAX_COMPONENTS && IndexOf(rest, SLASH) == 0
    ensures InitFrom(rest, name) == InitFrom(rest[1..], name)
  {
  }

  lemma InitFromDone(rest: seq<byte>, name: Name)
    requires rest == [] || |name.components| >= MAX_COMPONENTS
    ensures InitFrom(rest, name) == Init(true, name)
  {
  }

  function Body(path: seq<byte>): seq<byte> {
    if path != [] && path[0] == SLASH then path[1..] else path
  }

  function InitName(path: seq<byte>): Init {
    var body := Body(path);
    var r := InitFrom(body, EMPTY_NAME);
    if r.ok then Init(true, r.name.(hash := Hash([SLASH] + body))) else r
  }

  /** The version digits: from just after '@' to the end of the C string. */
  method ScanDigits(src: seq<byte>, first: nat) returns (r: Option<u64>)
    requires first <= |src|
    ensures r == if AllDigits(src[first..]) then Some(DecimalValue(src[first..])) else None
  {
    ghost var v := src[first..];
    var p, version := first, 0;
    while p < |src|
      invariant first <= p <= |src|
      invariant AllDigits(v[..p - first]) && version == DecimalValue(v[..p - first])
    {
      assert v[p - first] == src[p];
      if !IsDigit(src[p]) { return None; }
      version := (version * 10 + (src[p] - DIGIT_0)) % U64;
      assert v[..p + 1 - first] == v[..p - first] + [src[p]];
      assert v[..p + 1 - first][..p - first] == v[..p - first];
      p := p + 1;
    }
    assert v[..p - first] == v;
    r := Some(version);
  }

  method ScanComponent(src: seq<byte>, start: nat, len: nat) returns (r: Option<Component>)
    requires start + len <= |src|
    ensures r == ParseComponent(src[start..], len)
  {
    hide AllDigits;
    ghost var s := src[start..];
    assert s[..len] == src[start..start + len];
    if len >= MAX_COMPONENT { return None; }
    var at := 0;
    while at < len && src[start + at] != AT
      invariant at <= len && AT !in s[..len][..at]
    {
      at := at + 1;
    }
    IndexOfUnique(s[..len], AT, at);
    if at == len { return Some(Component(src[start..start + len], 0, false)); }
    assert s[at + 1..] == src[start + at + 1..];
    assert s[..at] == src[start..start + at];
    if start + at + 1 == |src| { return None; }
    var v := ScanDigits(src, start + at + 1);
    if v == None { return None; }
    r := Some(Component(src[start..start + at], v.value, true));
  }

  /** psirp_name_init. The path is a C string; '/' and the path fill hash_buf[1024]. */
  method ParseName(path: seq<byte>) returns (r: Init)
    requires 0 !in path && |Body(path)| + 1 <= MAX_NAME
    ensures r == InitName(path)
  {
    hide ParseComponent, InitFrom, IndexOf, Append;
    var text := Body(path);
    var name := EMPTY_NAME;
    var p := 0;
    while p < |text| && |name.components| < MAX_COMPONENTS
      invariant p <= |text|
      invariant InitFrom(text[p..], name) == InitFrom(text, EMPTY_NAME)
    {
      var start := p;
      p := SkipTo(text, p, SLASH);
      if p == start {
        InitFromSlash(text[start..], name);
        assert text[start..][1..] == text[p + 1..];
        p := p + 1;
        continue;
      }
      var c := ScanComponent(text, start, p - start);
      InitFromUnfolds(text[start..], name, p - start);
      if c == None { return Init(false, name); }
      name := Append(name, c.value);
      if p < |text| {
        assert text[start..][p - start + 1..] == text[p + 1..];
        p := p + 1;
      } else {
        assert text[p..] == [];
      }
    }
    InitFromDone(text[p..], name);
    var hash := Fnv1aHash([SLASH] + text);
    r := Init(true, name.(hash := hash));
  }

  // ----- canonical names ------------------------------------------------------------

  predicate CanonicalComponent(c: seq<byte>) {
    0 < |c| < MAX_COMPONENT && SLASH !in c && AT !in c && 0 !in c
  }

  predicate Canonical(cs: seq<seq<byte>>) {
    1 <= |cs| <= MAX_COMPONENTS && forall i :: 0 <= i < |cs| ==> CanonicalComponent(cs[i])
  }

  function PlainName(cs: seq<seq<byte>>): Name {
    Name(cs, Hash(TextOf(cs)), 0, false)
  }

  /** A canonical unversioned name as psirp_name_init builds it. */
  predicate Plain(n: Name) {
    Canonical(n.components) && n == PlainName(n.components)
  }

  function VersionedName(cs: seq<seq<byte>>, v: u64): Name {
    Name(cs, Hash(TextOf(cs) + VersionText(v)), v, true)
  }

  /** The last component is parsed with its "@version" attached and must stay under 64 bytes. */
  predicate VersionFits(cs: seq<seq<byte>>, v: u64)
    requires cs != []
  {
    |cs[|cs| - 1]| + |VersionText(v)| < MAX_COMPONENT
  }

  ghost predicate NoByte(cs: seq<seq<byte>>, b: byte) {
    forall i :: 0 <= i < |cs| ==> b !in cs[i]
  }

  lemma {:induction false} ParsePlainComponent(src: seq<byte>, len: nat)
    requires len <= |src| && len < MAX_COMPONENT && AT !in src[..len]
    ensures ParseComponent(src, len) == Some(Component(src[..len], 0, false))
  {
    IndexOfUnique(src[..len], AT, len);
  }

  lemma {:induction false} ParseVersionedComponent(c: seq<byte>, v: u64)
    requires CanonicalComponent(c)
    ensures var s := c + VersionText(v);
            ParseComponent(s, |s|)
            == if |s| < MAX_COMPONENT then Some(Component(c, v, true)) else None
  {
    var s := c + VersionText(v);
    assert s[..|s|] == s;
    assert s[..|c|] == c;
    IndexOfUnique(s, AT, |c|);
    assert s[|c| + 1..] == Digits(v);
    DecimalRoundTrip(v);
  }

  /** Reading the last component of a path, with or without "@version". */
  lemma {:induction false} InitLast(c: seq<byte>, v: Option<u64>, name: Name)
    requires CanonicalComponent(c) && |name.components| < MAX_COMPONENTS
    requires v.Some? || !name.hasVersion
    ensures var s := c + Suffix(v);
            InitFrom(s, name)
            == if |s| < MAX_COMPONENT
               then Init(true, Name(name.components + [c], name.hash,
                                    if v.Some? then v.value else name.version, v.Some?))
               else Init(false, name)
  {
    var s := c + Suffix(v);
    assert SLASH !in s;
    IndexOfUnique(s, SLASH, |s|);
    if v.Some? {
      ParseVersionedComponent(c, v.value);
    } else {
      assert s == c && s[..|s|] == c;
      ParsePlainComponent(s, |s|);
    }
  }

  /** Reading a component that another one follows. */
  lemma {:induction false} InitField(c: seq<byte>, rest: seq<byte>, name: Name)
    requires CanonicalComponent(c) && |name.components| < MAX_COMPONENTS
    ensures InitFrom(c + [SLASH] + rest, name) == InitFrom(rest, Append(name, Component(c, 0, false)))
  {
    hide AllDigits;
    var s := c + [SLASH] + rest;
    assert s[..|c|] == c && s[|c| + 1..] == rest;
    IndexOfUnique(s, SLASH, |c|);
    ParsePlainComponent(s, |c|);
  }

  /** Reading a whole canonical path after any components already read. */
  lemma {:induction false} InitFromJoin(cs: seq<seq<byte>>, v: Option<u64>, name: Name)
    requires cs != [] && |name.components| + |cs| <= MAX_COMPONENTS && !name.hasVersion
    requires forall i :: 0 <= i < |cs| ==> CanonicalComponent(cs[i])
    ensures var r := InitFrom(Join(cs, SLASH) + Suffix(v), name);
            r.ok == (v.Some? ==> VersionFits(cs, v.value))
            && (r.ok ==> r.name == Name(name.components + cs, name.hash,
                                        if v.Some? then v.value else name.version, v.Some?))
  {
    hide InitFrom, VersionText;
    if |cs| == 1 {
      InitLast(cs[0], v, name);
      assert cs == [cs[0]];
    } else {
      var c, rest := cs[0], Join(cs[1..], SLASH) + Suffix(v);
      assert Join(cs, SLASH) + Suffix(v) == c + [SLASH] + rest;
      InitField(c, rest, name);
      InitFromJoin(cs[1..], v, Append(name, Component(c, 0, false)));
      assert name.components + [c] + cs[1..] == name.components + cs;
    }
  }

  lemma JoinStartsClean(cs: seq<seq<byte>>)
    requires Canonical(cs)
    ensures Join(cs, SLASH) != [] && Join(cs, SLASH)[0] != SLASH
  {
    assert cs[0] != [] && Join(cs, SLASH)[0] == cs[0][0];
  }

  /** A canonical path, with or without its leading slash, parses to its components and hash. */
  lemma {:induction false} InitCanonical(cs: seq<seq<byte>>)
    requires Canonical(cs)
    ensures InitName(TextOf(cs)) == Init(true, PlainName(cs))
    ensures InitName(Join(cs, SLASH)) == Init(true, PlainName(cs))
  {
    TextIsJoin(cs);
    JoinStartsClean(cs);
    InitFromJoin(cs, None, EMPTY_NAME);
    assert TextOf(cs)[1..] == Join(cs, SLASH);
    assert Join(cs, SLASH) + [] == Join(cs, SLASH);
    assert EMPTY_NAME.components + cs == cs;
  }

  /** "@version" after a canonical path is accepted exactly when the last component, version
      included, stays under 64 bytes; then it gives the path's components and that version. */
  lemma {:induction false} InitVersioned(cs: seq<seq<byte>>, v: u64)
    requires Canonical(cs)
    ensures InitName(TextOf(cs) + VersionText(v)).ok <==> VersionFits(cs, v)
    ensures VersionFits(cs, v) ==>
              InitName(TextOf(cs) + VersionText(v)) == Init(true, VersionedName(cs, v))
  {
    hide InitFrom, VersionText, CanonicalComponent, VersionFits;
    TextIsJoin(cs);
    JoinStartsClean(cs);
    InitFromJoin(cs, Some(v), EMPTY_NAME);
    var path := TextOf(cs) + VersionText(v);
    assert Body(path) == Join(cs, SLASH) + VersionText(v);
    assert [SLASH] + Body(path) == path;
    assert EMPTY_NAME.components + cs == cs;
  }

  ghost predicate CanonicalName(n: Name) {
    Canonical(n.components)
    && if n.hasVersion
       then VersionFits(n.components, n.version) && n == VersionedName(n.components, n.version)
       else n == PlainName(n.components)
  }

  /** Printing a canonical name and parsing the text gives the name back, version and hash
      included. */
  lemma {:induction false} PrintThenParse(n: Name)
    requires CanonicalName(n)
    ensures InitName(NameText(n)) == Init(true, n)
  {
    if n.hasVersion {
      InitVersioned(n.components, n.version);
    } else {
      InitCanonical(n.components);
      assert NameText(n) == TextOf(n.components);
    }
  }

  /** Parsing a canonical path, versioned or not, and printing the name gives the text back. */
  lemma {:induction false} ParseThenPrint(cs: seq<seq<byte>>, v: Option<u64>)
    requires Canonical(cs) && (v.Some? ==> VersionFits(cs, v.value))
    ensures var path := TextOf(cs) + Suffix(v);
            InitName(path).ok && NameText(InitName(path).name) == path
  {
    if v.Some? {
      InitVersioned(cs, v.value);
    } else {
      InitCanonical(cs);
      assert TextOf(cs) + [] == TextOf(cs);
    }
  }

  /** A component with an '@' and another component after it: the digit scan runs into the next
      '/', so the path is refused, unless 16 components came before and the loop never gets there. */
  lemma {:induction false} InnerAtRefused(cs: seq<seq<byte>>, c: seq<byte>, rest: seq<byte>)
    requires |cs| <= MAX_COMPONENTS && forall i :: 0 <= i < |cs| ==> CanonicalComponent(cs[i])
    requires SLASH !in c && AT !in c && SLASH in rest
    ensures InitName(TextOf(cs) + [SLASH] + (c + [AT] + rest)).ok <==> |cs| == MAX_COMPONENTS
  {
    var s := c + [AT] + rest;
    var path := TextOf(cs) + [SLASH] + s;
    if cs == [] {
      assert path == [SLASH] + s && Body(path) == s;
    } else {
      TextIsJoin(cs);
      assert Body(path) == Join(cs, SLASH) + [SLASH] + s;
      InitThrough(cs, s, EMPTY_NAME);
    }
    var name := Name(cs, 0, 0, false);
    assert EMPTY_NAME.components + cs == cs;
    hide InitFrom, ParseComponent;
    if |cs| == MAX_COMPONENTS {
      InitFromDone(s, name);
    } else {
      assert s[..|c|] == c && s[|c| + 1..] == rest;
      ParseRefuses(s, IndexOf(s, SLASH), |c|);
      InitRefuses(s, IndexOf(s, SLASH), name);
    }
  }

  /** Reading canonical components that something else follows. */
  lemma {:induction false} InitThrough(cs: seq<seq<byte>>, rest: seq<byte>, name: Name)
    requires cs != [] && |name.components| + |cs| <= MAX_COMPONENTS
    requires forall i :: 0 <= i < |cs| ==> CanonicalComponent(cs[i])
    ensures InitFrom(Join(cs, SLASH) + [SLASH] + rest, name)
         == InitFrom(rest, name.(components := name.components + cs))
  {
    hide InitFrom, CanonicalComponent;
    var next := Append(name, Component(cs[0], 0, false));
    if |cs| == 1 {
      InitField(cs[0], rest, name);
      assert cs == [cs[0]];
    } else {
      var more := Join(cs[1..], SLASH) + [SLASH] + rest;
      assert Join(cs, SLASH) + [SLASH] + rest == cs[0] + [SLASH] + more;
      InitField(cs[0], more, name);
      InitThrough(cs[1..], rest, next);
      assert name.components + [cs[0]] + cs[1..] == name.components + cs;
    }
  }

  lemma ParseRefuses(src: seq<byte>, len: nat, at: nat)
    requires at < len <= |src| && AT !in src[..at] && src[at] == AT
    requires SLASH in src[at + 1..]
    ensures ParseComponent(src, len) == None
  {
    assert src[..len][..at] == src[..at];
    IndexOfUnique(src[..len], AT, at);
  }

  lemma InitRefuses(s: seq<byte>, k: nat, name: Name)
    requires s != [] && k == IndexOf(s, SLASH) > 0 && ParseComponent(s, k) == None
    requires |name.components| < MAX_COMPONENTS
    ensures !InitFrom(s, name).ok
  {
  }

  // ----- printing -------------------------------------------------------------------

  method CopyBytes(src: seq<byte>, dst: array<byte>, at: nat)
    requires at + |src| <= dst.Length
    modifies dst
    ensures dst[..] == old(dst[..at]) + src + old(dst[at + |src|..])
  {
    for i := 0 to |src|
      invariant dst[..at] == old(dst[..at])
      invariant dst[at..at + i] == src[..i]
      invariant dst[at + |src|..] == old(dst[at + |src|..])
    {
      dst[at + i] := src[i];
      assert dst[at..at + i + 1] == dst[at..at + i] + [src[i]];
    }
    assert dst[..] == dst[..at] + dst[at..at + |src|] + dst[at + |src|..];
  }

  /** memcpy at the write position. */
  method Emit(src: seq<byte>, buf: array<byte>, pos: nat) returns (next: nat)
    requires pos + |src| <= buf.Length
    modifies buf
    ensures next == pos + |src| && buf[..next] == old(buf[..pos]) + src
  {
    CopyBytes(src, buf, pos);
    next := pos + |src|;
  }

  /** What psirp_name_to_string prints from component `i` on, at position `pos` of `cap` bytes: it
      stops at the first component that does not fit, whose slash is left behind. */
  function TextFrom(n: Name, i: nat, pos: nat, cap: nat): seq<byte>
    requires i <= |n.components|
    decreases |n.components| - i
  {
    if i == |n.components| || pos + 1 >= cap then []
    else
      var c := n.components[i];
      var end := pos + 1 + |c|;
      if end + 1 >= cap then [SLASH]
      else
        var v := VersionAt(n, i, end, cap);
        [SLASH] + c + v + TextFrom(n, i + 1, end + |v|, cap)
  }

  function VersionAt(n: Name, i: nat, end: nat, cap: nat): seq<byte> {
    if n.hasVersion && i + 1 == |n.components| && end + 2 < cap then VersionText(n.version) else []
  }

  function TextIn(n: Name, cap: nat): seq<byte> { TextFrom(n, 0, 0, cap) }

  /** The full text from component `i` on. */
  function RestText(n: Name, i: nat): seq<byte>
    requires i <= |n.components|
    decreases |n.components| - i
  {
    if i == |n.components| then if n.hasVersion && n.components != [] then VersionText(n.version) else []
    else [SLASH] + n.components[i] + RestText(n, i + 1)
  }

  lemma {:induction false} RestOfText(n: Name, i: nat)
    requires i <= |n.components|
    ensures TextOf(n.components[..i]) + RestText(n, i) == NameText(n)
    decreases |n.components| - i
  {
    hide VersionText;
    if i == |n.components| {
      assert n.components[..i] == n.components;
    } else {
      assert n.components[..i + 1][..i] == n.components[..i];
      RestOfText(n, i + 1);
      Assoc(TextOf(n.components[..i]), [SLASH] + n.components[i], RestText(n, i + 1));
    }
  }

  /** Spare bytes printing asks for, unless the last component is empty. */
  function Spare(n: Name): nat {
    if n.components != [] && n.components[|n.components| - 1] == [] && !n.hasVersion then 1 else 2
  }

  lemma {:induction false} TextFromFits(n: Name, i: nat, pos: nat, cap: nat)
    requires i < |n.components| && pos + |RestText(n, i)| + Spare(n) <= cap
    ensures TextFrom(n, i, pos, cap) == RestText(n, i)
    decreases |n.components| - i
  {
    hide VersionText;
    var c := n.components[i];
    if i + 1 < |n.components| {
      assert VersionAt(n, i, pos + 1 + |c|, cap) == [];
      RestNonEmpty(n, i + 1);
      TextFromFits(n, i + 1, pos + 1 + |c|, cap);
    } else {
      assert RestText(n, i) == [SLASH] + c + RestText(n, i + 1);
      VersionNonEmpty(n.version);
    }
  }

  lemma RestNonEmpty(n: Name, i: nat)
    requires i < |n.components|
    ensures |RestText(n, i)| >= 1
  {
  }

  lemma VersionNonEmpty(v: u64)
    ensures |VersionText(v)| >= 2
  {
  }

  lemma {:induction false} TextFromCut(n: Name, i: nat, pos: nat, cap: nat)
    requires i <= |n.components| && !n.hasVersion
    ensures TextFrom(n, i, pos, cap) <= RestText(n, i)
    ensures TextFrom(n, i, pos, cap) == [] || pos + |TextFrom(n, i, pos, cap)| < cap
    ensures i < |n.components| && pos + |RestText(n, i)| + Spare(n) > cap ==>
              |TextFrom(n, i, pos, cap)| < |RestText(n, i)|
    decreases |n.components| - i
  {
    if i < |n.components| {
      if i + 1 < |n.components| { RestNonEmpty(n, i + 1); }
      if pos + 1 < cap && pos + 1 + |n.components[i]| + 1 < cap {
        TextFromCut(n, i + 1, pos + 1 + |n.components[i]|, cap);
      }
    }
  }

  /** A buffer of `cap` bytes receives the whole text when it has two bytes to spare. Without a
      version it receives a prefix of the text in any case, with room for the NUL, and the whole text
      if and only if those two bytes are there, one if the last component is empty, or there is
      nothing to print. */
  lemma PrintedInto(n: Name, cap: nat)
    ensures |NameText(n)| + 2 <= cap ==> TextIn(n, cap) == NameText(n)
    ensures !n.hasVersion ==>
              TextIn(n, cap) <= NameText(n) && (cap > 0 ==> |TextIn(n, cap)| < cap)
              && (TextIn(n, cap) == NameText(n) <==> n.components == [] || |NameText(n)| + Spare(n) <= cap)
  {
    RestOfText(n, 0);
    assert n.components[..0] == [];
    assert RestText(n, 0) == NameText(n);
    hide VersionText, NameText, RestText;
    if n.components != [] && |NameText(n)| + Spare(n) <= cap { TextFromFits(n, 0, 0, cap); }
    if !n.hasVersion { TextFromCut(n, 0, 0, cap); }
    EmptyText(n);
  }

  lemma EmptyText(n: Name)
    ensures n.components == [] ==> NameText(n) == []
    ensures n.components != [] ==> NameText(n) != []
  {
  }

  lemma TextFromStep(n: Name, i: nat, pos: nat, cap: nat)
    requires i < |n.components| && pos + 1 < cap
    ensures var end := pos + 1 + |n.components[i]|;
      var v := VersionAt(n, i, end, cap);
      TextFrom(n, i, pos, cap)
      == if end + 1 >= cap then [SLASH] else [SLASH] + n.components[i] + v + TextFrom(n, i + 1, end + |v|, cap)
  {
    hide VersionAt;
  }

  lemma Regroup(done: seq<byte>, c: seq<byte>, v: seq<byte>, rest: seq<byte>)
    ensures done + ([SLASH] + c + v + rest) == done + [SLASH] + c + v + rest
  {
  }

  /** psirp_name_to_string. Only the version is copied without a check of its length. */
  method ToString(n: Name, buf: array<byte>) returns (pos: nat)
    requires n.hasVersion ==> |NameText(n)| + 2 <= buf.Length
    modifies buf
    ensures pos == |TextIn(n, buf.Length)| <= buf.Length && buf[..pos] == TextIn(n, buf.Length)
    ensures buf.Length > 0 ==> pos < buf.Length && buf[pos] == 0
    ensures |NameText(n)| + 2 <= buf.Length ==> TextIn(n, buf.Length) == NameText(n)
  {
    hide VersionText, NameText, TextFrom, VersionAt;
    ghost var all := TextIn(n, buf.Length);
    PrintedInto(n, buf.Length);
    pos := 0;
    if buf.Length == 0 {
      TextFromEnd(n, 0, 0, 0);
      return;
    }
    var i := 0;
    ghost var done: seq<byte> := [];
    while i < |n.components| && pos < buf.Length - 1
      invariant i <= |n.components| && pos < buf.Length && buf[..pos] == done
      invariant done + TextFrom(n, i, pos, buf.Length) == all
    {
      var c := n.components[i];
      TextFromStep(n, i, pos, buf.Length);
      pos := Emit([SLASH], buf, pos);
      if pos + |c| >= buf.Length - 1 {
        done := done + [SLASH];
        break;
      }
      pos := Emit(c, buf, pos);
      ghost var v := VersionAt(n, i, pos, buf.Length);
      Regroup(done, c, v, TextFrom(n, i + 1, pos + |v|, buf.Length));
      done := done + [SLASH] + c;
      VersionAtIs(n, i, pos, buf.Length);
      if n.hasVersion && i + 1 == |n.components| && pos + 1 < buf.Length - 1 {
        var text := VersionText(n.version);
        pos := Emit(text, buf, pos);
      }
      i := i + 1;
      done := done + v;
    }
    TextFromEnd(n, i, pos, buf.Length);
    buf[pos] := 0;
  }

  lemma VersionAtIs(n: Name, i: nat, end: nat, cap: nat)
    ensures VersionAt(n, i, end, cap)
         == if n.hasVersion && i + 1 == |n.components| && end + 1 < cap - 1 then VersionText(n.version) else []
  {
  }

  lemma TextFromEnd(n: Name, i: nat, pos: nat, cap: nat)
    requires i <= |n.components|
    ensures i == |n.components| || pos + 1 >= cap ==> TextFrom(n, i, pos, cap) == []
  {
  }

  // ----- rebuilding a name from its components --------------------------------------

  /** psirp_name_init_components before the hash is set. */
  function RebuildFrom(cs: seq<seq<byte>>): Init {
    if cs == [] then Init(true, EMPTY_NAME)
    else
      var prev := RebuildFrom(cs[..|cs| - 1]);
      var c := cs[|cs| - 1];
      if !prev.ok then prev
      else
        match ParseComponent(c, |c|)
        case None => Init(false, prev.name)
        case Some(p) => Init(true, Append(prev.name, p))
  }

  function Rebuild(cs: seq<seq<byte>>): Init {
    if |cs| > MAX_COMPONENTS then Init(false, EMPTY_NAME)
    else
      var r := RebuildFrom(cs);
      if r.ok then Init(true, r.name.(hash := Hash(TextOf(cs)))) else r
  }

  method InitComponents(cs: seq<seq<byte>>) returns (r: Init)
    ensures r == Rebuild(cs)
  {
    if |cs| > MAX_COMPONENTS { return Init(false, EMPTY_NAME); }
    var path: seq<byte> := [];
    var name := EMPTY_NAME;
    for i := 0 to |cs|
      invariant path == TextOf(cs[..i])
      invariant RebuildFrom(cs[..i]) == Init(true, name)
    {
      var c := cs[i];
      assert cs[..i + 1][..i] == cs[..i];
      path := path + [SLASH] + c;
      assert c[0..] == c;
      var p := ScanComponent(c, 0, |c|);
      if p == None {
        RebuildFails(cs, i + 1);
        return Init(false, name);
      }
      name := Append(name, p.value);
    }
    assert cs[..|cs|] == cs;
    var hash := Fnv1aHash(path);
    r := Init(true, name.(hash := hash));
  }

  lemma {:induction false} RebuildFromShort(cs: seq<seq<byte>>)
    ensures |RebuildFrom(cs).name.components| <= |cs|
  {
    if cs != [] { RebuildFromShort(cs[..|cs| - 1]); }
  }

  /** A rebuilt name never has more components than a name can hold. */
  lemma RebuildShort(cs: seq<seq<byte>>)
    ensures |Rebuild(cs).name.components| <= MAX_COMPONENTS
  {
    RebuildFromShort(cs);
  }

  lemma {:induction false} RebuildFails(cs: seq<seq<byte>>, k: nat)
    requires k <= |cs| && !RebuildFrom(cs[..k]).ok
    ensures RebuildFrom(cs) == RebuildFrom(cs[..k])
    decreases |cs| - k
  {
    if k == |cs| {
      assert cs[..k] == cs;
    } else {
      assert cs[..k + 1][..k] == cs[..k];
      RebuildFails(cs, k + 1);
    }
  }

  lemma {:induction false} RebuildFromClean(cs: seq<seq<byte>>)
    requires forall i :: 0 <= i < |cs| ==> |cs[i]| < MAX_COMPONENT && AT !in cs[i]
    ensures RebuildFrom(cs) == Init(true, Name(cs, 0, 0, false))
  {
    if cs != [] {
      var c := cs[|cs| - 1];
      RebuildFromClean(cs[..|cs| - 1]);
      assert c[..|c|] == c;
      ParsePlainComponent(c, |c|);
    }
  }

  /** Components free of '@' and under 64 bytes are rebuilt as they are, with their path's hash. */
  lemma {:induction false} RebuildClean(cs: seq<seq<byte>>)
    requires |cs| <= MAX_COMPONENTS
    requires forall i :: 0 <= i < |cs| ==> |cs[i]| < MAX_COMPONENT && AT !in cs[i]
    ensures Rebuild(cs) == Init(true, PlainName(cs))
  {
    RebuildFromClean(cs);
  }

  // ----- comparing ------------------------------------------------------------------

  predicate BaseEqual(a: Name, b: Name) { a.components == b.components }

  predicate NameEqual(a: Name, b: Name) { a.hash == b.hash && BaseEqual(a, b) }

  predicate IsPrefix(prefix: Name, n: Name) { prefix.components <= n.components }

  /** Without versions the hash comparison of psirp_name_equal never changes the answer. */
  lemma PlainEqualIffComponents(a: Name, b: Name)
    requires Plain(a) && Plain(b)
    ensures NameEqual(a, b) <==> a.components == b.components
  {
  }
}
