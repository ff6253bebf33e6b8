/** The part every packet shares: a counted list of length-prefixed name components, the
    big-endian fields in front of it, and writing into a bounded buffer. */
module Wire {
  import opened Bytes
  import opened Fnv
  import opened Names

  /** What the format can carry; the count of a name structure never exceeds 16. */
  predicate Encodable(cs: seq<seq<byte>>) {
    |cs| <= MAX_COMPONENTS && forall i :: 0 <= i < |cs| ==> |cs[i]| <= 255
  }

  function EncodeComponents(cs: seq<seq<byte>>): (r: seq<byte>)
    requires forall i :: 0 <= i < |cs| ==> |cs[i]| <= 255
    ensures |cs| <= |r|
  {
    if cs == [] then [] else [|cs[0]|] + cs[0] + EncodeComponents(cs[1..])
  }

  function EncodeName(cs: seq<seq<byte>>): (r: seq<byte>)
    requires Encodable(cs)
    ensures r != []
  {
    [|cs|] + EncodeComponents(cs)
  }

  /** Components as they stand in the buffer, and what follows them. */
  datatype Parsed = Parsed(components: seq<seq<byte>>, rest: seq<byte>)

  /** `count` components; one of `limit` bytes or more is refused. */
  function DecodeComponents(s: seq<byte>, count: nat, limit: nat): Option<Parsed> {
    if count == 0 then Some(Parsed([], s))
    else if s == [] then None
    else
      var len := s[0];
      if 1 + len > |s| || len >= limit then None
      else
        match DecodeComponents(s[1 + len..], count - 1, limit)
        case None => None
        case Some(p) => Some(Parsed([s[1..1 + len]] + p.components, p.rest))
  }

  function DecodeName(s: seq<byte>, limit: nat): Option<Parsed> {
    if s == [] || s[0] > MAX_COMPONENTS then None else DecodeComponents(s[1..], s[0], limit)
  }

  /** malloc'ed copies with a NUL behind them: what the C string functions see. */
  function CStrings(raw: seq<seq<byte>>): (r: seq<seq<byte>>)
    ensures |r| == |raw|
    ensures r == raw <==> NoByte(raw, 0)
  {
    var r := seq(|raw|, i requires 0 <= i < |raw| => CString(raw[i]));
    assert NoByte(raw, 0) ==> forall i :: 0 <= i < |raw| ==> r[i] == raw[i];
    assert r == raw ==> forall i :: 0 <= i < |raw| ==> raw[i] == CString(raw[i]);
    r
  }

  /** The bytes a decoder hashes: a component that would not fit the 1024-byte buffer is left out. */
  function HashText(raw: seq<seq<byte>>): seq<byte> {
    if raw == [] then []
    else
      var text, c := HashText(raw[..|raw| - 1]), raw[|raw| - 1];
      if |text| + 1 + |c| < MAX_NAME then text + [SLASH] + c else text
  }

  function WireName(raw: seq<seq<byte>>): Name {
    Name(CStrings(raw), Hash(HashText(raw)), 0, false)
  }

  lemma {:induction false} HashTextFits(raw: seq<seq<byte>>)
    requires |TextOf(raw)| < MAX_NAME
    ensures HashText(raw) == TextOf(raw)
  {
    if raw != [] { HashTextFits(raw[..|raw| - 1]); }
  }

  /** Of any components, no more than 1023 bytes are hashed: one that does not fit any more is left
      out, and a later one that does is not. */
  lemma {:induction false} HashTextBound(raw: seq<seq<byte>>, c: seq<byte>)
    ensures |HashText(raw)| < 1024
    ensures HashText(raw + [c])
         == if |HashText(raw) + [SLASH] + c| < 1024 then HashText(raw) + [SLASH] + c else HashText(raw)
  {
    assert (raw + [c])[..|raw|] == raw;
    if raw != [] { HashTextBound(raw[..|raw| - 1], raw[|raw| - 1]); }
  }

  /** A canonical unversioned name shorter than 1024 bytes arrives with its own hash. */
  lemma {:induction false} PlainNameSurvives(n: Name)
    requires Plain(n) && |TextOf(n.components)| < MAX_NAME
    ensures WireName(n.components) == n
  {
    HashTextFits(n.components);
  }

  // ----- round trip -----------------------------------------------------------------

  lemma {:induction false} EncodeSnoc(cs: seq<seq<byte>>, c: seq<byte>)
    requires forall i :: 0 <= i < |cs| ==> |cs[i]| <= 255
    requires |c| <= 255
    ensures EncodeComponents(cs + [c]) == EncodeComponents(cs) + [|c|] + c
  {
    if cs == [] {
      assert EncodeComponents([c]) == [|c|] + c + EncodeComponents([]);
    } else {
      assert (cs + [c])[1..] == cs[1..] + [c];
      EncodeSnoc(cs[1..], c);
    }
  }

  ghost function Prepend(raw: seq<seq<byte>>, p: Option<Parsed>): Option<Parsed> {
    if p.None? then None else Some(Parsed(raw + p.value.components, p.value.rest))
  }

  lemma PrependNothing(p: Option<Parsed>)
    ensures Prepend([], p) == p
  {
    if p.Some? {
      assert [] + p.value.components == p.value.components;
    }
  }

  lemma PrependSnoc(raw: seq<seq<byte>>, c: seq<byte>, p: Option<Parsed>)
    ensures Prepend(raw + [c], p) == Prepend(raw, Prepend([c], p))
  {
    if p.Some? {
      assert raw + [c] + p.value.components == raw + ([c] + p.value.components);
    }
  }

  /** Decoding one component and then the rest. */
  lemma {:induction false} DecodeStep(c: seq<byte>, tail: seq<byte>, count: nat, limit: nat)
    requires |c| <= 255 && |c| < limit && count > 0
    ensures DecodeComponents([|c|] + c + tail, count, limit)
            == Prepend([c], DecodeComponents(tail, count - 1, limit))
  {
    var s := [|c|] + c + tail;
    assert s[1..1 + |c|] == c && s[1 + |c|..] == tail;
  }

  lemma {:induction false} ComponentsRoundTrip(cs: seq<seq<byte>>, t: seq<byte>, limit: nat)
    requires forall i :: 0 <= i < |cs| ==> |cs[i]| <= 255 && |cs[i]| < limit
    ensures DecodeComponents(EncodeComponents(cs) + t, |cs|, limit) == Some(Parsed(cs, t))
  {
    if cs == [] {
      assert EncodeComponents(cs) + t == t;
    } else {
      ComponentsRoundTrip(cs[1..], t, limit);
      var head, tail := [|cs[0]|] + cs[0], EncodeComponents(cs[1..]);
      assert EncodeComponents(cs) == head + tail;
      hide DecodeComponents, EncodeComponents;
      Assoc(head, tail, t);
      DecodeStep(cs[0], tail + t, |cs|, limit);
      assert [cs[0]] + cs[1..] == cs;
    }
  }

  /** Whatever follows an encoded name, decoding finds the name and stops exactly behind it. */
  lemma {:induction false} NameRoundTrip(cs: seq<seq<byte>>, t: seq<byte>, limit: nat)
    requires Encodable(cs) && forall i :: 0 <= i < |cs| ==> |cs[i]| < limit
    ensures DecodeName(EncodeName(cs) + t, limit) == Some(Parsed(cs, t))
  {
    hide DecodeComponents, EncodeComponents;
    ComponentsRoundTrip(cs, t, limit);
    assert (EncodeName(cs) + t)[1..] == EncodeComponents(cs) + t;
  }

  lemma DecodeNeeds(s: seq<byte>, count: nat, limit: nat)
    requires DecodeComponents(s, count, limit).Some? && count > 0
    ensures s != [] && 1 + s[0] <= |s| && s[0] < limit
    ensures s == [s[0]] + s[1..1 + s[0]] + s[1 + s[0]..]
  {
  }

  lemma {:induction false} ComponentsSound(s: seq<byte>, count: nat, limit: nat)
    requires DecodeComponents(s, count, limit).Some?
    ensures var p := DecodeComponents(s, count, limit).value;
            |p.components| == count
            && (forall i :: 0 <= i < count ==> |p.components[i]| <= 255 && |p.components[i]| < limit)
            && s == EncodeComponents(p.components) + p.rest
  {
    if count > 0 {
      DecodeNeeds(s, count, limit);
      hide DecodeComponents;
      var c, tail := s[1..1 + s[0]], s[1 + s[0]..];
      DecodeStep(c, tail, count, limit);
      ComponentsSound(tail, count - 1, limit);
      var p := DecodeComponents(tail, count - 1, limit).value;
      assert ([c] + p.components)[1..] == p.components;
      var rest := EncodeComponents(p.components);
      assert EncodeComponents([c] + p.components) == [|c|] + c + rest;
      hide EncodeComponents;
      Assoc([|c|] + c, rest, p.rest);
    }
  }

  lemma CountInFront(s: seq<byte>, body: seq<byte>, rest: seq<byte>)
    requires s != [] && s[1..] == body + rest
    ensures s == [s[0]] + body + rest
  {
    assert s == [s[0]] + s[1..];
  }

  /** Everything a decoder accepts is an encoding followed by the bytes it left over. */
  lemma {:induction false} NameSound(s: seq<byte>, limit: nat)
    requires DecodeName(s, limit).Some?
    ensures var p := DecodeName(s, limit).value;
            Encodable(p.components)
            && (forall i :: 0 <= i < |p.components| ==> |p.components[i]| < limit)
            && s == EncodeName(p.components) + p.rest
  {
    hide DecodeComponents, EncodeComponents;
    ComponentsSound(s[1..], s[0], limit);
    var p := DecodeName(s, limit).value;
    CountInFront(s, EncodeComponents(p.components), p.rest);
  }

  /** The copies made by a decoder encode to the bytes they came from exactly when no component
      contains a NUL. */
  lemma {:induction false} ReencodesIffNoNul(raw: seq<seq<byte>>)
    requires Encodable(raw)
    ensures Encodable(CStrings(raw))
    ensures EncodeName(CStrings(raw)) == EncodeName(raw) <==> NoByte(raw, 0)
  {
    forall i | 0 <= i < |raw| ensures |CStrings(raw)[i]| <= 255 {
      assert |CString(raw[i])| <= |raw[i]|;
    }
    if EncodeName(CStrings(raw)) == EncodeName(raw) {
      NameRoundTrip(CStrings(raw), [], 256);
      NameRoundTrip(raw, [], 256);
      assert CStrings(raw) == raw;
    }
  }

  /** A decoder with a limit takes an encoded name exactly when every component is below the limit. */
  lemma {:induction false} NameTakenIff(cs: seq<seq<byte>>, t: seq<byte>, limit: nat)
    requires Encodable(cs)
    ensures DecodeName(EncodeName(cs) + t, limit).Some? <==> forall i :: 0 <= i < |cs| ==> |cs[i]| < limit
  {
    var r := DecodeName(EncodeName(cs) + t, limit);
    if r.Some? {
      NameSound(EncodeName(cs) + t, limit);
      NameRoundTrip(cs, t, 256);
      NameRoundTrip(r.value.components, r.value.rest, 256);
    } else if forall i :: 0 <= i < |cs| ==> |cs[i]| < limit {
      NameRoundTrip(cs, t, limit);
    }
  }

  // ----- where the bytes stand ------------------------------------------------------

  /** Position of component `i`: behind the count byte and the earlier components, each with its
      length byte. */
  function OffsetOf(cs: seq<seq<byte>>, i: nat): nat
    requires i <= |cs|
  {
    if i == 0 then 1 else OffsetOf(cs, i - 1) + 1 + |cs[i - 1]|
  }

  lemma {:induction false} EncodePrefix(cs: seq<seq<byte>>, i: nat)
    requires i < |cs| && forall j :: 0 <= j < |cs| ==> |cs[j]| <= 255
    ensures EncodeComponents(cs[..i + 1]) == EncodeComponents(cs[..i]) + [|cs[i]|] + cs[i]
    ensures |EncodeComponents(cs[..i])| == OffsetOf(cs, i) - 1
    ensures |EncodeComponents(cs[..i + 1])| == OffsetOf(cs, i + 1) - 1
  {
    assert cs[..i + 1] == cs[..i] + [cs[i]];
    EncodeSnoc(cs[..i], cs[i]);
    if i > 0 { EncodePrefix(cs, i - 1); }
  }

  lemma {:induction false} EncodeSplit(cs: seq<seq<byte>>, k: nat)
    requires k <= |cs| && forall i :: 0 <= i < |cs| ==> |cs[i]| <= 255
    ensures EncodeComponents(cs[..k]) <= EncodeComponents(cs)
  {
    if k > 0 {
      assert cs[..k][1..] == cs[1..][..k - 1] && cs[..k][0] == cs[0];
      EncodeSplit(cs[1..], k - 1);
      StillPrefix([|cs[0]|] + cs[0], EncodeComponents(cs[1..][..k - 1]), EncodeComponents(cs[1..]));
    }
  }

  lemma StillPrefix(head: seq<byte>, a: seq<byte>, b: seq<byte>)
    requires a <= b
    ensures head + a <= head + b
  {
  }

  /** The count byte, then for every component its length byte and its bytes. */
  lemma {:induction false} NameLayout(cs: seq<seq<byte>>, i: nat)
    requires Encodable(cs) && i < |cs|
    ensures var e, at := EncodeName(cs), OffsetOf(cs, i);
      e[0] == |cs| && at + 1 + |cs[i]| <= |e| && e[at] == |cs[i]| && e[at + 1..at + 1 + |cs[i]|] == cs[i]
    ensures |EncodeName(cs)| == OffsetOf(cs, |cs|)
  {
    EncodeSplit(cs, i + 1);
    EncodePrefix(cs, i);
    EncodePrefix(cs, |cs| - 1);
    assert cs[..|cs| - 1 + 1] == cs;
    hide EncodeComponents, OffsetOf;
    Placed(cs[i], EncodeComponents(cs[..i]), EncodeComponents(cs), |cs|);
  }

  lemma Placed(c: seq<byte>, before: seq<byte>, all: seq<byte>, count: byte)
    requires |c| <= 255 && before + [|c|] + c <= all
    ensures var e, at := [count] + all, 1 + |before|;
      at + 1 + |c| <= |e| && e[at] == |c| && e[at + 1..at + 1 + |c|] == c
  {
    var x := before + [|c|] + c;
    assert x[|before|] == |c| && x[|before| + 1..] == c;
    assert all[..|x|] == x;
    assert all[|before| + 1..|before| + 1 + |c|] == all[..|x|][|before| + 1..];
  }

  // ----- fixed-width fields ---------------------------------------------------------

  /** The `width` bytes at `at` are the big-endian digits of `n` to the base 256. */
  ghost predicate FieldAt(s: seq<byte>, at: nat, n: nat, width: nat)
    requires at + width <= |s|
  {
    var f := s[at..at + width];
    forall i :: 0 <= i < |f| ==> f[i] == Digit256(n, width - 1 - i)
  }

  lemma FieldPlaced(s: seq<byte>, at: nat, n: nat, width: nat)
    requires at + width <= |s| && s[at..at + width] == BigEndian(n, width)
    ensures FieldAt(s, at, n, width)
  {
    hide BigEndian, Digit256;
    var f := s[at..at + width];
    forall i | 0 <= i < |f| ensures f[i] == Digit256(n, width - 1 - i) {
      BigEndianAt(n, width, i);
    }
  }

  function Get64(s: seq<byte>): (n: u64)
    requires |s| == 8
    ensures BigEndian(n, 8) == s
  {
    Pow256Widths();
    BigEndianEncodes(s);
    FromBigEndian(s)
  }

  function Get32(s: seq<byte>): (n: u32)
    requires |s| == 4
    ensures BigEndian(n, 4) == s
  {
    Pow256Widths();
    BigEndianEncodes(s);
    FromBigEndian(s)
  }

  lemma Get64Decodes(n: u64)
    ensures Get64(BigEndian(n, 8)) == n
  {
    Pow256Widths();
    BigEndianDecodes(n, 8);
  }

  lemma Get32Decodes(n: u32)
    ensures Get32(BigEndian(n, 4)) == n
  {
    Pow256Widths();
    BigEndianDecodes(n, 4);
  }

  // ----- writing --------------------------------------------------------------------

  /** The buffer `was` with `src` copied over it at `pos`. */
  ghost function Overlaid(was: seq<byte>, pos: nat, src: seq<byte>): seq<byte>
    requires pos + |src| <= |was|
  {
    was[..pos] + src + was[pos + |src|..]
  }

  /** The bytes written are in place and all others as they were. */
  lemma OverlaidAt(was: seq<byte>, pos: nat, src: seq<byte>, i: nat)
    requires pos + |src| <= |was| && i < |was|
    ensures |Overlaid(was, pos, src)| == |was|
    ensures Overlaid(was, pos, src)[i] == if pos <= i < pos + |src| then src[i - pos] else was[i]
  {
  }

  lemma OverlaidTwice(was: seq<byte>, pos: nat, a: seq<byte>, b: seq<byte>)
    requires pos + |a| + |b| <= |was|
    ensures Overlaid(Overlaid(was, pos, a), pos + |a|, b) == Overlaid(was, pos, a + b)
  {
  }

  /** `if (pos + len > buf_len) return 0; memcpy(...)`. */
  method Put(src: seq<byte>, buf: array<byte>, pos: nat) returns (ok: bool)
    modifies buf
    ensures ok <==> pos + |src| <= buf.Length
    ensures ok ==> buf[..] == Overlaid(old(buf[..]), pos, src)
    ensures !ok ==> buf[..] == old(buf[..])
  {
    if pos + |src| > buf.Length { return false; }
    CopyBytes(src, buf, pos);
    ok := true;
    assert old(buf[..])[..pos] == old(buf[..pos]);
    assert old(buf[..])[pos + |src|..] == old(buf[pos + |src|..]);
  }

  /** The count and component loop of every serializer. */
  method PutName(cs: seq<seq<byte>>, buf: array<byte>, start: nat) returns (ok: bool, pos: nat)
    requires |cs| <= MAX_COMPONENTS
    modifies buf
    ensures ok <==> Encodable(cs) && start + |EncodeName(cs)| <= buf.Length
    ensures ok ==> pos == start + |EncodeName(cs)|
                   && buf[..] == Overlaid(old(buf[..]), start, EncodeName(cs))
  {
    ghost var was := buf[..];
    pos := start;
    ok := Put([|cs|], buf, pos);
    if !ok { return; }
    pos := pos + 1;
    ghost var done: seq<byte> := [|cs|];
    assert done == [|cs|] + EncodeComponents(cs[..0]);
    for i := 0 to |cs|
      invariant Encodable(cs[..i]) && done == [|cs|] + EncodeComponents(cs[..i])
      invariant pos == start + |done| <= buf.Length && |was| == buf.Length
      invariant buf[..] == Overlaid(was, start, done)
    {
      var c := cs[i];
      if |c| > 255 { return false, pos; }
      NextComponent(cs, i);
      hide EncodeComponents, Overlaid;
      ok := Put([|c|] + c, buf, pos);
      if !ok { return; }
      OverlaidTwice(was, start, done, [|c|] + c);
      done := done + ([|c|] + c);
      pos := pos + |[|c|] + c|;
    }
    assert cs[..|cs|] == cs;
    ok := true;
  }

  lemma NextComponent(cs: seq<seq<byte>>, i: nat)
    requires i < |cs| && Encodable(cs[..i]) && |cs| <= MAX_COMPONENTS && |cs[i]| <= 255
    ensures Encodable(cs[..i + 1])
    ensures [|cs|] + EncodeComponents(cs[..i + 1])
            == [|cs|] + EncodeComponents(cs[..i]) + ([|cs[i]|] + cs[i])
    ensures Encodable(cs) ==> |EncodeComponents(cs[..i + 1])| <= |EncodeComponents(cs)|
  {
    assert cs[..i + 1] == cs[..i] + [cs[i]];
    EncodeSnoc(cs[..i], cs[i]);
    if Encodable(cs) { EncodingGrows(cs, i + 1); }
  }

  lemma {:induction false} EncodingGrows(cs: seq<seq<byte>>, k: nat)
    requires k <= |cs| && forall i :: 0 <= i < |cs| ==> |cs[i]| <= 255
    ensures |EncodeComponents(cs[..k])| <= |EncodeComponents(cs)|
  {
    if k > 0 {
      assert cs[..k][1..] == cs[1..][..k - 1];
      EncodingGrows(cs[1..], k - 1);
    }
  }

  // ----- reading --------------------------------------------------------------------

  lemma ReadStep(buf: seq<byte>, pos: nat, raw: seq<seq<byte>>, count: nat, limit: nat)
    requires pos < |buf| && pos + 1 + buf[pos] <= |buf| && buf[pos] < limit && count > 0
    ensures var c, next := buf[pos + 1..pos + 1 + buf[pos]], pos + 1 + buf[pos];
            Prepend(raw, DecodeComponents(buf[pos..], count, limit))
            == Prepend(raw + [c], DecodeComponents(buf[next..], count - 1, limit))
    ensures HashText(raw + [buf[pos + 1..pos + 1 + buf[pos]]])
            == if |HashText(raw)| + 1 + buf[pos] < MAX_NAME
               then HashText(raw) + [SLASH] + buf[pos + 1..pos + 1 + buf[pos]] else HashText(raw)
  {
    var c, tail := buf[pos + 1..pos + 1 + buf[pos]], buf[pos + 1 + buf[pos]..];
    assert (raw + [c])[..|raw|] == raw;
    hide DecodeComponents, HashText;
    assert buf[pos..] == [|c|] + c + tail;
    DecodeStep(c, tail, count, limit);
    PrependSnoc(raw, c, DecodeComponents(tail, count - 1, limit));
  }

  /** The component loop of every deserializer, from `start`; `text` is what it hashes. */
  method ReadComponents(buf: seq<byte>, start: nat, count: nat, limit: nat)
    returns (ok: bool, raw: seq<seq<byte>>, text: seq<byte>, pos: nat)
    requires start <= |buf|
    ensures ok <==> DecodeComponents(buf[start..], count, limit).Some?
    ensures ok ==> pos <= |buf| && text == HashText(raw)
                   && DecodeComponents(buf[start..], count, limit) == Some(Parsed(raw, buf[pos..]))
  {
    hide DecodeComponents, HashText, Prepend;
    raw, text, pos := [], [], start;
    NothingRead(DecodeComponents(buf[start..], count, limit));
    for i := 0 to count
      invariant pos <= |buf| && text == HashText(raw)
      invariant Prepend(raw, DecodeComponents(buf[pos..], count - i, limit))
                == DecodeComponents(buf[start..], count, limit)
    {
      DecodeStuck(buf[pos..], count - i, limit, raw);
      if pos + 1 > |buf| { return false, raw, text, pos; }
      var len := buf[pos];
      if pos + 1 + len > |buf| || len >= limit { return false, raw, text, pos + 1; }
      var c := buf[pos + 1..pos + 1 + len];
      ReadStep(buf, pos, raw, count - i, limit);
      raw := raw + [c];
      pos := pos + 1 + len;
      if |text| + 1 + len < MAX_NAME { text := text + [SLASH] + c; }
    }
    DecodeEnds(buf[pos..], limit, raw);
    ok := true;
  }

  lemma NothingRead(p: Option<Parsed>)
    ensures Prepend([], p) == p && HashText([]) == []
  {
    PrependNothing(p);
  }

  lemma DecodeStuck(s: seq<byte>, count: nat, limit: nat, raw: seq<seq<byte>>)
    requires count > 0
    ensures s == [] || 1 + s[0] > |s| || s[0] >= limit ==> Prepend(raw, DecodeComponents(s, count, limit)) == None
  {
  }

  lemma DecodeEnds(s: seq<byte>, limit: nat, raw: seq<seq<byte>>)
    ensures Prepend(raw, DecodeComponents(s, 0, limit)) == Some(Parsed(raw, s))
  {
    assert raw + [] == raw;
  }
}
