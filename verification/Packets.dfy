/** Interest and Data packets (psirp.c) and compute requests and responses (compute.c): the
    four binary formats, their serializers and their deserializers. */
module Packets {
  import opened Bytes
  import opened Fnv
  import opened Names
  import opened Wire

  const PKT_INTEREST: byte := 0
  const PKT_DATA: byte := 1
  const PKT_COMPUTE_REQ: byte := 5
  const PKT_COMPUTE_RESP: byte := 6

  const SIGN_SIZE: nat := 64
  const KEY_SIZE: nat := 32
  const MAX_PARAMS: nat := 4096
  const MAX_RESULT: nat := 0x10_0000

  /** Interest and Data accept any length byte; the compute formats only components of a name. */
  const ANY_LENGTH: nat := 256

  datatype Interest = Interest(name: Name, nonce: u64, lifetimeMs: u32)
  datatype Data = Data(name: Name, data: seq<byte>, timestamp: u64, freshnessMs: u32)
  datatype ComputeReq = ComputeReq(name: Name, params: seq<byte>, nonce: u64)
  datatype ComputeResp =
    ComputeResp(name: Name, result: seq<byte>, signature: seq<byte>, pubkey: seq<byte>)

  /** A packet and the bytes behind it that its decoder did not look at. */
  datatype Decoded<T> = Decoded(packet: T, rest: seq<byte>)

  /** The components are C strings that fit the format. */
  ghost predicate Sendable(cs: seq<seq<byte>>, limit: nat) {
    Encodable(cs) && NoByte(cs, 0) && forall i :: 0 <= i < |cs| ==> |cs[i]| < limit
  }

  // ----- common layout --------------------------------------------------------------

  /** Type byte, 64-bit field, 32-bit field. */
  datatype Header = Header(tag: byte, wide: u64, narrow: u32) {
    function Bytes(): (r: seq<byte>)
      ensures |r| == 13 && r[0] == tag
    {
      [tag] + BigEndian(wide, 8) + BigEndian(narrow, 4)
    }
  }

  function GetHeader(s: seq<byte>): Header
    requires |s| >= 13
  {
    Header(s[0], Get64(s[1..9]), Get32(s[9..13]))
  }

  lemma {:induction false} HeaderRoundTrip(h: Header, r: seq<byte>)
    ensures GetHeader(h.Bytes() + r) == h && (h.Bytes() + r)[13..] == r
  {
    var a, b := BigEndian(h.wide, 8), BigEndian(h.narrow, 4);
    assert (h.Bytes() + r)[1..9] == a && (h.Bytes() + r)[9..13] == b;
    Get64Decodes(h.wide);
    Get32Decodes(h.narrow);
  }

  lemma {:induction false} HeaderSound(s: seq<byte>)
    requires |s| >= 13
    ensures s == GetHeader(s).Bytes() + s[13..]
  {
    hide BigEndian;
    assert s == [s[0]] + s[1..9] + s[9..13] + s[13..];
  }

  /** The fields of a header are where the format puts them, most significant byte first. */
  lemma HeaderLayout(h: Header, r: seq<byte>)
    ensures var s := h.Bytes() + r;
      s[0] == h.tag && FieldAt(s, 1, h.wide, 8) && FieldAt(s, 9, h.narrow, 4) && s[13..] == r
  {
    hide BigEndian, FieldAt;
    var s := h.Bytes() + r;
    assert s[1..1 + 8] == BigEndian(h.wide, 8) && s[9..9 + 4] == BigEndian(h.narrow, 4);
    FieldPlaced(s, 1, h.wide, 8);
    FieldPlaced(s, 9, h.narrow, 4);
  }

  /** A name followed by a payload of a length known beforehand. */
  datatype Body = Body(components: seq<seq<byte>>, payload: seq<byte>, rest: seq<byte>)

  function DecodeBody(s: seq<byte>, limit: nat, len: nat): Option<Body> {
    match DecodeName(s, limit)
    case None => None
    case Some(p) =>
      if len > |p.rest| then None
      else Some(Body(p.components, p.rest[..len], p.rest[len..]))
  }

  lemma {:induction false} BodyRoundTrip(cs: seq<seq<byte>>, payload: seq<byte>, t: seq<byte>, limit: nat)
    requires Encodable(cs) && forall i :: 0 <= i < |cs| ==> |cs[i]| < limit
    ensures DecodeBody(EncodeName(cs) + payload + t, limit, |payload|) == Some(Body(cs, payload, t))
  {
    hide DecodeName, EncodeName;
    NameRoundTrip(cs, payload + t, limit);
    Assoc(EncodeName(cs), payload, t);
    assert (payload + t)[..|payload|] == payload && (payload + t)[|payload|..] == t;
  }

  lemma {:induction false} BodySound(s: seq<byte>, limit: nat, len: nat)
    requires DecodeBody(s, limit, len).Some?
    ensures var b := DecodeBody(s, limit, len).value;
            Encodable(b.components) && |b.payload| == len
            && s == EncodeName(b.components) + b.payload + b.rest
  {
    hide DecodeName, EncodeName;
    NameSound(s, limit);
    var p := DecodeName(s, limit).value;
    assert p.rest == p.rest[..len] + p.rest[len..];
    Assoc(EncodeName(p.components), p.rest[..len], p.rest[len..]);
  }

  lemma Regroup(head: seq<byte>, name: seq<byte>, payload: seq<byte>, rest: seq<byte>)
    ensures head + name + payload + rest == head + (name + payload + rest)
  {
  }

  /** Putting the decoder's copies of the components back between the other bytes of a packet
      restores it exactly when no component contains a NUL. */
  lemma {:induction false} NameReencodes(head: seq<byte>, raw: seq<seq<byte>>, payload: seq<byte>, rest: seq<byte>)
    requires Encodable(raw)
    ensures Encodable(CStrings(raw))
    ensures head + EncodeName(CStrings(raw)) + payload + rest == head + EncodeName(raw) + payload + rest
            <==> NoByte(raw, 0)
  {
    ReencodesIffNoNul(raw);
    hide EncodeName;
    var a, b := EncodeName(CStrings(raw)), EncodeName(raw);
    var x, y := head + a + payload + rest, head + b + payload + rest;
    if x == y {
      assert |a| == |b|;
      assert a == x[|head|..|head| + |a|] && b == y[|head|..|head| + |b|];
    }
  }

  // ----- Interest -------------------------------------------------------------------

  function EncodeInterest(p: Interest): seq<byte>
    requires Encodable(p.name.components)
  {
    Header(PKT_INTEREST, p.nonce, p.lifetimeMs).Bytes() + EncodeName(p.name.components)
  }

  function DecodeInterest(buf: seq<byte>): Option<Decoded<Interest>> {
    if |buf| < 14 || buf[0] != PKT_INTEREST then None
    else
      var h := GetHeader(buf);
      match DecodeName(buf[13..], ANY_LENGTH)
      case None => None
      case Some(p) => Some(Decoded(Interest(WireName(p.components), h.wide, h.narrow), p.rest))
  }

  /** The 64- and 32-bit field of a serializer, with its own bounds checks. */
  method PutHeader(h: Header, buf: array<byte>) returns (ok: bool)
    modifies buf
    ensures ok <==> 13 <= buf.Length
    ensures ok ==> buf[..] == Overlaid(old(buf[..]), 0, h.Bytes())
  {
    ghost var was := buf[..];
    hide BigEndian, Overlaid;
    ok := Put([h.tag], buf, 0);
    if !ok { return; }
    ok := Put(BigEndian(h.wide, 8), buf, 1);
    if !ok { return; }
    OverlaidTwice(was, 0, [h.tag], BigEndian(h.wide, 8));
    ok := Put(BigEndian(h.narrow, 4), buf, 9);
    if !ok { return; }
    OverlaidTwice(was, 0, [h.tag] + BigEndian(h.wide, 8), BigEndian(h.narrow, 4));
  }

  /** psirp_interest_serialize: the encoding at the start of the buffer, or 0. */
  method SerializeInterest(p: Interest, buf: array<byte>) returns (n: nat)
    requires |p.name.components| <= MAX_COMPONENTS
    modifies buf
    ensures n != 0 <==> Encodable(p.name.components) && |EncodeInterest(p)| <= buf.Length
    ensures n != 0 ==> n == |EncodeInterest(p)|
                       && buf[..] == Overlaid(old(buf[..]), 0, EncodeInterest(p))
  {
    ghost var was := buf[..];
    hide EncodeName, Overlaid;
    var h := Header(PKT_INTEREST, p.nonce, p.lifetimeMs);
    var ok := PutHeader(h, buf);
    if !ok { return 0; }
    ok, n := PutName(p.name.components, buf, 13);
    if !ok { return 0; }
    OverlaidTwice(was, 0, h.Bytes(), EncodeName(p.name.components));
  }

  /** psirp_interest_deserialize into a zeroed structure. */
  method DeserializeInterest(buf: seq<byte>) returns (r: Option<Interest>)
    ensures r == match DecodeInterest(buf)
                 case None => None
                 case Some(d) => Some(d.packet)
  {
    hide DecodeComponents, HashText, GetHeader;
    if |buf| < 14 || buf[0] != PKT_INTEREST { return None; }
    var h := GetHeader(buf);
    var count := buf[13];
    assert buf[13..][0] == count && buf[13..][1..] == buf[14..];
    if count > MAX_COMPONENTS { return None; }
    var ok, raw, text, pos := ReadComponents(buf, 14, count, ANY_LENGTH);
    if !ok { return None; }
    var hash := Fnv1aHash(text);
    r := Some(Interest(Name(CStrings(raw), hash, 0, false), h.wide, h.narrow));
  }

  /** Decoding an Interest followed by anything gives the Interest back, its hash included when
      the name is canonical and shorter than 1024 bytes. */
  lemma {:induction false} InterestRoundTrip(p: Interest, t: seq<byte>)
    requires Sendable(p.name.components, 256)
    ensures DecodeInterest(EncodeInterest(p) + t)
            == Some(Decoded(p.(name := WireName(p.name.components)), t))
    ensures Plain(p.name) && |TextOf(p.name.components)| < MAX_NAME
            ==> DecodeInterest(EncodeInterest(p) + t) == Some(Decoded(p, t))
  {
    var cs, h := p.name.components, Header(PKT_INTEREST, p.nonce, p.lifetimeMs);
    NameRoundTrip(cs, t, ANY_LENGTH);
    if Plain(p.name) && |TextOf(cs)| < MAX_NAME { PlainNameSurvives(p.name); }
    hide DecodeName, EncodeName, GetHeader, Plain, Hash, HashText;
    Assoc(h.Bytes(), EncodeName(cs), t);
    HeaderRoundTrip(h, EncodeName(cs) + t);
  }

  /** Type 0, the nonce, the lifetime, the name. */
  lemma InterestLayout(p: Interest)
    requires Encodable(p.name.components)
    ensures var e := EncodeInterest(p);
      |e| >= 13 && e[0] == 0 && FieldAt(e, 1, p.nonce, 8) && FieldAt(e, 9, p.lifetimeMs, 4)
      && e[13..] == EncodeName(p.name.components)
  {
    hide FieldAt, EncodeName;
    HeaderLayout(Header(PKT_INTEREST, p.nonce, p.lifetimeMs), EncodeName(p.name.components));
  }

  /** No Interest encoding is a prefix of another one. */
  lemma {:induction false} InterestPrefixFree(p: Interest, q: Interest, t: seq<byte>, u: seq<byte>)
    requires Sendable(p.name.components, 256) && Sendable(q.name.components, 256)
    requires EncodeInterest(p) + t == EncodeInterest(q) + u
    ensures p.name.components == q.name.components && p.nonce == q.nonce
            && p.lifetimeMs == q.lifetimeMs && t == u
  {
    InterestRoundTrip(p, t);
    InterestRoundTrip(q, u);
    hide EncodeInterest, DecodeInterest, Hash, HashText;
    assert CStrings(p.name.components) == CStrings(q.name.components);
  }

  /** Re-encoding an accepted Interest gives back exactly the bytes consumed if and only if no
      component in the buffer contains a NUL. */
  lemma {:induction false} InterestReencodes(buf: seq<byte>)
    requires DecodeInterest(buf).Some?
    ensures var d := DecodeInterest(buf).value;
            Encodable(d.packet.name.components)
            && (EncodeInterest(d.packet) + d.rest == buf
                <==> NoByte(DecodeName(buf[13..], ANY_LENGTH).value.components, 0))
  {
    var p := DecodeName(buf[13..], ANY_LENGTH).value;
    NameSound(buf[13..], ANY_LENGTH);
    HeaderSound(buf);
    var h := GetHeader(buf).Bytes();
    NameReencodes(h, p.components, [], p.rest);
    hide DecodeName, EncodeName, GetHeader, CStrings, Hash, HashText;
    Regroup(h, EncodeName(p.components), [], p.rest);
    assert EncodeName(p.components) + [] == EncodeName(p.components);
    assert h + EncodeName(p.components) + [] == h + EncodeName(p.components);
    assert h + EncodeName(CStrings(p.components)) + [] == h + EncodeName(CStrings(p.components));
  }

  // ----- Data -----------------------------------------------------------------------

  /** The length field holds the low 32 bits of the length. */
  function EncodeData(p: Data): seq<byte>
    requires Encodable(p.name.components)
  {
    Header(PKT_DATA, p.timestamp, p.freshnessMs).Bytes() + BigEndian(|p.data|, 4)
    + EncodeName(p.name.components) + p.data
  }

  function DecodeData(buf: seq<byte>): Option<Decoded<Data>> {
    if |buf| < 18 || buf[0] != PKT_DATA then None
    else
      var h := GetHeader(buf);
      match DecodeBody(buf[17..], ANY_LENGTH, Get32(buf[13..17]))
      case None => None
      case Some(b) => Some(Decoded(Data(WireName(b.components), b.payload, h.wide, h.narrow), b.rest))
  }

  /** psirp_data_serialize. */
  method SerializeData(p: Data, buf: array<byte>) returns (n: nat)
    requires |p.name.components| <= MAX_COMPONENTS
    modifies buf
    ensures n != 0 <==> Encodable(p.name.components) && |EncodeData(p)| <= buf.Length
    ensures n != 0 ==> n == |EncodeData(p)|
                       && buf[..] == Overlaid(old(buf[..]), 0, EncodeData(p))
  {
    ghost var was := buf[..];
    hide EncodeName, Overlaid, BigEndian;
    var h := Header(PKT_DATA, p.timestamp, p.freshnessMs);
    var ok := PutHeader(h, buf);
    if !ok { return 0; }
    ok := Put(BigEndian(|p.data|, 4), buf, 13);
    if !ok { return 0; }
    ghost var done := h.Bytes() + BigEndian(|p.data|, 4);
    OverlaidTwice(was, 0, h.Bytes(), BigEndian(|p.data|, 4));
    var pos;
    ok, pos := PutName(p.name.components, buf, 17);
    if !ok { return 0; }
    OverlaidTwice(was, 0, done, EncodeName(p.name.components));
    done := done + EncodeName(p.name.components);
    ok := Put(p.data, buf, pos);
    if !ok { return 0; }
    OverlaidTwice(was, 0, done, p.data);
    n := pos + |p.data|;
  }

  /** psirp_data_deserialize into a zeroed structure. */
  method DeserializeData(buf: seq<byte>) returns (r: Option<Data>)
    ensures r == match DecodeData(buf)
                 case None => None
                 case Some(d) => Some(d.packet)
  {
    hide DecodeComponents, HashText, GetHeader, Get32;
    if |buf| < 18 || buf[0] != PKT_DATA { return None; }
    var h := GetHeader(buf);
    var len := Get32(buf[13..17]);
    var count := buf[17];
    assert buf[17..][0] == count && buf[17..][1..] == buf[18..];
    if count > MAX_COMPONENTS { return None; }
    var ok, raw, text, pos := ReadComponents(buf, 18, count, ANY_LENGTH);
    if !ok { return None; }
    var hash := Fnv1aHash(text);
    if pos + len > |buf| { return None; }
    assert buf[pos..][..len] == buf[pos..pos + len];
    r := Some(Data(Name(CStrings(raw), hash, 0, false), buf[pos..pos + len], h.wide, h.narrow));
  }

  lemma {:induction false} DataRoundTrip(p: Data, t: seq<byte>)
    requires Sendable(p.name.components, 256) && |p.data| < 0x1_0000_0000
    ensures DecodeData(EncodeData(p) + t)
            == Some(Decoded(p.(name := WireName(p.name.components)), t))
    ensures Plain(p.name) && |TextOf(p.name.components)| < MAX_NAME
            ==> DecodeData(EncodeData(p) + t) == Some(Decoded(p, t))
  {
    var cs, h := p.name.components, Header(PKT_DATA, p.timestamp, p.freshnessMs);
    BodyRoundTrip(cs, p.data, t, ANY_LENGTH);
    Get32Decodes(|p.data|);
    if Plain(p.name) && |TextOf(cs)| < MAX_NAME { PlainNameSurvives(p.name); }
    hide DecodeBody, EncodeName, GetHeader, Get32, BigEndian, Plain, Hash, HashText;
    var len, body := BigEndian(|p.data|, 4), EncodeName(cs) + p.data + t;
    DataPieces(h.Bytes(), len, EncodeName(cs), p.data, t);
    HeaderRoundTrip(h, len + body);
  }

  lemma DataPieces(h: seq<byte>, len: seq<byte>, name: seq<byte>, data: seq<byte>, t: seq<byte>)
    requires |h| == 13 && |len| == 4
    ensures var s := h + len + name + data + t;
            s == h + (len + (name + data + t))
            && s[13..17] == len && s[17..] == name + data + t
  {
  }

  /** Type 1, the time stamp, the lifetime, the length of the payload, the name, the payload. */
  lemma DataLayout(p: Data)
    requires Encodable(p.name.components) && |p.data| < 0x1_0000_0000
    ensures var e, end := EncodeData(p), 17 + |EncodeName(p.name.components)|;
      |e| == end + |p.data| && e[0] == 1 && FieldAt(e, 1, p.timestamp, 8) && FieldAt(e, 9, p.freshnessMs, 4)
      && FieldAt(e, 13, |p.data|, 4) && e[17..end] == EncodeName(p.name.components) && e[end..] == p.data
  {
    hide FieldAt, EncodeName, BigEndian;
    var h, len, name := Header(PKT_DATA, p.timestamp, p.freshnessMs), BigEndian(|p.data|, 4), EncodeName(p.name.components);
    DataPieces(h.Bytes(), len, name, p.data, []);
    assert EncodeData(p) == EncodeData(p) + [] == h.Bytes() + (len + (name + p.data + []));
    HeaderLayout(h, len + (name + p.data + []));
    FieldPlaced(EncodeData(p), 13, |p.data|, 4);
    assert EncodeData(p)[17..] == name + p.data;
  }

  lemma {:induction false} DataPrefixFree(p: Data, q: Data, t: seq<byte>, u: seq<byte>)
    requires Sendable(p.name.components, 256) && |p.data| < 0x1_0000_0000
    requires Sendable(q.name.components, 256) && |q.data| < 0x1_0000_0000
    requires EncodeData(p) + t == EncodeData(q) + u
    ensures p.name.components == q.name.components && p.data == q.data
            && p.timestamp == q.timestamp && p.freshnessMs == q.freshnessMs && t == u
  {
    DataRoundTrip(p, t);
    DataRoundTrip(q, u);
    hide EncodeData, DecodeData, Hash, HashText;
    assert CStrings(p.name.components) == CStrings(q.name.components);
  }

  lemma {:induction false} DataReencodes(buf: seq<byte>)
    requires DecodeData(buf).Some?
    ensures var d := DecodeData(buf).value;
            Encodable(d.packet.name.components)
            && (EncodeData(d.packet) + d.rest == buf
                <==> NoByte(DecodeName(buf[17..], ANY_LENGTH).value.components, 0))
  {
    var b := DecodeBody(buf[17..], ANY_LENGTH, Get32(buf[13..17])).value;
    BodySound(buf[17..], ANY_LENGTH, Get32(buf[13..17]));
    HeaderSound(buf);
    var h := GetHeader(buf).Bytes() + buf[13..17];
    NameReencodes(h, b.components, b.payload, b.rest);
    hide DecodeName, EncodeName, GetHeader, Get32, BigEndian, CStrings, Hash, HashText;
    assert buf[13..] == buf[13..17] + buf[17..];
    Assoc(GetHeader(buf).Bytes(), buf[13..17], buf[17..]);
    Regroup(h, EncodeName(b.components), b.payload, b.rest);
  }

  // ----- compute request ------------------------------------------------------------

  function EncodeComputeReq(p: ComputeReq): seq<byte>
    requires Encodable(p.name.components) && |p.params| <= MAX_PARAMS
  {
    Header(PKT_COMPUTE_REQ, p.nonce, |p.params|).Bytes() + EncodeName(p.name.components) + p.params
  }

  /** The name's hash is left 0; only the components and the parameters come back. */
  function DecodeComputeReq(buf: seq<byte>): Option<Decoded<ComputeReq>> {
    if |buf| < 14 || buf[0] != PKT_COMPUTE_REQ then None
    else
      var h := GetHeader(buf);
      match DecodeBody(buf[13..], MAX_COMPONENT, h.narrow)
      case None => None
      case Some(b) =>
        if h.narrow > MAX_PARAMS then None
        else Some(Decoded(ComputeReq(Name(CStrings(b.components), 0, 0, false), b.payload, h.wide),
                          b.rest))
  }

  /** psirp_compute_req_serialize. */
  method SerializeComputeReq(p: ComputeReq, buf: array<byte>) returns (n: nat)
    requires |p.name.components| <= MAX_COMPONENTS && |p.params| <= MAX_PARAMS
    modifies buf
    ensures n != 0 <==> Encodable(p.name.components) && |EncodeComputeReq(p)| <= buf.Length
    ensures n != 0 ==> n == |EncodeComputeReq(p)|
                       && buf[..] == Overlaid(old(buf[..]), 0, EncodeComputeReq(p))
  {
    ghost var was := buf[..];
    hide EncodeName, Overlaid;
    var h := Header(PKT_COMPUTE_REQ, p.nonce, |p.params|);
    var ok := PutHeader(h, buf);
    if !ok { return 0; }
    var pos;
    ok, pos := PutName(p.name.components, buf, 13);
    if !ok { return 0; }
    OverlaidTwice(was, 0, h.Bytes(), EncodeName(p.name.components));
    ok := Put(p.params, buf, pos);
    if !ok { return 0; }
    OverlaidTwice(was, 0, h.Bytes() + EncodeName(p.name.components), p.params);
    n := pos + |p.params|;
  }

  /** psirp_compute_req_deserialize. */
  method DeserializeComputeReq(buf: seq<byte>) returns (r: Option<ComputeReq>)
    ensures r == match DecodeComputeReq(buf)
                 case None => None
                 case Some(d) => Some(d.packet)
  {
    hide DecodeComponents, HashText, GetHeader;
    if |buf| < 14 || buf[0] != PKT_COMPUTE_REQ { return None; }
    var h := GetHeader(buf);
    var count := buf[13];
    assert buf[13..][0] == count && buf[13..][1..] == buf[14..];
    if count > MAX_COMPONENTS { return None; }
    var ok, raw, text, pos := ReadComponents(buf, 14, count, MAX_COMPONENT);
    if !ok || pos + h.narrow > |buf| || h.narrow > MAX_PARAMS { return None; }
    assert buf[pos..][..h.narrow] == buf[pos..pos + h.narrow];
    r := Some(ComputeReq(Name(CStrings(raw), 0, 0, false), buf[pos..pos + h.narrow], h.wide));
  }

  lemma {:induction false} ComputeReqRoundTrip(p: ComputeReq, t: seq<byte>)
    requires Sendable(p.name.components, 64) && |p.params| <= MAX_PARAMS
    ensures DecodeComputeReq(EncodeComputeReq(p) + t)
            == Some(Decoded(p.(name := Name(p.name.components, 0, 0, false)), t))
  {
    var cs, h := p.name.components, Header(PKT_COMPUTE_REQ, p.nonce, |p.params|);
    BodyRoundTrip(cs, p.params, t, MAX_COMPONENT);
    hide DecodeBody, EncodeName, GetHeader;
    Regroup(h.Bytes(), EncodeName(cs), p.params, t);
    HeaderRoundTrip(h, EncodeName(cs) + p.params + t);
  }

  /** Type 5, the nonce, the length of the parameters, the name, the parameters. */
  lemma ComputeReqLayout(p: ComputeReq)
    requires Encodable(p.name.components) && |p.params| <= MAX_PARAMS
    ensures var e, end := EncodeComputeReq(p), 13 + |EncodeName(p.name.components)|;
      |e| == end + |p.params| && e[0] == 5 && FieldAt(e, 1, p.nonce, 8) && FieldAt(e, 9, |p.params|, 4)
      && e[13..end] == EncodeName(p.name.components) && e[end..] == p.params
  {
    hide FieldAt, EncodeName;
    var h, name := Header(PKT_COMPUTE_REQ, p.nonce, |p.params|), EncodeName(p.name.components);
    Assoc(h.Bytes(), name, p.params);
    HeaderLayout(h, name + p.params);
    assert EncodeComputeReq(p)[13..] == name + p.params;
  }

  lemma {:induction false} ComputeReqPrefixFree(p: ComputeReq, q: ComputeReq, t: seq<byte>, u: seq<byte>)
    requires Sendable(p.name.components, 64) && |p.params| <= MAX_PARAMS
    requires Sendable(q.name.components, 64) && |q.params| <= MAX_PARAMS
    requires EncodeComputeReq(p) + t == EncodeComputeReq(q) + u
    ensures p.name.components == q.name.components && p.params == q.params && p.nonce == q.nonce
            && t == u
  {
    ComputeReqRoundTrip(p, t);
    ComputeReqRoundTrip(q, u);
    hide EncodeComputeReq, DecodeComputeReq;
  }

  lemma {:induction false} ComputeReqReencodes(buf: seq<byte>)
    requires DecodeComputeReq(buf).Some?
    ensures var d := DecodeComputeReq(buf).value;
            Encodable(d.packet.name.components) && |d.packet.params| <= MAX_PARAMS
            && (EncodeComputeReq(d.packet) + d.rest == buf
                <==> NoByte(DecodeName(buf[13..], MAX_COMPONENT).value.components, 0))
  {
    var b := DecodeBody(buf[13..], MAX_COMPONENT, GetHeader(buf).narrow).value;
    BodySound(buf[13..], MAX_COMPONENT, GetHeader(buf).narrow);
    HeaderSound(buf);
    var h := GetHeader(buf).Bytes();
    NameReencodes(h, b.components, b.payload, b.rest);
    hide DecodeName, EncodeName, GetHeader, CStrings;
    Regroup(h, EncodeName(b.components), b.payload, b.rest);
  }

  // ----- compute response -----------------------------------------------------------

  /** The arrays of a response structure have fixed sizes. */
  predicate WellSized(p: ComputeResp) {
    |p.result| <= MAX_RESULT && |p.signature| == SIGN_SIZE && |p.pubkey| == KEY_SIZE
  }

  function ResponseHead(result: seq<byte>, signature: seq<byte>, pubkey: seq<byte>): seq<byte> {
    [PKT_COMPUTE_RESP] + BigEndian(|result|, 4) + result + signature + pubkey
  }

  function EncodeComputeResp(p: ComputeResp): seq<byte>
    requires Encodable(p.name.components)
  {
    ResponseHead(p.result, p.signature, p.pubkey) + EncodeName(p.name.components)
  }

  function DecodeComputeResp(buf: seq<byte>): Option<Decoded<ComputeResp>> {
    if |buf| < 10 || buf[0] != PKT_COMPUTE_RESP then None
    else
      var len := Get32(buf[1..5]);
      var sig, key, name := 5 + len, 5 + len + SIGN_SIZE, 5 + len + SIGN_SIZE + KEY_SIZE;
      if len > MAX_RESULT || name > |buf| then None
      else
        match DecodeName(buf[name..], MAX_COMPONENT)
        case None => None
        case Some(p) =>
          Some(Decoded(ComputeResp(Name(CStrings(p.components), 0, 0, false), buf[5..sig],
                                   buf[sig..key], buf[key..name]),
                       p.rest))
  }

  /** psirp_compute_resp_serialize. */
  method SerializeComputeResp(p: ComputeResp, buf: array<byte>) returns (n: nat)
    requires |p.name.components| <= MAX_COMPONENTS && WellSized(p)
    modifies buf
    ensures n != 0 <==> Encodable(p.name.components) && |EncodeComputeResp(p)| <= buf.Length
    ensures n != 0 ==> n == |EncodeComputeResp(p)|
                       && buf[..] == Overlaid(old(buf[..]), 0, EncodeComputeResp(p))
  {
    ghost var was := buf[..];
    hide EncodeName, Overlaid, BigEndian;
    var len := BigEndian(|p.result|, 4);
    ghost var done: seq<byte> := [PKT_COMPUTE_RESP];
    var ok := Put([PKT_COMPUTE_RESP], buf, 0);
    if !ok { return 0; }
    ok := Put(len, buf, 1);
    if !ok { return 0; }
    OverlaidTwice(was, 0, done, len);
    done := done + len;
    ok := Put(p.result, buf, 5);
    if !ok { return 0; }
    OverlaidTwice(was, 0, done, p.result);
    done := done + p.result;
    ok := Put(p.signature, buf, 5 + |p.result|);
    if !ok { return 0; }
    OverlaidTwice(was, 0, done, p.signature);
    done := done + p.signature;
    ok := Put(p.pubkey, buf, 5 + |p.result| + SIGN_SIZE);
    if !ok { return 0; }
    OverlaidTwice(was, 0, done, p.pubkey);
    done := done + p.pubkey;
    ok, n := PutName(p.name.components, buf, 5 + |p.result| + SIGN_SIZE + KEY_SIZE);
    if !ok { return 0; }
    OverlaidTwice(was, 0, done, EncodeName(p.name.components));
  }

  /** psirp_compute_resp_deserialize. */
  method DeserializeComputeResp(buf: seq<byte>) returns (r: Option<ComputeResp>)
    ensures r == match DecodeComputeResp(buf)
                 case None => None
                 case Some(d) => Some(d.packet)
  {
    hide DecodeComponents, HashText, Get32;
    if |buf| < 10 || buf[0] != PKT_COMPUTE_RESP { return None; }
    var len := Get32(buf[1..5]);
    var sig := 5 + len;
    if sig > |buf| || len > MAX_RESULT { return None; }
    var key := sig + SIGN_SIZE;
    if key > |buf| { return None; }
    var name := key + KEY_SIZE;
    if name > |buf| || name + 1 > |buf| { return None; }
    var count := buf[name];
    assert buf[name..][0] == count && buf[name..][1..] == buf[name + 1..];
    if count > MAX_COMPONENTS { return None; }
    var ok, raw, text, pos := ReadComponents(buf, name + 1, count, MAX_COMPONENT);
    if !ok { return None; }
    r := Some(ComputeResp(Name(CStrings(raw), 0, 0, false), buf[5..sig], buf[sig..key], buf[key..name]));
  }

  lemma ResponseSlices(result: seq<byte>, signature: seq<byte>, pubkey: seq<byte>, r: seq<byte>)
    requires |signature| == SIGN_SIZE && |pubkey| == KEY_SIZE
    ensures var s, sig := ResponseHead(result, signature, pubkey) + r, 5 + |result|;
            |s| == sig + SIGN_SIZE + KEY_SIZE + |r| && s[0] == PKT_COMPUTE_RESP
            && s[1..5] == BigEndian(|result|, 4) && s[5..sig] == result
            && s[sig..sig + SIGN_SIZE] == signature
            && s[sig + SIGN_SIZE..sig + SIGN_SIZE + KEY_SIZE] == pubkey
            && s[sig + SIGN_SIZE + KEY_SIZE..] == r
  {
    hide BigEndian;
  }

  lemma {:induction false} ComputeRespRoundTrip(p: ComputeResp, t: seq<byte>)
    requires Sendable(p.name.components, 64) && WellSized(p)
    ensures DecodeComputeResp(EncodeComputeResp(p) + t)
            == Some(Decoded(p.(name := Name(p.name.components, 0, 0, false)), t))
  {
    var cs := p.name.components;
    NameRoundTrip(cs, t, MAX_COMPONENT);
    Get32Decodes(|p.result|);
    hide DecodeName, EncodeName, Get32, BigEndian, ResponseHead;
    Assoc(ResponseHead(p.result, p.signature, p.pubkey), EncodeName(cs), t);
    ResponseSlices(p.result, p.signature, p.pubkey, EncodeName(cs) + t);
  }

  /** Type 6, the length of the result, the result, a 64-byte signature, a 32-byte key, the name. */
  lemma ComputeRespLayout(p: ComputeResp)
    requires Encodable(p.name.components) && WellSized(p)
    ensures var e, sig := EncodeComputeResp(p), 5 + |p.result|;
      |e| >= sig + 96 && e[0] == 6 && FieldAt(e, 1, |p.result|, 4) && e[5..sig] == p.result
      && e[sig..sig + 64] == p.signature && e[sig + 64..sig + 96] == p.pubkey
      && e[sig + 96..] == EncodeName(p.name.components)
  {
    hide FieldAt, EncodeName, BigEndian, ResponseHead;
    ResponseSlices(p.result, p.signature, p.pubkey, EncodeName(p.name.components));
    FieldPlaced(EncodeComputeResp(p), 1, |p.result|, 4);
  }

  lemma {:induction false} ComputeRespPrefixFree(p: ComputeResp, q: ComputeResp, t: seq<byte>, u: seq<byte>)
    requires Sendable(p.name.components, 64) && WellSized(p)
    requires Sendable(q.name.components, 64) && WellSized(q)
    requires EncodeComputeResp(p) + t == EncodeComputeResp(q) + u
    ensures p.name.components == q.name.components && p.result == q.result
            && p.signature == q.signature && p.pubkey == q.pubkey && t == u
  {
    ComputeRespRoundTrip(p, t);
    ComputeRespRoundTrip(q, u);
    hide EncodeComputeResp, DecodeComputeResp;
  }

  lemma ResponseHeadSound(buf: seq<byte>, len: nat)
    requires 5 + len + SIGN_SIZE + KEY_SIZE <= |buf|
    requires buf[0] == PKT_COMPUTE_RESP && buf[1..5] == BigEndian(len, 4)
    ensures var sig, key, name := 5 + len, 5 + len + SIGN_SIZE, 5 + len + SIGN_SIZE + KEY_SIZE;
            buf == ResponseHead(buf[5..sig], buf[sig..key], buf[key..name]) + buf[name..]
  {
    hide BigEndian;
  }

  lemma {:induction false} ComputeRespReencodes(buf: seq<byte>)
    requires DecodeComputeResp(buf).Some?
    ensures var d := DecodeComputeResp(buf).value;
            var name := 5 + |d.packet.result| + SIGN_SIZE + KEY_SIZE;
            Encodable(d.packet.name.components) && name <= |buf| && WellSized(d.packet)
            && (EncodeComputeResp(d.packet) + d.rest == buf
                <==> NoByte(DecodeName(buf[name..], MAX_COMPONENT).value.components, 0))
  {
    var len := Get32(buf[1..5]);
    var sig, key, name := 5 + len, 5 + len + SIGN_SIZE, 5 + len + SIGN_SIZE + KEY_SIZE;
    var p := DecodeName(buf[name..], MAX_COMPONENT).value;
    NameSound(buf[name..], MAX_COMPONENT);
    var head := ResponseHead(buf[5..sig], buf[sig..key], buf[key..name]);
    NameReencodes(head, p.components, [], p.rest);
    hide DecodeName, EncodeName, Get32, BigEndian, CStrings;
    ResponseHeadSound(buf, len);
    Assoc(head, EncodeName(p.components), p.rest);
    assert head + EncodeName(p.components) + [] == head + EncodeName(p.components);
    assert head + EncodeName(CStrings(p.components)) + [] == head + EncodeName(CStrings(p.components));
  }
}
