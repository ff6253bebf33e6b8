/** Beacons (mesh_send_beacon, mesh_process_beacon): the text a node announces its prefixes with,
    and the routes a receiver makes of it. */
module Beacon {
  import opened Bytes
  import opened Names
  import opened Fib
  import opened MeshTables
  import opened Mesh

  const HEADER: seq<byte> := [77, 69, 83, 72, 95, 66, 69, 65, 67, 79, 78, 124]  // "MESH_BEACON|"
  const BEACON_BUFFER: nat := 4096
  const ROUTE_LIFETIME_MS: u32 := 3 * BEACON_INTERVAL_MS

  // ----- the text -------------------------------------------------------------------

  /** The name part, from prefix `i` on: the first component of the first non-empty prefix, with
      a '/' for each prefix stepped over. */
  function NamePart(ps: seq<Name>, i: nat): seq<byte>
    decreases |ps| - i
  {
    if i >= |ps| then []
    else (if i > 0 then [SLASH] else [])
         + if ps[i].components != [] then ps[i].components[0] else NamePart(ps, i + 1)
  }

  /** A prefix without its leading slash. */
  function PrefixText(p: Name): seq<byte> { Join(p.components, SLASH) }

  function PrefixTexts(ps: seq<Name>): (r: seq<seq<byte>>)
    ensures |r| == |ps| && forall i :: 0 <= i < |ps| ==> r[i] == PrefixText(ps[i])
  {
    seq(|ps|, i requires 0 <= i < |ps| => PrefixText(ps[i]))
  }

  function BeaconText(ps: seq<Name>): seq<byte> {
    HEADER + NamePart(ps, 0) + [BAR] + Join(PrefixTexts(ps), SEMICOLON)
  }

  // ----- processing -----------------------------------------------------------------

  /** One announced prefix: noted at the peer, and a route to it. psirp_name_init's failure is
      not looked at. */
  function AddPrefix(t: Tables, idx: nat, field: seq<byte>, now: u64): (r: Tables)
    requires idx < |t.peers|
    ensures |r.peers| == |t.peers|
  {
    var text := Take(field, 255);
    var p := t.peers[idx];
    AddRow(t.(peers := t.peers[idx := p.(prefixes := p.prefixes + [ParsedName(text)])]),
           InitName(text).name, idx, ROUTE_LIFETIME_MS, now)
  }

  function AddPrefixes(t: Tables, idx: nat, fields: seq<seq<byte>>, now: u64): (r: Tables)
    requires idx < |t.peers|
    ensures |r.peers| == |t.peers|
    decreases |fields|
  {
    if fields == [] || |t.peers[idx].prefixes| >= MAX_PREFIXES then t
    else if fields[0] == [] then AddPrefixes(t, idx, fields[1..], now)
    else AddPrefixes(AddPrefix(t, idx, fields[0], now), idx, fields[1..], now)
  }

  /** The tables after the sender is added and before its prefixes are read. */
  function Greeted(t: Tables, name: seq<byte>, from: Peer, now: u64): Tables
    requires |t.peers| < MAX_MESH_PEERS
  {
    var idx := FindPeer(t.peers, name);
    var seen := Seen(AddPeer(t, name, from, now), idx, now);
    seen.(peers := seen.peers[idx := seen.peers[idx].(prefixes := [])])
  }

  datatype Processed = Processed(ok: bool, tables: Tables)

  /** mesh_process_beacon; what follows the header is read as a C string. */
  function ProcessBeacon(t: Tables, data: seq<byte>, from: Peer, now: u64): Processed {
    if |data| < 12 || data[..12] != HEADER then Processed(false, t)
    else
      var str := CString(data[12..]);
      var sep := IndexOf(str, BAR);
      if sep == |str| || |t.peers| >= MAX_MESH_PEERS then Processed(false, t)
      else
        var name := Take(str[..sep], 255);
        Processed(true, AddPrefixes(Greeted(t, name, from, now), FindPeer(t.peers, name),
                                    Fields(str[sep + 1..], SEMICOLON), now))
  }

  // ----- round trip -----------------------------------------------------------------

  /** What the round trip asks of the announced prefixes. */
  ghost predicate Announceable(ps: seq<Name>) {
    && 1 <= |ps| <= MAX_PREFIXES
    && (forall i :: 0 <= i < |ps| ==> Plain(ps[i]) && |PrefixText(ps[i])| <= 255)
    && (forall i :: 0 <= i < |ps| ==> NoByte(ps[i].components, BAR) && NoByte(ps[i].components, SEMICOLON))
  }

  /** Each prefix once, in order of first appearance. */
  function Dedup(ps: seq<Name>): seq<Name> {
    if ps == [] then []
    else
      var front := Dedup(ps[..|ps| - 1]);
      if ps[|ps| - 1] in front then front else front + [ps[|ps| - 1]]
  }

  function RowsTo(ps: seq<Name>, peer: nat, now: u64): (r: seq<FibRow>)
    ensures |r| == |ps|
    ensures forall i :: 0 <= i < |ps| ==> r[i] == FibRow(ps[i], peer, ROUTE_LIFETIME_MS, now)
  {
    seq(|ps|, i requires 0 <= i < |ps| => FibRow(ps[i], peer, ROUTE_LIFETIME_MS, now))
  }

  lemma {:induction false} JoinClean(cs: seq<seq<byte>>, sep: byte, b: byte)
    requires NoByte(cs, b) && sep != b
    ensures b !in Join(cs, sep)
  {
    if |cs| > 1 { JoinClean(cs[1..], sep, b); }
  }

  lemma TextsSeparable(ps: seq<Name>)
    requires Announceable(ps)
    ensures Separable(PrefixTexts(ps), SEMICOLON)
  {
    forall i | 0 <= i < |ps| ensures PrefixText(ps[i]) != [] && SEMICOLON !in PrefixText(ps[i]) {
      JoinClean(ps[i].components, SLASH, SEMICOLON);
      JoinStartsClean(ps[i].components);
    }
  }

  /** Every recorded peer prints as nothing or with a leading slash, so a sender whose non-empty
      name has none is never recognised. */
  lemma NoSlashIsNew(peers: seq<MeshPeer>, name: seq<byte>)
    requires name != [] && name[0] != SLASH
    ensures FindPeer(peers, name) == |peers|
  {
    forall j | 0 <= j < |peers| ensures PeerText(peers[j]) != name {
      if peers[j].name != [] { assert PeerText(peers[j])[0] == SLASH; }
    }
  }

  /** That holds of every name announced for a canonical prefix. */
  lemma NameIsNew(peers: seq<MeshPeer>, ps: seq<Name>)
    requires Announceable(ps)
    ensures var name := NamePart(ps, 0);
            name == ps[0].components[0] && 0 < |name| < MAX_COMPONENT && BAR !in name && 0 !in name
            && FindPeer(peers, name) == |peers|
  {
    var c := ps[0].components[0];
    assert CanonicalComponent(c) && c[0] in c;
    NoSlashIsNew(peers, c);
  }

  lemma PrefixParses(p: Name)
    requires Plain(p) && |PrefixText(p)| <= 255
    ensures Take(PrefixText(p), 255) == PrefixText(p) && InitName(PrefixText(p)).name == p
  {
    InitCanonical(p.components);
  }

  lemma DedupSnoc(ps: seq<Name>, p: Name)
    ensures Dedup(ps + [p]) == if p in Dedup(ps) then Dedup(ps) else Dedup(ps) + [p]
  {
    assert (ps + [p])[..|ps|] == ps;
  }

  lemma {:induction false} DedupMembers(ps: seq<Name>, p: Name)
    ensures p in Dedup(ps) <==> p in ps
    ensures |Dedup(ps)| <= |ps|
  {
    if ps != [] {
      var front := ps[..|ps| - 1];
      DedupMembers(front, p);
      assert ps == front + [ps[|ps| - 1]];
    }
  }

  lemma SamePlain(a: Name, b: Name)
    requires Plain(a) && Plain(b) && NameEqual(a, b)
    ensures a == b
  {
  }

  /** Among rows of other peers, a prefix is found exactly when it was announced before. */
  lemma RowFound(base: seq<FibRow>, seen: seq<Name>, p: Name, idx: nat, now: u64)
    requires InRange(base, idx) && Plain(p) && forall i :: 0 <= i < |seen| ==> Plain(seen[i])
    ensures var fib := base + RowsTo(seen, idx, now);
            var k := FindRow(fib, p, idx);
            (k < |fib| <==> p in seen)
            && (k < |fib| ==> fib[k].(lifetimeMs := ROUTE_LIFETIME_MS, createdAt := now) == fib[k])
  {
    hide Plain, FindRow;
    var fib := base + RowsTo(seen, idx, now);
    var k := FindRow(fib, p, idx);
    if p in seen {
      var i :| 0 <= i < |seen| && seen[i] == p;
      assert fib[|base| + i] == FibRow(p, idx, ROUTE_LIFETIME_MS, now);
    }
    if k < |fib| {
      assert k >= |base| && fib[k] == RowsTo(seen, idx, now)[k - |base|];
      SamePlain(seen[k - |base|], p);
    }
  }

  /** The state of the receiving loop once the prefixes `seen` were processed. */
  ghost predicate Announced(t: Tables, base: seq<FibRow>, seen: seq<Name>, idx: nat, now: u64) {
    && idx < |t.peers| && InRange(base, idx)
    && (forall i :: 0 <= i < |seen| ==> Plain(seen[i]))
    && t.fib == base + RowsTo(Dedup(seen), idx, now)
    && |t.peers[idx].prefixes| == |seen|
  }

  /** Apart from its list of prefixes, peer `idx` and all other peers are as before. */
  ghost predicate OnlyPrefixesOf(t: Tables, r: Tables, idx: nat) {
    && |r.peers| == |t.peers| && idx < |t.peers|
    && (forall i :: 0 <= i < |t.peers| && i != idx ==> r.peers[i] == t.peers[i])
    && r.peers[idx].addr == t.peers[idx].addr && r.peers[idx].name == t.peers[idx].name
  }

  lemma OnlyPrefixesTransitive(t: Tables, r: Tables, u: Tables, idx: nat)
    requires OnlyPrefixesOf(t, r, idx) && OnlyPrefixesOf(r, u, idx)
    ensures OnlyPrefixesOf(t, u, idx)
  {
  }

  lemma {:induction false} AddPrefixStep(t: Tables, base: seq<FibRow>, seen: seq<Name>, idx: nat, now: u64, p: Name)
    requires Announced(t, base, seen, idx, now) && Plain(p) && |PrefixText(p)| <= 255
    requires |base| + |seen| < MAX_FIB
    ensures var r := AddPrefix(t, idx, PrefixText(p), now);
            Announced(r, base, seen + [p], idx, now)
            && OnlyPrefixesOf(t, r, idx)
  {
    hide Plain, Dedup, FindRow, ParsedName, InitName, PrefixText, Take, AddPrefix, RowsTo;
    var d := Dedup(seen);
    PrefixParses(p);
    DedupSnoc(seen, p);
    DedupMembers(seen, p);
    DedupPlain(seen);
    RowFound(base, d, p, idx, now);
    AddPrefixUnfolds(t, idx, PrefixText(p), now, p);
    RowsSnoc(base, d, p, idx, now);
  }

  lemma DedupPlain(ps: seq<Name>)
    requires forall i :: 0 <= i < |ps| ==> Plain(ps[i])
    ensures forall i :: 0 <= i < |Dedup(ps)| ==> Plain(Dedup(ps)[i])
  {
    hide Plain;
    forall i | 0 <= i < |Dedup(ps)| ensures Plain(Dedup(ps)[i]) {
      DedupMembers(ps, Dedup(ps)[i]);
    }
  }

  lemma RowsSnoc(base: seq<FibRow>, d: seq<Name>, p: Name, idx: nat, now: u64)
    ensures base + RowsTo(d + [p], idx, now)
            == base + RowsTo(d, idx, now) + [FibRow(p, idx, ROUTE_LIFETIME_MS, now)]
  {
  }

  lemma AddPrefixUnfolds(t: Tables, idx: nat, field: seq<byte>, now: u64, p: Name)
    requires idx < |t.peers| && |t.fib| < MAX_FIB && Take(field, 255) == field && InitName(field).name == p
    ensures var r, k := AddPrefix(t, idx, field, now), FindRow(t.fib, p, idx);
            r.peers == t.peers[idx := t.peers[idx].(prefixes := t.peers[idx].prefixes + [ParsedName(field)])]
            && r.fib == if k < |t.fib|
                        then t.fib[k := t.fib[k].(lifetimeMs := ROUTE_LIFETIME_MS, createdAt := now)]
                        else t.fib + [FibRow(p, idx, ROUTE_LIFETIME_MS, now)]
  {
    hide FindRow, ParsedName, InitName;
  }

  ghost predicate Short(ps: seq<Name>) {
    forall i :: 0 <= i < |ps| ==> Plain(ps[i]) && 0 < |PrefixText(ps[i])| <= 255
  }

  lemma ShortTail(ps: seq<Name>)
    requires Short(ps) && ps != []
    ensures Plain(ps[0]) && 0 < |PrefixText(ps[0])| <= 255 && Short(ps[1..])
    ensures PrefixTexts(ps) != [] && PrefixTexts(ps)[0] == PrefixText(ps[0])
    ensures PrefixTexts(ps)[1..] == PrefixTexts(ps[1..])
  {
    hide Plain, PrefixText;
  }

  lemma {:induction false} AddPrefixesAll(t: Tables, base: seq<FibRow>, seen: seq<Name>, idx: nat, now: u64, ps: seq<Name>)
    requires Announced(t, base, seen, idx, now) && |seen| + |ps| <= MAX_PREFIXES
    requires |base| + |seen| + |ps| <= MAX_FIB && Short(ps) && idx < |t.peers|
    ensures var r := AddPrefixes(t, idx, PrefixTexts(ps), now);
            Announced(r, base, seen + ps, idx, now) && OnlyPrefixesOf(t, r, idx)
    decreases |ps|
  {
    hide Short, Plain, PrefixText, PrefixTexts, AddPrefix, Announced;
    if ps == [] {
      assert seen + ps == seen;
      assert PrefixTexts(ps) == [];
    } else {
      hide AddPrefixes, OnlyPrefixesOf;
      var p := ps[0];
      ShortTail(ps);
      AddPrefixStep(t, base, seen, idx, now, p);
      SeenCount(t, base, seen, idx, now);
      AddPrefixesUnfold(t, idx, PrefixTexts(ps), now);
      var next := AddPrefix(t, idx, PrefixText(p), now);
      AddPrefixesAll(next, base, seen + [p], idx, now, ps[1..]);
      OnlyPrefixesTransitive(t, next, AddPrefixes(next, idx, PrefixTexts(ps[1..]), now), idx);
      Assoc(seen, [p], ps[1..]);
      assert [p] + ps[1..] == ps;
    }
  }

  lemma AddPrefixesUnfold(t: Tables, idx: nat, fields: seq<seq<byte>>, now: u64)
    requires idx < |t.peers| && fields != [] && fields[0] != [] && |t.peers[idx].prefixes| < MAX_PREFIXES
    ensures AddPrefixes(t, idx, fields, now) == AddPrefixes(AddPrefix(t, idx, fields[0], now), idx, fields[1..], now)
  {
    hide AddPrefix;
  }

  lemma SeenCount(t: Tables, base: seq<FibRow>, seen: seq<Name>, idx: nat, now: u64)
    requires Announced(t, base, seen, idx, now)
    ensures |t.peers[idx].prefixes| == |seen|
  {
  }

  /** Where the pieces of a beacon lie. */
  lemma BeaconLayout(ps: seq<Name>)
    requires Announceable(ps)
    ensures var data, name := BeaconText(ps), NamePart(ps, 0);
            |data| >= 12 && data[..12] == HEADER
            && IndexOf(data[12..], BAR) == |name| < |data[12..]|
            && data[12..][..|name|] == name
            && data[12..][|name| + 1..] == Join(PrefixTexts(ps), SEMICOLON)
            && CString(data[12..]) == data[12..]
  {
    NameIsNew([], ps);
    ListHasNoNul(ps);
    hide NamePart, Announceable, PrefixTexts, Join;
    MessageLayout(HEADER, NamePart(ps, 0), Join(PrefixTexts(ps), SEMICOLON));
  }

  lemma ListHasNoNul(ps: seq<Name>)
    requires Announceable(ps)
    ensures 0 !in Join(PrefixTexts(ps), SEMICOLON)
  {
    forall i | 0 <= i < |ps| ensures 0 !in PrefixText(ps[i]) {
      assert Plain(ps[i]) && NoByte(ps[i].components, 0);
      JoinClean(ps[i].components, SLASH, 0);
    }
    JoinClean(PrefixTexts(ps), SEMICOLON, 0);
  }

  lemma MessageLayout(header: seq<byte>, name: seq<byte>, list: seq<byte>)
    requires |header| == 12 && BAR !in name && 0 !in name && 0 !in list
    ensures var data := header + name + [BAR] + list;
            data[..12] == header && IndexOf(data[12..], BAR) == |name|
            && data[12..][..|name|] == name && data[12..][|name| + 1..] == list && CString(data[12..]) == data[12..]
  {
    var data := header + name + [BAR] + list;
    assert data[12..] == name + [BAR] + list;
    assert data[12..][..|name|] == name;
    IndexOfUnique(data[12..], BAR, |name|);
  }

  /** A beacon built from announceable prefixes, processed by a node with room, appends one route
      per distinct prefix, in order of first appearance, to a peer newly added for the sender, and
      leaves all earlier peers and routes as they were. */
  lemma {:induction false} BeaconRoundTrip(t: Tables, ps: seq<Name>, from: Peer, now: u64)
    requires Consistent(t) && Announceable(ps)
    requires |t.peers| < MAX_MESH_PEERS && |t.fib| + |ps| <= MAX_FIB
    ensures var r := ProcessBeacon(t, BeaconText(ps), from, now);
            r.ok && |r.tables.peers| == |t.peers| + 1 && r.tables.peers[..|t.peers|] == t.peers
            && r.tables.peers[|t.peers|].addr == from
            && r.tables.peers[|t.peers|].name == [ps[0].components[0]]
            && r.tables.fib == t.fib + RowsTo(Dedup(ps), |t.peers|, now)
            && Consistent(r.tables)
  {
    hide ProcessBeacon, BeaconText, FindPeer, NamePart, ParsedName, PrefixTexts, Plain, PrefixText, AddPrefixes,
         Announceable, Consistent, Dedup, RowsTo, Greeted, Announced, Short;
    ProcessBeaconConsistent(t, BeaconText(ps), from, now);
    var name, idx := NamePart(ps, 0), |t.peers|;
    CountPrefixes(ps);
    BeaconParsed(t, ps, from, now);
    NameIsNew(t.peers, ps);
    SenderName(name, ps);
    AnnounceableShort(ps);
    GreetedReady(t, name, from, now);
    var ready := Greeted(t, name, from, now);
    AddPrefixesAll(ready, t.fib, [], idx, now, ps);
    assert [] + ps == ps;
    AnnouncedRows(AddPrefixes(ready, idx, PrefixTexts(ps), now), t.fib, ps, idx, now);
  }

  lemma AnnounceableShort(ps: seq<Name>)
    requires Announceable(ps)
    ensures Short(ps)
  {
    hide Plain, PrefixText;
    forall i | 0 <= i < |ps| ensures PrefixText(ps[i]) != [] {
      PlainPrefixText(ps[i]);
    }
  }

  lemma PlainPrefixText(p: Name)
    requires Plain(p)
    ensures PrefixText(p) != []
  {
    JoinStartsClean(p.components);
  }

  lemma CountPrefixes(ps: seq<Name>)
    requires Announceable(ps)
    ensures 1 <= |ps| <= MAX_PREFIXES
  {
  }

  /** The receiver splits a beacon into the name and the prefix texts it was built from. */
  lemma BeaconParsed(t: Tables, ps: seq<Name>, from: Peer, now: u64)
    requires Announceable(ps) && |t.peers| < MAX_MESH_PEERS
    ensures FindPeer(t.peers, NamePart(ps, 0)) == |t.peers|
    ensures |Greeted(t, NamePart(ps, 0), from, now).peers| == |t.peers| + 1
    ensures ProcessBeacon(t, BeaconText(ps), from, now)
            == Processed(true, AddPrefixes(Greeted(t, NamePart(ps, 0), from, now), |t.peers|, PrefixTexts(ps), now))
  {
    BeaconLayout(ps);
    NameIsNew(t.peers, ps);
    TextsSeparable(ps);
    hide BeaconText, Announceable, PrefixTexts, Join, NamePart, FindPeer, ParsedName;
    FieldsOfJoin(PrefixTexts(ps), SEMICOLON);
    assert |Greeted(t, NamePart(ps, 0), from, now).peers| == |t.peers| + 1;
    hide Fields, Separable, IndexOf, ProcessBeacon, AddPrefixes, Greeted;
    ProcessUnfolds(t, BeaconText(ps), from, now, NamePart(ps, 0), PrefixTexts(ps));
  }

  lemma ProcessUnfolds(t: Tables, data: seq<byte>, from: Peer, now: u64, name: seq<byte>, fields: seq<seq<byte>>)
    requires |data| >= 12 && data[..12] == HEADER && |t.peers| < MAX_MESH_PEERS && CString(data[12..]) == data[12..]
    requires IndexOf(data[12..], BAR) == |name| < |data[12..]| && data[12..][..|name|] == name && |name| <= 255
    requires Fields(data[12..][|name| + 1..], SEMICOLON) == fields
    ensures ProcessBeacon(t, data, from, now)
            == Processed(true, AddPrefixes(Greeted(t, name, from, now), FindPeer(t.peers, name), fields, now))
  {
    hide Fields, IndexOf, FindPeer, AddPrefixes, ParsedName, CString;
    assert Take(name, 255) == name;
  }

  lemma GreetedReady(t: Tables, name: seq<byte>, from: Peer, now: u64)
    requires Consistent(t) && |t.peers| < MAX_MESH_PEERS && FindPeer(t.peers, name) == |t.peers|
    ensures var r, idx := Greeted(t, name, from, now), |t.peers|;
            |r.peers| == idx + 1 && r.peers[..idx] == t.peers
            && r.peers[idx].addr == from && r.peers[idx].name == ParsedName(name)
            && Announced(r, t.fib, [], idx, now)
  {
    hide ParsedName, DistinctPairs, FindPeer;
    assert t.fib + RowsTo(Dedup([]), |t.peers|, now) == t.fib;
  }

  lemma AnnouncedRows(t: Tables, base: seq<FibRow>, seen: seq<Name>, idx: nat, now: u64)
    requires Announced(t, base, seen, idx, now)
    ensures t.fib == base + RowsTo(Dedup(seen), idx, now)
  {
  }

  lemma SenderName(name: seq<byte>, ps: seq<Name>)
    requires Announceable(ps) && name == ps[0].components[0]
    ensures ParsedName(name) == [name]
  {
    assert CanonicalComponent(name);
    assert Body(name) == name;
    FieldsOfJoin([name], SLASH);
    assert Join([name], SLASH) == name;
  }

  // ----- every beacon ---------------------------------------------------------------

  lemma {:induction false} AddPrefixesConsistent(t: Tables, idx: nat, fields: seq<seq<byte>>, now: u64)
    requires Consistent(t) && idx < |t.peers|
    ensures Consistent(AddPrefixes(t, idx, fields, now))
    decreases |fields|
  {
    if fields != [] && |t.peers[idx].prefixes| < MAX_PREFIXES {
      if fields[0] == [] {
        AddPrefixesConsistent(t, idx, fields[1..], now);
      } else {
        AddPrefixConsistent(t, idx, fields[0], now);
        AddPrefixesConsistent(AddPrefix(t, idx, fields[0], now), idx, fields[1..], now);
      }
    }
  }

  lemma AddPrefixConsistent(t: Tables, idx: nat, field: seq<byte>, now: u64)
    requires Consistent(t) && idx < |t.peers|
    ensures Consistent(AddPrefix(t, idx, field, now))
  {
    hide InitName, ParsedName, AddRow, DistinctPairs;
    var text, p := Take(field, 255), t.peers[idx];
    var noted := t.(peers := t.peers[idx := p.(prefixes := p.prefixes + [ParsedName(text)])]);
    AddRowConsistent(noted, InitName(text).name, idx, ROUTE_LIFETIME_MS, now);
  }

  lemma GreetedConsistent(t: Tables, name: seq<byte>, from: Peer, now: u64)
    requires Consistent(t) && |t.peers| < MAX_MESH_PEERS
    ensures Consistent(Greeted(t, name, from, now)) && FindPeer(t.peers, name) < |Greeted(t, name, from, now).peers|
  {
    hide DistinctPairs, FindPeer, ParsedName;
  }

  /** Processing any datagram as a beacon, malformed ones included, keeps the tables consistent. */
  lemma ProcessBeaconConsistent(t: Tables, data: seq<byte>, from: Peer, now: u64)
    requires Consistent(t)
    ensures Consistent(ProcessBeacon(t, data, from, now).tables)
  {
    hide Consistent, AddPrefixes, Greeted, Fields, IndexOf, CString, FindPeer;
    if |data| >= 12 && |t.peers| < MAX_MESH_PEERS {
      var str := CString(data[12..]);
      var sep := IndexOf(str, BAR);
      if sep < |str| {
        var name := Take(str[..sep], 255);
        GreetedConsistent(t, name, from, now);
        AddPrefixesConsistent(Greeted(t, name, from, now), FindPeer(t.peers, name),
                              Fields(str[sep + 1..], SEMICOLON), now);
      }
    }
  }

  datatype Event = Does(op: TableOp) | Hears(data: seq<byte>, from: Peer)

  function After(events: seq<(Event, u64)>): Tables {
    if events == [] then Tables([], [])
    else
      var t, e, now := After(events[..|events| - 1]), events[|events| - 1].0, events[|events| - 1].1;
      match e
      case Does(op) => Apply(t, op, now)
      case Hears(data, from) => ProcessBeacon(t, data, from, now).tables
  }

  /** After any sequence of table operations and received beacons, every row leads to a peer in the
      table and no (prefix, peer) pair occurs twice. */
  lemma {:induction false} EventsKeepConsistent(events: seq<(Event, u64)>)
    ensures Consistent(After(events))
  {
    if events != [] {
      var t, e, now := After(events[..|events| - 1]), events[|events| - 1].0, events[|events| - 1].1;
      EventsKeepConsistent(events[..|events| - 1]);
      hide Consistent, Apply, ProcessBeacon;
      match e {
        case Does(op) => ApplyConsistent(t, op, now);
        case Hears(data, from) => ProcessBeaconConsistent(t, data, from, now);
      }
    }
  }

  // ----- recognising a sender -------------------------------------------------------

  /** A name whose pieces all fit: at most 16, each under 64 bytes. */
  ghost predicate Storable(name: seq<byte>) {
    var fields := Fields(Body(name), SLASH);
    |name| <= 255 && |fields| <= MAX_COMPONENTS && forall i :: 0 <= i < |fields| ==> |fields[i]| < MAX_COMPONENT
  }

  lemma ParsedWhole(name: seq<byte>)
    requires Storable(name)
    ensures ParsedName(name) == Fields(Body(name), SLASH)
  {
    hide Fields;
  }

  lemma NoFields(s: seq<byte>)
    ensures Fields(s, SLASH) == [] <==> s == []
  {
  }

  /** A new peer prints as the name it was added under if and only if that is empty, or begins with a
      slash and does not end with one. */
  lemma PrintsAsNamed(p: MeshPeer, name: seq<byte>)
    requires Storable(name) && p.name == ParsedName(name)
    ensures PeerText(p) == name <==> name == [] || (name[0] == SLASH && name[|name| - 1] != SLASH)
  {
    hide Fields, Join, Storable, ParsedName, PeerText;
    ParsedWhole(name);
    NoFields(Body(name));
    StorableShort(name);
    PeerTextIs(p);
    if name != [] {
      if name[0] == SLASH {
        JoinFields(Body(name), SLASH);
        TextOfBody(name, Join(p.name, SLASH));
      } else {
        assert Body(name) == name;
      }
    }
  }

  lemma StorableShort(name: seq<byte>)
    requires Storable(name)
    ensures |name| <= 255
  {
  }

  lemma PeerTextIs(p: MeshPeer)
    ensures PeerText(p) == if p.name == [] then [] else Take([SLASH] + Join(p.name, SLASH), 255)
    ensures p.name != [] ==> PeerText(p) != [] && PeerText(p)[0] == SLASH
  {
    hide Join;
  }

  lemma TextOfBody(name: seq<byte>, joined: seq<byte>)
    requires name != [] && name[0] == SLASH && |name| <= 255
    requires var b := Body(name); joined == if b != [] && b[|b| - 1] == SLASH then b[..|b| - 1] else b
    ensures Body(name) != [] ==> (Take([SLASH] + joined, 255) == name <==> name[|name| - 1] != SLASH)
    ensures Body(name) == [] ==> name[|name| - 1] == SLASH
  {
    var b := Body(name);
    assert name == [SLASH] + b && |[SLASH] + joined| <= 255;
    if b != [] && b[|b| - 1] == SLASH {
      assert |joined| < |b|;
    }
  }

  lemma GreetedPeer(t: Tables, name: seq<byte>, from: Peer, now: u64)
    requires |t.peers| < MAX_MESH_PEERS && FindPeer(t.peers, name) == |t.peers|
    ensures var r := Greeted(t, name, from, now).peers;
      |r| == |t.peers| + 1 && r[..|t.peers|] == t.peers && r[|t.peers|].name == ParsedName(name)
  {
    hide FindPeer, ParsedName;
  }

  lemma {:induction false} FindPeerLast(peers: seq<MeshPeer>, p: MeshPeer, name: seq<byte>)
    requires FindPeer(peers, name) == |peers|
    ensures FindPeer(peers + [p], name) == |peers| <==> PeerText(p) == name
  {
    hide PeerText;
    forall j | 0 <= j < |peers| ensures PeerText((peers + [p])[j]) != name {
      assert (peers + [p])[j] == peers[j];
    }
    FindPeerUnique(peers + [p], name, if PeerText(p) == name then |peers| else |peers| + 1);
  }

  /** A sender added under a name is recognised by its next beacon if and only if the name is empty,
      or begins with a slash and does not end with one; otherwise that beacon adds another peer. */
  lemma SenderRecognisedIff(t: Tables, name: seq<byte>, from: Peer, now: u64)
    requires |t.peers| < MAX_MESH_PEERS && FindPeer(t.peers, name) == |t.peers| && Storable(name)
    ensures FindPeer(Greeted(t, name, from, now).peers, name) == |t.peers|
        <==> name == [] || (name[0] == SLASH && name[|name| - 1] != SLASH)
  {
    hide Greeted, FindPeer, Storable, PeerText, ParsedName;
    GreetedPeer(t, name, from, now);
    var r := Greeted(t, name, from, now).peers;
    assert r == t.peers + [r[|t.peers|]];
    PrintsAsNamed(r[|t.peers|], name);
    FindPeerLast(t.peers, r[|t.peers|], name);
  }

  // ----- the buffer and the tables --------------------------------------------------

  /** The name part: up to and including the first non-empty prefix. */
  method EmitName(ps: seq<Name>, buf: array<byte>, start: nat) returns (pos: nat)
    requires start + |NamePart(ps, 0)| <= buf.Length
    modifies buf
    ensures pos == start + |NamePart(ps, 0)| && buf[..pos] == old(buf[..start]) + NamePart(ps, 0)
  {
    pos := start;
    ghost var done: seq<byte> := [];
    var i := 0;
    while i < |ps|
      invariant i <= |ps| && pos == start + |done|
      invariant done + NamePart(ps, i) == NamePart(ps, 0)
      invariant buf[..pos] == old(buf[..start]) + done
    {
      var c := if ps[i].components != [] then ps[i].components[0] else [];
      var piece := (if i > 0 then [SLASH] else []) + c;
      assert NamePart(ps, i) == piece + if ps[i].components != [] then [] else NamePart(ps, i + 1);
      hide NamePart;
      Assoc(done, piece, if ps[i].components != [] then [] else NamePart(ps, i + 1));
      Assoc(old(buf[..start]), done, piece);
      pos := Emit(piece, buf, pos);
      done := done + piece;
      if ps[i].components != [] {
        assert done + [] == done;
        return;
      }
      i := i + 1;
    }
    assert done + [] == done;
  }

  /** One prefix, components separated by '/'. */
  method EmitPrefix(p: Name, buf: array<byte>, start: nat) returns (pos: nat)
    requires start + |PrefixText(p)| + 2 < buf.Length
    modifies buf
    ensures pos == start + |PrefixText(p)| && buf[..pos] == old(buf[..start]) + PrefixText(p)
  {
    var cs := p.components;
    pos := start;
    assert cs[..0] == [] && Join(cs[..0], SLASH) == [];
    hide Join;
    for j := 0 to |cs|
      invariant pos == start + |Join(cs[..j], SLASH)| <= buf.Length
      invariant buf[..pos] == old(buf[..start]) + Join(cs[..j], SLASH)
    {
      JoinNext(cs, j);
      JoinGrows(cs, j + 1);
      ghost var done := Join(cs[..j], SLASH);
      if j > 0 { pos := Emit([SLASH], buf, pos); }
      if pos + |cs[j]| >= buf.Length - 2 { break; }
      pos := Emit(cs[j], buf, pos);
      assert buf[..pos] == old(buf[..start]) + (done + (if j > 0 then [SLASH] else []) + cs[j]);
    }
    assert cs[..|cs|] == cs;
  }

  lemma JoinPart(texts: seq<seq<byte>>, i: nat)
    requires i < |texts|
    ensures Join(texts[..i + 1], SEMICOLON)
            == Join(texts[..i], SEMICOLON) + (if i > 0 then [SEMICOLON] else []) + texts[i]
    ensures |Join(texts[..i + 1], SEMICOLON)| <= |Join(texts, SEMICOLON)|
    decreases |texts| - i
  {
    assert texts[..i + 1] == texts[..i] + [texts[i]];
    if i > 0 { JoinSnoc(texts[..i], texts[i], SEMICOLON); }
    if i + 1 < |texts| {
      JoinPart(texts, i + 1);
    } else {
      assert texts[..i + 1] == texts;
    }
  }

  /** The message mesh_send_beacon builds, for prefixes that fit its 4096-byte buffer. */
  method BuildBeacon(ps: seq<Name>, buf: array<byte>) returns (pos: nat)
    requires buf.Length == BEACON_BUFFER && |BeaconText(ps)| + 2 < BEACON_BUFFER
    modifies buf
    ensures pos == |BeaconText(ps)| && buf[..pos] == BeaconText(ps) && buf[pos] == 0
  {
    hide NamePart, PrefixText, Join;
    pos := Emit(HEADER, buf, 0);
    assert buf[..pos] == HEADER;
    pos := EmitName(ps, buf, pos);
    pos := Emit([BAR], buf, pos);
    pos := EmitList(ps, buf, pos);
    buf[pos] := 0;
  }

  /** The prefixes, separated by ';'. */
  method EmitList(ps: seq<Name>, buf: array<byte>, start: nat) returns (pos: nat)
    requires start + |Join(PrefixTexts(ps), SEMICOLON)| + 2 < buf.Length
    modifies buf
    ensures pos == start + |Join(PrefixTexts(ps), SEMICOLON)|
    ensures buf[..pos] == old(buf[..start]) + Join(PrefixTexts(ps), SEMICOLON)
  {
    hide PrefixText, Join;
    ghost var texts, head := PrefixTexts(ps), buf[..start];
    pos := start;
    EmptyJoin(texts[..0]);
    for i := 0 to |ps|
      invariant pos == start + |Join(texts[..i], SEMICOLON)| <= buf.Length
      invariant buf[..pos] == head + Join(texts[..i], SEMICOLON)
    {
      JoinPart(texts, i);
      ghost var done := Join(texts[..i], SEMICOLON);
      if i > 0 { pos := Emit([SEMICOLON], buf, pos); }
      pos := EmitPrefix(ps[i], buf, pos);
      assert buf[..pos] == head + (done + (if i > 0 then [SEMICOLON] else []) + texts[i]);
    }
    assert texts[..|ps|] == texts;
  }

  lemma EmptyJoin(xs: seq<seq<byte>>)
    requires xs == []
    ensures Join(xs, SEMICOLON) == []
  {
  }

  /** One announced prefix at the object: the note at the peer, then mesh_add_fib. */
  method NotePrefix(ctx: MeshCtx, idx: nat, field: seq<byte>, now: u64)
    requires ctx.Valid() && idx < ctx.peerCount && 0 !in field
    modifies ctx`fibCount, ctx.peers, ctx.fib
    ensures ctx.Valid() && ctx.State() == AddPrefix(old(ctx.State()), idx, field, now)
  {
    hide ParsedName, InitName, AddRow;
    ghost var t := ctx.State();
    var text := Take(field, 255);
    var parsed := ParseNameText(text);
    ctx.peers[idx] := ctx.peers[idx].(prefixes := ctx.peers[idx].prefixes + [parsed]);
    assert ctx.peers[..ctx.peerCount] == t.peers[idx := t.peers[idx].(prefixes := t.peers[idx].prefixes + [parsed])];
    var prefix := ParseName(text);
    var _ := ctx.AddFib(prefix.name, idx, ROUTE_LIFETIME_MS, now);
  }

  /** The prefix loop of mesh_process_beacon. */
  method NotePrefixes(ctx: MeshCtx, idx: nat, list: seq<byte>, now: u64)
    requires ctx.Valid() && idx < ctx.peerCount && 0 !in list
    modifies ctx`fibCount, ctx.peers, ctx.fib
    ensures ctx.Valid()
    ensures ctx.State() == AddPrefixes(old(ctx.State()), idx, Fields(list, SEMICOLON), now)
  {
    hide AddPrefix, Fields, IndexOf;
    ghost var all := AddPrefixes(ctx.State(), idx, Fields(list, SEMICOLON), now);
    var p := 0;
    assert list[0..] == list;
    while p < |list| && |ctx.peers[idx].prefixes| < MAX_PREFIXES
      invariant ctx.Valid() && idx < ctx.peerCount && p <= |list|
      invariant AddPrefixes(ctx.State(), idx, Fields(list[p..], SEMICOLON), now) == all
    {
      var start := p;
      p := SkipTo(list, p, SEMICOLON);
      FieldsNext(list, start, p, SEMICOLON);
      ghost var t := ctx.State();
      assert t.peers[idx] == ctx.peers[idx];
      AddPrefixesNext(t, idx, list[start..p], Fields(list[if p < |list| then p + 1 else p..], SEMICOLON), now);
      hide AddPrefixes;
      if p > start { NotePrefix(ctx, idx, list[start..p], now); }
      if p < |list| { p := p + 1; }
    }
    assert ctx.State().peers[idx] == ctx.peers[idx];
    if p == |list| { EmptyFields(list[p..], SEMICOLON); }
  }

  lemma AddPrefixesNext(t: Tables, idx: nat, field: seq<byte>, rest: seq<seq<byte>>, now: u64)
    requires idx < |t.peers| && |t.peers[idx].prefixes| < MAX_PREFIXES
    ensures AddPrefixes(t, idx, [field] + rest, now)
            == AddPrefixes(if field == [] then t else AddPrefix(t, idx, field, now), idx, rest, now)
  {
    hide AddPrefix;
    assert ([field] + rest)[1..] == rest;
  }

  /** The sender is added or refreshed, and its prefixes forgotten. */
  method Greet(ctx: MeshCtx, name: seq<byte>, from: Peer, now: u64) returns (idx: Option<nat>)
    requires ctx.Valid() && 0 !in name
    modifies ctx`peerCount, ctx.peers
    ensures ctx.Valid()
    ensures old(ctx.peerCount) >= MAX_MESH_PEERS ==> idx == None && ctx.State() == old(ctx.State())
    ensures old(ctx.peerCount) < MAX_MESH_PEERS ==>
              idx == Some(FindPeer(old(ctx.State()).peers, name)) && idx.value < ctx.peerCount
              && ctx.State() == Greeted(old(ctx.State()), name, from, now)
  {
    hide FindPeer, ParsedName;
    idx := ctx.AddPeerNamed(name, from, now);
    if idx == None { return; }
    ctx.PeerSeen(idx.value, now);
    ghost var seen := ctx.State();
    ctx.peers[idx.value] := ctx.peers[idx.value].(prefixes := []);
    assert ctx.peers[..ctx.peerCount] == seen.peers[idx.value := seen.peers[idx.value].(prefixes := [])];
  }

  /** mesh_process_beacon. */
  method HandleBeacon(ctx: MeshCtx, data: seq<byte>, from: Peer, now: u64) returns (ok: bool)
    requires ctx.Valid()
    modifies ctx`peerCount, ctx`fibCount, ctx.peers, ctx.fib
    ensures ctx.Valid() && Processed(ok, ctx.State()) == ProcessBeacon(old(ctx.State()), data, from, now)
  {
    hide Fields, IndexOf, FindPeer, AddPrefixes, ParsedName, CString, Greeted;
    if |data| < 12 || data[..12] != HEADER { return false; }
    var str := CString(data[12..]);
    assert str[0..] == str;
    var sep := SkipTo(str, 0, BAR);
    if sep == |str| { return false; }
    var name := Take(str[..sep], 255);
    var idx := Greet(ctx, name, from, now);
    if idx == None { return false; }
    NotePrefixes(ctx, idx.value, str[sep + 1..], now);
    ok := true;
  }
}
