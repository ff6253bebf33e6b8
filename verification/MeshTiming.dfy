/** What the clock does to the mesh tables: how long a peer that was added, seen or heard stays in
    the table with its routes, and how long a route stays. */
module MeshTiming {
  import opened Bytes
  import opened Names
  import opened Fib
  import opened MeshTables
  import opened Beacon
  import Mesh
  import NamePieces

  // ----- peers ----------------------------------------------------------------------

  /** A peer times out when it was silent for more than 15 seconds. */
  lemma TimedOutIff(p: MeshPeer, now: u64)
    requires p.lastSeen <= now
    ensures TimedOut(p, now) <==> now - p.lastSeen > 15000
  {
    assert (now - p.lastSeen) % U64 == now - p.lastSeen;
  }

  lemma {:induction false} LivePeersMembers(peers: seq<MeshPeer>, now: u64, x: MeshPeer)
    ensures x in LivePeers(peers, now) <==> x in peers && !TimedOut(x, now)
  {
    hide TimedOut;
    if peers != [] {
      LivePeersMembers(peers[..|peers| - 1], now, x);
      assert peers == peers[..|peers| - 1] + [peers[|peers| - 1]];
    }
  }

  lemma {:induction false} LiveRoutesMembers(rs: seq<Resolved>, now: u64, x: Resolved)
    ensures x in LiveRoutes(rs, now) <==> x in rs && !TimedOut(x.peer, now)
  {
    hide TimedOut;
    if rs != [] {
      LiveRoutesMembers(rs[..|rs| - 1], now, x);
      assert rs == rs[..|rs| - 1] + [rs[|rs| - 1]];
    }
  }

  lemma {:induction false} ResolvedAt(peers: seq<MeshPeer>, fib: seq<FibRow>, i: nat)
    requires InRange(fib, |peers|) && i < |fib|
    ensures Resolve(peers, fib)[i] == ResolveRow(fib[i], peers)
  {
    if i < |fib| - 1 { ResolvedAt(peers, fib[..|fib| - 1], i); }
  }

  /** All peers but `p` are as they were. */
  ghost predicate OthersStay(r: Tables, t: Tables, p: nat) {
    |t.peers| <= |r.peers| && forall i :: 0 <= i < |t.peers| && i != p ==> r.peers[i] == t.peers[i]
  }

  /** The record of peer `p` and every route to it. */
  ghost predicate Keeps(r: Tables, t: Tables, p: nat)
    requires p < |t.peers| && InRange(t.fib, |t.peers|)
  {
    && InRange(r.fib, |r.peers|) && t.peers[p] in r.peers
    && forall i :: 0 <= i < |t.fib| && t.fib[i].peerIndex == p ==> ResolveRow(t.fib[i], t.peers) in Resolve(r.peers, r.fib)
  }

  /** A check of the timeouts keeps a peer and all its routes if the peer was heard of within the
      last 15 seconds, and else drops its record. */
  lemma PeerKeptIff(t: Tables, p: nat, now: u64)
    requires InRange(t.fib, |t.peers|) && p < |t.peers| && t.peers[p].lastSeen <= now
    ensures var r := Expire(t, |t.peers|, now);
      (t.peers[p] in r.peers <==> now - t.peers[p].lastSeen <= 15000)
      && (now - t.peers[p].lastSeen <= 15000 ==> Keeps(r, t, p))
  {
    hide TimedOut, Expire, Resolve, LivePeers, LiveRoutes, ResolveRow;
    var r, x := Expire(t, |t.peers|, now), t.peers[p];
    TimeoutsKeepLiveRoutes(t, now);
    TimedOutIff(x, now);
    LivePeersMembers(t.peers, now, x);
    assert x in t.peers;
    if now - x.lastSeen <= 15000 {
      forall i | 0 <= i < |t.fib| && t.fib[i].peerIndex == p
        ensures ResolveRow(t.fib[i], t.peers) in Resolve(r.peers, r.fib)
      {
        ResolvedAt(t.peers, t.fib, i);
        assert Resolve(t.peers, t.fib)[i] in Resolve(t.peers, t.fib);
        ResolvesTo(t.fib[i], t.peers);
        LiveRoutesMembers(Resolve(t.peers, t.fib), now, ResolveRow(t.fib[i], t.peers));
      }
    }
  }

  lemma ResolvesTo(f: FibRow, peers: seq<MeshPeer>)
    requires f.peerIndex < |peers|
    ensures ResolveRow(f, peers).peer == peers[f.peerIndex]
  {
  }

  /** mesh_peer_seen at `at`: the peer counts as heard of then, and nothing else changes. */
  lemma SeenKeptIff(t: Tables, p: nat, at: u64, now: u64)
    requires InRange(t.fib, |t.peers|) && p < |t.peers| && at <= now
    ensures var s := Seen(t, p, at);
      && |s.peers| == |t.peers| && s.fib == t.fib && OthersStay(s, t, p)
      && s.peers[p].name == t.peers[p].name && s.peers[p].addr == t.peers[p].addr && s.peers[p].status == Connected
      && (s.peers[p] in Expire(s, |s.peers|, now).peers <==> now - at <= 15000)
      && (now - at <= 15000 ==> Keeps(Expire(s, |s.peers|, now), s, p))
  {
    hide Keeps, Expire;
    PeerKeptIff(Seen(t, p, at), p, now);
  }

  /** mesh_add_peer at `at`, with room in the table: the peer of that name, or a new one at the end,
      has the address given and counts as heard of then; the other peers and the routes stay. */
  lemma AddedKeptIff(t: Tables, name: seq<byte>, addr: Peer, at: u64, now: u64)
    requires InRange(t.fib, |t.peers|) && |t.peers| < 32 && at <= now
    ensures var s, p := AddPeer(t, name, addr, at), FindPeer(t.peers, name);
      && |s.peers| == (if p < |t.peers| then |t.peers| else |t.peers| + 1) && p < |s.peers| && s.fib == t.fib
      && OthersStay(s, t, p) && InRange(s.fib, |s.peers|)
      && s.peers[p].addr == addr && (p < |t.peers| ==> s.peers[p].name == t.peers[p].name)
      && s.peers[p].status == (if p < |t.peers| then Connected else Discovered)
      && (s.peers[p] in Expire(s, |s.peers|, now).peers <==> now - at <= 15000)
      && (now - at <= 15000 ==> Keeps(Expire(s, |s.peers|, now), s, p))
  {
    hide Keeps, Expire, FindPeer, ParsedName;
    PeerKeptIff(AddPeer(t, name, addr, at), FindPeer(t.peers, name), now);
  }

  // ----- routes ---------------------------------------------------------------------

  lemma OutlivedIff(f: FibRow, now: u64)
    requires f.createdAt <= now
    ensures Outlived(f, now) <==> f.lifetimeMs > 0 && now - f.createdAt > f.lifetimeMs
  {
    assert (now - f.createdAt) % U64 == now - f.createdAt;
  }

  lemma {:induction false} CurrentMembers(fib: seq<FibRow>, now: u64, f: FibRow)
    ensures f in Current(fib, now) <==> f in fib && !Outlived(f, now)
  {
    hide Outlived;
    if fib != [] {
      CurrentMembers(fib[..|fib| - 1], now, f);
      assert fib == fib[..|fib| - 1] + [fib[|fib| - 1]];
    }
  }

  /** mesh_add_fib at `at`: refused for an unknown peer or a full table. Else there is one row of
      that prefix to that peer, which pruning keeps for its lifetime, or for ever if that is 0; the
      other rows stay. */
  lemma RowKeptIff(t: Tables, prefix: Name, peer: nat, life: u32, at: u64, now: u64)
    requires at <= now
    ensures var s, k := AddRow(t, prefix, peer, life, at), FindRow(t.fib, prefix, peer);
      if peer < |t.peers| && |t.fib| < 128 then
        && s.peers == t.peers && |s.fib| == (if k < |t.fib| then |t.fib| else |t.fib| + 1) && k < |s.fib|
        && (forall i :: 0 <= i < |t.fib| && i != k ==> s.fib[i] == t.fib[i])
        && NameEqual(s.fib[k].prefix, prefix) && s.fib[k].peerIndex == peer
        && (s.fib[k] in Current(s.fib, now) <==> life == 0 || now - at <= life)
      else s == t
  {
    hide FindRow, Current, Outlived, NameEqual;
    var s, k := AddRow(t, prefix, peer, life, at), FindRow(t.fib, prefix, peer);
    SameName(prefix);
    if peer < |t.peers| && |t.fib| < 128 {
      OutlivedIff(s.fib[k], now);
      CurrentMembers(s.fib, now, s.fib[k]);
      assert s.fib[k] in s.fib;
    }
  }

  lemma SameName(n: Name)
    ensures NameEqual(n, n)
  {
  }

  // ----- beacons --------------------------------------------------------------------

  /** Peer `i` is the same but for the list of prefixes it announced. */
  ghost predicate SameBut(a: MeshPeer, b: MeshPeer) {
    a.name == b.name && a.addr == b.addr && a.status == b.status && a.lastSeen == b.lastSeen
  }

  lemma {:induction false} PrefixesOnly(t: Tables, idx: nat, fields: seq<seq<byte>>, now: u64)
    requires idx < |t.peers|
    ensures var r := AddPrefixes(t, idx, fields, now);
      OthersStay(r, t, idx) && SameBut(r.peers[idx], t.peers[idx])
      && (|t.peers[idx].prefixes| <= 16 ==> |r.peers[idx].prefixes| <= 16)
    decreases |fields|
  {
    hide AddRow, ParsedName, InitName;
    if fields != [] && |t.peers[idx].prefixes| < MAX_PREFIXES {
      if fields[0] == [] {
        PrefixesOnly(t, idx, fields[1..], now);
      } else {
        OnePrefixOnly(t, idx, fields[0], now);
        hide AddPrefix;
        PrefixesOnly(AddPrefix(t, idx, fields[0], now), idx, fields[1..], now);
      }
    }
  }

  lemma OnePrefixOnly(t: Tables, idx: nat, field: seq<byte>, now: u64)
    requires idx < |t.peers|
    ensures var r := AddPrefix(t, idx, field, now);
      OthersStay(r, t, idx) && SameBut(r.peers[idx], t.peers[idx]) && |r.peers[idx].prefixes| == |t.peers[idx].prefixes| + 1
  {
    hide ParsedName, InitName, FindRow;
  }

  /** A name is split at every slash but a leading one, into at most 16 components, each cut to 63
      bytes. */
  lemma ParsedCut(text: seq<byte>, i: nat)
    requires i < |ParsedName(text)|
    ensures var fields := Fields(if text != [] && text[0] == SLASH then text[1..] else text, SLASH);
      |ParsedName(text)| == (if |fields| < 16 then |fields| else 16)
      && ParsedName(text)[i] == if |fields[i]| < 63 then fields[i] else fields[i][..63]
  {
    hide Fields;
  }

  /** Of a prefix longer than 255 bytes only these count. */
  lemma LongPrefixCut(t: Tables, idx: nat, field: seq<byte>, more: seq<byte>, now: u64)
    requires idx < |t.peers| && |field| == 255
    ensures AddPrefix(t, idx, field + more, now) == AddPrefix(t, idx, field, now)
  {
    hide AddRow, ParsedName, InitName;
    assert Take(field + more, 255) == field && Take(field, 255) == field;
  }

  /** Empty pieces between the announced prefixes are stepped over. */
  lemma {:induction false} EmptyPrefixesSkipped(t: Tables, idx: nat, fields: seq<seq<byte>>, now: u64)
    requires idx < |t.peers|
    ensures AddPrefixes(t, idx, fields, now) == AddPrefixes(t, idx, NamePieces.NonEmpty(fields), now)
    decreases |fields|
  {
    hide AddPrefix;
    if fields != [] && |t.peers[idx].prefixes| < MAX_PREFIXES {
      NamePieces.NonEmptyStep(fields);
      if fields[0] == [] {
        EmptyPrefixesSkipped(t, idx, fields[1..], now);
      } else {
        EmptyPrefixesSkipped(AddPrefix(t, idx, fields[0], now), idx, fields[1..], now);
        assert ([fields[0]] + NamePieces.NonEmpty(fields[1..]))[1..] == NamePieces.NonEmpty(fields[1..]);
      }
    }
  }

  /** A prefix that cannot be parsed still makes a route: its last component, refused because of what
      follows an '@', is left off, and all names under the components before it lead somewhere. */
  lemma RefusedPrefixRouted(t: Tables, idx: nat, cs: seq<seq<byte>>, c: seq<byte>, v: seq<byte>, now: u64, n: Name)
    requires idx < |t.peers| && |t.fib| < 128 && 0 < |cs| < 16
    requires forall i :: 0 <= i < |cs| ==> CanonicalComponent(cs[i])
    requires SLASH !in c && AT !in c && SLASH !in v && !(|c| + 1 + |v| < 64 && v != [] && AllDigits(v))
    requires |TextOf(cs) + [SLASH] + (c + [AT] + v)| <= 255 && cs <= n.components
    ensures var field := TextOf(cs) + [SLASH] + (c + [AT] + v);
      var r := AddPrefix(t, idx, field, now);
      && !InitName(field).ok && FindRow(r.fib, Name(cs, 0, 0, false), idx) < |r.fib|
      && Route(Mesh.RowPrefixes(r.fib), n).Some?
  {
    var s := c + [AT] + v;
    var field, p := TextOf(cs) + [SLASH] + s, Name(cs, 0, 0, false);
    NamePieces.TailRead(cs, s);
    NamePieces.WholePiece(s, p);
    NamePieces.VersionedPiece(c, v);
    assert InitName(field) == Init(false, p);
    hide InitName, ParsedName, AllDigits, CanonicalComponent, TextOf, FindRow, Route;
    assert Take(field, 255) == field;
    var r := AddPrefix(t, idx, field, now);
    var k := FindRow(t.fib, p, idx);
    assert k < |r.fib| && NameEqual(r.fib[k].prefix, p) && r.fib[k].peerIndex == idx;
    assert FindRow(r.fib, p, idx) <= k;
    RouteIsLongest(Mesh.RowPrefixes(r.fib), n, k);
  }

  /** The name a beacon names its sender by. */
  function Sender(data: seq<byte>): seq<byte>
    requires |data| >= 12
  {
    var str := CString(data[12..]);
    Take(str[..IndexOf(str, BAR)], 255)
  }

  /** Which datagrams are beacons; the others change nothing. */
  lemma HeardIff(t: Tables, data: seq<byte>, from: Peer, now: u64)
    ensures var r := ProcessBeacon(t, data, from, now);
      (r.ok <==> |data| >= 12 && data[..12] == Ascii("MESH_BEACON|") && BAR in CString(data[12..]) && |t.peers| < 32)
      && (!r.ok ==> r.tables == t)
  {
    hide Greeted, AddPrefixes, FindPeer, Fields, CString;
    assert HEADER == Ascii("MESH_BEACON|");
    if |data| >= 12 {
      var str := CString(data[12..]);
      assert str[..|str|] == str;
    }
  }

  lemma GreetedSender(t: Tables, name: seq<byte>, from: Peer, now: u64)
    requires |t.peers| < 32
    ensures var g, p := Greeted(t, name, from, now), FindPeer(t.peers, name);
      && p < |g.peers| && OthersStay(g, t, p) && g.fib == t.fib
      && g.peers[p].addr == from && g.peers[p].lastSeen == now && g.peers[p].status == Connected
      && |g.peers[p].prefixes| == 0
  {
    hide FindPeer, ParsedName;
  }

  lemma ProcessedSender(t: Tables, data: seq<byte>, from: Peer, at: u64)
    requires ProcessBeacon(t, data, from, at).ok
    ensures |data| >= 12 && |t.peers| < 32
    ensures var r, p := ProcessBeacon(t, data, from, at).tables, FindPeer(t.peers, Sender(data));
      && p < |r.peers| && OthersStay(r, t, p)
      && r.peers[p].addr == from && r.peers[p].lastSeen == at && r.peers[p].status == Connected
      && |r.peers[p].prefixes| <= 16
  {
    hide FindPeer, ParsedName, AddPrefixes, Greeted, Fields, IndexOf, CString;
    var str := CString(data[12..]);
    var sep, name := IndexOf(str, BAR), Sender(data);
    var fields := Fields(str[sep + 1..], SEMICOLON);
    GreetedSender(t, name, from, at);
    PrefixesOnly(Greeted(t, name, from, at), FindPeer(t.peers, name), fields, at);
  }

  /** A beacon that was processed makes its sender a connected peer at the address it came from,
      heard of at that time, leaves the other peers as they were, and keeps the sender and all routes
      to it through every check of the timeouts in the next 15 seconds, and in no later one. */
  lemma BeaconKeptIff(t: Tables, data: seq<byte>, from: Peer, at: u64, now: u64)
    requires Consistent(t) && ProcessBeacon(t, data, from, at).ok && at <= now
    ensures |data| >= 12
    ensures var r, p := ProcessBeacon(t, data, from, at).tables, FindPeer(t.peers, Sender(data));
      && p < |r.peers| && OthersStay(r, t, p)
      && r.peers[p].addr == from && r.peers[p].status == Connected && InRange(r.fib, |r.peers|)
      && (r.peers[p] in Expire(r, |r.peers|, now).peers <==> now - at <= 15000)
      && (now - at <= 15000 ==> Keeps(Expire(r, |r.peers|, now), r, p))
  {
    hide FindPeer, ProcessBeacon, Expire, Keeps, DistinctPairs, Sender, OthersStay;
    ProcessBeaconConsistent(t, data, from, at);
    ProcessedSender(t, data, from, at);
    PeerKeptIff(ProcessBeacon(t, data, from, at).tables, FindPeer(t.peers, Sender(data)), now);
  }

  /** A route made from a beacon is pruned when the beacon is more than three intervals of five
      seconds old. */
  lemma AnnouncedRouteKeptIff(t: Tables, ps: seq<Name>, i: nat, from: Peer, at: u64, now: u64)
    returns (f: FibRow)
    requires Consistent(t) && Announceable(ps) && |t.peers| < 32 && |t.fib| + |ps| <= 128
    requires i < |ps| && at <= now
    ensures var r := ProcessBeacon(t, BeaconText(ps), from, at).tables;
      f in r.fib && f.prefix == ps[i] && f.peerIndex == |t.peers|
      && (f in Current(r.fib, now) <==> now - at <= 15000)
  {
    hide ProcessBeacon, BeaconText, Current, Outlived, Announceable, Consistent, Dedup;
    BeaconRoundTrip(t, ps, from, at);
    DedupMembers(ps, ps[i]);
    var r := ProcessBeacon(t, BeaconText(ps), from, at).tables;
    var j :| 0 <= j < |Dedup(ps)| && Dedup(ps)[j] == ps[i];
    var rows := RowsTo(Dedup(ps), |t.peers|, at);
    f := rows[j];
    assert f == FibRow(ps[i], |t.peers|, ROUTE_LIFETIME_MS, at) && r.fib == t.fib + rows;
    assert r.fib[|t.fib| + j] == f;
    CurrentMembers(r.fib, now, f);
    OutlivedIff(f, now);
  }

  // ----- the text of a beacon -------------------------------------------------------

  /** The pieces of a beacon for two prefixes, spelled out. */
  lemma BeaconSpelled(p: Name, q: Name)
    requires p.components != []
    ensures BeaconText([p, q])
         == Ascii("MESH_BEACON|") + p.components[0] + Ascii("|") + Join(p.components, SLASH) + Ascii(";") + Join(q.components, SLASH)
  {
    assert HEADER == Ascii("MESH_BEACON|");
    hide Join;
    var a, b := PrefixText(p), PrefixText(q);
    assert PrefixTexts([p, q]) == [a, b];
    JoinTwo(a, b);
    assert NamePart([p, q], 0) == p.components[0];
    assert Ascii("|") == [BAR] && Ascii(";") == [SEMICOLON];
  }

  lemma JoinTwo(a: seq<byte>, b: seq<byte>)
    ensures Join([a, b], SEMICOLON) == a + [SEMICOLON] + b
  {
    assert [a, b][1..] == [b];
  }

  function Slashes(k: nat): seq<byte> { seq(k, _ => SLASH) }

  /** The name in a beacon: the first component of the first prefix that has one, behind a slash for
      each prefix stepped over. */
  lemma {:induction false} NameAnnounced(ps: seq<Name>, i: nat, k: nat)
    requires i <= k < |ps| && ps[k].components != [] && forall j :: i <= j < k ==> ps[j].components == []
    ensures NamePart(ps, i) == Slashes(if i == 0 then k else k - i + 1) + ps[k].components[0]
    decreases k - i
  {
    hide NamePart, Slashes;
    NamePartStep(ps, i);
    SlashesStep(k - i);
    if i < k { NameAnnounced(ps, i + 1, k); }
  }

  lemma NamePartStep(ps: seq<Name>, i: nat)
    requires i < |ps|
    ensures NamePart(ps, i) == (if i > 0 then [SLASH] else [])
                               + if ps[i].components != [] then ps[i].components[0] else NamePart(ps, i + 1)
  {
  }

  lemma SlashesStep(k: nat)
    ensures Slashes(0) == [] && Slashes(k + 1) == [SLASH] + Slashes(k)
  {
  }
}
