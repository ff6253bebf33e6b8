/** The DHT node (dht.c): its peer table, the nearest peers by XOR distance (section 2.1 of the
    Kademlia paper), and the record table that DhtRecords specifies. */
module Dht {
  import opened Bytes
  import opened Fib
  import opened DhtRecords
  import Fnv

  const MAX_PEERS: nat := 512

  datatype DhtPeer = DhtPeer(id: u64, endpoint: Peer, key: Option<seq<byte>>, lastSeen: u64, alive: bool)

  // ----- ids ------------------------------------------------------------------------

  /** The six bytes of an endpoint as they lie in memory, least significant first. */
  function AddrBytes(p: Peer): (r: seq<byte>)
    ensures |r| == 6
  {
    var ip := p.ip;
    [ip % 256, ip / 256 % 256, ip / 256 / 256 % 256, ip / 256 / 256 / 256, p.port % 256, p.port / 256]
  }

  lemma SameBytes(x: nat, y: nat)
    requires x % 256 == y % 256 && x / 256 == y / 256
    ensures x == y
  {
  }

  lemma AddrBytesInjective(p: Peer, q: Peer)
    requires AddrBytes(p) == AddrBytes(q)
    ensures p == q
  {
    var a, b := AddrBytes(p), AddrBytes(q);
    assert a[0] == b[0] && a[1] == b[1] && a[2] == b[2] && a[3] == b[3] && a[4] == b[4] && a[5] == b[5];
    SameBytes(p.ip / 256 / 256, q.ip / 256 / 256);
    SameBytes(p.ip / 256, q.ip / 256);
    SameBytes(p.ip, q.ip);
    SameBytes(p.port, q.port);
  }

  /** An endpoint set from a.b.c.d and a port is hashed in network order: a, b, c, d, then the port's
      high and low byte. */
  lemma AddrBytesOrder(a: byte, b: byte, c: byte, d: byte, high: byte, low: byte)
    ensures AddrBytes(Peer(Htonl(a * 0x100_0000 + b * 0x1_0000 + c * 256 + d), Htons(high * 256 + low)))
         == [a, b, c, d, high, low]
  {
    NetworkOrder(a, b, c, d);
    NetworkOrder(high, low, 0, 0);
    hide Htons, Htonl;
    FourBytes(Htonl(a * 0x100_0000 + b * 0x1_0000 + c * 256 + d), a, b, c, d);
    LowByte(Htons(high * 256 + low), low, high);
  }

  lemma FourBytes(x: nat, a: byte, b: byte, c: byte, d: byte)
    requires x == d * 0x100_0000 + c * 0x1_0000 + b * 256 + a
    ensures x % 256 == a && x / 256 % 256 == b && x / 256 / 256 % 256 == c && x / 256 / 256 / 256 == d
  {
    LowByte(x, 256 * (256 * d + c) + b, a);
    LowByte(x / 256, 256 * d + c, b);
    LowByte(x / 256 / 256, d, c);
  }

  function IdOf(p: Peer): u64 { Fnv.Hash(AddrBytes(p)) }

  /** Changing one address or port byte of an endpoint always changes its id. */
  lemma OneByteChangesId(p: Peer, q: Peer, k: nat)
    requires k < 6 && AddrBytes(p)[k] != AddrBytes(q)[k]
    requires forall i :: 0 <= i < 6 && i != k ==> AddrBytes(p)[i] == AddrBytes(q)[i]
    ensures IdOf(p) != IdOf(q)
  {
    Fnv.OneByteChangesHash(AddrBytes(p), AddrBytes(q), k);
  }

  /** dht_id_from_addr. */
  method IdFromAddr(p: Peer) returns (id: u64)
    ensures id == IdOf(p)
  {
    var b := AddrBytes(p);
    id := Fnv.OFFSET_BASIS;
    for i := 0 to 6
      invariant id == Fnv.Hash(b[..i])
    {
      id := Fnv.Step(id, b[i]);
      assert b[..i + 1][..i] == b[..i];
    }
    assert b[..6] == b;
  }

  // ----- distance -------------------------------------------------------------------

  /** XOR distance is a metric on ids, and at any distance from a target there is only one id. */
  lemma DistanceIsAMetric(a: u64, b: u64, c: u64)
    ensures Xor(a, b) == Xor(b, a)
    ensures Xor(a, b) == 0 <==> a == b
    ensures Xor(a, c) <= Xor(a, b) + Xor(b, c)
    ensures Xor(a, b) == Xor(a, c) ==> b == c
    ensures Xor(a, b) < U64
  {
    hide Xor;
    XorSymmetric(a, b);
    XorSymmetric(a, c);
    XorZeroIffEqual(a, b);
    XorTriangle(a, b, c);
    Xor64(a, b);
    if Xor(a, b) == Xor(a, c) { XorInjective(b, c, a); }
  }

  // ----- the peer table -------------------------------------------------------------

  function FindEndpoint(ps: seq<DhtPeer>, p: Peer): (k: nat)
    ensures k <= |ps| && forall j :: 0 <= j < k ==> ps[j].endpoint != p
    ensures k < |ps| ==> ps[k].endpoint == p
  {
    if ps == [] || ps[0].endpoint == p then 0 else 1 + FindEndpoint(ps[1..], p)
  }

  /** Among the first `k` peers, the first of the dead ones seen longest ago. */
  function OldestDead(ps: seq<DhtPeer>, k: nat): (r: Option<nat>)
    requires k <= |ps|
    ensures r.Some? ==> r.value < k && !ps[r.value].alive && ps[r.value].lastSeen < U64 - 1
    ensures forall j :: 0 <= j < k && !ps[j].alive && ps[j].lastSeen < U64 - 1 ==>
              r.Some? && ps[r.value].lastSeen <= ps[j].lastSeen
  {
    if k == 0 then None
    else
      var best := OldestDead(ps, k - 1);
      if !ps[k - 1].alive && ps[k - 1].lastSeen < (if best.Some? then ps[best.value].lastSeen else U64 - 1)
      then Some(k - 1)
      else best
  }

  function Refreshed(p: DhtPeer, key: Option<seq<byte>>, now: u64): DhtPeer {
    p.(lastSeen := now, alive := true, key := if p.key.None? then key else p.key)
  }

  function NewPeer(p: Peer, key: Option<seq<byte>>, now: u64): DhtPeer {
    DhtPeer(IdOf(p), p, key, now, true)
  }

  datatype Added = Added(isNew: bool, peers: seq<DhtPeer>)

  /** dht_add_peer: refresh, or append after making room by dropping the oldest dead peer. */
  function PeerAdded(ps: seq<DhtPeer>, p: Peer, key: Option<seq<byte>>, now: u64): Added {
    var k := FindEndpoint(ps, p);
    var victim := OldestDead(ps, |ps|);
    if k < |ps| then Added(false, ps[k := Refreshed(ps[k], key, now)])
    else if |ps| < MAX_PEERS then Added(true, ps + [NewPeer(p, key, now)])
    else if victim.None? then Added(false, ps)
    else Added(true, ps[..victim.value] + ps[victim.value + 1..] + [NewPeer(p, key, now)])
  }

  /** One entry an endpoint, under the id of that endpoint, within capacity. */
  ghost predicate WellFormed(ps: seq<DhtPeer>) {
    && |ps| <= MAX_PEERS
    && (forall i :: 0 <= i < |ps| ==> ps[i].id == IdOf(ps[i].endpoint))
    && (forall i, j :: 0 <= i < j < |ps| ==> ps[i].endpoint != ps[j].endpoint)
  }

  ghost predicate Alive(ps: seq<DhtPeer>, p: Peer) {
    exists e :: e in ps && e.endpoint == p && e.alive
  }

  lemma Dropped(ps: seq<DhtPeer>, v: nat, e: DhtPeer)
    requires v < |ps| && e in ps && e != ps[v]
    ensures e in ps[..v] + ps[v + 1..]
  {
    var i :| 0 <= i < |ps| && ps[i] == e;
    if i < v { assert ps[..v][i] == e; } else { assert ps[v + 1..][i - v - 1] == e; }
  }

  lemma DropKeepsWellFormed(ps: seq<DhtPeer>, v: nat)
    requires WellFormed(ps) && v < |ps|
    ensures WellFormed(ps[..v] + ps[v + 1..])
    ensures forall e :: e in ps[..v] + ps[v + 1..] ==> e in ps
  {
    hide IdOf;
    var r := ps[..v] + ps[v + 1..];
    forall i | 0 <= i < |r| ensures r[i] == ps[if i < v then i else i + 1] {}
  }

  lemma AppendKeepsWellFormed(ps: seq<DhtPeer>, e: DhtPeer)
    requires WellFormed(ps) && |ps| < MAX_PEERS && e.id == IdOf(e.endpoint)
    requires forall x :: x in ps ==> x.endpoint != e.endpoint
    ensures WellFormed(ps + [e])
  {
    hide IdOf;
  }

  lemma Unknown(ps: seq<DhtPeer>, p: Peer)
    requires FindEndpoint(ps, p) == |ps|
    ensures forall x :: x in ps ==> x.endpoint != p
  {
  }

  /** Adding keeps one entry an endpoint and never loses a live peer; afterwards the endpoint is
      live, unless it was unknown and the table was full with no dead peer to drop. */
  lemma AddPeerKeepsLive(ps: seq<DhtPeer>, p: Peer, key: Option<seq<byte>>, now: u64, q: Peer)
    requires WellFormed(ps) && forall i :: 0 <= i < |ps| ==> ps[i].lastSeen < U64 - 1
    ensures WellFormed(PeerAdded(ps, p, key, now).peers)
    ensures Alive(ps, q) ==> Alive(PeerAdded(ps, p, key, now).peers, q)
    ensures Alive(PeerAdded(ps, p, key, now).peers, p) <==>
              FindEndpoint(ps, p) < |ps| || |ps| < MAX_PEERS || exists e :: e in ps && !e.alive
  {
    hide IdOf, FindEndpoint;
    var k, r, victim := FindEndpoint(ps, p), PeerAdded(ps, p, key, now).peers, OldestDead(ps, |ps|);
    var one := NewPeer(p, key, now);
    if k < |ps| {
      RefreshKeepsLive(ps, k, key, now, q);
      assert r[k] == Refreshed(ps[k], key, now) && r[k] in r;
    } else {
      Unknown(ps, p);
      if |ps| < MAX_PEERS {
        AppendKeepsWellFormed(ps, one);
        assert one in r;
      } else if victim.Some? {
        var v := victim.value;
        DropKeepsWellFormed(ps, v);
        AppendKeepsWellFormed(ps[..v] + ps[v + 1..], one);
        assert one in r && ps[v] in ps;
        if Alive(ps, q) {
          var e :| e in ps && e.endpoint == q && e.alive;
          Dropped(ps, v, e);
          assert e in r;
        }
      }
    }
  }

  /** A known endpoint is refreshed where it stands, its key kept once it has one. An unknown one is
      put last; the peers before it stay in order, except that in a full table one dead peer goes,
      and no other dead peer was seen longer ago. */
  lemma AddPeerEffect(ps: seq<DhtPeer>, p: Peer, key: Option<seq<byte>>, now: u64)
    requires WellFormed(ps) && forall i :: 0 <= i < |ps| ==> ps[i].lastSeen < U64 - 1
    ensures var a, k := PeerAdded(ps, p, key, now), FindEndpoint(ps, p);
      if k < |ps| then
        && !a.isNew && |a.peers| == |ps| && (forall i :: 0 <= i < |ps| && i != k ==> a.peers[i] == ps[i])
        && a.peers[k] == DhtPeer(IdOf(p), p, if ps[k].key.Some? then ps[k].key else key, now, true)
      else if a.isNew then
        && a.peers != [] && a.peers[|a.peers| - 1] == DhtPeer(IdOf(p), p, key, now, true)
        && (|ps| < 512 ==> a.peers[..|a.peers| - 1] == ps)
        && (|ps| == 512 ==> LostOne(ps, a.peers[..|a.peers| - 1]))
      else |ps| == 512 && a.peers == ps && forall i :: 0 <= i < |ps| ==> ps[i].alive
  {
    hide IdOf;
    var a, k := PeerAdded(ps, p, key, now), FindEndpoint(ps, p);
    var victim := OldestDead(ps, |ps|);
    if k == |ps| && |ps| == MAX_PEERS && victim.Some? {
      var v := victim.value;
      assert a.peers[..|a.peers| - 1] == ps[..v] + ps[v + 1..];
      assert OneOut(ps, v, ps[..v] + ps[v + 1..]);
    }
  }

  /** `r` is `ps` without peer `v`, a dead one that no other dead peer was seen before. */
  ghost predicate OneOut(ps: seq<DhtPeer>, v: nat, r: seq<DhtPeer>) {
    && v < |ps| && !ps[v].alive && r == ps[..v] + ps[v + 1..]
    && forall i :: 0 <= i < |ps| && !ps[i].alive ==> ps[v].lastSeen <= ps[i].lastSeen
  }

  ghost predicate LostOne(ps: seq<DhtPeer>, r: seq<DhtPeer>) { exists v: nat :: OneOut(ps, v, r) }

  lemma RefreshKeepsLive(ps: seq<DhtPeer>, k: nat, key: Option<seq<byte>>, now: u64, q: Peer)
    requires WellFormed(ps) && k < |ps|
    ensures WellFormed(ps[k := Refreshed(ps[k], key, now)])
    ensures Alive(ps, q) ==> Alive(ps[k := Refreshed(ps[k], key, now)], q)
  {
    hide IdOf;
    var r := ps[k := Refreshed(ps[k], key, now)];
    if Alive(ps, q) {
      var e :| e in ps && e.endpoint == q && e.alive;
      var i :| 0 <= i < |ps| && ps[i] == e;
      assert r[i] in r;
    }
  }

  // ----- nearest peers --------------------------------------------------------------

  datatype Ranked = Ranked(dist: nat, slot: nat)

  function RankOf(ps: seq<DhtPeer>, target: u64, i: nat): Ranked
    requires i < |ps|
  {
    Ranked(Xor(target, ps[i].id), i)
  }

  function LiveSlots(ps: seq<DhtPeer>): set<nat> { set i: nat | i < |ps| && ps[i].alive }

  /** Every live peer with its distance, in table order. */
  function Ranks(ps: seq<DhtPeer>, target: u64): seq<Ranked> {
    if ps == [] then []
    else
      var front := Ranks(ps[..|ps| - 1], target);
      if ps[|ps| - 1].alive then front + [RankOf(ps, target, |ps| - 1)] else front
  }

  /** `order` ranks each live peer once. */
  ghost predicate Listing(ps: seq<DhtPeer>, target: u64, order: seq<Ranked>) {
    && (forall a, b :: 0 <= a < b < |order| ==> order[a].slot != order[b].slot)
    && (forall a :: 0 <= a < |order| ==> order[a].slot < |ps| && ps[order[a].slot].alive
                                         && order[a] == RankOf(ps, target, order[a].slot))
    && (forall i :: 0 <= i < |ps| && ps[i].alive ==> RankOf(ps, target, i) in order)
  }

  lemma {:induction false} RanksListing(ps: seq<DhtPeer>, target: u64)
    ensures Listing(ps, target, Ranks(ps, target))
  {
    hide Xor;
    if ps != [] {
      RanksListing(ps[..|ps| - 1], target);
      var order, front := Ranks(ps, target), Ranks(ps[..|ps| - 1], target);
      forall a | 0 <= a < |front| ensures front[a] == RankOf(ps, target, front[a].slot) {}
      forall i | 0 <= i < |ps| && ps[i].alive ensures RankOf(ps, target, i) in order {
        if i < |ps| - 1 {
          assert RankOf(ps, target, i) == RankOf(ps[..|ps| - 1], target, i);
        } else {
          assert order[|order| - 1] == RankOf(ps, target, i);
        }
      }
    }
  }

  lemma {:induction false} RanksCount(ps: seq<DhtPeer>, target: u64)
    ensures |Ranks(ps, target)| == |LiveSlots(ps)| <= |ps|
  {
    if ps != [] {
      var front := ps[..|ps| - 1];
      RanksCount(front, target);
      var last: nat := |ps| - 1;
      if ps[last].alive {
        assert LiveSlots(ps) == LiveSlots(front) + {last};
      } else {
        assert LiveSlots(ps) == LiveSlots(front);
      }
    }
  }

  function Swapped<T>(s: seq<T>, i: nat, j: nat): seq<T>
    requires i < |s| && j < |s|
  {
    s[i := s[j]][j := s[i]]
  }

  lemma SwapKeepsListing(ps: seq<DhtPeer>, target: u64, s: seq<Ranked>, i: nat, j: nat)
    requires Listing(ps, target, s) && i < |s| && j < |s|
    ensures Listing(ps, target, Swapped(s, i, j))
  {
    hide RankOf;
    var r := Swapped(s, i, j);
    forall e | e in s ensures e in r {
      var k :| 0 <= k < |s| && s[k] == e;
      assert r[if k == i then j else if k == j then i else k] == e;
    }
  }

  /** What dht_closest_peers promises of the slots it picks: distinct live peers, nearest first,
      as many as asked for if there are that many, none left out that is nearer than one taken. */
  ghost predicate Closest(ps: seq<DhtPeer>, target: u64, max: nat, picks: seq<nat>) {
    && |picks| == (if |LiveSlots(ps)| < max then |LiveSlots(ps)| else max)
    && (forall a :: 0 <= a < |picks| ==> picks[a] < |ps| && ps[picks[a]].alive)
    && (forall a, b :: 0 <= a < b < |picks| ==>
          picks[a] != picks[b] && Xor(target, ps[picks[a]].id) <= Xor(target, ps[picks[b]].id))
    && (forall a, i :: 0 <= a < |picks| && 0 <= i < |ps| && ps[i].alive && i !in picks ==>
          Xor(target, ps[picks[a]].id) <= Xor(target, ps[i].id))
  }

  ghost predicate Ascending(s: seq<Ranked>) {
    forall a, b :: 0 <= a < b < |s| ==> s[a].dist <= s[b].dist
  }

  function Slots(s: seq<Ranked>): (r: seq<nat>)
    ensures |r| == |s| && forall a :: 0 <= a < |s| ==> r[a] == s[a].slot
  {
    seq(|s|, i requires 0 <= i < |s| => s[i].slot)
  }

  lemma InPicks(s: seq<Ranked>, max: nat, b: nat)
    requires b < max && b < |s|
    ensures s[b].slot in Slots(Take(s, max))
  {
    assert Slots(Take(s, max))[b] == s[b].slot;
  }

  lemma SortedIsClosest(ps: seq<DhtPeer>, target: u64, s: seq<Ranked>, max: nat)
    requires Listing(ps, target, s) && Ascending(s) && |s| == |LiveSlots(ps)|
    ensures Closest(ps, target, max, Slots(Take(s, max)))
  {
    hide Xor, LiveSlots;
    var picks := Slots(Take(s, max));
    forall a, i | 0 <= a < |picks| && 0 <= i < |ps| && ps[i].alive && i !in picks
      ensures Xor(target, ps[picks[a]].id) <= Xor(target, ps[i].id)
    {
      var b: nat :| b < |s| && s[b] == RankOf(ps, target, i);
      if b < max { InPicks(s, max, b); }
    }
  }

  ghost predicate DistinctIds(ps: seq<DhtPeer>) {
    forall i, j :: 0 <= i < j < |ps| && ps[i].alive && ps[j].alive ==> ps[i].id != ps[j].id
  }

  /** When live peers have distinct ids the answer is unique: ties do not exist. */
  lemma ClosestUnique(ps: seq<DhtPeer>, target: u64, max: nat, one: seq<nat>, other: seq<nat>)
    requires Closest(ps, target, max, one) && Closest(ps, target, max, other) && DistinctIds(ps)
    ensures one == other
  {
    hide LiveSlots, Xor;
    forall k | 0 <= k < |one| ensures one[k] == other[k] { SamePick(ps, target, max, one, other, k); }
  }

  lemma {:induction false} SamePick(ps: seq<DhtPeer>, target: u64, max: nat, one: seq<nat>, other: seq<nat>, k: nat)
    requires Closest(ps, target, max, one) && Closest(ps, target, max, other) && DistinctIds(ps) && k < |one|
    ensures |one| == |other| && one[k] == other[k]
    decreases k
  {
    hide LiveSlots, Xor;
    forall j | 0 <= j < k ensures one[j] == other[j] { SamePick(ps, target, max, one, other, j); }
    var a, b := one[k], other[k];
    NotNearer(ps, target, max, one, other, k);
    NotNearer(ps, target, max, other, one, k);
    DistanceIsAMetric(target, ps[a].id, ps[b].id);
  }

  lemma NotNearer(ps: seq<DhtPeer>, target: u64, max: nat, one: seq<nat>, other: seq<nat>, k: nat)
    requires Closest(ps, target, max, one) && Closest(ps, target, max, other) && |one| == |other| && k < |one|
    requires forall j :: 0 <= j < k ==> one[j] == other[j]
    ensures Xor(target, ps[other[k]].id) <= Xor(target, ps[one[k]].id)
  {
    hide LiveSlots, Xor;
    if one[k] in other {
      var j :| 0 <= j < |other| && other[j] == one[k];
      assert j >= k;
    }
  }

  // ----- the node -------------------------------------------------------------------

  const NO_PEER := DhtPeer(0, Peer(0, 0), None, 0, false)
  const NO_RECORD := DhtRecord(0, [], false)

  class DhtNode {
    const selfId: u64
    const peers: array<DhtPeer>
    var peerCount: nat
    const records: array<DhtRecord>
    var recordCount: nat

    ghost predicate Valid()
      reads this
    {
      && peers.Length == MAX_PEERS && peerCount <= MAX_PEERS
      && records.Length == MAX_RECORDS && recordCount <= MAX_RECORDS
    }

    ghost function PeerTable(): seq<DhtPeer>
      reads this, peers
      requires Valid()
    {
      peers[..peerCount]
    }

    ghost function RecordTable(): seq<DhtRecord>
      reads this, records
      requires Valid()
    {
      records[..recordCount]
    }

    /** dht_init. */
    constructor (id: u64)
      ensures Valid() && PeerTable() == [] && RecordTable() == [] && selfId == id
      ensures fresh(peers) && fresh(records)
    {
      selfId := id;
      peers := new DhtPeer[MAX_PEERS](_ => NO_PEER);
      records := new DhtRecord[MAX_RECORDS](_ => NO_RECORD);
      peerCount, recordCount := 0, 0;
    }

    method FindPeer(p: Peer) returns (i: nat)
      requires Valid()
      ensures i == FindEndpoint(PeerTable(), p)
    {
      i := 0;
      while i < peerCount && peers[i].endpoint != p
        invariant i <= peerCount
        invariant forall j :: 0 <= j < i ==> peers[j].endpoint != p
      {
        i := i + 1;
      }
      EndpointUnique(peers[..peerCount], p, i);
    }

    method FindOldestDead() returns (found: bool, oldest: nat)
      requires Valid()
      ensures OldestDead(PeerTable(), peerCount) == if found then Some(oldest) else None
    {
      found, oldest := false, 0;
      var oldestTime: u64 := U64 - 1;
      for i := 0 to peerCount
        invariant OldestDead(PeerTable(), i) == if found then Some(oldest) else None
        invariant found ==> oldest < i
        invariant oldestTime == if found then peers[oldest].lastSeen else U64 - 1
      {
        if !peers[i].alive && peers[i].lastSeen < oldestTime {
          oldestTime, oldest, found := peers[i].lastSeen, i, true;
        }
      }
    }

    /** The memmove over the dropped peer. */
    method DropPeer(v: nat)
      requires Valid() && v < peerCount
      modifies this`peerCount, peers
      ensures Valid() && PeerTable() == old(PeerTable())[..v] + old(PeerTable())[v + 1..]
    {
      for i := v to peerCount - 1
        invariant Valid() && peerCount == old(peerCount)
        invariant forall j :: 0 <= j < v || i < j < peerCount ==> peers[j] == old(peers[j])
        invariant forall j :: v <= j < i ==> peers[j] == old(peers[j + 1])
        invariant peers[i] == old(peers[i])
      {
        peers[i] := peers[i + 1];
      }
      peerCount := peerCount - 1;
    }

    /** dht_add_peer. */
    method AddPeer(p: Peer, key: Option<seq<byte>>, now: u64) returns (isNew: bool)
      requires Valid()
      modifies this`peerCount, peers
      ensures Valid() && Added(isNew, PeerTable()) == PeerAdded(old(PeerTable()), p, key, now)
    {
      hide IdOf, FindEndpoint, OldestDead;
      var id := IdFromAddr(p);
      var i := FindPeer(p);
      if i < peerCount {
        peers[i] := peers[i].(lastSeen := now, alive := true);
        if key.Some? && peers[i].key.None? { peers[i] := peers[i].(key := key); }
        return false;
      }
      if peerCount >= MAX_PEERS {
        var evicted, oldest := FindOldestDead();
        if !evicted { return false; }
        DropPeer(oldest);
      }
      peers[peerCount] := DhtPeer(id, p, key, now, true);
      peerCount := peerCount + 1;
      return true;
    }

    /** dht_closest_peers: the local order array, selection sort in place, copy out. */
    method ClosestPeers(target: u64, out: array<DhtPeer>, max: nat) returns (m: nat, ghost picks: seq<nat>)
      requires Valid() && max <= out.Length && out != peers
      modifies out
      ensures Closest(PeerTable(), target, max, picks) && m == |picks|
      ensures forall a :: 0 <= a < m ==> out[a] == PeerTable()[picks[a]]
      ensures forall a :: m <= a < out.Length ==> out[a] == old(out[a])
    {
      hide Xor, LiveSlots, Closest;
      var order, n := NearestFirst(target);
      m := if n < max then n else max;
      picks := Slots(Take(order[..n], max));
      assert forall a :: 0 <= a < m ==> order[..n][a] == order[a];
      CopyOut(order, m, out);
    }

    method CopyOut(order: array<Ranked>, m: nat, out: array<DhtPeer>)
      requires Valid() && m <= order.Length && m <= out.Length && out != peers
      requires forall a :: 0 <= a < m ==> order[a].slot < peerCount
      modifies out
      ensures forall a :: 0 <= a < m ==> out[a] == peers[order[a].slot]
      ensures forall a :: m <= a < out.Length ==> out[a] == old(out[a])
    {
      for i := 0 to m
        invariant forall a :: 0 <= a < i ==> out[a] == peers[order[a].slot]
        invariant forall a :: i <= a < out.Length ==> out[a] == old(out[a])
      {
        out[i] := peers[order[i].slot];
      }
    }

    /** The live peers, ranked and sorted. */
    method NearestFirst(target: u64) returns (order: array<Ranked>, n: nat)
      requires Valid()
      ensures fresh(order) && n <= order.Length
      ensures forall a :: 0 <= a < n ==> order[a].slot < peerCount
      ensures forall max: nat :: Closest(PeerTable(), target, max, Slots(Take(order[..n], max)))
    {
      hide Xor, LiveSlots, Closest, Ascending, RankOf, Ranks;
      order := new Ranked[MAX_PEERS](_ => Ranked(0, 0));
      n := Rank(target, order);
      RanksListing(PeerTable(), target);
      RanksCount(PeerTable(), target);
      SelectionSort(target, order, n);
      forall max: nat ensures Closest(PeerTable(), target, max, Slots(Take(order[..n], max))) {
        SortedIsClosest(PeerTable(), target, order[..n], max);
      }
      assert forall a :: 0 <= a < n ==> order[..n][a] == order[a];
    }

    /** Distances of the live peers. */
    method Rank(target: u64, order: array<Ranked>) returns (n: nat)
      requires Valid() && order.Length == MAX_PEERS
      modifies order
      ensures n <= peerCount && order[..n] == Ranks(PeerTable(), target)
    {
      hide Xor;
      n := 0;
      for i := 0 to peerCount
        invariant n <= i
        invariant order[..n] == Ranks(peers[..i], target)
      {
        assert peers[..i + 1][..i] == peers[..i];
        if peers[i].alive {
          order[n] := Ranked(Xor(target, peers[i].id), i);
          n := n + 1;
        }
      }
    }

    method SelectionSort(target: u64, order: array<Ranked>, n: nat)
      requires Valid() && n <= order.Length && Listing(PeerTable(), target, order[..n])
      modifies order
      ensures Listing(PeerTable(), target, order[..n]) && Ascending(order[..n])
    {
      hide Listing;
      for i := 0 to n
        invariant Listing(PeerTable(), target, order[..n])
        invariant forall a, b :: 0 <= a < b < n && a < i ==> order[a].dist <= order[b].dist
      {
        var best: nat := i;
        for j := i + 1 to n
          invariant i <= best < n
          invariant forall b :: i <= b < j ==> order[best].dist <= order[b].dist
        {
          if order[j].dist < order[best].dist { best := j; }
        }
        SwapKeepsListing(PeerTable(), target, order[..n], i, best);
        ghost var was := order[..n];
        order[i], order[best] := order[best], order[i];
        assert order[..n] == Swapped(was, i, best);
      }
    }

    /** find_record. */
    method FindRecord(hash: u64) returns (i: nat)
      requires Valid()
      ensures i == DhtRecords.FindRecord(RecordTable(), hash)
    {
      i := 0;
      while i < recordCount && !(records[i].used && records[i].hash == hash)
        invariant i <= recordCount
        invariant forall j :: 0 <= j < i ==> !(records[j].used && records[j].hash == hash)
      {
        i := i + 1;
      }
      FoundAt(records[..recordCount], hash, i);
    }

    /** find_record, or a new empty record if there is room. */
    method EnsureRecord(hash: u64) returns (i: nat)
      requires Valid()
      modifies this`recordCount, records
      ensures Valid() && RecordTable() == Ensured(old(RecordTable()), hash)
      ensures i == DhtRecords.FindRecord(RecordTable(), hash)
    {
      hide DhtRecords.FindRecord;
      i := FindRecord(hash);
      if i == recordCount && recordCount < MAX_RECORDS {
        records[recordCount] := DhtRecord(hash, [], true);
        recordCount := recordCount + 1;
        FoundLast(old(RecordTable()), hash);
        assert RecordTable() == old(RecordTable()) + [DhtRecord(hash, [], true)];
      }
    }

    /** dht_announce. */
    method Announce(hash: u64, p: Peer)
      requires Valid()
      modifies this`recordCount, records
      ensures Valid() && RecordTable() == DhtRecords.Announce(old(RecordTable()), hash, p)
    {
      hide DhtRecords.FindRecord, Ensured;
      var i := EnsureRecord(hash);
      if i == recordCount { return; }
      ghost var ready := RecordTable();
      assert ready[i] == records[i];
      for j := 0 to |records[i].holders|
        invariant p !in records[i].holders[..j]
      {
        if records[i].holders[j] == p { return; }
      }
      assert records[i].holders[..|records[i].holders|] == records[i].holders;
      if |records[i].holders| >= MAX_HOLDERS { return; }
      records[i] := records[i].(holders := records[i].holders + [p]);
      assert RecordTable() == ready[i := WithHolder(ready[i], p)];
    }

    /** dht_put_record. */
    method PutRecord(r: DhtRecord)
      requires Valid()
      modifies this`recordCount, records
      ensures Valid() && RecordTable() == DhtRecords.PutRecord(old(RecordTable()), r)
    {
      hide DhtRecords.FindRecord, Ensured, DhtRecords.Announce;
      if !r.used { return; }
      var k := EnsureRecord(r.hash);
      if k == recordCount { return; }
      ghost var ready := RecordTable();
      for i := 0 to |r.holders|
        invariant Valid() && RecordTable() == AnnounceAll(ready, r.hash, r.holders[..i])
      {
        assert r.holders[..i + 1][..i] == r.holders[..i];
        Announce(r.hash, r.holders[i]);
      }
      assert r.holders[..|r.holders|] == r.holders;
    }

    /** dht_lookup. */
    method Lookup(hash: u64, outIp: array<u32>, outPort: array<u16>) returns (m: nat)
      requires Valid() && outIp.Length >= MAX_HOLDERS && outPort.Length >= MAX_HOLDERS
      modifies outIp, outPort
      ensures m == |DhtRecords.Lookup(RecordTable(), hash)|
      ensures forall a :: 0 <= a < m ==> Peer(outIp[a], outPort[a]) == DhtRecords.Lookup(RecordTable(), hash)[a]
    {
      hide DhtRecords.FindRecord;
      var k := FindRecord(hash);
      if k == recordCount { return 0; }
      var held := records[k].holders;
      m := if |held| < MAX_HOLDERS then |held| else MAX_HOLDERS;
      for i := 0 to m
        invariant forall a :: 0 <= a < i ==> Peer(outIp[a], outPort[a]) == held[a]
      {
        outIp[i], outPort[i] := held[i].ip, held[i].port;
      }
    }
  }

  lemma {:induction false} FoundLast(rs: seq<DhtRecord>, hash: u64)
    requires FindRecord(rs, hash) == |rs|
    ensures FindRecord(rs + [DhtRecord(hash, [], true)], hash) == |rs|
  {
    var more := rs + [DhtRecord(hash, [], true)];
    forall j | 0 <= j < |rs| ensures !(more[j].used && more[j].hash == hash) { assert more[j] == rs[j]; }
    FoundAt(more, hash, |rs|);
  }

  lemma {:induction false} EndpointUnique(ps: seq<DhtPeer>, p: Peer, i: nat)
    requires i <= |ps| && forall j :: 0 <= j < i ==> ps[j].endpoint != p
    requires i < |ps| ==> ps[i].endpoint == p
    ensures FindEndpoint(ps, p) == i
  {
    if i > 0 { EndpointUnique(ps[1..], p, i - 1); }
  }
}
