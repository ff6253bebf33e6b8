/** The peer table and the forwarding table of the mesh (mesh.c), which refer to each other by
    index, as operations on sequences; what every operation keeps. */
module MeshTables {
  import opened Bytes
  import opened Names
  import opened Fib

  const MAX_MESH_PEERS: nat := 32
  const MAX_FIB: nat := 128
  const MAX_PREFIXES: nat := 16
  const PEER_TIMEOUT_MS: nat := 15000
  const BEACON_INTERVAL_MS: u32 := 5000

  datatype PeerStatus = Discovered | Connected

  datatype MeshPeer = MeshPeer(name: seq<seq<byte>>, addr: Peer, status: PeerStatus, lastSeen: u64,
                               prefixes: seq<seq<seq<byte>>>)

  datatype FibRow = FibRow(prefix: Name, peerIndex: nat, lifetimeMs: u32, createdAt: u64)

  datatype Tables = Tables(peers: seq<MeshPeer>, fib: seq<FibRow>)

  /** A route with its peer looked up. */
  datatype Resolved = Resolved(prefix: Name, peer: MeshPeer, lifetimeMs: u32, createdAt: u64)

  ghost predicate InRange(fib: seq<FibRow>, n: nat) {
    forall i :: 0 <= i < |fib| ==> fib[i].peerIndex < n
  }

  function Resolve(peers: seq<MeshPeer>, fib: seq<FibRow>): (r: seq<Resolved>)
    requires InRange(fib, |peers|)
    ensures |r| == |fib|
  {
    if fib == [] then []
    else
      var f := fib[|fib| - 1];
      Resolve(peers, fib[..|fib| - 1]) + [Resolved(f.prefix, peers[f.peerIndex], f.lifetimeMs, f.createdAt)]
  }

  /** Each (prefix, peer) pair at most once. */
  ghost predicate DistinctPairs(fib: seq<FibRow>) {
    forall i, j :: 0 <= i < j < |fib| ==>
      !(NameEqual(fib[i].prefix, fib[j].prefix) && fib[i].peerIndex == fib[j].peerIndex)
  }

  ghost predicate Consistent(t: Tables) {
    && |t.peers| <= MAX_MESH_PEERS && |t.fib| <= MAX_FIB
    && InRange(t.fib, |t.peers|) && DistinctPairs(t.fib)
  }

  // ----- operations -----------------------------------------------------------------

  function RemoveAt<T>(s: seq<T>, i: nat): seq<T>
    requires i < |s|
  {
    s[..i] + s[i + 1..]
  }

  /** The rows that do not lead to peer `p`. */
  function Without(fib: seq<FibRow>, p: nat): seq<FibRow> {
    if fib == [] then []
    else Without(fib[..|fib| - 1], p) + if fib[|fib| - 1].peerIndex == p then [] else [fib[|fib| - 1]]
  }

  function Lowered(f: FibRow, p: nat): FibRow {
    if f.peerIndex > p then f.(peerIndex := f.peerIndex - 1) else f
  }

  function Renumber(fib: seq<FibRow>, p: nat): (r: seq<FibRow>)
    ensures |r| == |fib| && forall i :: 0 <= i < |fib| ==> r[i] == Lowered(fib[i], p)
  {
    seq(|fib|, i requires 0 <= i < |fib| => Lowered(fib[i], p))
  }

  function RemovePeer(t: Tables, p: nat): Tables {
    if p >= |t.peers| then t
    else Tables(RemoveAt(t.peers, p), Renumber(Without(t.fib, p), p))
  }

  predicate TimedOut(p: MeshPeer, now: u64) {
    (now - p.lastSeen) % U64 > PEER_TIMEOUT_MS
  }

  /** The loop of mesh_check_timeouts over the peers below `k`, highest first. */
  function Expire(t: Tables, k: nat, now: u64): Tables
    requires k <= |t.peers|
    decreases k
  {
    if k == 0 then t
    else if TimedOut(t.peers[k - 1], now) then Expire(RemovePeer(t, k - 1), k - 1, now)
    else Expire(t, k - 1, now)
  }

  /** Index of the row with this prefix and peer, or the number of rows. */
  function FindRow(fib: seq<FibRow>, prefix: Name, peer: nat): (k: nat)
    ensures k <= |fib|
    ensures forall j :: 0 <= j < k ==> !(NameEqual(fib[j].prefix, prefix) && fib[j].peerIndex == peer)
    ensures k < |fib| ==> NameEqual(fib[k].prefix, prefix) && fib[k].peerIndex == peer
  {
    if fib == [] || (NameEqual(fib[0].prefix, prefix) && fib[0].peerIndex == peer) then 0
    else 1 + FindRow(fib[1..], prefix, peer)
  }

  predicate CanAdd(t: Tables, peer: nat) { peer < |t.peers| && |t.fib| < MAX_FIB }

  function AddRow(t: Tables, prefix: Name, peer: nat, lifetimeMs: u32, now: u64): Tables {
    if !CanAdd(t, peer) then t
    else
      var k := FindRow(t.fib, prefix, peer);
      if k < |t.fib| then t.(fib := t.fib[k := t.fib[k].(lifetimeMs := lifetimeMs, createdAt := now)])
      else t.(fib := t.fib + [FibRow(prefix, peer, lifetimeMs, now)])
  }

  predicate Outlived(f: FibRow, now: u64) {
    f.lifetimeMs > 0 && (now - f.createdAt) % U64 > f.lifetimeMs
  }

  /** The rows mesh_fib_prune keeps. */
  function Current(fib: seq<FibRow>, now: u64): seq<FibRow> {
    if fib == [] then []
    else Current(fib[..|fib| - 1], now) + if Outlived(fib[|fib| - 1], now) then [] else [fib[|fib| - 1]]
  }

  /** mesh_peer_name_to_string into 256 bytes: "/" and the components, cut to 255 bytes. */
  function PeerText(p: MeshPeer): seq<byte> {
    if p.name == [] then [] else Take([SLASH] + Join(p.name, SLASH), 255)
  }

  /** parse_name: at most 16 fields, each cut to 63 bytes. */
  function Clipped(fields: seq<seq<byte>>): (r: seq<seq<byte>>)
    ensures |r| == |fields| && forall i :: 0 <= i < |r| ==> r[i] == Take(fields[i], MAX_COMPONENT - 1)
  {
    seq(|fields|, i requires 0 <= i < |fields| => Take(fields[i], MAX_COMPONENT - 1))
  }

  function ParsedName(text: seq<byte>): seq<seq<byte>> {
    Clipped(Take(Fields(Body(text), SLASH), MAX_COMPONENTS))
  }

  /** Index of the first peer that prints as `name`, or the number of peers. */
  function FindPeer(peers: seq<MeshPeer>, name: seq<byte>): (k: nat)
    ensures k <= |peers| && forall j :: 0 <= j < k ==> PeerText(peers[j]) != name
    ensures k < |peers| ==> PeerText(peers[k]) == name
  {
    if peers == [] || PeerText(peers[0]) == name then 0 else 1 + FindPeer(peers[1..], name)
  }

  function AddPeer(t: Tables, name: seq<byte>, addr: Peer, now: u64): Tables {
    if |t.peers| >= MAX_MESH_PEERS then t
    else
      var k := FindPeer(t.peers, name);
      if k < |t.peers|
      then t.(peers := t.peers[k := t.peers[k].(addr := addr, lastSeen := now, status := Connected)])
      else t.(peers := t.peers + [MeshPeer(ParsedName(name), addr, Discovered, now, [])])
  }

  function Seen(t: Tables, p: nat, now: u64): Tables {
    if p >= |t.peers| then t
    else t.(peers := t.peers[p := t.peers[p].(lastSeen := now, status := Connected)])
  }

  // ----- routes survive the index shifts --------------------------------------------

  lemma {:induction false} WithoutInRange(fib: seq<FibRow>, p: nat, n: nat)
    requires InRange(fib, n)
    ensures InRange(Without(fib, p), n) && |Without(fib, p)| <= |fib|
    ensures forall i :: 0 <= i < |Without(fib, p)| ==> Without(fib, p)[i].peerIndex != p
  {
    if fib != [] { WithoutInRange(fib[..|fib| - 1], p, n); }
  }

  lemma RenumberInRange(fib: seq<FibRow>, p: nat, n: nat)
    requires InRange(fib, n) && p < n
    requires forall i :: 0 <= i < |fib| ==> fib[i].peerIndex != p
    ensures InRange(Renumber(fib, p), n - 1)
  {
  }

  lemma {:induction false} RenumberResolves(peers: seq<MeshPeer>, fib: seq<FibRow>, p: nat)
    requires InRange(fib, |peers|) && p < |peers| && InRange(Renumber(fib, p), |peers| - 1)
    requires forall i :: 0 <= i < |fib| ==> fib[i].peerIndex != p
    ensures Resolve(RemoveAt(peers, p), Renumber(fib, p)) == Resolve(peers, fib)
  {
    if fib != [] {
      var n := |fib| - 1;
      assert Renumber(fib, p)[..n] == Renumber(fib[..n], p);
      RenumberResolves(peers, fib[..n], p);
      assert Renumber(fib, p)[n] == Lowered(fib[n], p);
    }
  }

  /** mesh_remove_peer leaves exactly the other peers' routes, each with the peer it had, in
      order. */
  lemma {:induction false} RemovePeerKeepsRoutes(t: Tables, p: nat)
    requires InRange(t.fib, |t.peers|) && p < |t.peers|
    ensures var r := RemovePeer(t, p);
            InRange(r.fib, |r.peers|) && InRange(Without(t.fib, p), |t.peers|)
            && Resolve(r.peers, r.fib) == Resolve(t.peers, Without(t.fib, p))
  {
    WithoutInRange(t.fib, p, |t.peers|);
    RenumberInRange(Without(t.fib, p), p, |t.peers|);
    RenumberResolves(t.peers, Without(t.fib, p), p);
  }

  function LivePeers(peers: seq<MeshPeer>, now: u64): seq<MeshPeer> {
    if peers == [] then []
    else LivePeers(peers[..|peers| - 1], now)
         + if TimedOut(peers[|peers| - 1], now) then [] else [peers[|peers| - 1]]
  }

  function LiveRoutes(rs: seq<Resolved>, now: u64): seq<Resolved> {
    if rs == [] then []
    else LiveRoutes(rs[..|rs| - 1], now)
         + if TimedOut(rs[|rs| - 1].peer, now) then [] else [rs[|rs| - 1]]
  }

  function ResolveRow(f: FibRow, peers: seq<MeshPeer>): Resolved
    requires f.peerIndex < |peers|
  {
    Resolved(f.prefix, peers[f.peerIndex], f.lifetimeMs, f.createdAt)
  }

  /** The routes that are left once the timed-out peers below `k` are gone. */
  function Surviving(fib: seq<FibRow>, peers: seq<MeshPeer>, k: nat, now: u64): seq<Resolved>
    requires InRange(fib, |peers|)
  {
    if fib == [] then []
    else
      var f := fib[|fib| - 1];
      Surviving(fib[..|fib| - 1], peers, k, now)
      + if f.peerIndex < k && TimedOut(peers[f.peerIndex], now) then [] else [ResolveRow(f, peers)]
  }

  lemma SurvivingSnoc(fib: seq<FibRow>, f: FibRow, peers: seq<MeshPeer>, k: nat, now: u64)
    requires InRange(fib, |peers|) && f.peerIndex < |peers|
    ensures InRange(fib + [f], |peers|)
    ensures Surviving(fib + [f], peers, k, now)
            == Surviving(fib, peers, k, now)
               + if f.peerIndex < k && TimedOut(peers[f.peerIndex], now) then [] else [ResolveRow(f, peers)]
  {
    assert (fib + [f])[..|fib|] == fib;
  }

  lemma RenumberSnoc(fib: seq<FibRow>, f: FibRow, p: nat)
    ensures Renumber(fib + [f], p) == Renumber(fib, p) + [Lowered(f, p)]
  {
  }

  lemma WithoutSnoc(fib: seq<FibRow>, f: FibRow, p: nat)
    ensures Without(fib + [f], p) == Without(fib, p) + if f.peerIndex == p then [] else [f]
  {
    assert (fib + [f])[..|fib|] == fib;
  }

  lemma LoweredRow(f: FibRow, peers: seq<MeshPeer>, p: nat)
    requires f.peerIndex < |peers| && p < |peers| && f.peerIndex != p
    ensures var g, rest := Lowered(f, p), RemoveAt(peers, p);
            g.peerIndex < |rest| && ResolveRow(g, rest) == ResolveRow(f, peers)
            && rest[g.peerIndex] == peers[f.peerIndex]
            && (g.peerIndex < p <==> f.peerIndex < p + 1)
  {
  }

  /** Removing a timed-out peer and then the ones below it is removing them all at once. */
  lemma {:induction false} SurvivingShift(fib: seq<FibRow>, peers: seq<MeshPeer>, p: nat, now: u64)
    requires InRange(fib, |peers|) && p < |peers| && TimedOut(peers[p], now)
    ensures var rest, rows := RemoveAt(peers, p), Renumber(Without(fib, p), p);
            InRange(rows, |rest|)
            && Surviving(rows, rest, p, now) == Surviving(fib, peers, p + 1, now)
  {
    WithoutInRange(fib, p, |peers|);
    RenumberInRange(Without(fib, p), p, |peers|);
    if fib != [] {
      var n := |fib| - 1;
      var front, f := fib[..n], fib[n];
      SurvivingShift(front, peers, p, now);
      assert fib == front + [f];
      WithoutSnoc(front, f, p);
      SurvivingSnoc(front, f, peers, p + 1, now);
      hide Surviving, Without, Renumber, RemoveAt, TimedOut, Lowered;
      if f.peerIndex == p {
        assert Without(front, p) + [] == Without(front, p);
        assert Surviving(front, peers, p + 1, now) + [] == Surviving(front, peers, p + 1, now);
      } else {
        LoweredRow(f, peers, p);
        RenumberSnoc(Without(front, p), f, p);
        SurvivingSnoc(Renumber(Without(front, p), p), Lowered(f, p), RemoveAt(peers, p), p, now);
      }
    }
  }

  lemma {:induction false} SurvivingNone(fib: seq<FibRow>, peers: seq<MeshPeer>, now: u64)
    requires InRange(fib, |peers|)
    ensures Surviving(fib, peers, 0, now) == Resolve(peers, fib)
  {
    if fib != [] { SurvivingNone(fib[..|fib| - 1], peers, now); }
  }

  lemma {:induction false} SurvivingAll(fib: seq<FibRow>, peers: seq<MeshPeer>, now: u64)
    requires InRange(fib, |peers|)
    ensures Surviving(fib, peers, |peers|, now) == LiveRoutes(Resolve(peers, fib), now)
  {
    if fib != [] {
      var n := |fib| - 1;
      SurvivingAll(fib[..n], peers, now);
      assert Resolve(peers, fib)[..n] == Resolve(peers, fib[..n]);
    }
  }

  lemma SurvivingAbove(fib: seq<FibRow>, peers: seq<MeshPeer>, k: nat, now: u64)
    requires InRange(fib, |peers|) && k < |peers| && !TimedOut(peers[k], now)
    ensures Surviving(fib, peers, k + 1, now) == Surviving(fib, peers, k, now)
  {
    if fib != [] { SurvivingAbove(fib[..|fib| - 1], peers, k, now); }
  }

  lemma {:induction false} ExpireRoutes(t: Tables, k: nat, now: u64)
    requires InRange(t.fib, |t.peers|) && k <= |t.peers|
    ensures var r := Expire(t, k, now);
            InRange(r.fib, |r.peers|)
            && Resolve(r.peers, r.fib) == Surviving(t.fib, t.peers, k, now)
    decreases k
  {
    if k == 0 {
      SurvivingNone(t.fib, t.peers, now);
    } else {
      hide Surviving, Resolve, Without, Renumber, RemoveAt;
      if TimedOut(t.peers[k - 1], now) {
        SurvivingShift(t.fib, t.peers, k - 1, now);
        ExpireRoutes(RemovePeer(t, k - 1), k - 1, now);
      } else {
        SurvivingAbove(t.fib, t.peers, k - 1, now);
        ExpireRoutes(t, k - 1, now);
      }
    }
  }

  lemma LivePeersStep(peers: seq<MeshPeer>, k: nat, now: u64)
    requires 0 < k <= |peers|
    ensures LivePeers(peers[..k], now)
            == LivePeers(peers[..k - 1], now) + if TimedOut(peers[k - 1], now) then [] else [peers[k - 1]]
  {
    assert peers[..k][..k - 1] == peers[..k - 1];
  }

  lemma {:induction false} ExpirePeers(t: Tables, k: nat, now: u64)
    requires k <= |t.peers|
    ensures Expire(t, k, now).peers == LivePeers(t.peers[..k], now) + t.peers[k..]
    decreases k
  {
    if k == 0 {
      assert t.peers[..0] == [] && t.peers[0..] == t.peers;
    } else {
      LivePeersStep(t.peers, k, now);
      hide LivePeers;
      if TimedOut(t.peers[k - 1], now) {
        var r := RemovePeer(t, k - 1);
        ExpirePeers(r, k - 1, now);
        assert r.peers[..k - 1] == t.peers[..k - 1] && r.peers[k - 1..] == t.peers[k..];
      } else {
        ExpirePeers(t, k - 1, now);
        assert t.peers[k - 1..] == [t.peers[k - 1]] + t.peers[k..];
      }
    }
  }

  /** mesh_check_timeouts leaves exactly the peers that have not timed out and exactly the routes
      to them, in order, each with the peer it had. */
  lemma {:induction false} TimeoutsKeepLiveRoutes(t: Tables, now: u64)
    requires InRange(t.fib, |t.peers|)
    ensures var r := Expire(t, |t.peers|, now);
            InRange(r.fib, |r.peers|) && r.peers == LivePeers(t.peers, now)
            && Resolve(r.peers, r.fib) == LiveRoutes(Resolve(t.peers, t.fib), now)
  {
    ExpireRoutes(t, |t.peers|, now);
    SurvivingAll(t.fib, t.peers, now);
    ExpirePeers(t, |t.peers|, now);
    assert t.peers[..|t.peers|] == t.peers;
  }

  // ----- what every operation keeps -------------------------------------------------

  /** `r` lists some rows of `fib` in their order. */
  ghost predicate PickedBy(r: seq<FibRow>, fib: seq<FibRow>, at: seq<nat>) {
    && |at| == |r| && (forall i, j :: 0 <= i < j < |at| ==> at[i] < at[j])
    && forall i :: 0 <= i < |r| ==> at[i] < |fib| && r[i] == fib[at[i]]
  }

  lemma PickedDistinct(r: seq<FibRow>, fib: seq<FibRow>, at: seq<nat>, n: nat)
    requires PickedBy(r, fib, at) && DistinctPairs(fib) && InRange(fib, n)
    ensures DistinctPairs(r) && InRange(r, n)
  {
  }

  lemma PickedMore(r: seq<FibRow>, front: seq<FibRow>, f: FibRow, at: seq<nat>)
    requires PickedBy(r, front, at)
    ensures PickedBy(r, front + [f], at)
    ensures PickedBy(r + [f], front + [f], at + [|front|])
  {
  }

  lemma {:induction false} WithoutPicks(fib: seq<FibRow>, p: nat) returns (at: seq<nat>)
    ensures PickedBy(Without(fib, p), fib, at) && |Without(fib, p)| <= |fib|
  {
    if fib == [] {
      at := [];
    } else {
      var front, f := fib[..|fib| - 1], fib[|fib| - 1];
      at := WithoutPicks(front, p);
      assert fib == front + [f] && Without(front, p) + [] == Without(front, p);
      hide PickedBy;
      PickedMore(Without(front, p), front, f, at);
      if f.peerIndex != p { at := at + [|front|]; }
    }
  }

  lemma {:induction false} CurrentPicks(fib: seq<FibRow>, now: u64) returns (at: seq<nat>)
    ensures PickedBy(Current(fib, now), fib, at) && |Current(fib, now)| <= |fib|
  {
    if fib == [] {
      at := [];
    } else {
      var front, f := fib[..|fib| - 1], fib[|fib| - 1];
      at := CurrentPicks(front, now);
      assert fib == front + [f] && Current(front, now) + [] == Current(front, now);
      hide PickedBy, Outlived;
      PickedMore(Current(front, now), front, f, at);
      if !Outlived(f, now) { at := at + [|front|]; }
    }
  }

  lemma RemovePeerConsistent(t: Tables, p: nat)
    requires Consistent(t)
    ensures Consistent(RemovePeer(t, p))
  {
    if p < |t.peers| {
      var at := WithoutPicks(t.fib, p);
      PickedDistinct(Without(t.fib, p), t.fib, at, |t.peers|);
      WithoutInRange(t.fib, p, |t.peers|);
      RenumberInRange(Without(t.fib, p), p, |t.peers|);
      hide Without;
    }
  }

  lemma {:induction false} ExpireConsistent(t: Tables, k: nat, now: u64)
    requires Consistent(t) && k <= |t.peers|
    ensures Consistent(Expire(t, k, now))
    decreases k
  {
    if k > 0 {
      RemovePeerConsistent(t, k - 1);
      hide Consistent, TimedOut, Without, Renumber;
      if TimedOut(t.peers[k - 1], now) {
        ExpireConsistent(RemovePeer(t, k - 1), k - 1, now);
      } else {
        ExpireConsistent(t, k - 1, now);
      }
    }
  }

  lemma AddRowConsistent(t: Tables, prefix: Name, peer: nat, life: u32, now: u64)
    requires Consistent(t)
    ensures Consistent(AddRow(t, prefix, peer, life, now))
  {
  }

  datatype TableOp =
    | AddsPeer(name: seq<byte>, addr: Peer)
    | RemovesPeer(peer: nat)
    | SeesPeer(peer: nat)
    | ChecksTimeouts
    | AddsRow(prefix: Name, peer: nat, lifetimeMs: u32)
    | RemovesRow(row: nat)
    | Prunes

  function Apply(t: Tables, op: TableOp, now: u64): Tables {
    match op
    case AddsPeer(name, addr) => AddPeer(t, name, addr, now)
    case RemovesPeer(p) => RemovePeer(t, p)
    case SeesPeer(p) => Seen(t, p, now)
    case ChecksTimeouts => Expire(t, |t.peers|, now)
    case AddsRow(prefix, p, life) => AddRow(t, prefix, p, life, now)
    case RemovesRow(i) => if i < |t.fib| then t.(fib := RemoveAt(t.fib, i)) else t
    case Prunes => t.(fib := Current(t.fib, now))
  }

  function ApplyAll(ops: seq<(TableOp, u64)>): Tables {
    if ops == [] then Tables([], [])
    else Apply(ApplyAll(ops[..|ops| - 1]), ops[|ops| - 1].0, ops[|ops| - 1].1)
  }

  lemma ApplyConsistent(t: Tables, op: TableOp, now: u64)
    requires Consistent(t)
    ensures Consistent(Apply(t, op, now))
  {
    match op
    case AddsPeer(name, addr) => hide FindPeer, ParsedName, DistinctPairs;
    case RemovesPeer(p) => RemovePeerConsistent(t, p);
    case SeesPeer(p) =>
    case ChecksTimeouts => ExpireConsistent(t, |t.peers|, now);
    case AddsRow(prefix, p, life) => AddRowConsistent(t, prefix, p, life, now);
    case RemovesRow(i) =>
    case Prunes =>
      var at := CurrentPicks(t.fib, now);
      PickedDistinct(Current(t.fib, now), t.fib, at, |t.peers|);
  }

  /** After any sequence of table operations at any times, every row's peer index is in range and
      no (prefix, peer) pair occurs twice. */
  lemma {:induction false} TablesStayConsistent(ops: seq<(TableOp, u64)>)
    ensures Consistent(ApplyAll(ops))
  {
    if ops != [] {
      TablesStayConsistent(ops[..|ops| - 1]);
      hide Consistent, Apply;
      ApplyConsistent(ApplyAll(ops[..|ops| - 1]), ops[|ops| - 1].0, ops[|ops| - 1].1);
    }
  }
}
