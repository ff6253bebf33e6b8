/** mesh_ctx: the peer and forwarding arrays, shifted in place. */
module Mesh {
  import opened Bytes
  import opened Names
  import opened Fib
  import opened MeshTables

  const NO_PEER := MeshPeer([], Peer(0, 0), Discovered, 0, [])
  const NO_ROW := FibRow(EMPTY_NAME, 0, 0, 0)

  /** The shifting loop: what is behind slot `i` moves down by one. */
  method ShiftDown<T>(a: array<T>, i: nat, count: nat)
    requires i < count <= a.Length
    modifies a
    ensures a[..count - 1] == RemoveAt(old(a[..count]), i)
  {
    ghost var was := a[..count];
    var k := i;
    while k < count - 1
      invariant i <= k < count
      invariant a[..i] == was[..i]
      invariant forall j :: i <= j < k ==> a[j] == was[j + 1]
      invariant forall j :: k <= j < count ==> a[j] == was[j]
    {
      assert a[k + 1] == was[k + 1];
      a[k] := a[k + 1];
      k := k + 1;
    }
    assert forall j :: i <= j < count - 1 ==> a[j] == was[j + 1];
    assert a[..count - 1] == a[..i] + a[i..count - 1];
    assert a[i..count - 1] == was[i + 1..];
  }

  /** mesh_peer_name_to_string into 256 bytes. */
  method PeerNameText(p: MeshPeer) returns (text: seq<byte>)
    ensures text == PeerText(p)
  {
    if p.name == [] { return []; }
    text := [SLASH];
    var i := 0;
    assert Take([SLASH] + Join(p.name[..0], SLASH), 255) == [SLASH];
    hide Join, Take;
    while i < |p.name| && |text| < 255
      invariant i <= |p.name| && text == Take([SLASH] + Join(p.name[..i], SLASH), 255)
    {
      JoinNext(p.name, i);
      TextGrows(Join(p.name[..i], SLASH), if i > 0 then [SLASH] else [], p.name[i]);
      if i > 0 && |text| < 255 { text := text + [SLASH]; }
      text := text + Take(p.name[i], 255 - |text|);
      i := i + 1;
    }
    if i < |p.name| {
      JoinGrows(p.name, i);
      FullText(Join(p.name[..i], SLASH), Join(p.name, SLASH));
    }
    assert p.name[..|p.name|] == p.name;
  }

  lemma TextGrows(j: seq<byte>, sep: seq<byte>, c: seq<byte>)
    requires |Take([SLASH] + j, 255)| < 255 && |sep| <= 1
    ensures var text := Take([SLASH] + j, 255) + sep;
      |text| <= 255 && text + Take(c, 255 - |text|) == Take([SLASH] + (j + sep + c), 255)
    ensures |sep| == 0 ==> Take([SLASH] + j, 255) + sep == Take([SLASH] + j, 255)
  {
    assert [SLASH] + (j + sep + c) == [SLASH] + j + sep + c;
  }

  lemma FullText(j: seq<byte>, k: seq<byte>)
    requires |Take([SLASH] + j, 255)| >= 255 && j <= k
    ensures Take([SLASH] + j, 255) == Take([SLASH] + k, 255)
  {
    assert [SLASH] + j <= [SLASH] + k;
  }

  lemma JoinNext(xs: seq<seq<byte>>, i: nat)
    requires i < |xs|
    ensures Join(xs[..i + 1], SLASH) == Join(xs[..i], SLASH) + (if i > 0 then [SLASH] else []) + xs[i]
  {
    assert xs[..i + 1] == xs[..i] + [xs[i]];
    if i > 0 { JoinSnoc(xs[..i], xs[i], SLASH); }
  }

  lemma {:induction false} JoinGrows(xs: seq<seq<byte>>, i: nat)
    requires i <= |xs|
    ensures Join(xs[..i], SLASH) <= Join(xs, SLASH)
    decreases |xs| - i
  {
    if i == |xs| {
      assert xs[..i] == xs;
    } else {
      JoinNext(xs, i);
      JoinGrows(xs, i + 1);
    }
  }

  /** parse_name. */
  method ParseNameText(text: seq<byte>) returns (r: seq<seq<byte>>)
    ensures r == ParsedName(text)
  {
    var s := Body(text);
    ghost var all := Fields(s, SLASH);
    ghost var done: seq<seq<byte>> := [];
    hide Fields;
    r := [];
    var p := 0;
    assert s[0..] == s;
    while p < |s| && |r| < MAX_COMPONENTS
      invariant p <= |s| && |r| == |done| <= MAX_COMPONENTS
      invariant r == Clipped(done) && all == done + Fields(s[p..], SLASH)
    {
      var start := p;
      p := SkipTo(s, p, SLASH);
      var c := s[start..p];
      FieldsNext(s, start, p, SLASH);
      hide Clipped, IndexOf;
      r := r + [Take(c, MAX_COMPONENT - 1)];
      ghost var next := if p < |s| then p + 1 else p;
      Assoc(done, [c], Fields(s[next..], SLASH));
      done := done + [c];
      if p < |s| { p := p + 1; }
    }
    if p == |s| { EmptyFields(s[p..], SLASH); }
    assert Take(all, MAX_COMPONENTS) == done;
  }

  lemma FieldsUnfold(t: seq<byte>, sep: byte)
    requires t != []
    ensures var k := IndexOf(t, sep);
            Fields(t, sep) == [t[..k]] + (if k == |t| then [] else Fields(t[k + 1..], sep))
  {
    hide IndexOf;
  }

  lemma FieldsNext(s: seq<byte>, start: nat, p: nat, sep: byte)
    requires start < |s| && start <= p <= |s| && p == start + IndexOf(s[start..], sep)
    ensures Fields(s[start..], sep)
            == [s[start..p]] + Fields(s[if p < |s| then p + 1 else p..], sep)
  {
    hide Fields, IndexOf;
    FieldsUnfold(s[start..], sep);
    assert s[start..][..p - start] == s[start..p];
    if p < |s| {
      assert s[start..][p - start + 1..] == s[p + 1..];
    } else {
      EmptyFields(s[p..], sep);
    }
  }

  lemma EmptyFields(s: seq<byte>, sep: byte)
    requires s == []
    ensures Fields(s, sep) == []
  {
  }

  class MeshCtx {
    const peers: array<MeshPeer>
    var peerCount: nat
    const fib: array<FibRow>
    var fibCount: nat

    ghost predicate Valid()
      reads this, peers, fib
    {
      && peers.Length == MAX_MESH_PEERS && peerCount <= MAX_MESH_PEERS
      && fib.Length == MAX_FIB && fibCount <= MAX_FIB
    }

    ghost function State(): Tables
      reads this, peers, fib
      requires Valid()
    {
      Tables(peers[..peerCount], fib[..fibCount])
    }

    /** mesh_init. */
    constructor ()
      ensures Valid() && State() == Tables([], []) && fresh(peers) && fresh(fib)
    {
      peers := new MeshPeer[MAX_MESH_PEERS](_ => NO_PEER);
      fib := new FibRow[MAX_FIB](_ => NO_ROW);
      peerCount, fibCount := 0, 0;
    }

    /** mesh_remove_fib: the rows behind move down by one. */
    method RemoveFib(i: nat)
      requires Valid()
      modifies this`fibCount, fib
      ensures Valid()
      ensures State() == if i < |old(State()).fib| then old(State()).(fib := RemoveAt(old(State()).fib, i))
                         else old(State())
    {
      if i >= fibCount { return; }
      ShiftDown(fib, i, fibCount);
      fibCount := fibCount - 1;
    }

    /** The first loop of mesh_remove_peer, from the last row to the first. */
    method DropRows(p: nat)
      requires Valid()
      modifies this`fibCount, fib
      ensures Valid() && State() == old(State()).(fib := Without(old(State()).fib, p))
    {
      ghost var was := fib[..fibCount];
      var i: nat := fibCount;
      assert was[i..] == [];
      while i > 0
        invariant Valid() && i <= |was| && i <= fibCount
        invariant fib[..fibCount] == was[..i] + Without(was[i..], p)
      {
        DropStep(was, i, p);
        hide Without, RemoveAt;
        assert fib[i - 1] == fib[..fibCount][i - 1];
        if fib[i - 1].peerIndex == p { RemoveFib(i - 1); }
        i := i - 1;
      }
      assert was[0..] == was;
    }

    /** mesh_remove_peer. */
    method RemovePeerAt(p: nat)
      requires Valid()
      modifies this`peerCount, this`fibCount, peers, fib
      ensures Valid() && State() == RemovePeer(old(State()), p)
    {
      if p >= peerCount { return; }
      DropRows(p);
      ghost var rest, rows := RemoveAt(peers[..peerCount], p), fib[..fibCount];
      hide Without, RemoveAt;
      ShiftDown(peers, p, peerCount);
      peerCount := peerCount - 1;
      for j := 0 to fibCount
        invariant Valid() && fibCount == |rows| && peerCount == |rest| && peers[..peerCount] == rest
        invariant forall m :: 0 <= m < j ==> fib[m] == Lowered(rows[m], p)
        invariant forall m :: j <= m < fibCount ==> fib[m] == rows[m]
      {
        if fib[j].peerIndex > p { fib[j] := fib[j].(peerIndex := fib[j].peerIndex - 1); }
      }
      assert fib[..fibCount] == Renumber(rows, p);
    }

    /** mesh_check_timeouts: the number of peers removed. */
    method CheckTimeouts(now: u64) returns (removed: nat)
      requires Valid()
      modifies this`peerCount, this`fibCount, peers, fib
      ensures Valid() && State() == Expire(old(State()), |old(State()).peers|, now)
      ensures removed == old(peerCount) - peerCount
    {
      removed := 0;
      var i: nat := peerCount;
      while i > 0
        invariant Valid() && i <= peerCount && removed == old(peerCount) - peerCount
        invariant Expire(State(), i, now) == Expire(old(State()), |old(State()).peers|, now)
      {
        ExpireUnfolds(State(), i, now);
        assert State().peers[i - 1] == peers[i - 1];
        hide Expire, RemovePeer, TimedOut;
        if TimedOut(peers[i - 1], now) {
          RemovePeerShrinks(State(), i - 1);
          RemovePeerAt(i - 1);
          removed := removed + 1;
        }
        i := i - 1;
      }
    }

    /** mesh_add_fib: renew the row of this prefix and peer, or append one. */
    method AddFib(prefix: Name, peer: nat, lifetimeMs: u32, now: u64) returns (ok: bool)
      requires Valid()
      modifies this`fibCount, fib
      ensures Valid() && State() == AddRow(old(State()), prefix, peer, lifetimeMs, now)
      ensures ok == CanAdd(old(State()), peer)
    {
      if peer >= peerCount || fibCount >= MAX_FIB { return false; }
      ghost var was := fib[..fibCount];
      var i := 0;
      while i < fibCount && !(NameEqual(fib[i].prefix, prefix) && fib[i].peerIndex == peer)
        invariant i <= fibCount
        invariant forall j :: 0 <= j < i ==> !(NameEqual(fib[j].prefix, prefix) && fib[j].peerIndex == peer)
      {
        i := i + 1;
      }
      assert i == FindRow(was, prefix, peer);
      if i < fibCount {
        fib[i] := fib[i].(lifetimeMs := lifetimeMs, createdAt := now);
        assert fib[..fibCount] == was[i := was[i].(lifetimeMs := lifetimeMs, createdAt := now)];
      } else {
        fib[fibCount] := FibRow(prefix, peer, lifetimeMs, now);
        fibCount := fibCount + 1;
        assert fib[..fibCount] == was + [FibRow(prefix, peer, lifetimeMs, now)];
      }
      ok := true;
    }

    /** mesh_fib_lookup: the index of a forwarding row, not of a peer. */
    method FibLookup(n: Name) returns (best: Option<nat>)
      requires Valid()
      ensures best == Route(RowPrefixes(State().fib), n)
    {
      ghost var ps := RowPrefixes(State().fib);
      best := None;
      var bestLen := 0;
      for i := 0 to fibCount
        invariant best == Best(ps, i, n)
        invariant bestLen == if best.Some? then |ps[best.value].components| else 0
      {
        if IsPrefix(fib[i].prefix, n) {
          var len := |fib[i].prefix.components|;
          if len > bestLen { bestLen, best := len, Some(i); }
        }
      }
    }

    /** mesh_fib_prune: the number of rows removed. */
    method Prune(now: u64) returns (removed: nat)
      requires Valid()
      modifies this`fibCount, fib
      ensures Valid() && State() == old(State()).(fib := Current(old(State()).fib, now))
      ensures removed == old(fibCount) - fibCount
    {
      hide Current, Outlived;
      removed := 0;
      ghost var was := fib[..fibCount];
      var i: nat := fibCount;
      assert was[i..] == [];
      NothingCurrent(was[i..], now);
      while i > 0
        invariant Valid() && i <= |was| && i <= fibCount && removed == old(fibCount) - fibCount
        invariant fib[..fibCount] == was[..i] + Current(was[i..], now)
      {
        PruneStep(was, i, now);
        assert fib[i - 1] == fib[..fibCount][i - 1];
        if Outlived(fib[i - 1], now) {
          RemoveFib(i - 1);
          removed := removed + 1;
        }
        i := i - 1;
      }
      assert was[0..] == was;
    }

    /** mesh_find_peer, with the number of peers for "not found". */
    method FindPeerNamed(name: seq<byte>) returns (i: nat)
      requires Valid()
      ensures i == FindPeer(peers[..peerCount], name)
    {
      hide PeerText;
      i := 0;
      while i < peerCount
        invariant i <= peerCount
        invariant forall j :: 0 <= j < i ==> PeerText(peers[j]) != name
      {
        var existing := PeerNameText(peers[i]);
        if existing == name { break; }
        i := i + 1;
      }
      FindPeerUnique(peers[..peerCount], name, i);
    }

    /** mesh_add_peer: the index of the peer, or nothing when the table is full. */
    method AddPeerNamed(name: seq<byte>, addr: Peer, now: u64) returns (index: Option<nat>)
      requires Valid()
      modifies this`peerCount, peers
      ensures Valid() && State() == AddPeer(old(State()), name, addr, now)
      ensures index == if |old(State()).peers| >= MAX_MESH_PEERS then None
                       else Some(FindPeer(old(State()).peers, name))
    {
      if peerCount >= MAX_MESH_PEERS { return None; }
      hide PeerText, ParsedName, FindPeer;
      ghost var was := peers[..peerCount];
      var i := FindPeerNamed(name);
      if i < peerCount {
        peers[i] := peers[i].(addr := addr, lastSeen := now, status := Connected);
        assert peers[..peerCount] == was[i := was[i].(addr := addr, lastSeen := now, status := Connected)];
      } else {
        var parsed := ParseNameText(name);
        peers[peerCount] := MeshPeer(parsed, addr, Discovered, now, []);
        peerCount := peerCount + 1;
        assert peers[..peerCount] == was + [MeshPeer(ParsedName(name), addr, Discovered, now, [])];
      }
      index := Some(i);
    }

    /** mesh_peer_seen. */
    method PeerSeen(p: nat, now: u64)
      requires Valid()
      modifies peers
      ensures Valid() && State() == Seen(old(State()), p, now)
    {
      if p >= peerCount { return; }
      ghost var was := peers[..peerCount];
      peers[p] := peers[p].(lastSeen := now, status := Connected);
      assert peers[..peerCount] == was[p := was[p].(lastSeen := now, status := Connected)];
    }
  }

  lemma DropLast(was: seq<FibRow>, i: nat, tail: seq<FibRow>)
    requires 0 < i <= |was|
    ensures RemoveAt(was[..i] + tail, i - 1) == was[..i - 1] + tail
    ensures was[..i] + tail == was[..i - 1] + ([was[i - 1]] + tail)
    ensures [] + tail == tail
  {
  }

  lemma DropStep(was: seq<FibRow>, i: nat, p: nat)
    requires 0 < i <= |was|
    ensures var now := was[..i] + Without(was[i..], p);
            now[i - 1] == was[i - 1]
            && (if was[i - 1].peerIndex == p then RemoveAt(now, i - 1) else now)
               == was[..i - 1] + Without(was[i - 1..], p)
  {
    WithoutCons(was, i - 1, p);
    DropLast(was, i, Without(was[i..], p));
    hide Without, RemoveAt;
  }

  lemma NothingCurrent(rows: seq<FibRow>, now: u64)
    ensures rows == [] ==> Current(rows, now) == []
  {
  }

  lemma PruneStep(was: seq<FibRow>, i: nat, now: u64)
    requires 0 < i <= |was|
    ensures var rows := was[..i] + Current(was[i..], now);
            rows[i - 1] == was[i - 1]
            && (if Outlived(was[i - 1], now) then RemoveAt(rows, i - 1) else rows)
               == was[..i - 1] + Current(was[i - 1..], now)
  {
    CurrentCons(was, i - 1, now);
    DropLast(was, i, Current(was[i..], now));
    hide Current, RemoveAt, Outlived;
  }

  lemma FindPeerUnique(ps: seq<MeshPeer>, name: seq<byte>, k: nat)
    requires k <= |ps| && forall j :: 0 <= j < k ==> PeerText(ps[j]) != name
    requires k < |ps| ==> PeerText(ps[k]) == name
    ensures FindPeer(ps, name) == k
  {
    hide PeerText;
  }

  function RowPrefixes(fib: seq<FibRow>): (r: seq<Name>)
    ensures |r| == |fib| && forall i :: 0 <= i < |fib| ==> r[i] == fib[i].prefix
  {
    seq(|fib|, i requires 0 <= i < |fib| => fib[i].prefix)
  }

  lemma ExpireUnfolds(t: Tables, k: nat, now: u64)
    requires 0 < k <= |t.peers|
    ensures Expire(t, k, now)
            == if TimedOut(t.peers[k - 1], now)
               then (RemovePeerShrinks(t, k - 1); Expire(RemovePeer(t, k - 1), k - 1, now))
               else Expire(t, k - 1, now)
  {
  }

  lemma RemovePeerShrinks(t: Tables, p: nat)
    requires p < |t.peers|
    ensures |RemovePeer(t, p).peers| == |t.peers| - 1
  {
  }

  lemma {:induction false} WithoutConcat(a: seq<FibRow>, b: seq<FibRow>, p: nat)
    ensures Without(a + b, p) == Without(a, p) + Without(b, p)
  {
    if b == [] {
      assert a + b == a;
    } else {
      assert (a + b)[..|a + b| - 1] == a + b[..|b| - 1];
      WithoutConcat(a, b[..|b| - 1], p);
    }
  }

  lemma WithoutCons(fib: seq<FibRow>, i: nat, p: nat)
    requires i < |fib|
    ensures Without(fib[i..], p)
            == (if fib[i].peerIndex == p then [] else [fib[i]]) + Without(fib[i + 1..], p)
  {
    WithoutConcat([fib[i]], fib[i + 1..], p);
    assert fib[i..] == [fib[i]] + fib[i + 1..];
    assert [fib[i]][..0] == [] && Without([fib[i]][..0], p) == [];
  }

  lemma {:induction false} CurrentConcat(a: seq<FibRow>, b: seq<FibRow>, now: u64)
    ensures Current(a + b, now) == Current(a, now) + Current(b, now)
  {
    if b == [] {
      assert a + b == a;
    } else {
      assert (a + b)[..|a + b| - 1] == a + b[..|b| - 1];
      CurrentConcat(a, b[..|b| - 1], now);
    }
  }

  lemma CurrentCons(fib: seq<FibRow>, i: nat, now: u64)
    requires i < |fib|
    ensures Current(fib[i..], now)
            == (if Outlived(fib[i], now) then [] else [fib[i]]) + Current(fib[i + 1..], now)
  {
    CurrentConcat([fib[i]], fib[i + 1..], now);
    assert fib[i..] == [fib[i]] + fib[i + 1..];
    assert [fib[i]][..0] == [] && Current([fib[i]][..0], now) == [];
  }
}
