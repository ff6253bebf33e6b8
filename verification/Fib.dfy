/** Longest-prefix routing: the search both forwarding tables use, and psirp_fib. */
module Fib {
  import opened Bytes
  import opened Names

  /** A UDP endpoint in network byte order. */
  datatype Peer = Peer(ip: u32, port: u16)

  /** Among the first `k` prefixes, the first of the longest non-empty ones that match. */
  function Best(ps: seq<Name>, k: nat, n: Name): (r: Option<nat>)
    requires k <= |ps|
    ensures r.Some? ==> r.value < k && IsPrefix(ps[r.value], n) && ps[r.value].components != []
    ensures forall j :: 0 <= j < k && IsPrefix(ps[j], n) && ps[j].components != [] ==>
              r.Some? && |ps[j].components| <= |ps[r.value].components|
              && (|ps[j].components| == |ps[r.value].components| ==> r.value <= j)
  {
    if k == 0 then None
    else
      var best := Best(ps, k - 1, n);
      var len := if best.Some? then |ps[best.value].components| else 0;
      if IsPrefix(ps[k - 1], n) && |ps[k - 1].components| > len then Some(k - 1) else best
  }

  function Route(ps: seq<Name>, n: Name): (r: Option<nat>)
    ensures r.Some? ==> r.value < |ps|
  {
    Best(ps, |ps|, n)
  }

  /** The winner is the earliest entry carrying the longest non-empty prefix of the name, and
      there is none exactly when no non-empty prefix matches. */
  lemma RouteIsLongest(ps: seq<Name>, n: Name, i: nat)
    requires i < |ps|
    ensures Route(ps, n) == Some(i) <==>
              IsPrefix(ps[i], n) && ps[i].components != []
              && (forall j :: 0 <= j < |ps| && IsPrefix(ps[j], n) ==> |ps[j].components| <= |ps[i].components|)
              && (forall j :: 0 <= j < i ==> ps[j].components != ps[i].components)
    ensures Route(ps, n).None? <==> forall j :: 0 <= j < |ps| && IsPrefix(ps[j], n) ==> ps[j].components == []
  {
    var r := Route(ps, n);
    forall j | 0 <= j < |ps| && IsPrefix(ps[j], n) && |ps[j].components| == |ps[i].components| && IsPrefix(ps[i], n)
      ensures ps[j].components == ps[i].components
    {
      SameLengthPrefixes(ps[i], ps[j], n);
    }
    if r.Some? && r.value != i && IsPrefix(ps[i], n) && |ps[i].components| == |ps[r.value].components| {
      SameLengthPrefixes(ps[i], ps[r.value], n);
    }
  }

  /** Two prefixes of one name with the same number of components are the same prefix. */
  lemma SameLengthPrefixes(a: Name, b: Name, n: Name)
    requires IsPrefix(a, n) && IsPrefix(b, n) && |a.components| == |b.components|
    ensures a.components == b.components
  {
  }

  /** The winning prefix does not depend on the order of the table. */
  lemma {:induction false} RouteOrderIndependent(ps: seq<Name>, qs: seq<Name>, n: Name)
    requires multiset(ps) == multiset(qs)
    ensures Route(ps, n).Some? <==> Route(qs, n).Some?
    ensures Route(ps, n).Some? ==>
              ps[Route(ps, n).value].components == qs[Route(qs, n).value].components
  {
    BeatenInReordering(ps, qs, n);
    BeatenInReordering(qs, ps, n);
    if Route(ps, n).Some? { SameLengthPrefixes(ps[Route(ps, n).value], qs[Route(qs, n).value], n); }
  }

  lemma BeatenInReordering(ps: seq<Name>, qs: seq<Name>, n: Name)
    requires multiset(ps) == multiset(qs)
    ensures Route(ps, n).Some? ==>
              Route(qs, n).Some? && |ps[Route(ps, n).value].components| <= |qs[Route(qs, n).value].components|
  {
    if Route(ps, n).Some? {
      var p := ps[Route(ps, n).value];
      assert p in multiset(ps);
      assert p in qs;
      var j :| 0 <= j < |qs| && qs[j] == p;
    }
  }

  /** Adding a route changes nothing for names outside its prefix. */
  lemma {:induction false} AddedRouteIsLocal(ps: seq<Name>, p: Name, n: Name)
    requires !IsPrefix(p, n)
    ensures Route(ps + [p], n) == Route(ps, n)
  {
    BestOfExtension(ps, p, |ps|, n);
  }

  lemma {:induction false} BestOfExtension(ps: seq<Name>, p: Name, k: nat, n: Name)
    requires k <= |ps|
    ensures Best(ps + [p], k, n) == Best(ps, k, n)
  {
    if k > 0 { BestOfExtension(ps, p, k - 1, n); }
  }

  // ----- psirp_fib ------------------------------------------------------------------

  const MAX_ROUTES: nat := 256

  datatype FibEntry = FibEntry(prefix: Name, peer: Peer, prefixLen: nat)

  const EMPTY_ROUTE := FibEntry(EMPTY_NAME, Peer(0, 0), 0)

  function Prefixes(fs: seq<FibEntry>): (r: seq<Name>)
    ensures |r| == |fs| && forall i :: 0 <= i < |fs| ==> r[i] == fs[i].prefix
  {
    seq(|fs|, i requires 0 <= i < |fs| => fs[i].prefix)
  }

  /** htons on a little-endian host. */
  function Htons(port: u16): u16 { (port % 256) * 256 + port / 256 }

  /** htonl on a little-endian host. */
  function Htonl(ip: u32): u32 {
    ip % 256 * 0x100_0000 + ip / 256 % 256 * 0x1_0000 + ip / 0x1_0000 % 256 * 256 + ip / 0x100_0000
  }

  /** Both turn the order of the bytes round. */
  lemma NetworkOrder(a: byte, b: byte, c: byte, d: byte)
    ensures Htons(a * 256 + b) == b * 256 + a
    ensures Htonl(a * 0x100_0000 + b * 0x1_0000 + c * 256 + d) == d * 0x100_0000 + c * 0x1_0000 + b * 256 + a
  {
    var ip: u32 := a * 0x100_0000 + b * 0x1_0000 + c * 256 + d;
    LowByte(a * 256 + b, a, b);
    LowByte(a * 0x1_0000 + b * 256 + c, a * 256 + b, c);
    LowByte(ip, a * 0x1_0000 + b * 256 + c, d);
    QuotientIs(ip, 0x1_0000, a * 256 + b, c * 256 + d);
    QuotientIs(ip, 0x100_0000, a, b * 0x1_0000 + c * 256 + d);
  }

  function Added(fs: seq<FibEntry>, prefix: seq<byte>, ip: u32, port: u16): seq<FibEntry> {
    var p := InitName(prefix);
    if |fs| >= MAX_ROUTES || !p.ok then fs
    else fs + [FibEntry(p.name, Peer(ip, Htons(port)), |p.name.components|)]
  }

  /** A route is added exactly when its prefix parses and fewer than 256 are there. */
  lemma AddedIff(fs: seq<FibEntry>, prefix: seq<byte>, ip: u32, port: u16)
    ensures var r := Added(fs, prefix, ip, port);
      if InitName(prefix).ok && |fs| < 256 then |r| == |fs| + 1 && r[..|fs|] == fs && r[|fs|].prefix == InitName(prefix).name
      else r == fs
  {
    hide InitName;
  }

  /** A route that was added leads all names under its prefix to its peer, except where a route that
      was there before has a prefix at least as long. */
  lemma AddedLeads(fs: seq<FibEntry>, prefix: seq<byte>, ip: u32, port: u16, n: Name)
    requires InitName(prefix).ok && |fs| < 256
    requires InitName(prefix).name.components != [] && IsPrefix(InitName(prefix).name, n)
    ensures var r := Added(fs, prefix, ip, port);
      var k := Route(Prefixes(r), n);
      && k.Some? && |r| == |fs| + 1 && r[..|fs|] == fs
      && (k.value == |fs| ==> r[k.value].peer == Peer(ip, Htons(port)))
      && (k.value == |fs| <==> forall j :: 0 <= j < |fs| && IsPrefix(fs[j].prefix, n) ==>
                                 |fs[j].prefix.components| < |InitName(prefix).name.components|)
  {
    hide InitName, Route;
    var r, p := Added(fs, prefix, ip, port), InitName(prefix).name;
    RouteIsLongest(Prefixes(r), n, |fs|);
    forall j | 0 <= j < |fs| && IsPrefix(fs[j].prefix, n) && |fs[j].prefix.components| == |p.components|
      ensures fs[j].prefix.components == p.components
    {
      SameLengthPrefixes(fs[j].prefix, p, n);
    }
    assert Prefixes(r)[|fs|] == p;
  }

  class ForwardingTable {
    const entries: array<FibEntry>
    var count: nat

    ghost predicate Valid()
      reads this, entries
    {
      && entries.Length == MAX_ROUTES && count <= MAX_ROUTES
      && forall i :: 0 <= i < count ==> entries[i].prefixLen == |entries[i].prefix.components|
    }

    ghost function Routes(): seq<FibEntry>
      reads this, entries
      requires Valid()
    {
      entries[..count]
    }

    constructor ()
      ensures Valid() && fresh(entries) && Routes() == []
    {
      entries := new FibEntry[MAX_ROUTES](_ => EMPTY_ROUTE);
      count := 0;
    }

    /** psirp_fib_add. */
    method Add(prefix: seq<byte>, ip: u32, port: u16) returns (ok: bool)
      requires Valid() && 0 !in prefix && |Body(prefix)| + 1 <= MAX_NAME
      modifies this, entries
      ensures Valid() && Routes() == Added(old(Routes()), prefix, ip, port)
      ensures ok <==> |old(Routes())| < MAX_ROUTES && InitName(prefix).ok
    {
      hide InitName;
      if count >= MAX_ROUTES { return false; }
      var p := ParseName(prefix);
      if !p.ok { return false; }
      entries[count] := FibEntry(p.name, Peer(ip, Htons(port)), |p.name.components|);
      count := count + 1;
      ok := true;
    }

    /** psirp_fib_lookup. */
    method Lookup(n: Name) returns (r: Option<Peer>)
      requires Valid()
      ensures var k := Route(Prefixes(Routes()), n);
              r == if k.Some? then Some(Routes()[k.value].peer) else None
    {
      ghost var ps := Prefixes(Routes());
      ghost var at: Option<nat> := None;
      r := None;
      var bestLen := 0;
      for i := 0 to count
        invariant at == Best(ps, i, n)
        invariant bestLen == if at.Some? then |ps[at.value].components| else 0
        invariant r == if at.Some? then Some(entries[at.value].peer) else None
      {
        if IsPrefix(entries[i].prefix, n) {
          if entries[i].prefixLen > bestLen {
            bestLen := entries[i].prefixLen;
            r := Some(entries[i].peer);
            at := Some(i);
          }
        }
      }
    }
  }
}
