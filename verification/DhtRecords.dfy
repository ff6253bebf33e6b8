/** The DHT's records (dht.c): which peers hold a content hash, merged from announcements and
    from whole records of other nodes. */
module DhtRecords {
  import opened Bytes
  import opened Fib

  const MAX_RECORDS: nat := 512
  const MAX_HOLDERS: nat := 8

  datatype DhtRecord = DhtRecord(hash: u64, holders: seq<Peer>, used: bool)

  /** Index of the record of a hash, or the number of records. */
  function FindRecord(rs: seq<DhtRecord>, hash: u64): (k: nat)
    ensures k <= |rs| && forall j :: 0 <= j < k ==> !(rs[j].used && rs[j].hash == hash)
    ensures k < |rs| ==> rs[k].used && rs[k].hash == hash
  {
    if rs == [] || (rs[0].used && rs[0].hash == hash) then 0 else 1 + FindRecord(rs[1..], hash)
  }

  function WithHolder(r: DhtRecord, p: Peer): DhtRecord {
    if p in r.holders || |r.holders| >= MAX_HOLDERS then r else r.(holders := r.holders + [p])
  }

  /** The record of a hash, made if there is room; unchanged when the table is full. */
  function Ensured(rs: seq<DhtRecord>, hash: u64): seq<DhtRecord> {
    if FindRecord(rs, hash) < |rs| || |rs| >= MAX_RECORDS then rs else rs + [DhtRecord(hash, [], true)]
  }

  /** dht_announce. */
  function Announce(rs: seq<DhtRecord>, hash: u64, p: Peer): seq<DhtRecord> {
    var ready := Ensured(rs, hash);
    var k := FindRecord(ready, hash);
    if k == |ready| then ready else ready[k := WithHolder(ready[k], p)]
  }

  function AnnounceAll(rs: seq<DhtRecord>, hash: u64, ps: seq<Peer>): seq<DhtRecord> {
    if ps == [] then rs else Announce(AnnounceAll(rs, hash, ps[..|ps| - 1]), hash, ps[|ps| - 1])
  }

  /** dht_put_record. */
  function PutRecord(rs: seq<DhtRecord>, r: DhtRecord): seq<DhtRecord> {
    if !r.used then rs
    else
      var ready := Ensured(rs, r.hash);
      if FindRecord(ready, r.hash) == |ready| then ready else AnnounceAll(ready, r.hash, r.holders)
  }

  /** dht_lookup. */
  function Lookup(rs: seq<DhtRecord>, hash: u64): seq<Peer> {
    var k := FindRecord(rs, hash);
    if k == |rs| then [] else Take(rs[k].holders, MAX_HOLDERS)
  }

  /** Right after an announcement a lookup reports the holder if and only if it was listed already or
      there was room to list it: in the hash's record, or for a new record. */
  lemma AnnouncedFoundIff(rs: seq<DhtRecord>, hash: u64, p: Peer)
    requires forall i :: 0 <= i < |rs| ==> |rs[i].holders| <= MAX_HOLDERS
    ensures var k := FindRecord(rs, hash);
      p in Lookup(Announce(rs, hash, p), hash)
      <==> if k < |rs| then p in rs[k].holders || |rs[k].holders| < MAX_HOLDERS else |rs| < MAX_RECORDS
  {
    var ready, k := Ensured(rs, hash), FindRecord(rs, hash);
    if k == |rs| && |rs| < MAX_RECORDS {
      var made := DhtRecord(hash, [], true);
      FoundAt(rs + [made], hash, |rs|);
      FoundAt((rs + [made])[|rs| := WithHolder(made, p)], hash, |rs|);
    } else if k < |rs| {
      FoundAt(rs[k := WithHolder(rs[k], p)], hash, k);
    }
  }

  ghost predicate Bounded(rs: seq<DhtRecord>) { forall i :: 0 <= i < |rs| ==> |rs[i].holders| <= MAX_HOLDERS }

  /** An announcement changes no other hash's holders, and appends at most this holder to its own:
      listed ones stay, in order, also when there is no room. */
  lemma AnnounceKeeps(rs: seq<DhtRecord>, hash: u64, p: Peer, h: u64)
    requires Bounded(rs)
    ensures var r, was := Announce(rs, hash, p), Lookup(rs, h);
      && Bounded(r) && |rs| <= |r| <= |rs| + 1
      && (h != hash ==> Lookup(r, h) == was)
      && var full := p in was || |was| >= 8 || (FindRecord(rs, hash) == |rs| && |rs| >= 512);
         (h == hash ==> Lookup(r, h) == if full then was else was + [p])
  {
    hide FindRecord, Lookup;
    var k := FindRecord(rs, hash);
    if k == |rs| && |rs| < MAX_RECORDS {
      var made := DhtRecord(hash, [], true);
      FoundAt(rs + [made], hash, |rs|);
      LookupAdded(rs, DhtRecord(hash, [p], true), h);
      assert WithHolder(made, p) == DhtRecord(hash, [p], true) by { assert [] + [p] == [p]; }
      assert (rs + [made])[|rs| := WithHolder(made, p)] == rs + [DhtRecord(hash, [p], true)];
      LookupIs(rs, hash);
    } else if k < |rs| {
      LookupIs(rs, hash);
      LookupRenewed(rs, k, WithHolder(rs[k], p), h);
    }
  }

  lemma LookupIs(rs: seq<DhtRecord>, hash: u64)
    requires Bounded(rs)
    ensures var k := FindRecord(rs, hash); Lookup(rs, hash) == if k == |rs| then [] else rs[k].holders
  {
    hide FindRecord;
  }

  lemma LookupAdded(rs: seq<DhtRecord>, made: DhtRecord, h: u64)
    requires Bounded(rs) && FindRecord(rs, made.hash) == |rs| && made.used && |made.holders| <= MAX_HOLDERS
    ensures Lookup(rs + [made], h) == if h == made.hash then made.holders else Lookup(rs, h)
  {
    hide FindRecord;
    var r, i := rs + [made], FindRecord(rs, h);
    FoundAt(r, h, if i < |rs| then i else if h == made.hash then |rs| else |rs| + 1);
  }

  lemma LookupRenewed(rs: seq<DhtRecord>, k: nat, renewed: DhtRecord, h: u64)
    requires Bounded(rs) && k < |rs| && k == FindRecord(rs, renewed.hash)
    requires renewed.used && |renewed.holders| <= MAX_HOLDERS
    ensures Lookup(rs[k := renewed], h) == if h == renewed.hash then renewed.holders else Lookup(rs, h)
  {
    hide FindRecord;
    FoundAt(rs[k := renewed], h, FindRecord(rs, h));
  }

  lemma {:induction false} AnnounceAllKeeps(rs: seq<DhtRecord>, hash: u64, ps: seq<Peer>, h: u64)
    requires Bounded(rs)
    ensures var r, was := AnnounceAll(rs, hash, ps), Lookup(rs, h);
      && Bounded(r) && |rs| <= |r| && (h != hash ==> Lookup(r, h) == was) && was <= Lookup(r, h)
      && forall q :: q in Lookup(r, h) ==> q in was || q in ps
  {
    hide Announce, Lookup;
    if ps != [] {
      AnnounceAllKeeps(rs, hash, ps[..|ps| - 1], h);
      AnnounceKeeps(AnnounceAll(rs, hash, ps[..|ps| - 1]), hash, ps[|ps| - 1], h);
    }
  }

  lemma EnsuredKeeps(rs: seq<DhtRecord>, hash: u64, h: u64)
    requires Bounded(rs)
    ensures Bounded(Ensured(rs, hash)) && |rs| <= |Ensured(rs, hash)| && Lookup(Ensured(rs, hash), h) == Lookup(rs, h)
  {
    if FindRecord(rs, hash) == |rs| && |rs| < MAX_RECORDS {
      var r := rs + [DhtRecord(hash, [], true)];
      FoundAt(r, h, if FindRecord(rs, h) < |rs| then FindRecord(rs, h) else if h == hash then |rs| else |rs| + 1);
    }
  }

  /** Another node's record changes no other hash's holders, and adds only holders it names. */
  lemma PutKeeps(rs: seq<DhtRecord>, record: DhtRecord, h: u64)
    requires Bounded(rs)
    ensures var r, was := PutRecord(rs, record), Lookup(rs, h);
      && Bounded(r) && |rs| <= |r| && (h != record.hash ==> Lookup(r, h) == was) && was <= Lookup(r, h)
      && forall q :: q in Lookup(r, h) ==> q in was || q in record.holders
  {
    hide Ensured, AnnounceAll, Lookup, FindRecord;
    EnsuredKeeps(rs, record.hash, h);
    AnnounceAllKeeps(Ensured(rs, record.hash), record.hash, record.holders, h);
  }

  lemma {:induction false} FoundAt(rs: seq<DhtRecord>, hash: u64, i: nat)
    requires i <= |rs| && forall j :: 0 <= j < i ==> !(rs[j].used && rs[j].hash == hash)
    requires i < |rs| ==> rs[i].used && rs[i].hash == hash
    ensures FindRecord(rs, hash) == i
  {
    if i > 0 { FoundAt(rs[1..], hash, i - 1); }
  }

  // ----- gossip ---------------------------------------------------------------------

  /** What reaches a node: one holder, or another node's record. */
  datatype Gossip = Holds(hash: u64, peer: Peer) | Record(record: DhtRecord)

  function Deliver(rs: seq<DhtRecord>, g: Gossip): seq<DhtRecord> {
    match g
    case Holds(h, p) => Announce(rs, h, p)
    case Record(r) => PutRecord(rs, r)
  }

  function DeliverAll(gs: seq<Gossip>): seq<DhtRecord> {
    if gs == [] then [] else Deliver(DeliverAll(gs[..|gs| - 1]), gs[|gs| - 1])
  }

  function AsSet(gs: seq<Gossip>): set<Gossip> { set g | g in gs }

  /** A holder fact: this hash is held by this peer. */
  type Fact = (u64, Peer)

  function FactsAbout(hash: u64, ps: seq<Peer>): set<Fact> { set p | p in ps :: (hash, p) }

  /** The facts one delivery carries; an unused record carries none. */
  function FactsIn(g: Gossip): set<Fact> {
    match g
    case Holds(h, p) => {(h, p)}
    case Record(r) => if r.used then FactsAbout(r.hash, r.holders) else {}
  }

  function HashesIn(g: Gossip): set<u64> {
    match g
    case Holds(h, p) => {h}
    case Record(r) => if r.used then {r.hash} else {}
  }

  function Facts(gs: set<Gossip>): set<Fact> { set g, f | g in gs && f in FactsIn(g) :: f }

  function Hashes(gs: set<Gossip>): set<u64> { set g, h | g in gs && h in HashesIn(g) :: h }

  function HoldersOf(facts: set<Fact>, hash: u64): set<Peer> { set f | f in facts && f.0 == hash :: f.1 }

  function Elements<T>(s: seq<T>): set<T> { set x | x in s }

  ghost predicate Small(hs: set<u64>, facts: set<Fact>) {
    |hs| <= MAX_RECORDS && forall h: u64 :: |HoldersOf(facts, h)| <= MAX_HOLDERS
  }

  /** At most 512 hashes, at most 8 holders of each. */
  ghost predicate Fits(gs: set<Gossip>) { Small(Hashes(gs), Facts(gs)) }

  ghost predicate NoDuplicates<T>(s: seq<T>) {
    forall i, j :: 0 <= i < j < |s| ==> s[i] != s[j]
  }

  // ----- the invariant: the table is what was told ----------------------------------

  function HashList(rs: seq<DhtRecord>): (r: seq<u64>)
    ensures |r| == |rs| && forall i :: 0 <= i < |rs| ==> r[i] == rs[i].hash
  {
    seq(|rs|, i requires 0 <= i < |rs| => rs[i].hash)
  }

  ghost predicate Good(r: DhtRecord, facts: set<Fact>) {
    r.used && NoDuplicates(r.holders) && Elements(r.holders) == HoldersOf(facts, r.hash)
  }

  ghost predicate AllGood(rs: seq<DhtRecord>, facts: set<Fact>) {
    forall i :: 0 <= i < |rs| ==> Good(rs[i], facts)
  }

  /** The table holds exactly the hashes `hs`, each once, each with exactly its holders, and
      nothing is known about other hashes. */
  ghost predicate Reflects(rs: seq<DhtRecord>, hs: set<u64>, facts: set<Fact>) {
    && AllGood(rs, facts)
    && NoDuplicates(HashList(rs)) && Elements(HashList(rs)) == hs
    && forall f :: f in facts ==> f.0 in hs
  }

  lemma {:induction false} NoDuplicatesCount<T>(s: seq<T>)
    requires NoDuplicates(s)
    ensures |s| == |Elements(s)|
  {
    if s != [] {
      var front, x := s[..|s| - 1], s[|s| - 1];
      NoDuplicatesCount(front);
      assert s == front + [x] && x !in front;
      assert Elements(s) == Elements(front) + {x};
    }
  }

  lemma SubsetCount<T>(a: set<T>, b: set<T>)
    requires a <= b
    ensures |a| <= |b|
  {
    assert b == a + (b - a) && a !! (b - a);
  }

  lemma AppendNew<T>(s: seq<T>, x: T)
    requires NoDuplicates(s) && x !in Elements(s)
    ensures NoDuplicates(s + [x]) && Elements(s + [x]) == Elements(s) + {x}
  {
    forall i | 0 <= i < |s| ensures s[i] != x { assert s[i] in Elements(s); }
  }

  lemma RecordFound(rs: seq<DhtRecord>, hs: set<u64>, facts: set<Fact>, h: u64)
    requires Reflects(rs, hs, facts)
    ensures FindRecord(rs, h) < |rs| <==> h in hs
  {
    var hl := HashList(rs);
    var k := FindRecord(rs, h);
    if k < |rs| {
      InElements(hl, k);
    }
    if h in hs {
      var i :| 0 <= i < |hl| && hl[i] == h;
      assert Good(rs[i], facts);
    }
  }

  lemma MadeReflects(rs: seq<DhtRecord>, hs: set<u64>, facts: set<Fact>, h: u64)
    requires Reflects(rs, hs, facts) && h !in hs
    ensures Reflects(rs + [DhtRecord(h, [], true)], hs + {h}, facts)
  {
    var made := DhtRecord(h, [], true);
    AppendNew(HashList(rs), h);
    assert HashList(rs + [made]) == HashList(rs) + [h];
    assert Elements<Peer>([]) == {} == HoldersOf(facts, h);
    assert Good(made, facts);
  }

  lemma EnsuredReflects(rs: seq<DhtRecord>, hs: set<u64>, facts: set<Fact>, h: u64)
    requires Reflects(rs, hs, facts) && |hs + {h}| <= MAX_RECORDS
    ensures Reflects(Ensured(rs, h), hs + {h}, facts)
  {
    RecordFound(rs, hs, facts, h);
    if h in hs {
      assert hs + {h} == hs;
    } else {
      MadeReflects(rs, hs, facts, h);
      RecordCount(rs, hs, facts);
      assert |hs + {h}| == |hs| + 1;
      hide Reflects;
    }
  }

  lemma RecordCount(rs: seq<DhtRecord>, hs: set<u64>, facts: set<Fact>)
    requires Reflects(rs, hs, facts)
    ensures |rs| == |hs|
  {
    NoDuplicatesCount(HashList(rs));
  }

  lemma WithHolderGood(r: DhtRecord, facts: set<Fact>, p: Peer)
    requires Good(r, facts) && |HoldersOf(facts + {(r.hash, p)}, r.hash)| <= MAX_HOLDERS
    ensures Good(WithHolder(r, p), facts + {(r.hash, p)})
  {
    NoDuplicatesCount(r.holders);
    var hl := HoldersOf(facts, r.hash);
    assert HoldersOf(facts + {(r.hash, p)}, r.hash) == hl + {p} by {
      hide Good;
      forall q | q in hl + {p} ensures q in HoldersOf(facts + {(r.hash, p)}, r.hash) {
        assert (r.hash, q) in facts + {(r.hash, p)};
      }
    }
    if p in r.holders {
      assert p in Elements(r.holders) && hl + {p} == hl;
    } else {
      assert p !in Elements(r.holders) && |hl + {p}| == |hl| + 1;
      AppendNew(r.holders, p);
    }
  }

  lemma OtherGood(r: DhtRecord, facts: set<Fact>, f: Fact)
    requires Good(r, facts) && r.hash != f.0
    ensures Good(r, facts + {f})
  {
    assert HoldersOf(facts + {f}, r.hash) == HoldersOf(facts, r.hash) by {
      forall q | q in HoldersOf(facts, r.hash) ensures q in HoldersOf(facts + {f}, r.hash) {
        assert (r.hash, q) in facts + {f};
      }
    }
  }

  lemma HolderAdded(rs: seq<DhtRecord>, hs: set<u64>, facts: set<Fact>, k: nat, p: Peer)
    requires Reflects(rs, hs, facts) && k < |rs|
    requires |HoldersOf(facts + {(rs[k].hash, p)}, rs[k].hash)| <= MAX_HOLDERS
    ensures Reflects(rs[k := WithHolder(rs[k], p)], hs, facts + {(rs[k].hash, p)})
  {
    hide Good, Elements, HoldersOf;
    var h := rs[k].hash;
    var r := rs[k := WithHolder(rs[k], p)];
    WithHolderGood(rs[k], facts, p);
    assert HashList(r) == HashList(rs);
    forall i | 0 <= i < |r| ensures Good(r[i], facts + {(h, p)}) {
      if i != k {
        assert HashList(rs)[i] != HashList(rs)[k];
        OtherGood(rs[i], facts, (h, p));
      }
    }
    assert h in hs by { assert HashList(rs)[k] in Elements(HashList(rs)) by { InElements(HashList(rs), k); } }
  }

  lemma InElements<T>(s: seq<T>, k: nat)
    requires k < |s|
    ensures s[k] in Elements(s)
  {
  }

  lemma AnnounceReflects(rs: seq<DhtRecord>, hs: set<u64>, facts: set<Fact>, h: u64, p: Peer)
    requires Reflects(rs, hs, facts) && Small(hs + {h}, facts + {(h, p)})
    ensures Reflects(Announce(rs, h, p), hs + {h}, facts + {(h, p)})
  {
    hide Reflects, Ensured, HoldersOf;
    EnsuredReflects(rs, hs, facts, h);
    var ready := Ensured(rs, h);
    RecordFound(ready, hs + {h}, facts, h);
    HolderAdded(ready, hs + {h}, facts, FindRecord(ready, h), p);
  }

  lemma SmallerFits(hs: set<u64>, facts: set<Fact>, hs': set<u64>, facts': set<Fact>)
    requires Small(hs, facts) && hs' <= hs && facts' <= facts
    ensures Small(hs', facts')
  {
    SubsetCount(hs', hs);
    forall h: u64 ensures |HoldersOf(facts', h)| <= MAX_HOLDERS {
      SubsetCount(HoldersOf(facts', h), HoldersOf(facts, h));
    }
  }

  lemma {:induction false} AnnounceAllReflects(rs: seq<DhtRecord>, hs: set<u64>, facts: set<Fact>, h: u64, ps: seq<Peer>)
    requires Reflects(rs, hs, facts) && h in hs && Small(hs, facts + FactsAbout(h, ps))
    ensures Reflects(AnnounceAll(rs, h, ps), hs, facts + FactsAbout(h, ps))
  {
    hide Reflects, Announce, Small;
    if ps == [] {
      assert facts + FactsAbout(h, ps) == facts;
    } else {
      var front, p := ps[..|ps| - 1], ps[|ps| - 1];
      var before := facts + FactsAbout(h, front);
      FactsAboutSnoc(h, front, p);
      assert ps == front + [p];
      assert facts + FactsAbout(h, ps) == before + {(h, p)} && hs + {h} == hs;
      SmallerFits(hs, facts + FactsAbout(h, ps), hs, before);
      AnnounceAllReflects(rs, hs, facts, h, front);
      AnnounceReflects(AnnounceAll(rs, h, front), hs, before, h, p);
    }
  }

  lemma FactsAboutSnoc(h: u64, ps: seq<Peer>, p: Peer)
    ensures FactsAbout(h, ps + [p]) == FactsAbout(h, ps) + {(h, p)}
  {
    forall f | f in FactsAbout(h, ps) + {(h, p)} ensures f in FactsAbout(h, ps + [p]) {
      assert f.1 in ps + [p];
    }
  }

  lemma PutReflects(rs: seq<DhtRecord>, hs: set<u64>, facts: set<Fact>, r: DhtRecord)
    requires Reflects(rs, hs, facts) && r.used && Small(hs + {r.hash}, facts + FactsAbout(r.hash, r.holders))
    ensures Reflects(PutRecord(rs, r), hs + {r.hash}, facts + FactsAbout(r.hash, r.holders))
  {
    hide Reflects, Ensured, AnnounceAll, FactsAbout;
    EnsuredReflects(rs, hs, facts, r.hash) by { hide HoldersOf; }
    RecordFound(Ensured(rs, r.hash), hs + {r.hash}, facts, r.hash);
    AnnounceAllReflects(Ensured(rs, r.hash), hs + {r.hash}, facts, r.hash, r.holders);
  }

  lemma AsSetSnoc(gs: seq<Gossip>, g: Gossip)
    ensures AsSet(gs + [g]) == AsSet(gs) + {g}
    ensures Facts(AsSet(gs + [g])) == Facts(AsSet(gs)) + FactsIn(g)
    ensures Hashes(AsSet(gs + [g])) == Hashes(AsSet(gs)) + HashesIn(g)
  {
    hide FactsIn, HashesIn;
    assert AsSet(gs + [g]) == AsSet(gs) + {g};
  }

  /** What any delivery order builds: exactly the facts delivered. */
  lemma {:induction false} DeliveredReflects(gs: seq<Gossip>)
    requires Fits(AsSet(gs))
    ensures Reflects(DeliverAll(gs), Hashes(AsSet(gs)), Facts(AsSet(gs)))
  {
    hide Small, Announce, PutRecord, Facts, Hashes, AsSet, Reflects;
    if gs == [] {
      NothingReflected();
    } else {
      var front, g := gs[..|gs| - 1], gs[|gs| - 1];
      var hs, facts := Hashes(AsSet(front)), Facts(AsSet(front));
      assert gs == front + [g];
      AsSetSnoc(front, g);
      SmallerFits(hs + HashesIn(g), facts + FactsIn(g), hs, facts);
      DeliveredReflects(front);
      match g {
        case Holds(h, p) => AnnounceReflects(DeliverAll(front), hs, facts, h, p);
        case Record(r) =>
          if r.used {
            PutReflects(DeliverAll(front), hs, facts, r);
          } else {
            assert hs + {} == hs && facts + {} == facts;
            UnusedIgnored(DeliverAll(front), r);
          }
      }
    }
  }

  lemma UnusedIgnored(rs: seq<DhtRecord>, r: DhtRecord)
    requires !r.used
    ensures PutRecord(rs, r) == rs
  {
  }

  lemma NothingReflected()
    ensures Reflects([], Hashes(AsSet([])), Facts(AsSet([])))
  {
    assert AsSet([]) == {};
  }

  lemma LookupReflected(rs: seq<DhtRecord>, hs: set<u64>, facts: set<Fact>, h: u64)
    requires Reflects(rs, hs, facts) && Small(hs, facts)
    ensures NoDuplicates(Lookup(rs, h)) && Elements(Lookup(rs, h)) == HoldersOf(facts, h)
  {
    RecordFound(rs, hs, facts, h);
    var k := FindRecord(rs, h);
    if k < |rs| {
      assert Good(rs[k], facts);
      NoDuplicatesCount(rs[k].holders);
      assert Take(rs[k].holders, MAX_HOLDERS) == rs[k].holders;
    } else {
      assert HoldersOf(facts, h) == {};
    }
  }

  /** Gossip converges: whatever the order and however often deliveries are repeated, two nodes
      that received the same ones report the same holders of every hash, each holder once, and
      these are exactly the holders that were delivered. */
  lemma GossipConverges(one: seq<Gossip>, other: seq<Gossip>, h: u64)
    requires AsSet(one) == AsSet(other) && Fits(AsSet(one))
    ensures NoDuplicates(Lookup(DeliverAll(one), h)) && NoDuplicates(Lookup(DeliverAll(other), h))
    ensures Elements(Lookup(DeliverAll(one), h)) == Elements(Lookup(DeliverAll(other), h))
    ensures Elements(Lookup(DeliverAll(one), h)) == HoldersOf(Facts(AsSet(one)), h)
  {
    hide Reflects, Small, NoDuplicates, Lookup, Facts, Hashes, Elements, HoldersOf;
    DeliveredReflects(one);
    DeliveredReflects(other);
    LookupReflected(DeliverAll(one), Hashes(AsSet(one)), Facts(AsSet(one)), h);
    LookupReflected(DeliverAll(other), Hashes(AsSet(one)), Facts(AsSet(one)), h);
  }
}
