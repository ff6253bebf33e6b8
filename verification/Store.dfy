/** The content store as operations on its entry table: what each function of psirp.c does to
    the first `count` entries, and the laws of eviction and garbage collection. */
module Store {
  import opened Bytes
  import opened Names

  const CAPACITY: nat := 4096
  const MAX_DATA: nat := 0x10_0000
  const NS_PER_MS: nat := 1_000_000

  /** sizeof(psirp_manifest): two words and 18 chunk references of 168 bytes. */
  const MANIFEST_SIZE: nat := 3040

  datatype ChunkRef = ChunkRef(name: Name, len: nat)

  /** Stored bytes, or the manifest structure that psirp_cs_store_chunked writes. */
  datatype Content = Raw(bytes: seq<byte>) | Manifest(totalLen: nat, chunks: seq<ChunkRef>)

  function Size(c: Content): nat {
    if c.Raw? then |c.bytes| else MANIFEST_SIZE
  }

  datatype Entry = Entry(name: Name, data: Content, timestamp: u64, freshnessMs: u32,
                         lastAccess: u64, accessCount: nat)

  /** The age test of entry_expired, with its unsigned subtraction; a lifetime of 0 never ends. */
  predicate TooOld(at: u64, freshnessMs: u32, now: u64) {
    freshnessMs != 0 && ((now - at) % U64) / NS_PER_MS > freshnessMs
  }

  /** entry_expired. */
  predicate Expired(e: Entry, now: u64) { TooOld(e.timestamp, e.freshnessMs, now) }

  lemma ExpiryIsFinal(at: u64, freshnessMs: u32, t: u64, u: u64)
    requires at <= t <= u && TooOld(at, freshnessMs, t)
    ensures TooOld(at, freshnessMs, u)
  {
    assert (t - at) % U64 == t - at && (u - at) % U64 == u - at;
    assert (t - at) / NS_PER_MS <= (u - at) / NS_PER_MS;
  }

  /** Data lives one millisecond longer than its lifetime says, and for ever if that is 0. */
  lemma TooOldIff(at: u64, freshnessMs: u32, now: u64)
    requires at <= now
    ensures TooOld(at, freshnessMs, now) <==> freshnessMs != 0 && now - at >= (freshnessMs + 1) * 1_000_000
  {
    assert (now - at) % U64 == now - at;
  }

  // ----- byte accounting ------------------------------------------------------------

  function TotalBytes(es: seq<Entry>): nat {
    if es == [] then 0 else TotalBytes(es[..|es| - 1]) + Size(es[|es| - 1].data)
  }

  lemma {:induction false} TotalAppend(es: seq<Entry>, e: Entry)
    ensures TotalBytes(es + [e]) == TotalBytes(es) + Size(e.data)
  {
    assert (es + [e])[..|es|] == es;
  }

  lemma {:induction false} TotalUpdate(es: seq<Entry>, i: nat, e: Entry)
    requires i < |es|
    ensures TotalBytes(es[i := e]) == TotalBytes(es) - Size(es[i].data) + Size(e.data)
  {
    var n := |es| - 1;
    if i == n {
      assert es[i := e][..n] == es[..n];
    } else {
      assert es[i := e][..n] == es[..n][i := e];
      TotalUpdate(es[..n], i, e);
    }
  }

  /** Removal by moving the last entry into the hole. */
  function SwapRemove(es: seq<Entry>, i: nat): (r: seq<Entry>)
    requires i < |es|
    ensures |r| == |es| - 1
    ensures forall j :: 0 <= j < |r| ==> r[j] == if j == i then es[|es| - 1] else es[j]
  {
    es[i := es[|es| - 1]][..|es| - 1]
  }

  /** Only the removed entry is lost. */
  lemma {:induction false} SwapRemoveLosesOne(es: seq<Entry>, i: nat)
    requires i < |es|
    ensures multiset(es) == multiset(SwapRemove(es, i)) + multiset{es[i]}
  {
    var n := |es| - 1;
    assert es == es[..n] + [es[n]];
    if i < n {
      assert es[..n] == es[..i] + [es[i]] + es[i + 1..n];
      assert SwapRemove(es, i) == es[..i] + [es[n]] + es[i + 1..n];
    } else {
      assert SwapRemove(es, i) == es[..n];
    }
  }

  /** The entries of `b` are entries of `a`. */
  ghost predicate Within(b: seq<Entry>, a: seq<Entry>) {
    forall e :: e in b ==> e in a
  }

  lemma SwapRemoveWithin(es: seq<Entry>, i: nat)
    requires i < |es|
    ensures Within(SwapRemove(es, i), es)
  {
    forall e | e in SwapRemove(es, i) ensures e in es {
      var j :| 0 <= j < |es| - 1 && SwapRemove(es, i)[j] == e;
      assert e == es[if j == i then |es| - 1 else j];
    }
  }

  lemma {:induction false} TotalSwapRemove(es: seq<Entry>, i: nat)
    requires i < |es|
    ensures TotalBytes(SwapRemove(es, i)) == TotalBytes(es) - Size(es[i].data)
  {
    TotalUpdate(es, i, es[|es| - 1]);
  }

  lemma {:induction false} SizeWithinTotal(es: seq<Entry>, i: nat)
    requires i < |es|
    ensures Size(es[i].data) <= TotalBytes(es)
  {
    TotalSwapRemove(es, i);
  }

  // ----- finding entries ------------------------------------------------------------

  /** Index of the first entry psirp_name_equal to `n`, or the number of entries. */
  function FirstEqual(es: seq<Entry>, n: Name): (k: nat)
    ensures k <= |es| && forall j :: 0 <= j < k ==> !NameEqual(es[j].name, n)
    ensures k < |es| ==> NameEqual(es[k].name, n)
  {
    if es == [] || NameEqual(es[0].name, n) then 0 else 1 + FirstEqual(es[1..], n)
  }

  /** Index of the first unexpired entry psirp_name_equal to `n`, or the number of entries. */
  function FirstLive(es: seq<Entry>, n: Name, now: u64): (k: nat)
    ensures k <= |es|
    ensures forall j :: 0 <= j < k ==> Expired(es[j], now) || !NameEqual(es[j].name, n)
    ensures k < |es| ==> !Expired(es[k], now) && NameEqual(es[k].name, n)
  {
    if es == [] || (!Expired(es[0], now) && NameEqual(es[0].name, n)) then 0
    else 1 + FirstLive(es[1..], n, now)
  }

  predicate Matches(e: Entry, cs: seq<seq<byte>>, now: u64) {
    !Expired(e, now) && e.name.components == cs
  }

  /** Among the first `k` entries, the earliest unexpired one with these components and the
      highest version. */
  function Newest(es: seq<Entry>, k: nat, cs: seq<seq<byte>>, now: u64): (r: Option<nat>)
    requires k <= |es|
    ensures r.Some? ==> r.value < k && Matches(es[r.value], cs, now)
    ensures forall j :: 0 <= j < k && Matches(es[j], cs, now) ==>
              r.Some? && es[j].name.version <= es[r.value].name.version
              && (es[j].name.version == es[r.value].name.version ==> r.value <= j)
  {
    if k == 0 then None
    else
      var best := Newest(es, k - 1, cs, now);
      if Matches(es[k - 1], cs, now)
         && (best.None? || es[k - 1].name.version > es[best.value].name.version)
      then Some(k - 1) else best
  }

  /** The entry psirp_cs_lookup returns. */
  function Find(es: seq<Entry>, n: Name, now: u64): (r: Option<nat>)
    ensures r.Some? ==> r.value < |es|
  {
    if n.hasVersion then
      var k := FirstLive(es, n, now);
      if k < |es| then Some(k) else None
    else Newest(es, |es|, n.components, now)
  }

  function Touch(es: seq<Entry>, i: nat, now: u64): seq<Entry>
    requires i < |es|
  {
    es[i := es[i].(lastAccess := now, accessCount := es[i].accessCount + 1)]
  }

  /** The table after psirp_cs_lookup. */
  function Looked(es: seq<Entry>, n: Name, now: u64): seq<Entry> {
    var r := Find(es, n, now);
    if r.Some? then Touch(es, r.value, now) else es
  }

  /** A lookup makes the entry it finds the most recent one and changes nothing else. */
  lemma LookedRecent(es: seq<Entry>, n: Name, now: u64)
    ensures var k, r := Find(es, n, now), Looked(es, n, now);
      |r| == |es| && (forall j :: 0 <= j < |es| && k != Some(j) ==> r[j] == es[j])
      && (k.Some? ==> r[k.value].lastAccess == now && r[k.value].accessCount == es[k.value].accessCount + 1
                      && r[k.value].name == es[k.value].name && r[k.value].data == es[k.value].data
                      && r[k.value].timestamp == es[k.value].timestamp
                      && r[k.value].freshnessMs == es[k.value].freshnessMs)
  {
    hide Find;
  }

  lemma InTable(es: seq<Entry>, i: nat)
    requires i < |es|
    ensures es[i] in es
  {
  }

  // ----- eviction -------------------------------------------------------------------

  /** The first least recently used entry among the first `k`. */
  function Lru(es: seq<Entry>, k: nat): (m: nat)
    requires 0 < k <= |es|
    ensures m < k && forall j :: 0 <= j < k ==> es[m].lastAccess <= es[j].lastAccess
    ensures forall j :: 0 <= j < m ==> es[m].lastAccess < es[j].lastAccess
  {
    if k == 1 then 0
    else
      var m := Lru(es, k - 1);
      if es[k - 1].lastAccess < es[m].lastAccess then k - 1 else m
  }

  /** What the eviction loop leaves, and what it removed, in order. */
  datatype Eviction = Eviction(survivors: seq<Entry>, victims: seq<Entry>)

  function Evict(es: seq<Entry>, budget: nat): Eviction
    decreases |es|
  {
    if TotalBytes(es) <= budget || es == [] then Eviction(es, [])
    else
      var i := Lru(es, |es|);
      var r := Evict(SwapRemove(es, i), budget);
      Eviction(r.survivors, [es[i]] + r.victims)
  }

  /** A budget of 0 means unlimited. */
  function Enforce(es: seq<Entry>, maxBytes: nat): Eviction {
    if maxBytes > 0 then Evict(es, maxBytes) else Eviction(es, [])
  }

  lemma {:induction false} EvictPartitions(es: seq<Entry>, budget: nat)
    ensures var r := Evict(es, budget);
            multiset(es) == multiset(r.survivors) + multiset(r.victims)
            && |r.survivors| + |r.victims| == |es|
    decreases |es|
  {
    if TotalBytes(es) > budget && es != [] {
      EvictPartitions(SwapRemove(es, Lru(es, |es|)), budget);
      SwapRemoveLosesOne(es, Lru(es, |es|));
    }
  }

  lemma MultisetMember(es: seq<Entry>, a: seq<Entry>, b: seq<Entry>, e: Entry)
    requires multiset(es) == multiset(a) + multiset(b)
    ensures e in es <==> e in a || e in b
  {
    assert e in es <==> e in multiset(es);
    assert e in a <==> e in multiset(a);
    assert e in b <==> e in multiset(b);
  }

  /** Every victim was last accessed no later than every survivor and every later victim. */
  ghost predicate LruOrder(r: Eviction) {
    && (forall v, s :: v in r.victims && s in r.survivors ==> v.lastAccess <= s.lastAccess)
    && (forall i, j :: 0 <= i < j < |r.victims| ==> r.victims[i].lastAccess <= r.victims[j].lastAccess)
  }

  lemma LruOrderPrepend(v: Entry, r: Eviction)
    requires LruOrder(r)
    requires forall x :: x in r.survivors || x in r.victims ==> v.lastAccess <= x.lastAccess
    ensures LruOrder(Eviction(r.survivors, [v] + r.victims))
  {
  }

  lemma {:induction false} EvictLeastRecent(es: seq<Entry>, budget: nat)
    ensures LruOrder(Evict(es, budget))
    decreases |es|
  {
    if TotalBytes(es) > budget && es != [] {
      var i := Lru(es, |es|);
      var rest := SwapRemove(es, i);
      var r := Evict(rest, budget);
      EvictLeastRecent(rest, budget);
      EvictPartitions(rest, budget);
      SwapRemoveLosesOne(es, i);
      hide Evict, LruOrder;
      forall x | x in r.survivors || x in r.victims ensures es[i].lastAccess <= x.lastAccess {
        MultisetMember(rest, r.survivors, r.victims, x);
        MultisetMember(es, rest, [es[i]], x);
      }
      LruOrderPrepend(es[i], r);
    }
  }

  /** The survivors fit, and putting the last victim back would exceed the budget. */
  lemma {:induction false} EvictNoMoreThanNeeded(es: seq<Entry>, budget: nat)
    ensures var r := Evict(es, budget);
            TotalBytes(r.survivors) <= budget
            && (r.victims == [] ==> r.survivors == es)
            && (r.victims != [] ==>
                  TotalBytes(r.survivors) + Size(r.victims[|r.victims| - 1].data) > budget)
    decreases |es|
  {
    if TotalBytes(es) > budget && es != [] {
      var i := Lru(es, |es|);
      EvictNoMoreThanNeeded(SwapRemove(es, i), budget);
      TotalSwapRemove(es, i);
    }
  }

  lemma TotalOne(es: seq<Entry>)
    requires |es| == 1
    ensures TotalBytes(es) == Size(es[0].data)
  {
    assert es[..0] == [];
  }

  /** An entry that fits the budget and was accessed later than all others is never evicted. */
  lemma {:induction false} NewestSurvives(es: seq<Entry>, e: Entry, budget: nat)
    requires e in es && Size(e.data) <= budget
    requires forall x :: x in es && x != e ==> x.lastAccess < e.lastAccess
    ensures e in Evict(es, budget).survivors
    decreases |es|
  {
    if TotalBytes(es) > budget {
      var i := Lru(es, |es|);
      var rest := SwapRemove(es, i);
      if |es| == 1 { TotalOne(es); }
      SwapRemoveLosesOne(es, i);
      forall x ensures x in es <==> x in rest || x == es[i] {
        MultisetMember(es, rest, [es[i]], x);
      }
      if es[i] == e {
        assert rest[0] in es;
        var j :| 0 <= j < |es| && es[j] == rest[0];
        assert rest[0] == e;
      }
      NewestSurvives(rest, e, budget);
    }
  }

  lemma {:induction false} EvictWithin(es: seq<Entry>, budget: nat)
    ensures Within(Evict(es, budget).survivors, es)
    decreases |es|
  {
    if TotalBytes(es) > budget && es != [] {
      var i := Lru(es, |es|);
      SwapRemoveWithin(es, i);
      EvictWithin(SwapRemove(es, i), budget);
      hide Evict;
    }
  }

  // ----- recent entries -------------------------------------------------------------

  /** Bytes of an entry that was accessed at `t` or later. */
  function RecentSize(e: Entry, t: u64): nat { if e.lastAccess >= t then Size(e.data) else 0 }

  function RecentBytes(es: seq<Entry>, t: u64): nat {
    if es == [] then 0 else RecentBytes(es[..|es| - 1], t) + RecentSize(es[|es| - 1], t)
  }

  lemma {:induction false} RecentAppend(es: seq<Entry>, e: Entry, t: u64)
    ensures RecentBytes(es + [e], t) == RecentBytes(es, t) + RecentSize(e, t)
  {
    assert (es + [e])[..|es|] == es;
  }

  lemma {:induction false} RecentUpdate(es: seq<Entry>, i: nat, e: Entry, t: u64)
    requires i < |es|
    ensures RecentBytes(es[i := e], t) == RecentBytes(es, t) - RecentSize(es[i], t) + RecentSize(e, t)
  {
    hide RecentSize;
    var n := |es| - 1;
    if i == n {
      assert es[i := e][..n] == es[..n];
    } else {
      assert es[i := e][..n] == es[..n][i := e];
      RecentUpdate(es[..n], i, e, t);
    }
  }

  lemma {:induction false} RecentSwapRemove(es: seq<Entry>, i: nat, t: u64)
    requires i < |es|
    ensures RecentBytes(SwapRemove(es, i), t) == RecentBytes(es, t) - RecentSize(es[i], t)
  {
    hide RecentSize;
    RecentUpdate(es, i, es[|es| - 1], t);
  }

  lemma {:induction false} RecentIsTotal(es: seq<Entry>, t: u64)
    requires forall e :: e in es ==> e.lastAccess >= t
    ensures RecentBytes(es, t) == TotalBytes(es)
  {
    if es != [] {
      assert es == es[..|es| - 1] + [es[|es| - 1]];
      RecentIsTotal(es[..|es| - 1], t);
    }
  }

  lemma {:induction false} NothingRecent(es: seq<Entry>, t: u64)
    requires forall e :: e in es ==> e.lastAccess < t
    ensures RecentBytes(es, t) == 0
  {
    if es != [] {
      assert es == es[..|es| - 1] + [es[|es| - 1]];
      NothingRecent(es[..|es| - 1], t);
    }
  }

  lemma SwapRemoveKeeps(es: seq<Entry>, i: nat, e: Entry)
    requires i < |es| && e in es && e != es[i]
    ensures e in SwapRemove(es, i)
  {
    var j :| 0 <= j < |es| && es[j] == e;
    assert SwapRemove(es, i)[if j == |es| - 1 then i else j] == e;
  }

  /** The victim of an eviction was not accessed since `t` if what was fits the budget. */
  lemma VictimIsOld(es: seq<Entry>, budget: nat, t: u64)
    requires RecentBytes(es, t) <= budget < TotalBytes(es) && es != []
    ensures es[Lru(es, |es|)].lastAccess < t
  {
    if es[Lru(es, |es|)].lastAccess >= t {
      forall e | e in es ensures e.lastAccess >= t {
        var j :| 0 <= j < |es| && es[j] == e;
      }
      RecentIsTotal(es, t);
    }
  }

  /** Whatever was accessed since `t` survives eviction if it fits the budget together. */
  lemma {:induction false} RecentSurvive(es: seq<Entry>, budget: nat, t: u64)
    requires RecentBytes(es, t) <= budget
    ensures RecentBytes(Evict(es, budget).survivors, t) == RecentBytes(es, t)
    ensures forall e :: e in es && e.lastAccess >= t ==> e in Evict(es, budget).survivors
    decreases |es|
  {
    if TotalBytes(es) > budget && es != [] {
      var i := Lru(es, |es|);
      VictimIsOld(es, budget, t);
      RecentSwapRemove(es, i, t);
      RecentSurvive(SwapRemove(es, i), budget, t);
      hide Evict, SwapRemove, RecentBytes, TotalBytes, Lru;
      forall e | e in es && e.lastAccess >= t ensures e in SwapRemove(es, i) { SwapRemoveKeeps(es, i, e); }
      EvictStep(es, budget);
    }
  }

  lemma EvictStep(es: seq<Entry>, budget: nat)
    requires TotalBytes(es) > budget && es != []
    ensures Evict(es, budget).survivors == Evict(SwapRemove(es, Lru(es, |es|)), budget).survivors
  {
  }

  // ----- names of stored entries ----------------------------------------------------

  /** No stored name has more components than a name can hold. */
  ghost predicate ShortNames(es: seq<Entry>) {
    forall e :: e in es ==> |e.name.components| <= MAX_COMPONENTS
  }

  lemma SwapRemoveShort(es: seq<Entry>, i: nat)
    requires i < |es| && ShortNames(es)
    ensures ShortNames(SwapRemove(es, i))
  {
    hide SwapRemove;
    SwapRemoveWithin(es, i);
  }

  lemma UpdateShort(es: seq<Entry>, i: nat, e: Entry)
    requires i < |es| && ShortNames(es) && e.name == es[i].name
    ensures ShortNames(es[i := e])
  {
    InTable(es, i);
    forall x | x in es[i := e] ensures x in es || x == e {}
  }

  lemma AppendShort(es: seq<Entry>, e: Entry)
    requires ShortNames(es) && |e.name.components| <= MAX_COMPONENTS
    ensures ShortNames(es + [e])
  {
  }

  // ----- storing --------------------------------------------------------------------

  datatype Stored = Stored(ok: bool, entries: seq<Entry>)

  /** The name psirp_cs_store gives a new entry: rebuilt from the components, whatever that
      yields, with the version copied over. */
  function StoredName(n: Name): Name {
    Rebuild(n.components).name.(version := n.version, hasVersion := n.hasVersion)
  }

  function NewEntry(n: Name, data: Content, freshnessMs: u32, now: u64): Entry {
    Entry(StoredName(n), data, now, freshnessMs, now, 0)
  }

  function Renewed(e: Entry, data: Content, freshnessMs: u32, now: u64): Entry {
    e.(data := data, timestamp := now, freshnessMs := freshnessMs, lastAccess := now)
  }

  /** psirp_cs_store: update in place, refuse when full, or append and enforce the budget. */
  function StoreEntry(es: seq<Entry>, maxBytes: nat, n: Name, data: Content, freshnessMs: u32, now: u64): Stored {
    if Size(data) == 0 || Size(data) > MAX_DATA then Stored(false, es)
    else
      var i := FirstEqual(es, n);
      if i < |es| then Stored(true, es[i := Renewed(es[i], data, freshnessMs, now)])
      else if |es| >= CAPACITY then Stored(false, es)
      else Stored(true, Enforce(es + [NewEntry(n, data, freshnessMs, now)], maxBytes).survivors)
  }

  /** A store succeeds exactly when the data has a storable size and the name is held already or a
      slot is free. */
  lemma AcceptedIff(es: seq<Entry>, maxBytes: nat, n: Name, data: Content, freshnessMs: u32, now: u64)
    ensures StoreEntry(es, maxBytes, n, data, freshnessMs, now).ok
        <==> 0 < Size(data) <= 1_048_576
             && ((exists i :: 0 <= i < |es| && NameEqual(es[i].name, n)) || |es| < 4096)
  {
    hide NameEqual, Enforce;
    var k := FirstEqual(es, n);
    if k < |es| { assert NameEqual(es[k].name, n); }
  }

  lemma PlainStoredName(n: Name)
    requires Plain(n)
    ensures StoredName(n) == n
  {
    RebuildClean(n.components);
  }

  /** Inserting under a budget leaves the store within it; the new entry itself stays when it
      fits and no other entry has the same access time. */
  lemma {:induction false} InsertRespectsBudget(es: seq<Entry>, maxBytes: nat, n: Name, data: Content,
                                                freshnessMs: u32, now: u64)
    requires 0 < Size(data) <= MAX_DATA && maxBytes > 0 && |es| < CAPACITY
    requires FirstEqual(es, n) == |es|
    ensures TotalBytes(StoreEntry(es, maxBytes, n, data, freshnessMs, now).entries) <= maxBytes
    ensures Size(data) <= maxBytes && (forall x :: x in es ==> x.lastAccess < now) ==>
              NewEntry(n, data, freshnessMs, now) in StoreEntry(es, maxBytes, n, data, freshnessMs, now).entries
  {
    var e := NewEntry(n, data, freshnessMs, now);
    EvictNoMoreThanNeeded(es + [e], maxBytes);
    if Size(data) <= maxBytes && forall x :: x in es ==> x.lastAccess < now {
      NewestSurvives(es + [e], e, maxBytes);
    }
  }

  /** A successful store leaves the table within its budget exactly when it inserted, or when the
      replaced data happened to make room: replacing in place never evicts. */
  lemma BudgetKeptIff(es: seq<Entry>, maxBytes: nat, n: Name, data: Content, freshnessMs: u32, now: u64)
    requires maxBytes > 0 && StoreEntry(es, maxBytes, n, data, freshnessMs, now).ok
    ensures var i := FirstEqual(es, n);
      TotalBytes(StoreEntry(es, maxBytes, n, data, freshnessMs, now).entries) <= maxBytes
      <==> i == |es| || TotalBytes(es) - Size(es[i].data) + Size(data) <= maxBytes
  {
    var i := FirstEqual(es, n);
    if i < |es| {
      TotalUpdate(es, i, Renewed(es[i], data, freshnessMs, now));
    } else {
      EvictNoMoreThanNeeded(es + [NewEntry(n, data, freshnessMs, now)], maxBytes);
    }
  }

  // ----- removing -------------------------------------------------------------------

  function RemoveEntry(es: seq<Entry>, n: Name): Stored {
    var i := FirstEqual(es, n);
    if i < |es| then Stored(true, SwapRemove(es, i)) else Stored(false, es)
  }

  /** Removing succeeds exactly when the name is held, and one entry of that name is all that goes. */
  lemma RemovedIff(es: seq<Entry>, n: Name)
    ensures var r := RemoveEntry(es, n);
      (r.ok <==> exists i :: 0 <= i < |es| && NameEqual(es[i].name, n))
      && (!r.ok ==> r.entries == es)
      && (r.ok ==> exists e :: e in es && NameEqual(e.name, n) && multiset(es) == multiset(r.entries) + multiset{e})
  {
    hide NameEqual, SwapRemove;
    var i := FirstEqual(es, n);
    if i < |es| {
      SwapRemoveLosesOne(es, i);
      InTable(es, i);
      assert NameEqual(es[i].name, n);
    }
  }

  /** The backward loop of psirp_cs_gc over the entries below `i`. */
  function Sweep(es: seq<Entry>, i: nat, now: u64): seq<Entry>
    requires i <= |es|
    decreases i
  {
    if i == 0 then es
    else if Expired(es[i - 1], now) then Sweep(SwapRemove(es, i - 1), i - 1, now)
    else Sweep(es, i - 1, now)
  }

  function Live(es: seq<Entry>, now: u64): seq<Entry> {
    if es == [] then []
    else Live(es[..|es| - 1], now)
         + if Expired(es[|es| - 1], now) then [] else [es[|es| - 1]]
  }

  lemma SweepUnfolds(es: seq<Entry>, i: nat, now: u64)
    requires 0 < i <= |es|
    ensures Sweep(es, i, now)
            == if Expired(es[i - 1], now) then Sweep(SwapRemove(es, i - 1), i - 1, now)
               else Sweep(es, i - 1, now)
  {
  }

  lemma LiveUnfolds(es: seq<Entry>, i: nat, now: u64)
    requires 0 < i <= |es|
    ensures Live(es[..i], now)
            == Live(es[..i - 1], now) + if Expired(es[i - 1], now) then [] else [es[i - 1]]
  {
    assert es[..i][..i - 1] == es[..i - 1];
  }

  function Copies(es: seq<Entry>, x: Entry): nat { multiset(es)[x] }

  lemma CopiesConcat(a: seq<Entry>, b: seq<Entry>, x: Entry)
    ensures Copies(a + b, x) == Copies(a, x) + Copies(b, x)
  {
  }

  lemma {:induction false} SweepKeepsTail(es: seq<Entry>, i: nat, now: u64, x: Entry)
    requires i <= |es|
    ensures Copies(Sweep(es, i, now), x) == Copies(Live(es[..i], now), x) + Copies(es[i..], x)
    decreases i
  {
    hide Copies, Live, Sweep, Expired, SwapRemove;
    if i == 0 {
      NothingSwept(es, now, x);
    } else {
      var k := i - 1;
      var kept := Live(es[..k], now);
      SweepUnfolds(es, i, now);
      LiveUnfolds(es, i, now);
      if Expired(es[k], now) {
        SwapTail(es, k, x);
        SweepKeepsTail(SwapRemove(es, k), k, now, x);
        assert kept + [] == kept;
      } else {
        SweepKeepsTail(es, k, now, x);
        CopiesConcat(kept, [es[k]], x);
        CopiesConcat([es[k]], es[i..], x);
        assert es[k..] == [es[k]] + es[i..];
      }
    }
  }

  lemma NothingSwept(es: seq<Entry>, now: u64, x: Entry)
    ensures Copies(Sweep(es, 0, now), x) == Copies(Live(es[..0], now), x) + Copies(es[0..], x)
  {
    assert es[0..] == es && Live(es[..0], now) == [];
    assert Copies([], x) == 0;
  }

  lemma SwapTail(es: seq<Entry>, k: nat, x: Entry)
    requires k < |es|
    ensures Copies(SwapRemove(es, k)[k..], x) == Copies(es[k + 1..], x)
    ensures SwapRemove(es, k)[..k] == es[..k]
  {
    var n := |es| - 1;
    if k < n {
      assert es[k + 1..] == es[k + 1..n] + [es[n]];
      assert SwapRemove(es, k)[k..] == [es[n]] + es[k + 1..n];
      CopiesConcat(es[k + 1..n], [es[n]], x);
      CopiesConcat([es[n]], es[k + 1..n], x);
    } else {
      assert SwapRemove(es, k)[k..] == es[k + 1..];
    }
  }

  /** gc removes exactly the expired entries: what the sweep leaves is the multiset of the
      unexpired ones. */
  lemma {:induction false} SweepRemovesExactlyExpired(es: seq<Entry>, now: u64)
    ensures multiset(Sweep(es, |es|, now)) == multiset(Live(es, now))
    ensures |Sweep(es, |es|, now)| == |Live(es, now)|
  {
    assert es[..|es|] == es && es[|es|..] == [];
    forall x ensures Copies(Sweep(es, |es|, now), x) == Copies(Live(es, now), x) {
      SweepKeepsTail(es, |es|, now, x);
      assert Copies([], x) == 0;
    }
    assert multiset(Sweep(es, |es|, now)) == multiset(Live(es, now)) by {
      forall x ensures multiset(Sweep(es, |es|, now))[x] == multiset(Live(es, now))[x] {
        assert Copies(Sweep(es, |es|, now), x) == Copies(Live(es, now), x);
      }
    }
    assert |multiset(Sweep(es, |es|, now))| == |multiset(Live(es, now))|;
  }

  lemma {:induction false} LiveMembers(es: seq<Entry>, now: u64, e: Entry)
    ensures e in Live(es, now) <==> e in es && !Expired(e, now)
  {
    if es != [] {
      LiveMembers(es[..|es| - 1], now, e);
      assert es == es[..|es| - 1] + [es[|es| - 1]];
    }
  }

  lemma {:induction false} SweepMembers(es: seq<Entry>, now: u64, e: Entry)
    ensures e in Sweep(es, |es|, now) <==> e in es && !Expired(e, now)
  {
    SweepRemovesExactlyExpired(es, now);
    LiveMembers(es, now, e);
    assert e in Sweep(es, |es|, now) <==> e in multiset(Sweep(es, |es|, now));
    assert e in Live(es, now) <==> e in multiset(Live(es, now));
  }

  /** psirp_cs_gc: the sweep, then the budget. */
  function Collect(es: seq<Entry>, maxBytes: nat, now: u64): Eviction {
    Enforce(Sweep(es, |es|, now), maxBytes)
  }

  /** After gc: only unexpired entries of the old table, all of them unless a budget is set, in
      which case the least recently used of them went; nothing appears twice that did not before. */
  lemma {:induction false} CollectLaw(es: seq<Entry>, maxBytes: nat, now: u64)
    ensures var r := Collect(es, maxBytes, now);
            multiset(r.survivors) + multiset(r.victims) == multiset(Live(es, now))
            && (maxBytes == 0 ==> r.victims == [])
            && (maxBytes > 0 ==> TotalBytes(r.survivors) <= maxBytes)
            && LruOrder(r)
  {
    SweepRemovesExactlyExpired(es, now);
    var swept := Sweep(es, |es|, now);
    EvictPartitions(swept, maxBytes);
    EvictNoMoreThanNeeded(swept, maxBytes);
    EvictLeastRecent(swept, maxBytes);
  }
}
