/** Least recently used over several operations: what a lookup has just read outlives the stores
    that come after it. */
module Recency {
  import opened Bytes
  import opened Names
  import opened Store
  import opened Coherence
  import opened Chunking

  datatype Put = Put(name: Name, data: Content, life: u32, at: u64)

  /** A run of stores; one that is refused changes nothing. */
  function StoreAll(es: seq<Entry>, maxBytes: nat, ps: seq<Put>): seq<Entry>
    decreases |ps|
  {
    if ps == [] then es
    else
      var p := ps[0];
      StoreAll(StoreEntry(es, maxBytes, p.name, p.data, p.life, p.at).entries, maxBytes, ps[1..])
  }

  function TotalSize(ps: seq<Put>): nat {
    if ps == [] then 0 else Size(ps[0].data) + TotalSize(ps[1..])
  }

  /** Stores of plain names outside `ks` at `t` or later. */
  ghost predicate Elsewhere(ps: seq<Put>, ks: set<Key>, t: u64) {
    forall i :: 0 <= i < |ps| ==> Plain(ps[i].name) && ps[i].name.components !in ks && t <= ps[i].at
  }

  lemma RefusedKeeps(es: seq<Entry>, maxBytes: nat, p: Put)
    requires !StoreEntry(es, maxBytes, p.name, p.data, p.life, p.at).ok
    ensures StoreEntry(es, maxBytes, p.name, p.data, p.life, p.at).entries == es
  {
  }

  /** A view of recent entries is kept by any run of stores elsewhere that fits the budget. */
  lemma {:induction false} StoresKeepView(es: seq<Entry>, maxBytes: nat, ps: seq<Put>, m: map<Key, Record>,
                                          ks: set<Key>, t: u64)
    requires IsView(es, m, ks, t) && Elsewhere(ps, ks, t) && FitsSince(es, maxBytes, TotalSize(ps), t)
    ensures IsView(StoreAll(es, maxBytes, ps), m, ks, t)
    decreases |ps|
  {
    if ps != [] {
      var p := ps[0];
      hide StoreEntry, IsView, Plain, RecentBytes;
      var s := StoreEntry(es, maxBytes, p.name, p.data, p.life, p.at);
      assert Plain(p.name) && p.name.components !in ks && t <= p.at;
      if s.ok {
        StoreView(es, maxBytes, p.name, p.data, p.life, p.at, m, ks, t);
        SameView(s.entries, m, p.name.components, Record(p.data, p.at, p.life), ks, t);
      } else {
        RefusedKeeps(es, maxBytes, p);
      }
      StoresKeepView(s.entries, maxBytes, ps[1..], m, ks, t);
    }
  }

  lemma SameView(es: seq<Entry>, m: map<Key, Record>, k: Key, r: Record, ks: set<Key>, t: u64)
    requires IsView(es, m[k := r], ks, t) && k !in ks
    ensures IsView(es, m, ks, t)
  {
    hide AllSingle, Has;
    forall x | x in m && x in ks ensures Has(es, x, m[x], t) {
      assert m[k := r][x] == m[x];
    }
  }

  // ----- one entry ------------------------------------------------------------------

  lemma LookedHas(es: seq<Entry>, n: Name, now: u64)
    requires Find(es, n, now).Some?
    ensures var e := es[Find(es, n, now).value];
      Has(Looked(es, n, now), e.name.components, RecordOf(e), now)
  {
    hide Find;
    LookedRecent(es, n, now);
    var k, r := Find(es, n, now).value, Looked(es, n, now);
    assert r[k] in r;
  }

  lemma LookedSingle(es: seq<Entry>, n: Name, now: u64, k: Key)
    requires Single(es, k)
    ensures Single(Looked(es, n, now), k)
  {
    hide Find, Single;
    var r := Find(es, n, now);
    if r.Some? { TouchSingle(es, r.value, now, k); }
  }

  lemma FoundIsNamed(es: seq<Entry>, n: Name, now: u64)
    requires Plain(n) && Find(es, n, now).Some?
    ensures es[Find(es, n, now).value].name.components == n.components
  {
    PlainUnversioned(n);
  }

  /** What was stored is found for exactly one millisecond more than its lifetime, or for ever when
      that is 0. */
  lemma StoredUntil(es: seq<Entry>, maxBytes: nat, n: Name, data: Content, life: u32, at: u64, later: u64)
    requires Plain(n) && Single(es, n.components) && FitsSince(es, maxBytes, Size(data), at) && at <= later
    requires StoreEntry(es, maxBytes, n, data, life, at).ok
    ensures var after := StoreEntry(es, maxBytes, n, data, life, at).entries;
      var k := Find(after, n, later);
      (k.Some? <==> life == 0 || later - at < (life + 1) * 1_000_000)
      && (k.Some? ==> after[k.value].data == data)
  {
    hide StoreEntry, Plain, Single, Has, FitsSince, Find;
    var k, rec := n.components, Record(data, at, life);
    StoreOne(es, maxBytes, n, data, life, at, k, rec, at);
    var after := StoreEntry(es, maxBytes, n, data, life, at).entries;
    OneView(after, k, rec, at);
    EarlierView(after, map[k := rec], {k}, at);
    hide IsView;
    FindView(after, n, later, map[k := rec], {k});
    TooOldIff(at, life, later);
  }

  /** An entry that a lookup found is found by later lookups, while its lifetime lasts, whatever is
      stored elsewhere in between, if that fits the budget together with everything accessed since
      the lookup. */
  lemma LookedStays(es: seq<Entry>, maxBytes: nat, n: Name, now: u64, ps: seq<Put>, later: u64)
    requires Plain(n) && Single(es, n.components) && Find(es, n, now).Some?
    requires Elsewhere(ps, {n.components}, now)
    requires FitsSince(Looked(es, n, now), maxBytes, TotalSize(ps), now)
    ensures var e, after := es[Find(es, n, now).value], StoreAll(Looked(es, n, now), maxBytes, ps);
      var k := Find(after, n, later);
      (k.Some? <==> !Expired(e, later)) && (k.Some? ==> RecordOf(after[k.value]) == RecordOf(e))
  {
    hide Find, Looked, Single, Has, Plain, FitsSince, Elsewhere, StoreAll, TotalSize;
    var k, r := n.components, RecordOf(es[Find(es, n, now).value]);
    FoundIsNamed(es, n, now);
    LookedHas(es, n, now);
    LookedSingle(es, n, now, k);
    OneView(Looked(es, n, now), k, r, now);
    var m, ks := map[k := r], {k};
    StoresKeepView(Looked(es, n, now), maxBytes, ps, m, ks, now);
    EarlierView(StoreAll(Looked(es, n, now), maxBytes, ps), m, ks, now);
    hide IsView;
    FindView(StoreAll(Looked(es, n, now), maxBytes, ps), n, later, m, ks);
  }

  /** When no manifest is live, looking an object up is looking its plain entry up. */
  lemma SmallRead(es: seq<Entry>, n: Name, cap: nat, clock: seq<u64>, mn: Name)
    requires |clock| > MAX_CHUNKS && InitName(ManifestPath(n)) == Init(true, mn) && Find(es, mn, clock[0]).None?
    ensures var k, r := Find(es, n, clock[1]), LookupChunked(es, n, cap, clock);
      && r.entries == Looked(es, n, clock[1])
      && (r.data.Some? <==> k.Some? && es[k.value].data.Raw? && |es[k.value].data.bytes| <= cap)
      && (r.data.Some? ==> r.data.value == es[k.value].data.bytes)
  {
    hide InitName, ManifestPath, Find;
  }

  // ----- a large object -------------------------------------------------------------

  lemma TouchStaysRecent(es: seq<Entry>, n: Name, now: u64, k: Key, r: Record, t: u64)
    requires Has(es, k, r, t) && t <= now
    ensures Has(Looked(es, n, now), k, r, t)
  {
    hide Find;
    LookedRecent(es, n, now);
    var e :| e in es && e.name.components == k && RecordOf(e) == r && e.lastAccess >= t;
    var j :| 0 <= j < |es| && es[j] == e;
    assert Looked(es, n, now)[j] in Looked(es, n, now);
  }

  lemma HasEarlier(es: seq<Entry>, k: Key, r: Record, t: u64, u: u64)
    requires Has(es, k, r, t) && u <= t
    ensures Has(es, k, r, u)
  {
    var e :| e in es && e.name.components == k && RecordOf(e) == r && e.lastAccess >= t;
    assert e in es;
  }

  /** The manifest and the chunks below `i` are recent. */
  ghost predicate PartsRecent(es: seq<Entry>, w: map<Key, Record>, cs: Key, data: seq<byte>, i: nat, t: u64) {
    && ManifestKey(cs) in w && Has(es, ManifestKey(cs), w[ManifestKey(cs)], t)
    && forall j :: 0 <= j < i && HasPiece(data, j) ==> ChunkKey(cs, j) in w && Has(es, ChunkKey(cs, j), w[ChunkKey(cs, j)], t)
  }

  lemma LookedPart(es: seq<Entry>, n: Name, w: map<Key, Record>, ks: set<Key>, now: u64, t: u64)
    requires IsView(es, w, ks, 0) && Plain(n) && n.components in ks && n.components in w
    requires !Stale(w[n.components], now) && t <= now
    ensures Has(Looked(es, n, now), n.components, w[n.components], t) && IsView(Looked(es, n, now), w, ks, 0)
  {
    hide IsView, Plain, Find, Looked, Has, Stale;
    FindView(es, n, now, w, ks);
    LookView(es, n, now, w, ks);
    FoundIsNamed(es, n, now);
    LookedHas(es, n, now);
    HasEarlier(Looked(es, n, now), n.components, w[n.components], now, t);
  }

  lemma {:induction false} ChunksRecent(es: seq<Entry>, n: Name, data: seq<byte>, clock: seq<u64>, i: nat,
                                        w: map<Key, Record>, ks: set<Key>, t: u64)
    requires IsView(es, w, ks, 0) && PartKeys(n.components) <= ks && Available(w, n.components, data, clock)
    requires |clock| > MAX_CHUNKS && NotBefore(clock, t)
    requires Plain(n) && |n.components| + 2 <= MAX_COMPONENTS
    requires i <= |Refs(n.components, data, 0)| <= MAX_CHUNKS
    requires PartsRecent(es, w, n.components, data, i, t)
    ensures var r := LookupChunks(es, Refs(n.components, data, 0), clock, i).entries;
      IsView(r, w, ks, 0) && PartsRecent(r, w, n.components, data, MAX_CHUNKS, t)
    decreases MAX_CHUNKS - i
  {
    var cs := n.components;
    hide Refs, IsView, Plain, Find, Looked, Rest, Piece, PlainName, PartKeys, Available, ChunkKey, PartsRecent,
      NotBefore, LookupChunks;
    RefsEnd(cs, data, 0);
    var refs := Refs(cs, data, 0);
    if i < |refs| {
      RefAt(cs, data, 0, i);
      var cn := refs[i].name;
      PieceFound(es, n, data, clock, i, w, ks);
      PartStep(es, n, data, clock, i, w, ks, t);
      ChunksRecent(Looked(es, cn, clock[i + 1]), n, data, clock, i + 1, w, ks, t);
      NextEntries(es, refs, clock, i);
    } else {
      LastEntries(es, refs, clock, i);
      AllPieces(es, w, cs, data, i, t);
    }
  }

  lemma NextEntries(es: seq<Entry>, refs: seq<ChunkRef>, clock: seq<u64>, i: nat)
    requires i < |refs| < |clock| && Find(es, refs[i].name, clock[i + 1]).Some?
    requires es[Find(es, refs[i].name, clock[i + 1]).value].data.Raw?
    ensures LookupChunks(es, refs, clock, i).entries
         == LookupChunks(Looked(es, refs[i].name, clock[i + 1]), refs, clock, i + 1).entries
  {
    hide Find, Looked;
  }

  lemma LastEntries(es: seq<Entry>, refs: seq<ChunkRef>, clock: seq<u64>, i: nat)
    requires i == |refs| < |clock|
    ensures LookupChunks(es, refs, clock, i).entries == es
  {
  }

  lemma AllPieces(es: seq<Entry>, w: map<Key, Record>, cs: Key, data: seq<byte>, i: nat, t: u64)
    requires PartsRecent(es, w, cs, data, i, t) && !HasPiece(data, i)
    ensures PartsRecent(es, w, cs, data, MAX_CHUNKS, t)
  {
    hide Has, ChunkKey, ManifestKey;
    assert forall j: nat :: HasPiece(data, j) ==> j < i;
  }

  lemma PartStep(es: seq<Entry>, n: Name, data: seq<byte>, clock: seq<u64>, i: nat,
                 w: map<Key, Record>, ks: set<Key>, t: u64)
    requires IsView(es, w, ks, 0) && PartKeys(n.components) <= ks && Available(w, n.components, data, clock)
    requires NotBefore(clock, t) && i + 1 < |clock| && HasPiece(data, i)
    requires Plain(n) && |n.components| + 2 <= MAX_COMPONENTS
    requires PartsRecent(es, w, n.components, data, i, t)
    ensures PartsRecent(Looked(es, PlainName(ChunkKey(n.components, i)), clock[i + 1]), w, n.components, data, i + 1, t)
  {
    var cs := n.components;
    hide IsView, Plain, Find, Looked, Has, Stale, Piece, PlainName, ChunkKey, ManifestKey;
    PartNames(n, i);
    var cn := PlainName(ChunkKey(cs, i));
    PlainComponents(ChunkKey(cs, i));
    assert t <= clock[i + 1];
    LookedPart(es, cn, w, ks, clock[i + 1], t);
    var r := Looked(es, cn, clock[i + 1]);
    TouchStaysRecent(es, cn, clock[i + 1], ManifestKey(cs), w[ManifestKey(cs)], t);
    forall j | 0 <= j < i + 1 && HasPiece(data, j)
      ensures ChunkKey(cs, j) in w && Has(r, ChunkKey(cs, j), w[ChunkKey(cs, j)], t)
    {
      if j < i { TouchStaysRecent(es, cn, clock[i + 1], ChunkKey(cs, j), w[ChunkKey(cs, j)], t); }
    }
  }

  lemma PlainComponents(cs: Key)
    ensures PlainName(cs).components == cs
  {
  }

  lemma ManifestEntries(es: seq<Entry>, n: Name, cap: nat, clock: seq<u64>, mn: Name, k: nat)
    requires |clock| > MAX_CHUNKS && InitName(ManifestPath(n)) == Init(true, mn)
    requires Find(es, mn, clock[0]) == Some(k) && k < |es| && es[k].data.Manifest?
    requires es[k].data.totalLen <= cap && |es[k].data.chunks| <= MAX_CHUNKS
    ensures LookupChunked(es, n, cap, clock).entries
         == LookupChunks(Looked(es, mn, clock[0]), es[k].data.chunks, clock, 0).entries
  {
    hide InitName, ManifestPath, Find, Looked, LookupChunks;
  }

  /** Reading a large object counts as an access to its manifest and to every chunk. */
  lemma ObjectRead(es: seq<Entry>, n: Name, data: seq<byte>, cap: nat, clock: seq<u64>,
                   w: map<Key, Record>, ks: set<Key>, t: u64)
    requires |clock| > MAX_CHUNKS && IsView(es, w, ks, 0) && PartKeys(n.components) <= ks && Available(w, n.components, data, clock)
    requires Plain(n) && |n.components| + 2 <= MAX_COMPONENTS && |data| <= cap && NotBefore(clock, t)
    requires ManifestKey(n.components) in w && !Stale(w[ManifestKey(n.components)], clock[0])
    requires w[ManifestKey(n.components)].data == Manifest(|data|, Refs(n.components, data, 0))
    ensures var r := LookupChunked(es, n, cap, clock).entries;
      IsView(r, w, ks, 0) && PartsRecent(r, w, n.components, data, MAX_CHUNKS, t)
  {
    var cs := n.components;
    hide Available, Plain, InitName, ManifestPath, PlainName, Refs, LookupChunks, LookupChunked, NotBefore, IsView, Stale,
      Find, Looked, Has, PartsRecent, ManifestKey, PartKeys;
    PartNames(n, 0);
    var mn := PlainName(ManifestKey(cs));
    ManifestLooked(es, n, data, clock[0], clock, w, ks, t);
    ManifestShape(cs, data);
    ManifestEntries(es, n, cap, clock, mn, Find(es, mn, clock[0]).value);
    ChunksRecent(Looked(es, mn, clock[0]), n, data, clock, 0, w, ks, t);
  }

  lemma ManifestLooked(es: seq<Entry>, n: Name, data: seq<byte>, now: u64, clock: seq<u64>,
                       w: map<Key, Record>, ks: set<Key>, t: u64)
    requires IsView(es, w, ks, 0) && ManifestKey(n.components) in ks && Plain(PlainName(ManifestKey(n.components)))
    requires NotBefore(clock, t) && now in clock
    requires ManifestKey(n.components) in w && !Stale(w[ManifestKey(n.components)], now)
    ensures var mn, rec := PlainName(ManifestKey(n.components)), w[ManifestKey(n.components)];
      var k, r := Find(es, mn, now), Looked(es, mn, now);
      k.Some? && es[k.value].data == rec.data && IsView(r, w, ks, 0) && PartsRecent(r, w, n.components, data, 0, t)
  {
    hide Plain, PlainName, IsView, Stale, Find, Looked, Has, ManifestKey;
    var mn := PlainName(ManifestKey(n.components));
    PlainComponents(ManifestKey(n.components));
    FindView(es, mn, now, w, ks);
    LookedPart(es, mn, w, ks, now, t);
  }

  /** Nothing but the object's parts is in its own view. */
  lemma OnlyParts(es: seq<Entry>, cs: Key, data: seq<byte>, life: u32, clock: seq<u64>, ks: set<Key>, t: u64)
    requires |clock| > MAX_CHUNKS && IsView(es, ObjectView(map[], cs, data, life, clock), ks, 0)
    requires PartsRecent(es, ObjectView(map[], cs, data, life, clock), cs, data, MAX_CHUNKS, t)
    ensures IsView(es, ObjectView(map[], cs, data, life, clock), ks, t)
  {
    var w := ObjectView(map[], cs, data, life, clock);
    hide Has, AllSingle, WithChunks, ChunkKey, ManifestKey, Refs;
    forall k | k in w && k in ks ensures Has(es, k, w[k], t) {
      WithChunksAt(map[], cs, data, life, clock, 0, k);
    }
  }

  /** An object stored and read keeps reading back whatever is stored elsewhere afterwards, if that
      fits the budget together with everything accessed since the read began: the read itself keeps
      its parts from being evicted, however old they are. */
  lemma ReadObjectStays(es: seq<Entry>, maxBytes: nat, n: Name, data: seq<byte>, life: u32, clock: seq<u64>,
                        cap: nat, later: seq<u64>, ps: seq<Put>, again: seq<u64>, s: u64, t: u64)
    requires AllSingle(es, PartKeys(n.components)) && Plain(n) && |n.components| + 2 <= MAX_COMPONENTS
    requires |clock| > MAX_CHUNKS && |later| > MAX_CHUNKS && |again| > MAX_CHUNKS
    requires StillFresh(life, clock, later) && StillFresh(life, clock, again)
    requires CHUNK_SIZE < |data| <= MAX_CHUNKS * CHUNK_SIZE && |data| <= cap
    requires NotBefore(clock, s) && FitsSince(es, maxBytes, |data| + MANIFEST_SIZE, s)
    requires StoreChunked(es, maxBytes, n, data, life, clock).ok
    requires NotBefore(later, t) && Elsewhere(ps, PartKeys(n.components), t)
    requires FitsSince(LookupChunked(StoreChunked(es, maxBytes, n, data, life, clock).entries, n, cap, later).entries,
                       maxBytes, TotalSize(ps), t)
    ensures var read := LookupChunked(StoreChunked(es, maxBytes, n, data, life, clock).entries, n, cap, later).entries;
      LookupChunked(StoreAll(read, maxBytes, ps), n, cap, again).data == Some(data)
  {
    hide StoreChunked, LookupChunked, Plain, AllSingle, PartKeys, Has, StoreAll, TotalSize, Elsewhere;
    var cs, ks := n.components, PartKeys(n.components);
    StoreChunkedView(es, maxBytes, n, data, life, clock, map[], ks, s);
    var stored, w := StoreChunked(es, maxBytes, n, data, life, clock).entries, ObjectView(map[], cs, data, life, clock);
    ObjectAvailable(map[], cs, data, life, clock, later);
    ObjectAvailable(map[], cs, data, life, clock, again);
    FreshRecord(Manifest(|data|, Refs(cs, data, 0)), life, clock, later, MAX_CHUNKS, 0);
    FreshRecord(Manifest(|data|, Refs(cs, data, 0)), life, clock, again, MAX_CHUNKS, 0);
    EarlierView(stored, w, ks, s);
    hide StillFresh, FitsSince, IsView, Available, Refs, Stale, WithChunks, NotBefore, PartsRecent;
    ObjectRead(stored, n, data, cap, later, w, ks, t);
    var read := LookupChunked(stored, n, cap, later).entries;
    OnlyParts(read, cs, data, life, clock, ks, t);
    StoresKeepView(read, maxBytes, ps, w, ks, t);
    EarlierView(StoreAll(read, maxBytes, ps), w, ks, t);
    ReassembleView(StoreAll(read, maxBytes, ps), n, data, cap, again, w, ks);
  }

  /** Chunk `i` of a stored object is found under its own name and holds bytes 65536 i and up. */
  lemma ChunkFound(es: seq<Entry>, maxBytes: nat, n: Name, data: seq<byte>, life: u32, clock: seq<u64>, t: u64,
                   i: nat, later: u64)
    requires AllSingle(es, PartKeys(n.components)) && Plain(n) && |n.components| + 2 <= MAX_COMPONENTS
    requires |clock| > MAX_CHUNKS && StillFresh(life, clock, [later])
    requires 65536 < |data| && NotBefore(clock, t) && FitsSince(es, maxBytes, |data| + MANIFEST_SIZE, t)
    requires StoreChunked(es, maxBytes, n, data, life, clock).ok
    requires i < 18 && 65536 * i < |data|
    ensures var after := StoreChunked(es, maxBytes, n, data, life, clock).entries;
      var k := Find(after, PlainName(ChunkKey(n.components, i)), later);
      k.Some? && after[k.value].data == Raw(Take(data[65536 * i..], 65536))
  {
    PieceSpelled(n, data, i);
    hide StoreChunked, Plain, AllSingle, PartKeys, Has, Find, Piece;
    var cs, ks := n.components, PartKeys(n.components);
    StoreChunkedView(es, maxBytes, n, data, life, clock, map[], ks, t);
    var after, w := StoreChunked(es, maxBytes, n, data, life, clock).entries, ObjectView(map[], cs, data, life, clock);
    EarlierView(after, w, ks, t);
    ObjectHas(map[], cs, data, life, clock, i);
    FreshRecord(Raw(Piece(data, i)), life, clock, [later], i, 0);
    hide StillFresh, IsView, Stale, ObjectView, PlainName;
    PartNames(n, i);
    FindView(after, PlainName(ChunkKey(cs, i)), later, w, ks);
  }

  lemma PieceSpelled(n: Name, data: seq<byte>, i: nat)
    requires i < 18 && 65536 * i < |data|
    ensures HasPiece(data, i) && PlainName(ChunkKey(n.components, i)).components == ChunkKey(n.components, i)
    ensures ChunkKey(n.components, i) in PartKeys(n.components)
    ensures Piece(data, i) == Take(data[65536 * i..], 65536)
  {
    hide ChunkKey;
  }

  /** The parts' names: name/chunk/i and name/chunks. */
  lemma PartsSpelled(cs: Key, i: nat)
    ensures ChunkKey(cs, i) == cs + [Ascii("chunk"), Digits(i)]
    ensures ManifestKey(cs) == cs + [Ascii("chunks")]
  {
    assert Ascii("chunk") == CHUNK && Ascii("chunks") == CHUNKS;
  }
}
