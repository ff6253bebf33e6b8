/** Large objects in the content store: 64 KiB chunks under name/chunk/i and a manifest under
    name/chunks (psirp_cs_store_chunked, psirp_cs_lookup_chunked). */
module Chunking {
  import opened Bytes
  import opened Fnv
  import opened Names
  import opened Store
  import opened Coherence

  const CHUNK_SIZE: nat := 0x1_0000
  /** Slots in a manifest: 1 MiB / 64 KiB + 2. */
  const MAX_CHUNKS: nat := 18

  const CHUNK: seq<byte> := [99, 104, 117, 110, 107]        // "chunk"
  const CHUNKS: seq<byte> := [99, 104, 117, 110, 107, 115]  // "chunks"

  function ChunkPath(n: Name, i: nat): seq<byte> {
    NameText(n) + [SLASH] + CHUNK + [SLASH] + Digits(i)
  }

  function ManifestPath(n: Name): seq<byte> {
    NameText(n) + [SLASH] + CHUNKS
  }

  // ----- the two operations ---------------------------------------------------------

  datatype Chunks = Chunks(ok: bool, entries: seq<Entry>, refs: seq<ChunkRef>)

  function PieceLength(data: seq<byte>, i: nat): nat
    requires i * CHUNK_SIZE < |data|
  {
    if |data| - i * CHUNK_SIZE > CHUNK_SIZE then CHUNK_SIZE else |data| - i * CHUNK_SIZE
  }

  function Piece(data: seq<byte>, i: nat): seq<byte>
    requires i * CHUNK_SIZE < |data|
  {
    data[i * CHUNK_SIZE..i * CHUNK_SIZE + PieceLength(data, i)]
  }

  predicate HasPiece(data: seq<byte>, i: nat) {
    i * CHUNK_SIZE < |data| && i < MAX_CHUNKS
  }

  /** The chunk loop from chunk `i`; `clock` holds the successive clock readings. */
  function StoreChunks(es: seq<Entry>, maxBytes: nat, n: Name, data: seq<byte>, life: u32,
                       clock: seq<u64>, i: nat): Chunks
    requires |clock| > MAX_CHUNKS
    decreases MAX_CHUNKS - i
  {
    if !HasPiece(data, i) then Chunks(true, es, [])
    else
      var cn := InitName(ChunkPath(n, i));
      if !cn.ok then Chunks(false, es, [])
      else
        var s := StoreEntry(es, maxBytes, cn.name, Raw(Piece(data, i)), life, clock[i]);
        if !s.ok then Chunks(false, s.entries, [])
        else
          var r := StoreChunks(s.entries, maxBytes, n, data, life, clock, i + 1);
          Chunks(r.ok, r.entries, [ChunkRef(cn.name, PieceLength(data, i))] + r.refs)
  }

  function StoreChunked(es: seq<Entry>, maxBytes: nat, n: Name, data: seq<byte>, life: u32,
                        clock: seq<u64>): Stored
    requires |clock| > MAX_CHUNKS
  {
    if |data| <= CHUNK_SIZE then StoreEntry(es, maxBytes, n, Raw(data), life, clock[0])
    else
      var c := StoreChunks(es, maxBytes, n, data, life, clock, 0);
      var mn := InitName(ManifestPath(n));
      if !c.ok || !mn.ok then Stored(false, c.entries)
      else
        StoreEntry(c.entries, maxBytes, mn.name, Manifest(|data|, c.refs), life, clock[MAX_CHUNKS])
  }

  datatype Fetched = Fetched(data: Option<seq<byte>>, entries: seq<Entry>)

  /** The reassembly loop from chunk `i`: the bytes found, or None at the first missing chunk. */
  function LookupChunks(es: seq<Entry>, refs: seq<ChunkRef>, clock: seq<u64>, i: nat): Fetched
    requires i <= |refs| < |clock|
    decreases |refs| - i
  {
    if i == |refs| then Fetched(Some([]), es)
    else
      var r := Find(es, refs[i].name, clock[i + 1]);
      var after := Looked(es, refs[i].name, clock[i + 1]);
      if r.None? || !es[r.value].data.Raw? then Fetched(None, after)
      else
        var rest := LookupChunks(after, refs, clock, i + 1);
        match rest.data
        case None => rest
        case Some(tail) => Fetched(Some(es[r.value].data.bytes + tail), rest.entries)
  }

  function LookupChunked(es: seq<Entry>, n: Name, cap: nat, clock: seq<u64>): Fetched
    requires |clock| > MAX_CHUNKS
  {
    var mn := InitName(ManifestPath(n));
    if !mn.ok then Fetched(None, es)
    else
      var m := Find(es, mn.name, clock[0]);
      var after := Looked(es, mn.name, clock[0]);
      if m.None? then
        var r := Find(after, n, clock[1]);
        var last := Looked(after, n, clock[1]);
        if r.Some? && Size(after[r.value].data) <= cap && after[r.value].data.Raw?
        then Fetched(Some(after[r.value].data.bytes), last) else Fetched(None, last)
      else
        match es[m.value].data
        case Raw(_) => Fetched(None, after)
        case Manifest(total, refs) =>
          if total > cap || |refs| > MAX_CHUNKS then Fetched(None, after)
          else
            var r := LookupChunks(after, refs, clock, 0);
            if r.data.Some? && |r.data.value| != total then Fetched(None, r.entries) else r
  }

  // ----- the names of an object's parts ---------------------------------------------

  function ChunkKey(cs: Key, i: nat): Key { cs + [CHUNK, Digits(i)] }
  function ManifestKey(cs: Key): Key { cs + [CHUNKS] }

  lemma {:induction false} DigitsShort(i: nat)
    requires i < 100
    ensures |Digits(i)| <= 2
  {
    if i >= 10 { assert Digits(i / 10) == [DIGIT_0 + i / 10]; }
  }

  /** The texts the code prints are the canonical texts of the parts' names. */
  lemma {:induction false} PartNames(n: Name, i: nat)
    requires Plain(n) && |n.components| + 2 <= MAX_COMPONENTS && i < MAX_CHUNKS
    ensures InitName(ChunkPath(n, i)) == Init(true, PlainName(ChunkKey(n.components, i)))
    ensures InitName(ManifestPath(n)) == Init(true, PlainName(ManifestKey(n.components)))
    ensures Plain(PlainName(ChunkKey(n.components, i))) && Plain(PlainName(ManifestKey(n.components)))
  {
    var cs := n.components;
    DigitsShort(i);
    CanonicalParts(cs, i);
    InitCanonical(ChunkKey(cs, i));
    InitCanonical(ManifestKey(cs));
    hide InitName, Canonical, Digits, Hash;
    TextSnoc(cs, CHUNKS);
    TextSnoc(cs, CHUNK);
    TextSnoc(cs + [CHUNK], Digits(i));
    assert cs + [CHUNK] + [Digits(i)] == ChunkKey(cs, i);
    assert NameText(n) == TextOf(cs);
  }

  lemma CanonicalParts(cs: Key, i: nat)
    requires Canonical(cs) && |cs| + 2 <= MAX_COMPONENTS && |Digits(i)| <= 2
    ensures Canonical(ChunkKey(cs, i)) && Canonical(ManifestKey(cs))
  {
    var d := Digits(i);
    assert CanonicalComponent(d) by {
      assert !IsDigit(SLASH) && !IsDigit(AT) && !IsDigit(0);
    }
    assert CanonicalComponent(CHUNK) && CanonicalComponent(CHUNKS);
    hide CanonicalComponent, Digits;
  }

  lemma PartsDiffer(cs: Key, i: nat, j: nat)
    ensures ChunkKey(cs, i) == ChunkKey(cs, j) <==> i == j
    ensures ChunkKey(cs, i) != ManifestKey(cs) && ChunkKey(cs, i) != cs && ManifestKey(cs) != cs
  {
    assert ChunkKey(cs, i)[|cs| + 1] == Digits(i) && ChunkKey(cs, j)[|cs| + 1] == Digits(j);
    if Digits(i) == Digits(j) { DigitsInjective(i, j); }
    assert |ChunkKey(cs, i)| == |cs| + 2 && |ManifestKey(cs)| == |cs| + 1;
  }

  // ----- the table under chosen names -----------------------------------------------

  /** What the table holds under `k`: plain entries, at most one. */
  ghost predicate Single(es: seq<Entry>, k: Key) {
    && (forall i :: 0 <= i < |es| && es[i].name.components == k ==> Plain(es[i].name))
    && (forall i, j :: 0 <= i < j < |es| && es[i].name.components == k ==> es[j].name.components != k)
  }

  ghost predicate AllSingle(es: seq<Entry>, ks: set<Key>) {
    forall k :: k in ks ==> Single(es, k)
  }

  /** An entry under `k` with this record, accessed at `t` or later. */
  ghost predicate Has(es: seq<Entry>, k: Key, r: Record, t: u64) {
    exists e :: e in es && e.name.components == k && RecordOf(e) == r && e.lastAccess >= t
  }

  /** The records of `m` are in the table under their names and were accessed since `t`; under the
      names `ks` there is nothing else beside them. Other entries may be anything. */
  ghost predicate IsView(es: seq<Entry>, m: map<Key, Record>, ks: set<Key>, t: u64) {
    AllSingle(es, ks) && forall k :: k in m && k in ks ==> Has(es, k, m[k], t)
  }

  /** What was accessed since `t`, and `size` more bytes, fit the budget. */
  ghost predicate FitsSince(es: seq<Entry>, maxBytes: nat, size: nat, t: u64) {
    maxBytes == 0 || RecentBytes(es, t) + size <= maxBytes
  }

  // ----- one store, evictions included ----------------------------------------------

  lemma SwapRemoveSingle(es: seq<Entry>, i: nat, k: Key)
    requires i < |es| && Single(es, k)
    ensures Single(SwapRemove(es, i), k)
  {
    hide Plain;
  }

  lemma {:induction false} EvictSingle(es: seq<Entry>, budget: nat, k: Key)
    requires Single(es, k)
    ensures Single(Evict(es, budget).survivors, k)
    decreases |es|
  {
    if TotalBytes(es) > budget && es != [] {
      hide Single, SwapRemove;
      SwapRemoveSingle(es, Lru(es, |es|), k);
      EvictSingle(SwapRemove(es, Lru(es, |es|)), budget, k);
    }
  }

  /** The table between the write and the evictions of a successful store. */
  function Written(es: seq<Entry>, n: Name, data: Content, life: u32, now: u64): seq<Entry> {
    var i := FirstEqual(es, n);
    if i < |es| then es[i := Renewed(es[i], data, life, now)] else es + [NewEntry(n, data, life, now)]
  }

  lemma StoreShape(es: seq<Entry>, maxBytes: nat, n: Name, data: Content, life: u32, now: u64)
    requires StoreEntry(es, maxBytes, n, data, life, now).ok
    ensures var r, w := StoreEntry(es, maxBytes, n, data, life, now).entries, Written(es, n, data, life, now);
      r == w || (maxBytes > 0 && r == Evict(w, maxBytes).survivors)
  {
    hide FirstEqual, Evict, NewEntry;
  }

  /** Writing `n` puts one entry for it in place and leaves everything under other names. */
  lemma WrittenOthers(es: seq<Entry>, n: Name, data: Content, life: u32, now: u64, k: Key, r: Record, t: u64)
    requires Plain(n) && n.components != k
    ensures var w := Written(es, n, data, life, now);
      (Single(es, k) ==> Single(w, k)) && (Has(es, k, r, t) ==> Has(w, k, r, t))
  {
    PlainStoredName(n);
    hide Plain, FirstEqual, StoredName;
    var i, w := FirstEqual(es, n), Written(es, n, data, life, now);
    if Has(es, k, r, t) {
      var e :| e in es && e.name.components == k && RecordOf(e) == r && e.lastAccess >= t;
      var j :| 0 <= j < |es| && es[j] == e;
      assert w[j] == e;
    }
  }

  lemma WrittenHere(es: seq<Entry>, n: Name, data: Content, life: u32, now: u64, t: u64)
    requires Plain(n) && Single(es, n.components) && t <= now
    ensures var w := Written(es, n, data, life, now);
      Single(w, n.components) && Has(w, n.components, Record(data, now, life), t)
  {
    PlainStoredName(n);
    var i, w := FirstEqual(es, n), Written(es, n, data, life, now);
    if i < |es| {
      hide Plain, FirstEqual, StoredName;
      assert w[i] in w;
    } else {
      forall j | 0 <= j < |es| ensures es[j].name.components != n.components {
        assert !NameEqual(es[j].name, n);
      }
      hide Plain, FirstEqual, StoredName;
      assert w[|es|] in w;
    }
  }

  lemma WrittenRecent(es: seq<Entry>, n: Name, data: Content, life: u32, now: u64, t: u64)
    ensures RecentBytes(Written(es, n, data, life, now), t) <= RecentBytes(es, t) + Size(data)
    ensures |Written(es, n, data, life, now)| <= |es| + 1
  {
    hide FirstEqual, StoredName, RecentBytes;
    var i := FirstEqual(es, n);
    if i < |es| {
      RecentUpdate(es, i, Renewed(es[i], data, life, now), t);
    } else {
      RecentAppend(es, NewEntry(n, data, life, now), t);
    }
  }

  /** Evictions of a store lose nothing that was accessed since `t` if that fits the budget. */
  lemma StoreKeepsRecent(es: seq<Entry>, maxBytes: nat, n: Name, data: Content, life: u32, now: u64, t: u64)
    requires FitsSince(es, maxBytes, Size(data), t) && StoreEntry(es, maxBytes, n, data, life, now).ok
    ensures var r, w := StoreEntry(es, maxBytes, n, data, life, now).entries, Written(es, n, data, life, now);
      RecentBytes(r, t) <= RecentBytes(es, t) + Size(data)
      && (forall k, x :: Has(w, k, x, t) ==> Has(r, k, x, t))
      && (forall k :: Single(w, k) ==> Single(r, k))
  {
    hide StoreEntry, Written, RecentBytes, Evict, Single;
    StoreShape(es, maxBytes, n, data, life, now);
    WrittenRecent(es, n, data, life, now, t);
    var r, w := StoreEntry(es, maxBytes, n, data, life, now).entries, Written(es, n, data, life, now);
    if r != w {
      RecentSurvive(w, maxBytes, t);
      forall k | Single(w, k) ensures Single(r, k) { EvictSingle(w, maxBytes, k); }
    }
  }

  lemma StoreOne(es: seq<Entry>, maxBytes: nat, n: Name, data: Content, life: u32, now: u64, k: Key, x: Record, t: u64)
    requires FitsSince(es, maxBytes, Size(data), t) && StoreEntry(es, maxBytes, n, data, life, now).ok
    requires Plain(n) && t <= now && Single(es, k)
    ensures var r := StoreEntry(es, maxBytes, n, data, life, now).entries;
      Single(r, k)
      && (if k == n.components then Has(r, k, Record(data, now, life), t) else Has(es, k, x, t) ==> Has(r, k, x, t))
  {
    hide StoreEntry, Written, RecentBytes, Single, Has, FitsSince, Plain;
    StoreKeepsRecent(es, maxBytes, n, data, life, now, t);
    if k == n.components {
      WrittenHere(es, n, data, life, now, t);
    } else {
      WrittenOthers(es, n, data, life, now, k, x, t);
    }
  }

  /** A successful store that fits the budget with what is recent adds its record to the view, or
      leaves the view alone when its name is not among those viewed. */
  lemma StoreView(es: seq<Entry>, maxBytes: nat, n: Name, data: Content, life: u32, now: u64,
                  m: map<Key, Record>, ks: set<Key>, t: u64)
    requires IsView(es, m, ks, t) && Plain(n) && t <= now && FitsSince(es, maxBytes, Size(data), t)
    requires StoreEntry(es, maxBytes, n, data, life, now).ok
    ensures var r := StoreEntry(es, maxBytes, n, data, life, now).entries;
            IsView(r, m[n.components := Record(data, now, life)], ks, t)
            && RecentBytes(r, t) <= RecentBytes(es, t) + Size(data)
  {
    hide StoreEntry, RecentBytes, Single, Has, FitsSince, Plain;
    StoreKeepsRecent(es, maxBytes, n, data, life, now, t);
    var r, rec := StoreEntry(es, maxBytes, n, data, life, now).entries, Record(data, now, life);
    forall k | k in ks
      ensures Single(r, k) && (k == n.components ==> Has(r, k, rec, t)) && (k != n.components && k in m ==> Has(r, k, m[k], t))
    {
      StoreOne(es, maxBytes, n, data, life, now, k, if k in m then m[k] else rec, t);
    }
  }

  lemma EarlierView(es: seq<Entry>, m: map<Key, Record>, ks: set<Key>, t: u64)
    requires IsView(es, m, ks, t)
    ensures IsView(es, m, ks, 0)
  {
    hide AllSingle;
    forall k | k in m && k in ks ensures Has(es, k, m[k], 0) {
      assert Has(es, k, m[k], t);
    }
  }

  lemma LookView(es: seq<Entry>, n: Name, now: u64, m: map<Key, Record>, ks: set<Key>)
    requires IsView(es, m, ks, 0)
    ensures IsView(Looked(es, n, now), m, ks, 0)
  {
    var r := Find(es, n, now);
    hide Find, Has, Single;
    if r.Some? {
      var after := Looked(es, n, now);
      forall k | k in ks ensures Single(after, k) { TouchSingle(es, r.value, now, k); }
      forall k | k in m && k in ks ensures Has(after, k, m[k], 0) { TouchHas(es, r.value, now, k, m[k]); }
    }
  }

  lemma TouchSingle(es: seq<Entry>, i: nat, now: u64, k: Key)
    requires i < |es| && Single(es, k)
    ensures Single(Touch(es, i, now), k)
  {
    hide Plain;
  }

  lemma TouchHas(es: seq<Entry>, i: nat, now: u64, k: Key, r: Record)
    requires i < |es| && Has(es, k, r, 0)
    ensures Has(Touch(es, i, now), k, r, 0)
  {
    var e :| e in es && e.name.components == k && RecordOf(e) == r;
    var j :| 0 <= j < |es| && es[j] == e;
    assert Touch(es, i, now)[j] in Touch(es, i, now);
  }

  /** A name of the view is found exactly while its record is fresh. */
  lemma FindView(es: seq<Entry>, n: Name, now: u64, m: map<Key, Record>, ks: set<Key>)
    requires IsView(es, m, ks, 0) && Plain(n) && n.components in ks && n.components in m
    ensures var r := Find(es, n, now);
            (r.Some? <==> !Stale(m[n.components], now)) && (r.Some? ==> RecordOf(es[r.value]) == m[n.components])
  {
    PlainUnversioned(n);
    assert Has(es, n.components, m[n.components], 0);
    assert Single(es, n.components);
    hide IsView, AllSingle, Plain, Newest;
    var e :| e in es && e.name.components == n.components && RecordOf(e) == m[n.components];
    var i :| 0 <= i < |es| && es[i] == e;
    assert Stale(m[n.components], now) == Expired(es[i], now);
    assert Matches(es[i], n.components, now) == !Expired(es[i], now);
    var r := Find(es, n, now);
    if r.Some? { assert r.value == i; }
  }

  lemma PlainUnversioned(n: Name)
    requires Plain(n)
    ensures !n.hasVersion
  {
  }

  // ----- stores that need no eviction -----------------------------------------------

  ghost predicate RoomFor(es: seq<Entry>, maxBytes: nat, size: nat) {
    maxBytes == 0 || TotalBytes(es) + size <= maxBytes
  }

  /** A successful store that stays within the budget updates one entry or appends one. */
  lemma {:induction false} StoreEffect(es: seq<Entry>, maxBytes: nat, n: Name, data: Content, life: u32, now: u64)
    requires RoomFor(es, maxBytes, Size(data)) && StoreEntry(es, maxBytes, n, data, life, now).ok
    ensures var r, i := StoreEntry(es, maxBytes, n, data, life, now).entries, FirstEqual(es, n);
            r == (if i < |es| then es[i := Renewed(es[i], data, life, now)]
                  else es + [NewEntry(n, data, life, now)])
            && TotalBytes(r) <= TotalBytes(es) + Size(data) && |r| <= |es| + 1
  {
    var i := FirstEqual(es, n);
    hide FirstEqual, Rebuild;
    if i < |es| {
      TotalUpdate(es, i, Renewed(es[i], data, life, now));
      SizeWithinTotal(es, i);
    } else {
      TotalAppend(es, NewEntry(n, data, life, now));
    }
  }

  /** Nothing under `k` moved, came or went. */
  ghost predicate SameAt(es: seq<Entry>, after: seq<Entry>, k: Key) {
    && |es| <= |after|
    && (forall j :: 0 <= j < |es| ==>
          es[j] == after[j] || (es[j].name.components != k && after[j].name.components != k))
    && (forall j :: |es| <= j < |after| ==> after[j].name.components != k)
  }

  lemma SameAtTransitive(a: seq<Entry>, b: seq<Entry>, c: seq<Entry>, k: Key)
    requires SameAt(a, b, k) && SameAt(b, c, k)
    ensures SameAt(a, c, k)
  {
  }

  /** A store under another name leaves `k` alone, whatever the table holds. */
  lemma StoreSameAt(es: seq<Entry>, maxBytes: nat, n: Name, data: Content, life: u32, now: u64, k: Key)
    requires Plain(n) && n.components != k && RoomFor(es, maxBytes, Size(data))
    requires StoreEntry(es, maxBytes, n, data, life, now).ok
    ensures SameAt(es, StoreEntry(es, maxBytes, n, data, life, now).entries, k)
  {
    hide StoreEntry, StoredName, TotalBytes, Plain, RoomFor, FirstEqual;
    StoreEffect(es, maxBytes, n, data, life, now);
    PlainStoredName(n);
    assert NewEntry(n, data, life, now).name == n;
  }

  lemma StoreGrows(es: seq<Entry>, maxBytes: nat, n: Name, data: Content, life: u32, now: u64)
    requires RoomFor(es, maxBytes, Size(data)) && StoreEntry(es, maxBytes, n, data, life, now).ok
    ensures var r := StoreEntry(es, maxBytes, n, data, life, now).entries;
            TotalBytes(r) <= TotalBytes(es) + Size(data) && |r| <= |es| + 1
  {
    hide StoreEntry, TotalBytes, RoomFor, FirstEqual;
    StoreEffect(es, maxBytes, n, data, life, now);
  }

  /** Lookups of a name depend only on what the table holds under its components. */
  lemma SameFind(es: seq<Entry>, after: seq<Entry>, n: Name, now: u64)
    requires SameAt(es, after, n.components)
    ensures Find(after, n, now) == Find(es, n, now)
    ensures Find(es, n, now).Some? ==> after[Find(es, n, now).value] == es[Find(es, n, now).value]
  {
    if n.hasVersion {
      hide FirstLive, SameAt;
      SameFirstLive(es, after, n, now);
    } else {
      hide Newest, SameAt;
      SameNewest(es, after, n.components, now);
    }
  }

  lemma SameFirstLive(es: seq<Entry>, after: seq<Entry>, n: Name, now: u64)
    requires SameAt(es, after, n.components)
    ensures var i, j := FirstLive(es, n, now), FirstLive(after, n, now);
      |es| <= |after| && if i < |es| then j == i && after[j] == es[i] else j == |after|
  {
    hide FirstLive, Expired;
    var i, j := FirstLive(es, n, now), FirstLive(after, n, now);
    if i < |es| {
      assert es[i].name.components == n.components;
    }
    if j < |after| {
      assert after[j].name.components == n.components;
    }
  }

  lemma SameNewest(es: seq<Entry>, after: seq<Entry>, k: Key, now: u64)
    requires SameAt(es, after, k)
    ensures var i, j := Newest(es, |es|, k, now), Newest(after, |after|, k, now);
      i == j && (i.Some? ==> after[i.value] == es[i.value])
  {
    hide Newest, Expired;
    var i, j := Newest(es, |es|, k, now), Newest(after, |after|, k, now);
    if i.Some? {
      assert Matches(after[i.value], k, now);
    }
    if j.Some? {
      assert Matches(es[j.value], k, now);
    }
  }

  // ----- an object's names ----------------------------------------------------------

  /** The manifest's name and those of all chunks a manifest has room for. */
  function PartKeys(cs: Key): (ks: set<Key>)
    ensures ManifestKey(cs) in ks && forall i: nat :: i < MAX_CHUNKS ==> ChunkKey(cs, i) in ks
  {
    {ManifestKey(cs)} + (set i: nat | i < MAX_CHUNKS :: ChunkKey(cs, i))
  }

  // ----- storing --------------------------------------------------------------------

  /** The records of chunks `i` and up added to a view. */
  function WithChunks(m: map<Key, Record>, cs: Key, data: seq<byte>, life: u32, clock: seq<u64>, i: nat): map<Key, Record>
    requires |clock| > MAX_CHUNKS
    decreases MAX_CHUNKS - i
  {
    if !HasPiece(data, i) then m
    else
      WithChunks(m[ChunkKey(cs, i) := Record(Raw(Piece(data, i)), clock[i], life)], cs, data, life, clock, i + 1)
  }

  function Refs(cs: Key, data: seq<byte>, i: nat): seq<ChunkRef>
    decreases MAX_CHUNKS - i
  {
    if !HasPiece(data, i) then []
    else [ChunkRef(PlainName(ChunkKey(cs, i)), PieceLength(data, i))] + Refs(cs, data, i + 1)
  }

  lemma {:induction false} WithChunksAt(m: map<Key, Record>, cs: Key, data: seq<byte>, life: u32,
                                        clock: seq<u64>, i: nat, k: Key)
    requires |clock| > MAX_CHUNKS
    ensures var w := WithChunks(m, cs, data, life, clock, i);
            (forall j :: i <= j && HasPiece(data, j) && k == ChunkKey(cs, j) ==>
               k in w && w[k] == Record(Raw(Piece(data, j)), clock[j], life))
            && ((forall j :: i <= j && HasPiece(data, j) ==> k != ChunkKey(cs, j)) ==>
                  (k in w <==> k in m) && (k in m ==> w[k] == m[k]))
    decreases MAX_CHUNKS - i
  {
    if HasPiece(data, i) {
      var next := m[ChunkKey(cs, i) := Record(Raw(Piece(data, i)), clock[i], life)];
      WithChunksAt(next, cs, data, life, clock, i + 1, k);
      forall j | HasPiece(data, j) && k == ChunkKey(cs, j) ensures k == ChunkKey(cs, i) <==> i == j {
        PartsDiffer(cs, i, j);
      }
      hide Piece, ChunkKey;
    }
  }

  lemma StoreChunksStep(es: seq<Entry>, maxBytes: nat, n: Name, data: seq<byte>, life: u32,
                        clock: seq<u64>, i: nat, cn: Name)
    requires |clock| > MAX_CHUNKS && HasPiece(data, i) && InitName(ChunkPath(n, i)) == Init(true, cn)
    ensures var s := StoreEntry(es, maxBytes, cn, Raw(Piece(data, i)), life, clock[i]);
            var r, next := StoreChunks(es, maxBytes, n, data, life, clock, i),
                           StoreChunks(s.entries, maxBytes, n, data, life, clock, i + 1);
            r.ok == (s.ok && next.ok)
            && (s.ok ==> r.entries == next.entries && r.refs == [ChunkRef(cn, PieceLength(data, i))] + next.refs)
  {
    hide InitName, ChunkPath, StoreEntry, Piece, PieceLength;
  }

  lemma PieceSize(data: seq<byte>, i: nat)
    requires HasPiece(data, i)
    ensures Size(Raw(Piece(data, i))) == PieceLength(data, i)
    ensures PieceLength(data, i) <= |data| - i * CHUNK_SIZE
    ensures (i + 1) * CHUNK_SIZE <= |data| ==> PieceLength(data, i) == CHUNK_SIZE
  {
  }

  /** No reading of the clock is before `t`. */
  ghost predicate NotBefore(clock: seq<u64>, t: u64) {
    forall i :: 0 <= i < |clock| ==> t <= clock[i]
  }

  lemma {:induction false} StoreChunksView(es: seq<Entry>, maxBytes: nat, n: Name, data: seq<byte>, life: u32,
                                           clock: seq<u64>, i: nat, m: map<Key, Record>, ks: set<Key>, t: u64)
    requires |clock| > MAX_CHUNKS && IsView(es, m, ks, t) && NotBefore(clock, t)
    requires Plain(n) && |n.components| + 2 <= MAX_COMPONENTS
    requires i * CHUNK_SIZE <= |data| ==> FitsSince(es, maxBytes, |data| - i * CHUNK_SIZE, t)
    requires StoreChunks(es, maxBytes, n, data, life, clock, i).ok
    ensures var r := StoreChunks(es, maxBytes, n, data, life, clock, i);
            IsView(r.entries, WithChunks(m, n.components, data, life, clock, i), ks, t)
            && r.refs == Refs(n.components, data, i)
            && (i * CHUNK_SIZE <= |data| ==> RecentBytes(r.entries, t) <= RecentBytes(es, t) + |data| - i * CHUNK_SIZE)
    decreases MAX_CHUNKS - i
  {
    if HasPiece(data, i) {
      var cs := n.components;
      PartNames(n, i);
      var cn := PlainName(ChunkKey(cs, i));
      hide Plain, InitName, ChunkPath, IsView, StoreEntry, RecentBytes, StoreChunks, ChunkKey, Piece;
      StoreChunksStep(es, maxBytes, n, data, life, clock, i, cn);
      var s := StoreEntry(es, maxBytes, cn, Raw(Piece(data, i)), life, clock[i]);
      PieceSize(data, i);
      StoreView(es, maxBytes, cn, Raw(Piece(data, i)), life, clock[i], m, ks, t);
      var next := m[ChunkKey(cs, i) := Record(Raw(Piece(data, i)), clock[i], life)];
      StoreChunksView(s.entries, maxBytes, n, data, life, clock, i + 1, next, ks, t);
    }
  }

  /** The view after a large object was stored: its chunks and its manifest. */
  function ObjectView(m: map<Key, Record>, cs: Key, data: seq<byte>, life: u32, clock: seq<u64>): map<Key, Record>
    requires |clock| > MAX_CHUNKS
  {
    WithChunks(m, cs, data, life, clock, 0)[ManifestKey(cs) :=
      Record(Manifest(|data|, Refs(cs, data, 0)), clock[MAX_CHUNKS], life)]
  }

  lemma {:induction false} StoreChunkedView(es: seq<Entry>, maxBytes: nat, n: Name, data: seq<byte>, life: u32,
                                            clock: seq<u64>, m: map<Key, Record>, ks: set<Key>, t: u64)
    requires |clock| > MAX_CHUNKS && IsView(es, m, ks, t) && NotBefore(clock, t)
    requires Plain(n) && |n.components| + 2 <= MAX_COMPONENTS && |data| > CHUNK_SIZE
    requires FitsSince(es, maxBytes, |data| + MANIFEST_SIZE, t)
    requires StoreChunked(es, maxBytes, n, data, life, clock).ok
    ensures IsView(StoreChunked(es, maxBytes, n, data, life, clock).entries,
                   ObjectView(m, n.components, data, life, clock), ks, t)
  {
    PartNames(n, 0);
    hide Plain, InitName, ManifestPath, IsView, StoreEntry, RecentBytes;
    StoreChunksView(es, maxBytes, n, data, life, clock, 0, m, ks, t);
    var c := StoreChunks(es, maxBytes, n, data, life, clock, 0);
    StoreView(c.entries, maxBytes, PlainName(ManifestKey(n.components)), Manifest(|data|, c.refs), life,
              clock[MAX_CHUNKS], WithChunks(m, n.components, data, life, clock, 0), ks, t);
  }

  lemma StoreSucceeds(es: seq<Entry>, maxBytes: nat, n: Name, data: Content, life: u32, now: u64)
    requires 0 < Size(data) <= MAX_DATA && |es| < CAPACITY
    ensures var r := StoreEntry(es, maxBytes, n, data, life, now);
            r.ok && |r.entries| <= |es| + 1
  {
    if FirstEqual(es, n) == |es| && maxBytes > 0 {
      EvictPartitions(es + [NewEntry(n, data, life, now)], maxBytes);
    }
  }

  lemma {:induction false} StoreChunksSucceeds(es: seq<Entry>, maxBytes: nat, n: Name, data: seq<byte>, life: u32,
                                               clock: seq<u64>, i: nat)
    requires |clock| > MAX_CHUNKS && Plain(n) && |n.components| + 2 <= MAX_COMPONENTS
    requires |es| + |Refs(n.components, data, i)| < CAPACITY
    ensures var r := StoreChunks(es, maxBytes, n, data, life, clock, i);
            r.ok && |r.entries| <= |es| + |Refs(n.components, data, i)|
    decreases MAX_CHUNKS - i
  {
    if HasPiece(data, i) {
      PartNames(n, i);
      var cn := PlainName(ChunkKey(n.components, i));
      hide Plain, InitName, ChunkPath, StoreEntry, PlainName, ChunkKey, StoreChunks;
      StoreChunksStep(es, maxBytes, n, data, life, clock, i, cn);
      StoreSucceeds(es, maxBytes, cn, Raw(Piece(data, i)), life, clock[i]);
      StoreChunksSucceeds(StoreEntry(es, maxBytes, cn, Raw(Piece(data, i)), life, clock[i]).entries,
                          maxBytes, n, data, life, clock, i + 1);
    }
  }

  /** With a free slot for every chunk and one for the manifest, storing succeeds. */
  lemma {:induction false} StoreChunkedSucceeds(es: seq<Entry>, maxBytes: nat, n: Name, data: seq<byte>, life: u32, clock: seq<u64>)
    requires |clock| > MAX_CHUNKS && Plain(n) && |n.components| + 2 <= MAX_COMPONENTS
    requires |data| > CHUNK_SIZE && |es| + |Refs(n.components, data, 0)| < CAPACITY
    ensures StoreChunked(es, maxBytes, n, data, life, clock).ok
  {
    PartNames(n, 0);
    StoreChunksSucceeds(es, maxBytes, n, data, life, clock, 0);
    hide Plain, InitName, ManifestPath, StoreEntry, StoreChunks;
    var c := StoreChunks(es, maxBytes, n, data, life, clock, 0);
    StoreSucceeds(c.entries, maxBytes, PlainName(ManifestKey(n.components)), Manifest(|data|, c.refs), life,
                  clock[MAX_CHUNKS]);
  }

  // ----- reassembly -----------------------------------------------------------------

  lemma {:induction false} RefAt(cs: Key, data: seq<byte>, i: nat, j: nat)
    requires j < |Refs(cs, data, i)|
    ensures HasPiece(data, i + j) && Refs(cs, data, i)[j].name == PlainName(ChunkKey(cs, i + j))
    decreases j
  {
    if j > 0 {
      hide PlainName, ChunkKey;
      RefAt(cs, data, i + 1, j - 1);
    }
  }

  lemma {:induction false} RefsEnd(cs: Key, data: seq<byte>, i: nat)
    requires i <= MAX_CHUNKS
    ensures var r := Refs(cs, data, i); i + |r| <= MAX_CHUNKS && !HasPiece(data, i + |r|)
    decreases MAX_CHUNKS - i
  {
    if HasPiece(data, i) {
      hide PlainName, ChunkKey;
      RefsEnd(cs, data, i + 1);
    }
  }

  /** The part of an object its chunks can hold, from chunk `i` on. */
  function Rest(data: seq<byte>, i: nat): seq<byte> {
    var t := Take(data, MAX_CHUNKS * CHUNK_SIZE);
    if i * CHUNK_SIZE >= |t| then [] else t[i * CHUNK_SIZE..]
  }

  lemma RestStep(data: seq<byte>, i: nat)
    requires HasPiece(data, i)
    ensures Rest(data, i) == Piece(data, i) + Rest(data, i + 1)
  {
  }

  /** Every chunk is in the map and unexpired when its turn comes. */
  ghost predicate Available(m: map<Key, Record>, cs: Key, data: seq<byte>, clock: seq<u64>) {
    forall j :: 0 <= j && HasPiece(data, j) && j + 1 < |clock| ==>
      ChunkKey(cs, j) in m && m[ChunkKey(cs, j)].data == Raw(Piece(data, j))
      && !Stale(m[ChunkKey(cs, j)], clock[j + 1])
  }

  lemma LookupChunksStep(es: seq<Entry>, refs: seq<ChunkRef>, clock: seq<u64>, i: nat, bytes: seq<byte>, tail: seq<byte>)
    requires i < |refs| < |clock| && Find(es, refs[i].name, clock[i + 1]).Some?
    requires es[Find(es, refs[i].name, clock[i + 1]).value].data == Raw(bytes)
    requires LookupChunks(Looked(es, refs[i].name, clock[i + 1]), refs, clock, i + 1).data == Some(tail)
    ensures LookupChunks(es, refs, clock, i).data == Some(bytes + tail)
  {
    hide Find, Looked;
  }

  lemma PieceFound(es: seq<Entry>, n: Name, data: seq<byte>, clock: seq<u64>, i: nat, m: map<Key, Record>, ks: set<Key>)
    requires IsView(es, m, ks, 0) && PartKeys(n.components) <= ks && Available(m, n.components, data, clock)
    requires Plain(n) && |n.components| + 2 <= MAX_COMPONENTS && HasPiece(data, i) && i + 1 < |clock|
    ensures var cn := PlainName(ChunkKey(n.components, i));
            var r := Find(es, cn, clock[i + 1]);
            r.Some? && es[r.value].data == Raw(Piece(data, i)) && IsView(Looked(es, cn, clock[i + 1]), m, ks, 0)
  {
    hide IsView, Plain, Find, Looked, Piece, Stale;
    var cn := PlainName(ChunkKey(n.components, i));
    PartNames(n, i);
    FindView(es, cn, clock[i + 1], m, ks);
    LookView(es, cn, clock[i + 1], m, ks);
  }

  lemma NothingLeft(es: seq<Entry>, cs: Key, data: seq<byte>, clock: seq<u64>, i: nat)
    requires i == |Refs(cs, data, 0)| < |clock| && !HasPiece(data, i)
    ensures LookupChunks(es, Refs(cs, data, 0), clock, i).data == Some(Rest(data, i))
  {
    hide Refs;
  }

  lemma {:induction false} LookupChunksFinds(es: seq<Entry>, n: Name, data: seq<byte>, clock: seq<u64>, i: nat,
                                             m: map<Key, Record>, ks: set<Key>)
    requires IsView(es, m, ks, 0) && PartKeys(n.components) <= ks && Available(m, n.components, data, clock) && |clock| > MAX_CHUNKS
    requires Plain(n) && |n.components| + 2 <= MAX_COMPONENTS
    requires i <= |Refs(n.components, data, 0)| <= MAX_CHUNKS
    ensures LookupChunks(es, Refs(n.components, data, 0), clock, i).data == Some(Rest(data, i))
    decreases MAX_CHUNKS - i
  {
    var cs := n.components;
    hide Refs, IsView, Plain, Find, Looked, Rest, Piece, PlainName, LookupChunks, PartKeys, Available, ChunkKey;
    RefsEnd(cs, data, 0);
    var refs := Refs(cs, data, 0);
    if i < |refs| {
      RefAt(cs, data, 0, i);
      PieceFound(es, n, data, clock, i, m, ks);
      RestStep(data, i);
      LookupChunksFinds(Looked(es, refs[i].name, clock[i + 1]), n, data, clock, i + 1, m, ks);
      LookupChunksStep(es, refs, clock, i, Piece(data, i), Rest(data, i + 1));
    } else {
      NothingLeft(es, cs, data, clock, i);
    }
  }

  /** No record written at a reading of `clock` is expired at a reading of `later`. */
  ghost predicate StillFresh(life: u32, clock: seq<u64>, later: seq<u64>) {
    forall a, b :: 0 <= a < |clock| && 0 <= b < |later| ==>
      life == 0 || ((later[b] - clock[a]) % U64) / NS_PER_MS <= life
  }

  lemma FreshRecord(data: Content, life: u32, clock: seq<u64>, later: seq<u64>, i: nat, j: nat)
    requires StillFresh(life, clock, later) && i < |clock| && j < |later|
    ensures !Stale(Record(data, clock[i], life), later[j])
  {
  }

  lemma ObjectHas(m: map<Key, Record>, cs: Key, data: seq<byte>, life: u32, clock: seq<u64>, j: nat)
    requires |clock| > MAX_CHUNKS && HasPiece(data, j)
    ensures var w := ObjectView(m, cs, data, life, clock);
            ChunkKey(cs, j) in w && w[ChunkKey(cs, j)] == Record(Raw(Piece(data, j)), clock[j], life)
  {
    WithChunksAt(m, cs, data, life, clock, 0, ChunkKey(cs, j));
    PartsDiffer(cs, j, j);
    hide WithChunks, Piece, ChunkKey, ManifestKey, Refs;
  }

  lemma ObjectAvailable(m: map<Key, Record>, cs: Key, data: seq<byte>, life: u32, clock: seq<u64>, later: seq<u64>)
    requires |clock| > MAX_CHUNKS && StillFresh(life, clock, later)
    ensures Available(ObjectView(m, cs, data, life, clock), cs, data, later)
  {
    hide ObjectView, Piece, ChunkKey, Stale, StillFresh;
    forall j | 0 <= j && HasPiece(data, j) && j + 1 < |later|
      ensures var w := ObjectView(m, cs, data, life, clock);
              ChunkKey(cs, j) in w && w[ChunkKey(cs, j)].data == Raw(Piece(data, j))
              && !Stale(w[ChunkKey(cs, j)], later[j + 1])
    {
      ObjectHas(m, cs, data, life, clock, j);
      FreshRecord(Raw(Piece(data, j)), life, clock, later, j, j + 1);
    }
  }

  lemma ManifestShape(cs: Key, data: seq<byte>)
    ensures |Refs(cs, data, 0)| <= MAX_CHUNKS
    ensures Rest(data, 0) == Take(data, MAX_CHUNKS * CHUNK_SIZE)
  {
    RefsEnd(cs, data, 0);
  }

  /** Reading a view that holds an object's manifest and chunks gives the object back. */
  lemma {:induction false} ReassembleView(es: seq<Entry>, n: Name, data: seq<byte>, cap: nat, later: seq<u64>,
                                          w: map<Key, Record>, ks: set<Key>)
    requires |later| > MAX_CHUNKS && IsView(es, w, ks, 0) && PartKeys(n.components) <= ks && Available(w, n.components, data, later)
    requires Plain(n) && |n.components| + 2 <= MAX_COMPONENTS
    requires ManifestKey(n.components) in w && !Stale(w[ManifestKey(n.components)], later[0])
    requires w[ManifestKey(n.components)].data == Manifest(|data|, Refs(n.components, data, 0))
    ensures LookupChunked(es, n, cap, later).data
            == if |data| <= MAX_CHUNKS * CHUNK_SIZE && |data| <= cap then Some(data) else None
  {
    var cs := n.components;
    PartNames(n, 0);
    var mn := PlainName(ManifestKey(cs));
    hide Available, Plain, InitName, ManifestPath, PlainName, ChunkPath, Refs, Rest, LookupChunks, LookupChunked;
    FindView(es, mn, later[0], w, ks);
    LookView(es, mn, later[0], w, ks);
    ManifestShape(cs, data);
    hide IsView, Stale, Find;
    ManifestFound(es, n, cap, later, mn, Find(es, mn, later[0]).value);
    LookupChunksFinds(Looked(es, mn, later[0]), n, data, later, 0, w, ks);
  }

  /** psirp_cs_lookup_chunked once the manifest is found. */
  lemma ManifestFound(es: seq<Entry>, n: Name, cap: nat, later: seq<u64>, mn: Name, k: nat)
    requires |later| > MAX_CHUNKS && InitName(ManifestPath(n)) == Init(true, mn)
    requires Find(es, mn, later[0]) == Some(k) && k < |es| && es[k].data.Manifest?
    requires |es[k].data.chunks| <= MAX_CHUNKS
    ensures var r := LookupChunks(Looked(es, mn, later[0]), es[k].data.chunks, later, 0).data;
            LookupChunked(es, n, cap, later).data
            == if es[k].data.totalLen > cap || (r.Some? && |r.value| != es[k].data.totalLen) then None else r
  {
    hide InitName, ManifestPath, Find, Looked, LookupChunks;
  }

  /** Whatever the table holds, a lookup never returns more bytes than the caller has room for. */
  lemma ReturnedFits(es: seq<Entry>, n: Name, cap: nat, clock: seq<u64>)
    requires |clock| > MAX_CHUNKS
    ensures var r := LookupChunked(es, n, cap, clock).data; r.Some? ==> |r.value| <= cap
  {
    hide InitName, ManifestPath, Find, Looked, LookupChunks;
  }

  /** Storing a large object and reading it back gives exactly its bytes when it has at most 18
      chunks and the caller has room for it; a longer object is stored truncated and never reads
      back. The table may hold anything
      under other names, and under the object's own an older object; it may be over its budget, as
      long as the object fits together with what was accessed since some time `t` before it. */
  lemma {:induction false} ChunkedRoundTrip(es: seq<Entry>, maxBytes: nat, n: Name, data: seq<byte>, life: u32,
                                            clock: seq<u64>, cap: nat, later: seq<u64>, t: u64)
    requires AllSingle(es, PartKeys(n.components)) && Plain(n) && |n.components| + 2 <= MAX_COMPONENTS
    requires |clock| > MAX_CHUNKS && |later| > MAX_CHUNKS && StillFresh(life, clock, later)
    requires CHUNK_SIZE < |data| && NotBefore(clock, t) && FitsSince(es, maxBytes, |data| + MANIFEST_SIZE, t)
    requires StoreChunked(es, maxBytes, n, data, life, clock).ok
    ensures LookupChunked(StoreChunked(es, maxBytes, n, data, life, clock).entries, n, cap, later).data
            == if |data| <= MAX_CHUNKS * CHUNK_SIZE && |data| <= cap then Some(data) else None
  {
    hide StoreChunked, LookupChunked, Plain, AllSingle, PartKeys, Has;
    var ks := PartKeys(n.components);
    StoreChunkedView(es, maxBytes, n, data, life, clock, map[], ks, t);
    var after, w := StoreChunked(es, maxBytes, n, data, life, clock).entries, ObjectView(map[], n.components, data, life, clock);
    ObjectAvailable(map[], n.components, data, life, clock, later);
    FreshRecord(Manifest(|data|, Refs(n.components, data, 0)), life, clock, later, MAX_CHUNKS, 0);
    EarlierView(after, w, ks, t);
    hide StillFresh, FitsSince, IsView, Available, Refs, Stale, WithChunks, NotBefore;
    ReassembleView(after, n, data, cap, later, w, ks);
  }

  /** In particular it is enough under a budget that the object fits it and all older entries were
      last accessed before the store begins: they make room for it. */
  lemma OlderMakeRoom(es: seq<Entry>, maxBytes: nat, n: Name, data: seq<byte>, life: u32,
                      clock: seq<u64>, cap: nat, later: seq<u64>)
    requires AllSingle(es, PartKeys(n.components)) && Plain(n) && |n.components| + 2 <= MAX_COMPONENTS
    requires |clock| > MAX_CHUNKS && |later| > MAX_CHUNKS && StillFresh(life, clock, later)
    requires NotBefore(clock, clock[0]) && forall e :: e in es ==> e.lastAccess < clock[0]
    requires CHUNK_SIZE < |data| && (maxBytes == 0 || |data| + MANIFEST_SIZE <= maxBytes)
    requires StoreChunked(es, maxBytes, n, data, life, clock).ok
    ensures LookupChunked(StoreChunked(es, maxBytes, n, data, life, clock).entries, n, cap, later).data
            == if |data| <= MAX_CHUNKS * CHUNK_SIZE && |data| <= cap then Some(data) else None
  {
    hide StoreChunked, LookupChunked, Plain, AllSingle, PartKeys, StillFresh, NotBefore;
    NothingRecent(es, clock[0]);
    ChunkedRoundTrip(es, maxBytes, n, data, life, clock, cap, later, clock[0]);
  }

  // ----- other names ----------------------------------------------------------------

  lemma {:induction false} StoreChunksSameAt(es: seq<Entry>, maxBytes: nat, n: Name, data: seq<byte>, life: u32,
                                             clock: seq<u64>, i: nat, k: Key)
    requires |clock| > MAX_CHUNKS && Plain(n) && |n.components| + 2 <= MAX_COMPONENTS
    requires forall j :: i <= j && HasPiece(data, j) ==> k != ChunkKey(n.components, j)
    requires i * CHUNK_SIZE <= |data| ==> RoomFor(es, maxBytes, |data| - i * CHUNK_SIZE)
    requires StoreChunks(es, maxBytes, n, data, life, clock, i).ok
    ensures var r := StoreChunks(es, maxBytes, n, data, life, clock, i).entries;
            SameAt(es, r, k)
            && (i * CHUNK_SIZE <= |data| ==> TotalBytes(r) <= TotalBytes(es) + |data| - i * CHUNK_SIZE)
    decreases MAX_CHUNKS - i
  {
    if HasPiece(data, i) {
      PartNames(n, i);
      var cn := PlainName(ChunkKey(n.components, i));
      hide Plain, InitName, ChunkPath, StoreEntry, TotalBytes, StoreChunks, ChunkKey, SameAt, Piece;
      StoreChunksStep(es, maxBytes, n, data, life, clock, i, cn);
      var s := StoreEntry(es, maxBytes, cn, Raw(Piece(data, i)), life, clock[i]);
      PieceSize(data, i);
      StoreGrows(es, maxBytes, cn, Raw(Piece(data, i)), life, clock[i]);
      StoreSameAt(es, maxBytes, cn, Raw(Piece(data, i)), life, clock[i], k);
      StoreChunksSameAt(s.entries, maxBytes, n, data, life, clock, i + 1, k);
      SameAtTransitive(es, s.entries, StoreChunks(s.entries, maxBytes, n, data, life, clock, i + 1).entries, k);
    }
  }

  /** Storing a large object leaves every lookup of a name outside it as it was, whatever the table
      holds: the same entry, version included, is found in the same place. */
  lemma {:induction false} ObjectLeavesOthers(es: seq<Entry>, maxBytes: nat, n: Name, data: seq<byte>, life: u32,
                                              clock: seq<u64>, other: Name, now: u64)
    requires Plain(n) && |n.components| + 2 <= MAX_COMPONENTS
    requires |clock| > MAX_CHUNKS && |data| > CHUNK_SIZE && RoomFor(es, maxBytes, |data| + MANIFEST_SIZE)
    requires StoreChunked(es, maxBytes, n, data, life, clock).ok
    requires other.components != ManifestKey(n.components)
    requires forall i :: HasPiece(data, i) ==> other.components != ChunkKey(n.components, i)
    ensures var after := StoreChunked(es, maxBytes, n, data, life, clock).entries;
            var r := Find(es, other, now);
            Find(after, other, now) == r && (r.Some? ==> after[r.value] == es[r.value])
  {
    PartNames(n, 0);
    var k, mn := other.components, PlainName(ManifestKey(n.components));
    hide Plain, InitName, ManifestPath, StoreEntry, TotalBytes, StoreChunks, SameAt, Find, ChunkKey, ManifestKey;
    StoreChunksSameAt(es, maxBytes, n, data, life, clock, 0, k);
    var c := StoreChunks(es, maxBytes, n, data, life, clock, 0);
    var after := StoreEntry(c.entries, maxBytes, mn, Manifest(|data|, c.refs), life, clock[MAX_CHUNKS]).entries;
    StoreSameAt(c.entries, maxBytes, mn, Manifest(|data|, c.refs), life, clock[MAX_CHUNKS], k);
    SameAtTransitive(es, c.entries, after, k);
    SameFind(es, after, other, now);
  }

  lemma OneView(es: seq<Entry>, k: Key, r: Record, t: u64)
    requires Single(es, k) && Has(es, k, r, t)
    ensures IsView(es, map[k := r], {k}, t)
  {
    hide Single, Has;
  }

  lemma ObjectViewElsewhere(m: map<Key, Record>, cs: Key, data: seq<byte>, life: u32, clock: seq<u64>, k: Key)
    requires |clock| > MAX_CHUNKS && k != ManifestKey(cs) && k in m
    requires forall i :: HasPiece(data, i) ==> k != ChunkKey(cs, i)
    ensures var w := ObjectView(m, cs, data, life, clock); k in w && w[k] == m[k]
  {
    WithChunksAt(m, cs, data, life, clock, 0, k);
    hide WithChunks, Refs, ChunkKey, ManifestKey;
  }

  /** When the object does make evictions necessary, other plain names still keep what was accessed
      since `t`: each is found with its record for as long as that is fresh. */
  lemma RecentOthersStay(es: seq<Entry>, maxBytes: nat, n: Name, data: seq<byte>, life: u32, clock: seq<u64>,
                         other: Name, r: Record, now: u64, t: u64)
    requires Plain(n) && |n.components| + 2 <= MAX_COMPONENTS && |clock| > MAX_CHUNKS && |data| > CHUNK_SIZE
    requires NotBefore(clock, t) && FitsSince(es, maxBytes, |data| + MANIFEST_SIZE, t)
    requires StoreChunked(es, maxBytes, n, data, life, clock).ok
    requires Plain(other) && Single(es, other.components) && Has(es, other.components, r, t)
    requires other.components != ManifestKey(n.components)
    requires forall i :: HasPiece(data, i) ==> other.components != ChunkKey(n.components, i)
    ensures var after := StoreChunked(es, maxBytes, n, data, life, clock).entries;
      var k := Find(after, other, now);
      (k.Some? <==> !Stale(r, now)) && (k.Some? ==> RecordOf(after[k.value]) == r)
  {
    hide StoreChunked, Single, Has, Plain, FitsSince, NotBefore, Refs, Find, Stale, ObjectView, IsView;
    var k := other.components;
    var m, ks := map[k := r], {k};
    ObjectViewElsewhere(m, n.components, data, life, clock, k);
    OneView(es, k, r, t);
    StoreChunkedView(es, maxBytes, n, data, life, clock, m, ks, t);
    var after, w := StoreChunked(es, maxBytes, n, data, life, clock).entries, ObjectView(m, n.components, data, life, clock);
    EarlierView(after, w, ks, t);
    FindView(after, other, now, w, ks);
  }

  // ----- small objects --------------------------------------------------------------

  /** Every manifest describes an object that needed chunking. */
  ghost predicate LargeManifests(es: seq<Entry>) {
    forall e :: e in es && e.data.Manifest? ==> e.data.totalLen > CHUNK_SIZE
  }

  lemma StoreKeepsLarge(es: seq<Entry>, maxBytes: nat, n: Name, data: Content, life: u32, now: u64)
    requires LargeManifests(es) && (data.Manifest? ==> data.totalLen > CHUNK_SIZE)
    ensures LargeManifests(StoreEntry(es, maxBytes, n, data, life, now).entries)
  {
    var i, e := FirstEqual(es, n), NewEntry(n, data, life, now);
    hide FirstEqual, StoredName, Evict;
    EvictWithin(es + [e], maxBytes);
    forall x | i < |es| && x in es[i := Renewed(es[i], data, life, now)]
      ensures x in es || x == Renewed(es[i], data, life, now)
    {
    }
  }

  lemma {:induction false} StoreChunksKeepLarge(es: seq<Entry>, maxBytes: nat, n: Name, data: seq<byte>, life: u32,
                                                clock: seq<u64>, i: nat)
    requires |clock| > MAX_CHUNKS && LargeManifests(es)
    ensures LargeManifests(StoreChunks(es, maxBytes, n, data, life, clock, i).entries)
    decreases MAX_CHUNKS - i
  {
    var cn := InitName(ChunkPath(n, i));
    hide InitName, ChunkPath, StoreEntry, LargeManifests, Piece, PieceLength;
    if HasPiece(data, i) && cn.ok {
      StoreKeepsLarge(es, maxBytes, cn.name, Raw(Piece(data, i)), life, clock[i]);
      StoreChunksKeepLarge(StoreEntry(es, maxBytes, cn.name, Raw(Piece(data, i)), life, clock[i]).entries,
                           maxBytes, n, data, life, clock, i + 1);
    }
  }

  /** Chunked storing only writes manifests of large objects, whatever it is given. */
  lemma StoreChunkedKeepsLarge(es: seq<Entry>, maxBytes: nat, n: Name, data: seq<byte>, life: u32, clock: seq<u64>)
    requires |clock| > MAX_CHUNKS && LargeManifests(es)
    ensures LargeManifests(StoreChunked(es, maxBytes, n, data, life, clock).entries)
  {
    hide InitName, ManifestPath, StoreEntry, StoreChunks, LargeManifests;
    StoreChunksKeepLarge(es, maxBytes, n, data, life, clock, 0);
    if |data| <= CHUNK_SIZE {
      StoreKeepsLarge(es, maxBytes, n, Raw(data), life, clock[0]);
    } else {
      var c, mn := StoreChunks(es, maxBytes, n, data, life, clock, 0), InitName(ManifestPath(n));
      StoreKeepsLarge(c.entries, maxBytes, mn.name, Manifest(|data|, c.refs), life, clock[MAX_CHUNKS]);
    }
  }

  /** The other operations of the store keep it too. */
  lemma StepKeepsLarge(s: State, c: Call)
    requires LargeManifests(s.entries)
    requires c.op.Put? && c.op.data.Manifest? ==> c.op.data.totalLen > CHUNK_SIZE
    ensures LargeManifests(Coherence.Step(s, c).entries)
  {
    match c.op {
      case Put(n, data, life) => StoreKeepsLarge(s.entries, s.maxBytes, n, data, life, c.at);
      case Get(n) =>
        hide Find;
        forall e | e in Looked(s.entries, n, c.at) && e.data.Manifest? ensures e.data.totalLen > CHUNK_SIZE {
          var t := Looked(s.entries, n, c.at);
          var j :| 0 <= j < |t| && t[j] == e;
          assert s.entries[j] in s.entries && t[j].data == s.entries[j].data;
        }
      case Remove(n) =>
        var i := FirstEqual(s.entries, n);
        hide FirstEqual, SwapRemove;
        if i < |s.entries| { SwapRemoveWithin(s.entries, i); }
      case Gc =>
        hide Sweep, Evict;
        var swept := Sweep(s.entries, |s.entries|, c.at);
        forall e | e in swept ensures e in s.entries { SweepMembers(s.entries, c.at, e); }
        EvictWithin(swept, s.maxBytes);
      case SetBudget(_) =>
    }
  }

  /** Entries under `k` were stored from those very components, whatever their version. */
  ghost predicate BaseHashed(es: seq<Entry>, k: Key) {
    forall e :: e in es && e.name.components == k ==> e.name.hash == PlainName(k).hash
  }

  /** No live entry of the name but the first, which an unversioned store overwrites, has a newer
      version. */
  ghost predicate Prevails(es: seq<Entry>, n: Name, now: u64) {
    var i := FirstEqual(es, n);
    forall j :: 0 <= j < |es| && j != i && Matches(es[j], n.components, now) ==>
      i < |es| && es[j].name.version <= es[i].name.version
  }

  lemma FirstUnder(es: seq<Entry>, n: Name)
    requires Plain(n) && BaseHashed(es, n.components)
    ensures var i := FirstEqual(es, n);
      (forall j :: 0 <= j < |es| && es[j].name.components == n.components ==> i <= j)
      && (i < |es| ==> es[i].name.components == n.components)
  {
    var i := FirstEqual(es, n);
    forall j | 0 <= j < |es| && es[j].name.components == n.components ensures i <= j {
      assert es[j] in es;
    }
  }

  /** The table written has a fresh entry of the name at the slot, and is the old one elsewhere. */
  lemma WrittenSlots(es: seq<Entry>, n: Name, data: Content, life: u32, now: u64, later: u64)
    requires Plain(n) && !Stale(Record(data, now, life), later)
    requires FirstEqual(es, n) < |es| ==> es[FirstEqual(es, n)].name.components == n.components
    ensures var w, i := Written(es, n, data, life, now), FirstEqual(es, n);
      && |w| == (if i < |es| then |es| else |es| + 1) && i < |w|
      && Matches(w[i], n.components, later) && w[i].data == data
      && (i < |es| ==> w[i].name.version == es[i].name.version)
      && forall j :: 0 <= j < |es| && j != i ==> w[j] == es[j]
  {
    PlainStoredName(n);
    hide FirstEqual, Plain, StoredName;
  }

  lemma WrittenFound(es: seq<Entry>, n: Name, data: Content, life: u32, now: u64, later: u64)
    requires Plain(n) && BaseHashed(es, n.components) && !Stale(Record(data, now, life), later)
    ensures var w, i := Written(es, n, data, life, now), FirstEqual(es, n);
      i < |w| && w[i].data == data
      && if Prevails(es, n, later) then Find(w, n, later) == Some(i)
         else var r := Find(es, n, later); Find(w, n, later) == r && r.Some? && r.value != i && w[r.value] == es[r.value]
  {
    hide FirstEqual, Plain, Written, Newest, BaseHashed, Stale, Matches;
    PlainUnversioned(n);
    FirstUnder(es, n);
    WrittenSlots(es, n, data, life, now, later);
    var i, w, cs := FirstEqual(es, n), Written(es, n, data, life, now), n.components;
    var r := Newest(w, |w|, cs, later);
    MatchesUnder(es, cs, later);
    if !Prevails(es, n, later) {
      assert i < |es|;
      var q := Newest(es, |es|, cs, later);
      assert r.Some? && q.Some?;
      assert q.value != i && Matches(w[q.value], cs, later);
      assert r.value != i && Matches(es[r.value], cs, later);
    }
  }

  lemma MatchesUnder(es: seq<Entry>, k: Key, now: u64)
    ensures forall j :: 0 <= j < |es| && Matches(es[j], k, now) ==> es[j].name.components == k
  {
  }

  /** An unversioned store is what an unversioned lookup finds afterwards, in the slot it wrote, if and
      only if no other live entry of the name has a newer version than the one it replaced. */
  lemma StoreFoundIff(es: seq<Entry>, maxBytes: nat, n: Name, data: Content, life: u32, now: u64, later: u64)
    requires Plain(n) && BaseHashed(es, n.components) && RoomFor(es, maxBytes, Size(data))
    requires StoreEntry(es, maxBytes, n, data, life, now).ok && !Stale(Record(data, now, life), later)
    ensures var after := StoreEntry(es, maxBytes, n, data, life, now).entries;
      Find(after, n, later) == Some(FirstEqual(es, n)) <==> Prevails(es, n, later)
    ensures !Prevails(es, n, later) ==> Find(es, n, later).Some?
    ensures var after := StoreEntry(es, maxBytes, n, data, life, now).entries;
      var found := if Prevails(es, n, later) then data else es[Find(es, n, later).value].data;
      Find(after, n, later).Some? && after[Find(after, n, later).value].data == found
  {
    hide StoreEntry, Prevails, RoomFor, Plain, BaseHashed, FirstEqual, Find, Stale;
    StoreEffect(es, maxBytes, n, data, life, now);
    WrittenFound(es, n, data, life, now, later);
  }

  /** What a lookup of the object gives right after a small store of `data`. */
  lemma SmallFound(es: seq<Entry>, maxBytes: nat, n: Name, data: seq<byte>, life: u32, clock: seq<u64>,
                   later: seq<u64>)
    requires BaseHashed(es, n.components) && Plain(n) && |n.components| + 2 <= MAX_COMPONENTS
    requires |clock| > MAX_CHUNKS && |later| > MAX_CHUNKS && StillFresh(life, clock, later)
    requires |data| <= CHUNK_SIZE && RoomFor(es, maxBytes, |data|)
    requires StoreChunked(es, maxBytes, n, data, life, clock).ok
    ensures var after := StoreChunked(es, maxBytes, n, data, life, clock).entries;
            var mn := PlainName(ManifestKey(n.components));
            var k, f := Find(es, mn, later[0]), Find(after, n, later[1]);
            InitName(ManifestPath(n)) == Init(true, mn)
            && Find(after, mn, later[0]) == k && (k.Some? ==> after[k.value] == es[k.value])
            && f.Some? && (!Prevails(es, n, later[1]) ==> Find(es, n, later[1]).Some?)
            && after[f.value].data
               == if Prevails(es, n, later[1]) then Raw(data) else es[Find(es, n, later[1]).value].data
  {
    hide InitName, ManifestPath, StoreEntry, Find, SameAt, RoomFor, Plain, BaseHashed, Prevails;
    PartNames(n, 0);
    PartsDiffer(n.components, 0, 0);
    var mn, rec := PlainName(ManifestKey(n.components)), Record(Raw(data), clock[0], life);
    FreshRecord(Raw(data), life, clock, later, 0, 1);
    hide StillFresh, ManifestKey, Stale;
    var after := StoreEntry(es, maxBytes, n, Raw(data), life, clock[0]).entries;
    assert Size(Raw(data)) == |data| && StoreChunked(es, maxBytes, n, data, life, clock).entries == after;
    StoreSameAt(es, maxBytes, n, Raw(data), life, clock[0], mn.components);
    SameFind(es, after, mn, later[0]);
    StoreFoundIff(es, maxBytes, n, Raw(data), life, clock[0], later[1]);
  }

  /** Reassembly gives nothing or as many bytes as the manifest says. */
  lemma ManifestLength(es: seq<Entry>, n: Name, cap: nat, later: seq<u64>, mn: Name, k: nat)
    requires |later| > MAX_CHUNKS && InitName(ManifestPath(n)) == Init(true, mn)
    requires Find(es, mn, later[0]) == Some(k) && k < |es|
    ensures var r := LookupChunked(es, n, cap, later).data;
            r.Some? ==> es[k].data.Manifest? && |r.value| == es[k].data.totalLen
  {
    hide InitName, ManifestPath, Find, Looked, LookupChunks;
  }

  lemma NoManifest(es: seq<Entry>, n: Name, cap: nat, later: seq<u64>, mn: Name)
    requires |later| > MAX_CHUNKS && InitName(ManifestPath(n)) == Init(true, mn)
    requires Find(es, mn, later[0]).None? && Find(es, n, later[1]).Some?
    ensures var c := es[Find(es, n, later[1]).value].data;
      LookupChunked(es, n, cap, later).data == if c.Raw? && |c.bytes| <= cap then Some(c.bytes) else None
  {
    hide InitName, ManifestPath, Find;
  }

  /** A small object reads back if and only if the caller has room for it and, when it is read, no
      manifest of its name is live and the entry it overwrote is not older than another live version of the name, or that version
      happens to hold the same bytes. */
  lemma SmallReadsBackIff(es: seq<Entry>, maxBytes: nat, n: Name, data: seq<byte>, life: u32, clock: seq<u64>,
                          cap: nat, later: seq<u64>)
    requires BaseHashed(es, n.components) && LargeManifests(es) && Plain(n) && |n.components| + 2 <= MAX_COMPONENTS
    requires |clock| > MAX_CHUNKS && |later| > MAX_CHUNKS && StillFresh(life, clock, later)
    requires |data| <= CHUNK_SIZE && RoomFor(es, maxBytes, |data|)
    requires StoreChunked(es, maxBytes, n, data, life, clock).ok
    ensures var newest := Find(es, n, later[1]);
      LookupChunked(StoreChunked(es, maxBytes, n, data, life, clock).entries, n, cap, later).data == Some(data)
      <==> |data| <= cap && Find(es, PlainName(ManifestKey(n.components)), later[0]).None?
           && (Prevails(es, n, later[1]) || (newest.Some? && es[newest.value].data == Raw(data)))
  {
    SmallFound(es, maxBytes, n, data, life, clock, later);
    hide InitName, ManifestPath, Find, StoreChunked, LookupChunked, StillFresh, BaseHashed, Prevails, RoomFor, PlainName;
    var after, mn := StoreChunked(es, maxBytes, n, data, life, clock).entries, PlainName(ManifestKey(n.components));
    var k := Find(es, mn, later[0]);
    if k.Some? {
      assert es[k.value] in es;
      ManifestLength(after, n, cap, later, mn, k.value);
    } else {
      NoManifest(after, n, cap, later, mn);
    }
  }

  /** So where the name was stored at most once, and without a version, only a live manifest is in
      the way. */
  lemma SmallRoundTrip(es: seq<Entry>, maxBytes: nat, n: Name, data: seq<byte>, life: u32, clock: seq<u64>,
                       cap: nat, later: seq<u64>)
    requires Single(es, n.components) && Plain(n) && |n.components| + 2 <= MAX_COMPONENTS
    requires |clock| > MAX_CHUNKS && |later| > MAX_CHUNKS && StillFresh(life, clock, later)
    requires |data| <= CHUNK_SIZE && RoomFor(es, maxBytes, |data|)
    requires StoreChunked(es, maxBytes, n, data, life, clock).ok
    requires Find(es, PlainName(ManifestKey(n.components)), later[0]).None?
    ensures LookupChunked(StoreChunked(es, maxBytes, n, data, life, clock).entries, n, cap, later).data
         == if |data| <= cap then Some(data) else None
  {
    SinglePrevails(es, n, later[1]);
    hide InitName, ManifestPath, Find, StoreChunked, LookupChunked, StillFresh, BaseHashed, Prevails, RoomFor, PlainName;
    SmallFound(es, maxBytes, n, data, life, clock, later);
    NoManifest(StoreChunked(es, maxBytes, n, data, life, clock).entries, n, cap, later, PlainName(ManifestKey(n.components)));
  }

  lemma SinglePrevails(es: seq<Entry>, n: Name, now: u64)
    requires Plain(n) && Single(es, n.components)
    ensures BaseHashed(es, n.components) && Prevails(es, n, now)
  {
    forall e | e in es && e.name.components == n.components ensures e.name == n {
      var j :| 0 <= j < |es| && es[j] == e;
      assert Plain(es[j].name);
    }
    forall j | 0 <= j < |es| && es[j].name.components == n.components ensures j == FirstEqual(es, n) {
      assert es[j] in es && NameEqual(es[j].name, n);
    }
  }

  lemma SmallKeepsAvailable(w: map<Key, Record>, cs: Key, data: seq<byte>, later: seq<u64>, rec: Record)
    requires Available(w, cs, data, later)
    ensures Available(w[cs := rec], cs, data, later) && ManifestKey(cs) != cs
  {
    hide Piece, Stale;
    forall j: nat ensures ChunkKey(cs, j) != cs {
      assert |ChunkKey(cs, j)| == |cs| + 2;
    }
    assert |ManifestKey(cs)| == |cs| + 1;
  }

  /** In particular, storing a small object over a large one that is still live does not replace
      it: reading the name keeps giving the large object. */
  lemma {:induction false} SmallStoreHiddenByManifest(
      es: seq<Entry>, maxBytes: nat, n: Name, large: seq<byte>, small: seq<byte>, life: u32, life': u32,
      clock: seq<u64>, clock': seq<u64>, cap: nat, later: seq<u64>, t: u64)
    requires AllSingle(es, PartKeys(n.components)) && Plain(n) && |n.components| + 2 <= MAX_COMPONENTS
    requires |clock| > MAX_CHUNKS && |clock'| > MAX_CHUNKS && |later| > MAX_CHUNKS
    requires StillFresh(life, clock, later) && NotBefore(clock, t) && NotBefore(clock', t)
    requires FitsSince(es, maxBytes, |large| + MANIFEST_SIZE, t)
    requires CHUNK_SIZE < |large| <= MAX_CHUNKS * CHUNK_SIZE && |small| <= CHUNK_SIZE
    requires StoreChunked(es, maxBytes, n, large, life, clock).ok
    requires var mid := StoreChunked(es, maxBytes, n, large, life, clock).entries;
             FitsSince(mid, maxBytes, |small|, t) && StoreChunked(mid, maxBytes, n, small, life', clock').ok
    ensures var mid := StoreChunked(es, maxBytes, n, large, life, clock).entries;
            LookupChunked(StoreChunked(mid, maxBytes, n, small, life', clock').entries, n, cap, later).data
            == if |large| <= cap then Some(large) else None
  {
    hide LookupChunked, Plain, StoreEntry, AllSingle, PartKeys, Has;
    var cs, ks := n.components, PartKeys(n.components);
    StoreChunkedView(es, maxBytes, n, large, life, clock, map[], ks, t);
    ObjectAvailable(map[], cs, large, life, clock, later);
    var mid, w := StoreChunked(es, maxBytes, n, large, life, clock).entries, ObjectView(map[], cs, large, life, clock);
    FreshRecord(Manifest(|large|, Refs(cs, large, 0)), life, clock, later, MAX_CHUNKS, 0);
    var rec := Record(Raw(small), clock'[0], life');
    var after := StoreEntry(mid, maxBytes, n, Raw(small), life', clock'[0]).entries;
    assert StoreChunked(mid, maxBytes, n, small, life', clock') == StoreEntry(mid, maxBytes, n, Raw(small), life', clock'[0]);
    assert t <= clock'[0];
    hide StillFresh, IsView, Stale, Refs, WithChunks, StoreChunked, FitsSince, NotBefore;
    StoreView(mid, maxBytes, n, Raw(small), life', clock'[0], w, ks, t);
    EarlierView(after, w[cs := rec], ks, t);
    SmallKeepsAvailable(w, cs, large, later, rec);
    ReassembleView(after, n, large, cap, later, w[cs := rec], ks);
  }
}
