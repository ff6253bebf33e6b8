/** The chunking loops over the content store object. */
module ChunkedStore {
  import opened Bytes
  import opened Names
  import opened Store
  import opened ContentStore
  import opened Chunking

  /** The printed paths fit the 1024-byte buffers, and the components are C strings. */
  predicate PathsFit(n: Name) {
    |n.components| <= MAX_COMPONENTS && |NameText(n)| + 10 <= MAX_NAME
    && forall i :: 0 <= i < |n.components| ==> 0 !in n.components[i]
  }

  lemma {:induction false} TextHasNoNul(cs: seq<seq<byte>>)
    requires forall i :: 0 <= i < |cs| ==> 0 !in cs[i]
    ensures 0 !in TextOf(cs)
  {
    if cs != [] { TextHasNoNul(cs[..|cs| - 1]); }
  }

  lemma NameTextHasNoNul(n: Name)
    requires PathsFit(n)
    ensures 0 !in NameText(n)
  {
    TextHasNoNul(n.components);
    assert !IsDigit(0);
  }

  /** psirp_name_to_string into a local buffer. */
  method Print(n: Name) returns (text: seq<byte>)
    requires PathsFit(n)
    ensures text == NameText(n)
  {
    var buf := new byte[MAX_NAME];
    var len := ToString(n, buf);
    text := buf[..len];
  }

  method NameOfChunk(n: Name, i: nat) returns (r: Init)
    requires PathsFit(n) && i < MAX_CHUNKS
    ensures r == InitName(ChunkPath(n, i))
  {
    var base := Print(n);
    NameTextHasNoNul(n);
    DigitsShort(i);
    assert !IsDigit(0);
    hide InitName, NameText, Digits;
    r := ParseName(base + [SLASH] + CHUNK + [SLASH] + Digits(i));
  }

  method NameOfManifest(n: Name) returns (r: Init)
    requires PathsFit(n)
    ensures r == InitName(ManifestPath(n))
  {
    var base := Print(n);
    NameTextHasNoNul(n);
    hide InitName, NameText;
    r := ParseName(base + [SLASH] + CHUNKS);
  }

  ghost function AfterChunks(prefix: seq<ChunkRef>, c: Chunks): Chunks {
    Chunks(c.ok, c.entries, prefix + c.refs)
  }

  /** The chunk loop of psirp_cs_store_chunked; the k-th store reads the clock as clock[k]. */
  method StorePieces(cs: Cs, n: Name, data: seq<byte>, life: u32, clock: seq<u64>)
    returns (ok: bool, refs: seq<ChunkRef>)
    requires cs.Valid() && PathsFit(n) && |clock| > MAX_CHUNKS
    modifies cs`count, cs`bytesUsed, cs.entries
    ensures cs.Valid()
    ensures Chunks(ok, cs.Contents(), refs)
            == StoreChunks(old(cs.Contents()), cs.maxBytes, n, data, life, clock, 0)
  {
    hide StoreEntry, InitName, ChunkPath, TotalBytes, Piece;
    ghost var all := StoreChunks(cs.Contents(), cs.maxBytes, n, data, life, clock, 0);
    var off, ci := 0, 0;
    refs := [];
    assert refs + all.refs == all.refs;
    while off < |data| && ci < MAX_CHUNKS
      invariant cs.Valid() && ci <= MAX_CHUNKS
      invariant off == if ci * CHUNK_SIZE < |data| then ci * CHUNK_SIZE else |data|
      invariant AfterChunks(refs, StoreChunks(cs.Contents(), cs.maxBytes, n, data, life, clock, ci)) == all
    {
      ghost var es := cs.Contents();
      var len := if |data| - off > CHUNK_SIZE then CHUNK_SIZE else |data| - off;
      var cn := NameOfChunk(n, ci);
      if !cn.ok {
        assert refs + [] == refs;
        return false, refs;
      }
      ChunkNameShort(n, ci);
      PieceIs(data, ci, off, len);
      StoreChunksUnfolds(es, cs.maxBytes, n, data, life, clock, ci, cn.name, refs);
      hide StoreChunks, AfterChunks;
      ok := cs.Store(cn.name, Raw(data[off..off + len]), life, clock[ci]);
      if !ok { return; }
      refs := refs + [ChunkRef(cn.name, len)];
      off := off + len;
      ci := ci + 1;
    }
    assert refs + [] == refs;
    ok := true;
  }

  lemma PieceIs(data: seq<byte>, i: nat, off: nat, len: nat)
    requires HasPiece(data, i) && off == i * CHUNK_SIZE && len == PieceLength(data, i)
    ensures off + len <= |data| && Piece(data, i) == data[off..off + len]
  {
  }

  lemma StoreChunksUnfolds(es: seq<Entry>, maxBytes: nat, n: Name, data: seq<byte>, life: u32,
                           clock: seq<u64>, i: nat, cn: Name, prefix: seq<ChunkRef>)
    requires |clock| > MAX_CHUNKS && HasPiece(data, i) && InitName(ChunkPath(n, i)) == Init(true, cn)
    ensures var s, here := StoreEntry(es, maxBytes, cn, Raw(Piece(data, i)), life, clock[i]), [ChunkRef(cn, PieceLength(data, i))];
            AfterChunks(prefix, StoreChunks(es, maxBytes, n, data, life, clock, i))
            == if s.ok then AfterChunks(prefix + here, StoreChunks(s.entries, maxBytes, n, data, life, clock, i + 1))
               else Chunks(false, s.entries, prefix)
  {
    hide InitName, ChunkPath, StoreEntry, Piece, PieceLength;
    var s := StoreEntry(es, maxBytes, cn, Raw(Piece(data, i)), life, clock[i]);
    var here := [ChunkRef(cn, PieceLength(data, i))];
    assert prefix + [] == prefix;
    Assoc(prefix, here, StoreChunks(s.entries, maxBytes, n, data, life, clock, i + 1).refs);
  }

  /** psirp_cs_store_chunked. */
  method StoreObject(cs: Cs, n: Name, data: seq<byte>, life: u32, clock: seq<u64>) returns (ok: bool)
    requires cs.Valid() && PathsFit(n) && |clock| > MAX_CHUNKS
    modifies cs`count, cs`bytesUsed, cs.entries
    ensures cs.Valid()
    ensures Stored(ok, cs.Contents()) == StoreChunked(old(cs.Contents()), cs.maxBytes, n, data, life, clock)
  {
    hide StoreEntry, StoreChunks, InitName, ManifestPath, TotalBytes;
    if |data| <= CHUNK_SIZE {
      ok := cs.Store(n, Raw(data), life, clock[0]);
      return;
    }
    var refs;
    ok, refs := StorePieces(cs, n, data, life, clock);
    if !ok { return; }
    var mn := NameOfManifest(n);
    if !mn.ok { return false; }
    ManifestNameShort(n);
    ok := cs.Store(mn.name, Manifest(|data|, refs), life, clock[MAX_CHUNKS]);
  }

  /** The reassembly loop of psirp_cs_lookup_chunked; lookup k reads the clock as clock[k]. */
  method CollectPieces(cs: Cs, refs: seq<ChunkRef>, clock: seq<u64>) returns (r: Option<seq<byte>>)
    requires cs.Valid() && |refs| < |clock|
    modifies cs.entries
    ensures cs.Valid()
    ensures Fetched(r, cs.Contents()) == LookupChunks(old(cs.Contents()), refs, clock, 0)
  {
    hide Find, Looked, TotalBytes;
    ghost var all := LookupChunks(cs.Contents(), refs, clock, 0);
    var out: seq<byte> := [];
    assert all.data.Some? ==> out + all.data.value == all.data.value;
    for i := 0 to |refs|
      invariant cs.Valid()
      invariant AfterPieces(out, LookupChunks(cs.Contents(), refs, clock, i)) == all
    {
      ghost var es := cs.Contents();
      LookupChunksUnfolds(es, refs, clock, i, out);
      hide LookupChunks, AfterPieces;
      var e := cs.Lookup(refs[i].name, clock[i + 1]);
      if e == None || !e.value.data.Raw? { return None; }
      out := out + e.value.data.bytes;
    }
    assert out + [] == out;
    r := Some(out);
  }

  ghost function AfterPieces(prefix: seq<byte>, f: Fetched): Fetched {
    if f.data.None? then f else Fetched(Some(prefix + f.data.value), f.entries)
  }

  lemma LookedKeepsData(es: seq<Entry>, n: Name, now: u64)
    ensures |Looked(es, n, now)| == |es|
    ensures forall i :: 0 <= i < |es| ==> Looked(es, n, now)[i].data == es[i].data
  {
    hide Find;
  }

  lemma LookupChunksUnfolds(es: seq<Entry>, refs: seq<ChunkRef>, clock: seq<u64>, i: nat, prefix: seq<byte>)
    requires i < |refs| < |clock|
    ensures var k, after := Find(es, refs[i].name, clock[i + 1]), Looked(es, refs[i].name, clock[i + 1]);
            |after| == |es|
            && AfterPieces(prefix, LookupChunks(es, refs, clock, i))
               == if k.None? || !after[k.value].data.Raw? then Fetched(None, after)
                  else AfterPieces(prefix + after[k.value].data.bytes, LookupChunks(after, refs, clock, i + 1))
  {
    LookedKeepsData(es, refs[i].name, clock[i + 1]);
    hide Find, Looked;
    var k, after := Find(es, refs[i].name, clock[i + 1]), Looked(es, refs[i].name, clock[i + 1]);
    if k.Some? && after[k.value].data.Raw? {
      var rest := LookupChunks(after, refs, clock, i + 1);
      if rest.data.Some? { Assoc(prefix, after[k.value].data.bytes, rest.data.value); }
    }
  }

  /** psirp_cs_lookup_chunked. */
  method LookupObject(cs: Cs, n: Name, cap: nat, clock: seq<u64>) returns (r: Option<seq<byte>>)
    requires cs.Valid() && PathsFit(n) && |clock| > MAX_CHUNKS
    modifies cs.entries
    ensures cs.Valid()
    ensures Fetched(r, cs.Contents()) == LookupChunked(old(cs.Contents()), n, cap, clock)
  {
    hide InitName, ManifestPath, Find, Looked, LookupChunks, TotalBytes;
    ghost var es := cs.Contents();
    var mn := NameOfManifest(n);
    if !mn.ok { return None; }
    LookedKeepsData(es, mn.name, clock[0]);
    var m := cs.Lookup(mn.name, clock[0]);
    if m == None {
      LookedKeepsData(cs.Contents(), n, clock[1]);
      var e := cs.Lookup(n, clock[1]);
      if e.Some? && Size(e.value.data) <= cap && e.value.data.Raw? { return Some(e.value.data.bytes); }
      return None;
    }
    if !m.value.data.Manifest? { return None; }
    var total, refs := m.value.data.totalLen, m.value.data.chunks;
    if total > cap || |refs| > MAX_CHUNKS { return None; }
    r := CollectPieces(cs, refs, clock);
    if r.Some? && |r.value| != total { return None; }
  }

  /** psirp_name_init never yields more than 16 components. */
  lemma {:induction false} InitFromShort(rest: seq<byte>, name: Name)
    requires |name.components| <= MAX_COMPONENTS
    ensures |InitFrom(rest, name).name.components| <= MAX_COMPONENTS
    decreases |rest|
  {
    hide ParseComponent;
    if rest != [] && |name.components| < MAX_COMPONENTS {
      var k := IndexOf(rest, SLASH);
      if k == 0 {
        InitFromShort(rest[1..], name);
      } else if ParseComponent(rest, k).Some? {
        InitFromShort(if k < |rest| then rest[k + 1..] else [], Append(name, ParseComponent(rest, k).value));
      }
    }
  }

  lemma ManifestNameShort(n: Name)
    ensures |InitName(ManifestPath(n)).name.components| <= MAX_COMPONENTS
  {
    InitFromShort(Body(ManifestPath(n)), EMPTY_NAME);
    hide InitFrom, ManifestPath;
  }

  lemma ChunkNameShort(n: Name, i: nat)
    ensures |InitName(ChunkPath(n, i)).name.components| <= MAX_COMPONENTS
  {
    InitFromShort(Body(ChunkPath(n, i)), EMPTY_NAME);
    hide InitFrom, ChunkPath;
  }
}
