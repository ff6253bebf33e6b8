# A verified model of the PSIRP content-centric networking stack

PSIRP names pieces of content instead of machines. A node keeps a bounded content store, answers
Interest packets with Data packets, forwards by longest matching prefix, learns routes from text
beacons, keeps a Kademlia-style table of content holders, publishes numbered versions of a topic,
and scans HTML pages for the names of their sub-resources. All of it is C over fixed arrays and
hand-written codecs. This project models that code in Dafny and proves what it keeps.

The project verifies with `dafny verify dfyconfig.toml`.

## How it is built

Each table has two faces. A **specification** says on sequences what every operation does to the
table (`Store`, `MeshTables`, `DhtRecords`, `HtmlScan`, and the upper half of `Dht`, `Pubsub` and
`Fib`). A **class or method** works as the C code does: arrays updated in place, swap-remove,
shifting loops, byte buffers written at a moving position; each is proved equal to its
specification (`ContentStore`, `ChunkedStore`, `Mesh`, `Node`, `HtmlParse`, and the lower half of
the others). The theorems are about the specifications, so they hold of the arrays.

| file | models |
|---|---|
| `Bytes` | bytes, C strings, splitting and joining, big-endian and decimal numbers, XOR |
| `Fnv`, `Names`, `NamePaths`, `NamePieces` | the 64-bit FNV-1a hash (section 2 of draft-eastlake-fnv); parsing, printing, rebuilding and comparing names; which paths print back unchanged; what the others parse to |
| `Wire`, `Packets` | the length-prefixed name encoding and the four packet formats |
| `Store`, `ContentStore`, `Coherence` | the content store, and the cache against a plain map over every run |
| `Chunking`, `ChunkedStore`, `Recency` | large objects split into chunks under a manifest; what a lookup keeps from being evicted |
| `Fib` | longest-prefix routing |
| `Node`, `Delivery`, `Network`, `WakeUp` | one node's protocol steps; what they get through, between two and three nodes; many nodes over a hostile network; the receiver against a waiting fetch |
| `MeshTables`, `Mesh`, `Beacon`, `MeshTiming` | peers and routes that refer to each other by index; beacons printed and parsed back; how long peers and routes stay |
| `DhtRecords`, `Dht` | holder records as they merge; peer table, ids and nearest peers (section 2.1 of the Kademlia paper) |
| `Pubsub`, `PubsubStore` | topics and versions; versions stored and looked up |
| `HtmlScan`, `HtmlPages`, `HtmlForms`, `HtmlParse` | what the scanner extracts, pages read back, the other forms of tags and URLs, and the scanner as it runs |

The main results:

- `Network.OnlyPublishedContent`: over a network that loses, repeats and reorders, stores and Data
  packets only ever carry what some node published.
- `Delivery.ContentDelivered`, `ContentCachedOnPath`: an Interest that arrives at a node holding the
  content brings back exactly its bytes and settles what waited for them, and a relay keeps a copy.
- `Coherence.CacheCoherence`: the array cache answers like a map from names to their latest data.
- `Chunking.ChunkedRoundTrip`: a large object reads back exactly if and only if it has at most 18
  chunks and fits the caller's buffer, whatever the store holds under other names, under a budget too
  as long as the object fits it together with what was accessed since some moment before the store; a
  small one if and only if no manifest of its name is live and no newer version of the name hides it
  (`SmallReadsBackIff`).
- `Recency.LookedStays`, `ReadObjectStays`: what was looked up, a whole chunked object included, is not
  evicted by later stores that fit the budget with what was accessed since.
- `WakeUp.NoLostWakeUp`: a fetch that stops waiting because nothing is pending finds its content.
- `NamePaths.PrintsBackIff`: exactly which paths survive parsing and printing.
- `Packets.*RoundTrip`, `*PrefixFree`, `*Reencodes`, `*Layout`: the four codecs, in both directions and
  byte by byte.
- `MeshTables.RemovePeerKeepsRoutes`, `TimeoutsKeepLiveRoutes`, `Beacon.EventsKeepConsistent`: routes
  survive index-shifting deletion; `MeshTiming.BeaconKeptIff`: for exactly 15 seconds after a beacon.
- `DhtRecords.GossipConverges`: delivery order and repetition do not matter.
- `Beacon.BeaconRoundTrip`, `HtmlScan.ScanConcat`, `HtmlPages.PageScanned`,
  `PubsubStore.PollThenLookup`, `Dht.ClosestUnique`, `Store.EvictLeastRecent`.

## Conventions

- Strings are C strings: sequences of bytes up to the terminating NUL. A function that reads one
  back from a buffer goes through `CString`.
- `u64` and its kin are bounded naturals; where the C code wraps (hashing, decimal versions, ages)
  the model writes the remainder out. Counters that are only printed are not modelled.
- Clock readings and nonces are arguments. An operation that reads the clock several times takes
  the sequence of readings.
- A *plain* name is what parsing gives for a canonical path: a leading slash, 1 to 16 non-empty
  components under 64 bytes, no `@`, no NUL, no version.
- XOR is defined digit by binary digit on naturals and its laws are proved from that.
- The manifest structure is an abstract value of its fixed size, 3040 bytes.

## Where the code and its documentation differ

The model follows the code.

- A versioned name's hash covers `@version`, but the store rebuilds stored names from components
  alone (psirp.c:394-397). Exact versioned lookup therefore misses what was stored under the
  version's own name (`PubsubStore.ExactVersionMisses`), although pubsub.h:8-9 offers it.
- The version digits are scanned to the end of the whole path (psirp.c:58): after canonical
  components an `@` that is not in the last one makes the path unparsable, unless 16 components
  precede it, which end the parse (`Names.InnerAtRefused`). The last component, `@version`
  included, must stay under 64 bytes (`Names.InitVersioned`).
- Printing does not undo parsing for the root path, missing, doubled or trailing slashes, leading
  zeros, versions beyond 64 bits and components after the sixteenth (`NamePaths.PrintsBackIff`).
- Replacing data in place never evicts (`Store.BudgetKeptIff`).
- A manifest has 18 slots: longer objects are stored cut off and never read back
  (`Chunking.ChunkedRoundTrip`). A small store does not displace a live manifest
  (`Chunking.SmallStoreHiddenByManifest`). An unversioned store over a name that has versions
  overwrites the first of them in place and stays hidden behind any newer one
  (`Chunking.StoreFoundIff`, `Chunking.SmallReadsBackIff`).
- Data that is empty, too long or finds the store full is dropped, but the waiting Interest is
  settled all the same (`WakeUp.ArrivalFoundIff`, `WakeUp.RefusedDataLosesWakeUp`).
- `mesh_fib_lookup` returns the index of a forwarding row, its header says of a peer.
- Peers are compared by their printed name, which has a leading slash and none at the end, while
  names are announced without one (mesh.c:98-99, mesh.c:293). A sender is recognised by its next
  beacon if and only if its name part is empty, or begins with a slash and does not end with one;
  otherwise every beacon adds another peer (`Beacon.SenderRecognisedIff`).
- An announced prefix that cannot be parsed still becomes a route, because the parser's failure is not
  looked at (mesh.c:389): one for the components read before it failed (`MeshTiming.RefusedPrefixRouted`).
- Slots of the pending table are never reused once their Interest is settled (net.c:297).
- A page whose name has no slash keeps its first byte in front of every relative URL, and on one whose
  name is empty such a URL resolves to nothing (`HtmlForms.NoDirectory`).
- Data that comes back through a relay stays there: the node that asked first has to ask again
  (`Delivery.ContentCachedOnPath`).
- The URL example `http://cdn/x.js` of html_parse.h:99 resolves to `/x.js`, not to `/cdn/x.js`.

## Model

| member | source | states |
|---|---|---|
| Fnv.Fnv1aHash | psirp.c:28-35 | the loop computes the FNV-1a fold of all bytes, in order, modulo 2^64 |
| Fnv.PrimeMultiplicationInjective | psirp.c:32 | multiplying by the 64-bit FNV prime loses nothing modulo 2^64 |
| Fnv.StepInjectiveInState | psirp.c:31-32 | for each byte, two different hash states stay different |
| Fnv.StepInjectiveInByte | psirp.c:31-32 | from one state, two different bytes give different states |
| Fnv.FoldInjectiveInState | psirp.c:28-35 | folding a text of any length is injective in the starting state |
| Fnv.OneByteChangesHash | psirp.c:28-35 | texts of equal length that differ in exactly one byte never share a hash |
| Fnv.EmptyHash | psirp.c:29 | the hash of the empty text is the published offset basis |
| Fnv.HashOfA | psirp.c:28-35 | the hash of "a" is the published value, which fixes the prime and the order of exclusive or and multiplication |
| Bytes.JoinFields | mesh.c:39-88 | splitting at separators and joining gives the text back, but for one separator at its end |
| Bytes.DecimalRoundTrip | psirp.c:57-61 | reading the printed decimal digits of any 64-bit version gives the version back, though the reader wraps |
| Bytes.DigitsAt | psirp.c:176 | printed digit i has the weight 10 to the number of digits behind it, and the first is 0 only in "0" |
| Bytes.BigEndianAt | psirp.c:194-201 | byte i of a field of k bytes is the digit of weight 256^(k-1-i): the most significant comes first |
| Bytes.XorBit | dht.h:100 | bit by bit, the exclusive or is 1 exactly where the two numbers differ |
| Bytes.XorTriangle | dht.h:100 | XOR distance obeys the triangle inequality for all naturals |
| Names.ScanDigits | psirp.c:57-61 | a version is accepted exactly when everything up to the end of the path is a digit, and is its value modulo 2^64 |
| Names.ScanComponent | psirp.c:40-71 | the component parser accepts exactly components under 64 bytes whose `@`, if any, is followed by digits to the end of the path |
| Names.ParseName | psirp.c:73-109 | the in-place path loop yields exactly the specified components, version, hash or refusal, for every path that fits the hash buffer |
| Names.InitComponents | psirp.c:111-137 | the component loop rebuilds the specified name, stopping at the first refused component |
| Names.PrintedInto | psirp.c:164-185 | a buffer with two bytes to spare receives the whole text; without a version every buffer receives a prefix of it, and the whole if and only if two bytes are spare, one if the last component is empty, or there is nothing to print |
| Names.ToString | psirp.c:164-185 | into any buffer, components that do not fit cut off as specified, the text is printed with its NUL; a version is only asked for with room |
| Names.InitCanonical | psirp.c:73-109 | a canonical path, with or without its leading slash, parses to its components and the hash of its text |
| Names.InitVersioned | psirp.c:40-109 | a canonical path with `@v` parses if and only if the last component with its version stays under 64 bytes, and then to the base's components and v, for every 64-bit v |
| Names.PrintThenParse | psirp.c:73-109 | parsing the printed text of a canonical name gives back its components, version and hash |
| Names.ParseThenPrint | psirp.c:164-185 | printing the parse of a canonical path, versioned or not, gives the same text |
| Names.InnerAtRefused | psirp.c:54-90 | after at most 16 canonical components, a component holding an `@` with another component behind it makes the path unparsable if and only if fewer than 16 precede it |
| NamePaths.PrintsBackIff | psirp.c:40-185 | for every path, parsing succeeds and printing gives the path back if and only if it is empty or a slash and 1 to 16 components, canonical apart from a last one that may end in a minimal decimal `@version` fitting 64 bits and the component limit |
| NamePaths.VersionRestored | psirp.c:57-61 | a run of digits prints back as it was read, wrap-around included, if and only if it has no leading zero and fits 64 bits |
| NamePaths.PrintedBound | psirp.c:73-185 | the text printed for a parsed path is never longer than the path with its slash |
| NamePaths.WrapsAt64 | psirp.c:57-61 | the wrapping accumulator gives the value of the digits modulo 2^64, for any number of digits |
| NamePieces.LeadingSlashOptional | psirp.c:76-81 | a path and the same path behind a slash give the same name, hash included |
| NamePieces.PiecesParsed | psirp.c:83-109 | empty pieces are skipped, components beyond the sixteenth dropped, and the hash covers the whole path all the same |
| NamePieces.LastTakenIff | psirp.c:40-109 | a last component without `@` is taken if and only if it has fewer than 64 bytes |
| NamePieces.VersionTakenIff | psirp.c:40-109 | with an `@` if and only if at least one digit and nothing else follows and the whole has fewer than 64 bytes; its version is the value modulo 2^64 |
| NamePieces.RebuildVersioned | psirp.c:111-137 | rebuilding from components reads a version off the last one under the same condition, and hashes the components as they were |
| NamePieces.RebuildRefuses | psirp.c:111-137 | a component of 64 bytes or more cannot be rebuilt |
| Names.RebuildShort | psirp.c:111-137 | a rebuilt name has at most 16 components, whatever it was rebuilt from |
| Names.RebuildClean | psirp.c:111-137 | components without `@` and under 64 bytes are rebuilt unchanged, with the hash of their path |
| Names.PlainEqualIffComponents | psirp.c:140-154 | on plain names the hash comparison never changes the answer of the component comparison |
| Wire.NameRoundTrip | psirp.c:203-248 | decoding an encoded name followed by any bytes gives the components and exactly those bytes |
| Wire.NameSound | psirp.c:228-247 | whatever the name decoder accepts is an encoding: it consumed exactly the bytes its result encodes to |
| Wire.NameTakenIff | psirp.c:228-247 | a decoder with a limit takes an encoded name if and only if every component is below the limit |
| Wire.NameLayout | psirp.c:203-211 | the count byte comes first, and component i stands behind its length byte, at the place the earlier ones leave it |
| Wire.HashTextFits | psirp.c:242-248 | while the name text fits 1024 bytes the decoder's hash is the hash of the whole text |
| Wire.HashTextBound | psirp.c:242-248 | the decoder hashes at most 1023 bytes of any name: a component that does not fit is left out, a later one that does is not |
| Wire.PlainNameSurvives | psirp.c:215-250 | a plain name under 1024 bytes comes off the wire with its hash intact |
| Wire.ReencodesIffNoNul | psirp.c:203-240 | components re-encode to the received bytes if and only if none contains a NUL |
| Wire.PutName | psirp.c:202-211 | the writer fails exactly when a component is too long or the buffer too short, and otherwise changes exactly the bytes of the encoding |
| Wire.ReadComponents | psirp.c:230-248 | the reader accepts exactly what the specification decodes, and ends where it ends |
| Packets.SerializeInterest | psirp.c:189-213 | fails exactly when the packet is unencodable or too long for the buffer; otherwise overlays exactly the encoding |
| Packets.DeserializeInterest | psirp.c:215-250 | accepts exactly the decodable buffers, whatever their bytes |
| Packets.InterestRoundTrip | psirp.c:189-250 | decoding an Interest followed by any bytes gives all fields back, the hash included for canonical names under 1024 bytes |
| Packets.InterestLayout | psirp.c:189-213 | type byte 0, the nonce at 1 and the lifetime at 9 most significant byte first, the name at 13 |
| Packets.InterestPrefixFree | psirp.c:189-250 | no Interest encoding is a prefix of another's: equal streams carry equal packets and equal rests |
| Packets.InterestReencodes | psirp.c:189-250 | re-encoding an accepted Interest gives exactly the bytes consumed if and only if no component holds a NUL |
| Packets.SerializeData | psirp.c:252-283 | fails exactly when unencodable or too long; otherwise overlays exactly the encoding |
| Packets.DeserializeData | psirp.c:285-326 | accepts exactly the decodable buffers, whatever their bytes |
| Packets.DataRoundTrip | psirp.c:252-326 | decoding Data followed by any bytes gives name, hash, timestamp, freshness and payload back |
| Packets.DataLayout | psirp.c:252-283 | type byte 1, timestamp at 1, lifetime at 9 and payload length at 13 most significant byte first, the name at 17, then the payload |
| Packets.DataPrefixFree | psirp.c:252-326 | Data encodings are injective and prefix-free |
| Packets.DataReencodes | psirp.c:252-326 | re-encoding accepted Data gives exactly the bytes consumed if and only if no component holds a NUL |
| Packets.SerializeComputeReq | compute.c:13-36 | fails exactly when unencodable or too long; otherwise overlays exactly the encoding |
| Packets.DeserializeComputeReq | compute.c:38-62 | accepts exactly the decodable buffers, whatever their bytes |
| Packets.ComputeReqRoundTrip | compute.c:13-62 | decoding a request followed by any bytes gives its components, nonce and parameters back |
| Packets.ComputeReqLayout | compute.c:13-36 | type byte 5, nonce at 1 and parameter length at 9 most significant byte first, the name at 13, then the parameters |
| Packets.ComputeReqPrefixFree | compute.c:13-62 | request encodings are injective on what they carry and prefix-free |
| Packets.ComputeReqReencodes | compute.c:13-62 | re-encoding an accepted request gives exactly the bytes consumed if and only if no component holds a NUL |
| Packets.SerializeComputeResp | compute.c:66-90 | fails exactly when the buffer is too short or a component unencodable; otherwise overlays exactly the encoding |
| Packets.DeserializeComputeResp | compute.c:92-115 | accepts exactly the decodable buffers, whatever their bytes |
| Packets.ComputeRespRoundTrip | compute.c:66-115 | decoding a response followed by any bytes gives every field back, key and signature included |
| Packets.ComputeRespLayout | compute.c:66-90 | type byte 6, result length at 1 most significant byte first, the result, 64 bytes of signature, 32 of key, the name |
| Packets.ComputeRespPrefixFree | compute.c:66-115 | response encodings are injective on what they carry and prefix-free |
| Packets.ComputeRespReencodes | compute.c:66-115 | re-encoding an accepted response gives exactly the bytes consumed if and only if no component holds a NUL |
| Store.Newest | psirp.c:444-456 | the unversioned lookup picks the earliest live entry of the highest version among those with the name's components |
| Store.Lru | psirp.c:413-415 | the eviction scan picks the first entry whose last access is the smallest |
| Store.ExpiryIsFinal | psirp.c:349-353 | what has outlived its freshness stays expired at every later time |
| Store.TooOldIff | psirp.c:349-353 | data is expired if and only if its lifetime is not 0 and it is at least one millisecond older than that |
| Store.AcceptedIff | psirp.c:355-380 | a store succeeds if and only if the data has 1 byte to 1 MiB and its name is held already or a slot is free |
| Store.SwapRemoveLosesOne | psirp.c:471-473 | removal by moving the last entry into the hole loses exactly one copy of the removed entry |
| Store.EvictPartitions | psirp.c:410-423 | survivors and victims of eviction together are the old entries, each as often as before |
| Store.EvictLeastRecent | psirp.c:410-423 | every victim was last accessed no later than every survivor and every later victim |
| Store.EvictNoMoreThanNeeded | psirp.c:410-423 | the survivors fit the budget and putting the last victim back would exceed it |
| Store.NewestSurvives | psirp.c:410-423 | an entry that fits the budget and is strictly the newest is never evicted |
| Store.LookedRecent | psirp.c:459-461 | a lookup sets the access time of the entry it finds to now, counts the access, and changes nothing else |
| Store.RemovedIff | psirp.c:465-478 | removing succeeds if and only if the name is held, and one entry of that name is all that goes |
| Store.RecentSurvive | psirp.c:410-423 | whatever was accessed since a moment survives eviction if all of it together fits the budget |
| Store.InsertRespectsBudget | psirp.c:380-425 | an insertion under a budget ends within it, and the new entry stays when it fits and is strictly newest |
| Store.BudgetKeptIff | psirp.c:363-425 | a successful store ends within the budget if and only if it inserted or the replaced data made room |
| Store.SweepKeepsTail | psirp.c:484-494 | while the backward sweep runs, entries above the index are kept and below it exactly the live ones will be |
| Store.SweepRemovesExactlyExpired | psirp.c:484-494 | the sweep leaves the unexpired entries as a multiset, none lost or doubled by the swapping |
| Store.CollectLaw | psirp.c:480-510 | after gc survivors and victims are together the unexpired entries, within the budget if there is one, victims least recently used |
| ContentStore.Cs.constructor | psirp.c:330-336 | a new store is empty and unlimited |
| ContentStore.Cs.SetBudget | psirp.c:338-340 | only the budget changes |
| ContentStore.Cs.RemoveAt | psirp.c:469-473 | freeing an entry and moving the last one keeps the byte count equal to the sum of entry sizes |
| ContentStore.Cs.FindLru | psirp.c:413-415 | the scan finds the specified least recently used entry |
| ContentStore.Cs.EvictToBudget | psirp.c:410-423 | the loop leaves the specified survivors, counts the victims, and keeps the byte count exact |
| ContentStore.Cs.Store | psirp.c:355-425 | duplicate scan, in-place update, capacity check, append and eviction give exactly the specified table and result |
| ContentStore.Cs.FindNewest | psirp.c:445-456 | the scan finds the earliest entry of the highest live version |
| ContentStore.Cs.Lookup | psirp.c:427-463 | returns the specified entry and updates only its access time and count |
| ContentStore.Cs.Remove | psirp.c:465-478 | removes the first equal entry, or reports that there is none |
| ContentStore.Cs.Gc | psirp.c:480-510 | the backward sweep and eviction give the specified table, and the result is the total drop in count |
| Coherence.FirstEqualFinds | psirp.c:363-364 | in a table of distinct plain names the duplicate scan finds a name if and only if it is stored |
| Coherence.StepCoherent | psirp.c:355-510 | each operation keeps every entry equal to the latest record of its name, and without a budget keeps every unexpired record present |
| Coherence.RunCoherent | psirp.c:355-510 | the same after every sequence of operations with non-decreasing clock readings |
| Coherence.FindIsLatest | psirp.c:444-461 | from a coherent table a lookup returns the latest record, and misses only records that are stale or gone |
| Coherence.CacheCoherence | psirp.c:355-510 | after any run a lookup returns nothing or exactly the latest stored data; with no budget it returns it if and only if stored, not removed and not expired |
| Chunking.PartNames | psirp.c:537-557 | the texts printed for chunks and manifest parse to the plain names with two and one more components |
| Chunking.StoreKeepsRecent | psirp.c:355-425 | a store whose data fits the budget with what was accessed since a moment evicts none of that |
| Chunking.StoreView | psirp.c:355-425 | such a store adds its record to the recent ones held under chosen names and leaves those names held at most once, whatever it evicts elsewhere |
| Chunking.StoreSameAt | psirp.c:355-425 | a successful store that needs no eviction moves, adds or removes nothing under any other name, whatever the table holds |
| Chunking.StoreChunkedSucceeds | psirp.c:514-571 | with a free slot for every chunk and the manifest, storing a large object succeeds |
| Chunking.ChunkedRoundTrip | psirp.c:514-611 | storing a large object and looking it up gives exactly its bytes if it has at most 18 chunks and the caller has room for it, and nothing otherwise, evictions included, when the object fits the budget with what was accessed since some moment before; under the names of its parts the table held at most one plain entry each, elsewhere anything |
| Chunking.ReturnedFits | psirp.c:573-611 | for every table, name and clock a lookup returns at most as many bytes as the caller has room for |
| Chunking.OlderMakeRoom | psirp.c:514-611 | in particular a full store makes room for the round trip: it is enough that the object fits the budget and everything else was last accessed before |
| Chunking.ObjectLeavesOthers | psirp.c:514-571 | when no eviction is needed, a lookup of any name outside the object, versioned or not, finds the same entry in the same place before and after, whatever the table holds |
| Chunking.RecentOthersStay | psirp.c:514-571 | when evictions are needed, other plain names accessed recently enough to fit beside the object still keep their records |
| Chunking.StoreFoundIff | psirp.c:355-462 | after an unversioned store that needs no eviction the lookup finds the slot written if and only if no other live entry of the name has a newer version than the one replaced; otherwise it finds that newer one |
| Chunking.SmallRoundTrip | psirp.c:520-595 | where no manifest of its name is live and the name was held at most once, without a version, a small object reads back if and only if the caller has room for it |
| Chunking.SmallReadsBackIff | psirp.c:520-611 | a small object stored without evictions reads back if and only if the caller has room for it, no manifest of its name is live then, and no live version of the name is newer than the entry it replaced, or the newest holds the same bytes |
| Chunking.StoreChunkedKeepsLarge | psirp.c:514-571 | chunked storing never writes a manifest of a small object, so the condition on manifests above is kept |
| Chunking.StepKeepsLarge | psirp.c:355-510 | every other store operation keeps it too |
| Chunking.SmallStoreHiddenByManifest | psirp.c:520-611 | in particular, after a small store over a live large object, with any lifetime and under any budget both fit with what is recent, lookup keeps returning the large object, to callers with room for it |
| ChunkedStore.NameOfChunk | psirp.c:533-540 | printing and parsing a chunk's name in the buffers gives the specified name |
| ChunkedStore.NameOfManifest | psirp.c:551-557 | printing and parsing the manifest's name in the buffers gives the specified name |
| ChunkedStore.StorePieces | psirp.c:528-549 | the chunk loop over the store object has exactly the specified effect and references |
| ChunkedStore.StoreObject | psirp.c:514-571 | the whole operation on the store object has exactly the specified effect and result |
| ChunkedStore.CollectPieces | psirp.c:602-610 | the reassembly loop returns the specified bytes or failure and leaves the specified access records |
| ChunkedStore.LookupObject | psirp.c:573-611 | the whole lookup, manifest or plain entry, returns the specified bytes and leaves the specified table |
| Recency.StoredUntil | psirp.c:349-462 | what was stored is found for exactly one millisecond more than its lifetime, or for ever when that is 0 |
| Recency.StoresKeepView | psirp.c:355-425 | any run of stores under other names, refused ones included, keeps the records accessed since a moment, if what it stores fits the budget with them |
| Recency.LookedStays | psirp.c:355-463 | an entry a lookup found is found again while its lifetime lasts, whatever is stored elsewhere in between, if that fits the budget with everything accessed since the lookup |
| Recency.SmallRead | psirp.c:585-595 | when no manifest is live a chunked lookup is a lookup of the plain entry, its access counted, and returns its bytes if and only if the caller has room for them |
| Recency.ObjectRead | psirp.c:573-611 | reading a large object counts as an access to its manifest and to every chunk |
| Recency.ReadObjectStays | psirp.c:355-611 | so an object stored and read keeps reading back after any such run of stores, however old its parts are |
| Recency.ChunkFound | psirp.c:528-549 | chunk i of a stored object is found under its own name and holds at most 65536 bytes from byte 65536 i |
| Recency.PartsSpelled | psirp.c:537-555 | those names are the object's with "chunk" and the number, and with "chunks" |
| Fib.Best | psirp.c:635-645 | the scan's winner is the earliest of the longest non-empty matching prefixes seen so far |
| Fib.RouteIsLongest | psirp.c:631-647 | a row wins if and only if it is the earliest carrying the longest non-empty matching prefix; none wins if and only if none matches |
| Fib.RouteOrderIndependent | psirp.c:631-647 | reordering the table does not change the winning prefix |
| Fib.AddedRouteIsLocal | psirp.c:615-629 | adding a route changes results only for names under its prefix |
| Fib.AddedIff | psirp.c:615-629 | a route is added if and only if its prefix parses and fewer than 256 are there |
| Fib.AddedLeads | psirp.c:615-647 | under its prefix an added route wins if and only if every matching route that was there before has a shorter prefix |
| Fib.NetworkOrder | psirp.c:624 | ports and addresses are stored with their bytes in reverse order |
| Fib.ForwardingTable.Add | psirp.c:615-629 | adds the parsed prefix with its port in network order, or refuses, and changes nothing else |
| Fib.ForwardingTable.Lookup | psirp.c:631-647 | the loop returns the winner's peer |
| Node.PsirpNode.AddPeer | net.c:333-352 | adds an unknown endpoint while there is room; fails exactly when the table is full, even for a known one |
| Node.PsirpNode.Interest | net.c:259-309 | sends the encoded Interest to the peer given, or to that of the longest matching prefix, and records it as pending while there is room; does neither when it cannot be encoded or has no route |
| Node.PsirpNode.SendData | net.c:311-329 | sends exactly the encoding when it fits the buffer |
| Node.PsirpNode.Settle | net.c:201-207 | deactivates the first active pending entry of the name and no other |
| Node.PsirpNode.HandleInterest | net.c:155-184 | answers the asker's endpoint from the store, or forwards to the peer of the longest matching prefix, with exactly the specified new state |
| Node.PsirpNode.HandleData | net.c:195-207 | stores first, then settles |
| Node.PsirpNode.HandlePacket | net.c:139-242 | one received datagram has exactly the specified effect on the state and sends exactly the specified datagrams to their endpoints; malformed ones do nothing |
| Node.PsirpNode.Publish | net.c:432-457 | stores, and when that succeeds sends one copy of the Data to each known peer, in order |
| Delivery.InterestSent | net.c:259-309 | an Interest goes to the peer given, or to that of the longest matching route, as one datagram that reads back as it, with the fresh nonce and the lifetime or 4000 ms; it is noted as pending while fewer than 256 are |
| Delivery.InterestAnswered | net.c:155-175 | a node holding the content sends the asker, and nobody else, one datagram that reads back as exactly its bytes, if they fit a packet of 1 MiB, and counts the access |
| Delivery.InterestForwarded | net.c:176-184 | a node that does not hold it sends the Interest on along the longest matching route under a nonce of its own and notes it; without a route nothing happens |
| Delivery.StoredIff | psirp.c:355-462 | under a name with nothing live, what is stored is found, with its bytes and lifetime, if and only if it has 1 byte to 1 MiB and the name is held or a slot free |
| Delivery.DataReceived | net.c:192-207 | Data received under such a name is found if and only if that holds; the first entry waiting for it waits no more in any case; nothing is sent and nothing else changes |
| Delivery.Published | net.c:432-457 | published data is found at the publisher under the same condition, and then each peer is sent one datagram that reads back as it, in order |
| Delivery.ContentDelivered | net.c:139-309 | one node asks another that holds the content: each sends the other one datagram, after which the asker holds exactly those bytes and none of its Interests for the name waits any longer |
| Delivery.ContentCachedOnPath | net.c:139-309 | through a relay with a route the content ends up in the relay's store, byte for byte, and nothing goes back to the asker by itself |
| Delivery.LookedSame | psirp.c:427-463 | a lookup does not change what the next one finds |
| Delivery.PeerKnownIff | net.c:333-352 | a peer is known afterwards if and only if it was before or fewer than 64 were; none is lost or listed twice |
| Network.StoreGenuine | psirp.c:355-425 | storing published content keeps every entry published |
| Network.ReceiveGenuine | net.c:139-242 | whatever arrives, a node's stores and replies stay published content if the packets in flight are |
| Network.NextSafe | net.c:139-457 | every event at any node keeps all stores and all Data packets in flight published |
| Network.OnlyPublishedContent | net.c:139-457 | the same in every run of any number of nodes when datagrams may be lost, repeated and reordered |
| Network.FetchReturnsPublished | net.c:383-428 | a fetch only returns bytes that some node published under the components asked for |
| WakeUp.RunInv | net.c:192-428 | in every interleaving the fetch's recorded Interest is still pending or its content has been stored |
| WakeUp.NoLostWakeUp | net.c:383-428 | when a fetch leaves its loop because nothing is pending, its last lookup finds the content, provided Data for it came with 1 byte to 1 MiB, unlimited freshness, and its name held or a slot free |
| WakeUp.PassDecides | net.c:401-422 | one undisturbed pass of the wait loop ends the fetch if its lookup finds the content, and otherwise goes round again if and only if an entry for the name still waits |
| WakeUp.ArrivalFoundIff | net.c:195-207 | after one pass over Data for a name the fetch's lookup missed, never stored or expired, the content is found if and only if it has 1 byte to 1 MiB and the name was held or a slot free; the waiting entry is settled either way |
| WakeUp.RefusedDataLosesWakeUp | net.c:195-207 | so empty or oversized Data, or Data for an unheld name at a full store, leaves the fetch with nothing pending and a lookup that misses |
| Delivery.DataInTwoSteps | net.c:195-207 | the two steps of the receiver on Data, one after the other, are what the node does with it |
| Delivery.InterestInOneStep | net.c:155-184 | its step on an Interest is an answer if it holds the content, a forward if it has a route, and nothing otherwise |
| Delivery.AskInOneStep | net.c:259-309 | the sending step of the fetch is what the node does to send an Interest |
| MeshTables.RemovePeerKeepsRoutes | mesh.c:120-142 | removing a peer leaves exactly the other peers' routes, in order, each still leading to the same peer record |
| MeshTables.ExpireRoutes | mesh.c:163-174 | part way through the backward loop the routes left are those not to peers already dropped |
| MeshTables.TimeoutsKeepLiveRoutes | mesh.c:163-174 | the timeout check leaves exactly the live peers and exactly the routes to them, in order |
| MeshTiming.TimedOutIff | mesh.c:168 | a peer times out if and only if it was silent for more than 15000 ms |
| MeshTiming.PeerKeptIff | mesh.c:163-174 | a check keeps a peer, and every route to it, if and only if it was heard of in the last 15000 ms |
| MeshTiming.SeenKeptIff | mesh.c:157-174 | a peer seen at a time counts as heard of then and is connected; the other peers and the routes stay as they were |
| MeshTiming.AddedKeptIff | mesh.c:92-174 | a peer added at a time, known or new, has the address given and counts as heard of then; the others stay |
| MeshTiming.RowKeptIff | mesh.c:178-245 | adding a route is refused for an unknown peer or 128 rows; else there is one row for that prefix and peer, which pruning keeps if and only if its lifetime is 0 or not exceeded; the other rows stay |
| MeshTables.ApplyConsistent | mesh.c:92-245 | every table operation keeps peer indices in range and (prefix, peer) pairs distinct |
| MeshTables.TablesStayConsistent | mesh.c:92-245 | the same after every sequence of operations |
| Mesh.ShiftDown | mesh.c:131-134 | the shifting loop removes one element and keeps the order of the rest |
| Mesh.PeerNameText | mesh.c:39-60 | prints a slash and the components joined, cut to 255 bytes |
| Mesh.ParseNameText | mesh.c:65-88 | splits at slashes into at most 16 pieces, empty ones included, each cut to 63 bytes |
| Mesh.MeshCtx.RemoveFib | mesh.c:204-211 | removes one row in place |
| Mesh.MeshCtx.RemovePeerAt | mesh.c:120-142 | drops the peer's rows, lowers later indices and shifts the peers, with exactly the specified result |
| Mesh.MeshCtx.CheckTimeouts | mesh.c:163-174 | the backward loop has exactly the specified result and counts the peers removed |
| Mesh.MeshCtx.AddFib | mesh.c:178-202 | refreshes an existing pair or appends a row, and refuses bad peers and full tables |
| Mesh.MeshCtx.FibLookup | mesh.c:213-230 | returns the row of the longest non-empty matching prefix, the earliest among equals |
| Mesh.MeshCtx.Prune | mesh.c:232-245 | removes exactly the rows past their lifetime and returns how many |
| Mesh.MeshCtx.FindPeerNamed | mesh.c:144-155 | finds the first peer whose printed name is the text |
| Mesh.MeshCtx.AddPeerNamed | mesh.c:92-118 | refreshes the peer of that printed name or appends a new one |
| Mesh.MeshCtx.PeerSeen | mesh.c:157-161 | refreshes one peer and nothing else |
| Beacon.NoSlashIsNew | mesh.c:95-106 | a sender whose non-empty name has no leading slash matches no recorded peer |
| Beacon.SenderRecognisedIff | mesh.c:92-118 | a sender added under a name whose pieces fit is found again under it if and only if the name is empty, or begins with a slash and does not end with one |
| Beacon.ProcessBeaconConsistent | mesh.c:339-399 | any datagram processed as a beacon keeps peer indices in range and (prefix, peer) pairs distinct |
| Beacon.EventsKeepConsistent | mesh.c:92-399 | the same after every sequence of table operations and received beacons |
| Beacon.Greet | mesh.c:356-367 | the sender is added or refreshed and its prefixes forgotten, unless the table is full |
| Beacon.EmitName | mesh.c:287-298 | writes the name part: slashes up to the first non-empty prefix and its first component |
| Beacon.EmitPrefix | mesh.c:308-316 | writes one prefix's components joined by slashes |
| Beacon.BuildBeacon | mesh.c:278-319 | the buffer ends up holding exactly the specified message and its terminator |
| Beacon.HandleBeacon | mesh.c:339-399 | the parsing loops over the tables have exactly the specified result for every datagram, malformed ones and ones with NUL bytes included |
| Beacon.BeaconRoundTrip | mesh.c:275-399 | processing a built beacon appends one route per distinct announced prefix, in order, to a newly added sender, leaves all earlier peers and routes alone, and keeps the tables consistent |
| MeshTiming.HeardIff | mesh.c:339-360 | a datagram is taken as a beacon if and only if it begins with `MESH_BEACON` and a bar, another bar follows before any NUL, and fewer than 32 peers are known; else nothing changes |
| MeshTiming.BeaconKeptIff | mesh.c:163-399 | a processed beacon makes its sender a connected peer at the address it came from; sender and routes pass a check of the timeouts if and only if it comes within 15000 ms; the other peers stay |
| MeshTiming.AnnouncedRouteKeptIff | mesh.c:232-399 | an announced route is pruned if and only if its beacon is more than 15000 ms old |
| MeshTiming.PrefixesOnly | mesh.c:369-395 | reading the announced prefixes changes nothing of any peer but the sender's list of them, which stays within 16 |
| MeshTiming.LongPrefixCut | mesh.c:374-378 | only the first 255 bytes of an announced prefix count |
| MeshTiming.EmptyPrefixesSkipped | mesh.c:369-395 | empty pieces between announced prefixes change nothing |
| MeshTiming.RefusedPrefixRouted | mesh.c:387-390 | a prefix whose last component is refused for what follows its `@` still becomes a route, for the components before it, and catches every name under these |
| MeshTiming.ParsedCut | mesh.c:65-88 | a peer's name is split at every slash but a leading one into at most 16 components, each cut to 63 bytes |
| MeshTiming.BeaconSpelled | mesh.c:278-317 | a beacon for two prefixes is the header, the first component of the first, a bar, and the two prefixes without their leading slash, with a semicolon between |
| MeshTiming.NameAnnounced | mesh.c:287-298 | the name is the first component of the first prefix that has one, behind a slash for each prefix stepped over |
| DhtRecords.AnnouncedFoundIff | dht.c:127-171 | right after an announcement the lookup reports the holder if and only if it was listed already or there was room in the hash's record, or for a new record |
| DhtRecords.AnnounceKeeps | dht.c:127-144 | an announcement changes no other hash's holders and appends this one to its own, unless listed, one of eight already there, or the 513th hash; listed holders always stay, in order |
| DhtRecords.PutKeeps | dht.c:146-158 | merging a record changes no other hash's holders, loses none and adds only holders it names |
| DhtRecords.AnnounceReflects | dht.c:127-144 | announcing adds one holder fact and keeps each holder once |
| DhtRecords.PutReflects | dht.c:146-158 | merging a record adds exactly its holder facts |
| DhtRecords.DeliveredReflects | dht.c:120-158 | after any deliveries within capacity the table holds exactly the delivered facts, each hash and holder once |
| DhtRecords.GossipConverges | dht.c:120-171 | two nodes that received the same deliveries in any order with any repetition report the same holders, which are exactly those delivered |
| Dht.AddrBytesInjective | dht.c:27-29 | different endpoints have different bytes |
| Dht.AddrBytesOrder | dht.c:27-29 | an address a.b.c.d and a port are hashed in network order |
| Dht.OneByteChangesId | dht.c:24-35 | endpoints that differ in one address or port byte have different ids |
| Dht.IdFromAddr | dht.c:24-35 | the six-byte loop computes the hash of the endpoint's bytes |
| Dht.DistanceIsAMetric | dht.h:100 | XOR distance is symmetric, zero only on equality, obeys the triangle inequality, and at one distance from a target there is only one id |
| Dht.OldestDead | dht.c:62-68 | the victim is a dead peer seen no later than every other dead peer |
| Dht.AddPeerKeepsLive | dht.c:39-87 | adding keeps one entry an endpoint under its own id, loses no live peer, and leaves the endpoint live unless it was unknown and the table full of live peers |
| Dht.AddPeerEffect | dht.c:39-87 | a known endpoint is refreshed where it stands and keeps the key it has; a new one goes last and the others stay in order, except that a table of 512 loses one dead peer, one that no other dead peer was seen before |
| Dht.ClosestUnique | dht.c:89-116 | when live peers have distinct ids, the promise of the nearest-peer query determines its answer, order included |
| Dht.SortedIsClosest | dht.c:104-114 | the front of the sorted order is nearest first and leaves out nobody nearer than those taken |
| Dht.DhtNode.constructor | dht.c:18-22 | a new node knows no peer and no record |
| Dht.DhtNode.FindOldestDead | dht.c:59-68 | the scan finds the specified victim |
| Dht.DhtNode.DropPeer | dht.c:70-72 | the memmove removes one peer and keeps the order of the rest |
| Dht.DhtNode.AddPeer | dht.c:39-87 | refresh, eviction and append give exactly the specified table and result |
| Dht.DhtNode.Rank | dht.c:93-102 | the order array lists each live peer once with its distance |
| Dht.DhtNode.SelectionSort | dht.c:104-110 | the in-place sort keeps the listing and puts it in ascending distance |
| Dht.DhtNode.ClosestPeers | dht.c:89-116 | writes min(live, asked) distinct live peers in ascending XOR distance, none left out nearer than one written, the rest of the array untouched |
| Dht.DhtNode.FindRecord | dht.c:120-125 | finds the first used record of the hash |
| Dht.DhtNode.Announce | dht.c:127-144 | creates the record if there is room, then adds the holder if new and there is room, and nothing else |
| Dht.DhtNode.PutRecord | dht.c:146-158 | merges all holders of a used record and ignores an unused one |
| Dht.DhtNode.Lookup | dht.c:160-171 | writes the holders of the hash in order, at most eight |
| Pubsub.PublishRaises | pubsub.c:26-57 | publishing changes only the topic published to; it is accepted if and only if the version is newer than the known topic's, or the topic is unknown and fewer than 256 are known |
| Pubsub.SubscribeKeeps | pubsub.c:59-74 | subscribing makes a topic known if and only if fewer than 256 are, and moves no version |
| Pubsub.VersionsIncrease | pubsub.c:20-91 | in every run the accepted versions of a topic strictly increase and poll reports their maximum, or nothing while that is 0 |
| Pubsub.VersionedOfPlain | pubsub.c:93-100 | the versioned name of a plain base is its components with the version, for every version, if and only if the last component stays under 64 bytes and the path under 1024; a path cut at 1023 bytes never passes for it |
| Pubsub.PubsubCtx.constructor | pubsub.c:12-18 | a new context has no topic and the given node and endpoint |
| Pubsub.PubsubCtx.Find | pubsub.c:20-24 | finds the first topic with an equal name |
| Pubsub.PubsubCtx.PublishVersion | pubsub.c:26-57 | accepts new topics while there is room and strictly newer versions and announces exactly these, under the base's hash with our endpoint in network order; changes nothing otherwise |
| Pubsub.PubsubCtx.SubscribeTo | pubsub.c:59-74 | adds an unknown topic at version 0 while there is room |
| Pubsub.PubsubCtx.PollVersion | pubsub.c:76-91 | reports the topic's highest version unless it is 0 or unknown |
| Pubsub.MakeVersionedName | pubsub.c:93-100 | printing the base, appending `@` and the version, cutting at 1023 bytes and parsing gives the specified name or refusal |
| PubsubStore.VersionStored | psirp.c:355-425 | storing a new version under its own name adds an entry beside the earlier versions when the hashes of the two texts differ |
| PubsubStore.RunInv | pubsub.c:20-91 | in every run the store's entries of a topic are exactly its accepted versions with their data |
| PubsubStore.PollThenLookup | psirp.c:444-462 | in every run the unversioned lookup returns the data published as the version poll reports, the largest published |
| PubsubStore.ExactVersionMisses | psirp.c:432-442 | in every run a lookup by exact version finds something if and only if something was published and the hashes of base and versioned text collide |
| HtmlScan.LastSlash | html_parse.c:171-176 | the base is cut after its last slash, or after its first byte when it has none |
| HtmlScan.TextSkipped | html_parse.c:244-248 | text without `<` before a document changes nothing |
| HtmlScan.StuckInStyle | html_parse.c:250-271 | with fewer than seven bytes left no style block can end |
| HtmlScan.ScanConcat | html_parse.c:231-382 | if a document ends outside tags and style blocks, scanning it followed by another finds the resources of the first and then those of the second, and ends as the second ends |
| HtmlScan.ParsedConcat | html_parse.c:231-382 | so the reported resources of the two documents are those of each, one after the other, cut to 64 |
| HtmlPages.NameFound | html_parse.c:52-75 | a quoted attribute value reads back exactly |
| HtmlPages.WordSkipped | html_parse.c:88-90 | a word that does not begin with the attribute's name is passed over |
| HtmlPages.TagAttributes | html_parse.c:41-122 | from a written reference the tag name, the URL and the relation read back exactly |
| HtmlPages.PageScanned | html_parse.c:231-382 | scanning a page of text, references and style blocks gives exactly its references and style block lengths, in order |
| HtmlPages.StyleHidesTags | html_parse.c:250-271 | after an unclosed style tag a reference that would be found alone is not found |
| HtmlForms.WordsSpelled | html_parse.c:281-376 | the elements, attributes, schemes and quotes the scanner knows, spelled out |
| HtmlForms.BytesSpelled | html_parse.c:18-21 | which bytes are spaces, which end an unquoted value, and what ignoring the case means |
| HtmlForms.QuotedForms | html_parse.c:66-76 | a value in quotes or apostrophes ends at the next one of the same kind, or with the tag |
| HtmlForms.BareForm | html_parse.c:77-86 | a value in neither ends at the first space, `>` or `/` |
| HtmlForms.LongValueCut | html_parse.c:72-86 | a value that does not fit its buffer is cut to one byte less |
| HtmlForms.AttrForms | html_parse.c:47-86 | an attribute's name counts in any case, with spaces before it and around the `=` |
| HtmlForms.LongerWordSkipped | html_parse.c:52-58 | a word that only begins with the attribute's name is passed over |
| HtmlForms.CaseIgnored | html_parse.c:281-376 | the case of an element's name does not matter |
| HtmlForms.LinkFound | html_parse.c:312-326 | a link is a stylesheet if its relation says so in any case, and else a plain link |
| HtmlForms.NothingFound | html_parse.c:281-376 | closing tags, other elements and tags without a URL name nothing |
| HtmlForms.StyleOpens | html_parse.c:366-370 | a tag with attributes opens a style block if and only if it is a style element, in any case, that does not close itself |
| HtmlForms.StyleEnds | html_parse.c:250-271 | a style block ends at its closing tag in any case, and at most 65535 bytes of it count |
| HtmlForms.AbsoluteResolved | html_parse.c:132-151 | an absolute URL, its scheme in any case, resolves to the path behind the host, cut to 255 bytes |
| HtmlForms.RootedResolved | html_parse.c:153-169 | a rooted URL resolves to itself, and any other relative one does on a page without a name |
| HtmlForms.RelativeResolved | html_parse.c:171-188 | a relative URL replaces what follows the last slash of the page's name |
| HtmlForms.NoDirectory | html_parse.c:171-188 | on a name without a slash the first byte is kept, and on the empty name nothing is left of the URL |
| HtmlParse.SkipWhile | html_parse.c:18-21 | stops at the first byte without the property |
| HtmlParse.ComparisonStaysInTag | html_parse.c:52 | the case-insensitive comparison that may run past the tag's length never matches across its `>` |
| HtmlParse.ExtractAttr | html_parse.c:41-94 | the attribute loop yields the specified value, cut to the buffer, or the empty string |
| HtmlParse.ExtractTagName | html_parse.c:107-122 | yields the tag's name after an optional slash, cut to 63 bytes |
| HtmlParse.ResolveUrl | html_parse.c:126-188 | yields the path of an absolute URL, an absolute path as it is, or the URL after the base's directory |
| HtmlParse.ReadTag | html_parse.c:281-376 | one tag adds exactly the specified resource and opens a style block exactly when specified |
| HtmlParse.Parse | html_parse.c:231-382 | the scanning loop reports exactly the first 64 resources of the document |

## Left out

- Sockets, threads, sleeping, multicast discovery, callbacks and the counters kept for statistics; a failing `sendto` is a lost datagram, except that it also skips recording the Interest.
- Memory: allocation failure, pointer aliasing, the arena of the store, and data races between the receiver and a fetch below the level of one step.
- Inputs that overrun a fixed buffer: paths of 1024 bytes and more, and names that do not fit the text buffers of chunked storage, are excluded by preconditions.
- Names.ToString: asks for room when there is a version, which the source copies without comparing its length to what is left.
- Beacon.EmitPrefix: asks that the prefix fits the 4096-byte buffer; the source leaves out components that do not, but goes on writing separators.
- Beacon.BuildBeacon: asks that the whole message fits the buffer, for the same reason.
- Pubsub.MakeVersionedName: asks for room only when the base itself has a version, for the same reason.
- Beacon.HandleBeacon: takes the byte after the datagram to be NUL; the source's string functions run on until they meet one.
- HtmlParse.ResolveUrl: keeps the first 255 bytes where the source would copy a base directory and URL of more than 256 bytes past the end of the name.
- HtmlParse.Parse: leaves out the title, the base href and the copied bytes of style blocks, whose buffer the base href overwrites; the byte after the document is taken to be its NUL, as html_parse.h:83 asks.
- Node.PsirpNode.HandleInterest: sends nothing for a manifest entry, whose bytes the model does not have.
- html_guess_type, which the scanner does not use.
- Reading a manifest entry's own bytes as ordinary data, and ordinary 3040-byte data stored under the manifest's name: the manifest is an abstract value, so its layout and pointers are not modelled.
- Coherence.CacheCoherence: says nothing of versioned names, which the code does not match exactly; PubsubStore.PollThenLookup and PubsubStore.ExactVersionMisses cover versions.
- Chunking.ChunkedRoundTrip: is about plain names of at most 14 components, because chunk names add two and versioned names cannot be chunked (psirp.c:58, psirp.c:537-540); it takes data that stays fresh until it is read; a versioned entry under the name of one of its own parts is not covered.
- Network.OnlyPublishedContent: asks publishers for canonical components, and its nodes do not store chunked objects.
- Dht.IdFromAddr: takes the endpoint's bytes in little-endian memory order; on a big-endian machine the bytes come reversed and OneByteChangesId holds in the same way.
- dht_get_record, which is find_record again.
- mesh_forward_interest: its hop limit never reaches the wire.
- mesh_send_beacon past the message it builds, that is, to whom it is sent.
- Sending a compute response's signature, checking it, and running a computation (compute.c:119-143, signing.c).
- dso_psirp.c, browser.cpp, terminal_browser.c, mesh_demo.c, client.cpp and publisher.cpp: a fixed task graph, user interfaces and wiring.
