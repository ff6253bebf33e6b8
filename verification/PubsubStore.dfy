/** Publishing versions into a content store: what poll reports is what an unversioned lookup
    finds. */
module PubsubStore {
  import opened Bytes
  import opened Names
  import opened Store
  import opened Pubsub
  import C = Coherence
  import Fnv

  /** A publisher offers a version and, when it is accepted, stores its data for good under the
      versioned name; subscriptions; and any other call on the store. */
  datatype Action =
    | Offer(base: Name, version: u64, data: Content, at: u64)
    | Join(base: Name)
    | Other(call: C.Call)

  datatype State = State(topics: seq<Topic>, store: C.State)

  function Put(s: C.State, n: Name, data: Content, at: u64): Stored {
    StoreEntry(s.entries, s.maxBytes, n, data, 0, at)
  }

  function Step(s: State, a: Action): State {
    match a
    case Offer(base, v, data, at) =>
      var p := Publish(s.topics, base, v);
      var name := Versioned(base, v);
      if p.ok && name.ok
      then State(p.topics, s.store.(entries := Put(s.store, name.name, data, at).entries))
      else State(p.topics, s.store)
    case Join(base) => s.(topics := Subscribe(s.topics, base))
    case Other(c) => s.(store := C.Step(s.store, c))
  }

  function Run(acts: seq<Action>): State {
    if acts == [] then State([], C.State([], 0)) else Step(Run(acts[..|acts| - 1]), acts[|acts| - 1])
  }

  predicate AcceptedFor(s: State, a: Action, cs: C.Key) {
    a.Offer? && a.base.components == cs && Publish(s.topics, a.base, a.version).ok
  }

  /** The data published as each accepted version of a topic. */
  function Issued(acts: seq<Action>, cs: C.Key): map<u64, Content> {
    if acts == [] then map[]
    else
      var front, a := acts[..|acts| - 1], acts[|acts| - 1];
      if AcceptedFor(Run(front), a, cs) then Issued(front, cs)[a.version := a.data] else Issued(front, cs)
  }

  // ----- what is asked of a run -----------------------------------------------------

  predicate HashesApart(cs: C.Key, v: u64) {
    Fnv.Hash(TextOf(cs)) != Fnv.Hash(TextOf(cs) + VersionText(v))
  }

  /** An accepted version of the topic was stored: its name fits, its hash is not the base's, and the
      store took it. */
  predicate StoredFor(s: State, a: Action, cs: C.Key) {
    AcceptedFor(s, a, cs) ==>
      cs != [] && VersionFits(cs, a.version) && PathFits(a.base, a.version) && HashesApart(cs, a.version)
      && Put(s.store, Versioned(a.base, a.version).name, a.data, a.at).ok
  }

  /** Names are plain, no budget is set, and no other call stores or removes under the topic. Stored
      names are canonical up to a version, and no other topic's path is so long that its cut names
      this topic. */
  predicate Leaves(a: Action, cs: C.Key) {
    match a
    case Offer(base, v, _, _) =>
      Plain(base) && (base.components != cs && Versioned(base, v).ok ==> Elsewhere(Versioned(base, v).name, cs))
    case Join(base) => Plain(base)
    case Other(c) =>
      match c.op
      case Put(n, _, _) => Elsewhere(n, cs)
      case Remove(n) => n.components != cs
      case SetBudget(b) => b == 0
      case _ => true
  }

  predicate Elsewhere(n: Name, cs: C.Key) { Canonical(n.components) && n.components != cs }

  ghost predicate Faithful(acts: seq<Action>, cs: C.Key) {
    forall i :: 0 <= i < |acts| ==> Leaves(acts[i], cs) && StoredFor(Run(acts[..i]), acts[i], cs)
  }

  // ----- the invariant --------------------------------------------------------------

  /** An entry of the topic: unversioned hash, never expiring. */
  predicate IsVersion(e: Entry, cs: C.Key, v: u64, data: Content) {
    e.name == PlainName(cs).(version := v, hasVersion := true) && e.data == data && e.freshnessMs == 0
  }

  ghost predicate Shown(es: seq<Entry>, cs: C.Key, v: u64, data: Content) {
    exists e :: e in es && IsVersion(e, cs, v, data)
  }

  ghost predicate Listed(es: seq<Entry>, cs: C.Key, issued: map<u64, Content>) {
    forall e :: e in es && e.name.components == cs ==>
      e.name.version in issued && IsVersion(e, cs, e.name.version, issued[e.name.version])
  }

  ghost predicate AllShown(es: seq<Entry>, cs: C.Key, issued: map<u64, Content>) {
    forall v :: v in issued ==> Shown(es, cs, v, issued[v])
  }

  /** The entries of the topic are the issued versions. */
  ghost predicate Matching(es: seq<Entry>, cs: C.Key, issued: map<u64, Content>) {
    Listed(es, cs, issued) && AllShown(es, cs, issued)
  }

  /** An entry like `e` up to its access record. */
  ghost predicate Twin(es: seq<Entry>, e: Entry) {
    exists d :: d in es && d.name == e.name && d.data == e.data && d.freshnessMs == e.freshnessMs
  }

  /** No entry under `cs` came or went, save entries that may expire. */
  ghost predicate SameUnder(es: seq<Entry>, after: seq<Entry>, cs: C.Key) {
    && (forall e :: e in after && e.name.components == cs ==> Twin(es, e))
    && (forall e :: e in es && e.name.components == cs && e.freshnessMs == 0 ==> Twin(after, e))
  }

  lemma TwinListed(es: seq<Entry>, e: Entry, cs: C.Key, issued: map<u64, Content>)
    requires Listed(es, cs, issued) && Twin(es, e) && e.name.components == cs
    ensures e.name.version in issued && IsVersion(e, cs, e.name.version, issued[e.name.version])
  {
    hide PlainName;
  }

  lemma TwinShown(es: seq<Entry>, after: seq<Entry>, cs: C.Key, v: u64, data: Content)
    requires SameUnder(es, after, cs) && Shown(es, cs, v, data)
    ensures Shown(after, cs, v, data)
  {
    PlainComponents(cs);
    hide PlainName;
    var e :| e in es && IsVersion(e, cs, v, data);
    assert Twin(after, e) by { hide Twin; }
    var d :| d in after && d.name == e.name && d.data == e.data && d.freshnessMs == e.freshnessMs;
    assert IsVersion(d, cs, v, data);
  }

  lemma SameKeepsMatching(es: seq<Entry>, after: seq<Entry>, cs: C.Key, issued: map<u64, Content>)
    requires Matching(es, cs, issued) && SameUnder(es, after, cs)
    ensures Matching(after, cs, issued)
  {
    hide Twin, Shown, IsVersion;
    forall e | e in after && e.name.components == cs
      ensures e.name.version in issued && IsVersion(e, cs, e.name.version, issued[e.name.version])
    {
      TwinListed(es, e, cs, issued);
    }
    forall v | v in issued ensures Shown(after, cs, v, issued[v]) {
      TwinShown(es, after, cs, v, issued[v]);
    }
  }

  lemma PlainComponents(cs: C.Key)
    ensures PlainName(cs).components == cs
  {
  }

  // ----- calls on other names -------------------------------------------------------

  lemma UpdatedElsewhere(es: seq<Entry>, i: nat, e: Entry, cs: C.Key)
    requires i < |es| && es[i].name.components != cs && e.name.components != cs
    ensures SameUnder(es, es[i := e], cs)
  {
    var r := es[i := e];
    forall x | x in es && x.name.components == cs ensures x in r {
      var j :| 0 <= j < |es| && es[j] == x;
      assert r[j] == x;
    }
  }

  lemma AppendedElsewhere(es: seq<Entry>, e: Entry, cs: C.Key)
    requires e.name.components != cs
    ensures SameUnder(es, es + [e], cs)
  {
  }

  lemma TouchedSame(es: seq<Entry>, i: nat, now: u64, cs: C.Key)
    requires i < |es|
    ensures SameUnder(es, Touch(es, i, now), cs)
  {
    var r := Touch(es, i, now);
    forall e | e in r ensures Twin(es, e) {
      var j :| 0 <= j < |r| && r[j] == e;
      assert es[j] in es;
    }
    forall e | e in es ensures Twin(r, e) {
      var j :| 0 <= j < |es| && es[j] == e;
      assert r[j] in r;
    }
  }

  lemma RemovedElsewhere(es: seq<Entry>, i: nat, cs: C.Key)
    requires i < |es| && es[i].name.components != cs
    ensures SameUnder(es, SwapRemove(es, i), cs)
  {
    var r := SwapRemove(es, i);
    forall e | e in r ensures e in es {
      var j :| 0 <= j < |r| && r[j] == e;
      assert r[j] == es[if j == i then |es| - 1 else j];
    }
    forall e | e in es && e.name.components == cs ensures e in r {
      var j :| 0 <= j < |es| && es[j] == e;
      assert r[if j == |es| - 1 then i else j] == e;
    }
  }

  lemma SweptSame(es: seq<Entry>, now: u64, cs: C.Key)
    ensures SameUnder(es, Sweep(es, |es|, now), cs)
  {
    hide Sweep;
    forall e ensures e in Sweep(es, |es|, now) <==> e in es && !Expired(e, now) { SweepMembers(es, now, e); }
  }

  lemma StoreCases(es: seq<Entry>, n: Name, data: Content, life: u32, at: u64)
    ensures var r, i := StoreEntry(es, 0, n, data, life, at).entries, FirstEqual(es, n);
      || r == es
      || (i < |es| && r == es[i := Renewed(es[i], data, life, at)])
      || r == es + [NewEntry(n, data, life, at)]
  {
    hide FirstEqual, Evict, TotalBytes, NewEntry;
  }

  lemma NewEntryName(n: Name, data: Content, life: u32, at: u64)
    requires Canonical(n.components)
    ensures NewEntry(n, data, life, at).name.components == n.components
  {
    RebuildClean(n.components);
  }

  lemma StoredElsewhere(es: seq<Entry>, n: Name, data: Content, life: u32, at: u64, cs: C.Key)
    requires Canonical(n.components) && n.components != cs
    ensures SameUnder(es, StoreEntry(es, 0, n, data, life, at).entries, cs)
  {
    hide SameUnder, FirstEqual, Canonical, StoreEntry, NewEntry;
    NewEntryName(n, data, life, at);
    StoreCases(es, n, data, life, at);
    SameAsItself(es, cs);
    AppendedElsewhere(es, NewEntry(n, data, life, at), cs);
    EqualNames(es, n);
    var i := FirstEqual(es, n);
    if i < |es| { UpdatedElsewhere(es, i, Renewed(es[i], data, life, at), cs); }
  }

  lemma EqualNames(es: seq<Entry>, n: Name)
    ensures FirstEqual(es, n) < |es| ==> es[FirstEqual(es, n)].name.components == n.components
    ensures FirstEqual(es, n) < |es| ==> es[FirstEqual(es, n)].name.hash == n.hash
  {
  }

  lemma SameAsItself(es: seq<Entry>, cs: C.Key)
    ensures SameUnder(es, es, cs)
  {
  }

  lemma OtherCallSame(s: C.State, c: C.Call, cs: C.Key)
    requires s.maxBytes == 0 && Leaves(Other(c), cs)
    ensures SameUnder(s.entries, C.Step(s, c).entries, cs) && C.Step(s, c).maxBytes == 0
  {
    var es := s.entries;
    hide SameUnder, Canonical, StoreEntry, Find, Sweep, SwapRemove, FirstEqual;
    match c.op {
      case Put(n, data, life) => StoredElsewhere(es, n, data, life, c.at, cs);
      case Get(n) =>
        SameAsItself(es, cs);
        var found := Find(es, n, c.at);
        if found.Some? { TouchedSame(es, found.value, c.at, cs); }
      case Remove(n) =>
        SameAsItself(es, cs);
        EqualNames(es, n);
        if FirstEqual(es, n) < |es| { RemovedElsewhere(es, FirstEqual(es, n), cs); }
      case Gc => SweptSame(es, c.at, cs);
      case SetBudget(b) => SameAsItself(es, cs);
    }
  }

  // ----- storing a version ----------------------------------------------------------

  lemma NoneEqual(es: seq<Entry>, cs: C.Key, issued: map<u64, Content>, v: u64)
    requires Matching(es, cs, issued) && HashesApart(cs, v)
    ensures FirstEqual(es, VersionedName(cs, v)) == |es|
  {
    hide FirstEqual, Fnv.Hash;
    var n := VersionedName(cs, v);
    forall e | e in es ensures !NameEqual(e.name, n) {}
    if FirstEqual(es, n) < |es| { InTable(es, FirstEqual(es, n)); }
  }

  lemma VersionAdded(es: seq<Entry>, e: Entry, cs: C.Key, issued: map<u64, Content>, v: u64, data: Content)
    requires Matching(es, cs, issued) && IsVersion(e, cs, v, data) && v !in issued
    ensures Matching(es + [e], cs, issued[v := data])
  {
    hide PlainName;
    PlainComponents(cs);
    var r, after := es + [e], issued[v := data];
    assert e in r;
    forall u | u in after ensures Shown(r, cs, u, after[u]) {
      if u != v {
        var x :| x in es && IsVersion(x, cs, u, issued[u]);
        assert x in r;
      }
    }
  }

  lemma VersionStored(es: seq<Entry>, cs: C.Key, issued: map<u64, Content>, v: u64, data: Content, at: u64)
    requires Canonical(cs) && Matching(es, cs, issued) && HashesApart(cs, v) && v !in issued
    requires StoreEntry(es, 0, VersionedName(cs, v), data, 0, at).ok
    ensures Matching(StoreEntry(es, 0, VersionedName(cs, v), data, 0, at).entries, cs, issued[v := data])
  {
    RebuildClean(cs);
    hide Matching, FirstEqual, Rebuild, Canonical, HashesApart;
    NoneEqual(es, cs, issued, v);
    VersionAdded(es, NewEntry(VersionedName(cs, v), data, 0, at), cs, issued, v, data);
  }

  /** The topic's highest version is the largest issued. */
  ghost predicate Tracks(ts: seq<Topic>, cs: C.Key, issued: map<u64, Content>) {
    && WellFormed(ts)
    && (forall v :: v in issued ==> v <= Highest(ts, PlainName(cs)) && Known(ts, PlainName(cs)))
    && (if issued == map[] then Highest(ts, PlainName(cs)) == 0 else Highest(ts, PlainName(cs)) in issued)
  }

  ghost predicate Inv(s: State, cs: C.Key, issued: map<u64, Content>) {
    s.store.maxBytes == 0 && Matching(s.store.entries, cs, issued) && Tracks(s.topics, cs, issued)
  }

  lemma OfferTracks(ts: seq<Topic>, base: Name, v: u64, data: Content, cs: C.Key, issued: map<u64, Content>)
    requires Canonical(cs) && Plain(base) && Tracks(ts, cs, issued)
    ensures var p := Publish(ts, base, v);
      if base.components == cs && p.ok then v !in issued && Tracks(p.topics, cs, issued[v := data])
      else Tracks(p.topics, cs, issued)
  {
    hide WellFormed, Publish, Highest, Known;
    PublishRaises(ts, base, v, PlainName(cs));
  }

  lemma JoinTracks(ts: seq<Topic>, base: Name, cs: C.Key, issued: map<u64, Content>)
    requires Canonical(cs) && Plain(base) && Tracks(ts, cs, issued)
    ensures Tracks(Subscribe(ts, base), cs, issued)
  {
    hide WellFormed, Subscribe, Highest, Known;
    SubscribeKeeps(ts, base, PlainName(cs));
  }

  lemma StepInv(s: State, a: Action, cs: C.Key, issued: map<u64, Content>)
    requires Canonical(cs) && Inv(s, cs, issued) && Leaves(a, cs) && StoredFor(s, a, cs)
    ensures Inv(Step(s, a), cs, if AcceptedFor(s, a, cs) then issued[a.version := a.data] else issued)
  {
    hide Matching, Tracks, StoreEntry, Versioned, Publish, Canonical, HashesApart, SameUnder, C.Step, Subscribe;
    match a {
      case Offer(base, v, data, at) =>
        OfferTracks(s.topics, base, v, data, cs, issued);
        VersionedOfPlain(base, v);
        if Publish(s.topics, base, v).ok {
          if base.components == cs {
            VersionStored(s.store.entries, cs, issued, v, data, at);
          } else if Versioned(base, v).ok {
            var n := Versioned(base, v).name;
            StoredElsewhere(s.store.entries, n, data, 0, at, cs);
            SameKeepsMatching(s.store.entries, StoreEntry(s.store.entries, 0, n, data, 0, at).entries, cs, issued);
          }
        }
      case Join(base) => JoinTracks(s.topics, base, cs, issued);
      case Other(c) =>
        OtherCallSame(s.store, c, cs);
        SameKeepsMatching(s.store.entries, C.Step(s.store, c).entries, cs, issued);
    }
  }

  lemma CanonicalBase(base: Name)
    requires Plain(base)
    ensures Canonical(base.components)
  {
  }

  lemma {:induction false} RunInv(acts: seq<Action>, cs: C.Key)
    requires Canonical(cs) && Faithful(acts, cs)
    ensures Inv(Run(acts), cs, Issued(acts, cs))
  {
    hide Inv, Step, Leaves, StoredFor, AcceptedFor, Canonical;
    if acts == [] {
      StartInv(cs);
    } else {
      var n := |acts| - 1;
      FaithfulFront(acts, cs);
      RunInv(acts[..n], cs);
      StepInv(Run(acts[..n]), acts[n], cs, Issued(acts[..n], cs));
    }
  }

  lemma FaithfulFront(acts: seq<Action>, cs: C.Key)
    requires acts != [] && Faithful(acts, cs)
    ensures Faithful(acts[..|acts| - 1], cs)
    ensures Leaves(acts[|acts| - 1], cs) && StoredFor(Run(acts[..|acts| - 1]), acts[|acts| - 1], cs)
  {
    hide Run, Leaves, StoredFor;
    var front := acts[..|acts| - 1];
    forall i | 0 <= i < |front| ensures Leaves(front[i], cs) && StoredFor(Run(front[..i]), front[i], cs) {
      assert front[..i] == acts[..i] && front[i] == acts[i];
    }
  }

  lemma StartInv(cs: C.Key)
    ensures Inv(State([], C.State([], 0)), cs, map[])
  {
  }

  // ----- the theorem ----------------------------------------------------------------

  /** Only the newest version can be what an unversioned lookup finds. */
  lemma NewestFound(es: seq<Entry>, cs: C.Key, issued: map<u64, Content>, h: u64, now: u64)
    requires Matching(es, cs, issued) && h in issued && forall v :: v in issued ==> v <= h
    ensures var r := Newest(es, |es|, cs, now);
      r.Some? && es[r.value].name.version == h && es[r.value].data == issued[h]
  {
    hide Newest;
    PlainComponents(cs);
    var e :| e in es && IsVersion(e, cs, h, issued[h]);
    var j :| 0 <= j < |es| && es[j] == e;
    assert Matches(es[j], cs, now) by { hide PlainName; }
    var r := Newest(es, |es|, cs, now);
    assert es[r.value] in es;
  }

  /** In every run: when poll reports a version, the unversioned lookup returns the data published
      as that version, and it is the largest version published; when poll reports none, nothing
      was published, except possibly as version 0. */
  lemma PollThenLookup(acts: seq<Action>, n: Name, now: u64)
    requires Plain(n) && Faithful(acts, n.components)
    ensures var s, issued := Run(acts), Issued(acts, n.components);
      var reported, r := Poll(s.topics, n), Find(s.store.entries, n, now);
      if reported.Some?
      then reported.value in issued && r.Some?
           && s.store.entries[r.value].data == issued[reported.value]
           && forall v :: v in issued ==> v <= reported.value
      else forall v :: v in issued ==> v == 0
  {
    CanonicalBase(n);
    RunInv(acts, n.components);
    hide Run, Issued, Faithful, Plain, Matching, WellFormed, FindTopic, Newest;
    var s, issued := Run(acts), Issued(acts, n.components);
    PlainIs(n);
    var h := Highest(s.topics, n);
    if h in issued { NewestFound(s.store.entries, n.components, issued, h, now); }
  }

  lemma ExactHit(es: seq<Entry>, cs: C.Key, issued: map<u64, Content>, v: u64, now: u64)
    requires Matching(es, cs, issued)
    ensures Find(es, VersionedName(cs, v), now).Some? <==> !HashesApart(cs, v) && issued != map[]
  {
    hide FirstLive, TextOf, VersionText, Fnv.Hash;
    var n := VersionedName(cs, v);
    var k := FirstLive(es, n, now);
    if k < |es| { InTable(es, k); }
    if !HashesApart(cs, v) && issued != map[] {
      var u :| u in issued;
      var e :| e in es && IsVersion(e, cs, u, issued[u]);
      var j :| 0 <= j < |es| && es[j] == e;
      assert NameEqual(es[j].name, n) && !Expired(es[j], now);
    }
  }

  /** Looking a version up by its own name misses what was stored under that name: in every run it
      finds something exactly when the hashes of the two texts happen to collide. */
  lemma ExactVersionMisses(acts: seq<Action>, n: Name, v: u64, now: u64)
    requires Plain(n) && Faithful(acts, n.components)
    ensures Find(Run(acts).store.entries, VersionedName(n.components, v), now).Some?
        <==> !HashesApart(n.components, v) && Issued(acts, n.components) != map[]
  {
    CanonicalBase(n);
    RunInv(acts, n.components);
    hide Run, Issued, Faithful, Plain, Matching, Tracks, Find;
    ExactHit(Run(acts).store.entries, n.components, Issued(acts, n.components), v, now);
  }

  lemma PlainIs(n: Name)
    requires Plain(n)
    ensures n == PlainName(n.components) && !n.hasVersion
  {
  }
}
