/** The blocking fetch against the receiver thread, step by step: the receiver stores (net.c:197)
    before it deactivates (net.c:204), so a fetch that stops waiting because nothing is pending
    finds the content. */
module WakeUp {
  import opened Bytes
  import opened Names
  import opened Packets
  import opened Store
  import opened Node

  /** Between its two steps on a Data packet the receiver still has the name to settle. */
  datatype Receiver = Listening | Storing(name: Name)

  /** Where the fetch stands: sending Interests, at the top of its wait loop, reading pending
      entry `next`, past the loop because the `bound` entries read were not pending, or done. */
  datatype Fetcher = Sending | Checking | Scanning(next: nat) | Leaving(bound: nat) | Finished

  /** `mine` is the first pending entry this fetch recorded; no step reads it. */
  datatype System =
    System(entries: seq<Entry>, pending: seq<Pending>, receiver: Receiver, fetcher: Fetcher, mine: Option<nat>)

  datatype Action =
    | SendOne(timeoutMs: u32, ambient: Ambient)
    | StartWaiting
    | Check(now: u64)
    | Scan
    | GiveUp
    | StoreData(data: Data, now: u64)
    | Deactivate
    | Answer(asked: Name, now: u64)
    | Forward(asked: Name, timeoutMs: u32, ambient: Ambient)

  function Record(ps: seq<Pending>, n: Name, timeout: u32, a: Ambient): seq<Pending> {
    if |ps| < MAX_PENDING then ps + [NewPending(n, timeout, a)] else ps
  }

  predicate Waits(p: Pending, n: Name) { p.active && NameEqual(p.name, n) }

  /** One step of either thread; a step that is not due changes nothing. */
  function Act(s: System, n: Name, a: Action): System {
    match a
    case SendOne(timeout, amb) =>
      if !s.fetcher.Sending? then s
      else s.(pending := Record(s.pending, n, timeout, amb),
              mine := if s.mine.None? && |s.pending| < MAX_PENDING then Some(|s.pending|) else s.mine)
    case StartWaiting => if s.fetcher.Sending? then s.(fetcher := Checking) else s
    case Check(now) =>
      if !s.fetcher.Checking? then s
      else s.(entries := Looked(s.entries, n, now),
              fetcher := if Find(s.entries, n, now).Some? then Finished else Scanning(0))
    case Scan =>
      if !s.fetcher.Scanning? then s
      else if s.fetcher.next >= |s.pending| then s.(fetcher := Leaving(|s.pending|))
      else if Waits(s.pending[s.fetcher.next], n) then s.(fetcher := Checking)
      else s.(fetcher := Scanning(s.fetcher.next + 1))
    case GiveUp => if s.fetcher.Checking? then s.(fetcher := Finished) else s
    case StoreData(d, now) =>
      if !s.receiver.Listening? then s
      else s.(entries := StoreEntry(s.entries, 0, d.name, Raw(d.data), d.freshnessMs, now).entries,
              receiver := Storing(d.name))
    case Deactivate =>
      if !s.receiver.Storing? then s
      else s.(pending := Settled(s.pending, s.receiver.name), receiver := Listening)
    case Answer(m, now) =>
      if s.receiver.Listening? then s.(entries := Looked(s.entries, m, now)) else s
    case Forward(m, timeout, amb) =>
      if s.receiver.Listening? then s.(pending := Record(s.pending, m, timeout, amb)) else s
  }

  function Acts(s: System, n: Name, run: seq<Action>): System {
    if run == [] then s else Act(Acts(s, n, run[..|run| - 1]), n, run[|run| - 1])
  }

  /** Data for the name has a storable size, finds its name held or a slot free in the store, which
      has no budget, and does not expire. */
  ghost predicate Stores(s: System, n: Name, a: Action) {
    a.StoreData? && s.receiver.Listening? && a.data.name.components == n.components ==>
      a.data.freshnessMs == 0 && 0 < |a.data.data| <= MAX_DATA && HasRoom(s.entries, a.data.name)
  }

  ghost predicate HasRoom(es: seq<Entry>, n: Name) {
    (exists i :: 0 <= i < |es| && NameEqual(es[i].name, n)) || |es| < CAPACITY
  }

  ghost predicate Roomy(s: System, n: Name, run: seq<Action>) {
    forall k :: 0 <= k < |run| ==> Stores(Acts(s, n, run[..k]), n, run[k])
  }

  // ----- the invariant --------------------------------------------------------------

  predicate Lasting(e: Entry, n: Name) { e.name.components == n.components && e.freshnessMs == 0 }

  ghost predicate Kept(es: seq<Entry>, n: Name) {
    exists i :: 0 <= i < |es| && Lasting(es[i], n)
  }

  ghost predicate NoneWaits(ps: seq<Pending>, n: Name, bound: nat) {
    bound <= |ps| && forall j :: 0 <= j < bound ==> !Waits(ps[j], n)
  }

  ghost predicate Recorded(s: System, n: Name) {
    s.mine.Some? ==>
      s.mine.value < |s.pending| && NameEqual(s.pending[s.mine.value].name, n)
      && (s.pending[s.mine.value].active || Kept(s.entries, n))
  }

  ghost predicate Inv(s: System, n: Name) {
    && Recorded(s, n)
    && (s.receiver.Storing? && s.receiver.name.components == n.components ==> Kept(s.entries, n))
    && (s.fetcher.Scanning? ==> NoneWaits(s.pending, n, s.fetcher.next))
    && (s.fetcher.Leaving? ==> NoneWaits(s.pending, n, s.fetcher.bound)
                               && (s.mine.Some? ==> s.mine.value < s.fetcher.bound))
  }

  lemma LookedKept(es: seq<Entry>, m: Name, now: u64, n: Name)
    requires Kept(es, n)
    ensures Kept(Looked(es, m, now), n)
  {
    LookedKeeps(es, m, now);
    hide Find, Looked;
    var i :| 0 <= i < |es| && Lasting(es[i], n);
    assert Lasting(Looked(es, m, now)[i], n);
  }

  /** Without a budget a store only adds or renews; content of the name in particular. */
  lemma StoreKept(es: seq<Entry>, m: Name, data: Content, life: u32, now: u64, n: Name)
    requires Plain(n)
    requires m.components == n.components ==> life == 0 && StoreEntry(es, 0, m, data, life, now).ok
    ensures var r := StoreEntry(es, 0, m, data, life, now).entries;
            (Kept(es, n) ==> Kept(r, n)) && (m.components == n.components ==> Kept(r, n))
  {
    var k, r := FirstEqual(es, m), StoreEntry(es, 0, m, data, life, now).entries;
    if m.components == n.components {
      RebuildClean(n.components);
      hide FirstEqual, Rebuild, Plain;
      assert Lasting(r[k], n);
    } else if Kept(es, n) {
      hide FirstEqual, Rebuild, Plain;
      var i :| 0 <= i < |es| && Lasting(es[i], n);
      assert Lasting(r[i], n);
    }
  }

  lemma RecordPlain(n: Name, timeout: u32, a: Ambient)
    requires Plain(n)
    ensures NewPending(n, timeout, a).name == n && NewPending(n, timeout, a).active
  {
    RebuildClean(n.components);
  }

  /** Settling a name leaves every other entry alone and keeps all names. */
  lemma SettledEffect(ps: seq<Pending>, m: Name)
    ensures |Settled(ps, m)| == |ps|
    ensures forall j :: 0 <= j < |ps| ==>
              Settled(ps, m)[j].name == ps[j].name && (Settled(ps, m)[j].active ==> ps[j].active)
              && (ps[j].active && !NameEqual(ps[j].name, m) ==> Settled(ps, m)[j].active)
  {
  }

  lemma FetcherStep(s: System, n: Name, a: Action)
    requires Inv(s, n) && Plain(n) && (a.SendOne? || a.StartWaiting? || a.Check? || a.Scan? || a.GiveUp?)
    ensures Inv(Act(s, n, a), n)
  {
    match a
    case SendOne(timeout, amb) => RecordPlain(n, timeout, amb); hide NewPending, Plain;
    case Check(now) =>
      if Kept(s.entries, n) { LookedKept(s.entries, n, now, n); }
      hide Looked, Find, Plain, Kept;
    case _ =>
  }

  lemma ReceiverStep(s: System, n: Name, a: Action)
    requires Inv(s, n) && Plain(n) && Stores(s, n, a)
    requires a.StoreData? || a.Deactivate? || a.Answer? || a.Forward?
    ensures Inv(Act(s, n, a), n)
  {
    match a
    case StoreData(d, now) =>
      AcceptedIff(s.entries, 0, d.name, Raw(d.data), d.freshnessMs, now);
      if s.receiver.Listening? { StoreKept(s.entries, d.name, Raw(d.data), d.freshnessMs, now, n); }
      hide StoreEntry, Plain, Kept;
    case Deactivate =>
      if s.receiver.Storing? { SettledEffect(s.pending, s.receiver.name); }
      hide Settled, Plain, Kept;
    case Answer(m, now) =>
      if Kept(s.entries, n) { LookedKept(s.entries, m, now, n); }
      hide Looked, Plain, Kept;
    case Forward(m, timeout, amb) => hide NewPending, Plain, Kept;
  }

  lemma {:induction false} RunInv(s: System, n: Name, run: seq<Action>)
    requires Inv(s, n) && Plain(n) && Roomy(s, n, run)
    ensures Inv(Acts(s, n, run), n)
  {
    if run != [] {
      var k := |run| - 1;
      var before := run[..k];
      forall j | 0 <= j < k ensures Stores(Acts(s, n, before[..j]), n, before[j]) {
        assert before[..j] == run[..j];
      }
      RunInv(s, n, before);
      var t, a := Acts(s, n, before), run[k];
      assert Stores(Acts(s, n, run[..k]), n, a);
      hide Inv, Stores, Act, Plain;
      if a.SendOne? || a.StartWaiting? || a.Check? || a.Scan? || a.GiveUp? {
        FetcherStep(t, n, a);
      } else {
        ReceiverStep(t, n, a);
      }
    }
  }

  lemma KeptIsFound(es: seq<Entry>, n: Name, now: u64)
    requires Kept(es, n) && !n.hasVersion
    ensures Find(es, n, now).Some? && es[Find(es, n, now).value].name.components == n.components
  {
    var i :| 0 <= i < |es| && Lasting(es[i], n);
    assert Matches(es[i], n.components, now);
  }

  /** The moment a fetch begins: nothing sent yet. The receiver may be anywhere, if between its two
      steps on Data for the name then after storing it. */
  ghost predicate Begins(s: System, n: Name) {
    s.fetcher.Sending? && s.mine.None?
    && (s.receiver.Storing? && s.receiver.name.components == n.components ==> Kept(s.entries, n))
  }

  /** No lost wake-up: for every interleaving of the two threads, once a fetch that recorded an
      Interest leaves its loop because nothing is pending, its last lookup finds the content,
      provided the store could take Data for the name whenever it came. */
  lemma {:induction false} NoLostWakeUp(s: System, n: Name, run: seq<Action>, now: u64)
    requires Begins(s, n) && Plain(n) && Roomy(s, n, run)
    requires Acts(s, n, run).fetcher.Leaving? && Acts(s, n, run).mine.Some?
    ensures var es := Acts(s, n, run).entries;
            Find(es, n, now).Some? && es[Find(es, n, now).value].name.components == n.components
  {
    RunInv(s, n, run);
    hide Acts, Find;
    KeptIsFound(Acts(s, n, run).entries, n, now);
  }

  function Scans(k: nat): seq<Action> { seq(k, _ => Scan) }

  lemma {:induction false} ScanGoesOn(s: System, n: Name, j: nat)
    requires s.fetcher == Scanning(0) && j <= FirstActive(s.pending, n)
    ensures Acts(s, n, Scans(j)) == s.(fetcher := Scanning(j))
  {
    if j == 0 {
      assert Scans(0) == [];
    } else {
      assert Scans(j)[..j - 1] == Scans(j - 1) && Scans(j)[j - 1] == Scan;
      ScanGoesOn(s, n, j - 1);
      assert !Waits(s.pending[j - 1], n);
    }
  }

  lemma {:induction false} ActsConcat(s: System, n: Name, a: seq<Action>, b: seq<Action>)
    ensures Acts(s, n, a + b) == Acts(Acts(s, n, a), n, b)
  {
    hide Act;
    if b == [] {
      assert a + b == a;
    } else {
      assert (a + b)[..|a + b| - 1] == a + b[..|b| - 1] && (a + b)[|a + b| - 1] == b[|b| - 1];
      ActsConcat(s, n, a, b[..|b| - 1]);
    }
  }

  /** One pass of the wait loop, undisturbed: the fetch is done if its lookup finds the content; if not
      it goes round again while an entry for the name waits, and leaves when none does. */
  lemma PassDecides(s: System, n: Name, now: u64)
    requires s.fetcher.Checking?
    ensures var k := FirstActive(s.pending, n);
      if Find(s.entries, n, now).Some? then Act(s, n, Check(now)) == s.(entries := Looked(s.entries, n, now), fetcher := Finished)
      else Acts(s, n, [Check(now)] + Scans(k + 1)) == s.(fetcher := if k < |s.pending| then Checking else Leaving(|s.pending|))
  {
    hide Find;
    var k, t := FirstActive(s.pending, n), Act(s, n, Check(now));
    if Find(s.entries, n, now).None? {
      assert [Check(now)][..0] == [] && Acts(s, n, []) == s;
      assert Acts(s, n, [Check(now)]) == t;
      ActsConcat(s, n, [Check(now)], Scans(k + 1));
      ScanGoesOn(t, n, k);
      assert Scans(k + 1)[..k] == Scans(k) && Scans(k + 1)[k] == Scan;
      assert k < |s.pending| ==> Waits(s.pending[k], n);
    }
  }

  /** One pass of the receiver over Data for a name the fetch's first lookup missed, because it was
      never stored or has expired: the content is found afterwards if and only if it has a storable
      size and its name was held or a slot free; the pending table is settled either way. */
  lemma ArrivalFoundIff(s: System, n: Name, d: Data, now: u64)
    requires Plain(n) && d.name == n && s.receiver.Listening? && Find(s.entries, n, now).None?
    ensures var t := Acts(s, n, [StoreData(d, now), Deactivate]);
            (Find(t.entries, n, now).Some? <==> 0 < |d.data| <= MAX_DATA && HasRoom(s.entries, n))
            && t.pending == Settled(s.pending, n)
  {
    var run := [StoreData(d, now), Deactivate];
    assert run[..1] == [StoreData(d, now)] && run[..1][..0] == [];
    assert Acts(s, n, run[..1][..0]) == s;
    var t := Act(s, n, StoreData(d, now));
    assert Acts(s, n, run[..1]) == t && Acts(s, n, run) == Act(t, n, Deactivate);
    hide Acts, StoreEntry, Settled, Find, HasRoom;
    StoredFoundIff(s.entries, n, d.data, d.freshnessMs, now);
  }

  lemma StoredFoundIff(es: seq<Entry>, n: Name, data: seq<byte>, life: u32, now: u64)
    requires Plain(n) && Find(es, n, now).None?
    ensures Find(StoreEntry(es, 0, n, Raw(data), life, now).entries, n, now).Some?
        <==> 0 < |data| <= MAX_DATA && HasRoom(es, n)
  {
    AcceptedIff(es, 0, n, Raw(data), life, now);
    PlainStoredName(n);
    var i, r := FirstEqual(es, n), StoreEntry(es, 0, n, Raw(data), life, now);
    hide Plain, StoredName, Newest, FirstEqual, HasRoom;
    if r.ok {
      assert Matches(r.entries[i], n.components, now);
    }
  }

  /** So Data the store cannot take is lost although the receiver settles the fetch's only pending
      entry: nothing waits any more and the lookup misses. */
  lemma RefusedDataLosesWakeUp(s: System, n: Name, d: Data, now: u64, mine: nat)
    requires Plain(n) && d.name == n && s.receiver.Listening? && Find(s.entries, n, now).None?
    requires |d.data| == 0 || |d.data| > MAX_DATA || !HasRoom(s.entries, n)
    requires mine < |s.pending| && Waits(s.pending[mine], n)
    requires forall j :: 0 <= j < |s.pending| && j != mine ==> !Waits(s.pending[j], n)
    ensures var t := Acts(s, n, [StoreData(d, now), Deactivate]);
            NoneWaits(t.pending, n, |t.pending|) && Find(t.entries, n, now).None?
  {
    hide Acts, Find, Plain, HasRoom;
    ArrivalFoundIff(s, n, d, now);
    assert FirstActive(s.pending, n) == mine;
  }
}
