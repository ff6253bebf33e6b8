/** Any number of nodes over a network that loses, duplicates and reorders datagrams: everything
    a store holds or a Data packet carries was published by some node under those components. */
module Network {
  import opened Bytes
  import opened Names
  import opened Wire
  import opened Packets
  import opened Store
  import opened Node
  import Fib

  /** What publishers put into the network: components and bytes. */
  type Publication = (seq<seq<byte>>, seq<byte>)

  /** `sent` only grows, and any datagram in it may arrive at any node any number of times or
      never. */
  datatype World = World(nodes: seq<NodeState>, sent: set<seq<byte>>, published: set<Publication>)

  datatype Event =
    | Publishes(node: nat, name: Name, data: seq<byte>, freshnessMs: u32, now: u64, stamp: u64)
    | Arrives(node: nat, packet: seq<byte>, from: Fib.Peer, ambient: Ambient)
    | Asks(node: nat, name: Name, to: Option<Fib.Peer>, timeoutMs: u32, ambient: Ambient)
    | Polls(node: nat, name: Name, now: u64)
    | Connects(node: nat, ip: u32, port: u16)
    | Removes(node: nat, name: Name)
    | Collects(node: nat, now: u64)
    | Budgets(node: nat, maxBytes: nat)

  /** Publishers use canonical components, versioned or not; only sent datagrams arrive. */
  ghost predicate Possible(w: World, e: Event) {
    && e.node < |w.nodes|
    && (e.Publishes? ==> Canonical(e.name.components))
    && (e.Arrives? ==> e.packet in w.sent)
  }

  function Happens(s: NodeState, e: Event): Outcome {
    match e
    case Publishes(_, n, data, life, now, stamp) => PublishData(s, n, data, life, now, stamp)
    case Arrives(_, packet, from, a) => Receive(s, packet, from, a)
    case Asks(_, n, to, timeout, a) => SendInterest(s, n, to, timeout, a)
    case Polls(_, n, now) => Outcome(s.(entries := Looked(s.entries, n, now)), [])
    case Connects(_, ip, port) => Outcome(WithPeer(s, ip, port), [])
    case Removes(_, n) => Outcome(s.(entries := RemoveEntry(s.entries, n).entries), [])
    case Collects(_, now) => Outcome(s.(entries := Collect(s.entries, s.maxBytes, now).survivors), [])
    case Budgets(_, b) => Outcome(s.(maxBytes := b), [])
  }

  predicate Accepted(s: NodeState, e: Event)
    requires e.Publishes?
  {
    StoreEntry(s.entries, s.maxBytes, e.name, Raw(e.data), e.freshnessMs, e.now).ok
  }

  function Next(w: World, e: Event): World {
    if e.node >= |w.nodes| then w
    else
      var s := w.nodes[e.node];
      var o := Happens(s, e);
      World(w.nodes[e.node := o.state], w.sent + (set d | d in o.sent :: d.bytes),
            if e.Publishes? && Accepted(s, e) then w.published + {(e.name.components, e.data)}
            else w.published)
  }

  // ----- the invariant --------------------------------------------------------------

  ghost predicate Genuine(e: Entry, published: set<Publication>) {
    e.data.Raw? && Canonical(e.name.components) && (e.name.components, e.data.bytes) in published
  }

  ghost predicate GenuineTable(es: seq<Entry>, published: set<Publication>) {
    forall e :: e in es ==> Genuine(e, published)
  }

  ghost predicate GenuinePacket(p: seq<byte>, published: set<Publication>) {
    DecodeData(p).Some? ==>
      var d := DecodeData(p).value.packet;
      Canonical(d.name.components) && (d.name.components, d.data) in published
  }

  ghost predicate Safe(w: World) {
    && (forall i :: 0 <= i < |w.nodes| ==> GenuineTable(w.nodes[i].entries, w.published))
    && (forall p :: p in w.sent ==> GenuinePacket(p, w.published))
  }

  lemma MorePublished(es: seq<Entry>, p: seq<byte>, a: set<Publication>, b: set<Publication>)
    requires a <= b
    ensures GenuineTable(es, a) ==> GenuineTable(es, b)
    ensures GenuinePacket(p, a) ==> GenuinePacket(p, b)
  {
    hide DecodeData, Canonical;
  }

  // ----- stores ---------------------------------------------------------------------

  lemma WithinGenuine(b: seq<Entry>, a: seq<Entry>, published: set<Publication>)
    requires Within(b, a) && GenuineTable(a, published)
    ensures GenuineTable(b, published)
  {
  }

  /** Storing a published pair keeps every entry genuine, whichever branch the store takes. */
  lemma StoreGenuine(es: seq<Entry>, maxBytes: nat, n: Name, data: seq<byte>, life: u32, now: u64,
                     published: set<Publication>)
    requires GenuineTable(es, published) && Canonical(n.components)
    requires (n.components, data) in published
    ensures GenuineTable(StoreEntry(es, maxBytes, n, Raw(data), life, now).entries, published)
  {
    var i := FirstEqual(es, n);
    if 0 < |data| <= MAX_DATA {
      if i < |es| {
        var e := Renewed(es[i], Raw(data), life, now);
        assert Genuine(e, published);
        hide FirstEqual, Canonical, Rebuild;
        forall x | x in es[i := e] ensures Genuine(x, published) {
          if x != e { assert x in es; }
        }
      } else if |es| < CAPACITY {
        var e := NewEntry(n, Raw(data), life, now);
        RebuildClean(n.components);
        assert Genuine(e, published);
        EvictWithin(es + [e], maxBytes);
        hide FirstEqual, Canonical, Rebuild, Evict;
        WithinGenuine(Enforce(es + [e], maxBytes).survivors, es + [e], published);
      }
    }
  }

  lemma LookedGenuine(es: seq<Entry>, n: Name, now: u64, published: set<Publication>)
    requires GenuineTable(es, published)
    ensures GenuineTable(Looked(es, n, now), published)
  {
    var after := Looked(es, n, now);
    LookedKeeps(es, n, now);
    hide Find, Looked, Canonical;
    forall x | x in after ensures Genuine(x, published) {
      var j :| 0 <= j < |after| && after[j] == x;
      assert es[j] in es;
    }
  }

  lemma CollectGenuine(es: seq<Entry>, maxBytes: nat, now: u64, published: set<Publication>)
    requires GenuineTable(es, published)
    ensures GenuineTable(Collect(es, maxBytes, now).survivors, published)
  {
    var swept := Sweep(es, |es|, now);
    forall x | x in swept ensures x in es {
      SweepMembers(es, now, x);
    }
    EvictWithin(swept, maxBytes);
    hide Sweep, Evict;
    WithinGenuine(swept, es, published);
    WithinGenuine(Enforce(swept, maxBytes).survivors, swept, published);
  }

  lemma RemoveGenuine(es: seq<Entry>, n: Name, published: set<Publication>)
    requires GenuineTable(es, published)
    ensures GenuineTable(RemoveEntry(es, n).entries, published)
  {
    var i := FirstEqual(es, n);
    if i < |es| {
      SwapRemoveWithin(es, i);
      WithinGenuine(SwapRemove(es, i), es, published);
    }
  }

  // ----- packets --------------------------------------------------------------------

  lemma CanonicalSendable(cs: seq<seq<byte>>)
    requires Canonical(cs)
    ensures Sendable(cs, ANY_LENGTH)
  {
  }

  /** The datagram made from a genuine pair decodes to that pair. */
  lemma DataPacketGenuine(d: Data, published: set<Publication>)
    requires Canonical(d.name.components) && (d.name.components, d.data) in published
    requires DataPacket(d).Some?
    ensures GenuinePacket(DataPacket(d).value, published)
  {
    var cs := d.name.components;
    CanonicalSendable(cs);
    assert |d.data| <= |EncodeData(d)|;
    DataRoundTrip(d, []);
    hide EncodeData, DecodeData, Canonical, HashText;
    assert EncodeData(d) + [] == EncodeData(d);
    assert CStrings(cs) == cs;
  }

  lemma InterestIsNoData(p: Interest, published: set<Publication>)
    requires InterestPacket(p).Some?
    ensures GenuinePacket(InterestPacket(p).value, published)
  {
    hide EncodeName;
    assert InterestPacket(p).value[0] == PKT_INTEREST;
  }

  // ----- steps ----------------------------------------------------------------------

  ghost predicate GenuineOutcome(o: Outcome, published: set<Publication>) {
    GenuineTable(o.state.entries, published) && forall d :: d in o.sent ==> GenuinePacket(d.bytes, published)
  }

  lemma SendInterestGenuine(s: NodeState, n: Name, to: Option<Fib.Peer>, timeout: u32, a: Ambient, published: set<Publication>)
    requires GenuineTable(s.entries, published)
    ensures GenuineOutcome(SendInterest(s, n, to, timeout, a), published)
  {
    var p := Packets.Interest(n, a.nonce, Lifetime(timeout));
    if InterestPacket(p).Some? { InterestIsNoData(p, published); }
    hide InterestPacket, GenuinePacket, Genuine, Rebuild;
  }

  lemma OnInterestGenuine(s: NodeState, i: Interest, from: Fib.Peer, a: Ambient, published: set<Publication>)
    requires GenuineTable(s.entries, published)
    ensures GenuineOutcome(OnInterest(s, i, from, a), published)
  {
    LookedGenuine(s.entries, i.name, a.now, published);
    SendInterestGenuine(s, i.name, NextHop(s.fib, i.name), i.lifetimeMs, a, published);
    var k := Find(s.entries, i.name, a.now);
    if k.Some? {
      var e := s.entries[k.value];
      assert e in s.entries && Genuine(e, published);
      var d := Data(e.name, e.data.bytes, e.timestamp, e.freshnessMs);
      hide Looked, SendInterest;
      if DataPacket(d).Some? { DataPacketGenuine(d, published); }
      hide DataPacket, GenuinePacket, Genuine, GenuineTable;
    }
  }

  lemma ReceiveGenuine(s: NodeState, packet: seq<byte>, from: Fib.Peer, a: Ambient, published: set<Publication>)
    requires GenuineTable(s.entries, published) && GenuinePacket(packet, published)
    ensures GenuineOutcome(Receive(s, packet, from, a), published)
  {
    if DecodeInterest(packet).Some? {
      OnInterestGenuine(s, DecodeInterest(packet).value.packet, from, a, published);
    } else if DecodeData(packet).Some? {
      var d := DecodeData(packet).value.packet;
      StoreGenuine(s.entries, s.maxBytes, d.name, d.data, d.freshnessMs, a.now, published);
    }
    hide DecodeInterest, DecodeData, OnInterest, StoreEntry, Settled, GenuineTable, GenuinePacket;
  }

  lemma PublishGenuine(s: NodeState, n: Name, data: seq<byte>, life: u32, now: u64, stamp: u64,
                       published: set<Publication>)
    requires GenuineTable(s.entries, published) && Canonical(n.components)
    requires StoreEntry(s.entries, s.maxBytes, n, Raw(data), life, now).ok ==> (n.components, data) in published
    ensures GenuineOutcome(PublishData(s, n, data, life, now, stamp), published)
  {
    hide StoreEntry, Canonical, DataPacket, GenuineTable, GenuinePacket;
    var st := StoreEntry(s.entries, s.maxBytes, n, Raw(data), life, now);
    if st.ok {
      StoreGenuine(s.entries, s.maxBytes, n, data, life, now, published);
      var d := Data(n, data, stamp, life);
      if DataPacket(d).Some? { DataPacketGenuine(d, published); }
    } else {
      StoreRefusalKeeps(s.entries, s.maxBytes, n, Raw(data), life, now);
    }
  }

  lemma StoreRefusalKeeps(es: seq<Entry>, maxBytes: nat, n: Name, data: Content, life: u32, now: u64)
    requires !StoreEntry(es, maxBytes, n, data, life, now).ok
    ensures StoreEntry(es, maxBytes, n, data, life, now).entries == es
  {
  }

  lemma HappensGenuine(s: NodeState, e: Event, published: set<Publication>)
    requires GenuineTable(s.entries, published)
    requires e.Arrives? ==> GenuinePacket(e.packet, published)
    requires e.Publishes? ==> Canonical(e.name.components)
    requires e.Publishes? && Accepted(s, e) ==> (e.name.components, e.data) in published
    ensures GenuineOutcome(Happens(s, e), published)
  {
    hide GenuineTable, GenuinePacket, StoreEntry, Canonical, Receive, PublishData, SendInterest, Looked, Collect, RemoveEntry;
    match e
    case Publishes(_, n, data, life, now, stamp) => PublishGenuine(s, n, data, life, now, stamp, published);
    case Arrives(_, packet, from, a) => ReceiveGenuine(s, packet, from, a, published);
    case Asks(_, n, to, timeout, a) => SendInterestGenuine(s, n, to, timeout, a, published);
    case Polls(_, n, now) => LookedGenuine(s.entries, n, now, published);
    case Connects(_, ip, port) =>
    case Removes(_, n) => RemoveGenuine(s.entries, n, published);
    case Collects(_, now) => CollectGenuine(s.entries, s.maxBytes, now, published);
    case Budgets(_, b) =>
  }

  lemma NextSafe(w: World, e: Event)
    requires Safe(w) && Possible(w, e)
    ensures Safe(Next(w, e))
  {
    var s, after := w.nodes[e.node], Next(w, e);
    hide Happens, GenuineTable, GenuinePacket, StoreEntry, Canonical;
    forall es, p ensures (GenuineTable(es, w.published) ==> GenuineTable(es, after.published))
                         && (GenuinePacket(p, w.published) ==> GenuinePacket(p, after.published))
    {
      MorePublished(es, p, w.published, after.published);
    }
    HappensGenuine(s, e, after.published);
  }

  // ----- runs -----------------------------------------------------------------------

  function RunWorld(w: World, es: seq<Event>): World {
    if es == [] then w else Next(RunWorld(w, es[..|es| - 1]), es[|es| - 1])
  }

  /** A run: every event is possible when it happens. */
  ghost predicate IsRun(w: World, es: seq<Event>) {
    forall k :: 0 <= k < |es| ==> Possible(RunWorld(w, es[..k]), es[k])
  }

  ghost predicate Fresh(w: World) {
    w.sent == {} && forall i :: 0 <= i < |w.nodes| ==> w.nodes[i].entries == []
  }

  /** In every run from empty stores and an empty network, every stored entry and every Data
      packet in flight carries components and bytes that some node published. */
  lemma {:induction false} OnlyPublishedContent(w: World, es: seq<Event>)
    requires Fresh(w) && IsRun(w, es)
    ensures Safe(RunWorld(w, es))
  {
    if es != [] {
      var n := |es| - 1;
      var before := es[..n];
      forall k | 0 <= k < n ensures Possible(RunWorld(w, before[..k]), before[k]) {
        assert before[..k] == es[..k];
      }
      OnlyPublishedContent(w, before);
      hide Safe, Next, Possible;
      assert Possible(RunWorld(w, es[..n]), es[n]);
      NextSafe(RunWorld(w, before), es[n]);
    }
  }

  /** So a fetch can only return bytes published under the components it asked for. */
  lemma {:induction false} FetchReturnsPublished(w: World, es: seq<Event>, node: nat, n: Name, now: u64)
    requires Fresh(w) && IsRun(w, es) && node < |RunWorld(w, es).nodes|
    ensures var v := RunWorld(w, es);
            var table := v.nodes[node].entries;
            var k := Find(table, n, now);
            k.Some? ==> table[k.value].data.Raw?
                        && (n.components, table[k.value].data.bytes) in v.published
  {
    OnlyPublishedContent(w, es);
    hide RunWorld, Canonical;
    var table := RunWorld(w, es).nodes[node].entries;
    var k := Find(table, n, now);
    if k.Some? { assert table[k.value] in table; }
  }
}
