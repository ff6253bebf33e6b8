/** What actually gets through: an Interest that arrives is answered or passed on, Data that arrives
    is stored and settles what waits for it, a publication reaches the store and every peer; and from
    these, the exchange between two nodes, with and without a third one between them. */
module Delivery {
  import opened Bytes
  import opened Fnv
  import opened Names
  import opened Wire
  import opened Packets
  import opened Store
  import opened Fib
  import opened Node
  import Chunking
  import Network
  import WakeUp

  /** A canonical unversioned name whose text fits a decoder's hash buffer. */
  predicate Carried(n: Name) { Plain(n) && |TextOf(n.components)| < 1024 }

  // ----- sizes ----------------------------------------------------------------------

  lemma {:induction false} CanonicalSize(cs: seq<seq<byte>>, i: nat)
    requires i <= |cs| && forall j :: 0 <= j < |cs| ==> |cs[j]| < 64
    ensures OffsetOf(cs, i) <= 1 + 64 * i
  {
    if i > 0 { CanonicalSize(cs, i - 1); }
  }

  /** A canonical name takes at most 1025 bytes. */
  lemma CarriedSize(n: Name)
    requires Plain(n)
    ensures Sendable(n.components, 256) && |EncodeName(n.components)| <= 1025
  {
    Network.CanonicalSendable(n.components);
    NameLayout(n.components, 0);
    CanonicalSize(n.components, |n.components|);
  }

  // ----- outgoing packets -----------------------------------------------------------

  /** The Interest a datagram carries is exactly this one. */
  ghost predicate CarriesInterest(d: Datagram, to: Peer, i: Interest) {
    d.to == to && DecodeInterest(d.bytes) == Some(Decoded(i, []))
  }

  ghost predicate CarriesData(d: Datagram, to: Peer, p: Data) {
    d.to == to && DecodeData(d.bytes) == Some(Decoded(p, []))
  }

  lemma InterestCarried(i: Interest)
    requires Carried(i.name)
    ensures InterestPacket(i) == Some(EncodeInterest(i)) && DecodeInterest(EncodeInterest(i)) == Some(Decoded(i, []))
  {
    CarriedSize(i.name);
    InterestRoundTrip(i, []);
    InterestLayout(i);
    hide EncodeInterest, DecodeInterest, EncodeName, Plain;
    assert EncodeInterest(i) + [] == EncodeInterest(i);
    assert |EncodeInterest(i)| == 13 + |EncodeInterest(i)[13..]|;
  }

  /** Data of this size fits the 1 MiB send buffer. */
  predicate FitsPacket(cs: seq<seq<byte>>, data: seq<byte>)
    requires Encodable(cs)
  {
    17 + |EncodeName(cs)| + |data| <= 1_048_576
  }

  lemma DataCarried(p: Data, n: Name)
    requires Carried(n) && p.name.components == n.components && Encodable(n.components)
    ensures FitsPacket(n.components, p.data) ==>
              DataPacket(p) == Some(EncodeData(p)) && DecodeData(EncodeData(p)) == Some(Decoded(p.(name := n), []))
    ensures !FitsPacket(n.components, p.data) ==> DataPacket(p) == None
  {
    hide EncodeName, DecodeData, Plain;
    CarriedSize(n);
    DataSize(p);
    if FitsPacket(n.components, p.data) {
      hide EncodeData;
      DataRoundTrip(p, []);
      PlainNameSurvives(n);
      hide Hash, HashText;
      assert EncodeData(p) + [] == EncodeData(p);
    }
  }

  lemma DataSize(p: Data)
    requires Encodable(p.name.components)
    ensures |EncodeData(p)| == 17 + |EncodeName(p.name.components)| + |p.data|
  {
    hide EncodeName;
  }

  // ----- asking ---------------------------------------------------------------------

  /** What waits once an Interest for `n` was sent: one more entry, unless 256 wait already. */
  ghost predicate Noted(now: seq<Pending>, was: seq<Pending>, n: Name, timeoutMs: u32, a: Ambient) {
    if |was| >= 256 then now == was
    else
      && |now| == |was| + 1 && now[..|was|] == was
      && var p := now[|was|];
         p.name == n && p.active && p.nonce == a.nonce && p.sentAt == a.now
         && p.lifetimeMs == if timeoutMs == 0 then 4000 else timeoutMs
  }

  lemma NotedAfter(s: NodeState, n: Name, timeoutMs: u32, a: Ambient)
    requires Plain(n)
    ensures Noted(if |s.pending| < MAX_PENDING then s.pending + [NewPending(n, timeoutMs, a)] else s.pending,
                  s.pending, n, timeoutMs, a)
  {
    RebuildClean(n.components);
  }

  /** An Interest goes to the peer given or else to the peer of the longest matching route, as one
      datagram that reads back as that Interest with the fresh nonce and the lifetime asked for, 4
      seconds by default; and it is noted as pending. Nothing else changes. */
  lemma InterestSent(s: NodeState, n: Name, to: Option<Peer>, timeoutMs: u32, a: Ambient)
    requires Carried(n)
    ensures var o, route := SendInterest(s, n, to, timeoutMs, a), Route(Prefixes(s.fib), n);
      if to.None? && route.None? then o == Outcome(s, [])
      else
        && |o.sent| == 1
        && CarriesInterest(o.sent[0], if to.Some? then to.value else s.fib[route.value].peer,
                           Interest(n, a.nonce, if timeoutMs == 0 then 4000 else timeoutMs))
        && o.state == s.(pending := o.state.pending) && Noted(o.state.pending, s.pending, n, timeoutMs, a)
  {
    hide InterestPacket, EncodeInterest, DecodeInterest, Route, Plain, NewPending, Noted;
    InterestCarried(Interest(n, a.nonce, Lifetime(timeoutMs)));
    NotedAfter(s, n, timeoutMs, a);
  }

  // ----- an Interest arrives --------------------------------------------------------

  lemma InterestRead(s: NodeState, i: Interest, t: seq<byte>, from: Peer, a: Ambient)
    requires Carried(i.name) && Encodable(i.name.components)
    ensures Receive(s, EncodeInterest(i) + t, from, a) == OnInterest(s, i, from, a)
  {
    Network.CanonicalSendable(i.name.components);
    InterestRoundTrip(i, t);
    hide EncodeInterest, DecodeInterest, OnInterest;
  }

  lemma FoundNamed(es: seq<Entry>, n: Name, now: u64)
    requires Plain(n) && Find(es, n, now).Some?
    ensures es[Find(es, n, now).value].name.components == n.components
  {
  }

  /** A node that holds the content answers the asker, and nobody else, with exactly the bytes it
      holds, unless these do not fit a packet, and counts the access. */
  lemma InterestAnswered(s: NodeState, i: Interest, t: seq<byte>, from: Peer, a: Ambient)
    requires Carried(i.name) && Encodable(i.name.components) && Find(s.entries, i.name, a.now).Some?
    requires s.entries[Find(s.entries, i.name, a.now).value].data.Raw?
    ensures var o, e := Receive(s, EncodeInterest(i) + t, from, a), s.entries[Find(s.entries, i.name, a.now).value];
      && o.state == s.(entries := Looked(s.entries, i.name, a.now))
      && (if FitsPacket(i.name.components, e.data.bytes)
          then |o.sent| == 1 && CarriesData(o.sent[0], from, Data(i.name, e.data.bytes, e.timestamp, e.freshnessMs))
          else o.sent == [])
  {
    hide Receive, EncodeInterest, Looked, DataPacket, EncodeData, DecodeData, FitsPacket, Find, Plain;
    InterestRead(s, i, t, from, a);
    FoundNamed(s.entries, i.name, a.now);
    var e := s.entries[Find(s.entries, i.name, a.now).value];
    DataCarried(Data(e.name, e.data.bytes, e.timestamp, e.freshnessMs), i.name);
  }

  /** A node that does not hold it passes the Interest on along the longest matching route, under a
      nonce of its own, and notes it; without a route nothing happens. */
  lemma InterestForwarded(s: NodeState, i: Interest, t: seq<byte>, from: Peer, a: Ambient)
    requires Carried(i.name) && Encodable(i.name.components) && Find(s.entries, i.name, a.now).None?
    ensures var o, route := Receive(s, EncodeInterest(i) + t, from, a), Route(Prefixes(s.fib), i.name);
      if route.None? then o == Outcome(s, [])
      else
        && |o.sent| == 1
        && CarriesInterest(o.sent[0], s.fib[route.value].peer,
                           Interest(i.name, a.nonce, if i.lifetimeMs == 0 then 4000 else i.lifetimeMs))
        && o.state == s.(pending := o.state.pending) && Noted(o.state.pending, s.pending, i.name, i.lifetimeMs, a)
  {
    hide Receive, EncodeInterest, Find, Plain, CarriesInterest, Noted, Route, SendInterest;
    InterestRead(s, i, t, from, a);
    InterestSent(s, i.name, NextHop(s.fib, i.name), i.lifetimeMs, a);
  }

  // ----- Data arrives ---------------------------------------------------------------

  /** The first entry that waits for `n` waits no more; nothing else changed. */
  ghost predicate FirstSettled(now: seq<Pending>, was: seq<Pending>, n: Name) {
    && |now| == |was|
    && forall j :: 0 <= j < |was| ==>
         now[j] == was[j].(active := was[j].active && !(WakeUp.Waits(was[j], n) && WakeUp.NoneWaits(was, n, j)))
  }

  lemma SettledFirst(ps: seq<Pending>, n: Name)
    ensures FirstSettled(Settled(ps, n), ps, n)
  {
    var k := FirstActive(ps, n);
    forall j | 0 <= j < |ps|
      ensures Settled(ps, n)[j]
           == ps[j].(active := ps[j].active && !(WakeUp.Waits(ps[j], n) && WakeUp.NoneWaits(ps, n, j)))
    {
      hide NameEqual;
      if k < j {
        assert WakeUp.Waits(ps[k], n);
      } else {
        assert WakeUp.NoneWaits(ps, n, j);
      }
    }
  }

  /** Entries that match are the one the store wrote. */
  ghost predicate OnlyNew(es: seq<Entry>, n: Name, data: Content, life: u32, now: u64) {
    forall e :: e in es && Matches(e, n.components, now) ==>
      e.data == data && e.timestamp == now && e.freshnessMs == life && e.lastAccess == now
  }

  lemma WrittenOnlyNew(es: seq<Entry>, n: Name, data: Content, life: u32, now: u64)
    requires Plain(n) && Find(es, n, now).None?
    ensures var w, i := Chunking.Written(es, n, data, life, now), FirstEqual(es, n);
      OnlyNew(w, n, data, life, now) && i < |w| && Matches(w[i], n.components, now) && w[i].lastAccess == now
  {
    PlainStoredName(n);
    Chunking.PlainUnversioned(n);
    var w, i := Chunking.Written(es, n, data, life, now), FirstEqual(es, n);
    hide Plain, StoredName, FirstEqual, Newest;
    assert forall j :: 0 <= j < |es| ==> !Matches(es[j], n.components, now);
    forall e | e in w && Matches(e, n.components, now)
      ensures e.data == data && e.timestamp == now && e.freshnessMs == life && e.lastAccess == now
    {
      var j :| 0 <= j < |w| && w[j] == e;
      assert j == i;
    }
  }

  lemma FoundAmong(es: seq<Entry>, n: Name, now: u64, e: Entry)
    requires Plain(n) && e in es && Matches(e, n.components, now)
    ensures var k := Find(es, n, now); k.Some? && es[k.value] in es && Matches(es[k.value], n.components, now)
  {
    Chunking.PlainUnversioned(n);
    hide Matches, Plain;
    var j :| 0 <= j < |es| && es[j] == e;
    assert Matches(es[j], n.components, now);
  }

  lemma StoreWithin(es: seq<Entry>, maxBytes: nat, n: Name, data: Content, life: u32, now: u64)
    requires StoreEntry(es, maxBytes, n, data, life, now).ok && Chunking.FitsSince(es, maxBytes, Size(data), now)
    ensures var r, w := StoreEntry(es, maxBytes, n, data, life, now).entries, Chunking.Written(es, n, data, life, now);
      Within(r, w) && forall e :: e in w && e.lastAccess >= now ==> e in r
  {
    hide StoreEntry, Chunking.Written, RecentBytes, Evict;
    Chunking.StoreShape(es, maxBytes, n, data, life, now);
    Chunking.WrittenRecent(es, n, data, life, now, now);
    var r, w := StoreEntry(es, maxBytes, n, data, life, now).entries, Chunking.Written(es, n, data, life, now);
    if r != w {
      RecentSurvive(w, maxBytes, now);
      EvictWithin(w, maxBytes);
    }
  }

  /** Storing under a name that has nothing live: the content is found exactly when it has a storable
      size and the name is held, expired, or a slot free. */
  lemma StoredIff(es: seq<Entry>, maxBytes: nat, n: Name, data: seq<byte>, life: u32, now: u64)
    requires Plain(n) && Find(es, n, now).None? && Chunking.FitsSince(es, maxBytes, |data|, now)
    ensures var r := StoreEntry(es, maxBytes, n, Raw(data), life, now);
      var k := Find(r.entries, n, now);
      && (r.ok <==> 0 < |data| <= 1_048_576 && WakeUp.HasRoom(es, n)) && (k.Some? <==> r.ok)
      && (k.Some? ==> var e := r.entries[k.value]; e.data == Raw(data) && e.timestamp == now && e.freshnessMs == life)
  {
    hide StoreEntry, Plain, Find, Matches, Chunking.Written, FirstEqual;
    AcceptedIff(es, maxBytes, n, Raw(data), life, now);
    var r := StoreEntry(es, maxBytes, n, Raw(data), life, now);
    if r.ok {
      WrittenOnlyNew(es, n, Raw(data), life, now);
      StoreWithin(es, maxBytes, n, Raw(data), life, now);
      var w, i := Chunking.Written(es, n, Raw(data), life, now), FirstEqual(es, n);
      assert w[i] in w;
      FoundAmong(r.entries, n, now, w[i]);
    } else {
      Network.StoreRefusalKeeps(es, maxBytes, n, Raw(data), life, now);
    }
  }

  /** Data for a name the node holds nothing live of: it is found afterwards, byte for byte, exactly
      when it has a storable size and there is room for it; the first entry that waits for it waits no
      more in any case, and nothing is sent. A budget does not matter as long as the data fits it with
      what was accessed at the same instant. */
  lemma DataReceived(s: NodeState, d: Data, t: seq<byte>, from: Peer, a: Ambient)
    requires Carried(d.name) && Encodable(d.name.components) && |d.data| < 0x1_0000_0000
    requires Find(s.entries, d.name, a.now).None? && Chunking.FitsSince(s.entries, s.maxBytes, |d.data|, a.now)
    ensures var o := Receive(s, EncodeData(d) + t, from, a);
      var k := Find(o.state.entries, d.name, a.now);
      && (k.Some? <==> 0 < |d.data| <= 1_048_576 && WakeUp.HasRoom(s.entries, d.name))
      && (k.Some? ==> o.state.entries[k.value].data == Raw(d.data) && o.state.entries[k.value].freshnessMs == d.freshnessMs
                      && o.state.entries[k.value].timestamp == a.now)
      && FirstSettled(o.state.pending, s.pending, d.name) && o.sent == []
      && o.state == s.(entries := o.state.entries, pending := o.state.pending)
  {
    hide StoreEntry, Plain, Find, EncodeData, DecodeData, DecodeInterest, Settled, FirstSettled, Chunking.FitsSince;
    CarriedSize(d.name);
    DataRoundTrip(d, t);
    DataIsNoInterest(d, t);
    StoredIff(s.entries, s.maxBytes, d.name, d.data, d.freshnessMs, a.now);
    SettledFirst(s.pending, d.name);
  }

  lemma DataIsNoInterest(d: Data, t: seq<byte>)
    requires Encodable(d.name.components)
    ensures DecodeInterest(EncodeData(d) + t) == None
  {
    hide EncodeName;
    assert (EncodeData(d) + t)[0] == PKT_DATA;
  }

  // ----- publishing -----------------------------------------------------------------

  /** Publishing under a name that has nothing live: the bytes are found in the publisher's own store
      exactly when they have a storable size and there is room, and then every peer is sent them once,
      in order, if they fit a packet. */
  lemma Published(s: NodeState, n: Name, data: seq<byte>, life: u32, now: u64, stamp: u64)
    requires Carried(n) && Encodable(n.components) && Find(s.entries, n, now).None?
    requires Chunking.FitsSince(s.entries, s.maxBytes, |data|, now)
    ensures var o := PublishData(s, n, data, life, now, stamp);
      var k := Find(o.state.entries, n, now);
      && (k.Some? <==> 0 < |data| <= 1_048_576 && WakeUp.HasRoom(s.entries, n))
      && (k.Some? ==> o.state.entries[k.value].data == Raw(data) && o.state.entries[k.value].freshnessMs == life)
      && o.state == s.(entries := o.state.entries)
      && (if k.Some? && FitsPacket(n.components, data)
          then |o.sent| == |s.peers| && forall i :: 0 <= i < |s.peers| ==>
                 CarriesData(o.sent[i], s.peers[i], Data(n, data, stamp, life))
          else o.sent == [])
  {
    hide StoreEntry, Plain, Find, EncodeData, DecodeData, DataPacket, FitsPacket, Chunking.FitsSince;
    StoredIff(s.entries, s.maxBytes, n, data, life, now);
    DataCarried(Data(n, data, stamp, life), n);
  }

  // ----- two nodes ------------------------------------------------------------------

  /** What a node holds under a name right now. */
  ghost predicate Holds(s: NodeState, n: Name, bytes: seq<byte>, now: u64) {
    var k := Find(s.entries, n, now); k.Some? && s.entries[k.value].data == Raw(bytes)
  }

  /** The node holds nothing live under the name and could take these bytes. */
  ghost predicate Lacks(s: NodeState, n: Name, bytes: seq<byte>, now: u64) {
    && Find(s.entries, n, now).None? && WakeUp.HasRoom(s.entries, n)
    && Chunking.FitsSince(s.entries, s.maxBytes, |bytes|, now)
  }

  ghost predicate NothingWaits(ps: seq<Pending>, n: Name) { WakeUp.NoneWaits(ps, n, |ps|) }

  lemma NotedWaits(now: seq<Pending>, was: seq<Pending>, n: Name, timeoutMs: u32, a: Ambient)
    requires Noted(now, was, n, timeoutMs, a) && |was| < 256 && NothingWaits(was, n)
    ensures WakeUp.NoneWaits(now, n, |was|) && |now| == |was| + 1 && WakeUp.Waits(now[|was|], n)
  {
    hide NameEqual;
    SameName(n);
    forall j | 0 <= j < |was| ensures !WakeUp.Waits(now[j], n) {
      assert now[..|was|][j] == was[j];
    }
  }

  lemma SameName(n: Name)
    ensures NameEqual(n, n)
  {
  }

  lemma LastSettled(now: seq<Pending>, was: seq<Pending>, n: Name)
    requires FirstSettled(now, was, n) && was != [] && WakeUp.NoneWaits(was, n, |was| - 1)
    ensures NothingWaits(now, n)
  {
    hide NameEqual;
    var k := |was| - 1;
    forall j | 0 <= j < |now| ensures !WakeUp.Waits(now[j], n) {
      if j == k { assert WakeUp.NoneWaits(was, n, j); }
    }
  }

  /** A whole exchange: node `b` asks node `a`, at whose endpoint `toA` it knows it, and `a` holds the
      content. Each of the two sends one datagram to the other, and once both have arrived `b` holds
      exactly the bytes `a` held, and none of its Interests for the name waits any longer. */
  lemma ContentDelivered(a: NodeState, b: NodeState, n: Name, bytes: seq<byte>, toA: Peer, toB: Peer,
                         timeoutMs: u32, asks: Ambient, answers: Ambient, receives: Ambient)
    requires Carried(n) && Encodable(n.components) && FitsPacket(n.components, bytes) && bytes != []
    requires Holds(a, n, bytes, answers.now) && Lacks(b, n, bytes, receives.now)
    requires |b.pending| < 256 && NothingWaits(b.pending, n)
    ensures var asked := SendInterest(b, n, Some(toA), timeoutMs, asks);
      && |asked.sent| == 1 && asked.sent[0].to == toA
      && var answered := Receive(a, asked.sent[0].bytes, toB, answers);
         && |answered.sent| == 1 && answered.sent[0].to == toB
         && var got := Receive(asked.state, answered.sent[0].bytes, toA, receives);
            && Holds(got.state, n, bytes, receives.now) && NothingWaits(got.state.pending, n) && got.sent == []
            && Holds(answered.state, n, bytes, answers.now) && answered.state.pending == a.pending
  {
    hide Receive, SendInterest, Find, Plain, FitsPacket, Noted, FirstSettled, Chunking.FitsSince, WakeUp.NoneWaits,
         WakeUp.HasRoom, WakeUp.Waits, NameEqual, Looked;
    InterestSent(b, n, Some(toA), timeoutMs, asks);
    var asked := SendInterest(b, n, Some(toA), timeoutMs, asks);
    NotedWaits(asked.state.pending, b.pending, n, timeoutMs, asks);
    Answered(a, asked.sent[0], toA, n, bytes, toB, if timeoutMs == 0 then 4000 else timeoutMs, asks.nonce, answers);
    var q := Receive(a, asked.sent[0].bytes, toB, answers).sent[0];
    var e := a.entries[Find(a.entries, n, answers.now).value];
    Arrives(asked.state, q, toB, Data(n, bytes, e.timestamp, e.freshnessMs), toA, receives);
    LastSettled(Receive(asked.state, q.bytes, toA, receives).state.pending, asked.state.pending, n);
  }

  lemma Answered(a: NodeState, p: Datagram, toA: Peer, n: Name, bytes: seq<byte>, toB: Peer, life: u32, nonce: u64,
                 at: Ambient)
    requires Carried(n) && Encodable(n.components) && FitsPacket(n.components, bytes) && Holds(a, n, bytes, at.now)
    requires CarriesInterest(p, toA, Interest(n, nonce, life))
    ensures var o, e := Receive(a, p.bytes, toB, at), a.entries[Find(a.entries, n, at.now).value];
      && |o.sent| == 1 && CarriesData(o.sent[0], toB, Data(n, bytes, e.timestamp, e.freshnessMs))
      && o.state == a.(entries := Looked(a.entries, n, at.now)) && Holds(o.state, n, bytes, at.now)
  {
    var i := Interest(n, nonce, life);
    InterestAnswered(a, i, [], toB, at);
    InterestRead(a, i, [], toB, at);
    hide EncodeInterest, DecodeInterest, OnInterest, Find, Plain, FitsPacket, EncodeData, DecodeData, Looked;
    assert Receive(a, p.bytes, toB, at) == OnInterest(a, i, toB, at);
    hide Receive;
    LookedSame(a.entries, n, at.now);
  }

  /** A lookup does not change what the next one finds. */
  lemma LookedSame(es: seq<Entry>, n: Name, now: u64)
    requires Plain(n)
    ensures var k := Find(es, n, now);
      Find(Looked(es, n, now), n, now) == k && (k.Some? ==> Looked(es, n, now)[k.value].data == es[k.value].data)
  {
    Chunking.PlainUnversioned(n);
    LookedKeeps(es, n, now);
    var r := Looked(es, n, now);
    hide Plain, Looked, Newest;
    assert forall j :: 0 <= j < |es| ==> Matches(r[j], n.components, now) == Matches(es[j], n.components, now);
  }

  lemma Arrives(b: NodeState, q: Datagram, to: Peer, d: Data, from: Peer, at: Ambient)
    requires Carried(d.name) && Encodable(d.name.components) && CarriesData(q, to, d)
    requires 0 < |d.data| && FitsPacket(d.name.components, d.data) && Lacks(b, d.name, d.data, at.now)
    ensures var o := Receive(b, q.bytes, from, at);
      && Holds(o.state, d.name, d.data, at.now) && FirstSettled(o.state.pending, b.pending, d.name) && o.sent == []
      && o.state == b.(entries := o.state.entries, pending := o.state.pending)
  {
    DataReceived(b, d, [], from, at);
    CarriedSize(d.name);
    DataRoundTrip(d, []);
    DataIsNoInterest(d, []);
    NotBoth(q.bytes);
    hide EncodeData, DecodeData, DecodeInterest, EncodeName, OnData, Find, Plain, FirstSettled, Chunking.FitsSince,
      WakeUp.HasRoom;
    assert Receive(b, EncodeData(d) + [], from, at) == Outcome(OnData(b, d, at), []);
    assert Receive(b, q.bytes, from, at) == Outcome(OnData(b, d, at), []);
    hide Receive;
  }

  /** No datagram is an Interest and a Data packet. */
  lemma NotBoth(buf: seq<byte>)
    ensures DecodeInterest(buf).None? || DecodeData(buf).None?
  {
    hide DecodeName, DecodeBody, GetHeader;
  }

  lemma Relayed(r: NodeState, p: Datagram, to: Peer, n: Name, from: Peer, life: u32, nonce: u64, at: Ambient)
    requires Carried(n) && Encodable(n.components) && Find(r.entries, n, at.now).None?
    requires CarriesInterest(p, to, Interest(n, nonce, life)) && Route(Prefixes(r.fib), n).Some?
    ensures var o := Receive(r, p.bytes, from, at);
      && |o.sent| == 1
      && CarriesInterest(o.sent[0], r.fib[Route(Prefixes(r.fib), n).value].peer,
                         Interest(n, at.nonce, if life == 0 then 4000 else life))
      && o.state == r.(pending := o.state.pending) && Noted(o.state.pending, r.pending, n, life, at)
  {
    var i := Interest(n, nonce, life);
    InterestForwarded(r, i, [], from, at);
    InterestRead(r, i, [], from, at);
    hide EncodeInterest, DecodeInterest, OnInterest, Find, Plain, Noted, Route;
    assert Receive(r, p.bytes, from, at) == OnInterest(r, i, from, at);
    hide Receive;
  }

  /** A relay between the two: it lacks the content, so it passes the Interest on along its route, and
      the answer stays in its store, byte for byte. Nothing goes back to the node that asked, which is
      served, as in ContentDelivered, when it asks again. */
  lemma ContentCachedOnPath(a: NodeState, r: NodeState, b: NodeState, n: Name, bytes: seq<byte>,
                            toA: Peer, toR: Peer, toB: Peer, timeoutMs: u32,
                            asks: Ambient, relays: Ambient, answers: Ambient, receives: Ambient)
    requires Carried(n) && Encodable(n.components) && FitsPacket(n.components, bytes) && bytes != []
    requires Holds(a, n, bytes, answers.now) && Find(r.entries, n, relays.now).None? && Lacks(r, n, bytes, receives.now)
    requires |r.pending| < 256 && NothingWaits(r.pending, n)
    requires Route(Prefixes(r.fib), n).Some? && r.fib[Route(Prefixes(r.fib), n).value].peer == toA
    ensures var asked := SendInterest(b, n, Some(toR), timeoutMs, asks);
      && |asked.sent| == 1 && asked.sent[0].to == toR
      && var relayed := Receive(r, asked.sent[0].bytes, toB, relays);
         && |relayed.sent| == 1 && relayed.sent[0].to == toA
         && var answered := Receive(a, relayed.sent[0].bytes, toR, answers);
            && |answered.sent| == 1 && answered.sent[0].to == toR
            && var cached := Receive(relayed.state, answered.sent[0].bytes, toA, receives);
               && Holds(cached.state, n, bytes, receives.now) && NothingWaits(cached.state.pending, n) && cached.sent == []
  {
    hide Receive, SendInterest, Find, Plain, FitsPacket, Noted, FirstSettled, Chunking.FitsSince, WakeUp.NoneWaits,
         WakeUp.HasRoom, WakeUp.Waits, NameEqual, Looked, Route;
    var life: u32 := if timeoutMs == 0 then 4000 else timeoutMs;
    InterestSent(b, n, Some(toR), timeoutMs, asks);
    var p := SendInterest(b, n, Some(toR), timeoutMs, asks).sent[0];
    Relayed(r, p, toR, n, toB, life, asks.nonce, relays);
    var relayed := Receive(r, p.bytes, toB, relays);
    NotedWaits(relayed.state.pending, r.pending, n, life, relays);
    Answered(a, relayed.sent[0], toA, n, bytes, toR, life, relays.nonce, answers);
    var q := Receive(a, relayed.sent[0].bytes, toR, answers).sent[0];
    var e := a.entries[Find(a.entries, n, answers.now).value];
    Arrives(relayed.state, q, toR, Data(n, bytes, e.timestamp, e.freshnessMs), toA, receives);
    LastSettled(Receive(relayed.state, q.bytes, toA, receives).state.pending, relayed.state.pending, n);
  }

  // ----- the steps of the receiver --------------------------------------------------

  /** The node as the fetch and the receiver thread share it. */
  function Shared(s: WakeUp.System, peers: seq<Peer>, fib: seq<FibEntry>): NodeState {
    NodeState(s.entries, 0, s.pending, peers, fib)
  }

  /** The receiver's two steps on Data, taken one after the other, are what the receiver does. */
  lemma DataInTwoSteps(s: WakeUp.System, n: Name, d: Data, a: Ambient, peers: seq<Peer>, fib: seq<FibEntry>)
    requires s.receiver.Listening?
    ensures var t := WakeUp.Act(WakeUp.Act(s, n, WakeUp.StoreData(d, a.now)), n, WakeUp.Deactivate);
      && Shared(t, peers, fib) == OnData(Shared(s, peers, fib), d, a)
      && t.receiver == s.receiver && t.fetcher == s.fetcher && t.mine == s.mine
  {
    hide StoreEntry, Settled;
  }

  /** And its step on an Interest is Answer when it holds the content, Forward when it does not but
      has a route. */
  lemma InterestInOneStep(s: WakeUp.System, n: Name, i: Interest, from: Peer, a: Ambient, peers: seq<Peer>,
                          fib: seq<FibEntry>)
    requires s.receiver.Listening? && Carried(i.name)
    ensures var o, found := OnInterest(Shared(s, peers, fib), i, from, a), Find(s.entries, i.name, a.now).Some?;
      o.state == if found then Shared(WakeUp.Act(s, n, WakeUp.Answer(i.name, a.now)), peers, fib)
                 else if Route(Prefixes(fib), i.name).Some?
                      then Shared(WakeUp.Act(s, n, WakeUp.Forward(i.name, i.lifetimeMs, a)), peers, fib)
                 else Shared(s, peers, fib)
  {
    hide Find, Looked, DataPacket, InterestPacket, EncodeInterest, DecodeInterest, Route, Plain, NewPending;
    InterestCarried(Interest(i.name, a.nonce, Lifetime(i.lifetimeMs)));
  }

  /** An Interest the fetch sends is its SendOne. */
  lemma AskInOneStep(s: WakeUp.System, n: Name, to: Option<Peer>, timeoutMs: u32, a: Ambient, peers: seq<Peer>,
                     fib: seq<FibEntry>)
    requires s.fetcher.Sending? && Carried(n) && (to.Some? || Route(Prefixes(fib), n).Some?)
    ensures SendInterest(Shared(s, peers, fib), n, to, timeoutMs, a).state
         == Shared(WakeUp.Act(s, n, WakeUp.SendOne(timeoutMs, a)), peers, fib)
  {
    hide InterestPacket, EncodeInterest, DecodeInterest, Route, Plain, NewPending;
    InterestCarried(Interest(n, a.nonce, Lifetime(timeoutMs)));
  }

  // ----- peers ----------------------------------------------------------------------

  /** A peer is known afterwards exactly when it was before or there was room; none is lost or listed
      twice. */
  lemma PeerKnownIff(s: NodeState, ip: u32, port: u16, p: Peer)
    ensures var t := WithPeer(s, ip, port);
      && (p in t.peers <==> p in s.peers || (p == Peer(ip, Htons(port)) && |s.peers| < 64))
      && s.peers <= t.peers && t == s.(peers := t.peers)
      && (Distinct(s.peers) ==> Distinct(t.peers))
  {
  }

  ghost predicate Distinct(ps: seq<Peer>) { forall i, j :: 0 <= i < j < |ps| ==> ps[i] != ps[j] }
}
