/** A network node (net.c): what the receiver thread, an outgoing Interest, a publish and a
    fetch poll each do to the node's state, and which packets they send. */
module Node {
  import opened Bytes
  import opened Names
  import opened Wire
  import opened Packets
  import opened Store
  import opened ContentStore
  import opened Fib

  const MAX_PENDING: nat := 256
  const MAX_PEERS: nat := 64
  const INTEREST_TIMEOUT_MS: u32 := 4000
  const INTEREST_BUFFER: nat := 4096
  const DATA_BUFFER: nat := 0x10_0000

  datatype Pending = Pending(name: Name, nonce: u64, sentAt: u64, lifetimeMs: u32, active: bool)

  datatype NodeState =
    NodeState(entries: seq<Entry>, maxBytes: nat, pending: seq<Pending>, peers: seq<Peer>, fib: seq<FibEntry>)

  /** A packet on its way to an endpoint. */
  datatype Datagram = Datagram(to: Peer, bytes: seq<byte>)

  /** A state and the datagrams sent on the way to it. */
  datatype Outcome = Outcome(state: NodeState, sent: seq<Datagram>)

  /** Inputs that come from outside: clock, nonce, a time stamp for announcements. */
  datatype Ambient = Ambient(now: u64, nonce: u64)

  // ----- packets --------------------------------------------------------------------

  /** What fits the 4096-byte send buffer of psirp_net_interest. */
  function InterestPacket(p: Interest): Option<seq<byte>> {
    if Encodable(p.name.components) && |EncodeInterest(p)| <= INTEREST_BUFFER
    then Some(EncodeInterest(p)) else None
  }

  /** What fits the 1 MiB send buffer of psirp_net_data. */
  function DataPacket(p: Data): Option<seq<byte>> {
    if Encodable(p.name.components) && |EncodeData(p)| <= DATA_BUFFER then Some(EncodeData(p)) else None
  }

  function Lifetime(timeoutMs: u32): u32 {
    if timeoutMs != 0 then timeoutMs else INTEREST_TIMEOUT_MS
  }

  function NewPending(n: Name, timeoutMs: u32, a: Ambient): Pending {
    Pending(Rebuild(n.components).name, a.nonce, a.now, Lifetime(timeoutMs), true)
  }

  /** The peer of the longest matching prefix. */
  function NextHop(fib: seq<FibEntry>, n: Name): Option<Peer> {
    match Route(Prefixes(fib), n)
    case None => None
    case Some(i) => Some(fib[i].peer)
  }

  /** psirp_net_interest to a given peer, or to the next hop: nothing when the packet does not fit
      or there is no route, else one datagram and, while the table has room, one pending entry. */
  function SendInterest(s: NodeState, n: Name, to: Option<Peer>, timeoutMs: u32, a: Ambient): Outcome {
    var packet := InterestPacket(Interest(n, a.nonce, Lifetime(timeoutMs)));
    var dest := if to.Some? then to else NextHop(s.fib, n);
    if packet.None? || dest.None? then Outcome(s, [])
    else
      Outcome(if |s.pending| < MAX_PENDING
              then s.(pending := s.pending + [NewPending(n, timeoutMs, a)]) else s,
              [Datagram(dest.value, packet.value)])
  }

  /** The receiver on an Interest: answer the asker from the store, or forward to the next hop. */
  function OnInterest(s: NodeState, i: Interest, from: Peer, a: Ambient): Outcome {
    var k := Find(s.entries, i.name, a.now);
    if k.Some? then
      var after := s.(entries := Looked(s.entries, i.name, a.now));
      var e := s.entries[k.value];
      if !e.data.Raw? then Outcome(after, [])
      else
        match DataPacket(Data(e.name, e.data.bytes, e.timestamp, e.freshnessMs))
        case None => Outcome(after, [])
        case Some(bytes) => Outcome(after, [Datagram(from, bytes)])
    else
      var hop := NextHop(s.fib, i.name);
      if hop.Some? then SendInterest(s, i.name, hop, i.lifetimeMs, a) else Outcome(s, [])
  }

  /** Index of the first active pending entry for the name, or the number of entries. */
  function FirstActive(ps: seq<Pending>, n: Name): (k: nat)
    ensures k <= |ps| && forall j :: 0 <= j < k ==> !(ps[j].active && NameEqual(ps[j].name, n))
    ensures k < |ps| ==> ps[k].active && NameEqual(ps[k].name, n)
  {
    if ps == [] || (ps[0].active && NameEqual(ps[0].name, n)) then 0 else 1 + FirstActive(ps[1..], n)
  }

  /** The first active pending entry for the name is done. */
  function Settled(ps: seq<Pending>, n: Name): seq<Pending> {
    var k := FirstActive(ps, n);
    if k < |ps| then ps[k := ps[k].(active := false)] else ps
  }

  /** The receiver on a Data packet: store, then deactivate. */
  function OnData(s: NodeState, d: Data, a: Ambient): NodeState {
    s.(entries := StoreEntry(s.entries, s.maxBytes, d.name, Raw(d.data), d.freshnessMs, a.now).entries,
       pending := Settled(s.pending, d.name))
  }

  /** One datagram at the receiver thread, with the endpoint it came from. */
  function Receive(s: NodeState, packet: seq<byte>, from: Peer, a: Ambient): Outcome {
    match DecodeInterest(packet)
    case Some(i) => OnInterest(s, i.packet, from, a)
    case None =>
      match DecodeData(packet)
      case Some(d) => Outcome(OnData(s, d.packet, a), [])
      case None => Outcome(s, [])
  }

  /** One copy for each of the peers. */
  function PerPeer(packet: seq<byte>, peers: seq<Peer>): (r: seq<Datagram>)
    ensures |r| == |peers| && forall i :: 0 <= i < |peers| ==> r[i] == Datagram(peers[i], packet)
  {
    seq(|peers|, i requires 0 <= i < |peers| => Datagram(peers[i], packet))
  }

  /** psirp_net_publish: store, then one announcement per peer. */
  function PublishData(s: NodeState, n: Name, data: seq<byte>, freshnessMs: u32, now: u64, stamp: u64): Outcome {
    var st := StoreEntry(s.entries, s.maxBytes, n, Raw(data), freshnessMs, now);
    if !st.ok then Outcome(s.(entries := st.entries), [])
    else
      match DataPacket(Data(n, data, stamp, freshnessMs))
      case None => Outcome(s.(entries := st.entries), [])
      case Some(bytes) =>
        Outcome(s.(entries := st.entries), PerPeer(bytes, s.peers))
  }

  /** psirp_net_add_peer. */
  function WithPeer(s: NodeState, ip: u32, port: u16): NodeState {
    var p := Peer(ip, Htons(port));
    if |s.peers| >= MAX_PEERS || p in s.peers then s else s.(peers := s.peers + [p])
  }

  // ----- the node object ------------------------------------------------------------

  class PsirpNode {
    const cs: Cs
    const fib: ForwardingTable
    var pending: seq<Pending>
    var peers: seq<Peer>

    ghost predicate Valid()
      reads this, cs, cs.entries, fib, fib.entries
    {
      && cs.Valid() && fib.Valid() && |pending| <= MAX_PENDING && |peers| <= MAX_PEERS
    }

    ghost function State(): NodeState
      reads this, cs, cs.entries, fib, fib.entries
      requires Valid()
    {
      NodeState(cs.Contents(), cs.maxBytes, pending, peers, fib.Routes())
    }

    /** psirp_net_init. */
    constructor (store: Cs, table: ForwardingTable)
      requires store.Valid() && table.Valid()
      ensures Valid() && cs == store && fib == table && pending == [] && peers == []
    {
      cs, fib := store, table;
      pending, peers := [], [];
    }

    method AddPeer(ip: u32, port: u16) returns (ok: bool)
      requires Valid()
      modifies this`peers
      ensures Valid() && State() == WithPeer(old(State()), ip, port)
      ensures ok <==> |old(peers)| < MAX_PEERS
    {
      if |peers| >= MAX_PEERS { return false; }
      var p := Peer(ip, Htons(port));
      for i := 0 to |peers|
        invariant p !in peers[..i]
      {
        if peers[i] == p { return true; }
      }
      peers := peers + [p];
      ok := true;
    }

    /** psirp_net_interest, up to the datagram it hands to the socket. */
    method Interest(n: Name, to: Option<Peer>, timeoutMs: u32, a: Ambient) returns (sent: seq<Datagram>)
      requires Valid() && |n.components| <= MAX_COMPONENTS
      modifies this`pending
      ensures Valid() && Outcome(State(), sent) == SendInterest(old(State()), n, to, timeoutMs, a)
    {
      hide EncodeInterest, Rebuild, Route;
      var p := Packets.Interest(n, a.nonce, Lifetime(timeoutMs));
      var buf := new byte[INTEREST_BUFFER];
      ghost var was := buf[..];
      var len := SerializeInterest(p, buf);
      if len == 0 { return []; }
      assert was[..0] == [];
      assert buf[..len] == EncodeInterest(p);
      var dest := to;
      if dest == None { dest := fib.Lookup(n); }
      if dest == None { return []; }
      sent := [Datagram(dest.value, buf[..len])];
      if |pending| < MAX_PENDING {
        var rebuilt := InitComponents(n.components);
        pending := pending + [Pending(rebuilt.name, a.nonce, a.now, p.lifetimeMs, true)];
      }
    }

    /** psirp_net_data, up to the datagram. */
    method SendData(d: Data) returns (packet: Option<seq<byte>>)
      requires |d.name.components| <= MAX_COMPONENTS
      ensures packet == DataPacket(d)
    {
      hide EncodeData;
      var buf := new byte[DATA_BUFFER];
      ghost var was := buf[..];
      var len := SerializeData(d, buf);
      if len == 0 { return None; }
      assert was[..0] == [];
      assert buf[..len] == EncodeData(d);
      packet := Some(buf[..len]);
    }

    method Settle(n: Name)
      requires Valid()
      modifies this`pending
      ensures Valid() && pending == Settled(old(pending), n)
    {
      var i := 0;
      while i < |pending| && !(pending[i].active && NameEqual(pending[i].name, n))
        invariant i <= |pending|
        invariant forall j :: 0 <= j < i ==> !(pending[j].active && NameEqual(pending[j].name, n))
      {
        i := i + 1;
      }
      assert i == FirstActive(pending, n);
      if i < |pending| { pending := pending[i := pending[i].(active := false)]; }
    }

    /** The Interest branch of recv_thread_func. */
    method HandleInterest(i: Packets.Interest, from: Peer, a: Ambient) returns (sent: seq<Datagram>)
      requires Valid() && |i.name.components| <= MAX_COMPONENTS
      modifies this`pending, cs.entries
      ensures Valid() && Outcome(State(), sent) == OnInterest(old(State()), i, from, a)
    {
      hide Find, DataPacket, SendInterest, Route;
      ghost var es := cs.Contents();
      var e := cs.Lookup(i.name, a.now);
      if e.Some? {
        LookedKeeps(es, i.name, a.now);
        InTable(cs.Contents(), Find(es, i.name, a.now).value);
        if !e.value.data.Raw? { return []; }
        var packet := SendData(Data(e.value.name, e.value.data.bytes, e.value.timestamp, e.value.freshnessMs));
        return if packet == None then [] else [Datagram(from, packet.value)];
      }
      var hop := fib.Lookup(i.name);
      if hop == None { return []; }
      sent := Interest(i.name, hop, i.lifetimeMs, a);
    }

    /** The Data branch of recv_thread_func. */
    method HandleData(d: Data, a: Ambient)
      requires Valid() && |d.name.components| <= MAX_COMPONENTS
      modifies this`pending, cs`count, cs`bytesUsed, cs.entries
      ensures Valid() && State() == OnData(old(State()), d, a)
    {
      hide StoreEntry, Settled;
      var _ := cs.Store(d.name, Raw(d.data), d.freshnessMs, a.now);
      Settle(d.name);
    }

    /** One datagram from the socket. */
    method HandlePacket(packet: seq<byte>, from: Peer, a: Ambient) returns (sent: seq<Datagram>)
      requires Valid()
      modifies this`pending, cs`count, cs`bytesUsed, cs.entries
      ensures Valid() && Outcome(State(), sent) == Receive(old(State()), packet, from, a)
    {
      DecodedNamesShort(packet);
      hide OnInterest, OnData, DecodeInterest, DecodeData;
      var i := DeserializeInterest(packet);
      if i.Some? {
        sent := HandleInterest(i.value, from, a);
        return;
      }
      var d := DeserializeData(packet);
      if d.Some? { HandleData(d.value, a); }
      sent := [];
    }

    /** psirp_net_publish. */
    method Publish(n: Name, data: seq<byte>, freshnessMs: u32, now: u64, stamp: u64)
      returns (ok: bool, sent: seq<Datagram>)
      requires Valid() && |n.components| <= MAX_COMPONENTS
      modifies cs`count, cs`bytesUsed, cs.entries
      ensures Valid()
      ensures Outcome(State(), sent) == PublishData(old(State()), n, data, freshnessMs, now, stamp)
      ensures ok == StoreEntry(old(cs.Contents()), cs.maxBytes, n, Raw(data), freshnessMs, now).ok
    {
      hide StoreEntry, DataPacket;
      sent := [];
      ok := cs.Store(n, Raw(data), freshnessMs, now);
      if !ok { return; }
      ghost var stored := State();
      ghost var announced := DataPacket(Data(n, data, stamp, freshnessMs));
      for i := 0 to |peers|
        invariant Valid() && State() == stored
        invariant sent == if announced.Some? then PerPeer(announced.value, peers[..i]) else []
      {
        var packet := SendData(Data(n, data, stamp, freshnessMs));
        if packet.Some? {
          assert PerPeer(packet.value, peers[..i + 1]) == PerPeer(packet.value, peers[..i]) + [Datagram(peers[i], packet.value)];
          sent := sent + [Datagram(peers[i], packet.value)];
        }
      }
      assert peers[..|peers|] == peers;
    }
  }

  lemma LookedKeeps(es: seq<Entry>, n: Name, now: u64)
    ensures |Looked(es, n, now)| == |es|
    ensures forall i :: 0 <= i < |es| ==>
              Looked(es, n, now)[i].name == es[i].name && Looked(es, n, now)[i].data == es[i].data
              && Looked(es, n, now)[i].timestamp == es[i].timestamp
              && Looked(es, n, now)[i].freshnessMs == es[i].freshnessMs
  {
    hide Find;
  }

  lemma DecodedNamesShort(packet: seq<byte>)
    ensures DecodeInterest(packet).Some? ==>
              |DecodeInterest(packet).value.packet.name.components| <= MAX_COMPONENTS
    ensures DecodeData(packet).Some? ==> |DecodeData(packet).value.packet.name.components| <= MAX_COMPONENTS
  {
    hide EncodeName, DecodeComponents, HashText;
    if DecodeInterest(packet).Some? { NameSound(packet[13..], ANY_LENGTH); }
    if DecodeData(packet).Some? { NameSound(packet[17..], ANY_LENGTH); }
  }
}
