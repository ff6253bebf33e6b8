/** Topics and their versions (pubsub.c). */
module Pubsub {
  import opened Bytes
  import opened Names
  import NamePaths
  import Dht
  import Fnv
  import DhtRecords
  import Fib

  const MAX_TOPICS: nat := 256

  datatype Topic = Topic(base: Name, highest: u64, active: bool)

  datatype Published = Published(ok: bool, topics: seq<Topic>)

  // ----- the topic table ------------------------------------------------------------

  /** find_topic: index of the first topic with an equal name, or the number of topics. */
  function FindTopic(ts: seq<Topic>, n: Name): (k: nat)
    ensures k <= |ts| && forall j :: 0 <= j < k ==> !NameEqual(ts[j].base, n)
    ensures k < |ts| ==> NameEqual(ts[k].base, n)
  {
    if ts == [] || NameEqual(ts[0].base, n) then 0 else 1 + FindTopic(ts[1..], n)
  }

  lemma {:induction false} FindTopicUnique(ts: seq<Topic>, n: Name, k: nat)
    requires k <= |ts| && forall j :: 0 <= j < k ==> !NameEqual(ts[j].base, n)
    requires k < |ts| ==> NameEqual(ts[k].base, n)
    ensures FindTopic(ts, n) == k
  {
    if k > 0 { FindTopicUnique(ts[1..], n, k - 1); }
  }

  /** A new topic's name is rebuilt from its components. */
  function NewTopic(n: Name, version: u64): Topic { Topic(Rebuild(n.components).name, version, true) }

  /** The topic table after pubsub_publish. */
  function Publish(ts: seq<Topic>, n: Name, version: u64): Published {
    var k := FindTopic(ts, n);
    if k == |ts| then
      if |ts| >= MAX_TOPICS then Published(false, ts) else Published(true, ts + [NewTopic(n, version)])
    else if version <= ts[k].highest then Published(false, ts)
    else Published(true, ts[k := ts[k].(highest := version)])
  }

  /** pubsub_subscribe. */
  function Subscribe(ts: seq<Topic>, n: Name): seq<Topic> {
    if FindTopic(ts, n) < |ts| || |ts| >= MAX_TOPICS then ts else ts + [NewTopic(n, 0)]
  }

  /** pubsub_poll. */
  function Poll(ts: seq<Topic>, n: Name): Option<u64> {
    var k := FindTopic(ts, n);
    if k == |ts| || ts[k].highest == 0 then None else Some(ts[k].highest)
  }

  // ----- runs -----------------------------------------------------------------------

  datatype TopicOp = PublishOp(name: Name, version: u64) | SubscribeOp(name: Name)

  function Apply(ts: seq<Topic>, op: TopicOp): seq<Topic> {
    match op
    case PublishOp(n, v) => Publish(ts, n, v).topics
    case SubscribeOp(n) => Subscribe(ts, n)
  }

  function ApplyAll(ops: seq<TopicOp>): seq<Topic> {
    if ops == [] then [] else Apply(ApplyAll(ops[..|ops| - 1]), ops[|ops| - 1])
  }

  predicate Accepts(ts: seq<Topic>, op: TopicOp, n: Name) {
    op.PublishOp? && op.name == n && Publish(ts, n, op.version).ok
  }

  /** The versions pubsub_publish accepted for a topic, in order. */
  function Accepted(ops: seq<TopicOp>, n: Name): seq<u64> {
    if ops == [] then []
    else
      var front, op := ops[..|ops| - 1], ops[|ops| - 1];
      Accepted(front, n) + if Accepts(ApplyAll(front), op, n) then [op.version] else []
  }

  /** Each topic has a plain name of its own. */
  ghost predicate WellFormed(ts: seq<Topic>) {
    && (forall i :: 0 <= i < |ts| ==> Plain(ts[i].base))
    && (forall i, j :: 0 <= i < j < |ts| ==> ts[i].base != ts[j].base)
  }

  predicate Known(ts: seq<Topic>, n: Name) { FindTopic(ts, n) < |ts| }

  function Highest(ts: seq<Topic>, n: Name): u64 {
    if Known(ts, n) then ts[FindTopic(ts, n)].highest else 0
  }

  lemma PlainEqual(a: Name, b: Name)
    requires Plain(a) && Plain(b)
    ensures NameEqual(a, b) <==> a == b
  {
  }

  lemma Appended(ts: seq<Topic>, m: Name, version: u64, n: Name)
    requires WellFormed(ts) && Plain(m) && Plain(n) && !Known(ts, m)
    ensures WellFormed(ts + [NewTopic(m, version)])
    ensures var r := ts + [NewTopic(m, version)];
      if n == m then Known(r, n) && Highest(r, n) == version
      else Known(r, n) == Known(ts, n) && Highest(r, n) == Highest(ts, n)
  {
    RebuildClean(m.components);
    var r := ts + [NewTopic(m, version)];
    assert NewTopic(m, version).base == m;
    hide Plain, NewTopic, NameEqual;
    assert forall j :: 0 <= j < |ts| ==> r[j] == ts[j] && !NameEqual(ts[j].base, m);
    forall j | 0 <= j < |ts| ensures ts[j].base != m { PlainEqual(ts[j].base, m); }
    PlainEqual(m, n);
    FindTopicUnique(r, n, if Known(ts, n) then FindTopic(ts, n) else if n == m then |ts| else |ts| + 1);
  }

  lemma Raised(ts: seq<Topic>, m: Name, version: u64, n: Name)
    requires WellFormed(ts) && Plain(m) && Plain(n) && Known(ts, m)
    ensures var r := ts[FindTopic(ts, m) := ts[FindTopic(ts, m)].(highest := version)];
      WellFormed(r) && Known(r, n) == Known(ts, n)
      && Highest(r, n) == if n == m then version else Highest(ts, n)
  {
    hide Plain, NameEqual;
    var k := FindTopic(ts, m);
    var r := ts[k := ts[k].(highest := version)];
    assert forall j :: 0 <= j < |ts| ==> r[j].base == ts[j].base;
    FindTopicUnique(r, n, FindTopic(ts, n));
    PlainEqual(ts[k].base, m);
    if n != m && Known(ts, n) { PlainEqual(ts[FindTopic(ts, n)].base, n); }
  }

  /** Publishing moves only the topic published to, and only upwards. A newer version of a known topic
      is always accepted, an older or equal one never; of an unknown topic, any, while fewer than 256
      are known. */
  lemma PublishRaises(ts: seq<Topic>, m: Name, version: u64, n: Name)
    requires WellFormed(ts) && Plain(m) && Plain(n)
    ensures var p := Publish(ts, m, version);
      && WellFormed(p.topics) && (!p.ok ==> p.topics == ts)
      && (p.ok <==> if Known(ts, m) then version > Highest(ts, m) else |ts| < 256)
      && (if p.ok && n == m then Known(p.topics, n) && Highest(p.topics, n) == version
          else Known(p.topics, n) == Known(ts, n) && Highest(p.topics, n) == Highest(ts, n))
  {
    hide WellFormed, Plain, FindTopic, NewTopic;
    if !Known(ts, m) {
      Appended(ts, m, version, n);
    } else {
      Raised(ts, m, version, n);
    }
  }

  /** Subscribing makes a topic known while fewer than 256 are, and moves no version. */
  lemma SubscribeKeeps(ts: seq<Topic>, m: Name, n: Name)
    requires WellFormed(ts) && Plain(m) && Plain(n)
    ensures WellFormed(Subscribe(ts, m)) && Highest(Subscribe(ts, m), n) == Highest(ts, n)
    ensures Known(Subscribe(ts, m), n) <==> Known(ts, n) || (n == m && |ts| < 256)
  {
    hide WellFormed, Plain, FindTopic, NewTopic;
    if !Known(ts, m) { Appended(ts, m, 0, n); }
    UnknownIsZero(ts, n);
  }

  lemma UnknownIsZero(ts: seq<Topic>, n: Name)
    ensures !Known(ts, n) ==> Highest(ts, n) == 0
  {
  }

  function Last(vs: seq<u64>): u64 { if vs == [] then 0 else vs[|vs| - 1] }

  ghost predicate Increasing(vs: seq<u64>) { forall i, j :: 0 <= i < j < |vs| ==> vs[i] < vs[j] }

  ghost predicate OnPlainNames(ops: seq<TopicOp>) { forall i :: 0 <= i < |ops| ==> Plain(ops[i].name) }

  lemma {:induction false} RunTracksTopic(ops: seq<TopicOp>, n: Name)
    requires OnPlainNames(ops) && Plain(n)
    ensures WellFormed(ApplyAll(ops)) && Increasing(Accepted(ops, n))
    ensures Highest(ApplyAll(ops), n) == Last(Accepted(ops, n))
    ensures Accepted(ops, n) != [] ==> Known(ApplyAll(ops), n)
  {
    hide Plain, WellFormed, Publish, Subscribe, Highest, Known;
    if ops == [] {
      Empty(n);
    } else {
      var front, op := ops[..|ops| - 1], ops[|ops| - 1];
      RunTracksTopic(front, n);
      var ts := ApplyAll(front);
      match op {
        case PublishOp(m, v) => PublishRaises(ts, m, v, n);
        case SubscribeOp(m) => SubscribeKeeps(ts, m, n);
      }
    }
  }

  lemma Empty(n: Name)
    ensures WellFormed([]) && Highest([], n) == 0
  {
  }

  /** In every run the accepted versions of a topic strictly increase, and poll reports the last
      of them, which is therefore their maximum; nothing while it is 0 or there is none. */
  lemma VersionsIncrease(ops: seq<TopicOp>, n: Name)
    requires OnPlainNames(ops) && Plain(n)
    ensures Increasing(Accepted(ops, n))
    ensures forall v :: v in Accepted(ops, n) ==> v <= Last(Accepted(ops, n))
    ensures Poll(ApplyAll(ops), n) == if Last(Accepted(ops, n)) == 0 then None else Some(Last(Accepted(ops, n)))
  {
    hide Plain, FindTopic, ApplyAll, Accepted;
    RunTracksTopic(ops, n);
  }

  // ----- versioned names ------------------------------------------------------------

  /** The path pubsub_versioned_name parses: the base as printed into 1024 bytes and "@version", cut
      to 1023 bytes. */
  function VersionedPath(base: Name, version: u64): seq<byte> {
    Take(TextIn(base, MAX_NAME) + VersionText(version), MAX_NAME - 1)
  }

  function Versioned(base: Name, version: u64): Init { InitName(VersionedPath(base, version)) }

  predicate PathFits(base: Name, version: u64) { |NameText(base)| + |VersionText(version)| < MAX_NAME }

  lemma WholePath(base: Name, version: u64)
    requires PathFits(base, version)
    ensures VersionedPath(base, version) == NameText(base) + VersionText(version)
  {
    hide NameText, VersionText, TextIn;
    VersionNonEmpty(version);
    PrintedInto(base, MAX_NAME);
  }

  lemma CutPath(base: Name, version: u64)
    requires base.components != [] && !PathFits(base, version)
    ensures var path := VersionedPath(base, version);
      |path| < |NameText(base)| + |VersionText(version)| && path != [] && path[0] == SLASH
  {
    hide VersionText, NameText;
    assert TextIn(base, MAX_NAME)[0] == SLASH;
  }

  lemma CutNeverWhole(path: seq<byte>, n: Name)
    requires path != [] && path[0] == SLASH && |path| < |NameText(n)|
    ensures InitName(path).ok ==> InitName(path).name != n
  {
    hide InitFrom, NameText;
    var r := InitFrom(Body(path), EMPTY_NAME);
    if r.ok {
      NamePaths.PrintedBound(Body(path), EMPTY_NAME);
      NamePaths.SameText(r.name, Fnv.Hash([SLASH] + Body(path)));
    }
  }

  /** pubsub_versioned_name of a plain base gives the base's components with that version, for every
      version, if and only if "@version" leaves the last component under 64 bytes and the whole path
      under 1024; a cut path never passes for it. */
  lemma VersionedOfPlain(base: Name, version: u64)
    requires Plain(base)
    ensures Versioned(base, version) == Init(true, VersionedName(base.components, version))
        <==> VersionFits(base.components, version) && PathFits(base, version)
    ensures PathFits(base, version) ==> (Versioned(base, version).ok <==> VersionFits(base.components, version))
  {
    assert NameText(base) == TextOf(base.components);
    if PathFits(base, version) {
      hide InitName, VersionText, TextIn;
      InitVersioned(base.components, version);
      WholePath(base, version);
    } else {
      CutPath(base, version);
      VersionedLength(base.components, version);
      hide InitName, VersionText, TextIn, NameText;
      CutNeverWhole(VersionedPath(base, version), VersionedName(base.components, version));
    }
  }

  lemma VersionedLength(cs: seq<seq<byte>>, version: u64)
    requires cs != []
    ensures |NameText(VersionedName(cs, version))| == |TextOf(cs)| + |VersionText(version)|
  {
  }

  // ----- the context ----------------------------------------------------------------

  const NO_TOPIC := Topic(EMPTY_NAME, 0, false)

  class PubsubCtx {
    const dht: Dht.DhtNode?
    const topics: array<Topic>
    var topicCount: nat
    const selfIp: u32
    const selfPort: u16

    ghost predicate Valid()
      reads this, dht
    {
      topics.Length == MAX_TOPICS && topicCount <= MAX_TOPICS && (dht != null ==> dht.Valid())
    }

    /** What an announcement may change. */
    ghost function Records(): set<object> {
      if dht == null then {} else {dht, dht.records}
    }

    /** Our endpoint as the DHT records it. */
    function Self(): Fib.Peer { Fib.Peer(Fib.Htonl(selfIp), Fib.Htons(selfPort)) }

    ghost function Topics(): seq<Topic>
      reads this, topics, dht
      requires Valid()
    {
      topics[..topicCount]
    }

    /** pubsub_init. */
    constructor (node: Dht.DhtNode?, ip: u32, port: u16)
      requires node != null ==> node.Valid()
      ensures Valid() && Topics() == [] && fresh(topics) && dht == node && selfIp == ip && selfPort == port
    {
      dht, selfIp, selfPort := node, ip, port;
      topics := new Topic[MAX_TOPICS](_ => NO_TOPIC);
      topicCount := 0;
    }

    /** find_topic. */
    method Find(n: Name) returns (i: nat)
      requires Valid()
      ensures i == FindTopic(Topics(), n)
    {
      i := 0;
      while i < topicCount && !NameEqual(topics[i].base, n)
        invariant i <= topicCount
        invariant forall j :: 0 <= j < i ==> !NameEqual(topics[j].base, n)
      {
        i := i + 1;
      }
      FindTopicUnique(topics[..topicCount], n, i);
    }

    method AddTopic(n: Name, version: u64)
      requires Valid() && topicCount < MAX_TOPICS
      modifies this`topicCount, topics
      ensures Valid() && Topics() == old(Topics()) + [NewTopic(n, version)]
    {
      var base := InitComponents(n.components);
      topics[topicCount] := Topic(base.name, version, true);
      topicCount := topicCount + 1;
    }

    /** pubsub_publish before its announcement. */
    method Accept(n: Name, version: u64) returns (ok: bool)
      requires Valid()
      modifies this`topicCount, topics
      ensures Valid() && Published(ok, Topics()) == Publish(old(Topics()), n, version)
    {
      hide FindTopic, NewTopic;
      var i := Find(n);
      if i == topicCount {
        if topicCount >= MAX_TOPICS { return false; }
        AddTopic(n, version);
        return true;
      }
      if version <= topics[i].highest { return false; }
      topics[i] := topics[i].(highest := version);
      return true;
    }

    /** pubsub_publish: an accepted version is announced under the base's hash. */
    method PublishVersion(n: Name, version: u64) returns (ok: bool)
      requires Valid()
      modifies this`topicCount, topics, Records()
      ensures Valid() && Published(ok, Topics()) == Publish(old(Topics()), n, version)
      ensures dht != null ==>
                dht.PeerTable() == old(dht.PeerTable())
                && dht.RecordTable() == if ok then DhtRecords.Announce(old(dht.RecordTable()), n.hash, Self())
                                        else old(dht.RecordTable())
    {
      hide Publish, DhtRecords.Announce;
      ok := Accept(n, version);
      if ok && dht != null { dht.Announce(n.hash, Self()); }
    }

    /** pubsub_subscribe. */
    method SubscribeTo(n: Name)
      requires Valid()
      modifies this`topicCount, topics
      ensures Valid() && Topics() == Subscribe(old(Topics()), n)
    {
      hide FindTopic, NewTopic;
      var i := Find(n);
      if i < topicCount || topicCount >= MAX_TOPICS { return; }
      AddTopic(n, 0);
    }

    /** pubsub_poll; what the DHT lookup finds is not used. */
    method PollVersion(n: Name) returns (version: Option<u64>)
      requires Valid()
      ensures version == Poll(Topics(), n)
    {
      hide FindTopic;
      var i := Find(n);
      if i == topicCount || topics[i].highest == 0 { return None; }
      version := Some(topics[i].highest);
      if dht != null {
        var ips, ports := new u32[DhtRecords.MAX_HOLDERS], new u16[DhtRecords.MAX_HOLDERS];
        var _ := dht.Lookup(n.hash, ips, ports);
      }
    }
  }

  /** pubsub_versioned_name: print the base, append "@version", parse. */
  method MakeVersionedName(base: Name, version: u64) returns (r: Init)
    requires 0 !in TextIn(base, MAX_NAME) && (base.hasVersion ==> |NameText(base)| + 2 <= MAX_NAME)
    ensures r == Versioned(base, version)
  {
    hide InitName, TextIn;
    var buf := new byte[MAX_NAME](_ => 0);
    var len := ToString(base, buf);
    var path := Take(buf[..len] + VersionText(version), MAX_NAME - 1);
    r := ParseName(path);
  }
}
