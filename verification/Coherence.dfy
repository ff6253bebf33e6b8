/** The content store against a plain map from names to what was last stored under them, over
    every sequence of operations on canonical unversioned names. */
module Coherence {
  import opened Bytes
  import opened Names
  import opened Store

  type Key = seq<seq<byte>>

  /** What one successful store leaves behind. */
  datatype Record = Record(data: Content, at: u64, freshnessMs: u32)

  function RecordOf(e: Entry): Record { Record(e.data, e.timestamp, e.freshnessMs) }

  predicate Stale(r: Record, now: u64) { TooOld(r.at, r.freshnessMs, now) }

  datatype Op =
    | Put(name: Name, data: Content, freshnessMs: u32)
    | Get(name: Name)
    | Remove(name: Name)
    | Gc
    | SetBudget(maxBytes: nat)

  /** An operation and the clock reading it uses. */
  datatype Call = Call(op: Op, at: u64)

  datatype State = State(entries: seq<Entry>, maxBytes: nat)

  function Step(s: State, c: Call): State {
    match c.op
    case Put(n, data, life) =>
      s.(entries := StoreEntry(s.entries, s.maxBytes, n, data, life, c.at).entries)
    case Get(n) => s.(entries := Looked(s.entries, n, c.at))
    case Remove(n) => s.(entries := RemoveEntry(s.entries, n).entries)
    case Gc => s.(entries := Collect(s.entries, s.maxBytes, c.at).survivors)
    case SetBudget(b) => s.(maxBytes := b)
  }

  function Run(calls: seq<Call>): State {
    if calls == [] then State([], 0)
    else Step(Run(calls[..|calls| - 1]), calls[|calls| - 1])
  }

  /** The map a reader of the store should have in mind: the latest successful store of each name
      that was not removed since. */
  function Latest(calls: seq<Call>): map<Key, Record> {
    if calls == [] then map[]
    else
      var before := Latest(calls[..|calls| - 1]);
      Recorded(Run(calls[..|calls| - 1]), before, calls[|calls| - 1])
  }

  function Recorded(s: State, latest: map<Key, Record>, c: Call): map<Key, Record> {
    match c.op
    case Put(n, data, life) =>
      if StoreEntry(s.entries, s.maxBytes, n, data, life, c.at).ok
      then latest[n.components := Record(data, c.at, life)] else latest
    case Remove(n) => latest - {n.components}
    case _ => latest
  }

  predicate OnPlainName(op: Op) {
    match op
    case Put(n, _, _) => Plain(n)
    case Get(n) => Plain(n)
    case Remove(n) => Plain(n)
    case _ => true
  }

  /** Names canonical and unversioned, clock readings non-decreasing. */
  ghost predicate Proper(calls: seq<Call>) {
    && (forall i :: 0 <= i < |calls| ==> OnPlainName(calls[i].op))
    && (forall i, j :: 0 <= i < j < |calls| ==> calls[i].at <= calls[j].at)
  }

  predicate NeverBudgeted(calls: seq<Call>) {
    forall i :: 0 <= i < |calls| && calls[i].op.SetBudget? ==> calls[i].op.maxBytes == 0
  }

  // ----- the invariant --------------------------------------------------------------

  /** Plain names, each at most once. */
  ghost predicate Distinct(es: seq<Entry>) {
    && (forall i :: 0 <= i < |es| ==> Plain(es[i].name))
    && (forall i, j :: 0 <= i < j < |es| ==> es[i].name.components != es[j].name.components)
  }

  /** Every entry is the latest record of its name. */
  ghost predicate Faithful(es: seq<Entry>, latest: map<Key, Record>) {
    forall e :: e in es ==>
      e.name.components in latest && latest[e.name.components] == RecordOf(e)
  }

  ghost predicate Holds(es: seq<Entry>, k: Key) {
    exists e :: e in es && e.name.components == k
  }

  /** Only stale records lack an entry. */
  ghost predicate Complete(es: seq<Entry>, latest: map<Key, Record>, now: u64) {
    forall k :: k in latest ==> Holds(es, k) || Stale(latest[k], now)
  }

  ghost predicate UpTo(latest: map<Key, Record>, now: u64) {
    forall k :: k in latest ==> latest[k].at <= now
  }

  lemma FaithfulWithin(b: seq<Entry>, a: seq<Entry>, latest: map<Key, Record>)
    requires Faithful(a, latest) && Within(b, a)
    ensures Faithful(b, latest)
  {
  }

  // ----- removals keep the invariant ------------------------------------------------

  lemma SwapRemoveDistinct(es: seq<Entry>, i: nat)
    requires Distinct(es) && i < |es|
    ensures Distinct(SwapRemove(es, i))
    ensures forall k :: Holds(SwapRemove(es, i), k) <==> Holds(es, k) && k != es[i].name.components
  {
    hide Plain;
    var r := SwapRemove(es, i);
    forall e | e in r ensures e in es && e.name.components != es[i].name.components {
      var j :| 0 <= j < |r| && r[j] == e;
      assert r[j] == es[if j == i then |es| - 1 else j];
    }
    forall e | e in es && e.name.components != es[i].name.components ensures e in r {
      var j :| 0 <= j < |es| && es[j] == e;
      assert r[if j == |es| - 1 then i else j] == e;
    }
  }

  lemma {:induction false} EvictDistinct(es: seq<Entry>, budget: nat)
    requires Distinct(es)
    ensures Distinct(Evict(es, budget).survivors)
    decreases |es|
  {
    if TotalBytes(es) > budget && es != [] {
      SwapRemoveDistinct(es, Lru(es, |es|));
      EvictDistinct(SwapRemove(es, Lru(es, |es|)), budget);
    }
  }

  lemma {:induction false} SweepDistinct(es: seq<Entry>, i: nat, now: u64)
    requires Distinct(es) && i <= |es|
    ensures Distinct(Sweep(es, i, now))
    decreases i
  {
    if i > 0 {
      SweepUnfolds(es, i, now);
      hide Sweep, SwapRemove, Distinct, Expired;
      if Expired(es[i - 1], now) {
        SwapRemoveDistinct(es, i - 1);
        SweepDistinct(SwapRemove(es, i - 1), i - 1, now);
      } else {
        SweepDistinct(es, i - 1, now);
      }
    }
  }

  // ----- each operation -------------------------------------------------------------

  ghost predicate Coherent(s: State, latest: map<Key, Record>, now: u64) {
    Distinct(s.entries) && Faithful(s.entries, latest) && UpTo(latest, now)
  }

  lemma UpdateKeeps(es: seq<Entry>, i: nat, e: Entry)
    requires Distinct(es) && i < |es| && e.name == es[i].name
    ensures Distinct(es[i := e])
    ensures forall x :: x in es[i := e] <==> x == e || (x in es && x.name.components != e.name.components)
  {
    hide Plain;
    var r := es[i := e];
    assert r[i] == e;
    forall x | x in es && x.name.components != e.name.components ensures x in r {
      var j :| 0 <= j < |es| && es[j] == x;
      assert r[j] == x;
    }
  }

  lemma AppendKeeps(es: seq<Entry>, e: Entry)
    requires Distinct(es) && Plain(e.name) && !Holds(es, e.name.components)
    ensures Distinct(es + [e])
    ensures forall x :: x in es + [e] <==> x == e || (x in es && x.name.components != e.name.components)
  {
    hide Plain;
    assert forall j :: 0 <= j < |es| ==> es[j] in es;
  }

  /** On plain tables the duplicate scan finds a name exactly when the table holds it. */
  lemma FirstEqualFinds(es: seq<Entry>, n: Name)
    requires Distinct(es) && Plain(n)
    ensures FirstEqual(es, n) < |es| <==> Holds(es, n.components)
    ensures FirstEqual(es, n) < |es| ==> es[FirstEqual(es, n)].name == n
  {
    if Holds(es, n.components) {
      var e :| e in es && e.name.components == n.components;
      var j :| 0 <= j < |es| && es[j] == e;
      assert NameEqual(es[j].name, n);
    }
  }

  /** Replacing the entry of `e`'s name by `e`, or adding it, matches recording `e`. */
  lemma Supersede(es: seq<Entry>, r: seq<Entry>, e: Entry, latest: map<Key, Record>, now: u64)
    requires forall x :: x in r <==> x == e || (x in es && x.name.components != e.name.components)
    requires Faithful(es, latest)
    ensures var after := latest[e.name.components := RecordOf(e)];
            Faithful(r, after) && (Complete(es, latest, now) ==> Complete(r, after, now))
  {
    var after := latest[e.name.components := RecordOf(e)];
    if Complete(es, latest, now) {
      forall k | k in after ensures Holds(r, k) || Stale(after[k], now) {
        if k == e.name.components {
          assert e in r;
        } else if Holds(es, k) {
          var x :| x in es && x.name.components == k;
          assert x in r;
        }
      }
    }
  }

  lemma PutCoherent(s: State, latest: map<Key, Record>, n: Name, data: Content, life: u32, now: u64)
    requires Coherent(s, latest, now) && Plain(n)
    ensures var c := Call(Put(n, data, life), now);
            Coherent(Step(s, c), Recorded(s, latest, c), now)
            && (s.maxBytes == 0 && Complete(s.entries, latest, now) ==>
                  Complete(Step(s, c).entries, Recorded(s, latest, c), now))
  {
    var es, c := s.entries, Call(Put(n, data, life), now);
    if 0 < Size(data) <= MAX_DATA {
      FirstEqualFinds(es, n);
      var i := FirstEqual(es, n);
      if i < |es| {
        var e := Renewed(es[i], data, life, now);
        UpdateKeeps(es, i, e);
        Supersede(es, es[i := e], e, latest, now);
      } else if |es| < CAPACITY {
        var e := NewEntry(n, data, life, now);
        PlainStoredName(n);
        AppendKeeps(es, e);
        Supersede(es, es + [e], e, latest, now);
        if s.maxBytes > 0 {
          EvictDistinct(es + [e], s.maxBytes);
          EvictWithin(es + [e], s.maxBytes);
          FaithfulWithin(Evict(es + [e], s.maxBytes).survivors, es + [e], latest[n.components := RecordOf(e)]);
        }
      }
      hide Distinct, Plain, FirstEqual, Holds, Faithful, Complete, Rebuild;
    }
  }

  lemma GetCoherent(s: State, latest: map<Key, Record>, n: Name, now: u64)
    requires Coherent(s, latest, now)
    ensures var c := Call(Get(n), now);
            Coherent(Step(s, c), latest, now)
            && (Complete(s.entries, latest, now) ==> Complete(Step(s, c).entries, latest, now))
  {
    var es, found := s.entries, Find(s.entries, n, now);
    if found.Some? {
      var i := found.value;
      var e := es[i].(lastAccess := now, accessCount := es[i].accessCount + 1);
      UpdateKeeps(es, i, e);
      assert es[i] in es;
      assert Step(s, Call(Get(n), now)).entries == es[i := e];
      hide Distinct, Find;
      Supersede(es, es[i := e], e, latest, now);
      assert latest[e.name.components := RecordOf(e)] == latest;
    }
  }

  lemma RemoveCoherent(s: State, latest: map<Key, Record>, n: Name, now: u64)
    requires Coherent(s, latest, now) && Plain(n)
    ensures var c := Call(Remove(n), now);
            Coherent(Step(s, c), Recorded(s, latest, c), now)
            && (Complete(s.entries, latest, now) ==> Complete(Step(s, c).entries, Recorded(s, latest, c), now))
  {
    var es := s.entries;
    var i := FirstEqual(es, n);
    FirstEqualFinds(es, n);
    if i < |es| { SwapRemoveDistinct(es, i); }
    hide Distinct, Plain, FirstEqual, SwapRemove;
  }

  lemma SweepCoherent(es: seq<Entry>, latest: map<Key, Record>, now: u64)
    requires Distinct(es) && Faithful(es, latest)
    ensures var swept := Sweep(es, |es|, now);
            Distinct(swept) && Faithful(swept, latest)
            && (Complete(es, latest, now) ==> Complete(swept, latest, now))
  {
    var swept := Sweep(es, |es|, now);
    hide Distinct, Sweep, Expired, Stale;
    SweepDistinct(es, |es|, now);
    forall e ensures e in swept <==> e in es && !Expired(e, now) {
      SweepMembers(es, now, e);
    }
    if Complete(es, latest, now) {
      forall k | k in latest && Holds(es, k) ensures Holds(swept, k) || Stale(latest[k], now) {
        var e :| e in es && e.name.components == k;
        StaleIsExpired(e, now);
      }
    }
  }

  lemma StaleIsExpired(e: Entry, now: u64)
    ensures Stale(RecordOf(e), now) == Expired(e, now)
  {
  }

  lemma GcCoherent(s: State, latest: map<Key, Record>, now: u64)
    requires Coherent(s, latest, now)
    ensures var c := Call(Gc, now);
            Coherent(Step(s, c), latest, now)
            && (s.maxBytes == 0 && Complete(s.entries, latest, now) ==>
                  Complete(Step(s, c).entries, latest, now))
  {
    var swept := Sweep(s.entries, |s.entries|, now);
    SweepCoherent(s.entries, latest, now);
    if s.maxBytes > 0 {
      EvictDistinct(swept, s.maxBytes);
      EvictWithin(swept, s.maxBytes);
      FaithfulWithin(Evict(swept, s.maxBytes).survivors, swept, latest);
    }
    hide Distinct, Faithful, Complete, Sweep, Evict, Within;
  }

  /** One call keeps the store coherent with the map and, while no budget is set, complete. */
  lemma StepCoherent(s: State, latest: map<Key, Record>, c: Call)
    requires Coherent(s, latest, c.at) && OnPlainName(c.op)
    ensures Coherent(Step(s, c), Recorded(s, latest, c), c.at)
    ensures s.maxBytes == 0 && Complete(s.entries, latest, c.at) ==>
              Complete(Step(s, c).entries, Recorded(s, latest, c), c.at)
  {
    match c.op
    case Put(n, data, life) => PutCoherent(s, latest, n, data, life, c.at);
    case Get(n) => GetCoherent(s, latest, n, c.at);
    case Remove(n) => RemoveCoherent(s, latest, n, c.at);
    case Gc => GcCoherent(s, latest, c.at);
    case SetBudget(_) =>
  }

  lemma LaterComplete(es: seq<Entry>, latest: map<Key, Record>, t: u64, u: u64)
    requires t <= u && UpTo(latest, t) && Complete(es, latest, t)
    ensures UpTo(latest, u) && Complete(es, latest, u)
  {
    hide Holds, TooOld;
    forall k | k in latest && !Holds(es, k) ensures Stale(latest[k], u) {
      ExpiryIsFinal(latest[k].at, latest[k].freshnessMs, t, u);
    }
  }

  lemma {:induction false} RunCoherent(calls: seq<Call>, now: u64)
    requires Proper(calls) && forall i :: 0 <= i < |calls| ==> calls[i].at <= now
    ensures Coherent(Run(calls), Latest(calls), now)
    ensures NeverBudgeted(calls) ==>
              Run(calls).maxBytes == 0 && Complete(Run(calls).entries, Latest(calls), now)
  {
    if calls != [] {
      var n := |calls| - 1;
      var before, c := calls[..n], calls[n];
      RunCoherent(before, c.at);
      assert NeverBudgeted(calls) ==> NeverBudgeted(before);
      var s, latest := Run(before), Latest(before);
      StepCoherent(s, latest, c);
      hide Coherent, Complete, Distinct, Faithful, UpTo, Recorded;
      StepBudget(s, c);
      LaterCoherent(Step(s, c), Recorded(s, latest, c), c.at, now);
    }
  }

  lemma StepBudget(s: State, c: Call)
    ensures Step(s, c).maxBytes == if c.op.SetBudget? then c.op.maxBytes else s.maxBytes
  {
  }

  lemma LaterCoherent(s: State, latest: map<Key, Record>, t: u64, u: u64)
    requires t <= u && Coherent(s, latest, t)
    ensures Coherent(s, latest, u)
    ensures Complete(s.entries, latest, t) ==> Complete(s.entries, latest, u)
  {
    if Complete(s.entries, latest, t) { LaterComplete(s.entries, latest, t, u); }
  }

  // ----- the theorem ----------------------------------------------------------------

  /** What a lookup of a plain name can return from a coherent table. */
  lemma FindIsLatest(es: seq<Entry>, latest: map<Key, Record>, n: Name, now: u64)
    requires Distinct(es) && Faithful(es, latest) && Plain(n)
    ensures var r := Find(es, n, now);
            if r.Some?
            then n.components in latest && RecordOf(es[r.value]) == latest[n.components]
                 && !Stale(latest[n.components], now)
            else Holds(es, n.components) ==> Stale(latest[n.components], now)
  {
    var r := Find(es, n, now);
    if r.Some? {
      assert es[r.value] in es;
    } else if Holds(es, n.components) {
      var e :| e in es && e.name.components == n.components;
      var j :| 0 <= j < |es| && es[j] == e;
      assert !Matches(es[j], n.components, now);
    }
  }

  /** After any sequence of operations, a lookup returns nothing or exactly the latest data stored
      under the name; when no budget was ever set it returns it if and only if the name was
      stored, not removed since, and has not expired. */
  lemma {:induction false} CacheCoherence(calls: seq<Call>, n: Name, now: u64)
    requires Proper(calls) && (forall i :: 0 <= i < |calls| ==> calls[i].at <= now) && Plain(n)
    ensures var es, latest, r := Run(calls).entries, Latest(calls), Find(Run(calls).entries, n, now);
            (r.Some? ==> n.components in latest && es[r.value].data == latest[n.components].data)
            && (NeverBudgeted(calls) ==>
                  (r.Some? <==> n.components in latest && !Stale(latest[n.components], now)))
  {
    RunCoherent(calls, now);
    FindIsLatest(Run(calls).entries, Latest(calls), n, now);
  }
}
