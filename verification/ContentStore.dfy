/** psirp_cs: the entry array of the content store, updated in place. */
module ContentStore {
  import opened Bytes
  import opened Names
  import opened Store

  const FREE_SLOT := Entry(EMPTY_NAME, Raw([]), 0, 0, 0, 0)

  class Cs {
    const entries: array<Entry>
    var count: nat
    var maxBytes: nat
    var bytesUsed: nat

    ghost predicate Valid()
      reads this, entries
    {
      && entries.Length == CAPACITY && count <= CAPACITY && bytesUsed == TotalBytes(entries[..count])
      && ShortNames(entries[..count])
    }

    ghost function Contents(): seq<Entry>
      reads this, entries
      requires count <= entries.Length
    {
      entries[..count]
    }

    /** psirp_cs_init. */
    constructor ()
      ensures Valid() && fresh(entries) && Contents() == [] && maxBytes == 0
    {
      entries := new Entry[CAPACITY](_ => FREE_SLOT);
      count, maxBytes, bytesUsed := 0, 0, 0;
    }

    /** psirp_cs_set_budget. */
    method SetBudget(bytes: nat)
      requires Valid()
      modifies this`maxBytes
      ensures Valid() && maxBytes == bytes
    {
      maxBytes := bytes;
    }

    method FindEqual(n: Name) returns (i: nat)
      requires Valid()
      ensures i == FirstEqual(Contents(), n)
    {
      i := 0;
      while i < count && !NameEqual(entries[i].name, n)
        invariant i <= count
        invariant forall j :: 0 <= j < i ==> !NameEqual(entries[j].name, n)
      {
        i := i + 1;
      }
      FirstEqualUnique(Contents(), n, i);
    }

    /** free_entry, then the last entry moves into the hole. */
    method RemoveAt(i: nat)
      requires Valid() && i < count
      modifies this`count, this`bytesUsed, entries
      ensures Valid() && Contents() == SwapRemove(old(Contents()), i)
    {
      ghost var was := Contents();
      SizeWithinTotal(was, i);
      TotalSwapRemove(was, i);
      SwapRemoveShort(was, i);
      hide TotalBytes, SwapRemove, ShortNames;
      bytesUsed := bytesUsed - Size(entries[i].data);
      entries[i] := FREE_SLOT;
      if i < count - 1 { entries[i] := entries[count - 1]; }
      count := count - 1;
      assert Contents() == SwapRemove(was, i);
    }

    method FindLru() returns (lru: nat)
      requires Valid() && count > 0
      ensures lru == Lru(Contents(), count)
    {
      lru := 0;
      for i := 1 to count
        invariant lru == Lru(Contents(), i)
      {
        if entries[i].lastAccess < entries[lru].lastAccess { lru := i; }
      }
    }

    /** The eviction loop shared by store and gc. */
    method EvictToBudget() returns (evicted: nat)
      requires Valid()
      modifies this`count, this`bytesUsed, entries
      ensures Valid() && Contents() == Enforce(old(Contents()), maxBytes).survivors
      ensures evicted == old(count) - count
    {
      evicted := 0;
      hide TotalBytes, SwapRemove, ShortNames;
      if maxBytes == 0 { return; }
      while bytesUsed > maxBytes && count > 0
        invariant Valid() && maxBytes == old(maxBytes)
        invariant evicted == old(count) - count
        invariant Evict(Contents(), maxBytes).survivors == Evict(old(Contents()), maxBytes).survivors
        decreases count
      {
        var lru := FindLru();
        EvictStep(Contents(), maxBytes);
        hide Evict, SwapRemove;
        RemoveAt(lru);
        evicted := evicted + 1;
      }
    }

    /** psirp_cs_store. */
    method Store(n: Name, data: Content, freshnessMs: u32, now: u64) returns (ok: bool)
      requires Valid() && |n.components| <= MAX_COMPONENTS
      modifies this`count, this`bytesUsed, entries
      ensures Valid()
      ensures Stored(ok, Contents()) == StoreEntry(old(Contents()), maxBytes, n, data, freshnessMs, now)
    {
      if Size(data) == 0 || Size(data) > MAX_DATA { return false; }
      ghost var was := Contents();
      var i := FindEqual(n);
      if i < count {
        var e := Renewed(entries[i], data, freshnessMs, now);
        TotalUpdate(was, i, e);
        SizeWithinTotal(was, i);
        UpdateShort(was, i, e);
        hide TotalBytes, StoredName, Enforce, FirstEqual, ShortNames;
        bytesUsed := bytesUsed - Size(entries[i].data);
        entries[i] := e;
        bytesUsed := bytesUsed + Size(data);
        assert Contents() == was[i := e];
        return true;
      }
      if count >= CAPACITY { return false; }
      var rebuilt := InitComponents(n.components);
      var name := rebuilt.name.(version := n.version, hasVersion := n.hasVersion);
      var e := Entry(name, data, now, freshnessMs, now, 0);
      TotalAppend(was, e);
      RebuildShort(n.components);
      AppendShort(was, e);
      hide TotalBytes, Rebuild, Enforce, FirstEqual, ShortNames;
      entries[count] := e;
      bytesUsed := bytesUsed + Size(data);
      count := count + 1;
      assert Contents() == was + [NewEntry(n, data, freshnessMs, now)];
      var _ := EvictToBudget();
      ok := true;
    }

    /** The scan for an exact match of a versioned name. */
    method FindLive(n: Name, now: u64) returns (i: nat)
      requires Valid()
      ensures i == FirstLive(Contents(), n, now)
    {
      hide TotalBytes, Expired, ShortNames;
      i := 0;
      while i < count && (Expired(entries[i], now) || !NameEqual(entries[i].name, n))
        invariant i <= count
        invariant forall j :: 0 <= j < i ==> Expired(entries[j], now) || !NameEqual(entries[j].name, n)
      {
        i := i + 1;
      }
      FirstLiveUnique(Contents(), n, now, i);
    }

    /** The scan for the newest version of an unversioned name. */
    method FindNewest(n: Name, now: u64) returns (best: Option<nat>)
      requires Valid()
      ensures best == Newest(Contents(), count, n.components, now)
    {
      hide TotalBytes, Expired, ShortNames;
      best := None;
      for i := 0 to count
        invariant best == Newest(Contents(), i, n.components, now)
      {
        if Expired(entries[i], now) { continue; }
        if BaseEqual(entries[i].name, n) {
          if best == None || entries[i].name.version > entries[best.value].name.version {
            best := Some(i);
          }
        }
      }
    }

    /** The access record of one entry. */
    method TouchAt(i: nat, now: u64)
      requires Valid() && i < count
      modifies entries
      ensures Valid() && Contents() == Touch(old(Contents()), i, now)
    {
      ghost var es := Contents();
      var e := entries[i].(lastAccess := now, accessCount := entries[i].accessCount + 1);
      TotalUpdate(es, i, e);
      UpdateShort(es, i, e);
      hide TotalBytes, ShortNames;
      entries[i] := e;
      assert Contents() == es[i := e];
    }

    /** psirp_cs_lookup: the entry found, its access time and count updated. */
    method Lookup(n: Name, now: u64) returns (r: Option<Entry>)
      requires Valid()
      modifies entries
      ensures Valid() && Contents() == Looked(old(Contents()), n, now)
      ensures var k := Find(old(Contents()), n, now);
              r == if k.Some? then Some(Contents()[k.value]) else None
    {
      hide Newest, FirstLive, TotalBytes, ShortNames;
      var k;
      if n.hasVersion {
        k := FindLive(n, now);
        if k == count { return None; }
      } else {
        var best := FindNewest(n, now);
        if best == None { return None; }
        k := best.value;
      }
      TouchAt(k, now);
      r := Some(entries[k]);
    }

    /** psirp_cs_remove. */
    method Remove(n: Name) returns (ok: bool)
      requires Valid()
      modifies this`count, this`bytesUsed, entries
      ensures Valid() && Stored(ok, Contents()) == RemoveEntry(old(Contents()), n)
    {
      var i := FindEqual(n);
      if i == count { return false; }
      RemoveAt(i);
      ok := true;
    }

    /** psirp_cs_gc: the number of entries gone. */
    method Gc(now: u64) returns (evicted: nat)
      requires Valid()
      modifies this`count, this`bytesUsed, entries
      ensures Valid() && Contents() == Collect(old(Contents()), maxBytes, now).survivors
      ensures evicted == |old(Contents())| - |Contents()|
    {
      evicted := 0;
      ghost var was := Contents();
      var i := count;
      hide TotalBytes, Enforce, ShortNames;
      while i > 0
        invariant Valid() && 0 <= i <= count && maxBytes == old(maxBytes)
        invariant evicted == old(count) - count
        invariant Sweep(Contents(), i, now) == Sweep(was, |was|, now)
      {
        var idx := i - 1;
        SweepUnfolds(Contents(), i, now);
        hide Sweep, SwapRemove, Expired;
        if Expired(entries[idx], now) {
          RemoveAt(idx);
          evicted := evicted + 1;
        }
        i := i - 1;
      }
      var more := EvictToBudget();
      evicted := evicted + more;
    }
  }

  lemma FirstEqualUnique(es: seq<Entry>, n: Name, k: nat)
    requires k <= |es| && forall j :: 0 <= j < k ==> !NameEqual(es[j].name, n)
    requires k < |es| ==> NameEqual(es[k].name, n)
    ensures FirstEqual(es, n) == k
  {
  }

  lemma FirstLiveUnique(es: seq<Entry>, n: Name, now: u64, k: nat)
    requires k <= |es|
    requires forall j :: 0 <= j < k ==> Expired(es[j], now) || !NameEqual(es[j].name, n)
    requires k < |es| ==> !Expired(es[k], now) && NameEqual(es[k].name, n)
    ensures FirstLive(es, n, now) == k
  {
  }
}
