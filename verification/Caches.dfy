/**
 * The tuples cache and the open files cache (src/rrdb/rrdb_metric_tuples_cache.cpp,
 * src/rrdb/rrdb_files_cache.cpp). The limit is a share of the maximum; where a CHECK_AND_THROW
 * guards the accounting there is an assert.
 */
module Caches {
  import opened Options
  import opened Tuples
  import opened Lru

  const TUPLE_SIZE := 48

  type Block = nat

  type BlockEntry = Entry<Block, array<Tuple>>

  /** t_rrdb_metric_tuples::get_memory_size */
  function MemorySize(a: array<Tuple>): nat { TUPLE_SIZE * a.Length }

  function Total(es: seq<BlockEntry>): nat {
    if es == [] then 0 else MemorySize(es[0].value) + Total(es[1..])
  }

  lemma {:induction false} TotalAppend(a: seq<BlockEntry>, b: seq<BlockEntry>)
    ensures Total(a + b) == Total(a) + Total(b)
  {
    if a == [] {
      assert a + b == b;
    } else {
      assert (a + b)[1..] == a[1..] + b;
      TotalAppend(a[1..], b);
    }
  }

  /** The total depends on the entries, not on their order or access times. */
  lemma {:induction false} TotalInserted(es: seq<BlockEntry>, e: BlockEntry)
    ensures Total(Inserted(es, e)) == Total(es) + MemorySize(e.value)
  {
    var p := UpperBound(es, e.time);
    TotalAppend(es[..p] + [e], es[p..]);
    TotalAppend(es[..p], [e]);
    TotalAppend(es[..p], es[p..]);
    assert es[..p] + es[p..] == es;
  }

  lemma {:induction false} TotalRemoved(es: seq<BlockEntry>, i: nat)
    requires i < |es|
    ensures Total(es) == Total(RemovedAt(es, i)) + MemorySize(es[i].value)
  {
    TotalAppend(es[..i], es[i..]);
    TotalAppend(es[..i], es[i + 1..]);
    assert es[..i] + es[i..] == es;
    assert es[i..][1..] == es[i + 1..];
  }

  lemma {:induction false} TotalTouched(es: seq<BlockEntry>, i: nat, t: int)
    requires i < |es|
    ensures Total(Touched(es, i, t)) == Total(es)
  {
    var e := es[i].(time := t);
    TotalRemoved(es, i);
    TotalInserted(RemovedAt(es, i), e);
    TotalRemoved(es[i := e], i);
    assert RemovedAt(es[i := e], i) == RemovedAt(es, i);
  }

  /** my::memory_size_t purge_limit = max * threshold */
  function Limit(max: nat, threshold: real): (r: nat)
    requires 0.0 <= threshold <= 1.0
    ensures r <= max
    ensures r as real <= max as real * threshold < r as real + 1.0
  {
    ShareOf(max as real, threshold);
    (max as real * threshold).Floor
  }

  lemma {:induction false} ShareOf(x: real, threshold: real)
    requires 0.0 <= threshold <= 1.0 && 0.0 <= x
    ensures 0.0 <= x * threshold <= x
  {
    assert 0.0 <= x * (1.0 - threshold) == x - x * threshold;
  }

  /** Being below the limit means that one more would still not exceed the share of the maximum. */
  lemma {:induction false} BelowLimit(n: nat, max: nat, threshold: real)
    requires 0.0 <= threshold <= 1.0
    ensures n < Limit(max, threshold) <==> n as real + 1.0 <= max as real * threshold
  {
    var r, x := Limit(max, threshold), max as real * threshold;
    assert n < r ==> n as real + 1.0 <= r as real;
    assert r <= n ==> r as real <= n as real;
  }

  class TuplesCache {
    const lru: LruCache<Block, array<Tuple>>
    var maxUsedMemory: nat
    var threshold: real
    var usedMemory: nat

    /** The accounting invariant. */
    ghost predicate Valid()
      reads this, lru
    {
      lru.Valid() && 0.0 <= threshold <= 1.0 && usedMemory == Total(lru.entries)
    }

    constructor (maxUsedMemory: nat, threshold: real)
      requires 0.0 <= threshold <= 1.0
      ensures Valid() && fresh(lru) && lru.entries == []
      ensures this.maxUsedMemory == maxUsedMemory && this.threshold == threshold
    {
      this.maxUsedMemory, this.threshold, usedMemory := maxUsedMemory, threshold, 0;
      lru := new LruCache();
    }

    /** Drops the oldest entries, and no more than needed to get below the limit. */
    method Purge() returns (dropped: nat)
      requires Valid()
      modifies this`usedMemory, lru
      ensures Valid() && dropped <= |old(lru.entries)| && lru.entries == old(lru.entries)[dropped..]
      ensures lru.entries == [] || usedMemory as real + 1.0 <= maxUsedMemory as real * threshold
      ensures dropped > 0 ==>
                maxUsedMemory as real * threshold < Total(old(lru.entries)[dropped - 1..]) as real + 1.0
      ensures lru.entries == [] || usedMemory < Limit(maxUsedMemory, threshold)
      ensures dropped > 0 ==> Total(old(lru.entries)[dropped - 1..]) >= Limit(maxUsedMemory, threshold)
      ensures forall i, j :: 0 <= i < dropped <= j < |old(lru.entries)| ==>
              old(lru.entries)[i].time <= old(lru.entries)[j].time
    {
      dropped := 0;
      var limit := Limit(maxUsedMemory, threshold);
      while lru.entries != [] && usedMemory >= limit
        invariant Valid() && dropped <= |old(lru.entries)| && lru.entries == old(lru.entries)[dropped..]
        invariant dropped > 0 ==> Total(old(lru.entries)[dropped - 1..]) >= limit
        decreases |lru.entries|
      {
        var size := MemorySize(lru.entries[0].value);
        assert usedMemory >= size;
        usedMemory := usedMemory - size;
        lru.EraseOldest();
        dropped := dropped + 1;
      }
      BelowLimit(usedMemory, maxUsedMemory, threshold);
      if dropped > 0 {
        BelowLimit(Total(old(lru.entries)[dropped - 1..]), maxUsedMemory, threshold);
      }
    }

    method Find(block: Block, ts: int) returns (r: Option<array<Tuple>>)
      requires Valid()
      modifies lru
      ensures Valid() && r == Lookup(old(lru.entries), block) == Lookup(lru.entries, block)
      ensures Others(lru.entries, block) == Others(old(lru.entries), block)
    {
      if Has(lru.entries, block) {
        TotalTouched(lru.entries, IndexOf(lru.entries, block), ts);
      }
      r := lru.Find(block, ts);
    }

    method NotifyUsed(block: Block, ts: int)
      requires Valid()
      modifies lru
      ensures Valid() && Lookup(lru.entries, block) == Lookup(old(lru.entries), block)
      ensures Others(lru.entries, block) == Others(old(lru.entries), block)
    {
      if Has(lru.entries, block) {
        TotalTouched(lru.entries, IndexOf(lru.entries, block), ts);
      }
      lru.Use(block, ts);
    }

    /**
     * The entries are the newest of the old ones, and the block with its tuples unless it was still there with
     * others.
     */
    method Insert(block: Block, tuples: array<Tuple>, ts: int) returns (dropped: nat)
      requires Valid()
      modifies this`usedMemory, lru
      ensures Valid() && dropped <= |old(lru.entries)|
      ensures dropped > 0 ==> old(usedMemory) + MemorySize(tuples) >= maxUsedMemory
                              && Total(old(lru.entries)[dropped - 1..]) >= Limit(maxUsedMemory, threshold)
      ensures lru.entries == if Has(old(lru.entries)[dropped..], block) then old(lru.entries)[dropped..]
                             else Inserted(old(lru.entries)[dropped..], Entry(block, tuples, ts))
      ensures usedMemory < maxUsedMemory || |lru.entries| <= 1
              || usedMemory < Limit(maxUsedMemory, threshold) + MemorySize(tuples)
    {
      var size := MemorySize(tuples);
      dropped := 0;
      if usedMemory + size >= maxUsedMemory {
        dropped := Purge();
      }
      ghost var kept := lru.entries;
      TotalInserted(kept, Entry(block, tuples, ts));
      var ok := lru.Insert(block, tuples, ts);
      if ok {
        usedMemory := usedMemory + size;
      }
    }

    method Erase(block: Block)
      requires Valid()
      modifies this`usedMemory, lru
      ensures Valid() && lru.entries == Others(old(lru.entries), block) && !Has(lru.entries, block)
    {
      if Has(lru.entries, block) {
        TotalRemoved(lru.entries, IndexOf(lru.entries, block));
      }
      var r := lru.Erase(block);
      if r.Some? {
        assert usedMemory >= MemorySize(r.value);
        usedMemory := usedMemory - MemorySize(r.value);
      }
    }

    method Clear()
      requires Valid()
      modifies this`usedMemory, lru
      ensures Valid() && lru.entries == []
    {
      lru.Clear();
      usedMemory := 0;
    }

    /** A lower maximum takes effect only with the next insert. */
    method SetMaxUsedMemory(max: nat) returns (dropped: nat)
      requires Valid()
      modifies this`usedMemory, this`maxUsedMemory, lru
      ensures Valid() && maxUsedMemory == max && dropped <= |old(lru.entries)|
      ensures lru.entries == old(lru.entries)[dropped..]
      ensures max <= old(maxUsedMemory) ==> dropped == 0
      ensures old(maxUsedMemory) < max ==> lru.entries == [] || usedMemory < Limit(max, threshold)
    {
      dropped := 0;
      if maxUsedMemory < max {
        maxUsedMemory := max;
        dropped := Purge();
      } else {
        maxUsedMemory := max;
      }
    }
  }

  /** The open streams, by file name. */
  class FilesCache {
    const lru: LruCache<string, nat>
    var maxSize: nat
    var threshold: real

    ghost predicate Valid()
      reads this, lru
    {
      lru.Valid() && maxSize > 0 && 0.0 <= threshold <= 1.0
    }

    constructor (maxSize: nat, threshold: real)
      requires maxSize > 0 && 0.0 <= threshold <= 1.0
      ensures Valid() && fresh(lru) && lru.entries == []
      ensures this.maxSize == maxSize && this.threshold == threshold
    {
      this.maxSize, this.threshold := maxSize, threshold;
      lru := new LruCache();
    }

    method Purge() returns (dropped: nat)
      requires Valid()
      modifies lru
      ensures Valid() && dropped <= |old(lru.entries)| && lru.entries == old(lru.entries)[dropped..]
      ensures lru.entries == [] || |lru.entries| as real + 1.0 <= maxSize as real * threshold
      ensures dropped > 0 ==> maxSize as real * threshold < (|lru.entries| + 1) as real + 1.0
      ensures lru.entries == [] || |lru.entries| < Limit(maxSize, threshold)
      ensures dropped > 0 ==> |lru.entries| + 1 >= Limit(maxSize, threshold)
      ensures forall i, j :: 0 <= i < dropped <= j < |old(lru.entries)| ==>
              old(lru.entries)[i].time <= old(lru.entries)[j].time
    {
      dropped := 0;
      var limit := Limit(maxSize, threshold);
      while lru.entries != [] && lru.size >= limit
        invariant Valid() && dropped <= |old(lru.entries)| && lru.entries == old(lru.entries)[dropped..]
        invariant dropped > 0 ==> |lru.entries| + 1 >= limit
        decreases |lru.entries|
      {
        lru.EraseOldest();
        dropped := dropped + 1;
      }
      BelowLimit(|lru.entries|, maxSize, threshold);
      BelowLimit(|lru.entries| + 1, maxSize, threshold);
    }

    /**
     * A known file gives its stream; otherwise the file is opened, where stream is the result if
     * that succeeds, and afterwards the cache is within its maximum, whatever its size was.
     */
    method OpenFile(name: string, ts: int, stream: Option<nat>) returns (r: Option<nat>, dropped: nat)
      requires Valid()
      modifies lru
      ensures Valid()
      ensures Has(old(lru.entries), name) ==>
                r == Lookup(old(lru.entries), name) && Others(lru.entries, name) == Others(old(lru.entries), name)
      ensures !Has(old(lru.entries), name) ==> r == stream && (stream == None ==> lru.entries == old(lru.entries))
      ensures !Has(old(lru.entries), name) && r.Some? ==>
                && dropped <= |old(lru.entries)| && (dropped > 0 ==> |old(lru.entries)| >= maxSize)
                && lru.entries == Inserted(old(lru.entries)[dropped..], Entry(name, r.value, ts))
      ensures !Has(old(lru.entries), name) && r.Some? ==> |lru.entries| <= maxSize
      ensures r.Some? ==> Lookup(lru.entries, name) == r
    {
      dropped := 0;
      r := lru.Find(name, ts);
      if r.Some? {
        return;
      }
      assert Others(lru.entries, name) == lru.entries;
      r := stream;
      if r.Some? {
        if lru.size >= maxSize {
          dropped := Purge();
        }
        assert !Has(lru.entries, name);
        var ok := lru.Insert(name, r.value, ts);
      }
    }

    method DeleteFile(name: string)
      requires Valid()
      modifies lru
      ensures Valid() && lru.entries == Others(old(lru.entries), name) && !Has(lru.entries, name)
    {
      var r := lru.Erase(name);
    }

    method SetMaxSize(max: nat) returns (dropped: nat)
      requires Valid() && max > 0
      modifies this`maxSize, lru
      ensures Valid() && maxSize == max && dropped <= |old(lru.entries)|
      ensures lru.entries == old(lru.entries)[dropped..]
      ensures max <= old(maxSize) ==> dropped == 0
      ensures old(maxSize) < max ==> lru.entries == [] || |lru.entries| < Limit(max, threshold)
    {
      dropped := 0;
      if maxSize < max {
        maxSize := max;
        dropped := Purge();
      } else {
        maxSize := max;
      }
    }
  }
}
