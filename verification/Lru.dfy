/**
 * The least-recently-used cache (src/common/lru_cache.h): one container with an index by key,
 * which is unique, and an index by access time, which is not. entries is the container in the
 * order of the time index.
 */
module Lru {
  import opened Options

  datatype Entry<+K, +V> = Entry(key: K, value: V, time: int)

  predicate Sorted<K, V>(es: seq<Entry<K, V>>) {
    forall i, j :: 0 <= i < j < |es| ==> es[i].time <= es[j].time
  }

  predicate Unique<K(==), V>(es: seq<Entry<K, V>>) {
    forall i, j :: 0 <= i < j < |es| ==> es[i].key != es[j].key
  }

  /** Where the key is; |es| if it is not there. */
  function IndexOf<K(==), V>(es: seq<Entry<K, V>>, k: K): (r: nat)
    ensures r <= |es| && (r < |es| ==> es[r].key == k)
    ensures forall i :: 0 <= i < r ==> es[i].key != k
  {
    if es == [] then 0
    else
      var r := IndexOf(es[..|es| - 1], k);
      if r < |es| - 1 then r else if es[|es| - 1].key == k then |es| - 1 else |es|
  }

  predicate Has<K(==), V>(es: seq<Entry<K, V>>, k: K) { IndexOf(es, k) < |es| }

  function Lookup<K(==), V>(es: seq<Entry<K, V>>, k: K): Option<V> {
    if Has(es, k) then Some(es[IndexOf(es, k)].value) else None
  }

  /** Behind all entries with the same time. */
  function UpperBound<K, V>(es: seq<Entry<K, V>>, t: int): (r: nat)
    ensures r <= |es| && (r > 0 ==> es[r - 1].time <= t)
    ensures forall i :: r <= i < |es| ==> t < es[i].time
  {
    if es == [] then 0
    else if es[|es| - 1].time <= t then |es| else UpperBound(es[..|es| - 1], t)
  }

  function Inserted<K, V>(es: seq<Entry<K, V>>, e: Entry<K, V>): seq<Entry<K, V>> {
    var p := UpperBound(es, e.time);
    es[..p] + [e] + es[p..]
  }

  function RemovedAt<K, V>(es: seq<Entry<K, V>>, i: nat): (r: seq<Entry<K, V>>)
    requires i < |es|
    ensures |r| == |es| - 1
  {
    es[..i] + es[i + 1..]
  }

  /** modify of the time: an entry that is still in order stays where it is among equals. */
  function Touched<K, V>(es: seq<Entry<K, V>>, i: nat, t: int): seq<Entry<K, V>>
    requires i < |es|
  {
    var e := es[i].(time := t);
    if (i > 0 ==> es[i - 1].time <= t) && (i + 1 < |es| ==> t <= es[i + 1].time) then es[i := e]
    else Inserted(RemovedAt(es, i), e)
  }

  /** The entries of all other keys, in order. */
  function Others<K(==), V>(es: seq<Entry<K, V>>, k: K): seq<Entry<K, V>> {
    if Has(es, k) then RemovedAt(es, IndexOf(es, k)) else es
  }

  lemma {:induction false} IndexIs<K, V>(es: seq<Entry<K, V>>, i: nat)
    requires Unique(es) && i < |es|
    ensures IndexOf(es, es[i].key) == i
  {
  }

  lemma {:induction false} InsertedOrdered<K, V>(es: seq<Entry<K, V>>, e: Entry<K, V>)
    requires Sorted(es) && Unique(es) && !Has(es, e.key)
    ensures Sorted(Inserted(es, e)) && Unique(Inserted(es, e))
    ensures Has(Inserted(es, e), e.key) && Inserted(es, e)[IndexOf(Inserted(es, e), e.key)] == e
    ensures Others(Inserted(es, e), e.key) == es
  {
    var p, r := UpperBound(es, e.time), Inserted(es, e);
    InsertedSorted(es, e);
    InsertedUnique(es, p, e);
    assert r[p] == e;
    IndexIs(r, p);
    assert RemovedAt(r, p) == es;
  }

  lemma {:induction false} InsertedSorted<K, V>(es: seq<Entry<K, V>>, e: Entry<K, V>)
    requires Sorted(es)
    ensures Sorted(Inserted(es, e))
  {
    var p, r := UpperBound(es, e.time), Inserted(es, e);
    forall i, j | 0 <= i < j < |r|
      ensures r[i].time <= r[j].time
    {
      assert r[i] == if i < p then es[i] else if i == p then e else es[i - 1];
      assert r[j] == if j < p then es[j] else if j == p then e else es[j - 1];
    }
  }

  lemma {:induction false} InsertedUnique<K, V>(es: seq<Entry<K, V>>, p: nat, e: Entry<K, V>)
    requires Unique(es) && !Has(es, e.key) && p <= |es|
    ensures Unique(es[..p] + [e] + es[p..])
  {
    var r := es[..p] + [e] + es[p..];
    assert forall i :: 0 <= i < |es| ==> es[i].key != e.key;
    assert forall i :: 0 <= i < |r| ==> r[i] == if i < p then es[i] else if i == p then e else es[i - 1];
  }

  lemma {:induction false} RemovedOrdered<K, V>(es: seq<Entry<K, V>>, i: nat)
    requires Sorted(es) && Unique(es) && i < |es|
    ensures Sorted(RemovedAt(es, i)) && Unique(RemovedAt(es, i)) && !Has(RemovedAt(es, i), es[i].key)
  {
  }

  lemma {:induction false} TouchedOrdered<K, V>(es: seq<Entry<K, V>>, i: nat, t: int)
    requires Sorted(es) && Unique(es) && i < |es|
    ensures Sorted(Touched(es, i, t)) && Unique(Touched(es, i, t))
    ensures Has(Touched(es, i, t), es[i].key)
    ensures Touched(es, i, t)[IndexOf(Touched(es, i, t), es[i].key)] == es[i].(time := t)
    ensures Others(Touched(es, i, t), es[i].key) == Others(es, es[i].key)
  {
    var e := es[i].(time := t);
    IndexIs(es, i);
    RemovedOrdered(es, i);
    if (i > 0 ==> es[i - 1].time <= t) && (i + 1 < |es| ==> t <= es[i + 1].time) {
      var r := es[i := e];
      assert Unique(r);
      IndexIs(r, i);
      assert RemovedAt(r, i) == RemovedAt(es, i);
    } else {
      InsertedOrdered(RemovedAt(es, i), e);
    }
  }

  /** What is known of one key, from the entry of another and the rest. */
  lemma {:induction false} LookupOther<K, V>(es: seq<Entry<K, V>>, k: K, j: K)
    requires Unique(es) && j != k
    ensures Lookup(es, j) == Lookup(Others(es, k), j)
  {
    var i := IndexOf(es, k);
    if i < |es| {
      var r := RemovedAt(es, i);
      var n := IndexOf(es, j);
      assert Unique(r);
      if n < |es| {
        IndexIs(r, if n < i then n else n - 1);
      }
    }
  }

  /** What was used last, at the latest time so far, is dropped last. */
  lemma {:induction false} LatestIsLast<K, V>(es: seq<Entry<K, V>>, i: nat, t: int)
    requires Sorted(es) && Unique(es) && i < |es| && forall j :: 0 <= j < |es| ==> es[j].time < t
    ensures Touched(es, i, t) == Others(es, es[i].key) + [es[i].(time := t)]
  {
  }

  class LruCache<K(==), V> {
    var entries: seq<Entry<K, V>>
    var size: nat
    var hits: nat
    var misses: nat

    predicate Valid()
      reads this
    {
      Sorted(entries) && Unique(entries) && size == |entries|
    }

    constructor ()
      ensures Valid() && entries == [] && hits == misses == 0
    {
      entries, size, hits, misses := [], 0, 0, 0;
    }

    /** A key that is there keeps its value. */
    method Insert(k: K, v: V, t: int) returns (ok: bool)
      requires Valid()
      modifies this`entries, this`size
      ensures Valid() && ok == !Has(old(entries), k)
      ensures entries == if ok then Inserted(old(entries), Entry(k, v, t)) else old(entries)
      ensures ok ==> Lookup(entries, k) == Some(v) && Others(entries, k) == old(entries)
    {
      ok := IndexOf(entries, k) == |entries|;
      if ok {
        InsertedOrdered(entries, Entry(k, v, t));
        entries := Inserted(entries, Entry(k, v, t));
        size := size + 1;
      }
    }

    method Find(k: K, t: int) returns (r: Option<V>)
      requires Valid()
      modifies this`entries, this`hits, this`misses
      ensures Valid() && r == Lookup(old(entries), k)
      ensures entries == if r == None then old(entries) else Touched(old(entries), IndexOf(old(entries), k), t)
      ensures Others(entries, k) == Others(old(entries), k) && Lookup(entries, k) == r
      ensures hits == old(hits) + (if r == None then 0 else 1) && misses == old(misses) + (if r == None then 1 else 0)
    {
      var i := IndexOf(entries, k);
      if i < |entries| {
        r := Some(entries[i].value);
        TouchedOrdered(entries, i, t);
        entries := Touched(entries, i, t);
        hits := hits + 1;
      } else {
        r := None;
        misses := misses + 1;
      }
    }

    method Use(k: K, t: int)
      requires Valid()
      modifies this`entries
      ensures Valid()
      ensures entries == if Has(old(entries), k) then Touched(old(entries), IndexOf(old(entries), k), t)
              else old(entries)
      ensures Others(entries, k) == Others(old(entries), k) && Lookup(entries, k) == Lookup(old(entries), k)
    {
      var i := IndexOf(entries, k);
      if i < |entries| {
        TouchedOrdered(entries, i, t);
        entries := Touched(entries, i, t);
      }
    }

    method Erase(k: K) returns (r: Option<V>)
      requires Valid()
      modifies this`entries, this`size
      ensures Valid() && r == Lookup(old(entries), k)
      ensures entries == Others(old(entries), k) && !Has(entries, k)
    {
      var i := IndexOf(entries, k);
      if i < |entries| {
        r := Some(entries[i].value);
        RemovedOrdered(entries, i);
        entries := RemovedAt(entries, i);
        size := size - 1;
      } else {
        r := None;
      }
    }

    /** lru_erase(lru_begin()) */
    method EraseOldest()
      requires Valid() && entries != []
      modifies this`entries, this`size
      ensures Valid() && entries == old(entries)[1..]
    {
      RemovedOrdered(entries, 0);
      assert RemovedAt(entries, 0) == entries[1..];
      entries := entries[1..];
      size := size - 1;
    }

    method Clear()
      modifies this
      ensures Valid() && entries == [] && hits == misses == 0
    {
      entries, size, hits, misses := [], 0, 0, 0;
    }
  }
}
