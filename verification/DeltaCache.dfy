/** The server's in-memory cache of deltas, keyed by base and target, with an index by target. */
module DeltaCaches {
  import opened Base

  const DELTA_CACHE_MAX_BYTES: nat := 64 * 1024 * 1024
  const DELTA_ENTRY_MAX_BYTES: nat := 16 * 1024 * 1024

  datatype Key = Key(base: string, target: string)

  datatype Deltas = Deltas(table: map<Key, Bytes>, byTarget: map<string, Key>, order: seq<Key>, totalBytes: int)

  const EMPTY: Deltas := Deltas(map[], map[], [], 0)

  // --- The effect of an insertion ---

  /** Forgets an entry, its place in the order and whatever the index has for its target. */
  function Remove(s: Deltas, key: Key): Deltas {
    if key !in s.table then s
    else Deltas(s.table - {key}, s.byTarget - {key.target}, Without(s.order, key), s.totalBytes - |s.table[key]|)
  }

  function EvictFor(s: Deltas, need: nat): Deltas
    decreases |s.order|
  {
    if s.totalBytes + need <= DELTA_CACHE_MAX_BYTES || s.order == [] then s
    else EvictFor(EvictOldest(s), need)
  }

  function EvictOldest(s: Deltas): (r: Deltas)
    requires s.order != []
    ensures r.order == s.order[1..]
  {
    var key, rest := s.order[0], s.order[1..];
    if key in s.table
    then Deltas(s.table - {key}, s.byTarget - {key.target}, rest, s.totalBytes - |s.table[key]|)
    else s.(order := rest)
  }

  function Append(s: Deltas, key: Key, delta: Bytes): Deltas {
    Deltas(s.table[key := delta], s.byTarget[key.target := key], s.order + [key], s.totalBytes + |delta|)
  }

  /** Too large a delta is ignored. */
  function Insert(s: Deltas, key: Key, delta: Bytes): Deltas {
    if |delta| > DELTA_ENTRY_MAX_BYTES then s
    else Append(EvictFor(Remove(s, key), |delta|), key, delta)
  }

  function Get(s: Deltas, key: Key): Option<Bytes> {
    if key in s.table then Some(s.table[key]) else None
  }

  function GetForTarget(s: Deltas, target: string): Option<Bytes> {
    if target in s.byTarget then Get(s, s.byTarget[target]) else None
  }

  // --- The cache ---

  class DeltaCache {
    var table: map<Key, Bytes>
    var byTarget: map<string, Key>
    var order: seq<Key>
    var totalBytes: int

    function Value(): Deltas
      reads this
    {
      Deltas(table, byTarget, order, totalBytes)
    }

    constructor ()
      ensures Value() == EMPTY
    {
      table, byTarget, order, totalBytes := map[], map[], [], 0;
    }

    method InsertDelta(baseHash: string, targetHash: string, delta: Bytes)
      requires Right(Value())
      modifies this
      ensures Value() == Insert(old(Value()), Key(baseHash, targetHash), delta) && Right(Value())
    {
      InsertKeepsRight(Value(), Key(baseHash, targetHash), delta);
      if |delta| > DELTA_ENTRY_MAX_BYTES {
        return;
      }
      var key := Key(baseHash, targetHash);
      RemoveExisting(key);
      MakeRoom(|delta|);
      totalBytes := totalBytes + |delta|;
      byTarget := byTarget[targetHash := key];
      order := order + [key];
      table := table[key := delta];
    }

    method RemoveExisting(key: Key)
      modifies this
      ensures Value() == Remove(old(Value()), key)
    {
      if key in table {
        totalBytes := totalBytes - |table[key]|;
        table := table - {key};
        byTarget := byTarget - {key.target};
        Retain(key);
      }
    }

    method Retain(key: Key)
      modifies this`order
      ensures order == Without(old(order), key)
    {
      var kept: seq<Key> := [];
      var i := 0;
      while i < |order|
        invariant 0 <= i <= |order| && order == old(order)
        invariant kept == Without(order[..i], key)
      {
        assert order[..i + 1] == order[..i] + [order[i]];
        WithoutSnoc(order[..i], order[i], key);
        if order[i] != key {
          kept := kept + [order[i]];
        }
        i := i + 1;
      }
      assert order[..i] == order;
      order := kept;
    }

    method MakeRoom(need: nat)
      modifies this
      ensures Value() == EvictFor(old(Value()), need)
    {
      while totalBytes + need > DELTA_CACHE_MAX_BYTES && order != []
        invariant EvictFor(Value(), need) == EvictFor(old(Value()), need)
        decreases |order|
      {
        var evictKey := order[0];
        order := order[1..];
        if evictKey in table {
          totalBytes := totalBytes - |table[evictKey]|;
          table := table - {evictKey};
          byTarget := byTarget - {evictKey.target};
        }
      }
    }

    method GetDelta(baseHash: string, targetHash: string) returns (r: Option<Bytes>)
      ensures r == Get(Value(), Key(baseHash, targetHash))
    {
      var key := Key(baseHash, targetHash);
      r := if key in table then Some(table[key]) else None;
    }

    method GetDeltaForTarget(targetHash: string) returns (r: Option<Bytes>)
      ensures r == GetForTarget(Value(), targetHash)
    {
      if targetHash !in byTarget {
        return None;
      }
      var key := byTarget[targetHash];
      r := if key in table then Some(table[key]) else None;
    }
  }

  // --- The invariant ---

  function SumOf(table: map<Key, Bytes>, order: seq<Key>): nat {
    if order == [] then 0
    else (if order[0] in table then |table[order[0]]| else 0) + SumOf(table, order[1..])
  }

  /** `k` is the last key of the order with its target. */
  ghost predicate Newest(order: seq<Key>, k: Key) {
    exists i :: 0 <= i < |order| && order[i] == k && forall j :: i < j < |order| ==> order[j].target != k.target
  }

  ghost predicate IndexRight(s: Deltas) {
    forall t :: t in s.byTarget ==> s.byTarget[t].target == t && Newest(s.order, s.byTarget[t])
  }

  /** The order lists the keys of the table once each, and the total is the sum of their sizes. */
  ghost predicate TableRight(s: Deltas) {
    && NoDuplicates(s.order)
    && (forall k :: k in s.order <==> k in s.table)
    && s.totalBytes == SumOf(s.table, s.order)
    && (forall k :: k in s.table ==> |s.table[k]| <= DELTA_ENTRY_MAX_BYTES)
  }

  ghost predicate Right(s: Deltas) {
    TableRight(s) && IndexRight(s) && s.totalBytes <= DELTA_CACHE_MAX_BYTES
  }

  lemma WithoutSnoc(order: seq<Key>, last: Key, key: Key)
    ensures Without(order + [last], key) == if last == key then Without(order, key) else Without(order, key) + [last]
  {
    WithoutAppend(order, [last], key);
    assert [last][1..] == [];
  }

  lemma {:induction false} SumOfSnoc(table: map<Key, Bytes>, order: seq<Key>, k: Key)
    ensures SumOf(table, order + [k]) == SumOf(table, order) + (if k in table then |table[k]| else 0)
    decreases |order|
  {
    if order == [] {
      assert [k][1..] == [];
    } else {
      assert (order + [k])[1..] == order[1..] + [k];
      SumOfSnoc(table, order[1..], k);
    }
  }

  lemma {:induction false} SumOfAgree(a: map<Key, Bytes>, b: map<Key, Bytes>, order: seq<Key>)
    requires forall k :: k in order ==> (k in a <==> k in b) && (k in a ==> a[k] == b[k])
    ensures SumOf(a, order) == SumOf(b, order)
    decreases |order|
  {
    if order != [] {
      SumOfAgree(a, b, order[1..]);
    }
  }

  lemma {:induction false} SumOfWithout(table: map<Key, Bytes>, order: seq<Key>, key: Key)
    requires NoDuplicates(order)
    ensures SumOf(table, order)
            == SumOf(table - {key}, Without(order, key)) + (if key in order && key in table then |table[key]| else 0)
    decreases |order|
  {
    if order != [] {
      var n := |order| - 1;
      assert order == order[..n] + [order[n]];
      WithoutSnoc(order[..n], order[n], key);
      SumOfWithout(table, order[..n], key);
      SumOfSnoc(table, order[..n], order[n]);
      SumOfSnoc(table - {key}, Without(order[..n], key), order[n]);
    }
  }

  lemma {:induction false} NewestWithout(order: seq<Key>, key: Key, k: Key)
    requires Newest(order, k) && k != key
    ensures Newest(Without(order, key), k)
    decreases |order|
  {
    var n := |order| - 1;
    var i :| 0 <= i < |order| && order[i] == k && forall j :: i < j < |order| ==> order[j].target != k.target;
    var init := Without(order[..n], key);
    assert order == order[..n] + [order[n]];
    WithoutSnoc(order[..n], order[n], key);
    if i == n {
      assert (init + [k])[|init|] == k;
    } else {
      assert order[..n][i] == k && forall j :: i < j < n ==> order[..n][j].target != k.target;
      NewestWithout(order[..n], key, k);
      NewestSnoc(init, k, order[n]);
    }
  }

  lemma NewestSnoc(order: seq<Key>, k: Key, last: Key)
    requires Newest(order, k) && last.target != k.target
    ensures Newest(order + [last], k)
  {
    var i :| 0 <= i < |order| && order[i] == k && forall j :: i < j < |order| ==> order[j].target != k.target;
    assert (order + [last])[i] == k;
  }

  lemma RemoveKeepsRight(s: Deltas, key: Key)
    requires Right(s)
    ensures Right(Remove(s, key)) && key !in Remove(s, key).table
  {
    if key in s.table {
      var r := Remove(s, key);
      WithoutKeepsDistinct(s.order, key);
      SumOfWithout(s.table, s.order, key);
      forall t | t in r.byTarget
        ensures r.byTarget[t].target == t && Newest(r.order, r.byTarget[t])
      {
        NewestWithout(s.order, key, s.byTarget[t]);
      }
    }
  }

  lemma EvictOldestKeepsTable(s: Deltas)
    requires TableRight(s) && s.order != []
    ensures TableRight(EvictOldest(s)) && s.order[0] in s.table
    ensures EvictOldest(s).totalBytes <= s.totalBytes
  {
    var r, key := EvictOldest(s), s.order[0];
    assert key in s.order && key !in r.order;
    SumOfAgree(s.table, r.table, r.order);
    assert forall k :: k in s.order <==> k == key || k in r.order;
  }

  lemma NewestInTail(order: seq<Key>, k: Key)
    requires order != [] && Newest(order, k) && k.target != order[0].target
    ensures Newest(order[1..], k)
  {
  }

  lemma EvictOldestKeepsRight(s: Deltas)
    requires TableRight(s) && IndexRight(s) && s.order != []
    ensures TableRight(EvictOldest(s)) && IndexRight(EvictOldest(s))
    ensures EvictOldest(s).table == s.table - {s.order[0]}
    ensures EvictOldest(s).totalBytes <= s.totalBytes
  {
    EvictOldestKeepsTable(s);
    forall t | t in EvictOldest(s).byTarget
      ensures Newest(EvictOldest(s).order, s.byTarget[t])
    {
      NewestInTail(s.order, s.byTarget[t]);
    }
  }

  lemma {:induction false} EvictForKeepsRight(s: Deltas, need: nat)
    requires TableRight(s) && IndexRight(s) && need <= DELTA_CACHE_MAX_BYTES
    ensures var r := EvictFor(s, need);
            && TableRight(r) && IndexRight(r) && r.totalBytes + need <= DELTA_CACHE_MAX_BYTES
            && r.table.Keys <= s.table.Keys && forall k :: k in r.table ==> r.table[k] == s.table[k]
    decreases |s.order|
  {
    if s.totalBytes + need > DELTA_CACHE_MAX_BYTES && s.order != [] {
      EvictOldestKeepsRight(s);
      EvictForKeepsRight(EvictOldest(s), need);
    }
  }

  lemma AppendKeepsRight(s: Deltas, key: Key, delta: Bytes)
    requires TableRight(s) && IndexRight(s) && key !in s.table && |delta| <= DELTA_ENTRY_MAX_BYTES
    requires s.totalBytes + |delta| <= DELTA_CACHE_MAX_BYTES
    ensures Right(Append(s, key, delta))
  {
    var r := Append(s, key, delta);
    SumOfAgree(s.table, r.table, s.order);
    SumOfSnoc(r.table, s.order, key);
    forall t | t in r.byTarget
      ensures r.byTarget[t].target == t && Newest(r.order, r.byTarget[t])
    {
      if t == key.target {
        assert r.order[|s.order|] == key;
      } else {
        NewestSnoc(s.order, s.byTarget[t], key);
      }
    }
  }

  lemma InsertKeepsRight(s: Deltas, key: Key, delta: Bytes)
    requires Right(s)
    ensures Right(Insert(s, key, delta))
  {
    if |delta| <= DELTA_ENTRY_MAX_BYTES {
      RemoveKeepsRight(s, key);
      EvictForKeepsRight(Remove(s, key), |delta|);
      AppendKeepsRight(EvictFor(Remove(s, key), |delta|), key, delta);
    }
  }
}
