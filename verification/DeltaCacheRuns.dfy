/** What the delta cache answers after any sequence of insertions. */
module DeltaCacheRuns {
  import opened Base
  import opened DeltaCaches

  datatype Insertion = Insertion(key: Key, delta: Bytes)

  function RunInserts(log: seq<Insertion>): Deltas {
    if log == [] then EMPTY
    else
      var n := |log| - 1;
      Insert(RunInserts(log[..n]), log[n].key, log[n].delta)
  }

  predicate Accepted(ins: Insertion) { |ins.delta| <= DELTA_ENTRY_MAX_BYTES }

  /** Insertion `i` is the most recent accepted one for target `t`. */
  ghost predicate LatestFor(log: seq<Insertion>, t: string, i: nat) {
    && i < |log| && Accepted(log[i]) && log[i].key.target == t
    && forall j :: i < j < |log| ==> !(Accepted(log[j]) && log[j].key.target == t)
  }

  /** Insertion `i` is the most recent accepted one for key `k`. */
  ghost predicate LatestOf(log: seq<Insertion>, k: Key, i: nat) {
    && i < |log| && Accepted(log[i]) && log[i].key == k
    && forall j :: i < j < |log| ==> !(Accepted(log[j]) && log[j].key == k)
  }

  lemma {:induction false} RunIsRight(log: seq<Insertion>)
    ensures Right(RunInserts(log))
    decreases |log|
  {
    if log != [] {
      var n := |log| - 1;
      RunIsRight(log[..n]);
      InsertKeepsRight(RunInserts(log[..n]), log[n].key, log[n].delta);
    }
  }

  // --- What is found is the most recent ---

  /** Eviction keeps what it keeps unchanged and adds nothing. */
  lemma {:induction false} EvictForKeepsRest(s: Deltas, need: nat)
    ensures var r := EvictFor(s, need);
            && (forall k :: k in r.table ==> k in s.table && r.table[k] == s.table[k])
            && (forall t :: t in r.byTarget ==> t in s.byTarget && r.byTarget[t] == s.byTarget[t])
    decreases |s.order|
  {
    if s.totalBytes + need > DELTA_CACHE_MAX_BYTES && s.order != [] {
      EvictForKeepsRest(EvictOldest(s), need);
    }
  }

  lemma InsertKeepsRest(s: Deltas, key: Key, delta: Bytes)
    requires |delta| <= DELTA_ENTRY_MAX_BYTES
    ensures var r := Insert(s, key, delta);
            && (forall k :: k in r.table && k != key ==> k in s.table && r.table[k] == s.table[k])
            && (forall t :: t in r.byTarget && t != key.target ==> t in s.byTarget && r.byTarget[t] == s.byTarget[t])
            && key in r.table && r.table[key] == delta
            && key.target in r.byTarget && r.byTarget[key.target] == key
  {
    EvictForKeepsRest(Remove(s, key), |delta|);
  }

  /** A cached delta is the one most recently inserted for its key. */
  lemma {:induction false} CachedIsLatest(log: seq<Insertion>, k: Key) returns (i: nat)
    requires k in RunInserts(log).table
    ensures LatestOf(log, k, i) && RunInserts(log).table[k] == log[i].delta
    decreases |log|
  {
    var n := |log| - 1;
    if Accepted(log[n]) {
      InsertKeepsRest(RunInserts(log[..n]), log[n].key, log[n].delta);
    }
    if Accepted(log[n]) && log[n].key == k {
      i := n;
    } else {
      i := CachedIsLatest(log[..n], k);
    }
  }

  /** The index names the key most recently inserted for a target. */
  lemma {:induction false} IndexedIsLatest(log: seq<Insertion>, t: string) returns (i: nat)
    requires t in RunInserts(log).byTarget
    ensures LatestFor(log, t, i) && RunInserts(log).byTarget[t] == log[i].key
    decreases |log|
  {
    var n := |log| - 1;
    if Accepted(log[n]) {
      InsertKeepsRest(RunInserts(log[..n]), log[n].key, log[n].delta);
    }
    if Accepted(log[n]) && log[n].key.target == t {
      i := n;
    } else {
      i := IndexedIsLatest(log[..n], t);
    }
  }

  /** Whatever is found for a target is the delta most recently inserted for it. */
  lemma FoundForTargetIsLatest(log: seq<Insertion>, t: string) returns (i: nat)
    requires GetForTarget(RunInserts(log), t).Some?
    ensures LatestFor(log, t, i) && GetForTarget(RunInserts(log), t) == Some(log[i].delta)
  {
    i := IndexedIsLatest(log, t);
    var k := CachedIsLatest(log, log[i].key);
  }

  // --- When something is found ---

  function KeysFor(s: Deltas, t: string): set<Key> { set k | k in s.table && k.target == t }

  lemma {:induction false} EvictForForgets(s: Deltas, need: nat, t: string)
    requires TableRight(s)
    ensures var r := EvictFor(s, need);
            && KeysFor(r, t) <= KeysFor(s, t)
            && (t in r.byTarget <==> t in s.byTarget && KeysFor(r, t) == KeysFor(s, t))
    decreases |s.order|
  {
    if s.totalBytes + need > DELTA_CACHE_MAX_BYTES && s.order != [] {
      EvictOldestKeepsTable(s);
      var r := EvictOldest(s);
      EvictForForgets(r, need, t);
      if s.order[0].target == t {
        assert s.order[0] in KeysFor(s, t) && s.order[0] !in KeysFor(r, t);
      } else {
        assert KeysFor(r, t) == KeysFor(s, t);
      }
    }
  }

  /** An insertion for another target can only evict, and evicting any entry for `t` unindexes `t`. */
  lemma InsertForgets(s: Deltas, key: Key, delta: Bytes, t: string)
    requires Right(s) && key.target != t
    ensures var r := Insert(s, key, delta);
            && KeysFor(r, t) <= KeysFor(s, t)
            && (t in r.byTarget <==> t in s.byTarget && KeysFor(r, t) == KeysFor(s, t))
  {
    if |delta| <= DELTA_ENTRY_MAX_BYTES {
      var s1 := Remove(s, key);
      RemoveKeepsRight(s, key);
      assert KeysFor(s1, t) == KeysFor(s, t);
      EvictForForgets(s1, |delta|, t);
      var s2 := EvictFor(s1, |delta|);
      assert KeysFor(Append(s2, key, delta), t) == KeysFor(s2, t);
    }
  }

  /** A target is found exactly while every entry cached for it when its latest delta was inserted
      is still cached: losing an older one is enough to lose the target. */
  lemma {:induction false} FoundIffNothingEvicted(log: seq<Insertion>, t: string, i: nat)
    requires LatestFor(log, t, i)
    ensures KeysFor(RunInserts(log), t) <= KeysFor(RunInserts(log[..i + 1]), t)
    ensures GetForTarget(RunInserts(log), t).Some?
            <==> KeysFor(RunInserts(log), t) == KeysFor(RunInserts(log[..i + 1]), t)
    decreases |log|
  {
    var n := |log| - 1;
    RunIsRight(log);
    if i == n {
      assert log[..i + 1] == log && log[..n + 1][..n] == log[..n];
      InsertKeepsRest(RunInserts(log[..n]), log[n].key, log[n].delta);
    } else {
      assert log[..n][..i + 1] == log[..i + 1];
      FoundIffNothingEvicted(log[..n], t, i);
      RunIsRight(log[..n]);
      IndexedIsCached(RunInserts(log), t);
      IndexedIsCached(RunInserts(log[..n]), t);
      if Accepted(log[n]) {
        InsertForgets(RunInserts(log[..n]), log[n].key, log[n].delta, t);
      }
    }
  }

  lemma IndexedIsCached(s: Deltas, t: string)
    requires Right(s)
    ensures GetForTarget(s, t).Some? <==> t in s.byTarget
  {
  }

  const A := Key("a", "t")
  const B := Key("b", "t")
  const C := Key("c", "u")
  const E := Key("e", "v")
  const F := Key("f", "w")

  /** Four of the largest deltas fill the cache. */
  lemma FourFillTheCache(d: Bytes)
    requires |d| == DELTA_ENTRY_MAX_BYTES
    ensures var s := RunInserts([Insertion(A, d), Insertion(B, d), Insertion(C, d), Insertion(E, d)]);
            && s.order == [A, B, C, E] && s.totalBytes == DELTA_CACHE_MAX_BYTES
            && A in s.table && s.table[A] == d && B in s.table && s.table[B] == d
  {
    var log := [Insertion(A, d), Insertion(B, d), Insertion(C, d), Insertion(E, d)];
    assert log[..0] == [];
    RoomForOneMore(log, 0);
    RoomForOneMore(log, 1);
    RoomForOneMore(log, 2);
    RoomForOneMore(log, 3);
    assert log[..4] == log;
  }

  /** An insertion under a new key that fits is appended. */
  lemma RoomForOneMore(log: seq<Insertion>, n: nat)
    requires n < |log| && Accepted(log[n]) && log[n].key !in RunInserts(log[..n]).table
    requires RunInserts(log[..n]).totalBytes + |log[n].delta| <= DELTA_CACHE_MAX_BYTES
    ensures RunInserts(log[..n + 1]) == Append(RunInserts(log[..n]), log[n].key, log[n].delta)
  {
    assert log[..n + 1][..n] == log[..n];
  }

  /** Two deltas for "t", then enough others to evict the older: "t" is not found although the newer
      delta is still cached. */
  lemma EvictingOneLosesTheTarget(d: Bytes)
    requires |d| == DELTA_ENTRY_MAX_BYTES
    ensures var log := [Insertion(A, d), Insertion(B, d), Insertion(C, d), Insertion(E, d), Insertion(F, d[..1])];
            && GetForTarget(RunInserts(log), "t") == None
            && Get(RunInserts(log), B) == Some(d)
  {
    var log := [Insertion(A, d), Insertion(B, d), Insertion(C, d), Insertion(E, d), Insertion(F, d[..1])];
    FourFillTheCache(d);
    RunIsRight(log[..4]);
    assert log[..4] == [Insertion(A, d), Insertion(B, d), Insertion(C, d), Insertion(E, d)];
    var s := RunInserts(log[..4]);
    assert F !in s.order;
    assert EvictFor(s, 1) == EvictOldest(s);
  }
}
