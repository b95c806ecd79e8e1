/** Which deltas are still cached, told from the insertions alone. */
module DeltaCacheFits {
  import opened Base
  import opened DeltaCaches
  import opened DeltaCacheRuns

  /** A cache that never evicts. */
  function RunUnlimited(log: seq<Insertion>): Deltas {
    if log == [] then EMPTY
    else
      var n := |log| - 1;
      var before := RunUnlimited(log[..n]);
      if Accepted(log[n]) then Append(Remove(before, log[n].key), log[n].key, log[n].delta) else before
  }

  /** From the `p`-th insertion on, what has been inserted since then has always fitted into the cache. */
  ghost predicate Fits(log: seq<Insertion>, p: nat) {
    forall n :: p < n <= |log| ==> RunUnlimited(log[p..n]).totalBytes <= DELTA_CACHE_MAX_BYTES
  }

  lemma FitsSnoc(log: seq<Insertion>, p: nat)
    requires p < |log| - 1
    ensures Fits(log, p) <==> Fits(log[..|log| - 1], p)
                              && RunUnlimited(log[p..]).totalBytes <= DELTA_CACHE_MAX_BYTES
  {
    var m := |log| - 1;
    assert log[p..|log|] == log[p..];
    assert forall n :: p < n <= m ==> log[..m][p..n] == log[p..n];
  }

  // --- The unlimited cache ---

  lemma {:induction false} WithoutAbsent(order: seq<Key>, key: Key)
    requires key !in order
    ensures Without(order, key) == order
  {
    if order != [] {
      WithoutAbsent(order[1..], key);
    }
  }

  lemma RemoveFromTable(s: Deltas, key: Key)
    requires TableRight(s)
    ensures TableRight(Remove(s, key)) && Remove(s, key).order == Without(s.order, key)
    ensures Remove(s, key).table == s.table - {key}
  {
    if key in s.table {
      WithoutKeepsDistinct(s.order, key);
      SumOfWithout(s.table, s.order, key);
    } else {
      WithoutAbsent(s.order, key);
      assert s.table - {key} == s.table;
    }
  }

  lemma AppendToTable(s: Deltas, key: Key, delta: Bytes)
    requires TableRight(s) && key !in s.table && |delta| <= DELTA_ENTRY_MAX_BYTES
    ensures TableRight(Append(s, key, delta))
  {
    var r := Append(s, key, delta);
    SumOfAgree(s.table, r.table, s.order);
    SumOfSnoc(r.table, s.order, key);
  }

  lemma {:induction false} UnlimitedIsRight(log: seq<Insertion>)
    ensures TableRight(RunUnlimited(log))
    decreases |log|
  {
    if log != [] {
      var n := |log| - 1;
      UnlimitedIsRight(log[..n]);
      if Accepted(log[n]) {
        RemoveFromTable(RunUnlimited(log[..n]), log[n].key);
        AppendToTable(Remove(RunUnlimited(log[..n]), log[n].key), log[n].key, log[n].delta);
      }
    }
  }

  // --- The cache ends with what an unlimited one holds since the insertion of `k` ---

  predicate Ends(order: seq<Key>, end: seq<Key>) {
    |end| <= |order| && order[|order| - |end|..] == end
  }

  predicate Agree(a: map<Key, Bytes>, b: map<Key, Bytes>, order: seq<Key>) {
    forall x :: x in order ==> x in a && x in b && a[x] == b[x]
  }

  ghost predicate EndsWith(s: Deltas, u: Deltas, k: Key) {
    u.order != [] && u.order[0] == k && Ends(s.order, u.order) && Agree(s.table, u.table, u.order)
  }

  lemma RemoveEnds(s: Deltas, u: Deltas, k: Key, key: Key)
    requires TableRight(s) && TableRight(u) && EndsWith(s, u, k) && key != k
    ensures EndsWith(Remove(s, key), Remove(u, key), k)
  {
    RemoveFromTable(s, key);
    RemoveFromTable(u, key);
    WithoutEnds(s.order, u.order, key);
    WithoutAgrees(s.table, u.table, u.order, key);
    assert Without(u.order, key)[0] == k;
  }

  lemma WithoutEnds(order: seq<Key>, end: seq<Key>, key: Key)
    requires Ends(order, end)
    ensures Ends(Without(order, key), Without(end, key))
  {
    var x := order[..|order| - |end|];
    assert order == x + end;
    WithoutAppend(x, end, key);
  }

  lemma WithoutAgrees(a: map<Key, Bytes>, b: map<Key, Bytes>, order: seq<Key>, key: Key)
    requires Agree(a, b, order)
    ensures Agree(a - {key}, b - {key}, Without(order, key))
  {
  }

  lemma AppendEnds(s: Deltas, u: Deltas, k: Key, key: Key, delta: Bytes)
    requires EndsWith(s, u, k)
    ensures EndsWith(Append(s, key, delta), Append(u, key, delta), k)
  {
    var r, v := Append(s, key, delta), Append(u, key, delta);
    assert r.order[|r.order| - |v.order|..] == s.order[|s.order| - |u.order|..] + [key];
  }

  lemma {:induction false} SumOfAppend(table: map<Key, Bytes>, a: seq<Key>, b: seq<Key>)
    ensures SumOf(table, a + b) == SumOf(table, a) + SumOf(table, b)
    decreases |a|
  {
    if a == [] {
      assert a + b == b;
    } else {
      assert (a + b)[0] == a[0] && (a + b)[1..] == a[1..] + b;
      SumOfAppend(table, a[1..], b);
    }
  }

  lemma EndIsSmaller(s: Deltas, u: Deltas, k: Key)
    requires TableRight(s) && TableRight(u) && EndsWith(s, u, k)
    ensures u.totalBytes <= s.totalBytes
    ensures |u.order| == |s.order| ==> u.totalBytes == s.totalBytes && s.order[0] == k
  {
    var x := s.order[..|s.order| - |u.order|];
    assert s.order == x + u.order;
    SumOfAppend(s.table, x, u.order);
    SumOfAgree(s.table, u.table, u.order);
    if |u.order| == |s.order| {
      assert x == [];
    }
  }

  /** Making room evicts `k` exactly if it and what is newer leave too little. */
  lemma {:induction false} EvictForRetains(s: Deltas, u: Deltas, k: Key, need: nat)
    requires TableRight(s) && TableRight(u) && EndsWith(s, u, k)
    ensures k in EvictFor(s, need).table <==> u.totalBytes + need <= DELTA_CACHE_MAX_BYTES
    ensures k in EvictFor(s, need).table ==> EndsWith(EvictFor(s, need), u, k)
    decreases |s.order|
  {
    EndIsSmaller(s, u, k);
    if s.totalBytes + need <= DELTA_CACHE_MAX_BYTES {
      assert u.order[0] in u.order;
    } else {
      EvictOldestKeepsTable(s);
      if |u.order| == |s.order| {
        EvictForKeepsRest(EvictOldest(s), need);
      } else {
        OldestIsBefore(s, u, k);
        EvictForRetains(EvictOldest(s), u, k, need);
      }
    }
  }

  lemma OldestIsBefore(s: Deltas, u: Deltas, k: Key)
    requires TableRight(s) && EndsWith(s, u, k) && |u.order| < |s.order|
    ensures EndsWith(EvictOldest(s), u, k)
  {
    var r, d := EvictOldest(s), |s.order| - |u.order|;
    assert s.order[1..][d - 1..] == s.order[d..];
    forall x | x in u.order
      ensures x != s.order[0]
    {
      var i :| 0 <= i < |u.order| && u.order[i] == x;
      assert s.order[d..][i] == s.order[d + i];
    }
  }

  /** An entry is cached exactly if what has been inserted since its last insertion has always fitted. */
  lemma {:induction false} CachedIffFits(log: seq<Insertion>, k: Key, p: nat)
    requires LatestOf(log, k, p)
    ensures k in RunInserts(log).table <==> Fits(log, p)
    ensures k in RunInserts(log).table ==> EndsWith(RunInserts(log), RunUnlimited(log[p..]), k)
    decreases |log|
  {
    var n := |log| - 1;
    if n == p {
      JustInserted(log);
    } else {
      CachedIffFits(log[..n], k, p);
      CachedStep(log, k, p);
    }
  }

  lemma {:induction false} UnlimitedSince(log: seq<Insertion>, p: nat)
    requires p < |log| - 1
    ensures var n, u := |log| - 1, RunUnlimited(log[p..|log| - 1]);
            RunUnlimited(log[p..])
            == if Accepted(log[n]) then Append(Remove(u, log[n].key), log[n].key, log[n].delta) else u
  {
    var n := |log| - 1;
    assert log[p..][..n - p] == log[p..n];
    assert |log[p..]| - 1 == n - p && log[p..][n - p] == log[n];
  }

  lemma {:induction false} FittedBefore(log: seq<Insertion>, p: nat, n: nat)
    requires p < n <= |log| && Fits(log[..n], p)
    ensures RunUnlimited(log[p..n]).totalBytes <= DELTA_CACHE_MAX_BYTES
  {
    assert log[..n][p..n] == log[p..n];
  }

  lemma {:induction false} CachedStep(log: seq<Insertion>, k: Key, p: nat)
    requires p < |log| - 1 && LatestOf(log, k, p)
    requires var s := RunInserts(log[..|log| - 1]);
             && (k in s.table <==> Fits(log[..|log| - 1], p))
             && (k in s.table ==> EndsWith(s, RunUnlimited(log[..|log| - 1][p..]), k))
    ensures k in RunInserts(log).table <==> Fits(log, p)
    ensures k in RunInserts(log).table ==> EndsWith(RunInserts(log), RunUnlimited(log[p..]), k)
  {
    var n := |log| - 1;
    var before, u := RunInserts(log[..n]), RunUnlimited(log[p..n]);
    RunIsRight(log[..n]);
    UnlimitedIsRight(log[p..n]);
    FitsSnoc(log, p);
    UnlimitedSince(log, p);
    assert log[..n][p..] == log[p..n];
    OneMoreInsertion(before, u, k, log[n]);
    if Fits(log[..n], p) {
      FittedBefore(log, p, n);
    }
    if !Accepted(log[n]) {
      assert RunInserts(log) == before;
    }
  }

  lemma {:induction false} JustInserted(log: seq<Insertion>)
    requires log != [] && Accepted(log[|log| - 1])
    ensures var n := |log| - 1;
            && log[n].key in RunInserts(log).table && Fits(log, n)
            && EndsWith(RunInserts(log), RunUnlimited(log[n..]), log[n].key)
  {
    var n := |log| - 1;
    var ins := log[n];
    InsertKeepsRest(RunInserts(log[..n]), ins.key, ins.delta);
    assert log[n..] == [ins] && log[n..|log|] == [ins];
    OnlyInsertion(ins);
    InsertedLast(RunInserts(log[..n]), ins);
  }

  lemma OnlyInsertion(ins: Insertion)
    requires Accepted(ins)
    ensures RunUnlimited([ins])
            == Deltas(map[ins.key := ins.delta], map[ins.key.target := ins.key], [ins.key], |ins.delta|)
  {
    assert [ins][..0] == [];
    assert RunUnlimited([ins]) == Append(EMPTY, ins.key, ins.delta);
    assert [] + [ins.key] == [ins.key];
  }

  lemma InsertedLast(s: Deltas, ins: Insertion)
    requires Accepted(ins)
    ensures var r := Insert(s, ins.key, ins.delta);
            r.order != [] && r.order[|r.order| - 1..] == [ins.key] && r.table[ins.key] == ins.delta
  {
    var before := EvictFor(Remove(s, ins.key), |ins.delta|);
    assert (before.order + [ins.key])[|before.order|..] == [ins.key];
  }

  lemma OneMoreInsertion(s: Deltas, u: Deltas, k: Key, ins: Insertion)
    requires Right(s) && TableRight(u) && (Accepted(ins) ==> ins.key != k) && (k in s.table ==> EndsWith(s, u, k))
    ensures var r, v := Insert(s, ins.key, ins.delta), Append(Remove(u, ins.key), ins.key, ins.delta);
            Accepted(ins) ==>
              && (k in r.table <==> k in s.table && v.totalBytes <= DELTA_CACHE_MAX_BYTES)
              && (k in r.table ==> EndsWith(r, v, k))
  {
    if Accepted(ins) {
      InsertKeepsRest(s, ins.key, ins.delta);
      if k in s.table {
        RemoveEnds(s, u, k, ins.key);
        RemoveFromTable(s, ins.key);
        RemoveFromTable(u, ins.key);
        var s1, u1 := Remove(s, ins.key), Remove(u, ins.key);
        EvictForRetains(s1, u1, k, |ins.delta|);
        if k in EvictFor(s1, |ins.delta|).table {
          AppendEnds(EvictFor(s1, |ins.delta|), u1, k, ins.key, ins.delta);
        }
      }
    }
  }

  /** A target is found exactly if every key that was cached for it when its latest delta came has, together with
      everything inserted since that key, gone on to fit: the oldest of them decides. */
  lemma FoundIffOldestFits(log: seq<Insertion>, t: string, i: nat)
    requires LatestFor(log, t, i)
    ensures GetForTarget(RunInserts(log), t).Some?
            <==> forall k: Key, p: nat :: k.target == t && LatestOf(log, k, p) && Fits(log[..i + 1], p) ==> Fits(log, p)
  {
    var before, now := RunInserts(log[..i + 1]), RunInserts(log);
    FoundIffNothingEvicted(log, t, i);
    forall k: Key, p: nat | k.target == t && LatestOf(log, k, p)
      ensures (k in before.table <==> Fits(log[..i + 1], p)) && (k in now.table <==> Fits(log, p))
    {
      assert p <= i;
      assert LatestOf(log[..i + 1], k, p);
      CachedIffFits(log[..i + 1], k, p);
      CachedIffFits(log, k, p);
    }
    if GetForTarget(now, t).Some? {
      forall k: Key, p: nat | k.target == t && LatestOf(log, k, p) && Fits(log[..i + 1], p)
        ensures Fits(log, p)
      {
        assert k in KeysFor(before, t);
      }
    }
    forall k | k in KeysFor(before, t)
      ensures exists p :: LatestOf(log, k, p) && (Fits(log, p) ==> k in KeysFor(now, t))
    {
      var p := CachedIsLatest(log[..i + 1], k);
      assert LatestOf(log, k, p);
    }
  }
}
