/** What the selection of paths to evict guarantees for every reference graph. */
module EvictionResults {
  import opened Base
  import opened AccessOrder
  import opened EvictionPlans

  // --- The store stays closed under references ---

  ghost predicate Before(hs: seq<Hash>, a: Hash, b: Hash) {
    exists i, j :: 0 <= i < j < |hs| && hs[i] == a && hs[j] == b
  }

  /** Whoever references an evicted path was evicted before it, so nothing left references it. */
  lemma SelectionKeepsClosed(g: Graph, need: nat)
    requires DistinctHashes(g.entries)
    ensures var p := Selection(g, need);
            && Legal(g, need, p)
            && forall r, e :: (r, e) in g.refs && r != e && r in HashesOf(g.entries) && e in p.evicted
                 ==> Before(p.evicted, r, e)
  {
    RoundsEnd(g, need, Progress([], 0));
    var ev := Selection(g, need).evicted;
    forall r, e | (r, e) in g.refs && r != e && r in HashesOf(g.entries) && e in ev
      ensures Before(ev, r, e)
    {
      var k :| 0 <= k < |ev| && ev[k] == e;
      assert LegalAt(g, need, ev, k);
      assert (r, e).1 == ev[k] && (r, e).0 == r;
      assert r in ev[..k];
      var i :| 0 <= i < k && ev[i] == r;
    }
  }

  // --- Progress ---

  /** A closed chain of stored paths, each referenced by the next and different from it. */
  ghost predicate Cycle(g: Graph, chain: seq<Hash>) {
    && |chain| >= 2 && chain[0] == chain[|chain| - 1]
    && (forall h :: h in chain ==> h in HashesOf(g.entries))
    && forall i :: 0 <= i < |chain| - 1 ==> chain[i + 1] != chain[i] && (chain[i + 1], chain[i]) in g.refs
  }

  /** A path that pins `h`. */
  ghost function Pinner(g: Graph, evicted: seq<Hash>, h: Hash): (r: Hash)
    requires Pinned(g, evicted, h)
    ensures (r, h) in g.refs && r != h && r in HashesOf(g.entries) && r !in evicted
  {
    var q :| q in g.refs && q.1 == h && q.0 != h && q.0 in HashesOf(g.entries) && q.0 !in evicted;
    assert q == (q.0, h);
    q.0
  }

  ghost predicate Left(g: Graph, p: Progress, h: Hash) {
    h in HashesOf(g.entries) && h !in p.evicted
  }

  lemma LeftIsPinned(g: Graph, p: Progress, h: Hash)
    requires Stuck(g, p) && Left(g, p, h)
    ensures Pinned(g, p.evicted, h)
  {
  }

  /** `w[i + 1]` pins `w[i]`, and all of them are left. */
  ghost predicate Ascends(g: Graph, p: Progress, w: seq<Hash>) {
    && (forall i :: 0 <= i < |w| ==> Left(g, p, w[i]))
    && (forall i :: 0 <= i < |w| - 1 ==> w[i + 1] != w[i] && (w[i + 1], w[i]) in g.refs)
  }

  lemma AscendsSnoc(g: Graph, p: Progress, w: seq<Hash>, r: Hash)
    requires Ascends(g, p, w) && w != [] && Left(g, p, r)
    requires r != w[|w| - 1] && (r, w[|w| - 1]) in g.refs
    ensures Ascends(g, p, w + [r])
  {
  }

  /** Follows pins upwards from `h` for `n` steps. */
  ghost function Climb(g: Graph, p: Progress, h: Hash, n: nat): (w: seq<Hash>)
    requires Stuck(g, p) && Left(g, p, h)
    ensures |w| == n + 1 && w[0] == h && Ascends(g, p, w)
  {
    if n == 0 then [h]
    else
      var w := Climb(g, p, h, n - 1);
      LeftIsPinned(g, p, w[n - 1]);
      var r := Pinner(g, p.evicted, w[n - 1]);
      AscendsSnoc(g, p, w, r);
      w + [r]
  }

  lemma ClosedAscentIsCycle(g: Graph, p: Progress, w: seq<Hash>, i: nat, j: nat)
    requires Ascends(g, p, w) && i < j < |w| && w[i] == w[j]
    ensures Cycle(g, w[i..j + 1])
  {
  }

  lemma Pigeonhole(w: seq<Hash>, all: set<Hash>)
    requires (forall h :: h in w ==> h in all) && |w| > |all|
    ensures exists i, j :: 0 <= i < j < |w| && w[i] == w[j]
  {
    if NoDuplicates(w) {
      DistinctWithin(w, all);
    }
  }

  /** A climb longer than the number of paths comes back to one of them. */
  lemma LongClimb(g: Graph, p: Progress, h: Hash) returns (w: seq<Hash>, i: nat, j: nat)
    requires Stuck(g, p) && Left(g, p, h)
    ensures Ascends(g, p, w) && i < j < |w| && w[i] == w[j] && w[0] == h
  {
    w := Climb(g, p, h, |HashesOf(g.entries)|);
    forall k | k in w
      ensures k in HashesOf(g.entries)
    {
      var l :| 0 <= l < |w| && w[l] == k;
      assert Left(g, p, w[l]);
    }
    Pigeonhole(w, HashesOf(g.entries));
    i, j :| 0 <= i < j < |w| && w[i] == w[j];
  }

  /** If the collector is stuck with a path left, a reference cycle is left. */
  lemma StuckHasCycle(g: Graph, p: Progress, h: Hash) returns (chain: seq<Hash>)
    requires Stuck(g, p) && Left(g, p, h)
    ensures Cycle(g, chain) && forall k :: k in chain ==> k !in p.evicted
  {
    var w, i, j := LongClimb(g, p, h);
    ClosedAscentIsCycle(g, p, w, i, j);
    chain := w[i..j + 1];
    forall k | k in chain
      ensures Left(g, p, k)
    {
      var l :| 0 <= l < |chain| && chain[l] == k;
      assert Left(g, p, w[i + l]);
    }
  }

  function TotalSize(es: seq<PathEntry>): nat {
    if es == [] then 0 else es[0].size + TotalSize(es[1..])
  }

  lemma {:induction false} SizeInAbsent(es: seq<PathEntry>, h: Hash)
    requires h !in HashesOf(es)
    ensures SizeIn(es, h) == 0
  {
    if es != [] {
      assert es[0] in es;
      assert forall e :: e in es[1..] ==> e in es;
      SizeInAbsent(es[1..], h);
    }
  }

  lemma {:induction false} SumInSplit(es: seq<PathEntry>, hs: seq<Hash>)
    requires DistinctHashes(es) && es != [] && NoDuplicates(hs)
    ensures SumIn(es, hs) == (if es[0].hash in hs then es[0].size else 0) + SumIn(es[1..], hs)
    decreases |hs|
  {
    if hs != [] {
      var n := |hs| - 1;
      SumInSplit(es, hs[..n]);
      assert es[0].hash in hs <==> es[0].hash in hs[..n] || es[0].hash == hs[n];
      if hs[n] == es[0].hash {
        assert es[0].hash !in HashesOf(es[1..]) by {
          assert forall i :: 0 <= i < |es| - 1 ==> es[1..][i] == es[i + 1];
        }
        SizeInAbsent(es[1..], hs[n]);
      }
    }
  }

  lemma {:induction false} SumOfAll(es: seq<PathEntry>, hs: seq<Hash>)
    requires DistinctHashes(es) && NoDuplicates(hs) && forall e :: e in es ==> e.hash in hs
    ensures SumIn(es, hs) == TotalSize(es)
  {
    if es == [] {
      SumInNothing(hs);
    } else {
      SumInSplit(es, hs);
      assert es[0] in es;
      SumOfAll(es[1..], hs);
    }
  }

  lemma {:induction false} SumInNothing(hs: seq<Hash>)
    ensures SumIn([], hs) == 0
    decreases |hs|
  {
    if hs != [] {
      SumInNothing(hs[..|hs| - 1]);
    }
  }

  /** The collector frees what it was asked for, or leaves a cycle of retained paths behind. */
  lemma SelectionProgress(g: Graph, need: nat) returns (chain: seq<Hash>)
    requires DistinctHashes(g.entries) && need <= TotalSize(g.entries)
    ensures var p := Selection(g, need);
            && p.freed == SumSizes(g, p.evicted)
            && (p.freed >= need || (Cycle(g, chain) && forall h :: h in chain ==> h !in p.evicted))
  {
    var p := Selection(g, need);
    RoundsEnd(g, need, Progress([], 0));
    chain := [];
    if p.freed < need {
      if forall e :: e in g.entries ==> e.hash in p.evicted {
        SumOfAll(g.entries, p.evicted);
      }
      var e :| e in g.entries && e.hash !in p.evicted;
      chain := StuckHasCycle(g, p, e.hash);
    }
  }

  /** Without reference cycles (self-references aside) the target is always reached. */
  lemma AcyclicSelectionSuffices(g: Graph, need: nat)
    requires DistinctHashes(g.entries) && need <= TotalSize(g.entries)
    requires forall chain :: !Cycle(g, chain)
    ensures Selection(g, need).freed >= need
  {
    var chain := SelectionProgress(g, need);
  }

  // --- The exact condition ---

  const START: Progress := Progress([], 0)

  /** A path on a reference cycle, or referenced from one through any number of references: going up from it
      one can come back to a path already visited. */
  ghost predicate Entangled(g: Graph, h: Hash) {
    exists w :: Ascends(g, START, w) && w != [] && w[0] == h && !NoDuplicates(w)
  }

  /** The sizes of the paths that are not entangled. */
  ghost function FreeIn(g: Graph, es: seq<PathEntry>): nat {
    if es == [] then 0 else (if Entangled(g, es[0].hash) then 0 else es[0].size) + FreeIn(g, es[1..])
  }

  ghost function FreeBytes(g: Graph): nat { FreeIn(g, g.entries) }

  /** Everything above an evicted path was evicted before it. */
  lemma {:induction false} AscentIsEvicted(g: Graph, need: nat, p: Progress, w: seq<Hash>, k: nat, i: nat, j: nat)
    returns (l: nat)
    requires Legal(g, need, p) && Ascends(g, START, w)
    requires i < j < |w| && k < |p.evicted| && p.evicted[k] == w[i]
    ensures l < k && p.evicted[l] == w[j]
    decreases j - i
  {
    assert LegalAt(g, need, p.evicted, k);
    assert Left(g, START, w[i + 1]);
    var q := (w[i + 1], w[i]);
    assert q in g.refs && q.1 == w[i] && q.0 != w[i];
    assert w[i + 1] in p.evicted[..k];
    l :| 0 <= l < k && p.evicted[l] == w[i + 1];
    if i + 1 < j {
      l := AscentIsEvicted(g, need, p, w, l, i + 1, j);
    }
  }

  /** An entangled path is never evicted. */
  lemma EntangledStays(g: Graph, need: nat, p: Progress, h: Hash)
    requires Legal(g, need, p) && Entangled(g, h)
    ensures h !in p.evicted
  {
    if h in p.evicted {
      var w :| Ascends(g, START, w) && w != [] && w[0] == h && !NoDuplicates(w);
      var i, j :| 0 <= i < j < |w| && w[i] == w[j];
      var k :| 0 <= k < |p.evicted| && p.evicted[k] == h;
      if i > 0 {
        k := AscentIsEvicted(g, need, p, w, k, 0, i);
      }
      var l := AscentIsEvicted(g, need, p, w, k, i, j);
      assert false;
    }
  }

  /** Once nothing more can be evicted, only entangled paths are left. */
  lemma LeftIsEntangled(g: Graph, p: Progress, h: Hash)
    requires Stuck(g, p) && Left(g, p, h)
    ensures Entangled(g, h)
  {
    var w, i, j := LongClimb(g, p, h);
    AscendsFromTheStart(g, p, w);
  }

  lemma AscendsFromTheStart(g: Graph, p: Progress, w: seq<Hash>)
    requires Ascends(g, p, w)
    ensures Ascends(g, START, w)
  {
    forall i | 0 <= i < |w|
      ensures Left(g, START, w[i])
    {
      assert Left(g, p, w[i]);
    }
  }

  lemma {:induction false} SumOfFree(g: Graph, es: seq<PathEntry>, hs: seq<Hash>)
    requires DistinctHashes(es) && NoDuplicates(hs)
    requires forall e :: e in es && e.hash in hs ==> !Entangled(g, e.hash)
    ensures SumIn(es, hs) <= FreeIn(g, es)
    ensures (forall e :: e in es && !Entangled(g, e.hash) ==> e.hash in hs) ==> SumIn(es, hs) == FreeIn(g, es)
  {
    if es == [] {
      SumInNothing(hs);
    } else {
      SumInSplit(es, hs);
      assert es[0] in es;
      SumOfFree(g, es[1..], hs);
    }
  }

  /** The collector frees what it was asked for exactly if the paths that are neither on a reference cycle
      nor below one are large enough together. */
  lemma TargetIsMetIffFree(g: Graph, need: nat)
    requires DistinctHashes(g.entries)
    ensures Selection(g, need).freed >= need <==> FreeBytes(g) >= need
    ensures Selection(g, need).freed <= FreeBytes(g)
  {
    var p := Selection(g, need);
    RoundsEnd(g, need, START);
    forall e | e in g.entries && e.hash in p.evicted
      ensures !Entangled(g, e.hash)
    {
      if Entangled(g, e.hash) {
        EntangledStays(g, need, p, e.hash);
      }
    }
    if p.freed < need {
      forall e | e in g.entries && !Entangled(g, e.hash)
        ensures e.hash in p.evicted
      {
        if e.hash !in p.evicted {
          LeftIsEntangled(g, p, e.hash);
        }
      }
    }
    SumOfFree(g, g.entries, p.evicted);
  }

  // --- Age ---

  /** No other stored path references `h`. */
  ghost predicate Unreferenced(g: Graph, h: Hash) {
    !Pinned(g, [], h)
  }

  lemma PinnedFromTheStart(g: Graph, evicted: seq<Hash>, h: Hash)
    ensures Pinned(g, evicted, h) ==> Pinned(g, [], h)
  {
  }

  lemma {:induction false} PassExtends(g: Graph, es: seq<PathEntry>, need: nat, p: Progress)
    ensures p.evicted <= Pass(g, es, need, p).evicted
    decreases |es|
  {
    if es != [] && p.freed < need {
      PassExtends(g, es[1..], need, p);
      PassExtends(g, es[1..], need, Progress(p.evicted + [es[0].hash], p.freed + es[0].size));
    }
  }

  lemma {:induction false} PassTakesUnreferenced(g: Graph, es: seq<PathEntry>, need: nat, p: Progress, e: PathEntry)
    requires e in es && Unreferenced(g, e.hash) && Pass(g, es, need, p).freed < need
    ensures e.hash in Pass(g, es, need, p).evicted
    decreases |es|
  {
    PinnedFromTheStart(g, p.evicted, e.hash);
    var next := Progress(p.evicted + [es[0].hash], p.freed + es[0].size);
    if e == es[0] {
      PassExtends(g, es[1..], need, p);
      PassExtends(g, es[1..], need, next);
      assert es[0].hash in next.evicted;
    } else if es[0].hash in p.evicted || Pinned(g, p.evicted, es[0].hash) {
      PassTakesUnreferenced(g, es[1..], need, p, e);
    } else {
      PassTakesUnreferenced(g, es[1..], need, next, e);
    }
  }

  lemma PrefixBefore(pre: seq<Hash>, out: seq<Hash>, a: Hash, b: Hash)
    requires pre <= out && a in pre && b !in pre && b in out
    ensures Before(out, a, b)
  {
  }

  lemma {:induction false} PassRespectsAge(g: Graph, es: seq<PathEntry>, need: nat, p: Progress, i: nat, j: nat)
    requires DistinctHashes(es) && i < j < |es| && Unreferenced(g, es[i].hash)
    requires es[j].hash !in p.evicted && es[j].hash in Pass(g, es, need, p).evicted
    ensures Before(Pass(g, es, need, p).evicted, es[i].hash, es[j].hash)
    decreases |es|
  {
    PinnedFromTheStart(g, p.evicted, es[i].hash);
    var next := Progress(p.evicted + [es[0].hash], p.freed + es[0].size);
    var skipped := es[0].hash in p.evicted || Pinned(g, p.evicted, es[0].hash);
    PassExtends(g, es[1..], need, if skipped then p else next);
    if i == 0 {
      PrefixBefore(if skipped then p.evicted else next.evicted, Pass(g, es, need, p).evicted,
                   es[0].hash, es[j].hash);
    } else {
      PassRespectsAge(g, es[1..], need, if skipped then p else next, i - 1, j - 1);
    }
  }

  lemma {:induction false} RoundsExtend(g: Graph, need: nat, p: Progress)
    requires Legal(g, need, p) && DistinctHashes(g.entries)
    ensures p.evicted <= Rounds(g, need, p).evicted
    decreases |g.entries| - |p.evicted|
  {
    if p.freed < need {
      var next := Pass(g, g.entries, need, p);
      PassIsLegal(g, g.entries, need, p);
      EvictedAreEntries(g, need, next);
      if next.evicted != p.evicted {
        RoundsExtend(g, need, next);
      }
    }
  }

  /** Of two paths that nothing else references, the one accessed longer ago goes first. */
  lemma OldestUnreferencedFirst(g: Graph, need: nat, i: nat, j: nat)
    requires DistinctHashes(g.entries) && i < j < |g.entries|
    requires Unreferenced(g, g.entries[i].hash) && Unreferenced(g, g.entries[j].hash)
    requires g.entries[j].hash in Selection(g, need).evicted
    ensures Before(Selection(g, need).evicted, g.entries[i].hash, g.entries[j].hash)
  {
    var start, es := Progress([], 0), g.entries;
    var first, out := Pass(g, es, need, start), Selection(g, need).evicted;
    PassIsLegal(g, es, need, start);
    EvictedAreEntries(g, need, first);
    if start.freed < need && first.evicted != [] {
      RoundsExtend(g, need, first);
      assert out == Rounds(g, need, first).evicted;
      if first.freed < need {
        PassTakesUnreferenced(g, es, need, start, es[j]);
      }
      assert es[j].hash in first.evicted;
      PassRespectsAge(g, es, need, start, i, j);
      var a, b :| 0 <= a < b < |first.evicted| && first.evicted[a] == es[i].hash && first.evicted[b] == es[j].hash;
      assert out[a] == es[i].hash && out[b] == es[j].hash;
    }
  }
  // --- Different amounts ---

  lemma {:induction false} PassOfLess(g: Graph, es: seq<PathEntry>, less: nat, need: nat, p: Progress)
    requires less <= need
    ensures var q, r := Pass(g, es, less, p), Pass(g, es, need, p);
            q.evicted <= r.evicted && (q.freed < less ==> q == r)
    decreases |es|
  {
    PassExtends(g, es, need, p);
    if es != [] && p.freed < less {
      PassOfLess(g, es[1..], less, need, p);
      PassOfLess(g, es[1..], less, need, Progress(p.evicted + [es[0].hash], p.freed + es[0].size));
    }
  }

  lemma {:induction false} SamePass(g: Graph, es: seq<PathEntry>, need: nat, p: Progress)
    ensures |Pass(g, es, need, p).evicted| == |p.evicted| ==> Pass(g, es, need, p) == p
    decreases |es|
  {
    if es != [] && p.freed < need {
      PassOnlyGrows(g, es[1..], need, Progress(p.evicted + [es[0].hash], p.freed + es[0].size));
      SamePass(g, es[1..], need, p);
    }
  }

  lemma LegalForMore(g: Graph, less: nat, need: nat, p: Progress)
    requires less <= need && Legal(g, less, p)
    ensures Legal(g, need, p)
  {
    forall k | 0 <= k < |p.evicted|
      ensures LegalAt(g, need, p.evicted, k)
    {
      assert LegalAt(g, less, p.evicted, k);
    }
  }

  lemma {:induction false} RoundsOfLess(g: Graph, less: nat, need: nat, p: Progress)
    requires less <= need && Legal(g, less, p) && DistinctHashes(g.entries)
    ensures Legal(g, need, p)
    ensures var q, r := Rounds(g, less, p), Rounds(g, need, p);
            q.evicted <= r.evicted && (q.freed < less ==> q == r)
    decreases |g.entries| - |p.evicted|
  {
    LegalForMore(g, less, need, p);
    RoundsExtend(g, need, p);
    if p.freed < less {
      var q, r := Pass(g, g.entries, less, p), Pass(g, g.entries, need, p);
      PassOfLess(g, g.entries, less, need, p);
      PassIsLegal(g, g.entries, less, p);
      PassIsLegal(g, g.entries, need, p);
      EvictedAreEntries(g, less, q);
      SamePass(g, g.entries, less, p);
      if q.freed >= less {
        RoundsExtend(g, need, r);
      } else if q.evicted != p.evicted {
        RoundsOfLess(g, less, need, q);
      }
    }
  }

  /** A smaller amount selects a beginning of what a larger one selects, and the same if it is not reached. */
  lemma LessSelectsPrefix(g: Graph, less: nat, need: nat)
    requires less <= need && DistinctHashes(g.entries)
    ensures var q, r := Selection(g, less), Selection(g, need);
            q.evicted <= r.evicted && (q.freed < less ==> q == r)
  {
    RoundsOfLess(g, less, need, START);
  }

  lemma {:induction false} SumGrows(g: Graph, hs: seq<Hash>, k: nat, n: nat)
    requires k <= n <= |hs|
    ensures SumSizes(g, hs[..k]) <= SumSizes(g, hs[..n])
    decreases n
  {
    if k < n {
      assert hs[..n][..n - 1] == hs[..n - 1];
      SumGrows(g, hs, k, n - 1);
    }
  }

  /** Whatever has been evicted by the time a path with a size goes is what some amount selects. */
  lemma PrefixIsSelected(g: Graph, need: nat, i: nat) returns (less: nat)
    requires DistinctHashes(g.entries) && i < |Selection(g, need).evicted|
    requires SizeIn(g.entries, Selection(g, need).evicted[i]) > 0
    ensures Selection(g, less).evicted == Selection(g, need).evicted[..i + 1]
  {
    var all := Selection(g, need).evicted;
    RoundsEnd(g, need, START);
    if i == |all| - 1 {
      less := need;
      assert all[..i + 1] == all;
    } else {
      less := SumSizes(g, all[..i + 1]);
      assert LegalAt(g, need, all, i + 1);
      LessSelectsPrefix(g, less, need);
      RoundsEnd(g, less, START);
      ReachedAt(g, all, Selection(g, less), i);
    }
  }

  lemma NeededAt(g: Graph, need: nat, p: Progress, k: nat)
    requires Legal(g, need, p) && k < |p.evicted|
    ensures SumSizes(g, p.evicted[..k]) < need
  {
    assert LegalAt(g, need, p.evicted, k);
  }

  lemma ReachedAt(g: Graph, all: seq<Hash>, p: Progress, i: nat)
    requires i + 1 < |all| && SizeIn(g.entries, all[i]) > 0
    requires p.evicted <= all && Legal(g, SumSizes(g, all[..i + 1]), p)
    requires p.freed < SumSizes(g, all[..i + 1]) ==> p.evicted == all
    ensures p.evicted == all[..i + 1]
  {
    var n := |p.evicted|;
    assert p.evicted == all[..n];
    if n > i + 1 {
      assert p.evicted[..i + 1] == all[..i + 1];
      NeededAt(g, SumSizes(g, all[..i + 1]), p, i + 1);
      assert false;
    }
    if n <= i {
      assert all[..i + 1][..i] == all[..i];
      SumGrows(g, all, n, i);
      assert false;
    }
  }
}
