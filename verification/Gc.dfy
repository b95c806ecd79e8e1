/** The filesystem cache's garbage collector over its tables of paths and references. */
module Gc {
  import opened Base
  import opened AccessOrder
  import opened EvictionPlans
  import opened EvictionResults

  datatype StorePath = StorePath(size: nat, lastAccess: nat, narUrl: string)

  /** All rows of the path table, oldest access first. */
  ghost predicate ByAccess(paths: map<Hash, StorePath>, es: seq<PathEntry>) {
    && DistinctHashes(es)
    && HashesOf(es) == paths.Keys
    && (forall e :: e in es ==> e.hash in paths && e.size == paths[e.hash].size)
    && (forall i, j :: 0 <= i < j < |es| ==> OlderFirst(paths, es[i].hash, es[j].hash))
  }

  ghost predicate OlderFirst(paths: map<Hash, StorePath>, h: Hash, k: Hash) {
    h in paths && k in paths && paths[h].lastAccess <= paths[k].lastAccess
  }

  function Access(paths: map<Hash, StorePath>): map<Hash, nat> { map h | h in paths :: paths[h].lastAccess }

  function EntriesOf(paths: map<Hash, StorePath>, hs: seq<Hash>): (es: seq<PathEntry>)
    requires forall h :: h in hs ==> h in paths
    ensures |es| == |hs|
    ensures forall i :: 0 <= i < |hs| ==> hs[i] in paths && es[i] == PathEntry(hs[i], paths[hs[i]].size)
  {
    seq(|hs|, i requires 0 <= i < |hs| && hs[i] in paths => PathEntry(hs[i], paths[hs[i]].size))
  }

  lemma EntriesAreByAccess(paths: map<Hash, StorePath>, hs: seq<Hash>)
    requires FullListing(Access(paths), hs)
    ensures ByAccess(paths, EntriesOf(paths, hs))
  {
    var es := EntriesOf(paths, hs);
    forall h | h in paths
      ensures h in HashesOf(es)
    {
      assert h in Access(paths);
      var i :| 0 <= i < |hs| && hs[i] == h;
      assert es[i] in es;
    }
    forall i, j | 0 <= i < j < |es|
      ensures OlderFirst(paths, es[i].hash, es[j].hash)
    {
      assert InOrder(Access(paths), hs[i], hs[j]);
    }
  }

  /** The references neither end of which is in `gone`. */
  function RefsWithout(refs: set<(Hash, Hash)>, gone: set<Hash>): set<(Hash, Hash)> {
    set p | p in refs && p.0 !in gone && p.1 !in gone
  }

  /** The two files of a path below the cache directory. */
  function FilesOf(h: Hash, p: StorePath): set<string> { {h + ".narinfo", p.narUrl} }

  function FilesOfAll(paths: map<Hash, StorePath>, hs: set<Hash>): set<string> {
    set h, f | h in hs && h in paths && f in FilesOf(h, paths[h]) :: f
  }

  /** What is left on disk is what was there, except the metadata file and the archive of every path that is gone. */
  ghost predicate FilesGo(before: map<Hash, StorePath>, after: map<Hash, StorePath>, disk: set<string>,
                          disk': set<string>) {
    forall f :: f in disk' <==>
      f in disk && forall h :: h in before && h !in after ==> f != h + ".narinfo" && f != before[h].narUrl
  }

  lemma FilesOfAllGo(paths: map<Hash, StorePath>, gone: set<Hash>, disk: set<string>)
    ensures FilesGo(paths, paths - gone, disk, disk - FilesOfAll(paths, gone))
  {
    forall f
      ensures f in FilesOfAll(paths, gone) <==>
              exists h :: h in paths && h in gone && (f == h + ".narinfo" || f == paths[h].narUrl)
    {
      if h :| h in paths && h in gone && (f == h + ".narinfo" || f == paths[h].narUrl) {
        assert f in FilesOf(h, paths[h]);
      }
    }
  }

  // --- Sums over the path table ---

  ghost function SumPaths(paths: map<Hash, StorePath>, hs: set<Hash>): nat
    requires hs <= paths.Keys
  {
    if hs == {} then 0
    else
      var h :| h in hs;
      paths[h].size + SumPaths(paths, hs - {h})
  }

  lemma {:induction false} SumPathsRemove(paths: map<Hash, StorePath>, hs: set<Hash>, h: Hash)
    requires h in hs && hs <= paths.Keys
    ensures SumPaths(paths, hs) == paths[h].size + SumPaths(paths, hs - {h})
    decreases |hs|
  {
    var k :| k in hs && SumPaths(paths, hs) == paths[k].size + SumPaths(paths, hs - {k});
    if k != h {
      SumPathsRemove(paths, hs - {k}, h);
      SumPathsRemove(paths, hs - {h}, k);
      assert hs - {k} - {h} == hs - {h} - {k};
    }
  }

  lemma {:induction false} SumPathsAgree(m: map<Hash, StorePath>, n: map<Hash, StorePath>, hs: set<Hash>)
    requires hs <= m.Keys && hs <= n.Keys && forall h :: h in hs ==> m[h] == n[h]
    ensures SumPaths(m, hs) == SumPaths(n, hs)
    decreases |hs|
  {
    if hs != {} {
      var h :| h in hs;
      SumPathsRemove(m, hs, h);
      SumPathsRemove(n, hs, h);
      SumPathsAgree(m, n, hs - {h});
    }
  }

  lemma SizeInListing(paths: map<Hash, StorePath>, es: seq<PathEntry>, h: Hash)
    requires ByAccess(paths, es) && h in paths
    ensures SizeIn(es, h) == paths[h].size
  {
    assert h in HashesOf(es);
    var e :| e in es && e.hash == h;
    var i :| 0 <= i < |es| && es[i] == e;
    SizeInAt(es, i);
  }

  /** Removing distinct rows lowers the total by the sum of their sizes. */
  lemma {:induction false} SumWithout(paths: map<Hash, StorePath>, es: seq<PathEntry>, hs: seq<Hash>)
    requires ByAccess(paths, es) && NoDuplicates(hs) && SetOf(hs) <= paths.Keys
    ensures SumPaths(paths, paths.Keys) == SumPaths(paths, paths.Keys - SetOf(hs)) + SumIn(es, hs)
    decreases |hs|
  {
    if hs == [] {
      assert paths.Keys - SetOf(hs) == paths.Keys;
    } else {
      var n := |hs| - 1;
      assert SetOf(hs) == SetOf(hs[..n]) + {hs[n]};
      assert hs[n] !in SetOf(hs[..n]);
      SumWithout(paths, es, hs[..n]);
      SumPathsRemove(paths, paths.Keys - SetOf(hs[..n]), hs[n]);
      assert paths.Keys - SetOf(hs[..n]) - {hs[n]} == paths.Keys - SetOf(hs);
      SizeInListing(paths, es, hs[n]);
    }
  }

  lemma {:induction false} ListedSum(paths: map<Hash, StorePath>, rest: seq<PathEntry>)
    requires DistinctHashes(rest) && HashesOf(rest) <= paths.Keys
    requires forall e :: e in rest ==> e.hash in paths && e.size == paths[e.hash].size
    ensures TotalSize(rest) == SumPaths(paths, HashesOf(rest))
    decreases |rest|
  {
    if rest != [] {
      var h := rest[0].hash;
      assert HashesOf(rest) == {h} + HashesOf(rest[1..]);
      assert forall i :: 0 <= i < |rest| - 1 ==> rest[1..][i] == rest[i + 1];
      assert h !in HashesOf(rest[1..]);
      ListedSum(paths, rest[1..]);
      SumPathsRemove(paths, HashesOf(rest), h);
      assert HashesOf(rest) - {h} == HashesOf(rest[1..]);
    }
  }

  class GcDb {
    var storePaths: map<Hash, StorePath>
    var refs: set<(Hash, Hash)>
    /** The files in the cache directory. */
    var disk: set<string>

    ghost function Total(): nat
      reads this
    {
      SumPaths(storePaths, storePaths.Keys)
    }

    method EntriesByAccess() returns (es: seq<PathEntry>)
      ensures ByAccess(storePaths, es)
    {
      var hs := OrderByAccess(Access(storePaths));
      es := EntriesOf(storePaths, hs);
      EntriesAreByAccess(storePaths, hs);
    }

    /** Referee to referrers, for the referrers that are stored. */
    method ReferencedBy(es: seq<PathEntry>) returns (referrers: map<Hash, set<Hash>>)
      ensures forall r, e :: e in referrers && r in referrers[e] <==> (r, e) in refs && r in HashesOf(es)
    {
      referrers := map[];
      var all := HashesOf(es);
      var todo := refs;
      while todo != {}
        invariant todo <= refs
        invariant forall r, e :: e in referrers && r in referrers[e] <==> (r, e) in refs - todo && r in all
        decreases |todo|
      {
        var p :| p in todo;
        if p.0 in all {
          referrers := referrers[p.1 := (if p.1 in referrers then referrers[p.1] else {}) + {p.0}];
        }
        todo := todo - {p};
      }
    }

    /** `g` is the listing and the references the run started from. */
    method RunGc(currentSize: nat, targetSize: nat) returns (ghost g: Graph)
      modifies this
      ensures ByAccess(old(storePaths), g.entries) && g.refs == old(refs)
      ensures var p := Selection(g, if currentSize > targetSize then currentSize - targetSize else 0);
              && storePaths == old(storePaths) - SetOf(p.evicted)
              && refs == RefsWithout(old(refs), SetOf(p.evicted))
              && disk == old(disk) - FilesOfAll(old(storePaths), SetOf(p.evicted))
      ensures FilesGo(old(storePaths), storePaths, old(disk), disk)
    {
      var toFree := if currentSize > targetSize then currentSize - targetSize else 0;
      var entries := EntriesByAccess();
      g := Graph(entries, refs);
      if toFree == 0 {
        assert Selection(g, toFree).evicted == [];
        assert SetOf<Hash>([]) == {} && RefsWithout(refs, {}) == refs && storePaths - {} == storePaths;
        assert disk - FilesOfAll(storePaths, {}) == disk;
        FilesOfAllGo(storePaths, {}, disk);
        return;
      }
      var referrers := ReferencedBy(entries);
      var evictSet: set<Hash> := {};
      var freed := 0;
      ghost var p := Progress([], 0);
      while true
        invariant storePaths == old(storePaths) && refs == old(refs) && disk == old(disk)
        invariant Legal(g, toFree, p) && evictSet == SetOf(p.evicted) && freed == p.freed
        invariant Rounds(g, toFree, p) == Selection(g, toFree)
        decreases |g.entries| - |p.evicted|
      {
        if freed >= toFree {
          break;
        }
        PassIsLegal(g, entries, toFree, p);
        EvictedAreEntries(g, toFree, Pass(g, entries, toFree, p));
        PassOnlyGrows(g, entries, toFree, p);
        var evictedAny;
        evictSet, freed, evictedAny := Scan(entries, referrers, evictSet, freed, toFree, g, p);
        if !evictedAny {
          break;
        }
        p := Pass(g, entries, toFree, p);
      }
      assert p == Selection(g, toFree);
      LegalEvictsEntries(g, toFree, p);
      FilesOfAllGo(storePaths, evictSet, disk);
      DeleteRows(entries, evictSet);
    }

    /** One scan over all entries, stopping as soon as enough is freed. */
    method Scan(entries: seq<PathEntry>, referrers: map<Hash, set<Hash>>, evictSet: set<Hash>, freed: nat, toFree: nat,
                ghost g: Graph, ghost p: Progress)
      returns (evictSet': set<Hash>, freed': nat, evictedAny: bool)
      requires g.entries == entries && freed < toFree && evictSet == SetOf(p.evicted) && freed == p.freed
      requires forall r, e :: e in referrers && r in referrers[e] <==> (r, e) in g.refs && r in HashesOf(entries)
      ensures var next := Pass(g, entries, toFree, p);
              && evictSet' == SetOf(next.evicted) && freed' == next.freed
              && (evictedAny <==> next.evicted != p.evicted)
              && |next.evicted| >= |p.evicted|
              && (evictedAny ==> |next.evicted| > |p.evicted|)
    {
      evictSet', freed', evictedAny := evictSet, freed, false;
      ghost var q := p;
      var i := 0;
      assert entries[0..] == entries;
      while i < |entries|
        invariant 0 <= i <= |entries|
        invariant evictSet' == SetOf(q.evicted) && freed' == q.freed
        invariant Pass(g, entries[i..], toFree, q) == Pass(g, entries, toFree, p)
        invariant |q.evicted| >= |p.evicted|
        invariant if evictedAny then |q.evicted| > |p.evicted| else q == p
        invariant freed' < toFree
      {
        assert entries[i..][1..] == entries[i + 1..];
        var entry := entries[i];
        var pinned := entry.hash in referrers
                      && exists r :: r in referrers[entry.hash] && r != entry.hash && r !in evictSet';
        PinnedMeans(g, referrers, q.evicted, entry.hash);
        if entry.hash !in evictSet' && !pinned {
          evictSet' := evictSet' + {entry.hash};
          freed' := freed' + entry.size;
          evictedAny := true;
          q := Progress(q.evicted + [entry.hash], q.freed + entry.size);
          if freed' >= toFree {
            PassOnlyGrows(g, entries[i + 1..], toFree, q);
            return;
          }
        }
        i := i + 1;
      }
    }

    /** Deletes the evicted rows, every reference from or to them, and their files. */
    method DeleteRows(entries: seq<PathEntry>, evictSet: set<Hash>)
      requires evictSet <= HashesOf(entries)
      modifies this
      ensures storePaths == old(storePaths) - evictSet && refs == RefsWithout(old(refs), evictSet)
      ensures disk == old(disk) - FilesOfAll(old(storePaths), evictSet)
    {
      ghost var gone: set<Hash> := {};
      var i := 0;
      assert RefsWithout(refs, gone) == refs;
      while i < |entries|
        invariant 0 <= i <= |entries|
        invariant gone == evictSet * HashesOf(entries[..i])
        invariant storePaths == old(storePaths) - gone && refs == RefsWithout(old(refs), gone)
        invariant disk == old(disk) - FilesOfAll(old(storePaths), gone)
      {
        var h := entries[i].hash;
        assert entries[..i + 1] == entries[..i] + [entries[i]];
        HashesSnoc(entries[..i], entries[i]);
        if h in evictSet {
          FilesOfOneMore(old(storePaths), gone, h);
          DeleteRow(h);
          gone := gone + {h};
        }
        i := i + 1;
      }
      assert entries[..i] == entries && gone == evictSet;
    }

    method DeleteRow(h: Hash)
      modifies this
      ensures storePaths == old(storePaths) - {h} && refs == RefsWithout(old(refs), {h})
      ensures disk == old(disk) - if h in old(storePaths) then FilesOf(h, old(storePaths)[h]) else {}
    {
      if h in storePaths {
        disk := disk - {h + ".narinfo"};
        disk := disk - {storePaths[h].narUrl};
      }
      refs := set p | p in refs && p.0 != h;
      refs := set p | p in refs && p.1 != h;
      storePaths := storePaths - {h};
    }

    /** Runs the collector if the cache is over its limit. */
    method MaybeRunGc(maxSize: nat, targetSize: nat) returns (ghost g: Graph)
      modifies this
      ensures old(Total()) <= maxSize ==> storePaths == old(storePaths) && refs == old(refs) && disk == old(disk)
      ensures FilesGo(old(storePaths), storePaths, old(disk), disk)
      ensures old(Total()) > maxSize ==>
                && ByAccess(old(storePaths), g.entries) && g.refs == old(refs)
                && var p := Selection(g, if old(Total()) > targetSize then old(Total()) - targetSize else 0);
                   storePaths == old(storePaths) - SetOf(p.evicted)
                   && refs == RefsWithout(old(refs), SetOf(p.evicted))
                   && disk == old(disk) - FilesOfAll(old(storePaths), SetOf(p.evicted))
                   && old(Total()) == Total() + p.freed
                   && (Total() <= targetSize || exists chain :: Cycle(g, chain) && SetOf(chain) <= storePaths.Keys)
                   && (Total() <= targetSize <==> old(Total()) <= targetSize + FreeBytes(g))
    {
      var total := TotalBytes();
      g := Graph([], refs);
      if total > maxSize {
        ghost var before := storePaths;
        g := RunGc(total, targetSize);
        GcOutcome(before, g, total, targetSize);
      }
    }

    /** SELECT SUM(file_size + narinfo_size). */
    method TotalBytes() returns (total: nat)
      ensures total == Total()
    {
      total := 0;
      var todo := storePaths.Keys;
      while todo != {}
        invariant todo <= storePaths.Keys
        invariant total + SumPaths(storePaths, todo) == Total()
        decreases |todo|
      {
        var h :| h in todo;
        SumPathsRemove(storePaths, todo, h);
        total := total + storePaths[h].size;
        todo := todo - {h};
      }
    }
  }

  lemma FilesOfOneMore(paths: map<Hash, StorePath>, gone: set<Hash>, h: Hash)
    ensures FilesOfAll(paths, gone + {h}) == FilesOfAll(paths, gone) + if h in paths then FilesOf(h, paths[h]) else {}
  {
  }

  lemma HashesSnoc(es: seq<PathEntry>, e: PathEntry)
    ensures HashesOf(es + [e]) == HashesOf(es) + {e.hash}
  {
  }

  lemma PinnedMeans(g: Graph, referrers: map<Hash, set<Hash>>, evicted: seq<Hash>, h: Hash)
    requires forall r, e :: e in referrers && r in referrers[e] <==> (r, e) in g.refs && r in HashesOf(g.entries)
    ensures Pinned(g, evicted, h) <==> h in referrers && exists r :: r in referrers[h] && r != h && r !in SetOf(evicted)
  {
    if Pinned(g, evicted, h) {
      var p :| p in g.refs && p.1 == h && p.0 != h && p.0 in HashesOf(g.entries) && p.0 !in evicted;
      assert (p.0, h) in g.refs;
    }
    if h in referrers && exists r :: r in referrers[h] && r != h && r !in SetOf(evicted) {
      var r :| r in referrers[h] && r != h && r !in SetOf(evicted);
      assert (r, h).1 == h && (r, h) in g.refs;
    }
  }

  lemma LegalEvictsEntries(g: Graph, need: nat, p: Progress)
    requires Legal(g, need, p)
    ensures SetOf(p.evicted) <= HashesOf(g.entries)
  {
    forall h | h in p.evicted
      ensures h in HashesOf(g.entries)
    {
      var k :| 0 <= k < |p.evicted| && p.evicted[k] == h;
      assert LegalAt(g, need, p.evicted, k);
    }
  }

  /** Bytes are conserved, and the target is met exactly if the paths that are free of reference cycles make up
      for the excess; otherwise a cycle survives. */
  lemma GcOutcome(before: map<Hash, StorePath>, g: Graph, total: nat, target: nat)
    requires ByAccess(before, g.entries) && total == SumPaths(before, before.Keys)
    ensures var p := Selection(g, if total > target then total - target else 0);
            var after := before - SetOf(p.evicted);
            && total == SumPaths(after, after.Keys) + p.freed
            && (SumPaths(after, after.Keys) <= target
                || exists chain :: Cycle(g, chain) && SetOf(chain) <= after.Keys)
            && (SumPaths(after, after.Keys) <= target <==> total <= target + FreeBytes(g))
  {
    var need := if total > target then total - target else 0;
    var p := Selection(g, need);
    var after := before - SetOf(p.evicted);
    SelectionKeepsClosed(g, need);
    LegalEvictsEntries(g, need, p);
    SumWithout(before, g.entries, p.evicted);
    assert after.Keys == before.Keys - SetOf(p.evicted);
    SumPathsAgree(before, after, after.Keys);
    ListedSum(before, g.entries);
    TargetIsMetIffFree(g, need);
    var chain := SelectionProgress(g, need);
    if p.freed < need {
      assert SetOf(chain) <= after.Keys;
    }
  }

  // --- What a run leaves ---

  /** A retained path keeps all its references: none of them is to an evicted path. */
  lemma RetainedPathsKeepTheirReferences(paths: map<Hash, StorePath>, g: Graph, need: nat, r: Hash, e: Hash)
    requires ByAccess(paths, g.entries) && (r, e) in g.refs
    requires r in paths && r !in Selection(g, need).evicted
    ensures e !in Selection(g, need).evicted
    ensures (r, e) in RefsWithout(g.refs, SetOf(Selection(g, need).evicted))
  {
    SelectionKeepsClosed(g, need);
    var ev := Selection(g, need).evicted;
    assert r in HashesOf(g.entries);
    assert e in ev && r != e ==> Before(ev, r, e);
  }
}
