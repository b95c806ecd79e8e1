/** Which files the filesystem cache's collector may take from paths that it retains. */
module GcFiles {
  import opened Base
  import opened AccessOrder
  import opened EvictionPlans
  import opened EvictionResults
  import opened Gc

  predicate HasFile(paths: map<Hash, StorePath>, h: Hash, f: string) { h in paths && f in FilesOf(h, paths[h]) }

  lemma FilesOfAllExact(paths: map<Hash, StorePath>, hs: set<Hash>, f: string)
    ensures f in FilesOfAll(paths, hs) <==> exists h :: h in hs && HasFile(paths, h, f)
  {
    if h :| h in hs && HasFile(paths, h, f) {
      assert f in FilesOf(h, paths[h]);
    }
  }

  /** A run that frees `need` removes no file of a path that it retains. */
  ghost predicate FilesAreKept(paths: map<Hash, StorePath>, g: Graph, need: nat)
    requires DistinctHashes(g.entries)
  {
    forall r, f :: HasFile(paths, r, f) && r !in Selection(g, need).evicted
                   ==> f !in FilesOfAll(paths, SetOf(Selection(g, need).evicted))
  }

  ghost predicate Share(paths: map<Hash, StorePath>, r: Hash, e: Hash) {
    r != e && exists f :: HasFile(paths, r, f) && HasFile(paths, e, f)
  }

  /** Paths that share a file are never evicted, because each is on or below a reference cycle. */
  ghost predicate SharersStay(paths: map<Hash, StorePath>, g: Graph) {
    forall r, e :: Share(paths, r, e) ==> Entangled(g, r) && Entangled(g, e)
  }

  lemma SharersKeepFiles(paths: map<Hash, StorePath>, g: Graph, need: nat)
    requires ByAccess(paths, g.entries) && SharersStay(paths, g)
    ensures FilesAreKept(paths, g, need)
  {
    var evicted := Selection(g, need).evicted;
    SelectionKeepsClosed(g, need);
    forall r, f | HasFile(paths, r, f) && r !in evicted
      ensures f !in FilesOfAll(paths, SetOf(evicted))
    {
      FilesOfAllExact(paths, SetOf(evicted), f);
      if e :| e in SetOf(evicted) && HasFile(paths, e, f) {
        assert Share(paths, r, e);
        EntangledStays(g, need, Selection(g, need), e);
        assert false;
      }
    }
  }

  lemma OneOfTwoLosesFile(paths: map<Hash, StorePath>, g: Graph, need: nat, r: Hash, e: Hash)
    requires DistinctHashes(g.entries) && Share(paths, r, e)
    requires e in Selection(g, need).evicted && r !in Selection(g, need).evicted
    ensures !FilesAreKept(paths, g, need)
  {
    var f :| HasFile(paths, r, f) && HasFile(paths, e, f);
    FilesOfAllExact(paths, SetOf(Selection(g, need).evicted), f);
    assert e in SetOf(Selection(g, need).evicted);
  }

  /** An amount that evicts everything that can be evicted. */
  lemma AllFreeAreEvicted(g: Graph, h: Hash)
    requires DistinctHashes(g.entries) && h in HashesOf(g.entries)
    ensures h in Selection(g, FreeBytes(g) + 1).evicted <==> !Entangled(g, h)
  {
    var need := FreeBytes(g) + 1;
    RoundsEnd(g, need, START);
    TargetIsMetIffFree(g, need);
    if Entangled(g, h) {
      EntangledStays(g, need, Selection(g, need), h);
    } else if h !in Selection(g, need).evicted {
      LeftIsEntangled(g, Selection(g, need), h);
    }
  }

  /** If a path that is free of reference cycles shares a file, some amount evicts one of the two only. */
  lemma FreeSharerLosesFile(paths: map<Hash, StorePath>, g: Graph, r: Hash, e: Hash) returns (need: nat)
    requires ByAccess(paths, g.entries) && (forall h :: h in paths ==> paths[h].size > 0)
    requires Share(paths, r, e) && !Entangled(g, e)
    ensures !FilesAreKept(paths, g, need)
  {
    assert r in HashesOf(g.entries) && e in HashesOf(g.entries);
    need := FreeBytes(g) + 1;
    AllFreeAreEvicted(g, r);
    AllFreeAreEvicted(g, e);
    var all := Selection(g, need).evicted;
    if r !in all {
      OneOfTwoLosesFile(paths, g, need, r, e);
    } else {
      RoundsEnd(g, need, START);
      var i :| 0 <= i < |all| && all[i] == r;
      var j :| 0 <= j < |all| && all[j] == e;
      var first := if i < j then i else j;
      SizeInListing(paths, g.entries, all[first]);
      need := PrefixIsSelected(g, need, first);
      if i < j {
        SharesBothWays(paths, r, e);
        OneOfTwoLosesFile(paths, g, need, e, r);
      } else {
        OneOfTwoLosesFile(paths, g, need, r, e);
      }
    }
  }

  lemma SharesBothWays(paths: map<Hash, StorePath>, r: Hash, e: Hash)
    ensures Share(paths, r, e) ==> Share(paths, e, r)
  {
  }

  /** Whatever has to be freed, retained paths keep their files exactly if paths that share a file are all on or
      below a reference cycle. */
  lemma FilesAreKeptIff(paths: map<Hash, StorePath>, g: Graph)
    requires ByAccess(paths, g.entries) && forall h :: h in paths ==> paths[h].size > 0
    ensures (forall need :: FilesAreKept(paths, g, need)) <==> SharersStay(paths, g)
  {
    if SharersStay(paths, g) {
      forall need
        ensures FilesAreKept(paths, g, need)
      {
        SharersKeepFiles(paths, g, need);
      }
    } else {
      var r, e :| Share(paths, r, e) && !(Entangled(g, r) && Entangled(g, e));
      if Entangled(g, e) {
        SharesBothWays(paths, r, e);
        var need := FreeSharerLosesFile(paths, g, e, r);
      } else {
        var need := FreeSharerLosesFile(paths, g, r, e);
      }
    }
  }

  lemma FirstIsSelected(g: Graph, a: PathEntry, b: PathEntry)
    requires g.entries == [a, b] && a.hash != b.hash && a.size == 1 && g.refs == {}
    ensures Selection(g, 1).evicted == [a.hash]
  {
    assert [] + [a.hash] == [a.hash] && g.entries[1..] == [b];
    var p := Pass(g, g.entries, 1, START);
    assert p == Pass(g, [b], 1, Progress([a.hash], 1));
    PassIsLegal(g, g.entries, 1, START);
    EvictedAreEntries(g, 1, p);
    assert Rounds(g, 1, p) == p;
  }

  /** Two paths, the older first, with their archives in the file `f`. */
  function TwoPaths(f: string): map<Hash, StorePath> { map["a" := StorePath(1, 0, f), "b" := StorePath(1, 1, f)] }

  /** Evicting the older deletes the archive of the other. */
  lemma SharedArchiveIsLost(f: string)
    ensures var g := Graph([PathEntry("a", 1), PathEntry("b", 1)], {});
            && ByAccess(TwoPaths(f), g.entries) && Selection(g, 1).evicted == ["a"]
            && HasFile(TwoPaths(f), "b", f) && f in FilesOfAll(TwoPaths(f), {"a"})
  {
    var a, b := PathEntry("a", 1), PathEntry("b", 1);
    assert [a, b][0] == a && [a, b][1] == b;
    assert HashesOf([a, b]) == {"a", "b"};
    FirstIsSelected(Graph([a, b], {}), a, b);
    assert HasFile(TwoPaths(f), "a", f);
    FilesOfAllExact(TwoPaths(f), {"a"}, f);
  }
}
