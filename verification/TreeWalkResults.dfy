/** What a negotiation returns for a list of wanted paths, and why that is exact. */
module TreeWalkResults {
  import opened Base
  import opened NarFormat
  import opened Merkle
  import opened CasStore
  import opened CasReads
  import opened Castores
  import opened DirSources
  import opened TreeWalks

  /** The trees of those wanted paths that have one. */
  function WantedTrees(m: Catalog, wants: seq<Hash>): seq<NarNode> {
    if wants == [] then []
    else
      (if wants[0] in m && m[wants[0]].Holding? then [m[wants[0]].tree] else [])
      + WantedTrees(m, wants[1..])
  }

  function AllDirs(c: Config, ts: seq<NarNode>): seq<DirRow> {
    if ts == [] then [] else Dirs(c, ts[0]) + AllDirs(c, ts[1..])
  }

  function AllContents(ts: seq<NarNode>): seq<Bytes> {
    if ts == [] then [] else Contents(ts[0]) + AllContents(ts[1..])
  }

  datatype WalkResult = WalkResult(
    missing: seq<ChunkRef>,
    directories: seq<DirRow>,
    mappings: seq<FileMapping>)

  /** Walking every wanted tree in full and keeping first occurrences. */
  function NaiveWalk(c: Config, have: Digest -> bool, ts: seq<NarNode>): WalkResult {
    WalkResult(AddNew([], MissingOf(c, have, AllContents(ts))),
               AddNew([], AllDirs(c, ts)),
               AddNew([], MappingsOf(c, AllContents(ts))))
  }

  lemma HeldTreeIsAnswerable(c: Config, s: Store, m: Catalog, h: Hash)
    requires Sound(c) && Inv(c, s, m) && h in m && m[h].Holding?
    ensures s.paths[h].root == CaOf(c, m[h].tree)
    ensures Answers(c, ServerReader(c, s), Dirs(c, m[h].tree), Contents(m[h].tree))
  {
    var t := m[h].tree;
    assert PathRight(c, s, h, t);
    HeldTreeIsComplete(c, s, t);
    forall x | x in Contents(t)
      ensures RowsOf(s.fileChunks, c.hash(x)) == Refs(c, x)
    {
      OnlyEmptyFilesHaveNoChunks(c, x);
    }
  }

  method WalkCasTrees(store: Castore, wants: seq<Hash>, have: Digest -> bool) returns (r: WalkResult)
    requires store.Valid()
    modifies store.dirCache
    ensures store.Valid()
    ensures r == NaiveWalk(store.cfg, have, WantedTrees(store.catalog, wants))
  {
    var walk := StartWalk(store, have);
    ghost var ts := WalkAll(store, walk, wants);
    r := WalkResult(walk.missing, walk.directories, walk.mappings);
  }

  method WalkAll(store: Castore, walk: TreeWalk, wants: seq<Hash>) returns (ghost ts: seq<NarNode>)
    requires store.Valid() && Underway(store, walk, []) && Loads(store, walk)
    modifies walk, store.dirCache
    ensures store.Valid() && Loads(store, walk)
    ensures Underway(store, walk, ts) && ts == WantedTrees(store.catalog, wants)
  {
    ts := [];
    var i := 0;
    assert wants[0..] == wants;
    while i < |wants|
      invariant 0 <= i <= |wants|
      invariant store.Valid() && Underway(store, walk, ts) && Loads(store, walk)
      invariant ts + WantedTrees(store.catalog, wants[i..]) == WantedTrees(store.catalog, wants)
    {
      WantedStep(store.catalog, wants, i, ts);
      ts := WalkWanted(store, walk, wants[i], ts);
      i := i + 1;
    }
    assert ts + [] == ts;
  }

  method WalkWanted(store: Castore, walk: TreeWalk, h: Hash, ghost ts: seq<NarNode>) returns (ghost all: seq<NarNode>)
    requires store.Valid() && Underway(store, walk, ts) && Loads(store, walk)
    modifies walk, store.dirCache
    ensures store.Valid() && Loads(store, walk)
    ensures all == ts + WantedTrees(store.catalog, [h]) && Underway(store, walk, all)
  {
    var root;
    ghost var found;
    root, found := RootOf(store, h);
    WalkRoot(store, walk, root, found, ts);
    LoadingKeepsValid(store, walk);
    all := ts + found;
  }

  method WalkRoot(store: Castore, walk: TreeWalk, root: CaNode, ghost found: seq<NarNode>, ghost ts: seq<NarNode>)
    requires Underway(store, walk, ts) && Loads(store, walk) && (root.CaEmpty? <==> found == [])
    requires !root.CaEmpty? ==>
               && |found| == 1 && root == CaOf(walk.cfg, found[0])
               && Answers(walk.cfg, walk.reader, Dirs(walk.cfg, found[0]), Contents(found[0]))
    modifies walk, store.dirCache
    ensures Loads(store, walk) && Underway(store, walk, ts + found)
  {
    ghost var s := store.State();
    WalkFound(walk, root, found, ts);
    assert store.State() == s;
  }

  /** Directories are loaded through the cache of the store. */
  ghost predicate Loads(store: Castore, walk: TreeWalk)
    reads walk.src.Footprint()
  {
    walk.src.cache == store.dirCache && walk.src.Valid() && walk.src.Backs(walk.reader)
  }

  lemma LoadingKeepsValid(store: Castore, walk: TreeWalk)
    requires Loads(store, walk) && walk.reader == ServerReader(store.cfg, store.State())
    requires store.TablesValid()
    ensures store.Valid()
  {
    forall d | d in store.dirCache.table
      ensures LookupDir(store.cfg, store.directories, true, d) == Ok(store.dirCache.table[d])
    {
      assert walk.src.lookup(d) == Ok(store.dirCache.table[d]);
    }
  }

  /** The walk has collected exactly the trees `ts`. */
  ghost predicate Underway(store: Castore, walk: TreeWalk, ts: seq<NarNode>)
    reads store, walk
  {
    && walk.cfg == store.cfg && walk.reader == ServerReader(store.cfg, store.State())
    && Walked(walk, ts)
  }

  ghost predicate Walked(walk: TreeWalk, ts: seq<NarNode>)
    reads walk
  {
    walk.Right({}) && Adds(walk.cfg, walk.have, NOTHING, walk.Now(), AllDirs(walk.cfg, ts), AllContents(ts))
  }

  method StartWalk(store: Castore, have: Digest -> bool) returns (walk: TreeWalk)
    requires store.Valid()
    ensures fresh(walk) && walk.have == have && Underway(store, walk, [])
    ensures Loads(store, walk)
  {
    ServerIsGenuine(store.cfg, store.State());
    var src := store.Directories();
    walk := new TreeWalk(ServerReader(store.cfg, store.State()), src, have, store.cfg);
    AddsNothing(store.cfg, have, NOTHING);
  }

  lemma WantedStep(m: Catalog, wants: seq<Hash>, i: nat, ts: seq<NarNode>)
    requires i < |wants|
    ensures ts + WantedTrees(m, wants[i..])
            == ts + WantedTrees(m, [wants[i]]) + WantedTrees(m, wants[i + 1..])
  {
  }

  /** The root of one wanted path, if it has a tree. */
  method RootOf(store: Castore, h: Hash) returns (root: CaNode, ghost ts: seq<NarNode>)
    requires store.Valid()
    ensures ts == WantedTrees(store.catalog, [h])
    ensures root.CaEmpty? <==> ts == []
    ensures !root.CaEmpty? ==>
              && |ts| == 1 && root == CaOf(store.cfg, ts[0])
              && Answers(store.cfg, ServerReader(store.cfg, store.State()), Dirs(store.cfg, ts[0]), Contents(ts[0]))
  {
    root := if h in store.paths then store.paths[h].root else CaEmpty;
    ts := WantedTrees(store.catalog, [h]);
    if !root.CaEmpty? {
      HeldTreeIsAnswerable(store.cfg, store.State(), store.catalog, h);
    }
  }

  /** Walks the tree of one wanted path, if there is one; `ts` lists the trees walked so far. */
  method WalkFound(walk: TreeWalk, root: CaNode, ghost found: seq<NarNode>, ghost ts: seq<NarNode>)
    requires Walked(walk, ts) && (root.CaEmpty? <==> found == [])
    requires !root.CaEmpty? ==>
               && |found| == 1 && root == CaOf(walk.cfg, found[0])
               && Answers(walk.cfg, walk.reader, Dirs(walk.cfg, found[0]), Contents(found[0]))
    requires walk.src.Valid() && walk.src.Backs(walk.reader)
    modifies walk, walk.src.Footprint()
    ensures walk.src.Valid()
    ensures Walked(walk, ts + found)
  {
    if root.CaEmpty? {
      assert ts + found == ts;
      return;
    }
    ghost var t := found[0];
    assert found == [t];
    walk.WalkNext(root, t, {}, NOTHING, AllDirs(walk.cfg, ts), AllContents(ts));
    AllSnoc(walk.cfg, ts, t);
  }

  lemma {:induction false} AllSnoc(c: Config, ts: seq<NarNode>, t: NarNode)
    ensures AllDirs(c, ts + [t]) == AllDirs(c, ts) + Dirs(c, t)
    ensures AllContents(ts + [t]) == AllContents(ts) + Contents(t)
  {
    if ts == [] {
      assert [] + [t] == [t];
    } else {
      assert (ts + [t])[1..] == ts[1..] + [t];
      AllSnoc(c, ts[1..], t);
    }
  }

  // --- Exactness ---

  /** Every chunk of the wanted trees that is not claimed is listed once, and no other. */
  lemma MissingIsExact(c: Config, have: Digest -> bool, ts: seq<NarNode>)
    requires Sound(c)
    ensures var missing := NaiveWalk(c, have, ts).missing;
            && (forall r :: r in missing <==> !have(r.digest) && Needs(c, AllContents(ts), r))
            && (forall i, j :: 0 <= i < j < |missing| ==> missing[i].digest != missing[j].digest)
  {
    var all := MissingOf(c, have, AllContents(ts));
    MissingExact(c, have, AllContents(ts));
    AddNewExact([], all);
    DistinctChunks(c, AllContents(ts), AddNew([], all));
  }

  lemma DistinctChunks(c: Config, xs: seq<Bytes>, refs: seq<ChunkRef>)
    requires Sound(c) && NoDuplicates(refs) && forall r :: r in refs ==> Needs(c, xs, r)
    ensures forall i, j :: 0 <= i < j < |refs| ==> refs[i].digest != refs[j].digest
  {
    forall i, j | 0 <= i < j < |refs|
      ensures refs[i].digest != refs[j].digest
    {
      assert refs[i] in refs && refs[j] in refs;
      SizeIsDetermined(c, xs, refs[i]);
      SizeIsDetermined(c, xs, refs[j]);
    }
  }

  lemma SizeIsDetermined(c: Config, xs: seq<Bytes>, r: ChunkRef)
    requires Sound(c) && Needs(c, xs, r)
    ensures r == ChunkRef(r.digest, |c.preimage(r.digest)|)
  {
  }

  /** Every non-empty file reached has exactly one mapping, its own chunk list. */
  lemma MappingsAreExact(c: Config, have: Digest -> bool, ts: seq<NarNode>)
    requires Sound(c)
    ensures var mappings := NaiveWalk(c, have, ts).mappings;
            && (forall m :: m in mappings <==> Maps(c, AllContents(ts), m))
            && (forall i, j :: 0 <= i < j < |mappings| ==> mappings[i].file != mappings[j].file)
  {
    var all := MappingsOf(c, AllContents(ts));
    MappingsExact(c, AllContents(ts));
    AddNewExact([], all);
    var mappings := AddNew([], all);
    forall i, j | 0 <= i < j < |mappings|
      ensures mappings[i].file != mappings[j].file
    {
      assert mappings[i] in all && mappings[j] in all;
      MappingIsDetermined(c, AllContents(ts), mappings[i]);
      MappingIsDetermined(c, AllContents(ts), mappings[j]);
    }
  }

  lemma MappingIsDetermined(c: Config, xs: seq<Bytes>, m: FileMapping)
    requires Sound(c) && Maps(c, xs, m)
    ensures m == FileMapping(m.file, Refs(c, c.preimage(m.file)))
  {
  }

  // --- Directories: once each, children first ---

  ghost predicate Listed(rows: seq<DirRow>, d: Digest) {
    exists i :: 0 <= i < |rows| && rows[i].digest == d
  }

  /** Every directory entry of `dir` is already among `rows`. */
  ghost predicate ChildrenListed(dir: CaDirectory, rows: seq<DirRow>) {
    forall k :: 0 <= k < |dir.entries| && dir.entries[k].node.CaDir? ==> Listed(rows, dir.entries[k].node.digest)
  }

  ghost predicate ChildrenFirst(rows: seq<DirRow>) {
    forall i :: 0 <= i < |rows| ==> ChildrenListed(rows[i].dir, rows[..i])
  }

  lemma {:induction false} AddDirsKeepsChildrenFirst(c: Config, rows: seq<DirRow>, t: NarNode)
    requires ChildrenFirst(rows)
    ensures ChildrenFirst(AddNew(rows, Dirs(c, t)))
    decreases t, 1
  {
    if t.Directory? {
      var es, row := t.entries, DirRowOf(c, t.entries);
      var inner := AddNew(rows, EntriesDirs(c, es));
      AddEntriesKeepsChildrenFirst(c, rows, es);
      AddNewAppend(rows, EntriesDirs(c, es), [row]);
      AddNewExact(rows, EntriesDirs(c, es));
      assert AddNew(inner, [row]) == if row in inner then inner else AddNew(inner + [row], []);
      forall k | 0 <= k < |es| && CaEntries(c, es)[k].node.CaDir?
        ensures Listed(inner, CaEntries(c, es)[k].node.digest)
      {
        CaEntriesAt(c, es, k);
        ChildRowIsBelow(c, es, k);
        var r := DirRowOf(c, es[k].node.entries);
        var i :| 0 <= i < |inner| && inner[i] == r;
      }
      SnocKeepsChildrenFirst(inner, row);
    }
  }

  lemma SnocKeepsChildrenFirst(rows: seq<DirRow>, row: DirRow)
    requires ChildrenFirst(rows) && ChildrenListed(row.dir, rows)
    ensures ChildrenFirst(rows + [row])
  {
    var out := rows + [row];
    assert out[..|rows|] == rows;
    assert forall i :: 0 <= i < |rows| ==> out[..i] == rows[..i];
  }

  lemma {:induction false} AddEntriesKeepsChildrenFirst(c: Config, rows: seq<DirRow>, es: seq<DirEntry>)
    requires ChildrenFirst(rows)
    ensures ChildrenFirst(AddNew(rows, EntriesDirs(c, es)))
    decreases es, 0
  {
    if es != [] {
      AddDirsKeepsChildrenFirst(c, rows, es[0].node);
      AddEntriesKeepsChildrenFirst(c, AddNew(rows, Dirs(c, es[0].node)), es[1..]);
      AddNewAppend(rows, Dirs(c, es[0].node), EntriesDirs(c, es[1..]));
    }
  }

  lemma {:induction false} ChildRowIsBelow(c: Config, es: seq<DirEntry>, k: nat)
    requires k < |es| && es[k].node.Directory?
    ensures DirRowOf(c, es[k].node.entries) in EntriesDirs(c, es)
  {
    if k == 0 {
      var rows := Dirs(c, es[0].node);
      assert rows[|rows| - 1] == DirRowOf(c, es[0].node.entries);
    } else {
      ChildRowIsBelow(c, es[1..], k - 1);
    }
  }

  lemma {:induction false} AddAllKeepsChildrenFirst(c: Config, rows: seq<DirRow>, ts: seq<NarNode>)
    requires ChildrenFirst(rows)
    ensures ChildrenFirst(AddNew(rows, AllDirs(c, ts)))
    decreases |ts|
  {
    if ts != [] {
      AddDirsKeepsChildrenFirst(c, rows, ts[0]);
      AddAllKeepsChildrenFirst(c, AddNew(rows, Dirs(c, ts[0])), ts[1..]);
      AddNewAppend(rows, Dirs(c, ts[0]), AllDirs(c, ts[1..]));
    }
  }

  lemma {:induction false} AllDirsAreAddressed(c: Config, ts: seq<NarNode>)
    ensures Addressed(c, AllDirs(c, ts))
  {
    if ts != [] {
      DirsAreAddressed(c, ts[0]);
      AllDirsAreAddressed(c, ts[1..]);
    }
  }

  /** Every directory reached is emitted once, under its own digest, after all its children. */
  lemma DirectoriesAreExact(c: Config, have: Digest -> bool, ts: seq<NarNode>)
    requires Sound(c)
    ensures var rows := NaiveWalk(c, have, ts).directories;
            && (forall r :: r in rows <==> r in AllDirs(c, ts))
            && (forall i, j :: 0 <= i < j < |rows| ==> rows[i].digest != rows[j].digest)
            && Addressed(c, rows)
            && ChildrenFirst(rows)
  {
    var rows := AddNew([], AllDirs(c, ts));
    AddNewExact([], AllDirs(c, ts));
    AllDirsAreAddressed(c, ts);
    AddAllKeepsChildrenFirst(c, [], ts);
    forall i, j | 0 <= i < j < |rows|
      ensures rows[i].digest != rows[j].digest
    {
      assert rows[i] in rows && rows[j] in rows;
      if rows[i].digest == rows[j].digest {
        SameDigestSameDir(c, rows[i].dir, rows[j].dir);
      }
    }
  }
}
