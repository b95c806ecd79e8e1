/** The access times of the castore over whole runs: its collector evicts what was requested least recently. */
module CasAccess {
  import opened Base
  import opened NarFormat
  import opened Merkle
  import opened CasStore
  import CasGc

  /** An operation that puts `h` or reports an access to it. */
  ghost predicate Requests(op: Op, h: Hash) {
    match op
    case OpPutNar(k, data, _) => k == h && ParseNar(data).Ok?
    case OpPutNarinfo(k, _) => k == h
    case OpAccess(hashes, _) => h in hashes
    case OpStoreChunk(_) => false
    case OpEvict(_) => false
  }

  ghost predicate LastRequest(ops: seq<Op>, h: Hash, i: int) {
    0 <= i < |ops| && Requests(ops[i], h) && forall j :: i < j < |ops| ==> !Requests(ops[j], h)
  }

  /** An access is dated back to the full hour, a put is not. */
  ghost function Recorded(op: Op): nat
    requires op.OpPutNar? || op.OpPutNarinfo? || op.OpAccess?
  {
    if op.OpAccess? then op.now / 3600 * 3600 else op.now
  }

  // --- Every run ---

  /** After every run, the access time of a path is that of the last request for it. */
  lemma {:induction false} LastAccessIsLastRequest(c: Config, ops: seq<Op>, h: Hash) returns (i: nat)
    requires h in Run(c, ops).paths
    ensures LastRequest(ops, h, i) && Run(c, ops).paths[h].lastAccess == Recorded(ops[i])
    decreases |ops|
  {
    var n := |ops| - 1;
    StepRecords(c, Run(c, ops[..n]), ops[n], h);
    if Requests(ops[n], h) {
      i := n;
    } else {
      i := LastAccessIsLastRequest(c, ops[..n], h);
      assert forall j :: 0 <= j < n ==> ops[..n][j] == ops[j];
    }
  }

  lemma StepRecords(c: Config, s: Store, op: Op, h: Hash)
    requires h in Step(c, s, op).paths
    ensures var access := Step(c, s, op).paths[h].lastAccess;
            if Requests(op, h) then access == Recorded(op)
            else h in s.paths && access == s.paths[h].lastAccess
  {
    if op.OpPutNar? && ParseNar(op.data).Ok? {
      IngestKeepsPaths(c, s, ParseNar(op.data).value);
    }
  }

  lemma {:induction false} IngestKeepsPaths(c: Config, s: Store, t: NarNode)
    ensures Ingest(c, s, t).paths == s.paths
    decreases t, 1
  {
    match t
    case Regular(_, data) => InsertChunksKeepsPaths(c, s, c.chunk(data));
    case Directory(entries) => IngestEntriesKeepsPaths(c, s, entries);
    case Symlink(_) =>
  }

  lemma {:induction false} IngestEntriesKeepsPaths(c: Config, s: Store, es: seq<DirEntry>)
    ensures IngestEntries(c, s, es).paths == s.paths
    decreases es, 0
  {
    if es != [] {
      IngestKeepsPaths(c, s, es[0].node);
      IngestEntriesKeepsPaths(c, Ingest(c, s, es[0].node), es[1..]);
    }
  }

  lemma {:induction false} InsertChunksKeepsPaths(c: Config, s: Store, pieces: seq<Bytes>)
    ensures InsertChunks(c, s, pieces).paths == s.paths
    decreases |pieces|
  {
    if pieces != [] {
      InsertChunksKeepsPaths(c, InsertChunk(c, s, pieces[0]), pieces[1..]);
    }
  }

  // --- The order of eviction ---

  /** Of a path that a collection evicts and one that it keeps, the last request for the evicted one came before
      the other's, or less than an hour after it. */
  lemma LeastRecentlyRequestedGo(c: Config, ops: seq<Op>, after: Store, h: Hash, k: Hash) returns (i: nat, j: nat)
    requires CasGc.OldestGone(Run(c, ops), after)
    requires h in Run(c, ops).paths && h !in after.paths && k in after.paths
    ensures LastRequest(ops, h, i) && LastRequest(ops, k, j) && ops[i].now < ops[j].now + 3600
  {
    assert CasGc.NotAfter(Run(c, ops).paths, h, k);
    i := LastAccessIsLastRequest(c, ops, h);
    j := LastAccessIsLastRequest(c, ops, k);
  }

  /** The path requested earlier is the older one, unless it was put within an hour, and after the full hour, in
      which the other was accessed. */
  lemma EarlierIsOlderIff(c: Config, ops: seq<Op>, h: Hash, k: Hash, i: nat, j: nat)
    requires h in Run(c, ops).paths && k in Run(c, ops).paths
    requires LastRequest(ops, h, i) && LastRequest(ops, k, j) && ops[i].now < ops[j].now
    ensures var paths := Run(c, ops).paths;
            paths[h].lastAccess <= paths[k].lastAccess
            <==> !(&& !ops[i].OpAccess? && ops[j].OpAccess?
                   && ops[i].now / 3600 == ops[j].now / 3600 && ops[i].now % 3600 > 0)
  {
    var i' := LastAccessIsLastRequest(c, ops, h);
    var j' := LastAccessIsLastRequest(c, ops, k);
    assert i' == i && j' == j;
    FullHours(ops[i].now, ops[j].now);
  }

  lemma FullHours(t: nat, u: nat)
    requires t < u
    ensures t / 3600 * 3600 <= u / 3600 * 3600
    ensures t <= u / 3600 * 3600 <==> t / 3600 < u / 3600 || t % 3600 == 0
  {
  }

  /** Such a case: the access makes `h` the older path, though it came last. */
  lemma AccessMakesOlder(c: Config, h: Hash, k: Hash)
    requires h != k
    ensures var ops := [OpPutNarinfo(h, 3601), OpPutNarinfo(k, 3602)] + [OpAccess([h], 7199)];
            var paths := Run(c, ops).paths;
            && h in paths && k in paths && paths[h].lastAccess < paths[k].lastAccess
            && LastRequest(ops, h, 2) && LastRequest(ops, k, 1)
  {
    var first, puts := [OpPutNarinfo(h, 3601)], [OpPutNarinfo(h, 3601), OpPutNarinfo(k, 3602)];
    var ops := puts + [OpAccess([h], 7199)];
    assert first[..0] == [] && puts[..1] == first && ops[..2] == puts;
    assert Run(c, first) == PutNarinfo(EMPTY, h, 3601);
    assert Run(c, puts) == PutNarinfo(Run(c, first), k, 3602);
    assert Run(c, ops) == UpdateAccess(Run(c, puts), [h], 7199);
  }
}
