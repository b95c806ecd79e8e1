/** The bounded cache of decoded directories: a map and a queue, least recently used first. */
module DirCaches {
  import opened Base
  import opened Merkle

  const DIR_CACHE_CAPACITY: nat := 4096

  datatype Lru = Lru(table: map<Digest, CaDirectory>, order: seq<Digest>)

  function Touch(l: Lru, d: Digest): Lru {
    if d in l.table then l.(order := Without(l.order, d) + [d]) else l
  }

  function Put(l: Lru, capacity: nat, d: Digest, dir: CaDirectory): Lru {
    var kept := if d in l.table then Lru(l.table, Without(l.order, d))
                else if |l.table| >= capacity && l.order != [] then Lru(l.table - {l.order[0]}, l.order[1..])
                else l;
    Lru(kept.table[d := dir], kept.order + [d])
  }

  /** The queue lists the keys, each once. */
  ghost predicate Listed(l: Lru) {
    NoDuplicates(l.order) && (forall d :: d in l.order <==> d in l.table) && |l.order| == |l.table|
  }

  /** A cache of capacity 0 still holds one entry. */
  ghost predicate LruRight(l: Lru, capacity: nat) {
    Listed(l) && |l.table| <= if capacity == 0 then 1 else capacity
  }

  lemma RemoveKeepsListed(l: Lru, d: Digest)
    requires Listed(l) && d in l.table
    ensures Listed(Lru(l.table - {d}, Without(l.order, d)))
    ensures |l.table - {d}| == |l.table| - 1
  {
    WithoutKeepsDistinct(l.order, d);
    assert (l.table - {d}).Keys == l.table.Keys - {d};
  }

  lemma AppendKeepsListed(l: Lru, d: Digest, dir: CaDirectory)
    requires Listed(l) && d !in l.table
    ensures Listed(Lru(l.table[d := dir], l.order + [d]))
    ensures |l.table[d := dir]| == |l.table| + 1
  {
  }

  lemma TouchKeepsRight(l: Lru, capacity: nat, d: Digest)
    requires LruRight(l, capacity)
    ensures LruRight(Touch(l, d), capacity)
  {
    if d in l.table {
      ReplaceKeepsListed(l, d, l.table[d]);
      assert l.table[d := l.table[d]] == l.table;
    }
  }

  lemma WithoutHead(order: seq<Digest>)
    requires order != [] && NoDuplicates(order)
    ensures Without(order, order[0]) == order[1..]
  {
    assert forall j :: 0 <= j < |order| - 1 ==> order[1..][j] == order[j + 1] != order[0];
    assert order[0] !in order[1..];
    WithoutAbsent(order[1..], order[0]);
  }

  lemma {:induction false} WithoutAbsent(s: seq<Digest>, d: Digest)
    requires d !in s
    ensures Without(s, d) == s
  {
    if s != [] {
      WithoutAbsent(s[1..], d);
    }
  }

  lemma ReplaceKeepsListed(l: Lru, d: Digest, dir: CaDirectory)
    requires Listed(l) && d in l.table
    ensures Listed(Lru(l.table[d := dir], Without(l.order, d) + [d]))
    ensures |l.table[d := dir]| == |l.table|
  {
    MoveToBack(l.order, d);
    SameKeys(l.table, d, dir);
  }

  lemma SameKeys(table: map<Digest, CaDirectory>, d: Digest, dir: CaDirectory)
    requires d in table
    ensures table[d := dir].Keys == table.Keys && |table[d := dir]| == |table|
  {
  }

  lemma MoveToBack(order: seq<Digest>, d: Digest)
    requires NoDuplicates(order) && d in order
    ensures var moved := Without(order, d) + [d];
            NoDuplicates(moved) && |moved| == |order| && forall x :: x in moved <==> x in order
  {
    WithoutKeepsDistinct(order, d);
  }

  lemma EvictKeepsListed(l: Lru, d: Digest, dir: CaDirectory)
    requires Listed(l) && d !in l.table && l.order != []
    ensures var rest := l.table - {l.order[0]};
            Listed(Lru(rest[d := dir], l.order[1..] + [d])) && |rest[d := dir]| == |l.table|
  {
    assert l.order[0] in l.order;
    RemoveKeepsListed(l, l.order[0]);
    WithoutHead(l.order);
    AppendKeepsListed(Lru(l.table - {l.order[0]}, l.order[1..]), d, dir);
  }

  lemma PutKeepsRight(l: Lru, capacity: nat, d: Digest, dir: CaDirectory)
    requires LruRight(l, capacity)
    ensures LruRight(Put(l, capacity, d, dir), capacity)
  {
    if d in l.table {
      ReplaceKeepsListed(l, d, dir);
    } else if |l.table| >= capacity && l.order != [] {
      EvictKeepsListed(l, d, dir);
    } else {
      AppendKeepsListed(l, d, dir);
    }
  }

  // --- Over a whole run ---

  datatype CacheOp = CacheGet(digest: Digest) | CacheInsert(digest: Digest, dir: CaDirectory)

  function CacheRun(capacity: nat, ops: seq<CacheOp>): Lru {
    if ops == [] then Lru(map[], [])
    else
      var l := CacheRun(capacity, ops[..|ops| - 1]);
      match ops[|ops| - 1]
      case CacheGet(d) => Touch(l, d)
      case CacheInsert(d, dir) => Put(l, capacity, d, dir)
  }

  /** Position, counted from 1, of the last operation on `d`; 0 if there is none. */
  function LastUse(ops: seq<CacheOp>, d: Digest): (n: nat)
    ensures n <= |ops|
  {
    if ops == [] then 0
    else if ops[|ops| - 1].digest == d then |ops|
    else LastUse(ops[..|ops| - 1], d)
  }

  ghost predicate ByLastUse(ops: seq<CacheOp>, order: seq<Digest>) {
    forall i, j :: 0 <= i < j < |order| ==> LastUse(ops, order[i]) < LastUse(ops, order[j])
  }

  lemma {:induction false} WithoutKeepsOrder(ops: seq<CacheOp>, order: seq<Digest>, d: Digest)
    requires ByLastUse(ops, order)
    ensures ByLastUse(ops, Without(order, d))
  {
    if order != [] {
      WithoutKeepsOrder(ops, order[1..], d);
      if order[0] != d {
        var rest := Without(order[1..], d);
        forall j | 0 <= j < |rest|
          ensures LastUse(ops, order[0]) < LastUse(ops, rest[j])
        {
          assert rest[j] in rest;
          var k :| 0 <= k < |order[1..]| && order[1..][k] == rest[j];
          assert order[k + 1] == rest[j];
        }
      }
    }
  }

  /** Appending the digest just used keeps the order. */
  lemma AppendKeepsOrder(ops: seq<CacheOp>, op: CacheOp, order: seq<Digest>)
    requires ByLastUse(ops, order) && op.digest !in order
    ensures ByLastUse(ops + [op], order + [op.digest])
  {
  }

  lemma {:induction false} TailKeepsOrder(ops: seq<CacheOp>, order: seq<Digest>)
    requires ByLastUse(ops, order) && order != []
    ensures ByLastUse(ops, order[1..])
  {
  }

  /** In every run the queue is in order of last use, so the victim of `Put`, its head, is the
      least recently used entry. */
  lemma {:induction false} QueueIsByLastUse(capacity: nat, ops: seq<CacheOp>)
    ensures var l := CacheRun(capacity, ops);
            LruRight(l, capacity) && ByLastUse(ops, l.order)
    decreases |ops|
  {
    if ops != [] {
      var n := |ops| - 1;
      var l := CacheRun(capacity, ops[..n]);
      var d := ops[n].digest;
      QueueIsByLastUse(capacity, ops[..n]);
      assert ops == ops[..n] + [ops[n]];
      WithoutKeepsOrder(ops[..n], l.order, d);
      AppendKeepsOrder(ops[..n], ops[n], Without(l.order, d));
      match ops[n]
      case CacheGet(_) =>
        TouchKeepsRight(l, capacity, d);
        if d !in l.table {
          MissKeepsOrder(ops[..n], ops[n], l.order);
        }
      case CacheInsert(_, dir) =>
        PutKeepsRight(l, capacity, d, dir);
        if d !in l.table {
          WithoutAbsent(l.order, d);
          if |l.table| >= capacity && l.order != [] {
            TailKeepsOrder(ops[..n], l.order);
            AppendKeepsOrder(ops[..n], ops[n], l.order[1..]);
          }
        }
    }
  }

  lemma MissKeepsOrder(ops: seq<CacheOp>, op: CacheOp, order: seq<Digest>)
    requires ByLastUse(ops, order) && op.digest !in order
    ensures ByLastUse(ops + [op], order)
  {
  }

  class DirCache {
    var table: map<Digest, CaDirectory>
    var order: seq<Digest>
    const capacity: nat
    /** All lookups and insertions so far. */
    ghost var log: seq<CacheOp>

    /** The cache is what its lookups and insertions make it. */
    ghost predicate Logged()
      reads this
    {
      Value() == CacheRun(capacity, log)
    }

    constructor (capacity: nat)
      ensures Logged() && Value() == Lru(map[], []) && this.capacity == capacity
    {
      table := map[];
      order := [];
      this.capacity := capacity;
      log := [];
    }

    function Value(): Lru
      reads this
    {
      Lru(table, order)
    }

    method Retain(digest: Digest)
      modifies this`order
      ensures order == Without(old(order), digest)
    {
      var kept: seq<Digest> := [];
      var i := 0;
      while i < |order|
        invariant 0 <= i <= |order|
        invariant order == old(order)
        invariant kept + Without(order[i..], digest) == Without(order, digest)
      {
        assert order[i..][1..] == order[i + 1..];
        if order[i] != digest {
          kept := kept + [order[i]];
        }
        i := i + 1;
      }
      order := kept;
    }

    method Get(digest: Digest) returns (r: Option<CaDirectory>)
      requires Logged()
      modifies this
      ensures Logged() && log == old(log) + [CacheGet(digest)]
      ensures Value() == Touch(old(Value()), digest)
      ensures r == if digest in old(table) then Some(old(table)[digest]) else None
    {
      log := log + [CacheGet(digest)];
      assert log[..|log| - 1] == old(log);
      if digest in table {
        Retain(digest);
        order := order + [digest];
        r := Some(table[digest]);
      } else {
        r := None;
      }
    }

    method Insert(digest: Digest, dir: CaDirectory)
      requires Logged()
      modifies this
      ensures Logged() && log == old(log) + [CacheInsert(digest, dir)]
      ensures Value() == Put(old(Value()), capacity, digest, dir)
    {
      log := log + [CacheInsert(digest, dir)];
      assert log[..|log| - 1] == old(log);
      if digest in table {
        Retain(digest);
      } else if |table| >= capacity {
        if order != [] {
          var evicted := order[0];
          order := order[1..];
          table := table - {evicted};
        }
      }
      order := order + [digest];
      table := table[digest := dir];
    }
  }

  /** In every reachable state the queue lists the cached keys by last use, within the capacity. */
  lemma LoggedIsLru(cache: DirCache)
    requires cache.Logged()
    ensures LruRight(cache.Value(), cache.capacity) && ByLastUse(cache.log, cache.Value().order)
  {
    QueueIsByLastUse(cache.capacity, cache.log);
  }
}
