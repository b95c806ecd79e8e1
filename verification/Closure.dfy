/** Expanding wanted hashes to their transitive runtime closure, breadth first. */
module Closures {
  import opened Base
  import opened PathNames

  const MAX_CLOSURE_SIZE: nat := 50_000

  /** The references of every path whose metadata can be read. */
  type References = map<string, seq<string>>

  function RefsOf(refs: References, h: string): seq<string> { if h in refs then refs[h] else [] }

  function Wanted(have: set<string>, hs: seq<string>): seq<string> {
    if hs == [] then []
    else Wanted(have, hs[..|hs| - 1]) + (if hs[|hs| - 1] in have then [] else [hs[|hs| - 1]])
  }

  function HashParts(paths: seq<string>): (hs: seq<string>)
    ensures |hs| == |paths| && forall i :: 0 <= i < |hs| ==> hs[i] == HashPart(paths[i])
  {
    seq(|paths|, i requires 0 <= i < |paths| => HashPart(paths[i]))
  }

  /** Every reference of `h` that the client lacks is in `x`. */
  ghost predicate Covered(have: set<string>, refs: References, h: string, x: set<string>) {
    forall r :: r in RefsOf(refs, h) && HashPart(r) !in have ==> HashPart(r) in x
  }

  /** Contains the seeds and the references of its members, except what the client has. */
  ghost predicate Closed(seeds: seq<string>, have: set<string>, refs: References, x: set<string>) {
    && (forall h :: h in seeds && h !in have ==> h in x)
    && forall h :: h in x ==> Covered(have, refs, h, x)
  }

  /** `result` is done and `queue` waits; together they are all that was ever reached. */
  ghost predicate Searched(seeds: seq<string>, have: set<string>, refs: References,
                           result: seq<string>, queue: seq<string>) {
    var visited := SetOf(result + queue);
    && NoDuplicates(result + queue)
    && visited !! have
    && (forall h :: h in seeds && h !in have ==> h in visited)
    && (forall h :: h in result ==> Covered(have, refs, h, visited))
    && (forall x :: Closed(seeds, have, refs, x) ==> visited <= x)
  }

  method ExpandClosureHashes(seeds: seq<string>, have: set<string>, refs: References) returns (result: seq<string>)
    ensures NoDuplicates(result) && SetOf(result) !! have && |result| <= MAX_CLOSURE_SIZE
    ensures forall x :: Closed(seeds, have, refs, x) ==> SetOf(result) <= x
    ensures Closed(seeds, have, refs, SetOf(result))
            || (|result| == MAX_CLOSURE_SIZE
                && forall x :: Closed(seeds, have, refs, x) ==> |x| > MAX_CLOSURE_SIZE)
  {
    result := [];
    var visited, queue := Enqueue(seeds, have, {}, [], []);
    assert [] + queue == queue && [] + [] == result;
    SeedsAreSearched(seeds, have, refs, queue);
    while queue != []
      invariant visited == SetOf(result + queue) && Searched(seeds, have, refs, result, queue)
      invariant |result| <= MAX_CLOSURE_SIZE
      decreases MAX_CLOSURE_SIZE - |result|, |queue|
    {
      if |result| >= MAX_CLOSURE_SIZE {
        CappedIsTooSmall(seeds, have, refs, result, queue);
        return;
      }
      var hash := queue[0];
      assert result + queue == result + [hash] + queue[1..];
      ghost var before, waiting := result, queue;
      result, queue := result + [hash], queue[1..];
      if hash in refs {
        visited, queue := Enqueue(HashParts(refs[hash]), have, visited, queue, result);
      }
      VisitIsSearched(seeds, have, refs, before, waiting, queue);
    }
    assert result + [] == result;
  }

  /** Queues those of `hs` that are new. */
  method Enqueue(hs: seq<string>, have: set<string>, visited: set<string>, queue: seq<string>,
                 ghost result: seq<string>)
    returns (visited': set<string>, queue': seq<string>)
    requires visited == SetOf(result + queue)
    ensures visited' == SetOf(result + queue')
    ensures result + queue' == AddNew(result + queue, Wanted(have, hs))
  {
    visited', queue' := visited, queue;
    var i := 0;
    while i < |hs|
      invariant 0 <= i <= |hs|
      invariant visited' == SetOf(result + queue')
      invariant result + queue' == AddNew(result + queue, Wanted(have, hs[..i]))
    {
      WantedSnoc(have, hs, i);
      if hs[i] !in have {
        AddNewAppend(result + queue, Wanted(have, hs[..i]), [hs[i]]);
        AddNewOne(result + queue', hs[i]);
        if hs[i] !in visited' {
          assert result + (queue' + [hs[i]]) == result + queue' + [hs[i]];
          visited' := visited' + {hs[i]};
          queue' := queue' + [hs[i]];
        }
      }
      i := i + 1;
    }
    assert hs[..i] == hs;
  }

  lemma WantedSnoc(have: set<string>, hs: seq<string>, i: nat)
    requires i < |hs|
    ensures Wanted(have, hs[..i + 1]) == Wanted(have, hs[..i]) + (if hs[i] in have then [] else [hs[i]])
    ensures hs[i] in have ==> Wanted(have, hs[..i + 1]) == Wanted(have, hs[..i])
  {
    assert hs[..i + 1][..i] == hs[..i];
  }

  lemma AddNewOne(acc: seq<string>, h: string)
    ensures AddNew(acc, [h]) == if h in acc then acc else acc + [h]
  {
  }

  lemma {:induction false} WantedExact(have: set<string>, hs: seq<string>)
    ensures forall h :: h in Wanted(have, hs) <==> h in hs && h !in have
    decreases |hs|
  {
    if hs != [] {
      assert hs == hs[..|hs| - 1] + [hs[|hs| - 1]];
      WantedExact(have, hs[..|hs| - 1]);
    }
  }

  lemma SeedsAreSearched(seeds: seq<string>, have: set<string>, refs: References, queue: seq<string>)
    requires queue == AddNew([], Wanted(have, seeds))
    ensures Searched(seeds, have, refs, [], queue)
  {
    assert [] + queue == queue;
    WantedExact(have, seeds);
    AddNewExact([], Wanted(have, seeds));
  }

  /** The head of the queue moves to the result and its new references are queued. */
  lemma VisitIsSearched(seeds: seq<string>, have: set<string>, refs: References,
                        result: seq<string>, queue: seq<string>, q: seq<string>)
    requires Searched(seeds, have, refs, result, queue) && queue != []
    requires result + [queue[0]] + q == AddNew(result + queue, Wanted(have, HashParts(RefsOf(refs, queue[0]))))
    ensures Searched(seeds, have, refs, result + [queue[0]], q)
  {
    var h, done := queue[0], result + [queue[0]];
    var found := HashParts(RefsOf(refs, h));
    WantedExact(have, found);
    AddNewExact(result + queue, Wanted(have, found));
    var before, visited := SetOf(result + queue), SetOf(done + q);
    assert before <= visited;
    forall r | r in RefsOf(refs, h) && HashPart(r) !in have
      ensures HashPart(r) in visited
    {
      var i :| 0 <= i < |RefsOf(refs, h)| && RefsOf(refs, h)[i] == r;
      assert found[i] in found;
    }
    forall k | k in result
      ensures Covered(have, refs, k, visited)
    {
      assert Covered(have, refs, k, before);
    }
    forall x | Closed(seeds, have, refs, x)
      ensures visited <= x
    {
      FoundAreInClosed(seeds, have, refs, h, before, x);
    }
  }

  lemma FoundAreInClosed(seeds: seq<string>, have: set<string>, refs: References, h: string,
                         before: set<string>, x: set<string>)
    requires Closed(seeds, have, refs, x) && before <= x && h in before
    ensures forall k :: k in HashParts(RefsOf(refs, h)) && k !in have ==> k in x
  {
  }

  lemma CappedIsTooSmall(seeds: seq<string>, have: set<string>, refs: References,
                         result: seq<string>, queue: seq<string>)
    requires Searched(seeds, have, refs, result, queue) && queue != [] && |result| == MAX_CLOSURE_SIZE
    ensures NoDuplicates(result) && SetOf(result) !! have
    ensures forall x :: Closed(seeds, have, refs, x) ==> SetOf(result) <= x && |x| > MAX_CLOSURE_SIZE
  {
    var all := result + queue;
    assert forall i :: 0 <= i < |result| ==> all[i] == result[i];
    assert SetOf(result) <= SetOf(all);
    forall x | Closed(seeds, have, refs, x)
      ensures |x| > MAX_CLOSURE_SIZE
    {
      DistinctWithin(all, x);
    }
  }
}
