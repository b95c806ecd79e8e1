/** The layered download plan: batches of paths whose references are available before the batch starts. */
module DownloadPlans {
  import opened PathNames

  datatype ManifestEntry = ManifestEntry(storePath: string, references: seq<string>)

  datatype Batch = Batch(paths: seq<string>, priority: nat)

  const U32: nat := 0x1_0000_0000

  predicate Ready(available: set<string>, e: ManifestEntry) {
    forall r :: r in e.references ==> HashPart(r) in available
  }

  function Name(es: seq<ManifestEntry>, i: nat): string
    requires i < |es|
  {
    HashPart(es[i].storePath)
  }

  /** The hashes of those of the first `k` entries that are in `s`, in order. */
  function Names(es: seq<ManifestEntry>, k: nat, s: set<nat>): seq<string>
    requires k <= |es|
  {
    if k == 0 then [] else Names(es, k - 1, s) + (if k - 1 in s then [Name(es, k - 1)] else [])
  }

  // --- What a plan is ---

  /** The batch of every entry that has a regular one. */
  type Layers = map<nat, nat>

  /** What is available when batch `b` starts. */
  ghost function Before(es: seq<ManifestEntry>, have: set<string>, layers: Layers, b: nat): set<string> {
    have + set i | i in layers && i < |es| && layers[i] < b :: Name(es, i)
  }

  function LayerOf(layers: Layers, b: nat): set<nat> {
    set i | i in layers && layers[i] == b
  }

  ghost predicate ByLayer(layers: Layers, i: nat, b: nat) { i in layers && layers[i] <= b }

  /** Up to batch `n`, an entry has a batch as soon as its references are available, and not before. */
  ghost predicate Layered(es: seq<ManifestEntry>, have: set<string>, layers: Layers, n: nat) {
    && (forall i :: i in layers ==> i < |es| && layers[i] < n)
    && forall i, b :: 0 <= i < |es| && 0 <= b < n ==>
                        (Ready(Before(es, have, layers, b), es[i]) <==> ByLayer(layers, i, b))
  }

  /** A layering that cannot be continued: batch `n` would be empty. */
  ghost predicate Finished(es: seq<ManifestEntry>, have: set<string>, layers: Layers, n: nat) {
    && Layered(es, have, layers, n)
    && (forall b :: 0 <= b < n ==> LayerOf(layers, b) != {})
    && forall i :: 0 <= i < |es| && Ready(Before(es, have, layers, n), es[i]) ==> i in layers
  }

  function Leftover(es: seq<ManifestEntry>, layers: Layers): set<nat> {
    set i | 0 <= i < |es| && i !in layers
  }

  ghost predicate Regular(es: seq<ManifestEntry>, layers: Layers, batches: seq<Batch>, n: nat) {
    && n <= |batches|
    && forall b :: 0 <= b < n ==> batches[b] == Batch(Names(es, |es|, LayerOf(layers, b)), b % U32)
  }

  /** One batch per layer and, if any entry has none, one more with all of those. */
  ghost predicate IsPlan(es: seq<ManifestEntry>, layers: Layers, batches: seq<Batch>, n: nat) {
    && Regular(es, layers, batches, n)
    && var rest := Leftover(es, layers);
       if rest == {} then |batches| == n
       else |batches| == n + 1 && batches[n] == Batch(Names(es, |es|, rest), n % U32)
  }

  /** The planner's state between two batches. */
  ghost predicate Planned(es: seq<ManifestEntry>, have: set<string>, layers: Layers, n: nat,
                          taken: set<nat>, resolved: set<string>, batches: seq<Batch>) {
    && Layered(es, have, layers, n) && (forall b :: 0 <= b < n ==> LayerOf(layers, b) != {})
    && taken == layers.Keys && resolved == Before(es, have, layers, n)
    && |batches| == n && Regular(es, layers, batches, n)
  }

  // --- The planner ---

  /** `batches` is a plan for some finished layering. */
  ghost predicate Plans(es: seq<ManifestEntry>, have: set<string>, batches: seq<Batch>) {
    exists layers: Layers, n: nat :: Finished(es, have, layers, n) && IsPlan(es, layers, batches, n)
  }

  method BuildDownloadPlan(es: seq<ManifestEntry>, have: set<string>) returns (batches: seq<Batch>)
    ensures Plans(es, have, batches)
  {
    var taken: set<nat> := {};
    var resolved := have;
    batches := [];
    ghost var layers: Layers, n: nat := map[], 0;
    assert Before(es, have, layers, 0) == have;
    var more := true;
    while more
      invariant more ==> Planned(es, have, layers, n, taken, resolved, batches)
      invariant !more ==> Finished(es, have, layers, n) && IsPlan(es, layers, batches, n)
      decreases more, Leftover(es, layers)
    {
      batches, taken, resolved, more, layers, n := PlanBatch(es, have, taken, resolved, batches, layers, n);
    }
  }

  /** One round of the planner's loop; `more` is false where the loop is left. */
  method PlanBatch(es: seq<ManifestEntry>, have: set<string>, taken: set<nat>, resolved: set<string>,
                   batches: seq<Batch>, ghost layers: Layers, ghost n: nat)
    returns (batches': seq<Batch>, taken': set<nat>, resolved': set<string>, more: bool,
             ghost layers': Layers, ghost n': nat)
    requires Planned(es, have, layers, n, taken, resolved, batches)
    ensures more ==> Planned(es, have, layers', n', taken', resolved', batches')
                     && Leftover(es, layers') < Leftover(es, layers)
    ensures !more ==> Finished(es, have, layers', n') && IsPlan(es, layers', batches', n')
  {
    batches', resolved', more, layers', n' := batches, resolved, false, layers, n;
    var paths;
    paths, taken' := CollectReady(es, taken, resolved);
    ghost var added := ReadyBelow(es, taken, resolved, |es|);
    if paths == [] {
      NoNames(es, |es|, added);
      paths := CollectRest(es, taken);
      LastBatch(es, have, layers, n, taken, resolved, batches);
      if paths != [] {
        batches' := batches + [Batch(paths, |batches| % U32)];
      }
      return;
    }
    NoNames(es, |es|, added);
    AddBatch(es, have, layers, n, taken, resolved, batches, added);
    resolved' := resolved + set h | h in paths;
    batches' := batches + [Batch(paths, |batches| % U32)];
    layers', n' := AddLayer(layers, added, n), n + 1;
    more := |taken'| != |es|;
    if !more {
      NoLastBatch(es, have, layers', n', taken', resolved', batches');
    }
  }

  function ReadyBelow(es: seq<ManifestEntry>, taken: set<nat>, resolved: set<string>, k: nat): set<nat>
    requires k <= |es|
  {
    set i | 0 <= i < k && i !in taken && Ready(resolved, es[i])
  }

  /** One pass over the entries against a fixed set of available hashes. */
  method CollectReady(es: seq<ManifestEntry>, taken: set<nat>, resolved: set<string>)
    returns (paths: seq<string>, taken': set<nat>)
    ensures taken' == taken + ReadyBelow(es, taken, resolved, |es|)
    ensures paths == Names(es, |es|, ReadyBelow(es, taken, resolved, |es|))
  {
    paths, taken' := [], taken;
    ghost var added := {};
    var k := 0;
    while k < |es|
      invariant 0 <= k <= |es|
      invariant added == ReadyBelow(es, taken, resolved, k) && taken' == taken + added
      invariant paths == Names(es, k, added)
    {
      if k !in taken' && Ready(resolved, es[k]) {
        NamesAgree(es, k, added, added + {k});
        paths := paths + [HashPart(es[k].storePath)];
        taken' := taken' + {k};
        added := added + {k};
      }
      k := k + 1;
    }
  }

  method CollectRest(es: seq<ManifestEntry>, taken: set<nat>) returns (paths: seq<string>)
    ensures paths == Names(es, |es|, set i | 0 <= i < |es| && i !in taken)
  {
    paths := [];
    ghost var rest := set i | 0 <= i < |es| && i !in taken;
    var k := 0;
    while k < |es|
      invariant 0 <= k <= |es|
      invariant paths == Names(es, k, rest)
    {
      if k !in taken {
        paths := paths + [HashPart(es[k].storePath)];
      }
      k := k + 1;
    }
  }

  // --- Bookkeeping ---

  lemma {:induction false} NamesAgree(es: seq<ManifestEntry>, k: nat, s: set<nat>, t: set<nat>)
    requires k <= |es| && forall i :: 0 <= i < k ==> (i in s <==> i in t)
    ensures Names(es, k, s) == Names(es, k, t)
  {
    if k > 0 {
      NamesAgree(es, k - 1, s, t);
    }
  }

  lemma {:induction false} NamesExact(es: seq<ManifestEntry>, k: nat, s: set<nat>)
    requires k <= |es|
    ensures forall h :: h in Names(es, k, s) <==> exists i :: 0 <= i < k && i in s && Name(es, i) == h
  {
    if k > 0 {
      NamesExact(es, k - 1, s);
      if k - 1 in s {
        assert Name(es, k - 1) in Names(es, k, s);
      }
    }
  }

  lemma NoNames(es: seq<ManifestEntry>, k: nat, s: set<nat>)
    requires k <= |es| && forall i :: i in s ==> i < k
    ensures Names(es, k, s) == [] <==> s == {}
  {
  }

  lemma AddBatch(es: seq<ManifestEntry>, have: set<string>, layers: Layers, n: nat,
                 taken: set<nat>, resolved: set<string>, batches: seq<Batch>, added: set<nat>)
    requires Planned(es, have, layers, n, taken, resolved, batches)
    requires added == ReadyBelow(es, taken, resolved, |es|) && added != {}
    ensures var paths := Names(es, |es|, added);
            Planned(es, have, AddLayer(layers, added, n), n + 1, taken + added,
                    resolved + (set h | h in paths), batches + [Batch(paths, |batches| % U32)])
    ensures Names(es, |es|, added) != []
    ensures Leftover(es, AddLayer(layers, added, n)) < Leftover(es, layers)
  {
    var i :| i in added;
    assert i in Leftover(es, layers) && i !in Leftover(es, AddLayer(layers, added, n));
    NoNames(es, |es|, added);
    NextLayer(es, have, layers, n, added);
    BeforeNext(es, have, layers, n, added);
    LayersOfGrown(layers, added, n);
    NamesExact(es, |es|, added);
    var paths := Names(es, |es|, added);
    assert (set h | h in paths) == set i | i in added && i < |es| :: Name(es, i);
  }

  lemma LastBatch(es: seq<ManifestEntry>, have: set<string>, layers: Layers, n: nat,
                  taken: set<nat>, resolved: set<string>, batches: seq<Batch>)
    requires Planned(es, have, layers, n, taken, resolved, batches)
    requires ReadyBelow(es, taken, resolved, |es|) == {}
    ensures Finished(es, have, layers, n)
    ensures var paths := Names(es, |es|, set i | 0 <= i < |es| && i !in taken);
            IsPlan(es, layers, if paths == [] then batches else batches + [Batch(paths, |batches| % U32)], n)
  {
    assert Leftover(es, layers) == set i | 0 <= i < |es| && i !in taken;
    NoNames(es, |es|, Leftover(es, layers));
    forall i | 0 <= i < |es| && Ready(Before(es, have, layers, n), es[i])
      ensures i in layers
    {
      assert i !in ReadyBelow(es, taken, resolved, |es|);
    }
  }

  lemma NoLastBatch(es: seq<ManifestEntry>, have: set<string>, layers: Layers, n: nat,
                    taken: set<nat>, resolved: set<string>, batches: seq<Batch>)
    requires Planned(es, have, layers, n, taken, resolved, batches) && |taken| == |es|
    ensures Finished(es, have, layers, n) && IsPlan(es, layers, batches, n)
  {
    AllTaken(|es|, taken);
    assert Leftover(es, layers) == {};
  }

  lemma AllTaken(n: nat, s: set<nat>)
    requires (forall i :: i in s ==> i < n) && |s| == n
    ensures forall i :: 0 <= i < n ==> i in s
  {
    forall i | 0 <= i < n
      ensures i in s
    {
      RangeBound(n, s + {i});
      assert i !in s ==> |s + {i}| == n + 1;
    }
  }

  lemma {:induction false} RangeBound(n: nat, s: set<nat>)
    requires forall i :: i in s ==> i < n
    ensures |s| <= n
  {
    if n == 0 {
      assert s == {};
    } else {
      RangeBound(n - 1, s - {n - 1});
    }
  }

  ghost function AddLayer(layers: Layers, added: set<nat>, n: nat): Layers {
    map i | i in layers.Keys + added :: if i in layers then layers[i] else n
  }

  lemma LayersOfGrown(layers: Layers, added: set<nat>, n: nat)
    requires forall i :: i in layers ==> layers[i] < n
    requires added !! layers.Keys
    ensures forall b :: 0 <= b < n ==> LayerOf(AddLayer(layers, added, n), b) == LayerOf(layers, b)
    ensures LayerOf(AddLayer(layers, added, n), n) == added
  {
  }

  lemma BeforeNext(es: seq<ManifestEntry>, have: set<string>, layers: Layers, n: nat, added: set<nat>)
    requires forall i :: i in layers ==> i < |es| && layers[i] < n
    requires added !! layers.Keys && forall i :: i in added ==> i < |es|
    ensures forall b :: 0 <= b <= n ==>
              Before(es, have, AddLayer(layers, added, n), b) == Before(es, have, layers, b)
    ensures Before(es, have, AddLayer(layers, added, n), n + 1)
            == Before(es, have, layers, n) + set i | i in added && i < |es| :: Name(es, i)
  {
  }

  lemma BeforeGrows(es: seq<ManifestEntry>, have: set<string>, layers: Layers, b: nat, c: nat)
    requires b <= c
    ensures Before(es, have, layers, b) <= Before(es, have, layers, c)
  {
  }

  lemma NextLayer(es: seq<ManifestEntry>, have: set<string>, layers: Layers, n: nat, added: set<nat>)
    requires Layered(es, have, layers, n)
    requires added == set i | 0 <= i < |es| && i !in layers && Ready(Before(es, have, layers, n), es[i])
    ensures Layered(es, have, AddLayer(layers, added, n), n + 1)
  {
    var grown := AddLayer(layers, added, n);
    BeforeNext(es, have, layers, n, added);
    forall i, b | 0 <= i < |es| && 0 <= b < n + 1
      ensures Ready(Before(es, have, grown, b), es[i]) <==> ByLayer(grown, i, b)
    {
      if b < n {
        assert Ready(Before(es, have, layers, b), es[i]) <==> ByLayer(layers, i, b);
      } else if i in layers {
        assert Ready(Before(es, have, layers, layers[i]), es[i]) <==> ByLayer(layers, i, layers[i]);
        BeforeGrows(es, have, layers, layers[i], n);
      }
    }
  }

  // --- What a plan guarantees ---

  /** Contains `have`, and every entry whose references it contains. */
  ghost predicate Closed(es: seq<ManifestEntry>, have: set<string>, x: set<string>) {
    have <= x && forall i :: 0 <= i < |es| && Ready(x, es[i]) ==> Name(es, i) in x
  }

  lemma GroundedInClosed(es: seq<ManifestEntry>, have: set<string>, layers: Layers, n: nat, i: nat)
    requires Finished(es, have, layers, n) && i < |es|
    ensures i in layers ==> forall x :: Closed(es, have, x) ==> Ready(x, es[i])
    ensures i !in layers ==> var x := Before(es, have, layers, n); Closed(es, have, x) && !Ready(x, es[i])
  {
    if i in layers {
      forall x | Closed(es, have, x)
        ensures Ready(x, es[i])
      {
        var b := layers[i];
        assert ByLayer(layers, i, b);
        BeforeIsGrounded(es, have, layers, n, b, x);
      }
    }
  }

  /** An entry gets a regular batch exactly if its references can be grounded in `have`: they lie in every
      set that contains `have` and every entry whose references it contains. The leftover batch is the rest. */
  lemma RegularIffGrounded(es: seq<ManifestEntry>, have: set<string>, layers: Layers, n: nat, i: nat)
    requires Finished(es, have, layers, n) && i < |es|
    ensures i in layers <==>
            forall x | have <= x
                       && forall j :: 0 <= j < |es| && (forall r :: r in es[j].references ==> HashPart(r) in x)
                                      ==> HashPart(es[j].storePath) in x
                    :: forall r :: r in es[i].references ==> HashPart(r) in x
  {
    GroundedInClosed(es, have, layers, n, i);
    forall x | have <= x
               && forall j :: 0 <= j < |es| && (forall r :: r in es[j].references ==> HashPart(r) in x)
                              ==> HashPart(es[j].storePath) in x
      ensures Closed(es, have, x)
    {
    }
  }

  lemma {:induction false} BeforeIsGrounded(es: seq<ManifestEntry>, have: set<string>, layers: Layers, n: nat,
                                            b: nat, x: set<string>)
    requires Layered(es, have, layers, n) && Closed(es, have, x) && b <= n
    ensures Before(es, have, layers, b) <= x
  {
    if b > 0 {
      BeforeIsGrounded(es, have, layers, n, b - 1, x);
      forall i | i in layers && layers[i] == b - 1
        ensures Name(es, i) in x
      {
        assert ByLayer(layers, i, b - 1);
      }
    }
  }

  /** Dependencies first, and no entry waits longer than it must. */
  lemma DependenciesComeFirst(es: seq<ManifestEntry>, have: set<string>, layers: Layers, n: nat, i: nat)
    requires Layered(es, have, layers, n) && i in layers
    ensures forall r :: r in es[i].references ==> HashPart(r) in Before(es, have, layers, layers[i])
    ensures layers[i] > 0 ==> exists r, j :: r in es[i].references && j in layers
                                             && Name(es, j) == HashPart(r) && layers[j] == layers[i] - 1
  {
    var b := layers[i];
    assert ByLayer(layers, i, b);
    if b > 0 {
      assert !ByLayer(layers, i, b - 1);
      var r :| r in es[i].references && HashPart(r) !in Before(es, have, layers, b - 1);
      assert HashPart(r) in Before(es, have, layers, b);
      var j :| j in layers && layers[j] < b && Name(es, j) == HashPart(r);
    }
  }

  lemma FirstLayer(es: seq<ManifestEntry>, have: set<string>, layers: Layers, n: nat)
    requires Finished(es, have, layers, n) && exists i :: 0 <= i < |es| && Ready(have, es[i])
    ensures n > 0 && LayerOf(layers, 0) == set i | 0 <= i < |es| && Ready(have, es[i])
  {
    assert Before(es, have, layers, 0) == have;
    var i :| 0 <= i < |es| && Ready(have, es[i]);
    if n > 0 {
      assert forall j :: 0 <= j < |es| ==> (Ready(have, es[j]) <==> ByLayer(layers, j, 0));
    }
  }

  lemma ReadyNames(es: seq<ManifestEntry>, have: set<string>, h: string)
    ensures h in Names(es, |es|, set i | 0 <= i < |es| && Ready(have, es[i])) <==>
            exists i :: 0 <= i < |es| && HashPart(es[i].storePath) == h
                        && forall r :: r in es[i].references ==> HashPart(r) in have
  {
    var ready := set i | 0 <= i < |es| && Ready(have, es[i]);
    NamesExact(es, |es|, ready);
    if h in Names(es, |es|, ready) {
      var i :| 0 <= i < |es| && i in ready && Name(es, i) == h;
    }
    if i :| 0 <= i < |es| && HashPart(es[i].storePath) == h && Ready(have, es[i]) {
      assert i in ready && Name(es, i) == h;
    }
  }

  /** If any entry needs nothing but what the client has, the first batch is the entries of this kind. */
  lemma FirstBatchNeedsNothing(es: seq<ManifestEntry>, have: set<string>, batches: seq<Batch>)
    requires Plans(es, have, batches)
    requires exists i :: 0 <= i < |es| && forall r :: r in es[i].references ==> HashPart(r) in have
    ensures batches != [] && batches[0].priority == 0
    ensures forall h :: h in batches[0].paths <==>
              exists i :: 0 <= i < |es| && HashPart(es[i].storePath) == h
                          && forall r :: r in es[i].references ==> HashPart(r) in have
  {
    var layers: Layers, n: nat :| Finished(es, have, layers, n) && IsPlan(es, layers, batches, n);
    assert exists i :: 0 <= i < |es| && Ready(have, es[i]);
    FirstLayer(es, have, layers, n);
    assert batches[0] == Batch(Names(es, |es|, LayerOf(layers, 0)), 0);
    forall h
      ensures h in batches[0].paths <==>
              exists i :: 0 <= i < |es| && HashPart(es[i].storePath) == h
                          && forall r :: r in es[i].references ==> HashPart(r) in have
    {
      ReadyNames(es, have, h);
    }
  }

  /** If every entry for `h` references itself, none of them is grounded, unless the client has `h`. */
  lemma SelfReferenceIsLeftover(es: seq<ManifestEntry>, have: set<string>, layers: Layers, n: nat, h: string)
    requires Layered(es, have, layers, n) && h !in have
    requires forall i :: 0 <= i < |es| && Name(es, i) == h ==> exists r :: r in es[i].references && HashPart(r) == h
    ensures forall i :: i in layers ==> Name(es, i) != h
  {
    forall i | i in layers
      ensures Name(es, i) != h
    {
      if Name(es, i) == h {
        SelfReferenceWaits(es, have, layers, n, h, i);
      }
    }
  }

  /** An entry for `h` in a regular batch would need an earlier one. */
  lemma {:induction false} SelfReferenceWaits(es: seq<ManifestEntry>, have: set<string>, layers: Layers, n: nat,
                                              h: string, i: nat)
    requires Layered(es, have, layers, n) && h !in have && i in layers && Name(es, i) == h
    requires forall i :: 0 <= i < |es| && Name(es, i) == h ==> exists r :: r in es[i].references && HashPart(r) == h
    ensures false
    decreases layers[i]
  {
    DependenciesComeFirst(es, have, layers, n, i);
    var r :| r in es[i].references && HashPart(r) == h;
    var j :| j in layers && layers[j] < layers[i] && Name(es, j) == h;
    SelfReferenceWaits(es, have, layers, n, h, j);
  }

  // --- There is only one plan ---

  ghost predicate Below(layers: Layers, i: nat, b: nat) { i in layers && layers[i] < b }

  lemma SameBelowSameBefore(es: seq<ManifestEntry>, have: set<string>, a: Layers, b: Layers, k: nat)
    requires forall i :: Below(a, i, k) <==> Below(b, i, k)
    ensures Before(es, have, a, k) == Before(es, have, b, k)
  {
    forall x
      ensures x in Before(es, have, a, k) <==> x in Before(es, have, b, k)
    {
      if x in Before(es, have, a, k) && x !in have {
        var i :| i in a && i < |es| && a[i] < k && Name(es, i) == x;
        assert Below(a, i, k);
      }
      if x in Before(es, have, b, k) && x !in have {
        var i :| i in b && i < |es| && b[i] < k && Name(es, i) == x;
        assert Below(b, i, k);
      }
    }
  }

  lemma {:induction false} LayersAgree(es: seq<ManifestEntry>, have: set<string>, a: Layers, m: nat,
                                       b: Layers, n: nat, k: nat)
    requires Layered(es, have, a, m) && Layered(es, have, b, n) && k <= m && k <= n
    ensures forall i :: Below(a, i, k) <==> Below(b, i, k)
  {
    if k > 0 {
      LayersAgree(es, have, a, m, b, n, k - 1);
      SameBelowSameBefore(es, have, a, b, k - 1);
      forall i: nat
        ensures Below(a, i, k) <==> Below(b, i, k)
      {
        if i < |es| {
          assert ByLayer(a, i, k - 1) <==> ByLayer(b, i, k - 1);
        }
      }
    }
  }

  lemma LaterLayerIsEmpty(es: seq<ManifestEntry>, have: set<string>, a: Layers, m: nat, b: Layers, n: nat)
    requires Finished(es, have, a, m) && Layered(es, have, b, n) && m < n
    ensures LayerOf(b, m) == {}
  {
    LayersAgree(es, have, a, m, b, n, m);
    SameBelowSameBefore(es, have, a, b, m);
    forall i | 0 <= i < |es|
      ensures i !in LayerOf(b, m)
    {
      assert Ready(Before(es, have, b, m), es[i]) <==> ByLayer(b, i, m);
      assert i in a ==> Below(a, i, m);
    }
  }

  lemma NotFinishedEarlier(es: seq<ManifestEntry>, have: set<string>, a: Layers, m: nat, b: Layers, n: nat)
    requires Finished(es, have, a, m) && Finished(es, have, b, n)
    ensures n <= m
  {
    if m < n {
      LaterLayerIsEmpty(es, have, a, m, b, n);
    }
  }

  lemma SameBatches(es: seq<ManifestEntry>, layers: Layers, p: seq<Batch>, q: seq<Batch>, n: nat)
    requires IsPlan(es, layers, p, n) && IsPlan(es, layers, q, n)
    ensures p == q
  {
    forall b | 0 <= b < n
      ensures p[b] == q[b]
    {
    }
  }

  /** Any two plans for the same entries are equal: being a finished layering leaves no choice. */
  lemma PlanIsUnique(es: seq<ManifestEntry>, have: set<string>, p: seq<Batch>, q: seq<Batch>)
    requires Plans(es, have, p) && Plans(es, have, q)
    ensures p == q
  {
    var a: Layers, m: nat :| Finished(es, have, a, m) && IsPlan(es, a, p, m);
    var b: Layers, n: nat :| Finished(es, have, b, n) && IsPlan(es, b, q, n);
    SameLayering(es, have, a, m, b, n);
    SameBatches(es, a, p, q, m);
  }

  lemma SameLayering(es: seq<ManifestEntry>, have: set<string>, a: Layers, m: nat, b: Layers, n: nat)
    requires Finished(es, have, a, m) && Finished(es, have, b, n)
    ensures m == n && a == b
  {
    NotFinishedEarlier(es, have, a, m, b, n);
    NotFinishedEarlier(es, have, b, n, a, m);
    LayersAgree(es, have, a, m, b, n, m);
    assert forall i :: Below(a, i, m) <==> i in a;
    assert forall i :: Below(b, i, m) <==> i in b;
    forall i | i in a
      ensures a[i] == b[i]
    {
      LayersAgree(es, have, a, m, b, n, a[i] + 1);
      LayersAgree(es, have, a, m, b, n, a[i]);
      assert Below(a, i, a[i] + 1) && !Below(a, i, a[i]);
    }
  }

  // --- Nothing lost, nothing twice ---

  function PathsOf(batches: seq<Batch>): seq<string> {
    if batches == [] then [] else PathsOf(batches[..|batches| - 1]) + batches[|batches| - 1].paths
  }

  lemma {:induction false} NamesSplit(es: seq<ManifestEntry>, k: nat, s: set<nat>, t: set<nat>)
    requires k <= |es| && s !! t
    ensures multiset(Names(es, k, s + t)) == multiset(Names(es, k, s)) + multiset(Names(es, k, t))
  {
    if k > 0 {
      NamesSplit(es, k - 1, s, t);
    }
  }

  function BelowLayer(layers: Layers, b: nat): set<nat> { set i | i in layers && layers[i] < b }

  lemma {:induction false} RegularPaths(es: seq<ManifestEntry>, layers: Layers, batches: seq<Batch>, b: nat)
    requires Regular(es, layers, batches, b)
    ensures multiset(PathsOf(batches[..b])) == multiset(Names(es, |es|, BelowLayer(layers, b)))
  {
    if b == 0 {
      NamesExact(es, |es|, {});
      assert BelowLayer(layers, 0) == {};
      NoNames(es, |es|, {});
    } else {
      RegularPaths(es, layers, batches, b - 1);
      assert batches[..b][..b - 1] == batches[..b - 1];
      NamesBelow(es, layers, b - 1);
    }
  }

  lemma NamesBelow(es: seq<ManifestEntry>, layers: Layers, b: nat)
    ensures multiset(Names(es, |es|, BelowLayer(layers, b + 1)))
            == multiset(Names(es, |es|, BelowLayer(layers, b))) + multiset(Names(es, |es|, LayerOf(layers, b)))
  {
    assert BelowLayer(layers, b + 1) == BelowLayer(layers, b) + LayerOf(layers, b);
    NamesSplit(es, |es|, BelowLayer(layers, b), LayerOf(layers, b));
  }

  function EntryHashes(es: seq<ManifestEntry>): seq<string> {
    if es == [] then [] else EntryHashes(es[..|es| - 1]) + [HashPart(es[|es| - 1].storePath)]
  }

  /** The batches together list the hash of every entry once. */
  lemma PlanListsEveryEntry(es: seq<ManifestEntry>, have: set<string>, layers: Layers, batches: seq<Batch>, n: nat)
    requires Layered(es, have, layers, n) && IsPlan(es, layers, batches, n)
    ensures multiset(PathsOf(batches)) == multiset(EntryHashes(es))
  {
    var rest := Leftover(es, layers);
    RegularPaths(es, layers, batches, n);
    assert BelowLayer(layers, n) == layers.Keys;
    NamesSplit(es, |es|, layers.Keys, rest);
    AllNames(es, layers.Keys + rest, |es|);
    assert es[..|es|] == es;
    if rest == {} {
      NoNames(es, |es|, rest);
    }
    PathsWithLast(batches, n);
  }

  lemma PathsWithLast(batches: seq<Batch>, n: nat)
    requires n <= |batches| <= n + 1
    ensures PathsOf(batches) == PathsOf(batches[..n]) + (if |batches| == n then [] else batches[n].paths)
  {
    if |batches| == n {
      assert batches[..n] == batches;
    }
  }

  lemma {:induction false} AllNames(es: seq<ManifestEntry>, all: set<nat>, k: nat)
    requires k <= |es| && forall i {:trigger i in all} :: 0 <= i < |es| ==> i in all
    ensures Names(es, k, all) == EntryHashes(es[..k])
  {
    if k > 0 {
      AllNames(es, all, k - 1);
      assert es[..k][..k - 1] == es[..k - 1];
    }
  }
}
