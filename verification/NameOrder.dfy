/** Directory entries in name order: the recursively sorted form of a tree. */
module NameOrder {
  import opened Base
  import opened NarFormat

  // --- Byte-wise order on names ---

  predicate NameLe(a: Bytes, b: Bytes) {
    a == [] || (b != [] && (a[0] < b[0] || (a[0] == b[0] && NameLe(a[1..], b[1..]))))
  }

  /** `a` begins `b`, or is smaller at the first byte where they differ. */
  predicate Precedes(a: Bytes, b: Bytes) {
    a <= b || exists i :: 0 <= i < |a| && i < |b| && a[..i] == b[..i] && a[i] < b[i]
  }

  lemma {:induction false} NameLeIsBytewise(a: Bytes, b: Bytes)
    ensures NameLe(a, b) <==> Precedes(a, b)
    decreases |a|
  {
    if a != [] && b != [] {
      if a[0] == b[0] {
        NameLeIsBytewise(a[1..], b[1..]);
        PrecedesOfTails(a, b);
      } else if a[0] < b[0] {
        assert a[..0] == b[..0];
      } else if Precedes(a, b) {
        FirstByteDecides(a, b);
      }
    }
  }

  lemma FirstByteDecides(a: Bytes, b: Bytes)
    requires a != [] && b != [] && Precedes(a, b)
    ensures a[0] <= b[0]
  {
    if !(a <= b) {
      var i :| 0 <= i < |a| && i < |b| && a[..i] == b[..i] && a[i] < b[i];
      assert i > 0 ==> a[..i][0] == a[0] && b[..i][0] == b[0];
    }
  }

  lemma PrecedesOfTails(a: Bytes, b: Bytes)
    requires a != [] && b != [] && a[0] == b[0]
    ensures Precedes(a, b) <==> Precedes(a[1..], b[1..])
  {
    assert a == [a[0]] + a[1..] && b == [b[0]] + b[1..];
    if i :| 0 <= i < |a| && i < |b| && a[..i] == b[..i] && a[i] < b[i] {
      assert a[1..][..i - 1] == a[..i][1..] && b[1..][..i - 1] == b[..i][1..];
    }
    if i :| 0 <= i < |a| - 1 && i < |b| - 1 && a[1..][..i] == b[1..][..i] && a[1..][i] < b[1..][i] {
      assert a[..i + 1] == [a[0]] + a[1..][..i] && b[..i + 1] == [b[0]] + b[1..][..i];
    }
  }

  lemma {:induction false} NameLeTotal(a: Bytes, b: Bytes)
    ensures NameLe(a, b) || NameLe(b, a)
    ensures NameLe(a, a)
    decreases |a|
  {
    if a != [] {
      NameLeTotal(a[1..], a[1..]);
      if b != [] {
        NameLeTotal(a[1..], b[1..]);
      }
    }
  }

  lemma {:induction false} NameLeTransitive(a: Bytes, b: Bytes, c: Bytes)
    requires NameLe(a, b) && NameLe(b, c)
    ensures NameLe(a, c)
    decreases |a|
  {
    if a != [] && a[0] == b[0] == c[0] {
      NameLeTransitive(a[1..], b[1..], c[1..]);
    }
  }

  // --- A stable sort, as the list of indices in sorted order ---

  ghost predicate Indices(p: seq<nat>, n: nat) {
    && |p| == n
    && (forall i :: 0 <= i < n ==> p[i] < n)
    && NoDuplicates(p)
  }

  /** By name; equal names stay in their original order. */
  ghost predicate InOrder(names: seq<Bytes>, p: seq<nat>)
    requires forall i :: 0 <= i < |p| ==> p[i] < |names|
  {
    forall i, j :: 0 <= i < j < |p| ==>
      NameLe(names[p[i]], names[p[j]]) && (NameLe(names[p[j]], names[p[i]]) ==> p[i] < p[j])
  }

  function SortedIndices(names: seq<Bytes>): (p: seq<nat>)
    ensures |p| == |names|
    ensures forall i :: 0 <= i < |p| ==> p[i] < |names|
  {
    if names == [] then []
    else
      var last := |names| - 1;
      InsertIndex(names, SortedIndices(names[..last]), last)
  }

  function InsertIndex(names: seq<Bytes>, p: seq<nat>, x: nat): (q: seq<nat>)
    requires x < |names| && forall i :: 0 <= i < |p| ==> p[i] < |names|
    ensures |q| == |p| + 1
    ensures forall i :: 0 <= i < |q| ==> q[i] < |names|
    ensures forall y :: y in q <==> y == x || y in p
    decreases |p|
  {
    if p == [] || NameLe(names[p[|p| - 1]], names[x]) then p + [x]
    else InsertIndex(names, p[..|p| - 1], x) + [p[|p| - 1]]
  }

  lemma {:induction false} InsertIndexInOrder(names: seq<Bytes>, p: seq<nat>, x: nat)
    requires x < |names| && forall i :: 0 <= i < |p| ==> p[i] < x
    requires InOrder(names, p) && NoDuplicates(p)
    ensures InOrder(names, InsertIndex(names, p, x)) && NoDuplicates(InsertIndex(names, p, x))
    decreases |p|
  {
    var q := InsertIndex(names, p, x);
    if p == [] {
    } else {
      var m := |p| - 1;
      NameLeTotal(names[p[m]], names[x]);
      if NameLe(names[p[m]], names[x]) {
        forall i | 0 <= i < |p|
          ensures NameLe(names[p[i]], names[x])
        {
          if i < m {
            NameLeTransitive(names[p[i]], names[p[m]], names[x]);
          }
        }
      } else {
        InsertIndexInOrder(names, p[..m], x);
        var r := InsertIndex(names, p[..m], x);
        assert q == r + [p[m]];
        forall i | 0 <= i < |r|
          ensures r[i] != p[m] && NameLe(names[r[i]], names[p[m]])
          ensures NameLe(names[p[m]], names[r[i]]) ==> r[i] < p[m]
        {
          assert r[i] in r;
          if r[i] != x {
            var k :| 0 <= k < m && p[k] == r[i];
          }
        }
      }
    }
  }

  lemma {:induction false} SortedIndicesSorts(names: seq<Bytes>)
    ensures Indices(SortedIndices(names), |names|) && InOrder(names, SortedIndices(names))
    decreases |names|
  {
    if names != [] {
      var last := |names| - 1;
      var p := SortedIndices(names[..last]);
      SortedIndicesSorts(names[..last]);
      assert InOrder(names, p);
      InsertIndexInOrder(names, p, last);
    }
  }

  /** Every entry has its place. */
  lemma {:induction false} SortedIndicesHaveAll(names: seq<Bytes>, k: nat)
    requires k < |names|
    ensures k in SortedIndices(names)
    decreases |names|
  {
    if k < |names| - 1 {
      SortedIndicesHaveAll(names[..|names| - 1], k);
    }
  }

  ghost predicate NamesSorted(names: seq<Bytes>) {
    forall i, j :: 0 <= i < j < |names| ==> NameLe(names[i], names[j])
  }

  lemma {:induction false} SortedIndicesOfSorted(names: seq<Bytes>)
    requires NamesSorted(names)
    ensures forall i :: 0 <= i < |names| ==> SortedIndices(names)[i] == i
    decreases |names|
  {
    if names != [] {
      SortedIndicesOfSorted(names[..|names| - 1]);
    }
  }

  // --- Sorting entries ---

  function Permute<T>(s: seq<T>, p: seq<nat>): (r: seq<T>)
    requires forall i :: 0 <= i < |p| ==> p[i] < |s|
    ensures |r| == |p| && forall i :: 0 <= i < |p| ==> r[i] == s[p[i]]
  {
    seq(|p|, i requires 0 <= i < |p| => s[p[i]])
  }

  function Names(es: seq<DirEntry>): (names: seq<Bytes>)
    ensures |names| == |es| && forall i :: 0 <= i < |es| ==> names[i] == es[i].name
  {
    seq(|es|, i requires 0 <= i < |es| => es[i].name)
  }

  function SortEntries(es: seq<DirEntry>): (r: seq<DirEntry>)
    ensures |r| == |es|
  {
    Permute(es, SortedIndices(Names(es)))
  }

  /** `t` with the entries of every directory in name order. */
  function Canon(t: NarNode): NarNode
    decreases t, 1
  {
    match t
    case Regular(_, _) => t
    case Directory(entries) => Directory(SortEntries(CanonEntries(entries)))
    case Symlink(_) => t
  }

  function CanonEntries(es: seq<DirEntry>): (r: seq<DirEntry>)
    ensures |r| == |es|
    ensures forall i :: 0 <= i < |es| ==> r[i].name == es[i].name
    decreases es, 0
  {
    if es == [] then [] else [DirEntry(es[0].name, Canon(es[0].node))] + CanonEntries(es[1..])
  }

  lemma {:induction false} CanonEntriesAt(es: seq<DirEntry>, i: nat)
    requires i < |es|
    ensures CanonEntries(es)[i] == DirEntry(es[i].name, Canon(es[i].node))
  {
    if i > 0 {
      CanonEntriesAt(es[1..], i - 1);
    }
  }

  ghost predicate SortedTree(t: NarNode)
    decreases t, 1
  {
    t.Directory? ==> NamesSorted(Names(t.entries)) && SortedNodes(t.entries)
  }

  ghost predicate SortedNodes(es: seq<DirEntry>)
    decreases es, 0
  {
    es == [] || (SortedTree(es[0].node) && SortedNodes(es[1..]))
  }

  lemma {:induction false} SortedNodesAt(es: seq<DirEntry>)
    ensures SortedNodes(es) <==> forall i :: 0 <= i < |es| ==> SortedTree(es[i].node)
  {
    if es != [] {
      SortedNodesAt(es[1..]);
      assert forall i :: 1 <= i < |es| ==> es[i] == es[1..][i - 1];
    }
  }

  lemma {:induction false} CanonIsSorted(t: NarNode)
    ensures SortedTree(Canon(t))
    decreases t, 1
  {
    if t.Directory? {
      var es := CanonEntries(t.entries);
      var p := SortedIndices(Names(es));
      SortedIndicesSorts(Names(es));
      CanonEntriesAreSorted(t.entries);
      SortedNodesAt(es);
      SortedNodesAt(SortEntries(es));
    }
  }

  lemma {:induction false} CanonEntriesAreSorted(es: seq<DirEntry>)
    ensures SortedNodes(CanonEntries(es))
    decreases es, 0
  {
    if es != [] {
      CanonIsSorted(es[0].node);
      CanonEntriesAreSorted(es[1..]);
    }
  }

  lemma {:induction false} CanonOfSorted(t: NarNode)
    requires SortedTree(t)
    ensures Canon(t) == t
    decreases t, 1
  {
    if t.Directory? {
      CanonEntriesOfSorted(t.entries);
      SortedIndicesOfSorted(Names(t.entries));
      assert SortEntries(t.entries) == t.entries;
    }
  }

  lemma {:induction false} CanonEntriesOfSorted(es: seq<DirEntry>)
    requires SortedNodes(es)
    ensures CanonEntries(es) == es
    decreases es, 0
  {
    if es != [] {
      CanonOfSorted(es[0].node);
      CanonEntriesOfSorted(es[1..]);
    }
  }

  // --- The order of what is written ---

  ghost predicate NamesAscend(es: seq<DirEntry>) {
    forall i, j :: 0 <= i < j < |es| ==> Precedes(es[i].name, es[j].name)
  }

  /** In every directory the names are in byte-wise order. */
  ghost predicate Ascending(t: NarNode)
    decreases t, 1
  {
    t.Directory? ==> NamesAscend(t.entries) && AllAscending(t.entries)
  }

  ghost predicate AllAscending(es: seq<DirEntry>)
    decreases es, 0
  {
    es == [] || (Ascending(es[0].node) && AllAscending(es[1..]))
  }

  lemma {:induction false} SortedIsAscending(t: NarNode)
    ensures SortedTree(t) <==> Ascending(t)
    decreases t, 1
  {
    if t.Directory? {
      SortedAreAscending(t.entries);
      var names := Names(t.entries);
      forall i, j | 0 <= i < j < |names|
        ensures NameLe(names[i], names[j]) <==> Precedes(t.entries[i].name, t.entries[j].name)
      {
        NameLeIsBytewise(names[i], names[j]);
      }
    }
  }

  lemma {:induction false} SortedAreAscending(es: seq<DirEntry>)
    ensures SortedNodes(es) <==> AllAscending(es)
    decreases es, 0
  {
    if es != [] {
      SortedIsAscending(es[0].node);
      SortedAreAscending(es[1..]);
    }
  }

  /** `r` is `t` with the entries of its directories in some other order. */
  ghost predicate Reordered(t: NarNode, r: NarNode)
    decreases t
  {
    match t
    case Directory(es) => r.Directory? && |r.entries| == |es| && exists p :: ReorderedBy(t, r, p)
    case _ => r == t
  }

  ghost predicate ReorderedBy(t: NarNode, r: NarNode, p: seq<nat>)
    requires t.Directory? && r.Directory? && |r.entries| == |t.entries|
    decreases t, 0
  {
    && Indices(p, |t.entries|)
    && forall i :: 0 <= i < |p| ==> r.entries[i].name == t.entries[p[i]].name
                                    && Reordered(t.entries[p[i]].node, r.entries[i].node)
  }

  lemma {:induction false} CanonIsReordered(t: NarNode)
    ensures Reordered(t, Canon(t))
  {
    if t.Directory? {
      var es := CanonEntries(t.entries);
      var p := SortedIndices(Names(es));
      SortedIndicesSorts(Names(es));
      forall i | 0 <= i < |p|
        ensures Canon(t).entries[i].name == t.entries[p[i]].name
                && Reordered(t.entries[p[i]].node, Canon(t).entries[i].node)
      {
        CanonEntriesAt(t.entries, p[i]);
        CanonIsReordered(t.entries[p[i]].node);
      }
      assert ReorderedBy(t, Canon(t), p);
    }
  }
}
