/** What comes back for an archive that was put: the same tree, every directory in byte-wise name order. */
module ReturnedArchives {
  import opened Base
  import opened NarFormat
  import opened NarFields
  import opened NarRoundTrip
  import opened NameOrder
  import opened Manifests
  import opened Merkle
  import opened CasStore
  import opened CasReads

  /** `nar` is the archive of `t` up to the order of directory entries, which is ascending. */
  ghost predicate IsSortedArchive(nar: Bytes, t: NarNode) {
    && ParseNar(nar).Ok?
    && IsArchive(nar, ParseNar(nar).value)
    && Ascending(ParseNar(nar).value)
    && Reordered(t, ParseNar(nar).value)
  }

  lemma SortedFormIsArchive(t: NarNode)
    requires Representable(t)
    ensures IsSortedArchive(WriteNar(Canon(t)), t)
  {
    var u := Canon(t);
    CanonIsRepresentable(t);
    CanonIsSorted(t);
    SortedIsAscending(u);
    CanonIsReordered(t);
    ParseInvertsWrite(u, []);
    assert WriteNar(u) + [] == WriteNar(u);
    WrittenIsArchive(u);
  }

  /** The archive put last under `h` comes back sorted, after any run and whatever happens to other paths. */
  lemma PutArchiveIsReturnedSorted(c: Config, ops: seq<Op>, h: Hash, data: Bytes, now: nat, more: seq<Op>)
    requires Sound(c) && ParseNar(data).Ok?
    requires forall op :: op in more ==> Spares(op, h)
    ensures var s := Run(c, ops + [OpPutNar(h, data, now)] + more);
            && HasTree(c, s, h) && GetNar(c, s, h).Ok? && GetNar(c, s, h).value.Some?
            && IsSortedArchive(GetNar(c, s, h).value.value, ParseNar(data).value)
  {
    RunRefinesMap(c, ops + [OpPutNar(h, data, now)] + more, h);
    LastPutStays(ops, h, data, now, more);
    ParsedNarIsRepresentable(data);
    SortedFormIsArchive(ParseNar(data).value);
  }

  /** Every held tree came from an archive. */
  ghost predicate TreesFit(m: Catalog) {
    forall h :: h in m && m[h].Holding? ==> Representable(m[h].tree)
  }

  lemma HeldReadsSorted(m: Catalog, h: Hash)
    requires TreesFit(m)
    ensures AbsRead(m, h).Ok? && AbsRead(m, h).value.Some? ==>
              h in m && m[h].Holding? && IsSortedArchive(AbsRead(m, h).value.value, m[h].tree)
  {
    if h in m && m[h].Holding? {
      SortedFormIsArchive(m[h].tree);
    }
  }

  lemma {:induction false} RunTreesFit(ops: seq<Op>)
    ensures TreesFit(AbsRun(ops))
    decreases |ops|
  {
    if ops != [] {
      var op := ops[|ops| - 1];
      RunTreesFit(ops[..|ops| - 1]);
      if op.OpPutNar? && ParseNar(op.data).Ok? {
        ParsedNarIsRepresentable(op.data);
      }
    }
  }

  /** Whatever `get_nar` returns, in whatever run, is a sorted archive of the tree the path stands for. */
  lemma ReturnedArchiveIsSorted(c: Config, ops: seq<Op>, h: Hash, nar: Bytes)
    requires Sound(c)
    requires HasTree(c, Run(c, ops), h) && GetNar(c, Run(c, ops), h) == Ok(Some(nar))
    ensures h in AbsRun(ops) && AbsRun(ops)[h].Holding? && IsSortedArchive(nar, AbsRun(ops)[h].tree)
  {
    RunRefinesMap(c, ops, h);
    RunTreesFit(ops);
    HeldReadsSorted(AbsRun(ops), h);
  }
}
