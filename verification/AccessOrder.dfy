/** SELECT ... ORDER BY last_access ASC: the keys of a table, oldest access first, ties in any order. */
module AccessOrder {
  import opened Base

  type Hash = string

  ghost predicate InOrder(access: map<Hash, nat>, h: Hash, k: Hash) {
    h in access && k in access && access[h] <= access[k]
  }

  /** Some of the keys, each once, oldest first. */
  ghost predicate Listing(access: map<Hash, nat>, hs: seq<Hash>) {
    && NoDuplicates(hs)
    && (forall h :: h in hs ==> h in access)
    && (forall i, j :: 0 <= i < j < |hs| ==> InOrder(access, hs[i], hs[j]))
  }

  ghost predicate FullListing(access: map<Hash, nat>, hs: seq<Hash>) {
    Listing(access, hs) && forall h :: h in access ==> h in hs
  }

  lemma ListingSnoc(access: map<Hash, nat>, hs: seq<Hash>, h: Hash)
    requires Listing(access, hs) && h in access && h !in hs
    requires forall k :: k in hs ==> InOrder(access, k, h)
    ensures Listing(access, hs + [h])
  {
  }

  method OrderByAccess(access: map<Hash, nat>) returns (hs: seq<Hash>)
    ensures FullListing(access, hs)
  {
    hs := [];
    var todo := access.Keys;
    while todo != {}
      invariant todo <= access.Keys && forall h :: h in access <==> h in hs || h in todo
      invariant Listing(access, hs) && forall h :: h in todo ==> h !in hs
      invariant forall k, h :: k in hs && h in todo ==> InOrder(access, k, h)
      decreases |todo|
    {
      var h := Oldest(access, todo);
      ListingSnoc(access, hs, h);
      hs := hs + [h];
      todo := todo - {h};
    }
  }

  method Oldest(access: map<Hash, nat>, hs: set<Hash>) returns (h: Hash)
    requires hs != {} && hs <= access.Keys
    ensures h in hs && forall k :: k in hs ==> access[h] <= access[k]
  {
    h :| h in hs;
    var todo := hs - {h};
    while todo != {}
      invariant h in hs && todo <= hs
      invariant forall k :: k in hs - todo ==> access[h] <= access[k]
      decreases |todo|
    {
      var k :| k in todo;
      if access[k] < access[h] {
        h := k;
      }
      todo := todo - {k};
    }
  }
}
