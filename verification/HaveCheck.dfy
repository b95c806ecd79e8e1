/** What a client tells the server about the chunks it has: the exact set, or a Bloom filter. */
module HaveChecks {
  import opened Base
  import opened Merkle
  import opened Blooms

  /** Up to this many digests are sent as they are. */
  const BLOOM_THRESHOLD: nat := 1_000
  /** The server refuses larger filters. */
  const MAX_BLOOM_BYTES: nat := 16 * 1024 * 1024

  /** A request with an empty filter counts as one without a filter. */
  type Filter = bits: seq<bv8> | bits != [] witness [0]

  datatype HaveCheck = Exact(digests: set<Digest>) | Bloom(bits: Filter, numHashes: nat)

  /** The 32 bytes of every digest. */
  type KeyOf = Digest -> Key

  predicate Contains(check: HaveCheck, keyOf: KeyOf, d: Digest) {
    match check
    case Exact(digests) => d in digests
    case Bloom(bits, numHashes) => Matches(bits, numHashes, keyOf(d))
  }

  /** `d` counts as held by a client that has `had`: it is, or the filter cannot tell. */
  ghost predicate CountsAsHeld(keyOf: KeyOf, had: set<Digest>, numBytes: nat, numHashes: nat, d: Digest)
    requires numBytes > 0
  {
    if |had| <= BLOOM_THRESHOLD then d in had else Claimed(keyOf, had, numHashes, 8 * numBytes, d)
  }

  /** What the client puts into its request; the size of the filter is given. */
  method BuildCheck(ds: seq<Digest>, keyOf: KeyOf, numBytes: nat, numHashes: nat) returns (check: HaveCheck)
    requires NoDuplicates(ds) && numBytes > 0 && numHashes >= 1
    ensures check.Exact? <==> |ds| <= BLOOM_THRESHOLD
    ensures check.Bloom? ==> |check.bits| == numBytes
    ensures forall d :: Contains(check, keyOf, d) <==> CountsAsHeld(keyOf, SetOf(ds), numBytes, numHashes, d)
  {
    SetSize(ds);
    if |ds| > BLOOM_THRESHOLD {
      var bits := FillFilter(ds, keyOf, numBytes, numHashes);
      check := Bloom(bits, numHashes);
    } else {
      check := Exact(set d | d in ds);
    }
  }

  lemma {:induction false} SetSize(ds: seq<Digest>)
    requires NoDuplicates(ds)
    ensures |SetOf(ds)| == |ds|
    decreases |ds|
  {
    if ds != [] {
      var n := |ds| - 1;
      SetSize(ds[..n]);
      assert SetOf(ds) == SetOf(ds[..n]) + {ds[n]};
    }
  }

  method FillFilter(ds: seq<Digest>, keyOf: KeyOf, numBytes: nat, numHashes: nat) returns (bits: seq<bv8>)
    requires numBytes > 0 && numHashes >= 1
    ensures |bits| == numBytes
    ensures forall d :: Matches(bits, numHashes, keyOf(d)) <==> Claimed(keyOf, SetOf(ds), numHashes, 8 * numBytes, d)
  {
    var filter := new BloomFilter(numBytes, numHashes);
    NothingFills(filter.bits[..], numHashes, keyOf);
    var i := 0;
    while i < |ds|
      invariant 0 <= i <= |ds| && fresh(filter.bits)
      invariant Fills(filter.bits[..], numHashes, keyOf, SetOf(ds[..i]))
    {
      OneMoreFills(filter.bits[..], numHashes, keyOf, SetOf(ds[..i]), ds[i]);
      filter.Insert(keyOf(ds[i]));
      assert SetOf(ds[..i + 1]) == SetOf(ds[..i]) + {ds[i]};
      i := i + 1;
    }
    assert ds[..i] == ds;
    bits := filter.IntoBytes();
    forall d
      ensures Matches(bits, numHashes, keyOf(d)) <==> Claimed(keyOf, SetOf(ds), numHashes, 8 * numBytes, d)
    {
      FilledMatches(bits, numHashes, keyOf, SetOf(ds), d);
    }
  }

  /** What the client has is always claimed. */
  lemma HeldIsClaimed(keyOf: KeyOf, had: set<Digest>, numBytes: nat, numHashes: nat, d: Digest)
    requires numBytes > 0 && d in had
    ensures CountsAsHeld(keyOf, had, numBytes, numHashes, d)
  {
    MemberIsClaimed(keyOf, had, numHashes, 8 * numBytes, d);
  }
}
