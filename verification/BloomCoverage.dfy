/** Which positions the hash functions of the filter reach. */
module BloomCoverage {
  import opened Arithmetic
  import opened Base
  import opened Blooms

  /** The first `n` hash functions reach every position. */
  ghost predicate Covers(key: Key, n: nat, numBits: nat)
    requires numBits > 0
  {
    forall p: nat :: p < numBits ==> Hits(key, n, numBits, p)
  }

  /** None of the first `n` hash functions reaches 2^64. */
  predicate NoWrap(key: Key, n: nat) {
    var (h1, h2) := DoubleHash(key);
    n == 0 || h1 + (n - 1) * h2 < U64
  }

  lemma PositionUnwrapped(key: Key, i: nat, n: nat, numBits: nat)
    requires numBits > 0 && i < n && NoWrap(key, n)
    ensures Position(key, i, numBits) == Step(DoubleHash(key).0, DoubleHash(key).1, i, numBits)
  {
    var (h1, h2) := DoubleHash(key);
    SumBelow(h1, h2, i, n - 1, U64);
    NeverWrapped(h1, h2, i, numBits);
  }

  /** Within 64 bits, and with a hash function for every bit, exactly the positions congruent to the
      first word modulo the greatest common divisor of stride and size are reached. */
  lemma HitsExact(key: Key, n: nat, numBits: nat, p: nat)
    requires 0 < numBits <= n && NoWrap(key, n) && p < numBits
    ensures var (h1, h2) := DoubleHash(key);
            Hits(key, n, numBits, p) <==> p % Gcd(h2, numBits) == h1 % Gcd(h2, numBits)
  {
    var (h1, h2) := DoubleHash(key);
    if Hits(key, n, numBits, p) {
      var i :| 0 <= i < n && Position(key, i, numBits) == p;
      PositionUnwrapped(key, i, n, numBits);
      StepIsCongruent(h1, h2, i, numBits);
    }
    if p % Gcd(h2, numBits) == h1 % Gcd(h2, numBits) {
      var i := CongruentIsReached(h1, h2, numBits, p);
      PositionUnwrapped(key, i, n, numBits);
    }
  }

  /** Fewer hash functions than bits never reach every position. */
  lemma FewHashesMiss(key: Key, n: nat, numBits: nat)
    requires n < numBits
    ensures !Covers(key, n, numBits)
  {
    if Covers(key, n, numBits) {
      var reached := set i | 0 <= i < n :: Position(key, i, numBits);
      ImageIsSmall(key, n, numBits);
      assert Below(numBits) <= reached by {
        forall p | p in Below(numBits)
          ensures p in reached
        {
          assert Hits(key, n, numBits, p);
        }
      }
      SubsetSize(Below(numBits), reached);
    }
  }

  lemma {:induction false} ImageIsSmall(key: Key, n: nat, numBits: nat)
    requires numBits > 0
    ensures |set i | 0 <= i < n :: Position(key, i, numBits)| <= n
  {
    if n > 0 {
      ImageIsSmall(key, n - 1, numBits);
      assert (set i | 0 <= i < n :: Position(key, i, numBits))
          == (set i | 0 <= i < n - 1 :: Position(key, i, numBits)) + {Position(key, n - 1, numBits)};
    }
  }

  /** While nothing wraps, the hash functions cover the filter exactly when there is one for every bit and
      the stride has no factor in common with the number of bits. An odd stride is not enough. */
  lemma CoversIffCoprime(key: Key, n: nat, numBits: nat)
    requires numBits > 0 && NoWrap(key, n)
    ensures Covers(key, n, numBits) <==> n >= numBits && Gcd(DoubleHash(key).1, numBits) == 1
  {
    var (h1, h2) := DoubleHash(key);
    var g := Gcd(h2, numBits);
    if n < numBits {
      FewHashesMiss(key, n, numBits);
    } else if g == 1 {
      forall p: nat | p < numBits
        ensures Hits(key, n, numBits, p)
      {
        HitsExact(key, n, numBits, p);
      }
    } else {
      GcdDivides(h2, numBits);
      var p := if h1 % g == 0 then 1 else 0;
      ModOfSmall(p, g);
      assert !Hits(key, n, numBits, p) by {
        HitsExact(key, n, numBits, p);
      }
    }
  }

  lemma ReachesPowerOfTwo(h1: nat, h2: nat, j: nat, p: nat) returns (i: nat)
    requires h2 % 2 == 1 && j <= 64 && p < Pow2(j)
    ensures i < Pow2(j) && WrappedStep(h1, h2, i, Pow2(j)) == p
  {
    OddIsCoprime(h2, j);
    ModOne(p, h1);
    i := CongruentIsReached(h1, h2, Pow2(j), p);
    WrappedOnce(h1, h2, i, Pow2(j));
    Pow2Divides(j, 64);
    Pow2Of64();
    ModOfMod(h1 + i * h2, U64, Pow2(j));
  }

  /** A filter whose size is a power of two is covered by every key, wrapping included. */
  lemma PowerOfTwoIsCovered(key: Key, j: nat)
    requires j <= 64
    ensures Covers(key, Pow2(j), Pow2(j))
  {
    var (h1, h2) := DoubleHash(key);
    forall p: nat | p < Pow2(j)
      ensures Hits(key, Pow2(j), Pow2(j), p)
    {
      var i := ReachesPowerOfTwo(h1, h2, j, p);
      assert Position(key, i, Pow2(j)) == p;
    }
  }

  lemma ReachedInTheEnd(h1: nat, h2: nat, numBits: nat, p: nat) returns (i: nat)
    requires h2 % 2 == 1 && p < numBits <= U64
    ensures i < U64 && WrappedStep(h1, h2, i, numBits) == p
  {
    OddIsCoprime(h2, 64);
    Pow2Of64();
    ModOne(p, h1);
    i := CongruentIsReached(h1, h2, U64, p);
    WrappedOnce(h1, h2, i, numBits);
    ModOfSmall(p, numBits);
  }

  /** The wrapped sum takes every 64-bit value, so with 2^64 hash functions every key covers every filter. */
  lemma EveryFilterIsCoveredInTheEnd(key: Key, numBits: nat)
    requires 0 < numBits <= U64
    ensures Covers(key, U64, numBits)
  {
    var (h1, h2) := DoubleHash(key);
    forall p: nat | p < numBits
      ensures Hits(key, U64, numBits, p)
    {
      var i := ReachedInTheEnd(h1, h2, numBits, p);
      assert Position(key, i, numBits) == p;
    }
  }

  /** An odd stride that leaves two thirds of a filter of 72 bits unreached. */
  lemma OddStrideMissesPositions()
    ensures !Covers(KeyOfWords(0, 3), 72, 72)
  {
    WordsOfKey(0, 3);
    CoversIffCoprime(KeyOfWords(0, 3), 72, 72);
    assert Gcd(3, 72) == Gcd(72, 3) == Gcd(3, 0) == 3;
  }
}
