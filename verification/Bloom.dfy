/** The Bloom filter over 32-byte digests, with double hashing on 64-bit words. */
module Blooms {
  import Arithmetic
  import opened Base

  type Key = b: Bytes | |b| == 32 witness seq(32, _ => 0)

  /** The two 64-bit words of a digest; the stride is made odd. */
  function DoubleHash(key: Key): (r: (nat, nat))
    ensures r.0 < U64 && r.1 < U64 && r.1 % 2 == 1
  {
    (Word(key[..8]), Odd(Word(key[8..16])))
  }

  function Word(b: Bytes): (n: nat)
    requires |b| == 8
    ensures n < U64
  {
    LeValueBound(b);
    Pow256Of8();
    LeValue(b)
  }

  /** `n | 1`. */
  function Odd(n: nat): (r: nat)
    requires n < U64
    ensures r < U64 && r % 2 == 1
  {
    if n % 2 == 0 then n + 1 else n
  }

  /** Bit number of the `i`-th hash function, in wrapping 64-bit arithmetic. */
  function Position(key: Key, i: nat, numBits: nat): (p: nat)
    requires numBits > 0
    ensures p < numBits
  {
    var (h1, h2) := DoubleHash(key);
    WrappedStep(h1, h2, i, numBits)
  }

  function WrappedStep(h1: nat, h2: nat, i: nat, numBits: nat): (p: nat)
    requires numBits > 0
    ensures p < numBits
  {
    (h1 + i * h2 % U64) % U64 % numBits
  }

  lemma WrappedOnce(h1: nat, h2: nat, i: nat, numBits: nat)
    requires numBits > 0
    ensures WrappedStep(h1, h2, i, numBits) == (h1 + i * h2) % U64 % numBits
  {
    Arithmetic.ModOfWrapped(h1, i * h2, U64);
  }

  lemma NeverWrapped(h1: nat, h2: nat, i: nat, numBits: nat)
    requires numBits > 0 && h1 + i * h2 < U64
    ensures WrappedStep(h1, h2, i, numBits) == (h1 + i * h2) % numBits
  {
    WrappedOnce(h1, h2, i, numBits);
    Arithmetic.ModOfSmall(h1 + i * h2, U64);
  }

  /** Where the `i`-th hash function sends any key: with `h1` and `h2` its first two words and the last bit of `h2`
      set, to `h1 + i * h2` modulo 2^64 modulo the size. */
  lemma PositionExact(key: Key, i: nat, numBits: nat)
    requires numBits > 0
    ensures var h1, h2 := Number(key, 0), Number(key, 8);
            Position(key, i, numBits) == (h1 + i * (h2 - h2 % 2 + 1)) % U64 % numBits
  {
    DoubleHashExact(key);
    WrappedOnce(DoubleHash(key).0, DoubleHash(key).1, i, numBits);
  }

  lemma DoubleHashExact(key: Key)
    ensures var h2 := Number(key, 8);
            DoubleHash(key) == (Number(key, 0), h2 - h2 % 2 + 1)
  {
    WordExact(key, 0);
    WordExact(key, 8);
    assert key[..8] == key[0..8];
  }

  lemma WordExact(key: Key, i: nat)
    requires i + 8 <= |key|
    ensures Word(key[i..i + 8]) == Number(key, i)
  {
    LeValueOf8(key[i..i + 8]);
  }

  // --- Bits ---

  function Mask(j: nat): bv8
    requires j < 8
  {
    1 << j
  }

  predicate Bit(bits: seq<bv8>, p: nat)
    requires p < 8 * |bits|
  {
    bits[p / 8] & Mask(p % 8) != 0
  }

  /** Bit 0 of a byte is the least significant one. */
  lemma BitExact(bits: seq<bv8>, p: nat)
    requires p < 8 * |bits|
    ensures Bit(bits, p) <==> bits[p / 8] & [0x01, 0x02, 0x04, 0x08, 0x10, 0x20, 0x40, 0x80][p % 8] != 0
  {
  }

  function SetBit(bits: seq<bv8>, p: nat): (r: seq<bv8>)
    requires p < 8 * |bits|
    ensures |r| == |bits|
  {
    bits[p / 8 := bits[p / 8] | Mask(p % 8)]
  }

  /** Exactly one bit changes. */
  lemma SetBitExact(bits: seq<bv8>, p: nat, q: nat)
    requires p < 8 * |bits| && q < 8 * |bits|
    ensures Bit(SetBit(bits, p), q) <==> Bit(bits, q) || q == p
  {
  }

  // --- The filter as a value ---

  /** The positions of the first `k` hash functions of `key` set. */
  function InsertKey(bits: seq<bv8>, k: nat, key: Key): (r: seq<bv8>)
    requires bits != []
    ensures |r| == |bits|
  {
    if k == 0 then bits
    else SetBit(InsertKey(bits, k - 1, key), Position(key, k - 1, 8 * |bits|))
  }

  function InsertKeys(bits: seq<bv8>, k: nat, keys: seq<Key>): (r: seq<bv8>)
    requires bits != []
    ensures |r| == |bits|
  {
    if keys == [] then bits else InsertKey(InsertKeys(bits, k, keys[..|keys| - 1]), k, keys[|keys| - 1])
  }

  /** Whether all `k` positions of `key` are set. */
  predicate Matches(bits: seq<bv8>, k: nat, key: Key)
    requires bits != []
  {
    forall i :: 0 <= i < k ==> Bit(bits, Position(key, i, 8 * |bits|))
  }

  /** One of the first `k` hash functions sends `key` to `p`. */
  predicate Hits(key: Key, k: nat, numBits: nat, p: nat)
    requires numBits > 0
  {
    exists i :: 0 <= i < k && Position(key, i, numBits) == p
  }

  lemma {:induction false} InsertKeyExact(bits: seq<bv8>, k: nat, key: Key, p: nat)
    requires p < 8 * |bits|
    ensures Bit(InsertKey(bits, k, key), p) <==> Bit(bits, p) || Hits(key, k, 8 * |bits|, p)
  {
    if k > 0 {
      InsertKeyExact(bits, k - 1, key, p);
      SetBitExact(InsertKey(bits, k - 1, key), Position(key, k - 1, 8 * |bits|), p);
      assert Position(key, k - 1, 8 * |bits|) == p ==> Hits(key, k, 8 * |bits|, p);
    }
  }

  lemma {:induction false} InsertKeysExact(bits: seq<bv8>, k: nat, keys: seq<Key>, p: nat)
    requires p < 8 * |bits|
    ensures Bit(InsertKeys(bits, k, keys), p)
            <==> Bit(bits, p) || exists key :: key in keys && Hits(key, k, 8 * |bits|, p)
    decreases |keys|
  {
    if keys != [] {
      var n := |keys| - 1;
      assert keys == keys[..n] + [keys[n]];
      InsertKeysExact(bits, k, keys[..n], p);
      InsertKeyExact(InsertKeys(bits, k, keys[..n]), k, keys[n], p);
    }
  }

  lemma InsertKeyMatches(bits: seq<bv8>, k: nat, key: Key)
    requires bits != []
    ensures Matches(InsertKey(bits, k, key), k, key)
  {
  }

  lemma InsertKeyKeepsMatches(bits: seq<bv8>, k: nat, key: Key, other: Key)
    requires bits != [] && Matches(bits, k, other)
    ensures Matches(InsertKey(bits, k, key), k, other)
  {
    forall i | 0 <= i < k
      ensures Bit(InsertKey(bits, k, key), Position(other, i, 8 * |bits|))
    {
      InsertKeyExact(bits, k, key, Position(other, i, 8 * |bits|));
    }
  }

  /** No false negatives, whatever was there before. */
  lemma {:induction false} InsertedKeysMatch(bits: seq<bv8>, k: nat, keys: seq<Key>, key: Key)
    requires bits != [] && key in keys
    ensures Matches(InsertKeys(bits, k, keys), k, key)
    decreases |keys|
  {
    var n := |keys| - 1;
    var before := InsertKeys(bits, k, keys[..n]);
    if key == keys[n] {
      InsertKeyMatches(before, k, key);
    } else {
      assert keys == keys[..n] + [keys[n]];
      InsertedKeysMatch(bits, k, keys[..n], key);
      InsertKeyKeepsMatches(before, k, keys[n], key);
    }
  }

  /** An empty filter filled with `keys` answers yes exactly for what the positions of `keys` cover:
      there are no other false positives. */
  lemma MatchesExact(bits: seq<bv8>, k: nat, keys: seq<Key>, key: Key)
    requires bits != [] && forall b :: b in bits ==> b == 0
    ensures Matches(InsertKeys(bits, k, keys), k, key)
            <==> forall i :: 0 <= i < k ==> Covered(keys, k, 8 * |bits|, Position(key, i, 8 * |bits|))
  {
    var filled := InsertKeys(bits, k, keys);
    forall i | 0 <= i < k
      ensures Bit(filled, Position(key, i, 8 * |bits|))
              <==> Covered(keys, k, 8 * |bits|, Position(key, i, 8 * |bits|))
    {
      var p := Position(key, i, 8 * |bits|);
      InsertKeysExact(bits, k, keys, p);
      assert bits[p / 8] in bits;
    }
  }

  ghost predicate Covered(keys: seq<Key>, k: nat, numBits: nat, p: nat)
    requires numBits > 0
  {
    exists key :: key in keys && Hits(key, k, numBits, p)
  }

  // --- Filters filled with a set ---

  /** A hash function sends a member of `xs` to `p`. */
  ghost predicate HitByOne<T>(keyOf: T -> Key, xs: set<T>, k: nat, numBits: nat, p: nat)
    requires numBits > 0
  {
    exists x :: x in xs && Hits(keyOf(x), k, numBits, p)
  }

  /** Exactly the positions of the members of `xs` are set. */
  ghost predicate Fills<T>(bits: seq<bv8>, k: nat, keyOf: T -> Key, xs: set<T>) {
    bits != [] && forall p: nat :: p < 8 * |bits| ==> (Bit(bits, p) <==> HitByOne(keyOf, xs, k, 8 * |bits|, p))
  }

  /** Every position of `x` is one of a member of `xs`. */
  ghost predicate Claimed<T>(keyOf: T -> Key, xs: set<T>, k: nat, numBits: nat, x: T)
    requires numBits > 0
  {
    forall i :: 0 <= i < k ==> HitByOne(keyOf, xs, k, numBits, Position(keyOf(x), i, numBits))
  }

  lemma NothingFills<T>(bits: seq<bv8>, k: nat, keyOf: T -> Key)
    requires bits != [] && forall b :: b in bits ==> b == 0
    ensures Fills(bits, k, keyOf, {})
  {
    forall p: nat | p < 8 * |bits|
      ensures !Bit(bits, p)
    {
      assert bits[p / 8] in bits;
    }
  }

  lemma OneMoreFills<T>(bits: seq<bv8>, k: nat, keyOf: T -> Key, xs: set<T>, x: T)
    requires Fills(bits, k, keyOf, xs)
    ensures Fills(InsertKey(bits, k, keyOf(x)), k, keyOf, xs + {x})
  {
    forall p: nat | p < 8 * |bits|
      ensures Bit(InsertKey(bits, k, keyOf(x)), p) <==> HitByOne(keyOf, xs + {x}, k, 8 * |bits|, p)
    {
      InsertKeyExact(bits, k, keyOf(x), p);
    }
  }

  /** A filled filter answers yes exactly for what its members cover. */
  lemma FilledMatches<T>(bits: seq<bv8>, k: nat, keyOf: T -> Key, xs: set<T>, x: T)
    requires Fills(bits, k, keyOf, xs)
    ensures Matches(bits, k, keyOf(x)) <==> Claimed(keyOf, xs, k, 8 * |bits|, x)
  {
  }

  /** Members are always claimed. */
  lemma MemberIsClaimed<T>(keyOf: T -> Key, xs: set<T>, k: nat, numBits: nat, x: T)
    requires numBits > 0 && x in xs
    ensures Claimed(keyOf, xs, k, numBits, x)
  {
    forall i | 0 <= i < k
      ensures HitByOne(keyOf, xs, k, numBits, Position(keyOf(x), i, numBits))
    {
      assert Hits(keyOf(x), k, numBits, Position(keyOf(x), i, numBits));
    }
  }

  // --- Keys with given words ---

  function KeyOfWords(h1: nat, h2: nat): Key {
    LeBytes(h1, 8) + LeBytes(h2, 8) + seq(16, _ => 0)
  }

  lemma WordsOfKey(h1: nat, h2: nat)
    requires h1 < U64 && h2 < U64 && h2 % 2 == 1
    ensures DoubleHash(KeyOfWords(h1, h2)) == (h1, h2)
  {
    var key := KeyOfWords(h1, h2);
    assert key[..8] == LeBytes(h1, 8) && key[8..16] == LeBytes(h2, 8);
    Pow256Of8();
    LeRoundTrip(h1, 8);
    LeRoundTrip(h2, 8);
  }

  lemma StrideOne(h1: nat, i: nat, numBits: nat)
    requires numBits > 0 && h1 + i < U64
    ensures Position(KeyOfWords(h1, 1), i, numBits) == (h1 + i) % numBits
  {
    WordsOfKey(h1, 1);
    NeverWrapped(h1, 1, i, numBits);
  }

  /** Two different keys that no filter of `numBits` bits tells apart. */
  lemma KeysCollide(numBits: nat, i: nat)
    requires numBits > 0 && numBits + i < U64
    ensures Position(KeyOfWords(numBits, 1), i, numBits) == Position(KeyOfWords(0, 1), i, numBits)
  {
    StrideOne(numBits, i, numBits);
    StrideOne(0, i, numBits);
    Arithmetic.ModShift(numBits + i, i, 1, numBits);
  }

  // --- The filter in memory ---

  class BloomFilter {
    const bits: array<bv8>
    const numBits: nat
    const numHashes: nat

    ghost predicate Valid() {
      bits.Length > 0 && numBits == 8 * bits.Length && numHashes >= 1
    }

    ghost predicate Has(key: Key)
      requires Valid()
      reads bits
    {
      Matches(bits[..], numHashes, key)
    }

    /** All bits zero; the size and the number of hash functions are chosen by the caller. */
    constructor (numBytes: nat, numHashes: nat)
      requires numBytes > 0 && numHashes >= 1
      ensures Valid() && fresh(bits) && bits.Length == numBytes && this.numHashes == numHashes
      ensures forall b :: b in bits[..] ==> b == 0
    {
      bits := new bv8[numBytes](_ => 0);
      numBits := numBytes * 8;
      this.numHashes := numHashes;
    }

    constructor FromBytes(data: seq<bv8>, numHashes: nat)
      ensures fresh(bits) && bits[..] == data && numBits == 8 * |data|
      ensures this.numHashes == if numHashes < 1 then 1 else numHashes
    {
      bits := new bv8[|data|](i requires 0 <= i < |data| => data[i]);
      numBits := |data| * 8;
      this.numHashes := if numHashes < 1 then 1 else numHashes;
    }

    method Insert(key: Key)
      requires Valid()
      modifies bits
      ensures bits[..] == InsertKey(old(bits[..]), numHashes, key)
    {
      var (h1, h2) := DoubleHash(key);
      for i := 0 to numHashes
        invariant bits[..] == InsertKey(old(bits[..]), i, key)
      {
        SetBitAt(WrappedStep(h1, h2, i, numBits));
      }
    }

    method SetBitAt(bit: nat)
      requires bit < 8 * bits.Length
      modifies bits
      ensures bits[..] == SetBit(old(bits[..]), bit)
    {
      bits[bit / 8] := bits[bit / 8] | (1 << (bit % 8));
    }

    method MaybeContains(key: Key) returns (r: bool)
      requires Valid()
      ensures r <==> Has(key)
    {
      var (h1, h2) := DoubleHash(key);
      for i := 0 to numHashes
        invariant forall j :: 0 <= j < i ==> Bit(bits[..], Position(key, j, numBits))
      {
        var bit := WrappedStep(h1, h2, i, numBits);
        if bits[bit / 8] & (1 << (bit % 8)) == 0 {
          assert !Bit(bits[..], Position(key, i, numBits));
          return false;
        }
      }
      return true;
    }

    method IntoBytes() returns (data: seq<bv8>)
      ensures data == bits[..]
    {
      data := bits[..];
    }
  }

  /** A filter sent as bytes with its number of hash functions answers like the original. */
  method SendFilter(f: BloomFilter) returns (g: BloomFilter)
    requires f.Valid()
    ensures g.Valid() && fresh(g) && fresh(g.bits)
    ensures forall key :: g.Has(key) <==> f.Has(key)
  {
    var data := f.IntoBytes();
    g := new BloomFilter.FromBytes(data, f.numHashes);
  }
}
