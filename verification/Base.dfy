/** Byte-level vocabulary shared by every other module. */
module Base {
  datatype Option<+T> = None | Some(value: T)

  datatype Result<+T, +E> = Ok(value: T) | Err(error: E)

  type byte = x: int | 0 <= x < 256

  type Bytes = seq<byte>

  const U64: nat := 0x1_0000_0000_0000_0000

  // --- Little-endian integers ---

  /** The `k` low-order bytes of `n`, least significant first. */
  function LeBytes(n: nat, k: nat): (b: Bytes)
    ensures |b| == k
    decreases k, n
  {
    if k == 0 then [] else [n % 256] + LeBytes(n / 256, k - 1)
  }

  function LeValue(b: Bytes): nat {
    if b == [] then 0 else b[0] + 256 * LeValue(b[1..])
  }

  function Pow256(k: nat): nat {
    if k == 0 then 1 else 256 * Pow256(k - 1)
  }

  lemma {:induction false} LeRoundTrip(n: nat, k: nat)
    requires n < Pow256(k)
    ensures LeValue(LeBytes(n, k)) == n
  {
    if k > 0 {
      LeRoundTrip(n / 256, k - 1);
      assert LeBytes(n, k)[1..] == LeBytes(n / 256, k - 1);
    }
  }

  lemma {:induction false} LeValueBound(b: Bytes)
    ensures LeValue(b) < Pow256(|b|)
  {
    if b != [] {
      LeValueBound(b[1..]);
    }
  }

  lemma Pow256Of8()
    ensures Pow256(8) == U64
  {
  }

  /** The number in the four bytes from `i` on, least significant first. */
  ghost function Low(b: Bytes, i: nat): int
    requires i + 4 <= |b|
  {
    b[i] as int + 0x100 * (b[i + 1] as int) + 0x1_0000 * (b[i + 2] as int) + 0x100_0000 * (b[i + 3] as int)
  }

  /** The number in the eight bytes from `i` on, least significant first. */
  ghost function Number(b: Bytes, i: nat): int
    requires i + 8 <= |b|
  {
    Low(b, i) + 0x1_0000_0000 * Low(b, i + 4)
  }

  lemma {:induction false} LeValueOf8(b: Bytes)
    requires |b| == 8
    ensures LeValue(b) == Number(b, 0)
  {
    LeValueOf4(b[..4]);
    LeValueOf4(b[4..]);
    LeValueSplit(b[..4], b[4..]);
    assert b == b[..4] + b[4..];
  }

  lemma {:induction false} LeValueOf4(b: Bytes)
    requires |b| == 4
    ensures LeValue(b) == Low(b, 0) && Pow256(4) == 0x1_0000_0000
  {
    var b1 := b[1..];
    var b2 := b1[1..];
    var b3 := b2[1..];
    assert LeValue(b3) == b3[0] as int + 256 * LeValue(b3[1..]) && b3[1..] == [];
    assert LeValue(b2) == b2[0] as int + 256 * LeValue(b3);
    assert LeValue(b1) == b1[0] as int + 256 * LeValue(b2);
  }

  lemma {:induction false} LeValueSplit(a: Bytes, b: Bytes)
    ensures LeValue(a + b) == LeValue(a) + Pow256(|a|) * LeValue(b)
  {
    if a == [] {
      assert a + b == b;
    } else {
      assert (a + b)[0] == a[0] && (a + b)[1..] == a[1..] + b;
      LeValueSplit(a[1..], b);
      Regroup(a[0] as int, LeValue(a[1..]), Pow256(|a| - 1), LeValue(b));
    }
  }

  lemma Regroup(d: int, low: int, p: int, high: int)
    ensures d + 256 * (low + p * high) == d + 256 * low + (256 * p) * high
  {
    assert 256 * (p * high) == (256 * p) * high;
  }

  // --- UTF-8 (the Unicode Standard, table 3-7) ---

  predicate Tail(b: byte) { 0x80 <= b < 0xC0 }

  /** Length of the well-formed character at the head of `b`, 0 if there is none. */
  function CharLength(b: Bytes): (n: nat)
    ensures n <= |b|
  {
    if |b| >= 1 && b[0] < 0x80 then 1
    else if |b| >= 2 && 0xC2 <= b[0] < 0xE0 && Tail(b[1]) then 2
    else if |b| >= 3 && 0xE0 <= b[0] < 0xF0 && Tail(b[1]) && Tail(b[2])
            && (b[0] == 0xE0 ==> b[1] >= 0xA0) && (b[0] == 0xED ==> b[1] < 0xA0) then 3
    else if |b| >= 4 && 0xF0 <= b[0] < 0xF5 && Tail(b[1]) && Tail(b[2]) && Tail(b[3])
            && (b[0] == 0xF0 ==> b[1] >= 0x90) && (b[0] == 0xF4 ==> b[1] < 0x90) then 4
    else 0
  }

  /** What a Rust `String` guarantees about its bytes. */
  predicate IsUtf8(b: Bytes) {
    b == [] || (CharLength(b) > 0 && IsUtf8(b[CharLength(b)..]))
  }

  lemma {:induction false} AsciiIsUtf8(b: Bytes)
    requires forall i :: 0 <= i < |b| ==> b[i] < 0x80
    ensures IsUtf8(b)
  {
    if b != [] {
      AsciiIsUtf8(b[1..]);
    }
  }

  /** The bytes of an ASCII literal. */
  function Ascii(s: string): (b: Bytes)
    requires forall i :: 0 <= i < |s| ==> s[i] < 128 as char
    ensures |b| == |s|
    ensures forall i :: 0 <= i < |b| ==> b[i] == s[i] as int
  {
    seq(|s|, i requires 0 <= i < |s| => s[i] as int)
  }

  // --- Sequences ---

  function Flatten<T>(ss: seq<seq<T>>): seq<T> {
    if ss == [] then [] else ss[0] + Flatten(ss[1..])
  }

  lemma {:induction false} FlattenAppend<T>(a: seq<seq<T>>, b: seq<seq<T>>)
    ensures Flatten(a + b) == Flatten(a) + Flatten(b)
  {
    if a == [] {
      assert a + b == b;
    } else {
      assert (a + b)[1..] == a[1..] + b;
      FlattenAppend(a[1..], b);
    }
  }

  ghost predicate NoDuplicates<T>(s: seq<T>) {
    forall i, j :: 0 <= i < j < |s| ==> s[i] != s[j]
  }

  function SetOf<T>(s: seq<T>): set<T> { set x | x in s }

  lemma {:induction false} DistinctWithin<T>(s: seq<T>, all: set<T>)
    requires NoDuplicates(s) && forall x :: x in s ==> x in all
    ensures |s| <= |all|
    decreases |s|
  {
    if s != [] {
      var last := s[|s| - 1];
      assert last in all;
      DistinctWithin(s[..|s| - 1], all - {last});
    }
  }

  lemma SubsetSize<T>(a: set<T>, b: set<T>)
    requires a <= b
    ensures |a| <= |b|
    ensures |a| == |b| ==> a == b
  {
    assert b == a + (b - a);
  }

  /** `s` without every occurrence of `x`. */
  function Without<T(==,!new)>(s: seq<T>, x: T): (r: seq<T>)
    ensures forall y :: y in r <==> y in s && y != x
  {
    if s == [] then []
    else if s[0] == x then Without(s[1..], x)
    else [s[0]] + Without(s[1..], x)
  }

  lemma {:induction false} WithoutKeepsDistinct<T(!new)>(s: seq<T>, x: T)
    requires NoDuplicates(s)
    ensures NoDuplicates(Without(s, x))
    ensures |Without(s, x)| == if x in s then |s| - 1 else |s|
  {
    if s != [] {
      assert forall j :: 0 <= j < |s| - 1 ==> s[1..][j] == s[j + 1] != s[0];
      assert s[0] !in s[1..];
      WithoutKeepsDistinct(s[1..], x);
    }
  }

  lemma {:induction false} WithoutAppend<T(!new)>(a: seq<T>, b: seq<T>, x: T)
    ensures Without(a + b, x) == Without(a, x) + Without(b, x)
    decreases |a|
  {
    if a == [] {
      assert a + b == b;
    } else {
      assert (a + b)[0] == a[0] && (a + b)[1..] == a[1..] + b;
      WithoutAppend(a[1..], b, x);
    }
  }

  /** `acc` followed by the members of `s` it lacks, each at its first occurrence. */
  function AddNew<T(==)>(acc: seq<T>, s: seq<T>): seq<T>
    decreases |s|
  {
    if s == [] then acc
    else AddNew(if s[0] in acc then acc else acc + [s[0]], s[1..])
  }

  lemma {:induction false} AddNewAppend<T>(acc: seq<T>, a: seq<T>, b: seq<T>)
    ensures AddNew(acc, a + b) == AddNew(AddNew(acc, a), b)
    decreases |a|
  {
    if a == [] {
      assert a + b == b;
    } else {
      assert (a + b)[0] == a[0] && (a + b)[1..] == a[1..] + b;
      AddNewAppend(if a[0] in acc then acc else acc + [a[0]], a[1..], b);
    }
  }

  /** Nothing is lost, nothing is invented, nothing is repeated. */
  lemma {:induction false} AddNewExact<T>(acc: seq<T>, s: seq<T>)
    ensures acc <= AddNew(acc, s)
    ensures forall x :: x in AddNew(acc, s) <==> x in acc || x in s
    ensures NoDuplicates(acc) ==> NoDuplicates(AddNew(acc, s))
    decreases |s|
  {
    if s != [] {
      AddNewExact(if s[0] in acc then acc else acc + [s[0]], s[1..]);
    }
  }

  lemma {:induction false} AddNewNothing<T>(acc: seq<T>, s: seq<T>)
    requires forall x :: x in s ==> x in acc
    ensures AddNew(acc, s) == acc
    decreases |s|
  {
    if s != [] {
      AddNewNothing(acc, s[1..]);
    }
  }
}
