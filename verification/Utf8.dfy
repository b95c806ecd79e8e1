/** Well-formed UTF-8 is what the Unicode scalar values are encoded as, one after the other. */
module Utf8 {
  import opened Base

  predicate IsScalar(cp: nat) { cp < 0xD800 || 0xE000 <= cp < 0x11_0000 }

  /** The Unicode Standard, table 3-6. */
  function Encoding(cp: nat): (b: Bytes)
    requires IsScalar(cp)
    ensures b != []
  {
    if cp < 0x80 then [cp]
    else if cp < 0x800 then [0xC0 + cp / 0x40, 0x80 + cp % 0x40]
    else if cp < 0x1_0000 then [0xE0 + cp / 0x1000, 0x80 + cp / 0x40 % 0x40, 0x80 + cp % 0x40]
    else [0xF0 + cp / 0x4_0000, 0x80 + cp / 0x1000 % 0x40, 0x80 + cp / 0x40 % 0x40, 0x80 + cp % 0x40]
  }

  ghost predicate AllScalar(cps: seq<nat>) { forall cp :: cp in cps ==> IsScalar(cp) }

  function Encodings(cps: seq<nat>): Bytes
    requires AllScalar(cps)
  {
    if cps == [] then [] else Encoding(cps[0]) + Encodings(cps[1..])
  }

  lemma DigitsOf2(hi: nat, lo: nat)
    requires lo < 0x40
    ensures (0x40 * hi + lo) / 0x40 == hi && (0x40 * hi + lo) % 0x40 == lo
  {
  }

  lemma DigitsOf3(a: nat, b: nat, c: nat)
    requires b < 0x40 && c < 0x40
    ensures var n := 0x1000 * a + 0x40 * b + c;
            n / 0x1000 == a && n / 0x40 == 0x40 * a + b && n / 0x40 % 0x40 == b && n % 0x40 == c
  {
  }

  lemma DigitsOf4(a: nat, b: nat, c: nat, d: nat)
    requires b < 0x40 && c < 0x40 && d < 0x40
    ensures var n := 0x4_0000 * a + 0x1000 * b + 0x40 * c + d;
            && n / 0x4_0000 == a && n / 0x1000 % 0x40 == b && n / 0x40 % 0x40 == c && n % 0x40 == d
  {
    DigitsOf3(0x40 * a + b, c, d);
    DigitsOf2(a, b);
  }

  lemma HeadOf3(b: Bytes) returns (cp: nat)
    requires CharLength(b) == 3
    ensures IsScalar(cp) && b[..3] == Encoding(cp)
  {
    var b0: nat, b1: nat, b2: nat := b[0], b[1], b[2];
    cp := 0x1000 * (b0 - 0xE0) + 0x40 * (b1 - 0x80) + (b2 - 0x80);
    DigitsOf3(b0 - 0xE0, b1 - 0x80, b2 - 0x80);
  }

  lemma HeadOf4(b: Bytes) returns (cp: nat)
    requires CharLength(b) == 4
    ensures IsScalar(cp) && b[..4] == Encoding(cp)
  {
    var b0: nat, b1: nat, b2: nat, b3: nat := b[0], b[1], b[2], b[3];
    cp := 0x4_0000 * (b0 - 0xF0) + 0x1000 * (b1 - 0x80) + 0x40 * (b2 - 0x80) + (b3 - 0x80);
    DigitsOf4(b0 - 0xF0, b1 - 0x80, b2 - 0x80, b3 - 0x80);
  }

  /** A well-formed head is the encoding of a scalar value. */
  lemma HeadIsEncoding(b: Bytes) returns (cp: nat)
    requires CharLength(b) > 0
    ensures IsScalar(cp) && b[..CharLength(b)] == Encoding(cp)
  {
    var n := CharLength(b);
    if n == 1 {
      cp := b[0];
    } else if n == 2 {
      var b0: nat, b1: nat := b[0], b[1];
      cp := 0x40 * (b0 - 0xC0) + (b1 - 0x80);
      DigitsOf2(b0 - 0xC0, b1 - 0x80);
    } else if n == 3 {
      cp := HeadOf3(b);
    } else {
      cp := HeadOf4(b);
    }
  }

  /** The head of `b` is read by its first bytes alone. */
  lemma HeadDecides(e: Bytes, rest: Bytes)
    requires CharLength(e) == |e| && e != []
    ensures CharLength(e + rest) == |e|
  {
    var b := e + rest;
    assert b[0] == e[0];
    assert |e| >= 2 ==> b[1] == e[1];
    assert |e| >= 3 ==> b[2] == e[2];
    assert |e| >= 4 ==> b[3] == e[3];
  }

  lemma EncodingOf3(cp: nat)
    requires 0x800 <= cp < 0x1_0000 && IsScalar(cp)
    ensures CharLength(Encoding(cp)) == 3
  {
    DigitsOf3(cp / 0x1000, cp / 0x40 % 0x40, cp % 0x40);
  }

  lemma EncodingOf4(cp: nat)
    requires 0x1_0000 <= cp < 0x11_0000
    ensures CharLength(Encoding(cp)) == 4
  {
    DigitsOf4(cp / 0x4_0000, cp / 0x1000 % 0x40, cp / 0x40 % 0x40, cp % 0x40);
  }

  /** An encoding is recognised whatever follows it. */
  lemma EncodingIsHead(cp: nat, rest: Bytes)
    requires IsScalar(cp)
    ensures CharLength(Encoding(cp) + rest) == |Encoding(cp)|
  {
    if 0x800 <= cp < 0x1_0000 {
      EncodingOf3(cp);
    } else if cp >= 0x1_0000 {
      EncodingOf4(cp);
    }
    HeadDecides(Encoding(cp), rest);
  }

  lemma {:induction false} EncodingsAreUtf8(cps: seq<nat>)
    requires AllScalar(cps)
    ensures IsUtf8(Encodings(cps))
  {
    if cps != [] {
      var head, rest := Encoding(cps[0]), Encodings(cps[1..]);
      EncodingIsHead(cps[0], rest);
      EncodingsAreUtf8(cps[1..]);
      assert (head + rest)[|head|..] == rest;
    }
  }

  lemma {:induction false} Utf8IsEncodings(b: Bytes) returns (cps: seq<nat>)
    requires IsUtf8(b)
    ensures AllScalar(cps) && b == Encodings(cps)
    decreases |b|
  {
    if b == [] {
      cps := [];
    } else {
      var n := CharLength(b);
      var cp := HeadIsEncoding(b);
      var rest := Utf8IsEncodings(b[n..]);
      cps := [cp] + rest;
      assert cps[1..] == rest && b == b[..n] + b[n..];
    }
  }

  /** Exactly the encodings of sequences of scalar values are accepted. */
  lemma Utf8Exactly(b: Bytes)
    ensures IsUtf8(b) <==> exists cps :: AllScalar(cps) && b == Encodings(cps)
  {
    if IsUtf8(b) {
      var cps := Utf8IsEncodings(b);
    }
    if cps :| AllScalar(cps) && b == Encodings(cps) {
      EncodingsAreUtf8(cps);
    }
  }
}
