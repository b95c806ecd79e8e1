/** Residues, divisibility and greatest common divisors. */
module Arithmetic {
  import opened Base

  // --- Residues ---

  lemma ModUnique(x: int, q: int, r: nat, n: nat)
    requires r < n && x == q * n + r
    ensures x % n == r
  {
    var k := q - x / n;
    assert k * n == x % n - r;
    if k >= 1 {
      MulAtLeast(k, n);
    } else if k <= -1 {
      MulAtLeast(-k, n);
    }
  }

  lemma MulAtLeast(k: nat, n: nat)
    requires k >= 1
    ensures k * n >= n
  {
    assert k * n == (k - 1) * n + n;
  }

  lemma SumBelow(h: nat, s: nat, i: nat, n: nat, m: nat)
    requires i <= n && h + n * s < m
    ensures h + i * s < m
  {
    assert n * s == i * s + (n - i) * s;
  }

  lemma MulAssociates(a: int, b: int, c: int)
    ensures (a * b) * c == a * (b * c)
  {
  }

  lemma MulDistributes(a: int, b: int, c: int)
    ensures a * (b + c) == a * b + a * c
  {
  }

  lemma ModOfSmall(p: nat, n: nat)
    requires p < n
    ensures p % n == p
  {
  }

  lemma ModOne(a: nat, b: nat)
    ensures a % 1 == b % 1
  {
  }

  /** Residues agree when the difference is a multiple. */
  lemma ModShift(a: int, b: int, k: int, n: nat)
    requires n > 0 && a == b + k * n
    ensures a % n == b % n
  {
    var q := b / n;
    assert a == (q + k) * n + b % n;
    ModUnique(a, q + k, b % n, n);
  }

  /** Conversely, equal residues differ by a multiple. */
  lemma ModDiffers(a: int, b: int, n: nat) returns (k: int)
    requires n > 0 && a % n == b % n
    ensures a == b + k * n
  {
    k := a / n - b / n;
  }

  /** Reducing modulo a multiple of `n` first changes nothing. */
  lemma ModOfMod(a: nat, m: nat, n: nat)
    requires n > 0 && m > 0 && Divides(n, m)
    ensures a % m % n == a % n
  {
    var d: nat :| m == n * d;
    calc {
      a;
      (a / m) * m + a % m;
      a % m + (a / m) * (n * d);
      a % m + ((a / m) * d) * n;
    }
    ModShift(a, a % m, (a / m) * d, n);
  }

  /** A sum whose second term is reduced first. */
  lemma ModOfWrapped(h: nat, a: nat, m: nat)
    requires m > 0
    ensures (h + a % m) % m == (h + a) % m
  {
    ModShift(h + a, h + a % m, a / m, m);
  }

  // --- Divisibility ---

  ghost predicate Divides(d: nat, n: nat) {
    exists k: nat :: n == d * k
  }

  function Pow2(j: nat): (p: nat)
    ensures p >= 1
  {
    if j == 0 then 1 else 2 * Pow2(j - 1)
  }

  lemma {:induction false} Pow2Adds(i: nat, j: nat)
    ensures Pow2(i + j) == Pow2(i) * Pow2(j)
  {
    if i > 0 {
      Pow2Adds(i - 1, j);
      assert Pow2(i + j) == 2 * Pow2(i - 1 + j);
      assert 2 * (Pow2(i - 1) * Pow2(j)) == (2 * Pow2(i - 1)) * Pow2(j);
    }
  }

  lemma Pow2Squares(i: nat, x: nat)
    requires Pow2(i) == x
    ensures Pow2(2 * i) == x * x
  {
    Pow2Adds(i, i);
  }

  lemma Pow2Of64()
    ensures Pow2(64) == U64
  {
    Pow2Squares(4, 0x10);
    Pow2Squares(8, 0x100);
    Pow2Squares(16, 0x1_0000);
    Pow2Squares(32, 0x1_0000_0000);
  }

  lemma Pow2Divides(i: nat, j: nat)
    requires i <= j
    ensures Divides(Pow2(i), Pow2(j))
  {
    Pow2Adds(i, j - i);
  }

  // --- Greatest common divisors ---

  function Gcd(a: nat, b: nat): (g: nat)
    ensures a > 0 || b > 0 ==> g > 0
    decreases b
  {
    if b == 0 then a else Gcd(b, a % b)
  }

  lemma MultiplesSum(g: nat, k: nat, l: nat, q: nat)
    ensures (g * k) * q + g * l == g * (k * q + l)
  {
    MulAssociates(g, k, q);
    MulDistributes(g, k * q, l);
  }

  lemma DividesSum(g: nat, a: nat, b: nat)
    requires b > 0 && Divides(g, b) && Divides(g, a % b)
    ensures Divides(g, a)
  {
    var k: nat, l: nat :| b == g * k && a % b == g * l;
    MultiplesSum(g, k, l, a / b);
    DividesBy(g, a, k * (a / b) + l);
  }

  lemma DividesBy(g: nat, a: nat, k: nat)
    requires a == g * k
    ensures Divides(g, a)
  {
  }

  lemma {:induction false} GcdDivides(a: nat, b: nat)
    requires a > 0 || b > 0
    ensures Divides(Gcd(a, b), a) && Divides(Gcd(a, b), b)
    decreases b
  {
    if b == 0 {
      assert a == a * 1 && b == a * 0;
    } else {
      GcdDivides(b, a % b);
      DividesSum(Gcd(a, b), a, b);
    }
  }

  lemma {:induction false} Bezout(a: nat, b: nat) returns (x: int, y: int)
    ensures a * x + b * y == Gcd(a, b)
    decreases b
  {
    if b == 0 {
      x, y := 1, 0;
    } else {
      var u, v := Bezout(b, a % b);
      x, y := v, u - a / b * v;
      BezoutStep(a, b, a / b, a % b, u, v);
    }
  }

  lemma BezoutStep(a: int, b: int, q: int, r: int, u: int, v: int)
    requires a == b * q + r
    ensures a * v + b * (u - q * v) == b * u + r * v
  {
    MulDistributes(v, b * q, r);
    MulDistributes(b, u, -(q * v));
    MulAssociates(b, q, v);
  }

  lemma HalfOfProduct(g: nat, m: nat)
    requires g % 2 == 1 && g * m % 2 == 0
    ensures g * m == 2 * (g * (m / 2))
  {
    var k := m / 2;
    assert g * (2 * k) == 2 * (g * k);
    assert m == 2 * k || m == 2 * k + 1;
    assert m == 2 * k + 1 ==> g * m == 2 * (g * k) + g;
  }

  lemma {:induction false} OddDivisorOfPow2(g: nat, j: nat)
    requires g % 2 == 1 && Divides(g, Pow2(j))
    ensures g == 1
  {
    var m: nat :| Pow2(j) == g * m;
    if j == 0 {
      MulAtLeast(m, g);
    } else {
      HalfOfProduct(g, m);
      OddDivisorOfPow2(g, j - 1);
    }
  }

  lemma OddIsCoprime(h: nat, j: nat)
    requires h % 2 == 1
    ensures Gcd(h, Pow2(j)) == 1
  {
    var g := Gcd(h, Pow2(j));
    GcdDivides(h, Pow2(j));
    var k: nat :| h == g * k;
    assert g % 2 == 1 by {
      var m := g / 2;
      assert (2 * m) * k == 2 * (m * k);
    }
    OddDivisorOfPow2(g, j);
  }

  // --- Arithmetic progressions modulo `n` ---

  function Step(h: nat, s: nat, i: nat, n: nat): nat
    requires n > 0
  {
    (h + i * s) % n
  }

  lemma StepIsCongruent(h: nat, s: nat, i: nat, n: nat)
    requires n > 0
    ensures Gcd(s, n) > 0 && Step(h, s, i, n) % Gcd(s, n) == h % Gcd(s, n)
  {
    var g := Gcd(s, n);
    GcdDivides(s, n);
    ModOfMod(h + i * s, n, g);
    var k: nat :| s == g * k;
    MulAssociates(i, k, g);
    ModShift(h + i * s, h, i * k, g);
  }

  lemma CongruentIsReached(h: nat, s: nat, n: nat, p: nat) returns (i: nat)
    requires n > 0 && p < n
    requires p % Gcd(s, n) == h % Gcd(s, n)
    ensures i < n && Step(h, s, i, n) == p
  {
    var g := Gcd(s, n);
    var x, y := Bezout(s, n);
    var d := ModDiffers(p, h, g);
    i := (x * d) % n;
    Solves(h, s, n, p, g, x, y, d, i, (x * d) / n);
    ModUnique(h + i * s, -(y * d + (x * d) / n * s), p, n);
  }

  lemma Solves(h: int, s: int, n: int, p: int, g: int, x: int, y: int, d: int, i: int, e: int)
    requires s * x + n * y == g && p == h + d * g && x * d == e * n + i
    ensures h + i * s == -(y * d + e * s) * n + p
  {
    calc {
      i * s;
      (x * d - e * n) * s;
      (s * x) * d - (e * s) * n;
      (g - n * y) * d - (e * s) * n;
      g * d - (y * d) * n - (e * s) * n;
    }
  }

  // --- Finite sets of numbers ---

  /** The first `n` numbers. */
  function Below(n: nat): (s: set<nat>)
    ensures |s| == n && forall p: nat :: p in s <==> p < n
  {
    if n == 0 then {} else Below(n - 1) + {n - 1}
  }
}
