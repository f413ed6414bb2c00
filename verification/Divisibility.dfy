/** Greatest common divisors and modular inverses: `math.gcd` and `std::gcd` as Euclid's loop, and the
    library's own extended-Euclid inverse, with the divisibility facts the ladder proofs need. */
module Divisibility {
  import opened IntMath

  function Gcd(a: nat, b: nat): (g: nat)
    decreases b
  {
    if b == 0 then a else Gcd(b, a % b)
  }

  predicate Coprime(a: nat, b: nat) { Gcd(a, b) == 1 }

  predicate Divides(d: int, x: int) { d > 0 && x % d == 0 }

  lemma DividesQuotient(d: int, x: int) returns (k: int)
    requires Divides(d, x)
    ensures x == k * d
  {
    k := x / d;
  }

  lemma MultipleDivides(d: int, k: int)
    requires d > 0
    ensures Divides(d, k * d) && Divides(d, d * k)
  {
    ModShift(0, k, d);
  }

  lemma DividesCombination(d: int, x: int, y: int, u: int, v: int)
    requires Divides(d, x) && Divides(d, y)
    ensures Divides(d, u * x + v * y)
  {
    var k := DividesQuotient(d, x);
    var l := DividesQuotient(d, y);
    assert u * x + v * y == (u * k + v * l) * d by {
      assert u * (k * d) == (u * k) * d && v * (l * d) == (v * l) * d;
    }
    MultipleDivides(d, u * k + v * l);
  }

  lemma BezoutBack(u: int, v: int, a: int, b: int, q: int, r: int)
    requires a == q * b + r
    ensures u * b + v * r == v * a + (u - v * q) * b
  {
    assert v * a == v * (q * b) + v * r;
    assert v * (q * b) == (v * q) * b;
    assert (u - v * q) * b == u * b - (v * q) * b;
  }

  /** Bezout: the gcd is an integer combination of its arguments. */
  lemma {:induction false} Bezout(a: nat, b: nat) returns (u: int, v: int)
    ensures Gcd(a, b) == u * a + v * b
    decreases b
  {
    if b == 0 {
      u, v := 1, 0;
    } else {
      var u', v' := Bezout(b, a % b);
      u, v := v', u' - v' * (a / b);
      BezoutBack(u', v', a, b, a / b, a % b);
    }
  }

  lemma {:induction false} GcdDivides(a: nat, b: nat)
    requires a > 0 || b > 0
    ensures Gcd(a, b) > 0 && Divides(Gcd(a, b), a) && Divides(Gcd(a, b), b)
    decreases b
  {
    if b == 0 {
      MultipleDivides(a, 1);
      MultipleDivides(a, 0);
    } else {
      GcdDivides(b, a % b);
      var g := Gcd(a, b);
      assert a == (a / b) * b + 1 * (a % b);
      DividesCombination(g, b, a % b, a / b, 1);
    }
  }

  /** `Gcd` is the greatest common divisor: every common divisor divides it. */
  lemma GcdGreatest(a: nat, b: nat, d: int)
    requires Divides(d, a) && Divides(d, b)
    ensures Divides(d, Gcd(a, b))
  {
    var u, v := Bezout(a, b);
    DividesCombination(d, a, b, u, v);
  }

  lemma DividesOne(d: int)
    requires Divides(d, 1)
    ensures d == 1
  {
    if d > 1 {
      SmallMod(1, d);
    }
  }

  lemma CoprimeFromBezout(a: nat, b: nat, u: int, v: int)
    requires u * a + v * b == 1
    ensures Coprime(a, b)
  {
    if a == 0 && b == 0 {
      assert false;
    } else {
      GcdDivides(a, b);
      DividesCombination(Gcd(a, b), a, b, u, v);
      DividesOne(Gcd(a, b));
    }
  }

  lemma CoprimeSym(a: nat, b: nat)
    requires Coprime(a, b)
    ensures Coprime(b, a)
  {
    var u, v := Bezout(a, b);
    CoprimeFromBezout(b, a, v, u);
  }

  lemma CoprimeIffNoCommonDivisor(a: nat, b: nat)
    requires a > 0 || b > 0
    ensures Coprime(a, b) <==> forall d {:trigger Divides(d, a)} :: Divides(d, a) && Divides(d, b) ==> d == 1
  {
    GcdDivides(a, b);
    if Coprime(a, b) {
      forall d | Divides(d, a) && Divides(d, b)
        ensures d == 1
      {
        GcdGreatest(a, b, d);
        DividesOne(d);
      }
    }
  }

  /** Products regroup: two facts the nonlinear steps below share. */
  lemma Regroup(s: int, b: int, u: int, a: int)
    ensures (s * b) * (u * a) == (s * u) * (a * b)
  {
    assert (s * b) * (u * a) == s * (b * (u * a));
    assert b * (u * a) == u * (a * b);
    assert s * (u * (a * b)) == (s * u) * (a * b);
  }

  lemma Assoc(a: int, b: int, c: int)
    ensures (a * b) * c == a * (b * c) && a * (b * c) == b * (a * c)
  {
  }

  lemma CoprimeProductOf(a: nat, b: nat, m: nat)
    requires Coprime(a, m) && Coprime(b, m)
    ensures Coprime(a * b, m)
  {
    var u, v := Bezout(a, m);
    var s, t := Bezout(b, m);
    BezoutProduct(s, b, t, m, u, a, v);
    CoprimeFromBezout(a * b, m, s * u, s * b * v + t);
  }

  lemma BezoutProduct(s: int, b: int, t: int, m: int, u: int, a: int, v: int)
    requires u * a + v * m == 1 && s * b + t * m == 1
    ensures (s * u) * (a * b) + (s * b * v + t) * m == 1
  {
    var sb, x, y := s * b, u * a, v * m;
    assert sb == sb * x + sb * y by {
      assert sb * (x + y) == sb * x + sb * y;
    }
    Regroup(s, b, u, a);
    Assoc(sb, v, m);
    assert (sb * v + t) * m == (sb * v) * m + t * m;
  }

  /** Coprimality with a product is coprimality with both factors. */
  lemma CoprimeProduct(a: nat, b: nat, m: nat)
    ensures Coprime(a * b, m) <==> Coprime(a, m) && Coprime(b, m)
  {
    if Coprime(a, m) && Coprime(b, m) {
      CoprimeProductOf(a, b, m);
    }
    if Coprime(a * b, m) {
      var u, v := Bezout(a * b, m);
      Assoc(u, a, b);
      Assoc(u, b, a);
      CoprimeFromBezout(a, m, u * b, v);
      CoprimeFromBezout(b, m, u * a, v);
    }
  }

  lemma CoprimeMod(a: nat, m: nat)
    requires m > 0
    ensures Coprime(a % m, m) <==> Coprime(a, m)
  {
    assert Gcd(a, m) == Gcd(m, a % m);
    if Coprime(m, a % m) {
      CoprimeSym(m, a % m);
    }
    if Coprime(a % m, m) {
      CoprimeSym(a % m, m);
    }
  }

  /** Two coprime divisors of a number have a product that divides it. */
  lemma CoprimeDivisorsMultiply(m: nat, n: nat, x: int)
    requires Coprime(m, n) && Divides(m, x) && Divides(n, x)
    ensures Divides(m * n, x)
  {
    var u, v := Bezout(m, n);
    var k := DividesQuotient(m, x);
    var l := DividesQuotient(n, x);
    CombinedQuotient(u, m, v, n, k, l, x);
    MulMono(1, m, n);
    MultipleDivides(m * n, u * l + v * k);
  }

  lemma CombinedQuotient(u: int, m: nat, v: int, n: nat, k: int, l: int, x: int)
    requires u * m + v * n == 1 && x == k * m && x == l * n
    ensures x == (u * l + v * k) * (m * n)
  {
    var um, vn, mn := u * m, v * n, m * n;
    assert x == um * x + vn * x by {
      assert (um + vn) * x == um * x + vn * x;
    }
    Regroup(u, m, l, n);
    Regroup(v, n, k, m);
    assert (u * l) * mn + (v * k) * mn == (u * l + v * k) * mn;
  }

  /** `math.gcd` and `std::gcd` as the loop they run. */
  method EuclidGcd(a: nat, b: nat) returns (g: nat)
    ensures g == Gcd(a, b)
  {
    var x, y := a, b;
    while y != 0
      invariant Gcd(x, y) == Gcd(a, b)
      decreases y
    {
      x, y := y, x % y;
    }
    g := x;
  }

  /** The inverse of `a` modulo `m`, when there is one. */
  ghost predicate IsInverse(inv: int, a: int, m: int)
  {
    m > 1 && 1 <= inv < m && (a * inv) % m == 1
  }

  lemma InverseExists(a: nat, m: nat) returns (inv: int)
    requires m > 1 && Coprime(a, m)
    ensures IsInverse(inv, a, m)
  {
    var u, v := Bezout(a, m);
    inv := u % m;
    assert u == (u / m) * m + inv;
    assert a * inv == 1 + (-v - a * (u / m)) * m by {
      assert a * u == a * ((u / m) * m) + a * inv;
      assert a * ((u / m) * m) == (a * (u / m)) * m;
    }
    ModShift(1, -v - a * (u / m), m);
    SmallMod(1, m);
    SmallMod(0, m);
  }

  lemma InverseMeansCoprime(inv: int, a: nat, m: nat)
    requires IsInverse(inv, a, m)
    ensures Coprime(a, m)
  {
    var k := (a * inv) / m;
    assert inv * a + (-k) * m == 1;
    CoprimeFromBezout(a, m, inv, -k);
  }

  lemma InverseUnique(x: int, y: int, a: int, m: int)
    requires IsInverse(x, a, m) && IsInverse(y, a, m)
    ensures x == y
  {
    SmallMod(1, m);
    CongMul(a * x, 1, y, y, m);
    CongMul(a * y, 1, x, x, m);
    assert (a * x) * y == (a * y) * x;
    CongClose(x, y, m);
  }

  /** The library's `mod_inverse` (the Python tool's `pow(x, -1, m)` is the same number): the inverse
      when `a` and the modulus are coprime, and 0 when they are not.  The asserted bounds keep every
      temporary within the modulus, so for a uint32 modulus none of the int64 ones wraps. */
  method ModInverse(a: nat, modulus: nat) returns (inv: nat)
    requires modulus >= 2
    ensures Coprime(a, modulus) ==> IsInverse(inv, a, modulus)
    ensures !Coprime(a, modulus) ==> inv == 0
  {
    var t, nextT := 0, 1;
    var r, nextR := modulus, a % modulus;
    EuclidStart(a, modulus);
    while nextR != 0
      invariant EuclidState(t, nextT, r, nextR, a, modulus)
      decreases nextR
    {
      EuclidStep(t, nextT, r, nextR, a, modulus);
      var quotient := r / nextR;
      var newT := t - quotient * nextT;
      assert quotient <= modulus && Abs(newT) <= modulus && Abs(newT - t) <= 2 * modulus;
      t := nextT;
      nextT := newT;
      var newR := r - quotient * nextR;
      r := nextR;
      nextR := newR;
    }
    if r != 1 {
      return 0;
    }
    EuclidFinish(t, nextT, a, modulus);
    if t < 0 {
      t := t + modulus;
    }
    inv := t;
  }

  /** What every turn of the extended-Euclid loop keeps: the gcd, the congruences `t*a = r` and
      `t'*a = r'` modulo `m`, alternating signs, and the conserved sum `r*|t'| + r'*|t|`, which is what
      bounds the coefficients by the modulus. */
  ghost predicate EuclidState(t: int, nextT: int, r: int, nextR: int, a: nat, m: nat)
  {
    && 0 <= nextR < r <= m
    && Gcd(r, nextR) == Gcd(a, m)
    && Divides(m, t * a - r) && Divides(m, nextT * a - nextR)
    && (t <= 0 < nextT || nextT < 0 <= t)
    && r * Abs(nextT) + nextR * Abs(t) == m
    && Abs(t) <= Abs(nextT) <= m
    && (nextR == 0 ==> Abs(t) < Abs(nextT))
  }

  lemma EuclidStart(a: nat, m: nat)
    requires m >= 2
    ensures EuclidState(0, 1, m, a % m, a, m)
  {
    MultipleDivides(m, -1);
    assert a - a % m == (a / m) * m;
    MultipleDivides(m, a / m);
    assert Gcd(a, m) == Gcd(m, a % m);
  }

  lemma EuclidStep(t: int, nextT: int, r: int, nextR: int, a: nat, m: nat)
    requires EuclidState(t, nextT, r, nextR, a, m) && nextR != 0
    ensures var q := r / nextR;
      EuclidState(nextT, t - q * nextT, nextR, r - q * nextR, a, m) && 1 <= q <= r
  {
    var q := r / nextR;
    QuotientBounds(r, nextR);
    ResidualStep(t, nextT, r, nextR, q, a, m);
    AlternatingStep(t, nextT, q);
    EuclidNext(t, nextT, t - q * nextT, r, nextR, r - q * nextR, q, a, m);
  }

  /** The step in terms of its new coefficient and remainder, away from the products that define them. */
  lemma EuclidNext(t: int, nextT: int, newT: int, r: int, nextR: int, newR: int, q: int, a: nat, m: nat)
    requires EuclidState(t, nextT, r, nextR, a, m) && nextR != 0 && q >= 1
    requires newR == r % nextR && r == q * nextR + newR && (newR == 0 ==> q >= 2)
    requires Divides(m, newT * a - newR) && Abs(newT) == Abs(t) + q * Abs(nextT)
    requires nextT < 0 < newT || newT < 0 < nextT
    ensures EuclidState(nextT, newT, nextR, newR, a, m)
  {
    assert Gcd(r, nextR) == Gcd(nextR, newR);
    ConservedStep(Abs(t), Abs(nextT), Abs(newT), r, nextR, newR, q, m);
    MagnitudeStep(Abs(t), Abs(nextT), Abs(newT), nextR, newR, q, m);
  }

  lemma ResidualStep(t: int, nextT: int, r: int, nextR: int, q: int, a: int, m: int)
    requires Divides(m, t * a - r) && Divides(m, nextT * a - nextR)
    ensures Divides(m, (t - q * nextT) * a - (r - q * nextR))
  {
    DividesCombination(m, t * a - r, nextT * a - nextR, 1, -q);
    Residual(t, nextT, r, nextR, q, a);
  }

  lemma Residual(t: int, nextT: int, r: int, nextR: int, q: int, a: int)
    ensures (t - q * nextT) * a - (r - q * nextR) == 1 * (t * a - r) + (-q) * (nextT * a - nextR)
  {
    Assoc(q, nextT, a);
    Distribute(t, q * nextT, a);
    Distribute(nextT * a, nextR, q);
  }

  lemma Distribute(x: int, y: int, z: int)
    ensures (x - y) * z == x * z - y * z && z * (x - y) == z * x - z * y
  {
  }

  lemma QuotientBounds(r: int, nextR: int)
    requires 0 < nextR < r
    ensures 1 <= r / nextR <= r && r == r / nextR * nextR + r % nextR
    ensures r % nextR == 0 ==> r / nextR >= 2
  {
    var q := r / nextR;
    assert r == q * nextR + r % nextR;
    if q <= 0 { MulMono(q, 0, nextR); }
    MulMono(1, nextR, q);
  }

  lemma AlternatingStep(t: int, nextT: int, q: int)
    requires q >= 1 && (t <= 0 < nextT || nextT < 0 <= t)
    ensures var newT := t - q * nextT;
      && Abs(newT) == Abs(t) + q * Abs(nextT)
      && (nextT < 0 < newT || newT < 0 < nextT)
  {
    MulMono(1, q, Abs(nextT));
    if nextT < 0 {
      assert q * nextT == -(q * Abs(nextT));
    }
  }

  lemma ConservedStep(b: nat, nextB: nat, newB: nat, r: int, nextR: int, newR: int, q: int, m: nat)
    requires newB == b + q * nextB && r == q * nextR + newR && r * nextB + nextR * b == m
    ensures nextR * newB + newR * nextB == m
  {
    Assoc(q, nextR, nextB);
    Assoc(nextR, q, nextB);
    Distribute(newB, b, nextR);
    Distribute(r, q * nextR, nextB);
  }

  lemma MagnitudeStep(b: nat, nextB: nat, newB: nat, nextR: int, newR: int, q: int, m: nat)
    requires 0 <= newR < nextR && q >= 1 && 1 <= nextB && newB == b + q * nextB && (newR == 0 ==> q >= 2)
    requires nextR * newB + newR * nextB == m
    ensures nextB <= newB <= m && (newR == 0 ==> nextB < newB)
  {
    MulNonNeg(newR, nextB);
    MulMono(1, nextR, newB);
    MulMono(1, q, nextB);
    if newR == 0 { MulMono(2, q, nextB); }
  }

  lemma EuclidFinish(t: int, nextT: int, a: nat, m: nat)
    requires m >= 2 && EuclidState(t, nextT, 1, 0, a, m)
    ensures IsInverse(if t < 0 then t + m else t, a, m)
  {
    var inv := if t < 0 then t + m else t;
    assert Abs(t) < m;
    SmallMod(1, m);
    CongSubZero(t * a, 1, m);
    assert a * inv == t * a + (if t < 0 then 1 else 0) * (a * m);
    ModShift(t * a, a, m);
    if inv == 0 { SmallMod(0, m); }
  }
}
