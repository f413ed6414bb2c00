/** Integer arithmetic the model rests on: the fixed-width types of the C++ code (as subset types, so
    that every assignment to one is a proof that no bit is lost), truncated division, congruence, and
    powers of two. */
module IntMath {

  type int8 = x: int | -0x80 <= x < 0x80
  type int32 = x: int | -0x8000_0000 <= x < 0x8000_0000
  type uint32 = x: int | 0 <= x < 0x1_0000_0000
  type int64 = x: int | -0x8000_0000_0000_0000 <= x < 0x8000_0000_0000_0000
  type uint64 = x: int | 0 <= x < 0x1_0000_0000_0000_0000

  const TWO_32 := 0x1_0000_0000
  const TWO_63 := 0x8000_0000_0000_0000
  const TWO_64 := 0x1_0000_0000_0000_0000
  const INT32_MAX := 0x7fff_ffff

  predicate Words(x: seq<int>) { forall t :: 0 <= t < |x| ==> 0 <= x[t] < TWO_64 }

  function Abs(x: int): nat { if x < 0 then -x else x }
  function Max(a: int, b: int): int { if a < b then b else a }
  function Min(a: int, b: int): int { if a < b then a else b }

  /** C++ and Boost `%` and `/`: the quotient is truncated toward zero. */
  function TruncRem(a: int, m: int): int
    requires m > 0
  {
    if a >= 0 then a % m else -((-a) % m)
  }

  function TruncDiv(a: int, m: int): int
    requires m > 0
  {
    if a >= 0 then a / m else -((-a) / m)
  }

  lemma MulMono(a: int, b: int, c: int)
    requires 0 <= c && a <= b
    ensures a * c <= b * c && c * a <= c * b
  {
  }

  lemma MulNonNeg(a: int, b: int)
    requires 0 <= a && 0 <= b
    ensures 0 <= a * b
  {
  }

  lemma MulCancel(a: int, b: int, c: int)
    requires 0 < c && a * c < b * c
    ensures a < b
  {
    if b <= a {
      MulMono(b, a, c);
    }
  }

  /** Division with remainder is unique. */
  lemma DivModUnique(x: int, q: int, r: int, m: int)
    requires m > 0 && 0 <= r < m && x == q * m + r
    ensures x / m == q && x % m == r
  {
    var d := q - x / m;
    assert x == (x / m) * m + x % m;
    assert d * m == x % m - r;
    if d >= 1 {
      MulMono(1, d, m);
    } else if d <= -1 {
      MulMono(d, -1, m);
    }
  }

  lemma SmallMod(x: int, m: int)
    requires 0 <= x < m
    ensures x % m == x && x / m == 0
  {
    DivModUnique(x, 0, x, m);
  }

  lemma ModShift(x: int, k: int, m: int)
    requires m > 0
    ensures (x + k * m) % m == x % m && (x + m * k) % m == x % m && (x - k * m) % m == x % m
  {
    var q, r := x / m, x % m;
    assert x == q * m + r;
    assert x + k * m == (q + k) * m + r;
    assert x - k * m == (q - k) * m + r;
    DivModUnique(x + k * m, q + k, r, m);
    DivModUnique(x - k * m, q - k, r, m);
  }

  /** The two directions between "same remainder" and "differs by a multiple". */
  lemma CongToMultiple(a: int, b: int, m: int) returns (k: int)
    requires m > 0 && a % m == b % m
    ensures a == b + k * m
  {
    k := a / m - b / m;
    assert a == (a / m) * m + a % m && b == (b / m) * m + b % m;
  }

  lemma ModIdem(a: int, m: int)
    requires m > 0
    ensures (a % m) % m == a % m
  {
    SmallMod(a % m, m);
  }

  lemma CongAdd(a: int, a': int, b: int, b': int, m: int)
    requires m > 0 && a % m == a' % m && b % m == b' % m
    ensures (a + b) % m == (a' + b') % m && (a - b) % m == (a' - b') % m
  {
    var k := CongToMultiple(a, a', m);
    var l := CongToMultiple(b, b', m);
    assert a + b == (a' + b') + (k + l) * m;
    assert a - b == (a' - b') + (k - l) * m;
    ModShift(a' + b', k + l, m);
    ModShift(a' - b', k - l, m);
  }

  lemma CongMul(a: int, a': int, b: int, b': int, m: int)
    requires m > 0 && a % m == a' % m && b % m == b' % m
    ensures (a * b) % m == (a' * b') % m
  {
    var k := CongToMultiple(a, a', m);
    var l := CongToMultiple(b, b', m);
    assert a * b == a' * b' + (k * b' + a' * l + k * l * m) * m by {
      assert a * b == (a' + k * m) * (b' + l * m);
      assert (a' + k * m) * (b' + l * m) == a' * b' + a' * (l * m) + (k * m) * b' + (k * m) * (l * m);
      assert a' * (l * m) == (a' * l) * m;
      assert (k * m) * b' == (k * b') * m;
      assert (k * m) * (l * m) == (k * l * m) * m;
    }
    ModShift(a' * b', k * b' + a' * l + k * l * m, m);
  }

  lemma CongSubZero(a: int, b: int, m: int)
    requires m > 0
    ensures a % m == b % m <==> (a - b) % m == 0
  {
    if a % m == b % m {
      var k := CongToMultiple(a, b, m);
      ModShift(0, k, m);
    }
    if (a - b) % m == 0 {
      var k := CongToMultiple(a - b, 0, m);
      ModShift(b, k, m);
    }
  }

  /** Values closer together than the modulus and congruent are equal. */
  lemma CongClose(a: int, b: int, m: int)
    requires m > 0 && a % m == b % m && -m < a - b < m
    ensures a == b
  {
    var k := CongToMultiple(a, b, m);
    if k >= 1 {
      MulMono(1, k, m);
    } else if k <= -1 {
      MulMono(k, -1, m);
    }
  }

  function Pow2(n: nat): (r: nat)
    ensures r >= 1
  {
    if n == 0 then 1 else 2 * Pow2(n - 1)
  }

  lemma {:induction false} Pow2Add(a: nat, b: nat)
    ensures Pow2(a + b) == Pow2(a) * Pow2(b)
  {
    if b == 0 {
      assert Pow2(0) == 1;
    } else {
      Pow2Add(a, b - 1);
      assert Pow2(a + b) == 2 * Pow2(a + (b - 1));
      assert Pow2(a) * (2 * Pow2(b - 1)) == 2 * (Pow2(a) * Pow2(b - 1));
    }
  }

  lemma {:induction false} Pow2Mono(a: nat, b: nat)
    requires a <= b
    ensures Pow2(a) <= Pow2(b)
  {
    if a < b {
      Pow2Mono(a, b - 1);
    }
  }

  lemma Pow2Sum(a: nat, b: nat, c: nat, x: nat, y: nat)
    requires c == a + b && Pow2(a) == x && Pow2(b) == y
    ensures Pow2(c) == x * y
  {
    Pow2Add(a, b);
  }

  lemma Pow2Below(a: nat, x: nat)
    requires Pow2(a + 1) == 2 * x
    ensures Pow2(a) == x
  {
  }

  lemma Pow2Consts()
    ensures Pow2(8) == 0x100 && Pow2(32) == TWO_32 && Pow2(63) == TWO_63 && Pow2(64) == TWO_64
  {
    Pow2Sum(8, 8, 16, 0x100, 0x100);
    Pow2Sum(16, 16, 32, 0x1_0000, 0x1_0000);
    Pow2Sum(32, 32, 64, TWO_32, TWO_32);
    Pow2Below(63, TWO_63);
  }
}
