/** The benchmark's output checksum (`mix_checksum` in `benchmarks/rns8_bench_support.cpp`). */
module Checksum {
  import opened IntMath

  /** The odd multiplier and its inverse modulo 2^64. */
  const MULTIPLIER := 1099511628211
  const MULTIPLIER_INVERSE := 0xce965057aff6957b

  /** Bitwise exclusive or. */
  function Xor(a: nat, b: nat): nat
    decreases a + b
  {
    if a == 0 && b == 0 then 0 else (a + b) % 2 + 2 * Xor(a / 2, b / 2)
  }

  /** One step: exclusive or, then multiply modulo 2^64. */
  function Mix(checksum: nat, value: nat): (r: nat)
    ensures r < TWO_64
  {
    Xor(checksum, value) * MULTIPLIER % TWO_64
  }

  class Accumulator {
    var checksum: uint64

    constructor (seed: uint64)
      ensures checksum == seed
    {
      checksum := seed;
    }

    /** `mix_checksum` updates the checksum in place. */
    method MixChecksum(value: uint64)
      modifies this
      ensures checksum == Mix(old(checksum), value)
    {
      Pow2Consts();
      XorBound(checksum, value, 64);
      checksum := Xor(checksum, value);
      checksum := checksum * MULTIPLIER % TWO_64;
    }

    method MixAll(values: seq<uint64>)
      modifies this
      ensures checksum == Fold(old(checksum), values, |values|)
    {
      for i := 0 to |values|
        invariant checksum == Fold(old(checksum), values, i)
      {
        MixChecksum(values[i]);
      }
    }
  }

  /** The checksum after the first `n` values. */
  function Fold(seed: uint64, values: seq<uint64>, n: nat): uint64
    requires n <= |values|
  {
    if n == 0 then seed else Mix(Fold(seed, values, n - 1), values[n - 1])
  }

  lemma {:induction false} XorBound(a: nat, b: nat, n: nat)
    requires a < Pow2(n) && b < Pow2(n)
    ensures Xor(a, b) < Pow2(n)
  {
    if n > 0 {
      XorBound(a / 2, b / 2, n - 1);
    }
  }

  /** Bit `k`, counted from the low end. */
  function Bit(x: nat, k: nat): int { x / Pow2(k) % 2 }

  lemma HalveFirst(x: nat, k: nat)
    ensures Bit(x, k + 1) == Bit(x / 2, k)
  {
    var h, p := x / 2, Pow2(k);
    DivModUnique(x, h / p, 2 * (h % p) + x % 2, 2 * p);
  }

  lemma LowBit(a: nat, b: nat)
    ensures (a + b) % 2 == 1 <==> a % 2 != b % 2
  {
  }

  /** Bit `k` of the exclusive or is set exactly when one of the two bits is. */
  lemma {:induction false} XorBits(a: nat, b: nat, k: nat)
    ensures Bit(Xor(a, b), k) == 1 <==> Bit(a, k) != Bit(b, k)
    decreases k
  {
    XorHalves(a, b);
    if k > 0 {
      XorBits(a / 2, b / 2, k - 1);
      HalveFirst(a, k - 1);
      HalveFirst(b, k - 1);
      HalveFirst(Xor(a, b), k - 1);
    } else {
      LowBit(a, b);
      assert Pow2(0) == 1;
    }
  }

  /** Mixing 1 into 0 gives the multiplier itself, so a step is the exclusive or times this constant. */
  lemma MixOfOne(c: nat, v: nat)
    ensures Mix(0, 1) == 1099511628211
    ensures Mix(c, v) == Xor(c, v) * 1099511628211 % 0x1_0000_0000_0000_0000
  {
    XorWithZero(1);
  }

  /** Equal sums may exchange operands across the equation. */
  lemma {:induction false} XorExchange(a: nat, b: nat, c: nat, d: nat)
    ensures Xor(a, b) == Xor(c, d) <==> Xor(a, c) == Xor(b, d)
    decreases a + b + c + d
  {
    if a + b + c + d > 0 {
      XorExchange(a / 2, b / 2, c / 2, d / 2);
      XorEqualByHalves(a, b, c, d);
      XorEqualByHalves(a, c, b, d);
      ParityExchange(a, b, c, d);
    } else {
      assert Xor(0, 0) == 0;
    }
  }

  lemma ParityExchange(a: nat, b: nat, c: nat, d: nat)
    ensures (a + b) % 2 == (c + d) % 2 <==> (a + c) % 2 == (b + d) % 2
  {
  }

  lemma XorEqualByHalves(a: nat, b: nat, c: nat, d: nat)
    ensures Xor(a, b) == Xor(c, d) <==> (a + b) % 2 == (c + d) % 2 && Xor(a / 2, b / 2) == Xor(c / 2, d / 2)
  {
    XorHalves(a, b);
    XorHalves(c, d);
  }

  lemma XorHalves(a: nat, b: nat)
    ensures Xor(a, b) == (a + b) % 2 + 2 * Xor(a / 2, b / 2)
  {
    if a == 0 && b == 0 {
      assert Xor(0, 0) == 0;
    }
  }

  lemma {:induction false} XorIsZero(a: nat, b: nat)
    ensures Xor(a, b) == 0 <==> a == b
    decreases a + b
  {
    if a + b > 0 {
      XorIsZero(a / 2, b / 2);
    }
  }

  lemma {:induction false} XorWithZero(a: nat)
    ensures Xor(a, 0) == a && Xor(0, a) == a
  {
    if a > 0 {
      XorWithZero(a / 2);
    }
  }

  lemma ProductCancels(x: nat, u: nat, v: nat, k: nat)
    requires x < TWO_64 && u * v == 1 + k * TWO_64
    ensures (x * u % TWO_64) * v % TWO_64 == x
  {
    var y := x * u;
    ModIdem(y, TWO_64);
    CongMul(y % TWO_64, y, v, v, TWO_64);
    assert y * v == x * (u * v);
    assert x * (1 + k * TWO_64) == x + (x * k) * TWO_64;
    ModShift(x, x * k, TWO_64);
    SmallMod(x, TWO_64);
  }

  lemma MultiplierCancels(x: nat)
    requires x < TWO_64
    ensures (x * MULTIPLIER % TWO_64) * MULTIPLIER_INVERSE % TWO_64 == x
  {
    ProductCancels(x, MULTIPLIER, MULTIPLIER_INVERSE, MULTIPLIER * MULTIPLIER_INVERSE / TWO_64);
  }

  /** The multiplier is invertible modulo 2^64. */
  lemma MultiplierInjective(x: nat, y: nat)
    requires x < TWO_64 && y < TWO_64
    ensures x * MULTIPLIER % TWO_64 == y * MULTIPLIER % TWO_64 <==> x == y
  {
    MultiplierCancels(x);
    MultiplierCancels(y);
  }

  /** Two steps collide exactly when the checksums differ by what the values differ by; so a step is
      injective in the checksum for a fixed value, and in the value for a fixed checksum. */
  lemma MixCollides(c: uint64, v: uint64, d: uint64, w: uint64)
    ensures Mix(c, v) == Mix(d, w) <==> Xor(c, d) == Xor(v, w)
  {
    Pow2Consts();
    XorBound(c, v, 64);
    XorBound(d, w, 64);
    MultiplierInjective(Xor(c, v), Xor(d, w));
    XorExchange(c, v, d, w);
  }

  lemma MultiplierUndone(r: nat)
    requires r < TWO_64
    ensures (r * MULTIPLIER_INVERSE % TWO_64) * MULTIPLIER % TWO_64 == r
  {
    ProductCancels(r, MULTIPLIER_INVERSE, MULTIPLIER, MULTIPLIER * MULTIPLIER_INVERSE / TWO_64);
  }

  /** Every checksum is reached: a step is a bijection of the 64-bit words for each value. */
  lemma MixSurjective(r: uint64, v: uint64)
    ensures exists c: uint64 :: Mix(c, v) == r
  {
    var x := r * MULTIPLIER_INVERSE % TWO_64;
    Pow2Consts();
    XorBound(x, v, 64);
    var c: uint64 := Xor(x, v);
    XorUndo(x, v);
    MultiplierUndone(r);
    assert Mix(c, v) == r;
  }

  lemma XorUndo(x: nat, v: nat)
    ensures Xor(Xor(x, v), v) == x
  {
    XorWithZero(Xor(x, v));
    XorWithZero(v);
    XorWithZero(x);
    XorExchange(Xor(x, v), 0, x, v);
    XorExchange(Xor(x, v), v, x, 0);
  }

  /** Equal values never merge or split two running checksums. */
  lemma {:induction false} CommonSuffix(seed: uint64, seed': uint64, xs: seq<uint64>, ys: seq<uint64>, i: nat, n: nat)
    requires |xs| == |ys| && i <= n <= |xs| && forall k :: i <= k < |xs| ==> xs[k] == ys[k]
    ensures Fold(seed, xs, n) == Fold(seed', ys, n) <==> Fold(seed, xs, i) == Fold(seed', ys, i)
    decreases n
  {
    if i < n {
      CommonSuffix(seed, seed', xs, ys, i, n - 1);
      var c, d, v := Fold(seed, xs, n - 1), Fold(seed', ys, n - 1), xs[n - 1];
      MixCollides(c, v, d, v);
      XorIsZero(v, v);
      XorIsZero(c, d);
    }
  }

  lemma {:induction false} FoldPrefix(seed: uint64, xs: seq<uint64>, ys: seq<uint64>, n: nat)
    requires n <= |xs| && n <= |ys| && forall k :: 0 <= k < n ==> xs[k] == ys[k]
    ensures Fold(seed, xs, n) == Fold(seed, ys, n)
  {
    if n > 0 {
      FoldPrefix(seed, xs, ys, n - 1);
    }
  }

  /** Detection: two equally long streams that differ in exactly one place never share a checksum. */
  lemma SingleDifferenceDetected(seed: uint64, xs: seq<uint64>, ys: seq<uint64>, at: nat)
    requires |xs| == |ys| && at < |xs| && xs[at] != ys[at]
    requires forall k :: 0 <= k < |xs| && k != at ==> xs[k] == ys[k]
    ensures Fold(seed, xs, |xs|) != Fold(seed, ys, |ys|)
  {
    FoldPrefix(seed, xs, ys, at);
    var c := Fold(seed, xs, at);
    MixCollides(c, xs[at], c, ys[at]);
    XorIsZero(c, c);
    XorIsZero(xs[at], ys[at]);
    CommonSuffix(seed, seed, xs, ys, at + 1, |xs|);
  }

  /** The guarantee stops there: two streams that already disagree are brought together by a next pair of
      values exactly when those differ by what the checksums differ by. */
  lemma SecondDifferenceCanHide(seed: uint64, xs: seq<uint64>, ys: seq<uint64>, v: uint64, w: uint64)
    requires |xs| == |ys|
    ensures Fold(seed, xs + [v], |xs| + 1) == Fold(seed, ys + [w], |ys| + 1)
      <==> Xor(v, w) == Xor(Fold(seed, xs, |xs|), Fold(seed, ys, |ys|))
  {
    FoldPrefix(seed, xs, xs + [v], |xs|);
    FoldPrefix(seed, ys, ys + [w], |ys|);
    MixCollides(Fold(seed, xs, |xs|), v, Fold(seed, ys, |ys|), w);
  }
}
