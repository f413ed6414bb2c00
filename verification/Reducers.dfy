/** The fast centered reducers: Barrett division by a truncated reciprocal and the byte folds of
    `src/backend_common/finite_u8_reducer.hpp`, and the reducer text the kernel generator emits.  Each is
    proved to compute the one centered residue that `Centering` defines. */
module Reducers {
  import opened IntMath
  import opened Centering

  /** `modulus & (0u - (residue >= modulus))`: the branch-free conditional operand. */
  function Masked(condition: bool, operand: uint32): uint32 { if condition then operand else 0 }

  /** `residue -= modulus & (0u - (residue >= modulus))`: subtract the modulus if it fits. */
  function SubtractOnce(residue: uint32, modulus: uint32): (r: uint32)
    requires modulus > 0
    ensures r % modulus == residue % modulus && r <= residue
    ensures r == if residue >= modulus then residue - modulus else residue
  {
    ModShift(residue, -1, modulus);
    residue - Masked(residue >= modulus, modulus)
  }

  /** Two's-complement reinterpretation of an unsigned word. */
  function AsInt32(u: uint32): int32 { if u >= 0x8000_0000 then u - TWO_32 else u }

  /** The `(int8_t)` cast. */
  function AsInt8(x: int): int8 { (x + 128) % 256 - 128 }

  lemma ScaledProduct(v: nat, m: nat, r: nat, e: nat, w: nat)
    requires v < w && e < m && w == r * m + e
    ensures (v * r) * m == v * w - v * e && 0 <= v * e < m * w
  {
    assert v * (r * m + e) == v * (r * m) + v * e;
    assert v * (r * m) == (v * r) * m;
    MulMono(e, m, v);
    assert m * (w - v) > 0;
  }

  lemma ScaledBounds(y: nat, x: nat, m: nat, w: nat)
    requires 0 < m && x * w <= y < (x + 1) * w
    ensures (x * m) * w <= y * m < (x * m + m) * w
  {
    MulMono(x * w, y, m);
    MulMono(y + 1, (x + 1) * w, m);
    assert (x * w) * m == (x * m) * w;
    assert ((x + 1) * w) * m == (x * m + m) * w;
  }

  lemma ScaledDistance(a: nat, v: nat, m: nat, w: nat, error: nat)
    requires 0 < w && a * w <= v * w - error < (a + m) * w && error < m * w
    ensures 0 <= v - a < 2 * m
  {
    assert (a + m) * w + m * w == (a + 2 * m) * w;
    MulCancel(v, a + 2 * m, w);
    assert (v + 1) * w == v * w + w;
    MulCancel(a, v + 1, w);
  }

  /** With `w == r*m + e` and `x` the rounded-down `v*r/w`, the product `x*m` is within `2m` of `v`. */
  lemma BarrettScaled(v: nat, m: nat, r: nat, e: nat, w: nat, x: nat)
    requires v < w && e < m && w == r * m + e && x * w <= v * r < (x + 1) * w
    ensures 0 <= v - x * m < 2 * m
  {
    ScaledProduct(v, m, r, e, w);
    ScaledBounds(v * r, x, m, w);
    ScaledDistance(x * m, v, m, w, v * e);
  }

  /** The truncated-reciprocal quotient is the true quotient or one less. */
  lemma BarrettError(v: uint32, m: nat, r: nat)
    requires 2 <= m <= 256 && r == TWO_32 / m
    ensures v * r < TWO_64
    ensures var q := v * r / TWO_32; 0 <= v - q * m < 2 * m
  {
    MulNonNeg(v, r);
    MulMono(r, TWO_32 - 1, v);
    assert v * r <= v * (TWO_32 - 1);
    BarrettScaled(v, m, r, TWO_32 % m, TWO_32, v * r / TWO_32);
  }

  /** Two conditional subtractions reduce anything below twice the modulus. */
  function TwiceSubtracted(rest: uint32, modulus: uint32): (r: uint32)
    requires 0 < modulus && rest < 2 * modulus
    ensures r == rest % modulus
  {
    var r := SubtractOnce(SubtractOnce(rest, modulus), modulus);
    SmallMod(r, modulus);
    r
  }

  /** So what is left after subtracting it is congruent and below twice the modulus. */
  lemma BarrettRest(v: uint32, m: nat, r: nat, q: int, rest: int)
    requires 2 <= m <= 256 && r == TWO_32 / m && q == v * r / TWO_32 && rest == v - q * m
    ensures 0 <= rest < 2 * m && rest % m == v % m
  {
    BarrettError(v, m, r);
    ModShift(v, q, m);
  }

  /** `reduce_u32_small_modulus`. */
  method ReduceU32SmallModulus(value: uint32, modulus: uint32, reciprocal: uint32) returns (residue: uint32)
    requires 2 <= modulus <= 256 && reciprocal == TWO_32 / modulus
    ensures residue == value % modulus
  {
    BarrettError(value, modulus, reciprocal);
    var wide: uint64 := value * reciprocal;
    var quotient := wide / TWO_32;
    BarrettRest(value, modulus, reciprocal, quotient, value - quotient * modulus);
    residue := TwiceSubtracted(value - quotient * modulus, modulus);
  }

  lemma ByteExpansion(value: uint32)
    ensures value == value % 256 + 256 * (value / 256 % 256) + 65536 * (value / 65536 % 256)
      + 16777216 * (value / 16777216 % 256)
  {
    assert value / 65536 == value / 256 / 256;
    assert value / 16777216 == value / 65536 / 256;
  }

  /** `reduce_u32_mod255`: fold the four bytes, fold again, subtract at most once. */
  method ReduceU32Mod255(value: uint32) returns (residue: uint32)
    ensures residue == value % 255
  {
    var b0, b1, b2, b3 := value % 256, value / 256 % 256, value / 65536 % 256, value / 16777216 % 256;
    ByteExpansion(value);
    residue := b0 + b1 + b2 + b3;
    ModShift(residue, b1 + 257 * b2 + 65793 * b3, 255);
    ghost var folded := residue;
    residue := residue % 256 + residue / 256;
    ModShift(residue, folded / 256, 255);
    residue := SubtractOnce(residue, 255);
    SmallMod(residue, 255);
  }

  /** 256 is 5 modulo 251, so the bytes weigh 1, 5, 25 and 125. */
  lemma WeightedBytes(value: uint32, b0: nat, b1: nat, b2: nat, b3: nat)
    requires value == b0 + 256 * b1 + 65536 * b2 + 16777216 * b3
    ensures (b0 + 5 * b1 + 25 * b2 + 125 * b3) % 251 == value % 251
  {
    ModShift(b0 + 5 * b1 + 25 * b2 + 125 * b3, b1 + 261 * b2 + 66841 * b3, 251);
  }

  lemma FoldOnce(folded: nat)
    ensures (folded % 256 + 5 * (folded / 256)) % 251 == folded % 251
  {
    ModShift(folded % 256 + 5 * (folded / 256), folded / 256, 251);
  }

  /** `reduce_u32_mod251`: two folds and at most four subtractions. */
  method ReduceU32Mod251(value: uint32) returns (residue: uint32)
    ensures residue == value % 251
  {
    var b0, b1, b2, b3 := value % 256, value / 256 % 256, value / 65536 % 256, value / 16777216 % 256;
    ByteExpansion(value);
    WeightedBytes(value, b0, b1, b2, b3);
    var folded: uint32 := b0 + 5 * b1 + 25 * b2 + 125 * b3;
    FoldOnce(folded);
    residue := folded % 256 + 5 * (folded / 256);
    residue := SubtractOnce(residue, 251);
    residue := SubtractOnce(residue, 251);
    residue := SubtractOnce(residue, 251);
    residue := SubtractOnce(residue, 251);
    SmallMod(residue, 251);
  }

  /** `reduce_u32`. */
  method ReduceU32(value: uint32, modulus: uint32, reciprocal: uint32) returns (residue: uint32)
    requires 2 <= modulus <= 256 && reciprocal == TWO_32 / modulus
    ensures residue == value % modulus
  {
    if modulus == 256 {
      residue := value % 256;
    } else if modulus == 255 {
      residue := ReduceU32Mod255(value);
    } else if modulus == 251 {
      residue := ReduceU32Mod251(value);
    } else {
      residue := ReduceU32SmallModulus(value, modulus, reciprocal);
    }
  }

  /** `center_unsigned_residue`: the subtraction wraps below zero and the cast reads it back as negative. */
  method CenterUnsignedResidue(residue: uint32, modulus: uint32) returns (c: int8)
    requires 2 <= modulus <= 256 && residue < modulus
    ensures c == Centered(residue, modulus)
  {
    var threshold := (modulus + 1) / 2;
    var wrapped: uint32 := (residue - Masked(residue >= threshold, modulus)) % TWO_32;
    SmallMod(residue, modulus);
    CenteredProperties(residue, modulus);
    if residue >= threshold {
      DivModUnique(residue - modulus, -1, residue - modulus + TWO_32, TWO_32);
    }
    c := AsInt32(wrapped);
  }

  lemma NegatedResidue(value: int, m: nat)
    requires m >= 1 && value < 0
    ensures value % m == if (-value) % m == 0 then 0 else m - (-value) % m
  {
    TruncRemFixup(value, m);
  }

  /** `reduce_to_centered_i32`, for every int32 including the minimum. */
  method ReduceToCenteredI32(value: int32, modulus: uint32, reciprocal: uint32) returns (c: int8)
    requires 2 <= modulus <= 256 && reciprocal == TWO_32 / modulus
    ensures c == Centered(value, modulus)
  {
    if modulus == 256 {
      c := AsInt8(value % 256);
    } else {
      var magnitude: uint32 := Abs(value);
      var residue := ReduceU32(magnitude, modulus, reciprocal);
      if value < 0 {
        NegatedResidue(value, modulus);
      }
      residue := if value < 0 && residue != 0 then modulus - residue else residue;
      c := CenterUnsignedResidue(residue, modulus);
      ModIdem(value, modulus);
    }
  }

  /** The value of the emitted reducer: residues up to `m/2` inclusive stay positive, then the int8 cast. */
  function EmittedCentered(a: int, m: nat): int8
    requires m >= 2
  {
    var r := a % m;
    AsInt8(if r > m / 2 then r - m else r)
  }

  /** The reducer text `gen` emits for modulus `m`. */
  method EmittedReducer(a: int32, m: nat) returns (result: int8)
    requires 2 <= m <= 256
    ensures result == EmittedCentered(a, m)
  {
    var h := m / 2;
    var r: int32 := TruncRem(a, m);
    TruncRemFixup(a, m);
    if r < 0 {
      r := r + m;
    }
    result := AsInt8(if r > h then r - m else r);
  }

  /** The emitted reducer returns a congruent byte of magnitude at most `m/2`, and is idempotent. */
  lemma EmittedProperties(a: int, m: nat)
    requires 2 <= m <= 256
    ensures EmittedCentered(a, m) % m == a % m && Abs(EmittedCentered(a, m)) <= m / 2
    ensures EmittedCentered(EmittedCentered(a, m), m) == EmittedCentered(a, m)
  {
    var r := a % m;
    ModIdem(a, m);
    ModShift(r, -1, m);
    SmallMod(r, m);
  }

  /** It commutes with multiply-accumulate: reducing the operands first changes nothing. */
  lemma EmittedMultiplyAdd(a: int, b: int, c: int, m: nat)
    requires 2 <= m <= 256
    ensures EmittedCentered(EmittedCentered(a, m) + EmittedCentered(b, m) * EmittedCentered(c, m), m)
         == EmittedCentered(a + b * c, m)
  {
    EmittedProperties(a, m);
    EmittedProperties(b, m);
    EmittedProperties(c, m);
    CongMul(EmittedCentered(b, m), b, EmittedCentered(c, m), c, m);
    CongAdd(EmittedCentered(a, m), a, EmittedCentered(b, m) * EmittedCentered(c, m), b * c, m);
  }

  /** The emitted text and the library's reducer are the same function exactly for the odd moduli and 256:
      at an even modulus the midpoint goes to opposite ends, except that for 256 the cast brings it back. */
  lemma EmittedAgreesIff(m: nat)
    requires 2 <= m <= 256
    ensures (forall a :: EmittedCentered(a, m) == Centered(a, m)) <==> m % 2 == 1 || m == 256
  {
    forall a: int
      ensures EmittedCentered(a, m) == Centered(a, m) <==> m % 2 == 1 || m == 256 || a % m != m / 2
    {
      CenteredProperties(a, m);
    }
    SmallMod(m / 2, m);
    assert EmittedCentered(m / 2, m) == Centered(m / 2, m) <==> m % 2 == 1 || m == 256;
  }
}
