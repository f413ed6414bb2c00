/** Exact-wide export: the fixed-width little-endian limb codec (`src/reconstruct/crt.cpp` encodes,
    `benchmarks/rns8_bench.cpp` decodes), when its range check may be left out, and where each cell's
    limbs lie in the output buffer. */
module Limbs {
  import opened Wrappers
  import opened Contracts
  import opened IntMath
  import opened Ladder
  import opened Garner

  const MAX_LIMBS := 32

  /** The unsigned value of the first `n` limbs. */
  function LimbSum(limbs: seq<int>, n: nat): int
    requires n <= |limbs|
  {
    if n == 0 then 0 else LimbSum(limbs, n - 1) + limbs[n - 1] * Pow2(64 * (n - 1))
  }

  /** The value a limb vector stands for: two's complement when `signed`. */
  function LimbValue(limbs: seq<int>, signed: bool): int
  {
    var n := |limbs|;
    if signed && n != 0 && limbs[n - 1] >= TWO_63 then LimbSum(limbs, n) - Pow2(64 * n) else LimbSum(limbs, n)
  }

  /** The integers `n` limbs can hold. */
  predicate Representable(value: int, signed: bool, n: nat)
    requires n >= 1
  {
    if signed then 0 - Pow2(64 * n - 1) <= value < Pow2(64 * n - 1) else 0 <= value < Pow2(64 * n)
  }

  /** The low `n` limbs of a nonnegative integer. */
  function EncodeLimbs(value: nat, n: nat): (limbs: seq<int>)
    ensures |limbs| == n
  {
    if n == 0 then [] else EncodeLimbs(value, n - 1) + [value / Pow2(64 * (n - 1)) % TWO_64]
  }

  lemma Pow2Limb(n: nat)
    requires n >= 1
    ensures Pow2(64 * n) == Pow2(64 * (n - 1)) * TWO_64 && Pow2(64 * n - 1) == Pow2(64 * (n - 1)) * TWO_63
    ensures Pow2(64 * n) == 2 * Pow2(64 * n - 1)
  {
    Pow2Consts();
    var low := 64 * (n - 1);
    Pow2Sum(low, 64, 64 * n, Pow2(low), TWO_64);
    Pow2Sum(low, 63, 64 * n - 1, Pow2(low), TWO_63);
  }

  /** One more limb above a value below `p`. */
  lemma TopLimb(low: int, top: int, p: int)
    requires 0 <= low < p && 0 <= top < TWO_64
    ensures 0 <= low + top * p < p * TWO_64
    ensures low + top * p >= p * TWO_63 <==> top >= TWO_63
  {
    MulMono(top, TWO_64 - 1, p);
    MulMono(0, top, p);
    if top >= TWO_63 {
      MulMono(TWO_63, top, p);
    } else {
      MulMono(top, TWO_63 - 1, p);
    }
  }

  lemma {:induction false} LimbSumBound(limbs: seq<int>, n: nat)
    requires Words(limbs) && n <= |limbs|
    ensures 0 <= LimbSum(limbs, n) < Pow2(64 * n)
  {
    if n > 0 {
      LimbSumBound(limbs, n - 1);
      Pow2Limb(n);
      TopLimb(LimbSum(limbs, n - 1), limbs[n - 1], Pow2(64 * (n - 1)));
    }
  }

  /** The top-bit test of the decoder is exactly the sign. */
  lemma TopBitIsHalf(limbs: seq<int>)
    requires Words(limbs) && |limbs| >= 1
    ensures limbs[|limbs| - 1] >= TWO_63 <==> LimbSum(limbs, |limbs|) >= Pow2(64 * |limbs| - 1)
  {
    var n := |limbs|;
    Pow2Limb(n);
    LimbSumBound(limbs, n - 1);
    TopLimb(LimbSum(limbs, n - 1), limbs[n - 1], Pow2(64 * (n - 1)));
  }

  /** Decoding lands in the representable range, and the sign is the top bit. */
  lemma DecodeRange(limbs: seq<int>, signed: bool)
    requires Words(limbs) && |limbs| >= 1
    ensures Representable(LimbValue(limbs, signed), signed, |limbs|)
    ensures signed ==> (LimbValue(limbs, signed) < 0 <==> limbs[|limbs| - 1] >= TWO_63)
  {
    LimbSumBound(limbs, |limbs|);
    TopBitIsHalf(limbs);
    Pow2Limb(|limbs|);
  }

  lemma {:induction false} LimbSumInjective(a: seq<int>, b: seq<int>, n: nat)
    requires Words(a) && Words(b) && n <= |a| && n <= |b| && LimbSum(a, n) == LimbSum(b, n)
    ensures a[..n] == b[..n]
  {
    if n > 0 {
      LimbSumBound(a, n - 1);
      LimbSumBound(b, n - 1);
      var p := Pow2(64 * (n - 1));
      DivModUnique(LimbSum(a, n), a[n - 1], LimbSum(a, n - 1), p);
      DivModUnique(LimbSum(b, n), b[n - 1], LimbSum(b, n - 1), p);
      LimbSumInjective(a, b, n - 1);
      assert a[..n] == a[..n - 1] + [a[n - 1]] && b[..n] == b[..n - 1] + [b[n - 1]];
    }
  }

  /** Decoding is injective: equal values mean equal limbs. */
  lemma DecodeInjective(a: seq<int>, b: seq<int>, signed: bool)
    requires Words(a) && Words(b) && |a| == |b| >= 1 && LimbValue(a, signed) == LimbValue(b, signed)
    ensures a == b
  {
    DecodeRange(a, signed);
    DecodeRange(b, signed);
    LimbSumInjective(a, b, |a|);
    assert a[..|a|] == a && b[..|b|] == b;
  }

  lemma {:induction false} LimbSumPrefix(a: seq<int>, b: seq<int>, n: nat)
    requires n <= |a|
    ensures LimbSum(a + b, n) == LimbSum(a, n)
  {
    if n > 0 {
      LimbSumPrefix(a, b, n - 1);
    }
  }

  lemma {:induction false} EncodeSum(value: nat, n: nat)
    ensures Words(EncodeLimbs(value, n)) && LimbSum(EncodeLimbs(value, n), n) == value % Pow2(64 * n)
  {
    if n == 0 {
      DivModUnique(value, value, 0, 1);
    } else {
      EncodeSum(value, n - 1);
      LimbSumPrefix(EncodeLimbs(value, n - 1), [value / Pow2(64 * (n - 1)) % TWO_64], n - 1);
      Pow2Limb(n);
      SplitDivision(value, Pow2(64 * (n - 1)), TWO_64);
    }
  }

  /** Dividing by `p*w` in two steps. */
  lemma SplitDivision(x: nat, p: nat, w: nat)
    requires p > 0 && w > 0
    ensures p * w > 0 && x / p / w == x / (p * w) && x % (p * w) == x % p + (x / p % w) * p
  {
    var q := x / p;
    var d, r, low := q / w, q % w, x % p;
    assert q == d * w + r;
    assert q * p == d * (p * w) + r * p by {
      assert (d * w) * p == d * (p * w);
      assert (d * w + r) * p == (d * w) * p + r * p;
    }
    MulMono(r, w - 1, p);
    MulNonNeg(r, p);
    assert (w - 1) * p == p * w - p;
    DivModUnique(x, d, r * p + low, p * w);
  }

  /** The unsigned pattern that `n` limbs store for a value. */
  function Pattern(value: int, n: nat): int { if value < 0 then value + Pow2(64 * n) else value }

  /** Encoding then decoding is the identity on representable values; decoding then encoding, on limbs. */
  lemma LimbRoundTrip(value: int, signed: bool, n: nat)
    requires n >= 1 && Representable(value, signed, n)
    ensures Pattern(value, n) >= 0
    ensures LimbValue(EncodeLimbs(Pattern(value, n), n), signed) == value
  {
    Pow2Limb(n);
    var u := Pattern(value, n);
    EncodeSum(u, n);
    SmallMod(u, Pow2(64 * n));
    TopBitIsHalf(EncodeLimbs(u, n));
  }

  lemma LimbRoundTripBack(limbs: seq<int>, signed: bool)
    requires Words(limbs) && |limbs| >= 1
    ensures Pattern(LimbValue(limbs, signed), |limbs|) >= 0
    ensures EncodeLimbs(Pattern(LimbValue(limbs, signed), |limbs|), |limbs|) == limbs
  {
    var v, n := LimbValue(limbs, signed), |limbs|;
    DecodeRange(limbs, signed);
    LimbRoundTrip(v, signed, n);
    EncodeSum(Pattern(v, n), n);
    DecodeInjective(EncodeLimbs(Pattern(v, n), n), limbs, signed);
  }

  /** Appending a sign-extension limb leaves the value unchanged. */
  lemma SignExtension(limbs: seq<int>, signed: bool)
    requires Words(limbs) && |limbs| >= 1
    ensures LimbValue(limbs + [if signed && limbs[|limbs| - 1] >= TWO_63 then TWO_64 - 1 else 0], signed)
      == LimbValue(limbs, signed)
  {
    var n := |limbs|;
    var extension := if signed && limbs[n - 1] >= TWO_63 then TWO_64 - 1 else 0;
    LimbSumPrefix(limbs, [extension], n);
    Pow2Limb(n + 1);
    assert Pow2(64 * n) * TWO_64 - Pow2(64 * n) == (TWO_64 - 1) * Pow2(64 * n);
  }

  /** `exact_wide_value_from_limbs`. */
  method ExactWideValueFromLimbs(limbs: seq<uint64>, signedValues: bool) returns (value: int)
    ensures value == LimbValue(limbs, signedValues)
  {
    value := 0;
    for limb := 0 to |limbs|
      invariant value == LimbSum(limbs, limb)
    {
      value := value + limbs[limb] * Pow2(64 * limb);
    }
    if signedValues && |limbs| != 0 && limbs[|limbs| - 1] >= TWO_63 {
      value := value - Pow2(64 * |limbs|);
    }
  }

  /** The limb loop of both exports: mask the low word, shift right by 64. */
  method WriteLimbs(pattern: nat, limbCount: nat) returns (out: seq<uint64>)
    ensures out == EncodeLimbs(pattern, limbCount)
  {
    out := [];
    var value := pattern;
    for limb := 0 to limbCount
      invariant |out| == limb && out == EncodeLimbs(pattern, limb) && value == pattern / Pow2(64 * limb)
    {
      Pow2Limb(limb + 1);
      var p := Pow2(64 * limb);
      SplitDivision(pattern, p, TWO_64);
      out := out + [value % TWO_64];
      value := value / TWO_64;
    }
  }

  /** The range check and the two's-complement shift in front of the limb loop. */
  method EncodeValue(value: int, signed: bool, limbCount: nat) returns (status: Status, out: seq<uint64>)
    requires limbCount >= 1
    ensures status == if Representable(value, signed, limbCount) then Success else RangeError
    ensures status == Success ==> |out| == limbCount && LimbValue(out, signed) == value
  {
    if signed {
      if value < 0 - Pow2(64 * limbCount - 1) || value > Pow2(64 * limbCount - 1) - 1 {
        return RangeError, [];
      }
    } else {
      if value < 0 || value >= Pow2(64 * limbCount) {
        return RangeError, [];
      }
    }
    LimbRoundTrip(value, signed, limbCount);
    var pattern := if value < 0 then value + Pow2(64 * limbCount) else value;
    out := WriteLimbs(pattern, limbCount);
    status := Success;
  }

  /** `export_exact_wide_signed_limbs` and `export_exact_wide_unsigned_limbs` for one cell: a value that
      does not fit is refused, never truncated, and a value that fits is what the limbs decode to. */
  method ExportExactWideLimbs(signed: bool, ms: seq<nat>, residues: seq<int8>, prefix: nat, limbCount: nat)
      returns (status: Status, out: seq<uint64>)
    requires prefix <= |residues| && prefix <= MAX_SUPPORTED_PREFIX ==>
      ByteLadder(ms, prefix) && Residues(residues, ms, prefix)
    ensures var badCall :=
        |residues| < prefix || prefix == 0 || prefix > 20 || limbCount == 0 || limbCount > 32;
      && (status == InvalidArgument <==> badCall)
      && (!badCall ==>
        (status == Success <==> Representable(Reading(signed, ms, residues, prefix), signed, limbCount)))
    ensures status == Success ==>
      |out| == limbCount && LimbValue(out, signed) == Reading(signed, ms, residues, prefix)
    ensures status != WorkspaceTooSmall
  {
    if |residues| < prefix || prefix == 0 || prefix > MAX_SUPPORTED_PREFIX || limbCount == 0 || limbCount > MAX_LIMBS {
      return InvalidArgument, [];
    }
    var value := ReconstructCanonical(ms, residues, prefix);
    if signed {
      var product := ModulusProduct(ms, prefix);
      value := CenteredFromCanonical(value, product);
    }
    status, out := EncodeValue(value, signed, limbCount);
  }

  /** `exact_wide_export_status_check_required`. */
  predicate ExportStatusCheckRequired(semantics: Semantics, limbCount: nat)
  {
    match semantics
    case ExactWideUnsigned => limbCount < 3
    case ExactWideSigned => limbCount < 3
    case _ => true
  }

  lemma {:induction false} ByteProductBound(ms: seq<nat>, n: nat)
    requires n <= |ms| && forall i :: 0 <= i < |ms| ==> 2 <= ms[i] <= 256
    ensures PrefixProduct(ms, n) <= Pow2(8 * n)
  {
    if n > 0 {
      ByteProductBound(ms, n - 1);
      Pow2Consts();
      Pow2Add(8 * (n - 1), 8);
      MulMono(PrefixProduct(ms, n - 1), Pow2(8 * (n - 1)), ms[n - 1]);
      MulMono(ms[n - 1], 256, Pow2(8 * (n - 1)));
    }
  }

  /** Leaving the status check out is sound: whenever it is not required, no residue vector of a supported
      prefix decodes to a value the limbs cannot hold. */
  lemma StatusCheckElisionSound(semantics: Semantics, ms: seq<nat>, rs: seq<int>, prefix: nat, limbCount: nat)
    requires !ExportStatusCheckRequired(semantics, limbCount)
    requires ByteLadder(ms, prefix) && prefix <= MAX_SUPPORTED_PREFIX && prefix <= |rs|
    ensures var signed := semantics == ExactWideSigned;
      limbCount >= 1 && Representable(Reading(signed, ms, rs, prefix), signed, limbCount)
  {
    ByteProductBound(ms, prefix);
    Pow2Mono(8 * prefix, 64 * limbCount - 1);
    Pow2Limb(limbCount);
    DecodeSignedUnique(ms, rs, prefix);
  }

  // Buffer layout.

  /** `checked_elements`: the unsigned casts of two int64 sizes, or an error when the product overflows. */
  function CheckedElements(rows: int64, cols: int64): (r: Option<uint64>)
    ensures r == if (rows % TWO_64) * (cols % TWO_64) < TWO_64 then Some((rows % TWO_64) * (cols % TWO_64)) else None
  {
    var uRows, uCols := rows % TWO_64, cols % TWO_64;
    GuardIsOverflow(uRows, uCols);
    if uCols != 0 && uRows > (TWO_64 - 1) / uCols then None else Some(uRows * uCols)
  }

  /** `checked_limb_elements`. */
  function CheckedLimbElements(rows: int64, cols: int64, limbCount: uint32): (r: Option<uint64>)
    ensures r.Some? ==> limbCount > 0 && r.value == (rows % TWO_64) * (cols % TWO_64) * limbCount
    ensures r.None? ==> limbCount == 0 || (rows % TWO_64) * (cols % TWO_64) * limbCount >= TWO_64
  {
    match CheckedElements(rows, cols)
    case None =>
      if limbCount > 0 then MulMono(1, limbCount, (rows % TWO_64) * (cols % TWO_64)); None else None
    case Some(elements) =>
      GuardIsOverflow(elements, limbCount);
      if limbCount == 0 || elements > (TWO_64 - 1) / limbCount then None else Some(elements * limbCount)
  }

  /** `checked_bytes` and `checked_add_bytes`. */
  function CheckedBytes(elements: uint64, elementSize: uint64): (r: Option<uint64>)
    ensures r == if elements * elementSize < TWO_64 then Some(elements * elementSize) else None
  {
    GuardIsOverflow(elements, elementSize);
    if elementSize != 0 && elements > (TWO_64 - 1) / elementSize then None else Some(elements * elementSize)
  }

  function CheckedAddBytes(lhs: uint64, rhs: uint64): (r: Option<uint64>)
    ensures r == if lhs + rhs < TWO_64 then Some(lhs + rhs) else None
  {
    if lhs > TWO_64 - 1 - rhs then None else Some(lhs + rhs)
  }

  lemma GuardIsOverflow(a: nat, b: nat)
    ensures b != 0 && a > (TWO_64 - 1) / b <==> a * b >= TWO_64
    ensures 0 <= a * b
  {
    if b != 0 {
      var q := (TWO_64 - 1) / b;
      assert TWO_64 - 1 == q * b + (TWO_64 - 1) % b;
      if a > q {
        MulMono(q + 1, a, b);
        assert (q + 1) * b == q * b + b;
      } else {
        MulMono(a, q, b);
      }
    }
  }

  /** `exact_wide_limb_index`; the int64 cell index is cast to size_t before the multiplication. */
  function LimbIndex(row: int, col: int, ld: int, limbCount: uint32): uint64
  {
    ((row * ld + col) % TWO_64 * limbCount) % TWO_64
  }

  lemma CellIndexBounds(row: nat, col: nat, m: nat, n: nat, ld: nat)
    requires row < m && col < n <= ld
    ensures 0 <= row * ld + col < m * ld
  {
    MulMono(row + 1, m, ld);
    assert (row + 1) * ld == row * ld + ld;
  }

  lemma LimbIndexExact(row: nat, col: nat, m: nat, n: nat, ld: nat, limbCount: uint32)
    requires row < m && col < n <= ld && 0 < limbCount && m * ld < TWO_63 && m * ld * limbCount < TWO_64
    ensures LimbIndex(row, col, ld, limbCount) == (row * ld + col) * limbCount
    ensures LimbIndex(row, col, ld, limbCount) + limbCount <= m * ld * limbCount
  {
    CellIndexBounds(row, col, m, n, ld);
    var cell := row * ld + col;
    SmallMod(cell, TWO_64);
    MulMono(cell + 1, m * ld, limbCount);
    assert (cell + 1) * limbCount == cell * limbCount + limbCount;
    MulNonNeg(cell, limbCount);
    SmallMod(cell * limbCount, TWO_64);
  }

  /** Once the sizes have been accepted, the limb windows of two different cells of a padded output do not
      overlap and lie inside the buffer. */
  lemma LimbWindows(m: int64, n: int64, ld: int64, limbCount: uint32, row: nat, col: nat, row': nat, col': nat)
    requires row < m && col < n <= ld && row' < m && col' < n && (row != row' || col != col')
    requires m * ld < TWO_63 && CheckedLimbElements(m, ld, limbCount).Some?
    ensures var total := CheckedLimbElements(m, ld, limbCount).value;
      var i, j := LimbIndex(row, col, ld, limbCount), LimbIndex(row', col', ld, limbCount);
      i + limbCount <= total && j + limbCount <= total && (i + limbCount <= j || j + limbCount <= i)
  {
    SmallMod(m, TWO_64);
    SmallMod(ld, TWO_64);
    LimbIndexExact(row, col, m, n, ld, limbCount);
    LimbIndexExact(row', col', m, n, ld, limbCount);
    var c, c' := row * ld + col, row' * ld + col';
    DivModUnique(c, row, col, ld);
    DivModUnique(c', row', col', ld);
    WindowsApart(c, c', limbCount);
  }

  lemma WindowsApart(c: int, c': int, limbCount: nat)
    requires c != c'
    ensures c * limbCount + limbCount <= c' * limbCount || c' * limbCount + limbCount <= c * limbCount
  {
    if c < c' {
      MulMono(c + 1, c', limbCount);
      assert (c + 1) * limbCount == c * limbCount + limbCount;
    } else {
      MulMono(c' + 1, c, limbCount);
      assert (c' + 1) * limbCount == c' * limbCount + limbCount;
    }
  }
}
