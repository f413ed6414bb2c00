/** Centered residues: the signed bytes the library stores. */
module Centering {
  import opened IntMath

  /** The representative of `v` modulo `m` in [-(m/2), (m-1)/2]. */
  function Centered(v: int, m: nat): int
    requires m >= 1
  {
    var r := v % m;
    if r >= (m + 1) / 2 then r - m else r
  }

  predicate InCenteredRange(c: int, m: nat) { -(m / 2) <= c <= (m - 1) / 2 }

  lemma CenteredProperties(v: int, m: nat)
    requires m >= 1
    ensures InCenteredRange(Centered(v, m), m) && Centered(v, m) % m == v % m
    ensures 2 <= m <= 256 ==> -128 <= Centered(v, m) <= 127
  {
    ModIdem(v, m);
    ModShift(v % m, -1, m);
  }

  /** The centered residue is the only value of the range congruent to `v`. */
  lemma CenteredUnique(c: int, v: int, m: nat)
    requires m >= 1 && InCenteredRange(c, m) && c % m == v % m
    ensures c == Centered(v, m)
  {
    CenteredProperties(v, m);
    CongClose(c, Centered(v, m), m);
  }

  lemma TruncRemFixup(v: int, m: nat)
    requires m >= 1
    ensures var r := TruncRem(v, m); v % m == if r < 0 then r + m else r
  {
    if v < 0 {
      var q, r := (-v) / m, (-v) % m;
      assert v == -r - q * m;
      ModShift(-r, q, m);
      ModShift(-r, 1, m);
      SmallMod(if r == 0 then 0 else m - r, m);
    }
  }

  /** `canonical_residue`: the C++ remainder is truncated, so a negative one is moved up by the modulus. */
  method CanonicalResidue(value: int, modulus: nat) returns (residue: int)
    requires 2 <= modulus <= 256
    ensures residue == value % modulus
  {
    residue := TruncRem(value, modulus);
    TruncRemFixup(value, modulus);
    if residue < 0 {
      residue := residue + modulus;
    }
  }

  /** `centered_residue`, the packing direction. */
  method CenteredResidue(value: int, modulus: nat) returns (c: int8)
    requires 2 <= modulus <= 256
    ensures c == Centered(value, modulus)
  {
    var canonical := CanonicalResidue(value, modulus);
    var threshold := (modulus + 1) / 2;
    CenteredProperties(value, modulus);
    c := if canonical >= threshold then canonical - modulus else canonical;
  }

  /** `reduce_to_centered`, used between accumulation blocks. */
  method ReduceToCentered(value: int64, modulus: nat) returns (c: int8)
    requires 2 <= modulus <= 256
    ensures c == Centered(value, modulus)
  {
    var residue: int64 := TruncRem(value, modulus);
    TruncRemFixup(value, modulus);
    if residue < 0 {
      residue := residue + modulus;
    }
    var threshold := (modulus + 1) / 2;
    if residue >= threshold {
      residue := residue - modulus;
    }
    CenteredProperties(value, modulus);
    c := residue;
  }

  /** `canonical_from_centered`: the result is cast to uint32. */
  function CanonicalFromCentered(residue: int8, modulus: nat): uint32
    requires 2 <= modulus <= 256
  {
    if residue < 0 then (residue + modulus) % TWO_32 else residue
  }

  /** The cast loses nothing, and the residue class survives, when the byte is at least `-modulus`. */
  lemma CanonicalFromCenteredCong(residue: int8, modulus: nat)
    requires 2 <= modulus <= 256 && 0 <= residue + modulus
    ensures CanonicalFromCentered(residue, modulus) % modulus == residue % modulus
  {
    if residue < 0 {
      SmallMod(residue + modulus, TWO_32);
      ModShift(residue, 1, modulus);
    }
  }

  /** Decoding a stored byte gives back the canonical residue of the value that was packed. */
  lemma CanonicalOfCentered(v: int, modulus: nat)
    requires 2 <= modulus <= 256
    ensures -128 <= Centered(v, modulus) <= 127
    ensures CanonicalFromCentered(Centered(v, modulus), modulus) == v % modulus
  {
    CenteredProperties(v, modulus);
    var c := Centered(v, modulus);
    if c < 0 {
      SmallMod(c + modulus, TWO_32);
    }
  }
}
