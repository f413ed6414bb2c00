/** CRT reconstruction (`src/reconstruct/crt.cpp`): Garner's loop over a prefix of the ladder, the signed
    reading of its result, and the range-checked bounded exports. */
module Garner {
  import opened IntMath
  import opened Divisibility
  import opened Ladder
  import opened Centering

  /** A ladder the kernels can use: byte moduli, the first `n` of them pairwise coprime. */
  ghost predicate ByteLadder(ms: seq<nat>, n: nat)
  {
    && n <= |ms|
    && (forall i :: 0 <= i < |ms| ==> 2 <= ms[i] <= 256)
    && PairwiseCoprime(ms, n)
  }

  /** Stored bytes for the first `n` planes.  A byte below `-m` never comes out of the packer. */
  ghost predicate Residues(rs: seq<int>, ms: seq<nat>, n: nat)
  {
    && n <= |rs| && n <= |ms|
    && forall i :: 0 <= i < n ==> -0x80 <= rs[i] <= 0x7f && 0 <= rs[i] + ms[i]
  }

  /** `x` has the stored residues. */
  ghost predicate Matches(x: int, rs: seq<int>, ms: seq<nat>, n: nat)
    requires Moduli(ms) && n <= |ms| && n <= |rs|
  {
    forall i :: 0 <= i < n ==> x % ms[i] == rs[i] % ms[i]
  }

  /** One mixed-radix step hits the next residue, stays below the next product, and does not move `x`
      modulo the product so far. */
  lemma GarnerStep(x: int, p: nat, m: nat, inv: nat, target: int)
    requires 0 <= x < p && IsInverse(inv, p, m)
    ensures var c := ((target - x) % m * inv) % m;
      && 0 <= x + p * c < p * m
      && (x + p * c) % m == target % m
      && (x + p * c) % p == x % p
  {
    var d := (target - x) % m;
    var c := (d * inv) % m;
    ModIdem(d * inv, m);
    CongMul(p, p, c, d * inv, m);
    assert p * (d * inv) == (p * inv) * d by { Assoc(p, inv, d); Assoc(p, d, inv); }
    SmallMod(1, m);
    CongMul(p * inv, 1, d, d, m);
    ModIdem(target - x, m);
    CongAdd(x, x, p * c, target - x, m);
    ModShift(x, c, p);
    MulMono(0, c, p);
    MulMono(c, m - 1, p);
    assert p * (m - 1) == p * m - p;
  }

  lemma MatchesExtend(x: int, y: int, rs: seq<int>, ms: seq<nat>, n: nat)
    requires Moduli(ms) && n < |ms| && n < |rs|
    requires PrefixProduct(ms, n) > 0 && x % PrefixProduct(ms, n) == y % PrefixProduct(ms, n)
    requires Matches(x, rs, ms, n) && y % ms[n] == rs[n] % ms[n]
    ensures Matches(y, rs, ms, n + 1)
  {
    ProductDetermines(ms, n, x, y);
  }

  /** Existence half of the Chinese remainder theorem, by Garner's construction. */
  lemma {:induction false} CrtExists(ms: seq<nat>, rs: seq<int>, n: nat)
    requires Moduli(ms) && n <= |ms| && PairwiseCoprime(ms, n) && n <= |rs|
    ensures exists x :: 0 <= x < PrefixProduct(ms, n) && Matches(x, rs, ms, n)
  {
    if n == 0 {
      assert Matches(0, rs, ms, n);
    } else {
      CrtExists(ms, rs, n - 1);
      var y :| 0 <= y < PrefixProduct(ms, n - 1) && Matches(y, rs, ms, n - 1);
      var p, m := PrefixProduct(ms, n - 1), ms[n - 1];
      CoprimeToProduct(ms, n - 1, m);
      var inv := InverseExists(p, m);
      GarnerStep(y, p, m, inv, rs[n - 1]);
      MatchesExtend(y, y + p * (((rs[n - 1] - y) % m * inv) % m), rs, ms, n - 1);
    }
  }

  /** The integer a residue vector stands for: the one value of [0, P) that has those residues. */
  ghost function Decode(ms: seq<nat>, rs: seq<int>, n: nat): (x: int)
    requires Moduli(ms) && n <= |ms| && PairwiseCoprime(ms, n) && n <= |rs|
    ensures 0 <= x < PrefixProduct(ms, n) && Matches(x, rs, ms, n)
  {
    CrtExists(ms, rs, n);
    var x :| 0 <= x < PrefixProduct(ms, n) && Matches(x, rs, ms, n);
    x
  }

  lemma DecodeUnique(ms: seq<nat>, rs: seq<int>, n: nat, x: int)
    requires Moduli(ms) && n <= |ms| && PairwiseCoprime(ms, n) && n <= |rs|
    requires 0 <= x < PrefixProduct(ms, n) && Matches(x, rs, ms, n)
    ensures x == Decode(ms, rs, n)
  {
    var y := Decode(ms, rs, n);
    ResiduesDetermine(ms, n, x, y);
    CongClose(x, y, PrefixProduct(ms, n));
  }

  /** The CRT bijection: reducing then decoding, and decoding then reducing, are both the identity. */
  lemma CrtBijection(ms: seq<nat>, n: nat, x: int, rs: seq<int>)
    requires Moduli(ms) && n == |ms| == |rs| && PairwiseCoprime(ms, n)
    requires 0 <= x < PrefixProduct(ms, n)
    requires forall i :: 0 <= i < n ==> 0 <= rs[i] < ms[i]
    ensures Decode(ms, seq(n, i requires 0 <= i < n => x % ms[i]), n) == x
    ensures seq(n, i requires 0 <= i < n => Decode(ms, rs, n) % ms[i]) == rs
  {
    var xs := seq(n, i requires 0 <= i < n => x % ms[i]);
    forall i | 0 <= i < n
      ensures x % ms[i] == xs[i] % ms[i] && Decode(ms, rs, n) % ms[i] == rs[i]
    {
      ModIdem(x, ms[i]);
      SmallMod(rs[i], ms[i]);
    }
    DecodeUnique(ms, xs, n, x);
  }

  /** `reconstruct_canonical`. */
  method ReconstructCanonical(ms: seq<nat>, residues: seq<int8>, prefix: nat) returns (x: int)
    requires ByteLadder(ms, prefix) && Residues(residues, ms, prefix)
    ensures x == Decode(ms, residues, prefix)
  {
    x := 0;
    var product := 1;
    for i := 0 to prefix
      invariant product == PrefixProduct(ms, i) && 0 <= x < product
      invariant Matches(x, residues, ms, i)
    {
      var modulus := ms[i];
      var target := CanonicalFromCentered(residues[i], modulus);
      CanonicalFromCenteredCong(residues[i], modulus);
      var xMod := CanonicalResidue(x, modulus);
      var productMod := product % modulus;
      CoprimeToProduct(ms, i, modulus);
      CoprimeMod(product, modulus);
      var inverse := ModInverse(productMod, modulus);
      InverseOfResidue(inverse, product, modulus);
      var delta: int64 := target - xMod;
      var deltaMod := TruncRem(delta, modulus);
      TruncRemFixup(delta, modulus);
      if deltaMod < 0 {
        deltaMod := deltaMod + modulus;
      }
      ModIdem(x, modulus);
      CongAdd(target, target, xMod, x, modulus);
      var coefficient := (deltaMod * inverse) % modulus;
      GarnerStep(x, product, modulus, inverse, target);
      ghost var before := x;
      x := x + product * coefficient;
      MatchesExtend(before, x, residues, ms, i);
      product := product * modulus;
    }
    DecodeUnique(ms, residues, prefix, x);
  }

  /** `modulus_product`. */
  method ModulusProduct(ms: seq<nat>, prefix: nat) returns (product: nat)
    requires prefix <= |ms|
    ensures product == PrefixProduct(ms, prefix)
  {
    product := 1;
    for i := 0 to prefix
      invariant product == PrefixProduct(ms, i)
    {
      product := product * ms[i];
    }
  }

  /** `centered_from_canonical`. */
  function CenteredFromCanonical(value: int, product: nat): int
  {
    if value >= (product + 1) / 2 then value - product else value
  }

  ghost function DecodeSigned(ms: seq<nat>, rs: seq<int>, n: nat): int
    requires Moduli(ms) && n <= |ms| && PairwiseCoprime(ms, n) && n <= |rs|
  {
    CenteredFromCanonical(Decode(ms, rs, n), PrefixProduct(ms, n))
  }

  /** The signed reading is the one value of [-(P/2), (P-1)/2] with the stored residues. */
  lemma DecodeSignedUnique(ms: seq<nat>, rs: seq<int>, n: nat)
    requires Moduli(ms) && n <= |ms| && PairwiseCoprime(ms, n) && n <= |rs|
    ensures var v := DecodeSigned(ms, rs, n);
      InCenteredRange(v, PrefixProduct(ms, n)) && Matches(v, rs, ms, n)
    ensures forall w :: InCenteredRange(w, PrefixProduct(ms, n)) && Matches(w, rs, ms, n) ==>
      w == DecodeSigned(ms, rs, n)
  {
    var p, x, v := PrefixProduct(ms, n), Decode(ms, rs, n), DecodeSigned(ms, rs, n);
    ModShift(x, -1, p);
    ProductDetermines(ms, n, v, x);
    forall w | InCenteredRange(w, p) && Matches(w, rs, ms, n)
      ensures w == v
    {
      ResiduesDetermine(ms, n, w, v);
      CongClose(w, v, p);
    }
  }

  /** How an integer is read back: the canonical representative, or the centered one. */
  ghost function Reading(signed: bool, ms: seq<nat>, rs: seq<int>, n: nat): int
    requires Moduli(ms) && n <= |ms| && PairwiseCoprime(ms, n) && n <= |rs|
  {
    if signed then DecodeSigned(ms, rs, n) else Decode(ms, rs, n)
  }

  /** `exact_range_fits`: the strict range condition of both contracts. */
  predicate RangeFits(signed: bool, bound: int, product: nat)
  {
    bound >= 0 && (if signed then bound * 2 < product else bound < product)
  }

  predicate WithinBound(signed: bool, v: int, bound: int)
  {
    Abs(v) <= bound && (signed || v >= 0)
  }

  /** The strict condition is exactly what makes decoding unambiguous: a product covers a bound if and only if no
      two values within the bound agree modulo the product. */
  lemma RangeFitsIff(signed: bool, bound: int, product: nat)
    requires product >= 1
    ensures RangeFits(signed, bound, product) <==>
      bound >= 0 && forall v, w ::
        WithinBound(signed, v, bound) && WithinBound(signed, w, bound) && v % product == w % product ==> v == w
  {
    if RangeFits(signed, bound, product) {
      forall v, w | WithinBound(signed, v, bound) && WithinBound(signed, w, bound) && v % product == w % product
        ensures v == w
      {
        CongClose(v, w, product);
      }
    } else if bound >= 0 {
      var low := if signed then bound - product else 0;
      var high := if signed then bound else product;
      ModShift(low, 1, product);
      if signed {
        if product <= 2 * bound {
          assert WithinBound(signed, low, bound) && WithinBound(signed, high, bound);
        }
      } else {
        assert WithinBound(signed, low, bound) && WithinBound(signed, high, bound);
      }
    }
  }

  /** Round trip: any value within a bound the prefix covers is read back from its own residues. */
  lemma ReadBack(signed: bool, ms: seq<nat>, rs: seq<int>, n: nat, v: int, bound: int)
    requires Moduli(ms) && n <= |ms| && PairwiseCoprime(ms, n) && n <= |rs|
    requires RangeFits(signed, bound, PrefixProduct(ms, n)) && WithinBound(signed, v, bound)
    requires Matches(v, rs, ms, n)
    ensures Reading(signed, ms, rs, n) == v
  {
    if signed {
      DecodeSignedUnique(ms, rs, n);
    } else {
      DecodeUnique(ms, rs, n, v);
    }
  }

  datatype Status = Success | InvalidArgument | RangeError | WorkspaceTooSmall

  const MAX_SUPPORTED_PREFIX := 20

  /** The 64-bit type of a bounded output. */
  ghost predicate IsWord(signed: bool, v: int)
  {
    if signed then exists w: int64 :: Equals(w, v) else exists w: uint64 :: Equals(w, v)
  }

  ghost predicate Equals(w: int, v: int) { w == v }

  predicate FitsWord(signed: bool, v: int)
  {
    if signed then -TWO_63 <= v < TWO_63 else 0 <= v < TWO_64
  }

  /** `fits_int64` and `fits_uint64` test membership in the output type. */
  lemma FitsWordIff(signed: bool, v: int)
    ensures FitsWord(signed, v) <==> IsWord(signed, v)
  {
    if FitsWord(signed, v) {
      if signed {
        var w: int64 := v;
        assert Equals(w, v);
      } else {
        var w: uint64 := v;
        assert Equals(w, v);
      }
    }
  }

  /** `validate_bound_contract` for a global bound: the bound must fit the contract and the range cover it. */
  function ValidateBoundContract(signed: bool, bound: uint64, product: nat): Status
  {
    if signed && bound > TWO_63 then InvalidArgument
    else if RangeFits(signed, bound, product) then Success else RangeError
  }

  /** `reconstruct_signed` and `reconstruct_unsigned`.  Success means exactly that some integer within the
      declared bound, and within the 64-bit output type, has the stored residues; then it is returned. */
  method ReconstructBounded(signed: bool, ms: seq<nat>, residues: seq<int8>, prefix: nat, bound: uint64)
      returns (status: Status, out: int)
    requires prefix <= |residues| && prefix <= MAX_SUPPORTED_PREFIX ==>
      ByteLadder(ms, prefix) && Residues(residues, ms, prefix)
    ensures status == InvalidArgument <==>
      prefix == 0 || prefix > 20 || |residues| < prefix || (signed && bound > TWO_63)
    ensures status == Success ==>
      && RangeFits(signed, bound, PrefixProduct(ms, prefix))
      && WithinBound(signed, out, bound) && FitsWord(signed, out) && IsWord(signed, out)
      && Matches(out, residues, ms, prefix)
    ensures status == RangeError ==>
      || !RangeFits(signed, bound, PrefixProduct(ms, prefix))
      || (forall v :: WithinBound(signed, v, bound) && Matches(v, residues, ms, prefix) ==> !FitsWord(signed, v))
    ensures status != WorkspaceTooSmall
  {
    out := 0;
    if prefix == 0 || prefix > MAX_SUPPORTED_PREFIX || |residues| < prefix {
      return InvalidArgument, 0;
    }
    var product := ModulusProduct(ms, prefix);
    status := ValidateBoundContract(signed, bound, product);
    if status != Success {
      return status, 0;
    }
    var canonical := ReconstructCanonical(ms, residues, prefix);
    var value := if signed then CenteredFromCanonical(canonical, product) else canonical;
    assert value == Reading(signed, ms, residues, prefix);
    if signed {
      DecodeSignedUnique(ms, residues, prefix);
    }
    if !FitsWord(signed, value) || Abs(value) > bound {
      forall v | WithinBound(signed, v, bound) && Matches(v, residues, ms, prefix)
        ensures !FitsWord(signed, v)
      {
        ReadBack(signed, ms, residues, prefix, v, bound);
      }
      return RangeError, 0;
    }
    FitsWordIff(signed, value);
    return Success, value;
  }

  /** A false bound is not always caught: an out-of-range value `bound < v` with `v - P` or `v` modulo `P`
      back inside the bound has the residues of that other value, and it is the other one that is read. */
  lemma FalseBoundAliases(signed: bool, ms: seq<nat>, rs: seq<int>, n: nat, v: int, w: int, bound: int)
    requires Moduli(ms) && n <= |ms| && PairwiseCoprime(ms, n) && n <= |rs|
    requires RangeFits(signed, bound, PrefixProduct(ms, n)) && Matches(v, rs, ms, n)
    requires WithinBound(signed, w, bound)
    ensures Reading(signed, ms, rs, n) == w <==> Divides(PrefixProduct(ms, n), v - w)
  {
    var p := PrefixProduct(ms, n);
    CongSubZero(v, w, p);
    if Divides(p, v - w) {
      ProductDetermines(ms, n, v, w);
      ReadBack(signed, ms, rs, n, w, bound);
    }
    if Reading(signed, ms, rs, n) == w {
      DecodeSignedUnique(ms, rs, n);
      ResiduesDetermine(ms, n, v, w);
    }
  }
}
