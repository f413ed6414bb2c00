/** Strict modulo-2^64 products over byte limbs (`src/backend_wrap64/wrap64_reference.cpp`): the signed-lane
    correction, the 36 low byte-pair planes, and the carry pass that assembles the low word. */
module Wrap64 {
  import opened IntMath
  import opened Vectors

  const BYTE_LIMBS := 8

  /** The largest K of the tile candidate (`kWrap64RocwmmaCandidateMaxK`). */
  const CANDIDATE_MAX_K := 32768

  function Byte(value: nat, limb: nat): (b: nat)
    ensures b < 256
  {
    value / Pow2(8 * limb) % 256
  }

  /** The value of the low `n` bytes. */
  function Low(value: nat, n: nat): nat
  {
    if n == 0 then 0 else Low(value, n - 1) + Byte(value, n - 1) * Pow2(8 * (n - 1))
  }

  lemma Pow2Byte(n: nat)
    ensures Pow2(8 * (n + 1)) == Pow2(8 * n) * 256
  {
    Pow2Consts();
    Pow2Add(8 * n, 8);
  }

  /** The low bytes are the remainder. */
  lemma {:induction false} LowIsRemainder(value: nat, n: nat)
    ensures Low(value, n) == value % Pow2(8 * n)
  {
    if n == 0 {
      DivModUnique(value, value, 0, 1);
    } else {
      LowIsRemainder(value, n - 1);
      Pow2Byte(n - 1);
      SplitByte(value, Pow2(8 * (n - 1)));
    }
  }

  lemma SplitByte(x: nat, p: nat)
    requires p > 0
    ensures x % (p * 256) == x % p + (x / p % 256) * p
  {
    var q := x / p;
    var d, r := q / 256, q % 256;
    assert x == q * p + x % p;
    assert q * p == d * (p * 256) + r * p by {
      assert q == d * 256 + r;
      assert (d * 256 + r) * p == (d * 256) * p + r * p;
      assert (d * 256) * p == d * (p * 256);
    }
    MulMono(r, 255, p);
    DivModUnique(x, d, r * p + x % p, p * 256);
  }

  /** Columns weighted by their byte position: the value of a byte vector, or of a vector of columns. */
  function Weighted(columns: seq<int>, n: nat): int
    requires n <= |columns|
  {
    if n == 0 then 0 else Weighted(columns, n - 1) + columns[n - 1] * Pow2(8 * (n - 1))
  }

  predicate ByteLimbs(limbs: seq<int>) { |limbs| == BYTE_LIMBS && forall i :: 0 <= i < BYTE_LIMBS ==> 0 <= limbs[i] < 256 }

  lemma {:induction false} WeightedBytesBound(limbs: seq<int>, n: nat)
    requires n <= |limbs| && forall i :: 0 <= i < |limbs| ==> 0 <= limbs[i] < 256
    ensures 0 <= Weighted(limbs, n) < Pow2(8 * n)
  {
    if n > 0 {
      WeightedBytesBound(limbs, n - 1);
      Pow2Byte(n - 1);
      MulMono(limbs[n - 1], 255, Pow2(8 * (n - 1)));
      MulMono(0, limbs[n - 1], Pow2(8 * (n - 1)));
    }
  }

  /** A word has only one vector of bytes. */
  lemma {:induction false} ByteLimbsUnique(x: seq<int>, y: seq<int>, n: nat)
    requires ByteLimbs(x) && ByteLimbs(y) && n <= BYTE_LIMBS && Weighted(x, n) == Weighted(y, n)
    ensures x[..n] == y[..n]
  {
    if n > 0 {
      WeightedBytesBound(x, n - 1);
      WeightedBytesBound(y, n - 1);
      var p := Pow2(8 * (n - 1));
      DivModUnique(Weighted(x, n), x[n - 1], Weighted(x, n - 1), p);
      DivModUnique(Weighted(y, n), y[n - 1], Weighted(y, n - 1), p);
      ByteLimbsUnique(x, y, n - 1);
      assert x[..n] == x[..n - 1] + [x[n - 1]] && y[..n] == y[..n - 1] + [y[n - 1]];
    }
  }

  lemma {:induction false} WeightedPrefix(x: seq<int>, last: int, n: nat)
    requires n <= |x|
    ensures Weighted(x + [last], n) == Weighted(x, n)
  {
    if n > 0 {
      WeightedPrefix(x, last, n - 1);
    }
  }

  /** `set_wrap_u64_matrix_cell`: bytes, least significant first, that stand for the word. */
  method StoreByteLimbs(value: uint64) returns (limbs: seq<int>)
    ensures ByteLimbs(limbs) && Weighted(limbs, BYTE_LIMBS) == value
  {
    limbs := [];
    for limb := 0 to BYTE_LIMBS
      invariant |limbs| == limb && Weighted(limbs, limb) == Low(value, limb)
      invariant forall i :: 0 <= i < limb ==> 0 <= limbs[i] < 256
    {
      WeightedPrefix(limbs, Byte(value, limb), limb);
      limbs := limbs + [value / Pow2(8 * limb) % 256];
    }
    LowIsRemainder(value, 8);
    Pow2Consts();
    SmallMod(value, TWO_64);
  }

  /** `load_wrap_compact_u64_limbs`: the word any eight bytes stand for; the shifted bytes occupy disjoint
      bits, so `|` adds. */
  method LoadByteLimbs(limbs: seq<int>) returns (value: uint64)
    requires ByteLimbs(limbs)
    ensures value == Weighted(limbs, BYTE_LIMBS)
  {
    var word := 0;
    for limb := 0 to BYTE_LIMBS
      invariant word == Weighted(limbs, limb)
    {
      word := word + limbs[limb] * Pow2(8 * limb);
    }
    WeightedBytesBound(limbs, BYTE_LIMBS);
    Pow2Consts();
    value := word;
  }

  /** `wrap64_signed_i8_lane_value`. */
  function SignedLane(value: nat): int { if value < 128 then value else value - 256 }

  /** `wrap64_signed_i8_product_correction`; the high bits are 0 or 1, so their `&` is their product. */
  function ProductCorrection(a: nat, b: nat): int32
    requires a < 256 && b < 256
  {
    var aHigh, bHigh := a / 128, b / 128;
    aHigh * b * 256 + bHigh * a * 256 - (if aHigh == 1 && bHigh == 1 then 1 else 0) * 65536
  }

  /** Signed byte lanes plus the correction give the unsigned byte product. */
  lemma SignedLanesCorrected(a: nat, b: nat)
    requires a < 256 && b < 256
    ensures SignedLane(a) * SignedLane(b) + ProductCorrection(a, b) == a * b
  {
    assert (a - 256) * b == a * b - 256 * b && a * (b - 256) == a * b - 256 * a;
    assert (a - 256) * (b - 256) == a * b - 256 * a - 256 * b + 65536;
  }

  method UnsignedByteProduct(a: nat, b: nat) returns (p: uint32)
    requires a < 256 && b < 256
    ensures p == a * b
  {
    var signedA: int32, signedB: int32 := SignedLane(a), SignedLane(b);
    SignedLanesCorrected(a, b);
    MulMono(a, 255, b);
    MulNonNeg(a, b);
    var corrected: int32 := signedA * signedB + ProductCorrection(a, b);
    p := corrected;
  }

  /** The byte-pair plane (i, j) over the first `k` terms. */
  function PlaneSum(a: seq<int>, b: seq<int>, i: nat, j: nat, k: nat): int
    requires k <= |a| && k <= |b| && Words(a) && Words(b)
  {
    if k == 0 then 0 else PlaneSum(a, b, i, j, k - 1) + Byte(a[k - 1], i) * Byte(b[k - 1], j)
  }

  lemma {:induction false} PlaneBound(a: seq<int>, b: seq<int>, i: nat, j: nat, k: nat)
    requires k <= |a| && k <= |b| && Words(a) && Words(b)
    ensures 0 <= PlaneSum(a, b, i, j, k) <= 65025 * k
  {
    if k > 0 {
      PlaneBound(a, b, i, j, k - 1);
      MulMono(Byte(a[k - 1], i), 255, Byte(b[k - 1], j));
      MulMono(0, Byte(a[k - 1], i), Byte(b[k - 1], j));
    }
  }

  lemma {:induction false} LargestPlane(a: seq<int>, k: nat)
    requires k <= |a| && forall t :: 0 <= t < |a| ==> a[t] == 255
    ensures PlaneSum(a, a, 0, 0, k) == 65025 * k
  {
    if k > 0 {
      LargestPlane(a, k - 1);
      SmallMod(255, 256);
      assert Pow2(8 * 0) == 1;
      assert Byte(255, 0) == 255;
    }
  }

  ghost predicate PlanesFitInt32(k: nat)
  {
    forall a: seq<int>, b: seq<int>, i: nat, j: nat {:trigger PlaneSum(a, b, i, j, k)} ::
      |a| == |b| == k && Words(a) && Words(b) ==> PlaneSum(a, b, i, j, k) <= INT32_MAX
  }

  /** A byte-pair plane stays in signed int32 for all inputs exactly up to K = 33025, so the candidate's
      limit of 32768 is safe. */
  lemma PlaneThreshold(k: nat)
    ensures PlanesFitInt32(k) <==> k <= 33025
    ensures CANDIDATE_MAX_K == 32768 && PlanesFitInt32(CANDIDATE_MAX_K)
  {
    forall a: seq<int>, b: seq<int>, i: nat, j: nat, n: nat {:trigger PlaneSum(a, b, i, j, n)}
      | |a| == |b| == n && Words(a) && Words(b) && n <= 33025
      ensures PlaneSum(a, b, i, j, n) <= INT32_MAX
    {
      PlaneBound(a, b, i, j, n);
    }
    if k > 33025 {
      var a: seq<int> := seq(k, _ => 255);
      LargestPlane(a, k);
      assert PlaneSum(a, a, 0, 0, k) > INT32_MAX;
    }
  }

  /** Part of diagonal `d`: the planes (i, d - i) with i below `n`. */
  function DiagonalSum(a: seq<int>, b: seq<int>, d: nat, n: nat, k: nat): int
    requires n <= d + 1 && k <= |a| && k <= |b| && Words(a) && Words(b)
  {
    if n == 0 then 0 else DiagonalSum(a, b, d, n - 1, k) + PlaneSum(a, b, n - 1, d - (n - 1), k)
  }

  /** The products one term adds to diagonal `d`. */
  function TermDiagonal(x: nat, y: nat, d: nat, n: nat): nat
    requires n <= d + 1
  {
    if n == 0 then 0 else TermDiagonal(x, y, d, n - 1) + Byte(x, n - 1) * Byte(y, d - (n - 1))
  }

  lemma {:induction false} DiagonalGrows(a: seq<int>, b: seq<int>, d: nat, n: nat, k: nat)
    requires n <= d + 1 && k < |a| && k < |b| && Words(a) && Words(b)
    ensures DiagonalSum(a, b, d, n, k + 1) == DiagonalSum(a, b, d, n, k) + TermDiagonal(a[k], b[k], d, n)
  {
    if n > 0 {
      DiagonalGrows(a, b, d, n - 1, k);
    }
  }

  lemma {:induction false} DiagonalEmpty(a: seq<int>, b: seq<int>, d: nat, n: nat)
    requires n <= d + 1 && Words(a) && Words(b)
    ensures DiagonalSum(a, b, d, n, 0) == 0
  {
    if n > 0 {
      DiagonalEmpty(a, b, d, n - 1);
    }
  }

  lemma {:induction false} WeightedAdd(x: seq<int>, y: seq<int>, z: seq<int>, n: nat)
    requires n <= |x| && n <= |y| && n <= |z| && forall d :: 0 <= d < n ==> z[d] == x[d] + y[d]
    ensures Weighted(z, n) == Weighted(x, n) + Weighted(y, n)
  {
    if n > 0 {
      WeightedAdd(x, y, z, n - 1);
      assert (x[n - 1] + y[n - 1]) * Pow2(8 * (n - 1)) == x[n - 1] * Pow2(8 * (n - 1)) + y[n - 1] * Pow2(8 * (n - 1));
    }
  }

  /** The row of products of one byte of `x` with the bytes of `y`, placed on the diagonals. */
  function ByteRow(x: nat, y: nat, limb: nat): (row: seq<int>)
    ensures |row| == 8
  {
    seq(8, d requires 0 <= d < 8 => if d >= limb then Byte(x, limb) * Byte(y, d - limb) else 0)
  }

  /** The diagonals of one term after `n` bytes of `x`. */
  function TermDiagonals(x: nat, y: nat, n: nat): (row: seq<int>)
    ensures |row| == 8
  {
    seq(8, d requires 0 <= d < 8 => TermDiagonal(x, y, d, Reached(n, d)))
  }

  lemma {:induction false} ByteRowWeight(x: nat, y: nat, limb: nat, n: nat)
    requires limb <= n <= 8
    ensures Weighted(ByteRow(x, y, limb), n) == Byte(x, limb) * Pow2(8 * limb) * Low(y, n - limb)
    decreases n
  {
    var row := ByteRow(x, y, limb);
    if n == limb {
      ZeroPrefix(row, n);
    } else {
      ByteRowWeight(x, y, limb, n - 1);
      Pow2Add(8 * limb, 8 * (n - 1 - limb));
      PlaceByte(Byte(x, limb), Pow2(8 * limb), Byte(y, n - 1 - limb), Pow2(8 * (n - 1 - limb)), Low(y, n - 1 - limb));
    }
  }

  lemma PlaceByte(u: int, p: int, v: int, q: int, low: int)
    ensures u * p * low + (u * v) * (p * q) == u * p * (low + v * q)
  {
    Shuffle(u, v, p, q);
  }

  lemma Shuffle(u: int, v: int, p: int, q: int)
    ensures (u * v) * (p * q) == (u * p) * (v * q)
  {
    assert (u * v) * (p * q) == u * (v * (p * q));
    assert v * (p * q) == p * (v * q);
    assert u * (p * (v * q)) == (u * p) * (v * q);
  }

  lemma {:induction false} ZeroPrefix(row: seq<int>, n: nat)
    requires n <= |row| && forall d :: 0 <= d < n ==> row[d] == 0
    ensures Weighted(row, n) == 0
  {
    if n > 0 {
      ZeroPrefix(row, n - 1);
    }
  }

  /** The 36 kept byte products of one term give its product modulo 2^64: what is dropped is a multiple. */
  lemma {:induction false} TermLowProduct(x: nat, y: nat, n: nat)
    requires n <= 8
    ensures Weighted(TermDiagonals(x, y, n), 8) % TWO_64 == (Low(x, n) * y) % TWO_64
  {
    if n == 0 {
      ZeroPrefix(TermDiagonals(x, y, 0), 8);
    } else {
      TermLowProduct(x, y, n - 1);
      TermDiagonalsStep(x, y, n - 1);
      ByteRowProduct(x, y, n - 1);
      AddScaled(Weighted(TermDiagonals(x, y, n - 1), 8), Low(x, n - 1), Byte(x, n - 1) * Pow2(8 * (n - 1)), y,
                Weighted(ByteRow(x, y, n - 1), 8));
    }
  }

  /** The kept products of one byte give that byte's share of the product. */
  lemma ByteRowProduct(x: nat, y: nat, limb: nat)
    requires limb < 8
    ensures Weighted(ByteRow(x, y, limb), 8) % TWO_64 == (Byte(x, limb) * Pow2(8 * limb) * y) % TWO_64
  {
    ByteRowWeight(x, y, limb, 8);
    DroppedBytes(Byte(x, limb) * Pow2(8 * limb), Byte(x, limb), y, limb);
  }

  lemma AddScaled(w: int, low: int, scaled: int, y: int, row: int)
    requires w % TWO_64 == (low * y) % TWO_64 && row % TWO_64 == (scaled * y) % TWO_64
    ensures (w + row) % TWO_64 == ((low + scaled) * y) % TWO_64
  {
    CongAdd(w, low * y, row, scaled * y, TWO_64);
    assert (low + scaled) * y == low * y + scaled * y;
  }

  lemma TermDiagonalsStep(x: nat, y: nat, limb: nat)
    requires limb < 8
    ensures Weighted(TermDiagonals(x, y, limb + 1), 8) ==
      Weighted(TermDiagonals(x, y, limb), 8) + Weighted(ByteRow(x, y, limb), 8)
  {
    var before, row, after := TermDiagonals(x, y, limb), ByteRow(x, y, limb), TermDiagonals(x, y, limb + 1);
    forall d | 0 <= d < 8
      ensures after[d] == before[d] + row[d]
    {
      assert Reached(limb + 1, d) == if d >= limb then Reached(limb, d) + 1 else Reached(limb, d);
    }
    WeightedAdd(before, row, after, 8);
  }

  lemma DroppedBytes(scaled: nat, byte: nat, y: nat, limb: nat)
    requires limb < 8 && scaled == byte * Pow2(8 * limb)
    ensures (scaled * Low(y, 8 - limb)) % TWO_64 == (scaled * y) % TWO_64
  {
    LowIsRemainder(y, 8 - limb);
    Pow2Add(8 * limb, 8 * (8 - limb));
    Pow2Consts();
    DropHigh(byte, Pow2(8 * limb), Pow2(8 * (8 - limb)), y);
  }

  lemma DropHigh(byte: nat, p: nat, q: nat, y: nat)
    requires q > 0 && p * q == TWO_64
    ensures (byte * p * (y % q)) % TWO_64 == (byte * p * y) % TWO_64
  {
    var high := y / q;
    assert y == high * q + y % q;
    Shuffle(byte, high, p, q);
    var scaled := byte * p;
    assert scaled * y == scaled * (high * q) + scaled * (y % q);
    assert scaled * (high * q) == (byte * high) * TWO_64;
    ModShift(scaled * (y % q), byte * high, TWO_64);
  }

  /** The diagonals of all terms. */
  function Diagonals(a: seq<int>, b: seq<int>, k: nat): (ds: seq<int>)
    requires k <= |a| && k <= |b| && Words(a) && Words(b)
    ensures |ds| == 8
  {
    seq(8, d requires 0 <= d < 8 => DiagonalSum(a, b, d, d + 1, k))
  }

  /** One more term adds its diagonals. */
  lemma DiagonalsNext(a: seq<int>, b: seq<int>, k: nat)
    requires k < |a| && k < |b| && Words(a) && Words(b)
    ensures Weighted(Diagonals(a, b, k + 1), 8)
      == Weighted(Diagonals(a, b, k), 8) + Weighted(TermDiagonals(a[k], b[k], 8), 8)
  {
    var before, term, after := Diagonals(a, b, k), TermDiagonals(a[k], b[k], 8), Diagonals(a, b, k + 1);
    forall d | 0 <= d < 8
      ensures after[d] == before[d] + term[d]
    {
      DiagonalGrows(a, b, d, d + 1, k);
    }
    WeightedAdd(before, term, after, 8);
  }

  /** All eight bytes: the diagonals of one term give its product. */
  lemma TermGivesProduct(x: uint64, y: uint64)
    ensures Weighted(TermDiagonals(x, y, 8), 8) % TWO_64 == (x * y) % TWO_64
  {
    TermLowProduct(x, y, 8);
    LowIsRemainder(x, 8);
    Pow2Consts();
    SmallMod(x, TWO_64);
  }

  /** The weighted sum of the 36 byte-pair planes is the dot product modulo 2^64. */
  lemma {:induction false} PlanesGiveLowDot(a: seq<int>, b: seq<int>, k: nat)
    requires k <= |a| && k <= |b| && Words(a) && Words(b)
    ensures Weighted(Diagonals(a, b, k), 8) % TWO_64 == Dot(a, b, k) % TWO_64
  {
    if k == 0 {
      forall d | 0 <= d < 8 ensures Diagonals(a, b, 0)[d] == 0 { DiagonalEmpty(a, b, d, d + 1); }
      ZeroPrefix(Diagonals(a, b, 0), 8);
    } else {
      PlanesGiveLowDot(a, b, k - 1);
      DiagonalsNext(a, b, k - 1);
      var x, y := a[k - 1], b[k - 1];
      TermGivesProduct(x, y);
      CongAdd(Weighted(Diagonals(a, b, k - 1), 8), Dot(a, b, k - 1), Weighted(TermDiagonals(x, y, 8), 8), x * y, TWO_64);
    }
  }

  /** `wrap64_low64_from_diagonals`: one byte out of each column, the rest carried. */
  method Low64FromDiagonals(diagonals: seq<nat>) returns (out: uint64)
    requires |diagonals| == 8
    ensures out == Weighted(diagonals, 8) % TWO_64
  {
    var low, carry: nat := 0, 0;
    for d := 0 to 8
      invariant 0 <= low < Pow2(8 * d) && low + carry * Pow2(8 * d) == Weighted(diagonals, d)
    {
      var column := diagonals[d] + carry;
      var byte := column % 256;
      CarryStep(low, diagonals[d], carry, Pow2(8 * d));
      Pow2Byte(d);
      low := low + byte * Pow2(8 * d);
      carry := column / 256;
    }
    Pow2Consts();
    DivModUnique(Weighted(diagonals, 8), carry, low, TWO_64);
    out := low;
  }

  lemma CarryStep(low: nat, diagonal: nat, carry: nat, p: nat)
    requires low < p
    ensures var column := diagonal + carry;
      && low + column % 256 * p + column / 256 * (p * 256) == low + carry * p + diagonal * p
      && 0 <= low + column % 256 * p < p * 256
  {
    var column := diagonal + carry;
    var q, r := column / 256, column % 256;
    assert column == q * 256 + r;
    assert (q * 256) * p == q * (p * 256);
    assert (q * 256 + r) * p == (q * 256) * p + r * p;
    assert (diagonal + carry) * p == diagonal * p + carry * p;
    MulMono(r, 255, p);
    MulNonNeg(r, p);
  }

  /** How many planes of diagonal `d` the first `limbs` bytes of the left operand touch. */
  function Reached(limbs: nat, d: nat): (n: nat)
    ensures n <= d + 1
  {
    if limbs <= d + 1 then limbs else d + 1
  }

  /** The inner loop: the products of one byte of the left operand. */
  method AddByteProducts(diagonals0: seq<nat>, aByte: nat, aLimb: nat, y: uint64) returns (diagonals: seq<nat>)
    requires |diagonals0| == 8 && aByte < 256 && aLimb < 8
    ensures |diagonals| == 8
    ensures forall d :: 0 <= d < 8 ==>
      diagonals[d] == diagonals0[d] + if d >= aLimb then aByte * Byte(y, d - aLimb) else 0
  {
    diagonals := diagonals0;
    for bLimb := 0 to 8 - aLimb
      invariant |diagonals| == 8
      invariant forall d :: 0 <= d < 8 ==>
        diagonals[d] == diagonals0[d] + if aLimb <= d < aLimb + bLimb then aByte * Byte(y, d - aLimb) else 0
    {
      var product := UnsignedByteProduct(aByte, y / Pow2(8 * bLimb) % 256);
      diagonals := diagonals[aLimb + bLimb := diagonals[aLimb + bLimb] + product];
    }
  }

  /** The 36 products of one term, added to the eight diagonals. */
  method AddTerm(diagonals0: seq<nat>, x: uint64, y: uint64) returns (diagonals: seq<nat>)
    requires |diagonals0| == 8
    ensures |diagonals| == 8
    ensures forall d :: 0 <= d < 8 ==> diagonals[d] == diagonals0[d] + TermDiagonal(x, y, d, d + 1)
  {
    diagonals := diagonals0;
    for aLimb := 0 to 8
      invariant |diagonals| == 8
      invariant forall d :: 0 <= d < 8 ==> diagonals[d] == diagonals0[d] + TermDiagonal(x, y, d, Reached(aLimb, d))
    {
      diagonals := AddByteProducts(diagonals, x / Pow2(8 * aLimb) % 256, aLimb, y);
    }
  }

  /** `wrap64_low_diagonal_byte_pair_gemm_cell`: the byte-pair oracle computes the low 64 bits. */
  method LowDiagonalCell(a: seq<uint64>, b: seq<uint64>) returns (out: uint64)
    requires |a| == |b|
    ensures out == Dot(a, b, |a|) % TWO_64
  {
    var diagonals: seq<nat> := seq(8, _ => 0);
    assert forall d :: 0 <= d < 8 ==> diagonals[d] == DiagonalSum(a, b, d, d + 1, 0) by {
      forall d | 0 <= d < 8 ensures diagonals[d] == DiagonalSum(a, b, d, d + 1, 0) { DiagonalEmpty(a, b, d, d + 1); }
    }
    for kk := 0 to |a|
      invariant |diagonals| == 8
      invariant forall d :: 0 <= d < 8 ==> diagonals[d] == DiagonalSum(a, b, d, d + 1, kk)
    {
      diagonals := AddTerm(diagonals, a[kk], b[kk]);
      forall d | 0 <= d < 8 ensures diagonals[d] == DiagonalSum(a, b, d, d + 1, kk + 1) {
        DiagonalGrows(a, b, d, d + 1, kk);
      }
    }
    assert diagonals == Diagonals(a, b, |a|);
    out := Low64FromDiagonals(diagonals);
    PlanesGiveLowDot(a, b, |a|);
  }

  /** `wrap64_byte_limb_gemm_cell`: native wrapping multiplication, the same result. */
  method NativeCell(a: seq<uint64>, b: seq<uint64>) returns (acc: uint64)
    requires |a| == |b|
    ensures acc == Dot(a, b, |a|) % TWO_64
  {
    acc := 0;
    for kk := 0 to |a|
      invariant acc == Dot(a, b, kk) % TWO_64
    {
      var x: int, y: int := a[kk], b[kk];
      ghost var before, term := acc, x * y;
      var product := x * y % TWO_64;
      acc := (acc + product) % TWO_64;
      ModIdem(Dot(a, b, kk), TWO_64);
      ModIdem(term, TWO_64);
      CongAdd(before, Dot(a, b, kk), product, term, TWO_64);
    }
  }
}
