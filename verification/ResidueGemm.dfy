/** One residue plane's matrix product (`ring_gemm_modulus_serial` in `src/cpu/cpu_reference.cpp`, and the
    single dot product of `src/backend_common/residue_dot.hpp`): int8 by int8 products accumulated in
    int32, reduced to a centered byte between safe blocks.  Assignments to int32 variables prove that no
    accumulator overflows. */
module ResidueGemm {
  import opened IntMath
  import opened Centering
  import opened Reducers
  import opened Vectors

  const SAFE_INT32_K_BLOCK := 65536

  /** The longest block for which int32 accumulation cannot overflow. */
  const MAX_SAFE_BLOCK := 131071

  predicate Bytes(x: seq<int>) { forall t :: 0 <= t < |x| ==> -0x80 <= x[t] <= 0x7f }

  lemma {:induction false} ByteDotBound(x: seq<int>, y: seq<int>, i: nat, n: nat)
    requires i <= n <= |x| && n <= |y| && Bytes(x) && Bytes(y)
    ensures Abs(Dot(x, y, n) - Dot(x, y, i)) <= 16384 * (n - i)
    decreases n
  {
    if i < n {
      ByteDotBound(x, y, i, n - 1);
      MulAbs(x[n - 1], y[n - 1], 128);
      MulMono(Abs(x[n - 1]), 128, 128);
    }
  }

  ghost predicate SumFitsInt32(x: seq<int>, y: seq<int>, carried: int, length: nat)
    requires |x| == |y| == length
  {
    -0x8000_0000 <= Dot(x, y, length) + carried <= INT32_MAX
  }

  ghost predicate BlockFitsInt32(length: nat)
  {
    forall x: seq<int>, y: seq<int>, carried: int8 {:trigger SumFitsInt32(x, y, carried, length)} ::
      |x| == |y| == length && Bytes(x) && Bytes(y) ==> SumFitsInt32(x, y, carried, length)
  }

  lemma {:induction false} ExtremeDot(x: seq<int>, n: nat)
    requires n <= |x| && forall t :: 0 <= t < |x| ==> x[t] == -128
    ensures Dot(x, x, n) == 16384 * n
  {
    if n > 0 {
      ExtremeDot(x, n - 1);
    }
  }

  /** The block limit is exact: a block plus a carried residue stays in int32 for all bytes if and only if
      it has at most 131071 terms. */
  lemma SafeBlockThreshold(length: nat)
    ensures BlockFitsInt32(length) <==> length <= MAX_SAFE_BLOCK
  {
    if length <= MAX_SAFE_BLOCK {
      forall x: seq<int>, y: seq<int>, carried: int8 {:trigger SumFitsInt32(x, y, carried, length)}
        | |x| == |y| == length && Bytes(x) && Bytes(y)
        ensures SumFitsInt32(x, y, carried, length)
      {
        ByteDotBound(x, y, 0, length);
      }
    } else {
      var x: seq<int> := seq(length, _ => -128);
      ExtremeDot(x, length);
      assert Bytes(x);
      assert !SumFitsInt32(x, x, 0, length);
    }
  }

  /** `accumulator_safe_for_k_block_for_plan`, for the RNS contracts: the largest product is 128 * 128. */
  function AccumulatorSafe(kBlock: nat): bool
  {
    kBlock != 0 && 16384 <= INT32_MAX / kBlock
  }

  /** The plan's check accepts exactly the nonempty blocks that cannot overflow. */
  lemma AccumulatorSafeIff(kBlock: nat)
    requires kBlock != 0
    ensures AccumulatorSafe(kBlock) <==> BlockFitsInt32(kBlock)
  {
    SafeBlockThreshold(kBlock);
    var q := INT32_MAX / kBlock;
    assert INT32_MAX == q * kBlock + INT32_MAX % kBlock;
    if q >= 16384 {
      MulMono(16384, q, kBlock);
    } else {
      MulMono(q, 16383, kBlock);
    }
  }

  method AccumulateProducts(acc: array<int32>, av: int8, b: seq<int8>, base: nat, n: nat, ghost terms: nat)
    requires acc.Length == n && base + n <= |b| && terms < MAX_SAFE_BLOCK
    requires forall col :: 0 <= col < n ==> Abs(acc[col]) <= 16384 * terms
    modifies acc
    ensures forall col :: 0 <= col < n ==> acc[col] == old(acc[col]) + av * b[base + col]
    ensures forall col :: 0 <= col < n ==> Abs(acc[col]) <= 16384 * (terms + 1)
  {
    for col := 0 to n
      invariant forall c :: 0 <= c < col ==> acc[c] == old(acc[c]) + av * b[base + c]
      invariant forall c :: 0 <= c < col ==> Abs(acc[c]) <= 16384 * (terms + 1)
      invariant forall c :: col <= c < n ==> acc[c] == old(acc[c])
    {
      MulAbs(av, b[base + col], 128);
      MulMono(Abs(av), 128, 128);
      acc[col] := acc[col] + av * b[base + col];
    }
  }

  method FoldBlock(c: array<int8>, base: nat, acc: array<int32>, n: nat, modulus: nat)
    requires acc.Length == n && base + n <= c.Length && 2 <= modulus <= 256
    modifies c
    ensures forall col :: 0 <= col < n ==> c[base + col] == Centered(old(c[base + col]) + acc[col], modulus)
    ensures forall i :: 0 <= i < c.Length && !(base <= i < base + n) ==> c[i] == old(c[i])
  {
    for col := 0 to n
      invariant forall j :: 0 <= j < col ==> c[base + j] == Centered(old(c[base + j]) + acc[j], modulus)
      invariant forall i :: 0 <= i < c.Length && !(base <= i < base + col) ==> c[i] == old(c[i])
    {
      var reduced := ReduceToCentered(c[base + col] + acc[col], modulus);
      c[base + col] := reduced;
    }
  }

  /** The centered residue of cell (row, col) of A times B, over the first `n` terms. */
  ghost function PlaneCell(a: seq<int>, b: seq<int>, g: Geometry, row: nat, col: nat, terms: nat): int
    requires g.Valid(|a|, |b|) && row < g.m && col < g.n && terms <= g.k
  {
    Centered(Dot(RowOf(a, g.m, row, g.lda, g.k), ColOf(b, g.k, g.n, g.ldb, col), terms), g.modulus)
  }

  /** Shapes and strides of one plane product. */
  datatype Geometry = Geometry(m: nat, n: nat, k: nat, lda: nat, ldb: nat, ldc: nat, modulus: nat)
  {
    predicate Valid(lenA: nat, lenB: nat)
    {
      Holds(lenA, m, k, lda) && Holds(lenB, k, n, ldb) && n <= ldc && 2 <= modulus <= 256
    }
  }

  lemma CenteredCarry(d: int, d': int, acc: int, m: nat)
    requires m >= 1 && acc == d' - d
    ensures Centered(Centered(d, m) + acc, m) == Centered(d', m)
  {
    CenteredProperties(d, m);
    CongAdd(Centered(d, m), d, acc, acc, m);
  }

  /** `ring_gemm_row`: one output row, block by block, written through the pointer `c + base`. */
  method RingGemmRow(a: seq<int8>, b: seq<int8>, c: array<int8>, base: nat, g: Geometry, row: nat,
                     blockAcc: array<int32>, kBlock: nat)
    requires g.Valid(|a|, |b|) && row < g.m && base + g.n <= c.Length
    requires blockAcc.Length == g.n && 1 <= kBlock <= MAX_SAFE_BLOCK
    modifies c, blockAcc
    ensures forall col :: 0 <= col < g.n ==> c[base + col] == PlaneCell(a, b, g, row, col, g.k)
    ensures forall i :: 0 <= i < c.Length && !(base <= i < base + g.n) ==> c[i] == old(c[i])
  {
    ghost var x := RowOf(a, g.m, row, g.lda, g.k);
    RowInBounds(|a|, g.m, g.k, g.lda, row);
    for col := 0 to g.n
      invariant forall i :: base <= i < base + col ==> c[i] == 0
      invariant forall i :: 0 <= i < c.Length && !(base <= i < base + g.n) ==> c[i] == old(c[i])
    {
      c[base + col] := 0;
    }
    SmallMod(0, g.modulus);
    assert forall col :: 0 <= col < g.n ==> PlaneCell(a, b, g, row, col, 0) == 0 == c[base + col];
    var offset := 0;
    while offset < g.k
      invariant 0 <= offset <= g.k
      invariant forall col :: 0 <= col < g.n ==> c[base + col] == PlaneCell(a, b, g, row, col, offset)
      invariant forall i :: 0 <= i < c.Length && !(base <= i < base + g.n) ==> c[i] == old(c[i])
    {
      var block := Min(kBlock, g.k - offset);
      BlockDot(a, b, g, row, blockAcc, offset, block);
      ghost var before := c[..];
      FoldBlock(c, base, blockAcc, g.n, g.modulus);
      ghost var start := offset;
      offset := offset + block;
      forall col | 0 <= col < g.n
        ensures c[base + col] == PlaneCell(a, b, g, row, col, offset)
      {
        var y := ColOf(b, g.k, g.n, g.ldb, col);
        assert before[base + col] == PlaneCell(a, b, g, row, col, start);
        CenteredCarry(Dot(x, y, start), Dot(x, y, offset), blockAcc[col], g.modulus);
      }
    }
  }

  /** The two inner loops over one block. */
  method BlockDot(a: seq<int8>, b: seq<int8>, g: Geometry, row: nat, acc: array<int32>, offset: nat, block: nat)
    requires g.Valid(|a|, |b|) && row < g.m
    requires acc.Length == g.n && offset + block <= g.k && block <= MAX_SAFE_BLOCK
    modifies acc
    ensures forall col :: 0 <= col < g.n ==>
      acc[col] == BlockTerms(a, b, g, row, col, offset, block)
  {
    for col := 0 to g.n
      invariant forall j :: 0 <= j < col ==> acc[j] == 0
    {
      acc[col] := 0;
    }
    for kk := 0 to block
      invariant forall col :: 0 <= col < g.n ==> acc[col] == BlockTerms(a, b, g, row, col, offset, kk)
      invariant forall col :: 0 <= col < g.n ==> Abs(acc[col]) <= 16384 * kk
    {
      RowInBounds(|a|, g.m, g.k, g.lda, row);
      RowInBounds(|b|, g.k, g.n, g.ldb, offset + kk);
      var av := a[row * g.lda + offset + kk];
      assert av == RowOf(a, g.m, row, g.lda, g.k)[offset + kk];
      AccumulateProducts(acc, av, b, (offset + kk) * g.ldb, g.n, kk);
      assert forall col :: 0 <= col < g.n ==>
        b[(offset + kk) * g.ldb + col] == ColOf(b, g.k, g.n, g.ldb, col)[offset + kk];
    }
  }

  ghost function BlockTerms(a: seq<int>, b: seq<int>, g: Geometry, row: nat, col: nat, offset: nat, terms: nat): int
    requires g.Valid(|a|, |b|) && row < g.m && col < g.n && offset + terms <= g.k
  {
    var x, y := RowOf(a, g.m, row, g.lda, g.k), ColOf(b, g.k, g.n, g.ldb, col);
    Dot(x, y, offset + terms) - Dot(x, y, offset)
  }

  /** Row `row` of the output at `base` holds the centered residues of its dot products. */
  ghost predicate RowHolds(c: seq<int>, base: nat, a: seq<int>, b: seq<int>, g: Geometry, row: nat)
    requires g.Valid(|a|, |b|) && row < g.m
  {
    forall col :: 0 <= col < g.n ==>
      base + Cell(row, g.ldc, col) < |c| && c[base + Cell(row, g.ldc, col)] == PlaneCell(a, b, g, row, col, g.k)
  }

  /** The rows of a strided output do not overlap. */
  lemma OtherRowKept(before: seq<int>, after: seq<int>, base: nat, a: seq<int>, b: seq<int>, g: Geometry, row: nat,
                     other: nat)
    requires g.Valid(|a|, |b|) && row < g.m && other < g.m && row != other && |after| == |before|
    requires forall i :: 0 <= i < |before| && !(base + row * g.ldc <= i < base + row * g.ldc + g.n) ==>
      after[i] == before[i]
    requires RowHolds(before, base, a, b, g, other)
    ensures RowHolds(after, base, a, b, g, other)
  {
    if row < other {
      RowsDisjoint(row, other, g.ldc);
    } else {
      RowsDisjoint(other, row, g.ldc);
    }
    forall col | 0 <= col < g.n
      ensures after[base + Cell(other, g.ldc, col)] == before[base + Cell(other, g.ldc, col)]
    {
    }
  }

  /** One row at its place in the output. */
  method RingGemmRowAt(a: seq<int8>, b: seq<int8>, c: array<int8>, base: nat, g: Geometry, row: nat,
                       blockAcc: array<int32>, kBlock: nat)
    requires g.Valid(|a|, |b|) && row < g.m && base <= c.Length && Holds(c.Length - base, g.m, g.n, g.ldc)
    requires blockAcc.Length == g.n && 1 <= kBlock <= MAX_SAFE_BLOCK
    modifies c, blockAcc
    ensures RowHolds(c[..], base, a, b, g, row)
    ensures forall r :: 0 <= r < row && RowHolds(old(c[..]), base, a, b, g, r) ==> RowHolds(c[..], base, a, b, g, r)
    ensures forall i :: 0 <= i < c.Length && !InMatrix(i - base, g.m, g.n, g.ldc) ==> c[i] == old(c[i])
  {
    ghost var before := c[..];
    RowInBounds(c.Length - base, g.m, g.n, g.ldc, row);
    RingGemmRow(a, b, c, base + row * g.ldc, g, row, blockAcc, kBlock);
    forall r | 0 <= r < row && RowHolds(before, base, a, b, g, r)
      ensures RowHolds(c[..], base, a, b, g, r)
    {
      OtherRowKept(before, c[..], base, a, b, g, row, r);
    }
    RowInMatrix(g.m, g.n, g.ldc, row);
  }

  /** `ring_gemm_modulus_serial`: every cell of the plane is the centered residue of its integer dot
      product, whatever the block size up to the exact limit, and nothing else in `c` changes, the padding
      columns between the rows included. */
  method RingGemmModulus(a: seq<int8>, b: seq<int8>, c: array<int8>, base: nat, g: Geometry,
                         blockAcc: array<int32>, kBlock: nat)
    requires g.Valid(|a|, |b|) && base <= c.Length && Holds(c.Length - base, g.m, g.n, g.ldc)
    requires blockAcc.Length == g.n && 1 <= kBlock <= MAX_SAFE_BLOCK
    modifies c, blockAcc
    ensures forall row :: 0 <= row < g.m ==> RowHolds(c[..], base, a, b, g, row)
    ensures forall i :: 0 <= i < c.Length && !InMatrix(i - base, g.m, g.n, g.ldc) ==> c[i] == old(c[i])
  {
    for row := 0 to g.m
      invariant forall r :: 0 <= r < row ==> RowHolds(c[..], base, a, b, g, r)
      invariant forall i :: 0 <= i < c.Length && !InMatrix(i - base, g.m, g.n, g.ldc) ==> c[i] == old(c[i])
    {
      RingGemmRowAt(a, b, c, base, g, row, blockAcc, kBlock);
    }
  }

  method StridedBlock(a: seq<int8>, b: seq<int8>, bStride: nat, offset: nat, end: nat, ghost y: seq<int>)
      returns (accumulator: int32)
    requires offset <= end <= |a| == |y| && end - offset <= MAX_SAFE_BLOCK && Bytes(y)
    requires Holds(|b|, |a|, 1, bStride)
    requires forall i :: 0 <= i < |a| ==> y[i] == ElementAt(b, |a|, 1, bStride, i, 0)
    ensures accumulator == Dot(a, y, end) - Dot(a, y, offset)
  {
    accumulator := 0;
    for i := offset to end
      invariant accumulator == Dot(a, y, i) - Dot(a, y, offset)
    {
      var term := ElementAt(b, |a|, 1, bStride, i, 0);
      ByteDotBound(a, y, offset, i + 1);
      assert Dot(a, y, i + 1) == Dot(a, y, i) + a[i] * term;
      accumulator := accumulator + a[i] * term;
    }
  }

  /** The carried residue joins the block's sum in int32, and the fast reducer folds both. */
  method FoldResidue(carried: int8, accumulator: int32, modulus: uint32, reciprocal: uint32, ghost before: int,
                     ghost after: int)
      returns (reduced: int8)
    requires 2 <= modulus <= 256 && reciprocal == TWO_32 / modulus
    requires carried == Centered(before, modulus) && accumulator == after - before
    requires Abs(accumulator) <= 16384 * MAX_SAFE_BLOCK
    ensures reduced == Centered(after, modulus)
  {
    CenteredCarry(before, after, accumulator, modulus);
    reduced := ReduceToCenteredI32(accumulator + carried, modulus, reciprocal);
  }

  /** `centered_residue_dot`: here the carried residue enters the int32 sum before the fast reducer. */
  method CenteredResidueDot(a: seq<int8>, b: seq<int8>, bStride: nat, modulus: uint32, kBlock: nat)
      returns (reduced: int8)
    requires 2 <= modulus <= 256 && 1 <= kBlock <= MAX_SAFE_BLOCK && Holds(|b|, |a|, 1, bStride)
    ensures reduced == Centered(Dot(a, ColOf(b, |a|, 1, bStride, 0), |a|), modulus)
  {
    var reciprocal := TWO_32 / modulus;
    ghost var y := ColOf(b, |a|, 1, bStride, 0);
    SmallMod(0, modulus);
    reduced := 0;
    var offset := 0;
    while offset < |a|
      invariant 0 <= offset <= |a|
      invariant reduced == Centered(Dot(a, y, offset), modulus)
    {
      var block := Min(kBlock, |a| - offset);
      ghost var before, start := Dot(a, y, offset), offset;
      var accumulator := StridedBlock(a, b, bStride, offset, offset + block, y);
      offset := offset + block;
      ByteDotBound(a, y, start, offset);
      reduced := FoldResidue(reduced, accumulator, modulus, reciprocal, before, Dot(a, y, offset));
    }
  }
}
