/** Exact-wide limb export of a whole matrix (`rns8_export_exact_wide_signed_limbs` and `_unsigned_limbs` in
    `src/core/api_export.cpp`), and the public pack, multiply and export sequence end to end. */
module ExactExport {
  import opened IntMath
  import opened Ladder
  import opened Garner
  import opened Vectors
  import opened ExactRange
  import opened WidePlanes
  import opened Limbs
  import opened ExactWide
  import opened ModulusSearch

  /** The plan's prefix is initialized and covers the matrix's proof. */
  ghost predicate Covered(c: ExactMatrix, ms: seq<nat>, planPrefix: nat)
    requires planPrefix <= |ms|
    reads c
  {
    planPrefix <= c.rangePrefix && RangeFits(c.signed, c.maxMagnitude, PrefixProduct(ms, planPrefix))
  }

  /** The integer cell `i` decodes to fits the limbs. */
  ghost predicate CellFits(c: ExactMatrix, ms: seq<nat>, i: nat, planPrefix: nat, limbCount: nat)
    requires WideLadder(ms) && planPrefix <= MAX_SUPPORTED_PREFIX && limbCount >= 1
    reads c
  {
    Representable(ReadCell(c.signed, ms, c.residues, c.rows * c.cols, i, planPrefix), c.signed, limbCount)
  }

  /** The staged limbs decode, cell by cell, to what the cells decode to. */
  ghost predicate Encoded(staged: seq<seq<int>>, c: ExactMatrix, ms: seq<nat>, planPrefix: nat, limbCount: nat)
    requires WideLadder(ms) && planPrefix <= MAX_SUPPORTED_PREFIX
    reads c
  {
    forall i :: 0 <= i < |staged| ==>
      |staged[i]| == limbCount &&
      LimbValue(staged[i], c.signed) == ReadCell(c.signed, ms, c.residues, c.rows * c.cols, i, planPrefix)
  }

  /** The encoding loop: it goes on after a failure, and the status of a failed cell is kept. */
  method EncodeCells(c: ExactMatrix, ms: seq<nat>, planPrefix: nat, limbCount: nat)
      returns (status: Status, staged: seq<seq<uint64>>)
    requires c.Valid(ms) && 1 <= planPrefix <= c.prefix && 1 <= limbCount <= MAX_LIMBS
    ensures |staged| == c.rows * c.cols && (status == Success || status == RangeError)
    ensures status == Success ==> Encoded(staged, c, ms, planPrefix, limbCount)
    ensures status == RangeError ==>
      exists i :: 0 <= i < c.rows * c.cols && !CellFits(c, ms, i, planPrefix, limbCount)
  {
    staged, status := [], Success;
    var cells := c.rows * c.cols;
    MulMono(planPrefix, c.prefix, cells);
    ghost var failing := 0;
    for cell := 0 to cells
      invariant |staged| == cell && (status == Success || status == RangeError)
      invariant status == Success ==> Encoded(staged, c, ms, planPrefix, limbCount)
      invariant status == RangeError ==> 0 <= failing < cell && !CellFits(c, ms, failing, planPrefix, limbCount)
    {
      var residues := GatherCell(c.residues, cells, cell, planPrefix);
      var cellStatus, limbs := ExportExactWideLimbs(c.signed, ms, residues, planPrefix, limbCount);
      if cellStatus != Success {
        status, failing := cellStatus, cell;
      }
      staged := staged + [limbs];
    }
  }

  /** Every cell is encoded before any output is touched; one cell that does not fit refuses the export. */
  method StageExport(c: ExactMatrix, ms: seq<nat>, planPrefix: nat, limbCount: nat)
      returns (status: Status, staged: seq<seq<uint64>>)
    requires c.Valid(ms) && 1 <= planPrefix <= c.prefix
    ensures status == InvalidArgument <==> limbCount == 0 || limbCount > 32 || !c.current
    ensures status != WorkspaceTooSmall
    ensures status == Success ==> |staged| == c.rows * c.cols
    ensures status == Success ==> forall i :: 0 <= i < |staged| ==>
      |staged[i]| == limbCount &&
      LimbValue(staged[i], c.signed) == ReadCell(c.signed, ms, c.residues, c.rows * c.cols, i, planPrefix)
    ensures status == Success && c.rangePrefix != 0 ==> Covered(c, ms, planPrefix)
    ensures status == RangeError && (c.rangePrefix == 0 || Covered(c, ms, planPrefix)) ==>
      (exists i :: 0 <= i < c.rows * c.cols && !CellFits(c, ms, i, planPrefix, limbCount))
  {
    staged := [];
    if limbCount == 0 || limbCount > MAX_LIMBS || !c.current {
      return InvalidArgument, [];
    }
    var product := ModulusProduct(ms, planPrefix);
    if c.rangePrefix != 0 && (c.rangePrefix < planPrefix || !RangeFits(c.signed, c.maxMagnitude, product)) {
      return RangeError, [];
    }
    status, staged := EncodeCells(c, ms, planPrefix, limbCount);
  }

  /** `gather_cell_residues`. */
  method GatherCell(residues: seq<int8>, cells: nat, cell: nat, prefix: nat) returns (rs: seq<int8>)
    requires cell < cells && prefix * cells <= |residues|
    ensures rs == CellResidues(residues, cells, cell, prefix)
  {
    rs := [];
    for p := 0 to prefix
      invariant |rs| == p && forall q :: 0 <= q < p ==> rs[q] == Resident(residues, cells, q, cell)
    {
      CellBounds(p, prefix, cells, cell);
      rs := rs + [residues[Cell(p, cells, cell)]];
    }
  }

  function WindowStart(row: nat, col: nat, ld: nat, limbCount: nat): nat { Cell(row, ld, col) * limbCount }

  /** For sizes that passed the overflow checks the window starts at the wrapped index of the library. */
  lemma WindowIsLimbIndex(row: nat, col: nat, m: nat, n: nat, ld: nat, limbCount: uint32)
    requires row < m && col < n <= ld && 0 < limbCount && m * ld < TWO_63 && m * ld * limbCount < TWO_64
    ensures WindowStart(row, col, ld, limbCount) == LimbIndex(row, col, ld, limbCount)
  {
    LimbIndexExact(row, col, m, n, ld, limbCount);
  }

  lemma WindowInBounds(capacity: nat, rows: nat, cols: nat, ld: nat, limbCount: nat, row: nat, col: nat)
    requires Holds(capacity, rows, cols, ld) && row < rows && col < cols
    ensures WindowStart(row, col, ld, limbCount) + limbCount <= capacity * limbCount
  {
    RowInBounds(capacity, rows, cols, ld, row);
    MulMono(Cell(row, ld, col) + 1, capacity, limbCount);
    assert (Cell(row, ld, col) + 1) * limbCount == Cell(row, ld, col) * limbCount + limbCount;
  }

  lemma CellWindowsApart(row: nat, col: nat, row': nat, col': nat, ld: nat, limbCount: nat)
    requires col < ld && col' < ld && (row != row' || col != col')
    ensures var i, j := WindowStart(row, col, ld, limbCount), WindowStart(row', col', ld, limbCount);
      i + limbCount <= j || j + limbCount <= i
  {
    if Cell(row, ld, col) == Cell(row', ld, col') {
      CellInjective(row, col, row', col', ld);
    }
    WindowsApart(Cell(row, ld, col), Cell(row', ld, col'), limbCount);
  }

  /** Word `j` of the destination belongs to the window of some cell. */
  ghost predicate Written(j: int, rows: nat, cols: nat, ld: nat, limbCount: nat)
  {
    exists row, col :: 0 <= row < rows && 0 <= col < cols &&
      WindowStart(row, col, ld, limbCount) <= j < WindowStart(row, col, ld, limbCount) + limbCount
  }

  /** The window of cell (r, c) holds its staged limbs. */
  ghost predicate Copied(dst: seq<uint64>, staged: seq<seq<uint64>>, cols: nat, ld: nat, limbCount: nat, r: nat, c: nat)
  {
    Cell(r, cols, c) < |staged| && WindowStart(r, c, ld, limbCount) + limbCount <= |dst| &&
    dst[WindowStart(r, c, ld, limbCount)..WindowStart(r, c, ld, limbCount) + limbCount] == staged[Cell(r, cols, c)]
  }

  /** The cells before (row, col) in row-major order. */
  predicate Before(r: int, c: int, row: int, col: int) { r < row || (r == row && c < col) }

  /** One cell of the copy loop; the windows of the cells before it stay. */
  method CopyCell(staged: seq<seq<uint64>>, dst: array<uint64>, rows: nat, cols: nat, ld: nat, limbCount: nat,
                  row: nat, col: nat, ghost capacity: nat)
    requires |staged| == rows * cols && forall i :: 0 <= i < |staged| ==> |staged[i]| == limbCount
    requires Holds(capacity, rows, cols, ld) && capacity * limbCount <= dst.Length && row < rows && col < cols
    requires forall r, c :: 0 <= r < rows && 0 <= c < cols && Before(r, c, row, col) ==>
      Copied(dst[..], staged, cols, ld, limbCount, r, c)
    modifies dst
    ensures Copied(dst[..], staged, cols, ld, limbCount, row, col)
    ensures forall r, c :: 0 <= r < rows && 0 <= c < cols && Before(r, c, row, col) ==>
      Copied(dst[..], staged, cols, ld, limbCount, r, c)
    ensures forall j :: 0 <= j < dst.Length && !Written(j, rows, cols, ld, limbCount) ==> dst[j] == old(dst[j])
  {
    PackedHolds(rows, cols);
    RowInBounds(|staged|, rows, cols, cols, row);
    WindowInBounds(capacity, rows, cols, ld, limbCount, row, col);
    ghost var before := dst[..];
    CopyLimbs(staged[Cell(row, cols, col)], dst, WindowStart(row, col, ld, limbCount));
    forall r, c | 0 <= r < rows && 0 <= c < cols && Before(r, c, row, col)
      ensures Copied(dst[..], staged, cols, ld, limbCount, r, c)
    {
      assert Copied(before, staged, cols, ld, limbCount, r, c);
      CellWindowsApart(r, c, row, col, ld, limbCount);
      var i := WindowStart(r, c, ld, limbCount);
      assert dst[i..i + limbCount] == before[i..i + limbCount];
    }
  }

  /** The copy loop: each cell's limbs land in its own window of the padded destination, and nothing else
      in the destination changes. */
  method CopyOut(staged: seq<seq<uint64>>, dst: array<uint64>, rows: nat, cols: nat, ld: nat, limbCount: nat,
                 ghost capacity: nat)
    requires |staged| == rows * cols && forall i :: 0 <= i < |staged| ==> |staged[i]| == limbCount
    requires Holds(capacity, rows, cols, ld) && capacity * limbCount <= dst.Length
    modifies dst
    ensures forall r, c :: 0 <= r < rows && 0 <= c < cols ==> Copied(dst[..], staged, cols, ld, limbCount, r, c)
    ensures forall j :: 0 <= j < dst.Length && !Written(j, rows, cols, ld, limbCount) ==> dst[j] == old(dst[j])
  {
    for row := 0 to rows
      invariant forall r, c :: 0 <= r < rows && 0 <= c < cols && Before(r, c, row, 0) ==>
        Copied(dst[..], staged, cols, ld, limbCount, r, c)
      invariant forall j :: 0 <= j < dst.Length && !Written(j, rows, cols, ld, limbCount) ==> dst[j] == old(dst[j])
    {
      for col := 0 to cols
        invariant forall r, c :: 0 <= r < rows && 0 <= c < cols && Before(r, c, row, col) ==>
          Copied(dst[..], staged, cols, ld, limbCount, r, c)
        invariant forall j :: 0 <= j < dst.Length && !Written(j, rows, cols, ld, limbCount) ==> dst[j] == old(dst[j])
      {
        CopyCell(staged, dst, rows, cols, ld, limbCount, row, col, capacity);
      }
    }
  }

  method CopyLimbs(limbs: seq<uint64>, dst: array<uint64>, start: nat)
    requires start + |limbs| <= dst.Length
    modifies dst
    ensures dst[start..start + |limbs|] == limbs
    ensures forall j :: 0 <= j < dst.Length && !(start <= j < start + |limbs|) ==> dst[j] == old(dst[j])
  {
    for l := 0 to |limbs|
      invariant dst[start..start + l] == limbs[..l]
      invariant forall j :: 0 <= j < dst.Length && !(start <= j < start + l) ==> dst[j] == old(dst[j])
    {
      dst[start + l] := limbs[l];
    }
  }

  /** Staged limbs stand for the matrix's integers. */
  ghost predicate StagedFor(staged: seq<seq<uint64>>, value: seq<int>, signed: bool, limbCount: nat)
  {
    |staged| == |value| && forall i :: 0 <= i < |value| ==>
      |staged[i]| == limbCount && LimbValue(staged[i], signed) == value[i]
  }

  /** How the export of a current matrix with a proof ends: the limb count first, then whether the plan's prefix
      is initialized and covers the proof, then whether every integer fits the limbs. */
  ghost function ExportStatus(ms: seq<nat>, signed: bool, maxMagnitude: int, rangePrefix: nat, value: seq<int>,
                              planPrefix: nat, limbCount: nat): Status
    requires planPrefix <= |ms|
  {
    if limbCount == 0 || limbCount > 32 then InvalidArgument
    else if planPrefix > rangePrefix || !RangeFits(signed, maxMagnitude, PrefixProduct(ms, planPrefix)) then RangeError
    else if forall i :: 0 <= i < |value| ==> Representable(value[i], signed, limbCount) then Success
    else RangeError
  }

  /** Staging, for a matrix whose proof the plan covers, in terms of the integers it stands for. */
  method StageProved(c: ExactMatrix, ms: seq<nat>, planPrefix: nat, limbCount: nat)
      returns (status: Status, staged: seq<seq<uint64>>)
    requires c.Valid(ms) && 1 <= planPrefix <= c.prefix
    ensures status == InvalidArgument <==> limbCount == 0 || limbCount > 32 || !c.current
    ensures status != WorkspaceTooSmall
    ensures c.current && c.rangePrefix != 0 ==>
      status == ExportStatus(ms, c.signed, c.maxMagnitude, c.rangePrefix, c.value, planPrefix, limbCount)
    ensures c.current && c.rangePrefix == 0 && 1 <= limbCount <= 32 ==>
      (status == Success <==> forall i :: 0 <= i < c.rows * c.cols ==> CellFits(c, ms, i, planPrefix, limbCount))
    ensures status == Success ==>
      |staged| == c.rows * c.cols && forall i :: 0 <= i < |staged| ==> |staged[i]| == limbCount
    ensures status == Success && c.rangePrefix != 0 ==> StagedFor(staged, c.value, c.signed, limbCount)
  {
    status, staged := StageExport(c, ms, planPrefix, limbCount);
    if Covered(c, ms, planPrefix) {
      forall i | 0 <= i < |c.value|
        ensures ReadCell(c.signed, ms, c.residues, |c.value|, i, planPrefix) == c.value[i]
      {
        MulMono(planPrefix, c.rangePrefix, |c.value|);
        PlanesDecode(c.residues, c.value, ms, planPrefix, c.signed, c.maxMagnitude, i);
      }
    }
    forall i | status == Success && 0 <= i < |staged|
      ensures limbCount >= 1 && Representable(LimbValue(staged[i], c.signed), c.signed, limbCount)
    {
      DecodeRange(staged[i], c.signed);
    }
  }

  /** The window of cell (row, col) decodes to that cell's integer. */
  ghost predicate CellExported(dst: seq<uint64>, value: seq<int>, signed: bool, cols: nat, ld: nat, limbCount: nat,
                               row: nat, col: nat)
  {
    var start := WindowStart(row, col, ld, limbCount);
    && Cell(row, cols, col) < |value| && start + limbCount <= |dst|
    && LimbValue(dst[start..start + limbCount], signed) == value[Cell(row, cols, col)]
  }

  /** `rns8_export_exact_wide_*_limbs`.  The status is exact, for matrices with a proof and without one, and on
      success every cell's window decodes to its integer.  A failed export leaves the destination alone, and
      padding is never touched. */
  method Export(c: ExactMatrix, ms: seq<nat>, planPrefix: nat, limbCount: nat, dst: array<uint64>, ld: nat,
                ghost capacity: nat) returns (status: Status)
    requires c.Valid(ms) && 1 <= planPrefix <= c.prefix
    requires Holds(capacity, c.rows, c.cols, ld) && capacity * limbCount <= dst.Length
    modifies dst
    ensures status == InvalidArgument <==> limbCount == 0 || limbCount > 32 || !c.current
    ensures status != WorkspaceTooSmall
    ensures c.current && c.rangePrefix != 0 ==>
      status == ExportStatus(ms, c.signed, c.maxMagnitude, c.rangePrefix, c.value, planPrefix, limbCount)
    ensures c.current && c.rangePrefix == 0 && 1 <= limbCount <= 32 ==>
      (status == Success <==> forall i :: 0 <= i < c.rows * c.cols ==> CellFits(c, ms, i, planPrefix, limbCount))
    ensures status != Success ==> dst[..] == old(dst[..])
    ensures status == Success ==> forall j :: 0 <= j < dst.Length && !Written(j, c.rows, c.cols, ld, limbCount) ==>
      dst[j] == old(dst[j])
    ensures status == Success && c.rangePrefix != 0 ==>
      forall row, col :: 0 <= row < c.rows && 0 <= col < c.cols ==>
        CellExported(dst[..], c.value, c.signed, c.cols, ld, limbCount, row, col)
  {
    var staged;
    status, staged := StageProved(c, ms, planPrefix, limbCount);
    if status == Success {
      CopyOut(staged, dst, c.rows, c.cols, ld, limbCount, capacity);
      forall row, col | 0 <= row < c.rows && 0 <= col < c.cols && c.rangePrefix != 0
        ensures CellExported(dst[..], c.value, c.signed, c.cols, ld, limbCount, row, col)
      {
        assert Copied(dst[..], staged, c.cols, ld, limbCount, row, col);
      }
    }
  }

  // End to end.

  /** What plan creation demands of an exact-wide plan: the prefix covers K products of native 64-bit values. */
  ghost predicate Admitted(plan: Plan, ms: seq<nat>)
    requires plan.prefix <= |ms|
  {
    PrefixProduct(ms, plan.prefix) > plan.k * Pow2(if plan.signed then 127 else 128)
  }

  lemma NativeProduct(k: nat, x: nat, y: nat, top: nat)
    requires x <= top && y <= top
    ensures 0 <= k * x * y <= k * (top * top)
  {
    MulMono(x, top, y);
    MulMono(y, top, top);
    MulNonNeg(x, y);
    MulMono(x * y, top * top, k);
    MulNonNeg(k, x * y);
    assert k * x * y == k * (x * y);
  }

  /** An admitted prefix covers every native value and every bound on a product of native matrices. */
  lemma AdmittedCovers(plan: Plan, ms: seq<nat>, x: nat, y: nat)
    requires plan.Valid() && plan.prefix <= |ms| && Admitted(plan, ms)
    requires x <= NativeMax(plan.signed) && y <= NativeMax(plan.signed)
    ensures RangeFits(plan.signed, x, PrefixProduct(ms, plan.prefix))
    ensures 0 <= plan.k * x * y && RangeFits(plan.signed, plan.k * x * y, PrefixProduct(ms, plan.prefix))
  {
    var product, k := PrefixProduct(ms, plan.prefix), plan.k;
    NativeProduct(k, x, y, NativeMax(plan.signed));
    MulMono(1, k, Pow2(if plan.signed then 127 else 128));
    WidePowers();
    ContractCovers(plan.signed, k, product);
    assert RangeFits(plan.signed, k * (NativeMax(plan.signed) * NativeMax(plan.signed)), product);
  }

  /** How a whole run ends under an admitted plan: the byte budget first, then the limb count, then whether
      every integer of the product fits the limbs. */
  ghost function RunStatus(plan: Plan, product: seq<int>, limbCount: nat, maxStagedBytes: nat): Status
  {
    if plan.m * plan.n * plan.prefix > maxStagedBytes then WorkspaceTooSmall
    else if limbCount == 0 || limbCount > 32 then InvalidArgument
    else if forall i :: 0 <= i < |product| ==> Representable(product[i], plan.signed, limbCount) then Success
    else RangeError
  }

  lemma NativeBound(value: seq<int>, src: seq<int>, maximum: int, signed: bool)
    requires Attained(value, maximum) && forall i :: 0 <= i < |value| ==> value[i] in src
    requires forall x :: x in src ==> FitsWord(signed, x)
    ensures 0 <= maximum <= NativeMax(signed)
  {
  }

  /** Two freshly packed operands of an admitted plan multiply at the plan's own prefix, if the budget allows. */
  lemma AdmittedOutcome(ms: seq<nat>, plan: Plan, a: ExactMatrix, b: ExactMatrix, c: ExactMatrix, maxStagedBytes: nat)
    requires plan.Valid() && WideLadder(ms) && Admitted(plan, ms) && Admissible(plan, a, b, c)
    requires a.current && b.current && a.rangePrefix == b.rangePrefix == plan.maxPrefix
    requires 0 <= a.maxMagnitude <= NativeMax(plan.signed) && 0 <= b.maxMagnitude <= NativeMax(plan.signed)
    ensures Outcome(ms, plan, a, b, c, maxStagedBytes)
      == if plan.m * plan.n * plan.prefix > maxStagedBytes then WorkspaceTooSmall else Success
    ensures Covering(ms, plan, a, b, c) && Least(ms, plan, a, b, c) == plan.prefix
  {
    var bound := Bound(plan, a, b);
    LargestCellIsLargest(a.maxMagnitude, a.rowRanges, b.maxMagnitude, b.colRanges, plan.m, plan.k, plan.n, plan.m);
    AdmittedCovers(plan, ms, a.maxMagnitude, b.maxMagnitude);
    assert RangeFits(plan.signed, bound, PrefixProduct(ms, plan.prefix));
    assert Usable(plan, a, b, c, plan.prefix) && Covers(ms, plan.signed, bound, plan.prefix);
  }

  /** Three limbs are always enough: under an admitted plan every integer of the product fits them. */
  lemma ThreeLimbsSuffice(plan: Plan, ms: seq<nat>, srcA: seq<int>, lda: nat, srcB: seq<int>, ldb: nat, limbCount: nat)
    requires plan.Valid() && WideLadder(ms) && Admitted(plan, ms) && 3 <= limbCount
    requires Holds(|srcA|, plan.m, plan.k, lda) && Holds(|srcB|, plan.k, plan.n, ldb)
    requires (forall x :: x in srcA ==> FitsWord(plan.signed, x)) && (forall x :: x in srcB ==> FitsWord(plan.signed, x))
    ensures var p := MatrixProduct(Flatten(srcA, plan.m, plan.k, lda), Flatten(srcB, plan.k, plan.n, ldb),
                                   plan.m, plan.k, plan.n);
      forall i :: 0 <= i < |p| ==> Representable(p[i], plan.signed, limbCount)
  {
    var a, b := Flatten(srcA, plan.m, plan.k, lda), Flatten(srcB, plan.k, plan.n, ldb);
    var p := MatrixProduct(a, b, plan.m, plan.k, plan.n);
    if !plan.signed {
      ProductNonNeg(a, b, plan.m, plan.k, plan.n);
    }
    forall i | 0 <= i < |p|
      ensures Representable(p[i], plan.signed, limbCount)
    {
      CellFromFlat(plan.m, plan.n, i);
      var row, col := i / plan.n, i % plan.n;
      assert p[i] == ElementAt(p, plan.m, plan.n, plan.n, row, col);
      NativeCellCovered(plan, ms, a, b, row, col);
      CoveredFits(plan.signed, ms, plan.prefix, p[i], limbCount);
    }
  }

  lemma NativeCellCovered(plan: Plan, ms: seq<nat>, a: seq<int>, b: seq<int>, row: nat, col: nat)
    requires plan.Valid() && plan.prefix <= |ms| && Admitted(plan, ms) && row < plan.m && col < plan.n
    requires |a| == plan.m * plan.k && |b| == plan.k * plan.n
    requires forall i :: 0 <= i < |a| ==> FitsWord(plan.signed, a[i])
    requires forall i :: 0 <= i < |b| ==> FitsWord(plan.signed, b[i])
    ensures Holds(|a|, plan.m, plan.k, plan.k) && Holds(|b|, plan.k, plan.n, plan.n)
    ensures RangeFits(plan.signed, Abs(ProductCell(a, b, plan.m, plan.k, plan.n, row, col)), PrefixProduct(ms, plan.prefix))
  {
    PackedHolds(plan.m, plan.k);
    PackedHolds(plan.k, plan.n);
    var x, y := RowOf(a, plan.m, row, plan.k, plan.k), ColOf(b, plan.k, plan.n, plan.n, col);
    forall t | 0 <= t < plan.k
      ensures FitsWord(plan.signed, x[t]) && FitsWord(plan.signed, y[t])
    {
      assert x[t] == ElementAt(a, plan.m, plan.k, plan.k, row, t);
      assert y[t] == ElementAt(b, plan.k, plan.n, plan.n, t, col);
    }
    ContractCovers(plan.signed, plan.k, PrefixProduct(ms, plan.prefix));
    assert NativeTerms(plan.signed, x, plan.k) && NativeTerms(plan.signed, y, plan.k);
  }

  lemma CoveredFits(signed: bool, ms: seq<nat>, prefix: nat, v: int, limbCount: nat)
    requires WideLadder(ms) && prefix <= MAX_SUPPORTED_PREFIX && 3 <= limbCount && (signed || v >= 0)
    requires RangeFits(signed, Abs(v), PrefixProduct(ms, prefix))
    ensures Representable(v, signed, limbCount)
  {
    ByteProductBound(ms, prefix);
    Pow2Mono(8 * prefix, 64 * limbCount - 1);
    Pow2Limb(limbCount);
  }

  /** Pack one native operand; an admitted plan never refuses one. */
  method PackOperand(ms: seq<nat>, plan: Plan, rows: nat, cols: nat, src: seq<int>, ld: nat)
      returns (status: Status, x: ExactMatrix)
    requires WideLadder(ms) && plan.Valid() && 0 < rows && 0 < cols && Holds(|src|, rows, cols, ld)
    requires forall v :: v in src ==> FitsWord(plan.signed, v)
    ensures fresh(x) && x.Valid(ms) && x.rows == rows && x.cols == cols && x.signed == plan.signed
    ensures x.prefix == plan.maxPrefix
    ensures status == Success ==> x.value == Flatten(src, rows, cols, ld) && x.current && x.rangePrefix == x.prefix
    ensures status == Success ==> 0 <= x.maxMagnitude <= NativeMax(plan.signed)
    ensures Admitted(plan, ms) ==> status == Success
  {
    x := new ExactMatrix(rows, cols, plan.maxPrefix, plan.signed, ms);
    ghost var value := Flatten(src, rows, cols, ld);
    if Admitted(plan, ms) {
      forall i | 0 <= i < rows * cols
        ensures RangeFits(plan.signed, Abs(value[i]), PrefixProduct(ms, plan.maxPrefix))
      {
        assert value[i] in src;
        AdmittedCovers(plan, ms, Abs(value[i]), 0);
        FitsUpward(plan.signed, ms, Abs(value[i]), plan.prefix, plan.maxPrefix);
      }
    }
    status := x.Pack(ms, src, ld);
    if status == Success {
      NativeBound(x.value, src, x.maxMagnitude, plan.signed);
    }
  }

  /** Pack two native matrices and multiply them. */
  method PackMultiply(ms: seq<nat>, plan: Plan, srcA: seq<int>, lda: nat, srcB: seq<int>, ldb: nat,
                      maxStagedBytes: nat)
      returns (status: Status, selected: nat, c: ExactMatrix)
    requires WideLadder(ms) && plan.Valid()
    requires Holds(|srcA|, plan.m, plan.k, lda) && Holds(|srcB|, plan.k, plan.n, ldb)
    requires (forall x :: x in srcA ==> FitsWord(plan.signed, x)) && (forall x :: x in srcB ==> FitsWord(plan.signed, x))
    ensures fresh(c) && c.Valid(ms) && c.rows == plan.m && c.cols == plan.n && c.signed == plan.signed && c.current
    ensures status == Success ==>
      && c.value == MatrixProduct(Flatten(srcA, plan.m, plan.k, lda), Flatten(srcB, plan.k, plan.n, ldb),
                                  plan.m, plan.k, plan.n)
      && 1 <= selected == c.rangePrefix <= c.prefix
    ensures Admitted(plan, ms) ==>
      status == if plan.m * plan.n * plan.prefix > maxStagedBytes then WorkspaceTooSmall else Success
  {
    c := new ExactMatrix(plan.m, plan.n, plan.maxPrefix, plan.signed, ms);
    selected := 0;
    var a, b;
    status, a := PackOperand(ms, plan, plan.m, plan.k, srcA, lda);
    if status != Success {
      return;
    }
    status, b := PackOperand(ms, plan, plan.k, plan.n, srcB, ldb);
    if status != Success {
      return;
    }
    if Admitted(plan, ms) {
      AdmittedOutcome(ms, plan, a, b, c, maxStagedBytes);
    }
    status, selected := GemmAuto(ms, plan, a, b, c, maxStagedBytes);
  }

  /** Pack two native matrices, multiply, export.  When the run succeeds, the limbs of each output cell decode
      to the exact integer dot product of the native row and column, for any inner dimension; and under a plan
      that creation admits, `RunStatus` says exactly how the run ends. */
  method PackMultiplyExport(ms: seq<nat>, plan: Plan, srcA: seq<int>, lda: nat, srcB: seq<int>, ldb: nat,
                            limbCount: nat, dst: array<uint64>, ldc: nat, maxStagedBytes: nat, ghost capacity: nat)
      returns (status: Status)
    requires WideLadder(ms) && plan.Valid()
    requires Holds(|srcA|, plan.m, plan.k, lda) && Holds(|srcB|, plan.k, plan.n, ldb)
    requires (forall x :: x in srcA ==> FitsWord(plan.signed, x)) && (forall x :: x in srcB ==> FitsWord(plan.signed, x))
    requires Holds(capacity, plan.m, plan.n, ldc) && capacity * limbCount <= dst.Length
    modifies dst
    ensures status != Success ==> dst[..] == old(dst[..])
    ensures status == Success ==> forall j ::
      0 <= j < dst.Length && !Written(j, plan.m, plan.n, ldc, limbCount) ==> dst[j] == old(dst[j])
    ensures status == Success ==> forall row, col :: 0 <= row < plan.m && 0 <= col < plan.n ==>
      ExactCell(dst[..], plan, srcA, lda, srcB, ldb, limbCount, ldc, row, col)
    ensures Admitted(plan, ms) ==>
      status == RunStatus(plan, MatrixProduct(Flatten(srcA, plan.m, plan.k, lda), Flatten(srcB, plan.k, plan.n, ldb),
                                              plan.m, plan.k, plan.n), limbCount, maxStagedBytes)
    ensures Admitted(plan, ms) && 3 <= limbCount <= 32 && plan.m * plan.n * plan.prefix <= maxStagedBytes ==>
      status == Success
  {
    if Admitted(plan, ms) && 3 <= limbCount {
      ThreeLimbsSuffice(plan, ms, srcA, lda, srcB, ldb, limbCount);
    }
    var selected, c;
    status, selected, c := PackMultiply(ms, plan, srcA, lda, srcB, ldb, maxStagedBytes);
    if status != Success {
      return;
    }
    status := Export(c, ms, selected, limbCount, dst, ldc, capacity);
    if status == Success {
      ExportedExactly(dst[..], plan, srcA, lda, srcB, ldb, limbCount, ldc);
    }
  }

  /** Exported cells of the product hold the native dot products. */
  lemma ExportedExactly(dst: seq<uint64>, plan: Plan, srcA: seq<int>, lda: nat, srcB: seq<int>, ldb: nat,
                        limbCount: nat, ldc: nat)
    requires Holds(|srcA|, plan.m, plan.k, lda) && Holds(|srcB|, plan.k, plan.n, ldb)
    requires var p := MatrixProduct(Flatten(srcA, plan.m, plan.k, lda), Flatten(srcB, plan.k, plan.n, ldb),
                                    plan.m, plan.k, plan.n);
      forall row, col :: 0 <= row < plan.m && 0 <= col < plan.n ==>
        CellExported(dst, p, plan.signed, plan.n, ldc, limbCount, row, col)
    ensures forall row, col :: 0 <= row < plan.m && 0 <= col < plan.n ==>
      ExactCell(dst, plan, srcA, lda, srcB, ldb, limbCount, ldc, row, col)
  {
    var p := MatrixProduct(Flatten(srcA, plan.m, plan.k, lda), Flatten(srcB, plan.k, plan.n, ldb),
                           plan.m, plan.k, plan.n);
    forall row, col | 0 <= row < plan.m && 0 <= col < plan.n
      ensures ExactCell(dst, plan, srcA, lda, srcB, ldb, limbCount, ldc, row, col)
    {
      assert CellExported(dst, p, plan.signed, plan.n, ldc, limbCount, row, col);
      FlattenedProduct(srcA, lda, srcB, ldb, plan.m, plan.k, plan.n, row, col);
    }
  }

  ghost predicate ExactCell(dst: seq<uint64>, plan: Plan, srcA: seq<int>, lda: nat, srcB: seq<int>, ldb: nat,
                            limbCount: nat, ldc: nat, row: nat, col: nat)
    requires Holds(|srcA|, plan.m, plan.k, lda) && Holds(|srcB|, plan.k, plan.n, ldb) && row < plan.m && col < plan.n
  {
    var start := WindowStart(row, col, ldc, limbCount);
    && start + limbCount <= |dst|
    && LimbValue(dst[start..start + limbCount], plan.signed)
      == Dot(RowOf(srcA, plan.m, row, lda, plan.k), ColOf(srcB, plan.k, plan.n, ldb, col), plan.k)
  }
}
