/** Range proofs for exact-wide products (`src/core/exact_range.hpp`): the summaries kept of a matrix's
    rows and columns, and the bound on every output cell that admission computes from them. */
module ExactRange {
  import opened IntMath
  import opened Vectors

  datatype AxisRange = AxisRange(maxMagnitude: int, absoluteSum: int, sum: int, minimum: int, maximum: int,
                                 deviationSum: int, sumKnown: bool)

  const EMPTY_AXIS := AxisRange(0, 0, 0, 0, 0, 0, false)

  /** `exact_axis_center`: the midpoint, rounded toward zero. */
  function Center(axis: AxisRange): int { TruncDiv(axis.minimum + axis.maximum, 2) }

  function DeviationMax(axis: AxisRange, center: int): nat
  {
    Max(Abs(axis.minimum - center), Abs(axis.maximum - center))
  }

  function Shift(x: seq<int>, center: int): (y: seq<int>)
    ensures |y| == |x|
  {
    seq(|x|, t requires 0 <= t < |x| => x[t] - center)
  }

  /** The magnitude part of a summary is an upper bound for the first `n` elements. */
  ghost predicate MagnitudesSound(axis: AxisRange, x: seq<int>, n: nat)
    requires n <= |x|
  {
    && (forall t :: 0 <= t < n ==> Abs(x[t]) <= axis.maxMagnitude)
    && AbsSum(x, n) <= axis.absoluteSum
    && 0 <= axis.maxMagnitude
  }

  /** A summary is sound for a vector: magnitudes are bounds, and a known sum is the exact sum. */
  ghost predicate AxisSound(axis: AxisRange, x: seq<int>)
  {
    && MagnitudesSound(axis, x, |x|)
    && (axis.sumKnown ==>
      && axis.sum == Sum(x, |x|)
      && (forall t :: 0 <= t < |x| ==> axis.minimum <= x[t] <= axis.maximum)
      && AbsSum(Shift(x, Center(axis)), |x|) <= axis.deviationSum)
  }

  /** `exact_axis_product_bound`, first part: three bounds from magnitudes alone. */
  function MagnitudeBound(k: nat, maxA: int, sumA: int, maxB: int, sumB: int): int
  {
    Min(Min(k * maxA * maxB, sumA * maxB), maxA * sumB)
  }

  /** `exact_axis_product_bound`. */
  function AxisProductBound(a: AxisRange, b: AxisRange, k: nat): int
  {
    var bound := MagnitudeBound(k, a.maxMagnitude, a.absoluteSum, b.maxMagnitude, b.absoluteSum);
    if a.sumKnown && b.sumKnown then
      var ca, cb := Center(a), Center(b);
      var remainder := MagnitudeBound(k, DeviationMax(a, ca), a.deviationSum, DeviationMax(b, cb), b.deviationSum);
      var centerTerm := ca * b.sum + cb * a.sum - k * ca * cb;
      Min(bound, Abs(centerTerm) + remainder)
    else bound
  }

  lemma MagnitudeBoundSound(x: seq<int>, y: seq<int>, maxX: nat, sumX: nat, maxY: nat, sumY: nat)
    requires |x| == |y|
    requires forall t :: 0 <= t < |x| ==> Abs(x[t]) <= maxX
    requires forall t :: 0 <= t < |y| ==> Abs(y[t]) <= maxY
    requires AbsSum(x, |x|) <= sumX && AbsSum(y, |y|) <= sumY
    ensures Abs(Dot(x, y, |x|)) <= MagnitudeBound(|x|, maxX, sumX, maxY, sumY)
  {
    var n := |x|;
    DotBySum(x, y, n, maxY);
    DotBySum(y, x, n, maxX);
    DotSym(x, y, n);
    AbsSumByMax(x, n, maxX);
    MulMono(AbsSum(x, n), sumX, maxY);
    MulMono(AbsSum(x, n), n * maxX, maxY);
    MulMono(AbsSum(y, n), sumY, maxX);
  }

  lemma {:induction false} SumShift(y: seq<int>, c: int, n: nat)
    requires n <= |y|
    ensures Sum(Shift(y, c), n) == Sum(y, n) - n * c
  {
    if n > 0 {
      SumShift(y, c, n - 1);
      assert n * c == (n - 1) * c + c;
    }
  }

  lemma {:induction false} DotShift(x: seq<int>, c: int, y: seq<int>, n: nat)
    requires n <= |x| && n <= |y|
    ensures Dot(Shift(x, c), y, n) == Dot(x, y, n) - c * Sum(y, n)
  {
    if n > 0 {
      DotShift(x, c, y, n - 1);
      var u, v := x[n - 1], y[n - 1];
      assert (u - c) * v == u * v - c * v;
      assert c * (Sum(y, n - 1) + v) == c * Sum(y, n - 1) + c * v;
    }
  }

  /** dot(x, y) = ca*sum(y) + cb*sum(x) - n*ca*cb + dot(x - ca, y - cb). */
  lemma CenteredDecomposition(x: seq<int>, y: seq<int>, ca: int, cb: int, n: nat)
    requires n <= |x| && n <= |y|
    ensures Dot(x, y, n) ==
      ca * Sum(y, n) + cb * Sum(x, n) - n * ca * cb + Dot(Shift(x, ca), Shift(y, cb), n)
  {
    DotShift(x, ca, Shift(y, cb), n);
    SumShift(y, cb, n);
    DotSym(x, Shift(y, cb), n);
    DotShift(y, cb, x, n);
    DotSym(x, y, n);
    Recombine(Dot(x, y, n), Dot(x, Shift(y, cb), n), Dot(Shift(x, ca), Shift(y, cb), n), Sum(x, n), Sum(y, n),
              Sum(Shift(y, cb), n), ca, cb, n);
  }

  /** The arithmetic of the decomposition, away from the vectors. */
  lemma Recombine(dot: int, half: int, rest: int, sumX: int, sumY: int, shifted: int, ca: int, cb: int, n: int)
    requires rest == half - ca * shifted && half == dot - cb * sumX && shifted == sumY - n * cb
    ensures dot == ca * sumY + cb * sumX - n * ca * cb + rest
  {
    var k := n * cb;
    assert ca * (sumY - k) == ca * sumY - ca * k;
    assert ca * (n * cb) == n * ca * cb;
  }

  /** Admission is sound: no vectors with these summaries have a larger dot product than the bound. */
  lemma AxisProductBoundSound(a: AxisRange, b: AxisRange, x: seq<int>, y: seq<int>)
    requires |x| == |y| && AxisSound(a, x) && AxisSound(b, y)
    ensures Abs(Dot(x, y, |x|)) <= AxisProductBound(a, b, |x|)
  {
    MagnitudeBoundSound(x, y, a.maxMagnitude, a.absoluteSum, b.maxMagnitude, b.absoluteSum);
    if a.sumKnown && b.sumKnown {
      var ca, cb := Center(a), Center(b);
      CenteredDecomposition(x, y, ca, cb, |x|);
      MagnitudeBoundSound(Shift(x, ca), Shift(y, cb), DeviationMax(a, ca), a.deviationSum,
                          DeviationMax(b, cb), b.deviationSum);
    }
  }

  /** `add_exact_native_value`. */
  function AddNativeValue(axis: AxisRange, value: int, first: bool): AxisRange
  {
    AxisRange(Max(axis.maxMagnitude, Abs(value)), axis.absoluteSum + Abs(value), axis.sum + value,
              if first then value else Min(axis.minimum, value),
              if first then value else Max(axis.maximum, value), axis.deviationSum, true)
  }

  /** The summary of the first `n` elements, one element at a time. */
  function Summary(x: seq<int>, n: nat): AxisRange
    requires n <= |x|
  {
    if n == 0 then EMPTY_AXIS else AddNativeValue(Summary(x, n - 1), x[n - 1], n == 1)
  }

  /** The finished summary of a packed vector: the first scan plus the L1 distance from its midpoint. */
  function NativeSummary(x: seq<int>, scanned: nat): AxisRange
    requires scanned <= |x|
  {
    var axis := Summary(x, |x|);
    axis.(deviationSum := AbsSum(Shift(x, Center(axis)), scanned))
  }

  lemma {:induction false} SummaryExact(x: seq<int>, n: nat)
    requires n <= |x|
    ensures var s := Summary(x, n);
      && s.absoluteSum == AbsSum(x, n) && s.sum == Sum(x, n) && s.deviationSum == 0
      && 0 <= s.maxMagnitude
      && (forall t :: 0 <= t < n ==> Abs(x[t]) <= s.maxMagnitude && s.minimum <= x[t] <= s.maximum)
      && (s.maxMagnitude > 0 ==> exists t :: 0 <= t < n && Abs(x[t]) == s.maxMagnitude)
      && s.sumKnown == (n > 0)
    ensures n > 0 ==> exists t :: 0 <= t < n && x[t] == Summary(x, n).minimum
    ensures n > 0 ==> exists t :: 0 <= t < n && x[t] == Summary(x, n).maximum
  {
    if n > 0 {
      SummaryExact(x, n - 1);
      var s, prior := Summary(x, n), Summary(x, n - 1);
      if s.maxMagnitude > 0 && prior.maxMagnitude < Abs(x[n - 1]) {
        assert Abs(x[n - 1]) == s.maxMagnitude;
      }
    }
  }

  lemma UnscannedSummary(x: seq<int>)
    ensures NativeSummary(x, 0) == Summary(x, |x|)
  {
    SummaryExact(x, |x|);
  }

  /** What packing records of a row or column is sound for it. */
  lemma NativeSummarySound(x: seq<int>)
    ensures AxisSound(NativeSummary(x, |x|), x)
  {
    SummaryExact(x, |x|);
  }

  // How tight the bound is.

  /** The center is the midpoint, to within a half. */
  lemma CenterIsMidpoint(axis: AxisRange)
    ensures Abs(2 * Center(axis) - (axis.minimum + axis.maximum)) <= 1
  {
  }

  /** No element is further from the center than half the spread, rounded up. */
  lemma DeviationIsHalfSpread(axis: AxisRange)
    requires axis.minimum <= axis.maximum
    ensures 2 * DeviationMax(axis, Center(axis)) <= axis.maximum - axis.minimum + 1
    ensures axis.minimum == axis.maximum ==> DeviationMax(axis, Center(axis)) == 0
  {
    CenterIsMidpoint(axis);
  }

  /** The bound is at most each of the three magnitude bounds. */
  lemma BoundBelowMagnitudes(a: AxisRange, b: AxisRange, k: nat)
    ensures AxisProductBound(a, b, k) <= k * a.maxMagnitude * b.maxMagnitude
    ensures AxisProductBound(a, b, k) <= a.absoluteSum * b.maxMagnitude
    ensures AxisProductBound(a, b, k) <= a.maxMagnitude * b.absoluteSum
  {
  }

  /** A finished summary of a nonempty vector: exact sum and deviations, attained extremes. */
  ghost predicate Measures(a: AxisRange, x: seq<int>)
  {
    && |x| > 0 && a.sumKnown && a.sum == Sum(x, |x|) && a.deviationSum == AbsSum(Shift(x, Center(a)), |x|)
    && (forall t :: 0 <= t < |x| ==> a.minimum <= x[t] <= a.maximum)
    && (exists t :: 0 <= t < |x| && x[t] == a.minimum) && (exists t :: 0 <= t < |x| && x[t] == a.maximum)
  }

  lemma NativeMeasures(x: seq<int>)
    requires |x| > 0
    ensures Measures(NativeSummary(x, |x|), x)
  {
    SummaryExact(x, |x|);
  }

  /** The three bounds on the product of the deviations, and the part of the dot product they leave. */
  ghost function Remainder(a: AxisRange, b: AxisRange, k: nat): int
  {
    var dx, dy := DeviationMax(a, Center(a)), DeviationMax(b, Center(b));
    Min(k * dx * dy, Min(a.deviationSum * dy, dx * b.deviationSum))
  }

  ghost function CenterTerm(a: AxisRange, b: AxisRange, k: nat): int
  {
    Center(a) * b.sum + Center(b) * a.sum - k * Center(a) * Center(b)
  }

  lemma BoundByCenters(a: AxisRange, b: AxisRange, k: nat)
    requires a.sumKnown && b.sumKnown
    ensures AxisProductBound(a, b, k) <= Abs(CenterTerm(a, b, k)) + Remainder(a, b, k)
  {
  }

  lemma DotSplits(a: AxisRange, b: AxisRange, x: seq<int>, y: seq<int>)
    requires |x| == |y| && Measures(a, x) && Measures(b, y)
    ensures Dot(x, y, |x|) == CenterTerm(a, b, |x|) + Dot(Shift(x, Center(a)), Shift(y, Center(b)), |x|)
  {
    CenteredDecomposition(x, y, Center(a), Center(b), |x|);
  }

  lemma DeviationsBound(a: AxisRange, x: seq<int>)
    requires Measures(a, x)
    ensures forall t :: 0 <= t < |x| ==> Abs(Shift(x, Center(a))[t]) <= DeviationMax(a, Center(a))
  {
  }

  lemma RestWithin(a: AxisRange, b: AxisRange, x: seq<int>, y: seq<int>)
    requires |x| == |y| && Measures(a, x) && Measures(b, y)
    ensures Abs(Dot(Shift(x, Center(a)), Shift(y, Center(b)), |x|)) <= Remainder(a, b, |x|)
  {
    DeviationsBound(a, x);
    DeviationsBound(b, y);
    MagnitudeBoundSound(Shift(x, Center(a)), Shift(y, Center(b)), DeviationMax(a, Center(a)), a.deviationSum,
                        DeviationMax(b, Center(b)), b.deviationSum);
  }

  lemma Nearness(bound: int, dot: int, term: int, rest: int, remainder: int)
    requires bound <= Abs(term) + remainder && dot == term + rest && Abs(rest) <= remainder
    ensures bound <= Abs(dot) + 2 * remainder
  {
  }

  /** The bound exceeds the dot product it bounds by at most twice the remainder. */
  lemma BoundNearDot(a: AxisRange, b: AxisRange, x: seq<int>, y: seq<int>)
    requires |x| == |y| && Measures(a, x) && Measures(b, y)
    ensures AxisProductBound(a, b, |x|) <= Abs(Dot(x, y, |x|)) + 2 * Remainder(a, b, |x|)
  {
    BoundByCenters(a, b, |x|);
    DotSplits(a, b, x, y);
    RestWithin(a, b, x, y);
    Nearness(AxisProductBound(a, b, |x|), Dot(x, y, |x|), CenterTerm(a, b, |x|),
             Dot(Shift(x, Center(a)), Shift(y, Center(b)), |x|), Remainder(a, b, |x|));
  }

  lemma RemainderBelow(a: AxisRange, b: AxisRange, k: nat)
    ensures var dx, dy := DeviationMax(a, Center(a)), DeviationMax(b, Center(b));
      && Remainder(a, b, k) <= k * dx * dy && Remainder(a, b, k) <= a.deviationSum * dy
      && Remainder(a, b, k) <= dx * b.deviationSum
  {
  }

  /** So by at most twice each of three bounds: from the largest deviations, or the sum of one and the largest of
      the other. */
  lemma AxisProductBoundTight(a: AxisRange, b: AxisRange, x: seq<int>, y: seq<int>)
    requires |x| == |y| && Measures(a, x) && Measures(b, y)
    ensures var bound, dot := AxisProductBound(a, b, |x|), Abs(Dot(x, y, |x|));
      var dx, dy := DeviationMax(a, Center(a)), DeviationMax(b, Center(b));
      && bound <= dot + 2 * (|x| * dx * dy)
      && bound <= dot + 2 * (AbsSum(Shift(x, Center(a)), |x|) * dy)
      && bound <= dot + 2 * (dx * AbsSum(Shift(y, Center(b)), |y|))
  {
    BoundNearDot(a, b, x, y);
    RemainderBelow(a, b, |x|);
  }

  lemma SpreadWithin(a: AxisRange, x: seq<int>, low: int, high: int)
    requires Measures(a, x) && forall t :: 0 <= t < |x| ==> low <= x[t] <= high
    ensures 2 * DeviationMax(a, Center(a)) <= high - low + 1
    ensures low == high ==> DeviationMax(a, Center(a)) == 0
  {
    DeviationIsHalfSpread(a);
  }

  lemma FourTimes(k: nat, dx: nat, dy: nat, wx: int, wy: int)
    requires 2 * dx <= wx && 2 * dy <= wy
    ensures 4 * (k * dx * dy) <= k * (wx * wy)
  {
    MulMono(2 * dx, wx, 2 * dy);
    MulMono(2 * dy, wy, wx);
    assert (2 * dx) * (2 * dy) == 4 * (dx * dy);
    MulMono(4 * (dx * dy), wx * wy, k);
    assert k * (4 * (dx * dy)) == 4 * (k * dx * dy);
  }

  /** Half of K times the product of the spreads is at least twice the remainder. */
  lemma RemainderWithinSpreads(a: AxisRange, b: AxisRange, x: seq<int>, y: seq<int>, lx: int, hx: int, ly: int, hy: int)
    requires |x| == |y| && Measures(a, x) && Measures(b, y)
    requires (forall t :: 0 <= t < |x| ==> lx <= x[t] <= hx) && (forall t :: 0 <= t < |y| ==> ly <= y[t] <= hy)
    ensures 4 * Remainder(a, b, |x|) <= |x| * ((hx - lx + 1) * (hy - ly + 1))
  {
    SpreadWithin(a, x, lx, hx);
    SpreadWithin(b, y, ly, hy);
    FourTimes(|x|, DeviationMax(a, Center(a)), DeviationMax(b, Center(b)), hx - lx + 1, hy - ly + 1);
    RemainderBelow(a, b, |x|);
  }

  /** In terms of the elements alone: the excess is at most half of K times the product of the spreads. */
  lemma BoundWithinSpreads(x: seq<int>, y: seq<int>, lx: int, hx: int, ly: int, hy: int)
    requires |x| == |y| > 0
    requires (forall t :: 0 <= t < |x| ==> lx <= x[t] <= hx) && (forall t :: 0 <= t < |y| ==> ly <= y[t] <= hy)
    ensures var bound := AxisProductBound(NativeSummary(x, |x|), NativeSummary(y, |y|), |x|);
      2 * bound <= 2 * Abs(Dot(x, y, |x|)) + |x| * ((hx - lx + 1) * (hy - ly + 1))
  {
    NativeMeasures(x);
    NativeMeasures(y);
    BoundNearSpreads(NativeSummary(x, |x|), NativeSummary(y, |y|), x, y, lx, hx, ly, hy);
  }

  lemma BoundNearSpreads(a: AxisRange, b: AxisRange, x: seq<int>, y: seq<int>, lx: int, hx: int, ly: int, hy: int)
    requires |x| == |y| && Measures(a, x) && Measures(b, y)
    requires (forall t :: 0 <= t < |x| ==> lx <= x[t] <= hx) && (forall t :: 0 <= t < |y| ==> ly <= y[t] <= hy)
    ensures 2 * AxisProductBound(a, b, |x|) <= 2 * Abs(Dot(x, y, |x|)) + |x| * ((hx - lx + 1) * (hy - ly + 1))
  {
    BoundNearDot(a, b, x, y);
    RemainderWithinSpreads(a, b, x, y, lx, hx, ly, hy);
  }

  /** If all elements of one vector are equal, the bound is the dot product. */
  lemma ConstantVectorExact(x: seq<int>, y: seq<int>)
    requires |x| == |y| > 0
    requires (forall t :: 0 <= t < |x| ==> x[t] == x[0]) || (forall t :: 0 <= t < |y| ==> y[t] == y[0])
    ensures AxisProductBound(NativeSummary(x, |x|), NativeSummary(y, |y|), |x|) == Abs(Dot(x, y, |x|))
  {
    NativeMeasures(x);
    NativeMeasures(y);
    NativeSummarySound(x);
    NativeSummarySound(y);
    AxisProductBoundSound(NativeSummary(x, |x|), NativeSummary(y, |y|), x, y);
    ConstantVectorBelow(NativeSummary(x, |x|), NativeSummary(y, |y|), x, y);
  }

  lemma ConstantVectorBelow(a: AxisRange, b: AxisRange, x: seq<int>, y: seq<int>)
    requires |x| == |y| && Measures(a, x) && Measures(b, y)
    requires (forall t :: 0 <= t < |x| ==> x[t] == x[0]) || (forall t :: 0 <= t < |y| ==> y[t] == y[0])
    ensures AxisProductBound(a, b, |x|) <= Abs(Dot(x, y, |x|))
  {
    BoundNearDot(a, b, x, y);
    if forall t :: 0 <= t < |x| ==> x[t] == x[0] {
      SpreadWithin(a, x, x[0], x[0]);
    } else {
      SpreadWithin(b, y, y[0], y[0]);
    }
    NoRemainder(a, b, |x|);
  }

  lemma NoRemainder(a: AxisRange, b: AxisRange, k: nat)
    requires DeviationMax(a, Center(a)) == 0 || DeviationMax(b, Center(b)) == 0
    ensures Remainder(a, b, k) <= 0
  {
    RemainderBelow(a, b, k);
  }

  /** The summaries packing records of the rows and columns of a strided source. */
  function NativeRows(src: seq<int>, rows: nat, cols: nat, ld: nat): seq<AxisRange>
    requires Holds(|src|, rows, cols, ld)
  {
    seq(rows, r requires 0 <= r < rows => NativeSummary(RowOf(src, rows, r, ld, cols), cols))
  }

  function NativeCols(src: seq<int>, rows: nat, cols: nat, ld: nat): seq<AxisRange>
    requires Holds(|src|, rows, cols, ld)
  {
    seq(cols, c requires 0 <= c < cols => NativeSummary(ColOf(src, rows, cols, ld, c), rows))
  }

  /** `native_exact_ranges`: two scans of a strided source fill every row and column summary. */
  method NativeExactRanges(src: seq<int>, rows: nat, cols: nat, ld: nat)
      returns (rowRanges: seq<AxisRange>, colRanges: seq<AxisRange>, maximum: int)
    requires Holds(|src|, rows, cols, ld)
    ensures |rowRanges| == rows && |colRanges| == cols
    ensures forall r :: 0 <= r < rows ==> rowRanges[r] == NativeSummary(RowOf(src, rows, r, ld, cols), cols)
    ensures forall c :: 0 <= c < cols ==> colRanges[c] == NativeSummary(ColOf(src, rows, cols, ld, c), rows)
    ensures LargestOf(rowRanges, rows, maximum)
  {
    rowRanges, colRanges, maximum := FirstScan(src, rows, cols, ld);
    ghost var first := rowRanges;
    forall r | 0 <= r < rows
      ensures rowRanges[r] == NativeSummary(RowOf(src, rows, r, ld, cols), 0)
    {
      UnscannedSummary(RowOf(src, rows, r, ld, cols));
    }
    forall c | 0 <= c < cols
      ensures colRanges[c] == NativeSummary(ColOf(src, rows, cols, ld, c), 0)
    {
      UnscannedSummary(ColOf(src, rows, cols, ld, c));
    }
    for row := 0 to rows
      invariant |rowRanges| == rows && |colRanges| == cols
      invariant forall r :: 0 <= r < rows ==>
        rowRanges[r] == NativeSummary(RowOf(src, rows, r, ld, cols), if r < row then cols else 0)
      invariant forall c :: 0 <= c < cols ==>
        colRanges[c] == NativeSummary(ColOf(src, rows, cols, ld, c), row)
    {
      rowRanges, colRanges := ScanDeviations(src, rows, cols, ld, row, rowRanges, colRanges);
    }
    assert forall r :: 0 <= r < rows ==> rowRanges[r].maxMagnitude == first[r].maxMagnitude;
  }

  /** The state of the first scan after `row` rows. */
  ghost predicate Scanned(rs: seq<AxisRange>, cs: seq<AxisRange>, src: seq<int>, rows: nat, cols: nat, ld: nat,
                          row: nat)
    requires Holds(|src|, rows, cols, ld) && row <= rows
  {
    && |rs| == rows && |cs| == cols
    && (forall r :: 0 <= r < row ==> rs[r] == Summary(RowOf(src, rows, r, ld, cols), cols))
    && (forall r :: row <= r < rows ==> rs[r] == EMPTY_AXIS)
    && (forall c :: 0 <= c < cols ==> cs[c] == Summary(ColOf(src, rows, cols, ld, c), row))
  }

  lemma ScannedStart(rs: seq<AxisRange>, cs: seq<AxisRange>, src: seq<int>, rows: nat, cols: nat, ld: nat)
    requires Holds(|src|, rows, cols, ld) && |rs| == rows && |cs| == cols
    requires (forall r :: 0 <= r < rows ==> rs[r] == EMPTY_AXIS) && (forall c :: 0 <= c < cols ==> cs[c] == EMPTY_AXIS)
    ensures Scanned(rs, cs, src, rows, cols, ld, 0)
  {
  }

  lemma ScannedNext(rs0: seq<AxisRange>, rs: seq<AxisRange>, cs0: seq<AxisRange>, cs: seq<AxisRange>, src: seq<int>,
                    rows: nat, cols: nat, ld: nat, row: nat)
    requires Holds(|src|, rows, cols, ld) && row < rows && Scanned(rs0, cs0, src, rows, cols, ld, row)
    requires rs == rs0[row := Summary(RowOf(src, rows, row, ld, cols), cols)] && |cs| == cols
    requires forall c :: 0 <= c < cols ==> cs[c] == Summary(ColOf(src, rows, cols, ld, c), row + 1)
    ensures Scanned(rs, cs, src, rows, cols, ld, row + 1)
  {
  }

  /** `maximum` is the largest magnitude of the first `n` summaries, or 0. */
  ghost predicate LargestOf(rs: seq<AxisRange>, n: nat, maximum: int)
    requires n <= |rs|
  {
    && 0 <= maximum && (forall r :: 0 <= r < n ==> rs[r].maxMagnitude <= maximum)
    && (maximum > 0 ==> exists r :: 0 <= r < n && rs[r].maxMagnitude == maximum)
  }

  lemma LargestNext(rs0: seq<AxisRange>, rs: seq<AxisRange>, n: nat, maximum: int)
    requires n < |rs| == |rs0| && LargestOf(rs0, n, maximum) && forall r :: 0 <= r < n ==> rs[r] == rs0[r]
    ensures LargestOf(rs, n + 1, Max(maximum, rs[n].maxMagnitude))
  {
    if maximum > 0 {
      var r :| 0 <= r < n && rs0[r].maxMagnitude == maximum;
      assert rs[r].maxMagnitude == maximum;
    }
    assert rs[n].maxMagnitude <= Max(maximum, rs[n].maxMagnitude);
  }

  method FirstScan(src: seq<int>, rows: nat, cols: nat, ld: nat)
      returns (rs: seq<AxisRange>, cs: seq<AxisRange>, maximum: int)
    requires Holds(|src|, rows, cols, ld)
    ensures Scanned(rs, cs, src, rows, cols, ld, rows) && LargestOf(rs, rows, maximum)
  {
    rs, cs, maximum := seq(rows, _ => EMPTY_AXIS), seq(cols, _ => EMPTY_AXIS), 0;
    ScannedStart(rs, cs, src, rows, cols, ld);
    for row := 0 to rows
      invariant Scanned(rs, cs, src, rows, cols, ld, row) && LargestOf(rs, row, maximum)
    {
      rs, cs, maximum := ScanNext(src, rows, cols, ld, row, rs, cs, maximum);
    }
  }

  method ScanNext(src: seq<int>, rows: nat, cols: nat, ld: nat, row: nat, rs0: seq<AxisRange>, cs0: seq<AxisRange>,
                  maximum0: int)
      returns (rs: seq<AxisRange>, cs: seq<AxisRange>, maximum: int)
    requires Holds(|src|, rows, cols, ld) && row < rows
    requires Scanned(rs0, cs0, src, rows, cols, ld, row) && LargestOf(rs0, row, maximum0)
    ensures Scanned(rs, cs, src, rows, cols, ld, row + 1) && LargestOf(rs, row + 1, maximum)
  {
    rs, cs := ScanRow(src, rows, cols, ld, row, rs0, cs0);
    maximum := Max(maximum0, rs[row].maxMagnitude);
    LargestNext(rs0, rs, row, maximum0);
  }

  method ScanRow(src: seq<int>, rows: nat, cols: nat, ld: nat, row: nat, rs0: seq<AxisRange>, cs0: seq<AxisRange>)
      returns (rs: seq<AxisRange>, cs: seq<AxisRange>)
    requires Holds(|src|, rows, cols, ld) && row < rows && Scanned(rs0, cs0, src, rows, cols, ld, row)
    ensures Scanned(rs, cs, src, rows, cols, ld, row + 1)
    ensures forall r :: 0 <= r < row ==> rs[r] == rs0[r]
  {
    rs, cs := rs0, cs0;
    ghost var x := RowOf(src, rows, row, ld, cols);
    for col := 0 to cols
      invariant rs == rs0[row := Summary(x, col)] && |cs| == cols
      invariant forall c :: 0 <= c < cols ==>
        cs[c] == Summary(ColOf(src, rows, cols, ld, c), if c < col then row + 1 else row)
    {
      var value := ElementAt(src, rows, cols, ld, row, col);
      assert x[col] == value && ColOf(src, rows, cols, ld, col)[row] == value;
      rs := rs[row := AddNativeValue(rs[row], value, col == 0)];
      cs := cs[col := AddNativeValue(cs[col], value, row == 0)];
    }
    ScannedNext(rs0, rs, cs0, cs, src, rows, cols, ld, row);
  }

  method ScanDeviations(src: seq<int>, rows: nat, cols: nat, ld: nat, row: nat, rs0: seq<AxisRange>,
                        cs0: seq<AxisRange>)
      returns (rs: seq<AxisRange>, cs: seq<AxisRange>)
    requires Holds(|src|, rows, cols, ld) && row < rows && |rs0| == rows && |cs0| == cols
    requires rs0[row] == NativeSummary(RowOf(src, rows, row, ld, cols), 0)
    requires forall c :: 0 <= c < cols ==> cs0[c] == NativeSummary(ColOf(src, rows, cols, ld, c), row)
    ensures rs == rs0[row := NativeSummary(RowOf(src, rows, row, ld, cols), cols)]
    ensures |cs| == cols
    ensures forall c :: 0 <= c < cols ==> cs[c] == NativeSummary(ColOf(src, rows, cols, ld, c), row + 1)
  {
    rs, cs := rs0, cs0;
    ghost var x := RowOf(src, rows, row, ld, cols);
    var rowCenter := Center(rs[row]);
    for col := 0 to cols
      invariant rs == rs0[row := NativeSummary(x, col)] && |cs| == cols
      invariant forall c :: 0 <= c < cols ==>
        cs[c] == NativeSummary(ColOf(src, rows, cols, ld, c), if c < col then row + 1 else row)
    {
      var value := ElementAt(src, rows, cols, ld, row, col);
      assert x[col] == value && ColOf(src, rows, cols, ld, col)[row] == value;
      rs := rs[row := rs[row].(deviationSum := rs[row].deviationSum + Abs(value - rowCenter))];
      cs := cs[col := cs[col].(deviationSum := cs[col].deviationSum + Abs(value - Center(cs[col])))];
    }
  }

  /** `uniform_exact_axis`. */
  function UniformAxis(maximum: int, length: nat): AxisRange
  {
    EMPTY_AXIS.(maxMagnitude := maximum, absoluteSum := length * maximum)
  }

  lemma UniformAxisSound(maximum: nat, x: seq<int>)
    requires forall t :: 0 <= t < |x| ==> Abs(x[t]) <= maximum
    ensures AxisSound(UniformAxis(maximum, |x|), x)
  {
    AbsSumByMax(x, |x|, maximum);
  }

  /** The product of two packed matrices, as one row-major sequence. */
  ghost function MatrixProduct(a: seq<int>, b: seq<int>, m: nat, k: nat, n: nat): (c: seq<int>)
    requires |a| == m * k && |b| == k * n
    ensures |c| == m * n && Holds(|c|, m, n, n)
    ensures Holds(|a|, m, k, k) && Holds(|b|, k, n, n)
    ensures forall row, col :: 0 <= row < m && 0 <= col < n ==>
      ElementAt(c, m, n, n, row, col) == ProductCell(a, b, m, k, n, row, col)
  {
    PackedHolds(m, k);
    PackedHolds(k, n);
    PackedHolds(m, n);
    var c := seq(m * n, i requires 0 <= i < m * n => CellFromFlat(m, n, i); ProductCell(a, b, m, k, n, i / n, i % n));
    assert forall row, col :: 0 <= row < m && 0 <= col < n ==>
        ElementAt(c, m, n, n, row, col) == ProductCell(a, b, m, k, n, row, col) by {
      forall row, col | 0 <= row < m && 0 <= col < n
        ensures ElementAt(c, m, n, n, row, col) == ProductCell(a, b, m, k, n, row, col)
      {
        RowInBounds(m * n, m, n, n, row);
        DivModUnique(Cell(row, n, col), row, col, n);
      }
    }
    c
  }

  lemma PackedHolds(m: nat, n: nat)
    ensures Holds(m * n, m, n, n)
  {
    if m > 0 {
      assert (m - 1) * n + n == m * n;
    }
  }

  lemma CellFromFlat(m: nat, n: nat, i: nat)
    requires i < m * n
    ensures n > 0 && 0 <= i / n < m && 0 <= i % n < n && i == Cell(i / n, n, i % n)
  {
    MulCancel(0, n, m);
    assert i == (i / n) * n + i % n;
    MulCancel(i / n, m, n);
  }

  ghost predicate RowsSound(ranges: seq<AxisRange>, v: seq<int>, m: nat, k: nat)
    requires |v| == m * k
  {
    |ranges| == m ==> Holds(|v|, m, k, k) && forall r :: 0 <= r < m ==> AxisSound(ranges[r], RowOf(v, m, r, k, k))
  }

  ghost predicate ColsSound(ranges: seq<AxisRange>, v: seq<int>, m: nat, k: nat)
    requires |v| == m * k
  {
    |ranges| == k ==> Holds(|v|, m, k, k) && forall c :: 0 <= c < k ==> AxisSound(ranges[c], ColOf(v, m, k, k, c))
  }

  ghost predicate BoundedBy(v: seq<int>, maximum: int)
  {
    0 <= maximum && forall i :: 0 <= i < |v| ==> Abs(v[i]) <= maximum
  }

  /** The bound is the largest magnitude of a vector, or 0 for an empty one. */
  ghost predicate Attained(v: seq<int>, maximum: int)
  {
    BoundedBy(v, maximum) && (maximum > 0 ==> exists i :: 0 <= i < |v| && Abs(v[i]) == maximum)
  }

  /** The largest magnitude among the first `n` elements. */
  function LargestMagnitude(v: seq<int>, n: nat): nat
    requires n <= |v|
  {
    if n == 0 then 0 else Max(LargestMagnitude(v, n - 1), Abs(v[n - 1]))
  }

  lemma {:induction false} LargestMagnitudeIsLargest(v: seq<int>, n: nat)
    requires n <= |v|
    ensures forall i :: 0 <= i < n ==> Abs(v[i]) <= LargestMagnitude(v, n)
    ensures LargestMagnitude(v, n) > 0 ==> exists i :: 0 <= i < n && Abs(v[i]) == LargestMagnitude(v, n)
  {
    if n > 0 {
      LargestMagnitudeIsLargest(v, n - 1);
      assert Abs(v[n - 1]) <= LargestMagnitude(v, n);
    }
  }

  /** An attained bound is the largest magnitude. */
  lemma AttainedIsLargest(v: seq<int>, maximum: int)
    requires Attained(v, maximum)
    ensures maximum == LargestMagnitude(v, |v|)
  {
    LargestMagnitudeIsLargest(v, |v|);
  }

  /** The summary an output cell's bound is computed from: the recorded one, or the uniform fallback. */
  function AxisOrUniform(ranges: seq<AxisRange>, count: nat, i: nat, maximum: int, k: nat): AxisRange
    requires i < count
  {
    if |ranges| == count then ranges[i] else UniformAxis(maximum, k)
  }

  /** The bound admission assigns to one output cell. */
  function CellBound(aMax: int, aRows: seq<AxisRange>, bMax: int, bCols: seq<AxisRange>, m: nat, k: nat, n: nat,
                     row: nat, col: nat): int
    requires row < m && col < n
  {
    AxisProductBound(AxisOrUniform(aRows, m, row, aMax, k), AxisOrUniform(bCols, n, col, bMax, k), k)
  }

  /** The largest bound among the first `cols` cells of a row, and among all cells of the first `rows` rows. */
  function LargestInRow(aMax: int, aRows: seq<AxisRange>, bMax: int, bCols: seq<AxisRange>, m: nat, k: nat, n: nat,
                        row: nat, cols: nat): int
    requires row < m && cols <= n
  {
    if cols == 0 then 0
    else
      Max(LargestInRow(aMax, aRows, bMax, bCols, m, k, n, row, cols - 1),
          CellBound(aMax, aRows, bMax, bCols, m, k, n, row, cols - 1))
  }

  function LargestCell(aMax: int, aRows: seq<AxisRange>, bMax: int, bCols: seq<AxisRange>, m: nat, k: nat, n: nat,
                       rows: nat): int
    requires rows <= m
  {
    if rows == 0 then 0
    else
      Max(LargestCell(aMax, aRows, bMax, bCols, m, k, n, rows - 1),
          LargestInRow(aMax, aRows, bMax, bCols, m, k, n, rows - 1, n))
  }

  /** The bound admission assigns to a whole product: the scalar one, or the largest cell bound if some
      operand has summaries and that is smaller. */
  function GemmBound(aMax: int, aRows: seq<AxisRange>, bMax: int, bCols: seq<AxisRange>, m: nat, k: nat, n: nat): int
  {
    var scalar := k * aMax * bMax;
    if |aRows| == m || |bCols| == n then Min(scalar, LargestCell(aMax, aRows, bMax, bCols, m, k, n, m)) else scalar
  }

  lemma {:induction false} RowLargestIsLargest(aMax: int, aRows: seq<AxisRange>, bMax: int, bCols: seq<AxisRange>,
                                               m: nat, k: nat, n: nat, row: nat, cols: nat)
    requires row < m && cols <= n
    ensures var largest := LargestInRow(aMax, aRows, bMax, bCols, m, k, n, row, cols);
      && 0 <= largest
      && (forall c :: 0 <= c < cols ==> CellBound(aMax, aRows, bMax, bCols, m, k, n, row, c) <= largest)
      && (largest > 0 ==> exists c :: 0 <= c < cols && CellBound(aMax, aRows, bMax, bCols, m, k, n, row, c) == largest)
  {
    if cols > 0 {
      RowLargestIsLargest(aMax, aRows, bMax, bCols, m, k, n, row, cols - 1);
      assert CellBound(aMax, aRows, bMax, bCols, m, k, n, row, cols - 1)
        <= LargestInRow(aMax, aRows, bMax, bCols, m, k, n, row, cols);
    }
  }

  /** No cell bound exceeds the largest, and a positive largest is some cell's. */
  lemma {:induction false} LargestCellIsLargest(aMax: int, aRows: seq<AxisRange>, bMax: int, bCols: seq<AxisRange>,
                                                m: nat, k: nat, n: nat, rows: nat)
    requires rows <= m
    ensures var largest := LargestCell(aMax, aRows, bMax, bCols, m, k, n, rows);
      && 0 <= largest
      && (forall r, c :: 0 <= r < rows && 0 <= c < n ==> CellBound(aMax, aRows, bMax, bCols, m, k, n, r, c) <= largest)
      && (largest > 0 ==>
        exists r, c :: 0 <= r < rows && 0 <= c < n && CellBound(aMax, aRows, bMax, bCols, m, k, n, r, c) == largest)
  {
    if rows > 0 {
      LargestCellIsLargest(aMax, aRows, bMax, bCols, m, k, n, rows - 1);
      RowLargestIsLargest(aMax, aRows, bMax, bCols, m, k, n, rows - 1, n);
    }
  }

  lemma CellBoundSound(a: seq<int>, aMax: int, aRows: seq<AxisRange>, b: seq<int>, bMax: int,
                       bCols: seq<AxisRange>, m: nat, k: nat, n: nat, row: nat, col: nat)
    requires |a| == m * k && |b| == k * n && row < m && col < n
    requires BoundedBy(a, aMax) && BoundedBy(b, bMax) && RowsSound(aRows, a, m, k) && ColsSound(bCols, b, k, n)
    ensures Holds(|a|, m, k, k) && Holds(|b|, k, n, n)
    ensures Abs(ProductCell(a, b, m, k, n, row, col)) <= CellBound(aMax, aRows, bMax, bCols, m, k, n, row, col)
    ensures Abs(ProductCell(a, b, m, k, n, row, col)) <= k * aMax * bMax
  {
    PackedHolds(m, k);
    PackedHolds(k, n);
    var x, y := RowOf(a, m, row, k, k), ColOf(b, k, n, n, col);
    UniformAxisSound(aMax, x);
    UniformAxisSound(bMax, y);
    AxisProductBoundSound(UniformAxis(aMax, k), UniformAxis(bMax, k), x, y);
    AxisProductBoundSound(AxisOrUniform(aRows, m, row, aMax, k), AxisOrUniform(bCols, n, col, bMax, k), x, y);
  }

  function GrowMagnitude(axis: AxisRange, bound: int): AxisRange
  {
    axis.(maxMagnitude := Max(axis.maxMagnitude, bound), absoluteSum := axis.absoluteSum + bound)
  }

  /** An output summary after `n` elements: bounds only, because an output's exact sum is not known. */
  ghost predicate OutputSummary(axis: AxisRange, x: seq<int>, n: nat)
    requires n <= |x|
  {
    !axis.sumKnown && MagnitudesSound(axis, x, n)
  }

  lemma GrowSound(axis: AxisRange, x: seq<int>, n: nat, bound: int)
    requires n < |x| && OutputSummary(axis, x, n) && Abs(x[n]) <= bound
    ensures OutputSummary(GrowMagnitude(axis, bound), x, n + 1)
  {
  }

  /** Every cell of `p` respects the bound admission assigns to it. */
  ghost predicate CellsWithin(p: seq<int>, aMax: int, aRows: seq<AxisRange>, bMax: int, bCols: seq<AxisRange>, m: nat,
                              k: nat, n: nat)
    requires Holds(|p|, m, n, n)
  {
    forall r, c :: 0 <= r < m && 0 <= c < n ==>
      Abs(ElementAt(p, m, n, n, r, c)) <= CellBound(aMax, aRows, bMax, bCols, m, k, n, r, c)
  }

  /** The summary recorded of output row `row` after its first `cols` cells, and of output column `col` after the
      first `rows` rows. */
  function OutputRow(aMax: int, aRows: seq<AxisRange>, bMax: int, bCols: seq<AxisRange>, m: nat, k: nat, n: nat,
                     row: nat, cols: nat): AxisRange
    requires row < m && cols <= n
  {
    if cols == 0 then EMPTY_AXIS
    else
      GrowMagnitude(OutputRow(aMax, aRows, bMax, bCols, m, k, n, row, cols - 1),
                    CellBound(aMax, aRows, bMax, bCols, m, k, n, row, cols - 1))
  }

  function OutputCol(aMax: int, aRows: seq<AxisRange>, bMax: int, bCols: seq<AxisRange>, m: nat, k: nat, n: nat,
                     col: nat, rows: nat): AxisRange
    requires col < n && rows <= m
  {
    if rows == 0 then EMPTY_AXIS
    else
      GrowMagnitude(OutputCol(aMax, aRows, bMax, bCols, m, k, n, col, rows - 1),
                    CellBound(aMax, aRows, bMax, bCols, m, k, n, rows - 1, col))
  }

  /** The summaries a product's output gets: none when neither operand has any. */
  function OutputRows(aMax: int, aRows: seq<AxisRange>, bMax: int, bCols: seq<AxisRange>, m: nat, k: nat, n: nat):
      seq<AxisRange>
  {
    if |aRows| == m || |bCols| == n then
      seq(m, r requires 0 <= r < m => OutputRow(aMax, aRows, bMax, bCols, m, k, n, r, n))
    else []
  }

  function OutputCols(aMax: int, aRows: seq<AxisRange>, bMax: int, bCols: seq<AxisRange>, m: nat, k: nat, n: nat):
      seq<AxisRange>
  {
    if |aRows| == m || |bCols| == n then
      seq(n, c requires 0 <= c < n => OutputCol(aMax, aRows, bMax, bCols, m, k, n, c, m))
    else []
  }

  /** The bound loop in the middle of row `row`: the columns before `col` include it, the others do not yet. */
  predicate ColumnsRecorded(aMax: int, aRows: seq<AxisRange>, bMax: int, bCols: seq<AxisRange>, m: nat, k: nat, n: nat,
                            cols: seq<AxisRange>, row: nat, col: nat)
    requires row < m
  {
    |cols| == n && forall c :: 0 <= c < n ==>
      cols[c] == OutputCol(aMax, aRows, bMax, bCols, m, k, n, c, if c < col then row + 1 else row)
  }

  /** One row of the bound loop: the largest bound, the row's own summary and every column's. */
  method BoundRow(aMax: int, aRows: seq<AxisRange>, bMax: int, bCols: seq<AxisRange>, m: nat, k: nat, n: nat,
                  row: nat, maximum0: int, cols0: seq<AxisRange>)
      returns (maximum: int, rowRange: AxisRange, cols: seq<AxisRange>)
    requires row < m && 0 <= maximum0 && ColumnsRecorded(aMax, aRows, bMax, bCols, m, k, n, cols0, row, 0)
    ensures maximum == Max(maximum0, LargestInRow(aMax, aRows, bMax, bCols, m, k, n, row, n))
    ensures rowRange == OutputRow(aMax, aRows, bMax, bCols, m, k, n, row, n)
    ensures ColumnsRecorded(aMax, aRows, bMax, bCols, m, k, n, cols, row, n)
  {
    maximum, rowRange, cols := maximum0, EMPTY_AXIS, cols0;
    for col := 0 to n
      invariant maximum == Max(maximum0, LargestInRow(aMax, aRows, bMax, bCols, m, k, n, row, col))
      invariant rowRange == OutputRow(aMax, aRows, bMax, bCols, m, k, n, row, col)
      invariant ColumnsRecorded(aMax, aRows, bMax, bCols, m, k, n, cols, row, col)
    {
      var bound := CellBound(aMax, aRows, bMax, bCols, m, k, n, row, col);
      maximum := Max(maximum, bound);
      rowRange := GrowMagnitude(rowRange, bound);
      cols := cols[col := GrowMagnitude(cols[col], bound)];
    }
  }

  /** The bound loop over all output rows. */
  method SummaryBounds(aMax: int, aRows: seq<AxisRange>, bMax: int, bCols: seq<AxisRange>, m: nat, k: nat, n: nat)
      returns (maximum: int, rowRanges: seq<AxisRange>, colRanges: seq<AxisRange>)
    requires 0 < m
    ensures maximum == LargestCell(aMax, aRows, bMax, bCols, m, k, n, m) && |rowRanges| == m && |colRanges| == n
    ensures forall r :: 0 <= r < m ==> rowRanges[r] == OutputRow(aMax, aRows, bMax, bCols, m, k, n, r, n)
    ensures forall c :: 0 <= c < n ==> colRanges[c] == OutputCol(aMax, aRows, bMax, bCols, m, k, n, c, m)
  {
    maximum, rowRanges, colRanges := 0, [], seq(n, _ => EMPTY_AXIS);
    for row := 0 to m
      invariant 0 <= maximum == LargestCell(aMax, aRows, bMax, bCols, m, k, n, row) && |rowRanges| == row && |colRanges| == n
      invariant forall r :: 0 <= r < row ==> rowRanges[r] == OutputRow(aMax, aRows, bMax, bCols, m, k, n, r, n)
      invariant forall c :: 0 <= c < n ==> colRanges[c] == OutputCol(aMax, aRows, bMax, bCols, m, k, n, c, row)
    {
      var rowRange;
      maximum, rowRange, colRanges := BoundRow(aMax, aRows, bMax, bCols, m, k, n, row, maximum, colRanges);
      rowRanges := rowRanges + [rowRange];
    }
  }

  /** The recorded summaries are sound for any output whose cells respect their cell bounds. */
  lemma {:induction false} OutputRowSound(p: seq<int>, aMax: int, aRows: seq<AxisRange>, bMax: int,
                                          bCols: seq<AxisRange>, m: nat, k: nat, n: nat,
                                          row: nat, cols: nat)
    requires Holds(|p|, m, n, n) && CellsWithin(p, aMax, aRows, bMax, bCols, m, k, n) && row < m && cols <= n
    ensures OutputSummary(OutputRow(aMax, aRows, bMax, bCols, m, k, n, row, cols), RowOf(p, m, row, n, n), cols)
  {
    if cols > 0 {
      OutputRowSound(p, aMax, aRows, bMax, bCols, m, k, n, row, cols - 1);
      var bound := CellBound(aMax, aRows, bMax, bCols, m, k, n, row, cols - 1);
      assert Abs(ElementAt(p, m, n, n, row, cols - 1)) <= bound;
      GrowSound(OutputRow(aMax, aRows, bMax, bCols, m, k, n, row, cols - 1), RowOf(p, m, row, n, n), cols - 1, bound);
    }
  }

  lemma {:induction false} OutputColSound(p: seq<int>, aMax: int, aRows: seq<AxisRange>, bMax: int,
                                          bCols: seq<AxisRange>, m: nat, k: nat, n: nat,
                                          col: nat, rows: nat)
    requires Holds(|p|, m, n, n) && CellsWithin(p, aMax, aRows, bMax, bCols, m, k, n) && col < n && rows <= m
    ensures OutputSummary(OutputCol(aMax, aRows, bMax, bCols, m, k, n, col, rows), ColOf(p, m, n, n, col), rows)
  {
    if rows > 0 {
      OutputColSound(p, aMax, aRows, bMax, bCols, m, k, n, col, rows - 1);
      var bound := CellBound(aMax, aRows, bMax, bCols, m, k, n, rows - 1, col);
      assert Abs(ElementAt(p, m, n, n, rows - 1, col)) <= bound;
      GrowSound(OutputCol(aMax, aRows, bMax, bCols, m, k, n, col, rows - 1), ColOf(p, m, n, n, col), rows - 1, bound);
    }
  }

  lemma OutputSummariesSound(p: seq<int>, aMax: int, aRows: seq<AxisRange>, bMax: int, bCols: seq<AxisRange>, m: nat,
                             k: nat, n: nat)
    requires |p| == m * n && Holds(|p|, m, n, n) && CellsWithin(p, aMax, aRows, bMax, bCols, m, k, n)
    ensures RowsSound(OutputRows(aMax, aRows, bMax, bCols, m, k, n), p, m, n)
    ensures ColsSound(OutputCols(aMax, aRows, bMax, bCols, m, k, n), p, m, n)
  {
    if |aRows| == m || |bCols| == n {
      forall r | 0 <= r < m
        ensures AxisSound(OutputRow(aMax, aRows, bMax, bCols, m, k, n, r, n), RowOf(p, m, r, n, n))
      {
        OutputRowSound(p, aMax, aRows, bMax, bCols, m, k, n, r, n);
      }
      forall c | 0 <= c < n
        ensures AxisSound(OutputCol(aMax, aRows, bMax, bCols, m, k, n, c, m), ColOf(p, m, n, n, c))
      {
        OutputColSound(p, aMax, aRows, bMax, bCols, m, k, n, c, m);
      }
    }
  }

  /** No cell exceeds the largest cell bound. */
  lemma WithinLargest(p: seq<int>, aMax: int, aRows: seq<AxisRange>, bMax: int, bCols: seq<AxisRange>, m: nat, k: nat,
                      n: nat)
    requires |p| == m * n && Holds(|p|, m, n, n) && CellsWithin(p, aMax, aRows, bMax, bCols, m, k, n)
    ensures BoundedBy(p, LargestCell(aMax, aRows, bMax, bCols, m, k, n, m))
  {
    LargestCellIsLargest(aMax, aRows, bMax, bCols, m, k, n, m);
    CellsBounded(p, m, n, LargestCell(aMax, aRows, bMax, bCols, m, k, n, m));
  }

  lemma CellsBounded(p: seq<int>, m: nat, n: nat, maximum: int)
    requires |p| == m * n && Holds(|p|, m, n, n) && 0 <= maximum
    requires forall r, c :: 0 <= r < m && 0 <= c < n ==> Abs(ElementAt(p, m, n, n, r, c)) <= maximum
    ensures BoundedBy(p, maximum)
  {
    forall i | 0 <= i < |p|
      ensures Abs(p[i]) <= maximum
    {
      CellFromFlat(m, n, i);
      assert p[i] == ElementAt(p, m, n, n, i / n, i % n);
    }
  }

  /** `exact_gemm_bound`: the bound is the smaller of the scalar one and the largest cell bound, no output cell
      exceeds it, and the output summaries are sound for the product. */
  method ExactGemmBound(aMax: int, aRows: seq<AxisRange>, bMax: int, bCols: seq<AxisRange>, m: nat, k: nat, n: nat,
                        ghost a: seq<int>, ghost b: seq<int>)
      returns (bound: int, rowRanges: seq<AxisRange>, colRanges: seq<AxisRange>)
    requires 0 < m && 0 < n && |a| == m * k && |b| == k * n
    requires BoundedBy(a, aMax) && BoundedBy(b, bMax) && RowsSound(aRows, a, m, k) && ColsSound(bCols, b, k, n)
    ensures BoundedBy(MatrixProduct(a, b, m, k, n), bound) && bound <= k * aMax * bMax
    ensures bound == GemmBound(aMax, aRows, bMax, bCols, m, k, n)
    ensures rowRanges == OutputRows(aMax, aRows, bMax, bCols, m, k, n)
    ensures colRanges == OutputCols(aMax, aRows, bMax, bCols, m, k, n)
    ensures RowsSound(rowRanges, MatrixProduct(a, b, m, k, n), m, n)
    ensures ColsSound(colRanges, MatrixProduct(a, b, m, k, n), m, n)
  {
    bound, rowRanges, colRanges := ComputeBound(aMax, aRows, bMax, bCols, m, k, n);
    ProductCellsWithin(a, b, aMax, aRows, bMax, bCols, m, k, n);
    GemmBoundSound(MatrixProduct(a, b, m, k, n), aMax, aRows, bMax, bCols, m, k, n);
    OutputSummariesSound(MatrixProduct(a, b, m, k, n), aMax, aRows, bMax, bCols, m, k, n);
  }

  /** What the loop computes. */
  method ComputeBound(aMax: int, aRows: seq<AxisRange>, bMax: int, bCols: seq<AxisRange>, m: nat, k: nat, n: nat)
      returns (bound: int, rowRanges: seq<AxisRange>, colRanges: seq<AxisRange>)
    requires 0 < m
    ensures bound == GemmBound(aMax, aRows, bMax, bCols, m, k, n)
    ensures rowRanges == OutputRows(aMax, aRows, bMax, bCols, m, k, n)
    ensures colRanges == OutputCols(aMax, aRows, bMax, bCols, m, k, n)
  {
    bound, rowRanges, colRanges := k * aMax * bMax, [], [];
    if |aRows| == m || |bCols| == n {
      var maximum;
      maximum, rowRanges, colRanges := SummaryBounds(aMax, aRows, bMax, bCols, m, k, n);
      bound := Min(bound, maximum);
    }
  }

  lemma GemmBoundSound(p: seq<int>, aMax: int, aRows: seq<AxisRange>, bMax: int, bCols: seq<AxisRange>, m: nat,
                       k: nat, n: nat)
    requires |p| == m * n && Holds(|p|, m, n, n) && CellsWithin(p, aMax, aRows, bMax, bCols, m, k, n)
    requires BoundedBy(p, k * aMax * bMax)
    ensures BoundedBy(p, GemmBound(aMax, aRows, bMax, bCols, m, k, n))
    ensures GemmBound(aMax, aRows, bMax, bCols, m, k, n) <= k * aMax * bMax
  {
    WithinLargest(p, aMax, aRows, bMax, bCols, m, k, n);
  }

  /** The integer product respects the scalar bound and every cell bound. */
  lemma ProductCellsWithin(a: seq<int>, b: seq<int>, aMax: int, aRows: seq<AxisRange>, bMax: int,
                           bCols: seq<AxisRange>, m: nat, k: nat, n: nat)
    requires |a| == m * k && |b| == k * n
    requires BoundedBy(a, aMax) && BoundedBy(b, bMax) && RowsSound(aRows, a, m, k) && ColsSound(bCols, b, k, n)
    ensures CellsWithin(MatrixProduct(a, b, m, k, n), aMax, aRows, bMax, bCols, m, k, n)
    ensures BoundedBy(MatrixProduct(a, b, m, k, n), k * aMax * bMax)
  {
    var p := MatrixProduct(a, b, m, k, n);
    MulNonNeg(k, aMax);
    MulNonNeg(k * aMax, bMax);
    forall r, c | 0 <= r < m && 0 <= c < n
      ensures Abs(ElementAt(p, m, n, n, r, c)) <= CellBound(aMax, aRows, bMax, bCols, m, k, n, r, c)
      ensures Abs(ElementAt(p, m, n, n, r, c)) <= k * aMax * bMax
    {
      CellBoundSound(a, aMax, aRows, b, bMax, bCols, m, k, n, r, c);
    }
    CellsBounded(p, m, n, k * aMax * bMax);
  }

  // How tight the bound of a whole product is.

  /** Without summaries a cell's bound is the scalar one. */
  lemma UniformBound(aMax: nat, bMax: nat, k: nat)
    ensures AxisProductBound(UniformAxis(aMax, k), UniformAxis(bMax, k), k) == k * aMax * bMax
  {
    assert aMax * (k * bMax) == k * aMax * bMax;
  }

  /** The bound of a product is the smaller of the scalar one and the largest cell bound, whatever is recorded. */
  lemma GemmBoundIsMinimum(aMax: int, aRows: seq<AxisRange>, bMax: int, bCols: seq<AxisRange>, m: nat, k: nat, n: nat)
    requires 0 < m && 0 < n && 0 <= aMax && 0 <= bMax
    ensures GemmBound(aMax, aRows, bMax, bCols, m, k, n)
      == Min(k * aMax * bMax, LargestCell(aMax, aRows, bMax, bCols, m, k, n, m))
  {
    if |aRows| != m && |bCols| != n {
      UniformBound(aMax, bMax, k);
      LargestCellIsLargest(aMax, aRows, bMax, bCols, m, k, n, m);
      assert CellBound(aMax, aRows, bMax, bCols, m, k, n, 0, 0) == k * aMax * bMax;
      assert forall r, c :: 0 <= r < m && 0 <= c < n ==>
        CellBound(aMax, aRows, bMax, bCols, m, k, n, r, c) == k * aMax * bMax;
    }
  }

  /** For two packed operands the bound exceeds the largest entry of the product by at most half of K times the
      product of the spreads of their elements. */
  lemma PackedBoundTight(a: seq<int>, b: seq<int>, aMax: int, bMax: int, m: nat, k: nat, n: nat, la: int, ha: int,
                         lb: int, hb: int) returns (row: nat, col: nat)
    requires 0 < m && 0 < k && 0 < n && 0 <= aMax && 0 <= bMax
    requires Holds(|a|, m, k, k) && Holds(|b|, k, n, n)
    requires (forall x :: x in a ==> la <= x <= ha) && (forall x :: x in b ==> lb <= x <= hb)
    ensures row < m && col < n
    ensures 2 * GemmBound(aMax, NativeRows(a, m, k, k), bMax, NativeCols(b, k, n, n), m, k, n)
      <= 2 * Abs(ProductCell(a, b, m, k, n, row, col)) + k * ((ha - la + 1) * (hb - lb + 1))
  {
    var aRows, bCols := NativeRows(a, m, k, k), NativeCols(b, k, n, n);
    GemmBoundIsMinimum(aMax, aRows, bMax, bCols, m, k, n);
    LargestCellIsLargest(aMax, aRows, bMax, bCols, m, k, n, m);
    row, col := 0, 0;
    if LargestCell(aMax, aRows, bMax, bCols, m, k, n, m) > 0 {
      var largest := LargestCell(aMax, aRows, bMax, bCols, m, k, n, m);
      row, col :| 0 <= row < m && 0 <= col < n && CellBound(aMax, aRows, bMax, bCols, m, k, n, row, col) == largest;
    } else {
      assert CellBound(aMax, aRows, bMax, bCols, m, k, n, 0, 0) <= 0;
    }
    PackedCellTight(a, b, aMax, bMax, m, k, n, la, ha, lb, hb, row, col);
    AxisProductBoundNonNeg(RowOf(a, m, row, k, k), ColOf(b, k, n, n, col));
  }

  lemma PackedCellTight(a: seq<int>, b: seq<int>, aMax: int, bMax: int, m: nat, k: nat, n: nat, la: int, ha: int,
                        lb: int, hb: int, row: nat, col: nat)
    requires 0 < k && Holds(|a|, m, k, k) && Holds(|b|, k, n, n) && row < m && col < n
    requires (forall x :: x in a ==> la <= x <= ha) && (forall x :: x in b ==> lb <= x <= hb)
    ensures var aRows, bCols := NativeRows(a, m, k, k), NativeCols(b, k, n, n);
      && CellBound(aMax, aRows, bMax, bCols, m, k, n, row, col)
           == AxisProductBound(NativeSummary(RowOf(a, m, row, k, k), k), NativeSummary(ColOf(b, k, n, n, col), k), k)
      && 2 * CellBound(aMax, aRows, bMax, bCols, m, k, n, row, col)
           <= 2 * Abs(ProductCell(a, b, m, k, n, row, col)) + k * ((ha - la + 1) * (hb - lb + 1))
  {
    var x, y := RowOf(a, m, row, k, k), ColOf(b, k, n, n, col);
    forall t | 0 <= t < k
      ensures x[t] in a && y[t] in b
    {
      assert x[t] == ElementAt(a, m, k, k, row, t) && y[t] == ElementAt(b, k, n, n, t, col);
    }
    BoundWithinSpreads(x, y, la, ha, lb, hb);
  }

  lemma AxisProductBoundNonNeg(x: seq<int>, y: seq<int>)
    requires |x| == |y|
    ensures 0 <= AxisProductBound(NativeSummary(x, |x|), NativeSummary(y, |y|), |x|)
  {
    NativeSummarySound(x);
    NativeSummarySound(y);
    AxisProductBoundSound(NativeSummary(x, |x|), NativeSummary(y, |y|), x, y);
  }

  /** The sum of the bounds of the first `cols` cells of a row, and of the first `rows` cells of a column. */
  ghost function SumInRow(aMax: int, aRows: seq<AxisRange>, bMax: int, bCols: seq<AxisRange>, m: nat, k: nat, n: nat,
                          row: nat, cols: nat): int
    requires row < m && cols <= n
  {
    if cols == 0 then 0
    else
      SumInRow(aMax, aRows, bMax, bCols, m, k, n, row, cols - 1)
      + CellBound(aMax, aRows, bMax, bCols, m, k, n, row, cols - 1)
  }

  ghost function SumInCol(aMax: int, aRows: seq<AxisRange>, bMax: int, bCols: seq<AxisRange>, m: nat, k: nat, n: nat,
                          col: nat, rows: nat): int
    requires col < n && rows <= m
  {
    if rows == 0 then 0
    else
      SumInCol(aMax, aRows, bMax, bCols, m, k, n, col, rows - 1)
      + CellBound(aMax, aRows, bMax, bCols, m, k, n, rows - 1, col)
  }

  /** An output summary holds the largest and the sum of the bounds of its cells, and claims no exact sum. */
  lemma {:induction false} OutputRowRecords(aMax: int, aRows: seq<AxisRange>, bMax: int, bCols: seq<AxisRange>, m: nat,
                                            k: nat, n: nat, row: nat, cols: nat)
    requires row < m && cols <= n
    ensures OutputRow(aMax, aRows, bMax, bCols, m, k, n, row, cols) ==
      EMPTY_AXIS.(maxMagnitude := LargestInRow(aMax, aRows, bMax, bCols, m, k, n, row, cols),
                  absoluteSum := SumInRow(aMax, aRows, bMax, bCols, m, k, n, row, cols))
  {
    if cols > 0 {
      OutputRowRecords(aMax, aRows, bMax, bCols, m, k, n, row, cols - 1);
    }
  }

  lemma {:induction false} OutputColRecords(aMax: int, aRows: seq<AxisRange>, bMax: int, bCols: seq<AxisRange>, m: nat,
                                            k: nat, n: nat, col: nat, rows: nat)
    requires col < n && rows <= m
    ensures var axis := OutputCol(aMax, aRows, bMax, bCols, m, k, n, col, rows);
      && axis.absoluteSum == SumInCol(aMax, aRows, bMax, bCols, m, k, n, col, rows)
      && 0 <= axis.maxMagnitude && !axis.sumKnown
      && (forall r :: 0 <= r < rows ==> CellBound(aMax, aRows, bMax, bCols, m, k, n, r, col) <= axis.maxMagnitude)
      && (axis.maxMagnitude > 0 ==>
            exists r :: 0 <= r < rows && CellBound(aMax, aRows, bMax, bCols, m, k, n, r, col) == axis.maxMagnitude)
  {
    if rows > 0 {
      OutputColRecords(aMax, aRows, bMax, bCols, m, k, n, col, rows - 1);
      var last := CellBound(aMax, aRows, bMax, bCols, m, k, n, rows - 1, col);
      assert last <= OutputCol(aMax, aRows, bMax, bCols, m, k, n, col, rows).maxMagnitude;
    }
  }
}
