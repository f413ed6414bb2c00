/** Resident exact-wide matrices on the CPU reference (`src/core/api_exact_lift.cpp`, `api_pack.cpp`,
    `api_export.cpp`).  A matrix carries residue planes, how many of them are initialized, and a proved
    bound on its entries.  `Valid` ties them to the integer matrix the object stands for, and every
    operation keeps it, and `ExactRun` draws the consequence for whole runs. */
module ExactWide {
  import opened IntMath
  import opened Ladder
  import opened Centering
  import opened Garner
  import opened Vectors
  import opened ResidueGemm
  import opened ExactRange
  import opened WidePlanes

  /** An operand whose planes below `selected` are all available, resident or staged. */
  ghost predicate OperandReady(residues: seq<int>, suffix: seq<int>, value: seq<int>, ms: seq<nat>, source: nat,
                               selected: nat)
  {
    && source <= MAX_SUPPORTED_PREFIX && selected <= MAX_SUPPORTED_PREFIX && WideLadder(ms)
    && PlanesHold(residues, value, ms, source)
    && (selected > source ==>
      && |suffix| == (selected - source) * |value|
      && forall q, i :: 0 <= q < selected - source && 0 <= i < |value| ==>
        Resident(suffix, |value|, q, i) == Centered(value[i], ms[source + q]))
  }

  /** A plane whose rows hold the plane products holds the integer product. */
  lemma RowsAreProduct(c: seq<int>, base: nat, x: seq<int8>, y: seq<int8>, a: seq<int>, b: seq<int>, g: Geometry, i: nat)
    requires 2 <= g.modulus <= 256 && PlaneHolds(x, a, g.modulus) && PlaneHolds(y, b, g.modulus)
    requires |a| == g.m * g.k && |b| == g.k * g.n && g.lda == g.k && g.ldb == g.ldc == g.n && g.Valid(|x|, |y|)
    requires i < g.m * g.n && base + i < |c| && forall row :: 0 <= row < g.m ==> RowHolds(c, base, x, y, g, row)
    ensures c[base + i] == Centered(MatrixProduct(a, b, g.m, g.k, g.n)[i], g.modulus)
  {
    CellFromFlat(g.m, g.n, i);
    var row, col := i / g.n, i % g.n;
    var p := MatrixProduct(a, b, g.m, g.k, g.n);
    PlaneProduct(x, y, a, b, g, row, col);
    assert p[i] == ElementAt(p, g.m, g.n, g.n, row, col);
    assert RowHolds(c, base, x, y, g, row);
    assert c[base + Cell(row, g.ldc, col)] == PlaneCell(x, y, g, row, col, g.k);
  }

  /** One plane of the product, written at `base`. */
  method MultiplyPlane(x: seq<int8>, y: seq<int8>, output: array<int8>, base: nat, g: Geometry, acc: array<int32>,
                       ghost a: seq<int>, ghost b: seq<int>)
    requires 2 <= g.modulus <= 256 && PlaneHolds(x, a, g.modulus) && PlaneHolds(y, b, g.modulus)
    requires |a| == g.m * g.k && |b| == g.k * g.n && g.lda == g.k && g.ldb == g.ldc == g.n
    requires base + g.m * g.n <= output.Length && acc.Length == g.n
    modifies output, acc
    ensures forall i :: 0 <= i < g.m * g.n ==>
      output[base + i] == Centered(MatrixProduct(a, b, g.m, g.k, g.n)[i], g.modulus)
    ensures forall i :: 0 <= i < output.Length && !(base <= i < base + g.m * g.n) ==> output[i] == old(output[i])
  {
    PackedHolds(g.m, g.k);
    PackedHolds(g.k, g.n);
    PackedHolds(g.m, g.n);
    RingGemmModulus(x, y, output, base, g, acc, SAFE_INT32_K_BLOCK);
    OutsideMatrix(g.m, g.n, g.ldc);
    forall i | 0 <= i < g.m * g.n
      ensures output[base + i] == Centered(MatrixProduct(a, b, g.m, g.k, g.n)[i], g.modulus)
    {
      RowsAreProduct(output[..], base, x, y, a, b, g, i);
    }
  }

  /** Planes hold one further when the next plane is written and the earlier bytes stay. */
  lemma NextPlaneHolds(before: seq<int>, after: seq<int>, value: seq<int>, ms: seq<nat>, p: nat)
    requires p < |ms| && ms[p] >= 2 && PlanesHold(before, value, ms, p)
    requires p * |value| + |value| <= |after|
    requires forall j :: 0 <= j < p * |value| ==> after[j] == before[j]
    requires PlaneHolds(after[p * |value|..p * |value| + |value|], value, ms[p])
    ensures PlanesHold(after, value, ms, p + 1)
  {
    var cells := |value|;
    NextPlane(p, cells);
    forall q, i | 0 <= q < p + 1 && 0 <= i < cells
      ensures Resident(after, cells, q, i) == Centered(value[i], ms[q])
    {
      CellBounds(q, p + 1, cells, i);
      if q < p {
        CellBounds(q, p, cells, i);
        assert Resident(after, cells, q, i) == Resident(before, cells, q, i);
      } else {
        assert Resident(after, cells, q, i) == after[p * cells..p * cells + cells][i];
      }
    }
  }

  method MultiplyNextPlane(x: seq<int8>, y: seq<int8>, output: array<int8>, plane: nat, m: nat, k: nat, n: nat,
                           ms: seq<nat>, acc: array<int32>, ghost a: seq<int>, ghost b: seq<int>)
    requires plane < |ms| && 2 <= ms[plane] <= 256 && |a| == m * k && |b| == k * n && acc.Length == n
    requires PlaneHolds(x, a, ms[plane]) && PlaneHolds(y, b, ms[plane])
    requires plane * (m * n) + m * n <= output.Length
    requires PlanesHold(output[..], MatrixProduct(a, b, m, k, n), ms, plane)
    modifies output, acc
    ensures PlanesHold(output[..], MatrixProduct(a, b, m, k, n), ms, plane + 1)
    ensures forall i :: (plane + 1) * (m * n) <= i < output.Length ==> output[i] == old(output[i])
  {
    NextPlane(plane, m * n);
    var base := plane * (m * n);
    ghost var p := MatrixProduct(a, b, m, k, n);
    ghost var before := output[..];
    MultiplyPlane(x, y, output, base, Geometry(m, n, k, k, n, n, ms[plane]), acc, a, b);
    NextPlaneHolds(before, output[..], p, ms, plane);
  }

  /** Plane `plane` of the product, from operands that may be resident or staged. */
  method MultiplyOperands(aRes: seq<int8>, aSuffix: seq<int8>, aSource: nat, bRes: seq<int8>, bSuffix: seq<int8>,
                          bSource: nat, m: nat, k: nat, n: nat, ms: seq<nat>, selected: nat, plane: nat,
                          output: array<int8>, acc: array<int32>, ghost a: seq<int>, ghost b: seq<int>)
    requires OperandReady(aRes, aSuffix, a, ms, aSource, selected)
    requires OperandReady(bRes, bSuffix, b, ms, bSource, selected)
    requires |a| == m * k && |b| == k * n && plane < selected && output.Length == selected * (m * n) && acc.Length == n
    requires PlanesHold(output[..], MatrixProduct(a, b, m, k, n), ms, plane)
    modifies output, acc
    ensures PlanesHold(output[..], MatrixProduct(a, b, m, k, n), ms, plane + 1)
  {
    OperandPlane(aRes, aSuffix, a, ms, aSource, selected, plane);
    OperandPlane(bRes, bSuffix, b, ms, bSource, selected, plane);
    var x := PlaneOf(aRes, aSuffix, m * k, aSource, plane);
    var y := PlaneOf(bRes, bSuffix, k * n, bSource, plane);
    NextPlane(plane, m * n);
    MulMono(plane + 1, selected, m * n);
    MultiplyNextPlane(x, y, output, plane, m, k, n, ms, acc, a, b);
  }

  lemma NoPlanes(residues: seq<int>, value: seq<int>, ms: seq<nat>)
    ensures PlanesHold(residues, value, ms, 0)
  {
  }

  /** All planes of the product below `selected`. */
  method MultiplyPlanes(aRes: seq<int8>, aSuffix: seq<int8>, aSource: nat, bRes: seq<int8>, bSuffix: seq<int8>,
                        bSource: nat, m: nat, k: nat, n: nat, ms: seq<nat>, selected: nat,
                        ghost a: seq<int>, ghost b: seq<int>)
      returns (output: array<int8>)
    requires OperandReady(aRes, aSuffix, a, ms, aSource, selected)
    requires OperandReady(bRes, bSuffix, b, ms, bSource, selected)
    requires |a| == m * k && |b| == k * n
    ensures fresh(output) && output.Length == selected * (m * n)
    ensures PlanesHold(output[..], MatrixProduct(a, b, m, k, n), ms, selected)
  {
    output := new int8[selected * (m * n)];
    var acc := new int32[n];
    NoPlanes(output[..], MatrixProduct(a, b, m, k, n), ms);
    MultiplyAll(aRes, aSuffix, aSource, bRes, bSuffix, bSource, m, k, n, ms, selected, output, acc, a, b);
  }

  method MultiplyAll(aRes: seq<int8>, aSuffix: seq<int8>, aSource: nat, bRes: seq<int8>, bSuffix: seq<int8>,
                     bSource: nat, m: nat, k: nat, n: nat, ms: seq<nat>, selected: nat, output: array<int8>,
                     acc: array<int32>, ghost a: seq<int>, ghost b: seq<int>)
    requires OperandReady(aRes, aSuffix, a, ms, aSource, selected)
    requires OperandReady(bRes, bSuffix, b, ms, bSource, selected)
    requires |a| == m * k && |b| == k * n && output.Length == selected * (m * n) && acc.Length == n
    requires PlanesHold(output[..], MatrixProduct(a, b, m, k, n), ms, 0)
    modifies output, acc
    ensures PlanesHold(output[..], MatrixProduct(a, b, m, k, n), ms, selected)
  {
    ghost var p := MatrixProduct(a, b, m, k, n);
    for plane := 0 to selected
      invariant PlanesHold(output[..], p, ms, plane)
    {
      MultiplyOperands(aRes, aSuffix, aSource, bRes, bSuffix, bSource, m, k, n, ms, selected, plane, output, acc, a, b);
    }
  }

  /** The logical contents of a strided source, packed row by row. */
  ghost function Flatten(src: seq<int>, rows: nat, cols: nat, ld: nat): (value: seq<int>)
    requires Holds(|src|, rows, cols, ld)
    ensures |value| == rows * cols && Holds(|value|, rows, cols, cols)
    ensures forall r, c :: 0 <= r < rows && 0 <= c < cols ==>
      ElementAt(value, rows, cols, cols, r, c) == ElementAt(src, rows, cols, ld, r, c)
    ensures forall i :: 0 <= i < |value| ==> value[i] in src
  {
    PackedHolds(rows, cols);
    var value := seq(rows * cols, i requires 0 <= i < rows * cols =>
      CellFromFlat(rows, cols, i); ElementAt(src, rows, cols, ld, i / cols, i % cols));
    assert forall r, c :: 0 <= r < rows && 0 <= c < cols ==>
        ElementAt(value, rows, cols, cols, r, c) == ElementAt(src, rows, cols, ld, r, c) by {
      forall r, c | 0 <= r < rows && 0 <= c < cols
        ensures ElementAt(value, rows, cols, cols, r, c) == ElementAt(src, rows, cols, ld, r, c)
      {
        RowInBounds(rows * cols, rows, cols, cols, r);
        DivModUnique(Cell(r, cols, c), r, c, cols);
      }
    }
    value
  }

  /** A cell of the packed product is the dot product of a native row and column. */
  lemma FlattenedProduct(srcA: seq<int>, lda: nat, srcB: seq<int>, ldb: nat, m: nat, k: nat, n: nat, row: nat,
                         col: nat)
    requires Holds(|srcA|, m, k, lda) && Holds(|srcB|, k, n, ldb) && row < m && col < n
    ensures var a, b := Flatten(srcA, m, k, lda), Flatten(srcB, k, n, ldb);
      var p := MatrixProduct(a, b, m, k, n);
      && Cell(row, n, col) < |p|
      && p[Cell(row, n, col)]
        == Dot(RowOf(srcA, m, row, lda, k), ColOf(srcB, k, n, ldb, col), k)
  {
    var a, b := Flatten(srcA, m, k, lda), Flatten(srcB, k, n, ldb);
    var p := MatrixProduct(a, b, m, k, n);
    assert p[Cell(row, n, col)] == ElementAt(p, m, n, n, row, col);
    assert RowOf(a, m, row, k, k) == RowOf(srcA, m, row, lda, k);
    assert ColOf(b, k, n, n, col) == ColOf(srcB, k, n, ldb, col);
  }

  /** The packing loop of one plane (`pack_i64_matrix`, `pack_u64_matrix`). */
  method PackPlane(src: seq<int>, rows: nat, cols: nat, ld: nat, modulus: nat) returns (plane: seq<int8>)
    requires Holds(|src|, rows, cols, ld) && 2 <= modulus <= 256
    ensures PlaneHolds(plane, Flatten(src, rows, cols, ld), modulus)
  {
    plane := [];
    ghost var value := Flatten(src, rows, cols, ld);
    for row := 0 to rows
      invariant |plane| == row * cols
      invariant forall i :: 0 <= i < |plane| ==> i < |value| && plane[i] == Centered(value[i], modulus)
    {
      RowInBounds(|value|, rows, cols, cols, row);
      for col := 0 to cols
        invariant |plane| == row * cols + col
        invariant forall i :: 0 <= i < |plane| ==> i < |value| && plane[i] == Centered(value[i], modulus)
      {
        var v := ElementAt(src, rows, cols, ld, row, col);
        assert v == ElementAt(value, rows, cols, cols, row, col) == value[|plane|];
        var c := CenteredResidue(v, modulus);
        plane := plane + [c];
      }
      NextPlane(row, cols);
    }
  }

  method PackPlanes(src: seq<int>, rows: nat, cols: nat, ld: nat, ms: seq<nat>, prefix: nat) returns (packed: seq<int8>)
    requires Holds(|src|, rows, cols, ld) && prefix <= |ms| && forall p :: 0 <= p < prefix ==> 2 <= ms[p] <= 256
    ensures |packed| == prefix * (rows * cols) && PlanesHold(packed, Flatten(src, rows, cols, ld), ms, prefix)
  {
    packed := [];
    ghost var value := Flatten(src, rows, cols, ld);
    ghost var cells := rows * cols;
    for p := 0 to prefix
      invariant |packed| == p * cells && PlanesHold(packed, value, ms, p)
    {
      var plane := PackPlane(src, rows, cols, ld, ms[p]);
      ghost var before := packed;
      packed := packed + plane;
      NextPlane(p, cells);
      assert packed[p * cells..p * cells + cells] == plane;
      NextPlaneHolds(before, packed, value, ms, p);
    }
  }

  /** Summaries computed from the source are sound for the packed value. */
  lemma NativeRangesSound(src: seq<int>, rows: nat, cols: nat, ld: nat, rs: seq<AxisRange>, cs: seq<AxisRange>,
                          maximum: int)
    requires Holds(|src|, rows, cols, ld) && |rs| == rows && |cs| == cols && LargestOf(rs, rows, maximum)
    requires forall r :: 0 <= r < rows ==> rs[r] == NativeSummary(RowOf(src, rows, r, ld, cols), cols)
    requires forall c :: 0 <= c < cols ==> cs[c] == NativeSummary(ColOf(src, rows, cols, ld, c), rows)
    ensures var value := Flatten(src, rows, cols, ld);
      RowsSound(rs, value, rows, cols) && ColsSound(cs, value, rows, cols) && BoundedBy(value, maximum)
  {
    var value := Flatten(src, rows, cols, ld);
    forall r | 0 <= r < rows
      ensures AxisSound(rs[r], RowOf(value, rows, r, cols, cols))
    {
      assert RowOf(value, rows, r, cols, cols) == RowOf(src, rows, r, ld, cols);
      NativeSummarySound(RowOf(src, rows, r, ld, cols));
    }
    forall c | 0 <= c < cols
      ensures AxisSound(cs[c], ColOf(value, rows, cols, cols, c))
    {
      assert ColOf(value, rows, cols, cols, c) == ColOf(src, rows, cols, ld, c);
      NativeSummarySound(ColOf(src, rows, cols, ld, c));
    }
    forall r, c | 0 <= r < rows && 0 <= c < cols
      ensures Abs(ElementAt(value, rows, cols, cols, r, c)) <= maximum
    {
      assert RowOf(value, rows, r, cols, cols)[c] == ElementAt(value, rows, cols, cols, r, c);
    }
    CellsBounded(value, rows, cols, maximum);
  }

  /** The recorded maximum is some entry's magnitude. */
  lemma MaximumAttained(src: seq<int>, rows: nat, cols: nat, ld: nat, rs: seq<AxisRange>, maximum: int)
    requires Holds(|src|, rows, cols, ld) && |rs| == rows && LargestOf(rs, rows, maximum)
    requires forall r :: 0 <= r < rows ==> rs[r] == NativeSummary(RowOf(src, rows, r, ld, cols), cols)
    requires BoundedBy(Flatten(src, rows, cols, ld), maximum)
    ensures Attained(Flatten(src, rows, cols, ld), maximum)
  {
    var value := Flatten(src, rows, cols, ld);
    if maximum > 0 {
      var r :| 0 <= r < rows && rs[r].maxMagnitude == maximum;
      var x := RowOf(src, rows, r, ld, cols);
      SummaryExact(x, cols);
      var c :| 0 <= c < cols && Abs(x[c]) == maximum;
      assert x[c] == ElementAt(src, rows, cols, ld, r, c) == ElementAt(value, rows, cols, cols, r, c);
      RowInBounds(|value|, rows, cols, cols, r);
      assert Abs(value[Cell(r, cols, c)]) == maximum;
    }
  }

  /** So the range check on the maximum is the check on every entry. */
  lemma MaximumFitsIff(signed: bool, value: seq<int>, maximum: int, product: nat)
    requires Attained(value, maximum) && product >= 1
    ensures RangeFits(signed, maximum, product) <==>
      forall i :: 0 <= i < |value| ==> RangeFits(signed, Abs(value[i]), product)
  {
    if maximum > 0 {
      var i :| 0 <= i < |value| && Abs(value[i]) == maximum;
    }
  }

  /** What packing records of a source, in terms of the integers it packs. */
  method MeasureSource(src: seq<int>, rows: nat, cols: nat, ld: nat)
      returns (rs: seq<AxisRange>, cs: seq<AxisRange>, maximum: int)
    requires Holds(|src|, rows, cols, ld)
    ensures var value := Flatten(src, rows, cols, ld);
      RowsSound(rs, value, rows, cols) && ColsSound(cs, value, rows, cols) && Attained(value, maximum)
    ensures rs == NativeRows(src, rows, cols, ld) && cs == NativeCols(src, rows, cols, ld)
  {
    rs, cs, maximum := NativeExactRanges(src, rows, cols, ld);
    NativeRangesSound(src, rows, cols, ld, rs, cs, maximum);
    MaximumAttained(src, rows, cols, ld, rs, maximum);
  }

  /** The parts of a validated plan the exact-wide CPU route reads. */
  datatype Plan = Plan(m: nat, k: nat, n: nat, signed: bool, prefix: nat, maxPrefix: nat)
  {
    predicate Valid() { 0 < m && 0 < k && 0 < n && 1 <= prefix <= maxPrefix <= MAX_SUPPORTED_PREFIX }
  }

  class ExactMatrix {
    const rows: nat
    const cols: nat
    const prefix: nat
    const signed: bool
    var residues: seq<int8>
    var current: bool
    var maxMagnitude: int
    var rangePrefix: nat
    var rowRanges: seq<AxisRange>
    var colRanges: seq<AxisRange>
    /** The integer matrix this object stands for; meaningful while `rangePrefix` is not zero. */
    ghost var value: seq<int>

    ghost predicate Valid(ms: seq<nat>)
      reads this
    {
      && WideLadder(ms) && 0 < rows && 0 < cols && 1 <= prefix <= MAX_SUPPORTED_PREFIX
      && |residues| == prefix * (rows * cols) && |value| == rows * cols && rangePrefix <= prefix
      && (rangePrefix != 0 ==> Proved(ms))
    }

    /** The initialized planes hold `value`, and the proof kept with them is true of it. */
    ghost predicate Proved(ms: seq<nat>)
      requires |value| == rows * cols && rangePrefix <= |ms|
      reads this
    {
      && PlanesHold(residues, value, ms, rangePrefix)
      && RangeFits(signed, maxMagnitude, PrefixProduct(ms, rangePrefix))
      && (forall i :: 0 <= i < |value| ==> WithinBound(signed, value[i], maxMagnitude))
      && RowsSound(rowRanges, value, rows, cols) && ColsSound(colRanges, value, rows, cols)
    }

    /** A freshly created host matrix is the zero matrix, on every plane. */
    constructor (rows: nat, cols: nat, prefix: nat, signed: bool, ghost ms: seq<nat>)
      requires WideLadder(ms) && 0 < rows && 0 < cols && 1 <= prefix <= MAX_SUPPORTED_PREFIX
      ensures Valid(ms) && this.rows == rows && this.cols == cols && this.prefix == prefix && this.signed == signed
      ensures rangePrefix == prefix && current && forall i :: 0 <= i < |value| ==> value[i] == 0
    {
      this.rows, this.cols, this.prefix, this.signed := rows, cols, prefix, signed;
      residues := seq(prefix * (rows * cols), _ => 0);
      current, maxMagnitude, rangePrefix, rowRanges, colRanges := true, 0, prefix, [], [];
      value := seq(rows * cols, _ => 0);
      new;
      PrefixProductGrows(ms, 0, prefix);
      forall p | 0 <= p < prefix ensures Centered(0, ms[p]) == 0 { SmallMod(0, ms[p]); }
    }

    /** `rns8_pack_i64` and `rns8_pack_u64`: every entry must fit the allocated prefix; otherwise nothing
        changes. */
    method Pack(ms: seq<nat>, src: seq<int>, ld: nat) returns (status: Status)
      requires Valid(ms) && Holds(|src|, rows, cols, ld) && forall x :: x in src ==> FitsWord(signed, x)
      modifies this
      ensures Valid(ms)
      ensures status == if forall i :: 0 <= i < rows * cols ==>
                             RangeFits(signed, Abs(Flatten(src, rows, cols, ld)[i]), PrefixProduct(ms, prefix))
                        then Success else RangeError
      ensures status == Success ==> value == Flatten(src, rows, cols, ld) && rangePrefix == prefix && current
      ensures status == Success ==> Attained(value, maxMagnitude)
      ensures status == Success ==>
        rowRanges == NativeRows(src, rows, cols, ld) && colRanges == NativeCols(src, rows, cols, ld)
      ensures status != Success ==> unchanged(this)
    {
      var rs, cs, maximum := MeasureSource(src, rows, cols, ld);
      var product := ModulusProduct(ms, prefix);
      PrefixProductGrows(ms, 0, prefix);
      MaximumFitsIff(signed, Flatten(src, rows, cols, ld), maximum, product);
      if !RangeFits(signed, maximum, product) {
        return RangeError;
      }
      residues := PackPlanes(src, rows, cols, ld, ms, prefix);
      current, maxMagnitude, rangePrefix, rowRanges, colRanges := true, maximum, prefix, rs, cs;
      value := Flatten(src, rows, cols, ld);
      status := Success;
    }

    /** What a lift reads must be current, carry a proof, and decode within it. */
    ghost predicate Liftable(ms: seq<nat>)
      requires WideLadder(ms) && rangePrefix <= MAX_SUPPORTED_PREFIX
      reads this
    {
      && current && rangePrefix != 0 && RangeFits(signed, maxMagnitude, PrefixProduct(ms, rangePrefix))
      && StageStatus(signed, ms, residues, rows * cols, 0, rangePrefix, maxMagnitude) == Success
    }

    /** `prepare_exact_cpu_lift`: a current matrix with a proof is ready for any target within its storage;
        the range check cannot fail, because the proof a matrix carries is covered by its own prefix. */
    method PrepareLift(ms: seq<nat>, target: nat) returns (status: Status)
      requires Valid(ms)
      ensures status == Success <==> 0 < target <= prefix && current && rangePrefix != 0
      ensures status == RangeError <==> 0 < target <= prefix && current && rangePrefix == 0
      ensures status != WorkspaceTooSmall
    {
      if target == 0 || target > MAX_SUPPORTED_PREFIX || target > prefix || !current {
        return InvalidArgument;
      }
      if rangePrefix == 0 {
        return RangeError;
      }
      var product := ModulusProduct(ms, rangePrefix);
      return if RangeFits(signed, maxMagnitude, product) then Success else RangeError;
    }

    /** Stage the planes in [rangePrefix, target), if there are any. */
    method Stage(ms: seq<nat>, target: nat) returns (status: Status, suffix: seq<int8>)
      requires Valid(ms) && rangePrefix != 0 && target <= prefix
      ensures status == if target <= rangePrefix then Success
                        else StageStatus(signed, ms, residues, rows * cols, 0, rangePrefix, maxMagnitude)
      ensures status == Success ==> |suffix| == StagedCount(target)
      ensures status == Success ==> OperandReady(residues, suffix, value, ms, rangePrefix, target)
    {
      if target <= rangePrefix {
        return Success, [];
      }
      MulMono(rangePrefix, prefix, rows * cols);
      status, suffix := StageLift(residues, rows * cols, rangePrefix, target, ms, signed, maxMagnitude);
      if status == Success {
        forall i | 0 <= i < |value|
          ensures ReadCell(signed, ms, residues, |value|, i, rangePrefix) == value[i]
        {
          PlanesDecode(residues, value, ms, rangePrefix, signed, maxMagnitude, i);
        }
      }
    }

    function StagedCount(target: nat): nat
      reads this
    {
      if target > rangePrefix then (target - rangePrefix) * (rows * cols) else 0
    }

    /** `commit_exact_cpu_lift`: only the suffix bytes and the initialized prefix change. */
    method Commit(ms: seq<nat>, suffix: seq<int8>, target: nat)
      requires Valid(ms) && rangePrefix != 0 && target <= prefix
      requires OperandReady(residues, suffix, value, ms, rangePrefix, target) && |suffix| == StagedCount(target)
      modifies this`residues, this`rangePrefix
      ensures Valid(ms) && rangePrefix == Max(old(rangePrefix), target)
      ensures |residues| == |old(residues)|
    {
      if |suffix| == 0 {
        MulCancel(0, rows * cols, 1) by { MulMono(1, rows, cols); }
        if target > rangePrefix {
          MulMono(1, target - rangePrefix, rows * cols);
        }
        return;
      }
      var cells := rows * cols;
      SplicePlanes(residues, suffix, value, ms, rangePrefix, target, prefix);
      PrefixProductGrows(ms, rangePrefix, target);
      residues := residues[..rangePrefix * cells] + suffix + residues[target * cells..];
      rangePrefix := target;
    }

    /** The output half of a commit: bytes, bound, summaries and initialized prefix are replaced together. */
    method StoreProduct(ms: seq<nat>, output: seq<int8>, selected: nat, bound: int, rowRanges: seq<AxisRange>,
                        colRanges: seq<AxisRange>, ghost product: seq<int>)
      requires Valid(ms) && 1 <= selected <= prefix
      requires |product| == rows * cols && |output| == selected * (rows * cols)
      requires PlanesHold(output, product, ms, selected) && RangeFits(signed, bound, PrefixProduct(ms, selected))
      requires forall i :: 0 <= i < |product| ==> WithinBound(signed, product[i], bound)
      requires RowsSound(rowRanges, product, rows, cols) && ColsSound(colRanges, product, rows, cols)
      modifies this
      ensures Valid(ms) && value == product && current && rangePrefix == selected && maxMagnitude == bound
      ensures this.rowRanges == rowRanges && this.colRanges == colRanges && |residues| == |old(residues)|
    {
      MulMono(selected, prefix, rows * cols);
      residues := output + residues[|output|..];
      current, maxMagnitude, rangePrefix := true, bound, selected;
      this.rowRanges, this.colRanges := rowRanges, colRanges;
      value := product;
      forall p, i | 0 <= p < selected && 0 <= i < |product|
        ensures Resident(residues, |product|, p, i) == Centered(product[i], ms[p])
      {
        CellBounds(p, selected, |product|, i);
        assert Resident(residues, |product|, p, i) == Resident(output, |product|, p, i);
      }
    }

    /** `rns8_lift_exact_wide_cpu`: initialize further planes without changing the integer matrix. */
    method Lift(ms: seq<nat>, target: nat, maxStagedBytes: nat) returns (status: Status)
      requires Valid(ms)
      modifies this`residues, this`rangePrefix
      ensures Valid(ms)
      ensures status != Success ==> unchanged(this)
      ensures status == Success ==> rangePrefix == Max(old(rangePrefix), target)
      ensures status == InvalidArgument <==> !(0 < target <= prefix && current)
      ensures status == RangeError <==> 0 < target <= prefix && current && old(rangePrefix) == 0
      ensures status == WorkspaceTooSmall <==>
        0 < target <= prefix && current && old(rangePrefix) != 0 && old(StagedCount(target)) > maxStagedBytes
    {
      status := PrepareLift(ms, target);
      if status != Success {
        return;
      }
      if StagedCount(target) > maxStagedBytes {
        return WorkspaceTooSmall;
      }
      StageSucceeds(signed, ms, residues, value, 0, rangePrefix, maxMagnitude);
      var suffix;
      status, suffix := Stage(ms, target);
      if status != Success {
        return;
      }
      Commit(ms, suffix, target);
    }
  }

  /** A current matrix with a proof can always be lifted: its own proof cannot make a lift fail. */
  lemma ProvedIsLiftable(matrix: ExactMatrix, ms: seq<nat>)
    requires matrix.Valid(ms) && matrix.current && matrix.rangePrefix != 0
    ensures matrix.Liftable(ms)
  {
    StageSucceeds(matrix.signed, ms, matrix.residues, matrix.value, 0, matrix.rangePrefix, matrix.maxMagnitude);
  }

  /** Shapes, semantics and storage the plan demands of the three matrices; outputs alias no input. */
  ghost predicate Admissible(plan: Plan, a: ExactMatrix, b: ExactMatrix, c: ExactMatrix)
  {
    && a != c && b != c
    && a.rows == plan.m && a.cols == plan.k && b.rows == plan.k && b.cols == plan.n
    && c.rows == plan.m && c.cols == plan.n
    && a.signed == b.signed == c.signed == plan.signed
    && plan.prefix <= a.prefix && plan.prefix <= b.prefix && plan.prefix <= c.prefix
  }

  /** The least prefix from `prefix` on that covers the bound. */
  ghost function LeastFit(signed: bool, ms: seq<nat>, bound: int, prefix: nat, ceiling: nat): (least: nat)
    requires prefix <= ceiling <= |ms| && RangeFits(signed, bound, PrefixProduct(ms, ceiling))
    ensures prefix <= least <= ceiling && RangeFits(signed, bound, PrefixProduct(ms, least))
    ensures forall s :: prefix <= s < least ==> !RangeFits(signed, bound, PrefixProduct(ms, s))
    decreases ceiling - prefix
  {
    if prefix == ceiling || RangeFits(signed, bound, PrefixProduct(ms, prefix)) then prefix
    else LeastFit(signed, ms, bound, prefix + 1, ceiling)
  }

  /** `exact_range_fits` is monotone in the prefix. */
  lemma FitsUpward(signed: bool, ms: seq<nat>, bound: int, i: nat, n: nat)
    requires Moduli(ms) && i <= n <= |ms| && RangeFits(signed, bound, PrefixProduct(ms, i))
    ensures RangeFits(signed, bound, PrefixProduct(ms, n))
  {
    PrefixProductGrows(ms, i, n);
  }

  /** Some prefix up to the ceiling covers a bound exactly when the ceiling does. */
  lemma SomePrefixFitsIff(signed: bool, ms: seq<nat>, bound: int, prefix: nat, ceiling: nat)
    requires Moduli(ms) && prefix <= ceiling <= |ms|
    ensures (exists s :: prefix <= s <= ceiling && RangeFits(signed, bound, PrefixProduct(ms, s)))
      <==> RangeFits(signed, bound, PrefixProduct(ms, ceiling))
  {
    if s :| prefix <= s <= ceiling && RangeFits(signed, bound, PrefixProduct(ms, s)) {
      FitsUpward(signed, ms, bound, s, ceiling);
    }
  }

  /** The smallest prefix from the plan's up to the ceiling whose product covers the bound, or none. */
  method SelectPrefix(ms: seq<nat>, signed: bool, bound: int, planPrefix: nat, ceiling: nat) returns (selected: nat)
    requires 1 <= planPrefix <= ceiling <= |ms|
    ensures planPrefix <= selected <= ceiling + 1
    ensures selected <= ceiling ==> Covers(ms, signed, bound, selected)
    ensures forall s :: planPrefix <= s < selected ==> !Covers(ms, signed, bound, s)
  {
    selected := planPrefix;
    while selected <= ceiling
      invariant planPrefix <= selected <= ceiling + 1
      invariant forall s :: planPrefix <= s < selected ==> !Covers(ms, signed, bound, s)
    {
      var product := ModulusProduct(ms, selected);
      if RangeFits(signed, bound, product) {
        return;
      }
      selected := selected + 1;
    }
  }

  /** The bound on a product's entries that admission computes from the proofs of its operands. */
  function Bound(plan: Plan, a: ExactMatrix, b: ExactMatrix): int
    reads a, b
  {
    GemmBound(a.maxMagnitude, a.rowRanges, b.maxMagnitude, b.colRanges, plan.m, plan.k, plan.n)
  }

  /** The summaries a product's output gets from the proofs of its operands. */
  function RowsFrom(plan: Plan, a: ExactMatrix, b: ExactMatrix): seq<AxisRange>
    reads a, b
  {
    OutputRows(a.maxMagnitude, a.rowRanges, b.maxMagnitude, b.colRanges, plan.m, plan.k, plan.n)
  }

  function ColsFrom(plan: Plan, a: ExactMatrix, b: ExactMatrix): seq<AxisRange>
    reads a, b
  {
    OutputCols(a.maxMagnitude, a.rowRanges, b.maxMagnitude, b.colRanges, plan.m, plan.k, plan.n)
  }

  /** The prefixes a product may use: from the plan's own to its maximum, and stored by all three matrices. */
  ghost predicate Usable(plan: Plan, a: ExactMatrix, b: ExactMatrix, c: ExactMatrix, s: nat)
  {
    plan.prefix <= s && s <= plan.maxPrefix && s <= a.prefix && s <= b.prefix && s <= c.prefix
  }

  ghost predicate Covers(ms: seq<nat>, signed: bool, bound: int, s: nat)
  {
    s <= |ms| && RangeFits(signed, bound, PrefixProduct(ms, s))
  }

  /** Some usable prefix covers the bound. */
  ghost predicate Coverable(ms: seq<nat>, plan: Plan, a: ExactMatrix, b: ExactMatrix, c: ExactMatrix, bound: int)
  {
    exists s :: Usable(plan, a, b, c, s) && Covers(ms, plan.signed, bound, s)
  }

  /** The least usable prefix that covers the bound. */
  ghost predicate IsLeastUsable(ms: seq<nat>, plan: Plan, a: ExactMatrix, b: ExactMatrix, c: ExactMatrix, bound: int,
                                s: nat)
  {
    && Usable(plan, a, b, c, s) && Covers(ms, plan.signed, bound, s)
    && forall r :: Usable(plan, a, b, c, r) && Covers(ms, plan.signed, bound, r) ==> s <= r
  }

  lemma CeilingUsable(plan: Plan, a: ExactMatrix, b: ExactMatrix, c: ExactMatrix, s: nat)
    ensures Usable(plan, a, b, c, s) <==> plan.prefix <= s <= Ceiling(plan, a, b, c)
  {
  }

  /** Some usable prefix covers a bound exactly when the largest does. */
  lemma CoverableIffCeiling(ms: seq<nat>, plan: Plan, a: ExactMatrix, b: ExactMatrix, c: ExactMatrix, bound: int)
    requires Moduli(ms) && plan.maxPrefix <= |ms|
    ensures Coverable(ms, plan, a, b, c, bound) <==>
      plan.prefix <= Ceiling(plan, a, b, c) && Covers(ms, plan.signed, bound, Ceiling(plan, a, b, c))
  {
    CeilingUsable(plan, a, b, c, Ceiling(plan, a, b, c));
    if s: nat :| Usable(plan, a, b, c, s) && Covers(ms, plan.signed, bound, s) {
      CeilingUsable(plan, a, b, c, s);
      FitsUpward(plan.signed, ms, bound, s, Ceiling(plan, a, b, c));
    }
  }

  ghost function LeastUsable(ms: seq<nat>, plan: Plan, a: ExactMatrix, b: ExactMatrix, c: ExactMatrix, bound: int):
      (s: nat)
    requires Moduli(ms) && plan.maxPrefix <= |ms| && Coverable(ms, plan, a, b, c, bound)
    ensures IsLeastUsable(ms, plan, a, b, c, bound, s)
  {
    CoverableIffCeiling(ms, plan, a, b, c, bound);
    var s := LeastFit(plan.signed, ms, bound, plan.prefix, Ceiling(plan, a, b, c));
    CeilingUsable(plan, a, b, c, s);
    s
  }

  ghost predicate Covering(ms: seq<nat>, plan: Plan, a: ExactMatrix, b: ExactMatrix, c: ExactMatrix)
    reads a, b
  {
    Coverable(ms, plan, a, b, c, Bound(plan, a, b))
  }

  /** The least usable prefix that covers the admission bound. */
  ghost function Least(ms: seq<nat>, plan: Plan, a: ExactMatrix, b: ExactMatrix, c: ExactMatrix): nat
    requires Moduli(ms) && plan.maxPrefix <= |ms| && Covering(ms, plan, a, b, c)
    reads a, b
  {
    LeastUsable(ms, plan, a, b, c, Bound(plan, a, b))
  }

  /** The status of a product: wrong shapes and stale operands first, then missing proofs, then a bound no
      usable prefix covers, then the byte budget; nothing else can stop it. */
  ghost function Outcome(ms: seq<nat>, plan: Plan, a: ExactMatrix, b: ExactMatrix, c: ExactMatrix,
                         maxStagedBytes: nat): Status
    requires Moduli(ms) && plan.maxPrefix <= |ms|
    reads a, b
  {
    if !Admissible(plan, a, b, c) || !a.current then InvalidArgument
    else if a.rangePrefix == 0 then RangeError
    else if !b.current then InvalidArgument
    else if b.rangePrefix == 0 || !Covering(ms, plan, a, b, c) then RangeError
    else if StagedBytes(plan, a, b, Least(ms, plan, a, b, c)) > maxStagedBytes then WorkspaceTooSmall
    else Success
  }

  /** Everything a product computes before it writes to a matrix. */
  datatype Staging = Staging(selected: nat, bound: int, rowRanges: seq<AxisRange>, colRanges: seq<AxisRange>,
                             aSuffix: seq<int8>, bSuffix: seq<int8>, output: seq<int8>)

  /** The proved output bound, its summaries, and the smallest prefix it fits. */
  ghost predicate RangePlanned(st: Staging, ms: seq<nat>, plan: Plan, a: ExactMatrix, b: ExactMatrix, c: ExactMatrix)
    requires |ms| >= MAX_SUPPORTED_PREFIX >= plan.maxPrefix
    requires |a.value| == plan.m * plan.k && |b.value| == plan.k * plan.n
    reads a, b
  {
    var p := MatrixProduct(a.value, b.value, plan.m, plan.k, plan.n);
    && IsLeastUsable(ms, plan, a, b, c, st.bound, st.selected)
    && (forall i :: 0 <= i < |p| ==> WithinBound(plan.signed, p[i], st.bound))
    && RowsSound(st.rowRanges, p, plan.m, plan.n) && ColsSound(st.colRanges, p, plan.m, plan.n)
  }

  /** The staged bytes: missing input planes and every output plane. */
  ghost predicate PlanesStaged(st: Staging, ms: seq<nat>, plan: Plan, a: ExactMatrix, b: ExactMatrix)
    requires |a.value| == plan.m * plan.k && |b.value| == plan.k * plan.n
    reads a, b
  {
    && a.rangePrefix != 0 && b.rangePrefix != 0
    && OperandReady(a.residues, st.aSuffix, a.value, ms, a.rangePrefix, st.selected)
    && OperandReady(b.residues, st.bSuffix, b.value, ms, b.rangePrefix, st.selected)
    && |st.aSuffix| == a.StagedCount(st.selected) && |st.bSuffix| == b.StagedCount(st.selected)
    && |st.output| == st.selected * (plan.m * plan.n)
    && PlanesHold(st.output, MatrixProduct(a.value, b.value, plan.m, plan.k, plan.n), ms, st.selected)
  }

  /** The byte budget of a product: shared input storage counts once. */
  function StagedBytes(plan: Plan, a: ExactMatrix, b: ExactMatrix, selected: nat): nat
    reads a, b
  {
    a.StagedCount(selected) + (if a == b then 0 else b.StagedCount(selected)) + plan.m * plan.n * selected
  }

  function Ceiling(plan: Plan, a: ExactMatrix, b: ExactMatrix, c: ExactMatrix): nat
  {
    Min(plan.maxPrefix, Min(a.prefix, Min(b.prefix, c.prefix)))
  }

  /** What the search finds is the least usable prefix, and it finds none only when there is none. */
  lemma SelectedIsLeast(ms: seq<nat>, plan: Plan, a: ExactMatrix, b: ExactMatrix, c: ExactMatrix, bound: int,
                        selected: nat)
    requires Moduli(ms) && plan.prefix <= Ceiling(plan, a, b, c) && plan.maxPrefix <= |ms|
    requires plan.prefix <= selected <= Ceiling(plan, a, b, c) + 1
    requires selected <= Ceiling(plan, a, b, c) ==> Covers(ms, plan.signed, bound, selected)
    requires forall s :: plan.prefix <= s < selected ==> !Covers(ms, plan.signed, bound, s)
    ensures selected <= Ceiling(plan, a, b, c) ==> IsLeastUsable(ms, plan, a, b, c, bound, selected)
    ensures selected <= Ceiling(plan, a, b, c) <==> Coverable(ms, plan, a, b, c, bound)
    ensures selected <= Ceiling(plan, a, b, c) ==> selected == LeastUsable(ms, plan, a, b, c, bound)
  {
    CeilingUsable(plan, a, b, c, selected);
    forall s: nat | Usable(plan, a, b, c, s) && Covers(ms, plan.signed, bound, s)
      ensures selected <= s <= Ceiling(plan, a, b, c)
    {
      CeilingUsable(plan, a, b, c, s);
    }
  }

  /** The proved output bound and the least prefix it fits, if the ceiling covers it. */
  method PlanRange(ms: seq<nat>, plan: Plan, a: ExactMatrix, b: ExactMatrix, c: ExactMatrix)
      returns (ok: bool, st: Staging)
    requires plan.Valid() && a.Valid(ms) && b.Valid(ms) && c.Valid(ms) && Admissible(plan, a, b, c)
    requires a.rangePrefix != 0 && b.rangePrefix != 0
    ensures ok <==> Covering(ms, plan, a, b, c)
    ensures ok ==> RangePlanned(st, ms, plan, a, b, c)
    ensures ok ==> st.bound == Bound(plan, a, b) && st.selected == Least(ms, plan, a, b, c)
    ensures ok ==> st.rowRanges == RowsFrom(plan, a, b) && st.colRanges == ColsFrom(plan, a, b)
  {
    var bound, rowRanges, colRanges := ExactGemmBound(a.maxMagnitude, a.rowRanges, b.maxMagnitude, b.colRanges,
                                                      plan.m, plan.k, plan.n, a.value, b.value);
    ProductWithin(plan, a, b, bound);
    var ceiling := Ceiling(plan, a, b, c);
    var selected := SelectPrefix(ms, plan.signed, bound, plan.prefix, ceiling);
    st := Staging(selected, bound, rowRanges, colRanges, [], [], []);
    ok := selected <= ceiling;
    SelectedIsLeast(ms, plan, a, b, c, bound, selected);
  }

  /** The checks of the product before anything is allocated: operands, proved output bound, selected prefix
      and staging budget. */
  method PlanProduct(ms: seq<nat>, plan: Plan, a: ExactMatrix, b: ExactMatrix, c: ExactMatrix, maxStagedBytes: nat)
      returns (status: Status, st: Staging)
    requires plan.Valid() && a.Valid(ms) && b.Valid(ms) && c.Valid(ms) && Admissible(plan, a, b, c)
    ensures status == Outcome(ms, plan, a, b, c, maxStagedBytes)
    ensures status == Success ==> RangePlanned(st, ms, plan, a, b, c)
    ensures status == Success ==> st.bound == Bound(plan, a, b) && st.selected == Least(ms, plan, a, b, c)
    ensures status == Success ==> st.rowRanges == RowsFrom(plan, a, b) && st.colRanges == ColsFrom(plan, a, b)
  {
    st := Staging(0, 0, [], [], [], [], []);
    status := a.PrepareLift(ms, plan.prefix);
    if status != Success {
      return;
    }
    status := b.PrepareLift(ms, plan.prefix);
    if status != Success {
      return;
    }
    var ok;
    ok, st := PlanRange(ms, plan, a, b, c);
    if !ok {
      status := RangeError;
    } else if StagedBytes(plan, a, b, st.selected) > maxStagedBytes {
      status := WorkspaceTooSmall;
    }
  }

  /** The staging phase: missing input planes, then every output plane, all outside the matrices. */
  method StageProduct(ms: seq<nat>, plan: Plan, a: ExactMatrix, b: ExactMatrix, c: ExactMatrix, planned: Staging)
      returns (status: Status, st: Staging)
    requires plan.Valid() && a.Valid(ms) && b.Valid(ms) && c.Valid(ms) && Admissible(plan, a, b, c)
    requires a.rangePrefix != 0 && b.rangePrefix != 0 && RangePlanned(planned, ms, plan, a, b, c)
    ensures status == Success ==> RangePlanned(st, ms, plan, a, b, c) && PlanesStaged(st, ms, plan, a, b)
    ensures st.selected == planned.selected && st.bound == planned.bound
    ensures st.rowRanges == planned.rowRanges && st.colRanges == planned.colRanges
    ensures a.Liftable(ms) && b.Liftable(ms) ==> status == Success
  {
    st := planned;
    var aSuffix, bSuffix;
    status, aSuffix := a.Stage(ms, st.selected);
    if status != Success {
      return;
    }
    if a == b {
      bSuffix := aSuffix;
    } else {
      status, bSuffix := b.Stage(ms, st.selected);
      if status != Success {
        return;
      }
    }
    var planes := MultiplyPlanes(a.residues, aSuffix, a.rangePrefix, b.residues, bSuffix, b.rangePrefix,
                                 plan.m, plan.k, plan.n, ms, st.selected, a.value, b.value);
    st := planned.(aSuffix := aSuffix, bSuffix := bSuffix, output := planes[..]);
  }

  /** The commit phase: all allocation, validation and arithmetic is behind it. */
  method CommitProduct(ms: seq<nat>, plan: Plan, a: ExactMatrix, b: ExactMatrix, c: ExactMatrix, st: Staging)
    requires plan.Valid() && a.Valid(ms) && b.Valid(ms) && c.Valid(ms) && Admissible(plan, a, b, c)
    requires RangePlanned(st, ms, plan, a, b, c) && PlanesStaged(st, ms, plan, a, b)
    modifies a`residues, a`rangePrefix, b`residues, b`rangePrefix, c
    ensures a.Valid(ms) && b.Valid(ms) && c.Valid(ms)
    ensures c.value == MatrixProduct(a.value, b.value, plan.m, plan.k, plan.n)
    ensures c.current && c.rangePrefix == st.selected && c.maxMagnitude == st.bound
    ensures c.rowRanges == st.rowRanges && c.colRanges == st.colRanges
    ensures a.rangePrefix == Max(old(a.rangePrefix), st.selected)
    ensures b.rangePrefix == Max(old(b.rangePrefix), st.selected)
  {
    ghost var product := MatrixProduct(a.value, b.value, plan.m, plan.k, plan.n);
    a.Commit(ms, st.aSuffix, st.selected);
    if a != b {
      b.Commit(ms, st.bSuffix, st.selected);
    }
    c.StoreProduct(ms, st.output, st.selected, st.bound, st.rowRanges, st.colRanges, product);
  }

  /** What follows the checks: staging, which cannot fail on operands with proofs, and the commit. */
  method StageAndCommit(ms: seq<nat>, plan: Plan, a: ExactMatrix, b: ExactMatrix, c: ExactMatrix, planned: Staging)
    requires plan.Valid() && a.Valid(ms) && b.Valid(ms) && c.Valid(ms) && Admissible(plan, a, b, c)
    requires a.current && b.current && a.rangePrefix != 0 && b.rangePrefix != 0
    requires RangePlanned(planned, ms, plan, a, b, c)
    modifies a`residues, a`rangePrefix, b`residues, b`rangePrefix, c
    ensures a.Valid(ms) && b.Valid(ms) && c.Valid(ms)
    ensures c.value == MatrixProduct(a.value, b.value, plan.m, plan.k, plan.n)
    ensures c.current && c.rangePrefix == planned.selected && c.maxMagnitude == planned.bound
    ensures c.rowRanges == planned.rowRanges && c.colRanges == planned.colRanges
    ensures a.rangePrefix == Max(old(a.rangePrefix), planned.selected)
    ensures b.rangePrefix == Max(old(b.rangePrefix), planned.selected)
  {
    ProvedIsLiftable(a, ms);
    ProvedIsLiftable(b, ms);
    var status, st := StageProduct(ms, plan, a, b, c, planned);
    CommitProduct(ms, plan, a, b, c, st);
  }

  /** The shape, semantics, storage and aliasing checks. */
  method CheckOperands(plan: Plan, a: ExactMatrix, b: ExactMatrix, c: ExactMatrix) returns (ok: bool)
    ensures ok <==> Admissible(plan, a, b, c)
  {
    ok := && a != c && b != c
          && a.rows == plan.m && a.cols == plan.k && a.signed == plan.signed && a.prefix >= plan.prefix
          && b.rows == plan.k && b.cols == plan.n && b.signed == plan.signed && b.prefix >= plan.prefix
          && c.rows == plan.m && c.cols == plan.n && c.signed == plan.signed && c.prefix >= plan.prefix;
  }

  /** `rns8_gemm_exact_wide_cpu_auto`.  The status is exactly the outcome of its checks, none of which looks
      at a residue.  On success `c` stands for the exact integer product, with the admission bound as its
      proof and the least covering prefix, and the inputs stand for what they stood for; on any other status
      none of the three matrices has changed. */
  method GemmAuto(ms: seq<nat>, plan: Plan, a: ExactMatrix, b: ExactMatrix, c: ExactMatrix, maxStagedBytes: nat)
      returns (status: Status, selected: nat)
    requires plan.Valid() && a.Valid(ms) && b.Valid(ms) && c.Valid(ms)
    modifies a`residues, a`rangePrefix, b`residues, b`rangePrefix, c
    ensures a.Valid(ms) && b.Valid(ms) && c.Valid(ms)
    ensures status == old(Outcome(ms, plan, a, b, c, maxStagedBytes))
    ensures status != Success ==> unchanged(a) && unchanged(b) && unchanged(c)
    ensures status == Success ==>
      && Admissible(plan, a, b, c)
      && c.value == MatrixProduct(a.value, b.value, plan.m, plan.k, plan.n)
      && c.current && c.rangePrefix == selected && c.maxMagnitude == old(Bound(plan, a, b))
      && a.rangePrefix == Max(old(a.rangePrefix), selected) && b.rangePrefix == Max(old(b.rangePrefix), selected)
    ensures status == Success ==>
      c.rowRanges == old(RowsFrom(plan, a, b)) && c.colRanges == old(ColsFrom(plan, a, b))
    ensures status == Success ==> selected == old(Least(ms, plan, a, b, c))
  {
    var ok := CheckOperands(plan, a, b, c);
    if !ok {
      return InvalidArgument, 0;
    }
    var st;
    status, st := PlanProduct(ms, plan, a, b, c, maxStagedBytes);
    selected := st.selected;
    if status == Success {
      StageAndCommit(ms, plan, a, b, c, st);
    }
  }

  /** The product keeps the sign discipline of its operands and stays within the proved bound. */
  lemma ProductWithin(plan: Plan, a: ExactMatrix, b: ExactMatrix, bound: int)
    requires |a.value| == plan.m * plan.k && |b.value| == plan.k * plan.n
    requires forall i :: 0 <= i < |a.value| ==> WithinBound(plan.signed, a.value[i], a.maxMagnitude)
    requires forall i :: 0 <= i < |b.value| ==> WithinBound(plan.signed, b.value[i], b.maxMagnitude)
    requires BoundedBy(MatrixProduct(a.value, b.value, plan.m, plan.k, plan.n), bound)
    ensures var p := MatrixProduct(a.value, b.value, plan.m, plan.k, plan.n);
      forall i :: 0 <= i < |p| ==> WithinBound(plan.signed, p[i], bound)
  {
    if !plan.signed {
      ProductNonNeg(a.value, b.value, plan.m, plan.k, plan.n);
    }
  }
}
