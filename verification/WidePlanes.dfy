/** Modulus-major residue planes: what it means for stored bytes to hold an integer matrix, and the staged
    steps that read, extend and multiply planes (`src/core/api_exact_lift.cpp`, `src/cpu/cpu_reference.cpp`). */
module WidePlanes {
  import opened IntMath
  import opened Ladder
  import opened Centering
  import opened Garner
  import opened Vectors
  import opened ResidueGemm
  import opened ExactRange

  /** A ladder exact-wide storage can use: 20 coprime byte moduli, none so small that a stored byte could
      lie below `-m`. */
  ghost predicate WideLadder(ms: seq<nat>)
  {
    && |ms| >= MAX_SUPPORTED_PREFIX && ByteLadder(ms, MAX_SUPPORTED_PREFIX)
    && forall i :: 0 <= i < MAX_SUPPORTED_PREFIX ==> ms[i] >= 128
  }

  /** The byte of plane `p` for cell `i`. */
  function Resident(residues: seq<int>, cells: nat, p: nat, i: nat): int
  {
    if Cell(p, cells, i) < |residues| then residues[Cell(p, cells, i)] else 0
  }

  /** The first `n` planes hold exactly the centered residues of `value`. */
  ghost predicate PlanesHold(residues: seq<int>, value: seq<int>, ms: seq<nat>, n: nat)
  {
    && n <= |ms| && n * |value| <= |residues|
    && (forall p :: 0 <= p < n ==> ms[p] >= 2)
    && forall p, i :: 0 <= p < n && 0 <= i < |value| ==>
      Resident(residues, |value|, p, i) == Centered(value[i], ms[p])
  }

  lemma CellBounds(p: nat, n: nat, cells: nat, i: nat)
    requires p < n && i < cells
    ensures Cell(p, cells, i) < n * cells
  {
    MulMono(p + 1, n, cells);
    assert (p + 1) * cells == p * cells + cells;
  }

  lemma CellInjective(p: nat, i: nat, q: nat, j: nat, cells: nat)
    requires i < cells && j < cells && Cell(p, cells, i) == Cell(q, cells, j)
    ensures p == q && i == j
  {
    DivModUnique(Cell(p, cells, i), p, i, cells);
    DivModUnique(Cell(p, cells, i), q, j, cells);
  }

  /** The residue vector of one cell (`gather_cell_residues`). */
  function CellResidues(residues: seq<int>, cells: nat, cell: nat, n: nat): (rs: seq<int>)
    ensures |rs| == n
  {
    seq(n, p requires 0 <= p < n => Resident(residues, cells, p, cell))
  }

  /** The integer one cell's first `n` planes decode to. */
  ghost function ReadCell(signed: bool, ms: seq<nat>, residues: seq<int>, cells: nat, cell: nat, n: nat): int
    requires Moduli(ms) && n <= |ms| && PairwiseCoprime(ms, n)
  {
    Reading(signed, ms, CellResidues(residues, cells, cell, n), n)
  }

  /** Planes that hold a value within a covered bound decode to that value, cell by cell. */
  lemma PlanesDecode(residues: seq<int>, value: seq<int>, ms: seq<nat>, n: nat, signed: bool, bound: int, cell: nat)
    requires PlanesHold(residues, value, ms, n) && Moduli(ms) && PairwiseCoprime(ms, n) && cell < |value|
    requires RangeFits(signed, bound, PrefixProduct(ms, n)) && WithinBound(signed, value[cell], bound)
    ensures ReadCell(signed, ms, residues, |value|, cell, n) == value[cell]
  {
    var rs := CellResidues(residues, |value|, cell, n);
    forall p | 0 <= p < n
      ensures value[cell] % ms[p] == rs[p] % ms[p]
    {
      CenteredProperties(value[cell], ms[p]);
    }
    ReadBack(signed, ms, rs, n, value[cell], bound);
  }

  // Lifting: reconstruct every cell from its initialized planes, then extend it to further planes.

  /** The status `stage_exact_cpu_lift` gives one cell. */
  ghost function CellStatus(signed: bool, ms: seq<nat>, residues: seq<int>, cells: nat, cell: nat, source: nat,
                            maxMagnitude: int): Status
    requires WideLadder(ms) && source <= MAX_SUPPORTED_PREFIX
  {
    if exists p :: 0 <= p < source && !InCenteredRange(Resident(residues, cells, p, cell), ms[p]) then InvalidArgument
    else if Abs(ReadCell(signed, ms, residues, cells, cell, source)) > maxMagnitude then RangeError
    else Success
  }

  /** The status of the whole staging pass: the first cell that does not succeed decides. */
  ghost function StageStatus(signed: bool, ms: seq<nat>, residues: seq<int>, cells: nat, cell: nat, source: nat,
                             maxMagnitude: int): Status
    requires WideLadder(ms) && source <= MAX_SUPPORTED_PREFIX && cell <= cells
    decreases cells - cell
  {
    if cell == cells then Success
    else if CellStatus(signed, ms, residues, cells, cell, source, maxMagnitude) != Success then
      CellStatus(signed, ms, residues, cells, cell, source, maxMagnitude)
    else StageStatus(signed, ms, residues, cells, cell + 1, source, maxMagnitude)
  }

  /** Staging always succeeds on planes that hold a proved value. */
  lemma {:induction false} StageSucceeds(signed: bool, ms: seq<nat>, residues: seq<int>, value: seq<int>, cell: nat,
                                         source: nat, maxMagnitude: int)
    requires WideLadder(ms) && source <= MAX_SUPPORTED_PREFIX && cell <= |value|
    requires PlanesHold(residues, value, ms, source)
    requires RangeFits(signed, maxMagnitude, PrefixProduct(ms, source))
    requires forall i :: 0 <= i < |value| ==> WithinBound(signed, value[i], maxMagnitude)
    ensures StageStatus(signed, ms, residues, |value|, cell, source, maxMagnitude) == Success
    decreases |value| - cell
  {
    if cell < |value| {
      StageSucceeds(signed, ms, residues, value, cell + 1, source, maxMagnitude);
      PlanesDecode(residues, value, ms, source, signed, maxMagnitude, cell);
      forall p | 0 <= p < source
        ensures InCenteredRange(Resident(residues, |value|, p, cell), ms[p])
      {
        CenteredProperties(value[cell], ms[p]);
      }
    }
  }

  /** Collect one cell's bytes, refusing any outside the centered range of its modulus. */
  method GatherChecked(residues: seq<int8>, cells: nat, cell: nat, source: nat, ms: seq<nat>)
      returns (ok: bool, rs: seq<int8>)
    requires WideLadder(ms) && source <= MAX_SUPPORTED_PREFIX && cell < cells && source * cells <= |residues|
    ensures ok <==> forall p :: 0 <= p < source ==> InCenteredRange(Resident(residues, cells, p, cell), ms[p])
    ensures ok ==> rs == CellResidues(residues, cells, cell, source)
  {
    rs := [];
    for p := 0 to source
      invariant |rs| == p
      invariant forall q :: 0 <= q < p ==> rs[q] == Resident(residues, cells, q, cell)
      invariant forall q :: 0 <= q < p ==> InCenteredRange(Resident(residues, cells, q, cell), ms[q])
    {
      CellBounds(p, source, cells, cell);
      var byte := residues[Cell(p, cells, cell)];
      assert byte == Resident(residues, cells, p, cell);
      var half: int := ms[p] / 2;
      if byte < -half || byte > (ms[p] - 1) / 2 {
        return false, [];
      }
      rs := rs + [byte];
    }
    ok := true;
  }

  method LiftCell(residues: seq<int8>, cells: nat, cell: nat, source: nat, ms: seq<nat>, signed: bool,
                  maxMagnitude: int, product: nat)
      returns (status: Status, value: int)
    requires WideLadder(ms) && source <= MAX_SUPPORTED_PREFIX && cell < cells && source * cells <= |residues|
    requires product == PrefixProduct(ms, source)
    ensures status == CellStatus(signed, ms, residues, cells, cell, source, maxMagnitude)
    ensures status == Success ==> value == ReadCell(signed, ms, residues, cells, cell, source)
  {
    var ok, cellResidues := GatherChecked(residues, cells, cell, source, ms);
    if !ok {
      return InvalidArgument, 0;
    }
    value := ReconstructCanonical(ms, cellResidues, source);
    var threshold := (product + 1) / 2;
    if signed && value >= threshold {
      value := value - product;
    }
    status := if Abs(value) > maxMagnitude then RangeError else Success;
  }

  /** Write one cell's residues into every staged plane. */
  method WriteSuffixCell(suffix0: seq<int8>, cells: nat, cell: nat, source: nat, target: nat, ms: seq<nat>, value: int)
      returns (suffix: seq<int8>)
    requires WideLadder(ms) && source <= target <= MAX_SUPPORTED_PREFIX && cell < cells
    requires |suffix0| == (target - source) * cells
    ensures |suffix| == |suffix0|
    ensures forall p, i :: 0 <= p < target - source && 0 <= i < cells ==>
      Resident(suffix, cells, p, i) == if i == cell then Centered(value, ms[source + p]) else Resident(suffix0, cells, p, i)
  {
    suffix := suffix0;
    for p := source to target
      invariant |suffix| == |suffix0|
      invariant forall q, i :: 0 <= q < target - source && 0 <= i < cells ==>
        Resident(suffix, cells, q, i) ==
          if i == cell && q < p - source then Centered(value, ms[source + q]) else Resident(suffix0, cells, q, i)
    {
      var c := CenteredResidue(value, ms[p]);
      CellBounds(p - source, target - source, cells, cell);
      suffix := UpdateResident(suffix, cells, p - source, cell, target - source, c);
    }
  }

  function UpdateResident(s: seq<int8>, cells: nat, p: nat, cell: nat, planes: nat, c: int8): (t: seq<int8>)
    requires p < planes && cell < cells && |s| == planes * cells
    ensures |t| == |s|
    ensures forall q, i :: 0 <= q < planes && 0 <= i < cells ==>
      Resident(t, cells, q, i) == if q == p && i == cell then c else Resident(s, cells, q, i)
  {
    CellBounds(p, planes, cells, cell);
    var t := s[Cell(p, cells, cell) := c];
    assert forall q, i :: 0 <= q < planes && 0 <= i < cells ==>
        Resident(t, cells, q, i) == if q == p && i == cell then c else Resident(s, cells, q, i) by {
      forall q, i | 0 <= q < planes && 0 <= i < cells
        ensures Resident(t, cells, q, i) == if q == p && i == cell then c else Resident(s, cells, q, i)
      {
        CellBounds(q, planes, cells, i);
        if Cell(q, cells, i) == Cell(p, cells, cell) {
          CellInjective(q, i, p, cell, cells);
        }
      }
    }
    t
  }

  /** The staged planes hold the decoded integers of the first `cell` cells. */
  ghost predicate Staged(suffix: seq<int>, residues: seq<int>, cells: nat, source: nat, target: nat, ms: seq<nat>,
                         signed: bool, cell: nat)
    requires WideLadder(ms) && source <= target <= MAX_SUPPORTED_PREFIX
  {
    && |suffix| == (target - source) * cells
    && forall p, i :: 0 <= p < target - source && 0 <= i < cell ==>
      Resident(suffix, cells, p, i) == Centered(ReadCell(signed, ms, residues, cells, i, source), ms[source + p])
  }

  /** One cell: decode, check, extend. */
  method StageCell(suffix0: seq<int8>, residues: seq<int8>, cells: nat, cell: nat, source: nat, target: nat,
                   ms: seq<nat>, signed: bool, maxMagnitude: int, product: nat)
      returns (status: Status, suffix: seq<int8>)
    requires WideLadder(ms) && source < target <= MAX_SUPPORTED_PREFIX && source * cells <= |residues|
    requires cell < cells && product == PrefixProduct(ms, source)
    requires Staged(suffix0, residues, cells, source, target, ms, signed, cell)
    ensures status == CellStatus(signed, ms, residues, cells, cell, source, maxMagnitude)
    ensures status == Success ==> Staged(suffix, residues, cells, source, target, ms, signed, cell + 1)
  {
    var value;
    suffix := suffix0;
    status, value := LiftCell(residues, cells, cell, source, ms, signed, maxMagnitude, product);
    if status == Success {
      suffix := WriteSuffixCell(suffix, cells, cell, source, target, ms, value);
    }
  }

  /** `stage_exact_cpu_lift`: reads the resident planes, writes only the staging buffer. */
  method StageLift(residues: seq<int8>, cells: nat, source: nat, target: nat, ms: seq<nat>, signed: bool,
                   maxMagnitude: int)
      returns (status: Status, suffix: seq<int8>)
    requires WideLadder(ms) && source < target <= MAX_SUPPORTED_PREFIX && source * cells <= |residues|
    ensures status == StageStatus(signed, ms, residues, cells, 0, source, maxMagnitude)
    ensures status == Success ==> Staged(suffix, residues, cells, source, target, ms, signed, cells)
  {
    var product := ModulusProduct(ms, source);
    suffix := seq((target - source) * cells, _ => 0);
    for cell := 0 to cells
      invariant StageStatus(signed, ms, residues, cells, 0, source, maxMagnitude)
        == StageStatus(signed, ms, residues, cells, cell, source, maxMagnitude)
      invariant Staged(suffix, residues, cells, source, target, ms, signed, cell)
    {
      status, suffix :=
        StageCell(suffix, residues, cells, cell, source, target, ms, signed, maxMagnitude, product);
      if status != Success {
        return;
      }
    }
    status := Success;
  }

  /** A byte of the spliced storage is the resident one below the source prefix and the staged one above. */
  lemma SplicedByte(residues: seq<int>, suffix: seq<int>, cells: nat, source: nat, target: nat, p: nat, i: nat)
    requires source <= target && p < target && i < cells
    requires source * cells <= target * cells <= |residues| && |suffix| == target * cells - source * cells
    ensures Resident(residues[..source * cells] + suffix + residues[target * cells..], cells, p, i)
      == if p < source then Resident(residues, cells, p, i) else Resident(suffix, cells, p - source, i)
  {
    var lo, hi := source * cells, target * cells;
    CellBounds(p, target, cells, i);
    if p < source {
      CellBounds(p, source, cells, i);
    } else {
      CellShift(p, source, cells, i);
      CellBounds(p - source, target - source, cells, i);
      CellShift(target, source, cells, 0);
    }
  }

  lemma CellShift(p: nat, source: nat, cells: nat, i: nat)
    requires source <= p
    ensures Cell(p, cells, i) == source * cells + Cell(p - source, cells, i)
  {
    assert (p - source) * cells == p * cells - source * cells;
  }

  /** Committing a staged suffix behind the source planes gives planes that hold the value further. */
  lemma SplicePlanes(residues: seq<int>, suffix: seq<int>, value: seq<int>, ms: seq<nat>, source: nat, target: nat,
                     capacity: nat)
    requires WideLadder(ms) && source <= target <= capacity && target <= MAX_SUPPORTED_PREFIX
    requires |residues| == capacity * |value| && |suffix| == (target - source) * |value|
    requires PlanesHold(residues, value, ms, source)
    requires forall p, i :: 0 <= p < target - source && 0 <= i < |value| ==>
      Resident(suffix, |value|, p, i) == Centered(value[i], ms[source + p])
    ensures target * |value| <= |residues| && source * |value| + |suffix| == target * |value|
    ensures PlanesHold(residues[..source * |value|] + suffix + residues[target * |value|..], value, ms, target)
  {
    var cells := |value|;
    MulMono(source, target, cells);
    MulMono(target, capacity, cells);
    CellShift(target, source, cells, 0);
    var spliced := residues[..source * cells] + suffix + residues[target * cells..];
    forall p, i | 0 <= p < target && 0 <= i < cells
      ensures Resident(spliced, cells, p, i) == Centered(value[i], ms[p])
    {
      SplicedByte(residues, suffix, cells, source, target, p, i);
    }
  }

  // Multiplying.

  /** One plane as the kernel's operand: resident if initialized, staged otherwise. */
  function PlaneOf(residues: seq<int8>, suffix: seq<int8>, cells: nat, source: nat, p: nat): (plane: seq<int8>)
    requires if p < source then source * cells <= |residues| else (p + 1 - source) * cells <= |suffix|
    ensures |plane| == cells
  {
    if p < source then MulMono(p + 1, source, cells); PlaneSlice(residues, cells, p)
    else PlaneSlice(suffix, cells, p - source)
  }

  function PlaneSlice(s: seq<int8>, cells: nat, p: nat): (plane: seq<int8>)
    requires (p + 1) * cells <= |s|
    ensures |plane| == cells
    ensures forall i :: 0 <= i < cells ==> plane[i] == Resident(s, cells, p, i)
  {
    NextPlane(p, cells);
    var lo := p * cells;
    s[lo..lo + cells]
  }

  lemma NextPlane(p: nat, cells: nat)
    ensures 0 <= p * cells && (p + 1) * cells == p * cells + cells
  {
  }

  ghost predicate PlaneHolds(plane: seq<int>, value: seq<int>, modulus: nat)
    requires modulus >= 2
  {
    |plane| == |value| && forall i :: 0 <= i < |value| ==> plane[i] == Centered(value[i], modulus)
  }

  /** Every plane below `selected`, resident or staged, holds the value. */
  lemma OperandPlane(residues: seq<int8>, suffix: seq<int8>, value: seq<int>, ms: seq<nat>, source: nat, selected: nat,
                     p: nat)
    requires WideLadder(ms) && p < selected <= MAX_SUPPORTED_PREFIX && source <= MAX_SUPPORTED_PREFIX
    requires PlanesHold(residues, value, ms, source)
    requires selected > source ==> |suffix| == (selected - source) * |value|
    requires selected > source ==> forall q, i :: 0 <= q < selected - source && 0 <= i < |value| ==>
      Resident(suffix, |value|, q, i) == Centered(value[i], ms[source + q])
    ensures p >= source ==> (p + 1 - source) * |value| <= |suffix|
    ensures PlaneHolds(PlaneOf(residues, suffix, |value|, source, p), value, ms[p])
  {
    if p >= source {
      MulMono(p + 1 - source, selected - source, |value|);
    }
    forall i | 0 <= i < |value|
      ensures PlaneOf(residues, suffix, |value|, source, p)[i] == Centered(value[i], ms[p])
    {
      PlaneOfElement(residues, suffix, |value|, source, p, i);
    }
  }

  lemma PlaneOfElement(residues: seq<int8>, suffix: seq<int8>, cells: nat, source: nat, p: nat, i: nat)
    requires i < cells
    requires if p < source then source * cells <= |residues| else (p + 1 - source) * cells <= |suffix|
    ensures PlaneOf(residues, suffix, cells, source, p)[i] ==
      if p < source then Resident(residues, cells, p, i) else Resident(suffix, cells, p - source, i)
  {
    if p < source {
      MulMono(p + 1, source, cells);
    }
  }

  /** A plane product of planes that hold `a` and `b` is the plane of the integer product. */
  lemma PlaneProduct(x: seq<int8>, y: seq<int8>, a: seq<int>, b: seq<int>, g: Geometry, row: nat, col: nat)
    requires 2 <= g.modulus <= 256 && PlaneHolds(x, a, g.modulus) && PlaneHolds(y, b, g.modulus)
    requires |a| == g.m * g.k && |b| == g.k * g.n && g.lda == g.k && g.ldb == g.ldc == g.n
    requires row < g.m && col < g.n
    ensures Holds(|a|, g.m, g.k, g.k) && Holds(|b|, g.k, g.n, g.n) && g.Valid(|x|, |y|)
    ensures PlaneCell(x, y, g, row, col, g.k) == Centered(ProductCell(a, b, g.m, g.k, g.n, row, col), g.modulus)
  {
    PackedHolds(g.m, g.k);
    PackedHolds(g.k, g.n);
    var xr, ar := RowOf(x, g.m, row, g.k, g.k), RowOf(a, g.m, row, g.k, g.k);
    var yc, bc := ColOf(y, g.k, g.n, g.n, col), ColOf(b, g.k, g.n, g.n, col);
    forall t | 0 <= t < g.k
      ensures xr[t] % g.modulus == ar[t] % g.modulus && yc[t] % g.modulus == bc[t] % g.modulus
    {
      CenteredProperties(ar[t], g.modulus);
      CenteredProperties(bc[t], g.modulus);
      assert xr[t] == ElementAt(x, g.m, g.k, g.k, row, t) && ar[t] == ElementAt(a, g.m, g.k, g.k, row, t);
      assert yc[t] == ElementAt(y, g.k, g.n, g.n, t, col) && bc[t] == ElementAt(b, g.k, g.n, g.n, t, col);
    }
    DotCong(xr, ar, yc, bc, g.k, g.modulus);
  }

  lemma {:induction false} DotNonNeg(x: seq<int>, y: seq<int>, n: nat)
    requires n <= |x| && n <= |y|
    requires forall t :: 0 <= t < n ==> x[t] >= 0 && y[t] >= 0
    ensures Dot(x, y, n) >= 0
  {
    if n > 0 {
      DotNonNeg(x, y, n - 1);
      MulNonNeg(x[n - 1], y[n - 1]);
    }
  }

  lemma ProductNonNeg(a: seq<int>, b: seq<int>, m: nat, k: nat, n: nat)
    requires |a| == m * k && |b| == k * n
    requires (forall i :: 0 <= i < |a| ==> a[i] >= 0) && (forall i :: 0 <= i < |b| ==> b[i] >= 0)
    ensures forall i :: 0 <= i < m * n ==> MatrixProduct(a, b, m, k, n)[i] >= 0
  {
    var p := MatrixProduct(a, b, m, k, n);
    forall i | 0 <= i < m * n
      ensures p[i] >= 0
    {
      CellFromFlat(m, n, i);
      var row, col := i / n, i % n;
      assert p[i] == ElementAt(p, m, n, n, row, col);
      var x, y := RowOf(a, m, row, k, k), ColOf(b, k, n, n, col);
      assert forall t :: 0 <= t < k ==> x[t] == ElementAt(a, m, k, k, row, t) && y[t] == ElementAt(b, k, n, n, t, col);
      DotNonNeg(x, y, k);
    }
  }
}
