/** The CPU reference's fixed-prefix bounded route and its one-modulus finite route (`src/cpu/cpu_reference.cpp`,
    `src/core/api_export.cpp`): pack, multiply every plane, export, for any coprime ladder of byte moduli. */
module CpuGemm {
  import opened IntMath
  import opened Ladder
  import opened Centering
  import opened Garner
  import opened Vectors
  import opened ResidueGemm
  import opened ExactRange
  import opened WidePlanes
  import opened ExactWide
  import opened ExactExport

  predicate ByteModuli(ms: seq<nat>, n: nat)
  {
    n <= |ms| && forall p :: 0 <= p < n ==> 2 <= ms[p] <= 256
  }

  /** `cpu_gemm_rns` without a tile schedule: planes that hold A and B give planes that hold A times B, for any
      inner dimension; bytes behind the plan's prefix stay. */
  method GemmRns(a: seq<int8>, b: seq<int8>, c: array<int8>, m: nat, k: nat, n: nat, ms: seq<nat>, prefix: nat,
                 ghost aValue: seq<int>, ghost bValue: seq<int>)
    requires ByteModuli(ms, prefix) && |aValue| == m * k && |bValue| == k * n && prefix * (m * n) <= c.Length
    requires PlanesHold(a, aValue, ms, prefix) && PlanesHold(b, bValue, ms, prefix)
    modifies c
    ensures PlanesHold(c[..], MatrixProduct(aValue, bValue, m, k, n), ms, prefix)
    ensures forall i :: prefix * (m * n) <= i < c.Length ==> c[i] == old(c[i])
  {
    var acc := new int32[n];
    for plane := 0 to prefix
      invariant PlanesHold(c[..], MatrixProduct(aValue, bValue, m, k, n), ms, plane)
      invariant forall i :: prefix * (m * n) <= i < c.Length ==> c[i] == old(c[i])
    {
      MulMono(plane + 1, prefix, m * k);
      MulMono(plane + 1, prefix, k * n);
      MulMono(plane + 1, prefix, m * n);
      NextPlane(plane, m * n);
      var x, y := PlaneSlice(a, m * k, plane), PlaneSlice(b, k * n, plane);
      MultiplyNextPlane(x, y, c, plane, m, k, n, ms, acc, aValue, bValue);
    }
  }

  /** The value a bounded export returns for an entry: within the declared bound and the 64-bit type, and equal
      to the entry modulo every modulus. */
  ghost predicate Recovers(signed: bool, ms: seq<nat>, prefix: nat, bound: int, entry: int, w: int)
    requires Moduli(ms) && prefix <= |ms|
  {
    WithinBound(signed, w, bound) && FitsWord(signed, w) && SameResidues(w, entry, ms, prefix)
  }

  ghost predicate Recoverable(signed: bool, ms: seq<nat>, prefix: nat, bound: int, entry: int)
    requires Moduli(ms) && prefix <= |ms|
  {
    && !(signed && bound > TWO_63) && RangeFits(signed, bound, PrefixProduct(ms, prefix))
    && exists w :: Recovers(signed, ms, prefix, bound, entry, w)
  }

  /** Within a covered bound there is nothing else to recover than the entry itself. */
  lemma RecoversOnlyItself(signed: bool, ms: seq<nat>, prefix: nat, bound: int, entry: int, w: int)
    requires ByteLadder(ms, prefix) && RangeFits(signed, bound, PrefixProduct(ms, prefix))
    requires WithinBound(signed, entry, bound) && Recovers(signed, ms, prefix, bound, entry, w)
    ensures w == entry
  {
    ResiduesDetermine(ms, prefix, w, entry);
    CongClose(w, entry, PrefixProduct(ms, prefix));
  }

  /** The first planes of one cell hold the residues of an integer. */
  ghost predicate CellPlanes(residues: seq<int>, cells: nat, cell: nat, prefix: nat, ms: seq<nat>, entry: int)
    requires ByteModuli(ms, prefix)
  {
    && prefix * cells <= |residues| && cell < cells
    && forall p :: 0 <= p < prefix ==> Resident(residues, cells, p, cell) == Centered(entry, ms[p])
  }

  /** Gather and reconstruct one cell. */
  method ExportCell(signed: bool, ms: seq<nat>, residues: seq<int8>, cells: nat, cell: nat, prefix: nat,
                    bound: uint64, ghost entry: int)
      returns (status: Status, out: int)
    requires 1 <= prefix <= MAX_SUPPORTED_PREFIX && ByteLadder(ms, prefix)
    requires CellPlanes(residues, cells, cell, prefix, ms, entry)
    ensures status == Success <==> Recoverable(signed, ms, prefix, bound, entry)
    ensures status == InvalidArgument <==> signed && bound > TWO_63
    ensures status != WorkspaceTooSmall
    ensures status == Success ==> Recovers(signed, ms, prefix, bound, entry, out)
  {
    var rs := GatherCell(residues, cells, cell, prefix);
    forall q | 0 <= q < prefix
      ensures -0x80 <= rs[q] <= 0x7f && rs[q] % ms[q] == entry % ms[q] && 0 <= rs[q] + ms[q]
    {
      assert rs[q] == Resident(residues, cells, q, cell);
      CenteredProperties(entry, ms[q]);
    }
    forall w
      ensures SameResidues(w, entry, ms, prefix) <==> Matches(w, rs, ms, prefix)
    {
    }
    status, out := ReconstructBounded(signed, ms, rs, prefix, bound);
    assert status == Success ==> Recovers(signed, ms, prefix, bound, entry, out);
  }

  ghost predicate CellCopied(dst: seq<int>, staged: seq<int>, cols: nat, ld: nat, row: nat, col: nat)
  {
    && Cell(row, cols, col) < |staged| && Cell(row, ld, col) < |dst|
    && dst[Cell(row, ld, col)] == staged[Cell(row, cols, col)]
  }

  /** The copy loop of the exports: every cell at its place in the padded output, and nothing else. */
  method CopyCells(staged: seq<int>, dst: array<int>, rows: nat, cols: nat, ld: nat)
    requires |staged| == rows * cols && Holds(dst.Length, rows, cols, ld)
    modifies dst
    ensures forall r, c :: 0 <= r < rows && 0 <= c < cols ==> CellCopied(dst[..], staged, cols, ld, r, c)
    ensures forall j :: 0 <= j < dst.Length && !InMatrix(j, rows, cols, ld) ==> dst[j] == old(dst[j])
  {
    PackedHolds(rows, cols);
    for row := 0 to rows
      invariant forall r, c :: 0 <= r < row && 0 <= c < cols ==> CellCopied(dst[..], staged, cols, ld, r, c)
      invariant forall j :: 0 <= j < dst.Length && !InMatrix(j, rows, cols, ld) ==> dst[j] == old(dst[j])
    {
      RowInBounds(|staged|, rows, cols, cols, row);
      RowInBounds(dst.Length, rows, cols, ld, row);
      for col := 0 to cols
        invariant forall r, c :: 0 <= r < row && 0 <= c < cols ==> CellCopied(dst[..], staged, cols, ld, r, c)
        invariant forall c :: 0 <= c < col ==> CellCopied(dst[..], staged, cols, ld, row, c)
        invariant forall j :: 0 <= j < dst.Length && !InMatrix(j, rows, cols, ld) ==> dst[j] == old(dst[j])
      {
        ghost var before := dst[..];
        dst[Cell(row, ld, col)] := staged[Cell(row, cols, col)];
        forall r, c | 0 <= r <= row && 0 <= c < cols && (r < row || c < col)
          ensures CellCopied(dst[..], staged, cols, ld, r, c)
        {
          assert CellCopied(before, staged, cols, ld, r, c);
          if Cell(r, ld, c) == Cell(row, ld, col) {
            CellInjective(r, c, row, col, ld);
          }
        }
      }
    }
  }

  /** What a bounded export leaves in the output cell of one entry. */
  ghost predicate CellRecovered(dst: seq<int>, signed: bool, ms: seq<nat>, prefix: nat, bound: int, value: seq<int>,
                                cols: nat, ld: nat, row: nat, col: nat)
    requires Moduli(ms) && prefix <= |ms|
  {
    && Cell(row, cols, col) < |value| && Cell(row, ld, col) < |dst|
    && Recovers(signed, ms, prefix, bound, value[Cell(row, cols, col)], dst[Cell(row, ld, col)])
  }

  /** `rns8_export_i64` and `rns8_export_u64` without a tile schedule: all cells are reconstructed before any is
      written, the export succeeds exactly when every entry is recoverable, and a failed one writes nothing. */
  method ExportBounded(signed: bool, ms: seq<nat>, residues: seq<int8>, rows: nat, cols: nat, prefix: nat,
                       bound: uint64, dst: array<int>, ld: nat, ghost value: seq<int>)
      returns (status: Status)
    requires 1 <= prefix <= MAX_SUPPORTED_PREFIX && ByteLadder(ms, prefix) && PlanesHold(residues, value, ms, prefix)
    requires |value| == rows * cols && Holds(dst.Length, rows, cols, ld)
    modifies dst
    ensures status == Success <==> forall i :: 0 <= i < |value| ==> Recoverable(signed, ms, prefix, bound, value[i])
    ensures status == InvalidArgument <==> |value| > 0 && signed && bound > TWO_63
    ensures status != WorkspaceTooSmall
    ensures status == Success ==> forall r, c :: 0 <= r < rows && 0 <= c < cols ==>
      CellRecovered(dst[..], signed, ms, prefix, bound, value, cols, ld, r, c)
    ensures status != Success ==> dst[..] == old(dst[..])
    ensures forall j :: 0 <= j < dst.Length && !InMatrix(j, rows, cols, ld) ==> dst[j] == old(dst[j])
  {
    var staged: seq<int> := [];
    status := Success;
    for cell := 0 to rows * cols
      invariant |staged| == cell && dst[..] == old(dst[..])
      invariant (status == InvalidArgument <==> cell > 0 && signed && bound > TWO_63) && status != WorkspaceTooSmall
      invariant status == Success <==> forall i :: 0 <= i < cell ==> Recoverable(signed, ms, prefix, bound, value[i])
      invariant status == Success ==> forall i :: 0 <= i < cell ==> Recovers(signed, ms, prefix, bound, value[i], staged[i])
    {
      var cellStatus, out := ExportCell(signed, ms, residues, rows * cols, cell, prefix, bound, value[cell]);
      if status == Success {
        status := cellStatus;
      }
      staged := staged + [out];
    }
    if status == Success {
      CopyCells(staged, dst, rows, cols, ld);
      forall r, c | 0 <= r < rows && 0 <= c < cols
        ensures CellRecovered(dst[..], signed, ms, prefix, bound, value, cols, ld, r, c)
      {
        assert CellCopied(dst[..], staged, cols, ld, r, c);
      }
    }
  }

  /** The integer a padded output cell should hold: row times column of the native operands. */
  ghost predicate CellIsProduct(dst: seq<int>, srcA: seq<int>, lda: nat, srcB: seq<int>, ldb: nat, ldc: nat, m: nat,
                                k: nat, n: nat, row: nat, col: nat)
    requires Holds(|srcA|, m, k, lda) && Holds(|srcB|, k, n, ldb) && row < m && col < n
  {
    Cell(row, ldc, col) < |dst| && dst[Cell(row, ldc, col)] == Dot(RowOf(srcA, m, row, lda, k), ColOf(srcB, k, n, ldb, col), k)
  }

  ghost function PackedProduct(srcA: seq<int>, lda: nat, srcB: seq<int>, ldb: nat, m: nat, k: nat, n: nat): (p: seq<int>)
    requires Holds(|srcA|, m, k, lda) && Holds(|srcB|, k, n, ldb)
    ensures |p| == m * n
  {
    MatrixProduct(Flatten(srcA, m, k, lda), Flatten(srcB, k, n, ldb), m, k, n)
  }

  /** Pack, multiply, export under a declared bound.  If the bound is true of the product, the run succeeds exactly
      when the prefix covers the bound and every entry fits the output type, and then every output cell is the
      exact integer dot product. */
  method BoundedProduct(signed: bool, ms: seq<nat>, prefix: nat, srcA: seq<int>, lda: nat, srcB: seq<int>, ldb: nat,
                        m: nat, k: nat, n: nat, bound: uint64, dst: array<int>, ldc: nat)
      returns (status: Status)
    requires 1 <= prefix <= MAX_SUPPORTED_PREFIX && ByteLadder(ms, prefix)
    requires Holds(|srcA|, m, k, lda) && Holds(|srcB|, k, n, ldb) && Holds(dst.Length, m, n, ldc)
    modifies dst
    ensures status != Success ==> dst[..] == old(dst[..])
    ensures forall j :: 0 <= j < dst.Length && !InMatrix(j, m, n, ldc) ==> dst[j] == old(dst[j])
    ensures var p := PackedProduct(srcA, lda, srcB, ldb, m, k, n);
      (forall i :: 0 <= i < |p| ==> WithinBound(signed, p[i], bound)) ==>
        && (status == Success ==> forall row, col :: 0 <= row < m && 0 <= col < n ==>
             CellIsProduct(dst[..], srcA, lda, srcB, ldb, ldc, m, k, n, row, col))
        && (m * n > 0 ==> (status == Success <==>
             && !(signed && bound > TWO_63) && RangeFits(signed, bound, PrefixProduct(ms, prefix))
             && (forall i :: 0 <= i < |p| ==> IsWord(signed, p[i]))))
    ensures var p := PackedProduct(srcA, lda, srcB, ldb, m, k, n);
      (forall i :: 0 <= i < |p| ==> WithinBound(signed, p[i], bound)) && status != Success
      && RangeFits(signed, bound, PrefixProduct(ms, prefix)) ==>
        signed && (bound > 0x8000_0000_0000_0000 || exists i :: 0 <= i < |p| && p[i] == 0x8000_0000_0000_0000)
  {
    var a := PackPlanes(srcA, m, k, lda, ms, prefix);
    var b := PackPlanes(srcB, k, n, ldb, ms, prefix);
    ghost var av, bv := Flatten(srcA, m, k, lda), Flatten(srcB, k, n, ldb);
    ghost var p := PackedProduct(srcA, lda, srcB, ldb, m, k, n);
    var c := new int8[prefix * (m * n)];
    GemmRns(a, b, c, m, k, n, ms, prefix, av, bv);
    status := ExportBounded(signed, ms, c[..], m, n, prefix, bound, dst, ldc, p);
    if forall i :: 0 <= i < |p| ==> WithinBound(signed, p[i], bound) {
      TrueBoundOutcome(signed, ms, prefix, bound, p);
      forall row, col | status == Success && 0 <= row < m && 0 <= col < n
        ensures CellIsProduct(dst[..], srcA, lda, srcB, ldb, ldc, m, k, n, row, col)
      {
        assert CellRecovered(dst[..], signed, ms, prefix, bound, p, n, ldc, row, col);
        RecoversOnlyItself(signed, ms, prefix, bound, p[Cell(row, n, col)], dst[Cell(row, ldc, col)]);
        FlattenedProduct(srcA, lda, srcB, ldb, m, k, n, row, col);
      }
    }
  }

  /** An entry within a declared bound is recoverable exactly when the bound and the entry are admissible. */
  lemma TrueBoundRecovers(signed: bool, ms: seq<nat>, prefix: nat, bound: int, entry: int)
    requires ByteLadder(ms, prefix) && WithinBound(signed, entry, bound)
    ensures Recoverable(signed, ms, prefix, bound, entry) <==>
      !(signed && bound > TWO_63) && RangeFits(signed, bound, PrefixProduct(ms, prefix)) && FitsWord(signed, entry)
  {
    if Recoverable(signed, ms, prefix, bound, entry) {
      var w :| Recovers(signed, ms, prefix, bound, entry, w);
      RecoversOnlyItself(signed, ms, prefix, bound, entry, w);
    } else if RangeFits(signed, bound, PrefixProduct(ms, prefix)) && FitsWord(signed, entry) {
      assert Recovers(signed, ms, prefix, bound, entry, entry);
    }
  }

  /** Under a true bound all entries are recoverable exactly when the bound is admissible and covered and every
      entry is of the output type; under a true and covered bound only the signed type can be missed, at 2^63. */
  lemma TrueBoundOutcome(signed: bool, ms: seq<nat>, prefix: nat, bound: int, p: seq<int>)
    requires ByteLadder(ms, prefix) && 0 <= bound < TWO_64 && forall i :: 0 <= i < |p| ==> WithinBound(signed, p[i], bound)
    ensures |p| > 0 ==>
      ((forall i :: 0 <= i < |p| ==> Recoverable(signed, ms, prefix, bound, p[i])) <==>
        (&& !(signed && bound > TWO_63) && RangeFits(signed, bound, PrefixProduct(ms, prefix))
         && (forall i :: 0 <= i < |p| ==> IsWord(signed, p[i]))))
    ensures RangeFits(signed, bound, PrefixProduct(ms, prefix)) ==>
      forall i :: 0 <= i < |p| && !Recoverable(signed, ms, prefix, bound, p[i]) ==>
        signed && (bound > 0x8000_0000_0000_0000 || p[i] == 0x8000_0000_0000_0000)
  {
    forall i | 0 <= i < |p|
      ensures Recoverable(signed, ms, prefix, bound, p[i]) <==>
        !(signed && bound > TWO_63) && RangeFits(signed, bound, PrefixProduct(ms, prefix)) && IsWord(signed, p[i])
      ensures !IsWord(signed, p[i]) && bound <= TWO_63 ==> signed && p[i] == 0x8000_0000_0000_0000
      ensures !IsWord(signed, p[i]) ==> signed
    {
      TrueBoundRecovers(signed, ms, prefix, bound, p[i]);
      FitsWordIff(signed, p[i]);
    }
    if |p| > 0 {
      TrueBoundRecovers(signed, ms, prefix, bound, p[0]);
    }
  }

  // One modulus: the finite ring and field.

  /** `export_finite_u8_matrix`: centered bytes leave as canonical ones. */
  method ExportFinite(plane: seq<int8>, rows: nat, cols: nat, modulus: nat, dst: array<int>, ld: nat,
                      ghost value: seq<int>)
    requires 2 <= modulus <= 256 && PlaneHolds(plane, value, modulus)
    requires |value| == rows * cols && Holds(dst.Length, rows, cols, ld)
    modifies dst
    ensures forall r, c :: 0 <= r < rows && 0 <= c < cols ==> CellReduced(dst[..], value, modulus, cols, ld, r, c)
    ensures forall j :: 0 <= j < dst.Length && !InMatrix(j, rows, cols, ld) ==> dst[j] == old(dst[j])
  {
    var staged: seq<int> := [];
    for cell := 0 to rows * cols
      invariant |staged| == cell && dst[..] == old(dst[..])
      invariant forall i :: 0 <= i < cell ==> staged[i] == value[i] % modulus
    {
      CanonicalOfCentered(value[cell], modulus);
      SmallMod(value[cell] % modulus, 256);
      staged := staged + [CanonicalFromCentered(plane[cell], modulus) % 256];
    }
    CopyCells(staged, dst, rows, cols, ld);
    forall r, c | 0 <= r < rows && 0 <= c < cols
      ensures CellReduced(dst[..], value, modulus, cols, ld, r, c)
    {
      assert CellCopied(dst[..], staged, cols, ld, r, c);
    }
  }

  ghost predicate CellReduced(dst: seq<int>, value: seq<int>, modulus: nat, cols: nat, ld: nat, row: nat, col: nat)
    requires modulus >= 1
  {
    && Cell(row, cols, col) < |value| && Cell(row, ld, col) < |dst|
    && dst[Cell(row, ld, col)] == value[Cell(row, cols, col)] % modulus
  }

  /** `pack_finite_u8_matrix`, `cpu_gemm_finite_u8` and `export_finite_u8_matrix`: the product of two byte
      matrices modulo any byte modulus, as canonical bytes. */
  method FiniteProduct(modulus: nat, srcA: seq<int>, lda: nat, srcB: seq<int>, ldb: nat, m: nat, k: nat, n: nat,
                       dst: array<int>, ldc: nat)
    requires 2 <= modulus <= 256
    requires Holds(|srcA|, m, k, lda) && Holds(|srcB|, k, n, ldb) && Holds(dst.Length, m, n, ldc)
    modifies dst
    ensures forall row, col :: 0 <= row < m && 0 <= col < n ==>
      CellIsResidue(dst[..], modulus, srcA, lda, srcB, ldb, ldc, m, k, n, row, col)
    ensures forall j :: 0 <= j < dst.Length && !InMatrix(j, m, n, ldc) ==> dst[j] == old(dst[j])
  {
    var a := PackPlane(srcA, m, k, lda, modulus);
    var b := PackPlane(srcB, k, n, ldb, modulus);
    var c, acc := new int8[m * n], new int32[n];
    ghost var p := PackedProduct(srcA, lda, srcB, ldb, m, k, n);
    MultiplyPlane(a, b, c, 0, Geometry(m, n, k, k, n, n, modulus), acc, Flatten(srcA, m, k, lda), Flatten(srcB, k, n, ldb));
    assert PlaneHolds(c[..], p, modulus) by {
      assert forall i :: 0 <= i < m * n ==> c[0 + i] == Centered(p[i], modulus);
    }
    ExportFinite(c[..], m, n, modulus, dst, ldc, p);
    forall row, col | 0 <= row < m && 0 <= col < n
      ensures CellIsResidue(dst[..], modulus, srcA, lda, srcB, ldb, ldc, m, k, n, row, col)
    {
      assert CellReduced(dst[..], p, modulus, n, ldc, row, col);
      FlattenedProduct(srcA, lda, srcB, ldb, m, k, n, row, col);
    }
  }

  ghost predicate CellIsResidue(dst: seq<int>, modulus: nat, srcA: seq<int>, lda: nat, srcB: seq<int>, ldb: nat,
                                ldc: nat, m: nat, k: nat, n: nat, row: nat, col: nat)
    requires Holds(|srcA|, m, k, lda) && Holds(|srcB|, k, n, ldb) && row < m && col < n && modulus >= 1
  {
    && Cell(row, ldc, col) < |dst|
    && dst[Cell(row, ldc, col)] == Dot(RowOf(srcA, m, row, lda, k), ColOf(srcB, k, n, ldb, col), k) % modulus
  }
}
