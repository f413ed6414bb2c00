/** Per-tile bounds (`src/core/api_plan_schedule.inc`, the scheduled branch of `cpu_gemm_rns` and the bounded
    exports): every output tile is computed on just the planes its own bound needs, and may be skipped when
    its bound is zero. */
module TiledGemm {
  import opened IntMath
  import opened Ladder
  import opened Centering
  import opened Garner
  import opened Vectors
  import opened ResidueGemm
  import opened ExactRange
  import opened WidePlanes
  import opened ExactWide
  import opened CpuGemm

  datatype Tile = Tile(rowOffset: nat, colOffset: nat, rowExtent: nat, colExtent: nat, prefix: nat, zero: bool)

  predicate InTile(t: Tile, row: int, col: int)
  {
    t.rowOffset <= row < t.rowOffset + t.rowExtent && t.colOffset <= col < t.colOffset + t.colExtent
  }

  /** The output shape and the tile shape. */
  datatype Grid = Grid(m: nat, n: nat, tileM: nat, tileN: nat)
  {
    predicate Valid() { 0 < m && 0 < n && 0 < tileM && 0 < tileN }
    function TileRows(): nat requires Valid() { (m + tileM - 1) / tileM }
    function TileCols(): nat requires Valid() { (n + tileN - 1) / tileN }
    function Count(): nat requires Valid() { Cell(TileRows(), TileCols(), 0) }
    /** `tile_index_for_cell`. */
    function IndexOf(row: nat, col: nat): nat requires Valid() { Cell(row / tileM, TileCols(), col / tileN) }
  }

  /** `ceil_div_i64_u32`: the tiles of one axis cover it, and each begins inside it. */
  lemma CeilCovers(length: nat, tile: nat, i: nat)
    requires 0 < tile
    ensures i < length ==> i / tile < (length + tile - 1) / tile
    ensures i < (length + tile - 1) / tile ==> i * tile < length
  {
    var count := (length + tile - 1) / tile;
    assert length + tile - 1 == count * tile + (length + tile - 1) % tile;
    assert i == i / tile * tile + i % tile;
    if i < length {
      MulCancel(i / tile, count, tile);
    }
    if i < count {
      MulMono(i + 1, count, tile);
      assert (i + 1) * tile == i * tile + tile;
    }
  }

  /** A position lies in the stretch of a tile exactly when division by the tile length says so. */
  lemma StretchIff(position: nat, tile: nat, length: nat, i: nat)
    requires 0 < tile && position < length
    ensures i * tile <= position < i * tile + Min(tile, length - i * tile) <==> position / tile == i
  {
    var q, r := position / tile, position % tile;
    assert position == q * tile + r;
    if i < q {
      MulMono(i + 1, q, tile);
      assert (i + 1) * tile == i * tile + tile;
    } else if q < i {
      MulMono(q + 1, i, tile);
      assert (q + 1) * tile == q * tile + tile;
    }
  }

  /** The entry the schedule holds for tile `i`: its place and extent come from its index. */
  ghost predicate PlacedTile(g: Grid, t: Tile, i: nat)
    requires g.Valid() && i < g.Count()
  {
    && 0 < g.TileCols()
    && t.rowOffset == i / g.TileCols() * g.tileM && t.colOffset == i % g.TileCols() * g.tileN
    && t.rowOffset < g.m && t.colOffset < g.n
    && t.rowExtent == Min(g.tileM, g.m - t.rowOffset) && t.colExtent == Min(g.tileN, g.n - t.colOffset)
  }

  ghost predicate Placed(g: Grid, tiles: seq<Tile>)
  {
    g.Valid() && |tiles| == g.Count() && forall i :: 0 <= i < |tiles| ==> PlacedTile(g, tiles[i], i)
  }

  lemma FlatIndex(tr: nat, tc: nat, rows: nat, cols: nat)
    requires tr < rows && tc < cols
    ensures Cell(tr, cols, tc) < Cell(rows, cols, 0) && Cell(tr, cols, tc) / cols == tr && Cell(tr, cols, tc) % cols == tc
  {
    CellBounds(tr, rows, cols, tc);
    DivModUnique(Cell(tr, cols, tc), tr, tc, cols);
  }

  lemma IndexInRange(g: Grid, row: nat, col: nat)
    requires g.Valid() && row < g.m && col < g.n
    ensures g.IndexOf(row, col) < g.Count()
    ensures g.IndexOf(row, col) / g.TileCols() == row / g.tileM && g.IndexOf(row, col) % g.TileCols() == col / g.tileN
  {
    CeilCovers(g.m, g.tileM, row);
    CeilCovers(g.n, g.tileN, col);
    FlatIndex(row / g.tileM, col / g.tileN, g.TileRows(), g.TileCols());
  }

  lemma FlatIndexIff(i: nat, tr: nat, tc: nat, cols: nat)
    requires tc < cols
    ensures i == Cell(tr, cols, tc) <==> i / cols == tr && i % cols == tc
  {
    DivModUnique(Cell(tr, cols, tc), tr, tc, cols);
    assert i == i / cols * cols + i % cols;
  }

  lemma StretchOf(position: nat, tile: nat, length: nat, i: nat, offset: nat, extent: nat)
    requires 0 < tile && position < length && offset == i * tile && extent == Min(tile, length - offset)
    ensures offset <= position < offset + extent <==> position / tile == i
  {
    StretchIff(position, tile, length, i);
  }

  /** The tiles partition the output: each cell lies in the tile its index names and in no other. */
  lemma TilesPartition(g: Grid, tiles: seq<Tile>, i: nat, row: nat, col: nat)
    requires Placed(g, tiles) && i < |tiles| && row < g.m && col < g.n
    ensures g.IndexOf(row, col) < |tiles|
    ensures InTile(tiles[i], row, col) <==> i == g.IndexOf(row, col)
  {
    IndexInRange(g, row, col);
    CeilCovers(g.n, g.tileN, col);
    var t, w := tiles[i], g.TileCols();
    assert PlacedTile(g, t, i);
    StretchOf(row, g.tileM, g.m, i / w, t.rowOffset, t.rowExtent);
    StretchOf(col, g.tileN, g.n, i % w, t.colOffset, t.colExtent);
    FlatIndexIff(i, row / g.tileM, col / g.tileN, w);
  }

  // Configuring.

  /** `required_prefix_for_range`: the least prefix whose product exceeds the range, or 0. */
  method RequiredPrefix(ms: seq<nat>, range: nat) returns (prefix: nat)
    requires |ms| >= MAX_SUPPORTED_PREFIX
    ensures prefix <= MAX_SUPPORTED_PREFIX
    ensures prefix > 0 ==> PrefixProduct(ms, prefix) > range
    ensures forall p :: 1 <= p < (if prefix == 0 then MAX_SUPPORTED_PREFIX + 1 else prefix) ==> PrefixProduct(ms, p) <= range
  {
    var product := 1;
    for p := 1 to MAX_SUPPORTED_PREFIX + 1
      invariant product == PrefixProduct(ms, p - 1)
      invariant forall q :: 1 <= q < p ==> PrefixProduct(ms, q) <= range
    {
      product := product * ms[p - 1];
      if product > range {
        return p;
      }
    }
    prefix := 0;
  }

  datatype Schedule = Schedule(signed: bool, planPrefix: nat, fixedPrefix: bool, skipZeroTiles: bool)

  /** A tile's bound is admissible: signed bounds have a signed magnitude, and the plan's prefix covers it. */
  ghost predicate BoundFits(s: Schedule, ms: seq<nat>, bound: nat)
    requires |ms| >= MAX_SUPPORTED_PREFIX >= s.planPrefix
  {
    !(s.signed && bound > TWO_63) && RangeFits(s.signed, bound, PrefixProduct(ms, s.planPrefix))
  }

  /** The planes and the skip flag a tile's bound gives it: the least covering prefix unless the plan fixes one. */
  ghost predicate Selected(s: Schedule, ms: seq<nat>, bound: nat, t: Tile)
    requires |ms| >= MAX_SUPPORTED_PREFIX >= s.planPrefix >= 1 && BoundFits(s, ms, bound)
  {
    && t.prefix == (if s.fixedPrefix then s.planPrefix else LeastFit(s.signed, ms, bound, 1, s.planPrefix))
    && t.zero == (s.skipZeroTiles && bound == 0)
  }

  method SelectTile(s: Schedule, ms: seq<nat>, bound: uint64) returns (status: Status, prefix: nat, zero: bool)
    requires |ms| >= MAX_SUPPORTED_PREFIX >= s.planPrefix >= 1 && Moduli(ms)
    ensures status == if s.signed && bound > TWO_63 then InvalidArgument
                      else if BoundFits(s, ms, bound) then Success else RangeError
    ensures status == Success ==> 1 <= prefix <= s.planPrefix
    ensures status == Success ==>
      forall t: Tile :: t.prefix == prefix && t.zero == zero ==> Selected(s, ms, bound, t)
  {
    prefix, zero := 0, s.skipZeroTiles && bound == 0;
    if s.signed && bound > TWO_63 {
      return InvalidArgument, prefix, zero;
    }
    var required := RequiredPrefix(ms, if s.signed then 2 * bound else bound);
    if required == 0 || required > s.planPrefix {
      return RangeError, prefix, zero;
    }
    FitsUpward(s.signed, ms, bound, required, s.planPrefix);
    status, prefix := Success, if s.fixedPrefix then s.planPrefix else required;
  }

  /** The first inadmissible bound, if any, decides how configuring fails. */
  ghost predicate FirstIsInvalid(s: Schedule, ms: seq<nat>, bounds: seq<uint64>)
    requires |ms| >= MAX_SUPPORTED_PREFIX >= s.planPrefix
  {
    exists i :: 0 <= i < |bounds| && s.signed && bounds[i] > TWO_63 && forall j :: 0 <= j < i ==> BoundFits(s, ms, bounds[j])
  }

  ghost predicate AllFit(s: Schedule, ms: seq<nat>, bounds: seq<uint64>)
    requires |ms| >= MAX_SUPPORTED_PREFIX >= s.planPrefix
  {
    forall i :: 0 <= i < |bounds| ==> BoundFits(s, ms, bounds[i])
  }

  ghost predicate StoredWithin(tiles: seq<Tile>, storage: nat)
  {
    forall i :: 0 <= i < |tiles| ==> 1 <= tiles[i].prefix <= storage
  }

  /** The schedule of the first `n` bounds. */
  ghost predicate Configured(s: Schedule, ms: seq<nat>, g: Grid, bounds: seq<uint64>, tiles: seq<Tile>, n: nat,
                             storage: nat)
    requires g.Valid() && |ms| >= MAX_SUPPORTED_PREFIX >= s.planPrefix >= 1 && n <= |bounds| == g.Count()
  {
    && |tiles| == n && StoredWithin(tiles, storage) && storage <= s.planPrefix
    && (storage == 0 || exists i :: 0 <= i < n && tiles[i].prefix == storage)
    && forall i :: 0 <= i < n ==>
      PlacedTile(g, tiles[i], i) && BoundFits(s, ms, bounds[i]) && Selected(s, ms, bounds[i], tiles[i])
  }

  lemma ConfiguredNext(s: Schedule, ms: seq<nat>, g: Grid, bounds: seq<uint64>, tiles: seq<Tile>, n: nat, storage: nat,
                       t: Tile)
    requires g.Valid() && |ms| >= MAX_SUPPORTED_PREFIX >= s.planPrefix >= 1 && n < |bounds| == g.Count()
    requires Configured(s, ms, g, bounds, tiles, n, storage) && 1 <= t.prefix <= s.planPrefix
    requires PlacedTile(g, t, n) && BoundFits(s, ms, bounds[n]) && Selected(s, ms, bounds[n], t)
    ensures Configured(s, ms, g, bounds, tiles + [t], n + 1, Max(storage, t.prefix))
  {
    var next := tiles + [t];
    if storage > t.prefix {
      var i :| 0 <= i < n && tiles[i].prefix == storage;
      assert next[i].prefix == storage;
    } else {
      assert next[n].prefix == t.prefix;
    }
  }

  /** The per-tile part of `configure_plan_schedule`: it succeeds exactly when there is one admissible bound per
      tile; the storage needs only as many planes as the most demanding tile. */
  method ConfigureTiles(s: Schedule, ms: seq<nat>, g: Grid, bounds: seq<uint64>)
      returns (status: Status, tiles: seq<Tile>, storage: nat)
    requires g.Valid() && |ms| >= MAX_SUPPORTED_PREFIX >= s.planPrefix >= 1 && Moduli(ms)
    ensures status == if |bounds| != g.Count() then InvalidArgument else if AllFit(s, ms, bounds) then Success
                      else if FirstIsInvalid(s, ms, bounds) then InvalidArgument else RangeError
    ensures status == Success ==> Configured(s, ms, g, bounds, tiles, g.Count(), storage)
  {
    tiles, storage := [], 0;
    if |bounds| != g.Count() {
      return InvalidArgument, [], 0;
    }
    for index := 0 to |bounds|
      invariant Configured(s, ms, g, bounds, tiles, index, storage)
    {
      var prefix, zero;
      status, prefix, zero := SelectTile(s, ms, bounds[index]);
      if status != Success {
        return status, [], 0;
      }
      var tile := PlaceTile(g, index, prefix, zero);
      ConfiguredNext(s, ms, g, bounds, tiles, index, storage, tile);
      tiles, storage := tiles + [tile], Max(storage, prefix);
    }
    status := Success;
  }

  /** `make_tile_schedule_entry`. */
  method PlaceTile(g: Grid, index: nat, prefix: nat, zero: bool) returns (t: Tile)
    requires g.Valid() && index < g.Count()
    ensures PlacedTile(g, t, index) && t.prefix == prefix && t.zero == zero
  {
    var w := g.TileCols();
    CeilCovers(g.n, g.tileN, 0);
    CellFromFlat(g.TileRows(), w, index);
    CeilCovers(g.m, g.tileM, index / w);
    CeilCovers(g.n, g.tileN, index % w);
    MulNonNeg(index / w, g.tileM);
    MulNonNeg(index % w, g.tileN);
    var rowOffset, colOffset := index / w * g.tileM, index % w * g.tileN;
    t := Tile(rowOffset, colOffset, Min(g.tileM, g.m - rowOffset), Min(g.tileN, g.n - colOffset), prefix, zero);
  }

  // Multiplying.

  /** The byte at plane `p` of cell (row, col). */
  function ByteAt(c: seq<int>, g: Grid, p: nat, row: nat, col: nat): int
  {
    Resident(c, g.m * g.n, p, Cell(row, g.n, col))
  }

  /** The integer at cell (row, col) of a packed product. */
  function Entry(product: seq<int>, g: Grid, row: nat, col: nat): int
    requires |product| == g.m * g.n && row < g.m && col < g.n
  {
    CellBounds(row, g.m, g.n, col);
    product[Cell(row, g.n, col)]
  }

  /** What a tile leaves in its cells: zero if it is skipped, the residue of the product otherwise. */
  function TileByte(t: Tile, product: seq<int>, g: Grid, modulus: nat, row: nat, col: nat): int
    requires |product| == g.m * g.n && row < g.m && col < g.n && modulus >= 1
  {
    if t.zero then 0 else Centered(Entry(product, g, row, col), modulus)
  }

  ghost predicate TilePlaneDone(c: seq<int>, t: Tile, p: nat, product: seq<int>, g: Grid, ms: seq<nat>)
    requires |product| == g.m * g.n && ByteModuli(ms, p + 1)
  {
    forall row, col :: 0 <= row < g.m && 0 <= col < g.n && InTile(t, row, col) ==>
      ByteAt(c, g, p, row, col) == TileByte(t, product, g, ms[p], row, col)
  }

  /** Only plane `p` of the cells of a tile may differ. */
  ghost predicate OnlyTilePlane(before: seq<int>, after: seq<int>, g: Grid, t: Tile, p: nat)
  {
    |before| == |after| && forall q, row, col {:trigger ByteAt(after, g, q, row, col)} ::
      0 <= q && 0 <= row < g.m && 0 <= col < g.n && !(q == p && InTile(t, row, col)) ==>
        ByteAt(after, g, q, row, col) == ByteAt(before, g, q, row, col)
  }

  /** A tile within the output. */
  predicate Inside(g: Grid, t: Tile)
  {
    t.rowOffset + t.rowExtent <= g.m && t.colOffset + t.colExtent <= g.n && 0 < t.rowExtent && 0 < t.colExtent
  }

  /** Where the tile's first byte lies in plane `p`. */
  function TileBase(g: Grid, t: Tile, p: nat): nat { Cell(p, g.m * g.n, Cell(t.rowOffset, g.n, t.colOffset)) }

  lemma TileOffsets(g: Grid, t: Tile, p: nat, row: nat, col: nat)
    ensures TileBase(g, t, p) + Cell(row, g.n, col) == Cell(p, g.m * g.n, Cell(t.rowOffset + row, g.n, t.colOffset + col))
  {
    assert (t.rowOffset + row) * g.n == t.rowOffset * g.n + row * g.n;
  }

  /** The strided window of a tile fits the storage. */
  lemma TileFits(g: Grid, t: Tile, p: nat, length: nat)
    requires Inside(g, t) && (p + 1) * (g.m * g.n) <= length
    ensures TileBase(g, t, p) <= length && Holds(length - TileBase(g, t, p), t.rowExtent, t.colExtent, g.n)
  {
    var lastRow, lastCol := t.rowExtent - 1, t.colExtent - 1;
    TileOffsets(g, t, p, lastRow, lastCol);
    CellBounds(t.rowOffset + lastRow, g.m, g.n, t.colOffset + lastCol);
    CellBounds(p, p + 1, g.m * g.n, Cell(t.rowOffset + lastRow, g.n, t.colOffset + lastCol));
    MulNonNeg(lastRow, g.n);
  }

  /** Plane, row and column of a byte are determined by its index. */
  lemma SameByte(g: Grid, q: nat, row: nat, col: nat, p: nat, row': nat, col': nat)
    requires row < g.m && col < g.n && row' < g.m && col' < g.n
    requires Cell(q, g.m * g.n, Cell(row, g.n, col)) == Cell(p, g.m * g.n, Cell(row', g.n, col'))
    ensures q == p && row == row' && col == col'
  {
    CellBounds(row, g.m, g.n, col);
    CellBounds(row', g.m, g.n, col');
    CellInjective(q, Cell(row, g.n, col), p, Cell(row', g.n, col'), g.m * g.n);
    CellInjective(row, col, row', col', g.n);
  }

  /** A byte inside the strided window of a tile belongs to plane `p` of one of its cells. */
  lemma WindowByte(g: Grid, t: Tile, p: nat, i: int) returns (row: nat, col: nat)
    requires Inside(g, t) && InMatrix(i - TileBase(g, t, p), t.rowExtent, t.colExtent, g.n)
    ensures row < g.m && col < g.n && InTile(t, row, col) && i == Cell(p, g.m * g.n, Cell(row, g.n, col))
  {
    var r, c :| 0 <= r < t.rowExtent && 0 <= c < t.colExtent && i - TileBase(g, t, p) == Cell(r, g.n, c);
    TileOffsets(g, t, p, r, c);
    row, col := t.rowOffset + r, t.colOffset + c;
  }

  lemma WindowIsTile(g: Grid, t: Tile, p: nat, q: nat, row: nat, col: nat)
    requires Inside(g, t) && row < g.m && col < g.n
    requires InMatrix(Cell(q, g.m * g.n, Cell(row, g.n, col)) - TileBase(g, t, p), t.rowExtent, t.colExtent, g.n)
    ensures q == p && InTile(t, row, col)
  {
    var row', col' := WindowByte(g, t, p, Cell(q, g.m * g.n, Cell(row, g.n, col)));
    SameByte(g, q, row, col, p, row', col');
  }

  /** Bytes outside the window stay, so only the tile's cells change. */
  lemma WindowFrame(before: seq<int>, after: seq<int>, g: Grid, t: Tile, p: nat)
    requires Inside(g, t) && |before| == |after|
    requires forall i :: 0 <= i < |after| && !InMatrix(i - TileBase(g, t, p), t.rowExtent, t.colExtent, g.n) ==>
      after[i] == before[i]
    ensures OnlyTilePlane(before, after, g, t, p)
  {
    forall q, row, col {:trigger ByteAt(after, g, q, row, col)}
      | 0 <= q && 0 <= row < g.m && 0 <= col < g.n && !(q == p && InTile(t, row, col))
      ensures ByteAt(after, g, q, row, col) == ByteAt(before, g, q, row, col)
    {
      var i := Cell(q, g.m * g.n, Cell(row, g.n, col));
      if i < |after| && InMatrix(i - TileBase(g, t, p), t.rowExtent, t.colExtent, g.n) {
        WindowIsTile(g, t, p, q, row, col);
      }
    }
  }

  /** A cell of the tile product is the cell of the whole product it stands for. */
  lemma TileProduct(x: seq<int>, y: seq<int>, a: seq<int>, b: seq<int>, g: Grid, k: nat, t: Tile, modulus: nat,
                    row: nat, col: nat)
    requires 2 <= modulus <= 256 && 0 < k && Inside(g, t) && PlaneHolds(x, a, modulus) && PlaneHolds(y, b, modulus)
    requires |a| == g.m * k && |b| == k * g.n && row < t.rowExtent && col < t.colExtent
    ensures t.rowOffset * k <= |x| && t.colOffset <= |y|
    ensures var w := TileGeometry(g, k, t, modulus);
      && w.Valid(|x[t.rowOffset * k..]|, |y[t.colOffset..]|)
      && PlaneCell(x[t.rowOffset * k..], y[t.colOffset..], w, row, col, k)
        == Centered(Entry(MatrixProduct(a, b, g.m, k, g.n), g, t.rowOffset + row, t.colOffset + col), modulus)
  {
    TileOperandsFit(g, k, t, |x|, |y|);
    var w := TileGeometry(g, k, t, modulus);
    var xs, ys := x[t.rowOffset * k..], y[t.colOffset..];
    PackedHolds(g.m, k);
    PackedHolds(k, g.n);
    var xr, ar := RowOf(xs, w.m, row, k, k), RowOf(a, g.m, t.rowOffset + row, k, k);
    var yc, bc := ColOf(ys, k, w.n, g.n, col), ColOf(b, k, g.n, g.n, t.colOffset + col);
    forall i | 0 <= i < k
      ensures xr[i] % modulus == ar[i] % modulus && yc[i] % modulus == bc[i] % modulus
    {
      TileElement(xs, x, k, t.rowOffset, row, i);
      assert xr[i] == ElementAt(xs, w.m, k, k, row, i) && ar[i] == ElementAt(a, g.m, k, k, t.rowOffset + row, i);
      assert yc[i] == ElementAt(ys, k, w.n, g.n, i, col) && bc[i] == ElementAt(b, k, g.n, g.n, i, t.colOffset + col);
      CenteredProperties(ar[i], modulus);
      CenteredProperties(bc[i], modulus);
    }
    DotCong(xr, ar, yc, bc, k, modulus);
    var p := MatrixProduct(a, b, g.m, k, g.n);
    assert Entry(p, g, t.rowOffset + row, t.colOffset + col)
      == ElementAt(p, g.m, g.n, g.n, t.rowOffset + row, t.colOffset + col);
  }

  lemma TileElement(xs: seq<int>, x: seq<int>, k: nat, rowOffset: nat, row: nat, i: nat)
    requires rowOffset * k <= |x| && xs == x[rowOffset * k..]
    ensures rowOffset * k + Cell(row, k, i) == Cell(rowOffset + row, k, i)
  {
    assert (rowOffset + row) * k == rowOffset * k + row * k;
  }

  function TileGeometry(g: Grid, k: nat, t: Tile, modulus: nat): Geometry
  {
    Geometry(t.rowExtent, t.colExtent, k, k, g.n, g.n, modulus)
  }

  lemma TileOperandsFit(g: Grid, k: nat, t: Tile, lenX: nat, lenY: nat)
    requires Inside(g, t) && 0 < k && lenX == g.m * k && lenY == k * g.n
    ensures 0 <= t.rowOffset * k <= lenX && t.colOffset <= lenY
    ensures Holds(lenX - t.rowOffset * k, t.rowExtent, k, k) && Holds(lenY - t.colOffset, k, t.colExtent, g.n)
  {
    MulNonNeg(t.rowOffset, k);
    MulMono(t.rowOffset + t.rowExtent, g.m, k);
    assert (t.rowOffset + t.rowExtent) * k == t.rowOffset * k + (t.rowExtent - 1) * k + k;
    MulMono(1, k, g.n);
    assert k * g.n == (k - 1) * g.n + g.n;
  }

  /** `fill_tile_modulus` with zero: the cells of a strided window, and nothing else. */
  method FillTile(c: array<int8>, base: nat, rows: nat, cols: nat, ld: nat)
    requires base <= c.Length && Holds(c.Length - base, rows, cols, ld)
    modifies c
    ensures forall r :: 0 <= r < rows ==> RowZero(c[..], base, cols, ld, r)
    ensures forall i :: 0 <= i < c.Length && !InMatrix(i - base, rows, cols, ld) ==> c[i] == old(c[i])
  {
    for row := 0 to rows
      invariant forall r :: 0 <= r < row ==> RowZero(c[..], base, cols, ld, r)
      invariant forall i :: 0 <= i < c.Length && !InMatrix(i - base, rows, cols, ld) ==> c[i] == old(c[i])
    {
      ghost var before := c[..];
      RowInBounds(c.Length - base, rows, cols, ld, row);
      RowInMatrix(rows, cols, ld, row);
      FillRow(c, base + row * ld, cols);
      forall r | 0 <= r < row
        ensures RowZero(c[..], base, cols, ld, r)
      {
        RowsDisjoint(r, row, ld);
        assert RowZero(before, base, cols, ld, r);
      }
    }
  }

  ghost predicate RowZero(c: seq<int>, base: nat, cols: nat, ld: nat, row: nat)
  {
    forall j :: 0 <= j < cols ==> base + Cell(row, ld, j) < |c| && c[base + Cell(row, ld, j)] == 0
  }

  method FillRow(c: array<int8>, start: nat, cols: nat)
    requires start + cols <= c.Length
    modifies c
    ensures forall i :: 0 <= i < c.Length ==> c[i] == if start <= i < start + cols then 0 else old(c[i])
  {
    for j := 0 to cols
      invariant forall i :: 0 <= i < c.Length ==> c[i] == if start <= i < start + j then 0 else old(c[i])
    {
      c[start + j] := 0;
    }
  }

  /** A skipped tile's plane is all zero. */
  method ZeroTile(c: array<int8>, g: Grid, t: Tile, p: nat, ms: seq<nat>, ghost product: seq<int>)
    requires Inside(g, t) && t.zero && ByteModuli(ms, p + 1) && (p + 1) * (g.m * g.n) <= c.Length
    requires |product| == g.m * g.n
    modifies c
    ensures TilePlaneDone(c[..], t, p, product, g, ms) && OnlyTilePlane(old(c[..]), c[..], g, t, p)
  {
    ghost var before := c[..];
    var base := TileBase(g, t, p);
    TileFits(g, t, p, c.Length);
    FillTile(c, base, t.rowExtent, t.colExtent, g.n);
    WindowFrame(before, c[..], g, t, p);
    forall row, col | 0 <= row < g.m && 0 <= col < g.n && InTile(t, row, col)
      ensures ByteAt(c[..], g, p, row, col) == 0
    {
      var r, j := row - t.rowOffset, col - t.colOffset;
      TileOffsets(g, t, p, r, j);
      assert RowZero(c[..], base, t.colExtent, g.n, r);
      assert c[base + Cell(r, g.n, j)] == 0;
    }
  }

  /** A computed tile's plane holds the residues of the product's cells. */
  method MultiplyTile(x: seq<int8>, y: seq<int8>, c: array<int8>, g: Grid, k: nat, t: Tile, p: nat, ms: seq<nat>,
                      ghost a: seq<int>, ghost b: seq<int>)
    requires 0 < k && Inside(g, t) && !t.zero && ByteModuli(ms, p + 1) && (p + 1) * (g.m * g.n) <= c.Length
    requires PlaneHolds(x, a, ms[p]) && PlaneHolds(y, b, ms[p]) && |a| == g.m * k && |b| == k * g.n
    modifies c
    ensures TilePlaneDone(c[..], t, p, MatrixProduct(a, b, g.m, k, g.n), g, ms)
    ensures OnlyTilePlane(old(c[..]), c[..], g, t, p)
  {
    ghost var before := c[..];
    var base, w := TileBase(g, t, p), TileGeometry(g, k, t, ms[p]);
    TileFits(g, t, p, c.Length);
    TileOperandsFit(g, k, t, |x|, |y|);
    var xs, ys := x[t.rowOffset * k..], y[t.colOffset..];
    var acc := new int32[t.colExtent];
    RingGemmModulus(xs, ys, c, base, w, acc, SAFE_INT32_K_BLOCK);
    WindowFrame(before, c[..], g, t, p);
    forall row, col | 0 <= row < g.m && 0 <= col < g.n && InTile(t, row, col)
      ensures ByteAt(c[..], g, p, row, col) == TileByte(t, MatrixProduct(a, b, g.m, k, g.n), g, ms[p], row, col)
    {
      var r, j := row - t.rowOffset, col - t.colOffset;
      TileOffsets(g, t, p, r, j);
      TileProduct(x, y, a, b, g, k, t, ms[p], r, j);
      RowHoldsAt(c[..], base, xs, ys, w, r, j);
    }
  }

  lemma RowHoldsAt(c: seq<int>, base: nat, a: seq<int>, b: seq<int>, w: Geometry, row: nat, col: nat)
    requires w.Valid(|a|, |b|) && row < w.m && col < w.n && RowHolds(c, base, a, b, w, row)
    ensures base + Cell(row, w.ldc, col) < |c| && c[base + Cell(row, w.ldc, col)] == PlaneCell(a, b, w, row, col, w.k)
  {
  }

  /** One plane of one tile. */
  method TilePlane(x: seq<int8>, y: seq<int8>, c: array<int8>, g: Grid, k: nat, t: Tile, p: nat, ms: seq<nat>,
                   ghost a: seq<int>, ghost b: seq<int>)
    requires 0 < k && Inside(g, t) && ByteModuli(ms, p + 1) && (p + 1) * (g.m * g.n) <= c.Length
    requires PlaneHolds(x, a, ms[p]) && PlaneHolds(y, b, ms[p]) && |a| == g.m * k && |b| == k * g.n
    modifies c
    ensures TilePlaneDone(c[..], t, p, MatrixProduct(a, b, g.m, k, g.n), g, ms)
    ensures OnlyTilePlane(old(c[..]), c[..], g, t, p)
  {
    if t.zero {
      ZeroTile(c, g, t, p, ms, MatrixProduct(a, b, g.m, k, g.n));
    } else {
      MultiplyTile(x, y, c, g, k, t, p, ms, a, b);
    }
  }

  /** Plane `q` of tile `j` is finished. */
  ghost predicate DoneAt(c: seq<int>, tiles: seq<Tile>, j: nat, q: nat, product: seq<int>, g: Grid, ms: seq<nat>)
    requires |product| == g.m * g.n && j < |tiles|
  {
    ByteModuli(ms, q + 1) && TilePlaneDone(c, tiles[j], q, product, g, ms)
  }

  /** It stays finished when another plane, or another tile, is written. */
  lemma DoneKept(before: seq<int>, after: seq<int>, g: Grid, tiles: seq<Tile>, i: nat, p: nat, j: nat, q: nat,
                 product: seq<int>, ms: seq<nat>)
    requires Placed(g, tiles) && i < |tiles| && j < |tiles| && (i != j || p != q) && |product| == g.m * g.n
    requires OnlyTilePlane(before, after, g, tiles[i], p) && DoneAt(before, tiles, j, q, product, g, ms)
    ensures DoneAt(after, tiles, j, q, product, g, ms)
  {
    forall row, col | 0 <= row < g.m && 0 <= col < g.n && InTile(tiles[j], row, col)
      ensures ByteAt(after, g, q, row, col) == TileByte(tiles[j], product, g, ms[q], row, col)
    {
      TilesPartition(g, tiles, i, row, col);
      TilesPartition(g, tiles, j, row, col);
      assert ByteAt(after, g, q, row, col) == ByteAt(before, g, q, row, col);
    }
  }

  /** Every selected plane of the tiles before `i` is finished, and of tile `i` the planes below `p`. */
  ghost predicate DoneBefore(c: seq<int>, tiles: seq<Tile>, i: nat, p: nat, product: seq<int>, g: Grid, ms: seq<nat>)
    requires |product| == g.m * g.n
  {
    forall j, q :: 0 <= j < |tiles| && 0 <= q < tiles[j].prefix && (j < i || (j == i && q < p)) ==>
      DoneAt(c, tiles, j, q, product, g, ms)
  }

  lemma PlacedInside(g: Grid, tiles: seq<Tile>, i: nat)
    requires Placed(g, tiles) && i < |tiles|
    ensures Inside(g, tiles[i])
  {
    assert PlacedTile(g, tiles[i], i);
  }

  /** One more plane of one tile. */
  method TilePlaneNext(a: seq<int8>, b: seq<int8>, c: array<int8>, g: Grid, k: nat, tiles: seq<Tile>, i: nat, p: nat,
                       ms: seq<nat>, ghost aValue: seq<int>, ghost bValue: seq<int>)
    requires Placed(g, tiles) && i < |tiles| && 0 < k && ByteModuli(ms, p + 1)
    requires |aValue| == g.m * k && |bValue| == k * g.n && (p + 1) * (g.m * g.n) <= c.Length
    requires PlanesHold(a, aValue, ms, p + 1) && PlanesHold(b, bValue, ms, p + 1)
    modifies c
    ensures DoneAt(c[..], tiles, i, p, MatrixProduct(aValue, bValue, g.m, k, g.n), g, ms)
    ensures OnlyTilePlane(old(c[..]), c[..], g, tiles[i], p)
  {
    PlacedInside(g, tiles, i);
    var x, y := PlaneSlice(a, g.m * k, p), PlaneSlice(b, k * g.n, p);
    TilePlane(x, y, c, g, k, tiles[i], p, ms, aValue, bValue);
  }

  lemma DoneNext(before: seq<int>, after: seq<int>, tiles: seq<Tile>, i: nat, p: nat, product: seq<int>, g: Grid,
                 ms: seq<nat>, j: nat, q: nat)
    requires Placed(g, tiles) && i < |tiles| && |product| == g.m * g.n && j < |tiles| && q < tiles[j].prefix
    requires DoneBefore(before, tiles, i, p, product, g, ms) && (j < i || (j == i && q <= p))
    requires OnlyTilePlane(before, after, g, tiles[i], p) && DoneAt(after, tiles, i, p, product, g, ms)
    ensures DoneAt(after, tiles, j, q, product, g, ms)
  {
    if i != j || p != q {
      DoneKept(before, after, g, tiles, i, p, j, q, product, ms);
    }
  }

  lemma PlanesBelow(residues: seq<int>, value: seq<int>, ms: seq<nat>, p: nat, storage: nat)
    requires p <= storage && PlanesHold(residues, value, ms, storage)
    ensures PlanesHold(residues, value, ms, p)
  {
    MulMono(p, storage, |value|);
  }

  /** The selected planes of one tile. */
  method TilePlanes(a: seq<int8>, b: seq<int8>, c: array<int8>, g: Grid, k: nat, tiles: seq<Tile>, i: nat,
                    ms: seq<nat>, storage: nat, ghost aValue: seq<int>, ghost bValue: seq<int>)
    requires Placed(g, tiles) && i < |tiles| && tiles[i].prefix <= storage && 0 < k && ByteModuli(ms, storage)
    requires |aValue| == g.m * k && |bValue| == k * g.n && storage * (g.m * g.n) <= c.Length
    requires PlanesHold(a, aValue, ms, storage) && PlanesHold(b, bValue, ms, storage)
    requires DoneBefore(c[..], tiles, i, 0, MatrixProduct(aValue, bValue, g.m, k, g.n), g, ms)
    modifies c
    ensures DoneBefore(c[..], tiles, i + 1, 0, MatrixProduct(aValue, bValue, g.m, k, g.n), g, ms)
  {
    ghost var product := MatrixProduct(aValue, bValue, g.m, k, g.n);
    for p := 0 to tiles[i].prefix
      invariant DoneBefore(c[..], tiles, i, p, product, g, ms)
    {
      PlanesBelow(a, aValue, ms, p + 1, storage);
      PlanesBelow(b, bValue, ms, p + 1, storage);
      MulMono(p + 1, storage, g.m * g.n);
      ghost var before := c[..];
      TilePlaneNext(a, b, c, g, k, tiles, i, p, ms, aValue, bValue);
      forall j, q | 0 <= j < |tiles| && 0 <= q < tiles[j].prefix && (j < i || (j == i && q <= p))
        ensures DoneAt(c[..], tiles, j, q, product, g, ms)
      {
        DoneNext(before, c[..], tiles, i, p, product, g, ms, j, q);
      }
    }
  }

  /** The scheduled branch of `cpu_gemm_rns`: every selected plane of every tile. */
  method GemmTiles(a: seq<int8>, b: seq<int8>, c: array<int8>, g: Grid, k: nat, tiles: seq<Tile>, ms: seq<nat>,
                   storage: nat, ghost aValue: seq<int>, ghost bValue: seq<int>)
    requires Placed(g, tiles) && StoredWithin(tiles, storage) && 0 < k && ByteModuli(ms, storage)
    requires |aValue| == g.m * k && |bValue| == k * g.n && storage * (g.m * g.n) <= c.Length
    requires PlanesHold(a, aValue, ms, storage) && PlanesHold(b, bValue, ms, storage)
    modifies c
    ensures DoneBefore(c[..], tiles, |tiles|, 0, MatrixProduct(aValue, bValue, g.m, k, g.n), g, ms)
  {
    for i := 0 to |tiles|
      invariant DoneBefore(c[..], tiles, i, 0, MatrixProduct(aValue, bValue, g.m, k, g.n), g, ms)
    {
      TilePlanes(a, b, c, g, k, tiles, i, ms, storage, aValue, bValue);
    }
  }

  // Exporting.

  /** A tile for each bound, and as many planes as the tiles select. */
  ghost predicate Scheduled(s: Schedule, ms: seq<nat>, g: Grid, tiles: seq<Tile>, bounds: seq<uint64>, storage: nat)
  {
    && Placed(g, tiles) && |bounds| == |tiles| && StoredWithin(tiles, storage)
    && storage <= s.planPrefix <= MAX_SUPPORTED_PREFIX && ByteLadder(ms, MAX_SUPPORTED_PREFIX)
  }

  /** The index of the tile a flat cell lies in. */
  function TileOf(g: Grid, cell: nat): nat
    requires g.Valid()
  {
    g.IndexOf(cell / g.n, cell % g.n)
  }

  /** A cell of a skipped tile is always exported; any other cell when its tile's planes and bound recover it. */
  ghost predicate CellExports(s: Schedule, ms: seq<nat>, g: Grid, tiles: seq<Tile>, bounds: seq<uint64>, cell: nat,
                              entry: int)
    requires Moduli(ms) && g.Valid()
  {
    var i := TileOf(g, cell);
    && i < |tiles| && i < |bounds| && tiles[i].prefix <= |ms|
    && (tiles[i].zero || Recoverable(s.signed, ms, tiles[i].prefix, bounds[i], entry))
  }

  ghost predicate CellGives(s: Schedule, ms: seq<nat>, g: Grid, tiles: seq<Tile>, bounds: seq<uint64>, cell: nat,
                            entry: int, out: int)
    requires Moduli(ms) && g.Valid()
  {
    var i := TileOf(g, cell);
    && i < |tiles| && i < |bounds| && tiles[i].prefix <= |ms|
    && if tiles[i].zero then out == 0 else Recovers(s.signed, ms, tiles[i].prefix, bounds[i], entry, out)
  }

  /** The finished planes of a cell's own tile hold the residues of its entry. */
  lemma TileCellPlanes(c: seq<int>, g: Grid, tiles: seq<Tile>, product: seq<int>, ms: seq<nat>, storage: nat, cell: nat)
    requires Placed(g, tiles) && StoredWithin(tiles, storage) && ByteModuli(ms, storage) && cell < g.m * g.n
    requires |product| == g.m * g.n && storage * (g.m * g.n) <= |c|
    requires DoneBefore(c, tiles, |tiles|, 0, product, g, ms)
    ensures TileOf(g, cell) < |tiles|
    ensures var t := tiles[TileOf(g, cell)];
      ByteModuli(ms, t.prefix) && (!t.zero ==> CellPlanes(c, g.m * g.n, cell, t.prefix, ms, product[cell]))
  {
    CellFromFlat(g.m, g.n, cell);
    var row, col := cell / g.n, cell % g.n;
    IndexInRange(g, row, col);
    var i := g.IndexOf(row, col);
    TilesPartition(g, tiles, i, row, col);
    MulMono(tiles[i].prefix, storage, g.m * g.n);
    forall p | 0 <= p < tiles[i].prefix && !tiles[i].zero
      ensures Resident(c, g.m * g.n, p, cell) == Centered(product[cell], ms[p])
    {
      assert DoneAt(c, tiles, i, p, product, g, ms);
      assert ByteAt(c, g, p, row, col) == TileByte(tiles[i], product, g, ms[p], row, col);
    }
  }

  /** How the export of one cell ends. */
  ghost function CellOutcome(s: Schedule, ms: seq<nat>, g: Grid, tiles: seq<Tile>, bounds: seq<uint64>, cell: nat,
                             entry: int): Status
    requires Moduli(ms) && g.Valid()
  {
    if CellExports(s, ms, g, tiles, bounds, cell, entry) then Success
    else if s.signed && TileOf(g, cell) < |bounds| && bounds[TileOf(g, cell)] > TWO_63 then InvalidArgument
    else RangeError
  }

  /** The first of the first `n` cells that does not succeed decides. */
  ghost function ExportOutcome(s: Schedule, ms: seq<nat>, g: Grid, tiles: seq<Tile>, bounds: seq<uint64>,
                               product: seq<int>, n: nat): Status
    requires Moduli(ms) && g.Valid() && n <= |product|
  {
    if n == 0 then Success
    else
      var before := ExportOutcome(s, ms, g, tiles, bounds, product, n - 1);
      if before != Success then before else CellOutcome(s, ms, g, tiles, bounds, n - 1, product[n - 1])
  }

  /** Gather and reconstruct one cell with its own tile's prefix and bound. */
  method ExportTileCell(s: Schedule, ms: seq<nat>, residues: seq<int8>, g: Grid, tiles: seq<Tile>,
                        bounds: seq<uint64>, storage: nat, cell: nat, ghost product: seq<int>)
      returns (status: Status, out: int)
    requires Scheduled(s, ms, g, tiles, bounds, storage) && cell < g.m * g.n
    requires |product| == g.m * g.n && storage * (g.m * g.n) <= |residues|
    requires DoneBefore(residues, tiles, |tiles|, 0, product, g, ms)
    ensures status == CellOutcome(s, ms, g, tiles, bounds, cell, product[cell])
    ensures status == Success ==> CellGives(s, ms, g, tiles, bounds, cell, product[cell], out)
  {
    TileCellPlanes(residues, g, tiles, product, ms, storage, cell);
    var i := TileOf(g, cell);
    var t := tiles[i];
    if t.zero {
      return Success, 0;
    }
    status, out := ExportCell(s.signed, ms, residues, g.m * g.n, cell, t.prefix, bounds[i], product[cell]);
  }

  /** What the exports leave in an output cell. */
  ghost predicate CellExported(dst: seq<int>, s: Schedule, ms: seq<nat>, g: Grid, tiles: seq<Tile>,
                               bounds: seq<uint64>, product: seq<int>, ld: nat, row: nat, col: nat)
    requires Moduli(ms) && g.Valid()
  {
    && Cell(row, g.n, col) < |product| && Cell(row, ld, col) < |dst|
    && CellGives(s, ms, g, tiles, bounds, Cell(row, g.n, col), product[Cell(row, g.n, col)], dst[Cell(row, ld, col)])
  }

  /** `rns8_export_i64` and `rns8_export_u64` with a tile schedule: each cell by its own tile, all or nothing, and
      the first failing cell decides the status. */
  method ExportTiles(s: Schedule, ms: seq<nat>, residues: seq<int8>, g: Grid, tiles: seq<Tile>, bounds: seq<uint64>,
                     storage: nat, dst: array<int>, ld: nat, ghost product: seq<int>)
      returns (status: Status)
    requires Scheduled(s, ms, g, tiles, bounds, storage) && Holds(dst.Length, g.m, g.n, ld)
    requires |product| == g.m * g.n && storage * (g.m * g.n) <= |residues|
    requires DoneBefore(residues, tiles, |tiles|, 0, product, g, ms)
    modifies dst
    ensures status == ExportOutcome(s, ms, g, tiles, bounds, product, |product|)
    ensures status == Success <==>
      forall cell :: 0 <= cell < |product| ==> CellExports(s, ms, g, tiles, bounds, cell, product[cell])
    ensures (forall i :: 0 <= i < |bounds| ==> !(s.signed && bounds[i] > TWO_63)) ==>
      status == Success || status == RangeError
    ensures status == Success ==> forall row, col :: 0 <= row < g.m && 0 <= col < g.n ==>
      CellExported(dst[..], s, ms, g, tiles, bounds, product, ld, row, col)
    ensures status != Success ==> dst[..] == old(dst[..])
    ensures forall j :: 0 <= j < dst.Length && !InMatrix(j, g.m, g.n, ld) ==> dst[j] == old(dst[j])
  {
    var staged: seq<int> := [];
    status := Success;
    for cell := 0 to g.m * g.n
      invariant |staged| == cell && dst[..] == old(dst[..])
      invariant status == ExportOutcome(s, ms, g, tiles, bounds, product, cell)
      invariant (forall i :: 0 <= i < |bounds| ==> !(s.signed && bounds[i] > TWO_63)) ==>
        status == Success || status == RangeError
      invariant status == Success <==>
        forall i :: 0 <= i < cell ==> CellExports(s, ms, g, tiles, bounds, i, product[i])
      invariant status == Success ==>
        forall i :: 0 <= i < cell ==> CellGives(s, ms, g, tiles, bounds, i, product[i], staged[i])
    {
      var cellStatus, out := ExportTileCell(s, ms, residues, g, tiles, bounds, storage, cell, product);
      if status == Success {
        status := cellStatus;
      }
      staged := staged + [out];
    }
    if status == Success {
      CopyCells(staged, dst, g.m, g.n, ld);
      forall row, col | 0 <= row < g.m && 0 <= col < g.n
        ensures CellExported(dst[..], s, ms, g, tiles, bounds, product, ld, row, col)
      {
        assert CellCopied(dst[..], staged, g.n, ld, row, col);
      }
    }
  }

  // End to end.

  /** The declared bounds are true: every entry is within its own tile's. */
  ghost predicate BoundsTrue(s: Schedule, g: Grid, bounds: seq<uint64>, product: seq<int>)
    requires g.Valid()
  {
    forall cell :: 0 <= cell < |product| ==> BoundTrueAt(s, g, bounds, cell, product[cell])
  }

  ghost predicate BoundTrueAt(s: Schedule, g: Grid, bounds: seq<uint64>, cell: nat, entry: int)
    requires g.Valid()
  {
    TileOf(g, cell) < |bounds| && WithinBound(s.signed, entry, bounds[TileOf(g, cell)])
  }

  /** Under a true bound a cell is exported exactly when its entry fits the output type, and as itself: the
      planes its tile selected are enough, and a skipped tile held nothing but zeros. */
  lemma TrueTileCell(s: Schedule, ms: seq<nat>, g: Grid, tiles: seq<Tile>, bounds: seq<uint64>, storage: nat,
                     cell: nat, entry: int)
    requires Scheduled(s, ms, g, tiles, bounds, storage) && s.planPrefix >= 1
    requires Configured(s, ms, g, bounds, tiles, |tiles|, storage) && BoundTrueAt(s, g, bounds, cell, entry)
    ensures CellExports(s, ms, g, tiles, bounds, cell, entry) <==> IsWord(s.signed, entry)
    ensures !IsWord(s.signed, entry) ==> s.signed && entry == 0x8000_0000_0000_0000
    ensures forall out :: CellGives(s, ms, g, tiles, bounds, cell, entry, out) ==> out == entry
  {
    var i := TileOf(g, cell);
    var t, bound := tiles[i], bounds[i];
    assert BoundFits(s, ms, bound) && Selected(s, ms, bound, t);
    FitsWordIff(s.signed, entry);
    if !t.zero {
      TrueBoundRecovers(s.signed, ms, t.prefix, bound, entry);
      forall out | CellGives(s, ms, g, tiles, bounds, cell, entry, out)
        ensures out == entry
      {
        RecoversOnlyItself(s.signed, ms, t.prefix, bound, entry, out);
      }
    }
  }

  /** Pack for a schedule and multiply by tiles. */
  method TilePlanesOf(ms: seq<nat>, g: Grid, k: nat, tiles: seq<Tile>, storage: nat, srcA: seq<int>, lda: nat,
                      srcB: seq<int>, ldb: nat, ghost product: seq<int>)
      returns (residues: seq<int8>)
    requires Placed(g, tiles) && StoredWithin(tiles, storage) && ByteModuli(ms, storage) && 0 < k
    requires Holds(|srcA|, g.m, k, lda) && Holds(|srcB|, k, g.n, ldb)
    requires product == PackedProduct(srcA, lda, srcB, ldb, g.m, k, g.n)
    ensures storage * (g.m * g.n) <= |residues|
    ensures DoneBefore(residues, tiles, |tiles|, 0, product, g, ms)
  {
    var a := PackPlanes(srcA, g.m, k, lda, ms, storage);
    var b := PackPlanes(srcB, k, g.n, ldb, ms, storage);
    var c := new int8[storage * (g.m * g.n)];
    GemmTiles(a, b, c, g, k, tiles, ms, storage, Flatten(srcA, g.m, k, lda), Flatten(srcB, k, g.n, ldb));
    residues := c[..];
  }

  /** Pack for a schedule, multiply by tiles, export by tiles. */
  method MultiplyScheduled(s: Schedule, ms: seq<nat>, g: Grid, k: nat, tiles: seq<Tile>, bounds: seq<uint64>,
                           storage: nat, srcA: seq<int>, lda: nat, srcB: seq<int>, ldb: nat, dst: array<int>, ldc: nat)
      returns (status: Status)
    requires Scheduled(s, ms, g, tiles, bounds, storage) && 0 < k
    requires Holds(|srcA|, g.m, k, lda) && Holds(|srcB|, k, g.n, ldb) && Holds(dst.Length, g.m, g.n, ldc)
    modifies dst
    ensures (forall i :: 0 <= i < |bounds| ==> !(s.signed && bounds[i] > TWO_63)) ==>
      status == Success || status == RangeError
    ensures status != Success ==> dst[..] == old(dst[..])
    ensures forall j :: 0 <= j < dst.Length && !InMatrix(j, g.m, g.n, ldc) ==> dst[j] == old(dst[j])
    ensures var p := PackedProduct(srcA, lda, srcB, ldb, g.m, k, g.n);
      && (status == Success <==> forall cell :: 0 <= cell < |p| ==> CellExports(s, ms, g, tiles, bounds, cell, p[cell]))
      && (status == Success ==> forall row, col :: 0 <= row < g.m && 0 <= col < g.n ==>
           CellExported(dst[..], s, ms, g, tiles, bounds, p, ldc, row, col))
  {
    ghost var product := PackedProduct(srcA, lda, srcB, ldb, g.m, k, g.n);
    var residues := TilePlanesOf(ms, g, k, tiles, storage, srcA, lda, srcB, ldb, product);
    status := ExportTiles(s, ms, residues, g, tiles, bounds, storage, dst, ldc, product);
  }

  /** Under true bounds the exported cells are the integers of the product. */
  lemma TrueExport(s: Schedule, ms: seq<nat>, g: Grid, k: nat, tiles: seq<Tile>, bounds: seq<uint64>, storage: nat,
                   srcA: seq<int>, lda: nat, srcB: seq<int>, ldb: nat, dst: seq<int>, ldc: nat, row: nat, col: nat)
    requires Scheduled(s, ms, g, tiles, bounds, storage) && s.planPrefix >= 1
    requires Configured(s, ms, g, bounds, tiles, |tiles|, storage)
    requires Holds(|srcA|, g.m, k, lda) && Holds(|srcB|, k, g.n, ldb) && row < g.m && col < g.n
    requires BoundsTrue(s, g, bounds, PackedProduct(srcA, lda, srcB, ldb, g.m, k, g.n))
    requires CellExported(dst, s, ms, g, tiles, bounds, PackedProduct(srcA, lda, srcB, ldb, g.m, k, g.n), ldc, row, col)
    ensures CellIsProduct(dst, srcA, lda, srcB, ldb, ldc, g.m, k, g.n, row, col)
  {
    var p, cell := PackedProduct(srcA, lda, srcB, ldb, g.m, k, g.n), Cell(row, g.n, col);
    CellBounds(row, g.m, g.n, col);
    assert BoundTrueAt(s, g, bounds, cell, p[cell]);
    TrueTileCell(s, ms, g, tiles, bounds, storage, cell, p[cell]);
    FlattenedProduct(srcA, lda, srcB, ldb, g.m, k, g.n, row, col);
  }

  /** Configure, pack, multiply and export under per-tile bounds.  If the bounds are true, the run succeeds
      exactly when there is one admissible bound per tile and every entry fits the output type, and then every
      output cell is the exact integer dot product. */
  method TiledProduct(s: Schedule, ms: seq<nat>, g: Grid, k: nat, bounds: seq<uint64>, srcA: seq<int>, lda: nat,
                      srcB: seq<int>, ldb: nat, dst: array<int>, ldc: nat)
      returns (status: Status)
    requires g.Valid() && 0 < k && 1 <= s.planPrefix <= MAX_SUPPORTED_PREFIX && ByteLadder(ms, MAX_SUPPORTED_PREFIX)
    requires Holds(|srcA|, g.m, k, lda) && Holds(|srcB|, k, g.n, ldb) && Holds(dst.Length, g.m, g.n, ldc)
    modifies dst
    ensures status == InvalidArgument <==>
      |bounds| != g.Count() || (!AllFit(s, ms, bounds) && FirstIsInvalid(s, ms, bounds))
    ensures status != WorkspaceTooSmall
    ensures status != Success ==> dst[..] == old(dst[..])
    ensures forall j :: 0 <= j < dst.Length && !InMatrix(j, g.m, g.n, ldc) ==> dst[j] == old(dst[j])
    ensures var p := PackedProduct(srcA, lda, srcB, ldb, g.m, k, g.n);
      BoundsTrue(s, g, bounds, p) ==>
        && (status == Success <==>
             (|bounds| == g.Count() && AllFit(s, ms, bounds) && forall i :: 0 <= i < |p| ==> IsWord(s.signed, p[i])))
        && (status != Success && |bounds| == g.Count() && AllFit(s, ms, bounds) ==>
             s.signed && exists i :: 0 <= i < |p| && p[i] == 0x8000_0000_0000_0000)
        && (status == Success ==> forall row, col :: 0 <= row < g.m && 0 <= col < g.n ==>
             CellIsProduct(dst[..], srcA, lda, srcB, ldb, ldc, g.m, k, g.n, row, col))
  {
    ghost var p := PackedProduct(srcA, lda, srcB, ldb, g.m, k, g.n);
    var tiles, storage;
    status, tiles, storage := ConfigureTiles(s, ms, g, bounds);
    if status != Success {
      return;
    }
    assert Scheduled(s, ms, g, tiles, bounds, storage);
    assert forall i :: 0 <= i < |bounds| ==> BoundFits(s, ms, bounds[i]);
    status := MultiplyScheduled(s, ms, g, k, tiles, bounds, storage, srcA, lda, srcB, ldb, dst, ldc);
    if BoundsTrue(s, g, bounds, p) {
      forall i | 0 <= i < |p|
        ensures CellExports(s, ms, g, tiles, bounds, i, p[i]) <==> IsWord(s.signed, p[i])
        ensures !IsWord(s.signed, p[i]) ==> s.signed && p[i] == 0x8000_0000_0000_0000
      {
        TrueTileCell(s, ms, g, tiles, bounds, storage, i, p[i]);
      }
      forall row, col | status == Success && 0 <= row < g.m && 0 <= col < g.n
        ensures CellIsProduct(dst[..], srcA, lda, srcB, ldb, ldc, g.m, k, g.n, row, col)
      {
        TrueExport(s, ms, g, k, tiles, bounds, storage, srcA, lda, srcB, ldb, dst[..], ldc, row, col);
      }
    }
  }
}
