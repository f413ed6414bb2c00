/** Integer vectors and row-major matrices: dot products, the row and column a cell reads, and the
    arithmetic facts both the kernels and the range proofs use. */
module Vectors {
  import opened IntMath

  function Dot(x: seq<int>, y: seq<int>, n: nat): int
    requires n <= |x| && n <= |y|
  {
    if n == 0 then 0 else Dot(x, y, n - 1) + x[n - 1] * y[n - 1]
  }

  function Sum(x: seq<int>, n: nat): int
    requires n <= |x|
  {
    if n == 0 then 0 else Sum(x, n - 1) + x[n - 1]
  }

  function AbsSum(x: seq<int>, n: nat): nat
    requires n <= |x|
  {
    if n == 0 then 0 else AbsSum(x, n - 1) + Abs(x[n - 1])
  }

  /** The flat index of a row-major cell. */
  function Cell(row: nat, ld: nat, col: nat): nat { row * ld + col }

  /** A buffer of `len` elements holds `rows` rows of `cols` elements at stride `ld`. */
  predicate Holds(len: nat, rows: nat, cols: nat, ld: nat)
  {
    cols <= ld && (rows > 0 ==> (rows - 1) * ld + cols <= len)
  }

  /** Element `j` of a padded output is one of its cells. */
  ghost predicate InMatrix(j: int, rows: nat, cols: nat, ld: nat)
  {
    exists row, col :: 0 <= row < rows && 0 <= col < cols && j == Cell(row, ld, col)
  }

  lemma RowInBounds(len: nat, rows: nat, cols: nat, ld: nat, row: nat)
    requires Holds(len, rows, cols, ld) && row < rows
    ensures 0 <= row * ld && row * ld + cols <= len
  {
    MulMono(row, rows - 1, ld);
  }

  lemma OutsideMatrix(rows: nat, cols: nat, ld: nat)
    requires cols <= ld
    ensures forall j :: InMatrix(j, rows, cols, ld) ==> 0 <= j < rows * ld
  {
    forall j | InMatrix(j, rows, cols, ld)
      ensures 0 <= j < rows * ld
    {
      var row, col :| 0 <= row < rows && 0 <= col < cols && j == Cell(row, ld, col);
      RowsDisjoint(row, rows, ld);
    }
  }

  lemma RowInMatrix(rows: nat, cols: nat, ld: nat, row: nat)
    requires row < rows
    ensures forall j :: row * ld <= j < row * ld + cols ==> InMatrix(j, rows, cols, ld)
  {
    forall j | row * ld <= j < row * ld + cols
      ensures InMatrix(j, rows, cols, ld)
    {
      assert j == Cell(row, ld, j - row * ld);
    }
  }

  lemma RowsDisjoint(r: nat, s: nat, ld: nat)
    requires r < s
    ensures r * ld + ld <= s * ld
  {
    MulMono(r + 1, s, ld);
    assert (r + 1) * ld == r * ld + ld;
  }

  function RowOf(a: seq<int>, rows: nat, row: nat, ld: nat, k: nat): (x: seq<int>)
    requires Holds(|a|, rows, k, ld) && row < rows
    ensures |x| == k
    ensures forall t :: 0 <= t < k ==> x[t] == ElementAt(a, rows, k, ld, row, t)
  {
    RowInBounds(|a|, rows, k, ld, row);
    a[row * ld..row * ld + k]
  }

  function ElementAt(b: seq<int>, rows: nat, cols: nat, ld: nat, row: nat, col: nat): (v: int)
    requires Holds(|b|, rows, cols, ld) && row < rows && col < cols
    ensures Cell(row, ld, col) < |b| && v == b[Cell(row, ld, col)]
  {
    RowInBounds(|b|, rows, cols, ld, row);
    b[Cell(row, ld, col)]
  }

  function ColOf(b: seq<int>, k: nat, n: nat, ld: nat, col: nat): (y: seq<int>)
    requires Holds(|b|, k, n, ld) && col < n
    ensures |y| == k
    ensures forall t :: 0 <= t < k ==> y[t] == ElementAt(b, k, n, ld, t, col)
  {
    seq(k, t requires 0 <= t < k => ElementAt(b, k, n, ld, t, col))
  }

  /** Cell (row, col) of the product of two packed row-major matrices. */
  function ProductCell(a: seq<int>, b: seq<int>, m: nat, k: nat, n: nat, row: nat, col: nat): int
    requires Holds(|a|, m, k, k) && Holds(|b|, k, n, n) && row < m && col < n
  {
    Dot(RowOf(a, m, row, k, k), ColOf(b, k, n, n, col), k)
  }

  /** Elements that agree modulo `m` have dot products that agree modulo `m`. */
  lemma {:induction false} DotCong(x: seq<int>, x': seq<int>, y: seq<int>, y': seq<int>, n: nat, m: nat)
    requires m > 0 && n <= |x| && n <= |x'| && n <= |y| && n <= |y'|
    requires forall t :: 0 <= t < n ==> x[t] % m == x'[t] % m
    requires forall t :: 0 <= t < n ==> y[t] % m == y'[t] % m
    ensures Dot(x, y, n) % m == Dot(x', y', n) % m
  {
    if n > 0 {
      DotCong(x, x', y, y', n - 1, m);
      CongMul(x[n - 1], x'[n - 1], y[n - 1], y'[n - 1], m);
      CongAdd(Dot(x, y, n - 1), Dot(x', y', n - 1), x[n - 1] * y[n - 1], x'[n - 1] * y'[n - 1], m);
    }
  }

  lemma MulAbs(a: int, b: int, c: nat)
    requires Abs(b) <= c
    ensures Abs(a * b) <= Abs(a) * c
  {
    if a >= 0 {
      MulMono(b, c, a);
      MulMono(0 - c, b, a);
    } else {
      MulMono(b, c, -a);
      MulMono(0 - c, b, -a);
      assert a * b == -((-a) * b);
    }
  }

  /** Hoelder's inequality in the two forms the range proofs use. */
  lemma {:induction false} DotBySum(x: seq<int>, y: seq<int>, n: nat, maxY: nat)
    requires n <= |x| && n <= |y|
    requires forall t :: 0 <= t < n ==> Abs(y[t]) <= maxY
    ensures Abs(Dot(x, y, n)) <= AbsSum(x, n) * maxY
  {
    if n > 0 {
      DotBySum(x, y, n - 1, maxY);
      MulAbs(x[n - 1], y[n - 1], maxY);
      assert (AbsSum(x, n - 1) + Abs(x[n - 1])) * maxY == AbsSum(x, n - 1) * maxY + Abs(x[n - 1]) * maxY;
    }
  }

  lemma {:induction false} AbsSumByMax(x: seq<int>, n: nat, maxX: nat)
    requires n <= |x|
    requires forall t :: 0 <= t < n ==> Abs(x[t]) <= maxX
    ensures AbsSum(x, n) <= n * maxX
  {
    if n > 0 {
      AbsSumByMax(x, n - 1, maxX);
      assert n * maxX == (n - 1) * maxX + maxX;
    }
  }

  lemma {:induction false} DotSym(x: seq<int>, y: seq<int>, n: nat)
    requires n <= |x| && n <= |y|
    ensures Dot(x, y, n) == Dot(y, x, n)
  {
    if n > 0 {
      DotSym(x, y, n - 1);
    }
  }

  lemma {:induction false} AbsSumNonNeg(x: seq<int>, n: nat)
    requires n <= |x|
    ensures Abs(Sum(x, n)) <= AbsSum(x, n)
    ensures forall t :: 0 <= t < n ==> Abs(x[t]) <= AbsSum(x, n)
  {
    if n > 0 {
      AbsSumNonNeg(x, n - 1);
    }
  }
}
