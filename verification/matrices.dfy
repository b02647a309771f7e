/** Dense real matrices: the meaning of the scipy sparse matrices the source builds, and the
    products it takes with them. */
module Matrices {
  import opened Wrappers
  import opened Errors
  import opened NdArrays

  datatype RawMatrix = RawMatrix(rows: nat, cols: nat, at: seq<seq<real>>)

  /** A `rows x cols` matrix stored row by row. */
  type Matrix = m: RawMatrix | |m.at| == m.rows && forall r :: 0 <= r < |m.at| ==> |m.at[r]| == m.cols
    witness RawMatrix(0, 0, [])

  /** Splitting a row-major flat index `k` of a `rows x width` block into its row and column. */
  lemma RowMajorSplit(k: int, rows: nat, width: nat)
    requires 0 <= k < rows * width
    ensures width > 0 && 0 <= k / width < rows && 0 <= k % width < width
    ensures k == (k / width) * width + k % width
  {
    if k / width >= rows {
      MulMonotone(rows, k / width, width);
      assert false;
    }
  }

  lemma MulMonotone(a: int, b: int, n: int)
    requires a <= b && n >= 0
    ensures a * n <= b * n
  {
  }

  /** Distribution of a product over a linear combination. */
  lemma Distribute(a: real, p: real, q: real, alpha: real, beta: real)
    ensures a * (alpha * p + beta * q) == alpha * (a * p) + beta * (a * q)
    ensures (alpha * p + beta * q) * a == alpha * (p * a) + beta * (q * a)
  {
  }

  /** The scalar product of two equally long vectors. */
  function Dot(a: seq<real>, b: seq<real>): real
    requires |a| == |b|
  {
    if |a| == 0 then 0.0 else a[0] * b[0] + Dot(a[1..], b[1..])
  }

  /** The linear combination `alpha * x + beta * y`. */
  function Combine(alpha: real, x: seq<real>, beta: real, y: seq<real>): (r: seq<real>)
    requires |x| == |y|
    ensures |r| == |x|
    ensures forall i :: 0 <= i < |x| ==> r[i] == alpha * x[i] + beta * y[i]
  {
    seq(|x|, i requires 0 <= i < |x| => alpha * x[i] + beta * y[i])
  }

  lemma CombineTail(alpha: real, x: seq<real>, beta: real, y: seq<real>)
    requires |x| == |y| > 0
    ensures Combine(alpha, x, beta, y)[1..] == Combine(alpha, x[1..], beta, y[1..])
  {
    var c, t := Combine(alpha, x, beta, y), Combine(alpha, x[1..], beta, y[1..]);
    forall k | 0 <= k < |t|
      ensures c[1..][k] == t[k]
    {
      assert c[1..][k] == c[k + 1];
    }
  }

  /** The scalar product is linear in its second argument. */
  lemma {:induction false} DotLinear(a: seq<real>, x: seq<real>, y: seq<real>, alpha: real, beta: real)
    requires |a| == |x| == |y|
    ensures Dot(a, Combine(alpha, x, beta, y)) == alpha * Dot(a, x) + beta * Dot(a, y)
  {
    if |a| > 0 {
      var c := Combine(alpha, x, beta, y);
      CombineTail(alpha, x, beta, y);
      DotLinear(a[1..], x[1..], y[1..], alpha, beta);
      assert c[0] == alpha * x[0] + beta * y[0];
      Distribute(a[0], x[0], y[0], alpha, beta);
    }
  }

  /** The scalar product is linear in its first argument. */
  lemma {:induction false} DotLinearLeft(a: seq<real>, b: seq<real>, x: seq<real>, alpha: real, beta: real)
    requires |a| == |b| == |x|
    ensures Dot(Combine(alpha, a, beta, b), x) == alpha * Dot(a, x) + beta * Dot(b, x)
  {
    if |a| > 0 {
      var c := Combine(alpha, a, beta, b);
      CombineTail(alpha, a, beta, b);
      DotLinearLeft(a[1..], b[1..], x[1..], alpha, beta);
      assert c[0] == alpha * a[0] + beta * b[0];
      Distribute(x[0], a[0], b[0], alpha, beta);
    }
  }

  /** The scalar product of concatenations is the sum of the parts' products. */
  lemma {:induction false} DotAppend(a1: seq<real>, a2: seq<real>, b1: seq<real>, b2: seq<real>)
    requires |a1| == |b1| && |a2| == |b2|
    ensures Dot(a1 + a2, b1 + b2) == Dot(a1, b1) + Dot(a2, b2)
  {
    if |a1| > 0 {
      assert (a1 + a2)[1..] == a1[1..] + a2;
      assert (b1 + b2)[1..] == b1[1..] + b2;
      DotAppend(a1[1..], a2, b1[1..], b2);
    } else {
      assert a1 + a2 == a2 && b1 + b2 == b2;
    }
  }

  /** A vector whose only possibly nonzero entry is at `i` picks out entry `i` of the other. */
  lemma {:induction false} DotSingle(a: seq<real>, x: seq<real>, i: nat)
    requires |a| == |x| && i < |a|
    requires forall j :: 0 <= j < |a| && j != i ==> a[j] == 0.0
    ensures Dot(a, x) == a[i] * x[i]
  {
    if i == 0 {
      DotZero(a[1..], x[1..]);
    } else {
      DotSingle(a[1..], x[1..], i - 1);
    }
  }

  lemma {:induction false} DotZero(a: seq<real>, x: seq<real>)
    requires |a| == |x|
    requires forall j :: 0 <= j < |a| ==> a[j] == 0.0
    ensures Dot(a, x) == 0.0
  {
    if |a| > 0 {
      DotZero(a[1..], x[1..]);
    }
  }

  /** The matrix-vector product `m @ x`. */
  function MatVec(m: Matrix, x: seq<real>): (r: seq<real>)
    requires |x| == m.cols
    ensures |r| == m.rows
  {
    seq(m.rows, i requires 0 <= i < m.rows => Dot(m.at[i], x))
  }

  /** A matrix-vector product is linear in the vector. */
  lemma MatVecLinear(m: Matrix, x: seq<real>, y: seq<real>, alpha: real, beta: real)
    requires |x| == |y| == m.cols
    ensures MatVec(m, Combine(alpha, x, beta, y)) == Combine(alpha, MatVec(m, x), beta, MatVec(m, y))
  {
    forall i | 0 <= i < m.rows
      ensures MatVec(m, Combine(alpha, x, beta, y))[i] == Combine(alpha, MatVec(m, x), beta, MatVec(m, y))[i]
    {
      DotLinear(m.at[i], x, y, alpha, beta);
    }
  }

  /** Column `j` of a flat buffer read as a `rows x width` row-major array: `data.reshape((rows, width))[:, j]`. */
  function Column(data: seq<real>, rows: nat, width: nat, j: nat): (r: seq<real>)
    requires |data| == rows * width && j < width
    ensures |r| == rows
  {
    seq(rows, c requires 0 <= c < rows => FlatIndexBound(c, j, rows, width); data[c * width + j])
  }

  lemma ColumnAt(data: seq<real>, rows: nat, width: nat, j: nat, c: nat)
    requires |data| == rows * width && j < width && c < rows
    ensures 0 <= c * width + j < |data|
    ensures Column(data, rows, width, j)[c] == data[c * width + j]
  {
    FlatIndexBound(c, j, rows, width);
  }

  /** The product of `m` with a flat buffer read as an `m.cols x width` array, flattened row-major:
      `m @ data.reshape((m.cols, width))`. */
  function MatMul(m: Matrix, data: seq<real>, width: nat): (r: seq<real>)
    requires |data| == m.cols * width
    ensures |r| == m.rows * width
  {
    seq(m.rows * width, k requires 0 <= k < m.rows * width =>
      RowMajorSplit(k, m.rows, width);
      Dot(m.at[k / width], Column(data, m.cols, width, k % width)))
  }

  /** Entry `(i, j)` of `m @ C` is row `i` of `m` against column `j` of `C`. */
  lemma MatMulEntry(m: Matrix, data: seq<real>, width: nat, i: nat, j: nat)
    requires |data| == m.cols * width && i < m.rows && j < width
    ensures 0 <= i * width + j < m.rows * width
    ensures MatMul(m, data, width)[i * width + j] == Dot(m.at[i], Column(data, m.cols, width, j))
  {
    FlatIndexBound(i, j, m.rows, width);
    DivModUnique(i * width + j, width, i, j);
  }

  /** Column by column: column `j` of `m @ C` is `m` applied to column `j` of `C`. */
  lemma MatMulColumns(m: Matrix, data: seq<real>, width: nat, j: nat)
    requires |data| == m.cols * width && j < width
    ensures Column(MatMul(m, data, width), m.rows, width, j) == MatVec(m, Column(data, m.cols, width, j))
  {
    var lhs := Column(MatMul(m, data, width), m.rows, width, j);
    forall i | 0 <= i < m.rows
      ensures lhs[i] == MatVec(m, Column(data, m.cols, width, j))[i]
    {
      ColumnAt(MatMul(m, data, width), m.rows, width, j, i);
      MatMulEntry(m, data, width, i, j);
    }
  }

  /** With a single column the product is the matrix-vector product. */
  lemma MatMulSingleColumn(m: Matrix, x: seq<real>)
    requires |x| == m.cols
    ensures MatMul(m, x, 1) == MatVec(m, x)
  {
    var col := Column(x, m.cols, 1, 0);
    forall c | 0 <= c < m.cols
      ensures col[c] == x[c]
    {
      ColumnAt(x, m.cols, 1, 0, c);
    }
    assert col == x;
    forall i | 0 <= i < m.rows
      ensures MatMul(m, x, 1)[i] == MatVec(m, x)[i]
    {
      MatMulEntry(m, x, 1, i, 0);
    }
  }

  lemma ColumnCombine(x: seq<real>, y: seq<real>, rows: nat, width: nat, j: nat, alpha: real, beta: real)
    requires |x| == |y| == rows * width && j < width
    ensures Column(Combine(alpha, x, beta, y), rows, width, j)
         == Combine(alpha, Column(x, rows, width, j), beta, Column(y, rows, width, j))
  {
    var z := Combine(alpha, x, beta, y);
    var lhs, cx, cy := Column(z, rows, width, j), Column(x, rows, width, j), Column(y, rows, width, j);
    forall c | 0 <= c < rows
      ensures lhs[c] == Combine(alpha, cx, beta, cy)[c]
    {
      ColumnAt(z, rows, width, j, c);
      ColumnAt(x, rows, width, j, c);
      ColumnAt(y, rows, width, j, c);
      var k := c * width + j;
      assert z[k] == alpha * x[k] + beta * y[k];
    }
    assert lhs == Combine(alpha, cx, beta, cy);
  }

  /** Entry `k` of `m @ C` is linear in `C`. */
  lemma MatMulLinearAt(m: Matrix, x: seq<real>, y: seq<real>, width: nat, alpha: real, beta: real, k: nat)
    requires |x| == |y| == m.cols * width && k < m.rows * width
    ensures MatMul(m, Combine(alpha, x, beta, y), width)[k]
         == alpha * MatMul(m, x, width)[k] + beta * MatMul(m, y, width)[k]
  {
    RowMajorSplit(k, m.rows, width);
    var i, j := k / width, k % width;
    var cx, cy := Column(x, m.cols, width, j), Column(y, m.cols, width, j);
    ColumnCombine(x, y, m.cols, width, j, alpha, beta);
    assert MatMul(m, Combine(alpha, x, beta, y), width)[k] == Dot(m.at[i], Combine(alpha, cx, beta, cy));
    assert MatMul(m, x, width)[k] == Dot(m.at[i], cx);
    assert MatMul(m, y, width)[k] == Dot(m.at[i], cy);
    DotLinear(m.at[i], cx, cy, alpha, beta);
  }

  /** `m @ C` is linear in `C`: evaluating a combination of two buffers gives the combination of the results. */
  lemma MatMulLinear(m: Matrix, x: seq<real>, y: seq<real>, width: nat, alpha: real, beta: real)
    requires |x| == |y| == m.cols * width
    ensures MatMul(m, Combine(alpha, x, beta, y), width)
         == Combine(alpha, MatMul(m, x, width), beta, MatMul(m, y, width))
  {
    var lhs := MatMul(m, Combine(alpha, x, beta, y), width);
    var rhs := Combine(alpha, MatMul(m, x, width), beta, MatMul(m, y, width));
    forall k | 0 <= k < m.rows * width
      ensures lhs[k] == rhs[k]
    {
      MatMulLinearAt(m, x, y, width, alpha, beta, k);
    }
  }

  // ---------------------------------------------------------------------------------------------
  // Coordinate-format (COO) buffers, as `sps.csc_matrix((data, (row_indices, col_indices)), shape)`.

  /** One slot of the data / row-index / column-index buffers. */
  datatype Triplet = Triplet(row: int, col: int, value: real)

  predicate ColumnsInBounds(t: seq<Triplet>, cols: int)
  {
    forall k :: 0 <= k < |t| ==> 0 <= t[k].col < cols
  }

  predicate InBounds(t: seq<Triplet>, rows: int, cols: int)
  {
    forall k :: 0 <= k < |t| ==> 0 <= t[k].row < rows && 0 <= t[k].col < cols
  }

  /** The matrix entry at `(r, c)`: scipy sums the values of all slots that name it. */
  function CooEntry(t: seq<Triplet>, r: int, c: int): real
  {
    if |t| == 0 then 0.0
    else
      var last := t[|t| - 1];
      CooEntry(t[..|t| - 1], r, c) + (if last.row == r && last.col == c then last.value else 0.0)
  }

  /** The sparse matrix assembled from a COO buffer; a negative shape or an index outside it raises. */
  function FromTriplets(rows: int, cols: int, t: seq<Triplet>): (res: Result<Matrix, Error>)
    ensures res.Ok? <==> rows >= 0 && cols >= 0 && InBounds(t, rows, cols)
    ensures res.Ok? ==> res.value.rows == rows && res.value.cols == cols
    ensures res.Ok? ==> forall r, c :: 0 <= r < rows && 0 <= c < cols ==> res.value.at[r][c] == CooEntry(t, r, c)
  {
    if rows < 0 || cols < 0 then Err(NegativeDimension)
    else if !InBounds(t, rows, cols) then Err(SparseIndexOutOfRange)
    else Ok(RawMatrix(rows, cols, seq(rows, r => seq(cols, c => CooEntry(t, r, c)))))
  }

  /** Sparsity: an entry that no slot names is zero. */
  lemma {:induction false} CooEntryUnnamed(t: seq<Triplet>, r: int, c: int)
    requires forall k :: 0 <= k < |t| ==> t[k].row != r || t[k].col != c
    ensures CooEntry(t, r, c) == 0.0
  {
    if |t| > 0 {
      CooEntryUnnamed(t[..|t| - 1], r, c);
    }
  }

  /** Row `r` of the product of a COO buffer with `x`, computed slot by slot as a sparse
      matrix-vector product does it. */
  function SparseRowDot(t: seq<Triplet>, r: int, x: seq<real>): real
    requires ColumnsInBounds(t, |x|)
  {
    if |t| == 0 then 0.0
    else
      var last := t[|t| - 1];
      SparseRowDot(t[..|t| - 1], r, x) + (if last.row == r then last.value * x[last.col] else 0.0)
  }

  /** The dense meaning of a COO buffer agrees with the slot-by-slot sparse product. */
  lemma SparseMatVec(rows: int, t: seq<Triplet>, x: seq<real>, r: nat)
    requires FromTriplets(rows, |x|, t).Ok? && r < rows
    ensures MatVec(FromTriplets(rows, |x|, t).value, x)[r] == SparseRowDot(t, r, x)
  {
    var m := FromTriplets(rows, |x|, t).value;
    assert m.at[r] == CooRow(t, r, |x|);
    CooRowDot(t, r, x);
  }

  /** Row `r` of the matrix a COO buffer stands for, over `n` columns. */
  function CooRow(t: seq<Triplet>, r: int, n: nat): (row: seq<real>)
    ensures |row| == n && forall c :: 0 <= c < n ==> row[c] == CooEntry(t, r, c)
  {
    seq(n, c => CooEntry(t, r, c))
  }

  lemma {:induction false} CooRowDot(t: seq<Triplet>, r: int, x: seq<real>)
    requires ColumnsInBounds(t, |x|)
    ensures Dot(CooRow(t, r, |x|), x) == SparseRowDot(t, r, x)
  {
    if |t| == 0 {
      DotZero(CooRow(t, r, |x|), x);
    } else {
      var init, last := t[..|t| - 1], t[|t| - 1];
      assert ColumnsInBounds(init, |x|);
      CooRowDot(init, r, x);
      CooRowDotStep(t, r, x);
      SlotRowDot(last, r, x);
    }
  }

  /** The row of a buffer is the row of all slots but the last plus the row of the last slot, under a product too. */
  lemma CooRowDotStep(t: seq<Triplet>, r: int, x: seq<real>)
    requires |t| > 0
    ensures Dot(CooRow(t, r, |x|), x) == Dot(CooRow(t[..|t| - 1], r, |x|), x) + Dot(SlotRow(t[|t| - 1], r, |x|), x)
  {
    CooRowSplit(t, r, |x|);
    DotLinearLeft(CooRow(t[..|t| - 1], r, |x|), SlotRow(t[|t| - 1], r, |x|), x, 1.0, 1.0);
  }

  /** A single slot contributes its value times the entry of `x` it names, to its own row only. */
  lemma SlotRowDot(s: Triplet, r: int, x: seq<real>)
    requires 0 <= s.col < |x|
    ensures Dot(SlotRow(s, r, |x|), x) == if s.row == r then s.value * x[s.col] else 0.0
  {
    var hit := SlotRow(s, r, |x|);
    DotSingle(hit, x, s.col);
  }

  /** Row `r` of the one-slot buffer `[s]`, over `n` columns. */
  function SlotRow(s: Triplet, r: int, n: nat): (row: seq<real>)
    ensures |row| == n
    ensures forall c :: 0 <= c < n ==> row[c] == if s.row == r && s.col == c then s.value else 0.0
  {
    seq(n, c => if s.row == r && s.col == c then s.value else 0.0)
  }

  /** A row of a buffer is the row of all slots but the last plus the row of the last slot. */
  lemma CooRowSplit(t: seq<Triplet>, r: int, n: nat)
    requires |t| > 0
    ensures CooRow(t, r, n) == Combine(1.0, CooRow(t[..|t| - 1], r, n), 1.0, SlotRow(t[|t| - 1], r, n))
  {
    var row, before, hit := CooRow(t, r, n), CooRow(t[..|t| - 1], r, n), SlotRow(t[|t| - 1], r, n);
    forall c | 0 <= c < n
      ensures row[c] == 1.0 * before[c] + 1.0 * hit[c]
    {
    }
  }

  // ---------------------------------------------------------------------------------------------
  // Expansion for interleaved physical dimensions.

  /** The map that applies `m` to each of `e` interleaved components: entry `(R, C)` is
      `m[R / e, C / e]` when `R` and `C` address the same component, and zero otherwise. */
  function Expand(m: Matrix, e: nat): (r: Matrix)
    requires e > 0
    ensures r.rows == m.rows * e && r.cols == m.cols * e
  {
    var at := seq(m.rows * e, R requires 0 <= R < m.rows * e =>
      RowMajorSplit(R, m.rows, e);
      InterleavedRow(m.at[R / e], e, R % e));
    assert forall R :: 0 <= R < m.rows * e ==> |at[R]| == m.cols * e by {
      forall R | 0 <= R < m.rows * e
        ensures |at[R]| == m.cols * e
      {
        RowMajorSplit(R, m.rows, e);
        assert |m.at[R / e]| == m.cols;
      }
    }
    RawMatrix(m.rows * e, m.cols * e, at)
  }

  /** A row that carries `w` on component `i` of every block of `e` entries and zeros elsewhere. */
  function InterleavedRow(w: seq<real>, e: nat, i: nat): (row: seq<real>)
    requires i < e
    ensures |row| == |w| * e
  {
    seq(|w| * e, C requires 0 <= C < |w| * e =>
      RowMajorSplit(C, |w|, e);
      if C % e == i then w[C / e] else 0.0)
  }

  lemma InterleavedRowAt(w: seq<real>, e: nat, i: nat, c: nat, j: nat)
    requires i < e && j < e && c < |w|
    ensures c * e + j < |w| * e
    ensures InterleavedRow(w, e, i)[c * e + j] == if j == i then w[c] else 0.0
  {
    FlatIndexBound(c, j, |w|, e);
    DivModUnique(c * e + j, e, c, j);
  }

  /** Entry `(r*e + i, c*e + j)` of the expansion is `m[r, c]` on matching components and 0 otherwise. */
  lemma ExpandEntry(m: Matrix, e: nat, r: nat, i: nat, c: nat, j: nat)
    requires e > 0 && r < m.rows && c < m.cols && i < e && j < e
    ensures r * e + i < m.rows * e && c * e + j < m.cols * e
    ensures Expand(m, e).at[r * e + i][c * e + j] == if i == j then m.at[r][c] else 0.0
  {
    FlatIndexBound(r, i, m.rows, e);
    DivModUnique(r * e + i, e, r, i);
    assert Expand(m, e).at[r * e + i] == InterleavedRow(m.at[r], e, i);
    InterleavedRowAt(m.at[r], e, i, c, j);
  }

  /** Expanding by one component is the identity. */
  lemma ExpandByOne(m: Matrix)
    ensures Expand(m, 1) == m
  {
    var x := Expand(m, 1);
    forall r | 0 <= r < m.rows
      ensures x.at[r] == m.at[r]
    {
      forall c | 0 <= c < m.cols
        ensures x.at[r][c] == m.at[r][c]
      {
        ExpandEntry(m, 1, r, 0, c, 0);
      }
    }
  }

  /** The expanded map applied to an interleaved buffer is `m` applied to the buffer read as an
      `m.cols x e` array: each physical component goes through the scalar map on its own. */
  lemma ExpandActsPerComponent(m: Matrix, e: nat, x: seq<real>)
    requires e > 0 && |x| == m.cols * e
    ensures MatVec(Expand(m, e), x) == MatMul(m, x, e)
  {
    var big := Expand(m, e);
    forall k | 0 <= k < m.rows * e
      ensures MatVec(big, x)[k] == MatMul(m, x, e)[k]
    {
      RowMajorSplit(k, m.rows, e);
      var r, i := k / e, k % e;
      MatMulEntry(m, x, e, r, i);
      assert big.at[k] == InterleavedRow(m.at[r], e, i);
      DotInterleaved(m.at[r], x, e, i);
    }
  }

  /** An interleaved row against `x` is `w` against component `i` of `x`. */
  lemma {:induction false} DotInterleaved(w: seq<real>, x: seq<real>, e: nat, i: nat)
    requires i < e && |x| == |w| * e
    ensures Dot(InterleavedRow(w, e, i), x) == Dot(w, Column(x, |w|, e, i))
  {
    var n := |w|;
    if n == 0 {
      assert InterleavedRow(w, e, i) == [];
    } else {
      var cut := (n - 1) * e;
      var w', v := w[..n - 1], w[n - 1];
      var xHead, xTail := x[..cut], x[cut..];
      InterleavedRowSplit(w, e, i);
      assert x == xHead + xTail;
      var head, colHead := InterleavedRow(w', e, i), Column(xHead, n - 1, e, i);
      calc {
        Dot(InterleavedRow(w, e, i), x);
        { DotAppend(head, UnitBlock(e, i, v), xHead, xTail); }
        Dot(head, xHead) + Dot(UnitBlock(e, i, v), xTail);
        { UnitBlockDot(e, i, v, xTail); DotInterleaved(w', xHead, e, i); }
        Dot(w', colHead) + v * xTail[i];
        { DotAppend(w', [v], colHead, [xTail[i]]); }
        Dot(w' + [v], colHead + [xTail[i]]);
        { assert w == w' + [v]; ColumnSplit(x, n, e, i); }
        Dot(w, Column(x, n, e, i));
      }
    }
  }

  /** A unit block against `y` picks out `v` times entry `i` of `y`. */
  lemma UnitBlockDot(e: nat, i: nat, v: real, y: seq<real>)
    requires i < e && |y| == e
    ensures Dot(UnitBlock(e, i, v), y) == v * y[i]
  {
    DotSingle(UnitBlock(e, i, v), y, i);
  }

  /** An interleaved row is the row of all weights but the last, then one block holding the last weight. */
  lemma InterleavedRowSplit(w: seq<real>, e: nat, i: nat)
    requires i < e && |w| > 0
    ensures (|w| - 1) * e + e == |w| * e
    ensures InterleavedRow(w, e, i) == InterleavedRow(w[..|w| - 1], e, i) + InterleavedRow(w, e, i)[(|w| - 1) * e..]
    ensures InterleavedRow(w, e, i)[(|w| - 1) * e..] == UnitBlock(e, i, w[|w| - 1])
  {
    var n, w' := |w|, w[..|w| - 1];
    var cut := (n - 1) * e;
    assert n * e == cut + e;
    var row, head := InterleavedRow(w, e, i), InterleavedRow(w', e, i);
    forall C | 0 <= C < cut
      ensures row[C] == head[C]
    {
      RowMajorSplit(C, n - 1, e);
      InterleavedRowAt(w', e, i, C / e, C % e);
      InterleavedRowAt(w, e, i, C / e, C % e);
    }
    assert row[..cut] == head;
    assert row == row[..cut] + row[cut..];
    forall j | 0 <= j < e
      ensures row[cut..][j] == UnitBlock(e, i, w[n - 1])[j]
    {
      InterleavedRowAt(w, e, i, n - 1, j);
    }
  }

  /** `e` entries that are zero except for `v` at `i`. */
  function UnitBlock(e: nat, i: nat, v: real): (b: seq<real>)
    ensures |b| == e
  {
    seq(e, j => if j == i then v else 0.0)
  }

  /** Component `i` of an `n x e` buffer is that of its first `n - 1` rows, then entry `i` of the last. */
  lemma ColumnSplit(x: seq<real>, n: nat, e: nat, i: nat)
    requires i < e && n > 0 && |x| == n * e
    ensures (n - 1) * e + e == n * e
    ensures Column(x, n, e, i) == Column(x[..(n - 1) * e], n - 1, e, i) + [x[(n - 1) * e..][i]]
  {
    var cut := (n - 1) * e;
    assert n * e == cut + e;
    var col, colHead := Column(x, n, e, i), Column(x[..cut], n - 1, e, i);
    forall c | 0 <= c < n - 1
      ensures col[c] == colHead[c]
    {
      ColumnAt(x, n, e, i, c);
      ColumnAt(x[..cut], n - 1, e, i, c);
    }
    ColumnAt(x, n, e, i, n - 1);
  }

  // ---------------------------------------------------------------------------------------------
  // Products with dense coefficient arrays.

  /** `m @ c` for a dense array of one or two axes whose leading length is `m.cols`; any other
      operand shape raises. */
  function Apply(m: Matrix, c: NdArray): (r: Result<NdArray, Error>)
    ensures r.Ok? <==> 1 <= |c.shape| <= 2 && c.shape[0] == m.cols
    ensures r.Ok? && |c.shape| == 1 ==>
      (|c.data| == m.cols && r.value.shape == [m.rows] && r.value.data == MatVec(m, c.data))
    ensures r.Ok? && |c.shape| == 2 ==>
      (|c.data| == m.cols * c.shape[1] && r.value.shape == [m.rows, c.shape[1]]
       && r.value.data == MatMul(m, c.data, c.shape[1]))
  {
    if |c.shape| == 1 && c.shape[0] == m.cols then
      ProdOne(m.cols);
      assert c.shape == [m.cols];
      ProdOne(m.rows);
      Ok(RawNdArray([m.rows], MatVec(m, c.data)))
    else if |c.shape| == 2 && c.shape[0] == m.cols then
      var w := c.shape[1];
      assert c.shape == [m.cols, w];
      ProdTwo(m.cols, w);
      ProdTwo(m.rows, w);
      Ok(RawNdArray([m.rows, w], MatMul(m, c.data, w)))
    else
      Err(DimensionMismatch)
  }

  /** `m @ c.reshape((m.cols, -1))`: the buffer is read as `m.cols` rows of `size / m.cols`
      columns; an empty row count or a size it does not divide raises. */
  function ApplyReshaped(m: Matrix, c: NdArray): (r: Result<NdArray, Error>)
    ensures r.Ok? <==> m.cols > 0 && |c.data| % m.cols == 0
    ensures r.Ok? ==> |c.data| == m.cols * (|c.data| / m.cols)
    ensures r.Ok? ==> r.value.shape == [m.rows, |c.data| / m.cols]
    ensures r.Ok? ==> r.value.data == MatMul(m, c.data, |c.data| / m.cols)
  {
    if m.cols == 0 || |c.data| % m.cols != 0 then Err(ReshapeFailure)
    else
      var w := |c.data| / m.cols;
      assert |c.data| == m.cols * w;
      ProdTwo(m.rows, w);
      Ok(RawNdArray([m.rows, w], MatMul(m, c.data, w)))
  }

  /** Both products are linear in the coefficient array. */
  lemma ApplyLinear(m: Matrix, c1: NdArray, c2: NdArray, alpha: real, beta: real)
    requires c1.shape == c2.shape && Apply(m, c1).Ok?
    ensures var c: NdArray := RawNdArray(c1.shape, Combine(alpha, c1.data, beta, c2.data));
      Apply(m, c).Ok? && Apply(m, c2).Ok?
      && Apply(m, c).value.shape == Apply(m, c1).value.shape
      && Apply(m, c).value.data == Combine(alpha, Apply(m, c1).value.data, beta, Apply(m, c2).value.data)
  {
    var c: NdArray := RawNdArray(c1.shape, Combine(alpha, c1.data, beta, c2.data));
    if |c1.shape| == 1 {
      assert c1.shape == [m.cols];
      ProdOne(m.cols);
      MatVecLinear(m, c1.data, c2.data, alpha, beta);
    } else {
      var w := c1.shape[1];
      assert c1.shape == [m.cols, w];
      ProdTwo(m.cols, w);
      MatMulLinear(m, c1.data, c2.data, w, alpha, beta);
    }
  }

  lemma ApplyReshapedLinear(m: Matrix, c1: NdArray, c2: NdArray, alpha: real, beta: real)
    requires c1.shape == c2.shape && ApplyReshaped(m, c1).Ok?
    ensures var c: NdArray := RawNdArray(c1.shape, Combine(alpha, c1.data, beta, c2.data));
      ApplyReshaped(m, c).Ok? && ApplyReshaped(m, c2).Ok?
      && ApplyReshaped(m, c).value.shape == ApplyReshaped(m, c1).value.shape
      && ApplyReshaped(m, c).value.data
         == Combine(alpha, ApplyReshaped(m, c1).value.data, beta, ApplyReshaped(m, c2).value.data)
  {
    var w := |c1.data| / m.cols;
    MatMulLinear(m, c1.data, c2.data, w, alpha, beta);
  }
}
