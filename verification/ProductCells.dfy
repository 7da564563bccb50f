/** What each cell of a product holds: a sum of products of floats that lie in the input. */
module ProductCells {
  import opened Prelude
  import opened Arithmetic
  import opened MatrixProduct

  /** The float at position p of a buffer; reading past the end of a float array gives NaN. */
  function FloatAt(buf: Buffer, p: nat): Word {
    if 4 * p + 3 < |buf| then Word(buf[4 * p], buf[4 * p + 1], buf[4 * p + 2], buf[4 * p + 3])
    else Word(0, 0, 0xC0, 0x7F)
  }

  /** The position of row i, column j in a matrix of n columns. */
  function Cell(n: nat, i: nat, j: nat): nat {
    i * n + j
  }

  /** Running sums of x[0] * y[0], x[1] * y[1], and so on, starting from zero. */
  ghost predicate RunningSums(mac: Mac, x: seq<Word>, y: seq<Word>, accs: seq<Word>)
    requires |x| == |y|
  {
    && |accs| == |x| + 1 && accs[0] == Word(0, 0, 0, 0)
    && forall t: nat | t < |x| :: accs[t + 1] == mac(accs[t], x[t], y[t])
  }

  /** The last of them. */
  ghost predicate SumOfProducts(mac: Mac, x: seq<Word>, y: seq<Word>, sum: Word)
    requires |x| == |y|
  {
    exists accs :: RunningSums(mac, x, y, accs) && accs[|x|] == sum
  }

  lemma CellInBounds(m: nat, n: nat, i: nat, j: nat)
    requires i < m && j < n
    ensures Cell(n, i, j) < m * n
  {
    IndexInMatrix(m, n, i, j);
  }

  /** Column j of a matrix with k rows of n columns. */
  function Column(b: seq<Word>, k: nat, n: nat, j: nat): (column: seq<Word>)
    requires |b| == k * n && j < n
    ensures |column| == k
  {
    seq(k, t requires 0 <= t < k => (CellInBounds(k, n, t, j); b[Cell(n, t, j)]))
  }

  lemma DotSums(mac: Mac, row: seq<Word>, b: seq<Word>, n: nat, j: nat)
    requires j < n && |b| == |row| * n
    ensures SumOfProducts(mac, row, Column(b, |row|, n, j), Dot(mac, row, b, n, j, |row|))
  {
    var k, column := |row|, Column(b, |row|, n, j);
    var accs := seq(k + 1, t requires 0 <= t <= k => Dot(mac, row, b, n, j, t));
    forall t: nat | t < k ensures accs[t + 1] == mac(accs[t], row[t], column[t]) {
      assert accs[t + 1] == Dot(mac, row, b, n, j, t + 1);
    }
    assert RunningSums(mac, row, column, accs);
  }

  /** Each cell of a row of the product is the sum over its row and column. */
  lemma RowProductCell(mac: Mac, row: seq<Word>, b: seq<Word>, n: nat, j: nat)
    requires |b| == |row| * n && j < n
    ensures SumOfProducts(mac, row, Column(b, |row|, n, j), RowProduct(mac, row, b, n)[j])
  {
    DotSums(mac, row, b, n, j);
  }

  lemma ProductCell(mac: Mac, a: seq<Word>, b: seq<Word>, m: nat, k: nat, n: nat, i: nat, j: nat)
    requires |a| == m * k && |b| == k * n && i < m && j < n
    ensures Cell(k, i, k) <= |a| && Cell(n, i, j) < m * n
    ensures Product(mac, a, b, m, k, n)[Cell(n, i, j)] == RowProduct(mac, a[Cell(k, i, 0)..Cell(k, i, k)], b, n)[j]
  {
    ProductRow(mac, a, b, m, k, n, i);
    SliceAt(Product(mac, a, b, m, k, n), Cell(n, i, 0), Cell(n, i, n), j);
  }

  lemma SliceAt(s: seq<Word>, from: nat, to: nat, j: nat)
    requires from + j < to <= |s|
    ensures s[from..to][j] == s[from + j]
  {
  }

  // ---------------------------------------------------------------- the answer, cell by cell

  /** Row i of the first matrix in the input. */
  function InputRow(input: Buffer, d: Dims, i: nat): (row: seq<Word>)
    ensures |row| == d.k
  {
    seq(d.k, t requires 0 <= t => FloatAt(input, Cell(d.k, i, t)))
  }

  /** Column j of the second one, which lies behind it. */
  function InputColumn(input: Buffer, d: Dims, j: nat): (column: seq<Word>)
    ensures |column| == d.k
  {
    seq(d.k, t requires 0 <= t => FloatAt(input, d.m * d.k + Cell(d.n, t, j)))
  }

  /** Cell (i, j) of the output is row i of the first matrix times column j of the second one. */
  ghost predicate CellCorrect(mac: Mac, input: Buffer, d: Dims, out: Buffer, i: nat, j: nat) {
    SumOfProducts(mac, InputRow(input, d, i), InputColumn(input, d, j), FloatAt(out, Cell(d.n, i, j)))
  }

  lemma OperandAt(input: Buffer, m: nat, k: nat, n: nat, p: nat)
    ensures p < m * k ==> LeftOperand(input, m, k, n)[p] == FloatAt(input, p)
    ensures p < k * n ==> RightOperand(input, m, k, n)[p] == FloatAt(input, m * k + p)
  {
    var all := Padded(Words(input), m * k + k * n);
    assert forall q: nat | q < |all| :: all[q] == FloatAt(input, q);
  }

  lemma InputRowIs(input: Buffer, d: Dims, i: nat)
    requires i < d.m
    ensures Cell(d.k, i, d.k) <= d.m * d.k
    ensures LeftOperand(input, d.m, d.k, d.n)[Cell(d.k, i, 0)..Cell(d.k, i, d.k)] == InputRow(input, d, i)
  {
    MulStrictOrZero(i, d.m, d.k);
    var at, a := Cell(d.k, i, 0), LeftOperand(input, d.m, d.k, d.n);
    forall t: nat | t < d.k ensures a[at..at + d.k][t] == InputRow(input, d, i)[t] {
      OperandAt(input, d.m, d.k, d.n, at + t);
    }
  }

  lemma InputColumnIs(input: Buffer, d: Dims, j: nat)
    requires j < d.n
    ensures Column(RightOperand(input, d.m, d.k, d.n), d.k, d.n, j) == InputColumn(input, d, j)
  {
    var b := RightOperand(input, d.m, d.k, d.n);
    forall t: nat | t < d.k ensures Column(b, d.k, d.n, j)[t] == InputColumn(input, d, j)[t] {
      CellInBounds(d.k, d.n, t, j);
      OperandAt(input, d.m, d.k, d.n, Cell(d.n, t, j));
    }
  }

  lemma FloatOfBytes(ws: seq<Word>, p: nat)
    requires p < |ws|
    ensures FloatAt(BytesOf(ws), p) == ws[p]
  {
  }

  lemma CellSums(mac: Mac, input: Buffer, d: Dims, i: nat, j: nat)
    requires j < d.n
    ensures SumOfProducts(mac, InputRow(input, d, i), InputColumn(input, d, j), CellSum(mac, input, d, i, j))
  {
    InputColumnIs(input, d, j);
    RowProductCell(mac, InputRow(input, d, i), RightOperand(input, d.m, d.k, d.n), d.n, j);
  }

  function CellSum(mac: Mac, input: Buffer, d: Dims, i: nat, j: nat): Word
    requires j < d.n
  {
    RowProduct(mac, InputRow(input, d, i), RightOperand(input, d.m, d.k, d.n), d.n)[j]
  }

  lemma CellAt(mac: Mac, input: Buffer, d: Dims, i: nat, j: nat)
    requires i < d.m && j < d.n
    ensures FloatAt(ProductBytes(mac, input, d.m, d.k, d.n), Cell(d.n, i, j)) == CellSum(mac, input, d, i, j)
  {
    var a, b := LeftOperand(input, d.m, d.k, d.n), RightOperand(input, d.m, d.k, d.n);
    InputRowIs(input, d, i);
    ProductCell(mac, a, b, d.m, d.k, d.n, i, j);
    FloatOfBytes(Product(mac, a, b, d.m, d.k, d.n), Cell(d.n, i, j));
  }

  /** Every cell of the answer is the sum of products it should be, in k order, bit for bit. */
  lemma ProductBytesCell(mac: Mac, input: Buffer, d: Dims, i: nat, j: nat)
    requires i < d.m && j < d.n
    ensures CellCorrect(mac, input, d, ProductBytes(mac, input, d.m, d.k, d.n), i, j)
  {
    CellSums(mac, input, d, i, j);
    CellAt(mac, input, d, i, j);
  }

  /** An input that is too short leaves NaN in the operands: here, a product of nothing at all. */
  lemma ShortInputIsNaN(mac: Mac, input: Buffer)
    requires |input| < 4
    ensures UsedDims(input, 0, 0, 0) == Dims(1, 1, 1)
    ensures ProductBytes(mac, input, 1, 1, 1) == BytesOf([mac(ZERO, NAN, NAN)])
  {
    var a, b := LeftOperand(input, 1, 1, 1), RightOperand(input, 1, 1, 1);
    assert a == [NAN] && b == [NAN];
    assert Dot(mac, a, b, 1, 0, 0) == ZERO;
    assert a[1 * 0..] == [NAN];
    assert Product(mac, a[..0], b, 0, 1, 1) == [];
    assert RowProduct(mac, [NAN], b, 1) == [mac(ZERO, NAN, NAN)];
  }
}
