/**
 * The matrix product the kernel computes. A float is its four bytes, and one multiply-accumulate step is
 * an arbitrary function of three floats: every equality is bit for bit and assumes nothing about
 * rounding, signed zeros or NaN.
 */
module MatrixProduct {
  import opened Prelude
  import opened Arithmetic

  datatype Word = Word(b0: Byte, b1: Byte, b2: Byte, b3: Byte)

  const ZERO := Word(0, 0, 0, 0)

  /** out + a * b as the hardware rounds it. */
  type Mac = (Word, Word, Word) -> Word

  /** new Float32Array(buf): whole words only, trailing bytes are ignored. */
  function Words(buf: Buffer): (ws: seq<Word>)
    ensures |ws| == |buf| / 4
  {
    seq(|buf| / 4, i requires 0 <= i < |buf| / 4 =>
      Word(buf[4 * i], buf[4 * i + 1], buf[4 * i + 2], buf[4 * i + 3]))
  }

  function ByteOf(w: Word, k: nat): Byte
    requires k < 4
  {
    if k == 0 then w.b0 else if k == 1 then w.b1 else if k == 2 then w.b2 else w.b3
  }

  /** The bytes under a float array. */
  function BytesOf(ws: seq<Word>): (buf: Buffer)
    ensures |buf| == 4 * |ws|
  {
    seq(4 * |ws|, k requires 0 <= k < 4 * |ws| => ByteOf(ws[k / 4], k % 4))
  }

  lemma WordsOfSlice(buf: Buffer, i: nat, j: nat)
    requires i <= j && 4 * j <= |buf|
    ensures Words(buf[4 * i..4 * j]) == Words(buf)[i..j]
  {
  }

  lemma WordsOfConcat(a: Buffer, b: Buffer)
    requires |a| % 4 == 0
    ensures Words(a + b) == Words(a) + Words(b)
  {
    var n := |a| / 4;
    forall i: nat | i < |Words(a + b)| ensures Words(a + b)[i] == (Words(a) + Words(b))[i] {
      if n <= i {
        assert (a + b)[4 * i] == b[4 * (i - n)];
      }
    }
  }

  lemma BytesOfSlice(ws: seq<Word>, i: nat, j: nat)
    requires i <= j <= |ws|
    ensures BytesOf(ws[i..j]) == BytesOf(ws)[4 * i..4 * j]
  {
  }

  // ---------------------------------------------------------------- the product

  lemma IndexInMatrix(rows: nat, n: nat, i: nat, j: nat)
    requires i < rows && j < n
    ensures i * n + j < rows * n
  {
    MulStrict(i, rows, n);
  }

  /** The first k steps of one output cell, in k order. */
  function Dot(mac: Mac, row: seq<Word>, b: seq<Word>, n: nat, j: nat, k: nat): Word
    requires j < n && k <= |row| && |b| == |row| * n
  {
    if k == 0 then ZERO
    else
      IndexInMatrix(|row|, n, k - 1, j);
      mac(Dot(mac, row, b, n, j, k - 1), row[k - 1], b[(k - 1) * n + j])
  }

  /** One row of the product. */
  function RowProduct(mac: Mac, row: seq<Word>, b: seq<Word>, n: nat): (r: seq<Word>)
    requires |b| == |row| * n
    ensures |r| == n
  {
    seq(n, j requires 0 <= j < n => Dot(mac, row, b, n, j, |row|))
  }

  /** The product of an m x k matrix with a k x n matrix, row after row. */
  function Product(mac: Mac, a: seq<Word>, b: seq<Word>, m: nat, k: nat, n: nat): (c: seq<Word>)
    requires |a| == m * k && |b| == k * n
    ensures |c| == m * n
  {
    if m == 0 then []
    else
      MulDistrib(m, 1, k);
      MulDistrib(m, 1, n);
      Product(mac, a[..(m - 1) * k], b, m - 1, k, n) + RowProduct(mac, a[(m - 1) * k..], b, n)
  }

  lemma ProductUnfolds(mac: Mac, a: seq<Word>, b: seq<Word>, m: nat, k: nat, n: nat)
    requires |a| == m * k && |b| == k * n && m > 0
    ensures 0 <= (m - 1) * k && (m - 1) * k + k == m * k && 0 <= (m - 1) * n && (m - 1) * n + n == m * n
    ensures Product(mac, a, b, m, k, n)
            == Product(mac, a[..(m - 1) * k], b, m - 1, k, n) + RowProduct(mac, a[(m - 1) * k..], b, n)
  {
    MulDistrib(m, 1, k);
    MulDistrib(m, 1, n);
  }

  /** Row i of a product is the product of row i. */
  lemma {:induction false} ProductRow(mac: Mac, a: seq<Word>, b: seq<Word>, m: nat, k: nat, n: nat, i: nat)
    requires |a| == m * k && |b| == k * n && i < m
    ensures 0 <= i * k && i * k + k <= m * k && 0 <= i * n && i * n + n <= m * n
    ensures Product(mac, a, b, m, k, n)[i * n..i * n + n] == RowProduct(mac, a[i * k..i * k + k], b, n)
    decreases m
  {
    ProductUnfolds(mac, a, b, m, k, n);
    if i < m - 1 {
      ProductRow(mac, a[..(m - 1) * k], b, m - 1, k, n, i);
      assert a[..(m - 1) * k][i * k..i * k + k] == a[i * k..i * k + k];
    } else {
      assert a[i * k..i * k + k] == a[(m - 1) * k..];
    }
  }

  /** One row more, one row of the product more. */
  lemma RowAppended(mac: Mac, init: seq<Word>, row: seq<Word>, b: seq<Word>, rows: nat, k: nat, n: nat)
    requires |init| == rows * k && |row| == k && |b| == k * n
    ensures |init + row| == (rows + 1) * k
    ensures Product(mac, init + row, b, rows + 1, k, n)
            == Product(mac, init, b, rows, k, n) + RowProduct(mac, row, b, n)
  {
    MulDistrib(rows, 1, k);
    ProductUnfolds(mac, init + row, b, rows + 1, k, n);
    assert (init + row)[..|init|] == init && (init + row)[|init|..] == row;
  }

  lemma RowsBounds(from: nat, to: nat, m: nat, k: nat)
    requires from <= to <= m
    ensures 0 <= from * k <= to * k <= m * k && to * k - from * k == (to - from) * k
  {
    MulMono(from, to, k);
    MulMono(to, m, k);
    MulDistrib(to, from, k);
  }

  /** Rows of the product depend on the matching rows of the left operand only. */
  lemma {:induction false} ProductOfRows(mac: Mac, a: seq<Word>, b: seq<Word>, m: nat, k: nat, n: nat, from: nat,
                                         end: nat)
    requires |a| == m * k && |b| == k * n && from <= end <= m
    ensures 0 <= from * k <= end * k <= |a| && 0 <= from * n <= end * n <= m * n
    ensures end * k - from * k == (end - from) * k
    ensures Product(mac, a[from * k..end * k], b, end - from, k, n) == Product(mac, a, b, m, k, n)[from * n..end * n]
    decreases end
  {
    RowsBounds(from, end, m, k);
    RowsBounds(from, end, m, n);
    if from < end {
      var last, whole := end - 1, Product(mac, a, b, m, k, n);
      ProductOfRows(mac, a, b, m, k, n, from, last);
      ProductRow(mac, a, b, m, k, n, last);
      MulDistrib(last, 1, k);
      MulDistrib(last, 1, n);
      RowAppended(mac, a[from * k..last * k], a[last * k..end * k], b, last - from, k, n);
      assert a[from * k..end * k] == a[from * k..last * k] + a[last * k..end * k];
      assert whole[from * n..end * n] == whole[from * n..last * n] + whole[last * n..end * n];
    }
  }

  lemma MulStrictOrZero(i: nat, m: nat, k: nat)
    requires i < m
    ensures 0 <= i * k && i * k + k == (i + 1) * k <= m * k
  {
    MulMono(i + 1, m, k);
    MulDistrib(i, 1, k);
  }

  lemma ProductGrows(mac: Mac, a: seq<Word>, b: seq<Word>, i: nat, m: nat, k: nat, n: nat)
    requires |a| == m * k && |b| == k * n && i < m
    ensures 0 <= i * k && i * k + k == (i + 1) * k <= |a|
    ensures Product(mac, a[..(i + 1) * k], b, i + 1, k, n)
            == Product(mac, a[..i * k], b, i, k, n) + RowProduct(mac, a[i * k..i * k + k], b, n)
  {
    MulStrictOrZero(i, m, k);
    var prefix := a[..(i + 1) * k];
    assert prefix[..i * k] == a[..i * k];
    assert prefix[i * k..] == a[i * k..i * k + k];
  }

  // ---------------------------------------------------------------- operands in a byte buffer

  /** What reading past the end of a float array amounts to in a product: undefined becomes NaN. */
  const NAN := Word(0, 0, 0xC0, 0x7F)

  function Padded(ws: seq<Word>, n: nat): (r: seq<Word>)
    ensures |r| == Max(|ws|, n) && ws <= r
    ensures |ws| >= n ==> r == ws
    ensures forall i: nat | |ws| <= i < |r| :: r[i] == NAN
  {
    if |ws| >= n then ws else ws + seq(n - |ws|, _ => NAN)
  }

  /** The left and right operands the kernel reads from its input, one after the other. */
  function LeftOperand(input: Buffer, m: nat, k: nat, n: nat): (a: seq<Word>)
    ensures |a| == m * k
  {
    Padded(Words(input), m * k + k * n)[..m * k]
  }

  function RightOperand(input: Buffer, m: nat, k: nat, n: nat): (b: seq<Word>)
    ensures |b| == k * n
  {
    Padded(Words(input), m * k + k * n)[m * k..m * k + k * n]
  }

  /** The kernel's answer as a byte buffer. */
  function ProductBytes(mac: Mac, input: Buffer, m: nat, k: nat, n: nat): (out: Buffer)
    ensures |out| == 4 * (m * n)
  {
    BytesOf(Product(mac, LeftOperand(input, m, k, n), RightOperand(input, m, k, n), m, k, n))
  }

  /** Math.floor(Math.sqrt(x / 2)) */
  function {:induction false} HalfRoot(x: nat): (s: nat)
    ensures 2 * s * s <= x < 2 * (s + 1) * (s + 1)
  {
    if x < 2 then 0
    else
      var s := HalfRoot(x - 1);
      if 2 * (s + 1) * (s + 1) <= x then s + 1 else s
  }

  datatype Dims = Dims(m: nat, k: nat, n: nat)

  /** The dimensions used: those given, or a guess at two square matrices if one of them is not positive. */
  function UsedDims(input: Buffer, m: int, k: int, n: int): (d: Dims)
    ensures d.m > 0 && d.k > 0 && d.n > 0
    ensures m > 0 && k > 0 && n > 0 ==> d.m == m && d.k == k && d.n == n
    ensures m <= 0 || k <= 0 || n <= 0 ==> d.m == d.k == d.n == Max(1, HalfRoot(|input| / 4))
  {
    if m <= 0 || k <= 0 || n <= 0 then
      var side := Max(1, HalfRoot(|input| / 4));
      Dims(side, side, side)
    else
      Dims(m, k, n)
  }
}
