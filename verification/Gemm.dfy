/** The Float32 matrix kernel, on arrays as the program runs it. */
module Gemm {
  import opened Prelude
  import opened Arithmetic
  import opened MatrixProduct
  import opened ProductCells

  /** The first j cells of a row have taken one step more than in `first`; nothing else has changed. */
  ghost predicate Stepped(mac: Mac, first: seq<Word>, now: seq<Word>, offsetC: nat, a_ik: Word, inFloats: seq<Word>,
                          offsetB: nat, j: nat)
    requires |first| == |now| && offsetC + j <= |now| && offsetB + j <= |inFloats|
  {
    forall p: nat | p < |now| :: now[p] ==
      if offsetC <= p < offsetC + j then mac(first[p], a_ik, inFloats[offsetB + (p - offsetC)]) else first[p]
  }

  /** outFloats[offsetC + j] += a_ik * inFloats[offsetB + j] */
  method Step(mac: Mac, outFloats: array<Word>, offsetC: nat, a_ik: Word, inFloats: seq<Word>, offsetB: nat, j: nat,
              ghost first: seq<Word>)
    requires |first| == outFloats.Length && offsetC + j < outFloats.Length && offsetB + j < |inFloats|
    requires Stepped(mac, first, outFloats[..], offsetC, a_ik, inFloats, offsetB, j)
    modifies outFloats
    ensures Stepped(mac, first, outFloats[..], offsetC, a_ik, inFloats, offsetB, j + 1)
  {
    outFloats[offsetC + j] := mac(outFloats[offsetC + j], a_ik, inFloats[offsetB + j]);
  }

  /** One (i, k) step: eight columns at a time, then the columns left over. */
  method AccumulateRow(mac: Mac, outFloats: array<Word>, offsetC: nat, a_ik: Word, inFloats: seq<Word>, offsetB: nat,
                       n: nat)
    requires offsetC + n <= outFloats.Length && offsetB + n <= |inFloats|
    modifies outFloats
    ensures Stepped(mac, old(outFloats[..]), outFloats[..], offsetC, a_ik, inFloats, offsetB, n)
  {
    ghost var first := outFloats[..];
    var j: nat := 0;
    while j + 8 <= n
      invariant j <= n
      invariant Stepped(mac, first, outFloats[..], offsetC, a_ik, inFloats, offsetB, j)
    {
      Step(mac, outFloats, offsetC, a_ik, inFloats, offsetB, j, first);
      Step(mac, outFloats, offsetC, a_ik, inFloats, offsetB, j + 1, first);
      Step(mac, outFloats, offsetC, a_ik, inFloats, offsetB, j + 2, first);
      Step(mac, outFloats, offsetC, a_ik, inFloats, offsetB, j + 3, first);
      Step(mac, outFloats, offsetC, a_ik, inFloats, offsetB, j + 4, first);
      Step(mac, outFloats, offsetC, a_ik, inFloats, offsetB, j + 5, first);
      Step(mac, outFloats, offsetC, a_ik, inFloats, offsetB, j + 6, first);
      Step(mac, outFloats, offsetC, a_ik, inFloats, offsetB, j + 7, first);
      j := j + 8;
    }
    while j < n
      invariant j <= n
      invariant Stepped(mac, first, outFloats[..], offsetC, a_ik, inFloats, offsetB, j)
    {
      Step(mac, outFloats, offsetC, a_ik, inFloats, offsetB, j, first);
      j := j + 1;
    }
  }

  /** All k steps of one output row, which starts out zero. */
  method MultiplyRow(mac: Mac, outFloats: array<Word>, offsetC: nat, inFloats: seq<Word>, offsetA: nat, aSize: nat,
                     k: nat, n: nat)
    requires offsetC + n <= outFloats.Length && offsetA + k <= aSize && aSize + k * n <= |inFloats|
    requires forall p: nat | offsetC <= p < offsetC + n :: outFloats[p] == ZERO
    modifies outFloats
    ensures outFloats[offsetC..offsetC + n]
            == RowProduct(mac, inFloats[offsetA..offsetA + k], inFloats[aSize..aSize + k * n], n)
    ensures var row, b := inFloats[offsetA..offsetA + k], inFloats[aSize..aSize + k * n];
            forall p: nat | offsetC <= p < offsetC + n ::
              SumOfProducts(mac, row, Column(b, k, n, p - offsetC), outFloats[p])
    ensures forall p: nat | p < outFloats.Length && !(offsetC <= p < offsetC + n) :: outFloats[p] == old(outFloats[p])
  {
    ghost var row, b := inFloats[offsetA..offsetA + k], inFloats[aSize..aSize + k * n];
    for kk := 0 to k
      invariant forall p: nat | offsetC <= p < offsetC + n :: outFloats[p] == Dot(mac, row, b, n, p - offsetC, kk)
      invariant forall p: nat | p < outFloats.Length && !(offsetC <= p < offsetC + n) ::
                  outFloats[p] == old(outFloats[p])
    {
      MulStrictOrZero(kk, k, n);
      var a_ik := inFloats[offsetA + kk];
      ghost var before := outFloats[..];
      AccumulateRow(mac, outFloats, offsetC, a_ik, inFloats, aSize + kk * n, n);
      forall p: nat | offsetC <= p < offsetC + n ensures outFloats[p] == Dot(mac, row, b, n, p - offsetC, kk + 1) {
        IndexInMatrix(k, n, kk, p - offsetC);
        assert outFloats[..][p] == mac(before[p], a_ik, inFloats[aSize + kk * n + (p - offsetC)]);
        assert b[kk * n + (p - offsetC)] == inFloats[aSize + kk * n + (p - offsetC)];
      }
    }
    forall p: nat | offsetC <= p < offsetC + n
      ensures SumOfProducts(mac, row, Column(b, k, n, p - offsetC), outFloats[p])
    {
      DotSums(mac, row, b, n, p - offsetC);
    }
  }

  /** The first i rows of the output are done, the rest is still zero. */
  ghost predicate RowsDone(mac: Mac, out: seq<Word>, a: seq<Word>, b: seq<Word>, i: nat, m: nat, k: nat, n: nat)
    requires |a| == m * k && |b| == k * n && |out| == m * n && i <= m
  {
    MulMono(i, m, k);
    MulMono(i, m, n);
    && out[..i * n] == Product(mac, a[..i * k], b, i, k, n)
    && forall p: nat | i * n <= p < |out| :: out[p] == ZERO
  }

  /** The kernel's outer loop body: row i of the output. */
  method ComputeRow(mac: Mac, outFloats: array<Word>, inFloats: seq<Word>, i: nat, m: nat, k: nat, n: nat)
    requires i < m && outFloats.Length == m * n && m * k + k * n <= |inFloats|
    requires RowsDone(mac, outFloats[..], inFloats[..m * k], inFloats[m * k..m * k + k * n], i, m, k, n)
    modifies outFloats
    ensures RowsDone(mac, outFloats[..], inFloats[..m * k], inFloats[m * k..m * k + k * n], i + 1, m, k, n)
  {
    MulStrictOrZero(i, m, k);
    MulStrictOrZero(i, m, n);
    var offsetC, offsetA := i * n, i * k;
    ghost var a, b, before := inFloats[..m * k], inFloats[m * k..m * k + k * n], outFloats[..];
    MultiplyRow(mac, outFloats, offsetC, inFloats, offsetA, m * k, k, n);
    assert a[offsetA..offsetA + k] == inFloats[offsetA..offsetA + k];
    assert outFloats[..][offsetC..offsetC + n] == outFloats[offsetC..offsetC + n];
    RowsExtend(mac, before, outFloats[..], a, b, i, m, k, n, offsetC, offsetA);
  }

  lemma RowsExtend(mac: Mac, before: seq<Word>, after: seq<Word>, a: seq<Word>, b: seq<Word>, i: nat, m: nat, k: nat,
                   n: nat, offsetC: nat, offsetA: nat)
    requires |a| == m * k && |b| == k * n && |before| == |after| == m * n && i < m
    requires offsetC == i * n && offsetC + n <= |after| && offsetA == i * k && offsetA + k <= |a|
    requires RowsDone(mac, before, a, b, i, m, k, n)
    requires after[offsetC..offsetC + n] == RowProduct(mac, a[offsetA..offsetA + k], b, n)
    requires forall p: nat | p < |after| && !(offsetC <= p < offsetC + n) :: after[p] == before[p]
    ensures RowsDone(mac, after, a, b, i + 1, m, k, n)
  {
    MulStrictOrZero(i, m, n);
    ProductGrows(mac, a, b, i, m, k, n);
    assert after[..offsetC] == before[..offsetC];
    assert after[..offsetC + n] == after[..offsetC] + after[offsetC..offsetC + n];
  }

  /**
   * The unrolled kernel computes, in every cell, the plain fold over k, on the dimensions it settles for
   * and on whatever the input holds.
   */
  method ComputeMatrixMultiply(mac: Mac, input: Buffer, m: int, k: int, n: int) returns (outBuffer: Buffer)
    ensures var d := UsedDims(input, m, k, n);
            && outBuffer == ProductBytes(mac, input, d.m, d.k, d.n) && |outBuffer| == 4 * (d.m * d.n)
            && forall i: nat, j: nat | i < d.m && j < d.n :: CellCorrect(mac, input, d, outBuffer, i, j)
  {
    var floatCount := |input| / 4;
    var m', k', n' := m, k, n;
    if m <= 0 || k <= 0 || n <= 0 {
      var side := Max(1, HalfRoot(floatCount));
      m', k', n' := side, side, side;
    }
    outBuffer := RunKernel(mac, input, m', k', n');
    forall i: nat, j: nat | i < m' && j < n' ensures CellCorrect(mac, input, Dims(m', k', n'), outBuffer, i, j) {
      ProductBytesCell(mac, input, Dims(m', k', n'), i, j);
    }
  }

  method RunKernel(mac: Mac, input: Buffer, m: nat, k: nat, n: nat) returns (outBuffer: Buffer)
    requires m > 0 && k > 0 && n > 0
    ensures outBuffer == ProductBytes(mac, input, m, k, n)
  {
    var inFloats := Padded(Words(input), m * k + k * n);
    var outFloats := new Word[m * n](_ => ZERO);
    for i := 0 to m
      invariant RowsDone(mac, outFloats[..], inFloats[..m * k], inFloats[m * k..m * k + k * n], i, m, k, n)
    {
      ComputeRow(mac, outFloats, inFloats, i, m, k, n);
    }
    ghost var a := LeftOperand(input, m, k, n);
    assert a[..m * k] == a && outFloats[..][..m * n] == outFloats[..];
    outBuffer := BytesOf(outFloats[..]);
  }
}
