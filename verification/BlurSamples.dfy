/** One sample of a blurred image, worked out from the samples around it and nothing else. */
module BlurSamples {
  import opened Prelude
  import opened Arithmetic
  import opened BoxBlur

  /** f(lo) + ... + f(hi - 1) */
  function Sum(f: int -> int, lo: int, hi: int): int
    decreases hi - lo
  {
    if lo >= hi then 0 else Sum(f, lo, hi - 1) + f(hi - 1)
  }

  /** The index in 0..n - 1 that is closest to i. */
  function Nearest(i: int, n: nat): int {
    if i < 0 then 0 else if i >= n then n - 1 else i
  }

  /** Sample (y, x, c) of an interleaved image, with the edge samples repeated beyond the edges. */
  function SampleAt(img: Buffer, s: Shape, y: int, x: int, c: int): int {
    var p := (Nearest(y, s.height) * s.width + Nearest(x, s.width)) * s.channels + c;
    if 0 <= p < |img| then img[p] else 0
  }

  /** The floored mean of the row through (y, x, c), from r to the left to r to the right. */
  function RowMean(img: Buffer, s: Shape, r: nat, y: int, x: int, c: int): int {
    Sum((x': int) => SampleAt(img, s, y, x', c), x - r, x + r + 1) / (2 * r + 1)
  }

  lemma {:induction false} WindowSumIs(line: Buffer, f: int -> int, lo: int, hi: int)
    requires |line| > 0 && lo <= hi
    requires forall i | lo <= i < hi :: f(i) == line[Clamp(i, |line|)]
    ensures Sum(f, lo, hi) == WindowSum(line, lo, hi)
    decreases hi - lo
  {
    if lo < hi {
      WindowSumIs(line, f, lo, hi - 1);
    }
  }

  lemma PositionIs(s: Shape, y: int, x: int, c: int)
    ensures (y * s.width + x) * s.channels + c == s.Index(y, x, c)
  {
    MulDistrib(y * s.width, x, s.channels);
  }

  lemma SampleInRow(img: Buffer, s: Shape, y: nat, x: int, c: nat)
    requires s.Valid() && |img| >= s.Size() && s.Has(y, 0, c)
    ensures SampleAt(img, s, y, x, c) == Row(img, s, y, c)[Clamp(x, s.width)]
  {
    var x' := Clamp(x, s.width);
    assert Nearest(y, s.height) == y && Nearest(x, s.width) == x';
    PositionIs(s, y, x', c);
    IndexBounds(s, y, x', c);
    RowFits(s, y, c, |img|);
  }

  lemma RowMeanIs(img: Buffer, s: Shape, r: nat, y: nat, x: nat, c: nat)
    requires s.Valid() && |img| >= s.Size() && s.Has(y, x, c)
    ensures RowMean(img, s, r, y, x, c) == Mean(Row(img, s, y, c), x, r)
  {
    var f := (x': int) => SampleAt(img, s, y, x', c);
    forall i | x - r <= i < x + r + 1 ensures f(i) == Row(img, s, y, c)[Clamp(i, s.width)] {
      SampleInRow(img, s, y, i, c);
    }
    WindowSumIs(Row(img, s, y, c), f, x - r, x + r + 1);
  }

  /** Rows beyond the edge repeat the edge row. */
  lemma RowMeanClamps(img: Buffer, s: Shape, r: nat, y: int, x: int, c: int)
    requires s.Valid()
    ensures RowMean(img, s, r, y, x, c) == RowMean(img, s, r, Nearest(y, s.height), x, c)
  {
    var f := (x': int) => SampleAt(img, s, y, x', c);
    var g := (x': int) => SampleAt(img, s, Nearest(y, s.height), x', c);
    SumsAgree(f, g, x - r, x + r + 1);
  }

  lemma {:induction false} SumsAgree(f: int -> int, g: int -> int, lo: int, hi: int)
    requires forall i | lo <= i < hi :: f(i) == g(i)
    ensures Sum(f, lo, hi) == Sum(g, lo, hi)
    decreases hi - lo
  {
    if lo < hi {
      SumsAgree(f, g, lo, hi - 1);
    }
  }

  lemma ColumnSampleIs(img: Buffer, s: Shape, r: nat, y: int, x: nat, c: nat)
    requires s.Valid() && |img| >= s.Size() && s.Has(0, x, c)
    ensures RowMean(img, s, r, y, x, c) == Column(HorizontalBlur(img, s, r), s, x, c)[Clamp(y, s.height)]
  {
    var y' := Clamp(y, s.height);
    assert Nearest(y, s.height) == y';
    RowMeanClamps(img, s, r, y, x, c);
    RowMeanIs(img, s, r, y', x, c);
    BlurColumnAt(img, s, r, y', x, c);
  }

  lemma ColumnSumIs(img: Buffer, s: Shape, r: nat, y: nat, x: nat, c: nat)
    requires s.Valid() && |img| >= s.Size() && s.Has(y, x, c)
    ensures WindowSum(Column(HorizontalBlur(img, s, r), s, x, c), y - r, y + r + 1)
            == Sum((y': int) => RowMean(img, s, r, y', x, c), y - r, y + r + 1)
  {
    var column := Column(HorizontalBlur(img, s, r), s, x, c);
    var f := (y': int) => RowMean(img, s, r, y', x, c);
    forall i | y - r <= i < y + r + 1 ensures f(i) == column[Clamp(i, s.height)] {
      ColumnSampleIs(img, s, r, i, x, c);
    }
    WindowSumIs(column, f, y - r, y + r + 1);
  }

  /**
   * Every sample of a blurred image is the floored mean, from r rows above to r rows below, of the
   * floored means of the rows there, from r columns to the left to r columns to the right; beyond the
   * edges the edge samples count again.
   */
  lemma BlurSample(img: Buffer, s: Shape, r: nat, y: nat, x: nat, c: nat)
    requires s.Valid() && |img| >= s.Size() && s.Has(y, x, c)
    ensures var p := (y * s.width + x) * s.channels + c;
            && 0 <= p < |Blur(img, s, r)|
            && Blur(img, s, r)[p] as int
               == Sum((y': int) => RowMean(img, s, r, y', x, c), y - r, y + r + 1) / (2 * r + 1)
  {
    PositionIs(s, y, x, c);
    BlurAt(img, s, r, y, x, c);
    ColumnSumIs(img, s, r, y, x, c);
  }
}
