/**
 * The separable box-blur kernel: one horizontal and one vertical pass, each a sliding window
 * whose running sum is updated by one sample in and one sample out. The specification is the
 * definition of the filter: the floor of the mean of the 2r+1 neighbours, clamped at the edges.
 */
module BoxBlur {
  import opened Prelude
  import opened Arithmetic

  /** Interleaved image geometry: sample (y, x, c) lives at Index(y, x, c). */
  datatype Shape = Shape(width: nat, height: nat, channels: nat) {

    predicate Valid() {
      width > 0 && height > 0 && channels > 0
    }

    function RowBytes(): (n: nat)
      ensures Valid() ==> n > 0
    {
      width * channels
    }

    function Size(): nat {
      height * RowBytes()
    }

    predicate Has(y: int, x: int, c: int) {
      0 <= y < height && 0 <= x < width && 0 <= c < channels
    }

    function Index(y: int, x: int, c: int): int {
      y * RowBytes() + x * channels + c
    }
  }

  datatype Coord = Coord(y: nat, x: nat, c: nat)

  lemma IndexBounds(s: Shape, y: int, x: int, c: int)
    requires s.Has(y, x, c)
    ensures 0 <= x * s.channels + c < s.RowBytes()
    ensures 0 <= s.Index(y, x, c) < s.Size()
  {
    MulStrict(x, s.width, s.channels);
    MulMono(0, x, s.channels);
    MulStrict(y, s.height, s.RowBytes());
    MulMono(0, y, s.RowBytes());
  }

  lemma IndexInjective(s: Shape, y: int, x: int, c: int, y': int, x': int, c': int)
    requires s.Has(y, x, c) && s.Has(y', x', c') && s.Index(y, x, c) == s.Index(y', x', c')
    ensures y == y' && x == x' && c == c'
  {
    IndexBounds(s, y, x, c);
    IndexBounds(s, y', x', c');
    DivModUnique(s.Index(y, x, c), s.RowBytes(), y, x * s.channels + c);
    DivModUnique(s.Index(y, x, c), s.RowBytes(), y', x' * s.channels + c');
    DivModUnique(x * s.channels + c, s.channels, x, c);
    DivModUnique(x * s.channels + c, s.channels, x', c');
  }

  lemma CoordInRange(s: Shape, i: nat)
    requires s.Valid() && i < s.Size()
    ensures s.RowBytes() > 0 && s.channels > 0
    ensures i / s.RowBytes() < s.height
    ensures i % s.RowBytes() / s.channels < s.width
  {
    var bpr := s.RowBytes();
    var y, rest := i / bpr, i % bpr;
    if s.height <= y {
      MulMono(s.height, y, bpr);
    }
    var x := rest / s.channels;
    if s.width <= x {
      MulMono(s.width, x, s.channels);
    }
  }

  /** The sample coordinates of a flat position. */
  function CoordOf(s: Shape, i: nat): (p: Coord)
    requires s.Valid() && i < s.Size()
    ensures s.Has(p.y, p.x, p.c) && s.Index(p.y, p.x, p.c) == i
  {
    CoordInRange(s, i);
    var rest := i % s.RowBytes();
    Coord(i / s.RowBytes(), rest / s.channels, rest % s.channels)
  }

  // ---------------------------------------------------------------- the filter's definition

  /** Math.max(0, Math.min(n - 1, i)). */
  function Clamp(i: int, n: nat): (j: nat)
    requires n > 0
    ensures j < n
    ensures 0 <= i < n ==> j == i
  {
    Max(0, Min(n - 1, i))
  }

  /** The sum of line[Clamp(i)] over lo <= i < hi. */
  function WindowSum(line: Buffer, lo: int, hi: int): (sum: nat)
    requires |line| > 0 && lo <= hi
    ensures sum <= 255 * (hi - lo)
    decreases hi - lo
  {
    if lo == hi then 0 else WindowSum(line, lo, hi - 1) + line[Clamp(hi - 1, |line|)]
  }

  lemma MeanFitsByte(sum: nat, count: nat)
    requires count > 0 && sum <= 255 * count
    ensures 0 <= sum / count < 256
  {
    QuotientBounds(sum, count, 0, 255);
  }

  /** The floor of the mean of the 2r+1 clamped neighbours of position x. */
  function Mean(line: Buffer, x: int, r: nat): Byte
    requires |line| > 0
  {
    MeanFitsByte(WindowSum(line, x - r, x + r + 1), 2 * r + 1);
    WindowSum(line, x - r, x + r + 1) / (2 * r + 1)
  }

  lemma MeanIs(line: Buffer, x: int, r: nat, sum: int)
    requires |line| > 0 && sum == WindowSum(line, x - r, x + r + 1)
    ensures 0 <= sum / (2 * r + 1) < 256 && sum / (2 * r + 1) == Mean(line, x, r)
  {
    MeanFitsByte(sum, 2 * r + 1);
  }

  lemma MeanSlides(line: Buffer, x: int, r: nat, sum: int, sum': int)
    requires |line| > 0 && sum == WindowSum(line, x - 1 - r, x + r)
    requires sum' == sum + line[Clamp(x + r, |line|)] - line[Clamp(x - r - 1, |line|)]
    ensures sum' == WindowSum(line, x - r, x + r + 1)
    ensures 0 <= sum' / (2 * r + 1) < 256 && sum' / (2 * r + 1) == Mean(line, x, r)
  {
    WindowSlides(line, x - 1 - r, x + r);
    MeanIs(line, x, r, sum');
  }

  function Pos(base: nat, stride: nat, i: nat): nat {
    base + i * stride
  }

  /** The n samples base, base + stride, ... all lie inside a buffer of the given length. */
  ghost predicate Fits(length: nat, base: nat, stride: nat, n: nat) {
    stride > 0 && n > 0 && forall i: nat | i < n :: Pos(base, stride, i) < length
  }

  ghost function Line(buf: Buffer, base: nat, stride: nat, n: nat): (line: Buffer)
    requires Fits(|buf|, base, stride, n)
    ensures |line| == n && forall i: nat | i < n :: line[i] == buf[Pos(base, stride, i)]
  {
    seq(n, i requires 0 <= i < n => buf[Pos(base, stride, i)])
  }

  lemma RowFits(s: Shape, y: nat, c: nat, length: nat)
    requires s.Has(y, 0, c) && s.Valid() && length >= s.Size()
    ensures Fits(length, s.Index(y, 0, c), s.channels, s.width)
    ensures forall x: nat | x < s.width :: Pos(s.Index(y, 0, c), s.channels, x) == s.Index(y, x, c)
  {
    forall x: nat | x < s.width
      ensures Pos(s.Index(y, 0, c), s.channels, x) == s.Index(y, x, c) < length
    {
      IndexBounds(s, y, x, c);
    }
  }

  lemma ColumnFits(s: Shape, x: nat, c: nat, length: nat)
    requires s.Has(0, x, c) && s.Valid() && length >= s.Size()
    ensures Fits(length, s.Index(0, x, c), s.RowBytes(), s.height)
    ensures forall y: nat | y < s.height :: Pos(s.Index(0, x, c), s.RowBytes(), y) == s.Index(y, x, c)
  {
    forall y: nat | y < s.height
      ensures Pos(s.Index(0, x, c), s.RowBytes(), y) == s.Index(y, x, c) < length
    {
      IndexBounds(s, y, x, c);
    }
  }

  ghost function Row(img: Buffer, s: Shape, y: nat, c: nat): (line: Buffer)
    requires s.Valid() && |img| >= s.Size() && s.Has(y, 0, c)
    ensures |line| == s.width
  {
    RowFits(s, y, c, |img|);
    Line(img, s.Index(y, 0, c), s.channels, s.width)
  }

  ghost function Column(img: Buffer, s: Shape, x: nat, c: nat): (line: Buffer)
    requires s.Valid() && |img| >= s.Size() && s.Has(0, x, c)
    ensures |line| == s.height
  {
    ColumnFits(s, x, c, |img|);
    Line(img, s.Index(0, x, c), s.RowBytes(), s.height)
  }

  ghost function HorizontalBlur(img: Buffer, s: Shape, r: nat): (out: Buffer)
    requires s.Valid() && |img| >= s.Size()
    ensures |out| == s.Size()
  {
    seq(s.Size(), i requires 0 <= i < s.Size() =>
      var p := CoordOf(s, i); Mean(Row(img, s, p.y, p.c), p.x, r))
  }

  ghost function VerticalBlur(img: Buffer, s: Shape, r: nat): (out: Buffer)
    requires s.Valid() && |img| >= s.Size()
    ensures |out| == s.Size()
  {
    seq(s.Size(), i requires 0 <= i < s.Size() =>
      var p := CoordOf(s, i); Mean(Column(img, s, p.x, p.c), p.y, r))
  }

  /** The whole filter: horizontal means first, then vertical means of those. */
  ghost function Blur(img: Buffer, s: Shape, r: nat): (out: Buffer)
    requires s.Valid() && |img| >= s.Size()
    ensures |out| == s.Size()
  {
    VerticalBlur(HorizontalBlur(img, s, r), s, r)
  }

  lemma HorizontalAt(img: Buffer, s: Shape, r: nat, y: nat, x: nat, c: nat)
    requires s.Valid() && |img| >= s.Size() && s.Has(y, x, c)
    ensures 0 <= s.Index(y, x, c) < s.Size()
    ensures HorizontalBlur(img, s, r)[s.Index(y, x, c)] == Mean(Row(img, s, y, c), x, r)
  {
    IndexBounds(s, y, x, c);
    var p := CoordOf(s, s.Index(y, x, c));
    IndexInjective(s, y, x, c, p.y, p.x, p.c);
  }

  lemma VerticalAt(img: Buffer, s: Shape, r: nat, y: nat, x: nat, c: nat)
    requires s.Valid() && |img| >= s.Size() && s.Has(y, x, c)
    ensures 0 <= s.Index(y, x, c) < s.Size()
    ensures VerticalBlur(img, s, r)[s.Index(y, x, c)] == Mean(Column(img, s, x, c), y, r)
  {
    IndexBounds(s, y, x, c);
    var p := CoordOf(s, s.Index(y, x, c));
    IndexInjective(s, y, x, c, p.y, p.x, p.c);
  }

  // ---------------------------------------------------------------- the sliding window

  /** Sliding by one position drops the sample on the left and adds the one on the right. */
  lemma {:induction false} WindowSlides(line: Buffer, lo: int, hi: int)
    requires |line| > 0 && lo < hi
    ensures WindowSum(line, lo + 1, hi) == WindowSum(line, lo, hi) - line[Clamp(lo, |line|)]
    decreases hi - lo
  {
    if hi == lo + 1 {
      assert WindowSum(line, lo, lo) == 0;
    } else {
      WindowSlides(line, lo, hi - 1);
    }
  }

  /** The first `upto` samples of the line have been overwritten with their means. */
  ghost predicate MeansWritten(dst: Buffer, line: Buffer, base: nat, stride: nat, r: nat, upto: nat)
    requires |line| > 0
  {
    forall i: nat | i < upto :: Pos(base, stride, i) < |dst| && dst[Pos(base, stride, i)] == Mean(line, i, r)
  }

  /** Positions that are not on the line hold what they held before. */
  ghost predicate OffLineKept(before: Buffer, after: Buffer, base: nat, stride: nat, n: nat) {
    |before| == |after| &&
    forall k: nat | k < |after| && !OnLine(k, base, stride, n) :: after[k] == before[k]
  }

  ghost predicate OnLine(k: nat, base: nat, stride: nat, n: nat) {
    exists i: nat :: i < n && Pos(base, stride, i) == k
  }

  lemma MeanWritten(first: Buffer, before: Buffer, after: Buffer, line: Buffer, base: nat, stride: nat, n: nat, r: nat,
                    x: nat)
    requires |line| > 0 && x < n && Fits(|before|, base, stride, n)
    requires MeansWritten(before, line, base, stride, r, x) && OffLineKept(first, before, base, stride, n)
    requires after == before[Pos(base, stride, x) := Mean(line, x, r)]
    ensures MeansWritten(after, line, base, stride, r, x + 1) && OffLineKept(first, after, base, stride, n)
  {
    forall i: nat | i < x ensures Pos(base, stride, i) < Pos(base, stride, x) {
      MulStrict(i, x, stride);
    }
    assert OnLine(Pos(base, stride, x), base, stride, n);
  }

  /** The window of the first position. */
  method FirstWindow(src: array<Byte>, base: nat, stride: nat, n: nat, r: nat) returns (windowSum: nat)
    requires Fits(src.Length, base, stride, n)
    ensures windowSum == WindowSum(Line(src[..], base, stride, n), 0 - r, r + 1)
  {
    ghost var line := Line(src[..], base, stride, n);
    windowSum := 0;
    for k := -(r as int) to r + 1
      invariant windowSum == WindowSum(line, 0 - r, k)
    {
      windowSum := windowSum + src[Pos(base, stride, Clamp(k, n))];
    }
  }

  /** The window moved on by one position. */
  method NextWindow(src: array<Byte>, base: nat, stride: nat, n: nat, r: nat, x: nat, windowSum: int)
    returns (next: int)
    requires Fits(src.Length, base, stride, n) && x < n
    requires windowSum == WindowSum(Line(src[..], base, stride, n), x - 1 - r, x + r)
    ensures var line := Line(src[..], base, stride, n);
            && next == WindowSum(line, x - r, x + r + 1)
            && 0 <= next / (2 * r + 1) < 256 && next / (2 * r + 1) == Mean(line, x, r)
  {
    var leftIdx := Clamp(x - r - 1, n);
    var rightIdx := Clamp(x + r, n);
    next := windowSum + src[Pos(base, stride, rightIdx)] - src[Pos(base, stride, leftIdx)];
    MeanSlides(Line(src[..], base, stride, n), x, r, windowSum, next);
  }

  /**
   * One sliding window over a strided line, the loop both passes share: rows have the stride of a
   * pixel, columns that of a row. Only the positions of the line are written.
   */
  method SlideLine(src: array<Byte>, dst: array<Byte>, base: nat, stride: nat, n: nat, r: nat)
    requires src != dst && Fits(src.Length, base, stride, n) && Fits(dst.Length, base, stride, n)
    modifies dst
    ensures MeansWritten(dst[..], Line(src[..], base, stride, n), base, stride, r, n)
    ensures OffLineKept(old(dst[..]), dst[..], base, stride, n)
  {
    ghost var line := Line(src[..], base, stride, n);
    var windowCount := 2 * r + 1;
    var windowSum: int := FirstWindow(src, base, stride, n, r);
    MeanIs(line, 0, r, windowSum);
    dst[Pos(base, stride, 0)] := windowSum / windowCount;
    MeanWritten(old(dst[..]), old(dst[..]), dst[..], line, base, stride, n, r, 0);
    for x := 1 to n
      invariant windowSum == WindowSum(line, x - 1 - r, x + r)
      invariant MeansWritten(dst[..], line, base, stride, r, x)
      invariant OffLineKept(old(dst[..]), dst[..], base, stride, n)
    {
      windowSum := NextWindow(src, base, stride, n, r, x, windowSum);
      ghost var before := dst[..];
      dst[Pos(base, stride, x)] := windowSum / windowCount;
      MeanWritten(old(dst[..]), before, dst[..], line, base, stride, n, r, x);
    }
  }

  ghost predicate RowDone(src: Buffer, dst: Buffer, s: Shape, r: nat, y: nat, c: nat)
    requires s.Valid() && |src| >= s.Size() && |dst| >= s.Size() && s.Has(y, 0, c)
  {
    forall x: nat | x < s.width ::
      IndexBounds(s, y, x, c); dst[s.Index(y, x, c)] == Mean(Row(src, s, y, c), x, r)
  }

  ghost predicate ColumnDone(src: Buffer, dst: Buffer, s: Shape, r: nat, x: nat, c: nat)
    requires s.Valid() && |src| >= s.Size() && |dst| >= s.Size() && s.Has(0, x, c)
  {
    forall y: nat | y < s.height ::
      IndexBounds(s, y, x, c); dst[s.Index(y, x, c)] == Mean(Column(src, s, x, c), y, r)
  }

  lemma AllRowsDone(src: Buffer, dst: Buffer, s: Shape, r: nat)
    requires s.Valid() && |src| >= s.Size() && |dst| == s.Size()
    requires forall y: nat, c: nat | s.Has(y, 0, c) :: RowDone(src, dst, s, r, y, c)
    ensures dst == HorizontalBlur(src, s, r)
  {
    forall i: nat | i < |dst| ensures dst[i] == HorizontalBlur(src, s, r)[i] {
      var p := CoordOf(s, i);
      assert RowDone(src, dst, s, r, p.y, p.c);
    }
  }

  lemma AllColumnsDone(src: Buffer, dst: Buffer, s: Shape, r: nat)
    requires s.Valid() && |src| >= s.Size() && |dst| == s.Size()
    requires forall x: nat, c: nat | s.Has(0, x, c) :: ColumnDone(src, dst, s, r, x, c)
    ensures dst == VerticalBlur(src, s, r)
  {
    forall i: nat | i < |dst| ensures dst[i] == VerticalBlur(src, s, r)[i] {
      var p := CoordOf(s, i);
      assert ColumnDone(src, dst, s, r, p.x, p.c);
    }
  }

  /** Writing one row-line leaves every other row-line as it was. */
  lemma OtherRowsKept(src: Buffer, before: Buffer, after: Buffer, s: Shape, r: nat, y: nat, c: nat, y': nat, c': nat)
    requires s.Valid() && |src| >= s.Size() && |before| == |after| == s.Size()
    requires s.Has(y, 0, c) && s.Has(y', 0, c') && (y, c) != (y', c')
    requires OffLineKept(before, after, s.Index(y, 0, c), s.channels, s.width)
    requires RowDone(src, before, s, r, y', c')
    ensures RowDone(src, after, s, r, y', c')
  {
    RowFits(s, y, c, |after|);
    forall x: nat | x < s.width
      ensures 0 <= s.Index(y', x, c') < s.Size() && after[s.Index(y', x, c')] == before[s.Index(y', x, c')]
    {
      IndexBounds(s, y', x, c');
      forall i: nat | i < s.width ensures Pos(s.Index(y, 0, c), s.channels, i) != s.Index(y', x, c') {
        if s.Index(y, i, c) == s.Index(y', x, c') {
          IndexInjective(s, y, i, c, y', x, c');
        }
      }
    }
  }

  lemma OtherColumnsKept(src: Buffer, before: Buffer, after: Buffer, s: Shape, r: nat, x: nat, c: nat, x': nat, c': nat)
    requires s.Valid() && |src| >= s.Size() && |before| == |after| == s.Size()
    requires s.Has(0, x, c) && s.Has(0, x', c') && (x, c) != (x', c')
    requires OffLineKept(before, after, s.Index(0, x, c), s.RowBytes(), s.height)
    requires ColumnDone(src, before, s, r, x', c')
    ensures ColumnDone(src, after, s, r, x', c')
  {
    ColumnFits(s, x, c, |after|);
    forall y: nat | y < s.height
      ensures 0 <= s.Index(y, x', c') < s.Size() && after[s.Index(y, x', c')] == before[s.Index(y, x', c')]
    {
      IndexBounds(s, y, x', c');
      forall i: nat | i < s.height ensures Pos(s.Index(0, x, c), s.RowBytes(), i) != s.Index(y, x', c') {
        if s.Index(i, x, c) == s.Index(y, x', c') {
          IndexInjective(s, i, x, c, y, x', c');
        }
      }
    }
  }

  method HorizontalPass(input: array<Byte>, temp: array<Byte>, s: Shape, r: nat)
    requires s.Valid() && input != temp && input.Length >= s.Size() && temp.Length == s.Size()
    modifies temp
    ensures temp[..] == HorizontalBlur(input[..], s, r)
  {
    for y := 0 to s.height
      invariant forall y': nat, c: nat | y' < y && s.Has(y', 0, c) :: RowDone(input[..], temp[..], s, r, y', c)
    {
      for c := 0 to s.channels
        invariant forall y': nat, c': nat | s.Has(y', 0, c') && (y' < y || (y' == y && c' < c)) ::
                    RowDone(input[..], temp[..], s, r, y', c')
      {
        ghost var before := temp[..];
        RowFits(s, y, c, s.Size());
        SlideLine(input, temp, s.Index(y, 0, c), s.channels, s.width, r);
        assert RowDone(input[..], temp[..], s, r, y, c);
        forall y': nat, c': nat | s.Has(y', 0, c') && (y' < y || (y' == y && c' < c)) {
          OtherRowsKept(input[..], before, temp[..], s, r, y, c, y', c');
        }
      }
    }
    AllRowsDone(input[..], temp[..], s, r);
  }

  method VerticalPass(temp: array<Byte>, output: array<Byte>, s: Shape, r: nat)
    requires s.Valid() && temp != output && temp.Length == output.Length == s.Size()
    modifies output
    ensures output[..] == VerticalBlur(temp[..], s, r)
  {
    for x := 0 to s.width
      invariant forall x': nat, c: nat | x' < x && s.Has(0, x', c) :: ColumnDone(temp[..], output[..], s, r, x', c)
    {
      for c := 0 to s.channels
        invariant forall x': nat, c': nat | s.Has(0, x', c') && (x' < x || (x' == x && c' < c)) ::
                    ColumnDone(temp[..], output[..], s, r, x', c')
      {
        ghost var before := output[..];
        ColumnFits(s, x, c, s.Size());
        SlideLine(temp, output, s.Index(0, x, c), s.RowBytes(), s.height, r);
        assert ColumnDone(temp[..], output[..], s, r, x, c);
        forall x': nat, c': nat | s.Has(0, x', c') && (x' < x || (x' == x && c' < c)) {
          OtherColumnsKept(temp[..], before, output[..], s, r, x, c, x', c');
        }
      }
    }
    AllColumnsDone(temp[..], output[..], s, r);
  }

  /** The kernel as the workers run it: never reads or writes out of bounds, never overflows a byte. */
  method ComputeBoxBlur(input: array<Byte>, s: Shape, radius: nat) returns (output: array<Byte>)
    requires s.Valid() && input.Length >= s.Size()
    ensures fresh(output) && output[..] == Blur(input[..], s, radius)
  {
    var temp := new Byte[s.Size()](_ => 0);
    output := new Byte[s.Size()](_ => 0);
    HorizontalPass(input, temp, s, radius);
    VerticalPass(temp, output, s, radius);
  }

  // ---------------------------------------------------------------- consequences

  /** Cell by cell: the floor of the vertical mean of the floors of the horizontal means. */
  lemma BlurAt(img: Buffer, s: Shape, r: nat, y: nat, x: nat, c: nat)
    requires s.Valid() && |img| >= s.Size() && s.Has(y, x, c)
    ensures 0 <= s.Index(y, x, c) < s.Size()
    ensures Blur(img, s, r)[s.Index(y, x, c)] == Mean(Column(HorizontalBlur(img, s, r), s, x, c), y, r)
  {
    VerticalAt(HorizontalBlur(img, s, r), s, r, y, x, c);
  }

  lemma BlurColumnAt(img: Buffer, s: Shape, r: nat, y: nat, x: nat, c: nat)
    requires s.Valid() && |img| >= s.Size() && s.Has(y, x, c)
    ensures Column(HorizontalBlur(img, s, r), s, x, c)[y] == Mean(Row(img, s, y, c), x, r)
  {
    ColumnFits(s, x, c, s.Size());
    HorizontalAt(img, s, r, y, x, c);
  }

  lemma MeanOfRadiusZero(line: Buffer, x: nat)
    requires x < |line|
    ensures Mean(line, x, 0) == line[x]
  {
    assert WindowSum(line, x, x + 1) == WindowSum(line, x, x) + line[x];
  }

  /** Radius 0 is the identity on the image's samples. */
  lemma BlurRadiusZero(img: Buffer, s: Shape)
    requires s.Valid() && |img| >= s.Size()
    ensures Blur(img, s, 0) == img[..s.Size()]
  {
    forall i: nat | i < s.Size() ensures Blur(img, s, 0)[i] == img[i] {
      var p := CoordOf(s, i);
      BlurAt(img, s, 0, p.y, p.x, p.c);
      BlurColumnAt(img, s, 0, p.y, p.x, p.c);
      MeanOfRadiusZero(Column(HorizontalBlur(img, s, 0), s, p.x, p.c), p.y);
      RowFits(s, p.y, p.c, |img|);
      MeanOfRadiusZero(Row(img, s, p.y, p.c), p.x);
    }
  }

  ghost predicate Within(line: Buffer, least: nat, most: nat) {
    forall i | 0 <= i < |line| :: least <= line[i] <= most
  }

  lemma {:induction false} WindowSumBounds(line: Buffer, lo: int, hi: int, least: nat, most: nat)
    requires |line| > 0 && lo <= hi && Within(line, least, most)
    ensures (hi - lo) * least <= WindowSum(line, lo, hi) <= (hi - lo) * most
    decreases hi - lo
  {
    if lo < hi {
      WindowSumBounds(line, lo, hi - 1, least, most);
      assert least <= line[Clamp(hi - 1, |line|)] <= most;
      MulDistrib(hi - lo - 1, 1, least);
      MulDistrib(hi - lo - 1, 1, most);
    } else {
      MulDistrib(0, 0, least);
    }
  }

  lemma MeanBounds(line: Buffer, x: int, r: nat, least: nat, most: nat)
    requires |line| > 0 && Within(line, least, most)
    ensures least <= Mean(line, x, r) <= most
  {
    var n := 2 * r + 1;
    WindowSumBounds(line, x - r, x + r + 1, least, most);
    QuotientBounds(WindowSum(line, x - r, x + r + 1), n, least, most);
  }

  /** No blurred sample leaves the range of the input samples; in particular flat images are fixed. */
  lemma BlurBounds(img: Buffer, s: Shape, r: nat, least: nat, most: nat)
    requires s.Valid() && |img| >= s.Size() && Within(img, least, most)
    ensures Within(Blur(img, s, r), least, most)
  {
    forall i: nat | i < s.Size() ensures least <= Blur(img, s, r)[i] <= most {
      var p := CoordOf(s, i);
      BlurAt(img, s, r, p.y, p.x, p.c);
      var column := Column(HorizontalBlur(img, s, r), s, p.x, p.c);
      forall y': nat | y' < s.height ensures least <= column[y'] <= most {
        RowWithin(img, s, y', p.c, least, most);
        BlurColumnAt(img, s, r, y', p.x, p.c);
        MeanBounds(Row(img, s, y', p.c), p.x, r, least, most);
      }
      MeanBounds(column, p.y, r, least, most);
    }
  }

  lemma RowWithin(img: Buffer, s: Shape, y: nat, c: nat, least: nat, most: nat)
    requires s.Valid() && |img| >= s.Size() && s.Has(y, 0, c) && Within(img, least, most)
    ensures Within(Row(img, s, y, c), least, most)
  {
    RowFits(s, y, c, |img|);
    forall x: nat | x < s.width ensures least <= Row(img, s, y, c)[x] <= most {
      assert Row(img, s, y, c)[x] == img[Pos(s.Index(y, 0, c), s.channels, x)];
    }
  }

  /**
   * The macOS worker's kernel: hands the input back unchanged when the arguments make no sense or
   * the radius is 0, and otherwise runs the same two passes.
   */
  method ApplyBoxBlur(input: array<Byte>, width: int, height: int, channels: int, radius: int)
    returns (output: Buffer)
    ensures var sane := width > 0 && height > 0 && channels > 0 && radius >= 0;
            if sane && input.Length >= Shape(width, height, channels).Size() then
              var s := Shape(width, height, channels);
              && (radius > 0 ==> output == Blur(input[..], s, radius))
              && (radius == 0 ==> output == input[..])
              && (output == Blur(input[..], s, radius) <==> (radius > 0 || input.Length == s.Size()))
            else
              output == input[..]
  {
    if !(width > 0 && height > 0 && channels > 0 && radius >= 0) {
      return input[..];
    }
    var s := Shape(width, height, channels);
    if input.Length < s.Size() {
      return input[..];
    }
    if radius == 0 {
      BlurRadiusZero(input[..], s);
      return input[..];
    }
    var blurred := ComputeBoxBlur(input, s, radius);
    output := blurred[..];
  }
}
