/**
 * ImageChunkEngine: cutting an image into row bands with radius-sized halos, and stripping the
 * halos again when the blurred bands are put back together.
 */
module ImageChunks {
  import opened Prelude
  import opened Arithmetic
  import opened NodeBuffer
  import opened Sorting
  import opened RowBands
  import opened BoxBlur

  datatype ImageMeta = ImageMeta(
    parentWorkloadId: string,
    chunkIndex: nat,
    totalChunks: nat,
    outRowStart: nat,
    outRowEnd: nat,
    outRowCount: nat,
    inRowStart: nat,
    inRowEnd: nat,
    inRowCount: nat,
    topHalo: nat,
    bottomHalo: nat,
    width: nat,
    height: nat,
    channels: nat,
    radius: nat,
    mode: string)

  datatype ImageSpec = ImageSpec(metadata: ImageMeta, payload: Buffer)

  /** A worker's answer: the specification's metadata with the blurred band. */
  datatype ImageResult = ImageResult(metadata: ImageMeta, outputBuffer: Buffer)

  datatype ImageError =
    | InvalidDimensions
    | WrongImageLength
    | NoResults
    | MismatchedParent
    | MissingIndex
    | RowGapOrOverlap
    | WrongOutputLength
    | IncompleteCoverage

  // ---------------------------------------------------------------- partitioning

  /** The metadata of band i of n. */
  function BandMeta(parent: string, s: Shape, mode: string, r: nat, n: nat, i: nat): ImageMeta
    requires s.Valid() && n > 0 && i < n
  {
    BandStartMonotone(s.height, n, i + 1, n);
    var outStart, outEnd := BandStart(s.height, n, i), BandStart(s.height, n, i + 1);
    var inStart, inEnd := Max(0, outStart - r), Min(s.height, outEnd + r);
    ImageMeta(parent, i, n, outStart, outEnd, outEnd - outStart, inStart, inEnd, inEnd - inStart,
              outStart - inStart, inEnd - outEnd, s.width, s.height, s.channels, r, mode)
  }

  /** A band's input reaches `radius` rows beyond its output on each side, as far as the image goes. */
  predicate Haloed(m: ImageMeta, height: int, radius: nat) {
    && m.outRowStart + m.outRowCount == m.outRowEnd && m.inRowStart + m.inRowCount == m.inRowEnd
    && m.inRowStart == Max(0, m.outRowStart - radius) && m.inRowStart + m.topHalo == m.outRowStart
    && m.inRowEnd == Min(height, m.outRowEnd + radius) && m.outRowEnd + m.bottomHalo == m.inRowEnd
    && m.height == height && m.radius == radius
  }

  /** The bands follow each other from the first row to the last. */
  predicate InPlace(specs: seq<ImageSpec>, i: nat, height: int, radius: nat)
    requires i < |specs|
  {
    var m := specs[i].metadata;
    && Haloed(m, height, radius) && m.chunkIndex == i && m.totalChunks == |specs|
    && (i == 0 ==> m.outRowStart == 0)
    && m.outRowEnd == if i + 1 < |specs| then specs[i + 1].metadata.outRowStart else height
  }

  lemma BandBytes(s: Shape, from: nat, to: nat)
    requires from <= to <= s.height
    ensures 0 <= from * s.RowBytes() <= to * s.RowBytes() <= s.Size()
    ensures to * s.RowBytes() - from * s.RowBytes() == (to - from) * s.RowBytes()
  {
    MulMono(from, to, s.RowBytes());
    MulMono(to, s.height, s.RowBytes());
    MulDistrib(to, from, s.RowBytes());
  }

  /** Rows from..to of an image. */
  function Rows(img: Buffer, s: Shape, from: nat, to: nat): (rows: Buffer)
    requires |img| == s.Size() && from <= to <= s.height
    ensures |rows| == (to - from) * s.RowBytes()
  {
    BandBytes(s, from, to);
    img[from * s.RowBytes()..to * s.RowBytes()]
  }

  function BandSpec(parent: string, img: Buffer, s: Shape, mode: string, r: nat, n: nat, i: nat): ImageSpec
    requires s.Valid() && |img| == s.Size() && n > 0 && i < n
  {
    var m := BandMeta(parent, s, mode, r, n, i);
    ImageSpec(m, Rows(img, s, m.inRowStart, m.inRowEnd))
  }

  lemma BandInPlace(specs: seq<ImageSpec>, parent: string, img: Buffer, s: Shape, mode: string, r: nat, n: nat, i: nat)
    requires s.Valid() && |img| == s.Size() && |specs| == n && i < n
    requires forall k: nat | k < n :: specs[k] == BandSpec(parent, img, s, mode, r, n, k)
    ensures InPlace(specs, i, s.height, r)
  {
    BandsCover(s.height, n);
    BandStartMonotone(s.height, n, i, i + 1);
    BandStartMonotone(s.height, n, i + 1, n);
    assert specs[i].metadata == BandMeta(parent, s, mode, r, n, i);
    if i + 1 < n {
      assert specs[i + 1].metadata == BandMeta(parent, s, mode, r, n, i + 1);
    }
  }

  /** A chunk count below 1 yields no specifications at all: the loop never runs. */
  method PartitionImageFilter(parent: string, width: int, height: int, channels: int, mode: string,
                              radius: nat, totalChunks: int, img: Buffer)
    returns (r: Result<seq<ImageSpec>, ImageError>)
    ensures r == Err(InvalidDimensions) <==> (width <= 0 || height <= 0 || channels <= 0)
    ensures r == Err(WrongImageLength) <==>
            (width > 0 && height > 0 && channels > 0 && |img| != Shape(width, height, channels).Size())
    ensures r.Ok? <==>
            (width > 0 && height > 0 && channels > 0 && |img| == Shape(width, height, channels).Size())
    ensures r.Ok? ==>
              var s, n := Shape(width, height, channels), Min(totalChunks, height);
              |r.value| == Max(0, n) &&
              forall i: nat | i < n :: r.value[i] == BandSpec(parent, img, s, mode, radius, n, i)
    ensures r.Ok? ==> forall i: nat | i < |r.value| :: InPlace(r.value, i, height, radius)
    ensures r.Ok? ==>
              forall i: nat | i < |r.value| ::
                var m := r.value[i].metadata;
                m.parentWorkloadId == parent && m.mode == mode && m.width == width && m.channels == channels
  {
    if width <= 0 || height <= 0 || channels <= 0 {
      return Err(InvalidDimensions);
    }
    var s := Shape(width, height, channels);
    if |img| != s.Size() {
      return Err(WrongImageLength);
    }
    var actualChunks := Min(totalChunks, height);
    if actualChunks <= 0 {
      return Ok([]);
    }
    var specs := CutBands(parent, img, s, mode, radius, actualChunks);
    forall i: nat | i < actualChunks ensures InPlace(specs, i, height, radius) {
      BandInPlace(specs, parent, img, s, mode, radius, actualChunks, i);
    }
    r := Ok(specs);
  }

  /** The specification pushed for band i, whose output rows are given. */
  method CutOne(parent: string, img: Buffer, s: Shape, mode: string, radius: nat, actualChunks: nat,
                i: nat, outRowStart: nat, outRowCount: nat)
    returns (spec: ImageSpec)
    requires s.Valid() && |img| == s.Size() && i < actualChunks
    requires outRowStart == BandStart(s.height, actualChunks, i) && outRowCount == BandRows(s.height, actualChunks, i)
    ensures spec == BandSpec(parent, img, s, mode, radius, actualChunks, i)
  {
    BandStartMonotone(s.height, actualChunks, i + 1, actualChunks);
    var outRowEnd := outRowStart + outRowCount;
    var inRowStart, inRowEnd := Max(0, outRowStart - radius), Min(s.height, outRowEnd + radius);
    BandBytes(s, inRowStart, inRowEnd);
    var bytesPerRow := s.RowBytes();
    var payload := SubArray(img, inRowStart * bytesPerRow, inRowEnd * bytesPerRow);
    assert payload == Rows(img, s, inRowStart, inRowEnd);
    spec := ImageSpec(ImageMeta(parent, i, actualChunks, outRowStart, outRowEnd, outRowCount, inRowStart, inRowEnd,
                                inRowEnd - inRowStart, outRowStart - inRowStart, inRowEnd - outRowEnd,
                                s.width, s.height, s.channels, radius, mode), payload);
  }

  /** The loop of partitionImageFilter. */
  method CutBands(parent: string, img: Buffer, s: Shape, mode: string, radius: nat, actualChunks: nat)
    returns (specs: seq<ImageSpec>)
    requires s.Valid() && |img| == s.Size() && actualChunks > 0
    ensures |specs| == actualChunks
    ensures forall i: nat | i < actualChunks :: specs[i] == BandSpec(parent, img, s, mode, radius, actualChunks, i)
  {
    var baseRows, remainder := s.height / actualChunks, s.height % actualChunks;
    specs := [];
    var currentOutRow := 0;
    for i := 0 to actualChunks
      invariant currentOutRow == BandStart(s.height, actualChunks, i)
      invariant |specs| == i
      invariant forall k: nat | k < i :: specs[k] == BandSpec(parent, img, s, mode, radius, actualChunks, k)
    {
      var outRowCount := baseRows + if i < remainder then 1 else 0;
      var spec := CutOne(parent, img, s, mode, radius, actualChunks, i, currentOutRow, outRowCount);
      currentOutRow := currentOutRow + outRowCount;
      specs := specs + [spec];
    }
  }

  // ---------------------------------------------------------------- reassembly

  function ChunkKey(r: ImageResult): int {
    r.metadata.chunkIndex
  }

  /** The checks on sorted results from position i on, given the row the next band must start at. */
  function CheckChunks(parent: string, s: Shape, sorted: seq<ImageResult>, i: nat, next: nat): Option<ImageError>
    requires i <= |sorted|
    decreases |sorted| - i
  {
    if i == |sorted| then
      if next != s.height then Some(IncompleteCoverage) else None
    else
      var m := sorted[i].metadata;
      if m.parentWorkloadId != parent then Some(MismatchedParent)
      else if m.chunkIndex != i then Some(MissingIndex)
      else if m.outRowStart != next then Some(RowGapOrOverlap)
      else if |sorted[i].outputBuffer| != m.inRowCount * s.RowBytes() then Some(WrongOutputLength)
      else CheckChunks(parent, s, sorted, i + 1, m.outRowEnd)
  }

  /** The rows of a result left after its halos are stripped. */
  function ValidRows(r: ImageResult, bytesPerRow: nat): Buffer {
    var from := r.metadata.topHalo * bytesPerRow;
    SubArray(r.outputBuffer, from, from + r.metadata.outRowCount * bytesPerRow)
  }

  function BandPlacement(r: ImageResult, bytesPerRow: nat): Placement {
    Placement(r.metadata.outRowStart * bytesPerRow, ValidRows(r, bytesPerRow))
  }

  /** The copies reassembly makes, in order. */
  function Placements(results: seq<ImageResult>, bytesPerRow: nat): (ps: seq<Placement>)
    ensures |ps| == |results|
    ensures forall i: nat | i < |ps| :: ps[i] == BandPlacement(results[i], bytesPerRow)
  {
    seq(|results|, i requires 0 <= i < |results| => BandPlacement(results[i], bytesPerRow))
  }

  /** Reassembly as a function of what the uninitialised output buffer happened to contain. */
  function AssembleImage(parent: string, s: Shape, results: seq<ImageResult>, scratch: Buffer)
    : Result<Buffer, ImageError>
  {
    var sorted := SortBy(results, ChunkKey);
    if results == [] then Err(NoResults)
    else match CheckChunks(parent, s, sorted, 0, 0)
      case Some(e) => Err(e)
      case None => Ok(PlaceAll(scratch, Placements(sorted, s.RowBytes())))
  }

  method AssembleImageChunks(parent: string, s: Shape, results: seq<ImageResult>)
    returns (r: Result<Buffer, ImageError>, ghost scratch: Buffer)
    ensures |scratch| == s.Size() && r == AssembleImage(parent, s, results, scratch)
    ensures results == [] ==> r == Err(NoResults)
    ensures results != [] ==>
              match CheckChunks(parent, s, SortBy(results, ChunkKey), 0, 0)
              case Some(e) => r == Err(e)
              case None => r.Ok? && |r.value| == s.Size()
  {
    scratch := seq(s.Size(), _ => 0);
    if |results| == 0 {
      return Err(NoResults), scratch;
    }
    var sorted := SortBy(results, ChunkKey);
    var bytesPerRow := s.RowBytes();
    var finalBuffer := new Byte[s.Size()];
    scratch := finalBuffer[..];
    var expectedNextRow := 0;
    for i := 0 to |sorted|
      invariant CheckChunks(parent, s, sorted, 0, 0) == CheckChunks(parent, s, sorted, i, expectedNextRow)
      invariant finalBuffer[..] == PlaceAll(scratch, Placements(sorted, bytesPerRow)[..i])
    {
      var chunk := sorted[i];
      var m := chunk.metadata;
      if m.parentWorkloadId != parent {
        return Err(MismatchedParent), scratch;
      }
      if m.chunkIndex != i {
        return Err(MissingIndex), scratch;
      }
      if m.outRowStart != expectedNextRow {
        return Err(RowGapOrOverlap), scratch;
      }
      if |chunk.outputBuffer| != m.inRowCount * bytesPerRow {
        return Err(WrongOutputLength), scratch;
      }
      Copy(finalBuffer, m.outRowStart * bytesPerRow, ValidRows(chunk, bytesPerRow));
      assert Placements(sorted, bytesPerRow)[..i + 1][..i] == Placements(sorted, bytesPerRow)[..i];
      expectedNextRow := m.outRowEnd;
    }
    if expectedNextRow != s.height {
      return Err(IncompleteCoverage), scratch;
    }
    assert Placements(sorted, bytesPerRow)[..|sorted|] == Placements(sorted, bytesPerRow);
    r := Ok(finalBuffer[..]);
  }
}
