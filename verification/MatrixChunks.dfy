/**
 * MatrixChunkEngine: row bands of the left operand, each sent with the whole right operand, and the
 * strictly validated reassembly of the row bands of the product.
 */
module MatrixChunks {
  import opened Prelude
  import opened Arithmetic
  import opened NodeBuffer
  import opened Sorting
  import opened RowBands

  datatype MatrixMeta = MatrixMeta(
    parentWorkloadId: string,
    chunkIndex: nat,
    totalChunks: nat,
    rowStart: nat,
    rowEnd: nat,
    rowCount: nat,
    m: nat,
    k: nat,
    n: nat,
    inputBytes: nat,
    outputBytes: nat)

  datatype MatrixSpec = MatrixSpec(metadata: MatrixMeta, payload: Buffer)

  datatype MatrixResult = MatrixResult(
    parentWorkloadId: string,
    chunkIndex: nat,
    totalChunks: nat,
    rowStart: nat,
    rowEnd: nat,
    rowCount: nat,
    m: nat,
    k: nat,
    n: nat,
    outputBuffer: Buffer)

  datatype MatrixError =
    | InvalidDimensions
    | InvalidTotalChunks
    | WrongALength
    | WrongBLength
    | NoResults
    | IncompleteSet
    | MismatchedParent
    | DimensionMismatch
    | DuplicateIndex
    | MissingIndex
    | OverlappingRows
    | GapInRows
    | InconsistentRowCount
    | WrongOutputLength
    | IncompleteCoverage

  // ---------------------------------------------------------------- partitioning

  lemma RowBytesInside(m: nat, k: nat, from: nat, to: nat)
    requires from <= to <= m
    ensures 0 <= from * k * 4 <= to * k * 4 <= m * k * 4
    ensures to * k * 4 - from * k * 4 == (to - from) * k * 4
  {
    MulMono(from, to, k);
    MulMono(to, m, k);
    MulDistrib(to, from, k);
  }

  /** Rows from..to of a matrix with m rows of w floats. */
  function Rows(buf: Buffer, m: nat, w: nat, from: nat, to: nat): (rows: Buffer)
    requires |buf| == m * w * 4 && from <= to <= m
    ensures |rows| == (to - from) * w * 4
  {
    RowBytesInside(m, w, from, to);
    buf[from * w * 4..to * w * 4]
  }

  /** Chunk i of `chunks`: its rows of A followed by all of B. */
  function BandSpec(parent: string, a: Buffer, b: Buffer, m: nat, k: nat, n: nat, chunks: nat, i: nat): MatrixSpec
    requires |a| == m * k * 4 && chunks > 0 && i < chunks
  {
    BandStartMonotone(m, chunks, i, i + 1);
    var from, to := BandStart(m, chunks, i), BandStart(m, chunks, i + 1);
    var payload := Rows(a, m, k, from, to) + b;
    MatrixSpec(MatrixMeta(parent, i, chunks, from, to, to - from, m, k, n, |payload|, (to - from) * n * 4), payload)
  }

  /** Chunk i follows the one before it, and carries its own rows of A, all of B, and their sizes. */
  predicate CarriesRows(specs: seq<MatrixSpec>, i: nat, parent: string, m: int, k: int, n: int, a: Buffer, b: Buffer)
    requires i < |specs|
  {
    var c := specs[i].metadata;
    && c.parentWorkloadId == parent && c.chunkIndex == i && c.totalChunks == |specs|
    && c.m == m && c.k == k && c.n == n
    && c.rowStart == (if i == 0 then 0 else specs[i - 1].metadata.rowEnd)
    && (i == |specs| - 1 ==> c.rowEnd == m)
    && c.rowStart + c.rowCount == c.rowEnd
    && 0 <= c.rowStart * k * 4 <= c.rowEnd * k * 4 <= |a|
    && specs[i].payload == a[c.rowStart * k * 4..c.rowEnd * k * 4] + b
    && c.inputBytes == |specs[i].payload| && c.outputBytes == c.rowCount * n * 4
  }

  lemma SpecCarriesRows(specs: seq<MatrixSpec>, i: nat, parent: string, m: nat, k: nat, n: nat, a: Buffer, b: Buffer)
    requires |a| == m * k * 4 && i < |specs|
    requires forall j: nat | j < |specs| :: specs[j] == BandSpec(parent, a, b, m, k, n, |specs|, j)
    ensures CarriesRows(specs, i, parent, m, k, n, a, b)
  {
    BandsCover(m, |specs|);
    BandStartMonotone(m, |specs|, i, i + 1);
    BandStartMonotone(m, |specs|, i + 1, |specs|);
    RowBytesInside(m, k, BandStart(m, |specs|, i), BandStart(m, |specs|, i + 1));
    if i > 0 {
      assert specs[i - 1] == BandSpec(parent, a, b, m, k, n, |specs|, i - 1);
    }
  }

  method PartitionMatrixMultiply(parent: string, m: int, k: int, n: int, totalChunks: int, a: Buffer, b: Buffer)
    returns (r: Result<seq<MatrixSpec>, MatrixError>)
    ensures r == Err(InvalidDimensions) <==> (m <= 0 || k <= 0 || n <= 0)
    ensures r == Err(InvalidTotalChunks) <==> (m > 0 && k > 0 && n > 0 && totalChunks <= 0)
    ensures r == Err(WrongALength) <==>
            (m > 0 && k > 0 && n > 0 && totalChunks > 0 && |a| != m * k * 4)
    ensures r == Err(WrongBLength) <==>
            (m > 0 && k > 0 && n > 0 && totalChunks > 0 && |a| == m * k * 4 && |b| != k * n * 4)
    ensures r.Ok? <==>
            (m > 0 && k > 0 && n > 0 && totalChunks > 0 && |a| == m * k * 4 && |b| == k * n * 4)
    ensures r.Ok? ==>
              |r.value| == Min(totalChunks, m) &&
              forall i: nat | i < |r.value| :: r.value[i] == BandSpec(parent, a, b, m, k, n, Min(totalChunks, m), i)
    ensures r.Ok? ==> forall i: nat | i < |r.value| :: CarriesRows(r.value, i, parent, m, k, n, a, b)
  {
    if m <= 0 || k <= 0 || n <= 0 {
      return Err(InvalidDimensions);
    }
    if totalChunks <= 0 {
      return Err(InvalidTotalChunks);
    }
    var actualChunks := Min(totalChunks, m);
    if |a| != m * k * 4 {
      return Err(WrongALength);
    }
    if |b| != k * n * 4 {
      return Err(WrongBLength);
    }
    var specs := CutRowBands(parent, m, k, n, actualChunks, a, b);
    forall i: nat | i < actualChunks ensures CarriesRows(specs, i, parent, m, k, n, a, b) {
      SpecCarriesRows(specs, i, parent, m, k, n, a, b);
    }
    r := Ok(specs);
  }

  /** aBuffer.subarray(aOffset, aOffset + aChunkBytes) for the rows of one chunk. */
  method RowSlice(a: Buffer, m: nat, k: nat, rowStart: nat, chunkRowCount: nat) returns (aSlice: Buffer)
    requires |a| == m * k * 4 && rowStart + chunkRowCount <= m
    ensures aSlice == Rows(a, m, k, rowStart, rowStart + chunkRowCount)
  {
    var aOffset, aChunkBytes := rowStart * k * 4, chunkRowCount * k * 4;
    RowBytesInside(m, k, rowStart, rowStart + chunkRowCount);
    aSlice := SubArray(a, aOffset, aOffset + aChunkBytes);
  }

  /** The specification pushed for the rows of chunk i. */
  method CutOne(parent: string, m: nat, k: nat, n: nat, actualChunks: nat, a: Buffer, b: Buffer,
                i: nat, rowStart: nat, chunkRowCount: nat)
    returns (spec: MatrixSpec)
    requires |a| == m * k * 4 && i < actualChunks
    requires rowStart == BandStart(m, actualChunks, i) && chunkRowCount == BandRows(m, actualChunks, i)
    ensures spec == BandSpec(parent, a, b, m, k, n, actualChunks, i)
  {
    BandStartMonotone(m, actualChunks, i + 1, actualChunks);
    var aSlice := RowSlice(a, m, k, rowStart, chunkRowCount);
    var payload := aSlice + b;
    spec := MatrixSpec(MatrixMeta(parent, i, actualChunks, rowStart, rowStart + chunkRowCount, chunkRowCount, m, k, n,
                                  |payload|, chunkRowCount * n * 4), payload);
  }

  /** The loop of partitionMatrixMultiply, once its arguments have passed the checks. */
  method CutRowBands(parent: string, m: nat, k: nat, n: nat, actualChunks: nat, a: Buffer, b: Buffer)
    returns (specs: seq<MatrixSpec>)
    requires actualChunks > 0 && |a| == m * k * 4
    ensures |specs| == actualChunks
    ensures forall i: nat | i < actualChunks :: specs[i] == BandSpec(parent, a, b, m, k, n, actualChunks, i)
  {
    var baseRows, remainder := m / actualChunks, m % actualChunks;
    specs := [];
    var currentRow := 0;
    for i := 0 to actualChunks
      invariant currentRow == BandStart(m, actualChunks, i)
      invariant |specs| == i
      invariant forall j: nat | j < i :: specs[j] == BandSpec(parent, a, b, m, k, n, actualChunks, j)
    {
      var chunkRowCount := baseRows + if i < remainder then 1 else 0;
      var spec := CutOne(parent, m, k, n, actualChunks, a, b, i, currentRow, chunkRowCount);
      currentRow := currentRow + chunkRowCount;
      specs := specs + [spec];
    }
  }

  // ---------------------------------------------------------------- reassembly

  function ChunkKey(r: MatrixResult): int {
    r.chunkIndex
  }

  /** The loop's verdict on one sorted result, at position i, with `seen` the indices before it. */
  function ChunkError(parent: string, m: nat, k: nat, n: nat, chunk: MatrixResult, i: nat, seen: set<int>, next: nat)
    : Option<MatrixError>
  {
    if chunk.parentWorkloadId != parent then Some(MismatchedParent)
    else if chunk.m != m || chunk.k != k || chunk.n != n then Some(DimensionMismatch)
    else if chunk.chunkIndex in seen then Some(DuplicateIndex)
    else if chunk.chunkIndex != i then Some(MissingIndex)
    else if chunk.rowStart < next then Some(OverlappingRows)
    else if chunk.rowStart > next then Some(GapInRows)
    else if chunk.rowCount != chunk.rowEnd - chunk.rowStart then Some(InconsistentRowCount)
    else if |chunk.outputBuffer| != chunk.rowCount * n * 4 then Some(WrongOutputLength)
    else None
  }

  /** The checks on sorted results from position i on, given the row the next chunk must start at. */
  function CheckChunks(parent: string, m: nat, k: nat, n: nat, sorted: seq<MatrixResult>, i: nat, seen: set<int>,
                       next: nat)
    : Option<MatrixError>
    requires i <= |sorted|
    decreases |sorted| - i
  {
    if i == |sorted| then
      if next != m then Some(IncompleteCoverage) else None
    else match ChunkError(parent, m, k, n, sorted[i], i, seen, next)
      case Some(e) => Some(e)
      case None => CheckChunks(parent, m, k, n, sorted, i + 1, seen + {ChunkKey(sorted[i])}, sorted[i].rowEnd)
  }

  function Placements(results: seq<MatrixResult>, n: nat): (ps: seq<Placement>)
    ensures |ps| == |results|
    ensures forall i: nat | i < |ps| :: ps[i] == Placement(results[i].rowStart * n * 4, results[i].outputBuffer)
  {
    seq(|results|, i requires 0 <= i < |results| => Placement(results[i].rowStart * n * 4, results[i].outputBuffer))
  }

  /** Reassembly as a function of what the uninitialised output buffer happened to contain. */
  function AssembleMatrix(parent: string, m: nat, k: nat, n: nat, results: seq<MatrixResult>, scratch: Buffer)
    : Result<Buffer, MatrixError>
  {
    var sorted := SortBy(results, ChunkKey);
    if results == [] then Err(NoResults)
    else if |results| != results[0].totalChunks then Err(IncompleteSet)
    else match CheckChunks(parent, m, k, n, sorted, 0, {}, 0)
      case Some(e) => Err(e)
      case None => Ok(PlaceAll(scratch, Placements(sorted, n)))
  }

  method AssembleMatrixChunks(parent: string, m: nat, k: nat, n: nat, results: seq<MatrixResult>)
    returns (r: Result<Buffer, MatrixError>, ghost scratch: Buffer)
    ensures |scratch| == m * n * 4 && r == AssembleMatrix(parent, m, k, n, results, scratch)
    ensures results == [] ==> r == Err(NoResults)
    ensures results != [] && |results| != results[0].totalChunks ==> r == Err(IncompleteSet)
    ensures results != [] && |results| == results[0].totalChunks ==>
              match CheckChunks(parent, m, k, n, SortBy(results, ChunkKey), 0, {}, 0)
              case Some(e) => r == Err(e)
              case None => r.Ok? && |r.value| == m * n * 4
  {
    scratch := seq(m * n * 4, _ => 0);
    if |results| == 0 {
      return Err(NoResults), scratch;
    }
    if |results| != results[0].totalChunks {
      return Err(IncompleteSet), scratch;
    }
    var sorted := SortBy(results, ChunkKey);
    var seenIndices: set<int> := {};
    var expectedNextRow := 0;
    for i := 0 to |sorted|
      invariant CheckChunks(parent, m, k, n, sorted, 0, {}, 0)
                == CheckChunks(parent, m, k, n, sorted, i, seenIndices, expectedNextRow)
    {
      var chunk := sorted[i];
      if chunk.parentWorkloadId != parent {
        return Err(MismatchedParent), scratch;
      }
      if chunk.m != m || chunk.k != k || chunk.n != n {
        return Err(DimensionMismatch), scratch;
      }
      if chunk.chunkIndex in seenIndices {
        return Err(DuplicateIndex), scratch;
      }
      seenIndices := seenIndices + {ChunkKey(chunk)};
      if chunk.chunkIndex != i {
        return Err(MissingIndex), scratch;
      }
      if chunk.rowStart != expectedNextRow {
        if chunk.rowStart < expectedNextRow {
          return Err(OverlappingRows), scratch;
        } else {
          return Err(GapInRows), scratch;
        }
      }
      if chunk.rowCount != chunk.rowEnd - chunk.rowStart {
        return Err(InconsistentRowCount), scratch;
      }
      if |chunk.outputBuffer| != chunk.rowCount * n * 4 {
        return Err(WrongOutputLength), scratch;
      }
      expectedNextRow := chunk.rowEnd;
    }
    if expectedNextRow != m {
      return Err(IncompleteCoverage), scratch;
    }
    var finalBuffer := new Byte[m * n * 4];
    scratch := finalBuffer[..];
    ghost var ps := Placements(sorted, n);
    for i := 0 to |sorted|
      invariant finalBuffer[..] == PlaceAll(scratch, ps[..i])
    {
      Copy(finalBuffer, sorted[i].rowStart * n * 4, sorted[i].outputBuffer);
      assert ps[..i + 1][..i] == ps[..i];
    }
    assert ps[..|sorted|] == ps;
    r := Ok(finalBuffer[..]);
  }
}
