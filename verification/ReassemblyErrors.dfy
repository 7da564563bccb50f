/**
 * Why a set of results is refused: which error each of the three reassemblies raises, in terms of the
 * first result, in index order, at which the checklist breaks.
 */
module ReassemblyErrors {
  import opened Prelude
  import opened Sorting
  import opened BoxBlur
  import Image = ImageChunks
  import Matrix = MatrixChunks
  import Video = VideoChunks

  // ---------------------------------------------------------------- row bands of a product

  function RowReached(sorted: seq<Matrix.MatrixResult>, i: nat): nat
    requires i <= |sorted|
  {
    if i == 0 then 0 else sorted[i - 1].rowEnd
  }

  /** The results of one product, asked for under one id. */
  datatype Product = Product(parent: string, m: nat, k: nat, n: nat) {
    predicate Owns(r: Matrix.MatrixResult) {
      r.parentWorkloadId == parent
    }

    predicate Measures(r: Matrix.MatrixResult) {
      r.m == m && r.k == k && r.n == n
    }

    /** A result of the product, under an index not used before it. */
    predicate Counted(sorted: seq<Matrix.MatrixResult>, i: nat)
      requires i < |sorted|
    {
      Owns(sorted[i]) && Measures(sorted[i]) && forall j: nat | j < i :: sorted[j].chunkIndex != sorted[i].chunkIndex
    }

    /** And in its place, rows included. */
    predicate Placed(sorted: seq<Matrix.MatrixResult>, i: nat)
      requires i < |sorted|
    {
      Counted(sorted, i) && sorted[i].chunkIndex == i && sorted[i].rowStart == RowReached(sorted, i)
    }

    predicate Fine(sorted: seq<Matrix.MatrixResult>, i: nat)
      requires i < |sorted|
    {
      var r := sorted[i];
      Placed(sorted, i) && r.rowStart + r.rowCount == r.rowEnd && |r.outputBuffer| == 4 * (r.rowCount * n)
    }

    /** What is wrong with the result at position i. */
    predicate Wrong(sorted: seq<Matrix.MatrixResult>, i: nat, e: Matrix.MatrixError)
      requires i < |sorted|
    {
      var r := sorted[i];
      match e
      case MismatchedParent => !Owns(r)
      case DimensionMismatch => Owns(r) && !Measures(r)
      case DuplicateIndex => Owns(r) && Measures(r) && !Counted(sorted, i)
      case MissingIndex => Counted(sorted, i) && r.chunkIndex != i
      case OverlappingRows => Counted(sorted, i) && r.chunkIndex == i && r.rowStart < RowReached(sorted, i)
      case GapInRows => Counted(sorted, i) && r.chunkIndex == i && r.rowStart > RowReached(sorted, i)
      case InconsistentRowCount => Placed(sorted, i) && r.rowStart + r.rowCount != r.rowEnd
      case WrongOutputLength =>
        Placed(sorted, i) && r.rowStart + r.rowCount == r.rowEnd && |r.outputBuffer| != 4 * (r.rowCount * n)
      case _ => false
    }

    predicate FirstWrong(sorted: seq<Matrix.MatrixResult>, i: nat, e: Matrix.MatrixError) {
      i < |sorted| && Wrong(sorted, i, e) && forall j: nat | j < i :: Fine(sorted, j)
    }

    ghost predicate SomeWrong(sorted: seq<Matrix.MatrixResult>, e: Matrix.MatrixError) {
      exists i: nat :: FirstWrong(sorted, i, e)
    }

    predicate AllFine(sorted: seq<Matrix.MatrixResult>) {
      forall j: nat | j < |sorted| :: Fine(sorted, j)
    }

    lemma Verdict(sorted: seq<Matrix.MatrixResult>, i: nat, seen: set<int>)
      requires i < |sorted| && forall x :: x in seen <==> exists j: nat :: j < i && sorted[j].chunkIndex == x
      ensures Matrix.ChunkError(parent, m, k, n, sorted[i], i, seen, RowReached(sorted, i)) == None <==> Fine(sorted, i)
      ensures forall e :: Matrix.ChunkError(parent, m, k, n, sorted[i], i, seen, RowReached(sorted, i)) == Some(e) <==>
                          Wrong(sorted, i, e)
    {
      assert sorted[i].rowCount * n * 4 == 4 * (sorted[i].rowCount * n);
    }

    lemma NeverBoth(sorted: seq<Matrix.MatrixResult>, e: Matrix.MatrixError)
      ensures forall i: nat | i < |sorted| :: !(Fine(sorted, i) && Wrong(sorted, i, e))
    {
    }

    lemma {:induction false} ChecksFrom(sorted: seq<Matrix.MatrixResult>, i: nat, seen: set<int>, e: Matrix.MatrixError)
      requires i <= |sorted| && forall x :: x in seen <==> exists j: nat :: j < i && sorted[j].chunkIndex == x
      requires forall j: nat | j < i :: Fine(sorted, j)
      ensures var found := Matrix.CheckChunks(parent, m, k, n, sorted, i, seen, RowReached(sorted, i));
              found == Some(e) <==>
              || SomeWrong(sorted, e)
              || (e.IncompleteCoverage? && AllFine(sorted) && RowReached(sorted, |sorted|) != m)
      decreases |sorted| - i
    {
      NeverBoth(sorted, e);
      if i < |sorted| {
        Verdict(sorted, i, seen);
        if Fine(sorted, i) {
          ChecksFrom(sorted, i + 1, seen + {Matrix.ChunkKey(sorted[i])}, e);
        } else if Wrong(sorted, i, e) {
          assert FirstWrong(sorted, i, e);
        }
      }
    }
  }

  /**
   * assembleMatrixChunks refuses an empty set, then one whose first arrival announces another number, and
   * then raises what is wrong with the first result in index order, or, if nothing is, that rows are missing.
   */
  lemma MatrixRefusedIff(p: Product, results: seq<Matrix.MatrixResult>, scratch: Buffer, e: Matrix.MatrixError)
    ensures Matrix.AssembleMatrix(p.parent, p.m, p.k, p.n, results, scratch) == Err(e) <==>
            var sorted := SortBy(results, Matrix.ChunkKey);
            if results == [] then e == Matrix.NoResults
            else if results[0].totalChunks != |results| then e == Matrix.IncompleteSet
            else
              || p.SomeWrong(sorted, e)
              || (e.IncompleteCoverage? && p.AllFine(sorted) && RowReached(sorted, |sorted|) != p.m)
  {
    var sorted := SortBy(results, Matrix.ChunkKey);
    p.ChecksFrom(sorted, 0, {}, e);
    assert RowReached(sorted, 0) == 0;
    var found := Matrix.CheckChunks(p.parent, p.m, p.k, p.n, sorted, 0, {}, 0);
    if results != [] && results[0].totalChunks == |results| {
      assert Matrix.AssembleMatrix(p.parent, p.m, p.k, p.n, results, scratch) == Err(e) <==> found == Some(e);
    }
  }

  // ---------------------------------------------------------------- bands of an image

  function BandReached(sorted: seq<Image.ImageResult>, i: nat): nat
    requires i <= |sorted|
  {
    if i == 0 then 0 else sorted[i - 1].metadata.outRowEnd
  }

  predicate BandPlaced(parent: string, sorted: seq<Image.ImageResult>, i: nat)
    requires i < |sorted|
  {
    sorted[i].metadata.parentWorkloadId == parent && sorted[i].metadata.chunkIndex == i
  }

  predicate BandFine(parent: string, s: Shape, sorted: seq<Image.ImageResult>, i: nat)
    requires i < |sorted|
  {
    && BandPlaced(parent, sorted, i) && sorted[i].metadata.outRowStart == BandReached(sorted, i)
    && |sorted[i].outputBuffer| == sorted[i].metadata.inRowCount * (s.width * s.channels)
  }

  /** What is wrong with the band at position i. */
  predicate BandWrong(parent: string, s: Shape, sorted: seq<Image.ImageResult>, i: nat, e: Image.ImageError)
    requires i < |sorted|
  {
    var m := sorted[i].metadata;
    match e
    case MismatchedParent => m.parentWorkloadId != parent
    case MissingIndex => m.parentWorkloadId == parent && m.chunkIndex != i
    case RowGapOrOverlap => BandPlaced(parent, sorted, i) && m.outRowStart != BandReached(sorted, i)
    case WrongOutputLength =>
      && BandPlaced(parent, sorted, i) && m.outRowStart == BandReached(sorted, i)
      && |sorted[i].outputBuffer| != m.inRowCount * (s.width * s.channels)
    case _ => false
  }

  predicate FirstBandWrong(parent: string, s: Shape, sorted: seq<Image.ImageResult>, i: nat, e: Image.ImageError) {
    i < |sorted| && BandWrong(parent, s, sorted, i, e) && forall j: nat | j < i :: BandFine(parent, s, sorted, j)
  }

  ghost predicate SomeBandWrong(parent: string, s: Shape, sorted: seq<Image.ImageResult>, e: Image.ImageError) {
    exists i: nat :: FirstBandWrong(parent, s, sorted, i, e)
  }

  predicate AllBandsFine(parent: string, s: Shape, sorted: seq<Image.ImageResult>) {
    forall j: nat | j < |sorted| :: BandFine(parent, s, sorted, j)
  }

  lemma BandNeverBoth(parent: string, s: Shape, sorted: seq<Image.ImageResult>, e: Image.ImageError)
    ensures forall i: nat | i < |sorted| :: !(BandFine(parent, s, sorted, i) && BandWrong(parent, s, sorted, i, e))
  {
  }

  lemma {:induction false} BandChecksFrom(parent: string, s: Shape, sorted: seq<Image.ImageResult>, i: nat,
                                          e: Image.ImageError)
    requires i <= |sorted| && forall j: nat | j < i :: BandFine(parent, s, sorted, j)
    ensures Image.CheckChunks(parent, s, sorted, i, BandReached(sorted, i)) == Some(e) <==>
            || SomeBandWrong(parent, s, sorted, e)
            || (e.IncompleteCoverage? && AllBandsFine(parent, s, sorted)
                && BandReached(sorted, |sorted|) != s.height)
    decreases |sorted| - i
  {
    BandNeverBoth(parent, s, sorted, e);
    if i < |sorted| {
      assert s.RowBytes() == s.width * s.channels;
      if BandFine(parent, s, sorted, i) {
        BandChecksFrom(parent, s, sorted, i + 1, e);
      } else if BandWrong(parent, s, sorted, i, e) {
        assert FirstBandWrong(parent, s, sorted, i, e);
      }
    }
  }

  /** assembleImageChunks raises what is wrong with the first band in index order, or else that rows are missing. */
  lemma ImageRefusedIff(parent: string, s: Shape, results: seq<Image.ImageResult>, scratch: Buffer,
                        e: Image.ImageError)
    ensures Image.AssembleImage(parent, s, results, scratch) == Err(e) <==>
            var sorted := SortBy(results, Image.ChunkKey);
            if results == [] then e == Image.NoResults
            else
              || SomeBandWrong(parent, s, sorted, e)
              || (e.IncompleteCoverage? && AllBandsFine(parent, s, sorted)
                  && BandReached(sorted, |sorted|) != s.height)
  {
    var sorted := SortBy(results, Image.ChunkKey);
    BandChecksFrom(parent, s, sorted, 0, e);
    assert BandReached(sorted, 0) == 0;
    var found := Image.CheckChunks(parent, s, sorted, 0, 0);
    if results != [] {
      assert Image.AssembleImage(parent, s, results, scratch) == Err(e) <==> found == Some(e);
    }
  }

  // ---------------------------------------------------------------- runs of frames

  predicate RunFine(parent: string, sorted: seq<Video.VideoResult>, i: nat)
    requires i < |sorted|
  {
    sorted[i].parentWorkloadId == parent && sorted[i].chunkIndex == i
  }

  /** The first result out of place, and whether it is another workload's. */
  predicate FirstRunWrong(parent: string, sorted: seq<Video.VideoResult>, i: nat, e: Video.VideoError) {
    && i < |sorted|
    && (if e.MismatchedParent? then sorted[i].parentWorkloadId != parent
        else e.MissingIndex? && sorted[i].parentWorkloadId == parent && sorted[i].chunkIndex != i)
    && forall j: nat | j < i :: RunFine(parent, sorted, j)
  }

  ghost predicate SomeRunWrong(parent: string, sorted: seq<Video.VideoResult>, e: Video.VideoError) {
    exists i: nat :: FirstRunWrong(parent, sorted, i, e)
  }

  lemma {:induction false} RunChecksFrom(parent: string, sorted: seq<Video.VideoResult>, i: nat, e: Video.VideoError)
    requires i <= |sorted| && forall j: nat | j < i :: RunFine(parent, sorted, j)
    ensures Video.CheckResults(parent, sorted, i) == Some(e) <==> SomeRunWrong(parent, sorted, e)
    decreases |sorted| - i
  {
    assert forall j: nat | FirstRunWrong(parent, sorted, j, e) :: !RunFine(parent, sorted, j);
    if i < |sorted| {
      if RunFine(parent, sorted, i) {
        RunChecksFrom(parent, sorted, i + 1, e);
      } else if Video.CheckResults(parent, sorted, i) == Some(e) {
        assert FirstRunWrong(parent, sorted, i, e);
      }
    }
  }

  /** assembleVideoAnalysis raises what is wrong with the first result in index order, and nothing else. */
  lemma VideoRefusedIff(parent: string, results: seq<Video.VideoResult>, e: Video.VideoError)
    ensures Video.AssembleVideo(parent, results) == Err(e) <==>
            var sorted := SortBy(results, Video.ChunkKey);
            if results == [] then e == Video.NoResults else SomeRunWrong(parent, sorted, e)
  {
    var sorted := SortBy(results, Video.ChunkKey);
    RunChecksFrom(parent, sorted, 0, e);
    if results != [] {
      assert Video.AssembleVideo(parent, results) == Err(e) <==> Video.CheckResults(parent, sorted, 0) == Some(e);
    }
  }

  // ---------------------------------------------------------------- what a successful analysis contains

  /** The metrics a result brings: those of its text if it is JSON, those of its array, and none in bytes. */
  predicate Brings(r: Video.VideoResult, ms: seq<Video.Metrics>) {
    match r.outputData
    case Text(json) => if json == None then ms == [] else ms == json.value
    case List(metrics) => ms == metrics
    case Bytes(_) => ms == []
  }

  /** Result i brings what lies between cuts i and i + 1. */
  predicate CutAt(ms: seq<Video.Metrics>, cuts: seq<nat>, r: Video.VideoResult, i: nat) {
    i + 1 < |cuts| && cuts[i] <= cuts[i + 1] <= |ms| && Brings(r, ms[cuts[i]..cuts[i + 1]])
  }

  predicate CutsAll(ms: seq<Video.Metrics>, cuts: seq<nat>, rs: seq<Video.VideoResult>) {
    && |cuts| == |rs| + 1 && cuts[0] == 0 && cuts[|rs|] == |ms|
    && forall i: nat | i < |rs| :: CutAt(ms, cuts, rs[i], i)
  }

  lemma CutKept(ms: seq<Video.Metrics>, more: seq<Video.Metrics>, cuts: seq<nat>, at: nat, r: Video.VideoResult, i: nat)
    requires CutAt(ms, cuts, r, i)
    ensures CutAt(ms + more, cuts + [at], r, i)
  {
    assert (ms + more)[cuts[i]..cuts[i + 1]] == ms[cuts[i]..cuts[i + 1]];
  }

  lemma {:induction false} Cuts(rs: seq<Video.VideoResult>) returns (cuts: seq<nat>)
    ensures CutsAll(Video.Concatenated(rs), cuts, rs)
  {
    if rs == [] {
      cuts := [0];
    } else {
      var n := |rs| - 1;
      var before, more := Video.Concatenated(rs[..n]), Video.Readable(rs[n]);
      var cuts' := Cuts(rs[..n]);
      cuts := cuts' + [|before + more|];
      assert (before + more)[|before|..|before + more|] == more;
      forall i: nat | i < |rs| ensures CutAt(before + more, cuts, rs[i], i) {
        if i < n {
          assert rs[..n][i] == rs[i];
          CutKept(before, more, cuts', |before + more|, rs[i], i);
        }
      }
    }
  }

  /** A successful analysis is, in index order, what each result brings, and nothing more. */
  lemma VideoJoined(parent: string, results: seq<Video.VideoResult>) returns (cuts: seq<nat>)
    requires Video.AssembleVideo(parent, results).Ok?
    ensures |cuts| == |results| + 1 && cuts[0] == 0
    ensures cuts[|results|] == |Video.AssembleVideo(parent, results).value|
    ensures forall r | r in results :: CutAt(Video.AssembleVideo(parent, results).value, cuts, r, r.chunkIndex)
  {
    var sorted := SortBy(results, Video.ChunkKey);
    cuts := Cuts(sorted);
    SortByPermutes(results, Video.ChunkKey);
    Video.ChecksPassIff(parent, sorted, 0);
    forall r | r in results ensures CutAt(Video.AssembleVideo(parent, results).value, cuts, r, r.chunkIndex) {
      assert r in sorted;
      var i: nat :| i < |sorted| && sorted[i] == r;
    }
  }
}
