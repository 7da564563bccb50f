/**
 * What the image path guarantees: which result sets reassemble, when the uninitialised output buffer
 * is fully overwritten, and that banding with halos is exact.
 */
module ImageTheorems {
  import opened Prelude
  import opened Arithmetic
  import opened NodeBuffer
  import opened Sorting
  import opened RowBands
  import opened BoxBlur
  import opened Requests
  import opened ImageChunks

  // ---------------------------------------------------------------- which sets reassemble

  ghost predicate ResultFits(parent: string, s: Shape, r: ImageResult) {
    r.metadata.parentWorkloadId == parent && |r.outputBuffer| == r.metadata.inRowCount * s.RowBytes()
  }

  /** Bands follow each other by index, from row 0 to the last row; no order of arrival is involved. */
  ghost predicate BandsChain(s: Shape, results: seq<ImageResult>) {
    && (forall a | a in results && a.metadata.chunkIndex == 0 :: a.metadata.outRowStart == 0)
    && (forall a, b | a in results && b in results && b.metadata.chunkIndex == a.metadata.chunkIndex + 1 ::
          b.metadata.outRowStart == a.metadata.outRowEnd)
    && (forall a | a in results && a.metadata.chunkIndex == |results| - 1 :: a.metadata.outRowEnd == s.height)
  }

  /** The caller's checklist: nothing in it depends on the order of arrival. */
  ghost predicate Reassemblable(parent: string, s: Shape, results: seq<ImageResult>) {
    && results != []
    && DistinctKeys(results, ChunkKey)
    && (forall r | r in results :: ChunkKey(r) < |results| && ResultFits(parent, s, r))
    && BandsChain(s, results)
  }

  /** The row position i of a sorted list must start at. */
  function RowBefore(sorted: seq<ImageResult>, i: nat): nat
    requires i <= |sorted|
  {
    if i == 0 then 0 else sorted[i - 1].metadata.outRowEnd
  }

  lemma {:induction false} CheckChunksIff(parent: string, s: Shape, sorted: seq<ImageResult>, i: nat)
    requires i <= |sorted|
    ensures CheckChunks(parent, s, sorted, i, RowBefore(sorted, i)) == None <==>
            && (forall k: nat | i <= k < |sorted| :: ChunkKey(sorted[k]) == k && ResultFits(parent, s, sorted[k]))
            && (forall k: nat | i <= k < |sorted| :: sorted[k].metadata.outRowStart == RowBefore(sorted, k))
            && RowBefore(sorted, |sorted|) == s.height
    decreases |sorted| - i
  {
    if i < |sorted| {
      CheckChunksIff(parent, s, sorted, i + 1);
    }
  }

  lemma AllFit(parent: string, s: Shape, results: seq<ImageResult>, sorted: seq<ImageResult>)
    requires forall x :: x in sorted <==> x in results
    ensures (forall k: nat | k < |sorted| :: ResultFits(parent, s, sorted[k])) <==>
            (forall r | r in results :: ResultFits(parent, s, r))
  {
    assert forall k: nat | k < |sorted| :: sorted[k] in results;
    assert forall r | r in results :: r in sorted;
  }

  /** The loop's checks on the sorted results are the checklist on the results as they came. */
  lemma ChecksAreChecklist(parent: string, s: Shape, results: seq<ImageResult>, sorted: seq<ImageResult>)
    requires results != [] && |sorted| == |results| && forall x :: x in sorted <==> x in results
    requires Indexed(sorted, ChunkKey)
    ensures CheckChunks(parent, s, sorted, 0, 0) == None <==>
            (forall r | r in results :: ResultFits(parent, s, r)) && BandsChain(s, results)
  {
    CheckChunksIff(parent, s, sorted, 0);
    ChainIsConsecutive(s, results, sorted);
    AllFit(parent, s, results, sorted);
  }

  /** Reassembly succeeds exactly on the checklist. */
  lemma AssembleImageSucceedsIff(parent: string, s: Shape, results: seq<ImageResult>, scratch: Buffer)
    ensures AssembleImage(parent, s, results, scratch).Ok? <==> Reassemblable(parent, s, results)
  {
    if results != [] {
      var sorted := SortBy(results, ChunkKey);
      SortByPermutes(results, ChunkKey);
      SortIndexedIff(results, ChunkKey);
      if Indexed(sorted, ChunkKey) {
        ChecksAreChecklist(parent, s, results, sorted);
      } else {
        CheckChunksIff(parent, s, sorted, 0);
      }
    }
  }

  lemma ChainIsConsecutive(s: Shape, results: seq<ImageResult>, sorted: seq<ImageResult>)
    requires results != [] && |sorted| == |results| && forall x :: x in sorted <==> x in results
    requires Indexed(sorted, ChunkKey)
    ensures BandsChain(s, results) <==>
            && (forall k: nat | k < |sorted| :: sorted[k].metadata.outRowStart == RowBefore(sorted, k))
            && RowBefore(sorted, |sorted|) == s.height
  {
    assert forall a | a in results :: ChunkKey(a) < |sorted| && sorted[ChunkKey(a)] == a;
    if BandsChain(s, results) {
      forall k: nat | k < |sorted| ensures sorted[k].metadata.outRowStart == RowBefore(sorted, k) {
        assert sorted[k] in results && ChunkKey(sorted[k]) == k;
        if k > 0 {
          assert sorted[k - 1] in results && ChunkKey(sorted[k - 1]) == k - 1;
        }
      }
      var last := sorted[|sorted| - 1];
      assert last in results && ChunkKey(last) == |results| - 1;
    }
  }

  // ---------------------------------------------------------------- the uninitialised buffer

  /** Byte k of the output lies in the region some result is copied to. */
  ghost predicate ByteWritten(results: seq<ImageResult>, s: Shape, k: nat) {
    exists r :: r in results && Covers(BandPlacement(r, s.RowBytes()), s.Size(), k)
  }

  /**
   * A successful reassembly is determined by the results alone, whatever the uninitialised output
   * buffer contained, exactly when the copied regions cover every byte. Nothing in
   * assembleImageChunks checks this: outRowCount and topHalo are trusted.
   */
  lemma AssembledImageDeterminedIff(parent: string, s: Shape, results: seq<ImageResult>)
    requires Reassemblable(parent, s, results)
    ensures (forall a: Buffer, b: Buffer | |a| == |b| == s.Size() ::
               AssembleImage(parent, s, results, a) == AssembleImage(parent, s, results, b)) <==>
            (forall k: nat | k < s.Size() :: ByteWritten(results, s, k))
  {
    var sorted := SortBy(results, ChunkKey);
    var ps := Placements(sorted, s.RowBytes());
    AssembleImageSucceedsIff(parent, s, results, []);
    PlaceAllDeterminedIff(s.Size(), ps);
    forall k: nat | k < s.Size() ensures Covered(ps, s.Size(), k) <==> ByteWritten(results, s, k) {
      CoveredIsWritten(s, results, k);
    }
    assert forall a: Buffer :: AssembleImage(parent, s, results, a) == Ok(PlaceAll(a, ps));
  }

  lemma CoveredIsWritten(s: Shape, results: seq<ImageResult>, k: nat)
    ensures Covered(Placements(SortBy(results, ChunkKey), s.RowBytes()), s.Size(), k) <==> ByteWritten(results, s, k)
  {
    var sorted := SortBy(results, ChunkKey);
    var ps := Placements(sorted, s.RowBytes());
    SortByPermutes(results, ChunkKey);
    if r :| r in results && Covers(BandPlacement(r, s.RowBytes()), s.Size(), k) {
      var i: nat :| i < |sorted| && sorted[i] == r;
      assert Covers(ps[i], s.Size(), k);
    }
    if Covered(ps, s.Size(), k) {
      var i: nat :| i < |ps| && Covers(ps[i], s.Size(), k);
      assert sorted[i] in results;
    }
  }

  /** A result that claims rows 0..1 but carries outRowCount 0 passes every check and writes nothing. */
  lemma ShortBandLeavesScratch(byte: Byte)
    ensures var m := ImageMeta("w", 0, 1, 0, 1, 0, 0, 1, 1, 0, 0, 1, 1, 1, 0, "L");
            AssembleImage("w", Shape(1, 1, 1), [ImageResult(m, [7])], [byte]) == Ok([byte])
  {
    var s := Shape(1, 1, 1);
    var m := ImageMeta("w", 0, 1, 0, 1, 0, 0, 1, 1, 0, 0, 1, 1, 1, 0, "L");
    var r := ImageResult(m, [7]);
    assert SortBy([r], ChunkKey) == [r];
    assert CheckChunks("w", s, [r], 1, 1) == None;
    assert ValidRows(r, 1) == [];
    var ps := Placements([r], 1);
    assert ps[..0] == [];
    assert PlaceAll([byte], ps) == [byte];
  }

  // ---------------------------------------------------------------- halos make banding exact

  /** A sub-line that extends r beyond a position, or up to the line's own edge, has the same mean there. */
  lemma {:induction false} WindowOfSubline(line: Buffer, a: nat, b: nat, lo: int, hi: int)
    requires a < b <= |line| && lo <= hi
    requires a == 0 || a <= lo
    requires b == |line| || hi <= b
    ensures WindowSum(line[a..b], lo - a, hi - a) == WindowSum(line, lo, hi)
    decreases hi - lo
  {
    if lo < hi {
      WindowOfSubline(line, a, b, lo, hi - 1);
      var sub := line[a..b];
      assert sub[Clamp(hi - 1 - a, |sub|)] == line[Clamp(hi - 1, |line|)];
    }
  }

  /** A line of some rows of an image is that line of the image. */
  lemma RowOfRows(img: Buffer, s: Shape, from: nat, to: nat, y: nat, x: nat, c: nat)
    requires s.Valid() && |img| == s.Size() && from <= y < to <= s.height && s.Has(y, x, c)
    ensures var band := s.(height := to - from);
            && band.Has(y - from, x, c)
            && Row(Rows(img, s, from, to), band, y - from, c) == Row(img, s, y, c)
  {
    var band := s.(height := to - from);
    var sub := Rows(img, s, from, to);
    BandBytes(s, from, to);
    RowFits(s, y, c, |img|);
    RowFits(band, y - from, c, |sub|);
    forall x': nat | x' < s.width ensures Row(sub, band, y - from, c)[x'] == Row(img, s, y, c)[x'] {
      IndexBounds(band, y - from, x', c);
      IndexBounds(s, y, x', c);
      MulDistrib(y, from, s.RowBytes());
      assert band.Index(y - from, x', c) + from * s.RowBytes() == s.Index(y, x', c);
      assert Pos(band.Index(y - from, 0, c), band.channels, x') == band.Index(y - from, x', c);
      assert Pos(s.Index(y, 0, c), s.channels, x') == s.Index(y, x', c);
    }
  }

  lemma ColumnOfRows(img: Buffer, s: Shape, r: nat, from: nat, to: nat, x: nat, c: nat)
    requires s.Valid() && |img| == s.Size() && from < to <= s.height && s.Has(0, x, c)
    ensures var band := s.(height := to - from);
            Column(HorizontalBlur(Rows(img, s, from, to), band, r), band, x, c)
            == Column(HorizontalBlur(img, s, r), s, x, c)[from..to]
  {
    var band := s.(height := to - from);
    var sub := Rows(img, s, from, to);
    forall j: nat | j < to - from
      ensures Column(HorizontalBlur(sub, band, r), band, x, c)[j]
              == Column(HorizontalBlur(img, s, r), s, x, c)[from + j]
    {
      BlurColumnAt(sub, band, r, j, x, c);
      BlurColumnAt(img, s, r, from + j, x, c);
      RowOfRows(img, s, from, to, from + j, x, c);
    }
  }

  /** Inside the stripped region a halo-extended band blurs exactly as the whole image does. */
  lemma BandBlurAgrees(img: Buffer, s: Shape, r: nat, from: nat, to: nat, y: nat, x: nat, c: nat)
    requires s.Valid() && |img| == s.Size() && from <= y < to <= s.height && s.Has(y, x, c)
    requires from == 0 || from + r <= y
    requires to == s.height || y + r < to
    ensures var band := s.(height := to - from);
            && 0 <= band.Index(y - from, x, c) < band.Size()
            && 0 <= s.Index(y, x, c) < s.Size()
            && Blur(Rows(img, s, from, to), band, r)[band.Index(y - from, x, c)] == Blur(img, s, r)[s.Index(y, x, c)]
  {
    var band := s.(height := to - from);
    BlurAt(Rows(img, s, from, to), band, r, y - from, x, c);
    BlurAt(img, s, r, y, x, c);
    ColumnOfRows(img, s, r, from, to, x, c);
    MeanOfSubline(Column(HorizontalBlur(img, s, r), s, x, c), from, to, y, r);
  }

  lemma MeanOfSubline(line: Buffer, a: nat, b: nat, y: nat, r: nat)
    requires a <= y < b <= |line|
    requires a == 0 || a + r <= y
    requires b == |line| || y + r < b
    ensures Mean(line[a..b], y - a, r) == Mean(line, y, r)
  {
    WindowOfSubline(line, a, b, y - r, y + r + 1);
  }

  /** What an honest worker returns for a specification. */
  ghost function BlurredBand(spec: ImageSpec): ImageResult
    requires var m := spec.metadata;
             m.width > 0 && m.inRowCount > 0 && m.channels > 0 &&
             |spec.payload| == Shape(m.width, m.inRowCount, m.channels).Size()
  {
    var m := spec.metadata;
    ImageResult(m, Blur(spec.payload, Shape(m.width, m.inRowCount, m.channels), m.radius))
  }

  lemma BandSpecSane(parent: string, img: Buffer, s: Shape, mode: string, r: nat, n: nat, i: nat)
    requires s.Valid() && |img| == s.Size() && 0 < n <= s.height && i < n
    ensures var spec := BandSpec(parent, img, s, mode, r, n, i);
            var m := spec.metadata;
            && m.width > 0 && m.inRowCount > 0 && m.channels > 0
            && |spec.payload| == Shape(m.width, m.inRowCount, m.channels).Size()
            && m.outRowStart < m.outRowEnd <= s.height
  {
    BandsBalanced(s.height, n, i, i);
    BandStartMonotone(s.height, n, i + 1, n);
  }

  ghost function BandResult(parent: string, img: Buffer, s: Shape, mode: string, r: nat, n: nat, i: nat): ImageResult
    requires s.Valid() && |img| == s.Size() && 0 < n <= s.height && i < n
  {
    BandSpecSane(parent, img, s, mode, r, n, i);
    BlurredBand(BandSpec(parent, img, s, mode, r, n, i))
  }

  /** The stripped rows of a blurred band are the corresponding rows of the blurred image. */
  lemma StrippedBand(parent: string, img: Buffer, s: Shape, mode: string, r: nat, n: nat, i: nat)
    requires s.Valid() && |img| == s.Size() && 0 < n <= s.height && i < n
    ensures var m := BandMeta(parent, s, mode, r, n, i);
            && m.outRowStart <= m.outRowEnd <= s.height
            && ValidRows(BandResult(parent, img, s, mode, r, n, i), s.RowBytes())
               == Rows(Blur(img, s, r), s, m.outRowStart, m.outRowEnd)
  {
    BandSpecSane(parent, img, s, mode, r, n, i);
    var m := BandMeta(parent, s, mode, r, n, i);
    var band := s.(height := m.inRowCount);
    var out := Blur(Rows(img, s, m.inRowStart, m.inRowEnd), band, r);
    BandBytes(band, m.topHalo, m.topHalo + m.outRowCount);
    MulDistrib(m.topHalo, m.outRowCount, s.RowBytes());
    assert ValidRows(BandResult(parent, img, s, mode, r, n, i), s.RowBytes())
           == Rows(out, band, m.topHalo, m.topHalo + m.outRowCount);
    StrippedRows(img, s, r, m.inRowStart, m.inRowEnd, m.outRowStart, m.outRowEnd);
  }

  lemma StrippedRows(img: Buffer, s: Shape, r: nat, from: nat, to: nat, start: nat, end: nat)
    requires s.Valid() && |img| == s.Size() && from <= start < end <= to <= s.height
    requires from == 0 || from + r <= start
    requires to == s.height || end + r <= to
    ensures var band := s.(height := to - from);
            Rows(Blur(Rows(img, s, from, to), band, r), band, start - from, end - from)
            == Rows(Blur(img, s, r), s, start, end)
  {
    var band := s.(height := to - from);
    var got := Rows(Blur(Rows(img, s, from, to), band, r), band, start - from, end - from);
    var want := Rows(Blur(img, s, r), s, start, end);
    forall j: nat | j < |want| ensures got[j] == want[j] {
      StrippedByte(img, s, r, from, to, start, end, j);
    }
  }

  lemma StrippedByte(img: Buffer, s: Shape, r: nat, from: nat, to: nat, start: nat, end: nat, j: nat)
    requires s.Valid() && |img| == s.Size() && from <= start < end <= to <= s.height
    requires from == 0 || from + r <= start
    requires to == s.height || end + r <= to
    requires j < (end - start) * s.RowBytes()
    ensures var band := s.(height := to - from);
            Rows(Blur(Rows(img, s, from, to), band, r), band, start - from, end - from)[j]
            == Rows(Blur(img, s, r), s, start, end)[j]
  {
    var band := s.(height := to - from);
    BandBytes(s, start, end);
    BandBytes(band, start - from, end - from);
    StrippedByteAt(img, s, r, from, to, start, end, start * s.RowBytes() + j, (start - from) * s.RowBytes() + j);
  }

  /** Byte `at` of the blurred image is byte `bandAt` of the blurred band. */
  lemma StrippedByteAt(img: Buffer, s: Shape, r: nat, from: nat, to: nat, start: nat, end: nat, at: nat, bandAt: nat)
    requires s.Valid() && |img| == s.Size() && from <= start < end <= to <= s.height
    requires from == 0 || from + r <= start
    requires to == s.height || end + r <= to
    requires start * s.RowBytes() <= at < end * s.RowBytes() <= s.Size()
    requires bandAt - (start - from) * s.RowBytes() == at - start * s.RowBytes()
    requires bandAt < s.(height := to - from).Size()
    ensures Blur(Rows(img, s, from, to), s.(height := to - from), r)[bandAt] == Blur(img, s, r)[at]
  {
    var p := CoordOf(s, at);
    RowOfByte(s, start, end, p);
    BandBlurAgrees(img, s, r, from, to, p.y, p.x, p.c);
    ShiftRows(p.y, start, from, s.RowBytes(), p.x * s.channels + p.c, at - start * s.RowBytes());
  }

  lemma ShiftRows(y: int, start: int, from: int, rowBytes: int, rest: int, j: int)
    requires y * rowBytes + rest == start * rowBytes + j
    ensures (y - from) * rowBytes + rest == (start - from) * rowBytes + j
  {
    MulDistrib(y, from, rowBytes);
    MulDistrib(start, from, rowBytes);
  }

  lemma RowOfByte(s: Shape, from: nat, to: nat, p: Coord)
    requires s.Valid() && s.Has(p.y, p.x, p.c)
    requires from * s.RowBytes() <= s.Index(p.y, p.x, p.c) < to * s.RowBytes()
    ensures from <= p.y < to
  {
    IndexBounds(s, p.y, p.x, p.c);
    if p.y < from {
      MulStrict(p.y, from, s.RowBytes());
    } else if to <= p.y {
      MulMono(to, p.y, s.RowBytes());
    }
  }

  /** The first byte of band i. */
  function BandByte(s: Shape, n: nat, i: nat): nat
    requires n > 0
  {
    BandStart(s.height, n, i) * s.RowBytes()
  }

  /** Honest bands, in index order, are consecutive pieces of the blurred image. */
  lemma BandsArePieces(parent: string, img: Buffer, s: Shape, mode: string, r: nat, n: nat, arranged: seq<ImageResult>,
                       k: nat)
    requires s.Valid() && |img| == s.Size() && 0 < n <= s.height && k < n == |arranged|
    requires arranged[k] == BandResult(parent, img, s, mode, r, n, k)
    ensures PieceOf(Placements(arranged, s.RowBytes())[k], Blur(img, s, r),
                    BandByte(s, n, k), BandByte(s, n, k + 1))
  {
    StrippedBand(parent, img, s, mode, r, n, k);
    BandBytes(s, BandStart(s.height, n, k), BandStart(s.height, n, k + 1));
  }

  lemma BandsReassemblable(parent: string, img: Buffer, s: Shape, mode: string, r: nat, n: nat,
                           arranged: seq<ImageResult>)
    requires s.Valid() && |img| == s.Size() && 0 < n <= s.height && n == |arranged|
    requires forall k: nat | k < n :: arranged[k] == BandResult(parent, img, s, mode, r, n, k)
    ensures Indexed(arranged, ChunkKey)
    ensures CheckChunks(parent, s, arranged, 0, 0) == None
  {
    CheckChunksIff(parent, s, arranged, 0);
    forall k: nat | k < n
      ensures ResultFits(parent, s, arranged[k])
      ensures arranged[k].metadata.outRowStart == RowBefore(arranged, k)
    {
      BandSpecSane(parent, img, s, mode, r, n, k);
    }
    BandsCover(s.height, n);
  }

  /** The honest results, one per band, in index order. */
  ghost function AllBands(parent: string, img: Buffer, s: Shape, mode: string, r: nat, n: nat)
    : (results: seq<ImageResult>)
    requires s.Valid() && |img| == s.Size() && 0 < n <= s.height
    ensures |results| == n
    ensures forall k: nat | k < n :: results[k] == BandResult(parent, img, s, mode, r, n, k)
  {
    seq(n, i requires 0 <= i < n => BandResult(parent, img, s, mode, r, n, i))
  }

  /**
   * Banding is exact. For every image, radius and chunk count of at least 1, blurring each
   * halo-extended band on its own and reassembling the results, in any order of arrival and whatever
   * the output buffer held before, gives the blur of the whole image byte for byte.
   */
  lemma BandedBlurIsExact(parent: string, img: Buffer, s: Shape, mode: string, r: nat, totalChunks: nat,
                          arrived: seq<ImageResult>, scratch: Buffer)
    requires s.Valid() && |img| == |scratch| == s.Size() && totalChunks >= 1
    requires multiset(arrived) == multiset(AllBands(parent, img, s, mode, r, Min(totalChunks, s.height)))
    ensures AssembleImage(parent, s, arrived, scratch) == Ok(Blur(img, s, r))
  {
    var n := Min(totalChunks, s.height);
    var arranged := AllBands(parent, img, s, mode, r, n);
    BandsReassemblable(parent, img, s, mode, r, n, arranged);
    IndexedIsSorted(arranged, ChunkKey);
    SortRestores(arrived, arranged, ChunkKey);
    assert |multiset(arrived)| == |arrived| == n;
    BandsRebuild(parent, img, s, mode, r, n, arranged, scratch);
  }

  lemma BandsRebuild(parent: string, img: Buffer, s: Shape, mode: string, r: nat, n: nat,
                     arranged: seq<ImageResult>, scratch: Buffer)
    requires s.Valid() && |img| == |scratch| == s.Size() && 0 < n <= s.height && n == |arranged|
    requires forall k: nat | k < n :: arranged[k] == BandResult(parent, img, s, mode, r, n, k)
    ensures PlaceAll(scratch, Placements(arranged, s.RowBytes())) == Blur(img, s, r)
  {
    var ps := Placements(arranged, s.RowBytes());
    forall k: nat | k < n ensures PieceOf(ps[k], Blur(img, s, r), BandByte(s, n, k), BandByte(s, n, k + 1)) {
      BandsArePieces(parent, img, s, mode, r, n, arranged, k);
    }
    BandPiecesRebuild(s, n, ps, Blur(img, s, r), scratch);
  }

  lemma BandPiecesRebuild(s: Shape, n: nat, ps: seq<Placement>, target: Buffer, scratch: Buffer)
    requires |scratch| == |target| == s.Size() && n > 0 && |ps| == n
    requires forall k: nat {:trigger ps[k]} | k < n :: PieceOf(ps[k], target, BandByte(s, n, k), BandByte(s, n, k + 1))
    ensures PlaceAll(scratch, ps) == target
  {
    var cuts: seq<nat> := seq(n + 1, k requires 0 <= k <= n => BandByte(s, n, k));
    BandsCover(s.height, n);
    forall k: nat | k < n ensures IsPiece(ps, target, cuts, k) {
      assert PieceOf(ps[k], target, BandByte(s, n, k), BandByte(s, n, k + 1));
    }
    PiecesRebuild(scratch, target, ps, cuts, n);
  }

  /** The results that came back, or None if some dispatch failed: Promise.all over the chunks. */
  method DispatchBands(specs: seq<ImageSpec>, dispatched: nat -> bool, ghost parent: string, ghost img: Buffer,
                       ghost s: Shape, ghost mode: string, ghost radius: nat)
    returns (results: Option<seq<ImageResult>>)
    requires s.Valid() && |img| == s.Size() && 0 < |specs| <= s.height
    requires forall i: nat | i < |specs| :: specs[i] == BandSpec(parent, img, s, mode, radius, |specs|, i)
    ensures results.Some? <==> forall i: nat | i < |specs| :: dispatched(i)
    ensures results.Some? ==> results.value == AllBands(parent, img, s, mode, radius, |specs|)
  {
    var answers: seq<ImageResult> := [];
    for i := 0 to |specs|
      invariant |answers| == i && forall k: nat | k < i :: dispatched(k)
      invariant forall k: nat | k < i :: answers[k] == BandResult(parent, img, s, mode, radius, |specs|, k)
    {
      if !dispatched(i) {
        return None;
      }
      BandSpecSane(parent, img, s, mode, radius, |specs|, i);
      var m := specs[i].metadata;
      var input := new Byte[|specs[i].payload|](j requires 0 <= j < |specs[i].payload| => specs[i].payload[j]);
      assert input[..] == specs[i].payload;
      var output := ComputeBoxBlur(input, Shape(m.width, m.inRowCount, m.channels), m.radius);
      answers := answers + [ImageResult(m, output[..])];
    }
    assert answers == AllBands(parent, img, s, mode, radius, |specs|);
    results := Some(answers);
  }

  /**
   * From the request to the reply. The image comes back blurred exactly when every chunk's dispatch
   * succeeds; a radius of 0 counts as none given, and stands for 2.
   */
  method ExecuteChunkedImage(parent: string, width: int, height: int, mode: string, givenRadius: nat,
                             requestedChunks: int, effectiveWorkerCount: nat, img: Buffer, isForceSwarm: bool,
                             dispatched: nat -> bool)
    returns (r: Reply<Buffer, ImageError>)
    ensures r == Thrown(InvalidDimensions) <==> (width <= 0 || height <= 0)
    ensures width > 0 && height > 0 ==>
              var s := Shape(width, height, ChannelsOf(mode));
              var n := ChunkTarget(requestedChunks, effectiveWorkerCount, height);
              && n >= 1
              && (r == Thrown(WrongImageLength) <==> |img| != s.Size())
              && (|img| == s.Size() ==>
                    r == if forall i: nat | i < n :: dispatched(i)
                         then COMPLETED(Blur(img, s, if givenRadius == 0 then 2 else givenRadius))
                         else Failure(isForceSwarm))
  {
    var radius := if givenRadius == 0 then 2 else givenRadius;
    var numChunks := ChunkTarget(requestedChunks, effectiveWorkerCount, height);
    var partitioned := PartitionImageFilter(parent, width, height, ChannelsOf(mode), mode, radius, numChunks, img);
    if partitioned.Err? {
      return Thrown(partitioned.error);
    }
    var s := Shape(width, height, ChannelsOf(mode));
    r := AnswerChunks(parent, img, s, mode, radius, partitioned.value, isForceSwarm, dispatched);
  }

  /** The part of the execution whose errors are answered. */
  method AnswerChunks(parent: string, ghost img: Buffer, s: Shape, mode: string, radius: nat, specs: seq<ImageSpec>,
                      isForceSwarm: bool, dispatched: nat -> bool)
    returns (r: Reply<Buffer, ImageError>)
    requires s.Valid() && |img| == s.Size() && 0 < |specs| <= s.height
    requires forall i: nat | i < |specs| :: specs[i] == BandSpec(parent, img, s, mode, radius, |specs|, i)
    ensures r == if forall i: nat | i < |specs| :: dispatched(i)
                 then COMPLETED(Blur(img, s, radius)) else Failure(isForceSwarm)
  {
    var results := DispatchBands(specs, dispatched, parent, img, s, mode, radius);
    if results == None {
      return Failure(isForceSwarm);
    }
    var assembled, scratch := AssembleImageChunks(parent, s, results.value);
    BandedBlurIsExact(parent, img, s, mode, radius, |specs|, results.value, scratch);
    if |assembled.value| != s.Size() {
      return Failure(isForceSwarm);
    }
    r := COMPLETED(assembled.value);
  }
}
