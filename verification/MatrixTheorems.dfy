/**
 * What the matrix path guarantees: exactly which result sets reassemble, that every output byte is
 * then written once, and that row-partitioned multiplication is bit-exact.
 */
module MatrixTheorems {
  import opened Prelude
  import opened Arithmetic
  import opened NodeBuffer
  import opened Sorting
  import opened RowBands
  import opened Gemm
  import opened MatrixProduct
  import opened Requests
  import opened MatrixChunks

  // ---------------------------------------------------------------- which sets reassemble

  ghost predicate ResultFits(parent: string, m: nat, k: nat, n: nat, r: MatrixResult) {
    && r.parentWorkloadId == parent
    && r.m == m && r.k == k && r.n == n
    && r.rowCount == r.rowEnd - r.rowStart
    && |r.outputBuffer| == r.rowCount * n * 4
  }

  /** Row ranges follow each other by index, from row 0 to row m. */
  ghost predicate RowsChain(m: nat, results: seq<MatrixResult>) {
    && (forall a | a in results && a.chunkIndex == 0 :: a.rowStart == 0)
    && (forall a, b | a in results && b in results && b.chunkIndex == a.chunkIndex + 1 :: b.rowStart == a.rowEnd)
    && (forall a | a in results && a.chunkIndex == |results| - 1 :: a.rowEnd == m)
  }

  /** The caller's checklist, free of any order of arrival. */
  ghost predicate Complete(parent: string, m: nat, k: nat, n: nat, results: seq<MatrixResult>) {
    && results != []
    && DistinctKeys(results, ChunkKey)
    && (forall r | r in results :: ChunkKey(r) < |results| && ResultFits(parent, m, k, n, r))
    && RowsChain(m, results)
  }

  function RowBefore(sorted: seq<MatrixResult>, i: nat): nat
    requires i <= |sorted|
  {
    if i == 0 then 0 else sorted[i - 1].rowEnd
  }

  ghost predicate InSequence(parent: string, m: nat, k: nat, n: nat, sorted: seq<MatrixResult>, i: nat)
    requires i <= |sorted|
  {
    && (forall j: nat | i <= j < |sorted| :: ChunkKey(sorted[j]) == j && ResultFits(parent, m, k, n, sorted[j]))
    && (forall j: nat {:trigger RowBefore(sorted, j)} | i <= j < |sorted| :: sorted[j].rowStart == RowBefore(sorted, j))
    && RowBefore(sorted, |sorted|) == m
  }

  lemma {:induction false} CheckChunksIff(parent: string, m: nat, k: nat, n: nat, sorted: seq<MatrixResult>, i: nat,
                                          seen: set<int>)
    requires i <= |sorted| && forall x | x in seen :: x < i
    ensures CheckChunks(parent, m, k, n, sorted, i, seen, RowBefore(sorted, i)) == None
            <==> InSequence(parent, m, k, n, sorted, i)
    decreases |sorted| - i
  {
    if i < |sorted| {
      var error := ChunkError(parent, m, k, n, sorted[i], i, seen, RowBefore(sorted, i));
      assert error == None <==> ChunkKey(sorted[i]) == i && ResultFits(parent, m, k, n, sorted[i])
                                && sorted[i].rowStart == RowBefore(sorted, i);
      if error == None {
        CheckChunksIff(parent, m, k, n, sorted, i + 1, seen + {ChunkKey(sorted[i])});
        assert RowBefore(sorted, i + 1) == sorted[i].rowEnd;
      }
    }
  }

  lemma ChainIsConsecutive(m: nat, results: seq<MatrixResult>, sorted: seq<MatrixResult>)
    requires results != [] && |sorted| == |results| && forall x :: x in sorted <==> x in results
    requires Indexed(sorted, ChunkKey)
    ensures RowsChain(m, results) <==>
            && (forall j: nat {:trigger RowBefore(sorted, j)} | j < |sorted| ::
                  sorted[j].rowStart == RowBefore(sorted, j))
            && RowBefore(sorted, |sorted|) == m
  {
    assert forall a | a in results :: ChunkKey(a) < |sorted| && sorted[ChunkKey(a)] == a;
    if RowsChain(m, results) {
      forall j: nat | j < |sorted| ensures sorted[j].rowStart == RowBefore(sorted, j) {
        assert sorted[j] in results && ChunkKey(sorted[j]) == j;
        if j > 0 {
          assert sorted[j - 1] in results && ChunkKey(sorted[j - 1]) == j - 1;
        }
      }
      var last := sorted[|sorted| - 1];
      assert last in results && ChunkKey(last) == |results| - 1;
    } else if forall j: nat {:trigger RowBefore(sorted, j)} | j < |sorted| ::
                sorted[j].rowStart == RowBefore(sorted, j)
    {
      forall a, b | a in results && b in results && b.chunkIndex == a.chunkIndex + 1 ensures b.rowStart == a.rowEnd {
        assert sorted[ChunkKey(b)].rowStart == RowBefore(sorted, ChunkKey(b));
      }
      forall a | a in results && a.chunkIndex == 0 ensures a.rowStart == 0 {
        assert sorted[0].rowStart == RowBefore(sorted, 0);
      }
    }
  }

  lemma CompleteIsInSequence(parent: string, m: nat, k: nat, n: nat, results: seq<MatrixResult>)
    requires results != []
    ensures Complete(parent, m, k, n, results) <==> InSequence(parent, m, k, n, SortBy(results, ChunkKey), 0)
  {
    var sorted := SortBy(results, ChunkKey);
    SortByPermutes(results, ChunkKey);
    SortIndexedIff(results, ChunkKey);
    if Indexed(sorted, ChunkKey) {
      ChainIsConsecutive(m, results, sorted);
      assert forall j: nat | j < |sorted| :: sorted[j] in results;
      assert forall r | r in results :: r in sorted;
    }
  }

  /**
   * Reassembly succeeds exactly when the result that arrived first announces the number of results
   * and the results tile the rows.
   */
  lemma AssembleMatrixSucceedsIff(parent: string, m: nat, k: nat, n: nat, results: seq<MatrixResult>, scratch: Buffer)
    ensures AssembleMatrix(parent, m, k, n, results, scratch).Ok? <==>
            results != [] && results[0].totalChunks == |results| && Complete(parent, m, k, n, results)
  {
    if results != [] {
      var sorted := SortBy(results, ChunkKey);
      CheckChunksIff(parent, m, k, n, sorted, 0, {});
      CompleteIsInSequence(parent, m, k, n, results);
    }
  }

  // ---------------------------------------------------------------- what a success contains

  /** The output buffers end to end. */
  ghost function Joined(results: seq<MatrixResult>): Buffer {
    if results == [] then [] else Joined(results[..|results| - 1]) + results[|results| - 1].outputBuffer
  }

  lemma PieceKept(p: Placement, before: Buffer, suffix: Buffer, from: nat, to: nat)
    requires PieceOf(p, before, from, to)
    ensures PieceOf(p, before + suffix, from, to)
  {
    assert (before + suffix)[from..to] == before[from..to];
  }

  /** The first byte of the row a sorted list has reached at position i. */
  function ByteBefore(sorted: seq<MatrixResult>, n: nat, i: nat): nat
    requires i <= |sorted|
  {
    RowBefore(sorted, i) * n * 4
  }

  ghost predicate JoinsAt(ps: seq<Placement>, target: Buffer, sorted: seq<MatrixResult>, n: nat, j: nat)
    requires j < |ps| == |sorted|
  {
    PieceOf(ps[j], target, ByteBefore(sorted, n, j), ByteBefore(sorted, n, j + 1))
  }

  lemma OutputSpans(parent: string, m: nat, k: nat, n: nat, sorted: seq<MatrixResult>, j: nat)
    requires InSequence(parent, m, k, n, sorted, 0) && j < |sorted|
    ensures ByteBefore(sorted, n, j) == sorted[j].rowStart * n * 4
    ensures ByteBefore(sorted, n, j + 1) == ByteBefore(sorted, n, j) + |sorted[j].outputBuffer|
  {
    var r := sorted[j];
    assert r.rowStart == RowBefore(sorted, j);
    assert ResultFits(parent, m, k, n, r);
    MulDistrib(r.rowEnd, r.rowStart, n);
  }

  lemma {:induction false} JoinedPieces(parent: string, m: nat, k: nat, n: nat, sorted: seq<MatrixResult>, i: nat)
    requires InSequence(parent, m, k, n, sorted, 0) && i <= |sorted|
    ensures |Joined(sorted[..i])| == ByteBefore(sorted, n, i)
    ensures forall j: nat | j < i :: JoinsAt(Placements(sorted, n), Joined(sorted[..i]), sorted, n, j)
  {
    if i > 0 {
      JoinedPieces(parent, m, k, n, sorted, i - 1);
      OutputSpans(parent, m, k, n, sorted, i - 1);
      assert sorted[..i][..i - 1] == sorted[..i - 1];
      PieceJoined(Placements(sorted, n), Joined(sorted[..i - 1]), sorted, n, i - 1);
    }
  }

  /** Appending the next output keeps the pieces before it and adds its own. */
  lemma PieceJoined(ps: seq<Placement>, before: Buffer, sorted: seq<MatrixResult>, n: nat, i: nat)
    requires ps == Placements(sorted, n) && i < |sorted| && |before| == ByteBefore(sorted, n, i)
    requires ByteBefore(sorted, n, i) == sorted[i].rowStart * n * 4
    requires ByteBefore(sorted, n, i + 1) == ByteBefore(sorted, n, i) + |sorted[i].outputBuffer|
    requires forall j: nat | j < i :: JoinsAt(ps, before, sorted, n, j)
    ensures forall j: nat | j < i + 1 :: JoinsAt(ps, before + sorted[i].outputBuffer, sorted, n, j)
  {
    var last := sorted[i].outputBuffer;
    assert JoinsAt(ps, before + last, sorted, n, i);
    forall j: nat | j < i ensures JoinsAt(ps, before + last, sorted, n, j) {
      assert JoinsAt(ps, before, sorted, n, j);
      PieceKept(ps[j], before, last, ByteBefore(sorted, n, j), ByteBefore(sorted, n, j + 1));
    }
  }

  lemma JoinedCuts(parent: string, m: nat, k: nat, n: nat, sorted: seq<MatrixResult>) returns (cuts: seq<nat>)
    requires InSequence(parent, m, k, n, sorted, 0)
    ensures |Joined(sorted)| == m * n * 4 && CutInto(Placements(sorted, n), Joined(sorted), cuts)
  {
    var ps := Placements(sorted, n);
    cuts := seq(|sorted| + 1, i requires 0 <= i <= |sorted| => ByteBefore(sorted, n, i));
    JoinedPieces(parent, m, k, n, sorted, |sorted|);
    assert sorted[..|sorted|] == sorted;
    forall i: nat | i < |ps| ensures IsPiece(ps, Joined(sorted), cuts, i) {
      assert JoinsAt(ps, Joined(sorted), sorted, n, i);
    }
  }

  lemma InSequencePlaces(parent: string, m: nat, k: nat, n: nat, sorted: seq<MatrixResult>, scratch: Buffer)
    requires InSequence(parent, m, k, n, sorted, 0) && |scratch| == m * n * 4
    ensures PlaceAll(scratch, Placements(sorted, n)) == Joined(sorted)
    ensures BackToBack(Placements(sorted, n), m * n * 4)
  {
    var cuts := JoinedCuts(parent, m, k, n, sorted);
    PiecesRebuild(scratch, Joined(sorted), Placements(sorted, n), cuts, |sorted|);
    PiecesBackToBack(Joined(sorted), Placements(sorted, n), cuts);
  }

  /**
   * A successful reassembly is the output buffers end to end in index order; it writes every byte of
   * the uninitialised buffer exactly once.
   */
  lemma AssembledMatrixIsJoined(parent: string, m: nat, k: nat, n: nat, results: seq<MatrixResult>, scratch: Buffer)
    requires |scratch| == m * n * 4
    requires AssembleMatrix(parent, m, k, n, results, scratch).Ok?
    ensures var sorted := SortBy(results, ChunkKey);
            var ps := Placements(sorted, n);
            && AssembleMatrix(parent, m, k, n, results, scratch) == Ok(Joined(sorted))
            && forall p: nat | p < m * n * 4 ::
                 Covered(ps, m * n * 4, p) &&
                 forall i: nat, j: nat | i < |ps| && j < |ps| && Covers(ps[i], m * n * 4, p)
                                         && Covers(ps[j], m * n * 4, p) :: i == j
  {
    var sorted := SortBy(results, ChunkKey);
    AssembleMatrixSucceedsIff(parent, m, k, n, results, scratch);
    CompleteIsInSequence(parent, m, k, n, results);
    InSequencePlaces(parent, m, k, n, sorted, scratch);
    forall p: nat | p < m * n * 4 {
      BackToBackCoversOnce(Placements(sorted, n), m * n * 4, p);
    }
  }

  lemma CompleteUnderShuffle(parent: string, m: nat, k: nat, n: nat, xs: seq<MatrixResult>, ys: seq<MatrixResult>)
    requires multiset(xs) == multiset(ys) && Complete(parent, m, k, n, xs)
    ensures |xs| == |ys| && Complete(parent, m, k, n, ys) && SortBy(ys, ChunkKey) == SortBy(xs, ChunkKey)
  {
    assert |multiset(xs)| == |multiset(ys)|;
    SortByPermutes(xs, ChunkKey);
    SortBySorted(xs, ChunkKey);
    SortByDistinct(xs, ChunkKey);
    SortRestores(ys, SortBy(xs, ChunkKey), ChunkKey);
    CompleteIsInSequence(parent, m, k, n, xs);
    CompleteIsInSequence(parent, m, k, n, ys);
  }

  /** Arrival order never changes the bytes of a success. */
  lemma ArrivalOrderIrrelevant(parent: string, m: nat, k: nat, n: nat, xs: seq<MatrixResult>, ys: seq<MatrixResult>,
                               s: Buffer, s': Buffer)
    requires multiset(xs) == multiset(ys) && |s| == |s'| == m * n * 4
    requires AssembleMatrix(parent, m, k, n, xs, s).Ok? && AssembleMatrix(parent, m, k, n, ys, s').Ok?
    ensures AssembleMatrix(parent, m, k, n, xs, s) == AssembleMatrix(parent, m, k, n, ys, s')
  {
    AssembleMatrixSucceedsIff(parent, m, k, n, xs, s);
    CompleteUnderShuffle(parent, m, k, n, xs, ys);
    AssembledMatrixIsJoined(parent, m, k, n, xs, s);
    AssembledMatrixIsJoined(parent, m, k, n, ys, s');
  }

  /**
   * Whether a success happens at all is independent of the arrival order exactly when every result,
   * not just the first, announces the right total: only the first arrival's total is ever looked at.
   */
  lemma SuccessOrderFreeIff(parent: string, m: nat, k: nat, n: nat, xs: seq<MatrixResult>, s: Buffer)
    requires AssembleMatrix(parent, m, k, n, xs, s).Ok?
    ensures (forall ys | multiset(ys) == multiset(xs) :: AssembleMatrix(parent, m, k, n, ys, s).Ok?) <==>
            (forall r | r in xs :: r.totalChunks == |xs|)
  {
    AssembleMatrixSucceedsIff(parent, m, k, n, xs, s);
    if forall r | r in xs :: r.totalChunks == |xs| {
      forall ys | multiset(ys) == multiset(xs) ensures AssembleMatrix(parent, m, k, n, ys, s).Ok? {
        CompleteUnderShuffle(parent, m, k, n, xs, ys);
        assert ys[0] in multiset(ys);
        AssembleMatrixSucceedsIff(parent, m, k, n, ys, s);
      }
    } else {
      var r :| r in xs && r.totalChunks != |xs|;
      var i: nat :| i < |xs| && xs[i] == r;
      var ys := MovedToFront(xs, i);
      AssembleMatrixSucceedsIff(parent, m, k, n, ys, s);
    }
  }

  /** The half of a two-row result with the given row and announced total. */
  function Half(row: nat, totalChunks: nat): MatrixResult {
    MatrixResult("w", row, totalChunks, row, row + 1, 1, 2, 1, 1, [0, 0, 0, 0])
  }

  /** Two halves, one of which announces a wrong total: reassembly succeeds exactly if the other comes first. */
  lemma FirstTotalDecides(scratch: Buffer)
    ensures AssembleMatrix("w", 2, 1, 1, [Half(0, 2), Half(1, 7)], scratch).Ok?
    ensures AssembleMatrix("w", 2, 1, 1, [Half(1, 7), Half(0, 2)], scratch) == Err(IncompleteSet)
  {
    AssembleMatrixSucceedsIff("w", 2, 1, 1, [Half(0, 2), Half(1, 7)], scratch);
  }

  lemma MovedToFront<T>(xs: seq<T>, i: nat) returns (ys: seq<T>)
    requires i < |xs|
    ensures |ys| == |xs| && ys[0] == xs[i] && multiset(ys) == multiset(xs)
  {
    ys := [xs[i]] + xs[..i] + xs[i + 1..];
    assert xs == xs[..i] + [xs[i]] + xs[i + 1..];
  }

  // ---------------------------------------------------------------- row partitioning is bit-exact

  /** What an honest worker returns for a specification. */
  function HonestResult(mac: Mac, spec: MatrixSpec): MatrixResult
  {
    var t := spec.metadata;
    MatrixResult(t.parentWorkloadId, t.chunkIndex, t.totalChunks, t.rowStart, t.rowEnd, t.rowCount, t.m, t.k, t.n,
                 ProductBytes(mac, spec.payload, t.rowCount, t.k, t.n))
  }

  /** The single-call answer: the kernel on A followed by B. */
  function WholeProduct(mac: Mac, a: Buffer, b: Buffer, m: nat, k: nat, n: nat): Buffer
    requires |a| == m * k * 4 && |b| == k * n * 4
  {
    ProductBytes(mac, a + b, m, k, n)
  }

  lemma OperandsOfConcat(a: Buffer, b: Buffer, m: nat, k: nat, n: nat)
    requires |a| == m * k * 4 && |b| == k * n * 4
    ensures m * k + k * n == |a + b| / 4
    ensures LeftOperand(a + b, m, k, n) == Words(a) && RightOperand(a + b, m, k, n) == Words(b)
  {
    WordsOfConcat(a, b);
  }

  lemma BandSpecSane(parent: string, a: Buffer, b: Buffer, m: nat, k: nat, n: nat, chunks: nat, i: nat)
    requires |a| == m * k * 4 && |b| == k * n * 4 && chunks > 0 && i < chunks
    ensures var spec := BandSpec(parent, a, b, m, k, n, chunks, i);
            && spec.metadata.rowStart <= spec.metadata.rowEnd <= m
            && spec.metadata.rowCount * k + k * n == |spec.payload| / 4
  {
    BandStartMonotone(m, chunks, i, i + 1);
    BandStartMonotone(m, chunks, i + 1, chunks);
    var t := BandSpec(parent, a, b, m, k, n, chunks, i).metadata;
    OperandsOfConcat(Rows(a, m, k, t.rowStart, t.rowEnd), b, t.rowCount, k, n);
  }

  function BandResult(mac: Mac, parent: string, a: Buffer, b: Buffer, m: nat, k: nat, n: nat, chunks: nat, i: nat)
    : MatrixResult
    requires |a| == m * k * 4 && |b| == k * n * 4 && chunks > 0 && i < chunks
  {
    BandSpecSane(parent, a, b, m, k, n, chunks, i);
    HonestResult(mac, BandSpec(parent, a, b, m, k, n, chunks, i))
  }

  lemma WordsOfRows(buf: Buffer, m: nat, w: nat, from: nat, to: nat)
    requires |buf| == m * w * 4 && from <= to <= m
    ensures 0 <= from * w <= to * w <= |buf| / 4 && Words(Rows(buf, m, w, from, to)) == Words(buf)[from * w..to * w]
  {
    RowBytesInside(m, w, from, to);
    WordsOfSlice(buf, from * w, to * w);
  }

  lemma BytesOfRows(c: seq<Word>, m: nat, w: nat, from: nat, to: nat)
    requires |c| == m * w && from <= to <= m
    ensures 0 <= from * w <= to * w <= |c| && BytesOf(c[from * w..to * w]) == Rows(BytesOf(c), m, w, from, to)
  {
    RowBytesInside(m, w, from, to);
    BytesOfSlice(c, from * w, to * w);
  }

  /** The single-call answer in words: the product of the two operands. */
  lemma WholeInWords(mac: Mac, a: Buffer, b: Buffer, m: nat, k: nat, n: nat)
    requires |a| == m * k * 4 && |b| == k * n * 4
    ensures |Words(a)| == m * k && |Words(b)| == k * n
    ensures WholeProduct(mac, a, b, m, k, n) == BytesOf(Product(mac, Words(a), Words(b), m, k, n))
  {
    OperandsOfConcat(a, b, m, k, n);
  }

  /** The kernel on some rows of A, in words. */
  lemma BandInWords(mac: Mac, a: Buffer, b: Buffer, m: nat, k: nat, n: nat, from: nat, to: nat)
    requires |a| == m * k * 4 && |b| == k * n * 4 && from <= to <= m
    ensures |Words(b)| == k * n && 0 <= from * k <= to * k <= |Words(a)| && to * k - from * k == (to - from) * k
    ensures WholeProduct(mac, Rows(a, m, k, from, to), b, to - from, k, n)
            == BytesOf(Product(mac, Words(a)[from * k..to * k], Words(b), to - from, k, n))
  {
    WordsOfRows(a, m, k, from, to);
    WholeInWords(mac, Rows(a, m, k, from, to), b, to - from, k, n);
  }

  /** The kernel on some rows of A computes those rows of the product. */
  lemma ProductOfBand(mac: Mac, a: Buffer, b: Buffer, m: nat, k: nat, n: nat, from: nat, to: nat)
    requires |a| == m * k * 4 && |b| == k * n * 4 && from <= to <= m
    ensures WholeProduct(mac, Rows(a, m, k, from, to), b, to - from, k, n)
            == Rows(WholeProduct(mac, a, b, m, k, n), m, n, from, to)
  {
    WholeInWords(mac, a, b, m, k, n);
    BandInWords(mac, a, b, m, k, n, from, to);
    RowsOfProduct(mac, Words(a), Words(a)[from * k..to * k], Words(b), m, k, n, from, to);
  }

  lemma RowsOfProduct(mac: Mac, a: seq<Word>, rows: seq<Word>, b: seq<Word>, m: nat, k: nat, n: nat, from: nat, to: nat)
    requires |a| == m * k && |b| == k * n && from <= to <= m && |rows| == (to - from) * k
    requires 0 <= from * k <= to * k <= |a| && rows == a[from * k..to * k]
    ensures BytesOf(Product(mac, rows, b, to - from, k, n))
            == Rows(BytesOf(Product(mac, a, b, m, k, n)), m, n, from, to)
  {
    ProductOfRows(mac, a, b, m, k, n, from, to);
    BytesOfRows(Product(mac, a, b, m, k, n), m, n, from, to);
  }

  /** The honest results, one per chunk, in index order. */
  ghost function AllBands(mac: Mac, parent: string, a: Buffer, b: Buffer, m: nat, k: nat, n: nat, chunks: nat)
    : (results: seq<MatrixResult>)
    requires |a| == m * k * 4 && |b| == k * n * 4 && chunks > 0
    ensures |results| == chunks
    ensures forall i: nat | i < chunks :: results[i] == BandResult(mac, parent, a, b, m, k, n, chunks, i)
  {
    seq(chunks, i requires 0 <= i < chunks => BandResult(mac, parent, a, b, m, k, n, chunks, i))
  }

  lemma BandsInSequence(mac: Mac, parent: string, a: Buffer, b: Buffer, m: nat, k: nat, n: nat,
                        arranged: seq<MatrixResult>)
    requires |a| == m * k * 4 && |b| == k * n * 4 && |arranged| > 0
    requires forall i: nat | i < |arranged| :: arranged[i] == BandResult(mac, parent, a, b, m, k, n, |arranged|, i)
    ensures InSequence(parent, m, k, n, arranged, 0)
  {
    var chunks := |arranged|;
    forall i: nat | i < chunks
      ensures ChunkKey(arranged[i]) == i && ResultFits(parent, m, k, n, arranged[i])
    {
      BandSpecSane(parent, a, b, m, k, n, chunks, i);
    }
    forall i: nat | i <= chunks ensures RowBefore(arranged, i) == BandStart(m, chunks, i) {
    }
    BandsCover(m, chunks);
  }

  lemma BandPiece(mac: Mac, parent: string, a: Buffer, b: Buffer, m: nat, k: nat, n: nat, arranged: seq<MatrixResult>,
                  i: nat)
    requires |a| == m * k * 4 && |b| == k * n * 4 && i < |arranged|
    requires arranged[i] == BandResult(mac, parent, a, b, m, k, n, |arranged|, i)
    ensures PieceOf(Placements(arranged, n)[i], WholeProduct(mac, a, b, m, k, n),
                    BandByte(m, n, |arranged|, i), BandByte(m, n, |arranged|, i + 1))
  {
    BandSpecSane(parent, a, b, m, k, n, |arranged|, i);
    var from, to := BandStart(m, |arranged|, i), BandStart(m, |arranged|, i + 1);
    ProductOfBand(mac, a, b, m, k, n, from, to);
    RowBytesInside(m, n, from, to);
  }

  function BandByte(m: nat, n: nat, chunks: nat, i: nat): nat
    requires chunks > 0
  {
    BandStart(m, chunks, i) * n * 4
  }

  /**
   * Row partitioning is bit-exact. For any multiply-accumulate step, any dimensions and any chunk
   * count of at least 1, multiplying each row band on its own and reassembling the results, in any
   * order of arrival, gives the bytes of the single-call product.
   */
  lemma PartitionedProductIsExact(mac: Mac, parent: string, a: Buffer, b: Buffer, m: nat, k: nat, n: nat,
                                  totalChunks: nat, arrived: seq<MatrixResult>, scratch: Buffer)
    requires m > 0 && k > 0 && n > 0 && totalChunks >= 1
    requires |a| == m * k * 4 && |b| == k * n * 4 && |scratch| == m * n * 4
    requires multiset(arrived) == multiset(AllBands(mac, parent, a, b, m, k, n, Min(totalChunks, m)))
    ensures AssembleMatrix(parent, m, k, n, arrived, scratch) == Ok(WholeProduct(mac, a, b, m, k, n))
  {
    var chunks := Min(totalChunks, m);
    var arranged := AllBands(mac, parent, a, b, m, k, n, chunks);
    BandsInSequence(mac, parent, a, b, m, k, n, arranged);
    assert Indexed(arranged, ChunkKey);
    IndexedIsSorted(arranged, ChunkKey);
    SortRestores(arrived, arranged, ChunkKey);
    assert |multiset(arrived)| == |arrived| == chunks;
    assert arrived[0] in multiset(arrived);
    CheckChunksIff(parent, m, k, n, arranged, 0, {});
    BandsRebuild(mac, parent, a, b, m, k, n, arranged, scratch);
  }

  lemma BandsRebuild(mac: Mac, parent: string, a: Buffer, b: Buffer, m: nat, k: nat, n: nat,
                     arranged: seq<MatrixResult>, scratch: Buffer)
    requires |a| == m * k * 4 && |b| == k * n * 4 && |scratch| == m * n * 4 && |arranged| > 0
    requires forall i: nat | i < |arranged| :: arranged[i] == BandResult(mac, parent, a, b, m, k, n, |arranged|, i)
    ensures PlaceAll(scratch, Placements(arranged, n)) == WholeProduct(mac, a, b, m, k, n)
  {
    var chunks, ps, whole := |arranged|, Placements(arranged, n), WholeProduct(mac, a, b, m, k, n);
    forall i: nat | i < chunks ensures PieceOf(ps[i], whole, BandByte(m, n, chunks, i), BandByte(m, n, chunks, i + 1)) {
      BandPiece(mac, parent, a, b, m, k, n, arranged, i);
    }
    BandPiecesRebuild(m, n, chunks, ps, whole, scratch);
  }

  lemma BandPiecesRebuild(m: nat, n: nat, chunks: nat, ps: seq<Placement>, target: Buffer, scratch: Buffer)
    requires |scratch| == |target| == m * n * 4 && chunks > 0 && |ps| == chunks
    requires forall i: nat {:trigger ps[i]} | i < chunks ::
               PieceOf(ps[i], target, BandByte(m, n, chunks, i), BandByte(m, n, chunks, i + 1))
    ensures PlaceAll(scratch, ps) == target
  {
    var cuts: seq<nat> := seq(chunks + 1, i requires 0 <= i <= chunks => BandByte(m, n, chunks, i));
    BandsCover(m, chunks);
    forall i: nat | i < chunks ensures IsPiece(ps, target, cuts, i) {
      assert PieceOf(ps[i], target, BandByte(m, n, chunks, i), BandByte(m, n, chunks, i + 1));
    }
    PiecesRebuild(scratch, target, ps, cuts, chunks);
  }

  predicate Sized(spec: MatrixSpec) {
    spec.metadata.rowCount > 0 && spec.metadata.k > 0 && spec.metadata.n > 0
  }

  function Answers(mac: Mac, specs: seq<MatrixSpec>): (answers: seq<MatrixResult>)
    ensures |answers| == |specs| && forall i: nat | i < |specs| :: answers[i] == HonestResult(mac, specs[i])
  {
    seq(|specs|, i requires 0 <= i < |specs| => HonestResult(mac, specs[i]))
  }

  /** A dispatch that succeeds: the kernel runs on the chunk's payload. */
  method Multiply(mac: Mac, spec: MatrixSpec) returns (answer: MatrixResult)
    requires Sized(spec)
    ensures answer == HonestResult(mac, spec)
  {
    var t := spec.metadata;
    var output := ComputeMatrixMultiply(mac, spec.payload, t.rowCount, t.k, t.n);
    answer := MatrixResult(t.parentWorkloadId, t.chunkIndex, t.totalChunks, t.rowStart, t.rowEnd, t.rowCount, t.m, t.k,
                           t.n, output);
  }

  /** The results that came back, or None if some dispatch failed: Promise.all over the chunks. */
  method DispatchChunks(mac: Mac, specs: seq<MatrixSpec>, dispatched: nat -> bool)
    returns (results: Option<seq<MatrixResult>>)
    requires forall i: nat | i < |specs| :: Sized(specs[i])
    ensures results.Some? <==> forall i: nat | i < |specs| :: dispatched(i)
    ensures results.Some? ==> results.value == Answers(mac, specs)
  {
    var answers: seq<MatrixResult> := [];
    ghost var whole := Answers(mac, specs);
    for i := 0 to |specs|
      invariant answers == whole[..i] && forall j: nat | j < i :: dispatched(j)
    {
      if !dispatched(i) {
        return None;
      }
      var answer := Multiply(mac, specs[i]);
      assert whole[i] == answer;
      answers := answers + [answer];
    }
    results := Some(answers);
  }

  lemma AnswersAreBands(mac: Mac, parent: string, a: Buffer, b: Buffer, m: nat, k: nat, n: nat, specs: seq<MatrixSpec>)
    requires m > 0 && k > 0 && n > 0 && |a| == m * k * 4 && |b| == k * n * 4 && 0 < |specs| <= m
    requires forall i: nat | i < |specs| :: specs[i] == BandSpec(parent, a, b, m, k, n, |specs|, i)
    ensures forall i: nat | i < |specs| :: Sized(specs[i])
    ensures Answers(mac, specs) == AllBands(mac, parent, a, b, m, k, n, |specs|)
  {
    forall i: nat | i < |specs| ensures Sized(specs[i]) {
      BandsBalanced(m, |specs|, i, i);
    }
  }

  /**
   * From the request to the reply: the kernel's answer to the whole payload, exactly when the payload has
   * the size the dimensions call for and every chunk's dispatch succeeds.
   */
  method ExecuteChunkedMatrix(mac: Mac, parent: string, m: int, k: int, n: int, requestedChunks: int,
                              effectiveWorkerCount: nat, raw: Buffer, isForceSwarm: bool, dispatched: nat -> bool)
    returns (r: Reply<Buffer, MatrixError>)
    ensures r == Thrown(InvalidDimensions) <==> (m <= 0 || k <= 0 || n <= 0)
    ensures m > 0 && k > 0 && n > 0 ==>
              var aBytes, bBytes := m * k * 4, k * n * 4;
              var chunks := ChunkTarget(requestedChunks, effectiveWorkerCount, m);
              && chunks >= 1
              && (r == Thrown(WrongALength) <==> |raw| < aBytes)
              && (r == Thrown(WrongBLength) <==> (|raw| >= aBytes && |raw| != aBytes + bBytes))
              && (|raw| == aBytes + bBytes ==>
                    r == if forall i: nat | i < chunks :: dispatched(i) then COMPLETED(ProductBytes(mac, raw, m, k, n))
                         else Failure(isForceSwarm))
  {
    var numChunks := ChunkTarget(requestedChunks, effectiveWorkerCount, m);
    if m <= 0 || k <= 0 || n <= 0 {
      return Thrown(InvalidDimensions);
    }
    MatrixBytes(m, k);
    MatrixBytes(k, n);
    var aBytes := m * k * 4;
    var aBuffer, bBuffer := SubArray(raw, 0, aBytes), SubArray(raw, aBytes, |raw|);
    var partitioned := PartitionMatrixMultiply(parent, m, k, n, numChunks, aBuffer, bBuffer);
    if partitioned.Err? {
      return Thrown(partitioned.error);
    }
    assert aBuffer + bBuffer == raw;
    r := AnswerChunks(mac, parent, m, k, n, aBuffer, bBuffer, partitioned.value, isForceSwarm, dispatched);
  }

  lemma MatrixBytes(rows: nat, columns: nat)
    requires rows > 0 && columns > 0
    ensures rows * columns * 4 > 0
  {
    MulStrict(0, rows, columns);
  }

  /** The part of the execution whose errors are answered. */
  method AnswerChunks(mac: Mac, parent: string, m: nat, k: nat, n: nat, ghost a: Buffer, ghost b: Buffer,
                      specs: seq<MatrixSpec>, isForceSwarm: bool, dispatched: nat -> bool)
    returns (r: Reply<Buffer, MatrixError>)
    requires m > 0 && k > 0 && n > 0 && |a| == m * k * 4 && |b| == k * n * 4 && 0 < |specs| <= m
    requires forall i: nat | i < |specs| :: specs[i] == BandSpec(parent, a, b, m, k, n, |specs|, i)
    ensures r == if forall i: nat | i < |specs| :: dispatched(i) then COMPLETED(WholeProduct(mac, a, b, m, k, n))
                 else Failure(isForceSwarm)
  {
    AnswersAreBands(mac, parent, a, b, m, k, n, specs);
    var results := DispatchChunks(mac, specs, dispatched);
    if results == None {
      return Failure(isForceSwarm);
    }
    var assembled, scratch := AssembleMatrixChunks(parent, m, k, n, results.value);
    PartitionedProductIsExact(mac, parent, a, b, m, k, n, |specs|, results.value, scratch);
    r := COMPLETED(assembled.value);
  }
}
