/**
 * VideoChunkEngine and the kernel it feeds: cutting a video into runs of frames, analysing each run on
 * its own, and concatenating the per-frame metrics.
 */
module VideoChunks {
  import opened Prelude
  import opened Arithmetic
  import opened NodeBuffer
  import opened Sorting
  import opened Requests

  /** What is measured on a frame alone; the macOS kernel has two more measures. */
  datatype Still = Still(luminance: real, edgeDensity: real, blurScore: real, others: map<string, real>)

  /** The per-frame arithmetic: metrics of one frame, and of a frame against the one before it. */
  datatype Kernel = Kernel(still: Buffer -> Still, motion: (Buffer, Buffer) -> real, json: seq<Metrics> -> Buffer)

  datatype Metrics = Metrics(frameIndex: nat, still: Still, motionEnergy: real)

  datatype VideoMeta = VideoMeta(
    parentWorkloadId: string,
    chunkIndex: nat,
    totalChunks: nat,
    startFrameIndex: nat,
    frameCount: nat,
    width: nat,
    height: nat,
    channels: nat,
    mode: string)

  datatype VideoSpec = VideoSpec(metadata: VideoMeta, payload: Buffer)

  /** Output comes as text, of which the JSON matters if it is any; as an array; or as bytes. */
  datatype Output =
    | Text(json: Option<seq<Metrics>>)
    | List(metrics: seq<Metrics>)
    | Bytes(content: Buffer)

  datatype VideoResult = VideoResult(parentWorkloadId: string, chunkIndex: nat, outputData: Output)

  datatype VideoError =
    | InvalidDimensions
    | ShortBuffer
    | NoResults
    | MismatchedParent
    | MissingIndex

  // ---------------------------------------------------------------- partitioning

  function FrameBytes(width: nat, height: nat, channels: nat): nat {
    width * height * channels
  }

  lemma FrameBytesPositive(width: nat, height: nat, channels: nat)
    requires width > 0 && height > 0 && channels > 0
    ensures FrameBytes(width, height, channels) > 0
  {
    MulStrict(0, width, height);
    MulStrict(0, width * height, channels);
  }

  function ChunkCount(totalFrames: nat, chunkSize: nat): nat
    requires chunkSize > 0
  {
    (totalFrames + chunkSize - 1) / chunkSize
  }

  /** The frames of chunk i. */
  function ChunkFrames(totalFrames: nat, chunkSize: nat, i: nat): nat {
    Max(0, Min(chunkSize, totalFrames - i * chunkSize))
  }

  function VideoSpecOf(parent: string, width: nat, height: nat, channels: nat, mode: string, totalFrames: nat,
                       c: nat, video: Buffer, i: nat): VideoSpec
    requires c > 0
  {
    var fb, start, n := FrameBytes(width, height, channels), i * c, ChunkFrames(totalFrames, c, i);
    VideoSpec(VideoMeta(parent, i, ChunkCount(totalFrames, c), start, n, width, height, channels, mode),
              SubArray(video, start * fb, start * fb + n * fb))
  }

  /** Chunk i carries frames i * c and on: c of them, or as many as there are left. */
  predicate CarriesFrames(specs: seq<VideoSpec>, i: nat, totalFrames: int, c: int, fb: nat, video: Buffer)
    requires i < |specs|
  {
    var m := specs[i].metadata;
    && m.chunkIndex == i && m.totalChunks == |specs|
    && m.startFrameIndex == i * c < totalFrames
    && m.frameCount == (if (i + 1) * c <= totalFrames then c else totalFrames - i * c)
    && (i == |specs| - 1 <==> m.startFrameIndex + m.frameCount == totalFrames)
    && 0 <= m.startFrameIndex * fb <= (m.startFrameIndex + m.frameCount) * fb <= |video|
    && specs[i].payload == video[m.startFrameIndex * fb..(m.startFrameIndex + m.frameCount) * fb]
  }

  lemma SpecCarriesFrames(specs: seq<VideoSpec>, i: nat, parent: string, width: nat, height: nat, channels: nat,
                          mode: string, totalFrames: nat, c: nat, video: Buffer)
    requires c > 0 && |specs| == ChunkCount(totalFrames, c) && i < |specs|
    requires specs[i] == VideoSpecOf(parent, width, height, channels, mode, totalFrames, c, video, i)
    requires totalFrames * FrameBytes(width, height, channels) <= |video|
    ensures CarriesFrames(specs, i, totalFrames, c, FrameBytes(width, height, channels), video)
  {
    var fb, start, n := FrameBytes(width, height, channels), i * c, ChunkFrames(totalFrames, c, i);
    ChunkBounds(totalFrames, c, i);
    ChunkBounds(totalFrames, c, i + 1);
    MulDistrib(i, 1, c);
    MulDistrib(start, n, fb);
    MulMono(start, start + n, fb);
    MulMono(start + n, totalFrames, fb);
  }

  /** No chunk is empty, and together they end at the last frame. */
  lemma ChunkBounds(totalFrames: nat, c: nat, i: nat)
    requires c > 0
    ensures i < ChunkCount(totalFrames, c) <==> i * c < totalFrames
    ensures i < ChunkCount(totalFrames, c) ==> 1 <= ChunkFrames(totalFrames, c, i)
    ensures totalFrames <= ChunkCount(totalFrames, c) * c
  {
    var n := ChunkCount(totalFrames, c);
    assert totalFrames + c - 1 == n * c + (totalFrames + c - 1) % c;
    if i < n {
      MulStrict(i, n, c);
    } else {
      MulMono(n, i, c);
    }
  }

  method PartitionVideoFrames(parent: string, width: int, height: int, channels: int, mode: string,
                              totalFrames: int, chunkSize: int, video: Buffer)
    returns (r: Result<seq<VideoSpec>, VideoError>)
    ensures r == Err(InvalidDimensions) <==> (width <= 0 || height <= 0 || channels <= 0 || totalFrames <= 0)
    ensures r == Err(ShortBuffer) <==>
            (width > 0 && height > 0 && channels > 0 && totalFrames > 0
             && |video| < totalFrames * FrameBytes(width, height, channels))
    ensures r.Ok? <==>
            (width > 0 && height > 0 && channels > 0 && totalFrames > 0
             && |video| >= totalFrames * FrameBytes(width, height, channels))
    ensures r.Ok? ==>
              var c := Max(1, chunkSize);
              |r.value| == ChunkCount(totalFrames, c) &&
              forall i: nat | i < |r.value| ::
                r.value[i] == VideoSpecOf(parent, width, height, channels, mode, totalFrames, c, video, i)
    ensures r.Ok? ==>
              var c := if chunkSize < 1 then 1 else chunkSize;
              && width >= 0 && height >= 0 && channels >= 0
              && forall i: nat | i < |r.value| ::
                   CarriesFrames(r.value, i, totalFrames, c, width * height * channels, video)
    ensures r.Ok? ==>
              forall i: nat | i < |r.value| ::
                var m := r.value[i].metadata;
                && m.parentWorkloadId == parent && m.mode == mode
                && m.width == width && m.height == height && m.channels == channels
  {
    if width <= 0 || height <= 0 || channels <= 0 || totalFrames <= 0 {
      return Err(InvalidDimensions);
    }
    var frameBytes := FrameBytes(width, height, channels);
    if |video| < totalFrames * frameBytes {
      return Err(ShortBuffer);
    }
    var actualChunkSize := Max(1, chunkSize);
    var specs := CutRuns(parent, width, height, channels, mode, totalFrames, actualChunkSize, video);
    forall i: nat | i < |specs| ensures CarriesFrames(specs, i, totalFrames, actualChunkSize, frameBytes, video) {
      SpecCarriesFrames(specs, i, parent, width, height, channels, mode, totalFrames, actualChunkSize, video);
    }
    r := Ok(specs);
  }

  /** The loop of partitionVideoFrames. */
  method CutRuns(parent: string, width: nat, height: nat, channels: nat, mode: string, totalFrames: nat,
                 actualChunkSize: nat, video: Buffer)
    returns (specs: seq<VideoSpec>)
    requires actualChunkSize > 0
    ensures |specs| == ChunkCount(totalFrames, actualChunkSize)
    ensures forall i: nat | i < |specs| ::
              specs[i] == VideoSpecOf(parent, width, height, channels, mode, totalFrames, actualChunkSize, video, i)
  {
    var frameBytes := FrameBytes(width, height, channels);
    var totalChunks := ChunkCount(totalFrames, actualChunkSize);
    specs := [];
    for i := 0 to totalChunks
      invariant |specs| == i
      invariant forall k: nat | k < i ::
          specs[k] == VideoSpecOf(parent, width, height, channels, mode, totalFrames, actualChunkSize, video, k)
    {
      ChunkBounds(totalFrames, actualChunkSize, i);
      var startFrame := i * actualChunkSize;
      var framesInChunk := Min(actualChunkSize, totalFrames - startFrame);
      var startByte := startFrame * frameBytes;
      var endByte := startByte + framesInChunk * frameBytes;
      var metadata := VideoMeta(parent, i, totalChunks, startFrame, framesInChunk, width, height, channels, mode);
      specs := specs + [VideoSpec(metadata, SubArray(video, startByte, endByte))];
    }
  }

  // ---------------------------------------------------------------- the kernel

  function FrameAt(input: Buffer, frameBytes: nat, f: nat): Buffer {
    SubArray(input, f * frameBytes, f * frameBytes + frameBytes)
  }

  /** Frame f of an analysis, with its motion against the frame before it unless it is a first frame. */
  function MetricsOf(k: Kernel, input: Buffer, frameBytes: nat, f: nat, first: bool, frameIndex: nat): Metrics {
    var frame := FrameAt(input, frameBytes, f);
    Metrics(frameIndex, k.still(frame),
            if first || f == 0 then 0.0 else k.motion(FrameAt(input, frameBytes, f - 1), frame))
  }

  /** One pass over n frames. */
  function SinglePass(k: Kernel, input: Buffer, frameBytes: nat, n: nat, startFrameIndex: nat): (ms: seq<Metrics>)
    ensures |ms| == n
    ensures forall f: nat | f < n :: ms[f] == MetricsOf(k, input, frameBytes, f, false, startFrameIndex + f)
  {
    seq(n, f requires 0 <= f < n => MetricsOf(k, input, frameBytes, f, false, startFrameIndex + f))
  }

  /** The input holds all of frame f. */
  predicate WholeFrame(input: Buffer, fb: nat, f: nat) {
    0 <= f * fb <= (f + 1) * fb <= |input|
  }

  /** Frame f is numbered and measured on its own bytes, and against those of the frame before it. */
  ghost predicate FrameMeasured(k: Kernel, input: Buffer, fb: nat, start: nat, f: nat, m: Metrics) {
    && m.frameIndex == start + f
    && WholeFrame(input, fb, f) && m.still == k.still(input[f * fb..(f + 1) * fb])
    && if f == 0 then m.motionEnergy == 0.0
       else
         && WholeFrame(input, fb, f - 1)
         && m.motionEnergy == k.motion(input[(f - 1) * fb..f * fb], input[f * fb..(f + 1) * fb])
  }

  ghost predicate AllMeasured(k: Kernel, input: Buffer, fb: nat, start: nat, ms: seq<Metrics>) {
    forall f: nat | f < |ms| && WholeFrame(input, fb, f) :: FrameMeasured(k, input, fb, start, f, ms[f])
  }

  lemma FrameIsSlice(input: Buffer, fb: nat, f: nat)
    requires WholeFrame(input, fb, f)
    ensures FrameAt(input, fb, f) == input[f * fb..(f + 1) * fb]
    ensures f > 0 ==> WholeFrame(input, fb, f - 1)
  {
    MulDistrib(f, 1, fb);
    if f > 0 {
      MulDistrib(f - 1, 1, fb);
      MulMono(0, f - 1, fb);
    }
  }

  /** The pass measures every whole frame of the input. */
  lemma SinglePassMeasures(k: Kernel, input: Buffer, fb: nat, n: nat, start: nat)
    ensures AllMeasured(k, input, fb, start, SinglePass(k, input, fb, n, start))
  {
    var ms := SinglePass(k, input, fb, n, start);
    forall f: nat | f < |ms| && WholeFrame(input, fb, f) ensures FrameMeasured(k, input, fb, start, f, ms[f]) {
      FrameIsSlice(input, fb, f);
      if f > 0 {
        FrameIsSlice(input, fb, f - 1);
      }
    }
  }

  method AnalyzeFrames(k: Kernel, width: nat, height: nat, mode: string, frameCount: int, startFrameIndex: nat,
                       input: Buffer)
    returns (results: seq<Metrics>)
    requires width > 0 && height > 0
    ensures var fb := FrameBytes(width, height, ChannelsOf(mode));
            fb > 0 && results == SinglePass(k, input, fb, Max(1, Min(frameCount, |input| / fb)), startFrameIndex)
    ensures AllMeasured(k, input, width * height * ChannelsOf(mode), startFrameIndex, results)
  {
    var channels := ChannelsOf(mode);
    var frameBytes := FrameBytes(width, height, channels);
    FrameBytesPositive(width, height, channels);
    var actualFrames := Max(1, Min(frameCount, |input| / frameBytes));
    results := [];
    var prevFrameOffset := -1;
    for f := 0 to actualFrames
      invariant |results| == f
      invariant prevFrameOffset == if f == 0 then -1 else (f - 1) * frameBytes
      invariant forall g: nat | g < f :: results[g] == MetricsOf(k, input, frameBytes, g, false, startFrameIndex + g)
    {
      var frameOffset := f * frameBytes;
      if f > 0 {
        MulMono(0, f - 1, frameBytes);
      }
      assert prevFrameOffset >= 0 <==> f > 0;
      var frame := SubArray(input, frameOffset, frameOffset + frameBytes);
      var motionEnergy := 0.0;
      if prevFrameOffset >= 0 {
        motionEnergy := k.motion(SubArray(input, prevFrameOffset, prevFrameOffset + frameBytes), frame);
      }
      var metrics := Metrics(startFrameIndex + f, k.still(frame), motionEnergy);
      assert metrics == MetricsOf(k, input, frameBytes, f, false, startFrameIndex + f);
      results := results + [metrics];
      prevFrameOffset := frameOffset;
    }
    assert results == SinglePass(k, input, frameBytes, actualFrames, startFrameIndex);
    SinglePassMeasures(k, input, frameBytes, actualFrames, startFrameIndex);
  }

  /** The macOS worker's kernel, which keeps the frame before and refuses short inputs. */
  method AnalyzeVideoFrames(k: Kernel, width: int, height: int, channels: int, frameCount: int, startFrameIndex: nat,
                            input: Buffer)
    returns (results: seq<Metrics>)
    ensures results ==
            if width > 0 && height > 0 && channels > 0 && frameCount > 0
               && |input| >= frameCount * FrameBytes(width, height, channels)
            then SinglePass(k, input, FrameBytes(width, height, channels), frameCount, startFrameIndex) else []
    ensures width > 0 && height > 0 && channels > 0 ==>
              FrameBytes(width, height, channels) == width * height * channels
              && AllMeasured(k, input, FrameBytes(width, height, channels), startFrameIndex, results)
  {
    results := [];
    if width <= 0 || height <= 0 || channels <= 0 || frameCount <= 0 {
      return;
    }
    var frameBytes := FrameBytes(width, height, channels);
    if |input| < frameCount * frameBytes {
      return;
    }
    var prev: Option<Buffer> := None;
    for f := 0 to frameCount
      invariant |results| == f
      invariant prev == if f == 0 then None else Some(FrameAt(input, frameBytes, f - 1))
      invariant forall g: nat | g < f :: results[g] == MetricsOf(k, input, frameBytes, g, false, startFrameIndex + g)
    {
      var frame := FrameAt(input, frameBytes, f);
      var motionEnergy := if prev.Some? then k.motion(prev.value, frame) else 0.0;
      results := results + [Metrics(startFrameIndex + f, k.still(frame), motionEnergy)];
      prev := Some(frame);
    }
    assert results == SinglePass(k, input, frameBytes, frameCount, startFrameIndex);
    SinglePassMeasures(k, input, frameBytes, frameCount, startFrameIndex);
  }

  // ---------------------------------------------------------------- reassembly

  function ChunkKey(r: VideoResult): int {
    r.chunkIndex
  }

  /** The metrics reassembly reads off a result: none from bytes. */
  function Readable(r: VideoResult): seq<Metrics> {
    match r.outputData
    case Text(json) => if json.Some? then json.value else []
    case List(metrics) => metrics
    case Bytes(_) => []
  }

  function Concatenated(results: seq<VideoResult>): seq<Metrics> {
    if results == [] then [] else Concatenated(results[..|results| - 1]) + Readable(results[|results| - 1])
  }

  /** The first complaint about sorted results from position i on. */
  function CheckResults(parent: string, sorted: seq<VideoResult>, i: nat): Option<VideoError>
    requires i <= |sorted|
    decreases |sorted| - i
  {
    if i == |sorted| then None
    else if sorted[i].parentWorkloadId != parent then Some(MismatchedParent)
    else if sorted[i].chunkIndex != i then Some(MissingIndex)
    else CheckResults(parent, sorted, i + 1)
  }

  function AssembleVideo(parent: string, results: seq<VideoResult>): Result<seq<Metrics>, VideoError> {
    var sorted := SortBy(results, ChunkKey);
    if results == [] then Err(NoResults)
    else match CheckResults(parent, sorted, 0)
      case Some(e) => Err(e)
      case None => Ok(Concatenated(sorted))
  }

  method AssembleVideoAnalysis(parent: string, results: seq<VideoResult>) returns (r: Result<seq<Metrics>, VideoError>)
    ensures r == AssembleVideo(parent, results)
  {
    if |results| == 0 {
      return Err(NoResults);
    }
    var sorted := SortBy(results, ChunkKey);
    var aggregated: seq<Metrics> := [];
    for i := 0 to |sorted|
      invariant CheckResults(parent, sorted, 0) == CheckResults(parent, sorted, i)
      invariant aggregated == Concatenated(sorted[..i])
    {
      var chunk := sorted[i];
      if chunk.parentWorkloadId != parent {
        return Err(MismatchedParent);
      }
      if chunk.chunkIndex != i {
        return Err(MissingIndex);
      }
      assert sorted[..i + 1][..i] == sorted[..i];
      aggregated := aggregated + Readable(chunk);
    }
    assert sorted[..|sorted|] == sorted;
    r := Ok(aggregated);
  }

  lemma {:induction false} ChecksPassIff(parent: string, sorted: seq<VideoResult>, i: nat)
    requires i <= |sorted|
    ensures CheckResults(parent, sorted, i) == None <==>
            forall j | i <= j < |sorted| :: sorted[j].parentWorkloadId == parent && sorted[j].chunkIndex == j
    decreases |sorted| - i
  {
    if i < |sorted| {
      ChecksPassIff(parent, sorted, i + 1);
    }
  }

  /**
   * Reassembly succeeds exactly on one result for each of the indices 0..n-1, in any order, all of the
   * workload asked for. How many chunks there should have been is not looked at.
   */
  lemma AssembleVideoSucceedsIff(parent: string, results: seq<VideoResult>)
    ensures AssembleVideo(parent, results).Ok? <==>
            && results != [] && DistinctKeys(results, ChunkKey)
            && forall r | r in results :: r.parentWorkloadId == parent && r.chunkIndex < |results|
  {
    var sorted := SortBy(results, ChunkKey);
    SortByPermutes(results, ChunkKey);
    SortIndexedIff(results, ChunkKey);
    ChecksPassIff(parent, sorted, 0);
    if AssembleVideo(parent, results).Ok? {
      assert forall i | 0 <= i < |sorted| :: ChunkKey(sorted[i]) == i;
      forall r | r in results ensures r.parentWorkloadId == parent && r.chunkIndex < |results| {
        assert r in sorted;
      }
    }
    assert forall j | 0 <= j < |sorted| :: sorted[j] in results;
    assert Indexed(sorted, ChunkKey) <==> forall j | 0 <= j < |sorted| :: sorted[j].chunkIndex == j;
  }
}
