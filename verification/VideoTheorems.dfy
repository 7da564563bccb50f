/**
 * What the video path guarantees: what chunks analysed separately, by whom, assemble to, and when that is
 * what one pass over the whole video yields.
 */
module VideoTheorems {
  import opened Prelude
  import opened Arithmetic
  import opened NodeBuffer
  import opened Sorting
  import opened Requests
  import opened VideoChunks

  /** What one analysis of the whole video yields, except that each chunk's first frame has no motion. */
  function ChunkedPass(k: Kernel, video: Buffer, frameBytes: nat, n: nat, c: nat): (ms: seq<Metrics>)
    requires c > 0
    ensures |ms| == n
    ensures forall f: nat | f < n :: ms[f] == MetricsOf(k, video, frameBytes, f, f % c == 0, f)
  {
    seq(n, f requires 0 <= f < n => MetricsOf(k, video, frameBytes, f, f % c == 0, f))
  }

  /** A part of a part. */
  lemma SubSub(buf: Buffer, at: nat, n: nat, from: nat, to: nat)
    requires from <= to <= n && at + n <= |buf|
    ensures SubArray(SubArray(buf, at, at + n), from, to) == SubArray(buf, at + from, at + to)
  {
    if from < to {
      var part := buf[at..at + n];
      assert SubArray(buf, at, at + n) == part;
      forall k: nat | k < to - from ensures part[from..to][k] == buf[at + from..at + to][k] {
        assert part[from..to][k] == part[from + k] == buf[at + from + k];
      }
      assert part[from..to] == buf[at + from..at + to];
    }
  }

  /** Frame f of a chunk is frame start + f of the video. */
  lemma FrameOfChunk(video: Buffer, fb: nat, start: nat, n: nat, f: nat)
    requires f < n && (start + n) * fb <= |video|
    ensures FrameAt(SubArray(video, start * fb, start * fb + n * fb), fb, f) == FrameAt(video, fb, start + f)
  {
    MulDistrib(start, n, fb);
    MulDistrib(start, f, fb);
    MulDistrib(f, 1, fb);
    MulMono(f + 1, n, fb);
    SubSub(video, start * fb, n * fb, f * fb, f * fb + fb);
  }

  /**
   * Who computes a chunk: a worker on the network, or the simulation worker, whose thread fails if there
   * are bytes computed in process.
   */
  datatype Executor = Remote | Simulated(inProcess: Option<Buffer>)

  /** The frames a kernel analyses: as many as were asked for, as far as the input goes, but at least one. */
  function Analyzed(k: Kernel, spec: VideoSpec, frameBytes: nat): seq<Metrics>
    requires frameBytes > 0
  {
    var m := spec.metadata;
    SinglePass(k, spec.payload, frameBytes, Max(1, Min(m.frameCount, |spec.payload| / frameBytes)), m.startFrameIndex)
  }

  function RemoteOutput(k: Kernel, spec: VideoSpec): Output {
    var fb := FrameBytes(spec.metadata.width, spec.metadata.height, spec.metadata.channels);
    Text(Some(if fb > 0 && |spec.payload| >= fb then Analyzed(k, spec, fb) else []))
  }

  /** Asked with a buffer, the simulation worker answers with one. Frames without pixels are never dispatched. */
  function SimulatedOutput(k: Kernel, spec: VideoSpec, inProcess: Option<Buffer>): Output {
    var fb := FrameBytes(spec.metadata.width, spec.metadata.height, ChannelsOf(spec.metadata.mode));
    Bytes(if inProcess.Some? then inProcess.value else if fb > 0 then k.json(Analyzed(k, spec, fb)) else [])
  }

  /** The answer to a specification. */
  function Answer(k: Kernel, spec: VideoSpec, who: Executor): VideoResult {
    VideoResult(spec.metadata.parentWorkloadId, spec.metadata.chunkIndex,
                match who
                case Remote => RemoteOutput(k, spec)
                case Simulated(inProcess) => SimulatedOutput(k, spec, inProcess))
  }

  /** A video workload whose partitioning succeeds, with the channel count its mode stands for. */
  datatype Job = Job(parent: string, width: nat, height: nat, mode: string, frames: nat, c: nat, video: Buffer) {
    predicate Valid() {
      width > 0 && height > 0 && frames > 0 && c > 0 && FrameSize() > 0 && frames * FrameSize() <= |video|
    }

    function FrameSize(): nat {
      FrameBytes(width, height, ChannelsOf(mode))
    }

    function Chunks(): nat
      requires Valid()
    {
      ChunkCount(frames, c)
    }

    function Spec(i: nat): VideoSpec
      requires Valid()
    {
      VideoSpecOf(parent, width, height, ChannelsOf(mode), mode, frames, c, video, i)
    }

    function Specs(): (specs: seq<VideoSpec>)
      requires Valid()
      ensures |specs| == Chunks() && forall i: nat | i < |specs| :: specs[i] == Spec(i)
    {
      seq(Chunks(), i requires 0 <= i < Chunks() => Spec(i))
    }

    function Answers(k: Kernel, who: nat -> Executor): (rs: seq<VideoResult>)
      requires Valid()
      ensures |rs| == Chunks() && forall i: nat | i < |rs| :: rs[i] == Answer(k, Spec(i), who(i))
    {
      seq(Chunks(), i requires 0 <= i < Chunks() => Answer(k, Spec(i), who(i)))
    }

    /** The whole video in one pass, except for the motion of each chunk's first frame. */
    function Whole(k: Kernel): (ms: seq<Metrics>)
      requires Valid()
      ensures |ms| == frames
    {
      ChunkedPass(k, video, FrameSize(), frames, c)
    }
  }

  /** The kernel sees exactly the frames of its chunk. */
  lemma AnswerFrames(k: Kernel, job: Job, i: nat)
    requires job.Valid() && i < job.Chunks()
    ensures var n := ChunkFrames(job.frames, job.c, i);
            RemoteOutput(k, job.Spec(i))
              == Text(Some(SinglePass(k, job.Spec(i).payload, job.FrameSize(), n, i * job.c)))
    ensures (i * job.c + ChunkFrames(job.frames, job.c, i)) * job.FrameSize() <= |job.video|
  {
    var n, fb := ChunkFrames(job.frames, job.c, i), job.FrameSize();
    ChunkBounds(job.frames, job.c, i);
    MulMono(i * job.c + n, job.frames, fb);
    MulDistrib(i * job.c, n, fb);
    MulMono(1, n, fb);
    assert |job.Spec(i).payload| == n * fb;
    DivModUnique(n * fb, fb, n, 0);
  }

  /** Chunk i's metrics are the whole video's, except for its first frame's motion. */
  lemma AnswerIsPart(k: Kernel, job: Job, i: nat, f: nat)
    requires job.Valid() && i < job.Chunks() && f < ChunkFrames(job.frames, job.c, i)
    ensures var part := Readable(Answer(k, job.Spec(i), Remote));
            && |part| == ChunkFrames(job.frames, job.c, i) && i * job.c + f < job.frames
            && part[f] == job.Whole(k)[i * job.c + f]
  {
    var n, fb, start := ChunkFrames(job.frames, job.c, i), job.FrameSize(), i * job.c;
    AnswerFrames(k, job, i);
    ChunkBounds(job.frames, job.c, i);
    DivModUnique(start + f, job.c, i, f);
    FrameOfChunk(job.video, fb, start, n, f);
    if f > 0 {
      FrameOfChunk(job.video, fb, start, n, f - 1);
    }
  }

  /** The first frame after i chunks. */
  function Cut(frames: nat, c: nat, i: nat): nat {
    Min(i * c, frames)
  }

  /** Cuts are in order, and strictly so while there are frames left. */
  lemma CutsGrow(frames: nat, c: nat, i: nat)
    requires c > 0
    ensures Cut(frames, c, i) <= Cut(frames, c, i + 1) <= frames
    ensures i < ChunkCount(frames, c) ==> Cut(frames, c, i) < Cut(frames, c, i + 1)
  {
    ChunkBounds(frames, c, i);
    MulDistrib(i, 1, c);
  }

  /** What reassembly reads off chunk i's answer. */
  function Legible(whole: seq<Metrics>, c: nat, who: Executor, i: nat): seq<Metrics>
    requires c > 0
  {
    CutsGrow(|whole|, c, i);
    if who.Remote? then whole[Cut(|whole|, c, i)..Cut(|whole|, c, i + 1)] else []
  }

  /** What is left of the first n chunks' frames if only those of remote workers can be read. */
  function Surviving(whole: seq<Metrics>, c: nat, who: nat -> Executor, n: nat): seq<Metrics>
    requires c > 0
  {
    if n == 0 then [] else Surviving(whole, c, who, n - 1) + Legible(whole, c, who(n - 1), n - 1)
  }

  /** No frame is lost exactly when every chunk was computed remotely. */
  lemma {:induction false} SurvivingIff(whole: seq<Metrics>, c: nat, who: nat -> Executor, n: nat)
    requires c > 0 && n <= ChunkCount(|whole|, c)
    ensures |Surviving(whole, c, who, n)| <= Cut(|whole|, c, n)
    ensures |Surviving(whole, c, who, n)| == Cut(|whole|, c, n) <==> forall i: nat | i < n :: who(i).Remote?
    ensures (forall i: nat | i < n :: who(i).Remote?) ==> Surviving(whole, c, who, n) == whole[..Cut(|whole|, c, n)]
  {
    if n > 0 {
      SurvivingIff(whole, c, who, n - 1);
      CutsGrow(|whole|, c, n - 1);
    }
  }

  lemma AnswerIsSlice(k: Kernel, job: Job, i: nat)
    requires job.Valid() && i < job.Chunks()
    ensures Readable(Answer(k, job.Spec(i), Remote)) == Legible(job.Whole(k), job.c, Remote, i)
  {
    var whole, part := job.Whole(k), Readable(Answer(k, job.Spec(i), Remote));
    ChunkCuts(job.frames, job.c, i);
    AnswerIsPart(k, job, i, 0);
    forall f: nat | f < |part| ensures part[f] == whole[i * job.c + f] {
      AnswerIsPart(k, job, i, f);
    }
  }

  /** Chunk i lies between the cuts i and i + 1. */
  lemma ChunkCuts(frames: nat, c: nat, i: nat)
    requires c > 0 && i < ChunkCount(frames, c)
    ensures Cut(frames, c, i) == i * c && Cut(frames, c, i + 1) == i * c + ChunkFrames(frames, c, i) <= frames
    ensures ChunkFrames(frames, c, i) > 0
  {
    ChunkBounds(frames, c, i);
    MulDistrib(i, 1, c);
  }

  lemma AnswerIsLegible(k: Kernel, job: Job, who: Executor, i: nat)
    requires job.Valid() && i < job.Chunks()
    ensures Readable(Answer(k, job.Spec(i), who)) == Legible(job.Whole(k), job.c, who, i)
  {
    if who.Remote? {
      AnswerIsSlice(k, job, i);
    }
  }

  lemma ConcatenatedStep(rs: seq<VideoResult>, n: nat)
    requires 0 < n <= |rs|
    ensures Concatenated(rs[..n]) == Concatenated(rs[..n - 1]) + Readable(rs[n - 1])
  {
    assert rs[..n][..n - 1] == rs[..n - 1];
  }

  /** Every result can be read as far as it is legible. */
  ghost predicate ReadAsLegible(whole: seq<Metrics>, c: nat, who: nat -> Executor, rs: seq<VideoResult>)
    requires c > 0
  {
    forall i: nat | i < |rs| :: Readable(rs[i]) == Legible(whole, c, who(i), i)
  }

  lemma SurvivingStep(whole: seq<Metrics>, c: nat, who: nat -> Executor, rs: seq<VideoResult>, n: nat)
    requires c > 0 && 0 < n <= |rs| && ReadAsLegible(whole, c, who, rs)
    ensures Surviving(whole, c, who, n) == Surviving(whole, c, who, n - 1) + Readable(rs[n - 1])
  {
  }

  lemma {:induction false} LegibleConcatenate(whole: seq<Metrics>, c: nat, who: nat -> Executor, rs: seq<VideoResult>,
                                              n: nat)
    requires c > 0 && n <= |rs| && ReadAsLegible(whole, c, who, rs)
    ensures Concatenated(rs[..n]) == Surviving(whole, c, who, n)
  {
    if n > 0 {
      LegibleConcatenate(whole, c, who, rs, n - 1);
      ConcatenatedStep(rs, n);
      SurvivingStep(whole, c, who, rs, n);
    }
  }

  lemma AnswersConcatenate(k: Kernel, job: Job, who: nat -> Executor, rs: seq<VideoResult>)
    requires job.Valid() && rs == job.Answers(k, who)
    ensures Concatenated(rs) == Surviving(job.Whole(k), job.c, who, |rs|)
  {
    forall i: nat | i < |rs| ensures Readable(rs[i]) == Legible(job.Whole(k), job.c, who(i), i) {
      AnswerIsLegible(k, job, who(i), i);
    }
    LegibleConcatenate(job.Whole(k), job.c, who, rs, |rs|);
    assert rs[..|rs|] == rs;
  }

  lemma AnswersPass(k: Kernel, job: Job, who: nat -> Executor)
    requires job.Valid()
    ensures var rs := job.Answers(k, who);
            rs != [] && Indexed(rs, ChunkKey) && CheckResults(job.parent, rs, 0) == None
  {
    var rs := job.Answers(k, who);
    ChecksPassIff(job.parent, rs, 0);
    ChunkBounds(job.frames, job.c, 0);
  }

  /**
   * All chunks of a job, analysed separately and put together from answers in any order of arrival: the
   * frames of the chunks computed remotely, in order. The simulation worker's are lost.
   */
  lemma ChunkedAnalysisAssembles(k: Kernel, job: Job, who: nat -> Executor, results: seq<VideoResult>)
    requires job.Valid() && multiset(results) == multiset(job.Answers(k, who))
    ensures AssembleVideo(job.parent, results) == Ok(Surviving(job.Whole(k), job.c, who, job.Chunks()))
  {
    var rs := job.Answers(k, who);
    AnswersPass(k, job, who);
    IndexedIsSorted(rs, ChunkKey);
    SortRestores(results, rs, ChunkKey);
    AnswersConcatenate(k, job, who, rs);
    assert |multiset(results)| == |results| && |multiset(rs)| == |rs|;
  }

  /** The assembled analysis has the right length exactly when every chunk was computed remotely; then it is whole. */
  lemma AnalysisCompleteIff(k: Kernel, job: Job, who: nat -> Executor)
    requires job.Valid()
    ensures |Surviving(job.Whole(k), job.c, who, job.Chunks())| == job.frames <==>
            forall i: nat | i < job.Chunks() :: who(i).Remote?
    ensures (forall i: nat | i < job.Chunks() :: who(i).Remote?) ==>
              Surviving(job.Whole(k), job.c, who, job.Chunks()) == job.Whole(k)
  {
    SurvivingIff(job.Whole(k), job.c, who, job.Chunks());
    ChunkBounds(job.frames, job.c, job.Chunks());
  }

  /** A video of one chunk that the simulation worker analyses, without any failure: no frame arrives. */
  lemma SimulatedChunkIsLost(k: Kernel, job: Job)
    requires job.Valid() && job.frames <= job.c
    ensures AssembleVideo(job.parent, [Answer(k, job.Spec(0), Simulated(None))]) == Ok([]) && job.frames > 0
  {
    DivModUnique(job.frames + job.c - 1, job.c, 1, job.frames - 1);
    var who := (i: nat) => Simulated(None);
    assert job.Answers(k, who) == [Answer(k, job.Spec(0), Simulated(None))];
    ChunkedAnalysisAssembles(k, job, who, job.Answers(k, who));
    assert Surviving(job.Whole(k), job.c, who, 1) == [];
  }

  /**
   * Chunking changes nothing exactly when no frame at a chunk boundary moves against the one before it;
   * in general it changes the motion of just those frames.
   */
  lemma ChunkingHarmlessIff(k: Kernel, video: Buffer, fb: nat, n: nat, c: nat)
    requires c > 0
    ensures ChunkedPass(k, video, fb, n, c) == SinglePass(k, video, fb, n, 0) <==>
            forall f: nat | 0 < f < n && f % c == 0 :: k.motion(FrameAt(video, fb, f - 1), FrameAt(video, fb, f)) == 0.0
    ensures forall f: nat | f < n ::
              var chunked, single := ChunkedPass(k, video, fb, n, c)[f], SinglePass(k, video, fb, n, 0)[f];
              && chunked.frameIndex == single.frameIndex == f && chunked.still == single.still
              && chunked.motionEnergy == (if f % c == 0 then 0.0 else single.motionEnergy)
  {
    var chunked, single := ChunkedPass(k, video, fb, n, c), SinglePass(k, video, fb, n, 0);
    if chunked == single {
      forall f: nat | 0 < f < n && f % c == 0
        ensures k.motion(FrameAt(video, fb, f - 1), FrameAt(video, fb, f)) == 0.0
      {
        assert chunked[f] == single[f];
      }
    }
    if forall f: nat | 0 < f < n && f % c == 0 :: k.motion(FrameAt(video, fb, f - 1), FrameAt(video, fb, f)) == 0.0 {
      forall f: nat | f < n ensures chunked[f] == single[f] {
      }
    }
  }
}
