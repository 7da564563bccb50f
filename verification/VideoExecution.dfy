/** The pool's queue as the program keeps it, and a whole chunked video analysis run on it. */
module VideoExecution {
  import opened Arithmetic
  import opened Prelude
  import ChunkDispatch
  import opened Requests
  import opened VideoChunks
  import opened VideoTheorems
  import opened VideoPool

  class ConsumerPool {
    var pendingSpecs: seq<VideoSpec>
    var chunkResults: seq<VideoResult>
    var workers: seq<Worker<VideoSpec>>
    ghost var finished: seq<VideoSpec>

    ghost function View(): State<VideoSpec, VideoResult>
      reads this
    {
      State(pendingSpecs, workers, finished, chunkResults)
    }

    constructor (specs: seq<VideoSpec>, concurrency: nat)
      ensures View() == Initial(specs, concurrency)
    {
      pendingSpecs, chunkResults, finished := specs, [], [];
      workers := seq(concurrency, _ => Ready);
    }

    /** The head of a consumer's loop: shift the next specification, or stop. */
    method Shift(w: nat)
      requires w < |workers| && workers[w].Ready?
      modifies this
      ensures View() == Step(old(View()), Pull(w))
    {
      if |pendingSpecs| > 0 {
        var nextSpec := pendingSpecs[0];
        pendingSpecs := pendingSpecs[1..];
        workers := workers[w := Busy(nextSpec)];
      } else {
        workers := workers[w := Stopped];
      }
    }

    /** The end of a consumer's loop body: its dispatch has come back with a result. */
    method Finish(w: nat, chunkRes: VideoResult)
      requires w < |workers| && workers[w].Busy?
      modifies this
      ensures View() == Step(old(View()), Push(w, chunkRes))
    {
      finished := finished + [workers[w].spec];
      chunkResults := chunkResults + [chunkRes];
      workers := workers[w := Ready];
    }

    /** A dispatch that throws ends its consumer. */
    method Crash(w: nat)
      requires w < |workers| && workers[w].Busy?
      modifies this
      ensures View() == Step(old(View()), Fail(w))
    {
      workers := workers[w := Crashed(workers[w].spec)];
    }
  }

  lemma RunExtends<T(!new), R(!new)>(answer: T -> R, specs: seq<T>, concurrency: nat, es: seq<Event<R>>, e: Event<R>)
    requires Run(specs, concurrency, es).Some? && Honest(answer, specs, concurrency, es)
    requires Enabled(Run(specs, concurrency, es).value, e)
    requires e.Push? ==> e.result == answer(Run(specs, concurrency, es).value.workers[e.w].spec)
    ensures Run(specs, concurrency, es + [e]) == Some(Step(Run(specs, concurrency, es).value, e))
    ensures Honest(answer, specs, concurrency, es + [e])
  {
    assert (es + [e])[..|es|] == es;
  }

  /** A dispatch that succeeds: a kernel runs on the chunk's payload, here or on a worker. */
  method Dispatch(k: Kernel, spec: VideoSpec, who: Executor) returns (r: VideoResult)
    ensures r == Answer(k, spec, who)
  {
    var m := spec.metadata;
    var output: Output;
    match who {
      case Remote =>
        output := RunOnWorker(k, spec);
      case Simulated(None) =>
        output := RunOnThread(k, spec);
      case Simulated(Some(inProcess)) =>
        output := Bytes(inProcess);
    }
    r := VideoResult(m.parentWorkloadId, m.chunkIndex, output);
  }

  /** The macOS worker's side: its answer is text. */
  method RunOnWorker(k: Kernel, spec: VideoSpec) returns (output: Output)
    ensures output == RemoteOutput(k, spec)
  {
    var m := spec.metadata;
    var fb := FrameBytes(m.width, m.height, m.channels);
    if fb > 0 && |spec.payload| >= fb {
      var actualFrames := Max(1, Min(m.frameCount, |spec.payload| / fb));
      FramesFit(|spec.payload|, fb, actualFrames);
      var metrics := AnalyzeVideoFrames(k, m.width, m.height, m.channels, actualFrames, m.startFrameIndex,
                                        spec.payload);
      output := Text(Some(metrics));
    } else {
      output := Text(Some([]));
    }
  }

  lemma FramesFit(length: nat, frameBytes: nat, n: nat)
    requires 0 < frameBytes <= length && n <= Max(1, length / frameBytes)
    ensures n * frameBytes <= length
  {
    MulMono(n, Max(1, length / frameBytes), frameBytes);
    assert length == length / frameBytes * frameBytes + length % frameBytes;
  }

  /** The simulation worker's thread: it sends the bytes of its JSON. */
  method RunOnThread(k: Kernel, spec: VideoSpec) returns (output: Output)
    ensures output == SimulatedOutput(k, spec, None)
  {
    var m := spec.metadata;
    if FrameBytes(m.width, m.height, ChannelsOf(m.mode)) > 0 {
      var metrics := AnalyzeFrames(k, m.width, m.height, m.mode, m.frameCount, m.startFrameIndex, spec.payload);
      output := Bytes(k.json(metrics));
    } else {
      output := Bytes([]);
    }
  }

  /** Consumers have crashed on failing dispatches only, and nothing that fails has been finished. */
  ghost predicate Separated(s: State<VideoSpec, VideoResult>, dispatch: nat -> Option<Executor>) {
    && (forall i | 0 <= i < |s.workers| && s.workers[i].Crashed? ::
          !dispatch(s.workers[i].spec.metadata.chunkIndex).Some?)
    && (forall j | 0 <= j < |s.finished| :: dispatch(s.finished[j].metadata.chunkIndex).Some?)
  }

  /** If nobody has crashed, no dispatch was to fail; if somebody has, some dispatch was. */
  lemma CrashedIff(job: Job, concurrency: nat, es: seq<Event<VideoResult>>, dispatch: nat -> Option<Executor>)
    requires job.Valid() && concurrency > 0 && Run(job.Specs(), concurrency, es).Some?
    requires var s := Run(job.Specs(), concurrency, es).value;
             Separated(s, dispatch) && forall i | 0 <= i < |s.workers| :: s.workers[i].Stopped? || s.workers[i].Crashed?
    ensures var s := Run(job.Specs(), concurrency, es).value;
            && (AllStopped(s) <==> forall i | 0 <= i < |s.workers| :: !s.workers[i].Crashed?)
            && (AllStopped(s) <==> forall i: nat | i < job.Chunks() :: dispatch(i).Some?)
  {
    var s, specs := Run(job.Specs(), concurrency, es).value, job.Specs();
    if AllStopped(s) {
      StoppedIsComplete(specs, concurrency, es);
      forall i: nat | i < job.Chunks() ensures dispatch(i).Some? {
        assert specs[i] in multiset(s.finished);
        var j :| 0 <= j < |s.finished| && s.finished[j] == specs[i];
        assert specs[i].metadata.chunkIndex == i;
      }
    } else {
      RunWorkers(specs, concurrency, es);
      var i: nat :| i < |s.workers| && s.workers[i].Crashed?;
      var k := FailingDispatch(job, concurrency, es, dispatch, i);
    }
  }

  lemma FailingDispatch(job: Job, concurrency: nat, es: seq<Event<VideoResult>>, dispatch: nat -> Option<Executor>,
                        i: nat)
    returns (k: nat)
    requires job.Valid() && Run(job.Specs(), concurrency, es).Some?
    requires var s := Run(job.Specs(), concurrency, es).value;
             Separated(s, dispatch) && i < |s.workers| && s.workers[i].Crashed?
    ensures k < job.Chunks() && !dispatch(k).Some?
  {
    var s, specs := Run(job.Specs(), concurrency, es).value, job.Specs();
    HeldIsSpec(specs, concurrency, es, i);
    k :| k < |specs| && specs[k] == s.workers[i].spec;
    assert specs[k].metadata.chunkIndex == k;
  }

  lemma RunWorkers<T(!new), R(!new)>(specs: seq<T>, concurrency: nat, es: seq<Event<R>>)
    requires Run(specs, concurrency, es).Some? && concurrency > 0
    ensures Run(specs, concurrency, es).value.workers != []
  {
    if es != [] {
      RunWorkers(specs, concurrency, es[..|es| - 1]);
    }
  }

  /** What a consumer holds is one of the original specifications. */
  lemma HeldIsSpec<T(!new), R(!new)>(specs: seq<T>, concurrency: nat, es: seq<Event<R>>, i: nat)
    requires Run(specs, concurrency, es).Some? && i < |Run(specs, concurrency, es).value.workers|
    requires var w := Run(specs, concurrency, es).value.workers[i]; w.Busy? || w.Crashed?
    ensures Run(specs, concurrency, es).value.workers[i].spec in specs
  {
    var s := Run(specs, concurrency, es).value;
    var x := s.workers[i].spec;
    PoolPartitions(specs, concurrency, es, x);
    HeldAtLeast(s.workers, i);
    assert multiset(specs)[x] > 0;
  }

  lemma {:induction false} HeldAtLeast<T(!new)>(workers: seq<Worker<T>>, i: nat)
    requires i < |workers| && (workers[i].Busy? || workers[i].Crashed?)
    ensures Held(workers, workers[i].spec) >= 1
  {
    if i < |workers| - 1 {
      HeldAtLeast(workers[..|workers| - 1], i);
    }
  }

  /** Who computes each chunk, for those whose dispatch comes back. */
  function Executors(dispatch: nat -> Option<Executor>): nat -> Executor {
    (i: nat) => if dispatch(i).Some? then dispatch(i).value else Remote
  }

  /**
   * The pool run to its end on a job; which consumer proceeds next is left open. All results come back
   * exactly when every chunk's dispatch succeeds.
   */
  method RunPool(k: Kernel, job: Job, concurrency: nat, dispatch: nat -> Option<Executor>)
    returns (results: Option<seq<VideoResult>>)
    requires job.Valid() && concurrency > 0
    ensures results.Some? <==> forall i: nat | i < job.Chunks() :: dispatch(i).Some?
    ensures results.Some? ==>
              AssembleVideo(job.parent, results.value)
              == Ok(Surviving(job.Whole(k), job.c, Executors(dispatch), job.Chunks()))
  {
    var pool := new ConsumerPool(job.Specs(), concurrency);
    ghost var answer := AnswerOf(k, Executors(dispatch));
    ghost var es: seq<Event<VideoResult>> := [];
    while exists w: nat :: w < |pool.workers| && (pool.workers[w].Ready? || pool.workers[w].Busy?)
      invariant Run(job.Specs(), concurrency, es) == Some(pool.View()) && Honest(answer, job.Specs(), concurrency, es)
      invariant Separated(pool.View(), dispatch)
      decreases Remaining(pool.View())
    {
      var w: nat :| w < |pool.workers| && (pool.workers[w].Ready? || pool.workers[w].Busy?);
      ghost var e := Turn(pool, w, answer, dispatch);
      RunExtends(answer, job.Specs(), concurrency, es, e);
      StepDecreases(pool.View(), e);
      StaysSeparated(pool.View(), e, dispatch);
      Proceed(k, pool, w, dispatch);
      es := es + [e];
    }
    CrashedIff(job, concurrency, es, dispatch);
    if exists w: nat :: w < |pool.workers| && pool.workers[w].Crashed? {
      return None;
    }
    PoolResultIsExact(k, job, Executors(dispatch), concurrency, es);
    results := Some(pool.chunkResults);
  }

  /** The event a consumer's next turn is. */
  ghost function Turn(pool: ConsumerPool, w: nat, answer: VideoSpec -> VideoResult, dispatch: nat -> Option<Executor>)
    : (e: Event<VideoResult>)
    requires w < |pool.workers| && (pool.workers[w].Ready? || pool.workers[w].Busy?)
    reads pool
    ensures Enabled(pool.View(), e) && e.w == w && (e.Push? ==> e.result == answer(pool.workers[w].spec))
  {
    if pool.workers[w].Ready? then Pull(w)
    else if dispatch(pool.workers[w].spec.metadata.chunkIndex).Some? then Push(w, answer(pool.workers[w].spec))
    else Fail(w)
  }

  lemma StaysSeparated(s: State<VideoSpec, VideoResult>, e: Event<VideoResult>, dispatch: nat -> Option<Executor>)
    requires Separated(s, dispatch) && Enabled(s, e)
    requires e.Push? ==> dispatch(s.workers[e.w].spec.metadata.chunkIndex).Some?
    requires e.Fail? ==> !dispatch(s.workers[e.w].spec.metadata.chunkIndex).Some?
    ensures Separated(Step(s, e), dispatch)
  {
  }

  /** A consumer's next turn: take a specification or stop, or get a dispatch back. */
  method Proceed(k: Kernel, pool: ConsumerPool, w: nat, dispatch: nat -> Option<Executor>)
    requires w < |pool.workers| && (pool.workers[w].Ready? || pool.workers[w].Busy?)
    modifies pool
    ensures pool.View() == Step(old(pool.View()), old(Turn(pool, w, AnswerOf(k, Executors(dispatch)), dispatch)))
  {
    if pool.workers[w].Ready? {
      pool.Shift(w);
    } else if dispatch(pool.workers[w].spec.metadata.chunkIndex).Some? {
      var chunkRes := Dispatch(k, pool.workers[w].spec, dispatch(pool.workers[w].spec.metadata.chunkIndex).value);
      pool.Finish(w, chunkRes);
    } else {
      pool.Crash(w);
    }
  }

  /**
   * From the request to the reply: the frames of one pass except for motion at chunk starts, exactly
   * when dimensions and buffer are sane and every chunk's dispatch comes back from a remote worker.
   * Whatever the simulation worker computed makes the length check fail.
   */
  method ExecuteChunkedVideoAnalysis(k: Kernel, parent: string, width: int, height: int, mode: string, totalFrames: int,
                                     chunkSize: int, video: Buffer, effectiveWorkerCount: nat, isForceSwarm: bool,
                                     dispatch: nat -> Option<Executor>)
    returns (r: Reply<seq<Metrics>, VideoError>)
    ensures r == Thrown(InvalidDimensions) <==> (width <= 0 || height <= 0 || totalFrames <= 0)
    ensures width > 0 && height > 0 && totalFrames > 0 ==>
              var fb, c := FrameBytes(width, height, ChannelsOf(mode)), Max(1, chunkSize);
              && (r == Thrown(ShortBuffer) <==> |video| < totalFrames * fb)
              && (|video| >= totalFrames * fb ==>
                    r == if forall i: nat | i < ChunkCount(totalFrames, c) :: dispatch(i) == Some(Remote)
                         then COMPLETED(ChunkedPass(k, video, fb, totalFrames, c)) else Failure(isForceSwarm))
  {
    var channels := ChannelsOf(mode);
    var partitioned := PartitionVideoFrames(parent, width, height, channels, mode, totalFrames, chunkSize, video);
    if partitioned.Err? {
      return Thrown(partitioned.error);
    }
    var job := Job(parent, width, height, mode, totalFrames, Max(1, chunkSize), video);
    FrameBytesPositive(width, height, channels);
    assert partitioned.value == job.Specs();
    var chunkResults := RunPool(k, job, Max(1, effectiveWorkerCount), dispatch);
    if chunkResults == None {
      return Failure(isForceSwarm);
    }
    ghost var who := Executors(dispatch);
    assert forall i: nat | i < job.Chunks() :: who(i) == dispatch(i).value;
    AnalysisCompleteIff(k, job, who);
    var assembled := AssembleVideoAnalysis(parent, chunkResults.value);
    if |assembled.value| != totalFrames {
      return Failure(isForceSwarm);
    }
    r := COMPLETED(assembled.value);
  }

  // ---------------------------------------------------------------- with the retries of each dispatch

  /** Who computes a chunk whose dispatch comes to these tries. */
  function ExecutorOf(tries: seq<ChunkDispatch.Try>, inProcess: Option<Buffer>): Option<Executor> {
    match ChunkDispatch.Dispatch(true, 0, 1, tries)
    case Rejected => None
    case Delivered(last) => Some(if last.Simulated? then Simulated(inProcess) else Remote)
  }

  /** A dispatch comes back from a remote worker exactly if its first try does. */
  lemma RemoteIffFirst(tries: seq<ChunkDispatch.Try>, inProcess: Option<Buffer>)
    requires |tries| == ChunkDispatch.MAX_TRIES
    ensures ExecutorOf(tries, inProcess) == Some(Remote) <==> tries[0].Answered? && tries[0].isValid
  {
    ChunkDispatch.RemoteDeliversFirst(0, tries);
    ChunkDispatch.DeliveredIsHeard(true, 0, 1, tries);
  }

  /** So an analysis is complete exactly if a remote worker answers for every chunk on the first try. */
  lemma FirstTriesDecide(tries: nat -> seq<ChunkDispatch.Try>, inProcess: nat -> Option<Buffer>, chunks: nat)
    requires forall i: nat | i < chunks :: |tries(i)| == ChunkDispatch.MAX_TRIES
    ensures (forall i: nat | i < chunks :: ExecutorOf(tries(i), inProcess(i)) == Some(Remote)) <==>
            forall i: nat | i < chunks :: tries(i)[0].Answered? && tries(i)[0].isValid
  {
    forall i: nat | i < chunks
      ensures ExecutorOf(tries(i), inProcess(i)) == Some(Remote) <==> tries(i)[0].Answered? && tries(i)[0].isValid
    {
      RemoteIffFirst(tries(i), inProcess(i));
    }
  }
}
