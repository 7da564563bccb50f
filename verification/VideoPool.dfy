/**
 * The dynamic consumer pool: concurrent loops that shift specifications off one queue, dispatch them,
 * and push the results, under every interleaving.
 */
module VideoPool {
  import opened Prelude
  import opened VideoChunks
  import opened VideoTheorems

  /** A consumer between awaits. A dispatch that throws ends its consumer, and its specification with it. */
  datatype Worker<T> = Ready | Busy(spec: T) | Stopped | Crashed(spec: T)

  /** finished[j] is the specification results[j] answers; the program does not keep it. */
  datatype State<T, R> = State(pending: seq<T>, workers: seq<Worker<T>>, finished: seq<T>, results: seq<R>)

  datatype Event<R> = Pull(w: nat) | Push(w: nat, result: R) | Fail(w: nat)

  function Initial<T, R>(specs: seq<T>, concurrency: nat): State<T, R> {
    State(specs, seq(concurrency, _ => Ready), [], [])
  }

  predicate Enabled<T, R>(s: State<T, R>, e: Event<R>) {
    e.w < |s.workers| && if e.Pull? then s.workers[e.w].Ready? else s.workers[e.w].Busy?
  }

  function Step<T, R>(s: State<T, R>, e: Event<R>): State<T, R>
    requires Enabled(s, e)
  {
    match e
    case Pull(w) =>
      if s.pending == [] then s.(workers := s.workers[w := Stopped])
      else s.(pending := s.pending[1..], workers := s.workers[w := Busy(s.pending[0])])
    case Push(w, result) =>
      s.(workers := s.workers[w := Ready], finished := s.finished + [s.workers[w].spec],
         results := s.results + [result])
    case Fail(w) => s.(workers := s.workers[w := Crashed(s.workers[w].spec)])
  }

  /** The state after a run; None if some event was not possible when it was to happen. */
  function Run<T, R>(specs: seq<T>, concurrency: nat, es: seq<Event<R>>): Option<State<T, R>> {
    if es == [] then Some(Initial(specs, concurrency))
    else
      var before := Run(specs, concurrency, es[..|es| - 1]);
      if before.Some? && Enabled(before.value, es[|es| - 1]) then Some(Step(before.value, es[|es| - 1])) else None
  }

  // ---------------------------------------------------------------- conservation

  predicate Holds<T(==)>(w: Worker<T>, x: T) {
    (w.Busy? || w.Crashed?) && w.spec == x
  }

  function One(b: bool): nat {
    if b then 1 else 0
  }

  /** How many consumers hold x. */
  function Held<T(==)>(workers: seq<Worker<T>>, x: T): nat {
    if workers == [] then 0 else Held(workers[..|workers| - 1], x) + One(Holds(workers[|workers| - 1], x))
  }

  function Count<T(==)>(s: seq<T>, x: T): nat {
    if s == [] then 0 else Count(s[..|s| - 1], x) + One(s[|s| - 1] == x)
  }

  lemma {:induction false} CountIsMultiplicity<T(!new)>(s: seq<T>, x: T)
    ensures Count(s, x) == multiset(s)[x]
  {
    if s != [] {
      CountIsMultiplicity(s[..|s| - 1], x);
      assert s == s[..|s| - 1] + [s[|s| - 1]];
    }
  }

  lemma CountExtends<T(!new)>(s: seq<T>, y: T, x: T)
    ensures Count(s + [y], x) == Count(s, x) + One(y == x)
  {
    assert (s + [y])[..|s|] == s;
  }

  lemma {:induction false} HeldUpdate<T(!new)>(workers: seq<Worker<T>>, w: nat, to: Worker<T>, x: T)
    requires w < |workers|
    ensures Held(workers[w := to], x) == Held(workers, x) - One(Holds(workers[w], x)) + One(Holds(to, x))
  {
    var n := |workers| - 1;
    if w < n {
      HeldUpdate(workers[..n], w, to, x);
      assert workers[w := to][..n] == workers[..n][w := to];
    } else {
      assert workers[w := to][..n] == workers[..n];
    }
  }

  lemma {:induction false} NothingHeld<T(!new)>(workers: seq<Worker<T>>, x: T)
    requires forall i | 0 <= i < |workers| :: workers[i].Ready? || workers[i].Stopped?
    ensures Held(workers, x) == 0
  {
    if workers != [] {
      NothingHeld(workers[..|workers| - 1], x);
    }
  }

  /** How many specifications have been taken off the queue. */
  function Taken<T, R>(specs: seq<T>, s: State<T, R>): int {
    |specs| - |s.pending|
  }

  /**
   * The queue is what is left of the original one after taking some from the front, in order; each
   * specification taken is with one consumer or finished, as often as it was taken.
   */
  ghost predicate Conserved<T, R>(specs: seq<T>, s: State<T, R>, x: T) {
    && 0 <= Taken(specs, s) && s.pending == specs[Taken(specs, s)..]
    && Count(specs[..Taken(specs, s)], x) == Held(s.workers, x) + Count(s.finished, x)
    && |s.results| == |s.finished|
    && (forall i | 0 <= i < |s.workers| && s.workers[i].Stopped? :: s.pending == [])
  }

  lemma PullConserves<T(!new), R(!new)>(specs: seq<T>, s: State<T, R>, e: Event<R>, x: T)
    requires Conserved(specs, s, x) && Enabled(s, e) && e.Pull? && s.pending != []
    ensures Conserved(specs, Step(s, e), x)
  {
    var k := Taken(specs, s);
    HeldUpdate(s.workers, e.w, Busy(s.pending[0]), x);
    CountExtends(specs[..k], specs[k], x);
    assert specs[..k] + [specs[k]] == specs[..k + 1];
    assert specs[k..][1..] == specs[k + 1..];
  }

  lemma PushConserves<T(!new), R(!new)>(specs: seq<T>, s: State<T, R>, e: Event<R>, x: T)
    requires Conserved(specs, s, x) && Enabled(s, e) && e.Push?
    ensures Conserved(specs, Step(s, e), x)
  {
    HeldUpdate(s.workers, e.w, Ready, x);
    CountExtends(s.finished, s.workers[e.w].spec, x);
  }

  lemma StepConserves<T(!new), R(!new)>(specs: seq<T>, s: State<T, R>, e: Event<R>, x: T)
    requires Conserved(specs, s, x) && Enabled(s, e)
    ensures Conserved(specs, Step(s, e), x)
  {
    if e.Push? {
      PushConserves(specs, s, e, x);
    } else if e.Pull? && s.pending != [] {
      PullConserves(specs, s, e, x);
    } else {
      HeldUpdate(s.workers, e.w, Step(s, e).workers[e.w], x);
    }
  }

  lemma {:induction false} RunConserves<T(!new), R(!new)>(specs: seq<T>, concurrency: nat, es: seq<Event<R>>, x: T)
    requires Run(specs, concurrency, es).Some?
    ensures Conserved(specs, Run(specs, concurrency, es).value, x)
    ensures |Run(specs, concurrency, es).value.workers| == concurrency
  {
    if es == [] {
      var s: State<T, R> := Initial(specs, concurrency);
      NothingHeld(s.workers, x);
    } else {
      RunConserves(specs, concurrency, es[..|es| - 1], x);
      StepConserves(specs, Run(specs, concurrency, es[..|es| - 1]).value, es[|es| - 1], x);
    }
  }

  /**
   * Under every interleaving, queued, held and finished specifications partition the original ones, and
   * the queue is still in its original order.
   */
  lemma PoolPartitions<T(!new), R(!new)>(specs: seq<T>, concurrency: nat, es: seq<Event<R>>, x: T)
    requires Run(specs, concurrency, es).Some?
    ensures var s := Run(specs, concurrency, es).value;
            && multiset(s.pending)[x] + Held(s.workers, x) + multiset(s.finished)[x] == multiset(specs)[x]
            && |s.pending| <= |specs| && s.pending == specs[|specs| - |s.pending|..]
  {
    RunConserves(specs, concurrency, es, x);
    var s := Run(specs, concurrency, es).value;
    var k := Taken(specs, s);
    assert specs == specs[..k] + specs[k..];
    assert multiset(specs) == multiset(specs[..k]) + multiset(specs[k..]);
    CountIsMultiplicity(specs[..k], x);
    CountIsMultiplicity(s.finished, x);
  }

  /** Promise.all has resolved. */
  ghost predicate AllStopped<T, R>(s: State<T, R>) {
    s.workers != [] && forall i | 0 <= i < |s.workers| :: s.workers[i].Stopped?
  }

  /** Once every consumer has stopped, each specification has been finished exactly once. */
  lemma StoppedIsComplete<T(!new), R(!new)>(specs: seq<T>, concurrency: nat, es: seq<Event<R>>)
    requires Run(specs, concurrency, es).Some? && AllStopped(Run(specs, concurrency, es).value)
    ensures multiset(Run(specs, concurrency, es).value.finished) == multiset(specs)
  {
    var s := Run(specs, concurrency, es).value;
    forall x ensures multiset(s.finished)[x] == multiset(specs)[x] {
      PoolPartitions(specs, concurrency, es, x);
      RunConserves(specs, concurrency, es, x);
      NothingHeld(s.workers, x);
      assert s.workers[0].Stopped?;
    }
  }

  // ---------------------------------------------------------------- termination

  /** Events a consumer can still cause without taking another specification. */
  function Weight<T>(w: Worker<T>): nat {
    match w case Ready => 1 case Busy(_) => 2 case Stopped => 0 case Crashed(_) => 0
  }

  function Weights<T>(workers: seq<Worker<T>>): nat {
    if workers == [] then 0 else Weights(workers[..|workers| - 1]) + Weight(workers[|workers| - 1])
  }

  lemma {:induction false} WeightsUpdate<T(!new)>(workers: seq<Worker<T>>, w: nat, to: Worker<T>)
    requires w < |workers|
    ensures Weights(workers[w := to]) == Weights(workers) - Weight(workers[w]) + Weight(to)
  {
    var n := |workers| - 1;
    if w < n {
      WeightsUpdate(workers[..n], w, to);
      assert workers[w := to][..n] == workers[..n][w := to];
    } else {
      assert workers[w := to][..n] == workers[..n];
    }
  }

  function Remaining<T, R>(s: State<T, R>): nat {
    2 * |s.pending| + Weights(s.workers)
  }

  lemma StepDecreases<T(!new), R(!new)>(s: State<T, R>, e: Event<R>)
    requires Enabled(s, e)
    ensures Remaining(Step(s, e)) < Remaining(s)
  {
    WeightsUpdate(s.workers, e.w, Step(s, e).workers[e.w]);
  }

  lemma {:induction false} ReadyWeights<T(!new)>(workers: seq<Worker<T>>)
    requires forall i | 0 <= i < |workers| :: workers[i].Ready?
    ensures Weights(workers) == |workers|
  {
    if workers != [] {
      ReadyWeights(workers[..|workers| - 1]);
    }
  }

  /** No run has more than two events per specification and one per consumer. */
  lemma {:induction false} RunsAreShort<T(!new), R(!new)>(specs: seq<T>, concurrency: nat, es: seq<Event<R>>)
    requires Run(specs, concurrency, es).Some?
    ensures |es| + Remaining(Run(specs, concurrency, es).value) <= 2 * |specs| + concurrency
  {
    if es == [] {
      var s: State<T, R> := Initial(specs, concurrency);
      ReadyWeights(s.workers);
    } else {
      RunsAreShort(specs, concurrency, es[..|es| - 1]);
      StepDecreases(Run(specs, concurrency, es[..|es| - 1]).value, es[|es| - 1]);
    }
  }

  // ---------------------------------------------------------------- results

  function Mapped<T, R>(f: T -> R, s: seq<T>): (r: seq<R>)
    ensures |r| == |s| && forall i | 0 <= i < |s| :: r[i] == f(s[i])
  {
    seq(|s|, i requires 0 <= i < |s| => f(s[i]))
  }

  function Without<T>(s: seq<T>, j: nat): seq<T>
    requires j < |s|
  {
    s[..j] + s[j + 1..]
  }

  lemma WithoutMultiset<T(!new)>(s: seq<T>, j: nat)
    requires j < |s|
    ensures multiset(Without(s, j)) == multiset(s) - multiset{s[j]}
    ensures multiset(s) == multiset(Without(s, j)) + multiset{s[j]}
  {
    assert s == s[..j] + [s[j]] + s[j + 1..];
  }

  lemma {:induction false} MappedPermutes<T(!new), R(!new)>(f: T -> R, a: seq<T>, b: seq<T>)
    requires multiset(a) == multiset(b)
    ensures multiset(Mapped(f, a)) == multiset(Mapped(f, b))
    decreases |a|
  {
    assert |multiset(a)| == |a| && |multiset(b)| == |b|;
    if a != [] {
      assert a[0] in multiset(b);
      var j: nat :| j < |b| && b[j] == a[0];
      WithoutMultiset(a, 0);
      WithoutMultiset(b, j);
      MappedPermutes(f, Without(a, 0), Without(b, j));
      MappedWithout(f, a, 0);
      MappedWithout(f, b, j);
    }
  }

  lemma MappedWithout<T(!new), R(!new)>(f: T -> R, s: seq<T>, j: nat)
    requires j < |s|
    ensures multiset(Mapped(f, s)) == multiset(Mapped(f, Without(s, j))) + multiset{f(s[j])}
  {
    assert Mapped(f, Without(s, j)) == Without(Mapped(f, s), j);
    WithoutMultiset(Mapped(f, s), j);
  }

  /** Every pushed result answers the specification its consumer held. */
  ghost predicate Honest<T, R>(answer: T -> R, specs: seq<T>, concurrency: nat, es: seq<Event<R>>) {
    es != [] ==>
      var before := Run(specs, concurrency, es[..|es| - 1]);
      var e := es[|es| - 1];
      && Honest(answer, specs, concurrency, es[..|es| - 1])
      && (before.Some? && Enabled(before.value, e) && e.Push? ==> e.result == answer(before.value.workers[e.w].spec))
  }

  lemma {:induction false} ResultsAnswer<T(!new), R(!new)>(answer: T -> R, specs: seq<T>, concurrency: nat,
                                                           es: seq<Event<R>>)
    requires Run(specs, concurrency, es).Some? && Honest(answer, specs, concurrency, es)
    ensures Run(specs, concurrency, es).value.results == Mapped(answer, Run(specs, concurrency, es).value.finished)
  {
    if es != [] {
      ResultsAnswer(answer, specs, concurrency, es[..|es| - 1]);
    }
  }

  /** The answer to a specification, by whoever its chunk went to. */
  function AnswerOf(k: Kernel, who: nat -> Executor): VideoSpec -> VideoResult {
    (spec: VideoSpec) => Answer(k, spec, who(spec.metadata.chunkIndex))
  }

  /**
   * However the consumers interleave, once all of them have stopped the assembled analysis is that of one
   * pass over the video, except for the motion of each chunk's first frame and for the frames of chunks the
   * simulation worker computed, which are missing.
   */
  lemma PoolResultIsExact(k: Kernel, job: Job, who: nat -> Executor, concurrency: nat, es: seq<Event<VideoResult>>)
    requires job.Valid() && Run(job.Specs(), concurrency, es).Some?
    requires Honest(AnswerOf(k, who), job.Specs(), concurrency, es)
    requires AllStopped(Run(job.Specs(), concurrency, es).value)
    ensures AssembleVideo(job.parent, Run(job.Specs(), concurrency, es).value.results)
            == Ok(Surviving(job.Whole(k), job.c, who, job.Chunks()))
  {
    var answer := AnswerOf(k, who);
    var s := Run(job.Specs(), concurrency, es).value;
    StoppedIsComplete(job.Specs(), concurrency, es);
    ResultsAnswer(answer, job.Specs(), concurrency, es);
    MappedPermutes(answer, s.finished, job.Specs());
    assert Mapped(answer, job.Specs()) == job.Answers(k, who);
    ChunkedAnalysisAssembles(k, job, who, s.results);
  }
}
