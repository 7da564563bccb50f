/**
 * A workload's progress counters over whole runs: tasks are tracked, results come in, the workload may
 * be cancelled, and everything else happens to the task table in between.
 */
module WorkloadBooks {
  import opened TaskStore
  import opened WorkloadPipeline
  import Fencing

  datatype Books = Books(tasks: Table, workloads: map<string, Workload>)

  datatype Event =
    | Track(workloadId: string, taskId: string)
    | Transact(e: Fencing.Event)
    | Cancel(workloadId: string)

  ghost function Step(b: Books, e: Event): Books {
    match e
    case Track(w, t) => b.(workloads := Tracked(b.workloads, w, t))
    case Cancel(w) => b.(workloads := Cancelled(b.workloads, w))
    case Transact(e) =>
      Books(Fencing.Apply(b.tasks, e),
            if Fencing.IsResult(e) then Settled(b.workloads, e.id, Fencing.OutcomeOf(b.tasks, e)) else b.workloads)
  }

  ghost function Run(b: Books, es: seq<Event>): Books
    decreases |es|
  {
    if es == [] then b else Run(Step(b, es[0]), es[1..])
  }

  /** The event puts a chunk on the workload's books that is not in flight there already. */
  predicate Enters(b: Books, e: Event, w: string) {
    e.Track? && e.workloadId == w && w in b.workloads && e.taskId !in b.workloads[w].inFlightTaskIds
  }

  /** Chunks a cancellation strikes off the workload's books without counting them. */
  function Forgotten(b: Books, e: Event, w: string): nat {
    if e.Cancel? && e.workloadId == w && w in b.workloads then |b.workloads[w].inFlightTaskIds| else 0
  }

  ghost function TotalEntered(b: Books, es: seq<Event>, w: string): nat
    decreases |es|
  {
    if es == [] then 0 else (if Enters(b, es[0], w) then 1 else 0) + TotalEntered(Step(b, es[0]), es[1..], w)
  }

  ghost function TotalForgotten(b: Books, es: seq<Event>, w: string): nat
    decreases |es|
  {
    if es == [] then 0 else Forgotten(b, es[0], w) + TotalForgotten(Step(b, es[0]), es[1..], w)
  }

  lemma StepBalances(b: Books, e: Event, w: string)
    requires w in b.workloads
    ensures w in Step(b, e).workloads
    ensures OnTheBooks(Step(b, e).workloads[w]) + Forgotten(b, e, w)
            == OnTheBooks(b.workloads[w]) + if Enters(b, e, w) then 1 else 0
  {
    var before := b.workloads[w];
    match e
    case Track(w', t) =>
      if w' == w && t in before.inFlightTaskIds {
        assert before.inFlightTaskIds + {t} == before.inFlightTaskIds;
      }
    case Cancel(_) =>
    case Transact(e) =>
      if Fencing.IsResult(e) {
        SettlingConserves(before, e.id, Fencing.OutcomeOf(b.tasks, e));
      }
  }

  /**
   * Completed, failed and in-flight chunks add up to the chunks tracked, less those that were in flight
   * when the workload was cancelled.
   */
  lemma {:induction false} BooksBalance(b: Books, es: seq<Event>, w: string)
    requires w in b.workloads
    ensures w in Run(b, es).workloads
    ensures OnTheBooks(Run(b, es).workloads[w]) + TotalForgotten(b, es, w)
            == OnTheBooks(b.workloads[w]) + TotalEntered(b, es, w)
    decreases |es|
  {
    if es != [] {
      StepBalances(b, es[0], w);
      BooksBalance(Step(b, es[0]), es[1..], w);
    }
  }

  /** Every cancellation of the workload in the run finds nothing in flight. */
  ghost predicate CancelsOnlyIdle(b: Books, es: seq<Event>, w: string)
    decreases |es|
  {
    es == [] || (Forgotten(b, es[0], w) == 0 && CancelsOnlyIdle(Step(b, es[0]), es[1..], w))
  }

  /** No tracked chunk is lost from the books exactly when cancellations find nothing in flight. */
  lemma {:induction false} BooksCompleteIff(b: Books, es: seq<Event>, w: string)
    requires w in b.workloads
    ensures w in Run(b, es).workloads
    ensures OnTheBooks(Run(b, es).workloads[w]) == OnTheBooks(b.workloads[w]) + TotalEntered(b, es, w)
            <==> CancelsOnlyIdle(b, es, w)
  {
    BooksBalance(b, es, w);
    ForgottenIff(b, es, w);
  }

  lemma {:induction false} ForgottenIff(b: Books, es: seq<Event>, w: string)
    ensures TotalForgotten(b, es, w) == 0 <==> CancelsOnlyIdle(b, es, w)
    decreases |es|
  {
    if es != [] {
      ForgottenIff(Step(b, es[0]), es[1..], w);
    }
  }

  /** A result on a chunk in flight that gets past the fences, with the given verdict. */
  predicate Counts(b: Books, e: Event, w: string, isValid: bool) {
    && w in b.workloads && e.Transact? && Fencing.IsResult(e.e) && e.e.isValid == isValid
    && e.e.id in b.workloads[w].inFlightTaskIds && Settles(Fencing.OutcomeOf(b.tasks, e.e))
  }

  ghost function TotalCounted(b: Books, es: seq<Event>, w: string, isValid: bool): nat
    decreases |es|
  {
    if es == [] then 0
    else (if Counts(b, es[0], w, isValid) then 1 else 0) + TotalCounted(Step(b, es[0]), es[1..], w, isValid)
  }

  lemma StepCounts(b: Books, e: Event, w: string)
    requires w in b.workloads
    ensures w in Step(b, e).workloads
    ensures var before, after := b.workloads[w], Step(b, e).workloads[w];
            && after.completedChunks == before.completedChunks + (if Counts(b, e, w, true) then 1 else 0)
            && after.failedChunks == before.failedChunks + (if Counts(b, e, w, false) then 1 else 0)
            && after.totalChunks == before.totalChunks
            && (after.isCancelled <==> before.isCancelled || e == Cancel(w))
  {
  }

  /**
   * In every run, completedChunks counts the valid results on chunks in flight, failedChunks the invalid
   * ones, and the workload is marked as cancelled exactly if it was.
   */
  lemma {:induction false} ColumnsCount(b: Books, es: seq<Event>, w: string)
    requires w in b.workloads
    ensures w in Run(b, es).workloads
    ensures var before, after := b.workloads[w], Run(b, es).workloads[w];
            && after.completedChunks == before.completedChunks + TotalCounted(b, es, w, true)
            && after.failedChunks == before.failedChunks + TotalCounted(b, es, w, false)
            && after.totalChunks == before.totalChunks
            && (after.isCancelled <==> before.isCancelled || Cancel(w) in es)
    decreases |es|
  {
    if es != [] {
      StepCounts(b, es[0], w);
      ColumnsCount(Step(b, es[0]), es[1..], w);
      assert es == [es[0]] + es[1..];
    }
  }

  /** One event, carried out by the pipeline: the methods implement the runs. */
  method Perform(p: Pipeline, e: Event)
    requires p.store.Valid()
    modifies p, p.store
    ensures p.store.Valid()
    ensures Books(p.store.tasks, p.workloads) == Step(Books(old(p.store.tasks), old(p.workloads)), e)
  {
    match e
    case Track(w, t) => p.TrackTask(w, t);
    case Cancel(w) => var _ := p.CancelWorkload(w);
    case Transact(e) => Fencing.Perform(p, e);
  }
}
