/**
 * What a DAG remembers of the run behind it: each event's effect on every stage and every artifact, in
 * terms of the event and the state alone, and what errors, workers and finishing times therefore say.
 */
module DagHistory {
  import opened Prelude
  import opened DagEngine
  import opened DagRuns
  import opened DagArtifacts

  /** What an event means to one stage. */
  datatype Act =
    | Nothing
    | HandedOut(workerId: string)
    | Finished
    | Unblocked
    | Reported(error: string)
    | Stopped

  /** The stage remembers nobody, or the worker itself. */
  predicate Agrees(worker: Option<string>, workerId: string) {
    worker == None || worker.value == "" || worker.value == workerId
  }

  /** A completion report is accepted: the stage is not complete, and worker and attempt are not stale. */
  ghost predicate Accepted(d: DagState, id: string, workerId: string, attempt: int) {
    && id in d.stages && d.stages[id].status != COMPLETED
    && Agrees(d.stages[id].assignedWorkerId, workerId)
    && attempt == d.stages[id].attemptNumber
  }

  /** The stage waits for nothing but the one that completes. */
  ghost predicate WaitsOnlyFor(d: DagState, s: Stage, done: string) {
    && s.status == PENDING
    && forall dep | dep in s.descriptor.dependencies ::
         dep in d.stages && (dep == done || d.stages[dep].status == COMPLETED)
  }

  ghost function ActOf(d: DagState, e: Event, id: string): Act
    requires id in d.stages
  {
    var s := d.stages[id];
    match e
    case Assign(i, w) => if i == id && !d.isCancelled && s.status == READY then HandedOut(w) else Nothing
    case Complete(i, _, w, n, _) =>
      if !Accepted(d, i, w, n) then Nothing
      else if i == id then Finished
      else if WaitsOnlyFor(d, s, i) then Unblocked else Nothing
    case Fail(i, error, _, _) => if i == id && s.status != COMPLETED then Reported(error) else Nothing
    case Cancel => if s.status in {PENDING, READY, RUNNING} then Stopped else Nothing
  }

  function StatusAfter(s: Stage, act: Act): StageStatus {
    match act
    case Nothing => s.status
    case HandedOut(_) => RUNNING
    case Finished => COMPLETED
    case Unblocked => READY
    case Reported(_) => if s.attemptNumber < 3 then READY else FAILED
    case Stopped => CANCELLED
  }

  /** A failure makes a stage forget its worker, unless it was the last attempt. */
  function WorkerAfter(worker: Option<string>, act: Act, attempts: nat): Option<string> {
    match act
    case HandedOut(w) => Some(w)
    case Reported(_) => if attempts < 3 then None else worker
    case _ => worker
  }

  function ErrorAfter(error: Option<string>, act: Act): Option<string> {
    if act.Reported? then Some(act.error) else error
  }

  predicate Follows(s: Stage, act: Act, t: Stage) {
    && t.descriptor == s.descriptor
    && t.status == StatusAfter(s, act)
    && t.assignedWorkerId == WorkerAfter(s.assignedWorkerId, act, s.attemptNumber)
    && t.attemptNumber == s.attemptNumber + (if act.HandedOut? then 1 else 0)
    && t.error == ErrorAfter(s.error, act)
  }

  lemma AcceptedIff(d: DagState, id: string, w: string, n: int)
    ensures Accepted(d, id, w, n) <==> Rejection(d, id, w, n) == None
  {
  }

  lemma CompletionStep(d: DagState, e: Event, id: string)
    requires id in d.stages && e.Complete?
    ensures id in Step(d, e).stages && Follows(d.stages[id], ActOf(d, e, id), Step(d, e).stages[id])
  {
    AcceptedIff(d, e.stageId, e.workerId, e.attempt);
  }

  /** Every event acts on every stage as its act says. */
  lemma StageStep(d: DagState, e: Event, id: string)
    requires id in d.stages
    ensures id in Step(d, e).stages && Follows(d.stages[id], ActOf(d, e, id), Step(d, e).stages[id])
  {
    if e.Complete? {
      CompletionStep(d, e, id);
    }
  }

  /** Which of the four reasons a completion report is ignored for. */
  lemma RejectionIs(d: DagState, id: string, w: string, n: int)
    ensures Rejection(d, id, w, n) == Some(UnknownStage) <==> id !in d.stages
    ensures id in d.stages ==>
              var s := d.stages[id];
              var stale := !Agrees(s.assignedWorkerId, w);
              && (Rejection(d, id, w, n) == Some(DuplicateResult) <==> s.status == COMPLETED)
              && (Rejection(d, id, w, n) == Some(StaleWorker) <==> s.status != COMPLETED && stale)
              && (Rejection(d, id, w, n) == Some(StaleAttempt) <==>
                    s.status != COMPLETED && !stale && n != s.attemptNumber)
  {
  }

  /** Which of the four reasons an assignment is refused for. */
  lemma AssignRejectionIs(dags: map<string, DagState>, dagId: string, id: string)
    ensures AssignRejection(dags, dagId, id) == Some(AssignUnknownDag) <==> dagId !in dags
    ensures dagId in dags ==>
              var d := dags[dagId];
              && (AssignRejection(dags, dagId, id) == Some(AssignCancelledDag) <==> d.isCancelled)
              && (AssignRejection(dags, dagId, id) == Some(AssignUnknownStage) <==> !d.isCancelled && id !in d.stages)
              && (AssignRejection(dags, dagId, id) == Some(AssignNotReady) <==>
                    !d.isCancelled && id in d.stages && d.stages[id].status != READY)
  {
  }

  // ---------------------------------------------------------------- what stages remember of a run

  /** The last failure reported for the stage before it was complete. */
  ghost function LastError(d: DagState, es: seq<Event>, id: string, given: Option<string>): Option<string>
    decreases |es|
  {
    if es == [] then given
    else
      LastError(Step(d, es[0]), es[1..], id, if id in d.stages then ErrorAfter(given, ActOf(d, es[0], id)) else given)
  }

  /** The worker the stage was last handed to, unless a failure made it ready again since. */
  ghost function Worker(d: DagState, es: seq<Event>, id: string, given: Option<string>): Option<string>
    decreases |es|
  {
    if es == [] then given
    else
      Worker(Step(d, es[0]), es[1..], id,
             if id in d.stages then WorkerAfter(given, ActOf(d, es[0], id), d.stages[id].attemptNumber) else given)
  }

  lemma {:induction false} StageRemembers(d: DagState, es: seq<Event>, id: string)
    requires id in d.stages
    ensures id in Run(d, es).stages
    ensures Run(d, es).stages[id].error == LastError(d, es, id, d.stages[id].error)
    ensures Run(d, es).stages[id].assignedWorkerId == Worker(d, es, id, d.stages[id].assignedWorkerId)
    decreases |es|
  {
    if es != [] {
      StageStep(d, es[0], id);
      StageRemembers(Step(d, es[0]), es[1..], id);
    }
  }

  // ---------------------------------------------------------------- cancelled and finished DAGs

  /** When the last stage completed, by the clock of the report that completed it. */
  ghost function FinishedAt(d: DagState, es: seq<Event>, given: Option<int>): Option<int>
    decreases |es|
  {
    if es == [] then given
    else
      FinishedAt(Step(d, es[0]), es[1..],
                 if es[0].Complete? && !AllDone(d) && AllDone(Step(d, es[0])) then Some(es[0].now) else given)
  }

  predicate AllDone(d: DagState) {
    forall id | id in d.stages :: d.stages[id].status == COMPLETED
  }

  /** Stages complete through accepted reports only, and stay complete. */
  lemma DoneStep(d: DagState, e: Event)
    requires d.stages != map[]
    ensures Step(d, e).stages.Keys == d.stages.Keys
    ensures AllDone(d) ==> AllDone(Step(d, e)) && Step(d, e).completedAtMs == d.completedAtMs
    ensures !AllDone(d) && AllDone(Step(d, e)) ==> e.Complete? && Step(d, e).completedAtMs == Some(e.now)
    ensures !AllDone(d) && !AllDone(Step(d, e)) ==> Step(d, e).completedAtMs == d.completedAtMs
  {
    if !e.Complete? {
      SameStages(d, e);
    }
  }

  lemma SameStages(d: DagState, e: Event)
    requires !e.Complete?
    ensures Step(d, e).stages.Keys == d.stages.Keys
    ensures forall id | id in d.stages ::
              Step(d, e).stages[id].status == COMPLETED <==> d.stages[id].status == COMPLETED
  {
  }

  /**
   * In every run, a DAG is marked as cancelled exactly if it was cancelled, and carries the time at which
   * its last stage completed, exactly if all its stages are complete.
   */
  lemma {:induction false} DagTellsRun(d: DagState, es: seq<Event>)
    requires d.stages != map[] && (d.completedAtMs.Some? <==> AllDone(d))
    ensures Run(d, es).isCancelled <==> d.isCancelled || Cancel in es
    ensures Run(d, es).completedAtMs == FinishedAt(d, es, d.completedAtMs)
    ensures Run(d, es).completedAtMs.Some? <==> AllDone(Run(d, es))
    decreases |es|
  {
    if es != [] {
      DoneStep(d, es[0]);
      assert Step(d, es[0]).isCancelled <==> d.isCancelled || es[0] == Cancel;
      assert es == [es[0]] + es[1..];
      DagTellsRun(Step(d, es[0]), es[1..]);
    }
  }

  // ---------------------------------------------------------------- artifacts, however the DAG is wired

  /** The artifact a completed stage stores: its output, counted once for each stage that reads it. */
  ghost predicate IsStored(d: DagState, id: string, output: Buffer, a: Artifact)
    requires id in d.stages
  {
    && a.artifactId == d.stages[id].descriptor.outputArtifactRef && a.producingStageId == id
    && a.dataBuffer == Some(output) && !a.isCleanedUp
    && a.referenceCount == |set i | i in d.stages && a.artifactId in d.stages[i].descriptor.inputArtifactRefs|
  }

  /** An artifact after a stage that names it n times among its inputs has completed. */
  predicate CountedDown(before: Artifact, n: nat, after: Artifact) {
    if n == 0 || before.producingStageId == "__INPUT__" then after == before
    else if before.referenceCount <= n then
      after == before.(referenceCount := 0, isCleanedUp := true, dataBuffer := None)
    else after == before.(referenceCount := before.referenceCount - n)
  }

  /**
   * An accepted completion stores the output under the stage's name for it, over what was there, and then
   * counts down what the stage names as input, its own output included.
   */
  lemma CompletionStores(d: DagState, e: Event, ref: string)
    requires e.Complete? && Accepted(d, e.stageId, e.workerId, e.attempt)
    ensures var s, after := d.stages[e.stageId].descriptor, Step(d, e).artifacts;
            && (ref in after <==> ref in d.artifacts || ref == s.outputArtifactRef)
            && (ref in after ==>
                  exists before ::
                    && (if ref == s.outputArtifactRef then IsStored(d, e.stageId, e.output, before)
                        else ref in d.artifacts && before == d.artifacts[ref])
                    && CountedDown(before, multiset(s.inputArtifactRefs)[ref], after[ref]))
  {
    AcceptedIff(d, e.stageId, e.workerId, e.attempt);
    var s := d.stages[e.stageId].descriptor;
    var stored := Stored(d, e.stageId, e.output);
    ReleaseKeepsInput(stored, s.inputArtifactRefs, ref);
    if ref in stored {
      if stored[ref].producingStageId != INPUT_STAGE {
        ReleaseCounts(stored, s.inputArtifactRefs, ref);
      }
      assert Consumers(d, s.outputArtifactRef)
             == set i | i in d.stages && s.outputArtifactRef in d.stages[i].descriptor.inputArtifactRefs;
      assert CountedDown(stored[ref], multiset(s.inputArtifactRefs)[ref], Step(d, e).artifacts[ref]);
    }
  }

  /** Cancelling empties every artifact; all other events leave artifacts alone. */
  lemma OtherEventsKeepArtifacts(d: DagState, e: Event, ref: string)
    requires !(e.Complete? && Accepted(d, e.stageId, e.workerId, e.attempt))
    ensures ref in Step(d, e).artifacts <==> ref in d.artifacts
    ensures ref in d.artifacts ==>
              Step(d, e).artifacts[ref]
              == if e.Cancel? then d.artifacts[ref].(isCleanedUp := true, dataBuffer := None) else d.artifacts[ref]
  {
    if e.Complete? {
      AcceptedIff(d, e.stageId, e.workerId, e.attempt);
    }
  }
}
