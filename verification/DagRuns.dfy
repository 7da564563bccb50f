/**
 * Whole runs of one DAG: every sequence of assignments, completions, failures and cancellation that
 * can follow its registration.
 */
module DagRuns {
  import opened Prelude
  import opened Graph
  import opened DagEngine

  datatype Event =
    | Assign(stageId: string, workerId: string)
    | Complete(stageId: string, output: Buffer, workerId: string, attempt: int, now: int)
    | Fail(stageId: string, error: string, workerId: string, attempt: int)
    | Cancel

  /** The engine's reaction to one event; rejected events change nothing. */
  ghost function Step(d: DagState, e: Event): DagState {
    match e
    case Assign(id, w) =>
      if !d.isCancelled && id in d.stages && d.stages[id].status == READY then AssignedState(d, id, w) else d
    case Complete(id, out, w, n, now) => if Rejection(d, id, w, n) == None then CompletedState(d, id, out, now) else d
    case Fail(id, error, _, _) => if FailureIgnored(d, id) then d else FailedState(d, id, error)
    case Cancel => CancelledState(d)
  }

  /** Workers report only on attempts that were handed out. */
  ghost predicate Reported(d: DagState, e: Event) {
    match e
    case Assign(_, _) => true
    case Complete(_, _, _, n, _) => n >= 1
    case Fail(id, _, _, n) => id in d.stages ==> 1 <= n <= d.stages[id].attemptNumber
    case Cancel => true
  }

  ghost function Run(d: DagState, es: seq<Event>): DagState
    decreases |es|
  {
    if es == [] then d else Run(Step(d, es[0]), es[1..])
  }

  ghost predicate LegalRun(d: DagState, es: seq<Event>)
    decreases |es|
  {
    es == [] || (Reported(d, es[0]) && LegalRun(Step(d, es[0]), es[1..]))
  }

  /** What registerDag accepts. */
  ghost predicate Registrable(certified: set<string>, dag: DagDescriptor) {
    StructurallySound(certified, dag) && Acyclic(AdjacencyOf(dag.stages)) && OutputsProduced(dag)
  }

  // ---------------------------------------------------------------- the invariant

  predicate Started(s: Stage) {
    s.attemptNumber >= 1 || s.status in {READY, RUNNING, COMPLETED}
  }

  ghost predicate StageSafe(d: DagState, s: Stage) {
    && (Started(s) ==> DepsCompleted(d.stages, s.descriptor.dependencies))
    && s.attemptNumber <= MAX_STAGE_ATTEMPTS
    && (s.status == PENDING ==> s.attemptNumber == 0)
    && (s.status == READY ==> s.attemptNumber < MAX_STAGE_ATTEMPTS)
    && (s.status in {RUNNING, COMPLETED} ==> s.attemptNumber >= 1)
    && (s.status == FAILED ==> s.attemptNumber == MAX_STAGE_ATTEMPTS)
    && (!d.isCancelled ==> s.status != CANCELLED)
    && (!d.isCancelled && s.status == PENDING ==> !DepsCompleted(d.stages, s.descriptor.dependencies))
  }

  ghost predicate SafeAt(d: DagState, id: string) {
    id in d.stages ==> StageSafe(d, d.stages[id])
  }

  ghost predicate Safe(d: DagState) {
    WellShaped(d) && forall id :: SafeAt(d, id)
  }

  lemma InitiallySafe(certified: set<string>, dag: DagDescriptor)
    requires Registrable(certified, dag)
    ensures Safe(InitialState(dag))
  {
    var d := InitialState(dag);
    FreshStagesShape(dag.stages);
    forall id ensures SafeAt(d, id) {
      if id in d.stages {
        FreshStageSafe(dag, id);
      }
    }
  }

  lemma FreshStageSafe(dag: DagDescriptor, id: string)
    requires DistinctIds(dag.stages) && id in FreshStages(dag.stages)
    ensures StageSafe(InitialState(dag), FreshStages(dag.stages)[id])
  {
    FreshStagesShape(dag.stages);
    var i :| 0 <= i < |dag.stages| && IdsOf(dag.stages)[i] == id;
    var s := dag.stages[i];
    if s.dependencies != [] {
      assert s.dependencies[0] in s.dependencies;
      NothingCompleted(dag, s.dependencies[0]);
    }
  }

  lemma NothingCompleted(dag: DagDescriptor, id: string)
    requires DistinctIds(dag.stages)
    ensures id in FreshStages(dag.stages) ==> FreshStages(dag.stages)[id].status != COMPLETED
  {
    FreshStagesShape(dag.stages);
    if id in FreshStages(dag.stages) {
      var j :| 0 <= j < |dag.stages| && IdsOf(dag.stages)[j] == id;
      assert FreshStages(dag.stages)[id] == FreshStage(dag.stages[j]);
    }
  }

  /** Whether dependencies are complete depends on the set of complete stages only. */
  ghost predicate SameCompleted(a: map<string, Stage>, b: map<string, Stage>) {
    a.Keys == b.Keys && forall id | id in a :: a[id].status == COMPLETED <==> b[id].status == COMPLETED
  }

  lemma SameDeps(a: map<string, Stage>, b: map<string, Stage>, deps: seq<string>)
    requires SameCompleted(a, b)
    ensures DepsCompleted(a, deps) == DepsCompleted(b, deps)
  {
  }

  /** A stage stays safe when no stage completes or ceases to be complete, and its own new state is admissible. */
  lemma StageStaysSafe(d: DagState, after: DagState, k: string)
    requires Safe(d) && SameCompleted(d.stages, after.stages)
    requires k in d.stages ==> after.stages[k].descriptor == d.stages[k].descriptor
    requires after.isCancelled || after.isCancelled == d.isCancelled
    requires k in d.stages ==> AdmissibleChange(d, d.stages[k], after.stages[k], after.isCancelled)
    ensures SafeAt(after, k)
  {
    assert SafeAt(d, k);
    if k in d.stages {
      SameDeps(d.stages, after.stages, d.stages[k].descriptor.dependencies);
    }
  }

  /** No change, a hand-out, a failure of a stage with complete dependencies, or a cancellation. */
  predicate AdmissibleChange(d: DagState, s: Stage, t: Stage, cancelled: bool) {
    || t == s
    || (s.status == READY && t.status == RUNNING && t.attemptNumber == s.attemptNumber + 1)
    || (t.attemptNumber == s.attemptNumber && DepsCompleted(d.stages, s.descriptor.dependencies)
        && s.status != COMPLETED && t.status == if s.attemptNumber < MAX_STAGE_ATTEMPTS then READY else FAILED)
    || (t.attemptNumber == s.attemptNumber && cancelled && t.status == CANCELLED)
  }

  lemma AssignKeepsSafe(d: DagState, id: string, w: string)
    requires Safe(d) && id in d.stages && d.stages[id].status == READY
    ensures Safe(AssignedState(d, id, w))
  {
    var after := AssignedState(d, id, w);
    UpdatedShape(d, id, AssignedStage(d.stages[id], w));
    forall k ensures SafeAt(after, k) {
      StageStaysSafe(d, after, k);
    }
  }

  lemma FailKeepsSafe(d: DagState, id: string, error: string)
    requires Safe(d) && !FailureIgnored(d, id) && DepsCompleted(d.stages, d.stages[id].descriptor.dependencies)
    ensures Safe(FailedState(d, id, error))
  {
    var after := FailedState(d, id, error);
    UpdatedShape(d, id, after.stages[id]);
    forall k ensures SafeAt(after, k) {
      StageStaysSafe(d, after, k);
    }
  }

  lemma CancelKeepsSafe(d: DagState)
    requires Safe(d)
    ensures Safe(CancelledState(d))
  {
    var after := CancelledState(d);
    CancelledShape(d);
    forall k ensures SafeAt(after, k) {
      StageStaysSafe(d, after, k);
    }
  }

  lemma CompleteKeepsSafe(d: DagState, id: string, out: Buffer, now: int)
    requires Safe(d) && id in d.stages && d.stages[id].status != COMPLETED && d.stages[id].attemptNumber >= 1
    ensures Safe(CompletedState(d, id, out, now))
  {
    var after := CompletedState(d, id, out, now);
    var marked := Marked(d, id);
    UpdatedShape(d, id, marked[id]);
    PromotedShape(d.(stages := marked), after);
    forall k ensures SafeAt(after, k) {
      assert SafeAt(d, k) && SafeAt(d, id);
      if k in d.stages {
        CompleteKeepsStageSafe(d, after, id, k);
      }
    }
  }

  lemma CompleteKeepsStageSafe(d: DagState, after: DagState, id: string, k: string)
    requires id in d.stages && d.stages[id].status != COMPLETED && d.stages[id].attemptNumber >= 1
    requires k in d.stages && StageSafe(d, d.stages[k]) && StageSafe(d, d.stages[id])
    requires after.stages == Promote(Marked(d, id)) && after.isCancelled == d.isCancelled
    ensures StageSafe(after, after.stages[k])
  {
    var marked := Marked(d, id);
    var deps := marked[k].descriptor.dependencies;
    assert SameCompleted(marked, after.stages);
    SameDeps(marked, after.stages, deps);
    assert DepsCompleted(d.stages, deps) ==> DepsCompleted(marked, deps);
    assert after.stages[k] == PromoteStage(marked, marked[k]);
  }

  /**
   * failStage looks neither at the status nor at the attempt: a report does no harm exactly when the
   * stage's dependencies are complete. It is never-started stages, of running and of cancelled DAGs
   * alike, that a report makes ready too early.
   */
  lemma FailureSafeIff(d: DagState, id: string, error: string)
    requires Safe(d) && !FailureIgnored(d, id)
    ensures Safe(FailedState(d, id, error)) <==> DepsCompleted(d.stages, d.stages[id].descriptor.dependencies)
  {
    var deps := d.stages[id].descriptor.dependencies;
    if DepsCompleted(d.stages, deps) {
      FailKeepsSafe(d, id, error);
    } else {
      var after := FailedState(d, id, error);
      assert SafeAt(d, id);
      SameDeps(d.stages, after.stages, deps);
      assert !SafeAt(after, id);
    }
  }

  /** Nor does completeStage look at the status: a completion is safe exactly on a stage once handed out. */
  lemma CompletionSafeIff(d: DagState, id: string, out: Buffer, now: int)
    requires Safe(d) && id in d.stages && d.stages[id].status != COMPLETED
    ensures Safe(CompletedState(d, id, out, now)) <==> d.stages[id].attemptNumber >= 1
  {
    var after := CompletedState(d, id, out, now);
    if d.stages[id].attemptNumber >= 1 {
      CompleteKeepsSafe(d, id, out, now);
    } else {
      assert !SafeAt(after, id);
    }
  }

  /** Two stages, the second of which waits for the first. */
  function OneAfterTheOther(): DagDescriptor {
    DagDescriptor("d", [StageDescriptor("a", "k", [], [], "x"), StageDescriptor("b", "k", ["a"], [], "y")], [], [])
  }

  lemma OneAfterTheOtherStages()
    ensures var d := InitialState(OneAfterTheOther());
            && "a" in d.stages && d.stages["a"] == FreshStage(StageDescriptor("a", "k", [], [], "x"))
            && "b" in d.stages && d.stages["b"] == FreshStage(StageDescriptor("b", "k", ["a"], [], "y"))
  {
    var stages := OneAfterTheOther().stages;
    var a, b := stages[0], stages[1];
    assert stages[..1] == [a] && [a][..0] == [];
    assert FreshStages([a]) == map["a" := FreshStage(a)];
    assert FreshStages(stages) == FreshStages([a])["b" := FreshStage(b)];
  }

  /** A report of attempt 0 completes a stage that still waits for its dependency. */
  lemma UnassignedCompletion(w: string)
    ensures var d := InitialState(OneAfterTheOther());
            && "b" in d.stages && d.stages["b"].status == PENDING && Rejection(d, "b", w, 0) == None
            && var after := CompletedState(d, "b", [], 0);
               "b" in after.stages && after.stages["b"].status == COMPLETED
  {
    OneAfterTheOtherStages();
  }

  /** A failure report makes a stage ready that was never started and still waits for its dependency. */
  lemma UnstartedFailure(error: string)
    ensures var d := InitialState(OneAfterTheOther());
            && "b" in d.stages && d.stages["b"].status == PENDING && !FailureIgnored(d, "b")
            && var after := FailedState(d, "b", error);
               && after.stages["b"].status == READY
               && "a" in after.stages && after.stages["a"].status != COMPLETED
  {
    OneAfterTheOtherStages();
  }

  lemma StepKeepsSafe(d: DagState, e: Event)
    requires Safe(d) && Reported(d, e)
    ensures Safe(Step(d, e)) && Step(d, e).descriptor == d.descriptor
  {
    match e
    case Assign(id, w) =>
      if !d.isCancelled && id in d.stages && d.stages[id].status == READY {
        AssignKeepsSafe(d, id, w);
      }
    case Complete(id, out, w, n, now) =>
      if Rejection(d, id, w, n) == None {
        CompleteKeepsSafe(d, id, out, now);
      }
    case Fail(id, error, _, n) =>
      if !FailureIgnored(d, id) {
        assert SafeAt(d, id);
        FailKeepsSafe(d, id, error);
      }
    case Cancel =>
      CancelKeepsSafe(d);
  }

  lemma {:induction false} RunKeepsSafe(d: DagState, es: seq<Event>)
    requires Safe(d) && LegalRun(d, es)
    ensures Safe(Run(d, es)) && Run(d, es).descriptor == d.descriptor
    decreases |es|
  {
    if es != [] {
      StepKeepsSafe(d, es[0]);
      RunKeepsSafe(Step(d, es[0]), es[1..]);
    }
  }

  /**
   * Dependency safety: in every run, a stage that is ready, running or complete, or was ever handed
   * out, has all its dependencies complete, and no stage's attempt number exceeds 3.
   */
  lemma DependencySafety(certified: set<string>, dag: DagDescriptor, es: seq<Event>, id: string)
    requires Registrable(certified, dag) && LegalRun(InitialState(dag), es)
    requires id in Run(InitialState(dag), es).stages
    ensures var d := Run(InitialState(dag), es);
            var s := d.stages[id];
            && (s.status in {READY, RUNNING, COMPLETED} || s.attemptNumber >= 1 ==>
                  DepsCompleted(d.stages, s.descriptor.dependencies))
            && s.attemptNumber <= 3
            && (s.status == FAILED ==> s.attemptNumber == 3)
  {
    InitiallySafe(certified, dag);
    RunKeepsSafe(InitialState(dag), es);
    var d := Run(InitialState(dag), es);
    assert SafeAt(d, id);
  }

  // ---------------------------------------------------------------- completion is final, attempts are bounded

  lemma StepKeepsCompleted(d: DagState, e: Event, id: string)
    requires id in d.stages
    ensures id in Step(d, e).stages
    ensures d.stages[id].status == COMPLETED ==> Step(d, e).stages[id].status == COMPLETED
    ensures d.stages[id].status == COMPLETED ==> Step(d, e).stages[id].attemptNumber == d.stages[id].attemptNumber
  {
  }

  /** COMPLETED is never left, whatever is reported. */
  lemma {:induction false} CompletedIsFinal(d: DagState, es: seq<Event>, id: string)
    requires id in d.stages && d.stages[id].status == COMPLETED
    ensures id in Run(d, es).stages && Run(d, es).stages[id].status == COMPLETED
    decreases |es|
  {
    if es != [] {
      StepKeepsCompleted(d, es[0], id);
      CompletedIsFinal(Step(d, es[0]), es[1..], id);
    }
  }

  predicate IsAssignmentOf(d: DagState, e: Event, id: string) {
    e.Assign? && e.stageId == id && !d.isCancelled && id in d.stages && d.stages[id].status == READY
  }

  predicate IsCompletionOf(d: DagState, e: Event, id: string) {
    e.Complete? && e.stageId == id && Rejection(d, id, e.workerId, e.attempt) == None
  }

  /** How often a run hands the stage out. */
  ghost function Assignments(d: DagState, es: seq<Event>, id: string): nat
    decreases |es|
  {
    if es == [] then 0
    else (if IsAssignmentOf(d, es[0], id) then 1 else 0) + Assignments(Step(d, es[0]), es[1..], id)
  }

  /** How often a run accepts a result for the stage. */
  ghost function Completions(d: DagState, es: seq<Event>, id: string): nat
    decreases |es|
  {
    if es == [] then 0
    else (if IsCompletionOf(d, es[0], id) then 1 else 0) + Completions(Step(d, es[0]), es[1..], id)
  }

  lemma StepCounts(d: DagState, e: Event, id: string)
    requires id in d.stages
    ensures id in Step(d, e).stages
    ensures Step(d, e).stages[id].attemptNumber
            == d.stages[id].attemptNumber + if IsAssignmentOf(d, e, id) then 1 else 0
    ensures (Step(d, e).stages[id].status == COMPLETED) <==>
            (d.stages[id].status == COMPLETED || IsCompletionOf(d, e, id))
    ensures IsCompletionOf(d, e, id) ==> d.stages[id].status != COMPLETED
  {
  }

  /** The attempt number counts assignments exactly; results are accepted at most once. */
  lemma {:induction false} RunCounts(d: DagState, es: seq<Event>, id: string)
    requires id in d.stages
    ensures id in Run(d, es).stages
    ensures Run(d, es).stages[id].attemptNumber == d.stages[id].attemptNumber + Assignments(d, es, id)
    ensures Completions(d, es, id) + (if d.stages[id].status == COMPLETED then 1 else 0)
            == if Run(d, es).stages[id].status == COMPLETED then 1 else 0
    decreases |es|
  {
    if es != [] {
      StepCounts(d, es[0], id);
      RunCounts(Step(d, es[0]), es[1..], id);
    }
  }

  /** In any run a stage is handed out at most 3 times and completes at most once. */
  lemma BoundedAttempts(certified: set<string>, dag: DagDescriptor, es: seq<Event>, id: string)
    requires Registrable(certified, dag) && LegalRun(InitialState(dag), es) && id in InitialState(dag).stages
    ensures Assignments(InitialState(dag), es, id) <= 3
    ensures Completions(InitialState(dag), es, id) <= 1
  {
    FreshStagesShape(dag.stages);
    var i :| 0 <= i < |dag.stages| && IdsOf(dag.stages)[i] == id;
    assert InitialState(dag).stages[id] == FreshStage(dag.stages[i]);
    RunCounts(InitialState(dag), es, id);
    DependencySafety(certified, dag, es, id);
  }

  // ---------------------------------------------------------------- whose results are accepted

  /** The worker a stage was last handed to in a run. */
  ghost function Assignee(d: DagState, es: seq<Event>, id: string, given: Option<string>): Option<string>
    decreases |es|
  {
    if es == [] then given
    else Assignee(Step(d, es[0]), es[1..], id, if IsAssignmentOf(d, es[0], id) then Some(es[0].workerId) else given)
  }

  /** The output in the result a run accepted for the stage. */
  ghost function Output(d: DagState, es: seq<Event>, id: string, given: Option<Buffer>): Option<Buffer>
    decreases |es|
  {
    if es == [] then given
    else Output(Step(d, es[0]), es[1..], id, if IsCompletionOf(d, es[0], id) then Some(es[0].output) else given)
  }

  /** The stage remembers the worker it was last handed to, or has been reset by a failure. */
  ghost predicate Remembers(d: DagState, id: string, given: Option<string>) {
    && id in d.stages
    && var s := d.stages[id];
       && (s.attemptNumber >= 1 <==> given.Some?)
       && (s.assignedWorkerId == None || s.assignedWorkerId == given)
       && (!d.isCancelled && s.status != COMPLETED && s.attemptNumber >= 1 ==>
             (s.assignedWorkerId.Some? <==> s.status != READY))
       && (s.status == PENDING ==> s.attemptNumber == 0)
       && (s.status == READY ==> s.attemptNumber < MAX_STAGE_ATTEMPTS)
       && (!d.isCancelled ==> s.status != CANCELLED)
  }

  lemma {:induction false} RunRemembers(d: DagState, es: seq<Event>, id: string, given: Option<string>)
    requires Remembers(d, id, given) && LegalRun(d, es)
    ensures Remembers(Run(d, es), id, Assignee(d, es, id, given))
    decreases |es|
  {
    if es != [] {
      StepRemembers(d, es[0], id, given);
      RunRemembers(Step(d, es[0]), es[1..], id, if IsAssignmentOf(d, es[0], id) then Some(es[0].workerId) else given);
    }
  }

  lemma StepRemembers(d: DagState, e: Event, id: string, given: Option<string>)
    requires Remembers(d, id, given) && Reported(d, e)
    ensures Remembers(Step(d, e), id, if IsAssignmentOf(d, e, id) then Some(e.workerId) else given)
  {
  }

  /**
   * A result for the current attempt is accepted from nobody but the worker the attempt was handed to
   * exactly while the stage remembers that worker; in a DAG not cancelled, until a failure report makes
   * the stage ready again. From then on anyone who quotes the attempt number is accepted.
   */
  lemma AcceptedFromAssigneeIff(certified: set<string>, dag: DagDescriptor, es: seq<Event>, id: string)
    requires Registrable(certified, dag) && LegalRun(InitialState(dag), es) && id in InitialState(dag).stages
    ensures var d := Run(InitialState(dag), es);
            var holder := Assignee(InitialState(dag), es, id, None);
            && id in d.stages
            && (d.stages[id].attemptNumber >= 1 && d.stages[id].status != COMPLETED ==>
                  && holder.Some?
                  && ((forall w | Rejection(d, id, w, d.stages[id].attemptNumber) == None :: Some(w) == holder) <==>
                        d.stages[id].assignedWorkerId.Some? && holder != Some(""))
                  && (!d.isCancelled ==> (d.stages[id].assignedWorkerId.Some? <==> d.stages[id].status != READY)))
  {
    FreshStagesShape(dag.stages);
    var i :| 0 <= i < |dag.stages| && IdsOf(dag.stages)[i] == id;
    assert InitialState(dag).stages[id] == FreshStage(dag.stages[i]);
    RunRemembers(InitialState(dag), es, id, None);
    var d, holder := Run(InitialState(dag), es), Assignee(InitialState(dag), es, id, None);
    var s := d.stages[id];
    if s.attemptNumber >= 1 && s.status != COMPLETED {
      AnyOtherWorker(d, id, holder.value);
    }
  }

  /** Unless a stage remembers a worker, some other worker's result is accepted. */
  lemma AnyOtherWorker(d: DagState, id: string, holder: string)
    requires id in d.stages && d.stages[id].status != COMPLETED
    requires d.stages[id].assignedWorkerId == None || d.stages[id].assignedWorkerId == Some(holder)
    ensures (forall w | Rejection(d, id, w, d.stages[id].attemptNumber) == None :: w == holder) <==>
            d.stages[id].assignedWorkerId.Some? && holder != ""
  {
    var other := holder + "'";
    assert |other| == |holder| + 1;
    if !(d.stages[id].assignedWorkerId.Some? && holder != "") {
      assert Rejection(d, id, other, d.stages[id].attemptNumber) == None;
    }
  }

  // ---------------------------------------------------------------- deadlock freedom

  lemma ParentsAreDependencies(d: DagState, id: string)
    requires WellShaped(d) && id in d.stages
    ensures Parents(AdjacencyOf(d.descriptor.stages), id) == d.stages[id].descriptor.dependencies
  {
    AdjacencyKeys(d.descriptor.stages);
    var i :| 0 <= i < |d.descriptor.stages| && IdsOf(d.descriptor.stages)[i] == id;
    assert d.descriptor.stages[i] in d.descriptor.stages;
  }

  ghost function PendingStages(d: DagState): set<string> {
    set id | id in d.stages && d.stages[id].status == PENDING
  }

  /** A pending stage waits for another pending stage when nothing is ready, running or failed. */
  lemma PendingWaitsForPending(certified: set<string>, d: DagState, x: string)
    requires StructurallySound(certified, d.descriptor) && Safe(d) && !d.isCancelled
    requires forall id | id in d.stages :: d.stages[id].status in {PENDING, COMPLETED}
    requires x in d.stages && d.stages[x].status == PENDING
    ensures HasParentIn(AdjacencyOf(d.descriptor.stages), PendingStages(d), x)
  {
    var deps := d.stages[x].descriptor.dependencies;
    assert SafeAt(d, x);
    var dep :| dep in deps && !(dep in d.stages && d.stages[dep].status == COMPLETED);
    var i :| 0 <= i < |d.descriptor.stages| && IdsOf(d.descriptor.stages)[i] == x;
    assert d.descriptor.stages[i] in d.descriptor.stages;
    assert ReferencesSound(d.descriptor, d.descriptor.stages[i]);
    ParentsAreDependencies(d, x);
  }

  lemma WaitingIsCyclic(certified: set<string>, d: DagState)
    requires StructurallySound(certified, d.descriptor) && Safe(d) && !d.isCancelled
    requires forall id | id in d.stages :: d.stages[id].status in {PENDING, COMPLETED}
    requires PendingStages(d) != {}
    ensures !Acyclic(AdjacencyOf(d.descriptor.stages))
  {
    var adj, pending := AdjacencyOf(d.descriptor.stages), PendingStages(d);
    forall x | x in pending ensures HasParentIn(adj, pending, x) {
      PendingWaitsForPending(certified, d, x);
    }
    EndlessDescentIsCycle(adj, pending);
  }

  lemma QuietIsDone(certified: set<string>, d: DagState)
    requires Registrable(certified, d.descriptor) && Safe(d) && !d.isCancelled
    requires forall id | id in d.stages :: d.stages[id].status !in {READY, RUNNING, FAILED}
    ensures AllCompleted(d.stages)
  {
    forall id | id in d.stages ensures d.stages[id].status in {PENDING, COMPLETED} {
      assert SafeAt(d, id);
    }
    if PendingStages(d) != {} {
      WaitingIsCyclic(certified, d);
    } else {
      assert forall id | id in d.stages :: id !in PendingStages(d);
    }
  }

  /**
   * Deadlock freedom: in every reachable uncancelled state, if no stage is ready, running or failed
   * then every stage is complete.
   */
  lemma DeadlockFreedom(certified: set<string>, dag: DagDescriptor, es: seq<Event>)
    requires Registrable(certified, dag) && LegalRun(InitialState(dag), es)
    ensures var d := Run(InitialState(dag), es);
            !d.isCancelled && (forall id | id in d.stages :: d.stages[id].status !in {READY, RUNNING, FAILED})
            ==> AllCompleted(d.stages)
  {
    InitiallySafe(certified, dag);
    RunKeepsSafe(InitialState(dag), es);
    var d := Run(InitialState(dag), es);
    if !d.isCancelled && forall id | id in d.stages :: d.stages[id].status !in {READY, RUNNING, FAILED} {
      QuietIsDone(certified, d);
    }
  }

  // ---------------------------------------------------------------- the methods implement the events

  /** One event on a registered DAG, carried out by the engine. */
  method Perform(engine: Engine, dagId: string, e: Event)
    requires engine.Valid() && dagId in engine.dags
    modifies engine
    ensures engine.Valid() && engine.dags == old(engine.dags)[dagId := Step(old(engine.dags)[dagId], e)]
  {
    assert engine.dags == engine.dags[dagId := engine.dags[dagId]];
    match e
    case Assign(id, w) => var _ := engine.AssignStage(dagId, id, w);
    case Complete(id, output, w, attempt, now) => var _, _ := engine.CompleteStage(dagId, id, output, w, attempt, now);
    case Fail(id, error, w, attempt) => var _, _ := engine.FailStage(dagId, id, error, w, attempt);
    case Cancel => var _ := engine.CancelDag(dagId);
  }
}
