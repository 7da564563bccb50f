/**
 * DagEngine: validation of a staged workload, the stage state machine, and the reference-counted
 * intermediate artifacts. Every method is given by a function on the state of one DAG.
 */
module DagEngine {
  import opened Prelude
  import opened Graph

  /** The producer recorded for artifacts that are inputs of the whole DAG. */
  const INPUT_STAGE := "__INPUT__"

  const MAX_STAGE_ATTEMPTS := 3

  datatype StageStatus = PENDING | READY | RUNNING | COMPLETED | FAILED | CANCELLED

  datatype StageDescriptor = StageDescriptor(
    stageId: string,
    kernelId: string,
    dependencies: seq<string>,
    inputArtifactRefs: seq<string>,
    outputArtifactRef: string)

  datatype InputArtifact = InputArtifact(artifactId: string, dataBuffer: Option<Buffer>)

  datatype DagDescriptor = DagDescriptor(
    dagId: string,
    stages: seq<StageDescriptor>,
    inputArtifacts: seq<InputArtifact>,
    outputArtifactRefs: seq<string>)

  datatype Stage = Stage(
    descriptor: StageDescriptor,
    status: StageStatus,
    assignedWorkerId: Option<string>,
    attemptNumber: nat,
    error: Option<string>)

  datatype Artifact = Artifact(
    artifactId: string,
    producingStageId: string,
    dataBuffer: Option<Buffer>,
    referenceCount: nat,
    isCleanedUp: bool)

  datatype DagState = DagState(
    descriptor: DagDescriptor,
    stages: map<string, Stage>,
    artifacts: map<string, Artifact>,
    isCancelled: bool,
    completedAtMs: Option<int>)

  datatype DagError =
    | MissingDagId
    | NoStages
    | MissingStageId
    | DuplicateStageId
    | UncertifiedKernel
    | UnknownDependency
    | UnproducedInput
    | CyclicDependency
    | UnproducedOutput

  datatype AssignError = AssignUnknownDag | AssignCancelledDag | AssignUnknownStage | AssignNotReady

  datatype CompleteError = UnknownDag | UnknownStage | DuplicateResult | StaleWorker | StaleAttempt

  // ---------------------------------------------------------------- validation

  function IdsOf(stages: seq<StageDescriptor>): (ids: seq<string>)
    ensures |ids| == |stages| && forall i | 0 <= i < |ids| :: ids[i] == stages[i].stageId
  {
    seq(|stages|, i requires 0 <= i < |stages| => stages[i].stageId)
  }

  ghost predicate DistinctIds(stages: seq<StageDescriptor>) {
    forall i, j | 0 <= i < j < |stages| :: stages[i].stageId != stages[j].stageId
  }

  /** Artifacts that exist at some point: the DAG's inputs and every named stage output. */
  ghost predicate IsProduced(dag: DagDescriptor, ref: string) {
    (exists a :: a in dag.inputArtifacts && a.artifactId == ref)
    || (ref != "" && exists s :: s in dag.stages && s.outputArtifactRef == ref)
  }

  ghost predicate StageSound(certified: set<string>, s: StageDescriptor) {
    s.stageId != "" && s.kernelId in certified
  }

  ghost predicate ReferencesSound(dag: DagDescriptor, s: StageDescriptor) {
    && (forall d | d in s.dependencies :: d in IdsOf(dag.stages))
    && (forall r | r in s.inputArtifactRefs :: IsProduced(dag, r))
  }

  /** Everything validateDag demands before it looks for cycles. */
  ghost predicate StructurallySound(certified: set<string>, dag: DagDescriptor) {
    && dag.dagId != "" && dag.stages != []
    && (forall s | s in dag.stages :: StageSound(certified, s))
    && DistinctIds(dag.stages)
    && (forall s | s in dag.stages :: ReferencesSound(dag, s))
  }

  ghost predicate OutputsProduced(dag: DagDescriptor) {
    forall r | r in dag.outputArtifactRefs :: IsProduced(dag, r)
  }

  /** The first loop's complaint about stage i, given the stages before it. */
  function StageError(certified: set<string>, stages: seq<StageDescriptor>, i: nat): Option<DagError>
    requires i < |stages|
  {
    if stages[i].stageId == "" then Some(MissingStageId)
    else if stages[i].stageId in IdsOf(stages)[..i] then Some(DuplicateStageId)
    else if stages[i].kernelId !in certified then Some(UncertifiedKernel)
    else None
  }

  function FirstStageError(certified: set<string>, stages: seq<StageDescriptor>, i: nat): Option<DagError>
    requires i <= |stages|
    decreases |stages| - i
  {
    if i == |stages| then None
    else
      var e := StageError(certified, stages, i);
      if e.Some? then e else FirstStageError(certified, stages, i + 1)
  }

  /** The second loop's complaint about a stage. */
  ghost function ReferenceError(dag: DagDescriptor, s: StageDescriptor): Option<DagError> {
    if exists d :: d in s.dependencies && d !in IdsOf(dag.stages) then Some(UnknownDependency)
    else if exists r :: r in s.inputArtifactRefs && !IsProduced(dag, r) then Some(UnproducedInput)
    else None
  }

  ghost function FirstReferenceError(dag: DagDescriptor, i: nat): Option<DagError>
    requires i <= |dag.stages|
    decreases |dag.stages| - i
  {
    if i == |dag.stages| then None
    else
      var e := ReferenceError(dag, dag.stages[i]);
      if e.Some? then e else FirstReferenceError(dag, i + 1)
  }

  /** Which of the nine errors a DAG is rejected with, if it is. */
  ghost function FirstError(certified: set<string>, dag: DagDescriptor): Option<DagError> {
    if dag.dagId == "" then Some(MissingDagId)
    else if dag.stages == [] then Some(NoStages)
    else if FirstStageError(certified, dag.stages, 0).Some? then FirstStageError(certified, dag.stages, 0)
    else if FirstReferenceError(dag, 0).Some? then FirstReferenceError(dag, 0)
    else if !Acyclic(AdjacencyOf(dag.stages)) then Some(CyclicDependency)
    else if !OutputsProduced(dag) then Some(UnproducedOutput)
    else None
  }

  /** Each stage with the stages it depends on. */
  function AdjacencyOf(stages: seq<StageDescriptor>): Adjacency {
    if stages == [] then map[]
    else var last := stages[|stages| - 1]; AdjacencyOf(stages[..|stages| - 1])[last.stageId := last.dependencies]
  }

  lemma {:induction false} AdjacencyKeys(stages: seq<StageDescriptor>)
    ensures forall id :: id in AdjacencyOf(stages) <==> id in IdsOf(stages)
    ensures DistinctIds(stages) ==> forall s | s in stages :: AdjacencyOf(stages)[s.stageId] == s.dependencies
  {
    if stages != [] {
      var init, last := stages[..|stages| - 1], stages[|stages| - 1];
      AdjacencyKeys(init);
      assert stages == init + [last];
      assert IdsOf(stages) == IdsOf(init) + [last.stageId];
      if DistinctIds(stages) {
        forall s | s in stages ensures AdjacencyOf(stages)[s.stageId] == s.dependencies {
          if s != last {
            assert s in init;
          }
        }
      }
    }
  }

  method BuildAdjacency(stages: seq<StageDescriptor>) returns (adj: Adjacency)
    ensures adj == AdjacencyOf(stages)
  {
    adj := map[];
    for i := 0 to |stages|
      invariant adj == AdjacencyOf(stages[..i])
    {
      adj := adj[stages[i].stageId := stages[i].dependencies];
      assert stages[..i + 1][..i] == stages[..i];
    }
    assert stages[..|stages|] == stages;
  }

  /** The recursive search finds a cycle exactly when the dependency graph has one. */
  method DetectCycles(stages: seq<StageDescriptor>) returns (cyclic: bool)
    ensures cyclic <==> !Acyclic(AdjacencyOf(stages))
  {
    var adj := BuildAdjacency(stages);
    var ids := IdsOf(stages);
    AdjacencyKeys(stages);
    var search := new CycleSearch(adj);
    for i := 0 to |ids|
      invariant search.adj == adj && search.Valid() && search.path == [] && search.recStack == {}
      invariant fresh(search)
      invariant forall id | id in ids[..i] :: id in search.visited
    {
      assert ids[..i + 1] == ids[..i] + [ids[i]];
      if ids[i] !in search.visited {
        assert ids[i] in ids;
        var found := search.CheckCycle(ids[i]);
        if found {
          search.CycleFound();
          return true;
        }
      }
    }
    assert ids[..|ids|] == ids;
    FinishedIsAcyclic(adj, search.visited);
    cyclic := false;
  }

  lemma FinishedIsAcyclic(adj: Adjacency, visited: set<string>)
    requires SearchState(adj, visited, {}, []) && adj.Keys <= visited
    ensures Acyclic(adj)
  {
    forall n ensures !Reaches(adj, n, n) {
      if n in adj {
        assert n in visited - {};
      } else {
        RootlessNotOnCycle(adj, n);
      }
    }
  }

  lemma RootlessNotOnCycle(adj: Adjacency, n: string)
    requires n !in adj
    ensures !Reaches(adj, n, n)
  {
    NotOnCycle(adj, {}, n);
  }

  // ---------------------------------------------------------------- the state of one DAG

  function FreshStage(s: StageDescriptor): Stage {
    Stage(s, if |s.dependencies| > 0 then PENDING else READY, None, 0, None)
  }

  function FreshStages(stages: seq<StageDescriptor>): map<string, Stage> {
    if stages == [] then map[]
    else var last := stages[|stages| - 1]; FreshStages(stages[..|stages| - 1])[last.stageId := FreshStage(last)]
  }

  function FreshArtifact(a: InputArtifact): Artifact {
    Artifact(a.artifactId, INPUT_STAGE, a.dataBuffer, 0, false)
  }

  function FreshArtifacts(inputs: seq<InputArtifact>): map<string, Artifact> {
    if inputs == [] then map[]
    else
      var last := inputs[|inputs| - 1];
      FreshArtifacts(inputs[..|inputs| - 1])[last.artifactId := FreshArtifact(last)]
  }

  /** How often the stages name an artifact as input. */
  function Uses(stages: seq<StageDescriptor>, ref: string): nat {
    if stages == [] then 0
    else Uses(stages[..|stages| - 1], ref) + multiset(stages[|stages| - 1].inputArtifactRefs)[ref]
  }

  /** The state registerDag creates. */
  function InitialState(dag: DagDescriptor): DagState {
    var inputs := FreshArtifacts(dag.inputArtifacts);
    DagState(dag, FreshStages(dag.stages),
             map a | a in inputs :: inputs[a].(referenceCount := Uses(dag.stages, a)), false, None)
  }

  /** Stages are those of the descriptor, one entry each. */
  ghost predicate WellShaped(d: DagState) {
    && DistinctIds(d.descriptor.stages)
    && (forall id :: id in d.stages <==> id in IdsOf(d.descriptor.stages))
    && (forall s | s in d.descriptor.stages :: s.stageId in d.stages && d.stages[s.stageId].descriptor == s)
  }

  lemma {:induction false} FreshStagesShape(stages: seq<StageDescriptor>)
    ensures forall id :: id in FreshStages(stages) <==> id in IdsOf(stages)
    ensures DistinctIds(stages) ==> forall s | s in stages :: FreshStages(stages)[s.stageId] == FreshStage(s)
  {
    if stages != [] {
      var init, last := stages[..|stages| - 1], stages[|stages| - 1];
      FreshStagesShape(init);
      assert stages == init + [last];
      assert IdsOf(stages) == IdsOf(init) + [last.stageId];
      if DistinctIds(stages) {
        forall s | s in stages ensures FreshStages(stages)[s.stageId] == FreshStage(s) {
          if s != last {
            assert s in init;
          }
        }
      }
    }
  }

  predicate DepsCompleted(stages: map<string, Stage>, deps: seq<string>) {
    forall dep | dep in deps :: dep in stages && stages[dep].status == COMPLETED
  }

  function PromoteStage(stages: map<string, Stage>, s: Stage): Stage {
    if s.status == PENDING && DepsCompleted(stages, s.descriptor.dependencies) then s.(status := READY) else s
  }

  /** All pending stages whose dependencies are complete become ready. */
  function Promote(stages: map<string, Stage>): map<string, Stage> {
    map id | id in stages :: PromoteStage(stages, stages[id])
  }

  function ReleaseOne(a: Artifact): Artifact {
    if a.producingStageId == INPUT_STAGE then a
    else
      var left := Max(0, a.referenceCount - 1);
      if left == 0 then a.(referenceCount := 0, isCleanedUp := true, dataBuffer := None)
      else a.(referenceCount := left)
  }

  /** One decrement per reference, in order; unknown artifacts are skipped. */
  function Release(artifacts: map<string, Artifact>, refs: seq<string>): map<string, Artifact> {
    if refs == [] then artifacts
    else
      var done, last := Release(artifacts, refs[..|refs| - 1]), refs[|refs| - 1];
      if last in done then done[last := ReleaseOne(done[last])] else done
  }

  ghost function Consumers(d: DagState, ref: string): set<string> {
    set id | id in d.stages && Reads(d.stages[id], ref)
  }

  predicate WorkerClash(s: Stage, workerId: string) {
    s.assignedWorkerId.Some? && s.assignedWorkerId.value != "" && s.assignedWorkerId.value != workerId
  }

  /** Why a completion report is ignored, if it is. */
  function Rejection(d: DagState, stageId: string, workerId: string, attempt: int): Option<CompleteError> {
    if stageId !in d.stages then Some(UnknownStage)
    else
      var s := d.stages[stageId];
      if s.status == COMPLETED then Some(DuplicateResult)
      else if WorkerClash(s, workerId) then Some(StaleWorker)
      else if s.attemptNumber != attempt then Some(StaleAttempt)
      else None
  }

  predicate AllCompleted(stages: map<string, Stage>) {
    forall id | id in stages :: stages[id].status == COMPLETED
  }

  /** The stages with one marked as complete, before anything is promoted. */
  function Marked(d: DagState, stageId: string): map<string, Stage>
    requires stageId in d.stages
  {
    d.stages[stageId := d.stages[stageId].(status := COMPLETED)]
  }

  /** An accepted completion. */
  ghost function CompletedState(d: DagState, stageId: string, output: Buffer, now: int): DagState
    requires stageId in d.stages
  {
    var s := d.stages[stageId];
    var ref := s.descriptor.outputArtifactRef;
    var stored := d.artifacts[ref := Artifact(ref, stageId, Some(output), |Consumers(d, ref)|, false)];
    var promoted := Promote(Marked(d, stageId));
    d.(stages := promoted,
       artifacts := Release(stored, s.descriptor.inputArtifactRefs),
       completedAtMs := if AllCompleted(promoted) then Some(now) else d.completedAtMs)
  }

  function AssignedStage(s: Stage, workerId: string): Stage {
    s.(status := RUNNING, assignedWorkerId := Some(workerId), attemptNumber := s.attemptNumber + 1)
  }

  function AssignedState(d: DagState, stageId: string, workerId: string): DagState
    requires stageId in d.stages
  {
    d.(stages := d.stages[stageId := AssignedStage(d.stages[stageId], workerId)])
  }

  /** Why a stage cannot be handed out, if it cannot. */
  function AssignRejection(dags: map<string, DagState>, dagId: string, stageId: string): Option<AssignError> {
    if dagId !in dags then Some(AssignUnknownDag)
    else if dags[dagId].isCancelled then Some(AssignCancelledDag)
    else if stageId !in dags[dagId].stages then Some(AssignUnknownStage)
    else if dags[dagId].stages[stageId].status != READY then Some(AssignNotReady)
    else None
  }

  predicate FailureIgnored(d: DagState, stageId: string) {
    stageId !in d.stages || d.stages[stageId].status == COMPLETED
  }

  /** A failure report on a stage that is not complete: back to ready, or failed for good. */
  function FailedState(d: DagState, stageId: string, error: string): DagState
    requires stageId in d.stages
  {
    var s := d.stages[stageId].(error := Some(error));
    var after := if s.attemptNumber < MAX_STAGE_ATTEMPTS then s.(status := READY, assignedWorkerId := None)
                 else s.(status := FAILED);
    d.(stages := d.stages[stageId := after])
  }

  function CancelStage(s: Stage): Stage {
    if s.status in {PENDING, READY, RUNNING} then s.(status := CANCELLED) else s
  }

  function CancelledState(d: DagState): DagState {
    d.(isCancelled := true,
       stages := map id | id in d.stages :: CancelStage(d.stages[id]),
       artifacts := map a | a in d.artifacts :: d.artifacts[a].(isCleanedUp := true, dataBuffer := None))
  }

  // ---------------------------------------------------------------- the engine

  /** Stage ids met so far among the first i stages, and the artifacts they produce. */
  ghost predicate Collected(dag: DagDescriptor, i: nat, stageIds: set<string>, produced: set<string>)
    requires i <= |dag.stages|
  {
    && (forall id :: id in stageIds <==> id in IdsOf(dag.stages)[..i])
    && (forall r :: r in produced <==>
          (exists a :: a in dag.inputArtifacts && a.artifactId == r)
          || (r != "" && exists s :: s in dag.stages[..i] && s.outputArtifactRef == r))
  }

  /** The artifacts after the references have been counted, one by one. */
  function Referenced(artifacts: map<string, Artifact>, refs: seq<string>): map<string, Artifact> {
    if refs == [] then artifacts
    else
      var done, last := Referenced(artifacts, refs[..|refs| - 1]), refs[|refs| - 1];
      if last in done then done[last := done[last].(referenceCount := done[last].referenceCount + 1)] else done
  }

  lemma {:induction false} ReferencedAt(artifacts: map<string, Artifact>, refs: seq<string>, a: string)
    ensures a in Referenced(artifacts, refs) <==> a in artifacts
    ensures a in artifacts ==>
              Referenced(artifacts, refs)[a]
              == artifacts[a].(referenceCount := artifacts[a].referenceCount + multiset(refs)[a])
  {
    if refs != [] {
      var init, last := refs[..|refs| - 1], refs[|refs| - 1];
      ReferencedAt(artifacts, init, a);
      assert refs == init + [last];
      assert multiset(refs)[a] == multiset(init)[a] + if last == a then 1 else 0;
    }
  }

  /** The list names every stage of the map exactly once: Map iteration order. */
  ghost predicate Ordering(stages: map<string, Stage>, order: seq<string>) {
    && (forall id :: id in stages <==> id in order)
    && (forall i, j | 0 <= i < j < |order| :: order[i] != order[j])
  }

  lemma WellShapedOrder(d: DagState)
    requires WellShaped(d)
    ensures Ordering(d.stages, IdsOf(d.descriptor.stages))
  {
  }

  lemma OrderingStep(stages: map<string, Stage>, order: seq<string>, i: nat)
    requires Ordering(stages, order) && i < |order|
    ensures order[i] in stages && order[i] !in order[..i]
    ensures order[..i + 1] == order[..i] + [order[i]]
    ensures forall id | id in order[..i] :: id in stages
  {
    assert order[i] in order;
    forall id | id in order[..i] ensures id in stages {
      assert id in order;
    }
  }

  predicate Reads(s: Stage, ref: string) {
    ref in s.descriptor.inputArtifactRefs
  }

  ghost function ConsumersAmong(stages: map<string, Stage>, ids: seq<string>, ref: string): set<string> {
    set id | id in ids && id in stages && Reads(stages[id], ref)
  }

  lemma ConsumersGrow(stages: map<string, Stage>, order: seq<string>, ref: string, i: nat)
    requires Ordering(stages, order) && i < |order|
    ensures order[i] in stages
    ensures |ConsumersAmong(stages, order[..i + 1], ref)|
            == |ConsumersAmong(stages, order[..i], ref)| + if Reads(stages[order[i]], ref) then 1 else 0
  {
    OrderingStep(stages, order, i);
    var before, after := ConsumersAmong(stages, order[..i], ref), ConsumersAmong(stages, order[..i + 1], ref);
    assert after == if Reads(stages[order[i]], ref) then before + {order[i]} else before;
  }

  /** The stages a completion promotes, in the order the engine walks over them. */
  function NewlyReady(stages: map<string, Stage>, ids: seq<string>): seq<Stage>
    requires forall id | id in ids :: id in stages
  {
    if ids == [] then []
    else
      var s := stages[ids[|ids| - 1]];
      NewlyReady(stages, ids[..|ids| - 1])
      + if PromoteStage(stages, s) == s then [] else [PromoteStage(stages, s)]
  }

  /** The list holds the stages that waited before and are ready after, each once. */
  ghost predicate ListsNewlyReady(before: map<string, Stage>, after: map<string, Stage>, list: seq<Stage>) {
    && (forall s :: s in list <==>
          exists id :: id in before && id in after && before[id].status == PENDING
                       && after[id].status == READY && s == after[id])
    && (forall i, j | 0 <= i < j < |list| :: list[i].descriptor.stageId != list[j].descriptor.stageId)
  }

  lemma {:induction false} NewlyReadyAmong(stages: map<string, Stage>, ids: seq<string>)
    requires forall id | id in ids :: id in stages && stages[id].descriptor.stageId == id
    requires forall i, j | 0 <= i < j < |ids| :: ids[i] != ids[j]
    ensures forall s :: s in NewlyReady(stages, ids) <==>
              exists id :: id in ids && stages[id].status == PENDING
                           && PromoteStage(stages, stages[id]).status == READY && s == PromoteStage(stages, stages[id])
    ensures forall i, j | 0 <= i < j < |NewlyReady(stages, ids)| ::
              NewlyReady(stages, ids)[i].descriptor.stageId != NewlyReady(stages, ids)[j].descriptor.stageId
  {
    if ids != [] {
      var init, last := ids[..|ids| - 1], ids[|ids| - 1];
      NewlyReadyAmong(stages, init);
      assert ids == init + [last];
      var before := NewlyReady(stages, init);
      forall i | 0 <= i < |before| ensures before[i].descriptor.stageId in init {
        assert before[i] in before;
      }
    }
  }

  /** The promotion loop's state: the listed stages have had their turn. */
  ghost predicate PromotedAmong(stages: map<string, Stage>, ids: seq<string>, after: map<string, Stage>) {
    && after.Keys == stages.Keys
    && forall id | id in stages :: after[id] == if id in ids then PromoteStage(stages, stages[id]) else stages[id]
  }

  lemma PromotedDeps(stages: map<string, Stage>, ids: seq<string>, after: map<string, Stage>, deps: seq<string>)
    requires PromotedAmong(stages, ids, after)
    ensures DepsCompleted(after, deps) == DepsCompleted(stages, deps)
  {
  }

  lemma PromotedGrows(stages: map<string, Stage>, ids: seq<string>, before: map<string, Stage>, id: string,
                      after: map<string, Stage>)
    requires PromotedAmong(stages, ids, before) && id in stages && id !in ids
    requires after == before[id := PromoteStage(stages, stages[id])]
    ensures PromotedAmong(stages, ids + [id], after)
  {
  }

  class Engine {
    var dags: map<string, DagState>
    const certified: set<string>

    constructor (certified: set<string>)
      ensures this.certified == certified && dags == map[]
    {
      this.certified := certified;
      dags := map[];
    }

    ghost predicate Valid()
      reads this
    {
      forall id | id in dags :: WellShaped(dags[id])
    }

    /** The set of produced input artifacts. */
    method CollectInputs(dag: DagDescriptor) returns (produced: set<string>)
      ensures Collected(dag, 0, {}, produced)
    {
      produced := {};
      for i := 0 to |dag.inputArtifacts|
        invariant forall r :: r in produced <==> exists a :: a in dag.inputArtifacts[..i] && a.artifactId == r
      {
        produced := produced + {dag.inputArtifacts[i].artifactId};
        assert dag.inputArtifacts[..i + 1] == dag.inputArtifacts[..i] + [dag.inputArtifacts[i]];
        assert dag.inputArtifacts[i] in dag.inputArtifacts[..i + 1];
      }
      assert dag.inputArtifacts[..|dag.inputArtifacts|] == dag.inputArtifacts;
    }

    lemma CollectOne(dag: DagDescriptor, i: nat, stageIds: set<string>, produced: set<string>)
      requires i < |dag.stages| && Collected(dag, i, stageIds, produced)
      ensures var s := dag.stages[i];
              Collected(dag, i + 1, stageIds + {s.stageId},
                        if s.outputArtifactRef != "" then produced + {s.outputArtifactRef} else produced)
    {
      var s := dag.stages[i];
      assert dag.stages[..i + 1] == dag.stages[..i] + [s];
      assert IdsOf(dag.stages)[..i + 1] == IdsOf(dag.stages)[..i] + [s.stageId];
      assert s in dag.stages[..i + 1];
    }

    /** The first i stages have passed the first loop's checks. */
    ghost predicate PrefixSound(dag: DagDescriptor, i: nat)
      requires i <= |dag.stages|
    {
      && (forall k: nat | k < i :: StageSound(certified, dag.stages[k]))
      && (forall j: nat, k: nat | j < k < i :: dag.stages[j].stageId != dag.stages[k].stageId)
    }

    lemma PrefixSoundGrows(dag: DagDescriptor, i: nat)
      requires i < |dag.stages|
      ensures PrefixSound(dag, i + 1) <==>
              && PrefixSound(dag, i) && StageSound(certified, dag.stages[i])
              && dag.stages[i].stageId !in IdsOf(dag.stages)[..i]
    {
      var ids := IdsOf(dag.stages);
      assert forall k: nat | k < i :: ids[k] == dag.stages[k].stageId && ids[k] in ids[..i] by {
        assert forall k: nat | k < i :: ids[..i][k] == ids[k];
      }
    }

    /** The first loop of validateDag: ids, kernels and produced artifacts. */
    method CheckStages(dag: DagDescriptor) returns (e: Option<DagError>, stageIds: set<string>, produced: set<string>)
      ensures e == None <==> PrefixSound(dag, |dag.stages|)
      ensures e == None ==> Collected(dag, |dag.stages|, stageIds, produced)
      ensures e == FirstStageError(certified, dag.stages, 0)
      ensures e == None || e.value in {MissingStageId, DuplicateStageId, UncertifiedKernel}
    {
      stageIds := {};
      produced := CollectInputs(dag);
      for i := 0 to |dag.stages|
        invariant Collected(dag, i, stageIds, produced) && PrefixSound(dag, i)
        invariant FirstStageError(certified, dag.stages, 0) == FirstStageError(certified, dag.stages, i)
      {
        var stage := dag.stages[i];
        PrefixSoundGrows(dag, i);
        if stage.stageId == "" {
          assert !PrefixSound(dag, i + 1);
          return Some(MissingStageId), stageIds, produced;
        }
        if stage.stageId in stageIds {
          assert !PrefixSound(dag, i + 1);
          return Some(DuplicateStageId), stageIds, produced;
        }
        CollectOne(dag, i, stageIds, produced);
        stageIds := stageIds + {stage.stageId};
        if stage.kernelId !in certified {
          assert !PrefixSound(dag, i + 1);
          return Some(UncertifiedKernel), stageIds, produced;
        }
        if stage.outputArtifactRef != "" {
          produced := produced + {stage.outputArtifactRef};
        }
      }
      e := None;
    }

    /** The second loop of validateDag: dependencies and input artifacts exist. */
    method CheckReferences(dag: DagDescriptor, stageIds: set<string>, produced: set<string>)
      returns (e: Option<DagError>)
      requires Collected(dag, |dag.stages|, stageIds, produced)
      ensures e == None <==> forall s | s in dag.stages :: ReferencesSound(dag, s)
      ensures e == FirstReferenceError(dag, 0)
      ensures e == None || e.value in {UnknownDependency, UnproducedInput}
    {
      assert dag.stages[..|dag.stages|] == dag.stages;
      assert IdsOf(dag.stages)[..|dag.stages|] == IdsOf(dag.stages);
      assert forall r :: r in produced <==> IsProduced(dag, r);
      for i := 0 to |dag.stages|
        invariant forall k | 0 <= k < i :: ReferencesSound(dag, dag.stages[k])
        invariant FirstReferenceError(dag, 0) == FirstReferenceError(dag, i)
      {
        var stage := dag.stages[i];
        for j := 0 to |stage.dependencies|
          invariant forall k | 0 <= k < j :: stage.dependencies[k] in stageIds
        {
          if stage.dependencies[j] !in stageIds {
            assert !ReferencesSound(dag, stage);
            return Some(UnknownDependency);
          }
        }
        for j := 0 to |stage.inputArtifactRefs|
          invariant forall k | 0 <= k < j :: stage.inputArtifactRefs[k] in produced
        {
          if stage.inputArtifactRefs[j] !in produced {
            assert !ReferencesSound(dag, stage);
            return Some(UnproducedInput);
          }
        }
      }
      e := None;
    }

    /** A DAG is accepted exactly when it is structurally sound, acyclic, and produces its declared outputs. */
    method ValidateDag(dag: DagDescriptor) returns (e: Option<DagError>)
      ensures e == FirstError(certified, dag)
      ensures e == None <==>
              StructurallySound(certified, dag) && Acyclic(AdjacencyOf(dag.stages)) && OutputsProduced(dag)
      ensures e == Some(CyclicDependency) <==>
              StructurallySound(certified, dag) && !Acyclic(AdjacencyOf(dag.stages))
      ensures e == Some(UnproducedOutput) <==>
              StructurallySound(certified, dag) && Acyclic(AdjacencyOf(dag.stages)) && !OutputsProduced(dag)
    {
      if dag.dagId == "" {
        return Some(MissingDagId);
      }
      if |dag.stages| == 0 {
        return Some(NoStages);
      }
      var stageIds, produced;
      e, stageIds, produced := CheckStages(dag);
      if e.Some? {
        return;
      }
      e := CheckReferences(dag, stageIds, produced);
      if e.Some? {
        return;
      }
      var cyclic := DetectCycles(dag.stages);
      if cyclic {
        return Some(CyclicDependency);
      }
      assert dag.stages[..|dag.stages|] == dag.stages;
      assert forall r :: r in produced <==> IsProduced(dag, r);
      for i := 0 to |dag.outputArtifactRefs|
        invariant forall k | 0 <= k < i :: IsProduced(dag, dag.outputArtifactRefs[k])
      {
        if dag.outputArtifactRefs[i] !in produced {
          return Some(UnproducedOutput);
        }
      }
      e := None;
    }

    method RegisterDag(dag: DagDescriptor) returns (e: Option<DagError>)
      requires Valid()
      modifies this`dags
      ensures Valid()
      ensures e == None <==>
              StructurallySound(certified, dag) && Acyclic(AdjacencyOf(dag.stages)) && OutputsProduced(dag)
      ensures e == FirstError(certified, dag)
      ensures dags == if e == None then old(dags)[dag.dagId := InitialState(dag)] else old(dags)
    {
      e := ValidateDag(dag);
      if e.Some? {
        return;
      }
      var artifacts := RegisterArtifacts(dag);
      var stages := RegisterStages(dag.stages);
      FreshStagesShape(dag.stages);
      var d := DagState(dag, stages, artifacts, false, None);
      assert WellShaped(d);
      dags := dags[dag.dagId := d];
    }

    method RegisterStages(descriptors: seq<StageDescriptor>) returns (stages: map<string, Stage>)
      ensures stages == FreshStages(descriptors)
    {
      stages := map[];
      for i := 0 to |descriptors|
        invariant stages == FreshStages(descriptors[..i])
      {
        stages := stages[descriptors[i].stageId := FreshStage(descriptors[i])];
        assert descriptors[..i + 1][..i] == descriptors[..i];
      }
      assert descriptors[..|descriptors|] == descriptors;
    }

    /** The input artifacts, each with a count of the references to it. */
    method RegisterArtifacts(dag: DagDescriptor) returns (artifacts: map<string, Artifact>)
      ensures artifacts == InitialState(dag).artifacts
    {
      artifacts := map[];
      for i := 0 to |dag.inputArtifacts|
        invariant artifacts == FreshArtifacts(dag.inputArtifacts[..i])
      {
        artifacts := artifacts[dag.inputArtifacts[i].artifactId := FreshArtifact(dag.inputArtifacts[i])];
        assert dag.inputArtifacts[..i + 1][..i] == dag.inputArtifacts[..i];
      }
      assert dag.inputArtifacts[..|dag.inputArtifacts|] == dag.inputArtifacts;
      ghost var inputs := artifacts;
      FreshArtifactsUncounted(dag.inputArtifacts);
      for i := 0 to |dag.stages|
        invariant artifacts.Keys == inputs.Keys
        invariant forall a | a in inputs :: artifacts[a] == inputs[a].(referenceCount := Uses(dag.stages[..i], a))
      {
        artifacts := AddReferences(artifacts, dag.stages[i].inputArtifactRefs);
        assert dag.stages[..i + 1][..i] == dag.stages[..i];
      }
      assert dag.stages[..|dag.stages|] == dag.stages;
      assert artifacts == InitialState(dag).artifacts;
    }

    /** Adds one to the count of every known artifact for each time it is referenced. */
    method AddReferences(artifacts: map<string, Artifact>, refs: seq<string>) returns (after: map<string, Artifact>)
      ensures after.Keys == artifacts.Keys
      ensures forall a | a in artifacts ::
                after[a] == artifacts[a].(referenceCount := artifacts[a].referenceCount + multiset(refs)[a])
    {
      after := artifacts;
      for j := 0 to |refs|
        invariant after == Referenced(artifacts, refs[..j])
      {
        assert refs[..j + 1][..j] == refs[..j];
        if refs[j] in after {
          var art := after[refs[j]];
          after := after[refs[j] := art.(referenceCount := art.referenceCount + 1)];
        }
      }
      assert refs[..|refs|] == refs;
      forall a {
        ReferencedAt(artifacts, refs, a);
      }
    }

    lemma {:induction false} FreshArtifactsUncounted(inputs: seq<InputArtifact>)
      ensures forall a | a in FreshArtifacts(inputs) :: FreshArtifacts(inputs)[a].referenceCount == 0
    {
      if inputs != [] {
        FreshArtifactsUncounted(inputs[..|inputs| - 1]);
      }
    }

    method AssignStage(dagId: string, stageId: string, workerId: string) returns (r: Result<Stage, AssignError>)
      requires Valid()
      modifies this`dags
      ensures Valid()
      ensures r.Err? <==> AssignRejection(old(dags), dagId, stageId).Some?
      ensures r.Err? ==> dags == old(dags) && AssignRejection(old(dags), dagId, stageId) == Some(r.error)
      ensures r.Ok? ==> dags == old(dags)[dagId := AssignedState(old(dags)[dagId], stageId, workerId)]
      ensures r.Ok? ==> r.value == AssignedStage(old(dags)[dagId].stages[stageId], workerId)
    {
      if dagId !in dags {
        return Err(AssignUnknownDag);
      }
      var d := dags[dagId];
      if d.isCancelled {
        return Err(AssignCancelledDag);
      }
      if stageId !in d.stages {
        return Err(AssignUnknownStage);
      }
      var stage := d.stages[stageId];
      if stage.status != READY {
        return Err(AssignNotReady);
      }
      stage := stage.(status := RUNNING);
      stage := stage.(assignedWorkerId := Some(workerId));
      stage := stage.(attemptNumber := stage.attemptNumber + 1);
      UpdatedShape(d, stageId, stage);
      dags := dags[dagId := d.(stages := d.stages[stageId := stage])];
      r := Ok(stage);
    }

    /** How many stages read an artifact. */
    method CountConsumers(stages: map<string, Stage>, order: seq<string>, ref: string) returns (count: nat)
      requires Ordering(stages, order)
      ensures count == |set id | id in stages && Reads(stages[id], ref)|
    {
      count := 0;
      for i := 0 to |order|
        invariant count == |ConsumersAmong(stages, order[..i], ref)|
      {
        ConsumersGrow(stages, order, ref, i);
        if Reads(stages[order[i]], ref) {
          count := count + 1;
        }
      }
      assert order[..|order|] == order;
      assert ConsumersAmong(stages, order, ref) == set id | id in stages && Reads(stages[id], ref);
    }

    /** The loop that drops one reference per consumed input. */
    method ReleaseInputs(artifacts: map<string, Artifact>, refs: seq<string>) returns (after: map<string, Artifact>)
      ensures after == Release(artifacts, refs)
    {
      after := artifacts;
      for i := 0 to |refs|
        invariant after == Release(artifacts, refs[..i])
      {
        assert refs[..i + 1][..i] == refs[..i];
        if refs[i] in after {
          var art := after[refs[i]];
          if art.producingStageId != INPUT_STAGE {
            art := art.(referenceCount := Max(0, art.referenceCount - 1));
            if art.referenceCount == 0 {
              art := art.(isCleanedUp := true);
              art := art.(dataBuffer := None);
            }
          }
          after := after[refs[i] := art];
        }
      }
      assert refs[..|refs|] == refs;
    }

    /** One turn of the promotion loop: the stage as it now is, in a list if it was promoted. */
    method PromoteNext(ghost stages: map<string, Stage>, ghost ids: seq<string>, after: map<string, Stage>, id: string)
      returns (next: map<string, Stage>, promoted: seq<Stage>)
      requires PromotedAmong(stages, ids, after) && id in stages && id !in ids
      ensures PromotedAmong(stages, ids + [id], next)
      ensures promoted == if PromoteStage(stages, stages[id]) == stages[id] then []
                          else [PromoteStage(stages, stages[id])]
    {
      var s := after[id];
      next, promoted := after, [];
      PromotedDeps(stages, ids, after, s.descriptor.dependencies);
      if s.status == PENDING {
        var allDepsCompleted :=
          forall dep | dep in s.descriptor.dependencies :: dep in after && after[dep].status == COMPLETED;
        if allDepsCompleted {
          s := s.(status := READY);
          next := after[id := s];
          promoted := [s];
        }
      }
      PromotedGrows(stages, ids, after, id, next);
    }

    /** The loop that promotes pending stages while it walks over them. */
    method PromoteStages(stages: map<string, Stage>, order: seq<string>)
      returns (after: map<string, Stage>, newlyReady: seq<Stage>)
      requires Ordering(stages, order)
      ensures after == Promote(stages)
      ensures newlyReady == NewlyReady(stages, order)
    {
      after := stages;
      newlyReady := [];
      for i := 0 to |order|
        invariant PromotedAmong(stages, order[..i], after)
        invariant newlyReady == NewlyReady(stages, order[..i])
      {
        OrderingStep(stages, order, i);
        assert order[..i + 1][..i] == order[..i];
        var promoted;
        after, promoted := PromoteNext(stages, order[..i], after, order[i]);
        newlyReady := newlyReady + promoted;
      }
      assert order[..|order|] == order;
      assert after == Promote(stages);
    }

    /** An accepted completion, on the state of its DAG. */
    method CompleteAccepted(d: DagState, stageId: string, output: Buffer, now: int)
      returns (after: DagState, newlyReady: seq<Stage>)
      requires WellShaped(d) && stageId in d.stages
      ensures after == CompletedState(d, stageId, output, now) && WellShaped(after)
      ensures newlyReady == NewlyReady(Marked(d, stageId), IdsOf(d.descriptor.stages))
    {
      var order := IdsOf(d.descriptor.stages);
      WellShapedOrder(d);
      var stage := d.stages[stageId];
      var ref := stage.descriptor.outputArtifactRef;
      var downstreamConsumerCount := CountConsumers(d.stages, order, ref);
      var artifacts := d.artifacts[ref := Artifact(ref, stageId, Some(output), downstreamConsumerCount, false)];
      stage := stage.(status := COMPLETED);
      var stages := d.stages[stageId := stage];
      artifacts := ReleaseInputs(artifacts, stage.descriptor.inputArtifactRefs);
      UpdatedShape(d, stageId, stage);
      WellShapedOrder(d.(stages := stages));
      stages, newlyReady := PromoteStages(stages, order);
      var completedAtMs := if AllCompleted(stages) then Some(now) else d.completedAtMs;
      after := d.(stages := stages, artifacts := artifacts, completedAtMs := completedAtMs);
      PromotedShape(d.(stages := Marked(d, stageId)), after);
    }

    method CompleteStage(dagId: string, stageId: string, output: Buffer, workerId: string, attempt: int, now: int)
      returns (error: Option<CompleteError>, newlyReady: seq<Stage>)
      requires Valid()
      modifies this`dags
      ensures Valid()
      ensures var before := old(dags);
              if dagId !in before then
                error == Some(UnknownDag) && newlyReady == [] && dags == before
              else if Rejection(before[dagId], stageId, workerId, attempt).Some? then
                error == Rejection(before[dagId], stageId, workerId, attempt) && newlyReady == [] && dags == before
              else
                error == None
                && dags == before[dagId := CompletedState(before[dagId], stageId, output, now)]
                && newlyReady == NewlyReady(Marked(before[dagId], stageId), IdsOf(before[dagId].descriptor.stages))
                && ListsNewlyReady(before[dagId].stages, dags[dagId].stages, newlyReady)
    {
      if dagId !in dags {
        return Some(UnknownDag), [];
      }
      var d := dags[dagId];
      if stageId !in d.stages {
        return Some(UnknownStage), [];
      }
      var stage := d.stages[stageId];
      if stage.status == COMPLETED {
        return Some(DuplicateResult), [];
      }
      if WorkerClash(stage, workerId) {
        return Some(StaleWorker), [];
      }
      if stage.attemptNumber != attempt {
        return Some(StaleAttempt), [];
      }
      PromotionListed(d, stageId);
      d, newlyReady := CompleteAccepted(d, stageId, output, now);
      dags := dags[dagId := d];
      error := None;
    }

    /** Reports the stage's status after a failure, and whether it may be tried again. */
    method FailStage(dagId: string, stageId: string, error: string, workerId: string, attempt: int)
      returns (status: StageStatus, canRetry: bool)
      requires Valid()
      modifies this`dags
      ensures Valid()
      ensures var before := old(dags);
              if dagId !in before || FailureIgnored(before[dagId], stageId) then
                status == FAILED && !canRetry && dags == before
              else
                && dags == before[dagId := FailedState(before[dagId], stageId, error)]
                && status == dags[dagId].stages[stageId].status
                && (canRetry <==> before[dagId].stages[stageId].attemptNumber < MAX_STAGE_ATTEMPTS)
    {
      if dagId !in dags {
        return FAILED, false;
      }
      var d := dags[dagId];
      if stageId !in d.stages || d.stages[stageId].status == COMPLETED {
        return FAILED, false;
      }
      var stage := d.stages[stageId].(error := Some(error));
      if stage.attemptNumber < MAX_STAGE_ATTEMPTS {
        stage := stage.(status := READY);
        stage := stage.(assignedWorkerId := None);
        status, canRetry := READY, true;
      } else {
        stage := stage.(status := FAILED);
        status, canRetry := FAILED, false;
      }
      UpdatedShape(d, stageId, stage);
      dags := dags[dagId := d.(stages := d.stages[stageId := stage])];
    }

    method CancelStages(stages: map<string, Stage>, order: seq<string>) returns (after: map<string, Stage>)
      requires Ordering(stages, order)
      ensures after == map id | id in stages :: CancelStage(stages[id])
    {
      after := stages;
      for i := 0 to |order|
        invariant after.Keys == stages.Keys
        invariant forall id | id in stages ::
                    after[id] == if id in order[..i] then CancelStage(stages[id]) else stages[id]
      {
        OrderingStep(stages, order, i);
        var stage := after[order[i]];
        if stage.status == PENDING || stage.status == READY || stage.status == RUNNING {
          after := after[order[i] := stage.(status := CANCELLED)];
        }
      }
      assert order[..|order|] == order;
    }

    method CleanArtifacts(artifacts: map<string, Artifact>) returns (after: map<string, Artifact>)
      ensures after == map a | a in artifacts :: artifacts[a].(isCleanedUp := true, dataBuffer := None)
    {
      after := artifacts;
      var rest := artifacts.Keys;
      while rest != {}
        invariant rest <= after.Keys == artifacts.Keys
        invariant forall a | a in artifacts :: after[a] ==
                    if a in rest then artifacts[a] else artifacts[a].(isCleanedUp := true, dataBuffer := None)
      {
        var a :| a in rest;
        after := after[a := after[a].(isCleanedUp := true, dataBuffer := None)];
        rest := rest - {a};
      }
    }

    method CancelDag(dagId: string) returns (known: bool)
      requires Valid()
      modifies this`dags
      ensures Valid()
      ensures known <==> dagId in old(dags)
      ensures dags == if known then old(dags)[dagId := CancelledState(old(dags)[dagId])] else old(dags)
    {
      if dagId !in dags {
        return false;
      }
      var d := dags[dagId];
      WellShapedOrder(d);
      var stages := CancelStages(d.stages, IdsOf(d.descriptor.stages));
      var artifacts := CleanArtifacts(d.artifacts);
      d := d.(isCancelled := true, stages := stages, artifacts := artifacts);
      CancelledShape(dags[dagId]);
      dags := dags[dagId := d];
      known := true;
    }
  }

  lemma UpdatedShape(d: DagState, id: string, s: Stage)
    requires WellShaped(d) && id in d.stages && s.descriptor == d.stages[id].descriptor
    ensures WellShaped(d.(stages := d.stages[id := s]))
  {
  }

  lemma IdsMatch(d: DagState)
    requires WellShaped(d)
    ensures forall id | id in IdsOf(d.descriptor.stages) ::
              id in d.stages && d.stages[id].descriptor.stageId == id
  {
  }

  lemma PromotionListed(d: DagState, stageId: string)
    requires WellShaped(d) && stageId in d.stages
    ensures ListsNewlyReady(d.stages, Promote(Marked(d, stageId)),
                            NewlyReady(Marked(d, stageId), IdsOf(d.descriptor.stages)))
  {
    var marked, ids := Marked(d, stageId), IdsOf(d.descriptor.stages);
    WellShapedOrder(d);
    IdsMatch(d);
    NewlyReadyAmong(marked, ids);
    ListedAfterMarking(d.stages, stageId, marked, ids, NewlyReady(marked, ids));
  }

  /** A stage just completed waited before only if it was pending, and is not ready after. */
  lemma ListedAfterMarking(before: map<string, Stage>, done: string, marked: map<string, Stage>, ids: seq<string>,
                           list: seq<Stage>)
    requires done in before && marked == before[done := before[done].(status := COMPLETED)]
    requires forall id :: id in ids <==> id in before
    requires forall s :: s in list <==>
               exists id :: id in ids && marked[id].status == PENDING
                            && PromoteStage(marked, marked[id]).status == READY && s == PromoteStage(marked, marked[id])
    requires forall i, j | 0 <= i < j < |list| :: list[i].descriptor.stageId != list[j].descriptor.stageId
    ensures ListsNewlyReady(before, Promote(marked), list)
  {
  }

  lemma PromotedShape(d: DagState, after: DagState)
    requires WellShaped(d) && after.descriptor == d.descriptor && after.stages == Promote(d.stages)
    ensures WellShaped(after)
  {
  }

  lemma CancelledShape(d: DagState)
    requires WellShaped(d)
    ensures WellShaped(CancelledState(d))
  {
  }
}
