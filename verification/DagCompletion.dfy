/**
 * What runs can do: any set of stages closed under dependencies can be completed without touching the
 * others. Together with the invariants this settles for which DAGs the artifact accounts are exact.
 */
module DagCompletion {
  import opened Prelude
  import opened Graph
  import opened DagEngine
  import opened DagRuns
  import opened DagArtifacts

  lemma {:induction false} RunConcat(d: DagState, a: seq<Event>, b: seq<Event>)
    requires LegalRun(d, a) && LegalRun(Run(d, a), b) && NeverCancelled(a) && NeverCancelled(b)
    ensures LegalRun(d, a + b) && NeverCancelled(a + b) && Run(d, a + b) == Run(Run(d, a), b)
    decreases |a|
  {
    if a == [] {
      assert a + b == b;
    } else {
      assert (a + b)[0] == a[0] && (a + b)[1..] == a[1..] + b;
      RunConcat(Step(d, a[0]), a[1..], b);
    }
  }

  /** The stage is complete if it is in the set, and untouched otherwise. */
  predicate DoneOrFresh(s: Stage, done: bool) {
    if done then s.status == COMPLETED
    else s.status in {PENDING, READY} && s.attemptNumber == 0 && s.assignedWorkerId == None
  }

  ghost predicate CompletedExactly(d: DagState, done: set<string>) {
    done <= d.stages.Keys && forall id | id in d.stages :: DoneOrFresh(d.stages[id], id in done)
  }

  /** A state a run may pass through. */
  ghost predicate Open(d: DagState, done: set<string>) {
    Safe(d) && !d.isCancelled && CompletedExactly(d, done)
  }

  const WORKER := "w"

  function CompletionOf(id: string): seq<Event> {
    [Assign(id, WORKER), Complete(id, [], WORKER, 1, 0)]
  }

  ghost function AfterCompletionOf(d: DagState, id: string): DagState
    requires id in d.stages
  {
    CompletedState(AssignedState(d, id, WORKER), id, [], 0)
  }

  lemma EnabledIsReady(d: DagState, done: set<string>, id: string)
    requires Open(d, done) && id in d.stages && id !in done
    requires forall dep | dep in d.stages[id].descriptor.dependencies :: dep in done
    ensures d.stages[id].status == READY
  {
    assert SafeAt(d, id);
    assert DepsCompleted(d.stages, d.stages[id].descriptor.dependencies);
  }

  lemma StatesAfterCompletionOf(d: DagState, done: set<string>, id: string)
    requires CompletedExactly(d, done) && id in d.stages
    ensures CompletedExactly(AfterCompletionOf(d, id), done + {id})
  {
    var after := AfterCompletionOf(d, id);
    var marked := Marked(AssignedState(d, id, WORKER), id);
    forall k | k in after.stages ensures DoneOrFresh(after.stages[k], k in done + {id}) {
      assert after.stages[k] == PromoteStage(marked, marked[k]);
      assert DoneOrFresh(d.stages[k], k in done);
    }
  }

  lemma TwoSteps(d: DagState, id: string)
    requires !d.isCancelled && id in d.stages && d.stages[id].status == READY && d.stages[id].attemptNumber == 0
    ensures LegalRun(d, CompletionOf(id)) && NeverCancelled(CompletionOf(id))
    ensures Run(d, CompletionOf(id)) == AfterCompletionOf(d, id)
  {
    var es := CompletionOf(id);
    var handed := AssignedState(d, id, WORKER);
    assert es[1..] == [es[1]] && [es[1]][1..] == [];
    assert Step(d, es[0]) == handed;
    assert Step(handed, es[1]) == AfterCompletionOf(d, id);
    assert Run(handed, [es[1]]) == Run(Step(handed, es[1]), []);
    assert LegalRun(Step(handed, es[1]), []) && LegalRun(handed, [es[1]]);
  }

  /** One stage whose dependencies are complete is assigned and completes. */
  lemma CompleteOne(d: DagState, done: set<string>, id: string)
    requires Open(d, done) && id in d.stages && id !in done
    requires forall dep | dep in d.stages[id].descriptor.dependencies :: dep in done
    ensures LegalRun(d, CompletionOf(id)) && NeverCancelled(CompletionOf(id))
    ensures Run(d, CompletionOf(id)) == AfterCompletionOf(d, id)
    ensures Open(AfterCompletionOf(d, id), done + {id})
  {
    EnabledIsReady(d, done, id);
    assert DoneOrFresh(d.stages[id], false);
    TwoSteps(d, id);
    AssignKeepsSafe(d, id, WORKER);
    CompleteKeepsSafe(AssignedState(d, id, WORKER), id, [], 0);
    StatesAfterCompletionOf(d, done, id);
  }

  ghost predicate ClosedStages(d: DagState, s: set<string>) {
    s <= d.stages.Keys && Closed(AdjacencyOf(d.descriptor.stages), s)
  }

  /** Some missing stage of a closed set has nothing missing below it. */
  lemma NextStage(d: DagState, done: set<string>, s: set<string>) returns (id: string)
    requires Safe(d) && Acyclic(AdjacencyOf(d.descriptor.stages)) && ClosedStages(d, s) && done < s
    ensures id in s - done && forall dep | dep in d.stages[id].descriptor.dependencies :: dep in done
  {
    var adj, missing := AdjacencyOf(d.descriptor.stages), s - done;
    var some :| some in s && some !in done;
    assert some in missing;
    if forall x | x in missing :: HasParentIn(adj, missing, x) {
      EndlessDescentIsCycle(adj, missing);
    }
    id :| id in missing && !HasParentIn(adj, missing, id);
    ParentsAreDependencies(d, id);
    forall dep | dep in d.stages[id].descriptor.dependencies ensures dep in done {
      assert dep in Parents(adj, id);
    }
  }

  lemma CompleteRest(d: DagState, done: set<string>, s: set<string>) returns (es: seq<Event>)
    requires Open(d, done) && Acyclic(AdjacencyOf(d.descriptor.stages)) && ClosedStages(d, s) && done <= s
    ensures LegalRun(d, es) && NeverCancelled(es) && Open(Run(d, es), s) && Run(d, es).descriptor == d.descriptor
    decreases |s - done|
  {
    es := [];
    if done != s {
      var id := NextStage(d, done, s);
      CompleteOne(d, done, id);
      var next := AfterCompletionOf(d, id);
      assert s - (done + {id}) < s - done;
      SmallerSet(s - (done + {id}), s - done);
      var rest := CompleteRest(next, done + {id}, s);
      RunConcat(d, CompletionOf(id), rest);
      es := CompletionOf(id) + rest;
    }
  }

  lemma SmallerSet(a: set<string>, b: set<string>)
    requires a < b
    ensures |a| < |b|
  {
    var x :| x in b && x !in a;
    assert a <= b - {x};
    SubsetSize(a, b - {x});
  }

  lemma {:induction false} SubsetSize(a: set<string>, b: set<string>)
    requires a <= b
    ensures |a| <= |b|
  {
    if a != {} {
      var x :| x in a;
      SubsetSize(a - {x}, b - {x});
    }
  }

  lemma InitiallyOpen(certified: set<string>, dag: DagDescriptor)
    requires Registrable(certified, dag)
    ensures Open(InitialState(dag), {})
  {
    InitiallySafe(certified, dag);
    FreshStagesShape(dag.stages);
    forall id | id in InitialState(dag).stages ensures DoneOrFresh(InitialState(dag).stages[id], false) {
      var i :| 0 <= i < |dag.stages| && IdsOf(dag.stages)[i] == id;
      assert InitialState(dag).stages[id] == FreshStage(dag.stages[i]);
    }
  }

  /** Every set of stages closed under dependencies can be completed by a legal run, leaving all others untouched. */
  lemma ClosedSetCompletes(certified: set<string>, dag: DagDescriptor, s: set<string>) returns (es: seq<Event>)
    requires Registrable(certified, dag) && ClosedStages(InitialState(dag), s)
    ensures LegalRun(InitialState(dag), es) && NeverCancelled(es)
    ensures Open(Run(InitialState(dag), es), s) && Run(InitialState(dag), es).descriptor == dag
  {
    InitiallyOpen(certified, dag);
    es := CompleteRest(InitialState(dag), {}, s);
  }

  /** In particular every DAG that registers can be completed. */
  lemma EveryDagCompletes(certified: set<string>, dag: DagDescriptor) returns (es: seq<Event>)
    requires Registrable(certified, dag)
    ensures LegalRun(InitialState(dag), es) && NeverCancelled(es) && AllCompleted(Run(InitialState(dag), es).stages)
  {
    var d := InitialState(dag);
    InitiallyOpen(certified, dag);
    forall n, m | n in d.stages.Keys && m in Parents(AdjacencyOf(dag.stages), n) ensures m in d.stages.Keys {
      ParentsAreDependencies(d, n);
      StageInDescriptor(d, n);
      assert ReferencesSound(dag, d.stages[n].descriptor);
    }
    es := ClosedSetCompletes(certified, dag, d.stages.Keys);
    var after := Run(d, es);
    forall id | id in after.stages ensures after.stages[id].status == COMPLETED {
      assert id in IdsOf(after.descriptor.stages);
      assert DoneOrFresh(after.stages[id], id in d.stages.Keys);
    }
  }

  // ---------------------------------------------------------------- everything upstream of a stage

  ghost function Upstream(d: DagState, id: string): set<string> {
    set u | u in d.stages && Reaches(AdjacencyOf(d.descriptor.stages), id, u)
  }

  lemma ParentReached(adj: Adjacency, n: string, m: string)
    requires m in Parents(adj, n)
    ensures Reaches(adj, n, m)
  {
    assert Walk(adj, [n, m]);
  }

  lemma ReachedIsStage(certified: set<string>, dag: DagDescriptor, n: string, m: string)
    requires Registrable(certified, dag) && n in InitialState(dag).stages && m in Parents(AdjacencyOf(dag.stages), n)
    ensures m in InitialState(dag).stages
  {
    var d := InitialState(dag);
    InitiallySafe(certified, dag);
    ParentsAreDependencies(d, n);
    StageInDescriptor(d, n);
    assert ReferencesSound(dag, d.stages[n].descriptor);
  }

  lemma UpstreamIsClosed(certified: set<string>, dag: DagDescriptor, id: string)
    requires Registrable(certified, dag)
    ensures ClosedStages(InitialState(dag), Upstream(InitialState(dag), id))
  {
    var adj, up := AdjacencyOf(dag.stages), Upstream(InitialState(dag), id);
    forall n, m | n in up && m in Parents(adj, n) ensures m in up {
      ReachedIsStage(certified, dag, n, m);
      ParentReached(adj, n, m);
      ReachesTransitive(adj, id, n, m);
    }
  }

  lemma DependenciesUpstream(certified: set<string>, dag: DagDescriptor, s: StageDescriptor)
    requires Registrable(certified, dag) && s in dag.stages
    ensures s.stageId in InitialState(dag).stages && s.stageId !in Upstream(InitialState(dag), s.stageId)
    ensures forall dep | dep in s.dependencies :: dep in Upstream(InitialState(dag), s.stageId)
    ensures Parents(AdjacencyOf(dag.stages), s.stageId) == s.dependencies
  {
    var start := InitialState(dag);
    InitiallySafe(certified, dag);
    StagesOf(start, s);
    ParentsAreDependencies(start, s.stageId);
    forall dep | dep in s.dependencies ensures dep in Upstream(start, s.stageId) {
      ReachedIsStage(certified, dag, s.stageId, dep);
      ParentReached(AdjacencyOf(dag.stages), s.stageId, dep);
    }
  }

  /** A run after which the stage is ready, everything upstream of it complete and all else untouched. */
  lemma MakeReady(certified: set<string>, dag: DagDescriptor, s: StageDescriptor) returns (es: seq<Event>)
    requires Registrable(certified, dag) && s in dag.stages
    ensures LegalRun(InitialState(dag), es) && NeverCancelled(es)
    ensures var d := Run(InitialState(dag), es);
            && d.descriptor == dag && Open(d, Upstream(InitialState(dag), s.stageId))
            && s.stageId in d.stages && d.stages[s.stageId].descriptor == s
            && s.stageId !in Upstream(InitialState(dag), s.stageId)
            && (forall dep | dep in s.dependencies :: dep in Upstream(InitialState(dag), s.stageId))
            && d.stages[s.stageId].status == READY
  {
    var start := InitialState(dag);
    UpstreamIsClosed(certified, dag, s.stageId);
    es := ClosedSetCompletes(certified, dag, Upstream(start, s.stageId));
    var d := Run(start, es);
    InitiallySafe(certified, dag);
    DependenciesUpstream(certified, dag, s);
    EnabledIsReady(d, Upstream(start, s.stageId), s.stageId);
  }

  // ---------------------------------------------------------------- where artifacts come from

  /** The artifact is an input of the DAG or the output of a complete stage. */
  ghost predicate HasSource(d: DagState, ref: string) {
    ref in d.artifacts ==>
      ref in FreshArtifacts(d.descriptor.inputArtifacts)
      || exists p :: p in d.stages && d.stages[p].status == COMPLETED && d.stages[p].descriptor.outputArtifactRef == ref
  }

  /** The output of a complete stage is on record as its output. */
  ghost predicate OutputRecorded(d: DagState, id: string) {
    id in d.stages && d.stages[id].status == COMPLETED ==>
      var ref := d.stages[id].descriptor.outputArtifactRef;
      ref in d.artifacts && d.artifacts[ref].producingStageId == id
  }

  ghost predicate Recorded(d: DagState) {
    (forall ref :: HasSource(d, ref)) && (forall id :: OutputRecorded(d, id))
  }

  lemma SourceKept(d: DagState, e: Event, ref: string)
    requires HasSource(d, ref)
    ensures HasSource(Step(d, e), ref)
  {
    var after := Step(d, e);
    if e.Complete? && Rejection(d, e.stageId, e.workerId, e.attempt) == None {
      ReleaseKeepsInput(Stored(d, e.stageId, e.output), d.stages[e.stageId].descriptor.inputArtifactRefs, ref);
    }
    if p :| p in d.stages && d.stages[p].status == COMPLETED && d.stages[p].descriptor.outputArtifactRef == ref {
      StepKeepsCompleted(d, e, p);
      assert after.stages[p].descriptor == d.stages[p].descriptor;
    } else if ref in after.artifacts && ref !in d.artifacts {
      assert e.stageId in after.stages && after.stages[e.stageId].status == COMPLETED;
    }
  }

  lemma RecordKept(d: DagState, e: Event, id: string)
    requires WellShaped(d) && OneProducer(d.descriptor) && OutputRecorded(d, id)
    ensures OutputRecorded(Step(d, e), id)
  {
    if e.Complete? && Rejection(d, e.stageId, e.workerId, e.attempt) == None && id in d.stages {
      var ref := d.stages[id].descriptor.outputArtifactRef;
      StatusAfterCompletion(d, e.stageId, e.output, e.now, id);
      ReleaseKeepsInput(Stored(d, e.stageId, e.output), d.stages[e.stageId].descriptor.inputArtifactRefs, ref);
      if ref == d.stages[e.stageId].descriptor.outputArtifactRef {
        OutputsDiffer(d, id, e.stageId);
      }
    }
  }

  lemma {:induction false} RunKeepsRecord(d: DagState, es: seq<Event>)
    requires Safe(d) && OneProducer(d.descriptor) && Recorded(d) && LegalRun(d, es)
    ensures Recorded(Run(d, es))
    decreases |es|
  {
    if es != [] {
      forall ref ensures HasSource(Step(d, es[0]), ref) {
        SourceKept(d, es[0], ref);
      }
      forall id ensures OutputRecorded(Step(d, es[0]), id) {
        RecordKept(d, es[0], id);
      }
      StepKeepsSafe(d, es[0]);
      RunKeepsRecord(Step(d, es[0]), es[1..]);
    }
  }

  lemma AlwaysRecorded(certified: set<string>, dag: DagDescriptor, es: seq<Event>)
    requires Registrable(certified, dag) && OneProducer(dag) && LegalRun(InitialState(dag), es)
    ensures Recorded(Run(InitialState(dag), es))
  {
    var d := InitialState(dag);
    InitiallyOpen(certified, dag);
    forall id ensures OutputRecorded(d, id) {
      if id in d.stages {
        assert DoneOrFresh(d.stages[id], false);
      }
    }
    assert forall ref :: HasSource(d, ref);
    RunKeepsRecord(d, es);
  }

  // ---------------------------------------------------------------- producers must be upstream

  ghost predicate AllInputsPresent(d: DagState) {
    forall id, ref | id in d.stages && d.stages[id].status in {READY, RUNNING} && Reads(d.stages[id], ref) ::
      InputPresent(d, ref)
  }

  ghost predicate InputsAlwaysPresent(dag: DagDescriptor) {
    forall es | LegalRun(InitialState(dag), es) && NeverCancelled(es) :: AllInputsPresent(Run(InitialState(dag), es))
  }

  lemma NotYetProduced(d: DagState, done: set<string>, p: string, t: StageDescriptor)
    requires Open(d, done) && OneProducer(d.descriptor) && t in d.descriptor.stages && t.stageId !in done
    requires p in d.stages && d.stages[p].descriptor.outputArtifactRef == t.outputArtifactRef
    ensures d.stages[p].status != COMPLETED
  {
    StageInDescriptor(d, p);
    assert SharesNoOutput(d.descriptor, d.stages[p].descriptor, t);
    assert DoneOrFresh(d.stages[p], p in done);
  }

  /** A reader that does not depend on the producer can be made ready before the artifact exists. */
  lemma ReaderBeforeProducer(certified: set<string>, dag: DagDescriptor, s: StageDescriptor, t: StageDescriptor)
    requires Registrable(certified, dag) && OneProducer(dag) && !ReadsUpstream(dag, s, t)
    ensures !InputsAlwaysPresent(dag)
  {
    var start, ref := InitialState(dag), t.outputArtifactRef;
    var es := MakeReady(certified, dag, s);
    var d := Run(start, es);
    AlwaysRecorded(certified, dag, es);
    assert HasSource(d, ref);
    assert OutputIsNew(dag, t);
    FreshArtifactFacts(dag.inputArtifacts, ref);
    if ref in d.artifacts {
      var p :| p in d.stages && d.stages[p].status == COMPLETED && d.stages[p].descriptor.outputArtifactRef == ref;
      NotYetProduced(d, Upstream(start, s.stageId), p, t);
    }
    assert !InputPresent(d, ref);
  }

  /**
   * With one producer per artifact and no premature release, readers always find their inputs exactly
   * when every producer is upstream of its readers.
   */
  lemma InputsAvailableIff(certified: set<string>, dag: DagDescriptor)
    requires Registrable(certified, dag) && OneProducer(dag) && RepeatsLast(dag)
    ensures InputsAlwaysPresent(dag) <==> ProducersUpstream(dag)
  {
    if ProducersUpstream(dag) {
      forall es | LegalRun(InitialState(dag), es) && NeverCancelled(es)
        ensures AllInputsPresent(Run(InitialState(dag), es))
      {
        var d := Run(InitialState(dag), es);
        forall id, ref | id in d.stages && d.stages[id].status in {READY, RUNNING} && Reads(d.stages[id], ref)
          ensures InputPresent(d, ref)
        {
          InputsAvailable(certified, dag, es, id, ref);
        }
      }
    } else {
      var s, t :| !ReadsUpstream(dag, s, t);
      ReaderBeforeProducer(certified, dag, s, t);
    }
  }

  // ---------------------------------------------------------------- repeated references must come last

  ghost predicate CountExact(d: DagState, id: string) {
    id in d.stages && d.stages[id].status == COMPLETED ==>
      var ref := d.stages[id].descriptor.outputArtifactRef;
      ref in d.artifacts && d.artifacts[ref].referenceCount == |Waiting(d, ref)|
  }

  ghost predicate CountsAlwaysExact(dag: DagDescriptor) {
    forall es, id | LegalRun(InitialState(dag), es) && NeverCancelled(es) :: CountExact(Run(InitialState(dag), es), id)
  }

  lemma WaitingAfter(d: DagState, id: string, ref: string)
    requires id in d.stages && d.stages[id].status != COMPLETED
    ensures Waiting(AfterCompletionOf(d, id), ref) == Waiting(d, ref) - {id}
  {
    var handed := AssignedState(d, id, WORKER);
    assert Waiting(handed, ref) == Waiting(d, ref);
    ReadersAfterCompletion(handed, id, [], 0, ref);
  }

  /** A stage that names an artifact twice takes away more than its own share. */
  lemma CountAfterRepeat(d: DagState, id: string, ref: string)
    requires id in d.stages && ref in d.artifacts && d.artifacts[ref].producingStageId != INPUT_STAGE
    requires ref != d.stages[id].descriptor.outputArtifactRef && Repeats(d.stages[id].descriptor, ref)
    ensures var after := AfterCompletionOf(d, id);
            ref in after.artifacts && after.artifacts[ref].referenceCount <= Max(0, d.artifacts[ref].referenceCount - 2)
  {
    ReleaseCounts(Stored(AssignedState(d, id, WORKER), id, []), d.stages[id].descriptor.inputArtifactRefs, ref);
  }

  lemma TwoMembers(s: set<string>, a: string, b: string)
    requires a in s && b in s && a != b
    ensures |s| >= 2 && |s - {a}| == |s| - 1
  {
    assert |s - {a} - {b}| == |s| - 2;
  }

  /** At a stage that repeats a reference and is next to complete, with another reader to come, the count breaks. */
  lemma RepeatMiscounts(d: DagState, done: set<string>, p: string, s: string, t: string)
    requires Open(d, done) && OneProducer(d.descriptor) && Recorded(d)
    requires p in d.stages && p in done && s in d.stages && s !in done && t in d.stages && t !in done && s != t
    requires var ref := d.stages[p].descriptor.outputArtifactRef;
             Repeats(d.stages[s].descriptor, ref) && Reads(d.stages[t], ref)
    ensures !CountExact(d, p) || !CountExact(AfterCompletionOf(d, s), p)
  {
    var ref := d.stages[p].descriptor.outputArtifactRef;
    assert DoneOrFresh(d.stages[p], true) && DoneOrFresh(d.stages[s], false) && DoneOrFresh(d.stages[t], false);
    assert OutputRecorded(d, p);
    OutputIsNoInput(d, p);
    if d.stages[s].descriptor.outputArtifactRef == ref {
      OutputsDiffer(d, s, p);
    }
    assert ref in d.stages[s].descriptor.inputArtifactRefs;
    TwoMembers(Waiting(d, ref), s, t);
    WaitingAfter(d, s, ref);
    CountAfterRepeat(d, s, ref);
    StatusAfterCompletion(AssignedState(d, s, WORKER), s, [], 0, p);
  }

  /** A repeated reference with another reader still to come breaks the count in some run. */
  lemma RepeatBreaksCount(certified: set<string>, dag: DagDescriptor, p: StageDescriptor, s: StageDescriptor,
                          t: StageDescriptor)
    requires Registrable(certified, dag) && OneProducer(dag) && ProducersUpstream(dag) && !RepeatReadsLast(dag, p, s, t)
    ensures !CountsAlwaysExact(dag)
  {
    var start := InitialState(dag);
    var es := MakeReady(certified, dag, s);
    var d, up := Run(start, es), Upstream(start, s.stageId);
    AlwaysRecorded(certified, dag, es);
    RepeatSetting(certified, dag, p, s, t);
    StagesOf(d, p);
    StagesOf(d, t);
    RepeatMiscounts(d, up, p.stageId, s.stageId, t.stageId);
    CompleteOne(d, up, s.stageId);
    RunConcat(start, es, CompletionOf(s.stageId));
    assert CountExact(Run(start, es), p.stageId) ==> !CountExact(Run(start, es + CompletionOf(s.stageId)), p.stageId);
  }

  lemma RepeatSetting(certified: set<string>, dag: DagDescriptor, p: StageDescriptor, s: StageDescriptor,
                      t: StageDescriptor)
    requires Registrable(certified, dag) && ProducersUpstream(dag) && !RepeatReadsLast(dag, p, s, t)
    ensures p in dag.stages && s in dag.stages && t in dag.stages && s.stageId != t.stageId
    ensures Repeats(s, p.outputArtifactRef) && p.outputArtifactRef in t.inputArtifactRefs
    ensures p.stageId in Upstream(InitialState(dag), s.stageId) && t.stageId !in Upstream(InitialState(dag), s.stageId)
  {
    InitiallySafe(certified, dag);
    StagesOf(InitialState(dag), p);
    assert p.outputArtifactRef in s.inputArtifactRefs;
    assert ReadsUpstream(dag, s, p);
  }

  lemma StagesOf(d: DagState, s: StageDescriptor)
    requires WellShaped(d) && s in d.descriptor.stages
    ensures s.stageId in d.stages && d.stages[s.stageId].descriptor == s
  {
  }

  /**
   * With one producer per artifact, upstream of its readers, reference counts are exact in every run
   * exactly when a stage that names an artifact more than once is the last to read it.
   */
  lemma CountsExactIff(certified: set<string>, dag: DagDescriptor)
    requires Registrable(certified, dag) && OneProducer(dag) && ProducersUpstream(dag)
    ensures CountsAlwaysExact(dag) <==> RepeatsLast(dag)
  {
    if RepeatsLast(dag) {
      forall es, id | LegalRun(InitialState(dag), es) && NeverCancelled(es)
        ensures CountExact(Run(InitialState(dag), es), id)
      {
        InitiallySafe(certified, dag);
        InitiallySound(certified, dag);
        RunKeepsSound(InitialState(dag), es);
        if id in Run(InitialState(dag), es).stages {
          assert OutputSound(Run(InitialState(dag), es), id);
        }
      }
    } else {
      var p, s, t :| !RepeatReadsLast(dag, p, s, t);
      RepeatBreaksCount(certified, dag, p, s, t);
    }
  }

  // ---------------------------------------------------------------- lifetimes are exact for no other DAGs

  ghost predicate LifetimesExact(dag: DagDescriptor) {
    forall es, p | LegalRun(InitialState(dag), es) && NeverCancelled(es) && p in dag.stages ::
      LifetimeExact(Run(InitialState(dag), es), p)
  }

  /** No stage reads its own output or bears the name that marks inputs of the DAG. */
  ghost predicate Ordinary(dag: DagDescriptor) {
    forall s | s in dag.stages :: s.outputArtifactRef !in s.inputArtifactRefs && s.stageId != INPUT_STAGE
  }

  /** Of two stages, one can be completed without the other. */
  lemma OneWithoutOther(certified: set<string>, dag: DagDescriptor, p: StageDescriptor, q: StageDescriptor)
    returns (es: seq<Event>)
    requires Registrable(certified, dag) && p in dag.stages && q in dag.stages && p.stageId != q.stageId
    requires !Reaches(AdjacencyOf(dag.stages), p.stageId, q.stageId)
    ensures LegalRun(InitialState(dag), es) && NeverCancelled(es)
    ensures var d := Run(InitialState(dag), es);
            && p.outputArtifactRef in d.artifacts
            && q.stageId in d.stages && d.stages[q.stageId].status != COMPLETED
  {
    var start := InitialState(dag);
    var up := Upstream(start, p.stageId);
    var first := MakeReady(certified, dag, p);
    var d := Run(start, first);
    CompleteOne(d, up, p.stageId);
    RunConcat(start, first, CompletionOf(p.stageId));
    es := first + CompletionOf(p.stageId);
    var after := AfterCompletionOf(d, p.stageId);
    ReleaseKeepsInput(Stored(AssignedState(d, p.stageId, WORKER), p.stageId, []), p.inputArtifactRefs,
                      p.outputArtifactRef);
    StagesOf(after, q);
    assert DoneOrFresh(after.stages[q.stageId], q.stageId in up + {p.stageId});
  }

  /** Where two stages produce the same artifact, it can exist while one of them is not complete. */
  lemma SharedOutputBreaks(certified: set<string>, dag: DagDescriptor, p: StageDescriptor, q: StageDescriptor)
    requires Registrable(certified, dag) && !SharesNoOutput(dag, p, q)
    ensures !LifetimesExact(dag)
  {
    var adj := AdjacencyOf(dag.stages);
    var start := InitialState(dag);
    InitiallySafe(certified, dag);
    StagesOf(start, p);
    StagesOf(start, q);
    if Reaches(adj, p.stageId, q.stageId) && Reaches(adj, q.stageId, p.stageId) {
      ReachesTransitive(adj, p.stageId, q.stageId, p.stageId);
    }
    if !Reaches(adj, p.stageId, q.stageId) {
      var es := OneWithoutOther(certified, dag, p, q);
      assert !LifetimeExact(Run(start, es), q);
    } else {
      var es := OneWithoutOther(certified, dag, q, p);
      assert !LifetimeExact(Run(start, es), p);
    }
  }

  /** Where a stage produces an input of the DAG, the artifact exists from the start. */
  lemma OutputOverInputBreaks(certified: set<string>, dag: DagDescriptor, p: StageDescriptor)
    requires Registrable(certified, dag) && p in dag.stages
    requires exists a :: a in dag.inputArtifacts && a.artifactId == p.outputArtifactRef
    ensures !LifetimesExact(dag)
  {
    var start := InitialState(dag);
    InitiallyOpen(certified, dag);
    StagesOf(start, p);
    FreshArtifactFacts(dag.inputArtifacts, p.outputArtifactRef);
    assert DoneOrFresh(start.stages[p.stageId], false);
    assert Run(start, []) == start && LegalRun(start, []) && NeverCancelled([]);
    assert !LifetimeExact(Run(start, []), p);
  }

  /** What has to be complete for one stage to be complete and another one ready. */
  ghost function Before(d: DagState, t: string, p: string): set<string> {
    Upstream(d, t) + {t} + Upstream(d, p)
  }

  lemma BeforeIsClosed(certified: set<string>, dag: DagDescriptor, t: StageDescriptor, p: StageDescriptor)
    requires Registrable(certified, dag) && t in dag.stages
    ensures ClosedStages(InitialState(dag), Before(InitialState(dag), t.stageId, p.stageId))
  {
    var start := InitialState(dag);
    UpstreamIsClosed(certified, dag, t.stageId);
    UpstreamIsClosed(certified, dag, p.stageId);
    DependenciesUpstream(certified, dag, t);
    ClosedUnion(AdjacencyOf(dag.stages), Upstream(start, t.stageId), t.stageId, Upstream(start, p.stageId));
  }

  lemma ClosedUnion(adj: Adjacency, a: set<string>, x: string, b: set<string>)
    requires Closed(adj, a) && Closed(adj, b) && forall m | m in Parents(adj, x) :: m in a
    ensures Closed(adj, a + {x} + b)
  {
  }

  lemma BeforeLeavesOut(certified: set<string>, dag: DagDescriptor, t: StageDescriptor, p: StageDescriptor)
    requires Registrable(certified, dag) && t in dag.stages && p in dag.stages && t.stageId != p.stageId
    requires !Reaches(AdjacencyOf(dag.stages), t.stageId, p.stageId)
    ensures var before := Before(InitialState(dag), t.stageId, p.stageId);
            && t.stageId in before && p.stageId !in before
            && (forall dep | dep in p.dependencies :: dep in before)
  {
    DependenciesUpstream(certified, dag, p);
  }

  /** A new artifact counts all of its consumers, also those that are complete already. */
  lemma LateOutputMiscounts(d: DagState, done: set<string>, p: string, t: string)
    requires Open(d, done) && p in d.stages && p !in done && t in d.stages && t in done
    requires var ref := d.stages[p].descriptor.outputArtifactRef; Reads(d.stages[t], ref) && !Reads(d.stages[p], ref)
    ensures !CountExact(AfterCompletionOf(d, p), p)
  {
    var ref := d.stages[p].descriptor.outputArtifactRef;
    var handed := AssignedState(d, p, WORKER);
    assert DoneOrFresh(d.stages[p], false) && DoneOrFresh(d.stages[t], true);
    assert Consumers(handed, ref) == Consumers(d, ref);
    ReleaseOnce(Stored(handed, p, []), d.stages[p].descriptor.inputArtifactRefs, ref);
    WaitingAfter(d, p, ref);
    StatusAfterCompletion(handed, p, [], 0, p);
    assert Waiting(d, ref) - {p} < Consumers(d, ref) by {
      assert t in Consumers(d, ref) && t !in Waiting(d, ref);
    }
    SmallerSet(Waiting(d, ref) - {p}, Consumers(d, ref));
  }

  lemma LateOutput(certified: set<string>, dag: DagDescriptor, t: StageDescriptor, p: StageDescriptor)
    returns (es: seq<Event>)
    requires Registrable(certified, dag) && t in dag.stages && p in dag.stages && t.stageId != p.stageId
    requires p.outputArtifactRef in t.inputArtifactRefs && p.outputArtifactRef !in p.inputArtifactRefs
    requires !Reaches(AdjacencyOf(dag.stages), t.stageId, p.stageId)
    ensures LegalRun(InitialState(dag), es) && NeverCancelled(es)
    ensures !CountExact(Run(InitialState(dag), es), p.stageId)
  {
    var start := InitialState(dag);
    var done := Before(start, t.stageId, p.stageId);
    BeforeIsClosed(certified, dag, t, p);
    BeforeLeavesOut(certified, dag, t, p);
    var first := ClosedSetCompletes(certified, dag, done);
    var d := Run(start, first);
    StagesOf(d, t);
    StagesOf(d, p);
    LateOutputMiscounts(d, done, p.stageId, t.stageId);
    CompleteOne(d, done, p.stageId);
    RunConcat(start, first, CompletionOf(p.stageId));
    es := first + CompletionOf(p.stageId);
  }

  /** A reader that can complete before the producer makes the count wrong. */
  lemma EarlyReaderBreaks(certified: set<string>, dag: DagDescriptor, t: StageDescriptor, p: StageDescriptor)
    requires Registrable(certified, dag) && Ordinary(dag) && !ReadsUpstream(dag, t, p)
    ensures !CountsAlwaysExact(dag)
  {
    assert p.outputArtifactRef !in p.inputArtifactRefs;
    InitiallySafe(certified, dag);
    StagesOf(InitialState(dag), t);
    StagesOf(InitialState(dag), p);
    var es := LateOutput(certified, dag, t, p);
  }

  lemma CountFollows(dag: DagDescriptor, es: seq<Event>, p: StageDescriptor)
    requires LifetimesExact(dag) && LegalRun(InitialState(dag), es) && NeverCancelled(es) && p in dag.stages
    requires WellShaped(Run(InitialState(dag), es)) && Run(InitialState(dag), es).descriptor == dag
    ensures CountExact(Run(InitialState(dag), es), p.stageId)
  {
    assert LifetimeExact(Run(InitialState(dag), es), p);
    StagesOf(Run(InitialState(dag), es), p);
  }

  lemma ExactLifetimesCount(certified: set<string>, dag: DagDescriptor)
    requires Registrable(certified, dag) && LifetimesExact(dag)
    ensures CountsAlwaysExact(dag)
  {
    forall es, id | LegalRun(InitialState(dag), es) && NeverCancelled(es)
      ensures CountExact(Run(InitialState(dag), es), id)
    {
      InitiallySafe(certified, dag);
      RunKeepsSafe(InitialState(dag), es);
      var d := Run(InitialState(dag), es);
      if id in d.stages {
        StageInDescriptor(d, id);
        CountFollows(dag, es, d.stages[id].descriptor);
      }
    }
  }

  lemma ExactLifetimesNeedOneProducer(certified: set<string>, dag: DagDescriptor)
    requires Registrable(certified, dag) && Ordinary(dag) && LifetimesExact(dag)
    ensures OneProducer(dag)
  {
    forall p, q ensures SharesNoOutput(dag, p, q) {
      if !SharesNoOutput(dag, p, q) {
        SharedOutputBreaks(certified, dag, p, q);
      }
    }
    forall p ensures OutputIsNew(dag, p) {
      if !OutputIsNew(dag, p) {
        OutputOverInputBreaks(certified, dag, p);
      }
    }
  }

  /** All artifacts live exactly as long as they should, in every run, exactly in DAGs that are well wired. */
  lemma LifetimesExactIff(certified: set<string>, dag: DagDescriptor)
    requires Registrable(certified, dag) && Ordinary(dag)
    ensures LifetimesExact(dag) <==> WellWired(dag)
  {
    if WellWired(dag) {
      forall es, p | LegalRun(InitialState(dag), es) && NeverCancelled(es) && p in dag.stages
        ensures LifetimeExact(Run(InitialState(dag), es), p)
      {
        ArtifactLifetime(certified, dag, es, p);
      }
    }
    if LifetimesExact(dag) {
      ExactLifetimesNeedOneProducer(certified, dag);
      ExactLifetimesCount(certified, dag);
      forall t, p ensures ReadsUpstream(dag, t, p) {
        if !ReadsUpstream(dag, t, p) {
          EarlyReaderBreaks(certified, dag, t, p);
        }
      }
      CountsExactIff(certified, dag);
    }
  }

  // ---------------------------------------------------------------- what a finished DAG still has

  /** The artifact of a finished DAG's stage is there exactly if no stage reads it: the last reader frees it. */
  lemma FinishedOutputIff(certified: set<string>, dag: DagDescriptor, es: seq<Event>, p: StageDescriptor)
    requires Registrable(certified, dag) && WellWired(dag) && p in dag.stages
    requires LegalRun(InitialState(dag), es) && NeverCancelled(es) && AllCompleted(Run(InitialState(dag), es).stages)
    ensures var d := Run(InitialState(dag), es);
            && p.outputArtifactRef in d.artifacts
            && (d.artifacts[p.outputArtifactRef].dataBuffer.Some? <==> NobodyReads(dag, p.outputArtifactRef))
  {
    var d, ref := Run(InitialState(dag), es), p.outputArtifactRef;
    ArtifactLifetime(certified, dag, es, p);
    InitiallySafe(certified, dag);
    RunKeepsSafe(InitialState(dag), es);
    assert Waiting(d, ref) == {};
    if s :| s in dag.stages && ref in s.inputArtifactRefs {
      StagesOf(d, s);
      assert s.stageId in Consumers(d, ref);
    } else {
      forall id | id in Consumers(d, ref) ensures false {
        StageInDescriptor(d, id);
      }
    }
  }

  ghost predicate NobodyReads(dag: DagDescriptor, ref: string) {
    forall s | s in dag.stages :: ref !in s.inputArtifactRefs
  }

  /** Every finished run still has what the DAG declares as its outputs. */
  ghost predicate OutputsAlwaysKept(dag: DagDescriptor) {
    forall es, ref | LegalRun(InitialState(dag), es) && NeverCancelled(es)
                     && AllCompleted(Run(InitialState(dag), es).stages) && ref in dag.outputArtifactRefs ::
      InputPresent(Run(InitialState(dag), es), ref)
  }

  /** Declared outputs survive exactly if none of them, unless it is an input of the DAG, is read by a stage. */
  lemma OutputsKeptIff(certified: set<string>, dag: DagDescriptor)
    requires Registrable(certified, dag) && WellWired(dag)
    ensures OutputsAlwaysKept(dag) <==>
            forall ref | ref in dag.outputArtifactRefs && ref !in FreshArtifacts(dag.inputArtifacts) ::
              NobodyReads(dag, ref)
  {
    if OutputsAlwaysKept(dag) {
      var es := EveryDagCompletes(certified, dag);
      forall ref | ref in dag.outputArtifactRefs && ref !in FreshArtifacts(dag.inputArtifacts)
        ensures NobodyReads(dag, ref)
      {
        assert InputPresent(Run(InitialState(dag), es), ref);
        OutputKeptIff(certified, dag, es, ref);
      }
    } else {
      var es, ref :| LegalRun(InitialState(dag), es) && NeverCancelled(es)
                     && AllCompleted(Run(InitialState(dag), es).stages) && ref in dag.outputArtifactRefs
                     && !InputPresent(Run(InitialState(dag), es), ref);
      OutputKeptIff(certified, dag, es, ref);
    }
  }

  lemma OutputKeptIff(certified: set<string>, dag: DagDescriptor, es: seq<Event>, ref: string)
    requires Registrable(certified, dag) && WellWired(dag) && ref in dag.outputArtifactRefs
    requires LegalRun(InitialState(dag), es) && NeverCancelled(es) && AllCompleted(Run(InitialState(dag), es).stages)
    ensures InputPresent(Run(InitialState(dag), es), ref) <==>
            ref in FreshArtifacts(dag.inputArtifacts) || NobodyReads(dag, ref)
  {
    InitiallySafe(certified, dag);
    InitiallySound(certified, dag);
    RunKeepsSound(InitialState(dag), es);
    FreshArtifactFacts(dag.inputArtifacts, ref);
    assert IsProduced(dag, ref);
    if ref in FreshArtifacts(dag.inputArtifacts) {
      assert InputSound(Run(InitialState(dag), es), ref);
    } else {
      var p :| p in dag.stages && p.outputArtifactRef == ref;
      FinishedOutputIff(certified, dag, es, p);
    }
  }

  // ---------------------------------------------------------------- a DAG that loses an input

  function Producer(): StageDescriptor {
    StageDescriptor("a", "k", [], [], "x")
  }

  function TwiceReader(): StageDescriptor {
    StageDescriptor("b", "k", ["a"], ["x", "x"], "y")
  }

  function OnceReader(): StageDescriptor {
    StageDescriptor("c", "k", ["a"], ["x"], "z")
  }

  /** a produces x; b names it twice, c once, and neither waits for the other. */
  function TwiceAndOnce(): DagDescriptor {
    DagDescriptor("d", [Producer(), TwiceReader(), OnceReader()], [], [])
  }

  lemma TwiceAndOnceAdjacency()
    ensures AdjacencyOf(TwiceAndOnce().stages) == map["a" := [], "b" := ["a"], "c" := ["a"]]
    ensures Acyclic(AdjacencyOf(TwiceAndOnce().stages))
  {
    var stages := TwiceAndOnce().stages;
    assert stages[..2][..1] == stages[..1] && stages[..1][..0] == [];
    assert AdjacencyOf(stages[..1]) == map["a" := []];
    assert AdjacencyOf(stages[..2]) == map["a" := [], "b" := ["a"]];
    var adj := AdjacencyOf(stages);
    assert adj == map["a" := [], "b" := ["a"], "c" := ["a"]];
    forall n ensures !Reaches(adj, n, n) {
      NotOnCycle(adj, if n == "a" then {} else {"a"}, n);
    }
  }

  lemma TwiceAndOnceRegisters()
    ensures Registrable({"k"}, TwiceAndOnce())
  {
    var dag := TwiceAndOnce();
    TwiceAndOnceAdjacency();
    assert Producer() in dag.stages;
    assert IdsOf(dag.stages) == ["a", "b", "c"];
    assert IsProduced(dag, "x");
    forall s | s in dag.stages ensures ReferencesSound(dag, s) {
      assert "a" in IdsOf(dag.stages);
    }
  }

  lemma TwiceAndOnceStages(d: DagState)
    requires WellShaped(d) && d.descriptor == TwiceAndOnce()
    ensures "a" in d.stages && d.stages["a"].descriptor == Producer()
    ensures "b" in d.stages && d.stages["b"].descriptor == TwiceReader()
    ensures "c" in d.stages && d.stages["c"].descriptor == OnceReader()
  {
    var stages := TwiceAndOnce().stages;
    assert Producer() in stages && TwiceReader() in stages && OnceReader() in stages;
  }

  /** A stage whose references use up the count frees the artifact, whoever else reads it. */
  lemma RepeatFrees(d: DagState, id: string, ref: string)
    requires id in d.stages && ref in d.artifacts && d.artifacts[ref].producingStageId != INPUT_STAGE
    requires ref != d.stages[id].descriptor.outputArtifactRef
    requires 0 < d.artifacts[ref].referenceCount <= multiset(d.stages[id].descriptor.inputArtifactRefs)[ref]
    ensures var after := AfterCompletionOf(d, id); ref in after.artifacts && after.artifacts[ref].dataBuffer == None
  {
    ReleaseCounts(Stored(AssignedState(d, id, WORKER), id, []), d.stages[id].descriptor.inputArtifactRefs, ref);
  }

  /** With a and b complete, c is ready. */
  lemma OnceReaderReady(d: DagState)
    requires Open(d, {"a"} + {"b"}) && d.descriptor == TwiceAndOnce()
    ensures "c" in d.stages && d.stages["c"].status == READY && Reads(d.stages["c"], "x")
  {
    TwiceAndOnceStages(d);
    EnabledIsReady(d, {"a"} + {"b"}, "c");
  }

  /** The second reader takes both counts away and leaves the first one without its input. */
  lemma TwiceReaderFrees(d: DagState)
    requires Open(d, {"a"}) && d.descriptor == TwiceAndOnce()
    requires "x" in d.artifacts && d.artifacts["x"].referenceCount == 2 && d.artifacts["x"].producingStageId == "a"
    ensures LegalRun(d, CompletionOf("b")) && NeverCancelled(CompletionOf("b"))
    ensures var after := Run(d, CompletionOf("b"));
            && "c" in after.stages && after.stages["c"].status == READY && Reads(after.stages["c"], "x")
            && "x" in after.artifacts && after.artifacts["x"].dataBuffer == None
  {
    TwiceAndOnceStages(d);
    CompleteOne(d, {"a"}, "b");
    RepeatFrees(d, "b", "x");
    OnceReaderReady(AfterCompletionOf(d, "b"));
  }

  /** The artifact of a completing stage without inputs is counted once for each reader. */
  lemma FreshOutput(d: DagState, id: string)
    requires id in d.stages && d.stages[id].descriptor.inputArtifactRefs == []
    ensures var ref := d.stages[id].descriptor.outputArtifactRef;
            var after := AfterCompletionOf(d, id);
            ref in after.artifacts && after.artifacts[ref] == Artifact(ref, id, Some([]), |Consumers(d, ref)|, false)
  {
    var ref := d.stages[id].descriptor.outputArtifactRef;
    assert Consumers(AssignedState(d, id, WORKER), ref) == Consumers(d, ref);
  }

  /** After a and b have completed, c is ready and its input is gone. */
  lemma RepeatFreesEarly() returns (es: seq<Event>)
    ensures Registrable({"k"}, TwiceAndOnce()) && LegalRun(InitialState(TwiceAndOnce()), es) && NeverCancelled(es)
    ensures var d := Run(InitialState(TwiceAndOnce()), es);
            && "c" in d.stages && d.stages["c"].status == READY && Reads(d.stages["c"], "x")
            && "x" in d.artifacts && d.artifacts["x"].dataBuffer == None
  {
    var d := InitialState(TwiceAndOnce());
    TwiceAndOnceRegisters();
    InitiallyOpen({"k"}, TwiceAndOnce());
    TwiceAndOnceStages(d);
    TwoReaders(d);
    CompleteOne(d, {}, "a");
    FreshOutput(d, "a");
    assert {} + {"a"} == {"a"};
    TwiceReaderFrees(AfterCompletionOf(d, "a"));
    RunConcat(d, CompletionOf("a"), CompletionOf("b"));
    es := CompletionOf("a") + CompletionOf("b");
  }

  lemma TwoReaders(d: DagState)
    requires WellShaped(d) && d.descriptor == TwiceAndOnce()
    ensures Consumers(d, "x") == {"b", "c"} && |Consumers(d, "x")| == 2
  {
    TwiceAndOnceStages(d);
    assert IdsOf(TwiceAndOnce().stages) == ["a", "b", "c"];
    assert Consumers(d, "x") == {"b", "c"};
  }
}
