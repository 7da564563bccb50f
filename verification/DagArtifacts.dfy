/**
 * The life of artifacts over whole runs: reference counts, when buffers are freed, and that no stage
 * ever finds an input missing.
 */
module DagArtifacts {
  import opened Prelude
  import opened Graph
  import opened DagEngine
  import opened DagRuns

  predicate SharesNoOutput(dag: DagDescriptor, s: StageDescriptor, t: StageDescriptor) {
    s in dag.stages && t in dag.stages && s.outputArtifactRef == t.outputArtifactRef ==> s == t
  }

  ghost predicate OutputIsNew(dag: DagDescriptor, s: StageDescriptor) {
    s in dag.stages ==>
      s.stageId != INPUT_STAGE && forall a | a in dag.inputArtifacts :: s.outputArtifactRef != a.artifactId
  }

  ghost predicate OneProducer(dag: DagDescriptor) {
    && (forall s, t :: SharesNoOutput(dag, s, t))
    && (forall s :: OutputIsNew(dag, s))
  }

  ghost predicate ReadsUpstream(dag: DagDescriptor, s: StageDescriptor, t: StageDescriptor) {
    s in dag.stages && t in dag.stages && t.outputArtifactRef in s.inputArtifactRefs ==>
      Reaches(AdjacencyOf(dag.stages), s.stageId, t.stageId)
  }

  /** Whoever reads an artifact depends, directly or not, on the stage that produces it. */
  ghost predicate ProducersUpstream(dag: DagDescriptor) {
    forall s, t :: ReadsUpstream(dag, s, t)
  }

  predicate Repeats(s: StageDescriptor, ref: string) {
    multiset(s.inputArtifactRefs)[ref] >= 2
  }

  ghost predicate RepeatReadsLast(dag: DagDescriptor, p: StageDescriptor, s: StageDescriptor, t: StageDescriptor) {
    p in dag.stages && s in dag.stages && t in dag.stages && Repeats(s, p.outputArtifactRef)
    && p.outputArtifactRef in t.inputArtifactRefs && t != s ==>
      Reaches(AdjacencyOf(dag.stages), s.stageId, t.stageId)
  }

  /** A stage that names another stage's output more than once is the last to read it. */
  ghost predicate RepeatsLast(dag: DagDescriptor) {
    forall p, s, t :: RepeatReadsLast(dag, p, s, t)
  }

  /** The DAGs whose artifacts are accounted for. Registration checks none of this. */
  ghost predicate WellWired(dag: DagDescriptor) {
    OneProducer(dag) && ProducersUpstream(dag) && RepeatsLast(dag)
  }

  // ---------------------------------------------------------------- dependencies are complete all the way up

  lemma {:induction false} AncestorsOnWalk(d: DagState, p: seq<string>, i: nat)
    requires Safe(d) && Walk(AdjacencyOf(d.descriptor.stages), p) && 1 <= i < |p|
    requires p[0] in d.stages && Started(d.stages[p[0]])
    ensures p[i] in d.stages && d.stages[p[i]].status == COMPLETED
  {
    if i > 1 {
      AncestorsOnWalk(d, p, i - 1);
    }
    assert SafeAt(d, p[i - 1]);
    assert p[i - 1 + 1] in Parents(AdjacencyOf(d.descriptor.stages), p[i - 1]);
    ParentsAreDependencies(d, p[i - 1]);
  }

  /** A stage that has started has every stage upstream of it complete. */
  lemma AncestorsCompleted(d: DagState, id: string, up: string)
    requires Safe(d) && id in d.stages && Started(d.stages[id])
    requires Reaches(AdjacencyOf(d.descriptor.stages), id, up)
    ensures up in d.stages && d.stages[up].status == COMPLETED
  {
    var p :| Walk(AdjacencyOf(d.descriptor.stages), p) && |p| >= 2 && p[0] == id && p[|p| - 1] == up;
    AncestorsOnWalk(d, p, |p| - 1);
  }

  // ---------------------------------------------------------------- the accounting invariant

  /** Consumers that have not completed yet. */
  ghost function Waiting(d: DagState, ref: string): set<string> {
    set id | id in d.stages && Reads(d.stages[id], ref) && d.stages[id].status != COMPLETED
  }

  /** The artifact of a completed stage: counted once per waiting consumer, freed when the last one is done. */
  ghost predicate Accounted(d: DagState, id: string, a: Artifact)
    requires id in d.stages
  {
    var ref := d.stages[id].descriptor.outputArtifactRef;
    && a.producingStageId == id
    && a.referenceCount == |Waiting(d, ref)|
    && (a.isCleanedUp <==> Consumers(d, ref) != {} && Waiting(d, ref) == {})
    && (a.dataBuffer.Some? <==> !a.isCleanedUp)
  }

  ghost predicate OutputSound(d: DagState, id: string)
    requires id in d.stages
  {
    var ref := d.stages[id].descriptor.outputArtifactRef;
    if d.stages[id].status == COMPLETED then ref in d.artifacts && Accounted(d, id, d.artifacts[ref])
    else ref !in d.artifacts
  }

  /** The DAG's own inputs are never counted down and never freed. */
  ghost predicate InputSound(d: DagState, ref: string) {
    var inputs := FreshArtifacts(d.descriptor.inputArtifacts);
    ref in inputs ==>
      && ref in d.artifacts && d.artifacts[ref].producingStageId == INPUT_STAGE
      && d.artifacts[ref].dataBuffer == inputs[ref].dataBuffer && !d.artifacts[ref].isCleanedUp
  }

  ghost predicate ArtifactsSound(d: DagState) {
    && (forall id | id in d.stages :: OutputSound(d, id))
    && (forall ref :: InputSound(d, ref))
  }

  lemma {:induction false} FreshArtifactFacts(inputs: seq<InputArtifact>, ref: string)
    ensures ref in FreshArtifacts(inputs) <==> exists a :: a in inputs && a.artifactId == ref
    ensures ref in FreshArtifacts(inputs) ==>
              FreshArtifacts(inputs)[ref].producingStageId == INPUT_STAGE && !FreshArtifacts(inputs)[ref].isCleanedUp
  {
    if inputs != [] {
      FreshArtifactFacts(inputs[..|inputs| - 1], ref);
      assert inputs == inputs[..|inputs| - 1] + [inputs[|inputs| - 1]];
    }
  }

  lemma StageInDescriptor(d: DagState, id: string)
    requires WellShaped(d) && id in d.stages
    ensures d.stages[id].descriptor in d.descriptor.stages && d.stages[id].descriptor.stageId == id
  {
    var i :| 0 <= i < |d.descriptor.stages| && IdsOf(d.descriptor.stages)[i] == id;
    assert d.descriptor.stages[i] in d.descriptor.stages;
  }

  lemma OutputsDiffer(d: DagState, a: string, b: string)
    requires WellShaped(d) && OneProducer(d.descriptor) && a in d.stages && b in d.stages
    requires d.stages[a].descriptor.outputArtifactRef == d.stages[b].descriptor.outputArtifactRef
    ensures a == b
  {
    StageInDescriptor(d, a);
    StageInDescriptor(d, b);
    assert SharesNoOutput(d.descriptor, d.stages[a].descriptor, d.stages[b].descriptor);
  }

  lemma OutputIsNoInput(d: DagState, id: string)
    requires WellShaped(d) && OneProducer(d.descriptor) && id in d.stages
    ensures d.stages[id].descriptor.outputArtifactRef !in FreshArtifacts(d.descriptor.inputArtifacts)
    ensures id != INPUT_STAGE
  {
    StageInDescriptor(d, id);
    assert OutputIsNew(d.descriptor, d.stages[id].descriptor);
    FreshArtifactFacts(d.descriptor.inputArtifacts, d.stages[id].descriptor.outputArtifactRef);
  }

  lemma InitiallySound(certified: set<string>, dag: DagDescriptor)
    requires Registrable(certified, dag) && WellWired(dag)
    ensures ArtifactsSound(InitialState(dag))
  {
    var d := InitialState(dag);
    InitiallySafe(certified, dag);
    FreshStagesShape(dag.stages);
    forall id | id in d.stages ensures OutputSound(d, id) {
      OutputIsNoInput(d, id);
      StageInDescriptor(d, id);
    }
    forall ref ensures InputSound(d, ref) {
      FreshArtifactFacts(dag.inputArtifacts, ref);
    }
  }

  // ---------------------------------------------------------------- one completion

  /**
   * Releasing counts an artifact down once per repetition, and frees it when that uses the count up. The
   * count holds one per consumer, so a stage naming an input twice can free it under another reader.
   */
  lemma {:induction false} ReleaseCounts(artifacts: map<string, Artifact>, refs: seq<string>, a: string)
    requires a in artifacts && artifacts[a].producingStageId != INPUT_STAGE
    ensures a in Release(artifacts, refs)
    ensures var before, after, n := artifacts[a], Release(artifacts, refs)[a], multiset(refs)[a];
            if n == 0 then after == before
            else if before.referenceCount <= n
            then after == before.(referenceCount := 0, isCleanedUp := true, dataBuffer := None)
            else after == before.(referenceCount := before.referenceCount - n)
  {
    if refs != [] {
      var init, last := refs[..|refs| - 1], refs[|refs| - 1];
      ReleaseCounts(artifacts, init, a);
      assert refs == init + [last];
      assert multiset(refs)[a] == multiset(init)[a] + if last == a then 1 else 0;
    }
  }

  lemma {:induction false} ReleaseKeepsInput(artifacts: map<string, Artifact>, refs: seq<string>, a: string)
    ensures a in Release(artifacts, refs) <==> a in artifacts
    ensures a in artifacts && artifacts[a].producingStageId == INPUT_STAGE ==>
              Release(artifacts, refs)[a] == artifacts[a]
    ensures a in artifacts ==> Release(artifacts, refs)[a].producingStageId == artifacts[a].producingStageId
  {
    if refs != [] {
      ReleaseKeepsInput(artifacts, refs[..|refs| - 1], a);
    }
  }

  /** The repetitions of a reference make no difference: there are none, or the count is used up at once. */
  predicate OnceEnough(artifacts: map<string, Artifact>, refs: seq<string>, a: string) {
    a in artifacts && artifacts[a].producingStageId != INPUT_STAGE ==>
      multiset(refs)[a] <= 1 || artifacts[a].referenceCount <= 1
  }

  /** Then releasing touches the artifact once if it is referenced, and not at all if it is not. */
  lemma ReleaseOnce(artifacts: map<string, Artifact>, refs: seq<string>, a: string)
    requires OnceEnough(artifacts, refs, a)
    ensures a in Release(artifacts, refs) <==> a in artifacts
    ensures a in artifacts ==>
              Release(artifacts, refs)[a] == if a in refs then ReleaseOne(artifacts[a]) else artifacts[a]
  {
    ReleaseKeepsInput(artifacts, refs, a);
    assert a in refs <==> multiset(refs)[a] > 0;
    if a in artifacts && artifacts[a].producingStageId != INPUT_STAGE {
      ReleaseCounts(artifacts, refs, a);
    }
  }

  /** When a stage completes none of its consumers has: they all wait for it, and it is not one of them. */
  lemma ConsumersStillWait(d: DagState, id: string, c: string)
    requires Safe(d) && WellWired(d.descriptor) && Acyclic(AdjacencyOf(d.descriptor.stages))
    requires id in d.stages && d.stages[id].status != COMPLETED
    requires c in Consumers(d, d.stages[id].descriptor.outputArtifactRef)
    ensures d.stages[c].status != COMPLETED && c != id
  {
    StageInDescriptor(d, id);
    StageInDescriptor(d, c);
    assert ReadsUpstream(d.descriptor, d.stages[c].descriptor, d.stages[id].descriptor);
    if d.stages[c].status == COMPLETED {
      AncestorsCompleted(d, c, id);
    }
  }

  lemma StatusAfterCompletion(d: DagState, id: string, out: Buffer, now: int, k: string)
    requires id in d.stages && k in d.stages
    ensures var after := CompletedState(d, id, out, now);
            && k in after.stages && after.stages[k].descriptor == d.stages[k].descriptor
            && (after.stages[k].status == COMPLETED <==> k == id || d.stages[k].status == COMPLETED)
  {
  }

  lemma ReadersAfterCompletion(d: DagState, id: string, out: Buffer, now: int, ref: string)
    requires id in d.stages
    ensures Consumers(CompletedState(d, id, out, now), ref) == Consumers(d, ref)
    ensures Waiting(CompletedState(d, id, out, now), ref) == Waiting(d, ref) - {id}
  {
    forall k | k in d.stages {
      StatusAfterCompletion(d, id, out, now, k);
    }
  }

  lemma AllConsumersWait(d: DagState, id: string)
    requires Safe(d) && WellWired(d.descriptor) && Acyclic(AdjacencyOf(d.descriptor.stages))
    requires id in d.stages && d.stages[id].status != COMPLETED
    ensures var ref := d.stages[id].descriptor.outputArtifactRef;
            !Reads(d.stages[id], ref) && Waiting(d, ref) - {id} == Consumers(d, ref)
  {
    var ref := d.stages[id].descriptor.outputArtifactRef;
    forall c | c in Consumers(d, ref) ensures d.stages[c].status != COMPLETED && c != id {
      ConsumersStillWait(d, id, c);
    }
    assert id !in Consumers(d, ref);
  }

  lemma NewOutputSound(d: DagState, id: string, out: Buffer, now: int)
    requires Safe(d) && WellWired(d.descriptor) && Acyclic(AdjacencyOf(d.descriptor.stages))
    requires id in d.stages && d.stages[id].status != COMPLETED
    ensures OutputSound(CompletedState(d, id, out, now), id)
  {
    var s := d.stages[id].descriptor;
    var ref := s.outputArtifactRef;
    StageInDescriptor(d, id);
    AllConsumersWait(d, id);
    ReadersAfterCompletion(d, id, out, now, ref);
    StatusAfterCompletion(d, id, out, now, id);
    ReleaseOnce(Stored(d, id, out), s.inputArtifactRefs, ref);
  }

  /** The artifacts with the output of a completing stage stored, before its inputs are released. */
  ghost function Stored(d: DagState, id: string, out: Buffer): map<string, Artifact>
    requires id in d.stages
  {
    var mine := d.stages[id].descriptor.outputArtifactRef;
    d.artifacts[mine := Artifact(mine, id, Some(out), |Consumers(d, mine)|, false)]
  }

  /** The artifact map a completion leaves behind, entry by entry. */
  lemma ArtifactsAfterCompletion(d: DagState, id: string, out: Buffer, now: int, ref: string)
    requires id in d.stages && OnceEnough(d.artifacts, d.stages[id].descriptor.inputArtifactRefs, ref)
    requires ref != d.stages[id].descriptor.outputArtifactRef
    ensures var after := CompletedState(d, id, out, now);
            && (ref in after.artifacts <==> ref in d.artifacts)
            && (ref in d.artifacts ==>
                  after.artifacts[ref]
                  == if Reads(d.stages[id], ref) then ReleaseOne(d.artifacts[ref]) else d.artifacts[ref])
  {
    ReleaseOnce(Stored(d, id, out), d.stages[id].descriptor.inputArtifactRefs, ref);
  }

  lemma OtherReaderDone(d: DagState, id: string, q: string, c: string)
    requires Safe(d) && RepeatsLast(d.descriptor) && id in d.stages && Started(d.stages[id])
    requires q in d.stages && c in d.stages
    requires Repeats(d.stages[id].descriptor, d.stages[q].descriptor.outputArtifactRef)
    requires Reads(d.stages[c], d.stages[q].descriptor.outputArtifactRef) && c != id
    ensures d.stages[c].status == COMPLETED
  {
    StageInDescriptor(d, id);
    StageInDescriptor(d, q);
    StageInDescriptor(d, c);
    assert RepeatReadsLast(d.descriptor, d.stages[q].descriptor, d.stages[id].descriptor, d.stages[c].descriptor);
    AncestorsCompleted(d, id, c);
  }

  /** A stage that repeats a reference completes after all other readers, so it finds a count of one. */
  lemma RepeatFindsCountOne(d: DagState, id: string, q: string)
    requires Safe(d) && RepeatsLast(d.descriptor)
    requires id in d.stages && d.stages[id].status != COMPLETED && Started(d.stages[id]) && q in d.stages
    requires Repeats(d.stages[id].descriptor, d.stages[q].descriptor.outputArtifactRef)
    ensures Waiting(d, d.stages[q].descriptor.outputArtifactRef) == {id}
  {
    var ref := d.stages[q].descriptor.outputArtifactRef;
    forall c | c in Waiting(d, ref) ensures c == id {
      if c != id {
        OtherReaderDone(d, id, q, c);
      }
    }
    assert ref in d.stages[id].descriptor.inputArtifactRefs;
    assert id in Waiting(d, ref);
  }

  lemma OldOutputOnce(d: DagState, id: string, q: string)
    requires Safe(d) && WellWired(d.descriptor) && q in d.stages && OutputSound(d, q)
    requires id in d.stages && d.stages[id].status != COMPLETED && Started(d.stages[id])
    ensures OnceEnough(d.artifacts, d.stages[id].descriptor.inputArtifactRefs, d.stages[q].descriptor.outputArtifactRef)
  {
    if Repeats(d.stages[id].descriptor, d.stages[q].descriptor.outputArtifactRef) {
      RepeatFindsCountOne(d, id, q);
    }
  }

  lemma OldOutputSound(d: DagState, id: string, out: Buffer, now: int, q: string)
    requires Safe(d) && WellWired(d.descriptor)
    requires id in d.stages && d.stages[id].status != COMPLETED && Started(d.stages[id])
    requires q in d.stages && q != id && OutputSound(d, q)
    ensures OutputSound(CompletedState(d, id, out, now), q)
  {
    var ref := d.stages[q].descriptor.outputArtifactRef;
    StageInDescriptor(d, id);
    if ref == d.stages[id].descriptor.outputArtifactRef {
      OutputsDiffer(d, id, q);
    }
    OutputIsNoInput(d, q);
    StatusAfterCompletion(d, id, out, now, q);
    OldOutputOnce(d, id, q);
    ArtifactsAfterCompletion(d, id, out, now, ref);
    if d.stages[q].status == COMPLETED {
      ReleaseKeepsAccount(d, id, CompletedState(d, id, out, now), out, now, q);
    }
  }

  lemma ReleaseKeepsAccount(d: DagState, id: string, after: DagState, out: Buffer, now: int, q: string)
    requires id in d.stages && d.stages[id].status != COMPLETED && q in d.stages && q != INPUT_STAGE
    requires after == CompletedState(d, id, out, now)
    requires q in after.stages && after.stages[q].descriptor == d.stages[q].descriptor
    requires var ref := d.stages[q].descriptor.outputArtifactRef;
             ref in d.artifacts && Accounted(d, q, d.artifacts[ref])
    ensures var ref := d.stages[q].descriptor.outputArtifactRef;
            Accounted(after, q, if Reads(d.stages[id], ref) then ReleaseOne(d.artifacts[ref]) else d.artifacts[ref])
  {
    var ref := d.stages[q].descriptor.outputArtifactRef;
    ReadersAfterCompletion(d, id, out, now, ref);
    if Reads(d.stages[id], ref) {
      assert id in Waiting(d, ref) && id in Consumers(d, ref);
      assert |Waiting(d, ref) - {id}| == |Waiting(d, ref)| - 1;
      assert Waiting(d, ref) - {id} == {} <==> |Waiting(d, ref) - {id}| == 0;
    } else {
      assert Waiting(d, ref) - {id} == Waiting(d, ref);
    }
  }

  lemma InputStaysSound(d: DagState, id: string, out: Buffer, now: int, ref: string)
    requires WellShaped(d) && OneProducer(d.descriptor) && id in d.stages && InputSound(d, ref)
    ensures InputSound(CompletedState(d, id, out, now), ref)
  {
    OutputIsNoInput(d, id);
    ReleaseKeepsInput(Stored(d, id, out), d.stages[id].descriptor.inputArtifactRefs, ref);
  }

  /** Events that neither complete a stage nor cancel leave the accounts alone. */
  lemma SameCompletedKeepsSound(d: DagState, after: DagState)
    requires ArtifactsSound(d) && after.descriptor == d.descriptor && after.artifacts == d.artifacts
    requires SameCompleted(d.stages, after.stages)
    requires forall id | id in d.stages :: after.stages[id].descriptor == d.stages[id].descriptor
    ensures ArtifactsSound(after)
  {
    forall id | id in after.stages ensures OutputSound(after, id) {
      var ref := d.stages[id].descriptor.outputArtifactRef;
      assert OutputSound(d, id);
      assert Waiting(after, ref) == Waiting(d, ref);
      assert Consumers(after, ref) == Consumers(d, ref);
    }
    forall ref ensures InputSound(after, ref) {
      assert InputSound(d, ref);
    }
  }

  lemma AssignKeepsSound(d: DagState, id: string, w: string)
    requires ArtifactsSound(d) && id in d.stages && d.stages[id].status == READY
    ensures ArtifactsSound(AssignedState(d, id, w))
  {
    SameCompletedKeepsSound(d, AssignedState(d, id, w));
  }

  lemma FailKeepsSound(d: DagState, id: string, error: string)
    requires ArtifactsSound(d) && !FailureIgnored(d, id)
    ensures ArtifactsSound(FailedState(d, id, error))
  {
    SameCompletedKeepsSound(d, FailedState(d, id, error));
  }

  lemma AcceptedIsStarted(d: DagState, e: Event)
    requires e.Complete? && Reported(d, e) && Rejection(d, e.stageId, e.workerId, e.attempt) == None
    ensures e.stageId in d.stages && d.stages[e.stageId].status != COMPLETED && Started(d.stages[e.stageId])
  {
  }

  lemma StepKeepsSound(d: DagState, e: Event)
    requires Safe(d) && ArtifactsSound(d) && WellWired(d.descriptor) && Acyclic(AdjacencyOf(d.descriptor.stages))
    requires Reported(d, e) && !e.Cancel?
    ensures ArtifactsSound(Step(d, e))
  {
    match e
    case Assign(id, w) =>
      if !d.isCancelled && id in d.stages && d.stages[id].status == READY {
        AssignKeepsSound(d, id, w);
      }
    case Complete(id, out, w, n, now) =>
      if Rejection(d, id, w, n) == None {
        AcceptedIsStarted(d, e);
        CompletionKeepsSound(d, id, out, now);
      }
    case Fail(id, error, _, n) =>
      if !FailureIgnored(d, id) {
        FailKeepsSound(d, id, error);
      }
  }

  lemma CompletionKeepsSound(d: DagState, id: string, out: Buffer, now: int)
    requires Safe(d) && ArtifactsSound(d) && WellWired(d.descriptor) && Acyclic(AdjacencyOf(d.descriptor.stages))
    requires id in d.stages && d.stages[id].status != COMPLETED && Started(d.stages[id])
    ensures ArtifactsSound(CompletedState(d, id, out, now))
  {
    var after := CompletedState(d, id, out, now);
    forall q | q in after.stages ensures OutputSound(after, q) {
      if q == id {
        NewOutputSound(d, id, out, now);
      } else {
        OldOutputSound(d, id, out, now, q);
      }
    }
    forall ref ensures InputSound(after, ref) {
      InputStaysSound(d, id, out, now, ref);
    }
  }

  // ---------------------------------------------------------------- whole runs

  ghost predicate NeverCancelled(es: seq<Event>) {
    forall e | e in es :: !e.Cancel?
  }

  lemma {:induction false} RunKeepsSound(d: DagState, es: seq<Event>)
    requires Safe(d) && ArtifactsSound(d) && WellWired(d.descriptor) && Acyclic(AdjacencyOf(d.descriptor.stages))
    requires LegalRun(d, es) && NeverCancelled(es)
    ensures Safe(Run(d, es)) && ArtifactsSound(Run(d, es)) && Run(d, es).descriptor == d.descriptor
    decreases |es|
  {
    if es != [] {
      StepKeepsSafe(d, es[0]);
      StepKeepsSound(d, es[0]);
      RunKeepsSound(Step(d, es[0]), es[1..]);
    }
  }

  /**
   * Exact lifetime of a stage's artifact: it exists once the stage is complete, its count is the number
   * of consumers not yet complete, and its buffer is freed exactly when it has consumers and all of them
   * are complete.
   */
  ghost predicate LifetimeExact(d: DagState, p: StageDescriptor) {
    var ref := p.outputArtifactRef;
    && p.stageId in d.stages
    && (ref in d.artifacts <==> d.stages[p.stageId].status == COMPLETED)
    && (ref in d.artifacts ==>
          && d.artifacts[ref].referenceCount == |Waiting(d, ref)|
          && (d.artifacts[ref].dataBuffer == None <==> Consumers(d, ref) != {} && Waiting(d, ref) == {}))
  }

  lemma ArtifactLifetime(certified: set<string>, dag: DagDescriptor, es: seq<Event>, p: StageDescriptor)
    requires Registrable(certified, dag) && WellWired(dag) && p in dag.stages
    requires LegalRun(InitialState(dag), es) && NeverCancelled(es)
    ensures LifetimeExact(Run(InitialState(dag), es), p)
  {
    InitiallySafe(certified, dag);
    InitiallySound(certified, dag);
    RunKeepsSound(InitialState(dag), es);
    var d := Run(InitialState(dag), es);
    assert OutputSound(d, p.stageId);
  }

  // ---------------------------------------------------------------- what artifacts hold

  /** The artifact of a completed stage holds the given bytes, as long as it holds any. */
  ghost predicate HoldsOutput(d: DagState, id: string, given: Option<Buffer>) {
    id in d.stages && d.stages[id].status == COMPLETED ==>
      var ref := d.stages[id].descriptor.outputArtifactRef;
      && given.Some? && ref in d.artifacts
      && (d.artifacts[ref].dataBuffer.Some? ==> d.artifacts[ref].dataBuffer == given)
  }

  lemma {:induction false} ReleaseKeepsBytes(artifacts: map<string, Artifact>, refs: seq<string>, a: string)
    requires a in artifacts
    ensures a in Release(artifacts, refs)
    ensures Release(artifacts, refs)[a].dataBuffer in {artifacts[a].dataBuffer, None}
  {
    if refs != [] {
      ReleaseKeepsBytes(artifacts, refs[..|refs| - 1], a);
    }
  }

  lemma CompletionHoldsOutput(d: DagState, done: string, out: Buffer, now: int, id: string, given: Option<Buffer>)
    requires WellShaped(d) && OneProducer(d.descriptor) && done in d.stages && id in d.stages
    requires id != done ==> HoldsOutput(d, id, given)
    ensures HoldsOutput(CompletedState(d, done, out, now), id, if id == done then Some(out) else given)
  {
    var ref := d.stages[id].descriptor.outputArtifactRef;
    StatusAfterCompletion(d, done, out, now, id);
    if id != done && ref == d.stages[done].descriptor.outputArtifactRef {
      OutputsDiffer(d, id, done);
    }
    var stored := d.artifacts[d.stages[done].descriptor.outputArtifactRef :=
      Artifact(d.stages[done].descriptor.outputArtifactRef, done, Some(out),
               |Consumers(d, d.stages[done].descriptor.outputArtifactRef)|, false)];
    if ref in stored {
      ReleaseKeepsBytes(stored, d.stages[done].descriptor.inputArtifactRefs, ref);
    }
  }

  lemma StepHoldsOutput(d: DagState, e: Event, id: string, given: Option<Buffer>)
    requires WellShaped(d) && OneProducer(d.descriptor) && id in d.stages && HoldsOutput(d, id, given)
    ensures HoldsOutput(Step(d, e), id, if IsCompletionOf(d, e, id) then Some(e.output) else given)
  {
    if e.Complete? {
      if Rejection(d, e.stageId, e.workerId, e.attempt) == None {
        CompletionHoldsOutput(d, e.stageId, e.output, e.now, id, given);
      }
    }
  }

  lemma {:induction false} RunHoldsOutput(d: DagState, es: seq<Event>, id: string, given: Option<Buffer>)
    requires Safe(d) && OneProducer(d.descriptor) && id in d.stages && HoldsOutput(d, id, given) && LegalRun(d, es)
    ensures HoldsOutput(Run(d, es), id, Output(d, es, id, given))
    decreases |es|
  {
    if es != [] {
      StepHoldsOutput(d, es[0], id, given);
      StepKeepsSafe(d, es[0]);
      StepKeepsCompleted(d, es[0], id);
      RunHoldsOutput(Step(d, es[0]), es[1..], id, if IsCompletionOf(d, es[0], id) then Some(es[0].output) else given);
    }
  }

  /** Some stage that has not completed reads the artifact, or none ever does. */
  ghost predicate StillNeeded(d: DagState, ref: string) {
    || (exists id ::
          id in d.stages && d.stages[id].status != COMPLETED && ref in d.stages[id].descriptor.inputArtifactRefs)
    || (forall id | id in d.stages :: ref !in d.stages[id].descriptor.inputArtifactRefs)
  }

  /**
   * In every uncancelled run, the artifact of a completed stage holds exactly the output in the result
   * that was accepted for the stage, until its last reader completes; from then on it holds nothing.
   */
  lemma ArtifactHoldsOutput(certified: set<string>, dag: DagDescriptor, es: seq<Event>, p: StageDescriptor)
    requires Registrable(certified, dag) && WellWired(dag) && p in dag.stages
    requires LegalRun(InitialState(dag), es) && NeverCancelled(es)
    ensures var d, output := Run(InitialState(dag), es), Output(InitialState(dag), es, p.stageId, None);
            && p.stageId in d.stages
            && (d.stages[p.stageId].status == COMPLETED ==>
                  && output.Some? && p.outputArtifactRef in d.artifacts
                  && d.artifacts[p.outputArtifactRef].dataBuffer
                     == if StillNeeded(d, p.outputArtifactRef) then output else None)
  {
    AlwaysHoldsOutput(certified, dag, es, p.stageId);
    ArtifactLifetime(certified, dag, es, p);
    StillNeededIff(Run(InitialState(dag), es), p.outputArtifactRef);
    RunKeepsDescriptors(certified, dag, es, p);
  }

  lemma StillNeededIff(d: DagState, ref: string)
    ensures StillNeeded(d, ref) <==> Consumers(d, ref) == {} || Waiting(d, ref) != {}
  {
    if StillNeeded(d, ref) && Consumers(d, ref) != {} {
      var c :| c in Consumers(d, ref);
      var id :| id in d.stages && ref in d.stages[id].descriptor.inputArtifactRefs && d.stages[id].status != COMPLETED;
      assert id in Waiting(d, ref);
    }
    if Waiting(d, ref) != {} {
      var id :| id in Waiting(d, ref);
    } else if Consumers(d, ref) == {} {
      forall id | id in d.stages ensures ref !in d.stages[id].descriptor.inputArtifactRefs {
        assert id !in Consumers(d, ref);
      }
    }
  }

  lemma RunKeepsDescriptors(certified: set<string>, dag: DagDescriptor, es: seq<Event>, p: StageDescriptor)
    requires Registrable(certified, dag) && p in dag.stages && LegalRun(InitialState(dag), es)
    ensures p.stageId in Run(InitialState(dag), es).stages
            && Run(InitialState(dag), es).stages[p.stageId].descriptor == p
  {
    InitiallySafe(certified, dag);
    RunKeepsSafe(InitialState(dag), es);
  }

  lemma AlwaysHoldsOutput(certified: set<string>, dag: DagDescriptor, es: seq<Event>, id: string)
    requires Registrable(certified, dag) && OneProducer(dag) && LegalRun(InitialState(dag), es)
    ensures HoldsOutput(Run(InitialState(dag), es), id, Output(InitialState(dag), es, id, None))
  {
    var start := InitialState(dag);
    InitiallySafe(certified, dag);
    RunKeepsSafe(start, es);
    if id in start.stages {
      FreshStagesShape(dag.stages);
      StageInDescriptor(start, id);
      assert start.stages[id] == FreshStage(start.stages[id].descriptor);
      RunHoldsOutput(start, es, id, None);
    }
  }

  /** The input is there: an intermediate still has its buffer, an input of the DAG the one it came with. */
  ghost predicate InputPresent(d: DagState, ref: string) {
    var inputs := FreshArtifacts(d.descriptor.inputArtifacts);
    && ref in d.artifacts
    && (if ref in inputs then d.artifacts[ref].dataBuffer == inputs[ref].dataBuffer
        else d.artifacts[ref].dataBuffer.Some?)
  }

  /** An intermediate whose producer is upstream of a reader that has started is complete and still counted. */
  lemma IntermediatePresent(d: DagState, id: string, p: string)
    requires Safe(d) && ArtifactsSound(d) && id in d.stages && p in d.stages
    requires Started(d.stages[id]) && d.stages[id].status != COMPLETED
    requires Reads(d.stages[id], d.stages[p].descriptor.outputArtifactRef)
    requires Reaches(AdjacencyOf(d.descriptor.stages), id, p)
    ensures var ref := d.stages[p].descriptor.outputArtifactRef;
            ref in d.artifacts && d.artifacts[ref].dataBuffer.Some?
  {
    AncestorsCompleted(d, id, p);
    assert OutputSound(d, p);
    assert id in Waiting(d, d.stages[p].descriptor.outputArtifactRef);
  }

  lemma ReaderFindsInput(certified: set<string>, d: DagState, id: string, ref: string)
    requires Registrable(certified, d.descriptor) && WellWired(d.descriptor) && Safe(d) && ArtifactsSound(d)
    requires id in d.stages && ref in d.stages[id].descriptor.inputArtifactRefs
    requires Started(d.stages[id]) && d.stages[id].status != COMPLETED
    ensures InputPresent(d, ref)
  {
    StageInDescriptor(d, id);
    assert ReferencesSound(d.descriptor, d.stages[id].descriptor);
    FreshArtifactFacts(d.descriptor.inputArtifacts, ref);
    if ref in FreshArtifacts(d.descriptor.inputArtifacts) {
      assert InputSound(d, ref);
    } else {
      var p :| p in d.descriptor.stages && p.outputArtifactRef == ref;
      assert p.stageId in d.stages && d.stages[p.stageId].descriptor == p;
      assert ReadsUpstream(d.descriptor, d.stages[id].descriptor, p);
      IntermediatePresent(d, id, p.stageId);
    }
  }

  /**
   * No stage that is ready or running, first attempt or retry, finds an input missing: intermediates
   * still have their buffer, and inputs of the DAG have the buffer they were registered with.
   */
  lemma InputsAvailable(certified: set<string>, dag: DagDescriptor, es: seq<Event>, id: string, ref: string)
    requires Registrable(certified, dag) && WellWired(dag)
    requires LegalRun(InitialState(dag), es) && NeverCancelled(es)
    requires id in Run(InitialState(dag), es).stages
    requires var s := Run(InitialState(dag), es).stages[id]; s.status in {READY, RUNNING} && Reads(s, ref)
    ensures InputPresent(Run(InitialState(dag), es), ref)
  {
    InitiallySafe(certified, dag);
    InitiallySound(certified, dag);
    RunKeepsSound(InitialState(dag), es);
    ReaderFindsInput(certified, Run(InitialState(dag), es), id, ref);
  }

  /** A stage that is ready or running finds, under each name it reads, what the stage of that output sent. */
  lemma ReaderFindsOutput(certified: set<string>, dag: DagDescriptor, es: seq<Event>, p: StageDescriptor, id: string)
    requires Registrable(certified, dag) && WellWired(dag) && p in dag.stages
    requires LegalRun(InitialState(dag), es) && NeverCancelled(es)
    requires id in Run(InitialState(dag), es).stages
    requires var s := Run(InitialState(dag), es).stages[id];
             s.status in {READY, RUNNING} && p.outputArtifactRef in s.descriptor.inputArtifactRefs
    ensures var d, output := Run(InitialState(dag), es), Output(InitialState(dag), es, p.stageId, None);
            && output.Some? && p.outputArtifactRef in d.artifacts
            && d.artifacts[p.outputArtifactRef].dataBuffer == output
  {
    InputsAvailable(certified, dag, es, id, p.outputArtifactRef);
    ArtifactHoldsOutput(certified, dag, es, p);
    ArtifactLifetime(certified, dag, es, p);
    assert StillNeeded(Run(InitialState(dag), es), p.outputArtifactRef);
  }
}
