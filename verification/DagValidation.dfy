/**
 * Which of validateDag's nine errors a DAG is rejected with, and what registration makes of one that is
 * accepted, said without the functions the engine is specified by.
 */
module DagValidation {
  import opened Prelude
  import opened Graph
  import opened DagEngine

  /** The stage is the first of the list under its id. */
  ghost predicate NewId(stages: seq<StageDescriptor>, i: nat)
    requires i < |stages|
  {
    forall j: nat | j < i :: stages[j].stageId != stages[i].stageId
  }

  /** The first loop has nothing to say about stage i. */
  ghost predicate Admissible(certified: set<string>, stages: seq<StageDescriptor>, i: nat)
    requires i < |stages|
  {
    stages[i].stageId != "" && NewId(stages, i) && stages[i].kernelId in certified
  }

  /** What it has to say about a stage that is not admissible: a missing id before a repeated one before the kernel. */
  ghost predicate StageComplaint(certified: set<string>, stages: seq<StageDescriptor>, i: nat, e: DagError)
    requires i < |stages|
  {
    match e
    case MissingStageId => stages[i].stageId == ""
    case DuplicateStageId => stages[i].stageId != "" && !NewId(stages, i)
    case UncertifiedKernel => stages[i].stageId != "" && NewId(stages, i) && stages[i].kernelId !in certified
    case _ => false
  }

  ghost predicate KnownDependencies(dag: DagDescriptor, i: nat)
    requires i < |dag.stages|
  {
    forall d | d in dag.stages[i].dependencies :: exists j: nat :: j < |dag.stages| && dag.stages[j].stageId == d
  }

  /** Each input of the stage is an input of the DAG or the named output of one of its stages. */
  ghost predicate KnownInputs(dag: DagDescriptor, i: nat)
    requires i < |dag.stages|
  {
    forall r | r in dag.stages[i].inputArtifactRefs :: Known(dag, r)
  }

  ghost predicate Known(dag: DagDescriptor, ref: string) {
    || (exists a :: a in dag.inputArtifacts && a.artifactId == ref)
    || (ref != "" && exists s :: s in dag.stages && s.outputArtifactRef == ref)
  }

  ghost predicate Linked(dag: DagDescriptor, i: nat)
    requires i < |dag.stages|
  {
    KnownDependencies(dag, i) && KnownInputs(dag, i)
  }

  /** What the second loop has to say about a stage: unknown dependencies before unknown inputs. */
  ghost predicate LinkComplaint(dag: DagDescriptor, i: nat, e: DagError)
    requires i < |dag.stages|
  {
    match e
    case UnknownDependency => !KnownDependencies(dag, i)
    case UnproducedInput => KnownDependencies(dag, i) && !KnownInputs(dag, i)
    case _ => false
  }

  /** Stage i is the first the first loop complains about. */
  ghost predicate FirstInadmissible(certified: set<string>, dag: DagDescriptor, i: nat, e: DagError) {
    && i < |dag.stages| && StageComplaint(certified, dag.stages, i, e)
    && forall j: nat | j < i :: Admissible(certified, dag.stages, j)
  }

  ghost predicate AllAdmissible(certified: set<string>, dag: DagDescriptor) {
    forall j: nat | j < |dag.stages| :: Admissible(certified, dag.stages, j)
  }

  /** Stage i is the first the second loop complains about. */
  ghost predicate FirstUnlinked(dag: DagDescriptor, i: nat, e: DagError) {
    && i < |dag.stages| && LinkComplaint(dag, i, e)
    && forall j: nat | j < i :: Linked(dag, j)
  }

  ghost predicate AllLinked(dag: DagDescriptor) {
    forall j: nat | j < |dag.stages| :: Linked(dag, j)
  }

  /** When the DAG is rejected with which error. */
  ghost predicate RejectedWith(certified: set<string>, dag: DagDescriptor, e: DagError) {
    match e
    case MissingDagId => dag.dagId == ""
    case NoStages => dag.dagId != "" && |dag.stages| == 0
    case CyclicDependency =>
      && dag.dagId != "" && |dag.stages| > 0 && AllAdmissible(certified, dag) && AllLinked(dag)
      && exists id :: Reaches(AdjacencyOf(dag.stages), id, id)
    case UnproducedOutput =>
      && dag.dagId != "" && |dag.stages| > 0 && AllAdmissible(certified, dag) && AllLinked(dag)
      && Acyclic(AdjacencyOf(dag.stages)) && exists r :: r in dag.outputArtifactRefs && !Known(dag, r)
    case _ =>
      && dag.dagId != ""
      && ((exists i: nat :: FirstInadmissible(certified, dag, i, e))
          || (AllAdmissible(certified, dag) && exists i: nat :: FirstUnlinked(dag, i, e)))
  }

  lemma IdPosition(stages: seq<StageDescriptor>, i: nat)
    requires i < |stages|
    ensures stages[i].stageId in IdsOf(stages)[..i] <==> !NewId(stages, i)
  {
    var ids := IdsOf(stages);
    assert forall j: nat | j < i :: ids[..i][j] == stages[j].stageId;
  }

  lemma NotBoth(certified: set<string>, stages: seq<StageDescriptor>, e: DagError)
    ensures forall k: nat | k < |stages| ::
              !(Admissible(certified, stages, k) && StageComplaint(certified, stages, k, e))
  {
  }

  lemma NotBothLinks(dag: DagDescriptor, e: DagError)
    ensures forall k: nat | k < |dag.stages| :: !(Linked(dag, k) && LinkComplaint(dag, k, e))
  {
  }

  lemma {:induction false} FirstStageErrorIff(certified: set<string>, dag: DagDescriptor, i: nat, e: DagError)
    requires i <= |dag.stages| && forall j: nat | j < i :: Admissible(certified, dag.stages, j)
    ensures FirstStageError(certified, dag.stages, i) == Some(e) <==>
            exists k: nat :: FirstInadmissible(certified, dag, k, e)
    ensures FirstStageError(certified, dag.stages, i) == None <==> AllAdmissible(certified, dag)
    decreases |dag.stages| - i
  {
    if i < |dag.stages| {
      IdPosition(dag.stages, i);
      if Admissible(certified, dag.stages, i) {
        FirstStageErrorIff(certified, dag, i + 1, e);
      } else {
        OnlyFirst(certified, dag, i, e);
      }
    } else {
      NotBoth(certified, dag.stages, e);
    }
  }

  /** No later stage is complained about first. */
  lemma OnlyFirst(certified: set<string>, dag: DagDescriptor, i: nat, e: DagError)
    requires i < |dag.stages| && !Admissible(certified, dag.stages, i)
    requires forall j: nat | j < i :: Admissible(certified, dag.stages, j)
    ensures (exists k: nat :: FirstInadmissible(certified, dag, k, e)) <==> StageComplaint(certified, dag.stages, i, e)
    ensures !AllAdmissible(certified, dag)
  {
    NotBoth(certified, dag.stages, e);
    if StageComplaint(certified, dag.stages, i, e) {
      assert FirstInadmissible(certified, dag, i, e);
    }
  }

  lemma LinkedIff(dag: DagDescriptor, i: nat)
    requires i < |dag.stages|
    ensures ReferenceError(dag, dag.stages[i]) == None <==> Linked(dag, i)
    ensures forall e :: ReferenceError(dag, dag.stages[i]) == Some(e) <==> LinkComplaint(dag, i, e)
  {
    forall d ensures d in IdsOf(dag.stages) <==> exists j: nat :: j < |dag.stages| && dag.stages[j].stageId == d {
      if j: nat :| j < |dag.stages| && dag.stages[j].stageId == d {
        assert IdsOf(dag.stages)[j] == d;
      }
    }
    assert forall r :: IsProduced(dag, r) <==> Known(dag, r);
  }

  lemma {:induction false} FirstReferenceErrorIff(dag: DagDescriptor, i: nat, e: DagError)
    requires i <= |dag.stages| && forall j: nat | j < i :: Linked(dag, j)
    ensures FirstReferenceError(dag, i) == Some(e) <==> exists k: nat :: FirstUnlinked(dag, k, e)
    ensures FirstReferenceError(dag, i) == None <==> AllLinked(dag)
    decreases |dag.stages| - i
  {
    if i < |dag.stages| {
      LinkedIff(dag, i);
      if Linked(dag, i) {
        FirstReferenceErrorIff(dag, i + 1, e);
      } else {
        OnlyFirstUnlinked(dag, i, e);
      }
    } else {
      NotBothLinks(dag, e);
    }
  }

  lemma OnlyFirstUnlinked(dag: DagDescriptor, i: nat, e: DagError)
    requires i < |dag.stages| && !Linked(dag, i) && forall j: nat | j < i :: Linked(dag, j)
    ensures (exists k: nat :: FirstUnlinked(dag, k, e)) <==> LinkComplaint(dag, i, e)
    ensures !AllLinked(dag)
  {
    NotBothLinks(dag, e);
    if LinkComplaint(dag, i, e) {
      assert FirstUnlinked(dag, i, e);
    }
  }

  /** validateDag raises the first complaint of the first loop, or of the second, before cycles and outputs. */
  lemma RejectedWithIff(certified: set<string>, dag: DagDescriptor, e: DagError)
    ensures FirstError(certified, dag) == Some(e) <==> RejectedWith(certified, dag, e)
  {
    FirstStageErrorIff(certified, dag, 0, e);
    FirstReferenceErrorIff(dag, 0, e);
    assert forall r :: IsProduced(dag, r) <==> Known(dag, r);
    if |dag.stages| == 0 {
      assert forall k: nat :: !FirstInadmissible(certified, dag, k, e) && !FirstUnlinked(dag, k, e);
    }
  }

  // ---------------------------------------------------------------- what registration creates

  /** A registered stage waits exactly if it has dependencies, and nobody has had it yet. */
  lemma StageRegistered(dag: DagDescriptor, s: StageDescriptor)
    requires DistinctIds(dag.stages) && s in dag.stages
    ensures s.stageId in InitialState(dag).stages
    ensures InitialState(dag).stages[s.stageId]
            == Stage(s, if |s.dependencies| == 0 then READY else PENDING, None, 0, None)
  {
    FreshStagesShape(dag.stages);
    var i :| 0 <= i < |dag.stages| && dag.stages[i] == s;
    assert IdsOf(dag.stages)[i] == s.stageId;
  }

  /** The artifacts the stages read, in order, each as often as it is named. */
  function AllReads(stages: seq<StageDescriptor>): seq<string> {
    if stages == [] then []
    else AllReads(stages[..|stages| - 1]) + stages[|stages| - 1].inputArtifactRefs
  }

  lemma {:induction false} UsesCount(stages: seq<StageDescriptor>, ref: string)
    ensures Uses(stages, ref) == multiset(AllReads(stages))[ref]
  {
    if stages != [] {
      UsesCount(stages[..|stages| - 1], ref);
    }
  }

  lemma {:induction false} LastInputCounts(inputs: seq<InputArtifact>, i: nat)
    requires i < |inputs| && forall j: nat | i < j < |inputs| :: inputs[j].artifactId != inputs[i].artifactId
    ensures inputs[i].artifactId in FreshArtifacts(inputs)
    ensures FreshArtifacts(inputs)[inputs[i].artifactId]
            == Artifact(inputs[i].artifactId, "__INPUT__", inputs[i].dataBuffer, 0, false)
  {
    if i < |inputs| - 1 {
      LastInputCounts(inputs[..|inputs| - 1], i);
    }
  }

  /**
   * Each input of the DAG becomes an artifact with the buffer it came with, the last one under its name,
   * and a count of how often the stages name it.
   */
  lemma InputRegistered(dag: DagDescriptor, i: nat)
    requires i < |dag.inputArtifacts|
    requires forall j: nat | i < j < |dag.inputArtifacts| ::
               dag.inputArtifacts[j].artifactId != dag.inputArtifacts[i].artifactId
    ensures var input := dag.inputArtifacts[i];
            && input.artifactId in InitialState(dag).artifacts
            && InitialState(dag).artifacts[input.artifactId]
               == Artifact(input.artifactId, "__INPUT__", input.dataBuffer,
                           multiset(AllReads(dag.stages))[input.artifactId], false)
  {
    LastInputCounts(dag.inputArtifacts, i);
    UsesCount(dag.stages, dag.inputArtifacts[i].artifactId);
  }

  /** And there are no other artifacts. */
  lemma {:induction false} OnlyInputsRegistered(inputs: seq<InputArtifact>, ref: string)
    ensures ref in FreshArtifacts(inputs) <==> exists i: nat :: i < |inputs| && inputs[i].artifactId == ref
  {
    if inputs != [] {
      OnlyInputsRegistered(inputs[..|inputs| - 1], ref);
    }
  }
}
