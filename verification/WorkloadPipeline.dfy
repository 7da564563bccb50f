/**
 * WorkloadPipeline: what becomes of a result. Three fences (duplicate, worker, attempt), then the
 * validator's verdict, then the store transition and the workload's books, as one step.
 */
module WorkloadPipeline {
  import opened Prelude
  import opened TaskStore

  /** What handleTaskResult does with a result. */
  datatype Outcome =
    | TaskMissing
    | DuplicateIgnored
    | StaleWorkerIgnored
    | StaleAttemptIgnored
    | Completes
    | CompletionRefused
    | RecordsFailure

  function Judge(tasks: Table, id: string, workerId: WorkerId, attempt: Option<int>, isValid: bool): Outcome {
    if id !in tasks then TaskMissing
    else
      var t := tasks[id];
      if t.status == COMPLETED then DuplicateIgnored
      else if t.assignedWorkerId.Some? && t.assignedWorkerId.value != workerId then StaleWorkerIgnored
      else if attempt.Some? && attempt.value != t.retryCount + 1 then StaleAttemptIgnored
      else if !isValid then RecordsFailure
      else if InFlight(t) then Completes
      else CompletionRefused
  }

  /** The outcomes that close the task's entry in the books and notify its listener. */
  predicate Settles(outcome: Outcome) {
    outcome == Completes || outcome == RecordsFailure
  }

  const TOLERANCE_EXCEEDED := "VALIDATION_TOLERANCE_EXCEEDED"

  /** What is done once the validator has been awaited. The fences are not looked at again. */
  function ResumeOutcome(tasks: Table, id: string, isValid: bool): Outcome {
    if id !in tasks then TaskMissing
    else if !isValid then RecordsFailure
    else if InFlight(tasks[id]) then Completes
    else CompletionRefused
  }

  /** The task table after that. */
  function Resumed(tasks: Table, id: string, workerId: WorkerId, isValid: bool, destination: string, now: int): Table {
    match ResumeOutcome(tasks, id, isValid)
    case Completes => tasks[id := CompletedAt(tasks[id], destination, now)]
    case RecordsFailure =>
      tasks[id := ReclaimedFrom(tasks[id], Some(workerId), TOLERANCE_EXCEEDED, now, DEFAULT_MAX_RETRIES)]
    case _ => tasks
  }

  predicate PassesFences(tasks: Table, id: string, workerId: WorkerId, attempt: Option<int>) {
    Judge(tasks, id, workerId, attempt, false) == RecordsFailure
  }

  /** The task table after a result whose validation nothing interrupts. */
  function AfterResult(tasks: Table, id: string, workerId: WorkerId, attempt: Option<int>, isValid: bool,
                       destination: string, now: int): Table {
    if PassesFences(tasks, id, workerId, attempt)
    then Resumed(tasks, id, workerId, isValid, destination, now) else tasks
  }

  datatype Workload = Workload(
    totalChunks: nat,
    completedChunks: nat,
    failedChunks: nat,
    inFlightTaskIds: set<string>,
    isCancelled: bool)

  /** A workload's books after one of its tasks was settled. */
  function SettledWorkload(w: Workload, id: string, outcome: Outcome): Workload {
    if id !in w.inFlightTaskIds then w
    else match outcome
      case Completes => w.(inFlightTaskIds := w.inFlightTaskIds - {id}, completedChunks := w.completedChunks + 1)
      case RecordsFailure => w.(inFlightTaskIds := w.inFlightTaskIds - {id}, failedChunks := w.failedChunks + 1)
      case _ => w
  }

  function Settled(workloads: map<string, Workload>, id: string, outcome: Outcome): map<string, Workload> {
    map w | w in workloads :: SettledWorkload(workloads[w], id, outcome)
  }

  /** Chunks the books account for. */
  function OnTheBooks(w: Workload): nat {
    w.completedChunks + w.failedChunks + |w.inFlightTaskIds|
  }

  /** Settling moves a chunk between the books' columns; it never loses or doubles one. */
  lemma SettlingConserves(w: Workload, id: string, outcome: Outcome)
    ensures OnTheBooks(SettledWorkload(w, id, outcome)) == OnTheBooks(w)
    ensures SettledWorkload(w, id, outcome) != w <==> id in w.inFlightTaskIds && Settles(outcome)
  {
    if id in w.inFlightTaskIds {
      assert |w.inFlightTaskIds - {id}| == |w.inFlightTaskIds| - 1;
    }
  }

  function Tracked(workloads: map<string, Workload>, workloadId: string, taskId: string): map<string, Workload> {
    if workloadId !in workloads then workloads
    else
      var w := workloads[workloadId];
      workloads[workloadId := w.(inFlightTaskIds := w.inFlightTaskIds + {taskId})]
  }

  function Cancelled(workloads: map<string, Workload>, workloadId: string): map<string, Workload> {
    if workloadId !in workloads then workloads
    else workloads[workloadId := workloads[workloadId].(isCancelled := true, inFlightTaskIds := {})]
  }

  class Pipeline {
    const store: Store
    var workloads: map<string, Workload>
    var listeners: set<string>

    constructor (store: Store)
      ensures this.store == store && workloads == map[] && listeners == {}
    {
      this.store := store;
      workloads, listeners := map[], {};
    }

    method RegisterWorkload(workloadId: string, totalChunks: nat)
      modifies this`workloads
      ensures workloads == old(workloads)[workloadId := Workload(totalChunks, 0, 0, {}, false)]
    {
      workloads := workloads[workloadId := Workload(totalChunks, 0, 0, {}, false)];
    }

    method TrackTask(workloadId: string, taskId: string)
      modifies this`workloads
      ensures workloads == Tracked(old(workloads), workloadId, taskId)
    {
      if workloadId in workloads {
        var w := workloads[workloadId];
        workloads := workloads[workloadId := w.(inFlightTaskIds := w.inFlightTaskIds + {taskId})];
      }
    }

    method OnTaskFinished(taskId: string)
      modifies this`listeners
      ensures listeners == old(listeners) + {taskId}
    {
      listeners := listeners + {taskId};
    }

    method SettleOne(before: Workload, id: string, outcome: Outcome) returns (state: Workload)
      ensures state == SettledWorkload(before, id, outcome)
    {
      state := before;
      if id in state.inFlightTaskIds {
        if outcome == Completes {
          state := state.(inFlightTaskIds := state.inFlightTaskIds - {id});
          state := state.(completedChunks := state.completedChunks + 1);
        } else if outcome == RecordsFailure {
          state := state.(inFlightTaskIds := state.inFlightTaskIds - {id});
          state := state.(failedChunks := state.failedChunks + 1);
        }
      }
    }

    /** The loop over all active workloads that closes a task's entry. */
    method Settle(id: string, outcome: Outcome)
      modifies this`workloads
      ensures workloads == Settled(old(workloads), id, outcome)
    {
      var rest := workloads.Keys;
      while rest != {}
        invariant rest <= workloads.Keys == old(workloads).Keys
        invariant forall w | w in workloads :: workloads[w] ==
                    if w in rest then old(workloads)[w] else SettledWorkload(old(workloads)[w], id, outcome)
      {
        var w :| w in rest;
        var state := SettleOne(workloads[w], id, outcome);
        workloads := workloads[w := state];
        rest := rest - {w};
      }
    }

    /** handleTaskResult up to its await: the three fences, in the order they are checked. */
    method CheckFences(id: string, workerId: WorkerId, attempt: Option<int>) returns (rejected: Option<Outcome>)
      ensures rejected.None? <==> PassesFences(store.tasks, id, workerId, attempt)
      ensures rejected.Some? ==> forall isValid :: rejected.value == Judge(store.tasks, id, workerId, attempt, isValid)
      ensures rejected == Some(TaskMissing) <==> id !in store.tasks
      ensures rejected == Some(DuplicateIgnored) <==> id in store.tasks && store.tasks[id].status == COMPLETED
      ensures rejected == Some(StaleWorkerIgnored) <==>
              && id in store.tasks && store.tasks[id].status != COMPLETED
              && store.tasks[id].assignedWorkerId !in {None, Some(workerId)}
      ensures rejected == Some(StaleAttemptIgnored) <==>
              && id in store.tasks && store.tasks[id].status != COMPLETED
              && store.tasks[id].assignedWorkerId in {None, Some(workerId)}
              && attempt.Some? && attempt.value != store.tasks[id].retryCount + 1
    {
      if id !in store.tasks {
        return Some(TaskMissing);
      }
      var task := store.tasks[id];
      if task.status == COMPLETED {
        return Some(DuplicateIgnored);
      }
      if task.assignedWorkerId.Some? && task.assignedWorkerId.value != workerId {
        return Some(StaleWorkerIgnored);
      }
      if attempt.Some? {
        var currentAttempt := task.retryCount + 1;
        if attempt.value != currentAttempt {
          return Some(StaleAttemptIgnored);
        }
      }
      rejected := None;
    }

    /** The store transition the verdict calls for. */
    method ApplyVerdict(id: string, workerId: WorkerId, isValid: bool, destination: string, now: int)
      returns (outcome: Outcome)
      requires store.Valid()
      modifies store`tasks
      ensures store.Valid()
      ensures outcome == ResumeOutcome(old(store.tasks), id, isValid)
      ensures store.tasks == Resumed(old(store.tasks), id, workerId, isValid, destination, now)
    {
      if isValid {
        var completed := store.CompleteTask(id, destination, now);
        outcome := if completed.Ok? then Completes
                   else if completed.error == TaskNotFound then TaskMissing else CompletionRefused;
      } else {
        var failed := store.RecordTaskFailure(id, workerId, TOLERANCE_EXCEEDED, now, DEFAULT_MAX_RETRIES);
        outcome := if failed.Ok? then RecordsFailure else TaskMissing;
      }
    }

    /** handleTaskResult after its await, on whatever state it then finds. */
    method ResumeResult(id: string, workerId: WorkerId, isValid: bool, destination: string, now: int)
      returns (outcome: Outcome, notified: bool)
      requires store.Valid()
      modifies this, store`tasks
      ensures store.Valid()
      ensures outcome == ResumeOutcome(old(store.tasks), id, isValid)
      ensures outcome == TaskMissing <==> id !in old(store.tasks)
      ensures outcome == Completes <==>
              isValid && id in old(store.tasks) && old(store.tasks)[id].status in {ASSIGNED, RUNNING}
      ensures outcome == RecordsFailure <==> !isValid && id in old(store.tasks)
      ensures store.tasks == Resumed(old(store.tasks), id, workerId, isValid, destination, now)
      ensures workloads == Settled(old(workloads), id, outcome)
      ensures listeners == if Settles(outcome) then old(listeners) - {id} else old(listeners)
      ensures notified <==> Settles(outcome) && id in old(listeners)
    {
      outcome := ApplyVerdict(id, workerId, isValid, destination, now);
      notified := false;
      if Settles(outcome) {
        Settle(id, outcome);
        if id in listeners {
          listeners := listeners - {id};
          notified := true;
        }
      } else {
        SettledNothing(workloads, id, outcome);
      }
    }

    /** Both halves with nothing in between. */
    method HandleTaskResult(id: string, workerId: WorkerId, attempt: Option<int>, isValid: bool, destination: string,
                            now: int)
      returns (outcome: Outcome, notified: bool)
      requires store.Valid()
      modifies this, store`tasks
      ensures store.Valid()
      ensures outcome == Judge(old(store.tasks), id, workerId, attempt, isValid)
      ensures store.tasks == AfterResult(old(store.tasks), id, workerId, attempt, isValid, destination, now)
      ensures workloads == Settled(old(workloads), id, outcome)
      ensures listeners == if Settles(outcome) then old(listeners) - {id} else old(listeners)
      ensures notified <==> Settles(outcome) && id in old(listeners)
    {
      var rejected := CheckFences(id, workerId, attempt);
      if rejected.Some? {
        SettledNothing(workloads, id, rejected.value);
        return rejected.value, false;
      }
      outcome, notified := ResumeResult(id, workerId, isValid, destination, now);
    }

    /** Cancelling settles listeners and forgets the in-flight set; it does not touch the task table. */
    method CancelWorkload(workloadId: string) returns (known: bool)
      modifies this
      ensures known <==> workloadId in old(workloads)
      ensures workloads == Cancelled(old(workloads), workloadId)
      ensures !known ==> listeners == old(listeners)
      ensures known ==>
                var w := old(workloads)[workloadId];
                listeners == old(listeners)
                             - set id | id in w.inFlightTaskIds && id in store.tasks && !Terminal(store.tasks[id])
    {
      if workloadId !in workloads {
        return false;
      }
      var state := workloads[workloadId];
      var rest := state.inFlightTaskIds;
      ghost var settled: set<string> := {};
      while rest != {}
        invariant rest <= state.inFlightTaskIds
        invariant settled
                  == set id | id in state.inFlightTaskIds - rest && id in store.tasks && !Terminal(store.tasks[id])
        invariant listeners == old(listeners) - settled && workloads == old(workloads)
      {
        var id :| id in rest;
        if id in store.tasks {
          var task := store.tasks[id];
          if task.status == PENDING || task.status == ASSIGNED || task.status == RUNNING {
            listeners := listeners - {id};
            settled := settled + {id};
          }
        }
        rest := rest - {id};
      }
      workloads := workloads[workloadId := state.(isCancelled := true, inFlightTaskIds := {})];
      known := true;
    }
  }

  lemma SettledNothing(workloads: map<string, Workload>, id: string, outcome: Outcome)
    requires !Settles(outcome)
    ensures Settled(workloads, id, outcome) == workloads
  {
  }
}
