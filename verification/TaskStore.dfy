/**
 * TaskStore: the lease protocol. Each method is one database transaction on the task table; the clock
 * is a parameter. Columns no transition looks at are not represented.
 */
module TaskStore {
  import opened Prelude
  import opened Graph

  const DEFAULT_MAX_RETRIES := 3

  datatype TaskStatus = PENDING | ASSIGNED | RUNNING | COMPLETED | ABANDONED | FAILED

  /** Device identifiers are never empty. */
  type WorkerId = w: string | w != "" witness "w"

  datatype Attempt = Attempt(timestampMs: int, workerId: Option<WorkerId>, previousStatus: TaskStatus, reason: string)

  datatype Task = Task(
    id: string,
    dependencies: seq<string>,
    resultDestination: string,
    retryCount: nat,
    attemptHistory: seq<Attempt>,
    status: TaskStatus,
    assignedWorkerId: Option<WorkerId>,
    leaseExpiresAtMs: Option<int>,
    createdAtMs: int,
    updatedAtMs: int)

  type Table = map<string, Task>

  datatype StoreError =
    | TaskNotFound
    | SelfDependency
    | CyclicDependency(path: seq<string>)
    | DuplicateTask
    | NotPending
    | DependenciesUnsatisfied
    | NotAssigned
    | NotInFlight
    | AlreadyTerminal

  predicate InFlight(t: Task) {
    t.status == ASSIGNED || t.status == RUNNING
  }

  predicate Terminal(t: Task) {
    t.status == COMPLETED || t.status == FAILED || t.status == ABANDONED
  }

  // ---------------------------------------------------------------- what each transaction does to a row

  function NewTask(id: string, dependencies: seq<string>, destination: string, now: int): Task {
    Task(id, dependencies, destination, 0, [], PENDING, None, None, now, now)
  }

  function AssignedTo(t: Task, workerId: WorkerId, now: int, leaseMs: int): Task {
    t.(status := ASSIGNED, assignedWorkerId := Some(workerId), leaseExpiresAtMs := Some(now + leaseMs),
       updatedAtMs := now)
  }

  function StartedAt(t: Task, now: int, leaseMs: int): Task {
    t.(status := RUNNING, leaseExpiresAtMs := Some(now + leaseMs), updatedAtMs := now)
  }

  function StolenBy(t: Task, workerId: WorkerId, now: int, leaseMs: int): Task {
    t.(status := ASSIGNED, assignedWorkerId := Some(workerId), retryCount := t.retryCount + 1,
       attemptHistory := t.attemptHistory + [Attempt(now, t.assignedWorkerId, t.status, "WORK_STOLEN_BY_SCHEDULER")],
       leaseExpiresAtMs := Some(now + leaseMs), updatedAtMs := now)
  }

  function RenewedAt(t: Task, now: int, leaseMs: int): Task {
    t.(leaseExpiresAtMs := Some(now + leaseMs), updatedAtMs := now)
  }

  function CompletedAt(t: Task, destination: string, now: int): Task {
    t.(status := COMPLETED, resultDestination := if destination != "" then destination else t.resultDestination,
       leaseExpiresAtMs := None, updatedAtMs := now)
  }

  /** failTask and abandonTask: the worker stays on record, the retry count does not move. */
  function EndedAt(t: Task, ending: TaskStatus, reason: string, now: int): Task {
    t.(status := ending, attemptHistory := t.attemptHistory + [Attempt(now, t.assignedWorkerId, t.status, reason)],
       leaseExpiresAtMs := None, updatedAtMs := now)
  }

  /** Recovery and recorded failures: one retry used up, back to the queue or failed for good. */
  function ReclaimedFrom(t: Task, who: Option<WorkerId>, reason: string, now: int, maxRetries: int): Task {
    t.(status := if t.retryCount + 1 >= maxRetries then FAILED else PENDING, retryCount := t.retryCount + 1,
       attemptHistory := t.attemptHistory + [Attempt(now, who, t.status, reason)],
       assignedWorkerId := None, leaseExpiresAtMs := None, updatedAtMs := now)
  }

  // ---------------------------------------------------------------- dependencies

  ghost function AdjacencyOf(tasks: Table): Adjacency {
    map id | id in tasks :: tasks[id].dependencies
  }

  /** What areDependenciesSatisfied counts: completed rows among the dependencies, each row once. */
  function CompletedAmong(tasks: Table, dependencies: seq<string>): set<string> {
    set id | id in dependencies && id in tasks && tasks[id].status == COMPLETED
  }

  predicate DependenciesSatisfied(tasks: Table, t: Task) {
    |t.dependencies| == 0 || |CompletedAmong(tasks, t.dependencies)| == |t.dependencies|
  }

  /** Some cycle can be reached from the node, or the node is on one. */
  ghost predicate ReachesCycle(adj: Adjacency, node: string) {
    Reaches(adj, node, node) || exists m :: Reaches(adj, node, m) && Reaches(adj, m, m)
  }

  /** A walk from a node whose last node is repeated proves a cycle within reach. */
  ghost predicate ShowsCycle(adj: Adjacency, node: string, path: seq<string>) {
    Walk(adj, path) && path[0] == node && exists i :: 0 <= i < |path| - 1 && path[i] == path[|path| - 1]
  }

  lemma ShownCycle(adj: Adjacency, node: string, path: seq<string>)
    requires ShowsCycle(adj, node, path)
    ensures ReachesCycle(adj, node)
  {
    var i :| 0 <= i < |path| - 1 && path[i] == path[|path| - 1];
    SubWalk(adj, path, i, |path| - 1);
    var m := path[|path| - 1];
    assert Reaches(adj, m, m);
    assert Reaches(adj, node, m);
  }

  /** A finished search from a node has seen everything in reach, and none of it is on a cycle. */
  lemma FinishedReachesNoCycle(adj: Adjacency, visited: set<string>, node: string)
    requires SearchState(adj, visited, {}, []) && node in visited
    ensures !ReachesCycle(adj, node)
  {
    assert visited - {} == visited;
    forall m | Reaches(adj, node, m) ensures m in visited {
      var p :| Walk(adj, p) && |p| >= 2 && p[0] == node && p[|p| - 1] == m;
      ClosedWalk(adj, visited, p, |p| - 1);
    }
  }

  lemma ReachingNeedsParents(adj: Adjacency, node: string, m: string)
    requires Reaches(adj, node, m)
    ensures Parents(adj, node) != []
  {
    var p :| Walk(adj, p) && |p| >= 2 && p[0] == node && p[|p| - 1] == m;
    assert p[0 + 1] in Parents(adj, p[0]);
  }

  lemma NoParentsNoCycle(adj: Adjacency, node: string)
    requires Parents(adj, node) == []
    ensures !ReachesCycle(adj, node)
  {
    forall m ensures !Reaches(adj, node, m) {
      if Reaches(adj, node, m) {
        ReachingNeedsParents(adj, node, m);
      }
    }
  }

  // ---------------------------------------------------------------- recovery sweeps

  /** The three situations in which in-flight tasks are taken back. */
  datatype Sweep =
    | WorkerLoss(workerId: WorkerId)
    | LeaseExpiry(nowMs: int)
    | HostCrash

  predicate Selects(sweep: Sweep, t: Task) {
    && InFlight(t)
    && match sweep
       case WorkerLoss(w) => t.assignedWorkerId == Some(w)
       case LeaseExpiry(now) => t.leaseExpiresAtMs.Some? && t.leaseExpiresAtMs.value < now
       case HostCrash => true
  }

  function SweepReason(sweep: Sweep): string {
    match sweep
    case WorkerLoss(_) => "WORKER_DISCONNECTED"
    case LeaseExpiry(_) => "LEASE_EXPIRED"
    case HostCrash => "HOST_CRASH_RECOVERY"
  }

  function SweptTask(sweep: Sweep, t: Task, now: int, maxRetries: int): Task {
    if Selects(sweep, t) then ReclaimedFrom(t, t.assignedWorkerId, SweepReason(sweep), now, maxRetries) else t
  }

  function Swept(tasks: Table, sweep: Sweep, now: int, maxRetries: int): Table {
    map id | id in tasks :: SweptTask(sweep, tasks[id], now, maxRetries)
  }

  predicate HeldBy(t: Task, workerId: WorkerId) {
    InFlight(t) && t.assignedWorkerId == Some(workerId)
  }

  function RenewedFor(tasks: Table, workerId: WorkerId, fromMs: int, leaseMs: int): Table {
    map id | id in tasks :: if HeldBy(tasks[id], workerId) then RenewedAt(tasks[id], fromMs, leaseMs) else tasks[id]
  }

  /** The table after the UPDATE has gone over the listed rows. */
  function RenewEach(tasks: Table, ids: seq<string>, workerId: WorkerId, fromMs: int, leaseMs: int): Table {
    if ids == [] then tasks
    else
      var done, last := RenewEach(tasks, ids[..|ids| - 1], workerId, fromMs, leaseMs), ids[|ids| - 1];
      if last in done && HeldBy(done[last], workerId)
      then done[last := RenewedAt(done[last], fromMs, leaseMs)] else done
  }

  ghost function HeldAmong(tasks: Table, ids: seq<string>, workerId: WorkerId): set<string> {
    set id | id in ids && id in tasks && HeldBy(tasks[id], workerId)
  }

  lemma {:induction false} RenewEachAt(tasks: Table, ids: seq<string>, workerId: WorkerId, fromMs: int, leaseMs: int,
                                       id: string)
    ensures id in RenewEach(tasks, ids, workerId, fromMs, leaseMs) <==> id in tasks
    ensures id in tasks ==>
              RenewEach(tasks, ids, workerId, fromMs, leaseMs)[id] ==
              if id in ids && HeldBy(tasks[id], workerId) then RenewedAt(tasks[id], fromMs, leaseMs) else tasks[id]
  {
    if ids != [] {
      var init, last := ids[..|ids| - 1], ids[|ids| - 1];
      RenewEachAt(tasks, init, workerId, fromMs, leaseMs, id);
      assert ids == init + [last];
    }
  }

  lemma HeldGrows(tasks: Table, ids: seq<string>, id: string, workerId: WorkerId)
    requires id in tasks && id !in ids
    ensures |HeldAmong(tasks, ids + [id], workerId)|
            == |HeldAmong(tasks, ids, workerId)| + if HeldBy(tasks[id], workerId) then 1 else 0
  {
    var counted := HeldAmong(tasks, ids, workerId);
    assert HeldAmong(tasks, ids + [id], workerId) == if HeldBy(tasks[id], workerId) then counted + {id} else counted;
  }

  /** The UPDATE, row by row. */
  method RenewRows(tasks: Table, order: seq<string>, workerId: WorkerId, fromMs: int, leaseMs: int)
    returns (after: Table, changes: nat)
    requires forall id :: id in order <==> id in tasks
    requires forall i, j | 0 <= i < j < |order| :: order[i] != order[j]
    ensures after == RenewEach(tasks, order, workerId, fromMs, leaseMs)
    ensures changes == |HeldAmong(tasks, order, workerId)|
  {
    after, changes := tasks, 0;
    for i := 0 to |order|
      invariant after == RenewEach(tasks, order[..i], workerId, fromMs, leaseMs)
      invariant changes == |HeldAmong(tasks, order[..i], workerId)|
    {
      var id := order[i];
      assert order[..i + 1] == order[..i] + [id] && order[..i + 1][..i] == order[..i];
      assert id in order && id !in order[..i];
      RenewEachAt(tasks, order[..i], workerId, fromMs, leaseMs, id);
      HeldGrows(tasks, order[..i], id, workerId);
      if HeldBy(after[id], workerId) {
        after := after[id := RenewedAt(after[id], fromMs, leaseMs)];
        changes := changes + 1;
      }
    }
    assert order[..|order|] == order;
  }

  const EXCLUDING_REASONS := {"VALIDATION_TOLERANCE_EXCEEDED", "EXECUTION_ERROR", "TOLERANCE_MISMATCH"}

  /** Workers with an entry that rules them out for the task. */
  function Excluded(history: seq<Attempt>): set<WorkerId> {
    set a | a in history && a.workerId.Some? && a.reason in EXCLUDING_REASONS :: a.workerId.value
  }

  // ---------------------------------------------------------------- the store

  class Store {
    var tasks: Table
    var order: seq<string>

    constructor ()
      ensures tasks == map[] && Valid()
    {
      tasks, order := map[], [];
    }

    /** Rows are listed once each, in insertion order, under their own id. */
    ghost predicate Valid()
      reads this
    {
      && (forall id :: id in order <==> id in tasks)
      && (forall i, j | 0 <= i < j < |order| :: order[i] != order[j])
      && (forall id | id in tasks :: tasks[id].id == id)
    }

    method BuildAdjacency() returns (adj: Adjacency)
      requires Valid()
      ensures adj == AdjacencyOf(tasks)
    {
      adj := map[];
      for i := 0 to |order|
        invariant forall id :: id in adj <==> id in order[..i]
        invariant forall id | id in adj :: id in tasks && adj[id] == tasks[id].dependencies
      {
        assert order[..i + 1] == order[..i] + [order[i]];
        assert order[i] in order;
        adj := adj[order[i] := tasks[order[i]].dependencies];
      }
      assert order[..|order|] == order;
    }

    /** Rejects exactly the dependency lists that put a cycle within reach of the new task. */
    method ValidateDagCycle(newTaskId: string, dependencies: seq<string>) returns (error: Option<StoreError>)
      requires Valid()
      ensures var adj := AdjacencyOf(tasks)[newTaskId := dependencies];
              && (error == None <==> !ReachesCycle(adj, newTaskId))
              && (error.Some? ==> error.value == SelfDependency || error.value.CyclicDependency?)
              && (error.Some? && error.value.CyclicDependency? ==> ShowsCycle(adj, newTaskId, error.value.path))
              && (error == Some(SelfDependency) <==> newTaskId in dependencies)
    {
      ghost var extended := AdjacencyOf(tasks)[newTaskId := dependencies];
      if |dependencies| == 0 {
        NoParentsNoCycle(extended, newTaskId);
        return None;
      }
      if newTaskId in dependencies {
        SelfLoop(extended, newTaskId);
        return Some(SelfDependency);
      }
      var adj := BuildAdjacency();
      adj := adj[newTaskId := dependencies];
      var search := new CycleSearch(adj);
      var found := search.CheckCycle(newTaskId);
      if found {
        ShownCycle(adj, newTaskId, search.path);
        return Some(CyclicDependency(search.path));
      }
      FinishedReachesNoCycle(adj, search.visited, newTaskId);
      error := None;
    }

    lemma SelfLoop(adj: Adjacency, node: string)
      requires node in Parents(adj, node)
      ensures Reaches(adj, node, node)
    {
      assert Walk(adj, [node, node]);
    }

    method CreateTask(id: string, dependencies: seq<string>, destination: string, now: int)
      returns (r: Result<Task, StoreError>)
      requires Valid()
      modifies this
      ensures Valid()
      ensures r.Ok? <==> !ReachesCycle(AdjacencyOf(old(tasks))[id := dependencies], id) && id !in old(tasks)
      ensures r.Ok? ==> tasks == old(tasks)[id := NewTask(id, dependencies, destination, now)] && r.value == tasks[id]
      ensures r.Err? ==> tasks == old(tasks) && order == old(order)
      ensures r == Err(SelfDependency) <==> id in dependencies
      ensures r == Err(DuplicateTask) <==>
              !ReachesCycle(AdjacencyOf(old(tasks))[id := dependencies], id) && id in old(tasks)
      ensures r.Err? ==> r.error in {SelfDependency, DuplicateTask} || r.error.CyclicDependency?
    {
      var error := ValidateDagCycle(id, dependencies);
      if error.Some? {
        return Err(error.value);
      }
      if id in tasks {
        return Err(DuplicateTask);
      }
      var task := NewTask(id, dependencies, destination, now);
      tasks := tasks[id := task];
      order := order + [id];
      r := Ok(task);
    }

    method AssignTask(id: string, workerId: WorkerId, now: int, leaseMs: int) returns (r: Result<Task, StoreError>)
      requires Valid()
      modifies this`tasks
      ensures Valid()
      ensures r.Ok? <==>
              && id in old(tasks) && old(tasks)[id].status == PENDING
              && DependenciesSatisfied(old(tasks), old(tasks)[id])
      ensures r.Ok? ==>
                tasks == old(tasks)[id := AssignedTo(old(tasks)[id], workerId, now, leaseMs)] && r.value == tasks[id]
      ensures r.Err? ==> tasks == old(tasks)
      ensures r.Err? ==>
                r.error == if id !in tasks then TaskNotFound
                           else if tasks[id].status != PENDING then NotPending else DependenciesUnsatisfied
    {
      if id !in tasks {
        return Err(TaskNotFound);
      }
      var task := tasks[id];
      if task.status != PENDING {
        return Err(NotPending);
      }
      if !DependenciesSatisfied(tasks, task) {
        return Err(DependenciesUnsatisfied);
      }
      task := AssignedTo(task, workerId, now, leaseMs);
      tasks := tasks[id := task];
      r := Ok(task);
    }

    method StartTask(id: string, now: int, leaseMs: int) returns (r: Result<Task, StoreError>)
      requires Valid()
      modifies this`tasks
      ensures Valid()
      ensures r.Ok? <==> id in old(tasks) && old(tasks)[id].status == ASSIGNED
      ensures r.Ok? ==> tasks == old(tasks)[id := StartedAt(old(tasks)[id], now, leaseMs)] && r.value == tasks[id]
      ensures r.Err? ==> tasks == old(tasks) && r.error == if id !in tasks then TaskNotFound else NotAssigned
    {
      if id !in tasks {
        return Err(TaskNotFound);
      }
      if tasks[id].status != ASSIGNED {
        return Err(NotAssigned);
      }
      var task := StartedAt(tasks[id], now, leaseMs);
      tasks := tasks[id := task];
      r := Ok(task);
    }

    method StealTask(id: string, newWorkerId: WorkerId, now: int, leaseMs: int) returns (r: Result<Task, StoreError>)
      requires Valid()
      modifies this`tasks
      ensures Valid()
      ensures r.Ok? <==> id in old(tasks) && InFlight(old(tasks)[id])
      ensures r.Ok? ==>
                tasks == old(tasks)[id := StolenBy(old(tasks)[id], newWorkerId, now, leaseMs)] && r.value == tasks[id]
      ensures r.Err? ==> tasks == old(tasks) && r.error == if id !in tasks then TaskNotFound else NotInFlight
    {
      if id !in tasks {
        return Err(TaskNotFound);
      }
      if !InFlight(tasks[id]) {
        return Err(NotInFlight);
      }
      var task := StolenBy(tasks[id], newWorkerId, now, leaseMs);
      tasks := tasks[id := task];
      r := Ok(task);
    }

    method RenewLease(id: string, now: int, leaseMs: int) returns (renewed: bool)
      requires Valid()
      modifies this`tasks
      ensures Valid()
      ensures renewed <==> id in old(tasks) && InFlight(old(tasks)[id])
      ensures tasks == if renewed then old(tasks)[id := RenewedAt(old(tasks)[id], now, leaseMs)] else old(tasks)
    {
      renewed := id in tasks && InFlight(tasks[id]);
      if renewed {
        tasks := tasks[id := RenewedAt(tasks[id], now, leaseMs)];
      }
    }

    method CompleteTask(id: string, destination: string, now: int) returns (r: Result<Task, StoreError>)
      requires Valid()
      modifies this`tasks
      ensures Valid()
      ensures r.Ok? <==> id in old(tasks) && InFlight(old(tasks)[id])
      ensures r.Ok? ==> tasks == old(tasks)[id := CompletedAt(old(tasks)[id], destination, now)] && r.value == tasks[id]
      ensures r.Err? ==> tasks == old(tasks)
      ensures r.Err? ==> r.error == if id !in tasks then TaskNotFound else NotInFlight
    {
      if id !in tasks {
        return Err(TaskNotFound);
      }
      if !InFlight(tasks[id]) {
        return Err(NotInFlight);
      }
      var task := CompletedAt(tasks[id], destination, now);
      tasks := tasks[id := task];
      r := Ok(task);
    }

    /** failTask with FAILED, abandonTask with ABANDONED. */
    method EndTask(id: string, ending: TaskStatus, reason: string, now: int) returns (r: Result<Task, StoreError>)
      requires Valid() && (ending == FAILED || ending == ABANDONED)
      modifies this`tasks
      ensures Valid()
      ensures r.Ok? <==> id in old(tasks) && !Terminal(old(tasks)[id])
      ensures r.Ok? ==> tasks == old(tasks)[id := EndedAt(old(tasks)[id], ending, reason, now)] && r.value == tasks[id]
      ensures r.Ok? ==> r.value.status == ending && r.value.retryCount == old(tasks)[id].retryCount
      ensures r.Err? ==> tasks == old(tasks) && r.error == if id !in tasks then TaskNotFound else AlreadyTerminal
    {
      if id !in tasks {
        return Err(TaskNotFound);
      }
      if Terminal(tasks[id]) {
        return Err(AlreadyTerminal);
      }
      var task := EndedAt(tasks[id], ending, reason, now);
      tasks := tasks[id := task];
      r := Ok(task);
    }

    /** Unlike every other transition this one looks at no status. */
    method RecordTaskFailure(id: string, workerId: WorkerId, reason: string, now: int, maxRetries: int)
      returns (r: Result<Task, StoreError>)
      requires Valid()
      modifies this`tasks
      ensures Valid()
      ensures r.Ok? <==> id in old(tasks)
      ensures r.Ok? ==>
                && tasks == old(tasks)[id := ReclaimedFrom(old(tasks)[id], Some(workerId), reason, now, maxRetries)]
                && r.value == tasks[id]
      ensures r.Err? ==> tasks == old(tasks) && r.error == TaskNotFound
    {
      if id !in tasks {
        return Err(TaskNotFound);
      }
      var task := ReclaimedFrom(tasks[id], Some(workerId), reason, now, maxRetries);
      tasks := tasks[id := task];
      r := Ok(task);
    }

    /** One UPDATE over all in-flight rows of a worker; reports how many there are. */
    method RenewWorkerLeases(workerId: WorkerId, fromMs: int, leaseMs: int) returns (changes: nat)
      requires Valid()
      modifies this`tasks
      ensures Valid() && tasks.Keys == old(tasks).Keys
      ensures forall id | id in tasks :: tasks[id] ==
                if HeldBy(old(tasks)[id], workerId)
                then old(tasks)[id].(leaseExpiresAtMs := Some(fromMs + leaseMs), updatedAtMs := fromMs)
                else old(tasks)[id]
      ensures changes == |set id | id in old(tasks) && HeldBy(old(tasks)[id], workerId)|
    {
      forall id {
        RenewEachAt(tasks, order, workerId, fromMs, leaseMs, id);
      }
      assert HeldAmong(tasks, order, workerId) == set id | id in tasks && HeldBy(tasks[id], workerId);
      tasks, changes := RenewRows(tasks, order, workerId, fromMs, leaseMs);
    }

    /** The workers a task must not go back to. */
    method GetExcludedWorkerIds(id: string) returns (excluded: set<WorkerId>)
      ensures excluded == if id in tasks then Excluded(tasks[id].attemptHistory) else {}
    {
      excluded := {};
      if id !in tasks {
        return;
      }
      var history := tasks[id].attemptHistory;
      for i := 0 to |history|
        invariant excluded == Excluded(history[..i])
      {
        assert history[..i + 1] == history[..i] + [history[i]];
        var attempt := history[i];
        if attempt.workerId.Some? && attempt.reason in EXCLUDING_REASONS {
          excluded := excluded + {attempt.workerId.value};
        }
      }
      assert history[..|history|] == history;
    }

    /** The rows a sweep's SELECT returns, in table order. */
    method SelectRows(sweep: Sweep) returns (rows: seq<Task>)
      requires Valid()
      ensures forall t :: t in rows <==> t.id in tasks && t == tasks[t.id] && Selects(sweep, t)
      ensures OncePerId(rows)
    {
      rows := [];
      for i := 0 to |order|
        invariant forall t :: t in rows <==>
                  t.id in order[..i] && t.id in tasks && t == tasks[t.id] && Selects(sweep, t)
        invariant forall k, j | 0 <= k < j < |rows| :: rows[k].id != rows[j].id
      {
        assert order[..i + 1] == order[..i] + [order[i]];
        assert order[i] in order && order[i] !in order[..i];
        var t := tasks[order[i]];
        if Selects(sweep, t) {
          assert forall k | 0 <= k < |rows| :: rows[k] in rows;
          rows := rows + [t];
        }
      }
      assert order[..|order|] == order;
    }

    /** The UPDATE loop over the selected rows. */
    method ReclaimRows(rows: seq<Task>, sweep: Sweep, now: int, maxRetries: int)
      returns (recovered: seq<Task>, failed: seq<Task>)
      modifies this`tasks
      ensures tasks == AfterRows(old(tasks), rows, sweep, now, maxRetries)
      ensures recovered == Reclaimed(rows, PENDING, sweep, now, maxRetries)
      ensures failed == Reclaimed(rows, FAILED, sweep, now, maxRetries)
    {
      recovered, failed := [], [];
      for i := 0 to |rows|
        invariant tasks == AfterRows(old(tasks), rows[..i], sweep, now, maxRetries)
        invariant recovered == Reclaimed(rows[..i], PENDING, sweep, now, maxRetries)
        invariant failed == Reclaimed(rows[..i], FAILED, sweep, now, maxRetries)
      {
        assert rows[..i + 1][..i] == rows[..i];
        var task := rows[i];
        var newRetryCount := task.retryCount + 1;
        var updated := ReclaimedFrom(task, task.assignedWorkerId, SweepReason(sweep), now, maxRetries);
        tasks := tasks[task.id := updated];
        if newRetryCount >= maxRetries {
          failed := failed + [updated];
        } else {
          recovered := recovered + [updated];
        }
      }
      assert rows[..|rows|] == rows;
    }

    /**
     * A recovery transaction: every selected row is reclaimed, no other row changes, and the two lists
     * hold exactly the reclaimed rows as they now are.
     */
    method Recover(sweep: Sweep, now: int, maxRetries: int) returns (recovered: seq<Task>, failed: seq<Task>)
      requires Valid()
      modifies this`tasks
      ensures Valid()
      ensures tasks == Swept(old(tasks), sweep, now, maxRetries)
      ensures forall t :: t in recovered <==> IsReclaimed(old(tasks), tasks, sweep, t) && t.status == PENDING
      ensures forall t :: t in failed <==> IsReclaimed(old(tasks), tasks, sweep, t) && t.status == FAILED
      ensures forall t :: t in recovered || t in failed <==>
                t.id in old(tasks) && t.id in tasks && t == tasks[t.id] && t != old(tasks)[t.id]
      ensures OncePerId(recovered) && OncePerId(failed)
    {
      var rows := SelectRows(sweep);
      SelectedRowsSwept(tasks, rows, sweep, now, maxRetries);
      recovered, failed := ReclaimRows(rows, sweep, now, maxRetries);
      ReclaimedMembers(rows, PENDING, sweep, now, maxRetries);
      ReclaimedMembers(rows, FAILED, sweep, now, maxRetries);
      ReclaimedOnce(rows, PENDING, sweep, now, maxRetries);
      ReclaimedOnce(rows, FAILED, sweep, now, maxRetries);
      ReclaimedAreSwept(old(tasks), rows, sweep, now, maxRetries);
    }
  }

  lemma ReclaimedAreSwept(before: Table, rows: seq<Task>, sweep: Sweep, now: int, maxRetries: int)
    requires forall id | id in before :: before[id].id == id
    requires forall t :: t in rows <==> t.id in before && t == before[t.id] && Selects(sweep, t)
    ensures forall t :: IsReclaimed(before, Swept(before, sweep, now, maxRetries), sweep, t) <==>
              exists r :: r in rows && t == ReclaimedFrom(r, r.assignedWorkerId, SweepReason(sweep), now, maxRetries)
  {
    var after := Swept(before, sweep, now, maxRetries);
    assert forall r | r in rows ::
      after[r.id] == ReclaimedFrom(r, r.assignedWorkerId, SweepReason(sweep), now, maxRetries);
    assert forall id | id in before && Selects(sweep, before[id]) :: before[id] in rows;
  }

  /** t is a row the sweep took back, as it is now. */
  ghost predicate IsReclaimed(before: Table, after: Table, sweep: Sweep, t: Task) {
    t.id in before && t.id in after && Selects(sweep, before[t.id]) && t == after[t.id]
  }

  /** The table after the UPDATEs for the given rows. */
  function AfterRows(tasks: Table, rows: seq<Task>, sweep: Sweep, now: int, maxRetries: int): Table {
    if rows == [] then tasks
    else
      var last := rows[|rows| - 1];
      AfterRows(tasks, rows[..|rows| - 1], sweep, now, maxRetries)
        [last.id := ReclaimedFrom(last, last.assignedWorkerId, SweepReason(sweep), now, maxRetries)]
  }

  lemma {:induction false} AfterRowsAt(tasks: Table, rows: seq<Task>, sweep: Sweep, now: int, maxRetries: int,
                                       id: string)
    requires forall r | r in rows :: r.id in tasks && tasks[r.id] == r
    ensures id in AfterRows(tasks, rows, sweep, now, maxRetries) <==> id in tasks
    ensures id in tasks ==>
              AfterRows(tasks, rows, sweep, now, maxRetries)[id] ==
              if tasks[id] in rows && tasks[id].id == id
              then ReclaimedFrom(tasks[id], tasks[id].assignedWorkerId, SweepReason(sweep), now, maxRetries)
              else tasks[id]
  {
    if rows != [] {
      var init, last := rows[..|rows| - 1], rows[|rows| - 1];
      assert rows == init + [last];
      AfterRowsAt(tasks, init, sweep, now, maxRetries, id);
    }
  }

  lemma SelectedRowsSwept(tasks: Table, rows: seq<Task>, sweep: Sweep, now: int, maxRetries: int)
    requires forall id | id in tasks :: tasks[id].id == id
    requires forall t :: t in rows <==> t.id in tasks && t == tasks[t.id] && Selects(sweep, t)
    ensures AfterRows(tasks, rows, sweep, now, maxRetries) == Swept(tasks, sweep, now, maxRetries)
  {
    forall id {
      AfterRowsAt(tasks, rows, sweep, now, maxRetries, id);
    }
  }

  /** The reclaimed rows that ended up in a status, in order. */
  function Reclaimed(rows: seq<Task>, ending: TaskStatus, sweep: Sweep, now: int, maxRetries: int): seq<Task> {
    if rows == [] then []
    else
      var last := rows[|rows| - 1];
      var updated := ReclaimedFrom(last, last.assignedWorkerId, SweepReason(sweep), now, maxRetries);
      Reclaimed(rows[..|rows| - 1], ending, sweep, now, maxRetries) + if updated.status == ending then [updated] else []
  }

  lemma {:induction false} ReclaimedMembers(rows: seq<Task>, ending: TaskStatus, sweep: Sweep, now: int,
                                            maxRetries: int)
    ensures forall t :: t in Reclaimed(rows, ending, sweep, now, maxRetries) <==>
              && t.status == ending
              && exists r ::
                   r in rows && t == ReclaimedFrom(r, r.assignedWorkerId, SweepReason(sweep), now, maxRetries)
  {
    if rows != [] {
      ReclaimedMembers(rows[..|rows| - 1], ending, sweep, now, maxRetries);
      assert rows == rows[..|rows| - 1] + [rows[|rows| - 1]];
    }
  }

  predicate OncePerId(rows: seq<Task>) {
    forall i, j | 0 <= i < j < |rows| :: rows[i].id != rows[j].id
  }

  lemma {:induction false} ReclaimedOnce(rows: seq<Task>, ending: TaskStatus, sweep: Sweep, now: int, maxRetries: int)
    requires OncePerId(rows)
    ensures OncePerId(Reclaimed(rows, ending, sweep, now, maxRetries))
    ensures forall t | t in Reclaimed(rows, ending, sweep, now, maxRetries) :: exists r :: r in rows && t.id == r.id
  {
    if rows != [] {
      var init, last := rows[..|rows| - 1], rows[|rows| - 1];
      var before := Reclaimed(init, ending, sweep, now, maxRetries);
      ReclaimedOnce(init, ending, sweep, now, maxRetries);
      assert rows == init + [last];
      forall i | 0 <= i < |before| ensures before[i].id != last.id {
        assert before[i] in before;
        var r :| r in init && before[i].id == r.id;
      }
    }
  }
}
