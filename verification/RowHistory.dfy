/**
 * The columns of a task's row over whole runs: what each event does to them, in terms of the event and
 * the row alone, and what the row therefore says about the run behind it.
 */
module RowHistory {
  import opened Prelude
  import opened TaskStore
  import opened Fencing

  /** What an event means to one task. */
  datatype Act =
    | Nothing
    | Taken(workerId: WorkerId, lease: int)
    | Stolen(workerId: WorkerId, lease: int)
    | Started(lease: int)
    | Renewed(lease: int)
    | Finished(destination: string)
    | Charged(who: Option<WorkerId>, reason: string)
    | Ended(ending: TaskStatus, reason: string)

  /** A result gets past the fences: the task is not complete, and worker and number are the row's. */
  predicate Fenced(t: Task, w: WorkerId, attempt: Option<int>) {
    && t.status != COMPLETED
    && (t.assignedWorkerId == None || t.assignedWorkerId == Some(w))
    && (attempt == None || attempt == Some(t.retryCount + 1))
  }

  /** A validated result: a charge if it is invalid, a completion if the task is still in flight. */
  function Verdict(t: Task, w: WorkerId, isValid: bool, destination: string): Act {
    if !isValid then Charged(Some(w), "VALIDATION_TOLERANCE_EXCEEDED")
    else if t.status in {ASSIGNED, RUNNING} then Finished(destination) else Nothing
  }

  /** A recovery sweep charges the tasks in flight that it is about. */
  function SweepAct(t: Task, sweep: Sweep): Act {
    if t.status !in {ASSIGNED, RUNNING} then Nothing
    else match sweep
      case WorkerLoss(w) =>
        if t.assignedWorkerId == Some(w) then Charged(t.assignedWorkerId, "WORKER_DISCONNECTED") else Nothing
      case LeaseExpiry(nowMs) =>
        if t.leaseExpiresAtMs.Some? && t.leaseExpiresAtMs.value < nowMs
        then Charged(t.assignedWorkerId, "LEASE_EXPIRED") else Nothing
      case HostCrash => Charged(t.assignedWorkerId, "HOST_CRASH_RECOVERY")
  }

  ghost predicate Startable(s: Table, t: Task) {
    t.status == PENDING && NoRepeats(t.dependencies)
    && forall d | d in t.dependencies :: d in s && s[d].status == COMPLETED
  }

  ghost function ActOf(s: Table, e: Event, id: string): Act
    requires id in s
  {
    var t := s[id];
    var flying := t.status in {ASSIGNED, RUNNING};
    match e
    case Assign(i, w, now, lease) => if i == id && Startable(s, t) then Taken(w, now + lease) else Nothing
    case Start(i, now, lease) => if i == id && t.status == ASSIGNED then Started(now + lease) else Nothing
    case Steal(i, w, now, lease) => if i == id && flying then Stolen(w, now + lease) else Nothing
    case Renew(i, now, lease) => if i == id && flying then Renewed(now + lease) else Nothing
    case RenewWorker(w, now, lease) =>
      if flying && t.assignedWorkerId == Some(w) then Renewed(now + lease) else Nothing
    case TaskResult(i, w, attempt, isValid, dest, _) =>
      if i == id && Fenced(t, w, attempt) then Verdict(t, w, isValid, dest) else Nothing
    case Resume(i, w, isValid, dest, _) => if i == id then Verdict(t, w, isValid, dest) else Nothing
    case RecordFailure(i, w, reason, _) => if i == id then Charged(Some(w), reason) else Nothing
    case FailOutright(i, reason, _) =>
      if i == id && t.status !in {COMPLETED, FAILED, ABANDONED} then Ended(FAILED, reason) else Nothing
    case Abandon(i, reason, _) =>
      if i == id && t.status !in {COMPLETED, FAILED, ABANDONED} then Ended(ABANDONED, reason) else Nothing
    case RecoverySweep(sweep, _) => SweepAct(t, sweep)
    case Create(_, _, _, _) => Nothing
  }

  function StatusAfter(t: Task, act: Act): TaskStatus {
    match act
    case Taken(_, _) => ASSIGNED
    case Stolen(_, _) => ASSIGNED
    case Started(_) => RUNNING
    case Finished(_) => COMPLETED
    case Charged(_, _) => if t.retryCount < 2 then PENDING else FAILED
    case Ended(ending, _) => ending
    case _ => t.status
  }

  /** The entry an act leaves in the history, if it leaves one. */
  function EntryOf(t: Task, act: Act, now: int): seq<Attempt> {
    match act
    case Stolen(_, _) => [Attempt(now, t.assignedWorkerId, t.status, "WORK_STOLEN_BY_SCHEDULER")]
    case Charged(who, reason) => [Attempt(now, who, t.status, reason)]
    case Ended(_, reason) => [Attempt(now, t.assignedWorkerId, t.status, reason)]
    case _ => []
  }

  /** Whose hands an act leaves the task in. */
  function HolderAfter(held: Option<WorkerId>, act: Act): Option<WorkerId> {
    match act
    case Taken(w, _) => Some(w)
    case Stolen(w, _) => Some(w)
    case Charged(_, _) => None
    case _ => held
  }

  /** The lease an act leaves on the task. */
  function LeaseAfter(lease: Option<int>, act: Act): Option<int> {
    match act
    case Taken(_, until) => Some(until)
    case Stolen(_, until) => Some(until)
    case Started(until) => Some(until)
    case Renewed(until) => Some(until)
    case Nothing => lease
    case _ => None
  }

  /** The row `u` is the row `t` after the act, column by column, and stamped if there was one. */
  predicate Follows(t: Task, act: Act, now: int, u: Task) {
    && u.id == t.id && u.dependencies == t.dependencies && u.createdAtMs == t.createdAtMs
    && u.status == StatusAfter(t, act)
    && u.assignedWorkerId == HolderAfter(t.assignedWorkerId, act)
    && u.leaseExpiresAtMs == LeaseAfter(t.leaseExpiresAtMs, act)
    && u.retryCount == t.retryCount + (if act.Stolen? || act.Charged? then 1 else 0)
    && u.attemptHistory == t.attemptHistory + EntryOf(t, act, now)
    && u.resultDestination
       == (if act.Finished? && act.destination != "" then act.destination else t.resultDestination)
    && u.updatedAtMs == (if act.Nothing? then t.updatedAtMs else now)
  }

  lemma Unchanged(t: Task, now: int)
    ensures Follows(t, Nothing, now, t)
  {
    assert t.attemptHistory + [] == t.attemptHistory;
  }

  lemma LeaseStep(s: Table, e: Event, id: string)
    requires id in s && (e.Assign? || e.Start? || e.Steal? || e.Renew? || e.RenewWorker? || e.Create?)
    ensures id in Apply(s, e) && Follows(s[id], ActOf(s, e, id), e.now, Apply(s, e)[id])
  {
    DependencyCountIff(s, s[id]);
    Unchanged(s[id], e.now);
  }

  lemma ResultStep(s: Table, e: Event, id: string)
    requires id in s && (e.TaskResult? || e.Resume?)
    ensures id in Apply(s, e) && Follows(s[id], ActOf(s, e, id), e.now, Apply(s, e)[id])
  {
    Unchanged(s[id], e.now);
  }

  lemma EndingStep(s: Table, e: Event, id: string)
    requires id in s && (e.RecordFailure? || e.FailOutright? || e.Abandon?)
    ensures id in Apply(s, e) && Follows(s[id], ActOf(s, e, id), e.now, Apply(s, e)[id])
  {
    Unchanged(s[id], e.now);
  }

  lemma SweepStep(s: Table, e: Event, id: string)
    requires id in s && e.RecoverySweep?
    ensures id in Apply(s, e) && Follows(s[id], ActOf(s, e, id), e.now, Apply(s, e)[id])
  {
    Unchanged(s[id], e.now);
  }

  /** Every event acts on every row as its act says. */
  lemma RowStep(s: Table, e: Event, id: string)
    requires id in s
    ensures id in Apply(s, e) && Follows(s[id], ActOf(s, e, id), e.now, Apply(s, e)[id])
  {
    if e.TaskResult? || e.Resume? {
      ResultStep(s, e, id);
    } else if e.RecoverySweep? {
      SweepStep(s, e, id);
    } else if e.RecordFailure? || e.FailOutright? || e.Abandon? {
      EndingStep(s, e, id);
    } else {
      LeaseStep(s, e, id);
    }
  }

  /** A created row is fresh, and nothing but its creation makes one. */
  lemma RowCreated(s: Table, e: Event, id: string)
    requires id !in s && id in Apply(s, e)
    ensures e.Create? && e.id == id
    ensures Apply(s, e)[id] == Task(id, e.dependencies, e.destination, 0, [], PENDING, None, None, e.now, e.now)
  {
  }

  // ---------------------------------------------------------------- what the row remembers of a run

  /** The worker the last hand-out or theft of a run left the task with, unless it was charged since. */
  ghost function Holder(s: Table, es: seq<Event>, id: string, held: Option<WorkerId>): Option<WorkerId>
    decreases |es|
  {
    if es == [] then held
    else Holder(Apply(s, es[0]), es[1..], id, if id in s then HolderAfter(held, ActOf(s, es[0], id)) else None)
  }

  /** The end of the last lease a run put on the task, unless it has ended. */
  ghost function Lease(s: Table, es: seq<Event>, id: string, lease: Option<int>): Option<int>
    decreases |es|
  {
    if es == [] then lease
    else Lease(Apply(s, es[0]), es[1..], id, if id in s then LeaseAfter(lease, ActOf(s, es[0], id)) else None)
  }

  /** The entries the events of a run leave in the task's history. */
  ghost function Entries(s: Table, es: seq<Event>, id: string): seq<Attempt>
    decreases |es|
  {
    if es == [] then []
    else
      (if id in s then EntryOf(s[id], ActOf(s, es[0], id), es[0].now) else [])
      + Entries(Apply(s, es[0]), es[1..], id)
  }

  lemma EntriesUnfold(s: Table, es: seq<Event>, id: string)
    requires es != [] && id in s
    ensures Entries(s, es, id) == EntryOf(s[id], ActOf(s, es[0], id), es[0].now) + Entries(Apply(s, es[0]), es[1..], id)
  {
  }

  lemma {:induction false} HolderRemembered(s: Table, es: seq<Event>, id: string)
    requires id in s
    ensures id in Run(s, es) && Run(s, es)[id].assignedWorkerId == Holder(s, es, id, s[id].assignedWorkerId)
    decreases |es|
  {
    if es != [] {
      RowStep(s, es[0], id);
      HolderRemembered(Apply(s, es[0]), es[1..], id);
    }
  }

  lemma {:induction false} LeaseRemembered(s: Table, es: seq<Event>, id: string)
    requires id in s
    ensures id in Run(s, es) && Run(s, es)[id].leaseExpiresAtMs == Lease(s, es, id, s[id].leaseExpiresAtMs)
    decreases |es|
  {
    if es != [] {
      RowStep(s, es[0], id);
      LeaseRemembered(Apply(s, es[0]), es[1..], id);
    }
  }

  lemma {:induction false} HistoryRemembered(s: Table, es: seq<Event>, id: string)
    requires id in s
    ensures id in Run(s, es) && Run(s, es)[id].attemptHistory == s[id].attemptHistory + Entries(s, es, id)
    decreases |es|
  {
    if es != [] {
      RowStep(s, es[0], id);
      HistoryRemembered(Apply(s, es[0]), es[1..], id);
      EntriesUnfold(s, es, id);
    }
  }

  /**
   * In every run that creates the task, its row's worker is the one the last hand-out or theft named, its
   * lease the one last put on it, and its history one entry per theft, charge and ending, in order.
   */
  lemma {:induction false} RowTellsRun(s: Table, es: seq<Event>, id: string)
    requires id !in s && id in Run(s, es)
    ensures Run(s, es)[id].assignedWorkerId == Holder(s, es, id, None)
    ensures Run(s, es)[id].leaseExpiresAtMs == Lease(s, es, id, None)
    ensures Run(s, es)[id].attemptHistory == Entries(s, es, id)
    decreases |es|
  {
    var next := Apply(s, es[0]);
    if id in next {
      RowCreated(s, es[0], id);
      HolderRemembered(next, es[1..], id);
      LeaseRemembered(next, es[1..], id);
      HistoryRemembered(next, es[1..], id);
    } else {
      RowTellsRun(next, es[1..], id);
    }
  }

  /** The three reasons that rule a worker out, and no others. */
  lemma ExcludedIff(history: seq<Attempt>, w: WorkerId)
    ensures w in Excluded(history) <==>
            exists a :: a in history && a.workerId == Some(w)
                        && (a.reason == "VALIDATION_TOLERANCE_EXCEEDED" || a.reason == "EXECUTION_ERROR"
                            || a.reason == "TOLERANCE_MISMATCH")
  {
  }
}
