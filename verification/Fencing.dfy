/**
 * Whole runs of the task store under the pipeline: every sequence of transactions, results and
 * recovery sweeps from an empty table, with the default retry limit. A result is one event when its
 * validation is not interrupted; `Resume` is the part after the await, on its own.
 */
module Fencing {
  import opened Prelude
  import opened Graph
  import opened TaskStore
  import opened WorkloadPipeline

  datatype Event =
    | Create(id: string, dependencies: seq<string>, destination: string, now: int)
    | Assign(id: string, workerId: WorkerId, now: int, leaseMs: int)
    | Start(id: string, now: int, leaseMs: int)
    | Steal(id: string, workerId: WorkerId, now: int, leaseMs: int)
    | Renew(id: string, now: int, leaseMs: int)
    | RenewWorker(workerId: WorkerId, now: int, leaseMs: int)
    | TaskResult(id: string, workerId: WorkerId, attempt: Option<int>, isValid: bool, destination: string, now: int)
    | Resume(id: string, workerId: WorkerId, isValid: bool, destination: string, now: int)
    | RecordFailure(id: string, workerId: WorkerId, reason: string, now: int)
    | FailOutright(id: string, reason: string, now: int)
    | Abandon(id: string, reason: string, now: int)
    | RecoverySweep(sweep: Sweep, now: int)

  /** The table after one transaction; rejected ones change nothing. */
  ghost function Apply(s: Table, e: Event): Table {
    match e
    case Create(id, deps, dest, now) =>
      if id !in s && !ReachesCycle(AdjacencyOf(s)[id := deps], id) then s[id := NewTask(id, deps, dest, now)] else s
    case Assign(id, w, now, lease) =>
      if id in s && s[id].status == PENDING && DependenciesSatisfied(s, s[id])
      then s[id := AssignedTo(s[id], w, now, lease)] else s
    case Start(id, now, lease) =>
      if id in s && s[id].status == ASSIGNED then s[id := StartedAt(s[id], now, lease)] else s
    case Steal(id, w, now, lease) =>
      if id in s && InFlight(s[id]) then s[id := StolenBy(s[id], w, now, lease)] else s
    case Renew(id, now, lease) =>
      if id in s && InFlight(s[id]) then s[id := RenewedAt(s[id], now, lease)] else s
    case RenewWorker(w, now, lease) => RenewedFor(s, w, now, lease)
    case TaskResult(id, w, attempt, valid, dest, now) => AfterResult(s, id, w, attempt, valid, dest, now)
    case Resume(id, w, valid, dest, now) => Resumed(s, id, w, valid, dest, now)
    case RecordFailure(id, w, reason, now) =>
      if id in s then s[id := ReclaimedFrom(s[id], Some(w), reason, now, DEFAULT_MAX_RETRIES)] else s
    case FailOutright(id, reason, now) =>
      if id in s && !Terminal(s[id]) then s[id := EndedAt(s[id], FAILED, reason, now)] else s
    case Abandon(id, reason, now) =>
      if id in s && !Terminal(s[id]) then s[id := EndedAt(s[id], ABANDONED, reason, now)] else s
    case RecoverySweep(sweep, now) => Swept(s, sweep, now, DEFAULT_MAX_RETRIES)
  }

  ghost function Run(s: Table, es: seq<Event>): Table
    decreases |es|
  {
    if es == [] then s else Run(Apply(s, es[0]), es[1..])
  }

  lemma {:induction false} RunSplits(s: Table, es: seq<Event>, i: nat)
    requires i <= |es|
    ensures Run(s, es) == Run(Run(s, es[..i]), es[i..])
    decreases |es|
  {
    if i == 0 {
      assert es[..0] == [] && es[0..] == es;
    } else {
      assert es[..i][0] == es[0] && es[..i][1..] == es[1..][..i - 1] && es[1..][i - 1..] == es[i..];
      RunSplits(Apply(s, es[0]), es[1..], i - 1);
    }
  }

  // ---------------------------------------------------------------- what one event does to one row

  /** The row's life never moves backwards: rows are kept, dependencies fixed, history only grows. */
  ghost predicate Evolves(before: Task, after: Task) {
    && after.dependencies == before.dependencies
    && before.retryCount <= after.retryCount
    && before.attemptHistory <= after.attemptHistory
    // back in the queue, or in another worker's hands, only as a new attempt
    && (after.retryCount == before.retryCount ==>
          && (after.status == PENDING ==> before.status == PENDING)
          && (InFlight(after) ==>
                before.status == PENDING || (InFlight(before) && after.assignedWorkerId == before.assignedWorkerId)))
  }

  lemma ApplyEvolves(s: Table, e: Event, id: string)
    requires id in s
    ensures id in Apply(s, e) && Evolves(s[id], Apply(s, e)[id])
  {
  }

  lemma EvolvesTransitive(a: Task, b: Task, c: Task)
    requires Evolves(a, b) && Evolves(b, c)
    ensures Evolves(a, c)
  {
  }

  lemma {:induction false} RunEvolves(s: Table, es: seq<Event>, id: string)
    requires id in s
    ensures id in Run(s, es) && Evolves(s[id], Run(s, es)[id])
    decreases |es|
  {
    if es != [] {
      ApplyEvolves(s, es[0], id);
      RunEvolves(Apply(s, es[0]), es[1..], id);
      EvolvesTransitive(s[id], Apply(s, es[0])[id], Run(s, es)[id]);
    }
  }

  // ---------------------------------------------------------------- the lease invariant

  ghost predicate RowLeased(t: Task) {
    && (InFlight(t) ==> t.assignedWorkerId.Some? && t.leaseExpiresAtMs.Some?)
    && (!InFlight(t) ==> t.leaseExpiresAtMs == None)
    && (t.status == PENDING ==> t.assignedWorkerId == None)
    && (t.status == PENDING ==> t.retryCount < DEFAULT_MAX_RETRIES)
  }

  ghost predicate Leased(s: Table) {
    forall id | id in s :: RowLeased(s[id])
  }

  lemma ApplyKeepsLeased(s: Table, e: Event)
    requires Leased(s)
    ensures Leased(Apply(s, e))
  {
    forall id | id in Apply(s, e) ensures RowLeased(Apply(s, e)[id]) {
      if id in s {
        assert RowLeased(s[id]);
      }
    }
  }

  /**
   * In-flight tasks always have a worker and a lease, all others have no lease, and pending tasks
   * have no worker and a retry count below 3.
   */
  lemma {:induction false} LeaseInvariant(s: Table, es: seq<Event>)
    requires Leased(s)
    ensures Leased(Run(s, es))
    decreases |es|
  {
    if es != [] {
      ApplyKeepsLeased(s, es[0]);
      LeaseInvariant(Apply(s, es[0]), es[1..]);
    }
  }

  /** The row has been taken back: one retry used up, free again or failed for good, and the loss on record. */
  predicate TakenBack(before: Task, after: Task) {
    && after.retryCount == before.retryCount + 1
    && after.status == (if before.retryCount < 2 then PENDING else FAILED)
    && after.assignedWorkerId == None && after.leaseExpiresAtMs == None
    && |after.attemptHistory| == |before.attemptHistory| + 1
    && after.attemptHistory[|before.attemptHistory|].workerId == before.assignedWorkerId
  }

  /** A worker's loss takes back exactly the tasks in flight at that worker, and leaves it none. */
  lemma WorkerLossIsExact(s: Table, w: WorkerId, now: int, id: string)
    requires id in s
    ensures var after := Apply(s, RecoverySweep(WorkerLoss(w), now));
            && after.Keys == s.Keys
            && (if s[id].status in {ASSIGNED, RUNNING} && s[id].assignedWorkerId == Some(w)
                then TakenBack(s[id], after[id])
                else after[id] == s[id])
            && !(after[id].status in {ASSIGNED, RUNNING} && after[id].assignedWorkerId == Some(w))
  {
  }

  /** An expiry sweep takes back exactly the tasks in flight whose lease ended before now. */
  lemma ExpiryIsExact(s: Table, nowMs: int, now: int, id: string)
    requires id in s
    ensures var after := Apply(s, RecoverySweep(LeaseExpiry(nowMs), now));
            && after.Keys == s.Keys
            && (if s[id].status in {ASSIGNED, RUNNING} && s[id].leaseExpiresAtMs.Some?
                && s[id].leaseExpiresAtMs.value < nowMs
                then TakenBack(s[id], after[id]) else after[id] == s[id])
  {
  }

  /** Crash recovery takes back everything in flight, and nothing else. */
  lemma CrashIsExact(s: Table, now: int, id: string)
    requires id in s
    ensures var after := Apply(s, RecoverySweep(HostCrash, now));
            && after.Keys == s.Keys
            && (if s[id].status in {ASSIGNED, RUNNING} then TakenBack(s[id], after[id]) else after[id] == s[id])
  {
  }

  /** A lease taken, started or stolen outlives every expiry sweep up to its end, and none after it. */
  lemma LeaseLastsExactly(s: Table, e: Event, id: string, nowMs: int, now: int)
    requires id in s && (e.Assign? || e.Start? || e.Steal? || e.Renew?) && e.id == id && Apply(s, e) != s
    ensures var leased := Apply(s, e);
            && id in leased && leased[id].status in {ASSIGNED, RUNNING}
            && (Apply(leased, RecoverySweep(LeaseExpiry(nowMs), now))[id] == leased[id] <==> nowMs <= e.now + e.leaseMs)
  {
  }

  /** failTask leaves FAILED and abandonTask ABANDONED, with the worker on record and the retries as they were. */
  lemma EndingsDiffer(s: Table, id: string, reason: string, now: int)
    requires id in s && s[id].status !in {COMPLETED, FAILED, ABANDONED}
    ensures Apply(s, FailOutright(id, reason, now))[id].status == FAILED
    ensures Apply(s, Abandon(id, reason, now))[id].status == ABANDONED
    ensures forall e | e in {FailOutright(id, reason, now), Abandon(id, reason, now)} ::
              var after := Apply(s, e)[id];
              && after.retryCount == s[id].retryCount && after.assignedWorkerId == s[id].assignedWorkerId
              && after.leaseExpiresAtMs == None && |after.attemptHistory| == |s[id].attemptHistory| + 1
  {
  }

  /** Renewing a worker's leases keeps its tasks from an expiry sweep for exactly the lease time. */
  lemma RenewalShieldsFromSweep(s: Table, w: WorkerId, fromMs: int, leaseMs: int, nowMs: int, id: string)
    requires id in s
    ensures var after := Apply(s, RenewWorker(w, fromMs, leaseMs));
            && (HeldBy(s[id], w) ==> (Selects(LeaseExpiry(nowMs), after[id]) <==> nowMs > fromMs + leaseMs))
            && (!HeldBy(s[id], w) ==> after[id] == s[id])
  {
  }

  /** After a crash sweep nothing is in flight at all. */
  lemma CrashSweepEmptiesFlight(s: Table, now: int)
    ensures forall id | id in Apply(s, RecoverySweep(HostCrash, now)) ::
              !InFlight(Apply(s, RecoverySweep(HostCrash, now))[id])
  {
  }

  // ---------------------------------------------------------------- fencing

  /** The worker holds the lease of the task for the given attempt, counted from 1. */
  predicate Holds(s: Table, id: string, w: WorkerId, attempt: nat) {
    id in s && InFlight(s[id]) && s[id].assignedWorkerId == Some(w) && attempt == s[id].retryCount + 1
  }

  /** One attempt number, one holder, over the whole life of the table. */
  lemma OneHolderPerAttempt(start: Table, es: seq<Event>, i: nat, j: nat, id: string, w: WorkerId, w': WorkerId,
                            attempt: nat)
    requires i <= j <= |es|
    requires Holds(Run(start, es[..i]), id, w, attempt) && Holds(Run(start, es[..j]), id, w', attempt)
    ensures w == w'
  {
    RunSplits(start, es[..j], i);
    assert es[..j][..i] == es[..i];
    RunEvolves(Run(start, es[..i]), es[..j][i..], id);
  }

  predicate CompletesTask(s: Table, e: Event, id: string) {
    e.TaskResult? && e.id == id && Judge(s, id, e.workerId, e.attempt, e.isValid) == Completes
  }

  /** A result's second half that finds the task in flight and valid. */
  predicate ResumesToCompletion(s: Table, e: Event, id: string) {
    e.Resume? && e.id == id && ResumeOutcome(s, id, e.isValid) == Completes
  }

  lemma CompletionComesFromResult(s: Table, e: Event, id: string)
    requires id !in s || s[id].status != COMPLETED
    ensures id in Apply(s, e) && Apply(s, e)[id].status == COMPLETED <==>
            CompletesTask(s, e, id) || ResumesToCompletion(s, e, id)
  {
  }

  /** In every run, only valid results complete tasks: one whose fences passed, or one resumed after its await. */
  lemma {:induction false} OnlyResultsComplete(s: Table, es: seq<Event>, id: string) returns (i: nat)
    requires id !in s || s[id].status != COMPLETED
    requires id in Run(s, es) && Run(s, es)[id].status == COMPLETED
    ensures i < |es|
    ensures CompletesTask(Run(s, es[..i]), es[i], id) || ResumesToCompletion(Run(s, es[..i]), es[i], id)
    decreases |es|
  {
    CompletionComesFromResult(s, es[0], id);
    if CompletesTask(s, es[0], id) || ResumesToCompletion(s, es[0], id) {
      i := 0;
    } else {
      var j := OnlyResultsComplete(Apply(s, es[0]), es[1..], id);
      i := j + 1;
      assert es[..i][0] == es[0] && es[..i][1..] == es[1..][..j];
    }
  }

  /** A numbered result completes a task exactly when it is valid and comes from the current holder of that attempt. */
  lemma FencedCompletion(s: Table, id: string, w: WorkerId, attempt: nat, isValid: bool, dest: string, now: int)
    requires Leased(s)
    ensures CompletesTask(s, TaskResult(id, w, Some(attempt), isValid, dest, now), id) <==>
            Holds(s, id, w, attempt) && isValid
  {
    if id in s {
      assert RowLeased(s[id]);
    }
  }

  /** Without a number only the worker is fenced: any attempt of the same worker passes. */
  lemma UnnumberedCompletion(s: Table, id: string, w: WorkerId, isValid: bool, dest: string, now: int)
    requires Leased(s)
    ensures CompletesTask(s, TaskResult(id, w, None, isValid, dest, now), id) <==>
            isValid && id in s && InFlight(s[id]) && s[id].assignedWorkerId == Some(w)
  {
    if id in s {
      assert RowLeased(s[id]);
    }
  }

  /**
   * Superseded attempts stay superseded: once a worker has held an attempt and lost it, to expiry,
   * theft, disconnection, crash, failure or completion, no later result carrying that attempt number
   * completes the task, whoever sends it.
   */
  lemma LostAttemptNeverCompletes(start: Table, es: seq<Event>, i: nat, j: nat, k: nat, id: string, w: WorkerId,
                                  attempt: nat, w': WorkerId, isValid: bool, dest: string, now: int)
    requires Leased(start) && i <= j <= k <= |es|
    requires Holds(Run(start, es[..i]), id, w, attempt) && !Holds(Run(start, es[..j]), id, w, attempt)
    ensures !CompletesTask(Run(start, es[..k]), TaskResult(id, w', Some(attempt), isValid, dest, now), id)
  {
    var a, b, c := Run(start, es[..i]), Run(start, es[..j]), Run(start, es[..k]);
    RunSplits(start, es[..j], i);
    assert es[..j][..i] == es[..i];
    RunEvolves(a, es[..j][i..], id);
    RunSplits(start, es[..k], j);
    assert es[..k][..j] == es[..j];
    RunEvolves(b, es[..k][j..], id);
    LeaseInvariant(start, es[..k]);
    FencedCompletion(c, id, w', attempt, isValid, dest, now);
  }

  /**
   * A dispatcher numbers what it sends by the row it read when it began. A result with that number
   * completes the task, however much later, exactly while no retry has been used up since.
   */
  lemma KeptNumberCompletesIff(s: Table, es: seq<Event>, id: string, w: WorkerId, isValid: bool, dest: string, now: int)
    requires Leased(s) && id in s
    ensures id in Run(s, es)
    ensures var later := Run(s, es);
            CompletesTask(later, TaskResult(id, w, Some(s[id].retryCount + 1), isValid, dest, now), id) <==>
            && isValid && InFlight(later[id]) && later[id].assignedWorkerId == Some(w)
            && later[id].retryCount == s[id].retryCount
  {
    RunEvolves(s, es, id);
    LeaseInvariant(s, es);
    FencedCompletion(Run(s, es), id, w, s[id].retryCount + 1, isValid, dest, now);
  }

  /** Once a retry has been used up, results with an earlier number change nothing, in any later state. */
  lemma UsedNumberIgnored(s: Table, es: seq<Event>, id: string, number: int, w: WorkerId, isValid: bool, dest: string,
                          now: int)
    requires id in s && number <= s[id].retryCount
    ensures Apply(Run(s, es), TaskResult(id, w, Some(number), isValid, dest, now)) == Run(s, es)
  {
    RunEvolves(s, es, id);
  }

  /** Every result for the task carries this number, and none is being validated. */
  predicate Numbered(e: Event, id: string, number: int) {
    (e.TaskResult? && e.id == id ==> e.attempt == Some(number)) && (e.Resume? ==> e.id != id)
  }

  /** So if all results for the task carry the number of an attempt that is over, it is never completed again. */
  lemma {:induction false} UsedNumberNeverCompletes(s: Table, es: seq<Event>, id: string, number: int)
    requires id in s && number <= s[id].retryCount && s[id].status != COMPLETED
    requires forall e | e in es :: Numbered(e, id, number)
    ensures id in Run(s, es) && Run(s, es)[id].status != COMPLETED
    decreases |es|
  {
    if es != [] {
      ApplyEvolves(s, es[0], id);
      CompletionComesFromResult(s, es[0], id);
      assert Numbered(es[0], id, number);
      UsedNumberNeverCompletes(Apply(s, es[0]), es[1..], id, number);
    }
  }

  // ---------------------------------------------------------------- while the validator runs

  /**
   * Validation is awaited between the fences and the transition. When other events come in between, a
   * result that passed the fences still acts on its own attempt, completing it or charging it, exactly
   * when the task is still in flight with the same retry count.
   */
  lemma FencedAcrossAwaitIff(s: Table, es: seq<Event>, id: string, w: WorkerId, attempt: nat)
    requires Leased(s) && Holds(s, id, w, attempt)
    ensures PassesFences(s, id, w, Some(attempt))
    ensures id in Run(s, es)
    ensures Holds(Run(s, es), id, w, attempt) <==>
            InFlight(Run(s, es)[id]) && Run(s, es)[id].retryCount == s[id].retryCount
  {
    RunEvolves(s, es, id);
  }

  /** What the second half does, by verdict: a valid one needs the task in flight, an invalid one needs nothing. */
  lemma ResumeEffects(s: Table, id: string, w: WorkerId, isValid: bool, dest: string, now: int)
    requires id in s
    ensures var after := Apply(s, Resume(id, w, isValid, dest, now));
            && (isValid ==>
                  (after[id] != s[id] <==> InFlight(s[id])) && (InFlight(s[id]) ==> after[id].status == COMPLETED))
            && (!isValid ==> after[id].retryCount == s[id].retryCount + 1 && !InFlight(after[id])
                             && (after[id].status == PENDING <==> s[id].retryCount < 2))
  {
  }

  /**
   * A steal while the validator runs: the old holder's result completes the thief's attempt if it is
   * valid, and takes the task away from the thief if it is not.
   */
  lemma StolenWhileValidating(s: Table, id: string, w: WorkerId, thief: WorkerId, attempt: nat, isValid: bool,
                              dest: string, now: int, lease: int)
    requires Leased(s) && Holds(s, id, w, attempt)
    ensures PassesFences(s, id, w, Some(attempt))
    ensures var stolen := Run(s, [Steal(id, thief, now, lease)]);
            var after := Apply(stolen, Resume(id, w, isValid, dest, now));
            && Holds(stolen, id, thief, attempt + 1) && !Holds(stolen, id, w, attempt)
            && id in after && !InFlight(after[id]) && (after[id].status == COMPLETED <==> isValid)
  {
    var e := Steal(id, thief, now, lease);
    assert [e][1..] == [];
    assert Run(s, [e]) == Apply(s, e);
  }

  /** Two results of the same holder, both past the fences: the invalid one takes back what the valid one completed. */
  lemma CompletedWhileValidating(s: Table, id: string, w: WorkerId, attempt: nat, dest: string, now: int)
    requires Leased(s) && Holds(s, id, w, attempt)
    ensures var done := Run(s, [TaskResult(id, w, Some(attempt), true, dest, now)]);
            var after := Apply(done, Resume(id, w, false, dest, now));
            id in done && done[id].status == COMPLETED && id in after && after[id].status != COMPLETED
  {
    var e := TaskResult(id, w, Some(attempt), true, dest, now);
    assert [e][1..] == [];
    assert Run(s, [e]) == Apply(s, e);
  }

  // ---------------------------------------------------------------- finality and unguarded failures

  /** A failure is charged to the task: recorded outright, or by an invalid result. */
  predicate Charges(s: Table, e: Event, id: string) {
    && id in s
    && match e
       case RecordFailure(i, _, _, _) => i == id
       case TaskResult(i, w, attempt, isValid, _, _) => i == id && Judge(s, id, w, attempt, isValid) == RecordsFailure
       case Resume(i, _, isValid, _, _) => i == id && !isValid
       case _ => false
  }

  /**
   * Terminal tasks keep their status under every event that charges no failure. One that does takes
   * them back, and only the retry limit keeps a failed task failed.
   */
  lemma TerminalKeptIff(s: Table, e: Event, id: string)
    requires id in s && Terminal(s[id])
    ensures Apply(s, e)[id].status == s[id].status <==>
            (Charges(s, e, id) ==> s[id].status == FAILED && s[id].retryCount + 1 >= DEFAULT_MAX_RETRIES)
  {
  }

  /** For completed tasks the duplicate fence leaves only failures that pass no fence. */
  lemma CompletedKeptIff(s: Table, e: Event, id: string)
    requires id in s && s[id].status == COMPLETED
    ensures Apply(s, e)[id].status == COMPLETED <==>
            !(e.RecordFailure? && e.id == id) && !(e.Resume? && e.id == id && !e.isValid)
  {
  }

  /** A completed task goes back to the queue. */
  lemma CompletedTakenBack(w: WorkerId)
    ensures var t := CompletedAt(AssignedTo(NewTask("t", [], "", 0), w, 0, 1), "", 1);
            var after := Apply(map["t" := t], RecordFailure("t", w, "EXECUTION_FAILED", 2));
            t.status == COMPLETED && after["t"].status == PENDING
  {
  }

  /** Completion is final in every run that charges the task no failure past the fences. */
  lemma {:induction false} CompletedIsFinal(s: Table, es: seq<Event>, id: string)
    requires id in s && s[id].status == COMPLETED
    requires forall e | e in es :: !(e.RecordFailure? && e.id == id) && !(e.Resume? && e.id == id && !e.isValid)
    ensures id in Run(s, es) && Run(s, es)[id].status == COMPLETED
    decreases |es|
  {
    if es != [] {
      CompletedKeptIff(s, es[0], id);
      ApplyEvolves(s, es[0], id);
      CompletedIsFinal(Apply(s, es[0]), es[1..], id);
    }
  }

  /** A task that has failed with its retries used up stays failed, in every run. */
  lemma {:induction false} ExhaustedIsFinal(s: Table, es: seq<Event>, id: string)
    requires id in s && s[id].status == FAILED && s[id].retryCount + 1 >= DEFAULT_MAX_RETRIES
    ensures id in Run(s, es) && Run(s, es)[id].status == FAILED
    decreases |es|
  {
    if es != [] {
      TerminalKeptIff(s, es[0], id);
      ApplyEvolves(s, es[0], id);
      ExhaustedIsFinal(Apply(s, es[0]), es[1..], id);
    }
  }

  // ---------------------------------------------------------------- retry budget

  predicate IsAssignmentOf(s: Table, e: Event, id: string) {
    e.Assign? && e.id == id && id in s && s[id].status == PENDING && DependenciesSatisfied(s, s[id])
  }

  /** How often a run assigns the task from the queue. */
  ghost function Assignments(s: Table, es: seq<Event>, id: string): nat
    decreases |es|
  {
    if es == [] then 0
    else (if IsAssignmentOf(s, es[0], id) then 1 else 0) + Assignments(Apply(s, es[0]), es[1..], id)
  }

  /** Assignments a row has room for: each one needs a fresh retry count below 3. */
  function Room(s: Table, id: string): nat {
    if id !in s then 3
    else if s[id].status == PENDING then Max(0, 3 - s[id].retryCount)
    else Max(0, 2 - s[id].retryCount)
  }

  lemma AssignmentUsesRoom(s: Table, e: Event, id: string)
    requires Leased(s)
    ensures Room(Apply(s, e), id) + (if IsAssignmentOf(s, e, id) then 1 else 0) <= Room(s, id)
  {
    if id in s {
      assert RowLeased(s[id]);
      ApplyEvolves(s, e, id);
    }
  }

  lemma {:induction false} AssignmentsFitRoom(s: Table, es: seq<Event>, id: string)
    requires Leased(s)
    ensures Assignments(s, es, id) <= Room(s, id)
    decreases |es|
  {
    if es != [] {
      AssignmentUsesRoom(s, es[0], id);
      ApplyKeepsLeased(s, es[0]);
      AssignmentsFitRoom(Apply(s, es[0]), es[1..], id);
    }
  }

  /** In every run from an empty table, assignTask succeeds at most 3 times for each task. */
  lemma RetryBudget(es: seq<Event>, id: string)
    ensures Assignments(map[], es, id) <= 3
  {
    AssignmentsFitRoom(map[], es, id);
  }

  predicate IsEndingOf(s: Table, e: Event, id: string) {
    (e.FailOutright? || e.Abandon?) && e.id == id && id in s && !Terminal(s[id])
  }

  /** How often failTask and abandonTask end the task in a run. */
  ghost function Endings(s: Table, es: seq<Event>, id: string): nat
    decreases |es|
  {
    if es == [] then 0
    else (if IsEndingOf(s, es[0], id) then 1 else 0) + Endings(Apply(s, es[0]), es[1..], id)
  }

  lemma HistoryStep(s: Table, e: Event, id: string)
    requires id in s
    ensures id in Apply(s, e)
    ensures |Apply(s, e)[id].attemptHistory| - Apply(s, e)[id].retryCount
            == |s[id].attemptHistory| - s[id].retryCount + if IsEndingOf(s, e, id) then 1 else 0
  {
  }

  /** Every retry leaves one history entry, and only failTask and abandonTask write entries without one. */
  lemma {:induction false} HistoryCountsRetries(s: Table, es: seq<Event>, id: string)
    requires id in s
    ensures id in Run(s, es)
    ensures |Run(s, es)[id].attemptHistory| - Run(s, es)[id].retryCount
            == |s[id].attemptHistory| - s[id].retryCount + Endings(s, es, id)
    decreases |es|
  {
    if es != [] {
      HistoryStep(s, es[0], id);
      HistoryCountsRetries(Apply(s, es[0]), es[1..], id);
    }
  }

  // ---------------------------------------------------------------- exclusion

  lemma ExcludedGrows(shorter: seq<Attempt>, longer: seq<Attempt>)
    requires shorter <= longer
    ensures Excluded(shorter) <= Excluded(longer)
  {
    forall w | w in Excluded(shorter) ensures w in Excluded(longer) {
      var a :| a in shorter && a.workerId == Some(w) && a.reason in EXCLUDING_REASONS;
      assert a in longer;
    }
  }

  /** A recorded failure rules its worker out exactly when its reason is one of the excluding three. */
  lemma RecordedFailureExcludesIff(s: Table, id: string, w: WorkerId, reason: string, now: int)
    requires id in s
    ensures var after := Apply(s, RecordFailure(id, w, reason, now));
            Excluded(after[id].attemptHistory)
            == Excluded(s[id].attemptHistory) + if reason in EXCLUDING_REASONS then {w} else {}
  {
    var entry := Attempt(now, Some(w), s[id].status, reason);
    var history := s[id].attemptHistory;
    assert forall a :: a in history + [entry] <==> a in history || a == entry;
    if reason in EXCLUDING_REASONS {
      assert entry in history + [entry];
    }
  }

  /** The reasons the chunk dispatchers record rule nobody out. */
  lemma DispatchFailuresExcludeNobody(s: Table, id: string, w: WorkerId, reason: string, now: int)
    requires id in s
    requires reason in {"EXECUTION_FAILED", "SIMULATION_ERROR", "TRANSPORT_SEND_FAILED", "SIMULATION_EXECUTION_FAILED"}
    ensures Excluded(Apply(s, RecordFailure(id, w, reason, now))[id].attemptHistory) == Excluded(s[id].attemptHistory)
  {
    RecordedFailureExcludesIff(s, id, w, reason, now);
  }

  /** A worker whose result failed validation is ruled out for that task from then on. */
  lemma FailedWorkerStaysExcluded(s: Table, id: string, w: WorkerId, attempt: Option<int>, dest: string, now: int,
                                  later: seq<Event>)
    requires Judge(s, id, w, attempt, false) == RecordsFailure
    ensures var after := Run(Apply(s, TaskResult(id, w, attempt, false, dest, now)), later);
            id in after && w in Excluded(after[id].attemptHistory)
  {
    var next := Apply(s, TaskResult(id, w, attempt, false, dest, now));
    var history := next[id].attemptHistory;
    assert history[|history| - 1] in history;
    RunEvolves(next, later, id);
    ExcludedGrows(history, Run(next, later)[id].attemptHistory);
  }

  // ---------------------------------------------------------------- dependencies

  ghost predicate NoRepeats(ids: seq<string>) {
    forall i, j | 0 <= i < j < |ids| :: ids[i] != ids[j]
  }

  ghost predicate AllCompleted(s: Table, ids: seq<string>) {
    forall d | d in ids :: d in s && s[d].status == COMPLETED
  }

  /** With distinct dependencies the count test means all are complete; with repeats it can never pass. */
  lemma DependencyCountIff(s: Table, t: Task)
    ensures DependenciesSatisfied(s, t) <==> NoRepeats(t.dependencies) && AllCompleted(s, t.dependencies)
  {
    CountDistinct(s, t.dependencies);
  }

  lemma NoRepeatsSplit(init: seq<string>, last: string)
    ensures NoRepeats(init + [last]) <==> NoRepeats(init) && last !in init
  {
    var ids := init + [last];
    if NoRepeats(ids) {
      forall i, j | 0 <= i < j < |init| ensures init[i] != init[j] {
        assert ids[i] != ids[j];
      }
      forall i | 0 <= i < |init| ensures init[i] != last {
        assert ids[i] != ids[|init|];
      }
    }
  }

  lemma CountStep(s: Table, init: seq<string>, last: string)
    ensures |CompletedAmong(s, init + [last])|
            == |CompletedAmong(s, init)| + if last in s && s[last].status == COMPLETED && last !in init then 1 else 0
  {
    var counted := CompletedAmong(s, init);
    var isNew := last in s && s[last].status == COMPLETED && last !in init;
    assert CompletedAmong(s, init + [last]) == if isNew then counted + {last} else counted;
  }

  lemma {:induction false} CountDistinct(s: Table, deps: seq<string>)
    ensures |CompletedAmong(s, deps)| <= |deps|
    ensures |CompletedAmong(s, deps)| == |deps| <==> NoRepeats(deps) && AllCompleted(s, deps)
  {
    if deps == [] {
      assert CompletedAmong(s, deps) == {};
    } else {
      var init, last := deps[..|deps| - 1], deps[|deps| - 1];
      assert deps == init + [last];
      CountDistinct(s, init);
      NoRepeatsSplit(init, last);
      CountStep(s, init, last);
      assert AllCompleted(s, deps) <==> AllCompleted(s, init) && last in s && s[last].status == COMPLETED;
    }
  }

  /** A walk that never leaves through the new node is a walk of the old graph, and so is a cycle. */
  lemma OldWalk(adj: Adjacency, id: string, deps: seq<string>, p: seq<string>)
    requires Walk(adj[id := deps], p) && forall i | 0 <= i < |p| - 1 :: p[i] != id
    ensures Walk(adj, p) && (|p| >= 2 ==> Reaches(adj, p[0], p[|p| - 1]))
  {
    forall i | 0 <= i < |p| - 1 ensures p[i + 1] in Parents(adj, p[i]) {
      assert p[i + 1] in Parents(adj[id := deps], p[i]);
    }
  }

  /** A cycle of the extended graph goes through the new node. */
  lemma CycleThroughNew(adj: Adjacency, id: string, deps: seq<string>, p: seq<string>)
    requires Acyclic(adj) && Walk(adj[id := deps], p) && |p| >= 2 && p[0] == p[|p| - 1]
    ensures Reaches(adj[id := deps], id, id)
  {
    if forall i | 0 <= i < |p| - 1 :: p[i] != id {
      OldWalk(adj, id, deps, p);
    } else {
      var k: nat :| k < |p| - 1 && p[k] == id;
      SubWalk(adj[id := deps], p, k, |p| - 1);
      if k > 0 {
        SubWalk(adj[id := deps], p, 0, k);
        ReachesTransitive(adj[id := deps], id, p[0], id);
      }
    }
  }

  /** Searching from the new task alone finds every cycle the new task could have closed. */
  lemma NewTaskSearchSuffices(adj: Adjacency, id: string, deps: seq<string>)
    requires Acyclic(adj) && id !in adj
    ensures ReachesCycle(adj[id := deps], id) <==> !Acyclic(adj[id := deps])
  {
    var extended := adj[id := deps];
    if !Acyclic(extended) {
      var m :| Reaches(extended, m, m);
      var p :| Walk(extended, p) && |p| >= 2 && p[0] == m && p[|p| - 1] == m;
      CycleThroughNew(adj, id, deps, p);
    }
  }

  lemma AdjacencyKept(s: Table, e: Event)
    requires !e.Create?
    ensures AdjacencyOf(Apply(s, e)) == AdjacencyOf(s)
  {
    NoNewRows(s, e);
    forall id | id in s ensures Apply(s, e)[id].dependencies == s[id].dependencies {
      ApplyEvolves(s, e, id);
    }
    SameDependencies(s, Apply(s, e));
  }

  lemma NoNewRows(s: Table, e: Event)
    requires !e.Create?
    ensures Apply(s, e).Keys == s.Keys
  {
  }

  lemma SameDependencies(s: Table, t: Table)
    requires s.Keys == t.Keys && forall id | id in s :: t[id].dependencies == s[id].dependencies
    ensures AdjacencyOf(s) == AdjacencyOf(t)
  {
  }

  lemma CreationExtends(s: Table, e: Event)
    requires e.Create? && Apply(s, e) != s
    ensures e.id !in s && !ReachesCycle(AdjacencyOf(s)[e.id := e.dependencies], e.id)
    ensures AdjacencyOf(Apply(s, e)) == AdjacencyOf(s)[e.id := e.dependencies]
  {
  }

  /**
   * Every reachable store has an acyclic dependency graph, also when tasks name dependencies that are
   * created only later.
   */
  lemma {:induction false} DependenciesStayAcyclic(s: Table, es: seq<Event>)
    requires Acyclic(AdjacencyOf(s))
    ensures Acyclic(AdjacencyOf(Run(s, es)))
    decreases |es|
  {
    if es != [] {
      CreateKeepsAcyclic(s, es[0]);
      DependenciesStayAcyclic(Apply(s, es[0]), es[1..]);
    }
  }

  lemma CreateKeepsAcyclic(s: Table, e: Event)
    requires Acyclic(AdjacencyOf(s))
    ensures Acyclic(AdjacencyOf(Apply(s, e)))
  {
    if e.Create? {
      if Apply(s, e) != s {
        CreationExtends(s, e);
        NewTaskSearchSuffices(AdjacencyOf(s), e.id, e.dependencies);
      }
    } else {
      AdjacencyKept(s, e);
    }
  }

  /** From an empty table, a fresh id is accepted exactly when the extended graph has no cycle. */
  lemma AcceptedIffAcyclic(es: seq<Event>, id: string, deps: seq<string>, dest: string, now: int)
    requires id !in Run(map[], es)
    ensures id in Apply(Run(map[], es), Create(id, deps, dest, now)) <==>
            Acyclic(AdjacencyOf(Run(map[], es))[id := deps])
  {
    var s := Run(map[], es);
    EmptyAcyclic();
    DependenciesStayAcyclic(map[], es);
    NewTaskSearchSuffices(AdjacencyOf(s), id, deps);
  }

  lemma EmptyAcyclic()
    ensures Acyclic(AdjacencyOf(map[]))
  {
    var adj := AdjacencyOf(map[]);
    forall n ensures !Reaches(adj, n, n) {
      NotOnCycle(adj, {}, n);
    }
  }

  // ---------------------------------------------------------------- the methods implement the events

  predicate IsResult(e: Event) {
    e.TaskResult? || e.Resume?
  }

  /** What a result event does to the books; other events settle nothing. */
  function OutcomeOf(s: Table, e: Event): Outcome {
    match e
    case TaskResult(id, w, attempt, isValid, _, _) => Judge(s, id, w, attempt, isValid)
    case Resume(id, _, isValid, _, _) => ResumeOutcome(s, id, isValid)
    case _ => TaskMissing
  }

  predicate IsEnding(e: Event) {
    e.RecordFailure? || e.FailOutright? || e.Abandon? || e.RecoverySweep?
  }

  /** Transactions that create tasks and hand out leases. */
  method PerformLeasing(store: Store, e: Event)
    requires store.Valid() && !IsResult(e) && !IsEnding(e)
    modifies store
    ensures store.Valid() && store.tasks == Apply(old(store.tasks), e)
  {
    match e
    case Create(id, deps, dest, now) =>
      var _ := store.CreateTask(id, deps, dest, now);
    case Assign(id, w, now, lease) =>
      var _ := store.AssignTask(id, w, now, lease);
    case Start(id, now, lease) =>
      var _ := store.StartTask(id, now, lease);
    case Steal(id, w, now, lease) =>
      var _ := store.StealTask(id, w, now, lease);
    case Renew(id, now, lease) =>
      var _ := store.RenewLease(id, now, lease);
    case RenewWorker(w, now, lease) =>
      var _ := store.RenewWorkerLeases(w, now, lease);
  }

  /** Transactions that take leases away. */
  method PerformEnding(store: Store, e: Event)
    requires store.Valid() && IsEnding(e)
    modifies store
    ensures store.Valid() && store.tasks == Apply(old(store.tasks), e)
  {
    match e
    case RecordFailure(id, w, reason, now) =>
      var _ := store.RecordTaskFailure(id, w, reason, now, DEFAULT_MAX_RETRIES);
    case FailOutright(id, reason, now) =>
      var _ := store.EndTask(id, FAILED, reason, now);
    case Abandon(id, reason, now) =>
      var _ := store.EndTask(id, ABANDONED, reason, now);
    case RecoverySweep(sweep, now) =>
      var _, _ := store.Recover(sweep, now, DEFAULT_MAX_RETRIES);
  }

  /** One event, carried out by the pipeline and its store: the methods implement the runs. */
  method Perform(p: Pipeline, e: Event)
    requires p.store.Valid()
    modifies p, p.store
    ensures p.store.Valid() && p.store.tasks == Apply(old(p.store.tasks), e)
    ensures p.workloads == if IsResult(e) then Settled(old(p.workloads), e.id, OutcomeOf(old(p.store.tasks), e))
                           else old(p.workloads)
  {
    if e.TaskResult? {
      var _, _ := p.HandleTaskResult(e.id, e.workerId, e.attempt, e.isValid, e.destination, e.now);
    } else if e.Resume? {
      var _, _ := p.ResumeResult(e.id, e.workerId, e.isValid, e.destination, e.now);
    } else if IsEnding(e) {
      PerformEnding(p.store, e);
    } else {
      PerformLeasing(p.store, e);
    }
  }
}
