/**
 * Dispatching one chunk with retries, as the three chunked executions do: up to three tries, each of
 * which assigns the task, hands the chunk to a worker and waits for the result or a timeout. The task's
 * row is read once, before the first try, and every remote try is numbered by that row.
 */
module ChunkDispatch {
  import opened Prelude
  import opened TaskStore
  import opened WorkloadPipeline

  const MAX_TRIES := 3

  /** What becomes of a try when nothing else touches the task. */
  datatype Try =
    | Unplaced
    | Unsent(workerId: WorkerId)
    | Silent(workerId: WorkerId)
    | Answered(workerId: WorkerId, isValid: bool)
    | Simulated(workerId: WorkerId, isValid: bool)
    | SimulationFailed(workerId: WorkerId)

  datatype Delivery = Delivered(last: Try) | Rejected

  /** A remote worker echoes the number it was sent; the simulation worker sends none. */
  function NumberOn(t: Try, number: int): Option<int> {
    if t.Answered? then Some(number) else None
  }

  // ---------------------------------------------------------------- what decides the outcome

  /** The try's result passes the fences of a row with this retry count. */
  predicate Heard(t: Try, number: int, retryCount: nat) {
    t.Simulated? || (t.Answered? && number == retryCount + 1)
  }

  predicate Delivers(t: Try, number: int, retryCount: nat) {
    Heard(t, number, retryCount) && t.isValid
  }

  /** Retries a try uses up without delivering: an invalid result and a failed simulation are charged twice. */
  function Charge(t: Try, number: int, retryCount: nat): nat {
    if Heard(t, number, retryCount) || t.SimulationFailed? then 2 else 1
  }

  /** The outcome for a row that is pending or not, with the tries still to come. */
  function Dispatch(pending: bool, retryCount: nat, number: int, tries: seq<Try>): Delivery
    decreases |tries|
  {
    if tries == [] || tries[0].Unplaced? || !pending || tries[0].Unsent? then Rejected
    else if Delivers(tries[0], number, retryCount) then Delivered(tries[0])
    else
      var charged := retryCount + Charge(tries[0], number, retryCount);
      Dispatch(charged < DEFAULT_MAX_RETRIES, charged, number, tries[1..])
  }

  /** A failure charged to the task: who is on record for it, and why. */
  datatype Note = Note(workerId: WorkerId, reason: string)

  /** What a try leaves on record that was sent and not delivered. */
  function NotesOf(t: Try, number: int, retryCount: nat): (notes: seq<Note>)
    requires Retried(t)
    ensures |notes| == Charge(t, number, retryCount)
  {
    (if Heard(t, number, retryCount) then [Note(t.workerId, "VALIDATION_TOLERANCE_EXCEEDED")]
     else if t.SimulationFailed? then [Note(t.workerId, "SIMULATION_ERROR")] else [])
    + [Note(t.workerId, "EXECUTION_FAILED")]
  }

  /** What the dispatch leaves on record: a chunk that cannot be sent is charged as well. */
  function Notes(pending: bool, retryCount: nat, number: int, tries: seq<Try>): seq<Note>
    decreases |tries|
  {
    if tries == [] || tries[0].Unplaced? || !pending then []
    else if tries[0].Unsent? then [Note(tries[0].workerId, "TRANSPORT_SEND_FAILED")]
    else if Delivers(tries[0], number, retryCount) then []
    else
      var charged := retryCount + Charge(tries[0], number, retryCount);
      NotesOf(tries[0], number, retryCount)
      + Notes(charged < DEFAULT_MAX_RETRIES, charged, number, tries[1..])
  }

  predicate IsNoted(a: Attempt, note: Note) {
    a.workerId == Some(note.workerId) && a.reason == note.reason
  }

  /** Between the two rows these failures were charged, one retry and one entry each, and nothing else. */
  predicate Logged(before: Task, after: Task, notes: seq<Note>) {
    && after.retryCount == before.retryCount + |notes|
    && before.attemptHistory <= after.attemptHistory
    && |after.attemptHistory| == |before.attemptHistory| + |notes|
    && forall i | 0 <= i < |notes| :: IsNoted(after.attemptHistory[|before.attemptHistory| + i], notes[i])
  }

  lemma LoggedJoins(a: Task, b: Task, c: Task, first: seq<Note>, second: seq<Note>)
    requires Logged(a, b, first) && Logged(b, c, second)
    ensures Logged(a, c, first + second)
  {
    var notes := first + second;
    forall i | 0 <= i < |notes| ensures IsNoted(c.attemptHistory[|a.attemptHistory| + i], notes[i]) {
      if i < |first| {
        assert IsNoted(b.attemptHistory[|a.attemptHistory| + i], first[i]);
      } else {
        assert IsNoted(c.attemptHistory[|b.attemptHistory| + (i - |first|)], second[i - |first|]);
      }
    }
  }

  predicate AnsweredWrongly(t: Try, w: WorkerId) {
    (t.Answered? || t.Simulated?) && !t.isValid && t.workerId == w
  }

  /** Of the tries of a dispatch, only invalid results rule their workers out for the task. */
  lemma {:induction false} OnlyInvalidExcludes(pending: bool, retryCount: nat, number: int, tries: seq<Try>)
    ensures forall note | note in Notes(pending, retryCount, number, tries) && note.reason in EXCLUDING_REASONS ::
              exists t :: t in tries && AnsweredWrongly(t, note.workerId)
    decreases |tries|
  {
    if tries != [] && Retried(tries[0]) && pending && !Delivers(tries[0], number, retryCount) {
      var charged := retryCount + Charge(tries[0], number, retryCount);
      OnlyInvalidExcludes(charged < DEFAULT_MAX_RETRIES, charged, number, tries[1..]);
      forall note | note in NotesOf(tries[0], number, retryCount) && note.reason in EXCLUDING_REASONS
        ensures AnsweredWrongly(tries[0], note.workerId)
      {
      }
      assert forall t | t in tries[1..] :: t in tries;
    }
  }

  /** A remote worker's result is never heard on a retry: it carries the number of the first try. */
  lemma {:induction false} RetriesNeverHeard(pending: bool, retryCount: nat, number: int, tries: seq<Try>)
    requires number <= retryCount
    ensures Dispatch(pending, retryCount, number, tries).Delivered? ==>
              Dispatch(pending, retryCount, number, tries).last.Simulated?
    decreases |tries|
  {
    if tries != [] && !tries[0].Unplaced? && pending && !tries[0].Unsent? && !Delivers(tries[0], number, retryCount) {
      var charged := retryCount + Charge(tries[0], number, retryCount);
      RetriesNeverHeard(charged < DEFAULT_MAX_RETRIES, charged, number, tries[1..]);
    }
  }

  /** A chunk that a remote worker delivers was delivered on the first try. */
  lemma RemoteDeliversFirst(retryCount: nat, tries: seq<Try>)
    ensures var r := Dispatch(true, retryCount, retryCount + 1, tries);
            r.Delivered? && r.last.Answered? ==> tries != [] && r.last == tries[0] && tries[0].isValid
  {
    if tries != [] && !tries[0].Unplaced? && !tries[0].Unsent? && !Delivers(tries[0], retryCount + 1, retryCount) {
      var charged := retryCount + Charge(tries[0], retryCount + 1, retryCount);
      RetriesNeverHeard(charged < DEFAULT_MAX_RETRIES, charged, retryCount + 1, tries[1..]);
    }
  }

  /** What is delivered is a valid result, of a remote worker or of the simulation worker. */
  lemma {:induction false} DeliveredIsHeard(pending: bool, retryCount: nat, number: int, tries: seq<Try>)
    ensures var r := Dispatch(pending, retryCount, number, tries);
            r.Delivered? ==> (r.last.Answered? || r.last.Simulated?) && r.last.isValid
    decreases |tries|
  {
    if tries != [] && !tries[0].Unplaced? && pending && !tries[0].Unsent? && !Delivers(tries[0], number, retryCount) {
      var charged := retryCount + Charge(tries[0], number, retryCount);
      DeliveredIsHeard(charged < DEFAULT_MAX_RETRIES, charged, number, tries[1..]);
    }
  }

  predicate SimulatedWell(t: Try) {
    t.Simulated? && t.isValid
  }

  /** A try charged only once: no answer, or on a retry one that is not heard. */
  predicate FailsOnce(t: Try, first: bool) {
    t.Silent? || (t.Answered? && !first)
  }

  predicate Retried(t: Try) {
    !t.Unplaced? && !t.Unsent?
  }

  /**
   * A new chunk is delivered exactly if the first try yields a valid result, or the simulation worker
   * delivers on the second try, or it does on the third and each of the first two was charged only once.
   */
  lemma DeliveredIff(tries: seq<Try>)
    requires |tries| == MAX_TRIES
    ensures Dispatch(true, 0, 1, tries).Delivered? <==>
            || Delivers(tries[0], 1, 0)
            || (Retried(tries[0]) && SimulatedWell(tries[1]))
            || (FailsOnce(tries[0], true) && FailsOnce(tries[1], false) && SimulatedWell(tries[2]))
  {
    var second := tries[1..];
    assert second[0] == tries[1] && second[1..] == [tries[2]];
    if Retried(tries[0]) && !Delivers(tries[0], 1, 0) {
      var a := Charge(tries[0], 1, 0);
      assert Dispatch(true, 0, 1, tries) == Dispatch(true, a, 1, second);
      if Retried(tries[1]) && !Delivers(tries[1], 1, a) {
        var b := a + Charge(tries[1], 1, a);
        assert Dispatch(true, a, 1, second) == Dispatch(b < DEFAULT_MAX_RETRIES, b, 1, [tries[2]]);
        LastTry(b < DEFAULT_MAX_RETRIES, b, 1, tries[2]);
      }
    }
  }

  lemma LastTry(pending: bool, retryCount: nat, number: int, t: Try)
    ensures Dispatch(pending, retryCount, number, [t]).Delivered? <==> pending && Delivers(t, number, retryCount)
  {
    assert [t][1..] == [];
  }

  // ---------------------------------------------------------------- the loop

  /** The row the tries start from. */
  function StartRow(tasks: Table, id: string, now: int): Task {
    if id in tasks then tasks[id] else NewTask(id, [], "memory", now)
  }

  ghost predicate OthersKept(before: Table, after: Table, id: string) {
    forall other | other != id ::
      (other in after <==> other in before) && (other in before ==> after[other] == before[other])
  }

  /** The task has just been handed to the try's worker. */
  predicate HandedOut(tasks: Table, id: string, t: Try) {
    Retried(t) && id in tasks && tasks[id].status == ASSIGNED && tasks[id].assignedWorkerId == Some(t.workerId)
  }

  function Failed(tasks: Table, id: string, t: Try, reason: string, now: int): Table
    requires Retried(t) && id in tasks
  {
    tasks[id := ReclaimedFrom(tasks[id], Some(t.workerId), reason, now, DEFAULT_MAX_RETRIES)]
  }

  /** The table after the result of a try, if there is one. */
  function AfterAnswer(tasks: Table, id: string, number: int, t: Try, now: int): Table
    requires Retried(t) && id in tasks
  {
    if t.Answered? || t.Simulated? then AfterResult(tasks, id, t.workerId, NumberOn(t, number), t.isValid, "", now)
    else if t.SimulationFailed? then Failed(tasks, id, t, "SIMULATION_ERROR", now)
    else tasks
  }

  /** The table after a try. */
  function AfterTry(tasks: Table, id: string, number: int, t: Try, now: int): Table
    requires HandedOut(tasks, id, t)
  {
    var answered := AfterAnswer(tasks, id, number, t, now);
    if Delivers(t, number, tasks[id].retryCount) then answered else Failed(answered, id, t, "EXECUTION_FAILED", now)
  }

  /** The fences let the result through exactly if the try is heard. */
  lemma JudgeOfTry(tasks: Table, id: string, number: int, t: Try)
    requires HandedOut(tasks, id, t) && (t.Answered? || t.Simulated?)
    ensures PassesFences(tasks, id, t.workerId, NumberOn(t, number)) <==> Heard(t, number, tasks[id].retryCount)
    ensures Judge(tasks, id, t.workerId, NumberOn(t, number), t.isValid) == Completes <==>
            Delivers(t, number, tasks[id].retryCount)
  {
  }

  /** A row that nobody holds: back in the queue, or failed with its retries used up. */
  predicate Freed(t: Task) {
    && t.status == (if t.retryCount < 3 then PENDING else FAILED)
    && t.assignedWorkerId == None && t.leaseExpiresAtMs == None
  }

  /** A delivered try completes the task; any other one is charged to it, and frees it. */
  lemma TryEffects(tasks: Table, id: string, number: int, t: Try, now: int)
    requires HandedOut(tasks, id, t)
    ensures var before, after := tasks[id], AfterTry(tasks, id, number, t, now);
            && id in after && OthersKept(tasks, after, id) && after[id].dependencies == before.dependencies
            && if Delivers(t, number, before.retryCount) then
                 && after[id].status == COMPLETED && Logged(before, after[id], [])
                 && after[id].assignedWorkerId == Some(t.workerId) && after[id].leaseExpiresAtMs == None
               else
                 Logged(before, after[id], NotesOf(t, number, before.retryCount)) && Freed(after[id])
  {
    if Delivers(t, number, tasks[id].retryCount) {
      JudgeOfTry(tasks, id, number, t);
    } else {
      FailureEffects(tasks, id, number, t, now);
    }
  }

  /** The answer of a try that does not deliver: charged if it is heard, or if there is a failure instead. */
  lemma AnswerEffects(tasks: Table, id: string, number: int, t: Try, now: int)
    requires HandedOut(tasks, id, t) && !Delivers(t, number, tasks[id].retryCount)
    ensures var before, after := tasks[id], AfterAnswer(tasks, id, number, t, now);
            && id in after && OthersKept(tasks, after, id) && after[id].dependencies == before.dependencies
            && var notes := NotesOf(t, number, before.retryCount);
               Logged(before, after[id], notes[..|notes| - 1])
  {
    if t.Answered? || t.Simulated? {
      JudgeOfTry(tasks, id, number, t);
    }
  }

  lemma FailureEffects(tasks: Table, id: string, number: int, t: Try, now: int)
    requires HandedOut(tasks, id, t) && !Delivers(t, number, tasks[id].retryCount)
    ensures var before, after := tasks[id], AfterTry(tasks, id, number, t, now);
            && id in after && OthersKept(tasks, after, id) && after[id].dependencies == before.dependencies
            && Logged(before, after[id], NotesOf(t, number, before.retryCount)) && Freed(after[id])
  {
    AnswerEffects(tasks, id, number, t, now);
    var notes := NotesOf(t, number, tasks[id].retryCount);
    var answered, after := AfterAnswer(tasks, id, number, t, now), AfterTry(tasks, id, number, t, now);
    assert notes == notes[..|notes| - 1] + [Note(t.workerId, "EXECUTION_FAILED")];
    assert Logged(answered[id], after[id], [Note(t.workerId, "EXECUTION_FAILED")]);
    LoggedJoins(tasks[id], answered[id], after[id], notes[..|notes| - 1], [Note(t.workerId, "EXECUTION_FAILED")]);
  }

  /** One try after the task was assigned: the result, and the failure recorded unless it was delivered. */
  method PerformTry(p: Pipeline, id: string, number: int, t: Try, now: int) returns (delivered: bool)
    requires p.store.Valid() && HandedOut(p.store.tasks, id, t)
    modifies p, p.store
    ensures p.store.Valid() && p.store.tasks == AfterTry(old(p.store.tasks), id, number, t, now)
    ensures delivered <==> Delivers(t, number, old(p.store.tasks[id].retryCount))
  {
    p.OnTaskFinished(id);
    delivered := false;
    if t.Answered? || t.Simulated? {
      JudgeOfTry(p.store.tasks, id, number, t);
      var outcome, notified := p.HandleTaskResult(id, t.workerId, NumberOn(t, number), t.isValid, "", now);
      delivered := notified && outcome == Completes;
    } else if t.SimulationFailed? {
      var _ := p.store.RecordTaskFailure(id, t.workerId, "SIMULATION_ERROR", now, DEFAULT_MAX_RETRIES);
    }
    if !delivered {
      var _ := p.store.RecordTaskFailure(id, t.workerId, "EXECUTION_FAILED", now, DEFAULT_MAX_RETRIES);
    }
  }

  /** What a step of the loop comes to. */
  datatype Progress = GivesUp | Succeeds | GoesOn

  /** A step of the loop, given the row and the tries to come, leads on to the same outcome. */
  ghost predicate StepSound(before: Task, after: Task, number: int, tries: seq<Try>, progress: Progress)
    requires tries != []
  {
    var pending, retries := before.status == PENDING, before.retryCount;
    var whole, notes := Dispatch(pending, retries, number, tries), Notes(pending, retries, number, tries);
    match progress
    case GivesUp => whole == Rejected && Logged(before, after, notes) && (after == before || Freed(after))
    case Succeeds =>
      && whole == Delivered(tries[0]) && Logged(before, after, notes)
      && after.status == COMPLETED && after.leaseExpiresAtMs == None
    case GoesOn =>
      && whole == Dispatch(after.status == PENDING, after.retryCount, number, tries[1..])
      && Retried(tries[0]) && Logged(before, after, NotesOf(tries[0], number, retries))
      && notes == NotesOf(tries[0], number, retries)
                  + Notes(after.status == PENDING, after.retryCount, number, tries[1..])
      && after.dependencies == before.dependencies && Freed(after)
  }

  function Leased(tasks: Table, id: string, t: Try, now: int, leaseMs: int): Table
    requires !t.Unplaced? && id in tasks
  {
    tasks[id := AssignedTo(tasks[id], t.workerId, now, leaseMs)]
  }

  lemma NoTrySound(row: Task, number: int, tries: seq<Try>)
    requires tries != [] && (tries[0].Unplaced? || row.status != PENDING)
    ensures StepSound(row, row, number, tries, GivesUp)
  {
  }

  lemma UnsentSound(row: Task, number: int, tries: seq<Try>, now: int, leaseMs: int)
    requires tries != [] && tries[0].Unsent? && row.status == PENDING
    ensures var w := tries[0].workerId;
            var charged := ReclaimedFrom(AssignedTo(row, w, now, leaseMs), Some(w), "TRANSPORT_SEND_FAILED", now,
                                         DEFAULT_MAX_RETRIES);
            StepSound(row, charged, number, tries, GivesUp)
  {
  }

  lemma TrySound(tasks: Table, id: string, number: int, tries: seq<Try>, now: int, leaseMs: int)
    requires tries != [] && Retried(tries[0]) && id in tasks && tasks[id].status == PENDING
    ensures var t, handed := tries[0], Leased(tasks, id, tries[0], now, leaseMs);
            HandedOut(handed, id, t) &&
            var after := AfterTry(handed, id, number, t, now);
            && id in after && OthersKept(tasks, after, id)
            && StepSound(tasks[id], after[id], number, tries,
                         if Delivers(t, number, tasks[id].retryCount) then Succeeds else GoesOn)
  {
    TryEffects(Leased(tasks, id, tries[0], now, leaseMs), id, number, tries[0], now);
  }

  /** Places, assigns, sends and awaits one try. */
  method Step(p: Pipeline, id: string, number: int, tries: seq<Try>, now: int, leaseMs: int)
    returns (progress: Progress)
    requires p.store.Valid() && id in p.store.tasks && p.store.tasks[id].dependencies == [] && tries != []
    modifies p, p.store
    ensures p.store.Valid() && id in p.store.tasks && OthersKept(old(p.store.tasks), p.store.tasks, id)
    ensures StepSound(old(p.store.tasks[id]), p.store.tasks[id], number, tries, progress)
  {
    var t := tries[0];
    if t.Unplaced? || p.store.tasks[id].status != PENDING {
      NoTrySound(p.store.tasks[id], number, tries);
    }
    if t.Unplaced? {
      return GivesUp;
    }
    ghost var row := p.store.tasks[id];
    var leased := p.store.AssignTask(id, t.workerId, now, leaseMs);
    if leased.Err? {
      return GivesUp;
    }
    if t.Unsent? {
      UnsentSound(row, number, tries, now, leaseMs);
      var _ := p.store.RecordTaskFailure(id, t.workerId, "TRANSPORT_SEND_FAILED", now, DEFAULT_MAX_RETRIES);
      return GivesUp;
    }
    TrySound(old(p.store.tasks), id, number, tries, now, leaseMs);
    var delivered := PerformTry(p, id, number, t, now);
    progress := if delivered then Succeeds else GoesOn;
  }

  /** The task's row, created if it is new. */
  method ReadRow(p: Pipeline, id: string, now: int) returns (task: Task)
    requires p.store.Valid()
    modifies p.store
    ensures p.store.Valid() && OthersKept(old(p.store.tasks), p.store.tasks, id)
    ensures id in p.store.tasks && task == p.store.tasks[id] && task == old(StartRow(p.store.tasks, id, now))
  {
    if id !in p.store.tasks {
      NoParentsNoCycle(AdjacencyOf(p.store.tasks)[id := []], id);
      var _ := p.store.CreateTask(id, [], "memory", now);
    }
    task := p.store.tasks[id];
  }

  /**
   * The outcome of a dispatch and the row it leaves: the failures it charged on record, complete if the
   * chunk was delivered, and otherwise free, or as it was if no try was made.
   */
  ghost predicate Concluded(row: Task, after: Task, tries: seq<Try>, r: Delivery) {
    && r == Dispatch(row.status == PENDING, row.retryCount, row.retryCount + 1, tries)
    && Logged(row, after, Notes(row.status == PENDING, row.retryCount, row.retryCount + 1, tries))
    && (r.Delivered? ==> after.status == COMPLETED && after.leaseExpiresAtMs == None)
    && (r.Rejected? ==> after == row || Freed(after))
  }

  /**
   * The whole dispatch of a chunk: its outcome and the row it leaves follow from the row it finds and the
   * tries; no other task is touched.
   */
  method DispatchWithRetry(p: Pipeline, id: string, tries: seq<Try>, now: int, leaseMs: int) returns (r: Delivery)
    requires p.store.Valid() && |tries| == MAX_TRIES
    requires id in p.store.tasks ==> p.store.tasks[id].dependencies == []
    modifies p, p.store
    ensures p.store.Valid() && OthersKept(old(p.store.tasks), p.store.tasks, id) && id in p.store.tasks
    ensures Concluded(old(StartRow(p.store.tasks, id, now)), p.store.tasks[id], tries, r)
  {
    var task := ReadRow(p, id, now);
    ghost var number, noted := task.retryCount + 1, [];
    assert tries[0..] == tries && [] + Notes(task.status == PENDING, task.retryCount, number, tries) ==
                                  Notes(task.status == PENDING, task.retryCount, number, tries);
    for attempt := 0 to MAX_TRIES
      invariant p.store.Valid() && OthersKept(old(p.store.tasks), p.store.tasks, id) && id in p.store.tasks
      invariant p.store.tasks[id].dependencies == []
      invariant SameEnd(task, tries, p.store.tasks[id], number, tries[attempt..], noted)
    {
      assert tries[attempt..][0] == tries[attempt] && tries[attempt..][1..] == tries[attempt + 1..];
      ghost var before := p.store.tasks[id];
      var progress := Step(p, id, task.retryCount + 1, tries[attempt..], now, leaseMs);
      SameEndAfter(task, tries, before, p.store.tasks[id], number, tries[attempt..], noted, progress);
      match progress {
        case GivesUp => return Rejected;
        case Succeeds => return Delivered(tries[attempt]);
        case GoesOn => noted := noted + NotesOf(tries[attempt], number, before.retryCount);
      }
    }
    assert tries[MAX_TRIES..] == [];
    NoTriesLeft(task, tries, p.store.tasks[id], noted);
    r := Rejected;
  }

  /** From here on the dispatch ends as it would have from the start, and what is on record so far leads up to that. */
  ghost predicate SameEnd(start: Task, tries: seq<Try>, row: Task, number: int, left: seq<Try>, noted: seq<Note>) {
    && Dispatch(start.status == PENDING, start.retryCount, number, tries)
       == Dispatch(row.status == PENDING, row.retryCount, number, left)
    && Notes(start.status == PENDING, start.retryCount, number, tries)
       == noted + Notes(row.status == PENDING, row.retryCount, number, left)
    && Logged(start, row, noted) && (row == start || Freed(row))
  }

  lemma NoTriesLeft(start: Task, tries: seq<Try>, row: Task, noted: seq<Note>)
    requires SameEnd(start, tries, row, start.retryCount + 1, [], noted)
    ensures Concluded(start, row, tries, Rejected)
  {
    assert noted + [] == noted;
  }

  lemma SameEndAfter(start: Task, tries: seq<Try>, before: Task, after: Task, number: int, left: seq<Try>,
                     noted: seq<Note>, progress: Progress)
    requires number == start.retryCount + 1 && left != [] && SameEnd(start, tries, before, number, left, noted)
    requires StepSound(before, after, number, left, progress)
    ensures progress.GoesOn? ==>
              SameEnd(start, tries, after, number, left[1..], noted + NotesOf(left[0], number, before.retryCount))
    ensures progress.GivesUp? ==> Concluded(start, after, tries, Rejected)
    ensures progress.Succeeds? ==> Concluded(start, after, tries, Delivered(left[0]))
  {
    if progress.GoesOn? {
      var more := NotesOf(left[0], number, before.retryCount);
      var rest := Notes(after.status == PENDING, after.retryCount, number, left[1..]);
      LoggedJoins(start, before, after, noted, more);
      assert noted + (more + rest) == noted + more + rest;
    } else {
      LoggedJoins(start, before, after, noted, Notes(before.status == PENDING, before.retryCount, number, left));
    }
  }
}
