/** What a worker's report does to its task, and how a cancellation reaches a task that is executing. */
module TaskPoolCancel {
  import opened TaskPoolModel
  import opened TaskPoolRuns

  /** What one run of a task's exec comes to. */
  datatype Outcome = Finished | Unfinished | Threw

  /** Whether the worker reports its task as complete: it ran to its end, or failed, or has been told to stop. */
  predicate IsComplete(outcome: Outcome, canceling: bool) {
    outcome != Unfinished || canceling
  }

  /** What the worker reports after a run of its task. */
  function Reported(id: Id, outcome: Outcome, canceling: bool, waitFor: Id): Event {
    if IsComplete(outcome, canceling) then ReportComplete(id) else ReportPaused(id, waitFor)
  }

  // ---- Who is executing, and who has been told to stop ----

  predicate ReportsOn(e: Event, id: Id) {
    (e.ReportComplete? || e.ReportPaused?) && e.id == id
  }

  /** Nothing has changed about who is executing, who has been told to stop, and the suspension. */
  predicate SameRunning(p: Pool, q: Pool) {
    q.executing == p.executing && q.canceling == p.canceling && q.suspended == p.suspended
  }

  lemma {:induction false} ReleaseKeepsRunning(p: Pool, deps: seq<Id>)
    ensures SameRunning(p, Release(p, deps))
    decreases |deps|
  {
    if deps != [] {
      ReleaseKeepsRunning(if deps[0] in p.delaying then MakeReady(p.(delaying := p.delaying - {deps[0]}), deps[0]) else p, deps[1..]);
    }
  }

  lemma CompleteKeepsRunning(p: Pool, id: Id)
    ensures SameRunning(p.(executing := p.executing - {id}), Complete(p, id))
  {
    ReleaseKeepsRunning(p.(executing := p.executing - {id}), Dependents(p, id));
  }

  lemma OthersComplete(p: Pool, id: Id, q: Pool)
    requires id !in p.executing
    requires q == p || SameRunning(Complete(p, id), q)
    ensures SameRunning(p, q)
  {
    CompleteKeepsRunning(p, id);
    assert p.executing - {id} == p.executing;
  }

  lemma CancelKeepsRunning(p: Pool, id: Id)
    requires id !in p.executing
    ensures SameRunning(p, Cancel(p, id))
  {
    var p1 := if id in p.delaying then var q := Complete(p, id); q.(delaying := q.delaying - {id}) else p;
    OthersComplete(p, id, p1);
    var p2 := if id in p1.tasksSearch then var q := Complete(p1, id); q.(tasksSearch := q.tasksSearch - {id}) else p1;
    OthersComplete(p1, id, p2);
    OthersComplete(p2, id, Cancel(p, id));
  }

  /** Only its worker's report ends the execution of a task, and only a cancellation while it executes tells it to stop. */
  lemma StepWhileRunning(p: Pool, e: Event, id: Id)
    ensures id in p.executing && !ReportsOn(e, id) ==> id in Step(p, e).executing
    ensures id in Step(p, e).canceling <==> id in p.canceling || (e == CancelTask(id) && id in p.executing)
  {
    match e {
      case ReportComplete(other) => CompleteKeepsRunning(p, other);
      case CancelTask(other) =>
        if other !in p.executing {
          CancelKeepsRunning(p, other);
        }
      case _ =>
    }
  }

  lemma {:induction false} RunsOn(p: Pool, events: seq<Event>, id: Id)
    requires id in p.executing && forall k :: 0 <= k < |events| ==> !ReportsOn(events[k], id)
    ensures id in Run(p, events).executing
    decreases |events|
  {
    if events != [] {
      StepWhileRunning(p, events[0], id);
      RunsOn(Step(p, events[0]), events[1..], id);
    }
  }

  /** At some point of the run the task was executing and was cancelled. */
  predicate ToldToStop(p: Pool, events: seq<Event>, id: Id)
    decreases |events|
  {
    events != []
    && ((events[0] == CancelTask(id) && id in p.executing) || ToldToStop(Step(p, events[0]), events[1..], id))
  }

  lemma {:induction false} ToldExactly(p: Pool, events: seq<Event>, id: Id)
    ensures id in Run(p, events).canceling <==> id in p.canceling || ToldToStop(p, events, id)
    decreases |events|
  {
    if events != [] {
      StepWhileRunning(p, events[0], id);
      ToldExactly(Step(p, events[0]), events[1..], id);
    }
  }

  // ---- What a report does ----

  /**
   In every run from the empty pool: a report takes its task out of the pool if its exec finished or threw, or
   if the task was ever cancelled while it was executing; else the task stays in the pool.
   */
  lemma LeavesExactly(events: seq<Event>, id: Id, outcome: Outcome, waitFor: Id)
    requires RunOk(EMPTY, events) && id in Run(EMPTY, events).executing
    ensures var q := Run(EMPTY, events);
      id !in Live(Step(q, Reported(id, outcome, id in q.canceling, waitFor)))
      <==> outcome.Finished? || outcome.Threw? || ToldToStop(EMPTY, events, id)
  {
    var q := Run(EMPTY, events);
    EveryRunKeepsInv(events);
    StepKeepsInv(q, Reported(id, outcome, id in q.canceling, waitFor));
    ToldExactly(EMPTY, events, id);
  }

  /**
   A cancellation reaches a task that is executing: whatever happens until its worker reports, and whatever
   its exec came to, it leaves the pool with that report, and stays away.
   */
  lemma CancelledTaskLeaves(p: Pool, id: Id, events: seq<Event>, outcome: Outcome, waitFor: Id, later: seq<Event>)
    requires Inv(p) && id in p.executing
    requires RunOk(Step(p, CancelTask(id)), events) && forall k :: 0 <= k < |events| ==> !ReportsOn(events[k], id)
    requires var q := Run(Step(p, CancelTask(id)), events);
      RunOk(Step(q, Reported(id, outcome, id in q.canceling, waitFor)), later)
    ensures var q := Run(Step(p, CancelTask(id)), events);
      && id in q.executing
      && Gone(Run(Step(q, Reported(id, outcome, id in q.canceling, waitFor)), later), id)
  {
    var c := Step(p, CancelTask(id));
    var q := Run(c, events);
    StepWhileRunning(p, CancelTask(id), id);
    StepKeepsInv(p, CancelTask(id));
    RunKeepsInv(c, events);
    RunsOn(c, events, id);
    ToldExactly(c, events, id);
    var e := Reported(id, outcome, id in q.canceling, waitFor);
    StepKeepsInv(q, e);
    IdsGrow(q, e);
    GoneStaysGone(Step(q, e), later, id);
  }

  /** A report of a task that is neither finished nor told to stop makes it wait for the task that it named, if that is another one in the pool. */
  lemma UnfinishedPauses(p: Pool, id: Id, waitFor: Id)
    requires Inv(p) && id in p.executing && id !in p.canceling
    ensures var q := Step(p, Reported(id, Unfinished, id in p.canceling, waitFor));
      if waitFor in Live(p) && waitFor != id then WaitsOn(q, id, waitFor) else q.tasks == p.tasks + [id]
  {
    FindsExactlyTheLive(p, waitFor);
    if waitFor in Live(p) && waitFor != id {
      PauseWaits(p, id, waitFor);
    }
  }

  // ---- Suspension ----

  /** Whether the latest call of suspend or resume was one of suspend. */
  predicate SuspendedAfter(was: bool, events: seq<Event>)
    decreases |events|
  {
    if events == [] then was
    else SuspendedAfter(if events[0].Suspend? then true else if events[0].Resume? then false else was, events[1..])
  }

  lemma {:induction false} SuspensionFollows(p: Pool, events: seq<Event>)
    ensures Run(p, events).suspended <==> SuspendedAfter(p.suspended, events)
    decreases |events|
  {
    if events != [] {
      match events[0] {
        case ReportComplete(id) => CompleteKeepsRunning(p, id);
        case CancelTask(id) =>
          if id !in p.executing {
            CancelKeepsRunning(p, id);
          }
        case _ =>
      }
      SuspensionFollows(Step(p, events[0]), events[1..]);
    }
  }

  /** In every run: a task that is ready is handed out to whoever asks, unless the latest of suspend and resume was suspend. */
  lemma HandsOutExactly(events: seq<Event>)
    requires RunOk(EMPTY, events)
    ensures var p := Run(EMPTY, events);
      if p.tasks == [] || SuspendedAfter(false, events) then Handed(p) == 0 && Step(p, GetNextTask) == p
      else 1 <= Handed(p) == p.tasks[0] && Step(p, GetNextTask).executing == p.executing + {p.tasks[0]}
  {
    EveryRunKeepsInv(events);
    SuspensionFollows(EMPTY, events);
    var p := Run(EMPTY, events);
    if p.tasks != [] {
      assert p.tasks[0] in Elems(p.tasks);
    }
  }
}
