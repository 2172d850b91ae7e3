/** The thread pool over whole runs: index, count, conservation, and the order of dependent tasks. */
module TaskPoolRuns {
  import opened TaskPoolModel

  function Run(p: Pool, events: seq<Event>): Pool
    decreases |events|
  {
    if events == [] then p else Run(Step(p, events[0]), events[1..])
  }

  predicate RunOk(p: Pool, events: seq<Event>)
    decreases |events|
  {
    events == [] || (Enabled(p, events[0]) && RunOk(Step(p, events[0]), events[1..]))
  }

  lemma {:induction false} RunKeepsInv(p: Pool, events: seq<Event>)
    requires Inv(p) && RunOk(p, events)
    ensures Inv(Run(p, events))
    decreases |events|
  {
    if events != [] {
      StepKeepsInv(p, events[0]);
      RunKeepsInv(Step(p, events[0]), events[1..]);
    }
  }

  /** Every state that a run from the empty pool reaches satisfies the invariant. */
  lemma EveryRunKeepsInv(events: seq<Event>)
    requires RunOk(EMPTY, events)
    ensures Inv(Run(EMPTY, events))
  {
    EmptyInv();
    RunKeepsInv(EMPTY, events);
  }

  // ---- Index, count, conservation ----

  /** findTask finds exactly the tasks in the pool, and its linear scan never finds one that the maps miss. */
  lemma FindsExactlyTheLive(p: Pool, id: Id)
    requires Inv(p)
    ensures Exists(p, id) <==> id in Live(p)
    ensures id in p.tasks ==> id in p.tasksSearch
  {
    assert id in p.tasks ==> id in Elems(p.tasks);
  }

  function Count(p: Pool): nat {
    |p.tasks| + |p.delaying| + |p.executing|
  }

  lemma {:induction false} ElemsCount(s: seq<Id>)
    requires NoDuplicates(s)
    ensures |Elems(s)| == |s|
    decreases |s|
  {
    if s != [] {
      var init, last := s[..|s| - 1], s[|s| - 1];
      assert Elems(s) == Elems(init) + {last} by {
        assert s == init + [last];
      }
      assert last !in Elems(init);
      ElemsCount(init);
    }
  }

  lemma CountsTheLive(p: Pool)
    requires Inv(p)
    ensures Count(p) == |Live(p)|
  {
    ElemsCount(p.tasks);
    assert |Elems(p.tasks) + p.executing| == |p.tasks| + |p.executing|;
  }

  function AddedIn(p: Pool, events: seq<Event>): nat
    decreases |events|
  {
    if events == [] then 0 else |Added(p, events[0])| + AddedIn(Step(p, events[0]), events[1..])
  }

  function LeftIn(p: Pool, events: seq<Event>): nat
    decreases |events|
  {
    if events == [] then 0 else |Leaving(p, events[0])| + LeftIn(Step(p, events[0]), events[1..])
  }

  /** The count is what was added minus what left. */
  lemma {:induction false} Conservation(p: Pool, events: seq<Event>)
    requires Inv(p) && RunOk(p, events)
    ensures Count(Run(p, events)) == Count(p) + AddedIn(p, events) - LeftIn(p, events)
    decreases |events|
  {
    if events != [] {
      var e := events[0];
      StepKeepsInv(p, e);
      CountsTheLive(p);
      CountsTheLive(Step(p, e));
      assert |Live(p) + Added(p, e)| == |Live(p)| + |Added(p, e)|;
      assert Leaving(p, e) <= Live(p) + Added(p, e);
      Conservation(Step(p, e), events[1..]);
    }
  }

  predicate Gone(p: Pool, id: Id) {
    1 <= id < p.nextId && id !in Live(p)
  }

  lemma {:induction false} ReleaseKeepsIds(p: Pool, deps: seq<Id>)
    ensures Release(p, deps).nextId == p.nextId && Release(p, deps).dependents == p.dependents
    decreases |deps|
  {
    if deps != [] {
      if deps[0] in p.delaying {
        ReleaseKeepsIds(MakeReady(p.(delaying := p.delaying - {deps[0]}), deps[0]), deps[1..]);
      } else {
        ReleaseKeepsIds(p, deps[1..]);
      }
    }
  }

  lemma DepartureKeepsIds(p: Pool, id: Id)
    ensures Complete(p, id).nextId == p.nextId && Complete(p, id).dependents == p.dependents
  {
    ReleaseKeepsIds(p.(executing := p.executing - {id}), Dependents(p, id));
  }

  lemma CancelKeepsIds(p: Pool, id: Id)
    ensures Cancel(p, id).nextId == p.nextId && Cancel(p, id).dependents == p.dependents
  {
    DepartureKeepsIds(p, id);
    var p1 := if id in p.delaying then var q := Complete(p, id); q.(delaying := q.delaying - {id}) else p;
    DepartureKeepsIds(p1, id);
    var p2 := if id in p1.tasksSearch then var q := Complete(p1, id); q.(tasksSearch := q.tasksSearch - {id}) else p1;
    DepartureKeepsIds(p2, id);
  }

  lemma IdsGrow(p: Pool, e: Event)
    requires Inv(p) && Enabled(p, e)
    ensures p.nextId <= Step(p, e).nextId
  {
    match e {
      case ReportComplete(id) => DepartureKeepsIds(p, id);
      case CancelTask(id) => CancelKeepsIds(p, id);
      case _ =>
    }
  }

  /** A task that has left never comes back, so each leaves once. */
  lemma {:induction false} GoneStaysGone(p: Pool, events: seq<Event>, id: Id)
    requires Inv(p) && RunOk(p, events) && Gone(p, id)
    ensures Gone(Run(p, events), id)
    decreases |events|
  {
    if events != [] {
      StepKeepsInv(p, events[0]);
      IdsGrow(p, events[0]);
      GoneStaysGone(Step(p, events[0]), events[1..], id);
    }
  }

  // ---- Dependency order ----

  ghost predicate WaitsOn(p: Pool, t: Id, a: Id) {
    exists i :: Slot(p, a, i, t)
  }

  /** Lists of live tasks only grow at their ends. */
  lemma ListsOnlyGrow(p: Pool, e: Event, a: Id)
    requires Inv(p) && Enabled(p, e) && a in Live(p)
    ensures Dependents(p, a) <= Dependents(Step(p, e), a)
  {
    match e {
      case ReportComplete(id) => DepartureKeepsIds(p, id);
      case CancelTask(id) => CancelKeepsIds(p, id);
      case _ =>
    }
  }

  lemma WaitPersists(p: Pool, e: Event, t: Id, a: Id)
    requires Inv(p) && Enabled(p, e) && WaitsOn(p, t, a)
    requires a in Live(Step(p, e)) && t in Live(Step(p, e))
    ensures WaitsOn(Step(p, e), t, a)
  {
    var i :| Slot(p, a, i, t);
    ListsOnlyGrow(p, e, a);
    assert Slot(Step(p, e), a, i, t);
  }

  lemma WaitersAreIssued(p: Pool, t: Id, a: Id)
    requires Inv(p) && WaitsOn(p, t, a)
    ensures 1 <= t < p.nextId && 1 <= a < p.nextId && t in p.delaying && t != a
  {
  }

  /** Through any run: while both are in the pool, the waiting task keeps waiting for the same task. */
  lemma {:induction false} WaitPersistsInRuns(p: Pool, events: seq<Event>, t: Id, a: Id)
    requires Inv(p) && RunOk(p, events) && WaitsOn(p, t, a)
    ensures a in Live(Run(p, events)) && t in Live(Run(p, events)) ==> WaitsOn(Run(p, events), t, a)
    decreases |events|
  {
    if events != [] {
      var q := Step(p, events[0]);
      StepKeepsInv(p, events[0]);
      IdsGrow(p, events[0]);
      WaitersAreIssued(p, t, a);
      if a in Live(q) && t in Live(q) {
        WaitPersists(p, events[0], t, a);
        WaitPersistsInRuns(q, events[1..], t, a);
      } else if a in Live(q) {
        GoneStaysGone(q, events[1..], t);
      } else {
        GoneStaysGone(q, events[1..], a);
      }
    }
  }

  lemma WaitingIsNotHanded(p: Pool, t: Id, a: Id)
    requires Inv(p) && WaitsOn(p, t, a)
    ensures t !in p.executing && t !in p.tasks && Handed(p) != t
  {
    WaitersAreIssued(p, t, a);
    assert t in p.tasks ==> t in Elems(p.tasks);
    assert p.tasks != [] ==> p.tasks[0] in p.tasks;
  }

  /** Once t waits for a, t is neither handed out nor executing as long as a is in the pool. */
  lemma NotHandedBefore(p: Pool, events: seq<Event>, t: Id, a: Id)
    requires Inv(p) && RunOk(p, events) && WaitsOn(p, t, a)
    requires a in Live(Run(p, events))
    ensures Handed(Run(p, events)) != t && t !in Run(p, events).executing
  {
    var q := Run(p, events);
    RunKeepsInv(p, events);
    WaitersAreIssued(p, t, a);
    if t in Live(q) {
      WaitPersistsInRuns(p, events, t, a);
      WaitingIsNotHanded(q, t, a);
    } else {
      assert q.tasks != [] ==> q.tasks[0] in Elems(q.tasks);
    }
  }

  lemma AddWaits(p: Pool, after: Id)
    requires Inv(p) && p.nextId < MAX_ID && after in Live(p)
    ensures WaitsOn(Add(p, after), p.nextId, after)
  {
    AddKeepsInv(p, after);
    FindsExactlyTheLive(p, after);
    assert Slot(Add(p, after), after, |Dependents(p, after)|, p.nextId);
  }

  lemma PauseWaits(p: Pool, t: Id, a: Id)
    requires Inv(p) && t in p.executing && a in Live(p) && a != t
    ensures WaitsOn(Pause(p, t, a), t, a)
  {
    PauseKeepsInv(p, t, a);
    assert Exists(p.(executing := p.executing - {t}), a) by {
      assert a in Elems(p.tasks) ==> a in p.tasks;
    }
    assert Slot(Pause(p, t, a), a, |Dependents(p, a)|, t);
  }

  /** A task added after a live task is not started before that task has completed or been cancelled. */
  lemma DependencyOrder(p: Pool, after: Id, events: seq<Event>)
    requires Inv(p) && p.nextId < MAX_ID && after in Live(p)
    requires RunOk(Add(p, after), events)
    ensures after in Live(Run(Add(p, after), events))
      ==> Handed(Run(Add(p, after), events)) != p.nextId && p.nextId !in Run(Add(p, after), events).executing
  {
    AddKeepsInv(p, after);
    AddWaits(p, after);
    if after in Live(Run(Add(p, after), events)) {
      NotHandedBefore(Add(p, after), events, p.nextId, after);
    }
  }

  /** The same for a task that pauses to wait for another live task. */
  lemma PauseOrder(p: Pool, t: Id, a: Id, events: seq<Event>)
    requires Inv(p) && t in p.executing && a in Live(p) && a != t
    requires RunOk(Pause(p, t, a), events)
    ensures a in Live(Run(Pause(p, t, a), events))
      ==> Handed(Run(Pause(p, t, a), events)) != t && t !in Run(Pause(p, t, a), events).executing
  {
    PauseKeepsInv(p, t, a);
    PauseWaits(p, t, a);
    if a in Live(Run(Pause(p, t, a), events)) {
      NotHandedBefore(Pause(p, t, a), events, t, a);
    }
  }
}
