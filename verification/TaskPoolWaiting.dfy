/** Waiting for tasks: the completion signal of one task, and the waiter for a list of tasks. */
module TaskPoolWaiting {
  import opened TaskPoolModel
  import opened TaskPoolRuns

  // ---- One task ----

  /** A task's completion has been signalled exactly when the task has left the pool. */
  ghost predicate SignalsMatch(p: Pool) {
    forall id :: id in p.completed <==> Gone(p, id)
  }

  lemma SignalsMatchAfter(p: Pool, e: Event)
    requires Inv(p) && Enabled(p, e) && SignalsMatch(p)
    ensures SignalsMatch(Step(p, e))
  {
    StepKeepsInv(p, e);
    if Leaving(p, e) != {} {
      assert Leaving(p, e) == {e.id};
      assert e.id in Live(p);
      var moved := WhatMoves(p, e, e.id);
    }
  }

  lemma {:induction false} SignalsMatchInRuns(p: Pool, events: seq<Event>)
    requires Inv(p) && RunOk(p, events) && SignalsMatch(p)
    ensures SignalsMatch(Run(p, events))
    decreases |events|
  {
    if events != [] {
      SignalsMatchAfter(p, events[0]);
      StepKeepsInv(p, events[0]);
      SignalsMatchInRuns(Step(p, events[0]), events[1..]);
    }
  }

  /** In every run from the empty pool, completion is signalled for exactly the tasks that have left. */
  lemma SignalledExactlyWhenGone(events: seq<Event>, id: Id)
    requires RunOk(EMPTY, events)
    ensures id in Run(EMPTY, events).completed <==> Gone(Run(EMPTY, events), id)
  {
    EmptyInv();
    SignalsMatchInRuns(EMPTY, events);
  }

  /** No wake-up is lost: the step that makes a task leave puts whatever waited for it on the ready deque. */
  lemma WokenWhenOwnerLeaves(p: Pool, e: Event, t: Id, a: Id)
    requires Inv(p) && Enabled(p, e) && Leaving(p, e) == {a} && WaitsOn(p, t, a)
    ensures t in Step(p, e).tasks && NoDuplicates(Step(p, e).tasks)
  {
    StepKeepsInv(p, e);
    WaitersAreIssued(p, t, a);
    var i: nat :| Slot(p, a, i, t);
    var moved := WhatMoves(p, e, a);
    assert t in Elems(moved);
  }

  // ---- The waiter for a list of tasks ----

  /** While the waiter goes through its list, the pool takes other steps between any two of its checks. */
  datatype Act = PoolStep(event: Event) | CheckFirst

  function Check(p: Pool, list: seq<Id>): seq<Id> {
    if list != [] && !Exists(p, list[0]) then list[1..] else list
  }

  predicate WatchOk(p: Pool, acts: seq<Act>)
    decreases |acts|
  {
    acts == [] || match acts[0]
      case PoolStep(e) => Enabled(p, e) && WatchOk(Step(p, e), acts[1..])
      case CheckFirst => WatchOk(p, acts[1..])
  }

  function Watch(p: Pool, list: seq<Id>, acts: seq<Act>): (Pool, seq<Id>)
    decreases |acts|
  {
    if acts == [] then (p, list)
    else match acts[0]
      case PoolStep(e) => Watch(Step(p, e), list, acts[1..])
      case CheckFirst => Watch(p, Check(p, list), acts[1..])
  }

  ghost predicate IdsStay(p: Pool, q: Pool) {
    Inv(q) && p.nextId <= q.nextId && forall id :: Gone(p, id) ==> Gone(q, id)
  }

  lemma StepIdsStay(p: Pool, e: Event)
    requires Inv(p) && Enabled(p, e)
    ensures IdsStay(p, Step(p, e))
  {
    StepKeepsInv(p, e);
    IdsGrow(p, e);
  }

  /** The waiter drops ids from the front only, and what it has dropped stays gone. */
  lemma {:induction false} DroppedAreGone(p: Pool, list: seq<Id>, acts: seq<Act>) returns (n: nat)
    requires Inv(p) && WatchOk(p, acts)
    ensures n <= |list| && Watch(p, list, acts).1 == list[n..]
    ensures IdsStay(p, Watch(p, list, acts).0)
    ensures forall i :: 0 <= i < n && 1 <= list[i] < p.nextId ==> Gone(Watch(p, list, acts).0, list[i])
    decreases |acts|
  {
    if acts == [] {
      n := 0;
    } else {
      match acts[0] {
        case PoolStep(e) =>
          StepIdsStay(p, e);
          n := DroppedAreGone(Step(p, e), list, acts[1..]);
        case CheckFirst =>
          var rest := Check(p, list);
          n := DroppedAreGone(p, rest, acts[1..]);
          if rest != list {
            FindsExactlyTheLive(p, list[0]);
            assert rest[n..] == list[n + 1..];
            n := n + 1;
            assert forall i :: 1 <= i < n ==> list[i] == rest[i - 1];
          }
      }
    }
  }

  /** When the waiter's list has become empty, every task on it that had been added when the waiter started has left. */
  lemma WaiterIsRight(p: Pool, list: seq<Id>, acts: seq<Act>, id: Id)
    requires Inv(p) && WatchOk(p, acts) && Watch(p, list, acts).1 == []
    requires id in list && 1 <= id < p.nextId
    ensures Gone(Watch(p, list, acts).0, id)
  {
    var n := DroppedAreGone(p, list, acts);
    var i :| 0 <= i < |list| && list[i] == id;
  }

  // ---- One call of exec, with nothing in between ----

  function ExecLeaves(p: Pool, list: seq<Id>): (rest: seq<Id>)
    ensures rest == [] || Exists(p, rest[0])
    decreases |list|
  {
    if list == [] || Exists(p, list[0]) then list else ExecLeaves(p, list[1..])
  }

  function Checks(n: nat): (acts: seq<Act>)
    ensures |acts| == n
  {
    if n == 0 then [] else [CheckFirst] + Checks(n - 1)
  }

  /** It is a series of such checks; so what is proved about the waiter holds of it. */
  lemma {:induction false} ExecIsChecks(p: Pool, list: seq<Id>)
    ensures Watch(p, list, Checks(|list|)) == (p, ExecLeaves(p, list)) && WatchOk(p, Checks(|list|))
    decreases |list|
  {
    if list != [] {
      assert Checks(|list|)[1..] == Checks(|list| - 1);
      if Exists(p, list[0]) {
        NothingDropped(p, list, |list|);
      } else {
        ExecIsChecks(p, list[1..]);
      }
    }
  }

  lemma {:induction false} NothingDropped(p: Pool, list: seq<Id>, n: nat)
    requires list != [] && Exists(p, list[0])
    ensures Watch(p, list, Checks(n)) == (p, list) && WatchOk(p, Checks(n))
    decreases n
  {
    if n > 0 {
      assert Checks(n)[1..] == Checks(n - 1);
      NothingDropped(p, list, n - 1);
    }
  }

  // ---- The waiter as a task of the pool ----

  /** What it asks the pool to wait for. */
  function Head(list: seq<Id>): Id {
    if list == [] then 0 else list[0]
  }

  /** Where a pause leaves the waiter: waiting for the first listed task if that is another one in the pool, else ready. */
  lemma WaiterPauses(p: Pool, waiter: Id, list: seq<Id>)
    requires Inv(p) && waiter in p.executing
    ensures var q, head := Pause(p, waiter, Head(list)), Head(list);
      if head in Live(p) && head != waiter then WaitsOn(q, waiter, head)
      else q.tasks == p.tasks + [waiter]
  {
    var head := Head(list);
    FindsExactlyTheLive(p, head);
    assert head in p.dependents <==> 1 <= head < p.nextId;
    if head in Live(p) && head != waiter {
      PauseWaits(p, waiter, head);
    }
  }

  /** So once exec has said that there is something to wait for, the waiter is not run again before that has left the pool. */
  lemma WaiterIsNotRunBefore(p: Pool, waiter: Id, list: seq<Id>, events: seq<Event>)
    requires Inv(p) && waiter in p.executing && ExecLeaves(p, list) != [] && Head(ExecLeaves(p, list)) != waiter
    requires RunOk(Pause(p, waiter, Head(ExecLeaves(p, list))), events)
    ensures var head, q := Head(ExecLeaves(p, list)), Run(Pause(p, waiter, Head(ExecLeaves(p, list))), events);
      head in Live(q) ==> Handed(q) != waiter && waiter !in q.executing
  {
    var head := Head(ExecLeaves(p, list));
    FindsExactlyTheLive(p, head);
    PauseOrder(p, waiter, head, events);
  }

  /** A waiter whose own id comes first on its list never gets past it: it is made ready again each time. */
  lemma OwnIdIsNeverDropped(p: Pool, waiter: Id, list: seq<Id>)
    requires Inv(p) && waiter in p.executing && Head(list) == waiter && list != []
    ensures ExecLeaves(p, list) == list && Pause(p, waiter, Head(list)).tasks == p.tasks + [waiter]
  {
    WaiterPauses(p, waiter, list);
  }
}
