/** The ready deque is served first come, first served. */
module TaskPoolOrder {
  import opened TaskPoolModel
  import opened TaskPoolRuns

  predicate Precedes(s: seq<Id>, t: Id, u: Id) {
    exists i, j :: 0 <= i < j < |s| && s[i] == t && s[j] == u
  }

  /** t is ahead of u, or u is not there at all. */
  predicate Ahead(s: seq<Id>, t: Id, u: Id) {
    t in s && (u in s ==> Precedes(s, t, u))
  }

  lemma AheadOfNewcomers(s: seq<Id>, more: seq<Id>, t: Id, u: Id)
    requires Ahead(s, t, u) && t !in more
    ensures Ahead(s + more, t, u)
  {
    var i :| 0 <= i < |s| && s[i] == t;
    assert (s + more)[i] == t;
    if u in s {
      var k, j :| 0 <= k < j < |s| && s[k] == t && s[j] == u;
      assert (s + more)[k] == t && (s + more)[j] == u;
    } else if u in more {
      var j :| 0 <= j < |more| && more[j] == u;
      assert (s + more)[|s| + j] == u;
    }
  }

  lemma WhereInRest(s: seq<Id>, at: nat, t: Id) returns (k: nat)
    requires at < |s| && t in Rest(s, at)
    ensures k < |s| && k != at && s[k] == t && Rest(s, at)[if k < at then k else k - 1] == t
  {
    var i: nat :| i < |Rest(s, at)| && Rest(s, at)[i] == t;
    k := if i < at then i else i + 1;
  }

  lemma AheadWithoutAnother(s: seq<Id>, at: nat, t: Id, u: Id)
    requires NoDuplicates(s) && Ahead(s, t, u) && at < |s| && t in Rest(s, at)
    ensures Ahead(Rest(s, at), t, u)
  {
    if u in Rest(s, at) {
      assert u in s;
      var k := WhereInRest(s, at, t);
      var l := WhereInRest(s, at, u);
      var i, j :| 0 <= i < j < |s| && s[i] == t && s[j] == u;
      assert i == k && j == l;
    }
  }

  lemma AheadAfterDeparture(p: Pool, q: Pool, id: Id, moved: seq<Id>, t: Id, u: Id)
    requires Inv(p) && Departed(p, q, id, moved) && Ahead(p.tasks, t, u) && t in q.tasks
    ensures Ahead(q.tasks, t, u)
  {
    var kept := Without(p.tasks, id);
    assert t !in moved by {
      assert t in Elems(p.tasks) && (t in moved ==> t in Elems(moved));
    }
    var i := IndexOf(p.tasks, id);
    if i < |p.tasks| {
      AheadWithoutAnother(p.tasks, i, t, u);
    }
    AheadOfNewcomers(kept, moved, t, u);
  }

  lemma AheadAfterGetNext(p: Pool, t: Id, u: Id)
    requires Inv(p) && Ahead(p.tasks, t, u) && t in GetNext(p).tasks
    ensures Ahead(GetNext(p).tasks, t, u)
  {
    if !p.suspended && p.tasks != [] {
      assert Rest(p.tasks, 0) == p.tasks[1..];
      AheadWithoutAnother(p.tasks, 0, t, u);
    }
  }

  lemma NotYetThere(p: Pool, t: Id)
    requires Inv(p) && t in p.tasks
    ensures t !in p.executing && t !in p.delaying && t != p.nextId
  {
    assert t in Elems(p.tasks) && t in Live(p);
  }

  /** Whoever is ahead stays ahead while it is ready; what becomes ready comes behind all that is. */
  lemma StaysAhead(p: Pool, e: Event, t: Id, u: Id)
    requires Inv(p) && Enabled(p, e) && Ahead(p.tasks, t, u) && t in Step(p, e).tasks
    ensures Ahead(Step(p, e).tasks, t, u)
  {
    NotYetThere(p, t);
    if e.GetNextTask? {
      AheadAfterGetNext(p, t, u);
    } else if e.AddTask? {
      AheadOfNewcomers(p.tasks, [p.nextId], t, u);
    } else if e.ReportPaused? {
      AheadOfNewcomers(p.tasks, [e.id], t, u);
    } else if Leaving(p, e) != {} {
      var moved := WhatMoves(p, e, e.id);
      AheadAfterDeparture(p, Step(p, e), e.id, moved, t, u);
    }
  }

  lemma BehindOthers(s: seq<Id>, more: seq<Id>, t: Id, u: Id)
    requires Precedes(more, t, u)
    ensures Precedes(s + more, t, u)
  {
    var i, j :| 0 <= i < j < |more| && more[i] == t && more[j] == u;
    assert (s + more)[|s| + i] == t && (s + more)[|s| + j] == u;
  }

  lemma IndexOfSlot(p: Pool, a: Id, i: nat, t: Id)
    requires Inv(p) && Slot(p, a, i, t)
    ensures IndexOf(Dependents(p, a), t) == i
  {
    assert Slot(p, a, IndexOf(Dependents(p, a), t), t);
  }

  /** Tasks that wait for the same task become ready in the order in which they began to wait. */
  lemma ReleasedInOrder(p: Pool, e: Event, a: Id, i: nat, t: Id, j: nat, u: Id)
    requires Inv(p) && Enabled(p, e) && Leaving(p, e) == {a}
    requires Slot(p, a, i, t) && Slot(p, a, j, u) && i < j
    ensures Precedes(Step(p, e).tasks, t, u)
  {
    var moved := WhatMoves(p, e, a);
    IndexOfSlot(p, a, i, t);
    IndexOfSlot(p, a, j, u);
    assert t in Elems(moved) && u in Elems(moved);
    InOrderPrecedes(moved, Dependents(p, a), t, u);
    BehindOthers(Without(p.tasks, a), moved, t, u);
  }

  lemma InOrderPrecedes(tasks: seq<Id>, list: seq<Id>, t: Id, u: Id)
    requires InListOrder(tasks, list) && t in tasks && u in tasks && IndexOf(list, t) < IndexOf(list, u)
    ensures Precedes(tasks, t, u)
  {
    var k: nat :| k < |tasks| && tasks[k] == t;
    var l: nat :| l < |tasks| && tasks[l] == u;
  }

  /** A new task waits behind the named task if that is in the pool, and is the last of the ready ones otherwise. */
  lemma WhereAddedGoes(p: Pool, after: Id)
    requires Inv(p) && p.nextId < MAX_ID
    ensures var q := Step(p, AddTask(after));
      if after in Live(p) then
        p.nextId in q.delaying && q.tasks == p.tasks && Dependents(q, after) == Dependents(p, after) + [p.nextId]
      else
        q.tasks == p.tasks + [p.nextId]
  {
    FindsExactlyTheLive(p, after);
  }

  /** A paused task likewise, unless it is to wait for itself. */
  lemma WherePausedGoes(p: Pool, id: Id, waitFor: Id)
    requires Inv(p) && id in p.executing
    ensures var q := Step(p, ReportPaused(id, waitFor));
      if waitFor in Live(p) && waitFor != id then
        id in q.delaying && q.tasks == p.tasks && Dependents(q, waitFor) == Dependents(p, waitFor) + [id]
      else
        q.tasks == p.tasks + [id]
  {
    FindsExactlyTheLive(p, waitFor);
  }

  /** The task is on the deque in every state of the run. */
  predicate StaysReady(p: Pool, events: seq<Event>, t: Id)
    decreases |events|
  {
    t in p.tasks && (events == [] || StaysReady(Step(p, events[0]), events[1..], t))
  }

  lemma {:induction false} AheadThroughRun(p: Pool, events: seq<Event>, t: Id, u: Id)
    requires Inv(p) && RunOk(p, events) && Ahead(p.tasks, t, u) && StaysReady(p, events, t)
    ensures Inv(Run(p, events)) && Ahead(Run(p, events).tasks, t, u)
    decreases |events|
  {
    if events != [] {
      StepKeepsInv(p, events[0]);
      StaysAhead(p, events[0], t, u);
      AheadThroughRun(Step(p, events[0]), events[1..], t, u);
    }
  }

  /** No overtaking: as long as a ready task stays ready, nothing that was behind it, or became ready later, is handed out. */
  lemma NoOvertaking(p: Pool, events: seq<Event>, t: Id, u: Id)
    requires Inv(p) && RunOk(p, events) && Ahead(p.tasks, t, u) && StaysReady(p, events, t) && u != 0
    ensures Handed(Run(p, events)) != u
  {
    AheadThroughRun(p, events, t, u);
    var s := Run(p, events).tasks;
    if u in s {
      var i, j :| 0 <= i < j < |s| && s[i] == t && s[j] == u;
      assert s[0] != s[j];
    }
  }
}
