/** When the thread pool can come to a standstill, exactly. */
module TaskPoolProgress {
  import opened TaskPoolModel
  import opened TaskPoolRuns

  // ---- Graphs of waits: every task waits for at most one other ----

  type Waits = map<Id, Id>

  predicate WaitsIn(m: Waits, c: set<Id>, t: Id) {
    t in m && m[t] in c
  }

  /** Tasks that wait only for each other. */
  predicate ClosedWait(m: Waits, c: set<Id>) {
    c != {} && forall t {:trigger WaitsIn(m, c, t)} :: t in c ==> WaitsIn(m, c, t)
  }

  ghost predicate Stuck(m: Waits) {
    exists c: set<Id> :: ClosedWait(m, c)
  }

  /** Following at most n waits from one task arrives at the other. */
  predicate LeadsWithin(m: Waits, from: Id, to: Id, n: nat)
    decreases n
  {
    from == to || (n > 0 && from in m && LeadsWithin(m, m[from], to, n - 1))
  }

  ghost predicate Leads(m: Waits, from: Id, to: Id) {
    exists n: nat :: LeadsWithin(m, from, to, n)
  }

  lemma {:induction false} OneFurther(m: Waits, from: Id, to: Id, n: nat)
    requires LeadsWithin(m, from, to, n) && to in m
    ensures LeadsWithin(m, from, m[to], n + 1)
    decreases n
  {
    if from == to {
      assert LeadsWithin(m, m[from], m[to], n);
    } else {
      OneFurther(m, m[from], to, n - 1);
    }
  }

  /** The tasks passed on the way. */
  function Way(m: Waits, from: Id, to: Id, n: nat): (way: set<Id>)
    requires LeadsWithin(m, from, to, n)
    decreases n
  {
    if from == to then {from} else {from} + Way(m, m[from], to, n - 1)
  }

  lemma {:induction false} WayIsClosed(m: Waits, from: Id, to: Id, n: nat)
    requires LeadsWithin(m, from, to, n)
    ensures from in Way(m, from, to, n) && to in Way(m, from, to, n)
    ensures forall x :: x in Way(m, from, to, n) && x != to ==> x in m && m[x] in Way(m, from, to, n)
    decreases n
  {
    if from != to {
      WayIsClosed(m, m[from], to, n - 1);
    }
  }

  lemma SameOutside(m: Waits, t: Id, w: Id, c: set<Id>)
    requires t !in c && ClosedWait(m[t := w], c)
    ensures ClosedWait(m, c)
  {
    forall x | x in c ensures WaitsIn(m, c, x) {
      assert WaitsIn(m[t := w], c, x);
    }
  }

  /** Letting t wait for w closes a wait exactly when the waits from w lead to t. */
  lemma ClosesExactlyChains(m: Waits, t: Id, w: Id)
    requires !Stuck(m) && t !in m
    ensures Stuck(m[t := w]) <==> Leads(m, w, t)
  {
    var m' := m[t := w];
    if Leads(m, w, t) {
      var n: nat :| LeadsWithin(m, w, t, n);
      WayIsClosed(m, w, t, n);
      forall x | x in Way(m, w, t, n) ensures WaitsIn(m', Way(m, w, t, n), x) {
      }
      assert ClosedWait(m', Way(m, w, t, n));
    }
    if Stuck(m') && !Leads(m, w, t) {
      var c: set<Id> :| ClosedWait(m', c);
      var r := set x | x in c && Leads(m, w, x);
      assert t in c by {
        if t !in c {
          SameOutside(m, t, w, c);
        }
      }
      assert WaitsIn(m', c, t);
      assert LeadsWithin(m, w, w, 0);
      assert w in r;
      forall x | x in r ensures WaitsIn(m, r, x) {
        assert WaitsIn(m', c, x);
        var n: nat :| LeadsWithin(m, w, x, n);
        OneFurther(m, w, x, n);
      }
      assert ClosedWait(m, r);
    }
  }

  /** A task that nobody waits for closes nothing. */
  lemma NewcomerClosesNothing(m: Waits, t: Id, w: Id)
    requires t !in m && w != t && forall x :: x in m ==> m[x] != t
    requires Stuck(m[t := w])
    ensures Stuck(m)
  {
    var c: set<Id> :| ClosedWait(m[t := w], c);
    var x :| x in c;
    assert WaitsIn(m[t := w], c, x);
    assert m[t := w][x] in c - {t};
    forall y | y in c - {t} ensures WaitsIn(m, c - {t}, y) {
      assert WaitsIn(m[t := w], c, y);
    }
    assert ClosedWait(m, c - {t});
  }

  predicate Within(m: Waits, n: Waits) {
    forall t :: t in m ==> t in n && m[t] == n[t]
  }

  lemma FewerWaitsCloseNothing(m: Waits, n: Waits)
    requires Within(m, n) && Stuck(m)
    ensures Stuck(n)
  {
    var c: set<Id> :| ClosedWait(m, c);
    forall t | t in c ensures WaitsIn(n, c, t) {
      assert WaitsIn(m, c, t);
    }
    assert ClosedWait(n, c);
  }

  // ---- The waits of the pool, and what each step does to them ----

  ghost function OwnerOf(p: Pool, t: Id): Id {
    if exists a: Id :: WaitsOn(p, t, a) then var a: Id :| WaitsOn(p, t, a); a else 0
  }

  /** For each delayed task the one live task it waits for. */
  ghost function Owners(p: Pool): Waits {
    map t | t in p.delaying :: OwnerOf(p, t)
  }

  ghost predicate OwnersInside(p: Pool) {
    forall t {:trigger Owners(p)[t]} :: t in p.delaying ==> Owners(p)[t] in Live(p) && Owners(p)[t] != t
  }

  lemma OwnersAreTheWaits(p: Pool, t: Id, a: Id)
    requires Inv(p)
    ensures WaitsOn(p, t, a) <==> t in Owners(p) && Owners(p)[t] == a
    ensures WaitsOn(p, t, a) ==> a in Live(p) && t in p.delaying && a != t
  {
    if t in p.delaying {
      assert HasPlace(p, t);
      var b, k :| Slot(p, b, k, t);
      assert WaitsOn(p, t, b);
    }
    if WaitsOn(p, t, a) {
      WaitersAreIssued(p, t, a);
      var b := OwnerOf(p, t);
      var i: nat :| Slot(p, a, i, t);
      var j: nat :| Slot(p, b, j, t);
    }
  }

  lemma OwnersLive(p: Pool, t: Id)
    requires Inv(p) && t in Owners(p)
    ensures Owners(p)[t] in Live(p) && Owners(p)[t] != t
  {
    OwnersAreTheWaits(p, t, Owners(p)[t]);
  }

  /** A wait is on after a step if it was before, unless a task of it left; and nothing else is, but for the step's own wait. */
  ghost predicate OwnersMove(p: Pool, e: Event, q: Pool) {
    Owners(q) == match e
      case AddTask(after) => if after in Live(p) then Owners(p)[p.nextId := after] else Owners(p)
      case ReportPaused(id, w) => if w in Live(p) && w != id then Owners(p)[id := w] else Owners(p)
      case _ => Staying(Owners(p), Leaving(p, e))
  }

  function Staying(m: Waits, gone: set<Id>): Waits {
    map t | t in m && t !in gone && m[t] !in gone :: m[t]
  }

  lemma KeepsOwner(p: Pool, e: Event, t: Id)
    requires Inv(p) && Enabled(p, e)
    requires t in p.delaying && t in Step(p, e).delaying && Owners(p)[t] in Live(Step(p, e))
    ensures Owners(Step(p, e))[t] == Owners(p)[t]
  {
    var q, a := Step(p, e), Owners(p)[t];
    StepKeepsInv(p, e);
    OwnersAreTheWaits(p, t, a);
    WaitPersists(p, e, t, a);
    OwnersAreTheWaits(q, t, a);
  }

  ghost predicate KeptOwners(p: Pool, q: Pool) {
    forall t {:trigger Owners(q)[t]} ::
      t in p.delaying && t in q.delaying && Owners(p)[t] in Live(q) ==> Owners(q)[t] == Owners(p)[t]
  }

  lemma AllKeepOwners(p: Pool, e: Event)
    requires Inv(p) && Enabled(p, e)
    ensures KeptOwners(p, Step(p, e))
  {
    StepKeepsInv(p, e);
    forall t | t in p.delaying && t in Step(p, e).delaying && Owners(p)[t] in Live(Step(p, e))
      ensures Owners(Step(p, e))[t] == Owners(p)[t]
    {
      KeepsOwner(p, e, t);
    }
  }

  lemma AllOwnersLive(p: Pool)
    requires Inv(p)
    ensures OwnersInside(p)
  {
    forall t | t in p.delaying ensures Owners(p)[t] in Live(p) && Owners(p)[t] != t {
      OwnersLive(p, t);
    }
  }

  lemma SameDelaying(p: Pool, q: Pool)
    requires KeptOwners(p, q) && OwnersInside(p)
    requires q.delaying == p.delaying && Live(p) <= Live(q)
    ensures Owners(q) == Owners(p)
  {
    forall t | t in p.delaying ensures Owners(q)[t] == Owners(p)[t] {
      assert Owners(p)[t] in Live(q);
    }
  }

  lemma OneMoreWaits(p: Pool, q: Pool, u: Id, w: Id)
    requires KeptOwners(p, q) && OwnersInside(p)
    requires q.delaying == p.delaying + {u} && Live(p) <= Live(q)
    requires u !in p.delaying && Owners(q)[u] == w
    ensures Owners(q) == Owners(p)[u := w]
  {
    forall t | t in p.delaying ensures Owners(q)[t] == Owners(p)[t] {
      assert Owners(p)[t] in Live(q);
    }
  }

  lemma HoldersAreListed(p: Pool, t: Id, a: Id)
    requires Inv(p) && t in p.delaying && a in Live(p)
    ensures t in Elems(Dependents(p, a)) <==> Owners(p)[t] == a
  {
    OwnersAreTheWaits(p, t, a);
    if t in Elems(Dependents(p, a)) {
      var i: nat :| i < |Dependents(p, a)| && Dependents(p, a)[i] == t;
      assert Slot(p, a, i, t);
    }
    if WaitsOn(p, t, a) {
      var i: nat :| Slot(p, a, i, t);
    }
  }

  lemma DepartureMovesOwners(p: Pool, e: Event, id: Id)
    requires Inv(p) && Enabled(p, e) && Leaving(p, e) == {id}
    requires KeptOwners(p, Step(p, e))
    ensures Owners(Step(p, e)) == Staying(Owners(p), {id})
  {
    var q := Step(p, e);
    StepKeepsInv(p, e);
    var moved := WhatMoves(p, e, id);
    forall t | t in p.delaying ensures t in q.delaying <==> t in Staying(Owners(p), {id}) {
      HoldersAreListed(p, t, id);
    }
    forall t | t in q.delaying ensures Owners(q)[t] == Owners(p)[t] {
      OwnersLive(p, t);
    }
  }

  lemma AddMovesOwners(p: Pool, after: Id)
    requires Inv(p) && p.nextId < MAX_ID
    requires KeptOwners(p, Add(p, after)) && OwnersInside(p)
    ensures OwnersMove(p, AddTask(after), Add(p, after))
  {
    AddKeepsInv(p, after);
    FindsExactlyTheLive(p, after);
    if after in Live(p) {
      AddWaits(p, after);
      OwnersAreTheWaits(Add(p, after), p.nextId, after);
      OneMoreWaits(p, Add(p, after), p.nextId, after);
    } else {
      SameDelaying(p, Add(p, after));
    }
  }

  lemma PauseMovesOwners(p: Pool, t: Id, w: Id)
    requires Inv(p) && t in p.executing
    requires KeptOwners(p, Pause(p, t, w)) && OwnersInside(p)
    ensures OwnersMove(p, ReportPaused(t, w), Pause(p, t, w))
  {
    PauseKeepsInv(p, t, w);
    assert w in p.tasks <==> w in Elems(p.tasks);
    assert Exists(p.(executing := p.executing - {t}), w) <==> w in Live(p) && w != t;
    if w in Live(p) && w != t {
      PauseWaits(p, t, w);
      OwnersAreTheWaits(Pause(p, t, w), t, w);
      OneMoreWaits(p, Pause(p, t, w), t, w);
    } else {
      SameDelaying(p, Pause(p, t, w));
    }
  }

  lemma StayingWithout(m: Waits)
    ensures Staying(m, {}) == m
  {
  }

  lemma NobodyLeaves(p: Pool, e: Event)
    requires Inv(p) && Enabled(p, e) && Leaving(p, e) == {} && !e.AddTask? && !e.ReportPaused?
    ensures Step(p, e).delaying == p.delaying && Live(Step(p, e)) == Live(p)
  {
    StepKeepsInv(p, e);
  }

  /** How every step changes who waits for whom. */
  lemma StepMovesOwners(p: Pool, e: Event)
    requires Inv(p) && Enabled(p, e)
    ensures OwnersMove(p, e, Step(p, e))
  {
    AllKeepOwners(p, e);
    AllOwnersLive(p);
    if e.AddTask? {
      AddMovesOwners(p, e.after);
    } else if e.ReportPaused? {
      PauseMovesOwners(p, e.id, e.waitFor);
    } else if Leaving(p, e) == {} {
      NobodyLeaves(p, e);
      SameDelaying(p, Step(p, e));
      StayingWithout(Owners(p));
    } else {
      DepartureMovesOwners(p, e, e.id);
    }
  }

  // ---- Standstill ----

  lemma Standstill(p: Pool)
    requires Partition(p) && OwnersInside(p) && p.executing == {} && Live(p) != {}
    ensures p.tasks == [] <==> ClosedWait(Owners(p), Live(p))
  {
    if p.tasks == [] {
      assert Live(p) == p.delaying;
    } else {
      var t := p.tasks[0];
      assert t in Elems(p.tasks);
      assert WaitsIn(Owners(p), Live(p), t) ==> t in p.delaying;
    }
  }

  /** With nothing executing and something in the pool: no task is ready exactly when all tasks wait for each other. */
  lemma StandstillExactly(p: Pool)
    requires Inv(p) && p.executing == {} && Count(p) > 0
    ensures p.tasks == [] <==> ClosedWait(Owners(p), Live(p))
  {
    CountsTheLive(p);
    AllOwnersLive(p);
    Standstill(p);
  }

  predicate Spares(events: seq<Event>, c: set<Id>)
    decreases |events|
  {
    events == [] || ((events[0].CancelTask? ==> events[0].id !in c) && Spares(events[1..], c))
  }

  /** A reachable pool in which the tasks of c wait only for each other. */
  ghost predicate Blocked(p: Pool, c: set<Id>) {
    Inv(p) && ClosedWait(Owners(p), c)
  }

  lemma StuckStep(p: Pool, e: Event, c: set<Id>)
    requires Blocked(p, c) && Enabled(p, e) && (e.CancelTask? ==> e.id !in c)
    ensures Blocked(Step(p, e), c)
  {
    StepKeepsInv(p, e);
    StepMovesOwners(p, e);
    NewTaskIsNotDelayed(p);
    ClosedKeptByStep(p, e, c);
  }

  /** Tasks that wait only for each other stay delayed in any run that cancels none of them. */
  lemma {:induction false} StuckForever(p: Pool, events: seq<Event>, c: set<Id>)
    requires Blocked(p, c) && RunOk(p, events) && Spares(events, c)
    ensures ClosedWait(Owners(Run(p, events)), c)
    decreases |events|
  {
    if events != [] {
      var q := Step(p, events[0]);
      StuckStep(p, events[0], c);
      StuckForever(q, events[1..], c);
      assert Run(p, events) == Run(q, events[1..]);
    }
  }

  lemma NewTaskIsNotDelayed(p: Pool)
    requires Issued(p)
    ensures p.nextId !in p.delaying
  {
    assert p.nextId in p.delaying ==> p.nextId in Live(p);
  }

  lemma ClosedKeptByStep(p: Pool, e: Event, c: set<Id>)
    requires Partition(p) && Enabled(p, e) && p.nextId !in p.delaying
    requires OwnersMove(p, e, Step(p, e))
    requires ClosedWait(Owners(p), c) && (e.CancelTask? ==> e.id !in c)
    ensures ClosedWait(Owners(Step(p, e)), c)
  {
    var m := Owners(p);
    forall t | t in c ensures t in p.delaying {
      assert WaitsIn(m, c, t);
    }
    match e {
      case AddTask(after) => FreshWaitKeepsClosed(m, p.nextId, after, c);
      case ReportPaused(t, w) => FreshWaitKeepsClosed(m, t, w, c);
      case _ => StayingKeepsClosed(m, Leaving(p, e), c);
    }
  }

  lemma FreshWaitKeepsClosed(m: Waits, t: Id, w: Id, c: set<Id>)
    requires ClosedWait(m, c) && t !in m
    ensures ClosedWait(m[t := w], c)
  {
    forall x | x in c ensures WaitsIn(m[t := w], c, x) {
      assert WaitsIn(m, c, x);
    }
  }

  lemma StayingKeepsClosed(m: Waits, gone: set<Id>, c: set<Id>)
    requires ClosedWait(m, c) && gone !! c
    ensures ClosedWait(Staying(m, gone), c)
  {
    forall x | x in c ensures WaitsIn(Staying(m, gone), c, x) {
      assert WaitsIn(m, c, x);
    }
  }

  /** The pause makes t wait for a live task w whose own waits lead to t. */
  ghost predicate ClosesChain(p: Pool, e: Event) {
    e.ReportPaused? && e.waitFor in Live(p) && e.waitFor != e.id && Leads(Owners(p), e.waitFor, e.id)
  }

  /** A pool without closed waits gets one exactly by a pause that closes a chain of waits. */
  lemma StuckExactlyByClosing(p: Pool, e: Event)
    requires Inv(p) && Enabled(p, e) && !Stuck(Owners(p))
    ensures (Stuck(Owners(Step(p, e))) <==> ClosesChain(p, e))
  {
    StepMovesOwners(p, e);
    AllOwnersLive(p);
    NewTaskIsNotDelayed(p);
    NewTaskIsNotLive(p);
    StuckByMove(p, e, Step(p, e));
  }

  lemma NewTaskIsNotLive(p: Pool)
    requires Issued(p)
    ensures p.nextId !in Live(p)
  {
  }

  lemma StuckByMove(p: Pool, e: Event, q: Pool)
    requires Partition(p) && OwnersInside(p) && OwnersMove(p, e, q)
    requires Enabled(p, e) && p.nextId !in Live(p) && p.nextId !in p.delaying && !Stuck(Owners(p))
    ensures Stuck(Owners(q)) <==> ClosesChain(p, e)
  {
    var m := Owners(p);
    match e {
      case AddTask(after) =>
        if after in Live(p) && Stuck(m[p.nextId := after]) {
          NewcomerClosesNothing(m, p.nextId, after);
        }
      case ReportPaused(t, w) => ClosesExactlyChains(m, t, w);
      case _ =>
        if Stuck(Owners(q)) {
          FewerWaitsCloseNothing(Owners(q), m);
        }
    }
  }

  ghost predicate NeverCloses(p: Pool, events: seq<Event>)
    decreases |events|
  {
    events == [] || (!ClosesChain(p, events[0]) && NeverCloses(Step(p, events[0]), events[1..]))
  }

  lemma {:induction false} NeverStuck(p: Pool, events: seq<Event>)
    requires Inv(p) && RunOk(p, events) && !Stuck(Owners(p)) && NeverCloses(p, events)
    ensures !Stuck(Owners(Run(p, events)))
    decreases |events|
  {
    if events != [] {
      StepKeepsInv(p, events[0]);
      StuckExactlyByClosing(p, events[0]);
      NeverStuck(Step(p, events[0]), events[1..]);
    }
  }

  lemma NothingWaits()
    ensures !Stuck(Owners(EMPTY))
  {
    forall c: set<Id> ensures !ClosedWait(Owners(EMPTY), c) {
      if c != {} {
        var t :| t in c;
        assert !WaitsIn(Owners(EMPTY), c, t);
      }
    }
  }

  /** Deadlock freedom: unless a pause has closed a chain of waits, an idle pool that holds tasks has one ready. */
  lemma DeadlockFreedom(events: seq<Event>)
    requires RunOk(EMPTY, events) && NeverCloses(EMPTY, events)
    ensures var p := Run(EMPTY, events); Count(p) > 0 && p.executing == {} ==> p.tasks != []
  {
    EmptyInv();
    EveryRunKeepsInv(events);
    NothingWaits();
    NeverStuck(EMPTY, events);
    var p := Run(EMPTY, events);
    if Count(p) > 0 && p.executing == {} {
      StandstillExactly(p);
    }
  }

  // ---- Waiting only for earlier tasks ----

  ghost predicate Earlier(m: Waits) {
    forall t :: t in m ==> m[t] < t
  }

  predicate WaitsForEarlier(events: seq<Event>) {
    forall e :: e in events && e.ReportPaused? ==> e.waitFor < e.id
  }

  lemma EarlierStays(p: Pool, e: Event)
    requires Inv(p) && Enabled(p, e) && Earlier(Owners(p)) && (e.ReportPaused? ==> e.waitFor < e.id)
    ensures Earlier(Owners(Step(p, e)))
  {
    StepMovesOwners(p, e);
  }

  lemma {:induction false} EarlierLeadsDown(m: Waits, from: Id, to: Id, n: nat)
    requires Earlier(m) && LeadsWithin(m, from, to, n)
    ensures to <= from
    decreases n
  {
    if from != to {
      EarlierLeadsDown(m, m[from], to, n - 1);
    }
  }

  lemma {:induction false} EarlierNeverCloses(p: Pool, events: seq<Event>)
    requires Inv(p) && RunOk(p, events) && Earlier(Owners(p)) && WaitsForEarlier(events)
    ensures NeverCloses(p, events)
    decreases |events|
  {
    if events != [] {
      var e := events[0];
      if ClosesChain(p, e) {
        var n: nat :| LeadsWithin(Owners(p), e.waitFor, e.id, n);
        assert e in events;
        EarlierLeadsDown(Owners(p), e.waitFor, e.id, n);
      }
      EarlierStays(p, e);
      StepKeepsInv(p, e);
      EarlierNeverCloses(Step(p, e), events[1..]);
    }
  }

  /** In particular: when every pausing task waits for a task with a lower id, the pool never comes to a standstill. */
  lemma EarlierWaitsNeverDeadlock(events: seq<Event>)
    requires RunOk(EMPTY, events) && WaitsForEarlier(events)
    ensures var p := Run(EMPTY, events); Count(p) > 0 && p.executing == {} ==> p.tasks != []
  {
    EmptyInv();
    EarlierNeverCloses(EMPTY, events);
    DeadlockFreedom(events);
  }

  const CROSSING := [AddTask(0), AddTask(0), GetNextTask, ReportPaused(1, 2), GetNextTask, ReportPaused(2, 1)]

  /** Without that condition it can: two tasks that pause for each other are never run again. */
  lemma TwoTasksCanBlock()
    ensures RunOk(EMPTY, CROSSING)
    ensures var p := Run(EMPTY, CROSSING); Count(p) == 2 && p.executing == {} && p.tasks == []
  {
  }
}
