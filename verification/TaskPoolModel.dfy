/** The thread pool's bookkeeping as a state machine on task ids: every step is one method under the pool's lock. */
module TaskPoolModel {
  type Id = nat

  const MAX_ID: nat := 0xffff_ffff

  /**
   The ready deque and the index of its ids, the executing and delaying tasks, and for every task ever
   added the list of tasks that wait for it; lists of departed tasks are kept, as shared ownership keeps them.
   */
  datatype Pool = Pool(
    tasks: seq<Id>, tasksSearch: set<Id>, executing: set<Id>, delaying: set<Id>,
    dependents: map<Id, seq<Id>>, canceling: set<Id>, completed: set<Id>, nextId: nat, suspended: bool)

  const EMPTY := Pool([], {}, {}, {}, map[], {}, {}, 1, false)

  datatype Event =
    | AddTask(after: Id)
    | CancelTask(id: Id)
    | GetNextTask
    | ReportComplete(id: Id)
    | ReportPaused(id: Id, waitFor: Id)
    | Suspend
    | Resume

  function Elems(s: seq<Id>): set<Id> {
    set x | x in s
  }

  predicate NoDuplicates(s: seq<Id>) {
    forall i, j :: 0 <= i < j < |s| ==> s[i] != s[j]
  }

  /** findTask: the maps first, then a linear scan of the deque. */
  predicate Exists(p: Pool, id: Id) {
    id in p.executing || id in p.delaying || id in p.tasksSearch || id in p.tasks
  }

  function Dependents(p: Pool, id: Id): seq<Id> {
    if id in p.dependents then p.dependents[id] else []
  }

  function IncrementId(n: nat): nat {
    if n >= MAX_ID then 1 else n + 1
  }

  function MakeReady(p: Pool, id: Id): Pool {
    p.(tasks := p.tasks + [id], tasksSearch := p.tasksSearch + {id})
  }

  function MakeDependent(p: Pool, id: Id, after: Id): Pool {
    p.(dependents := p.dependents[after := Dependents(p, after) + [id]], delaying := p.delaying + {id})
  }

  function Add(p: Pool, after: Id): Pool {
    var id := p.nextId;
    var q := p.(nextId := IncrementId(id), dependents := p.dependents[id := []]);
    if after != 0 && Exists(p, after) then MakeDependent(q, id, after) else MakeReady(q, id)
  }

  /** Releases those of the listed tasks that are delayed, in the order of the list. */
  function Release(p: Pool, deps: seq<Id>): Pool
    decreases |deps|
  {
    if deps == [] then p
    else if deps[0] in p.delaying then
      Release(MakeReady(p.(delaying := p.delaying - {deps[0]}), deps[0]), deps[1..])
    else
      Release(p, deps[1..])
  }

  function Complete(p: Pool, id: Id): Pool {
    var q := Release(p.(executing := p.executing - {id}), Dependents(p, id));
    q.(completed := q.completed + {id})
  }

  function IndexOf(s: seq<Id>, id: Id): (i: nat)
    ensures i <= |s| && (i < |s| ==> s[i] == id) && id !in s[..i]
    ensures id in s <==> i < |s|
  {
    if s == [] || s[0] == id then 0 else 1 + IndexOf(s[1..], id)
  }

  /** The sequence without the element at one place. */
  function Rest(s: seq<Id>, at: nat): seq<Id>
    requires at < |s|
  {
    s[..at] + s[at + 1..]
  }

  function Without(s: seq<Id>, id: Id): seq<Id> {
    var i := IndexOf(s, id);
    if i < |s| then Rest(s, i) else s
  }

  /** The three places that cancelTask looks at when the task is not executing. */
  function Cancel(p: Pool, id: Id): Pool {
    if id in p.executing then
      p.(canceling := p.canceling + {id})
    else
      var p1 := if id in p.delaying then var q := Complete(p, id); q.(delaying := q.delaying - {id}) else p;
      var p2 := if id in p1.tasksSearch then var q := Complete(p1, id); q.(tasksSearch := q.tasksSearch - {id}) else p1;
      if id in p2.tasks then var q := Complete(p2, id); q.(tasks := Without(q.tasks, id)) else p2
  }

  function GetNext(p: Pool): Pool {
    if !p.suspended && p.tasks != [] then
      p.(tasks := p.tasks[1..], tasksSearch := p.tasksSearch - {p.tasks[0]}, executing := p.executing + {p.tasks[0]})
    else
      p
  }

  /** The task that GetNext hands out, or 0. */
  function Handed(p: Pool): Id {
    if !p.suspended && p.tasks != [] then p.tasks[0] else 0
  }

  function Pause(p: Pool, id: Id, waitFor: Id): Pool {
    var q := p.(executing := p.executing - {id});
    if waitFor != 0 && Exists(q, waitFor) then MakeDependent(q, id, waitFor) else MakeReady(q, id)
  }

  /** Only the worker that a task was handed to reports on it; and ids are not exhausted. */
  predicate Enabled(p: Pool, e: Event) {
    match e
    case AddTask(_) => p.nextId < MAX_ID
    case ReportComplete(id) => id in p.executing
    case ReportPaused(id, _) => id in p.executing
    case _ => true
  }

  function Step(p: Pool, e: Event): Pool {
    match e
    case AddTask(after) => Add(p, after)
    case CancelTask(id) => Cancel(p, id)
    case GetNextTask => GetNext(p)
    case ReportComplete(id) => Complete(p, id)
    case ReportPaused(id, waitFor) => Pause(p, id, waitFor)
    case Suspend => p.(suspended := true)
    case Resume => p.(suspended := false)
  }

  // ---- The invariant ----

  function Live(p: Pool): set<Id> {
    Elems(p.tasks) + p.executing + p.delaying
  }

  /** Ready, executing and delaying are disjoint, the deque has no duplicates, and its index holds exactly its ids. */
  predicate Partition(p: Pool) {
    && NoDuplicates(p.tasks)
    && p.tasksSearch == Elems(p.tasks)
    && Elems(p.tasks) !! p.executing
    && Elems(p.tasks) !! p.delaying
    && p.executing !! p.delaying
  }

  /** Exactly the ids below nextId have been given out, and only those are in use. */
  ghost predicate Issued(p: Pool) {
    && 1 <= p.nextId <= MAX_ID
    && (forall id :: id in p.dependents <==> 1 <= id < p.nextId)
    && (forall id :: id in Live(p) ==> id in p.dependents)
    && (forall a, i :: a in p.dependents && 0 <= i < |p.dependents[a]| ==> p.dependents[a][i] in p.dependents)
  }

  /** The i-th place on the list of the live task a is held by the live task t. */
  predicate Slot(p: Pool, a: Id, i: nat, t: Id) {
    a in Live(p) && t in Live(p) && i < |Dependents(p, a)| && Dependents(p, a)[i] == t
  }

  /** Whoever holds a place is delayed, does not wait for itself, and holds no other place. */
  ghost predicate Lists(p: Pool) {
    && (forall a, i, t :: Slot(p, a, i, t) ==> t in p.delaying && t != a)
    && (forall a, i, b, j, t :: Slot(p, a, i, t) && Slot(p, b, j, t) ==> a == b && i == j)
  }

  ghost predicate HasPlace(p: Pool, t: Id) {
    exists a, i :: Slot(p, a, i, t)
  }

  /** No orphans: every delayed task holds a place on the list of a live task. */
  ghost predicate NoOrphans(p: Pool) {
    forall t {:trigger HasPlace(p, t)} :: t in p.delaying ==> HasPlace(p, t)
  }

  ghost predicate Inv(p: Pool) {
    Partition(p) && Issued(p) && Lists(p) && NoOrphans(p)
  }

  // ---- Every step keeps the invariant ----

  lemma ReleaseOne(p: Pool, d: Id)
    requires Partition(p) && d in p.delaying
    ensures Partition(MakeReady(p.(delaying := p.delaying - {d}), d))
  {
    assert Elems(p.tasks + [d]) == Elems(p.tasks) + {d};
    assert p.tasks == [] || forall i :: 0 <= i < |p.tasks| ==> p.tasks[i] in Elems(p.tasks);
  }

  lemma PutInFront(d: Id, s: seq<Id>)
    requires NoDuplicates(s) && d !in Elems(s)
    ensures NoDuplicates([d] + s) && Elems([d] + s) == {d} + Elems(s)
  {
    forall i | 0 <= i < |s| ensures s[i] != d {
      assert s[i] in Elems(s);
    }
  }

  lemma ElemsOfFirst(s: seq<Id>)
    requires s != []
    ensures Elems(s) == {s[0]} + Elems(s[1..])
  {
    assert s == [s[0]] + s[1..];
  }

  /** The tasks come in the order of the list. */
  predicate InListOrder(tasks: seq<Id>, list: seq<Id>) {
    forall i, j :: 0 <= i < j < |tasks| ==> IndexOf(list, tasks[i]) < IndexOf(list, tasks[j])
  }

  lemma InOrderBehindFirst(tasks: seq<Id>, list: seq<Id>)
    requires list != [] && InListOrder(tasks, list[1..]) && list[0] !in Elems(tasks)
    ensures InListOrder(tasks, list) && InListOrder([list[0]] + tasks, list)
  {
    assert forall k :: 0 <= k < |tasks| ==> tasks[k] in Elems(tasks);
  }

  /** What Release does: it moves the delayed ones among the listed tasks to the end of the deque, each once. */
  lemma {:induction false} ReleaseMoves(p: Pool, deps: seq<Id>) returns (moved: seq<Id>)
    requires Partition(p)
    ensures var q := Release(p, deps);
      && Partition(q)
      && q == p.(tasks := p.tasks + moved, tasksSearch := p.tasksSearch + Elems(moved), delaying := p.delaying - Elems(deps))
    ensures NoDuplicates(moved) && Elems(moved) == p.delaying * Elems(deps)
    decreases |deps|
  {
    if deps == [] {
      moved := [];
      assert p.tasks + moved == p.tasks;
    } else {
      ElemsOfFirst(deps);
      if deps[0] in p.delaying {
        var p' := MakeReady(p.(delaying := p.delaying - {deps[0]}), deps[0]);
        ReleaseOne(p, deps[0]);
        var rest := ReleaseMoves(p', deps[1..]);
        moved := [deps[0]] + rest;
        PutInFront(deps[0], rest);
        assert p.tasks + moved == p'.tasks + rest;
        assert p'.delaying - Elems(deps[1..]) == p.delaying - Elems(deps);
      } else {
        moved := ReleaseMoves(p, deps[1..]);
      }
    }
  }

  lemma SameEnds<T>(s: seq<T>, a: seq<T>, b: seq<T>)
    requires s + a == s + b
    ensures a == b
  {
    assert (s + a)[|s|..] == a && (s + b)[|s|..] == b;
  }

  /** And it moves them in the order of the list. */
  lemma {:induction false} ReleaseInOrder(p: Pool, deps: seq<Id>, moved: seq<Id>)
    requires Partition(p) && Release(p, deps).tasks == p.tasks + moved
    ensures InListOrder(moved, deps)
    decreases |deps|
  {
    if deps == [] {
      SameEnds(p.tasks, moved, []);
    } else if deps[0] in p.delaying {
      var p' := MakeReady(p.(delaying := p.delaying - {deps[0]}), deps[0]);
      ReleaseOne(p, deps[0]);
      var rest := ReleaseMoves(p', deps[1..]);
      SameEnds(p.tasks, moved, [deps[0]] + rest);
      ReleaseInOrder(p', deps[1..], rest);
      InOrderBehindFirst(rest, deps);
    } else {
      var rest := ReleaseMoves(p, deps[1..]);
      SameEnds(p.tasks, moved, rest);
      ReleaseInOrder(p, deps[1..], moved);
      InOrderBehindFirst(moved, deps);
    }
  }

  /** Steps that leave lists, live tasks and delayed tasks alone. */
  lemma SameLists(p: Pool, q: Pool)
    requires Lists(p) && NoOrphans(p)
    requires Live(q) == Live(p) && q.dependents == p.dependents && q.delaying == p.delaying
    ensures Lists(q) && NoOrphans(q)
  {
    assert forall a, i, t :: Slot(q, a, i, t) <==> Slot(p, a, i, t);
    forall t | t in q.delaying ensures HasPlace(q, t) {
      assert HasPlace(p, t);
    }
  }

  /** A task leaves, and what waited for it is delayed no longer. */
  lemma LeavingKeepsLists(p: Pool, q: Pool, id: Id)
    requires Lists(p) && NoOrphans(p)
    requires Live(q) == Live(p) - {id} && id in Live(p) && q.dependents == p.dependents
    requires q.delaying == p.delaying - {id} - Elems(Dependents(p, id))
    ensures Lists(q) && NoOrphans(q)
  {
    assert forall a, i, t :: Slot(q, a, i, t) <==> Slot(p, a, i, t) && a != id && t != id;
    forall a, i, t | Slot(q, a, i, t) ensures t in q.delaying && t != a {
      if t in Elems(Dependents(p, id)) {
        var j :| 0 <= j < |Dependents(p, id)| && Dependents(p, id)[j] == t;
        assert Slot(p, id, j, t);
      }
    }
    forall t | t in q.delaying ensures HasPlace(q, t) {
      assert HasPlace(p, t);
      var a, i :| Slot(p, a, i, t);
      assert a != id;
      assert Slot(q, a, i, t);
    }
  }

  /** A task that holds no place is put on the list of a live task. */
  lemma WaitingKeepsLists(p: Pool, q: Pool, t: Id, a: Id)
    requires Lists(p) && NoOrphans(p)
    requires a in Live(p) && t != a && (forall b, i: nat :: !Slot(p, b, i, t))
    requires t !in Live(p) ==> Dependents(q, t) == [] && forall b :: b in Live(p) ==> t !in Dependents(p, b)
    requires Live(q) == Live(p) + {t} && q.delaying == p.delaying + {t}
    requires forall b :: b in Live(p) ==> Dependents(q, b) == if b == a then Dependents(p, a) + [t] else Dependents(p, b)
    ensures Lists(q) && NoOrphans(q)
  {
    var n := |Dependents(p, a)|;
    forall b, i: nat, u | Slot(q, b, i, u) ensures Slot(p, b, i, u) || (b == a && i == n && u == t) {
      if u == t && !(b == a && i == n) {
        assert b in Live(p);
        assert Dependents(p, b)[i] == t;
        assert t in Dependents(p, b);
        assert t in Live(p);
        assert Slot(p, b, i, t);
      }
    }
    assert Slot(q, a, n, t);
    forall u | u in q.delaying ensures HasPlace(q, u) {
      if u != t {
        assert HasPlace(p, u);
        var b, i :| Slot(p, b, i, u);
        assert Slot(q, b, i, u);
      }
    }
  }

  lemma NotItsOwnDependent(p: Pool, id: Id)
    requires Lists(p) && id in Live(p)
    ensures id !in Elems(Dependents(p, id))
  {
    if id in Elems(Dependents(p, id)) {
      var j :| 0 <= j < |Dependents(p, id)| && Dependents(p, id)[j] == id;
      assert Slot(p, id, j, id);
    }
  }

  /** Nothing on the list is delayed: then releasing does nothing, and no deque changes under an iteration. */
  lemma {:induction false} ReleaseNothing(p: Pool, deps: seq<Id>)
    requires p.delaying !! Elems(deps)
    ensures Release(p, deps) == p
    decreases |deps|
  {
    if deps != [] {
      assert deps[0] in Elems(deps);
      assert Elems(deps[1..]) <= Elems(deps);
      ReleaseNothing(p, deps[1..]);
    }
  }

  lemma WithoutRemoves(s: seq<Id>, id: Id)
    requires NoDuplicates(s)
    ensures NoDuplicates(Without(s, id)) && Elems(Without(s, id)) == Elems(s) - {id}
  {
    var i, r := IndexOf(s, id), Without(s, id);
    if i < |s| {
      assert forall k :: 0 <= k < |r| ==> r[k] == s[if k < i then k else k + 1];
      forall x | x in Elems(s) - {id} ensures x in Elems(r) {
        var k :| 0 <= k < |s| && s[k] == x;
        assert x == r[if k < i then k else k - 1];
      }
    }
  }

  lemma {:induction false} IndexOfFirstPart(s: seq<Id>, more: seq<Id>, id: Id)
    requires id in s
    ensures IndexOf(s + more, id) == IndexOf(s, id)
    decreases |s|
  {
    assert (s + more)[0] == s[0];
    if s[0] != id {
      assert (s + more)[1..] == s[1..] + more;
      IndexOfFirstPart(s[1..], more, id);
    }
  }

  lemma RestOfFirstPart(s: seq<Id>, more: seq<Id>, at: nat)
    requires at < |s|
    ensures Rest(s + more, at) == Rest(s, at) + more
  {
    assert |Rest(s + more, at)| == |Rest(s, at) + more|;
    forall k | 0 <= k < |s| + |more| - 1 ensures Rest(s + more, at)[k] == (Rest(s, at) + more)[k] {
    }
  }

  lemma WithoutFirstPart(s: seq<Id>, more: seq<Id>, id: Id)
    requires id in s
    ensures Without(s + more, id) == Without(s, id) + more
  {
    IndexOfFirstPart(s, more, id);
    RestOfFirstPart(s, more, IndexOf(s, id));
  }

  lemma NoDuplicatesJoined(a: seq<Id>, b: seq<Id>)
    requires NoDuplicates(a) && NoDuplicates(b) && Elems(a) !! Elems(b)
    ensures NoDuplicates(a + b) && Elems(a + b) == Elems(a) + Elems(b)
  {
    forall i, j | 0 <= i < |a| && 0 <= j < |b| ensures a[i] != b[j] {
      assert a[i] in Elems(a) && b[j] in Elems(b);
    }
  }

  /** What a departing task leaves behind: its delayed dependents are ready, each once and in order, at the end of the deque. */
  ghost predicate Departed(p: Pool, q: Pool, id: Id, moved: seq<Id>) {
    && q.tasks == Without(p.tasks, id) + moved
    && NoDuplicates(moved) && Elems(moved) == p.delaying * Elems(Dependents(p, id)) && InListOrder(moved, Dependents(p, id))
    && q.delaying == p.delaying - {id} - Elems(Dependents(p, id))
    && q.executing == p.executing - {id}
    && q.tasksSearch == Elems(q.tasks)
    && q.dependents == p.dependents && q.nextId == p.nextId && q.suspended == p.suspended
    && q.canceling == p.canceling && q.completed == p.completed + {id}
  }

  lemma DepartureKeepsInv(p: Pool, q: Pool, id: Id, moved: seq<Id>)
    requires Inv(p) && id in Live(p) && Departed(p, q, id, moved)
    ensures Inv(q) && Live(q) == Live(p) - {id}
  {
    NotItsOwnDependent(p, id);
    WithoutRemoves(p.tasks, id);
    NoDuplicatesJoined(Without(p.tasks, id), moved);
    assert Live(q) == Live(p) - {id};
    LeavingKeepsLists(p, q, id);
  }

  lemma CompleteDeparts(p: Pool, id: Id) returns (moved: seq<Id>)
    requires Inv(p) && id in p.executing
    ensures Departed(p, Complete(p, id), id, moved)
  {
    var p' := p.(executing := p.executing - {id});
    moved := ReleaseMoves(p', Dependents(p, id));
    ReleaseInOrder(p', Dependents(p, id), moved);
    assert Without(p.tasks, id) == p.tasks;
    assert Elems(p.tasks + moved) == Elems(p.tasks) + Elems(moved);
  }

  lemma CancelDelayedDeparts(p: Pool, id: Id) returns (moved: seq<Id>)
    requires Inv(p) && id in p.delaying
    ensures Departed(p, Cancel(p, id), id, moved)
  {
    NotItsOwnDependent(p, id);
    moved := ReleaseMoves(p, Dependents(p, id));
    ReleaseInOrder(p, Dependents(p, id), moved);
    assert p.executing - {id} == p.executing;
    var p1 := Complete(p, id).(delaying := Complete(p, id).delaying - {id});
    assert p1.tasks == p.tasks + moved;
    assert Elems(p1.tasks) == Elems(p.tasks) + Elems(moved);
    assert id !in p1.tasksSearch && id !in p1.tasks;
    assert Without(p.tasks, id) == p.tasks;
  }

  lemma CancelReadyDeparts(p: Pool, id: Id) returns (moved: seq<Id>)
    requires Inv(p) && id in p.tasks
    ensures Departed(p, Cancel(p, id), id, moved)
  {
    NotItsOwnDependent(p, id);
    assert id in Elems(p.tasks);
    moved := ReleaseMoves(p, Dependents(p, id));
    ReleaseInOrder(p, Dependents(p, id), moved);
    assert p.executing - {id} == p.executing && p.delaying - {id} == p.delaying;
    var q1 := Complete(p, id);
    var p2 := q1.(tasksSearch := q1.tasksSearch - {id});
    assert Dependents(p2, id) == Dependents(p, id);
    assert p2.executing - {id} == p2.executing;
    ReleaseNothing(p2.(executing := p2.executing - {id}), Dependents(p2, id));
    WithoutFirstPart(p.tasks, moved, id);
    WithoutRemoves(p.tasks, id);
    assert Elems(Without(p.tasks, id) + moved) == Elems(Without(p.tasks, id)) + Elems(moved);
    assert Elems(p.tasks + moved) == Elems(p.tasks) + Elems(moved);
  }

  lemma AddKeepsInv(p: Pool, after: Id)
    requires Inv(p) && p.nextId < MAX_ID
    ensures Inv(Add(p, after)) && Live(Add(p, after)) == Live(p) + {p.nextId} && p.nextId !in Live(p)
  {
    var id, q := p.nextId, Add(p, after);
    assert id !in Live(p);
    assert forall b :: b in Live(p) ==> id !in Dependents(p, b) by {
      forall b | b in Live(p) ensures id !in Dependents(p, b) {
        assert forall i :: 0 <= i < |Dependents(p, b)| ==> Dependents(p, b)[i] in p.dependents;
      }
    }
    if after != 0 && Exists(p, after) {
      assert after in Live(p);
      assert q.dependents == p.dependents[id := []][after := Dependents(p, after) + [id]];
      assert Live(q) == Live(p) + {id};
      WaitingKeepsLists(p, q, id, after);
    } else {
      ReadyKeepsInv(p, q, id);
    }
  }

  /** A new task that waits for nothing. */
  lemma ReadyKeepsInv(p: Pool, q: Pool, id: Id)
    requires Inv(p) && id == p.nextId < MAX_ID
    requires q == MakeReady(p.(nextId := IncrementId(id), dependents := p.dependents[id := []]), id)
    ensures Inv(q) && Live(q) == Live(p) + {id}
  {
    assert Elems(q.tasks) == Elems(p.tasks) + {id};
    assert Live(q) == Live(p) + {id};
    forall a, i: nat, t | Slot(q, a, i, t) ensures Slot(p, a, i, t) {
      assert a != id;
      assert p.dependents[a][i] in p.dependents;
    }
    forall t | t in q.delaying ensures HasPlace(q, t) {
      assert HasPlace(p, t);
      var a, i :| Slot(p, a, i, t);
      assert Slot(q, a, i, t);
    }
  }

  lemma PauseKeepsInv(p: Pool, id: Id, waitFor: Id)
    requires Inv(p) && id in p.executing
    ensures Inv(Pause(p, id, waitFor)) && Live(Pause(p, id, waitFor)) == Live(p)
  {
    var q := Pause(p, id, waitFor);
    if waitFor != 0 && Exists(p.(executing := p.executing - {id}), waitFor) {
      assert waitFor in Live(p) && waitFor != id;
      assert Live(q) == Live(p);
      WaitingKeepsLists(p, q, id, waitFor);
    } else {
      assert Elems(q.tasks) == Elems(p.tasks) + {id};
      assert Live(q) == Live(p);
      SameLists(p, q);
    }
  }

  lemma GetNextKeepsInv(p: Pool)
    requires Inv(p)
    ensures Inv(GetNext(p)) && Live(GetNext(p)) == Live(p)
  {
    var q := GetNext(p);
    if !p.suspended && p.tasks != [] {
      assert p.tasks == [p.tasks[0]] + q.tasks;
      assert Elems(p.tasks) == {p.tasks[0]} + Elems(q.tasks);
      assert p.tasks[0] !in Elems(q.tasks);
      assert Live(q) == Live(p);
      SameLists(p, q);
    }
  }

  /** The id that a step adds to the pool, and the id that it makes leave. */
  function Added(p: Pool, e: Event): set<Id> {
    if e.AddTask? then {p.nextId} else {}
  }

  function Leaving(p: Pool, e: Event): set<Id> {
    match e
    case ReportComplete(id) => {id}
    case CancelTask(id) => if id in p.executing || id !in Live(p) then {} else {id}
    case _ => {}
  }

  /** Every step keeps the invariant, and changes who is in the pool by its own task alone. */
  lemma StepKeepsInv(p: Pool, e: Event)
    requires Inv(p) && Enabled(p, e)
    ensures Inv(Step(p, e))
    ensures Live(Step(p, e)) == Live(p) + Added(p, e) - Leaving(p, e)
    ensures Leaving(p, e) <= Live(p) && Added(p, e) !! Live(p)
  {
    match e {
      case AddTask(after) => AddKeepsInv(p, after);
      case CancelTask(id) => CancelKeepsInv(p, id);
      case GetNextTask => GetNextKeepsInv(p);
      case ReportComplete(id) => CompleteKeepsInv(p, id);
      case ReportPaused(id, waitFor) => PauseKeepsInv(p, id, waitFor);
      case Suspend => SuspensionKeepsInv(p, true);
      case Resume => SuspensionKeepsInv(p, false);
    }
  }

  lemma CompleteKeepsInv(p: Pool, id: Id)
    requires Inv(p) && id in p.executing
    ensures Inv(Complete(p, id)) && Live(Complete(p, id)) == Live(p) - {id} && id in Live(p)
  {
    var moved := CompleteDeparts(p, id);
    DepartureKeepsInv(p, Complete(p, id), id, moved);
  }

  lemma SuspensionKeepsInv(p: Pool, suspended: bool)
    requires Inv(p)
    ensures Inv(p.(suspended := suspended)) && Live(p.(suspended := suspended)) == Live(p)
  {
    SameLists(p, p.(suspended := suspended));
  }

  /** The one step that lets a task leave releases each of its delayed dependents to the deque, once. */
  lemma WhatMoves(p: Pool, e: Event, id: Id) returns (moved: seq<Id>)
    requires Inv(p) && Enabled(p, e) && Leaving(p, e) == {id}
    ensures Departed(p, Step(p, e), id, moved)
  {
    match e {
      case ReportComplete(_) => moved := CompleteDeparts(p, id);
      case CancelTask(_) =>
        if id in p.delaying {
          moved := CancelDelayedDeparts(p, id);
        } else {
          moved := CancelReadyDeparts(p, id);
        }
    }
  }

  lemma CancelKeepsInv(p: Pool, id: Id)
    requires Inv(p)
    ensures Inv(Cancel(p, id))
    ensures Live(Cancel(p, id)) == Live(p) - Leaving(p, CancelTask(id))
  {
    if id in p.executing {
      SameLists(p, Cancel(p, id));
    } else if id in p.delaying {
      var moved := CancelDelayedDeparts(p, id);
      DepartureKeepsInv(p, Cancel(p, id), id, moved);
    } else if id in p.tasks {
      var moved := CancelReadyDeparts(p, id);
      DepartureKeepsInv(p, Cancel(p, id), id, moved);
    }
  }

  lemma EmptyInv()
    ensures Inv(EMPTY)
  {
  }
}
