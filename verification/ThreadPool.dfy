/** The thread pool's methods as they change its containers in place, each proved to take the step of the model. */
module ThreadPool {
  import opened TaskPoolModel
  import opened TaskPoolRuns
  import opened TaskPoolWaiting
  import opened TaskPoolCancel

  class PooledTask {
    const id: Id
    var dependentTasks: seq<PooledTask>
    var canceling: bool
    var completed: bool

    constructor (id: Id)
      ensures this.id == id && dependentTasks == [] && !canceling && !completed
    {
      this.id := id;
      dependentTasks := [];
      canceling := false;
      completed := false;
    }

    method SignalCompleted()
      modifies `completed
      ensures completed
    {
      if !completed {
        completed := true;
      }
    }
  }

  type TaskSet = map<Id, PooledTask>

  function Ids(list: seq<PooledTask>): seq<Id> {
    seq(|list|, i requires 0 <= i < |list| => list[i].id)
  }

  lemma IdsPush(list: seq<PooledTask>, t: PooledTask)
    ensures Ids(list + [t]) == Ids(list) + [t.id]
  {
  }

  class Pool {
    var tasks: seq<PooledTask>
    var tasksSearch: TaskSet
    var executing: TaskSet
    var delaying: TaskSet
    var nextId: nat
    var suspended: bool
    /** Every task ever added, by id. */
    ghost var all: TaskSet
    ghost var state: TaskPoolModel.Pool

    ghost predicate Known(t: PooledTask)
      reads this
    {
      t.id in all && all[t.id] == t
    }

    ghost predicate KnownSet(s: TaskSet)
      reads this
    {
      forall k {:trigger s[k]} :: k in s ==> k in all && s[k] == all[k]
    }

    ghost predicate WellLinked()
      reads this
    {
      && 1 <= nextId <= MAX_ID
      && (forall k {:trigger all[k]} :: k in all ==> 1 <= k < nextId && all[k].id == k)
      && (forall i {:trigger tasks[i]} :: 0 <= i < |tasks| ==> Known(tasks[i]))
      && KnownSet(tasksSearch) && KnownSet(executing) && KnownSet(delaying)
    }

    ghost function Lists(): map<Id, seq<Id>>
      reads `all, all.Values`dependentTasks
    {
      map k | k in all :: Ids(all[k].dependentTasks)
    }

    ghost function Canceling(): set<Id>
      reads `all, all.Values`canceling
    {
      set k | k in all && all[k].canceling
    }

    ghost function Completed(): set<Id>
      reads `all, all.Values`completed
    {
      set k | k in all && all[k].completed
    }

    ghost function Abstract(): TaskPoolModel.Pool
      reads this, all.Values
    {
      TaskPoolModel.Pool(
        Ids(tasks), tasksSearch.Keys, executing.Keys, delaying.Keys,
        Lists(), Canceling(), Completed(), nextId, suspended)
    }

    /** The containers hold what the model's pool holds. */
    ghost predicate Valid()
      reads this, all.Values
    {
      WellLinked() && state == Abstract()
    }

    constructor ()
      ensures Valid() && state == EMPTY && all == map[]
    {
      tasks, tasksSearch, executing, delaying := [], map[], map[], map[];
      nextId, suspended, all := 1, false, map[];
      state := EMPTY;
    }

    method FindTask(id: Id) returns (t: PooledTask?)
      requires Valid()
      ensures t != null <==> Exists(state, id)
      ensures t != null ==> Known(t) && t.id == id
    {
      if id in executing {
        return executing[id];
      }
      if id in delaying {
        return delaying[id];
      }
      if id in tasksSearch {
        return tasksSearch[id];
      }
      for i := 0 to |tasks|
        invariant id !in Ids(tasks)[..i]
      {
        if tasks[i].id == id {
          assert Ids(tasks)[i] == id;
          return tasks[i];
        }
      }
      return null;
    }

    method DoesTaskExist(id: Id) returns (found: bool)
      requires Valid()
      ensures found <==> Exists(state, id)
    {
      var t := FindTask(id);
      found := t != null;
    }

    method Count() returns (n: nat)
      requires Valid()
      ensures n == TaskPoolRuns.Count(state)
    {
      n := |tasks| + |delaying| + |executing|;
    }

    /** Puts a task at the end of the ready queue. */
    method MakeReady(t: PooledTask)
      requires Valid() && Known(t)
      modifies `tasks, `tasksSearch, `state
      ensures Valid() && state == TaskPoolModel.MakeReady(old(state), t.id)
    {
      IdsPush(tasks, t);
      tasks := tasks + [t];
      tasksSearch := tasksSearch[t.id := t];
      state := TaskPoolModel.MakeReady(state, t.id);
      assert tasksSearch.Keys == old(tasksSearch.Keys) + {t.id};
      assert Lists() == old(Lists()) && Canceling() == old(Canceling()) && Completed() == old(Completed());
    }

    method PushDependent(after: PooledTask, t: PooledTask)
      requires Valid() && Known(after)
      modifies `state, after`dependentTasks
      ensures Valid() && all == old(all)
      ensures state == old(state).(dependents := old(state).dependents[after.id := Dependents(old(state), after.id) + [t.id]])
    {
      IdsPush(after.dependentTasks, t);
      assert forall k :: k in all && k != after.id ==> all[k] != after;
      after.dependentTasks := after.dependentTasks + [t];
      state := state.(dependents := state.dependents[after.id := Dependents(state, after.id) + [t.id]]);
      assert Lists() == state.dependents;
      assert Canceling() == old(Canceling()) && Completed() == old(Completed());
    }

    method InsertDelaying(t: PooledTask)
      requires Valid() && Known(t)
      modifies `delaying, `state
      ensures Valid() && state == old(state).(delaying := old(state).delaying + {t.id})
    {
      delaying := delaying[t.id := t];
      state := state.(delaying := state.delaying + {t.id});
      assert delaying.Keys == old(delaying.Keys) + {t.id};
      assert Lists() == old(Lists()) && Canceling() == old(Canceling()) && Completed() == old(Completed());
    }

    /** Lets a task wait for another. */
    method MakeDependent(t: PooledTask, after: PooledTask)
      requires Valid() && Known(t) && Known(after)
      modifies `delaying, `state, after`dependentTasks
      ensures Valid() && state == TaskPoolModel.MakeDependent(old(state), t.id, after.id)
    {
      PushDependent(after, t);
      InsertDelaying(t);
    }

    method TakeId() returns (id: Id)
      requires Valid() && nextId < MAX_ID
      modifies `nextId, `state
      ensures Valid() && id == old(nextId) && state == old(state).(nextId := IncrementId(id))
      ensures id !in all && id < nextId
    {
      id := nextId;
      nextId := IncrementId(nextId);
      state := state.(nextId := nextId);
      assert Lists() == old(Lists()) && Canceling() == old(Canceling()) && Completed() == old(Completed());
    }

    /** Records a new task. */
    method Register(t: PooledTask)
      requires Valid() && t.id !in all && 1 <= t.id < nextId
      requires t.dependentTasks == [] && !t.canceling && !t.completed
      modifies `all, `state
      ensures Valid() && all == old(all)[t.id := t]
      ensures state == old(state).(dependents := old(state).dependents[t.id := []])
    {
      all := all[t.id := t];
      state := state.(dependents := state.dependents[t.id := []]);
      assert Ids(t.dependentTasks) == [];
      assert Lists() == old(Lists())[t.id := []];
      assert Canceling() == old(Canceling()) && Completed() == old(Completed());
    }

    method AddTask(after: Id) returns (id: Id)
      requires Valid() && nextId < MAX_ID
      modifies this, all.Values
      ensures Valid() && state == Add(old(state), after) && id == old(nextId)
      ensures id in all && fresh(all[id]) && all == old(all)[id := all[id]]
    {
      id := TakeId();
      var tmp := new PooledTask(id);
      Register(tmp);
      if after != 0 {
        var found := FindTask(after);
        if found != null {
          MakeDependent(tmp, found);
          return;
        }
      }
      MakeReady(tmp);
    }

    method EraseDelaying(id: Id)
      requires Valid()
      modifies `delaying, `state
      ensures Valid() && state == old(state).(delaying := old(state).delaying - {id})
    {
      delaying := delaying - {id};
      state := state.(delaying := state.delaying - {id});
      assert delaying.Keys == old(delaying.Keys) - {id};
      assert Lists() == old(Lists()) && Canceling() == old(Canceling()) && Completed() == old(Completed());
    }

    method EraseSearch(id: Id)
      requires Valid()
      modifies `tasksSearch, `state
      ensures Valid() && state == old(state).(tasksSearch := old(state).tasksSearch - {id})
    {
      tasksSearch := tasksSearch - {id};
      state := state.(tasksSearch := state.tasksSearch - {id});
      assert tasksSearch.Keys == old(tasksSearch.Keys) - {id};
      assert Lists() == old(Lists()) && Canceling() == old(Canceling()) && Completed() == old(Completed());
    }

    method EraseExecuting(id: Id)
      requires Valid()
      modifies `executing, `state
      ensures Valid() && state == old(state).(executing := old(state).executing - {id})
    {
      executing := executing - {id};
      state := state.(executing := state.executing - {id});
      assert executing.Keys == old(executing.Keys) - {id};
      assert Lists() == old(Lists()) && Canceling() == old(Canceling()) && Completed() == old(Completed());
    }

    /** One dependent of a task that leaves: if it is delayed, it becomes ready. */
    method ReleaseDependent(dep: PooledTask)
      requires Valid()
      modifies `tasks, `tasksSearch, `delaying, `state
      ensures Valid() && state == Release(old(state), [dep.id])
    {
      if dep.id in delaying {
        MakeReady(delaying[dep.id]);
        EraseDelaying(dep.id);
      }
    }

    method SignalTask(task: PooledTask)
      requires Valid() && Known(task)
      modifies `state, task`completed
      ensures Valid() && state == old(state).(completed := old(state).completed + {task.id})
    {
      assert forall k :: k in all && k != task.id ==> all[k] != task;
      task.SignalCompleted();
      state := state.(completed := state.completed + {task.id});
      assert Completed() == old(Completed()) + {task.id};
    }

    method ReportTaskComplete(task: PooledTask)
      requires Valid() && Known(task)
      modifies `executing, `state, `tasks, `tasksSearch, `delaying, task`completed
      ensures Valid() && state == Complete(old(state), task.id)
    {
      EraseExecuting(task.id);
      ghost var p := state;
      ghost var deps := Dependents(p, task.id);
      assert deps == Ids(task.dependentTasks);
      for i := 0 to |task.dependentTasks|
        invariant Valid() && Known(task) && all == old(all)
        invariant Release(state, deps[i..]) == Release(p, deps)
      {
        ReleaseInPieces(state, deps, i);
        ReleaseDependent(task.dependentTasks[i]);
      }
      SignalTask(task);
    }

    method MarkCanceling(task: PooledTask)
      requires Valid() && Known(task)
      modifies `state, task`canceling
      ensures Valid() && state == old(state).(canceling := old(state).canceling + {task.id})
    {
      assert forall k :: k in all && k != task.id ==> all[k] != task;
      task.canceling := true;
      state := state.(canceling := state.canceling + {task.id});
      assert Canceling() == old(Canceling()) + {task.id};
    }

    method EraseTask(i: nat)
      requires Valid() && i < |tasks|
      modifies `tasks, `state
      ensures Valid() && state == old(state).(tasks := old(state).tasks[..i] + old(state).tasks[i + 1..])
    {
      tasks := tasks[..i] + tasks[i + 1..];
      state := state.(tasks := state.tasks[..i] + state.tasks[i + 1..]);
      assert Ids(tasks) == state.tasks;
      assert Lists() == old(Lists()) && Canceling() == old(Canceling()) && Completed() == old(Completed());
    }

    /** Finds the task in the deque, reports it and takes it out of the deque, which may have grown by then. */
    method CancelReady(id: Id)
      requires Valid()
      modifies this, all.Values
      ensures Valid() && all == old(all)
      ensures state == if id in old(state).tasks then
        Complete(old(state), id).(tasks := Without(Complete(old(state), id).tasks, id)) else old(state)
    {
      for i := 0 to |tasks|
        invariant Valid() && all == old(all) && state == old(state)
        invariant id !in state.tasks[..i]
      {
        assert tasks[i].id == state.tasks[i];
        if tasks[i].id == id {
          ReportTaskComplete(tasks[i]);
          CompleteAppends(old(state), id);
          assert state.tasks[..i] == old(state).tasks[..i];
          FirstIndex(state.tasks, i, id);
          EraseTask(i);
          return;
        }
      }
    }

    method CancelTask(id: Id)
      requires Valid()
      modifies this, all.Values
      ensures Valid() && all == old(all) && state == Cancel(old(state), id)
    {
      if id in executing {
        MarkCanceling(executing[id]);
        return;
      }
      if id in delaying {
        ReportTaskComplete(delaying[id]);
        EraseDelaying(id);
      }
      if id in tasksSearch {
        ReportTaskComplete(tasksSearch[id]);
        EraseSearch(id);
      }
      CancelReady(id);
    }

    method InsertExecuting(t: PooledTask)
      requires Valid() && Known(t)
      modifies `executing, `state
      ensures Valid() && state == old(state).(executing := old(state).executing + {t.id})
    {
      executing := executing[t.id := t];
      state := state.(executing := state.executing + {t.id});
      assert executing.Keys == old(executing.Keys) + {t.id};
      assert Lists() == old(Lists()) && Canceling() == old(Canceling()) && Completed() == old(Completed());
    }

    method GetNextTask() returns (t: PooledTask?)
      requires Valid()
      modifies `tasks, `tasksSearch, `executing, `state
      ensures Valid() && state == GetNext(old(state))
      ensures t == null <==> old(state).suspended || old(state).tasks == []
      ensures t != null ==> Known(t) && t.id == Handed(old(state))
    {
      t := null;
      if !suspended && tasks != [] {
        t := tasks[0];
        assert t.id == state.tasks[0];
        EraseTask(0);
        assert old(state).tasks[..0] + old(state).tasks[1..] == old(state).tasks[1..];
        EraseSearch(t.id);
        InsertExecuting(t);
      }
    }

    method ReportTaskPaused(task: PooledTask, waitFor: Id)
      requires Valid() && Known(task)
      modifies this, all.Values
      ensures Valid() && all == old(all) && state == Pause(old(state), task.id, waitFor)
    {
      EraseExecuting(task.id);
      if waitFor != 0 {
        var after := FindTask(waitFor);
        if after != null {
          MakeDependent(task, after);
          return;
        }
      }
      MakeReady(task);
    }

    method Suspend()
      requires Valid()
      modifies `suspended, `state
      ensures Valid() && state == old(state).(suspended := true)
    {
      suspended := true;
      state := state.(suspended := true);
    }

    method Resume()
      requires Valid()
      modifies `suspended, `state
      ensures Valid() && state == old(state).(suspended := false)
    {
      suspended := false;
      state := state.(suspended := false);
    }
  }

  lemma ReleaseInPieces(p: TaskPoolModel.Pool, deps: seq<Id>, i: nat)
    requires i < |deps|
    ensures Release(p, deps[i..]) == Release(Release(p, [deps[i]]), deps[i + 1..])
  {
    assert deps[i..][1..] == deps[i + 1..] && deps[i..][0] == deps[i];
    assert [deps[i]][1..] == [];
  }

  lemma {:induction false} ReleaseAppends(p: TaskPoolModel.Pool, deps: seq<Id>)
    ensures p.tasks <= Release(p, deps).tasks
    decreases |deps|
  {
    if deps != [] {
      ReleaseAppends(if deps[0] in p.delaying then MakeReady(p.(delaying := p.delaying - {deps[0]}), deps[0]) else p, deps[1..]);
    }
  }

  lemma CompleteAppends(p: TaskPoolModel.Pool, id: Id)
    ensures p.tasks <= Complete(p, id).tasks
  {
    ReleaseAppends(p.(executing := p.executing - {id}), Dependents(p, id));
  }

  lemma FirstIndex(s: seq<Id>, i: nat, id: Id)
    requires i < |s| && s[i] == id && id !in s[..i]
    ensures IndexOf(s, id) == i
  {
    assert s[i] in s;
  }

  // ---- Workers ----

  class PooledThread {
    const pool: Pool
    var task: PooledTask?
    var executed: nat
    var completed: nat
    var failed: nat

    constructor (pool: Pool)
      ensures this.pool == pool && task == null && executed == completed == failed == 0
    {
      this.pool := pool;
      task, executed, completed, failed := null, 0, 0, 0;
    }

    method FetchTask()
      requires pool.Valid()
      modifies `task, pool
      ensures pool.Valid() && pool.state == GetNext(old(pool.state)) && pool.all == old(pool.all)
      ensures task != null <==> Handed(old(pool.state)) != 0
      ensures task != null ==> pool.Known(task) && task.id == Handed(old(pool.state)) && task.id in pool.state.executing
    {
      task := pool.GetNextTask();
    }

    method Report(complete: bool, waitFor: Id)
      requires pool.Valid() && task != null && pool.Known(task)
      modifies pool, pool.all.Values
      ensures pool.Valid()
      ensures pool.state == Step(old(pool.state), if complete then ReportComplete(task.id) else ReportPaused(task.id, waitFor))
    {
      if complete {
        pool.ReportTaskComplete(task);
      } else {
        pool.ReportTaskPaused(task, waitFor);
      }
    }

    /** One run of the task: the outcome of its exec is not up to the pool. */
    method FinishTask(outcome: Outcome, waitFor: Id)
      requires pool.Valid() && task != null && pool.Known(task)
      modifies `executed, `completed, `failed, pool, pool.all.Values
      ensures pool.Valid()
      ensures pool.state == Step(old(pool.state), Reported(task.id, outcome, task.id in old(pool.state).canceling, waitFor))
      ensures executed == old(executed) + 1
      ensures completed + failed == old(completed + failed) + (if IsComplete(outcome, task.id in old(pool.state).canceling) then 1 else 0)
      ensures completed == old(completed) + (if outcome == Finished then 1 else 0)
    {
      var complete := false;
      assert task.canceling <==> task.id in pool.Canceling();
      if outcome == Finished {
        completed := completed + 1;
        complete := true;
      } else if outcome == Threw || task.canceling {
        failed := failed + 1;
        complete := true;
      }
      executed := executed + 1;
      Report(complete, waitFor);
    }
  }

  // ---- Waiting for several tasks ----

  class TaskCompletionWaiter {
    const pool: Pool
    var waitList: seq<Id>

    constructor (pool: Pool, waitList: seq<Id>)
      ensures this.pool == pool && this.waitList == waitList
    {
      this.pool := pool;
      this.waitList := waitList;
    }

    method AddWaitId(id: Id)
      modifies this
      ensures waitList == old(waitList) + [id]
    {
      waitList := waitList + [id];
    }

    method Exec() returns (done: bool)
      requires pool.Valid()
      modifies this
      ensures waitList == ExecLeaves(pool.state, old(waitList))
      ensures done <==> waitList == []
    {
      while waitList != []
        invariant ExecLeaves(pool.state, waitList) == ExecLeaves(pool.state, old(waitList))
        decreases |waitList|
      {
        var found := pool.DoesTaskExist(waitList[0]);
        if found {
          return false;
        }
        waitList := waitList[1..];
      }
      return true;
    }

    method NeedToWaitFor() returns (id: Id)
      ensures id == Head(waitList)
    {
      id := if waitList != [] then waitList[0] else 0;
    }

    /** A run of the waiter by the worker that holds it: done, or paused until the first listed task has left. */
    method RunBy(thread: PooledThread) returns (done: bool)
      requires thread.pool == pool && pool.Valid() && thread.task != null && pool.Known(thread.task)
      modifies this, thread`executed, thread`completed, thread`failed, pool, pool.all.Values
      ensures pool.Valid() && waitList == ExecLeaves(old(pool.state), old(waitList)) && (done <==> waitList == [])
      ensures pool.state == Step(old(pool.state),
        Reported(thread.task.id, if done then Finished else Unfinished, thread.task.id in old(pool.state).canceling, Head(waitList)))
    {
      done := Exec();
      var waitFor := NeedToWaitFor();
      thread.FinishTask(if done then Finished else Unfinished, waitFor);
    }
  }
}
