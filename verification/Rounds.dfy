/** The strategy-driven scheduler: it generates a round while running it, runs other
    interleavings of the same round, and replays a given one. */
module Rounds {
  import opened Histories
  import opened Tasks
  import opened Playback
  import LincheckRecursive

  /** The resumptions of a run, and the invokes and responses the checker sees. */
  datatype BothHistories = BothHistories(full: Ordering, sequential: History)

  // ---- How far tasks are from returning ----

  ghost function Left(target: Target, task: Task): nat {
    if Returned(target, task) then 0 else target.fuel(task.local)
  }

  ghost function ThreadLeft(target: Target): seq<Task> -> nat {
    thread => ThreadSum(target, thread)
  }

  ghost function ThreadSum(target: Target, thread: seq<Task>): nat {
    if thread == [] then 0 else Left(target, thread[0]) + ThreadSum(target, thread[1..])
  }

  ghost function TotalLeft(target: Target, threads: Threads): nat {
    Sum(threads, ThreadLeft(target))
  }

  lemma {:induction false} ThreadSumUpdate(target: Target, thread: seq<Task>, i: nat, task: Task)
    requires i < |thread|
    ensures ThreadSum(target, thread[i := task]) ==
              ThreadSum(target, thread) - Left(target, thread[i]) + Left(target, task)
  {
    if i == 0 {
      assert thread[0 := task][1..] == thread[1..];
    } else {
      assert thread[i := task][1..] == thread[1..][i - 1 := task];
      ThreadSumUpdate(target, thread[1..], i - 1, task);
    }
  }

  lemma TotalLeftUpdate(target: Target, threads: Threads, ref: TaskRef, task: Task)
    requires InThreads(threads, ref)
    ensures TotalLeft(target, SetTask(threads, ref, task)) ==
              TotalLeft(target, threads) - Left(target, TaskAt(threads, ref)) + Left(target, task)
  {
    ThreadSumUpdate(target, threads[ref.thread], ref.index, task);
    SumUpdate(threads, ThreadLeft(target), ref.thread, threads[ref.thread][ref.index := task]);
  }

  // ---- Task ids ----

  ghost predicate UniqueIds(threads: Threads) {
    forall a, b :: InThreads(threads, a) && InThreads(threads, b) && a != b ==>
      TaskAt(threads, a).id != TaskAt(threads, b).id
  }

  predicate Kept(threads: Threads, removed: set<int>, ref: TaskRef) {
    InThreads(threads, ref) && TaskAt(threads, ref).id !in removed
  }

  lemma SameShapeIds(a: Threads, b: Threads)
    requires SameShape(a, b)
    ensures forall ref :: InThreads(a, ref) <==> InThreads(b, ref)
    ensures forall ref :: InThreads(a, ref) ==> ShapeOf(TaskAt(a, ref)) == ShapeOf(TaskAt(b, ref))
    ensures UniqueIds(a) <==> UniqueIds(b)
    ensures forall removed, ref :: Kept(a, removed, ref) <==> Kept(b, removed, ref)
  {
    forall ref | InThreads(a, ref) ensures InThreads(b, ref) && ShapeOf(TaskAt(a, ref)) == ShapeOf(TaskAt(b, ref)) {
      assert ShapeOf(a[ref.thread][ref.index]) == ShapeOf(b[ref.thread][ref.index]);
    }
    forall ref | InThreads(b, ref) ensures InThreads(a, ref) {
    }
  }

  // ---- A run in progress ----

  /** Target and tasks are where playing `order` from a restart leads; removed tasks take no part. */
  ghost predicate Playing(target: Target, threads: Threads, state: Shared, removed: set<int>,
                          order: Ordering, h: History)
  {
    && Within(threads, order)
    && (forall ref :: ref in order ==> Kept(threads, removed, ref))
    && var p := PlayAll(target, Fresh(target, threads), order);
       && state == p.state
       && h == p.history
       && (forall ref :: Kept(threads, removed, ref) ==> TaskAt(threads, ref).local == p.locals[ref])
  }

  lemma PlayingResumed(target: Target, threads: Threads, state: Shared, removed: set<int>,
                       order: Ordering, h: History, ref: TaskRef)
    requires Playing(target, threads, state, removed, order, h)
    requires Kept(threads, removed, ref) && !Returned(target, TaskAt(threads, ref))
    ensures var task := TaskAt(threads, ref);
            var (next, local) := target.step(state, task.local);
            Playing(target, SetTask(threads, ref, task.(local := local)), next, removed, order + [ref],
                    Answered(target, Invoked(h, ref !in order, ref), ref, local))
  {
    hide PlayAll, Answered, Invoked, SameShape, UniqueIds, Fresh;
    var task := TaskAt(threads, ref);
    var (next, local) := target.step(state, task.local);
    var after := SetTask(threads, ref, task.(local := local));
    SetTaskShape(threads, ref, task.(local := local));
    SameShapeIds(after, threads);
    FreshSameShape(target, after, threads);
    PlayedOn(target, Fresh(target, threads), order, ref);
    SetTaskOthers(threads, ref, task.(local := local));
  }

  lemma PlayedOn(target: Target, locals: Locals, order: Ordering, ref: TaskRef)
    requires ref in locals && forall r :: r in order ==> r in locals
    requires target.returned(PlayAll(target, locals, order).locals[ref]).None?
    ensures forall r :: r in order + [ref] ==> r in locals
    ensures var p := PlayAll(target, locals, order);
            var step := target.step(p.state, p.locals[ref]);
            PlayAll(target, locals, order + [ref])
              == Play(step.0, p.locals[ref := step.1],
                      Answered(target, Invoked(p.history, ref !in order, ref), ref, step.1), p.started + {ref})
  {
    PlayNext(target, locals, order, ref);
  }

  lemma SetTaskOthers(threads: Threads, ref: TaskRef, task: Task)
    requires InThreads(threads, ref)
    ensures var after := SetTask(threads, ref, task);
            InThreads(after, ref) && TaskAt(after, ref) == task
            && forall r :: InThreads(after, r) && r != ref ==>
                InThreads(threads, r) && TaskAt(after, r) == TaskAt(threads, r)
  {
  }

  lemma PlayingSkipped(target: Target, threads: Threads, state: Shared, removed: set<int>,
                       order: Ordering, h: History, ref: TaskRef)
    requires Playing(target, threads, state, removed, order, h)
    requires Kept(threads, removed, ref) && Returned(target, TaskAt(threads, ref))
    ensures Playing(target, threads, state, removed, order + [ref], Invoked(h, ref !in order, ref))
  {
    PlayNext(target, Fresh(target, threads), order, ref);
  }

  lemma SetTaskShape(threads: Threads, ref: TaskRef, task: Task)
    requires InThreads(threads, ref) && ShapeOf(task) == ShapeOf(TaskAt(threads, ref))
    ensures SameShape(SetTask(threads, ref, task), threads)
  {
  }

  lemma FreshSameShape(target: Target, a: Threads, b: Threads)
    requires SameShape(a, b)
    ensures Fresh(target, a) == Fresh(target, b)
  {
    SameShapeIds(a, b);
  }

  /** A newly built task does not disturb the run. */
  lemma PlayingGrown(target: Target, threads: Threads, state: Shared, removed: set<int>,
                     order: Ordering, h: History, t: nat, task: Task)
    requires Playing(target, threads, state, removed, order, h)
    requires t < |threads| && task == Renewed(target, task)
    ensures Playing(target, threads[t := threads[t] + [task]], state, removed, order, h)
  {
    var grown := threads[t := threads[t] + [task]];
    assert forall ref :: InThreads(threads, ref) ==>
      InThreads(grown, ref) && TaskAt(grown, ref) == TaskAt(threads, ref);
    PlayAgrees(target, Fresh(target, threads), Fresh(target, grown), Refs(threads), order);
    forall ref | Kept(grown, removed, ref)
      ensures TaskAt(grown, ref).local == PlayAll(target, Fresh(target, grown), order).locals[ref]
    {
      if InThreads(threads, ref) {
        assert Kept(threads, removed, ref);
      } else {
        assert ref == TaskRef(t, |threads[t]|) && TaskAt(grown, ref) == task;
        PlayUntouched(target, Fresh(target, grown), order, ref);
      }
    }
  }

  /** The state right after a reset. */
  lemma PlayingNothing(target: Target, threads: Threads, removed: set<int>)
    requires forall ref :: Kept(threads, removed, ref) ==> TaskAt(threads, ref) == Renewed(target, TaskAt(threads, ref))
    ensures Playing(target, threads, target.reset, removed, [], [])
  {
  }

  /** The checker's verdict on a run is the verdict on playing its ordering. */
  lemma PlayingVerdict(spec: Spec, target: Target, threads: Threads, state: Shared, removed: set<int>,
                       order: Ordering, h: History)
    requires target.Valid() && Playing(target, threads, state, removed, order, h)
    ensures WellFormed(h, TableOf(target, threads))
    ensures Linearizable(spec, TableOf(target, threads), h) <==> !Rejects(spec, target, threads, order)
  {
    PlayedWellFormed(target, threads, order);
    var played, table := PlayedTable(target, threads, order), TableOf(target, threads);
    forall i | 0 <= i < |h| ensures h[i].task in played && h[i].task in table && played[h[i].task] == table[h[i].task] {
      assert h[i].task in order && Kept(threads, removed, h[i].task);
    }
    assert TablesAgree(h, played, table);
    LinearizableAgree(spec, played, table, h);
  }

  /** Replay fidelity: two runs of the same ordering over the same tasks, however they came about, have
      the same history and leave the target and every kept task, return value included, the same. */
  lemma PlayingDetermined(target: Target, a: Threads, stateA: Shared, removedA: set<int>, ha: History,
                          b: Threads, stateB: Shared, removedB: set<int>, hb: History, order: Ordering)
    requires SameShape(a, b)
    requires Playing(target, a, stateA, removedA, order, ha) && Playing(target, b, stateB, removedB, order, hb)
    ensures ha == hb && stateA == stateB
    ensures forall ref :: ref in order ==> TaskAt(a, ref) == TaskAt(b, ref)
  {
    FreshSameShape(target, a, b);
    SameShapeIds(a, b);
  }

  // ---- One thread's operations do not overlap ----

  ghost predicate Sequential(h: History) {
    forall i, j :: 0 <= i < j < |h| && h[i].Invoke? && h[j].Invoke? && h[i].task.thread == h[j].task.thread ==>
      Precedes(h, i, j)
  }

  lemma SequentialInvoked(h: History, ref: TaskRef)
    requires Sequential(h)
    requires forall i :: 0 <= i < |h| && h[i].Invoke? && h[i].task.thread == ref.thread ==> Completed(h, i)
    ensures Sequential(h + [Invoke(ref)])
  {
    var longer := h + [Invoke(ref)];
    forall i, j | 0 <= i < j < |longer| && longer[i].Invoke? && longer[j].Invoke?
                  && longer[i].task.thread == longer[j].task.thread
      ensures Precedes(longer, i, j)
    {
      assert h[i] == longer[i];
      if j < |h| {
        assert Precedes(h, i, j);
        var r :| Answers(h, i, r) && r < j;
        assert Answers(longer, i, r);
      } else {
        assert Completed(h, i);
        var r :| Answers(h, i, r);
        assert Answers(longer, i, r);
      }
    }
  }

  lemma SequentialAnswered(target: Target, h: History, ref: TaskRef, local: Local)
    requires Sequential(h)
    ensures Sequential(Answered(target, h, ref, local))
  {
    var longer := Answered(target, h, ref, local);
    assert forall i, r :: Answers(h, i, r) ==> Answers(longer, i, r);
    forall i, j | 0 <= i < j < |longer| && longer[i].Invoke? && longer[j].Invoke?
                  && longer[i].task.thread == longer[j].task.thread
      ensures Precedes(longer, i, j)
    {
      assert h[i] == longer[i] && h[j] == longer[j] && Precedes(h, i, j);
    }
  }

  /** In a faithful history, an operation is completed once its task has returned. */
  lemma ReturnedCompleted(target: Target, p: Play, i: int)
    requires Faithful(target, p) && Operation(p.history, i)
    requires target.returned(p.locals[p.history[i].task]).Some?
    ensures Completed(p.history, i)
  {
    var ref := p.history[i].task;
    assert ref in p.started;
    var v := target.returned(p.locals[ref]).value;
    assert Response(ref, v) in p.history;
    var r :| 0 <= r < |p.history| && p.history[r] == Response(ref, v);
    assert Answers(p.history, i, r);
  }

  /** Starting a task in a thread whose earlier tasks have all returned keeps the thread sequential. */
  lemma SequentialStart(target: Target, threads: Threads, state: Shared, removed: set<int>,
                        order: Ordering, h: History, ref: TaskRef)
    requires target.Valid() && Playing(target, threads, state, removed, order, h) && Sequential(h)
    requires forall r :: r in order && r.thread == ref.thread ==> Returned(target, TaskAt(threads, r))
    ensures Sequential(h + [Invoke(ref)])
  {
    PlayFaithful(target, Fresh(target, threads), order);
    var p := PlayAll(target, Fresh(target, threads), order);
    forall i | 0 <= i < |h| && h[i].Invoke? && h[i].task.thread == ref.thread ensures Completed(h, i) {
      assert h[i].task in order && Kept(threads, removed, h[i].task);
      ReturnedCompleted(target, p, i);
    }
    SequentialInvoked(h, ref);
  }

  ghost function Responses(h: History): nat {
    if h == [] then 0 else Responses(h[..|h| - 1]) + if h[|h| - 1].Response? then 1 else 0
  }

  lemma ResponsesRecorded(target: Target, h: History, isNew: bool, ref: TaskRef, local: Local)
    ensures Responses(Answered(target, Invoked(h, isNew, ref), ref, local)) ==
              Responses(h) + if target.returned(local).Some? then 1 else 0
  {
    assert (h + [Invoke(ref)])[..|h|] == h;
    var invoked := Invoked(h, isNew, ref);
    if target.returned(local).Some? {
      assert Answered(target, invoked, ref, local)[..|invoked|] == invoked;
    }
  }

  // ---- Running a round ends: every step uses up what its tasks have left ----

  ghost function Slack(target: Target): seq<Task> -> nat {
    (thread: seq<Task>) => if Busy(target, thread) then target.fuel(thread[|thread| - 1].local) else target.bound + 1
  }

  ghost function RoundLeft(target: Target, threads: Threads, tasksLeft: nat): nat {
    tasksLeft * (target.bound + 2) + Sum(threads, Slack(target))
  }

  lemma RoundLeftResumed(target: Target, threads: Threads, ref: TaskRef, task: Task, tasksLeft: nat)
    requires target.Valid() && InThreads(threads, ref) && ref.index == |threads[ref.thread]| - 1
    requires !Returned(target, TaskAt(threads, ref)) && tasksLeft > 0
    requires target.fuel(task.local) < target.fuel(TaskAt(threads, ref).local)
    ensures RoundLeft(target, SetTask(threads, ref, task), if Returned(target, task) then tasksLeft - 1 else tasksLeft)
              < RoundLeft(target, threads, tasksLeft)
  {
    var row := threads[ref.thread];
    SumUpdate(threads, Slack(target), ref.thread, row[ref.index := task]);
    assert tasksLeft * (target.bound + 2) == (tasksLeft - 1) * (target.bound + 2) + (target.bound + 2);
  }

  lemma RoundLeftStarted(target: Target, threads: Threads, t: nat, task: Task, tasksLeft: nat)
    requires target.Valid() && t < |threads| && !Busy(target, threads[t]) && task == Renewed(target, task)
    ensures RoundLeft(target, threads[t := threads[t] + [task]], tasksLeft) < RoundLeft(target, threads, tasksLeft)
  {
    SumUpdate(threads, Slack(target), t, threads[t] + [task]);
  }

  /** Everything before a thread's scheduled task is over, and nothing after it has been invoked. */
  ghost predicate ScheduledOn(target: Target, threads: Threads, removed: set<int>, schedule: seq<int>,
                              order: Ordering)
  {
    && |schedule| == |threads|
    && (forall t :: 0 <= t < |threads| ==> -1 <= schedule[t] <= |threads[t]|)
    && (forall ref :: Kept(threads, removed, ref) ==>
          && (ref.index < schedule[ref.thread] ==> Returned(target, TaskAt(threads, ref)))
          && (ref in order <==> ref.index <= schedule[ref.thread])
          && (ref !in order ==> !Returned(target, TaskAt(threads, ref))))
    && (forall ref :: ref in order ==> Kept(threads, removed, ref))
  }

  lemma ScheduledResumed(target: Target, threads: Threads, removed: set<int>, schedule: seq<int>, order: Ordering,
                         ref: TaskRef, task: Task)
    requires ScheduledOn(target, threads, removed, schedule, order)
    requires Kept(threads, removed, ref) && ref in order && ref.index == schedule[ref.thread]
    requires ShapeOf(task) == ShapeOf(TaskAt(threads, ref))
    ensures ScheduledOn(target, SetTask(threads, ref, task), removed, schedule, order)
  {
    var after := SetTask(threads, ref, task);
    SetTaskOthers(threads, ref, task);
    SetTaskShape(threads, ref, task);
    SameShapeIds(after, threads);
  }

  lemma ScheduledReset(target: Target, threads: Threads, removed: set<int>, schedule: seq<int>)
    requires |schedule| == |threads| && forall t :: 0 <= t < |schedule| ==> schedule[t] == -1
    requires forall ref :: Kept(threads, removed, ref) ==> !Returned(target, TaskAt(threads, ref))
    ensures ScheduledOn(target, threads, removed, schedule, [])
  {
  }

  class RoundScheduler {
    const target: Target
    const builders: seq<Builder>
    const spec: Spec

    var threads: Threads
    var state: Shared
    var removedTasks: set<int>
    var roundSchedule: seq<int>
    var newTaskId: nat

    ghost predicate Valid()
      reads this
    {
      && target.Valid()
      && builders != []
      && |roundSchedule| == |threads| > 0
      && UniqueIds(threads)
      && forall ref :: InThreads(threads, ref) ==> 0 <= TaskAt(threads, ref).id < newTaskId
    }

    constructor (target: Target, builders: seq<Builder>, spec: Spec, threadCount: nat)
      requires target.Valid() && builders != [] && threadCount > 0
      ensures Valid() && NewRound() && removedTasks == {}
      ensures this.target == target && this.builders == builders && this.spec == spec && |threads| == threadCount
    {
      this.target, this.builders, this.spec := target, builders, spec;
      threads := seq(threadCount, _ => []);
      state := target.reset;
      removedTasks := {};
      roundSchedule := seq(threadCount, _ => -1);
      newTaskId := 0;
    }

    ghost predicate NewRound()
      reads this
    {
      state == target.reset && newTaskId == 0 && forall t :: 0 <= t < |threads| ==> threads[t] == []
    }

    /** Takes tasks out of the round, or back in. */
    method SetTasksRemoved(ids: set<int>, isRemoved: bool)
      requires Valid()
      modifies this`removedTasks
      ensures Valid()
      ensures removedTasks == if isRemoved then old(removedTasks) + ids else old(removedTasks) - ids
    {
      removedTasks := if isRemoved then removedTasks + ids else removedTasks - ids;
    }

    /** Runs a task to its next yield. */
    method Resume(ref: TaskRef)
      requires Valid() && InThreads(threads, ref) && !Returned(target, TaskAt(threads, ref))
      modifies this`state, this`threads
      ensures Valid() && SameShape(threads, old(threads))
      ensures var task := TaskAt(old(threads), ref);
              state == target.step(old(state), task.local).0
              && threads == SetTask(old(threads), ref, task.(local := target.step(old(state), task.local).1))
      ensures TotalLeft(target, threads) < TotalLeft(target, old(threads))
    {
      var task := TaskAt(threads, ref);
      var (next, local) := target.step(state, task.local);
      TotalLeftUpdate(target, threads, ref, task.(local := local));
      SetTaskShape(threads, ref, task.(local := local));
      SameShapeIds(SetTask(threads, ref, task.(local := local)), threads);
      state := next;
      threads := SetTask(threads, ref, task.(local := local));
    }

    /** Runs all tasks until they have returned, one step per thread at a time, then resets the target. */
    method TerminateTasks()
      requires Valid()
      modifies this`state, this`threads, this`roundSchedule
      ensures Valid() && SameShape(threads, old(threads)) && state == target.reset
      ensures forall ref :: InThreads(threads, ref) ==> Returned(target, TaskAt(threads, ref))
      ensures forall t :: 0 <= t < |roundSchedule| ==> roundSchedule[t] == -1
    {
      roundSchedule := seq(|roundSchedule|, _ => -1);
      var taskIndexes: seq<nat> := seq(|threads|, _ => 0);
      var hasNonterminated := true;
      while hasNonterminated
        invariant Valid() && SameShape(threads, old(threads)) && Finished(taskIndexes)
        invariant !hasNonterminated ==> forall t :: 0 <= t < |threads| ==> taskIndexes[t] == |threads[t]|
        decreases TotalLeft(target, threads), if hasNonterminated then 1 else 0
        modifies this`state, this`threads
      {
        hasNonterminated := false;
        ghost var before := TotalLeft(target, threads);
        for t := 0 to |threads|
          invariant Valid() && SameShape(threads, old(threads)) && |threads| == |old(threads)|
          invariant Finished(taskIndexes)
          invariant if hasNonterminated then TotalLeft(target, threads) < before
                    else TotalLeft(target, threads) == before
          invariant !hasNonterminated ==> forall u :: 0 <= u < t ==> taskIndexes[u] == |threads[u]|
          modifies this`state, this`threads
        {
          var resumed;
          taskIndexes, resumed := TerminateStep(t, taskIndexes);
          hasNonterminated := hasNonterminated || resumed;
        }
      }
      AllFinished(taskIndexes);
      state := target.reset;
    }

    /** Finds the thread's first unfinished task and resumes it once. */
    method TerminateStep(t: nat, taskIndexes: seq<nat>) returns (next: seq<nat>, resumed: bool)
      requires Valid() && Finished(taskIndexes) && t < |threads|
      modifies this`state, this`threads
      ensures Valid() && Finished(next) && SameShape(threads, old(threads))
      ensures forall u :: 0 <= u < |threads| && u != t ==> next[u] == taskIndexes[u]
      ensures if resumed then TotalLeft(target, threads) < TotalLeft(target, old(threads)) else threads == old(threads)
      ensures !resumed ==> next[t] == |threads[t]|
    {
      next := taskIndexes;
      while next[t] < |threads[t]| && Returned(target, threads[t][next[t]])
        invariant Finished(next)
        invariant forall u :: 0 <= u < |threads| && u != t ==> next[u] == taskIndexes[u]
        decreases |threads[t]| - next[t]
      {
        next := next[t := next[t] + 1];
      }
      resumed := next[t] < |threads[t]|;
      if resumed {
        ghost var before := threads;
        Resume(TaskRef(t, next[t]));
        assert forall u, i :: 0 <= u < |threads| && 0 <= i < next[u] ==> threads[u][i] == before[u][i];
      } else {
        SameShapeIds(threads, threads);
      }
    }

    lemma AllFinished(taskIndexes: seq<nat>)
      requires Finished(taskIndexes) && forall t :: 0 <= t < |threads| ==> taskIndexes[t] == |threads[t]|
      ensures forall ref :: InThreads(threads, ref) ==> Returned(target, TaskAt(threads, ref))
    {
    }

    ghost predicate Finished(taskIndexes: seq<nat>)
      reads this
    {
      && |taskIndexes| == |threads|
      && (forall t :: 0 <= t < |threads| ==> taskIndexes[t] <= |threads[t]|)
      && (forall t, i :: 0 <= t < |threads| && 0 <= i < taskIndexes[t] ==> Returned(target, threads[t][i]))
    }

    /** Restarts every task of the round that is not removed. */
    method ResetCurrentRound()
      requires Valid()
      modifies this`state, this`threads, this`roundSchedule
      ensures Valid() && SameShape(threads, old(threads))
      ensures Playing(target, threads, state, removedTasks, [], [])
      ensures forall t :: 0 <= t < |roundSchedule| ==> roundSchedule[t] == -1
      ensures forall ref :: Kept(threads, removedTasks, ref) ==> !Returned(target, TaskAt(threads, ref))
    {
      TerminateTasks();
      for t := 0 to |threads|
        invariant Valid() && SameShape(threads, old(threads)) && |threads| == |old(threads)|
        invariant forall ref :: Kept(threads, removedTasks, ref) && ref.thread < t ==> Restarted(ref)
        invariant ReturnedFrom(t, 0)
        modifies this`threads
      {
        for i := 0 to |threads[t]|
          invariant Valid() && SameShape(threads, old(threads))
          invariant |threads| == |old(threads)| && |threads[t]| == |old(threads)[t]|
          invariant forall ref :: Kept(threads, removedTasks, ref) ==>
                      ref.thread < t || (ref.thread == t && ref.index < i) ==> Restarted(ref)
          invariant ReturnedFrom(t, i)
          modifies this`threads
        {
          var ref := TaskRef(t, i);
          if TaskAt(threads, ref).id !in removedTasks {
            RestartTask(ref);
          }
        }
      }
      PlayingNothing(target, threads, removedTasks);
    }

    method RestartTask(ref: TaskRef)
      requires Valid() && InThreads(threads, ref) && Returned(target, TaskAt(threads, ref))
      modifies this`threads
      ensures Valid() && SameShape(threads, old(threads))
      ensures |threads| == |old(threads)| && |threads[ref.thread]| == |old(threads)[ref.thread]|
      ensures InThreads(threads, ref) && Restarted(ref)
      ensures forall r :: InThreads(threads, r) && r != ref ==>
                InThreads(old(threads), r) && TaskAt(threads, r) == TaskAt(old(threads), r)
    {
      var task := Restart(target, TaskAt(threads, ref));
      SetTaskShape(threads, ref, task);
      SameShapeIds(SetTask(threads, ref, task), threads);
      SetTaskOthers(threads, ref, task);
      threads := SetTask(threads, ref, task);
    }

    /** The tasks from the given one on have returned. */
    ghost predicate ReturnedFrom(thread: nat, index: nat)
      reads this
    {
      forall ref :: InThreads(threads, ref) && (ref.thread > thread || (ref.thread == thread && ref.index >= index)) ==>
        Returned(target, TaskAt(threads, ref))
    }

    ghost predicate Restarted(ref: TaskRef)
      requires InThreads(threads, ref)
      reads this
    {
      TaskAt(threads, ref) == Renewed(target, TaskAt(threads, ref))
    }

    /** Resumes a task and records what the checker has to know about it. */
    method ResumeRecorded(ref: TaskRef, isNew: bool, ghost order: Ordering, h: History)
      returns (next: History, returned: bool)
      requires Valid() && Playing(target, threads, state, removedTasks, order, h)
      requires Kept(threads, removedTasks, ref) && !Returned(target, TaskAt(threads, ref))
      requires isNew == (ref !in order)
      requires Sequential(h)
      requires isNew ==> forall r :: r in order && r.thread == ref.thread ==> Returned(target, TaskAt(threads, r))
      modifies this`state, this`threads
      ensures Valid() && SameShape(threads, old(threads))
      ensures InThreads(threads, ref) && threads == SetTask(old(threads), ref, TaskAt(threads, ref))
      ensures target.fuel(TaskAt(threads, ref).local) < target.fuel(TaskAt(old(threads), ref).local)
      ensures TotalLeft(target, threads) < TotalLeft(target, old(threads))
      ensures Playing(target, threads, state, removedTasks, order + [ref], next) && Sequential(next)
      ensures returned == Returned(target, TaskAt(threads, ref))
      ensures Responses(next) == Responses(h) + if returned then 1 else 0
    {
      hide Playing, Sequential, SameShape;
      var invoked := h;
      if isNew {
        SequentialStart(target, threads, state, removedTasks, order, h, ref);
        invoked := h + [Invoke(ref)];
      }
      PlayingResumed(target, threads, state, removedTasks, order, h, ref);
      Resume(ref);
      var task := TaskAt(threads, ref);
      returned := Returned(target, task);
      next := invoked;
      if returned {
        next := invoked + [Response(ref, target.returned(task.local).value)];
      }
      SequentialAnswered(target, invoked, ref, task.local);
      ResponsesRecorded(target, h, isNew, ref, task.local);
    }

    /** Picks a thread; if its last task has returned, a new one is built there. */
    method Next() returns (ref: TaskRef, isNew: bool)
      requires Valid()
      modifies this`threads, this`newTaskId
      ensures Valid() && InThreads(threads, ref) && ref.index == |threads[ref.thread]| - 1
      ensures !Returned(target, TaskAt(threads, ref))
      ensures isNew ==> TaskAt(threads, ref) == Renewed(target, TaskAt(threads, ref))
      ensures isNew ==> Made(builders, TaskAt(threads, ref), ref.thread)
      ensures isNew ==> TaskAt(threads, ref).id == old(newTaskId) && newTaskId == old(newTaskId) + 1
      ensures !isNew ==> newTaskId == old(newTaskId)
      ensures isNew ==> ref.thread < |old(threads)| && !Busy(target, old(threads)[ref.thread])
                        && threads == old(threads)[ref.thread := old(threads)[ref.thread] + [TaskAt(threads, ref)]]
      ensures !isNew ==> threads == old(threads)
    {
      var thread: nat :| thread < |threads|;
      if !Busy(target, threads[thread]) {
        var builder: nat :| builder < |builders|;
        var task := Build(target, builders[builder], thread, newTaskId);
        newTaskId := newTaskId + 1;
        assert MadeBy(task, builders[builder], thread);
        ref, isNew := TaskRef(thread, |threads[thread]|), true;
        threads := threads[thread := threads[thread] + [task]];
        assert forall r :: InThreads(threads, r) && r != ref ==>
                 InThreads(old(threads), r) && TaskAt(threads, r) == TaskAt(old(threads), r);
      } else {
        ref, isNew := TaskRef(thread, |threads[thread]| - 1), false;
      }
    }

    /** In every thread only the last task may still be running, and every task has been invoked. */
    ghost predicate Generated(order: Ordering)
      reads this
    {
      && (forall ref :: InThreads(threads, ref) ==> ref in order)
      && (forall ref :: InThreads(threads, ref) && ref.index < |threads[ref.thread]| - 1 ==>
          Returned(target, TaskAt(threads, ref)))
    }

    lemma StartedMade(before: Threads, ref: TaskRef)
      requires ref.thread < |before| && InThreads(threads, ref) && ref.index == |before[ref.thread]|
      requires threads == before[ref.thread := before[ref.thread] + [TaskAt(threads, ref)]]
      requires AllMade(builders, before) && Made(builders, TaskAt(threads, ref), ref.thread)
      ensures AllMade(builders, threads)
    {
      forall r | InThreads(threads, r) ensures Made(builders, TaskAt(threads, r), r.thread) {
        if r != ref { assert InThreads(before, r) && TaskAt(threads, r) == TaskAt(before, r); }
      }
    }

    lemma StillMade(before: Threads)
      requires SameShape(threads, before) && AllMade(builders, before)
      ensures AllMade(builders, threads)
    {
      SameShapeSymmetric(threads, before);
      SameShapeMade(builders, before, threads);
    }

    /** One step of a generated round. */
    method RoundStep(ghost order: Ordering, h: History, ghost tasksLeft: nat)
      returns (ref: TaskRef, next: History, returned: bool)
      requires Valid() && Playing(target, threads, state, removedTasks, order, h) && removedTasks == {}
      requires Generated(order) && Playable(order) && Sequential(h) && tasksLeft > 0
      modifies this`threads, this`state, this`newTaskId
      ensures Valid() && |threads| == |old(threads)|
      ensures Playing(target, threads, state, removedTasks, order + [ref], next)
      ensures Generated(order + [ref]) && Playable(order + [ref]) && Sequential(next)
      ensures Responses(next) == Responses(h) + if returned then 1 else 0
      ensures AllMade(builders, old(threads)) ==> AllMade(builders, threads)
      ensures RoundLeft(target, threads, if returned then tasksLeft - 1 else tasksLeft)
                < RoundLeft(target, old(threads), tasksLeft)
    {
      hide Playing, Sequential, SameShape, RoundLeft, AllMade, Made;
      ghost var before := threads;
      var isNew;
      ref, isNew := Next();
      ghost var started := threads;
      if isNew && AllMade(builders, before) { StartedMade(before, ref); }
      if isNew {
        PlayingGrown(target, before, state, removedTasks, order, h, ref.thread, TaskAt(threads, ref));
        RoundLeftStarted(target, before, ref.thread, TaskAt(threads, ref), tasksLeft);
        GrownRound(target, before, started, ref, order);
      }
      next, returned := ResumeRecorded(ref, isNew, order, h);
      if AllMade(builders, started) { StillMade(started); }
      RoundLeftResumed(target, started, ref, TaskAt(threads, ref), tasksLeft);
      SetTaskOthers(started, ref, TaskAt(threads, ref));
    }

    /** Asks the checker about a finished run. */
    method CheckRun(full: Ordering, sequential: History) returns (res: Option<BothHistories>)
      requires Valid() && Playing(target, threads, state, removedTasks, full, sequential)
      ensures Within(threads, full) && sequential == PlayedHistory(target, threads, full)
      ensures res == if Rejects(spec, target, threads, full) then Some(BothHistories(full, sequential)) else None
    {
      hide Playing, Rejects, PlayedHistory;
      PlayingPlayed(target, threads, state, removedTasks, full, sequential);
      PlayingVerdict(spec, target, threads, state, removedTasks, full, sequential);
      var ok := LincheckRecursive.Check(spec, TableOf(target, threads), sequential);
      res := if ok then None else Some(BothHistories(full, sequential));
    }

    /** Generates a round while running it, until `maxTasks` tasks have returned, and checks it. */
    method RunRound(maxTasks: nat) returns (res: Option<BothHistories>, ghost order: Ordering, ghost h: History)
      requires Valid() && NewRound() && removedTasks == {}
      modifies this`threads, this`state, this`newTaskId
      ensures Valid() && |threads| == |old(threads)| && Playing(target, threads, state, removedTasks, order, h)
      ensures Generated(order) && Sequential(h) && Responses(h) == maxTasks
      ensures AllMade(builders, threads)
      ensures res == if Rejects(spec, target, threads, order) then Some(BothHistories(order, h)) else None
    {
      hide Playing, Sequential, SameShape, Rejects;
      var sequential: History := [];
      var full: Ordering := [];
      var finishedTasks := 0;
      PlayingNothing(target, threads, removedTasks);
      EmptySequential();
      while finishedTasks < maxTasks
        invariant Valid() && |threads| == |old(threads)| && finishedTasks <= maxTasks
        invariant Playing(target, threads, state, removedTasks, full, sequential)
        invariant Generated(full) && Sequential(sequential) && Responses(sequential) == finishedTasks
        invariant Playable(full) && AllMade(builders, threads)
        decreases RoundLeft(target, threads, maxTasks - finishedTasks)
      {
        var ref, returned;
        ref, sequential, returned := RoundStep(full, sequential, maxTasks - finishedTasks);
        full := full + [ref];
        if returned {
          finishedTasks := finishedTasks + 1;
        }
      }
      res := CheckRun(full, sequential);
      order, h := full, sequential;
    }

    ghost predicate Playable(order: Ordering)
      reads this
    {
      forall ref :: ref in order ==> InThreads(threads, ref)
    }

    // ---- Other interleavings of the same round ----

    ghost predicate Scheduled(order: Ordering)
      reads this
    {
      ScheduledOn(target, threads, removedTasks, roundSchedule, order)
    }

    /** The thread's first task from its scheduled one on that is neither returned nor removed. */
    function NextIndex(thread: nat): (index: int)
      requires Valid() && thread < |threads|
      requires -1 <= roundSchedule[thread] <= |threads[thread]|
      reads this
      ensures roundSchedule[thread] <= index <= |threads[thread]| && 0 <= index
      ensures forall i :: 0 <= i < index && roundSchedule[thread] <= i ==> Over(TaskRef(thread, i))
      ensures index < |threads[thread]| ==> !Over(TaskRef(thread, index))
    {
      FirstOpen(thread, if roundSchedule[thread] == -1 then 0 else roundSchedule[thread])
    }

    function FirstOpen(thread: nat, from: nat): (index: int)
      requires thread < |threads| && from <= |threads[thread]|
      reads this
      ensures from <= index <= |threads[thread]|
      ensures forall i :: from <= i < index ==> Over(TaskRef(thread, i))
      ensures index < |threads[thread]| ==> !Over(TaskRef(thread, index))
      decreases |threads[thread]| - from
    {
      if from < |threads[thread]| && Over(TaskRef(thread, from)) then FirstOpen(thread, from + 1) else from
    }

    predicate Over(ref: TaskRef)
      requires InThreads(threads, ref)
      reads this
    {
      Returned(target, TaskAt(threads, ref)) || TaskAt(threads, ref).id in removedTasks
    }

    method GetNextTaskInThread(thread: nat) returns (index: int)
      requires Valid() && thread < |threads|
      requires -1 <= roundSchedule[thread] <= |threads[thread]|
      ensures index == NextIndex(thread)
    {
      index := roundSchedule[thread];
      while index < |threads[thread]| && (index == -1 || Over(TaskRef(thread, index)))
        invariant roundSchedule[thread] <= index <= |threads[thread]|
        invariant index == -1 || FirstOpen(thread, index) == NextIndex(thread)
        decreases |threads[thread]| - index
      {
        index := index + 1;
      }
    }

    ghost function Open(): (open: set<TaskRef>)
      reads this
      ensures forall ref :: ref in open <==> Kept(threads, removedTasks, ref) && !Returned(target, TaskAt(threads, ref))
    {
      set ref | ref in Refs(threads) && Kept(threads, removedTasks, ref) && !Returned(target, TaskAt(threads, ref))
    }

    ghost function KeptRefs(): (kept: set<TaskRef>)
      reads this
      ensures forall ref :: ref in kept <==> Kept(threads, removedTasks, ref)
    {
      set ref | ref in Refs(threads) && Kept(threads, removedTasks, ref)
    }

    method GetValidTasksCount() returns (count: nat)
      requires Valid()
      ensures count == |KeptRefs()|
    {
      count := 0;
      ghost var seen: set<TaskRef> := {};
      for t := 0 to |threads|
        invariant count == |seen|
        invariant forall ref :: ref in seen <==> Kept(threads, removedTasks, ref) && ref.thread < t
      {
        for i := 0 to |threads[t]|
          invariant count == |seen|
          invariant forall ref :: ref in seen <==>
                      Kept(threads, removedTasks, ref) && (ref.thread < t || (ref.thread == t && ref.index < i))
        {
          if threads[t][i].id !in removedTasks {
            count := count + 1;
            seen := seen + {TaskRef(t, i)};
          }
        }
      }
      assert seen == KeptRefs();
    }

    /** While some task is open, some thread can be picked; the pick advances that thread's schedule. */
    method NextSchedule(ghost order: Ordering) returns (ref: TaskRef, isNew: bool)
      requires Valid() && Scheduled(order) && Open() != {}
      modifies this`roundSchedule
      ensures Valid() && Kept(threads, removedTasks, ref) && !Returned(target, TaskAt(threads, ref))
      ensures isNew == (ref !in order)
      ensures isNew ==> forall r :: r in order && r.thread == ref.thread ==> Returned(target, TaskAt(threads, r))
      ensures Scheduled(order + [ref]) && roundSchedule[ref.thread] == ref.index
    {
      var thread := PickSchedule(order);
      var next := GetNextTaskInThread(thread);
      isNew := roundSchedule[thread] != next;
      ref := TaskRef(thread, next);
      assert !Over(ref);
      forall r | Kept(threads, removedTasks, r) && r.thread == thread && roundSchedule[thread] <= r.index < next
        ensures Returned(target, TaskAt(threads, r))
      {
        assert Over(TaskRef(thread, r.index));
      }
      roundSchedule := roundSchedule[thread := next];
    }

    /** Any thread with a task left to run may be picked, and there is one. */
    method PickSchedule(ghost order: Ordering) returns (thread: nat)
      requires Valid() && Scheduled(order) && Open() != {}
      ensures thread < |threads| && NextIndex(thread) < |threads[thread]|
    {
      SomeThreadIsOpen(order);
      thread :| thread < |threads| && NextIndex(thread) < |threads[thread]|;
    }

    lemma SomeThreadIsOpen(order: Ordering)
      requires Valid() && Scheduled(order) && Open() != {}
      ensures exists thread: nat :: thread < |threads| && NextIndex(thread) < |threads[thread]|
    {
      var ref :| ref in Open();
      assert !Over(TaskRef(ref.thread, ref.index));
      assert NextIndex(ref.thread) <= ref.index;
    }

    method ExploreStep(ghost order: Ordering, h: History, tasksToRun: nat)
      returns (ref: TaskRef, next: History, left: nat)
      requires Valid() && Playing(target, threads, state, removedTasks, order, h) && Sequential(h)
      requires Scheduled(order) && tasksToRun == |Open()| > 0
      modifies this`threads, this`state, this`roundSchedule
      ensures Valid() && SameShape(threads, old(threads)) && KeptRefs() == old(KeptRefs())
      ensures Playing(target, threads, state, removedTasks, order + [ref], next) && Sequential(next)
      ensures Scheduled(order + [ref]) && left == |Open()|
      ensures Responses(next) + left == Responses(h) + tasksToRun
      ensures TotalLeft(target, threads) < TotalLeft(target, old(threads))
    {
      hide Playing, Sequential, SameShape, ScheduledOn, UniqueIds, Responses, SetTask;
      ghost var before, open := threads, Open();
      var isNew;
      ref, isNew := NextSchedule(order);
      assert ref in open;
      var returned;
      next, returned := ResumeRecorded(ref, isNew, order, h);
      ghost var task := TaskAt(threads, ref);
      SameShapeIds(threads, before);
      ScheduledResumed(target, before, removedTasks, roundSchedule, order + [ref], ref, task);
      SetTaskOthers(before, ref, task);
      left := if returned then tasksToRun - 1 else tasksToRun;
      assert KeptRefs() == old(KeptRefs());
      OpenAfter(before, open, ref, task);
    }

    /** A resumed task leaves the open ones when it returns. */
    lemma OpenAfter(before: Threads, open: set<TaskRef>, ref: TaskRef, task: Task)
      requires InThreads(before, ref) && threads == SetTask(before, ref, task) && ref in open
      requires ShapeOf(task) == ShapeOf(TaskAt(before, ref))
      requires forall r :: r in open <==> Kept(before, removedTasks, r) && !Returned(target, TaskAt(before, r))
      ensures Open() == if Returned(target, task) then open - {ref} else open
    {
      SetTaskOthers(before, ref, task);
      SetTaskShape(before, ref, task);
      SameShapeIds(threads, before);
      hide SetTask, SameShape;
    }

    lemma NothingOpen(order: Ordering)
      requires Scheduled(order) && Open() == {}
      ensures forall ref :: Kept(threads, removedTasks, ref) <==> ref in order
      ensures forall ref :: Kept(threads, removedTasks, ref) ==> Returned(target, TaskAt(threads, ref))
    {
      forall ref | Kept(threads, removedTasks, ref) ensures Returned(target, TaskAt(threads, ref)) {
        assert ref !in Open();
      }
    }

    /** Runs all kept tasks of the round to completion in some order. */
    method ExploreOnce() returns (full: Ordering, sequential: History)
      requires Valid()
      modifies this`threads, this`state, this`roundSchedule
      ensures Valid() && SameShape(threads, old(threads))
      ensures Playing(target, threads, state, removedTasks, full, sequential) && Sequential(sequential)
      ensures forall ref :: Kept(threads, removedTasks, ref) <==> ref in full
      ensures forall ref :: Kept(threads, removedTasks, ref) ==> Returned(target, TaskAt(threads, ref))
      ensures Responses(sequential) == |KeptRefs()|
    {
      hide Playing, Sequential, SameShape, ScheduledOn;
      ResetCurrentRound();
      ScheduledReset(target, threads, removedTasks, roundSchedule);
      ghost var kept := KeptRefs();
      full, sequential := [], [];
      EmptySequential();
      var tasksToRun := GetValidTasksCount();
      assert KeptRefs() == Open();
      while tasksToRun > 0
        invariant Valid() && SameShape(threads, old(threads))
        invariant Playing(target, threads, state, removedTasks, full, sequential) && Sequential(sequential)
        invariant Scheduled(full) && tasksToRun == |Open()|
        invariant KeptRefs() == kept && Responses(sequential) + tasksToRun == |kept|
        decreases TotalLeft(target, threads)
      {
        ghost var before := threads;
        var ref;
        ref, sequential, tasksToRun := ExploreStep(full, sequential, tasksToRun);
        full := full + [ref];
        SameShapeTransitive(threads, before, old(threads));
      }
      NothingOpen(full);
    }

    /** Runs the kept tasks in up to `runs` other interleavings, until one is rejected. */
    method ExploreRound(runs: nat) returns (res: Option<BothHistories>, ghost accepted: seq<Ordering>)
      requires Valid()
      modifies this`threads, this`state, this`roundSchedule
      ensures Valid() && SameShape(threads, old(threads))
      ensures |accepted| <= runs && (res.None? ==> |accepted| == runs)
      ensures forall k :: 0 <= k < |accepted| ==> AcceptedRun(spec, target, old(threads), removedTasks, accepted[k])
      ensures res.Some? ==>
                && Playing(target, threads, state, removedTasks, res.value.full, res.value.sequential)
                && Rejects(spec, target, threads, res.value.full)
                && (forall ref :: Kept(threads, removedTasks, ref) <==> ref in res.value.full)
                && (forall ref :: Kept(threads, removedTasks, ref) ==> Returned(target, TaskAt(threads, ref)))
                && Sequential(res.value.sequential)
                && Responses(res.value.sequential) == |KeptRefs()|
                && |res.value.sequential| == |KeptRefs()| + |KeptRefs()|
    {
      hide Playing, Sequential, SameShape, Rejects;
      hide AcceptedRun;
      ghost var round := threads;
      SameShapeReflexive(threads);
      accepted := [];
      for i := 0 to runs
        invariant Valid() && SameShape(threads, round) && |accepted| == i
        invariant forall k :: 0 <= k < |accepted| ==> AcceptedRun(spec, target, round, removedTasks, accepted[k])
      {
        ghost var before := threads;
        var full, sequential := ExploreOnce();
        SameShapeTransitive(threads, before, round);
        res := CheckRun(full, sequential);
        if res.Some? {
          CompleteRun(full, sequential);
          return;
        }
        RunAccepted(spec, target, threads, round, removedTasks, full);
        accepted := accepted + [full];
      }
      res := None;
    }

    /** A run that completes all kept tasks has two events for each. */
    lemma CompleteRun(order: Ordering, h: History)
      requires Valid() && Playing(target, threads, state, removedTasks, order, h)
      requires forall ref :: Kept(threads, removedTasks, ref) <==> ref in order
      requires forall ref :: Kept(threads, removedTasks, ref) ==> Returned(target, TaskAt(threads, ref))
      ensures |h| == |KeptRefs()| + |KeptRefs()|
    {
      hide PlayAll, Fresh;
      PlayCounted(target, Fresh(target, threads), order);
      var p := PlayAll(target, Fresh(target, threads), order);
      assert p.started == KeptRefs();
      assert Answerers(target, p) == KeptRefs();
    }

    // ---- Replaying a given interleaving ----

    /** Finds the task with the given id. */
    method GetTask(id: int) returns (res: Option<TaskRef>)
      requires Valid()
      ensures match res
              case Some(ref) => InThreads(threads, ref) && TaskAt(threads, ref).id == id
              case None => forall ref :: InThreads(threads, ref) ==> TaskAt(threads, ref).id != id
    {
      for t := 0 to |threads|
        invariant forall ref :: InThreads(threads, ref) && ref.thread < t ==> TaskAt(threads, ref).id != id
      {
        for i := 0 to |threads[t]|
          invariant forall ref :: InThreads(threads, ref) && (ref.thread < t || (ref.thread == t && ref.index < i)) ==>
                      TaskAt(threads, ref).id != id
        {
          if threads[t][i].id == id {
            return Some(TaskRef(t, i));
          }
        }
      }
      return None;
    }

    /** One entry of a replayed interleaving. */
    method ReplayStep(task: TaskRef, id: int, isNew: bool, counts: map<int, int>, ghost rest: seq<int>,
                      full: Ordering, h: History)
      returns (next: History, left: map<int, int>, longer: Ordering)
      requires Valid() && Playing(target, threads, state, removedTasks, full, h)
      requires Kept(threads, removedTasks, task) && TaskAt(threads, task).id == id && isNew == (task !in full)
      requires EnoughResumes(counts, [id] + rest)
      modifies this`threads, this`state
      ensures Valid() && SameShape(threads, old(threads))
      ensures longer == full + [task] && Playing(target, threads, state, removedTasks, longer, next)
      ensures EnoughResumes(left, rest)
    {
      hide Playing, SameShape;
      next, longer, left := h, full + [task], counts;
      if isNew {
        next := next + [Invoke(task)];
      }
      FewerResumes(counts, id, rest);
      if Returned(target, TaskAt(threads, task)) {
        PlayingSkipped(target, threads, state, removedTasks, full, h, task);
        SameShapeReflexive(threads);
        return;
      }
      if counts[id] == 0 {
        // Only here would the task be run to completion.
        assert false;
      } else {
        left := counts[id := counts[id] - 1];
        PlayingResumed(target, threads, state, removedTasks, full, h, task);
        Resume(task);
      }
      var local := TaskAt(threads, task).local;
      if Returned(target, TaskAt(threads, task)) {
        next := next + [Response(task, target.returned(local).value)];
      }
    }

    /** Replays the interleaving `ids` of tasks that are not removed; an id of no task is an exception. Every
        entry resumes its task at most once, so the branch that would run a task to completion at its last
        entry is never taken. */
    method ReplayRound(ids: seq<int>, ghost order: Ordering) returns (res: Option<BothHistories>, thrown: bool)
      requires Valid() && |order| <= |ids| && OrderingIds(threads, removedTasks, order, ids[..|order|])
      requires |order| < |ids| ==> NoTask(threads, ids[|order|])
      modifies this`threads, this`state, this`roundSchedule
      ensures Valid() && SameShape(threads, old(threads)) && Within(threads, order)
      ensures thrown <==> |order| < |ids|
      ensures thrown <==> exists id :: id in ids && NoTask(old(threads), id)
      ensures thrown ==> res.None?
      ensures !thrown ==>
                && Playing(target, threads, state, removedTasks, order, PlayedHistory(target, threads, order))
                && res == if Rejects(spec, target, threads, order)
                          then Some(BothHistories(order, PlayedHistory(target, threads, order))) else None
    {
      hide Playing, SameShape, Rejects, OrderingIds, UniqueIds, EnoughResumes, PlayedHistory, ReplayedUpTo,
        NoTask, Linearizable, Within;
      ghost var round, known := threads, ids[..|order|];
      KnownIds(threads, removedTasks, order, ids);
      ResetCurrentRound();
      OrderingSameShape(threads, round, removedTasks, order, known);
      ReplayedNothing(threads, removedTasks, order, known);
      var full: Ordering := [];
      var sequential: History := [];
      var startedTasks: set<int> := {};
      var resumesCount: map<int, int> := CountResumes(ids);
      var k := 0;
      while k < |ids|
        invariant k <= |order| <= |ids| && Valid() && SameShape(threads, round)
        invariant OrderingIds(threads, removedTasks, order, known)
        invariant ReplayedUpTo(order, known, k, full, startedTasks)
        invariant Playing(target, threads, state, removedTasks, full, sequential)
        invariant EnoughResumes(resumesCount, ids[k..])
      {
        ghost var before, done := threads, full;
        var isNew := ids[k] !in startedTasks;
        var info := GetTask(ids[k]);
        if info.None? {
          UnknownId(threads, round, ids, k);
          OrderingWithin(threads, removedTasks, order, known);
          return None, true;
        }
        KnownId(threads, round, removedTasks, order, ids, k, info.value);
        ReplayedNext(threads, removedTasks, order, known, k, full, startedTasks);
        SplitAt(ids, k);
        sequential, resumesCount, full :=
          ReplayStep(info.value, ids[k], isNew, resumesCount, ids[k + 1..], full, sequential);
        startedTasks := startedTasks + {ids[k]};
        OrderingSameShape(threads, before, removedTasks, order, known);
        SameShapeTransitive(threads, before, round);
        k := k + 1;
      }
      TakeAll(ids);
      ReplayedAll(order, known, full, startedTasks);
      res := CheckRun(full, sequential);
      thrown := false;
    }

    /** Drops all tasks of the round. */
    method StartNextRound()
      requires Valid()
      modifies this`threads, this`state, this`roundSchedule, this`newTaskId
      ensures Valid() && NewRound() && |threads| == |old(threads)|
    {
      TerminateTasks();
      newTaskId := 0;
      for t := 0 to |threads|
        invariant |threads| == |old(threads)| && forall u :: 0 <= u < t ==> threads[u] == []
        modifies this`threads
      {
        while threads[t] != []
          invariant |threads| == |old(threads)| && forall u :: 0 <= u < t ==> threads[u] == []
          decreases |threads[t]|
          modifies this`threads
        {
          threads := threads[t := threads[t][..|threads[t]| - 1]];
        }
      }
    }
  }

  /** A run of exactly the kept tasks that the checker accepts. */
  ghost predicate AcceptedRun(spec: Spec, target: Target, threads: Threads, removed: set<int>, order: Ordering)
    requires target.Valid()
  {
    && (forall ref :: Kept(threads, removed, ref) <==> ref in order)
    && !Rejects(spec, target, threads, order)
  }

  lemma RunAccepted(spec: Spec, target: Target, threads: Threads, round: Threads, removed: set<int>, order: Ordering)
    requires target.Valid() && SameShape(threads, round)
    requires Within(threads, order) && !Rejects(spec, target, threads, order)
    requires forall ref :: Kept(threads, removed, ref) <==> ref in order
    ensures AcceptedRun(spec, target, round, removed, order)
  {
    hide Rejects;
    RejectsSameShape(spec, target, threads, round, order);
    SameShapeIds(threads, round);
  }

  /** The ids of an ordering of kept tasks. */
  ghost predicate OrderingIds(threads: Threads, removed: set<int>, order: Ordering, ids: seq<int>) {
    && |order| == |ids|
    && forall k :: 0 <= k < |ids| ==> Kept(threads, removed, order[k]) && TaskAt(threads, order[k]).id == ids[k]
  }

  /** No task of the round has the id. */
  ghost predicate NoTask(threads: Threads, id: int) {
    forall ref :: InThreads(threads, ref) ==> TaskAt(threads, ref).id != id
  }

  lemma UnknownId(threads: Threads, round: Threads, ids: seq<int>, k: nat)
    requires SameShape(threads, round) && k < |ids|
    requires forall ref :: InThreads(threads, ref) ==> TaskAt(threads, ref).id != ids[k]
    ensures exists id :: id in ids && NoTask(round, id)
  {
    SameShapeIds(threads, round);
    assert NoTask(round, ids[k]);
  }

  /** The task found for an id is the one that the ordering has at its place. */
  lemma KnownId(threads: Threads, round: Threads, removed: set<int>, order: Ordering, ids: seq<int>, k: nat,
                ref: TaskRef)
    requires SameShape(threads, round) && UniqueIds(threads) && k < |ids| && k <= |order| <= |ids|
    requires OrderingIds(threads, removed, order, ids[..|order|]) && (|order| < |ids| ==> NoTask(round, ids[|order|]))
    requires InThreads(threads, ref) && TaskAt(threads, ref).id == ids[k]
    ensures k < |order| && ref == order[k] && ids[..|order|][k] == ids[k]
  {
    SameShapeIds(threads, round);
    if k < |order| { assert ids[..|order|][k] == ids[k]; }
  }

  /** An unknown id can only be the one behind the known ones. */
  lemma KnownIds(threads: Threads, removed: set<int>, order: Ordering, ids: seq<int>)
    requires |order| <= |ids| && OrderingIds(threads, removed, order, ids[..|order|])
    requires |order| < |ids| ==> NoTask(threads, ids[|order|])
    ensures (exists id :: id in ids && NoTask(threads, id)) <==> |order| < |ids|
  {
    forall k | 0 <= k < |order| ensures !NoTask(threads, ids[k]) {
      assert TaskAt(threads, order[k]).id == ids[..|order|][k];
    }
  }

  lemma OrderingWithin(threads: Threads, removed: set<int>, order: Ordering, ids: seq<int>)
    requires OrderingIds(threads, removed, order, ids)
    ensures Within(threads, order)
  {
  }

  lemma OrderingSameShape(a: Threads, b: Threads, removed: set<int>, order: Ordering, ids: seq<int>)
    requires SameShape(a, b) && OrderingIds(b, removed, order, ids)
    ensures OrderingIds(a, removed, order, ids)
  {
    SameShapeIds(a, b);
  }

  /** The first `k` entries have been replayed. */
  ghost predicate ReplayedUpTo(order: Ordering, ids: seq<int>, k: nat, full: Ordering, started: set<int>) {
    && k <= |order| == |ids|
    && full == order[..k]
    && forall id :: id in started <==> id in ids[..k]
  }

  lemma ReplayedNothing(threads: Threads, removed: set<int>, order: Ordering, ids: seq<int>)
    requires OrderingIds(threads, removed, order, ids)
    ensures ReplayedUpTo(order, ids, 0, [], {})
  {
  }

  lemma ReplayedNext(threads: Threads, removed: set<int>, order: Ordering, ids: seq<int>, k: nat,
                     full: Ordering, started: set<int>)
    requires UniqueIds(threads) && OrderingIds(threads, removed, order, ids)
    requires k < |ids| && ReplayedUpTo(order, ids, k, full, started)
    ensures |order| == |ids| && Kept(threads, removed, order[k]) && TaskAt(threads, order[k]).id == ids[k]
    ensures ids[k] in started <==> order[k] in full
    ensures ids[k..] == [ids[k]] + ids[k + 1..]
    ensures ReplayedUpTo(order, ids, k + 1, full + [order[k]], started + {ids[k]})
  {
    SplitAt(ids, k);
    SplitAt(order, k);
    if ids[k] in ids[..k] {
      var j :| 0 <= j < k && ids[..k][j] == ids[k];
      assert order[j] == order[k] && order[..k][j] == order[k];
    }
    if order[k] in order[..k] {
      var j :| 0 <= j < k && order[..k][j] == order[k];
      assert ids[..k][j] == ids[k];
    }
  }

  lemma ReplayedAll(order: Ordering, ids: seq<int>, full: Ordering, started: set<int>)
    requires ReplayedUpTo(order, ids, |ids|, full, started)
    ensures full == order
  {
    TakeAll(order);
  }

  /** Enough resumptions are on the account for all entries still to come. */
  ghost predicate EnoughResumes(counts: map<int, int>, rest: seq<int>) {
    forall id :: id in rest ==> id in counts && counts[id] >= multiset(rest)[id]
  }

  lemma FewerResumes(counts: map<int, int>, id: int, rest: seq<int>)
    requires EnoughResumes(counts, [id] + rest)
    ensures id in counts && counts[id] > 0
    ensures EnoughResumes(counts, rest) && EnoughResumes(counts[id := counts[id] - 1], rest)
  {
    assert multiset([id] + rest) == multiset{id} + multiset(rest);
    assert id in [id] + rest;
    assert forall i :: i in rest ==> i in [id] + rest;
  }

  method CountResumes(ids: seq<int>) returns (counts: map<int, int>)
    ensures EnoughResumes(counts, ids)
  {
    counts := map[];
    for k := 0 to |ids|
      invariant EnoughResumes(counts, ids[..k])
      invariant forall id :: id in counts ==> counts[id] == multiset(ids[..k])[id]
    {
      var id := ids[k];
      assert ids[..k + 1] == ids[..k] + [id];
      assert multiset(ids[..k + 1]) == multiset(ids[..k]) + multiset{id};
      counts := counts[id := (if id in counts then counts[id] else 0) + 1];
    }
    assert ids[..|ids|] == ids;
  }

  /** A run is what playing its ordering gives. */
  lemma PlayingPlayed(target: Target, threads: Threads, state: Shared, removed: set<int>, order: Ordering, h: History)
    requires Playing(target, threads, state, removed, order, h)
    ensures Within(threads, order) && h == PlayedHistory(target, threads, order)
  {
  }

  lemma GrownRound(target: Target, before: Threads, after: Threads, ref: TaskRef, order: Ordering)
    requires ref.thread < |before| && InThreads(after, ref) && ref.index == |before[ref.thread]|
    requires after == before[ref.thread := before[ref.thread] + [TaskAt(after, ref)]]
    requires !Busy(target, before[ref.thread])
    requires forall r :: InThreads(before, r) ==> r in order
    requires forall r :: r in order ==> InThreads(before, r)
    requires forall r :: InThreads(before, r) && r.index < |before[r.thread]| - 1 ==>
      Returned(target, TaskAt(before, r))
    ensures ref !in order
    ensures forall r :: InThreads(after, r) ==> r in order || r == ref
    ensures forall r :: InThreads(after, r) && r.index < |after[r.thread]| - 1 ==> Returned(target, TaskAt(after, r))
    ensures forall r :: r in order ==> InThreads(after, r)
    ensures forall r :: r in order && r.thread == ref.thread ==> Returned(target, TaskAt(after, r))
  {
    forall r | InThreads(after, r) && r != ref
      ensures InThreads(before, r) && TaskAt(after, r) == TaskAt(before, r)
    {
    }
    if before[ref.thread] != [] {
      var last := TaskRef(ref.thread, |before[ref.thread]| - 1);
      assert TaskAt(before, last) == before[ref.thread][|before[ref.thread]| - 1];
    }
  }

  lemma EmptySequential()
    ensures Sequential([]) && Responses([]) == 0
  {
  }
}
