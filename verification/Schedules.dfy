/** Bounded interleavings as plain data: what a schedule does, which schedules are
    legal, and the list of all of them in the explorer's order. */
module Schedules {
  import opened Histories
  import opened Tasks

  /** A step of a schedule: a thread starts a task of some constructor, or continues its last one. */
  datatype Choice = Start(thread: nat, builder: nat) | Continue(thread: nat)

  type Schedule = seq<Choice>

  datatype Frame = Frame(task: Option<TaskRef>, isNew: bool)

  /** Everything a schedule determines. */
  datatype Snapshot = Snapshot(
    state: Shared,
    threads: Threads,
    frames: seq<Frame>,
    history: History,
    fullHistory: seq<(nat, TaskRef)>,
    threadIds: seq<nat>,
    started: nat,
    finished: nat,
    switches: nat)

  datatype Config = Config(
    target: Target,
    builders: seq<Builder>,
    threadCount: nat,
    maxTasks: nat,
    maxRounds: nat,
    maxSwitches: nat,
    maxDepth: nat,
    spec: Spec)
  {
    ghost predicate Valid() {
      target.Valid()
    }

    function Initial(): Snapshot {
      Snapshot(target.reset, seq(threadCount, _ => []), [], [], [], [], 0, 0, 0)
    }

    // ---- One step ----

    function Pushed(threads: Threads, choice: Choice): Threads
      requires choice.thread < |threads| && (choice.Start? ==> choice.builder < |builders|)
    {
      if choice.Start? then
        threads[choice.thread := threads[choice.thread] + [Build(target, builders[choice.builder], choice.thread, -1)]]
      else
        threads
    }

    predicate Enabled(s: Snapshot, choice: Choice) {
      && choice.thread < |s.threads|
      && match choice
         case Start(t, b) =>
           !Busy(target, s.threads[t]) && s.started != maxTasks && |s.threads[t]| < maxDepth && b < |builders|
         case Continue(t) =>
           Busy(target, s.threads[t]) && SwitchesAfter(s, choice) <= maxSwitches
    }

    /** Only resuming a task of another thread counts as a switch. */
    function SwitchesAfter(s: Snapshot, choice: Choice): nat {
      if choice.Continue? && (s.threadIds == [] || s.threadIds[|s.threadIds| - 1] != choice.thread)
      then s.switches + 1 else s.switches
    }

    function Resumed(s: Snapshot, choice: Choice): (Shared, Task)
      requires Enabled(s, choice)
    {
      var thread := Pushed(s.threads, choice)[choice.thread];
      var task := thread[|thread| - 1];
      var (state, local) := target.step(s.state, task.local);
      (state, task.(local := local))
    }

    function RefOf(s: Snapshot, choice: Choice): TaskRef
      requires Enabled(s, choice)
    {
      TaskRef(choice.thread, |Pushed(s.threads, choice)[choice.thread]| - 1)
    }

    function Next(s: Snapshot, choice: Choice): Snapshot
      requires Enabled(s, choice)
    {
      var (state, task) := Resumed(s, choice);
      var ref := RefOf(s, choice);
      var invoked := if choice.Start? then s.history + [Invoke(ref)] else s.history;
      var done := Returned(target, task);
      Snapshot(
        state,
        SetTask(Pushed(s.threads, choice), ref, task),
        s.frames + [Frame(Some(ref), choice.Start?)],
        if done then invoked + [Response(ref, target.returned(task.local).value)] else invoked,
        s.fullHistory + [(choice.thread, ref)],
        s.threadIds + [choice.thread],
        if choice.Start? then s.started + 1 else s.started,
        if done then s.finished + 1 else s.finished,
        SwitchesAfter(s, choice))
    }

    // ---- Whole schedules ----

    ghost predicate Legal(path: Schedule)
      decreases |path|, 0
    {
      path == [] ||
      (Legal(path[..|path| - 1]) && Enabled(After(path[..|path| - 1]), path[|path| - 1]))
    }

    ghost function After(path: Schedule): Snapshot
      requires Legal(path)
      decreases |path|, 1
    {
      if path == [] then Initial() else Next(After(path[..|path| - 1]), path[|path| - 1])
    }

    /** A legal schedule that finishes exactly `maxTasks` tasks, the last one with its last step. */
    ghost predicate Complete(path: Schedule) {
      path != [] && Legal(path) && After(path).finished == maxTasks
    }

    ghost predicate TableCovers(path: Schedule)
      requires Legal(path)
    {
      forall i :: 0 <= i < |After(path).history| ==>
        After(path).history[i].task in TableOf(target, After(path).threads)
    }

    ghost predicate Accepted(path: Schedule)
      requires Legal(path)
    {
      EventsInTable(path);
      Linearizable(spec, TableOf(target, After(path).threads), After(path).history)
    }

    lemma LegalStep(path: Schedule, choice: Choice)
      requires Legal(path) && Enabled(After(path), choice)
      ensures Legal(path + [choice]) && After(path + [choice]) == Next(After(path), choice)
    {
      assert (path + [choice])[..|path|] == path;
    }

    // ---- What every legal schedule keeps ----

    /** Invokes and responses match the tasks in the slots. */
    ghost predicate Consistent(h: History, threads: Threads) {
      && (forall i :: 0 <= i < |h| ==> InThreads(threads, h[i].task))
      && (forall i, j :: 0 <= i < j < |h| && h[i].task == h[j].task ==> h[i].Invoke? && h[j].Response?)
      && (forall ref :: InThreads(threads, ref) ==> Invoke(ref) in h)
      && (forall i :: 0 <= i < |h| && h[i].Response? ==> Returned(target, TaskAt(threads, h[i].task)))
    }

    ghost predicate Unanswered(h: History, ref: TaskRef) {
      forall i :: 0 <= i < |h| && h[i].task == ref ==> h[i].Invoke?
    }

    lemma ConsistentPush(s: Snapshot, choice: Choice)
      requires Enabled(s, choice) && Consistent(s.history, s.threads)
      ensures var ref, pushed := RefOf(s, choice), Pushed(s.threads, choice);
              var invoked := if choice.Start? then s.history + [Invoke(ref)] else s.history;
              InThreads(pushed, ref) && Consistent(invoked, pushed) && Unanswered(invoked, ref)
    {
      if choice.Start? {
        var task := Build(target, builders[choice.builder], choice.thread, -1);
        ConsistentNew(s.history, s.threads, choice.thread, task);
      } else {
        assert TaskAt(s.threads, RefOf(s, choice)) == s.threads[choice.thread][|s.threads[choice.thread]| - 1];
      }
    }

    lemma ConsistentNew(h: History, threads: Threads, t: nat, task: Task)
      requires t < |threads| && Consistent(h, threads)
      ensures var ref, pushed := TaskRef(t, |threads[t]|), threads[t := threads[t] + [task]];
              Consistent(h + [Invoke(ref)], pushed) && Unanswered(h + [Invoke(ref)], ref)
    {
      var ref, pushed := TaskRef(t, |threads[t]|), threads[t := threads[t] + [task]];
      var longer := h + [Invoke(ref)];
      assert forall r :: InThreads(pushed, r) <==> InThreads(threads, r) || r == ref;
      assert forall r :: InThreads(threads, r) ==> TaskAt(pushed, r) == TaskAt(threads, r);
      assert forall i :: 0 <= i < |h| ==> h[i].task != ref;
      assert longer[|h|] == Invoke(ref);
      assert forall e :: e in h ==> e in longer;
    }

    lemma ConsistentSet(h: History, threads: Threads, ref: TaskRef, task: Task)
      requires InThreads(threads, ref) && Consistent(h, threads) && Unanswered(h, ref)
      ensures Consistent(h, SetTask(threads, ref, task))
    {
      var after := SetTask(threads, ref, task);
      assert forall r :: InThreads(after, r) <==> InThreads(threads, r);
      assert forall r :: InThreads(threads, r) && r != ref ==> TaskAt(after, r) == TaskAt(threads, r);
    }

    lemma ConsistentRespond(h: History, threads: Threads, ref: TaskRef, v: Value)
      requires InThreads(threads, ref) && Consistent(h, threads) && Unanswered(h, ref)
      requires Returned(target, TaskAt(threads, ref))
      ensures Consistent(h + [Response(ref, v)], threads)
    {
      var longer := h + [Response(ref, v)];
      assert forall e :: e in h ==> e in longer;
    }

    lemma ConsistentStep(s: Snapshot, choice: Choice)
      requires Enabled(s, choice) && Consistent(s.history, s.threads)
      ensures Consistent(Next(s, choice).history, Next(s, choice).threads)
    {
      hide Consistent, Unanswered;
      var (_, task) := Resumed(s, choice);
      var ref, pushed := RefOf(s, choice), Pushed(s.threads, choice);
      var invoked := if choice.Start? then s.history + [Invoke(ref)] else s.history;
      ConsistentPush(s, choice);
      ConsistentSet(invoked, pushed, ref, task);
      if Returned(target, task) {
        ConsistentRespond(invoked, SetTask(pushed, ref, task), ref, target.returned(task.local).value);
      }
    }

    lemma {:induction false} LegalConsistent(path: Schedule)
      requires Legal(path)
      ensures Consistent(After(path).history, After(path).threads)
      ensures |After(path).threads| == threadCount
    {
      if path != [] {
        LegalConsistent(path[..|path| - 1]);
        ConsistentStep(After(path[..|path| - 1]), path[|path| - 1]);
      }
    }

    lemma EventsInTable(path: Schedule)
      requires Legal(path)
      ensures TableCovers(path)
    {
      LegalConsistent(path);
    }

    lemma ConsistentWellFormed(h: History, threads: Threads)
      requires Consistent(h, threads)
      ensures WellFormed(h, TableOf(target, threads))
    {
      forall r | 0 <= r < |h| && h[r].Response? ensures exists i :: Answers(h, i, r) {
        assert InThreads(threads, h[r].task) && Invoke(h[r].task) in h;
        var i :| 0 <= i < |h| && h[i] == Invoke(h[r].task);
        assert Answers(h, i, r);
      }
    }

    /** Histories handed to the checker meet its precondition. */
    lemma LegalWellFormed(path: Schedule)
      requires Legal(path)
      ensures WellFormed(After(path).history, TableOf(target, After(path).threads))
    {
      hide After, Legal, Consistent, WellFormed;
      LegalConsistent(path);
      ConsistentWellFormed(After(path).history, After(path).threads);
    }

    // ---- Exploration ends: every step uses up potential ----

    ghost function Load(thread: seq<Task>): nat {
      if Busy(target, thread) then target.fuel(thread[|thread| - 1].local) else 0
    }

    ghost function Running(thread: seq<Task>): nat {
      if Busy(target, thread) then 1 else 0
    }

    ghost function Potential(s: Snapshot): nat {
      (if s.started <= maxTasks then maxTasks - s.started else 0) * (target.bound + 1) + Sum(s.threads, Load)
    }

    lemma PotentialDrops(s: Snapshot, choice: Choice)
      requires Valid() && Enabled(s, choice) && s.started <= maxTasks
      ensures Potential(Next(s, choice)) < Potential(s)
      ensures Next(s, choice).started <= maxTasks
    {
      var t := choice.thread;
      var before, after := s.threads[t], Next(s, choice).threads[t];
      assert Next(s, choice).threads == s.threads[t := after];
      SumUpdate(s.threads, Load, t, after);
      var pushed := Pushed(s.threads, choice)[t];
      var task := pushed[|pushed| - 1];
      assert after[|after| - 1].local == target.step(s.state, task.local).1;
      assert Load(after) < target.fuel(task.local) || Load(after) == 0;
      var left, unit := maxTasks - s.started, target.bound + 1;
      if choice.Start? {
        assert left * unit == (left - 1) * unit + unit;
        assert Load(before) == 0;
      }
    }

    lemma {:induction false} LegalStarted(path: Schedule)
      requires Valid() && Legal(path)
      ensures After(path).started <= maxTasks
    {
      if path != [] {
        LegalStarted(path[..|path| - 1]);
      }
    }

    lemma StepDrops(path: Schedule, choice: Choice)
      requires Valid() && Legal(path) && Enabled(After(path), choice)
      ensures Legal(path + [choice]) && After(path + [choice]) == Next(After(path), choice)
      ensures Potential(After(path + [choice])) < Potential(After(path))
    {
      LegalStep(path, choice);
      LegalStarted(path);
      PotentialDrops(After(path), choice);
    }

    // ---- The explorer's list of schedules ----

    /** All complete schedules below `path`, in the order the explorer checks them. */
    ghost function Enumerate(path: Schedule): seq<Schedule>
      requires Valid() && Legal(path)
      decreases Potential(After(path)), 3, 0
    {
      FromThread(path, 0)
    }

    ghost function FromThread(path: Schedule, t: nat): seq<Schedule>
      requires Valid() && Legal(path) && t <= threadCount
      decreases Potential(After(path)), 2, threadCount - t
    {
      if t == threadCount then []
      else InThread(path, t) + FromThread(path, t + 1)
    }

    ghost function InThread(path: Schedule, t: nat): seq<Schedule>
      requires Valid() && Legal(path) && t < threadCount
      decreases Potential(After(path)), 1, |builders| + 1
    {
      LegalConsistent(path);
      if Busy(target, After(path).threads[t]) then Below(path, Continue(t)) else FromBuilder(path, t, 0)
    }

    ghost function FromBuilder(path: Schedule, t: nat, b: nat): seq<Schedule>
      requires Valid() && Legal(path) && t < threadCount && b <= |builders|
      decreases Potential(After(path)), 1, |builders| - b
    {
      if b == |builders| then []
      else Below(path, Start(t, b)) + FromBuilder(path, t, b + 1)
    }

    ghost function Below(path: Schedule, choice: Choice): seq<Schedule>
      requires Valid() && Legal(path)
      decreases Potential(After(path)), 0, 0
    {
      if !Enabled(After(path), choice) then []
      else
        StepDrops(path, choice);
        if After(path + [choice]).finished == maxTasks then [path + [choice]]
        else Enumerate(path + [choice])
    }

    // ---- The list is exactly the complete schedules, each once ----

    lemma {:induction false} RunningTasks(path: Schedule)
      requires Valid() && Legal(path)
      ensures After(path).started == After(path).finished + Sum(After(path).threads, Running)
    {
      if path == [] {
        IdleSum(threadCount);
      } else {
        var s, choice := After(path[..|path| - 1]), path[|path| - 1];
        var t := choice.thread;
        RunningTasks(path[..|path| - 1]);
        var after := After(path).threads[t];
        assert After(path).threads == s.threads[t := after];
        SumUpdate(s.threads, Running, t, after);
        assert after[|after| - 1] == Resumed(s, choice).1;
      }
    }

    lemma {:induction false} IdleSum(n: nat)
      ensures Sum(seq(n, _ => []), Running) == 0
    {
      if n > 0 {
        assert seq(n, _ => [])[1..] == seq<seq<Task>>(n - 1, _ => []);
        IdleSum(n - 1);
      }
    }

    /** Once `maxTasks` tasks have finished, nothing is left to run and nothing may start. */
    lemma NothingAfterComplete(path: Schedule, choice: Choice)
      requires Valid() && Legal(path) && After(path).finished == maxTasks
      ensures !Enabled(After(path), choice)
    {
      RunningTasks(path);
      LegalStarted(path);
      if choice.thread < |After(path).threads| {
        SumAtLeast(After(path).threads, Running, choice.thread);
      }
    }

    lemma {:induction false} PrefixLegal(path: Schedule, k: nat)
      requires Legal(path) && k <= |path|
      ensures Legal(path[..k])
      ensures k < |path| ==> Enabled(After(path[..k]), path[k])
    {
      if k == |path| {
        assert path[..k] == path;
      } else {
        var shorter := path[..|path| - 1];
        PrefixLegal(shorter, k);
        assert shorter[..k] == path[..k];
        if k == |shorter| { assert shorter[..k] == shorter; }
      }
    }

    lemma NextInPath(path: Schedule, k: nat)
      requires Legal(path) && k < |path|
      ensures Legal(path[..k]) && Enabled(After(path[..k]), path[k])
      ensures Legal(path[..k + 1]) && After(path[..k + 1]) == Next(After(path[..k]), path[k])
    {
      hide After, Legal, Enabled, Next;
      PrefixLegal(path, k);
      LegalStep(path[..k], path[k]);
      OneLonger(path[..k], path[k], path);
    }

    ghost predicate Extends(path: Schedule, s: Schedule) {
      Complete(s) && |path| < |s| && s[..|path|] == path
    }

    lemma {:induction false} BelowExact(path: Schedule, choice: Choice, s: Schedule)
      requires Valid() && Legal(path)
      ensures s in Below(path, choice) <==> Extends(path, s) && s[|path|] == choice
      decreases Potential(After(path)), 0, 0
    {
      hide After, Legal, Enabled, Potential, Enumerate, Valid, SwitchesAfter;
      if Extends(path, s) {
        PrefixLegal(s, |path|);
      }
      if |path| < |s| {
        OneLonger(path, choice, s);
      }
      if Enabled(After(path), choice) {
        var longer := path + [choice];
        StepDrops(path, choice);
        if After(longer).finished == maxTasks {
          if Extends(longer, s) {
            PrefixLegal(s, |longer|);
            NothingAfterComplete(longer, s[|longer|]);
            assert false;
          }
        } else {
          EnumerateExact(longer, s);
        }
      }
    }

    lemma {:induction false} FromBuilderExact(path: Schedule, t: nat, b: nat, s: Schedule)
      requires Valid() && Legal(path) && t < threadCount && b <= |builders|
      ensures s in FromBuilder(path, t, b) <==>
                Extends(path, s) && s[|path|].Start? && s[|path|].thread == t && s[|path|].builder >= b
      decreases Potential(After(path)), 1, |builders| - b
    {
      if b < |builders| {
        BelowExact(path, Start(t, b), s);
        FromBuilderExact(path, t, b + 1, s);
      } else if Extends(path, s) {
        PrefixLegal(s, |path|);
      }
    }

    lemma {:induction false} InThreadExact(path: Schedule, t: nat, s: Schedule)
      requires Valid() && Legal(path) && t < threadCount
      ensures s in InThread(path, t) <==> Extends(path, s) && s[|path|].thread == t
      decreases Potential(After(path)), 1, |builders| + 1
    {
      LegalConsistent(path);
      if Extends(path, s) {
        PrefixLegal(s, |path|);
      }
      if Busy(target, After(path).threads[t]) {
        BelowExact(path, Continue(t), s);
      } else {
        FromBuilderExact(path, t, 0, s);
      }
    }

    lemma {:induction false} FromThreadExact(path: Schedule, t: nat, s: Schedule)
      requires Valid() && Legal(path) && t <= threadCount
      ensures s in FromThread(path, t) <==> Extends(path, s) && s[|path|].thread >= t
      decreases Potential(After(path)), 2, threadCount - t
    {
      if t < threadCount {
        InThreadExact(path, t, s);
        FromThreadExact(path, t + 1, s);
      } else if Extends(path, s) {
        PrefixLegal(s, |path|);
        LegalConsistent(path);
      }
    }

    lemma {:induction false} EnumerateExact(path: Schedule, s: Schedule)
      requires Valid() && Legal(path)
      ensures s in Enumerate(path) <==> Extends(path, s)
      decreases Potential(After(path)), 3, 0
    {
      FromThreadExact(path, 0, s);
    }

    /** Exhaustive: the explorer's list holds every complete schedule and nothing else. */
    lemma Exhaustive(s: Schedule)
      requires Valid()
      ensures s in Enumerate([]) <==> Complete(s)
    {
      EnumerateExact([], s);
    }

    lemma {:induction false} EnumerateOnce(path: Schedule)
      requires Valid() && Legal(path)
      ensures NoRepeats(Enumerate(path))
      decreases Potential(After(path)), 3, 0
    {
      FromThreadOnce(path, 0);
    }

    lemma {:induction false} FromThreadOnce(path: Schedule, t: nat)
      requires Valid() && Legal(path) && t <= threadCount
      ensures NoRepeats(FromThread(path, t))
      decreases Potential(After(path)), 2, threadCount - t
    {
      hide After, Legal, Potential, Extends;
      if t < threadCount {
        InThreadOnce(path, t);
        FromThreadOnce(path, t + 1);
        forall s | s in InThread(path, t) ensures s !in FromThread(path, t + 1) {
          InThreadExact(path, t, s);
          FromThreadExact(path, t + 1, s);
        }
        JoinNoRepeats(InThread(path, t), FromThread(path, t + 1));
      }
    }

    lemma {:induction false} InThreadOnce(path: Schedule, t: nat)
      requires Valid() && Legal(path) && t < threadCount
      ensures NoRepeats(InThread(path, t))
      decreases Potential(After(path)), 1, |builders| + 1
    {
      LegalConsistent(path);
      if Busy(target, After(path).threads[t]) {
        BelowOnce(path, Continue(t));
      } else {
        FromBuilderOnce(path, t, 0);
      }
    }

    lemma {:induction false} FromBuilderOnce(path: Schedule, t: nat, b: nat)
      requires Valid() && Legal(path) && t < threadCount && b <= |builders|
      ensures NoRepeats(FromBuilder(path, t, b))
      decreases Potential(After(path)), 1, |builders| - b
    {
      hide After, Legal, Potential, Extends;
      if b < |builders| {
        BelowOnce(path, Start(t, b));
        FromBuilderOnce(path, t, b + 1);
        forall s | s in Below(path, Start(t, b)) ensures s !in FromBuilder(path, t, b + 1) {
          BelowExact(path, Start(t, b), s);
          FromBuilderExact(path, t, b + 1, s);
        }
        JoinNoRepeats(Below(path, Start(t, b)), FromBuilder(path, t, b + 1));
      }
    }

    lemma {:induction false} BelowOnce(path: Schedule, choice: Choice)
      requires Valid() && Legal(path)
      ensures NoRepeats(Below(path, choice))
      decreases Potential(After(path)), 0, 0
    {
      if Enabled(After(path), choice) {
        StepDrops(path, choice);
        if After(path + [choice]).finished != maxTasks {
          EnumerateOnce(path + [choice]);
        }
      }
    }
  }

  ghost predicate NoRepeats(list: seq<Schedule>) {
    forall i, j :: 0 <= i < j < |list| ==> list[i] != list[j]
  }

  lemma OneLonger(path: Schedule, choice: Choice, s: Schedule)
    requires |path| < |s|
    ensures s[..|path| + 1] == path + [choice] <==> s[..|path|] == path && s[|path|] == choice
    ensures |s| == |path| + 1 ==> s[..|path| + 1] == s
  {
    assert s[..|path| + 1] == s[..|path|] + [s[|path|]];
    if s[..|path| + 1] == path + [choice] {
      assert s[|path|] == (path + [choice])[|path|];
      assert s[..|path|] == (path + [choice])[..|path|];
    }
  }

  lemma JoinNoRepeats(a: seq<Schedule>, b: seq<Schedule>)
    requires NoRepeats(a) && NoRepeats(b)
    requires forall s :: s in a ==> s !in b
    ensures NoRepeats(a + b)
  {
    forall i, j | 0 <= i < j < |a + b| ensures (a + b)[i] != (a + b)[j] {
      assert i < |a| ==> (a + b)[i] in a;
      assert j >= |a| ==> (a + b)[j] in b;
    }
  }
}
