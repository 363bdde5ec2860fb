/** The exhaustive explorer: it walks all bounded interleavings by running them, and
    undoes steps by popping its records and replaying the target from scratch. */
module TlaScheduler {
  import opened Histories
  import opened Tasks
  import opened Schedules
  import LincheckRecursive

  /** Replaying the first steps of `path`: the tasks these created are in place, the others only built. */
  ghost predicate Replayed(cfg: Config, path: Schedule, step: nat, state: Shared, threads: Threads)
    requires cfg.Legal(path) && step <= |path|
  {
    cfg.PrefixLegal(path, step);
    var reached := cfg.After(path[..step]);
    && state == reached.state
    && SameShape(threads, cfg.After(path).threads)
    && |reached.threads| == |threads|
    && forall t :: 0 <= t < |threads| ==> reached.threads[t] <= threads[t]
  }

  /** The tasks that the first steps did not create have returned. */
  ghost predicate Waiting(cfg: Config, path: Schedule, step: nat, threads: Threads)
    requires cfg.Legal(path) && step <= |path|
  {
    cfg.PrefixLegal(path, step);
    var reached := cfg.After(path[..step]);
    && |reached.threads| == |threads|
    && forall ref :: InThreads(threads, ref) && ref.index >= |reached.threads[ref.thread]| ==>
         Returned(cfg.target, TaskAt(threads, ref))
  }

  /** Tasks are only ever added, and keep their name and arguments. */
  lemma {:induction false} ShapesGrow(cfg: Config, path: Schedule, k: nat)
    requires cfg.Legal(path) && k <= |path|
    ensures cfg.Legal(path[..k])
    ensures Grown(cfg.After(path[..k]).threads, cfg.After(path).threads)
    decreases |path| - k
  {
    hide cfg.After, cfg.Legal, cfg.Enabled, Grown;
    cfg.PrefixLegal(path, k);
    if k == |path| {
      assert path[..k] == path;
      GrownTransitive(cfg.After(path).threads, cfg.After(path).threads, cfg.After(path).threads);
    } else {
      ShapesGrow(cfg, path, k + 1);
      cfg.NextInPath(path, k);
      NextGrows(cfg, cfg.After(path[..k]), path[k]);
      GrownTransitive(cfg.After(path[..k]).threads, cfg.After(path[..k + 1]).threads, cfg.After(path).threads);
    }
  }

  lemma GrownTransitive(a: Threads, b: Threads, c: Threads)
    ensures Grown(a, a)
    ensures Grown(a, b) && Grown(b, c) ==> Grown(a, c)
  {
  }

  ghost predicate Grown(a: Threads, b: Threads) {
    && |a| == |b|
    && (forall t :: 0 <= t < |a| ==> |a[t]| <= |b[t]|)
    && (forall t, i :: 0 <= t < |a| && 0 <= i < |a[t]| ==> ShapeOf(a[t][i]) == ShapeOf(b[t][i]))
  }

  lemma NextGrows(cfg: Config, s: Snapshot, choice: Choice)
    requires cfg.Enabled(s, choice)
    ensures Grown(s.threads, cfg.Next(s, choice).threads)
  {
  }

  lemma {:induction false} FramesOf(cfg: Config, path: Schedule, k: nat)
    requires cfg.Legal(path) && k < |path|
    ensures |cfg.After(path).frames| == |path|
    ensures cfg.Legal(path[..k]) && cfg.Enabled(cfg.After(path[..k]), path[k])
    ensures cfg.After(path).frames[k] == Frame(Some(cfg.RefOf(cfg.After(path[..k]), path[k])), path[k].Start?)
  {
    hide cfg.After, cfg.Legal, cfg.Enabled, cfg.RefOf;
    LastFrame(cfg, path);
    var shorter := path[..|path| - 1];
    FramesCount(cfg, shorter);
    if k < |shorter| {
      FramesOf(cfg, shorter, k);
      assert shorter[..k] == path[..k];
    } else {
      assert shorter == path[..k];
    }
  }

  lemma LastFrame(cfg: Config, path: Schedule)
    requires cfg.Legal(path) && path != []
    ensures var shorter, last := path[..|path| - 1], path[|path| - 1];
            && cfg.Legal(shorter) && cfg.Enabled(cfg.After(shorter), last)
            && cfg.After(path).frames ==
                 cfg.After(shorter).frames + [Frame(Some(cfg.RefOf(cfg.After(shorter), last)), last.Start?)]
  {
    hide cfg.Enabled, cfg.RefOf, cfg.Resumed, cfg.Pushed;
  }

  lemma {:induction false} FramesCount(cfg: Config, path: Schedule)
    requires cfg.Legal(path)
    ensures |cfg.After(path).frames| == |path|
  {
    if path != [] { FramesCount(cfg, path[..|path| - 1]); }
  }

  /** The task a step resumes, before it is resumed. */
  function Rerun(cfg: Config, threads: Threads, ref: TaskRef, isNew: bool): Task
    requires InThreads(threads, ref)
  {
    if isNew then Renewed(cfg.target, TaskAt(threads, ref)) else TaskAt(threads, ref)
  }

  lemma RerunIsOriginal(cfg: Config, s: Snapshot, choice: Choice, threads: Threads)
    requires cfg.Enabled(s, choice)
    requires Grown(cfg.Next(s, choice).threads, threads)
    requires forall t :: 0 <= t < |threads| ==> s.threads[t] <= threads[t]
    ensures var ref := cfg.RefOf(s, choice);
            InThreads(threads, ref)
            && var pushed := cfg.Pushed(s.threads, choice)[choice.thread];
               Rerun(cfg, threads, ref, choice.Start?) == pushed[|pushed| - 1]
  {
    var ref := cfg.RefOf(s, choice);
    var next := cfg.Next(s, choice).threads;
    assert InThreads(next, ref) && TaskAt(next, ref) == cfg.Resumed(s, choice).1;
    assert ShapeOf(TaskAt(next, ref)) == ShapeOf(TaskAt(threads, ref));
  }

  lemma RerunExtends(cfg: Config, s: Snapshot, choice: Choice, threads: Threads)
    requires cfg.Enabled(s, choice)
    requires Grown(cfg.Next(s, choice).threads, threads)
    requires forall t :: 0 <= t < |threads| ==> s.threads[t] <= threads[t]
    ensures var ref := cfg.RefOf(s, choice);
            InThreads(threads, ref)
            && var after := SetTask(threads, ref, cfg.Resumed(s, choice).1);
               SameShape(after, threads)
               && forall t :: 0 <= t < |after| ==> cfg.Next(s, choice).threads[t] <= after[t]
  {
    RerunIsOriginal(cfg, s, choice, threads);
    var ref, task := cfg.RefOf(s, choice), cfg.Resumed(s, choice).1;
    var next, after := cfg.Next(s, choice).threads, SetTask(threads, ref, task);
    forall t | 0 <= t < |after| ensures next[t] <= after[t] {
      assert forall i :: 0 <= i < |next[t]| ==> next[t][i] == after[t][i];
    }
  }

  lemma ReplayedNext(cfg: Config, path: Schedule, step: nat, state: Shared, threads: Threads)
    requires cfg.Legal(path) && step < |path| && Replayed(cfg, path, step, state, threads)
    ensures cfg.Legal(path[..step]) && cfg.Enabled(cfg.After(path[..step]), path[step])
    ensures var s, choice := cfg.After(path[..step]), path[step];
            InThreads(threads, cfg.RefOf(s, choice))
            && Replayed(cfg, path, step + 1, cfg.Resumed(s, choice).0,
                        SetTask(threads, cfg.RefOf(s, choice), cfg.Resumed(s, choice).1))
  {
    hide cfg.After, cfg.Legal, cfg.Resumed, cfg.RefOf, cfg.Enabled, Grown;
    cfg.NextInPath(path, step);
    var s, choice := cfg.After(path[..step]), path[step];
    ShapesGrow(cfg, path, step + 1);
    GrownSameShape(cfg.Next(s, choice).threads, cfg.After(path).threads, threads);
    RerunExtends(cfg, s, choice, threads);
  }

  /** A new task had returned before its step restarts it, and the tasks of later steps wait on. */
  lemma WaitingNext(cfg: Config, path: Schedule, step: nat, threads: Threads)
    requires cfg.Legal(path) && step < |path| && Waiting(cfg, path, step, threads)
    ensures cfg.Legal(path[..step]) && cfg.Enabled(cfg.After(path[..step]), path[step])
    ensures var s, choice := cfg.After(path[..step]), path[step];
            InThreads(threads, cfg.RefOf(s, choice)) ==>
              && (choice.Start? ==> Returned(cfg.target, TaskAt(threads, cfg.RefOf(s, choice))))
              && Waiting(cfg, path, step + 1, SetTask(threads, cfg.RefOf(s, choice), cfg.Resumed(s, choice).1))
  {
    hide cfg.After, cfg.Legal, cfg.Enabled;
    cfg.NextInPath(path, step);
  }

  lemma GrownSameShape(a: Threads, b: Threads, c: Threads)
    requires Grown(a, b) && SameShape(c, b)
    ensures Grown(a, c)
  {
  }

  /** Re-running a recorded frame has the effect the step had originally. */
  lemma ReplayFrame(cfg: Config, path: Schedule, step: nat, state: Shared, threads: Threads)
    requires cfg.Valid() && cfg.Legal(path) && step < |path| && Replayed(cfg, path, step, state, threads)
    ensures cfg.Legal(path[..step]) && cfg.Enabled(cfg.After(path[..step]), path[step])
    ensures var ref := cfg.RefOf(cfg.After(path[..step]), path[step]);
            InThreads(threads, ref)
            && var before := Rerun(cfg, threads, ref, path[step].Start?);
               !Returned(cfg.target, before)
               && cfg.Resumed(cfg.After(path[..step]), path[step])
                  == (cfg.target.step(state, before.local).0, before.(local := cfg.target.step(state, before.local).1))
  {
    hide cfg.After, cfg.Legal, cfg.Enabled, cfg.Next, cfg.Resumed, cfg.RefOf, cfg.Pushed, Rerun, Grown, SameShape;
    cfg.NextInPath(path, step);
    var s, choice := cfg.After(path[..step]), path[step];
    ShapesGrow(cfg, path, step + 1);
    GrownSameShape(cfg.Next(s, choice).threads, cfg.After(path).threads, threads);
    PushedRuns(cfg, s, choice);
    RerunIsOriginal(cfg, s, choice, threads);
  }

  /** A step resumes a task that has not returned. */
  lemma PushedRuns(cfg: Config, s: Snapshot, choice: Choice)
    requires cfg.Valid() && cfg.Enabled(s, choice)
    ensures var thread := cfg.Pushed(s.threads, choice)[choice.thread];
            var before := thread[|thread| - 1];
            && !Returned(cfg.target, before)
            && cfg.Resumed(s, choice)
               == (cfg.target.step(s.state, before.local).0, before.(local := cfg.target.step(s.state, before.local).1))
  {
  }

  // ---- What a call of the explorer reports ----

  ghost predicate AllAccepted(cfg: Config, list: seq<Schedule>) {
    forall i :: 0 <= i < |list| ==> cfg.Legal(list[i]) && cfg.Accepted(list[i])
  }

  /** `seen` is what was checked of the list `todo`. Exploration stops early only at a rejected
      schedule, which it reports, or at the round limit. */
  ghost predicate Verdict(cfg: Config, todo: seq<Schedule>, seen: seq<Schedule>,
                          isOver: bool, res: Option<History>, rounds: nat)
  {
    && seen <= todo
    && (forall i :: 0 <= i < |seen| ==> cfg.Legal(seen[i]))
    && match res
       case Some(h) =>
         && !isOver && seen != []
         && AllAccepted(cfg, seen[..|seen| - 1])
         && !cfg.Accepted(seen[|seen| - 1])
         && h == cfg.After(seen[|seen| - 1]).history
       case None =>
         && AllAccepted(cfg, seen)
         && (if isOver then rounds == cfg.maxRounds else seen == todo)
  }

  lemma VerdictStops(cfg: Config, all: seq<Schedule>, done: seq<Schedule>, todo: seq<Schedule>, rest: seq<Schedule>,
                     seen: seq<Schedule>, isOver: bool, res: Option<History>, rounds: nat)
    requires AllAccepted(cfg, done) && Verdict(cfg, todo, seen, isOver, res, rounds)
    requires all == done + (todo + rest) && (isOver || res.Some?)
    ensures Verdict(cfg, all, done + seen, isOver, res, rounds)
    ensures res.Some? ==> seen != []
  {
    hide cfg.Legal, cfg.Accepted, cfg.After;
    assert all == (done + todo) + rest;
    if res.Some? {
      assert (done + seen)[..|done + seen| - 1] == done + seen[..|seen| - 1];
    }
  }

  lemma VerdictDone(cfg: Config, all: seq<Schedule>, done: seq<Schedule>, todo: seq<Schedule>, rest: seq<Schedule>,
                    seen: seq<Schedule>, rounds: nat)
    requires AllAccepted(cfg, done) && Verdict(cfg, todo, seen, false, None, rounds)
    requires all == done + (todo + rest)
    ensures AllAccepted(cfg, done + seen) && all == done + seen + rest
  {
    hide cfg.Legal, cfg.Accepted, cfg.After;
  }

  lemma VerdictDisabled(cfg: Config, path: Schedule, choice: Choice, rounds: nat)
    requires cfg.Valid() && cfg.Legal(path) && !cfg.Enabled(cfg.After(path), choice)
    ensures Verdict(cfg, cfg.Below(path, choice), [], false, None, rounds)
  {
  }

  lemma BelowStep(cfg: Config, path: Schedule, choice: Choice)
    requires cfg.Valid() && cfg.Legal(path) && cfg.Enabled(cfg.After(path), choice)
    ensures cfg.Legal(path + [choice])
    ensures cfg.Below(path, choice) ==
              if cfg.After(path + [choice]).finished == cfg.maxTasks then [path + [choice]]
              else cfg.Enumerate(path + [choice])
  {
    cfg.StepDrops(path, choice);
  }

  lemma VerdictChecked(cfg: Config, path: Schedule, ok: bool, rounds: nat)
    requires cfg.Legal(path) && cfg.TableCovers(path)
    requires ok <==> Linearizable(cfg.spec, TableOf(cfg.target, cfg.After(path).threads), cfg.After(path).history)
    ensures Verdict(cfg, [path], [path], false, if ok then None else Some(cfg.After(path).history), rounds)
    ensures ok && rounds == cfg.maxRounds ==> Verdict(cfg, [path], [path], true, None, rounds)
  {
  }

  lemma VerdictAll(cfg: Config, todo: seq<Schedule>, rounds: nat)
    requires AllAccepted(cfg, todo)
    ensures Verdict(cfg, todo, todo, false, None, rounds)
  {
  }

  lemma EnumerateSplit(cfg: Config, path: Schedule)
    requires cfg.Valid() && cfg.Legal(path)
    ensures cfg.Enumerate(path) == [] + cfg.FromThread(path, 0)
    ensures AllAccepted(cfg, [])
  {
  }

  lemma FromThreadSplit(cfg: Config, path: Schedule, t: nat)
    requires cfg.Valid() && cfg.Legal(path) && t < cfg.threadCount
    ensures |cfg.After(path).threads| == cfg.threadCount
    ensures cfg.FromThread(path, t) ==
              (if Busy(cfg.target, cfg.After(path).threads[t]) then cfg.Below(path, Continue(t))
                else cfg.FromBuilder(path, t, 0))
              + cfg.FromThread(path, t + 1)
  {
    cfg.LegalConsistent(path);
  }

  lemma FromThreadEnds(cfg: Config, path: Schedule)
    requires cfg.Valid() && cfg.Legal(path)
    ensures cfg.FromThread(path, cfg.threadCount) == []
  {
  }

  lemma FromBuilderSplit(cfg: Config, path: Schedule, t: nat, b: nat)
    requires cfg.Valid() && cfg.Legal(path) && t < cfg.threadCount && b < |cfg.builders|
    ensures cfg.FromBuilder(path, t, b) + cfg.FromThread(path, t + 1) ==
              cfg.Below(path, Start(t, b)) + (cfg.FromBuilder(path, t, b + 1) + cfg.FromThread(path, t + 1))
  {
  }

  lemma FromBuilderEnds(cfg: Config, path: Schedule, t: nat)
    requires cfg.Valid() && cfg.Legal(path) && t < cfg.threadCount
    ensures cfg.FromBuilder(path, t, |cfg.builders|) == []
  {
  }

  lemma {:induction false} NothingStarts(cfg: Config, path: Schedule, t: nat, b: nat)
    requires cfg.Valid() && cfg.Legal(path) && t < cfg.threadCount && b <= |cfg.builders|
    requires |cfg.After(path).threads| == cfg.threadCount
    requires cfg.After(path).started == cfg.maxTasks || |cfg.After(path).threads[t]| >= cfg.maxDepth
    ensures cfg.FromBuilder(path, t, b) == []
    decreases |cfg.builders| - b
  {
    if b < |cfg.builders| {
      NothingStarts(cfg, path, t, b + 1);
    }
  }

  lemma PoppedShape(cfg: Config, s: Snapshot, choice: Choice, threads: Threads)
    requires choice.Start? && cfg.Enabled(s, choice) && SameShape(threads, cfg.Pushed(s.threads, choice))
    ensures var t := choice.thread;
            t < |threads| && threads[t] != []
            && SameShape(threads[t := threads[t][..|threads[t]| - 1]], s.threads)
  {
  }

  /** Reading a verdict on the whole list as a statement about schedules. */
  lemma ChecksAreExhaustive(cfg: Config, seen: seq<Schedule>, isOver: bool, res: Option<History>, rounds: nat)
    requires cfg.Valid() && Verdict(cfg, cfg.Enumerate([]), seen, isOver, res, rounds)
    ensures NoRepeats(seen) && forall s :: s in seen ==> cfg.Complete(s)
    ensures res.None? ==>
              && AllAccepted(cfg, seen)
              && (rounds == cfg.maxRounds || forall s :: cfg.Complete(s) ==> s in seen && cfg.Accepted(s))
    ensures res.Some? ==>
              && seen != []
              && AllAccepted(cfg, seen[..|seen| - 1])
              && cfg.Legal(seen[|seen| - 1])
              && var last := cfg.After(seen[|seen| - 1]);
                 res.value == last.history
                 && WellFormed(res.value, TableOf(cfg.target, last.threads))
                 && !Linearizable(cfg.spec, TableOf(cfg.target, last.threads), res.value)
  {
    hide cfg.After, cfg.Enumerate;
    cfg.EnumerateOnce([]);
    forall s ensures s in cfg.Enumerate([]) <==> cfg.Complete(s) {
      cfg.Exhaustive(s);
    }
    assert forall s :: s in seen ==> s in cfg.Enumerate([]);
    if res.Some? {
      cfg.LegalWellFormed(seen[|seen| - 1]);
      cfg.EventsInTable(seen[|seen| - 1]);
    }
  }

  class Explorer {
    const cfg: Config

    var startedTasks: nat
    var finishedTasks: nat
    var finishedRounds: nat
    var state: Shared
    var sequentialHistory: History
    var fullHistory: seq<(nat, TaskRef)>
    var threadIdHistory: seq<nat>
    var threads: Threads
    var frames: seq<Frame>

    /** Every schedule handed to the checker so far. */
    ghost var checked: seq<Schedule>

    constructor (cfg: Config)
      ensures this.cfg == cfg && finishedRounds == 0 && checked == []
      ensures At([]) && frames == []
    {
      this.cfg := cfg;
      startedTasks, finishedTasks, finishedRounds := 0, 0, 0;
      state := cfg.target.reset;
      sequentialHistory, fullHistory, threadIdHistory := [], [], [];
      threads := seq(cfg.threadCount, _ => []);
      frames := [];
      checked := [];
    }

    ghost predicate Records(s: Snapshot)
      reads this
    {
      && sequentialHistory == s.history
      && fullHistory == s.fullHistory
      && threadIdHistory == s.threadIds
      && finishedTasks == s.finished
    }

    /** The explorer stands exactly where `path` leads. */
    ghost predicate At(path: Schedule)
      reads this
    {
      && cfg.Legal(path)
      && Records(cfg.After(path))
      && startedTasks == cfg.After(path).started
      && state == cfg.After(path).state
      && threads == cfg.After(path).threads
    }

    /** Resumes every unfinished task until it returns. */
    method TerminateTasks()
      requires cfg.Valid()
      modifies this`state, this`threads
      ensures SameShape(threads, old(threads))
      ensures forall ref :: InThreads(threads, ref) ==> Returned(cfg.target, TaskAt(threads, ref))
    {
      var i := 0;
      while i < |threads|
        invariant i <= |threads| && SameShape(threads, old(threads)) && TerminatedUpTo(i, 0)
      {
        var j := 0;
        while j < |threads[i]|
          invariant i < |threads| && j <= |threads[i]| && SameShape(threads, old(threads)) && TerminatedUpTo(i, j)
        {
          while !Returned(cfg.target, threads[i][j])
            invariant i < |threads| && j < |threads[i]| && SameShape(threads, old(threads)) && TerminatedUpTo(i, j)
            decreases cfg.target.fuel(threads[i][j].local)
          {
            Resume(TaskRef(i, j));
          }
          j := j + 1;
        }
        i := i + 1;
      }
    }

    /** All tasks before the given one have returned. */
    ghost predicate TerminatedUpTo(thread: nat, index: nat)
      reads this`threads
    {
      forall ref :: InThreads(threads, ref) && (ref.thread < thread || (ref.thread == thread && ref.index < index)) ==>
        Returned(cfg.target, TaskAt(threads, ref))
    }

    method Resume(ref: TaskRef)
      requires cfg.Valid() && InThreads(threads, ref) && !Returned(cfg.target, TaskAt(threads, ref))
      modifies this`state, this`threads
      ensures var task := TaskAt(old(threads), ref);
              state == cfg.target.step(old(state), task.local).0
              && threads == SetTask(old(threads), ref, task.(local := cfg.target.step(old(state), task.local).1))
      ensures SameShape(threads, old(threads))
      ensures |threads| == |old(threads)| && |threads[ref.thread]| == |old(threads)[ref.thread]|
      ensures cfg.target.fuel(TaskAt(threads, ref).local) < cfg.target.fuel(TaskAt(old(threads), ref).local)
    {
      var task := TaskAt(threads, ref);
      var (next, local) := cfg.target.step(state, task.local);
      state := next;
      threads := SetTask(threads, ref, task.(local := local));
    }

    /** Rebuilds the target and all tasks as they were after the recorded steps. */
    method Replay(stepEnd: nat, ghost path: Schedule)
      requires cfg.Valid() && cfg.Legal(path) && stepEnd == |path| <= |frames|
      requires frames[..stepEnd] == cfg.After(path).frames
      requires SameShape(threads, cfg.After(path).threads)
      modifies this`state, this`threads
      ensures state == cfg.After(path).state && threads == cfg.After(path).threads
    {
      hide cfg.After, cfg.Legal, cfg.Resumed, cfg.RefOf, cfg.Enabled, Replayed, Waiting, SameShape;
      TerminateTasks();
      state := cfg.target.reset;
      SameShapeTransitive(threads, old(threads), cfg.After(path).threads);
      ReplayedNothing(cfg, path, threads);
      var step := 0;
      while step < stepEnd
        invariant step <= stepEnd && Replayed(cfg, path, step, state, threads) && Waiting(cfg, path, step, threads)
      {
        FramesOf(cfg, path, step);
        WaitingNext(cfg, path, step, threads);
        ReplayFrame(cfg, path, step, state, threads);
        ReplayedNext(cfg, path, step, state, threads);
        assert frames[step] == frames[..stepEnd][step];
        var ref := frames[step].task.value;
        ghost var before := Rerun(cfg, threads, ref, frames[step].isNew);
        SetTwice(threads, ref, before, before.(local := cfg.target.step(state, before.local).1));
        if frames[step].isNew {
          threads := SetTask(threads, ref, Restart(cfg.target, TaskAt(threads, ref)));
        }
        assert InThreads(threads, ref) && TaskAt(threads, ref) == before;
        Resume(ref);
        step := step + 1;
      }
      ReplayedAll(cfg, path, state, threads);
    }

    /** The chosen thread's last task is set up for its next step; nothing has been resumed yet. */
    ghost predicate Chosen(path: Schedule, choice: Choice)
      reads this
    {
      && cfg.Legal(path)
      && Choosable(cfg, cfg.After(path), choice)
      && Records(cfg.After(path))
      && state == cfg.After(path).state
      && threads == cfg.Pushed(cfg.After(path).threads, choice)
      && startedTasks == cfg.After(path).started + (if choice.Start? then 1 else 0)
      && FramesUpTo(path)
    }

    /** The frames of `path`, below the frame of the step being chosen. */
    ghost predicate FramesUpTo(path: Schedule)
      requires cfg.Legal(path)
      reads this`frames
    {
      |frames| == |path| + 1 && frames[..|path|] == cfg.After(path).frames
    }

    /** What a call has checked is on record. */
    ghost predicate Logged(before: seq<Schedule>, rounds: nat, seen: seq<Schedule>)
      reads this`checked, this`finishedRounds
    {
      checked == before + seen && finishedRounds == rounds + |seen|
    }

    /** The limit on rounds leaves room for another one; a limit of 0 is never reached. */
    ghost predicate HasRoom()
      reads this`finishedRounds
    {
      cfg.maxRounds == 0 || finishedRounds < cfg.maxRounds
    }

    /** The limit on rounds was not passed, and stops the exploration when it is reached. */
    ghost predicate KeepsLimit(goesOn: bool)
      reads this`finishedRounds
    {
      if goesOn then HasRoom() else cfg.maxRounds == 0 || finishedRounds <= cfg.maxRounds
    }

    /** Back where `path` leads, except for the target and tasks, which only a replay restores. */
    ghost predicate Undone(path: Schedule, choice: Choice)
      reads this
    {
      && cfg.Legal(path)
      && Choosable(cfg, cfg.After(path), choice)
      && Records(cfg.After(path))
      && startedTasks == cfg.After(path).started
      && SameShape(threads, cfg.Pushed(cfg.After(path).threads, choice))
      && FramesUpTo(path)
    }

    /** Resumes the chosen task; if the schedule is complete it is checked, otherwise exploration goes on. */
    method ResumeTask(step: nat, switches: nat, thread: nat, isNew: bool, ghost path: Schedule, ghost choice: Choice)
      returns (isOver: bool, res: Option<History>, ghost seen: seq<Schedule>)
      requires cfg.Valid() && Chosen(path, choice) && HasRoom()
      requires thread == choice.thread && isNew == choice.Start?
      requires step == |path| && switches == cfg.After(path).switches
      modifies this
      ensures Verdict(cfg, cfg.Below(path, choice), seen, isOver, res, finishedRounds)
      ensures Logged(old(checked), old(finishedRounds), seen) && KeepsLimit(!isOver && res.None?)
      ensures !isOver && res.None? ==> Undone(path, choice)
      ensures res.Some? ==> threads == cfg.After(seen[|seen| - 1]).threads
      decreases cfg.Potential(cfg.After(path)), 0
    {
      hide cfg.After, cfg.Legal, cfg.Potential, cfg.Accepted, cfg.Enumerate, cfg.Below, Verdict, SameShape;
      var nextSwitches := switches;
      if !isNew {
        if threadIdHistory == [] || threadIdHistory[|threadIdHistory| - 1] != thread {
          nextSwitches := nextSwitches + 1;
        }
        if nextSwitches > cfg.maxSwitches {
          SameShapeReflexive(threads);
          VerdictDisabled(cfg, path, choice, finishedRounds);
          return false, None, [];
        }
      }
      cfg.StepDrops(path, choice);
      FramesCount(cfg, path);
      BelowStep(cfg, path, choice);
      ghost var longer := path + [choice];
      var finished := Advance(step, thread, isNew, path, choice);
      var stop := finishedTasks == cfg.maxTasks;
      if !stop {
        isOver, res, seen := RunStep(step + 1, nextSwitches, longer);
        if isOver || res.Some? {
          return;
        }
      } else {
        isOver, res, seen := FinishRound(longer);
        if isOver || res.Some? {
          return;
        }
      }
      Retreat(thread, isNew, finished, path, choice);
    }

    /** Hands a complete schedule's history to the checker. */
    method FinishRound(ghost path: Schedule)
      returns (isOver: bool, res: Option<History>, ghost seen: seq<Schedule>)
      requires At(path) && HasRoom()
      modifies this`finishedRounds, this`checked
      ensures seen == [path] && Verdict(cfg, [path], seen, isOver, res, finishedRounds)
      ensures Logged(old(checked), old(finishedRounds), seen) && KeepsLimit(!isOver && res.None?)
    {
      hide cfg.After, cfg.Legal, cfg.Accepted, Verdict, WellFormed;
      finishedRounds := finishedRounds + 1;
      cfg.LegalWellFormed(path);
      cfg.EventsInTable(path);
      var ok := LincheckRecursive.Check(cfg.spec, TableOf(cfg.target, threads), sequentialHistory);
      checked := checked + [path];
      VerdictChecked(cfg, path, ok, finishedRounds);
      if !ok {
        return false, Some(sequentialHistory), [path];
      }
      if finishedRounds == cfg.maxRounds {
        return true, None, [path];
      }
      return false, None, [path];
    }

    /** The step itself: frame, histories and counters are updated, the task is resumed. */
    method Advance(step: nat, thread: nat, isNew: bool, ghost path: Schedule, ghost choice: Choice)
      returns (finished: bool)
      requires cfg.Valid() && Chosen(path, choice) && cfg.Enabled(cfg.After(path), choice)
      requires thread == choice.thread && isNew == choice.Start? && step == |path|
      requires cfg.Legal(path + [choice]) && cfg.After(path + [choice]) == cfg.Next(cfg.After(path), choice)
      modifies this
      ensures At(path + [choice]) && frames == cfg.After(path + [choice]).frames
      ensures finished <==> finishedTasks != cfg.After(path).finished
      ensures checked == old(checked) && finishedRounds == old(finishedRounds)
    {
      hide cfg.After, cfg.Legal;
      var ref := TaskRef(thread, |threads[thread]| - 1);
      RecordStart(step, ref, isNew);
      Resume(ref);
      finished := RecordEnd(ref);
    }

    method RecordStart(step: nat, ref: TaskRef, isNew: bool)
      requires step < |frames|
      modifies this`frames, this`threadIdHistory, this`sequentialHistory
      ensures frames == old(frames)[step := Frame(Some(ref), isNew)]
      ensures threadIdHistory == old(threadIdHistory) + [ref.thread]
      ensures sequentialHistory == if isNew then old(sequentialHistory) + [Invoke(ref)] else old(sequentialHistory)
    {
      frames := frames[step := Frame(Some(ref), isNew)];
      threadIdHistory := threadIdHistory + [ref.thread];
      if isNew {
        sequentialHistory := sequentialHistory + [Invoke(ref)];
      }
    }

    method RecordEnd(ref: TaskRef) returns (finished: bool)
      requires InThreads(threads, ref)
      modifies this`fullHistory, this`finishedTasks, this`sequentialHistory
      ensures fullHistory == old(fullHistory) + [(ref.thread, ref)]
      ensures finished == Returned(cfg.target, TaskAt(threads, ref))
      ensures finishedTasks == if finished then old(finishedTasks) + 1 else old(finishedTasks)
      ensures sequentialHistory ==
                if finished then
                  old(sequentialHistory) + [Response(ref, cfg.target.returned(TaskAt(threads, ref).local).value)]
                else old(sequentialHistory)
    {
      fullHistory := fullHistory + [(ref.thread, ref)];
      var task := TaskAt(threads, ref);
      finished := Returned(cfg.target, task);
      if finished {
        finishedTasks := finishedTasks + 1;
        sequentialHistory := sequentialHistory + [Response(ref, cfg.target.returned(task.local).value)];
      }
    }

    /** Takes the step's records back. */
    method Retreat(thread: nat, isNew: bool, finished: bool, ghost path: Schedule, ghost choice: Choice)
      requires cfg.Legal(path) && cfg.Enabled(cfg.After(path), choice) && isNew == choice.Start?
      requires cfg.Legal(path + [choice]) && cfg.After(path + [choice]) == cfg.Next(cfg.After(path), choice)
      requires At(path + [choice]) && frames == cfg.After(path + [choice]).frames
      requires finished <==> finishedTasks != cfg.After(path).finished
      requires |cfg.After(path).frames| == |path|
      modifies this`threadIdHistory, this`fullHistory, this`finishedTasks, this`startedTasks, this`sequentialHistory
      ensures Undone(path, choice)
    {
      hide cfg.After, cfg.Legal;
      threadIdHistory := threadIdHistory[..|threadIdHistory| - 1];
      fullHistory := fullHistory[..|fullHistory| - 1];
      if finished {
        finishedTasks := finishedTasks - 1;
        sequentialHistory := sequentialHistory[..|sequentialHistory| - 1];
      }
      if isNew {
        startedTasks := startedTasks - 1;
        sequentialHistory := sequentialHistory[..|sequentialHistory| - 1];
      }
    }

    /** Sound and exhaustive: a reported history belongs to a complete legal schedule and is rejected
        with the tasks as they are now; no report means every complete schedule was checked once and
        accepted, or the round limit was reached by accepted ones. */
    method Run() returns (res: Option<History>)
      requires cfg.Valid() && At([]) && frames == [] && checked == [] && finishedRounds == 0
      modifies this
      ensures NoRepeats(checked) && forall s :: s in checked ==> cfg.Complete(s)
      ensures cfg.maxRounds > 0 ==> |checked| <= cfg.maxRounds
      ensures res.Some? ==>
                && checked != []
                && AllAccepted(cfg, checked[..|checked| - 1])
                && cfg.Legal(checked[|checked| - 1])
                && res.value == cfg.After(checked[|checked| - 1]).history
                && WellFormed(res.value, TableOf(cfg.target, threads))
                && !Linearizable(cfg.spec, TableOf(cfg.target, threads), res.value)
      ensures res.None? ==>
                && AllAccepted(cfg, checked)
                && (|checked| == cfg.maxRounds || forall s :: cfg.Complete(s) ==> s in checked && cfg.Accepted(s))
      ensures res.None? && |checked| != cfg.maxRounds ==> At([])
    {
      hide cfg.After, cfg.Legal, cfg.Enumerate, cfg.Complete, WellFormed, NoRepeats;
      var isOver;
      ghost var seen;
      assert cfg.After([]).switches == 0 && cfg.After([]).frames == [] by { NothingRecorded(cfg); }
      isOver, res, seen := RunStep(0, 0, []);
      assert checked == seen;
      ChecksAreExhaustive(cfg, seen, isOver, res, finishedRounds);
    }

    /** Explores everything below `path` and comes back to where it started. */
    method RunStep(step: nat, switches: nat, ghost path: Schedule)
      returns (isOver: bool, res: Option<History>, ghost seen: seq<Schedule>)
      requires cfg.Valid() && At(path) && frames == cfg.After(path).frames && HasRoom()
      requires step == |path| && switches == cfg.After(path).switches
      modifies this
      ensures Verdict(cfg, cfg.Enumerate(path), seen, isOver, res, finishedRounds)
      ensures Logged(old(checked), old(finishedRounds), seen) && KeepsLimit(!isOver && res.None?)
      ensures !isOver && res.None? ==> At(path) && frames == cfg.After(path).frames
      ensures res.Some? ==> threads == cfg.After(seen[|seen| - 1]).threads
      decreases cfg.Potential(cfg.After(path)), 2
    {
      hide cfg.After, cfg.Legal, cfg.Potential, cfg.Accepted, cfg.Enabled, AllAccepted;
      hide cfg.Enumerate, cfg.FromThread, cfg.InThread, cfg.FromBuilder, cfg.Below, Verdict, SameShape;
      frames := frames + [Frame(None, false)];
      FramesCount(cfg, path);
      cfg.LegalConsistent(path);
      EnumerateSplit(cfg, path);
      seen := [];
      ghost var all := cfg.Enumerate(path);
      var i := 0;
      while i < |threads|
        invariant i <= |threads| == cfg.threadCount
        invariant At(path) && FramesUpTo(path)
        invariant Logged(old(checked), old(finishedRounds), seen) && HasRoom()
        invariant AllAccepted(cfg, seen) && all == seen + cfg.FromThread(path, i)
      {
        FromThreadSplit(cfg, path, i);
        if Busy(cfg.target, threads[i]) {
          frames := frames[step := frames[step].(isNew := false)];
          ghost var rest := cfg.FromThread(path, i + 1);
          ghost var more;
          isOver, res, more := ResumeTask(step, switches, i, false, path, Continue(i));
          if isOver || res.Some? {
            VerdictStops(cfg, all, seen, cfg.Below(path, Continue(i)), rest, more, isOver, res, finishedRounds);
            seen := seen + more;
            return;
          }
          VerdictDone(cfg, all, seen, cfg.Below(path, Continue(i)), rest, more, finishedRounds);
          seen := seen + more;
          Replay(step, path);
          i := i + 1;
          continue;
        }
        var stop := startedTasks == cfg.maxTasks;
        if !stop && |threads[i]| < cfg.maxDepth {
          isOver, res, seen := StartTasks(step, switches, i, path, seen, old(checked), old(finishedRounds));
          if isOver || res.Some? {
            return;
          }
        } else {
          NothingStarts(cfg, path, i, 0);
        }
        i := i + 1;
      }
      FromThreadEnds(cfg, path);
      frames := frames[..|frames| - 1];
      assert seen + [] == seen;
      VerdictAll(cfg, seen, finishedRounds);
      return false, None, seen;
    }

    /** Tries every constructor in an idle thread: build the task, explore, drop the task, replay. */
    method StartTasks(step: nat, switches: nat, thread: nat, ghost path: Schedule, ghost before: seq<Schedule>,
                      ghost log: seq<Schedule>, ghost rounds: nat)
      returns (isOver: bool, res: Option<History>, ghost seen: seq<Schedule>)
      requires cfg.Valid() && At(path) && FramesUpTo(path)
      requires thread < |threads| == cfg.threadCount && !Busy(cfg.target, threads[thread])
      requires startedTasks != cfg.maxTasks && |threads[thread]| < cfg.maxDepth
      requires step == |path| && switches == cfg.After(path).switches
      requires Logged(log, rounds, before) && AllAccepted(cfg, before) && HasRoom()
      requires cfg.Enumerate(path) == before + (cfg.FromBuilder(path, thread, 0) + cfg.FromThread(path, thread + 1))
      modifies this
      ensures Logged(log, rounds, seen) && KeepsLimit(!isOver && res.None?)
      ensures isOver || res.Some? ==> Verdict(cfg, cfg.Enumerate(path), seen, isOver, res, finishedRounds)
      ensures !isOver && res.None? ==> At(path) && FramesUpTo(path) && |threads| == cfg.threadCount
      ensures !isOver && res.None? ==>
                AllAccepted(cfg, seen) && cfg.Enumerate(path) == seen + cfg.FromThread(path, thread + 1)
      ensures res.Some? ==> threads == cfg.After(seen[|seen| - 1]).threads
      decreases cfg.Potential(cfg.After(path)), 1
    {
      hide cfg.After, cfg.Legal, cfg.Potential, cfg.Accepted, AllAccepted, cfg.SwitchesAfter;
      hide cfg.Enumerate, cfg.FromThread, cfg.FromBuilder, cfg.Below, Verdict, SameShape, Linearizable;
      seen := before;
      ghost var all := cfg.Enumerate(path);
      var b := 0;
      while b < |cfg.builders|
        invariant b <= |cfg.builders|
        invariant At(path) && FramesUpTo(path)
        invariant Logged(log, rounds, seen) && AllAccepted(cfg, seen) && HasRoom()
        invariant all == seen + (cfg.FromBuilder(path, thread, b) + cfg.FromThread(path, thread + 1))
      {
        FromBuilderSplit(cfg, path, thread, b);
        frames := frames[step := frames[step].(isNew := true)];
        threads := threads[thread := threads[thread] + [Build(cfg.target, cfg.builders[b], thread, -1)]];
        startedTasks := startedTasks + 1;
        ghost var rest := cfg.FromBuilder(path, thread, b + 1) + cfg.FromThread(path, thread + 1);
        ghost var more;
        isOver, res, more := ResumeTask(step, switches, thread, true, path, Start(thread, b));
        if isOver || res.Some? {
          VerdictStops(cfg, all, seen, cfg.Below(path, Start(thread, b)), rest, more, isOver, res, finishedRounds);
          seen := seen + more;
          return;
        }
        VerdictDone(cfg, all, seen, cfg.Below(path, Start(thread, b)), rest, more, finishedRounds);
        seen := seen + more;
        PoppedShape(cfg, cfg.After(path), Start(thread, b), threads);
        threads := threads[thread := threads[thread][..|threads[thread]| - 1]];
        Replay(step, path);
        b := b + 1;
      }
      FromBuilderEnds(cfg, path, thread);
      isOver, res := false, None;
    }

  }

  lemma NothingRecorded(cfg: Config)
    ensures cfg.After([]).switches == 0 && cfg.After([]).frames == []
  {
  }

  /** The thread can take this step, the switch limit aside. */
  ghost predicate Choosable(cfg: Config, s: Snapshot, choice: Choice) {
    && choice.thread < |s.threads|
    && match choice
       case Start(_, _) => cfg.Enabled(s, choice)
       case Continue(t) => Busy(cfg.target, s.threads[t])
  }

  lemma SetTwice(threads: Threads, ref: TaskRef, first: Task, second: Task)
    requires InThreads(threads, ref)
    ensures InThreads(SetTask(threads, ref, first), ref)
    ensures TaskAt(SetTask(threads, ref, first), ref) == first
    ensures SetTask(SetTask(threads, ref, first), ref, second) == SetTask(threads, ref, second)
    ensures SetTask(threads, ref, TaskAt(threads, ref)) == threads
  {
    var row := threads[ref.thread];
    assert row[ref.index := first][ref.index := second] == row[ref.index := second];
    assert row[ref.index := row[ref.index]] == row;
    assert SetTask(SetTask(threads, ref, first), ref, second) == SetTask(threads, ref, second);
    assert SetTask(threads, ref, TaskAt(threads, ref)) == threads;
  }

  lemma ReplayedNothing(cfg: Config, path: Schedule, threads: Threads)
    requires cfg.Legal(path) && SameShape(threads, cfg.After(path).threads)
    requires forall ref :: InThreads(threads, ref) ==> Returned(cfg.target, TaskAt(threads, ref))
    ensures Replayed(cfg, path, 0, cfg.target.reset, threads) && Waiting(cfg, path, 0, threads)
  {
    cfg.PrefixLegal(path, 0);
    cfg.LegalConsistent(path);
    assert path[..0] == [];
  }

  lemma ReplayedAll(cfg: Config, path: Schedule, state: Shared, threads: Threads)
    requires cfg.Legal(path) && Replayed(cfg, path, |path|, state, threads)
    ensures state == cfg.After(path).state && threads == cfg.After(path).threads
  {
    assert path[..|path|] == path;
    var original := cfg.After(path).threads;
    forall t | 0 <= t < |threads| ensures original[t] == threads[t] {
      assert original[t] <= threads[t] && |original[t]| == |threads[t]|;
    }
  }
}
