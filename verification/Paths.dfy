/** Schedules read by themselves: which tasks they create, which limits they keep, and that running one is
    playing the resumptions it lists. */
module Paths {
  import opened Histories
  import opened Playback
  import opened Rounds
  import opened Schedules
  import opened Tasks

  // ---- What a schedule says ----

  /** The constructors of the tasks started in a thread, in order. */
  function Starts(path: Schedule, t: nat): (builders: seq<nat>)
    decreases |path|
  {
    if path == [] then []
    else
      var init, last := Starts(path[..|path| - 1], t), path[|path| - 1];
      if last.Start? && last.thread == t then init + [last.builder] else init
  }

  /** The number of tasks started in all threads. */
  function StartCount(path: Schedule): nat
    decreases |path|
  {
    if path == [] then 0 else StartCount(path[..|path| - 1]) + if path[|path| - 1].Start? then 1 else 0
  }

  /** The continuations of a thread other than that of the step before. */
  function Switches(path: Schedule): nat
    decreases |path|
  {
    if path == [] then 0
    else
      var init, last := path[..|path| - 1], path[|path| - 1];
      Switches(init) + if last.Continue? && (init == [] || init[|init| - 1].thread != last.thread) then 1 else 0
  }

  /** The tasks resumed by the steps: each resumes the last task of its thread. */
  function Slots(path: Schedule): (order: Ordering)
    decreases |path|
  {
    if path == [] then []
    else
      var thread := path[|path| - 1].thread;
      Slots(path[..|path| - 1]) + [LastSlot(thread, |Starts(path, thread)|)]
  }

  function LastSlot(thread: nat, count: nat): TaskRef {
    TaskRef(thread, if count == 0 then 0 else count - 1)
  }

  function StartsOn(path: Schedule, choice: Choice, t: nat): seq<nat> {
    if choice.Start? && choice.thread == t then Starts(path, t) + [choice.builder] else Starts(path, t)
  }

  lemma OneMoreChoice(path: Schedule, choice: Choice)
    ensures StartCount(path + [choice]) == StartCount(path) + if choice.Start? then 1 else 0
    ensures Switches(path + [choice]) == Switches(path) +
      if choice.Continue? && (path == [] || path[|path| - 1].thread != choice.thread) then 1 else 0
    ensures forall t: nat :: Starts(path + [choice], t) == StartsOn(path, choice, t)
    ensures Slots(path + [choice]) ==
      Slots(path) + [LastSlot(choice.thread, |StartsOn(path, choice, choice.thread)|)]
  {
    assert (path + [choice])[..|path + [choice]| - 1] == path;
  }

  // ---- What a legal schedule does ----

  /** The records agree with the schedule. */
  ghost predicate Counts(cfg: Config, path: Schedule)
    requires cfg.Legal(path)
  {
    var s := cfg.After(path);
    && s.started == StartCount(path)
    && s.switches == Switches(path)
    && |s.threadIds| == |path|
    && (path != [] ==> s.threadIds[|path| - 1] == path[|path| - 1].thread)
    && |s.threads| == cfg.threadCount
  }

  /** The tasks of the thread are those the schedule starts there. */
  ghost predicate MadeAsSaid(cfg: Config, path: Schedule, t: nat)
    requires cfg.Legal(path) && t < |cfg.After(path).threads|
  {
    Made(cfg, cfg.After(path).threads[t], Starts(path, t), t)
  }

  ghost predicate Made(cfg: Config, thread: seq<Task>, starts: seq<nat>, t: nat) {
    && |thread| == |starts|
    && forall i :: 0 <= i < |thread| ==> MadeFrom(cfg, thread[i], starts[i], t)
  }

  /** The constructor with this number made the task for the thread. */
  ghost predicate MadeFrom(cfg: Config, task: Task, b: nat, t: nat) {
    b < |cfg.builders| && MadeBy(task, cfg.builders[b], t) && task.id == -1
  }

  ghost predicate Limited(cfg: Config, path: Schedule) {
    && Switches(path) <= cfg.maxSwitches
    && StartCount(path) <= cfg.maxTasks
    && (forall t: nat :: |Starts(path, t)| <= cfg.maxDepth)
    && (forall i :: 0 <= i < |path| ==> path[i].thread < cfg.threadCount)
  }

  lemma NextCounts(cfg: Config, s: Snapshot, choice: Choice)
    requires cfg.Enabled(s, choice)
    ensures var n := cfg.Next(s, choice);
            && n.started == s.started + (if choice.Start? then 1 else 0)
            && n.switches == cfg.SwitchesAfter(s, choice)
            && n.threadIds == s.threadIds + [choice.thread]
            && |n.threads| == |s.threads|
  {
  }

  lemma CountsOn(cfg: Config, path: Schedule, choice: Choice)
    requires cfg.Legal(path) && Counts(cfg, path) && cfg.Enabled(cfg.After(path), choice)
    ensures cfg.Legal(path + [choice]) && Counts(cfg, path + [choice])
  {
    hide cfg.After, cfg.Legal, cfg.Enabled, cfg.Next, Switches, StartCount, Starts, Slots, StartsOn;
    cfg.LegalStep(path, choice);
    OneMoreChoice(path, choice);
    NextCounts(cfg, cfg.After(path), choice);
  }

  /** What a step does to a thread: a start adds a task made by its constructor, and no task is made over. */
  lemma NextThread(cfg: Config, s: Snapshot, choice: Choice, t: nat)
    requires cfg.Enabled(s, choice) && t < |s.threads|
    ensures |cfg.Next(s, choice).threads| == |s.threads|
    ensures var was, now := s.threads[t], cfg.Next(s, choice).threads[t];
            && |now| == |was| + (if choice.Start? && choice.thread == t then 1 else 0)
            && (forall i :: 0 <= i < |was| ==> ShapeOf(now[i]) == ShapeOf(was[i]))
            && (choice.Start? && choice.thread == t ==> MadeFrom(cfg, now[|was|], choice.builder, t))
  {
  }

  lemma MadeOn(cfg: Config, path: Schedule, choice: Choice, t: nat)
    requires cfg.Legal(path) && cfg.Enabled(cfg.After(path), choice)
    requires t < |cfg.After(path).threads| && MadeAsSaid(cfg, path, t)
    ensures cfg.Legal(path + [choice]) && t < |cfg.After(path + [choice]).threads|
    ensures MadeAsSaid(cfg, path + [choice], t)
  {
    hide cfg.After, cfg.Legal, cfg.Next, Switches, StartCount, Starts, Slots, Made;
    var s := cfg.After(path);
    assert choice.Start? ==> choice.builder < |cfg.builders|;
    cfg.LegalStep(path, choice);
    hide cfg.Enabled;
    OneMoreChoice(path, choice);
    NextThread(cfg, s, choice, t);
    ThreadMadeOn(cfg, s.threads[t], cfg.Next(s, choice).threads[t], Starts(path, t), choice, t);
  }

  lemma ThreadMadeOn(cfg: Config, was: seq<Task>, now: seq<Task>, starts: seq<nat>, choice: Choice, t: nat)
    requires Made(cfg, was, starts, t)
    requires |now| == |was| + (if choice.Start? && choice.thread == t then 1 else 0)
    requires forall i :: 0 <= i < |was| ==> ShapeOf(now[i]) == ShapeOf(was[i])
    requires choice.Start? && choice.thread == t ==> MadeFrom(cfg, now[|was|], choice.builder, t)
    ensures Made(cfg, now, if choice.Start? && choice.thread == t then starts + [choice.builder] else starts, t)
  {
    forall i | 0 <= i < |was| ensures MadeFrom(cfg, now[i], starts[i], t) {
      assert MadeFrom(cfg, was[i], starts[i], t);
      SameMade(cfg, was[i], now[i], starts[i], t);
    }
    hide MadeFrom;
  }

  lemma SameMade(cfg: Config, was: Task, now: Task, b: nat, t: nat)
    requires MadeFrom(cfg, was, b, t) && ShapeOf(now) == ShapeOf(was)
    ensures MadeFrom(cfg, now, b, t)
  {
  }

  /** In a legal schedule the tasks of each thread are one for each start of the schedule there, in order, made by
      that constructor for that thread; and the limits hold for the schedule by itself. */
  lemma {:induction false} TasksAreStarts(cfg: Config, path: Schedule)
    requires cfg.Legal(path)
    ensures Counts(cfg, path) && Limited(cfg, path)
    ensures forall t: nat :: t < cfg.threadCount ==> MadeAsSaid(cfg, path, t)
    decreases |path|
  {
    if path != [] {
      var init, last := path[..|path| - 1], path[|path| - 1];
      assert path == init + [last];
      TasksAreStarts(cfg, init);
      CountsOn(cfg, init, last);
      forall t: nat | t < cfg.threadCount ensures MadeAsSaid(cfg, path, t) {
        MadeOn(cfg, init, last, t);
      }
      LimitedOn(cfg, init, last);
    }
  }

  lemma LimitedOn(cfg: Config, path: Schedule, choice: Choice)
    requires cfg.Legal(path) && cfg.Enabled(cfg.After(path), choice) && Counts(cfg, path) && Limited(cfg, path)
    requires forall t: nat :: t < cfg.threadCount ==> MadeAsSaid(cfg, path, t)
    ensures Limited(cfg, path + [choice])
  {
    OneMoreChoice(path, choice);
    WithinLimits(cfg, cfg.After(path), choice);
    AsManyTasks(cfg, path, choice.thread);
    hide cfg.After, cfg.Legal, cfg.Enabled, Switches, StartCount, Starts, Slots, LastSlot, MadeAsSaid;
    assert choice.thread < cfg.threadCount && Switches(path) <= cfg.maxSwitches && StartCount(path) <= cfg.maxTasks;
    DepthOn(cfg, path, choice);
    ThreadsOn(cfg, path, choice);
  }

  lemma DepthOn(cfg: Config, path: Schedule, choice: Choice)
    requires forall t: nat :: |Starts(path, t)| <= cfg.maxDepth
    requires |StartsOn(path, choice, choice.thread)| <= cfg.maxDepth
    ensures forall t: nat :: |Starts(path + [choice], t)| <= cfg.maxDepth
  {
    OneMoreChoice(path, choice);
    hide Starts, Switches, StartCount, Slots;
  }

  lemma ThreadsOn(cfg: Config, path: Schedule, choice: Choice)
    requires forall i :: 0 <= i < |path| ==> path[i].thread < cfg.threadCount
    requires choice.thread < cfg.threadCount
    ensures forall i :: 0 <= i < |path + [choice]| ==> (path + [choice])[i].thread < cfg.threadCount
  {
  }

  lemma AsManyTasks(cfg: Config, path: Schedule, t: nat)
    requires cfg.Legal(path) && t < |cfg.After(path).threads| && MadeAsSaid(cfg, path, t)
    ensures |cfg.After(path).threads[t]| == |Starts(path, t)|
  {
    hide cfg.After, cfg.Legal, Starts, MadeFrom;
  }

  lemma WithinLimits(cfg: Config, s: Snapshot, choice: Choice)
    requires cfg.Enabled(s, choice)
    ensures choice.thread < |s.threads|
    ensures choice.Start? ==> s.started != cfg.maxTasks && |s.threads[choice.thread]| < cfg.maxDepth
    ensures choice.Continue? ==> cfg.SwitchesAfter(s, choice) <= cfg.maxSwitches
  {
  }

  /** A choice may follow: a start below all limits in a thread whose last task has returned, by one of the
      constructors, or a continuation of an unfinished last task within the limit of switches. */
  ghost predicate MayFollow(cfg: Config, path: Schedule, thread: seq<Task>, choice: Choice) {
    if choice.Start? then
      && choice.builder < |cfg.builders|
      && StartCount(path) < cfg.maxTasks
      && |Starts(path, choice.thread)| < cfg.maxDepth
      && (thread == [] || cfg.target.returned(thread[|thread| - 1].local).Some?)
    else
      && thread != []
      && cfg.target.returned(thread[|thread| - 1].local).None?
      && Switches(path + [choice]) <= cfg.maxSwitches
  }

  /** The legal schedules are exactly those in which each choice may follow the ones before. */
  lemma WhatMayFollow(cfg: Config, path: Schedule, choice: Choice)
    requires cfg.Legal(path)
    ensures |cfg.After(path).threads| == cfg.threadCount
    ensures cfg.Legal(path + [choice]) <==>
      choice.thread < cfg.threadCount && MayFollow(cfg, path, cfg.After(path).threads[choice.thread], choice)
  {
    hide cfg.After, cfg.Legal, Switches, StartCount, Starts, Slots, StartsOn;
    TasksAreStarts(cfg, path);
    OneMoreChoice(path, choice);
    LegalIfEnabled(cfg, path, choice);
    if choice.thread < cfg.threadCount { assert MadeAsSaid(cfg, path, choice.thread); }
  }

  lemma LegalIfEnabled(cfg: Config, path: Schedule, choice: Choice)
    requires cfg.Legal(path)
    ensures cfg.Legal(path + [choice]) <==> cfg.Enabled(cfg.After(path), choice)
  {
    assert (path + [choice])[..|path + [choice]| - 1] == path;
    hide cfg.Enabled, cfg.After;
  }

  /** The run of a schedule is a play of its resumptions, in which every task takes part. */
  ghost predicate IsPlay(cfg: Config, s: Snapshot, order: Ordering) {
    && Playing(cfg.target, s.threads, s.state, {}, order, s.history)
    && (forall ref :: InThreads(s.threads, ref) ==> ref in order)
    && Responses(s.history) == s.finished
  }

  lemma StartIsPlayed(cfg: Config, s: Snapshot, choice: Choice, order: Ordering)
    requires cfg.Valid() && IsPlay(cfg, s, order) && cfg.Enabled(s, choice) && choice.Start?
    ensures var threads := cfg.Pushed(s.threads, choice);
            var ref := cfg.RefOf(s, choice);
            && InThreads(threads, ref) && ref !in order && !Returned(cfg.target, TaskAt(threads, ref))
            && Playing(cfg.target, threads, s.state, {}, order, s.history)
  {
    var task := Build(cfg.target, cfg.builders[choice.builder], choice.thread, -1);
    assert task == Renewed(cfg.target, task);
    PlayingGrown(cfg.target, s.threads, s.state, {}, order, s.history, choice.thread, task);
    assert forall ref :: ref in order ==> InThreads(s.threads, ref);
    hide Playing;
  }

  lemma ContinueIsPlayed(cfg: Config, s: Snapshot, choice: Choice, order: Ordering)
    requires cfg.Valid() && IsPlay(cfg, s, order) && cfg.Enabled(s, choice) && choice.Continue?
    ensures var threads := cfg.Pushed(s.threads, choice);
            var ref := cfg.RefOf(s, choice);
            && InThreads(threads, ref) && ref in order && !Returned(cfg.target, TaskAt(threads, ref))
            && Playing(cfg.target, threads, s.state, {}, order, s.history)
  {
    hide Playing;
  }

  lemma NextRecords(cfg: Config, s: Snapshot, choice: Choice)
    requires cfg.Enabled(s, choice)
    ensures var threads, ref, n := cfg.Pushed(s.threads, choice), cfg.RefOf(s, choice), cfg.Next(s, choice);
            && InThreads(threads, ref)
            && var step := cfg.target.step(s.state, TaskAt(threads, ref).local);
               && n.state == step.0
               && n.threads == SetTask(threads, ref, TaskAt(threads, ref).(local := step.1))
               && n.history == Answered(cfg.target, Invoked(s.history, choice.Start?, ref), ref, step.1)
               && n.finished == s.finished + if cfg.target.returned(step.1).Some? then 1 else 0
  {
  }

  lemma StepIsPlayed(cfg: Config, s: Snapshot, choice: Choice, order: Ordering)
    requires cfg.Valid() && IsPlay(cfg, s, order) && cfg.Enabled(s, choice)
    ensures IsPlay(cfg, cfg.Next(s, choice), order + [cfg.RefOf(s, choice)])
  {
    EveryTaskPlays(cfg, s, choice, order);
    hide Playing, Responses, cfg.Next, cfg.Enabled, cfg.RefOf;
    StepPlays(cfg, s, choice, order);
    StepResponds(cfg, s, choice);
  }

  lemma StepPlays(cfg: Config, s: Snapshot, choice: Choice, order: Ordering)
    requires cfg.Valid() && IsPlay(cfg, s, order) && cfg.Enabled(s, choice)
    ensures var n := cfg.Next(s, choice);
            Playing(cfg.target, n.threads, n.state, {}, order + [cfg.RefOf(s, choice)], n.history)
  {
    if choice.Start? { StartIsPlayed(cfg, s, choice, order); } else { ContinueIsPlayed(cfg, s, choice, order); }
    hide Playing, Responses, Answered, Invoked, cfg.Next, cfg.Enabled, cfg.Pushed, cfg.RefOf, SetTask;
    NextRecords(cfg, s, choice);
    PlayingResumed(cfg.target, cfg.Pushed(s.threads, choice), s.state, {}, order, s.history, cfg.RefOf(s, choice));
  }

  lemma StepResponds(cfg: Config, s: Snapshot, choice: Choice)
    requires cfg.Enabled(s, choice) && Responses(s.history) == s.finished
    ensures Responses(cfg.Next(s, choice).history) == cfg.Next(s, choice).finished
  {
    hide Responses, Answered, Invoked, cfg.Next, cfg.Pushed, cfg.RefOf, SetTask;
    NextRecords(cfg, s, choice);
    var ref := cfg.RefOf(s, choice);
    var local := cfg.target.step(s.state, TaskAt(cfg.Pushed(s.threads, choice), ref).local).1;
    ResponsesRecorded(cfg.target, s.history, choice.Start?, ref, local);
  }

  lemma EveryTaskPlays(cfg: Config, s: Snapshot, choice: Choice, order: Ordering)
    requires cfg.Enabled(s, choice) && forall ref :: InThreads(s.threads, ref) ==> ref in order
    ensures forall ref :: InThreads(cfg.Next(s, choice).threads, ref) ==> ref in order + [cfg.RefOf(s, choice)]
  {
    forall ref | InThreads(cfg.Next(s, choice).threads, ref) ensures ref in order + [cfg.RefOf(s, choice)] {
      if ref != cfg.RefOf(s, choice) { assert InThreads(s.threads, ref); }
    }
  }

  /** The shared object, the tasks and the history after a schedule are what playing its resumptions gives. */
  lemma {:induction false} PathIsPlay(cfg: Config, path: Schedule)
    requires cfg.Valid() && cfg.Legal(path)
    ensures IsPlay(cfg, cfg.After(path), Slots(path))
    decreases |path|
  {
    if path == [] {
      PlayingNothing(cfg.target, cfg.Initial().threads, {});
    } else {
      var init, last := path[..|path| - 1], path[|path| - 1];
      assert path == init + [last];
      PathIsPlay(cfg, init);
      StepIsPlayed(cfg, cfg.After(init), last, Slots(init));
      SlotOfStep(cfg, init, last);
      OneMoreChoice(init, last);
      hide IsPlay, cfg.Next, Slots;
    }
  }

  lemma SlotOfStep(cfg: Config, path: Schedule, choice: Choice)
    requires cfg.Legal(path) && cfg.Enabled(cfg.After(path), choice)
    ensures cfg.RefOf(cfg.After(path), choice) == LastSlot(choice.thread, |StartsOn(path, choice, choice.thread)|)
  {
    TasksAreStarts(cfg, path);
    assert MadeAsSaid(cfg, path, choice.thread);
    hide cfg.After, cfg.Legal, Starts, Counts, Limited;
  }

  /** What the checker reads in the slot of a task that answered is its name, its arguments and its response. */
  lemma SlotsShowResponses(cfg: Config, path: Schedule, ref: TaskRef, v: Value)
    requires cfg.Valid() && cfg.Legal(path) && Response(ref, v) in cfg.After(path).history
    ensures var threads := cfg.After(path).threads;
      && InThreads(threads, ref)
      && TableOf(cfg.target, threads)[ref].name == TaskAt(threads, ref).name
      && TableOf(cfg.target, threads)[ref].args == TaskAt(threads, ref).args
      && TableOf(cfg.target, threads)[ref].ret == v
  {
    hide cfg.After, cfg.Legal;
    PathIsPlay(cfg, path);
    var threads, order := cfg.After(path).threads, Slots(path);
    PlayingPlayed(cfg.target, threads, cfg.After(path).state, {}, order, cfg.After(path).history);
    Playback.SlotsShowResponses(cfg.target, threads, order, ref, v);
    hide PlayAll, Fresh, PlayedHistory, Slots;
  }
}
