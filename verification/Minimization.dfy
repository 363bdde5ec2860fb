/** Greedy minimization: drop tasks, one or two at a time, as long as the checker
    still rejects what is left. */
module Minimization {
  import opened Greedy
  import opened Histories
  import opened Playback
  import opened Rounds
  import opened Tasks

  /** How a minimizor looks for a rejected history without the given tasks. */
  datatype Minimizor = SameInterleaving | StrategyExploration(runs: nat)

  method GetTasksOrdering(threads: Threads, full: Ordering, ghost removed: set<int>, exclude: set<int>)
    returns (ids: seq<int>)
    requires Within(threads, full) && forall ref :: ref in full ==> Kept(threads, removed, ref)
    ensures OrderingIds(threads, removed, Without(threads, full, exclude), ids)
    ensures |ids| == |Without(threads, full, exclude)|
  {
    ids := [];
    assert Without(threads, full[..0], exclude) == [];
    hide Without;
    for k := 0 to |full|
      invariant OrderingIds(threads, removed, Without(threads, full[..k], exclude), ids)
    {
      SplitAt(full, k);
      LastWithout(threads, full[..k], full[k], exclude);
      var id := TaskAt(threads, full[k]).id;
      OneMoreId(threads, removed, Without(threads, full[..k], exclude), ids, full[k]);
      if id !in exclude {
        ids := ids + [id];
      } else {
        assert Without(threads, full[..k], exclude) + [] == Without(threads, full[..k], exclude);
      }
      hide OrderingIds;
    }
    TakeAll(full);
  }

  lemma OneMoreId(threads: Threads, removed: set<int>, order: Ordering, ids: seq<int>, ref: TaskRef)
    requires OrderingIds(threads, removed, order, ids) && Kept(threads, removed, ref)
    ensures OrderingIds(threads, removed, order + [ref], ids + [TaskAt(threads, ref).id])
  {
  }

  /** A history worth keeping: it is what playing its ordering gives, the checker rejects it,
      and it runs exactly the round's tasks outside `removed`. */
  ghost predicate Rejected(spec: Spec, target: Target, threads: Threads, removed: set<int>, histories: BothHistories)
    requires target.Valid()
  {
    && Within(threads, histories.full)
    && histories.sequential == PlayedHistory(target, threads, histories.full)
    && Rejects(spec, target, threads, histories.full)
    && forall ref :: ref in histories.full <==> Kept(threads, removed, ref)
  }

  lemma RejectedSameShape(spec: Spec, target: Target, a: Threads, b: Threads, removed: set<int>,
                          histories: BothHistories)
    requires target.Valid() && SameShape(a, b) && Rejected(spec, target, a, removed, histories)
    ensures Rejected(spec, target, b, removed, histories)
  {
    hide PlayedHistory, PlayedTable, Linearizable;
    SameShapeSamePlay(spec, target, a, b, histories.full);
    SameShapeIds(a, b);
  }

  /** A history's invoked tasks are those of its ordering. */
  lemma InvokedTasks(target: Target, threads: Threads, order: Ordering, ref: TaskRef)
    requires target.Valid() && Within(threads, order)
    ensures Invoke(ref) in PlayedHistory(target, threads, order) <==> ref in order
  {
    PlayFaithful(target, Fresh(target, threads), order);
  }

  /** The outcome of replaying an ordering. */
  ghost predicate Replayed(spec: Spec, target: Target, threads: Threads, order: Ordering, res: Option<BothHistories>)
    requires target.Valid() && Within(threads, order)
  {
    && (res.Some? <==> Rejects(spec, target, threads, order))
    && (res.Some? ==> res.value == BothHistories(order, PlayedHistory(target, threads, order)))
  }

  /** Looks for a rejected history of the round without the tasks `ids`. */
  method OnTasksRemoved(minimizor: Minimizor, sched: RoundScheduler, histories: BothHistories, ids: set<int>)
    returns (res: Option<BothHistories>)
    requires sched.Valid() && ids !! sched.removedTasks
    requires Rejected(sched.spec, sched.target, sched.threads, sched.removedTasks, histories)
    modifies sched
    ensures sched.Valid() && SameShape(sched.threads, old(sched.threads))
    ensures sched.removedTasks ==
              if minimizor.StrategyExploration? && res.Some? then old(sched.removedTasks) + ids
              else old(sched.removedTasks)
    ensures res.Some? ==>
              Rejected(sched.spec, sched.target, sched.threads, old(sched.removedTasks) + ids, res.value)
    ensures minimizor.StrategyExploration? && res.Some? ==> Even(|res.value.sequential|)
    ensures minimizor.StrategyExploration? && res.None? ==>
              RunsAccepted(sched.spec, sched.target, old(sched.threads), old(sched.removedTasks) + ids, minimizor.runs)
    ensures minimizor.SameInterleaving? ==>
              var order := Without(old(sched.threads), histories.full, ids);
              Replayed(sched.spec, sched.target, old(sched.threads), order, res)
  {
    hide Rejects, PlayedHistory, SameShape, Playing, OrderingIds, Even, Without;
    match minimizor
    case SameInterleaving =>
      ghost var order := Without(sched.threads, histories.full, ids);
      var ordering := GetTasksOrdering(sched.threads, histories.full, sched.removedTasks, ids);
      ghost var whole := ordering[..|order|];
      assert whole == ordering;
      var thrown;
      res, thrown := sched.ReplayRound(ordering, order);
      SameShapeIds(sched.threads, old(sched.threads));
      RejectsSameShape(sched.spec, sched.target, sched.threads, old(sched.threads), order);
      SameShapeSamePlay(sched.spec, sched.target, sched.threads, old(sched.threads), order);
    case StrategyExploration(runs) =>
      sched.SetTasksRemoved(ids, true);
      ghost var accepted;
      res, accepted := sched.ExploreRound(runs);
      if res.None? {
        assert RunsAccepted(sched.spec, sched.target, old(sched.threads), sched.removedTasks, runs);
        sched.SetTasksRemoved(ids, false);
      } else {
        EvenTwice(|sched.KeptRefs()|);
        PlayingPlayed(sched.target, sched.threads, sched.state, sched.removedTasks,
                      res.value.full, res.value.sequential);
      }
  }

  /** The invoked tasks of a history, in order. */
  ghost function Invokes(h: History): (tasks: Ordering)
    ensures forall ref :: ref in tasks <==> Invoke(ref) in h
    decreases |h|
  {
    if h == [] then []
    else
      assert h == h[..|h| - 1] + [h[|h| - 1]];
      Invokes(h[..|h| - 1]) + match h[|h| - 1] case Invoke(ref) => [ref] case Response(_, _) => []
  }

  method InvokedOf(h: History) returns (tasks: Ordering)
    ensures tasks == Invokes(h)
  {
    tasks := [];
    for k := 0 to |h|
      invariant tasks == Invokes(h[..k])
    {
      SplitAt(h, k);
      if h[k].Invoke? {
        tasks := tasks + [h[k].task];
      }
    }
    TakeAll(h);
  }

  // ---- The greedy search ----

  /** What every step of minimization keeps. */
  ghost predicate Minimizing(minimizor: Minimizor, sched: RoundScheduler, given: Given, histories: BothHistories)
    reads sched
  {
    && sched.Valid() && given.Valid()
    && sched.target == given.target && sched.spec == given.spec
    && SameShape(sched.threads, given.threads)
    && given.removed <= sched.removedTasks
    && Rejected(sched.spec, sched.target, sched.threads, sched.removedTasks, histories)
    && (minimizor.SameInterleaving? ==> histories.full == Without(given.threads, given.full, sched.removedTasks))
  }

  /** Tries to do without the tasks `ids`. For a pair, a history with an odd number of events aborts. */
  method TryRemove(minimizor: Minimizor, sched: RoundScheduler, ghost given: Given, histories: BothHistories,
                   ids: set<int>, paired: bool)
    returns (next: BothHistories, success: bool, aborted: bool)
    requires Minimizing(minimizor, sched, given, histories) && ids !! sched.removedTasks
    modifies sched
    ensures Minimizing(minimizor, sched, given, next)
    ensures sched.removedTasks == if success then old(sched.removedTasks) + ids else old(sched.removedTasks)
    ensures aborted ==> !success && minimizor.SameInterleaving?
    ensures minimizor.SameInterleaving? ==>
              var needed := given.Needed(old(sched.removedTasks), ids);
              && (success <==> !needed && !aborted)
              && (aborted <==> paired && !needed && given.Odd(old(sched.removedTasks) + ids))
    ensures minimizor.StrategyExploration? && !success ==>
              given.Explored(minimizor.runs, sched.removedTasks, ids)
  {
    assert Within(sched.threads, histories.full) && sched.target.Valid();
    hide Rejected, Rejects, SameShape, Without, Within, given.Needed, given.Odd, sched.Valid,
      sched.target.Valid, Even;
    ghost var before, gone := sched.threads, sched.removedTasks;
    AddedTwice(gone, ids);
    assert Minimizing(minimizor, sched, given, histories);
    var res := OnTasksRemoved(minimizor, sched, histories, ids);
    if minimizor.SameInterleaving? {
      FoundWithin(before, given, histories, gone, ids, res);
    }
    if minimizor.StrategyExploration? && res.None? {
      FoundNothing(before, given, gone, ids, minimizor.runs);
    }
    hide Minimizing, Replayed, RunsAccepted, given.Explored;
    next, success, aborted := histories, false, false;
    if res.Some? {
      if paired && !Even(|res.value.sequential|) {
        aborted := true;
      } else {
        next, success := res.value, true;
        sched.SetTasksRemoved(ids, true);
      }
    }
    Settled(minimizor, sched, given, before, histories, next, success);
  }

  /** After an attempt the history at hand is rejected on the tasks as they are now. */
  lemma Settled(minimizor: Minimizor, sched: RoundScheduler, given: Given, before: Threads,
                histories: BothHistories, next: BothHistories, success: bool)
    requires sched.Valid() && given.Valid() && sched.target == given.target && sched.spec == given.spec
    requires SameShape(before, given.threads) && SameShape(sched.threads, before)
    requires given.removed <= sched.removedTasks
    requires if success then Rejected(sched.spec, sched.target, sched.threads, sched.removedTasks, next)
             else next == histories && Rejected(sched.spec, sched.target, before, sched.removedTasks, next)
    requires minimizor.SameInterleaving? ==> next.full == Without(given.threads, given.full, sched.removedTasks)
    ensures Minimizing(minimizor, sched, given, next)
  {
    hide Rejected, SameShape, Without;
    SameShapeTransitive(sched.threads, before, given.threads);
    if !success {
      SameShapeSymmetric(sched.threads, before);
      RejectedSameShape(sched.spec, sched.target, before, sched.threads, sched.removedTasks, next);
    }
  }

  lemma AddedTwice(gone: set<int>, ids: set<int>)
    ensures gone + ids + ids == gone + ids
  {
  }

  /** What a same-interleaving attempt replays is part of the interleaving given. */
  lemma FoundWithin(threads: Threads, given: Given, histories: BothHistories, gone: set<int>, ids: set<int>,
                    res: Option<BothHistories>)
    requires given.Valid() && SameShape(threads, given.threads) && given.removed <= gone
    requires Within(threads, histories.full) && histories.full == Without(given.threads, given.full, gone)
    requires Replayed(given.spec, given.target, threads, Without(threads, histories.full, ids), res)
    ensures res.Some? ==> res.value.full == Without(given.threads, given.full, gone + ids)
    ensures res.None? <==> given.Needed(gone, ids)
    ensures res.Some? ==> (!Even(|res.value.sequential|) <==> given.Odd(gone + ids))
  {
    hide Rejects, SameShape, Even;
    var order := Without(threads, histories.full, ids);
    WithoutTwice(given.threads, given.full, gone, ids);
    WithoutSameShape(threads, given.threads, histories.full, ids);
    RejectsSameShape(given.spec, given.target, threads, given.threads, order);
    SameShapeSamePlay(given.spec, given.target, threads, given.threads, order);
  }

  lemma FoundNothing(threads: Threads, given: Given, gone: set<int>, ids: set<int>, runs: nat)
    requires given.Valid() && SameShape(threads, given.threads) && given.removed <= gone
    requires RunsAccepted(given.spec, given.target, threads, gone + ids, runs)
    ensures given.Explored(runs, gone, ids)
  {
    hide RunsAccepted;
    RunsSameShape(given.spec, given.target, threads, given.threads, gone + ids, runs);
    assert given.ExploredAt(runs, gone, ids);
  }

  lemma TaskStaysInRound(minimizor: Minimizor, sched: RoundScheduler, given: Given, histories: BothHistories,
                         ref: TaskRef)
    requires Minimizing(minimizor, sched, given, histories) && InThreads(given.threads, ref)
    ensures InThreads(sched.threads, ref) && TaskAt(sched.threads, ref).id == given.IdOf(ref)
  {
    SameShapeIds(sched.threads, given.threads);
  }

  /** Single tasks first. */
  method RemoveSingles(minimizor: Minimizor, sched: RoundScheduler, tasks: Ordering, ghost given: Given,
                       found: BothHistories)
    returns (histories: BothHistories)
    requires Minimizing(minimizor, sched, given, found) && Within(given.threads, tasks)
    modifies sched
    ensures Minimizing(minimizor, sched, given, histories)
    ensures minimizor.SameInterleaving? ==> sched.removedTasks == given.AfterSingles(old(sched.removedTasks), tasks)
    ensures minimizor.StrategyExploration? ==>
              given.SinglesExplored(minimizor.runs, sched.removedTasks, tasks, |tasks|)
  {
    hide Rejected, SameShape, Without, given.Needed, given.Odd, given.Explored;
    ghost var all := if minimizor.SameInterleaving? then given.AfterSingles(sched.removedTasks, tasks) else {};
    histories := found;
    var i := 0;
    while i < |tasks|
      invariant i <= |tasks| && Minimizing(minimizor, sched, given, histories)
      invariant minimizor.SameInterleaving? ==> all == given.AfterSingles(sched.removedTasks, tasks[i..])
      invariant minimizor.StrategyExploration? ==>
          given.SinglesExplored(minimizor.runs, sched.removedTasks, tasks, i)
    {
      TaskStaysInRound(minimizor, sched, given, histories, tasks[i]);
      SplitAt(tasks, i);
      ghost var gone := sched.removedTasks;
      var id := TaskAt(sched.threads, tasks[i]).id;
      if id !in sched.removedTasks {
        var success, aborted;
        histories, success, aborted := TryRemove(minimizor, sched, given, histories, {id}, false);
      }
      if minimizor.StrategyExploration? {
        given.SinglesOn(minimizor.runs, gone, sched.removedTasks, tasks, i);
      }
      i := i + 1;
    }
  }

  /** Then pairs, for operations that add and remove. */
  method RemovePairs(minimizor: Minimizor, sched: RoundScheduler, tasks: Ordering, ghost given: Given,
                     found: BothHistories)
    returns (histories: BothHistories, aborted: bool)
    requires Minimizing(minimizor, sched, given, found) && Within(given.threads, tasks)
    modifies sched
    ensures Minimizing(minimizor, sched, given, histories)
    ensures minimizor.SameInterleaving? ==>
              Outcome(sched.removedTasks, aborted) == given.AfterPairs(old(sched.removedTasks), tasks)
    ensures minimizor.StrategyExploration? ==>
              given.PairsExplored(minimizor.runs, sched.removedTasks, tasks, |tasks|)
    ensures aborted ==> minimizor.SameInterleaving?
    ensures old(sched.removedTasks) <= sched.removedTasks
  {
    assert given.Valid();
    hide given.Explored, given.PairExplored;
    hide Rejected, SameShape, Without, Minimizing, given.Needed, given.Odd, given.Valid;
    ghost var all :=
      if minimizor.SameInterleaving? then given.AfterPairs(sched.removedTasks, tasks) else Outcome({}, false);
    histories, aborted := found, false;
    var i := 0;
    while i < |tasks|
      invariant i <= |tasks| && !aborted && Minimizing(minimizor, sched, given, histories)
      invariant minimizor.SameInterleaving? ==> all == given.AfterPairs(sched.removedTasks, tasks[i..])
      invariant minimizor.StrategyExploration? ==> given.PairsExplored(minimizor.runs, sched.removedTasks, tasks, i)
      invariant old(sched.removedTasks) <= sched.removedTasks
    {
      TaskStaysInRound(minimizor, sched, given, histories, tasks[i]);
      SplitAt(tasks, i);
      ghost var gone := sched.removedTasks;
      if TaskAt(sched.threads, tasks[i]).id !in sched.removedTasks {
        histories, aborted := RemovePairsOf(minimizor, sched, tasks, i, given, histories);
        if aborted {
          return;
        }
      } else if minimizor.StrategyExploration? {
        RowIsGone(given, minimizor.runs, sched.removedTasks, tasks, i);
      }
      if minimizor.StrategyExploration? {
        given.PairsOn(minimizor.runs, gone, sched.removedTasks, tasks, i);
      }
      i := i + 1;
    }
  }

  lemma RowIsGone(given: Given, runs: nat, gone: set<int>, tasks: Ordering, i: nat)
    requires given.Valid() && Within(given.threads, tasks) && i < |tasks| && given.IdOf(tasks[i]) in gone
    ensures given.RowExplored(runs, gone, tasks, i, |tasks|)
  {
  }

  /** The pairs of one task with later ones, up to the first that succeeds. */
  method RemovePairsOf(minimizor: Minimizor, sched: RoundScheduler, tasks: Ordering, i: nat, ghost given: Given,
                       found: BothHistories)
    returns (histories: BothHistories, aborted: bool)
    requires Minimizing(minimizor, sched, given, found) && Within(given.threads, tasks) && i < |tasks|
    requires given.IdOf(tasks[i]) !in sched.removedTasks
    modifies sched
    ensures Minimizing(minimizor, sched, given, histories)
    ensures minimizor.SameInterleaving? ==>
              Outcome(sched.removedTasks, aborted)
                == given.AfterPairsOf(old(sched.removedTasks), tasks[i], tasks[i + 1..])
    ensures minimizor.StrategyExploration? ==>
              given.RowExplored(minimizor.runs, sched.removedTasks, tasks, i, |tasks|)
    ensures aborted ==> minimizor.SameInterleaving?
    ensures old(sched.removedTasks) <= sched.removedTasks
  {
    hide Rejected, SameShape, Without, given.Needed, given.Odd, given.Explored;
    ghost var all :=
      if minimizor.SameInterleaving? then given.AfterPairsOf(sched.removedTasks, tasks[i], tasks[i + 1..])
      else Outcome({}, false);
    histories, aborted := found, false;
    TaskStaysInRound(minimizor, sched, given, histories, tasks[i]);
    var first := TaskAt(sched.threads, tasks[i]).id;
    var j := i + 1;
    while j < |tasks|
      invariant Minimizing(minimizor, sched, given, histories) && sched.removedTasks == old(sched.removedTasks)
      invariant i < j <= |tasks| && !aborted
      invariant minimizor.SameInterleaving? ==> all == given.AfterPairsOf(sched.removedTasks, tasks[i], tasks[j..])
      invariant minimizor.StrategyExploration? ==>
          given.RowExplored(minimizor.runs, sched.removedTasks, tasks, i, j)
      decreases |tasks| - j
    {
      TaskStaysInRound(minimizor, sched, given, histories, tasks[j]);
      SplitAt(tasks, j);
      var second := TaskAt(sched.threads, tasks[j]).id;
      if second !in sched.removedTasks {
        var success;
        histories, success, aborted := TryRemove(minimizor, sched, given, histories, {first, second}, true);
        if success || aborted {
          return;
        }
      }
      j := j + 1;
    }
  }

  /** The closing replay puts the tasks in the state under which the checker rejects the history. */
  method CloseRound(sched: RoundScheduler, histories: BothHistories)
    requires sched.Valid() && Rejected(sched.spec, sched.target, sched.threads, sched.removedTasks, histories)
    modifies sched
    ensures sched.Valid() && SameShape(sched.threads, old(sched.threads))
    ensures sched.removedTasks == old(sched.removedTasks)
    ensures Rejected(sched.spec, sched.target, sched.threads, sched.removedTasks, histories)
    ensures WellFormed(histories.sequential, TableOf(sched.target, sched.threads))
    ensures !Linearizable(sched.spec, TableOf(sched.target, sched.threads), histories.sequential)
  {
    hide Rejects, PlayedHistory, SameShape, Playing, OrderingIds;
    ghost var before := sched.threads;
    var ids := GetTasksOrdering(sched.threads, histories.full, sched.removedTasks, {});
    assert ids[..|histories.full|] == ids;
    var replayed, thrown := sched.ReplayRound(ids, histories.full);
    SameShapeSymmetric(sched.threads, before);
    RejectedSameShape(sched.spec, sched.target, before, sched.threads, sched.removedTasks, histories);
    PlayingVerdict(sched.spec, sched.target, sched.threads, sched.state, sched.removedTasks,
                   histories.full, histories.sequential);
  }

  /** Removes tasks while the checker keeps rejecting. Nothing is ever added back, and a closing replay
      leaves in the slots the return values under which the checker rejects. With the interleaving kept,
      what is removed, and whether the search is aborted, is what `Given.Search` says, and what is left is
      the given ordering without the removed tasks. */
  method Minimize(minimizor: Minimizor, sched: RoundScheduler, found: BothHistories)
    returns (histories: BothHistories, aborted: bool, ghost given: Given)
    requires sched.Valid()
    requires Rejected(sched.spec, sched.target, sched.threads, sched.removedTasks, found)
    modifies sched
    ensures given == Given(sched.spec, sched.target, old(sched.threads), old(sched.removedTasks), found.full)
    ensures given.Valid() && sched.Valid() && SameShape(sched.threads, old(sched.threads))
    ensures Within(given.threads, Invokes(found.sequential))
    ensures old(sched.removedTasks) <= sched.removedTasks
    ensures Rejected(sched.spec, sched.target, sched.threads, sched.removedTasks, histories)
    ensures !aborted ==>
              && WellFormed(histories.sequential, TableOf(sched.target, sched.threads))
              && !Linearizable(sched.spec, TableOf(sched.target, sched.threads), histories.sequential)
    ensures forall ref :: ref in histories.full ==> ref in found.full
    ensures minimizor.SameInterleaving? ==>
              && Outcome(sched.removedTasks, aborted) == given.Search(Invokes(found.sequential))
              && histories.full == Without(given.threads, given.full, sched.removedTasks)
    ensures minimizor.StrategyExploration? ==>
              forall a, b :: a in histories.full && b in histories.full ==>
                && given.Explored(minimizor.runs, sched.removedTasks, {given.IdOf(a)})
                && given.Explored(minimizor.runs, sched.removedTasks, {given.IdOf(a), given.IdOf(b)})
    ensures aborted ==> minimizor.SameInterleaving?
  {
    hide Rejects, PlayedHistory, SameShape, Playing, OrderingIds, given.AfterSingles, given.AfterPairs;
    hide given.Explored, given.SinglesExplored, given.PairsExplored;
    var tasks := InvokedOf(found.sequential);
    given := Given(sched.spec, sched.target, sched.threads, sched.removedTasks, found.full);
    forall ref ensures ref in tasks <==> ref in found.full {
      InvokedTasks(sched.target, given.threads, found.full, ref);
    }
    SameShapeReflexive(given.threads);
    histories := RemoveSingles(minimizor, sched, tasks, given, found);
    ghost var gone := sched.removedTasks;
    histories, aborted := RemovePairs(minimizor, sched, tasks, given, histories);
    StaysWithin(minimizor, sched, given, histories);
    if aborted {
      return;
    }
    ghost var before := sched.threads;
    if minimizor.StrategyExploration? {
      given.SinglesStayExplored(minimizor.runs, gone, sched.removedTasks, tasks, |tasks|);
      AllWereExplored(minimizor, sched, given, tasks, histories);
    }
    CloseRound(sched, histories);
    SameShapeTransitive(sched.threads, before, given.threads);
  }

  lemma AllWereExplored(minimizor: Minimizor, sched: RoundScheduler, given: Given, tasks: Ordering,
                        histories: BothHistories)
    requires minimizor.StrategyExploration? && Minimizing(minimizor, sched, given, histories)
    requires Within(given.threads, tasks) && forall ref :: ref in histories.full ==> ref in tasks
    requires given.SinglesExplored(minimizor.runs, sched.removedTasks, tasks, |tasks|)
    requires given.PairsExplored(minimizor.runs, sched.removedTasks, tasks, |tasks|)
    ensures forall a, b :: a in histories.full && b in histories.full ==>
              && given.Explored(minimizor.runs, sched.removedTasks, {given.IdOf(a)})
              && given.Explored(minimizor.runs, sched.removedTasks, {given.IdOf(a), given.IdOf(b)})
  {
    SameShapeIds(sched.threads, given.threads);
    hide given.Explored, given.SinglesExplored, given.PairsExplored;
    forall a, b | a in histories.full && b in histories.full
      ensures given.Explored(minimizor.runs, sched.removedTasks, {given.IdOf(a)})
      ensures given.Explored(minimizor.runs, sched.removedTasks, {given.IdOf(a), given.IdOf(b)})
    {
      given.LeftWereExplored(minimizor.runs, sched.removedTasks, tasks, a, b);
    }
  }

  /** What is left was in the round before and had not been removed. */
  lemma StaysWithin(minimizor: Minimizor, sched: RoundScheduler, given: Given, histories: BothHistories)
    requires Minimizing(minimizor, sched, given, histories)
    requires forall ref :: ref in given.full <==> Kept(given.threads, given.removed, ref)
    ensures forall ref :: ref in histories.full ==> ref in given.full
  {
    SameShapeIds(sched.threads, given.threads);
  }

  /** With the interleaving kept, every task and every pair of tasks that is left was found needed
      at some point of the search. */
  lemma LeftWereNeeded(given: Given, found: BothHistories, histories: BothHistories, a: TaskRef, b: TaskRef)
    requires given.Valid() && given.full == found.full
    requires found.sequential == PlayedHistory(given.target, given.threads, found.full)
    requires Within(given.threads, Invokes(found.sequential)) && !given.Search(Invokes(found.sequential)).aborted
    requires histories.full == Without(given.threads, given.full, given.Search(Invokes(found.sequential)).gone)
    requires a in histories.full && b in histories.full
    ensures var gone := given.Search(Invokes(found.sequential)).gone;
            given.Tried(gone, {given.IdOf(a)}) && given.Tried(gone, {given.IdOf(a), given.IdOf(b)})
  {
    InvokedTasks(given.target, given.threads, found.full, a);
    InvokedTasks(given.target, given.threads, found.full, b);
    hide PlayedHistory, given.Search, given.Tried;
    given.LeftWereTried(Invokes(found.sequential), a, b);
  }

  /** A generated round: its tasks and the order in which they were resumed. */
  datatype Round = Round(threads: Threads, order: Ordering)

  /** Every task of the round is made by a constructor for its thread and was resumed, and `maxTasks` of them
      returned. */
  ghost predicate IsRound(builders: seq<Builder>, target: Target, maxTasks: nat, r: Round)
    requires target.Valid()
  {
    && Within(r.threads, r.order) && AllMade(builders, r.threads)
    && (forall ref :: InThreads(r.threads, ref) ==> ref in r.order)
    && Responses(PlayedHistory(target, r.threads, r.order)) == maxTasks
  }

  /** A finished round that the checker accepts. */
  ghost predicate AcceptedRound(builders: seq<Builder>, spec: Spec, target: Target, maxTasks: nat, r: Round)
    requires target.Valid()
  {
    IsRound(builders, target, maxTasks, r) && !Rejects(spec, target, r.threads, r.order)
  }

  /** A finished round that the checker rejects. */
  ghost predicate RejectedRound(builders: seq<Builder>, spec: Spec, target: Target, maxTasks: nat, r: Round)
    requires target.Valid()
  {
    IsRound(builders, target, maxTasks, r) && Rejects(spec, target, r.threads, r.order)
  }

  /** The history is that of the round. */
  ghost predicate AsFound(target: Target, r: Round, histories: BothHistories)
    requires target.Valid()
  {
    && Within(r.threads, r.order)
    && histories == BothHistories(r.order, PlayedHistory(target, r.threads, r.order))
  }

  ghost function GivenOf(spec: Spec, target: Target, r: Round): Given {
    Given(spec, target, r.threads, {}, r.order)
  }

  /** The search over the interleaving of the round removes `gone`, or is aborted there. */
  ghost predicate Searched(spec: Spec, target: Target, r: Round, gone: set<int>, aborted: bool)
    requires target.Valid()
  {
    && Within(r.threads, r.order)
    && var tasks := Invokes(PlayedHistory(target, r.threads, r.order));
       Within(r.threads, tasks) && GivenOf(spec, target, r).Search(tasks) == Outcome(gone, aborted)
  }

  /** What both passes leave of a round: the search over the interleaving found removed `gone`, the passes that
      explore removed more, and neither could do without a task or a pair of tasks that is still there. */
  ghost predicate Thorough(found: Given, gone: set<int>, runs: nat, removed: set<int>, order: Ordering)
    requires found.Valid() && Within(found.threads, order)
  {
    && found.removed <= gone <= removed
    && forall a, b :: a in order && b in order ==>
         && LeftFor(found, gone, runs, removed, {found.IdOf(a)})
         && LeftFor(found, gone, runs, removed, {found.IdOf(a), found.IdOf(b)})
  }

  /** The search over the interleaving could not do without `ids`, nor could the passes that explore. */
  ghost predicate LeftFor(found: Given, gone: set<int>, runs: nat, removed: set<int>, ids: set<int>)
    requires found.Valid()
  {
    found.Tried(gone, ids) && found.(removed := gone).Explored(runs, removed, ids)
  }

  /** Minimizes a rejected round, first with its interleaving and then by exploring. The first search decides
      whether this is aborted. */
  method MinimizeRound(sched: RoundScheduler, round: BothHistories, explorationRuns: nat)
    returns (histories: BothHistories, aborted: bool, ghost gone: set<int>)
    requires sched.Valid() && sched.removedTasks == {}
    requires Rejected(sched.spec, sched.target, sched.threads, {}, round)
    modifies sched
    ensures sched.Valid() && SameShape(sched.threads, old(sched.threads))
    ensures Within(old(sched.threads), round.full)
    ensures Searched(sched.spec, sched.target, Round(old(sched.threads), round.full), gone, aborted)
    ensures Rejected(sched.spec, sched.target, sched.threads, sched.removedTasks, histories)
    ensures !aborted ==>
              && WellFormed(histories.sequential, TableOf(sched.target, sched.threads))
              && !Linearizable(sched.spec, TableOf(sched.target, sched.threads), histories.sequential)
              && Within(old(sched.threads), histories.full)
              && Thorough(Given(sched.spec, sched.target, old(sched.threads), {}, round.full),
                          gone, explorationRuns, sched.removedTasks, histories.full)
  {
    hide Rejects, PlayedHistory, SameShape, Playing, Thorough, Without;
    ghost var found, left;
    histories, aborted, found := Minimize(SameInterleaving, sched, round);
    gone := sched.removedTasks;
    if aborted {
      return;
    }
    ghost var first, again, between := histories, false, sched.threads;
    histories, again, left := Minimize(StrategyExploration(explorationRuns), sched, histories);
    SameShapeTransitive(sched.threads, between, found.threads);
    SameShapeIds(sched.threads, found.threads);
    LeftIsThorough(found, left, round, first, gone, explorationRuns, sched.removedTasks, histories.full);
  }

  lemma LeftIsThorough(found: Given, left: Given, round: BothHistories, first: BothHistories, gone: set<int>,
                       runs: nat, removed: set<int>, order: Ordering)
    requires found.Valid() && left.Valid() && found.removed == {} && found.full == round.full
    requires round.sequential == PlayedHistory(found.target, found.threads, round.full)
    requires Within(found.threads, Invokes(round.sequential)) && Within(found.threads, order)
    requires found.Search(Invokes(round.sequential)) == Outcome(gone, false) && gone <= removed
    requires first.full == Without(found.threads, found.full, gone) && forall ref :: ref in order ==> ref in first.full
    requires left == Given(found.spec, found.target, left.threads, gone, first.full)
    requires SameShape(left.threads, found.threads) && Within(left.threads, order)
    requires forall a, b :: a in order && b in order ==>
               && left.Explored(runs, removed, {left.IdOf(a)})
               && left.Explored(runs, removed, {left.IdOf(a), left.IdOf(b)})
    ensures Thorough(found, gone, runs, removed, order)
  {
    hide PlayedHistory, SameShape, Without, found.Search, found.Tried, left.Explored;
    forall a, b | a in order && b in order
      ensures LeftFor(found, gone, runs, removed, {found.IdOf(a)})
      ensures LeftFor(found, gone, runs, removed, {found.IdOf(a), found.IdOf(b)})
    {
      LeftWereNeeded(found, round, first, a, b);
      SameShapeIds(left.threads, found.threads);
      ExploredSameShape(left, found.(removed := gone), runs, removed, {left.IdOf(a)});
      ExploredSameShape(left, found.(removed := gone), runs, removed, {left.IdOf(a), left.IdOf(b)});
    }
  }

  lemma ExploredSameShape(a: Given, b: Given, runs: nat, gone: set<int>, ids: set<int>)
    requires a.Valid() && b.Valid() && SameShape(a.threads, b.threads) && a.Explored(runs, gone, ids)
    requires a.spec == b.spec && a.target == b.target && a.removed == b.removed
    ensures b.Explored(runs, gone, ids)
  {
    hide SameShape, RunsAccepted;
    var before :| a.removed <= before <= gone && a.ExploredAt(runs, before, ids);
    RunsSameShape(a.spec, a.target, a.threads, b.threads, before + ids, runs);
    assert b.ExploredAt(runs, before, ids);
  }

  /** Generates rounds until one is rejected, and minimizes it if asked to. `found` is the round that was
      rejected; without `minimize` it is reported as it is. With it, the search over its interleaving decides
      whether the assertion on the number of events aborts the run; if not, the report is a rejected history of
      exactly the tasks that were not removed, and no task or pair of tasks is left that was not tried.
      No report and no abort means that `maxRounds` rounds of `maxTasks` finished tasks were accepted. */
  method Run(sched: RoundScheduler, maxTasks: nat, maxRounds: nat, minimize: bool, explorationRuns: nat)
    returns (res: Option<BothHistories>, aborted: bool,
             ghost accepted: seq<Round>, ghost found: Round, ghost gone: set<int>)
    requires sched.Valid() && sched.NewRound() && sched.removedTasks == {}
    modifies sched
    ensures sched.Valid() && |accepted| <= maxRounds
    ensures forall k :: 0 <= k < |accepted| ==>
              AcceptedRound(sched.builders, sched.spec, sched.target, maxTasks, accepted[k])
    ensures res.None? && !aborted ==> |accepted| == maxRounds
    ensures res.Some? || aborted ==>
              && |accepted| < maxRounds && SameShape(sched.threads, found.threads)
              && RejectedRound(sched.builders, sched.spec, sched.target, maxTasks, found)
    ensures res.Some? ==>
              && Rejected(sched.spec, sched.target, sched.threads, sched.removedTasks, res.value)
              && WellFormed(res.value.sequential, TableOf(sched.target, sched.threads))
              && !Linearizable(sched.spec, TableOf(sched.target, sched.threads), res.value.sequential)
    ensures !minimize ==> !aborted && sched.removedTasks == {}
    ensures !minimize && res.Some? ==> sched.threads == found.threads && AsFound(sched.target, found, res.value)
    ensures minimize && (res.Some? || aborted) ==> Searched(sched.spec, sched.target, found, gone, aborted)
    ensures aborted ==> minimize && res.None?
    ensures minimize && res.Some? ==>
              && Within(found.threads, found.order) && Within(found.threads, res.value.full)
              && Thorough(GivenOf(sched.spec, sched.target, found), gone, explorationRuns,
                          sched.removedTasks, res.value.full)
  {
    hide Rejects, PlayedHistory, SameShape, Playing, AcceptedRound, RejectedRound, Searched, Thorough;
    hide Sequential, AllMade, sched.Generated;
    accepted, aborted, gone, found := [], false, {}, Round(sched.threads, []);
    for i := 0 to maxRounds
      invariant sched.Valid() && sched.NewRound() && sched.removedTasks == {} && |accepted| == i && !aborted
      invariant forall k :: 0 <= k < |accepted| ==>
          AcceptedRound(sched.builders, sched.spec, sched.target, maxTasks, accepted[k])
    {
      ghost var order, h;
      res, order, h := sched.RunRound(maxTasks);
      PlayingPlayed(sched.target, sched.threads, sched.state, sched.removedTasks, order, h);
      found := Round(sched.threads, order);
      RanRound(sched, maxTasks, order, h);
      if res.Some? {
        PlayingVerdict(sched.spec, sched.target, sched.threads, sched.state, sched.removedTasks, order, h);
        RoundRejected(sched, order, h);
        SameShapeReflexive(sched.threads);
        if minimize {
          var histories;
          histories, aborted, gone := MinimizeRound(sched, res.value, explorationRuns);
          res := if aborted then None else Some(histories);
        }
        return;
      }
      accepted := accepted + [found];
      sched.StartNextRound();
    }
    res := None;
  }

  lemma RanRound(sched: RoundScheduler, maxTasks: nat, order: Ordering, h: History)
    requires sched.target.Valid() && Within(sched.threads, order) && AllMade(sched.builders, sched.threads)
    requires sched.Generated(order) && h == PlayedHistory(sched.target, sched.threads, order)
    requires Responses(h) == maxTasks
    ensures if Rejects(sched.spec, sched.target, sched.threads, order)
            then RejectedRound(sched.builders, sched.spec, sched.target, maxTasks, Round(sched.threads, order))
            else AcceptedRound(sched.builders, sched.spec, sched.target, maxTasks, Round(sched.threads, order))
  {
    hide PlayedHistory, AllMade;
  }

  lemma RoundRejected(sched: RoundScheduler, order: Ordering, h: History)
    requires sched.Valid() && sched.removedTasks == {} && sched.Generated(order)
    requires Playing(sched.target, sched.threads, sched.state, {}, order, h)
    requires Rejects(sched.spec, sched.target, sched.threads, order)
    ensures Rejected(sched.spec, sched.target, sched.threads, {}, BothHistories(order, h))
  {
    hide Rejects;
  }
}
