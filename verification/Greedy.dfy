/** Greedy minimization of an interleaving as plain data: which tasks the search removes, and what that
    means for the ones it leaves. */
module Greedy {
  import opened Histories
  import opened Playback
  import opened Rounds
  import opened Tasks

  /** The entries of a full history that belong to other tasks. */
  ghost function Without(threads: Threads, full: Ordering, exclude: set<int>): (order: Ordering)
    requires Within(threads, full)
    ensures forall ref :: ref in order <==> ref in full && TaskAt(threads, ref).id !in exclude
    ensures (forall ref :: ref in full ==> TaskAt(threads, ref).id !in exclude) ==> order == full
    decreases |full|
  {
    if full == [] then []
    else
      var last := full[|full| - 1];
      Without(threads, full[..|full| - 1], exclude) + if TaskAt(threads, last).id in exclude then [] else [last]
  }

  /** Leaving out tasks twice leaves out both. */
  lemma {:induction false} WithoutTwice(threads: Threads, full: Ordering, a: set<int>, b: set<int>)
    requires Within(threads, full)
    ensures Without(threads, Without(threads, full, a), b) == Without(threads, full, a + b)
    decreases |full|
  {
    if full != [] {
      hide Without;
      var init, last := full[..|full| - 1], full[|full| - 1];
      assert full == init + [last];
      WithoutTwice(threads, init, a, b);
      LastWithout(threads, init, last, a);
      LastWithout(threads, init, last, a + b);
      if TaskAt(threads, last).id !in a {
        LastWithout(threads, Without(threads, init, a), last, b);
      } else {
        assert Without(threads, init, a) + [] == Without(threads, init, a);
        assert Without(threads, init, a + b) + [] == Without(threads, init, a + b);
      }
    } else {
      assert Without(threads, [], a) == [];
    }
  }

  lemma LastWithout(threads: Threads, init: Ordering, last: TaskRef, exclude: set<int>)
    requires Within(threads, init) && InThreads(threads, last)
    ensures Without(threads, init + [last], exclude) ==
      Without(threads, init, exclude) + if TaskAt(threads, last).id in exclude then [] else [last]
  {
    assert (init + [last])[..|init + [last]| - 1] == init;
  }

  lemma {:induction false} WithoutSameShape(a: Threads, b: Threads, full: Ordering, exclude: set<int>)
    requires SameShape(a, b) && Within(a, full) && Within(b, full)
    ensures Without(a, full, exclude) == Without(b, full, exclude)
    decreases |full|
  {
    if full != [] {
      SameShapeIds(a, b);
      WithoutSameShape(a, b, full[..|full| - 1], exclude);
    }
  }

  /** How often the ordering resumes the task. */
  ghost function Occurrences(order: Ordering, ref: TaskRef): nat
    decreases |order|
  {
    if order == [] then 0 else Occurrences(order[..|order| - 1], ref) + if order[|order| - 1] == ref then 1 else 0
  }

  lemma {:induction false} OccurrencesWithout(threads: Threads, full: Ordering, exclude: set<int>, ref: TaskRef)
    requires Within(threads, full) && InThreads(threads, ref) && TaskAt(threads, ref).id !in exclude
    ensures Occurrences(Without(threads, full, exclude), ref) == Occurrences(full, ref)
    decreases |full|
  {
    if full != [] {
      var init, last := full[..|full| - 1], full[|full| - 1];
      OccurrencesWithout(threads, init, exclude, ref);
      var kept := Without(threads, init, exclude);
      assert (kept + [last])[..|kept + [last]| - 1] == kept;
      assert kept + [] == kept;
    }
  }

  /** Every entry of an unfinished task uses up some of its fuel. */
  lemma {:induction false} EntriesUseFuel(target: Target, locals: Locals, order: Ordering, ref: TaskRef)
    requires target.Valid() && ref in locals && forall r <- order :: r in locals
    ensures var local := PlayAll(target, locals, order).locals[ref];
            target.returned(local).Some? || target.fuel(local) + Occurrences(order, ref) <= target.fuel(locals[ref])
    decreases |order|
  {
    if order != [] {
      EntriesUseFuel(target, locals, order[..|order| - 1], ref);
    }
  }

  /** So many complete runs of the tasks that are not removed were accepted. */
  ghost predicate RunsAccepted(spec: Spec, target: Target, threads: Threads, removed: set<int>, runs: nat)
    requires target.Valid()
  {
    exists accepted: seq<Ordering> ::
      |accepted| == runs && forall k :: 0 <= k < runs ==> AcceptedRun(spec, target, threads, removed, accepted[k])
  }

  lemma RunsSameShape(spec: Spec, target: Target, a: Threads, b: Threads, removed: set<int>, runs: nat)
    requires target.Valid() && SameShape(a, b) && RunsAccepted(spec, target, a, removed, runs)
    ensures RunsAccepted(spec, target, b, removed, runs)
  {
    var accepted: seq<Ordering> :| |accepted| == runs
      && forall k :: 0 <= k < runs ==> AcceptedRun(spec, target, a, removed, accepted[k]);
    forall k | 0 <= k < runs ensures AcceptedRun(spec, target, b, removed, accepted[k]) {
      assert AcceptedRun(spec, target, a, removed, accepted[k]);
      RunAccepted(spec, target, a, b, removed, accepted[k]);
    }
  }

  // ---- The search ----

  /** The tasks removed at the end, or when the search is aborted. */
  datatype Outcome = Outcome(gone: set<int>, aborted: bool)

  /** The round being minimized: its tasks, those removed before, and the interleaving found. */
  datatype Given = Given(spec: Spec, target: Target, threads: Threads, removed: set<int>, full: Ordering) {

    ghost predicate Valid() {
      target.Valid() && Within(threads, full)
    }

    function IdOf(ref: TaskRef): int
      requires InThreads(threads, ref)
    {
      TaskAt(threads, ref).id
    }

    /** With the tasks of `gone` and of `ids` left out of the interleaving, the checker accepts. */
    ghost predicate Needed(gone: set<int>, ids: set<int>)
      requires Valid()
    {
      !Rejects(spec, target, threads, Without(threads, full, gone + ids))
    }

    /** With the tasks of `gone` left out, the replayed history has an odd number of events. */
    ghost predicate Odd(gone: set<int>)
      requires Valid()
    {
      !Even(|PlayedHistory(target, threads, Without(threads, full, gone))|)
    }

    /** Each task is left out unless it is needed. */
    ghost function AfterSingles(gone: set<int>, tasks: Ordering): set<int>
      requires Valid() && Within(threads, tasks)
      decreases |tasks|
    {
      if tasks == [] then gone
      else
        var id := IdOf(tasks[0]);
        AfterSingles(if id in gone || Needed(gone, {id}) then gone else gone + {id}, tasks[1..])
    }

    /** The first of the later tasks that can be left out together with `first`; an odd history aborts. */
    ghost function AfterPairsOf(gone: set<int>, first: TaskRef, tasks: Ordering): Outcome
      requires Valid() && InThreads(threads, first) && Within(threads, tasks)
      decreases |tasks|
    {
      if tasks == [] then Outcome(gone, false)
      else
        var ids := {IdOf(first), IdOf(tasks[0])};
        if IdOf(tasks[0]) in gone || Needed(gone, ids) then AfterPairsOf(gone, first, tasks[1..])
        else if Odd(gone + ids) then Outcome(gone, true)
        else Outcome(gone + ids, false)
    }

    ghost function AfterPairs(gone: set<int>, tasks: Ordering): Outcome
      requires Valid() && Within(threads, tasks)
      decreases |tasks|
    {
      if tasks == [] then Outcome(gone, false)
      else if IdOf(tasks[0]) in gone then AfterPairs(gone, tasks[1..])
      else
        var o := AfterPairsOf(gone, tasks[0], tasks[1..]);
        if o.aborted then o else AfterPairs(o.gone, tasks[1..])
    }

    /** Single tasks first, then pairs. */
    ghost function Search(tasks: Ordering): Outcome
      requires Valid() && Within(threads, tasks)
    {
      AfterPairs(AfterSingles(removed, tasks), tasks)
    }

    // ---- When it is not aborted ----

    /** Each task has an entry for every step it could need, whatever the others do. */
    ghost predicate Generous()
      requires Valid()
    {
      forall ref <- full :: Occurrences(full, ref) >= target.fuel(Renewed(target, TaskAt(threads, ref)).local)
    }

    lemma GenerousReturns(gone: set<int>, ref: TaskRef)
      requires Valid() && Generous() && ref in Without(threads, full, gone)
      ensures var order := Without(threads, full, gone);
              target.returned(PlayAll(target, Fresh(target, threads), order).locals[ref]).Some?
    {
      var order, locals := Without(threads, full, gone), Fresh(target, threads);
      OccurrencesWithout(threads, full, gone, ref);
      EntriesUseFuel(target, locals, order, ref);
      var local := PlayAll(target, locals, order).locals[ref];
      hide PlayAll, Fresh, Without, Occurrences;
      assert target.returned(local).None? ==> target.fuel(target.step(target.reset, local).1) < target.fuel(local);
    }

    lemma GenerousFinishes(gone: set<int>)
      requires Valid() && Generous()
      ensures |Pending(target, PlayAll(target, Fresh(target, threads), Without(threads, full, gone)))| == 0
    {
      hide PlayAll, Generous, Without, Fresh;
      var p := PlayAll(target, Fresh(target, threads), Without(threads, full, gone));
      forall ref | ref in p.started ensures target.returned(p.locals[ref]).Some? {
        GenerousReturns(gone, ref);
      }
      assert Pending(target, p) == {};
    }

    lemma GenerousIsEven(gone: set<int>)
      requires Valid() && Generous()
      ensures !Odd(gone)
    {
      var order, locals := Without(threads, full, gone), Fresh(target, threads);
      PlayCounted(target, locals, order);
      hide PlayAll, Generous, Without, Counted, Even, Pending, Fresh;
      EvenEvents(target, PlayAll(target, locals, order));
      GenerousFinishes(gone);
      EvenNone();
    }

    /** With an entry for every step the search is never aborted. */
    lemma GenerousSucceeds(tasks: Ordering)
      requires Valid() && Generous() && Within(threads, tasks)
      ensures !Search(tasks).aborted
    {
      hide Needed, Odd, Generous, AfterSingles;
      PairsSucceed(AfterSingles(removed, tasks), tasks);
    }

    lemma {:induction false} PairsSucceed(gone: set<int>, tasks: Ordering)
      requires Valid() && Generous() && Within(threads, tasks)
      ensures !AfterPairs(gone, tasks).aborted
      decreases |tasks|
    {
      hide Needed, Odd, Generous;
      if tasks != [] {
        PairsOfSucceed(gone, tasks[0], tasks[1..]);
        var next := if IdOf(tasks[0]) in gone then gone else AfterPairsOf(gone, tasks[0], tasks[1..]).gone;
        PairsSucceed(next, tasks[1..]);
      }
    }

    lemma {:induction false} PairsOfSucceed(gone: set<int>, first: TaskRef, tasks: Ordering)
      requires Valid() && Generous() && InThreads(threads, first) && Within(threads, tasks)
      ensures !AfterPairsOf(gone, first, tasks).aborted
      decreases |tasks|
    {
      hide Needed, Odd, Generous;
      if tasks != [] {
        GenerousIsEven(gone + {IdOf(first), IdOf(tasks[0])});
        PairsOfSucceed(gone, first, tasks[1..]);
      }
    }

    // ---- What the search leaves ----

    /** At some point before `gone` were removed the search tried to do without `ids` and could not. */
    ghost predicate Tried(gone: set<int>, ids: set<int>)
      requires Valid()
    {
      exists before :: removed <= before <= gone && Needed(before, ids)
    }

    /** The task is gone, or was tried alone. */
    ghost predicate Single(gone: set<int>, ref: TaskRef)
      requires Valid() && InThreads(threads, ref)
    {
      IdOf(ref) in gone || Tried(gone, {IdOf(ref)})
    }

    /** One of the tasks is gone, or they were tried together. */
    ghost predicate Pair(gone: set<int>, a: TaskRef, b: TaskRef)
      requires Valid() && InThreads(threads, a) && InThreads(threads, b)
    {
      IdOf(a) in gone || IdOf(b) in gone || Tried(gone, {IdOf(a), IdOf(b)})
    }

    /** A longer search has tried no less. */
    lemma TriedStays(gone: set<int>, more: set<int>, ids: set<int>)
      requires Valid() && Tried(gone, ids) && gone <= more
      ensures Tried(more, ids)
    {
      hide Needed;
      var before :| removed <= before <= gone && Needed(before, ids);
    }

    lemma SingleStays(gone: set<int>, more: set<int>, ref: TaskRef)
      requires Valid() && gone <= more && InThreads(threads, ref) && Single(gone, ref)
      ensures Single(more, ref)
    {
      hide Tried;
      if IdOf(ref) !in more { TriedStays(gone, more, {IdOf(ref)}); }
    }

    lemma PairStays(gone: set<int>, more: set<int>, a: TaskRef, b: TaskRef)
      requires Valid() && gone <= more && InThreads(threads, a) && InThreads(threads, b) && Pair(gone, a, b)
      ensures Pair(more, a, b)
    {
      hide Tried;
      if IdOf(a) !in more && IdOf(b) !in more { TriedStays(gone, more, {IdOf(a), IdOf(b)}); }
    }

    lemma {:induction false} SinglesTried(gone: set<int>, tasks: Ordering)
      requires Valid() && Within(threads, tasks) && removed <= gone
      ensures gone <= AfterSingles(gone, tasks)
      ensures forall ref <- tasks :: Single(AfterSingles(gone, tasks), ref)
      decreases |tasks|
    {
      hide Needed, Tried;
      if tasks != [] {
        var id := IdOf(tasks[0]);
        var next := if id in gone || Needed(gone, {id}) then gone else gone + {id};
        SinglesTried(next, tasks[1..]);
        assert Single(next, tasks[0]) by { FirstSingle(gone, next, tasks[0]); }
        SingleStays(next, AfterSingles(gone, tasks), tasks[0]);
        assert forall ref <- tasks :: ref == tasks[0] || ref in tasks[1..];
      }
    }

    lemma FirstSingle(gone: set<int>, next: set<int>, ref: TaskRef)
      requires Valid() && InThreads(threads, ref) && removed <= gone <= next
      requires IdOf(ref) in next || Needed(gone, {IdOf(ref)})
      ensures Single(next, ref)
    {
      hide Needed;
    }

    lemma {:induction false} PairsOfTried(gone: set<int>, first: TaskRef, tasks: Ordering)
      requires Valid() && InThreads(threads, first) && Within(threads, tasks) && removed <= gone
      ensures var o := AfterPairsOf(gone, first, tasks);
        && gone <= o.gone
        && (!o.aborted ==> forall ref <- tasks :: Pair(o.gone, first, ref))
      decreases |tasks|
    {
      hide Needed, Tried, Odd;
      if tasks != [] {
        var o, ids := AfterPairsOf(gone, first, tasks), {IdOf(first), IdOf(tasks[0])};
        if IdOf(tasks[0]) in gone || Needed(gone, ids) {
          PairsOfTried(gone, first, tasks[1..]);
          FirstPair(gone, first, tasks[0]);
          PairStays(gone, o.gone, first, tasks[0]);
        }
        assert forall ref <- tasks :: ref == tasks[0] || ref in tasks[1..];
      }
    }

    lemma FirstPair(gone: set<int>, a: TaskRef, b: TaskRef)
      requires Valid() && InThreads(threads, a) && InThreads(threads, b) && removed <= gone
      requires IdOf(a) in gone || IdOf(b) in gone || Needed(gone, {IdOf(a), IdOf(b)})
      ensures Pair(gone, a, b)
    {
      hide Needed;
    }

    lemma {:induction false} PairsTried(gone: set<int>, tasks: Ordering)
      requires Valid() && Within(threads, tasks) && removed <= gone
      ensures var o := AfterPairs(gone, tasks);
        && gone <= o.gone
        && (!o.aborted ==> forall i, j :: 0 <= i < j < |tasks| ==> Pair(o.gone, tasks[i], tasks[j]))
      decreases |tasks|
    {
      hide Needed, Tried, Odd, Pair;
      if tasks != [] {
        var first, rest, end := tasks[0], tasks[1..], AfterPairs(gone, tasks);
        var o := if IdOf(first) in gone then Outcome(gone, false) else AfterPairsOf(gone, first, rest);
        if IdOf(first) !in gone { PairsOfTried(gone, first, rest); }
        if !o.aborted {
          PairsTried(o.gone, rest);
          forall i, j | 0 <= i < j < |tasks| && !end.aborted ensures Pair(end.gone, tasks[i], tasks[j]) {
            assert tasks[j] == rest[j - 1];
            if i == 0 {
              if IdOf(first) in gone { FirstPair(gone, first, tasks[j]); }
              PairStays(o.gone, end.gone, first, tasks[j]);
            } else {
              assert tasks[i] == rest[i - 1];
            }
          }
        }
      }
    }

    lemma PairIsTried(gone: set<int>, a: TaskRef, b: TaskRef)
      requires Valid() && InThreads(threads, a) && InThreads(threads, b)
      requires IdOf(a) !in gone && IdOf(b) !in gone
      ensures Pair(gone, a, b) ==> Tried(gone, {IdOf(a), IdOf(b)}) && Tried(gone, {IdOf(b), IdOf(a)})
    {
      hide Tried;
      assert {IdOf(a), IdOf(b)} == {IdOf(b), IdOf(a)};
    }

    /** Every task and every pair of tasks that a search leaves was tried. */
    lemma LeftWereTried(tasks: Ordering, a: TaskRef, b: TaskRef)
      requires Valid() && Within(threads, tasks) && a in tasks && b in tasks && !Search(tasks).aborted
      requires IdOf(a) !in Search(tasks).gone && IdOf(b) !in Search(tasks).gone
      ensures Tried(Search(tasks).gone, {IdOf(a)}) && Tried(Search(tasks).gone, {IdOf(a), IdOf(b)})
    {
      hide Tried, Needed, Odd, AfterSingles, AfterPairs, AfterPairsOf, Pair;
      var singles, gone := AfterSingles(removed, tasks), Search(tasks).gone;
      SinglesTried(removed, tasks);
      PairsTried(singles, tasks);
      SingleStays(singles, gone, a);
      PairIsTried(gone, a, b);
      PairIsTried(gone, b, a);
      var i :| 0 <= i < |tasks| && tasks[i] == a;
      var j :| 0 <= j < |tasks| && tasks[j] == b;
      if i < j {
        assert Pair(gone, tasks[i], tasks[j]);
      } else if j < i {
        assert Pair(gone, tasks[j], tasks[i]);
      } else {
        assert {IdOf(a), IdOf(b)} == {IdOf(a)};
      }
    }

    // ---- What the search by exploration leaves ----

    /** At some point before `gone` were removed the search explored the round without `ids`, and each of
        the runs was accepted. */
    ghost predicate Explored(runs: nat, gone: set<int>, ids: set<int>)
      requires Valid()
    {
      exists before :: removed <= before <= gone && ExploredAt(runs, before, ids)
    }

    ghost predicate ExploredAt(runs: nat, gone: set<int>, ids: set<int>)
      requires Valid()
    {
      RunsAccepted(spec, target, threads, gone + ids, runs)
    }

    /** Each of the first tasks is gone, or the round was explored without it. */
    ghost predicate SinglesExplored(runs: nat, gone: set<int>, tasks: Ordering, n: nat)
      requires Valid() && Within(threads, tasks) && n <= |tasks|
    {
      forall k :: 0 <= k < n ==> IdOf(tasks[k]) in gone || Explored(runs, gone, {IdOf(tasks[k])})
    }

    /** One of the two tasks is gone, or the round was explored without both. */
    ghost predicate PairExplored(runs: nat, gone: set<int>, a: TaskRef, b: TaskRef)
      requires Valid() && InThreads(threads, a) && InThreads(threads, b)
    {
      IdOf(a) in gone || IdOf(b) in gone || Explored(runs, gone, {IdOf(a), IdOf(b)})
    }

    /** The pairs of a task with the later ones before the `n`-th. */
    ghost predicate RowExplored(runs: nat, gone: set<int>, tasks: Ordering, i: nat, n: nat)
      requires Valid() && Within(threads, tasks) && i < |tasks| && n <= |tasks|
    {
      forall j :: i < j < n ==> PairExplored(runs, gone, tasks[i], tasks[j])
    }

    /** The pairs that begin with one of the first tasks. */
    ghost predicate PairsExplored(runs: nat, gone: set<int>, tasks: Ordering, n: nat)
      requires Valid() && Within(threads, tasks) && n <= |tasks|
    {
      forall i :: 0 <= i < n ==> RowExplored(runs, gone, tasks, i, |tasks|)
    }

    lemma ExploredStays(runs: nat, gone: set<int>, more: set<int>, ids: set<int>)
      requires Valid() && Explored(runs, gone, ids) && gone <= more
      ensures Explored(runs, more, ids)
    {
      hide ExploredAt;
      var before :| removed <= before <= gone && ExploredAt(runs, before, ids);
    }

    lemma SinglesOn(runs: nat, gone: set<int>, more: set<int>, tasks: Ordering, n: nat)
      requires Valid() && Within(threads, tasks) && n < |tasks| && gone <= more
      requires SinglesExplored(runs, gone, tasks, n)
      requires IdOf(tasks[n]) in more || Explored(runs, more, {IdOf(tasks[n])})
      ensures SinglesExplored(runs, more, tasks, n + 1)
    {
      hide Explored;
      forall k | 0 <= k < n ensures IdOf(tasks[k]) in more || Explored(runs, more, {IdOf(tasks[k])}) {
        if IdOf(tasks[k]) !in more { ExploredStays(runs, gone, more, {IdOf(tasks[k])}); }
      }
    }

    lemma PairsOn(runs: nat, gone: set<int>, more: set<int>, tasks: Ordering, n: nat)
      requires Valid() && Within(threads, tasks) && n < |tasks| && gone <= more
      requires PairsExplored(runs, gone, tasks, n) && RowExplored(runs, more, tasks, n, |tasks|)
      ensures PairsExplored(runs, more, tasks, n + 1)
    {
      hide Explored;
      forall i, j | 0 <= i < n && i < j < |tasks| ensures PairExplored(runs, more, tasks[i], tasks[j]) {
        assert RowExplored(runs, gone, tasks, i, |tasks|);
        PairExploredStays(runs, gone, more, tasks[i], tasks[j]);
      }
    }

    lemma PairExploredStays(runs: nat, gone: set<int>, more: set<int>, a: TaskRef, b: TaskRef)
      requires Valid() && InThreads(threads, a) && InThreads(threads, b) && gone <= more
      requires PairExplored(runs, gone, a, b)
      ensures PairExplored(runs, more, a, b)
    {
      hide Explored;
      if IdOf(a) !in more && IdOf(b) !in more { ExploredStays(runs, gone, more, {IdOf(a), IdOf(b)}); }
    }

    lemma SinglesStayExplored(runs: nat, gone: set<int>, more: set<int>, tasks: Ordering, n: nat)
      requires Valid() && Within(threads, tasks) && n <= |tasks| && gone <= more
      requires SinglesExplored(runs, gone, tasks, n)
      ensures SinglesExplored(runs, more, tasks, n)
    {
      hide Explored;
      forall k | 0 <= k < n ensures IdOf(tasks[k]) in more || Explored(runs, more, {IdOf(tasks[k])}) {
        if IdOf(tasks[k]) !in more { ExploredStays(runs, gone, more, {IdOf(tasks[k])}); }
      }
    }

    /** Without every task and every pair of tasks that is left the round was explored. */
    lemma LeftWereExplored(runs: nat, gone: set<int>, tasks: Ordering, a: TaskRef, b: TaskRef)
      requires Valid() && Within(threads, tasks) && a in tasks && b in tasks
      requires IdOf(a) !in gone && IdOf(b) !in gone
      requires SinglesExplored(runs, gone, tasks, |tasks|) && PairsExplored(runs, gone, tasks, |tasks|)
      ensures Explored(runs, gone, {IdOf(a)}) && Explored(runs, gone, {IdOf(a), IdOf(b)})
    {
      hide Explored;
      var i :| 0 <= i < |tasks| && tasks[i] == a;
      var j :| 0 <= j < |tasks| && tasks[j] == b;
      assert {IdOf(a), IdOf(b)} == {IdOf(b), IdOf(a)};
      if i < j {
        assert RowExplored(runs, gone, tasks, i, |tasks|) && PairExplored(runs, gone, tasks[i], tasks[j]);
      } else if j < i {
        assert RowExplored(runs, gone, tasks, j, |tasks|) && PairExplored(runs, gone, tasks[j], tasks[i]);
      } else {
        assert {IdOf(a), IdOf(b)} == {IdOf(a)};
      }
    }
  }
}
