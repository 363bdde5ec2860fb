/** A round whose minimization is aborted by the assertion on the number of events: leaving out a pair of
    tasks leaves a third one pending under a history that is rejected. */
module Parity {
  import opened Greedy
  import opened Histories
  import opened Minimization
  import opened Playback
  import opened Rounds
  import opened Tasks

  /** Enough different values for the example: the shared object counts how far it is, the tasks "a" and "b"
      move it on, "c" needs a second step if neither did, and "d" fails if "c" has run after both or none. */
  datatype Example = Example(g: seq<Shared>, l: seq<Local>, good: Value, bad: Value, args: Args, s: State) {

    ghost predicate Valid() {
      && |g| == 4 && |l| == 6 && good != bad
      && (forall i, j :: 0 <= i < j < |g| ==> g[i] != g[j])
      && (forall i, j :: 0 <= i < j < |l| ==> l[i] != l[j])
    }

    ghost function Start(name: string): Local
      requires Valid()
    {
      if name == "c" then l[1] else if name == "d" then l[3] else l[0]
    }

    /** `l[0]` is before "a" or "b", `l[1]` and `l[2]` are before the steps of "c", `l[3]` is before "d";
        `l[4]` has returned the good value and `l[5]` the bad one. */
    ghost function Step(shared: Shared, local: Local): (Shared, Local)
      requires Valid()
    {
      if local == l[0] then (if shared == g[0] then g[1] else if shared == g[1] then g[2] else shared, l[4])
      else if local == l[1] then
        if shared == g[2] then (g[3], l[4]) else if shared == g[0] then (g[3], l[2]) else (shared, l[4])
      else if local == l[3] then (shared, if shared == g[3] then l[5] else l[4])
      else (shared, l[4])
    }

    ghost function ReturnedBy(local: Local): Option<Value>
      requires Valid()
    {
      if local == l[4] then Some(good) else if local == l[5] then Some(bad) else None
    }

    ghost function Fuel(local: Local): nat
      requires Valid()
    {
      if local == l[4] || local == l[5] then 0 else if local == l[1] then 2 else 1
    }

    ghost function TheTarget(): (target: Target)
      requires Valid()
      ensures target.Valid()
    {
      var target := Target(
        g[0],
        (name: string, _: Args) => Start(name),
        (shared: Shared, local: Local) => Step(shared, local),
        (local: Local) => ReturnedBy(local),
        good,
        (local: Local) => Fuel(local),
        2);
      target
    }

    /** Every method returns the good value. */
    ghost function TheSpec(): Spec {
      Spec(s, (state: State, _: string, _: Args) => (state, good), (a: Value, b: Value) => a == b,
           (_: State) => 0, (_: State, _: State) => false)
    }

    ghost function TheThreads(): Threads
      requires Valid()
    {
      [[Task(0, "a", args, l[0])], [Task(1, "b", args, l[0])], [Task(2, "c", args, l[1])], [Task(3, "d", args, l[3])]]
    }
  }

  const A: TaskRef := TaskRef(0, 0)
  const B: TaskRef := TaskRef(1, 0)
  const C: TaskRef := TaskRef(2, 0)
  const D: TaskRef := TaskRef(3, 0)

  // ---- When the specification accepts ----

  /** The invokes among the first events, in order. */
  ghost function Positions(h: History, n: nat): (order: seq<nat>)
    requires n <= |h|
    ensures forall k :: 0 <= k < |order| ==> order[k] < n && h[order[k]].Invoke?
    ensures forall i: nat :: i < n && h[i].Invoke? ==> i in order
  {
    if n == 0 then [] else
      var init := Positions(h, n - 1);
      if h[n - 1].Invoke? then
        assert (init + [n - 1])[|init|] == n - 1;
        assert forall i :: i in init ==> i in init + [n - 1];
        init + [n - 1]
      else init
  }

  lemma {:induction false} PositionsAscend(h: History, n: nat)
    requires n <= |h|
    ensures forall a, b :: 0 <= a < b < |Positions(h, n)| ==> Positions(h, n)[a] < Positions(h, n)[b]
  {
    if n > 0 { PositionsAscend(h, n - 1); }
  }

  ghost predicate AllGood(e: Example, table: Table, h: History) {
    forall i :: 0 <= i < |h| ==> h[i].task in table && table[h[i].task].ret == e.good
  }

  lemma {:induction false} GoodExplains(e: Example, table: Table, h: History, order: seq<nat>)
    requires AllGood(e, table, h) && Operations(h, order)
    ensures Explains(e.TheSpec(), table, h, order, e.s)
    decreases |order|
  {
    if order != [] { GoodExplains(e, table, h, order[1..]); }
  }

  lemma GoodIsAccepted(e: Example, table: Table, h: History)
    requires AllGood(e, table, h)
    ensures Linearizable(e.TheSpec(), table, h)
  {
    var order := Positions(h, |h|);
    PositionsAscend(h, |h|);
    GoodExplains(e, table, h, order);
    assert Linearization(e.TheSpec(), table, h, order);
  }

  lemma {:induction false} BadIsUnexplained(e: Example, table: Table, h: History, order: seq<nat>, i: nat)
    requires (forall k :: 0 <= k < |h| ==> h[k].task in table) && Operations(h, order)
    requires i in order && Completed(h, i) && table[h[i].task].ret != e.good
    ensures !Explains(e.TheSpec(), table, h, order, e.s)
    decreases |order|
  {
    if order[0] != i {
      BadIsUnexplained(e, table, h, order[1..], i);
    }
  }

  lemma BadIsRejected(e: Example, table: Table, h: History, i: nat)
    requires forall k :: 0 <= k < |h| ==> h[k].task in table
    requires Completed(h, i) && table[h[i].task].ret != e.good
    ensures !Linearizable(e.TheSpec(), table, h)
  {
    forall order | Linearization(e.TheSpec(), table, h, order) ensures false {
      BadIsUnexplained(e, table, h, order, i);
    }
  }

  // ---- What the orderings do ----

  ghost function PlayOf(e: Example, order: Ordering): Play
    requires e.Valid() && Within(e.TheThreads(), order)
  {
    PlayAll(e.TheTarget(), Fresh(e.TheTarget(), e.TheThreads()), order)
  }

  /** The shared object and the tasks after a play, and its history. */
  ghost predicate Now(e: Example, order: Ordering, shared: Shared, a: Local, b: Local, c: Local, d: Local, h: History)
    requires e.Valid()
  {
    && Within(e.TheThreads(), order)
    && var p := PlayOf(e, order);
       && p.state == shared && p.history == h
       && A in p.locals && p.locals[A] == a
       && B in p.locals && p.locals[B] == b
       && C in p.locals && p.locals[C] == c
       && D in p.locals && p.locals[D] == d
  }

  lemma Nothing(e: Example)
    requires e.Valid()
    ensures Now(e, [], e.g[0], e.l[0], e.l[0], e.l[1], e.l[3], [])
  {
  }

  lemma OneOn(e: Example, order: Ordering, ref: TaskRef)
    requires e.Valid() && Within(e.TheThreads(), order) && InThreads(e.TheThreads(), ref)
    ensures Within(e.TheThreads(), order + [ref])
    ensures PlayOf(e, order + [ref]) == PlayOne(e.TheTarget(), PlayOf(e, order), ref)
  {
    PlayNext(e.TheTarget(), Fresh(e.TheTarget(), e.TheThreads()), order, ref);
  }

  /** The events of an operation that runs alone. */
  ghost function Whole(ref: TaskRef, result: Value): History {
    [Invoke(ref), Response(ref, result)]
  }

  lemma StepsOfExample(e: Example)
    requires e.Valid()
    ensures e.Step(e.g[0], e.l[0]) == (e.g[1], e.l[4]) && e.Step(e.g[1], e.l[0]) == (e.g[2], e.l[4])
    ensures e.Step(e.g[0], e.l[1]) == (e.g[3], e.l[2]) && e.Step(e.g[1], e.l[1]) == (e.g[1], e.l[4])
    ensures e.Step(e.g[2], e.l[1]) == (e.g[3], e.l[4])
    ensures e.l[2] != e.l[4] && e.g[1] != e.g[3] && e.g[2] != e.g[3]
  {
  }

  lemma ARuns(e: Example, order: Ordering, shared: Shared, b: Local, c: Local, d: Local, h: History)
    requires e.Valid() && Now(e, order, shared, e.l[0], b, c, d, h) && A !in order
    ensures Now(e, order + [A], e.Step(shared, e.l[0]).0, e.l[4], b, c, d, h + Whole(A, e.good))
  {
    OneOn(e, order, A);
    hide PlayOf, e.TheThreads, Within;
  }

  lemma BRuns(e: Example, order: Ordering, shared: Shared, a: Local, c: Local, d: Local, h: History)
    requires e.Valid() && Now(e, order, shared, a, e.l[0], c, d, h) && B !in order
    ensures Now(e, order + [B], e.Step(shared, e.l[0]).0, a, e.l[4], c, d, h + Whole(B, e.good))
  {
    OneOn(e, order, B);
    hide PlayOf, e.TheThreads, Within;
  }

  lemma CRuns(e: Example, order: Ordering, shared: Shared, a: Local, b: Local, d: Local, h: History)
    requires e.Valid() && Now(e, order, shared, a, b, e.l[1], d, h) && C !in order
    ensures var (next, c) := e.Step(shared, e.l[1]);
      Now(e, order + [C], next, a, b, c, d, h + if c == e.l[4] then Whole(C, e.good) else [Invoke(C)])
  {
    OneOn(e, order, C);
    hide PlayOf, e.TheThreads, Within;
  }

  lemma DRuns(e: Example, order: Ordering, shared: Shared, a: Local, b: Local, c: Local, h: History)
    requires e.Valid() && Now(e, order, shared, a, b, c, e.l[3], h) && D !in order
    ensures var bad := shared == e.g[3];
      Now(e, order + [D], shared, a, b, c, if bad then e.l[5] else e.l[4],
          h + Whole(D, if bad then e.bad else e.good))
  {
    OneOn(e, order, D);
    hide PlayOf, e.TheThreads, Within;
  }

  lemma OneMoves(e: Example, ref: TaskRef)
    requires e.Valid() && (ref == A || ref == B)
    ensures Now(e, [ref], e.g[1], if ref == A then e.l[4] else e.l[0], if ref == B then e.l[4] else e.l[0],
                e.l[1], e.l[3], Whole(ref, e.good))
  {
    Nothing(e);
    StepsOfExample(e);
    hide Now, e.Step;
    if ref == A {
      ARuns(e, [], e.g[0], e.l[0], e.l[1], e.l[3], []);
    } else {
      BRuns(e, [], e.g[0], e.l[0], e.l[1], e.l[3], []);
    }
    assert [] + [ref] == [ref] && [] + Whole(ref, e.good) == Whole(ref, e.good);
  }

  lemma TwoMove(e: Example)
    requires e.Valid()
    ensures Now(e, [A, B], e.g[2], e.l[4], e.l[4], e.l[1], e.l[3], Whole(A, e.good) + Whole(B, e.good))
  {
    OneMoves(e, A);
    StepsOfExample(e);
    hide Now, e.Step, Whole;
    BRuns(e, [A], e.g[1], e.l[4], e.l[1], e.l[3], Whole(A, e.good));
    assert [A] + [B] == [A, B];
  }

  lemma OneThenC(e: Example, ref: TaskRef)
    requires e.Valid() && (ref == A || ref == B)
    ensures Now(e, [ref, C], e.g[1], if ref == A then e.l[4] else e.l[0], if ref == B then e.l[4] else e.l[0],
                e.l[4], e.l[3], Whole(ref, e.good) + Whole(C, e.good))
  {
    OneMoves(e, ref);
    StepsOfExample(e);
    hide Now, e.Step, Whole;
    var a, b := if ref == A then e.l[4] else e.l[0], if ref == B then e.l[4] else e.l[0];
    CRuns(e, [ref], e.g[1], a, b, e.l[3], Whole(ref, e.good));
    assert [ref] + [C] == [ref, C];
  }

  /** "c" returns after one of "a" and "b", and "d" then returns the good value. */
  lemma OneLeavesGood(e: Example, ref: TaskRef)
    requires e.Valid() && (ref == A || ref == B)
    ensures Now(e, [ref, C, D], e.g[1], if ref == A then e.l[4] else e.l[0], if ref == B then e.l[4] else e.l[0],
                e.l[4], e.l[4], Whole(ref, e.good) + Whole(C, e.good) + Whole(D, e.good))
  {
    OneThenC(e, ref);
    StepsOfExample(e);
    hide Now, e.Step, Whole;
    var a, b := if ref == A then e.l[4] else e.l[0], if ref == B then e.l[4] else e.l[0];
    DRuns(e, [ref, C], e.g[1], a, b, e.l[4], Whole(ref, e.good) + Whole(C, e.good));
    assert [ref, C] + [D] == [ref, C, D];
  }

  lemma TwoLeaveGood(e: Example)
    requires e.Valid()
    ensures Now(e, [A, B, D], e.g[2], e.l[4], e.l[4], e.l[1], e.l[4],
                Whole(A, e.good) + Whole(B, e.good) + Whole(D, e.good))
  {
    TwoMove(e);
    StepsOfExample(e);
    hide Now, e.Step, Whole;
    DRuns(e, [A, B], e.g[2], e.l[4], e.l[4], e.l[1], Whole(A, e.good) + Whole(B, e.good));
    assert [A, B] + [D] == [A, B, D];
  }

  lemma ThreeMove(e: Example)
    requires e.Valid()
    ensures Now(e, [A, B, C], e.g[3], e.l[4], e.l[4], e.l[4], e.l[3],
                Whole(A, e.good) + Whole(B, e.good) + Whole(C, e.good))
  {
    TwoMove(e);
    StepsOfExample(e);
    hide Now, e.Step, Whole;
    CRuns(e, [A, B], e.g[2], e.l[4], e.l[4], e.l[3], Whole(A, e.good) + Whole(B, e.good));
    assert [A, B] + [C] == [A, B, C];
  }

  /** After all three "d" returns the bad value. */
  lemma AllLeaveBad(e: Example)
    requires e.Valid()
    ensures Now(e, [A, B, C, D], e.g[3], e.l[4], e.l[4], e.l[4], e.l[5],
                Whole(A, e.good) + Whole(B, e.good) + Whole(C, e.good) + Whole(D, e.bad))
  {
    ThreeMove(e);
    StepsOfExample(e);
    hide Now, e.Step, Whole;
    DRuns(e, [A, B, C], e.g[3], e.l[4], e.l[4], e.l[4], Whole(A, e.good) + Whole(B, e.good) + Whole(C, e.good));
    assert [A, B, C] + [D] == [A, B, C, D];
  }

  /** Without "a" and "b", "c" is left pending and "d" returns the bad value. */
  lemma NoneLeavesBad(e: Example)
    requires e.Valid()
    ensures Now(e, [C, D], e.g[3], e.l[0], e.l[0], e.l[2], e.l[5], [Invoke(C)] + Whole(D, e.bad))
  {
    Nothing(e);
    StepsOfExample(e);
    hide Now, e.Step, Whole;
    CRuns(e, [], e.g[0], e.l[0], e.l[0], e.l[3], []);
    assert [] + [C] == [C] && [] + [Invoke(C)] == [Invoke(C)];
    DRuns(e, [C], e.g[3], e.l[0], e.l[0], e.l[2], [Invoke(C)]);
    assert [C] + [D] == [C, D];
  }

  // ---- Verdicts ----

  lemma GoodOrder(e: Example, order: Ordering)
    requires e.Valid() && Within(e.TheThreads(), order)
    requires forall ref <- order :: PlayOf(e, order).locals[ref] != e.l[5]
    ensures !Rejects(e.TheSpec(), e.TheTarget(), e.TheThreads(), order)
  {
    var target, threads := e.TheTarget(), e.TheThreads();
    PlayedWellFormed(target, threads, order);
    var h, table := PlayedHistory(target, threads, order), PlayedTable(target, threads, order);
    EventsInTable(h, table);
    assert AllGood(e, table, h);
    GoodIsAccepted(e, table, h);
  }

  lemma BadOrder(e: Example, order: Ordering, i: nat)
    requires e.Valid() && Within(e.TheThreads(), order) && D in order && PlayOf(e, order).locals[D] == e.l[5]
    requires i + 1 < |PlayOf(e, order).history|
    requires PlayOf(e, order).history[i] == Invoke(D) && PlayOf(e, order).history[i + 1] == Response(D, e.bad)
    ensures Rejects(e.TheSpec(), e.TheTarget(), e.TheThreads(), order)
  {
    var target, threads := e.TheTarget(), e.TheThreads();
    PlayedWellFormed(target, threads, order);
    var h, table := PlayedHistory(target, threads, order), PlayedTable(target, threads, order);
    EventsInTable(h, table);
    assert Answers(h, i, i + 1);
    BadIsRejected(e, table, h, i);
  }

  // ---- The search is aborted ----

  ghost function TheGiven(e: Example): Given
    requires e.Valid()
  {
    Given(e.TheSpec(), e.TheTarget(), e.TheThreads(), {}, [A, B, C, D])
  }

  lemma Shortened(e: Example, exclude: set<int>)
    requires e.Valid()
    ensures Within(e.TheThreads(), [A, B, C, D])
    ensures Without(e.TheThreads(), [A, B, C, D], exclude) ==
      (if 0 in exclude then [] else [A]) + (if 1 in exclude then [] else [B]) +
      (if 2 in exclude then [] else [C]) + if 3 in exclude then [] else [D]
  {
    var threads := e.TheThreads();
    assert [A, B, C] + [D] == [A, B, C, D] && [A, B] + [C] == [A, B, C] && [A] + [B] == [A, B] && [] + [A] == [A];
    assert Without(threads, [], exclude) == [];
    LastWithout(threads, [], A, exclude);
    LastWithout(threads, [A], B, exclude);
    LastWithout(threads, [A, B], C, exclude);
    LastWithout(threads, [A, B, C], D, exclude);
    hide Without;
  }

  lemma GoodEnd(e: Example, order: Ordering, shared: Shared, a: Local, b: Local, c: Local, d: Local, h: History)
    requires e.Valid() && Now(e, order, shared, a, b, c, d, h)
    requires a != e.l[5] && b != e.l[5] && c != e.l[5] && d != e.l[5]
    ensures !Rejects(e.TheSpec(), e.TheTarget(), e.TheThreads(), order)
  {
    forall ref | ref in order ensures PlayOf(e, order).locals[ref] != e.l[5] {
      assert ref == A || ref == B || ref == C || ref == D by { FourTasks(e, ref); }
    }
    hide PlayOf, Rejects;
    GoodOrder(e, order);
  }

  lemma FourTasks(e: Example, ref: TaskRef)
    requires e.Valid() && InThreads(e.TheThreads(), ref)
    ensures ref == A || ref == B || ref == C || ref == D
  {
  }

  lemma VerdictOf(e: Example, ids: set<int>, order: Ordering)
    requires e.Valid() && TheGiven(e).Valid() && order == Without(e.TheThreads(), [A, B, C, D], {} + ids)
    requires Within(e.TheThreads(), order)
    ensures TheGiven(e).Needed({}, ids) <==> !Rejects(e.TheSpec(), e.TheTarget(), e.TheThreads(), order)
    ensures TheGiven(e).Odd({} + ids) <==> !Even(|PlayedHistory(e.TheTarget(), e.TheThreads(), order)|)
  {
    hide Rejects, PlayedHistory, Without, Even;
  }

  lemma SinglesAreNeeded(e: Example, id: int)
    requires e.Valid() && 0 <= id < 4
    ensures TheGiven(e).Valid() && TheGiven(e).Needed({}, {id})
  {
    Shortened(e, {} + {id});
    var order := if id == 0 then [B, C, D] else if id == 1 then [A, C, D] else if id == 2 then [A, B, D] else [A, B, C];
    assert order == Without(e.TheThreads(), [A, B, C, D], {} + {id});
    FourAccepted(e);
    hide Rejects, Without, e.TheThreads, e.TheTarget, e.TheSpec;
    VerdictOf(e, {id}, order);
  }

  lemma FourAccepted(e: Example)
    requires e.Valid()
    ensures Accepted(e, [B, C, D]) && Accepted(e, [A, C, D]) && Accepted(e, [A, B, D]) && Accepted(e, [A, B, C])
  {
    OneLeavesGood(e, B);
    OneLeavesGood(e, A);
    TwoLeaveGood(e);
    ThreeMove(e);
    DifferentLocals(e);
    hide Now, Rejects, e.TheThreads, e.TheTarget, e.TheSpec, e.Valid, Whole;
    GoodEnd(e, [B, C, D], e.g[1], e.l[0], e.l[4], e.l[4], e.l[4],
            Whole(B, e.good) + Whole(C, e.good) + Whole(D, e.good));
    GoodEnd(e, [A, C, D], e.g[1], e.l[4], e.l[0], e.l[4], e.l[4],
            Whole(A, e.good) + Whole(C, e.good) + Whole(D, e.good));
    GoodEnd(e, [A, B, D], e.g[2], e.l[4], e.l[4], e.l[1], e.l[4],
            Whole(A, e.good) + Whole(B, e.good) + Whole(D, e.good));
    GoodEnd(e, [A, B, C], e.g[3], e.l[4], e.l[4], e.l[4], e.l[3],
            Whole(A, e.good) + Whole(B, e.good) + Whole(C, e.good));
  }

  lemma DifferentLocals(e: Example)
    requires e.Valid()
    ensures |e.l| == 6 && |e.g| == 4
    ensures e.l[0] != e.l[5] && e.l[1] != e.l[5] && e.l[3] != e.l[5] && e.l[4] != e.l[5]
  {
  }

  ghost predicate Accepted(e: Example, order: Ordering)
    requires e.Valid()
  {
    Within(e.TheThreads(), order) && !Rejects(e.TheSpec(), e.TheTarget(), e.TheThreads(), order)
  }

  lemma PairLeavesThree(e: Example)
    requires e.Valid()
    ensures Within(e.TheThreads(), [C, D]) && Rejects(e.TheSpec(), e.TheTarget(), e.TheThreads(), [C, D])
    ensures |PlayedHistory(e.TheTarget(), e.TheThreads(), [C, D])| == 3
  {
    NoneLeavesBad(e);
    hide Rejects, PlayAll, Fresh;
    BadOrder(e, [C, D], 1);
  }

  lemma ThreeIsOdd()
    ensures !Even(3)
  {
  }

  /** Without "a" and "b" the checker rejects a history of three events. */
  lemma PairIsOdd(e: Example)
    requires e.Valid()
    ensures TheGiven(e).Valid() && !TheGiven(e).Needed({}, {0, 1}) && TheGiven(e).Odd({} + {0, 1})
  {
    hide Rejects, Without, PlayedHistory, Even, e.TheThreads, e.TheTarget, e.TheSpec;
    PairShortened(e);
    PairLeavesThree(e);
    ThreeIsOdd();
    VerdictOf(e, {0, 1}, [C, D]);
  }

  lemma PairShortened(e: Example)
    requires e.Valid()
    ensures TheGiven(e).Valid() && Without(e.TheThreads(), [A, B, C, D], {} + {0, 1}) == [C, D]
  {
    Shortened(e, {} + {0, 1});
    assert [] + [] + [C] + [D] == [C, D];
    hide Without;
  }

  // ---- The search is aborted ----

  ghost function Found(e: Example): BothHistories
    requires e.Valid()
  {
    BothHistories([A, B, C, D], Whole(A, e.good) + Whole(B, e.good) + Whole(C, e.good) + Whole(D, e.bad))
  }

  /** The interleaving is one that minimization is given: it is rejected and runs all tasks of the round. */
  lemma FoundIsRejected(e: Example)
    requires e.Valid()
    ensures Rejected(e.TheSpec(), e.TheTarget(), e.TheThreads(), {}, Found(e))
  {
    AllLeaveBad(e);
    BadOrder(e, [A, B, C, D], 6);
    forall ref | Kept(e.TheThreads(), {}, ref) ensures ref in [A, B, C, D] {
      FourTasks(e, ref);
    }
    hide Rejects, PlayAll, Fresh;
  }

  lemma InvokesWhole(h: History, ref: TaskRef, result: Value)
    ensures Invokes(h + Whole(ref, result)) == Invokes(h) + [ref]
  {
    var longer := h + Whole(ref, result);
    assert longer[..|longer| - 1] == h + [Invoke(ref)];
    assert (h + [Invoke(ref)])[..|h|] == h;
    assert Invokes(h + [Invoke(ref)]) == Invokes(h) + [ref];
  }

  lemma InvokesOfFound(e: Example)
    requires e.Valid()
    ensures Invokes(Found(e).sequential) == [A, B, C, D]
  {
    hide Invokes, Whole;
    var a, b, c := Whole(A, e.good), Whole(B, e.good), Whole(C, e.good);
    assert Invokes([]) == [] by { NoInvokes(); }
    assert [] + a == a;
    InvokesWhole([], A, e.good);
    InvokesWhole(a, B, e.good);
    InvokesWhole(a + b, C, e.good);
    InvokesWhole(a + b + c, D, e.bad);
  }

  lemma NoInvokes()
    ensures Invokes([]) == []
  {
  }

  lemma SinglesStay(e: Example, tasks: Ordering)
    requires e.Valid() && TheGiven(e).Valid() && Within(e.TheThreads(), tasks)
    ensures TheGiven(e).AfterSingles({}, tasks) == {}
    decreases |tasks|
  {
    var given := TheGiven(e);
    hide given.Needed;
    if tasks != [] {
      FourTasks(e, tasks[0]);
      SinglesAreNeeded(e, given.IdOf(tasks[0]));
      SinglesStay(e, tasks[1..]);
    }
  }

  lemma FirstPairAborts(e: Example)
    requires e.Valid() && TheGiven(e).Valid() && Within(e.TheThreads(), [A, B, C, D])
    ensures TheGiven(e).AfterPairs({}, [A, B, C, D]) == Outcome({}, true)
  {
    var given, tasks := TheGiven(e), [A, B, C, D];
    PairIsOdd(e);
    assert tasks[1..][0] == B;
    assert given.IdOf(A) == 0 && given.IdOf(B) == 1;
    hide given.Needed, given.Odd, e.TheThreads, e.TheTarget, e.TheSpec;
    assert given.AfterPairsOf({}, A, tasks[1..]) == Outcome({}, true);
  }

  /** Each task alone is needed, and the first pair that the search finds leaves an odd number of events, so
      that the assertion aborts it. */
  lemma SearchIsAborted(e: Example)
    requires e.Valid()
    ensures TheGiven(e).Valid() && Within(e.TheThreads(), Invokes(Found(e).sequential))
    ensures TheGiven(e).Search(Invokes(Found(e).sequential)) == Outcome({}, true)
  {
    var given, tasks := TheGiven(e), [A, B, C, D];
    assert given.removed == {};
    InvokesOfFound(e);
    hide given.AfterSingles, given.AfterPairs, Invokes, e.TheTarget, e.TheSpec;
    SinglesStay(e, tasks);
    FirstPairAborts(e);
  }

  /** Minimizing that interleaving is aborted. */
  method MinimizeIsAborted(sched: RoundScheduler, ghost e: Example, found: BothHistories) returns (aborted: bool)
    requires e.Valid() && found == Found(e)
    requires sched.Valid() && sched.spec == e.TheSpec() && sched.target == e.TheTarget()
    requires sched.threads == e.TheThreads() && sched.removedTasks == {}
    modifies sched
    ensures aborted
  {
    FoundIsRejected(e);
    SearchIsAborted(e);
    hide Rejected;
    var histories;
    ghost var given;
    histories, aborted, given := Minimize(SameInterleaving, sched, found);
  }
}
