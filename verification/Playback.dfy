/** What an ordering of task resumptions does, as plain data: the reference
    that generated, explored and replayed rounds are compared with. */
module Playback {
  import opened Histories
  import opened Tasks

  type Ordering = seq<TaskRef>
  type Locals = map<TaskRef, Local>

  datatype Play = Play(state: Shared, locals: Locals, history: History, started: set<TaskRef>)

  /** Every task's local state as it is right after a restart. */
  function Fresh(target: Target, threads: Threads): (locals: Locals)
    ensures forall ref :: ref in locals <==> InThreads(threads, ref)
    ensures forall ref :: ref in locals ==> locals[ref] == Renewed(target, TaskAt(threads, ref)).local
  {
    map ref | ref in Refs(threads) :: Renewed(target, TaskAt(threads, ref)).local
  }

  function Invoked(h: History, isNew: bool, ref: TaskRef): History {
    if isNew then h + [Invoke(ref)] else h
  }

  function Answered(target: Target, h: History, ref: TaskRef, local: Local): History {
    match target.returned(local)
    case Some(v) => h + [Response(ref, v)]
    case None => h
  }

  /** One entry of an ordering: a task's first entry invokes it, a returned task is skipped. */
  function PlayOne(target: Target, p: Play, ref: TaskRef): Play
    requires ref in p.locals
  {
    var invoked := Invoked(p.history, ref !in p.started, ref);
    if target.returned(p.locals[ref]).Some? then
      p.(history := invoked, started := p.started + {ref})
    else
      var (state, local) := target.step(p.state, p.locals[ref]);
      Play(state, p.locals[ref := local], Answered(target, invoked, ref, local), p.started + {ref})
  }

  ghost function PlayAll(target: Target, locals: Locals, order: Ordering): (p: Play)
    requires forall ref :: ref in order ==> ref in locals
    ensures p.locals.Keys == locals.Keys
    ensures forall ref :: ref in p.started <==> ref in order
    decreases |order|
  {
    if order == [] then Play(target.reset, locals, [], {})
    else PlayOne(target, PlayAll(target, locals, order[..|order| - 1]), order[|order| - 1])
  }

  lemma PlayNext(target: Target, locals: Locals, order: Ordering, ref: TaskRef)
    requires ref in locals && forall r :: r in order ==> r in locals
    ensures forall r :: r in order + [ref] ==> r in locals
    ensures PlayAll(target, locals, order + [ref]) == PlayOne(target, PlayAll(target, locals, order), ref)
  {
    assert (order + [ref])[..|order|] == order;
  }

  ghost predicate Agree(a: Locals, b: Locals, refs: set<TaskRef>) {
    forall ref :: ref in refs ==> ref in a && ref in b && a[ref] == b[ref]
  }

  /** Only the tasks of an ordering matter to it. */
  lemma {:induction false} PlayAgrees(target: Target, a: Locals, b: Locals, refs: set<TaskRef>, order: Ordering)
    requires Agree(a, b, refs) && forall ref :: ref in order ==> ref in refs
    ensures var p, q := PlayAll(target, a, order), PlayAll(target, b, order);
            p.state == q.state && p.history == q.history && p.started == q.started && Agree(p.locals, q.locals, refs)
    decreases |order|
  {
    if order != [] {
      PlayAgrees(target, a, b, refs, order[..|order| - 1]);
    }
  }

  lemma {:induction false} PlayUntouched(target: Target, locals: Locals, order: Ordering, ref: TaskRef)
    requires ref in locals && ref !in order && forall r :: r in order ==> r in locals
    ensures PlayAll(target, locals, order).locals[ref] == locals[ref]
    decreases |order|
  {
    if order != [] {
      PlayUntouched(target, locals, order[..|order| - 1], ref);
    }
  }

  // ---- Histories that playback produces ----

  /** The history holds an invoke for every started task, and a response for every returned one. */
  ghost predicate Faithful(target: Target, p: Play) {
    && p.started <= p.locals.Keys
    && (forall i :: 0 <= i < |p.history| ==> p.history[i].task in p.started)
    && (forall i, j :: 0 <= i < j < |p.history| && p.history[i].task == p.history[j].task ==>
          p.history[i].Invoke? && p.history[j].Response?)
    && (forall ref :: ref in p.started ==> Invoke(ref) in p.history)
    && (forall ref :: ref in p.started ==>
          match target.returned(p.locals[ref])
          case Some(v) => Response(ref, v) in p.history
          case None => forall i :: 0 <= i < |p.history| && p.history[i].task == ref ==> p.history[i].Invoke?)
  }

  lemma FaithfulInvoked(target: Target, p: Play, mid: Play, ref: TaskRef)
    requires Faithful(target, p) && ref in p.locals
    requires ref !in p.started ==> target.returned(p.locals[ref]).None?
    requires mid.state == p.state && mid.locals == p.locals && mid.started == p.started + {ref}
    requires mid.history == Invoked(p.history, ref !in p.started, ref)
    ensures Faithful(target, mid)
  {
    if ref in p.started {
      assert mid.started == p.started && mid.history == p.history;
    } else {
      FaithfulCalled(target, p, mid, ref);
    }
  }

  lemma FaithfulCalled(target: Target, p: Play, mid: Play, ref: TaskRef)
    requires Faithful(target, p) && ref in p.locals && ref !in p.started && target.returned(p.locals[ref]).None?
    requires mid.locals == p.locals && mid.started == p.started + {ref} && mid.history == p.history + [Invoke(ref)]
    ensures Faithful(target, mid)
  {
    assert mid.history[|p.history|] == Invoke(ref);
    assert forall e :: e in p.history ==> e in mid.history;
    forall r | r in mid.started
      ensures match target.returned(mid.locals[r])
              case Some(v) => Response(r, v) in mid.history
              case None => forall i :: 0 <= i < |mid.history| && mid.history[i].task == r ==> mid.history[i].Invoke?
    {
    }
  }

  lemma FaithfulOne(target: Target, p: Play, ref: TaskRef)
    requires Faithful(target, p) && ref in p.locals
    requires ref !in p.started ==> target.returned(p.locals[ref]).None?
    ensures Faithful(target, PlayOne(target, p, ref))
  {
    hide Faithful;
    var mid := p.(history := Invoked(p.history, ref !in p.started, ref), started := p.started + {ref});
    FaithfulInvoked(target, p, mid, ref);
    if target.returned(p.locals[ref]).None? {
      FaithfulStep(target, mid, ref);
      assert mid.started + {ref} == mid.started;
    }
  }

  lemma FaithfulStep(target: Target, mid: Play, ref: TaskRef)
    requires Faithful(target, mid) && ref in mid.started && target.returned(mid.locals[ref]).None?
    ensures Faithful(target, PlayOne(target, mid, ref))
  {
    var (state, local) := target.step(mid.state, mid.locals[ref]);
    match target.returned(local)
    case None =>
    case Some(v) =>
      FaithfulAnswer(target, mid, ref, state, local, v);
  }

  lemma FaithfulAnswer(target: Target, mid: Play, ref: TaskRef, state: Shared, local: Local, v: Value)
    requires Faithful(target, mid) && ref in mid.started && target.returned(mid.locals[ref]).None?
    requires target.returned(local) == Some(v)
    ensures Faithful(target, Play(state, mid.locals[ref := local], mid.history + [Response(ref, v)], mid.started))
  {
    var longer := mid.history + [Response(ref, v)];
    assert longer[|mid.history|] == Response(ref, v);
    assert forall e :: e in mid.history ==> e in longer;
  }

  ghost predicate AllIdle(target: Target, locals: Locals, order: Ordering) {
    forall ref :: ref in order ==> ref in locals && target.returned(locals[ref]).None?
  }

  lemma {:induction false} PlayFaithful(target: Target, locals: Locals, order: Ordering)
    requires AllIdle(target, locals, order)
    ensures Faithful(target, PlayAll(target, locals, order))
    decreases |order|
  {
    if order != [] {
      var before, ref := order[..|order| - 1], order[|order| - 1];
      PlayFaithful(target, locals, before);
      if ref !in before {
        PlayUntouched(target, locals, before, ref);
      }
      FaithfulOne(target, PlayAll(target, locals, before), ref);
    }
  }

  lemma FaithfulWellFormed(target: Target, p: Play, table: Table)
    requires Faithful(target, p) && forall ref :: ref in p.started ==> ref in table
    ensures WellFormed(p.history, table)
  {
    var h := p.history;
    forall r | 0 <= r < |h| && h[r].Response? ensures exists i :: Answers(h, i, r) {
      assert Invoke(h[r].task) in h;
      var i :| 0 <= i < |h| && h[i] == Invoke(h[r].task);
      assert Answers(h, i, r);
    }
  }

  // ---- How many events playback produces ----

  ghost function Answerers(target: Target, p: Play): (refs: set<TaskRef>)
    requires p.started <= p.locals.Keys
    ensures forall ref :: ref in refs <==> ref in p.started && target.returned(p.locals[ref]).Some?
  {
    set ref | ref in p.started && target.returned(p.locals[ref]).Some?
  }

  /** One invoke for each started task and one response for each that returned. */
  ghost predicate Counted(target: Target, p: Play) {
    p.started <= p.locals.Keys && |p.history| == |p.started| + |Answerers(target, p)|
  }

  lemma CountedOne(target: Target, p: Play, ref: TaskRef)
    requires Counted(target, p) && ref in p.locals
    requires ref !in p.started ==> target.returned(p.locals[ref]).None?
    ensures Counted(target, PlayOne(target, p, ref))
  {
    var n := PlayOne(target, p, ref);
    if target.returned(p.locals[ref]).Some? {
      assert n.started == p.started;
      assert Answerers(target, n) == Answerers(target, p);
    } else if target.returned(n.locals[ref]).Some? {
      assert Answerers(target, n) == Answerers(target, p) + {ref} && ref !in Answerers(target, p);
      assert ref in p.started ==> n.started == p.started;
    } else {
      assert ref in p.started ==> n.started == p.started;
      assert Answerers(target, n) == Answerers(target, p);
    }
  }

  lemma {:induction false} PlayCounted(target: Target, locals: Locals, order: Ordering)
    requires AllIdle(target, locals, order)
    ensures Counted(target, PlayAll(target, locals, order))
    decreases |order|
  {
    if order == [] {
      assert Answerers(target, PlayAll(target, locals, order)) == {};
    } else {
      var before, ref := order[..|order| - 1], order[|order| - 1];
      PlayCounted(target, locals, before);
      if ref !in before {
        PlayUntouched(target, locals, before, ref);
      }
      CountedOne(target, PlayAll(target, locals, before), ref);
    }
  }

  /** The tasks a run starts and leaves unfinished. */
  ghost function Pending(target: Target, p: Play): (refs: set<TaskRef>)
    requires p.started <= p.locals.Keys
  {
    set ref | ref in p.started && target.returned(p.locals[ref]).None?
  }

  /** A run has an even number of events exactly when it leaves an even number of tasks pending. */
  lemma EvenEvents(target: Target, p: Play)
    requires Counted(target, p)
    ensures Even(|p.history|) <==> Even(|Pending(target, p)|)
  {
    hide Even;
    var done, left := Answerers(target, p), Pending(target, p);
    assert p.started == done + left;
    EvenSum(|done|, |left|);
  }

  predicate Even(n: nat) { n % 2 == 0 }

  lemma EvenNone()
    ensures Even(0)
  {
  }

  lemma EvenTwice(n: nat)
    ensures Even(n + n)
  {
  }

  lemma EvenSum(a: nat, b: nat)
    ensures Even(a + b + a) <==> Even(b)
  {
  }

  // ---- What the checker sees ----

  /** The calls of an ordering's tasks, with the return values playback leaves in the slots. */
  ghost function PlayedTable(target: Target, threads: Threads, order: Ordering): (table: Table)
    requires forall ref :: ref in order ==> InThreads(threads, ref)
    ensures forall ref :: ref in table <==> ref in order
  {
    var p := PlayAll(target, Fresh(target, threads), order);
    map ref | ref in p.started :: CallOf(target, TaskAt(threads, ref).(local := p.locals[ref]))
  }

  ghost predicate Within(threads: Threads, order: Ordering) {
    forall ref :: ref in order ==> InThreads(threads, ref)
  }

  ghost function PlayedHistory(target: Target, threads: Threads, order: Ordering): History
    requires Within(threads, order)
  {
    PlayAll(target, Fresh(target, threads), order).history
  }

  lemma PlayedWellFormed(target: Target, threads: Threads, order: Ordering)
    requires target.Valid() && Within(threads, order)
    ensures WellFormed(PlayedHistory(target, threads, order), PlayedTable(target, threads, order))
  {
    PlayFaithful(target, Fresh(target, threads), order);
    FaithfulWellFormed(target, PlayAll(target, Fresh(target, threads), order), PlayedTable(target, threads, order));
  }

  /** Playing the ordering yields a history that is not linearizable. */
  ghost predicate Rejects(spec: Spec, target: Target, threads: Threads, order: Ordering)
    requires target.Valid() && Within(threads, order)
  {
    PlayedWellFormed(target, threads, order);
    EventsInTable(PlayedHistory(target, threads, order), PlayedTable(target, threads, order));
    !Linearizable(spec, PlayedTable(target, threads, order), PlayedHistory(target, threads, order))
  }

  /** Playback depends on the tasks' shapes only. */
  lemma SameShapeSamePlay(spec: Spec, target: Target, a: Threads, b: Threads, order: Ordering)
    requires SameShape(a, b) && Within(a, order)
    ensures Within(b, order) && Fresh(target, a) == Fresh(target, b)
    ensures PlayedHistory(target, a, order) == PlayedHistory(target, b, order)
    ensures PlayedTable(target, a, order) == PlayedTable(target, b, order)
  {
    forall ref | InThreads(a, ref) ensures InThreads(b, ref) && ShapeOf(TaskAt(a, ref)) == ShapeOf(TaskAt(b, ref)) {
      assert ShapeOf(a[ref.thread][ref.index]) == ShapeOf(b[ref.thread][ref.index]);
    }
    assert Fresh(target, a) == Fresh(target, b);
  }

  lemma RejectsSameShape(spec: Spec, target: Target, a: Threads, b: Threads, order: Ordering)
    requires target.Valid() && SameShape(a, b) && Within(a, order)
    ensures Within(b, order)
    ensures Rejects(spec, target, a, order) <==> Rejects(spec, target, b, order)
  {
    hide PlayedHistory, PlayedTable, Linearizable;
    SameShapeSamePlay(spec, target, a, b, order);
  }

  // ---- Playing step by step ----

  /** A moment of a run: the shared object, the local states of the tasks and the events so far. */
  datatype Moment = Moment(shared: Shared, locals: Locals, history: History)

  /** The task is invoked if this is its first resumption. If it has not returned it takes one step, and it
      answers when that makes it return. */
  ghost predicate Resumes(target: Target, ref: TaskRef, isFirst: bool, m: Moment, n: Moment) {
    && ref in m.locals
    && var called := if isFirst then m.history + [Invoke(ref)] else m.history;
       if target.returned(m.locals[ref]).Some? then
         n == Moment(m.shared, m.locals, called)
       else
         var (shared, local) := target.step(m.shared, m.locals[ref]);
         && n.shared == shared
         && n.locals == m.locals[ref := local]
         && n.history ==
            if target.returned(local).Some? then called + [Response(ref, target.returned(local).value)] else called
  }

  /** A run of the target from its first state, with every task as it is built. */
  ghost predicate Trajectory(target: Target, threads: Threads, order: Ordering, run: seq<Moment>) {
    && |run| == |order| + 1
    && run[0].shared == target.reset && run[0].history == []
    && (forall ref :: InThreads(threads, ref) ==>
          && ref in run[0].locals
          && run[0].locals[ref] == target.start(TaskAt(threads, ref).name, TaskAt(threads, ref).args))
    && (forall k :: 0 <= k < |order| ==> Resumes(target, order[k], order[k] !in order[..k], run[k], run[k + 1]))
  }

  ghost function MomentOf(target: Target, threads: Threads, order: Ordering, k: nat): Moment
    requires Within(threads, order) && k <= |order|
  {
    var p := PlayAll(target, Fresh(target, threads), order[..k]);
    Moment(p.state, p.locals, p.history)
  }

  lemma MomentResumes(target: Target, threads: Threads, order: Ordering, k: nat)
    requires Within(threads, order) && k < |order|
    ensures Resumes(target, order[k], order[k] !in order[..k],
                    MomentOf(target, threads, order, k), MomentOf(target, threads, order, k + 1))
  {
    SplitAt(order, k);
    PlayNext(target, Fresh(target, threads), order[..k], order[k]);
    hide PlayAll;
  }

  /** Playing an ordering runs the target, each resumption being a step of its task. */
  lemma PlayIsTrajectory(target: Target, threads: Threads, order: Ordering) returns (run: seq<Moment>)
    requires Within(threads, order)
    ensures Trajectory(target, threads, order, run)
    ensures var p := PlayAll(target, Fresh(target, threads), order);
            run[|order|] == Moment(p.state, p.locals, p.history)
  {
    run := seq(|order| + 1, k requires 0 <= k <= |order| => MomentOf(target, threads, order, k));
    FirstAndLast(target, threads, order);
    hide Resumes, MomentOf, PlayAll;
    forall k | 0 <= k < |order| ensures Resumes(target, order[k], order[k] !in order[..k], run[k], run[k + 1]) {
      MomentResumes(target, threads, order, k);
    }
  }

  lemma FirstAndLast(target: Target, threads: Threads, order: Ordering)
    requires Within(threads, order)
    ensures MomentOf(target, threads, order, 0) == Moment(target.reset, Fresh(target, threads), [])
    ensures var p := PlayAll(target, Fresh(target, threads), order);
            MomentOf(target, threads, order, |order|) == Moment(p.state, p.locals, p.history)
  {
    assert order[..0] == [];
    TakeAll(order);
  }

  /** What the checker reads of a task is its name and its arguments, and the value of its response. */
  lemma SlotsShowResponses(target: Target, threads: Threads, order: Ordering, ref: TaskRef, v: Value)
    requires target.Valid() && Within(threads, order) && Response(ref, v) in PlayedHistory(target, threads, order)
    ensures ref in PlayedTable(target, threads, order)
    ensures var call := PlayedTable(target, threads, order)[ref];
            call.name == TaskAt(threads, ref).name && call.args == TaskAt(threads, ref).args && call.ret == v
  {
    var locals := Fresh(target, threads);
    PlayFaithful(target, locals, order);
    var p := PlayAll(target, locals, order);
    var i :| 0 <= i < |p.history| && p.history[i] == Response(ref, v);
    assert p.history[i].task in p.started;
    match target.returned(p.locals[ref])
    case Some(w) =>
      var j :| 0 <= j < |p.history| && p.history[j] == Response(ref, w);
      assert i == j;
    case None =>
  }

  // ---- A checker only looks at the tasks a history mentions ----

  ghost predicate TablesAgree(h: History, a: Table, b: Table) {
    forall i :: 0 <= i < |h| ==> h[i].task in a && h[i].task in b && a[h[i].task] == b[h[i].task]
  }

  lemma {:induction false} ExplainsAgree(spec: Spec, a: Table, b: Table, h: History, order: seq<nat>, s: State)
    requires TablesAgree(h, a, b) && Operations(h, order) && Explains(spec, a, h, order, s)
    ensures Explains(spec, b, h, order, s)
    decreases |order|
  {
    if order != [] {
      ExplainsAgree(spec, a, b, h, order[1..], Outcome(spec, a, h, order[0], s).0);
    }
  }

  lemma LinearizableAgree(spec: Spec, a: Table, b: Table, h: History)
    requires TablesAgree(h, a, b)
    ensures Linearizable(spec, a, h) <==> Linearizable(spec, b, h)
  {
    if Linearizable(spec, a, h) {
      var order :| Linearization(spec, a, h, order);
      ExplainsAgree(spec, a, b, h, order, spec.first);
      assert Linearization(spec, b, h, order);
    }
    if Linearizable(spec, b, h) {
      var order :| Linearization(spec, b, h, order);
      ExplainsAgree(spec, b, a, h, order, spec.first);
      assert Linearization(spec, a, h, order);
    }
  }
}
