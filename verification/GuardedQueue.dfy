/** A queue in an array guarded by a mutex that parks the threads that wait, under a scheduler
    that never resumes a parked one: one access per step, any number of threads. */
module GuardedQueue {
  import opened Effects
  import opened Tasks

  const SIZE: nat := 100

  datatype Op = Push(value: int) | Pop

  /** The accesses inside the mutex, in program order; `e` is the result to return. */
  datatype Stage =
    | LoadHead
    | StoreHead(h: nat)
    | StoreItem(h: nat)
    | LoadTail(h: nat)
    | LoadTailAgain
    | StoreTail(t: nat)
    | LoadItem(t: nat)
    | LoadCount(e: int)
    | StoreCount(e: int, c: int)
    | CheckCount(e: int)
    | LoadCountAgain(e: int)
    | StoreCountAgain(e: int, c: int)
    | Unlock(e: int)

  datatype Pc =
    | Idle
    | Lock(op: Op)
    | Waiting(op: Op)
    | Critical(op: Op, stage: Stage)
    | Return(op: Op, result: int)

  datatype Data = Data(head: nat, tail: nat, count: int, a: seq<int>)

  /** `waiters` holds the tokens of the threads in the mutex; `arrived` and `released` record
      the order of locks and unlocks, `record` the history and the order of effects. */
  datatype State = State(
    waiters: seq<nat>,
    parked: set<nat>,
    data: Data,
    threads: seq<Pc>,
    arrived: seq<nat>,
    released: seq<nat>,
    record: Record<Op, int>)

  datatype Action = Call(thread: nat, op: Op) | Step(thread: nat)

  function Initial(count: nat): State {
    State([], {}, Data(0, 0, 0, seq(SIZE, (_: nat) => 0)), seq(count, (_: nat) => Idle), [], [], NoRecord(count))
  }

  /** The operation of a thread is in effect from the access that decides its result. */
  predicate Matches(pc: Pc, phase: Phase<Op, int>) {
    match pc
    case Idle => phase.Outside?
    case Lock(op) => phase.Before? && phase.op == op
    case Waiting(op) => phase.Before? && phase.op == op
    case Critical(op, stage) =>
      if HasEffect(pc) then phase.After? && phase.op == op && phase.result == stage.e
      else phase.Before? && phase.op == op
    case Return(op, result) => phase.After? && phase.op == op && phase.result == result
  }

  /** The operation has its result. */
  predicate HasEffect(pc: Pc) {
    match pc
    case Critical(_, LoadCount(_)) => true
    case Critical(_, StoreCount(_, _)) => true
    case Critical(_, CheckCount(_)) => true
    case Critical(_, LoadCountAgain(_)) => true
    case Critical(_, StoreCountAgain(_, _)) => true
    case Critical(_, Unlock(_)) => true
    case _ => false
  }

  function Goto(s: State, thread: nat, pc: Pc): State
    requires thread < |s.threads|
  {
    s.(threads := s.threads[thread := pc])
  }

  /** An access outside of the array has no effect here; runs that make one are excluded below. */
  function Item(a: seq<int>, i: nat): int { if i < |a| then a[i] else 0 }

  function WithItem(a: seq<int>, i: nat, value: int): seq<int> { if i < |a| then a[i := value] else a }

  /** One access inside the mutex, and the result if the operation takes effect by it. */
  function Inside(d: Data, op: Op, stage: Stage): (Data, Stage, Option<int>) {
    match stage
    case LoadHead => (d, if op.Push? then StoreHead(d.head) else LoadTail(d.head), None)
    case StoreHead(h) => (d.(head := h + 1), StoreItem(h), None)
    case StoreItem(h) =>
      (d.(a := WithItem(d.a, h, if op.Push? then op.value else 0)), LoadCount(0), Some(0))
    case LoadTail(h) => if h - d.tail > 0 then (d, LoadTailAgain, None) else (d, LoadCount(0), Some(0))
    case LoadTailAgain => (d, StoreTail(d.tail), None)
    case StoreTail(t) => (d.(tail := t + 1), LoadItem(t), None)
    case LoadItem(t) => (d, LoadCount(Item(d.a, t)), Some(Item(d.a, t)))
    case LoadCount(e) => (d, StoreCount(e, d.count), None)
    case StoreCount(e, c) => (d.(count := c + 1), CheckCount(e), None)
    case CheckCount(e) => (d, LoadCountAgain(e), None)
    case LoadCountAgain(e) => (d, StoreCountAgain(e, d.count), None)
    case StoreCountAgain(e, c) => (d.(count := c - 1), Unlock(e), None)
    case Unlock(_) => (d, stage, None)
  }

  /** A thread in the mutex performs its access. */
  function Work(s: State, thread: nat, op: Op, stage: Stage): State
    requires thread < |s.threads|
  {
    var (data, next, effect) := Inside(s.data, op, stage);
    var record := if effect.Some? then s.record.Effect(thread, effect.value) else s.record;
    Goto(s.(data := data, record := record), thread, Critical(op, next))
  }

  /** The front leaves, and the next waiter may run. */
  function Leave(s: State, thread: nat, op: Op, e: int): State
    requires thread < |s.threads| && s.waiters != []
  {
    var waiters := s.waiters[1..];
    var parked := if waiters == [] then s.parked else s.parked - {waiters[0]};
    Goto(s.(waiters := waiters, parked := parked, released := s.released + [thread]), thread, Return(op, e))
  }

  function Next(s: State, action: Action): State {
    var thread := action.thread;
    if thread >= |s.threads| || thread in s.parked then s
    else
      match (s.threads[thread], action)
      case (Idle, Call(_, op)) => Goto(s.(record := s.record.Begin(thread, op)), thread, Lock(op))
      case (Lock(op), Step(_)) =>
        var waiters := s.waiters + [thread];
        var in_ := s.(waiters := waiters, arrived := s.arrived + [thread]);
        if |waiters| == 1 then Goto(in_, thread, Critical(op, LoadHead))
        else Goto(in_.(parked := s.parked + {thread}), thread, Waiting(op))
      case (Waiting(op), Step(_)) => Goto(s, thread, Critical(op, LoadHead))
      case (Critical(op, stage), Step(_)) =>
        if !stage.Unlock? then Work(s, thread, op, stage)
        else if s.waiters == [] then s
        else Leave(s, thread, op, stage.e)
      case (Return(_, result), Step(_)) => Goto(s.(record := s.record.End(thread, result)), thread, Idle)
      case _ => s
  }

  function Run(count: nat, actions: seq<Action>): State {
    if actions == [] then Initial(count)
    else Next(Run(count, actions[..|actions| - 1]), actions[|actions| - 1])
  }

  // ---- The sequential queue ----

  /** The contents after the operation, and what it returns. */
  function Apply(queue: seq<int>, op: Op): (seq<int>, int) {
    match op
    case Push(value) => (queue + [value], 0)
    case Pop => if queue == [] then (queue, 0) else (queue[1..], queue[0])
  }

  const QUEUE: Sequential<seq<int>, Op, int> := Sequential([], Apply)

  function Contents(log: seq<Entry<Op, int>>): seq<int> {
    StateAfter(QUEUE, log)
  }

  // ---- Inside the mutex ----

  /** As long as no more than `SIZE` values were pushed, the array holds `queue`. */
  ghost predicate Holding(d: Data, from: nat, to: nat, queue: seq<int>) {
    from <= to && |d.a| == SIZE && (d.head <= SIZE && to <= SIZE ==> queue == d.a[from..to])
  }

  ghost predicate Between(d: Data, queue: seq<int>) {
    Holding(d, d.tail, d.head, queue) && d.count == 0
  }

  ghost predicate StageInv(d: Data, queue: seq<int>, op: Op, stage: Stage) {
    match stage
    case LoadHead => Between(d, queue)
    case StoreHead(h) => Between(d, queue) && op.Push? && h == d.head
    case StoreItem(h) => op.Push? && d.head == h + 1 && Holding(d, d.tail, h, queue) && d.count == 0
    case LoadTail(h) => Between(d, queue) && op.Pop? && h == d.head
    case LoadTailAgain => Between(d, queue) && op.Pop? && d.tail < d.head
    case StoreTail(t) => Between(d, queue) && op.Pop? && t == d.tail < d.head
    case LoadItem(t) => op.Pop? && d.tail == t + 1 <= d.head && Holding(d, t, d.head, queue) && d.count == 0
    case LoadCount(_) => Between(d, queue)
    case StoreCount(_, c) => Between(d, queue) && c == 0
    case CheckCount(_) => Holding(d, d.tail, d.head, queue) && d.count == 1
    case LoadCountAgain(_) => Holding(d, d.tail, d.head, queue) && d.count == 1
    case StoreCountAgain(_, c) => Holding(d, d.tail, d.head, queue) && d.count == 1 && c == 1
    case Unlock(_) => Between(d, queue)
  }

  /** The accesses that touch the array and its bounds. */
  lemma InsideKeeps(d: Data, queue: seq<int>, op: Op, stage: Stage)
    requires StageInv(d, queue, op, stage)
    ensures var (after, next, effect) := Inside(d, op, stage);
      && StageInv(after, if effect.Some? then Apply(queue, op).0 else queue, op, next)
      && (effect.Some? && after.head <= SIZE ==> effect.value == Apply(queue, op).1)
      && d.head <= after.head
  {
    match stage
    case StoreItem(h) => StoreKeeps(d, queue, op, h);
    case LoadItem(t) => LoadKeeps(d, queue, op, t);
    case _ => hide Item, WithItem;
  }

  lemma StoreKeeps(d: Data, queue: seq<int>, op: Op, h: nat)
    requires StageInv(d, queue, op, StoreItem(h))
    ensures Between(d.(a := WithItem(d.a, h, op.value)), Apply(queue, op).0)
  {
    if d.head <= SIZE {
      var a := d.a[h := op.value];
      assert a[d.tail..h + 1] == d.a[d.tail..h] + [op.value];
    }
  }

  lemma LoadKeeps(d: Data, queue: seq<int>, op: Op, t: nat)
    requires StageInv(d, queue, op, LoadItem(t))
    ensures Between(d, Apply(queue, op).0)
    ensures d.head <= SIZE ==> Item(d.a, t) == Apply(queue, op).1
  {
    if d.head <= SIZE {
      assert d.a[t..d.head] == [d.a[t]] + d.a[t + 1..d.head];
    }
  }

  // ---- The line of waiters ----

  predicate InMutex(pc: Pc) { pc.Waiting? || pc.Critical? }

  /** The waiters after the front. */
  function Rest(waiters: seq<nat>): seq<nat> { if waiters == [] then [] else waiters[1..] }

  /** The line holds the threads in the mutex, once each, in order of arrival; exactly those after
      the front are parked, and none of them has entered. */
  ghost predicate Line(s: State) {
    && s.arrived == s.released + s.waiters
    && Distinct(s.waiters)
    && Members(s)
    && Parked(s.parked, s.waiters)
  }

  ghost predicate Distinct(waiters: seq<nat>) {
    forall i, j :: 0 <= i < j < |waiters| ==> waiters[i] != waiters[j]
  }

  ghost predicate Parked(parked: set<nat>, waiters: seq<nat>) {
    forall k :: k in parked <==> k in Rest(waiters)
  }

  ghost predicate Members(s: State) {
    && (forall i :: 0 <= i < |s.waiters| ==> s.waiters[i] < |s.threads| && InMutex(s.threads[s.waiters[i]]))
    && (forall k :: 0 <= k < |s.threads| && InMutex(s.threads[k]) ==> k in s.waiters)
    && (forall i :: 0 < i < |s.waiters| ==> s.threads[s.waiters[i]].Waiting?)
  }

  /** The thread at the front, once it has entered, is at a stage of its operation; else the data are at rest. */
  ghost predicate Guarded(s: State) {
    && (if s.waiters != [] && s.waiters[0] < |s.threads| && s.threads[s.waiters[0]].Critical? then
          StageInv(s.data, Contents(s.record.log), s.threads[s.waiters[0]].op, s.threads[s.waiters[0]].stage)
        else
          Between(s.data, Contents(s.record.log)))
    && (s.data.head <= SIZE ==> Explains(QUEUE, s.record.log))
  }

  /** The record fits the threads. */
  ghost predicate Recorded(s: State) {
    && s.record.Valid()
    && |s.record.phases| == |s.threads|
    && forall k :: 0 <= k < |s.threads| ==> Matches(s.threads[k], s.record.phases[k])
  }

  ghost predicate Inv(s: State) {
    Line(s) && Guarded(s) && Recorded(s)
  }

  /** A thread that is in the mutex and not parked is the front. */
  lemma FrontIs(s: State, thread: nat)
    requires Line(s) && thread < |s.threads| && InMutex(s.threads[thread])
    requires s.threads[thread].Critical? || thread !in s.parked
    ensures s.waiters != [] && s.waiters[0] == thread
  {
    assert forall i :: 0 < i < |s.waiters| ==> s.waiters[i] in Rest(s.waiters);
  }

  /** A thread moves without entering or leaving the mutex; only the front goes on inside. */
  lemma MoveKeepsLine(s: State, n: State, thread: nat, pc: Pc)
    requires Line(s) && thread < |s.threads|
    requires InMutex(pc) == InMutex(s.threads[thread])
    requires pc.Critical? ==> s.waiters != [] && s.waiters[0] == thread
    requires n.waiters == s.waiters && n.parked == s.parked && n.arrived == s.arrived && n.released == s.released
    requires n.threads == s.threads[thread := pc]
    ensures Line(n)
  {
    if s.threads[thread].Waiting? && !pc.Waiting? {
      assert forall i :: 0 < i < |s.waiters| ==> s.waiters[i] != thread;
    }
  }

  lemma LockKeepsLine(s: State, n: State, thread: nat, op: Op)
    requires Line(s) && thread < |s.threads| && !InMutex(s.threads[thread])
    requires n.waiters == s.waiters + [thread] && n.arrived == s.arrived + [thread] && n.released == s.released
    requires if s.waiters == [] then n.parked == s.parked && n.threads == s.threads[thread := Critical(op, LoadHead)]
             else n.parked == s.parked + {thread} && n.threads == s.threads[thread := Waiting(op)]
    ensures Line(n)
  {
    assert thread !in s.waiters;
    assert Rest(n.waiters) == if s.waiters == [] then [] else Rest(s.waiters) + [thread];
    forall k | 0 <= k < |n.threads| && InMutex(n.threads[k]) ensures k in n.waiters {
      if k == thread { assert n.waiters[|s.waiters|] == k; } else { assert k in s.waiters; }
    }
  }

  lemma LeaveKeepsLine(s: State, thread: nat, op: Op, e: int)
    requires Line(s) && thread < |s.threads| && s.waiters != [] && s.waiters[0] == thread
    ensures Line(Leave(s, thread, op, e))
  {
    hide Members, Distinct, Parked;
    var n := Leave(s, thread, op, e);
    FrontIsFirst(s.released, s.waiters);
    LeaveKeepsMembers(s, n, thread);
    assert forall k :: k in s.parked <==> k in n.waiters by { assert Parked(s.parked, s.waiters); ParkedIs(s); }
    FrontLeaves(s.parked, n.waiters);
  }

  lemma ParkedIs(s: State)
    requires Parked(s.parked, s.waiters)
    ensures forall k :: k in s.parked <==> k in Rest(s.waiters)
  {
  }

  lemma FrontIsFirst(released: seq<nat>, waiters: seq<nat>)
    requires waiters != [] && Distinct(waiters)
    ensures released + waiters == released + [waiters[0]] + waiters[1..]
    ensures waiters == [waiters[0]] + waiters[1..]
    ensures Distinct(waiters[1..])
  {
  }

  lemma LeaveKeepsMembers(s: State, n: State, thread: nat)
    requires Members(s) && Distinct(s.waiters) && s.waiters == [thread] + n.waiters && thread < |s.threads|
    requires |n.threads| == |s.threads| && n.threads == s.threads[thread := n.threads[thread]]
    requires !InMutex(n.threads[thread])
    ensures Members(n)
  {
    assert s.waiters[0] == thread;
    assert forall i :: 0 <= i < |n.waiters| ==> n.waiters[i] == s.waiters[i + 1];
    forall k | 0 <= k < |n.threads| && InMutex(n.threads[k]) ensures k in n.waiters {
      assert k in s.waiters;
    }
  }

  lemma FrontLeaves(parked: set<nat>, waiters: seq<nat>)
    requires Distinct(waiters) && forall k :: k in parked <==> k in waiters
    ensures Parked(if waiters == [] then parked else parked - {waiters[0]}, waiters)
  {
    forall k | k in Rest(waiters) ensures k in waiters && k != waiters[0] {
      var i :| 0 <= i < |Rest(waiters)| && Rest(waiters)[i] == k;
      assert waiters[i + 1] == k;
    }
    forall k | k in waiters && k != waiters[0] ensures k in Rest(waiters) {
      var i :| 0 <= i < |waiters| && waiters[i] == k;
      assert Rest(waiters)[i - 1] == k;
    }
  }

  lemma WorkKeepsRecord(s: State, thread: nat, op: Op, stage: Stage)
    requires Recorded(s) && thread < |s.threads| && s.threads[thread] == Critical(op, stage) && !stage.Unlock?
    ensures var n, effect := Work(s, thread, op, stage), Inside(s.data, op, stage).2;
      && Recorded(n)
      && if effect.None? then n.record.log == s.record.log
         else exists id :: n.record.log == s.record.log + [Entry(id, op, effect.value)]
  {
    var n, effect := Work(s, thread, op, stage), Inside(s.data, op, stage).2;
    assert Matches(s.threads[thread], s.record.phases[thread]);
    if effect.Some? { EffectKeeps(s.record, thread, effect.value); }
    MoveKeepsRecord(s, n, thread);
    hide Recorded;
  }

  lemma WorkKeeps(s: State, thread: nat, op: Op, stage: Stage)
    requires Inv(s) && thread < |s.threads| && s.threads[thread] == Critical(op, stage) && !stage.Unlock?
    ensures Inv(Work(s, thread, op, stage)) && |Work(s, thread, op, stage).threads| == |s.threads|
  {
    var n, effect := Work(s, thread, op, stage), Inside(s.data, op, stage).2;
    FrontIs(s, thread);
    MoveKeepsLine(s, n, thread, n.threads[thread]);
    WorkKeepsRecord(s, thread, op, stage);
    hide Line, Inside, StageInv, Between, Recorded;
    InsideKeeps(s.data, Contents(s.record.log), op, stage);
    if effect.Some? { OneMoreEntry(QUEUE, s.record.log, n.record.log[|s.record.log|]); }
    hide Contents, Explains;
  }

  lemma NextKeepsInv(s: State, action: Action)
    requires Inv(s)
    ensures Inv(Next(s, action)) && |Next(s, action).threads| == |s.threads|
  {
    var thread, n := action.thread, Next(s, action);
    hide Line, Work, Leave, Contents, Explains, StageInv;
    if thread < |s.threads| && thread !in s.parked {
      match (s.threads[thread], action)
      case (Lock(op), Step(_)) => LockKeepsInv(s, thread, op);
      case (Waiting(op), Step(_)) => EnterKeepsInv(s, thread, op);
      case (Critical(op, stage), Step(_)) =>
        if !stage.Unlock? { WorkKeeps(s, thread, op, stage); } else { LeaveKeepsInv(s, thread, op, stage); }
      case (Idle, Call(_, op)) => CallKeepsInv(s, thread, op);
      case (Return(op, result), Step(_)) => ReturnKeepsInv(s, thread, op, result);
      case _ =>
    }
  }

  lemma CallKeepsInv(s: State, thread: nat, op: Op)
    requires Inv(s) && thread < |s.threads| && s.threads[thread].Idle?
    ensures Inv(Goto(s.(record := s.record.Begin(thread, op)), thread, Lock(op)))
  {
    var n := Goto(s.(record := s.record.Begin(thread, op)), thread, Lock(op));
    BeginKeeps(s.record, thread, op);
    MoveKeepsLine(s, n, thread, Lock(op));
    MoveKeepsRecord(s, n, thread);
    hide StageInv, Between, Contents, Explains, Line, Recorded;
  }

  lemma ReturnKeepsInv(s: State, thread: nat, op: Op, result: int)
    requires Inv(s) && thread < |s.threads| && s.threads[thread] == Return(op, result)
    ensures Inv(Goto(s.(record := s.record.End(thread, result)), thread, Idle))
  {
    var n := Goto(s.(record := s.record.End(thread, result)), thread, Idle);
    assert Matches(s.threads[thread], s.record.phases[thread]);
    EndKeeps(s.record, thread, result);
    MoveKeepsLine(s, n, thread, Idle);
    MoveKeepsRecord(s, n, thread);
    hide StageInv, Between, Contents, Explains, Line, Recorded;
  }

  lemma MoveKeepsRecord(s: State, n: State, thread: nat)
    requires Recorded(s) && thread < |s.threads| == |n.threads| && n.threads == s.threads[thread := n.threads[thread]]
    requires n.record.Valid() && |n.record.phases| == |s.record.phases|
    requires n.record.phases == s.record.phases[thread := n.record.phases[thread]]
    requires Matches(n.threads[thread], n.record.phases[thread])
    ensures Recorded(n)
  {
  }

  lemma LockKeepsInv(s: State, thread: nat, op: Op)
    requires Inv(s) && thread < |s.threads| && s.threads[thread] == Lock(op) && thread !in s.parked
    ensures Inv(Next(s, Step(thread))) && |Next(s, Step(thread)).threads| == |s.threads|
  {
    var n := Next(s, Step(thread));
    LockKeepsLine(s, n, thread, op);
    hide Contents, Explains, Between;
  }

  lemma EnterKeepsInv(s: State, thread: nat, op: Op)
    requires Inv(s) && thread < |s.threads| && s.threads[thread] == Waiting(op) && thread !in s.parked
    ensures Inv(Next(s, Step(thread))) && |Next(s, Step(thread)).threads| == |s.threads|
  {
    var n := Next(s, Step(thread));
    FrontIs(s, thread);
    MoveKeepsLine(s, n, thread, Critical(op, LoadHead));
    hide Contents, Explains, Between;
  }

  lemma LeaveKeepsInv(s: State, thread: nat, op: Op, stage: Stage)
    requires Inv(s) && thread < |s.threads| && s.threads[thread] == Critical(op, stage) && stage.Unlock?
    ensures s.waiters != []
    ensures Inv(Leave(s, thread, op, stage.e)) && |Leave(s, thread, op, stage.e).threads| == |s.threads|
  {
    FrontIs(s, thread);
    LeaveKeepsLine(s, thread, op, stage.e);
    hide Contents, Explains, Between;
    var n := Leave(s, thread, op, stage.e);
    if n.waiters != [] { assert n.waiters[0] == s.waiters[1]; }
  }

  lemma {:induction false} RunInv(count: nat, actions: seq<Action>)
    ensures Inv(Run(count, actions)) && |Run(count, actions).threads| == count
    decreases |actions|
  {
    hide Inv, Next;
    if actions == [] {
      InitialInv(count);
    } else {
      RunInv(count, actions[..|actions| - 1]);
      NextKeepsInv(Run(count, actions[..|actions| - 1]), actions[|actions| - 1]);
    }
  }

  lemma InitialInv(count: nat)
    ensures Inv(Initial(count)) && |Initial(count).threads| == count
  {
  }

  // ---- What the mutex and the queue promise ----

  /** The mutex is granted in order of arrival, and exactly the waiters after the front are parked. */
  lemma GrantsInArrivalOrder(count: nat, actions: seq<Action>)
    ensures var s := Run(count, actions);
      && s.arrived == s.released + s.waiters
      && (forall k :: k in s.parked <==> k in Rest(s.waiters))
      && (forall k :: 0 <= k < |s.threads| && s.threads[k].Critical? ==> s.waiters != [] && s.waiters[0] == k)
  {
    RunInv(count, actions);
    var s := Run(count, actions);
    hide Run, Guarded;
    forall k | 0 <= k < |s.threads| && s.threads[k].Critical? ensures s.waiters != [] && s.waiters[0] == k {
      FrontIs(s, k);
    }
  }

  /** The counter is 1 whenever a thread is about to assert it, and an unlock never finds the line empty. */
  lemma AssertionsHold(count: nat, actions: seq<Action>, thread: nat)
    requires thread < count
    ensures |Run(count, actions).threads| == count
    ensures var s := Run(count, actions);
      s.threads[thread].Critical? ==>
        && s.waiters != []
        && (s.threads[thread].stage.CheckCount? ==> s.data.count == 1)
  {
    RunInv(count, actions);
    hide Run;
    var s := Run(count, actions);
    if s.threads[thread].Critical? { FrontIs(s, thread); }
    hide Line;
  }

  // ---- First in, first out ----

  type Log = seq<Entry<Op, int>>

  /** The values pushed, in order. */
  function Pushed(log: Log): seq<int> {
    if log == [] then []
    else Pushed(log[..|log| - 1]) + match log[|log| - 1].op case Push(value) => [value] case Pop => []
  }

  /** How many of the pops found a value: those with fewer such pops than pushes before them. */
  function Found(log: Log): (n: nat)
    ensures n <= |Pushed(log)|
  {
    if log == [] then 0
    else
      var init := log[..|log| - 1];
      Found(init) + if log[|log| - 1].op.Pop? && Found(init) < |Pushed(init)| then 1 else 0
  }

  /** What an operation returns after the others: a push 0, the `k`-th pop that finds a value the `k`-th value
      pushed, and a pop that finds none 0. */
  ghost predicate InOrder(before: Log, e: Entry<Op, int>) {
    e.result ==
      if e.op.Pop? && Found(before) < |Pushed(before)| then Pushed(before)[Found(before)] else 0
  }

  lemma OneMore(log: Log, e: Entry<Op, int>)
    ensures Pushed(log + [e]) == Pushed(log) + (if e.op.Push? then [e.op.value] else [])
    ensures Found(log + [e]) == Found(log) + (if e.op.Pop? && Found(log) < |Pushed(log)| then 1 else 0)
  {
    assert (log + [e])[..|log + [e]| - 1] == log;
  }

  /** The sequential queue holds the values pushed that no pop has found. */
  lemma {:induction false} ContentsAreLeft(log: Log)
    ensures Contents(log) == Pushed(log)[Found(log)..]
    decreases |log|
  {
    if log != [] {
      var init, last := log[..|log| - 1], log[|log| - 1];
      assert log == init + [last];
      ContentsAreLeft(init);
      OneMoreEntry(QUEUE, init, last);
      OneMore(init, last);
      hide Found, Pushed, StateAfter, Explains;
      assert Found(log) <= |Pushed(log)|;
    }
  }

  /** What the sequential queue explains is first in, first out. */
  lemma {:induction false} ExplainedInOrder(log: Log, k: nat)
    requires Explains(QUEUE, log) && k < |log|
    ensures InOrder(log[..k], log[k])
    decreases |log|
  {
    var init, last := log[..|log| - 1], log[|log| - 1];
    assert log == init + [last];
    OneMoreEntry(QUEUE, init, last);
    if k < |init| {
      ExplainedInOrder(init, k);
      assert init[..k] == log[..k];
    } else {
      ContentsAreLeft(init);
      hide Found, Pushed, StateAfter, Explains;
    }
  }

  /** The thread at the front has raised the head and not yet stored its value. */
  ghost predicate Storing(s: State) {
    && s.waiters != [] && s.waiters[0] < |s.threads| && s.threads[s.waiters[0]].Critical?
    && s.threads[s.waiters[0]].stage.StoreItem?
  }

  /** The head counts the pushes. */
  ghost predicate Counts(s: State) {
    && s.data.head == |Pushed(s.record.log)| + (if Storing(s) then 1 else 0)
    && (|Pushed(s.record.log)| <= SIZE ==> Explains(QUEUE, s.record.log))
  }

  lemma NextCounts(s: State, action: Action)
    requires Inv(s) && Counts(s)
    ensures Counts(Next(s, action))
  {
    var thread, n := action.thread, Next(s, action);
    NextKeepsInv(s, action);
    if thread < |s.threads| && s.threads[thread].Critical? && thread !in s.parked && action.Step? {
      FrontIs(s, thread);
      var op, stage := s.threads[thread].op, s.threads[thread].stage;
      if !stage.Unlock? {
        WorkCounts(s, thread, op, stage);
      } else {
        LeaveStoresNothing(s, thread, op, stage.e);
      }
    } else {
      hide Work, Leave, Pushed, Explains, Guarded, StageInv;
      if thread < |s.threads| && s.waiters != [] && s.waiters[0] == thread && n.threads[thread].Critical? {
        assert n == s || n.threads[thread].stage.LoadHead?;
      }
      assert Storing(n) == Storing(s);
    }
  }

  lemma WorkCounts(s: State, thread: nat, op: Op, stage: Stage)
    requires Inv(s) && Counts(s) && thread < |s.threads| && s.threads[thread] == Critical(op, stage)
    requires s.waiters != [] && s.waiters[0] == thread && !stage.Unlock?
    requires Inv(Work(s, thread, op, stage))
    ensures Counts(Work(s, thread, op, stage))
  {
    WorkKeepsRecord(s, thread, op, stage);
    var n, effect := Work(s, thread, op, stage), Inside(s.data, op, stage).2;
    InsideHead(s.data, Contents(s.record.log), op, stage);
    hide Contents, Between, Line, Recorded, Explains, Pushed, Inside, StageInv;
    if effect.Some? { OneMore(s.record.log, n.record.log[|s.record.log|]); }
  }

  /** The head is raised before a value is stored, and a push takes effect by storing its value. */
  lemma InsideHead(d: Data, queue: seq<int>, op: Op, stage: Stage)
    requires StageInv(d, queue, op, stage)
    ensures var (after, next, effect) := Inside(d, op, stage);
      && after.head == d.head + (if stage.StoreHead? then 1 else 0)
      && (next.StoreItem? <==> stage.StoreHead?)
      && (effect.Some? && op.Push? <==> stage.StoreItem?)
  {
    hide Between, Holding, Item, WithItem;
  }

  lemma LeaveStoresNothing(s: State, thread: nat, op: Op, e: int)
    requires Inv(s) && Counts(s) && thread < |s.threads| && s.waiters != [] && s.waiters[0] == thread
    requires s.threads[thread].Critical? && s.threads[thread].stage.Unlock?
    ensures Counts(Leave(s, thread, op, e))
  {
    var n := Leave(s, thread, op, e);
    hide Guarded, Recorded, Pushed, Explains;
    if n.waiters != [] { assert n.waiters[0] == s.waiters[1]; }
  }

  lemma {:induction false} RunCounts(count: nat, actions: seq<Action>)
    ensures Counts(Run(count, actions))
    decreases |actions|
  {
    hide Inv, Counts, Next;
    if actions == [] {
      assert Counts(Initial(count)) by { InitialCounts(count); }
    } else {
      RunInv(count, actions[..|actions| - 1]);
      RunCounts(count, actions[..|actions| - 1]);
      NextCounts(Run(count, actions[..|actions| - 1]), actions[|actions| - 1]);
    }
  }

  lemma InitialCounts(count: nat)
    ensures Counts(Initial(count))
  {
  }

  /** While at most `SIZE` values were pushed, every push returns 0, the `k`-th pop that finds a value returns the
      `k`-th value pushed, and a pop before which as many pops found a value as were pushed returns 0. */
  lemma FirstInFirstOut(count: nat, actions: seq<Action>, k: nat)
    ensures var log := Run(count, actions).record.log;
      |Pushed(log)| <= SIZE && k < |log| ==> InOrder(log[..k], log[k])
  {
    RunCounts(count, actions);
    var log := Run(count, actions).record.log;
    hide Run, InOrder;
    if |Pushed(log)| <= SIZE && k < |log| { ExplainedInOrder(log, k); }
  }

  /** While at most `SIZE` values were pushed the history is linearizable to the sequential queue: every
      operation that returned took effect exactly once, with the result it returned, in an order that
      respects real time. At rest the array holds what was pushed and not found. */
  lemma LinearizesToQueue(count: nat, actions: seq<Action>)
    ensures var s := Run(count, actions);
      |Pushed(s.record.log)| <= SIZE ==>
        && WellFormed(s.record.history)
        && Linearization(QUEUE, s.record.history, s.record.log)
        && (s.waiters == [] ==>
              && s.data.tail <= s.data.head <= |s.data.a|
              && Pushed(s.record.log)[Found(s.record.log)..] == s.data.a[s.data.tail..s.data.head])
  {
    RunInv(count, actions);
    RunCounts(count, actions);
    var s := Run(count, actions);
    ContentsAreLeft(s.record.log);
    hide Run, Line, Contents, Pushed;
    if |Pushed(s.record.log)| <= SIZE { LogLinearizes(QUEUE, s.record); }
  }

  /** The history of a run consists of its calls and returns. */
  lemma HistoryIsCallsAndReturns(s: State, action: Action)
    requires Inv(s) && action.thread < |s.threads|
    ensures var n := Next(s, action);
      && |n.threads| == |s.threads|
      && match (s.threads[action.thread], n.threads[action.thread])
         case (Idle, Lock(op)) => n.record.history == s.record.history + [Invoke(|s.record.history|, op)]
         case (Return(op, result), Idle) =>
           n.record.history == s.record.history + [Response(s.record.phases[action.thread].id, result)]
         case _ => n.record.history == s.record.history
  {
    assert Matches(s.threads[action.thread], s.record.phases[action.thread]);
    hide Line, Guarded;
  }

  /** An operation takes effect exactly when its result is decided, inside the mutex, and returns only after that. */
  lemma EffectIsInside(s: State, action: Action)
    requires Inv(s) && action.thread < |s.threads|
    ensures var n := Next(s, action);
      && |n.threads| == |s.threads|
      && var was, now := s.threads[action.thread], n.threads[action.thread];
         && (n.record.log != s.record.log <==> !HasEffect(was) && HasEffect(now))
         && (now.Return? ==> was.Return? || HasEffect(was))
         && (now.Idle? ==> was.Idle? || was.Return?)
  {
    var was := s.threads[action.thread];
    assert Matches(was, s.record.phases[action.thread]);
    if was.Critical? && !was.stage.Unlock? { WorkKeepsRecord(s, action.thread, was.op, was.stage); }
    hide Inv, Recorded;
  }

  /** The result stays until the operation returns it. */
  lemma ResultIsKept(s: State, action: Action)
    requires action.thread < |s.threads| && HasEffect(s.threads[action.thread])
    ensures var n, was := Next(s, action), s.threads[action.thread];
      && |n.threads| == |s.threads|
      && match n.threads[action.thread]
         case Critical(op, stage) =>
           HasEffect(n.threads[action.thread]) && op == was.op && stage.e == was.stage.e
         case Return(op, result) => op == was.op && result == was.stage.e
         case _ => false
  {
  }

  /** The accesses a thread has before it, its return included, once it need not wait. */
  function Left(pc: Pc): (n: nat)
    ensures n <= 14
  {
    match pc
    case Idle => 0
    case Return(_, _) => 1
    case Critical(_, Unlock(_)) => 2
    case Critical(_, StoreCountAgain(_, _)) => 3
    case Critical(_, LoadCountAgain(_)) => 4
    case Critical(_, CheckCount(_)) => 5
    case Critical(_, StoreCount(_, _)) => 6
    case Critical(_, LoadCount(_)) => 7
    case Critical(_, LoadItem(_)) => 8
    case Critical(_, StoreTail(_)) => 9
    case Critical(_, LoadTailAgain) => 10
    case Critical(_, LoadTail(_)) => 11
    case Critical(_, StoreItem(_)) => 8
    case Critical(_, StoreHead(_)) => 9
    case Critical(_, LoadHead) => 12
    case Waiting(_) => 13
    case Lock(_) => 14
  }

  /** Every step of a thread that is not parked brings it nearer to its return, so a method takes at most
      fourteen steps. */
  lemma StepsAreBounded(count: nat, actions: seq<Action>, thread: nat)
    requires thread < count
    ensures var s := Run(count, actions);
      && |s.threads| == count
      && (thread !in s.parked && !s.threads[thread].Idle? ==>
            && |Next(s, Step(thread)).threads| == count
            && Left(Next(s, Step(thread)).threads[thread]) < Left(s.threads[thread]))
  {
    AssertionsHold(count, actions, thread);
    NextKeepsThreads(Run(count, actions), thread);
    hide Run;
  }

  lemma NextKeepsThreads(s: State, thread: nat)
    requires thread < |s.threads| && (s.threads[thread].Critical? ==> s.waiters != [])
    ensures |Next(s, Step(thread)).threads| == |s.threads|
    ensures thread !in s.parked && !s.threads[thread].Idle? ==>
      Left(Next(s, Step(thread)).threads[thread]) < Left(s.threads[thread])
  {
  }

  /** While threads wait the front can move: there is no deadlock. */
  lemma FrontCanMove(count: nat, actions: seq<Action>)
    ensures var s := Run(count, actions);
      s.waiters != [] ==> s.waiters[0] < |s.threads| && s.waiters[0] !in s.parked && Next(s, Step(s.waiters[0])) != s
  {
    RunInv(count, actions);
    var s := Run(count, actions);
    hide Run, Guarded;
    assert forall i :: 0 <= i < |Rest(s.waiters)| ==> Rest(s.waiters)[i] == s.waiters[i + 1];
  }
}
