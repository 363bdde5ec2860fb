/** Where the ring buffer is not a bounded queue: two runs whose histories no order explains. */
module RingLimits {
  import opened Effects
  import opened RingBuffer

  /** The bounded queue the ring is compared with; a pop of the empty queue returns 0. */
  function Apply(queue: seq<int>, op: Op): (seq<int>, int) {
    match op
    case Push(value) => if |queue| >= 2 then (queue, 0) else (queue + [value], 1)
    case Pop => if queue == [] then (queue, 0) else (queue[1..], queue[0])
  }

  const BOUNDED: Sequential<seq<int>, Op, int> := Sequential([], Apply)

  // ---- Methods that run alone ----

  function Steps(s: State, thread: nat, count: nat): (n: State)
    requires |s.vec| > 0
    ensures |n.vec| == |s.vec|
    decreases count
  {
    if count == 0 then s else Steps(Next(s, Step(thread, false)), thread, count - 1)
  }

  lemma {:induction false} StepsAreARun(size: nat, actions: seq<Action>, thread: nat, count: nat)
    returns (more: seq<Action>)
    requires size > 0
    ensures Run(size, more) == Steps(Run(size, actions), thread, count)
    decreases count
  {
    if count == 0 {
      more := actions;
    } else {
      OneMore(size, actions, Step(thread, false));
      more := StepsAreARun(size, actions + [Step(thread, false)], thread, count - 1);
    }
  }

  /** One access inside a method. */
  lemma Silent(s: State, thread: nat, n: State)
    requires |s.vec| > 0 && !PcOf(s, thread).Idle? && !PcOf(n, thread).Idle?
    requires Access(s, thread, false) == n
    ensures Next(s, Step(thread, false)) == n
  {
  }

  lemma Called(s: State, thread: nat, a: Action)
    requires |s.vec| > 0 && PcOf(s, thread).Idle? && a.thread == thread && !a.Step?
    ensures var pc := if a.CallPush? then PushLoadHead(a.value) else PopLoadTail;
      var op := if a.CallPush? then Push(a.value) else Pop;
      Next(s, a) == s.(threads := s.threads[thread := pc], seen := AfterCall(s.seen, thread, op))
  {
  }

  function AfterCall(seen: Seen, thread: nat, op: Op): Seen {
    Seen(seen.history + [Invoke(|seen.history|, op)], seen.calls[thread := |seen.history|])
  }

  function AfterReturn(seen: Seen, thread: nat, op: Op, result: int): Seen {
    Seen(seen.history + [Invoke(|seen.history|, op), Response(|seen.history|, result)],
         seen.calls[thread := |seen.history|])
  }

  /** The thread is at `pc`, with the call `op` made. */
  function At(s: State, thread: nat, pc: Pc, op: Op): State {
    s.(threads := s.threads[thread := pc], seen := AfterCall(s.seen, thread, op))
  }

  /** The thread is back from the call `op`, with a result. */
  function Back(s: State, thread: nat, op: Op, result: int): State {
    s.(threads := s.threads[thread := Idle],
       seen := AfterReturn(s.seen, thread, op, result))
  }

  lemma Returned(s: State, n: State, thread: nat, was: Pc, op: Op, base: State)
    requires |s.vec| > 0 && !was.Idle? && PcOf(s, thread) == was
    requires s.seen == AfterCall(base.seen, thread, op)
    requires Access(s, thread, false) == n && PcOf(n, thread).Idle?
    ensures Next(s, Step(thread, false)) ==
      n.(seen := AfterReturn(base.seen, thread, op, ResultOf(was)))
  {
    assert base.seen.history + [Invoke(|base.seen.history|, op)] + [Response(|base.seen.history|, ResultOf(was))]
        == base.seen.history + [Invoke(|base.seen.history|, op), Response(|base.seen.history|, ResultOf(was))];
  }

  /** A push goes as far as its exchange, which succeeds. */
  lemma PushDraws(s: State, thread: nat, value: int)
    requires |s.vec| > 0 && PcOf(s, thread).Idle? && s.vec[Slot(|s.vec|, s.head)].generation == s.head
    ensures Steps(Next(s, CallPush(thread, value)), thread, 3) ==
      At(s, thread, PushWrite(value, s.head), Push(value)).(head := s.head + 1, pushed := s.pushed + [value])
  {
    hide Slot;
    var op := Push(value);
    Called(s, thread, CallPush(thread, value));
    var s0 := At(s, thread, PushLoadHead(value), op);
    var s1 := At(s, thread, PushLoadGeneration(value, s.head), op);
    Silent(s0, thread, s1) by { Overwritten(s, thread, s0, s1); }
    var s2 := At(s, thread, PushCas(value, s.head), op);
    Silent(s1, thread, s2) by { Overwritten(s, thread, s1, s2); }
    var s3 := At(s, thread, PushWrite(value, s.head), op).(head := s.head + 1, pushed := s.pushed + [value]);
    Silent(s2, thread, s3) by { Overwritten(s, thread, s2, s3); }
    ThreeSteps(s0, s1, s2, s3, thread);
  }

  lemma Overwritten(s: State, thread: nat, a: State, b: State)
    requires a.threads == s.threads[thread := PcOf(a, thread)] && b.threads == s.threads[thread := PcOf(b, thread)]
    ensures a.threads[thread := PcOf(b, thread)] == b.threads
  {
  }

  lemma ThreeSteps(s0: State, s1: State, s2: State, s3: State, thread: nat)
    requires |s0.vec| > 0 && Next(s0, Step(thread, false)) == s1
    requires |s1.vec| > 0 && Next(s1, Step(thread, false)) == s2
    requires |s2.vec| > 0 && Next(s2, Step(thread, false)) == s3
    ensures Steps(s0, thread, 3) == s3
  {
    hide Next;
    assert Steps(s2, thread, 1) == Steps(s3, thread, 0);
    assert Steps(s1, thread, 2) == Steps(s2, thread, 1);
  }

  lemma TwoSteps(s0: State, s1: State, s2: State, thread: nat)
    requires |s0.vec| > 0 && Next(s0, Step(thread, false)) == s1
    requires |s1.vec| > 0 && Next(s1, Step(thread, false)) == s2
    ensures Steps(s0, thread, 2) == s2
  {
    hide Next;
    assert Steps(s1, thread, 1) == Steps(s2, thread, 0);
  }

  lemma {:induction false} StepsAdd(s: State, thread: nat, a: nat, b: nat)
    requires |s.vec| > 0
    ensures Steps(s, thread, a + b) == Steps(Steps(s, thread, a), thread, b)
    decreases a
  {
    hide Next;
    if a > 0 { StepsAdd(Next(s, Step(thread, false)), thread, a - 1, b); }
  }

  /** A push that meets no other thread. */
  lemma PushAlone(s: State, thread: nat, value: int)
    requires |s.vec| > 0 && PcOf(s, thread).Idle? && s.vec[Slot(|s.vec|, s.head)].generation == s.head
    ensures Steps(Next(s, CallPush(thread, value)), thread, 5) ==
      Back(s, thread, Push(value), 1).(
        vec := s.vec[Slot(|s.vec|, s.head) := Node(s.head + 1, value)], head := s.head + 1,
        pushed := s.pushed + [value], published := s.published + {s.head})
  {
    hide Slot;
    var op, k := Push(value), Slot(|s.vec|, s.head);
    PushDraws(s, thread, value);
    StepsAdd(Next(s, CallPush(thread, value)), thread, 3, 2);
    var s3 := At(s, thread, PushWrite(value, s.head), op).(head := s.head + 1, pushed := s.pushed + [value]);
    var s4 := At(s, thread, PushPublish(value, s.head), op).(
      head := s.head + 1, pushed := s.pushed + [value], vec := s.vec[k := Node(s.head, value)]);
    Silent(s3, thread, s4) by { Overwritten(s, thread, s3, s4); }
    var n := Back(s, thread, op, 1).(
      vec := s.vec[k := Node(s.head + 1, value)], head := s.head + 1,
      pushed := s.pushed + [value], published := s.published + {s.head});
    assert s4.vec[k := Node(s.head + 1, value)] == n.vec;
    Overwritten(s, thread, s4, n);
    Returned(s4, n.(seen := s4.seen), thread, PushPublish(value, s.head), op, s);
    TwoSteps(s3, s4, n, thread);
  }

  /** A pop goes as far as its exchange, which succeeds. */
  lemma PopDraws(s: State, thread: nat)
    requires |s.vec| > 0 && PcOf(s, thread).Idle? && s.vec[Slot(|s.vec|, s.tail)].generation == s.tail + 1
    ensures Steps(Next(s, CallPop(thread)), thread, 3) == At(s, thread, PopRead(s.tail), Pop).(tail := s.tail + 1)
  {
    hide Slot;
    Called(s, thread, CallPop(thread));
    var s0 := At(s, thread, PopLoadTail, Pop);
    var s1 := At(s, thread, PopLoadGeneration(s.tail), Pop);
    Silent(s0, thread, s1) by { Overwritten(s, thread, s0, s1); }
    var s2 := At(s, thread, PopCas(s.tail), Pop);
    Silent(s1, thread, s2) by { Overwritten(s, thread, s1, s2); }
    var s3 := At(s, thread, PopRead(s.tail), Pop).(tail := s.tail + 1);
    Silent(s2, thread, s3) by { Overwritten(s, thread, s2, s3); }
    ThreeSteps(s0, s1, s2, s3, thread);
  }

  /** A pop that meets no other thread. */
  lemma PopAlone(s: State, thread: nat)
    requires |s.vec| > 0 && PcOf(s, thread).Idle? && s.vec[Slot(|s.vec|, s.tail)].generation == s.tail + 1
    ensures var k := Slot(|s.vec|, s.tail);
      Steps(Next(s, CallPop(thread)), thread, 5) ==
        Back(s, thread, Pop, s.vec[k].val).(
          vec := s.vec[k := Node(s.tail + |s.vec|, s.vec[k].val)], tail := s.tail + 1,
          popped := s.popped[s.tail := s.vec[k].val])
  {
    hide Slot;
    var k := Slot(|s.vec|, s.tail);
    PopDraws(s, thread);
    StepsAdd(Next(s, CallPop(thread)), thread, 3, 2);
    var s3 := At(s, thread, PopRead(s.tail), Pop).(tail := s.tail + 1);
    var s4 := At(s, thread, PopRelease(s.tail, s.vec[k].val), Pop).(tail := s.tail + 1);
    Silent(s3, thread, s4) by { Overwritten(s, thread, s3, s4); }
    var n := Back(s, thread, Pop, s.vec[k].val).(
      vec := s.vec[k := Node(s.tail + |s.vec|, s.vec[k].val)], tail := s.tail + 1,
      popped := s.popped[s.tail := s.vec[k].val]);
    Overwritten(s, thread, s4, n);
    Returned(s4, n.(seen := s4.seen), thread, PopRelease(s.tail, s.vec[k].val), Pop, s);
    TwoSteps(s3, s4, n, thread);
  }

  /** A push finds its slot not released. */
  lemma PushFails(s: State, thread: nat, value: int)
    requires |s.vec| > 0 && PcOf(s, thread).Idle? && s.vec[Slot(|s.vec|, s.head)].generation < s.head
    ensures Steps(Next(s, CallPush(thread, value)), thread, 2) == Back(s, thread, Push(value), 0)
  {
    hide Slot;
    var op := Push(value);
    Called(s, thread, CallPush(thread, value));
    var s0 := At(s, thread, PushLoadHead(value), op);
    var s1 := At(s, thread, PushLoadGeneration(value, s.head), op);
    Silent(s0, thread, s1) by { Overwritten(s, thread, s0, s1); }
    var n := Back(s, thread, op, 0);
    Overwritten(s, thread, s1, n);
    Returned(s1, n.(seen := s1.seen), thread, PushLoadGeneration(value, s.head), op, s);
    TwoSteps(s0, s1, n, thread);
  }

  /** A pop finds its slot not published. */
  lemma PopFails(s: State, thread: nat)
    requires |s.vec| > 0 && PcOf(s, thread).Idle? && s.vec[Slot(|s.vec|, s.tail)].generation < s.tail + 1
    ensures Steps(Next(s, CallPop(thread)), thread, 2) == Back(s, thread, Pop, 0)
  {
    hide Slot;
    Called(s, thread, CallPop(thread));
    var s0 := At(s, thread, PopLoadTail, Pop);
    var s1 := At(s, thread, PopLoadGeneration(s.tail), Pop);
    Silent(s0, thread, s1) by { Overwritten(s, thread, s0, s1); }
    var n := Back(s, thread, Pop, 0);
    Overwritten(s, thread, s1, n);
    Returned(s1, n.(seen := s1.seen), thread, PopLoadGeneration(s.tail), Pop, s);
    TwoSteps(s0, s1, n, thread);
  }

  /** Between methods the slot at the head is free exactly if fewer than `size` values are in the ring. */
  lemma HeadAtRest(size: nat, actions: seq<Action>)
    requires size >= 2 && AtRest(Run(size, actions))
    ensures var s := Run(size, actions);
      && s.tail <= s.head <= s.tail + size && s.head == |s.pushed|
      && (if s.head < s.tail + size then s.vec[Slot(size, s.head)].generation == s.head
          else s.vec[Slot(size, s.head)].generation < s.head)
  {
    RunInv(size, actions);
    NothingIsLost(size, actions);
    var s := Run(size, actions);
    var u := TicketOf(s, Slot(size, s.head));
    Apart(size, u, s.head);
    Apart(size, s.head, u);
    if u + size <= s.head {
      assert u + size == s.head by { Apart(size, u, s.head); NextTicket(size, u, s.head); }
    }
    assert u < s.tail ==> u in s.popped;
    hide Slot, SlotInv, PcInv, Exclusive, Run;
  }

  /** Between methods the slot at the tail holds the front exactly if there is one. */
  lemma TailAtRest(size: nat, actions: seq<Action>)
    requires size >= 2 && AtRest(Run(size, actions))
    ensures var s := Run(size, actions);
      && s.tail <= s.head == |s.pushed|
      && (if s.tail < s.head then s.vec[Slot(size, s.tail)] == Node(s.tail + 1, s.pushed[s.tail])
          else s.vec[Slot(size, s.tail)].generation < s.tail + 1)
  {
    HeadAtRest(size, actions);
    NothingIsLost(size, actions);
    hide Slot, Run, AtRest;
  }

  lemma FrontOf(values: seq<int>, t: nat)
    requires t < |values|
    ensures values[t..] != [] && values[t..][0] == values[t] && values[t..][1..] == values[t + 1..]
  {
  }

  /** Tickets of one slot are apart by the size. */
  lemma NextTicket(size: nat, u: nat, h: nat)
    requires size > 0 && Slot(size, u) == Slot(size, h) && u + size <= h <= u + size
    ensures u + size == h
  {
  }

  ghost predicate AtRest(s: State) {
    forall a :: a in s.threads ==> s.threads[a].Idle?
  }

  /** A method that runs alone, from the call to the return. */
  function Alone(s: State, thread: nat, op: Op, count: nat): (n: State)
    requires |s.vec| > 0
    ensures |n.vec| == |s.vec|
  {
    Steps(Next(s, if op.Push? then CallPush(thread, op.value) else CallPop(thread)), thread, count)
  }

  /** The calls and returns go on with the method. */
  ghost predicate Did(s: State, n: State, op: Op, result: int) {
    n.seen.history == s.seen.history + [Invoke(|s.seen.history|, op), Response(|s.seen.history|, result)]
  }

  lemma BackAtRest(s: State, thread: nat, op: Op, result: int, n: State)
    requires AtRest(s) && n.threads == Back(s, thread, op, result).threads && n.seen == Back(s, thread, op, result).seen
    ensures AtRest(n) && Did(s, n, op, result)
  {
  }

  /** A push that runs alone returns 1 and appends its value if fewer than `size` values are in the ring, and
      returns 0 otherwise. */
  lemma PushAtRest(size: nat, actions: seq<Action>, thread: nat, value: int) returns (count: nat)
    requires size >= 2 && AtRest(Run(size, actions))
    ensures var s := Run(size, actions);
      var n := Alone(s, thread, Push(value), count);
      && AtRest(n) && s.tail <= s.head == |s.pushed| && n.tail <= n.head == |n.pushed|
      && Did(s, n, Push(value), if |Contents(s)| < size then 1 else 0)
      && Contents(n) == if |Contents(s)| < size then Contents(s) + [value] else Contents(s)
  {
    var s := Run(size, actions);
    HeadAtRest(size, actions);
    hide Run, Slot, Steps, Next, Did, AtRest, Back;
    if s.head < s.tail + size {
      count := 5;
      PushAlone(s, thread, value);
      BackAtRest(s, thread, Push(value), 1, Alone(s, thread, Push(value), count));
    } else {
      count := 2;
      PushFails(s, thread, value);
      BackAtRest(s, thread, Push(value), 0, Alone(s, thread, Push(value), count));
    }
  }

  /** A pop that runs alone removes the front and returns it, or returns 0 if there is none. */
  lemma PopAtRest(size: nat, actions: seq<Action>, thread: nat) returns (count: nat)
    requires size >= 2 && AtRest(Run(size, actions))
    ensures var s := Run(size, actions);
      var n := Alone(s, thread, Pop, count);
      && AtRest(n) && s.tail <= s.head == |s.pushed| && n.tail <= n.head == |n.pushed|
      && Did(s, n, Pop, if Contents(s) == [] then 0 else Contents(s)[0])
      && Contents(n) == if Contents(s) == [] then [] else Contents(s)[1..]
  {
    var s := Run(size, actions);
    HeadAtRest(size, actions);
    TailAtRest(size, actions);
    hide Run, Slot, Steps, Next, Did, AtRest, Back;
    if s.tail < s.head {
      FrontOf(s.pushed, s.tail);
      count := 5;
      PopAlone(s, thread);
      BackAtRest(s, thread, Pop, s.pushed[s.tail], Alone(s, thread, Pop, count));
    } else {
      count := 2;
      PopFails(s, thread);
      BackAtRest(s, thread, Pop, 0, Alone(s, thread, Pop, count));
    }
  }

  /** So methods that run one after the other are those of the bounded queue. */
  lemma AloneIsBounded(actions: seq<Action>, thread: nat, op: Op) returns (count: nat)
    requires AtRest(Run(2, actions))
    ensures var s := Run(2, actions);
      var n := Alone(s, thread, op, count);
      && AtRest(n) && s.tail <= s.head == |s.pushed| && n.tail <= n.head == |n.pushed|
      && Did(s, n, op, Apply(Contents(s), op).1) && Contents(n) == Apply(Contents(s), op).0
  {
    HeadAtRest(2, actions);
    if op.Push? { count := PushAtRest(2, actions, thread, op.value); } else { count := PopAtRest(2, actions, thread); }
    hide Run, Alone, Did, AtRest;
  }

  // ---- The two runs ----

  /** A ring of two slots, between methods but for the thread `busy`. */
  ghost predicate Looks(s: State, vec: seq<Node>, head: nat, tail: nat, busy: nat, history: seq<Event<Op, int>>) {
    && |vec| == 2 && s.vec == vec && s.head == head && s.tail == tail && s.seen.history == history
    && forall k :: k != busy ==> PcOf(s, k).Idle?
  }

  lemma SlotsOfTwo()
    ensures Slot(2, 0) == 0 && Slot(2, 1) == 1 && Slot(2, 2) == 0
  {
    assert Slot(2, 2) == Slot(2, 0);
  }

  lemma Start(busy: nat)
    ensures Looks(Run(2, []), [Node(0, 0), Node(1, 0)], 0, 0, busy, [])
  {
    assert Run(2, []).vec == [Node(0, 0), Node(1, 0)];
  }

  lemma OthersStayIdle(s: State, n: State, thread: nat, busy: nat)
    requires forall k :: k != busy ==> PcOf(s, k).Idle?
    requires n.threads == s.threads[thread := PcOf(n, thread)] && (thread != busy ==> PcOf(n, thread).Idle?)
    ensures forall k :: k != busy ==> PcOf(n, k).Idle?
  {
    forall k | k != busy ensures PcOf(n, k).Idle? {
      assert PcOf(s, k).Idle?;
    }
  }

  /** A run goes on with a call and some accesses of one thread. */
  lemma GoesOn(actions: seq<Action>, a: Action, count: nat) returns (more: seq<Action>)
    ensures Run(2, more) == Steps(Next(Run(2, actions), a), a.thread, count)
  {
    OneMore(2, actions, a);
    more := StepsAreARun(2, actions + [a], a.thread, count);
  }

  lemma GoesOnPush(actions: seq<Action>, vec: seq<Node>, head: nat, tail: nat, busy: nat,
                   history: seq<Event<Op, int>>, thread: nat, value: int) returns (more: seq<Action>)
    requires Looks(Run(2, actions), vec, head, tail, busy, history) && thread != busy
    requires vec[Slot(2, head)].generation == head
    ensures Looks(Run(2, more), vec[Slot(2, head) := Node(head + 1, value)], head + 1, tail, busy,
                  history + [Invoke(|history|, Push(value)), Response(|history|, 1)])
    ensures PcOf(Run(2, more), busy) == PcOf(Run(2, actions), busy)
  {
    hide Run, Steps, Next, Slot;
    PushAlone(Run(2, actions), thread, value);
    more := GoesOn(actions, CallPush(thread, value), 5);
    OthersStayIdle(Run(2, actions), Run(2, more), thread, busy);
  }

  lemma GoesOnPop(actions: seq<Action>, vec: seq<Node>, head: nat, tail: nat, busy: nat,
                  history: seq<Event<Op, int>>, thread: nat) returns (more: seq<Action>)
    requires Looks(Run(2, actions), vec, head, tail, busy, history) && thread != busy
    requires vec[Slot(2, tail)].generation == tail + 1
    ensures var value := vec[Slot(2, tail)].val;
      Looks(Run(2, more), vec[Slot(2, tail) := Node(tail + 2, value)], head, tail + 1, busy,
            history + [Invoke(|history|, Pop), Response(|history|, value)])
  {
    hide Run, Steps, Next, Slot;
    PopAlone(Run(2, actions), thread);
    more := GoesOn(actions, CallPop(thread), 5);
    OthersStayIdle(Run(2, actions), Run(2, more), thread, busy);
  }

  lemma GoesOnPushDraws(actions: seq<Action>, vec: seq<Node>, head: nat, tail: nat,
                        history: seq<Event<Op, int>>, thread: nat, value: int) returns (more: seq<Action>)
    requires Looks(Run(2, actions), vec, head, tail, thread, history) && PcOf(Run(2, actions), thread).Idle?
    requires vec[Slot(2, head)].generation == head
    ensures Looks(Run(2, more), vec, head + 1, tail, thread, history + [Invoke(|history|, Push(value))])
  {
    hide Run, Steps, Next, Slot;
    PushDraws(Run(2, actions), thread, value);
    more := GoesOn(actions, CallPush(thread, value), 3);
    OthersStayIdle(Run(2, actions), Run(2, more), thread, thread);
  }

  lemma GoesOnPopDraws(actions: seq<Action>, vec: seq<Node>, head: nat, tail: nat,
                       history: seq<Event<Op, int>>, thread: nat) returns (more: seq<Action>)
    requires Looks(Run(2, actions), vec, head, tail, thread, history) && PcOf(Run(2, actions), thread).Idle?
    requires vec[Slot(2, tail)].generation == tail + 1
    ensures Looks(Run(2, more), vec, head, tail + 1, thread, history + [Invoke(|history|, Pop)])
  {
    hide Run, Steps, Next, Slot;
    PopDraws(Run(2, actions), thread);
    more := GoesOn(actions, CallPop(thread), 3);
    OthersStayIdle(Run(2, actions), Run(2, more), thread, thread);
  }

  const FULL: seq<Event<Op, int>> :=
    [Invoke(0, Push(5)), Response(0, 1), Invoke(2, Push(6)), Response(2, 1),
     Invoke(4, Pop), Invoke(5, Pop), Response(5, 6), Invoke(7, Push(7)), Response(7, 0)]

  /** Two pushes, a pop that stalls after its exchange, a pop that overtakes it, and a push. */
  lemma FullRun() returns (actions: seq<Action>)
    ensures var s := Run(2, actions); s.head == s.tail == 2 && s.seen.history == FULL
  {
    hide Run, Slot;
    SlotsOfTwo();
    Start(0);
    Start(1);
    actions := GoesOnPush([], [Node(0, 0), Node(1, 0)], 0, 0, 1, [], 0, 5);
    actions := GoesOnPush(actions, [Node(1, 5), Node(1, 0)], 1, 0, 1, FULL[..2], 0, 6);
    actions := GoesOnPopDraws(actions, [Node(1, 5), Node(2, 6)], 2, 0, FULL[..4], 1);
    actions := GoesOnPop(actions, [Node(1, 5), Node(2, 6)], 2, 1, 1, FULL[..5], 2);
    assert Looks(Run(2, actions), [Node(1, 5), Node(3, 6)], 2, 2, 1, FULL[..7]);
    PushFails(Run(2, actions), 0, 7);
    actions := GoesOn(actions, CallPush(0, 7), 2);
  }

  const EMPTY: seq<Event<Op, int>> :=
    [Invoke(0, Push(5)), Invoke(1, Push(6)), Response(1, 1), Invoke(3, Pop), Response(3, 0)]

  /** A push that stalls after its exchange, a push that overtakes it, and a pop. */
  lemma EmptyRun() returns (actions: seq<Action>)
    ensures var s := Run(2, actions); s.head == s.tail + 2 && s.seen.history == EMPTY
  {
    hide Run, Slot;
    SlotsOfTwo();
    Start(0);
    Start(1);
    actions := GoesOnPushDraws([], [Node(0, 0), Node(1, 0)], 0, 0, [], 0, 5);
    assert [Invoke(0, Push(5))] == EMPTY[..1];
    actions := GoesOnPush(actions, [Node(0, 0), Node(1, 0)], 1, 0, 0, EMPTY[..1], 1, 6);
    assert Looks(Run(2, actions), [Node(0, 0), Node(2, 6)], 2, 0, 0, EMPTY[..3]);
    PopFails(Run(2, actions), 2);
    actions := GoesOn(actions, CallPop(2), 2);
  }

  // ---- No order explains them ----

  /** What an order says up to one of its entries. */
  lemma {:induction false} Explained(order: seq<Entry<Op, int>>, k: nat)
    requires Explains(BOUNDED, order) && k < |order|
    ensures Explains(BOUNDED, order[..k])
    ensures order[k].result == Apply(StateAfter(BOUNDED, order[..k]), order[k].op).1
    ensures StateAfter(BOUNDED, order[..k + 1]) == Apply(StateAfter(BOUNDED, order[..k]), order[k].op).0
    decreases |order|
  {
    var init := order[..|order| - 1];
    assert order[..k + 1][..k] == order[..k];
    if k < |init| {
      Explained(init, k);
      assert init[..k] == order[..k];
    }
  }

  /** What a linearization is apart from the results. */
  ghost predicate Ordered(h: seq<Event<Op, int>>, order: seq<Entry<Op, int>>) {
    Distinct(order) && Invoked(h, order) && Complete(h, order) && RespectsRealTime(h, order)
  }

  /** The entry of an operation that returned. */
  lemma Answered(h: seq<Event<Op, int>>, order: seq<Entry<Op, int>>, response: nat) returns (e: Entry<Op, int>)
    requires Ordered(h, order) && response < |h| && h[response].Response?
    ensures e in order && e.id == h[response].id && e.result == h[response].result
    ensures e.id < |h| && h[e.id] == Invoke(e.id, e.op)
  {
    e :| e in order && e.id == h[response].id && e.result == h[response].result;
  }

  /** An operation that returned before the other ones left were called comes next. */
  lemma ComesNext(h: seq<Event<Op, int>>, order: seq<Entry<Op, int>>, k: nat, e: Entry<Op, int>, response: nat)
    requires Ordered(h, order) && k <= |order|
    requires e in order && forall i :: 0 <= i < k ==> order[i].id != e.id
    requires response < |h| && h[response].Response? && h[response].id == e.id
    requires k < |order| && order[k].id != e.id ==> order[k].id > response
    ensures k < |order| && order[k] == e
  {
    var j :| 0 <= j < |order| && order[j] == e;
    assert forall m :: k < m < |order| ==> !Precedes(h, order[m].id, order[k].id);
  }

  /** The order begins with these operations. */
  predicate Begins(order: seq<Entry<Op, int>>, ops: seq<Op>) {
    |order| >= |ops| && forall k :: 0 <= k < |ops| ==> order[k].op == ops[k]
  }

  /** The completed pop comes after both pushes, and after it the last push; the stalled pop is in between
      or behind the completed one. */
  lemma FullOrders(order: seq<Entry<Op, int>>)
    requires Ordered(FULL, order)
    ensures
      || (Begins(order, [Push(5), Push(6), Pop]) && order[2].result == 6)
      || (Begins(order, [Push(5), Push(6), Pop, Pop, Push(7)]) && order[4].result == 0)
  {
    FullBegins(order);
    var e5 := Answered(FULL, order, 6);
    var e7 := Answered(FULL, order, 8);
    assert forall i :: 0 <= i < 2 ==> order[i].id != 5;
    if |order| > 2 && order[2].id == 4 {
      ComesNext(FULL, order, 3, e5, 6);
      ComesNext(FULL, order, 4, e7, 8);
    } else {
      ComesNext(FULL, order, 2, e5, 6);
    }
  }

  lemma FullBegins(order: seq<Entry<Op, int>>)
    requires Ordered(FULL, order)
    ensures Begins(order, [Push(5), Push(6)]) && order[0].id == 0 && order[1].id == 2
    ensures forall e <- order :: e.id in {0, 2, 4, 5, 7} && FULL[e.id] == Invoke(e.id, e.op)
  {
    var e0 := Answered(FULL, order, 1);
    var e2 := Answered(FULL, order, 3);
    forall e: Entry<Op, int> | e in order ensures e.id in {0, 2, 4, 5, 7} && FULL[e.id] == Invoke(e.id, e.op) {
      assert FULL[e.id] == Invoke(e.id, e.op);
    }
    ComesNext(FULL, order, 0, e0, 1);
    ComesNext(FULL, order, 1, e2, 3);
  }

  /** The completed push comes before the pop, and the stalled one is anywhere or nowhere. */
  lemma EmptyOrders(order: seq<Entry<Op, int>>)
    requires Ordered(EMPTY, order)
    ensures
      || (Begins(order, [Push(5), Push(6), Pop]) && order[2].result == 0)
      || (Begins(order, [Push(6), Push(5), Pop]) && order[2].result == 0)
      || (Begins(order, [Push(6), Pop]) && order[1].result == 0)
  {
    var e1 := Answered(EMPTY, order, 2);
    var e3 := Answered(EMPTY, order, 4);
    forall e: Entry<Op, int> | e in order ensures e.id in {0, 1, 3} && EMPTY[e.id] == Invoke(e.id, e.op) {
      assert EMPTY[e.id] == Invoke(e.id, e.op);
    }
    if order[0].id == 0 {
      ComesNext(EMPTY, order, 1, e1, 2);
      ComesNext(EMPTY, order, 2, e3, 4);
    } else {
      ComesNext(EMPTY, order, 0, e1, 2);
      if |order| > 1 && order[1].id == 0 {
        ComesNext(EMPTY, order, 2, e3, 4);
      } else {
        ComesNext(EMPTY, order, 1, e3, 4);
      }
    }
  }

  /** A pop returns the value pushed first. */
  lemma PopsFirst(order: seq<Entry<Op, int>>, x: int)
    requires Explains(BOUNDED, order) && Begins(order, [Push(x), Pop])
    ensures order[1].result == x
  {
    Explained(order, 0);
    Explained(order, 1);
  }

  lemma PopsFirstOfTwo(order: seq<Entry<Op, int>>, x: int, y: int)
    requires Explains(BOUNDED, order) && Begins(order, [Push(x), Push(y), Pop])
    ensures order[2].result == x && StateAfter(BOUNDED, order[..3]) == [y]
  {
    Explained(order, 0);
    Explained(order, 1);
    assert StateAfter(BOUNDED, order[..2]) == [x, y];
    Explained(order, 2);
  }

  /** With both values popped a push succeeds. */
  lemma PushesAfterPops(order: seq<Entry<Op, int>>, x: int, y: int, z: int)
    requires Explains(BOUNDED, order) && Begins(order, [Push(x), Push(y), Pop, Pop, Push(z)])
    ensures order[4].result == 1
  {
    PopsFirstOfTwo(order, x, y);
    Explained(order, 3);
    Explained(order, 4);
  }

  /** Before the last push both values pushed must have been popped, so it cannot have found the queue full. */
  lemma FullIsNotBounded()
    ensures WellFormed(FULL) && !Linearizable(BOUNDED, FULL)
  {
    forall order: seq<Entry<Op, int>> ensures !Linearization(BOUNDED, FULL, order) {
      if Ordered(FULL, order) && Explains(BOUNDED, order) {
        FullOrders(order);
        hide Explains, Ordered;
        if order[2].result == 6 && order[2].op == Pop && !Begins(order, [Push(5), Push(6), Pop, Pop, Push(7)]) {
          PopsFirstOfTwo(order, 5, 6);
        } else if Begins(order, [Push(5), Push(6), Pop, Pop, Push(7)]) {
          PopsFirstOfTwo(order, 5, 6);
          PushesAfterPops(order, 5, 6, 7);
        }
      }
    }
  }

  /** A pop reports empty although a value that was pushed before is in the queue. */
  lemma EmptyIsNotBounded()
    ensures WellFormed(EMPTY) && !Linearizable(BOUNDED, EMPTY)
  {
    forall order: seq<Entry<Op, int>> ensures !Linearization(BOUNDED, EMPTY, order) {
      if Ordered(EMPTY, order) && Explains(BOUNDED, order) {
        EmptyOrders(order);
        hide Explains, Ordered;
        if Begins(order, [Push(5), Push(6), Pop]) {
          PopsFirstOfTwo(order, 5, 6);
        } else if Begins(order, [Push(6), Push(5), Pop]) {
          PopsFirstOfTwo(order, 6, 5);
        } else {
          PopsFirst(order, 6);
        }
      }
    }
  }

  /** A stalled pop makes a push report a full queue when the ring is empty, and no order of the
      operations explains the results. */
  lemma FullWithRoom() returns (actions: seq<Action>)
    ensures var s := Run(2, actions);
      && s.head == s.tail
      && s.seen.history == FULL
      && WellFormed(s.seen.history)
      && !Linearizable(BOUNDED, s.seen.history)
  {
    actions := FullRun();
    FullIsNotBounded();
  }

  /** A stalled push makes a pop report an empty queue when a later push has published its value, and
      no order of the operations explains the results. */
  lemma EmptyWithValue() returns (actions: seq<Action>)
    ensures var s := Run(2, actions);
      && s.head == s.tail + 2
      && s.seen.history == EMPTY
      && WellFormed(s.seen.history)
      && !Linearizable(BOUNDED, s.seen.history)
  {
    actions := EmptyRun();
    EmptyIsNotBounded();
  }
}
