/** The multi-producer multi-consumer ring buffer: tickets drawn from `head` and `tail`,
    a generation per slot, one atomic access per step, any number of threads. */
module RingBuffer {
  import opened Effects
  import opened Remainders

  /** The value of a node is guarded by its generation. */
  datatype Node = Node(generation: nat, val: int)

  /** Where a thread is: the constructor names the access it performs next. */
  datatype Pc =
    | Idle
    | PushLoadHead(value: int)
    | PushLoadGeneration(value: int, h: nat)
    | PushCas(value: int, h: nat)
    | PushWrite(value: int, h: nat)
    | PushPublish(value: int, h: nat)
    | PopLoadTail
    | PopLoadGeneration(t: nat)
    | PopCas(t: nat)
    | PopRead(t: nat)
    | PopRelease(t: nat, ret: int)

  datatype Op = Push(value: int) | Pop

  /** The history of calls and returns, and the call that each thread made last. */
  datatype Seen = Seen(history: seq<Event<Op, int>>, calls: map<nat, nat>)

  /** `pushed`, `published` and `popped` record, by ticket, the values claimed by pushes,
      the pushes that made their value visible and the results of pops that freed their slot. */
  datatype State = State(
    vec: seq<Node>,
    head: nat,
    tail: nat,
    threads: map<nat, Pc>,
    pushed: seq<int>,
    published: set<nat>,
    popped: map<nat, int>,
    seen: Seen)

  /** A thread calls a method, or performs its next access; a weak exchange may fail for no reason. */
  datatype Action =
    | CallPush(thread: nat, value: int)
    | CallPop(thread: nat)
    | Step(thread: nat, spurious: bool)

  function Initial(size: nat): State {
    State(seq(size, (i: nat) => Node(i, 0)), 0, 0, map[], [], {}, map[], Seen([], map[]))
  }

  function PcOf(s: State, thread: nat): Pc {
    if thread in s.threads then s.threads[thread] else Idle
  }

  function Goto(s: State, thread: nat, pc: Pc): State {
    s.(threads := s.threads[thread := pc])
  }

  /** The remainder of the ticket by the size, which is what masking computes for a power of two. */
  function Slot(size: nat, ticket: nat): (k: nat)
    requires size > 0
    ensures k < size
  {
    if ticket < size then ticket else Slot(size, ticket - size)
  }

  /** What a method returns by its last access. */
  function ResultOf(pc: Pc): int {
    match pc
    case PushPublish(_, _) => 1
    case PopRelease(_, ret) => ret
    case _ => 0
  }

  /** A method is called when a thread leaves `Idle`, and returns when it is back there. */
  function Noted(seen: Seen, thread: nat, was: Pc, now: Pc): Seen {
    if was.Idle? && !now.Idle? then
      var op := if now.PushLoadHead? then Push(now.value) else Pop;
      Seen(seen.history + [Invoke(|seen.history|, op)], seen.calls[thread := |seen.history|])
    else if !was.Idle? && now.Idle? then
      var id := if thread in seen.calls then seen.calls[thread] else 0;
      seen.(history := seen.history + [Response(id, ResultOf(was))])
    else
      seen
  }

  function Next(s: State, a: Action): (n: State)
    requires |s.vec| > 0
    ensures |n.vec| == |s.vec|
  {
    var n := Move(s, a);
    n.(seen := Noted(s.seen, a.thread, PcOf(s, a.thread), PcOf(n, a.thread)))
  }

  function Move(s: State, a: Action): (n: State)
    requires |s.vec| > 0
    ensures |n.vec| == |s.vec|
  {
    match a
    case CallPush(thread, value) => if PcOf(s, thread).Idle? then Goto(s, thread, PushLoadHead(value)) else s
    case CallPop(thread) => if PcOf(s, thread).Idle? then Goto(s, thread, PopLoadTail) else s
    case Step(thread, spurious) => Access(s, thread, spurious)
  }

  function Access(s: State, thread: nat, spurious: bool): (n: State)
    requires |s.vec| > 0
    ensures |n.vec| == |s.vec|
  {
    match PcOf(s, thread)
    case Idle => s
    case PushLoadHead(value) => Goto(s, thread, PushLoadGeneration(value, s.head))
    case PushLoadGeneration(value, h) =>
      var generation := s.vec[Slot(|s.vec|, h)].generation;
      Goto(s, thread,
           if generation == h then PushCas(value, h)
           else if generation < h then Idle
           else PushLoadHead(value))
    case PushCas(value, h) =>
      if s.head == h && !spurious then
        Goto(s.(head := h + 1, pushed := s.pushed + [value]), thread, PushWrite(value, h))
      else
        Goto(s, thread, PushLoadHead(value))
    case PushWrite(value, h) =>
      var k := Slot(|s.vec|, h);
      Goto(s.(vec := s.vec[k := s.vec[k].(val := value)]), thread, PushPublish(value, h))
    case PushPublish(value, h) =>
      var k := Slot(|s.vec|, h);
      Goto(s.(vec := s.vec[k := s.vec[k].(generation := s.vec[k].generation + 1)], published := s.published + {h}),
           thread, Idle)
    case PopLoadTail => Goto(s, thread, PopLoadGeneration(s.tail))
    case PopLoadGeneration(t) =>
      var generation := s.vec[Slot(|s.vec|, t)].generation;
      Goto(s, thread,
           if generation == t + 1 then PopCas(t)
           else if generation < t + 1 then Idle
           else PopLoadTail)
    case PopCas(t) =>
      if s.tail == t && !spurious then
        Goto(s.(tail := t + 1), thread, PopRead(t))
      else
        Goto(s, thread, PopLoadTail)
    case PopRead(t) => Goto(s, thread, PopRelease(t, s.vec[Slot(|s.vec|, t)].val))
    case PopRelease(t, ret) =>
      var k := Slot(|s.vec|, t);
      Goto(s.(vec := s.vec[k := s.vec[k].(generation := s.vec[k].generation + |s.vec| - 1)],
              popped := s.popped[t := ret]),
           thread, Idle)
  }

  /** The state after a run, for any interleaving of any threads. */
  function Run(size: nat, actions: seq<Action>): (s: State)
    requires size > 0
    ensures |s.vec| == size
  {
    if actions == [] then Initial(size)
    else Next(Run(size, actions[..|actions| - 1]), actions[|actions| - 1])
  }

  lemma OneMore(size: nat, actions: seq<Action>, a: Action)
    requires size > 0
    ensures Run(size, actions + [a]) == Next(Run(size, actions), a)
  {
    assert (actions + [a])[..|actions + [a]| - 1] == actions;
  }

  // ---- Arithmetic of tickets ----

  lemma {:induction false} SlotIsRemainder(size: nat, ticket: nat)
    requires size > 0
    ensures Slot(size, ticket) == ticket % size
  {
    if ticket < size {
      SameRemainder(ticket, 0, ticket, size);
    } else {
      SlotIsRemainder(size, ticket - size);
      var q, r := (ticket - size) / size, (ticket - size) % size;
      assert (q + 1) * size == q * size + size;
      SameRemainder(ticket, q + 1, r, size);
    }
  }

  lemma {:induction false} SameSlotApart(size: nat, a: nat, b: nat)
    requires size > 0 && Slot(size, a) == Slot(size, b) && a < b
    ensures a + size <= b
    decreases a
  {
    if a >= size { SameSlotApart(size, a - size, b - size); }
  }

  lemma Apart(size: nat, a: nat, b: nat)
    requires size > 0
    ensures a < b < a + size ==> Slot(size, a) != Slot(size, b)
  {
    if a < b < a + size && Slot(size, a) == Slot(size, b) {
      SameSlotApart(size, a, b);
    }
  }

  // ---- The invariant ----

  /** The slot of `ticket` serves it: the value is there once the generation says so. */
  ghost predicate Serves(s: State, ticket: nat)
    requires |s.vec| > 0 && |s.pushed| == s.head
  {
    var node := s.vec[Slot(|s.vec|, ticket)];
    && ticket < s.tail + |s.vec|
    && s.head <= ticket + |s.vec|
    && (node.generation == ticket || node.generation == ticket + 1)
    && (node.generation == ticket ==> s.tail <= ticket)
    && (node.generation == ticket + 1 ==> ticket < s.head && node.val == s.pushed[ticket])
  }

  /** A slot has exactly one current ticket, told by its generation. */
  ghost predicate SlotInv(s: State, k: nat)
    requires k < |s.vec| && |s.pushed| == s.head
  {
    var g := s.vec[k].generation;
    (Slot(|s.vec|, g) == k && Serves(s, g)) || (g > 0 && Slot(|s.vec|, g - 1) == k && Serves(s, g - 1))
  }

  ghost predicate PcInv(s: State, pc: Pc)
    requires |s.vec| > 0 && |s.pushed| == s.head
  {
    match pc
    case PushLoadGeneration(_, h) => h <= s.head
    case PushCas(_, h) => h <= s.head && s.vec[Slot(|s.vec|, h)].generation >= h
    case PushWrite(value, h) => h < s.head && s.vec[Slot(|s.vec|, h)].generation == h && s.pushed[h] == value
    case PushPublish(value, h) => h < s.head && s.vec[Slot(|s.vec|, h)] == Node(h, value) && s.pushed[h] == value
    case PopLoadGeneration(t) => t <= s.tail
    case PopCas(t) => t <= s.tail && s.vec[Slot(|s.vec|, t)].generation >= t + 1
    case PopRead(t) => t < s.tail && s.vec[Slot(|s.vec|, t)].generation == t + 1
    case PopRelease(t, ret) =>
      t < s.tail <= s.head && s.vec[Slot(|s.vec|, t)].generation == t + 1 && ret == s.pushed[t]
    case _ => true
  }

  /** The ticket that lets a thread use a slot: as a pusher, or as a popper. */
  datatype Claim = PushClaim(ticket: nat) | PopClaim(ticket: nat) | NoClaim

  function ClaimOf(pc: Pc): Claim {
    match pc
    case PushWrite(_, h) => PushClaim(h)
    case PushPublish(_, h) => PushClaim(h)
    case PopRead(t) => PopClaim(t)
    case PopRelease(t, _) => PopClaim(t)
    case _ => NoClaim
  }

  ghost predicate Exclusive(s: State) {
    forall a, b :: a in s.threads && b in s.threads && a != b && !ClaimOf(s.threads[a]).NoClaim? ==>
      ClaimOf(s.threads[a]) != ClaimOf(s.threads[b])
  }

  /** The records agree with the generations, and pops return what was pushed under their ticket. */
  ghost predicate Recorded(s: State)
    requires |s.vec| > 0 && |s.pushed| == s.head
  {
    && (forall ticket: nat :: ticket in s.published <==> s.vec[Slot(|s.vec|, ticket)].generation >= ticket + 1)
    && (forall ticket: nat :: ticket in s.popped <==> s.vec[Slot(|s.vec|, ticket)].generation >= ticket + |s.vec|)
    && (forall ticket :: ticket in s.popped ==> ticket < s.head && s.popped[ticket] == s.pushed[ticket])
  }

  ghost predicate Inv(s: State) {
    && |s.vec| >= 2
    && |s.pushed| == s.head
    && s.tail <= s.head <= s.tail + |s.vec|
    && (forall k :: 0 <= k < |s.vec| ==> SlotInv(s, k))
    && (forall thread :: thread in s.threads ==> PcInv(s, s.threads[thread]))
    && Exclusive(s)
    && Recorded(s)
  }

  lemma InitialInv(size: nat)
    requires size >= 2
    ensures Inv(Initial(size))
  {
    var s := Initial(size);
    forall k | 0 <= k < size ensures SlotInv(s, k) {
      assert s.vec[k].generation == k;
    }
    forall ticket: nat ensures s.vec[Slot(size, ticket)].generation <= ticket {
      SlotAtMost(size, ticket);
    }
  }

  lemma {:induction false} SlotAtMost(size: nat, ticket: nat)
    requires size > 0
    ensures Slot(size, ticket) <= ticket
  {
    if ticket >= size { SlotAtMost(size, ticket - size); }
  }

  // ---- Every access keeps the invariant ----

  /** Steps that only move a thread, to a place its knowledge allows. */
  lemma MoveKeepsInv(s: State, thread: nat, pc: Pc)
    requires Inv(s) && PcInv(s, pc) && ClaimOf(pc).NoClaim?
    ensures Inv(Goto(s, thread, pc))
  {
    var n := Goto(s, thread, pc);
    assert forall k :: 0 <= k < |s.vec| ==> SlotInv(s, k) ==> SlotInv(n, k);
    assert Recorded(n);
  }

  /** The ticket a slot serves. */
  lemma TicketOf(s: State, k: nat) returns (ticket: nat)
    requires Inv(s) && k < |s.vec|
    ensures Slot(|s.vec|, ticket) == k && Serves(s, ticket)
  {
    hide Recorded, Exclusive, PcInv;
    assert SlotInv(s, k);
    var g := s.vec[k].generation;
    ticket := if Slot(|s.vec|, g) == k && Serves(s, g) then g else g - 1;
  }

  lemma ServesSlot(s: State, ticket: nat)
    requires |s.vec| > 0 && |s.pushed| == s.head && Serves(s, ticket)
    ensures SlotInv(s, Slot(|s.vec|, ticket))
  {
  }

  /** A slot whose generation is at least a ticket that nobody has drawn from `head` serves it. */
  lemma HeadSlotIsFree(s: State, h: nat)
    requires Inv(s) && s.head == h && s.vec[Slot(|s.vec|, h)].generation >= h
    ensures s.vec[Slot(|s.vec|, h)].generation == h && Serves(s, h)
  {
    hide Slot, Recorded, Exclusive, PcInv;
    var u := TicketOf(s, Slot(|s.vec|, h));
    Apart(|s.vec|, h, u);
    Apart(|s.vec|, u, h);
  }

  lemma TailSlotIsFull(s: State, t: nat)
    requires Inv(s) && s.tail == t && s.vec[Slot(|s.vec|, t)].generation >= t + 1
    ensures s.vec[Slot(|s.vec|, t)].generation == t + 1 && Serves(s, t)
  {
    hide Slot, Recorded, Exclusive, PcInv;
    var u := TicketOf(s, Slot(|s.vec|, t));
    Apart(|s.vec|, t, u);
    Apart(|s.vec|, u, t);
  }

  /** A slot in use serves the ticket of the thread using it. */
  lemma ClaimedSlot(s: State, ticket: nat)
    requires Inv(s)
    requires s.vec[Slot(|s.vec|, ticket)].generation == ticket || s.vec[Slot(|s.vec|, ticket)].generation == ticket + 1
    ensures Serves(s, ticket)
  {
    hide Slot, Recorded, Exclusive, PcInv;
    var u := TicketOf(s, Slot(|s.vec|, ticket));
    Apart(|s.vec|, ticket, u);
    Apart(|s.vec|, u, ticket);
  }

  lemma SlotAfterPushCas(s: State, n: State, h: nat, j: nat)
    requires Inv(s) && s.head == h && Serves(s, h) && s.vec[Slot(|s.vec|, h)].generation == h
    requires n.vec == s.vec && n.head == h + 1 && n.tail == s.tail && |n.pushed| == h + 1 && n.pushed[..h] == s.pushed
    requires j < |s.vec|
    ensures SlotInv(n, j)
  {
    hide Slot, Recorded, Exclusive, PcInv;
    var u := TicketOf(s, j);
    if s.head == u + |s.vec| {
      Lap(|s.vec|, u);
    }
    assert forall i :: 0 <= i < h ==> n.pushed[i] == s.pushed[i];
    assert Serves(n, u);
    ServesSlot(n, u);
  }

  lemma Lap(size: nat, a: nat)
    requires size > 0
    ensures Slot(size, a + size) == Slot(size, a)
  {
  }

  lemma PushCasKeepsInv(s: State, thread: nat, value: int, h: nat)
    requires Inv(s) && thread in s.threads && s.threads[thread] == PushCas(value, h) && s.head == h
    ensures s.vec[Slot(|s.vec|, h)].generation == h && h < s.tail + |s.vec|
    ensures Inv(Goto(s.(head := h + 1, pushed := s.pushed + [value]), thread, PushWrite(value, h)))
  {
    hide Slot, SlotInv;
    assert PcInv(s, s.threads[thread]);
    HeadSlotIsFree(s, h);
    var n := Goto(s.(head := h + 1, pushed := s.pushed + [value]), thread, PushWrite(value, h));
    forall j | 0 <= j < |s.vec| ensures SlotInv(n, j) {
      SlotAfterPushCas(s, n, h, j);
    }
    forall a | a in n.threads ensures PcInv(n, n.threads[a]) {
      if a != thread { assert PcInv(s, s.threads[a]); }
    }
    ClaimHead(s, n, thread, h);
    hide PcInv, Exclusive;
    assert Recorded(n);
  }

  /** A ticket just drawn from `head` is claimed by nobody else. */
  lemma ClaimHead(s: State, n: State, thread: nat, h: nat)
    requires Inv(s) && s.head == h && n.threads == s.threads[thread := PcOf(n, thread)]
    requires ClaimOf(PcOf(n, thread)) == PushClaim(h)
    ensures Exclusive(n)
  {
    hide Slot, SlotInv, Recorded;
    forall a | a in n.threads && a != thread ensures ClaimOf(n.threads[a]) != PushClaim(h) {
      assert PcInv(s, s.threads[a]);
    }
  }

  lemma SlotKept(s: State, n: State, j: nat)
    requires Inv(s) && j < |s.vec|
    requires |n.vec| == |s.vec| && n.vec[j] == s.vec[j]
    requires n.head == s.head && n.tail == s.tail && n.pushed == s.pushed
    ensures SlotInv(n, j)
  {
    hide Slot, Recorded, Exclusive, PcInv;
    var u := TicketOf(s, j);
    assert Serves(n, u);
    ServesSlot(n, u);
  }

  /** What another thread knows survives an update of a slot it has no claim to. */
  lemma PcKept(s: State, n: State, k: nat, pc: Pc)
    requires |n.vec| == |s.vec| > 0 && k < |s.vec| && |s.pushed| == s.head
    requires n.head == s.head && n.tail == s.tail && n.pushed == s.pushed
    requires forall j :: 0 <= j < |s.vec| && j != k ==> n.vec[j] == s.vec[j]
    requires n.vec[k].generation >= s.vec[k].generation
    requires PcInv(s, pc)
    requires match ClaimOf(pc)
             case PushClaim(h) => Slot(|s.vec|, h) != k
             case PopClaim(t) => Slot(|s.vec|, t) != k
             case NoClaim => true
    ensures PcInv(n, pc)
  {
    hide Slot;
  }

  lemma ClaimsElsewhere(s: State, k: nat, mine: Claim, pc: Pc)
    requires |s.vec| >= 2 && |s.pushed| == s.head && PcInv(s, pc)
    requires match mine
             case PushClaim(h) => Slot(|s.vec|, h) == k && s.vec[k].generation == h
             case PopClaim(t) => Slot(|s.vec|, t) == k && s.vec[k].generation == t + 1
             case NoClaim => false
    requires ClaimOf(pc) != mine
    ensures match ClaimOf(pc)
            case PushClaim(h) => Slot(|s.vec|, h) != k
            case PopClaim(t) => Slot(|s.vec|, t) != k
            case NoClaim => true
  {
    hide Slot;
    var ticket := mine.ticket;
    match ClaimOf(pc)
    case PushClaim(h) => Apart(|s.vec|, ticket, h);
    case PopClaim(t) => Apart(|s.vec|, t, ticket);
    case NoClaim =>
  }

  lemma PushWriteKeepsInv(s: State, thread: nat, value: int, h: nat)
    requires Inv(s) && thread in s.threads && s.threads[thread] == PushWrite(value, h)
    ensures Inv(Access(s, thread, false))
  {
    hide Slot, SlotInv;
    assert PcInv(s, s.threads[thread]);
    var k := Slot(|s.vec|, h);
    ClaimedSlot(s, h);
    var n := Access(s, thread, false);
    forall j | 0 <= j < |s.vec| ensures SlotInv(n, j) {
      if j == k {
        assert Serves(n, h);
        ServesSlot(n, h);
      } else {
        SlotKept(s, n, j);
      }
    }
    forall a | a in n.threads ensures PcInv(n, n.threads[a]) {
      if a != thread {
        assert PcInv(s, s.threads[a]);
        ClaimsElsewhere(s, k, PushClaim(h), s.threads[a]);
        PcKept(s, n, k, s.threads[a]);
      }
    }
    assert Recorded(n);
  }

  lemma PublishRecorded(s: State, n: State, h: nat)
    requires |s.vec| >= 2 && |s.pushed| == s.head && Recorded(s)
    requires s.vec[Slot(|s.vec|, h)].generation == h
    requires n.vec == s.vec[Slot(|s.vec|, h) := s.vec[Slot(|s.vec|, h)].(generation := h + 1)]
    requires n.published == s.published + {h} && n.popped == s.popped && n.pushed == s.pushed && n.head == s.head
    ensures Recorded(n)
  {
    hide Slot;
    var size, k := |s.vec|, Slot(|s.vec|, h);
    forall ticket: nat | Slot(size, ticket) == k
      ensures h >= ticket + size <==> h + 1 >= ticket + size
    {
      if h + 1 == ticket + size {
        Lap(size, ticket);
        Apart(size, h, h + 1);
      }
    }
  }

  lemma PushPublishKeepsInv(s: State, thread: nat, value: int, h: nat)
    requires Inv(s) && thread in s.threads && s.threads[thread] == PushPublish(value, h)
    ensures Inv(Access(s, thread, false))
  {
    hide Slot, SlotInv;
    assert PcInv(s, s.threads[thread]);
    var k := Slot(|s.vec|, h);
    ClaimedSlot(s, h);
    var n := Access(s, thread, false);
    forall j | 0 <= j < |s.vec| ensures SlotInv(n, j) {
      if j == k {
        assert Serves(n, h);
        ServesSlot(n, h);
      } else {
        SlotKept(s, n, j);
      }
    }
    forall a | a in n.threads ensures PcInv(n, n.threads[a]) {
      if a != thread {
        assert PcInv(s, s.threads[a]);
        ClaimsElsewhere(s, k, PushClaim(h), s.threads[a]);
        PcKept(s, n, k, s.threads[a]);
      }
    }
    PublishRecorded(s, n, h);
  }

  lemma SlotAfterPopCas(s: State, n: State, t: nat, j: nat)
    requires Inv(s) && s.tail == t && Serves(s, t) && s.vec[Slot(|s.vec|, t)].generation == t + 1
    requires n.vec == s.vec && n.head == s.head && n.tail == t + 1 && n.pushed == s.pushed
    requires j < |s.vec|
    ensures SlotInv(n, j)
  {
    hide Slot, Recorded, Exclusive, PcInv;
    var u := TicketOf(s, j);
    assert Serves(n, u);
    ServesSlot(n, u);
  }

  lemma PopCasKeepsInv(s: State, thread: nat, t: nat)
    requires Inv(s) && thread in s.threads && s.threads[thread] == PopCas(t) && s.tail == t
    ensures t < s.head
    ensures Inv(Goto(s.(tail := t + 1), thread, PopRead(t)))
  {
    hide Slot, SlotInv;
    assert PcInv(s, s.threads[thread]);
    TailSlotIsFull(s, t);
    var n := Goto(s.(tail := t + 1), thread, PopRead(t));
    forall j | 0 <= j < |s.vec| ensures SlotInv(n, j) {
      SlotAfterPopCas(s, n, t, j);
    }
    forall a | a in n.threads ensures PcInv(n, n.threads[a]) {
      assert a != thread ==> PcInv(s, s.threads[a]);
    }
    assert Recorded(n);
    forall a | a in n.threads && a != thread ensures ClaimOf(n.threads[a]) != PopClaim(t) {
      assert PcInv(s, s.threads[a]);
    }
  }

  lemma PopReadKeepsInv(s: State, thread: nat, t: nat)
    requires Inv(s) && thread in s.threads && s.threads[thread] == PopRead(t)
    ensures t < |s.pushed| && s.vec[Slot(|s.vec|, t)].val == s.pushed[t]
    ensures Inv(Access(s, thread, false))
  {
    hide Slot, SlotInv;
    assert PcInv(s, s.threads[thread]);
    ClaimedSlot(s, t);
    var n := Access(s, thread, false);
    forall j | 0 <= j < |s.vec| ensures SlotInv(n, j) {
      SlotKept(s, n, j);
    }
    forall a | a in n.threads ensures PcInv(n, n.threads[a]) {
      assert a != thread ==> PcInv(s, s.threads[a]);
    }
    assert Recorded(n);
  }

  lemma ReleaseRecorded(s: State, n: State, t: nat)
    requires |s.vec| >= 2 && |s.pushed| == s.head && t < s.head && Recorded(s)
    requires s.vec[Slot(|s.vec|, t)].generation == t + 1
    requires n.vec == s.vec[Slot(|s.vec|, t) := s.vec[Slot(|s.vec|, t)].(generation := t + |s.vec|)]
    requires n.published == s.published && n.popped == s.popped[t := s.pushed[t]]
    requires n.pushed == s.pushed && n.head == s.head
    ensures Recorded(n)
  {
    hide Slot;
    var size, k := |s.vec|, Slot(|s.vec|, t);
    forall ticket: nat | Slot(size, ticket) == k
      ensures t + 1 >= ticket + 1 <==> t + size >= ticket + 1
      ensures t + size >= ticket + size <==> t + 1 >= ticket + size || ticket == t
    {
      Apart(size, t, ticket);
      Apart(size, ticket, t);
    }
  }

  lemma PopReleaseKeepsInv(s: State, thread: nat, t: nat, ret: int)
    requires Inv(s) && thread in s.threads && s.threads[thread] == PopRelease(t, ret)
    ensures Inv(Access(s, thread, false))
  {
    hide Slot, SlotInv;
    assert PcInv(s, s.threads[thread]);
    var k := Slot(|s.vec|, t);
    ClaimedSlot(s, t);
    var n := Access(s, thread, false);
    forall j | 0 <= j < |s.vec| ensures SlotInv(n, j) {
      if j == k {
        Lap(|s.vec|, t);
        assert Serves(n, t + |s.vec|);
        ServesSlot(n, t + |s.vec|);
      } else {
        SlotKept(s, n, j);
      }
    }
    forall a | a in n.threads ensures PcInv(n, n.threads[a]) {
      if a != thread {
        assert PcInv(s, s.threads[a]);
        ClaimsElsewhere(s, k, PopClaim(t), s.threads[a]);
        PcKept(s, n, k, s.threads[a]);
      }
    }
    ReleaseRecorded(s, n, t);
  }

  lemma InvIgnoresHistory(s: State, seen: Seen)
    requires Inv(s)
    ensures Inv(s.(seen := seen))
  {
    hide Slot;
    forall k | 0 <= k < |s.vec| ensures SlotInv(s.(seen := seen), k) {
      assert SlotInv(s, k);
    }
  }

  lemma NextKeepsInv(s: State, a: Action)
    requires Inv(s)
    ensures Inv(Next(s, a))
  {
    assert |s.vec| > 0;
    hide Inv, Access, Slot, Noted;
    MoveKeepsInvariant(s, a);
    InvIgnoresHistory(Move(s, a), Next(s, a).seen);
  }

  lemma MoveKeepsInvariant(s: State, a: Action)
    requires Inv(s)
    ensures Inv(Move(s, a))
  {
    hide Inv, Slot;
    match a
    case CallPush(thread, value) => if PcOf(s, thread).Idle? { MoveKeepsInv(s, thread, PushLoadHead(value)); }
    case CallPop(thread) => if PcOf(s, thread).Idle? { MoveKeepsInv(s, thread, PopLoadTail); }
    case Step(thread, spurious) => AccessKeepsInv(s, thread, spurious);
  }

  lemma AccessKeepsInv(s: State, thread: nat, spurious: bool)
    requires Inv(s)
    ensures Inv(Access(s, thread, spurious))
  {
    hide Slot, Recorded, SlotInv, Exclusive;
    match PcOf(s, thread)
    case Idle =>
    case PushLoadHead(value) => MoveKeepsInv(s, thread, PushLoadGeneration(value, s.head));
    case PushLoadGeneration(value, h) => MoveKeepsInv(s, thread, Access(s, thread, spurious).threads[thread]);
    case PushCas(value, h) =>
      if s.head == h && !spurious {
        PushCasKeepsInv(s, thread, value, h);
      } else {
        MoveKeepsInv(s, thread, PushLoadHead(value));
      }
    case PushWrite(value, h) => PushWriteKeepsInv(s, thread, value, h);
    case PushPublish(value, h) => PushPublishKeepsInv(s, thread, value, h);
    case PopLoadTail => MoveKeepsInv(s, thread, PopLoadGeneration(s.tail));
    case PopLoadGeneration(t) => MoveKeepsInv(s, thread, Access(s, thread, spurious).threads[thread]);
    case PopCas(t) =>
      if s.tail == t && !spurious { PopCasKeepsInv(s, thread, t); } else { MoveKeepsInv(s, thread, PopLoadTail); }
    case PopRead(t) => PopReadKeepsInv(s, thread, t);
    case PopRelease(t, ret) => PopReleaseKeepsInv(s, thread, t, ret);
  }

  /** The invariant holds after every run. */
  lemma {:induction false} RunInv(size: nat, actions: seq<Action>)
    requires size >= 2
    ensures Inv(Run(size, actions))
    decreases |actions|
  {
    if actions == [] {
      InitialInv(size);
    } else {
      RunInv(size, actions[..|actions| - 1]);
      NextKeepsInv(Run(size, actions[..|actions| - 1]), actions[|actions| - 1]);
    }
  }

  // ---- What the invariant means ----

  /** Every pop returns the value written by the push with the same ticket, and no more than
      `size` tickets of `head` run ahead of `tail`. */
  lemma PopsReturnTheirPush(size: nat, actions: seq<Action>)
    requires size >= 2
    ensures var s := Run(size, actions);
      && s.tail <= s.head <= s.tail + size
      && |s.pushed| == s.head
      && forall t :: t in s.popped ==> t < s.tail && t in s.published && s.popped[t] == s.pushed[t]
  {
    RunInv(size, actions);
    var s := Run(size, actions);
    hide Slot, SlotInv, PcInv, Exclusive;
    forall t | t in s.popped ensures t < s.tail && t in s.published {
      var u := TicketOf(s, Slot(size, t));
      Apart(size, t, u);
    }
  }

  /** Two threads inside the exclusive part of a method use different slots. */
  lemma OneOwnerPerSlot(size: nat, actions: seq<Action>, a: nat, b: nat)
    requires size >= 2 && a != b
    ensures var s := Run(size, actions);
      !ClaimOf(PcOf(s, a)).NoClaim? && !ClaimOf(PcOf(s, b)).NoClaim? ==>
        Slot(size, ClaimOf(PcOf(s, a)).ticket) != Slot(size, ClaimOf(PcOf(s, b)).ticket)
  {
    RunInv(size, actions);
    var s := Run(size, actions);
    hide Slot, SlotInv, Recorded;
    if !ClaimOf(PcOf(s, a)).NoClaim? && !ClaimOf(PcOf(s, b)).NoClaim? {
      assert PcInv(s, s.threads[a]) && PcInv(s, s.threads[b]);
      var mine := ClaimOf(PcOf(s, a));
      ClaimsElsewhere(s, Slot(size, mine.ticket), mine, s.threads[b]);
    }
  }

  lemma GenerationAtLeastSlot(s: State, k: nat)
    requires Inv(s) && k < |s.vec|
    ensures s.vec[k].generation >= k
  {
    hide Slot, SlotInv, Recorded, Exclusive, PcInv;
    var u := TicketOf(s, k);
    SlotAtMost(|s.vec|, u);
  }

  /** A push that drew `h` from `head` reports a full queue exactly when the pop that must free
      its slot has not released it. */
  lemma PushReportsFull(size: nat, actions: seq<Action>, thread: nat, value: int, h: nat, spurious: bool)
    requires size >= 2 && PcOf(Run(size, actions), thread) == PushLoadGeneration(value, h)
    ensures var s := Run(size, actions);
      PcOf(Access(s, thread, spurious), thread).Idle? <==> h >= size && h - size !in s.popped
  {
    RunInv(size, actions);
    var s := Run(size, actions);
    GenerationAtLeastSlot(s, Slot(size, h));
    hide SlotInv, PcInv, Exclusive;
    if h >= size {
      assert Slot(size, h - size) == Slot(size, h);
      assert h - size in s.popped <==> s.vec[Slot(size, h - size)].generation >= (h - size) + size;
    }
  }

  /** A pop that drew `t` from `tail` reports an empty queue exactly when the push with ticket `t`
      has not published its value. */
  lemma PopReportsEmpty(size: nat, actions: seq<Action>, thread: nat, t: nat, spurious: bool)
    requires size >= 2 && PcOf(Run(size, actions), thread) == PopLoadGeneration(t)
    ensures var s := Run(size, actions);
      PcOf(Access(s, thread, spurious), thread).Idle? <==> t !in s.published
  {
    RunInv(size, actions);
    hide SlotInv, PcInv, Exclusive, Slot;
  }

  /** The tickets drawn by pushes and not by pops, in order: the queue the ring stands for. */
  function Contents(s: State): (c: seq<int>)
    requires s.tail <= s.head == |s.pushed|
  {
    s.pushed[s.tail..]
  }

  /** Every access either appends the value of its push, removes the front for its pop, which is
      what that pop will return, or leaves the queue as it is. */
  lemma AccessIsFifo(s: State, thread: nat, spurious: bool)
    requires Inv(s)
    ensures Inv(Access(s, thread, spurious))
    ensures var n := Access(s, thread, spurious);
      match (PcOf(s, thread), PcOf(n, thread))
      case (PushCas(value, _), PushWrite(_, h)) => Contents(n) == Contents(s) + [value] && h == s.head
      case (PopCas(_), PopRead(t)) => Contents(s) == [s.pushed[t]] + Contents(n) && t == s.tail
      case _ => Contents(n) == Contents(s)
  {
    AccessKeepsInv(s, thread, spurious);
    InBounds(s);
    InBounds(Access(s, thread, spurious));
    hide Slot, Inv;
    match PcOf(s, thread)
    case PushCas(value, h) =>
    case PopCas(t) => PopCasInBounds(s, thread, t);
    case _ =>
  }

  lemma InBounds(s: State)
    requires Inv(s)
    ensures s.tail <= s.head == |s.pushed|
  {
    hide Slot, SlotInv, Recorded, Exclusive, PcInv;
  }

  lemma PopCasInBounds(s: State, thread: nat, t: nat)
    requires Inv(s) && PcOf(s, thread) == PopCas(t)
    ensures s.tail == t ==> t < s.head
  {
    hide Slot, SlotInv, Recorded, Exclusive, PcInv;
    if s.tail == t { PopCasKeepsInv(s, thread, t); }
  }

  /** A pop in the exclusive part returns the value its ticket stood for when it was the front. */
  lemma PopReturnsItsFront(s: State, thread: nat, spurious: bool)
    requires Inv(s) && PcOf(s, thread).PopRead?
    ensures var t := PcOf(s, thread).t;
      t < |s.pushed| && PcOf(Access(s, thread, spurious), thread) == PopRelease(t, s.pushed[t])
  {
    PopReadKeepsInv(s, thread, PcOf(s, thread).t);
  }

  ghost predicate Grown(s: State, n: State) {
    s.pushed <= n.pushed && s.tail <= n.tail && s.published <= n.published && s.popped.Keys <= n.popped.Keys
  }

  lemma NextGrows(s: State, a: Action)
    requires |s.vec| > 0
    ensures Grown(s, Next(s, a))
  {
    hide Slot, Noted;
  }

  /** What a ticket stands for never changes. */
  lemma {:induction false} TicketsAreFixed(size: nat, actions: seq<Action>, more: seq<Action>)
    requires size > 0
    ensures Grown(Run(size, actions), Run(size, actions + more))
    decreases |more|
  {
    if more == [] {
      assert actions + more == actions;
    } else {
      var init := more[..|more| - 1];
      TicketsAreFixed(size, actions, init);
      assert actions + more == (actions + init) + [more[|more| - 1]];
      OneMore(size, actions + init, more[|more| - 1]);
      NextGrows(Run(size, actions + init), more[|more| - 1]);
      hide Next, Run;
    }
  }

  // ---- Calls and returns ----

  predicate Pushes(pc: Pc) {
    pc.PushLoadHead? || pc.PushLoadGeneration? || pc.PushCas? || pc.PushWrite? || pc.PushPublish?
  }

  /** A thread inside a method has called it and not returned from it. */
  ghost predicate Called(s: State, thread: nat) {
    !PcOf(s, thread).Idle? ==>
      && thread in s.seen.calls && s.seen.calls[thread] < |s.seen.history|
      && s.seen.history[s.seen.calls[thread]] ==
         Invoke(s.seen.calls[thread], if Pushes(PcOf(s, thread)) then Push(PcOf(s, thread).value) else Pop)
      && forall i :: 0 <= i < |s.seen.history| && s.seen.history[i].Response? ==>
           s.seen.history[i].id != s.seen.calls[thread]
  }

  /** Different threads are in different calls. */
  ghost predicate CalledApart(s: State, a: nat, b: nat) {
    a != b && !PcOf(s, a).Idle? && !PcOf(s, b).Idle? && a in s.seen.calls && b in s.seen.calls ==>
      s.seen.calls[a] != s.seen.calls[b]
  }

  ghost predicate CallsInv(s: State) {
    && (forall a :: Called(s, a))
    && (forall a, b :: CalledApart(s, a, b))
    && forall i :: 0 <= i < |s.seen.history| && s.seen.history[i].Response? ==> s.seen.history[i].id < i
  }

  /** An access goes on in the same method, with the same value. */
  lemma AccessGoesOn(s: State, thread: nat, spurious: bool)
    requires |s.vec| > 0
    ensures var was, n := PcOf(s, thread), Access(s, thread, spurious);
      var now := PcOf(n, thread);
      && n.seen == s.seen
      && (forall k :: k != thread ==> PcOf(n, k) == PcOf(s, k))
      && (was.Idle? ==> now.Idle?)
      && (!was.Idle? && !now.Idle? ==> (Pushes(was) <==> Pushes(now)))
      && (Pushes(was) && Pushes(now) ==> was.value == now.value)
  {
    hide Slot;
  }

  lemma NextKeepsCalls(s: State, a: Action)
    requires |s.vec| > 0 && CallsInv(s)
    ensures CallsInv(Next(s, a))
  {
    var n, thread := Next(s, a), a.thread;
    if a.Step? { AccessGoesOn(s, thread, a.spurious); }
    hide Access;
    assert Called(s, thread);
    assert Called(n, thread);
    assert forall k :: k != thread ==> PcOf(n, k) == PcOf(s, k);
    hide Move;
    forall k | k != thread ensures Called(n, k) {
      assert Called(s, k) && CalledApart(s, k, thread);
    }
    forall j, k ensures CalledApart(n, j, k) {
      assert CalledApart(s, j, k) && Called(s, j) && Called(s, k);
    }
  }

  lemma {:induction false} RunCalls(size: nat, actions: seq<Action>)
    requires size > 0
    ensures CallsInv(Run(size, actions))
    decreases |actions|
  {
    if actions != [] {
      RunCalls(size, actions[..|actions| - 1]);
      NextKeepsCalls(Run(size, actions[..|actions| - 1]), actions[|actions| - 1]);
      hide Next, CallsInv;
    }
  }

  /** The history of a run consists of its calls and its returns, each of the call its thread is in. A push that
      drew a ticket returns 1 and one that found no room 0; a pop that drew a ticket returns the value pushed
      under it, and one that found nothing 0. */
  lemma ReturnsAreExact(size: nat, actions: seq<Action>, a: Action)
    requires size >= 2
    ensures var s := Run(size, actions);
      var n, was, now := Next(s, a), PcOf(s, a.thread), PcOf(Next(s, a), a.thread);
      && n.seen.history[..|s.seen.history|] == s.seen.history
      && (if was.Idle? == now.Idle? then n.seen.history == s.seen.history
          else
            && |n.seen.history| == |s.seen.history| + 1
            && var last, id := n.seen.history[|s.seen.history|], |s.seen.history|;
               if was.Idle? then last == Invoke(id, if Pushes(now) then Push(now.value) else Pop)
               else Answers(s, was, last, a.thread))
  {
    var s := Run(size, actions);
    RunCalls(size, actions);
    RunInv(size, actions);
    assert Called(s, a.thread);
    if PcOf(s, a.thread).PopRelease? { assert PcInv(s, s.threads[a.thread]); }
    hide Slot, Run, CallsInv, SlotInv, Exclusive, Recorded;
  }

  /** The event answers the call that the thread is in, with the result of its method. */
  ghost predicate Answers(s: State, was: Pc, event: Event<Op, int>, thread: nat) {
    && thread in s.seen.calls && s.seen.calls[thread] < |s.seen.history|
    && s.seen.history[s.seen.calls[thread]] ==
       Invoke(s.seen.calls[thread], if Pushes(was) then Push(was.value) else Pop)
    && match was
       case PushPublish(_, _) => event == Response(s.seen.calls[thread], 1)
       case PushLoadGeneration(_, _) => event == Response(s.seen.calls[thread], 0)
       case PopRelease(t, _) => t < |s.pushed| && event == Response(s.seen.calls[thread], s.pushed[t])
       case PopLoadGeneration(_) => event == Response(s.seen.calls[thread], 0)
       case _ => false
  }

  // ---- Progress ----

  /** The accesses a thread needs to finish its method if no other thread moves. */
  function Left(s: State, pc: Pc): (n: nat)
    ensures n <= 7
  {
    match pc
    case Idle => 0
    case PushLoadHead(_) => 5
    case PushLoadGeneration(_, h) => if h == s.head then 4 else 7
    case PushCas(_, h) => if h == s.head then 3 else 6
    case PushWrite(_, _) => 2
    case PushPublish(_, _) => 1
    case PopLoadTail => 5
    case PopLoadGeneration(t) => if t == s.tail then 4 else 7
    case PopCas(t) => if t == s.tail then 3 else 6
    case PopRead(_) => 2
    case PopRelease(_, _) => 1
  }

  /** Wherever it is stopped, a thread that then runs alone, with exchanges that do not fail for no reason,
      gets nearer to its return by every access: it finishes within seven. */
  lemma AloneFinishes(size: nat, actions: seq<Action>, thread: nat)
    requires size >= 2
    ensures var s := Run(size, actions);
      var n := Next(s, Step(thread, false));
      !PcOf(s, thread).Idle? ==> Left(n, PcOf(n, thread)) < Left(s, PcOf(s, thread))
  {
    RunInv(size, actions);
    var s := Run(size, actions);
    var head, tail := s.vec[Slot(size, s.head)].generation, s.vec[Slot(size, s.tail)].generation;
    hide Run, Slot, Inv, Next;
    if head >= s.head { HeadSlotIsFree(s, s.head); }
    if tail >= s.tail + 1 { TailSlotIsFull(s, s.tail); }
    GetsNearer(s, thread);
  }

  lemma GetsNearer(s: State, thread: nat)
    requires |s.vec| > 0 && s.vec[Slot(|s.vec|, s.head)].generation <= s.head
    requires s.vec[Slot(|s.vec|, s.tail)].generation <= s.tail + 1
    ensures var n := Next(s, Step(thread, false));
      !PcOf(s, thread).Idle? ==> Left(n, PcOf(n, thread)) < Left(s, PcOf(s, thread))
  {
    hide Slot, Noted;
  }

  // ---- Nothing is lost ----

  /** `thread` holds the claim. */
  ghost predicate Holds(s: State, thread: nat, claim: Claim) {
    thread in s.threads && ClaimOf(s.threads[thread]) == claim
  }

  /** Every drawn ticket is finished or in the hands of a thread. */
  ghost predicate Accounted(s: State) {
    && (forall h: nat :: h < s.head ==> h in s.published || exists thread :: Holds(s, thread, PushClaim(h)))
    && (forall t: nat :: t < s.tail ==> t in s.popped || exists thread :: Holds(s, thread, PopClaim(t)))
  }

  /** The claims of the thread that moves decide whether the tickets stay accounted for. */
  lemma StaysAccounted(s: State, n: State, thread: nat)
    requires Accounted(s)
    requires n.threads == s.threads[thread := PcOf(n, thread)]
    requires s.published <= n.published && s.popped.Keys <= n.popped.Keys
    requires s.head <= n.head <= s.head + 1 && (n.head > s.head ==> ClaimOf(PcOf(n, thread)) == PushClaim(s.head))
    requires s.tail <= n.tail <= s.tail + 1 && (n.tail > s.tail ==> ClaimOf(PcOf(n, thread)) == PopClaim(s.tail))
    requires match ClaimOf(PcOf(s, thread))
             case PushClaim(h) => h in n.published || ClaimOf(PcOf(n, thread)) == PushClaim(h)
             case PopClaim(t) => t in n.popped || ClaimOf(PcOf(n, thread)) == PopClaim(t)
             case NoClaim => true
    ensures Accounted(n)
  {
    assert n.threads[thread] == PcOf(n, thread);
    forall h: nat | h < n.head && h !in n.published ensures exists a :: Holds(n, a, PushClaim(h)) {
      if h == s.head {
        assert Holds(n, thread, PushClaim(h));
      } else {
        var a :| Holds(s, a, PushClaim(h));
        assert Holds(n, a, PushClaim(h));
      }
    }
    forall t: nat | t < n.tail && t !in n.popped ensures exists a :: Holds(n, a, PopClaim(t)) {
      if t == s.tail {
        assert Holds(n, thread, PopClaim(t));
      } else {
        var a :| Holds(s, a, PopClaim(t));
        assert Holds(n, a, PopClaim(t));
      }
    }
  }

  lemma AccessAccounted(s: State, thread: nat, spurious: bool)
    requires |s.vec| > 0 && Accounted(s)
    ensures Accounted(Access(s, thread, spurious))
  {
    hide Slot, Accounted;
    if Access(s, thread, spurious) != s {
      StaysAccounted(s, Access(s, thread, spurious), thread);
    }
  }

  lemma NextAccounted(s: State, a: Action)
    requires |s.vec| > 0 && Accounted(s)
    ensures Accounted(Next(s, a))
  {
    hide Slot, Access, Noted;
    var n := Move(s, a);
    assert Accounted(n) by {
      hide Accounted;
      if a.Step? {
        AccessAccounted(s, a.thread, a.spurious);
      } else if n != s {
        StaysAccounted(s, n, a.thread);
      }
    }
    assert forall b, claim :: Holds(n, b, claim) <==> Holds(Next(s, a), b, claim);
  }

  lemma {:induction false} RunAccounted(size: nat, actions: seq<Action>)
    requires size > 0
    ensures Accounted(Run(size, actions))
    decreases |actions|
  {
    if actions != [] {
      RunAccounted(size, actions[..|actions| - 1]);
      NextAccounted(Run(size, actions[..|actions| - 1]), actions[|actions| - 1]);
      hide Next, Accounted;
    }
  }

  lemma PopsAreDone(s: State)
    requires Accounted(s)
    requires forall a :: a in s.threads ==> !ClaimOf(s.threads[a]).PopClaim?
    ensures forall t: nat :: t < s.tail ==> t in s.popped
  {
    assert forall a, t: nat :: !Holds(s, a, PopClaim(t));
  }

  lemma PushesAreDone(s: State)
    requires Accounted(s)
    requires forall a :: a in s.threads ==> !ClaimOf(s.threads[a]).PushClaim?
    ensures forall h: nat :: h < s.head ==> h in s.published
  {
    assert forall a, h: nat :: !Holds(s, a, PushClaim(h));
  }

  /** A push at the current head reports a full queue exactly when `size` values are in the ring, unless a
      pop with the ticket that must free its slot is still in its exclusive part; then it is wrong. */
  lemma FullIsExact(size: nat, actions: seq<Action>, thread: nat, value: int, spurious: bool)
    requires size >= 2
    requires PcOf(Run(size, actions), thread) == PushLoadGeneration(value, Run(size, actions).head)
    ensures var s := Run(size, actions);
      var full := PcOf(Access(s, thread, spurious), thread).Idle?;
      (full <==> s.head == s.tail + size)
      <==> !(s.head >= size && Claimed(s, PopClaim(s.head - size)))
  {
    hide Access, Slot, Inv, Accounted, Claimed, Run;
    var s := Run(size, actions);
    PushReportsFull(size, actions, thread, value, s.head, spurious);
    PopsReturnTheirPush(size, actions);
    RunAccounted(size, actions);
    RunInv(size, actions);
    if s.head >= size {
      ClaimIsOpen(s, s.head - size);
      TicketIsHeld(s, s.head - size);
    }
  }

  /** A pop at the current tail reports an empty queue exactly when no value is in the ring, unless the push
      with its ticket is still in its exclusive part; then it is wrong. */
  lemma EmptyIsExact(size: nat, actions: seq<Action>, thread: nat, spurious: bool)
    requires size >= 2
    requires PcOf(Run(size, actions), thread) == PopLoadGeneration(Run(size, actions).tail)
    ensures var s := Run(size, actions);
      var empty := PcOf(Access(s, thread, spurious), thread).Idle?;
      (empty <==> s.head == s.tail) <==> !Claimed(s, PushClaim(s.tail))
  {
    hide Access, Slot, Inv, Accounted, Claimed, Run;
    var s := Run(size, actions);
    PopReportsEmpty(size, actions, thread, s.tail, spurious);
    PopsReturnTheirPush(size, actions);
    RunAccounted(size, actions);
    RunInv(size, actions);
    ClaimIsOpen(s, s.tail);
    TicketIsHeld(s, s.tail);
    if s.tail in s.published { PublishedIsDrawn(s, s.tail); }
  }

  ghost predicate Claimed(s: State, claim: Claim) {
    exists a :: Holds(s, a, claim)
  }

  lemma TicketIsHeld(s: State, ticket: nat)
    requires Accounted(s)
    ensures ticket < s.tail ==> ticket in s.popped || Claimed(s, PopClaim(ticket))
    ensures ticket < s.head ==> ticket in s.published || Claimed(s, PushClaim(ticket))
  {
  }

  /** A claim is to a ticket that was drawn and is not finished. */
  lemma ClaimIsOpen(s: State, ticket: nat)
    requires Inv(s)
    ensures Claimed(s, PopClaim(ticket)) ==> ticket < s.tail && ticket !in s.popped
    ensures Claimed(s, PushClaim(ticket)) ==> ticket < s.head && ticket !in s.published
  {
    hide Slot, SlotInv, Exclusive;
    if Claimed(s, PopClaim(ticket)) {
      var a :| Holds(s, a, PopClaim(ticket));
      assert PcInv(s, s.threads[a]);
    }
    if Claimed(s, PushClaim(ticket)) {
      var a :| Holds(s, a, PushClaim(ticket));
      assert PcInv(s, s.threads[a]);
    }
  }

  lemma PublishedIsDrawn(s: State, ticket: nat)
    requires Inv(s) && ticket in s.published
    ensures ticket < s.head
  {
    hide Slot, SlotInv, Exclusive, PcInv;
    var u := TicketOf(s, Slot(|s.vec|, ticket));
    Apart(|s.vec|, u, ticket);
    Apart(|s.vec|, ticket, u);
  }

  /** Between methods every value pushed was popped under its ticket or is still in the ring. */
  lemma NothingIsLost(size: nat, actions: seq<Action>)
    requires size >= 2
    requires forall a :: a in Run(size, actions).threads ==> Run(size, actions).threads[a].Idle?
    ensures var s := Run(size, actions);
      && |s.pushed| == s.head
      && (forall t: nat :: t in s.popped <==> t < s.tail)
      && (forall h: nat :: h < s.head ==> h in s.published)
      && (forall h: nat :: s.tail <= h < s.head ==> s.vec[Slot(size, h)] == Node(h + 1, s.pushed[h]))
  {
    var s := Run(size, actions);
    PopsReturnTheirPush(size, actions);
    RunAccounted(size, actions);
    RunInv(size, actions);
    PopsAreDone(s);
    PushesAreDone(s);
    hide Slot, SlotInv, PcInv, Exclusive, Recorded, Accounted, Run;
    forall h: nat | s.tail <= h < s.head ensures s.vec[Slot(size, h)] == Node(h + 1, s.pushed[h]) {
      PublishedInRing(s, h);
    }
  }

  lemma PublishedInRing(s: State, h: nat)
    requires Inv(s) && s.tail <= h < s.head && h in s.published
    ensures |s.pushed| == s.head && s.vec[Slot(|s.vec|, h)] == Node(h + 1, s.pushed[h])
  {
    hide Slot, SlotInv, PcInv, Exclusive;
    var u := TicketOf(s, Slot(|s.vec|, h));
    Apart(|s.vec|, h, u);
    Apart(|s.vec|, u, h);
  }
}
