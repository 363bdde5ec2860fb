/** The read-write spin lock with upgrades: one word, one atomic access per step, a fixed
    number of threads that follow the locking discipline. */
module RWSpinLock {
  import opened Effects

  const READER: int := 4
  const UPGRADED: int := 2
  const WRITER: int := 1

  /** What a thread does next, or holds between methods. `spin` tells a locking method,
      which tries again, from a single try. */
  datatype Pc =
    | Idle
    | TryLock(spin: bool)
    | TryLockShared(spin: bool)
    | UndoShared(spin: bool)
    | TryLockUpgrade(spin: bool)
    | Reader
    | UnlockShared
    | Writer
    | Unlock
    | DowngradeAdd
    | DowngradeUnlock
    | WriterToUpgradeOr
    | WriterToUpgradeSub
    | Upgrader
    | UnlockUpgrade
    | TryPromote(spin: bool)
    | UpgradeToShared

  /** `record` holds the history and the order in which methods take effect. */
  datatype State = State(bits: int, threads: seq<Pc>, record: Record<Method, int>)

  datatype Method =
    | Lock(spin: bool)
    | LockShared(spin: bool)
    | LockUpgrade(spin: bool)
    | UnlockLock
    | UnlockAndLockShared
    | UnlockAndLockUpgrade
    | UnlockSharedLock
    | UnlockUpgradeLock
    | UnlockUpgradeAndLock(spin: bool)
    | UnlockUpgradeAndLockShared

  datatype Action = Call(thread: nat, m: Method) | Step(thread: nat)

  // ---- The word: a signed integer of 32 bits ----

  /** The sum as a signed 32-bit integer, for sums out of range by less than one turn. */
  function Wrap(x: int): int {
    if x >= 0x8000_0000 then x - 0x1_0000_0000
    else if x < -0x8000_0000 then x + 0x1_0000_0000
    else x
  }

  function Low(bits: int): (low: int)
    ensures 0 <= low < 4
  {
    bits % 4
  }

  /** The conjunction with the complement of `WRITER | UPGRADED`. */
  function ClearLow(bits: int): int { bits - Low(bits) }

  /** The disjunction with `UPGRADED`. */
  function SetUpgraded(bits: int): int { if Low(bits) >= UPGRADED then bits else bits + UPGRADED }

  /** The word that counts `count` increments of `READER` over its low bits. */
  function Word(count: int, low: int): int { count + count + count + count + low }

  // ---- Calls and accesses ----

  /** Where a call takes a thread; a thread calls only what its hold allows. */
  function Enter(pc: Pc, m: Method): Pc {
    match (pc, m)
    case (Idle, Lock(spin)) => TryLock(spin)
    case (Idle, LockShared(spin)) => TryLockShared(spin)
    case (Idle, LockUpgrade(spin)) => TryLockUpgrade(spin)
    case (Writer, UnlockLock) => Unlock
    case (Writer, UnlockAndLockShared) => DowngradeAdd
    case (Writer, UnlockAndLockUpgrade) => WriterToUpgradeOr
    case (Reader, UnlockSharedLock) => UnlockShared
    case (Upgrader, UnlockUpgradeLock) => UnlockUpgrade
    case (Upgrader, UnlockUpgradeAndLock(spin)) => TryPromote(spin)
    case (Upgrader, UnlockUpgradeAndLockShared) => UpgradeToShared
    case _ => pc
  }

  /** One atomic access: the new word and where the thread is next. */
  function Access(bits: int, pc: Pc): (int, Pc) {
    match pc
    case TryLock(spin) =>
      if bits == 0 then (WRITER, Writer) else (bits, if spin then pc else Idle)
    case Unlock => (ClearLow(bits), Idle)
    case TryLockShared(spin) =>
      (Wrap(bits + READER), if Low(bits) != 0 then UndoShared(spin) else Reader)
    case UndoShared(spin) => (Wrap(bits - READER), if spin then TryLockShared(spin) else Idle)
    case UnlockShared => (Wrap(bits - READER), Idle)
    case DowngradeAdd => (Wrap(bits + READER), DowngradeUnlock)
    case DowngradeUnlock => (ClearLow(bits), Reader)
    case TryLockUpgrade(spin) =>
      (SetUpgraded(bits), if Low(bits) == 0 then Upgrader else if spin then pc else Idle)
    case UnlockUpgrade => (Wrap(bits - UPGRADED), Idle)
    case TryPromote(spin) =>
      if bits == UPGRADED then (WRITER, Writer) else (bits, if spin then pc else Upgrader)
    case UpgradeToShared => (Wrap(bits + READER - UPGRADED), Reader)
    case WriterToUpgradeOr => (SetUpgraded(bits), WriterToUpgradeSub)
    case WriterToUpgradeSub => (Wrap(bits - WRITER), Upgrader)
    case _ => (bits, pc)
  }

  predicate InMethod(pc: Pc) {
    !pc.Idle? && !pc.Reader? && !pc.Writer? && !pc.Upgrader?
  }

  /** The access by which a method takes effect and returns. */
  predicate Ends(was: Pc, now: Pc) {
    InMethod(was) && !InMethod(now)
  }

  /** A single try that was refused. */
  predicate Refused(was: Pc, now: Pc) {
    if was.TryPromote? then now.Upgrader?
    else (was.TryLock? || was.UndoShared? || was.TryLockUpgrade?) && now.Idle?
  }

  /** A method that is over returns 0, or 1 if it was a single try that was refused. */
  function Noted(r: Record<Method, int>, thread: nat, was: Pc, now: Pc): Record<Method, int> {
    if !Ends(was, now) then r
    else
      var result := if Refused(was, now) then 1 else 0;
      r.Effect(thread, result).End(thread, result)
  }

  function Initial(count: nat): (s: State) {
    State(0, seq(count, (_: nat) => Idle), NoRecord(count))
  }

  function Next(s: State, a: Action): State {
    if a.thread >= |s.threads| then s
    else
      match a
      case Call(thread, m) =>
        var pc := Enter(s.threads[thread], m);
        var record := if pc == s.threads[thread] then s.record else s.record.Begin(thread, m);
        s.(threads := s.threads[thread := pc], record := record)
      case Step(thread) =>
        var (bits, pc) := Access(s.bits, s.threads[thread]);
        State(bits, s.threads[thread := pc], Noted(s.record, thread, s.threads[thread], pc))
  }

  /** The state after a run, for any interleaving. */
  function Run(count: nat, actions: seq<Action>): State {
    if actions == [] then Initial(count)
    else Next(Run(count, actions[..|actions| - 1]), actions[|actions| - 1])
  }

  // ---- Holders ----

  /** The thread's increment is in the word: a reader, or a failed or passing one. */
  predicate Counted(pc: Pc) {
    match pc
    case Reader | UnlockShared | UndoShared(_) | DowngradeUnlock => true
    case _ => false
  }

  predicate HoldsRead(pc: Pc) {
    match pc
    case Reader | UnlockShared => true
    case _ => false
  }

  predicate HoldsWrite(pc: Pc) {
    match pc
    case Writer | Unlock | DowngradeAdd | DowngradeUnlock | WriterToUpgradeOr | WriterToUpgradeSub => true
    case _ => false
  }

  predicate HoldsUpgrade(pc: Pc) {
    match pc
    case Upgrader | UnlockUpgrade | TryPromote(_) | UpgradeToShared => true
    case _ => false
  }

  function Count(threads: seq<Pc>, p: Pc -> bool): (n: nat)
    ensures n <= |threads|
  {
    if threads == [] then 0 else (if p(threads[0]) then 1 else 0) + Count(threads[1..], p)
  }

  lemma {:induction false} CountUpdate(threads: seq<Pc>, p: Pc -> bool, k: nat, pc: Pc)
    requires k < |threads|
    ensures Count(threads[k := pc], p) ==
      Count(threads, p) - (if p(threads[k]) then 1 else 0) + (if p(pc) then 1 else 0)
  {
    if k == 0 {
      assert threads[0 := pc][1..] == threads[1..];
    } else {
      assert threads[k := pc][1..] == threads[1..][k - 1 := pc];
      CountUpdate(threads[1..], p, k - 1, pc);
    }
  }

  lemma {:induction false} CountPositive(threads: seq<Pc>, p: Pc -> bool, k: nat)
    requires k < |threads| && p(threads[k])
    ensures Count(threads, p) >= 1
  {
    if k > 0 { CountPositive(threads[1..], p, k - 1); }
  }

  lemma {:induction false} CountTwo(threads: seq<Pc>, p: Pc -> bool, j: nat, k: nat)
    requires j < k < |threads| && p(threads[j]) && p(threads[k])
    ensures Count(threads, p) >= 2
  {
    if j == 0 { CountPositive(threads[1..], p, k - 1); } else { CountTwo(threads[1..], p, j - 1, k - 1); }
  }

  lemma {:induction false} CountNone(threads: seq<Pc>, p: Pc -> bool)
    ensures Count(threads, p) == 0 <==> forall k :: 0 <= k < |threads| ==> !p(threads[k])
  {
    if threads != [] {
      CountNone(threads[1..], p);
      assert forall k :: 0 <= k < |threads| ==> threads[k] == if k == 0 then threads[0] else threads[1..][k - 1];
    }
  }

  // ---- The invariant ----

  datatype Totals = Totals(counted: int, read: int, write: int, upgrade: int)

  /** What a thread adds to the totals. */
  function Part(pc: Pc): Totals {
    Totals(if Counted(pc) then 1 else 0, if HoldsRead(pc) then 1 else 0,
           if HoldsWrite(pc) then 1 else 0, if HoldsUpgrade(pc) then 1 else 0)
  }

  function TotalsOf(s: State): Totals {
    Totals(Count(s.threads, Counted), Count(s.threads, HoldsRead),
           Count(s.threads, HoldsWrite), Count(s.threads, HoldsUpgrade))
  }

  /** The word tells the totals: the count of increments, the upgrade bit and the writer bit. */
  ghost predicate Agree(bits: int, t: Totals) {
    && 0 <= t.upgrade <= 1 && 0 <= t.read <= t.counted
    && (t.write == 0 || (t.write == 1 && t.upgrade == 0 && t.read == 0))
    && (t.write == 0 ==> Low(bits) == if t.upgrade == 1 then UPGRADED else 0)
    && (t.write == 1 ==> Low(bits) == WRITER || Low(bits) == WRITER + UPGRADED)
    && bits == Word(t.counted, Low(bits))
  }

  ghost predicate Inv(s: State) {
    && Agree(s.bits, TotalsOf(s))
    && forall k :: 0 <= k < |s.threads| && s.threads[k].WriterToUpgradeSub? ==> Low(s.bits) >= UPGRADED
  }

  /** Fewer threads than the counter has room for. */
  predicate FitsCounter(count: nat) { Word(count, 3) < 0x8000_0000 }

  /** The totals with one thread moved. */
  function Moved(t: Totals, was: Pc, now: Pc): Totals {
    Totals(t.counted - Part(was).counted + Part(now).counted, t.read - Part(was).read + Part(now).read,
           t.write - Part(was).write + Part(now).write, t.upgrade - Part(was).upgrade + Part(now).upgrade)
  }

  lemma LowOf(bits: int, count: int, low: int)
    requires 0 <= low < 4 && bits == Word(count, low)
    ensures Low(bits) == low
  {
  }

  lemma WriterEnds(t: Totals, pc: Pc)
    requires pc.TryLock? || pc.TryPromote?
    requires t.counted == 0 && t.read == 0 && t.write == 0 && t.upgrade == Part(pc).upgrade
    ensures Agree(WRITER, Moved(t, pc, Writer))
  {
    hide Low;
    LowOf(WRITER, 0, 1);
    var m := Moved(t, pc, Writer);
    assert !Counted(pc) && !HoldsRead(pc) && !HoldsWrite(pc);
    assert m.counted == 0 && m.read == 0;
    assert m.write == 1;
    assert m.upgrade == 0;
  }

  /** An access keeps the word and the totals in agreement, and its result is in range. */
  lemma AccessAgrees(bits: int, t: Totals, pc: Pc)
    requires Agree(bits, t) && Word(t.counted - Part(pc).counted, 7) < 0x8000_0000
    requires Part(pc).counted <= t.counted && Part(pc).read <= t.read
    requires Part(pc).write <= t.write && Part(pc).upgrade <= t.upgrade
    requires t.read - Part(pc).read <= t.counted - Part(pc).counted
    requires pc.WriterToUpgradeSub? ==> Low(bits) >= UPGRADED
    ensures var (after, now) := Access(bits, pc);
      && Agree(after, Moved(t, pc, now))
      && (HoldsWrite(pc) || t.write == 0 || Low(after) >= Low(bits))
      && (now.WriterToUpgradeSub? ==> Low(after) >= UPGRADED)
  {
    hide Low;
    var low, after, m := Low(bits), Access(bits, pc).0, Moved(t, pc, Access(bits, pc).1);
    match pc
    case Unlock => LowOf(after, t.counted, 0); assert Agree(after, m);
    case TryLockShared(_) => LowOf(after, t.counted + 1, low); assert Agree(after, m);
    case UndoShared(_) => LowOf(after, t.counted - 1, low); assert Agree(after, m);
    case UnlockShared => LowOf(after, t.counted - 1, low); assert Agree(after, m);
    case DowngradeAdd => LowOf(after, t.counted + 1, low); assert Agree(after, m);
    case DowngradeUnlock => LowOf(after, t.counted, 0); assert Agree(after, m);
    case TryLockUpgrade(_) => if low < 2 { LowOf(after, t.counted, low + 2); } assert Agree(after, m);
    case UnlockUpgrade => LowOf(after, t.counted, low - 2); assert Agree(after, m);
    case UpgradeToShared => LowOf(after, t.counted + 1, low - 2); assert Agree(after, m);
    case WriterToUpgradeOr => if low < 2 { LowOf(after, t.counted, low + 2); } assert Agree(after, m);
    case WriterToUpgradeSub => LowOf(after, t.counted, low - 1); assert Agree(after, m);
    case TryLock(_) => if bits == 0 { WriterEnds(t, pc); }
    case TryPromote(_) => if bits == UPGRADED { WriterEnds(t, pc); }
    case _ => assert Agree(after, m);
  }

  lemma CountsAtLeast(s: State, k: nat)
    requires k < |s.threads|
    ensures var t, part := TotalsOf(s), Part(s.threads[k]);
      part.counted <= t.counted && part.read <= t.read && part.write <= t.write && part.upgrade <= t.upgrade
  {
    if Counted(s.threads[k]) { CountPositive(s.threads, Counted, k); }
    if HoldsRead(s.threads[k]) { CountPositive(s.threads, HoldsRead, k); }
    if HoldsWrite(s.threads[k]) { CountPositive(s.threads, HoldsWrite, k); }
    if HoldsUpgrade(s.threads[k]) { CountPositive(s.threads, HoldsUpgrade, k); }
  }

  lemma {:induction false} ReadersAreCounted(threads: seq<Pc>)
    ensures Count(threads, HoldsRead) <= Count(threads, Counted)
  {
    if threads != [] { ReadersAreCounted(threads[1..]); }
  }

  lemma TotalsAfter(s: State, n: State, k: nat, pc: Pc)
    requires k < |s.threads| && n.threads == s.threads[k := pc]
    ensures TotalsOf(n) == Moved(TotalsOf(s), s.threads[k], pc)
  {
    CountUpdate(s.threads, Counted, k, pc);
    CountUpdate(s.threads, HoldsRead, k, pc);
    CountUpdate(s.threads, HoldsWrite, k, pc);
    CountUpdate(s.threads, HoldsUpgrade, k, pc);
  }

  /** The readers other than one thread are increments other than its own. */
  lemma OthersAreCounted(s: State, k: nat)
    requires k < |s.threads|
    ensures var t, part := TotalsOf(s), Part(s.threads[k]); t.read - part.read <= t.counted - part.counted
  {
    var n := s.(threads := s.threads[k := Idle]);
    TotalsAfter(s, n, k, Idle);
    ReadersAreCounted(n.threads);
  }

  lemma StepKeepsInv(s: State, thread: nat)
    requires Inv(s) && thread < |s.threads| && FitsCounter(|s.threads|)
    ensures Inv(Next(s, Step(thread)))
  {
    var t, pc, n := TotalsOf(s), s.threads[thread], Next(s, Step(thread));
    CountsAtLeast(s, thread);
    OthersAreCounted(s, thread);
    TotalsAfter(s, n, thread, n.threads[thread]);
    Room(s, thread);
    hide Low, Access, Moved, Part;
    AccessAgrees(s.bits, t, pc);
    forall k | 0 <= k < |n.threads| && n.threads[k].WriterToUpgradeSub? ensures Low(n.bits) >= UPGRADED {
      if k != thread {
        CountPositive(s.threads, HoldsWrite, k);
        if HoldsWrite(pc) { Pair(s.threads, HoldsWrite, k, thread); }
      }
    }
  }

  /** There is room in the counter for an increment of every thread. */
  lemma Room(s: State, k: nat)
    requires k < |s.threads| && FitsCounter(|s.threads|)
    ensures Word(TotalsOf(s).counted - Part(s.threads[k]).counted, 7) < 0x8000_0000
  {
    CountUpdate(s.threads, Counted, k, Reader);
  }

  lemma Pair(threads: seq<Pc>, p: Pc -> bool, j: nat, k: nat)
    requires j < |threads| && k < |threads| && j != k && p(threads[j]) && p(threads[k])
    ensures Count(threads, p) >= 2
  {
    if j < k { CountTwo(threads, p, j, k); } else { CountTwo(threads, p, k, j); }
  }

  /** A call only marks the way a thread goes on; what it holds stays. */
  lemma CallKeepsInv(s: State, thread: nat, m: Method)
    requires Inv(s) && thread < |s.threads|
    ensures Inv(Next(s, Call(thread, m)))
  {
    var n := Next(s, Call(thread, m));
    TotalsAfter(s, n, thread, n.threads[thread]);
    hide Low;
  }

  /** In every reachable state the word and the holders agree. */
  lemma {:induction false} RunInv(count: nat, actions: seq<Action>)
    requires FitsCounter(count)
    ensures |Run(count, actions).threads| == count && Inv(Run(count, actions))
    decreases |actions|
  {
    hide Inv, Next;
    if actions == [] {
      InitialInv(count);
    } else {
      RunInv(count, actions[..|actions| - 1]);
      NextKeepsInv(Run(count, actions[..|actions| - 1]), actions[|actions| - 1]);
    }
  }

  lemma NextKeepsInv(s: State, a: Action)
    requires Inv(s) && FitsCounter(|s.threads|)
    ensures Inv(Next(s, a)) && |Next(s, a).threads| == |s.threads|
  {
    hide Inv, Access, Enter;
    if a.thread < |s.threads| {
      match a
      case Call(thread, m) => CallKeepsInv(s, thread, m);
      case Step(thread) => StepKeepsInv(s, thread);
    }
  }

  lemma InitialInv(count: nat)
    ensures |Initial(count).threads| == count && Inv(Initial(count))
  {
    hide Low, Word, Count, TotalsOf, Agree;
    var s := Initial(count);
    NoneOf(s);
    var t := TotalsOf(s);
    AgreeAtZero(t);
    assert Agree(s.bits, t);
  }

  lemma AgreeAtZero(t: Totals)
    requires t.counted == 0 && t.read == 0 && t.write == 0 && t.upgrade == 0
    ensures Agree(0, t)
  {
    hide Low;
    LowOf(0, 0, 0);
  }

  lemma NoneOf(s: State)
    requires forall k :: 0 <= k < |s.threads| ==> s.threads[k] == Idle
    ensures var t := TotalsOf(s); t.counted == 0 && t.read == 0 && t.write == 0 && t.upgrade == 0
  {
    CountNone(s.threads, Counted);
    CountNone(s.threads, HoldsRead);
    CountNone(s.threads, HoldsWrite);
    CountNone(s.threads, HoldsUpgrade);
  }

  // ---- What the lock promises ----

  /** A writer excludes every other holder, and an upgrader every other upgrader. */
  lemma Exclusion(count: nat, actions: seq<Action>, j: nat, k: nat)
    requires FitsCounter(count) && j < count && k < count && j != k
    ensures |Run(count, actions).threads| == count
    ensures var threads := Run(count, actions).threads;
      && (HoldsWrite(threads[j]) ==> !HoldsWrite(threads[k]) && !HoldsUpgrade(threads[k]) && !HoldsRead(threads[k]))
      && (HoldsUpgrade(threads[j]) ==> !HoldsUpgrade(threads[k]))
  {
    RunInv(count, actions);
    var s := Run(count, actions);
    CountsAtLeast(s, j);
    CountsAtLeast(s, k);
    if HoldsWrite(s.threads[j]) && HoldsWrite(s.threads[k]) { Pair(s.threads, HoldsWrite, j, k); }
    if HoldsUpgrade(s.threads[j]) && HoldsUpgrade(s.threads[k]) { Pair(s.threads, HoldsUpgrade, j, k); }
  }

  /** The word is the count of reader increments and the two bits; the writer bit says that there
      is a writer, the upgrade bit that there is an upgrader or a writer to clear it. */
  lemma WordTellsHolders(count: nat, actions: seq<Action>)
    requires FitsCounter(count)
    ensures var s := Run(count, actions);
      && 0 <= s.bits < 0x8000_0000
      && s.bits == Word(Count(s.threads, Counted), Low(s.bits))
      && (Low(s.bits) % 2 == 1 <==> Some(s, HoldsWrite))
      && (Some(s, HoldsUpgrade) ==> Low(s.bits) == UPGRADED)
      && (Low(s.bits) == UPGRADED ==> Some(s, HoldsUpgrade))
  {
    hide Run, Low;
    RunInv(count, actions);
    var s := Run(count, actions);
    AnyOf(s);
    var t := TotalsOf(s);
    assert Agree(s.bits, t) && t.counted <= count;
    hide TotalsOf, Some, Count, Inv;
    BitOf(Low(s.bits));
  }

  lemma BitOf(low: int)
    requires 0 <= low < 4
    ensures low % 2 == if low == 1 || low == 3 then 1 else 0
  {
  }

  /** The totals tell whether there is such a thread. */
  lemma AnyOf(s: State)
    ensures TotalsOf(s).counted == 0 <==> !Some(s, Counted)
    ensures TotalsOf(s).write == 0 <==> !Some(s, HoldsWrite)
    ensures TotalsOf(s).upgrade == 0 <==> !Some(s, HoldsUpgrade)
  {
    CountNone(s.threads, Counted);
    CountNone(s.threads, HoldsWrite);
    CountNone(s.threads, HoldsUpgrade);
  }

  ghost predicate Some(s: State, p: Pc -> bool) {
    exists k :: 0 <= k < |s.threads| && p(s.threads[k])
  }

  /** Each try succeeds exactly when the other threads allow it. A read lock is refused only because of
      a writer or an upgrader, and a write lock also because of readers, those on their way out included. */
  lemma TriesAreExact(count: nat, actions: seq<Action>, thread: nat)
    requires FitsCounter(count) && thread < count
    ensures |Run(count, actions).threads| == count
    ensures var s := Run(count, actions);
      var now := Next(s, Step(thread)).threads[thread];
      match s.threads[thread]
      case TryLock(_) => now.Writer? <==> !Some(s, Counted) && !Some(s, HoldsWrite) && !Some(s, HoldsUpgrade)
      case TryLockShared(_) => now.Reader? <==> !Some(s, HoldsWrite) && !Some(s, HoldsUpgrade)
      case TryLockUpgrade(_) => now.Upgrader? <==> !Some(s, HoldsWrite) && !Some(s, HoldsUpgrade)
      case TryPromote(_) => now.Writer? <==> !Some(s, Counted)
      case _ => true
  {
    hide Run;
    RunInv(count, actions);
    var s := Run(count, actions);
    hide Inv, Next;
    TryIsExact(s, thread);
  }

  lemma ZeroParts(bits: int, count: int, low: int)
    requires 0 <= low < 4 && 0 <= count && bits == Word(count, low)
    ensures bits == 0 <==> count == 0 && low == 0
  {
  }

  lemma AccessIsExact(bits: int, t: Totals, pc: Pc)
    requires Agree(bits, t) && 0 <= t.counted && (HoldsUpgrade(pc) ==> t.upgrade == 1)
    ensures var now := Access(bits, pc).1;
      match pc
      case TryLock(_) => now.Writer? <==> t.counted == 0 && t.write == 0 && t.upgrade == 0
      case TryLockShared(_) => now.Reader? <==> t.write == 0 && t.upgrade == 0
      case TryLockUpgrade(_) => now.Upgrader? <==> t.write == 0 && t.upgrade == 0
      case TryPromote(_) => now.Writer? <==> t.counted == 0
      case _ => true
  {
    hide Low, Wrap, SetUpgraded, ClearLow;
    ZeroParts(bits, t.counted, Low(bits));
  }

  lemma TryIsExact(s: State, thread: nat)
    requires Inv(s) && thread < |s.threads|
    ensures var now := Next(s, Step(thread)).threads[thread];
      match s.threads[thread]
      case TryLock(_) => now.Writer? <==> !Some(s, Counted) && !Some(s, HoldsWrite) && !Some(s, HoldsUpgrade)
      case TryLockShared(_) => now.Reader? <==> !Some(s, HoldsWrite) && !Some(s, HoldsUpgrade)
      case TryLockUpgrade(_) => now.Upgrader? <==> !Some(s, HoldsWrite) && !Some(s, HoldsUpgrade)
      case TryPromote(_) => now.Writer? <==> !Some(s, Counted)
      case _ => true
  {
    AnyOf(s);
    CountsAtLeast(s, thread);
    hide TotalsOf, Some, Count, Access, Agree;
    AccessIsExact(s.bits, TotalsOf(s), s.threads[thread]);
  }

  /** The word is 0 again when no thread holds the lock or waits to take back its increment. */
  lemma FreeIsZero(count: nat, actions: seq<Action>)
    requires FitsCounter(count)
    ensures var s := Run(count, actions);
      s.bits == 0 <==> !Some(s, Counted) && !Some(s, HoldsWrite) && !Some(s, HoldsUpgrade)
  {
    hide Run, Low;
    RunInv(count, actions);
    var s := Run(count, actions);
    AnyOf(s);
    assert Agree(s.bits, TotalsOf(s));
    hide TotalsOf, Some, Count, Inv;
  }

  // ---- What the methods take and give ----

  /** The thread is on its way through the method it called, and in none without a call. */
  predicate Doing(pc: Pc, phase: Phase<Method, int>) {
    if InMethod(pc) then phase.Before? && Goes(pc, phase.op) else phase.Outside?
  }

  /** The accesses of a method. */
  predicate Goes(pc: Pc, m: Method) {
    match pc
    case TryLock(spin) => m == Lock(spin)
    case TryLockShared(spin) => m == LockShared(spin)
    case UndoShared(spin) => m == LockShared(spin)
    case TryLockUpgrade(spin) => m == LockUpgrade(spin)
    case UnlockShared => m == UnlockSharedLock
    case Unlock => m == UnlockLock
    case DowngradeAdd => m == UnlockAndLockShared
    case DowngradeUnlock => m == UnlockAndLockShared
    case WriterToUpgradeOr => m == UnlockAndLockUpgrade
    case WriterToUpgradeSub => m == UnlockAndLockUpgrade
    case UnlockUpgrade => m == UnlockUpgradeLock
    case TryPromote(spin) => m == UnlockUpgradeAndLock(spin)
    case UpgradeToShared => m == UnlockUpgradeAndLockShared
    case _ => false
  }

  ghost predicate Recorded(s: State) {
    && s.record.Valid()
    && |s.record.phases| == |s.threads|
    && forall k :: 0 <= k < |s.threads| ==> Doing(s.threads[k], s.record.phases[k])
  }

  /** What a thread holds when it may call the method. */
  predicate HoldsBefore(m: Method, pc: Pc) {
    match m
    case Lock(_) => pc.Idle?
    case LockShared(_) => pc.Idle?
    case LockUpgrade(_) => pc.Idle?
    case UnlockLock => pc.Writer?
    case UnlockAndLockShared => pc.Writer?
    case UnlockAndLockUpgrade => pc.Writer?
    case UnlockSharedLock => pc.Reader?
    case UnlockUpgradeLock => pc.Upgrader?
    case UnlockUpgradeAndLock(_) => pc.Upgrader?
    case UnlockUpgradeAndLockShared => pc.Upgrader?
  }

  /** What a thread holds when the method has returned 0; a method that spins returns nothing else, and a single
      try that returned 1 leaves what was held. */
  predicate HoldsAfter(m: Method, result: int, pc: Pc) {
    if result == 0 then
      match m
      case Lock(_) => pc.Writer?
      case LockShared(_) => pc.Reader?
      case LockUpgrade(_) => pc.Upgrader?
      case UnlockLock => pc.Idle?
      case UnlockAndLockShared => pc.Reader?
      case UnlockAndLockUpgrade => pc.Upgrader?
      case UnlockSharedLock => pc.Idle?
      case UnlockUpgradeLock => pc.Idle?
      case UnlockUpgradeAndLock(_) => pc.Writer?
      case UnlockUpgradeAndLockShared => pc.Reader?
    else
      result == 1 && IsSingleTry(m) && HoldsBefore(m, pc)
  }

  predicate IsSingleTry(m: Method) {
    match m
    case Lock(spin) => !spin
    case LockShared(spin) => !spin
    case LockUpgrade(spin) => !spin
    case UnlockUpgradeAndLock(spin) => !spin
    case _ => false
  }

  lemma AccessGoesOn(bits: int, pc: Pc, phase: Phase<Method, int>)
    requires Doing(pc, phase)
    ensures var now := Access(bits, pc).1;
      && (InMethod(pc) ==> phase.Before?)
      && Doing(now, if Ends(pc, now) then Outside else phase)
      && (!InMethod(pc) ==> now == pc)
      && (Ends(pc, now) ==> HoldsAfter(phase.op, if Refused(pc, now) then 1 else 0, now))
  {
    hide Low, Wrap, SetUpgraded, ClearLow;
  }

  /** The accesses a method has before it if it need not try again. */
  function Left(pc: Pc): (n: nat)
    ensures n <= 2
  {
    match pc
    case DowngradeAdd => 2
    case WriterToUpgradeOr => 2
    case TryLockShared(_) => 2
    case _ => if InMethod(pc) then 1 else 0
  }

  /** Only a refused method that spins tries again; every other access brings the method nearer to its return. */
  lemma OnlySpinningDelays(bits: int, pc: Pc)
    requires InMethod(pc)
    ensures var now := Access(bits, pc).1;
      || Left(now) < Left(pc)
      || (now == pc && (pc == TryLock(true) || pc == TryLockUpgrade(true) || pc == TryPromote(true)))
      || (now == TryLockShared(true) && pc == UndoShared(true))
    ensures Left(pc) > 0
  {
    hide Low, Wrap, SetUpgraded, ClearLow;
  }

  lemma StepRecords(s: State, thread: nat)
    requires Recorded(s) && thread < |s.threads|
    ensures Recorded(Next(s, Step(thread)))
  {
    var was, now, r := s.threads[thread], Access(s.bits, s.threads[thread]).1, s.record;
    AccessGoesOn(s.bits, was, r.phases[thread]);
    var result := if Refused(was, now) then 1 else 0;
    if Ends(was, now) {
      EffectKeeps(r, thread, result);
      EndKeeps(r.Effect(thread, result), thread, result);
    }
    hide Access, Ends, Refused, Doing, HoldsAfter, r.Valid;
  }

  lemma CallRecords(s: State, thread: nat, m: Method)
    requires Recorded(s) && thread < |s.threads|
    ensures Recorded(Next(s, Call(thread, m)))
  {
    assert Doing(s.threads[thread], s.record.phases[thread]);
    BeginKeeps(s.record, thread, m);
  }

  lemma {:induction false} RunRecorded(count: nat, actions: seq<Action>)
    ensures |Run(count, actions).threads| == count && Recorded(Run(count, actions))
    decreases |actions|
  {
    if actions != [] {
      var s, a := Run(count, actions[..|actions| - 1]), actions[|actions| - 1];
      RunRecorded(count, actions[..|actions| - 1]);
      hide Recorded;
      if a.thread < |s.threads| {
        match a
        case Call(thread, m) => CallRecords(s, thread, m);
        case Step(thread) => StepRecords(s, thread);
      }
      hide Access, Enter, Noted;
    }
  }

  /** Each of the ten methods is called only by a thread that holds what it gives up, and when it is over the
      thread holds what the method is for; the history has the call and the return. */
  lemma MethodsTakeAndGive(count: nat, actions: seq<Action>, a: Action)
    requires a.thread < count
    ensures |Run(count, actions).threads| == count
    ensures var s := Run(count, actions);
      var n := Next(s, a);
      && |n.threads| == count == |s.record.phases|
      && (a.Call? ==> if HoldsBefore(a.m, s.threads[a.thread])
                      then InMethod(n.threads[a.thread]) && Began(s.record, n.record, a.m) else n == s)
      && (a.Step? && InMethod(s.threads[a.thread]) ==>
            s.record.phases[a.thread].Before? && Returned(s.record, n.record, a.thread, n.threads[a.thread]))
  {
    RunRecorded(count, actions);
    hide Run;
    var s := Run(count, actions);
    StepReturns(s, a);
  }

  /** The history goes on with the call. */
  predicate Began(was: Record<Method, int>, now: Record<Method, int>, m: Method) {
    now.history == was.history + [Invoke(|was.history|, m)]
  }

  /** The thread is still in its method, or the history goes on with its return and it holds what that means. */
  predicate Returned(was: Record<Method, int>, now: Record<Method, int>, thread: nat, pc: Pc)
    requires thread < |was.phases| && was.phases[thread].Before?
  {
    if InMethod(pc) then now.history == was.history
    else
      |now.history| > 0 &&
      var last := now.history[|now.history| - 1];
      && last.Response? && now.history == was.history + [Response(was.phases[thread].id, last.result)]
      && HoldsAfter(was.phases[thread].op, last.result, pc)
  }

  lemma StepReturns(s: State, a: Action)
    requires Recorded(s) && a.thread < |s.threads|
    ensures var n := Next(s, a);
      && |n.threads| == |s.threads|
      && (a.Call? ==> if HoldsBefore(a.m, s.threads[a.thread])
                      then InMethod(n.threads[a.thread]) && Began(s.record, n.record, a.m) else n == s)
      && (a.Step? && InMethod(s.threads[a.thread]) ==>
            s.record.phases[a.thread].Before? && Returned(s.record, n.record, a.thread, n.threads[a.thread]))
  {
    assert Doing(s.threads[a.thread], s.record.phases[a.thread]);
    AccessGoesOn(s.bits, s.threads[a.thread], s.record.phases[a.thread]);
    hide Low, Wrap, ClearLow, Access, Refused, HoldsAfter, Recorded, Goes;
  }

  // ---- Against the sequential lock ----

  /** The sequential lock: -1 for a writer, else the number of readers; a method that must wait returns 1. */
  function Apply(locked: int, m: Method): (int, int) {
    match m
    case Lock(_) => if locked != 0 then (locked, 1) else (-1, 0)
    case UnlockLock => (0, 0)
    case LockShared(_) => if locked == -1 then (locked, 1) else (locked + 1, 0)
    case UnlockSharedLock => (locked - 1, 0)
    case _ => (locked, 0)
  }

  const SHARED: Sequential<int, Method, int> := Sequential(0, Apply)

  /** The methods of the sequential lock: the locking ones try until they succeed. */
  predicate IsShared(a: Action) {
    a.Call? ==> a.m == Lock(true) || a.m == LockShared(true) || a.m == UnlockLock || a.m == UnlockSharedLock
  }

  /** The thread is in one of these methods or in none. */
  predicate Matches(pc: Pc, phase: Phase<Method, int>) {
    Doing(pc, phase) && !pc.Upgrader? && (phase.Before? ==> IsShared(Call(0, phase.op)))
  }

  function Locked(t: Totals): int {
    if t.write == 1 then -1 else t.read
  }

  ghost predicate SharedInv(s: State) {
    && Inv(s)
    && s.record.Valid()
    && |s.record.phases| == |s.threads|
    && (forall k :: 0 <= k < |s.threads| ==> Matches(s.threads[k], s.record.phases[k]))
    && StateAfter(SHARED, s.record.log) == Locked(TotalsOf(s))
    && Explains(SHARED, s.record.log)
  }

  /** An access changes what is held only by an effect, and then as the sequential lock does, with result 0. */
  lemma AccessIsSequential(bits: int, t: Totals, pc: Pc, phase: Phase<Method, int>)
    requires Agree(bits, t) && t.upgrade == 0 && Matches(pc, phase)
    requires Part(pc).read <= t.read && Part(pc).write <= t.write
    ensures var now := Access(bits, pc).1;
      && Locked(Moved(t, pc, now)) == (if Ends(pc, now) then Apply(Locked(t), phase.op).0 else Locked(t))
      && (Ends(pc, now) ==> Apply(Locked(t), phase.op).1 == 0)
  {
    hide Low, Wrap, SetUpgraded, ClearLow, Word, Access, Agree, Part, Matches, Moved, Ends;
    WritersAlone(bits, t);
    NotUpgrader(pc, phase);
    AccessIsExact(bits, t, pc);
    var now := Access(bits, pc).1;
    var m := Moved(t, pc, now);
    MovedBy(t, pc, now);
    Kinds(bits, pc, phase);
    match pc
    case TryLock(_) =>
    case TryLockShared(_) =>
    case UnlockShared => assert t.write == 0;
    case Unlock => assert t.write == 1;
    case _ => assert m.read == t.read && m.write == t.write;
  }

  lemma WritersAlone(bits: int, t: Totals)
    requires Agree(bits, t)
    ensures 0 <= t.read <= t.counted
    ensures t.write == 0 || (t.write == 1 && t.read == 0)
  {
    hide Low, Word;
  }

  lemma NotUpgrader(pc: Pc, phase: Phase<Method, int>)
    requires Matches(pc, phase)
    ensures !HoldsUpgrade(pc)
  {
  }

  lemma MovedBy(t: Totals, was: Pc, now: Pc)
    ensures Moved(t, was, now).read - t.read == Part(now).read - Part(was).read
    ensures Moved(t, was, now).write - t.write == Part(now).write - Part(was).write
  {
    hide Part;
  }

  /** What the accesses of the four methods take and give. */
  lemma Kinds(bits: int, pc: Pc, phase: Phase<Method, int>)
    requires Matches(pc, phase)
    ensures var now := Access(bits, pc).1;
      && Part(now).read - Part(pc).read ==
         (if pc.TryLockShared? && now.Reader? then 1 else if pc.UnlockShared? then -1 else 0)
      && Part(now).write - Part(pc).write == (if pc.TryLock? && now.Writer? then 1 else if pc.Unlock? then -1 else 0)
      && (pc.UnlockShared? ==> Part(pc).read == 1)
      && (pc.Unlock? ==> Part(pc).write == 1)
      && Matches(now, if Ends(pc, now) then Outside else phase)
      && (Ends(pc, now) ==> phase.Before?)
      && match pc
         case TryLock(_) => phase.Before? && phase.op == Lock(true) && (Ends(pc, now) <==> now.Writer?)
         case TryLockShared(_) => phase.Before? && phase.op == LockShared(true) && (Ends(pc, now) <==> now.Reader?)
         case Unlock => phase.Before? && phase.op == UnlockLock && Ends(pc, now)
         case UnlockShared => phase.Before? && phase.op == UnlockSharedLock && Ends(pc, now)
         case _ => !Ends(pc, now)
  {
    hide Low, Wrap, SetUpgraded, ClearLow;
  }

  lemma StepKeepsRecord(s: State, thread: nat)
    requires SharedInv(s) && thread < |s.threads|
    ensures var n, now := Next(s, Step(thread)), Access(s.bits, s.threads[thread]).1;
      && n.record.Valid()
      && |n.record.phases| == |n.threads|
      && (forall k :: 0 <= k < |n.threads| ==> Matches(n.threads[k], n.record.phases[k]))
      && n.record.log ==
         if Ends(s.threads[thread], now) then
           s.record.log + [Entry(s.record.phases[thread].Id(), OpOf(s.record.phases[thread]), 0)]
         else s.record.log
  {
    var was, r, phase := s.threads[thread], s.record, s.record.phases[thread];
    Kinds(s.bits, was, phase);
    if phase.Before? {
      EffectKeeps(r, thread, 0);
      EndKeeps(r.Effect(thread, 0), thread, 0);
    }
    hide Inv, Access, Ends, Matches, Explains, StateAfter, r.Valid;
  }

  function OpOf(phase: Phase<Method, int>): Method {
    if phase.Outside? then UnlockLock else phase.op
  }

  lemma StepKeepsShared(s: State, thread: nat)
    requires SharedInv(s) && thread < |s.threads| && FitsCounter(|s.threads|)
    ensures SharedInv(Next(s, Step(thread)))
  {
    var n, was, phase := Next(s, Step(thread)), s.threads[thread], s.record.phases[thread];
    StepKeepsInv(s, thread);
    StepKeepsRecord(s, thread);
    NoUpgraders(s);
    CountsAtLeast(s, thread);
    AccessIsSequential(s.bits, TotalsOf(s), was, phase);
    Kinds(s.bits, was, phase);
    TotalsAfter(s, n, thread, n.threads[thread]);
    OneMoreEntry(SHARED, s.record.log, Entry(phase.Id(), OpOf(phase), 0));
    hide Inv, Access, Ends, Matches, TotalsOf, Locked, Moved, Apply, StateAfter, Explains;
  }

  lemma NoUpgraders(s: State)
    requires SharedInv(s)
    ensures TotalsOf(s).upgrade == 0
  {
    AnyOf(s);
    forall k | 0 <= k < |s.threads| ensures !HoldsUpgrade(s.threads[k]) {
      assert Matches(s.threads[k], s.record.phases[k]);
    }
  }

  lemma CallKeepsShared(s: State, thread: nat, m: Method)
    requires SharedInv(s) && thread < |s.threads| && IsShared(Call(thread, m))
    ensures SharedInv(Next(s, Call(thread, m)))
  {
    var n := Next(s, Call(thread, m));
    assert Matches(s.threads[thread], s.record.phases[thread]);
    CallKeepsInv(s, thread, m);
    TotalsAfter(s, n, thread, n.threads[thread]);
    BeginKeeps(s.record, thread, m);
    hide Inv, StateAfter, Explains;
  }

  /** In a run of the methods the sequential lock has, the history is linearizable to it. */
  lemma LinearizesToSharedMutex(count: nat, actions: seq<Action>)
    requires FitsCounter(count) && forall a <- actions :: IsShared(a)
    ensures var s := Run(count, actions);
      WellFormed(s.record.history) && Linearization(SHARED, s.record.history, s.record.log)
  {
    RunShared(count, actions);
    LogLinearizes(SHARED, Run(count, actions).record);
    hide Run, Inv;
  }

  lemma {:induction false} RunShared(count: nat, actions: seq<Action>)
    requires FitsCounter(count) && forall a <- actions :: IsShared(a)
    ensures |Run(count, actions).threads| == count && SharedInv(Run(count, actions))
    decreases |actions|
  {
    hide SharedInv, Next;
    if actions == [] {
      InitialShared(count);
    } else {
      RunShared(count, actions[..|actions| - 1]);
      RunInv(count, actions);
      var s, a := Run(count, actions[..|actions| - 1]), actions[|actions| - 1];
      NextKeepsShared(s, a);
    }
  }

  lemma NextKeepsShared(s: State, a: Action)
    requires SharedInv(s) && FitsCounter(|s.threads|) && IsShared(a)
    ensures SharedInv(Next(s, a))
  {
    hide SharedInv, Access, Enter;
    if a.thread < |s.threads| {
      match a
      case Call(thread, m) => CallKeepsShared(s, thread, m);
      case Step(thread) => StepKeepsShared(s, thread);
    }
  }

  lemma InitialShared(count: nat)
    ensures SharedInv(Initial(count))
  {
    InitialInv(count);
    NoneOf(Initial(count));
    hide Inv, TotalsOf;
  }

  /** The history of a run consists of its calls and its returns. */
  lemma HistoryIsCallsAndReturns(s: State, a: Action)
    requires SharedInv(s) && a.thread < |s.threads| && IsShared(a)
    ensures var n := Next(s, a);
      && |n.threads| == |s.threads|
      && var was, now := s.threads[a.thread], n.threads[a.thread];
         n.record.history ==
           if InMethod(now) && !InMethod(was) then s.record.history + [Invoke(|s.record.history|, a.m)]
           else if InMethod(was) && !InMethod(now) then
             s.record.history + [Response(s.record.phases[a.thread].Id(), 0)]
           else s.record.history
  {
    assert Matches(s.threads[a.thread], s.record.phases[a.thread]);
    hide SharedInv, Low, Wrap, ClearLow;
  }
}
