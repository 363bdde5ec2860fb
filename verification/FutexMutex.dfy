/** The verifier that keeps each thread to the order lock, unlock, lock. */
module MutexVerifier {

  datatype Method = Lock | Unlock

  /** The status of a thread the verifier has not seen is 0. */
  function StatusOf(status: map<nat, nat>, thread: nat): nat {
    if thread in status then status[thread] else 0
  }

  /** A thread may lock unless it has locked, and unlock only when it has. */
  predicate Admits(status: map<nat, nat>, m: Method, isNew: bool, thread: nat) {
    isNew ==> StatusOf(status, thread) == if m == Lock then 0 else 1
  }

  function Seen(status: map<nat, nat>, isNew: bool, thread: nat): (after: map<nat, nat>) {
    if isNew && thread !in status then status[thread := 0] else status
  }

  function Finished(status: map<nat, nat>, m: Method, thread: nat): (after: map<nat, nat>) {
    status[thread := if m == Lock then 1 else 0]
  }

  /** The number that the status of every thread stays within, and exactly one new method is admitted. */
  lemma AdmitsExactlyOne(status: map<nat, nat>, thread: nat)
    requires StatusOf(status, thread) <= 1
    ensures Admits(status, Lock, true, thread) <==> !Admits(status, Unlock, true, thread)
  {
  }

  class Verifier {
    var status: map<nat, nat>

    constructor ()
      ensures status == map[]
    {
      status := map[];
    }

    method Verify(m: Method, isNew: bool, thread: nat) returns (ok: bool)
      modifies this
      ensures ok == Admits(old(status), m, isNew, thread)
      ensures status == Seen(old(status), isNew, thread)
      ensures forall t :: StatusOf(status, t) == StatusOf(old(status), t)
    {
      if !isNew {
        return true;
      }
      if thread !in status {
        status := status[thread := 0];
      }
      match m
      case Lock => ok := status[thread] == 0;
      case Unlock => ok := status[thread] == 1;
    }

    method OnFinished(m: Method, thread: nat)
      modifies this
      ensures status == Finished(old(status), m, thread)
      ensures Admits(status, Unlock, true, thread) <==> m == Lock
      ensures Admits(status, Lock, true, thread) <==> m == Unlock
      ensures forall t :: t != thread ==> StatusOf(status, t) == StatusOf(old(status), t)
    {
      match m
      case Lock => status := status[thread := 1];
      case Unlock => status := status[thread := 0];
    }

    method Reset()
      modifies this
      ensures status == map[]
    {
      status := map[];
    }
  }
}

/** The futex mutex under the runtime: one atomic access or system call per step, any number of
    threads, new methods admitted by the verifier. */
module FutexMutex {
  import opened Effects
  import opened MutexVerifier

  /** What a thread does next. `Waiting` is inside the wait; `armed` until the runtime
      has seen that the word changed. `Idle` and `Owner` are between methods. */
  datatype Pc =
    | Idle
    | CasFast
    | CasSlow
    | CasMark
    | Load
    | CallWait
    | Waiting(armed: bool)
    | LockReturn
    | Owner
    | FetchSub
    | StoreZero
    | CallWake
    | UnlockReturn

  /** A call, and the thread that makes it. */
  datatype Op = Op(m: Method, thread: nat)

  /** `record` holds the history and the order in which methods take effect. */
  datatype State = State(locked: int, threads: seq<Pc>, status: map<nat, nat>, record: Record<Op, int>)

  /** The strategy offers a thread a new method, polls whether it is blocked, or resumes it. */
  datatype Action = Create(thread: nat, m: Method) | Poll(thread: nat) | Step(thread: nat)

  predicate Between(pc: Pc) { pc.Idle? || pc.Owner? }

  function Initial(count: nat): State {
    State(0, seq(count, (_: nat) => Idle), map[], NoRecord(count))
  }

  /** The runtime does not resume a waiting thread while the word is still the expected one. */
  predicate Blocked(s: State, thread: nat)
    requires thread < |s.threads|
  {
    s.threads[thread] == Waiting(true) && s.locked == 2
  }

  function Goto(s: State, thread: nat, pc: Pc): State
    requires thread < |s.threads|
  {
    s.(threads := s.threads[thread := pc])
  }

  function Next(s: State, a: Action): State {
    if a.thread >= |s.threads| then s
    else
      match a
      case Create(thread, m) =>
        if !Between(s.threads[thread]) then s
        else
          var seen := s.(status := Seen(s.status, true, thread));
          if !Admits(s.status, m, true, thread) then seen
          else
            var called := seen.(record := s.record.Begin(thread, Op(m, thread)));
            Goto(called, thread, if m == Lock then CasFast else FetchSub)
      case Poll(thread) =>
        if s.threads[thread].Waiting? && s.locked != 2 then Goto(s, thread, Waiting(false)) else s
      case Step(thread) => if Blocked(s, thread) then s else Access(s, thread)
  }

  /** One access, system call or return: the new word and where the thread is next. */
  function Move(locked: int, pc: Pc): (int, Pc) {
    match pc
    case Idle => (locked, pc)
    case Owner => (locked, pc)
    case CasFast => if locked == 0 then (1, LockReturn) else (locked, CasSlow)
    case CasSlow => if locked == 0 then (2, LockReturn) else (locked, CasMark)
    case CasMark => (if locked == 1 then 2 else locked, if locked > 0 then Load else CasSlow)
    case Load => (locked, if locked == 2 then CallWait else CasSlow)
    case CallWait => (locked, Waiting(true))
    case Waiting(_) => (locked, Load)
    case LockReturn => (locked, Owner)
    case FetchSub => if locked == 1 then (0, UnlockReturn) else (locked - 1, StoreZero)
    case StoreZero => (0, CallWake)
    case CallWake => (locked, UnlockReturn)
    case UnlockReturn => (locked, Idle)
  }

  /** The access by which a lock takes effect. */
  predicate Takes(was: Pc, now: Pc) {
    (was.CasFast? || was.CasSlow?) && now.LockReturn?
  }

  /** The access by which an unlock takes effect. */
  predicate Gives(was: Pc, now: Pc) {
    (was.FetchSub? && now.UnlockReturn?) || (was.StoreZero? && now.CallWake?)
  }

  /** What the step means for the record; every method returns 0. */
  function Noted(r: Record<Op, int>, thread: nat, was: Pc, now: Pc): Record<Op, int> {
    if Takes(was, now) || Gives(was, now) then r.Effect(thread, 0)
    else if was.LockReturn? || was.UnlockReturn? then r.End(thread, 0)
    else r
  }

  function Access(s: State, thread: nat): (n: State)
    requires thread < |s.threads|
    ensures |n.threads| == |s.threads|
  {
    var was := s.threads[thread];
    var (locked, now) := Move(s.locked, was);
    var status :=
      if was.LockReturn? then Finished(s.status, Lock, thread)
      else if was.UnlockReturn? then Finished(s.status, Unlock, thread)
      else s.status;
    State(locked, s.threads[thread := now], status, Noted(s.record, thread, was, now))
  }

  function Run(count: nat, actions: seq<Action>): State {
    if actions == [] then Initial(count)
    else Next(Run(count, actions[..|actions| - 1]), actions[|actions| - 1])
  }

  // ---- The invariant ----

  /** From the access that takes the lock to the one that gives it back. */
  predicate Holds(pc: Pc) { pc.LockReturn? || pc.Owner? || pc.FetchSub? || pc.StoreZero? }

  /** The verifier has seen the thread's last method finish as a lock. */
  predicate HasLocked(pc: Pc) { pc.Owner? || pc.FetchSub? || pc.StoreZero? || pc.CallWake? || pc.UnlockReturn? }

  type Log = seq<Entry<Op, int>>

  /** The last effect was this thread's lock. */
  predicate OwnerIs(log: Log, thread: nat) {
    log != [] && log[|log| - 1].op == Op(Lock, thread)
  }

  /** The sequential mutex: whether it is locked after the operation and what the operation returns. */
  function Apply(isLocked: bool, op: Op): (bool, int) {
    match op.m
    case Lock => if isLocked then (isLocked, 1) else (true, 0)
    case Unlock => (false, 0)
  }

  const MUTEX: Sequential<bool, Op, int> := Sequential(false, Apply)

  function LockedAfter(log: Log): bool {
    StateAfter(MUTEX, log)
  }

  /** In the sequential mutex every operation of the log returns what it returned, and only the thread
      that locked unlocks. */
  ghost predicate Replays(log: Log) {
    && Explains(MUTEX, log)
    && forall k :: 0 <= k < |log| && log[k].op.m == Unlock ==> OwnerIs(log[..k], log[k].op.thread)
  }

  /** An operation takes effect between its call and its return, and returns 0. */
  predicate Matches(pc: Pc, phase: Phase<Op, int>, thread: nat) {
    match pc
    case Idle => phase.Outside?
    case Owner => phase.Outside?
    case LockReturn => phase.After? && phase.op == Op(Lock, thread) && phase.result == 0
    case FetchSub => phase.Before? && phase.op == Op(Unlock, thread)
    case StoreZero => phase.Before? && phase.op == Op(Unlock, thread)
    case CallWake => phase.After? && phase.op == Op(Unlock, thread) && phase.result == 0
    case UnlockReturn => phase.After? && phase.op == Op(Unlock, thread) && phase.result == 0
    case _ => phase.Before? && phase.op == Op(Lock, thread)
  }

  ghost predicate ThreadInv(s: State, thread: nat)
    requires thread < |s.threads| == |s.record.phases|
  {
    && Matches(s.threads[thread], s.record.phases[thread], thread)
    && (Holds(s.threads[thread]) <==> OwnerIs(s.record.log, thread))
    && StatusOf(s.status, thread) == (if HasLocked(s.threads[thread]) then 1 else 0)
  }

  /** The word tells whether the mutex is locked, by one of the threads. */
  ghost predicate WordInv(locked: int, log: Log, count: nat) {
    && 0 <= locked <= 2
    && (locked != 0 <==> LockedAfter(log))
    && (LockedAfter(log) ==> log != [] && log[|log| - 1].op.m == Lock && log[|log| - 1].op.thread < count)
    && Replays(log)
  }

  ghost predicate Inv(s: State) {
    && |s.threads| == |s.record.phases|
    && WordInv(s.locked, s.record.log, |s.threads|)
    && s.record.Valid()
    && forall k :: 0 <= k < |s.threads| ==> ThreadInv(s, k)
  }

  lemma Logged(log: Log, e: Entry<Op, int>)
    ensures LockedAfter(log + [e]) == Apply(LockedAfter(log), e.op).0
    ensures
      Replays(log) && e.result == Apply(LockedAfter(log), e.op).1 && (e.op.m == Unlock ==> OwnerIs(log, e.op.thread))
      ==> Replays(log + [e])
    ensures forall k :: OwnerIs(log + [e], k) <==> e.op == Op(Lock, k)
  {
    OneMoreEntry(MUTEX, log, e);
    var longer := log + [e];
    assert longer[..|log|] == log;
    assert forall k :: 0 <= k < |log| ==> longer[..k] == log[..k] && longer[k] == log[k];
    hide StateAfter, Explains;
  }

  lemma OwnerMeansLocked(log: Log, thread: nat)
    ensures OwnerIs(log, thread) ==> LockedAfter(log)
  {
  }

  /** The entry by which the thread's operation takes effect. */
  function EffectOf(s: State, thread: nat, m: Method): Entry<Op, int>
    requires thread < |s.record.phases|
  {
    Entry(s.record.phases[thread].Id(), Op(m, thread), 0)
  }

  /** Only a free mutex is taken, and only its owner frees it. */
  lemma EffectIsLegal(s: State, thread: nat)
    requires Inv(s) && thread < |s.threads|
    ensures var n := Access(s, thread);
      var holds, log := Holds(n.threads[thread]), s.record.log;
      && n.threads == s.threads[thread := n.threads[thread]]
      && 0 <= n.locked <= 2
      && (|| (n.record.log == log && (n.locked == 0 <==> s.locked == 0) && holds == OwnerIs(log, thread))
          || (n.record.log == log + [EffectOf(s, thread, Lock)] && !LockedAfter(log) && n.locked != 0 && holds)
          || (n.record.log == log + [EffectOf(s, thread, Unlock)] && OwnerIs(log, thread) && n.locked == 0 && !holds))
  {
    assert ThreadInv(s, thread);
    hide LockedAfter, Replays, OwnerIs, StatusOf;
    OwnerMeansLocked(s.record.log, thread);
  }

  lemma StatusFollows(s: State, thread: nat)
    requires Inv(s) && thread < |s.threads|
    ensures var n := Access(s, thread);
      && (forall k :: k != thread ==> StatusOf(n.status, k) == StatusOf(s.status, k))
      && StatusOf(n.status, thread) == if HasLocked(n.threads[thread]) then 1 else 0
  {
    assert ThreadInv(s, thread);
    hide LockedAfter, Replays, OwnerIs;
  }

  /** A step that is neither an effect nor a return keeps the operation where it is. */
  lemma MoveMatches(locked: int, was: Pc, phase: Phase<Op, int>, thread: nat)
    requires Matches(was, phase, thread)
    ensures var now := Move(locked, was).1;
      if Takes(was, now) || Gives(was, now) then
        phase.Before? && Matches(now, After(phase.id, phase.op, 0), thread)
      else if was.LockReturn? || was.UnlockReturn? then
        phase.After? && phase.result == 0 && Matches(now, Outside, thread)
      else
        Matches(now, phase, thread)
  {
  }

  lemma RecordFollows(s: State, thread: nat)
    requires Inv(s) && thread < |s.threads|
    ensures var n := Access(s, thread);
      && n.record.Valid()
      && |n.record.phases| == |s.threads|
      && n.record.phases == s.record.phases[thread := n.record.phases[thread]]
      && Matches(n.threads[thread], n.record.phases[thread], thread)
  {
    assert ThreadInv(s, thread);
    var r, phase := s.record, s.record.phases[thread];
    MoveMatches(s.locked, s.threads[thread], phase, thread);
    PhaseMoves(r, thread, 0);
    if phase.Before? { EffectKeeps(r, thread, 0); }
    if phase.After? && phase.result == 0 { EndKeeps(r, thread, 0); }
    hide Move, Matches, Takes, Gives, ThreadInv, WordInv, r.Valid, r.Effect, r.End;
  }

  lemma AccessKeepsOwn(s: State, thread: nat)
    requires Inv(s) && thread < |s.threads|
    ensures |Access(s, thread).record.phases| == |s.threads| && ThreadInv(Access(s, thread), thread)
  {
    EffectIsLegal(s, thread);
    StatusFollows(s, thread);
    RecordFollows(s, thread);
    Logged(s.record.log, EffectOf(s, thread, Lock));
    Logged(s.record.log, EffectOf(s, thread, Unlock));
    hide LockedAfter, Replays, Inv, OwnerIs, Access, Holds, HasLocked, StatusOf, Matches;
  }

  lemma AccessKeepsOther(s: State, thread: nat, k: nat)
    requires Inv(s) && thread < |s.threads| && k < |s.threads| && k != thread
    ensures |Access(s, thread).record.phases| == |s.threads| && ThreadInv(Access(s, thread), k)
  {
    EffectIsLegal(s, thread);
    StatusFollows(s, thread);
    RecordFollows(s, thread);
    assert ThreadInv(s, k);
    OwnerMeansLocked(s.record.log, k);
    Logged(s.record.log, EffectOf(s, thread, Lock));
    Logged(s.record.log, EffectOf(s, thread, Unlock));
    hide LockedAfter, Replays, Inv, Access, Holds, HasLocked, StatusOf, Matches;
  }

  lemma AccessKeepsWord(s: State, thread: nat)
    requires Inv(s) && thread < |s.threads|
    ensures var n := Access(s, thread); WordInv(n.locked, n.record.log, |s.threads|)
  {
    EffectIsLegal(s, thread);
    Logged(s.record.log, EffectOf(s, thread, Lock));
    Logged(s.record.log, EffectOf(s, thread, Unlock));
    OwnerMeansLocked(s.record.log, thread);
    hide LockedAfter, Replays, Access, Holds, OwnerIs;
  }

  lemma AccessKeepsInv(s: State, thread: nat)
    requires Inv(s) && thread < |s.threads|
    ensures Inv(Access(s, thread))
  {
    hide Access, LockedAfter, Replays, ThreadInv, WordInv;
    AccessKeepsWord(s, thread);
    RecordFollows(s, thread);
    EffectIsLegal(s, thread);
    AccessKeepsOwn(s, thread);
    forall k | 0 <= k < |s.threads| && k != thread ensures ThreadInv(Access(s, thread), k) {
      AccessKeepsOther(s, thread, k);
    }
  }

  lemma CreateKeepsInv(s: State, thread: nat, m: Method)
    requires Inv(s) && thread < |s.threads|
    ensures Inv(Next(s, Create(thread, m)))
  {
    var n := Next(s, Create(thread, m));
    assert ThreadInv(s, thread);
    BeginKeeps(s.record, thread, Op(m, thread));
    hide LockedAfter, Replays, OwnerIs, WordInv;
    forall k | 0 <= k < |n.threads| ensures ThreadInv(n, k) {
      assert ThreadInv(s, k);
    }
  }

  lemma NextKeepsInv(s: State, a: Action)
    requires Inv(s)
    ensures Inv(Next(s, a)) && |Next(s, a).threads| == |s.threads|
  {
    hide Access, LockedAfter, Replays, WordInv;
    if a.thread < |s.threads| {
      match a
      case Create(thread, m) => CreateKeepsInv(s, thread, m);
      case Step(thread) => AccessKeepsInv(s, thread);
      case Poll(thread) =>
        var n := Next(s, a);
        forall k | 0 <= k < |n.threads| ensures ThreadInv(n, k) {
          assert ThreadInv(s, k);
        }
    }
  }

  lemma {:induction false} RunInv(count: nat, actions: seq<Action>)
    ensures Inv(Run(count, actions)) && |Run(count, actions).threads| == count
    decreases |actions|
  {
    if actions == [] {
      var s := Initial(count);
      assert forall k :: 0 <= k < count ==> ThreadInv(s, k);
    } else {
      RunInv(count, actions[..|actions| - 1]);
      NextKeepsInv(Run(count, actions[..|actions| - 1]), actions[|actions| - 1]);
      hide Inv, Next;
    }
  }

  // ---- What the mutex promises ----

  /** At most one thread holds the mutex, and the word is 0 exactly when none does, the window
      inside an unlock included. */
  lemma MutualExclusion(count: nat, actions: seq<Action>)
    ensures var s := Run(count, actions);
      && (forall j, k :: 0 <= j < k < |s.threads| ==> !Holds(s.threads[j]) || !Holds(s.threads[k]))
      && (s.locked == 0 <==> forall k :: 0 <= k < |s.threads| ==> !Holds(s.threads[k]))
  {
    RunInv(count, actions);
    var s := Run(count, actions);
    hide Run, LockedAfter, Replays;
    forall k | 0 <= k < |s.threads|
      ensures Holds(s.threads[k]) ==> s.locked != 0 && s.record.log[|s.record.log| - 1].op == Op(Lock, k)
    {
      assert ThreadInv(s, k);
      OwnerMeansLocked(s.record.log, k);
    }
    if s.locked != 0 {
      assert ThreadInv(s, s.record.log[|s.record.log| - 1].op.thread);
    }
  }

  /** The exchanges of a lock take the mutex exactly when no thread holds it, the first one with 1 and the later
      ones with 2; no other access of a lock does. */
  lemma LocksAreExact(count: nat, actions: seq<Action>, thread: nat)
    requires thread < count
    ensures |Run(count, actions).threads| == count
    ensures var s := Run(count, actions);
      var was, n := s.threads[thread], Access(s, thread);
      && (was.CasFast? || was.CasSlow? ==>
            (Holds(n.threads[thread]) <==> forall k :: 0 <= k < count ==> !Holds(s.threads[k])))
      && (!Holds(was) && Holds(n.threads[thread]) ==>
            (was.CasFast? && n.locked == 1) || (was.CasSlow? && n.locked == 2))
  {
    RunInv(count, actions);
    MutualExclusion(count, actions);
    hide Run, Inv, Noted;
  }

  /** The thread is in a lock and has not taken the mutex yet. */
  predicate Locking(pc: Pc) { !Between(pc) && !Holds(pc) && !pc.CallWake? && !pc.UnlockReturn? }

  /** The accesses it needs to take a mutex that stays free. */
  function ToTake(pc: Pc): (n: nat)
    ensures n <= 4
  {
    match pc
    case CasFast => 1
    case CasSlow => 1
    case CasMark => 2
    case Load => 2
    case Waiting(_) => 3
    case CallWait => 4
    case _ => 0
  }

  /** While the mutex is free each access of a lock takes it or brings the thread nearer to taking it, so a lock
      takes a mutex that stays free within four accesses. */
  lemma LockTakesFree(s: State, thread: nat)
    requires thread < |s.threads| && Locking(s.threads[thread]) && s.locked == 0
    ensures var n := Next(s, Step(thread));
      && |n.threads| == |s.threads| && 0 < ToTake(s.threads[thread])
      && (Holds(n.threads[thread])
          || (n.locked == 0 && Locking(n.threads[thread]) && ToTake(n.threads[thread]) < ToTake(s.threads[thread])))
      && (ToTake(s.threads[thread]) == 1 ==> Holds(n.threads[thread]))
  {
    hide Noted;
  }

  /** The accesses a lock that took the mutex, or an unlock, has before it. */
  function ToReturn(pc: Pc): (n: nat)
    ensures n <= 4
  {
    match pc
    case LockReturn => 1
    case FetchSub => 4
    case StoreZero => 3
    case CallWake => 2
    case UnlockReturn => 1
    case _ => 0
  }

  /** Nothing delays an unlock, or a lock that took the mutex: each access brings it nearer to its return. */
  lemma NothingDelaysReturns(s: State, thread: nat)
    requires thread < |s.threads| && !Between(s.threads[thread]) && !Locking(s.threads[thread])
    ensures var n := Next(s, Step(thread));
      && |n.threads| == |s.threads|
      && ToReturn(n.threads[thread]) < ToReturn(s.threads[thread])
      && (ToReturn(n.threads[thread]) == 0 <==> Between(n.threads[thread]))
      && !Locking(n.threads[thread])
  {
    hide Noted;
  }

  // ---- The order of effects ----

  /** Locks and unlocks alternate, each thread unlocks what it locked, and all return 0. */
  ghost predicate Alternates(log: Log) {
    forall k :: 0 <= k < |log| ==> Alternate(log, k)
  }

  ghost predicate Alternate(log: Log, k: nat)
    requires k < |log|
  {
    && log[k].result == 0
    && (log[k].op.m == Lock <==> k == 0 || log[k - 1].op.m == Unlock)
    && (log[k].op.m == Unlock ==> log[k - 1].op == Op(Lock, log[k].op.thread))
  }

  lemma LockedIsLast(log: Log)
    ensures LockedAfter(log) <==> log != [] && log[|log| - 1].op.m == Lock
  {
  }

  lemma OneMoreAlternates(log: Log, e: Entry<Op, int>)
    requires Alternates(log) && e.result == 0
    requires if e.op.m == Lock then !LockedAfter(log) else OwnerIs(log, e.op.thread)
    ensures Alternates(log + [e])
  {
    LockedIsLast(log);
    var longer := log + [e];
    forall k | 0 <= k < |longer| ensures Alternate(longer, k) {
      if k < |log| { assert Alternate(log, k); }
    }
  }

  /** In the order of effects locks and unlocks alternate, each thread unlocks what it locked, and all return 0. */
  lemma {:induction false} LogAlternates(count: nat, actions: seq<Action>)
    ensures Alternates(Run(count, actions).record.log)
    decreases |actions|
  {
    if actions != [] {
      var init, a := Run(count, actions[..|actions| - 1]), actions[|actions| - 1];
      LogAlternates(count, actions[..|actions| - 1]);
      RunInv(count, actions[..|actions| - 1]);
      if a.thread < |init.threads| && a.Step? {
        EffectIsLegal(init, a.thread);
        hide Run, Inv, Alternates, Access, LockedAfter, OwnerIs, Holds;
        var e, f := EffectOf(init, a.thread, Lock), EffectOf(init, a.thread, Unlock);
        var log := init.record.log;
        if !LockedAfter(log) { OneMoreAlternates(log, e); }
        if OwnerIs(log, a.thread) { OneMoreAlternates(log, f); }
      } else {
        hide Inv, Alternates, Access;
      }
    }
  }

  /** A thread between methods may start exactly one: unlock if it owns the mutex, lock otherwise. */
  lemma {:induction false} OneMethodAdmitted(count: nat, actions: seq<Action>, thread: nat)
    requires thread < count
    ensures |Run(count, actions).threads| == count
    ensures var s := Run(count, actions);
      Between(s.threads[thread]) ==>
        && (Admits(s.status, Unlock, true, thread) <==> Holds(s.threads[thread]))
        && (Admits(s.status, Lock, true, thread) <==> !Holds(s.threads[thread]))
  {
    RunInv(count, actions);
    assert ThreadInv(Run(count, actions), thread);
  }

  /** The history is linearizable to the sequential mutex by the order of effects, in which each thread
      unlocks what it locked; the word tells whether that mutex is locked. */
  lemma LinearizesToMutex(count: nat, actions: seq<Action>)
    ensures var s := Run(count, actions);
      && WellFormed(s.record.history)
      && Linearization(MUTEX, s.record.history, s.record.log)
      && Replays(s.record.log)
      && (LockedAfter(s.record.log) <==> s.locked != 0)
  {
    RunInv(count, actions);
    hide Run, LockedAfter;
    LogLinearizes(MUTEX, Run(count, actions).record);
  }

  /** A method takes effect once, after its call and before its return. */
  lemma EffectsAreInside(s: State, a: Action)
    requires Inv(s) && a.thread < |s.threads|
    ensures var n := Next(s, a);
      var was, now := s.threads[a.thread], n.threads[a.thread];
      && |n.threads| == |s.threads|
      && (n.record.log != s.record.log <==> Takes(was, now) || Gives(was, now))
      && (now.Owner? ==> was.Owner? || was.LockReturn?)
      && (now.Idle? ==> was.Idle? || was.UnlockReturn?)
  {
    assert ThreadInv(s, a.thread);
    hide Inv;
  }

  /** The history of a run consists of its calls and returns; every method returns 0. */
  lemma HistoryIsCallsAndReturns(s: State, a: Action)
    requires Inv(s) && a.thread < |s.threads|
    ensures var n := Next(s, a);
      var was, now := s.threads[a.thread], n.threads[a.thread];
      && |n.threads| == |s.threads|
      && n.record.history ==
         if Between(was) && !Between(now) then
           s.record.history + [Invoke(|s.record.history|, Op(if now.CasFast? then Lock else Unlock, a.thread))]
         else if !Between(was) && Between(now) then
           s.record.history + [Response(s.record.phases[a.thread].Id(), 0)]
         else s.record.history
  {
    assert ThreadInv(s, a.thread);
    hide Inv;
  }

  // ---- No deadlock ----

  /** What the strategy can do with a thread: resume it, or give it the method it may start. */
  function Advance(s: State, thread: nat): State
    requires thread < |s.threads|
  {
    if s.threads[thread].Owner? then Next(s, Create(thread, Unlock))
    else if s.threads[thread].Idle? then Next(s, Create(thread, Lock))
    else Next(s, Step(thread))
  }

  function Advances(s: State, thread: nat, count: nat): (n: State)
    requires thread < |s.threads|
    decreases count
  {
    if count == 0 || |Advance(s, thread).threads| != |s.threads| then s
    else Advances(Advance(s, thread), thread, count - 1)
  }

  lemma NextLeavesOthers(s: State, a: Action)
    requires a.thread < |s.threads|
    ensures OthersStay(s, Next(s, a), a.thread)
  {
    hide Move, Noted;
  }

  lemma HolderAdvances(s: State, thread: nat)
    requires Inv(s) && thread < |s.threads| && Holds(s.threads[thread])
    ensures !Blocked(s, thread)
    ensures var n := Advance(s, thread);
      && Inv(n) && OthersStay(s, n, thread)
      && (n.locked == 0 || (Holds(n.threads[thread]) && Left(n.threads[thread]) < Left(s.threads[thread])))
  {
    var a := if s.threads[thread].Owner? then Create(thread, Unlock) else Step(thread);
    NextKeepsInv(s, a);
    NextLeavesOthers(s, a);
    HolderMoves(s, thread);
    hide Inv, Next, Left, OthersStay;
  }

  lemma HolderMoves(s: State, thread: nat)
    requires Inv(s) && thread < |s.threads| && Holds(s.threads[thread])
    ensures var n := Advance(s, thread);
      && |n.threads| == |s.threads|
      && (n.locked == 0 || (Holds(n.threads[thread]) && Left(n.threads[thread]) < Left(s.threads[thread])))
  {
    assert ThreadInv(s, thread);
    OwnerMeansLocked(s.record.log, thread);
    assert s.locked != 0 && 0 <= s.locked <= 2;
    assert s.threads[thread].Owner? ==> Admits(s.status, Unlock, true, thread);
    hide Inv, ThreadInv, Noted, Admits, LockedAfter, Replays, Matches;
  }

  /** The steps a holder needs to give the mutex back. */
  function Left(pc: Pc): nat {
    match pc
    case LockReturn => 4
    case Owner => 3
    case FetchSub => 2
    case StoreZero => 1
    case _ => 0
  }

  lemma {:induction false} HolderReleases(s: State, thread: nat) returns (count: nat)
    requires Inv(s) && thread < |s.threads| && Holds(s.threads[thread])
    ensures count <= Left(s.threads[thread])
    ensures OthersStay(s, Advances(s, thread, count), thread) && Advances(s, thread, count).locked == 0
    decreases Left(s.threads[thread])
  {
    assert Left(s.threads[thread]) > 0;
    hide Inv, Advance, Advances, Holds, Left;
    HolderAdvances(s, thread);
    var n := Advance(s, thread);
    assert |n.threads| == |s.threads|;
    hide OthersStay;
    if n.locked == 0 {
      count := 1;
      AdvancesOn(s, thread, 0);
    } else {
      count := HolderReleases(n, thread);
      AdvancesOn(s, thread, count);
      OthersStayOn(s, n, Advances(n, thread, count), thread);
      count := count + 1;
    }
  }

  ghost predicate OthersStay(s: State, n: State, thread: nat) {
    |n.threads| == |s.threads| && forall k :: 0 <= k < |s.threads| && k != thread ==> n.threads[k] == s.threads[k]
  }

  lemma OthersStayOn(a: State, b: State, c: State, thread: nat)
    requires OthersStay(a, b, thread) && OthersStay(b, c, thread)
    ensures OthersStay(a, c, thread)
  {
  }

  lemma AdvancesOn(s: State, thread: nat, count: nat)
    requires thread < |s.threads| == |Advance(s, thread).threads|
    ensures Advances(s, thread, count + 1) == Advances(Advance(s, thread), thread, count)
    ensures count == 0 ==> Advances(s, thread, count + 1) == Advance(s, thread)
  {
    hide Advance;
  }

  /** While a thread is blocked another one holds the mutex and can move, and within four
      moves of its own it frees every blocked thread. */
  lemma BlockedIsFreed(count: nat, actions: seq<Action>, blocked: nat) returns (holder: nat, moves: nat)
    requires blocked < count && |Run(count, actions).threads| == count && Blocked(Run(count, actions), blocked)
    ensures var s := Run(count, actions);
      && holder < |s.threads| && holder != blocked && !Blocked(s, holder) && moves <= 4
      && Advances(s, holder, moves).locked == 0
      && forall k :: 0 <= k < |s.threads| ==>
           k < |Advances(s, holder, moves).threads| && !Blocked(Advances(s, holder, moves), k)
  {
    RunInv(count, actions);
    var s := Run(count, actions);
    holder := s.record.log[|s.record.log| - 1].op.thread;
    assert ThreadInv(s, holder);
    HolderAdvances(s, holder);
    moves := HolderReleases(s, holder);
  }
}
