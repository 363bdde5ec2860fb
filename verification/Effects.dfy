/** Objects whose methods take effect at one access: histories of their calls and returns, and
    what it means for an order of operations to linearize them. */
module Effects {

  /** An operation is named by the position of its invoke in the history. */
  datatype Event<Op, Res> = Invoke(id: nat, op: Op) | Response(id: nat, result: Res)

  /** An operation in a sequential execution. */
  datatype Entry<Op, Res> = Entry(id: nat, op: Op, result: Res)

  /** A sequential object with total methods. */
  datatype Sequential<!S, !Op, Res> = Sequential(first: S, apply: (S, Op) -> (S, Res))

  // ---- Linearizability ----

  /** Every invoke has its position as its id, and every response answers an earlier invoke, once. */
  ghost predicate WellFormed<Op, Res>(h: seq<Event<Op, Res>>) {
    && (forall i :: 0 <= i < |h| && h[i].Invoke? ==> h[i].id == i)
    && (forall i :: 0 <= i < |h| && h[i].Response? ==> h[i].id < i && h[h[i].id].Invoke?)
    && (forall i, j :: 0 <= i < j < |h| && h[i].Response? && h[j].Response? ==> h[i].id != h[j].id)
  }

  function StateAfter<S, Op, Res>(spec: Sequential<S, Op, Res>, order: seq<Entry<Op, Res>>): S {
    if order == [] then spec.first
    else spec.apply(StateAfter(spec, order[..|order| - 1]), order[|order| - 1].op).0
  }

  /** Every operation of the order returns what the sequential object returns at its place. */
  ghost predicate Explains<S, Op, Res>(spec: Sequential<S, Op, Res>, order: seq<Entry<Op, Res>>) {
    order != [] ==>
      var init, last := order[..|order| - 1], order[|order| - 1];
      Explains(spec, init) && last.result == spec.apply(StateAfter(spec, init), last.op).1
  }

  ghost predicate Distinct<Op, Res>(order: seq<Entry<Op, Res>>) {
    forall a, b :: 0 <= a < b < |order| ==> order[a].id != order[b].id
  }

  /** The entries are operations of the history. */
  ghost predicate Invoked<Op, Res>(h: seq<Event<Op, Res>>, order: seq<Entry<Op, Res>>) {
    forall e <- order :: e.id < |h| && h[e.id] == Invoke(e.id, e.op)
  }

  /** Every operation that returned is there, with the result it returned. */
  ghost predicate Complete<Op, Res>(h: seq<Event<Op, Res>>, order: seq<Entry<Op, Res>>) {
    forall i :: 0 <= i < |h| && h[i].Response? ==> exists e :: e in order && e.id == h[i].id && e.result == h[i].result
  }

  /** The first operation returned before the second was called. */
  ghost predicate Precedes<Op, Res>(h: seq<Event<Op, Res>>, first: nat, second: nat) {
    exists i :: 0 <= i < |h| && i < second && h[i].Response? && h[i].id == first
  }

  ghost predicate RespectsRealTime<Op, Res>(h: seq<Event<Op, Res>>, order: seq<Entry<Op, Res>>) {
    forall a, b :: 0 <= a < b < |order| ==> !Precedes(h, order[b].id, order[a].id)
  }

  /** Completed operations all take effect, pending ones may; each at most once, in an order that
      respects real time and that the sequential object reproduces. */
  ghost predicate Linearization<S, Op, Res>(spec: Sequential<S, Op, Res>, h: seq<Event<Op, Res>>,
                                            order: seq<Entry<Op, Res>>)
  {
    && Distinct(order)
    && Invoked(h, order)
    && Complete(h, order)
    && RespectsRealTime(h, order)
    && Explains(spec, order)
  }

  ghost predicate Linearizable<S, Op(!new), Res(!new)>(spec: Sequential<S, Op, Res>, h: seq<Event<Op, Res>>) {
    exists order :: Linearization(spec, h, order)
  }

  lemma OneMoreEntry<S, Op, Res>(spec: Sequential<S, Op, Res>, order: seq<Entry<Op, Res>>, e: Entry<Op, Res>)
    ensures StateAfter(spec, order + [e]) == spec.apply(StateAfter(spec, order), e.op).0
    ensures Explains(spec, order + [e]) <==>
      Explains(spec, order) && e.result == spec.apply(StateAfter(spec, order), e.op).1
  {
    assert (order + [e])[..|order + [e]| - 1] == order;
  }

  // ---- A run with its effects ----

  ghost predicate LogValid<Op, Res>(h: seq<Event<Op, Res>>, log: seq<Entry<Op, Res>>) {
    WellFormed(h) && Distinct(log) && Invoked(h, log) && Complete(h, log) && RespectsRealTime(h, log)
  }

  /** Where the operation of a thread is: not called, called, or called and in effect. */
  datatype Phase<Op, Res> = Outside | Before(id: nat, op: Op) | After(id: nat, op: Op, result: Res) {

    function Id(): nat { if Outside? then 0 else id }
  }

  /** The calls and returns of a run, the order of its effects, and the phase of each thread. */
  datatype Record<Op, Res> = Record(
    history: seq<Event<Op, Res>>,
    log: seq<Entry<Op, Res>>,
    phases: seq<Phase<Op, Res>>)
  {

    /** The thread calls a method. */
    function Begin(thread: nat, op: Op): Record<Op, Res> {
      if thread >= |phases| then this
      else this.(history := history + [Invoke(|history|, op)], phases := phases[thread := Before(|history|, op)])
    }

    /** The method takes effect, with a result. */
    function Effect(thread: nat, result: Res): Record<Op, Res> {
      if thread >= |phases| || !phases[thread].Before? then this
      else
        var id, op := phases[thread].id, phases[thread].op;
        this.(log := log + [Entry(id, op, result)], phases := phases[thread := After(id, op, result)])
    }

    /** The method returns, whether it took effect or not. */
    function End(thread: nat, result: Res): Record<Op, Res> {
      if thread >= |phases| || phases[thread].Outside? then this
      else this.(history := history + [Response(phases[thread].id, result)], phases := phases[thread := Outside])
    }

    /** The thread's operation is called, not yet answered, and in the log exactly if it is in effect. */
    ghost predicate Owns(thread: nat)
      requires thread < |phases|
    {
      match phases[thread]
      case Outside => true
      case Before(id, op) => Unanswered(id, op) && forall e <- log :: e.id != id
      case After(id, op, result) => Unanswered(id, op) && Entry(id, op, result) in log
    }

    ghost predicate Unanswered(id: nat, op: Op) {
      && id < |history| && history[id] == Invoke(id, op)
      && forall i :: 0 <= i < |history| && history[i].Response? ==> history[i].id != id
    }

    ghost predicate Apart(a: nat, b: nat)
      requires a < |phases| && b < |phases|
    {
      a != b && !phases[a].Outside? && !phases[b].Outside? ==> phases[a].id != phases[b].id
    }

    ghost predicate Valid() {
      && LogValid(history, log)
      && (forall k :: 0 <= k < |phases| ==> Owns(k))
      && (forall a, b :: 0 <= a < |phases| && 0 <= b < |phases| ==> Apart(a, b))
    }
  }

  /** Where an effect and a return take the operation of the thread. */
  lemma PhaseMoves<Op, Res>(r: Record<Op, Res>, thread: nat, result: Res)
    requires thread < |r.phases|
    ensures r.phases[thread].Before? ==>
      r.Effect(thread, result).phases ==
        r.phases[thread := After(r.phases[thread].id, r.phases[thread].op, result)]
    ensures r.phases[thread].After? ==> r.End(thread, result).phases == r.phases[thread := Outside]
  {
  }

  function NoRecord<Op, Res>(threads: nat): (r: Record<Op, Res>)
    ensures r.Valid() && |r.phases| == threads
  {
    Record([], [], seq(threads, (_: nat) => Outside))
  }

  /** The next event of a thread concerns no other thread's operation. */
  lemma OtherOwns<Op, Res>(r: Record<Op, Res>, n: Record<Op, Res>, event: Event<Op, Res>, thread: nat, k: nat)
    requires k < |r.phases| && thread < |r.phases| && k != thread && r.Owns(k) && r.Apart(k, thread)
    requires n.log == r.log && n.history == r.history + [event]
    requires |n.phases| == |r.phases| && n.phases[k] == r.phases[k]
    requires event.Response? ==> !r.phases[thread].Outside? && event.id == r.phases[thread].id
    ensures n.Owns(k)
  {
  }

  lemma BeginKeeps<Op, Res>(r: Record<Op, Res>, thread: nat, op: Op)
    requires r.Valid() && thread < |r.phases|
    ensures r.Begin(thread, op).Valid()
  {
    var n := r.Begin(thread, op);
    LogKept(r, n, n.history[|r.history|]);
    assert n.Owns(thread);
    forall k | 0 <= k < |n.phases| && k != thread ensures n.Owns(k) {
      assert r.Owns(k) && r.Apart(k, thread);
      OtherOwns(r, n, n.history[|r.history|], thread, k);
    }
    forall k | 0 <= k < |n.phases| ensures n.Apart(k, thread) && n.Apart(thread, k) {
      assert r.Owns(k);
    }
    OthersApart(r, n, thread);
  }

  /** An event that adds a call, or the answer of an operation in the log, keeps the log a linearization. */
  lemma LogKept<Op, Res>(r: Record<Op, Res>, n: Record<Op, Res>, event: Event<Op, Res>)
    requires LogValid(r.history, r.log) && n.log == r.log && n.history == r.history + [event]
    requires event.Invoke? ==> event.id == |r.history|
    requires event.Response? ==> exists e :: e in r.log && e.id == event.id && e.result == event.result
    requires event.Response? ==> event.id < |r.history| && r.history[event.id].Invoke?
    requires event.Response? ==> forall i :: 0 <= i < |r.history| && r.history[i].Response? ==>
      r.history[i].id != event.id
    ensures LogValid(n.history, n.log)
  {
    assert forall i :: 0 <= i < |r.history| ==> n.history[i] == r.history[i];
    forall i | 0 <= i < |n.history| && n.history[i].Response?
      ensures exists e :: e in n.log && e.id == n.history[i].id && e.result == n.history[i].result
    {
    }
    forall a, b | 0 <= a < b < |n.log| ensures !Precedes(n.history, n.log[b].id, n.log[a].id) {
      assert n.log[a] in r.log;
      assert !Precedes(r.history, r.log[b].id, r.log[a].id);
    }
  }

  lemma OthersApart<Op, Res>(r: Record<Op, Res>, n: Record<Op, Res>, thread: nat)
    requires thread < |r.phases| == |n.phases| && n.phases == r.phases[thread := n.phases[thread]]
    requires forall a, b :: 0 <= a < |r.phases| && 0 <= b < |r.phases| ==> r.Apart(a, b)
    requires forall k :: 0 <= k < |n.phases| ==> n.Apart(k, thread) && n.Apart(thread, k)
    ensures forall a, b :: 0 <= a < |n.phases| && 0 <= b < |n.phases| ==> n.Apart(a, b)
  {
    forall a, b | 0 <= a < |n.phases| && 0 <= b < |n.phases| ensures n.Apart(a, b) {
      if a != thread && b != thread { assert r.Apart(a, b); }
    }
  }

  lemma EffectKeeps<Op, Res>(r: Record<Op, Res>, thread: nat, result: Res)
    requires r.Valid() && thread < |r.phases| && r.phases[thread].Before?
    ensures r.Effect(thread, result).Valid()
  {
    var n, id := r.Effect(thread, result), r.phases[thread].id;
    var e := n.log[|r.log|];
    assert r.Owns(thread);
    LogGrown(r.history, r.log, e);
    assert e in n.log;
    forall k | 0 <= k < |n.phases| && k != thread ensures n.Owns(k) {
      assert r.Owns(k) && r.Apart(k, thread);
      forall x | x in r.log ensures x in n.log { }
    }
    forall k | 0 <= k < |n.phases| ensures n.Apart(k, thread) && n.Apart(thread, k) {
      assert r.Apart(k, thread);
    }
    OthersApart(r, n, thread);
  }

  /** An operation called and not yet answered may be put last. */
  lemma LogGrown<Op, Res>(h: seq<Event<Op, Res>>, log: seq<Entry<Op, Res>>, e: Entry<Op, Res>)
    requires LogValid(h, log)
    requires e.id < |h| && h[e.id] == Invoke(e.id, e.op) && forall x <- log :: x.id != e.id
    requires forall i :: 0 <= i < |h| && h[i].Response? ==> h[i].id != e.id
    ensures LogValid(h, log + [e])
  {
    var longer := log + [e];
    forall i | 0 <= i < |h| && h[i].Response?
      ensures exists x :: x in longer && x.id == h[i].id && x.result == h[i].result
    {
      var x :| x in log && x.id == h[i].id && x.result == h[i].result;
      assert x in longer;
    }
    forall a, b | 0 <= a < b < |longer| ensures longer[a].id != longer[b].id {
      assert longer[a] in log;
    }
    forall a, b | 0 <= a < b < |longer| ensures !Precedes(h, longer[b].id, longer[a].id) {
      if b < |log| { assert !Precedes(h, log[b].id, log[a].id); }
    }
  }

  lemma EndKeeps<Op, Res>(r: Record<Op, Res>, thread: nat, result: Res)
    requires r.Valid() && thread < |r.phases|
    requires r.phases[thread].After? && r.phases[thread].result == result
    ensures r.End(thread, result).Valid()
  {
    var n := r.End(thread, result);
    assert r.Owns(thread);
    LogKept(r, n, n.history[|r.history|]);
    forall k | 0 <= k < |n.phases| && k != thread ensures n.Owns(k) {
      assert r.Owns(k) && r.Apart(k, thread);
      OtherOwns(r, n, n.history[|r.history|], thread, k);
    }
    OthersApart(r, n, thread);
  }

  /** A run whose methods return only what took effect, in an order the object explains, is linearizable. */
  lemma LogLinearizes<S, Op(!new), Res(!new)>(spec: Sequential<S, Op, Res>, r: Record<Op, Res>)
    requires r.Valid() && Explains(spec, r.log)
    ensures WellFormed(r.history) && Linearization(spec, r.history, r.log) && Linearizable(spec, r.history)
  {
    assert Linearization(spec, r.history, r.log);
  }
}
