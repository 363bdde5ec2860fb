/** What linearizability means for a history without overlap: the specification object, run through the calls
    in order, returns what was recorded. */
module SequentialHistories {
  import opened Histories

  /** The position of the invoke of the `i`-th operation. */
  function Pos(i: nat): nat { i + i }

  /** `k` operations, each answered before the next is called. */
  ghost predicate OneByOne(h: History, table: Table, k: nat) {
    && WellFormed(h, table)
    && |h| == Pos(k)
    && forall i: nat :: Pos(i) < |h| ==>
         h[Pos(i)].Invoke? && h[Pos(i) + 1].Response? && h[Pos(i) + 1].task == h[Pos(i)].task
  }

  /** The states of the specification object: the first one, and the one after each call. */
  ghost predicate States(spec: Spec, table: Table, h: History, k: nat, states: seq<State>)
    requires OneByOne(h, table, k)
  {
    && |states| == k + 1
    && states[0] == spec.first
    && forall i: nat :: i < k ==>
         states[i + 1] == spec.apply(states[i], table[h[Pos(i)].task].name, table[h[Pos(i)].task].args).0
  }

  /** There are such states for every history. */
  lemma {:induction false} StatesExist(spec: Spec, table: Table, h: History, k: nat, n: nat)
    returns (states: seq<State>)
    requires OneByOne(h, table, k) && n <= k
    ensures |states| == n + 1 && states[0] == spec.first
    ensures forall i: nat :: i < n ==>
      states[i + 1] == spec.apply(states[i], table[h[Pos(i)].task].name, table[h[Pos(i)].task].args).0
  {
    if n == 0 {
      states := [spec.first];
    } else {
      states := StatesExist(spec, table, h, k, n - 1);
      var call := table[h[Pos(n - 1)].task];
      states := states + [spec.apply(states[n - 1], call.name, call.args).0];
    }
  }

  /** The call returned what the object returns in its state. */
  ghost predicate Agrees(spec: Spec, table: Table, h: History, k: nat, states: seq<State>, i: nat)
    requires OneByOne(h, table, k) && States(spec, table, h, k, states) && i < k
  {
    var call := table[h[Pos(i)].task];
    spec.same(spec.apply(states[i], call.name, call.args).1, call.ret)
  }

  lemma AllCompleted(h: History, table: Table, k: nat, i: nat)
    requires OneByOne(h, table, k) && i < k
    ensures Completed(h, Pos(i)) && forall j: nat :: i < j ==> Precedes(h, Pos(i), Pos(j))
  {
    assert Answers(h, Pos(i), Pos(i) + 1);
  }

  /** The operation at a position. */
  lemma OperationAt(h: History, table: Table, k: nat, p: int) returns (i: nat)
    requires OneByOne(h, table, k) && Operation(h, p)
    ensures i < k && p == Pos(i)
  {
    i := p / 2;
    assert Pos(i) < |h|;
  }

  /** The invokes from the `i`-th on, in order. */
  ghost function From(i: nat, k: nat): (order: seq<nat>)
    requires i <= k
    ensures |order| == k - i && forall j :: 0 <= j < |order| ==> order[j] == Pos(i + j)
    decreases k - i
  {
    if i == k then [] else [Pos(i)] + From(i + 1, k)
  }

  ghost predicate AgreesFrom(spec: Spec, table: Table, h: History, k: nat, states: seq<State>, i: nat)
    requires OneByOne(h, table, k) && States(spec, table, h, k, states)
  {
    forall j: nat :: i <= j < k ==> Agrees(spec, table, h, k, states, j)
  }

  lemma AgreesFirst(spec: Spec, table: Table, h: History, k: nat, states: seq<State>, i: nat)
    requires OneByOne(h, table, k) && States(spec, table, h, k, states) && i < k
    ensures AgreesFrom(spec, table, h, k, states, i) <==>
      Agrees(spec, table, h, k, states, i) && AgreesFrom(spec, table, h, k, states, i + 1)
  {
    hide Agrees, OneByOne, States;
  }

  /** Along the calls the order explains exactly the agreeing results. */
  lemma {:induction false} ExplainsFrom(spec: Spec, table: Table, h: History, k: nat, states: seq<State>, i: nat)
    requires OneByOne(h, table, k) && States(spec, table, h, k, states) && i <= k
    ensures Operations(h, From(i, k))
    ensures Explains(spec, table, h, From(i, k), states[i]) <==> AgreesFrom(spec, table, h, k, states, i)
    decreases k - i
  {
    hide Agrees, OneByOne, WellFormed, Completed, Operation;
    assert |states| == k + 1;
    if i < k {
      hide AgreesFrom, Explains, States, Operations, From;
      ExplainsFrom(spec, table, h, k, states, i + 1);
      ExplainsFirst(spec, table, h, k, states, i);
      AgreesFirst(spec, table, h, k, states, i);
    }
  }

  lemma ExplainsFirst(spec: Spec, table: Table, h: History, k: nat, states: seq<State>, i: nat)
    requires OneByOne(h, table, k) && States(spec, table, h, k, states) && i < k
    requires Operations(h, From(i + 1, k))
    ensures Operations(h, From(i, k))
    ensures Explains(spec, table, h, From(i, k), states[i]) <==>
      Agrees(spec, table, h, k, states, i) && Explains(spec, table, h, From(i + 1, k), states[i + 1])
  {
    var order := From(i, k);
    AllCompleted(h, table, k, i);
    assert order[1..] == From(i + 1, k);
    forall j | 0 <= j < |order| ensures Operation(h, order[j]) {
      assert Pos(i + j) < |h|;
    }
    assert states[i + 1] == spec.apply(states[i], table[h[Pos(i)].task].name, table[h[Pos(i)].task].args).0;
    hide From, WellFormed, Completed;
  }

  /** Only one order respects real time. */
  lemma OnlyOrder(spec: Spec, table: Table, h: History, k: nat, order: seq<nat>)
    requires OneByOne(h, table, k) && Linearization(spec, table, h, order)
    ensures order == From(0, k)
  {
    forall a, b | 0 <= a < b < |order| ensures order[a] < order[b] {
      var i := OperationAt(h, table, k, order[a]);
      var j := OperationAt(h, table, k, order[b]);
      AllCompleted(h, table, k, j);
      assert !Precedes(h, order[b], order[a]);
    }
    forall a: nat | a < |order| ensures a < k && order[a] >= Pos(a) {
      AtLeast(h, table, k, order, a);
    }
    forall a: nat | a < k ensures a < |order| && order[a] == Pos(a) {
      AtPlace(h, table, k, order, a);
    }
    if |order| > 0 { AtLeast(h, table, k, order, |order| - 1); }
    if k > 0 { AtPlace(h, table, k, order, k - 1); }
    assert |order| == k;
  }

  lemma {:induction false} AtLeast(h: History, table: Table, k: nat, order: seq<nat>, a: nat)
    requires OneByOne(h, table, k) && Operations(h, order) && a < |order|
    requires forall i, j :: 0 <= i < j < |order| ==> order[i] < order[j]
    ensures a < k && order[a] >= Pos(a)
  {
    var i := OperationAt(h, table, k, order[a]);
    if a > 0 {
      AtLeast(h, table, k, order, a - 1);
      var j := OperationAt(h, table, k, order[a - 1]);
    }
  }

  lemma {:induction false} AtPlace(h: History, table: Table, k: nat, order: seq<nat>, a: nat)
    requires OneByOne(h, table, k) && Operations(h, order) && a < k
    requires forall i :: Completed(h, i) ==> i in order
    requires forall i: nat :: i < |order| ==> order[i] >= Pos(i)
    ensures a < |order| && order[a] == Pos(a)
  {
    AllCompleted(h, table, k, a);
    var p :| 0 <= p < |order| && order[p] == Pos(a);
    assert order[p] >= Pos(p);
    if p < a { AtPlace(h, table, k, order, p); }
  }

  /** A history without overlap is linearizable if and only if the specification object, run through its calls
      from the first state, returns every recorded result. */
  lemma SequentialVerdict(spec: Spec, table: Table, h: History, k: nat, states: seq<State>)
    requires OneByOne(h, table, k) && States(spec, table, h, k, states)
    ensures Linearizable(spec, table, h) <==>
      forall i: nat :: i < k ==>
        spec.same(spec.apply(states[i], table[h[Pos(i)].task].name, table[h[Pos(i)].task].args).1,
                  table[h[Pos(i)].task].ret)
  {
    var order := From(0, k);
    ExplainsFrom(spec, table, h, k, states, 0);
    assert forall i: nat :: i < k ==>
      (Agrees(spec, table, h, k, states, i) <==>
        spec.same(spec.apply(states[i], table[h[Pos(i)].task].name, table[h[Pos(i)].task].args).1,
                  table[h[Pos(i)].task].ret));
    if Linearizable(spec, table, h) {
      var other :| Linearization(spec, table, h, other);
      OnlyOrder(spec, table, h, k, other);
      assert forall i: nat :: i < k ==> Agrees(spec, table, h, k, states, i);
    }
    if forall i: nat :: i < k ==> Agrees(spec, table, h, k, states, i) {
      forall p | Completed(h, p) ensures p in order {
        var i := OperationAt(h, table, k, p);
        assert order[i] == p;
      }
      assert Linearization(spec, table, h, order);
    }
  }

  // ---- Any history ----

  /** The specification object, run through the calls in this order, goes through these states and returns
      whatever was answered. */
  ghost predicate Runs(spec: Spec, table: Table, h: History, order: seq<nat>, states: seq<State>) {
    && |states| == |order| + 1
    && forall k: nat :: k < |order| ==> RunsCall(spec, table, h, order[k], states[k], states[k + 1])
  }

  ghost predicate RunsCall(spec: Spec, table: Table, h: History, p: nat, before: State, after: State) {
    && p < |h| && h[p].Invoke? && h[p].task in table
    && var call := table[h[p].task];
       && after == spec.apply(before, call.name, call.args).0
       && forall r :: p < r < |h| && h[r].Response? && h[r].task == h[p].task ==>
            spec.same(spec.apply(before, call.name, call.args).1, call.ret)
  }

  /** Every answered call is in the order, no call twice, and none before one that was answered before it was made. */
  ghost predicate Orders(h: History, order: seq<nat>) {
    && (forall a, b :: 0 <= a < b < |order| ==> order[a] != order[b])
    && (forall p: nat, r: nat :: p < r < |h| && h[p].Invoke? && h[r].Response? && h[r].task == h[p].task ==> p in order)
    && (forall a, b, r: nat :: (0 <= a < b < |order| && order[b] < r < |h| && h[order[b]].Invoke? && h[r].Response?
                                && h[r].task == h[order[b]].task) ==> order[a] <= r)
  }

  lemma OneCall(spec: Spec, table: Table, h: History, p: nat, before: State, after: State)
    requires WellFormed(h, table)
    ensures RunsCall(spec, table, h, p, before, after) <==>
      && Operation(h, p) && after == Outcome(spec, table, h, p, before).0
      && (Completed(h, p) ==> spec.same(Outcome(spec, table, h, p, before).1, table[h[p].task].ret))
  {
    if Operation(h, p) {
      forall r | p < r < |h| && h[r].Response? && h[r].task == h[p].task ensures Completed(h, p) {
        assert Answers(h, p, r);
      }
      if Completed(h, p) {
        var r :| Answers(h, p, r);
        assert h[r].Response? && h[r].task == h[p].task;
      }
    }
  }

  lemma {:induction false} RunsExplains(spec: Spec, table: Table, h: History, order: seq<nat>, states: seq<State>)
    requires WellFormed(h, table) && Runs(spec, table, h, order, states)
    ensures Operations(h, order) && Explains(spec, table, h, order, states[0])
  {
    if order != [] {
      assert RunsCall(spec, table, h, order[0], states[0], states[1]);
      OneCall(spec, table, h, order[0], states[0], states[1]);
      forall k: nat | k < |order[1..]|
        ensures RunsCall(spec, table, h, order[1..][k], states[1..][k], states[1..][k + 1])
      {
        assert RunsCall(spec, table, h, order[k + 1], states[k + 1], states[k + 2]);
      }
      hide RunsCall;
      RunsExplains(spec, table, h, order[1..], states[1..]);
    }
  }

  lemma {:induction false} ExplainsRuns(spec: Spec, table: Table, h: History, order: seq<nat>, s: State)
    returns (states: seq<State>)
    requires WellFormed(h, table) && Operations(h, order) && Explains(spec, table, h, order, s)
    ensures Runs(spec, table, h, order, states) && states[0] == s
  {
    if order == [] {
      states := [s];
    } else {
      var next := Outcome(spec, table, h, order[0], s).0;
      assert forall k :: 0 <= k < |order[1..]| ==> order[1..][k] == order[k + 1];
      var rest := ExplainsRuns(spec, table, h, order[1..], next);
      states := [s] + rest;
      OneCall(spec, table, h, order[0], s, next);
      hide RunsCall;
      forall k: nat | k < |order| ensures RunsCall(spec, table, h, order[k], states[k], states[k + 1]) {
        if k > 0 { assert RunsCall(spec, table, h, order[1..][k - 1], rest[k - 1], rest[k]); }
      }
    }
  }

  lemma OrdersMeans(h: History, table: Table, order: seq<nat>)
    requires WellFormed(h, table) && Operations(h, order)
    ensures Orders(h, order) <==>
      Distinct(order) && (forall p :: Completed(h, p) ==> p in order) && RespectsRealTime(h, order)
  {
    forall p, r | Answers(h, p, r) ensures Completed(h, p) { }
    if Orders(h, order) {
      forall p | Completed(h, p) ensures p in order {
        var r :| Answers(h, p, r);
      }
      forall a, b | 0 <= a < b < |order| ensures !Precedes(h, order[b], order[a]) {
      }
    }
    if Distinct(order) && (forall p :: Completed(h, p) ==> p in order) && RespectsRealTime(h, order) {
      forall p: nat, r: nat | p < r < |h| && h[p].Invoke? && h[r].Response? && h[r].task == h[p].task
        ensures p in order
      {
        assert Answers(h, p, r);
      }
      forall a, b, r: nat | 0 <= a < b < |order| && order[b] < r < |h|
                            && h[r].Response? && h[r].task == h[order[b]].task
        ensures order[a] <= r
      {
        assert Answers(h, order[b], r) && !Precedes(h, order[b], order[a]);
      }
    }
  }

  /** A history is linearizable if and only if the specification object can be run, from its first state, through
      an order of calls that contains every answered one and keeps those apart that did not overlap, so that it
      returns every answer: over the events and the object alone. */
  lemma LinearizableMeans(spec: Spec, table: Table, h: History)
    requires WellFormed(h, table)
    ensures Linearizable(spec, table, h) <==>
      exists order, states ::
        Runs(spec, table, h, order, states) && states != [] && states[0] == spec.first && Orders(h, order)
  {
    hide RunsCall, Orders, Explains, RespectsRealTime;
    if Linearizable(spec, table, h) {
      var order :| Linearization(spec, table, h, order);
      OrdersMeans(h, table, order);
      var states := ExplainsRuns(spec, table, h, order, spec.first);
      assert states != [];
      assert Runs(spec, table, h, order, states) && states[0] == spec.first && Orders(h, order);
    }
    if order, states :|
      Runs(spec, table, h, order, states) && states != [] && states[0] == spec.first && Orders(h, order)
    {
      RunsExplains(spec, table, h, order, states);
      OrdersMeans(h, table, order);
      assert Linearization(spec, table, h, order);
    }
  }
}
