/** Concurrent histories, sequential specifications, and what it means for a
    history to be linearizable. Nothing here mentions how a checker works. */
module Histories {

  // The state of a specification object, a method's arguments and a return value are arbitrary.
  type State(!new)
  type Args(!new)
  type Value(!new)

  /** The slot that holds a task: the thread it belongs to and its position in that thread. */
  datatype TaskRef = TaskRef(thread: nat, index: nat)

  /** Events refer to a task's slot, so what they say about it depends on the slot's content. */
  datatype Event =
    | Invoke(task: TaskRef)
    | Response(task: TaskRef, result: Value)

  type History = seq<Event>

  /** What a checker reads from a task. */
  datatype Call = Call(name: string, args: Args, ret: Value)

  type Table = map<TaskRef, Call>

  /** A sequential specification object: its methods are total and deterministic.
      `same` is how return values are compared; `hash` and `equal` drive the fast checker's cache. */
  datatype Spec = Spec(
    first: State,
    apply: (State, string, Args) -> (State, Value),
    same: (Value, Value) -> bool,
    hash: State -> int,
    equal: (State, State) -> bool)

  /** The only thing asked of a cache's equality: it never identifies two different states.
      An equality that is always false qualifies. */
  ghost predicate SoundEquality(spec: Spec) {
    forall a, b :: spec.equal(a, b) ==> a == b
  }

  /** Every task has one invoke and at most one response, which comes later. */
  ghost predicate WellFormed(h: History, table: Table) {
    && (forall i :: 0 <= i < |h| ==> h[i].task in table)
    && (forall i, j :: 0 <= i < j < |h| && h[i].task == h[j].task ==> h[i].Invoke? && h[j].Response?)
    && (forall r :: 0 <= r < |h| && h[r].Response? ==> exists i :: Answers(h, i, r))
  }

  lemma EventsInTable(h: History, table: Table)
    requires WellFormed(h, table)
    ensures forall i :: 0 <= i < |h| ==> h[i].task in table
  {
  }

  ghost predicate Answers(h: History, i: int, r: int) {
    && 0 <= i < r < |h|
    && h[i].Invoke?
    && h[r].Response?
    && h[i].task == h[r].task
  }

  /** An operation is identified by the position of its invoke event. */
  predicate Operation(h: History, i: int) {
    0 <= i < |h| && h[i].Invoke?
  }

  ghost predicate Completed(h: History, i: int) {
    exists r :: Answers(h, i, r)
  }

  /** Real-time precedence: the first operation responds before the second is invoked. */
  ghost predicate Precedes(h: History, i: int, j: int) {
    exists r :: Answers(h, i, r) && r < j
  }

  function Outcome(spec: Spec, table: Table, h: History, i: int, s: State): (State, Value)
    requires Operation(h, i) && h[i].task in table
  {
    var call := table[h[i].task];
    spec.apply(s, call.name, call.args)
  }

  ghost predicate Operations(h: History, order: seq<nat>) {
    forall k :: 0 <= k < |order| ==> Operation(h, order[k])
  }

  ghost predicate Distinct(order: seq<nat>) {
    forall a, b :: 0 <= a < b < |order| ==> order[a] != order[b]
  }

  ghost predicate RespectsRealTime(h: History, order: seq<nat>) {
    forall a, b :: 0 <= a < b < |order| ==> !Precedes(h, order[b], order[a])
  }

  /** Executed in this order from `s`, the specification reproduces every recorded result. */
  ghost predicate Explains(spec: Spec, table: Table, h: History, order: seq<nat>, s: State)
    requires forall i :: 0 <= i < |h| ==> h[i].task in table
    requires Operations(h, order)
  {
    order == [] ||
    var (next, v) := Outcome(spec, table, h, order[0], s);
    && (Completed(h, order[0]) ==> spec.same(v, table[h[order[0]].task].ret))
    && assert forall k :: 0 <= k < |order[1..]| ==> order[1..][k] == order[k + 1];
       Explains(spec, table, h, order[1..], next)
  }

  /** The textbook notion: completed operations all take effect, pending ones may be dropped. */
  ghost predicate Linearization(spec: Spec, table: Table, h: History, order: seq<nat>)
    requires forall i :: 0 <= i < |h| ==> h[i].task in table
  {
    && Operations(h, order)
    && Distinct(order)
    && (forall i :: Completed(h, i) ==> i in order)
    && RespectsRealTime(h, order)
    && Explains(spec, table, h, order, spec.first)
  }

  ghost predicate Linearizable(spec: Spec, table: Table, h: History)
    requires forall i :: 0 <= i < |h| ==> h[i].task in table
  {
    exists order :: Linearization(spec, table, h, order)
  }
}
