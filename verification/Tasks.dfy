/** Tasks as deterministic step machines over a shared target object. */
module Tasks {
  import opened Histories

  type Shared(!new)
  type Local(!new)

  datatype Option<+T> = None | Some(value: T)

  /** `step` runs a task to its next yield; `fuel` bounds how often that can happen before it
      returns, and `bound` bounds the fuel of every fresh task. `unset` is a return value not yet set. */
  datatype Target = Target(
    reset: Shared,
    start: (string, Args) -> Local,
    step: (Shared, Local) -> (Shared, Local),
    returned: Local -> Option<Value>,
    unset: Value,
    fuel: Local -> nat,
    bound: nat)
  {
    ghost predicate Valid() {
      && (forall g, l :: returned(l).None? ==> fuel(step(g, l).1) < fuel(l))
      && (forall name, args :: fuel(start(name, args)) <= bound)
      && (forall name, args :: returned(start(name, args)).None?)
    }
  }

  datatype Builder = Builder(name: string, args: nat -> Args)

  datatype Task = Task(id: int, name: string, args: Args, local: Local)

  type Threads = seq<seq<Task>>

  function Returned(target: Target, task: Task): bool {
    target.returned(task.local).Some?
  }

  function Build(target: Target, builder: Builder, thread: nat, id: int): Task {
    var args := builder.args(thread);
    Task(id, builder.name, args, target.start(builder.name, args))
  }

  /** The task is what the constructor makes for the thread. */
  ghost predicate MadeBy(task: Task, builder: Builder, thread: nat) {
    task.name == builder.name && task.args == builder.args(thread)
  }

  /** Every task is made by one of the constructors for its own thread. */
  ghost predicate AllMade(builders: seq<Builder>, threads: Threads) {
    forall ref :: InThreads(threads, ref) ==> Made(builders, TaskAt(threads, ref), ref.thread)
  }

  ghost predicate Made(builders: seq<Builder>, task: Task, thread: nat) {
    exists b :: 0 <= b < |builders| && MadeBy(task, builders[b], thread)
  }

  lemma SameShapeMade(builders: seq<Builder>, a: Threads, b: Threads)
    requires SameShape(a, b) && AllMade(builders, a)
    ensures AllMade(builders, b)
  {
    forall ref | InThreads(b, ref) ensures Made(builders, TaskAt(b, ref), ref.thread) {
      assert ShapeOf(a[ref.thread][ref.index]) == ShapeOf(b[ref.thread][ref.index]);
      assert Made(builders, TaskAt(a, ref), ref.thread);
      var i :| 0 <= i < |builders| && MadeBy(TaskAt(a, ref), builders[i], ref.thread);
      assert MadeBy(TaskAt(b, ref), builders[i], ref.thread);
    }
  }

  /** The task as it was built. */
  function Renewed(target: Target, task: Task): Task {
    task.(local := target.start(task.name, task.args))
  }

  /** Only a task that has returned may be restarted. */
  function Restart(target: Target, task: Task): Task
    requires Returned(target, task)
  {
    Renewed(target, task)
  }

  /** The thread's last task has not returned. */
  predicate Busy(target: Target, thread: seq<Task>) {
    thread != [] && !Returned(target, thread[|thread| - 1])
  }

  /** Everything about a task that running it never changes. */
  datatype Shape = Shape(id: int, name: string, args: Args)

  function ShapeOf(task: Task): Shape {
    Shape(task.id, task.name, task.args)
  }

  ghost predicate SameShape(a: Threads, b: Threads) {
    && |a| == |b|
    && (forall t :: 0 <= t < |a| ==> |a[t]| == |b[t]|)
    && (forall t, i :: 0 <= t < |a| && 0 <= i < |a[t]| ==> ShapeOf(a[t][i]) == ShapeOf(b[t][i]))
  }

  lemma SameShapeReflexive(a: Threads)
    ensures SameShape(a, a)
  {
  }

  lemma SameShapeTransitive(a: Threads, b: Threads, c: Threads)
    requires SameShape(a, b) && SameShape(b, c)
    ensures SameShape(a, c)
  {
  }

  lemma SameShapeSymmetric(a: Threads, b: Threads)
    requires SameShape(a, b)
    ensures SameShape(b, a)
  {
  }

  predicate InThreads(threads: Threads, ref: TaskRef) {
    ref.thread < |threads| && ref.index < |threads[ref.thread]|
  }

  function TaskAt(threads: Threads, ref: TaskRef): Task
    requires InThreads(threads, ref)
  {
    threads[ref.thread][ref.index]
  }

  function SetTask(threads: Threads, ref: TaskRef, task: Task): Threads
    requires InThreads(threads, ref)
  {
    threads[ref.thread := threads[ref.thread][ref.index := task]]
  }

  /** The slots of all tasks. */
  function Refs(threads: Threads): (refs: set<TaskRef>)
    ensures forall ref :: ref in refs <==> InThreads(threads, ref)
  {
    var refs := set t, i | 0 <= t < |threads| && 0 <= i < |threads[t]| :: TaskRef(t, i);
    assert forall ref :: InThreads(threads, ref) ==> ref == TaskRef(ref.thread, ref.index) && ref in refs;
    refs
  }

  function CallOf(target: Target, task: Task): Call {
    Call(task.name, task.args, if Returned(target, task) then target.returned(task.local).value else target.unset)
  }

  /** What a checker sees through the slots an event history refers to. */
  function TableOf(target: Target, threads: Threads): (table: Table)
    ensures forall ref :: ref in table <==> InThreads(threads, ref)
    ensures forall ref :: InThreads(threads, ref) ==> table[ref] == CallOf(target, TaskAt(threads, ref))
  {
    map ref | ref in Refs(threads) :: CallOf(target, TaskAt(threads, ref))
  }

  ghost function Sum(threads: Threads, f: seq<Task> -> nat): nat {
    if threads == [] then 0 else f(threads[0]) + Sum(threads[1..], f)
  }

  lemma {:induction false} SumUpdate(threads: Threads, f: seq<Task> -> nat, t: nat, thread: seq<Task>)
    requires t < |threads|
    ensures Sum(threads[t := thread], f) == Sum(threads, f) - f(threads[t]) + f(thread)
  {
    if t == 0 {
      assert threads[0 := thread][1..] == threads[1..];
    } else {
      assert threads[t := thread][1..] == threads[1..][t - 1 := thread];
      SumUpdate(threads[1..], f, t - 1, thread);
    }
  }

  lemma {:induction false} SumAtLeast(threads: Threads, f: seq<Task> -> nat, t: nat)
    requires t < |threads|
    ensures f(threads[t]) <= Sum(threads, f)
  {
    if t > 0 {
      SumAtLeast(threads[1..], f, t - 1);
    }
  }

  lemma SplitAt<T>(s: seq<T>, k: nat)
    requires k < |s|
    ensures s[..k + 1] == s[..k] + [s[k]]
    ensures s[k..] == [s[k]] + s[k + 1..]
    ensures s[..k + 1][..k] == s[..k]
    ensures s[k] in s
  {
  }

  lemma TakeAll<T>(s: seq<T>)
    ensures s[..|s|] == s
  {
  }
}
