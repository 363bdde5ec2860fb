/** The round-robin choice of a thread: a counter that only grows, whose remainder names the thread. */
module RoundRobin {
  import opened Remainders
  import opened Tasks

  /** Whether each thread is parked or blocked when a choice is made. */
  type Moment = seq<bool>

  /** The first count, of the next `attempts`, whose thread is not blocked. */
  function Choice(blocked: Moment, next: nat, attempts: nat): (c: Option<nat>)
    requires |blocked| > 0
    decreases attempts
    ensures c.Some? ==> next <= c.value < next + attempts && !blocked[c.value % |blocked|]
    ensures forall k :: next <= k < (if c.Some? then c.value else next + attempts) ==> blocked[k % |blocked|]
  {
    if attempts == 0 then None
    else if !blocked[next % |blocked|] then Some(next)
    else Choice(blocked, next + 1, attempts - 1)
  }

  class RoundRobinStrategy {
    var nextTask: nat

    constructor ()
      ensures nextTask == 0
    {
      nextTask := 0;
    }

    /** Takes the next thread that is not blocked; when there is none the runtime stops with a deadlock. */
    method Pick(blocked: Moment) returns (thread: Option<nat>)
      modifies this
      ensures thread.None? <==> forall k :: 0 <= k < |blocked| ==> blocked[k]
      ensures thread.Some? ==>
        && thread.value < |blocked| && !blocked[thread.value]
        && Choice(blocked, old(nextTask), |blocked|) == Some(nextTask - 1)
        && thread.value == (nextTask - 1) % |blocked|
      ensures thread.None? ==> nextTask == old(nextTask) + |blocked|
    {
      var attempt := 0;
      while attempt < |blocked|
        invariant 0 <= attempt <= |blocked| && nextTask == old(nextTask) + attempt
        invariant |blocked| > 0 ==>
          Choice(blocked, old(nextTask), |blocked|) == Choice(blocked, nextTask, |blocked| - attempt)
      {
        var cur := nextTask % |blocked|;
        nextTask := nextTask + 1;
        attempt := attempt + 1;
        if blocked[cur] {
          continue;
        }
        return Some(cur);
      }
      if |blocked| > 0 { NoChoice(blocked, old(nextTask)); }
      return None;
    }
  }

  // ---- Remainders ----

  /** The counter reaches every thread within one turn. */
  lemma CountFor(next: nat, n: nat, thread: nat) returns (c: nat)
    requires thread < n
    ensures next <= c < next + n && c % n == thread
  {
    var q, r := next / n, next % n;
    assert next == q * n + r;
    if thread >= r {
      c := next + (thread - r);
      SameRemainder(c, q, thread, n);
    } else {
      c := next + (thread + n - r);
      assert (q + 1) * n == q * n + n;
      SameRemainder(c, q + 1, thread, n);
    }
  }

  lemma NoChoice(blocked: Moment, next: nat)
    requires |blocked| > 0 && Choice(blocked, next, |blocked|).None?
    ensures forall k :: 0 <= k < |blocked| ==> blocked[k]
  {
    forall k | 0 <= k < |blocked| ensures blocked[k] {
      var c := CountFor(next, |blocked|, k);
    }
  }

  // ---- Fairness ----

  /** The threads chosen at consecutive moments; a deadlock ends the choices. */
  function Picks(moments: seq<Moment>, next: nat, n: nat): (threads: seq<nat>)
    requires n > 0 && forall m <- moments :: |m| == n
    ensures |threads| <= |moments|
  {
    if moments == [] then []
    else
      match Choice(moments[0], next, n)
      case None => []
      case Some(c) => [c % n] + Picks(moments[1..], c + 1, n)
  }

  /** A thread whose count lies ahead, and that is never blocked, is chosen when the counter gets there. */
  lemma {:induction false} ChosenOnTheWay(moments: seq<Moment>, next: nat, n: nat, c: nat)
    requires n > 0 && forall m <- moments :: |m| == n && !m[c % n]
    requires next <= c < next + n && c - next < |moments|
    ensures c % n in Picks(moments, next, n)
  {
    var first := Choice(moments[0], next, n);
    assert first.Some? && first.value <= c;
    if first.value < c {
      ChosenOnTheWay(moments[1..], first.value + 1, n, c);
    }
  }

  /** A thread that is free at each of `n` consecutive choices is chosen at one of them. */
  lemma BoundedFairness(moments: seq<Moment>, next: nat, n: nat, thread: nat)
    requires thread < n == |moments| && forall m <- moments :: |m| == n && !m[thread]
    ensures thread in Picks(moments, next, n) && |Picks(moments, next, n)| == n
  {
    var c := CountFor(next, n, thread);
    ChosenOnTheWay(moments, next, n, c);
    NeverStuck(moments, next, n, thread);
  }

  lemma {:induction false} NeverStuck(moments: seq<Moment>, next: nat, n: nat, thread: nat)
    requires thread < n && forall m <- moments :: |m| == n && !m[thread]
    ensures |Picks(moments, next, n)| == |moments|
  {
    if moments != [] {
      var c := CountFor(next, n, thread);
      var first := Choice(moments[0], next, n);
      assert first.Some?;
      NeverStuck(moments[1..], first.value + 1, n, thread);
    }
  }
}
