/** The search space both checkers walk: which operations have been linearized and
    the specification state reached. All facts are independent of the walk's order. */
module Search {
  import opened Histories

  /** A history to check, with the invoke-to-response map both checkers precompute. */
  datatype Problem = Problem(spec: Spec, table: Table, h: History, responseOf: map<nat, nat>) {

    ghost predicate Valid() {
      WellFormed(h, table) && IsResponseMap(h, responseOf)
    }

    // Both checkers keep one bit per event. An operation's two bits move together.
    ghost predicate Bitmap(lin: seq<bool>) {
      && |lin| == |h|
      && (forall i :: i in responseOf ==> i < |h| && responseOf[i] < |h| && lin[responseOf[i]] == lin[i])
    }

    function Mark(lin: seq<bool>, i: int, bit: bool): (r: seq<bool>)
      requires 0 <= i < |lin|
      requires i in responseOf ==> responseOf[i] < |lin|
    {
      if i in responseOf then lin[i := bit][responseOf[i] := bit] else lin[i := bit]
    }

    function Step(i: int, s: State): State
      requires Operation(h, i) && h[i].task in table
    {
      Outcome(spec, table, h, i, s).0
    }

    /** A pending operation fits anywhere; a completed one has to reproduce its result. */
    predicate Fits(i: int, s: State)
      requires Operation(h, i) && h[i].task in table
    {
      i !in responseOf || spec.same(Outcome(spec, table, h, i, s).1, table[h[i].task].ret)
    }

    ghost predicate AllLinearized(lin: seq<bool>) {
      forall i :: 0 <= i < |lin| ==> lin[i]
    }

    /** No response still to be linearized comes before `i`. */
    ghost predicate Minimal(lin: seq<bool>, i: int)
      requires |lin| == |h|
    {
      0 <= i < |h| && forall r :: 0 <= r < i && !lin[r] ==> h[r].Invoke?
    }

    /** `rest` linearizes everything that is left, pending operations included. */
    ghost predicate Completion(lin: seq<bool>, s: State, rest: seq<nat>)
      requires Valid() && |lin| == |h|
    {
      && Operations(h, rest)
      && Distinct(rest)
      && (forall i :: Operation(h, i) ==> (i in rest <==> !lin[i]))
      && RespectsRealTime(h, rest)
      && Explains(spec, table, h, rest, s)
    }

    ghost predicate Completable(lin: seq<bool>, s: State)
      requires Valid() && |lin| == |h|
    {
      exists rest :: Completion(lin, s, rest)
    }

    lemma MarkBitmap(lin: seq<bool>, i: int)
      requires Valid() && Bitmap(lin) && Operation(h, i) && !lin[i]
      ensures Bitmap(Mark(lin, i, true))
      ensures Mark(Mark(lin, i, true), i, false) == lin
      ensures forall j :: Operation(h, j) ==> Mark(lin, i, true)[j] == (lin[j] || i == j)
      ensures forall j :: 0 <= j < |lin| && lin[j] ==> Mark(lin, i, true)[j]
    {
      hide WellFormed;
      var marked := Mark(lin, i, true);
      if i in responseOf {
        assert Answers(h, i, responseOf[i]);
      }
      forall j | j in responseOf ensures marked[responseOf[j]] == marked[j] {
        assert Answers(h, j, responseOf[j]);
        if i in responseOf && i != j {
          ResponseMapInjective(h, table, responseOf, i, j);
        }
      }
    }

    lemma ResponseBits(lin: seq<bool>, x: int, r: int)
      requires Valid() && Bitmap(lin) && Answers(h, x, r)
      ensures x in responseOf && responseOf[x] == r && lin[r] == lin[x]
    {
      assert Completed(h, x);
      assert Answers(h, x, responseOf[x]);
      assert h[responseOf[x]].task == h[r].task;
    }

    lemma PrependInOrder(lin: seq<bool>, i: int, tail: seq<nat>)
      requires Valid() && Bitmap(lin) && Operation(h, i) && Minimal(lin, i)
      requires Operations(h, tail) && RespectsRealTime(h, tail)
      requires forall b :: 0 <= b < |tail| ==> !lin[tail[b]]
      ensures RespectsRealTime(h, [i] + tail)
    {
      var rest := [i] + tail;
      forall a, b | 0 <= a < b < |rest| ensures !Precedes(h, rest[b], rest[a]) {
        assert rest[b] == tail[b - 1];
        if a == 0 {
          if Precedes(h, rest[b], i) {
            var r :| Answers(h, rest[b], r) && r < i;
            ResponseBits(lin, rest[b], r);
            assert false;
          }
        } else {
          assert rest[a] == tail[a - 1];
        }
      }
    }

    lemma ExtendCompletion(lin: seq<bool>, i: int, s: State, tail: seq<nat>)
      requires Valid() && Bitmap(lin) && Operation(h, i) && !lin[i]
      requires Minimal(lin, i) && Fits(i, s)
      requires Bitmap(Mark(lin, i, true)) && Completion(Mark(lin, i, true), Step(i, s), tail)
      ensures Completion(lin, s, [i] + tail)
    {
      hide WellFormed, RespectsRealTime;
      MarkBitmap(lin, i);
      var rest := [i] + tail;
      assert rest[1..] == tail;
      forall b | 0 <= b < |tail| ensures !lin[tail[b]] && tail[b] != i {
        assert tail[b] in tail;
      }
      PrependInOrder(lin, i, tail);
      assert Completed(h, i) ==> i in responseOf;
    }

    /** Linearizing a minimal operation that fits loses nothing real-time order needs. */
    lemma ExtendCompletable(lin: seq<bool>, i: int, s: State)
      requires Valid() && Bitmap(lin) && Operation(h, i) && !lin[i]
      requires Minimal(lin, i) && Fits(i, s)
      requires Bitmap(Mark(lin, i, true)) && Completable(Mark(lin, i, true), Step(i, s))
      ensures Completable(lin, s)
    {
      hide Explains, Fits, Minimal;
      var tail :| Completion(Mark(lin, i, true), Step(i, s), tail);
      ExtendCompletion(lin, i, s, tail);
    }

    /** An event still to be linearized belongs to an operation still to be linearized. */
    lemma OwnerOf(lin: seq<bool>, e: int) returns (x: int)
      requires Valid() && Bitmap(lin) && 0 <= e < |h| && !lin[e]
      ensures Operation(h, x) && !lin[x] && (x == e || Answers(h, x, e))
    {
      if h[e].Response? {
        x :| Answers(h, x, e);
        ResponseBits(lin, x, e);
      } else {
        x := e;
      }
    }

    lemma FirstIsMinimal(lin: seq<bool>, s: State, rest: seq<nat>)
      requires Valid() && Bitmap(lin) && Completion(lin, s, rest) && rest != []
      ensures Minimal(lin, rest[0])
    {
      forall r | 0 <= r < rest[0] && !lin[r] ensures h[r].Invoke? {
        var x := OwnerOf(lin, r);
        assert x in rest && (Answers(h, x, r) ==> Precedes(h, x, rest[0]));
      }
    }

    lemma RestOfCompletion(lin: seq<bool>, s: State, rest: seq<nat>)
      requires Valid() && Bitmap(lin) && Completion(lin, s, rest) && rest != []
      ensures Operation(h, rest[0]) && !lin[rest[0]] && Fits(rest[0], s)
      ensures Bitmap(Mark(lin, rest[0], true))
      ensures Completable(Mark(lin, rest[0], true), Step(rest[0], s))
    {
      var i, tail := rest[0], rest[1..];
      assert i in rest;
      MarkBitmap(lin, i);
      assert rest == [i] + tail;
      forall j | Operation(h, j) ensures j in tail <==> !Mark(lin, i, true)[j] {
        assert j in rest <==> j == i || j in tail;
      }
      assert Completion(Mark(lin, i, true), Step(i, s), tail);
    }

    /** If anything is left and it can be completed, some minimal operation that fits starts it. */
    lemma FirstOfCompletion(lin: seq<bool>, s: State) returns (i: int)
      requires Valid() && Bitmap(lin) && Completable(lin, s) && !AllLinearized(lin)
      ensures Operation(h, i) && !lin[i] && Minimal(lin, i) && Fits(i, s)
      ensures Bitmap(Mark(lin, i, true)) && Completable(Mark(lin, i, true), Step(i, s))
    {
      var rest :| Completion(lin, s, rest);
      var open :| 0 <= open < |lin| && !lin[open];
      var x := OwnerOf(lin, open);
      assert x in rest;
      i := rest[0];
      FirstIsMinimal(lin, s, rest);
      RestOfCompletion(lin, s, rest);
    }

    /** Once every response is linearized only pending operations are left, and those always fit. */
    lemma PendingAreCompletable(lin: seq<bool>, s: State)
      requires Valid() && Bitmap(lin)
      requires forall r :: 0 <= r < |h| && h[r].Response? ==> lin[r]
      ensures Completable(lin, s)
    {
      var rest := Left(lin, |h|);
      forall k | 0 <= k < |rest| ensures Operation(h, rest[k]) && !Completed(h, rest[k]) {
        assert rest[k] in rest;
      }
      assert Operations(h, rest);
      PendingExplain(rest, s);
      assert Completion(lin, s, rest);
    }

    ghost function Left(lin: seq<bool>, n: nat): (left: seq<nat>)
      requires |lin| == |h| && n <= |h|
      ensures forall i :: i in left <==> 0 <= i < n && h[i].Invoke? && !lin[i]
      ensures Distinct(left)
    {
      if n == 0 then []
      else if h[n - 1].Invoke? && !lin[n - 1] then Left(lin, n - 1) + [n - 1]
      else Left(lin, n - 1)
    }

    lemma {:induction false} PendingExplain(rest: seq<nat>, s: State)
      requires Valid() && Operations(h, rest)
      requires forall k :: 0 <= k < |rest| ==> !Completed(h, rest[k])
      ensures Explains(spec, table, h, rest, s)
      decreases |rest|
    {
      if rest != [] {
        PendingExplain(rest[1..], Step(rest[0], s));
      }
    }

    lemma EverythingLinearized(lin: seq<bool>, s: State)
      requires Valid() && Bitmap(lin) && AllLinearized(lin)
      ensures Completable(lin, s)
    {
      assert Completion(lin, s, []);
    }

    ghost function Nothing(): (lin: seq<bool>)
      ensures |lin| == |h| && forall i :: 0 <= i < |lin| ==> !lin[i]
    {
      seq(|h|, _ => false)
    }

    /** Forcing pending operations in (what both checkers do) or allowing them to be
        dropped (what linearizability says) gives the same verdict, as methods are total. */
    lemma ForcedIsLinearizable()
      requires Valid()
      ensures Bitmap(Nothing())
      ensures Completable(Nothing(), spec.first) <==> Linearizable(spec, table, h)
    {
      if Completable(Nothing(), spec.first) {
        var order :| Completion(Nothing(), spec.first, order);
        forall i | Completed(h, i) ensures i in order {
          assert Operation(h, i);
        }
        assert Linearization(spec, table, h, order);
      }
      if Linearizable(spec, table, h) {
        var order :| Linearization(spec, table, h, order);
        AppendDropped(order);
      }
    }

    lemma AppendDropped(order: seq<nat>)
      requires Valid() && Linearization(spec, table, h, order)
      ensures Completable(Nothing(), spec.first)
    {
      var taken := seq(|h|, i requires 0 <= i < |h| => i in order);
      var dropped := Left(taken, |h|);
      AppendedInOrder(order, taken, dropped);
      ExplainAppended(order, dropped, spec.first);
      forall i | Operation(h, i) ensures i in order + dropped {
        assert i in order || i in dropped;
      }
      assert Completion(Nothing(), spec.first, order + dropped);
    }

    lemma AppendedInOrder(order: seq<nat>, taken: seq<bool>, dropped: seq<nat>)
      requires Valid() && Linearization(spec, table, h, order)
      requires |taken| == |h| && forall i :: 0 <= i < |h| ==> taken[i] == (i in order)
      requires dropped == Left(taken, |h|)
      ensures Operations(h, dropped) && forall k :: 0 <= k < |dropped| ==> !Completed(h, dropped[k])
      ensures Distinct(order + dropped) && RespectsRealTime(h, order + dropped)
    {
      var all := order + dropped;
      forall k | 0 <= k < |dropped|
        ensures Operation(h, dropped[k]) && dropped[k] !in order && !Completed(h, dropped[k])
      {
        assert dropped[k] in dropped;
      }
      forall a, b | 0 <= a < b < |all| ensures all[a] != all[b] && !Precedes(h, all[b], all[a]) {
        if b < |order| {
          assert all[a] == order[a] && all[b] == order[b];
        } else {
          assert all[b] == dropped[b - |order|];
          assert !Completed(h, all[b]);
          if a < |order| {
            assert all[a] == order[a] && all[a] in order;
          } else {
            assert all[a] == dropped[a - |order|];
          }
        }
      }
    }

    lemma {:induction false} ExplainAppended(order: seq<nat>, dropped: seq<nat>, s: State)
      requires Valid() && Operations(h, order) && Operations(h, dropped)
      requires Explains(spec, table, h, order, s)
      requires forall k :: 0 <= k < |dropped| ==> !Completed(h, dropped[k])
      ensures Operations(h, order + dropped)
      ensures Explains(spec, table, h, order + dropped, s)
      decreases |order|
    {
      if order == [] {
        assert order + dropped == dropped;
        PendingExplain(dropped, s);
      } else {
        assert (order + dropped)[1..] == order[1..] + dropped;
        ExplainAppended(order[1..], dropped, Step(order[0], s));
      }
    }
  }

  /** One level of the search: what was linearized, the state, and how far candidates were tried. */
  datatype Node = Node(lin: seq<bool>, s: State, pos: nat)

  /** Trying candidate `i` in this node cannot lead to a linearization. */
  ghost predicate DeadEnd(p: Problem, lin: seq<bool>, s: State, i: int)
    requires p.Valid() && p.Bitmap(lin) && Operation(p.h, i) && !lin[i]
  {
    p.Fits(i, s) ==>
      p.Bitmap(p.Mark(lin, i, true)) && !p.Completable(p.Mark(lin, i, true), p.Step(i, s))
  }

  /** Everything skipped so far is linearized already or a candidate known to be a dead end. */
  ghost predicate Scanned(p: Problem, n: Node)
    requires p.Valid()
  {
    && p.Bitmap(n.lin)
    && n.pos <= |p.h|
    && forall i :: 0 <= i < n.pos && !n.lin[i] ==> p.h[i].Invoke? && DeadEnd(p, n.lin, n.s, i)
  }

  lemma ScanNext(p: Problem, n: Node)
    requires p.Valid() && Scanned(p, n) && n.pos < |p.h|
    requires !n.lin[n.pos] ==> Operation(p.h, n.pos) && DeadEnd(p, n.lin, n.s, n.pos)
    ensures Scanned(p, n.(pos := n.pos + 1))
  {
    hide DeadEnd;
  }

  lemma MisfitIsDeadEnd(p: Problem, lin: seq<bool>, s: State, i: int)
    requires p.Valid() && p.Bitmap(lin) && Operation(p.h, i) && !lin[i] && !p.Fits(i, s)
    ensures DeadEnd(p, lin, s, i)
  {
  }

  /** A node whose scan meets a response still to be linearized is a dead end. */
  lemma ExhaustedIsDead(p: Problem, n: Node)
    requires p.Valid() && Scanned(p, n) && n.pos < |p.h| && !n.lin[n.pos] && p.h[n.pos].Response?
    ensures !p.Completable(n.lin, n.s)
  {
    if p.Completable(n.lin, n.s) {
      var i := p.FirstOfCompletion(n.lin, n.s);
      assert false;
    }
  }

  /** The scan never runs past the history: with only pending operations left, none is a dead end. */
  lemma ScanStaysInside(p: Problem, n: Node)
    requires p.Valid() && Scanned(p, n) && !p.AllLinearized(n.lin)
    ensures n.pos < |p.h|
  {
    if n.pos == |p.h| {
      var i :| 0 <= i < |n.lin| && !n.lin[i];
      p.MarkBitmap(n.lin, i);
      var lin := p.Mark(n.lin, i, true);
      p.PendingAreCompletable(lin, p.Step(i, n.s));
      assert false;
    }
  }

  /** The map sends exactly the completed operations to their responses. */
  ghost predicate IsResponseMap(h: History, m: map<nat, nat>) {
    && (forall i :: i in m <==> Completed(h, i))
    && (forall i :: i in m ==> Answers(h, i, m[i]))
  }

  lemma ResponseMapInjective(h: History, table: Table, m: map<nat, nat>, i: int, j: int)
    requires WellFormed(h, table) && IsResponseMap(h, m)
    requires i in m && j in m && i != j
    ensures m[i] != m[j]
  {
    assert Answers(h, i, m[i]) && Answers(h, j, m[j]);
    if i < j { assert h[i].task != h[j].task; } else { assert h[j].task != h[i].task; }
  }

  /** Pairs invokes with responses by the task they refer to. */
  method ResponseMap(h: History, table: Table) returns (m: map<nat, nat>)
    requires WellFormed(h, table)
    ensures IsResponseMap(h, m)
  {
    m := map[];
    var uids: map<TaskRef, nat> := map[];
    for i := 0 to |h|
      invariant forall t :: t in uids ==> uids[t] < i && h[uids[t]] == Invoke(t)
      invariant forall k :: 0 <= k < i && h[k].Invoke? ==> h[k].task in uids
      invariant forall k :: k in m ==> Answers(h, k, m[k]) && m[k] < i
      invariant forall k, r :: Answers(h, k, r) && r < i ==> k in m
    {
      if h[i].Invoke? {
        assert forall k :: !Answers(h, k, i);
        uids := uids[h[i].task := i];
      } else {
        ghost var inv: nat :| Answers(h, inv, i);
        assert forall k :: Answers(h, k, i) ==> k == inv;
        assert h[inv].task in uids && uids[h[i].task] == inv;
        m := m[uids[h[i].task] := i];
      }
    }
  }

  // ---- The counter ----

  ghost function Count(lin: seq<bool>): (c: nat)
    ensures c <= |lin|
  {
    if lin == [] then 0
    else Count(lin[..|lin| - 1]) + if lin[|lin| - 1] then 1 else 0
  }

  lemma {:induction false} CountSet(lin: seq<bool>, i: int, bit: bool)
    requires 0 <= i < |lin| && lin[i] != bit
    ensures Count(lin[i := bit]) == Count(lin) + if bit then 1 else -1
  {
    var k := |lin| - 1;
    if i == k {
      assert lin[i := bit][..k] == lin[..k];
    } else {
      assert lin[i := bit][..k] == lin[..k][i := bit];
      CountSet(lin[..k], i, bit);
    }
  }

  lemma {:induction false} CountAll(lin: seq<bool>)
    ensures Count(lin) == |lin| <==> forall i :: 0 <= i < |lin| ==> lin[i]
  {
    if lin != [] {
      CountAll(lin[..|lin| - 1]);
      assert forall i :: 0 <= i < |lin| - 1 ==> lin[i] == lin[..|lin| - 1][i];
    }
  }

  lemma {:induction false} CountNone(lin: seq<bool>)
    requires forall i :: 0 <= i < |lin| ==> !lin[i]
    ensures Count(lin) == 0
  {
    if lin != [] {
      CountNone(lin[..|lin| - 1]);
    }
  }

  lemma CountMark(p: Problem, lin: seq<bool>, i: int)
    requires p.Valid() && p.Bitmap(lin) && Operation(p.h, i) && !lin[i]
    ensures p.Bitmap(p.Mark(lin, i, true))
    ensures Count(p.Mark(lin, i, true)) == Count(lin) + if i in p.responseOf then 2 else 1
  {
    p.MarkBitmap(lin, i);
    CountSet(lin, i, true);
    if i in p.responseOf {
      CountSet(lin[i := true], p.responseOf[i], true);
    }
  }
}
