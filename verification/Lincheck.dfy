/** The fast checker: an iterative depth-first search with an explicit undo stack,
    a bitmap of linearized events and a cache of visited (bitmap, state) pairs. */
module Lincheck {
  import opened Histories
  import opened Search

  type Cache = seq<(seq<bool>, State)>

  /** Cache lookup: bitmaps are compared exactly, states by the specification's own hash and equality. */
  predicate Cached(spec: Spec, cache: Cache, lin: seq<bool>, s: State) {
    exists k :: 0 <= k < |cache| && cache[k].0 == lin
                && spec.hash(cache[k].1) == spec.hash(s) && spec.equal(cache[k].1, s)
  }

  ghost predicate Child(p: Problem, n: Node, c: Node)
    requires p.Valid() && p.Bitmap(n.lin)
  {
    && Operation(p.h, n.pos)
    && !n.lin[n.pos]
    && p.Fits(n.pos, n.s)
    && c.lin == p.Mark(n.lin, n.pos, true)
    && c.s == p.Step(n.pos, n.s)
  }

  ghost predicate Included(a: seq<bool>, b: seq<bool>) {
    |a| == |b| && forall i :: 0 <= i < |a| && a[i] ==> b[i]
  }

  /** The path from the root to the node being scanned. */
  ghost predicate Path(p: Problem, path: seq<Node>)
    requires p.Valid()
  {
    && path != []
    && path[0].lin == p.Nothing()
    && path[0].s == p.spec.first
    && (forall l :: 0 <= l < |path| ==> Scanned(p, path[l]))
    && (forall l :: 0 <= l < |path| - 1 ==> Child(p, path[l], path[l + 1]))
    && (forall a, b :: 0 <= a <= b < |path| ==> Included(path[a].lin, path[b].lin))
  }

  /** Memoisation is safe: an entry is a dead end or a node of the current path below the root. */
  ghost predicate SafeCache(p: Problem, path: seq<Node>, cache: Cache)
    requires p.Valid()
  {
    forall k :: 0 <= k < |cache| ==>
      && p.Bitmap(cache[k].0)
      && (p.Completable(cache[k].0, cache[k].1) ==> OnPath(path, cache[k].0, cache[k].1))
  }

  ghost predicate OnPath(path: seq<Node>, lin: seq<bool>, s: State) {
    exists l :: 0 < l < |path| && path[l].lin == lin && path[l].s == s
  }

  /** Moving past an event that is linearized, does not fit, or leads to a dead end. */
  lemma Advance(p: Problem, path: seq<Node>, cache: Cache) returns (next: seq<Node>)
    requires p.Valid() && Path(p, path) && SafeCache(p, path, cache)
    requires var top := path[|path| - 1];
             top.pos < |p.h| && (!top.lin[top.pos] ==> Operation(p.h, top.pos) && DeadEnd(p, top.lin, top.s, top.pos))
    ensures next == path[..|path| - 1] + [path[|path| - 1].(pos := path[|path| - 1].pos + 1)]
    ensures Path(p, next) && SafeCache(p, next, cache)
  {
    hide DeadEnd;
    var k := |path| - 1;
    next := path[..k] + [path[k].(pos := path[k].pos + 1)];
    assert forall l :: 0 <= l <= k ==> next[l].lin == path[l].lin && next[l].s == path[l].s;
    ScanNext(p, path[k]);
    forall l | 0 <= l < k ensures Child(p, next[l], next[l + 1]) {
      assert Child(p, path[l], path[l + 1]);
    }
    SamePathSafe(p, path, next, cache);
  }

  lemma SamePathSafe(p: Problem, path: seq<Node>, next: seq<Node>, cache: Cache)
    requires p.Valid() && SafeCache(p, path, cache)
    requires |path| == |next| && forall l :: 0 <= l < |path| ==> next[l].lin == path[l].lin && next[l].s == path[l].s
    ensures SafeCache(p, next, cache)
  {
    forall e | 0 <= e < |cache| && OnPath(path, cache[e].0, cache[e].1)
      ensures OnPath(next, cache[e].0, cache[e].1)
    {
      var l :| 0 < l < |path| && path[l].lin == cache[e].0 && path[l].s == cache[e].1;
      assert next[l].lin == cache[e].0 && next[l].s == cache[e].1;
    }
  }

  /** A cache hit is never a node of the current path: the child has one more operation linearized. */
  lemma HitIsDeadEnd(p: Problem, path: seq<Node>, cache: Cache)
    requires p.Valid() && Path(p, path) && SafeCache(p, path, cache) && SoundEquality(p.spec)
    requires var top := path[|path| - 1];
             Operation(p.h, top.pos) && !top.lin[top.pos]
             && Cached(p.spec, cache, p.Mark(top.lin, top.pos, true), p.Step(top.pos, top.s))
    ensures DeadEnd(p, path[|path| - 1].lin, path[|path| - 1].s, path[|path| - 1].pos)
  {
    var top := path[|path| - 1];
    var lin, s := p.Mark(top.lin, top.pos, true), p.Step(top.pos, top.s);
    p.MarkBitmap(top.lin, top.pos);
    if p.Completable(lin, s) {
      assert false;
    }
  }

  /** Opening a section: the candidate is linearized and scanning restarts below it. */
  lemma Open(p: Problem, path: seq<Node>, cache: Cache) returns (next: seq<Node>)
    requires p.Valid() && Path(p, path) && SafeCache(p, path, cache)
    requires var top := path[|path| - 1];
             Operation(p.h, top.pos) && !top.lin[top.pos] && p.Fits(top.pos, top.s)
    ensures var top := path[|path| - 1];
            var child := Node(p.Mark(top.lin, top.pos, true), p.Step(top.pos, top.s), 0);
            next == path + [child] && Path(p, next) && SafeCache(p, next, cache + [(child.lin, child.s)])
  {
    var top := path[|path| - 1];
    var child := Node(p.Mark(top.lin, top.pos, true), p.Step(top.pos, top.s), 0);
    p.MarkBitmap(top.lin, top.pos);
    next := path + [child];
    assert Child(p, top, child) && Scanned(p, child);
    forall a, b | 0 <= a <= b < |next| ensures Included(next[a].lin, next[b].lin) {
      if b == |path| && a < b {
        assert Included(path[a].lin, top.lin);
      }
    }
    var grown := cache + [(child.lin, child.s)];
    forall e | 0 <= e < |grown|
      ensures p.Bitmap(grown[e].0) && (p.Completable(grown[e].0, grown[e].1) ==> OnPath(next, grown[e].0, grown[e].1))
    {
      if e < |cache| {
        if p.Completable(cache[e].0, cache[e].1) {
          var l :| 0 < l < |path| && path[l].lin == cache[e].0 && path[l].s == cache[e].1;
          assert next[l] == path[l];
        }
      } else {
        assert next[|path|] == child;
      }
    }
  }

  /** Closing a section: the exhausted node is undone and its parent moves to the next candidate. */
  lemma Close(p: Problem, path: seq<Node>, cache: Cache) returns (next: seq<Node>)
    requires p.Valid() && Path(p, path) && SafeCache(p, path, cache) && |path| > 1
    requires !p.Completable(path[|path| - 1].lin, path[|path| - 1].s)
    ensures var parent := path[|path| - 2];
            next == path[..|path| - 2] + [parent.(pos := parent.pos + 1)]
    ensures Path(p, next) && SafeCache(p, next, cache)
  {
    var k := |path| - 1;
    var shorter := path[..k];
    assert Child(p, path[k - 1], path[k]);
    forall e | 0 <= e < |cache| && p.Completable(cache[e].0, cache[e].1)
      ensures OnPath(shorter, cache[e].0, cache[e].1)
    {
      var l :| 0 < l < |path| && path[l].lin == cache[e].0 && path[l].s == cache[e].1;
      assert shorter[l] == path[l];
    }
    assert Path(p, shorter);
    next := Advance(p, shorter, cache);
    assert shorter[..k - 1] == path[..k - 1];
  }

  /** Success anywhere on the path reaches back to the root. */
  lemma {:induction false} SuccessReachesRoot(p: Problem, path: seq<Node>)
    requires p.Valid() && Path(p, path)
    requires p.Completable(path[|path| - 1].lin, path[|path| - 1].s)
    ensures p.Completable(p.Nothing(), p.spec.first)
    decreases |path|
  {
    var k := |path| - 1;
    if k > 0 {
      var n := path[k - 1];
      assert Child(p, n, path[k]) && Scanned(p, n);
      p.MarkBitmap(n.lin, n.pos);
      p.ExtendCompletable(n.lin, n.pos, n.s);
      assert Path(p, path[..k]);
      SuccessReachesRoot(p, path[..k]);
    }
  }

  // ---- Termination: positions on the stack are the digits of a number that only grows ----

  ghost function Pow(base: nat, e: nat): (r: nat) {
    if e == 0 then 1 else base * Pow(base, e - 1)
  }

  ghost function Digits(base: nat, stack: seq<nat>): (r: nat) {
    if stack == [] then 0
    else Digits(base, stack[..|stack| - 1]) * base + 2 * stack[|stack| - 1] + 1
  }

  /** An opened candidate weighs an odd digit, a candidate being scanned an even one. */
  ghost function Rank(n: nat, stack: seq<nat>, current: nat): (r: nat)
    requires |stack| <= n
  {
    (Digits(2 * n + 2, stack) * (2 * n + 2) + 2 * current) * Pow(2 * n + 2, n - |stack|)
  }

  lemma {:induction false} PowPositive(base: nat, e: nat)
    requires base > 0
    ensures Pow(base, e) > 0
  {
    if e > 0 { PowPositive(base, e - 1); }
  }

  lemma MulAssociates(x: nat, y: nat, z: nat)
    ensures x * y * z == x * (y * z)
  {
  }

  lemma {:induction false} PowAdd(base: nat, d: nat, e: nat)
    ensures Pow(base, d + e) == Pow(base, d) * Pow(base, e)
  {
    if d > 0 {
      PowAdd(base, d - 1, e);
      MulAssociates(base, Pow(base, d - 1), Pow(base, e));
    }
  }

  lemma MulMonotone(x: int, y: int, factor: nat)
    requires x <= y
    ensures x * factor <= y * factor
  {
  }

  lemma DigitAppended(base: nat, d: nat, x: nat, power: nat)
    requires d + 1 <= power && 2 * x + 2 <= base
    ensures d * base + 2 * x + 2 <= base * power
  {
    MulMonotone(d + 1, power, base);
    assert (d + 1) * base == d * base + base;
  }

  lemma {:induction false} DigitsBound(base: nat, stack: seq<nat>)
    requires forall x :: x in stack ==> 2 * x + 2 <= base
    ensures Digits(base, stack) + 1 <= Pow(base, |stack|)
  {
    if stack != [] {
      var rest, last := stack[..|stack| - 1], stack[|stack| - 1];
      assert last in stack && forall x :: x in rest ==> x in stack;
      DigitsBound(base, rest);
      DigitAppended(base, Digits(base, rest), last, Pow(base, |rest|));
    }
  }

  lemma RankBound(n: nat, stack: seq<nat>, current: nat)
    requires |stack| <= n && current <= n && forall l :: 0 <= l < |stack| ==> stack[l] < n
    ensures Rank(n, stack, current) < Pow(2 * n + 2, n + 1)
  {
    ScaledBound(2 * n + 2, Digits(2 * n + 2, stack), 2 * current, |stack|, n - |stack|) by {
      DigitsBound(2 * n + 2, stack);
    }
    assert |stack| + 1 + (n - |stack|) == n + 1;
  }

  lemma ScaledBound(b: nat, d: nat, c: nat, k: nat, e: nat)
    requires c < b && d + 1 <= Pow(b, k)
    ensures (d * b + c) * Pow(b, e) < Pow(b, k + 1 + e)
  {
    PowPositive(b, e);
    PowAdd(b, k + 1, e);
    MulMonotone(d + 1, Pow(b, k), b);
    assert (d + 1) * b == d * b + b;
    MulMonotone(d * b + c + 1, Pow(b, k + 1), Pow(b, e));
    assert (d * b + c + 1) * Pow(b, e) == (d * b + c) * Pow(b, e) + Pow(b, e);
  }

  lemma RankAdvance(n: nat, stack: seq<nat>, current: nat)
    requires |stack| <= n
    ensures Rank(n, stack, current) < Rank(n, stack, current + 1)
  {
    var b := 2 * n + 2;
    PowPositive(b, n - |stack|);
    var d := Digits(b, stack) * b + 2 * current;
    assert (d + 2) * Pow(b, n - |stack|) == d * Pow(b, n - |stack|) + 2 * Pow(b, n - |stack|);
  }

  lemma RankOpen(n: nat, stack: seq<nat>, current: nat)
    requires |stack| < n
    ensures Rank(n, stack, current) < Rank(n, stack + [current], 0)
  {
    var b, e := 2 * n + 2, n - |stack|;
    PowPositive(b, e);
    assert (stack + [current])[..|stack|] == stack;
    var d := Digits(b, stack) * b + 2 * current;
    assert (d + 1) * b * Pow(b, e - 1) == (d + 1) * Pow(b, e);
    assert (d + 1) * Pow(b, e) == d * Pow(b, e) + Pow(b, e);
  }

  lemma ScaledClose(b: nat, d: nat, c: nat, power: nat)
    requires c < b && power > 0
    ensures (d * b + c) * power < (d + 1) * (b * power)
  {
    MulAssociates(d + 1, b, power);
    assert (d + 1) * b == d * b + b;
    MulMonotone(d * b + c + 1, d * b + b, power);
    assert (d * b + c + 1) * power == (d * b + c) * power + power;
  }

  lemma RankClose(n: nat, stack: seq<nat>, current: nat)
    requires 0 < |stack| <= n && current <= n
    ensures Rank(n, stack, current) < Rank(n, stack[..|stack| - 1], stack[|stack| - 1] + 1)
  {
    var b, e := 2 * n + 2, n - |stack|;
    PowPositive(b, e);
    assert Pow(b, e + 1) == b * Pow(b, e);
    ScaledClose(b, Digits(b, stack), 2 * current, Pow(b, e));
  }

  // ---- The checker ----

  /** The loop's variables spell out the path: opened candidates below, the scan on top. */
  ghost predicate Tracks(path: seq<Node>, openSections: seq<nat>, states: seq<State>, top: Node) {
    && |path| == |openSections| + 1 == |states| + 1
    && (forall l :: 0 <= l < |openSections| ==> openSections[l] == path[l].pos && states[l] == path[l].s)
    && path[|path| - 1] == top
  }

  ghost predicate Searching(p: Problem, path: seq<Node>, cache: Cache,
                            openSections: seq<nat>, states: seq<State>, top: Node)
    requires p.Valid()
  {
    && Path(p, path)
    && SafeCache(p, path, cache)
    && Tracks(path, openSections, states, top)
    && (forall l :: 0 <= l < |path| ==> l <= Count(path[l].lin))
  }

  lemma RootPath(p: Problem) returns (path: seq<Node>)
    requires p.Valid()
    ensures Searching(p, path, [], [], [], Node(p.Nothing(), p.spec.first, 0))
  {
    path := [Node(p.Nothing(), p.spec.first, 0)];
    p.ForcedIsLinearizable();
  }

  /** What is left of the rank's range: the loop's variant. */
  ghost function Budget(n: nat, openSections: seq<nat>, current: nat): int
    requires |openSections| <= n
  {
    Pow(2 * n + 2, n + 1) - Rank(n, openSections, current)
  }

  lemma BudgetPositive(p: Problem, path: seq<Node>, cache: Cache,
                       openSections: seq<nat>, states: seq<State>, top: Node)
    requires p.Valid() && Searching(p, path, cache, openSections, states, top)
    ensures Budget(|p.h|, openSections, top.pos) > 0
  {
    assert Scanned(p, path[|path| - 1]);
    forall l | 0 <= l < |openSections| ensures openSections[l] < |p.h| {
      assert Child(p, path[l], path[l + 1]);
    }
    RankBound(|p.h|, openSections, top.pos);
  }

  lemma TopIsScanned(p: Problem, path: seq<Node>, cache: Cache,
                     openSections: seq<nat>, states: seq<State>, top: Node)
    requires p.Valid() && Searching(p, path, cache, openSections, states, top)
    ensures Scanned(p, top) && path != [] && path[|path| - 1] == top
    ensures |openSections| == |states| <= |p.h|
  {
    assert Scanned(p, path[|path| - 1]);
  }

  lemma SearchSucceeded(p: Problem, path: seq<Node>, cache: Cache,
                        openSections: seq<nat>, states: seq<State>, top: Node)
    requires p.Valid() && Searching(p, path, cache, openSections, states, top)
    requires |top.lin| == |p.h| && p.Completable(top.lin, top.s)
    ensures p.Completable(p.Nothing(), p.spec.first)
  {
    SuccessReachesRoot(p, path);
  }

  lemma SearchFailed(p: Problem, path: seq<Node>, cache: Cache, states: seq<State>, top: Node)
    requires p.Valid() && Searching(p, path, cache, [], states, top)
    requires |top.lin| == |p.h| && top.pos < |p.h| && !top.lin[top.pos] && p.h[top.pos].Response?
    ensures !p.Completable(p.Nothing(), p.spec.first)
  {
    TopIsScanned(p, path, cache, [], states, top);
    ExhaustedIsDead(p, top);
  }

  lemma StepHit(p: Problem, path: seq<Node>, cache: Cache,
                openSections: seq<nat>, states: seq<State>, top: Node)
    requires p.Valid() && Searching(p, path, cache, openSections, states, top) && SoundEquality(p.spec)
    requires p.Bitmap(top.lin) && Operation(p.h, top.pos) && !top.lin[top.pos]
    requires Cached(p.spec, cache, p.Mark(top.lin, top.pos, true), p.Step(top.pos, top.s))
    ensures DeadEnd(p, top.lin, top.s, top.pos)
  {
    HitIsDeadEnd(p, path, cache);
  }

  lemma StepAdvance(p: Problem, path: seq<Node>, cache: Cache,
                    openSections: seq<nat>, states: seq<State>, top: Node)
    returns (next: seq<Node>)
    requires p.Valid() && Searching(p, path, cache, openSections, states, top)
    requires top.pos < |p.h|
    requires p.Bitmap(top.lin)
    requires !top.lin[top.pos] ==> Operation(p.h, top.pos) && DeadEnd(p, top.lin, top.s, top.pos)
    ensures Searching(p, next, cache, openSections, states, top.(pos := top.pos + 1))
    ensures 0 < Budget(|p.h|, openSections, top.pos + 1) < Budget(|p.h|, openSections, top.pos)
  {
    hide Rank, Digits, Pow, Path, SafeCache, DeadEnd, WellFormed, IsResponseMap;
    next := Advance(p, path, cache);
    RankAdvance(|p.h|, openSections, top.pos);
    BudgetPositive(p, next, cache, openSections, states, top.(pos := top.pos + 1));
  }

  lemma StepOpen(p: Problem, path: seq<Node>, cache: Cache,
                 openSections: seq<nat>, states: seq<State>, top: Node)
    returns (next: seq<Node>, child: Node)
    requires p.Valid() && Searching(p, path, cache, openSections, states, top)
    requires p.Bitmap(top.lin)
    requires Operation(p.h, top.pos) && !top.lin[top.pos] && p.Fits(top.pos, top.s)
    ensures child == Node(p.Mark(top.lin, top.pos, true), p.Step(top.pos, top.s), 0)
    ensures Searching(p, next, cache + [(child.lin, child.s)], openSections + [top.pos], states + [top.s], child)
    ensures |openSections| < |p.h|
    ensures 0 < Budget(|p.h|, openSections + [top.pos], 0) < Budget(|p.h|, openSections, top.pos)
  {
    hide Rank, Digits, Pow, Path, SafeCache, DeadEnd, WellFormed, IsResponseMap;
    next := Open(p, path, cache);
    child := next[|path|];
    CountMark(p, top.lin, top.pos);
    RankOpen(|p.h|, openSections, top.pos);
    BudgetPositive(p, next, cache + [(child.lin, child.s)], openSections + [top.pos], states + [top.s], child);
  }

  lemma StepClose(p: Problem, path: seq<Node>, cache: Cache,
                  openSections: seq<nat>, states: seq<State>, top: Node)
    returns (next: seq<Node>, parent: Node)
    requires p.Valid() && Searching(p, path, cache, openSections, states, top)
    requires p.Bitmap(top.lin)
    requires openSections != [] && top.pos < |p.h| && !top.lin[top.pos] && p.h[top.pos].Response?
    ensures parent.pos == openSections[|openSections| - 1] && parent.s == states[|states| - 1]
    ensures Operation(p.h, parent.pos) && p.Bitmap(parent.lin) && !parent.lin[parent.pos]
    ensures top.lin == p.Mark(parent.lin, parent.pos, true)
    ensures Searching(p, next, cache, openSections[..|openSections| - 1], states[..|states| - 1],
                      parent.(pos := parent.pos + 1))
    ensures 0 < Budget(|p.h|, openSections[..|openSections| - 1], parent.pos + 1)
              < Budget(|p.h|, openSections, top.pos)
  {
    hide Rank, Digits, Pow, DeadEnd, Child, Path, SafeCache, WellFormed;
    parent := ParentOfTop(p, path);
    ExhaustedIsDead(p, top);
    next := Close(p, path, cache);
    CountMark(p, parent.lin, parent.pos);
    RankClose(|p.h|, openSections, top.pos);
    TracksClose(path, openSections, states, top, parent);
    BudgetPositive(p, next, cache, openSections[..|openSections| - 1], states[..|states| - 1],
                   parent.(pos := parent.pos + 1));
  }

  lemma TracksClose(path: seq<Node>, openSections: seq<nat>, states: seq<State>, top: Node, parent: Node)
    requires Tracks(path, openSections, states, top)
    requires openSections != [] && parent == path[|path| - 2]
    ensures Tracks(path[..|path| - 2] + [parent.(pos := parent.pos + 1)],
                   openSections[..|openSections| - 1], states[..|states| - 1], parent.(pos := parent.pos + 1))
    ensures parent.pos == openSections[|openSections| - 1] && parent.s == states[|states| - 1]
  {
  }

  lemma ParentOfTop(p: Problem, path: seq<Node>) returns (parent: Node)
    requires p.Valid() && Path(p, path) && |path| > 1
    ensures parent == path[|path| - 2] && Scanned(p, parent)
    ensures Operation(p.h, parent.pos) && !parent.lin[parent.pos]
    ensures path[|path| - 1].lin == p.Mark(parent.lin, parent.pos, true)
    ensures Scanned(p, path[|path| - 1])
  {
    parent := path[|path| - 2];
    assert Child(p, parent, path[|path| - 2 + 1]);
  }

  /** Sets an operation's bits, keeping the counter in step. */
  method SetBits(ghost p: Problem, responseOf: map<nat, nat>, before: seq<bool>, countBefore: nat, i: nat)
    returns (linearized: seq<bool>, count: nat)
    requires p.Valid() && responseOf == p.responseOf
    requires p.Bitmap(before) && Operation(p.h, i) && !before[i] && countBefore == Count(before)
    ensures linearized == p.Mark(before, i, true) && p.Bitmap(linearized) && count == Count(linearized)
  {
    CountMark(p, before, i);
    linearized, count := before[i := true], countBefore + 1;
    if i in responseOf {
      linearized, count := linearized[responseOf[i] := true], count + 1;
    }
  }

  /** Clears an operation's bits, restoring the bitmap from before they were set. */
  method ClearBits(ghost p: Problem, ghost before: seq<bool>, responseOf: map<nat, nat>,
                   marked: seq<bool>, countMarked: nat, i: nat)
    returns (linearized: seq<bool>, count: nat)
    requires p.Valid() && responseOf == p.responseOf
    requires p.Bitmap(before) && Operation(p.h, i) && !before[i]
    requires marked == p.Mark(before, i, true) && countMarked == Count(marked)
    ensures linearized == before && count == Count(linearized)
  {
    CountMark(p, before, i);
    p.MarkBitmap(before, i);
    linearized, count := marked[i := false], countMarked - 1;
    if i in responseOf {
      linearized, count := linearized[responseOf[i] := false], count - 1;
    }
  }

  /** Decides linearizability, whatever hash and sound equality the specification brings along. */
  method Check(spec: Spec, table: Table, h: History) returns (ok: bool)
    requires WellFormed(h, table) && SoundEquality(spec)
    ensures ok <==> Linearizable(spec, table, h)
  {
    hide Rank, Digits, Pow, Path, SafeCache, DeadEnd, Explains, WellFormed, IsResponseMap, Searching, Tracks, Count;
    EventsInTable(h, table);
    var current: nat := 0;
    var state := spec.first;
    var openSections: seq<nat> := [];
    var states: seq<State> := [];
    var responseOf := ResponseMap(h, table);
    var linearized := seq(|h|, _ => false);
    var count := 0;
    var cache: Cache := [];

    ghost var p := Problem(spec, table, h, responseOf);
    ghost var path := RootPath(p);
    p.ForcedIsLinearizable();
    CountNone(linearized);
    assert linearized == p.Nothing();

    while count != |h|
      invariant Searching(p, path, cache, openSections, states, Node(linearized, state, current))
      invariant count == Count(linearized)
      invariant |openSections| == |states| <= |h|
      decreases Budget(|h|, openSections, current)
    {
      ghost var top := Node(linearized, state, current);
      TopIsScanned(p, path, cache, openSections, states, top);
      CountAll(linearized);
      ScanStaysInside(p, top);
      if linearized[current] {
        path := StepAdvance(p, path, cache, openSections, states, top);
        current := current + 1;
        continue;
      }
      if h[current].Invoke? {
        var (next, result) := Outcome(spec, table, h, current, state);
        var pending := current !in responseOf;
        var wasChecked := false;
        ghost var cacheBefore := cache;
        if pending || spec.same(result, table[h[current].task].ret) {
          linearized, count := SetBits(p, responseOf, linearized, count, current);
          wasChecked := Cached(spec, cache, linearized, next);
          if !wasChecked {
            cache := cache + [(linearized, next)];
          } else {
            StepHit(p, path, cache, openSections, states, top);
            linearized, count := ClearBits(p, top.lin, responseOf, linearized, count, current);
          }
        } else {
          MisfitIsDeadEnd(p, linearized, state, current);
        }
        if (pending || spec.same(result, table[h[current].task].ret)) && !wasChecked {
          ghost var child;
          path, child := StepOpen(p, path, cacheBefore, openSections, states, top);
          openSections, states := openSections + [current], states + [state];
          state := next;
          current := 0;
        } else {
          path := StepAdvance(p, path, cache, openSections, states, top);
          current := current + 1;
        }
      } else {
        if openSections == [] {
          SearchFailed(p, path, cache, states, top);
          return false;
        }
        ghost var parent;
        path, parent := StepClose(p, path, cache, openSections, states, top);
        state, states := states[|states| - 1], states[..|states| - 1];
        current := openSections[|openSections| - 1];
        linearized, count := ClearBits(p, parent.lin, responseOf, linearized, count, current);
        openSections := openSections[..|openSections| - 1];
        current := current + 1;
      }
    }
    CountAll(linearized);
    TopIsScanned(p, path, cache, openSections, states, Node(linearized, state, current));
    p.EverythingLinearized(linearized, state);
    SearchSucceeded(p, path, cache, openSections, states, Node(linearized, state, current));
    return true;
  }
}
