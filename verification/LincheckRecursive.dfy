/** The slow checker: plain recursive backtracking over the same search space. */
module LincheckRecursive {
  import opened Histories
  import opened Search
  import Lincheck

  /** The bitmap is shared by all levels of the recursion: a failed level puts it back. */
  method RecursiveStep(p: Problem, linearized: array<bool>, state: State) returns (ok: bool)
    requires p.Valid() && p.Bitmap(linearized[..])
    modifies linearized
    ensures ok <==> p.Completable(old(linearized[..]), state)
    ensures !ok ==> linearized[..] == old(linearized[..])
    ensures ok ==> p.AllLinearized(linearized[..])
    decreases |p.h| - Count(linearized[..])
  {
    hide DeadEnd, WellFormed, Count;
    ghost var start := linearized[..];
    if forall i :: 0 <= i < linearized.Length ==> linearized[i] {
      p.EverythingLinearized(start, state);
      return true;
    }
    EventsInTable(p.h, p.table);
    var i := 0;
    while i < |p.h|
      invariant linearized[..] == start
      invariant Scanned(p, Node(start, state, i))
    {
      ghost var n := Node(start, state, i);
      if linearized[i] {
        ScanNext(p, n);
        i := i + 1;
        continue;
      }
      if p.h[i].Response? {
        break;
      }
      var (next, result) := Outcome(p.spec, p.table, p.h, i, state);
      p.MarkBitmap(start, i);
      CountMark(p, start, i);
      if i !in p.responseOf {
        linearized[i] := true;
        assert linearized[..] == p.Mark(start, i, true);
        ok := RecursiveStep(p, linearized, next);
        if ok {
          FoundBelow(p, n);
          return true;
        }
        linearized[i] := false;
        assert linearized[..] == start;
        NothingBelow(p, n);
        i := i + 1;
        continue;
      }
      if p.spec.same(result, p.table[p.h[i].task].ret) {
        linearized[i] := true;
        linearized[p.responseOf[i]] := true;
        assert linearized[..] == p.Mark(start, i, true);
        ok := RecursiveStep(p, linearized, next);
        if ok {
          FoundBelow(p, n);
          return true;
        }
        linearized[i] := false;
        linearized[p.responseOf[i]] := false;
        assert linearized[..] == p.Mark(p.Mark(start, i, true), i, false);
      }
      NothingBelow(p, n);
      i := i + 1;
    }
    ScanStaysInside(p, Node(start, state, i));
    ExhaustedIsDead(p, Node(start, state, i));
    return false;
  }

  lemma FoundBelow(p: Problem, n: Node)
    requires p.Valid() && Scanned(p, n) && Operation(p.h, n.pos) && !n.lin[n.pos] && p.Fits(n.pos, n.s)
    requires p.Bitmap(p.Mark(n.lin, n.pos, true))
    requires p.Completable(p.Mark(n.lin, n.pos, true), p.Step(n.pos, n.s))
    ensures p.Completable(n.lin, n.s)
  {
    p.ExtendCompletable(n.lin, n.pos, n.s);
  }

  lemma NothingBelow(p: Problem, n: Node)
    requires p.Valid() && Scanned(p, n) && Operation(p.h, n.pos) && !n.lin[n.pos]
    requires p.Bitmap(p.Mark(n.lin, n.pos, true))
    requires p.Fits(n.pos, n.s) ==> !p.Completable(p.Mark(n.lin, n.pos, true), p.Step(n.pos, n.s))
    ensures Scanned(p, n.(pos := n.pos + 1))
  {
    assert DeadEnd(p, n.lin, n.s, n.pos);
    ScanNext(p, n);
  }

  method Check(spec: Spec, table: Table, h: History) returns (ok: bool)
    requires WellFormed(h, table)
    ensures ok <==> Linearizable(spec, table, h)
  {
    var responseOf := ResponseMap(h, table);
    var p := Problem(spec, table, h, responseOf);
    p.ForcedIsLinearizable();
    if h == [] {
      p.EverythingLinearized(p.Nothing(), spec.first);
      return true;
    }
    var linearized := new bool[|h|](_ => false);
    assert linearized[..] == p.Nothing();
    ok := RecursiveStep(p, linearized, spec.first);
  }

  /** The two implementations agree on every well-formed history. */
  method CheckersAreTheSame(spec: Spec, table: Table, h: History) returns (fast: bool, slow: bool)
    requires WellFormed(h, table) && SoundEquality(spec)
    ensures fast == slow
  {
    fast := Lincheck.Check(spec, table, h);
    slow := Check(spec, table, h);
  }
}
