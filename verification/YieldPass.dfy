/** The compiler pass that puts a yield after each access to memory in the functions under test. */
module YieldPass {

  datatype Instruction =
    | LoadInst(id: int)
    | StoreInst(id: int)
    | AtomicRMWInst(id: int)
    | CallInst(callee: string)
    | OtherInst(id: int)

  const YIELD: string := "CoroYield"

  /** Exchanges by comparison are not among the instructions that need a yield. */
  predicate NeedInterrupt(insn: Instruction) {
    insn.LoadInst? || insn.StoreInst? || insn.AtomicRMWInst?
  }

  predicate ItsYieldInst(insn: Instruction) {
    insn == CallInst(YIELD)
  }

  /** What the pass makes of a block. */
  function WithYields(block: seq<Instruction>): (out: seq<Instruction>) {
    if |block| <= 1 then block
    else if NeedInterrupt(block[0]) && !ItsYieldInst(block[1]) then [block[0], CallInst(YIELD)] + WithYields(block[1..])
    else [block[0]] + WithYields(block[1..])
  }

  /** The pass on one block: it inserts while it walks, and steps over what it inserted. */
  method InsertYields(block: seq<Instruction>) returns (out: seq<Instruction>)
    requires block != []
    ensures out == WithYields(block)
  {
    out := block;
    var it := 0;
    while it + 1 < |out|
      invariant 0 <= it < |out|
      invariant out[..it] + WithYields(out[it..]) == WithYields(block)
      decreases |out| - it
    {
      hide WithYields;
      if NeedInterrupt(out[it]) && !ItsYieldInst(out[it + 1]) {
        Walk(out, it, [CallInst(YIELD)]);
        out := out[..it + 1] + [CallInst(YIELD)] + out[it + 1..];
        it := it + 1;
      } else {
        Walk(out, it, []);
      }
      it := it + 1;
    }
    assert out[..it] + out[it..] == out;
  }

  /** One step of the walk, which inserts `more` after the instruction it leaves behind. */
  lemma Walk(out: seq<Instruction>, it: nat, more: seq<Instruction>)
    requires it + 1 < |out|
    requires more == if NeedInterrupt(out[it]) && !ItsYieldInst(out[it + 1]) then [CallInst(YIELD)] else []
    ensures var next, at := out[..it + 1] + more + out[it + 1..], it + 1 + |more|;
      && (more == [] ==> next == out)
      && next[at..] == out[it + 1..]
      && next[..at] + WithYields(next[at..]) == out[..it] + WithYields(out[it..])
  {
    var rest := out[it..];
    assert rest[0] == out[it] && rest[1] == out[it + 1] && rest[1..] == out[it + 1..];
    assert WithYields(rest) == [out[it]] + more + WithYields(rest[1..]);
    assert out[..it + 1] == out[..it] + [out[it]];
  }

  // ---- What the pass promises ----

  function Erased(block: seq<Instruction>): (out: seq<Instruction>) {
    if block == [] then []
    else (if ItsYieldInst(block[0]) then [] else [block[0]]) + Erased(block[1..])
  }

  /** Every access that is not last is followed at once by a yield. */
  ghost predicate Interrupted(block: seq<Instruction>) {
    forall i :: 0 <= i < |block| - 1 && NeedInterrupt(block[i]) ==> ItsYieldInst(block[i + 1])
  }

  lemma {:induction false} KeepsEnds(block: seq<Instruction>)
    requires block != []
    ensures WithYields(block) != []
    ensures WithYields(block)[0] == block[0]
    ensures WithYields(block)[|WithYields(block)| - 1] == block[|block| - 1]
  {
    if |block| > 1 { KeepsEnds(block[1..]); }
  }

  /** Without its yields the block is what it was, in the same order. */
  lemma {:induction false} ErasureIsKept(block: seq<Instruction>)
    ensures Erased(WithYields(block)) == Erased(block)
  {
    if |block| > 1 {
      ErasureIsKept(block[1..]);
      var tail := WithYields(block[1..]);
      assert ([block[0]] + tail)[1..] == tail;
      assert ([CallInst(YIELD)] + tail)[1..] == tail;
      assert ([block[0], CallInst(YIELD)] + tail)[1..] == [CallInst(YIELD)] + tail;
    }
  }

  lemma {:induction false} AccessesAreInterrupted(block: seq<Instruction>)
    ensures Interrupted(WithYields(block))
  {
    if |block| > 1 {
      AccessesAreInterrupted(block[1..]);
      KeepsEnds(block[1..]);
      var out, tail := WithYields(block), WithYields(block[1..]);
      var skip := |out| - |tail|;
      assert forall i :: skip <= i < |out| ==> out[i] == tail[i - skip];
    }
  }

  /** The pass changes a block exactly when some access lacks its yield; a second run changes nothing. */
  lemma {:induction false} ChangesOnlyIfNeeded(block: seq<Instruction>)
    ensures WithYields(block) == block <==> Interrupted(block)
    ensures |WithYields(block)| >= |block|
  {
    if |block| > 1 {
      ChangesOnlyIfNeeded(block[1..]);
      assert forall i :: 0 < i < |block| ==> block[i] == block[1..][i - 1];
      if Interrupted(block) {
        forall i | 0 <= i < |block[1..]| - 1 && NeedInterrupt(block[1..][i]) ensures ItsYieldInst(block[1..][i + 1]) {
          assert NeedInterrupt(block[i + 1]);
        }
        assert NeedInterrupt(block[0]) ==> ItsYieldInst(block[0 + 1]);
        assert block == [block[0]] + block[1..];
      } else if WithYields(block) == block {
        AccessesAreInterrupted(block);
        assert false;
      }
    }
  }

  lemma SecondRunChangesNothing(block: seq<Instruction>)
    ensures WithYields(WithYields(block)) == WithYields(block)
  {
    AccessesAreInterrupted(block);
    ChangesOnlyIfNeeded(WithYields(block));
  }

  /** A load, a store or an atomic update of memory. */
  predicate Touches(insn: Instruction) {
    match insn
    case LoadInst(_) | StoreInst(_) | AtomicRMWInst(_) => true
    case CallInst(_) | OtherInst(_) => false
  }

  /** The accesses that are followed by something other than a call of the yield. */
  function Lacking(block: seq<Instruction>): (n: nat) {
    if |block| <= 1 then 0
    else Lacking(block[1..]) + if Touches(block[0]) && block[1] != CallInst("CoroYield") then 1 else 0
  }

  /** The pass inserts one call for each access that lacks it, and nothing else. */
  lemma {:induction false} InsertsOncePerAccess(block: seq<Instruction>)
    ensures |WithYields(block)| == |block| + Lacking(block)
  {
    if |block| > 1 { InsertsOncePerAccess(block[1..]); }
  }

  /** In a block closed by a terminator every access is followed by a yield. */
  lemma EveryAccessYields(block: seq<Instruction>, i: nat)
    requires block != [] && !Touches(block[|block| - 1])
    requires i < |WithYields(block)| && Touches(WithYields(block)[i])
    ensures i + 1 < |WithYields(block)| && WithYields(block)[i + 1] == CallInst("CoroYield")
  {
    AccessesAreInterrupted(block);
    KeepsEnds(block);
  }
}
