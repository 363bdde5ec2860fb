/** A vector that grows by blocks of doubling size and never moves an element. */
module StableVector {

  // ---- Powers of two ----

  function Pow2(n: nat): (p: nat)
    ensures p > 0
  {
    if n == 0 then 1 else Pow2(n - 1) + Pow2(n - 1)
  }

  /** The place of the highest bit set. */
  function Log2(n: nat): (k: nat)
    requires n > 0
  {
    if n == 1 then 0 else 1 + Log2(n / 2)
  }

  lemma {:induction false} Log2Bounds(n: nat)
    requires n > 0
    ensures Pow2(Log2(n)) <= n < Pow2(Log2(n) + 1) == Pow2(Log2(n)) + Pow2(Log2(n))
  {
    if n > 1 { Log2Bounds(n / 2); }
  }

  lemma {:induction false} Pow2Grows(a: nat, b: nat)
    requires a < b
    ensures Pow2(a) < Pow2(b) && Pow2(a + 1) <= Pow2(b)
    decreases b
  {
    if a < b - 1 { Pow2Grows(a, b - 1); }
  }

  /** The highest bit is the only power of two that fits. */
  lemma Log2Unique(n: nat, k: nat)
    requires n > 0 && Pow2(k) <= n < Pow2(k + 1)
    ensures Log2(n) == k
  {
    Log2Bounds(n);
    if Log2(n) < k { Pow2Grows(Log2(n), k); }
    if k < Log2(n) { Pow2Grows(k, Log2(n)); }
  }

  lemma Log2Monotone(a: nat, b: nat)
    requires 0 < a <= b
    ensures Log2(a) <= Log2(b)
  {
    Log2Bounds(a);
    Log2Bounds(b);
    if Log2(b) < Log2(a) { Pow2Grows(Log2(b), Log2(a)); }
  }

  /** The successor of a number starts a block exactly when it is a power of two. */
  lemma Log2Step(n: nat)
    requires n > 0
    ensures Log2(n + 1) == if n + 1 == Pow2(Log2(n) + 1) then Log2(n) + 1 else Log2(n)
    ensures n + 1 == Pow2(Log2(n + 1)) <==> Log2(n + 1) == Log2(n) + 1
  {
    Log2Bounds(n);
    if n + 1 == Pow2(Log2(n) + 1) {
      Log2Unique(n + 1, Log2(n) + 1);
    } else {
      Log2Unique(n + 1, Log2(n));
    }
  }

  // ---- Slots ----

  /** A place that never moves: the number of a block and an offset inside it. */
  datatype Slot = Slot(block: nat, offset: nat)

  /** The place of the element with index `i`. */
  function SlotOf(i: nat): (s: Slot)
  {
    Log2Bounds(i + 1);
    Slot(Log2(i + 1), i + 1 - Pow2(Log2(i + 1)))
  }

  /** The index of the element at a place. */
  function IndexOf(s: Slot): nat {
    Pow2(s.block) + s.offset - 1
  }

  lemma SlotIsIndex(i: nat)
    ensures IndexOf(SlotOf(i)) == i
  {
    hide Pow2, Log2;
    Log2Bounds(i + 1);
  }

  /** Indexes and places inside the blocks correspond one to one. */
  lemma SlotsAreIndexes(i: nat, s: Slot)
    requires s.offset < Pow2(s.block)
    ensures SlotOf(i).offset < Pow2(SlotOf(i).block) && IndexOf(SlotOf(i)) == i
    ensures SlotOf(IndexOf(s)) == s
  {
    Log2Bounds(i + 1);
    Log2Unique(IndexOf(s) + 1, s.block);
  }

  /** How many blocks hold elements. */
  function Used(size: nat): nat {
    if size == 0 then 0 else Log2(size) + 1
  }

  lemma SlotIsUsed(size: nat, i: nat)
    requires i < size
    ensures SlotOf(i).block < Used(size) && SlotOf(i).offset < Pow2(SlotOf(i).block)
  {
    Log2Monotone(i + 1, size);
    Log2Bounds(i + 1);
  }

  /** The blocks of a size fit the table. */
  lemma UsedFits(size: nat, k: nat)
    requires size < Pow2(k)
    ensures Used(size) <= k
  {
    if size > 0 {
      Log2Bounds(size);
      if k < Log2(size) + 1 && k != Log2(size) { Pow2Grows(k, Log2(size)); }
    }
  }

  /** One more element uses one more block exactly when the size it makes is a power of two. */
  lemma UsedSteps(size: nat)
    ensures Used(size + 1) == Log2(size + 1) + 1
    ensures Used(size) == if size + 1 == Pow2(Log2(size + 1)) then Log2(size + 1) else Log2(size + 1) + 1
  {
    if size > 0 { Log2Step(size); }
  }

  lemma SlotsDiffer(i: nat, j: nat)
    requires i != j
    ensures SlotOf(i) != SlotOf(j)
  {
    hide SlotOf, IndexOf, Pow2;
    SlotIsIndex(i);
    SlotIsIndex(j);
  }

  /** The slots of the first blocks together. */
  function Capacity(count: nat): (c: nat) {
    if count == 0 then 0 else Capacity(count - 1) + Pow2(count - 1)
  }

  lemma {:induction false} CapacityIsPow2(count: nat)
    ensures Capacity(count) + 1 == Pow2(count)
  {
    if count > 0 { CapacityIsPow2(count - 1); }
  }

  /** With the spare block the vector has room for at most one more than four times its elements. */
  lemma SpaceIsLinear(size: nat, count: nat)
    requires Used(size) <= count <= Used(size) + 1
    ensures size <= Capacity(count) <= size + size + size + size + 1
  {
    CapacityIsPow2(count);
    if size > 0 {
      Log2Bounds(size);
      assert Pow2(Used(size) + 1) == Pow2(Used(size)) + Pow2(Used(size));
    }
    assert Pow2(1) == 1 + Pow2(0);
  }

  /** The places of the first elements, in order. */
  function Places(count: nat): (places: seq<Slot>)
    ensures |places| == count && forall i :: 0 <= i < count ==> places[i] == SlotOf(i)
  {
    seq(count, i requires 0 <= i => SlotOf(i))
  }

  const TABLE: nat := 31

  /** Removing the last element looks past the table of blocks for one size only. */
  lemma PopLeavesTable(size: nat)
    requires 0 < size < Pow2(TABLE)
    ensures size == Pow2(Log2(size)) && Log2(size) + 1 >= TABLE <==> size == Pow2(TABLE - 1)
  {
    hide Pow2, Log2;
    Log2Bounds(size);
    UsedFits(size, TABLE);
    Doubles(TABLE - 1);
    if size == Pow2(TABLE - 1) {
      Log2Unique(size, TABLE - 1);
    }
  }

  class StableVector<T(0)> {
    const entities: array<array?<T>>
    var totalSize: nat
    ghost var blocks: seq<array<T>>

    /** The allocated blocks are a prefix of the table. */
    ghost predicate Layout()
      reads this, entities
    {
      && entities.Length == TABLE
      && |blocks| <= TABLE
      && (forall i :: 0 <= i < TABLE ==> entities[i] == if i < |blocks| then blocks[i] else null)
      && (forall i :: 0 <= i < |blocks| ==> blocks[i].Length == Pow2(i) && (blocks[i] as object) != entities)
      && (forall i, j :: 0 <= i < j < |blocks| ==> blocks[i] != blocks[j])
    }

    /** The allocated blocks are those in use and at most one more. */
    ghost predicate Valid()
      reads this, entities
    {
      Layout() && Used(totalSize) <= |blocks| <= Used(totalSize) + 1
    }

    ghost function Repr(): set<object>
      reads this
    {
      set b <- blocks
    }

    ghost function At(i: nat): T
      requires Valid() && i < totalSize
      reads this, entities, Repr()
    {
      SlotIsUsed(totalSize, i);
      blocks[SlotOf(i).block][SlotOf(i).offset]
    }

    ghost function Contents(): (c: seq<T>)
      requires Valid()
      reads this, entities, Repr()
      ensures |c| == totalSize && forall i :: 0 <= i < totalSize ==> c[i] == At(i)
    {
      seq(totalSize, i requires Valid() && 0 <= i < totalSize reads this, entities, Repr() => At(i))
    }

    constructor ()
      ensures Valid() && Contents() == [] && fresh(entities) && blocks == []
    {
      entities := new array?<T>[TABLE](_ => null);
      totalSize := 0;
      blocks := [];
    }

    /** Where an element lives. */
    ghost function Address(i: nat): (array<T>, nat)
      requires Valid() && i < totalSize
      reads this, entities
    {
      SlotIsUsed(totalSize, i);
      (blocks[SlotOf(i).block], SlotOf(i).offset)
    }

    /** Allocates the next block. */
    method Allocate(index: nat)
      requires Layout() && |blocks| == index < TABLE
      modifies this`blocks, entities
      ensures Layout() && |blocks| == index + 1 && blocks[..index] == old(blocks)
      ensures fresh(blocks[index])
    {
      var block := new T[Pow2(index)];
      entities[index] := block;
      blocks := blocks + [block];
    }

    /** Frees the last block. */
    method Free(index: nat)
      requires Layout() && |blocks| == index + 1
      modifies this`blocks, entities
      ensures Layout() && blocks == old(blocks)[..index]
    {
      entities[index] := null;
      blocks := blocks[..index];
    }

    /** Adds an element at the end and tells its place. */
    method EmplaceBack(value: T) returns (slot: Slot)
      requires Valid() && totalSize + 1 < Pow2(TABLE)
      modifies this, entities, Repr()
      ensures Valid() && totalSize == old(totalSize) + 1
      ensures Contents() == old(Contents()) + [value]
      ensures slot == SlotOf(old(totalSize))
      ensures old(blocks) <= blocks && fresh(Repr() - old(Repr()))
      ensures forall i :: 0 <= i < old(totalSize) ==> Address(i) == old(Address(i))
    {
      hide Log2, Pow2;
      ghost var size := totalSize;
      var index := Log2(totalSize + 1);
      UsedSteps(totalSize);
      UsedFits(totalSize + 1, TABLE);
      Log2Bounds(totalSize + 1);
      if totalSize + 1 == Pow2(index) && entities[index] == null {
        Allocate(index);
      }
      var offset := totalSize + 1 - Pow2(index);
      slot := Slot(index, offset);
      Construct(index, offset, value);
    }

    /** Writes the element after the last one and counts it. */
    method Construct(index: nat, offset: nat, value: T)
      requires Layout() && Used(totalSize) <= |blocks| && index < |blocks| <= Used(totalSize + 1) + 1
      requires Slot(index, offset) == SlotOf(totalSize) && offset < Pow2(index)
      requires Used(totalSize + 1) == index + 1
      modifies this`totalSize, blocks[index]
      ensures Valid() && totalSize == old(totalSize) + 1
      ensures forall i :: 0 <= i < old(totalSize) ==>
        SlotOf(i).block < |blocks| && SlotOf(i).offset < Pow2(SlotOf(i).block)
      ensures forall i :: 0 <= i < old(totalSize) ==> At(i) == old(blocks[SlotOf(i).block][SlotOf(i).offset])
      ensures At(old(totalSize)) == value
    {
      hide Log2, Pow2, SlotOf;
      forall i: nat | i < totalSize
        ensures SlotOf(i) != SlotOf(totalSize) && SlotOf(i).block < |blocks| && SlotOf(i).offset < Pow2(SlotOf(i).block)
      {
        SlotsDiffer(i, totalSize);
        SlotIsUsed(totalSize, i);
      }
      entities[index][offset] := value;
      totalSize := totalSize + 1;
    }

    /** Removes the last element and tells the place it had. */
    method PopBack() returns (slot: Slot)
      requires Valid() && 0 < totalSize && totalSize != Pow2(TABLE - 1)
      modifies this, entities
      ensures Valid() && totalSize == old(totalSize) - 1
      ensures Contents() == old(Contents())[..totalSize]
      ensures slot == SlotOf(totalSize)
      ensures blocks <= old(blocks)
      ensures forall i :: 0 <= i < totalSize ==> Address(i) == old(Address(i))
    {
      hide Log2, Pow2;
      var index := Log2(totalSize);
      Log2Bounds(totalSize);
      UsedSteps(totalSize - 1);
      if totalSize == Pow2(index) && entities[index + 1] != null {
        Free(index + 1);
      }
      var offset := totalSize - Pow2(index);
      slot := Slot(index, offset);
      totalSize := totalSize - 1;
      forall i: nat | i < totalSize
        ensures SlotOf(i).block < |blocks| && SlotOf(i).offset < Pow2(SlotOf(i).block)
      {
        SlotIsUsed(totalSize, i);
      }
    }

    /** The element at an index. */
    method Get(i: nat) returns (value: T)
      requires Valid() && i < totalSize
      ensures value == Contents()[i]
    {
      SlotIsUsed(totalSize, i);
      var index := Log2(i + 1);
      var offset := i + 1 - Pow2(index);
      value := entities[index][offset];
    }

    /** Writes through the reference to the element at an index. */
    method Set(i: nat, value: T)
      requires Valid() && i < totalSize
      modifies Repr()
      ensures Valid() && Contents() == old(Contents())[i := value]
    {
      forall k: nat | k < totalSize
        ensures SlotOf(k).block < |blocks| && SlotOf(k).offset < Pow2(SlotOf(k).block)
        ensures k != i ==> SlotOf(k) != SlotOf(i)
      {
        SlotIsUsed(totalSize, k);
        if k != i { SlotsDiffer(k, i); }
      }
      var index := Log2(i + 1);
      Log2Bounds(i + 1);
      var offset := i + 1 - Pow2(index);
      assert Slot(index, offset) == SlotOf(i);
      hide Log2, Pow2, SlotOf;
      entities[index][offset] := value;
    }

    /** Grows with `fresh` elements or shrinks from the end; what stays, stays in place. A vector of
        2^30 elements cannot shrink, its block index would leave the table. */
    method Resize(newSize: nat, default: T)
      requires Valid() && newSize + 1 <= Pow2(TABLE)
      requires newSize < totalSize ==> newSize >= Pow2(TABLE - 1) || totalSize < Pow2(TABLE - 1)
      modifies this, entities, Repr()
      ensures Valid() && totalSize == newSize
      ensures forall i :: 0 <= i < newSize ==>
        Contents()[i] == if i < old(totalSize) then old(Contents())[i] else default
      ensures forall i :: 0 <= i < newSize && i < old(totalSize) ==> Address(i) == old(Address(i))
    {
      hide Log2, Pow2, SlotOf;
      ghost var before := Contents();
      while newSize > totalSize
        invariant Valid() && fresh(Repr() - old(Repr()))
        invariant old(totalSize) <= totalSize
        invariant totalSize <= newSize || totalSize == old(totalSize)
        invariant forall i :: 0 <= i < totalSize ==> Contents()[i] == if i < old(totalSize) then before[i] else default
        invariant forall i :: 0 <= i < old(totalSize) ==> Address(i) == old(Address(i))
      {
        var _ := EmplaceBack(default);
      }
      while newSize < totalSize
        invariant Valid() && newSize <= totalSize
        invariant totalSize == newSize || totalSize <= old(totalSize)
        invariant forall i :: 0 <= i < totalSize ==> Contents()[i] == if i < old(totalSize) then before[i] else default
        invariant forall i :: 0 <= i < totalSize && i < old(totalSize) ==> Address(i) == old(Address(i))
      {
        var _ := PopBack();
      }
    }

    /** The destructor: the places of the elements it destroys, in order, and the blocks it frees. */
    method Destroy() returns (destroyed: seq<Slot>, freed: nat)
      requires Valid()
      ensures destroyed == Places(totalSize)
      ensures freed == |blocks|
    {
      hide Log2, SlotOf, Used, Places, Pow2;
      destroyed, freed := [], 0;
      var i := 0;
      NoPlaces();
      UsedCovers(totalSize);
      while i < TABLE
        invariant 0 <= i <= |blocks| && freed == i
        invariant destroyed == Places(Min(Pow2(i) - 1, totalSize))
      {
        if entities[i] == null {
          break;
        }
        var j := 0;
        while j < Pow2(i) && j + Pow2(i) < totalSize + 1
          invariant 0 <= j <= Pow2(i)
          invariant j > 0 ==> Pow2(i) - 1 + j <= totalSize
          invariant destroyed == Places(Min(Pow2(i) - 1 + j, totalSize))
        {
          NextPlace(i, j);
          destroyed := destroyed + [Slot(i, j)];
          j := j + 1;
        }
        Doubles(i);
        freed := freed + 1;
        i := i + 1;
      }
      if |blocks| > Used(totalSize) { Pow2Grows(Used(totalSize), |blocks|); }
    }
  }

  function Min(a: nat, b: nat): nat { if a < b then a else b }

  lemma Doubles(k: nat)
    ensures Pow2(k + 1) == Pow2(k) + Pow2(k)
  {
  }

  lemma NoPlaces()
    ensures Pow2(0) == 1 && Places(0) == []
  {
  }

  lemma NextPlace(block: nat, offset: nat)
    requires offset < Pow2(block)
    ensures Places(Pow2(block) - 1 + offset) + [Slot(block, offset)] == Places(Pow2(block) + offset)
  {
    hide SlotOf, Pow2;
    var i := Pow2(block) - 1 + offset;
    assert SlotOf(i) == Slot(block, offset) by { SlotsAreIndexes(0, Slot(block, offset)); }
    OneMorePlace(i);
  }

  lemma OneMorePlace(i: nat)
    ensures Places(i) + [SlotOf(i)] == Places(i + 1)
  {
    hide SlotOf;
  }

  /** The blocks in use have room for every element. */
  lemma UsedCovers(size: nat)
    ensures size < Pow2(Used(size))
  {
    if size > 0 { Log2Bounds(size); }
  }
}
