/**
 * The block pool (ChunkedArray): elements live in fixed-size memory blocks,
 * are addressed by (block, index) handles, and freed slots go on a FIFO queue
 * from which they are reused once the queue is longer than the reuse
 * threshold REUSE_C. Blocks are only ever appended, never moved or removed.
 */
module ChunkedArrays {

  /** ChunkedArrayHandle / ElementHandle: a block number and a position in that block. */
  datatype Handle = Handle(block: nat, index: nat)

  /** A slot of a memory block: never constructed, holding a value, or destroyed. */
  datatype Slot<T> = Unused | Holds(value: T) | Vacated

  /** MemoryBlock: the block's slots and its contentCount. */
  datatype Block<T> = Block(contentCount: nat, slots: seq<Slot<T>>)

  /** The number of slots that currently hold a value. */
  function CountHolds<T>(s: seq<Slot<T>>): nat
  {
    if s == [] then 0 else CountHolds(s[..|s| - 1]) + (if s[|s| - 1].Holds? then 1 else 0)
  }

  /** A block as allocated: every slot unconstructed. */
  function NewBlock<T>(size: nat): (b: Block<T>)
    ensures b.contentCount == 0 && |b.slots| == size
    ensures forall i :: 0 <= i < size ==> b.slots[i] == Unused
  {
    Block(0, seq(size, _ => Unused))
  }

  /** The slot a handle designates; outside every block nothing is constructed. */
  function SlotOf<T>(blocks: seq<Block<T>>, h: Handle): Slot<T>
  {
    if h.block < |blocks| && h.index < |blocks[h.block].slots| then blocks[h.block].slots[h.index] else Unused
  }

  predicate LiveIn<T>(blocks: seq<Block<T>>, h: Handle)
  {
    SlotOf(blocks, h).Holds?
  }

  /** Every block has `size` slots and a contentCount equal to its number of live values. */
  ghost predicate Shaped<T>(blocks: seq<Block<T>>, size: nat)
  {
    && size > 0 && |blocks| > 0
    && forall b :: 0 <= b < |blocks| ==>
         |blocks[b].slots| == size && blocks[b].contentCount == CountHolds(blocks[b].slots)
  }

  /** Every block but the last is used up; the last has been handed out below `top`. */
  ghost predicate FilledBelow<T>(blocks: seq<Block<T>>, top: nat, size: nat)
  {
    && top <= size
    && forall h: Handle :: h.block < |blocks| && h.index < size ==>
         (SlotOf(blocks, h).Unused? <==> h.block == |blocks| - 1 && top <= h.index)
  }

  /** The free queue holds each destroyed slot exactly once, and nothing else. */
  ghost predicate QueueExact<T>(blocks: seq<Block<T>>, free: seq<Handle>)
  {
    && (forall k :: 0 <= k < |free| ==> SlotOf(blocks, free[k]).Vacated?)
    && (forall k, l :: 0 <= k < l < |free| ==> free[k] != free[l])
    && (forall h :: SlotOf(blocks, h).Vacated? ==> h in free)
  }

  /** The pool's bookkeeping invariant. */
  ghost predicate PoolInv<T>(blocks: seq<Block<T>>, free: seq<Handle>, top: nat, size: nat)
  {
    Shaped(blocks, size) && FilledBelow(blocks, top, size) && QueueExact(blocks, free)
  }

  /** The blocks after slot h is overwritten with x and its block's count set to c. */
  function Put<T>(blocks: seq<Block<T>>, h: Handle, c: nat, x: Slot<T>): (r: seq<Block<T>>)
    requires h.block < |blocks| && h.index < |blocks[h.block].slots|
    ensures |r| == |blocks| && r[h.block].contentCount == c
    ensures forall b :: 0 <= b < |r| ==> |r[b].slots| == |blocks[b].slots|
    ensures forall g :: SlotOf(r, g) == if g == h then x else SlotOf(blocks, g)
  {
    var b := blocks[h.block];
    var r := blocks[h.block := Block(c, b.slots[h.index := x])];
    assert forall g :: SlotOf(r, g) == if g == h then x else SlotOf(blocks, g) by {
      forall g ensures SlotOf(r, g) == if g == h then x else SlotOf(blocks, g) {
        if g.block == h.block && g.index < |b.slots| {
          assert SlotOf(r, g) == b.slots[h.index := x][g.index];
        }
      }
    }
    r
  }

  /** Appending a fresh block changes no slot. */
  lemma GrowKeepsSlots<T>(blocks: seq<Block<T>>, size: nat)
    ensures forall g :: SlotOf(blocks + [NewBlock(size)], g) == SlotOf(blocks, g)
  {
    forall g ensures SlotOf(blocks + [NewBlock(size)], g) == SlotOf(blocks, g) {
      if g.block < |blocks| {
        assert (blocks + [NewBlock(size)])[g.block] == blocks[g.block];
      }
    }
  }

  /** Storing into slot h with the matching count keeps every block shaped. */
  lemma PutKeepsShape<T>(blocks: seq<Block<T>>, size: nat, h: Handle, x: Slot<T>)
    requires Shaped(blocks, size) && h.block < |blocks| && h.index < size
    ensures var c := blocks[h.block].contentCount - (if SlotOf(blocks, h).Holds? then 1 else 0);
            c + (if x.Holds? then 1 else 0) >= 0 &&
            Shaped(Put(blocks, h, c + (if x.Holds? then 1 else 0), x), size)
  {
    var s := blocks[h.block].slots;
    CountHoldsUpdate(s, h.index, x);
    var c := blocks[h.block].contentCount - (if SlotOf(blocks, h).Holds? then 1 else 0) + (if x.Holds? then 1 else 0);
    var r := Put(blocks, h, c, x);
    assert r[h.block].slots == s[h.index := x];
  }

  /** Reusing the front of the free queue keeps the invariant. */
  lemma ReuseKeepsInv<T>(blocks: seq<Block<T>>, free: seq<Handle>, top: nat, size: nat, v: T)
    requires PoolInv(blocks, free, top, size) && |free| > 0
    ensures free[0].block < |blocks| && free[0].index < size
    ensures PoolInv(Put(blocks, free[0], blocks[free[0].block].contentCount + 1, Holds(v)), free[1..], top, size)
  {
    var h := free[0];
    PutKeepsShape(blocks, size, h, Holds(v));
    var r := Put(blocks, h, blocks[h.block].contentCount + 1, Holds(v));
    forall g | SlotOf(r, g).Vacated?
      ensures g in free[1..]
    {
      assert g in free && g != h;
      var k :| 0 <= k < |free| && free[k] == g;
      assert free[1..][k - 1] == g;
    }
  }

  /** Opening the first never-used slot of the last block keeps the invariant. */
  lemma OpenKeepsInv<T>(blocks: seq<Block<T>>, free: seq<Handle>, top: nat, size: nat, v: T)
    requires PoolInv(blocks, free, top, size) && top < size
    ensures PoolInv(Put(blocks, Handle(|blocks| - 1, top), blocks[|blocks| - 1].contentCount + 1, Holds(v)),
                    free, top + 1, size)
  {
    var h := Handle(|blocks| - 1, top);
    PutKeepsShape(blocks, size, h, Holds(v));
  }

  /** Appending a new block when the last one is used up keeps the invariant. */
  lemma GrowKeepsInv<T>(blocks: seq<Block<T>>, free: seq<Handle>, top: nat, size: nat)
    requires PoolInv(blocks, free, top, size) && top >= size
    ensures PoolInv(blocks + [NewBlock(size)], free, 0, size)
  {
    var r := blocks + [NewBlock(size)];
    GrowKeepsSlots(blocks, size);
    CountHoldsNone(NewBlock<T>(size).slots);
    forall b | 0 <= b < |r|
      ensures |r[b].slots| == size && r[b].contentCount == CountHolds(r[b].slots)
    {
      if b < |blocks| {
        assert r[b] == blocks[b];
      }
    }
    forall g: Handle | g.block < |r| && g.index < size
      ensures SlotOf(r, g).Unused? <==> g.block == |r| - 1
    {
      if g.block == |blocks| {
        assert SlotOf(r, g) == NewBlock<T>(size).slots[g.index];
      }
    }
  }

  /** Destroying a live slot and queueing it keeps the invariant. */
  lemma DestroyKeepsInv<T>(blocks: seq<Block<T>>, free: seq<Handle>, top: nat, size: nat, h: Handle)
    requires PoolInv(blocks, free, top, size) && LiveIn(blocks, h)
    ensures h.block < |blocks| && h.index < size && blocks[h.block].contentCount >= 1
    ensures PoolInv(Put(blocks, h, blocks[h.block].contentCount - 1, Vacated), free + [h], top, size)
  {
    PutKeepsShape(blocks, size, h, Vacated);
    var r := Put(blocks, h, blocks[h.block].contentCount - 1, Vacated);
    assert h !in free;
    forall k, l | 0 <= k < l < |free + [h]|
      ensures (free + [h])[k] != (free + [h])[l]
    {
      if l < |free| {
        assert (free + [h])[k] == free[k] && (free + [h])[l] == free[l];
      } else {
        assert (free + [h])[k] == free[k];
      }
    }
    forall k | 0 <= k < |free + [h]|
      ensures SlotOf(r, (free + [h])[k]).Vacated?
    {
      if k < |free| {
        assert (free + [h])[k] == free[k];
      }
    }
  }

  /**
   * The slot add hands out: the front of the free queue once the queue is
   * longer than the reuse threshold; else the first never-used slot of the
   * last block; else slot 0 of a new block.
   */
  function Pick<T>(blocks: seq<Block<T>>, free: seq<Handle>, top: nat, size: nat, reuse: nat): Handle
    requires |blocks| > 0
  {
    if |free| > reuse then free[0]
    else if top >= size then Handle(|blocks|, 0)
    else Handle(|blocks| - 1, top)
  }

  /**
   * The slot dom.h's add picks: like Pick, but the path that opens a never-used slot indexes the last
   * block by its contentCount, which destroy has decremented.
   */
  function SourcePick<T>(blocks: seq<Block<T>>, free: seq<Handle>, size: nat, reuse: nat): Handle
    requires |blocks| > 0
  {
    if |free| > reuse then free[0]
    else if blocks[|blocks| - 1].contentCount >= size then Handle(|blocks|, 0)
    else Handle(|blocks| - 1, blocks[|blocks| - 1].contentCount)
  }

  lemma {:induction false} CountHoldsUpdate<T>(s: seq<Slot<T>>, i: nat, x: Slot<T>)
    requires i < |s|
    ensures CountHolds(s[i := x]) + (if s[i].Holds? then 1 else 0) == CountHolds(s) + (if x.Holds? then 1 else 0)
    decreases |s|
  {
    var n := |s| - 1;
    assert s[i := x][..n] == if i < n then s[..n][i := x] else s[..n];
    if i < n {
      CountHoldsUpdate(s[..n], i, x);
    }
  }

  lemma {:induction false} CountHoldsNone<T>(s: seq<Slot<T>>)
    requires forall i :: 0 <= i < |s| ==> !s[i].Holds?
    ensures CountHolds(s) == 0
    decreases |s|
  {
    if s != [] {
      CountHoldsNone(s[..|s| - 1]);
    }
  }

  /** A block live exactly on a prefix of length k counts k values. */
  lemma {:induction false} CountHoldsPrefix<T>(s: seq<Slot<T>>, k: nat)
    requires k <= |s|
    requires forall i :: 0 <= i < |s| ==> (s[i].Holds? <==> i < k)
    ensures CountHolds(s) == k
    decreases |s|
  {
    if |s| > k {
      CountHoldsPrefix(s[..|s| - 1], k);
    } else if s != [] {
      CountHoldsPrefix(s[..|s| - 1], k - 1);
    }
  }

  /** The slot Pick chooses never holds a live value. */
  lemma PickIsFree<T>(blocks: seq<Block<T>>, free: seq<Handle>, top: nat, size: nat, reuse: nat)
    requires PoolInv(blocks, free, top, size)
    ensures !LiveIn(blocks, Pick(blocks, free, top, size, reuse))
    ensures |free| > reuse ==> SlotOf(blocks, Pick(blocks, free, top, size, reuse)).Vacated?
    ensures |free| <= reuse ==> SlotOf(blocks, Pick(blocks, free, top, size, reuse)) == Unused
  {
  }

  /**
   * With REUSE_C = 0 (ChunkedArray.h, and every component pool of dom.h)
   * dom.h's contentCount-based choice is exactly Pick.
   */
  lemma SourcePickAgreesWithoutThreshold<T>(blocks: seq<Block<T>>, free: seq<Handle>, top: nat, size: nat)
    requires PoolInv(blocks, free, top, size)
    ensures SourcePick(blocks, free, size, 0) == Pick(blocks, free, top, size, 0)
  {
    if free == [] {
      var last := |blocks| - 1;
      var s := blocks[last].slots;
      forall i | 0 <= i < |s|
        ensures s[i].Holds? <==> i < top
      {
        assert SlotOf(blocks, Handle(last, i)) == s[i];
      }
      CountHoldsPrefix(s, top);
    }
  }

  /**
   * The pool state after add, add, destroy(first) with block size 4 and
   * REUSE_C = 1: dom.h's choice for the next add is the slot that still holds
   * the second value, while Pick takes the next unused slot.
   */
  lemma SourcePickCanReturnLiveSlot()
    ensures var blocks := [Block(1, [Vacated, Holds(20), Unused, Unused])];
            var free := [Handle(0, 0)];
            && PoolInv(blocks, free, 2, 4)
            && SourcePick(blocks, free, 4, 1) == Handle(0, 1)
            && LiveIn(blocks, Handle(0, 1))
            && Pick(blocks, free, 2, 4, 1) == Handle(0, 2)
            && !LiveIn(blocks, Handle(0, 2))
  {
    var s1: seq<Slot<int>> := [Vacated];
    assert s1[..0] == [];
    assert CountHolds(s1) == 0;
    var s2 := s1 + [Holds(20)];
    assert s2[..1] == s1;
    assert CountHolds(s2) == 1;
    var s3 := s2 + [Unused];
    assert s3[..2] == s2;
    assert CountHolds(s3) == 1;
    var s := s3 + [Unused];
    assert s[..3] == s3;
    assert CountHolds(s) == 1 && s == [Vacated, Holds(20), Unused, Unused];
    var blocks := [Block(1, s)];
    assert Shaped(blocks, 4);
    forall h | SlotOf(blocks, h).Vacated?
      ensures h in [Handle(0, 0)]
    {
      assert h.block == 0 && h.index < 4;
    }
  }

  class ChunkedArray<T> {
    /** BLOCK_SIZE: the number of slots per block. */
    const blockSize: nat
    /** REUSE_C: the free queue must be longer than this before a slot is reused. */
    const reuse: nat
    /** mBlocks */
    var blocks: seq<Block<T>>
    /** mFreeSlots, front first */
    var freeSlots: seq<Handle>
    /** The first never-used slot of the last block. */
    var top: nat

    ghost predicate Valid()
      reads this
    {
      PoolInv(blocks, freeSlots, top, blockSize)
    }

    function SlotAt(h: Handle): Slot<T>
      reads this
    {
      SlotOf(blocks, h)
    }

    predicate IsLive(h: Handle)
      reads this
    {
      LiveIn(blocks, h)
    }

    /** blockCount() */
    function BlockCount(): (n: nat)
      reads this
      ensures Valid() ==> n >= 1
    {
      |blocks|
    }

    /** The handle the next add will return. */
    function NextSlot(): Handle
      reads this
      requires Valid()
    {
      Pick(blocks, freeSlots, top, blockSize, reuse)
    }

    /** A new array with a single, empty block. */
    constructor (blockSize: nat, reuse: nat)
      requires blockSize > 0
      ensures Valid() && this.blockSize == blockSize && this.reuse == reuse
      ensures BlockCount() == 1 && blocks[0].contentCount == 0 && freeSlots == [] && top == 0
      ensures forall h :: SlotAt(h) == Unused
      ensures NextSlot() == Handle(0, 0)
    {
      this.blockSize := blockSize;
      this.reuse := reuse;
      blocks := [NewBlock(blockSize)];
      freeSlots := [];
      top := 0;
      CountHoldsNone(NewBlock<T>(blockSize).slots);
    }

    /** A live slot lies inside the pool. */
    lemma LiveInBounds(h: Handle)
      requires Valid() && IsLive(h)
      ensures h.block < BlockCount() && h.index < blockSize
    {
    }

    /** get(h): the value stored in a live slot. */
    function Get(h: Handle): (v: T)
      reads this
      requires IsLive(h)
      ensures SlotAt(h) == Holds(v)
    {
      SlotAt(h).value
    }

    /**
     * add(v): picks a slot (see Pick), increments its block's contentCount and
     * constructs v there. The slot was not live, and no other slot changes.
     */
    method Add(v: T) returns (h: Handle)
      requires Valid()
      modifies this
      ensures Valid()
      ensures h == old(NextSlot())
      ensures old(|freeSlots|) > reuse ==> h == old(freeSlots[0]) && freeSlots == old(freeSlots[1..])
      ensures old(|freeSlots|) <= reuse ==> freeSlots == old(freeSlots)
      ensures top == if old(|freeSlots|) > reuse then old(top) else if old(top) >= blockSize then 1 else old(top) + 1
      ensures old(|freeSlots|) <= reuse && old(top) >= blockSize ==>
                h == Handle(old(|blocks|), 0) && BlockCount() == old(BlockCount()) + 1
      ensures old(|freeSlots|) <= reuse && old(top) < blockSize ==> h == Handle(old(|blocks|) - 1, old(top))
      ensures h.block < old(BlockCount()) ==> BlockCount() == old(BlockCount())
      ensures blocks[h.block].contentCount ==
                (if h.block < old(|blocks|) then old(blocks[h.block].contentCount) else 0) + 1
      ensures h.block < BlockCount() && h.index < blockSize
      ensures !old(IsLive(h))
      ensures SlotAt(h) == Holds(v)
      ensures forall g :: g != h ==> SlotAt(g) == old(SlotAt(g))
    {
      PickIsFree(blocks, freeSlots, top, blockSize, reuse);
      if |freeSlots| > reuse {
        h := AddReused(v);
      } else {
        h := AddFresh(v);
      }
    }

    /** The branch of add that takes the front of the free queue. */
    method AddReused(v: T) returns (h: Handle)
      requires Valid() && |freeSlots| > reuse
      modifies this
      ensures Valid() && h == old(freeSlots[0]) && freeSlots == old(freeSlots[1..]) && top == old(top)
      ensures h.block < old(|blocks|) && h.index < old(|blocks[h.block].slots|)
      ensures blocks == Put(old(blocks), h, old(blocks[h.block].contentCount) + 1, Holds(v))
    {
      h := freeSlots[0];
      ReuseKeepsInv(blocks, freeSlots, top, blockSize, v);
      blocks, freeSlots := Put(blocks, h, blocks[h.block].contentCount + 1, Holds(v)), freeSlots[1..];
    }

    /** The branch of add that opens the next never-used slot, appending a block when the last is used up. */
    method AddFresh(v: T) returns (h: Handle)
      requires Valid()
      modifies this
      ensures Valid() && freeSlots == old(freeSlots)
      ensures old(top) >= blockSize ==> h == Handle(old(|blocks|), 0) && top == 1 && |blocks| == old(|blocks|) + 1
      ensures old(top) < blockSize ==> h == Handle(old(|blocks|) - 1, old(top)) && top == old(top) + 1 && |blocks| == old(|blocks|)
      ensures h.block < |blocks| && h.index < blockSize
      ensures blocks[h.block].contentCount == (if h.block < old(|blocks|) then old(blocks[h.block].contentCount) else 0) + 1
      ensures forall g :: SlotOf(blocks, g) == if g == h then Holds(v) else old(SlotOf(blocks, g))
    {
      if top >= blockSize {
        GrowKeepsInv(blocks, freeSlots, top, blockSize);
        GrowKeepsSlots(blocks, blockSize);
        blocks := blocks + [NewBlock(blockSize)];
        top := 0;
      }
      h := Handle(|blocks| - 1, top);
      OpenKeepsInv(blocks, freeSlots, top, blockSize, v);
      blocks, top := Put(blocks, h, blocks[h.block].contentCount + 1, Holds(v)), top + 1;
    }

    /** The write through the reference get(h) returns. */
    method Set(h: Handle, v: T)
      requires Valid() && IsLive(h)
      modifies this
      ensures Valid()
      ensures SlotAt(h) == Holds(v)
      ensures forall g :: g != h ==> SlotAt(g) == old(SlotAt(g))
      ensures freeSlots == old(freeSlots) && top == old(top) && BlockCount() == old(BlockCount())
    {
      PutKeepsShape(blocks, blockSize, h, Holds(v));
      blocks := Put(blocks, h, blocks[h.block].contentCount, Holds(v));
    }

    /**
     * destroy(h): decrements the block's contentCount, destroys the value and
     * queues the slot. With no reuse threshold and an empty queue, the very
     * next add hands this slot out again.
     */
    method Destroy(h: Handle)
      requires Valid() && IsLive(h)
      modifies this
      ensures Valid()
      ensures SlotAt(h) == Vacated
      ensures forall g :: g != h ==> SlotAt(g) == old(SlotAt(g))
      ensures freeSlots == old(freeSlots) + [h] && top == old(top)
      ensures BlockCount() == old(BlockCount())
      ensures blocks[h.block].contentCount + 1 == old(blocks[h.block].contentCount)
      ensures reuse == 0 && old(freeSlots) == [] ==> NextSlot() == h
    {
      DestroyKeepsInv(blocks, freeSlots, top, blockSize, h);
      blocks := Put(blocks, h, blocks[h.block].contentCount - 1, Vacated);
      freeSlots := freeSlots + [h];
    }
  }

  /**
   * A pool with block size 2 and no reuse threshold: three adds need a second
   * block and keep the first two handles; after destroying the second element
   * the next add reuses its slot.
   */
  method BlockSizeTwoScenario() returns (handles: seq<Handle>, count: nat, reused: Handle)
    ensures handles == [Handle(0, 0), Handle(0, 1), Handle(1, 0)]
    ensures count == 2
    ensures reused == handles[1]
  {
    var pool := new ChunkedArray<int>(2, 0);
    var a := pool.Add(1);
    assert a == Handle(0, 0) && pool.top == 1 && pool.freeSlots == [] && pool.BlockCount() == 1;
    var b := pool.Add(2);
    assert b == Handle(0, 1) && pool.top == 2 && pool.freeSlots == [] && pool.BlockCount() == 1;
    var c := pool.Add(3);
    assert c == Handle(1, 0) && pool.freeSlots == [];
    handles := [a, b, c];
    count := pool.BlockCount();
    pool.Destroy(b);
    assert pool.freeSlots == [b];
    reused := pool.Add(4);
  }

  /**
   * The state of SourcePickCanReturnLiveSlot is reachable: with block size 4
   * and REUSE_C = 1, after add, add, destroy(first) the slot dom.h's add
   * picks (sourcePick) is the second one, which is live, while this pool
   * hands out the unused third one.
   */
  method ReuseThresholdScenario() returns (first: Handle, second: Handle, sourcePick: Handle, secondLive: bool, third: Handle)
    ensures first == Handle(0, 0) && second == Handle(0, 1) && third == Handle(0, 2)
    ensures sourcePick == second && secondLive
  {
    var pool := new ChunkedArray<int>(4, 1);
    first := pool.Add(10);
    assert first == Handle(0, 0) && pool.top == 1 && pool.freeSlots == [] && pool.BlockCount() == 1;
    assert pool.blocks[0].contentCount == 1;
    second := pool.Add(20);
    assert second == Handle(0, 1) && pool.top == 2 && pool.freeSlots == [] && pool.BlockCount() == 1;
    assert pool.blocks[0].contentCount == 2;
    pool.Destroy(first);
    assert |pool.blocks| == 1 && pool.blocks[0].contentCount == 1 && pool.freeSlots == [first];
    sourcePick := SourcePick(pool.blocks, pool.freeSlots, pool.blockSize, pool.reuse);
    secondLive := pool.IsLive(second);
    third := pool.Add(30);
  }
}
