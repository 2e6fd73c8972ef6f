/** The allocator's block chain as a value: first-fit allocation on it, and why
    blocks never overlap. */
module HeapBlocks {
  import opened Words

  const HEADER := 24
  const ALIGNMENT := 64

  /** A block: the address of its header, the size of the payload behind it. */
  datatype Block = Block(at: nat, size: nat, free: bool, critical: bool)
  {
    function Payload(): nat { at + HEADER }

    function End(): nat { at + HEADER + size }
  }

  /** aligned_size: 64-byte multiples, in 32-bit arithmetic. */
  function AlignedSize(size: U32): U32 {
    if size % ALIGNMENT == 0 then size else Wrap32(size / ALIGNMENT * ALIGNMENT + ALIGNMENT)
  }

  /** The aligned size is the least multiple of 64 that is large enough, except
      that sizes above 2^32 - 64 wrap around to 0. */
  lemma AlignedSizeIs(size: U32)
    ensures AlignedSize(size) % ALIGNMENT == 0
    ensures size <= 0xffff_ffc0 ==> size <= AlignedSize(size) < size + ALIGNMENT
    ensures AlignedSize(size) == 0 <==> size == 0 || size > 0xffff_ffc0
  {
  }

  /** Headers and payloads follow one another in address order, starting with
      the permanent empty block at the start of the arena, and the last one ends
      within the 32-bit address space. */
  ghost predicate Ordered(bs: seq<Block>, start: nat) {
    && bs != []
    && bs[0] == Block(start, 0, false, true)
    && (forall i :: 0 <= i < |bs| - 1 ==> bs[i].End() <= bs[i + 1].at)
    && bs[|bs| - 1].End() < U32_MODULUS
  }

  /** Any two blocks, headers included, are disjoint. */
  lemma {:induction false} BlocksDisjoint(bs: seq<Block>, start: nat, i: nat, j: nat)
    requires Ordered(bs, start) && i < j < |bs|
    ensures bs[i].End() <= bs[j].at
    decreases j - i
  {
    if i + 1 < j {
      BlocksDisjoint(bs, start, i, j - 1);
      assert bs[j - 1].End() <= bs[j].at;
    }
  }

  /** Every block ends within the address space, and starts at or after start. */
  lemma BlockInMemory(bs: seq<Block>, start: nat, i: nat)
    requires Ordered(bs, start) && i < |bs|
    ensures start <= bs[i].at && bs[i].End() < U32_MODULUS
    ensures i > 0 ==> start + HEADER <= bs[i].at
  {
    if i > 0 {
      BlocksDisjoint(bs, start, 0, i);
    }
    if i < |bs| - 1 {
      BlocksDisjoint(bs, start, i, |bs| - 1);
    }
  }

  /** The first free block, from the i-th on, that is large enough. */
  function FirstFit(bs: seq<Block>, need: nat, i: nat): (r: nat)
    requires i <= |bs|
    ensures i <= r <= |bs|
    ensures r < |bs| ==> bs[r].free && bs[r].size >= need
    ensures forall j :: i <= j < r ==> !(bs[j].free && bs[j].size >= need)
    decreases |bs| - i
  {
    if i < |bs| && !(bs[i].free && bs[i].size >= need) then FirstFit(bs, need, i + 1) else i
  }

  /** No free block is large enough, and behind the last one the arena has ended. */
  ghost predicate OutOfMemory(bs: seq<Block>, limit: nat, need: nat)
    requires bs != []
  {
    (forall b | b in bs && b.free :: b.size < need) && bs[|bs| - 1].End() > limit
  }

  lemma NoFit(bs: seq<Block>, limit: nat, need: nat)
    requires bs != []
    ensures OutOfMemory(bs, limit, need)
       <==> FirstFit(bs, need, 0) == |bs| && bs[|bs| - 1].End() > limit
  {
    if FirstFit(bs, need, 0) < |bs| {
      assert bs[FirstFit(bs, need, 0)] in bs;
    }
  }

  /** The chain after need bytes, an aligned size, have been allocated in it. */
  function Allocate(bs: seq<Block>, need: nat): seq<Block>
    requires bs != []
  {
    var i := FirstFit(bs, need, 0);
    if i < |bs| then bs[i := bs[i].(free := false, critical := false)]
    else bs + [Block(Wrap32(bs[|bs| - 1].End()), need, false, false)]
  }

  /** A live block is neither moved nor handed out again. */
  lemma AllocateKeepsLive(bs: seq<Block>, need: nat, k: nat)
    requires k < |bs| && !bs[k].free
    ensures k < |Allocate(bs, need)| && Allocate(bs, need)[k] == bs[k] && k != FirstFit(bs, need, 0)
  {
  }

  /** The chain is extended only when no free block is large enough, and then
      it stays in order exactly when the new block ends within the address
      space. */
  lemma AllocateKeepsOrder(bs: seq<Block>, start: nat, need: nat)
    requires Ordered(bs, start)
    ensures Ordered(Allocate(bs, need), start) <==>
              FirstFit(bs, need, 0) < |bs| || bs[|bs| - 1].End() + HEADER + need < U32_MODULUS
  {
    var bs' := Allocate(bs, need);
    if FirstFit(bs, need, 0) < |bs| {
      assert forall i :: 0 <= i < |bs| ==> bs'[i].End() == bs[i].End() && bs'[i].at == bs[i].at;
    } else {
      assert bs'[|bs|].End() == bs[|bs| - 1].End() + HEADER + need;
    }
  }

  /** One oversized request is enough: the header of the next block is then
      written into a live payload. */
  lemma OversizedRequestOverlaps()
    ensures var bs := [Block(0x10_0000, 0, false, true)];
            var bs' := Allocate(Allocate(Allocate(bs, 64), 0xffff_ffc0), 64);
            && |bs'| == 4 && !bs'[1].free
            && bs'[1].Payload() <= bs'[3].at < bs'[3].Payload() <= bs'[1].End()
  {
    var bs := [Block(0x10_0000, 0, false, true)];
    assert Allocate(bs, 64) == bs + [Block(0x10_0018, 64, false, false)];
    var bs1 := Allocate(bs, 64);
    assert FirstFit(bs1, 0xffff_ffc0, 0) == 2;
    assert Allocate(bs1, 0xffff_ffc0) == bs1 + [Block(0x10_0070, 0xffff_ffc0, false, false)];
    var bs2 := Allocate(bs1, 0xffff_ffc0);
    assert FirstFit(bs2, 64, 0) == 3;
  }

  /** Every block, payload included, ends within the arena. */
  ghost predicate InArena(bs: seq<Block>, limit: nat) {
    forall i :: 0 <= i < |bs| ==> bs[i].End() <= limit
  }

  /** A block is reused, or there is room for the header and the payload of a new
      one. The out-of-memory test bounds only the header. */
  ghost predicate RoomInArena(bs: seq<Block>, limit: nat, need: nat)
    requires bs != []
  {
    FirstFit(bs, need, 0) < |bs| || bs[|bs| - 1].End() + HEADER + need <= limit
  }

  /** An allocation keeps the blocks in the arena exactly when there is room. */
  lemma AllocateInArena(bs: seq<Block>, start: nat, limit: nat, need: nat)
    requires Ordered(bs, start) && InArena(bs, limit)
    ensures InArena(Allocate(bs, need), limit) <==> RoomInArena(bs, limit, need)
  {
    var bs' := Allocate(bs, need);
    if FirstFit(bs, need, 0) < |bs| {
      assert forall i :: 0 <= i < |bs| ==> bs'[i].End() == bs[i].End();
    } else {
      assert bs'[|bs|].End() == bs[|bs| - 1].End() + HEADER + need;
      assert forall i :: 0 <= i < |bs| ==> bs'[i] == bs[i];
    }
  }

  /** In an arena of 24 bytes, which the first header fills, a request passes the
      test and gets a payload that starts behind the end. */
  lemma PayloadOutsideArena()
    ensures var bs := [Block(0x10_0000, 0, false, true)];
            var limit := 0x10_0018;
            var bs' := Allocate(bs, 64);
            && Ordered(bs, 0x10_0000) && InArena(bs, limit) && bs[0].End() <= limit
            && |bs'| == 2 && bs'[1].Payload() > limit
  {
    var bs := [Block(0x10_0000, 0, false, true)];
    assert FirstFit(bs, 64, 0) == 1;
  }

  /** Freeing and shrinking a block moves none. */
  lemma UpdateInArena(bs: seq<Block>, limit: nat, i: nat, b: Block)
    requires i < |bs| && b.at == bs[i].at && b.size <= bs[i].size && InArena(bs, limit)
    ensures InArena(bs[i := b], limit)
  {
  }

  lemma FreeInArena(bs: seq<Block>, limit: nat, i: nat)
    requires i < |bs|
    ensures InArena(bs[i := bs[i].(free := true)], limit) <==> InArena(bs, limit)
  {
    var bs' := bs[i := bs[i].(free := true)];
    assert forall k :: 0 <= k < |bs| ==> bs'[k].End() == bs[k].End();
  }

  /** alloc_used: the bytes in blocks that are live, or in all of them. */
  function UsedBytes(bs: seq<Block>, all: bool): nat {
    if bs == [] then 0 else
      UsedBytes(bs[..|bs| - 1], all) + if all || !bs[|bs| - 1].free then bs[|bs| - 1].size else 0
  }

  lemma {:induction false} UsedAfterUpdate(bs: seq<Block>, i: nat, b: Block, all: bool)
    requires i < |bs|
    ensures UsedBytes(bs[i := b], all) + (if all || !bs[i].free then bs[i].size else 0)
         == UsedBytes(bs, all) + (if all || !b.free then b.size else 0)
  {
    var last := |bs| - 1;
    if i < last {
      assert bs[i := b][..last] == bs[..last][i := b];
      UsedAfterUpdate(bs[..last], i, b, all);
    } else {
      assert bs[i := b][..last] == bs[..last];
    }
  }

  /** All bytes are the live ones plus the free ones. */
  function FreeBytes(bs: seq<Block>): nat {
    if bs == [] then 0 else FreeBytes(bs[..|bs| - 1]) + if bs[|bs| - 1].free then bs[|bs| - 1].size else 0
  }

  lemma {:induction false} UsedPlusFree(bs: seq<Block>)
    ensures UsedBytes(bs, true) == UsedBytes(bs, false) + FreeBytes(bs)
  {
    if bs != [] {
      UsedPlusFree(bs[..|bs| - 1]);
    }
  }

  /** Reusing a block leaves the total alone; extending the chain adds exactly
      the new block. */
  lemma UsedAfterAllocate(bs: seq<Block>, need: nat)
    requires bs != []
    ensures UsedBytes(Allocate(bs, need), true)
         == UsedBytes(bs, true) + if FirstFit(bs, need, 0) < |bs| then 0 else need
  {
    var i := FirstFit(bs, need, 0);
    if i < |bs| {
      UsedAfterUpdate(bs, i, bs[i].(free := false, critical := false), true);
    } else {
      assert Allocate(bs, need)[..|bs|] == bs;
    }
  }

  /** kfree leaves the total alone. */
  lemma UsedAfterFree(bs: seq<Block>, i: nat)
    requires i < |bs|
    ensures UsedBytes(bs[i := bs[i].(free := true)], true) == UsedBytes(bs, true)
  {
    UsedAfterUpdate(bs, i, bs[i].(free := true), true);
  }

  /** A shrinking krealloc lowers it by what the block loses. */
  lemma UsedAfterShrink(bs: seq<Block>, i: nat, size: nat)
    requires i < |bs| && size <= bs[i].size
    ensures UsedBytes(bs[i := bs[i].(size := size)], true) == UsedBytes(bs, true) - (bs[i].size - size)
  {
    UsedAfterUpdate(bs, i, bs[i].(size := size), true);
  }
}
