/** kern/alloc.c: the first-fit allocator, headers and payloads in one memory. */
module Alloc {
  import opened Words
  import opened HeapBlocks
  import opened HeapMemory

  const NULL: U32 := 0

  /** A call either returns a pointer, or fails its out-of-memory assertion,
      which halts the kernel. */
  datatype Result = Pointer(addr: nat) | Halted

  /** p is the payload address of the i-th block, which is live. */
  ghost predicate LiveAt(bs: seq<Block>, p: nat, i: nat) {
    0 < i < |bs| && !bs[i].free && bs[i].Payload() == p
  }

  /** The live payloads are those asked for, each at least as large as asked. */
  ghost predicate Tracks(bs: seq<Block>, asked: map<nat, nat>) {
    && (forall i :: 0 < i < |bs| && !bs[i].free ==>
          bs[i].Payload() in asked && asked[bs[i].Payload()] <= bs[i].size)
    && (forall p :: p in asked ==> exists i: nat :: LiveAt(bs, p, i))
  }

  /** No byte of a live payload differs, except possibly in the block at p. */
  ghost predicate PayloadsKept(bs: seq<Block>, m: seq<Byte>, m': seq<Byte>, p: nat)
    requires |m| == |m'| && InMemory(m, bs)
  {
    forall i :: 0 < i < |bs| && !bs[i].free && bs[i].Payload() != p ==>
                  SameOn(m, m', bs[i].Payload(), bs[i].End())
  }

  /** The allocator's invariant, over memory m and the arena [start, limit]. */
  ghost predicate Heap(m: seq<Byte>, start: nat, limit: nat, bs: seq<Block>, asked: map<nat, nat>) {
    && |m| == U32_MODULUS
    && 0 < start <= limit && limit + HEADER < U32_MODULUS
    && Ordered(bs, start)
    && InMemory(m, bs) && ChainIn(m, bs)
    && (forall i :: 0 <= i < |bs| ==> bs[i].at <= limit)
    && (forall i :: 0 < i < |bs| ==> !bs[i].critical)
    && Tracks(bs, asked)
  }

  class Allocator {
    const mem: array<Byte>
    const start: nat
    const memSize: nat

    /** The chain of blocks that memory holds. */
    ghost var blocks: seq<Block>
    /** The live payloads, and the size last requested for each. */
    ghost var asked: map<nat, nat>

    ghost predicate Valid()
      reads this, mem
    {
      Heap(mem[..], start, Limit(), blocks, asked)
    }

    /** Where the chain is about to be extended, the new block ends within the
        address space: the case that the code does not test. */
    ghost predicate Fits(size: U32)
      reads this
    {
      var need := AlignedSize(size);
      blocks == [] || need == 0 || FirstFit(blocks, need, 0) < |blocks|
      || blocks[|blocks| - 1].End() > Limit()
      || blocks[|blocks| - 1].End() + HEADER + need < U32_MODULUS
    }

    /** A request no larger than what the address space has behind the arena
        always does. */
    lemma SmallFits(size: U32)
      requires size <= 0xffff_ffc0 && Limit() + HEADER + AlignedSize(size) < U32_MODULUS
      ensures Fits(size)
    {
    }

    /** init_alloc: memory starts with one empty permanent block. */
    constructor (mem: array<Byte>, start: nat, size: nat)
      requires mem.Length == U32_MODULUS && 0 < start && start + size + HEADER < U32_MODULUS
      modifies mem
      ensures Valid() && this.mem == mem && this.start == start && memSize == size
      ensures blocks == [Block(start, 0, false, true)] && asked == map[]
    {
      this.mem, this.start, this.memSize := mem, start, size;
      blocks, asked := [Block(start, 0, false, true)], map[];
      new;
      InitHeader(mem, start);
    }

    /** The end of the arena. */
    function Limit(): nat {
      start + memSize
    }

    /** What happens to the arena in a kalloc from bs0: if all blocks lie in it,
        they do afterwards exactly when no block is added, or there is room. */
    ghost predicate ArenaAfterKalloc(size: U32, bs0: seq<Block>, r: Result)
      reads this
    {
      bs0 != [] && (InArena(bs0, Limit()) ==>
        (InArena(blocks, Limit()) <==>
           AlignedSize(size) == 0 || r.Halted? || RoomInArena(bs0, Limit(), AlignedSize(size))))
    }

    lemma KallocInArena(size: U32, bs0: seq<Block>, asked0: map<nat, nat>, r: Result)
      requires bs0 != [] && Ordered(bs0, start) && AfterKalloc(size, bs0, asked0, r)
      ensures ArenaAfterKalloc(size, bs0, r)
    {
      if InArena(bs0, Limit()) {
        AllocateInArena(bs0, start, Limit(), AlignedSize(size));
      }
    }

    /** The same for a krealloc of the live block i. */
    ghost predicate ArenaAfterKrealloc(i: nat, newSize: U32, bs0: seq<Block>, r: Result)
      requires 0 < i < |bs0|
      reads this
    {
      InArena(bs0, Limit()) ==>
        (InArena(blocks, Limit()) <==>
           newSize < bs0[i].size || newSize == 0 || r.Halted? || RoomInArena(bs0, Limit(), AlignedSize(newSize)))
    }

    lemma KreallocInArena(i: nat, newSize: U32, m0: seq<Byte>, bs0: seq<Block>, asked0: map<nat, nat>, r: Result)
      requires 0 < i < |bs0| && !bs0[i].free && Ordered(bs0, start) && AfterKrealloc(i, newSize, m0, bs0, asked0, r)
      ensures ArenaAfterKrealloc(i, newSize, bs0, r)
    {
      if InArena(bs0, Limit()) {
        var need := AlignedSize(newSize);
        var bs1 := Allocate(bs0, need);
        AllocateInArena(bs0, start, Limit(), need);
        AllocateKeepsLive(bs0, need, i);
        hide Allocate, RoomInArena;
        if newSize < bs0[i].size {
          UpdateInArena(bs0, Limit(), i, bs0[i].(size := newSize));
        } else {
          UpdateInArena(bs0, Limit(), i, bs0[i].(free := true));
          FreeInArena(bs1, Limit(), i);
        }
      }
    }

    lemma KreallocHalts(i: nat, newSize: U32, m0: seq<Byte>, bs0: seq<Block>, asked0: map<nat, nat>, r: Result)
      requires 0 < i < |bs0| && AfterKrealloc(i, newSize, m0, bs0, asked0, r) && newSize <= 0xffff_ffc0
      ensures r.Halted? <==> newSize >= bs0[i].size && AlignedSize(newSize) != 0
                             && OutOfMemory(bs0, Limit(), AlignedSize(newSize))
    {
      NoFit(bs0, Limit(), AlignedSize(newSize));
      AlignedSizeIs(newSize);
      hide OutOfMemory, AlignedSize, FirstFit, Allocate;
    }

    /** What a kalloc call from bs0 and asked0 returns and leaves behind. */
    ghost predicate AfterKalloc(size: U32, bs0: seq<Block>, asked0: map<nat, nat>, r: Result)
      requires bs0 != []
      reads this
    {
      var need := AlignedSize(size);
      var i := FirstFit(bs0, need, 0);
      if need == 0 then
        r == Pointer(NULL) && blocks == bs0 && asked == asked0
      else if i == |bs0| && bs0[i - 1].End() > Limit() then
        r == Halted && blocks == bs0 && asked == asked0
      else
        && blocks == Allocate(bs0, need)
        && i < |blocks| && r == Pointer(blocks[i].Payload())
        && LiveAt(blocks, blocks[i].Payload(), i) && blocks[i].size >= need >= size
        && blocks[i].Payload() !in asked0 && asked == asked0[blocks[i].Payload() := size]
    }

    /** The walk of kalloc: the first block that fits, or the last block. */
    method FindFit(need: U32) returns (found: bool, current: nat, ghost i: nat)
      requires Valid()
      ensures found <==> FirstFit(blocks, need, 0) < |blocks|
      ensures i == if found then FirstFit(blocks, need, 0) else |blocks| - 1
      ensures 0 <= i < |blocks| && current == blocks[if found then FirstFit(blocks, need, 0) else |blocks| - 1].at
    {
      hide Heap, Ordered, HeaderAt, Tracks, ChainIn;
      HeapBasics(mem[..], start, Limit(), blocks, asked);
      current := start;
      i := 0;
      while true
        invariant i < |blocks| && current == blocks[i].at
        invariant FirstFit(blocks, need, i) == FirstFit(blocks, need, 0)
        decreases |blocks| - i
      {
        HeapFields(mem[..], start, Limit(), blocks, asked, i);
        var state := LoadWord(mem, current + F_STATE);
        var blockSize := LoadWord(mem, current + F_SIZE);
        if state == STATE_FREE && blockSize >= need {
          return true, current, i;
        }
        var next := LoadWord(mem, current + F_NEXT);
        if next == NULL {
          return false, current, i;
        }
        current := next;
        i := i + 1;
      }
    }

    /** kalloc: first fit, else a new block at the end of the chain. */
    method Kalloc(size: U32) returns (r: Result)
      requires Valid() && Fits(size)
      modifies this, mem
      ensures Valid() && old(blocks) != []
      ensures InMemory(old(mem[..]), old(blocks)) && PayloadsKept(old(blocks), old(mem[..]), mem[..], NULL)
      ensures AfterKalloc(size, old(blocks), old(asked), r)
      ensures ArenaAfterKalloc(size, old(blocks), r)
      ensures r.Halted? <==> AlignedSize(size) != 0 && OutOfMemory(old(blocks), Limit(), AlignedSize(size))
    {
      HeapOrdered(mem[..], start, Limit(), blocks, asked);
      NoFit(blocks, Limit(), AlignedSize(size));
      r := Allot(size);
      hide OutOfMemory;
      KallocInArena(size, old(blocks), old(asked), r);
    }

    /** The body of kalloc. */
    method Allot(size: U32) returns (r: Result)
      requires Valid() && Fits(size)
      modifies this, mem
      ensures Valid() && old(blocks) != []
      ensures InMemory(old(mem[..]), old(blocks)) && PayloadsKept(old(blocks), old(mem[..]), mem[..], NULL)
      ensures AfterKalloc(size, old(blocks), old(asked), r)
    {
      hide Heap, Ordered, HeaderAt, Tracks, PayloadsKept, ChainIn, FirstFit, AlignedSize;
      var need := AlignedSize(size);
      AlignedSizeIs(size);
      HeapBasics(mem[..], start, Limit(), blocks, asked);
      if need == 0 {
        return Pointer(NULL);
      }
      var found, current, i := FindFit(need);
      HeapFields(mem[..], start, Limit(), blocks, asked, i);
      if found {
        r := Reuse(current, i, size);
        return;
      }
      var magic := LoadWord(mem, current + F_MAGIC);
      assert magic == MAGIC;
      var blockSize := LoadWord(mem, current + F_SIZE);
      var next := Wrap32(current + HEADER + blockSize);
      if next > Limit() {
        return Halted;
      }
      r := Extend(current, next, need, size);
    }

    /** kalloc has reached the last block: a new one is written behind it. */
    method Extend(current: U32, next: U32, need: U32, ghost size: U32) returns (r: Result)
      requires Valid() && blocks != [] && current == blocks[|blocks| - 1].at
      requires next == blocks[|blocks| - 1].End() <= Limit()
      requires size <= need && next + HEADER + need < U32_MODULUS
      modifies this, mem
      ensures Valid()
      ensures blocks == old(blocks) + [Block(next, need, false, false)]
      ensures r == Pointer(next + HEADER) && next + HEADER !in old(asked)
      ensures asked == old(asked)[next + HEADER := size]
      ensures InMemory(old(mem[..]), old(blocks)) && PayloadsKept(old(blocks), old(mem[..]), mem[..], NULL)
    {
      hide Heap, Ordered, HeaderAt, Tracks, PayloadsKept, ChainIn;
      ghost var m, last, b := mem[..], blocks[|blocks| - 1], Block(next, need, false, false);
      HeapHeader(m, start, Limit(), blocks, asked, |blocks| - 1);
      NewHeader(mem, next, need);
      ghost var m1 := mem[..];
      HeaderFrame(m, m1, last, 0, |blocks| == 1);
      Link(mem, current, last, |blocks| == 1, next);
      HeaderFrame(m1, mem[..], b, 0, false);
      HeapExtend(m, m1, mem[..], start, Limit(), blocks, asked, b, size);
      blocks, asked := blocks + [b], asked[b.Payload() := size];
      return Pointer(next + HEADER);
    }

    /** kfree, on a live payload: the i-th block becomes free. */
    method Kfree(ptr: nat, ghost i: nat)
      requires Valid() && LiveAt(blocks, ptr, i)
      modifies this, mem
      ensures Valid()
      ensures blocks == old(blocks)[i := old(blocks)[i].(free := true)]
      ensures asked == old(asked) - {ptr}
      ensures InArena(blocks, Limit()) <==> old(InArena(blocks, Limit()))
      ensures InMemory(old(mem[..]), old(blocks)) && PayloadsKept(old(blocks), old(mem[..]), mem[..], NULL)
    {
      hide Heap, Ordered, HeaderAt, Tracks, PayloadsKept, ChainIn;
      ghost var m, b := mem[..], blocks[i].(free := true);
      HeapHeader(m, start, Limit(), blocks, asked, i);
      FreeInArena(blocks, Limit(), i);
      MarkFree(mem, ptr - HEADER, blocks[i], NextOf(blocks, i));
      HeapUpdate(m, mem[..], start, Limit(), blocks, asked, i, b, 0);
      blocks, asked := blocks[i := b], Recorded(asked, b, 0);
    }

    /** What a krealloc of the live block i of bs0, in memory m0, returns and
        leaves behind: the bytes that both sizes have in common are at the
        address returned. */
    ghost predicate AfterKrealloc(i: nat, newSize: U32, m0: seq<Byte>, bs0: seq<Block>, asked0: map<nat, nat>, r: Result)
      requires 0 < i < |bs0|
      reads this, mem
    {
      Reblocked(i, newSize, bs0, asked0, r)
      && Preserved(m0, bs0[i].Payload(), mem[..], r, Min(bs0[i].size, newSize))
    }

    ghost predicate Reblocked(i: nat, newSize: U32, bs0: seq<Block>, asked0: map<nat, nat>, r: Result)
      requires 0 < i < |bs0|
      reads this
    {
      var ptr := bs0[i].Payload();
      var need := AlignedSize(newSize);
      var j := FirstFit(bs0, need, 0);
      if newSize < bs0[i].size then
        && r == Pointer(ptr) && asked == asked0[ptr := newSize]
        && blocks == bs0[i := bs0[i].(size := newSize)]
      else if newSize == 0 then
        && r == Pointer(NULL) && asked == asked0 - {ptr}
        && blocks == bs0[i := bs0[i].(free := true)]
      else if j == |bs0| && bs0[j - 1].End() > Limit() then
        r == Halted && blocks == bs0 && asked == asked0
      else
        && j < |Allocate(bs0, need)| && blocks == Allocate(bs0, need)[i := bs0[i].(free := true)]
        && r == Pointer(blocks[j].Payload())
        && LiveAt(blocks, blocks[j].Payload(), j) && blocks[j].size >= newSize
        && blocks[j].Payload() !in asked0 && asked == asked0[blocks[j].Payload() := newSize] - {ptr}
    }

    /** krealloc: NULL allocates; on the payload of the i-th block, a smaller size
        shrinks it in place, and any other size moves it to a new block. */
    method Krealloc(ptr: nat, newSize: U32, ghost i: nat) returns (r: Result)
      requires Valid() && (ptr == NULL || LiveAt(blocks, ptr, i))
      requires Fits(newSize) || (ptr != NULL && newSize < blocks[i].size)
      requires ptr != NULL ==> newSize <= 0xffff_ffc0
      modifies this, mem
      ensures Valid() && old(blocks) != []
      ensures InMemory(old(mem[..]), old(blocks)) && PayloadsKept(old(blocks), old(mem[..]), mem[..], NULL)
      ensures ptr == NULL ==> AfterKalloc(newSize, old(blocks), old(asked), r)
      ensures ptr != NULL ==> AfterKrealloc(i, newSize, old(mem[..]), old(blocks), old(asked), r)
      ensures if ptr == NULL then ArenaAfterKalloc(newSize, old(blocks), r)
              else ArenaAfterKrealloc(i, newSize, old(blocks), r)
      ensures r.Halted? <==> (ptr == NULL || newSize >= old(blocks)[i].size)
                             && AlignedSize(newSize) != 0 && OutOfMemory(old(blocks), Limit(), AlignedSize(newSize))
    {
      HeapOrdered(mem[..], start, Limit(), blocks, asked);
      hide Heap, Ordered, HeaderAt, Tracks, PayloadsKept, ChainIn, AfterKalloc, AfterKrealloc;
      hide ArenaAfterKalloc, ArenaAfterKrealloc, OutOfMemory, AlignedSize;
      HeapBasics(mem[..], start, Limit(), blocks, asked);
      if ptr == NULL {
        r := Kalloc(newSize);
        return;
      }
      HeapFields(mem[..], start, Limit(), blocks, asked, i);
      var size := LoadWord(mem, ptr - HEADER + F_SIZE);
      if newSize < size {
        r := Shrink(ptr, i, newSize);
      } else {
        r := Move(ptr, i, size, newSize);
      }
      KreallocInArena(i, newSize, old(mem[..]), old(blocks), old(asked), r);
      KreallocHalts(i, newSize, old(mem[..]), old(blocks), old(asked), r);
    }

    /** krealloc to a smaller size. */
    method Shrink(ptr: nat, ghost i: nat, newSize: U32) returns (r: Result)
      requires Valid() && LiveAt(blocks, ptr, i) && newSize < blocks[i].size
      modifies this, mem
      ensures Valid()
      ensures InMemory(old(mem[..]), old(blocks)) && PayloadsKept(old(blocks), old(mem[..]), mem[..], NULL)
      ensures AfterKrealloc(i, newSize, old(mem[..]), old(blocks), old(asked), r)
    {
      hide Heap, Ordered, HeaderAt, Tracks, ChainIn, Allocate, FirstFit;
      ghost var m, b := mem[..], blocks[i].(size := newSize);
      HeapHeader(m, start, Limit(), blocks, asked, i);
      Resize(mem, ptr - HEADER, blocks[i], NextOf(blocks, i), newSize);
      HeapUpdate(m, mem[..], start, Limit(), blocks, asked, i, b, newSize);
      SameSlice(m, mem[..], ptr, ptr + newSize);
      blocks, asked := blocks[i := b], Recorded(asked, b, newSize);
      return Pointer(ptr);
    }

    /** The memcpy of krealloc, from the payload of block i into that of block j.
        There is no block j when there is nothing to copy. */
    method CopyPayload(dst: nat, ptr: nat, size: nat, ghost i: nat, ghost j: nat)
      requires Valid() && LiveAt(blocks, ptr, i) && size <= blocks[i].size
      requires if size == 0 then dst <= mem.Length else i != j && LiveAt(blocks, dst, j) && size <= blocks[j].size
      modifies mem
      ensures Valid()
      ensures forall k :: 0 <= k < |blocks| && (k != j || size == 0) ==>
                blocks[k].End() <= mem.Length
                && SameOn(old(mem[..]), mem[..], blocks[k].Payload(), blocks[k].End())
      ensures size > 0 ==> Preserved(old(mem[..]), ptr, mem[..], Pointer(dst), size)
    {
      hide Heap, Ordered, HeaderAt, Tracks, ChainIn;
      ghost var m, limit := mem[..], Limit();
      HeapBasics(m, start, limit, blocks, asked);
      if size == 0 {
        CopyBytes(mem, dst, mem.Length, 0);
        NoWrite(m, mem[..], blocks, dst);
        return;
      }
      NewBlockApart(m, start, limit, blocks, asked, i, j);
      CopyBytes(mem, dst, ptr, size);
      WriteWithin(m, mem[..], dst, dst + size, blocks[j]);
      HeapPayloadWrite(m, mem[..], start, limit, blocks, asked, j);
    }

    /** krealloc to a size that is no smaller: kalloc, memcpy, kfree. */
    method Move(ptr: nat, ghost i: nat, size: U32, newSize: U32) returns (r: Result)
      requires Valid() && Fits(newSize) && newSize <= 0xffff_ffc0
      requires LiveAt(blocks, ptr, i) && blocks[i].size == size <= newSize
      modifies this, mem
      ensures Valid()
      ensures InMemory(old(mem[..]), old(blocks)) && PayloadsKept(old(blocks), old(mem[..]), mem[..], NULL)
      ensures AfterKrealloc(i, newSize, old(mem[..]), old(blocks), old(asked), r)
    {
      hide Heap, Ordered, HeaderAt, Tracks, PayloadsKept, ChainIn, SameOn, SameOutside, FirstFit, Allocate;
      ghost var bs0, m0 := blocks, mem[..];
      HeapHeader(m0, start, Limit(), bs0, asked, i);
      OwnerOf(m0, start, Limit(), bs0, asked, i);
      r := Kalloc(newSize);
      if r.Halted? {
        return;
      }
      ghost var bs1, m1 := blocks, mem[..];
      ghost var j := FirstFit(bs0, AlignedSize(newSize), 0);
      forall k | 0 < k < |bs0| && !bs0[k].free
        ensures k < |bs1| && bs1[k] == bs0[k] && (newSize > 0 ==> k != j)
      {
        AllocateKeepsLive(bs0, AlignedSize(newSize), k);
      }
      if newSize > 0 {
        HeapHeader(m1, start, Limit(), bs1, asked, j);
      }
      CopyPayload(r.addr, ptr, size, i, j);
      ghost var m2 := mem[..];
      Kfree(ptr, i);
      MoveKept(bs0, bs1, m0, m1, m2, mem[..]);
      MovePreserved(bs0, bs1, m0, m1, m2, mem[..], i, j, size, r);
      hide Preserved;
      assert Reblocked(i, newSize, bs0, old(asked), r);
    }

    /** A store by the owner of a live payload. */
    method StorePayload(ptr: nat, offset: nat, v: Byte, ghost i: nat)
      requires Valid() && LiveAt(blocks, ptr, i) && offset < blocks[i].size
      modifies mem
      ensures Valid() && ptr + offset < mem.Length && mem[ptr + offset] == v
      ensures InMemory(old(mem[..]), blocks) && PayloadsKept(blocks, old(mem[..]), mem[..], ptr)
    {
      hide Heap, Ordered, HeaderAt, Tracks, ChainIn;
      HeapHeader(mem[..], start, Limit(), blocks, asked, i);
      ghost var m := mem[..];
      mem[ptr + offset] := v;
      HeapPayloadWrite(m, mem[..], start, Limit(), blocks, asked, i);
    }

    /** What an owner stores is still there after a kalloc. */
    method StoreThenKalloc(ptr: nat, offset: nat, v: Byte, size: U32, ghost i: nat) returns (r: Result)
      requires Valid() && LiveAt(blocks, ptr, i) && offset < blocks[i].size && Fits(size)
      modifies this, mem
      ensures Valid() && LiveAt(blocks, ptr, i)
      ensures ptr + offset < mem.Length && mem[ptr + offset] == v
      ensures r.Pointer? ==> r.addr != ptr
    {
      hide Heap, HeaderAt, Tracks, ChainIn;
      StorePayload(ptr, offset, v, i);
      ghost var m, bs := mem[..], blocks;
      OwnerOf(m, start, Limit(), bs, asked, i);
      r := Kalloc(size);
      AllocateKeepsLive(bs, AlignedSize(size), i);
      assert SameOn(m, mem[..], bs[i].Payload(), bs[i].End());
      assert mem[..][ptr + offset] == m[ptr + offset];
    }

    /** alloc_used. */
    method AllocUsed(all: bool) returns (total: nat)
      requires Valid()
      ensures total == UsedBytes(blocks, all)
    {
      hide Heap, Ordered, HeaderAt, Tracks, ChainIn;
      HeapBasics(mem[..], start, Limit(), blocks, asked);
      total := 0;
      var current := start;
      ghost var i := 0;
      while current != NULL
        invariant i <= |blocks| && current == (if i < |blocks| then blocks[i].at else NULL)
        invariant total == UsedBytes(blocks[..i], all)
        decreases |blocks| - i
      {
        HeapFields(mem[..], start, Limit(), blocks, asked, i);
        var state := LoadWord(mem, current + F_STATE);
        var size := LoadWord(mem, current + F_SIZE);
        assert blocks[..i + 1][..i] == blocks[..i];
        if state != STATE_FREE || all {
          total := total + size;
        }
        current := LoadWord(mem, current + F_NEXT);
        i := i + 1;
      }
      if i < |blocks| {
        HeapFields(mem[..], start, Limit(), blocks, asked, i);
      }
      assert blocks[..|blocks|] == blocks;
    }

    /** kalloc finds a free block that is large enough: the block is marked used
        again. */
    method Reuse(current: U32, ghost i: nat, size: U32) returns (r: Result)
      requires Valid() && 0 < i < |blocks| && current == blocks[i].at
      requires blocks[i].free && size <= blocks[i].size
      modifies this, mem
      ensures Valid()
      ensures blocks == old(blocks)[i := old(blocks)[i].(free := false, critical := false)]
      ensures r == Pointer(blocks[i].Payload()) && blocks[i].Payload() !in old(asked)
      ensures asked == old(asked)[blocks[i].Payload() := size]
      ensures InMemory(old(mem[..]), old(blocks)) && PayloadsKept(old(blocks), old(mem[..]), mem[..], NULL)
    {
      hide Heap, Ordered, HeaderAt, Tracks, PayloadsKept;
      ghost var m, b := mem[..], blocks[i].(free := false, critical := false);
      HeapHeader(m, start, Limit(), blocks, asked, i);
      MarkUsed(mem, current, blocks[i], NextOf(blocks, i));
      HeapUpdate(m, mem[..], start, Limit(), blocks, asked, i, b, size);
      blocks, asked := blocks[i := b], Recorded(asked, b, size);
      return Pointer(current + HEADER);
    }
  }

  lemma HeapOrdered(m: seq<Byte>, start: nat, limit: nat, bs: seq<Block>, asked: map<nat, nat>)
    requires Heap(m, start, limit, bs, asked)
    ensures Ordered(bs, start) && bs != []
  {
  }

  lemma HeapBasics(m: seq<Byte>, start: nat, limit: nat, bs: seq<Block>, asked: map<nat, nat>)
    requires Heap(m, start, limit, bs, asked)
    ensures bs != [] && bs[0] == Block(start, 0, false, true)
    ensures InMemory(m, bs) && PayloadsKept(bs, m, m, NULL)
  {
  }

  /** What the walk of kalloc reads in the i-th block. */
  lemma HeapFields(m: seq<Byte>, start: nat, limit: nat, bs: seq<Block>, asked: map<nat, nat>, i: nat)
    requires Heap(m, start, limit, bs, asked) && i < |bs|
    ensures 0 < start <= bs[i].at && bs[i].End() < U32_MODULUS == |m|
    ensures Word(m, bs[i].at + F_MAGIC) == MAGIC
    ensures Word(m, bs[i].at + F_SIZE) == bs[i].size
    ensures Word(m, bs[i].at + F_STATE) == STATE_FREE <==> bs[i].free
    ensures Word(m, bs[i].at + F_NEXT) == NextOf(bs, i)
    ensures NextOf(bs, i) == NULL <==> i == |bs| - 1
    ensures bs[i].free ==> i > 0
  {
    BlockInMemory(bs, start, i);
    if i + 1 < |bs| {
      BlockInMemory(bs, start, i + 1);
    }
  }

  lemma OwnerOf(m: seq<Byte>, start: nat, limit: nat, bs: seq<Block>, asked: map<nat, nat>, i: nat)
    requires Heap(m, start, limit, bs, asked) && 0 < i < |bs| && !bs[i].free
    ensures bs[i].Payload() in asked
  {
  }

  /** Two blocks of a heap lie apart, and within memory. */
  lemma NewBlockApart(m: seq<Byte>, start: nat, limit: nat, bs: seq<Block>, asked: map<nat, nat>, i: nat, j: nat)
    requires Heap(m, start, limit, bs, asked) && i < |bs| && j < |bs| && i != j
    ensures bs[i].End() <= bs[j].at || bs[j].End() <= bs[i].at
    ensures bs[i].End() <= |m| && bs[j].End() <= |m|
  {
    Apart(bs, start, i, j);
  }

  /** Whatever is written inside one payload, the heap stays a heap, and the
      other payloads stay as they are. */
  lemma HeapPayloadWrite(m: seq<Byte>, m': seq<Byte>, start: nat, limit: nat, bs: seq<Block>, asked: map<nat, nat>, j: nat)
    requires Heap(m, start, limit, bs, asked) && |m'| == |m| && 0 < j < |bs|
    requires SameOutside(m, m', bs[j].Payload(), bs[j].End())
    ensures Heap(m', start, limit, bs, asked)
    ensures forall k :: 0 <= k < |bs| && k != j ==> SameOn(m, m', bs[k].Payload(), bs[k].End())
  {
    hide HeaderAt, Tracks, Ordered, ChainIn;
    PayloadWriteKeepsChain(m, m', bs, start, j);
    forall k | 0 <= k < |bs| && k != j
      ensures SameOn(m, m', bs[k].Payload(), bs[k].End())
    {
      Apart(bs, start, j, k);
    }
  }

  /** The first n bytes at ptr are now at the address returned. */
  ghost predicate Preserved(m: seq<Byte>, ptr: nat, m': seq<Byte>, r: Result, n: nat) {
    r.Pointer? && n > 0 ==>
      ptr + n <= |m| && r.addr + n <= |m'| && m'[r.addr..r.addr + n] == m[ptr..ptr + n]
  }

  lemma WriteWithin(m: seq<Byte>, m': seq<Byte>, lo: nat, hi: nat, b: Block)
    requires |m| == |m'| && SameOutside(m, m', lo, hi) && lo == b.Payload() && hi <= b.End()
    ensures SameOutside(m, m', b.Payload(), b.End())
  {
  }

  lemma NoWrite(m: seq<Byte>, m': seq<Byte>, bs: seq<Block>, at: nat)
    requires |m| == |m'| && SameOutside(m, m', at, at)
    ensures m == m'
    ensures forall k :: 0 <= k < |bs| && bs[k].End() <= |m| ==> SameOn(m, m', bs[k].Payload(), bs[k].End())
  {
  }

  /** Payloads kept by an allocation, a copy into another block and a kfree are
      kept by all three. */
  lemma MoveKept(bs0: seq<Block>, bs1: seq<Block>, m0: seq<Byte>, m1: seq<Byte>, m2: seq<Byte>, m3: seq<Byte>)
    requires |m0| == |m1| == |m2| == |m3| && InMemory(m0, bs0) && InMemory(m2, bs1)
    requires PayloadsKept(bs0, m0, m1, NULL) && PayloadsKept(bs1, m2, m3, NULL)
    requires forall k :: 0 < k < |bs0| && !bs0[k].free ==>
               k < |bs1| && bs1[k] == bs0[k] && SameOn(m1, m2, bs0[k].Payload(), bs0[k].End())
    ensures PayloadsKept(bs0, m0, m3, NULL)
  {
    forall k | 0 < k < |bs0| && !bs0[k].free
      ensures SameOn(m0, m3, bs0[k].Payload(), bs0[k].End())
    {
      assert SameOn(m0, m1, bs0[k].Payload(), bs0[k].End());
      assert SameOn(m2, m3, bs1[k].Payload(), bs1[k].End());
    }
  }

  lemma KeptSlice(bs: seq<Block>, m: seq<Byte>, m': seq<Byte>, i: nat, n: nat)
    requires |m| == |m'| && InMemory(m, bs) && PayloadsKept(bs, m, m', NULL)
    requires 0 < i < |bs| && !bs[i].free && n <= bs[i].size
    ensures m[bs[i].Payload()..bs[i].Payload() + n] == m'[bs[i].Payload()..bs[i].Payload() + n]
  {
    assert SameOn(m, m', bs[i].Payload(), bs[i].End());
  }

  /** The bytes copied are those of the old payload, in the new one, at the end. */
  lemma MovePreserved(bs0: seq<Block>, bs1: seq<Block>, m0: seq<Byte>, m1: seq<Byte>, m2: seq<Byte>, m3: seq<Byte>,
                      i: nat, j: nat, size: nat, r: Result)
    requires |m0| == |m1| == |m2| == |m3| && InMemory(m0, bs0) && InMemory(m2, bs1)
    requires PayloadsKept(bs0, m0, m1, NULL) && PayloadsKept(bs1, m2, m3, NULL)
    requires 0 < i < |bs0| && !bs0[i].free && size <= bs0[i].size
    requires size > 0 ==> r.Pointer? && LiveAt(bs1, r.addr, j) && size <= bs1[j].size
    requires size > 0 ==> Preserved(m1, bs0[i].Payload(), m2, r, size)
    ensures Preserved(m0, bs0[i].Payload(), m3, r, size)
  {
    if size > 0 {
      KeptSlice(bs0, m0, m1, i, size);
      KeptSlice(bs1, m2, m3, j, size);
    }
  }

  lemma SameSlice(m: seq<Byte>, m': seq<Byte>, lo: nat, hi: nat)
    requires |m| == |m'| && lo <= hi <= |m| && SameOn(m, m', lo, hi)
    ensures m[lo..hi] == m'[lo..hi]
  {
  }

  /** Every block of a heap has its header in memory. */
  lemma HeapHeader(m: seq<Byte>, start: nat, limit: nat, bs: seq<Block>, asked: map<nat, nat>, i: nat)
    requires Heap(m, start, limit, bs, asked) && i < |bs|
    ensures 0 < start <= bs[i].at && bs[i].End() < U32_MODULUS == |m|
    ensures HeaderAt(m, bs[i], NextOf(bs, i), i == 0) && InMemory(m, bs)
    ensures i > 0 ==> !bs[i].critical
  {
    BlockInMemory(bs, start, i);
  }

  /** Rewriting the header of a block, in place and no larger, keeps the
      invariant and touches no payload. */
  lemma HeapUpdate(m: seq<Byte>, m': seq<Byte>, start: nat, limit: nat, bs: seq<Block>, asked: map<nat, nat>,
                   i: nat, b: Block, n: nat)
    requires Heap(m, start, limit, bs, asked) && |m'| == |m|
    requires 0 < i < |bs| && b.at == bs[i].at && n <= b.size <= bs[i].size && !b.critical
    requires SameOutside(m, m', b.at, b.Payload()) && HeaderAt(m', b, NextOf(bs, i), false)
    ensures Heap(m', start, limit, bs[i := b], Recorded(asked, b, n))
    ensures bs[i].Payload() in asked <==> !bs[i].free
    ensures InMemory(m, bs) && PayloadsKept(bs, m, m', NULL)
  {
    hide HeaderAt, Word, SameOutside, Tracks, ChainIn;
    HeaderWriteKeepsChain(m, m', bs, start, i, b);
    HeaderWriteKeepsPayloads(m, m', bs, start, i);
    OrderedUpdate(bs, start, i, b);
    TracksUpdate(bs, asked, start, i, b, n);
  }

  /** Writing a header behind the last block, then linking it, extends the heap
      by a live block and touches no payload. */
  lemma HeapExtend(m: seq<Byte>, m1: seq<Byte>, m': seq<Byte>, start: nat, limit: nat,
                   bs: seq<Block>, asked: map<nat, nat>, b: Block, n: nat)
    requires Heap(m, start, limit, bs, asked) && |m| == |m1| == |m'|
    requires b.at == bs[|bs| - 1].End() <= limit && b.End() < U32_MODULUS
    requires !b.free && !b.critical && n <= b.size
    requires SameOutside(m, m1, b.at, b.Payload())
    requires SameOutside(m1, m', bs[|bs| - 1].at, bs[|bs| - 1].Payload())
    requires HeaderAt(m', bs[|bs| - 1], b.at, |bs| == 1) && HeaderAt(m', b, 0, false)
    ensures Heap(m', start, limit, bs + [b], asked[b.Payload() := n])
    ensures b.Payload() !in asked
    ensures InMemory(m, bs) && PayloadsKept(bs, m, m', NULL)
  {
    hide HeaderAt, Word, Tracks, ChainIn;
    var last := |bs| - 1;
    AppendKeepsChain(m, m', bs, start, b);
    forall j | 0 <= j < |bs|
      ensures bs[j].End() <= b.at && SameOn(m, m', bs[j].Payload(), bs[j].End())
    {
      Apart(bs, start, j, last);
    }
    TracksExtend(bs, asked, b, n);
  }

  lemma TracksExtend(bs: seq<Block>, asked: map<nat, nat>, b: Block, n: nat)
    requires bs != [] && Tracks(bs, asked) && !b.free && n <= b.size
    requires forall j :: 0 <= j < |bs| ==> bs[j].End() <= b.at
    ensures Tracks(bs + [b], asked[b.Payload() := n])
    ensures b.Payload() !in asked
  {
    var bs' := bs + [b];
    forall p | p in asked
      ensures p != b.Payload() && exists j: nat :: LiveAt(bs', p, j)
    {
      var j :| LiveAt(bs, p, j);
      assert LiveAt(bs', p, j);
    }
    assert LiveAt(bs', b.Payload(), |bs|);
  }

  /** A payload address belongs to one block. */
  lemma PayloadUnique(bs: seq<Block>, start: nat, i: nat, j: nat)
    requires Ordered(bs, start) && i < |bs| && j < |bs| && bs[i].Payload() == bs[j].Payload()
    ensures i == j
  {
    Apart(bs, start, i, j);
  }

  lemma OrderedUpdate(bs: seq<Block>, start: nat, i: nat, b: Block)
    requires Ordered(bs, start) && 0 < i < |bs| && b.at == bs[i].at && b.size <= bs[i].size
    ensures Ordered(bs[i := b], start)
  {
  }

  /** The record of live payloads after a block at b's address has become b. */
  ghost function Recorded(asked: map<nat, nat>, b: Block, n: nat): map<nat, nat> {
    if b.free then asked - {b.Payload()} else asked[b.Payload() := n]
  }

  /** Updating a block in place, and the record of its payload with it. */
  lemma TracksUpdate(bs: seq<Block>, asked: map<nat, nat>, start: nat, i: nat, b: Block, n: nat)
    requires Ordered(bs, start) && 0 < i < |bs| && b.at == bs[i].at && Tracks(bs, asked)
    requires n <= b.size
    ensures Tracks(bs[i := b], Recorded(asked, b, n))
    ensures bs[i].Payload() in asked <==> !bs[i].free
  {
    var bs' := bs[i := b];
    forall j | 0 <= j < |bs| && bs[j].Payload() == b.Payload()
      ensures j == i
    {
      PayloadUnique(bs, start, i, j);
    }
    hide Ordered;
    forall p | p in Recorded(asked, b, n)
      ensures exists j: nat :: LiveAt(bs', p, j)
    {
      if p == b.Payload() {
        assert LiveAt(bs', p, i);
      } else {
        var j :| LiveAt(bs, p, j);
        assert LiveAt(bs', p, j);
      }
    }
    if bs[i].Payload() in asked {
      var j :| LiveAt(bs, bs[i].Payload(), j);
    }
  }

  /** Writing a header touches no payload. */
  lemma HeaderWriteKeepsPayloads(m: seq<Byte>, m': seq<Byte>, bs: seq<Block>, start: nat, i: nat)
    requires Ordered(bs, start) && |m| == |m'| && InMemory(m, bs)
    requires i < |bs| && SameOutside(m, m', bs[i].at, bs[i].Payload())
    ensures forall j :: 0 <= j < |bs| ==> SameOn(m, m', bs[j].Payload(), bs[j].End())
  {
    forall j | 0 <= j < |bs|
      ensures SameOn(m, m', bs[j].Payload(), bs[j].End())
    {
      Apart(bs, start, i, j);
    }
  }
}
