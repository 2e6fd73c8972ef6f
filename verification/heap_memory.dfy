/** Block headers as bytes in memory (struct mem_block). */
module HeapMemory {
  import opened Words
  import opened HeapBlocks

  const MAGIC: U32 := 0xbadb_addd
  const STATE_FREE: U32 := 1
  const FLAG_CRITICAL: U32 := 1

  // offsets of the header fields
  const F_MAGIC := 0
  const F_FLAGS := 4
  const F_SIZE := 8
  const F_STATE := 12
  const F_ADDR := 16
  const F_NEXT := 20

  /** A little-endian word. */
  function Word(m: seq<Byte>, a: nat): U32
    requires a + 4 <= |m|
  {
    m[a] as int + 0x100 * m[a + 1] as int + 0x1_0000 * m[a + 2] as int + 0x100_0000 * m[a + 3] as int
  }

  ghost predicate SameOn(m: seq<Byte>, m': seq<Byte>, lo: nat, hi: nat)
    requires |m| == |m'| && hi <= |m|
  {
    forall a :: lo <= a < hi ==> m[a] == m'[a]
  }

  lemma SameOnPart(m: seq<Byte>, m': seq<Byte>, top: nat, lo: nat, hi: nat)
    requires |m| == |m'| && top <= |m| && hi <= top && SameOn(m, m', 0, top)
    ensures SameOn(m, m', lo, hi)
  {
  }

  /** m' differs from m on [lo, hi) only. */
  ghost predicate SameOutside(m: seq<Byte>, m': seq<Byte>, lo: nat, hi: nat)
    requires |m| == |m'|
  {
    forall a :: 0 <= a < |m| && !(lo <= a < hi) ==> m[a] == m'[a]
  }

  /** The bytes at b.at are the header of b, linked to next. The address field of
      the permanent first block is never written. */
  ghost predicate HeaderAt(m: seq<Byte>, b: Block, next: nat, first: bool)
    requires b.End() <= |m|
  {
    && Word(m, b.at + F_MAGIC) == MAGIC
    && Word(m, b.at + F_FLAGS) == (if b.critical then FLAG_CRITICAL else 0)
    && Word(m, b.at + F_SIZE) == b.size
    && Word(m, b.at + F_STATE) == (if b.free then STATE_FREE else 0)
    && (first || Word(m, b.at + F_ADDR) == b.Payload())
    && Word(m, b.at + F_NEXT) == next
  }

  function NextOf(bs: seq<Block>, i: nat): nat
    requires i < |bs|
  {
    if i + 1 < |bs| then bs[i + 1].at else 0
  }

  ghost predicate InMemory(m: seq<Byte>, bs: seq<Block>) {
    forall i :: 0 <= i < |bs| ==> bs[i].End() <= |m|
  }

  /** Memory holds the chain. */
  ghost predicate ChainIn(m: seq<Byte>, bs: seq<Block>)
    requires InMemory(m, bs)
  {
    forall i :: 0 <= i < |bs| ==> HeaderAt(m, bs[i], NextOf(bs, i), i == 0)
  }

  lemma HeaderFrame(m: seq<Byte>, m': seq<Byte>, b: Block, next: nat, first: bool)
    requires |m| == |m'| && b.End() <= |m| && HeaderAt(m, b, next, first)
    requires SameOn(m, m', b.at, b.Payload())
    ensures HeaderAt(m', b, next, first)
  {
  }

  /** A header whose bytes have not changed is still there. */
  lemma HeaderKept(m: seq<Byte>, m': seq<Byte>, bs: seq<Block>, j: nat)
    requires |m| == |m'| && InMemory(m, bs) && ChainIn(m, bs)
    requires j < |bs| && SameOn(m, m', bs[j].at, bs[j].Payload())
    ensures HeaderAt(m', bs[j], NextOf(bs, j), j == 0)
  {
  }

  /** Writing inside one block, past its header, leaves every header alone. */
  lemma PayloadWriteKeepsChain(m: seq<Byte>, m': seq<Byte>, bs: seq<Block>, start: nat, i: nat)
    requires Ordered(bs, start) && |m| == |m'| == U32_MODULUS && InMemory(m, bs) && ChainIn(m, bs)
    requires i < |bs| && SameOutside(m, m', bs[i].Payload(), bs[i].End())
    ensures ChainIn(m', bs)
  {
    hide HeaderAt, Ordered, Word;
    forall j | 0 <= j < |bs|
      ensures HeaderAt(m', bs[j], NextOf(bs, j), j == 0)
    {
      Apart(bs, start, i, j);
      HeaderKept(m, m', bs, j);
    }
  }

  /** Rewriting one header updates that block in the chain. */
  lemma HeaderWriteKeepsChain(m: seq<Byte>, m': seq<Byte>, bs: seq<Block>, start: nat, i: nat, b: Block)
    requires Ordered(bs, start) && |m| == |m'| == U32_MODULUS && InMemory(m, bs) && ChainIn(m, bs)
    requires i < |bs| && b.at == bs[i].at && b.size <= bs[i].size
    requires SameOutside(m, m', b.at, b.Payload()) && HeaderAt(m', b, NextOf(bs, i), i == 0)
    ensures InMemory(m', bs[i := b]) && ChainIn(m', bs[i := b])
  {
    hide HeaderAt, Ordered, Word;
    var bs' := bs[i := b];
    forall j | 0 <= j < |bs|
      ensures NextOf(bs', j) == NextOf(bs, j) && HeaderAt(m', bs'[j], NextOf(bs, j), j == 0)
    {
      if j != i {
        Apart(bs, start, i, j);
        HeaderKept(m, m', bs, j);
      }
    }
  }

  lemma Apart(bs: seq<Block>, start: nat, i: nat, j: nat)
    requires Ordered(bs, start) && i < |bs| && j < |bs|
    ensures i < j ==> bs[i].End() <= bs[j].at
    ensures j < i ==> bs[j].End() <= bs[i].at
  {
    if i < j {
      BlocksDisjoint(bs, start, i, j);
    } else if j < i {
      BlocksDisjoint(bs, start, j, i);
    }
  }

  /** Writing a header behind the last block and linking it there extends the
      chain. */
  lemma AppendKeepsChain(m: seq<Byte>, m': seq<Byte>, bs: seq<Block>, start: nat, b: Block)
    requires Ordered(bs, start) && |m| == |m'| == U32_MODULUS && InMemory(m, bs) && ChainIn(m, bs)
    requires b.at == bs[|bs| - 1].End() && b.End() < U32_MODULUS
    requires HeaderAt(m', bs[|bs| - 1], b.at, |bs| == 1) && HeaderAt(m', b, 0, false)
    requires SameOn(m, m', 0, bs[|bs| - 1].at)
    ensures InMemory(m', bs + [b]) && ChainIn(m', bs + [b])
  {
    assert bs != [];
    hide HeaderAt, Ordered, Word;
    var bs' := bs + [b];
    var last := |bs| - 1;
    forall j | 0 <= j < |bs'|
      ensures HeaderAt(m', bs'[j], NextOf(bs', j), j == 0)
    {
      if j < last {
        Apart(bs, start, j, last);
        SameOnPart(m, m', bs[last].at, bs[j].at, bs[j].Payload());
        HeaderKept(m, m', bs, j);
        assert NextOf(bs', j) == NextOf(bs, j);
      }
    }
  }

  /** The store of a 32-bit field. */
  method StoreWord(mem: array<Byte>, a: nat, v: U32)
    requires a + 4 <= mem.Length
    modifies mem
    ensures Word(mem[..], a) == v
    ensures SameOutside(old(mem[..]), mem[..], a, a + 4)
  {
    BytesOfWord(v);
    mem[a] := (v % 0x100) as Byte;
    mem[a + 1] := (v / 0x100 % 0x100) as Byte;
    mem[a + 2] := (v / 0x1_0000 % 0x100) as Byte;
    mem[a + 3] := (v / 0x100_0000) as Byte;
  }

  lemma BytesOfWord(v: U32)
    ensures v == v % 0x100 + 0x100 * (v / 0x100 % 0x100) + 0x1_0000 * (v / 0x1_0000 % 0x100)
                 + 0x100_0000 * (v / 0x100_0000)
    ensures v / 0x100_0000 < 0x100
  {
    var a, b, c := v / 0x100, v / 0x1_0000, v / 0x100_0000;
    assert v == v % 0x100 + 0x100 * a;
    assert a == a % 0x100 + 0x100 * b;
    assert b == b % 0x100 + 0x100 * c;
  }

  method LoadWord(mem: array<Byte>, a: nat) returns (v: U32)
    requires a + 4 <= mem.Length
    ensures v == Word(mem[..], a)
  {
    v := mem[a] as int + 0x100 * mem[a + 1] as int + 0x1_0000 * mem[a + 2] as int + 0x100_0000 * mem[a + 3] as int;
  }

  /** The stores of init_alloc. */
  method InitHeader(mem: array<Byte>, at: nat)
    requires mem.Length == U32_MODULUS && at + HEADER < U32_MODULUS
    modifies mem
    ensures HeaderAt(mem[..], Block(at, 0, false, true), 0, true)
  {
    StoreWord(mem, at + F_NEXT, 0);
    StoreWord(mem, at + F_SIZE, 0);
    StoreWord(mem, at + F_STATE, 0);
    StoreWord(mem, at + F_MAGIC, MAGIC);
    StoreWord(mem, at + F_FLAGS, FLAG_CRITICAL);
  }

  /** The stores of kalloc that take a free block back into use. */
  method MarkUsed(mem: array<Byte>, at: nat, ghost b: Block, ghost next: nat)
    requires mem.Length == U32_MODULUS && b.End() < U32_MODULUS && b.at == at
    requires HeaderAt(mem[..], b, next, false)
    modifies mem
    ensures HeaderAt(mem[..], b.(free := false, critical := false), next, false)
    ensures SameOutside(old(mem[..]), mem[..], b.at, b.Payload())
  {
    StoreWord(mem, at + F_STATE, 0);
    StoreWord(mem, at + F_ADDR, at + HEADER);
    StoreWord(mem, at + F_FLAGS, 0);
  }

  /** The stores of kalloc that write a new block's header. */
  method NewHeader(mem: array<Byte>, at: nat, size: U32)
    requires mem.Length == U32_MODULUS && at + HEADER + size < U32_MODULUS
    modifies mem
    ensures HeaderAt(mem[..], Block(at, size, false, false), 0, false)
    ensures SameOutside(old(mem[..]), mem[..], at, at + HEADER)
  {
    StoreWord(mem, at + F_SIZE, size);
    StoreWord(mem, at + F_NEXT, 0);
    StoreWord(mem, at + F_STATE, 0);
    StoreWord(mem, at + F_MAGIC, MAGIC);
    StoreWord(mem, at + F_FLAGS, 0);
    StoreWord(mem, at + F_ADDR, at + HEADER);
  }

  /** current->next = next. */
  method Link(mem: array<Byte>, at: nat, ghost b: Block, ghost first: bool, next: U32)
    requires mem.Length == U32_MODULUS && b.End() < U32_MODULUS && b.at == at
    requires HeaderAt(mem[..], b, 0, first)
    modifies mem
    ensures HeaderAt(mem[..], b, next, first)
    ensures SameOutside(old(mem[..]), mem[..], at, at + HEADER)
  {
    StoreWord(mem, at + F_NEXT, next);
  }

  /** block->size = size. */
  method Resize(mem: array<Byte>, at: nat, ghost b: Block, ghost next: nat, size: U32)
    requires mem.Length == U32_MODULUS && b.End() < U32_MODULUS && b.at == at && size <= b.size
    requires HeaderAt(mem[..], b, next, false)
    modifies mem
    ensures HeaderAt(mem[..], b.(size := size), next, false)
    ensures SameOutside(old(mem[..]), mem[..], at, at + HEADER)
  {
    StoreWord(mem, at + F_SIZE, size);
  }

  /** block->state = MEM_STATE_FREE. */
  method MarkFree(mem: array<Byte>, at: nat, ghost b: Block, ghost next: nat)
    requires mem.Length == U32_MODULUS && b.End() < U32_MODULUS && b.at == at
    requires HeaderAt(mem[..], b, next, false)
    modifies mem
    ensures HeaderAt(mem[..], b.(free := true), next, false)
    ensures SameOutside(old(mem[..]), mem[..], at, at + HEADER)
  {
    StoreWord(mem, at + F_STATE, STATE_FREE);
  }

  /** memcpy between two ranges that do not overlap. */
  method CopyBytes(mem: array<Byte>, dst: nat, src: nat, n: nat)
    requires dst + n <= mem.Length && src + n <= mem.Length
    requires dst + n <= src || src + n <= dst
    modifies mem
    ensures SameOutside(old(mem[..]), mem[..], dst, dst + n)
    ensures mem[dst..dst + n] == old(mem[src..src + n])
  {
    var i := 0;
    while i < n
      invariant 0 <= i <= n
      invariant SameOutside(old(mem[..]), mem[..], dst, dst + n)
      invariant forall a :: dst <= a < dst + i ==> mem[a] == old(mem[a - dst + src])
    {
      assert mem[src + i] == mem[..][src + i] == old(mem[..])[src + i];
      mem[dst + i] := mem[src + i];
      i := i + 1;
    }
  }
}
