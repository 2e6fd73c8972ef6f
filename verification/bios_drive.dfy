/** kern/io/bios_drive.c: multi-block reads over the 4 KiB BIOS transfer. */
module BiosDrive {
  import opened Words
  import opened Buffers

  const TRANSFER_LIMIT := 4096

  /** A drive: a block size, and the flat byte contents of the disk. */
  datatype BlockDev = BlockDev(blockSize: nat, data: nat -> Byte)

  /** The disk bytes [start, start + len). */
  function Bytes(dev: BlockDev, start: nat, len: nat): (s: seq<Byte>)
    ensures |s| == len
    ensures forall i :: 0 <= i < len ==> s[i] == dev.data(start + i)
  {
    seq(len, i requires 0 <= i => dev.data(start + i))
  }

  /** The disk blocks [lba, lba + blocks). */
  function Blocks(dev: BlockDev, lba: nat, blocks: nat): (s: seq<Byte>)
    ensures |s| == blocks * dev.blockSize
  {
    assert lba * dev.blockSize >= 0 && blocks * dev.blockSize >= 0;
    Bytes(dev, lba * dev.blockSize, blocks * dev.blockSize)
  }

  /** Consecutive runs of blocks are adjacent on the disk. */
  lemma BlocksAppend(dev: BlockDev, lba: nat, m: nat, n: nat)
    ensures Blocks(dev, lba, m) + Blocks(dev, lba + m, n) == Blocks(dev, lba, m + n)
  {
    var bs := dev.blockSize;
    assert (lba + m) * bs == lba * bs + m * bs;
    assert (m + n) * bs == m * bs + n * bs;
  }

  /** One BIOS transfer. A BIOS error is an assertion failure in the kernel and
      is not part of this model, so the transfer always returns 0. */
  method Read4k(dev: BlockDev, lba: nat, blocks: nat, buffer: array<Byte>, at: nat) returns (err: int)
    requires blocks * dev.blockSize <= TRANSFER_LIMIT
    requires at + blocks * dev.blockSize <= buffer.Length
    modifies buffer
    ensures err == 0
    ensures buffer[..] == Patch(old(buffer[..]), at, Blocks(dev, lba, blocks))
  {
    MemCpy(buffer, at, Blocks(dev, lba, blocks));
    err := 0;
  }

  /** The blocks that one BIOS transfer can carry. */
  function MaxBlocks(bs: nat): (m: nat)
    requires 0 < bs <= TRANSFER_LIMIT
    ensures m >= 1
  {
    TRANSFER_LIMIT / bs
  }

  /** The next chunk fits a BIOS transfer and the rest of the buffer. */
  lemma ChunkFits(dev: BlockDev, lba: nat, offset: nat, chunk: nat, blocks: nat)
    requires 0 < dev.blockSize <= TRANSFER_LIMIT
    requires chunk <= MaxBlocks(dev.blockSize) && offset + chunk <= blocks
    ensures chunk * dev.blockSize == |Blocks(dev, lba + offset, chunk)| <= TRANSFER_LIMIT
    ensures Blocks(dev, lba, offset) + Blocks(dev, lba + offset, chunk) == Blocks(dev, lba, offset + chunk)
    ensures |Blocks(dev, lba, offset + chunk)| <= |Blocks(dev, lba, blocks)|
  {
    MulMono(chunk, MaxBlocks(dev.blockSize), dev.blockSize);
    MulMono(offset + chunk, blocks, dev.blockSize);
    BlocksAppend(dev, lba, offset, chunk);
  }

  /** The count that the code keeps in a signed int. */
  function Counted(blocks: U32): nat {
    if blocks < 0x8000_0000 then blocks else 0
  }

  /** bdrive_read: chunks of at most 4096 bytes. From 2^31 blocks up the count is
      negative: nothing is read, and the negative number is returned. */
  method Read(dev: BlockDev, lba: nat, blocks: U32, buffer: array<Byte>, at: nat) returns (n: int)
    requires 0 < dev.blockSize <= TRANSFER_LIMIT
    requires at + Counted(blocks) * dev.blockSize <= buffer.Length
    modifies buffer
    ensures n == ToInt32(blocks)
    ensures buffer[..] == Patch(old(buffer[..]), at, Blocks(dev, lba, Counted(blocks)))
  {
    ReadAll(dev, lba, ToInt32(blocks), Counted(blocks), buffer, at);
    n := ToInt32(blocks);
  }

  /** The loop of bdrive_read. */
  method ReadAll(dev: BlockDev, lba: nat, count: int, ghost all: nat, buffer: array<Byte>, at: nat)
    requires 0 < dev.blockSize <= TRANSFER_LIMIT && all == Max(count, 0)
    requires at + |Blocks(dev, lba, all)| <= buffer.Length
    modifies buffer
    ensures buffer[..] == Patch(old(buffer[..]), at, Blocks(dev, lba, all))
  {
    hide Patch, Blocks, MaxBlocks;
    var blocksLeft, maxBlocks := count, MaxBlocks(dev.blockSize);
    var cursor, offset := at, 0;
    ghost var was := buffer[..];
    PatchNothing(was, at);
    NoBlocks(dev, lba);
    while blocksLeft > 0
      invariant 0 <= offset && Max(blocksLeft, 0) + offset == all
      invariant cursor == at + |Blocks(dev, lba, offset)| <= buffer.Length
      invariant buffer[..] == Patch(was, at, Blocks(dev, lba, offset))
    {
      var chunk := Min(blocksLeft, maxBlocks);
      ChunkFits(dev, lba, offset, chunk, all);
      var err := Read4k(dev, lba + offset, chunk, buffer, cursor);
      if err != 0 {
        assert false;
      }
      PatchAppend(was, at, Blocks(dev, lba, offset), Blocks(dev, lba + offset, chunk));
      offset := offset + chunk;
      cursor := cursor + chunk * dev.blockSize;
      blocksLeft := blocksLeft - chunk;
    }
  }

  lemma NoBlocks(dev: BlockDev, lba: nat)
    ensures Blocks(dev, lba, 0) == []
  {
  }
}
