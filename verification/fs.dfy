/** kern/fs/fs.c: reading a whole file in 2048-byte chunks. */
module Fs {
  import opened Words
  import opened Buffers
  import opened ClusterChain
  import opened FatVolume
  import opened FatCursor
  import opened FatSequential
  import opened FatFile

  const CHUNK: U32 := 2048

  /** fs_read: nothing is read through a null handle. */
  method FsRead(vol: Volume, handle: File?, buf: array<Byte>, at: nat, count: U32) returns (n: int)
    requires vol.Sized() && at + count <= buf.Length
    requires handle != null ==> handle.Valid()
    modifies buf, handle
    ensures handle == null ==> n == 0 && buf[..] == old(buf[..])
    ensures handle != null ==> handle.Valid()
    ensures handle != null ==> (
              var o := old(handle.NextOutcome(vol, count));
              n == o.ret && handle.Position() == o.cursor && buf[..] == Patch(old(buf[..]), at, o.data))
  {
    if handle == null {
      return 0;
    }
    n := handle.Read(vol, count, buf, at);
  }

  /** After how many bytes a chunked read first loses its place, when a cluster
      is smaller than a chunk: a common multiple of both. */
  function Period(clb: nat): nat {
    if clb == 1536 then 6144 else 2048
  }

  /** How many clusters behind the file the i-th byte read is. */
  function Lag(clb: nat, i: nat): nat {
    if clb >= CHUNK then 0 else i / Period(clb)
  }

  lemma LagBound(clb: nat, i: nat)
    requires clb % SECTOR == 0
    ensures 0 <= Lag(clb, i) * clb <= i
  {
    if clb < CHUNK {
      MulMono(clb, Period(clb), i / Period(clb));
    }
  }

  /** The first n bytes that a chunked read of the whole file stores. */
  function Stored(img: Image, start: U16, n: nat): (s: seq<Byte>)
    requires img.Valid() && img.clusterSize % SECTOR == 0
    ensures |s| == n
  {
    seq(n, i requires 0 <= i => LagBound(img.clusterSize, i);
        ChainByte(img, start, i - Lag(img.clusterSize, i) * img.clusterSize))
  }

  /** The m-th chunk over three-sector clusters slips when m is 2 modulo 3. */
  lemma ThreeSectorChunk(size: nat, m: nat)
    requires m * 2048 + 2048 <= size
    ensures Slips(1536, size, m * 2048, 2048) <==> m % 3 == 2
    ensures Lag(1536, m * 2048 + 2048) == m / 3 + (if m % 3 == 2 then 1 else 0)
    ensures Lag(1536, m * 2048) == m / 3
  {
    var q, r := m / 3, m % 3;
    DivUnique(m * 2048, 1536, 4 * q + r, 512 * r);
    DivUnique(m * 2048, 6144, q, 2048 * r);
    if r == 2 {
      DivUnique(m * 2048 + 2048, 6144, q + 1, 0);
    } else {
      DivUnique(m * 2048 + 2048, 6144, q, 2048 * r + 2048);
    }
  }

  /** A chunk slips exactly when the lag grows. */
  lemma ChunkSlips(clb: nat, size: nat, m: nat)
    requires clb > 0 && clb % SECTOR == 0 && m * 2048 + 2048 <= size
    ensures Lag(clb, m * 2048 + 2048)
         == Lag(clb, m * 2048) + (if Slips(clb, size, m * 2048, 2048) then 1 else 0)
  {
    if clb >= 2048 {
      var rest := 2048 - InFirst(clb, m * 2048, 2048);
      if rest > 0 {
        DivUnique(rest, clb, 0, rest);
      }
    } else if clb == 1536 {
      ThreeSectorChunk(size, m);
    } else if clb == 1024 {
      assert InFirst(1024, m * 2048, 2048) == 1024;
    } else {
      assert InFirst(512, m * 2048, 2048) == 512;
    }
  }

  /** Within a chunk the lag does not change. */
  lemma LagInChunk(clb: nat, m: nat, i: nat)
    requires m * 2048 <= i < m * 2048 + 2048
    ensures Lag(clb, i) == Lag(clb, m * 2048)
  {
    var p := Period(clb);
    var q := m / (p / 2048);
    DivUnique(i, p, q, i - q * p);
    DivUnique(m * 2048, p, q, m * 2048 - q * p);
  }

  /** One more chunk of the loop. */
  lemma StoreChunk(img: Image, start: U16, m: nat, n: nat)
    requires img.Valid() && img.clusterSize % SECTOR == 0 && n <= 2048
    ensures var lo := m * 2048 - Lag(img.clusterSize, m * 2048) * img.clusterSize;
            lo >= 0 && Stored(img, start, m * 2048) + ChainBytes(img, start, lo, lo + n)
                    == Stored(img, start, m * 2048 + n)
  {
    var clb := img.clusterSize;
    LagBound(clb, m * 2048);
    forall i | m * 2048 <= i < m * 2048 + n
      ensures Lag(clb, i) == Lag(clb, m * 2048)
    {
      LagInChunk(clb, m, i);
    }
  }

  /** The cursor of a file that chunked reading has taken to the start of its
      m-th chunk. */
  ghost predicate OnTrack(img: Image, start: U16, size: U32, cur: Cursor, m: nat)
    requires img.Valid()
  {
    var k := cur.offset / img.clusterSize - Lag(img.clusterSize, cur.offset);
    cur.offset == m * 2048 && 0 <= k && cur.cluster == Walk(img, start, k)
  }

  /** One fs_read of the loop over a covered file stores the chunk's bytes and
      leaves the cursor as far behind as predicted. */
  lemma ReadChunk(img: Image, start: U16, size: U32, cur: Cursor, m: nat)
    requires img.Valid() && img.clusterSize % SECTOR == 0 && Covers(img, start, size)
    requires cur.offset < size && OnTrack(img, start, size, cur, m)
    ensures var o := ReadOutcome(img, cur, size, CHUNK);
            var n := Min(CHUNK, size - cur.offset);
            && o.ret == |o.data| == n && o.cursor.offset == cur.offset + n
            && Stored(img, start, cur.offset) + o.data == Stored(img, start, cur.offset + n)
            && (n == CHUNK ==> OnTrack(img, start, size, o.cursor, m + 1))
  {
    hide ReadOutcome, Walk, ChainBytes, Covers, Slips, Stored, Lag, Within;
    var clb := img.clusterSize;
    var lag := Lag(clb, cur.offset);
    var n := Min(CHUNK, size - cur.offset);
    LagNonNegative(clb, cur.offset);
    ReadFromCluster(img, start, size, cur, cur.offset / clb - lag, CHUNK);
    StoreChunk(img, start, m, n);
    BackBy(clb, cur.offset, lag);
    if n == CHUNK {
      ChunkSlips(clb, size, m);
    }
  }

  lemma LagNonNegative(clb: nat, i: nat)
    ensures Lag(clb, i) >= 0
  {
  }

  lemma BackBy(clb: nat, offset: nat, lag: nat)
    requires clb > 0 && lag <= offset / clb
    ensures (offset / clb - lag) * clb + Within(clb, offset) == offset - lag * clb
  {
    Distribute(offset / clb - lag, lag, clb);
  }

  lemma StoredPrefix(img: Image, start: U16, a: nat, b: nat)
    requires img.Valid() && img.clusterSize % SECTOR == 0 && a <= b
    ensures Stored(img, start, a) == Stored(img, start, b)[..a]
  {
  }

  /** What fs_read_full makes of an open file. */
  ghost function WholeFile(vol: Volume, handle: File?): (s: seq<Byte>)
    requires vol.Sized() && (handle != null ==> handle.Valid())
    reads handle
    ensures handle != null ==> |s| == handle.size
  {
    if handle == null then []
    else if handle.dirContents.Some? then handle.dirContents.value
    else Stored(ImageOf(vol), handle.currentCluster, handle.size)
  }

  /** A handle just opened, on a file whose chain covers it, that leaves room
      for the buffer in the 32-bit address space. */
  ghost predicate Fresh(vol: Volume, handle: File)
    requires vol.Sized()
    reads handle
  {
    && handle.Valid() && handle.currentOffset == 0 && handle.size < 0x7fff_0000
    && (handle.dirContents.None? ==> Covers(ImageOf(vol), handle.currentCluster, handle.size))
  }

  /** The state of an open file during the loop. */
  ghost predicate Reading(vol: Volume, handle: File, start: U16, offset: int, m: nat)
    requires vol.Sized()
    reads handle
  {
    && handle.Valid() && handle.currentOffset == offset <= handle.size < 0x7fff_0000
    && (handle.dirContents.None? ==>
          && Covers(ImageOf(vol), start, handle.size)
          && (offset < handle.size ==> OnTrack(ImageOf(vol), start, handle.size, handle.Position(), m)))
  }

  /** What the next fs_read of the loop does. */
  lemma NextChunk(vol: Volume, handle: File, start: U16, offset: nat, m: nat, all: seq<Byte>)
    requires vol.Sized() && Reading(vol, handle, start, offset, m)
    requires all == if handle.dirContents.Some? then handle.dirContents.value
                    else Stored(ImageOf(vol), start, handle.size)
    ensures var o := handle.NextOutcome(vol, CHUNK);
            && o.ret == |o.data| == Min(CHUNK, handle.size - offset)
            && o.cursor.offset == offset + o.ret
            && o.data == all[offset..offset + o.ret]
            && (handle.dirContents.None? && o.cursor.offset < handle.size ==>
                  OnTrack(ImageOf(vol), start, handle.size, o.cursor, m + 1))
  {
    hide ReadOutcome, Covers, OnTrack, Stored, ImageOf;
    var img := ImageOf(vol);
    if handle.dirContents.None? {
      if offset < handle.size {
        var n := Min(CHUNK, handle.size - offset);
        ReadChunk(img, start, handle.size, handle.Position(), m);
        StoredPrefix(img, start, offset, handle.size);
        StoredPrefix(img, start, offset + n, handle.size);
      } else {
        NothingRead(img, handle.Position(), handle.size, CHUNK);
      }
    }
  }

  /** One call of fs_read in the loop: it extends what is stored of the file. */
  method ReadOn(vol: Volume, handle: File?, buf: array<Byte>, offset: nat,
                ghost start: U16, ghost m: nat, ghost all: seq<Byte>) returns (read: int)
    requires vol.Sized() && offset + CHUNK <= buf.Length
    requires if handle == null then offset == 0 && all == [] else Reading(vol, handle, start, offset, m)
    requires handle != null ==>
      all == if handle.dirContents.Some? then handle.dirContents.value else Stored(ImageOf(vol), start, handle.size)
    requires buf[..offset] == all[..offset]
    modifies buf, handle
    ensures read == Min(CHUNK, |all| - offset)
    ensures handle != null ==> Reading(vol, handle, start, offset + read, m + 1)
    ensures buf[..offset + read] == all[..offset + read]
  {
    hide ReadOutcome, OnTrack, Covers, Stored, ImageOf, Patch;
    ghost var was := buf[..];
    if handle != null {
      NextChunk(vol, handle, start, offset, m, all);
    }
    read := FsRead(vol, handle, buf, offset, CHUNK);
    if handle != null {
      ghost var piece := all[offset..offset + read];
      assert buf[..] == Patch(was, offset, piece);
      PatchPrefix(was, offset, piece);
      assert buf[..offset + read] == buf[..][..offset + read];
      assert was[..offset] + piece == all[..offset + read];
    } else {
      assert all == [] && read == 0;
    }
  }

  /** fs_read_full. */
  method FsReadFull(vol: Volume, handle: File?) returns (buf: array<Byte>, count: nat)
    requires vol.Sized() && (handle != null ==> Fresh(vol, handle))
    modifies handle
    ensures fresh(buf) && buf.Length == count
    ensures buf[..] == old(WholeFile(vol, handle))
  {
    ghost var start := if handle == null then 0 else handle.currentCluster;
    ghost var all := WholeFile(vol, handle);
    ghost var m := 0;
    buf := new Byte[CHUNK];
    var offset, size := 0, CHUNK;
    assert handle != null ==> Reading(vol, handle, start, offset, m);
    hide Reading, Stored, ImageOf;
    while true
      invariant fresh(buf) && offset + CHUNK <= buf.Length && size == offset + CHUNK
      invariant handle == null ==> offset == 0
      invariant handle != null ==> Reading(vol, handle, start, offset, m)
      invariant 0 <= offset <= |all| && buf[..offset] == all[..offset]
      decreases |all| - offset
    {
      var read := ReadOn(vol, handle, buf, offset, start, m, all);
      if read <= 0 {
        break;
      }
      size := size + read;
      offset := offset + read;
      m := m + 1;
      buf := Realloc(buf, size + CHUNK, offset);
    }
    buf := Realloc(buf, offset, offset);
    assert buf[..] == buf[..offset];
    count := offset;
  }

  /** Where whole-file reads are right: clusters of at least a chunk, or a file
      that ends before the first lost place. */
  predicate ReadsWhole(clb: nat, size: nat) {
    clb >= CHUNK || size <= Period(clb)
  }

  /** There, fs_read_full returns the file. */
  lemma StoredIsFile(img: Image, start: U16, size: nat)
    requires img.Valid() && img.clusterSize % SECTOR == 0 && ReadsWhole(img.clusterSize, size)
    ensures Stored(img, start, size) == ChainBytes(img, start, 0, size)
  {
    forall i | 0 <= i < size
      ensures Lag(img.clusterSize, i) == 0
    {
    }
  }

  /** Anywhere else it does not, on any disk where the cluster at the lost place
      and the one before it begin differently. */
  lemma StoredIsNotFile(img: Image, start: U16, size: nat)
    requires img.Valid() && img.clusterSize % SECTOR == 0 && !ReadsWhole(img.clusterSize, size)
    requires ChainByte(img, start, Period(img.clusterSize))
          != ChainByte(img, start, Period(img.clusterSize) - img.clusterSize)
    ensures Stored(img, start, size) != ChainBytes(img, start, 0, size)
  {
    var p := Period(img.clusterSize);
    assert Lag(img.clusterSize, p) == 1;
    assert Stored(img, start, size)[p] == ChainByte(img, start, p - img.clusterSize);
    assert ChainBytes(img, start, 0, size)[p] == ChainByte(img, start, p);
  }
}
