/** kern/fs/fat.c: reading an open file. */
module FatFile {
  import opened Words
  import opened Buffers
  import opened ClusterChain
  import opened FatVolume
  import opened FatCursor
  import opened Options

  /** struct fat_file. */
  class File {
    var currentCluster: U16
    var currentOffset: U32
    const size: U32
    /** The listing, when the file is a directory. */
    const dirContents: Option<seq<Byte>>

    /** fat_open on a regular file. */
    constructor (startCluster: U16, size: U32)
      ensures Position() == Cursor(startCluster, 0)
      ensures Valid() && this.size == size && dirContents.None?
    {
      this.currentCluster, this.currentOffset := startCluster, 0;
      this.size, this.dirContents := size, None;
    }

    /** fat_open on a directory. */
    constructor Directory(listing: seq<Byte>)
      requires |listing| < U32_MODULUS
      ensures Position() == Cursor(CLUSTER_END, 0)
      ensures Valid() && size == |listing| && dirContents == Some(listing)
    {
      this.currentCluster, this.currentOffset := CLUSTER_END, 0;
      this.size, this.dirContents := |listing|, Some(listing);
    }

    function Position(): Cursor
      reads this
    {
      Cursor(currentCluster, currentOffset)
    }

    /** A directory's size is that of its listing, and reading stays in it. */
    ghost predicate Valid()
      reads this
    {
      dirContents.Some? ==> |dirContents.value| == size && currentOffset <= size
    }

    /** What the next read of count bytes delivers. */
    ghost function NextOutcome(vol: Volume, count: U32): Outcome
      requires vol.Sized() && Valid()
      reads this
    {
      if dirContents.Some? then
        var n := Min(size - currentOffset, count);
        Outcome(dirContents.value[currentOffset..currentOffset + n], ToInt32(n),
                Cursor(currentCluster, currentOffset + n))
      else
        ReadOutcome(ImageOf(vol), Position(), size, count)
    }

    /** read_contents. */
    method ReadContents(ghost vol: Volume, count: U32, buf: array<Byte>, at: nat) returns (ret: int)
      requires vol.Sized() && Valid() && dirContents.Some?
      requires at + count <= buf.Length
      modifies this`currentOffset, buf
      ensures Valid()
      ensures var o := old(NextOutcome(vol, count));
              ret == o.ret && Position() == o.cursor && buf[..] == Patch(old(buf[..]), at, o.data)
    {
      if currentOffset >= size {
        PatchNothing(buf[..], at);
        return 0;
      }
      var toRead := Min(size - currentOffset, count);
      MemCpy(buf, at, dirContents.value[currentOffset..currentOffset + toRead]);
      currentOffset := currentOffset + toRead;
      return ToInt32(toRead);
    }

    /** Read a cluster and copy its bytes [lo, hi) out. */
    static method CopyCluster(vol: Volume, clus: U16, clbuf: array<Byte>, lo: nat, hi: nat, buf: array<Byte>, at: nat)
      requires vol.Sized() && clbuf.Length == vol.bytesPerCluster && buf != clbuf
      requires lo <= hi <= clbuf.Length && at + (hi - lo) <= buf.Length
      modifies clbuf, buf
      ensures buf[..] == Patch(old(buf[..]), at, ImageOf(vol).cluster(clus)[lo..hi])
    {
      var n := ReadCluster(vol, clus, clbuf);
      if n != vol.bpb.sectorsPerCluster {
        assert false;
      }
      assert clbuf[lo..hi] == clbuf[..][lo..hi];
      MemCpy(buf, at, clbuf[lo..hi]);
    }

    /** The whole-cluster loop of fat_read. It stops with more than a cluster
        left only at an end-of-chain marker. */
    static method ReadWholeClusters(vol: Volume, ghost c: U16, start: U16, ghost from: nat, fullSize: nat,
                                    rest: nat, buf: array<Byte>, at: nat, clbuf: array<Byte>)
      returns (clus: U16, remaining: nat)
      requires vol.Sized() && from < clbuf.Length == vol.bytesPerCluster && buf != clbuf
      requires at + fullSize <= buf.Length && rest <= fullSize
      requires rest > 0 ==> start == Walk(ImageOf(vol), c, 1) && fullSize - rest == vol.bytesPerCluster - from
      modifies buf, clbuf
      ensures var img := ImageOf(vol);
              var whole := WholeClusters(vol.bytesPerCluster, rest);
              var done := Delivered(img, c, 0, whole);
              && remaining == Left(vol.bytesPerCluster, rest, done)
              && clus == (if rest > 0 then Walk(img, c, 1 + done) else start)
              && buf[..] == Patch(old(buf[..]), at + fullSize - rest,
                                  ChainBytes(img, c, from + fullSize - rest, from + fullSize - remaining))
    {
      hide FatEntry, ClusterBytes, Patch, ChainBytes;
      ghost var img := ImageOf(vol);
      var clb := vol.bytesPerCluster;
      ghost var whole := WholeClusters(clb, rest);
      ghost var j := 0;
      ghost var lo := from + fullSize - rest;
      clus, remaining := start, rest;
      var p := at + fullSize - rest;
      PatchNothing(buf[..], p);
      while remaining > clb
        invariant j <= whole && remaining == Left(clb, rest, j)
        invariant p == at + fullSize - remaining
        invariant clus == if rest > 0 then Walk(img, c, 1 + j) else start
        invariant Delivered(img, c, j, whole) == Delivered(img, c, 0, whole)
        invariant buf[..] == Patch(old(buf[..]), at + fullSize - rest, ChainBytes(img, c, lo, from + fullSize - remaining))
        decreases remaining
      {
        assert rest > 0 && clus == Walk(img, c, 1 + j);
        if clus >= CLUSTER_END {
          assert Delivered(img, c, j, whole) == j;
          return;
        }
        assert Delivered(img, c, j, whole) == Delivered(img, c, j + 1, whole);
        ghost var mid := from + fullSize - remaining;
        ghost var piece := ChainBytes(img, c, mid, mid + clb);
        NextPiece(img, c, from, fullSize, rest, j, clb);
        CopyCluster(vol, clus, clbuf, 0, clb, buf, p);
        ChainBytesAppend(img, c, lo, mid, mid + clb);
        PatchAppend(old(buf[..]), at + fullSize - rest, ChainBytes(img, c, lo, mid), piece);
        assert buf[..] == Patch(old(buf[..]), at + fullSize - rest, ChainBytes(img, c, lo, mid + clb));
        LeftNext(clb, rest, j);
        p := p + clb;
        remaining := remaining - clb;
        clus := NextCluster(vol, clus);
        assert clus == img.entry(Walk(img, c, 1 + j)) == Walk(img, c, 2 + j);
        j := j + 1;
      }
    }

    /** The three phases of fat_read: the rest of the current cluster, whole
        clusters, and the start of a last cluster. More than a cluster remains
        only when the chain ended early. */
    static method Transfer(vol: Volume, c: U16, offset: U32, fullSize: nat, buf: array<Byte>, at: nat)
      returns (clus: U16, remaining: nat)
      requires vol.Sized() && fullSize > 0 && at + fullSize <= buf.Length
      modifies buf
      ensures var img := ImageOf(vol);
              var clb := vol.bytesPerCluster;
              var from := Within(clb, offset);
              var first := InFirst(clb, offset, fullSize);
              var rest := fullSize - first;
              var done := Delivered(img, c, 0, WholeClusters(clb, rest));
              var left := Left(clb, rest, done);
              && clus == Walk(img, c, Hops(clb, from, first, rest, done))
              && remaining == (if left > clb then left else 0)
              && buf[..] == Patch(old(buf[..]), at, ChainBytes(img, c, from, from + fullSize - remaining))
    {
      hide FatEntry, ClusterBytes, Patch, ChainBytes, Within, Left, Delivered, WholeClusters;
      ghost var img := ImageOf(vol);
      var clb := vol.bytesPerCluster;
      var clbuf := new Byte[clb](_ => 0);
      clus, remaining := c, fullSize;

      var clusOff := Within(clb, offset);
      var firstCnt := Min(clb - clusOff, remaining);
      ChainBytesInCluster(img, c, 0, clusOff, clusOff + firstCnt);
      CopyCluster(vol, clus, clbuf, clusOff, clusOff + firstCnt, buf, at);
      assert buf[..] == Patch(old(buf[..]), at, ChainBytes(img, c, clusOff, clusOff + firstCnt));
      remaining := remaining - firstCnt;
      if firstCnt == clb - clusOff {
        clus := NextCluster(vol, clus);
        assert clus == img.entry(c);
      }
      assert clus == Walk(img, c, if firstCnt == clb - clusOff then 1 else 0);
      hide Walk;

      ghost var rest := remaining;
      ghost var mid := clusOff + firstCnt;
      clus, remaining := ReadWholeClusters(vol, c, clus, clusOff, fullSize, remaining, buf, at, clbuf);
      ghost var upto := clusOff + fullSize - remaining;
      ChainBytesAppend(img, c, clusOff, mid, upto);
      PatchAppend(old(buf[..]), at, ChainBytes(img, c, clusOff, mid), ChainBytes(img, c, mid, upto));
      if remaining > clb {
        return;
      }

      if remaining > 0 {
        var lastCnt := Min(clb, remaining);
        CopyCluster(vol, clus, clbuf, 0, lastCnt, buf, at + fullSize - remaining);
        NextPiece(img, c, clusOff, fullSize, rest, WholeClusters(clb, rest), lastCnt);
        ChainBytesAppend(img, c, clusOff, upto, upto + lastCnt);
        PatchAppend(old(buf[..]), at, ChainBytes(img, c, clusOff, upto), ChainBytes(img, c, upto, upto + lastCnt));
        remaining := remaining - lastCnt;
      }
    }

    /** fat_read. */
    method Read(vol: Volume, count: U32, buf: array<Byte>, at: nat) returns (ret: int)
      requires vol.Sized() && Valid()
      requires at + count <= buf.Length
      modifies this`currentCluster, this`currentOffset, buf
      ensures Valid()
      ensures var o := old(NextOutcome(vol, count));
              ret == o.ret && Position() == o.cursor && buf[..] == Patch(old(buf[..]), at, o.data)
    {
      hide FatEntry, ClusterBytes, Patch, ChainBytes, Within, Left, Delivered, WholeClusters, Walk;
      var fullSize := Wanted(size, currentOffset, count);
      if fullSize <= 0 {
        assert NextOutcome(vol, count).data == [];
        PatchNothing(buf[..], at);
        return 0;
      }
      if dirContents.Some? {
        ret := ReadContents(vol, count, buf, at);
        return;
      }
      ret := ReadChain(vol, count, fullSize, buf, at);
    }

    /** The part of fat_read that follows the chain. */
    method ReadChain(vol: Volume, count: U32, fullSize: nat, buf: array<Byte>, at: nat) returns (ret: int)
      requires vol.Sized() && Valid() && dirContents.None?
      requires at + count <= buf.Length && fullSize == Wanted(size, currentOffset, count) > 0
      modifies this`currentCluster, this`currentOffset, buf
      ensures Valid()
      ensures var o := old(NextOutcome(vol, count));
              ret == o.ret && Position() == o.cursor && buf[..] == Patch(old(buf[..]), at, o.data)
    {
      hide FatEntry, ClusterBytes, Patch, ChainBytes, Within, Left, Delivered, WholeClusters, Walk, ImageOf;
      var clus, remaining := Transfer(vol, currentCluster, currentOffset, fullSize, buf, at);
      currentCluster := clus;
      if remaining > vol.bytesPerCluster {
        currentOffset := Wrap32(currentOffset + (count - remaining));
        return ToInt32(count - remaining);
      }
      currentOffset := Wrap32(currentOffset + (fullSize - remaining));
      return ToInt32(fullSize - remaining);
    }
  }

  /** The first n bytes of the next cluster are the chain's next n bytes. */
  lemma NextPiece(img: Image, c: U16, from: nat, wanted: nat, rest: nat, j: nat, n: nat)
    requires img.Valid() && from < img.clusterSize && n <= img.clusterSize && rest > 0
    requires wanted - rest == img.clusterSize - from && j <= WholeClusters(img.clusterSize, rest)
    ensures var lo := from + wanted - Left(img.clusterSize, rest, j);
            ChainBytes(img, c, lo, lo + n) == img.cluster(Walk(img, c, 1 + j))[..n]
  {
    LoopRuns(img.clusterSize, rest, j);
    Distribute(1, j, img.clusterSize);
    ChainBytesInCluster(img, c, 1 + j, 0, n);
  }

  /** One round of read_cluster_chain: grow the block and read a cluster into
      its new end. */
  method AppendCluster(vol: Volume, cluster: U16, data: array<Byte>) returns (grown: array<Byte>)
    requires vol.Sized()
    ensures fresh(grown)
    ensures grown[..] == data[..] + ImageOf(vol).cluster(cluster)
  {
    hide FatEntry, ClusterBytes, ImageOf, Patch;
    var clb := vol.bytesPerCluster;
    grown := Realloc(data, data.Length + clb, data.Length);
    ghost var was := grown[..];
    assert was[..data.Length] == data[..];
    var clbuf := new Byte[clb](_ => 0);
    File.CopyCluster(vol, cluster, clbuf, 0, clb, grown, data.Length);
    ghost var piece := ImageOf(vol).cluster(cluster);
    assert piece[0..clb] == piece;
    PatchPrefix(was, data.Length, piece);
    assert grown[..] == grown[..][..data.Length + clb];
  }

  /** read_cluster_chain, on a chain of n clusters that it can stop on and whose
      data has a 32-bit size. */
  method ReadClusterChain(vol: Volume, start: U16, ghost n: nat) returns (data: array<Byte>, size: nat)
    requires vol.Sized() && StopsAfter(ImageOf(vol), start, n)
    requires Span(ImageOf(vol), n) < U32_MODULUS
    ensures data.Length == size == Span(ImageOf(vol), n)
    ensures data[..] == ChainBytes(ImageOf(vol), start, 0, size)
  {
    ghost var img := ImageOf(vol);
    ghost var k := 0;
    var cluster := start;
    data, size := new Byte[0], 0;
    assert Span(img, 0) == 0 && data[..] == ChainBytes(img, start, 0, 0);
    assert start == Walk(img, start, 0);
    ChainStep(img, start, n, 0);
    hide FatEntry, ClusterBytes, ImageOf, ChainBytes, Span, Walk, StopsAfter;
    while cluster > 0 && cluster <= CLUSTER_END
      invariant k <= n && cluster == Walk(img, start, k) && (Stops(cluster) <==> k == n)
      invariant size == Span(img, k) && data[..] == ChainBytes(img, start, 0, size)
      decreases n - k
    {
      ClusterPiece(img, start, k);
      ChainBytesAppend(img, start, 0, Span(img, k), Span(img, k + 1));
      data := AppendCluster(vol, cluster, data);
      size := size + vol.bytesPerCluster;
      ChainStep(img, start, n, k);
      cluster := NextCluster(vol, cluster);
      k := k + 1;
      ChainStep(img, start, n, k);
    }
  }
}
