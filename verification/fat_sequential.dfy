/** What a sequence of fat_read calls on one file returns. */
module FatSequential {
  import opened Words
  import opened ClusterChain
  import opened FatCursor

  /** The clusters a file of the given size occupies. */
  function ClusterCount(clb: nat, size: nat): nat
    requires clb > 0
  {
    (size + clb - 1) / clb
  }

  /** Byte position pos < size lies in a cluster numbered below the count. */
  lemma ClusterInFile(clb: nat, size: nat, k: nat)
    requires clb > 0 && 0 <= k * clb < size
    ensures k < ClusterCount(clb, size)
  {
    if ClusterCount(clb, size) <= k {
      MulMono(ClusterCount(clb, size), k, clb);
    }
  }

  /** The chain is long enough for the file: no end marker before its last
      cluster. */
  ghost predicate Covers(img: Image, start: U16, size: U32)
    requires img.Valid()
  {
    forall k :: 0 <= k < ClusterCount(img.clusterSize, size) ==> Walk(img, start, k) < CLUSTER_END
  }

  /** The cursor is in the k-th cluster of the file, which lags the byte offset
      by a whole number of clusters. */
  ghost predicate InCluster(img: Image, start: U16, size: U32, cur: Cursor, k: nat)
    requires img.Valid()
  {
    cur.offset < size && cur.cluster == Walk(img, start, k) && k <= cur.offset / img.clusterSize
  }

  /** Cluster and offset agree, so that reading on continues the file. */
  ghost predicate Coupled(img: Image, start: U16, size: U32, cur: Cursor)
    requires img.Valid()
  {
    cur.offset <= size
    && (cur.offset < size ==> cur.cluster == Walk(img, start, cur.offset / img.clusterSize))
  }

  /** The read goes past the current cluster and ends on a cluster boundary. */
  predicate Slips(clb: nat, size: nat, offset: nat, count: nat)
    requires clb > 0 && offset <= size
  {
    var wanted := Min(count, size - offset);
    var rest := wanted - InFirst(clb, offset, wanted);
    rest > 0 && rest % clb == 0
  }

  /** Where a read of wanted bytes ends, counted in clusters. */
  lemma EndCluster(clb: nat, offset: nat, wanted: nat)
    requires clb > 0 && wanted > 0
    ensures var from := Within(clb, offset);
            var first := InFirst(clb, offset, wanted);
            var rest := wanted - first;
            var whole := WholeClusters(clb, rest);
            && (offset + wanted) / clb == offset / clb + Hops(clb, from, first, rest, whole)
                                          + (if rest > 0 && rest % clb == 0 then 1 else 0)
            && (rest > 0 ==> 0 <= (offset / clb + 1 + whole) * clb < offset + wanted)
  {
    var k, from := offset / clb, Within(clb, offset);
    var first := InFirst(clb, offset, wanted);
    var rest := wanted - first;
    var w := WholeClusters(clb, rest);
    assert offset == k * clb + from;
    assert if rest > 0 then first == clb - from else from + wanted <= clb && first == wanted;
    hide Within, InFirst, WholeClusters;
    LoopRuns(clb, rest, w);
    EndAt(clb, offset, wanted, k, from, first, w);
  }

  lemma EndAt(clb: nat, offset: nat, wanted: nat, k: nat, from: nat, first: nat, w: nat)
    requires wanted > 0 && from < clb && first <= wanted && offset == k * clb + from
    requires if first < wanted then first == clb - from else from + wanted <= clb
    requires 0 <= w * clb && (first < wanted ==> 0 < wanted - first - w * clb <= clb) && (first == wanted ==> w == 0)
    ensures var rest := wanted - first;
            && (offset + wanted) / clb == k + Hops(clb, from, first, rest, w) + (if rest > 0 && rest % clb == 0 then 1 else 0)
            && (rest > 0 ==> 0 <= (k + 1 + w) * clb < offset + wanted)
  {
    var rest := wanted - first;
    if rest > 0 {
      var left := rest - w * clb;
      EndsInLast(clb, k, w, left, offset + wanted);
      StepInto(rest, clb, w, left);
    } else {
      StepInto(offset + wanted, clb, k, from + wanted);
    }
  }

  lemma EndsInLast(clb: nat, k: nat, w: nat, left: int, end: nat)
    requires 0 < left <= clb && end == k * clb + clb + w * clb + left
    ensures end / clb == k + 1 + w + (if left == clb then 1 else 0)
    ensures 0 <= (k + 1 + w) * clb < end
  {
    Distribute(k, 1, clb);
    Distribute(k + 1, w, clb);
    MulMono(0, k + 1 + w, clb);
    StepInto(end, clb, k + 1 + w, left);
  }

  /** The cluster the next read starts in, when the last one started in the
      k-th. A read that slips stays one cluster short. */
  function NextIndex(clb: nat, offset: nat, k: int, wanted: nat, slips: bool): int
    requires clb > 0
  {
    k + (offset + wanted) / clb - offset / clb - (if slips then 1 else 0)
  }

  /** One read from any cluster of a covered chain: it delivers as many bytes as
      the file has left, starting from the cluster the cursor is in. */
  lemma ReadFromCluster(img: Image, start: U16, size: U32, cur: Cursor, k: nat, count: U32)
    requires img.Valid() && Covers(img, start, size) && InCluster(img, start, size, cur, k)
    requires 0 < count < 0x8000_0000
    ensures var o := ReadOutcome(img, cur, size, count);
            var n := Min(count, size - cur.offset);
            var k' := NextIndex(img.clusterSize, cur.offset, k, n, Slips(img.clusterSize, size, cur.offset, count));
            && o.ret == n && o.cursor.offset == cur.offset + n
            && 0 <= k * img.clusterSize
            && o.data == ChainBytes(img, start, k * img.clusterSize + Within(img.clusterSize, cur.offset),
                                    k * img.clusterSize + Within(img.clusterSize, cur.offset) + n)
            && k' >= 0 && o.cursor.cluster == Walk(img, start, k')
  {
    var clb := img.clusterSize;
    var c := cur.cluster;
    var n := Min(count, size - cur.offset);
    var from := Within(clb, cur.offset);
    var first := InFirst(clb, cur.offset, n);
    var rest := n - first;
    var whole := WholeClusters(clb, rest);
    EndCluster(clb, cur.offset, n);
    ChainReaches(img, start, size, cur, k, n);
    var done := Delivered(img, c, 0, whole);
    assert done == whole;
    assert Left(clb, rest, done) <= clb;
    ChainBytesShift(img, start, k, from, from + n);
    WalkWalk(img, start, k, Hops(clb, from, first, rest, whole));
  }

  /** No cluster that the read steps through is an end marker. */
  lemma ChainReaches(img: Image, start: U16, size: U32, cur: Cursor, k: nat, n: nat)
    requires img.Valid() && Covers(img, start, size) && InCluster(img, start, size, cur, k)
    requires 0 < n <= size - cur.offset
    ensures var clb := img.clusterSize;
            var whole := WholeClusters(clb, n - InFirst(clb, cur.offset, n));
            forall i :: 1 <= i <= whole ==> Walk(img, cur.cluster, i) < CLUSTER_END
  {
    var clb := img.clusterSize;
    var rest := n - InFirst(clb, cur.offset, n);
    var whole := WholeClusters(clb, rest);
    EndCluster(clb, cur.offset, n);
    forall i | 1 <= i <= whole
      ensures Walk(img, cur.cluster, i) < CLUSTER_END
    {
      WalkWalk(img, start, k, i);
      var last := cur.offset / clb + 1 + whole;
      MulMono(k + i, last, clb);
      MulMono(0, k + i, clb);
      ClusterInFile(clb, size, k + i);
    }
  }

  /** No cluster of the file links to itself. */
  ghost predicate NoSelfLink(img: Image, start: U16, size: U32)
    requires img.Valid()
  {
    forall k :: 0 < k < ClusterCount(img.clusterSize, size) ==> Walk(img, start, k) != Walk(img, start, k - 1)
  }

  /** The read ends on a cluster boundary inside the file, past the cluster it
      started in. */
  predicate LosesPlace(clb: nat, size: nat, offset: nat, count: nat)
    requires clb > 0 && offset <= size
  {
    Slips(clb, size, offset, count) && offset + Min(count, size - offset) < size
  }

  /** One read from a coupled cursor returns the next bytes of the file, and
      leaves the cursor coupled again exactly when it does not lose its place. */
  lemma CoupledRead(img: Image, start: U16, size: U32, cur: Cursor, count: U32)
    requires img.Valid() && Covers(img, start, size) && Coupled(img, start, size, cur)
    requires count < 0x8000_0000
    ensures var o := ReadOutcome(img, cur, size, count);
            var end := cur.offset + Min(count, size - cur.offset);
            && o.ret == end - cur.offset && o.cursor.offset == end
            && o.data == ChainBytes(img, start, cur.offset, end)
            && (!LosesPlace(img.clusterSize, size, cur.offset, count) ==> Coupled(img, start, size, o.cursor))
            && (NoSelfLink(img, start, size) && LosesPlace(img.clusterSize, size, cur.offset, count)
                ==> !Coupled(img, start, size, o.cursor))
  {
    hide ReadOutcome, InFirst, Walk, ChainBytes, Covers;
    var clb := img.clusterSize;
    if cur.offset < size && count > 0 {
      var k := cur.offset / clb;
      var end := cur.offset + Min(count, size - cur.offset);
      ReadFromCluster(img, start, size, cur, k, count);
      assert k * clb + Within(clb, cur.offset) == cur.offset;
      if LosesPlace(clb, size, cur.offset, count) {
        EndInFile(clb, size, cur.offset, count);
      }
    } else {
      NothingRead(img, cur, size, count);
    }
  }

  lemma EndInFile(clb: nat, size: nat, offset: nat, count: nat)
    requires clb > 0 && offset <= size && LosesPlace(clb, size, offset, count)
    ensures var end := offset + Min(count, size - offset);
            0 < end / clb < ClusterCount(clb, size)
  {
    var end := offset + Min(count, size - offset);
    EndCluster(clb, offset, end - offset);
    ClusterInFile(clb, size, end / clb);
  }

  lemma NothingRead(img: Image, cur: Cursor, size: U32, count: U32)
    requires img.Valid() && cur.offset <= size && (cur.offset == size || count == 0)
    ensures ReadOutcome(img, cur, size, count) == Outcome([], 0, cur)
  {
  }

  /** The read after one that lost its place starts a whole cluster early. */
  lemma ReadAfterLoss(img: Image, start: U16, size: U32, cur: Cursor, count: U32, next: U32)
    requires img.Valid() && Covers(img, start, size) && Coupled(img, start, size, cur)
    requires count < 0x8000_0000 && 0 < next < 0x8000_0000
    requires LosesPlace(img.clusterSize, size, cur.offset, count)
    ensures var end := cur.offset + count;
            var o := ReadOutcome(img, ReadOutcome(img, cur, size, count).cursor, size, next);
            && img.clusterSize <= end
            && o.data == ChainBytes(img, start, end - img.clusterSize, end - img.clusterSize + Min(next, size - end))
  {
    hide ReadOutcome, InFirst, Walk, ChainBytes, Covers, Within;
    var clb := img.clusterSize;
    var end := cur.offset + count;
    var k := cur.offset / clb;
    ReadFromCluster(img, start, size, cur, k, count);
    EndInFile(clb, size, cur.offset, count);
    var cur' := ReadOutcome(img, cur, size, count).cursor;
    ReadFromCluster(img, start, size, cur', end / clb - 1, next);
    OneClusterBack(clb, end);
  }

  lemma OneClusterBack(clb: nat, end: nat)
    requires clb > 0 && end / clb > 0
    ensures (end / clb - 1) * clb + Within(clb, end) == end - clb
    ensures clb <= end
  {
    Distribute(end / clb - 1, 1, clb);
    MulMono(1, end / clb, clb);
  }

  /** On any chain that covers a file of three clusters or more: a read of two
      clusters from the start is right, and the next read, of one, delivers the
      second cluster again. */
  lemma TwoClusters(img: Image, start: U16, size: U32, clb: U32)
    requires img.Valid() && clb == img.clusterSize && Covers(img, start, size)
    requires 3 * clb <= size && 2 * clb < 0x8000_0000
    ensures var first := ReadOutcome(img, Cursor(start, 0), size, 2 * clb);
            var second := ReadOutcome(img, first.cursor, size, clb);
            && first.data == ChainBytes(img, start, 0, 2 * clb)
            && second.data == ChainBytes(img, start, clb, 2 * clb)
  {
    assert Walk(img, start, 0) == start;
    DivUnique(0, clb, 0, 0);
    assert Coupled(img, start, size, Cursor(start, 0));
    TwoLose(clb, size);
    hide ReadOutcome, LosesPlace, Coupled, Covers, ChainBytes, Walk;
    CoupledRead(img, start, size, Cursor(start, 0), 2 * clb);
    ReadAfterLoss(img, start, size, Cursor(start, 0), 2 * clb, clb);
  }

  lemma TwoLose(clb: nat, size: nat)
    requires clb > 0 && 3 * clb <= size
    ensures LosesPlace(clb, size, 0, 2 * clb)
  {
    DivUnique(0, clb, 0, 0);
    assert InFirst(clb, 0, 2 * clb) == clb;
    DivUnique(clb, clb, 1, 0);
  }

  /** A sequence of reads: everything stored, and the cursor left at the end. */
  function ReadAll(img: Image, cur: Cursor, size: U32, counts: seq<U32>): (seq<Byte>, Cursor)
    requires img.Valid()
    decreases counts
  {
    if counts == [] then ([], cur) else
      var o := ReadOutcome(img, cur, size, counts[0]);
      var rest := ReadAll(img, o.cursor, size, counts[1..]);
      (o.data + rest.0, rest.1)
  }

  /** No read of the sequence loses its place. */
  predicate KeepsPlace(clb: nat, size: nat, offset: nat, counts: seq<U32>)
    requires clb > 0 && offset <= size
    decreases counts
  {
    counts == [] ||
    (!LosesPlace(clb, size, offset, counts[0])
     && KeepsPlace(clb, size, offset + Min(counts[0], size - offset), counts[1..]))
  }

  function Sum(counts: seq<U32>): nat {
    if counts == [] then 0 else counts[0] + Sum(counts[1..])
  }

  /** Reads that keep their place return consecutive bytes of the file. */
  lemma {:induction false} ReadsAreSequential(img: Image, start: U16, size: U32, cur: Cursor, counts: seq<U32>)
    requires img.Valid() && Covers(img, start, size) && Coupled(img, start, size, cur)
    requires forall i :: 0 <= i < |counts| ==> counts[i] < 0x8000_0000
    requires KeepsPlace(img.clusterSize, size, cur.offset, counts)
    ensures var all := ReadAll(img, cur, size, counts);
            var end := Min(cur.offset + Sum(counts), size);
            && all.0 == ChainBytes(img, start, cur.offset, end)
            && all.1.offset == end && Coupled(img, start, size, all.1)
    decreases counts
  {
    hide ReadOutcome, LosesPlace, Coupled, Covers;
    if counts != [] {
      var o := ReadOutcome(img, cur, size, counts[0]);
      CoupledRead(img, start, size, cur, counts[0]);
      ReadsAreSequential(img, start, size, o.cursor, counts[1..]);
      ChainBytesAppend(img, start, cur.offset, o.cursor.offset, Min(cur.offset + Sum(counts), size));
    }
  }

  /** Reads of at most one cluster always keep their place. */
  lemma {:induction false} SmallReadsKeepPlace(clb: nat, size: nat, offset: nat, counts: seq<U32>)
    requires clb > 0 && offset <= size
    requires forall i :: 0 <= i < |counts| ==> counts[i] <= clb
    ensures KeepsPlace(clb, size, offset, counts)
    decreases counts
  {
    if counts != [] {
      var wanted := Min(counts[0], size - offset);
      var rest := wanted - InFirst(clb, offset, wanted);
      if rest > 0 {
        DivUnique(rest, clb, 0, rest);
      }
      SmallReadsKeepPlace(clb, size, offset + wanted, counts[1..]);
    }
  }
}
