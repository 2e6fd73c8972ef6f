/** What fat_read does on a chain that is too short for the file. */
module FatShortChain {
  import opened Words
  import opened ClusterChain
  import opened FatCursor

  /** The bytes a read wants past the cluster it starts in. */
  function Rest(img: Image, cur: Cursor, size: U32, count: U32): nat
    requires img.Valid()
  {
    var wanted := Wanted(size, cur.offset, count);
    wanted - InFirst(img.clusterSize, cur.offset, wanted)
  }

  /** The whole-cluster loop of a read meets an end marker. */
  ghost predicate EndsEarly(img: Image, cur: Cursor, size: U32, count: U32)
    requires img.Valid()
  {
    exists i :: 1 <= i <= WholeClusters(img.clusterSize, Rest(img, cur, size, count))
                && Walk(img, cur.cluster, i) >= CLUSTER_END
  }

  /** The loop delivers all its clusters exactly when it meets no marker. */
  lemma DeliveredAll(img: Image, c: U16, whole: nat)
    ensures Delivered(img, c, 0, whole) == whole <==> forall i :: 1 <= i <= whole ==> Walk(img, c, i) < CLUSTER_END
  {
    var done := Delivered(img, c, 0, whole);
    if done < whole {
      assert Walk(img, c, 1 + done) >= CLUSTER_END;
    }
  }

  /** What a chain that ends early does to the count: it is honest exactly when the
      caller did not ask for more than the file has left, or the loop met no end
      marker. */
  lemma CountReported(img: Image, cur: Cursor, size: U32, count: U32)
    requires img.Valid() && count < 0x8000_0000
    ensures var o := ReadOutcome(img, cur, size, count);
            o.ret == |o.data| <==> count <= Wrap32(size - cur.offset) || !EndsEarly(img, cur, size, count)
  {
    var clb := img.clusterSize;
    var wanted := Wanted(size, cur.offset, count);
    var rest := Rest(img, cur, size, count);
    var whole := WholeClusters(clb, rest);
    DeliveredAll(img, cur.cluster, whole);
    assert EndsEarly(img, cur, size, count) <==> Delivered(img, cur.cluster, 0, whole) < whole;
    hide EndsEarly, Delivered, WholeClusters, Within, Walk, ChainBytes;
    if Delivered(img, cur.cluster, 0, whole) < whole {
      assert wanted > 0;
    }
  }

  /** How far the loop gets on a chain of m clusters, from the k-th. */
  lemma DeliveredToEnd(img: Image, start: U16, m: nat, k: nat, whole: nat)
    requires HasClusters(img, start, m) && k < m
    ensures Delivered(img, Walk(img, start, k), 0, whole) == Min(whole, m - k - 1)
  {
    var c := Walk(img, start, k);
    var done := Delivered(img, c, 0, whole);
    if done < whole {
      WalkWalk(img, start, k, 1 + done);
    }
    if done > m - k - 1 {
      WalkWalk(img, start, k, m - k);
    }
  }

  /** On a chain of m clusters, from any cursor on it: a read delivers bytes from
      behind the last cluster, where the end marker would be a cluster, exactly
      when it goes past the end of the chain by at most one cluster. */
  lemma ReadsMarker(img: Image, start: U16, m: nat, k: nat, cur: Cursor, size: U32, count: U32)
    requires img.Valid() && HasClusters(img, start, m)
    requires k < m && cur.cluster == Walk(img, start, k) && Wanted(size, cur.offset, count) > 0
    ensures var clb := img.clusterSize;
            var at := k * clb + Within(clb, cur.offset);
            var o := ReadOutcome(img, cur, size, count);
            && (at + |o.data| > m * clb
                <==> m * clb < at + Wanted(size, cur.offset, count) <= m * clb + clb)
            && (at + |o.data| > m * clb ==> |o.data| == Wanted(size, cur.offset, count))
  {
    var clb := img.clusterSize;
    var wanted, from := Wanted(size, cur.offset, count), Within(clb, cur.offset);
    var first := InFirst(clb, cur.offset, wanted);
    var rest := wanted - first;
    var whole := WholeClusters(clb, rest);
    var done := Delivered(img, cur.cluster, 0, whole);
    DeliveredToEnd(img, start, m, k, whole);
    LoopRuns(clb, rest, whole);
    EndOfData(clb, k, m, from, first, rest, whole, done);
    assert Left(clb, rest, done) == rest - done * clb;
    hide Delivered, WholeClusters, Within, Walk, ChainBytes, Left, HasClusters, Wanted;
  }

  /** A read that meets the end marker in its loop delivers exactly the rest of the
      chain, and leaves the cursor on the marker, as far on as it reports. */
  lemma EarlyOutcome(img: Image, start: U16, m: nat, k: nat, cur: Cursor, size: U32, count: U32)
    requires img.Valid() && HasClusters(img, start, m) && count < 0x8000_0000
    requires k < m && cur.cluster == Walk(img, start, k) && EndsEarly(img, cur, size, count)
    ensures var o := ReadOutcome(img, cur, size, count);
            && k * img.clusterSize + Within(img.clusterSize, cur.offset) + |o.data| == m * img.clusterSize
            && o.cursor.cluster == Walk(img, start, m)
            && o.cursor.offset == Wrap32(cur.offset + o.ret)
  {
    var clb := img.clusterSize;
    hide EndsEarly, ReadOutcome, Delivered, WholeClusters, Within, Walk, HasClusters;
    var whole := WholeClusters(clb, Rest(img, cur, size, count));
    var done := Delivered(img, cur.cluster, 0, whole);
    EarlyForm(img, cur, size, count);
    DeliveredToEnd(img, start, m, k, whole);
    WalkWalk(img, start, k, 1 + done);
    Distribute(k, 1, clb);
    Distribute(k + 1, done, clb);
  }

  lemma EarlyForm(img: Image, cur: Cursor, size: U32, count: U32)
    requires img.Valid() && count < 0x8000_0000 && EndsEarly(img, cur, size, count)
    ensures var clb := img.clusterSize;
            var whole := WholeClusters(clb, Rest(img, cur, size, count));
            var done := Delivered(img, cur.cluster, 0, whole);
            var o := ReadOutcome(img, cur, size, count);
            && done < whole && 0 <= done * clb
            && Within(clb, cur.offset) + |o.data| == clb + done * clb
            && o.cursor == Cursor(Walk(img, cur.cluster, 1 + done), Wrap32(cur.offset + o.ret))
  {
    var clb := img.clusterSize;
    var wanted := Wanted(size, cur.offset, count);
    var rest := Rest(img, cur, size, count);
    var whole := WholeClusters(clb, rest);
    var done := Delivered(img, cur.cluster, 0, whole);
    DeliveredAll(img, cur.cluster, whole);
    assert done < whole && rest > 0;
    LoopRuns(clb, rest, done);
    assert Left(clb, rest, done) == rest - done * clb;
    hide EndsEarly, Delivered, WholeClusters, Within, Walk, ChainBytes, Left, Wanted;
  }

  /** What such a read delivers behind the end: the start of the cluster that the
      end marker would be. */
  lemma MarkerBytes(img: Image, start: U16, m: nat, k: nat, cur: Cursor, size: U32, count: U32)
    requires img.Valid() && HasClusters(img, start, m)
    requires k < m && cur.cluster == Walk(img, start, k)
    requires var end := k * img.clusterSize + Within(img.clusterSize, cur.offset) + Wanted(size, cur.offset, count);
             m * img.clusterSize < end <= m * img.clusterSize + img.clusterSize
    ensures var clb := img.clusterSize;
            var at := k * clb + Within(clb, cur.offset);
            var end := at + Wanted(size, cur.offset, count);
            var o := ReadOutcome(img, cur, size, count);
            && 0 <= at <= m * clb <= at + |o.data| == end
            && o.data[m * clb - at..] == img.cluster(Walk(img, start, m))[..end - m * clb]
  {
    var clb := img.clusterSize;
    var wanted, from := Wanted(size, cur.offset, count), Within(clb, cur.offset);
    var at, end := k * clb + from, k * clb + from + wanted;
    MulMono(0, k, clb);
    MulMono(k + 1, m, clb);
    Distribute(k, 1, clb);
    ReadsMarker(img, start, m, k, cur, size, count);
    OutcomeData(img, cur, size, count);
    hide ReadOutcome, Within, Walk, ChainBytes, HasClusters, Wanted;
    ChainBytesShift(img, start, k, from, from + wanted);
    ChainBytesAppend(img, start, at, m * clb, end);
    ChainBytesInCluster(img, start, m, 0, end - m * clb);
  }

  lemma OutcomeData(img: Image, cur: Cursor, size: U32, count: U32)
    requires img.Valid()
    ensures var o := ReadOutcome(img, cur, size, count);
            var from := Within(img.clusterSize, cur.offset);
            |o.data| <= Wanted(size, cur.offset, count) && o.data == ChainBytes(img, cur.cluster, from, from + |o.data|)
  {
    hide Delivered, WholeClusters, Walk, Left, InFirst;
  }

  /** Positions in clusters: the k-th, done more, and the end of the chain. */
  lemma EndOfData(clb: nat, k: nat, m: nat, from: nat, first: nat, rest: nat, whole: nat, done: nat)
    requires k < m && from < clb && first <= clb - from && (rest > 0 ==> first == clb - from)
    requires whole == WholeClusters(clb, rest) && done == Min(whole, m - k - 1)
    ensures var left := rest - done * clb;
            var data := if left > clb then first + rest - left else first + rest;
            && (k * clb + from + data > m * clb
                <==> m * clb < k * clb + from + (first + rest) <= m * clb + clb)
            && (k * clb + from + data > m * clb ==> data == first + rest)
  {
    LoopRuns(clb, rest, done);
    LoopRuns(clb, rest, whole);
    Distribute(k, 1, clb);
    Distribute(k + 1, done, clb);
    MulMono(k + 1 + done, m, clb);
    if done < whole {
      assert k + 1 + done == m;
    }
  }

  /** A chain of one cluster of 512 bytes for a file of 5000: a request of 6000
      delivers the 512 bytes and reports 1512. */
  lemma ShortChain(img: Image)
    requires img.Valid() && img.clusterSize == 512 && img.entry(2) == CLUSTER_END
    ensures var o := ReadOutcome(img, Cursor(2, 0), 5000, 6000);
            |o.data| == 512 && o.ret == 1512
  {
    var rest := 5000 - 512;
    assert InFirst(512, 0, 5000) == 512 && WholeClusters(512, rest) == 8;
    assert Walk(img, 2, 1) == CLUSTER_END;
    assert Delivered(img, 2, 0, 8) == 0;
    assert Left(512, rest, 0) == rest;
    assert Wanted(5000, 0, 6000) == 5000 && Within(512, 0) == 0;
    hide InFirst, WholeClusters, Delivered, Left, Wanted, Within, Walk, ChainBytes;
  }

  /** On a chain that is one cluster too short for the read, the last piece comes
      from where the end marker would be a cluster. */
  lemma MarkerRead(img: Image)
    requires img.Valid() && img.clusterSize == 512 && img.entry(2) == CLUSTER_END
    ensures var o := ReadOutcome(img, Cursor(2, 0), 1000, 1000);
            o.ret == 1000 && o.data == img.cluster(2) + img.cluster(CLUSTER_END)[..488]
  {
    var rest := 1000 - 512;
    assert InFirst(512, 0, 1000) == 512 && WholeClusters(512, rest) == 0;
    assert Delivered(img, 2, 0, 0) == 0;
    assert Left(512, rest, 0) == rest;
    assert Walk(img, 2, 1) == CLUSTER_END;
    assert Walk(img, 2, 0) == 2;
    assert Wanted(1000, 0, 1000) == 1000 && Within(512, 0) == 0;
    hide InFirst, WholeClusters, Delivered, Left, Wanted, Within, Walk, ChainBytes;
    ChainBytesInCluster(img, 2, 0, 0, 512);
    ChainBytesInCluster(img, 2, 1, 0, 488);
    ChainBytesAppend(img, 2, 0, 512, 1000);
  }
}
