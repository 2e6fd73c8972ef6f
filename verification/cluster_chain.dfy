/** What a FAT file is, independent of the disk underneath: a chain of cluster
    numbers through the FAT, and the concatenation of those clusters. */
module ClusterChain {
  import opened Words

  const CLUSTER_END: U16 := 0xfff8

  /** A FAT and the data area behind it. */
  datatype Image = Image(clusterSize: nat, entry: U16 -> U16, cluster: U16 -> seq<Byte>)
  {
    ghost predicate Valid() {
      && clusterSize > 0
      && forall c: U16 :: |cluster(c)| == clusterSize
    }
  }

  /** The cluster k hops down the chain that starts at c. */
  function Walk(img: Image, c: U16, k: nat): U16 {
    if k == 0 then c else img.entry(Walk(img, c, k - 1))
  }

  lemma {:induction false} WalkWalk(img: Image, c: U16, j: nat, k: nat)
    ensures Walk(img, Walk(img, c, j), k) == Walk(img, c, j + k)
  {
    if k > 0 {
      WalkWalk(img, c, j, k - 1);
    }
  }

  /** Byte r of the k-th cluster of the chain from c. */
  function ByteAt(img: Image, c: U16, k: nat, r: nat): Byte
    requires img.Valid() && r < img.clusterSize
  {
    img.cluster(Walk(img, c, k))[r]
  }

  /** Byte i of the data that the chain from c leads to. */
  function ChainByte(img: Image, c: U16, i: nat): Byte
    requires img.Valid()
  {
    ByteAt(img, c, i / img.clusterSize, i % img.clusterSize)
  }

  /** Bytes [lo, hi) of that data. */
  function ChainBytes(img: Image, c: U16, lo: nat, hi: nat): (s: seq<Byte>)
    requires img.Valid() && lo <= hi
    ensures |s| == hi - lo
  {
    seq(hi - lo, i requires 0 <= i => ChainByte(img, c, lo + i))
  }

  lemma ChainBytesAppend(img: Image, c: U16, lo: nat, mid: nat, hi: nat)
    requires img.Valid() && lo <= mid <= hi
    ensures ChainBytes(img, c, lo, mid) + ChainBytes(img, c, mid, hi) == ChainBytes(img, c, lo, hi)
  {
  }

  /** Inside the k-th cluster the chain's bytes are that cluster's bytes. */
  lemma ChainBytesInCluster(img: Image, c: U16, k: nat, lo: nat, hi: nat)
    requires img.Valid() && lo <= hi <= img.clusterSize
    ensures 0 <= k * img.clusterSize
    ensures ChainBytes(img, c, k * img.clusterSize + lo, k * img.clusterSize + hi)
         == img.cluster(Walk(img, c, k))[lo..hi]
  {
    forall i | lo <= i < hi
      ensures ChainByte(img, c, k * img.clusterSize + i) == img.cluster(Walk(img, c, k))[i]
    {
      DivUnique(k * img.clusterSize + i, img.clusterSize, k, i);
    }
  }

  /** The first byte of the k-th cluster of the chain. */
  lemma FirstOfCluster(img: Image, c: U16, k: nat)
    requires img.Valid()
    ensures 0 <= k * img.clusterSize
    ensures ChainByte(img, c, k * img.clusterSize) == img.cluster(Walk(img, c, k))[0]
  {
    MulMono(0, k, img.clusterSize);
    DivUnique(k * img.clusterSize, img.clusterSize, k, 0);
  }

  lemma SameByte(img: Image, c: U16, k: nat, i: nat, j: nat)
    requires img.Valid()
    requires j / img.clusterSize == k + i / img.clusterSize && j % img.clusterSize == i % img.clusterSize
    ensures ChainByte(img, Walk(img, c, k), i) == ChainByte(img, c, j)
  {
    WalkWalk(img, c, k, i / img.clusterSize);
  }

  /** The size of k clusters. */
  function Span(img: Image, k: nat): (r: nat) {
    MulMono(0, k, img.clusterSize);
    k * img.clusterSize
  }

  /** The k-th cluster of the chain, as a piece of its data. */
  lemma ClusterPiece(img: Image, c: U16, k: nat)
    requires img.Valid()
    ensures Span(img, k + 1) == Span(img, k) + img.clusterSize
    ensures ChainBytes(img, c, Span(img, k), Span(img, k + 1)) == img.cluster(Walk(img, c, k))
  {
    Distribute(k, 1, img.clusterSize);
    ChainBytesInCluster(img, c, k, 0, img.clusterSize);
  }

  /** Starting k clusters down the chain shifts its bytes by k clusters. */
  lemma ChainBytesShift(img: Image, c: U16, k: nat, lo: nat, hi: nat)
    requires img.Valid() && lo <= hi
    ensures 0 <= k * img.clusterSize
    ensures ChainBytes(img, Walk(img, c, k), lo, hi)
         == ChainBytes(img, c, k * img.clusterSize + lo, k * img.clusterSize + hi)
  {
    forall i | lo <= i < hi
      ensures ChainByte(img, Walk(img, c, k), i) == ChainByte(img, c, k * img.clusterSize + i)
    {
      DivShift(i, k, img.clusterSize);
      SameByte(img, c, k, i, k * img.clusterSize + i);
    }
  }

  /** A link at which read_cluster_chain stops. The marker 0xfff8 is not one. */
  predicate Stops(c: U16) {
    c == 0 || c > CLUSTER_END
  }

  /** read_cluster_chain reads n clusters from start. */
  ghost predicate StopsAfter(img: Image, start: U16, n: nat) {
    Stops(Walk(img, start, n)) && forall i :: 0 <= i < n ==> !Stops(Walk(img, start, i))
  }

  /** What the loop of read_cluster_chain sees at the k-th link. */
  lemma ChainStep(img: Image, start: U16, n: nat, k: nat)
    requires StopsAfter(img, start, n) && k <= n
    ensures Stops(Walk(img, start, k)) <==> k == n
    ensures img.entry(Walk(img, start, k)) == Walk(img, start, k + 1)
  {
  }

  /** By the FAT specification (section "FAT Data Structure") the chain has n
      clusters: n data clusters, then a marker from 0xfff8 up. */
  ghost predicate HasClusters(img: Image, start: U16, n: nat) {
    Walk(img, start, n) >= CLUSTER_END && forall i :: 0 <= i < n ==> 0 < Walk(img, start, i) < CLUSTER_END
  }

  /** read_cluster_chain stops at the end of a proper chain exactly when the end
      marker is not 0xfff8 itself; if it is, it reads on past the end. */
  lemma StopsAtEnd(img: Image, start: U16, n: nat)
    requires HasClusters(img, start, n)
    ensures StopsAfter(img, start, n) <==> Walk(img, start, n) != CLUSTER_END
    ensures forall m: nat :: StopsAfter(img, start, m) ==> m >= n
  {
    forall m: nat | m < n
      ensures !StopsAfter(img, start, m)
    {
      assert !Stops(Walk(img, start, m));
    }
  }

  /** A chain of one cluster with the marker 0xfff8: the loop reads the marker as a
      second cluster. */
  lemma MarkerAsCluster(img: Image)
    requires img.entry(2) == CLUSTER_END && img.entry(CLUSTER_END) == 0
    ensures HasClusters(img, 2, 1) && StopsAfter(img, 2, 2) && !StopsAfter(img, 2, 1)
  {
    assert Walk(img, 2, 0) == 2;
    assert Walk(img, 2, 1) == CLUSTER_END;
    assert Walk(img, 2, 2) == 0;
  }
}
