/** What one fat_read delivers and where it leaves the file, in closed form, and
    what that means for a file: when reading on from where the last read
    stopped gives the next bytes of the file, and when it does not. */
module FatCursor {
  import opened Words
  import opened ClusterChain

  /** current_cluster and current_offset of an open file. */
  datatype Cursor = Cursor(cluster: U16, offset: U32)

  /** The bytes stored, the returned count, and the cursor left behind. */
  datatype Outcome = Outcome(data: seq<Byte>, ret: int, cursor: Cursor)

  /** The bytes a read goes for: no more than the file has left. The
      difference is unsigned. */
  function Wanted(size: U32, offset: U32, count: U32): U32 {
    Min(count, Wrap32(size - offset))
  }

  /** The cursor's place within its cluster. */
  function Within(clb: nat, offset: nat): (r: nat)
    requires clb > 0
    ensures r < clb
  {
    offset % clb
  }

  /** How many of them lie in the cluster the cursor is in. */
  function InFirst(clb: nat, offset: nat, wanted: nat): nat
    requires clb > 0
  {
    Min(clb - Within(clb, offset), wanted)
  }

  /** How many whole clusters follow before the last one touched. */
  function WholeClusters(clb: nat, rest: nat): nat
    requires clb > 0
  {
    if rest == 0 then 0 else (rest - 1) / clb
  }

  /** How many of those come before an end-of-chain marker. */
  function Delivered(img: Image, c: U16, j: nat, whole: nat): (r: nat)
    requires j <= whole
    ensures j <= r <= whole
    ensures forall i :: j < i <= r ==> Walk(img, c, i) < CLUSTER_END
    ensures r < whole ==> Walk(img, c, 1 + r) >= CLUSTER_END
    decreases whole - j
  {
    if j < whole && Walk(img, c, 1 + j) < CLUSTER_END then Delivered(img, c, j + 1, whole) else j
  }

  /** The whole-cluster loop runs exactly WholeClusters times. */
  lemma LoopRuns(clb: nat, rest: nat, j: nat)
    requires clb > 0 && j <= WholeClusters(clb, rest)
    ensures 0 <= j * clb <= rest
    ensures rest - j * clb > clb <==> j < WholeClusters(clb, rest)
    ensures rest > 0 ==> rest - j * clb > 0
  {
    if rest > 0 {
      var w := (rest - 1) / clb;
      MulMono(j, w, clb);
      if j < w {
        MulMono(j + 1, w, clb);
        Distribute(j, 1, clb);
      }
    }
  }

  /** What remains to be read after done whole clusters. */
  function Left(clb: nat, rest: nat, done: nat): (r: nat)
    requires clb > 0 && done <= WholeClusters(clb, rest)
    ensures r <= rest
    ensures r > clb <==> done < WholeClusters(clb, rest)
    ensures rest > 0 ==> r > 0
    ensures done == 0 ==> r == rest
  {
    LoopRuns(clb, rest, done);
    rest - done * clb
  }

  lemma LeftNext(clb: nat, rest: nat, done: nat)
    requires clb > 0 && done < WholeClusters(clb, rest)
    ensures Left(clb, rest, done + 1) == Left(clb, rest, done) - clb
  {
    Distribute(done, 1, clb);
  }

  /** How many links of the chain the read follows. */
  function Hops(clb: nat, from: nat, first: nat, rest: nat, done: nat): nat {
    if rest > 0 then 1 + done else if first == clb - from then 1 else 0
  }

  /** A read of count bytes from the cursor of a file of the given size. When
      more than a cluster is left, the chain has ended early, and the code takes
      the count it reports from the size asked for. */
  function ReadOutcome(img: Image, cur: Cursor, size: U32, count: U32): (o: Outcome)
    requires img.Valid()
    ensures |o.data| <= count
  {
    var clb := img.clusterSize;
    var wanted := Wanted(size, cur.offset, count);
    var from := Within(clb, cur.offset);
    var first := InFirst(clb, cur.offset, wanted);
    var rest := wanted - first;
    var done := Delivered(img, cur.cluster, 0, WholeClusters(clb, rest));
    var left := Left(clb, rest, done);
    var cluster := Walk(img, cur.cluster, Hops(clb, from, first, rest, done));
    if wanted == 0 then
      Outcome([], 0, cur)
    else if left > clb then
      Outcome(ChainBytes(img, cur.cluster, from, from + wanted - left), ToInt32(count - left),
              Cursor(cluster, Wrap32(cur.offset + (count - left))))
    else
      Outcome(ChainBytes(img, cur.cluster, from, from + wanted), ToInt32(wanted),
              Cursor(cluster, Wrap32(cur.offset + wanted)))
  }
}
