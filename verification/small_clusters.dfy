/** Where fs_read_full reads whole files: for every other cluster size and file
    size there is a disk on which it does not. */
module SmallClusters {
  import opened Words
  import opened ClusterChain
  import opened FatVolume
  import opened FatSequential
  import opened FatDisk
  import opened Fs

  // ---- the lost place

  /** The first byte of the k-th cluster of the file from cluster 2. */
  lemma ByteOnDisk(d: Plan, k: nat, pos: nat)
    requires d.Valid() && d.spc <= 3 && k <= 4 && 2 + k <= d.last && pos == k * (SECTOR * d.spc)
    ensures ChainByte(ImageOf(Disk(d)), 2, pos) as int == 2 + k * d.spc
  {
    hide Walk, Disk, ImageOf, ChainByte;
    FirstOfCluster(ImageOf(Disk(d)), 2, k);
    WalkOnDisk(d, k);
    FirstByte(d, 2 + k);
    SmallProduct(k, d.spc);
  }

  lemma SmallProduct(k: nat, spc: nat)
    requires k <= 4 && spc <= 3
    ensures 0 <= k * spc <= 12 && (258 + k * spc) % 0x100 == 2 + k * spc
  {
    MulBound(k, spc, 4, 3);
  }

  /** Where the first place is lost, the cluster differs from the one before. */
  lemma LostPlace(d: Plan)
    requires d.Valid() && d.spc <= 3 && d.last - 1 > if d.spc == 2 then 2 else 4
    ensures var img, clb := ImageOf(Disk(d)), SECTOR * d.spc;
            clb <= Period(clb) && ChainByte(img, 2, Period(clb)) != ChainByte(img, 2, Period(clb) - clb)
  {
    hide Disk, ImageOf, ChainByte;
    if d.spc == 1 {
      ByteOnDisk(d, 4, 2048);
      ByteOnDisk(d, 3, 1536);
    } else if d.spc == 2 {
      ByteOnDisk(d, 2, 2048);
      ByteOnDisk(d, 1, 1024);
    } else {
      ByteOnDisk(d, 4, 6144);
      ByteOnDisk(d, 3, 4608);
    }
  }

  /** A partition with a chain for a file of the size: one that ends with the file,
      if a FAT has room for it. */
  function PlanFor(lba: U32, spc: U8, size: U32): (d: Plan)
    requires spc > 0 && lba < 0xf000_0000
    ensures d.Valid() && d.lba == lba && d.spc == spc
  {
    var count := ClusterCount(SECTOR * spc, size);
    if 0 < count <= 0xfff6 then Plan(lba, spc, count + 1, END_MARK) else Plan(lba, spc, 0xfff7, 2)
  }

  lemma CountAtLeast(clb: nat, size: nat, n: nat)
    requires clb > 0 && n * clb < size
    ensures n < ClusterCount(clb, size)
  {
    MulMono(0, n, clb);
    ClusterInFile(clb, size, n);
  }

  /** On that disk, wherever the partition starts, a file longer than the period is
      read wrongly. */
  lemma WrongOnDisk(lba: U32, spc: U8, size: U32)
    requires spc > 0 && lba < 0xf000_0000 && !ReadsWhole(SECTOR * spc, size)
    ensures var img, count := ImageOf(Disk(PlanFor(lba, spc, size))), ClusterCount(SECTOR * spc, size);
            && Covers(img, 2, size) && (count <= 0xfff6 ==> HasClusters(img, 2, count))
            && Stored(img, 2, size) != ChainBytes(img, 2, 0, size)
  {
    hide Disk, ImageOf, ChainByte, ChainBytes, Stored, Walk, Covers, HasClusters, ClusterCount, PlanFor;
    CountAtLeast(SECTOR * spc, size, if spc == 2 then 2 else 4);
    ChainFor(lba, spc, size);
    var d := PlanFor(lba, spc, size);
    LostPlace(d);
    StoredIsNotFile(ImageOf(Disk(d)), 2, size);
  }

  lemma ChainFor(lba: U32, spc: U8, size: U32)
    requires spc > 0 && lba < 0xf000_0000 && ClusterCount(SECTOR * spc, size) > 0
    ensures var d, count := PlanFor(lba, spc, size), ClusterCount(SECTOR * spc, size);
            && Covers(ImageOf(Disk(d)), 2, size) && d.last - 1 == Min(count, 0xfff6)
            && (count <= 0xfff6 ==> HasClusters(ImageOf(Disk(d)), 2, count))
  {
    var d, count := PlanFor(lba, spc, size), ClusterCount(SECTOR * spc, size);
    hide Disk, ImageOf, Walk;
    if count <= 0xfff6 {
      ProperChain(d, count);
    } else {
      LongChain(d, size);
    }
  }

  // ---- exactly

  /** Every file of the size is read right, on every volume from the block on with
      such clusters. */
  ghost predicate AlwaysWhole(lba: U32, spc: U8, size: U32) {
    forall vol: Volume, start: U16 | vol.Sized() && vol.startLba == lba && vol.bpb.sectorsPerCluster == spc
                                     && Covers(ImageOf(vol), start, size) ::
      Stored(ImageOf(vol), start, size) == ChainBytes(ImageOf(vol), start, 0, size)
  }

  /** The same for chains that end with the file. */
  ghost predicate ProperlyWhole(lba: U32, spc: U8, size: U32)
    requires spc > 0
  {
    forall vol: Volume, start: U16 | vol.Sized() && vol.startLba == lba && vol.bpb.sectorsPerCluster == spc
                                     && HasClusters(ImageOf(vol), start, ClusterCount(SECTOR * spc, size)) ::
      Stored(ImageOf(vol), start, size) == ChainBytes(ImageOf(vol), start, 0, size)
  }

  /** fs_read_full is right for all files of a size exactly when clusters have at
      least the size of a chunk or the file ends before the first lost place; and
      where a FAT has room for the file, chains that end with it show this. */
  lemma WholeExactly(lba: U32, spc: U8, size: U32)
    requires spc > 0 && lba < 0xf000_0000
    ensures AlwaysWhole(lba, spc, size) <==> ReadsWhole(SECTOR * spc, size)
    ensures ClusterCount(SECTOR * spc, size) <= 0xfff6 ==>
              (ProperlyWhole(lba, spc, size) <==> ReadsWhole(SECTOR * spc, size))
  {
    if ReadsWhole(SECTOR * spc, size) {
      forall vol: Volume, start: U16 | vol.Sized() && vol.bpb.sectorsPerCluster == spc
        ensures Stored(ImageOf(vol), start, size) == ChainBytes(ImageOf(vol), start, 0, size)
      {
        StoredIsFile(ImageOf(vol), start, size);
      }
    } else {
      WrongOnDisk(lba, spc, size);
      assert Disk(PlanFor(lba, spc, size)).startLba == lba;
    }
  }

  // ---- a lost place on a disk

  /** The file of ten clusters of 512 bytes on such a disk is covered by a chain that
      ends with it, and its second and third cluster differ: two reads, of two
      clusters and of one, do not return it. */
  lemma TenClusters(img: Image, d: Plan, size: U32)
    requires d.Valid() && d.spc == 1 && d.last == 11 && d.end == END_MARK
    requires size == 5000 && img == ImageOf(Disk(d))
    ensures HasClusters(img, 2, d.last - 1) && Covers(img, 2, size)
    ensures ChainByte(img, 2, 512) != ChainByte(img, 2, 1024)
  {
    hide Disk, ImageOf, ChainByte, Walk;
    ProperChain(d, d.last - 1);
    ByteOnDisk(d, 1, 512);
    ByteOnDisk(d, 2, 1024);
    assert ClusterCount(SECTOR, size) == 10;
  }
}
