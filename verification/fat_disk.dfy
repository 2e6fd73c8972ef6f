/** A FAT16 partition, byte by byte, with one chain on it. */
module FatDisk {
  import opened Words
  import opened BiosDrive
  import opened ClusterChain
  import opened FatVolume
  import opened FatSequential

  /** A FAT in which every cluster is followed by the next one, up to the last,
      which is followed by end. */
  function NextOf(c: nat, last: U16, end: U16): U16
    requires c < 0x1_0000
  {
    if c < last then c + 1 else end
  }

  /** A partition: where it starts, the sectors of a cluster, the last cluster of
      the chain from cluster 2, and what follows it in the FAT. */
  datatype Plan = Plan(lba: U32, spc: U8, last: U16, end: U16)
  {
    ghost predicate Valid() { spc > 0 && lba < 0xf000_0000 }
  }

  function FatByte(o: nat, last: U16, end: U16): Byte
    requires o < 0x2_0000
  {
    (if o % 2 == 0 then NextOf(o / 2, last, end) % 0x100 else NextOf(o / 2, last, end) / 0x100) as Byte
  }

  /** The fields of the boot sector, where the FAT specification puts them
      (section "Boot Sector and BPB Structure"): 512 bytes a sector, one reserved
      sector, one FAT of 256 sectors, 16 entries in the root directory. */
  function BootByte(o: nat, spc: U8): Byte {
    match o
    case 12 => 2
    case 13 => spc as Byte
    case 14 => 1
    case 16 => 1
    case 17 => 16
    case 23 => 1
    case _ => 0
  }

  /** Byte p of the partition: a boot sector, a FAT in the sectors 1 to 256, a root
      directory of one sector, and data sectors filled with their own number. */
  function PartitionByte(p: nat, d: Plan): Byte {
    var sector := p / SECTOR;
    if sector == 0 then BootByte(p, d.spc)
    else if sector <= 256 then FatByte(p - SECTOR, d.last, d.end)
    else (sector % 0x100) as Byte
  }

  function DiskByte(p: nat, d: Plan): Byte {
    if p < d.lba * SECTOR then 0 else PartitionByte(p - d.lba * SECTOR, d)
  }

  function Disk(d: Plan): (vol: Volume)
    requires d.Valid()
    ensures vol.Sized() && vol.LaidOut() && vol.bpb.sectorsPerCluster == d.spc
  {
    Volume(d.lba, SECTOR, SECTOR * d.spc, 1, 258, 257, 1, Bpb(SECTOR, d.spc, 1, 1, 16, 256),
           BlockDev(SECTOR, (p: nat) => DiskByte(p, d)))
  }

  /** The bytes of the partition, by position. */
  lemma OnDisk(d: Plan, o: nat)
    requires d.Valid()
    ensures Disk(d).dev.data(d.lba * SECTOR + o) == PartitionByte(o, d)
  {
  }

  lemma BootSector(d: Plan)
    requires d.Valid()
    ensures ParseBpb(Blocks(Disk(d).dev, d.lba, 1)) == Disk(d).bpb
  {
    var sector := Blocks(Disk(d).dev, d.lba, 1);
    forall o: nat | o < SECTOR
      ensures sector[o] == BootByte(o, d.spc)
    {
      OnDisk(d, o);
    }
    hide BootByte, Blocks;
    BootFields(sector, d.spc);
  }

  lemma BootFields(sector: seq<Byte>, spc: U8)
    requires |sector| == SECTOR && forall o: nat :: o < SECTOR ==> sector[o] == BootByte(o, spc)
    ensures ParseBpb(sector) == Bpb(SECTOR, spc, 1, 1, 16, 256)
  {
    assert Le16(sector, 11) == 512 && Le16(sector, 14) == 1 && Le16(sector, 17) == 16 && Le16(sector, 22) == 256;
  }

  /** This volume is what fat_create makes of the partition. */
  lemma CreatedIs(d: Plan, vol: Volume)
    requires d.Valid() && vol.dev == Disk(d).dev && vol.startLba == d.lba
    requires vol.bpb == ParseBpb(Blocks(vol.dev, vol.startLba, 1)) && vol.Sized() && vol.LaidOut()
    ensures vol == Disk(d)
  {
    BootSector(d);
    hide ParseBpb, Blocks;
  }

  lemma FatArea(o: nat, d: Plan)
    requires o < 0x2_0000
    ensures PartitionByte(SECTOR + o, d) == FatByte(o, d.last, d.end)
  {
  }

  lemma FatWord(c: U16, last: U16, end: U16)
    ensures FatByte(2 * c, last, end) as int + 0x100 * FatByte(2 * c + 1, last, end) as int == NextOf(c, last, end)
  {
  }

  lemma EntryIsNext(d: Plan, c: U16)
    requires d.Valid()
    ensures ImageOf(Disk(d)).entry(c) == NextOf(c, d.last, d.end)
  {
    FatArea(2 * c, d);
    FatArea(2 * c + 1, d);
    FatWord(c, d.last, d.end);
    OnDisk(d, SECTOR + 2 * c);
    OnDisk(d, SECTOR + 2 * c + 1);
    var vol := Disk(d);
    assert vol.startLba == d.lba && vol.fatStartSector == 1;
    hide Disk, DiskByte, PartitionByte, FatByte, FatEntry, NextOf;
    FatIsFlat(vol, c);
    var fat := Bytes(vol.dev, (vol.startLba + vol.fatStartSector) * SECTOR, 0x2_0000);
    assert fat[2 * c] == FatByte(2 * c, d.last, d.end) && fat[2 * c + 1] == FatByte(2 * c + 1, d.last, d.end);
  }

  /** The first byte of a cluster is the number of its first sector. */
  lemma FirstByte(d: Plan, c: U16)
    requires d.Valid() && c >= 2
    ensures 0 <= (c - 2) * d.spc
    ensures ImageOf(Disk(d)).cluster(c)[0] as int == (258 + (c - 2) * d.spc) % 0x100
  {
    var vol := Disk(d);
    assert vol.startLba == d.lba && vol.dataStartSector == 258;
    MulMono(0, c - 2, d.spc);
    MulBound(c - 2, d.spc, 0x1_0000, 0x100);
    var sector := 258 + (c - 2) * d.spc;
    OnDisk(d, sector * SECTOR);
    DivUnique(sector * SECTOR, SECTOR, sector, 0);
    assert PartitionByte(sector * SECTOR, d) as int == sector % 0x100;
    hide Disk, PartitionByte, ImageOf;
    ClusterOnDisk(vol, c, 0);
  }

  /** The file from cluster 2 has the clusters 2, 3, ... up to the last. */
  lemma {:induction false} WalkOnDisk(d: Plan, k: nat)
    requires d.Valid() && 2 + k <= d.last
    ensures Walk(ImageOf(Disk(d)), 2, k) == 2 + k
  {
    hide Disk, ImageOf, FatEntry;
    if k > 0 {
      var img := ImageOf(Disk(d));
      assert Walk(img, 2, k) == img.entry(Walk(img, 2, k - 1));
      hide Walk;
      WalkOnDisk(d, k - 1);
      EntryIsNext(d, 2 + k - 1);
    }
  }

  // ---- a chain that ends

  const END_MARK: U16 := 0xffff

  /** A chain of count clusters, with an end marker. */
  lemma ProperChain(d: Plan, count: nat)
    requires d.Valid() && 0 < count <= 0xfff6 && d.last == count + 1 && d.end == END_MARK
    ensures HasClusters(ImageOf(Disk(d)), 2, count)
  {
    hide Disk, ImageOf, FatEntry;
    var img := ImageOf(Disk(d));
    forall i: nat | i < count
      ensures 0 < Walk(img, 2, i) < CLUSTER_END
    {
      WalkOnDisk(d, i);
    }
    assert Walk(img, 2, count) == img.entry(Walk(img, 2, count - 1));
    WalkOnDisk(d, count - 1);
    EntryIsNext(d, d.last);
  }

  // ---- a chain as long as any file

  /** The last cluster is followed by the first again. */
  ghost predicate Endless(d: Plan) {
    d.Valid() && d.last == 0xfff7 && d.end == 2
  }

  lemma {:induction false} WalkAround(d: Plan, k: nat)
    requires Endless(d)
    ensures 2 <= Walk(ImageOf(Disk(d)), 2, k) < CLUSTER_END
  {
    hide Disk, ImageOf, FatEntry;
    if k > 0 {
      var img := ImageOf(Disk(d));
      var before := Walk(img, 2, k - 1);
      assert Walk(img, 2, k) == img.entry(before);
      hide Walk;
      WalkAround(d, k - 1);
      EntryIsNext(d, before);
    }
  }

  lemma LongChain(d: Plan, size: U32)
    requires Endless(d)
    ensures Covers(ImageOf(Disk(d)), 2, size)
  {
    hide Disk, ImageOf;
    forall k: nat
      ensures Walk(ImageOf(Disk(d)), 2, k) < CLUSTER_END
    {
      WalkAround(d, k);
    }
  }
}
