/** kern/fs/fat.c: the layout of a FAT16 volume, cluster reads and the FAT. */
module FatVolume {
  import opened Words
  import opened Buffers
  import opened BiosDrive
  import opened ClusterChain

  const SECTOR := 512

  /** The fields of the BIOS parameter block that the driver uses. */
  datatype Bpb = Bpb(
    bytesPerSector: U16,
    sectorsPerCluster: U8,
    reservedSectors: U16,
    fats: U8,
    rootEntries: U16,
    sectorsPerFat: U16)

  /** struct fat_priv. */
  datatype Volume = Volume(
    startLba: U32,
    bytesPerSector: U32,
    bytesPerCluster: U32,
    fatStartSector: U32,
    dataStartSector: U32,
    rootDirSector: U32,
    rootDirSectors: U32,
    bpb: Bpb,
    dev: BlockDev)
  {
    /** The sizes that reading relies on. */
    ghost predicate Sized() {
      && dev.blockSize == SECTOR
      && bytesPerSector == SECTOR
      && bpb.sectorsPerCluster > 0
      && bytesPerCluster == SECTOR * bpb.sectorsPerCluster
    }

    /** The order of the areas: reserved sectors, FATs, root directory, data. */
    ghost predicate LaidOut() {
      && rootDirSectors == (bpb.rootEntries * 32 + 511) / SECTOR
      && fatStartSector == bpb.reservedSectors
      && rootDirSector == bpb.reservedSectors + bpb.fats * bpb.sectorsPerFat
      && dataStartSector == rootDirSector + rootDirSectors
    }
  }

  /** A little-endian 16-bit field. */
  function Le16(s: seq<Byte>, at: nat): U16
    requires at + 2 <= |s|
  {
    s[at] as int + 0x100 * s[at + 1] as int
  }

  function ParseBpb(sector: seq<Byte>): Bpb
    requires |sector| == SECTOR
  {
    Bpb(Le16(sector, 11), sector[13] as int, Le16(sector, 14), sector[16] as int, Le16(sector, 17), Le16(sector, 22))
  }

  lemma FatAreaBound(fats: U8, sectorsPerFat: U16)
    ensures 0 <= fats * sectorsPerFat <= 0xff_0000
  {
    MulMono(fats, 0x100 - 1, sectorsPerFat);
  }

  /** fat_create: read the first sector of the partition and lay the volume out.
      A sector size other than 512 is an assertion failure in the kernel. */
  method FatCreate(dev: BlockDev, startLba: U32) returns (vol: Volume)
    requires dev.blockSize == SECTOR
    requires ParseBpb(Blocks(dev, startLba, 1)).bytesPerSector == SECTOR
    ensures vol.dev == dev && vol.startLba == startLba
    ensures vol.bpb == ParseBpb(Blocks(dev, startLba, 1))
    ensures vol.bpb.sectorsPerCluster > 0 ==> vol.Sized() && vol.LaidOut()
  {
    var sector := new Byte[SECTOR](_ => 0);
    var n := BiosDrive.Read(dev, startLba, 1, sector, 0);
    assert sector[..] == Blocks(dev, startLba, 1);
    var bpb := ParseBpb(sector[..]);
    var bytesPerSector: U32 := bpb.bytesPerSector;
    var rootDirSectors := (bpb.rootEntries * 32 + (bytesPerSector - 1)) / bytesPerSector;
    FatAreaBound(bpb.fats, bpb.sectorsPerFat);
    var dataStartSector: U32 := bpb.reservedSectors + bpb.fats * bpb.sectorsPerFat + rootDirSectors;
    vol := Volume(startLba, bytesPerSector, bytesPerSector * bpb.sectorsPerCluster,
                  bpb.reservedSectors, dataStartSector, dataStartSector - rootDirSectors,
                  rootDirSectors, bpb, dev);
  }

  function SectorOfCluster(vol: Volume, cluster: U32): U32 {
    Wrap32(Wrap32((cluster - 2) * vol.bpb.sectorsPerCluster) + vol.dataStartSector)
  }

  function ClusterOfSector(vol: Volume, sector: U32): U32
    requires vol.bpb.sectorsPerCluster > 0
  {
    Wrap32(Wrap32(sector - vol.dataStartSector) / vol.bpb.sectorsPerCluster + 2)
  }

  /** A data area that starts below 2^24 + 2^17 cannot wrap around. */
  lemma NoWrap(area: nat, c: nat, spc: nat)
    requires area < 0x102_0000 && c < 0x1_0000 && spc < 0x100
    ensures 0 <= c * spc && area + c * spc + spc < U32_MODULUS
    ensures Wrap32(Wrap32(c * spc) + area) == area + c * spc
  {
    MulBound(c, spc, 0x1_0000, 0x100);
  }

  lemma DataAreaBound(vol: Volume)
    requires vol.LaidOut()
    ensures vol.dataStartSector < 0x102_0000
    ensures vol.rootDirSector >= vol.fatStartSector + vol.bpb.fats * vol.bpb.sectorsPerFat
  {
    FatAreaBound(vol.bpb.fats, vol.bpb.sectorsPerFat);
  }

  /** No data cluster wraps around: its sectors follow one another from the
      start of the data area. */
  lemma SectorOfDataCluster(vol: Volume, c: U16)
    requires vol.LaidOut() && c >= 2
    ensures SectorOfCluster(vol, c) == vol.dataStartSector + (c - 2) * vol.bpb.sectorsPerCluster
    ensures SectorOfCluster(vol, c) + vol.bpb.sectorsPerCluster < U32_MODULUS
  {
    DataAreaBound(vol);
    NoWrap(vol.dataStartSector, c - 2, vol.bpb.sectorsPerCluster);
  }

  /** Every sector of a data cluster maps back to that cluster. */
  lemma ClusterOfSectorInverts(vol: Volume, c: U16, k: nat)
    requires vol.LaidOut() && c >= 2 && k < vol.bpb.sectorsPerCluster
    ensures SectorOfCluster(vol, c) + k < U32_MODULUS
    ensures ClusterOfSector(vol, SectorOfCluster(vol, c) + k) == c
  {
    SectorOfDataCluster(vol, c);
    var spc := vol.bpb.sectorsPerCluster;
    var sector := SectorOfCluster(vol, c) + k;
    var n := (c - 2) * spc + k;
    assert sector == vol.dataStartSector + n;
    DivUnique(n, spc, c - 2, k);
    MulMono(0, c - 2, spc);
  }

  /** Distinct data clusters occupy disjoint sector ranges, all of them past
      the reserved sectors, the FATs and the root directory. */
  lemma ClustersDisjoint(vol: Volume, c: U16, d: U16, i: nat, j: nat)
    requires vol.LaidOut() && c >= 2 && d >= 2 && c != d
    requires i < vol.bpb.sectorsPerCluster && j < vol.bpb.sectorsPerCluster
    ensures SectorOfCluster(vol, c) + i != SectorOfCluster(vol, d) + j
    ensures SectorOfCluster(vol, c) >= vol.rootDirSector + vol.rootDirSectors
    ensures vol.rootDirSector >= vol.fatStartSector + vol.bpb.fats * vol.bpb.sectorsPerFat
  {
    ClusterOfSectorInverts(vol, c, i);
    ClusterOfSectorInverts(vol, d, j);
    SectorOfDataCluster(vol, c);
    DataAreaBound(vol);
    MulMono(0, c - 2, vol.bpb.sectorsPerCluster);
  }

  /** The bytes of one cluster. */
  function ClusterBytes(vol: Volume, cluster: U16): (s: seq<Byte>)
    requires vol.Sized()
    ensures |s| == vol.bytesPerCluster
  {
    Blocks(vol.dev, Wrap32(vol.startLba + SectorOfCluster(vol, cluster)), vol.bpb.sectorsPerCluster)
  }

  /** A data cluster is read from its own partition: from the start of the
      partition, past the areas before the data and the clusters before it. */
  lemma ClusterOnDisk(vol: Volume, c: U16, i: nat)
    requires vol.Sized() && vol.LaidOut() && c >= 2 && i < vol.bytesPerCluster
    requires vol.startLba + vol.dataStartSector + (c - 2) * vol.bpb.sectorsPerCluster < U32_MODULUS
    ensures 0 <= (c - 2) * vol.bpb.sectorsPerCluster
    ensures ImageOf(vol).cluster(c)[i]
         == vol.dev.data((vol.startLba + vol.dataStartSector + (c - 2) * vol.bpb.sectorsPerCluster) * SECTOR + i)
  {
    SectorOfDataCluster(vol, c);
    MulMono(0, c - 2, vol.bpb.sectorsPerCluster);
    var sector := vol.startLba + SectorOfCluster(vol, c);
    hide SectorOfCluster;
    assert ClusterBytes(vol, c) == Blocks(vol.dev, sector, vol.bpb.sectorsPerCluster);
    assert Blocks(vol.dev, sector, vol.bpb.sectorsPerCluster)[i] == vol.dev.data(sector * SECTOR + i);
  }

  method ReadCluster(vol: Volume, cluster: U16, dst: array<Byte>) returns (n: int)
    requires vol.Sized() && dst.Length == vol.bytesPerCluster
    modifies dst
    ensures n == vol.bpb.sectorsPerCluster
    ensures dst[..] == ClusterBytes(vol, cluster)
  {
    hide Patch, Blocks;
    var sector := Wrap32(vol.startLba + SectorOfCluster(vol, cluster));
    PatchWhole(dst[..], Blocks(vol.dev, sector, vol.bpb.sectorsPerCluster));
    n := BiosDrive.Read(vol.dev, sector, vol.bpb.sectorsPerCluster, dst, 0);
  }

  /** The FAT as the driver sees it: the entry for a cluster. */
  function FatEntry(vol: Volume, cluster: U16): U16
    requires vol.Sized()
  {
    var sector := Wrap32(vol.startLba + Wrap32(vol.fatStartSector + 2 * cluster / SECTOR));
    Le16(Blocks(vol.dev, sector, 1), 2 * cluster % SECTOR)
  }

  /** No entry straddles a sector: on a volume that lies within the 32-bit
      block addresses, the sector-wise lookup is indexing one flat FAT. */
  lemma FatIsFlat(vol: Volume, c: U16)
    requires vol.Sized() && vol.startLba + vol.fatStartSector + 0x100 <= U32_MODULUS
    ensures FatEntry(vol, c)
         == Le16(Bytes(vol.dev, (vol.startLba + vol.fatStartSector) * SECTOR, 0x2_0000), 2 * c)
  {
    var first := vol.startLba + vol.fatStartSector;
    assert (first + 2 * c / SECTOR) * SECTOR + 2 * c % SECTOR == first * SECTOR + 2 * c;
  }

  method NextCluster(vol: Volume, current: U16) returns (next: U16)
    requires vol.Sized()
    ensures next == FatEntry(vol, current)
  {
    hide Patch, Blocks;
    var fatTable := new Byte[vol.bytesPerSector](_ => 0);
    ghost var was := fatTable[..];
    var fatOffset := Wrap32(current * 2);
    var fatSector := Wrap32(vol.fatStartSector + fatOffset / vol.bytesPerSector);
    var entOffset := fatOffset % vol.bytesPerSector;
    var n := BiosDrive.Read(vol.dev, Wrap32(vol.startLba + fatSector), 1, fatTable, 0);
    PatchWhole(was, Blocks(vol.dev, Wrap32(vol.startLba + fatSector), 1));
    next := Le16(fatTable[..], entOffset);
  }

  /** The volume seen through its FAT: entries and cluster contents. */
  function ImageOf(vol: Volume): (img: Image)
    requires vol.Sized()
    ensures img.Valid() && img.clusterSize == vol.bytesPerCluster && img.clusterSize % SECTOR == 0
    ensures forall c: U16 :: img.entry(c) == FatEntry(vol, c)
    ensures forall c: U16 :: img.cluster(c) == ClusterBytes(vol, c)
  {
    DivUnique(vol.bytesPerCluster, SECTOR, vol.bpb.sectorsPerCluster, 0);
    Image(vol.bytesPerCluster, (c: U16) => FatEntry(vol, c), (c: U16) => ClusterBytes(vol, c))
  }
}
