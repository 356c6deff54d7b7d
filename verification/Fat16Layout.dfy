/** Sector geometry of a FAT16 volume, and the file allocation table as it lies on the disk. */
module Fat16Layout {
  import opened Bytes

  /** The medium behind the ATA driver: a sequence of 512-byte sectors. */
  type Disk = seq<seq<byte>>

  predicate DiskOk(d: Disk) {
    forall i :: 0 <= i < |d| ==> |d[i]| == 512
  }

  /** ata_read_sector. Beyond the medium the model reads zeros. */
  function ReadSector(d: Disk, lba: nat): (s: seq<byte>)
    requires DiskOk(d)
    ensures |s| == 512
  {
    if lba < |d| then d[lba] else Zeros(512)
  }

  /** ata_write_sector. Beyond the medium nothing is stored. */
  function WriteSector(d: Disk, lba: nat, s: seq<byte>): (r: Disk)
    requires DiskOk(d)
    requires |s| == 512
    ensures DiskOk(r) && |r| == |d|
    ensures lba < |d| ==> r[lba] == s
    ensures forall i :: 0 <= i < |d| && i != lba ==> r[i] == d[i]
  {
    if lba < |d| then d[lba := s] else d
  }

  /** The BIOS parameter block fields the driver uses (include/fat16.h). */
  datatype Bpb = Bpb(
    bytesPerSector: nat, sectorsPerCluster: nat, reservedSectors: nat, fatCount: nat,
    rootDirEntries: nat, totalSectorsSmall: nat, sectorsPerFat: nat, totalSectorsLarge: nat)

  function ParseBpb(boot: seq<byte>): (b: Bpb)
    requires |boot| == 512
    ensures b.bytesPerSector < 0x1_0000 && b.sectorsPerCluster < 0x100 && b.reservedSectors < 0x1_0000
    ensures b.fatCount < 0x100 && b.rootDirEntries < 0x1_0000 && b.totalSectorsSmall < 0x1_0000
    ensures b.sectorsPerFat < 0x1_0000 && b.totalSectorsLarge < 0x1_0000_0000
  {
    Bpb(Get16(boot, 11), boot[13] as nat, Get16(boot, 14), boot[16] as nat,
        Get16(boot, 17), Get16(boot, 19), Get16(boot, 22), Get32(boot, 32))
  }

  function TotalSectors(b: Bpb): nat {
    if b.totalSectorsSmall != 0 then b.totalSectorsSmall else b.totalSectorsLarge
  }

  /** What fat16_init caches, plus the cluster count fat16_find_free_cluster derives. */
  datatype Geometry = Geometry(
    fatStart: nat, rootStart: nat, rootSectors: nat, dataStart: nat,
    sectorsPerCluster: nat, sectorsPerFat: nat, clusters: nat)
  {
    /** FAT entries 0 and 1 are reserved, so cluster numbers run from 2 below this. */
    function FatLength(): nat { clusters + 2 }

    function ClusterBytes(): nat { sectorsPerCluster * 512 }

    function Slots(): nat { 16 * rootSectors }

    /** fat16_cluster_to_lba: clusters lie one after the other from the start of the data area. */
    function Lba(cluster: nat): (lba: nat)
      requires cluster >= 2
      ensures lba >= dataStart
    {
      if cluster == 2 then dataStart else Lba(cluster - 1) + sectorsPerCluster
    }
  }

  /** The volumes the driver is written for: 512-byte sectors, two FATs that index every
      cluster, whole root directory sectors, and FAT16's limit on the cluster count. */
  predicate Supported(b: Bpb, sectors: nat) {
    && b.bytesPerSector == 512
    && 1 <= b.sectorsPerCluster < 0x100
    && b.fatCount == 2
    && 1 <= b.reservedSectors
    && b.rootDirEntries % 16 == 0
    && var g := GeometryOf(b);
    && g.dataStart <= TotalSectors(b) <= sectors
    && TotalSectors(b) < 0x1_0000_0000
    && g.clusters <= 65524
    && g.FatLength() <= 256 * g.sectorsPerFat
  }

  function GeometryOf(b: Bpb): Geometry
    requires b.bytesPerSector != 0 && b.sectorsPerCluster != 0
  {
    var rootStart := b.reservedSectors + b.fatCount * b.sectorsPerFat;
    var rootSectors := (b.rootDirEntries * 32) / b.bytesPerSector;
    var dataStart := rootStart + rootSectors;
    Geometry(b.reservedSectors, rootStart, rootSectors, dataStart, b.sectorsPerCluster, b.sectorsPerFat,
             ClusterCount(b, dataStart))
  }

  /** total_clusters of fat16_find_free_cluster */
  function ClusterCount(b: Bpb, dataStart: nat): nat
    requires b.sectorsPerCluster != 0
  {
    (TotalSectors(b) - dataStart) % 0x1_0000_0000 / b.sectorsPerCluster
  }

  /** Boot sector, FAT1, FAT2 and root directory follow one another without overlap. */
  predicate TablesLaid(g: Geometry, sectors: nat) {
    && 1 <= g.fatStart
    && g.rootStart == g.fatStart + 2 * g.sectorsPerFat
    && g.dataStart == g.rootStart + g.rootSectors
    && g.dataStart <= sectors
    && g.clusters <= 65524
    && g.FatLength() <= 256 * g.sectorsPerFat
  }

  /** The data area follows them and holds every cluster. */
  predicate Laid(g: Geometry, sectors: nat) {
    && TablesLaid(g, sectors)
    && 1 <= g.sectorsPerCluster < 0x100
    && g.Lba(g.FatLength()) <= sectors
  }

  /** The geometry fat16_init computes from a supported boot sector lays the regions out disjointly. */
  lemma GeometryIsLaid(b: Bpb, sectors: nat)
    requires Supported(b, sectors)
    ensures Laid(GeometryOf(b), sectors)
  {
    hide Geometry.Lba, ClusterCount;
    var g := GeometryOf(b);
    var room := TotalSectors(b) - g.dataStart;
    CountIsQuotient(b, g.dataStart);
    WholeClustersFit(room, b.sectorsPerCluster);
    LbaFormula(g, g.FatLength());
    assert g.FatLength() - 2 == g.clusters == room / b.sectorsPerCluster;
    assert g.Lba(g.FatLength()) == g.dataStart + room / b.sectorsPerCluster * b.sectorsPerCluster;
  }

  lemma CountIsQuotient(b: Bpb, dataStart: nat)
    requires b.sectorsPerCluster != 0 && dataStart <= TotalSectors(b) < 0x1_0000_0000
    ensures ClusterCount(b, dataStart) == (TotalSectors(b) - dataStart) / b.sectorsPerCluster
  {
    var room := TotalSectors(b) - dataStart;
    assert room % 0x1_0000_0000 == room;
  }

  lemma WholeClustersFit(room: nat, spc: nat)
    requires spc > 0
    ensures room / spc * spc <= room
  {
  }

  /** The driver's formula for the first sector of a cluster. */
  lemma {:induction false} LbaFormula(g: Geometry, cluster: nat)
    requires cluster >= 2
    ensures g.Lba(cluster) == g.dataStart + (cluster - 2) * g.sectorsPerCluster
  {
    if cluster > 2 {
      LbaFormula(g, cluster - 1);
      assert (cluster - 2) * g.sectorsPerCluster == (cluster - 3) * g.sectorsPerCluster + g.sectorsPerCluster;
    }
  }

  lemma {:induction false} ClusterOrder(g: Geometry, a: nat, b: nat)
    requires 2 <= a < b
    ensures g.Lba(a) + g.sectorsPerCluster <= g.Lba(b)
  {
    if a + 1 < b {
      ClusterOrder(g, a, b - 1);
    }
  }

  /** Data clusters do not overlap: (cluster, sector) to LBA is injective and stays in the data area. */
  lemma ClusterSectorsDisjoint(g: Geometry, sectors: nat, c1: nat, s1: nat, c2: nat, s2: nat)
    requires Laid(g, sectors)
    requires 2 <= c1 < g.FatLength() && s1 < g.sectorsPerCluster
    requires 2 <= c2 < g.FatLength() && s2 < g.sectorsPerCluster
    ensures g.dataStart <= g.Lba(c1) + s1 < sectors
    ensures g.Lba(c1) + s1 == g.Lba(c2) + s2 ==> c1 == c2 && s1 == s2
  {
    ClusterOrder(g, c1, g.FatLength());
    if c1 < c2 {
      ClusterOrder(g, c1, c2);
    } else if c2 < c1 {
      ClusterOrder(g, c2, c1);
    }
  }

  // ----- The file allocation table -----

  /** The driver's byte offset arithmetic: 256 two-byte entries in a sector. */
  lemma FatPlace(cluster: nat)
    ensures cluster * 2 / 512 == cluster / 256
    ensures cluster * 2 % 512 == 2 * (cluster % 256)
  {
  }

  /** fat16_read_fat_entry */
  function FatGet(g: Geometry, d: Disk, cluster: nat): (v: nat)
    requires DiskOk(d)
    ensures v < 0x1_0000
  {
    Get16(ReadSector(d, g.fatStart + cluster / 256), 2 * (cluster % 256))
  }

  /** On the disk, entry c is the little-endian pair of bytes at offset 2c of the first table. */
  lemma FatEntryBytes(g: Geometry, d: Disk, c: nat)
    requires DiskOk(d) && TablesLaid(g, |d|) && c < g.FatLength()
    ensures 2 * c / 512 < g.sectorsPerFat
    ensures FatGet(g, d, c) == d[g.fatStart + 2 * c / 512][2 * c % 512] as nat
                               + 0x100 * d[g.fatStart + 2 * c / 512][2 * c % 512 + 1] as nat
  {
    FatPlace(c);
    assert c / 256 < g.sectorsPerFat;
  }

  /** fat16_write_fat_entry: patch the sector of FAT1, then store the same buffer in FAT2. */
  function FatSet(g: Geometry, d: Disk, cluster: nat, value: nat): (r: Disk)
    requires DiskOk(d)
    requires value < 0x1_0000
    ensures DiskOk(r) && |r| == |d|
  {
    var fat1 := g.fatStart + cluster / 256;
    var buf := Put16(ReadSector(d, fat1), 2 * (cluster % 256), value);
    WriteSector(WriteSector(d, fat1, buf), fat1 + g.sectorsPerFat, buf)
  }

  /** The table as a sequence indexed by cluster number. */
  function Fat(g: Geometry, d: Disk): (f: seq<nat>)
    requires DiskOk(d)
    ensures |f| == g.FatLength()
    ensures forall c :: 0 <= c < |f| ==> f[c] == FatGet(g, d, c)
  {
    seq(g.FatLength(), c requires 0 <= c => FatGet(g, d, c))
  }

  /** Both copies of the table are byte-equal. */
  predicate Mirrored(g: Geometry, d: Disk)
    requires TablesLaid(g, |d|)
  {
    forall i :: g.fatStart <= i < g.fatStart + g.sectorsPerFat ==> d[i] == d[i + g.sectorsPerFat]
  }

  predicate SameOutsideFat(g: Geometry, d: Disk, d': Disk) {
    && |d'| == |d|
    && forall i :: 0 <= i < |d| && !(g.fatStart <= i < g.rootStart) ==> d'[i] == d[i]
  }

  /** Writing an entry changes that entry alone, in both copies, and nothing outside the tables. */
  lemma FatSetChangesOneEntry(g: Geometry, d: Disk, cluster: nat, value: nat)
    requires DiskOk(d) && TablesLaid(g, |d|)
    requires cluster < g.FatLength() && value < 0x1_0000
    ensures Fat(g, FatSet(g, d, cluster, value)) == Fat(g, d)[cluster := value]
    ensures SameOutsideFat(g, d, FatSet(g, d, cluster, value))
    ensures Mirrored(g, d) ==> Mirrored(g, FatSet(g, d, cluster, value))
  {
    FatSetSectors(g, d, cluster, value);
    hide FatSet, FatGet, Mirrored, SameOutsideFat;
    forall c | 0 <= c < g.FatLength()
      ensures FatGet(g, FatSet(g, d, cluster, value), c) == if c == cluster then value else FatGet(g, d, c)
    {
      FatSetThenGet(g, d, cluster, value, c);
    }
  }

  lemma FatSetSectors(g: Geometry, d: Disk, cluster: nat, value: nat)
    requires DiskOk(d) && TablesLaid(g, |d|)
    requires cluster < g.FatLength() && value < 0x1_0000
    ensures SameOutsideFat(g, d, FatSet(g, d, cluster, value))
    ensures Mirrored(g, d) ==> Mirrored(g, FatSet(g, d, cluster, value))
  {
    hide Put16;
    assert cluster / 256 < g.sectorsPerFat;
  }

  lemma FatSetThenGet(g: Geometry, d: Disk, cluster: nat, value: nat, c: nat)
    requires DiskOk(d) && TablesLaid(g, |d|)
    requires cluster < g.FatLength() && c < g.FatLength() && value < 0x1_0000
    ensures FatGet(g, FatSet(g, d, cluster, value), c) == if c == cluster then value else FatGet(g, d, c)
  {
    assert c / 256 < g.sectorsPerFat && cluster / 256 < g.sectorsPerFat;
    assert c / 256 == cluster / 256 && c % 256 == cluster % 256 ==> c == cluster;
  }

  /** The table depends on the FAT1 sectors only. */
  lemma FatUnchanged(g: Geometry, d: Disk, d': Disk)
    requires DiskOk(d) && DiskOk(d') && TablesLaid(g, |d|) && |d'| == |d|
    requires forall i :: g.fatStart <= i < g.fatStart + g.sectorsPerFat ==> d'[i] == d[i]
    ensures Fat(g, d') == Fat(g, d)
  {
    forall c | 0 <= c < g.FatLength()
      ensures FatGet(g, d', c) == FatGet(g, d, c)
    {
      assert c / 256 < g.sectorsPerFat;
    }
  }
}
