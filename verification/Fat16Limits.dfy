/** Where reading does not give back what was written, with volumes on which this happens. */
module Fat16Limits {
  import opened Bytes
  import opened Fat16Layout
  import opened Fat16Chains
  import opened Fat16Data
  import opened Fat16Directory
  import opened Fat16Volume
  import opened Fat16Files

  /** A freshly formatted volume: no cluster and no directory slot is taken. */
  predicate Blank(g: Geometry, d: Disk) {
    && DiskOk(d) && Laid(g, |d|) && Mirrored(g, d)
    && (forall c :: 2 <= c < g.FatLength() ==> Fat(g, d)[c] == 0)
    && (forall i :: 0 <= i < g.Slots() ==> Dir(g, d)[i][0] == FREE)
  }

  lemma {:induction false} RangeSize(s: set<nat>, lo: nat, hi: nat)
    requires lo <= hi && forall c :: c in s <==> lo <= c < hi
    ensures |s| == hi - lo
    decreases hi
  {
    if lo == hi {
      assert s == {};
    } else {
      RangeSize(s - {hi - 1}, lo, hi - 1);
    }
  }

  lemma BlankIsFree(g: Geometry, d: Disk, name: Name)
    requires Blank(g, d) && name.Shaped()
    ensures Sound(g, d)
    ensures |FreeClusters(Fat(g, d))| == g.clusters
    ensures Lookup(Dir(g, d), name, 0) == g.Slots() && FreeSlot(Dir(g, d), 0) == 0
  {
    hide Laid, Mirrored, Dir, Fat;
    EmptyVolumeIsSound(g, d);
    RangeSize(FreeClusters(Fat(g, d)), 2, g.FatLength());
  }

  /** On a blank volume every write succeeds whose data is not empty, does not wrap the 32-bit
      rounding and fits the clusters. */
  lemma BlankWrites(g: Geometry, d: Disk, name: Name, data: seq<byte>)
    requires Blank(g, d) && name.Storable() && |data| < 0x1_0000_0000 && g.rootSectors > 0
    ensures WriteFile(g, d, name, data).1 == 0 <==>
              data != [] && |data| + g.ClusterBytes() <= 0x1_0000_0000 && Fits(|data|, g.clusters, g.ClusterBytes())
  {
    hide Sound, Dir, Fat, WriteFile, FreeClusters, ClustersNeeded, Fits, DiskOk, Mirrored, FreeSlot, Lookup;
    BlankIsFree(g, d, name);
    WriteSucceedsExactlyWhen(g, d, name, data);
    NeededIsCeiling(g, |data|);
    if data != [] && |data| + g.ClusterBytes() <= 0x1_0000_0000 {
      FitsExactlyFrom(|data|, ClustersNeeded(g, |data|), g.clusters, g.ClusterBytes());
    }
  }

  /** If n clusters are the fewest that hold size bytes, k of them do exactly when k is at least n. */
  lemma FitsExactlyFrom(size: nat, n: nat, k: nat, cb: nat)
    requires n >= 1 && !Fits(size, n - 1, cb) && Fits(size, n, cb)
    ensures Fits(size, k, cb) <==> n <= k
  {
    if n <= k {
      TimesMonotone(n, k, cb);
    } else {
      TimesMonotone(k, n - 1, cb);
    }
  }

  lemma TimesMonotone(a: nat, b: nat, cb: nat)
    requires a <= b
    ensures a * cb <= b * cb
  {
  }

  // ----- The second file of a name -----

  /** Of two successful writes under a name that was not live before, reading sees the first. */
  lemma SecondWriteIsInvisible(g: Geometry, d: Disk, name: Name, first: seq<byte>, second: seq<byte>, maxSize: nat)
    requires Sound(g, d) && name.Storable() && |first| < 0x1_0000_0000 && |second| < 0x1_0000_0000
    requires Lookup(Dir(g, d), name, 0) == g.Slots()
    requires WriteFile(g, d, name, first).1 == 0
    requires WriteFile(g, WriteFile(g, d, name, first).0, name, second).1 == 0
    ensures var d2 := WriteFile(g, WriteFile(g, d, name, first).0, name, second).0;
            ReadFile(g, d2, name, maxSize) == (AsInt32(|first|), first[..Min(|first|, maxSize)])
  {
    SoundIsLaid(g, d);
    WriteKeepsVolume(g, d, name, first);
    var d1 := WriteFile(g, d, name, first).0;
    SoundIsLaid(g, d1);
    FreshWriteReads(g, d, Write(name, first), maxSize);
    WriteThenRead(g, d1, name, second, maxSize);
    StoredNameIsEarlier(g, d, name, first);
  }

  /** After a successful write of a new name, the next unused slot lies behind its entry. */
  lemma StoredNameIsEarlier(g: Geometry, d: Disk, name: Name, data: seq<byte>)
    requires Sound(g, d) && name.Storable() && |data| < 0x1_0000_0000
    requires Lookup(Dir(g, d), name, 0) == g.Slots() && WriteFile(g, d, name, data).1 == 0
    ensures var dir := Dir(g, WriteFile(g, d, name, data).0);
            Lookup(dir, name, 0) == FreeSlot(Dir(g, d), 0) < FreeSlot(dir, 0)
  {
    hide WriteFile, Sound, Laid, DiskOk, Lookup, Written, Dir, Fat;
    SoundIsLaid(g, d);
    WriteEffect(g, d, name, data);
    SlotFilled(g, d, name, data);
    var d' := WriteFile(g, d, name, data).0;
    LookupAfterWritten(g, d, d', 0, name, data, name);
  }

  /** A successful write fills the first unused slot, and no other. */
  lemma SlotFilled(g: Geometry, d: Disk, name: Name, data: seq<byte>)
    requires DiskOk(d) && Laid(g, |d|) && name.Storable() && |data| < 0x1_0000_0000
    requires WriteFile(g, d, name, data).1 == 0
    ensures var slot, dir, dir' := FreeSlot(Dir(g, d), 0), Dir(g, d), Dir(g, WriteFile(g, d, name, data).0);
            slot < g.Slots() && !IsFree(dir'[slot]) && dir' == dir[slot := dir'[slot]]
  {
    hide WriteFile, Laid, DiskOk, NewEntry, LoadChain, ClustersNeeded, Stored, Taken, FreeSlot, Dir, Fat;
    WriteEffect(g, d, name, data);
    NewEntryIsFoundByItsName(name, Taken(g, d, data)[0], |data|, name);
  }

  /** On every blank volume with two clusters: two files of one byte each, one name, and the second
      one cannot be read. */
  lemma SecondWriteExample(g: Geometry, d: Disk, name: Name, a: byte, b: byte)
    requires Blank(g, d) && g.clusters >= 2 && g.rootSectors > 0 && name.Storable()
    ensures WriteFile(g, d, name, [a]).1 == 0
    ensures var d1 := WriteFile(g, d, name, [a]).0;
            && WriteFile(g, d1, name, [b]).1 == 0
            && ReadFile(g, WriteFile(g, d1, name, [b]).0, name, 1) == (1, [a])
  {
    hide WriteFile, ReadFile, Dir, Fat, Sound, Lookup, FreeSlot, FreeClusters, ClustersNeeded, Fits, DiskOk,
         Mirrored;
    BlankIsFree(g, d, name);
    BlankWrites(g, d, name, [a]);
    OneByteNeedsOne(g);
    SecondWriteSucceeds(g, d, name, a, b);
    SecondWriteIsInvisible(g, d, name, [a], [b], 1);
    assert [a][..1] == [a];
  }

  lemma OneByteNeedsOne(g: Geometry)
    requires 1 <= g.sectorsPerCluster < 0x100
    ensures ClustersNeeded(g, 1) == 1
    ensures forall k: nat :: k >= 1 ==> Fits(1, k, g.ClusterBytes())
  {
    hide ClustersNeeded;
    NeededIsCeiling(g, 1);
    var n, cb := ClustersNeeded(g, 1), g.ClusterBytes();
    forall k: nat | k >= 1
      ensures Fits(1, k, cb)
    {
      TimesMonotone(1, k, cb);
    }
    FitsExactlyFrom(1, n, 1, cb);
  }

  lemma SecondWriteSucceeds(g: Geometry, d: Disk, name: Name, a: byte, b: byte)
    requires Blank(g, d) && Sound(g, d) && g.clusters >= 2 && g.rootSectors > 0 && name.Storable()
    requires WriteFile(g, d, name, [a]).1 == 0 && ClustersNeeded(g, 1) == 1
    requires |FreeClusters(Fat(g, d))| == g.clusters && FreeSlot(Dir(g, d), 0) == 0
    ensures WriteFile(g, WriteFile(g, d, name, [a]).0, name, [b]).1 == 0
  {
    hide WriteFile, Dir, Fat, Sound, FreeSlot, FreeClusters, ClustersNeeded, DiskOk, Mirrored, Taken, Members;
    WriteConservesClusters(g, d, name, [a]);
    SlotFilled(g, d, name, [a]);
    var d1 := WriteFile(g, d, name, [a]).0;
    OneMember(Taken(g, d, [a]));
    SetsAddUp(FreeClusters(Fat(g, d)), FreeClusters(Fat(g, d1)), Members(Taken(g, d, [a])));
    assert IsFree(Dir(g, d1)[1]);
    WriteSucceedsExactlyWhen(g, d1, name, [b]);
  }

  lemma OneMember(chain: seq<nat>)
    requires |chain| == 1
    ensures |Members(chain)| == 1
  {
    assert Members(chain) == {chain[0]};
  }

  lemma SetsAddUp(a: set<nat>, b: set<nat>, c: set<nat>)
    requires a == b + c && b !! c
    ensures |a| == |b| + |c|
  {
  }

  function BlankDisk(sectors: nat): (d: Disk)
    ensures DiskOk(d) && |d| == sectors && forall i :: 0 <= i < sectors ==> d[i] == Zeros(512)
  {
    seq(sectors, _ => Zeros(512))
  }

  // ----- Concrete volumes -----

  /** A boot sector with the given parameters. */
  function BootSector(b: Bpb): (s: seq<byte>)
    requires InRange(b)
    ensures |s| == 512 && ParseBpb(s) == b
  {
    var s0 := Put16(Zeros(512), 11, b.bytesPerSector)[13 := b.sectorsPerCluster as byte];
    var s1 := Put16(s0, 14, b.reservedSectors)[16 := b.fatCount as byte];
    var s2 := Put16(Put16(s1, 17, b.rootDirEntries), 19, b.totalSectorsSmall);
    var s3 := Put32(Put16(s2, 22, b.sectorsPerFat), 32, b.totalSectorsLarge);
    s3
  }

  predicate InRange(b: Bpb) {
    && b.bytesPerSector < 0x1_0000 && b.sectorsPerCluster < 0x100 && b.reservedSectors < 0x1_0000
    && b.fatCount < 0x100 && b.rootDirEntries < 0x1_0000 && b.totalSectorsSmall < 0x1_0000
    && b.sectorsPerFat < 0x1_0000 && b.totalSectorsLarge < 0x1_0000_0000
  }

  /** A freshly formatted disk: the boot sector, and zeros. */
  function Formatted(b: Bpb, sectors: nat): (d: Disk)
    requires InRange(b) && sectors > 0
    ensures DiskOk(d) && |d| == sectors
  {
    BlankDisk(sectors)[0 := BootSector(b)]
  }

  lemma FormattedIsBlank(b: Bpb, sectors: nat)
    requires InRange(b) && sectors > 0 && Supported(b, sectors)
    ensures var d := Formatted(b, sectors);
            ParseBpb(d[0]) == b && Blank(GeometryOf(b), d)
  {
    hide BootSector, BlankDisk, GeometryOf, Geometry.Lba, Put16, Put32;
    var d, g := Formatted(b, sectors), GeometryOf(b);
    GeometryIsLaid(b, sectors);
    assert forall lba: nat :: lba >= 1 ==> ReadSector(d, lba) == Zeros(512);
    assert forall c :: 0 <= c < g.FatLength() ==> FatGet(g, d, c) == 0;
    assert forall i :: 0 <= i < g.Slots() ==> EntryAt(g, d, i)[0] == 0;
  }

  /** Eight sectors: one for the boot sector, one for each table, one for the root directory, and four
      clusters. */
  const EIGHT: Bpb := Bpb(512, 1, 1, 2, 16, 8, 1, 0)

  lemma EightIsSupported()
    ensures InRange(EIGHT) && Supported(EIGHT, 8) && GeometryOf(EIGHT) == Geometry(1, 3, 1, 4, 1, 1, 4)
  {
  }

  /** Eight sectors are enough to see that a second file of a name is invisible. */
  lemma SecondWriteOnEightSectors(name: Name)
    requires name.Storable()
    ensures var d := Formatted(EIGHT, 8);
            && Supported(ParseBpb(d[0]), 8)
            && var g := GeometryOf(ParseBpb(d[0]));
            && Laid(g, 8)
            && WriteFile(g, d, name, [1]).1 == 0
            && var d1 := WriteFile(g, d, name, [1]).0;
            && WriteFile(g, d1, name, [2]).1 == 0
            && ReadFile(g, WriteFile(g, d1, name, [2]).0, name, 1) == (1, [1])
  {
    hide WriteFile, ReadFile, Blank, BlankDisk, BootSector, Formatted, Supported;
    EightIsSupported();
    FormattedIsBlank(EIGHT, 8);
    GeometryIsLaid(EIGHT, 8);
    SecondWriteExample(GeometryOf(EIGHT), Formatted(EIGHT, 8), name, 1, 2);
  }

  // ----- Lost clusters -----

  /** On a blank volume a file of one byte more than its clusters hold: the write returns -1, and no
      cluster is free any more. */
  lemma LostClustersExample(g: Geometry, d: Disk, name: Name, data: seq<byte>)
    requires Blank(g, d) && g.rootSectors > 0 && g.clusters > 0 && name.Storable()
    requires |data| == Times(g.clusters, g.ClusterBytes()) + 1 && |data| + g.ClusterBytes() <= 0x1_0000_0000
    ensures FreeClusters(Fat(g, d)) != {}
    ensures WriteFile(g, d, name, data).1 == -1
    ensures FreeClusters(Fat(g, WriteFile(g, d, name, data).0)) == {}
  {
    hide WriteFile, Sound, Dir, Fat, FreeClusters, ClustersNeeded, DiskOk, Mirrored, FreeSlot, Lookup, Taken,
         BelowFree;
    BlankIsFree(g, d, name);
    BlankWrites(g, d, name, data);
    NeededIsCeiling(g, |data|);
    FitsExactlyFrom(|data|, ClustersNeeded(g, |data|), g.clusters, g.ClusterBytes());
    WriteConservesClusters(g, d, name, data);
    var free, left := FreeClusters(Fat(g, d)), FreeClusters(Fat(g, WriteFile(g, d, name, data).0));
    AscendingSize(Taken(g, d, data));
    SetsAddUp(free, left, Members(Taken(g, d, data)));
  }

  function Times(n: nat, cb: nat): nat { n * cb }

  lemma {:induction false} AscendingSize(chain: seq<nat>)
    requires Ascending(chain)
    ensures |Members(chain)| == |chain|
    decreases |chain|
  {
    if chain == [] {
      assert Members(chain) == {};
    } else {
      var k := |chain| - 1;
      AscendingSize(chain[..k]);
      assert Members(chain) == Members(chain[..k]) + {chain[k]};
    }
  }

  /** The same on the eight sectors: 2049 bytes, and all four clusters are lost. */
  lemma LostClustersOnEightSectors(name: Name)
    requires name.Storable()
    ensures var d := Formatted(EIGHT, 8);
            && Supported(ParseBpb(d[0]), 8)
            && var g := GeometryOf(ParseBpb(d[0]));
            && Laid(g, 8)
            && WriteFile(g, d, name, Zeros(2049)).1 == -1
            && FreeClusters(Fat(g, d)) != {}
            && FreeClusters(Fat(g, WriteFile(g, d, name, Zeros(2049)).0)) == {}
  {
    hide WriteFile, Blank, BlankDisk, BootSector, Formatted, Supported, FreeClusters, Fat;
    EightIsSupported();
    FormattedIsBlank(EIGHT, 8);
    GeometryIsLaid(EIGHT, 8);
    LostClustersExample(GeometryOf(EIGHT), Formatted(EIGHT, 8), name, Zeros(2049));
  }

  // ----- Sizes as signed numbers -----

  /** The size that reading a new file returns is the size written if and only if that is below
      2 GiB; from there on the caller sees a negative number, which stands for an error. */
  lemma SizeReadsExactlyWhen(g: Geometry, d: Disk, name: Name, data: seq<byte>, maxSize: nat)
    requires Sound(g, d) && name.Storable() && |data| < 0x1_0000_0000
    requires Lookup(Dir(g, d), name, 0) == g.Slots() && WriteFile(g, d, name, data).1 == 0
    ensures var code := ReadFile(g, WriteFile(g, d, name, data).0, name, maxSize).0;
            && (code == |data| <==> |data| < 0x8000_0000)
            && (code < 0 <==> |data| >= 0x8000_0000)
  {
    FreshWriteReads(g, d, Write(name, data), maxSize);
  }

  /** 40000 clusters of 64 KiB. */
  const LARGE: Bpb := Bpb(512, 128, 1, 2, 512, 0, 157, 5120347)

  lemma LargeIsSupported()
    ensures InRange(LARGE) && Supported(LARGE, 5120347)
    ensures GeometryOf(LARGE) == Geometry(1, 315, 32, 347, 128, 157, 40000)
  {
  }

  /** A file of 2 GiB can be stored there; reading it reports -2^31. */
  lemma LargeFileExample(name: Name, maxSize: nat)
    requires name.Storable()
    ensures var d, file := Formatted(LARGE, 5120347), Zeros(0x8000_0000);
            && Supported(ParseBpb(d[0]), |d|)
            && var g := GeometryOf(ParseBpb(d[0]));
            && Laid(g, |d|)
            && WriteFile(g, d, name, file).1 == 0
            && ReadFile(g, WriteFile(g, d, name, file).0, name, maxSize).0 == -0x8000_0000
  {
    hide WriteFile, ReadFile, Blank, BlankDisk, Zeros, BootSector, Formatted, Supported;
    LargeIsSupported();
    var g, d := GeometryOf(LARGE), Formatted(LARGE, 5120347);
    FormattedIsBlank(LARGE, 5120347);
    GeometryIsLaid(LARGE, 5120347);
    BlankIsFree(g, d, name);
    BlankWrites(g, d, name, Zeros(0x8000_0000));
    FreshWriteReads(g, d, Write(name, Zeros(0x8000_0000)), maxSize);
  }
}
