/** The driver of src/fat16.c, over a disk held as a sequence of sectors. Each loop of the source is
    a method, proved against the function of the same phase in the Fat16 modules. */
module Fat16Driver {
  import opened Bytes
  import opened Fat16Layout
  import opened Fat16Chains
  import opened Fat16Data
  import opened Fat16Directory
  import Vol = Fat16Volume

  class Driver {
    var disk: Disk
    var bpb: Bpb
    var fatStart: nat
    var rootStart: nat
    var rootSectors: nat
    var dataStart: nat

    /** fat16_init ran on a supported volume. */
    ghost predicate Valid()
      reads this
    {
      && DiskOk(disk)
      && bpb.bytesPerSector == 512
      && bpb.sectorsPerCluster != 0
      && Laid(G(), |disk|)
    }

    /** The geometry held in the driver's variables. */
    function G(): Geometry
      reads this
      requires bpb.sectorsPerCluster != 0
    {
      Geometry(fatStart, rootStart, rootSectors, dataStart,
               bpb.sectorsPerCluster, bpb.sectorsPerFat, ClusterCount(bpb, dataStart))
    }

    constructor (medium: Disk)
      ensures disk == medium
    {
      disk := medium;
      bpb := Bpb(0, 0, 0, 0, 0, 0, 0, 0);
      fatStart, rootStart, rootSectors, dataStart := 0, 0, 0, 0;
    }

    /** fat16_init */
    method Init()
      requires DiskOk(disk) && disk != [] && Supported(ParseBpb(disk[0]), |disk|)
      modifies this`bpb, this`fatStart, this`rootStart, this`rootSectors, this`dataStart
      ensures Valid() && bpb == ParseBpb(disk[0]) && G() == GeometryOf(bpb)
    {
      bpb := ParseBpb(disk[0]);
      fatStart := bpb.reservedSectors;
      rootStart := bpb.reservedSectors + bpb.fatCount * bpb.sectorsPerFat;
      rootSectors := (bpb.rootDirEntries * 32) / bpb.bytesPerSector;
      dataStart := rootStart + rootSectors;
      GeometryIsLaid(bpb, |disk|);
    }

    method ClusterToLba(cluster: nat) returns (lba: nat)
      requires Valid() && cluster >= 2
      ensures lba == G().Lba(cluster)
    {
      LbaFormula(G(), cluster);
      lba := dataStart + (cluster - 2) * bpb.sectorsPerCluster;
    }

    method ReadFatEntry(cluster: nat) returns (value: nat)
      requires Valid() && cluster < 0x1_0000
      ensures value == FatGet(G(), disk, cluster)
    {
      FatPlace(cluster);
      var fatOffset := cluster * 2;
      var fatSector := fatStart + fatOffset / bpb.bytesPerSector;
      var buf := ReadSector(disk, fatSector);
      value := Get16(buf, fatOffset % bpb.bytesPerSector);
    }

    method WriteFatEntry(cluster: nat, value: nat)
      requires Valid() && cluster < 0x1_0000 && value < 0x1_0000
      modifies this`disk
      ensures Valid() && G() == old(G()) && disk == FatSet(G(), old(disk), cluster, value)
    {
      FatPlace(cluster);
      var fatOffset := 2 * cluster;
      var fat1 := fatStart + fatOffset / bpb.bytesPerSector;
      var buf := Put16(ReadSector(disk, fat1), fatOffset % bpb.bytesPerSector, value);
      disk := WriteSector(disk, fat1, buf);
      disk := WriteSector(disk, fat1 + bpb.sectorsPerFat, buf);
    }

    method FindFreeCluster() returns (c: nat)
      requires Valid()
      ensures c == FirstFree(Fat(G(), disk), 2)
    {
      ghost var f := Fat(G(), disk);
      var totalClusters := ClusterCount(bpb, dataStart);
      c := 2;
      var limit := (totalClusters + 2) % 0x1_0000;
      assert limit == |f|;
      hide Laid, ClusterCount, DiskOk;
      while c < limit
        invariant 2 <= c <= limit
        invariant FirstFree(f, 2) == FirstFree(f, c)
      {
        var entry := ReadFatEntry(c);
        if entry == 0 {
          return;
        }
        c := c + 1;
      }
      c := 0;
    }

    /** The allocation loop of fat16_write_file (src/fat16.c:232-249). */
    method AllocateChain(needed: nat) returns (ok: bool, first: nat, ghost chain: seq<nat>)
      requires Valid()
      modifies this`disk
      ensures Valid() && G() == old(G())
      ensures Allocate(G(), old(disk), needed, 0) == (disk, chain)
      ensures ok <==> |chain| == needed
      ensures first == if chain == [] then 0 else chain[0]
    {
      hide Laid, DiskOk, Take, Fat, Allocate, Prepend, ClusterCount, FirstFree;
      ghost var g, d0 := G(), disk;
      FatIndexable(g, |disk|);
      PrependNothing(Allocate(g, d0, needed, 0));
      chain := [];
      first := 0;
      var prev: nat := 0;
      var i := 0;
      while i < needed
        invariant DiskOk(disk) && |disk| == |d0|
        invariant |chain| == i <= needed
        invariant first == if i == 0 then 0 else chain[0]
        invariant prev < 0x1_0000
        invariant Allocate(g, d0, needed, 0) == Prepend(chain, Allocate(g, disk, needed - i, prev))
      {
        var freeC := FindFreeCluster();
        if freeC == 0 {
          AllocateStops(g, disk, needed - i, prev, chain);
          return false, first, chain;
        }
        if i == 0 {
          first := freeC;
        }
        AllocateUnfolds(g, disk, needed - i, prev, chain);
        TakeCluster(prev, freeC);
        chain := chain + [freeC];
        prev := freeC;
        i := i + 1;
      }
      AllocateStops(g, disk, 0, prev, chain);
      ok := true;
    }

    /** Link a cluster behind prev, if there is one, and mark it as the end (src/fat16.c:242-247). */
    method TakeCluster(prev: nat, freeC: nat)
      requires Valid() && prev < 0x1_0000 && freeC < 0x1_0000
      modifies this`disk
      ensures Valid() && G() == old(G()) && disk == Take(G(), old(disk), prev, freeC)
      ensures |disk| == |old(disk)|
    {
      hide FatSet, Laid, ClusterCount;
      if prev != 0 {
        WriteFatEntry(prev, freeC);
      }
      WriteFatEntry(freeC, 0xFFFF);
    }

    /** The sector loop of fat16_write_file for one cluster (src/fat16.c:254-263). */
    method StoreCluster(cluster: nat, data: seq<byte>, start: nat) returns (written: nat)
      requires Valid() && cluster >= 2 && start <= |data|
      modifies this`disk
      ensures Valid() && G() == old(G())
      ensures disk == WriteRun(old(disk), G().Lba(cluster), G().sectorsPerCluster, data[start..])
      ensures written == start + Min(|data| - start, G().ClusterBytes())
    {
      hide WriteRun, NextSector, Laid, DiskOk, Zeros, ClusterCount;
      ghost var g, d0 := G(), disk;
      var lba := ClusterToLba(cluster);
      written := start;
      var sec: nat := 0;
      while sec < bpb.sectorsPerCluster && written < |data|
        invariant DiskOk(disk) && |disk| == |d0|
        invariant sec <= g.sectorsPerCluster
        invariant start <= written <= |data| && written - start <= sec * 512
        invariant written < |data| ==> written == start + sec * 512
        invariant WriteRun(d0, lba, g.sectorsPerCluster, data[start..])
                  == WriteRun(disk, lba + sec, g.sectorsPerCluster - sec, data[written..])
      {
        var chunk := if |data| - written < 512 then |data| - written else 512;
        var tmp := data[written..written + chunk] + Zeros(512 - chunk);
        WriteRunUnfolds(disk, lba + sec, g.sectorsPerCluster - sec, data, written);
        disk := WriteSector(disk, lba + sec, tmp);
        written := written + chunk;
        sec := sec + 1;
      }
      WriteRunStops(disk, lba + sec, g.sectorsPerCluster - sec, data[written..]);
    }

    /** The data loop of fat16_write_file (src/fat16.c:250-265). */
    method StoreData(first: nat, data: seq<byte>)
      requires Valid() && first < 0x1_0000
      modifies this`disk
      ensures Valid() && G() == old(G()) && disk == StoreChain(G(), old(disk), first, data)
    {
      hide Laid, DiskOk, ClusterCount, FatGet, WriteRun;
      ghost var g, d0 := G(), disk;
      var curr, written := first, 0;
      assert data[0..] == data;
      while curr >= 2 && curr < 0xFFF8 && written < |data|
        invariant DiskOk(disk) && |disk| == |d0|
        invariant curr < 0x1_0000 && written <= |data|
        invariant StoreChain(g, d0, first, data) == StoreChain(g, disk, curr, data[written..])
        decreases |data| - written
      {
        ghost var before := written;
        written := StoreCluster(curr, data, written);
        assert data[before..][written - before..] == data[written..];
        curr := ReadFatEntry(curr);
      }
    }

    /** The directory loop of fat16_write_file, up to the slot it fills (src/fat16.c:268-272). */
    method FindFreeSlot() returns (found: bool, s: nat, e: nat)
      requires Valid()
      ensures var slot := FreeSlot(Dir(G(), disk), 0);
              if found then slot == 16 * s + e < G().Slots() && e < 16 else slot == G().Slots()
    {
      hide Laid, Dir, DiskOk, ClusterCount, FreeSlot, IsFree, ReadSector, EntryAt;
      ghost var g, dir := G(), Dir(G(), disk);
      s, e := 0, 0;
      while s < rootSectors
        invariant s <= g.rootSectors
        invariant FreeSlot(dir, 0) == FreeSlot(dir, 16 * s)
      {
        var sectorBuf := ReadSector(disk, rootStart + s);
        e := 0;
        while e < 16
          invariant e <= 16
          invariant FreeSlot(dir, 0) == FreeSlot(dir, 16 * s + e)
        {
          EntryOfSector(g, disk, s, e);
          var entry := sectorBuf[32 * e..32 * e + 32];
          FreeSlotUnfolds(dir, 16 * s + e);
          if entry[0] == FREE || entry[0] == DELETED {
            return true, s, e;
          }
          e := e + 1;
        }
        s := s + 1;
      }
      FreeSlotUnfolds(dir, 16 * s);
      found := false;
    }

    /** Fill the slot found and store its sector (src/fat16.c:273-287). */
    method InsertEntry(name: Name, first: nat, size: nat) returns (code: int)
      requires Valid() && name.Shaped() && first < 0x1_0000 && size < 0x1_0000_0000
      modifies this`disk
      ensures Valid() && G() == old(G())
      ensures var slot := FreeSlot(Dir(G(), old(disk)), 0);
              if slot == G().Slots() then disk == old(disk) && code == -1
              else disk == PutEntry(G(), old(disk), slot, NewEntry(name, first, size)) && code == 0
    {
      hide Laid, NewEntry, PatchSector, FreeSlot, Dir, ClusterCount;
      var found, s, e := FindFreeSlot();
      if !found {
        return -1;
      }
      assert (16 * s + e) / 16 == s && (16 * s + e) % 16 == e;
      var sectorBuf := ReadSector(disk, rootStart + s);
      disk := WriteSector(disk, rootStart + s, PatchSector(sectorBuf, 32 * e, NewEntry(name, first, size)));
      code := 0;
    }

    /** fat16_write_file */
    method WriteFile(name: Name, data: seq<byte>) returns (code: int)
      requires Valid() && name.Shaped() && |data| < 0x1_0000_0000
      modifies this`disk
      ensures Valid() && G() == old(G())
      ensures (disk, code) == Vol.WriteFile(G(), old(disk), name, data)
    {
      var clusterBytes := bpb.sectorsPerCluster * bpb.bytesPerSector;
      var needed := Vol.Quotient(Wrap32(|data| + clusterBytes - 1), clusterBytes);
      if needed == 0 {
        return -1;
      }
      hide Laid, DiskOk, Allocate, StoreChain, Dir, FreeSlot, PutEntry, NewEntry, ClusterCount;
      FirstInRange(G(), disk, needed);
      var ok, first, _ := AllocateChain(needed);
      if !ok {
        return -1;
      }
      StoreData(first, data);
      code := InsertEntry(name, first, |data|);
    }

    /** The lookup loop of fat16_read_file (src/fat16.c:166-189). */
    method FindEntry(name: Name) returns (found: bool, target: Entry)
      requires Valid() && name.Shaped()
      ensures var slot := Lookup(Dir(G(), disk), name, 0);
              && (found <==> slot < G().Slots())
              && (found ==> target == Dir(G(), disk)[slot])
    {
      hide Laid, Dir, DiskOk, Found, Selected, ClusterCount, Lookup, ReadSector, EntryAt;
      ghost var g, dir := G(), Dir(G(), disk);
      target := Zeros(32);
      var s := 0;
      while s < rootSectors
        invariant s <= g.rootSectors
        invariant Lookup(dir, name, 0) == Lookup(dir, name, 16 * s)
      {
        var sectorBuf := ReadSector(disk, rootStart + s);
        var e := 0;
        while e < 16
          invariant e <= 16
          invariant Lookup(dir, name, 0) == Lookup(dir, name, 16 * s + e)
        {
          EntryOfSector(g, disk, s, e);
          var entry := sectorBuf[32 * e..32 * e + 32];
          LookupUnfolds(dir, name, 16 * s + e);
          if entry[0] == FREE {
            return false, target;
          }
          if Selected(entry, name) {
            return true, entry;
          }
          e := e + 1;
        }
        s := s + 1;
      }
      LookupUnfolds(dir, name, 16 * s);
      found := false;
    }

    /** The sector loop of fat16_read_file for one cluster (src/fat16.c:208-217). */
    method LoadCluster(cluster: nat, n: nat, out: array<byte>, start: nat) returns (pos: nat)
      requires Valid() && cluster >= 2 && start + n <= out.Length
      modifies out
      ensures var bytes := ReadRun(disk, G().Lba(cluster), G().sectorsPerCluster, n);
              && pos == start + |bytes|
              && out[..] == Splice(old(out[..]), start, bytes)
    {
      hide ReadRun, Splice, Laid, DiskOk, ClusterCount;
      ghost var g := G();
      ghost var done: seq<byte> := [];
      var lba := ClusterToLba(cluster);
      pos := start;
      var left: nat, sec: nat := n, 0;
      SpliceNothing(out[..], start);
      while sec < bpb.sectorsPerCluster && left > 0
        invariant sec <= g.sectorsPerCluster && left <= n
        invariant pos == start + |done| == start + (n - left)
        invariant ReadRun(disk, lba, g.sectorsPerCluster, n)
                  == done + ReadRun(disk, lba + sec, g.sectorsPerCluster - sec, left)
        invariant out[..] == Splice(old(out[..]), start, done)
      {
        var tmp := ReadSector(disk, lba + sec);
        var toCopy := if left < 512 then left else 512;
        ReadRunUnfolds(disk, lba + sec, g.sectorsPerCluster - sec, left, done);
        SpliceTwice(old(out[..]), start, done, tmp[..toCopy]);
        CopyInto(out, pos, tmp[..toCopy]);
        done := done + tmp[..toCopy];
        pos := pos + toCopy;
        left := left - toCopy;
        sec := sec + 1;
      }
      assert done + [] == done;
    }

    /** fat16_read_file. It terminates on every table, cyclic ones included, because each turn of the
        loop takes at least one byte of what is left; and it writes no byte of the buffer beyond the
        ones the file supplies. */
    method ReadFile(name: Name, out: array<byte>, maxSize: nat) returns (code: int)
      requires Valid() && name.Shaped() && maxSize <= out.Length
      modifies out
      ensures var (result, bytes) := Vol.ReadFile(G(), disk, name, maxSize);
              && code == result
              && out[..] == Splice(old(out[..]), 0, bytes)
    {
      SpliceNothing(out[..], 0);
      var found, target := FindEntry(name);
      if !found {
        return -1;
      }
      var left := FileSize(target);
      if left > maxSize {
        left := maxSize;
      }
      LoadData(FirstCluster(target), left, out);
      code := AsInt32(FileSize(target));
    }

    /** The cluster loop of fat16_read_file (src/fat16.c:207-219). */
    method LoadData(first: nat, n: nat, out: array<byte>)
      requires Valid() && first < 0x1_0000 && n <= out.Length
      modifies out
      ensures out[..] == Splice(old(out[..]), 0, LoadChain(G(), disk, first, n))
    {
      hide ReadRun, LoadChain, Splice, FatGet, Laid, DiskOk, ClusterCount;
      ghost var g := G();
      ghost var done: seq<byte> := [];
      var cluster, left: nat, pos := first, n, 0;
      SpliceNothing(out[..], 0);
      while cluster >= 2 && cluster < 0xFFF8 && left > 0
        invariant cluster < 0x1_0000 && pos == |done| && pos + left == n
        invariant LoadChain(g, disk, first, n) == done + LoadChain(g, disk, cluster, left)
        invariant out[..] == Splice(old(out[..]), 0, done)
        decreases left
      {
        var t := Min(left, bpb.sectorsPerCluster * 512);
        ghost var bytes := ReadRun(disk, g.Lba(cluster), g.sectorsPerCluster, t);
        LoadChainUnfolds(g, disk, cluster, left, done);
        SpliceTwice(old(out[..]), 0, done, bytes);
        var next := LoadCluster(cluster, t, out, pos);
        done := done + bytes;
        left := left - (next - pos);
        pos := next;
        cluster := ReadFatEntry(cluster);
      }
      LoadChainStops(g, disk, cluster, left);
      assert done + [] == done;
    }
  }

  lemma LoadChainStops(g: Geometry, d: Disk, c: nat, n: nat)
    requires DiskOk(d) && 1 <= g.sectorsPerCluster && (c < 2 || c >= END_OF_CHAIN || n == 0)
    ensures LoadChain(g, d, c, n) == []
  {
  }

  /** The tests of the lookup loop on an entry that is not 0x00 (src/fat16.c:173-177). */
  predicate Selected(entry: Entry, name: Name)
    requires name.Shaped()
    ensures entry[0] != FREE ==> (Selected(entry, name) <==> Found(entry, name))
  {
    && entry[0] != DELETED
    && entry[11] != LONG_NAME
    && SameString(entry[..8], name.base)
    && SameString(entry[8..11], name.ext)
  }

  lemma LookupUnfolds(dir: Directory, name: Name, k: nat)
    requires name.Shaped() && k <= |dir|
    ensures Lookup(dir, name, k) ==
            if k == |dir| || dir[k][0] == FREE then |dir|
            else if Found(dir[k], name) then k
            else Lookup(dir, name, k + 1)
  {
  }

  lemma FreeSlotUnfolds(dir: Directory, k: nat)
    requires k <= |dir|
    ensures FreeSlot(dir, k) ==
            if k == |dir| || dir[k][0] == FREE || dir[k][0] == DELETED then k else FreeSlot(dir, k + 1)
  {
  }

  lemma FirstInRange(g: Geometry, d: Disk, n: nat)
    requires DiskOk(d) && Laid(g, |d|)
    ensures var chain := Allocate(g, d, n, 0).1;
            chain != [] ==> chain[0] < 0x1_0000
  {
    AllocateBuildsChain(g, d, n, 0);
    var chain := Allocate(g, d, n, 0).1;
    assert chain != [] ==> chain[0] in chain;
  }

  lemma WriteRunUnfolds(d: Disk, lba: nat, count: nat, data: seq<byte>, at: nat)
    requires DiskOk(d) && count > 0 && at < |data|
    ensures var t := Min(|data| - at, 512);
            WriteRun(d, lba, count, data[at..]) ==
            WriteRun(WriteSector(d, lba, data[at..at + t] + Zeros(512 - t)), lba + 1, count - 1, data[at + t..])
  {
    var t := Min(|data| - at, 512);
    assert data[at..][..t] == data[at..at + t] && data[at..][t..] == data[at + t..];
  }

  lemma WriteRunStops(d: Disk, lba: nat, count: nat, data: seq<byte>)
    requires DiskOk(d) && (count == 0 || data == [])
    ensures WriteRun(d, lba, count, data) == d
  {
  }

  lemma ReadRunUnfolds(d: Disk, lba: nat, count: nat, n: nat, done: seq<byte>)
    requires DiskOk(d) && count > 0 && n > 0
    ensures var t := Min(n, 512);
            done + ReadRun(d, lba, count, n) ==
            (done + ReadSector(d, lba)[..t]) + ReadRun(d, lba + 1, count - 1, n - t)
  {
    var t := Min(n, 512);
    var head, rest := ReadSector(d, lba)[..t], ReadRun(d, lba + 1, count - 1, n - t);
    assert done + (head + rest) == (done + head) + rest;
  }

  lemma LoadChainUnfolds(g: Geometry, d: Disk, c: nat, n: nat, done: seq<byte>)
    requires DiskOk(d) && 1 <= g.sectorsPerCluster && 2 <= c < END_OF_CHAIN && n > 0
    ensures var t := Min(n, g.ClusterBytes());
            done + LoadChain(g, d, c, n) ==
            (done + ReadRun(d, g.Lba(c), g.sectorsPerCluster, t)) + LoadChain(g, d, FatGet(g, d, c), n - t)
  {
    hide ReadRun, FatGet, DiskOk;
    var t := Min(n, g.ClusterBytes());
    var head, rest := ReadRun(d, g.Lba(c), g.sectorsPerCluster, t), LoadChain(g, d, FatGet(g, d, c), n - t);
    assert done + (head + rest) == (done + head) + rest;
  }

  /** Entry e of root directory sector s. */
  lemma EntryOfSector(g: Geometry, d: Disk, s: nat, e: nat)
    requires DiskOk(d) && s < g.rootSectors && e < 16
    ensures Dir(g, d)[16 * s + e] == ReadSector(d, g.rootStart + s)[32 * e..32 * e + 32]
  {
    assert (16 * s + e) / 16 == s && (16 * s + e) % 16 == e;
  }

  /** s with the bytes b stored from index at on. */
  ghost function Splice(s: seq<byte>, at: nat, b: seq<byte>): (r: seq<byte>)
    requires at + |b| <= |s|
    ensures |r| == |s|
  {
    s[..at] + b + s[at + |b|..]
  }

  lemma SpliceTwice(s: seq<byte>, at: nat, a: seq<byte>, b: seq<byte>)
    requires at + |a| + |b| <= |s|
    ensures Splice(Splice(s, at, a), at + |a|, b) == Splice(s, at, a + b)
  {
  }

  lemma SpliceNothing(s: seq<byte>, at: nat)
    requires at <= |s|
    ensures Splice(s, at, []) == s
  {
  }

  ghost function Prepend(chain: seq<nat>, r: (Disk, seq<nat>)): (Disk, seq<nat>) {
    (r.0, chain + r.1)
  }

  lemma FatIndexable(g: Geometry, sectors: nat)
    requires Laid(g, sectors)
    ensures g.FatLength() <= 0x1_0000
  {
  }

  lemma PrependNothing(r: (Disk, seq<nat>))
    ensures Prepend([], r) == r
  {
    assert [] + r.1 == r.1;
  }

  lemma AllocateStops(g: Geometry, d: Disk, n: nat, prev: nat, chain: seq<nat>)
    requires DiskOk(d) && g.FatLength() <= 0x1_0000 && (n == 0 || FirstFree(Fat(g, d), 2) == 0)
    ensures Prepend(chain, Allocate(g, d, n, prev)) == (d, chain)
  {
    assert Allocate(g, d, n, prev) == (d, []);
    assert chain + [] == chain;
  }

  lemma AllocateUnfolds(g: Geometry, d: Disk, n: nat, prev: nat, chain: seq<nat>)
    requires DiskOk(d) && g.FatLength() <= 0x1_0000 && n > 0 && FirstFree(Fat(g, d), 2) != 0
    ensures var c := FirstFree(Fat(g, d), 2);
            && c < 0x1_0000
            && Prepend(chain, Allocate(g, d, n, prev))
               == Prepend(chain + [c], Allocate(g, Take(g, d, prev, c), n - 1, c))
  {
    var c := FirstFree(Fat(g, d), 2);
    var rest := Allocate(g, Take(g, d, prev, c), n - 1, c).1;
    assert chain + ([c] + rest) == (chain + [c]) + rest;
  }

  /** The byte loop of fat16_read_file (src/fat16.c:213-214). */
  method CopyInto(out: array<byte>, at: nat, bytes: seq<byte>)
    requires at + |bytes| <= out.Length
    modifies out
    ensures out[..] == Splice(old(out[..]), at, bytes)
  {
    hide Splice;
    SpliceNothing(out[..], at);
    var i := 0;
    while i < |bytes|
      invariant i <= |bytes|
      invariant out[..] == Splice(old(out[..]), at, bytes[..i])
    {
      SpliceOneMore(old(out[..]), at, bytes, i);
      ghost var before := out[..];
      out[at + i] := bytes[i];
      assert out[..] == before[at + i := bytes[i]];
      i := i + 1;
    }
    assert bytes[..i] == bytes;
  }

  lemma SpliceOneMore(s: seq<byte>, at: nat, bytes: seq<byte>, i: nat)
    requires at + |bytes| <= |s| && i < |bytes|
    ensures Splice(s, at, bytes[..i])[at + i := bytes[i]] == Splice(s, at, bytes[..i + 1])
  {
  }
}
