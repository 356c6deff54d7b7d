/** The theorems about files: round trip, frame, volume invariant and whole runs of writes. */
module Fat16Files {
  import opened Bytes
  import opened Fat16Layout
  import opened Fat16Chains
  import opened Fat16Data
  import opened Fat16Directory
  import opened Fat16Volume

  /** The clusters a write marks, whether or not it then succeeds. */
  function Taken(g: Geometry, d: Disk, data: seq<byte>): seq<nat>
    requires DiskOk(d) && Laid(g, |d|)
  {
    Fill(g, d, ClustersNeeded(g, |data|), data).1
  }

  /** A write in one step: the clusters it takes, the slot it fills and the bytes it stores. */
  predicate Written(g: Geometry, d: Disk, d': Disk, code: int, name: Name, data: seq<byte>)
    requires DiskOk(d) && DiskOk(d') && Laid(g, |d|) && |d'| == |d|
    requires name.Shaped() && |data| < 0x1_0000_0000
  {
    var chain, slot := Taken(g, d, data), FreeSlot(Dir(g, d), 0);
    && Stored(g, d, d', chain)
    && (code != 0 ==> Dir(g, d') == Dir(g, d))
    && (code == 0 ==>
          && slot < g.Slots()
          && |chain| == ClustersNeeded(g, |data|) > 0
          && 2 <= chain[0] < g.FatLength()
          && Dir(g, d') == Dir(g, d)[slot := NewEntry(name, chain[0], |data|)]
          && LoadChain(g, d', chain[0], |data|) == data)
  }

  lemma WriteEffect(g: Geometry, d: Disk, name: Name, data: seq<byte>)
    requires DiskOk(d) && Laid(g, |d|) && name.Shaped() && |data| < 0x1_0000_0000
    ensures var (d', code) := WriteFile(g, d, name, data);
            Written(g, d, d', code, name, data)
  {
    hide Stored, DiskOk, PutEntry, LoadChain, NewEntry, ClustersNeeded, Fill, Fits, FreeSlot, Written, Dir;
    var n := ClustersNeeded(g, |data|);
    NeededIsCeiling(g, |data|);
    if n == 0 {
      NothingFilled(g, d, data);
      NoEntryWritten(g, d, d, name, data);
    } else {
      FillEffect(g, d, n, data);
      var (d1, chain) := Fill(g, d, n, data);
      if |chain| == n && FreeSlot(Dir(g, d1), 0) < g.Slots() {
        EntryWritten(g, d, d1, chain, name, data);
      } else {
        NoEntryWritten(g, d, d1, name, data);
      }
    }
  }

  lemma NoEntryWritten(g: Geometry, d: Disk, d1: Disk, name: Name, data: seq<byte>)
    requires DiskOk(d) && DiskOk(d1) && Laid(g, |d|) && |d1| == |d|
    requires name.Shaped() && |data| < 0x1_0000_0000
    requires Stored(g, d, d1, Taken(g, d, data)) && Dir(g, d1) == Dir(g, d)
    ensures Written(g, d, d1, -1, name, data)
  {
  }

  lemma EntryWritten(g: Geometry, d: Disk, d1: Disk, chain: seq<nat>, name: Name, data: seq<byte>)
    requires DiskOk(d) && DiskOk(d1) && Laid(g, |d|) && |d1| == |d|
    requires name.Shaped() && |data| < 0x1_0000_0000
    requires chain == Taken(g, d, data) && |chain| == ClustersNeeded(g, |data|) > 0
    requires FreeSlot(Dir(g, d), 0) < g.Slots()
    requires Stored(g, d, d1, chain) && Dir(g, d1) == Dir(g, d) && LoadChain(g, d1, chain[0], |data|) == data
    ensures chain[0] < 0x1_0000
    ensures Written(g, d, PutEntry(g, d1, FreeSlot(Dir(g, d), 0), NewEntry(name, chain[0], |data|)), 0, name, data)
  {
    hide Stored, Laid, DiskOk, PutEntry, LoadChain, NewEntry, ClustersNeeded, Taken, FreeSlot;
    TakenInRange(g, d, d1, chain);
    EntryEffect(g, d, d1, chain, FreeSlot(Dir(g, d), 0), NewEntry(name, chain[0], |data|), |data|);
  }

  lemma NothingFilled(g: Geometry, d: Disk, data: seq<byte>)
    requires DiskOk(d) && Laid(g, |d|)
    ensures Fill(g, d, 0, data) == (d, []) && Stored(g, d, d, [])
  {
    assert Allocate(g, d, 0, 0) == (d, []);
  }

  lemma TakenInRange(g: Geometry, d: Disk, d': Disk, chain: seq<nat>)
    requires DiskOk(d) && DiskOk(d') && Laid(g, |d|) && |d'| == |d|
    requires Stored(g, d, d', chain) && chain != []
    ensures 2 <= chain[0] < g.FatLength() <= 0x1_0000
  {
    assert chain[0] in chain;
  }

  lemma EntryEffect(g: Geometry, d: Disk, d1: Disk, chain: seq<nat>, slot: nat, e: Entry, n: nat)
    requires DiskOk(d) && DiskOk(d1) && Laid(g, |d|) && |d1| == |d| && slot < g.Slots()
    requires Stored(g, d, d1, chain) && chain != []
    ensures var d2 := PutEntry(g, d1, slot, e);
            && Stored(g, d, d2, chain)
            && Dir(g, d2) == Dir(g, d1)[slot := e]
            && LoadChain(g, d2, chain[0], n) == LoadChain(g, d1, chain[0], n)
  {
    var d2 := PutEntry(g, d1, slot, e);
    EntryStored(g, d, d1, chain, slot, e);
    PathIsOccupied(Fat(g, d1), chain[0], chain);
    forall x | x in chain
      ensures SameClusters(g, d1, d2, [x]) && FatGet(g, d2, x) == FatGet(g, d1, x)
    {
      ClusterOrder(g, x, g.FatLength());
      assert Fat(g, d2)[x] == Fat(g, d1)[x];
    }
    hide PutEntry, Stored, Laid;
    SameClustersTogether(g, d1, d2, chain);
    LoadChainFrame(g, d1, d2, chain[0], chain, n);
  }

  /** A write succeeds exactly when the data is neither empty nor too large for the 32-bit rounding,
      the volume has ceil(size / cluster bytes) free clusters, and the root directory has a slot. */
  lemma WriteSucceedsExactlyWhen(g: Geometry, d: Disk, name: Name, data: seq<byte>)
    requires DiskOk(d) && Laid(g, |d|) && name.Shaped() && |data| < 0x1_0000_0000
    ensures WriteFile(g, d, name, data).1 == 0 <==>
              && data != [] && |data| + g.ClusterBytes() <= 0x1_0000_0000
              && ClustersNeeded(g, |data|) <= |FreeClusters(Fat(g, d))|
              && FreeSlot(Dir(g, d), 0) < g.Slots()
  {
    var n := ClustersNeeded(g, |data|);
    NeededIsCeiling(g, |data|);
    if n != 0 {
      FreeClustersConserved(g, d, n);
      FillEffect(g, d, n, data);
    }
  }

  /** Conservation over a write, on success and on both failure paths: the clusters it marked are
      the lowest-numbered free ones in ascending order, and the rest stay free. */
  lemma WriteConservesClusters(g: Geometry, d: Disk, name: Name, data: seq<byte>)
    requires DiskOk(d) && Laid(g, |d|) && name.Shaped() && |data| < 0x1_0000_0000
    ensures var f, f' := Fat(g, d), Fat(g, WriteFile(g, d, name, data).0);
            var chain := Taken(g, d, data);
            && FreeClusters(f) == FreeClusters(f') + Members(chain)
            && FreeClusters(f') !! Members(chain)
            && Ascending(chain)
            && BelowFree(chain, f')
            && |chain| == Min(ClustersNeeded(g, |data|), |FreeClusters(f)|)
  {
    WriteEffect(g, d, name, data);
    var f, f' := Fat(g, d), Fat(g, WriteFile(g, d, name, data).0);
    TakenClusters(f, f', Taken(g, d, data));
    FreeClustersConserved(g, d, ClustersNeeded(g, |data|));
    TakenIsLowest(g, d, ClustersNeeded(g, |data|), 0);
    var f1 := Fat(g, Allocate(g, d, ClustersNeeded(g, |data|), 0).0);
    assert FreeClusters(f1) == FreeClusters(f) - Members(Taken(g, d, data));
  }

  /** The clusters that a failed write has marked belong to no live file: they are lost. */
  lemma FailedWriteLosesClusters(g: Geometry, d: Disk, name: Name, data: seq<byte>, slot: nat, chain: seq<nat>)
    requires Sound(g, d) && name.Storable() && |data| < 0x1_0000_0000
    requires WriteFile(g, d, name, data).1 != 0
    requires var d' := WriteFile(g, d, name, data).0;
             && slot < g.Slots() && Live(Dir(g, d')[slot])
             && IsChain(Fat(g, d'), FirstCluster(Dir(g, d')[slot]), chain)
    ensures Members(chain) !! Members(Taken(g, d, data))
  {
    SoundIsLaid(g, d);
    WriteEffect(g, d, name, data);
    var d' := WriteFile(g, d, name, data).0;
    var chains :| VolumeOk(g, d, chains);
    hide WriteFile, Laid, Sound, Taken, LoadChain, FirstCluster, Live;
    OldChains(g, d, d', Taken(g, d, data), Dir(g, d), chains);
    ChainIsUnique(Fat(g, d'), FirstCluster(Dir(g, d')[slot]), chain, chains[slot]);
  }

  /** A write that runs out of clusters returns -1 and changes the two tables only. */
  lemma FullDiskChangesTablesOnly(g: Geometry, d: Disk, name: Name, data: seq<byte>)
    requires DiskOk(d) && Laid(g, |d|) && name.Shaped() && |data| < 0x1_0000_0000
    requires |FreeClusters(Fat(g, d))| < ClustersNeeded(g, |data|)
    ensures WriteFile(g, d, name, data).1 == -1
    ensures forall i :: 0 <= i < |d| && !(g.fatStart <= i < g.fatStart + 2 * g.sectorsPerFat) ==>
              WriteFile(g, d, name, data).0[i] == d[i]
  {
    hide Dir, FreeSlot, FreeClusters, ClustersNeeded, StoreChain, PutEntry, NewEntry, Geometry.Lba, Fat;
    AllocateBuildsChain(g, d, ClustersNeeded(g, |data|), 0);
    FreeClustersConserved(g, d, ClustersNeeded(g, |data|));
  }

  /** A write leaves the free clusters as they are if and only if its data is empty or wraps the 32-bit
      rounding, or no cluster is free. So a write that fails for any other reason loses clusters. */
  lemma FreeClustersStayExactlyWhen(g: Geometry, d: Disk, name: Name, data: seq<byte>)
    requires DiskOk(d) && Laid(g, |d|) && name.Shaped() && |data| < 0x1_0000_0000
    ensures FreeClusters(Fat(g, WriteFile(g, d, name, data).0)) == FreeClusters(Fat(g, d)) <==>
            data == [] || |data| + g.ClusterBytes() > 0x1_0000_0000 || FreeClusters(Fat(g, d)) == {}
  {
    hide WriteFile, FreeClusters, Fat, Taken, ClustersNeeded, BelowFree, Dir;
    WriteConservesClusters(g, d, name, data);
    NeededIsCeiling(g, |data|);
    var chain := Taken(g, d, data);
    if chain != [] {
      assert chain[0] in Members(chain);
    } else {
      assert Members(chain) == {};
    }
  }

  lemma ChainIsUnique(f: seq<nat>, first: nat, a: seq<nat>, b: seq<nat>)
    requires |f| <= END_OF_CHAIN && IsChain(f, first, a) && IsChain(f, first, b)
    ensures a == b
  {
    if first == 0 {
      assert a == [] && b == [];
    } else {
      PathIsUnique(f, first, a, b);
    }
  }

  predicate BelowFree(chain: seq<nat>, f: seq<nat>) {
    forall x, y :: x in chain && y in FreeClusters(f) ==> x < y
  }

  /** First fit: nothing that stays free lies below a cluster that was taken. */
  lemma {:induction false} TakenIsLowest(g: Geometry, d: Disk, n: nat, prev: nat)
    requires DiskOk(d) && TablesLaid(g, |d|)
    requires prev == 0 || (2 <= prev < g.FatLength() && Fat(g, d)[prev] != 0)
    ensures var (d', chain) := Allocate(g, d, n, prev);
            BelowFree(chain, Fat(g, d'))
    decreases n
  {
    hide Allocated, SameOutsideFat, Mirrored, Take, BelowFree, FreeClusters;
    var f := Fat(g, d);
    var c := FirstFree(f, 2);
    if n != 0 && c != 0 {
      AllocateBuildsChain(g, d, n, prev);
      TakeEffect(g, d, prev, c);
      var d1 := Take(g, d, prev, c);
      TakenIsLowest(g, d1, n - 1, c);
      var (d', rest) := Allocate(g, d1, n - 1, c);
      StaysFree(f, Fat(g, d'), prev, c, rest);
    } else {
      assert Allocate(g, d, n, prev) == (d, []);
      NothingBelow(f);
    }
  }

  lemma NothingBelow(f: seq<nat>)
    ensures BelowFree([], f)
  {
  }

  lemma StaysFree(f: seq<nat>, f': seq<nat>, prev: nat, c: nat, rest: seq<nat>)
    requires |f| <= END_OF_CHAIN && Allocated(f, f', prev, [c] + rest)
    requires prev == 0 || (2 <= prev < |f| && f[prev] != 0)
    requires forall k :: 2 <= k < c ==> f[k] != 0
    requires BelowFree(rest, f')
    ensures BelowFree([c] + rest, f')
  {
    PathIsOccupied(f', c, [c] + rest);
    forall y | y in FreeClusters(f')
      ensures c < y
    {
      assert y !in [c] + rest;
    }
  }

  // ----- Round trip and frame -----

  /** Reading with a small buffer yields a prefix. */
  lemma {:induction false} LoadChainPrefix(g: Geometry, d: Disk, c: nat, m: nat, n: nat)
    requires DiskOk(d) && 1 <= g.sectorsPerCluster && m <= n <= |LoadChain(g, d, c, n)|
    ensures LoadChain(g, d, c, m) == LoadChain(g, d, c, n)[..m]
    decreases n
  {
    hide ReadRun, FatGet, Geometry.Lba;
    if m != 0 {
      var cb := g.ClusterBytes();
      ReadRunPrefix(d, g.Lba(c), g.sectorsPerCluster, Min(m, cb), Min(n, cb));
      if cb < m {
        LoadChainPrefix(g, d, FatGet(g, d, c), m - cb, n - cb);
      } else {
        assert LoadChain(g, d, FatGet(g, d, c), 0) == [];
      }
    }
  }

  lemma {:induction false} ReadRunPrefix(d: Disk, lba: nat, count: nat, m: nat, n: nat)
    requires DiskOk(d) && m <= n <= count * 512
    ensures ReadRun(d, lba, count, m) == ReadRun(d, lba, count, n)[..m]
    decreases count
  {
    if m != 0 {
      if m > 512 {
        ReadRunPrefix(d, lba + 1, count - 1, m - 512, n - 512);
      } else {
        assert ReadRun(d, lba + 1, count - 1, 0) == [];
      }
    }
  }

  /** Round trip, exactly. After a successful write, reading the name gives the size and the bytes
      written (as many as fit the buffer) if and only if no earlier entry already carries the name;
      if one does, the read sees the old file, untouched. */
  lemma WriteThenRead(g: Geometry, d: Disk, name: Name, data: seq<byte>, maxSize: nat)
    requires Sound(g, d) && name.Storable() && |data| < 0x1_0000_0000
    requires WriteFile(g, d, name, data).1 == 0
    ensures var d' := WriteFile(g, d, name, data).0;
            ReadFile(g, d', name, maxSize) ==
            if FreeSlot(Dir(g, d), 0) < Lookup(Dir(g, d), name, 0)
            then (AsInt32(|data|), data[..Min(|data|, maxSize)])
            else ReadFile(g, d, name, maxSize)
  {
    SoundIsLaid(g, d);
    WriteEffect(g, d, name, data);
    var d' := WriteFile(g, d, name, data).0;
    hide Sound, Laid, DiskOk, WriteFile, ReadFile, Lookup, FreeSlot, Dir, Written;
    LookupAfterWritten(g, d, d', 0, name, data, name);
    if FreeSlot(Dir(g, d), 0) < Lookup(Dir(g, d), name, 0) {
      FreshNameReads(g, d, d', name, data, maxSize);
    } else {
      OldNameReads(g, d, d', 0, name, data, name, maxSize);
    }
  }

  /** Where a name resolves after a write. */
  lemma LookupAfterWritten(g: Geometry, d: Disk, d': Disk, code: int, name: Name, data: seq<byte>, other: Name)
    requires DiskOk(d) && DiskOk(d') && Laid(g, |d|) && |d'| == |d| && Terminated(Dir(g, d))
    requires name.Storable() && other.Shaped() && |data| < 0x1_0000_0000
    requires Written(g, d, d', code, name, data)
    ensures var slot, was := FreeSlot(Dir(g, d), 0), Lookup(Dir(g, d), other, 0);
            && Lookup(Dir(g, d'), other, 0) == (if code == 0 && other == name && slot < was then slot else was)
            && (was < g.Slots() ==> Live(Dir(g, d)[was]) && Dir(g, d')[was] == Dir(g, d)[was])
  {
    hide Stored, LoadChain, NewEntry, ClustersNeeded, Laid;
    LookupFindsFirst(Dir(g, d), other, 0);
    if code == 0 {
      var e := NewEntry(name, Taken(g, d, data)[0], |data|);
      NewEntryIsFoundByItsName(name, Taken(g, d, data)[0], |data|, other);
      LookupAfterInsert(Dir(g, d), e, other);
    }
  }

  lemma FreshNameReads(g: Geometry, d: Disk, d': Disk, name: Name, data: seq<byte>, maxSize: nat)
    requires DiskOk(d) && DiskOk(d') && Laid(g, |d|) && |d'| == |d|
    requires name.Shaped() && |data| < 0x1_0000_0000
    requires Written(g, d, d', 0, name, data)
    requires Lookup(Dir(g, d'), name, 0) == FreeSlot(Dir(g, d), 0)
    ensures ReadFile(g, d', name, maxSize) == (AsInt32(|data|), data[..Min(|data|, maxSize)])
  {
    hide Stored, LoadChain, NewEntry, ClustersNeeded;
    LoadChainPrefix(g, d', Taken(g, d, data)[0], Min(|data|, maxSize), |data|);
  }

  lemma OldNameReads(g: Geometry, d: Disk, d': Disk, code: int, name: Name, data: seq<byte>, other: Name, maxSize: nat)
    requires Sound(g, d) && DiskOk(d') && |d'| == |d|
    requires name.Shaped() && other.Shaped() && |data| < 0x1_0000_0000
    requires Written(g, d, d', code, name, data)
    requires var was := Lookup(Dir(g, d), other, 0);
             && Lookup(Dir(g, d'), other, 0) == was
             && (was < g.Slots() ==> Live(Dir(g, d)[was]) && Dir(g, d')[was] == Dir(g, d)[was])
    ensures ReadFile(g, d', other, maxSize) == ReadFile(g, d, other, maxSize)
  {
    SoundIsLaid(g, d);
    var was := Lookup(Dir(g, d), other, 0);
    hide Sound, Stored, LoadChain, NewEntry, ClustersNeeded, Laid, Lookup, FreeSlot;
    if was < g.Slots() {
      LiveFileReadsAlike(g, d, d', Taken(g, d, data), was, maxSize);
    }
  }

  lemma LiveFileReadsAlike(g: Geometry, d: Disk, d': Disk, taken: seq<nat>, slot: nat, maxSize: nat)
    requires Sound(g, d) && DiskOk(d') && |d'| == |d| && Stored(g, d, d', taken)
    requires slot < g.Slots() && Live(Dir(g, d)[slot])
    ensures var e := Dir(g, d)[slot];
            forall n :: LoadChain(g, d', FirstCluster(e), n) == LoadChain(g, d, FirstCluster(e), n)
  {
    var chains :| VolumeOk(g, d, chains);
    var e := Dir(g, d)[slot];
    forall n: nat
      ensures LoadChain(g, d', FirstCluster(e), n) == LoadChain(g, d, FirstCluster(e), n)
    {
      OtherFileLoads(g, d, d', taken, FirstCluster(e), chains[slot], n);
    }
  }

  /** Frame: a write, successful or not, leaves the result of reading every other name unchanged; a
      failed write leaves reading its own name unchanged as well. */
  lemma WriteLeavesOthers(g: Geometry, d: Disk, name: Name, data: seq<byte>, other: Name, maxSize: nat)
    requires Sound(g, d) && name.Storable() && other.Shaped() && |data| < 0x1_0000_0000
    requires other != name || WriteFile(g, d, name, data).1 != 0
    ensures ReadFile(g, WriteFile(g, d, name, data).0, other, maxSize) == ReadFile(g, d, other, maxSize)
  {
    SoundIsLaid(g, d);
    WriteEffect(g, d, name, data);
    var (d', code) := WriteFile(g, d, name, data);
    hide Sound, Laid, DiskOk, WriteFile, ReadFile, Lookup, FreeSlot, Dir, Written;
    LookupAfterWritten(g, d, d', code, name, data, other);
    OldNameReads(g, d, d', code, name, data, other, maxSize);
  }

  /** Reading, told from the directory alone. On a terminated directory a name that no entry carries
      gives -1 and no bytes; otherwise the first entry with the name decides, and the code is its size,
      as a signed number. */
  lemma ReadFollowsDirectory(g: Geometry, d: Disk, name: Name, maxSize: nat)
    requires DiskOk(d) && 1 <= g.sectorsPerCluster && Terminated(Dir(g, d))
    requires name.Shaped() && 0 !in name.base && 0 !in name.ext
    ensures Absent(Dir(g, d), name) ==> ReadFile(g, d, name, maxSize) == (-1, [])
    ensures forall k :: FirstWith(Dir(g, d), name, k) ==>
              var size := FileSize(Dir(g, d)[k]);
              ReadFile(g, d, name, maxSize).0 == if size < 0x8000_0000 then size else size - 0x1_0000_0000
  {
    hide LoadChain, Found, Dir, CarriesName;
    var dir := Dir(g, d);
    forall k | 0 <= k < |dir|
      ensures Found(dir[k], name) <==> CarriesName(dir[k], name)
    {
      FoundExactlyWhen(dir[k], name);
    }
    LookupFindsFirst(dir, name, 0);
    var slot := Lookup(dir, name, 0);
    if slot < |dir| {
      assert FirstWith(dir, name, slot);
    }
    forall k | FirstWith(dir, name, k)
      ensures slot == k
    {
      LookupReaches(dir, name, 0, k);
    }
  }

  predicate Absent(dir: Directory, name: Name) {
    forall k :: 0 <= k < |dir| ==> !CarriesName(dir[k], name)
  }

  /** Slot k is the first whose entry carries the name. */
  predicate FirstWith(dir: Directory, name: Name, k: int) {
    0 <= k < |dir| && CarriesName(dir[k], name) && forall j :: 0 <= j < k ==> !CarriesName(dir[j], name)
  }

  lemma {:induction false} LookupReaches(dir: Directory, name: Name, from: nat, k: nat)
    requires Terminated(dir) && name.Shaped() && from <= k < |dir| && Found(dir[k], name)
    requires forall j :: 0 <= j < k ==> !Found(dir[j], name)
    ensures Lookup(dir, name, from) == k
    decreases k - from
  {
    assert dir[from][0] != FREE;
    if from < k {
      LookupReaches(dir, name, from + 1, k);
    }
  }

  /** fat16_read_file reports an error if and only if no entry carries the name, or the first one that does
      has 2 GiB or more. */
  lemma ReadFailsExactlyWhen(g: Geometry, d: Disk, name: Name, maxSize: nat)
    requires Sound(g, d) && name.Shaped() && 0 !in name.base && 0 !in name.ext
    ensures ReadFile(g, d, name, maxSize).0 < 0 <==>
            || Absent(Dir(g, d), name)
            || exists k :: FirstWith(Dir(g, d), name, k) && FileSize(Dir(g, d)[k]) >= 0x8000_0000
  {
    hide ReadFile, CarriesName, Dir;
    SoundIsLaid(g, d);
    ReadFollowsDirectory(g, d, name, maxSize);
    if !Absent(Dir(g, d), name) {
      var k :| 0 <= k < g.Slots() && CarriesName(Dir(g, d)[k], name);
      var first := FirstOf(Dir(g, d), name, k);
      assert FirstWith(Dir(g, d), name, first);
    }
  }

  lemma {:induction false} FirstOf(dir: Directory, name: Name, k: nat) returns (first: nat)
    requires k < |dir| && CarriesName(dir[k], name)
    ensures FirstWith(dir, name, first)
    decreases k
  {
    hide CarriesName;
    if j :| 0 <= j < k && CarriesName(dir[j], name) {
      first := FirstOf(dir, name, j);
    } else {
      first := k;
    }
  }

  lemma SoundIsLaid(g: Geometry, d: Disk)
    requires Sound(g, d)
    ensures DiskOk(d) && Laid(g, |d|) && Terminated(Dir(g, d))
  {
  }

  // ----- The invariant -----

  /** A freshly formatted volume, with an empty root directory, meets the invariant. */
  lemma EmptyVolumeIsSound(g: Geometry, d: Disk)
    requires DiskOk(d) && Laid(g, |d|) && Mirrored(g, d)
    requires forall i :: 0 <= i < g.Slots() ==> Dir(g, d)[i][0] == FREE
    ensures Sound(g, d)
  {
    hide Laid, Fat;
    var chains: seq<seq<nat>> := seq(g.Slots(), _ => []);
    assert VolumeOk(g, d, chains);
  }

  /** Every write keeps the volume invariant: live chains stay in range, acyclic, pairwise disjoint
      and properly ended, both tables agree and the directory stays terminated. */
  lemma WriteKeepsVolume(g: Geometry, d: Disk, name: Name, data: seq<byte>)
    requires Sound(g, d) && name.Storable() && |data| < 0x1_0000_0000
    ensures Sound(g, WriteFile(g, d, name, data).0)
    ensures WriteFile(g, d, name, data).0[0] == d[0]
  {
    SoundIsLaid(g, d);
    WriteEffect(g, d, name, data);
    var (d', code) := WriteFile(g, d, name, data);
    hide WriteFile;
    WrittenKeepsVolume(g, d, d', code, name, data);
  }

  lemma WrittenKeepsVolume(g: Geometry, d: Disk, d': Disk, code: int, name: Name, data: seq<byte>)
    requires Sound(g, d) && DiskOk(d') && |d'| == |d|
    requires name.Storable() && |data| < 0x1_0000_0000
    requires Written(g, d, d', code, name, data)
    ensures Sound(g, d')
  {
    var chains :| VolumeOk(g, d, chains);
    var chain, slot, dir := Taken(g, d, data), FreeSlot(Dir(g, d), 0), Dir(g, d);
    hide LoadChain, NewEntry, ClustersNeeded, Laid, FreeSlot;
    OldChains(g, d, d', chain, dir, chains);
    if code == 0 {
      var e := NewEntry(name, chain[0], |data|);
      NewEntryIsFoundByItsName(name, chain[0], |data|, name);
      InsertKeepsTerminated(dir, e);
      NewChain(Fat(g, d'), dir, chains, slot, e, chain);
      assert VolumeOk(g, d', chains[slot := chain]);
    } else {
      assert VolumeOk(g, d', chains);
    }
  }

  lemma OldChains(g: Geometry, d: Disk, d': Disk, taken: seq<nat>, dir: Directory, chains: seq<seq<nat>>)
    requires DiskOk(d) && DiskOk(d') && Laid(g, |d|) && |d'| == |d| && Stored(g, d, d', taken)
    requires ChainsOf(Fat(g, d), dir, chains)
    ensures ChainsOf(Fat(g, d'), dir, chains)
    ensures forall i :: 0 <= i < |chains| ==> Members(chains[i]) !! Members(taken)
  {
    forall i | 0 <= i < |chains|
      ensures Members(chains[i]) !! Members(taken)
      ensures Live(dir[i]) ==> IsChain(Fat(g, d'), FirstCluster(dir[i]), chains[i])
    {
      if Live(dir[i]) {
        OtherChainsSurvive(Fat(g, d), Fat(g, d'), taken, FirstCluster(dir[i]), chains[i]);
      }
    }
  }

  lemma NewChain(f: seq<nat>, dir: Directory, chains: seq<seq<nat>>, slot: nat, e: Entry, chain: seq<nat>)
    requires ChainsOf(f, dir, chains) && slot < |dir| && Live(e)
    requires chain != [] && FirstCluster(e) == chain[0] && Path(f, chain[0], chain)
    requires forall i :: 0 <= i < |chains| ==> Members(chains[i]) !! Members(chain)
    ensures ChainsOf(f, dir[slot := e], chains[slot := chain])
  {
  }

  // ----- Runs -----

  datatype Write = Write(name: Name, data: seq<byte>)
  {
    predicate Ok() { name.Storable() && |data| < 0x1_0000_0000 }
  }

  predicate RunOk(run: seq<Write>) {
    forall i :: 0 <= i < |run| ==> run[i].Ok()
  }

  function Step(g: Geometry, d: Disk, w: Write): (r: (Disk, int))
    requires DiskOk(d) && Laid(g, |d|) && w.Ok()
    ensures DiskOk(r.0) && |r.0| == |d|
  {
    WriteFile(g, d, w.name, w.data)
  }

  /** The disk after a run of writes, whatever their return codes. */
  function After(g: Geometry, d: Disk, run: seq<Write>): (r: Disk)
    requires DiskOk(d) && Laid(g, |d|) && RunOk(run)
    ensures DiskOk(r) && |r| == |d|
    decreases |run|
  {
    if run == [] then d else After(g, Step(g, d, run[0]).0, run[1..])
  }

  /** The return code of the i-th write of the run. */
  function CodeOf(g: Geometry, d: Disk, run: seq<Write>, i: nat): int
    requires DiskOk(d) && Laid(g, |d|) && RunOk(run) && i < |run|
    decreases i
  {
    if i == 0 then Step(g, d, run[0]).1 else CodeOf(g, Step(g, d, run[0]).0, run[1..], i - 1)
  }

  /** No write of the run stores `name`, except possibly the one at index `but`. */
  predicate NeverStores(g: Geometry, d: Disk, run: seq<Write>, name: Name, but: int)
    requires DiskOk(d) && Laid(g, |d|) && RunOk(run)
  {
    forall i :: 0 <= i < |run| && i != but && run[i].name == name ==> CodeOf(g, d, run, i) != 0
  }

  lemma NeverStoresTail(g: Geometry, d: Disk, run: seq<Write>, name: Name, but: int)
    requires DiskOk(d) && Laid(g, |d|) && RunOk(run) && run != []
    requires NeverStores(g, d, run, name, but)
    ensures NeverStores(g, Step(g, d, run[0]).0, run[1..], name, but - 1)
    ensures but != 0 && run[0].name == name ==> Step(g, d, run[0]).1 != 0
  {
    hide Step, Laid, DiskOk;
    var d1 := Step(g, d, run[0]).0;
    forall i | 0 <= i < |run[1..]| && i != but - 1 && run[1..][i].name == name
      ensures CodeOf(g, d1, run[1..], i) != 0
    {
      assert run[i + 1].name == name;
      assert CodeOf(g, d, run, i + 1) == CodeOf(g, d1, run[1..], i);
    }
    assert CodeOf(g, d, run, 0) == Step(g, d, run[0]).1;
  }

  /** The volume invariant holds in every state every run of writes reaches, and the boot sector,
      with the geometry in it, is never touched. */
  lemma {:induction false} RunKeepsVolume(g: Geometry, d: Disk, run: seq<Write>)
    requires Sound(g, d) && RunOk(run)
    ensures Sound(g, After(g, d, run))
    ensures After(g, d, run)[0] == d[0]
    decreases |run|
  {
    if run != [] {
      WriteKeepsVolume(g, d, run[0].name, run[0].data);
      RunKeepsVolume(g, Step(g, d, run[0]).0, run[1..]);
    }
  }

  /** A name that no write of the run stores reads at the end as at the start. */
  lemma {:induction false} RunLeavesOthers(g: Geometry, d: Disk, run: seq<Write>, other: Name, maxSize: nat)
    requires Sound(g, d) && RunOk(run) && other.Shaped()
    requires NeverStores(g, d, run, other, -1)
    ensures ReadFile(g, After(g, d, run), other, maxSize) == ReadFile(g, d, other, maxSize)
    decreases |run|
  {
    if run != [] {
      SoundIsLaid(g, d);
      NeverStoresTail(g, d, run, other, -1);
      WriteLeavesOthers(g, d, run[0].name, run[0].data, other, maxSize);
      WriteKeepsVolume(g, d, run[0].name, run[0].data);
      var d1 := Step(g, d, run[0]).0;
      SoundIsLaid(g, d1);
      assert NeverStores(g, d1, run[1..], other, -1);
      RunLeavesOthers(g, d1, run[1..], other, maxSize);
    }
  }

  lemma FreshWriteReads(g: Geometry, d: Disk, w: Write, maxSize: nat)
    requires Sound(g, d) && w.Ok()
    requires Lookup(Dir(g, d), w.name, 0) == g.Slots()
    requires Step(g, d, w).1 == 0
    ensures ReadFile(g, Step(g, d, w).0, w.name, maxSize)
            == (AsInt32(|w.data|), w.data[..Min(|w.data|, maxSize)])
  {
    SoundIsLaid(g, d);
    WriteThenRead(g, d, w.name, w.data, maxSize);
    WriteEffect(g, d, w.name, w.data);
  }

  /** A write that does not store `name` does not make it live. */
  lemma NotLiveStays(g: Geometry, d: Disk, w: Write, name: Name)
    requires Sound(g, d) && w.Ok() && name.Shaped()
    requires Lookup(Dir(g, d), name, 0) == g.Slots()
    requires w.name == name ==> Step(g, d, w).1 != 0
    ensures Lookup(Dir(g, Step(g, d, w).0), name, 0) == g.Slots()
  {
    SoundIsLaid(g, d);
    WriteEffect(g, d, w.name, w.data);
    var (d', code) := Step(g, d, w);
    hide WriteFile, Written, Laid, Lookup, FreeSlot, DiskOk, Sound;
    LookupAfterWritten(g, d, d', code, w.name, w.data, name);
  }

  /** Files of a run read back: the only successful write of a name that was not live before is
      what reading the name returns at the end of the run, whatever else the run wrote. */
  lemma {:induction false} RunReadsBack(g: Geometry, d: Disk, run: seq<Write>, i: nat, maxSize: nat)
    requires Sound(g, d) && RunOk(run) && i < |run|
    requires Lookup(Dir(g, d), run[i].name, 0) == g.Slots()
    requires CodeOf(g, d, run, i) == 0
    requires NeverStores(g, d, run, run[i].name, i)
    ensures var data := run[i].data;
            ReadFile(g, After(g, d, run), run[i].name, maxSize) == (AsInt32(|data|), data[..Min(|data|, maxSize)])
    decreases |run|
  {
    SoundIsLaid(g, d);
    NeverStoresTail(g, d, run, run[i].name, i);
    WriteKeepsVolume(g, d, run[0].name, run[0].data);
    var d1 := Step(g, d, run[0]).0;
    SoundIsLaid(g, d1);
    hide ReadFile, Sound, Laid, DiskOk, Lookup, NeverStores;
    if i == 0 {
      FreshWriteReads(g, d, run[0], maxSize);
      assert NeverStores(g, d1, run[1..], run[0].name, -1);
      RunLeavesOthers(g, d1, run[1..], run[0].name, maxSize);
    } else {
      NotLiveStays(g, d, run[0], run[i].name);
      assert run[1..][i - 1] == run[i];
      RunReadsBack(g, d1, run[1..], i - 1, maxSize);
    }
  }
}
