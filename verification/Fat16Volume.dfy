/** fat16_write_file and fat16_read_file on a whole volume, the volume invariant, and what the phases
    of a write do below the directory. */
module Fat16Volume {
  import opened Bytes
  import opened Fat16Layout
  import opened Fat16Chains
  import opened Fat16Data
  import opened Fat16Directory

  // ----- The two operations -----

  /** Clusters for `size` bytes, in the driver's 32-bit arithmetic. */
  function ClustersNeeded(g: Geometry, size: nat): nat
    requires 1 <= g.sectorsPerCluster
  {
    Quotient(Wrap32(size + g.ClusterBytes() - 1), g.ClusterBytes())
  }

  function Quotient(x: nat, cb: nat): (q: nat)
    requires cb > 0
  {
    x / cb
  }

  /** The first two phases of a write: allocate n clusters, and fill them if there were enough. */
  function Fill(g: Geometry, d: Disk, n: nat, data: seq<byte>): (r: (Disk, seq<nat>))
    requires DiskOk(d) && Laid(g, |d|)
    ensures DiskOk(r.0) && |r.0| == |d|
    ensures |r.1| <= n
  {
    var (d1, chain) := Allocate(g, d, n, 0);
    (if |chain| < n || n == 0 then d1 else StoreChain(g, d1, chain[0], data), chain)
  }

  /** fat16_write_file: the disk afterwards and the return code. */
  function WriteFile(g: Geometry, d: Disk, name: Name, data: seq<byte>): (r: (Disk, int))
    requires DiskOk(d) && Laid(g, |d|) && name.Shaped() && |data| < 0x1_0000_0000
    ensures DiskOk(r.0) && |r.0| == |d|
    ensures r.1 == 0 || r.1 == -1
  {
    var needed := ClustersNeeded(g, |data|);
    if needed == 0 then (d, -1) else
    var (d1, chain) := Fill(g, d, needed, data);
    var slot := FreeSlot(Dir(g, d1), 0);
    if |chain| < needed || slot == g.Slots() then (d1, -1) else
    AllocateBuildsChain(g, d, needed, 0);
    (PutEntry(g, d1, slot, NewEntry(name, chain[0], |data|)), 0)
  }

  /** fat16_read_file: the return code and the bytes it stores in the caller's buffer. */
  function ReadFile(g: Geometry, d: Disk, name: Name, maxSize: nat): (r: (int, seq<byte>))
    requires DiskOk(d) && 1 <= g.sectorsPerCluster && name.Shaped()
    ensures |r.1| <= maxSize
  {
    var slot := Lookup(Dir(g, d), name, 0);
    if slot == g.Slots() then (-1, []) else
    var e := Dir(g, d)[slot];
    (AsInt32(FileSize(e)), LoadChain(g, d, FirstCluster(e), Min(FileSize(e), maxSize)))
  }

  // ----- The volume invariant -----

  /** chains[i] is the cluster chain of the live entry in slot i, and empty for other slots. */
  predicate ChainsOf(f: seq<nat>, dir: Directory, chains: seq<seq<nat>>) {
    && |chains| == |dir|
    && (forall i :: 0 <= i < |dir| && Live(dir[i]) ==> IsChain(f, FirstCluster(dir[i]), chains[i]))
    && (forall i :: 0 <= i < |dir| && !Live(dir[i]) ==> chains[i] == [])
    && (forall i, j :: 0 <= i < j < |dir| ==> Members(chains[i]) !! Members(chains[j]))
  }

  /** Live chains are in range, acyclic, pairwise disjoint and properly ended; the two table copies
      agree; and the directory is terminated. */
  predicate VolumeOk(g: Geometry, d: Disk, chains: seq<seq<nat>>) {
    && DiskOk(d)
    && Laid(g, |d|)
    && Mirrored(g, d)
    && Terminated(Dir(g, d))
    && ChainsOf(Fat(g, d), Dir(g, d), chains)
  }

  ghost predicate Sound(g: Geometry, d: Disk) {
    exists chains :: VolumeOk(g, d, chains)
  }

  // ----- Arithmetic of sizes -----

  /** The cluster count is ceil(size / cluster bytes). It is 0, and the write refused, exactly for an
      empty file or one so large that the 32-bit rounding wraps. */
  lemma NeededIsCeiling(g: Geometry, size: nat)
    requires 1 <= g.sectorsPerCluster < 0x100 && size < 0x1_0000_0000
    ensures var n, cb := ClustersNeeded(g, size), g.ClusterBytes();
            if size == 0 || size + cb > 0x1_0000_0000 then n == 0
            else 1 <= n && !Fits(size, n - 1, cb) && Fits(size, n, cb)
  {
    var cb := g.ClusterBytes();
    var x := size + cb - 1;
    if x >= 0x1_0000_0000 {
      assert Wrap32(x) == x - 0x1_0000_0000 < cb;
      QuotientBounds(Wrap32(x), cb);
    } else {
      QuotientBounds(x, cb);
    }
  }

  lemma QuotientBounds(x: nat, cb: nat)
    requires cb > 0
    ensures var q := Quotient(x, cb);
            && (x < cb ==> q == 0)
            && (x >= cb ==> q >= 1)
            && (q - 1) * cb + cb <= x < q * cb + cb
  {
    var q := Quotient(x, cb);
    assert x == q * cb + x % cb;
    assert (q - 1) * cb + cb == q * cb;
  }

  // ----- What one write does below the directory -----

  /** A chain was allocated, and no sector changed outside the tables, the root directory and that
      chain's clusters. */
  predicate Stored(g: Geometry, d: Disk, d': Disk, chain: seq<nat>)
    requires DiskOk(d) && DiskOk(d') && Laid(g, |d|) && |d'| == |d|
  {
    && Allocated(Fat(g, d), Fat(g, d'), 0, chain)
    && (Mirrored(g, d) ==> Mirrored(g, d'))
    && (forall i :: 0 <= i < g.fatStart ==> d'[i] == d[i])
    && (forall x :: 2 <= x < g.FatLength() && x !in chain ==> SameClusters(g, d, d', [x]))
  }

  lemma FillEffect(g: Geometry, d: Disk, n: nat, data: seq<byte>)
    requires DiskOk(d) && Laid(g, |d|)
    requires Fits(|data|, n, g.ClusterBytes())
    ensures var (d', chain) := Fill(g, d, n, data);
            && Stored(g, d, d', chain)
            && Dir(g, d') == Dir(g, d)
            && (|chain| == n > 0 ==> LoadChain(g, d', chain[0], |data|) == data)
  {
    var (d1, chain) := Allocate(g, d, n, 0);
    AllocateBuildsChain(g, d, n, 0);
    AllocationStored(g, d, d1, chain);
    if |chain| == n > 0 {
      StoreThenLoad(g, d1, chain[0], chain, data);
      DataStored(g, d, d1, StoreChain(g, d1, chain[0], data), chain);
    }
  }

  lemma AllocationStored(g: Geometry, d: Disk, d1: Disk, chain: seq<nat>)
    requires DiskOk(d) && DiskOk(d1) && Laid(g, |d|)
    requires SameOutsideFat(g, d, d1)
    requires Allocated(Fat(g, d), Fat(g, d1), 0, chain)
    requires Mirrored(g, d) ==> Mirrored(g, d1)
    ensures Stored(g, d, d1, chain)
    ensures Dir(g, d1) == Dir(g, d)
  {
    DirUnchanged(g, d, d1);
    forall x | 2 <= x < g.FatLength()
      ensures SameClusters(g, d, d1, [x])
    {
      ClusterOrder(g, x, g.FatLength());
    }
  }

  lemma DataStored(g: Geometry, d: Disk, d1: Disk, d2: Disk, chain: seq<nat>)
    requires DiskOk(d) && DiskOk(d1) && DiskOk(d2) && Laid(g, |d|) && |d| == |d1| == |d2|
    requires Stored(g, d, d1, chain) && Dir(g, d1) == Dir(g, d)
    requires OnlyChainChanged(g, d1, d2, chain)
    ensures Stored(g, d, d2, chain) && Dir(g, d2) == Dir(g, d)
  {
    OnlyChainChangedKeeps(g, d1, d2, chain, 0);
    DirUnchanged(g, d1, d2);
    MirroredKept(g, d1, d2);
    hide OnlyChainChanged, Laid, Mirrored, DiskOk;
    forall x | 2 <= x < g.FatLength() && x !in chain
      ensures SameClusters(g, d, d2, [x])
    {
      OnlyChainChangedKeeps(g, d1, d2, chain, x);
      assert SameClusters(g, d, d1, [x]);
    }
  }

  lemma MirroredKept(g: Geometry, d: Disk, d': Disk)
    requires TablesLaid(g, |d|) && |d'| == |d|
    requires forall i :: g.fatStart <= i < g.rootStart ==> d'[i] == d[i]
    ensures Mirrored(g, d) ==> Mirrored(g, d')
  {
  }

  /** Adding the directory entry disturbs neither tables nor data. */
  lemma EntryStored(g: Geometry, d: Disk, d1: Disk, chain: seq<nat>, slot: nat, e: Entry)
    requires DiskOk(d) && DiskOk(d1) && Laid(g, |d|) && |d1| == |d| && slot < g.Slots()
    requires Stored(g, d, d1, chain)
    ensures var d2 := PutEntry(g, d1, slot, e);
            && Stored(g, d, d2, chain)
            && Fat(g, d2) == Fat(g, d1)
            && Dir(g, d2) == Dir(g, d1)[slot := e]
            && forall i :: g.dataStart <= i < |d| ==> d2[i] == d1[i]
  {
    var d2 := PutEntry(g, d1, slot, e);
    PutEntryChangesOneSlot(g, d1, slot, e);
    FatUnchanged(g, d1, d2);
    MirroredKept(g, d1, d2);
    hide PutEntry, Mirrored;
    forall x | 2 <= x < g.FatLength() && x !in chain
      ensures SameClusters(g, d, d2, [x])
    {
      ClusterOrder(g, x, g.FatLength());
      assert SameClusters(g, d, d1, [x]);
    }
  }

  /** A file that lies on other clusters loads as before. */
  lemma OtherFileLoads(g: Geometry, d: Disk, d': Disk, taken: seq<nat>, first: nat, chain: seq<nat>, n: nat)
    requires DiskOk(d) && DiskOk(d') && Laid(g, |d|) && |d'| == |d|
    requires Stored(g, d, d', taken)
    requires IsChain(Fat(g, d), first, chain)
    ensures LoadChain(g, d', first, n) == LoadChain(g, d, first, n)
    ensures IsChain(Fat(g, d'), first, chain)
    ensures Members(chain) !! Members(taken)
  {
    OtherChainsSurvive(Fat(g, d), Fat(g, d'), taken, first, chain);
    if chain != [] {
      PathIsOccupied(Fat(g, d), first, chain);
      forall x | x in chain
        ensures FatGet(g, d', x) == FatGet(g, d, x) && SameClusters(g, d, d', [x])
      {
        assert x in Members(chain);
        assert Fat(g, d')[x] == Fat(g, d)[x];
      }
      SameClustersTogether(g, d, d', chain);
      LoadChainFrame(g, d, d', first, chain, n);
    }
  }

  lemma SameClustersTogether(g: Geometry, d: Disk, d': Disk, chain: seq<nat>)
    requires |d'| == |d|
    requires forall x :: x in chain ==> SameClusters(g, d, d', [x])
    ensures SameClusters(g, d, d', chain)
  {
    forall x, i | x in chain && 0 <= i < |d| && InCluster(g, x, i)
      ensures d'[i] == d[i]
    {
      assert x in [x];
    }
  }
}
