/** File contents: sectors of a cluster, and clusters along a chain. */
module Fat16Data {
  import opened Bytes
  import opened Fat16Layout
  import opened Fat16Chains

  /** The sector the store loop fills next: up to 512 bytes of data, zero-padded. */
  function NextSector(data: seq<byte>): (s: seq<byte>)
    ensures |s| == 512
    ensures s[..Min(|data|, 512)] == data[..Min(|data|, 512)]
  {
    var t := Min(|data|, 512);
    data[..t] + Zeros(512 - t)
  }

  /** The store loop over the sectors of one cluster. */
  function WriteRun(d: Disk, lba: nat, count: nat, data: seq<byte>): (r: Disk)
    requires DiskOk(d)
    ensures DiskOk(r) && |r| == |d|
    ensures forall i :: 0 <= i < |d| && !(lba <= i < lba + count) ==> r[i] == d[i]
    decreases count
  {
    if count == 0 || data == [] then d else
    WriteRun(WriteSector(d, lba, NextSector(data)), lba + 1, count - 1, data[Min(|data|, 512)..])
  }

  /** The load loop over the sectors of one cluster, up to n bytes. */
  function ReadRun(d: Disk, lba: nat, count: nat, n: nat): (r: seq<byte>)
    requires DiskOk(d)
    ensures |r| == Min(n, count * 512)
    decreases count
  {
    if count == 0 || n == 0 then [] else
    var t := Min(n, 512);
    ReadSector(d, lba)[..t] + ReadRun(d, lba + 1, count - 1, n - t)
  }

  lemma {:induction false} ReadRunFrame(d: Disk, d': Disk, lba: nat, count: nat, n: nat)
    requires DiskOk(d) && DiskOk(d') && lba + count <= |d| == |d'|
    requires forall i :: lba <= i < lba + count ==> d'[i] == d[i]
    ensures ReadRun(d', lba, count, n) == ReadRun(d, lba, count, n)
    decreases count
  {
    if count != 0 && n != 0 {
      ReadRunFrame(d, d', lba + 1, count - 1, n - Min(n, 512));
    }
  }

  lemma {:induction false} WriteThenReadRun(d: Disk, lba: nat, count: nat, data: seq<byte>)
    requires DiskOk(d) && lba + count <= |d|
    ensures var t := Min(|data|, count * 512);
            ReadRun(WriteRun(d, lba, count, data), lba, count, t) == data[..t]
    decreases count
  {
    hide NextSector, ReadRun;
    if count != 0 && data != [] {
      var d1 := WriteSector(d, lba, NextSector(data));
      var rest := data[Min(|data|, 512)..];
      WriteThenReadRun(d1, lba + 1, count - 1, rest);
      var d2 := WriteRun(d1, lba + 1, count - 1, rest);
      assert d2[lba] == NextSector(data);
      NextSectorHolds(data);
      ReadRunCons(d2, lba, count, data);
    }
  }

  lemma NextSectorHolds(data: seq<byte>)
    ensures var t := Min(|data|, 512);
            NextSector(data)[..t] == data[..t]
  {
  }

  lemma ReadRunCons(d: Disk, lba: nat, count: nat, data: seq<byte>)
    requires DiskOk(d) && lba < |d| && count != 0 && data != []
    requires var t := Min(|data|, 512);
             && d[lba][..t] == data[..t]
             && var k := Min(|data| - t, (count - 1) * 512);
                ReadRun(d, lba + 1, count - 1, k) == data[t..][..k]
    ensures var n := Min(|data|, count * 512);
            ReadRun(d, lba, count, n) == data[..n]
  {
    var t := Min(|data|, 512);
    var k := Min(|data| - t, (count - 1) * 512);
    TwoParts(data, t, k);
  }

  lemma TwoParts(data: seq<byte>, t: nat, k: nat)
    requires t + k <= |data|
    ensures data[..t] + data[t..][..k] == data[..t + k]
  {
  }

  /** The data loop of fat16_write_file. */
  function StoreChain(g: Geometry, d: Disk, c: nat, data: seq<byte>): (r: Disk)
    requires DiskOk(d) && 1 <= g.sectorsPerCluster
    ensures DiskOk(r) && |r| == |d|
    decreases |data|
  {
    if c < 2 || c >= END_OF_CHAIN || data == [] then d else
    var d1 := WriteRun(d, g.Lba(c), g.sectorsPerCluster, data);
    StoreChain(g, d1, FatGet(g, d1, c), data[Min(|data|, g.ClusterBytes())..])
  }

  /** The data loop of fat16_read_file: up to n bytes along the chain from cluster c. It is defined
      on every table, cyclic ones included, because each cluster takes at least one byte. */
  function LoadChain(g: Geometry, d: Disk, c: nat, n: nat): (r: seq<byte>)
    requires DiskOk(d) && 1 <= g.sectorsPerCluster
    ensures |r| <= n
    decreases n
  {
    if c < 2 || c >= END_OF_CHAIN || n == 0 then [] else
    var t := Min(n, g.ClusterBytes());
    ReadRun(d, g.Lba(c), g.sectorsPerCluster, t) + LoadChain(g, d, FatGet(g, d, c), n - t)
  }

  /** Sector i belongs to cluster x. */
  predicate InCluster(g: Geometry, x: nat, i: nat) {
    2 <= x && g.Lba(x) <= i < g.Lba(x) + g.sectorsPerCluster
  }

  predicate SameClusters(g: Geometry, d: Disk, d': Disk, chain: seq<nat>) {
    && |d'| == |d|
    && forall x, i :: x in chain && 0 <= i < |d| && InCluster(g, x, i) ==> d'[i] == d[i]
  }

  /** Loading looks at the chain's own table entries and sectors only. */
  lemma {:induction false} LoadChainFrame(g: Geometry, d: Disk, d': Disk, c: nat, chain: seq<nat>, n: nat)
    requires DiskOk(d) && DiskOk(d') && Laid(g, |d|)
    requires Path(Fat(g, d), c, chain)
    requires forall x :: x in chain && x < g.FatLength() ==> FatGet(g, d', x) == FatGet(g, d, x)
    requires SameClusters(g, d, d', chain)
    ensures LoadChain(g, d', c, n) == LoadChain(g, d, c, n)
    decreases |chain|
  {
    hide ReadRun, FatGet, Laid;
    if chain != [] && n != 0 {
      var t := Min(n, g.ClusterBytes());
      FirstClusterStays(g, d, d', c, chain, t);
      LoadChainFrame(g, d, d', FatGet(g, d, c), chain[1..], n - t);
    }
  }

  /** Clusters are disjoint from one another and from the tables. */
  lemma ClustersApart(g: Geometry, sectors: nat, x: nat, y: nat, i: nat)
    requires Laid(g, sectors)
    requires 2 <= x < g.FatLength() && 2 <= y < g.FatLength() && x != y
    requires InCluster(g, x, i)
    ensures !InCluster(g, y, i)
    ensures g.dataStart <= i < sectors
  {
    ClusterOrder(g, x, g.FatLength());
    if InCluster(g, y, i) {
      ClusterSectorsDisjoint(g, sectors, x, i - g.Lba(x), y, i - g.Lba(y));
    }
  }

  /** Storing changes the sectors of the chain's clusters only. */
  predicate OnlyChainChanged(g: Geometry, d: Disk, d': Disk, chain: seq<nat>) {
    && |d'| == |d|
    && forall i :: 0 <= i < |d| && (forall x :: x in chain ==> !InCluster(g, x, i)) ==> d'[i] == d[i]
  }

  lemma OnlyChainChangedKeeps(g: Geometry, d: Disk, d': Disk, chain: seq<nat>, y: nat)
    requires DiskOk(d) && DiskOk(d') && Laid(g, |d|)
    requires OnlyChainChanged(g, d, d', chain)
    requires forall x :: x in chain ==> 2 <= x < g.FatLength()
    ensures forall i :: 0 <= i < g.dataStart ==> d'[i] == d[i]
    ensures 2 <= y < g.FatLength() && y !in chain ==> SameClusters(g, d, d', [y])
    ensures Fat(g, d') == Fat(g, d)
  {
    forall i | 0 <= i < g.dataStart
      ensures d'[i] == d[i]
    {
      forall x | x in chain
        ensures !InCluster(g, x, i)
      {
        ClusterOrder(g, x, g.FatLength());
      }
    }
    FatUnchanged(g, d, d');
    if 2 <= y < g.FatLength() && y !in chain {
      forall i | 0 <= i < |d| && InCluster(g, y, i)
        ensures d'[i] == d[i]
      {
        forall x | x in chain
          ensures !InCluster(g, x, i)
        {
          ClustersApart(g, |d|, y, x, i);
        }
      }
    }
  }

  predicate Fits(size: nat, clusters: nat, clusterBytes: nat) {
    size <= clusters * clusterBytes
  }

  /** Storing along a chain that is long enough and loading the same number of bytes gives the data
      back, and only the chain's own sectors changed. */
  lemma {:induction false} StoreThenLoad(g: Geometry, d: Disk, c: nat, chain: seq<nat>, data: seq<byte>)
    requires DiskOk(d) && Laid(g, |d|)
    requires Path(Fat(g, d), c, chain)
    requires Fits(|data|, |chain|, g.ClusterBytes())
    ensures LoadChain(g, StoreChain(g, d, c, data), c, |data|) == data
    ensures OnlyChainChanged(g, d, StoreChain(g, d, c, data), chain)
    decreases |chain|
  {
    hide Laid, OnlyChainChanged, WriteRun, ReadRun, DiskOk, FatGet, Fits, StoreChain, LoadChain;
    if data == [] {
      NothingStored(g, d, c, chain);
    } else {
      CapacityOfTail(|chain|, g.ClusterBytes(), |data|);
      var t := Min(|data|, g.ClusterBytes());
      StoreFirstCluster(g, d, c, data);
      var d1 := WriteRun(d, g.Lba(c), g.sectorsPerCluster, data);
      var next, head, rest := Fat(g, d1)[c], data[..t], data[t..];
      StoreThenLoad(g, d1, next, chain[1..], rest);
      var d' := StoreChain(g, d1, next, rest);
      ClusterThenRest(g, d, d1, d', c, chain, head, rest);
      assert head + rest == data;
      OnlyChainChangedCons(g, d, d1, d', c, chain);
    }
  }

  // ----- Where the bytes lie -----

  /** Byte j of cluster x. */
  function ClusterByte(g: Geometry, d: Disk, x: nat, j: nat): byte
    requires DiskOk(d) && 2 <= x && j < g.ClusterBytes() && g.Lba(x) + g.sectorsPerCluster <= |d|
  {
    d[g.Lba(x) + j / 512][j % 512]
  }

  /** Byte j of the i-th cluster is byte i * cb + j of the file. */
  function FileOffset(i: nat, j: nat, cb: nat): nat { i * cb + j }

  lemma {:induction false} ReadRunByte(d: Disk, lba: nat, count: nat, n: nat, k: nat)
    requires DiskOk(d) && lba + count <= |d| && k < n <= count * 512
    ensures ReadRun(d, lba, count, n)[k] == d[lba + k / 512][k % 512]
    decreases count
  {
    if k >= 512 {
      ReadRunByte(d, lba + 1, count - 1, n - 512, k - 512);
      assert (k - 512) / 512 == k / 512 - 1 && (k - 512) % 512 == k % 512;
    }
  }

  lemma {:induction false} WriteRunByte(d: Disk, lba: nat, count: nat, data: seq<byte>, k: nat)
    requires DiskOk(d) && lba + count <= |d| && k < count * 512 && k / 512 * 512 < |data|
    ensures WriteRun(d, lba, count, data)[lba + k / 512][k % 512] == if k < |data| then data[k] else 0
    decreases count
  {
    hide NextSector;
    var d1 := WriteSector(d, lba, NextSector(data));
    var rest := data[Min(|data|, 512)..];
    NextSectorBytes(data);
    if k >= 512 {
      assert (k - 512) / 512 == k / 512 - 1 && (k - 512) % 512 == k % 512;
      WriteRunByte(d1, lba + 1, count - 1, rest, k - 512);
    } else {
      assert WriteRun(d1, lba + 1, count - 1, rest)[lba] == NextSector(data);
    }
  }

  lemma NextSectorBytes(data: seq<byte>)
    ensures forall k :: 0 <= k < 512 ==> NextSector(data)[k] == if k < |data| then data[k] else 0
  {
  }

  lemma ClusterFits(g: Geometry, sectors: nat, x: nat)
    requires Laid(g, sectors) && 2 <= x < g.FatLength()
    ensures g.Lba(x) + g.sectorsPerCluster <= sectors
  {
    ClusterOrder(g, x, g.FatLength());
  }

  /** Reading puts byte j of the i-th cluster of the chain at its place in the file. */
  lemma {:induction false} LoadedByte(g: Geometry, d: Disk, c: nat, chain: seq<nat>, n: nat, i: nat, j: nat)
    requires DiskOk(d) && Laid(g, |d|) && Path(Fat(g, d), c, chain) && Fits(n, |chain|, g.ClusterBytes())
    requires i < |chain| && j < g.ClusterBytes() && FileOffset(i, j, g.ClusterBytes()) < n
    ensures 2 <= chain[i] < g.FatLength() && g.Lba(chain[i]) + g.sectorsPerCluster <= |d|
    ensures FileOffset(i, j, g.ClusterBytes()) < |LoadChain(g, d, c, n)|
    ensures LoadChain(g, d, c, n)[FileOffset(i, j, g.ClusterBytes())] == ClusterByte(g, d, chain[i], j)
    decreases |chain|
  {
    hide ReadRun, FatGet, DiskOk;
    var cb := g.ClusterBytes();
    ClusterFits(g, |d|, c);
    OffsetSteps(i, j, cb);
    var t := Min(n, cb);
    CapacityOfTail(|chain|, cb, n);
    assert |ReadRun(d, g.Lba(c), g.sectorsPerCluster, t)| == t;
    if i == 0 {
      ReadRunByte(d, g.Lba(c), g.sectorsPerCluster, t, j);
    } else {
      LoadedByte(g, d, FatGet(g, d, c), chain[1..], n - t, i - 1, j);
    }
  }

  lemma OffsetSteps(i: nat, j: nat, cb: nat)
    ensures FileOffset(0, j, cb) == j
    ensures i > 0 ==> FileOffset(i, j, cb) == cb + FileOffset(i - 1, j, cb) >= cb
  {
    assert i * cb == (i - 1) * cb + cb;
  }

  /** Writing puts the bytes of the file at these places, and zeros behind the last one up to the end of
      its sector. */
  lemma {:induction false} StoredByte(g: Geometry, d: Disk, c: nat, chain: seq<nat>, data: seq<byte>, i: nat, j: nat)
    requires DiskOk(d) && Laid(g, |d|) && Path(Fat(g, d), c, chain) && Fits(|data|, |chain|, g.ClusterBytes())
    requires i < |chain| && j < g.ClusterBytes() && FileOffset(i, j / 512 * 512, g.ClusterBytes()) < |data|
    ensures 2 <= chain[i] < g.FatLength() && g.Lba(chain[i]) + g.sectorsPerCluster <= |d|
    ensures var k := FileOffset(i, j, g.ClusterBytes());
            ClusterByte(g, StoreChain(g, d, c, data), chain[i], j) == if k < |data| then data[k] else 0
    decreases |chain|
  {
    hide WriteRun, FatGet, Laid, DiskOk, OnlyChainChanged, SameClusters;
    var cb := g.ClusterBytes();
    ClusterFits(g, |d|, c);
    OffsetSteps(i, j, cb);
    OffsetSteps(i, j / 512 * 512, cb);
    CapacityOfTail(|chain|, cb, |data|);
    StoreFirstCluster(g, d, c, data);
    var t := Min(|data|, cb);
    var d1 := WriteRun(d, g.Lba(c), g.sectorsPerCluster, data);
    var next := Fat(g, d1)[c];
    if i == 0 {
      WriteRunByte(d, g.Lba(c), g.sectorsPerCluster, data, j);
      StoreThenLoad(g, d1, next, chain[1..], data[t..]);
      ByteStays(g, d1, StoreChain(g, d1, next, data[t..]), c, chain, j);
    } else {
      StoredByte(g, d1, next, chain[1..], data[t..], i - 1, j);
    }
  }

  lemma ByteStays(g: Geometry, d1: Disk, d': Disk, c: nat, chain: seq<nat>, j: nat)
    requires DiskOk(d1) && DiskOk(d') && Laid(g, |d1|) && |d'| == |d1|
    requires Path(Fat(g, d1), c, chain) && chain != [] && j < g.ClusterBytes()
    requires OnlyChainChanged(g, d1, d', chain[1..])
    ensures g.Lba(c) + g.sectorsPerCluster <= |d1|
    ensures ClusterByte(g, d', c, j) == ClusterByte(g, d1, c, j)
  {
    hide OnlyChainChanged, FatGet;
    PathIsOccupied(Fat(g, d1), Fat(g, d1)[c], chain[1..]);
    OnlyChainChangedKeeps(g, d1, d', chain[1..], c);
    ClusterFits(g, |d1|, c);
    assert c in [c] && InCluster(g, c, g.Lba(c) + j / 512);
  }

  lemma NothingStored(g: Geometry, d: Disk, c: nat, chain: seq<nat>)
    requires DiskOk(d) && Laid(g, |d|)
    ensures LoadChain(g, StoreChain(g, d, c, []), c, 0) == []
    ensures OnlyChainChanged(g, d, StoreChain(g, d, c, []), chain)
  {
  }

  lemma ClusterThenRest(
    g: Geometry, d: Disk, d1: Disk, d': Disk, c: nat, chain: seq<nat>, head: seq<byte>, rest: seq<byte>)
    requires DiskOk(d) && DiskOk(d1) && DiskOk(d') && Laid(g, |d|) && |d| == |d1| == |d'|
    requires chain != [] && Fat(g, d1) == Fat(g, d) && Path(Fat(g, d), c, chain)
    requires 0 < |head| == Min(|head| + |rest|, g.ClusterBytes())
    requires ReadRun(d1, g.Lba(c), g.sectorsPerCluster, |head|) == head
    requires LoadChain(g, d', Fat(g, d)[c], |rest|) == rest
    requires OnlyChainChanged(g, d1, d', chain[1..])
    ensures LoadChain(g, d', c, |head| + |rest|) == head + rest
  {
    hide OnlyChainChanged, SameClusters, ReadRun, FatGet, LoadChain, DiskOk;
    PathIsOccupied(Fat(g, d), Fat(g, d)[c], chain[1..]);
    OnlyChainChangedKeeps(g, d1, d', chain[1..], c);
    FirstClusterStays(g, d1, d', c, [c], |head|);
    assert FatGet(g, d', c) == Fat(g, d')[c];
    LoadChainCons(g, d', c, head, rest);
  }

  lemma CapacityOfTail(clusters: nat, clusterBytes: nat, n: nat)
    requires 0 < n && Fits(n, clusters, clusterBytes)
    ensures clusters > 0
    ensures Fits(n - Min(n, clusterBytes), clusters - 1, clusterBytes)
  {
    assert clusters * clusterBytes == (clusters - 1) * clusterBytes + clusterBytes;
  }

  lemma LoadChainCons(g: Geometry, d: Disk, c: nat, head: seq<byte>, rest: seq<byte>)
    requires DiskOk(d) && 1 <= g.sectorsPerCluster && 2 <= c < END_OF_CHAIN
    requires 0 < |head| == Min(|head| + |rest|, g.ClusterBytes())
    requires ReadRun(d, g.Lba(c), g.sectorsPerCluster, |head|) == head
    requires LoadChain(g, d, FatGet(g, d, c), |rest|) == rest
    ensures LoadChain(g, d, c, |head| + |rest|) == head + rest
  {
  }

  lemma StoreFirstCluster(g: Geometry, d: Disk, c: nat, data: seq<byte>)
    requires DiskOk(d) && Laid(g, |d|) && 2 <= c < g.FatLength()
    ensures var d1 := WriteRun(d, g.Lba(c), g.sectorsPerCluster, data);
            var t := Min(|data|, g.ClusterBytes());
            && OnlyChainChanged(g, d, d1, [c])
            && Fat(g, d1) == Fat(g, d)
            && ReadRun(d1, g.Lba(c), g.sectorsPerCluster, t) == data[..t]
            && (data != [] ==> StoreChain(g, d, c, data) == StoreChain(g, d1, Fat(g, d1)[c], data[t..]))
  {
    hide ReadRun, WriteRun, FatGet;
    ClusterOrder(g, c, g.FatLength());
    WriteThenReadRun(d, g.Lba(c), g.sectorsPerCluster, data);
    var d1 := WriteRun(d, g.Lba(c), g.sectorsPerCluster, data);
    assert c in [c];
    OnlyChainChangedKeeps(g, d, d1, [c], c);
  }

  lemma FirstClusterStays(g: Geometry, d1: Disk, d': Disk, c: nat, chain: seq<nat>, n: nat)
    requires DiskOk(d1) && DiskOk(d') && Laid(g, |d1|) && 2 <= c < g.FatLength()
    requires SameClusters(g, d1, d', chain) && c in chain
    ensures ReadRun(d', g.Lba(c), g.sectorsPerCluster, n) == ReadRun(d1, g.Lba(c), g.sectorsPerCluster, n)
  {
    ClusterOrder(g, c, g.FatLength());
    assert forall i :: g.Lba(c) <= i < g.Lba(c) + g.sectorsPerCluster ==> InCluster(g, c, i) && d'[i] == d1[i];
    ReadRunFrame(d1, d', g.Lba(c), g.sectorsPerCluster, n);
  }

  lemma OnlyChainChangedCons(g: Geometry, d: Disk, d1: Disk, d': Disk, c: nat, chain: seq<nat>)
    requires chain != [] && chain[0] == c
    requires OnlyChainChanged(g, d, d1, [c]) && OnlyChainChanged(g, d1, d', chain[1..])
    ensures OnlyChainChanged(g, d, d', chain)
  {
    assert c in chain;
  }
}
