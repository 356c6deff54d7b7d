/** First-fit cluster allocation and the chains it builds. */
module Fat16Chains {
  import opened Bytes
  import opened Fat16Layout

  /** Entries from here on end a chain. */
  const END_OF_CHAIN: nat := 0xFFF8

  /** fat16_find_free_cluster: the lowest free cluster from `from` on, or 0 when there is none. */
  function FirstFree(f: seq<nat>, from: nat): (c: nat)
    requires 2 <= from
    ensures c != 0 ==> from <= c < |f| && f[c] == 0 && forall k :: from <= k < c ==> f[k] != 0
    ensures c == 0 ==> forall k :: from <= k < |f| ==> f[k] != 0
    decreases |f| - from
  {
    if from >= |f| then 0
    else if f[from] == 0 then from
    else FirstFree(f, from + 1)
  }

  function FreeClusters(f: seq<nat>): (s: set<nat>)
  {
    set c | 2 <= c < |f| && f[c] == 0
  }

  function Members(chain: seq<nat>): set<nat> {
    set c | c in chain
  }

  /** One turn of the allocation loop: link c behind prev (if any) and mark it as the end. */
  function Take(g: Geometry, d: Disk, prev: nat, c: nat): (r: Disk)
    requires DiskOk(d) && c < 0x1_0000
    ensures DiskOk(r) && |r| == |d|
  {
    FatSet(g, if prev == 0 then d else FatSet(g, d, prev, c), c, 0xFFFF)
  }

  /** The allocation loop of fat16_write_file: up to n clusters, each linked behind prev. */
  function Allocate(g: Geometry, d: Disk, n: nat, prev: nat): (r: (Disk, seq<nat>))
    requires DiskOk(d) && g.FatLength() <= 0x1_0000
    ensures DiskOk(r.0) && |r.0| == |d|
    ensures |r.1| <= n
    decreases n
  {
    if n == 0 then (d, []) else
    var c := FirstFree(Fat(g, d), 2);
    if c == 0 then (d, []) else
    var (d', rest) := Allocate(g, Take(g, d, prev, c), n - 1, c);
    (d', [c] + rest)
  }

  predicate Ascending(chain: seq<nat>) {
    forall j, k :: 0 <= j < k < |chain| ==> chain[j] < chain[k]
  }

  /** Following the table from cluster c visits exactly `chain`, never twice, and then reaches an
      end mark. */
  predicate Path(f: seq<nat>, c: nat, chain: seq<nat>)
    decreases |chain|
  {
    if chain == [] then c >= 0xFFF8
    else c == chain[0] && 2 <= c < |f| && c !in chain[1..] && Path(f, f[c], chain[1..])
  }

  /** chain is the file that starts at cluster `first`; a file without clusters starts at 0. */
  predicate IsChain(f: seq<nat>, first: nat, chain: seq<nat>) {
    if chain == [] then first == 0 else Path(f, first, chain)
  }

  /** A path stays in the table, repeats nothing, and visits clusters that are not free. */
  lemma {:induction false} PathIsOccupied(f: seq<nat>, c: nat, chain: seq<nat>)
    requires |f| <= END_OF_CHAIN
    requires Path(f, c, chain)
    ensures forall x :: x in chain ==> 2 <= x < |f| && f[x] != 0
    ensures forall j, k :: 0 <= j < k < |chain| ==> chain[j] != chain[k]
    ensures c != 0
    decreases |chain|
  {
    if chain != [] {
      PathIsOccupied(f, f[c], chain[1..]);
      assert forall x :: x in chain <==> x == c || x in chain[1..];
      assert forall k :: 0 < k < |chain| ==> chain[k] == chain[1..][k - 1];
    }
  }

  lemma {:induction false} PathFrame(f: seq<nat>, f': seq<nat>, c: nat, chain: seq<nat>)
    requires Path(f, c, chain)
    requires |f'| == |f| && forall x :: x in chain && x < |f| ==> f'[x] == f[x]
    ensures Path(f', c, chain)
    decreases |chain|
  {
    if chain != [] {
      PathFrame(f, f', f[c], chain[1..]);
    }
  }

  /** The path from a cluster is unique. */
  lemma {:induction false} PathIsUnique(f: seq<nat>, c: nat, a: seq<nat>, b: seq<nat>)
    requires |f| <= END_OF_CHAIN
    requires Path(f, c, a) && Path(f, c, b)
    ensures a == b
    decreases |a|
  {
    if a != [] {
      PathIsUnique(f, f[c], a[1..], b[1..]);
      assert a == [c] + a[1..] && b == [c] + b[1..];
    }
  }

  /** What changed between two tables when `chain` was allocated behind `prev`. */
  predicate Allocated(f: seq<nat>, f': seq<nat>, prev: nat, chain: seq<nat>) {
    && |f'| == |f|
    && Ascending(chain)
    && (forall x :: x in chain ==> 2 <= x < |f| && f[x] == 0)
    && (forall x :: 0 <= x < |f| && x !in chain && (x != prev || prev == 0) ==> f'[x] == f[x])
    && (chain != [] ==> Path(f', chain[0], chain))
    && (prev != 0 && prev < |f| ==> f'[prev] == if chain == [] then f[prev] else chain[0])
  }

  lemma TakeEffect(g: Geometry, d: Disk, prev: nat, c: nat)
    requires DiskOk(d) && TablesLaid(g, |d|)
    requires prev < g.FatLength() && c < g.FatLength()
    ensures var f := Fat(g, d);
            Fat(g, Take(g, d, prev, c)) == (if prev == 0 then f else f[prev := c])[c := 0xFFFF]
    ensures SameOutsideFat(g, d, Take(g, d, prev, c))
    ensures Mirrored(g, d) ==> Mirrored(g, Take(g, d, prev, c))
  {
    if prev != 0 {
      FatSetChangesOneEntry(g, d, prev, c);
    }
    FatSetChangesOneEntry(g, if prev == 0 then d else FatSet(g, d, prev, c), c, 0xFFFF);
  }

  /** The entry of the last cluster of a new chain is 0xFFFF. */
  lemma {:induction false} AllocateMarksEnd(g: Geometry, d: Disk, n: nat, prev: nat)
    requires DiskOk(d) && TablesLaid(g, |d|)
    requires prev == 0 || (2 <= prev < g.FatLength() && Fat(g, d)[prev] != 0)
    ensures var (d', chain) := Allocate(g, d, n, prev);
            chain != [] ==>
              var last := chain[|chain| - 1];
              last < g.FatLength() && Fat(g, d')[last] == 0xFFFF
    decreases n
  {
    hide Take, Allocated, SameOutsideFat, Mirrored, FatGet;
    var f := Fat(g, d);
    var c := FirstFree(f, 2);
    if n != 0 && c != 0 {
      TakeEffect(g, d, prev, c);
      var d1 := Take(g, d, prev, c);
      AllocateMarksEnd(g, d1, n - 1, c);
      var (d', rest) := Allocate(g, d1, n - 1, c);
      if rest == [] {
        NothingTaken(g, d1, n - 1, c);
      }
    }
  }

  lemma NothingTaken(g: Geometry, d: Disk, n: nat, prev: nat)
    requires DiskOk(d) && g.FatLength() <= 0x1_0000 && Allocate(g, d, n, prev).1 == []
    ensures Allocate(g, d, n, prev).0 == d
  {
  }

  /** The allocation loop builds a strictly ascending, properly ended chain out of clusters that
      were free, changes no other entry of either table, and stops short only on a full disk. */
  lemma {:induction false} AllocateBuildsChain(g: Geometry, d: Disk, n: nat, prev: nat)
    requires DiskOk(d) && TablesLaid(g, |d|)
    requires prev == 0 || (2 <= prev < g.FatLength() && Fat(g, d)[prev] != 0)
    ensures var (d', chain) := Allocate(g, d, n, prev);
            && Allocated(Fat(g, d), Fat(g, d'), prev, chain)
            && SameOutsideFat(g, d, d')
            && (Mirrored(g, d) ==> Mirrored(g, d'))
            && (|chain| < n ==> FirstFree(Fat(g, d'), 2) == 0)
    decreases n
  {
    hide Allocated, Take, SameOutsideFat, Mirrored;
    var f := Fat(g, d);
    var c := FirstFree(f, 2);
    if n != 0 && c != 0 {
      var marked := Take(g, d, prev, c);
      TakeEffect(g, d, prev, c);
      AllocateBuildsChain(g, marked, n - 1, c);
      var (d', rest) := Allocate(g, marked, n - 1, c);
      AllocatedCons(f, Fat(g, marked), Fat(g, d'), prev, c, rest);
      SameOutsideFatTransitive(g, d, marked, d');
    } else {
      assert Allocate(g, d, n, prev) == (d, []);
      NothingAllocated(g, d, prev);
    }
  }

  lemma NothingAllocated(g: Geometry, d: Disk, prev: nat)
    requires DiskOk(d)
    ensures Allocated(Fat(g, d), Fat(g, d), prev, [])
    ensures SameOutsideFat(g, d, d)
  {
  }

  lemma SameOutsideFatTransitive(g: Geometry, d1: Disk, d2: Disk, d3: Disk)
    requires SameOutsideFat(g, d1, d2) && SameOutsideFat(g, d2, d3)
    ensures SameOutsideFat(g, d1, d3)
  {
  }

  lemma AllocatedCons(f: seq<nat>, fm: seq<nat>, f': seq<nat>, prev: nat, c: nat, rest: seq<nat>)
    requires 2 <= c < |f| && f[c] == 0 && forall k :: 2 <= k < c ==> f[k] != 0
    requires prev == 0 || (2 <= prev < |f| && f[prev] != 0)
    requires fm == (if prev == 0 then f else f[prev := c])[c := 0xFFFF]
    requires Allocated(fm, f', c, rest)
    ensures Allocated(f, f', prev, [c] + rest)
  {
    var chain := [c] + rest;
    assert chain[1..] == rest;
    assert forall x :: x in rest ==> c < x && f[x] == 0 by {
      forall x | x in rest
        ensures c < x && f[x] == 0
      {
        assert fm[x] == 0;
      }
    }
    assert Path(f', chain[0], chain);
    assert forall k :: 0 < k < |chain| ==> chain[k] == rest[k - 1];
    assert forall x :: x in chain <==> x == c || x in rest;
  }

  /** Conservation: what was free is what is still free plus, disjointly, what the loop took. The
      loop therefore succeeds exactly when the volume has n free clusters. */
  lemma FreeClustersConserved(g: Geometry, d: Disk, n: nat)
    requires DiskOk(d) && TablesLaid(g, |d|)
    ensures var (d', chain) := Allocate(g, d, n, 0);
            && FreeClusters(Fat(g, d)) == FreeClusters(Fat(g, d')) + Members(chain)
            && FreeClusters(Fat(g, d')) !! Members(chain)
            && |chain| == Min(n, |FreeClusters(Fat(g, d))|)
  {
    AllocateBuildsChain(g, d, n, 0);
    var (d', chain) := Allocate(g, d, n, 0);
    TakenClusters(Fat(g, d), Fat(g, d'), chain);
    if |chain| < n {
      assert FreeClusters(Fat(g, d')) == {};
    }
  }

  lemma TakenClusters(f: seq<nat>, f': seq<nat>, chain: seq<nat>)
    requires |f| <= END_OF_CHAIN
    requires Allocated(f, f', 0, chain)
    ensures FreeClusters(f) == FreeClusters(f') + Members(chain)
    ensures FreeClusters(f') !! Members(chain)
    ensures |FreeClusters(f)| == |FreeClusters(f')| + |chain|
  {
    if chain != [] {
      PathIsOccupied(f', chain[0], chain);
    }
    DistinctCount(chain);
  }

  lemma {:induction false} DistinctCount(chain: seq<nat>)
    requires forall j, k :: 0 <= j < k < |chain| ==> chain[j] != chain[k]
    ensures |Members(chain)| == |chain|
    decreases |chain|
  {
    if chain != [] {
      var init, last := chain[..|chain| - 1], chain[|chain| - 1];
      DistinctCount(init);
      assert Members(chain) == Members(init) + {last};
    }
  }

  /** Allocation leaves every chain of another file as it was: those hold non-zero entries only. */
  lemma OtherChainsSurvive(f: seq<nat>, f': seq<nat>, taken: seq<nat>, first: nat, chain: seq<nat>)
    requires |f| <= END_OF_CHAIN
    requires Allocated(f, f', 0, taken)
    requires IsChain(f, first, chain)
    ensures IsChain(f', first, chain)
    ensures Members(chain) !! Members(taken)
  {
    if chain != [] {
      PathIsOccupied(f, first, chain);
      PathFrame(f, f', first, chain);
    }
  }
}
