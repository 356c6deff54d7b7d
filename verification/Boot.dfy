/** Booting (src/kernel.c:152-154): the identity map, the frame allocator and what they agree on. */
module Boot {
  import opened Bytes
  import opened Options
  import opened Frames
  import opened PageTables
  import opened AddressSpace
  import opened Paging
  import FrameRuns

  /** How many page tables init_paging builds. RAM is counted if the boot loader passed a map. */
  function TableCount(counted: bool, regions: seq<Region>): (n: nat)
    ensures n < 1024
  {
    RequiredPdes(if counted then TotalMemory(regions) else 0)
  }

  /** Every usable region that has a frame ends within the first n frames. */
  predicate RamWithin(regions: seq<Region>, n: nat) {
    forall i :: 0 <= i < |regions| && regions[i].Usable() && regions[i].lengthLow >= 4096 ==> regions[i].End() <= n
  }

  /** init_paging sizes the identity region by the amount of RAM, not by where RAM ends. So all frames
      that init_pmm leaves free lie in the identity region if and only if all RAM does. */
  lemma FreeFramesAreMappedExactlyWhen(p: Pmm, p0: Pmm, regions: seq<Region>, n: nat)
    requires MapOk(regions) && p0.maxFrames <= FRAMES && Initialised(p, p0, regions)
    requires KernelFrames(p0.bump) <= n && n > 0
    ensures p.FreeBelow(n) <==> RamWithin(regions, n)
  {
    TopWithin(regions, p0.maxFrames);
    if !RamWithin(regions, n) {
      var f := RamBeyond(p, p0, regions, n);
    } else {
      forall f | 0 <= f < p.maxFrames && f !in p.used
        ensures f < n
      {
        var i :| 0 <= i < |regions| && regions[i].Covers(f);
      }
    }
  }

  /** Where RAM reaches beyond the first n frames, a frame there is free. */
  lemma RamBeyond(p: Pmm, p0: Pmm, regions: seq<Region>, n: nat) returns (f: nat)
    requires MapOk(regions) && Initialised(p, p0, regions) && KernelFrames(p0.bump) <= n && n > 0
    requires !RamWithin(regions, n)
    ensures n <= f < FRAMES && f < p.maxFrames && f !in p.used
  {
    var i :| 0 <= i < |regions| && regions[i].Usable() && regions[i].lengthLow >= 4096 && regions[i].End() > n;
    f := regions[i].End() - 1;
    assert regions[i].Covers(f);
    FreeIsBelowTop(p, p0, regions, f);
  }

  /** Where RAM reaches beyond the identity region, pmm_alloc_block hands out, after some number of
      calls, a frame whose address no page table translates: the kernel faults when it touches it. */
  lemma UnmappedFrameIsHandedOut(m: Memory, dir: nat, n: nat, p: Pmm, p0: Pmm, regions: seq<Region>)
    returns (calls: nat, f: nat)
    requires Built(m, dir, n) && 0 < n < 1024
    requires MapOk(regions) && p0.maxFrames <= FRAMES && Initialised(p, p0, regions)
    requires KernelFrames(p0.bump) <= 1024 * n && !RamWithin(regions, 1024 * n)
    ensures 1024 * n <= f
    ensures Alloc(FrameRuns.Run(FrameRuns.State(p, {}, {}), FrameRuns.Allocs(calls)).pmm).1 == 4096 * f
    ensures Translate(m, dir, 4096 * f) == None
  {
    TopWithin(regions, p0.maxFrames);
    f := RamBeyond(p, p0, regions, 1024 * n);
    calls := FrameRuns.FreeFrameIsReached(FrameRuns.State(p, {}, {}), f);
    BeyondIsUnmapped(m, dir, n, f);
  }

  lemma BeyondIsUnmapped(m: Memory, dir: nat, n: nat, f: nat)
    requires Built(m, dir, n) && 1024 * n <= f < FRAMES
    ensures Translate(m, dir, 4096 * f) == None
  {
    hide Word, TablesOk, IdentityMapped, Pte;
    assert 4096 * f / 4096 == f;
    assert Pde(m, dir, f / 1024) == 0;
  }

  /** 640 KiB of low RAM, 2 MiB from 1 MiB on, a hole, and 1 MiB from 16 MiB on. */
  const SPARSE_RAM: seq<Region> :=
    [Region(1, 0, 0, 0xA_0000), Region(1, 0, 0x10_0000, 0x20_0000), Region(1, 0, 0x100_0000, 0x10_0000)]

  /** On this machine init_paging maps 4 MiB, and the PMM hands out the frame at 16 MiB. */
  lemma SparseRamExample(m: Memory) returns (calls: nat)
    requires Built(m, 513, TableCount(true, SPARSE_RAM))
    ensures TableCount(true, SPARSE_RAM) == 1
    ensures var p := AfterInit(Pmm({}, 4096 * 515, 0), SPARSE_RAM);
            Alloc(FrameRuns.Run(FrameRuns.State(p, {}, {}), FrameRuns.Allocs(calls)).pmm).1 == 0x100_0000
    ensures Translate(m, 513, 0x100_0000) == None
  {
    SparseRamCounts();
    var p0 := Pmm({}, 4096 * 515, 0);
    var p := AfterInit(p0, SPARSE_RAM);
    TopWithin(SPARSE_RAM, 0);
    assert SPARSE_RAM[2].Covers(0x1000);
    FreeIsBelowTop(p, p0, SPARSE_RAM, 0x1000);
    calls := FrameRuns.FreeFrameIsReached(FrameRuns.State(p, {}, {}), 0x1000);
    BeyondIsUnmapped(m, 513, 1, 0x1000);
  }

  lemma SparseRamCounts()
    ensures MapOk(SPARSE_RAM) && TableCount(true, SPARSE_RAM) == 1
  {
    var r := SPARSE_RAM;
    assert r[..2][..1] == r[..1] && r[..1][..0] == [];
    assert TotalMemory(r[..1]) == 0xA_0000;
    assert TotalMemory(r[..2]) == 0x2A_0000;
    assert TotalMemory(r) == 0x3A_0000;
  }

  /** Booting establishes table ownership and the identity region if and only if the identity region
      holds all RAM: init_paging builds n tables, and init_pmm marks them because they lie below the
      bump pointer. */
  lemma BootEstablishesOwned(m: Memory, dir: nat, n: nat, p: Pmm, p0: Pmm, regions: seq<Region>)
    requires Built(m, dir, n) && p0.bump == 4096 * (dir + n + 1) && p0.maxFrames == 0
    requires n <= 1024 && dir + n + 1 <= 1024 * n && dir + n + 1 <= FRAMES
    requires MapOk(regions) && Initialised(p, p0, regions) && 4096 * p.maxFrames <= |m|
    ensures Owned(Space(m, dir, p), 1024 * n) <==> RamWithin(regions, 1024 * n)
  {
    hide Word, Pte, Pde, TablesOk, RamWithin;
    TopWithin(regions, 0);
    var built := FrameRange(dir, n + 1);
    forall f | f in built
      ensures f in p.used
    {
      assert f < KernelFrames(p0.bump);
    }
    TablesAreUsed(m, dir, built);
    TablesOkMonotone(m, dir, built, p.used);
    FreeFramesAreMappedExactlyWhen(p, p0, regions, 1024 * n);
  }

  lemma SameBump(p: Pmm, p0: Pmm, p1: Pmm, regions: seq<Region>)
    requires Initialised(p, p0, regions) && p0.bump == p1.bump && p0.maxFrames == p1.maxFrames
    ensures Initialised(p, p1, regions)
  {
  }

  lemma FoundTop(p: Pmm, p0: Pmm, hasMap: bool, regions: seq<Region>)
    requires Initialised(p, p0, if hasMap then regions else []) && p0.maxFrames == 0
    ensures p.maxFrames <= Top(regions, 0)
  {
  }

  /** The RAM of the memory map, without wrap-around. */
  function RamSize(regions: seq<Region>): nat {
    if regions == [] then 0 else
    var r := regions[|regions| - 1];
    RamSize(regions[..|regions| - 1]) + (if r.kind == 1 then r.lengthLow else 0)
  }

  /** RAM is contiguous from address 0: each region of RAM begins where the ones before it end. */
  predicate Contiguous(regions: seq<Region>) {
    regions == [] ||
      var k := |regions| - 1;
      Contiguous(regions[..k])
      && (regions[k].kind == 1 ==> regions[k].Usable() && regions[k].baseLow == RamSize(regions[..k]))
  }

  lemma {:induction false} TotalIsRamSize(regions: seq<Region>)
    requires RamSize(regions) < 0x1_0000_0000
    ensures TotalMemory(regions) == RamSize(regions)
    decreases |regions|
  {
    if regions != [] {
      TotalIsRamSize(regions[..|regions| - 1]);
    }
  }

  lemma {:induction false} RegionEnds(regions: seq<Region>, i: nat)
    requires Contiguous(regions) && i < |regions| && regions[i].Usable()
    ensures regions[i].baseLow + regions[i].lengthLow <= RamSize(regions)
    decreases |regions|
  {
    var k := |regions| - 1;
    if i < k {
      assert regions[..k][i] == regions[i];
      RegionEnds(regions[..k], i);
    }
  }

  /** Where RAM is contiguous from 0, the identity region holds all of it. */
  lemma ContiguousRamIsMapped(regions: seq<Region>)
    requires Contiguous(regions) && 0 < RamSize(regions) <= 0xFFC0_0000
    ensures TableCount(true, regions) > 0 && RamWithin(regions, 1024 * TableCount(true, regions))
  {
    hide RequiredPdes;
    TotalIsRamSize(regions);
    RequiredPdesIsLeast(RamSize(regions));
    forall i | 0 <= i < |regions| && regions[i].Usable() && regions[i].lengthLow >= 4096
      ensures regions[i].End() <= 1024 * TableCount(true, regions)
    {
      RegionEnds(regions, i);
      EndInFrames(regions[i].baseLow, regions[i].lengthLow, TableCount(true, regions));
    }
  }

  lemma TablesFit(regions: seq<Region>)
    requires 0 < RamSize(regions) <= 0xFFC0_0000
    ensures var n := TableCount(true, regions);
            RamSize(regions) <= 0x40_0000 * n < RamSize(regions) + 0x40_0000
  {
    hide RequiredPdes;
    TotalIsRamSize(regions);
    RequiredPdesIsLeast(RamSize(regions));
    var n := TableCount(true, regions);
    assert RamSize(regions) > 0x40_0000 * (n - 1);
  }

  lemma EndInFrames(base: nat, length: nat, n: nat)
    requires base + length <= 0x40_0000 * n
    ensures base / 4096 + length / 4096 <= 1024 * n
  {
  }

  /** init_memory, init_paging and init_pmm, in this order, on the memory the kernel starts with. */
  method BootMemory(mmu: Mmu, magicOk: bool, hasMap: bool, regions: seq<Region>)
    requires mmu.Valid() && mmu.frames.freeMemAddr == 0x20_0000 && mmu.frames.maxFrames == 0
    requires MapOk(regions)
    requires 4096 * Top(regions, 0) <= |mmu.mem|
    requires 4096 * (514 + TableCount(magicOk && hasMap, regions)) <= |mmu.mem|
    modifies mmu, mmu.frames, mmu.frames.bitmap
    ensures mmu.Valid()
    ensures var n := TableCount(magicOk && hasMap, regions);
            var found := if hasMap then regions else [];
            && mmu.dir == 513 && Built(mmu.mem, mmu.dir, n)
            && Initialised(mmu.frames.View(), Pmm({}, 4096 * (514 + n), 0), found)
            && (Owned(mmu.View(), 1024 * n) <==> n > 0 && RamWithin(found, 1024 * n))
            && (magicOk && hasMap && Contiguous(regions) && 0 < RamSize(regions) <= 0xFFC0_0000 ==>
                  && Owned(mmu.View(), 1024 * n)
                  && RamSize(regions) <= 0x40_0000 * n < RamSize(regions) + 0x40_0000)
  {
    hide Built, RequiredPdes, RamWithin, Initialised, Top, TotalMemory, TablesOk, IdentityMapped, Pte, Pde,
         TableFrames;
    var total := mmu.frames.InitMemory(magicOk, hasMap, regions);
    mmu.Init(total);
    assert mmu.dir == 513;
    ghost var p0 := mmu.frames.View();
    mmu.frames.Init(hasMap, regions);
    ghost var n := RequiredPdes(total);
    SameBump(mmu.frames.View(), p0, Pmm({}, 4096 * (514 + n), 0), if hasMap then regions else []);
    FoundTop(mmu.frames.View(), p0, hasMap, regions);
    if magicOk && hasMap && Contiguous(regions) && 0 < RamSize(regions) <= 0xFFC0_0000 {
      ContiguousRamIsMapped(regions);
      TablesFit(regions);
    }
    if n > 0 {
      BootEstablishesOwned(mmu.mem, mmu.dir, n, mmu.frames.View(), p0, if hasMap then regions else []);
    }
  }

  // ----- Pages inside the identity region -----

  /** After n calls of pmm_alloc_block the next one returns the address. */
  ghost predicate HandsOut(p: Pmm, n: nat, addr: nat) {
    Alloc(FrameRuns.Run(FrameRuns.State(p, {}, {}), FrameRuns.Allocs(n)).pmm).1 == addr
  }

  /** A program that is loaded at an address inside the identity region lies on the frame of the same
      number, and nothing marks that frame: pmm_alloc_block will hand it out to somebody else if and
      only if it is RAM that was not marked before. */
  lemma IdentityPageIsHandedOutExactlyWhen(s: Space, pages: nat, q: nat)
    requires Owned(s, pages) && 0 < q < pages
    ensures Translate(s.mem, s.dir, 4096 * q) == Some(4096 * q)
    ensures (exists n :: HandsOut(s.pmm, n, 4096 * q)) <==> q < s.pmm.maxFrames && q !in s.pmm.used
  {
    hide TablesOk, TableFrames, Pte, Word;
    KernelPointersArePhysical(s.mem, s.dir, pages, 4096 * q);
    var st := FrameRuns.State(s.pmm, {}, {});
    if q < s.pmm.maxFrames && q !in s.pmm.used {
      var n := FrameRuns.FreeFrameIsReached(st, q);
      assert HandsOut(s.pmm, n, 4096 * q);
    } else {
      forall n: nat
        ensures !HandsOut(s.pmm, n, 4096 * q)
      {
        AllocsKeepMarks(st, n);
        AllocTakesLeast(FrameRuns.Run(st, FrameRuns.Allocs(n)).pmm);
      }
    }
  }

  lemma {:induction false} AllocsKeepMarks(s: FrameRuns.State, n: nat)
    requires s.pmm.Valid()
    ensures var p := FrameRuns.Run(s, FrameRuns.Allocs(n)).pmm;
            p.Valid() && s.pmm.used <= p.used && p.maxFrames == s.pmm.maxFrames
    decreases n
  {
    if n > 0 {
      AllocTakesLeast(s.pmm);
      assert FrameRuns.Allocs(n)[1..] == FrameRuns.Allocs(n - 1);
      AllocsKeepMarks(FrameRuns.Step(s, FrameRuns.Alloc), n - 1);
    }
  }
}
