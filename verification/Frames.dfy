/** Physical memory as the allocators of src/memory.c see it: which 4 KiB frames are marked used, how
    far the bump allocator has come, and where RAM ends. */
module Frames {
  import opened Bytes

  const FRAME: nat := 4096

  /** The bitmap covers 8192 words of 32 frames: 1 GiB. */
  const FRAMES: nat := 262144

  datatype Pmm = Pmm(used: set<nat>, bump: nat, maxFrames: nat)
  {
    ghost predicate Valid() {
      && (forall f :: f in used ==> f < FRAMES)
      && maxFrames <= FRAMES
    }

    /** Every frame that pmm_alloc_block may still hand out has a number below n. */
    ghost predicate FreeBelow(n: nat) {
      forall f :: 0 <= f < maxFrames && f !in used ==> f < n
    }
  }

  predicate Touches(addr: nat, size: nat, f: nat) {
    size > 0 && addr / 4096 <= f <= (addr + size - 1) / 4096
  }

  /** The frames that [addr, addr + size) touches. */
  function FramesOf(addr: nat, size: nat): (s: set<nat>)
    ensures forall f: nat :: f in s <==> Touches(addr, size, f)
  {
    set f | 0 <= f <= (addr + size) / 4096 && Touches(addr, size, f)
  }

  /** FramesOf is exactly the set of frames that share a byte with the range. */
  lemma FramesOfOverlap(addr: nat, size: nat, f: nat)
    ensures f in FramesOf(addr, size) <==> exists b :: addr <= b < addr + size && b / 4096 == f
  {
    if f in FramesOf(addr, size) {
      var b := if addr / 4096 == f then addr else f * 4096;
      assert addr <= b < addr + size && b / 4096 == f;
    }
  }

  /** The lowest frame from `from` on that is not marked, FRAMES when there is none. */
  function LeastFree(used: set<nat>, from: nat): (f: nat)
    requires from <= FRAMES
    ensures from <= f <= FRAMES
    ensures f < FRAMES ==> f !in used
    ensures forall k :: from <= k < f ==> k in used
    decreases FRAMES - from
  {
    if from == FRAMES || from !in used then from else LeastFree(used, from + 1)
  }

  /** pmm_alloc_block: the state afterwards and the frame's address, 0 when memory ran out. */
  function Alloc(p: Pmm): (r: (Pmm, nat))
  {
    var f := LeastFree(p.used, 0);
    if f >= p.maxFrames || f == FRAMES then (p, 0) else (p.(used := p.used + {f}), f * 4096)
  }

  /** pmm_free_block */
  function Free(p: Pmm, addr: nat): Pmm {
    p.(used := p.used - {addr / 4096})
  }

  /** pmm_mark_used */
  function MarkUsed(p: Pmm, addr: nat, size: nat): Pmm {
    p.(used := p.used + FramesOf(addr, size))
  }

  function RoundUp4(size: nat): nat {
    if size % 4 != 0 then size + (4 - size % 4) else size
  }

  function AlignUp(addr: nat): (r: nat)
    ensures r % 4096 == 0 && addr <= r < addr + 4096
  {
    if addr % 4096 != 0 then addr / 4096 * 4096 + 4096 else addr
  }

  /** kmalloc: the bitmap is not told. */
  function KMalloc(p: Pmm, size: nat): (r: (Pmm, nat)) {
    (p.(bump := p.bump + RoundUp4(size)), p.bump)
  }

  /** kmalloc_a: page-aligned, and the bitmap is told. */
  function KMallocA(p: Pmm, size: nat): (r: (Pmm, nat)) {
    var ptr := AlignUp(p.bump);
    (MarkUsed(p.(bump := ptr + size), ptr, size), ptr)
  }

  /** kmalloc takes whole words, and no more than it must, so it keeps the bump pointer aligned to them. */
  lemma KMallocTakesWords(p: Pmm, size: nat)
    ensures var (p', ptr) := KMalloc(p, size);
            && ptr == p.bump && p' == p.(bump := p'.bump)
            && p.bump + size <= p'.bump < p.bump + size + 4
            && (p.bump % 4 == 0 ==> p'.bump % 4 == 0)
  {
  }

  // ----- init_pmm -----

  /** A memory map entry of the boot loader. */
  datatype Region = Region(kind: nat, baseHigh: nat, baseLow: nat, lengthLow: nat)
  {
    /** Type 1 regions in the first 4 GiB are RAM. */
    predicate Usable() { kind == 1 && baseHigh == 0 }
    function First(): nat { baseLow / 4096 }
    function End(): nat { baseLow / 4096 + lengthLow / 4096 }
    predicate Covers(f: nat) { Usable() && First() <= f < End() }
  }

  /** Usable RAM lies below the end of the bitmap. */
  predicate MapOk(regions: seq<Region>) {
    forall i :: 0 <= i < |regions| && regions[i].Usable() ==> regions[i].End() <= FRAMES
  }

  predicate CoveredBy(regions: seq<Region>, f: nat) {
    exists i :: 0 <= i < |regions| && regions[i].Covers(f)
  }

  function Top(regions: seq<Region>, start: nat): (m: nat)
    ensures m >= start
  {
    if regions == [] then start else
    var r := regions[|regions| - 1];
    var m := Top(regions[..|regions| - 1], start);
    if r.Usable() && r.End() > m then r.End() else m
  }

  /** total_memory as init_memory adds it up: the lengths of all type 1 regions. */
  function TotalMemory(regions: seq<Region>): (t: nat)
    ensures t < 0x1_0000_0000
  {
    if regions == [] then 0 else
    var r := regions[|regions| - 1];
    var t := TotalMemory(regions[..|regions| - 1]);
    if r.kind == 1 then Wrap32(t + r.lengthLow) else t
  }

  /** A frame that a region frees lies inside the region, for every such frame, exactly when the
      region frees none or starts on a page boundary. */
  lemma FreedFramesAreRam(r: Region)
    requires r.Usable()
    ensures (forall f: nat :: r.Covers(f) ==> r.baseLow <= f * 4096 && f * 4096 + 4096 <= r.baseLow + r.lengthLow)
            <==> r.lengthLow < 4096 || r.baseLow % 4096 == 0
  {
    if r.lengthLow >= 4096 && r.baseLow % 4096 != 0 {
      assert r.Covers(r.First()) && r.First() * 4096 < r.baseLow;
    }
  }

  /** A region that starts in the middle of frame 256 frees this frame. */
  lemma UnalignedRegionExample()
    ensures var r := Region(1, 0, 0x10_0800, 0x1000);
            r.Usable() && r.Covers(256) && 256 * 4096 < r.baseLow
  {
  }

  /** Frames below the bump pointer, rounded up. */
  function KernelFrames(bump: nat): nat {
    (bump + 4095) / 4096
  }

  /** What init_pmm leaves: free are exactly the frames of usable regions, except frame 0 and those
      below the bump pointer. */
  ghost predicate Initialised(p: Pmm, p0: Pmm, regions: seq<Region>) {
    && p.bump == p0.bump
    && p.maxFrames == Top(regions, p0.maxFrames)
    && (forall f :: f in p.used ==> f < FRAMES)
    && (forall f :: 0 <= f < FRAMES ==>
          (f !in p.used <==> CoveredBy(regions, f) && f != 0 && f >= KernelFrames(p0.bump)))
  }

  /** The frames init_pmm can leave free: usable RAM, without frame 0. */
  predicate Allocatable(regions: seq<Region>, f: nat) {
    f != 0 && CoveredBy(regions, f)
  }

  /** init_pmm as a function of the memory map and of the state before it. */
  function AfterInit(p0: Pmm, regions: seq<Region>): (p: Pmm)
    ensures Initialised(p, p0, regions)
  {
    var used := set f: nat | f < FRAMES && !(Allocatable(regions, f) && f >= KernelFrames(p0.bump));
    Pmm(used, p0.bump, Top(regions, p0.maxFrames))
  }

  /** What is free after init_pmm, in terms of addresses: the frames of type 1 regions below 4 GiB that lie
      behind the bump pointer, but not frame 0. */
  lemma FreeAfterInitExactlyWhen(p: Pmm, p0: Pmm, regions: seq<Region>, f: nat)
    requires Initialised(p, p0, regions) && f < FRAMES
    ensures f !in p.used <==>
              && f != 0 && 4096 * f >= p0.bump
              && exists i :: 0 <= i < |regions| && regions[i].kind == 1 && regions[i].baseHigh == 0
                             && regions[i].baseLow / 4096 <= f < regions[i].baseLow / 4096 + regions[i].lengthLow / 4096
  {
    assert f >= KernelFrames(p0.bump) <==> 4096 * f >= p0.bump;
    if i :| 0 <= i < |regions| && regions[i].kind == 1 && regions[i].baseHigh == 0
            && regions[i].baseLow / 4096 <= f < regions[i].baseLow / 4096 + regions[i].lengthLow / 4096 {
      assert regions[i].Covers(f);
    }
  }

  /** Every frame init_pmm left free is below maxFrames, so the end of RAM never hides one. */
  lemma FreeIsBelowTop(p: Pmm, p0: Pmm, regions: seq<Region>, f: nat)
    requires Initialised(p, p0, regions) && f < FRAMES && f !in p.used
    ensures f < p.maxFrames
  {
    var i :| 0 <= i < |regions| && regions[i].Covers(f);
    TopIsAbove(regions, p0.maxFrames, i);
  }

  lemma {:induction false} TopIsAbove(regions: seq<Region>, start: nat, i: nat)
    requires i < |regions| && regions[i].Usable()
    ensures regions[i].End() <= Top(regions, start)
    decreases |regions|
  {
    var k := |regions| - 1;
    if i < k {
      assert regions[..k][i] == regions[i];
      TopIsAbove(regions[..k], start, i);
    }
  }

  lemma {:induction false} TopWithin(regions: seq<Region>, start: nat)
    requires MapOk(regions) && start <= FRAMES
    ensures Top(regions, start) <= FRAMES
    decreases |regions|
  {
    if regions != [] {
      var k := |regions| - 1;
      assert MapOk(regions[..k]) by {
        assert forall i :: 0 <= i < k ==> regions[..k][i] == regions[i];
      }
      TopWithin(regions[..k], start);
    }
  }

  /** pmm_alloc_block takes the least free frame, and returns 0 exactly when no frame below maxFrames
      is free, or when frame 0 is, which init_pmm rules out: its address is 0 as well. */
  lemma AllocTakesLeast(p: Pmm)
    requires p.Valid()
    ensures var (p', addr) := Alloc(p);
            && (addr == 0 <==> 0 !in p.used || forall f :: 0 <= f < p.maxFrames ==> f in p.used)
            && (addr == 0 && 0 in p.used ==> p' == p)
            && (addr != 0 ==>
                  && addr % 4096 == 0
                  && addr / 4096 < p.maxFrames
                  && addr / 4096 !in p.used
                  && (forall k :: 0 <= k < addr / 4096 ==> k in p.used)
                  && p' == p.(used := p.used + {addr / 4096}))
            && p'.Valid()
  {
  }
}
