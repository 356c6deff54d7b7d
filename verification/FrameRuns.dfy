/** Runs of the two physical allocators together: which guarantee holds, and exactly when. */
module FrameRuns {
  import opened Frames

  /** The allocator state with its history: the frames pmm_alloc_block handed out that were not freed
      since, and the frames that earlier kmalloc and kmalloc_a allocations touch. */
  datatype State = State(pmm: Pmm, live: set<nat>, owned: set<nat>)

  datatype Event = KMalloc(size: nat) | KMallocA(size: nat) | Alloc | Free(frame: nat)

  function Step(s: State, e: Event): State {
    match e
    case KMalloc(size) =>
      var (p, ptr) := Frames.KMalloc(s.pmm, size);
      s.(pmm := p, owned := s.owned + FramesOf(ptr, RoundUp4(size)))
    case KMallocA(size) =>
      var (p, ptr) := Frames.KMallocA(s.pmm, size);
      s.(pmm := p, owned := s.owned + FramesOf(ptr, size))
    case Alloc =>
      var (p, addr) := Frames.Alloc(s.pmm);
      s.(pmm := p, live := if addr == 0 then s.live else s.live + {addr / 4096})
    case Free(frame) =>
      s.(pmm := Frames.Free(s.pmm, frame * 4096), live := s.live - {frame})
  }

  function Run(s: State, es: seq<Event>): State
    decreases |es|
  {
    if es == [] then s else Run(Step(s, es[0]), es[1..])
  }

  /** What pmm_alloc_block could hand out next is neither live nor part of an earlier allocation. */
  ghost predicate Protected(s: State) {
    && 0 in s.pmm.used
    && s.live <= s.pmm.used
    && forall f :: f in s.owned && f < s.pmm.maxFrames ==> f in s.pmm.used
  }

  /** The frame pmm_alloc_block returns now, if any, was handed out or allocated before. */
  ghost predicate HandsOutTwice(s: State) {
    var addr := Frames.Alloc(s.pmm).1;
    addr != 0 && (addr / 4096 in s.live || addr / 4096 in s.owned)
  }

  /** What the caller can check before each call. kmalloc is safe when the frames it is about to touch
      are already marked; a free is safe for a live frame that no bump allocation touches. */
  predicate Safe(s: State, e: Event) {
    match e
    case KMalloc(size) =>
      forall f :: f in FramesOf(s.pmm.bump, RoundUp4(size)) && f < s.pmm.maxFrames ==> f in s.pmm.used
    case Free(frame) => frame in s.live && frame !in s.owned && frame != 0
    case KMallocA(_) => true
    case Alloc => true
  }

  predicate SafeRun(s: State, es: seq<Event>)
    decreases |es|
  {
    es == [] || (Safe(s, es[0]) && SafeRun(Step(s, es[0]), es[1..]))
  }

  lemma SafeStepProtects(s: State, e: Event)
    requires Protected(s) && Safe(s, e)
    ensures Protected(Step(s, e))
  {
  }

  /** After every safe run pmm_alloc_block returns no frame that it returned before and that was not
      freed, and none that overlaps an earlier kmalloc or kmalloc_a allocation. */
  lemma {:induction false} SafeRunNeverHandsOutTwice(s: State, es: seq<Event>)
    requires Protected(s) && SafeRun(s, es)
    ensures Protected(Run(s, es)) && !HandsOutTwice(Run(s, es))
    decreases |es|
  {
    if es != [] {
      SafeStepProtects(s, es[0]);
      SafeRunNeverHandsOutTwice(Step(s, es[0]), es[1..]);
    }
  }

  function Allocs(n: nat): (es: seq<Event>)
    ensures |es| == n
  {
    if n == 0 then [] else [Alloc] + Allocs(n - 1)
  }

  /** A frame that is free and below the end of RAM is handed out after finitely many calls. */
  lemma {:induction false} FreeFrameIsReached(s: State, f: nat) returns (n: nat)
    requires 0 in s.pmm.used && f !in s.pmm.used && f < s.pmm.maxFrames && s.pmm.maxFrames <= FRAMES
    ensures Frames.Alloc(Run(s, Allocs(n)).pmm).1 == f * 4096
    ensures Run(s, Allocs(n)).owned == s.owned
    decreases f - LeastFree(s.pmm.used, 0)
  {
    var least := LeastFree(s.pmm.used, 0);
    if least == f {
      n := 0;
    } else {
      var s' := Step(s, Alloc);
      assert s'.pmm.used == s.pmm.used + {least};
      assert LeastFree(s'.pmm.used, 0) > least;
      var k := FreeFrameIsReached(s', f);
      n := k + 1;
      assert Allocs(n)[0] == Alloc && Allocs(n)[1..] == Allocs(k);
    }
  }

  /** The conditions are exact: from a protected state, a kmalloc, or a free of a live frame, that is
      not safe is followed by some number of pmm_alloc_block calls after which the next one returns
      a frame that belongs to an earlier bump allocation. */
  lemma UnsafeStepIsExposed(s: State, e: Event) returns (n: nat)
    requires Protected(s) && s.pmm.maxFrames <= FRAMES
    requires e.KMalloc? || (e.Free? && e.frame in s.live && e.frame != 0 && e.frame < s.pmm.maxFrames)
    requires !Safe(s, e)
    ensures HandsOutTwice(Run(Step(s, e), Allocs(n)))
  {
    var s' := Step(s, e);
    var f: nat;
    if e.KMalloc? {
      f :| f in FramesOf(s.pmm.bump, RoundUp4(e.size)) && f < s.pmm.maxFrames && f !in s.pmm.used;
    } else {
      f := e.frame;
      assert f * 4096 / 4096 == f;
    }
    assert f in s'.owned && f !in s'.pmm.used;
    n := FreeFrameIsReached(s', f);
    assert f * 4096 / 4096 == f;
  }

  // ----- Does kmalloc_a avoid the frames pmm_alloc_block handed out? -----

  /** Only frames that pmm_alloc_block handed out are freed. */
  predicate LegalRun(s: State, es: seq<Event>)
    decreases |es|
  {
    es == [] || ((es[0].Free? ==> es[0].frame in s.live) && LegalRun(Step(s, es[0]), es[1..]))
  }

  /** Above the bump pointer the bitmap tells exactly which frames of RAM are live. */
  ghost predicate Accounted(s: State, regions: seq<Region>) {
    && 0 in s.pmm.used
    && (forall f :: f in s.live ==> Allocatable(regions, f))
    && (forall f :: 0 <= f < FRAMES && f !in s.pmm.used ==> Allocatable(regions, f))
    && (forall f :: f >= KernelFrames(s.pmm.bump) ==>
          (f in s.live <==> f in s.pmm.used && Allocatable(regions, f)))
  }

  lemma InitAccounts(p: Pmm, p0: Pmm, regions: seq<Region>, owned: set<nat>)
    requires MapOk(regions) && Initialised(p, p0, regions)
    ensures Accounted(State(p, {}, owned), regions)
  {
  }

  lemma StepAccounts(s: State, regions: seq<Region>, e: Event)
    requires Accounted(s, regions) && (e.Free? ==> e.frame in s.live)
    ensures Accounted(Step(s, e), regions)
  {
    hide CoveredBy, FramesOf;
    match e
    case KMalloc(size) =>
      BumpRises(s.pmm.bump, s.pmm.bump, RoundUp4(size));
    case KMallocA(size) =>
      BumpRises(s.pmm.bump, AlignUp(s.pmm.bump), size);
    case Alloc =>
    case Free(frame) =>
      assert frame * 4096 / 4096 == frame;
  }

  lemma BumpRises(bump: nat, ptr: nat, size: nat)
    requires bump <= ptr
    ensures KernelFrames(bump) <= KernelFrames(ptr + size)
    ensures forall f :: f in FramesOf(ptr, size) ==> f < KernelFrames(ptr + size)
  {
  }

  lemma {:induction false} RunAccounts(s: State, regions: seq<Region>, es: seq<Event>)
    requires Accounted(s, regions) && LegalRun(s, es)
    ensures Accounted(Run(s, es), regions)
    decreases |es|
  {
    hide Accounted, Step;
    if es != [] {
      StepAccounts(s, regions, es[0]);
      RunAccounts(Step(s, es[0]), regions, es[1..]);
    }
  }

  /** kmalloc_a protects itself from pmm_alloc_block, but never asks which frames are taken. In every
      state that a run of both allocators reaches after init_pmm, it returns memory that avoids all
      live frames if and only if no frame of RAM that it is about to take is marked. */
  lemma BumpAvoidsLiveExactlyWhen(p: Pmm, p0: Pmm, regions: seq<Region>, owned: set<nat>, es: seq<Event>, size: nat)
    requires MapOk(regions) && Initialised(p, p0, regions) && LegalRun(State(p, {}, owned), es)
    ensures var s := Run(State(p, {}, owned), es);
            var taken := FramesOf(Frames.KMallocA(s.pmm, size).1, size);
            taken !! s.live <==> forall f :: f in taken && Allocatable(regions, f) ==> f !in s.pmm.used
  {
    InitAccounts(p, p0, regions, owned);
    RunAccounts(State(p, {}, owned), regions, es);
    hide Accounted, Run, FramesOf, CoveredBy, Initialised;
    AccountedTells(Run(State(p, {}, owned), es), regions, size);
  }

  lemma AccountedTells(s: State, regions: seq<Region>, size: nat)
    requires Accounted(s, regions)
    ensures var taken := FramesOf(Frames.KMallocA(s.pmm, size).1, size);
            taken !! s.live <==> forall f :: f in taken && Allocatable(regions, f) ==> f !in s.pmm.used
  {
    hide FramesOf, CoveredBy;
    var ptr := AlignUp(s.pmm.bump);
    assert forall f :: f in FramesOf(ptr, size) ==> f >= KernelFrames(s.pmm.bump);
  }

  /** 4 MiB of RAM and a kernel that ends at 2 MiB, as init_pmm finds them. */
  const SMALL_RAM: seq<Region> := [Region(1, 0, 0, 0x40_0000)]
  const SMALL_BOOT: Pmm := Pmm({}, 0x20_0000, 0)

  lemma SmallBootFrames()
    ensures MapOk(SMALL_RAM)
    ensures var p := AfterInit(SMALL_BOOT, SMALL_RAM);
            p.maxFrames == 1024 && forall f: nat :: f < FRAMES ==> (f !in p.used <==> 512 <= f < 1024)
  {
    assert SMALL_RAM[..0] == [];
    assert Top([], 0) == 0;
    assert SMALL_RAM[0].First() == 0 && SMALL_RAM[0].End() == 1024;
  }

  /** A run after init_pmm in which kmalloc_a returns a frame that is live: the first frame handed
      out is the one at the bump pointer, and the kmalloc_a that follows returns it again. */
  lemma BumpRunsIntoLiveExample()
    ensures var s := Run(State(AfterInit(SMALL_BOOT, SMALL_RAM), {}, {}), [Alloc]);
            Frames.KMallocA(s.pmm, 4096).1 == 512 * 4096 && s.live == {512}
  {
    SmallBootFrames();
    var s := State(AfterInit(SMALL_BOOT, SMALL_RAM), {}, {});
    LeastIs(s.pmm.used, 512);
    assert [Alloc][1..] == [];
    assert Run(s, [Alloc]) == Step(s, Alloc);
  }

  /** A kmalloc after init_pmm that is not safe: pmm_alloc_block returns its frame at once. */
  lemma UnmarkedKMallocExample()
    ensures var s := State(AfterInit(SMALL_BOOT, SMALL_RAM), {}, {});
            Protected(s) && !Safe(s, KMalloc(12)) && HandsOutTwice(Step(s, KMalloc(12)))
  {
    SmallBootFrames();
    var s := State(AfterInit(SMALL_BOOT, SMALL_RAM), {}, {});
    LeastIs(s.pmm.used, 512);
    assert Touches(0x20_0000, 12, 512);
  }

  lemma LeastIs(used: set<nat>, f: nat)
    requires f < FRAMES && f !in used && forall k: nat :: k < f ==> k in used
    ensures LeastFree(used, 0) == f
  {
  }

  /** The same run goes on: the frame is freed, legally, and the next allocation returns the frame
      that the kmalloc_a caller still holds. */
  lemma AliasedFreeExample()
    ensures var s := State(AfterInit(SMALL_BOOT, SMALL_RAM), {}, {});
            var es := [Alloc, KMallocA(4096), Free(512)];
            Protected(s) && LegalRun(s, es) && HandsOutTwice(Run(s, es))
  {
    SmallBootFrames();
    var s := State(AfterInit(SMALL_BOOT, SMALL_RAM), {}, {});
    hide AfterInit, Run, LegalRun, Step, HandsOutTwice;
    AliasedFree(s);
    ThreeSteps(s, Alloc, KMallocA(4096), Free(512));
  }

  lemma AliasedFree(s: State)
    requires s.pmm.bump == 0x20_0000 && s.pmm.maxFrames == 1024 && 512 !in s.pmm.used
    requires forall k: nat :: k < 512 ==> k in s.pmm.used
    ensures var s1 := Step(s, Alloc);
            var s2 := Step(s1, KMallocA(4096));
            512 in s1.live && 512 in s2.live && HandsOutTwice(Step(s2, Free(512)))
  {
    LeastIs(s.pmm.used, 512);
    var s2 := Step(Step(s, Alloc), KMallocA(4096));
    assert Touches(0x20_0000, 4096, 512) && 512 in s2.owned;
    assert forall k: nat :: k in FramesOf(0x20_0000, 4096) <==> k == 512;
    LeastIs(Step(s2, Free(512)).pmm.used, 512);
  }

  lemma ThreeSteps(s: State, a: Event, b: Event, c: Event)
    requires !a.Free? && !b.Free? && (c.Free? ==> c.frame in Step(Step(s, a), b).live)
    ensures LegalRun(s, [a, b, c]) && Run(s, [a, b, c]) == Step(Step(Step(s, a), b), c)
  {
    hide Step;
    var s1, s2 := Step(s, a), Step(Step(s, a), b);
    assert [a, b, c][1..] == [b, c] && [b, c][1..] == [c] && [c][1..] == [];
    var s3 := Step(s2, c);
    assert LegalRun(s3, []) && Run(s3, []) == s3;
    assert LegalRun(s2, [c]) && Run(s2, [c]) == Run(s3, []);
    assert LegalRun(s1, [b, c]) && Run(s1, [b, c]) == Run(s2, [c]);
  }

  /** init_pmm establishes protection for everything the bump allocator gave out before it. */
  lemma InitProtects(p: Pmm, p0: Pmm, regions: seq<Region>, owned: set<nat>)
    requires Initialised(p, p0, regions)
    requires forall f :: f in owned ==> f < FRAMES && f * 4096 < p0.bump
    ensures Protected(State(p, {}, owned))
  {
    forall f | f in owned
      ensures f in p.used
    {
      assert f < KernelFrames(p0.bump);
    }
  }

  // ----- The bump allocator by itself -----

  datatype Range = Range(start: nat, size: nat)

  /** The ranges that the kmalloc and kmalloc_a calls of a run return, in order. */
  function BumpRanges(s: State, es: seq<Event>): seq<Range>
    decreases |es|
  {
    if es == [] then [] else
    var rest := BumpRanges(Step(s, es[0]), es[1..]);
    match es[0]
    case KMalloc(size) => [Range(Frames.KMalloc(s.pmm, size).1, size)] + rest
    case KMallocA(size) => [Range(Frames.KMallocA(s.pmm, size).1, size)] + rest
    case Alloc => rest
    case Free(_) => rest
  }

  /** No two bump allocations of any run share a byte: each starts where the earlier ones have ended. */
  lemma {:induction false} BumpRangesDisjoint(s: State, es: seq<Event>)
    ensures s.pmm.bump <= Run(s, es).pmm.bump
    ensures forall i :: 0 <= i < |BumpRanges(s, es)| ==>
              var r := BumpRanges(s, es)[i];
              s.pmm.bump <= r.start && r.start + r.size <= Run(s, es).pmm.bump
    ensures forall i, j :: 0 <= i < j < |BumpRanges(s, es)| ==>
              BumpRanges(s, es)[i].start + BumpRanges(s, es)[i].size <= BumpRanges(s, es)[j].start
    decreases |es|
  {
    if es != [] {
      var s1 := Step(s, es[0]);
      BumpRangesDisjoint(s1, es[1..]);
      var all, rest := BumpRanges(s, es), BumpRanges(s1, es[1..]);
      if es[0].KMalloc? || es[0].KMallocA? {
        assert forall i :: 0 < i < |all| ==> all[i] == rest[i - 1];
        assert s.pmm.bump <= all[0].start && all[0].start + all[0].size <= s1.pmm.bump;
      } else {
        assert all == rest && s1.pmm.bump == s.pmm.bump;
      }
    }
  }

  /** The memory kmalloc_a returns is page-aligned, and the frames it touches are still marked after
      every safe run that follows. */
  lemma AlignedAndMarked(s: State, size: nat, es: seq<Event>)
    requires Protected(s) && SafeRun(Step(s, KMallocA(size)), es)
    ensures var ptr := Frames.KMallocA(s.pmm, size).1;
            ptr % 4096 == 0 && FramesOf(ptr, size) <= Run(Step(s, KMallocA(size)), es).pmm.used
  {
    var ptr := Frames.KMallocA(s.pmm, size).1;
    MarksStay(Step(s, KMallocA(size)), es, FramesOf(ptr, size));
  }

  lemma {:induction false} MarksStay(s: State, es: seq<Event>, frames: set<nat>)
    requires frames <= s.owned && frames <= s.pmm.used && SafeRun(s, es)
    ensures frames <= Run(s, es).pmm.used
    decreases |es|
  {
    if es != [] {
      MarksStay(Step(s, es[0]), es[1..], frames);
    }
  }
}
