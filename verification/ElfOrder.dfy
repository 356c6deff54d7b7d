/** Which frame load_elf_program gives to which page and to which table. */
module ElfOrder {
  import opened Frames
  import opened PageTables
  import opened AddressSpace
  import opened ElfImage
  import opened ElfLoad
  import opened ElfProgram
  import opened ElfFrames

  // ----- Ranks -----

  /** The frames below f that pmm_alloc_block can hand out. */
  function FreeUnder(p: Pmm, f: nat): set<nat> {
    set g | g in FreeFrames(p) && g < f
  }

  /** f is free, with exactly k free frames below it. */
  predicate HasRank(p: Pmm, f: nat, k: nat) {
    f in FreeFrames(p) && |FreeUnder(p, f)| == k
  }

  lemma RankIsUnique(p: Pmm, f: nat, g: nat, k: nat)
    requires HasRank(p, f, k) && HasRank(p, g, k)
    ensures f == g
  {
    hide FreeFrames;
    if f < g {
      RankGrows(p, f, g);
    } else if g < f {
      RankGrows(p, g, f);
    }
  }

  lemma RankGrows(p: Pmm, f: nat, g: nat)
    requires f in FreeFrames(p) && f < g
    ensures |FreeUnder(p, f)| < |FreeUnder(p, g)|
  {
    hide FreeFrames;
    var a, b := FreeUnder(p, f), FreeUnder(p, g);
    assert f in b && f !in a;
    assert a + {f} <= b;
    SubsetSize(a + {f}, b);
  }

  lemma {:induction false} SubsetSize(a: set<nat>, b: set<nat>)
    requires a <= b
    ensures |a| <= |b|
    decreases |a|
  {
    if a != {} {
      var x :| x in a;
      SubsetSize(a - {x}, b - {x});
    }
  }

  /** Every frame taken between p and p' is RAM and lies below every frame that is left. */
  ghost predicate TakesLowest(p: Pmm, p': Pmm) {
    && p.used <= p'.used && p'.maxFrames == p.maxFrames
    && (forall f :: f in p'.used && f !in p.used ==> f < p.maxFrames)
    && forall f: nat, g: nat :: f in p'.used && f !in p.used && g !in p'.used ==> f < g
  }

  lemma AllocTakesLowest(p: Pmm)
    requires p.Valid() && 0 in p.used
    ensures TakesLowest(p, Alloc(p).0)
  {
    AllocTakesLeast(p);
  }

  /** So the next frame has as many free frames below it as were taken since. */
  lemma NextRank(p0: Pmm, p: Pmm)
    requires TakesLowest(p0, p) && p.Valid() && 0 in p.used && Alloc(p).1 != 0
    ensures var f := LeastFree(p.used, 0);
            Alloc(p).1 == 4096 * f && f in FreeFrames(p0) && |FreeUnder(p0, f)| + |FreeFrames(p)| == |FreeFrames(p0)|
  {
    AllocTakesLeast(p);
    var f := LeastFree(p.used, 0);
    var under, left := FreeUnder(p0, f), FreeFrames(p);
    assert FreeFrames(p0) == under + left;
    assert under !! left;
  }

  /** A free frame has been taken exactly if fewer free frames lie below it than were taken. */
  lemma TakenExactlyWhen(p0: Pmm, p: Pmm, f: nat)
    requires TakesLowest(p0, p)
    ensures f in p.used && f !in p0.used <==>
            f in FreeFrames(p0) && |FreeUnder(p0, f)| + |FreeFrames(p)| < |FreeFrames(p0)|
  {
    var under, left := FreeUnder(p0, f), FreeFrames(p);
    var taken := FreeFrames(p0) - left;
    assert FreeFrames(p0) == taken + left && taken !! left;
    if f in FreeFrames(p0) {
      if f in p.used {
        assert f in taken && f !in under && under + {f} <= taken;
        SubsetSize(under + {f}, taken);
      } else {
        assert taken <= under;
        SubsetSize(taken, under);
      }
    }
  }

  // ----- What stays while loading -----

  ghost predicate KeepsTables(s: Space, s': Space) {
    forall i :: 0 <= i < 1024 && Present(Pde(s.mem, s.dir, i)) ==> Pde(s'.mem, s'.dir, i) == Pde(s.mem, s.dir, i)
  }

  /** Pages and tables keep their frames, the bump pointer stays, and the frames taken are the lowest. */
  ghost predicate Later(s: Space, s': Space) {
    && KeepsPages(s, s') && KeepsTables(s, s') && s'.pmm.bump == s.pmm.bump
    && TakesLowest(s.pmm, s'.pmm)
  }

  lemma LaterTransitive(a: Space, b: Space, c: Space)
    requires Later(a, b) && Later(b, c)
    ensures Later(a, c)
  {
    hide Pte, Pde;
  }

  lemma SameIsLater(s: Space, s': Space)
    requires SameTranslation(s, s')
    ensures Later(s, s')
  {
    hide Pte, Pde, TableFrames;
  }

  lemma EnsurePageLater(s: Space, pages: nat, page: nat)
    requires Owned(s, pages) && page < 0x10_0000
    ensures Later(s, EnsurePage(s, page).space)
  {
    hide Pte, Pde, TablesOk, TableFrames, MapPage, IdentityMapped, Alloc;
    if !Present(Pte(s.mem, s.dir, page)) {
      AllocTakesLeast(s.pmm);
      AllocTakesLowest(s.pmm);
      AllocKeepsBump(s.pmm);
      StepKeepsOwned(s, pages, AllocBlock);
      var (p, phys) := Alloc(s.pmm);
      if phys != 0 {
        MapPageRefines(s.mem, s.dir, p, phys / 4096, page, 7);
        MapPageTables(s.mem, s.dir, p, phys / 4096, page, 7);
        AllocTakesLowest(p);
      }
    }
  }

  lemma AllocKeepsBump(p: Pmm)
    ensures Alloc(p).0.bump == p.bump
  {
  }

  lemma {:induction false} EnsurePagesLater(s0: Space, s: Space, pages: nat, page: nat, end: nat)
    requires Extends(s0, s, pages) && end <= 0x10_0000
    ensures Later(s, EnsurePages(s, page, end).space)
    decreases end - page
  {
    hide Extends, Later, EnsurePage;
    if page >= end {
      SameAsItself(s);
      SameIsLater(s, s);
    } else {
      ExtendsOwns(s0, s, pages);
      EnsurePageExtends(s0, s, pages, page);
      EnsurePageLater(s, pages, page);
      var r := EnsurePage(s, page);
      if r.Done? {
        EnsurePagesLater(s0, r.space, pages, page + 1, end);
        LaterTransitive(s, r.space, EnsurePages(r.space, page + 1, end).space);
      }
    }
  }

  lemma FillIsLater(s0: Space, s: Space, pages: nat, buf: nat, ph: Phdr)
    requires Extends(s0, s, pages) && SegmentOk(s0, ph) && ph.memsz > 0
    requires SourceOk(s0, buf, ph) && FillSegment(s, buf, ph).Done?
    ensures Later(s, FillSegment(s, buf, ph).space)
  {
    hide Extends, Later, FillSegment, SegmentOk, SourceOk, Pte;
    if AllPresent(s, ph.FirstPage(), ph.EndPage()) {
      PresentIsNew(s0, s, ph);
      FillLoads(s0, s, pages, buf, ph);
      SameIsLater(s, FillSegment(s, buf, ph).space);
    } else {
      FillKeepsFrames(s0, s, pages, buf, ph);
    }
  }

  lemma LoadSegmentLater(s0: Space, s: Space, pages: nat, buf: nat, size: nat, ph: Phdr)
    requires Extends(s0, s, pages) && (ph.Loads() ==> SegmentReady(s0, buf, size, ph))
    requires LoadSegment(s, buf, size, ph).Done?
    ensures Later(s, LoadSegment(s, buf, size, ph).space)
  {
    hide Extends, Later, EnsurePages, FillSegment, InUse;
    if ph.Loads() {
      EnsurePagesLater(s0, s, pages, ph.FirstPage(), ph.EndPage());
      EnsurePagesExtends(s0, s, pages, ph.FirstPage(), ph.EndPage());
      var r := EnsurePages(s, ph.FirstPage(), ph.EndPage());
      FillIsLater(s0, r.space, pages, buf, ph);
      LaterTransitive(s, r.space, FillSegment(r.space, buf, ph).space);
    } else {
      SameAsItself(s);
      SameIsLater(s, s);
    }
  }

  lemma {:induction false} LoadSegmentsLater(s0: Space, s: Space, pages: nat, buf: nat, size: nat, i: nat)
    requires Extends(s0, s, pages) && ProgramOk(s0, buf, size) && i <= EhdrAt(s0.mem, buf).phnum
    requires LoadSegments(s, buf, size, EhdrAt(s0.mem, buf), i).Done?
    ensures Later(s, LoadSegments(s, buf, size, EhdrAt(s0.mem, buf), i).space)
    decreases EhdrAt(s0.mem, buf).phnum - i
  {
    hide Extends, Later, EhdrAt, PhdrAt, PhdrAddr, PhdrOf, LoadSegment, ProgramOk, HeadersOk, SegmentReady;
    var h := EhdrAt(s0.mem, buf);
    if i == h.phnum {
      SameAsItself(s);
      SameIsLater(s, s);
    } else {
      ProgramHeader(s0, buf, size, i);
      HeaderUnchanged(s0, s, pages, buf, i);
      var ph := PhdrOf(s0, buf, i);
      SegmentLoads(s0, s, pages, buf, size, ph);
      LoadSegmentLater(s0, s, pages, buf, size, ph);
      var r := LoadSegment(s, buf, size, ph);
      LoadSegmentsLater(s0, r.space, pages, buf, size, i + 1);
      LaterTransitive(s, r.space, LoadSegments(r.space, buf, size, h, i + 1).space);
    }
  }


  lemma SameAsItself(s: Space)
    ensures SameTranslation(s, s)
  {
  }

  lemma ExtendsOwns(s0: Space, s: Space, pages: nat)
    requires Extends(s0, s, pages)
    ensures Owned(s, pages)
  {
  }

  // ----- The frames of a page and of its table -----

  /** Page q and, if it is new with q, its table lie on the frames of these ranks. */
  ghost predicate Placed(s0: Space, s: Space, have: set<nat>, q: nat) {
    && q < 0x10_0000 && Present(Pte(s.mem, s.dir, q)) && HasRank(s0.pmm, FrameAt(s, q), Demand(s0, have))
    && (NeedsTable(s0, have, q) ==>
          && Present(Pde(s.mem, s.dir, q / 1024))
          && HasRank(s0.pmm, FrameOf(Pde(s.mem, s.dir, q / 1024)), Demand(s0, have) + 1))
  }

  lemma PlacedLater(s0: Space, s: Space, s': Space, have: set<nat>, q: nat)
    requires Placed(s0, s, have, q) && Later(s, s')
    ensures Placed(s0, s', have, q)
  {
    hide Pte, Pde, Demand, NeedsTable, HasRank;
  }

  /** A page that gets a frame gets the least free one, and a new table the next. */
  lemma PageIsPlaced(s0: Space, s: Space, pages: nat, page: nat, have: set<nat>)
    requires Owned(s, pages) && Gained(s0, s, have) && TakesLowest(s0.pmm, s.pmm)
    requires page < 0x10_0000 && !Present(Pte(s0.mem, s0.dir, page)) && page !in have
    requires Demand(s0, have + {page}) <= FreeCount(s0)
    ensures EnsurePage(s, page).Done? && Placed(s0, EnsurePage(s, page).space, have, page)
  {
    hide Pte, Pde, TablesOk, TableFrames, MapPage, IdentityMapped, Demand, NewTables, NeedsTable, FreeFrames,
         FreeUnder, TakesLowest, LeastFree, MakeEntry;
    DemandOneMore(s0, have, page);
    NeedsTableHere(s0, s, have, page);
    AllocTakesOne(s.pmm);
    AllocTakesLeast(s.pmm);
    AllocTakesLowest(s.pmm);
    NextRank(s0.pmm, s.pmm);
    StepKeepsOwned(s, pages, AllocBlock);
    var (p, phys) := Alloc(s.pmm);
    AllocTakesOne(p);
    LowestTransitive(s0.pmm, s.pmm, p);
    if NeedsTable(s0, have, page) {
      NextRank(s0.pmm, p);
    }
    MapPageRefines(s.mem, s.dir, p, phys / 4096, page, 7);
    MapPageTables(s.mem, s.dir, p, phys / 4096, page, 7);
    FrameOfEntry(phys / 4096);
  }

  lemma LowestTransitive(a: Pmm, b: Pmm, c: Pmm)
    requires TakesLowest(a, b) && TakesLowest(b, c)
    ensures TakesLowest(a, c)
  {
  }

  lemma FrameOfEntry(f: nat)
    requires f < 0x10_0000
    ensures Present(MakeEntry(f, 7)) && FrameOf(MakeEntry(f, 7)) == f
  {
  }

  lemma {:induction false} EnsurePagesSplit(s: Space, page: nat, q: nat, end: nat)
    requires page <= q <= end <= 0x10_0000 && EnsurePages(s, page, q).Done?
    ensures EnsurePages(s, page, end) == EnsurePages(EnsurePages(s, page, q).space, q, end)
    decreases q - page
  {
    hide EnsurePage;
    if page < q {
      EnsurePagesSplit(EnsurePage(s, page).space, page + 1, q, end);
    }
  }

  /** Every new page of a segment is placed when its turn comes, and stays. */
  lemma SegmentPlaces(s0: Space, s: Space, pages: nat, buf: nat, size: nat, ph: Phdr, have: set<nat>, q: nat)
    requires Extends(s0, s, pages) && Later(s0, s) && Gained(s0, s, have)
    requires ph.Loads() && SegmentOk(s0, ph) && ph.offset + ph.filesz <= size && SourceOk(s0, buf, ph)
    requires Demand(s0, have + PageRange(ph.FirstPage(), ph.EndPage())) <= FreeCount(s0)
    requires ph.FirstPage() <= q < ph.EndPage() && q !in have
    ensures LoadSegment(s, buf, size, ph).Done?
    ensures Placed(s0, LoadSegment(s, buf, size, ph).space, have + PageRange(ph.FirstPage(), q), q)
  {
    hide Extends, Later, Gained, Demand, Placed, EnsurePage, FillSegment, SourceOk, Pte, LoadSegment, FreeFrames;
    var first, end := ph.FirstPage(), ph.EndPage();
    SegmentIsMissing(s0, ph);
    SegmentGains(s0, s, pages, buf, size, ph, have);
    PrefixFits(s0, have, first, q, end);
    EnsurePagesGain(s0, s, pages, first, q, have);
    EnsurePagesExtends(s0, s, pages, first, q);
    EnsurePagesLater(s0, s, pages, first, q);
    var s1 := EnsurePages(s, first, q).space;
    LaterTransitive(s0, s, s1);
    ExtendsOwns(s0, s1, pages);
    LaterLowest(s0, s1);
    PageIsPlaced(s0, s1, pages, q, have + PageRange(first, q));
    var s2 := EnsurePage(s1, q).space;
    EnsurePageExtends(s0, s1, pages, q);
    EnsurePagesSplit(s, first, q, end);
    SegmentFinishes(s0, s, s1, s2, pages, buf, size, ph, q);
    PlacedLater(s0, s2, LoadSegment(s, buf, size, ph).space, have + PageRange(first, q), q);
  }

  lemma LaterLowest(s: Space, s': Space)
    requires Later(s, s')
    ensures TakesLowest(s.pmm, s'.pmm)
  {
  }

  lemma PrefixFits(s0: Space, have: set<nat>, first: nat, q: nat, end: nat)
    requires first <= q < end && q !in have && Demand(s0, have + PageRange(first, end)) <= FreeCount(s0)
    ensures Demand(s0, have + PageRange(first, q)) <= FreeCount(s0)
    ensures Demand(s0, have + PageRange(first, q) + {q}) <= FreeCount(s0)
    ensures q !in have + PageRange(first, q)
  {
    hide Demand, FreeFrames;
    DemandMonotone(s0, have + PageRange(first, q), have + PageRange(first, end));
    DemandMonotone(s0, have + PageRange(first, q) + {q}, have + PageRange(first, end));
  }

  /** What comes after page q only adds. */
  lemma SegmentFinishes(
    s0: Space, s: Space, s1: Space, s2: Space, pages: nat, buf: nat, size: nat, ph: Phdr, q: nat)
    requires Extends(s0, s, pages) && Extends(s0, s1, pages) && Extends(s0, s2, pages)
    requires ph.Loads() && SegmentOk(s0, ph) && ph.offset + ph.filesz <= size && SourceOk(s0, buf, ph)
    requires ph.FirstPage() <= q < ph.EndPage() <= 0x10_0000 && EnsurePage(s1, q) == Done(s2)
    requires EnsurePages(s, ph.FirstPage(), ph.EndPage()) == EnsurePages(s1, q, ph.EndPage())
    requires LoadSegment(s, buf, size, ph).Done?
    ensures Later(s2, LoadSegment(s, buf, size, ph).space)
  {
    hide Extends, Later, EnsurePage, FillSegment, SourceOk, InUse, UnmappedRange;
    var end := ph.EndPage();
    EnsurePagesLater(s0, s2, pages, q + 1, end);
    EnsurePagesExtends(s0, s, pages, ph.FirstPage(), end);
    var r := EnsurePages(s, ph.FirstPage(), end);
    assert r == EnsurePages(s2, q + 1, end);
    FillIsLater(s0, r.space, pages, buf, ph);
    LaterTransitive(s2, r.space, FillSegment(r.space, buf, ph).space);
  }

  // ----- The whole program -----

  /** Page q gets its frame when header i is loaded. */
  predicate MappedBy(s0: Space, buf: nat, i: nat, q: nat) {
    var ph := PhdrOf(s0, buf, i);
    && i < EhdrAt(s0.mem, buf).phnum && ph.Loads()
    && ph.FirstPage() <= q < ph.EndPage() && q !in PagesUpTo(s0, buf, i)
  }

  /** The pages that have theirs by then. */
  function Before(s0: Space, buf: nat, i: nat, q: nat): set<nat> {
    PagesUpTo(s0, buf, i) + PageRange(PhdrOf(s0, buf, i).FirstPage(), q)
  }

  /** The state in which the loop over the headers reaches header i. */
  lemma {:induction false} ReachHeader(s0: Space, pages: nat, buf: nat, size: nat, i: nat) returns (s: Space)
    requires Owned(s0, pages) && ProgramOk(s0, buf, size) && i <= EhdrAt(s0.mem, buf).phnum
    requires LoadSegments(s0, buf, size, EhdrAt(s0.mem, buf), 0).Done?
    ensures Extends(s0, s, pages) && Later(s0, s) && Gained(s0, s, PagesUpTo(s0, buf, i))
    ensures LoadSegments(s0, buf, size, EhdrAt(s0.mem, buf), 0) == LoadSegments(s, buf, size, EhdrAt(s0.mem, buf), i)
    decreases i
  {
    hide Owned, Extends, Later, Gained, EhdrAt, PhdrAt, PhdrAddr, PhdrOf, LoadSegment, ProgramOk, HeadersOk,
         SegmentReady, PagesUpTo, Demand, InFile, DryAt, FreeFrames;
    if i == 0 {
      s := s0;
      ExtendsItself(s0, pages);
      SameAsItself(s0);
      SameIsLater(s0, s0);
      NothingGained(s0);
      NoPagesFirst(s0, buf);
    } else {
      var s1 := ReachHeader(s0, pages, buf, size, i - 1);
      ProgramHeader(s0, buf, size, i - 1);
      HeaderUnchanged(s0, s1, pages, buf, i - 1);
      HeaderEnds(s0, s1, pages, buf, size, i - 1);
      LoadSegmentLater(s0, s1, pages, buf, size, PhdrOf(s0, buf, i - 1));
      s := LoadSegment(s1, buf, size, PhdrOf(s0, buf, i - 1)).space;
      LaterTransitive(s0, s1, s);
    }
  }

  /** Every page of the program, and every table it needs, gets the frame whose rank is the number of
      frames that everything mapped before needs. */
  lemma ProgramIsPlaced(s0: Space, pages: nat, buf: nat, size: nat, i: nat, q: nat)
    requires Owned(s0, pages) && ProgramOk(s0, buf, size) && LoadElf(s0, buf, size).0.Done?
    requires MappedBy(s0, buf, i, q)
    ensures Placed(s0, LoadElf(s0, buf, size).0.space, Before(s0, buf, i, q), q)
  {
    hide Owned, Extends, Later, Gained, EhdrAt, PhdrAt, PhdrAddr, PhdrOf, LoadSegment, ProgramOk, HeadersOk,
         SegmentOk, SourceOk, PagesUpTo, Demand, DryAt, FreeFrames, Placed, KernelByte;
    var h, ph := EhdrAt(s0.mem, buf), PhdrOf(s0, buf, i);
    var s := ReachHeader(s0, pages, buf, size, i);
    ProgramHeader(s0, buf, size, i);
    HeaderUnchanged(s0, s, pages, buf, i);
    HeaderEnds(s0, s, pages, buf, size, i);
    PagesStep(s0, buf, i);
    SegmentPlaces(s0, s, pages, buf, size, ph, PagesUpTo(s0, buf, i), q);
    var s' := LoadSegment(s, buf, size, ph).space;
    LoadSegmentsLater(s0, s', pages, buf, size, i + 1);
    PlacedLater(s0, s', LoadElf(s0, buf, size).0.space, Before(s0, buf, i, q), q);
  }

  lemma PagesStep(s0: Space, buf: nat, i: nat)
    requires PhdrOf(s0, buf, i).Loads()
    ensures var ph := PhdrOf(s0, buf, i);
            PagesUpTo(s0, buf, i + 1) == PagesUpTo(s0, buf, i) + PageRange(ph.FirstPage(), ph.EndPage())
  {
    hide PhdrOf;
  }

  /** The header that maps a page of the program. */
  lemma {:induction false} MappedBySome(s0: Space, buf: nat, n: nat, q: nat) returns (i: nat)
    requires q in PagesUpTo(s0, buf, n) && n <= EhdrAt(s0.mem, buf).phnum
    ensures i < n && MappedBy(s0, buf, i, q)
    decreases n
  {
    hide EhdrAt, PhdrOf;
    if q in PagesUpTo(s0, buf, n - 1) {
      i := MappedBySome(s0, buf, n - 1, q);
    } else {
      i := n - 1;
    }
  }

  /** The page that brings a new table. */
  lemma {:induction false} TableComesWith(s0: Space, buf: nat, n: nat, t: nat) returns (i: nat, q: nat)
    requires t in NewTables(s0, PagesUpTo(s0, buf, n)) && n <= EhdrAt(s0.mem, buf).phnum
    ensures i < n && MappedBy(s0, buf, i, q) && q / 1024 == t && NeedsTable(s0, Before(s0, buf, i, q), q)
    decreases n
  {
    hide EhdrAt, PhdrOf, Pde;
    if t in NewTables(s0, PagesUpTo(s0, buf, n - 1)) {
      i, q := TableComesWith(s0, buf, n - 1, t);
    } else {
      i := n - 1;
      var r :| r in PagesUpTo(s0, buf, n) && !Present(Pde(s0.mem, s0.dir, r / 1024)) && r / 1024 == t;
      var first := PhdrOf(s0, buf, i).FirstPage();
      q := if first < 1024 * t then 1024 * t else first;
      assert r !in PagesUpTo(s0, buf, i);
      assert q / 1024 == t && first <= q <= r;
      assert q !in PagesUpTo(s0, buf, i);
      forall k | k in Before(s0, buf, i, q)
        ensures k / 1024 == t ==> Present(Pde(s0.mem, s0.dir, k / 1024))
      {
      }
    }
  }
}
