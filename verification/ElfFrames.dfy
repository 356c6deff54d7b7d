/** How many frames a program needs, and exactly how load_elf_program ends for a given number of
    free frames. */
module ElfFrames {
  import opened Frames
  import opened PageTables
  import opened AddressSpace
  import opened ElfImage
  import opened ElfLoad
  import opened ElfProgram

  /** The frames pmm_alloc_block can still hand out. */
  function FreeFrames(p: Pmm): set<nat> {
    set f: nat | f < p.maxFrames && f !in p.used
  }

  function FreeCount(s: Space): nat {
    |FreeFrames(s.pmm)|
  }

  lemma AllocTakesOne(p: Pmm)
    requires p.Valid() && 0 in p.used
    ensures var (p', addr) := Alloc(p);
            && (addr == 0 <==> |FreeFrames(p)| == 0)
            && (addr == 0 ==> p' == p)
            && (addr != 0 ==> |FreeFrames(p')| + 1 == |FreeFrames(p)|)
  {
    AllocTakesLeast(p);
    var (p', addr) := Alloc(p);
    if addr != 0 {
      assert addr / 4096 in FreeFrames(p);
      assert FreeFrames(p) == FreeFrames(p') + {addr / 4096};
    } else {
      assert FreeFrames(p) == {};
    }
  }

  // ----- What a set of pages costs -----

  /** The tables that s0 lacks for the pages. */
  function NewTables(s0: Space, pages: set<nat>): set<nat> {
    set q | q in pages && !Present(Pde(s0.mem, s0.dir, q / 1024)) :: q / 1024
  }

  /** A frame for each page and one for each new table. */
  function Demand(s0: Space, pages: set<nat>): nat {
    |pages| + |NewTables(s0, pages)|
  }

  /** The page needs a table that neither s0 nor the other pages have. */
  predicate NeedsTable(s0: Space, pages: set<nat>, q: nat) {
    !Present(Pde(s0.mem, s0.dir, q / 1024)) && q / 1024 !in NewTables(s0, pages)
  }

  lemma DemandOneMore(s0: Space, pages: set<nat>, q: nat)
    requires q !in pages
    ensures Demand(s0, pages + {q}) == Demand(s0, pages) + 1 + (if NeedsTable(s0, pages, q) then 1 else 0)
    ensures NewTables(s0, pages + {q}) ==
            NewTables(s0, pages) + (if NeedsTable(s0, pages, q) then {q / 1024} else {})
  {
    hide Pde;
    var a, b := NewTables(s0, pages), NewTables(s0, pages + {q});
    forall i | i in b
      ensures i in a || i == q / 1024
    {
      var r :| r in pages + {q} && !Present(Pde(s0.mem, s0.dir, r / 1024)) && r / 1024 == i;
      assert r != q ==> r in pages;
    }
    forall i | i in a
      ensures i in b
    {
      var r :| r in pages && !Present(Pde(s0.mem, s0.dir, r / 1024)) && r / 1024 == i;
      assert r in pages + {q};
    }
    if !Present(Pde(s0.mem, s0.dir, q / 1024)) {
      assert q in pages + {q};
      assert q / 1024 in b;
    }
    assert b == a + (if NeedsTable(s0, pages, q) then {q / 1024} else {});
  }

  lemma {:induction false} DemandMonotone(s0: Space, a: set<nat>, b: set<nat>)
    requires a <= b
    ensures Demand(s0, a) <= Demand(s0, b)
    ensures a != b ==> Demand(s0, a) < Demand(s0, b)
    decreases |b - a|
  {
    hide NewTables, Demand, NeedsTable;
    if a != b {
      var q :| q in b && q !in a;
      DemandOneMore(s0, a, q);
      assert b - (a + {q}) == b - a - {q};
      DemandMonotone(s0, a + {q}, b);
    }
  }

  // ----- Mapping one page -----

  /** s has the given pages and their tables more than s0, and took a frame for each. */
  ghost predicate Gained(s0: Space, s: Space, pages: set<nat>) {
    && (forall q :: 0 <= q < 0x10_0000 ==>
          (Present(Pte(s.mem, s.dir, q)) <==> Present(Pte(s0.mem, s0.dir, q)) || q in pages))
    && (forall i :: 0 <= i < 1024 ==>
          (Present(Pde(s.mem, s.dir, i)) <==> Present(Pde(s0.mem, s0.dir, i)) || i in NewTables(s0, pages)))
    && FreeCount(s) + Demand(s0, pages) == FreeCount(s0)
  }

  /** Which tables there are after map_page. */
  lemma MapPageTables(m: Memory, dir: nat, p: Pmm, frame: nat, page: nat, flags: nat)
    requires page < 0x10_0000 && frame < 0x10_0000 && flags < 4096
    requires p.Valid() && 0 in p.used && 4096 * p.maxFrames <= |m|
    requires TablesOk(m, dir, p.used)
    ensures var (m', p') := MapPage(m, dir, p, frame, page, flags);
            && p' == (if Present(Pde(m, dir, page / 1024)) then p else Alloc(p).0)
            && (forall i :: 0 <= i < 1024 ==>
                  (Present(Pde(m', dir, i)) <==>
                   Present(Pde(m, dir, i)) || (i == page / 1024 && CanMap(m, dir, p, page))))
            && (forall i :: 0 <= i < 1024 && (Present(Pde(m, dir, i)) || i != page / 1024) ==>
                  Pde(m', dir, i) == Pde(m, dir, i))
            && (!Present(Pde(m, dir, page / 1024)) && Alloc(p).1 != 0 ==>
                  FrameOf(Pde(m', dir, page / 1024)) == LeastFree(p.used, 0))
  {
    hide SetWord, ZeroFrame, Word, TablesOk, MakeEntry;
    var i := page / 1024;
    AllocTakesLeast(p);
    if Present(Pde(m, dir, i)) {
      SetPte(m, dir, p.used, page, MakeEntry(frame, flags));
    } else if CanMap(m, dir, p, page) {
      var (p', addr) := Alloc(p);
      var t := addr / 4096;
      NewTable(m, dir, p.used, i, t);
      EntryParts(t, 7);
      var m1 := ZeroFrame(SetWord(m, 4096 * dir + 4 * i, addr + 7), t);
      SetPte(m1, dir, p'.used, page, MakeEntry(frame, flags));
    }
  }

  /** Giving a missing page a frame, for each number of frames left. */
  lemma MissingPageGains(s0: Space, s: Space, pages: nat, page: nat, have: set<nat>)
    requires Owned(s, pages) && Gained(s0, s, have)
    requires page < 0x10_0000 && !Present(Pte(s0.mem, s0.dir, page)) && page !in have
    ensures var r := EnsurePage(s, page);
            && (FreeCount(s) == 0 ==> r.Rejected?)
            && (FreeCount(s) == 1 && NeedsTable(s0, have, page) ==>
                  r == Done(s.(pmm := Alloc(s.pmm).0)) && FreeCount(r.space) == 0)
            && (Demand(s0, have + {page}) <= FreeCount(s0) ==> r.Done? && Gained(s0, r.space, have + {page}))
  {
    hide Pte, Pde, TablesOk, MapPage, NewTables, NeedsTable, Demand, FreeFrames, TableFrames, IdentityMapped;
    AllocTakesOne(s.pmm);
    DemandOneMore(s0, have, page);
    NeedsTableHere(s0, s, have, page);
    if FreeCount(s) > 0 {
      var (p, phys) := Alloc(s.pmm);
      StepKeepsOwned(s, pages, AllocBlock);
      AllocTakesLeast(s.pmm);
      AllocTakesOne(p);
      MapPageRefines(s.mem, s.dir, p, phys / 4096, page, 7);
      MapPageTables(s.mem, s.dir, p, phys / 4096, page, 7);
    }
  }

  lemma NeedsTableHere(s0: Space, s: Space, have: set<nat>, page: nat)
    requires Gained(s0, s, have) && page < 0x10_0000
    ensures NeedsTable(s0, have, page) <==> !Present(Pde(s.mem, s.dir, page / 1024))
  {
    hide Pte, Pde, NewTables;
  }

  // ----- Mapping the pages of a segment -----

  function PageRange(page: nat, end: nat): (r: set<nat>)
    ensures forall q: nat :: q in r <==> page <= q < end
    decreases end - page
  {
    if page >= end then {} else {page} + PageRange(page + 1, end)
  }

  predicate AllMissing(s0: Space, page: nat, end: nat) {
    forall q: nat :: page <= q < end ==> !Present(Pte(s0.mem, s0.dir, q))
  }

  /** The last page of [page, end) that is not there yet needs a table all for itself. */
  predicate LonePage(s0: Space, have: set<nat>, page: nat, end: nat, q: nat) {
    && page <= q < end && q !in have && NeedsTable(s0, have, q)
    && (forall r :: q < r < end ==> r in have)
    && (forall r :: page <= r < q ==> r / 1024 != q / 1024)
  }

  /** One frame is missing, and it is the table of that page: map_page fails silently, and nothing in
      the mapping loop notices. */
  ghost predicate RunsDry(s0: Space, have: set<nat>, page: nat, end: nat) {
    && FreeCount(s0) + 1 == Demand(s0, have + PageRange(page, end))
    && exists q :: LonePage(s0, have, page, end, q)
  }

  /** With no frame left the loop goes on exactly as long as pages are there. */
  lemma {:induction false} EnsureWithoutFrames(s: Space, page: nat, end: nat)
    requires OutOfFrames(s) && Alloc(s.pmm).0 == s.pmm && end <= 0x10_0000
    ensures EnsurePages(s, page, end).Done? <==> AllPresent(s, page, end)
    ensures EnsurePages(s, page, end).Done? ==> EnsurePages(s, page, end).space == s
    decreases end - page
  {
    hide Pte, Alloc;
    if page < end && Present(Pte(s.mem, s.dir, page)) {
      EnsureWithoutFrames(s, page + 1, end);
    }
  }

  lemma RangeStep(have: set<nat>, page: nat, end: nat)
    requires page < end
    ensures have + PageRange(page, end) == have + {page} + PageRange(page + 1, end)
    ensures page in have ==> have + PageRange(page, end) == have + PageRange(page + 1, end)
  {
  }

  /** A lone page further on stays the lone page when the first page is added. */
  lemma LonePageStep(s0: Space, have: set<nat>, page: nat, end: nat, q: nat)
    requires page < q && page !in have
    ensures LonePage(s0, have, page, end, q) <==> LonePage(s0, have + {page}, page + 1, end, q)
  {
    hide Pde, NewTables, Demand;
    DemandOneMore(s0, have, page);
  }

  lemma LonePageCosts(s0: Space, have: set<nat>, page: nat, end: nat, q: nat)
    requires LonePage(s0, have, page, end, q)
    ensures Demand(s0, have + PageRange(page, end)) >= Demand(s0, have) + 2
  {
    hide NewTables, Demand, NeedsTable;
    DemandOneMore(s0, have, q);
    DemandMonotone(s0, have + {q}, have + PageRange(page, end));
  }

  /** A page that is there does not matter. */
  lemma DryStepPresent(s0: Space, have: set<nat>, page: nat, end: nat)
    requires page < end && page in have
    ensures RunsDry(s0, have, page, end) <==> RunsDry(s0, have, page + 1, end)
  {
    hide Pde, Demand, NewTables;
    RangeStep(have, page, end);
    TableIsThere(s0, have, page);
    var next := page + 1;
    assert forall q: nat :: LonePage(s0, have, page, end, q) <==> LonePage(s0, have, next, end, q);
  }

  lemma TableIsThere(s0: Space, have: set<nat>, page: nat)
    requires page in have
    ensures !NeedsTable(s0, have, page)
    ensures forall q: nat :: q / 1024 == page / 1024 ==> !NeedsTable(s0, have, q)
  {
    hide Pde;
    if !Present(Pde(s0.mem, s0.dir, page / 1024)) {
      assert page / 1024 in NewTables(s0, have);
    }
  }

  /** A page that gets its frame moves on to the next. */
  lemma DryStepMapped(s0: Space, have: set<nat>, page: nat, end: nat)
    requires page < end && page !in have && Demand(s0, have + {page}) <= FreeCount(s0)
    ensures RunsDry(s0, have, page, end) <==> RunsDry(s0, have + {page}, page + 1, end)
  {
    hide Pde, Demand, NewTables, NeedsTable;
    RangeStep(have, page, end);
    if q :| LonePage(s0, have, page, end, q) {
      if q == page {
        assert have + PageRange(page, end) == have + {page};
      } else {
        LonePageStep(s0, have, page, end, q);
      }
    }
    var more, next := have + {page}, page + 1;
    if q :| LonePage(s0, more, next, end, q) {
      LonePageStep(s0, have, page, end, q);
    }
  }

  /** The last frame went to the page and none is left for its table: the loop ends without an error
      exactly when no other page is missing. */
  lemma DryNow(s0: Space, have: set<nat>, page: nat, end: nat)
    requires page < end && page !in have && NeedsTable(s0, have, page)
    requires Demand(s0, have) + 1 == FreeCount(s0)
    ensures RunsDry(s0, have, page, end) <==> forall q :: page < q < end ==> q in have
  {
    hide Pde, Demand, NewTables, NeedsTable;
    RangeStep(have, page, end);
    DemandOneMore(s0, have, page);
    if forall q :: page < q < end ==> q in have {
      assert have + PageRange(page, end) == have + {page};
      assert LonePage(s0, have, page, end, page);
    } else if q :| LonePage(s0, have, page, end, q) {
      if q != page {
        LonePageStep(s0, have, page, end, q);
        LonePageCosts(s0, have + {page}, page + 1, end, q);
      }
    }
  }

  /** The mapping loop: it maps everything if the frames suffice. If not, it reports the failure,
      unless it runs dry at the last missing page. */
  lemma {:induction false} EnsurePagesGain(s0: Space, s: Space, pages: nat, page: nat, end: nat, have: set<nat>)
    requires Extends(s0, s, pages) && Gained(s0, s, have) && end <= 0x10_0000 && AllMissing(s0, page, end)
    ensures var r, all := EnsurePages(s, page, end), have + PageRange(page, end);
            if Demand(s0, all) <= FreeCount(s0) then r.Done? && Gained(s0, r.space, all)
            else (r.Done? <==> RunsDry(s0, have, page, end)) && (r.Done? ==> !AllPresent(r.space, page, end))
    decreases end - page
  {
    hide Extends, Pte, Pde, Demand, NewTables, NeedsTable, EnsurePage, FreeFrames, RunsDry, LonePage;
    if page >= end {
      assert have + PageRange(page, end) == have;
    } else {
      RangeStep(have, page, end);
      EnsurePageExtends(s0, s, pages, page);
      var r := EnsurePage(s, page);
      if page in have {
        DryStepPresent(s0, have, page, end);
        PresentPageStays(s, page);
        EnsurePagesGain(s0, s, pages, page + 1, end, have);
      } else {
        ExtendsOwned(s0, s, pages);
        MissingPageGains(s0, s, pages, page, have);
        if Demand(s0, have + {page}) <= FreeCount(s0) {
          DryStepMapped(s0, have, page, end);
          EnsurePagesGain(s0, r.space, pages, page + 1, end, have + {page});
        } else {
          FramesMissing(s0, s, pages, page, end, have);
        }
      }
    }
  }

  lemma FramesMissing(s0: Space, s: Space, pages: nat, page: nat, end: nat, have: set<nat>)
    requires Owned(s, pages) && Gained(s0, s, have) && page < end <= 0x10_0000 && AllMissing(s0, page, end)
    requires page !in have && Demand(s0, have + {page}) > FreeCount(s0)
    ensures Demand(s0, have + PageRange(page, end)) > FreeCount(s0)
    ensures var r := EnsurePages(s, page, end);
            (r.Done? <==> RunsDry(s0, have, page, end)) && (r.Done? ==> !AllPresent(r.space, page, end))
  {
    hide Owned, Pte, Pde, Demand, NewTables, NeedsTable, EnsurePage, FreeFrames, LonePage;
    RangeStep(have, page, end);
    DemandMonotone(s0, have + {page}, have + PageRange(page, end));
    DemandOneMore(s0, have, page);
    MissingPageGains(s0, s, pages, page, have);
    if FreeCount(s) == 0 {
      if q :| LonePage(s0, have, page, end, q) {
        LonePageCosts(s0, have, page, end, q);
      }
    } else {
      var s1 := s.(pmm := Alloc(s.pmm).0);
      NoFrameLeft(s, pages);
      EnsureWithoutFrames(s1, page + 1, end);
      DryNow(s0, have, page, end);
    }
  }

  lemma NoFrameLeft(s: Space, pages: nat)
    requires Owned(s, pages) && |FreeFrames(Alloc(s.pmm).0)| == 0
    ensures var s1 := s.(pmm := Alloc(s.pmm).0);
            OutOfFrames(s1) && Alloc(s1.pmm).0 == s1.pmm
  {
    hide TablesOk, IdentityMapped, TableFrames;
    AllocTakesLeast(s.pmm);
    AllocTakesOne(Alloc(s.pmm).0);
  }

  lemma PresentPageStays(s: Space, page: nat)
    requires page < 0x10_0000 && Present(Pte(s.mem, s.dir, page))
    ensures EnsurePage(s, page) == Done(s)
  {
  }

  lemma ExtendsOwned(s0: Space, s: Space, pages: nat)
    requires Extends(s0, s, pages)
    ensures Owned(s, pages)
  {
  }

  // ----- The whole program -----

  lemma SamePagesGained(s0: Space, s: Space, s': Space, have: set<nat>)
    requires Gained(s0, s, have) && SameTranslation(s, s')
    ensures Gained(s0, s', have)
  {
    hide Pte, Pde, NewTables, FreeFrames, TableFrames;
  }

  /** One program header. */
  lemma SegmentGains(s0: Space, s: Space, pages: nat, buf: nat, size: nat, ph: Phdr, have: set<nat>)
    requires Extends(s0, s, pages) && Gained(s0, s, have)
    requires ph.Loads() && SegmentOk(s0, ph) && ph.offset + ph.filesz <= size && SourceOk(s0, buf, ph)
    ensures var r, all := LoadSegment(s, buf, size, ph), have + PageRange(ph.FirstPage(), ph.EndPage());
            if Demand(s0, all) <= FreeCount(s0) then r.Done? && Gained(s0, r.space, all)
            else if RunsDry(s0, have, ph.FirstPage(), ph.EndPage()) then r.Faulted? else r.Rejected?
  {
    hide Extends, Pte, Pde, Demand, Gained, EnsurePages, FillSegment, RunsDry, InUse;
    var first, end := ph.FirstPage(), ph.EndPage();
    SegmentIsMissing(s0, ph);
    EnsurePagesGain(s0, s, pages, first, end, have);
    EnsurePagesExtends(s0, s, pages, first, end);
    var r := EnsurePages(s, first, end);
    if r.Done? {
      if Demand(s0, have + PageRange(first, end)) <= FreeCount(s0) {
        GainedIsPresent(s0, r.space, have, first, end);
        PresentIsNew(s0, r.space, ph);
        FillLoads(s0, r.space, pages, buf, ph);
        SamePagesGained(s0, r.space, FillSegment(r.space, buf, ph).space, have + PageRange(first, end));
      } else {
        FillKeepsFrames(s0, r.space, pages, buf, ph);
      }
    }
  }

  lemma SegmentIsMissing(s0: Space, ph: Phdr)
    requires SegmentOk(s0, ph) && ph.Loads()
    ensures AllMissing(s0, ph.FirstPage(), ph.EndPage()) && ph.EndPage() <= 0x10_0000
  {
    hide Pte;
    forall q: nat | ph.FirstPage() <= q < ph.EndPage()
      ensures !Present(Pte(s0.mem, s0.dir, q))
    {
      var w := if q == ph.FirstPage() then ph.vaddr else 4096 * q;
      assert w / 4096 == q && ph.vaddr <= w < ph.vaddr + ph.memsz;
    }
  }

  lemma GainedIsPresent(s0: Space, s: Space, have: set<nat>, page: nat, end: nat)
    requires Gained(s0, s, have + PageRange(page, end)) && end <= 0x10_0000
    ensures AllPresent(s, page, end)
  {
    hide Pte, Pde, Demand, NewTables;
  }

  /** The pages of the loadable segments among the first n headers. */
  function PagesUpTo(s0: Space, buf: nat, n: nat): set<nat> {
    if n == 0 then {} else
    var ph := PhdrOf(s0, buf, n - 1);
    PagesUpTo(s0, buf, n - 1) + (if ph.Loads() then PageRange(ph.FirstPage(), ph.EndPage()) else {})
  }

  lemma {:induction false} PagesGrow(s0: Space, buf: nat, m: nat, n: nat)
    requires m <= n
    ensures PagesUpTo(s0, buf, m) <= PagesUpTo(s0, buf, n)
    decreases n
  {
    hide PhdrOf;
    if m < n {
      PagesGrow(s0, buf, m, n - 1);
    }
  }

  predicate InFile(s0: Space, buf: nat, size: nat, i: nat) {
    PhdrOf(s0, buf, i).Loads() ==> PhdrOf(s0, buf, i).offset + PhdrOf(s0, buf, i).filesz <= size
  }

  /** Header k loads, and mapping its pages runs dry. */
  ghost predicate DryAt(s0: Space, buf: nat, k: nat) {
    var ph := PhdrOf(s0, buf, k);
    ph.Loads() && RunsDry(s0, PagesUpTo(s0, buf, k), ph.FirstPage(), ph.EndPage())
  }

  /** The headers from i on: all segments lie in the file and the frames suffice for everything. */
  ghost predicate Loadable(s0: Space, buf: nat, size: nat, i: nat) {
    var num := EhdrAt(s0.mem, buf).phnum;
    && (forall j: nat :: i <= j < num ==> InFile(s0, buf, size, j))
    && Demand(s0, PagesUpTo(s0, buf, num)) <= FreeCount(s0)
  }

  /** The headers from i on: the loop reaches one that runs dry. */
  ghost predicate Faults(s0: Space, buf: nat, size: nat, i: nat) {
    exists k: nat :: i <= k < EhdrAt(s0.mem, buf).phnum && DryAt(s0, buf, k) &&
      forall j: nat :: i <= j <= k ==> InFile(s0, buf, size, j)
  }

  /** Once the demand of the headers before k exceeds the free frames, k cannot run dry. */
  lemma DryMeansEnoughBefore(s0: Space, buf: nat, k: nat)
    requires DryAt(s0, buf, k)
    ensures Demand(s0, PagesUpTo(s0, buf, k)) < FreeCount(s0) + 1 == Demand(s0, PagesUpTo(s0, buf, k + 1))
    ensures Demand(s0, PagesUpTo(s0, buf, k)) < FreeCount(s0)
  {
    hide PhdrOf, Demand, LonePage;
    var ph, have := PhdrOf(s0, buf, k), PagesUpTo(s0, buf, k);
    var q :| LonePage(s0, have, ph.FirstPage(), ph.EndPage(), q);
    LonePageCosts(s0, have, ph.FirstPage(), ph.EndPage(), q);
  }

  lemma DemandGrows(s0: Space, buf: nat, m: nat, n: nat)
    requires m <= n
    ensures Demand(s0, PagesUpTo(s0, buf, m)) <= Demand(s0, PagesUpTo(s0, buf, n))
  {
    hide Demand, PagesUpTo;
    PagesGrow(s0, buf, m, n);
    DemandMonotone(s0, PagesUpTo(s0, buf, m), PagesUpTo(s0, buf, n));
  }

  /** What the header at i decides, given the demand of the headers up to it. */
  lemma HeaderDecides(s0: Space, buf: nat, size: nat, i: nat)
    requires i < EhdrAt(s0.mem, buf).phnum
    ensures Loadable(s0, buf, size, i) <==> InFile(s0, buf, size, i) && Loadable(s0, buf, size, i + 1)
    ensures !InFile(s0, buf, size, i) ==> !Faults(s0, buf, size, i)
    ensures Demand(s0, PagesUpTo(s0, buf, i + 1)) > FreeCount(s0) ==>
              && !Loadable(s0, buf, size, i)
              && (Faults(s0, buf, size, i) <==> InFile(s0, buf, size, i) && DryAt(s0, buf, i))
    ensures Demand(s0, PagesUpTo(s0, buf, i + 1)) <= FreeCount(s0) && InFile(s0, buf, size, i) ==>
              (Faults(s0, buf, size, i) <==> Faults(s0, buf, size, i + 1))
  {
    hide EhdrAt, PhdrOf, DryAt, InFile, Demand, PagesUpTo;
    var num := EhdrAt(s0.mem, buf).phnum;
    DemandGrows(s0, buf, i + 1, num);
    if k: nat :| i <= k < num && DryAt(s0, buf, k) && forall j: nat :: i <= j <= k ==> InFile(s0, buf, size, j) {
      DryMeansEnoughBefore(s0, buf, k);
      if k > i {
        DemandGrows(s0, buf, i + 1, k);
      }
    }
    var next := i + 1;
    if InFile(s0, buf, size, i) {
      if k: nat :| next <= k < num && DryAt(s0, buf, k)
                   && forall j: nat :: next <= j <= k ==> InFile(s0, buf, size, j) {
        DryMeansEnoughBefore(s0, buf, k);
        DemandGrows(s0, buf, i + 1, k);
        assert forall j: nat :: i <= j <= k ==> InFile(s0, buf, size, j);
      }
    }
  }

  /** One turn of the loop over the headers. */
  lemma HeaderEnds(s0: Space, s: Space, pages: nat, buf: nat, size: nat, i: nat)
    requires Extends(s0, s, pages) && Gained(s0, s, PagesUpTo(s0, buf, i))
    requires PhdrOf(s0, buf, i).Loads() ==> SegmentReady(s0, buf, size, PhdrOf(s0, buf, i))
    ensures var r, all := LoadSegment(s, buf, size, PhdrOf(s0, buf, i)), PagesUpTo(s0, buf, i + 1);
            && (r.Done? ==> Extends(s0, r.space, pages) && Gained(s0, r.space, all))
            && (r.Done? <==> InFile(s0, buf, size, i) && Demand(s0, all) <= FreeCount(s0))
            && (r.Faulted? <==> InFile(s0, buf, size, i) && Demand(s0, all) > FreeCount(s0) && DryAt(s0, buf, i))
  {
    hide Extends, PhdrOf, LoadSegment, SegmentOk, SourceOk, Gained, RunsDry, Demand;
    var ph := PhdrOf(s0, buf, i);
    SegmentLoads(s0, s, pages, buf, size, ph);
    OutsideFile(s0, s, buf, size, ph);
    if !ph.Loads() {
      assert PagesUpTo(s0, buf, i + 1) == PagesUpTo(s0, buf, i);
      GainedFits(s0, s, PagesUpTo(s0, buf, i));
    } else if InFile(s0, buf, size, i) {
      SegmentGains(s0, s, pages, buf, size, ph, PagesUpTo(s0, buf, i));
    }
  }

  lemma ProgramHeader(s0: Space, buf: nat, size: nat, i: nat)
    requires ProgramOk(s0, buf, size) && i < EhdrAt(s0.mem, buf).phnum
    ensures HeadersOk(s0, buf)
    ensures PhdrOf(s0, buf, i).Loads() ==> SegmentReady(s0, buf, size, PhdrOf(s0, buf, i))
  {
    hide EhdrAt, PhdrOf, HeadersOk, SegmentReady;
  }

  /** The loop over the headers, from any point it reaches. */
  lemma {:induction false} SegmentsEnd(s0: Space, s: Space, pages: nat, buf: nat, size: nat, i: nat)
    requires Extends(s0, s, pages) && ProgramOk(s0, buf, size) && Gained(s0, s, PagesUpTo(s0, buf, i))
    requires i <= EhdrAt(s0.mem, buf).phnum
    ensures var r := LoadSegments(s, buf, size, EhdrAt(s0.mem, buf), i);
            && (r.Done? <==> Loadable(s0, buf, size, i))
            && (r.Faulted? <==> Faults(s0, buf, size, i))
    decreases EhdrAt(s0.mem, buf).phnum - i
  {
    hide Extends, EhdrAt, PhdrAt, PhdrAddr, PhdrOf, LoadSegment, ProgramOk, HeadersOk, Gained, Demand, SegmentReady,
         Loadable, Faults, PagesUpTo, InFile, DryAt, FreeFrames;
    var h := EhdrAt(s0.mem, buf);
    if i == h.phnum {
      GainedFits(s0, s, PagesUpTo(s0, buf, i));
      NoHeaderLeft(s0, buf, size, i);
    } else {
      ProgramHeader(s0, buf, size, i);
      HeaderUnchanged(s0, s, pages, buf, i);
      HeaderEnds(s0, s, pages, buf, size, i);
      HeaderDecides(s0, buf, size, i);
      var r := LoadSegment(s, buf, size, PhdrOf(s0, buf, i));
      if r.Done? {
        SegmentsEnd(s0, r.space, pages, buf, size, i + 1);
      }
    }
  }

  lemma GainedFits(s0: Space, s: Space, have: set<nat>)
    requires Gained(s0, s, have)
    ensures Demand(s0, have) <= FreeCount(s0)
  {
    hide Pte, Pde, NewTables;
  }

  lemma NoHeaderLeft(s0: Space, buf: nat, size: nat, i: nat)
    requires i == EhdrAt(s0.mem, buf).phnum && Demand(s0, PagesUpTo(s0, buf, i)) <= FreeCount(s0)
    ensures Loadable(s0, buf, size, i) && !Faults(s0, buf, size, i)
  {
    hide EhdrAt, PagesUpTo, Demand, DryAt;
  }

  lemma OutsideFile(s0: Space, s: Space, buf: nat, size: nat, ph: Phdr)
    requires ph.Loads() ==> SegmentOk(s0, ph)
    ensures ph.Loads() && ph.offset + ph.filesz > size ==> LoadSegment(s, buf, size, ph) == Rejected(s)
    ensures !ph.Loads() ==> LoadSegment(s, buf, size, ph) == Done(s)
  {
    hide EnsurePages, FillSegment;
  }

  /** Exactly how load_elf_program ends. It succeeds if and only if the headers are plausible, every
      loadable segment lies in the file, and there is a free frame for each page and each new table.
      It ends in a page fault, instead of returning -1, if and only if the loop over the headers
      reaches a segment whose last missing page gets the last frame while its table gets none. */
  lemma LoadEndsExactly(s0: Space, pages: nat, buf: nat, size: nat)
    requires Owned(s0, pages) && ProgramOk(s0, buf, size)
    ensures var r := LoadElf(s0, buf, size).0;
            && (r.Done? <==> Plausible(s0, buf, size) && Loadable(s0, buf, size, 0))
            && (r.Faulted? <==> Plausible(s0, buf, size) && Faults(s0, buf, size, 0))
  {
    hide Owned, Extends, EhdrAt, SegmentReady, HeadersOk, LoadSegments, PhdrOf, Loadable, Faults, KernelByte;
    if Plausible(s0, buf, size) {
      ExtendsItself(s0, pages);
      NothingGained(s0);
      SegmentsEnd(s0, s0, pages, buf, size, 0);
    }
  }

  /** Such a page fault: a first segment of one page, whose table is missing, and a single free frame. */
  lemma SinglePageFaults(s0: Space, pages: nat, buf: nat, size: nat)
    requires Owned(s0, pages) && ProgramOk(s0, buf, size) && Plausible(s0, buf, size)
    requires var ph := PhdrOf(s0, buf, 0);
             && ph.Loads() && ph.offset + ph.filesz <= size && ph.EndPage() == ph.FirstPage() + 1
             && !Present(Pde(s0.mem, s0.dir, ph.FirstPage() / 1024))
    requires FreeCount(s0) == 1
    ensures LoadElf(s0, buf, size).0.Faulted?
  {
    hide Owned, ProgramOk, PhdrOf, Pde, Demand, NewTables, FreeFrames, EhdrAt, LoadElf, KernelByte;
    var ph := PhdrOf(s0, buf, 0);
    var q := ph.FirstPage();
    LoadEndsExactly(s0, pages, buf, size);
    NoPagesFirst(s0, buf);
    DemandOfNothing(s0);
    DemandOneMore(s0, {}, q);
    assert {} + PageRange(q, q + 1) == {} + {q};
    assert LonePage(s0, {}, q, q + 1, q);
    assert DryAt(s0, buf, 0);
    assert InFile(s0, buf, size, 0);
    assert Faults(s0, buf, size, 0);
  }

  lemma NoPagesFirst(s0: Space, buf: nat)
    ensures PagesUpTo(s0, buf, 0) == {}
  {
  }

  lemma DemandOfNothing(s0: Space)
    ensures Demand(s0, {}) == 0 && NewTables(s0, {}) == {}
  {
    assert NewTables(s0, {}) == {};
  }

  lemma NothingGained(s: Space)
    ensures Gained(s, s, {})
  {
    hide Pte, Pde, FreeFrames;
    assert NewTables(s, {}) == {};
  }
}
