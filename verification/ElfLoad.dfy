/** What load_elf_program leaves in the address space. */
module ElfLoad {
  import opened Bytes
  import opened Frames
  import opened PageTables
  import opened AddressSpace
  import opened Options
  import opened ElfImage

  /** Page q got its frame between s0 and s. */
  predicate New(s0: Space, s: Space, q: nat) {
    q < 0x10_0000 && !Present(Pte(s0.mem, s0.dir, q)) && Present(Pte(s.mem, s.dir, q))
  }

  function FrameAt(s: Space, q: nat): nat {
    FrameOf(Pte(s.mem, s.dir, q))
  }

  /** Pages that had a frame still have it. */
  ghost predicate KeepsPages(s0: Space, s: Space) {
    forall q: nat :: q < 0x10_0000 && Present(Pte(s0.mem, s0.dir, q)) ==> Pte(s.mem, s.dir, q) == Pte(s0.mem, s0.dir, q)
  }

  /** New pages have frames of their own that were free before and hold no table, and user code may read
      and write them. */
  ghost predicate NewFrames(s0: Space, s: Space) {
    && (forall q: nat :: New(s0, s, q) ==>
          && FrameAt(s, q) in s.pmm.used && FrameAt(s, q) !in s0.pmm.used
          && FrameAt(s, q) !in TableFrames(s.mem, s.dir)
          && FrameAt(s, q) < s.pmm.maxFrames
          && Pte(s.mem, s.dir, q) % 4096 == 7)
    && (forall q: nat, r: nat :: New(s0, s, q) && New(s0, s, r) && q != r ==> FrameAt(s, q) != FrameAt(s, r))
  }

  /** Memory that was in use, other than directory and tables, keeps its bytes. */
  ghost predicate KeepsMemory(s0: Space, s: Space) {
    && |s.mem| == |s0.mem|
    && TableFrames(s.mem, s.dir) <= TableFrames(s0.mem, s0.dir) + (s.pmm.used - s0.pmm.used)
    && forall a: nat :: InUse(s0, a) ==> s.mem[a] == s0.mem[a]
  }

  /** The byte belongs to a frame in use that holds neither the directory nor a table. */
  predicate InUse(s: Space, a: nat) {
    a < |s.mem| && a / 4096 in s.pmm.used && a / 4096 != s.dir && a / 4096 !in TableFrames(s.mem, s.dir)
  }

  /** s extends s0 by new pages only. */
  ghost predicate Extends(s0: Space, s: Space, pages: nat) {
    && Owned(s, pages)
    && s0.dir in s0.pmm.used && TableFrames(s0.mem, s0.dir) <= s0.pmm.used
    && s.dir == s0.dir && s0.pmm.used <= s.pmm.used && s.pmm.maxFrames == s0.pmm.maxFrames
    && KeepsPages(s0, s) && NewFrames(s0, s) && KeepsMemory(s0, s)
  }

  lemma ExtendsItself(s: Space, pages: nat)
    requires Owned(s, pages)
    ensures Extends(s, s, pages)
  {
    hide Pte, TableFrames, Word, TablesOk;
    OwnedTables(s, pages);
  }

  lemma OwnedTables(s: Space, pages: nat)
    requires Owned(s, pages)
    ensures s.dir in s.pmm.used && TableFrames(s.mem, s.dir) <= s.pmm.used && s.dir !in TableFrames(s.mem, s.dir)
  {
    hide Pte, Word, IdentityMapped;
    TablesAreUsed(s.mem, s.dir, s.pmm.used);
  }

  // ----- Storing a byte on a new page -----

  lemma NewIsMapped(s0: Space, s: Space, pages: nat, v: nat)
    requires Extends(s0, s, pages) && v < 0x1_0000_0000 && New(s0, s, v / 4096)
    ensures Mapped(s, v) && Translate(s.mem, s.dir, v) == Some(4096 * FrameAt(s, v / 4096) + v % 4096)
  {
    hide Word, TablesOk, TableFrames, KeepsPages, KeepsMemory, IdentityMapped;
    assert FrameAt(s, v / 4096) < s.pmm.maxFrames;
  }

  /** A stored byte reads back; every other byte of new pages, all translations and all memory that
      was in use before stay. */
  lemma StoreOnNewPage(s0: Space, s: Space, pages: nat, v: nat, b: byte)
    requires Extends(s0, s, pages) && v < 0x1_0000_0000 && New(s0, s, v / 4096)
    ensures var r := StoreByte(s, v, b);
            && r.Done?
            && SameTranslation(s, r.space)
            && Extends(s0, r.space, pages)
  {
    hide Word, TablesOk, TableFrames, Pte, IdentityMapped, SameOutside;
    NewIsMapped(s0, s, pages, v);
    var f := FrameAt(s, v / 4096);
    var a := 4096 * f + v % 4096;
    var s' := s.(mem := s.mem[a := b]);
    assert StoreByte(s, v, b) == Done(s');
    ByteStays(s.mem, f, v % 4096, b);
    TablesAreUsed(s.mem, s.dir, s.pmm.used);
    TablesStay(s.mem, s'.mem, s.dir, s.pmm.used, {f});
    ExtendsAfterStore(s0, s, s', pages, f);
  }

  /** The two spaces have the same page tables and the same allocator. */
  ghost predicate SameTranslation(s: Space, s': Space) {
    && s'.dir == s.dir && s'.pmm == s.pmm && |s'.mem| == |s.mem|
    && TableFrames(s'.mem, s'.dir) == TableFrames(s.mem, s.dir)
    && (forall i :: 0 <= i < 1024 ==> Pde(s'.mem, s'.dir, i) == Pde(s.mem, s.dir, i))
    && forall q :: 0 <= q < 0x10_0000 ==> Pte(s'.mem, s'.dir, q) == Pte(s.mem, s.dir, q)
  }

  lemma ByteStays(m: Memory, f: nat, offset: nat, b: byte)
    requires offset < 4096 && 4096 * f + 4096 <= |m|
    ensures SameOutside(m, m[4096 * f + offset := b], {f})
  {
    assert (4096 * f + offset) / 4096 == f;
  }

  lemma ExtendsAfterStore(s0: Space, s: Space, s': Space, pages: nat, f: nat)
    requires Extends(s0, s, pages) && SameTranslation(s, s') && TablesOk(s'.mem, s'.dir, s'.pmm.used)
    requires SameOutside(s.mem, s'.mem, {f}) && f !in s0.pmm.used
    ensures Extends(s0, s', pages)
  {
    hide Word, TablesOk, TableFrames, Pte, Pde;
    assert forall q: nat :: New(s0, s', q) <==> New(s0, s, q);
  }

  lemma StoredByteReads(s0: Space, s: Space, pages: nat, v: nat, b: byte, w: nat)
    requires Extends(s0, s, pages) && v < 0x1_0000_0000 && New(s0, s, v / 4096)
    requires w < 0x1_0000_0000 && New(s0, s, w / 4096)
    ensures var r := StoreByte(s, v, b);
            r.Done? && Mapped(r.space, w) && Mapped(s, w) &&
            ByteAt(r.space, w) == if w == v then b else ByteAt(s, w)
  {
    hide Word, TablesOk, TableFrames, Pte, Owned, KeepsMemory, KeepsPages, SameOutside, Pde;
    StoreOnNewPage(s0, s, pages, v, b);
    NewIsMapped(s0, s, pages, v);
    NewIsMapped(s0, s, pages, w);
    var s' := StoreByte(s, v, b).space;
    NewIsMapped(s0, s', pages, w);
    if v / 4096 != w / 4096 {
      assert FrameAt(s, v / 4096) != FrameAt(s, w / 4096);
    }
  }

  // ----- Mapping a page -----

  /** Bytes of pages that are already new stay readable and keep their value. */
  ghost predicate Grows(s0: Space, s: Space, s': Space) {
    forall w: nat :: w < 0x1_0000_0000 && New(s0, s, w / 4096) ==>
      New(s0, s', w / 4096) && Mapped(s, w) && Mapped(s', w) && ByteAt(s', w) == ByteAt(s, w)
  }

  /** pmm_alloc_block would return 0. */
  predicate OutOfFrames(s: Space) {
    Alloc(s.pmm).1 == 0
  }

  /** Marking a frame used, without mapping it, keeps everything. */
  lemma AllocExtends(s0: Space, s: Space, pages: nat)
    requires Extends(s0, s, pages)
    ensures var s1 := s.(pmm := Alloc(s.pmm).0);
            Extends(s0, s1, pages) && Grows(s0, s, s1)
  {
    hide Word, TablesOk, TableFrames, Pte, Pde, IdentityMapped;
    var s1 := s.(pmm := Alloc(s.pmm).0);
    StepKeepsOwned(s, pages, AllocBlock);
    AllocTakesLeast(s.pmm);
    assert forall q: nat :: New(s0, s1, q) <==> New(s0, s, q);
    forall w: nat | w < 0x1_0000_0000 && New(s0, s, w / 4096)
      ensures Mapped(s, w)
    {
      NewIsMapped(s0, s, pages, w);
    }
  }

  /** Mapping a page to a frame that was taken for it keeps everything and adds the page. */
  lemma MapExtends(s0: Space, s: Space, pages: nat, page: nat, f: nat)
    requires Extends(s0, s, pages) && page < 0x10_0000 && !Present(Pte(s.mem, s.dir, page))
    requires f in s.pmm.used && f !in s0.pmm.used && f < s.pmm.maxFrames && f !in TableFrames(s.mem, s.dir)
    requires forall q: nat :: New(s0, s, q) ==> FrameAt(s, q) != f
    ensures var (m, p) := MapPage(s.mem, s.dir, s.pmm, f, page, 7);
            var s' := s.(mem := m, pmm := p);
            && Extends(s0, s', pages)
            && Grows(s0, s, s')
            && (Present(Pte(s'.mem, s'.dir, page)) || OutOfFrames(s'))
  {
    hide Word, TablesOk, TableFrames, Pde, MapPage, MakeEntry, SameOutside, Grows, Owned, NewFrames, KeepsMemory,
         Alloc;
    NotPresentIsAbove(s, pages, page);
    OwnedParts(s, pages);
    var (m, p) := MapPage(s.mem, s.dir, s.pmm, f, page, 7);
    var s' := s.(mem := m, pmm := p);
    MapKeepsOwned(s, pages, f, page, 7);
    MapPageRefines(s.mem, s.dir, s.pmm, f, page, 7);
    MapPageFrame(s.mem, s.dir, s.pmm, f, page, 7);
    if CanMap(s.mem, s.dir, s.pmm, page) {
      MappedFrames(s0, s, s', page, f);
      MappedMemory(s0, s, s');
      MappedBytes(s0, s, s', pages);
    } else {
      SameGrows(s0, s, pages);
    }
  }

  lemma OwnedParts(s: Space, pages: nat)
    requires Owned(s, pages)
    ensures s.pmm.Valid() && 0 in s.pmm.used && 4096 * s.pmm.maxFrames <= |s.mem|
    ensures TablesOk(s.mem, s.dir, s.pmm.used)
  {
  }

  lemma NotPresentIsAbove(s: Space, pages: nat, page: nat)
    requires Owned(s, pages) && page < 0x10_0000 && !Present(Pte(s.mem, s.dir, page))
    ensures pages <= page
  {
    hide Word, TablesOk, TableFrames, Pte;
    if page < pages {
      EntryParts(page, 7);
    }
  }

  lemma SameGrows(s0: Space, s: Space, pages: nat)
    requires Extends(s0, s, pages)
    ensures Grows(s0, s, s)
  {
    forall w: nat | w < 0x1_0000_0000 && New(s0, s, w / 4096)
      ensures Mapped(s, w)
    {
      NewIsMapped(s0, s, pages, w);
    }
  }

  /** s' differs from s by one more page. */
  ghost predicate OneMore(s: Space, s': Space, page: nat, entry: nat) {
    forall q :: 0 <= q < 0x10_0000 ==> Pte(s'.mem, s'.dir, q) == if q == page then entry else Pte(s.mem, s.dir, q)
  }

  lemma MappedFrames(s0: Space, s: Space, s': Space, page: nat, f: nat)
    requires NewFrames(s0, s) && page < 0x10_0000 && f < 0x10_0000 && s.dir == s'.dir
    requires OneMore(s, s', page, MakeEntry(f, 7))
    requires s.pmm.used <= s'.pmm.used && s'.pmm.maxFrames == s.pmm.maxFrames
    requires TableFrames(s'.mem, s'.dir) <= TableFrames(s.mem, s.dir) + (s'.pmm.used - s.pmm.used)
    requires f in s.pmm.used && f !in s0.pmm.used && f < s.pmm.maxFrames && f !in TableFrames(s.mem, s.dir)
    requires forall q: nat :: New(s0, s, q) ==> FrameAt(s, q) != f
    ensures NewFrames(s0, s')
  {
    hide Pte, TableFrames, MakeEntry;
    assert forall q: nat :: New(s0, s', q) && q != page ==> New(s0, s, q) && FrameAt(s', q) == FrameAt(s, q);
    assert New(s0, s', page) ==> FrameAt(s', page) == f;
  }

  lemma MappedMemory(s0: Space, s: Space, s': Space)
    requires KeepsMemory(s0, s) && s.dir == s'.dir == s0.dir && s0.pmm.used <= s.pmm.used <= s'.pmm.used
    requires SameOutside(s.mem, s'.mem, TableFrames(s'.mem, s'.dir) + {s.dir})
    requires TableFrames(s'.mem, s'.dir) <= TableFrames(s.mem, s.dir) + (s'.pmm.used - s.pmm.used)
    ensures KeepsMemory(s0, s')
  {
    hide TableFrames;
    forall a: nat | InUse(s0, a)
      ensures s'.mem[a] == s0.mem[a]
    {
      assert s.mem[a] == s0.mem[a];
    }
  }

  lemma MappedBytes(s0: Space, s: Space, s': Space, pages: nat)
    requires Extends(s0, s, pages) && s'.dir == s.dir && s.pmm.used <= s'.pmm.used
    requires NewFrames(s0, s') && Owned(s', pages) && KeepsMemory(s0, s') && KeepsPages(s0, s')
    requires s'.pmm.maxFrames == s.pmm.maxFrames
    requires forall q: nat :: New(s0, s, q) ==> Pte(s'.mem, s'.dir, q) == Pte(s.mem, s.dir, q)
    requires SameOutside(s.mem, s'.mem, TableFrames(s'.mem, s'.dir) + {s.dir})
    ensures Grows(s0, s, s')
  {
    hide Word, TablesOk, TableFrames, Pte, Pde, Owned, KeepsMemory, KeepsPages;
    forall w: nat | w < 0x1_0000_0000 && New(s0, s, w / 4096)
      ensures New(s0, s', w / 4096) && Mapped(s, w) && Mapped(s', w) && ByteAt(s', w) == ByteAt(s, w)
    {
      NewIsMapped(s0, s, pages, w);
      NewIsMapped(s0, s', pages, w);
      var f := FrameAt(s, w / 4096);
      assert f !in TableFrames(s'.mem, s'.dir) && f != s.dir;
      assert (4096 * f + w % 4096) / 4096 == f;
    }
  }

  lemma GrowsTransitive(s0: Space, a: Space, b: Space, c: Space)
    requires Grows(s0, a, b) && Grows(s0, b, c)
    ensures Grows(s0, a, c)
  {
    hide Mapped, New;
  }

  /** Giving a page a frame: nothing is disturbed, and the page is there unless frames ran out. */
  lemma EnsurePageExtends(s0: Space, s: Space, pages: nat, page: nat)
    requires Extends(s0, s, pages) && page < 0x10_0000
    ensures var r := EnsurePage(s, page);
            && !r.Faulted?
            && Extends(s0, r.space, pages) && Grows(s0, s, r.space)
            && (r.Done? ==> Present(Pte(r.space.mem, r.space.dir, page)) || OutOfFrames(r.space))
            && (r.Rejected? ==> OutOfFrames(r.space))
            && (OutOfFrames(s) ==> OutOfFrames(r.space))
  {
    hide Word, TablesOk, TableFrames, Pde, MapPage, MakeEntry, Grows, Owned, NewFrames, KeepsMemory, KeepsPages;
    OwnedParts(s, pages);
    AllocTakesLeast(s.pmm);
    if Present(Pte(s.mem, s.dir, page)) {
      SameGrows(s0, s, pages);
    } else {
      AllocExtends(s0, s, pages);
      var (p, phys) := Alloc(s.pmm);
      var s1 := s.(pmm := p);
      if phys != 0 {
        FreshFrame(s0, s, s1, pages, phys / 4096);
        MapExtends(s0, s1, pages, page, phys / 4096);
        var (m, p') := MapPage(s1.mem, s1.dir, s1.pmm, phys / 4096, page, 7);
        GrowsTransitive(s0, s, s1, s.(mem := m, pmm := p'));
      }
    }
  }

  lemma FreshFrame(s0: Space, s: Space, s1: Space, pages: nat, f: nat)
    requires Extends(s0, s, pages) && f !in s.pmm.used
    requires s1 == s.(pmm := s1.pmm)
    ensures f !in s0.pmm.used && f !in TableFrames(s1.mem, s1.dir)
    ensures forall q: nat :: New(s0, s1, q) ==> FrameAt(s1, q) != f
  {
    hide Word, TablesOk, TableFrames, Pte, Pde;
    OwnedTables(s, pages);
    assert forall q: nat :: New(s0, s1, q) <==> New(s0, s, q);
  }

  lemma {:induction false} EnsurePagesExtends(s0: Space, s: Space, pages: nat, page: nat, end: nat)
    requires Extends(s0, s, pages) && end <= 0x10_0000
    ensures var r := EnsurePages(s, page, end);
            && !r.Faulted?
            && Extends(s0, r.space, pages) && Grows(s0, s, r.space)
            && (r.Done? ==> OutOfFrames(r.space) || AllPresent(r.space, page, end))
            && (r.Rejected? ==> OutOfFrames(r.space))
            && (OutOfFrames(s) ==> OutOfFrames(r.space))
    decreases end - page
  {
    hide Pte, Grows, EnsurePage, Owned, NewFrames, KeepsMemory, KeepsPages, OutOfFrames;
    if page >= end {
      SameGrows(s0, s, pages);
    } else {
      EnsurePageExtends(s0, s, pages, page);
      var r := EnsurePage(s, page);
      if r.Done? {
        EnsurePagesExtends(s0, r.space, pages, page + 1, end);
        var r' := EnsurePages(r.space, page + 1, end);
        GrowsTransitive(s0, s, r.space, r'.space);
        if Present(Pte(r.space.mem, r.space.dir, page)) {
          PresentStays(s0, r.space, r'.space, pages, page);
        }
      }
    }
  }

  predicate AllPresent(s: Space, page: nat, end: nat) {
    forall q: nat :: page <= q < end ==> Present(Pte(s.mem, s.dir, q))
  }

  lemma PresentStays(s0: Space, s: Space, s': Space, pages: nat, q: nat)
    requires Extends(s0, s, pages) && Extends(s0, s', pages) && Grows(s0, s, s')
    requires q < 0x10_0000 && Present(Pte(s.mem, s.dir, q))
    ensures Present(Pte(s'.mem, s'.dir, q))
  {
    hide Pte, Owned, NewFrames, KeepsMemory;
    if !Present(Pte(s0.mem, s0.dir, q)) {
      assert New(s0, s, 4096 * q / 4096);
    }
  }

  // ----- Filling a segment -----

  /** All pages of [v, v + n) are new. */
  ghost predicate NewRange(s0: Space, s: Space, v: nat, n: nat) {
    forall w: nat :: v <= w < v + n ==> New(s0, s, w / 4096)
  }

  ghost predicate UnmappedRange(s0: Space, v: nat, n: nat) {
    forall w: nat :: v <= w < v + n ==> !Present(Pte(s0.mem, s0.dir, w / 4096))
  }

  /** After a store phase: [v, v + n) holds the wanted bytes, other bytes of new pages are as before. */
  ghost predicate Stored(s0: Space, s: Space, s': Space, v: nat, bytes: seq<byte>) {
    forall w: nat :: w < 0x1_0000_0000 && New(s0, s, w / 4096) ==>
      && New(s0, s', w / 4096) && Mapped(s, w) && Mapped(s', w)
      && ByteAt(s', w) == if v <= w < v + |bytes| then bytes[w - v] else ByteAt(s, w)
  }

  lemma StoredNothing(s0: Space, s: Space, pages: nat, v: nat)
    requires Extends(s0, s, pages)
    ensures Stored(s0, s, s, v, [])
  {
    SameGrows(s0, s, pages);
  }

  lemma StoredCons(s0: Space, s: Space, s1: Space, s2: Space, v: nat, bytes: seq<byte>)
    requires bytes != []
    requires Stored(s0, s, s1, v, [bytes[0]]) && Stored(s0, s1, s2, v + 1, bytes[1..])
    ensures Stored(s0, s, s2, v, bytes)
  {
    hide New, Mapped;
  }

  lemma StoredOne(s0: Space, s: Space, pages: nat, v: nat, b: byte)
    requires Extends(s0, s, pages) && v < 0x1_0000_0000 && New(s0, s, v / 4096)
    ensures StoreByte(s, v, b).Done? && Stored(s0, s, StoreByte(s, v, b).space, v, [b])
    ensures Extends(s0, StoreByte(s, v, b).space, pages) && SameTranslation(s, StoreByte(s, v, b).space)
  {
    hide Owned, NewFrames, KeepsMemory, KeepsPages, StoreByte, Pte, Pde, TableFrames;
    StoreOnNewPage(s0, s, pages, v, b);
    forall w: nat | w < 0x1_0000_0000 && New(s0, s, w / 4096)
      ensures Mapped(s, w) && Mapped(StoreByte(s, v, b).space, w)
      ensures ByteAt(StoreByte(s, v, b).space, w) == if w == v then b else ByteAt(s, w)
    {
      StoredByteReads(s0, s, pages, v, b, w);
    }
  }

  /** memset through virtual addresses: done exactly when every page of the range is there. */
  lemma {:induction false} ClearStores(s0: Space, s: Space, pages: nat, v: nat, n: nat)
    requires Extends(s0, s, pages) && v + n <= 0x1_0000_0000 && UnmappedRange(s0, v, n)
    ensures var r := Clear(s, v, n);
            && !r.Rejected?
            && r.space.pmm == s.pmm
            && (r.Done? <==> NewRange(s0, s, v, n))
            && (r.Done? ==>
                  && Extends(s0, r.space, pages) && SameTranslation(s, r.space)
                  && Stored(s0, s, r.space, v, Zeros(n)))
    decreases n
  {
    hide Owned, NewFrames, KeepsMemory, KeepsPages, Pte, Pde, TableFrames, StoreByte, Stored;
    if n == 0 {
      StoredNothing(s0, s, pages, v);
      assert Zeros(0) == [];
    } else if New(s0, s, v / 4096) {
      StoredOne(s0, s, pages, v, 0);
      var s1 := StoreByte(s, v, 0).space;
      ClearStores(s0, s1, pages, v + 1, n - 1);
      NewRangeCons(s0, s, s1, v, n);
      var r := Clear(s1, v + 1, n - 1);
      if r.Done? {
        assert Zeros(n)[0] == 0 && Zeros(n)[1..] == Zeros(n - 1);
        StoredCons(s0, s, s1, r.space, v, Zeros(n));
        SameTranslationTransitive(s, s1, r.space);
      }
    } else {
      NotNewFaults(s0, s, v, 0);
    }
  }

  lemma SameTranslationTransitive(a: Space, b: Space, c: Space)
    requires SameTranslation(a, b) && SameTranslation(b, c)
    ensures SameTranslation(a, c)
  {
    hide Pte, Pde, TableFrames;
  }

  lemma NewRangeCons(s0: Space, s: Space, s1: Space, v: nat, n: nat)
    requires n > 0 && v + n <= 0x1_0000_0000 && SameTranslation(s, s1) && New(s0, s, v / 4096)
    ensures NewRange(s0, s, v, n) <==> NewRange(s0, s1, v + 1, n - 1)
  {
    hide Pte, Pde, TableFrames;
    assert forall w: nat :: w < 0x1_0000_0000 ==> (New(s0, s, w / 4096) <==> New(s0, s1, w / 4096));
  }

  lemma NotNewFaults(s0: Space, s: Space, v: nat, b: byte)
    requires v < 0x1_0000_0000 && !Present(Pte(s0.mem, s0.dir, v / 4096)) && !New(s0, s, v / 4096)
    ensures StoreByte(s, v, b) == Faulted(s)
  {
    hide Pte, Pde;
  }

  /** The n bytes at a physical address. */
  function BytesAt(m: Memory, src: nat, n: nat): (r: seq<byte>)
    requires n > 0 ==> src + n <= |m|
    ensures |r| == n && forall k :: 0 <= k < n ==> r[k] == m[src + k]
  {
    if n == 0 then [] else m[src..src + n]
  }

  /** memcpy from memory in use to virtual addresses. */
  lemma {:induction false} CopyStores(s0: Space, s: Space, pages: nat, v: nat, src: nat, n: nat)
    requires Extends(s0, s, pages) && v + n <= 0x1_0000_0000 && UnmappedRange(s0, v, n)
    requires n > 0 ==> src + n <= |s0.mem|
    requires forall a: nat :: src <= a < src + n ==> InUse(s0, a)
    ensures |s.mem| == |s0.mem|
    ensures var r := CopyIn(s, v, src, n);
            && !r.Rejected?
            && r.space.pmm == s.pmm
            && (r.Done? <==> NewRange(s0, s, v, n))
            && (r.Done? ==>
                  && Extends(s0, r.space, pages) && SameTranslation(s, r.space)
                  && Stored(s0, s, r.space, v, BytesAt(s0.mem, src, n)))
    decreases n
  {
    hide Owned, NewFrames, KeepsPages, Pte, Pde, TableFrames, StoreByte, Stored, InUse;
    var bytes := BytesAt(s0.mem, src, n);
    if n == 0 {
      StoredNothing(s0, s, pages, v);
    } else if New(s0, s, v / 4096) {
      assert InUse(s0, src);
      StoredOne(s0, s, pages, v, s.mem[src]);
      assert KernelByte(s, src) == s.mem[src];
      var s1 := StoreByte(s, v, s.mem[src]).space;
      CopyStores(s0, s1, pages, v + 1, src + 1, n - 1);
      NewRangeCons(s0, s, s1, v, n);
      var r := CopyIn(s1, v + 1, src + 1, n - 1);
      if r.Done? {
        assert bytes[0] == s0.mem[src] == s.mem[src] && bytes[1..] == BytesAt(s0.mem, src + 1, n - 1);
        StoredCons(s0, s, s1, r.space, v, bytes);
        SameTranslationTransitive(s, s1, r.space);
      }
    } else {
      NotNewFaults(s0, s, v, KernelByte(s, src));
    }
  }
}
