/** Translation through the page tables: ownership over whole runs, what writes to other frames leave
    alone, the identity region, and what validate_user_region accepts. */
module AddressSpace {
  import opened Options
  import opened Frames
  import opened PageTables

  /** Writing to frames that hold neither the directory nor a table changes no translation. */
  lemma TablesStay(m: Memory, m': Memory, dir: nat, used: set<nat>, frames: set<nat>)
    requires TablesOk(m, dir, used) && SameOutside(m, m', frames)
    requires dir !in frames && frames !! TableFrames(m, dir)
    ensures TablesOk(m', dir, used)
    ensures forall i :: 0 <= i < 1024 ==> Pde(m', dir, i) == Pde(m, dir, i)
    ensures forall q :: 0 <= q < 0x10_0000 ==> Pte(m', dir, q) == Pte(m, dir, q)
    ensures TableFrames(m', dir) == TableFrames(m, dir)
  {
    hide Word, TableFrames;
    forall i | 0 <= i < 1024
      ensures Pde(m', dir, i) == Pde(m, dir, i)
    {
      WordStays(m, m', frames, dir, 4 * i);
    }
    TablesUnchanged(m, m', dir);
    forall q | 0 <= q < 0x10_0000
      ensures Pte(m', dir, q) == Pte(m, dir, q)
    {
      var pde := Pde(m, dir, q / 1024);
      if Present(pde) {
        TableIsAmong(m, dir, q / 1024);
        WordStays(m, m', frames, FrameOf(pde), 4 * (q % 1024));
      }
    }
  }

  lemma WordStays(m: Memory, m': Memory, frames: set<nat>, f: nat, offset: nat)
    requires SameOutside(m, m', frames) && f !in frames && offset + 4 <= 4096
    ensures Word(m', 4096 * f + offset) == Word(m, 4096 * f + offset)
  {
    forall i: nat | 4096 * f + offset <= i < 4096 * f + offset + 4 && i < |m|
      ensures m'[i] == m[i]
    {
      assert i / 4096 == f;
    }
    WordUnchanged(m, m', 4096 * f + offset);
  }

  lemma TablesOkMonotone(m: Memory, dir: nat, used: set<nat>, more: set<nat>)
    requires TablesOk(m, dir, used) && used <= more
    ensures TablesOk(m, dir, more)
  {
    hide Word;
  }

  lemma TablesAreUsed(m: Memory, dir: nat, used: set<nat>)
    requires TablesOk(m, dir, used)
    ensures TableFrames(m, dir) <= used && dir !in TableFrames(m, dir)
  {
    hide Word;
  }

  /** Linking a filled table makes its words the entries of the pages it serves. */
  lemma LinkTable(m: Memory, dir: nat, used: set<nat>, i: nat, t: nat)
    requires TablesOk(m, dir, used) && i < 1024 && !Present(Pde(m, dir, i))
    requires t !in used && t < 0x10_0000 && 4096 * t + 4096 <= |m|
    ensures var m' := SetWord(m, 4096 * dir + 4 * i, 4096 * t + 7);
            && Pde(m', dir, i) == 4096 * t + 7
            && TablesOk(m', dir, used + {t})
            && (forall k :: 0 <= k < 1024 && k != i ==> Pde(m', dir, k) == Pde(m, dir, k))
            && (forall q :: 0 <= q < 0x10_0000 ==>
                  Pte(m', dir, q) == if q / 1024 == i then Word(m, 4096 * t + 4 * (q % 1024)) else Pte(m, dir, q))
  {
    hide Word, SetWord, SameOutside;
    var m' := SetWord(m, 4096 * dir + 4 * i, 4096 * t + 7);
    EntryParts(t, 7);
    SetWordStays(m, dir, 4 * i, 4096 * t + 7);
    forall k | 0 <= k < 1024 && k != i
      ensures Pde(m', dir, k) == Pde(m, dir, k)
    {
      WordUnchanged(m, m', 4096 * dir + 4 * k);
    }
    forall q | 0 <= q < 0x10_0000
      ensures Pte(m', dir, q) == if q / 1024 == i then Word(m, 4096 * t + 4 * (q % 1024)) else Pte(m, dir, q)
    {
      var pde := Pde(m, dir, q / 1024);
      if q / 1024 == i {
        WordStays(m, m', {dir}, t, 4 * (q % 1024));
      } else if Present(pde) {
        WordStays(m, m', {dir}, FrameOf(pde), 4 * (q % 1024));
      }
    }
  }

  // ----- Translation -----

  /** The physical address of a virtual one; None is a page fault. */
  function Translate(m: Memory, dir: nat, v: nat): Option<nat>
  {
    var pte := Pte(m, dir, v / 4096);
    if Present(Pde(m, dir, v / 4096 / 1024)) && Present(pte) then Some(4096 * FrameOf(pte) + v % 4096) else None
  }

  /** In the identity region, which holds the directory and all tables, the kernel's pointers are
      physical addresses: this is what lets map_page write tables through plain pointers. */
  lemma KernelPointersArePhysical(m: Memory, dir: nat, pages: nat, v: nat)
    requires IdentityMapped(m, dir, pages) && v / 4096 < pages
    ensures Translate(m, dir, v) == Some(v)
  {
    EntryParts(v / 4096, 7);
    assert Pte(m, dir, v / 4096) == 4096 * (v / 4096) + 7;
  }

  // ----- Ownership over runs -----

  datatype Space = Space(mem: Memory, dir: nat, pmm: Pmm)

  datatype Event = AllocBlock | BumpAlloc(size: nat) | Map(frame: nat, page: nat, flags: nat)

  /** The tables are owned, the first `pages` pages are the identity, and the directory and all tables
      lie in them. Nor will the PMM hand out a frame outside them. */
  ghost predicate Owned(s: Space, pages: nat) {
    && s.pmm.Valid() && 0 in s.pmm.used
    && 4096 * s.pmm.maxFrames <= |s.mem|
    && s.pmm.FreeBelow(pages) && pages <= 0x10_0000
    && TablesOk(s.mem, s.dir, s.pmm.used)
    && IdentityMapped(s.mem, s.dir, pages)
    && s.dir < pages
    && forall f :: f in TableFrames(s.mem, s.dir) ==> f < pages
  }

  /** What the events need: page-aligned arguments in range, mappings above the identity region, and
      bump allocations below the end of the bitmap. */
  predicate EventOk(s: Space, pages: nat, e: Event) {
    match e
    case AllocBlock => true
    case BumpAlloc(size) => s.pmm.bump + 4096 + size <= FRAMES * 4096
    case Map(frame, page, flags) => pages <= page < 0x10_0000 && frame < 0x10_0000 && flags < 4096
  }

  function Step(s: Space, pages: nat, e: Event): Space
    requires EventOk(s, pages, e)
  {
    match e
    case AllocBlock => s.(pmm := Alloc(s.pmm).0)
    case BumpAlloc(size) => s.(pmm := KMallocA(s.pmm, size).0)
    case Map(frame, page, flags) =>
      var (m, p) := MapPage(s.mem, s.dir, s.pmm, frame, page, flags);
      s.(mem := m, pmm := p)
  }

  lemma StepKeepsOwned(s: Space, pages: nat, e: Event)
    requires Owned(s, pages) && EventOk(s, pages, e)
    ensures Owned(Step(s, pages, e), pages)
  {
    hide Pte, TableFrames, TablesOk, FramesOf, MapPage;
    AllocTakesLeast(s.pmm);
    match e
    case AllocBlock =>
      TablesOkMonotone(s.mem, s.dir, s.pmm.used, Alloc(s.pmm).0.used);
    case BumpAlloc(size) =>
      BumpStaysInBitmap(s.pmm, size);
      TablesOkMonotone(s.mem, s.dir, s.pmm.used, KMallocA(s.pmm, size).0.used);
    case Map(frame, page, flags) =>
      MapKeepsOwned(s, pages, frame, page, flags);
  }

  lemma BumpStaysInBitmap(p: Pmm, size: nat)
    requires p.Valid() && p.bump + 4096 + size <= FRAMES * 4096
    ensures KMallocA(p, size).0.Valid() && p.used <= KMallocA(p, size).0.used
  {
  }

  lemma MapKeepsOwned(s: Space, pages: nat, frame: nat, page: nat, flags: nat)
    requires Owned(s, pages) && pages <= page < 0x10_0000 && frame < 0x10_0000 && flags < 4096
    ensures Owned(Step(s, pages, Map(frame, page, flags)), pages)
  {
    hide Pte, TableFrames, TablesOk, SameOutside, MakeEntry;
    MapPageRefines(s.mem, s.dir, s.pmm, frame, page, flags);
    MapPageFrame(s.mem, s.dir, s.pmm, frame, page, flags);
    AllocTakesLeast(s.pmm);
    var s' := Step(s, pages, Map(frame, page, flags));
    forall f | f in s'.pmm.used - s.pmm.used
      ensures f < pages
    {
      assert f == Alloc(s.pmm).1 / 4096;
    }
  }

  predicate RunOk(s: Space, pages: nat, es: seq<Event>)
    decreases |es|
  {
    es == [] || (EventOk(s, pages, es[0]) && RunOk(Step(s, pages, es[0]), pages, es[1..]))
  }

  function Run(s: Space, pages: nat, es: seq<Event>): Space
    requires RunOk(s, pages, es)
    decreases |es|
  {
    if es == [] then s else Run(Step(s, pages, es[0]), pages, es[1..])
  }

  /** Table ownership and the identity region survive every run of frame allocations, bump allocations
      and mappings above the identity region. */
  lemma {:induction false} RunKeepsOwned(s: Space, pages: nat, es: seq<Event>)
    requires Owned(s, pages) && RunOk(s, pages, es)
    ensures Owned(Run(s, pages, es), pages)
    decreases |es|
  {
    hide TablesOk, Pte, TableFrames, Step, IdentityMapped;
    if es != [] {
      StepKeepsOwned(s, pages, es[0]);
      RunKeepsOwned(Step(s, pages, es[0]), pages, es[1..]);
    }
  }

  // ----- validate_user_region -----

  /** User code may access the byte: in both entries bit 0 (present) and bit 2 (user) are set. */
  predicate UserByte(m: Memory, dir: nat, v: nat) {
    && Pde(m, dir, v / 4096 / 1024) % 2 == 1 && Pde(m, dir, v / 4096 / 1024) % 8 >= 4
    && Pte(m, dir, v / 4096) % 2 == 1 && Pte(m, dir, v / 4096) % 8 >= 4
  }

  /** What the loop tests at an address: the directory entry's user bit is not looked at. */
  predicate PageTested(m: Memory, dir: nat, v: nat) {
    && Present(Pde(m, dir, v / 4096 / 1024))
    && Present(Pte(m, dir, v / 4096)) && User(Pte(m, dir, v / 4096))
  }

  predicate InUserBounds(addr: nat, len: nat) {
    0x10_0000 <= addr && addr + len <= 0xC000_0000
  }

  /** validate_user_region on a non-empty range: bounds, then one test per 4096 bytes from addr. */
  ghost predicate Accepts(m: Memory, dir: nat, addr: nat, len: nat) {
    && InUserBounds(addr, len)
    && forall k: nat :: Probe(addr, k) < addr + len ==> PageTested(m, dir, Probe(addr, k))
  }

  function Probe(addr: nat, k: nat): nat { addr + 4096 * k }

  /** The range lies in [1 MiB, 3 GiB) and user code may access every byte of it. */
  ghost predicate UserRange(m: Memory, dir: nat, addr: nat, len: nat) {
    && 0x10_0000 <= addr && addr + len <= 0xC000_0000
    && forall v: nat :: addr <= v < addr + len ==> UserByte(m, dir, v)
  }

  /** The last byte lies on a page that some probe tests. */
  predicate LastPageProbed(addr: nat, len: nat)
    requires len > 0
  {
    addr % 4096 + (len - 1) % 4096 < 4096
  }

  lemma TestIsSound(m: Memory, dir: nat, used: set<nat>, v: nat)
    requires TablesOk(m, dir, used) && v < 0x1_0000_0000
    ensures PageTested(m, dir, v) <==> UserByte(m, dir, v)
  {
    hide Word, User, Pte;
    var pde, pte := Pde(m, dir, v / 4096 / 1024), Pte(m, dir, v / 4096);
    UserBit(pte);
    if Present(pde) {
      LowBits(pde);
    }
  }

  lemma UserBit(entry: nat)
    ensures User(entry) <==> entry % 8 >= 4
  {
    assert entry == 8 * (entry / 8) + entry % 8;
    assert entry / 4 == 2 * (entry / 8) + entry % 8 / 4;
  }

  lemma LowBits(entry: nat)
    requires entry % 4096 == 7
    ensures entry % 8 == 7
  {
    assert entry == 8 * (512 * (entry / 4096)) + 7;
  }

  /** Every range that user code may access is accepted. */
  lemma AcceptsUserRanges(m: Memory, dir: nat, used: set<nat>, addr: nat, len: nat)
    requires TablesOk(m, dir, used) && UserRange(m, dir, addr, len)
    ensures Accepts(m, dir, addr, len)
  {
    hide Pte, Pde, User;
    forall k: nat | Probe(addr, k) < addr + len
      ensures PageTested(m, dir, Probe(addr, k))
    {
      TestIsSound(m, dir, used, Probe(addr, k));
    }
  }

  /** And nothing else is accepted, for the ranges whose last page is probed. */
  lemma AcceptsOnlyUserRanges(m: Memory, dir: nat, used: set<nat>, addr: nat, len: nat)
    requires TablesOk(m, dir, used) && len > 0 && LastPageProbed(addr, len) && Accepts(m, dir, addr, len)
    ensures UserRange(m, dir, addr, len)
  {
    hide Pte, Pde, User;
    forall v: nat | addr <= v < addr + len
      ensures UserByte(m, dir, v)
    {
      var k := v / 4096 - addr / 4096;
      var probe := Probe(addr, k);
      ProbeReaches(addr, len, v);
      TestIsSound(m, dir, used, probe);
      assert PageTested(m, dir, probe) && probe / 4096 == v / 4096;
    }
  }

  lemma ProbeReaches(addr: nat, len: nat, v: nat)
    requires len > 0 && LastPageProbed(addr, len) && addr <= v < addr + len
    ensures var k := v / 4096 - addr / 4096;
            k >= 0 && Probe(addr, k) < addr + len && Probe(addr, k) / 4096 == v / 4096
  {
    var last := addr + len - 1;
    assert (addr + 4096 * (v / 4096 - addr / 4096)) / 4096 == v / 4096;
    assert last / 4096 == addr / 4096 + (len - 1) / 4096;
  }

  /** The condition is exact. For any in-bounds range that misses it, no probe touches the last byte's
      page; so unmapping that page in tables that serve the whole range leaves it accepted. */
  lemma UnprobedPageIsMissed(m: Memory, dir: nat, used: set<nat>, addr: nat, len: nat)
    requires TablesOk(m, dir, used) && len > 0 && !LastPageProbed(addr, len) && UserRange(m, dir, addr, len)
    ensures var page := (addr + len - 1) / 4096;
            var m' := SetWord(m, 4096 * FrameOf(Pde(m, dir, page / 1024)) + 4 * (page % 1024), 0);
            TablesOk(m', dir, used) && Accepts(m', dir, addr, len) && !UserRange(m', dir, addr, len)
  {
    hide Word, SetWord, User;
    var last := addr + len - 1;
    var page := last / 4096;
    assert UserByte(m, dir, last);
    var m' := SetWord(m, 4096 * FrameOf(Pde(m, dir, page / 1024)) + 4 * (page % 1024), 0);
    SetPte(m, dir, used, page, 0);
    assert !UserByte(m', dir, last);
    forall k: nat | Probe(addr, k) < addr + len
      ensures PageTested(m', dir, Probe(addr, k))
    {
      assert UserByte(m, dir, Probe(addr, k));
      TestIsSound(m, dir, used, Probe(addr, k));
      ProbeMisses(addr, len, k);
    }
  }

  lemma ProbeMisses(addr: nat, len: nat, k: nat)
    requires len > 0 && !LastPageProbed(addr, len) && Probe(addr, k) < addr + len
    ensures Probe(addr, k) / 4096 != (addr + len - 1) / 4096
  {
    var last := addr + len - 1;
    assert last / 4096 == addr / 4096 + (len - 1) / 4096 + 1;
    assert Probe(addr, k) / 4096 == addr / 4096 + k;
    assert 4096 * k <= len - 1;
  }
}
