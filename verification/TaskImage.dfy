/** What becomes of a program when task_create_from_elf has made its control block, told from the state
    before the program is loaded: the bitmap, the bump pointer and the headers of the file. */
module TaskImage {
  import opened Bytes
  import opened Options
  import opened Frames
  import opened PageTables
  import opened AddressSpace
  import opened ElfImage
  import opened ElfLoad
  import opened ElfProgram
  import opened ElfFrames
  import opened ElfOrder
  import opened TaskCreation

  // ----- What can be read off before the call -----

  function ProgramPages(s0: Space, buf: nat): set<nat> {
    PagesUpTo(s0, buf, EhdrAt(s0.mem, buf).phnum)
  }

  /** The frames that program and stack take. */
  function TaskDemand(s0: Space, buf: nat): nat {
    var pages := ProgramPages(s0, buf);
    Demand(s0, pages) + (if NeedsTable(s0, pages, STACK_PAGE) then 2 else 1)
  }

  /** The frame that kmalloc_a will return for the control block. */
  function BlockFrame(s0: Space): nat {
    AlignUp(s0.pmm.bump) / 4096
  }

  /** The rank of the frame that page q, mapped by header i, will lie on in the end. */
  function PageRank(s0: Space, buf: nat, i: nat, q: nat): nat {
    if q == STACK_PAGE then Demand(s0, ProgramPages(s0, buf)) else Demand(s0, Before(s0, buf, i, q))
  }

  /** A plausible program whose segments lie in the file, with enough frames for it and its stack, and
      a control block inside the identity region. */
  ghost predicate TaskOk(s0: Space, pages: nat, buf: nat, size: nat) {
    && Owned(s0, pages) && pages <= STACK_PAGE && ProgramOk(s0, buf, size)
    && Plausible(s0, buf, size)
    && (forall j: nat :: j < EhdrAt(s0.mem, buf).phnum ==> InFile(s0, buf, size, j))
    && TaskDemand(s0, buf) <= FreeCount(s0)
    && BlockFrame(s0) < pages && 4096 * BlockFrame(s0) + 4096 <= |s0.mem|
  }

  /** The control block will lie on the directory, on a table, or on a frame that becomes one. */
  ghost predicate OnTable(s0: Space, buf: nat) {
    var b := BlockFrame(s0);
    || b == s0.dir || b in TableFrames(s0.mem, s0.dir)
    || (exists i, q :: OnTableOf(s0, buf, i, q))
    || (NeedsTable(s0, ProgramPages(s0, buf), STACK_PAGE)
        && HasRank(s0.pmm, b, Demand(s0, ProgramPages(s0, buf)) + 1))
  }

  /** On the table that comes with page q. */
  ghost predicate OnTableOf(s0: Space, buf: nat, i: nat, q: nat) {
    && MappedBy(s0, buf, i, q) && NeedsTable(s0, Before(s0, buf, i, q), q)
    && HasRank(s0.pmm, BlockFrame(s0), Demand(s0, Before(s0, buf, i, q)) + 1)
  }

  // ----- The steps -----

  /** The space when load_elf_program is done, and when the stack is there too. */
  function AfterLoad(s0: Space, buf: nat, size: nat): Space {
    LoadElf(s0, buf, size).0.space
  }

  function BeforeBlock(s0: Space, buf: nat, size: nat): Space {
    AddStack(AfterLoad(s0, buf, size)).space
  }

  /** The states that the steps reach. */
  ghost predicate Reached(s0: Space, s1: Space, s2: Space, pages: nat, buf: nat) {
    && Extends(s0, s1, pages) && Later(s0, s1) && Gained(s0, s1, ProgramPages(s0, buf))
    && Owned(s1, pages) && Owned(s2, pages) && StackOrder(s1, s2)
    && s2.dir == s0.dir && |s2.mem| == |s0.mem| && BlockAt(s2) == 4096 * BlockFrame(s0)
    && TakesLowest(s0.pmm, s2.pmm) && FreeCount(s2) + TaskDemand(s0, buf) == FreeCount(s0)
  }

  /** What a successful load leaves. */
  lemma LoadLeaves(s0: Space, pages: nat, buf: nat, size: nat)
    requires Owned(s0, pages) && ProgramOk(s0, buf, size) && LoadElf(s0, buf, size).0.Done?
    ensures var s1 := AfterLoad(s0, buf, size);
            Extends(s0, s1, pages) && Owned(s1, pages) && Later(s0, s1) && Gained(s0, s1, ProgramPages(s0, buf))
  {
    hide Owned, Extends, Later, Gained, EhdrAt, PhdrOf, PhdrAt, LoadSegments, ProgramOk, KernelByte, PagesUpTo;
    var s := ReachHeader(s0, pages, buf, size, EhdrAt(s0.mem, buf).phnum);
    NoHeadersLeft(s, buf, size, EhdrAt(s0.mem, buf));
    ExtendsOwns(s0, s, pages);
  }

  lemma TaskSteps(s0: Space, pages: nat, buf: nat, size: nat) returns (f: nat)
    requires TaskOk(s0, pages, buf, size)
    ensures LoadElf(s0, buf, size).0.Done? && AddStack(AfterLoad(s0, buf, size)).Done?
    ensures var s1, s2 := AfterLoad(s0, buf, size), BeforeBlock(s0, buf, size);
            Reached(s0, s1, s2, pages, buf) && StackAdded(s1, s2, f)
    ensures ImageUpTo(s0, AfterLoad(s0, buf, size), buf, size, EhdrAt(s0.mem, buf).phnum)
  {
    hide Owned, Extends, Later, Gained, EhdrAt, PhdrOf, PhdrAt, LoadSegments, ProgramOk, Demand, NeedsTable,
         AddStack, StackAdded, StackOrder, FreeFrames, KernelByte, ImageUpTo, PagesUpTo, TakesLowest, InFile;
    LoadEndsExactly(s0, pages, buf, size);
    assert Loadable(s0, buf, size, 0);
    LoadPlacesImage(s0, pages, buf, size);
    var s1 := AfterLoad(s0, buf, size);
    LoadLeaves(s0, pages, buf, size);
    StackFits(s0, s1, buf);
    AddStackEnds(s1, pages);
    f := AddStackEffect(s1, pages);
    AfterStack(s0, s1, BeforeBlock(s0, buf, size), pages, buf, f);
  }

  lemma NoHeadersLeft(s: Space, buf: nat, size: nat, h: Ehdr)
    ensures LoadSegments(s, buf, size, h, h.phnum) == Done(s)
  {
  }

  lemma StackFits(s0: Space, s1: Space, buf: nat)
    requires Gained(s0, s1, ProgramPages(s0, buf))
    ensures FreeCount(s1) + Demand(s0, ProgramPages(s0, buf)) == FreeCount(s0)
    ensures FreeCount(s1) + TaskDemand(s0, buf) == FreeCount(s0) + StackNeed(s1)
  {
    hide Pte, Demand, FreeFrames, EhdrAt, NeedsTable;
    NeedsTableHere(s0, s1, ProgramPages(s0, buf), STACK_PAGE);
  }

  lemma AfterStack(s0: Space, s1: Space, s2: Space, pages: nat, buf: nat, f: nat)
    requires Extends(s0, s1, pages) && Later(s0, s1) && StackAdded(s1, s2, f) && StackOrder(s1, s2)
    requires FreeCount(s1) + TaskDemand(s0, buf) == FreeCount(s0) + StackNeed(s1)
    ensures s2.dir == s0.dir && |s2.mem| == |s0.mem| && BlockAt(s2) == 4096 * BlockFrame(s0)
    ensures TakesLowest(s0.pmm, s2.pmm) && FreeCount(s2) + TaskDemand(s0, buf) == FreeCount(s0)
  {
    hide Owned, NewFrames, KeepsPages, KeepsTables, TableFrames, Pte, Pde, OnFrame, FreeFrames, TaskDemand,
         TakesLowest;
    LowestTransitive(s0.pmm, s1.pmm, s2.pmm);
  }

  // ----- Where the control block falls -----

  /** The control block falls on a frame of the new program, its stack or their tables if and only if
      that frame is free and fewer free frames lie below it than they take. */
  lemma BlockIsTakenExactlyWhen(s0: Space, pages: nat, buf: nat, size: nat)
    requires TaskOk(s0, pages, buf, size)
    ensures var b, s2 := BlockFrame(s0), BeforeBlock(s0, buf, size);
            b in s2.pmm.used && b !in s0.pmm.used <==>
            b in FreeFrames(s0.pmm) && |FreeUnder(s0.pmm, b)| < TaskDemand(s0, buf)
  {
    hide TaskOk, Extends, Later, Gained, Owned, StackOrder, StackAdded, TakesLowest, TaskDemand, FreeFrames,
         FreeUnder, LoadElf, AddStack, BlockFrame;
    var f := TaskSteps(s0, pages, buf, size);
    TakenExactlyWhen(s0.pmm, BeforeBlock(s0, buf, size).pmm, BlockFrame(s0));
  }

  /** It falls on page q of the program if and only if its frame has the rank of that page. */
  lemma BlockIsOnPageExactlyWhen(s0: Space, pages: nat, buf: nat, size: nat, i: nat, q: nat)
    requires TaskOk(s0, pages, buf, size) && MappedBy(s0, buf, i, q)
    ensures var s2 := BeforeBlock(s0, buf, size);
            FrameAt(s2, q) == BlockFrame(s0) <==> HasRank(s0.pmm, BlockFrame(s0), PageRank(s0, buf, i, q))
  {
    hide Extends, Later, Gained, Owned, StackAdded, Demand, FreeFrames, FreeUnder, LoadElf, AddStack, BlockFrame,
         MappedBy, Before, ProgramPages, HasRank, Pte, Pde, TakesLowest, ProgramOk, Plausible;
    var f := TaskSteps(s0, pages, buf, size);
    var s1, s2 := AfterLoad(s0, buf, size), BeforeBlock(s0, buf, size);
    ProgramIsPlaced(s0, pages, buf, size, i, q);
    PageHasRank(s0, s1, s2, pages, buf, i, q, f);
    if HasRank(s0.pmm, BlockFrame(s0), PageRank(s0, buf, i, q)) {
      RankIsUnique(s0.pmm, FrameAt(s2, q), BlockFrame(s0), PageRank(s0, buf, i, q));
    }
  }

  lemma PageHasRank(s0: Space, s1: Space, s2: Space, pages: nat, buf: nat, i: nat, q: nat, f: nat)
    requires Reached(s0, s1, s2, pages, buf) && StackAdded(s1, s2, f) && Placed(s0, s1, Before(s0, buf, i, q), q)
    ensures HasRank(s0.pmm, FrameAt(s2, q), PageRank(s0, buf, i, q))
  {
    hide Extends, Gained, Demand, FreeFrames, FreeUnder, Before, ProgramPages, Pte, Pde, KeepsPages, KeepsTables,
         TablesOk, TableFrames, OnFrame, SameOutside, NeedsTable, TakesLowest, LeastFree;
    if q == STACK_PAGE {
      StackRank(s0, s1, s2, pages, buf);
    }
  }

  /** The ranks of the stack's frame and of its table. */
  lemma StackRank(s0: Space, s1: Space, s2: Space, pages: nat, buf: nat)
    requires Reached(s0, s1, s2, pages, buf)
    ensures HasRank(s0.pmm, FrameAt(s2, STACK_PAGE), Demand(s0, ProgramPages(s0, buf)))
    ensures NeedsTable(s0, ProgramPages(s0, buf), STACK_PAGE) ==>
              && Present(Pde(s2.mem, s2.dir, STACK_PAGE / 1024))
              && HasRank(s0.pmm, FrameOf(Pde(s2.mem, s2.dir, STACK_PAGE / 1024)),
                         Demand(s0, ProgramPages(s0, buf)) + 1)
  {
    hide Extends, Gained, Demand, FreeUnder, ProgramPages, Pte, Pde, KeepsPages, KeepsTables, TablesOk, TableFrames,
         NeedsTable, TakesLowest, LeastFree, IdentityMapped, FreeFrames;
    StackFits(s0, s1, buf);
    NeedsTableHere(s0, s1, ProgramPages(s0, buf), STACK_PAGE);
    AllocTakesOne(s1.pmm);
    NextRank(s0.pmm, s1.pmm);
    AllocTakesLeast(s1.pmm);
    AllocTakesLowest(s1.pmm);
    var p := Alloc(s1.pmm).0;
    LowestTransitive(s0.pmm, s1.pmm, p);
    AllocTakesOne(p);
    if NeedsTable(s0, ProgramPages(s0, buf), STACK_PAGE) {
      NextRank(s0.pmm, p);
    }
  }

  /** It falls on the directory or on a table if and only if that can be told from ranks. */
  lemma BlockIsOnTableExactlyWhen(s0: Space, pages: nat, buf: nat, size: nat)
    requires TaskOk(s0, pages, buf, size)
    ensures var s2 := BeforeBlock(s0, buf, size);
            BlockFrame(s0) in TableFrames(s2.mem, s2.dir) + {s2.dir} <==> OnTable(s0, buf)
  {
    hide Extends, Later, Gained, Owned, StackAdded, Demand, LoadElf, AddStack, BlockFrame, ProgramOk, Plausible,
         OnTableOf, HasRank, Pde, NeedsTable, StackOrder, ProgramPages, TaskDemand;
    var f := TaskSteps(s0, pages, buf, size);
    var b, s1, s2 := BlockFrame(s0), AfterLoad(s0, buf, size), BeforeBlock(s0, buf, size);
    if t :| 0 <= t < 1024 && Present(Pde(s2.mem, s2.dir, t)) && FrameOf(Pde(s2.mem, s2.dir, t)) == b {
      TableIsKnown(s0, pages, buf, size, t);
    }
    if t :| 0 <= t < 1024 && Present(Pde(s0.mem, s0.dir, t)) && FrameOf(Pde(s0.mem, s0.dir, t)) == b {
      TableStays(s0, s1, s2, pages, buf, t);
      TableIsAmong(s2.mem, s2.dir, t);
    }
    if i, q :| OnTableOf(s0, buf, i, q) {
      PageTableIsHit(s0, pages, buf, size, i, q);
    }
    if NeedsTable(s0, ProgramPages(s0, buf), STACK_PAGE) && HasRank(s0.pmm, b, Demand(s0, ProgramPages(s0, buf)) + 1) {
      StackRank(s0, s1, s2, pages, buf);
      RankIsUnique(s0.pmm, FrameOf(Pde(s2.mem, s2.dir, STACK_PAGE / 1024)), b, Demand(s0, ProgramPages(s0, buf)) + 1);
      TableIsAmong(s2.mem, s2.dir, STACK_PAGE / 1024);
    }
  }

  lemma TableStays(s0: Space, s1: Space, s2: Space, pages: nat, buf: nat, t: nat)
    requires Reached(s0, s1, s2, pages, buf) && t < 1024
    ensures Present(Pde(s0.mem, s0.dir, t)) ==> Pde(s1.mem, s1.dir, t) == Pde(s0.mem, s0.dir, t)
    ensures Present(Pde(s1.mem, s1.dir, t)) ==> Pde(s2.mem, s2.dir, t) == Pde(s1.mem, s1.dir, t)
  {
    hide Extends, Gained, Owned, Pte, Pde, KeepsPages, TakesLowest, TaskDemand, LeastFree, FreeFrames;
  }

  /** Where a table of the new task lies. */
  lemma TableIsKnown(s0: Space, pages: nat, buf: nat, size: nat, t: nat)
    requires TaskOk(s0, pages, buf, size) && t < 1024
    requires var s2 := BeforeBlock(s0, buf, size);
             Present(Pde(s2.mem, s2.dir, t)) && FrameOf(Pde(s2.mem, s2.dir, t)) == BlockFrame(s0)
    ensures OnTable(s0, buf)
  {
    hide Extends, Later, Gained, Owned, StackAdded, Demand, LoadElf, AddStack, BlockFrame, ProgramOk, Plausible,
         HasRank, Pte, Pde, NeedsTable, StackOrder, TaskDemand, MappedBy, Before, TableFrames, NewTables, EhdrAt;
    var f := TaskSteps(s0, pages, buf, size);
    var s1, s2 := AfterLoad(s0, buf, size), BeforeBlock(s0, buf, size);
    TableStays(s0, s1, s2, pages, buf, t);
    if Present(Pde(s0.mem, s0.dir, t)) {
      TableIsAmong(s0.mem, s0.dir, t);
    } else if Present(Pde(s1.mem, s1.dir, t)) {
      GainedTable(s0, s1, ProgramPages(s0, buf), t);
      var i, q := TableComesWith(s0, buf, EhdrAt(s0.mem, buf).phnum, t);
      ProgramIsPlaced(s0, pages, buf, size, i, q);
      assert OnTableOf(s0, buf, i, q);
    } else {
      NewStackTable(s0, s1, s2, pages, buf, t);
      StackRank(s0, s1, s2, pages, buf);
    }
  }

  lemma GainedTable(s0: Space, s: Space, have: set<nat>, t: nat)
    requires Gained(s0, s, have) && t < 1024 && Present(Pde(s.mem, s.dir, t)) && !Present(Pde(s0.mem, s0.dir, t))
    ensures t in NewTables(s0, have)
  {
    hide Pte, Pde, NewTables, Demand, FreeFrames;
  }

  lemma NewStackTable(s0: Space, s1: Space, s2: Space, pages: nat, buf: nat, t: nat)
    requires Reached(s0, s1, s2, pages, buf) && t < 1024
    requires Present(Pde(s2.mem, s2.dir, t)) && !Present(Pde(s1.mem, s1.dir, t))
    ensures t == STACK_PAGE / 1024 && NeedsTable(s0, ProgramPages(s0, buf), STACK_PAGE)
  {
    hide Extends, Gained, Owned, Later, Pte, Pde, TakesLowest, TaskDemand, LeastFree, FreeFrames, NeedsTable,
         ProgramPages;
    NeedsTableHere(s0, s1, ProgramPages(s0, buf), STACK_PAGE);
  }

  lemma PageTableIsHit(s0: Space, pages: nat, buf: nat, size: nat, i: nat, q: nat)
    requires TaskOk(s0, pages, buf, size) && OnTableOf(s0, buf, i, q)
    ensures BlockFrame(s0) in TableFrames(BeforeBlock(s0, buf, size).mem, BeforeBlock(s0, buf, size).dir)
  {
    hide Extends, Later, Gained, Owned, StackAdded, Demand, LoadElf, AddStack, BlockFrame, ProgramOk, Plausible,
         HasRank, Pte, Pde, NeedsTable, StackOrder, TaskDemand, MappedBy, Before, TableFrames;
    var f := TaskSteps(s0, pages, buf, size);
    var s1, s2 := AfterLoad(s0, buf, size), BeforeBlock(s0, buf, size);
    ProgramIsPlaced(s0, pages, buf, size, i, q);
    TableStays(s0, s1, s2, pages, buf, q / 1024);
    RankIsUnique(s0.pmm, FrameOf(Pde(s1.mem, s1.dir, q / 1024)), BlockFrame(s0), Demand(s0, Before(s0, buf, i, q)) + 1);
    TableIsAmong(s2.mem, s2.dir, q / 1024);
  }

  // ----- What the program reads -----

  /** Header j loads the byte at v, whose page header i maps. */
  predicate ProgramByte(s0: Space, buf: nat, j: nat, i: nat, v: nat) {
    && j < EhdrAt(s0.mem, buf).phnum && PhdrOf(s0, buf, j).Loads() && PhdrOf(s0, buf, j).Covers(v)
    && MappedBy(s0, buf, i, v / 4096)
  }

  /** The byte at v will lie under the control block. */
  predicate Struck(s0: Space, buf: nat, i: nat, v: nat) {
    v % 4096 < BLOCK && HasRank(s0.pmm, BlockFrame(s0), PageRank(s0, buf, i, v / 4096))
  }

  /** The control block will lie on table t. */
  ghost predicate TableHit(s0: Space, buf: nat, t: nat) {
    || (Present(Pde(s0.mem, s0.dir, t)) && FrameOf(Pde(s0.mem, s0.dir, t)) == BlockFrame(s0))
    || exists i: nat, q: nat :: OnTableOf(s0, buf, i, q) && q / 1024 == t
  }

  /** The entry of page q, in the directory or in its table, will lie under the control block. */
  ghost predicate EntryStruck(s0: Space, buf: nat, q: nat) {
    || (BlockFrame(s0) == s0.dir && q / 1024 < ENTRIES)
    || (TableHit(s0, buf, q / 1024) && q % 1024 < ENTRIES)
  }

  lemma TableHitExactlyWhen(s0: Space, pages: nat, buf: nat, size: nat, t: nat)
    requires TaskOk(s0, pages, buf, size) && t < 1024
    requires var s1 := AfterLoad(s0, buf, size);
             Present(Pde(s1.mem, s1.dir, t))
    ensures FrameOf(Pde(BeforeBlock(s0, buf, size).mem, BeforeBlock(s0, buf, size).dir, t)) == BlockFrame(s0) <==>
            TableHit(s0, buf, t)
  {
    hide Extends, Later, Gained, Owned, StackAdded, Demand, LoadElf, AddStack, BlockFrame, ProgramOk, Plausible,
         HasRank, Pte, Pde, NewTables, StackOrder, TaskDemand, MappedBy, Before, TableFrames, EhdrAt;
    var f := TaskSteps(s0, pages, buf, size);
    var b, s1, s2 := BlockFrame(s0), AfterLoad(s0, buf, size), BeforeBlock(s0, buf, size);
    TableStays(s0, s1, s2, pages, buf, t);
    if !Present(Pde(s0.mem, s0.dir, t)) {
      GainedTable(s0, s1, ProgramPages(s0, buf), t);
      var i, q := TableComesWith(s0, buf, EhdrAt(s0.mem, buf).phnum, t);
      ProgramIsPlaced(s0, pages, buf, size, i, q);
      if FrameOf(Pde(s2.mem, s2.dir, t)) == b {
        assert OnTableOf(s0, buf, i, q);
      }
      if i': nat, q': nat :| OnTableOf(s0, buf, i', q') && q' / 1024 == t {
        ProgramIsPlaced(s0, pages, buf, size, i', q');
        RankIsUnique(s0.pmm, FrameOf(Pde(s1.mem, s1.dir, t)), b, Demand(s0, Before(s0, buf, i', q')) + 1);
      }
    }
  }

  /** What every byte of the program reads after task_create_from_elf, unless the control block lies on
      the entry of its page: the control block's byte, if and only if the block's frame has the rank of
      the page and the byte lies in its first part; zero on the page of the stack; and otherwise, as it
      should, the byte of the file or the zero of the tail. */
  lemma EveryByte(s0: Space, pages: nat, buf: nat, size: nat, bytes: seq<byte>, j: nat, i: nat, v: nat)
    requires TaskOk(s0, pages, buf, size) && |bytes| == BLOCK && ProgramByte(s0, buf, j, i, v)
    requires !EntryStruck(s0, buf, v / 4096)
    ensures var r := AddBlock(BeforeBlock(s0, buf, size), bytes);
            && r.Done? && Mapped(r.space, v)
            && ByteAt(r.space, v) ==
               if Struck(s0, buf, i, v) then bytes[v % 4096]
               else if v / 4096 == STACK_PAGE then 0
               else Wanted(s0.mem, buf, PhdrOf(s0, buf, j), v)
  {
    hide LoadElf, AddStack, AddBlock, Owned, Extends, Later, Gained, StackAdded, Mapped, Translate, EhdrAt, PhdrOf,
         New, TableFrames, HeadersOk, MappedBy, Before, HasRank, Demand, StackOrder, TaskDemand, Plausible,
         FreeFrames, TableHit, Pde;
    var f := TaskSteps(s0, pages, buf, size);
    var s1, s2 := AfterLoad(s0, buf, size), BeforeBlock(s0, buf, size);
    var ph := PhdrOf(s0, buf, j);
    assert SegmentLoaded(s0, s1, buf, ph) && SegmentReady(s0, buf, size, ph);
    StackKeepsByte(s0, s1, s2, pages, f, v);
    NewHasTable(s0, s1, v / 4096);
    TableHitExactlyWhen(s0, pages, buf, size, v / 4096 / 1024);
    BlockIsOnPageExactlyWhen(s0, pages, buf, size, i, v / 4096);
    BlockOverwrites(s2, pages, bytes, v);
    SameOffset(FrameAt(s2, v / 4096), BlockFrame(s0), v % 4096);
  }

  lemma NewHasTable(s0: Space, s1: Space, q: nat)
    requires New(s0, s1, q)
    ensures Present(Pde(s1.mem, s1.dir, q / 1024))
  {
    hide Word;
  }

  lemma SameOffset(f: nat, b: nat, offset: nat)
    requires offset < 4096
    ensures 4096 * b <= 4096 * f + offset < 4096 * b + BLOCK <==> f == b && offset < BLOCK
  {
  }

  // ----- Whether the program survives -----

  ghost predicate ProgramIntact(s0: Space, s: Space, buf: nat) {
    forall j: nat, v: nat ::
      j < EhdrAt(s0.mem, buf).phnum && PhdrOf(s0, buf, j).Loads() && PhdrOf(s0, buf, j).Covers(v) ==>
        Mapped(s, v) && ByteAt(s, v) == Wanted(s0.mem, buf, PhdrOf(s0, buf, j), v)
  }

  /** Whatever the control block holds, the program is there when the task is made. */
  ghost predicate Survives(s0: Space, buf: nat, size: nat) {
    forall bytes: seq<byte> :: |bytes| == BLOCK ==>
      var r := AddBlock(BeforeBlock(s0, buf, size), bytes);
      r.Done? && ProgramIntact(s0, r.space, buf)
  }

  /** No byte of the program and no entry of its pages will lie under the control block, and nothing
      but zeros is wanted on the page of the stack. */
  ghost predicate Unharmed(s0: Space, buf: nat) {
    forall j: nat, i: nat, v: nat :: ProgramByte(s0, buf, j, i, v) ==>
      && !Struck(s0, buf, i, v) && !EntryStruck(s0, buf, v / 4096)
      && (v / 4096 == STACK_PAGE ==> Wanted(s0.mem, buf, PhdrOf(s0, buf, j), v) == 0)
  }

  /** The program survives the making of its control block if and only if that can be told beforehand
      from bitmap, bump pointer and headers. */
  lemma SurvivesExactlyWhen(s0: Space, pages: nat, buf: nat, size: nat)
    requires TaskOk(s0, pages, buf, size)
    ensures Survives(s0, buf, size) <==> Unharmed(s0, buf)
  {
    hide TaskOk, BeforeBlock, AddBlock, Mapped, PhdrOf, EhdrAt, MappedBy, Struck, EntryStruck;
    if Unharmed(s0, buf) {
      forall bytes: seq<byte>, j: nat, v: nat |
        |bytes| == BLOCK && j < EhdrAt(s0.mem, buf).phnum && PhdrOf(s0, buf, j).Loads() && PhdrOf(s0, buf, j).Covers(v)
        ensures var r := AddBlock(BeforeBlock(s0, buf, size), bytes);
                r.Done? && Mapped(r.space, v) && ByteAt(r.space, v) == Wanted(s0.mem, buf, PhdrOf(s0, buf, j), v)
      {
        var i := PageOfByte(s0, pages, buf, size, j, v);
        EveryByte(s0, pages, buf, size, bytes, j, i, v);
      }
      forall bytes: seq<byte> | |bytes| == BLOCK
        ensures AddBlock(BeforeBlock(s0, buf, size), bytes).Done?
      {
        BlockIsMade(s0, pages, buf, size, bytes);
      }
    } else {
      var j: nat, i: nat, v: nat :| ProgramByte(s0, buf, j, i, v) && !(
        && !Struck(s0, buf, i, v) && !EntryStruck(s0, buf, v / 4096)
        && (v / 4096 == STACK_PAGE ==> Wanted(s0.mem, buf, PhdrOf(s0, buf, j), v) == 0));
      HarmShows(s0, pages, buf, size, j, i, v);
    }
  }

  lemma PageOfByte(s0: Space, pages: nat, buf: nat, size: nat, j: nat, v: nat) returns (i: nat)
    requires TaskOk(s0, pages, buf, size)
    requires j < EhdrAt(s0.mem, buf).phnum && PhdrOf(s0, buf, j).Loads() && PhdrOf(s0, buf, j).Covers(v)
    ensures ProgramByte(s0, buf, j, i, v)
  {
    hide Owned, EhdrAt, PhdrOf, HeadersOk, Plausible, TaskDemand, UnmappedRange, SourceOk;
    var ph := PhdrOf(s0, buf, j);
    assert SegmentReady(s0, buf, size, ph);
    PagesStep(s0, buf, j);
    PagesGrow(s0, buf, j + 1, EhdrAt(s0.mem, buf).phnum);
    i := MappedBySome(s0, buf, EhdrAt(s0.mem, buf).phnum, v / 4096);
  }

  lemma BlockIsMade(s0: Space, pages: nat, buf: nat, size: nat, bytes: seq<byte>)
    requires TaskOk(s0, pages, buf, size) && |bytes| == BLOCK
    ensures AddBlock(BeforeBlock(s0, buf, size), bytes).Done?
  {
    hide Owned, Extends, Later, Gained, StackOrder, StackAdded, TakesLowest, TaskDemand, LoadElf, AddStack, AddBlock,
         Plausible, ProgramOk, EhdrAt;
    var f := TaskSteps(s0, pages, buf, size);
    BlockIsStored(BeforeBlock(s0, buf, size), pages, bytes);
  }

  /** Otherwise some content of the block shows the harm. */
  lemma HarmShows(s0: Space, pages: nat, buf: nat, size: nat, j: nat, i: nat, v: nat)
    requires TaskOk(s0, pages, buf, size) && ProgramByte(s0, buf, j, i, v)
    requires || Struck(s0, buf, i, v) || EntryStruck(s0, buf, v / 4096)
             || (v / 4096 == STACK_PAGE && Wanted(s0.mem, buf, PhdrOf(s0, buf, j), v) != 0)
    ensures !Survives(s0, buf, size)
  {
    hide TaskOk, BeforeBlock, AddBlock, Mapped, PhdrOf, EhdrAt, MappedBy, EntryStruck, HasRank;
    if EntryStruck(s0, buf, v / 4096) {
      EntryLost(s0, pages, buf, size, j, i, v);
      NotIntact(s0, buf, size, j, i, v, Zeros(BLOCK));
    } else {
      var b: byte := if Wanted(s0.mem, buf, PhdrOf(s0, buf, j), v) == 0 then 1 else 0;
      EveryByte(s0, pages, buf, size, Repeated(b), j, i, v);
      NotIntact(s0, buf, size, j, i, v, Repeated(b));
    }
  }

  function Repeated(b: byte): (bytes: seq<byte>)
    ensures |bytes| == BLOCK && forall k :: 0 <= k < BLOCK ==> bytes[k] == b
  {
    seq(BLOCK, _ => b)
  }

  lemma NotIntact(s0: Space, buf: nat, size: nat, j: nat, i: nat, v: nat, bytes: seq<byte>)
    requires ProgramByte(s0, buf, j, i, v) && |bytes| == BLOCK
    requires var r := AddBlock(BeforeBlock(s0, buf, size), bytes);
             r.Done? && (Mapped(r.space, v) ==> ByteAt(r.space, v) != Wanted(s0.mem, buf, PhdrOf(s0, buf, j), v))
    ensures !Survives(s0, buf, size)
  {
    hide BeforeBlock, AddBlock, Mapped, PhdrOf, EhdrAt, MappedBy, Wanted;
    var r := AddBlock(BeforeBlock(s0, buf, size), bytes);
    assert !(r.Done? && ProgramIntact(s0, r.space, buf));
  }

  lemma EntryLost(s0: Space, pages: nat, buf: nat, size: nat, j: nat, i: nat, v: nat)
    requires TaskOk(s0, pages, buf, size) && ProgramByte(s0, buf, j, i, v) && EntryStruck(s0, buf, v / 4096)
    ensures var r := AddBlock(BeforeBlock(s0, buf, size), Zeros(BLOCK));
            r.Done? && !Mapped(r.space, v)
  {
    hide LoadElf, AddStack, AddBlock, Owned, Extends, Later, Gained, StackAdded, EhdrAt, PhdrOf, TableFrames,
         HeadersOk, MappedBy, HasRank, Demand, StackOrder, TaskDemand, Plausible, FreeFrames, TableHit, Pde, Pte;
    var f := TaskSteps(s0, pages, buf, size);
    var s1, s2 := AfterLoad(s0, buf, size), BeforeBlock(s0, buf, size);
    var ph := PhdrOf(s0, buf, j);
    assert SegmentLoaded(s0, s1, buf, ph) && SegmentReady(s0, buf, size, ph);
    StackKeepsByte(s0, s1, s2, pages, f, v);
    NewHasTable(s0, s1, v / 4096);
    TableHitExactlyWhen(s0, pages, buf, size, v / 4096 / 1024);
    EntryErased(s2, pages, v / 4096);
  }

  /** Header i is the first one that loads. */
  predicate FirstToLoad(s0: Space, buf: nat, i: nat) {
    && i < EhdrAt(s0.mem, buf).phnum && PhdrOf(s0, buf, i).Loads()
    && forall k: nat :: k < i ==> !PhdrOf(s0, buf, k).Loads()
  }

  /** If the block's frame is the least free one before the program is loaded, it is the frame of the
      program's first page, and what lies there reads as the control block's. */
  lemma FirstPageIsOverwritten(s0: Space, pages: nat, buf: nat, size: nat, bytes: seq<byte>, i: nat, v: nat)
    requires TaskOk(s0, pages, buf, size) && |bytes| == BLOCK && HasRank(s0.pmm, BlockFrame(s0), 0)
    requires FirstToLoad(s0, buf, i) && PhdrOf(s0, buf, i).Covers(v)
    requires v / 4096 == PhdrOf(s0, buf, i).FirstPage() && v / 4096 != STACK_PAGE && v % 4096 < BLOCK
    ensures var r := AddBlock(BeforeBlock(s0, buf, size), bytes);
            r.Done? && Mapped(r.space, v) && ByteAt(r.space, v) == bytes[v % 4096]
  {
    hide EhdrAt, PhdrOf, AddBlock, BeforeBlock, Owned, ProgramOk, Plausible, TaskDemand, FreeFrames, FreeUnder,
         PagesUpTo, BlockFrame, Demand, Mapped, Pde, NeedsTable, MappedBy, Before;
    FirstPageIsFirst(s0, pages, buf, size, i);
    FreeIsNoTable(s0, pages, BlockFrame(s0));
    EveryByte(s0, pages, buf, size, bytes, i, i, v);
  }

  lemma FirstPageIsFirst(s0: Space, pages: nat, buf: nat, size: nat, i: nat)
    requires TaskOk(s0, pages, buf, size) && FirstToLoad(s0, buf, i)
    ensures var q := PhdrOf(s0, buf, i).FirstPage();
            q < 0x10_0000 && MappedBy(s0, buf, i, q) && Demand(s0, Before(s0, buf, i, q)) == 0
  {
    hide EhdrAt, PhdrOf, Owned, Plausible, TaskDemand, HeadersOk, UnmappedRange, SourceOk, Pde;
    var ph := PhdrOf(s0, buf, i);
    assert SegmentReady(s0, buf, size, ph);
    NoPagesBefore(s0, buf, i);
    assert Before(s0, buf, i, ph.FirstPage()) == {};
    assert NewTables(s0, {}) == {};
  }

  lemma {:induction false} NoPagesBefore(s0: Space, buf: nat, i: nat)
    requires forall k: nat :: k < i ==> !PhdrOf(s0, buf, k).Loads()
    ensures PagesUpTo(s0, buf, i) == {}
    decreases i
  {
    hide PhdrOf;
    if i > 0 {
      NoPagesBefore(s0, buf, i - 1);
    }
  }

  lemma FreeIsNoTable(s0: Space, pages: nat, b: nat)
    requires Owned(s0, pages) && b in FreeFrames(s0.pmm)
    ensures b != s0.dir
    ensures forall t :: 0 <= t < 1024 && Present(Pde(s0.mem, s0.dir, t)) ==> FrameOf(Pde(s0.mem, s0.dir, t)) != b
  {
    hide Word, IdentityMapped, TableFrames;
  }
}
