/** task_create_from_elf (src/process.c:98-127) on the address space: the file buffer, the program,
    the user stack and the control block, which all come from the two frame allocators. */
module TaskCreation {
  import opened Bytes
  import opened Options
  import opened Frames
  import opened PageTables
  import opened AddressSpace
  import opened ElfImage
  import opened ElfLoad
  import opened ElfProgram
  import opened ElfFrames
  import opened ElfOrder
  import opened ElfLoader
  import opened Paging
  import Scheduling

  const STACK_PAGE: nat := 0x8_0000

  /** sizeof(struct process): five words, the registers, the saved EIP, three pointers and eight file
      descriptors of a type, 13 bytes of names, 3 of padding and an offset. */
  const BLOCK: nat := 5 * 4 + 8 * 4 + 4 + 3 * 4 + 8 * (4 + 13 + 3 + 4)

  /** The control block as it is filled in: all zero but the PID, the state, the entry point and the
      two stack fields. PROC_READY is 1. */
  function BlockBytes(pid: nat, entry: nat): (b: seq<byte>)
    requires pid < 0x1_0000_0000 && entry < 0x1_0000_0000
    ensures |b| == BLOCK && forall k :: 20 <= k < BLOCK ==> b[k] == 0
  {
    var b := Put32(Put32(Put32(Zeros(BLOCK), 0, pid), 4, 1), 8, entry);
    Put32(Put32(b, 12, Scheduling.STACK_TOP), 16, Scheduling.STACK_TOP)
  }

  /** Word number k of a structure in memory. */
  function Field(m: Memory, at: nat, k: nat): nat {
    Word(m, at + 4 * k)
  }

  /** struct process as it lies in memory (include/process.h): pid, state, entry, esp, user_stack_top,
      regs and saved_eip. Of the registers pusha stores, edi lies lowest (include/regs.h). */
  function ProcessAt(m: Memory, at: nat): Scheduling.Pcb {
    Scheduling.Pcb(
      Field(m, at, 0), StateOf(Field(m, at, 1)), Field(m, at, 2), Field(m, at, 3), Field(m, at, 4),
      Scheduling.Regs(Field(m, at, 5), Field(m, at, 6), Field(m, at, 7), Field(m, at, 8),
                      Field(m, at, 9), Field(m, at, 10), Field(m, at, 11), Field(m, at, 12)),
      Field(m, at, 13))
  }

  /** enum proc_state */
  function StateOf(v: nat): Scheduling.ProcState {
    if v == 0 then Scheduling.New else if v == 1 then Scheduling.Ready else if v == 2 then Scheduling.Running
    else if v == 3 then Scheduling.Blocked else Scheduling.Exited
  }

  /** The bytes of the control block are those of a new process that is ready to run. */
  lemma BlockHoldsProcess(m: Memory, at: nat, pid: nat, entry: nat)
    requires pid < 0x1_0000_0000 && entry < 0x1_0000_0000 && at + BLOCK <= |m|
    ensures ProcessAt(StoreBytes(m, at, BlockBytes(pid, entry)), at)
            == Scheduling.NewTask(pid, entry).(state := Scheduling.Ready)
  {
    hide Word, StoreBytes, BlockBytes, Field;
    var b := BlockBytes(pid, entry);
    BlockWords(pid, entry);
    forall k | 0 <= k < 14
      ensures Field(StoreBytes(m, at, b), at, k) == Get32(b, 4 * k)
    {
      FieldOfBlock(m, at, b, k);
    }
  }

  lemma FieldOfBlock(m: Memory, at: nat, b: seq<byte>, k: nat)
    requires |b| == BLOCK && at + BLOCK <= |m| && k < ENTRIES
    ensures Field(StoreBytes(m, at, b), at, k) == Get32(b, 4 * k)
  {
    StoredWord(m, at, b, 4 * k);
  }

  lemma BlockWords(pid: nat, entry: nat)
    requires pid < 0x1_0000_0000 && entry < 0x1_0000_0000
    ensures var b := BlockBytes(pid, entry);
            && Get32(b, 4 * 0) == pid && Get32(b, 4 * 1) == 1 && Get32(b, 4 * 2) == entry
            && Get32(b, 4 * 3) == Get32(b, 4 * 4) == Scheduling.STACK_TOP
            && forall k :: 5 <= k < 14 ==> Get32(b, 4 * k) == 0
  {
    hide Put32, Get32;
    var b0 := Zeros(BLOCK);
    var b1 := Put32(b0, 0, pid);
    var b2 := Put32(b1, 4, 1);
    var b3 := Put32(b2, 8, entry);
    var b4 := Put32(b3, 12, Scheduling.STACK_TOP);
    var b5 := Put32(b4, 16, Scheduling.STACK_TOP);
    SameWord(b1, b2, 0);
    SameWord(b2, b3, 0);
    SameWord(b2, b3, 4);
    SameWord(b3, b4, 0);
    SameWord(b3, b4, 4);
    SameWord(b3, b4, 8);
    SameWord(b4, b5, 0);
    SameWord(b4, b5, 4);
    SameWord(b4, b5, 8);
    SameWord(b4, b5, 12);
    forall k | 5 <= k < 14
      ensures Get32(b5, 4 * k) == 0
    {
      ZeroBytes(b5, 4 * k);
    }
  }

  lemma SameWord(a: seq<byte>, b: seq<byte>, k: nat)
    requires |a| == |b| && k + 4 <= |a| && forall i :: k <= i < k + 4 ==> a[i] == b[i]
    ensures Get32(a, k) == Get32(b, k)
  {
  }

  lemma ZeroBytes(b: seq<byte>, k: nat)
    requires k + 4 <= |b| && forall i :: k <= i < k + 4 ==> b[i] == 0
    ensures Get32(b, k) == 0
  {
  }

  /** A stack page: a frame, mapped and cleared. */
  function AddStack(s: Space): Outcome {
    var (p, phys) := Alloc(s.pmm);
    if phys == 0 then Rejected(s.(pmm := p)) else
    var (m, p') := MapPage(s.mem, s.dir, p, phys / 4096, STACK_PAGE, 7);
    Clear(s.(mem := m, pmm := p'), 4096 * STACK_PAGE, 4096)
  }

  /** The kernel stores bytes of one page through a pointer of its own. */
  function KernelStore(s: Space, at: nat, bytes: seq<byte>): Outcome {
    if bytes == [] then Done(s) else
    if !Mapped(s, at) then Faulted(s) else
    Done(s.(mem := StoreBytes(s.mem, Translate(s.mem, s.dir, at).value, bytes)))
  }

  /** A control block from kmalloc_a. */
  function AddBlock(s: Space, bytes: seq<byte>): Outcome {
    var (p, ptr) := KMallocA(s.pmm, BLOCK);
    KernelStore(s.(pmm := p), ptr, bytes)
  }

  /** The file buffer, with the bytes that fat16_read_file stores in it. */
  function AddBuffer(s: Space, data: seq<byte>): Outcome {
    KernelStore(s.(pmm := KMallocA(s.pmm, 4096).0), BufferAt(s), data)
  }

  function BufferAt(s: Space): nat {
    KMallocA(s.pmm, 4096).1
  }

  /** task_create_from_elf up to the queue, for the size and the data that fat16_read_file returned. */
  function CreateTask(s: Space, pid: nat, code: int, data: seq<byte>): Outcome
    requires pid < 0x1_0000_0000 && |data| <= 4096
  {
    var r0 := AddBuffer(s, data);
    if !r0.Done? then r0 else
    if code < 4 then Rejected(r0.space) else
    var (r1, entry) := LoadElf(r0.space, BufferAt(s), code);
    if !r1.Done? then r1 else
    var r2 := AddStack(r1.space);
    if !r2.Done? then r2 else
    AddBlock(r2.space, BlockBytes(pid, entry.value))
  }

  /** A buffer on a page that is not mapped, as outside the identity region, ends in a page fault. */
  lemma UnmappedBufferFaults(s: Space, pid: nat, code: int, data: seq<byte>)
    requires pid < 0x1_0000_0000 && 0 < |data| <= 4096 && Translate(s.mem, s.dir, AlignUp(s.pmm.bump)) == None
    ensures CreateTask(s, pid, code, data).Faulted?
  {
    hide Translate;
  }

  // ----- The stack -----

  /** Page q lies on frame f, which holds neither the directory nor a table. */
  ghost predicate OnFrame(s: Space, q: nat, f: nat) {
    && TablesOk(s.mem, s.dir, s.pmm.used)
    && q < 0x10_0000 && Present(Pte(s.mem, s.dir, q)) && FrameAt(s, q) == f
    && f != s.dir && f !in TableFrames(s.mem, s.dir) && 4096 * f + 4096 <= |s.mem|
  }

  lemma StoreOnFrame(s: Space, q: nat, f: nat, offset: nat, b: byte)
    requires OnFrame(s, q, f) && offset < 4096
    ensures var r := StoreByte(s, 4096 * q + offset, b);
            && r == Done(s.(mem := s.mem[4096 * f + offset := b]))
            && OnFrame(r.space, q, f) && SameTranslation(s, r.space)
  {
    hide Word, TablesOk, TableFrames, SameOutside;
    assert (4096 * q + offset) / 4096 == q && (4096 * q + offset) % 4096 == offset;
    var m' := s.mem[4096 * f + offset := b];
    ByteStays(s.mem, f, offset, b);
    TablesStay(s.mem, m', s.dir, s.pmm.used, {f});
  }

  /** Clearing part of a page stores zeros in its frame. */
  lemma {:induction false} ClearOnFrame(s: Space, q: nat, f: nat, offset: nat, n: nat)
    requires OnFrame(s, q, f) && offset + n <= 4096
    ensures var r := Clear(s, 4096 * q + offset, n);
            && r == Done(s.(mem := StoreBytes(s.mem, 4096 * f + offset, Zeros(n))))
            && OnFrame(r.space, q, f) && SameTranslation(s, r.space)
    decreases n
  {
    hide OnFrame, SameTranslation, StoreByte;
    if n == 0 {
      assert StoreBytes(s.mem, 4096 * f + offset, Zeros(0)) == s.mem;
      SameAsItself(s);
    } else {
      StoreOnFrame(s, q, f, offset, 0);
      var s1 := StoreByte(s, 4096 * q + offset, 0).space;
      ClearOnFrame(s1, q, f, offset + 1, n - 1);
      FrameInMemory(s, q, f);
      ZerosStored(s.mem, 4096 * f + offset, n);
      SameTranslationTransitive(s, s1, Clear(s1, 4096 * q + offset + 1, n - 1).space);
    }
  }

  lemma FrameInMemory(s: Space, q: nat, f: nat)
    requires OnFrame(s, q, f)
    ensures 4096 * f + 4096 <= |s.mem|
  {
  }

  lemma ZerosStored(m: Memory, at: nat, n: nat)
    requires n > 0 && at + n <= |m|
    ensures StoreBytes(m[at := 0], at + 1, Zeros(n - 1)) == StoreBytes(m, at, Zeros(n))
  {
  }

  /** What adding a stack changes: one page, which lies on a frame that was free and is all zero. */
  ghost predicate StackAdded(s: Space, s': Space, f: nat) {
    && s'.dir == s.dir && s'.pmm.bump == s.pmm.bump && s.pmm.used <= s'.pmm.used
    && f !in s.pmm.used && f in s'.pmm.used && OnFrame(s', STACK_PAGE, f)
    && (forall q :: 0 <= q < 0x10_0000 && q != STACK_PAGE ==> Pte(s'.mem, s'.dir, q) == Pte(s.mem, s.dir, q))
    && SameOutside(s.mem, s'.mem, TableFrames(s'.mem, s'.dir) + {s.dir, f})
    && TableFrames(s'.mem, s'.dir) <= TableFrames(s.mem, s.dir) + (s'.pmm.used - s.pmm.used)
    && forall a :: 4096 * f <= a < 4096 * f + 4096 ==> s'.mem[a] == 0
  }

  lemma AddStackEffect(s: Space, pages: nat) returns (f: nat)
    requires Owned(s, pages) && pages <= STACK_PAGE && AddStack(s).Done?
    ensures Owned(AddStack(s).space, pages) && StackAdded(s, AddStack(s).space, f)
  {
    hide Word, TablesOk, TableFrames, Pte, Pde, MapPage, SameOutside, Alloc, Clear, MakeEntry, IdentityMapped;
    var (p, phys) := Alloc(s.pmm);
    f := phys / 4096;
    AllocTakesLeast(s.pmm);
    OwnedTables(s, pages);
    StepKeepsOwned(s, pages, AllocBlock);
    var (m, p') := MapPage(s.mem, s.dir, p, f, STACK_PAGE, 7);
    var s1, s2 := s.(pmm := p), s.(mem := m, pmm := p');
    MapKeepsOwned(s1, pages, f, STACK_PAGE, 7);
    MapPageRefines(s.mem, s.dir, p, f, STACK_PAGE, 7);
    MapPageFrame(s.mem, s.dir, p, f, STACK_PAGE, 7);
    if !CanMap(s.mem, s.dir, p, STACK_PAGE) {
      NoTableFaults(s2);
    }
    FrameOfEntry(f);
    assert OnFrame(s2, STACK_PAGE, f);
    ClearOnFrame(s2, STACK_PAGE, f, 0, 4096);
    var s3 := AddStack(s).space;
    OwnedSame(s2, s3, pages);
    FrameCleared(s.mem, m, s3.mem, TableFrames(m, s.dir) + {s.dir}, f);
    assert TableFrames(m, s.dir) + {s.dir} + {f} == TableFrames(s3.mem, s3.dir) + {s.dir, f};
  }

  /** The frames a stack takes: its own, and one for its table if there is none. */
  function StackNeed(s: Space): nat {
    if Present(Pde(s.mem, s.dir, STACK_PAGE / 1024)) then 1 else 2
  }

  /** It takes the least free one for the page and the next for the table; all tables stay. */
  ghost predicate StackOrder(s: Space, s': Space) {
    && TakesLowest(s.pmm, s'.pmm) && FreeCount(s') + StackNeed(s) == FreeCount(s)
    && FrameAt(s', STACK_PAGE) == LeastFree(s.pmm.used, 0)
    && (forall i :: 0 <= i < 1024 && (Present(Pde(s.mem, s.dir, i)) || i != STACK_PAGE / 1024) ==>
          Pde(s'.mem, s'.dir, i) == Pde(s.mem, s.dir, i))
    && (StackNeed(s) == 2 ==>
          && Present(Pde(s'.mem, s'.dir, STACK_PAGE / 1024))
          && FrameOf(Pde(s'.mem, s'.dir, STACK_PAGE / 1024)) == LeastFree(Alloc(s.pmm).0.used, 0))
  }

  /** Adding a stack succeeds exactly when the frames are there. */
  lemma AddStackEnds(s: Space, pages: nat)
    requires Owned(s, pages) && pages <= STACK_PAGE
    ensures AddStack(s).Done? <==> FreeCount(s) >= StackNeed(s)
    ensures AddStack(s).Rejected? <==> FreeCount(s) == 0
    ensures AddStack(s).Done? ==> StackOrder(s, AddStack(s).space)
  {
    hide Word, TablesOk, TableFrames, Pte, Pde, MapPage, Alloc, Clear, MakeEntry, IdentityMapped, FreeFrames,
         TakesLowest, LeastFree;
    AllocTakesOne(s.pmm);
    AllocTakesLeast(s.pmm);
    if FreeCount(s) > 0 {
      var (p, phys) := Alloc(s.pmm);
      var f := phys / 4096;
      LeastIsAllocated(s.pmm);
      OwnedTables(s, pages);
      StepKeepsOwned(s, pages, AllocBlock);
      AllocTakesOne(p);
      AllocTakesLowest(s.pmm);
      AllocTakesLowest(p);
      LowestTransitive(s.pmm, p, Alloc(p).0);
      var (m, p') := MapPage(s.mem, s.dir, p, f, STACK_PAGE, 7);
      var s2 := s.(mem := m, pmm := p');
      MapKeepsOwned(s.(pmm := p), pages, f, STACK_PAGE, 7);
      MapPageRefines(s.mem, s.dir, p, f, STACK_PAGE, 7);
      MapPageFrame(s.mem, s.dir, p, f, STACK_PAGE, 7);
      MapPageTables(s.mem, s.dir, p, f, STACK_PAGE, 7);
      if CanMap(s.mem, s.dir, p, STACK_PAGE) {
        FrameOfEntry(f);
        assert OnFrame(s2, STACK_PAGE, f);
        ClearOnFrame(s2, STACK_PAGE, f, 0, 4096);
      } else {
        NoTableFaults(s2);
      }
    }
  }

  lemma LeastIsAllocated(p: Pmm)
    requires p.Valid() && 0 in p.used && Alloc(p).1 != 0
    ensures LeastFree(p.used, 0) == Alloc(p).1 / 4096
  {
  }

  lemma NoTableFaults(s: Space)
    requires !Present(Pde(s.mem, s.dir, STACK_PAGE / 1024))
    ensures Clear(s, 4096 * STACK_PAGE, 4096).Faulted?
  {
    assert 4096 * STACK_PAGE / 4096 == STACK_PAGE;
  }

  lemma OwnedSame(s: Space, s': Space, pages: nat)
    requires Owned(s, pages) && SameTranslation(s, s') && TablesOk(s'.mem, s'.dir, s'.pmm.used)
    ensures Owned(s', pages)
  {
    hide Pte, Pde, TablesOk, TableFrames;
  }

  lemma FrameCleared(m0: Memory, m: Memory, m': Memory, frames: set<nat>, f: nat)
    requires SameOutside(m0, m, frames) && 4096 * f + 4096 <= |m| && m' == StoreBytes(m, 4096 * f, Zeros(4096))
    ensures SameOutside(m0, m', frames + {f})
    ensures forall a :: 4096 * f <= a < 4096 * f + 4096 ==> m'[a] == 0
  {
    assert forall a: nat :: 4096 * f <= a < 4096 * f + 4096 ==> a / 4096 == f;
  }

  // ----- What becomes of the program -----

  lemma TranslateFrame(s: Space, v: nat)
    requires Present(Pte(s.mem, s.dir, v / 4096))
    ensures Translate(s.mem, s.dir, v) == Some(4096 * FrameAt(s, v / 4096) + v % 4096)
  {
    hide Word;
  }

  /** The stack leaves the program alone, except that it takes its own page. */
  lemma StackKeepsByte(s0: Space, s1: Space, s2: Space, pages: nat, f: nat, v: nat)
    requires Extends(s0, s1, pages) && StackAdded(s1, s2, f) && v < 0x1_0000_0000 && New(s0, s1, v / 4096)
    ensures Mapped(s1, v) && Mapped(s2, v)
    ensures ByteAt(s2, v) == if v / 4096 == STACK_PAGE then 0 else ByteAt(s1, v)
    ensures Translate(s2.mem, s2.dir, v) == Some(4096 * FrameAt(s2, v / 4096) + v % 4096)
    ensures var fr := FrameAt(s2, v / 4096);
            fr in s2.pmm.used && fr != s2.dir && fr !in TableFrames(s2.mem, s2.dir)
    ensures v / 4096 != STACK_PAGE ==> FrameAt(s2, v / 4096) == FrameAt(s1, v / 4096)
  {
    hide Word, TablesOk, TableFrames, Pte, Pde, Owned, KeepsPages, KeepsMemory, Translate;
    var q := v / 4096;
    NewIsMapped(s0, s1, pages, v);
    TranslateFrame(s2, v);
    var fr := FrameAt(s2, q);
    assert (4096 * fr + v % 4096) / 4096 == fr;
    if q != STACK_PAGE {
      assert fr !in TableFrames(s2.mem, s2.dir) && fr != s1.dir && fr != f;
    }
  }

  /** The stack that new processes start with is there: the page from 0x80000000 on is all zero, and user
      code may access it. */
  lemma StackIsUsable(s: Space, pages: nat, v: nat)
    requires Owned(s, pages) && pages <= STACK_PAGE && AddStack(s).Done? && 0x8000_0000 <= v < 0x8000_1000
    ensures var s' := AddStack(s).space;
            Mapped(s', v) && ByteAt(s', v) == 0 && UserByte(s'.mem, s'.dir, v)
    ensures 0x8000_0000 <= Scheduling.STACK_TOP < 0x8000_1000 - 3
  {
    hide Word, TablesOk, TableFrames, Pde, MapPage, Alloc, Clear, MakeEntry, IdentityMapped;
    var f := AddStackEffect(s, pages);
    var s' := AddStack(s).space;
    TranslateFrame(s', v);
    StackFlags(s, pages);
    LowBits(Pte(s'.mem, s'.dir, STACK_PAGE));
    TableFlags(s', pages, STACK_PAGE / 1024);
  }

  lemma TableFlags(s: Space, pages: nat, t: nat)
    requires Owned(s, pages) && t < 1024 && Present(Pde(s.mem, s.dir, t))
    ensures Pde(s.mem, s.dir, t) % 8 == 7
  {
    hide Word, IdentityMapped, TableFrames;
    LowBits(Pde(s.mem, s.dir, t));
  }

  lemma StackFlags(s: Space, pages: nat)
    requires Owned(s, pages) && pages <= STACK_PAGE && AddStack(s).Done?
    ensures var s' := AddStack(s).space;
            Pte(s'.mem, s'.dir, STACK_PAGE) % 4096 == 7 && Present(Pde(s'.mem, s'.dir, STACK_PAGE / 1024))
  {
    hide Word, TablesOk, TableFrames, Pde, MapPage, SameOutside, Alloc, Clear, MakeEntry, IdentityMapped;
    var (p, phys) := Alloc(s.pmm);
    var f := phys / 4096;
    AllocTakesLeast(s.pmm);
    OwnedTables(s, pages);
    StepKeepsOwned(s, pages, AllocBlock);
    var (m, p') := MapPage(s.mem, s.dir, p, f, STACK_PAGE, 7);
    var s2 := s.(mem := m, pmm := p');
    MapKeepsOwned(s.(pmm := p), pages, f, STACK_PAGE, 7);
    MapPageRefines(s.mem, s.dir, p, f, STACK_PAGE, 7);
    MapPageFrame(s.mem, s.dir, p, f, STACK_PAGE, 7);
    if !CanMap(s.mem, s.dir, p, STACK_PAGE) {
      NoTableFaults(s2);
    }
    FrameOfEntry(f);
    assert OnFrame(s2, STACK_PAGE, f);
    ClearOnFrame(s2, STACK_PAGE, f, 0, 4096);
  }

  // ----- The control block -----

  function BlockAt(s: Space): nat {
    KMallocA(s.pmm, BLOCK).1
  }

  /** In the identity region the pointer is the physical address. */
  lemma StoreInIdentity(s: Space, pages: nat, at: nat, bytes: seq<byte>)
    requires Owned(s, pages) && at % 4096 == 0 && at / 4096 < pages && at < |s.mem| && bytes != []
    ensures KernelStore(s, at, bytes) == Done(s.(mem := StoreBytes(s.mem, at, bytes)))
  {
    hide Word, TablesOk, TableFrames, Pte, StoreBytes, Translate;
    KernelPointersArePhysical(s.mem, s.dir, pages, at);
  }

  lemma BlockIsStored(s: Space, pages: nat, bytes: seq<byte>)
    requires Owned(s, pages) && |bytes| == BLOCK && BlockAt(s) / 4096 < pages && BlockAt(s) + BLOCK <= |s.mem|
    ensures var r := AddBlock(s, bytes);
            && r.Done? && r.space.dir == s.dir
            && r.space.mem == StoreBytes(s.mem, BlockAt(s), bytes)
  {
    hide Word, TablesOk, TableFrames, Pte, Pde, StoreBytes, FramesOf, KernelStore;
    var (p, ptr) := KMallocA(s.pmm, BLOCK);
    KernelPointersArePhysical(s.mem, s.dir, pages, ptr);
    StoreMapped(s.(pmm := p), ptr, bytes);
  }

  lemma StoreMapped(s: Space, at: nat, bytes: seq<byte>)
    requires Translate(s.mem, s.dir, at) == Some(at) && at < |s.mem| && bytes != []
    ensures KernelStore(s, at, bytes) == Done(s.(mem := StoreBytes(s.mem, at, bytes)))
  {
  }

  /** How many entries of a table or of the directory lie under a control block on it. */
  const ENTRIES: nat := 65

  /** A control block spares the entry of a page unless it lies right on it. */
  lemma EntrySpared(s: Space, pages: nat, bytes: seq<byte>, q: nat)
    requires Owned(s, pages) && |bytes| == BLOCK && q < 0x10_0000 && Present(Pte(s.mem, s.dir, q))
    requires BlockAt(s) / 4096 < pages && BlockAt(s) + BLOCK <= |s.mem|
    requires BlockAt(s) / 4096 == s.dir ==> q / 1024 >= ENTRIES
    requires BlockAt(s) / 4096 == FrameOf(Pde(s.mem, s.dir, q / 1024)) ==> q % 1024 >= ENTRIES
    ensures var r := AddBlock(s, bytes);
            && r.Done? && r.space.dir == s.dir
            && Pde(r.space.mem, r.space.dir, q / 1024) == Pde(s.mem, s.dir, q / 1024)
            && Pte(r.space.mem, r.space.dir, q) == Pte(s.mem, s.dir, q)
  {
    hide TablesOk, TableFrames, FramesOf, IdentityMapped, AddBlock, Word, StoreBytes;
    BlockIsStored(s, pages, bytes);
    WordSpared(s.mem, BlockAt(s), bytes, s.dir, q / 1024);
    WordSpared(s.mem, BlockAt(s), bytes, FrameOf(Pde(s.mem, s.dir, q / 1024)), q % 1024);
  }

  lemma WordSpared(m: Memory, at: nat, bytes: seq<byte>, f: nat, k: nat)
    requires at % 4096 == 0 && at + |bytes| <= |m| && |bytes| == BLOCK && k < 1024
    requires at / 4096 == f ==> k >= ENTRIES
    ensures Word(StoreBytes(m, at, bytes), 4096 * f + 4 * k) == Word(m, 4096 * f + 4 * k)
  {
    hide Word;
    var b := at / 4096;
    if b != f {
      FramesApart(f, b, 4 * k);
    }
    WordUnchanged(m, StoreBytes(m, at, bytes), 4096 * f + 4 * k);
  }

  /** Where it spares the entry of its page, a byte is overwritten exactly if it lies under the block. */
  lemma BlockOverwrites(s: Space, pages: nat, bytes: seq<byte>, v: nat)
    requires Owned(s, pages) && |bytes| == BLOCK && Mapped(s, v) && v < 0x1_0000_0000
    requires BlockAt(s) / 4096 < pages && BlockAt(s) + BLOCK <= |s.mem|
    requires BlockAt(s) / 4096 == s.dir ==> v / 4096 / 1024 >= ENTRIES
    requires BlockAt(s) / 4096 == FrameOf(Pde(s.mem, s.dir, v / 4096 / 1024)) ==> v / 4096 % 1024 >= ENTRIES
    ensures var r, a := AddBlock(s, bytes), Translate(s.mem, s.dir, v).value;
            && r.Done? && Mapped(r.space, v)
            && ByteAt(r.space, v) ==
               if BlockAt(s) <= a < BlockAt(s) + BLOCK then bytes[a - BlockAt(s)] else ByteAt(s, v)
  {
    hide Owned, Pte, Pde, AddBlock;
    EntrySpared(s, pages, bytes, v / 4096);
    BlockIsStored(s, pages, bytes);
  }

  /** An all-zero block on the entry of a page unmaps the page. */
  lemma EntryErased(s: Space, pages: nat, q: nat)
    requires Owned(s, pages) && q < 0x10_0000 && Present(Pte(s.mem, s.dir, q))
    requires BlockAt(s) / 4096 < pages && BlockAt(s) + BLOCK <= |s.mem|
    requires || (BlockAt(s) / 4096 == s.dir && q / 1024 < ENTRIES)
             || (BlockAt(s) / 4096 == FrameOf(Pde(s.mem, s.dir, q / 1024)) && q % 1024 < ENTRIES)
    ensures var r := AddBlock(s, Zeros(BLOCK));
            r.Done? && !Present(Pte(r.space.mem, r.space.dir, q))
  {
    hide TableFrames, FramesOf, IdentityMapped, AddBlock, Word, StoreBytes;
    var ptr, bytes := BlockAt(s), Zeros(BLOCK);
    BlockIsStored(s, pages, bytes);
    var t := FrameOf(Pde(s.mem, s.dir, q / 1024));
    if ptr / 4096 == s.dir && q / 1024 < ENTRIES {
      StoredWord(s.mem, ptr, bytes, 4 * (q / 1024));
    } else {
      TableNotDirectory(s, pages, q / 1024);
      WordSpared(s.mem, ptr, bytes, s.dir, q / 1024);
      StoredWord(s.mem, ptr, bytes, 4 * (q % 1024));
    }
  }

  lemma TableNotDirectory(s: Space, pages: nat, t: nat)
    requires Owned(s, pages) && t < 1024 && Present(Pde(s.mem, s.dir, t))
    ensures FrameOf(Pde(s.mem, s.dir, t)) != s.dir
  {
    hide Word, IdentityMapped, TableFrames;
  }

  lemma StoredWord(m: Memory, at: nat, bytes: seq<byte>, k: nat)
    requires at + |bytes| <= |m| && k + 4 <= |bytes|
    ensures Word(StoreBytes(m, at, bytes), at + k) == Get32(bytes, k)
  {
  }

  // ----- As it runs -----

  /** task_create_from_elf, with the result of fat16_read_file as an input. */
  method Create(mmu: Mmu, pid: nat, code: int, data: seq<byte>) returns (st: Status)
    requires Ready(mmu) && pid < 0x1_0000_0000 && |data| <= 4096
    requires mmu.frames.freeMemAddr + 0x4000 <= FRAMES * 4096 && |mmu.mem| % 4096 == 0
    modifies mmu`mem, mmu.frames, mmu.frames.bitmap
    ensures Ready(mmu)
    ensures var r := CreateTask(old(mmu.View()), pid, code, data);
            mmu.View() == r.space && st == StatusOf(r)
  {
    hide LoadElf, AddStack, BlockBytes, StoreBytes, FramesOf, AddBlock;
    var buf := mmu.frames.KMallocA(4096);
    st := StoreBuffer(mmu, buf, data);
    if st != Success {
      return;
    }
    if code < 4 {
      return Failure;
    }
    var entry: Option<nat>;
    st, entry := Load(mmu, buf, code);
    if st != Success {
      return;
    }
    st := CreateStack(mmu);
    if st != Success {
      return;
    }
    st := CreateBlock(mmu, pid, entry.value);
  }

  /** What fat16_read_file stores. */
  method StoreBuffer(mmu: Mmu, buf: nat, data: seq<byte>) returns (st: Status)
    requires Ready(mmu)
    modifies mmu`mem
    ensures Ready(mmu) && |mmu.mem| == old(|mmu.mem|)
    ensures var r := KernelStore(old(mmu.View()), buf, data);
            mmu.View() == r.space && st == StatusOf(r)
  {
    hide StoreBytes, Pte, Pde;
    if data == [] {
      return Success;
    }
    var t := Translate(mmu.mem, mmu.dir, buf);
    if t.None? || t.value >= |mmu.mem| {
      return Fault;
    }
    mmu.mem := StoreBytes(mmu.mem, t.value, data);
    st := Success;
  }

  /** The user stack (src/process.c:114-117). */
  method CreateStack(mmu: Mmu) returns (st: Status)
    requires Ready(mmu)
    modifies mmu`mem, mmu.frames.bitmap
    ensures Ready(mmu) && |mmu.mem| == old(|mmu.mem|)
    ensures var r := AddStack(old(mmu.View()));
            mmu.View() == r.space && st == StatusOf(r)
  {
    hide MapPage, Alloc, Clear;
    ghost var p := mmu.frames.View();
    var phys := mmu.frames.Alloc();
    if phys == 0 {
      return Failure;
    }
    AllocInRange(p);
    mmu.Map(phys, 4096 * STACK_PAGE, 7);
    st := Zero(mmu, 4096 * STACK_PAGE, 4096);
  }

  /** The control block (src/process.c:119-138): zeroed, then filled in. */
  method CreateBlock(mmu: Mmu, pid: nat, entry: nat) returns (st: Status)
    requires Ready(mmu) && pid < 0x1_0000_0000 && entry < 0x1_0000_0000
    requires mmu.frames.freeMemAddr + 0x2000 <= FRAMES * 4096 && |mmu.mem| % 4096 == 0
    modifies mmu`mem, mmu.frames, mmu.frames.bitmap
    ensures Ready(mmu)
    ensures var r := AddBlock(old(mmu.View()), BlockBytes(pid, entry));
            mmu.View() == r.space && st == StatusOf(r)
  {
    hide FramesOf, StoreBytes, BlockBytes, Pte, Pde;
    var ptr := mmu.frames.KMallocA(BLOCK);
    var t := Translate(mmu.mem, mmu.dir, ptr);
    if t.None? || t.value >= |mmu.mem| {
      return Fault;
    }
    TranslateAligned(mmu.mem, mmu.dir, ptr);
    ZeroBlock(mmu, t.value);
    FillBlock(mmu, t.value, old(mmu.mem), pid, entry);
    st := Success;
  }

  lemma TranslateAligned(m: Memory, dir: nat, v: nat)
    requires v % 4096 == 0 && Translate(m, dir, v).Some?
    ensures Translate(m, dir, v).value % 4096 == 0
  {
    hide Pte, Pde;
  }

  method ZeroBlock(mmu: Mmu, ptr: nat)
    requires ptr + BLOCK <= |mmu.mem|
    modifies mmu`mem
    ensures mmu.mem == StoreBytes(old(mmu.mem), ptr, Zeros(BLOCK))
  {
    hide StoreBytes, Zeros;
    var k: nat := 0;
    NothingStored(mmu.mem, ptr);
    while k < BLOCK
      invariant k <= BLOCK && mmu.mem == StoreBytes(old(mmu.mem), ptr, Zeros(k))
    {
      ZeroAppended(old(mmu.mem), ptr, k);
      mmu.mem := mmu.mem[ptr + k := 0];
      k := k + 1;
    }
  }

  method FillBlock(mmu: Mmu, ptr: nat, ghost m: Memory, pid: nat, entry: nat)
    requires ptr + BLOCK <= |m| && mmu.mem == StoreBytes(m, ptr, Zeros(BLOCK))
    requires pid < 0x1_0000_0000 && entry < 0x1_0000_0000
    modifies mmu`mem
    ensures mmu.mem == StoreBytes(m, ptr, BlockBytes(pid, entry))
  {
    hide SetWord, Put32, StoreBytes, Zeros;
    ghost var b0 := Zeros(BLOCK);
    ghost var b1 := Put32(b0, 0, pid);
    ghost var b2 := Put32(b1, 4, 1);
    ghost var b3 := Put32(b2, 8, entry);
    ghost var b4 := Put32(b3, 12, Scheduling.STACK_TOP);
    FieldStored(m, ptr, b0, 0, pid);
    FieldStored(m, ptr, b1, 4, 1);
    FieldStored(m, ptr, b2, 8, entry);
    FieldStored(m, ptr, b3, 12, Scheduling.STACK_TOP);
    FieldStored(m, ptr, b4, 16, Scheduling.STACK_TOP);
    mmu.mem := SetWord(mmu.mem, ptr, pid);
    mmu.mem := SetWord(mmu.mem, ptr + 4, 1);
    mmu.mem := SetWord(mmu.mem, ptr + 8, entry);
    mmu.mem := SetWord(mmu.mem, ptr + 12, Scheduling.STACK_TOP);
    mmu.mem := SetWord(mmu.mem, ptr + 16, Scheduling.STACK_TOP);
  }

  lemma NothingStored(m: Memory, at: nat)
    ensures StoreBytes(m, at, Zeros(0)) == m
  {
  }

  lemma ZeroAppended(m: Memory, at: nat, k: nat)
    requires at + k < |m|
    ensures StoreBytes(m, at, Zeros(k))[at + k := 0] == StoreBytes(m, at, Zeros(k + 1))
  {
  }

  lemma FieldStored(m: Memory, at: nat, b: seq<byte>, offset: nat, v: nat)
    requires at + |b| <= |m| && offset + 4 <= |b| && v < 0x1_0000_0000
    ensures SetWord(StoreBytes(m, at, b), at + offset, v) == StoreBytes(m, at, Put32(b, offset, v))
  {
    hide StoreBytes;
    var x, y := StoreBytes(m, at, b), StoreBytes(m, at, Put32(b, offset, v));
    assert forall k :: 0 <= k < |b| ==> x[at + k] == b[k] && y[at + k] == Put32(b, offset, v)[k];
  }
}
