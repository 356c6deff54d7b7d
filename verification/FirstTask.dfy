/** The first task after booting: from the memory map and the file to what the program reads. */
module FirstTask {
  import opened Bytes
  import opened Options
  import Scheduling
  import opened Frames
  import opened PageTables
  import opened AddressSpace
  import opened Paging
  import opened Boot
  import opened ElfImage
  import opened ElfLoad
  import opened ElfProgram
  import opened ElfFrames
  import opened ElfOrder
  import opened ElfFile
  import opened TaskCreation
  import opened TaskImage
  import opened TaskFile

  /** Program header i of a file. */
  function FilePhdr(file: seq<byte>, i: nat): Phdr {
    PhdrAt(file, PhdrAddr(0, EhdrAt(file, 0), i))
  }

  /** An executable of at most 4096 bytes whose loadable segments lie above the first pages, in the file,
      and share no byte. */
  ghost predicate ProgramFile(file: seq<byte>, pages: nat) {
    var h := EhdrAt(file, 0);
    && 52 <= |file| <= 4096
    && file[0] == 0x7F && file[1] == 0x45 && file[2] == 0x4C && file[3] == 0x46
    && h.kind == 2 && h.phnum != 0
    && h.phentsize >= 32 && h.phoff + h.phnum * h.phentsize <= |file|
    && (forall i: nat :: i < h.phnum && FilePhdr(file, i).Loads() ==> SegmentAbove(file, pages, FilePhdr(file, i)))
    && (forall i: nat, j: nat, v: nat :: i < j < h.phnum && FilePhdr(file, i).Loads() && FilePhdr(file, j).Loads() ==>
          !(FilePhdr(file, i).Covers(v) && FilePhdr(file, j).Covers(v)))
  }

  predicate SegmentAbove(file: seq<byte>, pages: nat, ph: Phdr) {
    && ph.FirstPage() >= pages && ph.vaddr + ph.memsz + 0xFFF < 0x1_0000_0000
    && ph.offset + ph.filesz <= |file|
  }

  // ----- The file in its buffer -----

  lemma WordInBuffer(m: Memory, buf: nat, file: seq<byte>, k: nat)
    requires buf + |file| <= |m| && m[buf..buf + |file|] == file && k + 4 <= |file|
    ensures Word(m, buf + k) == Word(file, k)
  {
    assert forall a :: 0 <= a < |file| ==> m[buf + a] == m[buf..buf + |file|][a] == file[a];
  }

  lemma FileHeaderInBuffer(s0: Space, buf: nat, pages: nat, file: seq<byte>)
    requires buf + |file| <= |s0.mem| && s0.mem[buf..buf + |file|] == file && ProgramFile(file, pages)
    ensures EhdrAt(s0.mem, buf) == EhdrAt(file, 0) && Plausible(s0, buf, |file|)
  {
    hide Word, FilePhdr;
    WordInBuffer(s0.mem, buf, file, 16);
    WordInBuffer(s0.mem, buf, file, 24);
    WordInBuffer(s0.mem, buf, file, 28);
    WordInBuffer(s0.mem, buf, file, 40);
    WordInBuffer(s0.mem, buf, file, 44);
    assert forall a :: 0 <= a < 4 ==> s0.mem[buf + a] == s0.mem[buf..buf + |file|][a] == file[a];
  }

  lemma PhdrInBuffer(s0: Space, buf: nat, pages: nat, file: seq<byte>, i: nat)
    requires buf + |file| <= |s0.mem| && s0.mem[buf..buf + |file|] == file && ProgramFile(file, pages)
    requires i < EhdrAt(file, 0).phnum
    ensures PhdrOf(s0, buf, i) == FilePhdr(file, i)
  {
    hide Word, EhdrAt;
    var h := EhdrAt(file, 0);
    FileHeaderInBuffer(s0, buf, pages, file);
    HeaderInFile(h, i);
    var at := PhdrAddr(0, h, i);
    assert PhdrAddr(buf, h, i) == buf + at;
    WordInBuffer(s0.mem, buf, file, at);
    WordInBuffer(s0.mem, buf, file, at + 4);
    WordInBuffer(s0.mem, buf, file, at + 8);
    WordInBuffer(s0.mem, buf, file, at + 16);
    WordInBuffer(s0.mem, buf, file, at + 20);
  }

  /** Pages above are not mapped. */
  ghost predicate NothingAbove(s: Space, pages: nat) {
    forall q :: pages <= q < 0x10_0000 ==> !Present(Pte(s.mem, s.dir, q))
  }

  lemma FileIsOk(s0: Space, pages: nat, buf: nat, file: seq<byte>)
    requires Owned(s0, pages) && BufferOk(s0, buf, 4096) && NothingAbove(s0, pages) && ProgramFile(file, pages)
    requires buf + |file| <= |s0.mem| && s0.mem[buf..buf + |file|] == file
    ensures FileOk(s0, pages, buf, |file|, |file|) && PartsRead(s0, buf, |file|)
  {
    hide Owned, EhdrAt, FilePhdr, PhdrOf, Pte, InUse, Demand, FreeFrames, Plausible, KernelByte;
    FileHeaderInBuffer(s0, buf, pages, file);
    forall i: nat | i < EhdrAt(s0.mem, buf).phnum
      ensures PhdrOf(s0, buf, i) == FilePhdr(file, i)
    {
      PhdrInBuffer(s0, buf, pages, file, i);
    }
  }

  // ----- After booting -----

  /** init_paging has built n tables from frame dir on, init_pmm has read the memory map, and all RAM
      lies in the identity region, which leaves room for user programs. */
  ghost predicate Booted(s: Space, n: nat, regions: seq<Region>) {
    && Built(s.mem, s.dir, n) && 0 < n <= 512
    && MapOk(regions) && RamWithin(regions, 1024 * n)
    && Initialised(s.pmm, Pmm({}, 4096 * (s.dir + n + 1), 0), regions) && 4096 * s.pmm.maxFrames <= |s.mem|
  }

  /** The first frame behind the page tables. */
  function FirstFrame(s: Space, n: nat): nat {
    s.dir + n + 1
  }

  lemma FrameIsThere(s: Space, n: nat, regions: seq<Region>, f: nat)
    requires Booted(s, n, regions) && CoveredBy(regions, f) && f >= FirstFrame(s, n)
    ensures f < 1024 * n && f < FRAMES && f < s.pmm.maxFrames && f !in s.pmm.used
  {
    hide Built;
    var i :| 0 <= i < |regions| && regions[i].Covers(f);
    TopIsAbove(regions, 0, i);
  }

  lemma BootedIsReady(s: Space, n: nat, regions: seq<Region>)
    requires Booted(s, n, regions) && CoveredBy(regions, FirstFrame(s, n)) && CoveredBy(regions, FirstFrame(s, n) + 1)
    ensures BufferFits(s, 1024 * n) && BufferAt(s) == 4096 * FirstFrame(s, n) && NothingAbove(s, 1024 * n)
  {
    hide Initialised, RamWithin, CoveredBy, TablesOk, TableFrames, Pte, Pde, FramesOf, IdentityMapped;
    var b := FirstFrame(s, n);
    FrameIsThere(s, n, regions, b);
    FrameIsThere(s, n, regions, b + 1);
    BootEstablishesOwned(s.mem, s.dir, n, s.pmm, Pmm({}, 4096 * b, 0), regions);
    InitialisedBump(s, n, regions);
    TablesAreUsed(s.mem, s.dir, FrameRange(s.dir, n + 1));
    forall q | 1024 * n <= q < 0x10_0000
      ensures !Present(Pte(s.mem, s.dir, q))
    {
      PageIsAbsent(s.mem, s.dir, n, q);
    }
  }

  lemma InitialisedBump(s: Space, n: nat, regions: seq<Region>)
    requires Booted(s, n, regions)
    ensures s.pmm.bump == 4096 * FirstFrame(s, n)
  {
  }

  lemma PageIsAbsent(m: Memory, dir: nat, n: nat, q: nat)
    requires Built(m, dir, n) && 1024 * n <= q < 0x10_0000
    ensures !Present(Pte(m, dir, q))
  {
    hide Word, TablesOk, IdentityMapped;
    assert Pde(m, dir, q / 1024) == 0;
  }

  /** After the buffer the next frame is the least free one, and it is where the bump pointer is. */
  lemma NextFrameIsLeast(s: Space, n: nat, regions: seq<Region>)
    requires Booted(s, n, regions) && CoveredBy(regions, FirstFrame(s, n)) && CoveredBy(regions, FirstFrame(s, n) + 1)
    ensures var p := KMallocA(s.pmm, 4096).0;
            HasRank(p, FirstFrame(s, n) + 1, 0) && AlignUp(p.bump) / 4096 == FirstFrame(s, n) + 1
  {
    hide Built;
    var b := FirstFrame(s, n);
    FrameIsThere(s, n, regions, b + 1);
    var p := KMallocA(s.pmm, 4096).0;
    assert forall k: nat :: k in FramesOf(4096 * b, 4096) <==> k == b;
    assert forall k: nat :: k < b ==> k in s.pmm.used;
    assert FreeUnder(p, b + 1) == {};
  }

  lemma BlockIsOnFirstPage(s: Space, n: nat, regions: seq<Region>, pid: nat, file: seq<byte>, i: nat, v: nat)
    requires Booted(s, n, regions) && CoveredBy(regions, FirstFrame(s, n)) && CoveredBy(regions, FirstFrame(s, n) + 1)
    requires ProgramFile(file, 1024 * n) && pid < 0x1_0000_0000
    requires TaskDemand(AddBuffer(s, file).space, BufferAt(s)) <= FreeCount(AddBuffer(s, file).space)
    requires i < EhdrAt(file, 0).phnum && FilePhdr(file, i).Loads() && FilePhdr(file, i).Covers(v)
    requires forall k: nat :: k < i ==> !FilePhdr(file, k).Loads()
    requires v / 4096 == FilePhdr(file, i).FirstPage() && v / 4096 != STACK_PAGE && v % 4096 < BLOCK
    ensures EhdrAt(file, 0).entry < 0x1_0000_0000
    ensures var r := CreateTask(s, pid, |file|, file);
            && r.Done? && Mapped(r.space, v)
            && ByteAt(r.space, v) == BlockBytes(pid, EhdrAt(file, 0).entry)[v % 4096]
            && (v % 4096 >= 20 ==> ByteAt(r.space, v) == 0)
  {
    hide Booted, CoveredBy, ProgramFile, FilePhdr, PhdrOf, EhdrAt, TaskDemand, TaskOk, AddStack, AddBlock, LoadElf,
         Mapped, HasRank, FreeFrames, AddBuffer, BufferAt, BlockBytes, Owned, FirstToLoad, BlockFrame;
    var pages, buf, s0 := 1024 * n, BufferAt(s), AddBuffer(s, file).space;
    FirstTaskIsOk(s, n, regions, file);
    FirstHeader(s0, buf, pages, file, i);
    EntryIsStored(s0, buf, pages, file);
    var f := TaskSteps(s0, pages, buf, |file|);
    FirstPageIsOverwritten(s0, pages, buf, |file|, BlockBytes(pid, EhdrAt(file, 0).entry), i, v);
  }

  lemma FirstTaskIsOk(s: Space, n: nat, regions: seq<Region>, file: seq<byte>)
    requires Booted(s, n, regions) && CoveredBy(regions, FirstFrame(s, n)) && CoveredBy(regions, FirstFrame(s, n) + 1)
    requires ProgramFile(file, 1024 * n)
    requires TaskDemand(AddBuffer(s, file).space, BufferAt(s)) <= FreeCount(AddBuffer(s, file).space)
    ensures var s0, buf := AddBuffer(s, file).space, BufferAt(s);
            && AddBuffer(s, file).Done? && |file| >= 52
            && buf + |file| <= |s0.mem| && s0.mem[buf..buf + |file|] == file
            && TaskOk(s0, 1024 * n, buf, |file|) && HasRank(s0.pmm, BlockFrame(s0), 0)
            && BlockFrame(s0) == FirstFrame(s, n) + 1
  {
    hide Booted, CoveredBy, Owned, Pte, Pde, FilePhdr, PhdrOf, TaskDemand, BufferFits, HasRank, FreeFrames,
         NothingAbove, ProgramPages, Demand, Plausible, InUse, AddBuffer, BufferAt, FileOk, PartsRead, ProgramOk,
         StoreBytes, TaskOk, EhdrAt, KMallocA;
    var pages, buf := 1024 * n, BufferAt(s);
    BootedIsReady(s, n, regions);
    BufferIsFilled(s, pages, file);
    var s0 := AddBuffer(s, file).space;
    StillNothingAbove(s, s0, pages);
    FileIsOk(s0, pages, buf, file);
    ReadPartsAreOk(s0, pages, buf, |file|, |file|);
    TaskIsOk(s, s0, n, regions, file);
    NextFrameIsLeast(s, n, regions);
  }

  lemma FirstHeader(s0: Space, buf: nat, pages: nat, file: seq<byte>, i: nat)
    requires buf + |file| <= |s0.mem| && s0.mem[buf..buf + |file|] == file && ProgramFile(file, pages)
    requires i < EhdrAt(file, 0).phnum && FilePhdr(file, i).Loads()
    requires forall k: nat :: k < i ==> !FilePhdr(file, k).Loads()
    ensures FirstToLoad(s0, buf, i) && PhdrOf(s0, buf, i) == FilePhdr(file, i)
  {
    hide ProgramFile, FilePhdr, PhdrOf, EhdrAt;
    FileHeaderInBuffer(s0, buf, pages, file);
    PhdrInBuffer(s0, buf, pages, file, i);
    forall k: nat | k < i
      ensures !PhdrOf(s0, buf, k).Loads()
    {
      PhdrInBuffer(s0, buf, pages, file, k);
    }
  }

  lemma StillNothingAbove(s: Space, s0: Space, pages: nat)
    requires NothingAbove(s, pages)
    requires forall q :: 0 <= q < 0x10_0000 ==> Pte(s0.mem, s0.dir, q) == Pte(s.mem, s.dir, q)
    ensures NothingAbove(s0, pages)
  {
    hide Pte;
  }

  lemma EntryIsStored(s0: Space, buf: nat, pages: nat, file: seq<byte>)
    requires buf + |file| <= |s0.mem| && s0.mem[buf..buf + |file|] == file && ProgramFile(file, pages)
    ensures LoadElf(s0, buf, |file|).1 == Some(EhdrAt(file, 0).entry) && EhdrAt(file, 0).entry < 0x1_0000_0000
  {
    hide LoadSegments, Plausible, ProgramFile;
    FileHeaderInBuffer(s0, buf, pages, file);
  }

  lemma TaskIsOk(s: Space, s0: Space, n: nat, regions: seq<Region>, file: seq<byte>)
    requires Booted(s, n, regions) && CoveredBy(regions, FirstFrame(s, n)) && CoveredBy(regions, FirstFrame(s, n) + 1)
    requires BufferAt(s) == 4096 * FirstFrame(s, n) && s0 == AddBuffer(s, file).space
    requires s0 == Space(StoreBytes(s.mem, BufferAt(s), file), s.dir, KMallocA(s.pmm, 4096).0)
    requires FileOk(s0, 1024 * n, BufferAt(s), |file|, |file|) && ProgramOk(s0, BufferAt(s), |file|)
    requires TaskDemand(s0, BufferAt(s)) <= FreeCount(s0)
    ensures TaskOk(s0, 1024 * n, BufferAt(s), |file|)
  {
    hide CoveredBy, Owned, Pte, Pde, PhdrOf, TaskDemand, AddBuffer, BufferAt, FreeFrames, ProgramPages, Demand,
         Plausible, BufferOk, PartsRead, ProgramOk, StoreBytes, FramesOf, EhdrAt, Built, Initialised;
    FrameIsThere(s, n, regions, FirstFrame(s, n) + 1);
    NextFrameIsLeast(s, n, regions);
  }

  /** Behind the page tables there are two frames of RAM and no more. */
  ghost predicate TwoFramesLeft(s: Space, n: nat, regions: seq<Region>) {
    forall f: nat :: f >= FirstFrame(s, n) ==> (CoveredBy(regions, f) <==> f < FirstFrame(s, n) + 2)
  }

  lemma OnePageFaults(s: Space, n: nat, regions: seq<Region>, pid: nat, file: seq<byte>)
    requires Booted(s, n, regions) && TwoFramesLeft(s, n, regions)
    requires ProgramFile(file, 1024 * n) && pid < 0x1_0000_0000
    requires var ph := FilePhdr(file, 0);
             ph.Loads() && ph.EndPage() == ph.FirstPage() + 1
    ensures CreateTask(s, pid, |file|, file).Faulted?
  {
    hide Booted, CoveredBy, Owned, FilePhdr, PhdrOf, BufferFits, FreeFrames, NothingAbove, Plausible, InUse,
         AddBuffer, BufferAt, ProgramOk, PartsRead, StoreBytes, EhdrAt, LoadElf, Pte, Pde;
    var pages, buf := 1024 * n, BufferAt(s);
    assert CoveredBy(regions, FirstFrame(s, n)) && CoveredBy(regions, FirstFrame(s, n) + 1);
    BootedIsReady(s, n, regions);
    BufferIsFilled(s, pages, file);
    var s0 := AddBuffer(s, file).space;
    StillNothingAbove(s, s0, pages);
    FileIsOk(s0, pages, buf, file);
    ReadPartsAreOk(s0, pages, buf, |file|, |file|);
    PhdrInBuffer(s0, buf, pages, file, 0);
    assert SegmentAbove(file, pages, FilePhdr(file, 0));
    TableIsAbsent(s, s0, n, regions, file, FilePhdr(file, 0).FirstPage() / 1024);
    OneFrameLeft(s, n, regions);
    SinglePageFaults(s0, pages, buf, |file|);
  }

  lemma TableIsAbsent(s: Space, s0: Space, n: nat, regions: seq<Region>, file: seq<byte>, t: nat)
    requires Booted(s, n, regions) && BufferFits(s, 1024 * n) && 0 < |file| <= 4096 && n <= t < 1024
    requires s0 == Space(StoreBytes(s.mem, BufferAt(s), file), s.dir, KMallocA(s.pmm, 4096).0)
    ensures !Present(Pde(s0.mem, s0.dir, t))
  {
    hide Word, TablesOk, TableFrames, IdentityMapped, Initialised, RamWithin, FramesOf, StoreBytes, SameOutside,
         Owned;
    DataFrame(BufferAt(s), |file|);
    StoreBytesStays(s.mem, BufferAt(s), file);
    WordStays(s.mem, s0.mem, FramesOf(BufferAt(s), |file|), s.dir, 4 * t);
    assert Pde(s.mem, s.dir, t) == 0;
  }

  lemma OneFrameLeft(s: Space, n: nat, regions: seq<Region>)
    requires Booted(s, n, regions) && TwoFramesLeft(s, n, regions)
    ensures |FreeFrames(KMallocA(s.pmm, 4096).0)| == 1
  {
    hide Built, RamWithin;
    var b, p := FirstFrame(s, n), KMallocA(s.pmm, 4096).0;
    assert CoveredBy(regions, b + 1);
    FrameIsThere(s, n, regions, b + 1);
    TopWithin(regions, 0);
    assert forall k: nat :: k in FramesOf(4096 * b, 4096) <==> k == b;
    forall f: nat
      ensures f in FreeFrames(p) <==> f == b + 1
    {
      assert f in s.pmm.used || f >= FRAMES || (CoveredBy(regions, f) && f >= b);
    }
    assert FreeFrames(p) == {b + 1};
  }

  // ----- Executables -----

  /** The file is the program's, an executable with segments, of at most 4096 bytes. Its headers and loadable
      segments lie in the file, the segments above the first pages, and they share no byte. */
  ghost predicate Executable(file: seq<byte>, p: Program, pages: nat) {
    && Encodes(file, 0, p) && |file| <= 4096 && p.kind == 2 && p.segments != []
    && p.phentsize >= 32 && HeaderPlace(p, |p.segments|) <= |file|
    && (forall i :: 0 <= i < |p.segments| && p.segments[i].kind == 1 && p.segments[i].memsz > 0 ==>
          LiesAbove(file, p.segments[i], pages))
    && SegmentsApart(p)
  }

  predicate LiesAbove(file: seq<byte>, g: Segment, pages: nat) {
    && g.vaddr / 4096 >= pages && g.vaddr + g.memsz + 0xFFF < 0x1_0000_0000 && g.offset + g.filesz <= |file|
  }

  lemma ExecutableIsProgramFile(file: seq<byte>, p: Program, pages: nat)
    requires Executable(file, p, pages)
    ensures ProgramFile(file, pages) && 52 <= |file| <= 4096
    ensures EhdrAt(file, 0) == Ehdr(p.kind, p.entry, p.phoff, p.phentsize, |p.segments|)
    ensures forall i :: 0 <= i < |p.segments| ==> FilePhdr(file, i) == HeaderOf(p.segments[i])
  {
    hide EhdrAt, PhdrAt, FileHeader, SegmentHeader, BytesLie;
    FileHeaderReads(file, 0, p);
    MagicBytes(file, p);
    forall i | 0 <= i < |p.segments|
      ensures FilePhdr(file, i) == HeaderOf(p.segments[i])
    {
      SegmentReads(file, HeaderPlace(p, i), p.segments[i]);
    }
    forall i: nat, j: nat, v: nat | i < j < |p.segments| && FilePhdr(file, i).Loads() && FilePhdr(file, j).Loads()
      ensures !(FilePhdr(file, i).Covers(v) && FilePhdr(file, j).Covers(v))
    {
      assert !(p.segments[i].Holds(v) && p.segments[j].Holds(v));
    }
  }

  lemma MagicBytes(file: seq<byte>, p: Program)
    requires p.InRange() && BytesLie(file, 0, FileHeader(p))
    ensures |file| >= 52 && file[0] == 0x7F && file[1] == 0x45 && file[2] == 0x4C && file[3] == 0x46
  {
    HeaderFields(p);
    var s := file[0..52];
    assert s[0..4][0] == file[0] && s[0..4][1] == file[1] && s[0..4][2] == file[2] && s[0..4][3] == file[3];
  }

  /** The first task after booting loses its program, on every machine with two frames of RAM right
      behind the page tables and enough for the task, and for every executable: its control block,
      which describes the new process as it should, lies on the first page of the first segment, and
      what lies there reads as the block's bytes, from byte 20 on as zeros. */
  lemma FirstTaskIsOverwritten(
    s: Space, n: nat, regions: seq<Region>, pid: nat, file: seq<byte>, p: Program, i: nat, v: nat)
    requires Booted(s, n, regions) && CoveredBy(regions, FirstFrame(s, n)) && CoveredBy(regions, FirstFrame(s, n) + 1)
    requires Executable(file, p, 1024 * n) && pid < 0x1_0000_0000
    requires TaskDemand(AddBuffer(s, file).space, BufferAt(s)) <= FreeCount(AddBuffer(s, file).space)
    requires i < |p.segments| && p.segments[i].Holds(v)
    requires forall k :: 0 <= k < i ==> !(p.segments[k].kind == 1 && p.segments[k].memsz > 0)
    requires v / 4096 == p.segments[i].vaddr / 4096 && v / 4096 != STACK_PAGE && v % 4096 < BLOCK
    ensures var r := CreateTask(s, pid, |file|, file);
            var block := 4096 * (FirstFrame(s, n) + 1);
            && r.Done?
            && ProcessAt(r.space.mem, block) == Scheduling.NewTask(pid, p.entry).(state := Scheduling.Ready)
            && Mapped(r.space, v) && block + BLOCK <= |r.space.mem|
            && ByteAt(r.space, v) == r.space.mem[block + v % 4096]
            && (v % 4096 >= 20 ==> ByteAt(r.space, v) == 0)
  {
    hide Booted, CoveredBy, Executable, ProgramFile, FilePhdr, TaskDemand, TaskOk, CreateTask, Mapped, HasRank,
         FreeFrames, AddBuffer, BufferAt, BlockBytes, FirstFrame, BlockFrame, Encodes, ProcessAt, EhdrAt;
    ExecutableIsProgramFile(file, p, 1024 * n);
    assert FilePhdr(file, i).Covers(v);
    BlockIsOnFirstPage(s, n, regions, pid, file, i, v);
    FirstTaskIsOk(s, n, regions, file);
    FileInBuffer(AddBuffer(s, file).space, BufferAt(s), file, p, 1024 * n);
    CreatedTaskHoldsProcess(s, 1024 * n, pid, |file|, file, p);
    var m, block := CreateTask(s, pid, |file|, file).space.mem, 4096 * (FirstFrame(s, n) + 1);
    assert m[block..block + BLOCK][v % 4096] == m[block + v % 4096];
  }

  lemma FileInBuffer(s0: Space, buf: nat, file: seq<byte>, p: Program, pages: nat)
    requires Executable(file, p, pages) && buf + |file| <= |s0.mem| && s0.mem[buf..buf + |file|] == file
    ensures Encodes(s0.mem, buf, p)
  {
    hide FileHeader, SegmentHeader, SegmentsApart;
    PrefixEncodes(s0.mem, buf, file, |file|, p);
  }

  /** Where RAM ends two frames behind the page tables, the first task ends the system: with an executable
      whose first segment lies on one page, the buffer takes one frame, the page the other, and its table
      gets none. The kernel faults, where task_create_from_elf should return -1. */
  lemma FirstTaskFaults(s: Space, n: nat, regions: seq<Region>, pid: nat, file: seq<byte>, p: Program)
    requires Booted(s, n, regions) && TwoFramesLeft(s, n, regions)
    requires Executable(file, p, 1024 * n) && pid < 0x1_0000_0000
    requires var g := p.segments[0];
             g.kind == 1 && g.memsz > 0 && g.vaddr / 4096 == (g.vaddr + g.memsz - 1) / 4096
    ensures CreateTask(s, pid, |file|, file).Faulted?
  {
    hide Booted, CreateTask, ProgramFile, FilePhdr, Encodes, SegmentsApart;
    ExecutableIsProgramFile(file, p, 1024 * n);
    assert LiesAbove(file, p.segments[0], 1024 * n);
    OnePageFaults(s, n, regions, pid, file);
  }
}
