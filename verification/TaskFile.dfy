/** The file that task_create_from_elf reads, and the program it makes of it. */
module TaskFile {
  import opened Bytes
  import opened Options
  import opened Frames
  import opened PageTables
  import opened AddressSpace
  import opened ElfImage
  import opened ElfLoad
  import opened ElfProgram
  import opened ElfFrames
  import ElfOrder
  import opened ElfFile
  import opened TaskCreation
  import opened TaskImage
  import Scheduling
  import Fat16Layout
  import Fat16Directory
  import Fat16Volume
  import Fat16Files

  // ----- The file buffer -----

  /** The buffer will lie in the identity region, on no table. */
  ghost predicate BufferFits(s: Space, pages: nat) {
    && Owned(s, pages) && s.pmm.bump + 8192 <= FRAMES * 4096
    && BufferAt(s) / 4096 < pages && BufferAt(s) + 4096 <= |s.mem|
    && BufferAt(s) / 4096 !in TableFrames(s.mem, s.dir) + {s.dir}
  }

  /** The buffer holds the bytes read, is in use, and changes no translation. */
  lemma BufferIsFilled(s: Space, pages: nat, data: seq<byte>)
    requires BufferFits(s, pages) && 0 < |data| <= 4096
    ensures var r, buf := AddBuffer(s, data), BufferAt(s);
            && r.Done? && r.space == Space(StoreBytes(s.mem, buf, data), s.dir, KMallocA(s.pmm, 4096).0)
            && Owned(r.space, pages) && BufferOk(r.space, buf, 4096)
            && r.space.mem[buf..buf + |data|] == data
            && (forall q :: 0 <= q < 0x10_0000 ==> Pte(r.space.mem, r.space.dir, q) == Pte(s.mem, s.dir, q))
  {
    hide Word, TablesOk, TableFrames, Pte, Pde, IdentityMapped, SameOutside, FramesOf, InUse;
    var buf, p := BufferAt(s), KMallocA(s.pmm, 4096).0;
    var m' := StoreBytes(s.mem, buf, data);
    var s1, s0 := s.(pmm := p), Space(m', s.dir, p);
    StepKeepsOwned(s, pages, BumpAlloc(4096));
    assert s1 == Step(s, pages, BumpAlloc(4096));
    StoreInIdentity(s1, pages, buf, data);
    DataFrame(buf, |data|);
    StoreBytesStays(s.mem, buf, data);
    TablesStay(s.mem, m', s.dir, p.used, FramesOf(buf, |data|));
    FilledIsOwned(s1, s0, pages);
    DataFrame(buf, 4096);
    BufferInUse(s0, buf);
  }

  lemma DataFrame(buf: nat, n: nat)
    requires buf % 4096 == 0 && 0 < n <= 4096
    ensures FramesOf(buf, n) == {buf / 4096}
  {
    forall k: nat
      ensures k in FramesOf(buf, n) <==> k == buf / 4096
    {
      FramesOfOverlap(buf, n, k);
    }
  }

  lemma FilledIsOwned(s: Space, s': Space, pages: nat)
    requires Owned(s, pages) && s'.dir == s.dir && s'.pmm == s.pmm && |s'.mem| == |s.mem|
    requires TablesOk(s'.mem, s'.dir, s'.pmm.used) && TableFrames(s'.mem, s'.dir) == TableFrames(s.mem, s.dir)
    requires forall q :: 0 <= q < 0x10_0000 ==> Pte(s'.mem, s'.dir, q) == Pte(s.mem, s.dir, q)
    ensures Owned(s', pages)
  {
    hide Pte, TablesOk, TableFrames;
  }

  lemma BufferInUse(s: Space, buf: nat)
    requires buf % 4096 == 0 && buf + 4096 <= |s.mem| && buf / 4096 in s.pmm.used
    requires buf / 4096 !in TableFrames(s.mem, s.dir) + {s.dir}
    ensures BufferOk(s, buf, 4096)
  {
    hide TableFrames;
    forall a: nat | buf <= a < buf + 4096
      ensures InUse(s, a)
    {
      assert a / 4096 == buf / 4096;
    }
  }

  // ----- The image of a file -----

  /** Reading through the page tables gives the file's bytes on every segment's file part and zero on
      its tail. */
  ghost predicate ImageIsFile(s0: Space, s: Space, buf: nat, file: seq<byte>) {
    forall i: nat, v: nat ::
      i < EhdrAt(s0.mem, buf).phnum && PhdrOf(s0, buf, i).Loads() && PhdrOf(s0, buf, i).Covers(v) ==>
        Mapped(s, v) && ByteAt(s, v) == Wanted(file, 0, PhdrOf(s0, buf, i), v)
  }

  predicate BeginsAt(s0: Space, buf: nat, len: nat, file: seq<byte>) {
    buf + len <= |s0.mem| && len <= |file| && file[..len] == s0.mem[buf..buf + len]
  }

  /** Every file of the size that begins with the bytes in the buffer is loaded right. */
  ghost predicate LoadsFile(s0: Space, buf: nat, size: nat, len: nat) {
    forall file: seq<byte> :: |file| == size && BeginsAt(s0, buf, len, file) ==>
      ImageIsFile(s0, AfterLoad(s0, buf, size), buf, file)
  }

  predicate PartRead(ph: Phdr, len: nat) {
    ph.CopyLen() > 0 ==> ph.offset + ph.CopyLen() <= len
  }

  /** What the loader copies was read. */
  predicate PartsRead(s0: Space, buf: nat, len: nat) {
    forall i: nat :: i < EhdrAt(s0.mem, buf).phnum && PhdrOf(s0, buf, i).Loads() ==> PartRead(PhdrOf(s0, buf, i), len)
  }

  /** Of a file of the given size the first len bytes, with all its headers, are in the buffer. */
  ghost predicate FileOk(s0: Space, pages: nat, buf: nat, size: nat, len: nat) {
    var h := EhdrAt(s0.mem, buf);
    && Owned(s0, pages) && len <= size && len <= 4096 && BufferOk(s0, buf, len) && Plausible(s0, buf, size)
    && h.phentsize >= 32 && h.phoff + h.phnum * h.phentsize <= len
    && (forall i: nat :: i < h.phnum && PhdrOf(s0, buf, i).Loads() ==> SegmentOk(s0, PhdrOf(s0, buf, i)))
    && (forall i: nat :: i < h.phnum ==> InFile(s0, buf, size, i))
    && SegmentsDisjoint(s0, buf)
  }

  /** There are frames for the program. */
  predicate FramesSuffice(s0: Space, buf: nat) {
    Demand(s0, ProgramPages(s0, buf)) <= FreeCount(s0)
  }

  /** task_create_from_elf reads at most 4096 bytes but tells the loader the size of the file. The
      program is the file's, whatever the file holds beyond the bytes read, if and only if all that
      the loader copies was read. */
  lemma LoadsFileExactlyWhen(s0: Space, pages: nat, buf: nat, size: nat, len: nat)
    requires FileOk(s0, pages, buf, size, len) && FramesSuffice(s0, buf)
    ensures LoadsFile(s0, buf, size, len) <==> PartsRead(s0, buf, len)
  {
    hide FileOk, FramesSuffice, EhdrAt, PhdrOf, AfterLoad, Mapped;
    if PartsRead(s0, buf, len) {
      forall file: seq<byte> | |file| == size && BeginsAt(s0, buf, len, file)
        ensures ImageIsFile(s0, AfterLoad(s0, buf, size), buf, file)
      {
        ReadPartsLoad(s0, pages, buf, size, len, file);
      }
    } else {
      var i: nat :| i < EhdrAt(s0.mem, buf).phnum && PhdrOf(s0, buf, i).Loads() && !PartRead(PhdrOf(s0, buf, i), len);
      UnreadPartDiffers(s0, pages, buf, size, len, i);
    }
  }

  lemma ReadPartsLoad(s0: Space, pages: nat, buf: nat, size: nat, len: nat, file: seq<byte>)
    requires FileOk(s0, pages, buf, size, len) && FramesSuffice(s0, buf) && PartsRead(s0, buf, len)
    requires |file| == size && BeginsAt(s0, buf, len, file)
    ensures ImageIsFile(s0, AfterLoad(s0, buf, size), buf, file)
  {
    hide Owned, Extends, EhdrAt, PhdrOf, Plausible, LoadElf, Mapped, Demand, FreeFrames, SegmentOk, InUse, New;
    ReadPartsAreOk(s0, pages, buf, size, len);
    LoadEndsExactly(s0, pages, buf, size);
    assert Loadable(s0, buf, size, 0);
    LoadPlacesImage(s0, pages, buf, size);
    var s1 := AfterLoad(s0, buf, size);
    forall i: nat, v: nat |
      i < EhdrAt(s0.mem, buf).phnum && PhdrOf(s0, buf, i).Loads() && PhdrOf(s0, buf, i).Covers(v)
      ensures Mapped(s1, v) && ByteAt(s1, v) == Wanted(file, 0, PhdrOf(s0, buf, i), v)
    {
      var ph := PhdrOf(s0, buf, i);
      assert SegmentLoaded(s0, s1, buf, ph);
      SameWanted(s0, buf, len, file, ph, v);
    }
  }

  lemma ReadPartsAreOk(s0: Space, pages: nat, buf: nat, size: nat, len: nat)
    requires FileOk(s0, pages, buf, size, len) && PartsRead(s0, buf, len)
    ensures ProgramOk(s0, buf, size)
  {
    hide Owned, EhdrAt, PhdrOf, Plausible, Demand, FreeFrames, SegmentOk, InUse;
  }

  lemma SameWanted(s0: Space, buf: nat, len: nat, file: seq<byte>, ph: Phdr, v: nat)
    requires BeginsAt(s0, buf, len, file) && ph.Covers(v) && PartRead(ph, len)
    ensures Wanted(s0.mem, buf, ph, v) == Wanted(file, 0, ph, v)
  {
    var k := ph.offset + (v - ph.vaddr);
    if v - ph.vaddr < ph.filesz {
      assert file[..len][k] == s0.mem[buf..buf + len][k];
    }
  }

  /** The loader sees the bytes read only; so of two files that begin alike it loads one wrongly. */
  lemma UnreadPartDiffers(s0: Space, pages: nat, buf: nat, size: nat, len: nat, i: nat)
    requires FileOk(s0, pages, buf, size, len) && i < EhdrAt(s0.mem, buf).phnum && PhdrOf(s0, buf, i).Loads()
    requires !PartRead(PhdrOf(s0, buf, i), len)
    ensures !LoadsFile(s0, buf, size, len)
  {
    hide Owned, EhdrAt, PhdrOf, Plausible, AfterLoad, Mapped, Demand, FreeFrames, InUse, SegmentOk, SegmentsDisjoint;
    var ph, s1 := PhdrOf(s0, buf, i), AfterLoad(s0, buf, size);
    assert InFile(s0, buf, size, i);
    var last: nat := ph.CopyLen() - 1;
    var v := ph.vaddr + last;
    var b: byte := if Mapped(s1, v) && ByteAt(s1, v) == 0 then 1 else 0;
    var file := Padding(s0.mem[buf..buf + len], size, b);
    assert Wanted(file, 0, ph, v) == b;
    assert !ImageIsFile(s0, s1, buf, file);
  }

  function Padding(data: seq<byte>, size: nat, b: byte): (r: seq<byte>)
    requires |data| <= size
    ensures |r| == size && r[..|data|] == data && forall k :: |data| <= k < size ==> r[k] == b
  {
    data + seq(size - |data|, _ => b)
  }

  /** From the volume to memory: a file that was stored under a new name is what the loader puts into
      memory, if all that it copies lies in the first 4096 bytes. */
  lemma StoredFileLoads(
    g: Fat16Layout.Geometry, d: Fat16Layout.Disk, name: Fat16Directory.Name, file: seq<byte>, s: Space, pages: nat)
    requires Fat16Volume.Sound(g, d) && name.Storable() && 0 < |file| < 0x8000_0000
    requires Fat16Directory.Lookup(Fat16Directory.Dir(g, d), name, 0) == g.Slots()
    requires Fat16Volume.WriteFile(g, d, name, file).1 == 0
    requires BufferFits(s, pages)
    requires var (_, data) := Fat16Volume.ReadFile(g, Fat16Volume.WriteFile(g, d, name, file).0, name, 4096);
             var s0 := AddBuffer(s, data).space;
             && FileOk(s0, pages, BufferAt(s), |file|, |data|) && PartsRead(s0, BufferAt(s), |data|)
             && FramesSuffice(s0, BufferAt(s))
    ensures var (code, data) := Fat16Volume.ReadFile(g, Fat16Volume.WriteFile(g, d, name, file).0, name, 4096);
            var s0 := AddBuffer(s, data).space;
            code == |file| && ImageIsFile(s0, AfterLoad(s0, BufferAt(s), code), BufferAt(s), file)
  {
    hide Fat16Volume.Sound, Fat16Volume.WriteFile, Fat16Volume.ReadFile, BufferFits, FileOk, PartsRead, ImageIsFile,
         FramesSuffice, AddBuffer, BufferAt, AfterLoad;
    Fat16Files.SoundIsLaid(g, d);
    Fat16Files.FreshWriteReads(g, d, Fat16Files.Write(name, file), 4096);
    var (code, data) := Fat16Volume.ReadFile(g, Fat16Volume.WriteFile(g, d, name, file).0, name, 4096);
    assert data == file[..Min(|file|, 4096)];
    BufferIsFilled(s, pages, data);
    var s0 := AddBuffer(s, data).space;
    ReadPartsLoad(s0, pages, BufferAt(s), |file|, |data|, file);
  }

  /** The same in terms of the executable that the file was written for: its entry point, and the bytes of
      its segments. */
  lemma StoredProgramLoads(
    g: Fat16Layout.Geometry, d: Fat16Layout.Disk, name: Fat16Directory.Name, file: seq<byte>, p: Program,
    s: Space, pages: nat)
    requires Fat16Volume.Sound(g, d) && name.Storable() && 0 < |file| < 0x8000_0000
    requires Fat16Directory.Lookup(Fat16Directory.Dir(g, d), name, 0) == g.Slots()
    requires Fat16Volume.WriteFile(g, d, name, file).1 == 0
    requires BufferFits(s, pages) && Encodes(file, 0, p) && HeadersWithin(p, Min(|file|, 4096))
    requires var (_, data) := Fat16Volume.ReadFile(g, Fat16Volume.WriteFile(g, d, name, file).0, name, 4096);
             var s0 := AddBuffer(s, data).space;
             && FileOk(s0, pages, BufferAt(s), |file|, |data|) && PartsRead(s0, BufferAt(s), |data|)
             && FramesSuffice(s0, BufferAt(s))
    ensures var (code, data) := Fat16Volume.ReadFile(g, Fat16Volume.WriteFile(g, d, name, file).0, name, 4096);
            && code == |file|
            && var (r, entry) := LoadElf(AddBuffer(s, data).space, BufferAt(s), code);
            && r.Done? && entry == Some(p.entry)
            && forall i, v :: 0 <= i < |p.segments| && p.segments[i].Holds(v) ==>
                 Mapped(r.space, v) && ByteAt(r.space, v) == SegmentByte(file, 0, p.segments[i], v)
  {
    hide Fat16Volume.Sound, Fat16Volume.WriteFile, Fat16Volume.ReadFile, BufferFits, FileOk, PartsRead, PhdrOf,
         EhdrAt, FramesSuffice, AddBuffer, BufferAt, LoadElf, Mapped, Encodes, HeadersWithin;
    Fat16Files.SoundIsLaid(g, d);
    StoredFileLoads(g, d, name, file, s, pages);
    var (code, data) := Fat16Volume.ReadFile(g, Fat16Volume.WriteFile(g, d, name, file).0, name, 4096);
    Fat16Files.FreshWriteReads(g, d, Fat16Files.Write(name, file), 4096);
    assert data == file[..Min(|file|, 4096)];
    BufferIsFilled(s, pages, data);
    var s0, buf := AddBuffer(s, data).space, BufferAt(s);
    PrefixEncodes(s0.mem, buf, file, |data|, p);
    ProgramReads(s0, buf, p);
    LoadIsDone(s0, pages, buf, |file|, |data|, p.entry);
    var s1 := AfterLoad(s0, buf, code);
    forall i, v | 0 <= i < |p.segments| && p.segments[i].Holds(v)
      ensures Mapped(s1, v) && ByteAt(s1, v) == SegmentByte(file, 0, p.segments[i], v)
    {
      assert PhdrOf(s0, buf, i).Covers(v);
    }
  }

  /** File header and program headers lie in the first len bytes. */
  predicate HeadersWithin(p: Program, len: nat) {
    52 <= len && forall i :: 0 <= i < |p.segments| ==> HeaderPlace(p, i) + 32 <= len
  }

  lemma PrefixEncodes(m: Memory, buf: nat, file: seq<byte>, len: nat, p: Program)
    requires Encodes(file, 0, p) && HeadersWithin(p, len) && len <= |file|
    requires buf + len <= |m| && m[buf..buf + len] == file[..len]
    ensures Encodes(m, buf, p)
  {
    hide FileHeader, SegmentHeader;
    PrefixLies(m, buf, file, len, 0, FileHeader(p));
    forall i | 0 <= i < |p.segments|
      ensures BytesLie(m, buf + HeaderPlace(p, i), SegmentHeader(p.segments[i]))
    {
      PrefixLies(m, buf, file, len, HeaderPlace(p, i), SegmentHeader(p.segments[i]));
    }
  }

  lemma PrefixLies(m: Memory, buf: nat, file: seq<byte>, len: nat, k: nat, s: seq<byte>)
    requires BytesLie(file, k, s) && k + |s| <= len <= |file|
    requires buf + len <= |m| && m[buf..buf + len] == file[..len]
    ensures BytesLie(m, buf + k, s)
  {
    var x, y := m[buf + k..buf + k + |s|], file[k..k + |s|];
    assert forall j :: 0 <= j < |s| ==> x[j] == m[buf..buf + len][k + j] == file[..len][k + j] == y[j];
  }

  lemma LoadIsDone(s0: Space, pages: nat, buf: nat, size: nat, len: nat, entry: nat)
    requires FileOk(s0, pages, buf, size, len) && PartsRead(s0, buf, len) && FramesSuffice(s0, buf)
    requires EhdrAt(s0.mem, buf).entry == entry
    ensures LoadElf(s0, buf, size).0.Done? && LoadElf(s0, buf, size).1 == Some(entry)
  {
    hide Owned, Extends, EhdrAt, PhdrOf, Plausible, Demand, FreeFrames, SegmentOk, InUse, LoadSegments;
    ReadPartsAreOk(s0, pages, buf, size, len);
    LoadEndsExactly(s0, pages, buf, size);
    assert Loadable(s0, buf, size, 0);
  }

  // ----- The process -----

  /** After task_create_from_elf the control block, read field by field, is that of a new process: its
      PID, ready, with the entry point of the executable, its stack, and no saved context. */
  lemma CreatedTaskHoldsProcess(s: Space, pages: nat, pid: nat, code: int, data: seq<byte>, p: Program)
    requires pid < 0x1_0000_0000 && |data| <= 4096 && code >= 4 && AddBuffer(s, data).Done?
    requires var s0 := AddBuffer(s, data).space;
             TaskOk(s0, pages, BufferAt(s), code) && Encodes(s0.mem, BufferAt(s), p)
    ensures var r := CreateTask(s, pid, code, data);
            && r.Done?
            && ProcessAt(r.space.mem, 4096 * BlockFrame(AddBuffer(s, data).space))
               == Scheduling.NewTask(pid, p.entry).(state := Scheduling.Ready)
            && p.entry < 0x1_0000_0000
            && BytesLie(r.space.mem, 4096 * BlockFrame(AddBuffer(s, data).space), BlockBytes(pid, p.entry))
  {
    hide AddBuffer, BufferAt, AddStack, AddBlock, LoadSegments, BlockBytes, StoreBytes, ProcessAt, EhdrAt,
         StackOrder, Extends, ElfOrder.Later, Gained, Owned, TaskDemand, ElfOrder.TakesLowest, ProgramOk, Encodes,
         StackAdded, FreeFrames;
    var s0, buf := AddBuffer(s, data).space, BufferAt(s);
    var f := TaskSteps(s0, pages, buf, code);
    var s2 := BeforeBlock(s0, buf, code);
    ProgramReads(s0, buf, p);
    EntryIsRead(s0, buf, p);
    BlockIsStored(s2, pages, BlockBytes(pid, p.entry));
    BlockHoldsProcess(s2.mem, BlockAt(s2), pid, p.entry);
    StoredLies(s2.mem, BlockAt(s2), BlockBytes(pid, p.entry));
  }

  lemma StoredLies(m: Memory, at: nat, bytes: seq<byte>)
    requires at + |bytes| <= |m|
    ensures BytesLie(StoreBytes(m, at, bytes), at, bytes)
  {
  }

  /** Exactly when task_create_from_elf succeeds, for an executable in a buffer and a control block inside the
      identity region: the loader's conditions, with frames for the stack too. */
  lemma CreationEndsExactly(s: Space, pages: nat, pid: nat, code: int, data: seq<byte>, p: Program)
    requires BufferFits(s, pages) && pages <= STACK_PAGE && pid < 0x1_0000_0000 && 0 < |data| <= 4096
    requires var s0, buf := AddBuffer(s, data).space, BufferAt(s);
             && Encodes(s0.mem, buf, p) && (code >= 0 ==> ProgramFits(s0, buf, code, p))
             && BlockFrame(s0) < pages && 4096 * BlockFrame(s0) + 4096 <= |s0.mem|
    ensures var s0 := AddBuffer(s, data).space;
            CreateTask(s, pid, code, data).Done? <==>
              && code >= 52 && p.kind == 2 && p.segments != [] && HeaderPlace(p, |p.segments|) <= code
              && (forall i :: 0 <= i < |p.segments| && p.segments[i].kind == 1 && p.segments[i].memsz > 0 ==>
                    p.segments[i].offset + p.segments[i].filesz <= code)
              && Demand(s0, PagesOf(p)) + (if NeedsTable(s0, PagesOf(p), STACK_PAGE) then 2 else 1) <= FreeCount(s0)
  {
    hide AddBuffer, BufferAt, AddStack, AddBlock, LoadElf, BlockBytes, StoreBytes, EhdrAt, Extends, ElfOrder.Later,
         Gained, Owned, ProgramOk, Encodes, FreeFrames, ProgramFits, Demand, NeedsTable, PagesOf, BlockFrame,
         Plausible, PhdrOf;
    BufferIsFilled(s, pages, data);
    if code >= 4 {
      var s0, buf := AddBuffer(s, data).space, BufferAt(s);
      ProgramLoads(s0, pages, buf, code, p);
      FitsIsOk(s0, buf, code, p);
      FitsHere(s0, buf, code, p);
      if LoadElf(s0, buf, code).0.Done? {
        LoadLeaves(s0, pages, buf, code);
        var s1 := AfterLoad(s0, buf, code);
        StackFits(s0, s1, buf);
        AddStackEnds(s1, pages);
        LoadEndsExactly(s0, pages, buf, code);
        if TaskDemand(s0, buf) <= FreeCount(s0) {
          assert forall j: nat :: j < EhdrAt(s0.mem, buf).phnum ==> InFile(s0, buf, code, j);
          BlockIsMade(s0, pages, buf, code, BlockBytes(pid, LoadElf(s0, buf, code).1.value));
        }
      }
    }
  }

  lemma FitsHere(s0: Space, buf: nat, size: nat, p: Program)
    requires Encodes(s0.mem, buf, p) && ProgramFits(s0, buf, size, p)
    ensures ProgramPages(s0, buf) == PagesOf(p)
  {
    hide EhdrAt, Encodes, ProgramFits, PagesOf, PagesUpTo;
    ProgramReads(s0, buf, p);
    PagesAreThose(s0, buf, size, p);
  }

  lemma EntryIsRead(s0: Space, buf: nat, p: Program)
    requires Encodes(s0.mem, buf, p)
    ensures p.entry < 0x1_0000_0000
  {
  }
}
