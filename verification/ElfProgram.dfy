/** The memory image of a loaded program (System V gABI, chapter 5, "Program Header"). */
module ElfProgram {
  import opened Bytes
  import opened Frames
  import opened PageTables
  import opened AddressSpace
  import opened Options
  import opened ElfImage
  import opened ElfLoad

  /** The byte a segment wants at address v: from the file, or zero in the tail. */
  function Wanted(m: Memory, buf: nat, ph: Phdr, v: nat): byte
    requires ph.Covers(v)
  {
    var at := buf + ph.offset + (v - ph.vaddr);
    if v - ph.vaddr < ph.filesz && at < |m| then m[at] else 0
  }

  /** Reading the segment's addresses through the page tables gives its image. */
  ghost predicate SegmentLoaded(s0: Space, s: Space, buf: nat, ph: Phdr) {
    forall v: nat :: ph.Covers(v) ==>
      New(s0, s, v / 4096) && Mapped(s, v) && ByteAt(s, v) == Wanted(s0.mem, buf, ph, v)
  }

  /** A loadable segment whose header arithmetic does not wrap and whose pages are not mapped yet. */
  ghost predicate SegmentOk(s0: Space, ph: Phdr) {
    && ph.vaddr + ph.memsz + 0xFFF < 0x1_0000_0000
    && ph.offset + ph.filesz < 0x1_0000_0000
    && UnmappedRange(s0, ph.vaddr, ph.memsz)
  }

  /** The bytes that the loader copies lie in memory that is in use and is neither directory nor
      table. */
  ghost predicate SourceOk(s0: Space, buf: nat, ph: Phdr) {
    && (ph.CopyLen() > 0 ==> buf + ph.offset + ph.CopyLen() <= |s0.mem|)
    && forall a: nat :: buf + ph.offset <= a < buf + ph.offset + ph.CopyLen() ==> InUse(s0, a)
  }

  /** A segment that can be placed, if it lies in the file. */
  ghost predicate SegmentReady(s0: Space, buf: nat, size: nat, ph: Phdr) {
    SegmentOk(s0, ph) && (ph.offset + ph.filesz <= size ==> SourceOk(s0, buf, ph))
  }

  /** The same for the whole file buffer. */
  ghost predicate BufferOk(s0: Space, buf: nat, size: nat) {
    && buf + size <= |s0.mem|
    && forall a: nat :: buf <= a < buf + size ==> InUse(s0, a)
  }

  /** Bytes of new pages outside the segment are left alone. */
  ghost predicate OthersKept(s0: Space, s: Space, s': Space, ph: Phdr) {
    forall w: nat :: w < 0x1_0000_0000 && New(s0, s, w / 4096) && !ph.Covers(w) ==>
      New(s0, s', w / 4096) && Mapped(s, w) && Mapped(s', w) && ByteAt(s', w) == ByteAt(s, w)
  }

  lemma FillLoads(s0: Space, s: Space, pages: nat, buf: nat, ph: Phdr)
    requires Extends(s0, s, pages) && SegmentOk(s0, ph) && NewRange(s0, s, ph.vaddr, ph.memsz)
    requires SourceOk(s0, buf, ph)
    ensures var r := FillSegment(s, buf, ph);
            && r.Done?
            && Extends(s0, r.space, pages)
            && SameTranslation(s, r.space)
            && SegmentLoaded(s0, r.space, buf, ph)
            && OthersKept(s0, s, r.space, ph)
  {
    hide Owned, NewFrames, KeepsPages, KeepsMemory, Pte, Pde, TableFrames, CopyIn, Clear, InUse, Mapped;
    var n := ph.CopyLen();
    CopyStores(s0, s, pages, ph.vaddr, buf + ph.offset, n);
    var s1 := CopyIn(s, ph.vaddr, buf + ph.offset, n).space;
    if ph.memsz > ph.filesz {
      NewRangeSame(s0, s, s1, ph.vaddr, ph.memsz);
      ClearStores(s0, s1, pages, ph.vaddr + ph.filesz, ph.memsz - ph.filesz);
      SameTranslationTransitive(s, s1, Clear(s1, ph.vaddr + ph.filesz, ph.memsz - ph.filesz).space);
      CopiedThenCleared(s0, s, s1, Clear(s1, ph.vaddr + ph.filesz, ph.memsz - ph.filesz).space, buf, ph);
    } else {
      CopiedOnly(s0, s, s1, buf, ph);
    }
  }

  lemma NewRangeSame(s0: Space, s: Space, s1: Space, v: nat, n: nat)
    requires SameTranslation(s, s1) && NewRange(s0, s, v, n)
    ensures NewRange(s0, s1, v, n)
  {
    hide Pte, Pde, TableFrames;
    forall w: nat | v <= w < v + n
      ensures New(s0, s1, w / 4096)
    {
      assert New(s0, s, w / 4096);
    }
  }

  lemma CopiedOnly(s0: Space, s: Space, s1: Space, buf: nat, ph: Phdr)
    requires ph.memsz <= ph.filesz && ph.vaddr + ph.memsz < 0x1_0000_0000
    requires ph.memsz > 0 ==> buf + ph.offset + ph.memsz <= |s0.mem|
    requires NewRange(s0, s, ph.vaddr, ph.memsz)
    requires Stored(s0, s, s1, ph.vaddr, BytesAt(s0.mem, buf + ph.offset, ph.memsz))
    ensures SegmentLoaded(s0, s1, buf, ph) && OthersKept(s0, s, s1, ph)
  {
    hide New, Mapped;
  }

  lemma CopiedThenCleared(s0: Space, s: Space, s1: Space, s2: Space, buf: nat, ph: Phdr)
    requires ph.memsz > ph.filesz && ph.vaddr + ph.memsz < 0x1_0000_0000
    requires ph.filesz > 0 ==> buf + ph.offset + ph.filesz <= |s0.mem|
    requires NewRange(s0, s, ph.vaddr, ph.memsz)
    requires Stored(s0, s, s1, ph.vaddr, BytesAt(s0.mem, buf + ph.offset, ph.filesz))
    requires Stored(s0, s1, s2, ph.vaddr + ph.filesz, Zeros(ph.memsz - ph.filesz))
    ensures SegmentLoaded(s0, s2, buf, ph) && OthersKept(s0, s, s2, ph)
  {
    hide New, Mapped;
  }

  /** One program header, whichever way it ends. */
  lemma SegmentLoads(s0: Space, s: Space, pages: nat, buf: nat, size: nat, ph: Phdr)
    requires Extends(s0, s, pages) && (ph.Loads() ==> SegmentReady(s0, buf, size, ph))
    ensures var r := LoadSegment(s, buf, size, ph);
            && (r.Faulted? ==> OutOfFrames(r.space))
            && (!r.Faulted? ==> Extends(s0, r.space, pages))
            && (r.Done? && ph.Loads() ==>
                  && ph.offset + ph.filesz <= size
                  && SegmentLoaded(s0, r.space, buf, ph)
                  && OthersKept(s0, s, r.space, ph))
            && (r.Done? && !ph.Loads() ==> r.space == s)
  {
    hide Owned, NewFrames, KeepsPages, KeepsMemory, Pte, Pde, TableFrames, EnsurePages, InUse, FillSegment, Alloc;
    if ph.Loads() && ph.offset + ph.filesz <= size {
      EnsurePagesExtends(s0, s, pages, ph.FirstPage(), ph.EndPage());
      var r := EnsurePages(s, ph.FirstPage(), ph.EndPage());
      if r.Done? {
        if AllPresent(r.space, ph.FirstPage(), ph.EndPage()) {
          PresentIsNew(s0, r.space, ph);
          FillLoads(s0, r.space, pages, buf, ph);
          GrownOthersKept(s0, s, r.space, FillSegment(r.space, buf, ph).space, ph);
        } else {
          FillKeepsFrames(s0, r.space, pages, buf, ph);
        }
      }
    }
  }

  lemma PresentIsNew(s0: Space, s: Space, ph: Phdr)
    requires SegmentOk(s0, ph) && AllPresent(s, ph.FirstPage(), ph.EndPage())
    ensures NewRange(s0, s, ph.vaddr, ph.memsz)
  {
    hide Pte;
  }

  lemma GrownOthersKept(s0: Space, s: Space, s1: Space, s2: Space, ph: Phdr)
    requires Grows(s0, s, s1) && OthersKept(s0, s1, s2, ph)
    ensures OthersKept(s0, s, s2, ph)
  {
    hide New, Mapped;
  }

  /** Where a page is missing, filling faults or not, but the allocator does not change; and it can
      only end well when no page is missing. */
  lemma FillKeepsFrames(s0: Space, s: Space, pages: nat, buf: nat, ph: Phdr)
    requires Extends(s0, s, pages) && SegmentOk(s0, ph) && SourceOk(s0, buf, ph)
    requires ph.memsz > 0 && !AllPresent(s, ph.FirstPage(), ph.EndPage())
    ensures FillSegment(s, buf, ph).Faulted? && FillSegment(s, buf, ph).space.pmm == s.pmm
  {
    hide Owned, NewFrames, KeepsPages, KeepsMemory, Pte, Pde, TableFrames, CopyIn, Clear, InUse;
    var n := ph.CopyLen();
    MissingPage(s0, s, ph);
    CopyStores(s0, s, pages, ph.vaddr, buf + ph.offset, n);
    var r := CopyIn(s, ph.vaddr, buf + ph.offset, n);
    if r.Done? {
      assert ph.memsz > ph.filesz;
      ClearStores(s0, r.space, pages, ph.vaddr + ph.filesz, ph.memsz - ph.filesz);
      if Clear(r.space, ph.vaddr + ph.filesz, ph.memsz - ph.filesz).Done? {
        RangesJoin(s0, s, r.space, ph.vaddr, ph.filesz, ph.memsz);
      }
    }
  }

  lemma MissingPage(s0: Space, s: Space, ph: Phdr)
    requires SegmentOk(s0, ph) && ph.memsz > 0 && !AllPresent(s, ph.FirstPage(), ph.EndPage())
    ensures !NewRange(s0, s, ph.vaddr, ph.memsz)
  {
    hide Pte;
    var q: nat :| ph.FirstPage() <= q < ph.EndPage() && !Present(Pte(s.mem, s.dir, q));
    var w := if q == ph.FirstPage() then ph.vaddr else 4096 * q;
    assert w / 4096 == q && ph.vaddr <= w < ph.vaddr + ph.memsz;
    assert !New(s0, s, w / 4096);
  }

  lemma RangesJoin(s0: Space, s: Space, s1: Space, v: nat, n: nat, total: nat)
    requires n <= total && v + total <= 0x1_0000_0000 && SameTranslation(s, s1)
    requires NewRange(s0, s, v, n) && NewRange(s0, s1, v + n, total - n)
    ensures NewRange(s0, s, v, total)
  {
    hide Pte, Pde, TableFrames;
    forall w: nat | v <= w < v + total
      ensures New(s0, s, w / 4096)
    {
      if w >= v + n {
        assert New(s0, s1, w / 4096);
      }
    }
  }

  // ----- The whole program -----

  /** Program header i of the file. */
  function PhdrOf(s0: Space, buf: nat, i: nat): Phdr {
    PhdrAt(s0.mem, PhdrAddr(buf, EhdrAt(s0.mem, buf), i))
  }

  /** The headers do not wrap, and are read from bytes the loader never changes. */
  ghost predicate HeadersOk(s0: Space, buf: nat) {
    var h := EhdrAt(s0.mem, buf);
    && h.phentsize >= 32
    && h.phoff + h.phnum * h.phentsize < 0x1_0000_0000
    && forall a: nat :: buf + h.phoff <= a < buf + h.phoff + h.phnum * h.phentsize ==> InUse(s0, a)
  }

  /** Loadable segments do not share a byte. */
  ghost predicate SegmentsDisjoint(s0: Space, buf: nat) {
    var num := EhdrAt(s0.mem, buf).phnum;
    forall i: nat, j: nat, v: nat :: i < j < num && PhdrOf(s0, buf, i).Loads() && PhdrOf(s0, buf, j).Loads() ==>
      !(PhdrOf(s0, buf, i).Covers(v) && PhdrOf(s0, buf, j).Covers(v))
  }

  /** A program the loader can place: sound headers, and loadable segments that do not share a byte
      and whose pages are not mapped yet. */
  ghost predicate ProgramOk(s0: Space, buf: nat, size: nat) {
    var num := EhdrAt(s0.mem, buf).phnum;
    && HeadersOk(s0, buf)
    && (forall i: nat :: i < num && PhdrOf(s0, buf, i).Loads() ==> SegmentReady(s0, buf, size, PhdrOf(s0, buf, i)))
    && SegmentsDisjoint(s0, buf)
  }

  /** The first n program headers have their image in memory. */
  ghost predicate ImageUpTo(s0: Space, s: Space, buf: nat, size: nat, n: nat) {
    forall i: nat :: i < n && PhdrOf(s0, buf, i).Loads() ==>
      && PhdrOf(s0, buf, i).offset + PhdrOf(s0, buf, i).filesz <= size
      && SegmentLoaded(s0, s, buf, PhdrOf(s0, buf, i))
  }

  /** A header still reads as it did at the start. */
  lemma HeaderUnchanged(s0: Space, s: Space, pages: nat, buf: nat, i: nat)
    requires Extends(s0, s, pages) && HeadersOk(s0, buf) && i < EhdrAt(s0.mem, buf).phnum
    ensures PhdrAt(s.mem, PhdrAddr(buf, EhdrAt(s0.mem, buf), i)) == PhdrOf(s0, buf, i)
  {
    hide Word, Owned, NewFrames, KeepsPages, TableFrames, EhdrAt;
    var h := EhdrAt(s0.mem, buf);
    HeaderInFile(h, i);
    var at := PhdrAddr(buf, h, i);
    forall a: nat | at <= a < at + 32
      ensures a < |s.mem| && s.mem[a] == s0.mem[a]
    {
      assert InUse(s0, a);
    }
    WordUnchanged(s0.mem, s.mem, at);
    WordUnchanged(s0.mem, s.mem, at + 4);
    WordUnchanged(s0.mem, s.mem, at + 8);
    WordUnchanged(s0.mem, s.mem, at + 16);
    WordUnchanged(s0.mem, s.mem, at + 20);
  }

  lemma HeaderInFile(h: Ehdr, i: nat)
    requires i < h.phnum && h.phentsize >= 32
    ensures h.phoff + i * h.phentsize + 32 <= h.phoff + h.phnum * h.phentsize
  {
    TableOrder(i, h.phnum, h.phentsize);
  }

  lemma {:induction false} TableOrder(i: nat, n: nat, entry: nat)
    requires i < n
    ensures i * entry + entry <= n * entry
    decreases n
  {
    if i + 1 < n {
      TableOrder(i, n - 1, entry);
    }
    assert n * entry == (n - 1) * entry + entry;
  }

  /** The loop over the headers, from any point at which the headers before it are in place. */
  lemma {:induction false} SegmentsLoad(s0: Space, s: Space, pages: nat, buf: nat, size: nat, i: nat)
    requires Extends(s0, s, pages) && ProgramOk(s0, buf, size) && i <= EhdrAt(s0.mem, buf).phnum
    requires ImageUpTo(s0, s, buf, size, i)
    ensures var h := EhdrAt(s0.mem, buf);
            var r := LoadSegments(s, buf, size, h, i);
            && (r.Faulted? ==> OutOfFrames(r.space))
            && (!r.Faulted? ==> Extends(s0, r.space, pages))
            && (r.Done? ==> ImageUpTo(s0, r.space, buf, size, h.phnum))
    decreases EhdrAt(s0.mem, buf).phnum - i
  {
    hide Extends, Pte, EhdrAt, PhdrAt, PhdrAddr, LoadSegment, SegmentReady, SegmentLoaded, InUse, HeadersOk,
         OutOfFrames;
    var h := EhdrAt(s0.mem, buf);
    if i < h.phnum {
      HeaderUnchanged(s0, s, pages, buf, i);
      var ph := PhdrOf(s0, buf, i);
      SegmentLoads(s0, s, pages, buf, size, ph);
      var r := LoadSegment(s, buf, size, ph);
      if r.Done? {
        ImageGrows(s0, s, r.space, buf, size, i);
        SegmentsLoad(s0, r.space, pages, buf, size, i + 1);
      }
    }
  }

  /** Segments that share a page keep each other's bytes, because they share no byte. */
  lemma ImageGrows(s0: Space, s: Space, s': Space, buf: nat, size: nat, i: nat)
    requires ProgramOk(s0, buf, size) && i < EhdrAt(s0.mem, buf).phnum
    requires ImageUpTo(s0, s, buf, size, i)
    requires var ph := PhdrOf(s0, buf, i);
             if ph.Loads() then
               ph.offset + ph.filesz <= size && SegmentLoaded(s0, s', buf, ph) && OthersKept(s0, s, s', ph)
             else s' == s
    ensures ImageUpTo(s0, s', buf, size, i + 1)
  {
    hide EhdrAt, PhdrOf, HeadersOk, Mapped, New, InUse, UnmappedRange;
    var ph := PhdrOf(s0, buf, i);
    forall j: nat | j < i && PhdrOf(s0, buf, j).Loads()
      ensures SegmentLoaded(s0, s', buf, PhdrOf(s0, buf, j))
    {
      var pj := PhdrOf(s0, buf, j);
      assert SegmentLoaded(s0, s, buf, pj);
      if ph.Loads() {
        forall v: nat | pj.Covers(v)
          ensures New(s0, s', v / 4096) && Mapped(s', v) && ByteAt(s', v) == Wanted(s0.mem, buf, pj, v)
        {
          assert !ph.Covers(v) && SegmentOk(s0, pj);
        }
      }
    }
  }

  /** After load_elf_program succeeds, reading through the page tables gives the file bytes on every
      segment's file part and zero on its tail. Whatever the result short of a page fault, memory
      that was in use, the file buffer among it, and every earlier translation are unchanged. A page
      fault happens only when no frame was left. */
  lemma LoadPlacesImage(s0: Space, pages: nat, buf: nat, size: nat)
    requires Owned(s0, pages) && ProgramOk(s0, buf, size)
    ensures var h := EhdrAt(s0.mem, buf);
            var (r, entry) := LoadElf(s0, buf, size);
            && (r.Faulted? ==> OutOfFrames(r.space))
            && (!r.Faulted? ==> Extends(s0, r.space, pages))
            && (r.Done? ==> entry == Some(h.entry) && ImageUpTo(s0, r.space, buf, size, h.phnum))
  {
    hide Owned, Extends, EhdrAt, SegmentReady, HeadersOk, LoadSegments, OutOfFrames, PhdrOf;
    ExtendsItself(s0, pages);
    if Plausible(s0, buf, size) {
      SegmentsLoad(s0, s0, pages, buf, size, 0);
    }
  }

  /** A buffer from kmalloc_a meets the loader's demand, because kmalloc_a marks its frames; it does
      so unless the bump pointer had already run into the directory or a table. */
  lemma BumpBufferIsOk(s: Space, size: nat)
    requires size > 0 && KMallocA(s.pmm, size).1 + size <= |s.mem|
    ensures var (p, buf) := KMallocA(s.pmm, size);
            BufferOk(s.(pmm := p), buf, size) <==>
            FramesOf(buf, size) !! TableFrames(s.mem, s.dir) + {s.dir}
  {
    hide TableFrames;
    var (p, buf) := KMallocA(s.pmm, size);
    var s' := s.(pmm := p);
    forall a: nat | buf <= a < buf + size
      ensures a / 4096 in FramesOf(buf, size)
    {
      assert Touches(buf, size, a / 4096);
    }
    if BufferOk(s', buf, size) {
      forall f: nat | f in FramesOf(buf, size)
        ensures f !in TableFrames(s.mem, s.dir) + {s.dir}
      {
        FramesOfOverlap(buf, size, f);
        var b :| buf <= b < buf + size && b / 4096 == f;
        assert InUse(s', b);
      }
    }
  }
}
