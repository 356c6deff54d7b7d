/** ELF32 executables as a linker writes them (System V gABI, chapter 4, "ELF Header", and chapter 5,
    "Program Header"), and what load_elf_program makes of them. */
module ElfFile {
  import opened Bytes
  import opened Options
  import opened Frames
  import opened PageTables
  import opened AddressSpace
  import opened ElfImage
  import opened ElfLoad
  import opened ElfProgram
  import opened ElfFrames

  // ----- Writing -----

  datatype Segment = Segment(
    kind: nat, offset: nat, vaddr: nat, paddr: nat, filesz: nat, memsz: nat, flags: nat, align: nat)
  {
    predicate InRange() {
      && kind < 0x1_0000_0000 && offset < 0x1_0000_0000 && vaddr < 0x1_0000_0000 && paddr < 0x1_0000_0000
      && filesz < 0x1_0000_0000 && memsz < 0x1_0000_0000 && flags < 0x1_0000_0000 && align < 0x1_0000_0000
    }

    /** The program has a byte of the segment at v: only PT_LOAD segments are loaded. */
    predicate Holds(v: nat) { kind == 1 && vaddr <= v < vaddr + memsz }
  }

  /** An object file: its type, its entry point, where its program headers are, and its segments. */
  datatype Program = Program(kind: nat, entry: nat, phoff: nat, phentsize: nat, segments: seq<Segment>)
  {
    predicate InRange() {
      && kind < 0x1_0000 && entry < 0x1_0000_0000 && phoff < 0x1_0000_0000
      && phentsize < 0x1_0000 && |segments| < 0x1_0000
      && forall i :: 0 <= i < |segments| ==> segments[i].InRange()
    }
  }

  /** A half-word and a word, little-endian. */
  function Half(v: nat): (s: seq<byte>)
    requires v < 0x1_0000
    ensures |s| == 2
  {
    [(v % 0x100) as byte, (v / 0x100) as byte]
  }

  function Long(v: nat): (s: seq<byte>)
    requires v < 0x1_0000_0000
    ensures |s| == 4
  {
    Half(v % 0x1_0000) + Half(v / 0x1_0000)
  }

  /** e_ident, e_type, e_machine, e_version, e_entry, e_phoff, e_shoff, e_flags, e_ehsize, e_phentsize,
      e_phnum, e_shentsize, e_shnum, e_shstrndx. */
  function FileHeader(p: Program): (s: seq<byte>)
    requires p.InRange()
    ensures |s| == 52
  {
    [0x7F, 0x45, 0x4C, 0x46, 1, 1, 1] + Zeros(9)
    + Half(p.kind) + Half(3) + Long(1) + Long(p.entry) + Long(p.phoff) + Long(0) + Long(0)
    + Half(52) + Half(p.phentsize) + Half(|p.segments|) + Half(40) + Half(0) + Half(0)
  }

  /** p_type, p_offset, p_vaddr, p_paddr, p_filesz, p_memsz, p_flags, p_align. */
  function SegmentHeader(g: Segment): (s: seq<byte>)
    requires g.InRange()
    ensures |s| == 32
  {
    Long(g.kind) + Long(g.offset) + Long(g.vaddr) + Long(g.paddr)
    + Long(g.filesz) + Long(g.memsz) + Long(g.flags) + Long(g.align)
  }

  /** Header i of the program lies phoff + i * phentsize bytes behind the start of the file. */
  function HeaderPlace(p: Program, i: nat): nat {
    p.phoff + i * p.phentsize
  }

  predicate BytesLie(m: seq<byte>, at: nat, s: seq<byte>) {
    at + |s| <= |m| && m[at..at + |s|] == s
  }

  /** The file that starts at address buf is the program's. */
  predicate Encodes(m: seq<byte>, buf: nat, p: Program) {
    && p.InRange() && BytesLie(m, buf, FileHeader(p))
    && forall i :: 0 <= i < |p.segments| ==> BytesLie(m, buf + HeaderPlace(p, i), SegmentHeader(p.segments[i]))
  }

  // ----- Reading what was written -----

  lemma PartLies(m: seq<byte>, at: nat, all: seq<byte>, i: nat, s: seq<byte>)
    requires BytesLie(m, at, all) && i + |s| <= |all| && all[i..i + |s|] == s
    ensures BytesLie(m, at + i, s)
  {
    var x, y := m[at + i..at + i + |s|], all[i..i + |s|];
    assert forall k :: 0 <= k < |s| ==> x[k] == m[at + (i + k)] == m[at..at + |all|][i + k] == all[i + k] == y[k];
  }

  lemma LongReads(m: seq<byte>, at: nat, v: nat)
    requires v < 0x1_0000_0000 && BytesLie(m, at, Long(v))
    ensures Word(m, at) == v
  {
    var s := m[at..at + 4];
    assert s[0] == m[at] && s[1] == m[at + 1] && s[2] == m[at + 2] && s[3] == m[at + 3];
    HalfValue(v % 0x1_0000);
    HalfValue(v / 0x1_0000);
  }

  lemma HalfValue(v: nat)
    requires v < 0x1_0000
    ensures Half(v)[0] as nat + 0x100 * Half(v)[1] as nat == v
  {
  }

  /** Two half-words read as one word. */
  lemma HalvesRead(m: seq<byte>, at: nat, lo: nat, hi: nat)
    requires lo < 0x1_0000 && hi < 0x1_0000 && BytesLie(m, at, Half(lo) + Half(hi))
    ensures Word(m, at) == lo + 0x1_0000 * hi
  {
    var s := m[at..at + 4];
    assert s[0] == m[at] && s[1] == m[at + 1] && s[2] == m[at + 2] && s[3] == m[at + 3];
    HalfValue(lo);
    HalfValue(hi);
  }

  lemma SegmentFields(g: Segment)
    requires g.InRange()
    ensures var s := SegmentHeader(g);
            && s[0..4] == Long(g.kind) && s[4..8] == Long(g.offset) && s[8..12] == Long(g.vaddr)
            && s[16..20] == Long(g.filesz) && s[20..24] == Long(g.memsz)
  {
    hide Long;
  }

  /** The loader reads every field of a program header where the linker wrote it. */
  lemma SegmentReads(m: seq<byte>, at: nat, g: Segment)
    requires g.InRange() && BytesLie(m, at, SegmentHeader(g))
    ensures PhdrAt(m, at) == Phdr(g.kind, g.offset, g.vaddr, g.filesz, g.memsz)
  {
    hide Word, Long, BytesLie, SegmentHeader;
    SegmentFields(g);
    var s := SegmentHeader(g);
    PartLies(m, at, s, 0, Long(g.kind));
    PartLies(m, at, s, 4, Long(g.offset));
    PartLies(m, at, s, 8, Long(g.vaddr));
    PartLies(m, at, s, 16, Long(g.filesz));
    PartLies(m, at, s, 20, Long(g.memsz));
    LongReads(m, at, g.kind);
    LongReads(m, at + 4, g.offset);
    LongReads(m, at + 8, g.vaddr);
    LongReads(m, at + 16, g.filesz);
    LongReads(m, at + 20, g.memsz);
  }

  lemma HeaderFields(p: Program)
    requires p.InRange()
    ensures var s := FileHeader(p);
            && s[0..4] == [0x7F, 0x45, 0x4C, 0x46]
            && s[16..20] == Half(p.kind) + Half(3) && s[24..28] == Long(p.entry) && s[28..32] == Long(p.phoff)
            && s[40..44] == Half(52) + Half(p.phentsize) && s[44..48] == Half(|p.segments|) + Half(40)
  {
    hide Long, Half, Zeros;
  }

  /** And every field of the file header. */
  lemma FileHeaderReads(m: seq<byte>, buf: nat, p: Program)
    requires p.InRange() && BytesLie(m, buf, FileHeader(p))
    ensures EhdrAt(m, buf) == Ehdr(p.kind, p.entry, p.phoff, p.phentsize, |p.segments|)
    ensures BytesLie(m, buf, [0x7F, 0x45, 0x4C, 0x46])
  {
    hide Word, Long, Half, BytesLie, FileHeader;
    HeaderFields(p);
    var s := FileHeader(p);
    PartLies(m, buf, s, 0, [0x7F, 0x45, 0x4C, 0x46]);
    PartLies(m, buf, s, 16, Half(p.kind) + Half(3));
    PartLies(m, buf, s, 24, Long(p.entry));
    PartLies(m, buf, s, 28, Long(p.phoff));
    PartLies(m, buf, s, 40, Half(52) + Half(p.phentsize));
    PartLies(m, buf, s, 44, Half(|p.segments|) + Half(40));
    HalvesRead(m, buf + 16, p.kind, 3);
    LongReads(m, buf + 24, p.entry);
    LongReads(m, buf + 28, p.phoff);
    HalvesRead(m, buf + 40, 52, p.phentsize);
    HalvesRead(m, buf + 44, |p.segments|, 40);
  }

  // ----- Loading what was written -----

  /** What the loader takes from a segment's header. */
  function HeaderOf(g: Segment): Phdr {
    Phdr(g.kind, g.offset, g.vaddr, g.filesz, g.memsz)
  }

  lemma ProgramReads(s0: Space, buf: nat, p: Program)
    requires Encodes(s0.mem, buf, p)
    ensures EhdrAt(s0.mem, buf) == Ehdr(p.kind, p.entry, p.phoff, p.phentsize, |p.segments|)
    ensures forall i :: 0 <= i < |p.segments| ==> PhdrOf(s0, buf, i) == HeaderOf(p.segments[i])
  {
    hide EhdrAt, PhdrAt, FileHeader, SegmentHeader, BytesLie;
    FileHeaderReads(s0.mem, buf, p);
    forall i | 0 <= i < |p.segments|
      ensures PhdrOf(s0, buf, i) == HeaderOf(p.segments[i])
    {
      SegmentReads(s0.mem, buf + HeaderPlace(p, i), p.segments[i]);
    }
  }

  /** The byte of a segment at v: the file's, or zero in the tail. */
  function SegmentByte(m: seq<byte>, buf: nat, g: Segment, v: nat): byte
    requires g.Holds(v)
  {
    var k := v - g.vaddr;
    if k < g.filesz && buf + g.offset + k < |m| then m[buf + g.offset + k] else 0
  }

  /** The pages on which the program has a byte. */
  ghost function PagesOf(p: Program): set<nat> {
    set q: nat | q < 0x10_0000 && HasByteOn(p, |p.segments|, q)
  }

  /** One of the first n segments has a byte on page q. */
  ghost predicate HasByteOn(p: Program, n: nat, q: nat) {
    exists i :: 0 <= i < n && i < |p.segments| && ByteOn(p.segments[i], q)
  }

  ghost predicate ByteOn(g: Segment, q: nat) {
    exists v: nat :: g.Holds(v) && v / 4096 == q
  }

  /** The segment can be placed: no wrap, pages that are not mapped yet, and, if it lies in the file,
      bytes to copy from memory in use. */
  ghost predicate SegmentFits(s0: Space, buf: nat, size: nat, g: Segment) {
    && g.vaddr + g.memsz + 0xFFF < 0x1_0000_0000 && g.offset + g.filesz < 0x1_0000_0000
    && (forall v: nat :: g.Holds(v) ==> !Present(Pte(s0.mem, s0.dir, v / 4096)))
    && (g.offset + g.filesz <= size ==>
          forall v: nat :: g.Holds(v) && v - g.vaddr < g.filesz ==> InUse(s0, buf + g.offset + (v - g.vaddr)))
  }

  /** A program that can be placed: its headers are in use, and its segments fit and share no byte. */
  ghost predicate ProgramFits(s0: Space, buf: nat, size: nat, p: Program) {
    && p.phentsize >= 32 && HeaderPlace(p, |p.segments|) < 0x1_0000_0000
    && (forall a: nat :: buf + p.phoff <= a < buf + HeaderPlace(p, |p.segments|) ==> InUse(s0, a))
    && (forall i :: 0 <= i < |p.segments| && p.segments[i].kind == 1 && p.segments[i].memsz > 0 ==>
          SegmentFits(s0, buf, size, p.segments[i]))
    && SegmentsApart(p)
  }

  ghost predicate SegmentsApart(p: Program) {
    forall i, j, v: nat :: 0 <= i < j < |p.segments| ==> !(p.segments[i].Holds(v) && p.segments[j].Holds(v))
  }

  lemma FitsIsReady(s0: Space, buf: nat, size: nat, g: Segment)
    requires SegmentFits(s0, buf, size, g) && g.kind == 1
    ensures SegmentReady(s0, buf, size, HeaderOf(g))
  {
    hide Pte;
    var ph := HeaderOf(g);
    forall w: nat | ph.vaddr <= w < ph.vaddr + ph.memsz
      ensures !Present(Pte(s0.mem, s0.dir, w / 4096))
    {
      assert g.Holds(w);
    }
    if ph.offset + ph.filesz <= size {
      forall a: nat | buf + ph.offset <= a < buf + ph.offset + ph.CopyLen()
        ensures InUse(s0, a)
      {
        assert g.Holds(g.vaddr + (a - buf - g.offset));
      }
      if ph.CopyLen() > 0 {
        assert InUse(s0, buf + ph.offset + ph.CopyLen() - 1);
      }
    }
  }

  lemma FitsIsOk(s0: Space, buf: nat, size: nat, p: Program)
    requires Encodes(s0.mem, buf, p) && ProgramFits(s0, buf, size, p)
    ensures ProgramOk(s0, buf, size)
  {
    hide EhdrAt, PhdrOf, FileHeader, SegmentHeader, BytesLie, InUse, SegmentFits, SegmentReady;
    ProgramReads(s0, buf, p);
    forall i: nat | i < |p.segments| && PhdrOf(s0, buf, i).Loads()
      ensures SegmentReady(s0, buf, size, PhdrOf(s0, buf, i))
    {
      FitsIsReady(s0, buf, size, p.segments[i]);
    }
    forall i: nat, j: nat, v: nat |
      i < j < |p.segments| && PhdrOf(s0, buf, i).Loads() && PhdrOf(s0, buf, j).Loads()
      ensures !(PhdrOf(s0, buf, i).Covers(v) && PhdrOf(s0, buf, j).Covers(v))
    {
      assert !(p.segments[i].Holds(v) && p.segments[j].Holds(v));
    }
  }

  /** The pages the loader maps are those on which the program has a byte. */
  lemma PagesAreThose(s0: Space, buf: nat, size: nat, p: Program)
    requires Encodes(s0.mem, buf, p) && ProgramFits(s0, buf, size, p)
    ensures PagesUpTo(s0, buf, |p.segments|) == PagesOf(p)
  {
    hide EhdrAt, PhdrOf, FileHeader, SegmentHeader, BytesLie, InUse, Pte, Encodes;
    ProgramReads(s0, buf, p);
    forall q: nat
      ensures q in PagesUpTo(s0, buf, |p.segments|) <==> q < 0x10_0000 && HasByteOn(p, |p.segments|, q)
    {
      PageIsThere(s0, buf, size, p, |p.segments|, q);
    }
  }

  lemma {:induction false} PageIsThere(s0: Space, buf: nat, size: nat, p: Program, n: nat, q: nat)
    requires n <= |p.segments| && ProgramFits(s0, buf, size, p)
    requires forall i :: 0 <= i < |p.segments| ==> PhdrOf(s0, buf, i) == HeaderOf(p.segments[i])
    ensures q in PagesUpTo(s0, buf, n) <==> q < 0x10_0000 && HasByteOn(p, n, q)
    decreases n
  {
    hide PhdrOf, InUse, Pte, SegmentsApart, SegmentFits, ByteOn;
    if n > 0 {
      PageIsThere(s0, buf, size, p, n - 1, q);
      PageOfSegment(s0, buf, size, p.segments[n - 1], q);
    }
  }

  lemma PageOfSegment(s0: Space, buf: nat, size: nat, g: Segment, q: nat)
    requires g.kind == 1 && g.memsz > 0 ==> SegmentFits(s0, buf, size, g)
    ensures HeaderOf(g).Loads() && HeaderOf(g).FirstPage() <= q < HeaderOf(g).EndPage() <==> ByteOn(g, q)
    ensures HeaderOf(g).Loads() ==> HeaderOf(g).EndPage() <= 0x10_0000
  {
    hide InUse, Pte;
    var ph := HeaderOf(g);
    if ph.Loads() && ph.FirstPage() <= q < ph.EndPage() {
      var v := if q == ph.FirstPage() then g.vaddr else 4096 * q;
      assert g.Holds(v) && v / 4096 == q;
    }
  }

  /** load_elf_program on a written executable. It succeeds if and only if the file is an executable with
      segments, headers and segments lie in the file, and there is a free frame for every page with a
      byte of the program and every table these need. Then it stores the entry point, and reading
      through the page tables gives the file's bytes on every segment's file part and zero behind it,
      and user code may access them. */
  lemma ProgramLoads(s0: Space, pages: nat, buf: nat, size: nat, p: Program)
    requires Owned(s0, pages) && Encodes(s0.mem, buf, p) && ProgramFits(s0, buf, size, p)
    ensures var (r, entry) := LoadElf(s0, buf, size);
            && (r.Done? <==>
                  && size >= 52 && p.kind == 2 && p.segments != [] && HeaderPlace(p, |p.segments|) <= size
                  && (forall i :: 0 <= i < |p.segments| && p.segments[i].kind == 1 && p.segments[i].memsz > 0 ==>
                        p.segments[i].offset + p.segments[i].filesz <= size)
                  && Demand(s0, PagesOf(p)) <= FreeCount(s0))
            && (!r.Faulted? ==> Extends(s0, r.space, pages))
            && (r.Done? ==>
                  && entry == Some(p.entry)
                  && forall i, v :: 0 <= i < |p.segments| && p.segments[i].Holds(v) ==>
                       && Mapped(r.space, v) && ByteAt(r.space, v) == SegmentByte(s0.mem, buf, p.segments[i], v)
                       && UserByte(r.space.mem, r.space.dir, v))
  {
    hide Owned, Extends, EhdrAt, PhdrOf, LoadSegments, Encodes, Mapped, Demand, FreeFrames, PagesUpTo, PagesOf,
         ProgramOk, New, SegmentsApart, SegmentFits;
    ProgramReads(s0, buf, p);
    FitsIsOk(s0, buf, size, p);
    PagesAreThose(s0, buf, size, p);
    PlausibleExactlyWhen(s0, buf, size, p);
    LoadEndsExactly(s0, pages, buf, size);
    LoadPlacesImage(s0, pages, buf, size);
    InFileExactlyWhen(s0, buf, size, p);
    var r := LoadElf(s0, buf, size).0;
    if r.Done? {
      forall i, v | 0 <= i < |p.segments| && p.segments[i].Holds(v)
        ensures Mapped(r.space, v) && ByteAt(r.space, v) == SegmentByte(s0.mem, buf, p.segments[i], v)
        ensures UserByte(r.space.mem, r.space.dir, v)
      {
        assert SegmentLoaded(s0, r.space, buf, PhdrOf(s0, buf, i));
        assert PhdrOf(s0, buf, i).Covers(v);
        NewIsUser(s0, r.space, pages, v);
      }
    }
  }

  lemma NewIsUser(s0: Space, s: Space, pages: nat, v: nat)
    requires Extends(s0, s, pages) && New(s0, s, v / 4096)
    ensures UserByte(s.mem, s.dir, v)
  {
    hide Word, IdentityMapped, TableFrames, KeepsMemory, KeepsPages;
    LowBits(Pte(s.mem, s.dir, v / 4096));
    LowBits(Pde(s.mem, s.dir, v / 4096 / 1024));
  }

  lemma PlausibleExactlyWhen(s0: Space, buf: nat, size: nat, p: Program)
    requires Encodes(s0.mem, buf, p) && HeaderPlace(p, |p.segments|) < 0x1_0000_0000
    ensures Plausible(s0, buf, size) <==>
            size >= 52 && p.kind == 2 && p.segments != [] && HeaderPlace(p, |p.segments|) <= size
  {
    hide EhdrAt, FileHeader, SegmentHeader;
    FileHeaderReads(s0.mem, buf, p);
    MagicReads(s0, buf);
  }

  lemma MagicReads(s0: Space, buf: nat)
    ensures BytesLie(s0.mem, buf, [0x7F, 0x45, 0x4C, 0x46]) <==>
            && KernelByte(s0, buf) == 0x7F && KernelByte(s0, buf + 1) == 0x45
            && KernelByte(s0, buf + 2) == 0x4C && KernelByte(s0, buf + 3) == 0x46
  {
    if buf + 4 <= |s0.mem| {
      var s := s0.mem[buf..buf + 4];
      assert s[0] == s0.mem[buf] && s[1] == s0.mem[buf + 1] && s[2] == s0.mem[buf + 2] && s[3] == s0.mem[buf + 3];
    }
  }

  lemma InFileExactlyWhen(s0: Space, buf: nat, size: nat, p: Program)
    requires forall i :: 0 <= i < |p.segments| ==> PhdrOf(s0, buf, i) == HeaderOf(p.segments[i])
    ensures (forall j: nat :: j < |p.segments| ==> InFile(s0, buf, size, j)) <==>
            forall i :: 0 <= i < |p.segments| && p.segments[i].kind == 1 && p.segments[i].memsz > 0 ==>
              p.segments[i].offset + p.segments[i].filesz <= size
  {
    hide PhdrOf;
    if forall j: nat :: j < |p.segments| ==> InFile(s0, buf, size, j) {
      forall i | 0 <= i < |p.segments| && p.segments[i].kind == 1 && p.segments[i].memsz > 0
        ensures p.segments[i].offset + p.segments[i].filesz <= size
      {
        assert InFile(s0, buf, size, i);
      }
    }
  }

  /** A file that does not begin with the magic number is refused, whatever else it holds. */
  lemma MagicIsNeeded(s0: Space, buf: nat, size: nat)
    requires !BytesLie(s0.mem, buf, [0x7F, 0x45, 0x4C, 0x46])
    ensures LoadElf(s0, buf, size) == (Rejected(s0), None)
  {
    hide EhdrAt, LoadSegments, KernelByte, BytesLie;
    MagicReads(s0, buf);
  }
}
