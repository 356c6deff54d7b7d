/** load_elf_program on a program whose addresses lie inside the identity region: nothing is allocated,
    and the bytes go to the physical addresses of the same number. */
module ElfIdentity {
  import opened Bytes
  import opened Options
  import opened Frames
  import opened PageTables
  import opened AddressSpace
  import opened ElfImage
  import opened ElfLoad
  import opened ElfProgram
  import opened ElfFrames
  import Boot

  /** [v, v + n) lies in the identity region, in memory, on frames that hold neither directory nor
      tables. */
  ghost predicate OnIdentity(s: Space, pages: nat, v: nat, n: nat) {
    && Owned(s, pages) && v + n <= |s.mem|
    && forall w: nat :: v <= w < v + n ==> Plain(s, pages, w / 4096)
  }

  predicate Plain(s: Space, pages: nat, f: nat) {
    f < pages && f != s.dir && f !in TableFrames(s.mem, s.dir)
  }

  /** s' is s with other bytes, but with the same tables. */
  ghost predicate SameTables(s: Space, s': Space, pages: nat) {
    Owned(s', pages) && SameTranslation(s, s')
  }

  lemma PlainStays(s: Space, s': Space, pages: nat, v: nat, n: nat)
    requires OnIdentity(s, pages, v, n) && SameTables(s, s', pages)
    ensures OnIdentity(s', pages, v, n)
  {
    hide Owned, Pte, Pde, TableFrames;
    forall w: nat | v <= w < v + n
      ensures Plain(s', pages, w / 4096)
    {
      assert Plain(s, pages, w / 4096);
    }
  }

  lemma StoreOnIdentity(s: Space, pages: nat, v: nat, b: byte)
    requires OnIdentity(s, pages, v, 1)
    ensures var r := StoreByte(s, v, b);
            r == Done(s.(mem := s.mem[v := b])) && SameTables(s, r.space, pages)
  {
    hide Word, TablesOk, TableFrames, Pte, Pde, SameOutside;
    assert Plain(s, pages, v / 4096);
    var f, m' := v / 4096, s.mem[v := b];
    KernelPointersArePhysical(s.mem, s.dir, pages, v);
    OneByteStays(s.mem, v, b);
    TablesStay(s.mem, m', s.dir, s.pmm.used, {f});
  }

  lemma OneByteStays(m: Memory, v: nat, b: byte)
    requires v < |m|
    ensures SameOutside(m, m[v := b], {v / 4096})
  {
  }

  /** memcpy */
  lemma {:induction false} CopyOnIdentity(s: Space, pages: nat, v: nat, src: nat, n: nat)
    requires OnIdentity(s, pages, v, n) && (n > 0 ==> src + n <= |s.mem|)
    requires src + n <= v || v + n <= src
    ensures var r := CopyIn(s, v, src, n);
            && r == Done(s.(mem := StoreBytes(s.mem, v, BytesAt(s.mem, src, n))))
            && SameTables(s, r.space, pages)
    decreases n
  {
    hide Plain, SameTables, StoreByte, Owned, StoreBytes;
    if n == 0 {
      NothingToStore(s, pages, v);
    } else {
      StoreOnIdentity(s, pages, v, s.mem[src]);
      var s1 := StoreByte(s, v, s.mem[src]).space;
      RestOnIdentity(s, s1, pages, v, n);
      CopyOnIdentity(s1, pages, v + 1, src + 1, n - 1);
      StoreOneMore(s.mem, v, BytesAt(s.mem, src, n));
      assert BytesAt(s.mem, src, n)[1..] == BytesAt(s1.mem, src + 1, n - 1);
      TablesTransitive(s, s1, CopyIn(s1, v + 1, src + 1, n - 1).space, pages);
    }
  }

  /** memset to zero */
  lemma {:induction false} ClearOnIdentity(s: Space, pages: nat, v: nat, n: nat)
    requires OnIdentity(s, pages, v, n)
    ensures var r := Clear(s, v, n);
            && r == Done(s.(mem := StoreBytes(s.mem, v, Zeros(n))))
            && SameTables(s, r.space, pages)
    decreases n
  {
    hide Plain, SameTables, StoreByte, Owned, StoreBytes;
    if n == 0 {
      NothingToStore(s, pages, v);
      assert Zeros(0) == [];
    } else {
      StoreOnIdentity(s, pages, v, 0);
      var s1 := StoreByte(s, v, 0).space;
      RestOnIdentity(s, s1, pages, v, n);
      ClearOnIdentity(s1, pages, v + 1, n - 1);
      StoreOneMore(s.mem, v, Zeros(n));
      assert Zeros(n)[1..] == Zeros(n - 1);
      TablesTransitive(s, s1, Clear(s1, v + 1, n - 1).space, pages);
    }
  }

  lemma NothingToStore(s: Space, pages: nat, v: nat)
    requires Owned(s, pages)
    ensures StoreBytes(s.mem, v, []) == s.mem && SameTables(s, s, pages)
  {
    hide Owned, Pte, Pde, TableFrames;
  }

  lemma RestOnIdentity(s: Space, s1: Space, pages: nat, v: nat, n: nat)
    requires OnIdentity(s, pages, v, n) && n > 0 && SameTables(s, s1, pages)
    ensures OnIdentity(s1, pages, v + 1, n - 1)
  {
    hide Plain, Owned, SameTables;
    PlainStays(s, s1, pages, v, n);
    SizeStays(s, s1, pages);
  }

  lemma SizeStays(s: Space, s1: Space, pages: nat)
    requires SameTables(s, s1, pages)
    ensures |s1.mem| == |s.mem| && s1.pmm == s.pmm && s1.dir == s.dir && Owned(s1, pages)
  {
    hide Owned, Pte, Pde, TableFrames;
  }

  lemma StoreOneMore(m: Memory, v: nat, bytes: seq<byte>)
    requires bytes != [] && v + |bytes| <= |m|
    ensures StoreBytes(m[v := bytes[0]], v + 1, bytes[1..]) == StoreBytes(m, v, bytes)
  {
  }

  lemma TablesTransitive(a: Space, b: Space, c: Space, pages: nat)
    requires SameTables(a, b, pages) && SameTables(b, c, pages)
    ensures SameTables(a, c, pages)
  {
    hide Owned;
    SameTranslationTransitive(a, b, c);
  }

  // ----- One segment -----

  /** The segment's bytes are stored at its addresses, and no other byte changes. */
  ghost predicate Painted(m: Memory, m': Memory, buf: nat, ph: Phdr) {
    && |m'| == |m|
    && forall a: nat :: a < |m| ==> m'[a] == if ph.Covers(a) then Wanted(m, buf, ph, a) else m[a]
  }

  /** The bytes to copy are in memory, and not where they are copied to. */
  predicate SourceApart(m: Memory, buf: nat, ph: Phdr) {
    ph.CopyLen() > 0 ==>
      && buf + ph.offset + ph.CopyLen() <= |m|
      && (buf + ph.offset + ph.CopyLen() <= ph.vaddr || ph.vaddr + ph.memsz <= buf + ph.offset)
  }

  lemma {:induction false} NothingToMap(s: Space, pages: nat, page: nat, end: nat)
    requires Owned(s, pages) && end <= pages
    ensures EnsurePages(s, page, end) == Done(s)
    decreases end - page
  {
    hide TablesOk, TableFrames, Pte;
    if page < end {
      EntryParts(page, 7);
      assert Pte(s.mem, s.dir, page) == 4096 * page + 7;
      NothingToMap(s, pages, page + 1, end);
    }
  }

  lemma FillOnIdentity(s: Space, pages: nat, buf: nat, ph: Phdr)
    requires OnIdentity(s, pages, ph.vaddr, ph.memsz) && SourceApart(s.mem, buf, ph)
    ensures var r := FillSegment(s, buf, ph);
            && r.Done? && r.space == s.(mem := r.space.mem)
            && SameTables(s, r.space, pages) && Painted(s.mem, r.space.mem, buf, ph)
  {
    hide Owned, Plain, SameTables, CopyIn, Clear, StoreBytes, Zeros;
    var n := ph.CopyLen();
    PartOnIdentity(s, pages, ph.vaddr, n, ph.vaddr, ph.memsz);
    CopyOnIdentity(s, pages, ph.vaddr, if n == 0 then 0 else buf + ph.offset, n);
    if n == 0 {
      assert CopyIn(s, ph.vaddr, buf + ph.offset, 0) == Done(s) by {
        NoCopy(s, ph.vaddr, buf + ph.offset);
      }
      NothingToStore(s, pages, ph.vaddr);
      assert BytesAt(s.mem, 0, 0) == [];
    }
    var s1 := CopyIn(s, ph.vaddr, buf + ph.offset, n).space;
    SizeStays(s, s1, pages);
    if ph.memsz > ph.filesz {
      PlainStays(s, s1, pages, ph.vaddr, ph.memsz);
      PartOnIdentity(s1, pages, ph.vaddr + ph.filesz, ph.memsz - ph.filesz, ph.vaddr, ph.memsz);
      ClearOnIdentity(s1, pages, ph.vaddr + ph.filesz, ph.memsz - ph.filesz);
      TablesTransitive(s, s1, Clear(s1, ph.vaddr + ph.filesz, ph.memsz - ph.filesz).space, pages);
    }
    PaintedByStores(s.mem, buf, ph);
  }

  lemma NoCopy(s: Space, v: nat, src: nat)
    ensures CopyIn(s, v, src, 0) == Done(s)
  {
  }

  lemma PartOnIdentity(s: Space, pages: nat, v: nat, n: nat, w: nat, k: nat)
    requires OnIdentity(s, pages, w, k) && w <= v && v + n <= w + k
    ensures OnIdentity(s, pages, v, n)
  {
    hide Owned, Plain;
  }

  lemma PaintedByStores(m: Memory, buf: nat, ph: Phdr)
    requires ph.vaddr + ph.memsz <= |m| && SourceApart(m, buf, ph)
    ensures var n := ph.CopyLen();
            var m1 := StoreBytes(m, ph.vaddr, BytesAt(m, if n == 0 then 0 else buf + ph.offset, n));
            var m2 :=
              if ph.memsz > ph.filesz then StoreBytes(m1, ph.vaddr + ph.filesz, Zeros(ph.memsz - ph.filesz)) else m1;
            Painted(m, m2, buf, ph)
  {
    hide StoreBytes, BytesAt;
  }

  // ----- The whole program -----

  /** No loadable segment takes the physical address. */
  ghost predicate Spared(s0: Space, buf: nat, a: nat) {
    forall i: nat :: i < EhdrAt(s0.mem, buf).phnum && PhdrOf(s0, buf, i).Loads() ==> !PhdrOf(s0, buf, i).Covers(a)
  }

  /** The bytes a segment copies are in memory and taken by no segment. */
  ghost predicate SourceSpared(s0: Space, buf: nat, ph: Phdr) {
    && (ph.CopyLen() > 0 ==> buf + ph.offset + ph.CopyLen() <= |s0.mem|)
    && forall a: nat :: buf + ph.offset <= a < buf + ph.offset + ph.CopyLen() ==> Spared(s0, buf, a)
  }

  /** A segment inside the identity region. */
  ghost predicate SegmentInside(s0: Space, pages: nat, buf: nat, size: nat, ph: Phdr) {
    && ph.vaddr + ph.memsz + 0xFFF < 0x1_0000_0000 && ph.offset + ph.filesz < 0x1_0000_0000
    && OnIdentity(s0, pages, ph.vaddr, ph.memsz)
    && (ph.offset + ph.filesz <= size ==> SourceSpared(s0, buf, ph))
  }

  /** All loadable segments lie inside the identity region and share no byte, with each other or with the
      file's headers and sources. */
  ghost predicate ProgramInside(s0: Space, pages: nat, buf: nat, size: nat) {
    var h := EhdrAt(s0.mem, buf);
    && Owned(s0, pages)
    && h.phentsize >= 32 && h.phoff + h.phnum * h.phentsize < 0x1_0000_0000
    && (forall a: nat :: buf + h.phoff <= a < buf + h.phoff + h.phnum * h.phentsize ==> Spared(s0, buf, a))
    && (forall i: nat :: i < h.phnum && PhdrOf(s0, buf, i).Loads() ==>
          SegmentInside(s0, pages, buf, size, PhdrOf(s0, buf, i)))
    && SegmentsDisjoint(s0, buf)
  }

  /** The first n headers are loaded, at the physical addresses; all other bytes are as before. */
  ghost predicate InsideUpTo(s0: Space, s: Space, pages: nat, buf: nat, n: nat) {
    && SameTables(s0, s, pages)
    && (forall a: nat :: a < |s0.mem| && a < |s.mem| && Spared(s0, buf, a) ==> s.mem[a] == s0.mem[a])
    && (forall i: nat :: i < n && PhdrOf(s0, buf, i).Loads() ==> LiesAt(s0, s, buf, PhdrOf(s0, buf, i)))
  }

  /** The segment's image lies at the physical addresses of its own numbers. */
  ghost predicate LiesAt(s0: Space, s: Space, buf: nat, ph: Phdr) {
    forall v: nat :: ph.Covers(v) ==> v < |s.mem| && s.mem[v] == Wanted(s0.mem, buf, ph, v)
  }

  lemma HeaderSpared(s0: Space, s: Space, pages: nat, buf: nat, size: nat, n: nat, i: nat)
    requires ProgramInside(s0, pages, buf, size) && InsideUpTo(s0, s, pages, buf, n) && i < EhdrAt(s0.mem, buf).phnum
    ensures PhdrAt(s.mem, PhdrAddr(buf, EhdrAt(s0.mem, buf), i)) == PhdrOf(s0, buf, i)
  {
    hide Word, Owned, EhdrAt, SameTables, SegmentInside, Spared, SegmentsDisjoint;
    var h := EhdrAt(s0.mem, buf);
    HeaderInFile(h, i);
    SizeStays(s0, s, pages);
    var at := PhdrAddr(buf, h, i);
    forall a: nat | at <= a < at + 32 && a < |s0.mem|
      ensures s.mem[a] == s0.mem[a]
    {
      assert Spared(s0, buf, a);
    }
    WordUnchanged(s0.mem, s.mem, at);
    WordUnchanged(s0.mem, s.mem, at + 4);
    WordUnchanged(s0.mem, s.mem, at + 8);
    WordUnchanged(s0.mem, s.mem, at + 16);
    WordUnchanged(s0.mem, s.mem, at + 20);
  }

  lemma SegmentInsideLoads(s0: Space, s: Space, pages: nat, buf: nat, size: nat, i: nat)
    requires ProgramInside(s0, pages, buf, size) && InsideUpTo(s0, s, pages, buf, i) && i < EhdrAt(s0.mem, buf).phnum
    ensures var r := LoadSegment(s, buf, size, PhdrOf(s0, buf, i));
            && (if InFile(s0, buf, size, i) then r.Done? && InsideUpTo(s0, r.space, pages, buf, i + 1)
                else r == Rejected(s))
  {
    hide Owned, EhdrAt, PhdrOf, SameTables, EnsurePages, FillSegment, Plain, Spared, SegmentsDisjoint;
    var ph := PhdrOf(s0, buf, i);
    if ph.Loads() {
      assert SegmentInside(s0, pages, buf, size, ph);
      if ph.offset + ph.filesz <= size {
        InsideIsLow(s0, pages, ph);
        SizeStays(s0, s, pages);
        NothingToMap(s, pages, ph.FirstPage(), ph.EndPage());
        PlainStays(s0, s, pages, ph.vaddr, ph.memsz);
        SourceIsApart(s0, s, pages, buf, i);
        FillOnIdentity(s, pages, buf, ph);
        var s' := FillSegment(s, buf, ph).space;
        TablesTransitive(s0, s, s', pages);
        PaintedUpTo(s0, s, s', pages, buf, i);
      }
    }
  }

  lemma InsideIsLow(s0: Space, pages: nat, ph: Phdr)
    requires OnIdentity(s0, pages, ph.vaddr, ph.memsz) && ph.memsz > 0 && ph.vaddr + ph.memsz + 0xFFF < 0x1_0000_0000
    ensures ph.EndPage() <= pages
  {
    hide Owned, TableFrames;
    assert Plain(s0, pages, (ph.vaddr + ph.memsz - 1) / 4096);
  }

  lemma SourceIsApart(s0: Space, s: Space, pages: nat, buf: nat, i: nat)
    requires SameTables(s0, s, pages) && i < EhdrAt(s0.mem, buf).phnum && PhdrOf(s0, buf, i).Loads()
    requires SourceSpared(s0, buf, PhdrOf(s0, buf, i))
    ensures SourceApart(s.mem, buf, PhdrOf(s0, buf, i))
  {
    hide Owned, EhdrAt, PhdrOf, SameTables;
    SizeStays(s0, s, pages);
    var ph := PhdrOf(s0, buf, i);
    var src, n := buf + ph.offset, ph.CopyLen();
    if n > 0 && src + n > ph.vaddr && ph.vaddr + ph.memsz > src {
      var a := if src >= ph.vaddr then src else ph.vaddr;
      assert Spared(s0, buf, a);
    }
  }

  lemma PaintedUpTo(s0: Space, s: Space, s': Space, pages: nat, buf: nat, i: nat)
    requires InsideUpTo(s0, s, pages, buf, i) && SameTables(s0, s', pages) && i < EhdrAt(s0.mem, buf).phnum
    requires PhdrOf(s0, buf, i).Loads() && SourceSpared(s0, buf, PhdrOf(s0, buf, i)) && SegmentsDisjoint(s0, buf)
    requires PhdrOf(s0, buf, i).vaddr + PhdrOf(s0, buf, i).memsz <= |s0.mem|
    requires Painted(s.mem, s'.mem, buf, PhdrOf(s0, buf, i))
    ensures InsideUpTo(s0, s', pages, buf, i + 1)
  {
    hide Owned, EhdrAt, PhdrOf, SameTables;
    SizeStays(s0, s, pages);
    var ph := PhdrOf(s0, buf, i);
    forall a: nat | a < |s0.mem| && Spared(s0, buf, a)
      ensures s'.mem[a] == s0.mem[a]
    {
      assert !ph.Covers(a);
    }
    forall j: nat | j < i && PhdrOf(s0, buf, j).Loads()
      ensures LiesAt(s0, s', buf, PhdrOf(s0, buf, j))
    {
      var pj := PhdrOf(s0, buf, j);
      assert LiesAt(s0, s, buf, pj);
      forall v: nat | pj.Covers(v)
        ensures v < |s'.mem| && s'.mem[v] == Wanted(s0.mem, buf, pj, v)
      {
        assert !ph.Covers(v);
      }
    }
    forall v: nat | ph.Covers(v)
      ensures v < |s'.mem| && s'.mem[v] == Wanted(s0.mem, buf, ph, v)
    {
      if v - ph.vaddr < ph.filesz {
        assert Spared(s0, buf, buf + ph.offset + (v - ph.vaddr));
      }
    }
  }

  lemma {:induction false} SegmentsInsideLoad(s0: Space, s: Space, pages: nat, buf: nat, size: nat, i: nat)
    requires ProgramInside(s0, pages, buf, size) && InsideUpTo(s0, s, pages, buf, i) && i <= EhdrAt(s0.mem, buf).phnum
    ensures var h := EhdrAt(s0.mem, buf);
            var r := LoadSegments(s, buf, size, h, i);
            && !r.Faulted? && SameTables(s0, r.space, pages)
            && (r.Done? <==> forall j: nat :: i <= j < h.phnum ==> InFile(s0, buf, size, j))
            && (r.Done? ==> InsideUpTo(s0, r.space, pages, buf, h.phnum))
    decreases EhdrAt(s0.mem, buf).phnum - i
  {
    hide ProgramInside, EhdrAt, PhdrOf, PhdrAt, PhdrAddr, LoadSegment, InFile;
    hide SameTables, Spared;
    if i < EhdrAt(s0.mem, buf).phnum {
      HeaderSpared(s0, s, pages, buf, size, i, i);
      SegmentInsideLoads(s0, s, pages, buf, size, i);
      if InFile(s0, buf, size, i) {
        SegmentsInsideLoad(s0, LoadSegment(s, buf, size, PhdrOf(s0, buf, i)).space, pages, buf, size, i + 1);
      }
    }
  }

  /** Loading inside the identity region succeeds exactly when the headers are plausible and all segments
      lie in the file. It allocates nothing, marks nothing and changes no translation; the image lies
      at the physical addresses of its own numbers, and all other memory is as before. */
  lemma InsideLoad(s0: Space, pages: nat, buf: nat, size: nat)
    requires ProgramInside(s0, pages, buf, size)
    ensures var num, r := EhdrAt(s0.mem, buf).phnum, LoadElf(s0, buf, size).0;
            && !r.Faulted?
            && (r.Done? <==> Plausible(s0, buf, size) && forall j: nat :: j < num ==> InFile(s0, buf, size, j))
            && Owned(r.space, pages) && SameTranslation(s0, r.space) && r.space.pmm == s0.pmm
            && (r.Done? ==> InsideUpTo(s0, r.space, pages, buf, num))
  {
    hide Owned, EhdrAt, PhdrOf, LoadSegments, InFile, KernelByte, SegmentInside, Spared, SegmentsDisjoint,
         SameTranslation;
    NothingToStore(s0, pages, 0);
    if Plausible(s0, buf, size) {
      SegmentsInsideLoad(s0, s0, pages, buf, size, 0);
      SizeStays(s0, LoadElf(s0, buf, size).0.space, pages);
    }
  }

  /** What the program then reads. */
  lemma InsideReads(s0: Space, pages: nat, buf: nat, size: nat, i: nat, v: nat)
    requires ProgramInside(s0, pages, buf, size) && Plausible(s0, buf, size)
    requires forall j: nat :: j < EhdrAt(s0.mem, buf).phnum ==> InFile(s0, buf, size, j)
    requires i < EhdrAt(s0.mem, buf).phnum && PhdrOf(s0, buf, i).Loads() && PhdrOf(s0, buf, i).Covers(v)
    ensures var s := LoadElf(s0, buf, size).0.space;
            && Translate(s.mem, s.dir, v) == Some(v) && Mapped(s, v)
            && ByteAt(s, v) == Wanted(s0.mem, buf, PhdrOf(s0, buf, i), v)
  {
    hide EhdrAt, PhdrOf, LoadElf, Spared, SegmentsDisjoint, SameTranslation, TablesOk, Pte, TableFrames, Translate,
         Plausible, InFile;
    InsideLoad(s0, pages, buf, size);
    var s := LoadElf(s0, buf, size).0.space;
    assert SegmentInside(s0, pages, buf, size, PhdrOf(s0, buf, i));
    assert Plain(s0, pages, v / 4096);
    assert LiesAt(s0, s, buf, PhdrOf(s0, buf, i));
    KernelPointersArePhysical(s.mem, s.dir, pages, v);
  }

  /** And the frame under a page of the program is handed out later if and only if it is RAM and was not
      marked before the load. */
  lemma InsideIsHandedOutExactlyWhen(s0: Space, pages: nat, buf: nat, size: nat, i: nat, q: nat)
    requires ProgramInside(s0, pages, buf, size)
    requires i < EhdrAt(s0.mem, buf).phnum && PhdrOf(s0, buf, i).Loads()
    requires 0 < q && PhdrOf(s0, buf, i).FirstPage() <= q < PhdrOf(s0, buf, i).EndPage()
    ensures var s := LoadElf(s0, buf, size).0.space;
            && Translate(s.mem, s.dir, 4096 * q) == Some(4096 * q)
            && ((exists n :: Boot.HandsOut(s.pmm, n, 4096 * q)) <==> q < s0.pmm.maxFrames && q !in s0.pmm.used)
  {
    hide EhdrAt, PhdrOf, LoadElf, Spared, SegmentsDisjoint, SameTranslation, Owned, Plain, Translate, InsideUpTo;
    InsideLoad(s0, pages, buf, size);
    var ph := PhdrOf(s0, buf, i);
    assert SegmentInside(s0, pages, buf, size, ph);
    InsideIsLow(s0, pages, ph);
    Boot.IdentityPageIsHandedOutExactlyWhen(LoadElf(s0, buf, size).0.space, pages, q);
  }
}
