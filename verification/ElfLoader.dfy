/** load_elf_program as it runs on the memory management unit. */
module ElfLoader {
  import opened Bytes
  import opened Frames
  import opened PageTables
  import opened AddressSpace
  import opened Options
  import opened ElfImage
  import opened Paging

  /** 0, -1, or the page fault that halts the kernel. */
  datatype Status = Success | Failure | Fault

  function StatusOf(r: Outcome): Status {
    match r
    case Done(_) => Success
    case Rejected(_) => Failure
    case Faulted(_) => Fault
  }

  ghost predicate Ready(mmu: Mmu)
    reads mmu, mmu.frames
  {
    mmu.Valid() && 4096 * mmu.frames.maxFrames <= |mmu.mem|
  }

  /** One byte through a virtual address. */
  method Store(mmu: Mmu, v: nat, b: byte) returns (st: Status)
    requires Ready(mmu)
    modifies mmu`mem
    ensures Ready(mmu) && |mmu.mem| == old(|mmu.mem|)
    ensures var r := StoreByte(old(mmu.View()), v, b);
            mmu.View() == r.space && st == StatusOf(r)
  {
    hide Pte, Pde;
    var t := Translate(mmu.mem, mmu.dir, v);
    if t.None? || t.value >= |mmu.mem| {
      return Fault;
    }
    mmu.mem := mmu.mem[t.value := b];
    st := Success;
  }

  /** memcpy */
  method Copy(mmu: Mmu, v: nat, src: nat, n: nat) returns (st: Status)
    requires Ready(mmu)
    modifies mmu`mem
    ensures Ready(mmu) && |mmu.mem| == old(|mmu.mem|)
    ensures var r := CopyIn(old(mmu.View()), v, src, n);
            mmu.View() == r.space && st == StatusOf(r)
  {
    hide StoreByte;
    var i: nat := 0;
    while i < n
      invariant i <= n && Ready(mmu) && |mmu.mem| == old(|mmu.mem|)
      invariant CopyIn(old(mmu.View()), v, src, n) == CopyIn(mmu.View(), v + i, src + i, n - i)
    {
      var b := if src + i < |mmu.mem| then mmu.mem[src + i] else 0;
      st := Store(mmu, v + i, b);
      if st != Success {
        return;
      }
      i := i + 1;
    }
    st := Success;
  }

  /** memset to zero */
  method Zero(mmu: Mmu, v: nat, n: nat) returns (st: Status)
    requires Ready(mmu)
    modifies mmu`mem
    ensures Ready(mmu) && |mmu.mem| == old(|mmu.mem|)
    ensures var r := Clear(old(mmu.View()), v, n);
            mmu.View() == r.space && st == StatusOf(r)
  {
    hide StoreByte;
    var i: nat := 0;
    while i < n
      invariant i <= n && Ready(mmu) && |mmu.mem| == old(|mmu.mem|)
      invariant Clear(old(mmu.View()), v, n) == Clear(mmu.View(), v + i, n - i)
    {
      st := Store(mmu, v + i, 0);
      if st != Success {
        return;
      }
      i := i + 1;
    }
    st := Success;
  }

  /** The mapping loop (src/keyboard.c:79-93). */
  method MapPages(mmu: Mmu, page: nat, end: nat) returns (st: Status)
    requires Ready(mmu) && end <= 0x10_0000
    modifies mmu`mem, mmu.frames.bitmap
    ensures Ready(mmu) && |mmu.mem| == old(|mmu.mem|)
    ensures var r := EnsurePages(old(mmu.View()), page, end);
            mmu.View() == r.space && st == StatusOf(r)
  {
    hide EnsurePage;
    var q := page;
    while q < end
      invariant page <= q && Ready(mmu) && |mmu.mem| == old(|mmu.mem|)
      invariant EnsurePages(old(mmu.View()), page, end) == EnsurePages(mmu.View(), q, end)
    {
      st := MapOnePage(mmu, q);
      if st != Success {
        return;
      }
      q := q + 1;
    }
    st := Success;
  }

  method MapOnePage(mmu: Mmu, q: nat) returns (st: Status)
    requires Ready(mmu) && q < 0x10_0000
    modifies mmu`mem, mmu.frames.bitmap
    ensures Ready(mmu) && |mmu.mem| == old(|mmu.mem|)
    ensures var r := EnsurePage(old(mmu.View()), q);
            mmu.View() == r.space && st == StatusOf(r)
  {
    hide Pte, MapPage, Alloc;
    assert 4096 * q / 4096 == q;
    var pte := mmu.GetPte(4096 * q);
    if !Present(pte) {
      ghost var p := mmu.frames.View();
      var phys := mmu.frames.Alloc();
      if phys == 0 {
        return Failure;
      }
      AllocInRange(p);
      mmu.Map(phys, 4096 * q, 7);
    }
    st := Success;
  }

  /** One turn of the header loop (src/keyboard.c:61-106). */
  method LoadOne(mmu: Mmu, buf: nat, size: nat, ph: Phdr) returns (st: Status)
    requires Ready(mmu)
    modifies mmu`mem, mmu.frames.bitmap
    ensures Ready(mmu) && |mmu.mem| == old(|mmu.mem|)
    ensures var r := LoadSegment(old(mmu.View()), buf, size, ph);
            mmu.View() == r.space && st == StatusOf(r)
  {
    hide EnsurePages, CopyIn, Clear;
    if ph.kind != 1 || ph.memsz == 0 {
      return Success;
    }
    if Wrap32(ph.offset + ph.filesz) > size {
      return Failure;
    }
    st := MapPages(mmu, ph.FirstPage(), ph.EndPage());
    if st != Success {
      return;
    }
    st := Copy(mmu, ph.vaddr, buf + ph.offset, ph.CopyLen());
    if st == Success && ph.memsz > ph.filesz {
      st := Zero(mmu, ph.vaddr + ph.filesz, ph.memsz - ph.filesz);
    }
  }

  /** load_elf_program */
  method Load(mmu: Mmu, buf: nat, size: nat) returns (st: Status, entry: Option<nat>)
    requires Ready(mmu)
    modifies mmu`mem, mmu.frames.bitmap
    ensures Ready(mmu) && |mmu.mem| == old(|mmu.mem|)
    ensures var (r, e) := LoadElf(old(mmu.View()), buf, size);
            mmu.View() == r.space && st == StatusOf(r) && entry == e
  {
    hide LoadSegment, EhdrAt, PhdrAt, PhdrAddr;
    entry := None;
    ghost var s0 := mmu.View();
    var ok := IsPlausible(mmu, buf, size);
    if !ok {
      return Failure, None;
    }
    var h := EhdrAt(mmu.mem, buf);
    entry := Some(h.entry);
    var i: nat := 0;
    while i < h.phnum
      invariant i <= h.phnum && Ready(mmu) && |mmu.mem| == old(|mmu.mem|)
      invariant LoadSegments(s0, buf, size, h, 0) == LoadSegments(mmu.View(), buf, size, h, i)
    {
      st := LoadOne(mmu, buf, size, PhdrAt(mmu.mem, PhdrAddr(buf, h, i)));
      if st != Success {
        return;
      }
      i := i + 1;
    }
    st := Success;
  }

  method IsPlausible(mmu: Mmu, buf: nat, size: nat) returns (ok: bool)
    requires Ready(mmu)
    ensures ok <==> Plausible(mmu.View(), buf, size)
  {
    hide Word, EhdrAt, Wrap32;
    if size < 52 || buf + 4 > |mmu.mem| {
      return false;
    }
    if mmu.mem[buf] != 0x7F || mmu.mem[buf + 1] != 0x45 || mmu.mem[buf + 2] != 0x4C || mmu.mem[buf + 3] != 0x46 {
      return false;
    }
    var h := EhdrAt(mmu.mem, buf);
    ok := h.kind == 2 && h.phnum != 0 && Wrap32(h.phoff + h.phnum * h.phentsize) <= size;
  }
}
