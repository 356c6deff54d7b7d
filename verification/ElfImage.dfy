/** load_elf_program (src/keyboard.c) over the address space: pages are allocated and mapped, segment
    bytes copied and tails cleared through virtual addresses. */
module ElfImage {
  import opened Bytes
  import opened Frames
  import opened PageTables
  import opened AddressSpace
  import opened Options

  /** How an operation on the address space ends. Faulted is a page fault, which halts the kernel. */
  datatype Outcome = Done(space: Space) | Rejected(space: Space) | Faulted(space: Space)

  // ----- Bytes through virtual addresses -----

  /** The physical address behind v, if v is mapped to existing memory. */
  predicate Mapped(s: Space, v: nat) {
    && Translate(s.mem, s.dir, v).Some?
    && Translate(s.mem, s.dir, v).value < |s.mem|
  }

  function ByteAt(s: Space, v: nat): byte
    requires Mapped(s, v)
  {
    s.mem[Translate(s.mem, s.dir, v).value]
  }

  function StoreByte(s: Space, v: nat, b: byte): Outcome {
    if Mapped(s, v) then Done(s.(mem := s.mem[Translate(s.mem, s.dir, v).value := b])) else Faulted(s)
  }

  /** The byte a kernel pointer reads; beyond the end of memory the model reads 0. */
  function KernelByte(s: Space, a: nat): byte {
    if a < |s.mem| then s.mem[a] else 0
  }

  /** memcpy from kernel memory to a virtual address. */
  function CopyIn(s: Space, v: nat, src: nat, n: nat): (r: Outcome)
    decreases n
  {
    if n == 0 then Done(s) else
    var r := StoreByte(s, v, KernelByte(s, src));
    if r.Done? then CopyIn(r.space, v + 1, src + 1, n - 1) else r
  }

  /** memset to zero at a virtual address. */
  function Clear(s: Space, v: nat, n: nat): Outcome
    decreases n
  {
    if n == 0 then Done(s) else
    var r := StoreByte(s, v, 0);
    if r.Done? then Clear(r.space, v + 1, n - 1) else r
  }

  // ----- Loading -----

  /** Give a page a frame unless it already has one. */
  function EnsurePage(s: Space, page: nat): (r: Outcome)
    requires page < 0x10_0000
    ensures |r.space.mem| == |s.mem|
  {
    if Present(Pte(s.mem, s.dir, page)) then Done(s) else
    var (p, phys) := Alloc(s.pmm);
    if phys == 0 then Rejected(s.(pmm := p)) else
    var (m, p') := MapPage(s.mem, s.dir, p, phys / 4096, page, 7);
    Done(s.(mem := m, pmm := p'))
  }

  /** The mapping loop over the pages of a segment. */
  function EnsurePages(s: Space, page: nat, end: nat): (r: Outcome)
    requires end <= 0x10_0000
    ensures |r.space.mem| == |s.mem|
    decreases end - page
  {
    if page >= end then Done(s) else
    var r := EnsurePage(s, page);
    if r.Done? then EnsurePages(r.space, page + 1, end) else r
  }

  /** The program header fields the loader uses. */
  datatype Phdr = Phdr(kind: nat, offset: nat, vaddr: nat, filesz: nat, memsz: nat)
  {
    predicate Loads() { kind == 1 && memsz != 0 }
    function CopyLen(): nat { Min(filesz, memsz) }
    function FirstPage(): nat { vaddr / 4096 }
    function EndPage(): nat { Wrap32(vaddr + memsz + 0xFFF) / 4096 }
    predicate Covers(v: nat) { vaddr <= v < vaddr + memsz }
  }

  function PhdrAt(m: Memory, at: nat): Phdr {
    Phdr(Word(m, at), Word(m, at + 4), Word(m, at + 8), Word(m, at + 16), Word(m, at + 20))
  }

  /** Copy the file part of a segment, then clear its tail. */
  function FillSegment(s: Space, buf: nat, ph: Phdr): Outcome {
    var r := CopyIn(s, ph.vaddr, buf + ph.offset, ph.CopyLen());
    if !r.Done? then r else
    if ph.memsz > ph.filesz then Clear(r.space, ph.vaddr + ph.filesz, ph.memsz - ph.filesz) else r
  }

  /** One program header: map the segment's pages, then fill it. */
  function LoadSegment(s: Space, buf: nat, size: nat, ph: Phdr): Outcome {
    if !ph.Loads() then Done(s) else
    if Wrap32(ph.offset + ph.filesz) > size then Rejected(s) else
    var r := EnsurePages(s, ph.FirstPage(), ph.EndPage());
    if r.Done? then FillSegment(r.space, buf, ph) else r
  }

  /** The file header fields the loader uses. */
  datatype Ehdr = Ehdr(kind: nat, entry: nat, phoff: nat, phentsize: nat, phnum: nat)

  function EhdrAt(m: Memory, buf: nat): Ehdr {
    Ehdr(Word(m, buf + 16) % 0x1_0000, Word(m, buf + 24), Word(m, buf + 28),
         Word(m, buf + 40) / 0x1_0000, Word(m, buf + 44) % 0x1_0000)
  }

  function PhdrAddr(buf: nat, h: Ehdr, i: nat): nat {
    buf + h.phoff + i * h.phentsize
  }

  /** The loop over the program headers, each read from the file buffer when its turn comes. */
  function LoadSegments(s: Space, buf: nat, size: nat, h: Ehdr, i: nat): Outcome
    decreases h.phnum - i
  {
    if i >= h.phnum then Done(s) else
    var r := LoadSegment(s, buf, size, PhdrAt(s.mem, PhdrAddr(buf, h, i)));
    if r.Done? then LoadSegments(r.space, buf, size, h, i + 1) else r
  }

  /** The checks before the loop: length, magic, ET_EXEC, at least one header, headers in the file. */
  predicate Plausible(s: Space, buf: nat, size: nat) {
    && size >= 52
    && KernelByte(s, buf) == 0x7F && KernelByte(s, buf + 1) == 0x45
    && KernelByte(s, buf + 2) == 0x4C && KernelByte(s, buf + 3) == 0x46
    && var h := EhdrAt(s.mem, buf);
    && h.kind == 2
    && h.phnum != 0
    && Wrap32(h.phoff + h.phnum * h.phentsize) <= size
  }

  /** load_elf_program: how it ends, and the entry point, which it stores once the checks passed. */
  function LoadElf(s: Space, buf: nat, size: nat): (r: (Outcome, Option<nat>))
    ensures r.0.Done? ==> r.1.Some?
    ensures r.1.Some? ==> r.1.value < 0x1_0000_0000
  {
    if !Plausible(s, buf, size) then (Rejected(s), None) else
    var h := EhdrAt(s.mem, buf);
    (LoadSegments(s, buf, size, h, 0), Some(h.entry))
  }
}
