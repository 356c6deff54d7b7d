/** src/paging.c: building the identity map, mapping pages and validating user ranges, over physical
    memory and the frame allocator. */
module Paging {
  import opened Bytes
  import opened Frames
  import opened PageTables
  import opened AddressSpace
  import opened Options
  import FrameAllocator

  /** How many page tables init_paging builds. The quotient of a 32-bit sum stays below the 1024 that
      the source clamps it to. */
  function RequiredPdes(total: nat): (n: nat)
    requires total < 0x1_0000_0000
    ensures n < 1024
  {
    var bytes := if total == 0 then 0x2000_0000 else total;
    Wrap32(bytes + 0x3F_FFFF) / 0x40_0000
  }

  /** As long as the rounding does not wrap, these are the fewest tables that map all the RAM counted, at
      4 MiB each; if none was counted, they map 512 MiB. */
  lemma RequiredPdesIsLeast(total: nat)
    requires total < 0x1_0000_0000
    ensures total == 0 ==> RequiredPdes(total) == 128
    ensures 0 < total <= 0xFFC0_0000 ==>
              && total <= 0x40_0000 * RequiredPdes(total)
              && forall n: nat :: total <= 0x40_0000 * n ==> RequiredPdes(total) <= n
    ensures total > 0xFFC0_0000 ==> RequiredPdes(total) == 0
  {
  }

  ghost function FrameRange(first: nat, n: nat): (s: set<nat>)
    ensures forall f: nat :: f in s <==> first <= f < first + n
  {
    if n == 0 then {} else FrameRange(first, n - 1) + {first + n - 1}
  }

  /** The state while init_paging builds tables: n of them, in the frames right after the directory. */
  ghost predicate Built(m: Memory, dir: nat, n: nat) {
    && TablesOk(m, dir, FrameRange(dir, n + 1))
    && (forall i :: n <= i < 1024 ==> Pde(m, dir, i) == 0)
    && IdentityMapped(m, dir, 1024 * n)
  }

  /** Frame t holds the first k entries of identity table number n. */
  ghost predicate Filled(m: Memory, t: nat, n: nat, k: nat) {
    forall j :: 0 <= j < k ==> Word(m, 4096 * t + 4 * j) == 4096 * (1024 * n + j) + 7
  }

  lemma FillStep(m: Memory, dir: nat, n: nat, k: nat)
    requires n < 1024 && k < 1024
    requires Built(m, dir, n) && Filled(m, dir + n + 1, n, k) && 4096 * (dir + n + 1) + 4096 <= |m|
    ensures var m' := SetWord(m, 4096 * (dir + n + 1) + 4 * k, 4096 * (1024 * n + k) + 7);
            Built(m', dir, n) && Filled(m', dir + n + 1, n, k + 1)
  {
    hide Word, SetWord, SameOutside, TablesOk, TableFrames, FrameRange, Pte, Pde;
    var t, used := dir + n + 1, FrameRange(dir, n + 1);
    var m' := SetWord(m, 4096 * t + 4 * k, 4096 * (1024 * n + k) + 7);
    SetWordStays(m, t, 4 * k, 4096 * (1024 * n + k) + 7);
    TablesAreUsed(m, dir, used);
    TablesStay(m, m', dir, used, {t});
    forall j | 0 <= j < k
      ensures Word(m', 4096 * t + 4 * j) == Word(m, 4096 * t + 4 * j)
    {
      WordUnchanged(m, m', 4096 * t + 4 * j);
    }
  }

  lemma LinkStep(m: Memory, dir: nat, n: nat)
    requires n < 1024 && Built(m, dir, n) && Filled(m, dir + n + 1, n, 1024)
    requires 4096 * (dir + n + 1) + 4096 <= |m| && dir + n + 1 < 0x10_0000
    ensures Built(SetWord(m, 4096 * dir + 4 * n, 4096 * (dir + n + 1) + 7), dir, n + 1)
  {
    hide Word, SetWord, TablesOk, FrameRange;
    var t, used := dir + n + 1, FrameRange(dir, n + 1);
    LinkTable(m, dir, used, n, t);
    assert used + {t} == FrameRange(dir, n + 2);
    var m' := SetWord(m, 4096 * dir + 4 * n, 4096 * t + 7);
    forall q | 0 <= q < 1024 * (n + 1)
      ensures Pte(m', dir, q) == 4096 * q + 7
    {
      if q / 1024 == n {
        assert q == 1024 * n + q % 1024;
      } else {
        assert q < 1024 * n;
      }
    }
  }

  lemma EmptyDirectory(m: Memory, dir: nat)
    requires 4096 * dir + 4096 <= |m| && forall i :: 0 <= i < 1024 ==> Pde(m, dir, i) == 0
    ensures Built(m, dir, 0)
  {
    hide Word;
    assert FrameRange(dir, 1) == {dir};
  }

  class Mmu {
    const frames: FrameAllocator.Memory
    var mem: Memory
    /** page_direc, as a frame number */
    var dir: nat

    ghost predicate Valid()
      reads this, frames
    {
      frames.Valid()
    }

    ghost function View(): Space
      reads this, frames, frames.bitmap
      requires Valid()
    {
      Space(mem, dir, frames.View())
    }

    constructor (frames: FrameAllocator.Memory, mem: Memory)
      ensures this.frames == frames && this.mem == mem
    {
      this.frames, this.mem, this.dir := frames, mem, 0;
    }

    /** init_paging, for an amount of RAM that init_memory counted. */
    method Init(total: nat)
      requires Valid() && total < 0x1_0000_0000
      requires AlignUp(frames.freeMemAddr) + 4096 * (RequiredPdes(total) + 1) <= |mem|
      requires frames.freeMemAddr + 4096 * (RequiredPdes(total) + 2) <= FRAMES * 4096
      modifies this, frames, frames.bitmap
      ensures Valid() && frames.maxFrames == old(frames.maxFrames)
      ensures Built(mem, dir, RequiredPdes(total)) && |mem| == old(|mem|)
      ensures 4096 * dir == AlignUp(old(frames.freeMemAddr))
      ensures FrameRange(dir, RequiredPdes(total) + 1) <= frames.View().used
      ensures frames.freeMemAddr == 4096 * (dir + RequiredPdes(total) + 1)
    {
      hide Built, Filled, Word, SetWord, FrameRange, FramesOf, RequiredPdes;
      var ptr := frames.KMallocA(4096);
      dir := ptr / 4096;
      ghost var size := |mem|;
      ClearDirectory();
      OneFrame(ptr, dir);
      var required := RequiredPdes(total);
      var t: nat := 0;
      while t < required
        invariant t <= required && |mem| == size && Valid() && 4096 * dir == ptr
        invariant frames.maxFrames == old(frames.maxFrames)
        invariant Built(mem, dir, t)
        invariant frames.freeMemAddr == 4096 * (dir + t + 1)
        invariant FrameRange(dir, t + 1) <= frames.View().used
      {
        BuildTable(t);
        t := t + 1;
      }
    }

    /** One turn of the outer loop of init_paging (src/paging.c:30-39). */
    method BuildTable(t: nat)
      requires Valid() && t < 1024 && Built(mem, dir, t)
      requires frames.freeMemAddr == 4096 * (dir + t + 1)
      requires FrameRange(dir, t + 1) <= frames.View().used
      requires 4096 * (dir + t + 1) + 4096 <= |mem| && 4096 * (dir + t + 3) <= FRAMES * 4096
      modifies this`mem, frames, frames.bitmap
      ensures Valid() && frames.maxFrames == old(frames.maxFrames)
      ensures Built(mem, dir, t + 1) && |mem| == old(|mem|)
      ensures frames.freeMemAddr == 4096 * (dir + t + 2)
      ensures FrameRange(dir, t + 2) <= frames.View().used
    {
      hide Built, Filled, Word, SetWord, FrameRange, FramesOf;
      var table := frames.KMallocA(4096);
      OneFrame(table, dir + t + 1);
      assert FrameRange(dir, t + 2) == FrameRange(dir, t + 1) + {dir + t + 1};
      FillTable(table, t);
      LinkStep(mem, dir, t);
      mem := SetWord(mem, 4096 * dir + 4 * t, table + 7);
    }

    /** The clearing loop of init_paging (src/paging.c:13-15). */
    method ClearDirectory()
      requires 4096 * dir + 4096 <= |mem|
      modifies this`mem
      ensures Built(mem, dir, 0) && |mem| == old(|mem|)
    {
      hide Built, Word, SetWord;
      var i: nat := 0;
      while i < 1024
        invariant i <= 1024 && |mem| == old(|mem|)
        invariant forall k :: 0 <= k < i ==> Pde(mem, dir, k) == 0
      {
        ghost var before := mem;
        mem := SetWord(mem, 4096 * dir + 4 * i, 0);
        forall k | 0 <= k < i
          ensures Pde(mem, dir, k) == Pde(before, dir, k)
        {
          WordUnchanged(before, mem, 4096 * dir + 4 * k);
        }
        i := i + 1;
      }
      EmptyDirectory(mem, dir);
    }

    /** The inner loop of init_paging (src/paging.c:33-36). */
    method FillTable(table: nat, t: nat)
      requires table == 4096 * (dir + t + 1) && table + 4096 <= |mem| && t < 1024
      requires Built(mem, dir, t)
      modifies this`mem
      ensures Built(mem, dir, t) && Filled(mem, dir + t + 1, t, 1024) && |mem| == old(|mem|)
    {
      hide Built, Word, SetWord;
      var p: nat := 0;
      while p < 1024
        invariant p <= 1024 && |mem| == old(|mem|)
        invariant Built(mem, dir, t) && Filled(mem, dir + t + 1, t, p)
      {
        var phys := (t * 1024 + p) * 0x1000;
        FillStep(mem, dir, t, p);
        mem := SetWord(mem, table + 4 * p, phys + 7);
        p := p + 1;
      }
    }

    /** get_pte */
    method GetPte(virtual: nat) returns (pte: nat)
      requires virtual < 0x1_0000_0000
      ensures pte == Pte(mem, dir, virtual / 4096)
    {
      var pdIndex := virtual / 0x40_0000;
      var ptIndex := virtual / 4096 % 1024;
      assert virtual / 4096 / 1024 == pdIndex;
      var pde := Word(mem, 4096 * dir + 4 * pdIndex);
      if !Present(pde) {
        return 0;
      }
      pte := Word(mem, 4096 * FrameOf(pde) + 4 * ptIndex);
    }

    /** map_page */
    method Map(physical: nat, virtual: nat, flags: nat)
      requires Valid() && physical % 4096 == 0 && physical < 0x1_0000_0000
      requires virtual < 0x1_0000_0000 && flags < 4096
      requires 4096 * frames.maxFrames <= |mem|
      modifies this`mem, frames.bitmap
      ensures Valid()
      ensures (mem, frames.View()) ==
              MapPage(old(mem), dir, old(frames.View()), physical / 4096, virtual / 4096, flags)
    {
      hide Word, SetWord, ZeroFrame, Alloc, MakeEntry;
      var pdIndex := virtual / 0x40_0000;
      var ptIndex := virtual / 4096 % 1024;
      assert virtual / 4096 / 1024 == pdIndex;
      if !Present(Pde(mem, dir, pdIndex)) {
        var ptPhys := frames.Alloc();
        if ptPhys == 0 {
          return;
        }
        AllocInRange(old(frames.View()));
        mem := SetWord(mem, 4096 * dir + 4 * pdIndex, ptPhys + 7);
        ZeroTable(ptPhys / 4096);
        mem := SetWord(mem, ptPhys + 4 * ptIndex, MakeEntry(physical / 4096, flags));
      } else {
        var table := FrameOf(Pde(mem, dir, pdIndex));
        mem := SetWord(mem, 4096 * table + 4 * ptIndex, MakeEntry(physical / 4096, flags));
      }
    }

    /** The zeroing loop of map_page (src/paging.c:106-108). */
    method ZeroTable(t: nat)
      requires 4096 * t + 4096 <= |mem|
      modifies this`mem
      ensures mem == ZeroFrame(old(mem), t)
    {
      hide Word;
      var i: nat := 0;
      while i < 1024
        invariant i <= 1024 && |mem| == old(|mem|)
        invariant forall a :: 0 <= a < |mem| ==> mem[a] == if 4096 * t <= a < 4096 * t + 4 * i then 0 else old(mem)[a]
      {
        ghost var before := mem;
        mem := SetWord(mem, 4096 * t + 4 * i, 0);
        ZeroWordBytes(before, 4096 * t + 4 * i);
        i := i + 1;
      }
    }

    /** validate_user_region */
    method ValidateUserRegion(addr: nat, len: nat) returns (ok: bool)
      requires addr < 0x1_0000_0000 && len < 0x1_0000_0000
      ensures ok <==> len == 0 || Accepts(mem, dir, addr, len)
    {
      hide Word;
      if len == 0 {
        return true;
      }
      if addr < 0x10_0000 || addr >= 0xC000_0000 {
        return false;
      }
      var end := Wrap32(addr + len);
      if end < addr || end > 0xC000_0000 {
        return false;
      }
      var a := addr;
      ghost var k: nat := 0;
      while a < end
        invariant a == Probe(addr, k) < end + 4096
        invariant forall j: nat :: j < k ==> PageTested(mem, dir, Probe(addr, j))
      {
        var pdIndex := a / 0x40_0000;
        var ptIndex := a / 4096 % 1024;
        assert a / 4096 / 1024 == pdIndex;
        var pde := Word(mem, 4096 * dir + 4 * pdIndex);
        var tested := false;
        if Present(pde) {
          var pte := Word(mem, 4096 * FrameOf(pde) + 4 * ptIndex);
          tested := Present(pte) && User(pte);
        }
        assert tested == PageTested(mem, dir, Probe(addr, k));
        if !tested {
          return false;
        }
        a := a + 4096;
        k := k + 1;
      }
      ok := true;
    }
  }

  lemma OneFrame(ptr: nat, f: nat)
    requires ptr == 4096 * f
    ensures FramesOf(ptr, 4096) == {f} && FrameRange(f, 1) == {f}
  {
    assert FrameRange(f, 0) == {};
  }

  lemma AllocInRange(p: Pmm)
    requires p.Valid() && Alloc(p).1 != 0
    ensures var addr := Alloc(p).1;
            addr % 4096 == 0 && addr / 4096 < p.maxFrames && addr < 0x4000_0000
  {
  }

  lemma ZeroWordBytes(m: Memory, addr: nat)
    requires addr + 4 <= |m|
    ensures var r := SetWord(m, addr, 0);
            r[addr] == r[addr + 1] == r[addr + 2] == r[addr + 3] == 0
  {
  }
}
