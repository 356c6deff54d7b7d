/** The two-level page table of src/paging.c, in the physical memory it translates ("32-Bit Paging",
    volume 3A of the Intel SDM). Entries are 32-bit words; a frame is named by its number. */
module PageTables {
  import opened Bytes
  import opened Frames

  type Memory = seq<byte>

  /** The word at a physical address; beyond the end of memory the model reads 0. */
  function Word(m: Memory, addr: nat): (v: nat)
    ensures v < 0x1_0000_0000
  {
    if addr + 4 <= |m| then Get32(m, addr) else 0
  }

  function SetWord(m: Memory, addr: nat, v: nat): (r: Memory)
    requires v < 0x1_0000_0000
    ensures |r| == |m|
    ensures addr + 4 <= |m| ==> Word(r, addr) == v
    ensures forall i :: 0 <= i < |m| && (i < addr || addr + 4 <= i) ==> r[i] == m[i]
  {
    if addr + 4 <= |m| then Put32(m, addr, v) else m
  }

  /** Bytes stored at a physical address. */
  function StoreBytes(m: Memory, at: nat, bytes: seq<byte>): (r: Memory)
    ensures |r| == |m|
    ensures at + |bytes| <= |m| ==>
              forall a :: 0 <= a < |m| ==> r[a] == if at <= a < at + |bytes| then bytes[a - at] else m[a]
  {
    if at + |bytes| <= |m| then m[..at] + bytes + m[at + |bytes|..] else m
  }

  function ZeroFrame(m: Memory, f: nat): (r: Memory)
    ensures |r| == |m|
    ensures 4096 * f + 4096 <= |m| ==>
              forall i :: 0 <= i < |m| ==> r[i] == if 4096 * f <= i < 4096 * f + 4096 then 0 else m[i]
  {
    if 4096 * f + 4096 <= |m| then m[..4096 * f] + Zeros(4096) + m[4096 * f + 4096..] else m
  }

  lemma WordUnchanged(m: Memory, m': Memory, addr: nat)
    requires |m'| == |m| && forall i :: addr <= i < addr + 4 && i < |m| ==> m'[i] == m[i]
    ensures Word(m', addr) == Word(m, addr)
  {
  }

  predicate Present(entry: nat) { entry % 2 == 1 }

  predicate User(entry: nat) { entry / 4 % 2 == 1 }

  /** entry & 0xFFFFF000, as a frame number */
  function FrameOf(entry: nat): nat { entry / 4096 }

  /** page_direc[i], for the directory in frame dir */
  function Pde(m: Memory, dir: nat, i: nat): (e: nat)
    ensures e < 0x1_0000_0000
  {
    Word(m, 4096 * dir + 4 * i)
  }

  /** get_pte: the entry of a virtual page, 0 where there is no table. */
  function Pte(m: Memory, dir: nat, page: nat): (e: nat)
    ensures e < 0x1_0000_0000
  {
    var pde := Pde(m, dir, page / 1024);
    if Present(pde) then Word(m, 4096 * FrameOf(pde) + 4 * (page % 1024)) else 0
  }

  /** physical_addr | flags | 1, for a page-aligned address */
  function MakeEntry(frame: nat, flags: nat): (e: nat)
    requires frame < 0x10_0000 && flags < 4096
    ensures e < 0x1_0000_0000 && Present(e) && FrameOf(e) == frame
    ensures e % 4096 == if flags % 2 == 1 then flags else flags + 1
  {
    var low := if flags % 2 == 1 then flags else flags + 1;
    EntryParts(frame, low);
    4096 * frame + low
  }

  lemma EntryParts(frame: nat, low: nat)
    requires low < 4096
    ensures (4096 * frame + low) / 4096 == frame
    ensures (4096 * frame + low) % 4096 == low
    ensures Present(4096 * frame + low) == Present(low)
  {
    assert 4096 * frame + low == 2 * (2048 * frame + low / 2) + low % 2;
  }

  /** Every present directory entry points at a table of its own, in a frame that is marked used and
      is not the directory's, and lets user code read and write. */
  predicate TablesOk(m: Memory, dir: nat, used: set<nat>) {
    && dir in used && 4096 * dir + 4096 <= |m|
    && (forall i :: 0 <= i < 1024 && Present(Pde(m, dir, i)) ==>
          && FrameOf(Pde(m, dir, i)) in used
          && FrameOf(Pde(m, dir, i)) != dir
          && 4096 * FrameOf(Pde(m, dir, i)) + 4096 <= |m|
          && Pde(m, dir, i) % 4096 == 7)
    && (forall i, j :: 0 <= i < j < 1024 && Present(Pde(m, dir, i)) && Present(Pde(m, dir, j)) ==>
          FrameOf(Pde(m, dir, i)) != FrameOf(Pde(m, dir, j)))
  }

  /** The first `pages` virtual pages translate to themselves. */
  predicate IdentityMapped(m: Memory, dir: nat, pages: nat) {
    forall page :: 0 <= page < pages ==> Pte(m, dir, page) == 4096 * page + 7
  }

  /** map_page: the memory and the frame allocator afterwards. */
  function MapPage(m: Memory, dir: nat, p: Pmm, frame: nat, page: nat, flags: nat): (r: (Memory, Pmm))
    requires page < 0x10_0000 && frame < 0x10_0000 && flags < 4096
    ensures |r.0| == |m|
  {
    var i, j := page / 1024, page % 1024;
    if Present(Pde(m, dir, i)) then
      (SetWord(m, 4096 * FrameOf(Pde(m, dir, i)) + 4 * j, MakeEntry(frame, flags)), p)
    else
      var (p', addr) := Alloc(p);
      if addr == 0 then (m, p') else
      var table := addr / 4096;
      var linked := SetWord(m, 4096 * dir + 4 * i, addr + 7);
      (SetWord(ZeroFrame(linked, table), 4096 * table + 4 * j, MakeEntry(frame, flags)), p')
  }

  /** map_page can install the entry: the table exists or a frame for it is left. */
  predicate CanMap(m: Memory, dir: nat, p: Pmm, page: nat) {
    Present(Pde(m, dir, page / 1024)) || Alloc(p).1 != 0
  }

  // ----- Refinement -----

  /** Writing one word of an existing table changes the entry of one page. */
  lemma SetPte(m: Memory, dir: nat, used: set<nat>, page: nat, entry: nat)
    requires TablesOk(m, dir, used) && page < 0x10_0000 && entry < 0x1_0000_0000
    requires Present(Pde(m, dir, page / 1024))
    ensures var m' := SetWord(m, 4096 * FrameOf(Pde(m, dir, page / 1024)) + 4 * (page % 1024), entry);
            && TablesOk(m', dir, used)
            && (forall i :: 0 <= i < 1024 ==> Pde(m', dir, i) == Pde(m, dir, i))
            && (forall q :: 0 <= q < 0x10_0000 ==> Pte(m', dir, q) == if q == page then entry else Pte(m, dir, q))
  {
    var i, j := page / 1024, page % 1024;
    var t := FrameOf(Pde(m, dir, i));
    var m' := SetWord(m, 4096 * t + 4 * j, entry);
    forall k | 0 <= k < 1024
      ensures Pde(m', dir, k) == Pde(m, dir, k)
    {
      WordUnchanged(m, m', 4096 * dir + 4 * k);
    }
    forall q | 0 <= q < 0x10_0000
      ensures Pte(m', dir, q) == if q == page then entry else Pte(m, dir, q)
    {
      PteAfterSet(m, m', dir, used, page, entry, q);
    }
  }

  lemma PteAfterSet(m: Memory, m': Memory, dir: nat, used: set<nat>, page: nat, entry: nat, q: nat)
    requires TablesOk(m, dir, used) && page < 0x10_0000 && q < 0x10_0000 && entry < 0x1_0000_0000
    requires Present(Pde(m, dir, page / 1024))
    requires m' == SetWord(m, 4096 * FrameOf(Pde(m, dir, page / 1024)) + 4 * (page % 1024), entry)
    requires Pde(m', dir, q / 1024) == Pde(m, dir, q / 1024)
    ensures Pte(m', dir, q) == if q == page then entry else Pte(m, dir, q)
  {
    hide Word, SetWord;
    var pde := Pde(m, dir, q / 1024);
    if Present(pde) && q != page {
      var t, u := FrameOf(Pde(m, dir, page / 1024)), FrameOf(pde);
      assert q / 1024 != page / 1024 ==> t != u;
      assert q / 1024 == page / 1024 ==> q % 1024 != page % 1024;
      WordUnchanged(m, m', 4096 * u + 4 * (q % 1024));
    }
  }

  /** A zeroed table linked into the directory changes no page's entry. */
  lemma NewTable(m: Memory, dir: nat, used: set<nat>, i: nat, t: nat)
    requires TablesOk(m, dir, used) && i < 1024 && !Present(Pde(m, dir, i))
    requires t !in used && t < 0x10_0000 && 4096 * t + 4096 <= |m|
    ensures var m' := ZeroFrame(SetWord(m, 4096 * dir + 4 * i, 4096 * t + 7), t);
            && Pde(m', dir, i) == 4096 * t + 7
            && TablesOk(m', dir, used + {t})
            && (forall k :: 0 <= k < 1024 && k != i ==> Pde(m', dir, k) == Pde(m, dir, k))
            && (forall q :: 0 <= q < 0x10_0000 ==> Pte(m', dir, q) == Pte(m, dir, q))
  {
    hide Word, SetWord, ZeroFrame;
    var linked := SetWord(m, 4096 * dir + 4 * i, 4096 * t + 7);
    var m' := ZeroFrame(linked, t);
    EntryParts(t, 7);
    forall k | 0 <= k < 1024
      ensures Pde(m', dir, k) == if k == i then 4096 * t + 7 else Pde(m, dir, k)
    {
      WordUnchanged(linked, m', 4096 * dir + 4 * k);
      if k != i {
        WordUnchanged(m, linked, 4096 * dir + 4 * k);
      }
    }
    forall q | 0 <= q < 0x10_0000
      ensures Pte(m', dir, q) == Pte(m, dir, q)
    {
      PteAfterNewTable(m, linked, m', dir, used, i, t, q);
    }
  }

  lemma PteAfterNewTable(m: Memory, linked: Memory, m': Memory, dir: nat, used: set<nat>, i: nat, t: nat, q: nat)
    requires TablesOk(m, dir, used) && i < 1024 && !Present(Pde(m, dir, i)) && q < 0x10_0000
    requires t !in used && t < 0x10_0000 && 4096 * t + 4096 <= |m|
    requires linked == SetWord(m, 4096 * dir + 4 * i, 4096 * t + 7) && m' == ZeroFrame(linked, t)
    requires Pde(m', dir, q / 1024) == if q / 1024 == i then 4096 * t + 7 else Pde(m, dir, q / 1024)
    ensures Pte(m', dir, q) == Pte(m, dir, q)
  {
    hide SetWord, ZeroFrame, Word;
    EntryParts(t, 7);
    var pde := Pde(m, dir, q / 1024);
    if q / 1024 == i {
      ZeroWord(m', 4096 * t + 4 * (q % 1024));
    } else if Present(pde) {
      var u := FrameOf(pde);
      FramesApart(u, t, 4 * (q % 1024));
      FramesApart(u, dir, 4 * (q % 1024));
      WordUnchanged(linked, m', 4096 * u + 4 * (q % 1024));
      WordUnchanged(m, linked, 4096 * u + 4 * (q % 1024));
    }
  }

  lemma FramesApart(u: nat, t: nat, offset: nat)
    requires u != t && offset + 4 <= 4096
    ensures 4096 * u + offset + 4 <= 4096 * t || 4096 * t + 4096 <= 4096 * u + offset
  {
  }

  lemma ZeroWord(m: Memory, addr: nat)
    requires addr + 4 <= |m| && m[addr] == m[addr + 1] == m[addr + 2] == m[addr + 3] == 0
    ensures Word(m, addr) == 0
  {
  }

  /** The frames that hold page tables. */
  function TableFrames(m: Memory, dir: nat): set<nat> {
    set i | 0 <= i < 1024 && Present(Pde(m, dir, i)) :: FrameOf(Pde(m, dir, i))
  }

  /** map_page refines the update of a finite map from pages to entries: the page reads
      phys | flags | 1 afterwards and every other page as before, including the 1023 siblings in a
      new table; without a frame for a needed table nothing changes. Table ownership is kept, and no
      byte changes outside the directory and the tables. */
  lemma MapPageRefines(m: Memory, dir: nat, p: Pmm, frame: nat, page: nat, flags: nat)
    requires page < 0x10_0000 && frame < 0x10_0000 && flags < 4096
    requires p.Valid() && 0 in p.used && 4096 * p.maxFrames <= |m|
    requires TablesOk(m, dir, p.used)
    ensures var (m', p') := MapPage(m, dir, p, frame, page, flags);
            && TablesOk(m', dir, p'.used)
            && p'.Valid() && p.used <= p'.used && p' == p.(used := p'.used)
            && (!CanMap(m, dir, p, page) ==> m' == m && p' == p)
            && (CanMap(m, dir, p, page) ==> forall q :: 0 <= q < 0x10_0000 ==>
                  Pte(m', dir, q) == if q == page then MakeEntry(frame, flags) else Pte(m, dir, q))
  {
    hide SetWord, ZeroFrame, Word, TablesOk, MakeEntry;
    var i := page / 1024;
    AllocTakesLeast(p);
    if Present(Pde(m, dir, i)) {
      SetPte(m, dir, p.used, page, MakeEntry(frame, flags));
    } else if CanMap(m, dir, p, page) {
      var (p', addr) := Alloc(p);
      var t := addr / 4096;
      NewTable(m, dir, p.used, i, t);
      EntryParts(t, 7);
      var m1 := ZeroFrame(SetWord(m, 4096 * dir + 4 * i, addr + 7), t);
      SetPte(m1, dir, p'.used, page, MakeEntry(frame, flags));
    }
  }

  /** The two memories differ in the given frames only. */
  predicate SameOutside(m: Memory, m': Memory, frames: set<nat>) {
    && |m'| == |m|
    && forall a: nat :: a < |m| && a / 4096 !in frames ==> m'[a] == m[a]
  }

  lemma StoreBytesStays(m: Memory, at: nat, bytes: seq<byte>)
    requires bytes != []
    ensures SameOutside(m, StoreBytes(m, at, bytes), FramesOf(at, |bytes|))
  {
    var m' := StoreBytes(m, at, bytes);
    forall a: nat | a < |m| && a / 4096 !in FramesOf(at, |bytes|)
      ensures m'[a] == m[a]
    {
      if at <= a < at + |bytes| {
        assert Touches(at, |bytes|, a / 4096);
      }
    }
  }

  lemma SetWordStays(m: Memory, f: nat, offset: nat, v: nat)
    requires offset + 4 <= 4096 && v < 0x1_0000_0000
    ensures SameOutside(m, SetWord(m, 4096 * f + offset, v), {f})
  {
    forall a: nat | a < |m| && a / 4096 != f
      ensures a < 4096 * f + offset || 4096 * f + offset + 4 <= a
    {
    }
  }

  lemma NewTableStays(m: Memory, dir: nat, i: nat, t: nat)
    requires i < 1024 && t < 0x10_0000 && 4096 * t + 4096 <= |m|
    ensures SameOutside(m, ZeroFrame(SetWord(m, 4096 * dir + 4 * i, 4096 * t + 7), t), {dir, t})
  {
    SetWordStays(m, dir, 4 * i, 4096 * t + 7);
  }

  lemma SameOutsideTransitive(m: Memory, m1: Memory, m2: Memory, f: set<nat>, g: set<nat>, h: set<nat>)
    requires SameOutside(m, m1, f) && SameOutside(m1, m2, g) && f <= h && g <= h
    ensures SameOutside(m, m2, h)
  {
  }

  lemma TablesAfterLink(m: Memory, m': Memory, dir: nat, i: nat, t: nat)
    requires i < 1024 && !Present(Pde(m, dir, i))
    requires Pde(m', dir, i) == 4096 * t + 7
    requires forall k :: 0 <= k < 1024 && k != i ==> Pde(m', dir, k) == Pde(m, dir, k)
    ensures TableFrames(m', dir) == TableFrames(m, dir) + {t}
  {
    hide Pde;
    EntryParts(t, 7);
    var old', new' := TableFrames(m, dir), TableFrames(m', dir);
    assert FrameOf(Pde(m', dir, i)) == t && t in new';
    forall f | f in old'
      ensures f in new'
    {
      var k :| 0 <= k < 1024 && Present(Pde(m, dir, k)) && FrameOf(Pde(m, dir, k)) == f;
      assert Pde(m', dir, k) == Pde(m, dir, k);
    }
    forall f | f in new'
      ensures f in old' + {t}
    {
      var k :| 0 <= k < 1024 && Present(Pde(m', dir, k)) && FrameOf(Pde(m', dir, k)) == f;
      assert k != i ==> Pde(m', dir, k) == Pde(m, dir, k);
    }
  }

  lemma TablesUnchanged(m: Memory, m': Memory, dir: nat)
    requires forall k :: 0 <= k < 1024 ==> Pde(m', dir, k) == Pde(m, dir, k)
    ensures TableFrames(m', dir) == TableFrames(m, dir)
  {
    hide Pde;
    assert forall k :: 0 <= k < 1024 ==> Present(Pde(m', dir, k)) == Present(Pde(m, dir, k));
  }

  /** map_page changes no byte outside the directory and the tables, and a new table takes a frame
      that was not in use. */
  lemma MapPageFrame(m: Memory, dir: nat, p: Pmm, frame: nat, page: nat, flags: nat)
    requires page < 0x10_0000 && frame < 0x10_0000 && flags < 4096
    requires p.Valid() && 0 in p.used && 4096 * p.maxFrames <= |m|
    requires TablesOk(m, dir, p.used)
    ensures var (m', p') := MapPage(m, dir, p, frame, page, flags);
            && SameOutside(m, m', TableFrames(m', dir) + {dir})
            && TableFrames(m, dir) <= TableFrames(m', dir) <= TableFrames(m, dir) + (p'.used - p.used)
  {
    hide Word, TablesOk, MakeEntry, Pte, SetWord, ZeroFrame, SameOutside, TableFrames;
    var i := page / 1024;
    AllocTakesLeast(p);
    var m' := MapPage(m, dir, p, frame, page, flags).0;
    SameOutsideSelf(m);
    if Present(Pde(m, dir, i)) {
      var t, entry := FrameOf(Pde(m, dir, i)), MakeEntry(frame, flags);
      SetPte(m, dir, p.used, page, entry);
      TablesUnchanged(m, m', dir);
      TableIsAmong(m, dir, i);
      SetWordStays(m, t, 4 * (page % 1024), entry);
      SameOutsideTransitive(m, m, m', {}, {t}, TableFrames(m', dir) + {dir});
    } else if CanMap(m, dir, p, page) {
      NewTableFrame(m, dir, p.used, page, Alloc(p).1 / 4096, MakeEntry(frame, flags));
    } else {
      SameOutsideTransitive(m, m, m, {}, {}, TableFrames(m', dir) + {dir});
    }
  }

  lemma NewTableFrame(m: Memory, dir: nat, used: set<nat>, page: nat, t: nat, entry: nat)
    requires TablesOk(m, dir, used) && page < 0x10_0000 && entry < 0x1_0000_0000
    requires !Present(Pde(m, dir, page / 1024)) && t !in used && t < 0x10_0000 && 4096 * t + 4096 <= |m|
    ensures var m1 := ZeroFrame(SetWord(m, 4096 * dir + 4 * (page / 1024), 4096 * t + 7), t);
            var m' := SetWord(m1, 4096 * t + 4 * (page % 1024), entry);
            && SameOutside(m, m', TableFrames(m', dir) + {dir})
            && TableFrames(m', dir) == TableFrames(m, dir) + {t}
  {
    hide Word, TablesOk, Pte, SetWord, ZeroFrame, SameOutside, TableFrames;
    var i := page / 1024;
    var m1 := ZeroFrame(SetWord(m, 4096 * dir + 4 * i, 4096 * t + 7), t);
    var m' := SetWord(m1, 4096 * t + 4 * (page % 1024), entry);
    NewTable(m, dir, used, i, t);
    EntryParts(t, 7);
    SetPte(m1, dir, used + {t}, page, entry);
    TablesAfterLink(m, m1, dir, i, t);
    TablesUnchanged(m1, m', dir);
    NewTableStays(m, dir, i, t);
    SetWordStays(m1, t, 4 * (page % 1024), entry);
    SameOutsideTransitive(m, m1, m', {dir, t}, {t}, TableFrames(m', dir) + {dir});
  }

  lemma SameOutsideSelf(m: Memory)
    ensures SameOutside(m, m, {})
  {
  }

  lemma TableIsAmong(m: Memory, dir: nat, i: nat)
    requires i < 1024 && Present(Pde(m, dir, i))
    ensures FrameOf(Pde(m, dir, i)) in TableFrames(m, dir)
  {
  }
}
