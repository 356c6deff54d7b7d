/** The allocators of src/memory.c over the bitmap array. */
module FrameAllocator {
  import opened Bytes
  import opened Bits
  import opened Frames

  predicate IsUsed(bitmap: seq<Word>, f: nat)
    requires |bitmap| == 8192 && f < FRAMES
  {
    Bit(bitmap[f / 32], f % 32)
  }

  ghost function UsedFrames(bitmap: seq<Word>): (s: set<nat>)
    requires |bitmap| == 8192
    ensures forall f: nat :: f in s <==> f < FRAMES && IsUsed(bitmap, f)
  {
    set f: nat | f < FRAMES && IsUsed(bitmap, f)
  }

  ghost predicate UsedBelow(bitmap: seq<Word>, n: nat)
    requires |bitmap| == 8192
  {
    forall f: nat :: f < n ==> f in UsedFrames(bitmap)
  }

  ghost predicate Released(before: seq<Word>, after: seq<Word>, r: Region)
    requires |before| == |after| == 8192
  {
    forall f: nat :: f in UsedFrames(after) <==> f in UsedFrames(before) && !r.Covers(f)
  }

  /** Free are exactly the frames the regions cover. */
  ghost predicate FreeAre(bitmap: seq<Word>, regions: seq<Region>)
    requires |bitmap| == 8192
  {
    forall f: nat :: f < FRAMES ==> (f !in UsedFrames(bitmap) <==> CoveredBy(regions, f))
  }

  lemma SetBitMarks(bitmap: seq<Word>, f: nat)
    requires |bitmap| == 8192 && f < FRAMES
    ensures UsedFrames(bitmap[f / 32 := With(bitmap[f / 32], Mask(f % 32))]) == UsedFrames(bitmap) + {f}
    ensures UsedFrames(bitmap[f / 32 := Without(bitmap[f / 32], Mask(f % 32))]) == UsedFrames(bitmap) - {f}
  {
    hide Bit, With, Without, Mask;
    forall k: nat | k < FRAMES
      ensures IsUsed(bitmap[f / 32 := With(bitmap[f / 32], Mask(f % 32))], k) <==> k == f || IsUsed(bitmap, k)
      ensures IsUsed(bitmap[f / 32 := Without(bitmap[f / 32], Mask(f % 32))], k) <==> k != f && IsUsed(bitmap, k)
    {
      BitAfterUpdate(bitmap[f / 32], k % 32, f % 32);
      assert k / 32 == f / 32 && k % 32 == f % 32 ==> k == f;
    }
  }

  class Memory {
    const bitmap: array<Word>
    var freeMemAddr: nat
    var maxFrames: nat

    ghost predicate Valid()
      reads this
    {
      bitmap.Length == 8192 && maxFrames <= FRAMES
    }

    ghost function View(): (p: Pmm)
      reads this, bitmap
      requires Valid()
      ensures p.Valid()
    {
      Pmm(UsedFrames(bitmap[..]), freeMemAddr, maxFrames)
    }

    constructor ()
      ensures Valid() && fresh(bitmap)
      ensures freeMemAddr == 0x20_0000 && maxFrames == 0
    {
      bitmap := new Word[8192];
      freeMemAddr := 0x20_0000;
      maxFrames := 0;
    }

    method SetBit(f: nat)
      requires Valid() && f < FRAMES
      modifies bitmap
      ensures View() == old(View()).(used := old(View()).used + {f})
    {
      SetBitMarks(bitmap[..], f);
      bitmap[f / 32] := With(bitmap[f / 32], Mask(f % 32));
      assert bitmap[..] == old(bitmap[..])[f / 32 := With(old(bitmap[f / 32]), Mask(f % 32))];
    }

    method ClearBit(f: nat)
      requires Valid() && f < FRAMES
      modifies bitmap
      ensures View() == old(View()).(used := old(View()).used - {f})
    {
      SetBitMarks(bitmap[..], f);
      bitmap[f / 32] := Without(bitmap[f / 32], Mask(f % 32));
      assert bitmap[..] == old(bitmap[..])[f / 32 := Without(old(bitmap[f / 32]), Mask(f % 32))];
    }

    /** pmm_mark_used */
    method MarkUsed(addr: nat, size: nat)
      requires Valid() && addr + size <= FRAMES * 4096
      modifies bitmap
      ensures View() == Frames.MarkUsed(old(View()), addr, size)
    {
      if size == 0 {
        return;
      }
      var first := addr / 4096;
      var last := (addr + size - 1) / 4096;
      var i := first;
      while i <= last
        invariant first <= i <= last + 1
        invariant View().bump == old(View()).bump && View().maxFrames == old(View()).maxFrames
        invariant forall f: nat :: f in View().used <==> f in old(View()).used || first <= f < i
      {
        SetBit(i);
        i := i + 1;
      }
      assert forall f: nat :: f in View().used <==> f in Frames.MarkUsed(old(View()), addr, size).used;
    }

    /** kmalloc */
    method KMalloc(size: nat) returns (ptr: nat)
      requires Valid() && freeMemAddr + size + 4 < 0x1_0000_0000
      modifies this`freeMemAddr
      ensures Valid() && (View(), ptr) == Frames.KMalloc(old(View()), size)
    {
      var size' := size;
      if size' % 4 != 0 {
        size' := size' + (4 - size' % 4);
      }
      ptr := freeMemAddr;
      freeMemAddr := freeMemAddr + size';
    }

    /** kmalloc_a */
    method KMallocA(size: nat) returns (ptr: nat)
      requires Valid() && freeMemAddr + 4096 + size <= FRAMES * 4096
      modifies this`freeMemAddr, bitmap
      ensures Valid() && (View(), ptr) == Frames.KMallocA(old(View()), size)
    {
      if freeMemAddr % 4096 != 0 {
        freeMemAddr := freeMemAddr / 4096 * 4096;
        freeMemAddr := freeMemAddr + 4096;
      }
      ptr := freeMemAddr;
      freeMemAddr := freeMemAddr + size;
      MarkUsed(ptr, size);
    }

    /** pmm_alloc_block, with its skip of full words */
    method Alloc() returns (addr: nat)
      requires Valid()
      modifies bitmap
      ensures Valid() && (View(), addr) == Frames.Alloc(old(View()))
    {
      var i: nat := 0;
      while i < 8192
        invariant i <= 8192 && bitmap[..] == old(bitmap[..])
        invariant UsedBelow(bitmap[..], 32 * i)
      {
        if bitmap[i] != FULL {
          var bit := FirstClearBit(bitmap[i]);
          var frame := i * 32 + bit;
          FirstClearFrame(bitmap[..], i, bit);
          if frame >= maxFrames {
            return 0;
          }
          SetBit(frame);
          return frame * 4096;
        }
        WordIsFull(bitmap[..], i);
        i := i + 1;
      }
      NoFrameLeft(bitmap[..]);
      addr := 0;
    }

    /** pmm_free_block */
    method Free(addr: nat)
      requires Valid() && addr < FRAMES * 4096
      modifies bitmap
      ensures Valid() && View() == Frames.Free(old(View()), addr)
    {
      ClearBit(addr / 4096);
    }

    /** init_memory: the test allocation, and then the RAM counted if the boot loader gave a map. */
    method InitMemory(magicOk: bool, hasMap: bool, regions: seq<Region>) returns (total: nat)
      requires Valid() && freeMemAddr + 14 < 0x1_0000_0000
      modifies this`freeMemAddr
      ensures Valid() && View() == Frames.KMalloc(old(View()), 10).0
      ensures total == if magicOk && hasMap then TotalMemory(regions) else 0
    {
      var test := KMalloc(10);
      total := 0;
      if !magicOk || !hasMap {
        return;
      }
      assert regions[..0] == [];
      var n: nat := 0;
      while n < |regions|
        invariant n <= |regions| && total == TotalMemory(regions[..n])
      {
        assert regions[..n + 1][..n] == regions[..n] && regions[..n + 1][n] == regions[n];
        if regions[n].kind == 1 {
          total := Wrap32(total + regions[n].lengthLow);
        }
        n := n + 1;
      }
      assert regions[..n] == regions;
    }

    /** init_pmm. hasMap is bit 6 of the multiboot flags. */
    method Init(hasMap: bool, regions: seq<Region>)
      requires Valid() && MapOk(regions) && freeMemAddr <= FRAMES * 4096
      modifies bitmap, this`maxFrames
      ensures Valid() && Initialised(View(), old(View()), if hasMap then regions else [])
    {
      for i := 0 to 8192
        invariant Valid() && maxFrames == old(maxFrames)
        invariant forall k :: 0 <= k < i ==> bitmap[k] == FULL
      {
        bitmap[i] := FULL;
      }
      AllFullMeansAllUsed(bitmap[..]);
      ghost var map' := if hasMap then regions else [];
      if hasMap {
        ReleaseRegions(regions);
      }
      ghost var released := View().used;
      SetBit(0);
      var kernelFrames := (freeMemAddr + 4095) / 4096;
      var i: nat := 0;
      while i < kernelFrames
        invariant i <= kernelFrames && Valid() && maxFrames == Top(map', old(maxFrames))
        invariant forall f: nat :: f in View().used <==> f in released || f == 0 || f < i
      {
        SetBit(i);
        i := i + 1;
      }
    }

    /** The walk over the memory map (src/memory.c:105-123). */
    method ReleaseRegions(regions: seq<Region>)
      requires Valid() && MapOk(regions) && UsedBelow(bitmap[..], FRAMES)
      modifies bitmap, this`maxFrames
      ensures Valid() && maxFrames == Top(regions, old(maxFrames))
      ensures FreeAre(bitmap[..], regions)
    {
      var n: nat := 0;
      assert regions[..0] == [];
      while n < |regions|
        invariant n <= |regions| && Valid()
        invariant maxFrames == Top(regions[..n], old(maxFrames))
        invariant FreeAre(bitmap[..], regions[..n])
      {
        var r := regions[n];
        assert regions[..n + 1][..n] == regions[..n] && regions[..n + 1][n] == r;
        ghost var before := bitmap[..];
        if r.Usable() {
          ReleaseRegion(r);
          if r.End() > maxFrames {
            maxFrames := r.End();
          }
        }
        FreeAreOneMore(before, bitmap[..], regions, n);
        n := n + 1;
      }
      assert regions[..n] == regions;
    }

    method ReleaseRegion(r: Region)
      requires Valid() && r.Usable() && r.End() <= FRAMES
      modifies bitmap
      ensures Valid() && Released(old(bitmap[..]), bitmap[..], r)
    {
      var firstFrame := r.baseLow / 4096;
      var numFrames := r.lengthLow / 4096;
      var i: nat := 0;
      while i < numFrames
        invariant i <= numFrames
        invariant forall f: nat :: f in View().used <==> f in old(View()).used && !(firstFrame <= f < firstFrame + i)
      {
        ClearBit(firstFrame + i);
        i := i + 1;
      }
    }
  }

  /** The inner loop of pmm_alloc_block. */
  method FirstClearBit(w: Word) returns (bit: nat)
    requires w != FULL
    ensures bit < 32 && !Bit(w, bit) && forall k :: 0 <= k < bit ==> Bit(w, k)
  {
    hide Bit, Mask, Hit;
    FullWord(w);
    bit := 0;
    while Bit(w, bit)
      invariant bit < 32
      invariant forall k :: 0 <= k < bit ==> Bit(w, k)
      decreases 32 - bit
    {
      assert exists k :: 0 <= k < 32 && !Bit(w, k);
      bit := bit + 1;
    }
  }

  lemma FirstClearFrame(bitmap: seq<Word>, i: nat, bit: nat)
    requires |bitmap| == 8192 && i < 8192 && bit < 32
    requires UsedBelow(bitmap, 32 * i)
    requires !Bit(bitmap[i], bit) && forall k :: 0 <= k < bit ==> Bit(bitmap[i], k)
    ensures LeastFree(UsedFrames(bitmap), 0) == i * 32 + bit
  {
    hide Bit;
    var frame := i * 32 + bit;
    assert frame / 32 == i && frame % 32 == bit;
    forall f: nat | f < frame
      ensures f in UsedFrames(bitmap)
    {
      if f >= 32 * i {
        assert f / 32 == i && f % 32 == f - 32 * i;
      }
    }
    assert !IsUsed(bitmap, frame);
  }

  lemma NoFrameLeft(bitmap: seq<Word>)
    requires |bitmap| == 8192 && UsedBelow(bitmap, FRAMES)
    ensures LeastFree(UsedFrames(bitmap), 0) == FRAMES
  {
  }

  lemma WordIsFull(bitmap: seq<Word>, i: nat)
    requires |bitmap| == 8192 && i < 8192 && bitmap[i] == FULL
    ensures UsedBelow(bitmap, 32 * i) ==> UsedBelow(bitmap, 32 * (i + 1))
  {
    hide Bit;
    FullWord(bitmap[i]);
    forall f: nat | 32 * i <= f < 32 * i + 32
      ensures f in UsedFrames(bitmap)
    {
      assert f / 32 == i && f % 32 == f - 32 * i;
    }
  }

  lemma AllFullMeansAllUsed(bitmap: seq<Word>)
    requires |bitmap| == 8192 && forall k :: 0 <= k < 8192 ==> bitmap[k] == FULL
    ensures UsedBelow(bitmap, FRAMES)
  {
    hide Bit;
    FullWord(FULL);
    forall f: nat | f < FRAMES
      ensures f in UsedFrames(bitmap)
    {
      assert bitmap[f / 32] == FULL;
    }
  }

  lemma FreeAreOneMore(before: seq<Word>, after: seq<Word>, regions: seq<Region>, n: nat)
    requires |before| == |after| == 8192 && n < |regions|
    requires FreeAre(before, regions[..n])
    requires Released(before, after, regions[n])
    ensures FreeAre(after, regions[..n + 1])
  {
    CoveredByOneMore(regions, n);
  }

  lemma CoveredByOneMore(regions: seq<Region>, n: nat)
    requires n < |regions|
    ensures forall f: nat :: CoveredBy(regions[..n + 1], f) <==> CoveredBy(regions[..n], f) || regions[n].Covers(f)
  {
    var a, b := regions[..n], regions[..n + 1];
    assert forall i :: 0 <= i < n ==> a[i] == b[i];
    forall f: nat
      ensures CoveredBy(b, f) <==> CoveredBy(a, f) || regions[n].Covers(f)
    {
      if CoveredBy(b, f) {
        var i :| 0 <= i < |b| && b[i].Covers(f);
        assert i < n ==> a[i].Covers(f);
      }
      if CoveredBy(a, f) {
        var i :| 0 <= i < |a| && a[i].Covers(f);
        assert b[i].Covers(f);
      }
      assert b[n] == regions[n];
    }
  }
}
