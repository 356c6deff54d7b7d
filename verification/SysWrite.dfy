/** SYS_WRITE to the console (src/syscall.c): the user buffer is copied and printed in chunks of 1024
    bytes. */
module SysWrite {
  import opened Bytes
  import opened Frames
  import opened PageTables
  import opened AddressSpace
  import opened Options
  import ElfImage
  import opened TextScreen
  import Paging
  import VideoMemory

  const CHUNK: nat := 1024

  /** What print sees of a chunk: the bytes before the first NUL. */
  function UpToNul(s: seq<byte>): (r: seq<byte>)
    ensures |r| <= |s| && 0 !in r
    ensures 0 !in s ==> r == s
  {
    if s == [] || s[0] == 0 then [] else
    assert s == [s[0]] + s[1..];
    [s[0]] + UpToNul(s[1..])
  }

  /** Pointers wrap around at 4 GiB. */
  function At(v: nat, i: nat): nat {
    Wrap32(v + i)
  }

  predicate AllMapped(s: Space, v: nat, n: nat) {
    forall i :: 0 <= i < n ==> ElfImage.Mapped(s, At(v, i))
  }

  /** The n bytes at a virtual address. */
  function UserBytes(s: Space, v: nat, n: nat): (r: seq<byte>)
    requires AllMapped(s, v, n)
    ensures |r| == n
  {
    if n == 0 then [] else UserBytes(s, v, n - 1) + [ElfImage.ByteAt(s, At(v, n - 1))]
  }

  /** The screen and the count in eax, or a page fault while copying. */
  datatype Written = Written(screen: Screen, count: nat) | Faulted(screen: Screen)

  /** The SYS_WRITE loop for stdout and stderr. inKernel is the fallback mode that skips validation. */
  ghost function Write(scr: Screen, s: Space, addr: nat, len: nat, inKernel: bool): (r: Written)
    requires scr.Ok()
    ensures r.Written? ==> r.count <= len && r.screen.Ok()
    decreases len
  {
    if len == 0 then Written(scr, 0) else
    var take := Min(len, CHUNK);
    if !inKernel && (Wrap32(addr) == 0 || !Accepts(s.mem, s.dir, Wrap32(addr), take)) then Written(scr, 0)
    else if !AllMapped(s, addr, take) then Faulted(scr)
    else
      var rest := Write(Print(scr, UpToNul(UserBytes(s, addr, take))), s, addr + take, len - take, inKernel);
      if rest.Faulted? then rest else Written(rest.screen, take + rest.count)
  }

  lemma MappedSplit(s: Space, v: nat, a: nat, b: nat)
    requires AllMapped(s, v, a + b)
    ensures AllMapped(s, v, a) && AllMapped(s, v + a, b)
  {
    hide ElfImage.Mapped;
    var w := v + a;
    forall i | 0 <= i < b
      ensures ElfImage.Mapped(s, At(w, i))
    {
      assert At(w, i) == At(v, a + i);
    }
  }

  lemma {:induction false} UserBytesSplit(s: Space, v: nat, a: nat, b: nat)
    requires AllMapped(s, v, a + b)
    ensures AllMapped(s, v, a) && AllMapped(s, v + a, b)
    ensures UserBytes(s, v, a + b) == UserBytes(s, v, a) + UserBytes(s, v + a, b)
    decreases b
  {
    hide ElfImage.Mapped;
    MappedSplit(s, v, a, b);
    if b > 0 {
      assert At(v + a, b - 1) == At(v, a + b - 1);
      UserBytesSplit(s, v, a, b - 1);
    } else {
      assert UserBytes(s, v, a) + [] == UserBytes(s, v, a);
    }
  }

  /** Chunking is invisible: for a buffer of any length that user code may read and that holds no NUL,
      SYS_WRITE returns the length and leaves the screen as one print of the whole buffer. */
  lemma {:induction false} ChunkingIsInvisible(
    scr: Screen, s: Space, used: set<nat>, addr: nat, len: nat, inKernel: bool)
    requires scr.Ok() && AllMapped(s, addr, len) && 0 !in UserBytes(s, addr, len)
    requires !inKernel ==> TablesOk(s.mem, s.dir, used) && UserRange(s.mem, s.dir, addr, len)
    ensures Write(scr, s, addr, len, inKernel) == Written(Print(scr, UserBytes(s, addr, len)), len)
    decreases len
  {
    hide ElfImage.Mapped, TablesOk, UserRange, Accepts, Print, AllMapped, UserBytes, UpToNul;
    if len == 0 {
      PrintNothing(scr);
    } else {
      var take := Min(len, CHUNK);
      UserBytesSplit(s, addr, take, len - take);
      var first, rest := UserBytes(s, addr, take), UserBytes(s, addr + take, len - take);
      assert take + (len - take) == len;
      if !inKernel {
        RangeSplits(s, addr, take, len);
        AcceptsUserRanges(s.mem, s.dir, used, addr, take);
      }
      PrintConcat(scr, first, rest);
      ChunkingIsInvisible(Print(scr, first), s, used, addr + take, len - take, inKernel);
    }
  }

  /** A buffer that stops being readable after k chunks: SYS_WRITE prints these and returns their length if
      the next chunk is refused, and faults if it is let through but not mapped. */
  lemma {:induction false} StopsAfter(scr: Screen, s: Space, used: set<nat>, addr: nat, len: nat, k: nat)
    requires scr.Ok() && 1024 * k < len && TablesOk(s.mem, s.dir, used)
    requires AllMapped(s, addr, 1024 * k) && 0 !in UserBytes(s, addr, 1024 * k)
    requires k > 0 ==> UserRange(s.mem, s.dir, addr, 1024 * k)
    requires var next, take := Wrap32(addr + 1024 * k), Min(len - 1024 * k, 1024);
             Refused(s, next, take) || !AllMapped(s, addr + 1024 * k, take)
    ensures var printed := Print(scr, UserBytes(s, addr, 1024 * k));
            Write(scr, s, addr, len, false) ==
            if Refused(s, Wrap32(addr + 1024 * k), Min(len - 1024 * k, 1024)) then Written(printed, 1024 * k)
            else Faulted(printed)
    decreases k
  {
    hide ElfImage.Mapped, TablesOk, UserRange, Accepts, Print, AllMapped, UserBytes, UpToNul;
    if k == 0 {
      NoBytes(s, addr);
      PrintNothing(scr);
    } else {
      var left := CHUNK * (k - 1);
      UserBytesSplit(s, addr, CHUNK, left);
      var first, rest := UserBytes(s, addr, CHUNK), UserBytes(s, addr + CHUNK, left);
      RangeSplits(s, addr, CHUNK, CHUNK * k);
      AcceptsUserRanges(s.mem, s.dir, used, addr, CHUNK);
      PrintConcat(scr, first, rest);
      StopsAfter(Print(scr, first), s, used, addr + CHUNK, len - CHUNK, k - 1);
    }
  }

  /** copy_from_user returns -1 for the chunk: a null pointer, or one that validation does not accept. */
  ghost predicate Refused(s: Space, addr: nat, take: nat) {
    addr == 0 || !Accepts(s.mem, s.dir, addr, take)
  }

  lemma NoBytes(s: Space, addr: nat)
    ensures UserBytes(s, addr, 0) == []
  {
  }

  lemma PrintNothing(scr: Screen)
    requires scr.Ok()
    ensures Print(scr, []) == scr
  {
  }

  lemma RangeSplits(s: Space, addr: nat, take: nat, len: nat)
    requires UserRange(s.mem, s.dir, addr, len) && take <= len
    ensures UserRange(s.mem, s.dir, addr, take) && UserRange(s.mem, s.dir, addr + take, len - take)
    ensures 0 < addr < 0x1_0000_0000
  {
    hide UserByte;
  }

  /** copy_from_user, or the plain copy of the kernel fallback: ok is false for -1. A page fault is
      reported, not hidden. */
  method CopyFromUser(mmu: Paging.Mmu, addr: nat, len: nat, inKernel: bool)
    returns (ok: bool, fault: bool, tmp: seq<byte>)
    requires mmu.Valid() && len < 0x1_0000_0000 && addr < 0x1_0000_0000
    ensures ok <==> inKernel || (addr != 0 && (len == 0 || Accepts(mmu.mem, mmu.dir, addr, len)))
    ensures ok ==> (fault <==> !AllMapped(mmu.View(), addr, len))
    ensures ok && !fault ==> tmp == UserBytes(mmu.View(), addr, len)
  {
    hide Accepts, Pte, Pde;
    ok, fault, tmp := true, false, [];
    if !inKernel {
      if addr == 0 {
        return false, false, [];
      }
      ok := mmu.ValidateUserRegion(addr, len);
      if !ok {
        return;
      }
    }
    var i: nat := 0;
    while i < len
      invariant i <= len && AllMapped(mmu.View(), addr, i)
      invariant tmp == UserBytes(mmu.View(), addr, i)
    {
      var t := Translate(mmu.mem, mmu.dir, At(addr, i));
      if t.None? || t.value >= |mmu.mem| {
        assert !ElfImage.Mapped(mmu.View(), At(addr, i));
        return true, true, [];
      }
      assert ElfImage.Mapped(mmu.View(), At(addr, i));
      tmp := tmp + [mmu.mem[t.value]];
      i := i + 1;
    }
  }

  /** The bytes print sees of a NUL-terminated buffer. */
  method CString(tmp: seq<byte>) returns (s: seq<byte>)
    ensures s == UpToNul(tmp)
  {
    var i: nat := 0;
    while i < |tmp| && tmp[i] != 0
      invariant i <= |tmp|
      invariant 0 !in tmp[..i]
    {
      i := i + 1;
    }
    s := tmp[..i];
    UpToNulIsPrefix(tmp, i);
  }

  lemma {:induction false} UpToNulIsPrefix(s: seq<byte>, k: nat)
    requires k <= |s| && 0 !in s[..k] && (k < |s| ==> s[k] == 0)
    ensures UpToNul(s) == s[..k]
    decreases k
  {
    if k > 0 {
      assert s[0] == s[..k][0];
      assert s[1..][..k - 1] == s[1..k];
      assert forall x :: x in s[1..k] ==> x in s[..k];
      UpToNulIsPrefix(s[1..], k - 1);
      assert s[..k] == [s[0]] + s[1..k];
    }
  }

  /** The SYS_WRITE loop (src/syscall.c:63-80). */
  method Perform(video: VideoMemory.Video, mmu: Paging.Mmu, addr: nat, len: nat, inKernel: bool)
    returns (written: nat, fault: bool)
    requires video.Valid() && mmu.Valid() && addr < 0x1_0000_0000 && len < 0x1_0000_0000
    modifies video`cursorRow, video`cursorCol, video.cells
    ensures video.Valid()
    ensures var r := Write(old(video.View()), mmu.View(), addr, len, inKernel);
            video.View() == r.screen && fault == r.Faulted? && (!fault ==> written == r.count)
  {
    hide Accepts, AllMapped, Print, UpToNul, UserBytes, Min, Wrap32, At;
    ghost var s, scr0 := mmu.View(), video.View();
    var offset: nat := 0;
    written, fault := 0, false;
    while offset < len
      invariant offset <= len && video.Valid() && written == offset && !fault
      invariant mmu.View() == s
      invariant Write(scr0, s, addr, len, inKernel) ==
                Plus(offset, Write(video.View(), s, addr + offset, len - offset, inKernel))
    {
      var take := if len - offset > CHUNK then CHUNK else len - offset;
      TakeIsMin(len - offset, take);
      var ok, faulted, tmp := CopyFromUser(mmu, Wrap32(addr + offset), take, inKernel);
      WrapFirst(s, addr + offset, take);
      if !ok {
        return;
      }
      if faulted {
        fault := true;
        return;
      }
      var text := CString(tmp);
      video.Print(text);
      offset := offset + take;
      written := written + take;
    }
  }

  ghost function Plus(n: nat, r: Written): Written {
    if r.Faulted? then r else Written(r.screen, n + r.count)
  }

  /** Reducing the pointer first makes no difference. */
  lemma WrapFirst(s: Space, v: nat, n: nat)
    ensures AllMapped(s, Wrap32(v), n) <==> AllMapped(s, v, n)
    ensures AllMapped(s, v, n) ==> UserBytes(s, Wrap32(v), n) == UserBytes(s, v, n)
  {
    hide ElfImage.Mapped;
    assert forall i: nat :: At(Wrap32(v), i) == At(v, i);
    if AllMapped(s, v, n) {
      SameBytes(s, Wrap32(v), v, n);
    }
  }

  lemma {:induction false} SameBytes(s: Space, v: nat, w: nat, n: nat)
    requires AllMapped(s, v, n) && AllMapped(s, w, n) && forall i: nat :: At(v, i) == At(w, i)
    ensures UserBytes(s, v, n) == UserBytes(s, w, n)
    decreases n
  {
    hide ElfImage.Mapped, At;
    if n > 0 {
      SameBytes(s, v, w, n - 1);
    }
  }

  lemma TakeIsMin(left: nat, take: nat)
    requires take == if left > CHUNK then CHUNK else left
    ensures take == Min(left, CHUNK)
  {
  }
}
