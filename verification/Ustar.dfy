/** The USTAR walker of src/fs.c against the archives a writer produces. */
module Ustar {
  import opened Bytes
  import opened Options

  // ----- Octal sizes -----

  predicate IsOctal(c: byte) { 0x30 <= c <= 0x37 }

  /** parse_octal: every character that is not an octal digit is skipped. */
  function ParseOctal(s: seq<byte>): (v: nat)
    ensures v < 0x1_0000_0000
  {
    if s == [] then 0 else
    var v := ParseOctal(s[..|s| - 1]);
    var c := s[|s| - 1];
    if IsOctal(c) then Wrap32(Wrap32(v * 8) + (c - 0x30) as nat) else v
  }

  /** n in octal, with leading zeros to the given width. */
  function PrintOctal(n: nat, width: nat): (s: seq<byte>)
    ensures |s| == width
  {
    if width == 0 then [] else PrintOctal(n / 8, width - 1) + [(0x30 + n % 8) as byte]
  }

  function Pow8(k: nat): nat {
    if k == 0 then 1 else 8 * Pow8(k - 1)
  }

  /** parse_octal inverts octal printing of every 32-bit number that fits the width. */
  lemma {:induction false} ParseInvertsPrint(n: nat, width: nat)
    requires n < Pow8(width) && n < 0x1_0000_0000
    ensures ParseOctal(PrintOctal(n, width)) == n
  {
    if width > 0 {
      ParseInvertsPrint(n / 8, width - 1);
      var s := PrintOctal(n, width);
      assert s[..width - 1] == PrintOctal(n / 8, width - 1);
    }
  }

  /** Eleven digits hold every size an unsigned int can. */
  lemma ElevenDigitsSuffice(n: nat)
    requires n < 0x1_0000_0000
    ensures ParseOctal(PrintOctal(n, 11)) == n
  {
    assert Pow8(4) == 4096;
    assert Pow8(8) == 4096 * Pow8(4);
    assert Pow8(11) == 512 * Pow8(8);
    ParseInvertsPrint(n, 11);
  }

  /** parse_octal as a loop. */
  method ParseOctalLoop(s: seq<byte>) returns (size: nat)
    ensures size == ParseOctal(s)
  {
    size := 0;
    var i: nat := 0;
    while i < |s|
      invariant i <= |s| && size == ParseOctal(s[..i])
    {
      assert s[..i + 1][..i] == s[..i];
      if s[i] >= 0x30 && s[i] <= 0x37 {
        size := Wrap32(size * 8);
        size := Wrap32(size + (s[i] - 0x30) as nat);
      }
      i := i + 1;
    }
    assert s[..i] == s;
  }

  /** Characters other than the digits 0 to 7 are skipped, wherever they stand. */
  lemma {:induction false} OthersAreSkipped(a: seq<byte>, c: byte, b: seq<byte>)
    requires c < 0x30 || c > 0x37
    ensures ParseOctal(a + [c] + b) == ParseOctal(a + b)
    decreases |b|
  {
    if b == [] {
      assert (a + [c] + b)[..|a|] == a && a + b == a;
    } else {
      var k := |b| - 1;
      assert (a + [c] + b)[..|a| + 1 + k] == a + [c] + b[..k] && (a + b)[..|a| + k] == a + b[..k];
      OthersAreSkipped(a, c, b[..k]);
    }
  }

  // ----- The writer -----

  /** A file, with the header bytes the walker does not look at: mode, uid and gid, the terminator of
      the size, which may be a NUL or anything else, and everything after it. */
  datatype File = File(name: seq<byte>, owner: seq<byte>, data: seq<byte>, term: byte, rest: seq<byte>)
  {
    predicate Ok() {
      && 0 < |name| < 100 && 0 !in name
      && |owner| == 24 && |rest| == 376
      && |data| < 0x1_0000_0000 - 512
    }
  }

  function Header(f: File): (h: seq<byte>)
    requires f.Ok()
    ensures |h| == 512
  {
    f.name + Zeros(100 - |f.name|) + f.owner + PrintOctal(|f.data|, 11) + [f.term] + f.rest
  }

  /** Rounded up to whole blocks. */
  function Padded(size: nat): (r: nat)
    ensures size <= r < size + 512 && r % 512 == 0
  {
    if size % 512 != 0 then size + (512 - size % 512) else size
  }

  function Member(f: File): (s: seq<byte>)
    requires f.Ok()
    ensures |s| == 512 + Padded(|f.data|)
  {
    Header(f) + f.data + Zeros(Padded(|f.data|) - |f.data|)
  }

  predicate FilesOk(files: seq<File>) {
    forall i :: 0 <= i < |files| ==> files[i].Ok()
  }

  /** Members one after the other, then a zero block. */
  function Archive(files: seq<File>): (s: seq<byte>)
    requires FilesOk(files)
  {
    if files == [] then Zeros(512) else Member(files[0]) + Archive(files[1..])
  }

  // ----- The walker -----

  /** The NUL-terminated string at an address. */
  function CString(m: seq<byte>, at: nat): seq<byte>
    decreases |m| - at
  {
    if at >= |m| || m[at] == 0 then [] else [m[at]] + CString(m, at + 1)
  }

  function SizeAt(m: seq<byte>, at: nat): (v: nat)
    requires at + 512 <= |m|
    ensures v < 0x1_0000_0000
  {
    ParseOctal(m[at + 124..at + 135])
  }

  function Next(m: seq<byte>, at: nat): nat
    requires at + 512 <= |m|
  {
    at + 512 + Wrap32(Padded(SizeAt(m, at)))
  }

  /** The addresses of the headers the walk of tar_ls visits; None if it leaves the memory image. */
  function Walk(m: seq<byte>, at: nat): Option<seq<nat>>
    decreases |m| - at
  {
    if at + 512 > |m| then None
    else if m[at] == 0 then Some([])
    else
      var rest := Walk(m, Next(m, at));
      if rest.None? then None else Some([at] + rest.value)
  }

  datatype Lookup = Found(start: nat, size: nat) | Absent | RanOff

  /** tar_cat: where the data of the named file is. */
  function Locate(m: seq<byte>, at: nat, name: seq<byte>): Lookup
    decreases |m| - at
  {
    if at + 512 > |m| then RanOff
    else if m[at] == 0 then Absent
    else if CString(m, at) == name then Found(at + 512, SizeAt(m, at))
    else Locate(m, Next(m, at), name)
  }

  // ----- The walker on written archives -----

  /** The archive of the files lies at address at. */
  ghost predicate Holds(m: seq<byte>, at: nat, files: seq<File>)
    requires FilesOk(files)
  {
    at <= |m| && Archive(files) <= m[at..]
  }

  lemma HoldsHeader(m: seq<byte>, at: nat, files: seq<File>)
    requires FilesOk(files) && files != [] && Holds(m, at, files)
    ensures at + 512 <= |m| && m[at..at + 512] == Header(files[0])
    ensures at + 512 + |files[0].data| <= |m|
    ensures m[at + 512..at + 512 + |files[0].data|] == files[0].data
    ensures Holds(m, at + 512 + Padded(|files[0].data|), files[1..])
  {
    hide Header, Padded;
    var f := files[0];
    var a, b := Member(f), Archive(files[1..]);
    var w := m[at..];
    PrefixParts(w, a, b);
    MemberParts(f);
    SliceOfTail(m, at, 0, 512);
    SliceOfTail(m, at, 512, 512 + |f.data|);
    assert w[0..512] == a[..512] == Header(f);
    assert w[512..512 + |f.data|] == a[512..512 + |f.data|];
    assert m[at + |a|..] == w[|a|..];
  }

  lemma PrefixParts(w: seq<byte>, a: seq<byte>, b: seq<byte>)
    requires a + b <= w
    ensures a <= w && b <= w[|a|..]
  {
    assert w[..|a| + |b|] == a + b;
    assert w[..|a|] == a;
    assert w[|a|..][..|b|] == b;
  }

  lemma MemberParts(f: File)
    requires f.Ok()
    ensures Member(f)[..512] == Header(f) && Member(f)[512..512 + |f.data|] == f.data
  {
    hide Header, Padded;
  }

  lemma SliceOfTail(m: seq<byte>, at: nat, i: nat, j: nat)
    requires at + j <= |m| && i <= j
    ensures m[at..][i..j] == m[at + i..at + j]
  {
  }

  lemma HoldsEnd(m: seq<byte>, at: nat)
    requires Holds(m, at, [])
    ensures at + 512 <= |m| && m[at] == 0
  {
    assert m[at..][0] == Zeros(512)[0];
  }

  /** The walker reads the header's size and name as they were written. */
  lemma HeaderReads(m: seq<byte>, at: nat, f: File)
    requires f.Ok() && at + 512 <= |m| && m[at..at + 512] == Header(f)
    ensures m[at] != 0
    ensures SizeAt(m, at) == |f.data|
    ensures CString(m, at) == f.name
  {
    hide CString, ParseOctal, Header, PrintOctal;
    var h := m[at..at + 512];
    HeaderParts(f);
    assert forall i :: 0 <= i < |f.name| ==> h[i] == m[at + i] == f.name[i];
    assert h[0] == f.name[0] && f.name[0] in f.name;
    SliceOfSlice(m, at, 124, 135);
    ElevenDigitsSuffice(|f.data|);
    assert h[|f.name|] == m[at + |f.name|];
    NameReads(m, at, f.name);
  }

  lemma SliceOfSlice(m: seq<byte>, at: nat, a: nat, b: nat)
    requires at + 512 <= |m| && a <= b <= 512
    ensures m[at..at + 512][a..b] == m[at + a..at + b]
  {
    var x, y := m[at..at + 512][a..b], m[at + a..at + b];
    assert forall i :: 0 <= i < |x| ==> x[i] == m[at + (a + i)] == y[i];
  }

  lemma HeaderParts(f: File)
    requires f.Ok()
    ensures var h := Header(f);
            && (forall i :: 0 <= i < |f.name| ==> h[i] == f.name[i])
            && h[|f.name|] == 0
            && h[124..135] == PrintOctal(|f.data|, 11)
  {
    hide PrintOctal;
  }

  lemma {:induction false} NameReads(m: seq<byte>, at: nat, name: seq<byte>)
    requires 0 !in name && at + |name| < |m|
    requires forall i :: 0 <= i < |name| ==> m[at + i] == name[i]
    requires m[at + |name|] == 0
    ensures CString(m, at) == name
    decreases |name|
  {
    if name != [] {
      assert m[at] == name[0] && name[0] in name;
      forall i | 0 <= i < |name[1..]|
        ensures m[at + 1 + i] == name[1..][i]
      {
        assert m[at + (i + 1)] == name[i + 1];
      }
      NameReads(m, at + 1, name[1..]);
      assert name == [name[0]] + name[1..];
    }
  }

  function Starts(files: seq<File>, at: nat): (r: seq<nat>)
    requires FilesOk(files)
    ensures |r| == |files|
  {
    if files == [] then [] else [at] + Starts(files[1..], at + 512 + Padded(|files[0].data|))
  }

  /** The header of the file lies at address p. */
  predicate HeaderAt(m: seq<byte>, p: nat, f: File)
    requires f.Ok()
  {
    p + 512 <= |m| && m[p..p + 512] == Header(f)
  }

  /** The walk visits exactly the headers that were written, in order, and then stops. */
  lemma {:induction false} WalkVisitsHeaders(m: seq<byte>, at: nat, files: seq<File>)
    requires FilesOk(files) && Holds(m, at, files)
    ensures Walk(m, at) == Some(Starts(files, at))
    ensures forall i :: 0 <= i < |files| ==> HeaderAt(m, Starts(files, at)[i], files[i])
    decreases |files|
  {
    hide Header, CString, SizeAt, Holds, Padded, HeaderAt;
    if files == [] {
      HoldsEnd(m, at);
    } else {
      HoldsHeader(m, at, files);
      HeaderReads(m, at, files[0]);
      HeaderLies(m, at, files[0]);
      var next, rest := at + 512 + Padded(|files[0].data|), files[1..];
      WalkVisitsHeaders(m, next, rest);
      forall i | 0 < i < |files|
        ensures HeaderAt(m, Starts(files, at)[i], files[i])
      {
        assert files[i] == rest[i - 1] && Starts(files, at)[i] == Starts(rest, next)[i - 1];
      }
    }
  }

  lemma HeaderLies(m: seq<byte>, p: nat, f: File)
    requires f.Ok() && p + 512 <= |m| && m[p..p + 512] == Header(f)
    ensures HeaderAt(m, p, f)
  {
  }

  /** tar_cat finds the data of the first file with the name, byte for byte, and reports absence
      exactly when the archive has no such file. */
  lemma {:induction false} LocateFindsFirst(m: seq<byte>, at: nat, files: seq<File>, name: seq<byte>)
    requires FilesOk(files) && Holds(m, at, files)
    ensures var r := Locate(m, at, name);
            && !r.RanOff?
            && (r.Absent? <==> forall i :: 0 <= i < |files| ==> files[i].name != name)
            && (r.Found? ==> exists i :: FirstNamed(files, name, i)
                                         && r.start + r.size <= |m| && m[r.start..r.start + r.size] == files[i].data)
    decreases |files|
  {
    hide Header, CString, SizeAt, Holds;
    if files == [] {
      HoldsEnd(m, at);
    } else {
      HoldsHeader(m, at, files);
      HeaderReads(m, at, files[0]);
      if files[0].name == name {
        FirstIsNamed(files, name);
      } else {
        var rest := files[1..];
        LocateFindsFirst(m, at + 512 + Padded(|files[0].data|), rest, name);
        assert forall i :: 0 <= i < |rest| ==> rest[i] == files[i + 1];
        assert forall i :: 0 < i < |files| ==> files[i] == rest[i - 1];
        var r := Locate(m, at, name);
        assert r == Locate(m, at + 512 + Padded(|files[0].data|), name);
        if r.Found? {
          var i :| FirstNamed(rest, name, i) && r.start + r.size <= |m| && m[r.start..r.start + r.size] == rest[i].data;
          NamedLater(files, name, i);
        }
      }
    }
  }

  lemma FirstIsNamed(files: seq<File>, name: seq<byte>)
    requires files != [] && files[0].name == name
    ensures FirstNamed(files, name, 0)
  {
  }

  lemma NamedLater(files: seq<File>, name: seq<byte>, i: int)
    requires files != [] && files[0].name != name && FirstNamed(files[1..], name, i)
    ensures FirstNamed(files, name, i + 1) && 0 <= i < |files| - 1 && files[i + 1] == files[1..][i]
  {
    assert forall j :: 0 < j < |files| ==> files[j] == files[1..][j - 1];
  }

  ghost predicate FirstNamed(files: seq<File>, name: seq<byte>, i: int) {
    && 0 <= i < |files|
    && files[i].name == name
    && forall j :: 0 <= j < i ==> files[j].name != name
  }

  /** The loop of tar_cat, up to the bytes it prints. */
  method TarCat(m: seq<byte>, initrd: nat, name: seq<byte>) returns (r: Lookup)
    ensures r == Locate(m, initrd, name)
  {
    hide CString;
    var at := initrd;
    while at + 512 <= |m|
      invariant Locate(m, initrd, name) == Locate(m, at, name)
      decreases |m| - at
    {
      if m[at] == 0 {
        return Absent;
      }
      var size := SizeOf(m, at);
      if CString(m, at) == name {
        return Found(at + 512, size);
      }
      var padded := size;
      if padded % 512 != 0 {
        padded := Wrap32(padded + (512 - padded % 512));
      }
      at := at + 512 + padded;
    }
    r := RanOff;
  }

  method SizeOf(m: seq<byte>, at: nat) returns (size: nat)
    requires at + 512 <= |m|
    ensures size == SizeAt(m, at)
  {
    size := ParseOctalLoop(m[at + 124..at + 135]);
  }

  ghost function After(headers: seq<nat>, w: Option<seq<nat>>): Option<seq<nat>> {
    if w.None? then None else Some(headers + w.value)
  }

  lemma AfterNothing(w: Option<seq<nat>>)
    ensures After([], w) == w
  {
    assert w.Some? ==> [] + w.value == w.value;
  }

  lemma WalkUnfolds(m: seq<byte>, at: nat, headers: seq<nat>)
    requires at + 512 <= |m| && m[at] != 0
    ensures After(headers, Walk(m, at)) == After(headers + [at], Walk(m, Next(m, at)))
  {
    var w := Walk(m, Next(m, at));
    assert w.Some? ==> headers + ([at] + w.value) == (headers + [at]) + w.value;
  }

  /** The loop of tar_ls: the headers it lists. */
  method TarLs(m: seq<byte>, initrd: nat) returns (headers: seq<nat>, ended: bool)
    ensures Walk(m, initrd) == if ended then Some(headers) else None
  {
    hide SizeAt, ParseOctal;
    headers := [];
    var at := initrd;
    AfterNothing(Walk(m, at));
    while at + 512 <= |m|
      invariant Walk(m, initrd) == After(headers, Walk(m, at))
      decreases |m| - at
    {
      if m[at] == 0 {
        assert headers + [] == headers;
        return headers, true;
      }
      var size := SizeOf(m, at);
      WalkUnfolds(m, at, headers);
      headers := headers + [at];
      var padded := size;
      if padded % 512 != 0 {
        padded := Wrap32(padded + (512 - padded % 512));
      }
      at := at + 512 + padded;
    }
    ended := false;
  }
}
