/** fat16_format_83: file names as the 8.3 names of directory entries. */
module Fat16Names {
  import opened Bytes
  import opened Fat16Directory

  const SPACE: byte := 0x20
  const DOT: byte := 0x2E

  function Upper(c: byte): byte {
    if 0x61 <= c <= 0x7A then c - 32 else c
  }

  function Uppers(s: seq<byte>): (r: seq<byte>)
    ensures |r| == |s|
  {
    seq(|s|, i requires 0 <= i < |s| => Upper(s[i]))
  }

  /** Upper case, cut or space-padded to n bytes. */
  function Field(s: seq<byte>, n: nat): (r: seq<byte>)
    ensures |r| == n
  {
    var t := Min(|s|, n);
    Uppers(s[..t]) + seq(n - t, _ => SPACE)
  }

  /** The index of the first dot, or the length if there is none. */
  function DotAt(s: seq<byte>): (k: nat)
    ensures k <= |s| && DOT !in s[..k] && (k < |s| ==> s[k] == DOT)
  {
    if s == [] || s[0] == DOT then 0 else
    var k := DotAt(s[1..]);
    assert s[..1 + k] == [s[0]] + s[1..][..k];
    1 + k
  }

  /** The part before the first dot and the part after it, as a directory entry holds them. */
  function Format83(input: seq<byte>): (name: Name)
    ensures name.Shaped()
  {
    var k := DotAt(input);
    Name(Field(input[..k], 8), Field(if k < |input| then input[k + 1..] else [], 3))
  }

  /** fat16_format_83 on a NUL-terminated input, written into two fixed arrays. */
  method FormatName(input: seq<byte>, name8: array<byte>, ext3: array<byte>)
    requires 0 !in input && name8.Length == 8 && ext3.Length == 3 && name8 != ext3
    modifies name8, ext3
    ensures Name(name8[..], ext3[..]) == Format83(input)
  {
    hide Field, Upper, DotAt;
    for j := 0 to 8
      invariant forall k :: 0 <= k < j ==> name8[k] == SPACE
    {
      name8[j] := SPACE;
    }
    for j := 0 to 3
      invariant forall k :: 0 <= k < j ==> ext3[k] == SPACE
      invariant forall k :: 0 <= k < 8 ==> name8[k] == SPACE
    {
      ext3[j] := SPACE;
    }
    ghost var dot := DotAt(input);
    var i: nat := 0;
    while i < |input| && input[i] != DOT && i < 8
      invariant i <= |input| && i <= 8 && i <= dot
      invariant forall k :: 0 <= k < 8 ==> name8[k] == if k < i then Upper(input[k]) else SPACE
      invariant forall k :: 0 <= k < 3 ==> ext3[k] == SPACE
    {
      assert i != dot;
      name8[i] := Upper(input[i]);
      i := i + 1;
    }
    NoDotBefore(input);
    FieldIs(name8[..], input[..dot], 8);
    while i < |input| && input[i] != DOT
      invariant i <= dot
    {
      i := i + 1;
    }
    if i < |input| && input[i] == DOT {
      i := i + 1;
      var extI: nat := 0;
      while i < |input| && extI < 3
        invariant extI <= 3 && i == dot + 1 + extI <= |input|
        invariant name8[..] == Field(input[..dot], 8)
        invariant forall k :: 0 <= k < 3 ==> ext3[k] == if k < extI then Upper(input[dot + 1 + k]) else SPACE
      {
        ext3[extI] := Upper(input[i]);
        i := i + 1;
        extI := extI + 1;
      }
      FieldIs(ext3[..], input[dot + 1..], 3);
    } else {
      FieldIs(ext3[..], [], 3);
    }
  }

  lemma NoDotBefore(input: seq<byte>)
    ensures forall k :: 0 <= k < DotAt(input) ==> input[k] != DOT
  {
    hide DotAt;
    var dot := DotAt(input);
    assert forall k :: 0 <= k < dot ==> input[..dot][k] == input[k];
  }

  lemma FieldIs(a: seq<byte>, s: seq<byte>, n: nat)
    requires |a| == n && forall k :: 0 <= k < n ==> a[k] == if k < |s| then Upper(s[k]) else SPACE
    ensures a == Field(s, n)
  {
    hide Upper;
  }

  /** A formatted name can be stored unless its first byte reads as the deleted mark. */
  lemma FormattedIsStorable(input: seq<byte>)
    requires 0 !in input
    ensures Format83(input).Storable() <==> (DotAt(input) == 0 || input[0] != DELETED)
  {
    var k := DotAt(input);
    FieldHasNoNul(input[..k], 8);
    FieldHasNoNul(if k < |input| then input[k + 1..] else [], 3);
  }

  lemma FieldHasNoNul(s: seq<byte>, n: nat)
    requires 0 !in s
    ensures 0 !in Field(s, n)
  {
    var f := Field(s, n);
    forall i | 0 <= i < n
      ensures f[i] != 0
    {
      assert i < |s| ==> s[i] in s;
    }
  }

  /** The name character by character: of the part before the first dot the first eight, of the part
      behind it the first three, small letters as capitals, and spaces where there are fewer. */
  lemma FormattedBytes(input: seq<byte>, dot: nat)
    requires dot <= |input| && (forall i :: 0 <= i < dot ==> input[i] != 0x2E) && (dot < |input| ==> input[dot] == 0x2E)
    ensures forall i :: 0 <= i < 8 ==> Format83(input).base[i] == if i < dot then Capital(input[i]) else 0x20
    ensures forall i :: 0 <= i < 3 ==>
              Format83(input).ext[i] == if dot + 1 + i < |input| then Capital(input[dot + 1 + i]) else 0x20
  {
    FirstDotIs(input, dot);
    hide DotAt;
  }

  function Capital(c: byte): byte {
    if 0x61 <= c <= 0x7A then c - 0x20 else c
  }

  lemma {:induction false} FirstDotIs(input: seq<byte>, dot: nat)
    requires dot <= |input| && (forall i :: 0 <= i < dot ==> input[i] != 0x2E) && (dot < |input| ==> input[dot] == 0x2E)
    ensures DotAt(input) == dot
    decreases dot
  {
    if dot > 0 {
      FirstDotIs(input[1..], dot - 1);
    }
  }

  // ----- Writing a name out -----

  function Trimmed(s: seq<byte>): (r: seq<byte>)
    ensures |r| <= |s| && s[..|r|] == r
    ensures forall i :: |r| <= i < |s| ==> s[i] == SPACE
  {
    if s == [] || s[|s| - 1] != SPACE then s else Trimmed(s[..|s| - 1])
  }

  /** The name of a directory entry as a user would type it. */
  function Display(n: Name): seq<byte> {
    Joined(Trimmed(n.base), Trimmed(n.ext))
  }

  /** The letters A to Z in lower case. */
  function Lowers(s: seq<byte>): (r: seq<byte>)
    ensures |r| == |s|
  {
    seq(|s|, i requires 0 <= i < |s| => if 0x41 <= s[i] <= 0x5A then s[i] + 0x20 else s[i])
  }

  predicate NoLowerCase(s: seq<byte>) {
    forall i :: 0 <= i < |s| ==> !(0x61 <= s[i] <= 0x7A)
  }

  /** Formatting a name that was written out gives it back, in lower case too. */
  lemma FormatInvertsDisplay(n: Name)
    requires n.Shaped() && DOT !in n.base && NoLowerCase(n.base) && NoLowerCase(n.ext)
    ensures Format83(Display(n)) == n && Format83(Lowers(Display(n))) == n
  {
    hide DotAt, Field, Upper, NoLowerCase, Trimmed, Lowers, Format83;
    var b, e := Trimmed(n.base), Trimmed(n.ext);
    FieldOfTrimmed(n.base);
    FieldOfTrimmed(n.ext);
    assert DOT !in b by {
      assert forall i :: 0 <= i < |b| ==> b[i] == n.base[..|b|][i];
    }
    FormatOfParts(b, e);
    LowersOfParts(b, e);
    NoDotInLowers(b);
    FormatOfParts(Lowers(b), Lowers(e));
  }

  /** A base without dots, and the extension behind a dot if there is one. */
  function Joined(b: seq<byte>, e: seq<byte>): seq<byte> {
    b + (if e == [] then [] else [DOT] + e)
  }

  lemma FormatOfParts(b: seq<byte>, e: seq<byte>)
    requires DOT !in b
    ensures Format83(Joined(b, e)) == Name(Field(b, 8), Field(e, 3))
  {
    hide DotAt, Field;
    var tail := if e == [] then [] else [DOT] + e;
    DotBehind(b, tail);
    assert (b + tail)[..|b|] == b;
    assert tail != [] ==> (b + tail)[|b| + 1..] == e;
  }

  lemma FieldOfTrimmed(s: seq<byte>)
    requires NoLowerCase(s)
    ensures Field(Trimmed(s), |s|) == s && Field(Lowers(Trimmed(s)), |s|) == s
  {
    FieldIs(s, Trimmed(s), |s|);
    FieldIs(s, Lowers(Trimmed(s)), |s|);
  }

  lemma NoDotInLowers(b: seq<byte>)
    requires DOT !in b
    ensures DOT !in Lowers(b)
  {
    forall i | 0 <= i < |b|
      ensures Lowers(b)[i] != DOT
    {
      assert b[i] in b;
    }
  }

  lemma LowersOfParts(b: seq<byte>, e: seq<byte>)
    ensures Lowers(Joined(b, e)) == Joined(Lowers(b), Lowers(e))
  {
  }

  lemma {:induction false} DotBehind(b: seq<byte>, tail: seq<byte>)
    requires DOT !in b && (tail == [] || tail[0] == DOT)
    ensures DotAt(b + tail) == |b|
    decreases |b|
  {
    if b == [] {
      assert b + tail == tail;
    } else {
      assert b[0] in b && (b + tail)[1..] == b[1..] + tail;
      DotBehind(b[1..], tail);
    }
  }

  /** Names that differ in letter case only denote the same file. */
  lemma FormatIgnoresCase(input: seq<byte>)
    ensures Format83(Uppers(input)) == Format83(input)
  {
    DotOfUppers(input);
    var k := DotAt(input);
    assert Uppers(input)[..k] == Uppers(input[..k]);
    FieldOfUppers(input[..k], 8);
    if k < |input| {
      assert Uppers(input)[k + 1..] == Uppers(input[k + 1..]);
      FieldOfUppers(input[k + 1..], 3);
    }
  }

  lemma {:induction false} DotOfUppers(s: seq<byte>)
    ensures DotAt(Uppers(s)) == DotAt(s)
  {
    if s != [] {
      assert Uppers(s)[1..] == Uppers(s[1..]);
      DotOfUppers(s[1..]);
    }
  }

  lemma FieldOfUppers(s: seq<byte>, n: nat)
    ensures Field(Uppers(s), n) == Field(s, n)
  {
    var t := Min(|s|, n);
    assert Uppers(Uppers(s)[..t]) == Uppers(s[..t]);
  }
}
