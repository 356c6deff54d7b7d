/** Bytes, little-endian fields and the 32-bit wrap-around of C's unsigned arithmetic. */
module Bytes {

  newtype byte = x: int | 0 <= x < 0x100

  /** The value a uint32_t holds after an unsigned computation produced x. */
  function Wrap32(x: nat): (r: nat)
    ensures r < 0x1_0000_0000
    ensures x < 0x1_0000_0000 ==> r == x
  {
    x % 0x1_0000_0000
  }

  /** The value of (int)x for a uint32_t x. */
  function AsInt32(x: nat): int
    requires x < 0x1_0000_0000
  {
    if x < 0x8000_0000 then x else x - 0x1_0000_0000
  }

  function Min(a: nat, b: nat): nat {
    if a < b then a else b
  }

  function Zeros(n: nat): (s: seq<byte>)
    ensures |s| == n
  {
    seq(n, _ => 0)
  }

  /** The little-endian uint16_t stored at offset at. */
  function Get16(s: seq<byte>, at: nat): (v: nat)
    requires at + 2 <= |s|
    ensures v < 0x1_0000
  {
    s[at] as nat + 0x100 * s[at + 1] as nat
  }

  function Put16(s: seq<byte>, at: nat, v: nat): (r: seq<byte>)
    requires at + 2 <= |s|
    requires v < 0x1_0000
    ensures |r| == |s|
    ensures Get16(r, at) == v
    ensures forall i :: 0 <= i < |s| && i != at && i != at + 1 ==> r[i] == s[i]
  {
    s[at := (v % 0x100) as byte][at + 1 := (v / 0x100) as byte]
  }

  /** The little-endian uint32_t stored at offset at. */
  function Get32(s: seq<byte>, at: nat): (v: nat)
    requires at + 4 <= |s|
    ensures v < 0x1_0000_0000
  {
    Get16(s, at) + 0x1_0000 * Get16(s, at + 2)
  }

  /** The four bytes, lowest first. */
  lemma Put32Bytes(s: seq<byte>, at: nat, v: nat)
    requires at + 4 <= |s| && v < 0x1_0000_0000
    ensures Put32(s, at, v) == s[at := (v % 0x100) as byte][at + 1 := (v / 0x100 % 0x100) as byte]
                                [at + 2 := (v / 0x1_0000 % 0x100) as byte][at + 3 := (v / 0x100_0000) as byte]
  {
    FourDigits(v);
  }

  lemma FourDigits(v: nat)
    ensures v % 0x1_0000 % 0x100 == v % 0x100 && v % 0x1_0000 / 0x100 == v / 0x100 % 0x100
    ensures v / 0x1_0000 / 0x100 == v / 0x100_0000
  {
    var hi, lo := v / 0x1_0000, v % 0x1_0000;
    assert v == 0x100 * (0x100 * hi + lo / 0x100) + lo % 0x100;
  }

  function Put32(s: seq<byte>, at: nat, v: nat): (r: seq<byte>)
    requires at + 4 <= |s|
    requires v < 0x1_0000_0000
    ensures |r| == |s|
    ensures Get32(r, at) == v
    ensures forall i :: 0 <= i < |s| && (i < at || at + 4 <= i) ==> r[i] == s[i]
  {
    var lo := Put16(s, at, v % 0x1_0000);
    Put16(lo, at + 2, v / 0x1_0000)
  }
}
