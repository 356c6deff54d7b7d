/** Single bits of 32-bit words, as the bitmap helpers of src/memory.c use them. */
module Bits {

  type Word = bv32

  const FULL: Word := 0xFFFF_FFFF

  /** 1 << bit */
  function Mask(bit: nat): Word
    requires bit < 32
  {
    1 << bit
  }

  predicate Hit(w: Word, mask: Word) {
    w & mask != 0
  }

  function With(w: Word, mask: Word): Word {
    w | mask
  }

  function Without(w: Word, mask: Word): Word {
    w & !mask
  }

  predicate Bit(w: Word, bit: nat)
    requires bit < 32
  {
    Hit(w, Mask(bit))
  }

  lemma MasksAreDisjoint(j: nat, k: nat)
    requires j < 32 && k < 32
    ensures Mask(j) & Mask(k) == if j == k then Mask(k) else 0
    ensures Mask(k) != 0
  {
  }

  lemma OrAndOther(w: Word, m: Word, n: Word)
    requires m & n == 0
    ensures (w | m) & n == w & n
    ensures (w & !m) & n == w & n
  {
  }

  lemma OrAndSame(w: Word, m: Word)
    ensures (w | m) & m == m
    ensures (w & !m) & m == 0
  {
  }

  lemma HitSame(w: Word, m: Word)
    requires m != 0
    ensures Hit(With(w, m), m) && !Hit(Without(w, m), m)
  {
    OrAndSame(w, m);
  }

  lemma HitOther(w: Word, m: Word, n: Word)
    requires m & n == 0
    ensures Hit(With(w, m), n) == Hit(w, n)
    ensures Hit(Without(w, m), n) == Hit(w, n)
  {
    OrAndOther(w, m, n);
  }

  /** Setting or clearing a bit changes that bit alone. */
  lemma BitAfterUpdate(w: Word, j: nat, k: nat)
    requires j < 32 && k < 32
    ensures Bit(With(w, Mask(k)), j) <==> j == k || Bit(w, j)
    ensures Bit(Without(w, Mask(k)), j) <==> j != k && Bit(w, j)
  {
    hide Mask, Hit, With, Without;
    MasksAreDisjoint(k, j);
    if j == k {
      HitSame(w, Mask(k));
    } else {
      HitOther(w, Mask(k), Mask(j));
    }
  }

  /** A word is full exactly when all its bits are set. */
  lemma FullWord(w: Word)
    ensures w == FULL <==> forall k :: 0 <= k < 32 ==> Bit(w, k)
  {
    if w == FULL {
      forall k | 0 <= k < 32
        ensures Bit(w, k)
      {
        MasksAreDisjoint(k, k);
        FullAnd(Mask(k));
      }
    } else if forall k :: 0 <= k < 32 ==> Bit(w, k) {
      AllBitsSet(w);
    }
  }

  lemma FullAnd(m: Word)
    ensures FULL & m == m
  {
  }

  lemma AllBitsSet(w: Word)
    requires forall k :: 0 <= k < 32 ==> Bit(w, k)
    ensures w == FULL
  {
    hide Bit;
    LowHalfSet(w);
    HighHalfSet(w);
    Halves(w);
  }

  lemma LowHalfSet(w: Word)
    requires forall k :: 0 <= k < 16 ==> Bit(w, k)
    ensures w & 0xFFFF == 0xFFFF
  {
    assert Bit(w, 0) && Bit(w, 1) && Bit(w, 2) && Bit(w, 3) && Bit(w, 4) && Bit(w, 5) && Bit(w, 6) && Bit(w, 7);
    assert Bit(w, 8) && Bit(w, 9) && Bit(w, 10) && Bit(w, 11) && Bit(w, 12) && Bit(w, 13) && Bit(w, 14) && Bit(w, 15);
  }

  lemma HighHalfSet(w: Word)
    requires forall k :: 16 <= k < 32 ==> Bit(w, k)
    ensures w & 0xFFFF_0000 == 0xFFFF_0000
  {
    assert Bit(w, 16) && Bit(w, 17) && Bit(w, 18) && Bit(w, 19) && Bit(w, 20) && Bit(w, 21) && Bit(w, 22) && Bit(w, 23);
    assert Bit(w, 24) && Bit(w, 25) && Bit(w, 26) && Bit(w, 27) && Bit(w, 28) && Bit(w, 29) && Bit(w, 30) && Bit(w, 31);
  }

  lemma Halves(w: Word)
    requires w & 0xFFFF == 0xFFFF && w & 0xFFFF_0000 == 0xFFFF_0000
    ensures w == FULL
  {
  }
}
