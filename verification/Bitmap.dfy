/** The allocation bitmap of a memory region, read as bytes by some routines and as little-endian
    32-bit words by others. */
module Bitmap {

  // ----- masks

  /** `1 << k` in a byte. */
  function Mask8(k: nat): bv8
    requires k < 8
  {
    if k == 0 then 0x01 else if k == 1 then 0x02 else if k == 2 then 0x04 else if k == 3 then 0x08
    else if k == 4 then 0x10 else if k == 5 then 0x20 else if k == 6 then 0x40 else 0x80
  }

  function Shl1(w: bv32): bv32 { w << 1 }

  /** `1 << k` in a word. */
  function Mask32(k: nat): bv32
    requires k < 32
  {
    if k == 0 then 1 else Shl1(Mask32(k - 1))
  }

  predicate Hits8(b: bv8, m: bv8) { b & m != 0 }
  predicate Hits32(w: bv32, m: bv32) { w & m != 0 }
  function Or8(b: bv8, m: bv8): bv8 { b | m }
  function Or32(w: bv32, m: bv32): bv32 { w | m }

  predicate Test8(b: bv8, k: nat)
    requires k < 8
  {
    Hits8(b, Mask8(k))
  }

  predicate Test32(w: bv32, k: nat)
    requires k < 32
  {
    Hits32(w, Mask32(k))
  }

  function Set8(b: bv8, k: nat, on: bool): bv8
    requires k < 8
  {
    if on then Or8(b, Mask8(k)) else b & !Mask8(k)
  }

  function Set32(w: bv32, k: nat): bv32
    requires k < 32
  {
    Or32(w, Mask32(k))
  }

  // ----- a word made of bytes

  /** Four consecutive bytes read as one little-endian word. */
  function Word(b0: bv8, b1: bv8, b2: bv8, b3: bv8): bv32 {
    (b0 as bv32) | ((b1 as bv32) << 8) | ((b2 as bv32) << 16) | ((b3 as bv32) << 24)
  }

  function Byte0(w: bv32): bv8 { (w & 0xFF) as bv8 }
  function Byte1(w: bv32): bv8 { ((w >> 8) & 0xFF) as bv8 }
  function Byte2(w: bv32): bv8 { ((w >> 16) & 0xFF) as bv8 }
  function Byte3(w: bv32): bv8 { ((w >> 24) & 0xFF) as bv8 }

  /** The word mask of bit `k` is the byte mask of bit `k % 8` in byte `k / 8`. */
  lemma MaskBytes(k: nat)
    requires k < 32
    ensures Mask32(k) ==
      if k < 8 then Word(Mask8(k), 0, 0, 0)
      else if k < 16 then Word(0, Mask8(k - 8), 0, 0)
      else if k < 24 then Word(0, 0, Mask8(k - 16), 0)
      else Word(0, 0, 0, Mask8(k - 24))
  {
    if k > 0 {
      MaskBytes(k - 1);
    }
  }

  lemma WordHits(b0: bv8, b1: bv8, b2: bv8, b3: bv8, m: bv8)
    ensures Hits32(Word(b0, b1, b2, b3), Word(m, 0, 0, 0)) <==> Hits8(b0, m)
    ensures Hits32(Word(b0, b1, b2, b3), Word(0, m, 0, 0)) <==> Hits8(b1, m)
    ensures Hits32(Word(b0, b1, b2, b3), Word(0, 0, m, 0)) <==> Hits8(b2, m)
    ensures Hits32(Word(b0, b1, b2, b3), Word(0, 0, 0, m)) <==> Hits8(b3, m)
  {
    WordAnd(b0, b1, b2, b3, m);
    hide Word;
  }

  lemma WordAnd(b0: bv8, b1: bv8, b2: bv8, b3: bv8, m: bv8)
    ensures Word(b0, b1, b2, b3) & Word(m, 0, 0, 0) != 0 <==> b0 & m != 0
    ensures Word(b0, b1, b2, b3) & Word(0, m, 0, 0) != 0 <==> b1 & m != 0
    ensures Word(b0, b1, b2, b3) & Word(0, 0, m, 0) != 0 <==> b2 & m != 0
    ensures Word(b0, b1, b2, b3) & Word(0, 0, 0, m) != 0 <==> b3 & m != 0
  {
  }

  lemma TestWord(b0: bv8, b1: bv8, b2: bv8, b3: bv8, k: nat)
    requires k < 8
    ensures Test32(Word(b0, b1, b2, b3), k) <==> Test8(b0, k)
    ensures Test32(Word(b0, b1, b2, b3), k + 8) <==> Test8(b1, k)
    ensures Test32(Word(b0, b1, b2, b3), k + 16) <==> Test8(b2, k)
    ensures Test32(Word(b0, b1, b2, b3), k + 24) <==> Test8(b3, k)
  {
    hide Word, Mask8, Mask32, Hits8, Hits32;
    MaskBytes(k);
    MaskBytes(k + 8);
    MaskBytes(k + 16);
    MaskBytes(k + 24);
    WordHits(b0, b1, b2, b3, Mask8(k));
  }

  lemma WordOr(b0: bv8, b1: bv8, b2: bv8, b3: bv8, m0: bv8, m1: bv8, m2: bv8, m3: bv8)
    ensures Or32(Word(b0, b1, b2, b3), Word(m0, m1, m2, m3)) == Word(Or8(b0, m0), Or8(b1, m1), Or8(b2, m2), Or8(b3, m3))
  {
  }

  lemma OrZero(b: bv8)
    ensures Or8(b, 0) == b
  {
  }

  lemma SetWord(b0: bv8, b1: bv8, b2: bv8, b3: bv8, k: nat)
    requires k < 8
    ensures Set32(Word(b0, b1, b2, b3), k) == Word(Set8(b0, k, true), b1, b2, b3)
    ensures Set32(Word(b0, b1, b2, b3), k + 8) == Word(b0, Set8(b1, k, true), b2, b3)
    ensures Set32(Word(b0, b1, b2, b3), k + 16) == Word(b0, b1, Set8(b2, k, true), b3)
    ensures Set32(Word(b0, b1, b2, b3), k + 24) == Word(b0, b1, b2, Set8(b3, k, true))
  {
    hide Word, Mask8, Mask32, Or8, Or32;
    MaskBytes(k);
    MaskBytes(k + 8);
    MaskBytes(k + 16);
    MaskBytes(k + 24);
    var m := Mask8(k);
    WordOr(b0, b1, b2, b3, m, 0, 0, 0);
    WordOr(b0, b1, b2, b3, 0, m, 0, 0);
    WordOr(b0, b1, b2, b3, 0, 0, m, 0);
    WordOr(b0, b1, b2, b3, 0, 0, 0, m);
    OrZero(b0);
    OrZero(b1);
    OrZero(b2);
    OrZero(b3);
  }

  lemma WordBytes(b0: bv8, b1: bv8, b2: bv8, b3: bv8)
    ensures Byte0(Word(b0, b1, b2, b3)) == b0 && Byte1(Word(b0, b1, b2, b3)) == b1
    ensures Byte2(Word(b0, b1, b2, b3)) == b2 && Byte3(Word(b0, b1, b2, b3)) == b3
  {
  }

  // ----- the two views of the same bytes

  /** The bit that `memory_region_setbit` and `memory_region_getbit` address for the `k`-th page. */
  predicate Bit(bits: seq<bv8>, k: nat)
    requires k / 8 < |bits|
  {
    Test8(bits[k / 8], k % 8)
  }

  /** What `memory_region_setbit` does to the bitmap. */
  function WithBit(bits: seq<bv8>, k: nat, on: bool): (r: seq<bv8>)
    requires k / 8 < |bits|
    ensures |r| == |bits|
  {
    bits[k / 8 := Set8(bits[k / 8], k % 8, on)]
  }

  /** It changes the bit of one page only. */
  lemma WithBitEffect(bits: seq<bv8>, k: nat, on: bool, j: nat)
    requires k / 8 < |bits| && j / 8 < |bits|
    ensures Bit(WithBit(bits, k, on), j) == if j == k then on else Bit(bits, j)
  {
    hide Set8, Test8;
    if j / 8 == k / 8 {
      SetTest8(bits[k / 8], k % 8, on, j % 8);
    }
  }

  lemma SetTest8(b: bv8, k: nat, on: bool, j: nat)
    requires k < 8 && j < 8
    ensures Test8(Set8(b, k, on), j) == if j == k then on else Test8(b, j)
  {
    if on {
      assert (b | Mask8(k)) & Mask8(j) == (b & Mask8(j)) | (Mask8(k) & Mask8(j));
    }
  }

  /** The `i`-th element of the bitmap read as an array of 32-bit words. */
  function WordAt(bits: seq<bv8>, i: nat): bv32
    requires 4 * i + 3 < |bits|
  {
    Word(bits[4 * i], bits[4 * i + 1], bits[4 * i + 2], bits[4 * i + 3])
  }

  function StoreWord(bits: seq<bv8>, i: nat, w: bv32): (r: seq<bv8>)
    requires 4 * i + 3 < |bits|
    ensures |r| == |bits|
  {
    bits[4 * i := Byte0(w)][4 * i + 1 := Byte1(w)][4 * i + 2 := Byte2(w)][4 * i + 3 := Byte3(w)]
  }

  lemma BytePosition(i: nat, y: nat)
    requires y < 32
    ensures (32 * i + y) / 8 == 4 * i + y / 8 && (32 * i + y) % 8 == y % 8
    ensures y / 8 < 4 && y == 8 * (y / 8) + y % 8
  {
  }

  /** Bit `y` of word `i` is the bit of page `32 * i + y`. */
  lemma WordViewAgrees(bits: seq<bv8>, i: nat, y: nat)
    requires 4 * i + 3 < |bits| && y < 32
    ensures Test32(WordAt(bits, i), y) <==> Bit(bits, 32 * i + y)
  {
    hide Word, Test8, Test32;
    TestWord(bits[4 * i], bits[4 * i + 1], bits[4 * i + 2], bits[4 * i + 3], y % 8);
    BytePosition(i, y);
  }

  /** Setting bit `y` of word `i` changes one byte: that of page `32 * i + y`. */
  lemma StoreWordBit(bits: seq<bv8>, i: nat, y: nat)
    requires 4 * i + 3 < |bits| && y < 32
    ensures (32 * i + y) / 8 < |bits|
    ensures StoreWord(bits, i, Set32(WordAt(bits, i), y)) == WithBit(bits, 32 * i + y, true)
  {
    hide Word, Set8, Set32, Byte0, Byte1, Byte2, Byte3;
    BytePosition(i, y);
    var b0, b1, b2, b3 := bits[4 * i], bits[4 * i + 1], bits[4 * i + 2], bits[4 * i + 3];
    var k := y % 8;
    SetWord(b0, b1, b2, b3, k);
    WordBytes(Set8(b0, k, true), b1, b2, b3);
    WordBytes(b0, Set8(b1, k, true), b2, b3);
    WordBytes(b0, b1, Set8(b2, k, true), b3);
    WordBytes(b0, b1, b2, Set8(b3, k, true));
  }

  // ----- ffs

  /** Only zero has no bit set. */
  lemma NonZeroHasBit(x: bv32) returns (y: nat)
    requires x != 0
    ensures y < 32 && Test32(x, y)
  {
    var b0, b1, b2, b3 := Byte0(x), Byte1(x), Byte2(x), Byte3(x);
    assert x == Word(b0, b1, b2, b3);
    assert b0 != 0 || b1 != 0 || b2 != 0 || b3 != 0;
    hide Word, Test8, Test32, Byte0, Byte1, Byte2, Byte3;
    var b := if b0 != 0 then b0 else if b1 != 0 then b1 else if b2 != 0 then b2 else b3;
    var k := ByteHasBit(b);
    TestWord(b0, b1, b2, b3, k);
    y := k + if b0 != 0 then 0 else if b1 != 0 then 8 else if b2 != 0 then 16 else 24;
  }

  lemma ByteHasBit(b: bv8) returns (k: nat)
    requires b != 0
    ensures k < 8 && Test8(b, k)
  {
    k := if b & 0x01 != 0 then 0 else if b & 0x02 != 0 then 1 else if b & 0x04 != 0 then 2
         else if b & 0x08 != 0 then 3 else if b & 0x10 != 0 then 4 else if b & 0x20 != 0 then 5
         else if b & 0x40 != 0 then 6 else 7;
  }

  function Not32(w: bv32): bv32 { !w }

  lemma MaskHitsOnce(w: bv32, m: bv8)
    requires m != 0 && m & (m - 1) == 0
    ensures Hits32(Not32(w), Word(m, 0, 0, 0)) <==> !Hits32(w, Word(m, 0, 0, 0))
    ensures Hits32(Not32(w), Word(0, m, 0, 0)) <==> !Hits32(w, Word(0, m, 0, 0))
    ensures Hits32(Not32(w), Word(0, 0, m, 0)) <==> !Hits32(w, Word(0, 0, m, 0))
    ensures Hits32(Not32(w), Word(0, 0, 0, m)) <==> !Hits32(w, Word(0, 0, 0, m))
  {
    OneBitAnd(w, m);
  }

  lemma OneBitAnd(w: bv32, m: bv8)
    requires m != 0 && m & (m - 1) == 0
    ensures (!w) & Word(m, 0, 0, 0) != 0 <==> w & Word(m, 0, 0, 0) == 0
    ensures (!w) & Word(0, m, 0, 0) != 0 <==> w & Word(0, m, 0, 0) == 0
    ensures (!w) & Word(0, 0, m, 0) != 0 <==> w & Word(0, 0, m, 0) == 0
    ensures (!w) & Word(0, 0, 0, m) != 0 <==> w & Word(0, 0, 0, m) == 0
  {
  }

  lemma MaskIsOneBit(k: nat)
    requires k < 8
    ensures Mask8(k) != 0 && Mask8(k) & (Mask8(k) - 1) == 0
  {
  }

  /** A clear bit of a word is a set bit of its complement. */
  lemma ComplementBit(w: bv32, y: nat)
    requires y < 32
    ensures Test32(Not32(w), y) <==> !Test32(w, y)
  {
    hide Word, Mask8, Mask32, Hits32, Not32;
    MaskBytes(y);
    var k := if y < 8 then y else if y < 16 then y - 8 else if y < 24 then y - 16 else y - 24;
    MaskIsOneBit(k);
    MaskHitsOnce(w, Mask8(k));
  }

  lemma MaskShift(k: nat)
    ensures Mask32(0) == 1
    ensures k < 31 ==> Mask32(k + 1) == Shl1(Mask32(k))
  {
  }

  /** `ffs`, which loops for ever on zero: one more than the lowest set bit. */
  method Ffs(x: bv32) returns (r: nat)
    requires x != 0
    ensures 1 <= r <= 32 && Test32(x, r - 1)
    ensures forall y :: 0 <= y < r - 1 ==> !Test32(x, y)
  {
    hide Mask32, Hits32, Shl1;
    ghost var top := NonZeroHasBit(x);
    MaskShift(0);
    var t: bv32 := 1;
    r := 1;
    while !Hits32(x, t)
      invariant 1 <= r <= top + 1 && t == Mask32(r - 1)
      invariant forall y :: 0 <= y < r - 1 ==> !Test32(x, y)
      decreases top + 1 - r
    {
      MaskShift(r - 1);
      t := Shl1(t);
      r := r + 1;
    }
  }
}
