/** Reading and writing integers of any width at any bit offset (`t_pck__readwrite.c`).

    Bit `k` of a buffer is counted from the most significant bit of byte 0.  Both the
    shift-and-mask path and the byte-copy paths of the C code are related to these bits. */
module PackInt {
  import opened Words

  /** The atomic packers that hold numbers. */
  datatype IntPacker = IntPacker(width: nat, signed: bool, little: bool)

  ghost predicate Sized(p: IntPacker) {
    1 <= p.width <= 64
  }

  // ---- bits of a buffer -------------------------------------------------------------------

  /** T_PCK_BIT_GET */
  function BitGet(b: byte, n: nat): (v: nat)
    requires n < 8
    ensures v < 2
  {
    Bit(b, 7 - n)
  }

  /** T_PCK_BIT_SET */
  function BitSet(b: byte, n: nat, v: bool): (r: byte)
    requires n < 8
  {
    assert Pow2(8) == 256;
    Pow2Monotone(7 - n, 7);
    OrBound(b, Pow2(7 - n), 8);
    AndNotBound(b, Pow2(7 - n));
    if v then Or(b, Pow2(7 - n)) else AndNot(b, Pow2(7 - n))
  }

  lemma BitGetSet(b: byte, n: nat, v: bool, m: nat)
    requires n < 8 && m < 8
    ensures BitGet(BitSet(b, n, v), m) == if m == n then (if v then 1 else 0) else BitGet(b, m)
  {
    hide Or, AndNot, Pow2, Bit;
    Pow2Bit(7 - n, 7 - m);
    OrBit(b, Pow2(7 - n), 7 - m);
    AndNotBit(b, Pow2(7 - n), 7 - m);
  }

  function BitAt(b: seq<byte>, k: nat): (v: nat)
    requires k < 8 * |b|
    ensures v < 2
  {
    BitGet(b[k / 8], k % 8)
  }

  /** Which bit of the number the i-th bit of the field is: most significant first, except
      that a byte-aligned little-endian field reverses its bytes. */
  function Significance(p: IntPacker, at: nat, i: nat): (k: nat)
    requires i < p.width
    ensures k < p.width
  {
    if at % 8 != 0 || p.width % 8 != 0 || !p.little then p.width - 1 - i
    else assert i / 8 <= p.width / 8 - 1; 8 * (i / 8) + 7 - i % 8
  }

  /** The position of bit k of the number; `Significance` is its own inverse. */
  lemma SignificanceInverse(p: IntPacker, at: nat, i: nat)
    requires i < p.width
    ensures Significance(p, at, Significance(p, at, i)) == i
  {
    if at % 8 == 0 && p.width % 8 == 0 && p.little {
      ByteAndBit(i / 8, 7 - i % 8);
    }
  }

  lemma ByteAndBit(q: nat, r: nat)
    requires r < 8
    ensures (8 * q + r) / 8 == q && (8 * q + r) % 8 == r
  {
  }

  lemma SignificanceBig(p: IntPacker, at: nat, i: nat)
    requires i < p.width && (at % 8 != 0 || p.width % 8 != 0 || !p.little)
    ensures Significance(p, at, i) == p.width - 1 - i
  {
  }

  /** At a byte border: which byte of the number holds the bit, and where. */
  lemma SignificanceAligned(p: IntPacker, base: nat, i: nat)
    requires i < p.width && p.width % 8 == 0
    ensures var j := if p.little then i / 8 else p.width / 8 - 1 - i / 8;
            j >= 0 && Significance(p, 8 * base, i) == 8 * j + (7 - i % 8)
  {
    var q := p.width / 8;
    assert p.width == 8 * q && i == 8 * (i / 8) + i % 8;
  }

  ghost predicate Inside(b: seq<byte>, p: IntPacker, at: nat) {
    at + p.width <= 8 * |b|
  }

  /** The number `v` is what the bits of the field spell. */
  ghost predicate Spells(b: seq<byte>, p: IntPacker, at: nat, v: nat) {
    && Inside(b, p, at)
    && v < Pow2(p.width)
    && forall i | 0 <= i < p.width :: Bit(v, Significance(p, at, i)) == BitAt(b, at + i)
  }

  lemma SpellsUnique(b: seq<byte>, p: IntPacker, at: nat, v: nat, w: nat)
    requires Spells(b, p, at, v) && Spells(b, p, at, w)
    ensures v == w
  {
    forall k | 0 <= k < p.width
      ensures Bit(v, k) == Bit(w, k)
    {
      SignificanceInverse(p, at, k);
      var i := Significance(p, at, k);
      assert Bit(v, Significance(p, at, i)) == BitAt(b, at + i);
    }
    SameBits(v, w, p.width);
  }

  // ---- words in memory ---------------------------------------------------------------------

  /** The bytes of a word as a little-endian host stores it. */
  function LittleWord(m: seq<byte>): nat {
    if m == [] then 0 else m[0] + 256 * LittleWord(m[1..])
  }

  function BigWord(m: seq<byte>): nat {
    if m == [] then 0 else 256 * BigWord(m[..|m| - 1]) + m[|m| - 1]
  }

  function ByteOf(v: nat, i: nat): byte {
    Shr(v, 8 * i) % 256
  }

  lemma ByteOfBit(v: nat, i: nat, j: nat)
    requires j < 8
    ensures Bit(ByteOf(v, i), j) == Bit(v, 8 * i + j)
  {
    hide Bit;
    BitMod8(Shr(v, 8 * i), j);
    ShrBit(v, 8 * i, j);
  }

  lemma BytePlus(d: byte, r: nat, k: nat)
    ensures Bit(d + 256 * r, k) == if k < 8 then Bit(d, k) else Bit(r, k - 8)
  {
    hide Bit;
    var x := d + 256 * r;
    if k < 8 {
      BitMod8(x, k);
    } else {
      BitDiv8(x, k - 8);
    }
  }

  lemma {:induction false} LittleWordBit(m: seq<byte>, k: nat)
    ensures LittleWord(m) < Pow2(8 * |m|)
    ensures Bit(LittleWord(m), k) == if k < 8 * |m| then Bit(m[k / 8], k % 8) else 0
    decreases |m|
  {
    hide Bit, Pow2;
    if m == [] {
      assert Pow2(0) == 1 by { Pow2Add(0, 0); }
      BitHigh(0, 0, k);
    } else {
      var r := LittleWord(m[1..]);
      BytePlus(m[0], r, k);
      LittleWordBit(m[1..], if k < 8 then 0 else k - 8);
      LittleWordBound(m[0], r, 8 * (|m| - 1));
    }
  }

  lemma LittleWordBound(d: byte, r: nat, n: nat)
    requires r < Pow2(n)
    ensures d + 256 * r < Pow2(8 + n)
  {
    Pow2Add(8, n);
    assert Pow2(8) == 256;
  }

  function Reverse(m: seq<byte>): (r: seq<byte>)
    ensures |r| == |m|
  {
    seq(|m|, i requires 0 <= i < |m| => m[|m| - 1 - i])
  }

  /** Big-endian is little-endian on the reversed bytes. */
  lemma {:induction false} BigIsReversedLittle(m: seq<byte>)
    ensures BigWord(m) == LittleWord(Reverse(m))
    decreases |m|
  {
    if m != [] {
      var init := m[..|m| - 1];
      BigIsReversedLittle(init);
      assert Reverse(m)[1..] == Reverse(init);
    }
  }

  // ---- the three read paths -----------------------------------------------------------------

  /** How many bytes the bit-wise path copies. */
  function SpanBytes(width: nat, ofs: nat): nat
    requires width > 0
  {
    (width + ofs - 1) / 8 + 1
  }

  /** What the bit-wise path computes from the copied bytes, on 64-bit words. */
  function ShiftOut(val: nat, bytes: nat, width: nat, ofs: nat): nat
    requires 1 <= width && bytes <= 8 && width + ofs <= 8 * bytes
  {
    Shr(val * Pow2(64 - bytes * 8 + ofs) % Pow2(64), 64 - width)
  }

  /** Main result: the shift-and-mask reader spells the field. */
  lemma ShiftOutSpells(b: seq<byte>, base: nat, p: IntPacker, ofs: nat)
    requires Sized(p) && ofs < 8 && ofs + p.width <= 64
    requires ofs != 0 || p.width % 8 != 0 || !p.little
    requires base + SpanBytes(p.width, ofs) <= |b|
    ensures var n := SpanBytes(p.width, ofs);
            Spells(b, p, 8 * base + ofs, ShiftOut(BigWord(b[base..base + n]), n, p.width, ofs))
  {
    hide ShiftOut, Pow2, Bit, BitAt, BigWord, Significance, SpanBytes;
    var n, w := SpanBytes(p.width, ofs), p.width;
    SpanCovers(w, ofs);
    var val := BigWord(b[base..base + n]);
    ShiftOutBound(val, n, w, ofs);
    var at := 8 * base + ofs;
    ByteAndBit(base, ofs);
    forall i | 0 <= i < w
      ensures Bit(ShiftOut(val, n, w, ofs), Significance(p, at, i)) == BitAt(b, at + i)
    {
      SignificanceBig(p, at, i);
      ShiftOutBit(b, base, n, w, ofs, i);
    }
  }

  lemma ShiftOutBound(val: nat, bytes: nat, w: nat, ofs: nat)
    requires 1 <= w && bytes <= 8 && w + ofs <= 8 * bytes
    ensures ShiftOut(val, bytes, w, ofs) < Pow2(w)
  {
    hide Shr, Pow2;
    ShrBound(val * Pow2(64 - bytes * 8 + ofs) % Pow2(64), 64 - w, w);
  }

  lemma SpanCovers(w: nat, ofs: nat)
    requires 1 <= w && ofs < 8
    ensures ofs + w <= 8 * SpanBytes(w, ofs)
    ensures ofs + w <= 64 ==> SpanBytes(w, ofs) <= 8
  {
  }

  lemma ShiftOutBit(b: seq<byte>, base: nat, n: nat, w: nat, ofs: nat, i: nat)
    requires 1 <= w && n <= 8 && w + ofs <= 8 * n && base + n <= |b| && i < w
    ensures Bit(ShiftOut(BigWord(b[base..base + n]), n, w, ofs), w - 1 - i) == BitAt(b, 8 * base + ofs + i)
  {
    hide Shr, Pow2, Bit, BitAt;
    var k := w - 1 - i;
    var val, l := BigWord(b[base..base + n]), 64 - n * 8 + ofs;
    ShrBit(val * Pow2(l) % Pow2(64), 64 - w, k);
    BitMod(val * Pow2(l), 64, 64 - w + k);
    BitShl(val, l, 64 - w + k);
    assert 64 - w + k - l == 8 * n - 1 - (ofs + i);
    BigWordBit(b, base, n, ofs + i);
  }

  /** The bytes of a big-endian word hold its bits most significant first. */
  lemma BigWordBit(b: seq<byte>, base: nat, n: nat, i: nat)
    requires base + n <= |b| && i < 8 * n
    ensures Bit(BigWord(b[base..base + n]), 8 * n - 1 - i) == BitAt(b, 8 * base + i)
  {
    hide Bit;
    var m := b[base..base + n];
    BigIsReversedLittle(m);
    LittleWordBit(Reverse(m), 8 * n - 1 - i);
    var k := 8 * n - 1 - i;
    assert k / 8 == n - 1 - i / 8 && k % 8 == 7 - i % 8;
    assert Reverse(m)[k / 8] == b[base + i / 8];
    assert (8 * base + i) / 8 == base + i / 8 && (8 * base + i) % 8 == i % 8;
  }

  lemma AlignedSpells(b: seq<byte>, base: nat, p: IntPacker)
    requires Sized(p) && p.width % 8 == 0
    requires base + p.width / 8 <= |b|
    ensures var m := b[base..base + p.width / 8];
            Spells(b, p, 8 * base, if p.little then LittleWord(m) else BigWord(m))
  {
    hide Bit, BitAt, Reverse;
    var n := p.width / 8;
    var m := b[base..base + n];
    BigIsReversedLittle(m);
    LittleWordBit(m, 0);
    LittleWordBit(Reverse(m), 0);
    forall i | 0 <= i < p.width
      ensures Bit(if p.little then LittleWord(m) else BigWord(m), Significance(p, 8 * base, i))
              == BitAt(b, 8 * base + i)
    {
      if p.little {
        LittleBit(b, base, n, i);
      } else {
        BigWordBit(b, base, n, i);
      }
    }
  }

  lemma LittleBit(b: seq<byte>, base: nat, n: nat, i: nat)
    requires base + n <= |b| && i < 8 * n
    ensures Bit(LittleWord(b[base..base + n]), 8 * (i / 8) + 7 - i % 8) == BitAt(b, 8 * base + i)
  {
    hide Bit;
    var k := 8 * (i / 8) + 7 - i % 8;
    assert k / 8 == i / 8 && k % 8 == 7 - i % 8;
    LittleWordBit(b[base..base + n], k);
    AlignedBit(b, base, i);
  }

  lemma AlignedBit(b: seq<byte>, base: nat, i: nat)
    requires 8 * base + i < 8 * |b|
    ensures BitAt(b, 8 * base + i) == Bit(b[base + i / 8], 7 - i % 8)
  {
    assert (8 * base + i) / 8 == base + i / 8 && (8 * base + i) % 8 == i % 8;
  }

  // ---- the number in a field -------------------------------------------------------------------

  /** The sum of the field's bits from bit `k` of the number on. */
  function Collect(b: seq<byte>, p: IntPacker, at: nat, k: nat): (v: nat)
    requires Inside(b, p, at) && k <= p.width
    ensures v < Pow2(p.width - k)
    decreases p.width - k
  {
    if k == p.width then 0
    else BitAt(b, at + Significance(p, at, k)) + 2 * Collect(b, p, at, k + 1)
  }

  lemma BitOfDouble(d: nat, v: nat, j: nat)
    requires d < 2
    ensures Bit(d + 2 * v, j) == if j == 0 then d else Bit(v, j - 1)
  {
  }

  lemma {:induction false} CollectBit(b: seq<byte>, p: IntPacker, at: nat, k: nat, j: nat)
    requires Inside(b, p, at) && k <= p.width && j < p.width - k
    ensures Bit(Collect(b, p, at, k), j) == BitAt(b, at + Significance(p, at, k + j))
    decreases j
  {
    hide Bit, BitAt, Pow2, Significance;
    BitOfDouble(BitAt(b, at + Significance(p, at, k)), Collect(b, p, at, k + 1), j);
    if j > 0 {
      CollectBit(b, p, at, k + 1, j - 1);
    }
  }

  /** The unsigned number in the field. */
  function Raw(b: seq<byte>, p: IntPacker, at: nat): (v: nat)
    requires Inside(b, p, at)
    ensures v < Pow2(p.width)
  {
    Collect(b, p, at, 0)
  }

  lemma RawSpells(b: seq<byte>, p: IntPacker, at: nat)
    requires Inside(b, p, at)
    ensures Spells(b, p, at, Raw(b, p, at))
  {
    forall i | 0 <= i < p.width
      ensures Bit(Raw(b, p, at), Significance(p, at, i)) == BitAt(b, at + i)
    {
      SignificanceInverse(p, at, i);
      CollectBit(b, p, at, 0, Significance(p, at, i));
    }
  }

  /** At a byte border the shift-and-mask reader and the big-endian byte copy give the same number. */
  lemma BorderAgrees(m: seq<byte>)
    requires 1 <= |m| <= 8
    ensures ShiftOut(BigWord(m), |m|, 8 * |m|, 0) == BigWord(m)
  {
    hide ShiftOut, BigWord, Spells;
    var p := IntPacker(8 * |m|, false, false);
    assert SpanBytes(p.width, 0) == |m| && m[0..0 + |m|] == m;
    ShiftOutSpells(m, 0, p, 0);
    AlignedSpells(m, 0, p);
    SpellsUnique(m, p, 0, ShiftOut(BigWord(m), |m|, p.width, 0), BigWord(m));
  }

  /** And the little-endian byte copy gives it for the bytes in reverse. */
  lemma BorderAgreesReversed(m: seq<byte>)
    requires 1 <= |m| <= 8
    ensures ShiftOut(BigWord(Reverse(m)), |m|, 8 * |m|, 0) == LittleWord(m)
  {
    hide ShiftOut, BigWord, LittleWord;
    BorderAgrees(Reverse(m));
    BigIsReversedLittle(Reverse(m));
    ReverseTwice(m);
  }

  lemma ReverseTwice(m: seq<byte>)
    ensures Reverse(Reverse(m)) == m
  {
    assert forall i | 0 <= i < |m| :: Reverse(Reverse(m))[i] == m[i];
  }

  // ---- signs -----------------------------------------------------------------------------------

  const TWO63 := 0x8000_0000_0000_0000
  const TWO64 := 0x1_0000_0000_0000_0000

  /** lua_Unsigned to lua_Integer and back. */
  function ToInteger(x: nat): int {
    if x >= TWO63 then x - TWO64 else x
  }

  function ToUnsigned(i: int): nat
    requires -TWO63 <= i
  {
    if i < 0 then i + TWO64 else i
  }

  /** The value of a raw number: two's complement for signed packers. */
  function ValueOf(p: IntPacker, v: nat): int
    requires p.width > 0
  {
    if !p.signed then ToInteger(v)
    else if v >= Pow2(p.width - 1) then v - Pow2(p.width) else v
  }

  /** The C expression behind `ValueOf`: ((val ^ msk) - msk) on 64-bit words. */
  lemma SignExtension(v: nat, w: nat)
    requires 1 <= w <= 64 && v < Pow2(w)
    ensures ToInteger((Xor(v, Pow2(w - 1)) - Pow2(w - 1)) % TWO64)
            == if v >= Pow2(w - 1) then v - Pow2(w) else v
  {
    hide Xor, Bit;
    var m := Pow2(w - 1);
    assert Pow2(w) == 2 * m;
    assert m <= TWO63 by {
      Powers();
      Pow2Monotone(w - 1, 63);
    }
    XorPow2(v, w - 1);
    if v >= m {
      TopBitSet(v, w);
      assert (v - m - m) % TWO64 == v - m - m + TWO64;
    } else {
      BitHigh(v, w - 1, w - 1);
      assert (v + m - m) % TWO64 == v;
    }
  }

  lemma TopBitSet(v: nat, w: nat)
    requires w > 0 && Pow2(w - 1) <= v < Pow2(w)
    ensures Bit(v, w - 1) == 1
  {
    BitIsDiv(v, w - 1);
    DivMod(1, Pow2(w - 1), v - Pow2(w - 1));
  }

  /** The values a packer of at most 63 bits accepts. */
  predicate Fits(p: IntPacker, i: int)
    requires p.width > 0
  {
    if p.signed then 0 - Pow2(p.width - 1) <= i < Pow2(p.width - 1) else 0 <= i < Pow2(p.width)
  }

  function ToRaw(p: IntPacker, i: int): (v: nat)
    requires p.width > 0 && Fits(p, i)
    ensures v < Pow2(p.width)
  {
    if i < 0 then i + Pow2(p.width) else i
  }

  /** Storing and loading the raw number is the identity on every value that fits. */
  lemma ValueOfToRaw(p: IntPacker, i: int)
    requires 1 <= p.width <= 63 && Fits(p, i)
    ensures ValueOf(p, ToRaw(p, i)) == i
  {
    Powers();
    Pow2Monotone(p.width, 63);
  }

  /** `val` in t_pck_setIntValue. */
  function SetWord(p: IntPacker, i: int): nat
    requires 1 <= p.width <= 63 && -TWO63 <= i < TWO63
  {
    var msk := Pow2(p.width - 1);
    if p.signed && i < 0 then Xor((ToUnsigned(i) + msk) % TWO64, msk) else ToUnsigned(i)
  }

  function SetLimit(p: IntPacker, i: int): nat
    requires 1 <= p.width
  {
    if p.signed && i >= 0 then p.width - 1 else p.width
  }

  lemma ShrZero(v: nat, n: nat)
    ensures Shr(v, n) == 0 <==> v < Pow2(n)
  {
    if v < Pow2(n) {
      ShrSmall(v, n);
    } else {
      ShrIsDiv(v, n);
      DivMod(v / Pow2(n), Pow2(n), v % Pow2(n));
    }
  }

  /** Main result: the range check accepts exactly the values that fit, and then stores their
      two's complement. */
  lemma RangeCheck(p: IntPacker, i: int)
    requires 1 <= p.width <= 63 && -TWO63 <= i < TWO63
    ensures Shr(SetWord(p, i), SetLimit(p, i)) == 0 <==> Fits(p, i)
    ensures Fits(p, i) ==> SetWord(p, i) == ToRaw(p, i)
  {
    hide Xor, Bit, Shr;
    var w, m := p.width, Pow2(p.width - 1);
    assert Pow2(w) == 2 * m;
    assert 2 * m <= TWO63 by {
      Powers();
      Pow2Monotone(w, 63);
    }
    ShrZero(SetWord(p, i), SetLimit(p, i));
    if p.signed && i < 0 {
      var y := (ToUnsigned(i) + m) % TWO64;
      XorPow2(y, w - 1);
      if -m <= i {
        assert y == i + m;
        BitHigh(y, w - 1, w - 1);
      } else {
        assert y == i + m + TWO64;
      }
    }
  }

  // ---- writing ---------------------------------------------------------------------------------

  /** `b1` is `b0` with the number `v` stored in the field and nothing else changed. */
  ghost predicate Stored(b0: seq<byte>, b1: seq<byte>, p: IntPacker, at: nat, v: nat) {
    && |b1| == |b0|
    && Spells(b1, p, at, v)
    && forall k | 0 <= k < 8 * |b0| && !(at <= k < at + p.width) :: BitAt(b1, k) == BitAt(b0, k)
  }

  /** Two's complement: a signed field reads as its number or as that less 2^width, whichever is in range. */
  lemma SignedRange(p: IntPacker, v: nat)
    requires Sized(p) && p.signed && v < Pow2(p.width)
    ensures 0 - Pow2(p.width - 1) <= ValueOf(p, v) < Pow2(p.width - 1)
    ensures ValueOf(p, v) == v || ValueOf(p, v) == v - Pow2(p.width)
  {
    assert Pow2(p.width) == 2 * Pow2(p.width - 1);
  }

  /** An unsigned field reads as its number, except that 64 bits come as a signed integer. */
  lemma UnsignedRange(p: IntPacker, v: nat)
    requires Sized(p) && !p.signed && v < Pow2(p.width)
    ensures p.width <= 63 ==> ValueOf(p, v) == v
    ensures -TWO63 <= ValueOf(p, v) < TWO63 && (ValueOf(p, v) == v || ValueOf(p, v) == v - TWO64)
  {
    Powers();
    Pow2Monotone(p.width, 64);
    if p.width <= 63 {
      Pow2Monotone(p.width, 63);
    }
  }

  /** Main result: what can be written is exactly what can be read, and it is stored as the bits it was read from. */
  lemma FitsIsReadable(p: IntPacker, i: int)
    requires 1 <= p.width <= 63
    ensures Fits(p, i) <==> exists v: nat :: v < Pow2(p.width) && ValueOf(p, v) == i
  {
    hide Fits, ToRaw, ValueOf;
    if Fits(p, i) {
      ValueOfToRaw(p, i);
    }
    forall v: nat | v < Pow2(p.width) && ValueOf(p, v) == i
      ensures Fits(p, i)
    {
      ReadFits(p, v);
    }
  }

  lemma ReadFits(p: IntPacker, v: nat)
    requires 1 <= p.width <= 63 && v < Pow2(p.width)
    ensures Fits(p, ValueOf(p, v)) && ToRaw(p, ValueOf(p, v)) == v
  {
    if p.signed {
      SignedRange(p, v);
    } else {
      UnsignedRange(p, v);
    }
  }

  /** Main result: what was stored is read back. */
  lemma ReadBack(b0: seq<byte>, b1: seq<byte>, p: IntPacker, at: nat, i: int)
    requires 1 <= p.width <= 63 && Fits(p, i)
    requires Stored(b0, b1, p, at, ToRaw(p, i))
    ensures ValueOf(p, Raw(b1, p, at)) == i
  {
    RawSpells(b1, p, at);
    SpellsUnique(b1, p, at, Raw(b1, p, at), ToRaw(p, i));
    ValueOfToRaw(p, i);
  }

  /** A field that shares no bit with the one written keeps its number. */
  lemma Undisturbed(b0: seq<byte>, b1: seq<byte>, p: IntPacker, at: nat, v: nat, q: IntPacker, qat: nat)
    requires Stored(b0, b1, p, at, v) && Inside(b0, q, qat)
    requires qat + q.width <= at || at + p.width <= qat
    ensures Raw(b1, q, qat) == Raw(b0, q, qat)
  {
    RawSpells(b0, q, qat);
    RawSpells(b1, q, qat);
    assert Spells(b1, q, qat, Raw(b0, q, qat));
    SpellsUnique(b1, q, qat, Raw(b0, q, qat), Raw(b1, q, qat));
  }

  lemma SetBitAt(b: seq<byte>, j: nat, n: nat, v: bool, k: nat)
    requires j < |b| && n < 8 && k < 8 * |b|
    ensures BitAt(b[j := BitSet(b[j], n, v)], k)
            == if k == 8 * j + n then (if v then 1 else 0) else BitAt(b, k)
  {
    hide BitSet, BitGet;
    if k / 8 == j {
      BitGetSet(b[j], n, v, k % 8);
    }
  }

  // ---- the C functions --------------------------------------------------------------------------

  function Copied(m: seq<byte>, isLittle: bool): (r: seq<byte>)
    ensures |r| == |m|
  {
    if isLittle then Reverse(m) else m
  }

  lemma CopiedAt(m: seq<byte>, isLittle: bool, k: nat)
    requires k < |m|
    ensures Copied(m, isLittle)[k] == if isLittle then m[|m| - 1 - k] else m[k]
  {
  }

  /** The first `k` bytes of `c` have replaced those from `d` on. */
  ghost predicate Copying(was: seq<byte>, d: nat, c: seq<byte>, k: nat, now: seq<byte>) {
    d + |c| <= |was| && k <= |c| && now == was[..d] + c[..k] + was[d + k..]
  }

  lemma CopyingStart(was: seq<byte>, d: nat, c: seq<byte>)
    requires d + |c| <= |was|
    ensures Copying(was, d, c, 0, was)
  {
  }

  lemma CopyingStep(was: seq<byte>, d: nat, c: seq<byte>, k: nat, now: seq<byte>)
    requires Copying(was, d, c, k, now) && k < |c|
    ensures d + k < |now| && Copying(was, d, c, k + 1, now[d + k := c[k]])
  {
    var next := was[..d] + c[..k + 1] + was[d + k + 1..];
    assert forall i | 0 <= i < |was| :: next[i] == now[d + k := c[k]][i];
  }

  lemma CopyingEnd(was: seq<byte>, d: nat, c: seq<byte>, now: seq<byte>)
    requires Copying(was, d, c, |c|, now)
    ensures now == was[..d] + c + was[d + |c|..]
  {
    assert c[..|c|] == c;
  }

  /** t_pck_copyBytes on a little-endian host: "little" sources are copied backwards. */
  method CopyBytes(dst: array<byte>, d: nat, src: array<byte>, s: nat, size: nat, isLittle: bool)
    requires dst != src && d + size <= dst.Length && s + size <= src.Length
    modifies dst
    ensures dst[..] == old(dst[..d]) + Copied(src[s..s + size], isLittle) + old(dst[d + size..])
  {
    hide Copied, Copying;
    ghost var was, m := dst[..], src[s..s + size];
    ghost var c := Copied(m, isLittle);
    var sz, to := size, d;
    CopyingStart(was, d, c);
    while sz != 0
      invariant 0 <= sz <= size && to == d + (size - sz) && Copying(was, d, c, size - sz, dst[..])
    {
      sz := sz - 1;
      CopiedAt(m, isLittle, size - sz - 1);
      CopyingStep(was, d, c, size - sz - 1, dst[..]);
      dst[to] := if isLittle then src[s + sz] else src[s + size - 1 - sz];
      to := to + 1;
    }
    CopyingEnd(was, d, c, dst[..]);
  }

  /** Zero bytes above do not change a little-endian word. */
  lemma {:induction false} ZeroPadded(m: seq<byte>, z: seq<byte>)
    requires forall i | 0 <= i < |z| :: z[i] == 0
    ensures LittleWord(m + z) == LittleWord(m)
    decreases |m| + |z|
  {
    if m == [] {
      if z != [] {
        assert (m + z)[1..] == [] + z[1..];
        ZeroPadded([], z[1..]);
      }
    } else {
      assert (m + z)[1..] == m[1..] + z;
      ZeroPadded(m[1..], z);
    }
  }

  lemma LoadCopied(m: seq<byte>, isLittle: bool, z: seq<byte>)
    requires forall i | 0 <= i < |z| :: z[i] == 0
    ensures LittleWord(Copied(m, isLittle) + z) == if isLittle then BigWord(m) else LittleWord(m)
  {
    ZeroPadded(Copied(m, isLittle), z);
    BigIsReversedLittle(m);
  }

  /** Copies bytes into a zeroed lua_Unsigned and looks at it as a word. */
  method Load(b: array<byte>, base: nat, size: nat, isLittle: bool) returns (val: nat)
    requires size <= 8 && base + size <= b.Length
    ensures val == if isLittle then BigWord(b[base..base + size]) else LittleWord(b[base..base + size])
  {
    var out := new byte[8](_ => 0);
    ghost var z := out[size..];
    CopyBytes(out, 0, b, base, size, isLittle);
    val := LittleWord(out[..]);
    LoadCopied(b[base..base + size], isLittle, z);
    assert out[..] == Copied(b[base..base + size], isLittle) + z;
  }

  /** The two branches of t_pck_getIntValue. */
  method GetRaw(b: array<byte>, base: nat, p: IntPacker, ofs: nat) returns (val: nat)
    requires Sized(p) && ofs < 8 && ofs + p.width <= 64
    requires 8 * base + ofs + p.width <= 8 * b.Length
    ensures Inside(b[..], p, 8 * base + ofs)
    ensures val == Raw(b[..], p, 8 * base + ofs)
  {
    hide BigWord, LittleWord, Spells, ShiftOut, Raw;
    ghost var s := b[..];
    if ofs != 0 || p.width % 8 != 0 {
      var bytes := SpanBytes(p.width, ofs);
      val := Load(b, base, bytes, true);
      val := ShiftOut(val, bytes, p.width, ofs);
      assert s[base..base + bytes] == b[base..base + bytes];
      ShiftOutSpells(s, base, p, ofs);
    } else {
      val := Load(b, base, p.width / 8, !p.little);
      assert s[base..base + p.width / 8] == b[base..base + p.width / 8];
      AlignedSpells(s, base, p);
    }
    RawSpells(s, p, 8 * base + ofs);
    SpellsUnique(s, p, 8 * base + ofs, val, Raw(s, p, 8 * base + ofs));
  }

  /** t_pck_getIntValue; `base` and `ofs` are the byte and bit part of the position. */
  method GetIntValue(b: array<byte>, base: nat, p: IntPacker, ofs: nat) returns (i: int)
    requires Sized(p) && ofs < 8 && ofs + p.width <= 64
    requires 8 * base + ofs + p.width <= 8 * b.Length
    ensures Inside(b[..], p, 8 * base + ofs)
    ensures i == ValueOf(p, Raw(b[..], p, 8 * base + ofs))
  {
    hide Raw, Pow2, Xor;
    var val := GetRaw(b, base, p, ofs);
    if p.signed {
      var msk := Pow2(p.width - 1);
      SignExtension(val, p.width);
      i := ToInteger((Xor(val, msk) - msk) % TWO64);
    } else {
      i := ToInteger(val);
    }
  }

  /** t_pck_setIntValue; answers whether the value was accepted. */
  method SetIntValue(b: array<byte>, base: nat, p: IntPacker, ofs: nat, i: int) returns (ok: bool)
    requires 1 <= p.width <= 63 && ofs < 8 && -TWO63 <= i < TWO63
    requires 8 * base + ofs + p.width <= 8 * b.Length
    modifies b
    ensures ok <==> Fits(p, i)
    ensures ok ==> Stored(old(b[..]), b[..], p, 8 * base + ofs, ToRaw(p, i))
    ensures !ok ==> b[..] == old(b[..])
  {
    hide Stored, SetWord, Shr, Fits, Copied;
    var val := SetWord(p, i);
    RangeCheck(p, i);
    if Shr(val, SetLimit(p, i)) != 0 {
      return false;
    }
    if ofs != 0 || p.width % 8 != 0 {
      SetBits(b, base, p, ofs, val);
    } else {
      var n := p.width / 8;
      var mem := new byte[8](j requires 0 <= j < 8 => ByteOf(val, j));
      ghost var b0, m := b[..], mem[0..n];
      CopyBytes(b, base, mem, 0, n, !p.little);
      assert b[..] == b0[..base] + Copied(m, !p.little) + b0[base + n..];
      CopiedIsStored(b0, base, p, val, m);
    }
    ok := true;
  }

  /** Reading a field and writing the number back is accepted and changes nothing. */
  method WriteBack(b: array<byte>, base: nat, p: IntPacker, ofs: nat) returns (i: int, ok: bool)
    requires 1 <= p.width <= 63 && ofs < 8 && ofs + p.width <= 64
    requires 8 * base + ofs + p.width <= 8 * b.Length
    modifies b
    ensures ok && b[..] == old(b[..]) && i == ValueOf(p, Raw(old(b[..]), p, 8 * base + ofs))
  {
    hide Raw, ValueOf, Stored, Fits, ToRaw, Pow2;
    ghost var b0, at := b[..], 8 * base + ofs;
    i := GetIntValue(b, base, p, ofs);
    ReadFits(p, Raw(b0, p, at));
    IntegerRange(p, Raw(b0, p, at));
    ok := SetIntValue(b, base, p, ofs, i);
    StoredSame(b0, b[..], p, at);
  }

  lemma IntegerRange(p: IntPacker, v: nat)
    requires 1 <= p.width <= 63 && v < Pow2(p.width)
    ensures -TWO63 <= ValueOf(p, v) < TWO63
  {
    hide ValueOf;
    Powers();
    Pow2Monotone(p.width - 1, 63);
    if p.signed {
      SignedRange(p, v);
    } else {
      UnsignedRange(p, v);
    }
  }

  /** Storing the number that is there. */
  lemma StoredSame(b0: seq<byte>, b1: seq<byte>, p: IntPacker, at: nat)
    requires Inside(b0, p, at) && Stored(b0, b1, p, at, Raw(b0, p, at))
    ensures b1 == b0
  {
    hide Bit, BitAt, Raw, Significance, Pow2;
    RawSpells(b0, p, at);
    forall k | 0 <= k < 8 * |b0|
      ensures BitAt(b1, k) == BitAt(b0, k)
    {
      if at <= k < at + p.width {
        assert k == at + (k - at);
        assert Bit(Raw(b0, p, at), Significance(p, at, k - at)) == BitAt(b1, at + (k - at));
        assert Bit(Raw(b0, p, at), Significance(p, at, k - at)) == BitAt(b0, at + (k - at));
      }
    }
    SameBytes(b0, b1);
  }

  lemma SameBytes(a: seq<byte>, b: seq<byte>)
    requires |a| == |b| && forall k | 0 <= k < 8 * |a| :: BitAt(a, k) == BitAt(b, k)
    ensures a == b
  {
    hide Bit;
    forall j | 0 <= j < |a|
      ensures a[j] == b[j]
    {
      forall m | 0 <= m < 8
        ensures Bit(a[j], m) == Bit(b[j], m)
      {
        ByteAndBit(j, 7 - m);
        assert BitAt(a, 8 * j + (7 - m)) == BitAt(b, 8 * j + (7 - m));
      }
      assert Pow2(8) == 256;
      SameBits(a[j], b[j], 8);
    }
  }

  lemma CopiedIsStored(b0: seq<byte>, base: nat, p: IntPacker, val: nat, m: seq<byte>)
    requires 8 <= p.width <= 64 && p.width % 8 == 0 && val < Pow2(p.width)
    requires base + p.width / 8 <= |b0|
    requires |m| == p.width / 8 && forall j | 0 <= j < |m| :: m[j] == ByteOf(val, j)
    ensures Stored(b0, b0[..base] + Copied(m, !p.little) + b0[base + |m|..], p, 8 * base, val)
  {
    hide Bit, ByteOf, Copied, Significance, BitAt;
    var c := Copied(m, !p.little);
    var b1 := b0[..base] + c + b0[base + |m|..];
    forall i | 0 <= i < p.width
      ensures Bit(val, Significance(p, 8 * base, i)) == BitAt(b1, 8 * base + i)
    {
      var j := if p.little then i / 8 else |m| - 1 - i / 8;
      SignificanceAligned(p, base, i);
      AlignedBit(b1, base, i);
      CopiedAt(m, !p.little, i / 8);
      assert b1[base + i / 8] == c[i / 8] == m[j];
      ByteOfBit(val, j, 7 - i % 8);
    }
    forall k | 0 <= k < 8 * |b0| && !(8 * base <= k < 8 * base + p.width)
      ensures BitAt(b1, k) == BitAt(b0, k)
    {
      OutsideCopy(b0, base, c, k);
    }
  }

  lemma OutsideCopy(b0: seq<byte>, base: nat, c: seq<byte>, k: nat)
    requires base + |c| <= |b0| && k < 8 * |b0| && !(8 * base <= k < 8 * (base + |c|))
    ensures BitAt(b0[..base] + c + b0[base + |c|..], k) == BitAt(b0, k)
  {
    hide BitGet;
    assert (b0[..base] + c + b0[base + |c|..])[k / 8] == b0[k / 8];
  }

  /** The state of the bit loop after `done` bits. */
  ghost predicate Progress(b0: seq<byte>, b: seq<byte>, w: nat, at: nat, val: nat, done: nat)
    requires done <= w && at + w <= 8 * |b0|
  {
    && |b| == |b0|
    && forall k | 0 <= k < 8 * |b0| ::
         BitAt(b, k) == if at <= k < at + done then Bit(val, w - 1 - (k - at)) else BitAt(b0, k)
  }

  lemma ProgressStep(b0: seq<byte>, b: seq<byte>, w: nat, at: nat, val: nat, done: nat, j: nat, n: nat)
    requires done < w && at + w <= 8 * |b0|
    requires Progress(b0, b, w, at, val, done)
    requires at + done == 8 * j + n && n < 8
    ensures Progress(b0, b[j := BitSet(b[j], n, Shr(val, w - 1 - done) % 2 == 1)], w, at, val, done + 1)
  {
    hide BitSet, Bit, Shr, BitAt;
    var v := Shr(val, w - 1 - done) % 2 == 1;
    var b2 := b[j := BitSet(b[j], n, v)];
    ShrParity(val, w - 1 - done);
    forall k | 0 <= k < 8 * |b0|
      ensures BitAt(b2, k) == if at <= k < at + (done + 1) then Bit(val, w - 1 - (k - at)) else BitAt(b0, k)
    {
      SetBitAt(b, j, n, v, k);
      if k == at + done {
        assert Bit(val, w - 1 - (k - at)) == Bit(val, w - 1 - done);
      }
    }
    assert Progress(b0, b2, w, at, val, done + 1);
  }

  /** The bit loop of t_pck_setIntValue. */
  method SetBits(b: array<byte>, base: nat, p: IntPacker, ofs: nat, val: nat)
    requires 1 <= p.width <= 63 && ofs < 8 && val < Pow2(p.width)
    requires ofs != 0 || p.width % 8 != 0
    requires 8 * base + ofs + p.width <= 8 * b.Length
    modifies b
    ensures Stored(old(b[..]), b[..], p, 8 * base + ofs, val)
  {
    hide BitAt, BitSet, Bit, Shr, Pow2, Progress;
    ghost var at, w := 8 * base + ofs, p.width;
    ghost var b0 := b[..];
    ProgressStart(b0, w, at, val);
    var n, o := p.width, ofs;
    while n > 0
      invariant 0 <= n <= w && o == ofs + (w - n)
      invariant Progress(b0, b[..], w, at, val, w - n)
    {
      var j := base + o / 8;
      ghost var was := b[..];
      ProgressStep(b0, was, w, at, val, w - n, j, o % 8);
      b[j] := BitSet(b[j], o % 8, Shr(val, n - 1) % 2 == 1);
      assert b[..] == was[j := BitSet(was[j], o % 8, Shr(val, n - 1) % 2 == 1)];
      o := o + 1;
      n := n - 1;
    }
    ProgressDone(b0, b[..], p, at, val);
  }

  lemma ProgressStart(b0: seq<byte>, w: nat, at: nat, val: nat)
    requires at + w <= 8 * |b0|
    ensures Progress(b0, b0, w, at, val, 0)
  {
  }

  lemma ProgressDone(b0: seq<byte>, b1: seq<byte>, p: IntPacker, at: nat, val: nat)
    requires Inside(b0, p, at) && val < Pow2(p.width)
    requires at % 8 != 0 || p.width % 8 != 0
    requires Progress(b0, b1, p.width, at, val, p.width)
    ensures Stored(b0, b1, p, at, val)
  {
    hide Bit, BitAt, Pow2;
    forall i | 0 <= i < p.width
      ensures Bit(val, Significance(p, at, i)) == BitAt(b1, at + i)
    {
      assert Significance(p, at, i) == p.width - 1 - i;
    }
    forall k | 0 <= k < 8 * |b0| && !(at <= k < at + p.width)
      ensures BitAt(b1, k) == BitAt(b0, k)
    {
    }
  }

  lemma ShrParity(v: nat, n: nat)
    ensures Shr(v, n) % 2 == Bit(v, n)
  {
    ShrBit(v, n, 0);
    assert Bit(Shr(v, n), 0) == Shr(v, n) % 2;
  }
}
