/** What a right-shifting register holds after the bytes of a word, its own and its complement's. */
module CrcResidue {
  import opened Words
  import opened CrcTheory

  /** The lowest `n` bytes of a number, low byte first. */
  function LowBytes(v: nat, n: nat): (m: seq<byte>)
    ensures |m| == n
    decreases n
  {
    if n == 0 then [] else [v % 256] + LowBytes(v / 256, n - 1)
  }

  /** Feeding the bytes of a word is adding it to the register and shifting it through. */
  lemma {:induction false} FeedLowBytes(poly: nat, c: nat, v: nat, n: nat)
    requires v < Pow2(8 * n)
    ensures FeedAll(poly, c, LowBytes(v, n)) == Shifts(poly, Xor(c, v), 8 * n)
    decreases n
  {
    hide Xor, Shifts, Feed;
    if n == 0 {
      XorZero(c);
      ShiftsNone(poly, c);
    } else {
      Pow2Add(8, 8 * (n - 1));
      assert Pow2(8) == 256;
      FeedLowByte(poly, c, v);
      var m := LowBytes(v, n);
      assert m[1..] == LowBytes(v / 256, n - 1);
      FeedLowBytes(poly, Feed(poly, c, v % 256), v / 256, n - 1);
      ShiftsPlus(poly, Xor(c, v), 8, 8 * (n - 1));
    }
  }

  lemma ShiftsNone(poly: nat, c: nat)
    ensures Shifts(poly, c, 0) == c
  {
  }

  lemma FeedLowByte(poly: nat, c: nat, v: nat)
    ensures Shifts(poly, Xor(c, v), 8) == Xor(Feed(poly, c, v % 256), v / 256)
  {
    hide Xor, Shifts;
    var q, r := v / 256, v % 256;
    assert v == q * 256 + r;
    XorDisjoint(q, r);
    XorComm(q * 256, r);
    XorAssoc(c, r, q * 256);
    ShiftsXor(poly, Xor(c, r), q * 256, 8);
    assert Pow2(8) == 256;
    ShiftsClear(poly, q, 8);
  }

  lemma {:induction false} ShiftsPlus(poly: nat, c: nat, m: nat, n: nat)
    ensures Shifts(poly, c, m + n) == Shifts(poly, Shifts(poly, c, m), n)
    decreases m
  {
    hide Shift;
    if m > 0 {
      ShiftsPlus(poly, Shift(poly, c), m - 1, n);
    }
  }

  lemma {:induction false} ShiftsOfZero(poly: nat, n: nat)
    ensures Shifts(poly, 0, n) == 0
    decreases n
  {
    if n > 0 {
      ShiftsOfZero(poly, n - 1);
    }
  }

  /** A register fed with its own bytes is cleared. */
  lemma OwnBytes(poly: nat, c: nat, n: nat)
    requires c < Pow2(8 * n)
    ensures FeedAll(poly, c, LowBytes(c, n)) == 0
  {
    hide Xor, Shifts, FeedAll;
    FeedLowBytes(poly, c, c, n);
    XorSelf(c);
    ShiftsOfZero(poly, 8 * n);
  }

  /** A 32-bit register fed with the bytes of its complement ends at the residue of CRC-32. */
  lemma ComplementBytes(c: nat)
    requires c < 0x1_0000_0000
    ensures FeedAll(POLY_32, c, LowBytes(0xffff_ffff - c, 4)) == 0xdebb_20e3
  {
    hide Xor, Shifts, FeedAll;
    assert Pow2(32) == 0x1_0000_0000 by { Powers(); }
    FeedLowBytes(POLY_32, c, 0xffff_ffff - c, 4);
    XorComplement(c, 32);
    ResidueFirst(23);
    ResidueSecond(16);
    ResidueThird(5);
    ResidueLast(0);
    ShiftsNone(POLY_32, 0xdebb_20e3);
  }

  lemma {:induction false} XorComplement(c: nat, n: nat)
    requires c < Pow2(n)
    ensures Xor(c, Pow2(n) - 1 - c) == Pow2(n) - 1
    decreases n
  {
    hide Xor;
    if n == 0 {
      XorZero(0);
    } else {
      var d := Pow2(n) - 1 - c;
      XorHalf(c, d);
      HalfComplement(c, Pow2(n - 1));
      assert Pow2(n) == 2 * Pow2(n - 1);
      hide Pow2;
      XorComplement(c / 2, n - 1);
    }
  }

  lemma HalfComplement(c: nat, p: nat)
    requires c < 2 * p
    ensures c / 2 < p && (2 * p - 1 - c) / 2 == p - 1 - c / 2 && (2 * p - 1) % 2 == 1
  {
  }

  // ---- thirty-two shifts of a word of ones ------------------------------------------------------

  /** A 32-bit word by its hexadecimal digits. */
  function Hex(a7: nat, a6: nat, a5: nat, a4: nat, a3: nat, a2: nat, a1: nat, a0: nat): nat {
    0x1000_0000 * a7 + 0x100_0000 * a6 + 0x10_0000 * a5 + 0x1_0000 * a4 + 0x1000 * a3 + 0x100 * a2 + 0x10 * a1 + a0
  }

  function Rest(x: nat, w: nat): nat {
    if x >= w then x - w else x
  }

  function Weight(x: nat, y: nat, w: nat): nat {
    if (x >= w) == (y >= w) then 0 else w
  }

  /** The exclusive or of two digits. */
  function XorDigit(x: nat, y: nat): nat {
    var x4, y4 := Rest(x, 8), Rest(y, 8);
    var x2, y2 := Rest(x4, 4), Rest(y4, 4);
    Weight(x, y, 8) + Weight(x4, y4, 4) + Weight(x2, y2, 2) + Weight(Rest(x2, 2), Rest(y2, 2), 1)
  }

  /** One more bit behind two numbers. */
  lemma XorAppend(a: nat, b: nat, x: nat, y: nat)
    requires x < 2 && y < 2
    ensures Xor(2 * a + x, 2 * b + y) == 2 * Xor(a, b) + Weight(x, y, 1)
  {
    hide Xor;
    XorHalf(2 * a + x, 2 * b + y);
  }

  /** One more digit. */
  lemma XorAppendDigit(a: nat, b: nat, x: nat, y: nat)
    requires x < 16 && y < 16
    ensures Xor(16 * a + x, 16 * b + y) == 16 * Xor(a, b) + XorDigit(x, y)
  {
    hide Xor;
    var x4, y4 := Rest(x, 8), Rest(y, 8);
    var x2, y2 := Rest(x4, 4), Rest(y4, 4);
    var x1, y1 := Rest(x2, 2), Rest(y2, 2);
    var a3, b3 := 2 * a + (if x >= 8 then 1 else 0), 2 * b + (if y >= 8 then 1 else 0);
    var a2, b2 := 2 * a3 + (if x4 >= 4 then 1 else 0), 2 * b3 + (if y4 >= 4 then 1 else 0);
    var a1, b1 := 2 * a2 + (if x2 >= 2 then 1 else 0), 2 * b2 + (if y2 >= 2 then 1 else 0);
    XorAppend(a, b, a3 - 2 * a, b3 - 2 * b);
    XorAppend(a3, b3, a2 - 2 * a3, b2 - 2 * b3);
    XorAppend(a2, b2, a1 - 2 * a2, b1 - 2 * b2);
    XorAppend(a1, b1, x1, y1);
  }

  lemma XorPoly32(a7: nat, a6: nat, a5: nat, a4: nat, a3: nat, a2: nat, a1: nat, a0: nat)
    requires a7 < 16 && a6 < 16 && a5 < 16 && a4 < 16 && a3 < 16 && a2 < 16 && a1 < 16 && a0 < 16
    ensures Xor(Hex(a7, a6, a5, a4, a3, a2, a1, a0), POLY_32)
            == Hex(XorDigit(a7, 14), XorDigit(a6, 13), XorDigit(a5, 11), XorDigit(a4, 8),
                   XorDigit(a3, 8), XorDigit(a2, 3), XorDigit(a1, 2), XorDigit(a0, 0))
  {
    hide Xor, XorDigit;
    XorZero(0);
    var h1 := 16 * 0 + a7;
    XorAppendDigit(0, 0, a7, 0xe);
    var h2 := 16 * h1 + a6;
    XorAppendDigit(h1, 0xe, a6, 0xd);
    var h3 := 16 * h2 + a5;
    XorAppendDigit(h2, 0xed, a5, 0xb);
    var h4 := 16 * h3 + a4;
    XorAppendDigit(h3, 0xedb, a4, 0x8);
    var h5 := 16 * h4 + a3;
    XorAppendDigit(h4, 0xedb8, a3, 0x8);
    var h6 := 16 * h5 + a2;
    XorAppendDigit(h5, 0xedb88, a2, 0x3);
    var h7 := 16 * h6 + a1;
    XorAppendDigit(h6, 0xedb883, a1, 0x2);
    XorAppendDigit(h7, 0xedb8832, a0, 0x0);
  }

  lemma OddStep(a7: nat, a6: nat, a5: nat, a4: nat, a3: nat, a2: nat, a1: nat, a0: nat, n: nat)
    requires a7 < 16 && a6 < 16 && a5 < 16 && a4 < 16 && a3 < 16 && a2 < 16 && a1 < 16 && a0 < 16
    ensures Shifts(POLY_32, 2 * Hex(a7, a6, a5, a4, a3, a2, a1, a0) + 1, n + 1)
            == Shifts(POLY_32, Hex(XorDigit(a7, 14), XorDigit(a6, 13), XorDigit(a5, 11), XorDigit(a4, 8),
                                   XorDigit(a3, 8), XorDigit(a2, 3), XorDigit(a1, 2), XorDigit(a0, 0)), n)
  {
    hide Xor, XorDigit;
    XorPoly32(a7, a6, a5, a4, a3, a2, a1, a0);
    var v := Hex(a7, a6, a5, a4, a3, a2, a1, a0);
    assert (2 * v + 1) % 2 == 1 && (2 * v + 1) / 2 == v;
  }

  lemma EvenSteps(v: nat, k: nat, n: nat)
    ensures Shifts(POLY_32, v * Pow2(k), n + k) == Shifts(POLY_32, v, n)
  {
    hide Shifts;
    ShiftsPlus(POLY_32, v * Pow2(k), k, n);
    ShiftsClear(POLY_32, v, k);
  }

  lemma ResidueFirst(n: nat)
    ensures Shifts(POLY_32, 0xffff_ffff, n + 9) == Shifts(POLY_32, 0x16fe_8839, n)
  {
    hide Shifts;
    OddStep(7, 0xf, 0xf, 0xf, 0xf, 0xf, 0xf, 0xf, n + 8);
    OddStep(4, 9, 2, 3, 0xb, 0xe, 6, 0xf, n + 7);
    OddStep(5, 2, 4, 0xd, 9, 0xe, 0xa, 7, n + 6);
    OddStep(5, 0xf, 0xf, 0xa, 8, 0xe, 0xc, 3, n + 5);
    OddStep(5, 9, 2, 1, 0, 6, 0xf, 1, n + 4);
    OddStep(5, 0xa, 4, 0xc, 0xc, 2, 0xe, 8, n + 3);
    EvenSteps(0x16fe_8839, 3, n);
  }

  lemma ResidueSecond(n: nat)
    ensures Shifts(POLY_32, 0x16fe_8839, n + 7) == Shifts(POLY_32, 0xbe26_ed00, n)
  {
    hide Shifts;
    OddStep(0, 0xb, 7, 0xf, 4, 4, 1, 0xc, n + 6);
    EvenSteps(0x39b1_f1cf, 2, n + 4);
    OddStep(1, 0xc, 0xd, 8, 0xf, 8, 0xe, 7, n + 3);
    OddStep(7, 8, 0xb, 0, 3, 0xd, 0xe, 3, n + 2);
    OddStep(4, 0xa, 8, 4, 5, 0xf, 6, 1, n + 1);
    OddStep(5, 3, 9, 0xe, 6, 0xe, 2, 0, n);
  }

  lemma ResidueThird(n: nat)
    ensures Shifts(POLY_32, 0xbe26_ed00, n + 11) == Shifts(POLY_32, 0xd6c1_6735, n)
  {
    hide Shifts;
    EvenSteps(0x00be_26ed, 8, n + 3);
    OddStep(0, 0, 5, 0xf, 1, 3, 7, 6, n + 2);
    EvenSteps(0x76f3_c82b, 1, n + 1);
    OddStep(3, 0xb, 7, 9, 0xe, 4, 1, 5, n);
  }

  lemma ResidueLast(n: nat)
    ensures Shifts(POLY_32, 0xd6c1_6735, n + 5) == Shifts(POLY_32, 0xdebb_20e3, n)
  {
    hide Shifts;
    OddStep(6, 0xb, 6, 0, 0xb, 3, 9, 0xa, n + 4);
    EvenSteps(0x436c_185d, 1, n + 3);
    OddStep(2, 1, 0xb, 6, 0, 0xc, 2, 0xe, n + 2);
    EvenSteps(0x6607_4787, 1, n + 1);
    OddStep(3, 3, 0, 3, 0xa, 3, 0xc, 3, n);
  }
}
