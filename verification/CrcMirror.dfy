/** The register that shifts left (CCITT).

    Mirroring a word end to end turns a left shift into a right shift, so the CCITT register
    is the mirror image of a reflected one fed with mirrored bytes, and everything proved in
    `CrcTheory` carries over. */
module CrcMirror {
  import opened Gf2
  import opened Words
  import opened CrcTheory

  /** A left-shifting generator: the word holds x^(w-1) .. x^0 and x^0 is set. */
  ghost predicate Leftward(poly: nat, w: nat) {
    w >= 8 && poly < Pow2(w) && poly % 2 == 1
  }

  function ShiftLeft(poly: nat, w: nat, c: nat): nat
    requires w > 0
  {
    (if Bit(c, w - 1) == 1 then Xor(2 * c, poly) else 2 * c) % Pow2(w)
  }

  function ShiftsLeft(poly: nat, w: nat, c: nat, n: nat): nat
    requires w > 0
    decreases n
  {
    if n == 0 then c else ShiftsLeft(poly, w, ShiftLeft(poly, w, c), n - 1)
  }

  function FeedLeft(poly: nat, w: nat, c: nat, d: byte): nat
    requires w >= 8
  {
    ShiftsLeft(poly, w, Xor(c, d * Pow2(w - 8)), 8)
  }

  function FeedAllLeft(poly: nat, w: nat, c: nat, msg: seq<byte>): nat
    requires w >= 8
    decreases |msg|
  {
    if msg == [] then c else FeedAllLeft(poly, w, FeedLeft(poly, w, c, msg[0]), msg[1..])
  }

  // ---- mirror images ------------------------------------------------------------------------

  /** The `w` bits of a word, most significant first. */
  function BitsDown(c: nat, w: nat): (bits: Poly)
    ensures |bits| == w
  {
    seq(w, i requires 0 <= i < w => Bit(c, w - 1 - i) == 1)
  }

  function Mirror(c: nat, w: nat): (m: nat)
    ensures m < Pow2(w)
  {
    Pack(BitsDown(c, w))
  }

  function MirrorBytes(msg: seq<byte>): seq<byte> {
    if msg == [] then [] else assert Pow2(8) == 256; [Mirror(msg[0], 8)] + MirrorBytes(msg[1..])
  }

  /** A message as a bit string, the most significant bit of each byte first. */
  function MessageBitsDown(msg: seq<byte>): Poly {
    if msg == [] then [] else BitsDown(msg[0], 8) + MessageBitsDown(msg[1..])
  }

  lemma {:induction false} MessageBitsDownConcat(a: seq<byte>, b: seq<byte>)
    ensures MessageBitsDown(a + b) == MessageBitsDown(a) + MessageBitsDown(b)
    decreases |a|
  {
    if a == [] {
      assert a + b == b;
    } else {
      assert (a + b)[1..] == a[1..] + b;
      MessageBitsDownConcat(a[1..], b);
    }
  }

  lemma {:induction false} MessageBitsDownInjective(a: seq<byte>, b: seq<byte>)
    requires |a| == |b|
    ensures |MessageBitsDown(a)| == |MessageBitsDown(b)| == 8 * |a|
    ensures MessageBitsDown(a) == MessageBitsDown(b) ==> a == b
    decreases |a|
  {
    if a != [] {
      hide Pow2;
      MessageBitsDownInjective(a[1..], b[1..]);
      if MessageBitsDown(a) == MessageBitsDown(b) {
        assert MessageBitsDown(a)[..8] == BitsDown(a[0], 8) && MessageBitsDown(b)[..8] == BitsDown(b[0], 8);
        assert MessageBitsDown(a)[8..] == MessageBitsDown(a[1..]) && MessageBitsDown(b)[8..] == MessageBitsDown(b[1..]);
        assert Pow2(8) == 256 by { Powers(); }
        MirrorInjective(a[0], b[0], 8);
        assert a == [a[0]] + a[1..] && b == [b[0]] + b[1..];
      }
    }
  }

  lemma MirrorBit(c: nat, w: nat, k: nat)
    requires k < w
    ensures Bit(Mirror(c, w), k) == Bit(c, w - 1 - k)
  {
    PackBit(BitsDown(c, w), k);
  }

  lemma BitsOfMirror(c: nat, w: nat)
    ensures WordBits(Mirror(c, w), w) == BitsDown(c, w)
  {
    UnpackPack(BitsDown(c, w));
  }

  lemma MirrorInjective(a: nat, b: nat, w: nat)
    requires a < Pow2(w) && b < Pow2(w) && Mirror(a, w) == Mirror(b, w)
    ensures a == b
  {
    forall k | 0 <= k < w
      ensures Bit(a, k) == Bit(b, k)
    {
      MirrorBit(a, w, w - 1 - k);
      MirrorBit(b, w, w - 1 - k);
    }
    SameBits(a, b, w);
  }

  lemma MirrorXor(a: nat, b: nat, w: nat)
    ensures Mirror(Xor(a, b), w) == Xor(Mirror(a, w), Mirror(b, w))
  {
    hide Xor, Mirror, Bit, Pow2;
    XorBound(Mirror(a, w), Mirror(b, w), w);
    forall k | 0 <= k < w
      ensures Bit(Mirror(Xor(a, b), w), k) == Bit(Xor(Mirror(a, w), Mirror(b, w)), k)
    {
      MirrorBit(Xor(a, b), w, k);
      MirrorBit(a, w, k);
      MirrorBit(b, w, k);
      XorBit(a, b, w - 1 - k);
      XorBit(Mirror(a, w), Mirror(b, w), k);
    }
    SameBits(Mirror(Xor(a, b), w), Xor(Mirror(a, w), Mirror(b, w)), w);
  }

  lemma MirrorReflects(poly: nat, w: nat)
    requires Leftward(poly, w)
    ensures Reflected(Mirror(poly, w), w)
  {
    var m := Mirror(poly, w);
    MirrorBit(poly, w, w - 1);
    if m < Pow2(w - 1) {
      BitHigh(m, w - 1, w - 1);
      assert false;
    }
  }

  /** A byte sits at the top of one register and at the bottom of its mirror image. */
  lemma MirrorTopByte(d: byte, w: nat)
    requires w >= 8
    ensures Mirror(d * Pow2(w - 8), w) == Mirror(d, 8)
  {
    Pow2Monotone(8, w);
    Powers();
    forall k | 0 <= k < w
      ensures Bit(Mirror(d * Pow2(w - 8), w), k) == Bit(Mirror(d, 8), k)
    {
      MirrorBit(d * Pow2(w - 8), w, k);
      BitShl(d, w - 8, w - 1 - k);
      if k < 8 {
        MirrorBit(d, 8, k);
      } else {
        BitHigh(Mirror(d, 8), 8, k);
      }
    }
    SameBits(Mirror(d * Pow2(w - 8), w), Mirror(d, 8), w);
  }

  lemma DoubleBit(c: nat, j: nat)
    ensures Bit(2 * c, j) == if j == 0 then 0 else Bit(c, j - 1)
  {
  }

  lemma ShiftLeftBit(poly: nat, w: nat, c: nat, j: nat)
    requires w > 0 && j < w
    ensures Bit(ShiftLeft(poly, w, c), j)
            == ((if j == 0 then 0 else Bit(c, j - 1)) + Bit(c, w - 1) * Bit(poly, j)) % 2
  {
    hide Xor, Pow2, Bit;
    DoubleBit(c, j);
    XorBit(2 * c, poly, j);
    BitMod(2 * c, w, j);
    BitMod(Xor(2 * c, poly), w, j);
  }

  lemma MirrorShift(poly: nat, w: nat, c: nat)
    requires Leftward(poly, w) && c < Pow2(w)
    ensures Mirror(ShiftLeft(poly, w, c), w) == Shift(Mirror(poly, w), Mirror(c, w))
  {
    var p, m := Mirror(poly, w), Mirror(c, w);
    MirrorReflects(poly, w);
    ShiftBound(p, w, m);
    MirrorBit(c, w, 0);
    forall k | 0 <= k < w
      ensures Bit(Mirror(ShiftLeft(poly, w, c), w), k) == Bit(Shift(p, m), k)
    {
      MirrorShiftBit(poly, w, c, k);
    }
    SameBits(Mirror(ShiftLeft(poly, w, c), w), Shift(p, m), w);
  }

  lemma MirrorShiftBit(poly: nat, w: nat, c: nat, k: nat)
    requires Leftward(poly, w) && c < Pow2(w) && k < w
    ensures Bit(Mirror(ShiftLeft(poly, w, c), w), k) == Bit(Shift(Mirror(poly, w), Mirror(c, w)), k)
  {
    hide Xor, Mirror, ShiftLeft, Pow2;
    var p, m := Mirror(poly, w), Mirror(c, w);
    var j := w - 1 - k;
    MirrorBit(ShiftLeft(poly, w, c), w, k);
    ShiftLeftBit(poly, w, c, j);
    MirrorBit(c, w, 0);
    assert m % 2 == Bit(m, 0);
    XorBit(m / 2, p, k);
    MirrorBit(poly, w, k);
    assert Bit(m / 2, k) == Bit(m, k + 1);
    if k + 1 < w {
      MirrorBit(c, w, k + 1);
    } else {
      BitHigh(m, w, w);
    }
  }

  lemma {:induction false} MirrorShifts(poly: nat, w: nat, c: nat, n: nat)
    requires Leftward(poly, w) && c < Pow2(w)
    ensures ShiftsLeft(poly, w, c, n) < Pow2(w)
    ensures Mirror(ShiftsLeft(poly, w, c, n), w) == Shifts(Mirror(poly, w), Mirror(c, w), n)
    decreases n
  {
    if n > 0 {
      MirrorShift(poly, w, c);
      MirrorShifts(poly, w, ShiftLeft(poly, w, c), n - 1);
    }
  }

  lemma TopByteBound(c: nat, d: byte, w: nat)
    requires w >= 8 && c < Pow2(w)
    ensures d * Pow2(w - 8) < Pow2(w)
    ensures Xor(c, d * Pow2(w - 8)) < Pow2(w)
  {
    Pow2Add(8, w - 8);
    assert Pow2(8) == 256;
    hide Pow2, Xor;
    var p := Pow2(w - 8);
    assert d * p < 256 * p by {
      MulAtLeast(256 - d, p);
    }
    XorBound(c, d * p, w);
  }

  /** The CCITT register is the mirror image of a reflected one fed with mirrored bytes. */
  lemma {:induction false} FeedAllMirror(poly: nat, w: nat, c: nat, msg: seq<byte>)
    requires Leftward(poly, w) && c < Pow2(w)
    ensures FeedAllLeft(poly, w, c, msg) < Pow2(w)
    ensures Mirror(FeedAllLeft(poly, w, c, msg), w)
            == FeedAll(Mirror(poly, w), Mirror(c, w), MirrorBytes(msg))
    decreases |msg|
  {
    if msg != [] {
      var d := msg[0];
      TopByteBound(c, d, w);
      MirrorShifts(poly, w, Xor(c, d * Pow2(w - 8)), 8);
      MirrorXor(c, d * Pow2(w - 8), w);
      MirrorTopByte(d, w);
      FeedAllMirror(poly, w, FeedLeft(poly, w, c, d), msg[1..]);
    }
  }

  lemma {:induction false} MirrorMessageBits(msg: seq<byte>)
    ensures MessageBits(MirrorBytes(msg)) == MessageBitsDown(msg)
    decreases |msg|
  {
    if msg != [] {
      BitsOfMirror(msg[0], 8);
      MirrorMessageBits(msg[1..]);
      assert MirrorBytes(msg)[1..] == MirrorBytes(msg[1..]);
    }
  }

  // ---- what carries over -----------------------------------------------------------------------

  lemma LeftRegisterIsRemainder(poly: nat, w: nat, c: nat, msg: seq<byte>)
    requires Leftward(poly, w) && c < Pow2(w)
    ensures BitsDown(FeedAllLeft(poly, w, c, msg), w)
            == Remainder(XorPrefix(MessageBitsDown(msg) + Zeros(w), BitsDown(c, w)), [true] + BitsDown(poly, w))
  {
    MirrorReflects(poly, w);
    FeedAllMirror(poly, w, c, msg);
    RegisterIsRemainder(Mirror(poly, w), w, Mirror(c, w), MirrorBytes(msg));
    MirrorMessageBits(msg);
    BitsOfMirror(poly, w);
    BitsOfMirror(c, w);
    BitsOfMirror(FeedAllLeft(poly, w, c, msg), w);
  }

  lemma LeftBurstDetected(poly: nat, w: nat, c: nat, a: seq<byte>, b: seq<byte>, p: Poly, x: Poly, y: Poly, s: Poly)
    requires Leftward(poly, w) && c < Pow2(w)
    requires MessageBitsDown(a) == p + x + s && MessageBitsDown(b) == p + y + s
    requires |x| == |y| <= w && x != y
    ensures FeedAllLeft(poly, w, c, a) != FeedAllLeft(poly, w, c, b)
  {
    MirrorReflects(poly, w);
    FeedAllMirror(poly, w, c, a);
    FeedAllMirror(poly, w, c, b);
    MirrorMessageBits(a);
    MirrorMessageBits(b);
    BurstDetected(Mirror(poly, w), w, Mirror(c, w), MirrorBytes(a), MirrorBytes(b), p, x, y, s);
  }

  lemma {:induction false} FeedAllLeftConcat(poly: nat, w: nat, c: nat, a: seq<byte>, b: seq<byte>)
    requires w >= 8
    ensures FeedAllLeft(poly, w, c, a + b) == FeedAllLeft(poly, w, FeedAllLeft(poly, w, c, a), b)
    decreases |a|
  {
    if a == [] {
      assert a + b == b;
    } else {
      assert (a + b)[1..] == a[1..] + b;
      FeedAllLeftConcat(poly, w, FeedLeft(poly, w, c, a[0]), a[1..], b);
    }
  }

  // ---- the table step ------------------------------------------------------------------------------

  lemma ShiftLeftXor(poly: nat, w: nat, a: nat, b: nat)
    requires Leftward(poly, w) && a < Pow2(w) && b < Pow2(w)
    ensures ShiftLeft(poly, w, Xor(a, b)) == Xor(ShiftLeft(poly, w, a), ShiftLeft(poly, w, b))
    ensures Xor(a, b) < Pow2(w)
  {
    var l, r := ShiftLeft(poly, w, Xor(a, b)), Xor(ShiftLeft(poly, w, a), ShiftLeft(poly, w, b));
    XorBound(a, b, w);
    XorBound(ShiftLeft(poly, w, a), ShiftLeft(poly, w, b), w);
    MirrorShift(poly, w, Xor(a, b));
    MirrorShift(poly, w, a);
    MirrorShift(poly, w, b);
    MirrorXor(a, b, w);
    ShiftXor(Mirror(poly, w), Mirror(a, w), Mirror(b, w));
    MirrorXor(ShiftLeft(poly, w, a), ShiftLeft(poly, w, b), w);
    MirrorInjective(l, r, w);
  }

  lemma {:induction false} ShiftsLeftXor(poly: nat, w: nat, a: nat, b: nat, n: nat)
    requires Leftward(poly, w) && a < Pow2(w) && b < Pow2(w)
    ensures ShiftsLeft(poly, w, Xor(a, b), n) == Xor(ShiftsLeft(poly, w, a, n), ShiftsLeft(poly, w, b, n))
    decreases n
  {
    if n > 0 {
      ShiftLeftXor(poly, w, a, b);
      ShiftsLeftXor(poly, w, ShiftLeft(poly, w, a), ShiftLeft(poly, w, b), n - 1);
    }
  }

  lemma ShiftLeftClear(poly: nat, w: nat, c: nat)
    requires w > 0 && 2 * c < Pow2(w)
    ensures ShiftLeft(poly, w, c) == 2 * c
  {
    hide Xor;
    var p := Pow2(w - 1);
    assert Pow2(w) == 2 * p;
    assert c < p;
    BitHigh(c, w - 1, w - 1);
    DivMod(0, 2 * p, 2 * c);
  }

  /** A word whose upper byte is clear just moves up by a byte. */
  lemma ShiftsLeftClear(poly: nat, c: nat)
    requires c < 256
    ensures ShiftsLeft(poly, 16, c, 8) == c * 256
  {
    Powers();
    MoveFour(poly, c);
    MoveFour(poly, c * 16);
    ShiftsLeftPlus(poly, c, 4, 4);
  }

  lemma MoveFour(poly: nat, c: nat)
    requires c < 0x1000
    ensures ShiftsLeft(poly, 16, c, 4) == c * 16
  {
    hide ShiftLeft;
    Powers();
    ShiftLeftClear(poly, 16, c);
    ShiftLeftClear(poly, 16, c * 2);
    ShiftLeftClear(poly, 16, c * 4);
    ShiftLeftClear(poly, 16, c * 8);
    assert ShiftsLeft(poly, 16, c * 8, 1) == c * 16;
    assert ShiftsLeft(poly, 16, c * 4, 2) == c * 16;
    assert ShiftsLeft(poly, 16, c * 2, 3) == c * 16;
  }

  lemma {:induction false} ShiftsLeftPlus(poly: nat, c: nat, m: nat, n: nat)
    ensures ShiftsLeft(poly, 16, c, m + n) == ShiftsLeft(poly, 16, ShiftsLeft(poly, 16, c, m), n)
    decreases m
  {
    if m > 0 {
      ShiftsLeftPlus(poly, ShiftLeft(poly, 16, c), m - 1, n);
    }
  }

  /** The table step for the 16-bit register. */
  lemma LeftTableStep(poly: nat, c: nat, d: byte)
    requires Leftward(poly, 16) && c < 0x10000
    ensures Xor(c / 256, d) < 256
    ensures FeedLeft(poly, 16, c, d)
            == Xor(c * 256, ShiftsLeft(poly, 16, Xor(c / 256, d) * 256, 8)) % 0x10000
  {
    hide Xor;
    var i, l := Xor(c / 256, d), c % 256;
    assert i < 256 by {
      Powers();
      XorBound(c / 256, d, 8);
    }
    XorTopByte(c, d);
    Powers();
    SplitShifts(poly, i, l);
    var t := ShiftsLeft(poly, 16, i * 256, 8);
    WrapXor(c, t);
  }

  lemma SplitShifts(poly: nat, i: nat, l: nat)
    requires Leftward(poly, 16) && i < 256 && l < 256
    ensures ShiftsLeft(poly, 16, i * 256, 8) < 0x10000
    ensures ShiftsLeft(poly, 16, Xor(i * 256, l), 8) == Xor(l * 256, ShiftsLeft(poly, 16, i * 256, 8))
  {
    hide Xor, ShiftsLeft;
    Powers();
    ShiftsLeftXor(poly, 16, i * 256, l, 8);
    ShiftsLeftClear(poly, l);
    MirrorShifts(poly, 16, i * 256, 8);
    XorComm(ShiftsLeft(poly, 16, i * 256, 8), l * 256);
  }

  lemma WrapXor(c: nat, t: nat)
    requires t < 0x10000
    ensures Xor(c * 256, t) % 0x10000 == Xor(c % 256 * 256, t)
  {
    hide Xor;
    XorMod16(c * 256, t);
  }

  lemma XorTopByte(c: nat, d: byte)
    ensures Xor(c, d * 256) == Xor(Xor(c / 256, d) * 256, c % 256)
  {
    XorHighLow(c, d * 256, d);
  }

  lemma XorHighLow(c: nat, e: nat, d: nat)
    requires e / 256 == d && e % 256 == 0
    ensures Xor(c, e) == Xor(Xor(c / 256, d) * 256, c % 256)
  {
    hide Xor;
    SplitLowByte(Xor(c, e));
    XorDiv8(c, e);
    XorMod8(c, e);
    XorZero(c % 256);
  }
}
