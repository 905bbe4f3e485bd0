/** Cyclic redundancy codes as polynomial long division over GF(2).

    A polynomial is the string of its coefficients, highest power first.  `Remainder` is
    schoolbook long division on such strings and knows nothing of registers, tables or
    bytes; everything `t_enc_crc.c` computes is proved to be such a remainder. */
module Gf2 {

  type Poly = seq<bool>

  /** Adds `g` to the leading coefficients of `d`. */
  function XorPrefix(d: Poly, g: Poly): (r: Poly)
    requires |g| <= |d|
    ensures |r| == |d|
  {
    seq(|d|, i requires 0 <= i < |d| => if i < |g| then d[i] != g[i] else d[i])
  }

  function Zeros(n: nat): (z: Poly)
    ensures |z| == n
  {
    seq(n, i => false)
  }

  /** One step of long division: cancel the leading coefficient and drop it. */
  function DivideStep(d: Poly, g: Poly): (r: Poly)
    requires 0 < |g| <= |d|
    ensures |r| == |d| - 1
  {
    if d[0] then XorPrefix(d, g)[1..] else d[1..]
  }

  /** The remainder of `d` divided by the polynomial `g` (of degree |g| - 1). */
  function Remainder(d: Poly, g: Poly): (r: Poly)
    requires |g| > 0 && g[0]
    requires |d| >= |g| - 1
    ensures |r| == |g| - 1
    decreases |d|
  {
    if |d| < |g| then d else Remainder(DivideStep(d, g), g)
  }
}

/** The shift registers of `t_enc_crc.c`, for any width `w` and any generator whose lowest
    and highest coefficients are set. */
module CrcTheory {
  import opened Gf2
  import opened Words

  const POLY_16 := 0xA001
  const POLY_CCITT_KRM := 0x8408
  const POLY_CCIT := 4129
  const POLY_32 := 0xedb88320

  /** A reflected generator: the word holds the coefficients of x^(w-1) .. x^0, least
      significant bit first, and x^0 is set. */
  ghost predicate Reflected(poly: nat, w: nat) {
    w > 0 && Pow2(w - 1) <= poly < Pow2(w)
  }

  // ---- registers that shift right (CRC-16, Kermit, CRC-32) -------------------------

  function Shift(poly: nat, c: nat): nat {
    if c % 2 == 1 then Xor(c / 2, poly) else c / 2
  }

  function Shifts(poly: nat, c: nat, n: nat): nat
    decreases n
  {
    if n == 0 then c else Shifts(poly, Shift(poly, c), n - 1)
  }

  /** The register after one byte. */
  function Feed(poly: nat, c: nat, d: byte): nat {
    Shifts(poly, Xor(c, d), 8)
  }

  /** The register after a whole message. */
  function FeedAll(poly: nat, c: nat, msg: seq<byte>): nat
    decreases |msg|
  {
    if msg == [] then c else FeedAll(poly, Feed(poly, c, msg[0]), msg[1..])
  }

  lemma ShiftXor(poly: nat, a: nat, b: nat)
    ensures Shift(poly, Xor(a, b)) == Xor(Shift(poly, a), Shift(poly, b))
  {
    hide Xor;
    XorHalf(a, b);
    AddTaps(a / 2, b / 2, poly);
  }

  lemma AddTaps(x: nat, y: nat, poly: nat)
    ensures Xor(Xor(x, poly), Xor(y, poly)) == Xor(x, y)
    ensures Xor(Xor(x, poly), y) == Xor(Xor(x, y), poly)
    ensures Xor(x, Xor(y, poly)) == Xor(Xor(x, y), poly)
  {
    hide Xor;
    XorSwap(x, poly, y, poly);
    XorSelf(poly);
    XorZero(Xor(x, y));
    XorAssoc(x, y, poly);
    XorComm(y, poly);
    XorAssoc(x, poly, y);
  }

  lemma {:induction false} ShiftsXor(poly: nat, a: nat, b: nat, n: nat)
    ensures Shifts(poly, Xor(a, b), n) == Xor(Shifts(poly, a, n), Shifts(poly, b, n))
    decreases n
  {
    if n > 0 {
      ShiftXor(poly, a, b);
      ShiftsXor(poly, Shift(poly, a), Shift(poly, b), n - 1);
    }
  }

  lemma ShiftBound(poly: nat, w: nat, a: nat)
    requires Reflected(poly, w) && a < Pow2(w)
    ensures Shift(poly, a) < Pow2(w)
  {
    XorBound(a / 2, poly, w);
  }

  /** The feedback sets the top bit, so it can be seen in the result. */
  lemma ShiftTopBit(poly: nat, w: nat, a: nat)
    requires Reflected(poly, w) && a < Pow2(w)
    ensures Bit(Shift(poly, a), w - 1) == a % 2
  {
    BitHigh(a / 2, w - 1, w - 1);
    if a % 2 == 1 {
      TopBit(poly, w);
      XorBit(a / 2, poly, w - 1);
    }
  }

  lemma TopBit(v: nat, w: nat)
    requires w > 0 && Pow2(w - 1) <= v < Pow2(w)
    ensures Bit(v, w - 1) == 1
  {
    BitIsDiv(v, w - 1);
    DivMod(1, Pow2(w - 1), v - Pow2(w - 1));
  }

  lemma ShiftInjective(poly: nat, w: nat, a: nat, b: nat)
    requires Reflected(poly, w) && a < Pow2(w) && b < Pow2(w)
    requires Shift(poly, a) == Shift(poly, b)
    ensures a == b
  {
    ShiftTopBit(poly, w, a);
    ShiftTopBit(poly, w, b);
    if a % 2 == 1 {
      XorInjective(a / 2, b / 2, poly);
    }
  }

  /** A word whose low byte is clear just moves down by a byte. */
  lemma {:induction false} ShiftsClear(poly: nat, c: nat, n: nat)
    ensures Shifts(poly, c * Pow2(n), n) == c
    decreases n
  {
    if n > 0 {
      assert c * Pow2(n) == 2 * (c * Pow2(n - 1));
      ShiftsClear(poly, c, n - 1);
    }
  }

  /** The table step: one lookup does the work of eight shifts. */
  lemma TableStep(poly: nat, c: nat, d: byte)
    ensures Feed(poly, c, d) == Xor(c / 256, Shifts(poly, Xor(c, d) % 256, 8))
  {
    hide Xor;
    var x := Xor(c, d);
    SplitLowByte(x);
    ShiftsXor(poly, x / 256 * 256, x % 256, 8);
    assert Pow2(8) == 256;
    ShiftsClear(poly, x / 256, 8);
    XorDiv8(c, d);
    XorZero(c / 256);
  }

  lemma {:induction false} FeedAllConcat(poly: nat, c: nat, a: seq<byte>, b: seq<byte>)
    ensures FeedAll(poly, c, a + b) == FeedAll(poly, FeedAll(poly, c, a), b)
    decreases |a|
  {
    if a == [] {
      assert a + b == b;
    } else {
      assert (a + b)[1..] == a[1..] + b;
      FeedAllConcat(poly, Feed(poly, c, a[0]), a[1..], b);
    }
  }

  // ---- the same registers, bit by bit ------------------------------------------------

  function Num(b: bool): nat {
    if b then 1 else 0
  }

  /** The low `n` bits of a word, least significant first. */
  function WordBits(c: nat, n: nat): (bits: Poly)
    ensures |bits| == n
  {
    seq(n, i requires 0 <= i < n => Bit(c, i) == 1)
  }

  /** The register after a string of message bits. */
  function FeedBits(poly: nat, c: nat, bits: Poly): nat
    decreases |bits|
  {
    if bits == [] then c else FeedBits(poly, Shift(poly, Xor(c, Num(bits[0]))), bits[1..])
  }

  /** A message as a bit string, the least significant bit of each byte first. */
  function MessageBits(msg: seq<byte>): Poly {
    if msg == [] then [] else WordBits(msg[0], 8) + MessageBits(msg[1..])
  }

  lemma {:induction false} MessageBitsConcat(a: seq<byte>, b: seq<byte>)
    ensures MessageBits(a + b) == MessageBits(a) + MessageBits(b)
    decreases |a|
  {
    if a == [] {
      assert a + b == b;
    } else {
      assert (a + b)[1..] == a[1..] + b;
      MessageBitsConcat(a[1..], b);
    }
  }

  lemma WordBitsInjective(a: nat, b: nat, n: nat)
    requires a < Pow2(n) && b < Pow2(n) && WordBits(a, n) == WordBits(b, n)
    ensures a == b
  {
    forall k | 0 <= k < n
      ensures Bit(a, k) == Bit(b, k)
    {
      assert WordBits(a, n)[k] == WordBits(b, n)[k];
    }
    SameBits(a, b, n);
  }

  /** Different messages of one length are different bit strings of one length. */
  lemma {:induction false} MessageBitsInjective(a: seq<byte>, b: seq<byte>)
    requires |a| == |b|
    ensures |MessageBits(a)| == |MessageBits(b)| == 8 * |a|
    ensures MessageBits(a) == MessageBits(b) ==> a == b
    decreases |a|
  {
    if a != [] {
      hide Pow2;
      MessageBitsInjective(a[1..], b[1..]);
      if MessageBits(a) == MessageBits(b) {
        assert MessageBits(a)[..8] == WordBits(a[0], 8) && MessageBits(b)[..8] == WordBits(b[0], 8);
        assert MessageBits(a)[8..] == MessageBits(a[1..]) && MessageBits(b)[8..] == MessageBits(b[1..]);
        assert Pow2(8) == 256 by { Powers(); }
        WordBitsInjective(a[0], b[0], 8);
        assert a == [a[0]] + a[1..] && b == [b[0]] + b[1..];
      }
    }
  }

  lemma {:induction false} FeedBitsConcat(poly: nat, c: nat, a: Poly, b: Poly)
    ensures FeedBits(poly, c, a + b) == FeedBits(poly, FeedBits(poly, c, a), b)
    decreases |a|
  {
    if a == [] {
      assert a + b == b;
    } else {
      assert (a + b)[1..] == a[1..] + b;
      FeedBitsConcat(poly, Shift(poly, Xor(c, Num(a[0]))), a[1..], b);
    }
  }

  lemma XorLowBit(c: nat, b: bool)
    ensures Xor(c, Num(b)) / 2 == c / 2
    ensures Xor(c, Num(b)) % 2 == (c + Num(b)) % 2
  {
    XorHalf(c, Num(b));
    XorZero(c / 2);
  }

  lemma SplitLowBit(poly: nat, c: nat, x: nat)
    ensures Shift(poly, Xor(c, x)) == Xor(Shift(poly, Xor(c, Num(x % 2 == 1))), x / 2)
  {
    hide Xor;
    XorLowBit(c, x % 2 == 1);
    XorHalf(c, x);
    AddTaps(c / 2, x / 2, poly);
  }

  /** XORing a word in at once, or its bits one by one while shifting, is the same. */
  lemma {:induction false} ShiftsFeedBits(poly: nat, c: nat, x: nat, n: nat)
    ensures Shifts(poly, Xor(c, x), n) == Xor(FeedBits(poly, c, WordBits(x, n)), Shr(x, n))
    decreases n
  {
    if n > 0 {
      SplitLowBit(poly, c, x);
      assert WordBits(x, n)[1..] == WordBits(x / 2, n - 1);
      ShiftsFeedBits(poly, Shift(poly, Xor(c, Num(x % 2 == 1))), x / 2, n - 1);
    }
  }

  lemma FeedIsFeedBits(poly: nat, c: nat, d: byte)
    ensures Feed(poly, c, d) == FeedBits(poly, c, WordBits(d, 8))
  {
    ShiftsFeedBits(poly, c, d, 8);
    ShrIsDiv(d, 8);
    XorZero(FeedBits(poly, c, WordBits(d, 8)));
  }

  /** The byte-wise register is the bit-wise one. */
  lemma {:induction false} FeedAllIsFeedBits(poly: nat, c: nat, msg: seq<byte>)
    ensures FeedAll(poly, c, msg) == FeedBits(poly, c, MessageBits(msg))
    decreases |msg|
  {
    if msg != [] {
      FeedIsFeedBits(poly, c, msg[0]);
      FeedBitsConcat(poly, c, WordBits(msg[0], 8), MessageBits(msg[1..]));
      FeedAllIsFeedBits(poly, Feed(poly, c, msg[0]), msg[1..]);
    }
  }

  // ---- the register is the remainder --------------------------------------------------

  /** The coefficients of the generator: the leading one is not stored in the word. */
  function Generator(poly: nat, w: nat): (g: Poly)
    ensures |g| == w + 1 && g[0]
  {
    [true] + WordBits(poly, w)
  }

  /** What one shift does to the bit string of the register. */
  lemma ShiftBits(poly: nat, w: nat, c: nat, b: bool, i: nat)
    requires w > 0 && c < Pow2(w) && i < w
    ensures WordBits(Shift(poly, Xor(c, Num(b))), w)[i]
            == ((if i + 1 < w then WordBits(c, w)[i + 1] else false)
                != ((WordBits(c, w)[0] != b) && WordBits(poly, w)[i]))
  {
    hide Xor;
    XorLowBit(c, b);
    XorBit(c / 2, poly, i);
    BitHigh(c, w, w);
    assert Bit(c / 2, i) == Bit(c, i + 1);
    assert Bit(c, 0) == c % 2;
  }

  lemma ShiftIsDivideStep(poly: nat, w: nat, c: nat, m: Poly)
    requires w > 0 && c < Pow2(w) && |m| > w
    ensures DivideStep(XorPrefix(m, WordBits(c, w)), Generator(poly, w))
            == XorPrefix(m[1..], WordBits(Shift(poly, Xor(c, Num(m[0]))), w))
  {
    var l := DivideStep(XorPrefix(m, WordBits(c, w)), Generator(poly, w));
    var r := XorPrefix(m[1..], WordBits(Shift(poly, Xor(c, Num(m[0]))), w));
    forall i | 0 <= i < |l|
      ensures l[i] == r[i]
    {
      if i < w {
        ShiftBits(poly, w, c, m[0], i);
      }
    }
  }

  lemma FeedBitBound(poly: nat, w: nat, c: nat, b: bool)
    requires Reflected(poly, w) && c < Pow2(w)
    ensures Xor(c, Num(b)) < Pow2(w)
    ensures Shift(poly, Xor(c, Num(b))) < Pow2(w)
  {
    XorBound(c, Num(b), w);
    ShiftBound(poly, w, Xor(c, Num(b)));
  }

  lemma {:induction false} FeedBitsIsRemainder(poly: nat, w: nat, c: nat, bits: Poly)
    requires Reflected(poly, w) && c < Pow2(w)
    ensures WordBits(FeedBits(poly, c, bits), w)
            == Remainder(XorPrefix(bits + Zeros(w), WordBits(c, w)), Generator(poly, w))
    decreases |bits|
  {
    var d := bits + Zeros(w);
    if bits == [] {
      assert XorPrefix(d, WordBits(c, w)) == WordBits(c, w);
    } else {
      assert d[1..] == bits[1..] + Zeros(w);
      FeedBitBound(poly, w, c, bits[0]);
      ShiftIsDivideStep(poly, w, c, d);
      FeedBitsIsRemainder(poly, w, Shift(poly, Xor(c, Num(bits[0]))), bits[1..]);
    }
  }

  /** The register holds the remainder, by the generator, of the message followed by w zeros
      with the start value added to its first w bits. */
  lemma RegisterIsRemainder(poly: nat, w: nat, c: nat, msg: seq<byte>)
    requires Reflected(poly, w) && c < Pow2(w)
    ensures WordBits(FeedAll(poly, c, msg), w)
            == Remainder(XorPrefix(MessageBits(msg) + Zeros(w), WordBits(c, w)), Generator(poly, w))
  {
    FeedAllIsFeedBits(poly, c, msg);
    FeedBitsIsRemainder(poly, w, c, MessageBits(msg));
  }

  // ---- burst errors -----------------------------------------------------------------------

  /** The word whose low bits are `bits`. */
  function Pack(bits: Poly): (p: nat)
    ensures p < Pow2(|bits|)
  {
    if bits == [] then 0 else Num(bits[0]) + 2 * Pack(bits[1..])
  }

  lemma {:induction false} PackBit(bits: Poly, k: nat)
    requires k < |bits|
    ensures Bit(Pack(bits), k) == Num(bits[k])
    decreases |bits|
  {
    if k > 0 {
      PackBit(bits[1..], k - 1);
    }
  }

  lemma UnpackPack(bits: Poly)
    ensures WordBits(Pack(bits), |bits|) == bits
  {
    forall k | 0 <= k < |bits|
      ensures WordBits(Pack(bits), |bits|)[k] == bits[k]
    {
      PackBit(bits, k);
    }
  }

  lemma {:induction false} ShiftsInjective(poly: nat, w: nat, a: nat, b: nat, n: nat)
    requires Reflected(poly, w) && a < Pow2(w) && b < Pow2(w)
    requires Shifts(poly, a, n) == Shifts(poly, b, n)
    ensures a == b
    decreases n
  {
    if n > 0 {
      ShiftBound(poly, w, a);
      ShiftBound(poly, w, b);
      ShiftsInjective(poly, w, Shift(poly, a), Shift(poly, b), n - 1);
      ShiftInjective(poly, w, a, b);
    }
  }

  lemma {:induction false} FeedBitsInjective(poly: nat, w: nat, a: nat, b: nat, bits: Poly)
    requires Reflected(poly, w) && a < Pow2(w) && b < Pow2(w)
    requires FeedBits(poly, a, bits) == FeedBits(poly, b, bits)
    ensures a == b
    decreases |bits|
  {
    if bits != [] {
      var x := Num(bits[0]);
      FeedBitBound(poly, w, a, bits[0]);
      FeedBitBound(poly, w, b, bits[0]);
      FeedBitsInjective(poly, w, Shift(poly, Xor(a, x)), Shift(poly, Xor(b, x)), bits[1..]);
      ShiftInjective(poly, w, Xor(a, x), Xor(b, x));
      XorInjective(a, b, x);
    }
  }

  lemma {:induction false} FeedBitsBound(poly: nat, w: nat, c: nat, bits: Poly)
    requires Reflected(poly, w) && c < Pow2(w)
    ensures FeedBits(poly, c, bits) < Pow2(w)
    decreases |bits|
  {
    if bits != [] {
      FeedBitBound(poly, w, c, bits[0]);
      FeedBitsBound(poly, w, Shift(poly, Xor(c, Num(bits[0]))), bits[1..]);
    }
  }

  lemma FeedBitsIsShifts(poly: nat, w: nat, c: nat, x: Poly)
    requires Reflected(poly, w) && c < Pow2(w) && |x| <= w
    ensures Pack(x) < Pow2(w) && Xor(c, Pack(x)) < Pow2(w)
    ensures FeedBits(poly, c, x) == Shifts(poly, Xor(c, Pack(x)), |x|)
  {
    Pow2Monotone(|x|, w);
    XorBound(c, Pack(x), w);
    UnpackPack(x);
    ShiftsFeedBits(poly, c, Pack(x), |x|);
    ShrSmall(Pack(x), |x|);
    XorZero(FeedBits(poly, c, x));
  }

  /** Within one register width, no two bit strings lead from one register to another. */
  lemma ShortStringsDistinct(poly: nat, w: nat, c: nat, x: Poly, y: Poly)
    requires Reflected(poly, w) && c < Pow2(w)
    requires |x| == |y| <= w && x != y
    ensures FeedBits(poly, c, x) != FeedBits(poly, c, y)
  {
    FeedBitsIsShifts(poly, w, c, x);
    FeedBitsIsShifts(poly, w, c, y);
    if FeedBits(poly, c, x) == FeedBits(poly, c, y) {
      ShiftsInjective(poly, w, Xor(c, Pack(x)), Xor(c, Pack(y)), |x|);
      XorComm(c, Pack(x));
      XorComm(c, Pack(y));
      XorInjective(Pack(x), Pack(y), c);
      UnpackPack(x);
      UnpackPack(y);
      assert false;
    }
  }

  /** Every burst error no longer than the register is detected: two messages of any length
      whose bits differ only inside a window of w bits give different registers. */
  lemma BurstDetected(poly: nat, w: nat, c: nat, a: seq<byte>, b: seq<byte>, p: Poly, x: Poly, y: Poly, s: Poly)
    requires Reflected(poly, w) && c < Pow2(w)
    requires MessageBits(a) == p + x + s && MessageBits(b) == p + y + s
    requires |x| == |y| <= w && x != y
    ensures FeedAll(poly, c, a) != FeedAll(poly, c, b)
  {
    FeedAllIsFeedBits(poly, c, a);
    FeedAllIsFeedBits(poly, c, b);
    var r := FeedBits(poly, c, p);
    FeedBitsBound(poly, w, c, p);
    FeedBitsConcat(poly, c, p, x);
    FeedBitsConcat(poly, c, p, y);
    FeedBitsConcat(poly, c, p + x, s);
    FeedBitsConcat(poly, c, p + y, s);
    ShortStringsDistinct(poly, w, r, x, y);
    FeedBitsBound(poly, w, r, x);
    FeedBitsBound(poly, w, r, y);
    if FeedBits(poly, c, p + x + s) == FeedBits(poly, c, p + y + s) {
      FeedBitsInjective(poly, w, FeedBits(poly, r, x), FeedBits(poly, r, y), s);
      assert false;
    }
  }
}
