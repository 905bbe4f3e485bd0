/** The CRC encoder object of `t_enc_crc.c`. */
module Crc {
  import opened Gf2
  import opened Words
  import opened CrcTheory
  import opened CrcMirror
  import opened CrcResidue

  datatype Algorithm = Crc16 | Ccitt | CcittKermit | Crc32

  /** The generators as polynomials: the exponents with coefficient one. */
  function Exponents(alg: Algorithm): set<nat> {
    match alg
    case Crc16 => {16, 15, 2, 0}
    case Ccitt => {16, 12, 5, 0}
    case CcittKermit => {16, 12, 5, 0}
    case Crc32 => {32, 26, 23, 22, 16, 12, 11, 10, 8, 7, 5, 4, 2, 1, 0}
  }

  /** The word the C code uses for the generator. */
  function PolyOf(alg: Algorithm): nat {
    match alg
    case Crc16 => POLY_16
    case Ccitt => POLY_CCIT
    case CcittKermit => POLY_CCITT_KRM
    case Crc32 => POLY_32
  }

  function Width(alg: Algorithm): nat {
    if alg.Crc32? then 32 else 16
  }

  function Modulus(alg: Algorithm): (m: nat)
    ensures m == Pow2(Width(alg))
  {
    Powers();
    if alg.Crc32? then 0x1_0000_0000 else 0x10000
  }

  /** The register after a message. */
  function Register(alg: Algorithm, c: nat, msg: seq<byte>): nat {
    if alg.Ccitt? then FeedAllLeft(POLY_CCIT, 16, c, msg) else FeedAll(PolyOf(alg), c, msg)
  }

  function Initial(alg: Algorithm): nat {
    if alg.Crc32? then 0xffff_ffff else 0
  }

  /** `htons` on a little-endian host. */
  function Htons(x: nat): nat {
    x % 256 * 256 + x / 256
  }

  /** `htonl` on a little-endian host. */
  function Htonl(x: nat): nat {
    Htons(x % 0x10000) * 0x10000 + Htons(x / 0x10000)
  }

  /** The cast of a 32-bit word to int. */
  function ToInt(x: nat): int {
    if x < 0x8000_0000 then x else x - 0x1_0000_0000
  }

  /** What the calc functions return for a register: CRC-32 results from 2^31 on come out negative. */
  function Result(alg: Algorithm, bE: bool, c: nat): int
    requires c < Modulus(alg)
  {
    if alg.Crc32? then ToInt(if bE then 0xffff_ffff - c else Htonl(0xffff_ffff - c))
    else if bE then c else Htons(c)
  }

  // ---- the two views of one generator -----------------------------------------------------

  /** The bits of a register and of a message in the order they are shifted. */
  function RegisterBits(alg: Algorithm, c: nat): (bits: Poly)
    ensures |bits| == Width(alg)
  {
    if alg.Ccitt? then BitsDown(c, 16) else WordBits(c, Width(alg))
  }

  function WireBits(alg: Algorithm, msg: seq<byte>): Poly {
    if alg.Ccitt? then MessageBitsDown(msg) else MessageBits(msg)
  }

  /** The generator as a coefficient string, highest power first. */
  function Coefficients(alg: Algorithm): (g: Poly)
    ensures |g| == Width(alg) + 1 && g[0]
  {
    var w := Width(alg);
    assert w in Exponents(alg);
    seq(w + 1, i requires 0 <= i <= w => (w - i) in Exponents(alg))
  }

  /** The words in the C source are the generators they are named after. */
  lemma CoefficientsOfWord(alg: Algorithm)
    ensures Coefficients(alg) == [true] + RegisterBits(alg, PolyOf(alg))
  {
    var w := Width(alg);
    forall i | 0 <= i < w
      ensures RegisterBits(alg, PolyOf(alg))[i] == ((w - 1 - i) in Exponents(alg))
    {
      match alg {
        case Crc16 => Row16(i);
        case Ccitt => RowCcitt(w - 1 - i);
        case CcittKermit => RowKermit(i);
        case Crc32 => Row32(i);
      }
    }
  }

  lemma BitFour(v: nat, i: nat)
    ensures Bit(v, i) == match i {
                           case 0 => v % 2
                           case 1 => v / 2 % 2
                           case 2 => v / 4 % 2
                           case 3 => v / 8 % 2
                           case _ => Bit(v / 16, i - 4)
                         }
  {
    if i >= 4 {
      assert Bit(v, i) == Bit(v / 2 / 2, i - 2);
      assert Bit(v / 2 / 2, i - 2) == Bit(v / 2 / 2 / 2 / 2, i - 4);
    }
  }

  lemma Row16(i: nat)
    requires i < 16
    ensures Bit(POLY_16, i) == 1 <==> i in {0, 13, 15}
  {
    hide Bit;
    BitFour(0xa001, i);
    if i >= 4 { BitFour(0xa00, i - 4); }
    if i >= 8 { BitFour(0xa0, i - 8); }
    if i >= 12 { BitFour(0xa, i - 12); }
  }

  lemma RowCcitt(i: nat)
    requires i < 16
    ensures Bit(POLY_CCIT, i) == 1 <==> i in {0, 5, 12}
  {
    hide Bit;
    BitFour(0x1021, i);
    if i >= 4 { BitFour(0x102, i - 4); }
    if i >= 8 { BitFour(0x10, i - 8); }
    if i >= 12 { BitFour(0x1, i - 12); }
  }

  lemma RowKermit(i: nat)
    requires i < 16
    ensures Bit(POLY_CCITT_KRM, i) == 1 <==> i in {3, 10, 15}
  {
    hide Bit;
    BitFour(0x8408, i);
    if i >= 4 { BitFour(0x840, i - 4); }
    if i >= 8 { BitFour(0x84, i - 8); }
    if i >= 12 { BitFour(0x8, i - 12); }
  }

  lemma Row32(i: nat)
    requires i < 32
    ensures Bit(POLY_32, i) == 1 <==> i in {5, 8, 9, 15, 19, 20, 21, 23, 24, 26, 27, 29, 30, 31}
  {
    hide Bit;
    BitFour(0xedb88320, i);
    if i >= 4 { BitFour(0xedb8832, i - 4); }
    if i >= 8 { BitFour(0xedb883, i - 8); }
    if i >= 12 { BitFour(0xedb88, i - 12); }
    if i >= 16 { BitFour(0xedb8, i - 16); }
    if i >= 20 { BitFour(0xedb, i - 20); }
    if i >= 24 { BitFour(0xed, i - 24); }
    if i >= 28 { BitFour(0xe, i - 28); }
  }

  lemma GoodPoly(alg: Algorithm)
    ensures alg.Ccitt? ==> Leftward(POLY_CCIT, 16)
    ensures !alg.Ccitt? ==> Reflected(PolyOf(alg), Width(alg))
  {
    Powers();
    assert Pow2(16) == 2 * Pow2(15);
    assert Pow2(32) == 2 * Pow2(31);
  }

  /** Main result: every algorithm leaves the remainder of schoolbook division. */
  lemma RegisterIsPolynomialRemainder(alg: Algorithm, c: nat, msg: seq<byte>)
    requires c < Modulus(alg)
    ensures RegisterBits(alg, Register(alg, c, msg))
            == Remainder(XorPrefix(WireBits(alg, msg) + Zeros(Width(alg)), RegisterBits(alg, c)), Coefficients(alg))
  {
    GoodPoly(alg);
    CoefficientsOfWord(alg);
    if alg.Ccitt? {
      LeftRegisterIsRemainder(POLY_CCIT, 16, c, msg);
    } else {
      RegisterIsRemainder(PolyOf(alg), Width(alg), c, msg);
    }
  }

  lemma HtonsTwice(x: nat)
    requires x < 0x10000
    ensures Htons(x) < 0x10000 && Htons(Htons(x)) == x
  {
  }

  lemma HtonlTwice(x: nat)
    requires x < 0x1_0000_0000
    ensures Htonl(Htonl(x)) == x && Htonl(x) < 0x1_0000_0000
  {
    hide Htons;
    var lo, hi := x % 0x10000, x / 0x10000;
    HtonsTwice(lo);
    HtonsTwice(hi);
    var y := Htonl(x);
    assert y % 0x10000 == Htons(hi) && y / 0x10000 == Htons(lo);
  }

  /** Different registers are reported as different results, in either byte order. */
  lemma ResultInjective(alg: Algorithm, bE: bool, a: nat, b: nat)
    requires a < Modulus(alg) && b < Modulus(alg)
    requires Result(alg, bE, a) == Result(alg, bE, b)
    ensures a == b
  {
    hide Htonl, Htons;
    if alg.Crc32? {
      HtonlTwice(0xffff_ffff - a);
      HtonlTwice(0xffff_ffff - b);
    } else {
      HtonsTwice(a);
      HtonsTwice(b);
    }
  }

  lemma RegisterBound(alg: Algorithm, c: nat, msg: seq<byte>)
    requires c < Modulus(alg)
    ensures Register(alg, c, msg) < Modulus(alg)
  {
    GoodPoly(alg);
    if alg.Ccitt? {
      FeedAllMirror(POLY_CCIT, 16, c, msg);
    } else {
      FeedAllIsFeedBits(PolyOf(alg), c, msg);
      FeedBitsBound(PolyOf(alg), Width(alg), c, MessageBits(msg));
    }
  }

  /** The checksum a calc call returns when it starts with register `c`. */
  function Checksum(alg: Algorithm, bE: bool, c: nat, msg: seq<byte>): int
    requires c < Modulus(alg)
  {
    RegisterBound(alg, c, msg);
    Result(alg, bE, Register(alg, c, msg))
  }

  /** Main result: whatever the byte order and however long the messages are, a burst of
      flipped bits no longer than the register changes the checksum. */
  lemma ChecksumDetectsBursts(alg: Algorithm, bE: bool, c: nat, a: seq<byte>, b: seq<byte>,
                              p: Poly, x: Poly, y: Poly, s: Poly)
    requires c < Modulus(alg)
    requires WireBits(alg, a) == p + x + s && WireBits(alg, b) == p + y + s
    requires |x| == |y| <= Width(alg) && x != y
    ensures Checksum(alg, bE, c, a) != Checksum(alg, bE, c, b)
  {
    GoodPoly(alg);
    if alg.Ccitt? {
      LeftBurstDetected(POLY_CCIT, 16, c, a, b, p, x, y, s);
    } else {
      BurstDetected(PolyOf(alg), Width(alg), c, a, b, p, x, y, s);
    }
    RegisterBound(alg, c, a);
    RegisterBound(alg, c, b);
    if Checksum(alg, bE, c, a) == Checksum(alg, bE, c, b) {
      ResultInjective(alg, bE, Register(alg, c, a), Register(alg, c, b));
      assert false;
    }
  }

  lemma WireBitsOf(alg: Algorithm, p: seq<byte>, x: seq<byte>, s: seq<byte>)
    ensures WireBits(alg, p + x + s) == WireBits(alg, p) + WireBits(alg, x) + WireBits(alg, s)
  {
    if alg.Ccitt? {
      MessageBitsDownConcat(p + x, s);
      MessageBitsDownConcat(p, x);
    } else {
      MessageBitsConcat(p + x, s);
      MessageBitsConcat(p, x);
    }
  }

  lemma WireBitsDiffer(alg: Algorithm, x: seq<byte>, y: seq<byte>)
    requires |x| == |y| && x != y
    ensures |WireBits(alg, x)| == |WireBits(alg, y)| == 8 * |x| && WireBits(alg, x) != WireBits(alg, y)
  {
    if alg.Ccitt? {
      MessageBitsDownInjective(x, y);
    } else {
      MessageBitsInjective(x, y);
    }
  }

  /** In bytes: messages that differ only inside 2 consecutive bytes, or 4 for CRC-32, never agree. */
  lemma ChecksumDetectsByteBursts(alg: Algorithm, bE: bool, c: nat,
                                  p: seq<byte>, x: seq<byte>, y: seq<byte>, s: seq<byte>)
    requires c < Modulus(alg)
    requires |x| == |y| && 8 * |x| <= Width(alg) && x != y
    ensures Checksum(alg, bE, c, p + x + s) != Checksum(alg, bE, c, p + y + s)
  {
    hide Checksum, WireBits;
    WireBitsOf(alg, p, x, s);
    WireBitsOf(alg, p, y, s);
    WireBitsDiffer(alg, x, y);
    ChecksumDetectsBursts(alg, bE, c, p + x + s, p + y + s,
                          WireBits(alg, p), WireBits(alg, x), WireBits(alg, y), WireBits(alg, s));
  }

  /** Feeding a message in pieces is feeding it at once. */
  lemma RegisterConcat(alg: Algorithm, c: nat, a: seq<byte>, b: seq<byte>)
    ensures Register(alg, c, a + b) == Register(alg, Register(alg, c, a), b)
  {
    if alg.Ccitt? {
      FeedAllLeftConcat(POLY_CCIT, 16, c, a, b);
    } else {
      FeedAllConcat(PolyOf(alg), c, a, b);
    }
  }

  // ---- what the returned number is -------------------------------------------------------------

  /** A calc result behind the message it was computed of, byte by byte as each algorithm shifts. */
  function Trailer(alg: Algorithm, r: int): (m: seq<byte>)
    ensures 8 * |m| == Width(alg)
  {
    match alg
    case Ccitt => [r / 256 % 256, r % 256]
    case Crc32 => [r % 256, r / 256 % 256, r / 0x1_0000 % 256, r / 0x100_0000 % 256]
    case _ => [r % 256, r / 256 % 256]
  }

  /** What the register holds behind every message and its trailer. */
  function Residue(alg: Algorithm): nat {
    if alg.Crc32? then 0xdebb_20e3 else 0
  }

  lemma LowBytes2(v: nat)
    requires v < 0x10000
    ensures LowBytes(v, 2) == [v % 256, v / 256 % 256]
  {
    assert LowBytes(v, 2) == [v % 256] + ([v / 256 % 256] + LowBytes(v / 256 / 256, 0));
  }

  lemma LowBytes4(v: nat)
    requires v < 0x1_0000_0000
    ensures LowBytes(v, 4) == [v % 256, v / 256 % 256, v / 0x1_0000 % 256, v / 0x100_0000 % 256]
  {
    assert v / 256 / 256 == v / 0x1_0000 && v / 0x1_0000 / 256 == v / 0x100_0000;
    assert LowBytes(v, 4) == [v % 256] + LowBytes(v / 256, 3);
    assert LowBytes(v / 256, 3) == [v / 256 % 256] + LowBytes(v / 0x1_0000, 2);
    assert LowBytes(v / 0x1_0000, 2) == [v / 0x1_0000 % 256] + LowBytes(v / 0x100_0000, 1);
    assert LowBytes(v / 0x100_0000, 1) == [v / 0x100_0000 % 256] + LowBytes(v / 0x100_0000 / 256, 0);
  }

  /** The cast keeps the bytes. */
  lemma CastBytes(v: nat)
    requires v < 0x1_0000_0000
    ensures var r := ToInt(v);
            -0x8000_0000 <= r < 0x8000_0000
            && r % 256 == v % 256 && r / 256 % 256 == v / 256 % 256
            && r / 0x1_0000 % 256 == v / 0x1_0000 % 256 && r / 0x100_0000 % 256 == v / 0x100_0000 % 256
  {
    var r := ToInt(v);
    if r < 0 {
      assert r / 256 == v / 256 - 0x100_0000;
      assert r / 0x1_0000 == v / 0x1_0000 - 0x1_0000;
      assert r / 0x100_0000 == v / 0x100_0000 - 0x100;
    }
  }

  /** From any register, over any message: a big-endian result sent behind the message leaves the residue. */
  lemma ResidueLaw(alg: Algorithm, c: nat, msg: seq<byte>)
    requires c < Modulus(alg)
    ensures var r := Checksum(alg, true, c, msg);
            match alg
            case Crc32 =>
              var m := [r % 256, r / 256 % 256, r / 0x1_0000 % 256, r / 0x100_0000 % 256];
              Register(Crc32, c, msg + m) == 0xdebb_20e3
            case Ccitt => Register(Ccitt, c, msg + [r / 256 % 256, r % 256]) == 0
            case _ => Register(alg, c, msg + [r % 256, r / 256 % 256]) == 0
    ensures Register(alg, c, msg + Trailer(alg, Checksum(alg, true, c, msg))) == Residue(alg)
  {
    hide Register, FeedAll, FeedAllLeft, LowBytes, Result;
    RegisterBound(alg, c, msg);
    var e := Register(alg, c, msg);
    RegisterConcat(alg, c, msg, Trailer(alg, Checksum(alg, true, c, msg)));
    TrailerClears(alg, e);
  }

  lemma TrailerClears(alg: Algorithm, e: nat)
    requires e < Modulus(alg)
    ensures Register(alg, e, Trailer(alg, Result(alg, true, e))) == Residue(alg)
  {
    hide FeedAll, FeedAllLeft, LowBytes, ToInt;
    match alg {
      case Crc32 =>
        CastBytes(0xffff_ffff - e);
        LowBytes4(0xffff_ffff - e);
        ComplementBytes(e);
      case Ccitt => CcittClears(e);
      case _ =>
        LowBytes2(e);
        OwnBytes(PolyOf(alg), e, 2);
    }
  }

  lemma CcittClears(e: nat)
    requires e < 0x10000
    ensures FeedAllLeft(POLY_CCIT, 16, e, [e / 256 % 256, e % 256]) == 0
  {
    hide Xor, ShiftsLeft, FeedLeft;
    GoodPoly(Ccitt);
    var hi, lo := e / 256, e % 256;
    LeftTableStep(POLY_CCIT, e, hi);
    XorSelf(hi);
    ShiftsLeftOfZero(POLY_CCIT, 8);
    XorZero(e * 256);
    var next := lo * 256;
    assert e * 256 % 0x10000 == next by {
      assert e * 256 == hi * 0x10000 + next;
    }
    LeftTableStep(POLY_CCIT, next, lo);
    assert next / 256 == lo;
    XorSelf(lo);
    XorZero(next * 256);
    assert next * 256 % 0x10000 == 0 by {
      assert next * 256 == lo * 0x10000;
    }
    TwoBytes(POLY_CCIT, e, hi, lo);
  }

  lemma TwoBytes(poly: nat, e: nat, hi: byte, lo: byte)
    ensures FeedAllLeft(poly, 16, e, [hi, lo]) == FeedLeft(poly, 16, FeedLeft(poly, 16, e, hi), lo)
  {
    hide FeedLeft;
    var next := FeedLeft(poly, 16, e, hi);
    assert [hi, lo][1..] == [lo] && [lo][1..] == [];
    assert FeedAllLeft(poly, 16, next, [lo]) == FeedAllLeft(poly, 16, FeedLeft(poly, 16, next, lo), []);
  }

  lemma {:induction false} ShiftsLeftOfZero(poly: nat, n: nat)
    ensures ShiftsLeft(poly, 16, 0, n) == 0
    decreases n
  {
    hide ShiftLeft;
    if n > 0 {
      ShiftLeftOfZero(poly);
      ShiftsLeftOfZero(poly, n - 1);
    }
  }

  lemma ShiftLeftOfZero(poly: nat)
    ensures ShiftLeft(poly, 16, 0) == 0
  {
    hide Bit, Xor, Pow2;
    BitHigh(0, 15, 15);
  }

  /** Main result: of all trailers of its length exactly the checksum of the message leaves the residue. */
  lemma OnlyChecksumPasses(alg: Algorithm, c: nat, msg: seq<byte>, m: seq<byte>)
    requires c < Modulus(alg) && 8 * |m| == Width(alg)
    ensures Register(alg, c, msg + m) == Residue(alg) <==> m == Trailer(alg, Checksum(alg, true, c, msg))
  {
    hide Register, Trailer, WireBits;
    var t := Trailer(alg, Checksum(alg, true, c, msg));
    ResidueLaw(alg, c, msg);
    if m != t {
      ChecksumDetectsByteBursts(alg, true, c, msg, m, t, []);
      assert msg + m + [] == msg + m && msg + t + [] == msg + t;
    }
  }

  /** The other byte order has the same bytes from the other end; results are C ints. */
  lemma OtherByteOrder(alg: Algorithm, c: nat)
    requires c < Modulus(alg)
    ensures var b, l := Result(alg, true, c), Result(alg, false, c);
            if alg.Crc32? then
              && -0x8000_0000 <= b < 0x8000_0000 && -0x8000_0000 <= l < 0x8000_0000
              && l % 256 == b / 0x100_0000 % 256 && l / 256 % 256 == b / 0x1_0000 % 256
              && l / 0x1_0000 % 256 == b / 256 % 256 && l / 0x100_0000 % 256 == b % 256
            else
              0 <= b < 0x10000 && 0 <= l < 0x10000 && l % 256 == b / 256 && l / 256 == b % 256
  {
    hide ToInt;
    if alg.Crc32? {
      var v := 0xffff_ffff - c;
      SwappedBytes(v);
      CastBytes(v);
      CastBytes(Htonl(v));
    }
  }

  lemma SwappedBytes(v: nat)
    requires v < 0x1_0000_0000
    ensures var w := Htonl(v);
            && w < 0x1_0000_0000
            && w % 256 == v / 0x100_0000 % 256 && w / 256 % 256 == v / 0x1_0000 % 256
            && w / 0x1_0000 % 256 == v / 256 % 256 && w / 0x100_0000 % 256 == v % 256
  {
    hide Htons;
    var lo, hi := v % 0x10000, v / 0x10000;
    SwappedPair(lo);
    SwappedPair(hi);
    var a, b := Htons(hi), Htons(lo);
    assert Htonl(v) == b * 0x1_0000 + a;
    WordBytes(b, a);
    WordBytes(hi, lo);
  }

  lemma SwappedPair(x: nat)
    requires x < 0x10000
    ensures Htons(x) < 0x10000 && Htons(x) % 256 == x / 256 && Htons(x) / 256 == x % 256
  {
  }

  lemma WordBytes(hi: nat, lo: nat)
    requires hi < 0x10000 && lo < 0x10000
    ensures var v := hi * 0x1_0000 + lo;
            && v % 256 == lo % 256 && v / 256 % 256 == lo / 256
            && v / 0x1_0000 % 256 == hi % 256 && v / 0x100_0000 % 256 == hi / 256
  {
    var v := hi * 0x1_0000 + lo;
    assert v / 0x1_0000 == hi && v / 256 == hi * 256 + lo / 256;
    assert v / 0x100_0000 == hi / 256;
  }

  // ---- the lookup table --------------------------------------------------------------------

  /** What the lookup table must hold. */
  function Entry(alg: Algorithm, i: nat): nat {
    if alg.Ccitt? then ShiftsLeft(POLY_CCIT, 16, i * 256, 8) else Shifts(PolyOf(alg), i, 8)
  }

  lemma EntryIs(alg: Algorithm, i: nat)
    ensures alg.Ccitt? ==> Entry(alg, i) == ShiftsLeft(POLY_CCIT, 16, i * 256, 8)
    ensures !alg.Ccitt? ==> Entry(alg, i) == Shifts(PolyOf(alg), i, 8)
  {
  }

  ghost predicate TableFor(alg: Algorithm, t: seq<nat>) {
    && |t| == 256
    && forall i | 0 <= i < 256 :: t[i] == Entry(alg, i)
  }

  lemma {:induction false} ShiftsLast(poly: nat, c: nat, n: nat)
    ensures Shifts(poly, c, n + 1) == Shift(poly, Shifts(poly, c, n))
    decreases n
  {
    if n > 0 {
      ShiftsLast(poly, Shift(poly, c), n - 1);
    }
  }

  lemma {:induction false} ShrLast(v: nat, n: nat)
    ensures Shr(v, n + 1) == Shr(v, n) / 2
    decreases n
  {
    if n > 0 {
      ShrLast(v / 2, n - 1);
    }
  }

  /** One round of the table loops: shifting `c` and `run` separately shifts their sum. */
  lemma RightLoopStep(poly: nat, c: nat, run: nat)
    ensures Shift(poly, Xor(c, run)) == Xor(if Xor(c, run) % 2 != 0 then Xor(c / 2, poly) else c / 2, run / 2)
  {
    hide Xor;
    XorHalf(c, run);
    AddTaps(c / 2, run / 2, poly);
  }

  lemma LeftLoopStep(poly: nat, c: nat, run: nat)
    ensures ShiftLeft(poly, 16, Xor(c, run))
            == Xor(if Bit(Xor(c, run), 15) != 0 then Xor(2 * c, poly) % 0x10000 else 2 * c % 0x10000,
                   2 * run % 0x10000)
  {
    hide Xor;
    Powers();
    XorDoubled(c, run);
    AddTaps(2 * c, 2 * run, poly);
    XorMod16(Xor(2 * c, poly), 2 * run);
    XorMod16(2 * c, 2 * run);
  }

  lemma XorDoubled(a: nat, b: nat)
    ensures Xor(2 * a, 2 * b) == 2 * Xor(a, b)
  {
    hide Xor;
    XorHalf(2 * a, 2 * b);
  }

  lemma DoubleRun(v: nat, j: nat)
    ensures 2 * (v * Pow2(j) % 0x10000) % 0x10000 == v * Pow2(j + 1) % 0x10000
  {
    var x := v * Pow2(j);
    assert v * (2 * Pow2(j)) == 2 * x;
    DoubleMod(x);
  }

  lemma DoubleMod(x: nat)
    ensures 2 * (x % 0x10000) % 0x10000 == 2 * x % 0x10000
  {
    var q, r := x / 0x10000, x % 0x10000;
    assert 2 * x == (2 * q) * 0x10000 + 2 * r;
  }

  /** The inner loop of init_16. */
  method Entry16(poly: nat, i: nat) returns (c: nat)
    requires i < 256
    ensures c == Shifts(poly, i, 8)
  {
    hide Xor;
    var run := i;
    c := 0;
    XorZero(i);
    for j := 0 to 8
      invariant Xor(c, run) == Shifts(poly, i, j)
      invariant run == Shr(i, j)
    {
      ShiftsLast(poly, i, j);
      ShrLast(i, j);
      RightLoopStep(poly, c, run);
      if Xor(c, run) % 2 != 0 {
        c := Xor(c / 2, poly);
      } else {
        c := c / 2;
      }
      run := run / 2;
    }
    Shr8(i);
    XorZero(c);
  }

  /** `run` in init_ccitt: the table index moving out at the top. */
  function RunCcitt(i: nat, j: nat): nat {
    i * 256 * Pow2(j) % 0x10000
  }

  lemma RunCcittEnds(i: nat)
    requires i < 256
    ensures RunCcitt(i, 0) == i * 256 && RunCcitt(i, 8) == 0
  {
    Powers();
  }

  lemma LeftRound(poly: nat, i: nat, j: nat, c: nat)
    ensures var tap := Bit(Xor(c, RunCcitt(i, j)), 15) != 0;
            Xor(c, RunCcitt(i, j)) == ShiftsLeft(poly, 16, i * 256, j) ==>
              Xor((if tap then Xor(2 * c, poly) else 2 * c) % 0x10000, RunCcitt(i, j + 1))
              == ShiftsLeft(poly, 16, i * 256, j + 1)
    ensures RunCcitt(i, j + 1) == 2 * RunCcitt(i, j) % 0x10000
  {
    hide Xor, ShiftLeft;
    ShiftsLeftPlus(poly, i * 256, j, 1);
    LeftLoopStep(poly, c, RunCcitt(i, j));
    DoubleRun(i * 256, j);
  }

  /** The inner loop of init_ccitt. */
  method EntryCcitt(poly: nat, i: nat) returns (c: nat)
    requires i < 256
    ensures c == ShiftsLeft(poly, 16, i * 256, 8)
  {
    hide Xor, RunCcitt, ShiftLeft;
    var run: nat := i * 256;
    c := 0;
    XorZero(run);
    RunCcittEnds(i);
    for j := 0 to 8
      invariant Xor(c, run) == ShiftsLeft(poly, 16, i * 256, j)
      invariant run == RunCcitt(i, j)
    {
      LeftRound(poly, i, j, c);
      if Bit(Xor(c, run), 15) != 0 {
        c := Xor(2 * c, poly) % 0x10000;
      } else {
        c := 2 * c % 0x10000;
      }
      run := 2 * run % 0x10000;
    }
    XorZero(c);
  }

  /** The inner loop of init_32. */
  method Entry32(poly: nat, i: nat) returns (temp: nat)
    ensures temp == Shifts(poly, i, 8)
  {
    temp := i;
    for j := 8 downto 0
      invariant temp == Shifts(poly, i, 8 - j)
    {
      ShiftsLast(poly, i, 7 - j);
      if temp % 2 == 1 {
        temp := Xor(temp / 2, poly);
      } else {
        temp := temp / 2;
      }
    }
  }

  /** A store into the 16-bit view of a word. */
  function WithLow(x: nat, c: nat): (r: nat)
    requires c < 0x10000
    ensures r % 0x10000 == c && r / 0x10000 == x / 0x10000
  {
    x / 0x10000 * 0x10000 + c
  }

  // ---- the object -----------------------------------------------------------------------------

  datatype Routine = Routine16 | RoutineCcitt | Routine32

  function RoutineOf(alg: Algorithm): Routine {
    match alg
    case Ccitt => RoutineCcitt
    case Crc32 => Routine32
    case _ => Routine16
  }

  /** The struct t_enc_crc on a little-endian host.  The three register members share one
      word, and so do the three initial values: the 16-bit views are the low halves. */
  class Encoder {
    const t: array<nat>
    var crc: nat
    var init: nat
    var bE: bool
    /** The function pointer `calc` of the struct. */
    var routine: Routine
    ghost var alg: Algorithm

    ghost predicate Valid()
      reads this, t
    {
      && TableFor(alg, t[..])
      && init % Modulus(alg) == Initial(alg)
      && routine == RoutineOf(alg)
      && (alg.Crc32? ==> crc < 0x1_0000_0000 && init < 0x1_0000_0000)
    }

    /** The register member the selected algorithm looks at. */
    ghost function Current(): (c: nat)
      reads this
      ensures c < Modulus(alg)
    {
      crc % Modulus(alg)
    }

    /** The upper halves of the unions start as whatever the allocator left there. */
    constructor (alg: Algorithm, bE: bool, junk: nat)
      ensures Valid() && fresh(t) && this.alg == alg && this.bE == bE
      ensures Current() == Initial(alg) == if alg.Crc32? then 0xffff_ffff else 0
    {
      t := new nat[256];
      crc, init, routine := junk, junk, Routine16;
      this.bE := bE;
      new;
      match alg {
        case Crc16 => Init16(POLY_16, Crc16);
        case Ccitt => InitCcitt(POLY_CCIT);
        case CcittKermit => Init16(POLY_CCITT_KRM, CcittKermit);
        case Crc32 => Init32(POLY_32);
      }
    }

    method Init16(poly: nat, ghost which: Algorithm)
      requires t.Length == 256
      requires which == Crc16 || which == CcittKermit
      requires poly == PolyOf(which)
      modifies this, t
      ensures Valid() && alg == which && bE == old(bE)
      ensures Current() == 0
    {
      hide Entry, WithLow, Xor;
      for i := 0 to 256
        invariant bE == old(bE)
        invariant forall k | 0 <= k < i :: t[k] == Entry(which, k)
      {
        var e := Entry16(poly, i);
        EntryIs(which, i);
        t[i] := e;
      }
      alg, routine := which, Routine16;
      crc := WithLow(crc, 0);
      init := WithLow(init, 0);
    }

    method InitCcitt(poly: nat)
      requires t.Length == 256
      requires poly == POLY_CCIT
      modifies this, t
      ensures Valid() && alg == Ccitt && bE == old(bE)
      ensures Current() == 0
    {
      hide Entry, WithLow, Xor;
      for i := 0 to 256
        invariant bE == old(bE)
        invariant forall k | 0 <= k < i :: t[k] == Entry(Ccitt, k)
      {
        var e := EntryCcitt(poly, i);
        EntryIs(Ccitt, i);
        t[i] := e;
      }
      alg, routine := Ccitt, RoutineCcitt;
      crc := WithLow(crc, 0);
      init := WithLow(init, 0);
    }

    method Init32(poly: nat)
      requires t.Length == 256
      requires poly == POLY_32
      modifies this, t
      ensures Valid() && alg == Crc32 && bE == old(bE)
      ensures Current() == 0xffff_ffff
    {
      hide Entry, WithLow, Xor;
      for i := 0 to 256
        invariant bE == old(bE)
        invariant forall k | 0 <= k < i :: t[k] == Entry(Crc32, k)
      {
        var e := Entry32(poly, i);
        EntryIs(Crc32, i);
        t[i] := e;
      }
      alg, routine := Crc32, Routine32;
      crc := 0xffff_ffff;
      init := 0xffff_ffff;
    }

    /** CRC-16 and Kermit. */
    method Calc16(data: seq<byte>) returns (res: int)
      requires Valid() && (alg == Crc16 || alg == CcittKermit)
      modifies this`crc
      ensures Valid()
      ensures Current() == Register(alg, old(Current()), data)
      ensures res == Checksum(alg, bE, old(Current()), data)
    {
      hide Register, Xor, Shifts, ShiftsLeft, Entry, WithLow;
      assert data[0..] == data;
      for i := 0 to |data|
        invariant Register(alg, Current(), data[i..]) == Register(alg, old(Current()), data)
      {
        var c := crc % 0x10000;
        var idx := Xor(c, data[i]) % 256;
        RightByte(alg, c, data, i);
        crc := WithLow(crc, Xor(c / 256, t[idx]));
      }
      RegisterNil(alg, Current(), data);
      res := if bE then crc % 0x10000 else Htons(crc % 0x10000);
    }

    method CalcCcitt(data: seq<byte>) returns (res: int)
      requires Valid() && alg == Ccitt
      modifies this`crc
      ensures Valid()
      ensures Current() == Register(alg, old(Current()), data)
      ensures res == Checksum(alg, bE, old(Current()), data)
    {
      hide Register, Xor, Shifts, ShiftsLeft, Entry, WithLow;
      assert data[0..] == data;
      for i := 0 to |data|
        invariant Register(alg, Current(), data[i..]) == Register(alg, old(Current()), data)
      {
        var c := crc % 0x10000;
        LeftByte(c, data, i);
        var idx := Xor(c / 256, data[i]);
        crc := WithLow(crc, Xor(c * 256, t[idx]) % 0x10000);
      }
      RegisterNil(alg, Current(), data);
      res := if bE then crc % 0x10000 else Htons(crc % 0x10000);
    }

    method Calc32(data: seq<byte>) returns (res: int)
      requires Valid() && alg == Crc32
      modifies this`crc
      ensures Valid()
      ensures Current() == Register(alg, old(Current()), data)
      ensures res == Checksum(alg, bE, old(Current()), data)
    {
      hide Register, Xor, Shifts, ShiftsLeft, Entry, WithLow;
      assert data[0..] == data;
      for i := 0 to |data|
        invariant crc < 0x1_0000_0000
        invariant Register(alg, crc, data[i..]) == Register(alg, old(Current()), data)
      {
        var idx := Xor(crc % 256, data[i]) % 256;
        RightByte(alg, crc, data, i);
        LowIndex(crc, data[i]);
        crc := Xor(crc / 256, t[idx]);
      }
      RegisterNil(alg, crc, data);
      res := ToInt(if bE then 0xffff_ffff - crc else Htonl(0xffff_ffff - crc));
    }

    /** The call through the pointer in lt_enc_crc_calc. */
    method Calc(data: seq<byte>) returns (res: int)
      requires Valid()
      modifies this`crc
      ensures Valid()
      ensures Current() == Register(alg, old(Current()), data)
      ensures res == Checksum(alg, bE, old(Current()), data)
    {
      match routine {
        case Routine16 => res := Calc16(data);
        case RoutineCcitt => res := CalcCcitt(data);
        case Routine32 => res := Calc32(data);
      }
    }

    /** Copies the 32-bit view of the initial value, whatever the algorithm. */
    method Reset()
      requires Valid()
      modifies this`crc
      ensures Valid()
      ensures Current() == Initial(alg) == if alg.Crc32? then 0xffff_ffff else 0
    {
      crc := init;
    }
  }

  function Joined(parts: seq<seq<byte>>): seq<byte> {
    if parts == [] then [] else Joined(parts[..|parts| - 1]) + parts[|parts| - 1]
  }

  /** A message handed over in parts, and once more in one piece after a reset: the checksum of the whole both times. */
  method PartsThenWhole(alg: Algorithm, bE: bool, junk: nat, parts: seq<seq<byte>>) returns (last: int, again: int)
    requires parts != []
    ensures Initial(alg) < Modulus(alg)
    ensures last == again == Checksum(alg, bE, Initial(alg), Joined(parts))
  {
    hide Register, Joined, Initial, Result;
    var e := new Encoder(alg, bE, junk);
    last := 0;
    JoinedNil(alg, e.Current());
    for i := 0 to |parts|
      invariant fresh(e) && e.Valid() && e.alg == alg && e.bE == bE && Initial(alg) < Modulus(alg)
      invariant e.Current() == Register(alg, Initial(alg), Joined(parts[..i]))
      invariant i > 0 ==> last == Checksum(alg, bE, Initial(alg), Joined(parts[..i]))
    {
      JoinedSnoc(parts, i);
      RegisterConcat(alg, Initial(alg), Joined(parts[..i]), parts[i]);
      last := e.Calc(parts[i]);
    }
    assert parts[..|parts|] == parts;
    e.Reset();
    again := e.Calc(Joined(parts));
  }

  lemma JoinedNil(alg: Algorithm, c: nat)
    ensures Joined([]) == [] && Register(alg, c, []) == c
  {
  }

  lemma JoinedSnoc(parts: seq<seq<byte>>, i: nat)
    requires i < |parts|
    ensures Joined(parts[..i + 1]) == Joined(parts[..i]) + parts[i]
  {
    assert parts[..i + 1][..i] == parts[..i];
  }

  /** One table lookup feeds one byte. */
  lemma RightByte(alg: Algorithm, c: nat, data: seq<byte>, i: nat)
    requires !alg.Ccitt? && c < Modulus(alg) && i < |data|
    ensures var c' := Xor(c / 256, Entry(alg, Xor(c, data[i]) % 256));
            && c' < Modulus(alg)
            && Register(alg, c, data[i..]) == Register(alg, c', data[i + 1..])
  {
    TableStep(PolyOf(alg), c, data[i]);
    RegisterBound(alg, c, [data[i]]);
    assert FeedAll(PolyOf(alg), c, [data[i]]) == Feed(PolyOf(alg), c, data[i]);
    assert data[i..][1..] == data[i + 1..];
  }

  lemma LeftByte(c: nat, data: seq<byte>, i: nat)
    requires c < 0x10000 && i < |data|
    ensures Xor(c / 256, data[i]) < 256
    ensures var c' := Xor(c * 256, Entry(Ccitt, Xor(c / 256, data[i]))) % 0x10000;
            Register(Ccitt, c, data[i..]) == Register(Ccitt, c', data[i + 1..])
  {
    GoodPoly(Ccitt);
    LeftTableStep(POLY_CCIT, c, data[i]);
    assert data[i..][1..] == data[i + 1..];
  }

  lemma RegisterNil(alg: Algorithm, c: nat, data: seq<byte>)
    ensures Register(alg, c, data[|data|..]) == c
  {
  }

  lemma LowIndex(c: nat, d: byte)
    ensures Xor(c % 256, d) % 256 == Xor(c, d) % 256
  {
    hide Xor;
    XorMod8(c, d);
    XorMod8(c % 256, d);
  }

  /**
    * A sender's checksum, and a receiver that feeds the message and whatever trailer it has got: its result is
    * the fixed number exactly when the trailer is the checksum.
    */
  method SendAndCheck(alg: Algorithm, junk: nat, msg: seq<byte>, got: seq<byte>) returns (sent: int, check: int)
    requires 8 * |got| == Width(alg)
    ensures Initial(alg) < Modulus(alg) && sent == Checksum(alg, true, Initial(alg), msg)
    ensures check == (if alg.Crc32? then 0x2144_df1c else 0) <==> got == Trailer(alg, sent)
  {
    hide Register, Trailer, Initial, Result;
    var e := new Encoder(alg, true, junk);
    sent := e.Calc(msg);
    e.Reset();
    check := e.Calc(msg + got);
    OnlyChecksumPasses(alg, Initial(alg), msg, got);
    RegisterBound(alg, Initial(alg), msg + got);
    PassingResult(alg, Register(alg, Initial(alg), msg + got));
  }

  lemma PassingResult(alg: Algorithm, c: nat)
    requires c < Modulus(alg)
    ensures Result(alg, true, c) == (if alg.Crc32? then 0x2144_df1c else 0) <==> c == Residue(alg)
  {
  }
}
