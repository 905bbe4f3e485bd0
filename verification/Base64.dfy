/** Base64 of `t_enc_b64.c` against section 4 of RFC 4648. */
module Base64 {
  import opened Words
  import opened PackInt

  const UPPER := "ABCDEFGHIJKLMNOPQRSTUVWXYZ"
  const LOWER := "abcdefghijklmnopqrstuvwxyz"
  const OTHER := "0123456789+/"
  const ENC_TABLE := UPPER + LOWER + OTHER
  const WRAP: nat := 0x1_0000_0000

  function Enc(v: nat): char
    requires v < 64
  {
    ENC_TABLE[v]
  }

  /** What the decoder table holds for a character; it starts out zeroed. */
  function Dec(c: char): (v: nat)
    ensures v < 64
  {
    if 'A' <= c <= 'Z' then c as int - 'A' as int
    else if 'a' <= c <= 'z' then c as int - 'a' as int + 26
    else if '0' <= c <= '9' then c as int - '0' as int + 52
    else if c == '+' then 62
    else if c == '/' then 63
    else 0
  }

  lemma UpperCode(v: nat)
    requires v < 26
    ensures UPPER[v] as int == 'A' as int + v
  {
  }

  lemma LowerCode(v: nat)
    requires v < 26
    ensures LOWER[v] as int == 'a' as int + v
  {
  }

  lemma DecEnc(v: nat)
    requires v < 64
    ensures Dec(Enc(v)) == v && Enc(v) < 128 as char
    ensures Enc(v) != '=' && Enc(v) != '\n' && Enc(v) != '\r'
  {
    if v < 26 {
      UpperCode(v);
      assert Enc(v) == UPPER[v];
    } else if v < 52 {
      LowerCode(v - 26);
      assert Enc(v) == LOWER[v - 26];
    } else {
      assert Enc(v) == OTHER[v - 52];
    }
  }

  // ---- RFC 4648 ----------------------------------------------------------------------------------

  function EncodedSize(n: nat): nat {
    4 * ((n + 2) / 3)
  }

  function Padding(n: nat): (p: nat)
    ensures p <= 2 && (n + p) % 3 == 0
  {
    (3 - n % 3) % 3
  }

  const SIX_BITS := IntPacker(6, false, false)

  /** The k-th group of six bits; bits past the end of the input are zero. */
  function Sextet(b: seq<byte>, k: nat): (v: nat)
    requires 6 * k < 8 * |b|
    ensures v < 64
  {
    assert Pow2(6) == 64;
    Raw(b + [0, 0], SIX_BITS, 6 * k)
  }

  /** One character for each group that holds input bits, then padding. */
  function Rfc4648(b: seq<byte>): string {
    seq(EncodedSize(|b|), k requires 0 <= k < EncodedSize(|b|) =>
      if 6 * k < 8 * |b| then Enc(Sextet(b, k)) else '=')
  }

  /** The alphabet of table 1 of RFC 4648. */
  lemma Alphabet(v: nat)
    requires v < 64
    ensures v < 26 ==> Enc(v) as int == 'A' as int + v
    ensures 26 <= v < 52 ==> Enc(v) as int == 'a' as int + (v - 26)
    ensures 52 <= v < 62 ==> Enc(v) as int == '0' as int + (v - 52)
    ensures v == 62 ==> Enc(v) == '+'
    ensures v == 63 ==> Enc(v) == '/'
  {
    if v < 26 {
      UpperCode(v);
      assert Enc(v) == UPPER[v];
    } else if v < 52 {
      LowerCode(v - 26);
      assert Enc(v) == LOWER[v - 26];
    } else {
      OtherCodeOf(v - 52);
      assert Enc(v) == OTHER[v - 52];
    }
  }

  lemma OtherCodeOf(v: nat)
    requires v < 12
    ensures v < 10 ==> OTHER[v] as int == '0' as int + v
    ensures v == 10 ==> OTHER[v] == '+'
    ensures v == 11 ==> OTHER[v] == '/'
  {
  }

  // ---- the encoder's groups -------------------------------------------------------------------------

  function At(b: seq<byte>, i: nat): byte {
    if i < |b| then b[i] else 0
  }

  /** The four values computed from bytes 3g, 3g + 1 and 3g + 2. */
  function Quad(b: seq<byte>, k: nat): (v: nat)
    ensures v < 64
  {
    var d1, d2, d3 := At(b, k / 4 * 3), At(b, k / 4 * 3 + 1), At(b, k / 4 * 3 + 2);
    match k % 4
    case 0 => d1 / 4
    case 1 => d1 % 4 * 16 + d2 / 16
    case 2 => d2 % 16 * 4 + d3 / 64
    case _ => d3 % 64
  }

  /** What the encoder writes at position k: padding where no input bit is left. */
  function Encode(b: seq<byte>): (t: string)
    ensures |t| == EncodedSize(|b|)
  {
    seq(EncodedSize(|b|), k requires 0 <= k < EncodedSize(|b|) =>
      if 6 * k < 8 * |b| then Enc(Quad(b, k)) else '=')
  }

  lemma JoinBits(x: nat, y: nat, k: nat)
    ensures y < 16 ==> Bit(x * 16 + y, k) == if k < 4 then Bit(y, k) else Bit(x, k - 4)
    ensures y < 4 ==> Bit(x * 4 + y, k) == if k < 2 then Bit(y, k) else Bit(x, k - 2)
  {
    hide Bit;
    JoinBit(x, y, k);
    if y < 16 {
      assert x * 16 + y == (x * 4 + y / 4) * 4 + y % 4;
      JoinBit(x * 4 + y / 4, y % 4, k);
      JoinBit(x, y / 4, if k < 2 then 0 else k - 2);
      JoinBit(y / 4, y % 4, k);
      assert y / 4 * 4 + y % 4 == y;
    }
  }

  lemma JoinBit(x: nat, y: nat, k: nat)
    ensures y < 4 ==> Bit(x * 4 + y, k) == if k < 2 then Bit(y, k) else Bit(x, k - 2)
  {
    if y < 4 {
      assert (x * 4 + y) / 2 == x * 2 + y / 2;
      assert (x * 4 + y) / 2 / 2 == x;
      if k >= 2 {
        assert Bit(x * 4 + y, k) == Bit((x * 4 + y) / 2 / 2, k - 2);
      } else if k == 1 {
        assert Bit(x * 4 + y, 1) == Bit((x * 4 + y) / 2, 0);
        assert Bit(y, 1) == Bit(y / 2, 0);
      }
    }
  }

  lemma QuarterBit(x: nat, k: nat)
    ensures Bit(x / 4, k) == Bit(x, k + 2)
  {
    hide Bit;
    JoinBit(x / 4, x % 4, k + 2);
    assert x == x / 4 * 4 + x % 4;
  }

  /** The pieces of one byte. */
  lemma PieceBits(d: byte, k: nat)
    ensures Bit(d / 4, k) == Bit(d, k + 2) && Bit(d / 16, k) == Bit(d, k + 4) && Bit(d / 64, k) == Bit(d, k + 6)
    ensures k < 2 ==> Bit(d % 4, k) == Bit(d, k)
    ensures k < 4 ==> Bit(d % 16, k) == Bit(d, k)
    ensures k < 6 ==> Bit(d % 64, k) == Bit(d, k)
  {
    hide Bit, Pow2;
    QuarterBit(d, k);
    QuarterBit(d, k + 2);
    QuarterBit(d, k + 4);
    QuarterBit(d / 4, k);
    QuarterBit(d / 4, k + 2);
    QuarterBit(d / 16, k);
    assert d / 4 / 4 == d / 16 && d / 16 / 4 == d / 64;
    Powers64();
    if k < 2 { BitMod(d, 2, k); }
    if k < 4 { BitMod(d, 4, k); }
    if k < 6 { BitMod(d, 6, k); }
  }

  lemma Powers64()
    ensures Pow2(2) == 4 && Pow2(4) == 16 && Pow2(6) == 64
  {
    assert Pow2(4) == 16;
    assert Pow2(6) == 64;
  }

  /** Bit i of the k-th six-bit group is bit 6k + i of the input. */
  lemma QuadBit(b: seq<byte>, k: nat, i: nat)
    requires 6 * k < 8 * |b| && i < 6
    ensures Bit(Quad(b, k), 5 - i) == BitAt(b + [0, 0], 6 * k + i)
  {
    hide Bit;
    var p := b + [0, 0];
    var g, c := k / 4, k % 4;
    var d1, d2, d3 := At(b, g * 3), At(b, g * 3 + 1), At(b, g * 3 + 2);
    var m := 6 * k + i;
    assert m == 8 * (g * 3) + (6 * c + i);
    var q, r := (6 * c + i) / 8, (6 * c + i) % 8;
    assert m / 8 == g * 3 + q && m % 8 == r;
    assert p[m / 8] == At(b, g * 3 + q);
    assert BitAt(p, m) == Bit(At(b, g * 3 + q), 7 - r);
    QuadPiece(d1, d2, d3, c, i);
  }

  /** The same, within one group of three bytes. */
  lemma QuadPiece(d1: byte, d2: byte, d3: byte, c: nat, i: nat)
    requires c < 4 && i < 6
    ensures Bit(match c
                case 0 => d1 / 4
                case 1 => d1 % 4 * 16 + d2 / 16
                case 2 => d2 % 16 * 4 + d3 / 64
                case _ => d3 % 64, 5 - i)
            == Bit([d1, d2, d3][(6 * c + i) / 8], 7 - (6 * c + i) % 8)
  {
    hide Bit;
    if c == 0 {
      PieceBits(d1, 5 - i);
    } else if c == 1 {
      JoinBits(d1 % 4, d2 / 16, 5 - i);
      if i < 2 { PieceBits(d1, 1 - i); } else { PieceBits(d2, 5 - i); }
    } else if c == 2 {
      JoinBits(d2 % 16, d3 / 64, 5 - i);
      if i < 4 { PieceBits(d2, 3 - i); } else { PieceBits(d3, 5 - i); }
    } else {
      PieceBits(d3, 5 - i);
    }
  }

  /** Main result: the encoder's text is the one of RFC 4648. */
  lemma EncodeIsRfc4648(b: seq<byte>)
    ensures Encode(b) == Rfc4648(b)
  {
    forall k | 0 <= k < EncodedSize(|b|) && 6 * k < 8 * |b|
      ensures Quad(b, k) == Sextet(b, k)
    {
      QuadIsSextet(b, k);
    }
  }

  lemma QuadIsSextet(b: seq<byte>, k: nat)
    requires 6 * k < 8 * |b|
    ensures Quad(b, k) == Sextet(b, k)
  {
    hide Bit, Quad;
    Powers64();
    var p := b + [0, 0];
    forall i | 0 <= i < 6
      ensures Bit(Quad(b, k), Significance(SIX_BITS, 6 * k, i)) == BitAt(p, 6 * k + i)
    {
      QuadBit(b, k, i);
      assert Significance(SIX_BITS, 6 * k, i) == 5 - i;
    }
    RawSpells(p, SIX_BITS, 6 * k);
    SpellsUnique(p, SIX_BITS, 6 * k, Quad(b, k), Sextet(b, k));
  }

  // ---- decoding ------------------------------------------------------------------------------------

  predicate IsBreak(c: char) {
    c == '\n' || c == '\r'
  }

  /** ASCII text in groups of four, with line breaks only between groups: the texts the
      decoder reads without running past their end. */
  predicate Grouped(t: string)
    decreases |t|
  {
    t == "" || (t[0] < 128 as char && if IsBreak(t[0]) then Grouped(t[1..])
                  else |t| >= 4 && (forall k | 0 <= k < 4 :: t[k] < 128 as char) && Grouped(t[4..]))
  }

  function DecodeGroup(e1: nat, e2: nat, e3: nat, e4: nat): (r: seq<byte>)
    requires e1 < 64 && e2 < 64 && e3 < 64 && e4 < 64
    ensures |r| == 3
  {
    [e1 * 4 + e2 / 16, e2 % 16 * 16 + e3 / 4, e3 % 4 * 64 + e4]
  }

  function Decode(t: string): seq<byte>
    requires Grouped(t)
    decreases |t|
  {
    if t == "" then []
    else if IsBreak(t[0]) then Decode(t[1..])
    else DecodeGroup(Dec(t[0]), Dec(t[1]), Dec(t[2]), Dec(t[3])) + Decode(t[4..])
  }

  function Zero(n: nat): (z: seq<byte>)
    ensures |z| == n
  {
    seq(n, i => 0)
  }

  /** Every character of the text decodes to the encoder's six bits; padding is zero. */
  lemma DecText(b: seq<byte>, k: nat)
    requires k < EncodedSize(|b|)
    ensures Dec(Encode(b)[k]) == Quad(b, k) && Encode(b)[k] < 128 as char && !IsBreak(Encode(b)[k])
  {
    hide Enc;
    DecEnc(Quad(b, k));
    if 6 * k >= 8 * |b| {
      QuadPastEnd(b, k);
    }
  }

  lemma QuadPastEnd(b: seq<byte>, k: nat)
    requires k < EncodedSize(|b|) && 6 * k >= 8 * |b|
    ensures Quad(b, k) == 0
  {
    var q, r := |b| / 3, |b| % 3;
    assert |b| == 3 * q + r;
    assert r != 0 && k / 4 == q;
  }

  lemma EncodeTail(b: seq<byte>)
    requires b != []
    ensures EncodedSize(|b|) >= 4
    ensures |b| >= 3 ==> Encode(b)[4..] == Encode(b[3..])
    ensures |b| < 3 ==> Encode(b)[4..] == ""
  {
    if |b| >= 3 {
      assert EncodedSize(|b|) == 4 + EncodedSize(|b[3..]|);
      forall k | 0 <= k < EncodedSize(|b[3..]|)
        ensures Encode(b)[4..][k] == Encode(b[3..])[k]
      {
        assert (k + 4) / 4 == k / 4 + 1 && (k + 4) % 4 == k % 4;
        assert Quad(b, k + 4) == Quad(b[3..], k);
      }
    }
  }

  /** Main result: decoding an encoded input gives it back, the padding kept as zero bytes. */
  lemma {:induction false} DecodeEncode(b: seq<byte>)
    ensures Grouped(Encode(b))
    ensures Decode(Encode(b)) == b + Zero(Padding(|b|))
    decreases |b|
  {
    hide Encode, Dec, Quad, DecodeGroup, Grouped, Decode, Zero, Padding, At, EncodedSize, IsBreak;
    var t := Encode(b);
    DecodeEmpty();
    if b != [] {
      EncodeTail(b);
      FirstGroup(b);
      FirstBytes(b);
      if |b| >= 3 {
        DecodeEncode(b[3..]);
      }
      DecodeCons(t);
    }
  }

  lemma DecodeEmpty()
    ensures Encode([]) == "" && Grouped("") && Decode("") == [] && Zero(Padding(0)) == []
  {
  }

  lemma DecodeCons(t: string)
    requires |t| >= 4 && Grouped(t[4..])
    requires forall k | 0 <= k < 4 :: t[k] < 128 as char && !IsBreak(t[k])
    ensures Grouped(t)
    ensures Decode(t) == DecodeGroup(Dec(t[0]), Dec(t[1]), Dec(t[2]), Dec(t[3])) + Decode(t[4..])
  {
  }

  lemma FirstBytes(b: seq<byte>)
    requires b != []
    ensures |b| >= 3 ==> b + Zero(Padding(|b|)) == [At(b, 0), At(b, 1), At(b, 2)] + (b[3..] + Zero(Padding(|b[3..]|)))
    ensures |b| < 3 ==> b + Zero(Padding(|b|)) == [At(b, 0), At(b, 1), At(b, 2)]
  {
  }

  lemma FirstGroup(b: seq<byte>)
    requires b != [] && |Encode(b)| >= 4
    ensures var t := Encode(b);
            && (forall k | 0 <= k < 4 :: t[k] < 128 as char && !IsBreak(t[k]))
            && DecodeGroup(Dec(t[0]), Dec(t[1]), Dec(t[2]), Dec(t[3])) == [At(b, 0), At(b, 1), At(b, 2)]
  {
    hide Encode, Dec, DecodeGroup;
    DecText(b, 0);
    DecText(b, 1);
    DecText(b, 2);
    DecText(b, 3);
    GroupRoundTrip(At(b, 0), At(b, 1), At(b, 2));
  }

  lemma GroupRoundTrip(d1: byte, d2: byte, d3: byte)
    ensures DecodeGroup(d1 / 4, d1 % 4 * 16 + d2 / 16, d2 % 16 * 4 + d3 / 64, d3 % 64) == [d1, d2, d3]
  {
  }

  // ---- texts cut into lines -------------------------------------------------------------------------

  /** A line feed or a carriage return in front of a group changes nothing. */
  lemma BreakIsSkipped(rest: string)
    requires Grouped(rest)
    ensures Grouped(['\n'] + rest) && Decode(['\n'] + rest) == Decode(rest)
    ensures Grouped(['\r'] + rest) && Decode(['\r'] + rest) == Decode(rest)
  {
    hide DecodeGroup, Dec;
    assert (['\n'] + rest)[1..] == rest && (['\r'] + rest)[1..] == rest;
  }

  /** `s` is `t` with any line feeds and carriage returns between its groups of four. */
  ghost predicate CutAt(t: string, s: string)
    decreases |s|
  {
    || (t == "" && s == "")
    || (s != "" && (s[0] == '\n' || s[0] == '\r') && CutAt(t, s[1..]))
    || (|s| >= 4 && |t| >= 4 && s[..4] == t[..4] && CutAt(t[4..], s[4..]))
  }

  lemma GroupAlike(t: string, s: string)
    requires |t| >= 4 && |s| >= 4 && s[..4] == t[..4]
    requires Grouped(t) && !IsBreak(t[0]) && Grouped(s[4..])
    ensures Grouped(t[4..]) && Grouped(s)
    ensures Decode(s[4..]) == Decode(t[4..]) ==> Decode(s) == Decode(t)
  {
    hide DecodeGroup, Dec, IsBreak;
    assert forall k | 0 <= k < 4 :: s[k] == s[..4][k] == t[..4][k] == t[k];
  }

  /** A text without breaks, cut anywhere between its groups, decodes to the same bytes. */
  lemma {:induction false} CutDecodes(t: string, s: string)
    requires CutAt(t, s) && Grouped(t) && forall k | 0 <= k < |t| :: !IsBreak(t[k])
    ensures Grouped(s) && Decode(s) == Decode(t)
    decreases |s|
  {
    hide Decode, Grouped, IsBreak;
    if s != "" && (s[0] == '\n' || s[0] == '\r') && CutAt(t, s[1..]) {
      CutDecodes(t, s[1..]);
      BreakIsSkipped(s[1..]);
      assert s == [s[0]] + s[1..];
    } else if s != "" {
      GroupsBehind(t);
      CutDecodes(t[4..], s[4..]);
      GroupAlike(t, s);
    }
  }

  lemma GroupsBehind(t: string)
    requires |t| >= 4 && Grouped(t) && !IsBreak(t[0])
    ensures Grouped(t[4..])
  {
  }

  /** Main result: the text of RFC 4648, however it is cut into lines, decodes to the input and its zero bytes. */
  lemma DecodeLines(b: seq<byte>, s: string)
    requires CutAt(Rfc4648(b), s)
    ensures Grouped(s) && Decode(s) == b + Zero(Padding(|b|))
  {
    hide Encode, Decode, Grouped, CutAt, Rfc4648, IsBreak;
    EncodeIsRfc4648(b);
    DecodeEncode(b);
    var t := Encode(b);
    forall k | 0 <= k < |t|
      ensures !IsBreak(t[k])
    {
      DecText(b, k);
    }
    CutDecodes(t, s);
  }

  /** Main result: different inputs have different texts. */
  lemma EncodeInjective(a: seq<byte>, b: seq<byte>)
    requires Encode(a) == Encode(b)
    ensures a == b
  {
    hide Encode, Decode, Grouped;
    DecodeEncode(a);
    DecodeEncode(b);
    SizeZero(|a|);
    SizeZero(|b|);
    if a != [] {
      PaddingShows(a);
      PaddingShows(b);
      SameLength(|a|, |b|);
      assert a == (a + Zero(Padding(|a|)))[..|a|];
      assert b == (b + Zero(Padding(|b|)))[..|b|];
    }
  }

  lemma SizeZero(n: nat)
    ensures EncodedSize(n) == 0 <==> n == 0
    ensures n > 0 ==> EncodedSize(n) >= 4
  {
  }

  lemma SameLength(m: nat, n: nat)
    requires EncodedSize(m) == EncodedSize(n)
    requires m % 3 == 0 <==> n % 3 == 0
    requires m % 3 == 1 <==> n % 3 == 1
    ensures m == n
  {
    hide EncodedSize;
    SizeOf(m / 3, m % 3);
    SizeOf(n / 3, n % 3);
  }

  /** The number of padding characters tells the input length modulo 3. */
  lemma PaddingShows(b: seq<byte>)
    requires b != []
    ensures var n := EncodedSize(|b|);
            && n >= 4
            && (Encode(b)[n - 1] == '=' <==> |b| % 3 != 0)
            && (Encode(b)[n - 2] == '=' <==> |b| % 3 == 1)
  {
    hide Quad, Enc;
    var n := EncodedSize(|b|);
    SizeZero(|b|);
    DecEnc(Quad(b, n - 1));
    DecEnc(Quad(b, n - 2));
    LastPlaces(|b|);
  }

  lemma LastPlaces(m: nat)
    requires m > 0
    ensures var n := EncodedSize(m);
            && (6 * (n - 1) < 8 * m <==> m % 3 == 0)
            && (6 * (n - 2) < 8 * m <==> m % 3 != 1)
  {
    hide EncodedSize;
    SizeOf(m / 3, m % 3);
  }

  lemma SizeOf(q: nat, r: nat)
    requires r < 3
    ensures EncodedSize(3 * q + r) == if r == 0 then 4 * q else 4 * q + 4
  {
  }

  /** Line breaks in front of groups, and groups. */
  function GroupBreaks(t: string): nat
    requires Grouped(t)
    decreases |t|
  {
    if t == "" then 0 else if IsBreak(t[0]) then 1 + GroupBreaks(t[1..]) else GroupBreaks(t[4..])
  }

  function Groups(t: string): nat
    requires Grouped(t)
    decreases |t|
  {
    if t == "" then 0 else if IsBreak(t[0]) then Groups(t[1..]) else 1 + Groups(t[4..])
  }

  lemma {:induction false} DecodeLength(t: string)
    requires Grouped(t)
    ensures |t| == 4 * Groups(t) + GroupBreaks(t)
    ensures |Decode(t)| == 3 * Groups(t)
    decreases |t|
  {
    hide Dec, DecodeGroup;
    if t != "" {
      if IsBreak(t[0]) { DecodeLength(t[1..]); } else { DecodeLength(t[4..]); }
    }
  }

  /** B64_RESULT_SIZE is the number of decoded bytes exactly for texts with fewer than four
      line breaks; with more the result ends in bytes the decoder never wrote. */
  lemma DecodedSizeExact(t: string)
    requires Grouped(t)
    ensures |t| / 4 * 3 == |Decode(t)| <==> GroupBreaks(t) < 4
  {
    hide Decode, Grouped;
    DecodeLength(t);
    assert |t| / 4 == Groups(t) + GroupBreaks(t) / 4;
  }

  /** Four line breaks: three bytes are announced and none is decoded. */
  lemma DecodedSizeWrong()
    ensures var t := "\n\n\n\n";
            Grouped(t) && Decode(t) == [] && |t| / 4 * 3 == 3
  {
    var t := "\n\n\n\n";
    assert t[1..] == "\n\n\n" && t[1..][1..] == "\n\n" && t[1..][1..][1..] == "\n" && t[1..][1..][1..][1..] == "";
  }

  // ---- the 32-bit output index ------------------------------------------------------------------------

  /** The characters before padding is stored over the last ones. */
  function Unpadded(b: seq<byte>): (t: string)
    ensures |t| == EncodedSize(|b|)
  {
    seq(EncodedSize(|b|), k requires 0 <= k < EncodedSize(|b|) => Enc(Quad(b, k)))
  }

  /** The buffer after `t` stores when the index is taken modulo 2^32. */
  function Image(raw: string, buf: string, t: nat): (r: string)
    requires |buf| == |raw| && t <= |raw|
    ensures |r| == |raw|
  {
    seq(|raw|, p requires 0 <= p < |raw| =>
      if p + WRAP < t then raw[p + WRAP] else if p < t && p < WRAP then raw[p] else buf[p])
  }

  lemma ImageStep(raw: string, buf: string, t: nat)
    requires |buf| == |raw| && t < |raw| < 2 * WRAP
    ensures Image(raw, buf, t)[t % WRAP := raw[t]] == Image(raw, buf, t + 1)
  {
  }

  function Padded(t: string, n: nat): (r: string)
    requires n <= |t|
    ensures |r| == |t|
  {
    t[..|t| - n] + seq(n, i => '=')
  }

  /** What b64_encode leaves in a result buffer that held `buf`. */
  function Result(b: seq<byte>, buf: string): (r: string)
    requires |buf| == EncodedSize(|b|)
    ensures |r| == |buf|
  {
    Padded(Image(Unpadded(b), buf, |buf|), if |b| == 0 then 0 else Padding(|b|))
  }

  const LONGEST: nat := 3 * 0x4000_0000

  /** Main result: the encoder produces the RFC 4648 text exactly for inputs of at most
      3 * 2^30 bytes; beyond that the 32-bit output index wraps around. */
  lemma EncoderExact(b: seq<byte>)
    requires |b| < WRAP
    ensures (forall buf: string | |buf| == EncodedSize(|b|) :: Result(b, buf) == Rfc4648(b)) <==> |b| <= LONGEST
  {
    hide Encode, Rfc4648, Result;
    EncodeIsRfc4648(b);
    if |b| <= LONGEST {
      forall buf: string | |buf| == EncodedSize(|b|)
        ensures Result(b, buf) == Rfc4648(b)
      {
        ResultIsEncode(b, buf);
      }
    } else {
      var t := Encode(b);
      LongSize(|b|);
      var buf := t[WRAP := if t[WRAP] == 'A' then 'B' else 'A'];
      NeverWritten(b, buf);
    }
  }

  lemma LongSize(n: nat)
    requires LONGEST < n < WRAP
    ensures WRAP + 2 < EncodedSize(n) < 2 * WRAP
  {
  }

  lemma NeverWritten(b: seq<byte>, buf: string)
    requires LONGEST < |b| < WRAP && |buf| == EncodedSize(|b|)
    ensures |buf| > WRAP && Result(b, buf)[WRAP] == buf[WRAP]
  {
    hide Quad, Enc, Unpadded;
    LongSize(|b|);
  }

  lemma ResultIsEncode(b: seq<byte>, buf: string)
    requires |b| <= LONGEST && |buf| == EncodedSize(|b|)
    ensures Result(b, buf) == Encode(b)
  {
    hide Quad, Enc;
    forall k | 0 <= k < |buf|
      ensures Result(b, buf)[k] == Encode(b)[k]
    {
      PaddingPlace(|b|, k);
    }
  }

  lemma PaddingPlace(n: nat, k: nat)
    requires k < EncodedSize(n)
    ensures n > 0 && (k < EncodedSize(n) - Padding(n) <==> 6 * k < 8 * n)
  {
    var q, r := n / 3, n % 3;
    assert n == 3 * q + r;
  }

  // ---- the C functions ---------------------------------------------------------------------------------

  /** b64_encode, with its output index `j` kept in 32 bits; `t` counts the stores. */
  method EncodeBuffer(inbuf: seq<byte>, outbuf: array<char>)
    requires |inbuf| < WRAP && outbuf.Length == EncodedSize(|inbuf|)
    modifies outbuf
    ensures outbuf[..] == Result(inbuf, old(outbuf[..]))
  {
    hide Quad, Enc, Image, Unpadded, Or;
    var n := |inbuf|;
    ghost var raw, buf := Unpadded(inbuf), outbuf[..];
    var i: nat, j: nat := 0, 0;
    ghost var g: nat := 0;
    ImageStart(raw, buf);
    while i < n
      invariant i == (if 3 * g < n then 3 * g else n) && 3 * g <= n + 2
      invariant 4 * g <= |raw| && j == 4 * g % WRAP
      invariant outbuf.Length == |raw| && outbuf[..] == Image(raw, buf, 4 * g)
      decreases n - i
    {
      GroupInside(n, g);
      var dec1: byte := inbuf[i];  // the C test i < inbuf_len is the loop guard here
      i := i + 1;
      var dec2: byte := if i < n then inbuf[i] else 0;
      i := if i < n then i + 1 else i;
      var dec3: byte := if i < n then inbuf[i] else 0;
      i := if i < n then i + 1 else i;
      j := EncodeGroup(inbuf, g, dec1, dec2, dec3, outbuf, j, buf);
      g := g + 1;
    }
    GroupsDone(n, g);
    Pad(outbuf, if n % 3 == 0 then 0 else if n % 3 == 1 then 2 else 1);
  }

  lemma ImageStart(raw: string, buf: string)
    requires |raw| == |buf|
    ensures Image(raw, buf, 0) == buf
  {
  }

  lemma GroupInside(n: nat, g: nat)
    requires 3 * g < n < WRAP
    ensures 4 * g + 4 <= EncodedSize(n) < 2 * WRAP
  {
  }

  lemma GroupsDone(n: nat, g: nat)
    requires n <= 3 * g <= n + 2
    ensures 4 * g == EncodedSize(n)
  {
  }

  lemma OrParts(d1: byte, d2: byte, d3: byte)
    ensures Or(d1 % 4 * 16, d2 / 16) == d1 % 4 * 16 + d2 / 16
    ensures Or(d2 % 16 * 4, d3 / 64) == d2 % 16 * 4 + d3 / 64
  {
    hide Or;
    OrBelow16(d1 % 4, d2 / 16);
    OrBelow4(d2 % 16, d3 / 64);
  }

  lemma QuadsOf(b: seq<byte>, g: nat)
    requires 4 * g + 4 <= EncodedSize(|b|)
    ensures var d1, d2, d3 := At(b, 3 * g), At(b, 3 * g + 1), At(b, 3 * g + 2);
            && Unpadded(b)[4 * g] == Enc(d1 / 4)
            && Unpadded(b)[4 * g + 1] == Enc(d1 % 4 * 16 + d2 / 16)
            && Unpadded(b)[4 * g + 2] == Enc(d2 % 16 * 4 + d3 / 64)
            && Unpadded(b)[4 * g + 3] == Enc(d3 % 64)
  {
    hide Enc;
  }

  /** The four stores of one round of the encoder loop. */
  method EncodeGroup(ghost b: seq<byte>, ghost g: nat, dec1: byte, dec2: byte, dec3: byte,
                     outbuf: array<char>, j0: nat, ghost buf: string) returns (j: nat)
    requires |buf| == outbuf.Length == EncodedSize(|b|) < 2 * WRAP && 4 * g + 4 <= |buf| && j0 == 4 * g % WRAP
    requires dec1 == At(b, 3 * g) && dec2 == At(b, 3 * g + 1) && dec3 == At(b, 3 * g + 2)
    requires outbuf[..] == Image(Unpadded(b), buf, 4 * g)
    modifies outbuf
    ensures outbuf[..] == Image(Unpadded(b), buf, 4 * g + 4)
    ensures j == (4 * g + 4) % WRAP
  {
    hide Quad, Enc, Image, Unpadded, Or, EncodedSize;
    ghost var raw := Unpadded(b);
    QuadsOf(b, g);
    OrParts(dec1, dec2, dec3);
    j := PutChar(outbuf, j0, Enc(dec1 / 4), raw, buf, 4 * g);
    j := PutChar(outbuf, j, Enc(Or(dec1 % 4 * 16, dec2 / 16)), raw, buf, 4 * g + 1);
    j := PutChar(outbuf, j, Enc(Or(dec2 % 16 * 4, dec3 / 64)), raw, buf, 4 * g + 2);
    j := PutChar(outbuf, j, Enc(dec3 % 64), raw, buf, 4 * g + 3);
  }

  /** outbuf[ j++ ] = c with a 32-bit index. */
  method PutChar(outbuf: array<char>, j: nat, c: char, ghost raw: string, ghost buf: string, ghost t: nat)
    returns (next: nat)
    requires |raw| == |buf| == outbuf.Length && t < |raw| < 2 * WRAP && j == t % WRAP
    requires outbuf[..] == Image(raw, buf, t) && c == raw[t]
    modifies outbuf
    ensures outbuf[..] == Image(raw, buf, t + 1)
    ensures next == (t + 1) % WRAP
  {
    hide Image;
    ghost var was := outbuf[..];
    outbuf[j] := c;
    assert outbuf[..] == was[j := c];
    ImageStep(raw, buf, t);
    next := (j + 1) % WRAP;
  }

  /** The padding loop. */
  method Pad(outbuf: array<char>, n: nat)
    requires n <= outbuf.Length
    modifies outbuf
    ensures outbuf[..] == Padded(old(outbuf[..]), n)
  {
    for i := 0 to n
      invariant outbuf[..] == Padded(old(outbuf[..]), i)
    {
      outbuf[outbuf.Length - 1 - i] := '=';
    }
  }

  /** The decoder table as luaopen_t_enc_b64 fills it. */
  ghost predicate TableReady(table: seq<nat>) {
    |table| == 256 && forall c | 0 <= c < 128 :: table[c] == Dec(c as char)
  }

  method InitTable(table: array<nat>)
    requires table.Length == 256 && forall c | 0 <= c < 256 :: table[c] == 0
    modifies table
    ensures TableReady(table[..])
  {
    hide Enc, Dec;
    for i := 0 to 64
      invariant forall c | 0 <= c < 128 :: table[c] == (if Dec(c as char) < i then Dec(c as char) else 0)
    {
      DecEnc(i);
      OnlyEnc(i);
      table[Enc(i) as int] := i;
    }
  }

  /** No other character decodes to i, except that unused ones decode to 0. */
  lemma OnlyEnc(i: nat)
    requires i < 64
    ensures forall c: char :: Dec(c) == i && i > 0 ==> c == Enc(i)
  {
    hide Enc, Dec;
    forall c: char | Dec(c) == i && i > 0
      ensures c == Enc(i)
    {
      EncDec(c);
    }
  }

  lemma EncDec(c: char)
    ensures Dec(c) > 0 ==> c == Enc(Dec(c))
  {
    var v := Dec(c);
    if v == 0 {
    } else if v < 26 {
      UpperCode(v);
      assert Enc(v) == UPPER[v];
    } else if v < 52 {
      LowerCode(v - 26);
      assert Enc(v) == LOWER[v - 26];
    } else {
      OtherCode(c);
      assert Enc(v) == OTHER[v - 52];
    }
  }

  lemma OtherCode(c: char)
    requires Dec(c) >= 52
    ensures OTHER[Dec(c) - 52] == c
  {
  }

  // ---- the 32-bit index of the decoder ------------------------------------------------------------

  /** The index behind one turn of the decoder loop: past a line break, or past four characters. */
  function Turn(t: string, i: nat): (r: nat)
    requires i < |t|
    ensures r < WRAP
  {
    if IsBreak(t[i]) then (i + 1) % WRAP else (i + 4) % WRAP
  }

  /** The index after `k` turns; the loop ends where it has reached the length. */
  function IndexAfter(t: string, k: nat): nat {
    if k == 0 then 0
    else
      var i := IndexAfter(t, k - 1);
      if i >= |t| then i else Turn(t, i)
  }

  /** The index is a 32-bit number, so it never reaches a longer length. */
  lemma {:induction false} IndexBelow(t: string, k: nat)
    requires |t| >= WRAP
    ensures IndexAfter(t, k) < WRAP
  {
    if k > 0 {
      IndexBelow(t, k - 1);
    }
  }

  lemma TurnBorder(t: string, i: nat)
    requires i < |t| < WRAP && Grouped(t[i..])
    ensures i < Turn(t, i) <= |t| && Grouped(t[Turn(t, i)..])
  {
    hide Grouped, Decode, IsBreak, Dec;
    NextGroup(t, i);
    if IsBreak(t[i]) {
      Within32(i + 1, |t|);
    } else {
      Within32(i + 4, |t|);
    }
  }

  /** In a shorter text it gets from one group border to the end. */
  lemma {:induction false} IndexReaches(t: string, k: nat)
    requires |t| < WRAP && IndexAfter(t, k) <= |t| && Grouped(t[IndexAfter(t, k)..])
    ensures exists n: nat :: IndexAfter(t, n) >= |t|
    decreases |t| - IndexAfter(t, k)
  {
    var i := IndexAfter(t, k);
    if i < |t| {
      TurnBorder(t, i);
      assert IndexAfter(t, k + 1) == Turn(t, i);
      hide Grouped, Turn, IndexAfter;
      IndexReaches(t, k + 1);
    }
  }

  /** Main result: the decoder ends on complete groups exactly when the text is shorter than 2^32. */
  lemma DecoderEnds(t: string)
    requires Grouped(t)
    ensures (exists k: nat :: IndexAfter(t, k) >= |t|) <==> |t| < WRAP
  {
    hide Grouped;
    if |t| < WRAP {
      assert t[0..] == t && IndexAfter(t, 0) == 0;
      IndexReaches(t, 0);
    } else {
      forall k: nat
        ensures IndexAfter(t, k) < |t|
      {
        IndexBelow(t, k);
      }
    }
  }

  /** Main result: decoding what was encoded ends exactly for inputs of at most 3 * 2^30 - 3 bytes. */
  lemma RoundTripEnds(b: seq<byte>)
    ensures var t := Encode(b);
            (exists k: nat :: IndexAfter(t, k) >= |t|) <==> |b| <= LONGEST - 3
  {
    hide Encode, Grouped, IndexAfter, Decode;
    DecodeEncode(b);
    DecoderEnds(Encode(b));
    SizeLimit(|b|);
  }

  lemma SizeLimit(n: nat)
    ensures EncodedSize(n) < WRAP <==> n <= LONGEST - 3
  {
  }

  /** Encoding into one buffer and decoding into another gives the input back, with padding as zero bytes. */
  method RoundTrip(input: seq<byte>, table: array<nat>) returns (text: array<char>, out: array<byte>)
    requires |input| <= LONGEST - 3 && TableReady(table[..])
    ensures text[..] == Rfc4648(input)
    ensures out[..] == input + Zero(Padding(|input|))
  {
    hide Encode, Decode, Grouped, Rfc4648, Result, TableReady;
    text := new char[EncodedSize(|input|)];
    ghost var before, ready := text[..], table[..];
    EncodeBuffer(input, text);
    ResultIsEncode(input, before);
    EncodeIsRfc4648(input);
    SizeLimit(|input|);
    DecodeEncode(input);
    ResultSize(|input|);
    out := new byte[|text[..]| / 4 * 3];
    assert table[..] == ready;
    DecodeBuffer(text[..], out, table);
  }

  /** b64_decode on the text of RFC 4648 with line breaks between its groups. */
  method DecodeText(ghost input: seq<byte>, text: string, out: array<byte>, table: array<nat>)
    requires CutAt(Rfc4648(input), text) && |text| < WRAP
    requires TableReady(table[..]) && out.Length >= |text| / 4 * 3
    modifies out
    ensures out.Length >= |input| + Padding(|input|)
    ensures out[..] == input + Zero(Padding(|input|)) + old(out[|input| + Padding(|input|)..])
  {
    hide CutAt, Rfc4648, Decode, Grouped, TableReady;
    DecodeLines(input, text);
    DecodeBuffer(text, out, table);
  }

  lemma ResultSize(n: nat)
    ensures EncodedSize(n) / 4 * 3 == n + Padding(n)
  {
    hide EncodedSize;
    SizeOf(n / 3, n % 3);
  }

  /** b64_decode, with both indices kept in 32 bits. */
  method DecodeBuffer(inbuf: string, outbuf: array<byte>, table: array<nat>)
    requires Grouped(inbuf) && |inbuf| < WRAP
    requires TableReady(table[..]) && outbuf.Length >= |inbuf| / 4 * 3
    modifies outbuf
    ensures outbuf.Length >= |Decode(inbuf)|
    ensures outbuf[..] == Decode(inbuf) + old(outbuf[|Decode(inbuf)|..])
  {
    hide Dec, Decode, Grouped, DecodeGroup, Or, IsBreak, Groups, GroupBreaks, TableReady, Decoding, Storing;
    ghost var out0, done: seq<byte> := outbuf[..], [];
    var i, j := 0, 0;
    DecodingStart(inbuf);
    StoringStart(out0);
    while i < |inbuf|
      invariant 0 <= i <= |inbuf| && j == |done| <= outbuf.Length
      invariant Decoding(inbuf, i, done) && Storing(out0, done, outbuf[..])
      decreases |inbuf| - i
    {
      DecodingStep(inbuf, i, done);
      if IsBreak(inbuf[i]) {
        Within32(i + 1, |inbuf|);
        i := (i + 1) % WRAP;
      } else {
        Within32(i + 4, |inbuf|);
        Within32(j + 3, |inbuf|);
        ghost var group := DecodeGroup(Dec(inbuf[i]), Dec(inbuf[i + 1]), Dec(inbuf[i + 2]), Dec(inbuf[i + 3]));
        StoringStep(out0, done, outbuf[..], group);
        PutBytes(inbuf, i, outbuf, j, table);
        done := done + group;
        i, j := (i + 4) % WRAP, (j + 3) % WRAP;
      }
    }
    DecodingDone(inbuf, done);
    StoringEnd(out0, done, outbuf[..]);
  }

  lemma Within32(i: nat, n: nat)
    requires i <= n < WRAP
    ensures i % WRAP == i
  {
  }

  /** `done` is what the first `i` characters decode to. */
  ghost predicate Decoding(t: string, i: nat, done: seq<byte>) {
    && i <= |t| && Grouped(t) && Grouped(t[i..])
    && done + Decode(t[i..]) == Decode(t)
    && |Decode(t)| <= |t| / 4 * 3
  }

  lemma DecodingStart(t: string)
    requires Grouped(t)
    ensures Decoding(t, 0, [])
  {
    assert t[0..] == t;
    DecodeLength(t);
  }

  lemma DecodingStep(t: string, i: nat, done: seq<byte>)
    requires Decoding(t, i, done) && i < |t|
    ensures IsBreak(t[i]) ==> Decoding(t, i + 1, done)
    ensures !IsBreak(t[i]) ==>
              && i + 4 <= |t| && (forall k | i <= k < i + 4 :: t[k] < 128 as char)
              && Decoding(t, i + 4, done + DecodeGroup(Dec(t[i]), Dec(t[i + 1]), Dec(t[i + 2]), Dec(t[i + 3])))
              && |done| + 3 <= |t| / 4 * 3
  {
    hide Decode, Grouped, DecodeGroup, Dec, IsBreak;
    NextGroup(t, i);
    if !IsBreak(t[i]) {
      var group := DecodeGroup(Dec(t[i]), Dec(t[i + 1]), Dec(t[i + 2]), Dec(t[i + 3]));
      var rest := Decode(t[i + 4..]);
      assert done + (group + rest) == (done + group) + rest;
    }
  }

  lemma DecodingDone(t: string, done: seq<byte>)
    requires Decoding(t, |t|, done)
    ensures done == Decode(t)
  {
    assert t[|t|..] == "";
  }

  /** The buffer starts with `done` and is otherwise as it was. */
  ghost predicate Storing(out0: seq<byte>, done: seq<byte>, now: seq<byte>) {
    |done| <= |out0| && now == done + out0[|done|..]
  }

  lemma StoringStart(out0: seq<byte>)
    ensures Storing(out0, [], out0)
  {
  }

  lemma StoringStep(out0: seq<byte>, done: seq<byte>, now: seq<byte>, group: seq<byte>)
    requires Storing(out0, done, now) && |group| == 3 && |done| + 3 <= |now|
    ensures Storing(out0, done + group, now[..|done|] + group + now[|done| + 3..])
  {
  }

  lemma StoringEnd(out0: seq<byte>, done: seq<byte>, now: seq<byte>)
    requires Storing(out0, done, now)
    ensures |done| <= |out0| && now == done + out0[|done|..]
  {
  }

  /** One round of the decoder loop: four characters in, three bytes out. */
  method PutBytes(inbuf: string, i: nat, outbuf: array<byte>, j: nat, table: array<nat>)
    requires i + 4 <= |inbuf| && (forall k | i <= k < i + 4 :: inbuf[k] < 128 as char)
    requires j + 3 <= outbuf.Length && TableReady(table[..])
    modifies outbuf
    ensures outbuf[..] == old(outbuf[..j])
                          + DecodeGroup(Dec(inbuf[i]), Dec(inbuf[i + 1]), Dec(inbuf[i + 2]), Dec(inbuf[i + 3]))
                          + old(outbuf[j + 3..])
  {
    hide Dec, DecodeGroup, Or;
    var e1, e2 := table[inbuf[i] as int], table[inbuf[i + 1] as int];
    var e3, e4 := table[inbuf[i + 2] as int], table[inbuf[i + 3] as int];
    OrBytes(e1, e2, e3, e4);
    Store3(outbuf, j, Or(e1 * 4 % 256, e2 / 16), Or(e2 % 16 * 16, e3 / 4), Or(e3 % 4 * 64, e4));
  }

  method Store3(outbuf: array<byte>, j: nat, c0: byte, c1: byte, c2: byte)
    requires j + 3 <= outbuf.Length
    modifies outbuf
    ensures outbuf[..] == old(outbuf[..j]) + [c0, c1, c2] + old(outbuf[j + 3..])
  {
    outbuf[j] := c0;
    outbuf[j + 1] := c1;
    outbuf[j + 2] := c2;
  }

  lemma NextGroup(t: string, i: nat)
    requires i < |t| && Grouped(t[i..])
    ensures IsBreak(t[i]) ==> Grouped(t[i + 1..]) && Decode(t[i..]) == Decode(t[i + 1..])
    ensures !IsBreak(t[i]) ==>
              && i + 4 <= |t| && (forall k | i <= k < i + 4 :: t[k] < 128 as char) && Grouped(t[i + 4..])
              && Decode(t[i..])
                 == DecodeGroup(Dec(t[i]), Dec(t[i + 1]), Dec(t[i + 2]), Dec(t[i + 3])) + Decode(t[i + 4..])
  {
    var s := t[i..];
    assert s[1..] == t[i + 1..];
    if !IsBreak(s[0]) {
      assert s[4..] == t[i + 4..];
      forall k | i <= k < i + 4
        ensures t[k] < 128 as char
      {
        assert s[k - i] == t[k];
      }
    }
  }

  lemma OrBytes(e1: nat, e2: nat, e3: nat, e4: nat)
    requires e1 < 64 && e2 < 64 && e3 < 64 && e4 < 64
    ensures var group := DecodeGroup(e1, e2, e3, e4);
            && Or(e1 * 4 % 256, e2 / 16) == group[0]
            && Or(e2 % 16 * 16, e3 / 4) == group[1]
            && Or(e3 % 4 * 64, e4) == group[2]
  {
    hide Or;
    assert e1 * 4 % 256 == e1 * 4;
    OrBelow4(e1, e2 / 16);
    OrBelow16(e2 % 16, e3 / 4);
    OrBelow64(e3 % 4, e4);
  }
}
