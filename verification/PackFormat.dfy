/** The format strings of `t.Pack` (`t_pck__format.c`) on an LP64 host. */
module PackFormat {

  datatype Kind = Bool | Int | Float | Raw

  /** An atomic packer: kind, size in bits, modifier flags. */
  datatype Spec = Spec(kind: Kind, bits: nat, signed: bool, little: bool)

  datatype Parsed =
    | Ok(specs: seq<Spec>)
    | BadOption(c: char)
    | BadSize(size: nat, max: nat)

  const NB := 8
  const MXINT := 8
  const SZINT := 4
  const MXBIT := 64
  const MAXSIZE := 0x7fff_ffff
  const DIGIT_LIMIT := (MAXSIZE - 9) / NB

  // ---- what a letter means ------------------------------------------------------------------

  /** Default and limit of the number after a letter, and the unit it counts in bits. */
  datatype Letter =
    | Fixed(spec: Spec)
    | Sized(proto: Spec, dft: nat, max: nat, unit: nat)
    | Unknown

  function LetterOf(c: char, e: bool): Letter {
    match c
    case 'b' => Fixed(Spec(Int, NB, true, e))
    case 'B' => Fixed(Spec(Int, NB, false, e))
    case 'h' => Fixed(Spec(Int, 2 * NB, true, e))
    case 'H' => Fixed(Spec(Int, 2 * NB, false, e))
    case 'l' => Fixed(Spec(Int, 8 * NB, true, e))
    case 'L' => Fixed(Spec(Int, 8 * NB, false, e))
    case 'j' => Fixed(Spec(Int, 8 * NB, true, e))
    case 'J' => Fixed(Spec(Int, 8 * NB, false, e))
    case 'T' => Fixed(Spec(Int, 8 * NB, false, e))
    case 'i' => Sized(Spec(Int, 0, true, e), SZINT, MXINT, NB)
    case 'I' => Sized(Spec(Int, 0, false, e), SZINT, MXINT, NB)
    case 'f' => Fixed(Spec(Float, 4 * NB, false, e))
    case 'd' => Fixed(Spec(Float, 8 * NB, false, e))
    case 'n' => Fixed(Spec(Float, 8 * NB, false, e))
    case 'c' => Sized(Spec(Raw, 0, false, false), 1, MAXSIZE, NB)
    case 'v' => Fixed(Spec(Bool, 1, false, false))
    case 'r' => Sized(Spec(Int, 0, true, false), 1, MXBIT, 1)
    case 'R' => Sized(Spec(Int, 0, false, false), 1, MXBIT, 1)
    case _ => Unknown
  }

  predicate IsDigit(c: char) {
    '0' <= c <= '9'
  }

  function DigitValue(c: char): (n: nat)
    requires IsDigit(c)
    ensures n < 10
  {
    c as int - '0' as int
  }

  // ---- the parser as a function ---------------------------------------------------------------

  /** The digit loop of t_pck_parseSize: the number read and how many digits it took. */
  function Scan(f: string, a: nat): (r: (nat, nat))
    ensures r.1 <= |f|
    decreases |f|
  {
    if f != "" && IsDigit(f[0]) && a < DIGIT_LIMIT then
      var (n, k) := Scan(f[1..], a * 10 + DigitValue(f[0]));
      (n, k + 1)
    else (a, 0)
  }

  function ParseSize(f: string, dft: nat): (r: (nat, nat))
    ensures r.1 <= |f|
  {
    if f == "" || !IsDigit(f[0]) then (dft, 0) else Scan(f, 0)
  }

  function Cons(s: Spec, r: Parsed): Parsed {
    if r.Ok? then Ok([s] + r.specs) else r
  }

  /** All packers of a format string, the current byte order being `e` (true: little). */
  function Parse(f: string, e: bool): Parsed
    decreases |f|
  {
    if f == "" || f[0] == '\0' then Ok([])
    else if f[0] == '<' then Parse(f[1..], true)
    else if f[0] == '>' then Parse(f[1..], false)
    else if f[0] == ' ' then Parse(f[1..], e)
    else match LetterOf(f[0], e)
      case Fixed(s) => Cons(s, Parse(f[1..], e))
      case Sized(proto, dft, max, unit) =>
        var (n, k) := ParseSize(f[1..], dft);
        if n > max || n == 0 then BadSize(n, max)
        else Cons(proto.(bits := n * unit), Parse(f[1 + k..], e))
      case Unknown => BadOption(f[0])
  }

  // ---- what format strings are: lists of tokens -----------------------------------------------

  datatype Token = Little | Big | Blank | Item(letter: char, digits: string)

  function Number(digits: string): nat
    requires forall c | c in digits :: IsDigit(c)
  {
    if digits == "" then 0 else Number(digits[..|digits| - 1]) * 10 + DigitValue(digits[|digits| - 1])
  }

  predicate WellFormed(t: Token) {
    t.Item? ==>
      && (forall c | c in t.digits :: IsDigit(c))
      && match LetterOf(t.letter, false)
         case Fixed(_) => t.digits == ""
         case Sized(_, _, max, _) => t.digits == "" || 1 <= Number(t.digits) <= max
         case Unknown => false
  }

  predicate AllWellFormed(ts: seq<Token>) {
    forall t | t in ts :: WellFormed(t)
  }

  function Print(t: Token): string {
    match t
    case Little => "<"
    case Big => ">"
    case Blank => " "
    case Item(c, d) => [c] + d
  }

  function PrintAll(ts: seq<Token>): string {
    if ts == [] then "" else Print(ts[0]) + PrintAll(ts[1..])
  }

  /** The packer one item stands for. */
  function ItemSpec(t: Token, e: bool): Spec
    requires t.Item? && WellFormed(t)
  {
    match LetterOf(t.letter, e)
    case Fixed(s) => s
    case Sized(proto, dft, _, unit) =>
      proto.(bits := (if t.digits == "" then dft else Number(t.digits)) * unit)
  }

  /** What a token list denotes: a byte-order mark holds until the next one. */
  function Meaning(ts: seq<Token>, e: bool): seq<Spec>
    requires AllWellFormed(ts)
  {
    if ts == [] then []
    else match ts[0]
      case Little => Meaning(ts[1..], true)
      case Big => Meaning(ts[1..], false)
      case Blank => Meaning(ts[1..], e)
      case Item(_, _) => [ItemSpec(ts[0], e)] + Meaning(ts[1..], e)
  }

  // ---- parsing printed tokens --------------------------------------------------------------------

  lemma LetterOrderFree(c: char, e: bool)
    ensures LetterOf(c, e).Fixed? == LetterOf(c, false).Fixed?
    ensures LetterOf(c, e).Sized? ==> LetterOf(c, false).Sized?
                                      && LetterOf(c, e).max == LetterOf(c, false).max
                                      && LetterOf(c, e).dft == LetterOf(c, false).dft
    ensures LetterOf(c, e).Unknown? == LetterOf(c, false).Unknown?
    ensures IsDigit(c) || c == '\0' || c == '<' || c == '>' || c == ' ' ==> LetterOf(c, e).Unknown?
    ensures LetterOf(c, e).Sized? ==> 1 <= LetterOf(c, e).dft <= LetterOf(c, e).max <= MAXSIZE
  {
  }

  lemma {:induction false} NumberPrepend(c: char, d: string, a: nat)
    requires IsDigit(c) && forall x | x in d :: IsDigit(x)
    ensures Accumulate(a, [c] + d) == Accumulate(a * 10 + DigitValue(c), d)
    decreases |d|
  {
    var s := [c] + d;
    if d == "" {
      assert s[..|s| - 1] == "";
    } else {
      assert s[..|s| - 1] == [c] + d[..|d| - 1];
      assert s[|s| - 1] == d[|d| - 1];
      NumberPrepend(c, d[..|d| - 1], a);
    }
  }

  /** The number whose leading digits spell `a` and whose others are `d`. */
  function Accumulate(a: nat, d: string): nat
    requires forall c | c in d :: IsDigit(c)
    decreases |d|
  {
    if d == "" then a else Accumulate(a, d[..|d| - 1]) * 10 + DigitValue(d[|d| - 1])
  }

  lemma {:induction false} AccumulateGrows(a: nat, d: string)
    requires forall c | c in d :: IsDigit(c)
    ensures a <= Accumulate(a, d)
    ensures d != "" ==> 10 * a <= Accumulate(a, d)
    decreases |d|
  {
    if d != "" {
      AccumulateGrows(a, d[..|d| - 1]);
    }
  }

  lemma {:induction false} AccumulateZero(d: string)
    requires forall c | c in d :: IsDigit(c)
    ensures Accumulate(0, d) == Number(d)
    decreases |d|
  {
    if d != "" {
      AccumulateZero(d[..|d| - 1]);
    }
  }

  /** The overflow guard never cuts off a size that is within limits. */
  lemma {:induction false} ScanReadsAll(d: string, rest: string, a: nat)
    requires forall c | c in d :: IsDigit(c)
    requires rest == "" || !IsDigit(rest[0])
    requires Accumulate(a, d) <= MAXSIZE
    ensures Scan(d + rest, a) == (Accumulate(a, d), |d|)
    decreases |d|
  {
    if d == "" {
      assert d + rest == rest;
    } else {
      var a' := a * 10 + DigitValue(d[0]);
      assert d == [d[0]] + d[1..];
      NumberPrepend(d[0], d[1..], a);
      AccumulateGrows(a, d);
      assert (d + rest)[1..] == d[1..] + rest;
      ScanReadsAll(d[1..], rest, a');
    }
  }

  lemma PrintedStart(ts: seq<Token>)
    requires AllWellFormed(ts)
    ensures PrintAll(ts) == "" || (!IsDigit(PrintAll(ts)[0]) && PrintAll(ts)[0] != '\0')
  {
    if ts != [] {
      assert ts[0] in ts && WellFormed(ts[0]);
      if ts[0].Item? {
        LetterOrderFree(ts[0].letter, false);
      }
      assert PrintAll(ts)[0] == Print(ts[0])[0];
    }
  }

  /** Main result: a printed token list parses to its meaning, for either start order. */
  lemma ParsePrinted(ts: seq<Token>, e: bool)
    requires AllWellFormed(ts)
    ensures Parse(PrintAll(ts), e) == Ok(Meaning(ts, e))
  {
    hide WellFormed, Meaning;
    ParsePrefix(ts, "", e);
    assert PrintAll(ts) + "" == PrintAll(ts);
    assert Parse("", OrderAfter(ts, e)) == Ok([]);
  }

  // ---- what ends a format string early ---------------------------------------------------------------

  /** The byte order in force behind a list of tokens. */
  function OrderAfter(ts: seq<Token>, e: bool): bool {
    if ts == [] then e else OrderAfter(ts[1..], Marked(ts[0], e))
  }

  function Marked(t: Token, e: bool): bool {
    match t
    case Little => true
    case Big => false
    case _ => e
  }

  /**
    * The digit loop stops at `rest` behind these digits: there are no more, or so many have been read that the
    * overflow guard ends it. Without digits it does not start.
    */
  predicate StopsAt(digits: string, rest: string)
    requires forall c | c in digits :: IsDigit(c)
  {
    || rest == "" || !IsDigit(rest[0])
    || (digits != "" && Number(digits) >= 268435454)
  }

  /** No shorter run of the digits stops the loop. */
  predicate GoesOn(digits: string)
    requires forall c | c in digits :: IsDigit(c)
  {
    forall k | 0 < k < |digits| :: Number(digits[..k]) < 268435454
  }

  /** The text behind a token is not read as part of it. */
  predicate Separate(t: Token, rest: string)
    requires WellFormed(t)
  {
    t.Item? && LetterOf(t.letter, false).Sized? ==> StopsAt(t.digits, rest)
  }

  /** Numbers within the limits are short enough for the overflow guard. */
  lemma WithinGoesOn(d: string)
    requires (forall c | c in d :: IsDigit(c)) && Number(d) <= MAXSIZE
    ensures GoesOn(d)
  {
    forall k | 0 < k < |d|
      ensures Number(d[..k]) < 268435454
    {
      PrefixNumber(d, k);
    }
  }

  lemma {:induction false} PrefixNumber(d: string, k: nat)
    requires (forall c | c in d :: IsDigit(c)) && k < |d|
    ensures 10 * Number(d[..k]) <= Number(d)
    decreases |d|
  {
    var n := |d| - 1;
    if k < n {
      PrefixNumber(d[..n], k);
      assert d[..n][..k] == d[..k];
    }
  }

  lemma NumberIsAccumulated(d: string, k: nat)
    requires (forall c | c in d :: IsDigit(c)) && k <= |d|
    ensures Number(d[..k]) == Accumulate(0, d[..k])
  {
    AccumulateZero(d[..k]);
  }

  /** The digit loop reads the digits as one number, whether a non-digit or the overflow guard ends it. */
  lemma {:induction false} ScanStops(d: string, rest: string, a: nat)
    requires forall c | c in d :: IsDigit(c)
    requires forall k | 0 <= k < |d| :: Accumulate(a, d[..k]) < 268435454
    requires rest == "" || !IsDigit(rest[0]) || Accumulate(a, d) >= 268435454
    ensures Scan(d + rest, a) == (Accumulate(a, d), |d|)
    decreases |d|
  {
    hide Accumulate, DigitValue;
    assert d[..0] == "";
    AccumulateNone(a);
    if d == "" {
      assert d + rest == rest;
    } else {
      var a', more := a * 10 + DigitValue(d[0]), d[1..];
      assert d == [d[0]] + more;
      forall k | 0 <= k < |more|
        ensures Accumulate(a', more[..k]) < 268435454
      {
        assert d[..k + 1] == [d[0]] + more[..k];
        NumberPrepend(d[0], more[..k], a);
      }
      NumberPrepend(d[0], more, a);
      assert (d + rest)[1..] == more + rest;
      ScanStops(more, rest, a');
    }
  }

  lemma AccumulateNone(a: nat)
    ensures Accumulate(a, "") == a
  {
  }

  lemma ParseSizeStops(d: string, rest: string, dft: nat)
    requires (forall c | c in d :: IsDigit(c)) && GoesOn(d) && StopsAt(d, rest)
    ensures ParseSize(d + rest, dft) == (if d == "" then dft else Number(d), |d|)
  {
    if d == "" {
      assert d + rest == rest;
    } else {
      NumberIsAccumulated(d, |d|);
      assert d[..|d|] == d;
      forall k | 0 <= k < |d|
        ensures Accumulate(0, d[..k]) < 268435454
      {
        NumberIsAccumulated(d, k);
        assert k == 0 ==> d[..k] == "";
      }
      ScanStops(d, rest, 0);
    }
  }

  /** Behind a token that ends where the rest begins, the parser goes on with the rest. */
  lemma ParseBehind(t: Token, rest: string, e: bool)
    requires WellFormed(t) && Separate(t, rest)
    ensures Parse(Print(t) + rest, e)
            == Prefixed(Meaning([t], e), Parse(rest, Marked(t, e)))
  {
    hide LetterOf, ItemSpec, Separate, WellFormed;
    assert [t][1..] == [];
    if t.Item? {
      ItemBehind(t, rest, e);
      assert Print(t) + rest == [t.letter] + t.digits + rest;
    } else {
      assert (Print(t) + rest)[1..] == rest;
    }
  }

  lemma SizeBehind(t: Token, rest: string, dft: nat)
    requires t.Item? && WellFormed(t) && LetterOf(t.letter, false).Sized? && Separate(t, rest)
    ensures ParseSize(t.digits + rest, dft) == (if t.digits == "" then dft else Number(t.digits), |t.digits|)
  {
    hide ParseSize;
    LetterOrderFree(t.letter, false);
    hide LetterOf, GoesOn;
    WithinGoesOn(t.digits);
    ParseSizeStops(t.digits, rest, dft);
  }

  lemma ItemBehind(t: Token, rest: string, e: bool)
    requires t.Item? && WellFormed(t) && Separate(t, rest)
    ensures Parse([t.letter] + t.digits + rest, e) == Cons(ItemSpec(t, e), Parse(rest, e))
  {
    hide ParseSize, Separate, Number;
    var f := [t.letter] + t.digits + rest;
    LetterOrderFree(t.letter, e);
    assert f[1..] == t.digits + rest && f[1 + |t.digits|..] == rest;
    if LetterOf(t.letter, e).Sized? {
      SizeBehind(t, rest, LetterOf(t.letter, e).dft);
    }
  }

  /** The last token ends where the rest begins. */
  predicate EndsBefore(ts: seq<Token>, rest: string)
    requires AllWellFormed(ts)
  {
    ts != [] ==> Separate(ts[|ts| - 1], rest)
  }

  /** Main result: behind well-formed tokens the parser goes on as on the rest alone. */
  lemma {:induction false} ParsePrefix(ts: seq<Token>, rest: string, e: bool)
    requires AllWellFormed(ts) && EndsBefore(ts, rest)
    ensures Parse(PrintAll(ts) + rest, e) == Prefixed(Meaning(ts, e), Parse(rest, OrderAfter(ts, e)))
    decreases |ts|
  {
    hide Parse, WellFormed, Separate;
    if ts == [] {
      assert PrintAll(ts) + rest == rest;
    } else {
      var t, more := ts[0], PrintAll(ts[1..]) + rest;
      FirstSeparate(ts, rest);
      PrintCons(ts, rest);
      MeaningCons(ts, e);
      hide *;
      ParseBehind(t, more, e);
      ParsePrefix(ts[1..], rest, Marked(t, e));
      PrefixedTwice(Meaning([t], e), Meaning(ts[1..], Marked(t, e)), Parse(rest, OrderAfter(ts, e)));
    }
  }

  lemma MeaningCons(ts: seq<Token>, e: bool)
    requires AllWellFormed(ts) && ts != []
    ensures AllWellFormed(ts[1..]) && AllWellFormed([ts[0]])
    ensures Meaning(ts, e) == Meaning([ts[0]], e) + Meaning(ts[1..], Marked(ts[0], e))
    ensures OrderAfter(ts, e) == OrderAfter(ts[1..], Marked(ts[0], e))
  {
    hide WellFormed, ItemSpec;
    assert [ts[0]][1..] == [];
    assert forall t | t in ts[1..] :: t in ts;
  }

  lemma PrintCons(ts: seq<Token>, rest: string)
    requires ts != []
    ensures PrintAll(ts) + rest == Print(ts[0]) + (PrintAll(ts[1..]) + rest)
  {
    hide Print;
  }

  lemma PrefixedTwice(a: seq<Spec>, b: seq<Spec>, r: Parsed)
    ensures Prefixed(a, Prefixed(b, r)) == Prefixed(a + b, r)
  {
  }

  lemma FirstSeparate(ts: seq<Token>, rest: string)
    requires AllWellFormed(ts) && ts != [] && EndsBefore(ts, rest)
    ensures AllWellFormed(ts[1..]) && EndsBefore(ts[1..], rest)
    ensures WellFormed(ts[0]) && Separate(ts[0], PrintAll(ts[1..]) + rest)
  {
    hide WellFormed;
    if ts[1..] == [] {
      assert PrintAll(ts[1..]) + rest == rest;
    } else {
      PrintedStart(ts[1..]);
      PrintNotEmpty(ts[1..]);
    }
  }

  lemma PrintNotEmpty(ts: seq<Token>)
    requires ts != []
    ensures PrintAll(ts) != ""
  {
  }

  /** The first letter with a number outside its limits is reported with that number and the limit. */
  lemma BadSizeReported(ts: seq<Token>, c: char, digits: string, rest: string, e: bool)
    requires AllWellFormed(ts) && c in "iIrRc"
    requires digits != "" && (forall x | x in digits :: IsDigit(x)) && GoesOn(digits) && StopsAt(digits, rest)
    requires Number(digits) == 0 || Number(digits) > (if c in "iI" then 8 else if c in "rR" then 64 else 0x7fff_ffff)
    ensures Parse(PrintAll(ts) + ([c] + digits + rest), e)
            == BadSize(Number(digits), if c in "iI" then 8 else if c in "rR" then 64 else 0x7fff_ffff)
  {
    hide Parse, WellFormed, EndsBefore, StopsAt, GoesOn, Number, Meaning, LetterOf;
    var f := [c] + digits + rest;
    assert f[0] == c;
    LetterStarts(ts, c, f);
    ParsePrefix(ts, f, e);
    ParseBadSize(c, digits, rest, OrderAfter(ts, e));
  }

  lemma ParseBadSize(c: char, digits: string, rest: string, e: bool)
    requires c in "iIrRc" && digits != "" && (forall x | x in digits :: IsDigit(x))
    requires GoesOn(digits) && StopsAt(digits, rest)
    requires Number(digits) == 0 || Number(digits) > (if c in "iI" then 8 else if c in "rR" then 64 else 0x7fff_ffff)
    ensures Parse([c] + digits + rest, e)
            == BadSize(Number(digits), if c in "iI" then 8 else if c in "rR" then 64 else 0x7fff_ffff)
  {
    hide StopsAt, GoesOn, Number, ParseSize;
    var f := [c] + digits + rest;
    assert f[0] == c && f[1..] == digits + rest;
    ParseSizeStops(digits, rest, 1);
    ParseSizeStops(digits, rest, 4);
  }

  lemma LetterStarts(ts: seq<Token>, c: char, f: string)
    requires AllWellFormed(ts) && f != "" && f[0] == c && !IsDigit(c)
    ensures EndsBefore(ts, f)
  {
  }

  /** The first character that is no option is reported. */
  lemma UnknownReported(ts: seq<Token>, c: char, rest: string, e: bool)
    requires AllWellFormed(ts) && c !in "bBhHlLjJTiIfdncvrR<> \0" && EndsBefore(ts, [c] + rest)
    ensures Parse(PrintAll(ts) + ([c] + rest), e) == BadOption(c)
  {
    assert ([c] + rest)[0] == c;
    ParsePrefix(ts, [c] + rest, e);
  }

  /** A NUL ends the string. */
  lemma NulEnds(ts: seq<Token>, rest: string, e: bool)
    requires AllWellFormed(ts)
    ensures Parse(PrintAll(ts) + ("\0" + rest), e) == Ok(Meaning(ts, e))
  {
    var f := "\0" + rest;
    assert f[0] == '\0';
    LetterStarts(ts, '\0', f);
    ParsePrefix(ts, f, e);
  }

  lemma {:induction false} ScanTakesDigits(f: string, a: nat)
    ensures forall c | c in f[..Scan(f, a).1] :: IsDigit(c)
    ensures Scan(f, a).0 == Accumulate(a, f[..Scan(f, a).1])
    decreases |f|
  {
    if f != "" && IsDigit(f[0]) && a < DIGIT_LIMIT {
      var a' := a * 10 + DigitValue(f[0]);
      ScanTakesDigits(f[1..], a');
      var k := Scan(f[1..], a').1;
      assert f[..k + 1] == [f[0]] + f[1..][..k];
      NumberPrepend(f[0], f[1..][..k], a);
    }
  }

  /** The first option of the string cannot be a token: the end, no option, or a number out of its limits. */
  predicate Faulty(f: string, e: bool) {
    f == "" || f[0] == '\0'
    || (f[0] !in "<> " && match LetterOf(f[0], e)
                          case Fixed(_) => false
                          case Sized(_, dft, max, _) =>
                            var n := ParseSize(f[1..], dft).0;
                            n == 0 || n > max
                          case Unknown => true)
  }

  lemma {:induction false} ScanStopsThere(f: string, a: nat)
    ensures var (n, k) := Scan(f, a);
            f[k..] == "" || !IsDigit(f[k..][0]) || n >= 268435454
    ensures Scan(f, a).1 == 0 ==> Scan(f, a).0 == a
    decreases |f|
  {
    if f != "" && IsDigit(f[0]) && a < DIGIT_LIMIT {
      var a' := a * 10 + DigitValue(f[0]);
      ScanStopsThere(f[1..], a');
      var k := Scan(f[1..], a').1;
      assert f[k + 1..] == f[1..][k..];
    }
  }

  /** The digits behind a letter: what they spell and why the loop ends there. */
  lemma DigitsBehind(f: string, dft: nat)
    ensures var (n, k) := ParseSize(f, dft);
            && (forall c | c in f[..k] :: IsDigit(c)) && StopsAt(f[..k], f[k..])
            && n == if k == 0 then dft else Number(f[..k])
  {
    if f != "" && IsDigit(f[0]) {
      ScanTakesDigits(f, 0);
      ScanStopsThere(f, 0);
      AccumulateZero(f[..Scan(f, 0).1]);
    }
  }

  lemma FirstToken(f: string, e: bool) returns (t: Token, more: string)
    requires !Faulty(f, e)
    ensures WellFormed(t) && Separate(t, more) && Print(t) + more == f && |more| < |f|
  {
    hide LetterOf, ParseSize, StopsAt;
    more := f[1..];
    if f[0] == '<' {
      t := Little;
    } else if f[0] == '>' {
      t := Big;
    } else if f[0] == ' ' {
      t := Blank;
    } else {
      LetterOrderFree(f[0], e);
      var letter := LetterOf(f[0], e);
      if letter.Sized? {
        DigitsBehind(f[1..], letter.dft);
        var k := ParseSize(f[1..], letter.dft).1;
        t, more := Item(f[0], f[1..][..k]), f[1..][k..];
      } else {
        t := Item(f[0], "");
      }
    }
  }

  /** Why a string that starts with a fault is answered as it is. */
  lemma FaultAnswered(f: string, e: bool)
    requires Faulty(f, e)
    ensures Parse(f, e).Ok? <==> f == "" || f[0] == '\0'
    ensures Parse(f, e).BadOption? <==> f != "" && f[0] !in "bBhHlLjJTiIfdncvrR<> \0"
    ensures Parse(f, e).BadOption? ==> Parse(f, e).c == f[0]
    ensures Parse(f, e).BadSize? ==>
              var k := ParseSize(f[1..], 1).1;
              && f[0] in "iIrRc" && k > 0 && (forall c | c in f[1..][..k] :: IsDigit(c))
              && StopsAt(f[1..][..k], f[1..][k..]) && Parse(f, e).size == Number(f[1..][..k])
  {
    if f != "" && f[0] != '\0' {
      hide ParseSize, StopsAt, Number;
      DigitsBehind(f[1..], 1);
      DigitsBehind(f[1..], 4);
      DefaultAside(f[1..]);
    }
  }

  lemma DefaultAside(f: string)
    ensures ParseSize(f, 4).1 == ParseSize(f, 1).1
  {
  }

  /**
    * Main result: every string is well-formed tokens and then its end, a NUL, a character that is no option or a
    * number out of its limits, and the answer says which.
    */
  lemma {:induction false} Diagnosed(f: string, e: bool) returns (ts: seq<Token>, rest: string)
    ensures AllWellFormed(ts) && PrintAll(ts) + rest == f && EndsBefore(ts, rest)
    ensures Faulty(rest, OrderAfter(ts, e))
    ensures Parse(f, e) == Prefixed(Meaning(ts, e), Parse(rest, OrderAfter(ts, e)))
    decreases |f|
  {
    hide Parse, WellFormed, Separate, Faulty;
    if Faulty(f, e) {
      ts, rest := [], f;
    } else {
      var t, more := FirstToken(f, e);
      ts, rest := Diagnosed(more, Marked(t, e));
      TokenInFront(t, ts, rest, e);
      ts := [t] + ts;
      ParsePrefix(ts, rest, e);
    }
  }

  lemma TokenInFront(t: Token, ts: seq<Token>, rest: string, e: bool)
    requires WellFormed(t) && Separate(t, PrintAll(ts) + rest) && AllWellFormed(ts) && EndsBefore(ts, rest)
    ensures AllWellFormed([t] + ts) && EndsBefore([t] + ts, rest)
    ensures PrintAll([t] + ts) + rest == Print(t) + (PrintAll(ts) + rest)
    ensures OrderAfter([t] + ts, e) == OrderAfter(ts, Marked(t, e))
  {
    hide WellFormed, Separate, Print;
    assert ([t] + ts)[1..] == ts;
    if ts == [] {
      assert PrintAll(ts) + rest == rest;
    }
  }

  lemma NulBehind(a: string, rest: string)
    ensures rest != "" && rest[0] == '\0' ==> '\0' in a + rest
  {
    if rest != "" {
      assert (a + rest)[|a|] == rest[0];
    }
  }

  /** Main result: the accepted language is exactly the set of printed token lists. */
  lemma AcceptsExactlyTokenLists(f: string, e: bool)
    requires '\0' !in f
    ensures Parse(f, e).Ok? <==> exists ts :: AllWellFormed(ts) && PrintAll(ts) == f
  {
    hide WellFormed;
    if Parse(f, e).Ok? {
      var ts, rest := Diagnosed(f, e);
      FaultAnswered(rest, OrderAfter(ts, e));
      NulBehind(PrintAll(ts), rest);
      assert PrintAll(ts) + "" == PrintAll(ts);
    }
    forall ts | AllWellFormed(ts) && PrintAll(ts) == f
      ensures Parse(f, e).Ok?
    {
      ParsePrinted(ts, e);
    }
  }

  // ---- rendering packers ---------------------------------------------------------------------------------

  /** The packers a format string can name. */
  predicate Expressible(s: Spec) {
    match s.kind
    case Bool => s == Spec(Bool, 1, false, false)
    case Int => 1 <= s.bits <= 64 && (s.little ==> s.bits % 8 == 0)
    case Float => (s.bits == 32 || s.bits == 64) && !s.signed
    case Raw => s.bits % 8 == 0 && 1 <= s.bits / 8 <= MAXSIZE && !s.signed && !s.little
  }

  function Decimal(n: nat): (d: string)
    ensures forall c | c in d :: IsDigit(c)
  {
    if n < 10 then [(n + '0' as int) as char] else Decimal(n / 10) + [(n % 10 + '0' as int) as char]
  }

  lemma {:induction false} NumberDecimal(n: nat)
    ensures Number(Decimal(n)) == n && Decimal(n) != ""
    decreases n
  {
    if n >= 10 {
      NumberDecimal(n / 10);
      var d := Decimal(n);
      assert d[..|d| - 1] == Decimal(n / 10);
    } else {
      assert Decimal(n)[..0] == "";
    }
  }

  /** Byte-sized numbers and floats depend on the byte order in force; the others do not. */
  predicate Ordered(s: Spec) {
    s.kind.Float? || (s.kind.Int? && s.bits % 8 == 0)
  }

  function ItemFor(s: Spec): Token
    requires Expressible(s)
  {
    match s.kind
    case Bool => Item('v', "")
    case Int =>
      if s.bits % 8 == 0 then Item(if s.signed then 'i' else 'I', Decimal(s.bits / 8))
      else Item(if s.signed then 'r' else 'R', Decimal(s.bits))
    case Float => Item(if s.bits == 32 then 'f' else 'd', "")
    case Raw => Item('c', Decimal(s.bits / 8))
  }

  function Blanks(n: nat): (ts: seq<Token>)
    ensures AllWellFormed(ts)
  {
    if n == 0 then [] else [Blank] + Blanks(n - 1)
  }

  /** Renders a list of packers: a byte-order mark where the order changes, and `pads[i]`
      spaces in front of the i-th item. */
  function Render(specs: seq<Spec>, pads: seq<nat>, e: bool): seq<Token>
    requires |pads| == |specs| && forall s | s in specs :: Expressible(s)
    decreases |specs|
  {
    if specs == [] then []
    else
      var s := specs[0];
      var mark := if Ordered(s) && s.little != e then [if s.little then Little else Big] else [];
      var e' := if Ordered(s) then s.little else e;
      Blanks(pads[0]) + mark + [ItemFor(s)] + Render(specs[1..], pads[1..], e')
  }

  lemma ItemForMeans(s: Spec, e: bool)
    requires Expressible(s) && (Ordered(s) ==> s.little == e)
    ensures WellFormed(ItemFor(s)) && ItemSpec(ItemFor(s), e) == s
  {
    hide Decimal, Number;
    NumberDecimal(s.bits);
    NumberDecimal(s.bits / 8);
    assert s.bits % 8 == 0 ==> s.bits / 8 * 8 == s.bits;
  }

  lemma {:induction false} MeaningBlanks(n: nat, ts: seq<Token>, e: bool)
    requires AllWellFormed(ts)
    ensures AllWellFormed(Blanks(n) + ts) && Meaning(Blanks(n) + ts, e) == Meaning(ts, e)
    decreases n
  {
    if n == 0 {
      assert Blanks(n) + ts == ts;
    } else {
      assert (Blanks(n) + ts)[1..] == Blanks(n - 1) + ts;
      MeaningBlanks(n - 1, ts, e);
    }
  }

  lemma MeaningItem(s: Spec, pad: nat, ts: seq<Token>, e: bool)
    requires Expressible(s) && AllWellFormed(ts)
    ensures var mark := if Ordered(s) && s.little != e then [if s.little then Little else Big] else [];
            var e' := if Ordered(s) then s.little else e;
            var all := Blanks(pad) + mark + [ItemFor(s)] + ts;
            AllWellFormed(all) && Meaning(all, e) == [s] + Meaning(ts, e')
  {
    hide Expressible, ItemFor, Meaning, AllWellFormed;
    var e' := if Ordered(s) then s.little else e;
    var mark := if e' != e then [if e' then Little else Big] else [];
    var tail := [ItemFor(s)] + ts;
    MeaningFirst(s, ts, e');
    MeaningMark(tail, e, e');
    MeaningBlanks(pad, mark + tail, e);
    assert Blanks(pad) + mark + [ItemFor(s)] + ts == Blanks(pad) + (mark + tail);
  }

  lemma MeaningFirst(s: Spec, ts: seq<Token>, e: bool)
    requires Expressible(s) && (Ordered(s) ==> s.little == e) && AllWellFormed(ts)
    ensures AllWellFormed([ItemFor(s)] + ts) && Meaning([ItemFor(s)] + ts, e) == [s] + Meaning(ts, e)
  {
    hide ItemFor, ItemSpec, WellFormed;
    ItemForMeans(s, e);
    ItemForIsItem(s);
    assert ([ItemFor(s)] + ts)[1..] == ts;
  }

  /** A mark where the order changes, and none where it does not. */
  lemma MeaningMark(ts: seq<Token>, e: bool, e': bool)
    requires AllWellFormed(ts)
    ensures var mark := if e' != e then [if e' then Little else Big] else [];
            AllWellFormed(mark + ts) && Meaning(mark + ts, e) == Meaning(ts, e')
  {
    if e' == e {
      assert [] + ts == ts;
    } else {
      assert ([if e' then Little else Big] + ts)[1..] == ts;
    }
  }

  lemma ItemForIsItem(s: Spec)
    requires Expressible(s)
    ensures ItemFor(s).Item?
  {
  }

  lemma {:induction false} MeaningRender(specs: seq<Spec>, pads: seq<nat>, e: bool)
    requires |pads| == |specs| && forall s | s in specs :: Expressible(s)
    ensures AllWellFormed(Render(specs, pads, e)) && Meaning(Render(specs, pads, e), e) == specs
    decreases |specs|
  {
    hide ItemFor, ItemSpec, WellFormed, Meaning;
    if specs == [] {
      MeaningNil(e);
    } else {
      var s := specs[0];
      var e' := if Ordered(s) then s.little else e;
      MeaningRender(specs[1..], pads[1..], e');
      MeaningItem(s, pads[0], Render(specs[1..], pads[1..], e'), e);
    }
  }

  lemma MeaningNil(e: bool)
    ensures Meaning([], e) == []
  {
  }

  /** Main result: rendering a list of packers and parsing the text gives the list back. */
  lemma FormatRoundTrip(specs: seq<Spec>, pads: seq<nat>, e: bool)
    requires |pads| == |specs| && forall s | s in specs :: Expressible(s)
    ensures Parse(PrintAll(Render(specs, pads, e)), e) == Ok(specs)
  {
    MeaningRender(specs, pads, e);
    ParsePrinted(Render(specs, pads, e), e);
  }

  /** Every packer of an accepted string is one that can be rendered: numbers have 1 to 64 bits, raw data a size. */
  lemma {:induction false} AcceptedIsExpressible(f: string, e: bool)
    requires Parse(f, e).Ok?
    ensures forall s | s in Parse(f, e).specs :: Expressible(s)
    decreases |f|
  {
    hide Expressible;
    if f != "" && f[0] != '\0' {
      if f[0] == '<' {
        AcceptedIsExpressible(f[1..], true);
      } else if f[0] == '>' {
        AcceptedIsExpressible(f[1..], false);
      } else if f[0] == ' ' {
        AcceptedIsExpressible(f[1..], e);
      } else {
        FirstIsExpressible(f, e);
        var k := if LetterOf(f[0], e).Sized? then ParseSize(f[1..], LetterOf(f[0], e).dft).1 else 0;
        AcceptedIsExpressible(f[1 + k..], e);
      }
    }
  }

  lemma FirstIsExpressible(f: string, e: bool)
    requires f != "" && f[0] !in "<> \0" && Parse(f, e).Ok?
    ensures var letter := LetterOf(f[0], e);
            && !letter.Unknown? && Parse(f, e).specs != [] && Expressible(Parse(f, e).specs[0])
            && (letter.Fixed? ==> Parse(f[1..], e).Ok? && Parse(f, e).specs[1..] == Parse(f[1..], e).specs)
            && (letter.Sized? ==>
                  var rest := Parse(f[1 + ParseSize(f[1..], letter.dft).1..], e);
                  rest.Ok? && Parse(f, e).specs[1..] == rest.specs)
  {
    LetterOrderFree(f[0], e);
    LetterIsExpressible(f[0], e, ParseSize(f[1..], if LetterOf(f[0], e).Sized? then LetterOf(f[0], e).dft else 1).0);
    hide Expressible, LetterOf, ParseSize;
  }

  lemma LetterIsExpressible(c: char, e: bool, n: nat)
    ensures var letter := LetterOf(c, e);
            && (letter.Fixed? ==> Expressible(letter.spec))
            && (letter.Sized? && 1 <= n <= letter.max ==> Expressible(letter.proto.(bits := n * letter.unit)))
  {
  }

  /** Rendering what was parsed is a normal form: it parses to the same packers. */
  lemma RenderedParse(f: string, e: bool, pads: seq<nat>)
    requires Parse(f, e).Ok? && |pads| == |Parse(f, e).specs|
    ensures (forall s | s in Parse(f, e).specs :: Expressible(s))
         && Parse(PrintAll(Render(Parse(f, e).specs, pads, e)), e) == Parse(f, e)
  {
    AcceptedIsExpressible(f, e);
    FormatRoundTrip(Parse(f, e).specs, pads, e);
  }

  /** The sized item that a letter without a number stands for. */
  function LongForm(c: char): Token {
    match c
    case 'b' => Item('i', "1")
    case 'B' => Item('I', "1")
    case 'h' => Item('i', "2")
    case 'H' => Item('I', "2")
    case 'i' => Item('i', "4")
    case 'I' => Item('I', "4")
    case 'l' => Item('i', "8")
    case 'L' => Item('I', "8")
    case 'j' => Item('i', "8")
    case 'J' => Item('I', "8")
    case 'T' => Item('I', "8")
    case 'n' => Item('d', "")
    case 'c' => Item('c', "1")
    case 'r' => Item('r', "1")
    case 'R' => Item('R', "1")
    case _ => Item(c, "")
  }

  /** The letters named after C types abbreviate sized ones, in every context and byte order. */
  lemma LettersAbbreviate(c: char, ts: seq<Token>, e: bool)
    requires !LetterOf(c, e).Unknown? && AllWellFormed(ts)
    ensures Parse([c] + PrintAll(ts), e) == Parse(Print(LongForm(c)) + PrintAll(ts), e)
  {
    hide Parse;
    LetterOrderFree(c, e);
    LongFormMeans(c, e);
    var short, long := [Item(c, "")] + ts, [LongForm(c)] + ts;
    assert Print(Item(c, "")) == [c];
    ParsePrinted(short, e);
    ParsePrinted(long, e);
    assert short[1..] == ts == long[1..];
  }

  lemma LongFormMeans(c: char, e: bool)
    requires !LetterOf(c, e).Unknown?
    ensures WellFormed(LongForm(c)) && WellFormed(Item(c, ""))
    ensures LongForm(c).Item? && ItemSpec(LongForm(c), e) == ItemSpec(Item(c, ""), e)
  {
    hide Number;
    LetterOrderFree(c, e);
    OneDigit("1");
    OneDigit("2");
    OneDigit("4");
    OneDigit("8");
  }

  lemma OneDigit(d: string)
    requires |d| == 1 && IsDigit(d[0])
    ensures (forall c | c in d :: IsDigit(c)) && Number(d) == DigitValue(d[0])
  {
    assert d[..0] == "";
  }

  // ---- the C functions -----------------------------------------------------------------------------------

  function CharAt(f: string, i: nat): char {
    if i < |f| then f[i] else '\0'
  }

  /** t_pck_parseSize: advances the format position. */
  method ParseSizeAt(f: string, pos: nat, dft: nat) returns (a: nat, end: nat)
    requires pos <= |f|
    ensures pos <= end <= |f|
    ensures (a, end - pos) == ParseSize(f[pos..], dft)
  {
    if !IsDigit(CharAt(f, pos)) {
      return dft, pos;
    }
    a, end := DigitValue(f[pos]), pos + 1;
    assert f[pos..][1..] == f[end..];
    while IsDigit(CharAt(f, end)) && a < DIGIT_LIMIT
      invariant pos < end <= |f|
      invariant ParseSize(f[pos..], dft) == (Scan(f[end..], a).0, Scan(f[end..], a).1 + (end - pos))
      decreases |f| - end
    {
      assert f[end..][1..] == f[end + 1..];
      a := a * 10 + DigitValue(f[end]);
      end := end + 1;
    }
  }

  /** One call of t_pck_parseFmt: the next packer, the end of the string, or an error. */
  datatype Next = Packer(s: Spec) | End | Error(p: Parsed)

  method ParseFmt(f: string, pos: nat, order: bool) returns (r: Next, end: nat, e: bool)
    requires pos <= |f|
    ensures pos <= end <= |f|
    ensures match r {
              case Packer(s) => pos < end && Parse(f[pos..], order) == Cons(s, Parse(f[end..], e))
              case End => Parse(f[pos..], order) == Ok([])
              case Error(p) => !p.Ok? && Parse(f[pos..], order) == p
            }
  {
    end, e := pos, order;
    while true
      invariant pos <= end <= |f|
      invariant Parse(f[pos..], order) == Parse(f[end..], e)
      decreases |f| - end
    {
      var opt := CharAt(f, end);
      if opt == '\0' {
        return End, end, e;
      }
      assert f[end..][0] == opt && f[end..][1..] == f[end + 1..];
      end := end + 1;
      match opt {
        case '<' => e := true;
        case '>' => e := false;
        case ' ' =>
        case _ =>
          match LetterOf(opt, e) {
            case Fixed(s) => return Packer(s), end, e;
            case Unknown => return Error(BadOption(opt)), end, e;
            case Sized(proto, dft, max, unit) =>
              ghost var start := end;
              var n;
              n, end := ParseSizeAt(f, end, dft);
              assert f[start - 1..][1 + (end - start)..] == f[end..];
              if n > max || n == 0 {
                return Error(BadSize(n, max)), end, e;
              }
              return Packer(proto.(bits := n * unit)), end, e;
          }
      }
    }
  }

  lemma ConsAll(ss: seq<Spec>, s: Spec, r: Parsed)
    ensures Prefixed(ss, Cons(s, r)) == Prefixed(ss + [s], r)
  {
  }

  function Prefixed(ss: seq<Spec>, r: Parsed): Parsed {
    if r.Ok? then Ok(ss + r.specs) else r
  }

  /** The loop of t_pck_getPacker over a format string. */
  method GetPackers(f: string, order: bool) returns (r: Parsed)
    ensures r == Parse(f, order)
  {
    var specs: seq<Spec>, pos, e := [], 0, order;
    assert f[0..] == f;
    while true
      invariant pos <= |f|
      invariant Prefixed(specs, Parse(f[pos..], e)) == Parse(f, order)
      decreases |f| - pos
    {
      var n, end, e' := ParseFmt(f, pos, e);
      match n {
        case End => return Ok(specs);
        case Error(p) => return p;
        case Packer(s) =>
          ConsAll(specs, s, Parse(f[end..], e'));
          specs, pos, e := specs + [s], end, e';
      }
    }
  }
}
