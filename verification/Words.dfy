/** Unsigned machine words as natural numbers, with the C bit operators written out.

    `x >> k` is `x / Pow2(k)`, `x & (2^k - 1)` is `x % Pow2(k)`, a store into a w-bit
    variable is `% Pow2(w)`, and `^`, `|`, `& ~` are the functions below. */
module Words {

  type byte = b: int | 0 <= b < 256

  function Pow2(n: nat): (p: nat)
    ensures p > 0
    decreases n
  {
    if n == 0 then 1 else 2 * Pow2(n - 1)
  }

  /** Bit `k` of `v`, counted from the least significant one. */
  function Bit(v: nat, k: nat): (b: nat)
    ensures b < 2
    decreases k
  {
    if k == 0 then v % 2 else Bit(v / 2, k - 1)
  }

  /** `v >> n` */
  function Shr(v: nat, n: nat): (r: nat)
    decreases n
  {
    if n == 0 then v else Shr(v / 2, n - 1)
  }

  function Xor(a: nat, b: nat): nat
    decreases a + b
  {
    if a == 0 && b == 0 then 0 else 2 * Xor(a / 2, b / 2) + (a + b) % 2
  }

  function Or(a: nat, b: nat): nat
    decreases a + b
  {
    if a == 0 && b == 0 then 0 else 2 * Or(a / 2, b / 2) + (if a % 2 == 0 && b % 2 == 0 then 0 else 1)
  }

  /** `a & ~b` */
  function AndNot(a: nat, b: nat): nat
    decreases a
  {
    if a == 0 then 0 else 2 * AndNot(a / 2, b / 2) + (if b % 2 == 0 then a % 2 else 0)
  }

  // ---- powers of two -------------------------------------------------------------------

  lemma {:induction false} Pow2Add(m: nat, n: nat)
    ensures Pow2(m + n) == Pow2(m) * Pow2(n)
    decreases m
  {
    if m > 0 {
      Pow2Add(m - 1, n);
    }
  }

  lemma Powers()
    ensures Pow2(1) == 2 && Pow2(8) == 0x100 && Pow2(16) == 0x10000 && Pow2(32) == 0x1_0000_0000
    ensures Pow2(63) == 0x8000_0000_0000_0000 && Pow2(64) == 0x1_0000_0000_0000_0000
  {
    assert Pow2(8) == 0x100;
    Pow2Add(8, 8);
    Pow2Add(16, 16);
    Pow2Add(32, 32);
  }

  lemma {:induction false} Pow2Monotone(m: nat, n: nat)
    requires m <= n
    ensures Pow2(m) <= Pow2(n)
    decreases n
  {
    if m < n {
      Pow2Monotone(m, n - 1);
    }
  }

  lemma MulAtLeast(d: int, m: nat)
    ensures d >= 1 ==> d * m >= m
    ensures d <= -1 ==> d * m + m <= 0
  {
    if d >= 1 {
      assert d * m == (d - 1) * m + m;
    } else if d <= -1 {
      assert d * m == (d + 1) * m - m;
    }
  }

  /** Quotient and remainder are unique. */
  lemma DivMod(q: nat, m: nat, r: nat)
    requires r < m
    ensures (q * m + r) / m == q
    ensures (q * m + r) % m == r
  {
    var x := q * m + r;
    var y, e := x / m, x % m;
    assert x == y * m + e;
    assert (y - q) * m == r - e;
    MulAtLeast(y - q, m);
  }

  lemma {:induction false} BitIsDiv(v: nat, k: nat)
    ensures Bit(v, k) == (v / Pow2(k)) % 2
    decreases k
  {
    if k > 0 {
      BitIsDiv(v / 2, k - 1);
      DivDiv(v, Pow2(k - 1));
    }
  }

  lemma DivDiv(v: nat, p: nat)
    requires p > 0
    ensures (v / 2) / p == v / (2 * p)
  {
    var q, r := v / (2 * p), v % (2 * p);
    assert v == q * (2 * p) + r;
    assert v == 2 * (q * p) + r;
    assert v / 2 == q * p + r / 2;
    DivMod(q, p, r / 2);
  }

  lemma {:induction false} ShrIsDiv(v: nat, n: nat)
    ensures Shr(v, n) == v / Pow2(n)
    decreases n
  {
    if n > 0 {
      ShrIsDiv(v / 2, n - 1);
      DivDiv(v, Pow2(n - 1));
    }
  }

  lemma {:induction false} ShrSmall(v: nat, n: nat)
    requires v < Pow2(n)
    ensures Shr(v, n) == 0
    decreases n
  {
    if n > 0 {
      ShrSmall(v / 2, n - 1);
    }
  }

  lemma ModHalf(v: nat, p: nat)
    requires p > 0
    ensures v % (2 * p) / 2 == v / 2 % p
    ensures v % (2 * p) % 2 == v % 2
  {
    var q, r := v / (2 * p), v % (2 * p);
    assert v == q * (2 * p) + r;
    assert v == 2 * (q * p) + r;
    assert v / 2 == q * p + r / 2;
    DivMod(q, p, r / 2);
  }

  lemma {:induction false} BitMod(v: nat, n: nat, k: nat)
    requires k < n
    ensures Bit(v % Pow2(n), k) == Bit(v, k)
    decreases k
  {
    ModHalf(v, Pow2(n - 1));
    if k > 0 {
      BitMod(v / 2, n - 1, k - 1);
    }
  }

  lemma {:induction false} BitShl(v: nat, n: nat, k: nat)
    ensures Bit(v * Pow2(n), k) == if k < n then 0 else Bit(v, k - n)
    decreases k
  {
    if n > 0 {
      assert v * Pow2(n) == 2 * (v * Pow2(n - 1));
      if k > 0 {
        BitShl(v, n - 1, k - 1);
      }
    }
  }

  // ---- bits determine words ---------------------------------------------------------------

  lemma {:induction false} BitHigh(v: nat, n: nat, k: nat)
    requires v < Pow2(n) && k >= n
    ensures Bit(v, k) == 0
    decreases k
  {
    if v == 0 {
      if k > 0 { BitHigh(0, 0, k - 1); }
    } else if n > 0 {
      BitHigh(v / 2, n - 1, k - 1);
    }
  }

  lemma {:induction false} SameBits(a: nat, b: nat, n: nat)
    requires a < Pow2(n) && b < Pow2(n)
    requires forall k | 0 <= k < n :: Bit(a, k) == Bit(b, k)
    ensures a == b
    decreases n
  {
    if n > 0 {
      forall k | 0 <= k < n - 1
        ensures Bit(a / 2, k) == Bit(b / 2, k)
      {
        assert Bit(a, k + 1) == Bit(b, k + 1);
      }
      SameBits(a / 2, b / 2, n - 1);
      assert Bit(a, 0) == Bit(b, 0);
    }
  }

  lemma {:induction false} BelowSomePow2(v: nat)
    ensures v < Pow2(v)
    decreases v
  {
    if v > 0 {
      BelowSomePow2(v - 1);
    }
  }

  // ---- exclusive or -------------------------------------------------------------------------

  lemma XorHalf(a: nat, b: nat)
    ensures Xor(a, b) / 2 == Xor(a / 2, b / 2)
    ensures Xor(a, b) % 2 == (a + b) % 2
  {
  }

  lemma {:induction false} XorBit(a: nat, b: nat, k: nat)
    ensures Bit(Xor(a, b), k) == (Bit(a, k) + Bit(b, k)) % 2
    decreases k
  {
    XorHalf(a, b);
    hide Xor;
    if k > 0 {
      XorBit(a / 2, b / 2, k - 1);
    }
  }

  lemma {:induction false} XorBound(a: nat, b: nat, n: nat)
    requires a < Pow2(n) && b < Pow2(n)
    ensures Xor(a, b) < Pow2(n)
    decreases n
  {
    if n > 0 {
      XorBound(a / 2, b / 2, n - 1);
    }
  }

  lemma {:induction false} XorComm(a: nat, b: nat)
    ensures Xor(a, b) == Xor(b, a)
    decreases a + b
  {
    if a > 0 || b > 0 {
      XorComm(a / 2, b / 2);
    }
  }

  lemma XorAssocBit(a: nat, b: nat, c: nat, k: nat)
    ensures Bit(Xor(Xor(a, b), c), k) == Bit(Xor(a, Xor(b, c)), k)
  {
    hide Xor;
    XorBit(a, b, k);
    XorBit(b, c, k);
    XorBit(Xor(a, b), c, k);
    XorBit(a, Xor(b, c), k);
  }

  lemma XorAssoc(a: nat, b: nat, c: nat)
    ensures Xor(Xor(a, b), c) == Xor(a, Xor(b, c))
  {
    hide Xor;
    var n := a + b + c;
    BelowSomePow2(n);
    XorBound(a, b, n);
    XorBound(b, c, n);
    XorBound(Xor(a, b), c, n);
    XorBound(a, Xor(b, c), n);
    forall k | 0 <= k < n
      ensures Bit(Xor(Xor(a, b), c), k) == Bit(Xor(a, Xor(b, c)), k)
    {
      XorAssocBit(a, b, c, k);
    }
    SameBits(Xor(Xor(a, b), c), Xor(a, Xor(b, c)), n);
  }

  lemma {:induction false} XorZero(a: nat)
    ensures Xor(a, 0) == a
    ensures Xor(0, a) == a
    decreases a
  {
    if a > 0 {
      XorZero(a / 2);
    }
  }

  lemma {:induction false} XorSelf(a: nat)
    ensures Xor(a, a) == 0
    decreases a
  {
    if a > 0 {
      XorSelf(a / 2);
    }
  }

  /** XORing the same word twice changes nothing. */
  lemma XorCancel(a: nat, k: nat)
    ensures Xor(Xor(a, k), k) == a
  {
    hide Xor;
    XorAssoc(a, k, k);
    XorSelf(k);
    XorZero(a);
  }

  lemma XorInjective(a: nat, b: nat, k: nat)
    requires Xor(a, k) == Xor(b, k)
    ensures a == b
  {
    hide Xor;
    XorCancel(a, k);
    XorCancel(b, k);
  }

  /** Regroups a sum of four words. */
  lemma XorSwap(a: nat, b: nat, c: nat, d: nat)
    ensures Xor(Xor(a, b), Xor(c, d)) == Xor(Xor(a, c), Xor(b, d))
  {
    hide Xor;
    XorAssoc(a, b, Xor(c, d));
    XorAssoc(b, c, d);
    XorComm(b, c);
    XorAssoc(c, b, d);
    XorAssoc(a, c, Xor(b, d));
  }

  lemma XorStep(h: nat, r: nat)
    requires Xor(h, r / 2) == h + r / 2
    ensures Xor(2 * h, r) == 2 * h + r
  {
    hide Xor;
    XorHalf(2 * h, r);
  }

  /** A byte below a word fills the bits the word leaves free. */
  lemma XorDisjoint(q: nat, r: nat)
    requires r < 256
    ensures Xor(q * 256, r) == q * 256 + r
  {
    hide Xor;
    XorZero(q);
    XorStep(q, r / 128);
    XorStep(2 * q, r / 64);
    XorStep(4 * q, r / 32);
    XorStep(8 * q, r / 16);
    XorStep(16 * q, r / 8);
    XorStep(32 * q, r / 4);
    XorStep(64 * q, r / 2);
    XorStep(128 * q, r);
  }

  /** The byte-sized cases, with the powers of two written out. */
  lemma SplitLowByte(x: nat)
    ensures Xor(x / 256 * 256, x % 256) == x
  {
    hide Xor;
    XorDisjoint(x / 256, x % 256);
  }

  lemma {:induction false} ShrXor(a: nat, b: nat, n: nat)
    ensures Shr(Xor(a, b), n) == Xor(Shr(a, n), Shr(b, n))
    decreases n
  {
    if n > 0 {
      XorHalf(a, b);
      ShrXor(a / 2, b / 2, n - 1);
    }
  }

  lemma XorModBit(a: nat, b: nat, n: nat, k: nat)
    requires k < n
    ensures Bit(Xor(a, b) % Pow2(n), k) == Bit(Xor(a % Pow2(n), b % Pow2(n)), k)
  {
    hide Xor, Pow2, Bit;
    var p := Pow2(n);
    BitMod(Xor(a, b), n, k);
    BitMod(a, n, k);
    BitMod(b, n, k);
    XorBit(a, b, k);
    XorBit(a % p, b % p, k);
  }

  lemma XorMod(a: nat, b: nat, n: nat)
    ensures Xor(a, b) % Pow2(n) == Xor(a % Pow2(n), b % Pow2(n))
  {
    hide Xor, Pow2, Bit;
    var p := Pow2(n);
    var l, r := Xor(a, b) % p, Xor(a % p, b % p);
    XorBound(a % p, b % p, n);
    forall k | 0 <= k < n
      ensures Bit(l, k) == Bit(r, k)
    {
      XorModBit(a, b, n, k);
    }
    SameBits(l, r, n);
  }

  lemma XorMod8(a: nat, b: nat)
    ensures Xor(a, b) % 0x100 == Xor(a % 0x100, b % 0x100) < 0x100
  {
    hide Xor;
    Powers();
    XorMod(a, b, 8);
    XorBound(a % 0x100, b % 0x100, 8);
  }

  lemma XorMod16(a: nat, b: nat)
    ensures Xor(a, b) % 0x10000 == Xor(a % 0x10000, b % 0x10000)
  {
    hide Xor;
    Powers();
    XorMod(a, b, 16);
  }

  lemma Shr8(v: nat)
    ensures Shr(v, 8) == v / 256
  {
    ShrIsDiv(v, 8);
    assert Pow2(8) == 256;
  }

  lemma XorDiv8(a: nat, b: nat)
    ensures Xor(a, b) / 256 == Xor(a / 256, b / 256)
  {
    hide Xor, Shr;
    ShrXor(a, b, 8);
    Shr8(Xor(a, b));
    Shr8(a);
    Shr8(b);
  }

  // ---- single bits -------------------------------------------------------------------------

  lemma {:induction false} ShrBit(v: nat, n: nat, k: nat)
    ensures Bit(Shr(v, n), k) == Bit(v, n + k)
    decreases n
  {
    if n > 0 {
      ShrBit(v / 2, n - 1, k);
    }
  }

  lemma {:induction false} ShrBound(v: nat, m: nat, n: nat)
    requires v < Pow2(m + n)
    ensures Shr(v, m) < Pow2(n)
    decreases m
  {
    if m > 0 {
      ShrBound(v / 2, m - 1, n);
    }
  }

  lemma {:induction false} Pow2Bit(n: nat, k: nat)
    ensures Bit(Pow2(n), k) == if n == k then 1 else 0
    decreases n
  {
    if n == 0 {
      if k > 0 { BitHigh(0, 0, k - 1); }
    } else if k > 0 {
      Pow2Bit(n - 1, k - 1);
    }
  }

  lemma OrHalf(a: nat, b: nat)
    ensures Or(a, b) / 2 == Or(a / 2, b / 2)
    ensures Or(a, b) % 2 == if a % 2 == 0 && b % 2 == 0 then 0 else 1
  {
  }

  lemma {:induction false} OrBit(a: nat, b: nat, k: nat)
    ensures Bit(Or(a, b), k) == if Bit(a, k) == 1 || Bit(b, k) == 1 then 1 else 0
    decreases k
  {
    hide Or;
    OrHalf(a, b);
    if k > 0 {
      OrBit(a / 2, b / 2, k - 1);
    }
  }

  lemma {:induction false} OrBound(a: nat, b: nat, n: nat)
    requires a < Pow2(n) && b < Pow2(n)
    ensures Or(a, b) < Pow2(n)
    decreases n
  {
    if n > 0 {
      OrBound(a / 2, b / 2, n - 1);
    }
  }

  lemma AndNotHalf(a: nat, b: nat)
    ensures AndNot(a, b) / 2 == AndNot(a / 2, b / 2)
    ensures AndNot(a, b) % 2 == if b % 2 == 0 then a % 2 else 0
  {
  }

  lemma {:induction false} AndNotBit(a: nat, b: nat, k: nat)
    ensures Bit(AndNot(a, b), k) == if Bit(b, k) == 0 then Bit(a, k) else 0
    decreases k
  {
    hide AndNot;
    AndNotHalf(a, b);
    if k > 0 {
      AndNotBit(a / 2, b / 2, k - 1);
    }
  }

  lemma {:induction false} AndNotBound(a: nat, b: nat)
    ensures AndNot(a, b) <= a
    decreases a
  {
    if a > 0 {
      AndNotBound(a / 2, b / 2);
    }
  }

  /** XOR with one bit adds or subtracts it. */
  lemma {:induction false} XorPow2(v: nat, n: nat)
    ensures Xor(v, Pow2(n)) == if Bit(v, n) == 1 then v - Pow2(n) else v + Pow2(n)
    decreases n
  {
    hide Xor;
    XorHalf(v, Pow2(n));
    if n == 0 {
      XorZero(v / 2);
    } else {
      XorPow2(v / 2, n - 1);
    }
  }

  lemma BitMod8(v: nat, k: nat)
    requires k < 8
    ensures Bit(v % 256, k) == Bit(v, k)
  {
    hide Bit;
    assert Pow2(8) == 256;
    BitMod(v, 8, k);
  }

  lemma BitDiv8(v: nat, k: nat)
    ensures Bit(v / 256, k) == Bit(v, 8 + k)
  {
    hide Bit, Shr;
    Shr8(v);
    ShrBit(v, 8, k);
  }

  // ---- or of disjoint parts ------------------------------------------------------------------

  lemma {:induction false} OrZero(a: nat)
    ensures Or(a, 0) == a
    decreases a
  {
    if a > 0 {
      OrZero(a / 2);
    }
  }

  lemma OrStep(h: nat, r: nat)
    requires Or(h, r / 2) == h + r / 2
    ensures Or(2 * h, r) == 2 * h + r
  {
    hide Or;
    OrHalf(2 * h, r);
  }

  lemma OrBelow4(x: nat, y: nat)
    requires y < 4
    ensures Or(x * 4, y) == x * 4 + y
  {
    hide Or;
    OrZero(x);
    OrStep(x, y / 2);
    OrStep(2 * x, y);
  }

  lemma OrBelow16(x: nat, y: nat)
    requires y < 16
    ensures Or(x * 16, y) == x * 16 + y
  {
    hide Or;
    OrBelow4(x, y / 4);
    OrStep(4 * x, y / 2);
    OrStep(8 * x, y);
  }

  lemma OrBelow64(x: nat, y: nat)
    requires y < 64
    ensures Or(x * 64, y) == x * 64 + y
  {
    hide Or;
    OrBelow16(x, y / 4);
    OrStep(16 * x, y / 2);
    OrStep(32 * x, y);
  }
}
