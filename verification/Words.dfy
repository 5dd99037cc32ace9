/** Machine words as natural numbers with explicit truncation, and the polynomial
    over GF(2) that the bits of a word spell. */
module Words {
  import opened Polynomials

  type uint8 = x: int | 0 <= x < 0x100
  type uint32 = x: int | 0 <= x < 0x1_0000_0000
  type uint64 = x: int | 0 <= x < 0x1_0000_0000_0000_0000

  function Pow2(k: nat): (p: nat)
    ensures p > 0
  {
    if k == 0 then 1 else 2 * Pow2(k - 1)
  }

  /** n / 2^k, by halving. */
  function Half(n: nat, k: nat): (r: nat)
    ensures r <= n
  {
    if k == 0 then n else Half(n / 2, k - 1)
  }

  /** Bit e of n is 1. */
  ghost predicate BitAt(n: nat, e: nat) {
    Half(n, e) % 2 == 1
  }

  /** The exponents of the 1 bits of n. */
  ghost function Bits(n: nat): Poly {
    set e: nat | e < n && BitAt(n, e)
  }

  lemma {:induction false} BitBelowNumber(n: nat, e: nat)
    requires Half(n, e) > 0
    ensures e < n
    decreases e
  {
    if e > 0 {
      BitBelowNumber(n / 2, e - 1);
    }
  }

  lemma BitsMembers(n: nat, e: nat)
    ensures e in Bits(n) <==> BitAt(n, e)
  {
    if BitAt(n, e) {
      BitBelowNumber(n, e);
    }
  }

  ghost function Parity(n: nat): Poly {
    if n % 2 == 1 then {0} else {}
  }

  /** The bits of a number are those of its half, moved up, and its parity. */
  lemma Halve(n: nat, h: nat)
    requires h == n / 2
    ensures Bits(n) == Shift(Bits(h), 1) + Parity(n)
  {
    hide Bits;
    forall e: nat
      ensures e in Bits(n) <==> e in Shift(Bits(h), 1) + Parity(n)
    {
      BitsMembers(n, e);
      if e > 0 {
        BitsMembers(h, e - 1);
        assert BitAt(n, e) <==> BitAt(h, e - 1);
      }
    }
  }

  // ----- bitwise operators -----

  function Xor(a: nat, b: nat): nat
    decreases a + b
  {
    if a == 0 && b == 0 then 0
    else 2 * Xor(a / 2, b / 2) + if a % 2 != b % 2 then 1 else 0
  }

  function And(a: nat, b: nat): nat
    decreases a + b
  {
    if a == 0 && b == 0 then 0
    else 2 * And(a / 2, b / 2) + if a % 2 == 1 && b % 2 == 1 then 1 else 0
  }

  function Or(a: nat, b: nat): nat
    decreases a + b
  {
    if a == 0 && b == 0 then 0
    else 2 * Or(a / 2, b / 2) + if a % 2 == 1 || b % 2 == 1 then 1 else 0
  }

  lemma {:induction false} XorBits(a: nat, b: nat)
    ensures Bits(Xor(a, b)) == Add(Bits(a), Bits(b))
    decreases a + b
  {
    if a + b > 0 {
      XorBits(a / 2, b / 2);
      Halve(a, a / 2);
      Halve(b, b / 2);
      Halve(Xor(a, b), Xor(a / 2, b / 2));
    }
  }

  lemma {:induction false} AndBits(a: nat, b: nat)
    ensures Bits(And(a, b)) == Bits(a) * Bits(b)
    decreases a + b
  {
    if a + b > 0 {
      AndBits(a / 2, b / 2);
      Halve(a, a / 2);
      Halve(b, b / 2);
      Halve(And(a, b), And(a / 2, b / 2));
    }
  }

  lemma {:induction false} OrBits(a: nat, b: nat)
    ensures Bits(Or(a, b)) == Bits(a) + Bits(b)
    decreases a + b
  {
    if a + b > 0 {
      OrBits(a / 2, b / 2);
      Halve(a, a / 2);
      Halve(b, b / 2);
      Halve(Or(a, b), Or(a / 2, b / 2));
    }
  }

  // ----- numbers and their bits -----

  /** A number is determined by its bits. */
  lemma {:induction false} BitsInjective(a: nat, b: nat)
    requires Bits(a) == Bits(b)
    ensures a == b
    decreases a + b
  {
    if a + b > 0 {
      Halve(a, a / 2);
      Halve(b, b / 2);
      assert 0 in Bits(a) <==> a % 2 == 1;
      assert 0 in Bits(b) <==> b % 2 == 1;
      assert Shift(Bits(a / 2), 1) == Bits(a) - {0};
      assert Shift(Bits(b / 2), 1) == Bits(b) - {0};
      ShiftInjective(Bits(a / 2), Bits(b / 2), 1);
      BitsInjective(a / 2, b / 2);
    }
  }

  /** n < 2^k exactly when no bit of n is at k or above. */
  lemma {:induction false} BitsBelow(n: nat, k: nat)
    ensures n < Pow2(k) <==> Len(Bits(n)) <= k
    decreases n
  {
    hide Bits;
    if n == 0 {
      BitsOfOne();
      LenAtMost({}, 0);
    } else {
      Halve(n, n / 2);
      LenHalf(n);
      if k > 0 {
        BitsBelow(n / 2, k - 1);
      }
    }
  }

  lemma {:induction false} LenHalf(n: nat)
    requires n > 0
    ensures Len(Bits(n)) == Len(Bits(n / 2)) + 1
    decreases n
  {
    Halve(n, n / 2);
    var m := Len(Bits(n / 2));
    if n / 2 > 0 {
      LenHalf(n / 2);
      assert m in Shift(Bits(n / 2), 1);
    } else {
      LenAtMost({}, 0);
    }
    LenIs(Bits(n), m + 1);
  }

  /** n * 2^k, by doubling. */
  function Double(n: nat, k: nat): nat {
    if k == 0 then n else 2 * Double(n, k - 1)
  }

  lemma BitsOfTwice(n: nat)
    ensures Bits(2 * n) == Shift(Bits(n), 1)
  {
    Halve(2 * n, n);
  }

  lemma {:induction false} DoubleBits(n: nat, k: nat)
    ensures Bits(Double(n, k)) == Shift(Bits(n), k)
    decreases k
  {
    hide Bits;
    if k == 0 {
      ShiftNone(Bits(n));
    } else {
      DoubleBits(n, k - 1);
      BitsOfTwice(Double(n, k - 1));
      ShiftShift(Bits(n), k - 1, 1, k);
    }
  }

  lemma {:induction false} DoubleIsTimes(n: nat, k: nat)
    ensures Double(n, k) == Pow2(k) * n
    decreases k
  {
    if k > 0 {
      DoubleIsTimes(n, k - 1);
      assert (2 * Pow2(k - 1)) * n == 2 * (Pow2(k - 1) * n);
    }
  }

  lemma {:induction false} HalfBits(n: nat, k: nat)
    ensures Bits(Half(n, k)) == Quot(Bits(n), k)
    decreases k
  {
    hide Bits;
    if k == 0 {
      ShiftNone(Bits(n));
    } else {
      HalfBits(n / 2, k - 1);
      Halve(n, n / 2);
      QuotStep(Bits(n), Bits(n / 2), Parity(n), k);
    }
  }

  lemma QuotStep(a: Poly, h: Poly, low: Poly, k: nat)
    requires k > 0 && low <= {0} && a == Shift(h, 1) + low
    ensures Quot(a, k) == Quot(h, k - 1)
  {
    forall e: nat
      ensures e in Quot(a, k) <==> e in Quot(h, k - 1)
    {
      assert e + k in Shift(h, 1) <==> e + k - 1 in h;
    }
  }

  lemma LowStep(h: Poly, low: Poly, k: nat)
    requires k > 0 && low <= {0}
    ensures Low(Shift(h, 1) + low, k) == Shift(Low(h, k - 1), 1) + low
  {
  }

  lemma ModDouble(n: nat, p: nat)
    requires p > 0
    ensures n % (2 * p) == 2 * ((n / 2) % p) + n % 2
    ensures n / (2 * p) == (n / 2) / p
  {
    var q, r := (n / 2) / p, (n / 2) % p;
    assert n / 2 == p * q + r;
    assert n == (2 * p) * q + (2 * r + n % 2);
    DivModUnique(n, 2 * p, q, 2 * r + n % 2);
  }

  lemma DivModUnique(n: nat, d: nat, q: nat, r: nat)
    requires r < d && n == d * q + r
    ensures n / d == q && n % d == r
  {
    var q', r' := n / d, n % d;
    if q < q' {
      MulGap(d, q, q');
    } else if q' < q {
      MulGap(d, q', q);
    }
  }

  lemma {:induction false} MulGap(d: nat, a: nat, b: nat)
    requires a < b
    ensures d * b >= d * a + d
    decreases b
  {
    if a + 1 < b {
      MulGap(d, a, b - 1);
    }
    assert d * b == d * (b - 1) + d;
  }

  lemma {:induction false} HalfIsDiv(n: nat, k: nat)
    ensures Half(n, k) == n / Pow2(k)
    decreases k
  {
    if k > 0 {
      HalfIsDiv(n / 2, k - 1);
      ModDouble(n, Pow2(k - 1));
    }
  }

  lemma {:induction false} ModBits(n: nat, k: nat)
    ensures Bits(n % Pow2(k)) == Low(Bits(n), k)
    decreases k
  {
    hide Bits;
    if k == 0 {
      assert n % 1 == 0;
      BitsOfOne();
    } else {
      var p := Pow2(k - 1);
      ModDouble(n, p);
      ModBits(n / 2, k - 1);
      Halve(n, n / 2);
      var h, b := (n / 2) % p, n % 2;
      Halve(2 * h + b, h);
      LowStep(Bits(n / 2), Parity(n), k);
    }
  }

  /** Adding numbers without common bits joins their bits. */
  lemma {:induction false} BitsOfSum(a: nat, b: nat)
    requires Bits(a) !! Bits(b)
    ensures Bits(a + b) == Bits(a) + Bits(b)
    decreases a + b
  {
    hide Bits;
    if a + b == 0 {
      BitsOfOne();
    } else {
      Halve(a, a / 2);
      Halve(b, b / 2);
      HalvesDisjoint(a, b);
      assert Bits(a / 2) !! Bits(b / 2);
      assert !(0 in Bits(a) && 0 in Bits(b));
      assert (a + b) / 2 == a / 2 + b / 2;
      BitsOfSum(a / 2, b / 2);
      Halve(a + b, a / 2 + b / 2);
    }
  }

  lemma HalvesDisjoint(a: nat, b: nat)
    requires Bits(a) !! Bits(b)
    ensures Bits(a / 2) !! Bits(b / 2)
  {
    Halve(a, a / 2);
    Halve(b, b / 2);
    forall e: nat | e in Bits(a / 2)
      ensures e !in Bits(b / 2)
    {
      assert e + 1 in Bits(a);
      assert e + 1 in Shift(Bits(b / 2), 1) <==> e in Bits(b / 2);
    }
  }

  /** Disjoint words: or, xor and + coincide. */
  lemma OrIsSum(a: nat, b: nat)
    requires Bits(a) !! Bits(b)
    ensures Or(a, b) == a + b
  {
    BitsOfSum(a, b);
    OrBits(a, b);
    BitsInjective(Or(a, b), a + b);
  }

  /** A shifted number or-ed with one that fits below it: their sum. */
  lemma OrShifted(a: nat, k: nat, b: nat)
    requires b < Pow2(k)
    ensures Or(Double(a, k), b) == Double(a, k) + b
  {
    hide Bits;
    DoubleBits(a, k);
    BitsBelow(b, k);
    OrIsSum(Double(a, k), b);
  }

  /** The number that has the given bits. */
  ghost function NumberOfBits(p: Poly): nat
    decreases Len(p)
  {
    if p == {} then 0
    else
      QuotShorter(p);
      2 * NumberOfBits(Quot(p, 1)) + if 0 in p then 1 else 0
  }

  lemma QuotShorter(p: Poly)
    requires p != {}
    ensures Len(Quot(p, 1)) < Len(p)
  {
    LenAtMost(Quot(p, 1), Len(p) - 1);
  }

  lemma {:induction false} NumberOfBitsBits(p: Poly)
    ensures Bits(NumberOfBits(p)) == p
    decreases Len(p)
  {
    hide Bits;
    if p == {} {
      BitsOfOne();
    } else {
      QuotShorter(p);
      NumberOfBitsBits(Quot(p, 1));
      Halve(NumberOfBits(p), NumberOfBits(Quot(p, 1)));
    }
  }

  // ----- 64-bit words -----

  lemma Pow2Values()
    ensures Pow2(8) == 0x100
    ensures Pow2(32) == 0x1_0000_0000
    ensures Pow2(63) == 0x8000_0000_0000_0000
    ensures Pow2(64) == 0x1_0000_0000_0000_0000
  {
    assert Pow2(8) == 0x100;
    Pow2Plus(8, 8);
    Pow2Plus(16, 16);
    Pow2Plus(32, 32);
    assert Pow2(64) == 2 * Pow2(63);
  }

  lemma {:induction false} Pow2Plus(a: nat, b: nat)
    ensures Pow2(a + b) == Pow2(a) * Pow2(b)
    decreases a
  {
    if a > 0 {
      Pow2Plus(a - 1, b);
      assert Pow2(a + b) == 2 * Pow2(a - 1 + b);
      assert Pow2(a) == 2 * Pow2(a - 1);
      TwiceProduct(Pow2(a - 1), Pow2(b));
    }
  }

  lemma TwiceProduct(p: nat, q: nat)
    ensures (2 * p) * q == 2 * (p * q)
  {
  }

  lemma BitsOfWord(x: uint64)
    ensures Len(Bits(x)) <= 64
  {
    Pow2Values();
    BitsBelow(x, 64);
  }

  lemma BitsOfByte(x: uint8)
    ensures Len(Bits(x)) <= 8
  {
    Pow2Values();
    BitsBelow(x, 8);
  }

  lemma BitsOfOne()
    ensures Bits(0) == {} && Bits(1) == {0}
  {
    Halve(1, 0);
  }

  /** x << k on a 64-bit word: bits 64 and up are lost. */
  function Shl64(x: uint64, k: nat): (r: uint64)
    ensures Bits(r) == Low(Shift(Bits(x), k), 64)
  {
    Pow2Values();
    DoubleBits(x, k);
    DoubleIsTimes(x, k);
    ModBits(Double(x, k), 64);
    (Pow2(k) * x) % 0x1_0000_0000_0000_0000
  }

  /** x >> k on an unsigned word. */
  function Shr64(x: uint64, k: nat): (r: uint64)
    ensures Bits(r) == Quot(Bits(x), k)
  {
    HalfBits(x, k);
    HalfIsDiv(x, k);
    x / Pow2(k)
  }

  function Xor64(a: uint64, b: uint64): (r: uint64)
    ensures Bits(r) == Add(Bits(a), Bits(b))
  {
    XorBits(a, b);
    BitsOfWord(a);
    BitsOfWord(b);
    WordOfBits(Xor(a, b));
    Xor(a, b)
  }

  function Or64(a: uint64, b: uint64): (r: uint64)
    ensures Bits(r) == Bits(a) + Bits(b)
  {
    OrBits(a, b);
    BitsOfWord(a);
    BitsOfWord(b);
    WordOfBits(Or(a, b));
    Or(a, b)
  }

  lemma WordOfBits(n: nat)
    requires forall e: nat :: e in Bits(n) ==> e < 64
    ensures n < 0x1_0000_0000_0000_0000
  {
    Pow2Values();
    LenAtMost(Bits(n), 64);
    BitsBelow(n, 64);
  }

  lemma ZeroHasNoBits(n: nat)
    ensures n == 0 <==> Bits(n) == {}
  {
    hide Bits;
    BitsOfOne();
    if Bits(n) == {} {
      BitsInjective(n, 0);
    }
  }

  lemma MaskBit(x: uint64, i: nat)
    requires i < 64
    ensures And(x, Shl64(1, i)) != 0 <==> i in Bits(x)
  {
    hide Bits, And, Shl64;
    BitsOfOne();
    assert Low(Shift({0}, i), 64) == {i};
    AndBits(x, Shl64(1, i));
    ZeroHasNoBits(And(x, Shl64(1, i)));
  }

  /** The test x & (1 << i). */
  predicate BitSet(x: uint64, i: nat)
    requires i < 64
    ensures BitSet(x, i) <==> i in Bits(x)
  {
    MaskBit(x, i);
    And(x, Shl64(1, i)) != 0
  }
}
