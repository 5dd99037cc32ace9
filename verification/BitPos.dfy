/** Position of the most significant set bit (daemon/utils/bitpos.h). */
module BitPos {
  import opened Polynomials
  import opened Words

  /** Number of binary digits of n, the reference for both searches. */
  function BitLength(n: nat): nat {
    if n == 0 then 0 else 1 + BitLength(n / 2)
  }

  /** BitLength is the unique r with 2^(r-1) <= n < 2^r. */
  lemma {:induction false} BitLengthBounds(n: nat, r: nat)
    requires n > 0
    ensures r == BitLength(n) <==> r > 0 && Pow2(r - 1) <= n < Pow2(r)
    decreases n
  {
    if n == 1 {
      assert r > 1 ==> Pow2(r - 1) >= 2;
    } else if r > 0 {
      BitLengthBounds(n / 2, r - 1);
    }
  }

  lemma {:induction false} BitLengthIsLen(n: nat)
    ensures BitLength(n) == Len(Bits(n))
  {
    if n == 0 {
      LenAtMost({}, 0);
    } else {
      LenHalf(n);
      BitLengthIsLen(n / 2);
    }
  }

  lemma {:induction false} BitLengthAtMost(n: nat, k: nat)
    ensures n < Pow2(k) <==> BitLength(n) <= k
    decreases n
  {
    if n > 0 && k > 0 {
      BitLengthAtMost(n / 2, k - 1);
    }
  }

  lemma {:induction false} BitLengthDouble(n: nat, k: nat)
    requires n > 0
    ensures Double(n, k) > 0 && BitLength(Double(n, k)) == BitLength(n) + k
    decreases k
  {
    if k > 0 {
      BitLengthDouble(n, k - 1);
    }
  }

  /** A mask of the top bits tests for a number below the mask. */
  lemma {:induction false} HighMask(x: nat, m: nat, w: nat)
    requires m <= w && x < Pow2(w)
    ensures Pow2(m) <= Pow2(w)
    ensures And(x, Pow2(w) - Pow2(m)) == 0 <==> x < Pow2(m)
    decreases w
  {
    if w > 0 {
      HighMask(x / 2, if m > 0 then m - 1 else 0, w - 1);
    }
  }

  /** x << k on a 32-bit word. */
  function Shl32(x: uint32, k: nat): uint32 {
    (Pow2(k) * x) % 0x1_0000_0000
  }

  lemma BitLengthPositive(n: nat)
    requires n > 0
    ensures BitLength(n) > 0
  {
  }

  lemma MaskStep(x: uint32, m: nat, k: nat, mask: uint32)
    requires 0 < x && m + k == 32 && k > 0 && mask == 0x1_0000_0000 - Pow2(m)
    ensures BitLength(x) > 0
    ensures And(x, mask) == 0 <==> BitLength(x) <= m
    ensures BitLength(x) <= m ==>
              Shl32(x, k) > 0 && BitLength(Shl32(x, k)) == BitLength(x) + k
  {
    hide And, Pow2, BitLength, Double;
    Pow2Values();
    BitLengthPositive(x);
    HighMask(x, m, 32);
    BitLengthAtMost(x, m);
    BitLengthDouble(x, k);
    DoubleIsTimes(x, k);
    BitLengthAtMost(Double(x, k), 32);
  }

  lemma Masks()
    ensures 0xffff_0000 == 0x1_0000_0000 - Pow2(16)
    ensures 0xff00_0000 == 0x1_0000_0000 - Pow2(24)
    ensures 0xf000_0000 == 0x1_0000_0000 - Pow2(28)
    ensures 0xc000_0000 == 0x1_0000_0000 - Pow2(30)
    ensures 0x8000_0000 == 0x1_0000_0000 - Pow2(31)
  {
    Pow2Values();
    assert Pow2(31) == 2 * Pow2(30);
    assert Pow2(30) == 4 * Pow2(28);
    assert Pow2(12) == 0x1000;
    Pow2Plus(12, 12);
    assert Pow2(24) == 0x100_0000;
    Pow2Plus(8, 8);
  }

  lemma WordBitLength(x: uint32)
    ensures BitLength(x) <= 32
  {
    Pow2Values();
    BitLengthAtMost(x, 32);
  }

  lemma BitLengthOfZero()
    ensures BitLength(0) == 0
  {
  }

  /** fls: the five halving steps find the bit length of a 32-bit word. */
  method Fls(word: uint32) returns (r: int)
    ensures r == BitLength(word)
  {
    hide And, Shl32, Pow2, BitLength;
    var x := word;
    r := 32;
    if x == 0 {
      BitLengthOfZero();
      return 0;
    }
    Masks();
    MaskStep(x, 16, 16, 0xffff_0000);
    if And(x, 0xffff_0000) == 0 {
      x := Shl32(x, 16);
      r := r - 16;
    }
    MaskStep(x, 24, 8, 0xff00_0000);
    if And(x, 0xff00_0000) == 0 {
      x := Shl32(x, 8);
      r := r - 8;
    }
    MaskStep(x, 28, 4, 0xf000_0000);
    if And(x, 0xf000_0000) == 0 {
      x := Shl32(x, 4);
      r := r - 4;
    }
    MaskStep(x, 30, 2, 0xc000_0000);
    if And(x, 0xc000_0000) == 0 {
      x := Shl32(x, 2);
      r := r - 2;
    }
    MaskStep(x, 31, 1, 0x8000_0000);
    if And(x, 0x8000_0000) == 0 {
      x := Shl32(x, 1);
      r := r - 1;
    }
    WordBitLength(x);
  }

  lemma {:induction false} BitLengthHigh(x: nat, k: nat)
    requires Half(x, k) > 0
    ensures BitLength(x) == BitLength(Half(x, k)) + k
    decreases k
  {
    if k > 0 {
      BitLengthHigh(x / 2, k - 1);
    }
  }

  lemma {:induction false} HalfBelow(x: nat, k: nat, w: nat)
    ensures Half(x, k) < Pow2(w) <==> x < Pow2(w + k)
    decreases k
  {
    if k > 0 {
      HalfBelow(x / 2, k - 1, w);
    }
  }

  lemma PowZero()
    ensures Pow2(0) == 1
  {
  }

  /** fls64: the high half decides when it is nonzero. */
  method Fls64(x: uint64) returns (r: int)
    ensures r == BitLength(x)
  {
    hide Pow2, Half, BitLength;
    Pow2Values();
    HalfBelow(x, 32, 32);
    HalfBelow(x, 32, 0);
    assert Pow2(0) == 1 by { PowZero(); }
    HalfIsDiv(x, 32);
    var h: uint32 := x / 0x1_0000_0000;
    if h != 0 {
      BitLengthHigh(x, 32);
      var rh := Fls(h);
      return rh + 32;
    }
    r := Fls(x % 0x1_0000_0000);
  }
}
