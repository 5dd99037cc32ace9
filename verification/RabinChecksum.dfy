/** The Rabin fingerprint of daemon/utils/rabin_checksum.cc: reduction and
    multiplication on 64-bit words, the two generated tables, and the rolling update. */
module RabinChecksum {
  import opened Polynomials
  import opened Words
  import opened BitPos

  const POLY: uint64 := 0xbfe6_b8a5_bf37_8d83

  /** The modulus: degree 63, constant term 1. */
  ghost function P(): (r: Poly) {
    Bits(POLY)
  }

  lemma ModulusFacts()
    ensures Len(P()) == 64 && 0 in P() && P() != {}
    ensures BitLength(POLY) == 64
  {
    hide Bits;
    Pow2Values();
    BitLengthBounds(POLY, 64);
    BitLengthIsLen(POLY);
    Halve(POLY, POLY / 2);
  }

  // ----- reduction -----

  /** The polynomial of a 128-bit value held in two words. */
  ghost function Wide(high: Poly, low: Poly): Poly {
    Add(Shift(high, 64), low)
  }

  /** Subtracting the divisor at offset i + 1 splits over the two words, and
      clears bit i of the high one. */
  lemma CancelHigh(nh: Poly, nl: Poly, d: Poly, i: nat)
    requires i <= 63 && Len(d) == 64 && i in nh && Len(nh) <= i + 1
    ensures Wide(Add(nh, Quot(d, 63 - i)), Add(nl, Low(Shift(d, i + 1), 64)))
         == Add(Wide(nh, nl), Shift(d, i + 1))
    ensures Len(Add(nh, Quot(d, 63 - i))) <= i
  {
    var q, l := Quot(d, 63 - i), Low(Shift(d, i + 1), 64);
    assert Wide(q, l) == Shift(d, i + 1);
    ShiftAdd(nh, q, 64);
    assert i in q;
    assert forall e: nat :: e in q ==> e <= i;
    LenAtMost(Add(nh, q), i);
  }

  /** Subtracting the divisor inside the low word clears its leading bit i. */
  lemma CancelLow(nl: Poly, d: Poly, i: nat)
    requires i <= 63 && Len(d) == 64 && i in nl && Len(nl) <= i + 1
    ensures Len(Add(nl, Quot(d, 63 - i))) <= i
  {
    var q := Quot(d, 63 - i);
    assert i in q;
    assert forall e: nat :: e in q ==> e <= i;
    LenAtMost(Add(nl, q), i);
  }

  /** A shifted divisor moved down is the divisor shifted less. */
  lemma QuotOfShift(d: Poly, k: nat, j: nat, rest: nat)
    requires k == j + rest
    ensures Quot(Shift(d, k), j) == Shift(d, rest)
  {
  }

  lemma StepInClass(a: Poly, b: Poly, k: nat, c: Poly, d: Poly)
    requires b == Add(a, Shift(d, k)) && Cong(a, c, d)
    ensures Cong(b, c, d)
  {
    CongStep(a, k, d);
    CongTrans(b, a, c, d);
  }

  lemma LeadingBitClear(a: Poly, i: nat)
    requires Len(a) <= i + 1 && i !in a
    ensures Len(a) <= i
  {
  }

  lemma ShlFits(d: uint64, k: nat)
    requires d > 0 && BitLength(d) + k == 64
    ensures Bits(Shl64(d, k)) == Shift(Bits(d), k)
    ensures Len(Bits(Shl64(d, k))) == 64
  {
    BitLengthIsLen(d);
    LenIs(Shift(Bits(d), k), 64);
    assert Low(Shift(Bits(d), k), 64) == Shift(Bits(d), k);
  }

  lemma WideStart(n: Poly)
    ensures Wide({}, n) == n
  {
    ShiftZero(64);
  }

  lemma NoBits(a: Poly)
    requires Len(a) == 0
    ensures a == {}
  {
  }

  lemma PositiveHasLength(d: uint64)
    requires d > 0
    ensures 1 <= BitLength(d) <= 64 && BitLength(d) == Len(Bits(d)) && Bits(d) != {}
  {
    BitsOfWord(d);
    BitLengthIsLen(d);
    ZeroHasNoBits(d);
  }

  lemma CancelTop(nh: Poly, nl: Poly, d: Poly)
    requires Len(d) == 64 && 63 in nh && Len(nh) <= 64
    ensures Wide(Add(nh, d), nl) == Add(Wide(nh, nl), Shift(d, 64))
    ensures Len(Add(nh, d)) <= 63
  {
    ShiftAdd(nh, d, 64);
    LenAtMost(Add(nh, d), 63);
  }

  /** The state of the reduction: the divisor moved up to bit 63, and the two words in the
      residue class of the dividend. */
  ghost predicate Reducing(nh: Poly, nl: Poly, d: Poly, divisor: Poly, k: nat, dividend: Poly) {
    k <= 63 && d == Shift(divisor, 63 - k) && Len(d) == 64 && Cong(Wide(nh, nl), dividend, divisor)
  }

  lemma TopPass(nh: Poly, nl: Poly, d: Poly, divisor: Poly, k: nat, dividend: Poly)
    requires Reducing(nh, nl, d, divisor, k, dividend) && Len(nh) <= 64
    ensures if 63 in nh then Len(Add(nh, d)) <= 63 && Reducing(Add(nh, d), nl, d, divisor, k, dividend)
            else Len(nh) <= 63
  {
    hide Add, Shift, Wide, Cong, Len;
    if 63 in nh {
      CancelTop(nh, nl, d);
      ShiftShift(divisor, 63 - k, 64, 127 - k);
      StepInClass(Wide(nh, nl), Wide(Add(nh, d), nl), 127 - k, dividend, divisor);
    } else {
      LeadingBitClear(nh, 63);
    }
  }

  lemma HighPass(nh: Poly, nl: Poly, d: Poly, divisor: Poly, k: nat, dividend: Poly, i: nat)
    requires Reducing(nh, nl, d, divisor, k, dividend) && i <= 62 && Len(nh) <= i + 1
    ensures var nh', nl' := Add(nh, Quot(d, 63 - i)), Add(nl, Low(Shift(d, i + 1), 64));
            if i in nh then Len(nh') <= i && Reducing(nh', nl', d, divisor, k, dividend) else Len(nh) <= i
  {
    hide Add, Shift, Wide, Cong, Len, Quot, Low;
    if i in nh {
      CancelHigh(nh, nl, d, i);
      ShiftShift(divisor, 63 - k, i + 1, 64 - k + i);
      StepInClass(Wide(nh, nl), Add(Wide(nh, nl), Shift(d, i + 1)), 64 - k + i, dividend, divisor);
    } else {
      LeadingBitClear(nh, i);
    }
  }

  lemma LowPass(nl: Poly, d: Poly, divisor: Poly, k: nat, dividend: Poly, i: nat)
    requires Reducing({}, nl, d, divisor, k, dividend) && k <= i <= 63 && Len(nl) <= i + 1
    ensures var nl' := Add(nl, Quot(d, 63 - i));
            if i in nl then Len(nl') <= i && Reducing({}, nl', d, divisor, k, dividend) else Len(nl) <= i
  {
    hide Add, Shift, Wide, Cong, Len, Quot;
    if i in nl {
      CancelLow(nl, d, i);
      QuotOfShift(divisor, 63 - k, 63 - i, i - k);
      WideStart(nl);
      WideStart(Add(nl, Quot(d, 63 - i)));
      StepInClass(nl, Add(nl, Quot(d, 63 - i)), i - k, dividend, divisor);
    } else {
      LeadingBitClear(nl, i);
    }
  }

  lemma ReductionStarts(high: uint64, low: uint64, divisor: uint64, k: nat)
    requires divisor > 0 && k == BitLength(divisor) - 1 && k <= 63
    ensures Reducing(Bits(high), Bits(low), Bits(Shl64(divisor, 63 - k)), Bits(divisor), k,
                     Wide(Bits(high), Bits(low)))
    ensures Len(Bits(high)) <= 64 && Len(Bits(low)) <= 64
  {
    hide Wide, Cong, Shl64, BitLength;
    ShlFits(divisor, 63 - k);
    CongRefl(Wide(Bits(high), Bits(low)), Bits(divisor));
    BitsOfWord(high);
    BitsOfWord(low);
  }

  lemma ReductionEnds(nl: Poly, d: Poly, divisor: Poly, k: nat, dividend: Poly)
    requires Reducing({}, nl, d, divisor, k, dividend) && Len(nl) <= k && Len(divisor) == k + 1
    ensures nl == Rem(dividend, divisor)
  {
    WideStart(nl);
    RemUnique(nl, dividend, divisor);
  }

  /** The remainder of nh * x^64 + nl by d, for every dividend and every d > 0. */
  method PolyMod(high: uint64, low: uint64, divisor: uint64) returns (r: uint64)
    requires divisor > 0
    ensures Bits(r) == Rem(Wide(Bits(high), Bits(low)), Bits(divisor))
  {
    hide *;
    var nh, nl, d := high, low, divisor;
    ghost var dividend, D := Wide(Bits(high), Bits(low)), Bits(divisor);
    var len := Fls64(d);
    var k := len - 1;
    PositiveHasLength(divisor);
    ReductionStarts(high, low, divisor, k);
    d := Shl64(d, 63 - k);

    var i: int;
    if nh != 0 {
      TopPass(Bits(nh), Bits(nl), Bits(d), D, k, dividend);
      if BitSet(nh, 63) {
        nh := Xor64(nh, d);
      }
      i := 62;
      while i >= 0
        invariant -1 <= i <= 62
        invariant Len(Bits(nh)) <= i + 1
        invariant Reducing(Bits(nh), Bits(nl), Bits(d), D, k, dividend)
      {
        HighPass(Bits(nh), Bits(nl), Bits(d), D, k, dividend, i);
        if BitSet(nh, i) {
          nh := Xor64(nh, Shr64(d, 63 - i));
          nl := Xor64(nl, Shl64(d, i + 1));
        }
        i := i - 1;
      }
      NoBits(Bits(nh));
      BitsOfWord(nl);
    } else {
      ZeroHasNoBits(nh);
    }
    i := 63;
    while i >= k
      invariant k - 1 <= i <= 63
      invariant Len(Bits(nl)) <= i + 1
      invariant Reducing({}, Bits(nl), Bits(d), D, k, dividend)
    {
      LowPass(Bits(nl), Bits(d), D, k, dividend, i);
      if BitSet(nl, i) {
        nl := Xor64(nl, Shr64(d, 63 - i));
      }
      i := i - 1;
    }
    ReductionEnds(Bits(nl), Bits(d), D, k, dividend);
    return nl;
  }

  // ----- multiplication -----

  /** One partial product splits over the two words. */
  lemma PartialProduct(ph: Poly, pl: Poly, x: Poly, y: Poly, i: nat)
    requires 1 <= i < 64 && Wide(ph, pl) == MulTo(x, y, i)
    ensures i in x ==> Wide(Add(ph, Quot(y, 64 - i)), Add(pl, Low(Shift(y, i), 64))) == MulTo(x, y, i + 1)
    ensures i !in x ==> Wide(ph, pl) == MulTo(x, y, i + 1)
  {
    var q, l := Quot(y, 64 - i), Low(Shift(y, i), 64);
    assert Wide(q, l) == Shift(y, i);
    ShiftAdd(ph, q, 64);
  }

  lemma FirstProduct(x: Poly, y: Poly)
    ensures MulTo(x, y, 1) == if 0 in x then Wide({}, y) else Wide({}, {})
  {
    assert MulTo(x, y, 0) == {};
    ShiftNone(y);
    ShiftZero(64);
  }

  /** The carry-less product of x and y, reduced by d. */
  method PolyMult(x: uint64, y: uint64, d: uint64) returns (r: uint64)
    requires d > 0
    ensures Bits(r) == Rem(Mul(Bits(x), Bits(y)), Bits(d))
  {
    hide *;
    var ph: uint64, pl: uint64 := 0, 0;
    ZeroHasNoBits(0);
    FirstProduct(Bits(x), Bits(y));
    if BitSet(x, 0) {
      pl := y;
    }
    var i := 1;
    while i < 64
      invariant 1 <= i <= 64
      invariant Wide(Bits(ph), Bits(pl)) == MulTo(Bits(x), Bits(y), i)
    {
      PartialProduct(Bits(ph), Bits(pl), Bits(x), Bits(y), i);
      if BitSet(x, i) {
        ph := Xor64(ph, Shr64(y, 64 - i));
        pl := Xor64(pl, Shl64(y, i));
      }
      i := i + 1;
    }
    BitsOfWord(x);
    MulToBeyond(Bits(x), Bits(y), 64);
    r := PolyMod(ph, pl, d);
  }

  // ----- tables -----

  /** Entry j of the append table: j * x^63 reduced, plus the bit that p << 8 leaves at 63. */
  ghost function TEntry(j: nat): Poly {
    Add(Rem(Shift(Bits(j), 63), Bits(POLY)), if j % 2 == 1 then {63} else {})
  }

  /** Entry j of the removal table: j * x^(8 * 255) reduced. */
  ghost function UEntry(j: nat): Poly {
    Rem(Shift(Bits(j), 2040), Bits(POLY))
  }

  ghost predicate IsT(t: seq<uint64>) {
    |t| == 256 && forall j: nat :: j < 256 ==> Bits(t[j]) == TEntry(j)
  }

  ghost predicate IsU(u: seq<uint64>) {
    |u| == 256 && forall j: nat :: j < 256 ==> Bits(u[j]) == UEntry(j)
  }

  method CalcT() returns (ret: seq<uint64>)
    ensures IsT(ret)
  {
    ret := seq(256, _ => 0);
    ghost var empty := ret;
    var len := Fls64(POLY);
    ModulusFacts();
    var xshift := len - 1;
    var t1 := PolyMod(0, Shl64(1, xshift), POLY);
    T1Value();
    var j := 0;
    while j < 256
      invariant 0 <= j <= 256 && |ret| == 256
      invariant forall i: nat :: i < j ==> Bits(ret[i]) == TEntry(i)
    {
      var product := PolyMult(j, t1, POLY);
      TEntryValue(j, product);
      ret := ret[j := Or64(product, Shl64(j, xshift))];
      j := j + 1;
    }
  }

  lemma T1Value()
    ensures Wide(Bits(0), Bits(Shl64(1, 63))) == {63}
  {
    BitsOfOne();
    ShiftZero(64);
    assert Low(Shift({0}, 63), 64) == {63};
  }

  lemma TEntryValue(j: uint8, product: uint64)
    requires Bits(product) == Rem(Mul(Bits(j), Rem({63}, P())), P())
    ensures Bits(Or64(product, Shl64(j, 63))) == TEntry(j)
  {
    hide Bits, Or64, Shl64, Rem, Cong;
    ModulusFacts();
    RemMul(Bits(j), {63}, P());
    MulPow(Bits(j), 63);
    assert Low(Shift(Bits(j), 63), 64) == if 0 in Bits(j) then {63} else {};
    Halve(j, j / 2);
    assert 63 !in Bits(product);
  }

  // ----- byte append and rolling update -----

  datatype Result<T> = Ok(value: T) | OutOfRange

  /** (p << 8 | m) ^ T.at(p >> 55); the checked lookup fails when p has its top bit set. */
  function Append8(p: uint64, m: uint8, t: seq<uint64>): Result<uint64>
    requires |t| == 256
  {
    ModulusFacts();
    var index := Shr64(p, BitLength(POLY) - 9);
    if index < 256 then Ok(Xor64(Or64(Shl64(p, 8), m), t[index])) else OutOfRange
  }

  lemma IndexInRange(p: uint64)
    ensures Shr64(p, 55) < 256 <==> p < 0x8000_0000_0000_0000
  {
    Pow2Values();
    BitsBelow(p, 63);
    BitsBelow(Shr64(p, 55), 8);
    QuotLen(Bits(p), 55, 8);
  }

  lemma QuotLen(a: Poly, k: nat, n: nat)
    ensures Len(Quot(a, k)) <= n <==> Len(a) <= n + k
  {
    if Len(Quot(a, k)) <= n {
      forall e: nat | e in a
        ensures e < n + k
      {
        if e >= k {
          assert e - k in Quot(a, k);
        }
      }
    } else {
      assert Len(Quot(a, k)) - 1 in Quot(a, k);
    }
  }

  /** The truncated shift, the byte and the table entry add up to p * x^8 + m,
      except that the eight leading coefficients hi come in reduced form. */
  lemma AppendSum(p: Poly, m: Poly, hi: Poly, reduced: Poly, v: Poly)
    requires Len(p) <= 63 && Len(m) <= 8 && hi == Quot(p, 55)
    requires v == Add(Low(Shift(p, 8), 64) + m, Add(reduced, if 0 in hi then {63} else {}))
    ensures var low := Add(Shift(Low(p, 55), 8), m);
            && v == Add(low, reduced) && Len(low) <= 63
            && Add(low, Shift(hi, 63)) == Add(Shift(p, 8), m)
  {
    var low := Add(Shift(Low(p, 55), 8), m);
    LenAtMost(low, 63);
    assert Add(Shift(Low(p, 55), 8), Shift(hi, 63)) == Shift(p, 8);
  }

  lemma AppendRem(p: Poly, m: Poly, hi: Poly, v: Poly)
    requires Len(p) <= 63 && Len(m) <= 8 && hi == Quot(p, 55)
    requires v == Add(Low(Shift(p, 8), 64) + m,
                      Add(Rem(Shift(hi, 63), P()), if 0 in hi then {63} else {}))
    ensures v == Rem(Add(Shift(p, 8), m), P())
  {
    hide *;
    ModulusFacts();
    var reduced := Rem(Shift(hi, 63), P());
    AppendSum(p, m, hi, reduced, v);
    var low := Add(Shift(Low(p, 55), 8), m);
    RemSmall(low, P());
    RemAdd(low, Shift(hi, 63), P());
  }

  /** Append8 is exact: it fails exactly on values of 2^63 and more, and otherwise
      yields the remainder of p * x^8 + m, again below 2^63. */
  lemma AppendExact(p: uint64, m: uint8, t: seq<uint64>)
    requires IsT(t)
    ensures Append8(p, m, t).Ok? <==> p < 0x8000_0000_0000_0000
    ensures Append8(p, m, t).Ok? ==>
              && Append8(p, m, t).value < 0x8000_0000_0000_0000
              && Bits(Append8(p, m, t).value) == Rem(Add(Shift(Bits(p), 8), Bits(m)), P())
  {
    hide Bits, Or64, Shl64, Shr64, Xor64, Rem, Cong, TEntry, BitLength;
    ModulusFacts();
    IndexInRange(p);
    var hi := Shr64(p, 55);
    if hi < 256 {
      AppendValue(p, m, hi, t[hi]);
    }
  }

  lemma AppendValue(p: uint64, m: uint8, hi: uint8, entry: uint64)
    requires p < 0x8000_0000_0000_0000 && Bits(hi) == Quot(Bits(p), 55) && Bits(entry) == TEntry(hi)
    ensures var v := Xor64(Or64(Shl64(p, 8), m), entry);
            v < 0x8000_0000_0000_0000 && Bits(v) == Rem(Add(Shift(Bits(p), 8), Bits(m)), P())
  {
    hide Bits, Or64, Shl64, Shr64, Xor64, Rem, Cong, Quot, Shift, Len, Low, Add;
    var v := Xor64(Or64(Shl64(p, 8), m), entry);
    ModulusFacts();
    SmallWord(p);
    BitsOfByte(m);
    Halve(hi, hi / 2);
    AppendRem(Bits(p), Bits(m), Bits(hi), Bits(v));
    SmallWord(v);
  }

  lemma SmallWord(v: uint64)
    ensures v < 0x8000_0000_0000_0000 <==> Len(Bits(v)) <= 63
  {
    Pow2Values();
    BitsBelow(v, 63);
  }

  /** The removal table: append 255 zero bytes to 1, then multiply by every byte. */
  method CalcU(t: seq<uint64>) returns (u: seq<uint64>)
    requires IsT(t)
    ensures IsU(u)
  {
    hide Bits, Rem, Cong, TEntry, UEntry, Shift, Len, Mul, Add, Append8;
    u := seq(256, _ => 0);
    var shiftSize: uint64 := 1;
    ModulusFacts();
    BitsOfOne();
    LenIs({0}, 1);
    RemSmall({0}, P());
    var i := 1;
    while i < 256
      invariant 1 <= i <= 256
      invariant shiftSize < 0x8000_0000_0000_0000
      invariant Bits(shiftSize) == Rem({8 * (i - 1)}, P())
    {
      AppendExact(shiftSize, 0, t);
      AppendZero(8 * (i - 1));
      shiftSize := Append8(shiftSize, 0, t).value;
      i := i + 1;
    }
    i := 0;
    while i < 256
      invariant 0 <= i <= 256 && |u| == 256
      invariant forall j: nat :: j < i ==> Bits(u[j]) == UEntry(j)
    {
      var product := PolyMult(i, shiftSize, POLY);
      UEntryValue(i, product);
      u := u[i := product];
      i := i + 1;
    }
  }

  lemma UEntryValue(j: uint8, product: uint64)
    requires Bits(product) == Rem(Mul(Bits(j), Rem({2040}, P())), P())
    ensures Bits(product) == UEntry(j)
  {
    hide Bits, Rem, Cong;
    ModulusFacts();
    RemMul(Bits(j), {2040}, P());
    MulPow(Bits(j), 2040);
  }

  lemma AppendZero(e: nat)
    ensures Rem(Add(Shift(Rem({e}, P()), 8), Bits(0)), P()) == Rem({e + 8}, P())
  {
    hide *;
    ModulusFacts();
    BitsOfOne();
    AddNone(Shift(Rem({e}, P()), 8));
    RemShift({e}, 8, P());
    PowShift(e, 8);
  }

  lemma AddNone(a: Poly)
    ensures Add(a, {}) == a == Add({}, a)
  {
  }

  lemma PowShift(e: nat, k: nat)
    ensures Shift({e}, k) == {e + k}
  {
  }

  /** The two static tables. */
  datatype Tables = Tables(t: seq<uint64>, u: seq<uint64>)
  {
    ghost predicate Valid() {
      IsT(t) && IsU(u)
    }
  }

  method BuildTables() returns (tables: Tables)
    ensures tables.Valid()
  {
    var t := CalcT();
    var u := CalcU(t);
    tables := Tables(t, u);
  }

  /** Move the 256-byte window: drop c1 at its front, append c2. */
  function RollingChecksum(csum: uint64, c1: uint8, c2: uint8, tables: Tables): Result<uint64>
    requires |tables.t| == 256 && |tables.u| == 256
  {
    Append8(Xor64(csum, tables.u[c1]), c2, tables.t)
  }

  lemma RollingExact(csum: uint64, c1: uint8, c2: uint8, tables: Tables)
    requires tables.Valid()
    ensures RollingChecksum(csum, c1, c2, tables).Ok? <==> csum < 0x8000_0000_0000_0000
    ensures csum < 0x8000_0000_0000_0000 ==>
              var v := RollingChecksum(csum, c1, c2, tables).value;
              && v < 0x8000_0000_0000_0000
              && Bits(v) == Rem(Add(Shift(Add(Bits(csum), Shift(Bits(c1), 2040)), 8), Bits(c2)), P())
  {
    hide Bits, Xor64, Append8, Rem, Cong, BitLength, IsT;
    ModulusFacts();
    var x := Xor64(csum, tables.u[c1]);
    SmallWord(csum);
    SmallWord(x);
    var out := UEntry(c1);
    LenAtMost(out, 63);
    AddKeepsHigh(Bits(csum), out, 63);
    AppendExact(x, c2, tables.t);
    if csum < 0x8000_0000_0000_0000 {
      RollClass(Bits(csum), Shift(Bits(c1), 2040), Bits(c2));
    }
  }

  lemma AddKeepsHigh(a: Poly, b: Poly, n: nat)
    requires Len(b) <= n
    ensures Len(Add(a, b)) <= n <==> Len(a) <= n
  {
    if Len(a) > n {
      assert Len(a) - 1 in Add(a, b);
    } else {
      LenAtMost(Add(a, b), n);
    }
  }

  /** Reducing an inner summand first changes nothing. */
  lemma RollClass(a: Poly, b: Poly, c: Poly)
    ensures Rem(Add(Shift(Add(a, Rem(b, P())), 8), c), P()) == Rem(Add(Shift(Add(a, b), 8), c), P())
  {
    hide Rem, Cong;
    ModulusFacts();
    var r := Rem(b, P());
    ShiftAdd(a, r, 8);
    ShiftAdd(a, b, 8);
    RemShift(b, 8, P());
    RemAdd(Add(Shift(a, 8), Shift(r, 8)), c, P());
    RemAdd(Add(Shift(a, 8), Shift(b, 8)), c, P());
    RemAdd(Shift(a, 8), Shift(r, 8), P());
    RemAdd(Shift(a, 8), Shift(b, 8), P());
  }
}
