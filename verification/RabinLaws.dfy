/** What the fingerprint of daemon/utils/rabin_checksum.cc is for: the checksum of a
    string is its polynomial modulo P, so windows roll, strings concatenate, checksums
    are linear, and short bursts of changes never go unnoticed. */
module RabinLaws {
  import opened Polynomials
  import opened Words
  import opened RabinChecksum

  type Bytes = seq<uint8>

  /** The bytes of s as coefficients, first byte highest. */
  ghost function PolyOf(s: Bytes): Poly {
    if s == [] then {}
    else Add(Shift(PolyOf(s[..|s| - 1]), 8), Bits(s[|s| - 1]))
  }

  /** The independent definition of the fingerprint: no tables, no words. */
  ghost function Fingerprint(s: Bytes): Poly {
    Rem(PolyOf(s), P())
  }

  /** The word that spells the fingerprint of buf. */
  ghost function Checksum(buf: Bytes): (sum: uint64)
    ensures sum < 0x8000_0000_0000_0000 && Bits(sum) == Fingerprint(buf)
  {
    FingerprintWord(buf);
    NumberOfBits(Fingerprint(buf))
  }

  lemma FingerprintWord(buf: Bytes)
    ensures var n := NumberOfBits(Fingerprint(buf));
            n < 0x8000_0000_0000_0000 && Bits(n) == Fingerprint(buf)
  {
    hide Bits, Rem, Cong;
    var n := NumberOfBits(Fingerprint(buf));
    ModulusFacts();
    NumberOfBitsBits(Fingerprint(buf));
    Pow2Values();
    BitsBelow(n, 63);
  }

  // ----- the checksum loop -----

  lemma EmptyFingerprint()
    ensures Bits(0) == {} == Fingerprint([])
  {
    BitsOfOne();
    EmptyRem();
  }

  lemma ChecksumStep(sum: uint64, buf: Bytes, tables: Tables)
    requires tables.Valid() && buf != []
    requires sum < 0x8000_0000_0000_0000 && Bits(sum) == Fingerprint(buf[..|buf| - 1])
    ensures var r := RollingChecksum(sum, 0, buf[|buf| - 1], tables);
            r.Ok? && r.value < 0x8000_0000_0000_0000 && Bits(r.value) == Fingerprint(buf)
  {
    hide Bits, Rem, Cong, RollingChecksum, Add, Shift;
    var c := buf[|buf| - 1];
    RollingExact(sum, 0, c, tables);
    BitsOfOne();
    ShiftZero(2040);
    AddNone(Bits(sum));
    AppendPoly(PolyOf(buf[..|buf| - 1]), Bits(c));
  }

  /** Appending to a remainder is appending, then reducing. */
  lemma AppendPoly(a: Poly, c: Poly)
    ensures Rem(Add(Shift(Rem(a, P()), 8), c), P()) == Rem(Add(Shift(a, 8), c), P())
  {
    hide Rem, Cong, Add, Shift, Bits;
    ModulusFacts();
    RemAdd(Shift(Rem(a, P()), 8), c, P());
    RemAdd(Shift(a, 8), c, P());
    RemShift(a, 8, P());
  }

  /** checksum(buf): the loop of the source. */
  method ComputeChecksum(buf: Bytes, tables: Tables) returns (sum: uint64)
    requires tables.Valid()
    ensures sum == Checksum(buf)
  {
    hide Bits, Rem, Cong, RollingChecksum, Fingerprint, Checksum;
    sum := 0;
    EmptyFingerprint();
    assert buf[..0] == [];
    for i := 0 to |buf|
      invariant sum < 0x8000_0000_0000_0000 && Bits(sum) == Fingerprint(buf[..i])
    {
      assert buf[..i + 1][..i] == buf[..i];
      ChecksumStep(sum, buf[..i + 1], tables);
      sum := RollingChecksum(sum, 0, buf[i], tables).value;
    }
    assert buf[..|buf|] == buf;
    BitsInjective(sum, Checksum(buf));
  }

  // ----- concatenation and linearity -----

  lemma {:induction false} PolyOfConcat(a: Bytes, b: Bytes)
    ensures PolyOf(a + b) == Add(Shift(PolyOf(a), 8 * |b|), PolyOf(b))
    decreases |b|
  {
    hide Bits, Rem, Cong;
    if b == [] {
      assert a + b == a;
      ShiftNone(PolyOf(a));
      AddNone(PolyOf(a));
    } else {
      var n := |b| - 1;
      assert (a + b)[..|a + b| - 1] == a + b[..n];
      PolyOfConcat(a, b[..n]);
      ConcatStep(PolyOf(a), PolyOf(b[..n]), Bits(b[n]), 8 * n);
    }
  }

  lemma ConcatStep(a: Poly, b: Poly, c: Poly, k: nat)
    ensures Add(Shift(Add(Shift(a, k), b), 8), c) == Add(Shift(a, k + 8), Add(Shift(b, 8), c))
  {
    hide Bits, Rem, Cong, Len;
    ShiftAdd(Shift(a, k), b, 8);
    ShiftShift(a, k, 8, k + 8);
  }

  /** checksum(a + b) = checksum(a) * x^(8|b|) + checksum(b), modulo P. */
  lemma ChecksumConcat(a: Bytes, b: Bytes)
    ensures Bits(Checksum(a + b))
         == Rem(Add(Shift(Bits(Checksum(a)), 8 * |b|), Bits(Checksum(b))), P())
  {
    hide Rem, Cong, Add, Shift, Bits, Checksum;
    ModulusFacts();
    PolyOfConcat(a, b);
    var x, y := PolyOf(a), PolyOf(b);
    RemAdd(Shift(x, 8 * |b|), y, P());
    RemAdd(Shift(Rem(x, P()), 8 * |b|), Rem(y, P()), P());
    RemShift(x, 8 * |b|, P());
    RemSmall(Rem(y, P()), P());
  }

  function XorBytes(a: Bytes, b: Bytes): (r: Bytes)
    requires |a| == |b|
    ensures |r| == |a| && forall i :: 0 <= i < |a| ==> r[i] == Xor(a[i], b[i])
  {
    seq(|a|, i requires 0 <= i < |a| => XorByte(a[i], b[i]))
  }

  function XorByte(a: uint8, b: uint8): uint8 {
    XorBits(a, b);
    BitsOfByte(a);
    BitsOfByte(b);
    LenAtMost(Bits(Xor(a, b)), 8);
    Pow2Values();
    BitsBelow(Xor(a, b), 8);
    Xor(a, b)
  }

  lemma {:induction false} PolyOfXor(a: Bytes, b: Bytes)
    requires |a| == |b|
    ensures PolyOf(XorBytes(a, b)) == Add(PolyOf(a), PolyOf(b))
    decreases |a|
  {
    hide Bits, Rem, Cong, Xor;
    if a != [] {
      var n := |a| - 1;
      var r := XorBytes(a, b);
      assert r[..n] == XorBytes(a[..n], b[..n]);
      PolyOfXor(a[..n], b[..n]);
      XorBits(a[n], b[n]);
      XorStep(PolyOf(a[..n]), PolyOf(b[..n]), Bits(a[n]), Bits(b[n]));
    }
  }

  lemma XorStep(a: Poly, b: Poly, c: Poly, d: Poly)
    ensures Add(Shift(Add(a, b), 8), Add(c, d)) == Add(Add(Shift(a, 8), c), Add(Shift(b, 8), d))
  {
    hide Bits, Rem, Cong, Len;
    ShiftAdd(a, b, 8);
  }

  /** Checksums of equal-length strings are linear over xor. */
  lemma ChecksumXor(a: Bytes, b: Bytes)
    requires |a| == |b|
    ensures Checksum(XorBytes(a, b)) == Xor64(Checksum(a), Checksum(b))
  {
    hide Rem, Cong, Add, Shift, Bits, Checksum, Xor64, XorBytes;
    ModulusFacts();
    PolyOfXor(a, b);
    RemAdd(PolyOf(a), PolyOf(b), P());
    BitsInjective(Checksum(XorBytes(a, b)), Xor64(Checksum(a), Checksum(b)));
  }

  // ----- the rolling window -----

  /** What a roll over a window of any length leaves behind: the departing byte at the
      weight it had, plus the departing byte at the weight the table removes. */
  lemma RollValue(w: Bytes, c: uint8, tables: Tables)
    requires tables.Valid() && w != []
    ensures var r := RollingChecksum(Checksum(w), w[0], c, tables);
            && r.Ok?
            && Bits(r.value) == Add(Fingerprint(w[1..] + [c]),
                 Rem(Shift(Add(Shift(Bits(w[0]), 8 * (|w| - 1)), Shift(Bits(w[0]), 2040)), 8), P()))
  {
    hide Rem, Cong, Add, Shift, Bits, Checksum, RollingChecksum;
    ModulusFacts();
    var rest, b := w[1..], Bits(w[0]);
    var x := Shift(b, 8 * |rest|);
    var y := Shift(b, 2040);
    RollingExact(Checksum(w), w[0], c, tables);
    assert w == [w[0]] + rest;
    PolyOfConcat([w[0]], rest);
    PolyOfByte(w[0]);
    assert (rest + [c])[..|rest|] == rest;
    var q := PolyOf(rest);
    var cc := Bits(c);
    assert PolyOf(w) == Add(x, q);
    assert PolyOf(rest + [c]) == Add(Shift(q, 8), cc);
    RollClass(y, PolyOf(w), cc);
    AddComm(y, Rem(PolyOf(w), P()));
    RollSplit(x, y, q, cc);
    RemAdd(Add(Shift(q, 8), cc), Shift(Add(x, y), 8), P());
  }

  lemma PolyOfByte(c: uint8)
    ensures PolyOf([c]) == Bits(c)
  {
    hide Bits, Rem, Cong;
    assert [c][..0] == [];
    ShiftZero(8);
    AddNone(Bits(c));
  }

  lemma AddComm(a: Poly, b: Poly)
    ensures Add(a, b) == Add(b, a)
  {
  }

  lemma RollSplit(x: Poly, y: Poly, q: Poly, c: Poly)
    ensures Add(Shift(Add(y, Add(x, q)), 8), c) == Add(Add(Shift(q, 8), c), Shift(Add(x, y), 8))
  {
    hide Bits, Rem, Cong, Len;
    ShiftAdd(y, Add(x, q), 8);
    ShiftAdd(x, q, 8);
    ShiftAdd(x, y, 8);
  }

  /** Rolling agrees with recomputing exactly when the departing byte weighs, modulo P,
      what it weighs at the front of a 256-byte window. */
  lemma RollingAgreesIff(w: Bytes, c: uint8, tables: Tables)
    requires tables.Valid() && w != []
    ensures RollingChecksum(Checksum(w), w[0], c, tables) == Ok(Checksum(w[1..] + [c]))
       <==> Rem(Shift(Bits(w[0]), 8 * (|w| - 1)), P()) == Rem(Shift(Bits(w[0]), 8 * 255), P())
  {
    hide Rem, Cong, Shift, Bits, Checksum, RollingChecksum, Add, Len, Fingerprint;
    var r := RollingChecksum(Checksum(w), w[0], c, tables);
    var x := Shift(Bits(w[0]), 8 * (|w| - 1));
    var y := Shift(Bits(w[0]), 2040);
    RollValue(w, c, tables);
    AddIsSelf(Fingerprint(w[1..] + [c]), Rem(Shift(Add(x, y), 8), P()));
    ShiftedSumVanishes(x, y);
    if Bits(r.value) == Fingerprint(w[1..] + [c]) {
      BitsInjective(r.value, Checksum(w[1..] + [c]));
    }
  }

  lemma AddIsSelf(a: Poly, b: Poly)
    ensures Add(a, b) == a <==> b == {}
  {
    if b != {} {
      var e :| e in b;
      assert e in Add(a, b) <==> e !in a;
    }
  }

  /** Eight more zero bits behind a sum vanish modulo P only when its terms agree. */
  lemma ShiftedSumVanishes(x: Poly, y: Poly)
    ensures Rem(Shift(Add(x, y), 8), P()) == {} <==> Rem(x, P()) == Rem(y, P())
  {
    hide Rem, Cong, Shift, Bits, Len;
    ModulusFacts();
    RemAdd(x, y, P());
    if Rem(Shift(Add(x, y), 8), P()) == {} {
      CancelShift(Add(x, y), 8, P());
      SumIsZero(Rem(x, P()), Rem(y, P()));
    }
    if Rem(x, P()) == Rem(y, P()) {
      assert Rem(Add(x, y), P()) == {};
      RemShift(Add(x, y), 8, P());
      ShiftZero(8);
      EmptyRem();
    }
  }

  lemma EmptyRem()
    ensures Rem({}, P()) == {}
  {
    hide Rem, Cong, Bits;
    ModulusFacts();
    LenAtMost({}, 0);
    RemSmall({}, P());
  }

  /** Rolling a 256-byte window gives the checksum of the moved window. */
  lemma RollingAgrees(w: Bytes, c: uint8, tables: Tables)
    requires tables.Valid() && |w| == 256
    ensures RollingChecksum(Checksum(w), w[0], c, tables) == Ok(Checksum(w[1..] + [c]))
  {
    RollingAgreesIff(w, c, tables);
  }

  /** The window length is not a parameter: at up to six bytes more or less than 256 the
      roll is wrong for every departing byte but 0. */
  lemma RollingNeedsFullWindow(w: Bytes, c: uint8, tables: Tables)
    requires tables.Valid() && 250 <= |w| <= 262 && |w| != 256
    ensures RollingChecksum(Checksum(w), w[0], c, tables) == Ok(Checksum(w[1..] + [c]))
       <==> w[0] == 0
  {
    hide Rem, Cong, Shift, Bits, Checksum, RollingChecksum;
    RollingAgreesIff(w, c, tables);
    var b, n := Bits(w[0]), 8 * (|w| - 1);
    ZeroHasNoBits(w[0]);
    BitsOfByte(w[0]);
    if w[0] == 0 {
      ShiftZero(n);
      ShiftZero(2040);
    } else if n < 2040 {
      WeightsDiffer(b, n, 2040 - n, 2040);
    } else {
      WeightsDiffer(b, 2040, n - 2040, n);
    }
  }

  lemma WeightsDiffer(b: Poly, k: nat, gap: nat, sum: nat)
    requires b != {} && Len(b) <= 8 && 8 <= gap <= 48 && sum == k + gap
    ensures Rem(Shift(b, k), P()) != Rem(Shift(b, sum), P())
  {
    hide Rem, Cong, Bits;
    ModulusFacts();
    var e := Add(b, Shift(b, gap));
    assert Len(b) - 1 + gap in e;
    if Rem(Shift(b, k), P()) == Rem(Shift(b, sum), P()) {
      RemAdd(Shift(b, k), Shift(b, sum), P());
      ShiftShift(b, gap, k, sum);
      ShiftAdd(b, Shift(b, gap), k);
      CancelShift(e, k, P());
      LenAtMost(e, 56);
      RemSmall(e, P());
      assert false;
    }
  }

  /** Slide the window i bytes along file. */
  ghost function Slide(file: Bytes, i: nat, tables: Tables): Result<uint64>
    requires tables.Valid() && i + 256 <= |file|
  {
    if i == 0 then Ok(Checksum(file[..256]))
    else
      match Slide(file, i - 1, tables)
      case OutOfRange => OutOfRange
      case Ok(sum) => RollingChecksum(sum, file[i - 1], file[i + 255], tables)
  }

  /** At every position the rolled value is the checksum of the 256 bytes there. */
  lemma {:induction false} SlideIsChecksum(file: Bytes, i: nat, tables: Tables)
    requires tables.Valid() && i + 256 <= |file|
    ensures Slide(file, i, tables) == Ok(Checksum(file[i..i + 256]))
  {
    hide RollingChecksum, Checksum, Bits, Rem, Cong, Shift, TEntry, UEntry, IsT, IsU;
    if i == 0 {
      assert file[0..256] == file[..256];
    } else {
      SlideIsChecksum(file, i - 1, tables);
      var w := file[i - 1..i + 255];
      RollingAgrees(w, file[i + 255], tables);
      assert w[1..] + [file[i + 255]] == file[i..i + 256];
    }
  }

  // ----- burst detection -----

  /** Strings whose polynomials differ by a pattern of at most 64 bits, at any offset, have
      equal checksums exactly when that pattern is zero or P itself. */
  lemma BurstIff(a: Bytes, b: Bytes, pattern: Poly, offset: nat)
    requires Add(PolyOf(a), PolyOf(b)) == Shift(pattern, offset) && Len(pattern) <= 64
    ensures Checksum(a) == Checksum(b) <==> pattern == {} || pattern == P()
  {
    hide Rem, Cong, Shift, Bits, Checksum, PolyOf, Len;
    ModulusFacts();
    RemAdd(PolyOf(a), PolyOf(b), P());
    SumIsZero(Fingerprint(a), Fingerprint(b));
    if Checksum(a) == Checksum(b) {
      CancelShift(pattern, offset, P());
      SmallMultiple(pattern, P());
    }
    if pattern == {} {
      ShiftZero(offset);
      EmptyRem();
    } else if pattern == P() {
      MulPow(P(), offset);
      MultipleHasNoRem({offset}, P());
    }
    if Fingerprint(a) == Fingerprint(b) {
      BitsInjective(Checksum(a), Checksum(b));
    }
  }

  /** A nonzero pattern shorter than 64 bits, at any offset, is always detected. */
  lemma BurstDetected(a: Bytes, b: Bytes, pattern: Poly, offset: nat)
    requires Add(PolyOf(a), PolyOf(b)) == Shift(pattern, offset)
    requires pattern != {} && Len(pattern) <= 63
    ensures Checksum(a) != Checksum(b)
  {
    hide Bits;
    ModulusFacts();
    BurstIff(a, b, pattern, offset);
  }

  lemma {:induction false} PolyOfLen(s: Bytes)
    ensures Len(PolyOf(s)) <= 8 * |s|
    decreases |s|
  {
    hide Bits, Rem, Cong;
    if s == [] {
      LenAtMost({}, 0);
    } else {
      var n := |s| - 1;
      PolyOfLen(s[..n]);
      BitsOfByte(s[n]);
      LenAtMost(PolyOf(s), 8 * |s|);
    }
  }

  lemma {:induction false} PolyOfInjective(a: Bytes, b: Bytes)
    requires |a| == |b| && PolyOf(a) == PolyOf(b)
    ensures a == b
    decreases |a|
  {
    hide Bits, Rem, Cong;
    if a != [] {
      var n := |a| - 1;
      BitsOfByte(a[n]);
      BitsOfByte(b[n]);
      SplitByte(PolyOf(a[..n]), Bits(a[n]), PolyOf(b[..n]), Bits(b[n]));
      BitsInjective(a[n], b[n]);
      PolyOfInjective(a[..n], b[..n]);
      assert a == a[..n] + [a[n]] && b == b[..n] + [b[n]];
    }
  }

  lemma SplitByte(a: Poly, c: Poly, b: Poly, d: Poly)
    requires Len(c) <= 8 && Len(d) <= 8
    requires Add(Shift(a, 8), c) == Add(Shift(b, 8), d)
    ensures a == b && c == d
  {
    forall e: nat
      ensures (e in c <==> e in d) && (e in Shift(a, 8) <==> e in Shift(b, 8))
    {
      assert e in Add(Shift(a, 8), c) <==> e in Add(Shift(b, 8), d);
    }
    ShiftInjective(a, b, 8);
  }

  /** A difference inside eight consecutive bytes goes unnoticed exactly when there is none
      or when it is P itself, whatever surrounds it. */
  lemma EightByteBurst(prefix: Bytes, x: Bytes, y: Bytes, suffix: Bytes)
    requires |x| == |y| <= 8
    ensures Checksum(prefix + x + suffix) == Checksum(prefix + y + suffix)
       <==> x == y || Add(PolyOf(x), PolyOf(y)) == P()
  {
    hide Bits, Rem, Cong, Shift, Checksum, PolyOf, Len;
    var pattern := Add(PolyOf(x), PolyOf(y));
    PolyOfLen(x);
    PolyOfLen(y);
    AddLen(PolyOf(x), PolyOf(y), 64);
    if pattern == {} {
      SumIsZero(PolyOf(x), PolyOf(y));
      PolyOfInjective(x, y);
    }
    PolyOfConcat(prefix, x);
    PolyOfConcat(prefix, y);
    PolyOfConcat(prefix + x, suffix);
    PolyOfConcat(prefix + y, suffix);
    BurstSum(Shift(PolyOf(prefix), 8 * |x|), PolyOf(x), PolyOf(y), PolyOf(suffix), 8 * |suffix|);
    BurstIff(prefix + x + suffix, prefix + y + suffix, pattern, 8 * |suffix|);
  }

  lemma AddLen(a: Poly, b: Poly, n: nat)
    requires Len(a) <= n && Len(b) <= n
    ensures Len(Add(a, b)) <= n
  {
    LenAtMost(Add(a, b), n);
  }

  /** Equal-length strings that differ only inside seven consecutive bytes always have
      different checksums, whatever surrounds the difference. */
  lemma SevenByteBurst(prefix: Bytes, x: Bytes, y: Bytes, suffix: Bytes)
    requires |x| == |y| <= 7 && x != y
    ensures Checksum(prefix + x + suffix) != Checksum(prefix + y + suffix)
  {
    hide Bits, Checksum, PolyOf, Add, Len;
    ModulusFacts();
    PolyOfLen(x);
    PolyOfLen(y);
    AddLen(PolyOf(x), PolyOf(y), 56);
    EightByteBurst(prefix, x, y, suffix);
  }

  lemma BurstSum(p: Poly, x: Poly, y: Poly, s: Poly, k: nat)
    ensures Add(Add(Shift(Add(p, x), k), s), Add(Shift(Add(p, y), k), s)) == Shift(Add(x, y), k)
  {
    ShiftAdd(p, x, k);
    ShiftAdd(p, y, k);
    ShiftAdd(x, y, k);
  }

  /** Eight bytes are too many: the bytes of P against eight zeros. */
  lemma EightByteCollision(prefix: Bytes, suffix: Bytes)
    ensures var x := [0xbf, 0xe6, 0xb8, 0xa5, 0xbf, 0x37, 0x8d, 0x83];
            var y := [0, 0, 0, 0, 0, 0, 0, 0];
            Checksum(prefix + x + suffix) == Checksum(prefix + y + suffix)
  {
    hide *;
    PatternPoly();
    EightByteBurst(prefix, [0xbf, 0xe6, 0xb8, 0xa5, 0xbf, 0x37, 0x8d, 0x83],
                   [0, 0, 0, 0, 0, 0, 0, 0], suffix);
  }

  lemma SumIsZero(a: Poly, b: Poly)
    ensures Add(a, b) == {} <==> a == b
  {
    if Add(a, b) == {} {
      assert forall e: nat :: e in a <==> e in b;
    }
  }

  lemma PatternPoly()
    ensures Add(PolyOf([0xbf, 0xe6, 0xb8, 0xa5, 0xbf, 0x37, 0x8d, 0x83]),
                PolyOf([0, 0, 0, 0, 0, 0, 0, 0])) == P()
  {
    hide Bits, PolyOf, Number;
    NumberOf([0xbf, 0xe6, 0xb8, 0xa5, 0xbf, 0x37, 0x8d, 0x83]);
    NumberOf([0, 0, 0, 0, 0, 0, 0, 0]);
    NumberOfEight(0xbf, 0xe6, 0xb8, 0xa5, 0xbf, 0x37, 0x8d, 0x83);
    NumberOfEight(0, 0, 0, 0, 0, 0, 0, 0);
    BitsOfOne();
    AddNone(P());
  }

  /** The bytes of s read as one big-endian number. */
  function Number(s: Bytes): nat {
    if s == [] then 0 else 256 * Number(s[..|s| - 1]) + s[|s| - 1]
  }

  lemma {:induction false} NumberOf(s: Bytes)
    ensures PolyOf(s) == Bits(Number(s))
    decreases |s|
  {
    hide Bits, Rem, Cong;
    if s == [] {
      BitsOfOne();
    } else {
      var n := |s| - 1;
      NumberOf(s[..n]);
      var high := Number(s[..n]);
      DoubleIsTimes(high, 8);
      Pow2Values();
      DoubleBits(high, 8);
      BitsOfByte(s[n]);
      assert Shift(Bits(high), 8) !! Bits(s[n]);
      BitsOfSum(256 * high, s[n]);
    }
  }

  lemma NumberPush(s: Bytes, c: uint8)
    ensures Number(s + [c]) == 256 * Number(s) + c
  {
    assert (s + [c])[..|s|] == s;
  }

  lemma NumberOfEight(a: uint8, b: uint8, c: uint8, d: uint8, e: uint8, f: uint8, g: uint8, h: uint8)
    ensures Number([a, b, c, d, e, f, g, h])
         == 256 * (256 * (256 * (256 * (256 * (256 * (256 * a + b) + c) + d) + e) + f) + g) + h
  {
    NumberPush([], a);
    NumberPush([a], b);
    NumberPush([a, b], c);
    NumberPush([a, b, c], d);
    NumberPush([a, b, c, d], e);
    NumberPush([a, b, c, d, e], f);
    NumberPush([a, b, c, d, e, f], g);
    NumberPush([a, b, c, d, e, f, g], h);
    assert [] + [a] == [a];
    assert [a] + [b] == [a, b];
    assert [a, b] + [c] == [a, b, c];
    assert [a, b, c] + [d] == [a, b, c, d];
    assert [a, b, c, d] + [e] == [a, b, c, d, e];
    assert [a, b, c, d, e] + [f] == [a, b, c, d, e, f];
    assert [a, b, c, d, e, f] + [g] == [a, b, c, d, e, f, g];
    assert [a, b, c, d, e, f, g] + [h] == [a, b, c, d, e, f, g, h];
  }
}
