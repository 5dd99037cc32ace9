/** Base64 (daemon/management_api/utils/base64_utils.cc; section 4 of RFC 4648). */
module Base64 {
  import opened Options
  import opened Words

  type Bytes = seq<uint8>

  const PAD: uint8 := 61  // '='

  // ----- the two tables -----

  /** A-Z, a-z, 0-9, + and /. */
  function Alphabet(i: nat): uint8
    requires i < 64
  {
    if i < 26 then i + 65
    else if i < 52 then i + 71
    else if i < 62 then i - 4
    else if i == 62 then 43 else 47
  }

  /** alphabet_map as the source writes it. */
  const LETTERS: string :=
    "ABCDEFGHIJKLMNOPQRSTUVWXYZ" + "abcdefghijklmnopqrstuvwxyz" + "0123456789" + "+/"

  lemma AlphabetText(i: nat)
    requires i < 64
    ensures Alphabet(i) as char == LETTERS[i]
  {
  }

  /** 64 for every character outside the alphabet. */
  function DecodingTable(c: uint8): (i: nat)
    ensures i <= 64
  {
    if 65 <= c <= 90 then c - 65
    else if 97 <= c <= 122 then c - 71
    else if 48 <= c <= 57 then c + 4
    else if c == 43 then 62
    else if c == 47 then 63 else 64
  }

  /** The tables are inverse to each other, and padding is outside the alphabet. */
  lemma TablesInvert(i: nat, c: uint8)
    ensures i < 64 ==> DecodingTable(Alphabet(i)) == i
    ensures DecodingTable(c) < 64 ==> Alphabet(DecodingTable(c)) == c
    ensures DecodingTable(PAD) == 64
  {
  }

  // ----- encoding -----

  function Quad(a: uint8, b: uint8, c: uint8): (q: Bytes)
    ensures |q| == 4
  {
    [Alphabet(a / 4), Alphabet(a % 4 * 16 + b / 16), Alphabet(b % 16 * 4 + c / 64), Alphabet(c % 64)]
  }

  /** The encoding of a text: its bits six at a time, zeros filling the last group. */
  function Encode(text: Bytes): Bytes {
    if |text| == 0 then []
    else if |text| == 1 then Quad(text[0], 0, 0)[..2] + [PAD, PAD]
    else if |text| == 2 then Quad(text[0], text[1], 0)[..3] + [PAD]
    else Quad(text[0], text[1], text[2]) + Encode(text[3..])
  }

  /** A char operand promoted to int; plain char may be signed. */
  function Promote(b: uint8, signedChar: bool): int {
    if signedChar && b >= 128 then b - 256 else b
  }

  /** high | low on ints, where high is a multiple of a power of two above |low|: a negative
      low already has all the bits of high. */
  function OrInt(high: nat, low: int): int {
    if low >= 0 then Or(high, low) else low
  }

  lemma OrIntIsSum(a: nat, k: nat, low: int)
    requires 0 <= low < Pow2(k)
    ensures OrInt(Pow2(k) * a, low) == Pow2(k) * a + low
  {
    OrShifted(a, k, low);
    DoubleIsTimes(a, k);
  }

  /** alphabet_map[i], which is out of bounds outside 0..63. */
  function Look(i: int): Option<uint8> {
    if 0 <= i < 64 then Some(Alphabet(i)) else None
  }

  predicate Plain(b: uint8, signedChar: bool) {
    signedChar ==> b < 128
  }

  ghost predicate AllPlain(text: Bytes, signedChar: bool) {
    forall b :: b in text ==> Plain(b, signedChar)
  }

  /** A text stays inside the table unless plain char is signed and some byte is 128 or more. */
  lemma PlainBytes(text: Bytes, signedChar: bool)
    ensures AllPlain(text, signedChar) <==> !(signedChar && exists k :: 0 <= k < |text| && text[k] >= 128)
  {
    if signedChar && exists k :: 0 <= k < |text| && text[k] >= 128 {
      var k :| 0 <= k < |text| && text[k] >= 128;
      assert text[k] in text;
    }
  }

  /** The four lookups of one loop pass. */
  function Lookups(x: int, y: int, z: int): (Option<uint8>, Option<uint8>, Option<uint8>, Option<uint8>) {
    (Look(x / 4),
     Look(OrInt(x % 4 * 16, y / 16)),
     Look(OrInt(y % 16 * 4, z / 64)),
     Look(z % 64))
  }

  lemma LookupsAreQuad(a: uint8, b: uint8, c: uint8, signedChar: bool)
    ensures var (p, q, r, s) := Lookups(Promote(a, signedChar), Promote(b, signedChar), Promote(c, signedChar));
            && (p.Some? <==> Plain(a, signedChar))
            && (Plain(a, signedChar) ==> (q.Some? <==> Plain(b, signedChar)))
            && (Plain(a, signedChar) && Plain(b, signedChar) ==> (r.Some? <==> Plain(c, signedChar)))
            && s.Some?
            && (p.Some? && q.Some? && r.Some? ==> Quad(a, b, c) == [p.value, q.value, r.value, s.value])
  {
    hide Or, Alphabet;
    assert Pow2(4) == 16 && Pow2(2) == 4;
    if Plain(a, signedChar) && Plain(b, signedChar) {
      OrIntIsSum(a % 4, 4, b / 16);
      if Plain(c, signedChar) {
        OrIntIsSum(b % 16, 2, c / 64);
      }
    }
  }

  lemma EncodeStep(text: Bytes, i: nat)
    requires i + 3 <= |text|
    ensures Encode(text[i..]) == Quad(text[i], text[i + 1], text[i + 2]) + Encode(text[i + 3..])
  {
    hide Quad;
    assert text[i..][3..] == text[i + 3..];
  }

  lemma EncodeTail(rest: Bytes)
    ensures rest == [] ==> Encode(rest) == []
    ensures |rest| == 1 ==> Encode(rest) == Quad(rest[0], 0, 0)[..2] + [PAD, PAD]
    ensures |rest| == 2 ==> Encode(rest) == Quad(rest[0], rest[1], 0)[..3] + [PAD]
  {
    hide Quad;
  }

  /** os is the text in letters, padded. */
  ghost predicate Spells(os: Bytes, text: Bytes) {
    && |os| == 4 * ((|text| + 2) / 3)
    && forall k :: 0 <= k < |os| ==>
         if 6 * k < 8 * |text| then Sextet(text, k) < 64 && os[k] as char == LETTERS[Sextet(text, k)]
         else os[k] as char == '='
  }

  lemma EncodeSpells(text: Bytes)
    ensures Spells(Encode(text), text)
  {
    EncodeCanonical(text);
    forall k: nat | k < |Encode(text)|
      ensures 6 * k < 8 * |text| ==> Sextet(text, k) < 64 && Encode(text)[k] as char == LETTERS[Sextet(text, k)]
      ensures 6 * k >= 8 * |text| ==> Encode(text)[k] as char == '='
    {
      EncodeChars(text, k);
    }
  }

  /** encode: reads out of bounds exactly when plain char is signed and the text has a byte
      of 128 or more; otherwise it returns the encoding of the text. */
  method EncodeText(text: Bytes, signedChar: bool) returns (os: Option<Bytes>)
    ensures os.Some? <==> AllPlain(text, signedChar)
    ensures os.Some? ==> os.value == Encode(text) && Spells(os.value, text)
  {
    hide Lookups, Quad, Plain, Promote, Encode, Spells;
    EncodeSpells(text);
    var out: Bytes := [];
    var i := 0;
    assert text[0..] == text;
    while i + 3 <= |text|
      invariant 0 <= i <= |text|
      invariant AllPlain(text[..i], signedChar)
      invariant out + Encode(text[i..]) == Encode(text)
    {
      var x, y, z := Promote(text[i], signedChar), Promote(text[i + 1], signedChar), Promote(text[i + 2], signedChar);
      LookupsAreQuad(text[i], text[i + 1], text[i + 2], signedChar);
      assert text[i] in text && text[i + 1] in text && text[i + 2] in text;
      var (p, q, r, s) := Lookups(x, y, z);
      if p.None? || q.None? || r.None? || s.None? {
        return None;
      }
      EncodeStep(text, i);
      assert text[..i + 3] == text[..i] + [text[i], text[i + 1], text[i + 2]];
      out := out + [p.value, q.value, r.value, s.value];
      i := i + 3;
    }
    EncodeTail(text[i..]);
    if i < |text| {
      var tail := |text| - i;
      var x := Promote(text[i], signedChar);
      assert text[i] in text;
      if tail == 1 {
        LookupsAreQuad(text[i], 0, 0, signedChar);
        ZeroPlain(signedChar);
        var (p, q, _, _) := Lookups(x, 0, 0);
        if p.None? || q.None? {
          return None;
        }
        assert text[..i] + [text[i]] == text;
        out := out + [p.value, q.value, PAD, PAD];
      } else {
        var y := Promote(text[i + 1], signedChar);
        assert text[i + 1] in text;
        LookupsAreQuad(text[i], text[i + 1], 0, signedChar);
        ZeroPlain(signedChar);
        var (p, q, r, _) := Lookups(x, y, 0);
        if p.None? || q.None? || r.None? {
          return None;
        }
        assert text[..i] + [text[i], text[i + 1]] == text;
        out := out + [p.value, q.value, r.value, PAD];
      }
    } else {
      assert text[..i] == text;
    }
    return Some(out);
  }

  lemma ZeroPlain(signedChar: bool)
    ensures Plain(0, signedChar) && Promote(0, signedChar) == 0
  {
  }

  // ----- the characters that come out -----

  /** Bit j of s, most significant bits first, zeros behind the end. */
  function Bit(s: Bytes, j: nat): nat {
    if j / 8 < |s| then s[j / 8] / Pow2(7 - j % 8) % 2 else 0
  }

  /** The six bits of s from bit 6 k on, as a number. */
  function Sextet(s: Bytes, k: nat): nat {
    32 * Bit(s, 6 * k) + 16 * Bit(s, 6 * k + 1) + 8 * Bit(s, 6 * k + 2)
    + 4 * Bit(s, 6 * k + 3) + 2 * Bit(s, 6 * k + 4) + Bit(s, 6 * k + 5)
  }

  lemma BitOf(s: Bytes, j: nat, i: nat, e: nat, p: nat)
    requires j == 8 * i + 7 - e && e < 8 && p == Pow2(e)
    ensures Bit(s, j) == if i < |s| then s[i] / p % 2 else 0
  {
  }

  lemma BitsShift(s: Bytes, j: nat)
    requires |s| >= 3
    ensures Bit(s, j + 24) == Bit(s[3..], j)
  {
  }

  lemma SextetShift(s: Bytes, k: nat)
    requires |s| >= 3
    ensures Sextet(s, k + 4) == Sextet(s[3..], k)
  {
    hide Bit;
    BitsShift(s, 6 * k);
    BitsShift(s, 6 * k + 1);
    BitsShift(s, 6 * k + 2);
    BitsShift(s, 6 * k + 3);
    BitsShift(s, 6 * k + 4);
    BitsShift(s, 6 * k + 5);
  }

  function ByteAt(s: Bytes, i: nat): uint8 {
    if i < |s| then s[i] else 0
  }

  lemma BitsOfByte(s: Bytes, i: nat)
    ensures var b := ByteAt(s, i);
            && Bit(s, 8 * i) == b / 128 && Bit(s, 8 * i + 1) == b / 64 % 2
            && Bit(s, 8 * i + 2) == b / 32 % 2 && Bit(s, 8 * i + 3) == b / 16 % 2
            && Bit(s, 8 * i + 4) == b / 8 % 2 && Bit(s, 8 * i + 5) == b / 4 % 2
            && Bit(s, 8 * i + 6) == b / 2 % 2 && Bit(s, 8 * i + 7) == b % 2
  {
    hide Bit;
    BitOf(s, 8 * i, i, 7, 128);
    BitOf(s, 8 * i + 1, i, 6, 64);
    BitOf(s, 8 * i + 2, i, 5, 32);
    BitOf(s, 8 * i + 3, i, 4, 16);
    BitOf(s, 8 * i + 4, i, 3, 8);
    BitOf(s, 8 * i + 5, i, 2, 4);
    BitOf(s, 8 * i + 6, i, 1, 2);
    BitOf(s, 8 * i + 7, i, 0, 1);
  }

  /** Its first 2, 4 and 6 bits, and what is left. */
  lemma ByteCut(b: uint8)
    ensures 2 * (b / 128) + b / 64 % 2 == b / 64
    ensures 8 * (b / 128) + 4 * (b / 64 % 2) + 2 * (b / 32 % 2) + b / 16 % 2 == b / 16
    ensures 32 * (b / 128) + 16 * (b / 64 % 2) + 8 * (b / 32 % 2) + 4 * (b / 16 % 2) + 2 * (b / 8 % 2) + b / 4 % 2
         == b / 4
    ensures 2 * (b / 2 % 2) + b % 2 == b % 4
    ensures 8 * (b / 8 % 2) + 4 * (b / 4 % 2) + 2 * (b / 2 % 2) + b % 2 == b % 16
    ensures 32 * (b / 32 % 2) + 16 * (b / 16 % 2) + 8 * (b / 8 % 2) + 4 * (b / 4 % 2) + 2 * (b / 2 % 2) + b % 2
         == b % 64
  {
    Halves(b);
  }

  lemma Halves(b: uint8)
    ensures b / 64 == 2 * (b / 128) + b / 64 % 2
    ensures b / 32 == 2 * (b / 64) + b / 32 % 2
    ensures b / 16 == 2 * (b / 32) + b / 16 % 2
    ensures b / 8 == 2 * (b / 16) + b / 8 % 2
    ensures b / 4 == 2 * (b / 8) + b / 4 % 2
    ensures b / 2 == 2 * (b / 4) + b / 2 % 2
    ensures b == 2 * (b / 2) + b % 2
    ensures b % 4 == b - 4 * (b / 4) && b % 16 == b - 16 * (b / 16) && b % 64 == b - 64 * (b / 64)
  {
  }

  /** The first four sextets, by shifts and masks. */
  lemma FirstSextets(s: Bytes)
    ensures var a, b, c := ByteAt(s, 0), ByteAt(s, 1), ByteAt(s, 2);
            && Sextet(s, 0) == a / 4 && Sextet(s, 1) == a % 4 * 16 + b / 16
            && Sextet(s, 2) == b % 16 * 4 + c / 64 && Sextet(s, 3) == c % 64
  {
    hide Bit, ByteAt;
    BitsOfByte(s, 0);
    BitsOfByte(s, 1);
    BitsOfByte(s, 2);
    ByteCut(ByteAt(s, 0));
    ByteCut(ByteAt(s, 1));
    ByteCut(ByteAt(s, 2));
  }

  /** Character k of an encoding is the letter at the k-th six bits of the text, and '=' once
      the text is used up. */
  lemma {:induction false} EncodeChars(text: Bytes, k: nat)
    requires k < |Encode(text)|
    ensures 6 * k < 8 * |text| ==> Sextet(text, k) < 64 && Encode(text)[k] as char == LETTERS[Sextet(text, k)]
    ensures 6 * k >= 8 * |text| ==> Encode(text)[k] as char == '='
    decreases |text|
  {
    hide Sextet, Alphabet, Quad, LETTERS;
    if |text| >= 3 && k >= 4 {
      EncodeChars(text[3..], k - 4);
      SextetShift(text, k - 4);
    } else {
      FirstChars(text, k);
      if 6 * k < 8 * |text| {
        AlphabetText(Sextet(text, k));
      }
    }
  }

  lemma FirstChars(text: Bytes, k: nat)
    requires k < 4 && text != []
    ensures k < |Encode(text)|
    ensures 6 * k < 8 * |text| ==> Sextet(text, k) < 64 && Encode(text)[k] == Alphabet(Sextet(text, k))
    ensures 6 * k >= 8 * |text| ==> Encode(text)[k] == PAD
  {
    hide Sextet, Alphabet, Quad;
    QuadLetter(text, k);
  }

  lemma QuadLetter(s: Bytes, k: nat)
    requires k < 4
    ensures Sextet(s, k) < 64
    ensures Quad(ByteAt(s, 0), ByteAt(s, 1), ByteAt(s, 2))[k] == Alphabet(Sextet(s, k))
  {
    hide Sextet, Alphabet, ByteAt;
    FirstSextets(s);
  }

  // ----- decoding -----

  /** The bytes written for one group of four characters. */
  function Group(s0: uint8, s1: uint8, s2: uint8, s3: uint8): Bytes {
    var c0, c1, c2, c3 := DecodingTable(s0), DecodingTable(s1), DecodingTable(s2), DecodingTable(s3);
    [Or(c0 * 4, c1 / 16) % 256]
    + (if c2 != 64 then [Or(c1 % 16 * 16, c2 / 4) % 256] else [])
    + (if c3 != 64 then [Or(c2 % 4 * 64, c3) % 256] else [])
  }

  function Decode(input: Bytes): Bytes {
    if |input| < 4 then []
    else Group(input[0], input[1], input[2], input[3]) + Decode(input[4..])
  }

  lemma DecodeStep(input: Bytes, i: nat, before: Bytes, after: Bytes)
    requires i + 4 <= |input|
    requires after == before + Group(input[i], input[i + 1], input[i + 2], input[i + 3])
    ensures after + Decode(input[i + 4..]) == before + Decode(input[i..])
  {
    hide Group;
    assert input[i..][4..] == input[i + 4..];
  }

  lemma DecodeRest(s: Bytes)
    requires |s| < 4
    ensures Decode(s) == []
  {
  }

  /** decode: groups of four, a trailing incomplete group ignored. */
  method DecodeText(input: Bytes) returns (os: Bytes)
    ensures os == Decode(input)
  {
    hide Or, DecodingTable, Decode;
    os := [];
    var i := 0;
    assert input[0..] == input;
    while i + 4 <= |input|
      invariant 0 <= i <= |input|
      invariant os + Decode(input[i..]) == Decode(input)
    {
      var c0, c1 := DecodingTable(input[i]), DecodingTable(input[i + 1]);
      var c2, c3 := DecodingTable(input[i + 2]), DecodingTable(input[i + 3]);
      ghost var before := os;
      os := os + [Or(c0 * 4, c1 / 16) % 256];
      if c2 != 64 {
        os := os + [Or(c1 % 16 * 16, c2 / 4) % 256];
      }
      if c3 != 64 {
        os := os + [Or(c2 % 4 * 64, c3) % 256];
      }
      assert os == before + Group(input[i], input[i + 1], input[i + 2], input[i + 3]);
      DecodeStep(input, i, before, os);
      i := i + 4;
    }
    DecodeRest(input[i..]);
  }

  // ----- the laws -----

  /** A group of alphabet characters, with the bits it spells. */
  lemma GroupOfSextets(c0: nat, c1: nat, c2: nat, c3: nat)
    requires c0 < 64 && c1 < 64 && c2 <= 64 && c3 <= 64
    ensures Or(c0 * 4, c1 / 16) == c0 * 4 + c1 / 16
    ensures c2 < 64 ==> Or(c1 % 16 * 16, c2 / 4) == c1 % 16 * 16 + c2 / 4
    ensures c3 < 64 ==> Or(c2 % 4 * 64, c3) == c2 % 4 * 64 + c3
  {
    OrMultiple(c0, 2, c1 / 16, 4);
    if c2 < 64 {
      OrMultiple(c1 % 16, 4, c2 / 4, 16);
    }
    if c3 < 64 {
      OrMultiple(c2 % 4, 6, c3, 64);
    }
  }

  lemma OrMultiple(a: nat, k: nat, b: nat, p: nat)
    requires p == Pow2(k) && b < p
    ensures Or(a * p, b) == a * p + b
  {
    OrShifted(a, k, b);
    DoubleIsTimes(a, k);
  }

  /** An Or of two even numbers is twice that of their halves. */
  lemma OrTwice(a: nat, b: nat)
    ensures Or(2 * a, 2 * b) == 2 * Or(a, b)
  {
  }

  lemma {:induction false} OrSelf(a: nat)
    ensures Or(a, 0) == a
    decreases a
  {
    if a > 0 {
      OrSelf(a / 2);
    }
  }

  lemma OrFour(c: nat)
    ensures Or(c * 4, 4) == if c % 2 == 1 then c * 4 else c * 4 + 4
  {
    OrTwice(2 * c, 2);
    OrTwice(c, 1);
    OrSelf(c / 2);
  }

  lemma AnyOrs(c0: nat, c1: nat, c2: nat, c3: nat)
    requires c0 <= 64 && c1 <= 64 && c2 <= 64 && c3 <= 64
    ensures Or(c0 * 4, c1 / 16) == if c1 < 64 || c0 % 2 == 0 then c0 * 4 + c1 / 16 else c0 * 4
    ensures c2 < 64 ==> Or(c1 % 16 * 16, c2 / 4) == c1 % 16 * 16 + c2 / 4
    ensures c3 < 64 ==> Or(c2 % 4 * 64, c3) == c2 % 4 * 64 + c3
  {
    hide Or;
    if c1 < 64 {
      OrMultiple(c0, 2, c1 / 16, 4);
    } else {
      OrFour(c0);
    }
    if c2 < 64 {
      OrMultiple(c1 % 16, 4, c2 / 4, 16);
    }
    if c3 < 64 {
      OrMultiple(c2 % 4, 6, c3, 64);
    }
  }

  /** One group of any four characters, valid or not, as bytes: a character outside the
      alphabet counts as 64, and in third or fourth place it drops a byte. */
  lemma AnyGroup(s0: uint8, s1: uint8, s2: uint8, s3: uint8, rest: Bytes)
    ensures var c0, c1, c2, c3 := DecodingTable(s0), DecodingTable(s1), DecodingTable(s2), DecodingTable(s3);
            Decode([s0, s1, s2, s3] + rest)
            == [if c1 < 64 || c0 % 2 == 0 then (c0 * 4 + c1 / 16) % 256 else c0 * 4]
               + (if c2 < 64 then [c1 % 16 * 16 + c2 / 4] else [])
               + (if c3 < 64 then [c2 % 4 * 64 + c3] else [])
               + Decode(rest)
  {
    hide Group, DecodingTable;
    AnyGroupAlone(s0, s1, s2, s3);
    var s := [s0, s1, s2, s3] + rest;
    assert s[4..] == rest;
    assert Decode(s) == Group(s0, s1, s2, s3) + Decode(rest);
  }

  lemma AnyGroupAlone(s0: uint8, s1: uint8, s2: uint8, s3: uint8)
    ensures var c0, c1, c2, c3 := DecodingTable(s0), DecodingTable(s1), DecodingTable(s2), DecodingTable(s3);
            Group(s0, s1, s2, s3)
            == [if c1 < 64 || c0 % 2 == 0 then (c0 * 4 + c1 / 16) % 256 else c0 * 4]
               + (if c2 < 64 then [c1 % 16 * 16 + c2 / 4] else [])
               + (if c3 < 64 then [c2 % 4 * 64 + c3] else [])
  {
    hide Or, DecodingTable;
    AnyOrs(DecodingTable(s0), DecodingTable(s1), DecodingTable(s2), DecodingTable(s3));
  }

  /** Three bytes cut into four sextets and put together again. */
  lemma BytesFromSextets(a: uint8, b: uint8, c: uint8)
    ensures var c0, c1, c2, c3 := a / 4, a % 4 * 16 + b / 16, b % 16 * 4 + c / 64, c % 64;
            c0 * 4 + c1 / 16 == a && c1 % 16 * 16 + c2 / 4 == b && c2 % 4 * 64 + c3 == c
  {
  }

  /** Decoding an encoded group, full or cut short and padded, gives its bytes back. */
  lemma GroupOfQuad(a: uint8, b: uint8, c: uint8)
    ensures var q := Quad(a, b, c);
            && Group(q[0], q[1], q[2], q[3]) == [a, b, c]
            && (c == 0 ==> Group(q[0], q[1], q[2], PAD) == [a, b])
            && (b == 0 && c == 0 ==> Group(q[0], q[1], PAD, PAD) == [a])
  {
    hide Or, Alphabet, DecodingTable;
    SextetsOfQuad(a, b, c);
    BytesFromSextets(a, b, c);
    GroupOfSextets(a / 4, a % 4 * 16 + b / 16, b % 16 * 4 + c / 64, c % 64);
  }

  lemma SextetsOfQuad(a: uint8, b: uint8, c: uint8)
    ensures var q := Quad(a, b, c);
            && DecodingTable(q[0]) == a / 4 && DecodingTable(q[1]) == a % 4 * 16 + b / 16
            && DecodingTable(q[2]) == b % 16 * 4 + c / 64 && DecodingTable(q[3]) == c % 64
            && DecodingTable(PAD) == 64
  {
    hide Alphabet, DecodingTable;
    TablesInvert(a / 4, PAD);
    TablesInvert(a % 4 * 16 + b / 16, PAD);
    TablesInvert(b % 16 * 4 + c / 64, PAD);
    TablesInvert(c % 64, PAD);
  }

  /** decode(encode(t)) == t, for every text. */
  lemma {:induction false} DecodeEncode(text: Bytes)
    ensures Decode(Encode(text)) == text
    decreases |text|
  {
    hide Quad, Group;
    if |text| == 1 {
      GroupOfQuad(text[0], 0, 0);
    } else if |text| == 2 {
      GroupOfQuad(text[0], text[1], 0);
    } else if |text| >= 3 {
      GroupOfQuad(text[0], text[1], text[2]);
      DecodeEncode(text[3..]);
      assert Encode(text)[4..] == Encode(text[3..]);
      assert text == [text[0], text[1], text[2]] + text[3..];
    }
  }

  /** encode never maps two texts to one. */
  lemma EncodeInjective(a: Bytes, b: Bytes)
    requires Encode(a) == Encode(b)
    ensures a == b
  {
    DecodeEncode(a);
    DecodeEncode(b);
  }

  predicate IsSextet(c: uint8) {
    DecodingTable(c) < 64
  }

  /** The last group: full, or padded with the unused bits zero. */
  predicate LastGroup(s: Bytes)
    requires |s| == 4
  {
    && IsSextet(s[0]) && IsSextet(s[1])
    && if s[3] != PAD then IsSextet(s[2]) && IsSextet(s[3])
       else if s[2] != PAD then IsSextet(s[2]) && DecodingTable(s[2]) % 4 == 0
       else DecodingTable(s[1]) % 16 == 0
  }

  /** Canonical encodings: whole groups, padding only at the end, unused bits zero. */
  predicate Canonical(s: Bytes) {
    if |s| <= 4 then s == [] || (|s| == 4 && LastGroup(s))
    else (forall i :: 0 <= i < 4 ==> IsSextet(s[i])) && Canonical(s[4..])
  }

  /** Every encoding is canonical, of length 4 * ceil(n / 3). */
  lemma {:induction false} EncodeCanonical(text: Bytes)
    ensures Canonical(Encode(text))
    ensures |Encode(text)| == 4 * ((|text| + 2) / 3)
    decreases |text|
  {
    hide Quad;
    if |text| == 1 {
      QuadSextets(text[0], 0, 0);
    } else if |text| == 2 {
      QuadSextets(text[0], text[1], 0);
    } else if |text| >= 3 {
      QuadSextets(text[0], text[1], text[2]);
      EncodeCanonical(text[3..]);
      assert Encode(text)[4..] == Encode(text[3..]);
      if |text| == 3 {
        assert Encode(text) == Quad(text[0], text[1], text[2]);
      }
    }
  }

  lemma QuadSextets(a: uint8, b: uint8, c: uint8)
    ensures forall i :: 0 <= i < 4 ==> IsSextet(Quad(a, b, c)[i]) && Quad(a, b, c)[i] != PAD
    ensures c == 0 ==> DecodingTable(Quad(a, b, c)[2]) % 4 == 0
    ensures b == 0 ==> DecodingTable(Quad(a, b, c)[1]) % 16 == 0
  {
    hide Quad, DecodingTable;
    SextetsOfQuad(a, b, c);
  }

  /** Four sextets packed into three bytes and cut again. */
  lemma SextetsFromBytes(c0: nat, c1: nat, c2: nat, c3: nat)
    requires c0 < 64 && c1 < 64 && c2 < 64 && c3 < 64
    ensures var a, b, c := c0 * 4 + c1 / 16, c1 % 16 * 16 + c2 / 4, c2 % 4 * 64 + c3;
            && a < 256 && b < 256 && c < 256
            && a / 4 == c0 && a % 4 * 16 + b / 16 == c1 && b % 16 * 4 + c / 64 == c2 && c % 64 == c3
  {
  }

  lemma FullGroup(s0: uint8, s1: uint8, s2: uint8, s3: uint8)
    requires IsSextet(s0) && IsSextet(s1) && IsSextet(s2) && IsSextet(s3)
    ensures |Group(s0, s1, s2, s3)| == 3
    ensures var g := Group(s0, s1, s2, s3); Quad(g[0], g[1], g[2]) == [s0, s1, s2, s3]
  {
    hide Or, Alphabet, DecodingTable;
    var c0, c1, c2, c3 := DecodingTable(s0), DecodingTable(s1), DecodingTable(s2), DecodingTable(s3);
    GroupOfSextets(c0, c1, c2, c3);
    SextetsFromBytes(c0, c1, c2, c3);
    var a: uint8, b: uint8, c: uint8 := c0 * 4 + c1 / 16, c1 % 16 * 16 + c2 / 4, c2 % 4 * 64 + c3;
    assert Group(s0, s1, s2, s3) == [a, b, c];
    TablesInvert(64, s0);
    TablesInvert(64, s1);
    TablesInvert(64, s2);
    TablesInvert(64, s3);
  }

  lemma TwoByteGroup(s0: uint8, s1: uint8, s2: uint8)
    requires IsSextet(s0) && IsSextet(s1) && IsSextet(s2) && DecodingTable(s2) % 4 == 0
    ensures |Group(s0, s1, s2, PAD)| == 2
    ensures var g := Group(s0, s1, s2, PAD); Quad(g[0], g[1], 0)[..3] == [s0, s1, s2]
  {
    hide Or, Alphabet, DecodingTable;
    var c0, c1, c2 := DecodingTable(s0), DecodingTable(s1), DecodingTable(s2);
    TablesInvert(64, PAD);
    GroupOfSextets(c0, c1, c2, 64);
    SextetsFromBytes(c0, c1, c2, 0);
    var a: uint8, b: uint8 := c0 * 4 + c1 / 16, c1 % 16 * 16 + c2 / 4;
    assert Group(s0, s1, s2, PAD) == [a, b];
    TablesInvert(64, s0);
    TablesInvert(64, s1);
    TablesInvert(64, s2);
  }

  lemma OneByteGroup(s0: uint8, s1: uint8)
    requires IsSextet(s0) && IsSextet(s1) && DecodingTable(s1) % 16 == 0
    ensures |Group(s0, s1, PAD, PAD)| == 1
    ensures var g := Group(s0, s1, PAD, PAD); Quad(g[0], 0, 0)[..2] == [s0, s1]
  {
    hide Or, Alphabet, DecodingTable;
    var c0, c1 := DecodingTable(s0), DecodingTable(s1);
    TablesInvert(64, PAD);
    GroupOfSextets(c0, c1, 64, 64);
    SextetsFromBytes(c0, c1, 0, 0);
    TablesInvert(64, s0);
    TablesInvert(64, s1);
  }

  /** Encoding the bytes of one group gives the group back. */
  lemma QuadOfGroup(s: Bytes)
    requires |s| == 4 && LastGroup(s)
    ensures Encode(Group(s[0], s[1], s[2], s[3])) == s
    ensures s[3] != PAD ==> |Group(s[0], s[1], s[2], s[3])| == 3
  {
    hide Group, Quad, DecodingTable;
    TablesInvert(64, PAD);
    assert !IsSextet(PAD);
    if s[3] != PAD {
      FullGroup(s[0], s[1], s[2], s[3]);
      assert Encode(Group(s[0], s[1], s[2], s[3])[3..]) == [];
    } else if s[2] != PAD {
      TwoByteGroup(s[0], s[1], s[2]);
    } else {
      OneByteGroup(s[0], s[1]);
    }
  }

  lemma {:induction false} EncodeDecodeCanonical(s: Bytes)
    requires Canonical(s)
    ensures Encode(Decode(s)) == s
    decreases |s|
  {
    hide Group, Quad, LastGroup;
    if |s| == 4 {
      QuadOfGroup(s);
      assert Decode(s[4..]) == [];
      assert Decode(s) == Group(s[0], s[1], s[2], s[3]);
    } else if |s| > 4 {
      var head := s[..4];
      SextetsAreLastGroup(head);
      QuadOfGroup(head);
      EncodeDecodeCanonical(s[4..]);
      var g := Group(s[0], s[1], s[2], s[3]);
      assert Decode(s) == g + Decode(s[4..]);
      EncodeThree(g, Decode(s[4..]));
    }
  }

  lemma SextetsAreLastGroup(s: Bytes)
    requires |s| == 4 && forall i :: 0 <= i < 4 ==> IsSextet(s[i])
    ensures LastGroup(s) && s[3] != PAD
  {
  }

  lemma EncodeThree(g: Bytes, rest: Bytes)
    requires |g| == 3
    ensures Encode(g + rest) == Encode(g) + Encode(rest)
  {
    hide Quad;
    assert (g + rest)[3..] == rest;
    assert g[3..] == [];
  }

  /** encode(decode(s)) == s exactly for the canonical encodings. */
  lemma EncodeDecode(s: Bytes)
    ensures Encode(Decode(s)) == s <==> Canonical(s)
  {
    EncodeCanonical(Decode(s));
    if Canonical(s) {
      EncodeDecodeCanonical(s);
    }
  }
}
