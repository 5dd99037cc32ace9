/** Polynomials over GF(2), the mathematics behind the Rabin fingerprint.

    A polynomial is the finite set of exponents whose coefficient is 1, so addition
    is symmetric difference and needs no laws of its own: two sums are equal when
    they have the same members. */
module Polynomials {

  type Poly = set<nat>

  ghost function Add(a: Poly, b: Poly): Poly {
    (a - b) + (b - a)
  }

  /** a * x^k */
  ghost function Shift(a: Poly, k: nat): (r: Poly)
    ensures forall e: nat :: e in r <==> e >= k && e - k in a
  {
    var r := set e: nat | e in a :: e + k;
    ShiftMembers(a, k, r);
    r
  }

  lemma ShiftMembers(a: Poly, k: nat, r: Poly)
    requires r == set e: nat | e in a :: e + k
    ensures forall e: nat :: e in r <==> e >= k && e - k in a
  {
    forall e: nat
      ensures e in r <==> e >= k && e - k in a
    {
      if e >= k && e - k in a {
        var d: nat := e - k;
        assert d in a && d + k == e;
      }
    }
  }

  /** The quotient of a by x^k */
  ghost function Quot(a: Poly, k: nat): (r: Poly)
    ensures forall e: nat :: e in r <==> e + k in a
  {
    var r := set e: nat | e in a && e >= k :: e - k;
    QuotMembers(a, k, r);
    r
  }

  lemma QuotMembers(a: Poly, k: nat, r: Poly)
    requires r == set e: nat | e in a && e >= k :: e - k
    ensures forall e: nat :: e in r <==> e + k in a
  {
    forall e: nat
      ensures e in r <==> e + k in a
    {
      if e + k in a {
        var d: nat := e + k;
        assert d in a && d - k == e;
      }
    }
  }

  lemma ShiftShift(a: Poly, j: nat, k: nat, sum: nat)
    requires sum == j + k
    ensures Shift(Shift(a, j), k) == Shift(a, sum)
  {
  }

  lemma ShiftNone(a: Poly)
    ensures Shift(a, 0) == a == Quot(a, 0)
  {
  }

  lemma ShiftAdd(a: Poly, b: Poly, k: nat)
    ensures Shift(Add(a, b), k) == Add(Shift(a, k), Shift(b, k))
  {
  }

  lemma ShiftZero(k: nat)
    ensures Shift({}, k) == {}
  {
  }

  /** The remainder of a by x^n */
  ghost function Low(a: Poly, n: nat): Poly {
    set e: nat | e in a && e < n
  }

  /** Degree plus one; 0 for the zero polynomial. */
  ghost function Len(a: Poly): (n: nat)
    ensures forall e: nat :: e in a ==> e < n
    ensures n > 0 ==> n - 1 in a
  {
    if a == {} then 0
    else
      MaxExists(a);
      var m: nat :| m in a && forall e: nat :: e in a ==> e <= m;
      m + 1
  }

  lemma {:induction false} MaxExists(a: Poly)
    requires a != {}
    ensures exists m: nat :: m in a && forall e: nat :: e in a ==> e <= m
  {
    var x :| x in a;
    var rest := a - {x};
    if rest != {} {
      MaxExists(rest);
      var m: nat :| m in rest && forall e: nat :: e in rest ==> e <= m;
      var top := if m < x then x else m;
      assert top in a && forall e: nat :: e in a ==> e == x || e in rest;
    } else {
      assert a == rest + {x};
    }
  }

  lemma LenAtMost(a: Poly, n: nat)
    requires forall e: nat :: e in a ==> e < n
    ensures Len(a) <= n
  {
  }

  lemma LenIs(a: Poly, n: nat)
    requires n > 0 && n - 1 in a && forall e: nat :: e in a ==> e < n
    ensures Len(a) == n
  {
  }

  // ----- multiplication -----

  /** The terms of a below x^n, times b. */
  ghost function MulTo(a: Poly, b: Poly, n: nat): Poly
    decreases n
  {
    if n == 0 then {}
    else if n - 1 in a then Add(MulTo(a, b, n - 1), Shift(b, n - 1))
    else MulTo(a, b, n - 1)
  }

  ghost function Mul(a: Poly, b: Poly): Poly {
    MulTo(a, b, Len(a))
  }

  lemma {:induction false} MulToBeyond(a: Poly, b: Poly, n: nat)
    requires n >= Len(a)
    ensures MulTo(a, b, n) == Mul(a, b)
    decreases n
  {
    if n > Len(a) {
      assert n - 1 !in a;
      MulToBeyond(a, b, n - 1);
    }
  }

  lemma {:induction false} MulToAddLeft(a: Poly, a': Poly, b: Poly, n: nat)
    ensures MulTo(Add(a, a'), b, n) == Add(MulTo(a, b, n), MulTo(a', b, n))
    decreases n
  {
    if n > 0 {
      MulToAddLeft(a, a', b, n - 1);
    }
  }

  lemma MulAddLeft(a: Poly, a': Poly, b: Poly)
    ensures Mul(Add(a, a'), b) == Add(Mul(a, b), Mul(a', b))
  {
    var n := Len(a) + Len(a') + Len(Add(a, a'));
    MulToBeyond(Add(a, a'), b, n);
    MulToBeyond(a, b, n);
    MulToBeyond(a', b, n);
    MulToAddLeft(a, a', b, n);
  }

  lemma {:induction false} MulToAddRight(a: Poly, b: Poly, b': Poly, n: nat)
    ensures MulTo(a, Add(b, b'), n) == Add(MulTo(a, b, n), MulTo(a, b', n))
    decreases n
  {
    if n > 0 {
      MulToAddRight(a, b, b', n - 1);
      assert Shift(Add(b, b'), n - 1) == Add(Shift(b, n - 1), Shift(b', n - 1));
    }
  }

  lemma {:induction false} MulToShiftRight(a: Poly, b: Poly, k: nat, n: nat)
    ensures MulTo(a, Shift(b, k), n) == Shift(MulTo(a, b, n), k)
    decreases n
  {
    if n > 0 {
      MulToShiftRight(a, b, k, n - 1);
      assert Shift(Shift(b, k), n - 1) == Shift(Shift(b, n - 1), k);
      assert Shift(Add(MulTo(a, b, n - 1), Shift(b, n - 1)), k)
          == Add(Shift(MulTo(a, b, n - 1), k), Shift(Shift(b, n - 1), k));
    } else {
      assert Shift({}, k) == {};
    }
  }

  lemma {:induction false} MulToPowRight(a: Poly, e: nat, n: nat)
    ensures MulTo(a, {e}, n) == Shift(Low(a, n), e)
    decreases n
  {
    if n > 0 {
      MulToPowRight(a, e, n - 1);
      assert Shift({e}, n - 1) == {e + n - 1};
      assert Low(a, n) == if n - 1 in a then Low(a, n - 1) + {n - 1} else Low(a, n - 1);
      assert Shift(Low(a, n), e)
          == if n - 1 in a then Shift(Low(a, n - 1), e) + {e + n - 1} else Shift(Low(a, n - 1), e);
    } else {
      assert Low(a, 0) == {};
    }
  }

  /** The three forms of multiplying by a power of x agree. */
  lemma MulPow(a: Poly, e: nat)
    ensures Mul(a, {e}) == Shift(a, e) == Mul({e}, a)
  {
    MulToPowRight(a, e, Len(a));
    assert Low(a, Len(a)) == a;
    LenIs({e}, e + 1);
    MulToNone({e}, a, e);
    assert Mul({e}, a) == Add(MulTo({e}, a, e), Shift(a, e));
  }

  lemma {:induction false} MulToNone(a: Poly, b: Poly, n: nat)
    requires forall e: nat :: e in a ==> e >= n
    ensures MulTo(a, b, n) == {}
    decreases n
  {
    if n > 0 {
      MulToNone(a, b, n - 1);
    }
  }

  lemma MulZero(b: Poly)
    ensures Mul({}, b) == {} == Mul(b, {})
  {
    MulToZero(b, Len(b));
  }

  lemma {:induction false} MulToZero(b: Poly, n: nat)
    ensures MulTo(b, {}, n) == {}
    decreases n
  {
    if n > 0 {
      MulToZero(b, n - 1);
      assert Shift({}, n - 1) == {};
    }
  }

  /** A polynomial without its leading term. */
  ghost function Tail(a: Poly): (r: Poly)
    requires a != {}
    ensures Add(r, {Len(a) - 1}) == a && Len(r) < Len(a)
  {
    LenAtMost(a - {Len(a) - 1}, Len(a) - 1);
    a - {Len(a) - 1}
  }

  lemma {:induction false} MulComm(a: Poly, b: Poly)
    ensures Mul(a, b) == Mul(b, a)
    decreases Len(a)
  {
    if a == {} {
      MulZero(b);
    } else {
      var e := Len(a) - 1;
      MulComm(Tail(a), b);
      MulAddLeft(Tail(a), {e}, b);
      MulToAddRight(b, Tail(a), {e}, Len(b));
      MulPow(b, e);
    }
  }

  lemma MulShift(a: Poly, b: Poly, k: nat)
    ensures Mul(Shift(a, k), b) == Shift(Mul(a, b), k) == Mul(a, Shift(b, k))
  {
    MulComm(Shift(a, k), b);
    MulComm(a, b);
    MulToShiftRight(b, a, k, Len(b));
    MulToShiftRight(a, b, k, Len(a));
  }

  lemma {:induction false} MulAssoc(a: Poly, b: Poly, c: Poly)
    ensures Mul(Mul(a, b), c) == Mul(a, Mul(b, c))
    decreases Len(a)
  {
    if a == {} {
      MulZero(b);
      MulZero(c);
      MulZero(Mul(b, c));
    } else {
      var e := Len(a) - 1;
      MulAssoc(Tail(a), b, c);
      MulAddLeft(Tail(a), {e}, b);
      MulAddLeft(Mul(Tail(a), b), Mul({e}, b), c);
      MulAddLeft(Tail(a), {e}, Mul(b, c));
      MulPow(b, e);
      MulPow(Mul(b, c), e);
      MulShift(b, c, e);
    }
  }

  /** GF(2)[x] has no zero divisors: degrees add. */
  lemma {:induction false} MulLen(a: Poly, b: Poly)
    requires a != {} && b != {}
    ensures Len(Mul(a, b)) == Len(a) + Len(b) - 1
    decreases Len(a)
  {
    var e := Len(a) - 1;
    MulAddLeft(Tail(a), {e}, b);
    MulPow(b, e);
    LenIs(Shift(b, e), e + Len(b));
    if Tail(a) != {} {
      MulLen(Tail(a), b);
    } else {
      MulZero(b);
    }
    LenIs(Mul(a, b), e + Len(b));
  }

  // ----- congruence and remainder -----

  /** a and b differ by a multiple of d. */
  ghost predicate Cong(a: Poly, b: Poly, d: Poly) {
    exists q: Poly :: Add(a, b) == Mul(q, d)
  }

  lemma CongBy(a: Poly, b: Poly, d: Poly, q: Poly)
    requires Add(a, b) == Mul(q, d)
    ensures Cong(a, b, d)
  {
  }

  lemma CongRefl(a: Poly, d: Poly)
    ensures Cong(a, a, d)
  {
    MulZero(d);
    CongBy(a, a, d, {});
  }

  lemma CongSym(a: Poly, b: Poly, d: Poly)
    requires Cong(a, b, d)
    ensures Cong(b, a, d)
  {
    var q: Poly :| Add(a, b) == Mul(q, d);
    assert Add(b, a) == Add(a, b);
    CongBy(b, a, d, q);
  }

  lemma CongAdd(a: Poly, b: Poly, a': Poly, b': Poly, d: Poly)
    requires Cong(a, b, d) && Cong(a', b', d)
    ensures Cong(Add(a, a'), Add(b, b'), d)
  {
    var q: Poly :| Add(a, b) == Mul(q, d);
    var q': Poly :| Add(a', b') == Mul(q', d);
    MulAddLeft(q, q', d);
    assert Add(Add(a, a'), Add(b, b')) == Add(Add(a, b), Add(a', b'));
    CongBy(Add(a, a'), Add(b, b'), d, Add(q, q'));
  }

  lemma CongTrans(a: Poly, b: Poly, c: Poly, d: Poly)
    requires Cong(a, b, d) && Cong(b, c, d)
    ensures Cong(a, c, d)
  {
    var q: Poly :| Add(a, b) == Mul(q, d);
    var q': Poly :| Add(b, c) == Mul(q', d);
    MulAddLeft(q, q', d);
    assert Add(a, c) == Add(Add(a, b), Add(b, c));
    CongBy(a, c, d, Add(q, q'));
  }

  lemma CongMul(a: Poly, b: Poly, c: Poly, d: Poly)
    requires Cong(a, b, d)
    ensures Cong(Mul(c, a), Mul(c, b), d)
  {
    var q: Poly :| Add(a, b) == Mul(q, d);
    MulToAddRight(c, a, b, Len(c));
    MulAssoc(c, q, d);
    CongBy(Mul(c, a), Mul(c, b), d, Mul(c, q));
  }

  lemma CongShift(a: Poly, b: Poly, k: nat, d: Poly)
    requires Cong(a, b, d)
    ensures Cong(Shift(a, k), Shift(b, k), d)
  {
    CongMul(a, b, {k}, d);
    MulPow(a, k);
    MulPow(b, k);
  }

  /** Adding a shifted copy of the divisor does not leave the residue class. */
  lemma CongStep(a: Poly, k: nat, d: Poly)
    ensures Cong(Add(a, Shift(d, k)), a, d)
  {
    MulPow(d, k);
    assert Add(Add(a, Shift(d, k)), a) == Shift(d, k);
    CongBy(Add(a, Shift(d, k)), a, d, {k});
  }

  /** Long division: cancel the leading term until the degree is below that of d.
      Modulo 0 every polynomial is its own remainder. */
  ghost function Rem(a: Poly, d: Poly): (r: Poly)
    ensures d != {} ==> Len(r) < Len(d)
    ensures Cong(r, a, d)
    decreases Len(a)
  {
    if d == {} || Len(a) < Len(d) then
      CongRefl(a, d);
      a
    else
      var k := Len(a) - Len(d);
      var a' := Add(a, Shift(d, k));
      LenIs(Shift(d, k), Len(a));
      LenAtMost(a', Len(a) - 1);
      var r := Rem(a', d);
      CongStep(a, k, d);
      CongTrans(r, a', a, d);
      r
  }

  /** The remainder is the only polynomial of smaller degree in its residue class. */
  lemma RemUnique(r: Poly, a: Poly, d: Poly)
    requires d != {} && Len(r) < Len(d) && Cong(r, a, d)
    ensures r == Rem(a, d)
  {
    var s := Rem(a, d);
    CongSym(s, a, d);
    CongTrans(r, a, s, d);
    var q: Poly :| Add(r, s) == Mul(q, d);
    LenAtMost(Add(r, s), Len(d) - 1);
    if q != {} {
      MulLen(q, d);
      assert false;
    }
    MulZero(d);
    assert forall e: nat :: e in r <==> e in s;
  }

  /** Congruent polynomials are exactly those with the same remainder. */
  lemma RemCong(a: Poly, b: Poly, d: Poly)
    requires d != {}
    ensures Cong(a, b, d) <==> Rem(a, d) == Rem(b, d)
  {
    if Cong(a, b, d) {
      CongTrans(Rem(a, d), a, b, d);
      RemUnique(Rem(a, d), b, d);
    }
    if Rem(a, d) == Rem(b, d) {
      CongSym(Rem(a, d), a, d);
      CongTrans(a, Rem(a, d), b, d);
    }
  }

  lemma RemAdd(a: Poly, b: Poly, d: Poly)
    requires d != {}
    ensures Rem(Add(a, b), d) == Add(Rem(a, d), Rem(b, d))
  {
    CongAdd(Rem(a, d), a, Rem(b, d), b, d);
    LenAtMost(Add(Rem(a, d), Rem(b, d)), Len(d) - 1);
    RemUnique(Add(Rem(a, d), Rem(b, d)), Add(a, b), d);
  }

  lemma RemShift(a: Poly, k: nat, d: Poly)
    requires d != {}
    ensures Rem(Shift(Rem(a, d), k), d) == Rem(Shift(a, k), d)
  {
    CongShift(Rem(a, d), a, k, d);
    RemCong(Shift(Rem(a, d), k), Shift(a, k), d);
  }

  lemma RemMul(a: Poly, b: Poly, d: Poly)
    requires d != {}
    ensures Rem(Mul(a, Rem(b, d)), d) == Rem(Mul(a, b), d)
  {
    CongMul(Rem(b, d), b, a, d);
    RemCong(Mul(a, Rem(b, d)), Mul(a, b), d);
  }

  lemma RemSmall(a: Poly, d: Poly)
    requires d != {} && Len(a) < Len(d)
    ensures Rem(a, d) == a
  {
  }

  /** x is a unit modulo a divisor with constant term 1: a multiple of d that is
      divisible by x is x times a multiple of d. */
  lemma CancelX(b: Poly, d: Poly)
    requires 0 in d && Rem(Shift(b, 1), d) == {}
    ensures Rem(b, d) == {}
  {
    hide Rem, Cong, Mul, Len;
    var q := MultipleOf(Shift(b, 1), d);
    ConstantTerm(q, d);
    var p := Quot(q, 1);
    assert q == Shift(p, 1);
    MulShift(p, d, 1);
    ShiftInjective(b, Mul(p, d), 1);
    MultipleHasNoRem(p, d);
  }

  lemma MultipleOf(a: Poly, d: Poly) returns (q: Poly)
    requires d != {} && Rem(a, d) == {}
    ensures a == Mul(q, d)
  {
    q :| Add({}, a) == Mul(q, d);
    assert Add({}, a) == a;
  }

  lemma MultipleHasNoRem(q: Poly, d: Poly)
    requires d != {}
    ensures Rem(Mul(q, d), d) == {}
  {
    assert Add({}, Mul(q, d)) == Mul(q, d);
    CongBy({}, Mul(q, d), d, q);
    LenAtMost({}, 0);
    RemUnique({}, Mul(q, d), d);
  }

  lemma ShiftInjective(a: Poly, b: Poly, k: nat)
    requires Shift(a, k) == Shift(b, k)
    ensures a == b
  {
    forall e: nat
      ensures e in a <==> e in b
    {
      assert e + k in Shift(a, k) <==> e in a;
      assert e + k in Shift(b, k) <==> e in b;
    }
  }

  lemma {:induction false} CancelShift(a: Poly, k: nat, d: Poly)
    requires 0 in d && Rem(Shift(a, k), d) == {}
    ensures Rem(a, d) == {}
    decreases k
  {
    hide Shift, Rem, Cong, Len;
    if k == 0 {
      ShiftNone(a);
    } else {
      ShiftShift(a, k - 1, 1, k);
      CancelX(Shift(a, k - 1), d);
      CancelShift(a, k - 1, d);
    }
  }

  /** The only multiples of d of no higher degree are 0 and d itself. */
  lemma SmallMultiple(a: Poly, d: Poly)
    requires d != {} && Len(a) <= Len(d) && Rem(a, d) == {}
    ensures a == {} || a == d
  {
    hide Rem, Cong, Mul, Shift;
    var q := MultipleOf(a, d);
    if q == {} {
      MulZero(d);
    } else {
      MulLen(q, d);
      assert q == {0};
      MulPow(d, 0);
      ShiftNone(d);
    }
  }

  lemma ConstantTerm(a: Poly, b: Poly)
    ensures 0 in Mul(a, b) <==> 0 in a && 0 in b
  {
    ConstantTermTo(a, b, Len(a));
  }

  lemma {:induction false} ConstantTermTo(a: Poly, b: Poly, n: nat)
    ensures 0 in MulTo(a, b, n) <==> n > 0 && 0 in a && 0 in b
    decreases n
  {
    if n > 0 {
      ConstantTermTo(a, b, n - 1);
    }
  }
}
