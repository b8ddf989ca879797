/**
 Integer to single-precision conversion, compile-rt-builtins/floatundisf.c and
 compile-rt-builtins/floatunsisf.c.  A float is its bit pattern; all finite
 non-negative floats, subnormals included, are whole multiples of 2^-149, so
 values are compared as integers scaled by 2^149.
 */
module FloatRounding {
  import opened Words

  const IMPLICIT: nat := 0x80_0000
  const INFINITY: nat := 0x7F80_0000
  const SIGN_BIT: nat := 0x8000_0000

  function Exponent(p: nat): nat { p / IMPLICIT }

  function Fraction(p: nat): nat { p % IMPLICIT }

  /** The value of a finite non-negative pattern, in units of 2^-149. */
  ghost function Value(p: nat): nat
  {
    if Exponent(p) == 0 then Fraction(p) else Mul(IMPLICIT + Fraction(p), Pow2(Exponent(p) - 1))
  }

  ghost function Distance(x: int, y: int): nat { if x < y then y - x else x - y }

  /** Round to nearest, ties to even, among all finite patterns. */
  ghost predicate NearestEven(x: nat, r: nat)
  {
    && r < INFINITY
    && (forall f: nat | f < INFINITY :: Distance(x, Value(r)) <= Distance(x, Value(f)))
    && (forall f: nat | f < INFINITY && f != r && Distance(x, Value(r)) == Distance(x, Value(f)) :: r % 2 == 0)
  }

  // ----- the number line

  lemma Pattern(e: nat, m: nat)
    requires e > 0 && IMPLICIT <= m < 2 * IMPLICIT
    ensures var p := e * IMPLICIT + (m - IMPLICIT);
            Exponent(p) == e && Value(p) == Mul(m, Pow2(e - 1))
  {
    DivModUnique(e * IMPLICIT + (m - IMPLICIT), IMPLICIT, e, m - IMPLICIT);
  }

  /** Neighbouring patterns are neighbouring values. */
  lemma Successor(p: nat)
    ensures Value(p) < Value(p + 1)
    ensures Exponent(p) > 0 ==> Value(p + 1) == Value(p) + Pow2(Exponent(p) - 1)
  {
    var e, f := Exponent(p), Fraction(p);
    assert p == e * IMPLICIT + f;
    if f + 1 < IMPLICIT {
      DivModUnique(p + 1, IMPLICIT, e, f + 1);
      if e > 0 {
        assert Mul(IMPLICIT + f + 1, Pow2(e - 1)) == Mul(IMPLICIT + f, Pow2(e - 1)) + Pow2(e - 1);
      }
    } else {
      DivModUnique(p + 1, IMPLICIT, e + 1, 0);
      if e > 0 {
        DoublingCarry(e - 1);
      } else {
        assert Pow2(0) == 1;
      }
    }
  }

  lemma DoublingCarry(k: nat)
    ensures Mul(IMPLICIT, Pow2(k + 1)) == Mul(IMPLICIT + (IMPLICIT - 1), Pow2(k)) + Pow2(k)
  {
  }

  lemma {:induction false} ValueIncreasing(p: nat, q: nat)
    requires p < q
    ensures Value(p) < Value(q)
    decreases q - p
  {
    hide Value;
    Successor(p);
    if p + 1 < q {
      ValueIncreasing(p + 1, q);
    }
  }

  /** The rounded result of a value between two neighbours. */
  lemma BetweenNeighbours(x: nat, p: nat, r: nat)
    requires p + 1 < INFINITY && Value(p) <= x < Value(p + 1)
    requires var below, above := x - Value(p), Value(p + 1) - x;
             r == if below < above || (below == above && p % 2 == 0) then p else p + 1
    ensures NearestEven(x, r)
  {
    hide Value;
    forall f: nat | f < INFINITY
      ensures Distance(x, Value(r)) <= Distance(x, Value(f))
      ensures f != r && Distance(x, Value(r)) == Distance(x, Value(f)) ==> r % 2 == 0
    {
      if f < p {
        ValueIncreasing(f, p);
      } else if f > p + 1 {
        ValueIncreasing(p + 1, f);
      }
    }
  }

  lemma CloserBetween(x: int, a: int, b: int, c: int)
    requires a < b < c && Distance(x, a) == Distance(x, c)
    ensures Distance(x, b) < Distance(x, a)
  {
  }

  /** There is only one correctly rounded result. */
  lemma NearestEvenUnique(x: nat, r: nat, s: nat)
    requires NearestEven(x, r) && NearestEven(x, s)
    ensures r == s
  {
    hide Value;
    assert Distance(x, Value(r)) == Distance(x, Value(s));
    var lo, hi := if r < s then r else s, if r < s then s else r;
    if lo + 1 < hi {
      ValueIncreasing(lo, lo + 1);
      ValueIncreasing(lo + 1, hi);
      CloserBetween(x, Value(lo), Value(lo + 1), Value(hi));
    }
  }

  /** Correct rounding is monotone. */
  lemma NearestEvenMonotone(x: nat, y: nat, r: nat, s: nat)
    requires x <= y && NearestEven(x, r) && NearestEven(y, s)
    ensures r <= s
  {
    hide Value;
    if s < r {
      ValueIncreasing(s, r);
      assert Distance(x, Value(r)) <= Distance(x, Value(s));
      assert Distance(y, Value(s)) <= Distance(y, Value(r));
      assert x == y;
      NearestEvenUnique(x, r, s);
    }
  }

  // ----- rounding an integer to 24 bits

  /** `a` scaled to units of 2^-149. */
  ghost function Scaled(a: nat): nat { Mul(a, Pow2(149)) }

  /** The pattern whose significand is `m` and whose leading bit weighs 2^e. */
  function Encode(e: nat, m: nat): nat
    requires m >= IMPLICIT
  {
    (e + 127) * IMPLICIT + (m - IMPLICIT)
  }

  lemma EncodeParity(e: nat, m: nat)
    requires m >= IMPLICIT
    ensures Encode(e, m) % 2 == m % 2
  {
  }

  lemma EncodeValue(e: nat, m: nat)
    requires IMPLICIT <= m < 2 * IMPLICIT && e <= 64
    ensures Encode(e, m) + 1 < INFINITY
    ensures Value(Encode(e, m)) == Mul(m, Pow2(e + 126))
    ensures Value(Encode(e, m) + 1) == Mul(m, Pow2(e + 126)) + Pow2(e + 126)
  {
    Pattern(e + 127, m);
    Successor(Encode(e, m));
  }

  /** Dropping `s` low bits: the scaled value lies between the neighbours, at the matching place. */
  lemma ScaledPlace(m: nat, s: nat, rest: nat, a: nat)
    requires a == Mul(m, Pow2(s)) + rest
    ensures Scaled(a) == Mul(m, Pow2(s + 149)) + Scaled(rest)
  {
    hide Pow2, Mul;
    Pow2Add(s, 149);
    ScaleSum(m, Pow2(s), rest, Pow2(149));
  }

  lemma ScaleSum(m: nat, k: nat, rest: nat, u: nat)
    ensures Mul(Mul(m, k) + rest, u) == Mul(m, k * u) + Mul(rest, u)
  {
  }

  lemma ScaledCompare(rest: nat, s: nat)
    requires s > 0 && rest < Pow2(s)
    ensures Scaled(rest) < Pow2(s + 149)
    ensures 2 * Scaled(rest) < Pow2(s + 149) <==> rest < Pow2(s - 1)
    ensures 2 * Scaled(rest) == Pow2(s + 149) <==> rest == Pow2(s - 1)
  {
    hide Pow2, Mul;
    Pow2Next(s - 1);
    Pow2Next(s - 1 + 149);
    Pow2Add(s - 1, 149);
    CompareScaled(rest, Pow2(s - 1), Pow2(149));
  }

  lemma CompareScaled(rest: nat, half: nat, u: nat)
    requires u > 0
    ensures Mul(rest, u) < half * u <==> rest < half
    ensures Mul(rest, u) == half * u <==> rest == half
    ensures rest < 2 * half ==> Mul(rest, u) < 2 * (half * u)
  {
    if rest < half {
      MulStrict(rest, half, u);
    } else if rest > half {
      MulStrict(half, rest, u);
    }
    if rest < 2 * half {
      MulStrict(rest, 2 * half, u);
    }
  }

  /** Correct rounding of the significand is correct rounding of the float. */
  lemma RoundedSignificand(a: nat, e: nat, m: nat, s: nat, rest: nat, up: nat)
    requires IMPLICIT <= m < 2 * IMPLICIT && 0 < s == e - 23 && e < 64
    requires a == Mul(m, Pow2(s)) + rest && rest < Pow2(s)
    requires up == if rest < Pow2(s - 1) || (rest == Pow2(s - 1) && m % 2 == 0) then 0 else 1
    ensures NearestEven(Scaled(a), Encode(e, m) + up)
  {
    hide Pow2, Value, Scaled, Mul, Encode, NearestEven;
    var p := Encode(e, m);
    EncodeValue(e, m);
    EncodeParity(e, m);
    ScaledPlace(m, s, rest, a);
    ScaledCompare(rest, s);
    BetweenNeighbours(Scaled(a), p, p + up);
  }

  /** Integers of at most 24 bits are represented exactly. */
  lemma ExactSignificand(a: nat, e: nat, m: nat)
    requires IMPLICIT <= m < 2 * IMPLICIT && e <= 23 && m == Mul(a, Pow2(23 - e))
    ensures NearestEven(Scaled(a), Encode(e, m))
  {
    hide Pow2, Value, Mul, Encode, NearestEven;
    EncodeValue(e, m);
    Pow2Add(23 - e, e + 126);
    MulAssoc(a, Pow2(23 - e), Pow2(e + 126));
    BetweenNeighbours(Scaled(a), Encode(e, m), Encode(e, m));
  }

  // ----- __floatundisf

  /** Where the dropped bits fall: nothing, below half, exactly half, above half. */
  ghost function Quarter(rest: nat, s: nat): nat
    requires s > 0
  {
    if rest == 0 then 0 else if rest < Pow2(s - 1) then 1 else if rest == Pow2(s - 1) then 2 else 3
  }

  ghost predicate Split(a: nat, m: nat, s: nat, rest: nat)
  {
    a == Mul(m, Pow2(s)) + rest && rest < Pow2(s)
  }

  lemma SplitTop(a: nat, sd: nat) returns (m: nat, rest: nat)
    requires sd > 24 && Pow2(sd - 1) <= a < Pow2(sd)
    ensures Split(a, m, sd - 24, rest) && IMPLICIT <= m < 2 * IMPLICIT
  {
    hide Pow2, Quot, Rem;
    var s := sd - 24;
    var k := Pow2(s);
    m, rest := Quot(a, k), Rem(a, k);
    QuotRem(a, k);
    PowImplicit();
    Pow2Add(23, s);
    Pow2Add(24, s);
    assert m < 2 * IMPLICIT by { MulCancel(m, 2 * IMPLICIT, k); }
    assert IMPLICIT <= m by { MulCancel(IMPLICIT, m + 1, k); }
  }

  lemma PowImplicit()
    ensures Pow2(23) == IMPLICIT && Pow2(24) == 2 * IMPLICIT
  {
    var n := 4;
    assert Pow2(n) == 16;
    Pow2Double(n, 16);
    Pow2Double(2 * n, 0x100);
    Pow2Add(16, 8);
    assert Pow2(24) == 2 * Pow2(23);
  }

  lemma FourTimes(m: nat, d: nat, k: nat)
    ensures Mul(m, 4 * k) + d * k == Mul(4 * m + d, k)
  {
  }

  lemma StickyParts(a: nat, m: nat, k: nat, rest: nat)
    requires k > 0 && a == Mul(m, 4 * k) + rest && rest < 4 * k
    ensures Quot(a, k) == 4 * m + Quot(rest, k) && Rem(a, k) == Rem(rest, k) && Quot(rest, k) < 4
    ensures rest == 0 <==> Quot(rest, k) == 0 && Rem(rest, k) == 0
    ensures rest < 2 * k <==> Quot(rest, k) < 2
    ensures rest == 2 * k <==> Quot(rest, k) == 2 && Rem(rest, k) == 0
  {
    hide Quot, Rem;
    var d, low := Quot(rest, k), Rem(rest, k);
    QuotRem(rest, k);
    MulCancel(d, 4, k);
    FourTimes(m, d, k);
    QuotUnique(a, k, 4 * m + d, low);
    PlaceOf(d, k, low);
  }

  /** Two dropped bits with the sticky bit or-ed in. */
  ghost function StickyDigit(d: nat, low: nat): nat { if low == 0 || d % 2 == 1 then d else d + 1 }

  lemma OrSticky(m: nat, d: nat, low: nat)
    ensures BitOr(4 * m + d, if low != 0 then 1 else 0) == 4 * m + StickyDigit(d, low)
  {
    hide BitOr;
    OrOne(4 * m + d);
    OrZero(4 * m + d);
  }

  lemma QuarterOf(rest: nat, s: nat, d: nat, low: nat)
    requires s > 0
    requires rest == 0 <==> d == 0 && low == 0
    requires rest < Pow2(s - 1) <==> d < 2
    requires rest == Pow2(s - 1) <==> d == 2 && low == 0
    requires d < 4
    ensures Quarter(rest, s) == StickyDigit(d, low)
  {
    hide Pow2;
  }

  lemma ShiftAndMask(a: nat, t: nat)
    ensures Shr(a, t) == Quot(a, Pow2(t)) && BitAnd(a, Pow2(t) - 1) == Rem(a, Pow2(t))
  {
    AndLowMask(a, t);
  }

  /** The shift with a sticky bit keeps the place of the dropped bits. */
  lemma StickyShift(a: nat, m: nat, s: nat, rest: nat)
    requires Split(a, m, s, rest) && s > 2 && s <= 40
    ensures BitOr(Shr(a, s - 2), if BitAnd(a, Pow2(s - 2) - 1) != 0 then 1 else 0) == 4 * m + Quarter(rest, s)
  {
    hide Pow2, BitAnd, BitOr, Shr, Quot, Rem, Mul, Quarter;
    var k := Pow2(s - 2);
    Pow2Next(s - 2);
    Pow2Next(s - 1);
    ShiftAndMask(a, s - 2);
    StickyParts(a, m, k, rest);
    hide StickyDigit;
    QuarterOf(rest, s, Quot(rest, k), Rem(rest, k));
    OrSticky(m, Quot(rest, k), Rem(rest, k));
  }

  lemma OrZero(x: nat)
    ensures BitOr(x, 0) == x
  {
  }

  lemma PlaceOf(d: nat, k: nat, low: nat)
    requires k > 0 && low < k && d < 4
    ensures var rest := d * k + low;
            && (rest == 0 <==> d == 0 && low == 0) && (rest < 2 * k <==> d < 2)
            && (rest == 2 * k <==> d == 2 && low == 0)
  {
    assert d == 0 || d == 1 || d == 2 || d == 3;
  }

  ghost function RoundsUp(q: nat, m: nat): nat { if q == 3 || (q == 2 && m % 2 == 1) then 1 else 0 }

  /** Or-ing the last kept bit into the sticky bit and adding one rounds half to even. */
  lemma AddRound(m: nat, q: nat)
    requires q < 4
    ensures var w := 4 * m + q;
            (BitOr(w, if BitAnd(w, 4) != 0 then 1 else 0) + 1) / 4 == m + RoundsUp(q, m)
  {
    var w := 4 * m + q;
    assert Pow2(2) == 4;
    AndBit(w, 2);
    assert w / 4 == m;
    OrOne(w);
    OrZero(w);
    hide BitOr, BitAnd;
  }

  lemma QuarterDecides(rest: nat, s: nat, m: nat)
    requires s > 0
    ensures RoundsUp(Quarter(rest, s), m) == if rest < Pow2(s - 1) || (rest == Pow2(s - 1) && m % 2 == 0) then 0 else 1
  {
  }

  /** Exponent and significand fields put together. */
  lemma Assemble(e: nat, m: nat)
    requires IMPLICIT <= m < 2 * IMPLICIT && e <= 64
    ensures BitOr(Shl(32, e + 127, 23), BitAnd(m % W32, 0x7F_FFFF)) == Encode(e, m)
  {
    hide BitOr, BitAnd, Pow2;
    PowImplicit();
    Pow2Words();
    AndLowMask(m, 23);
    OrDisjoint(e + 127, 23, m - IMPLICIT);
    DivModUnique(m, W32, 0, m);
    DivModUnique(m, IMPLICIT, 1, m - IMPLICIT);
    DivModUnique((e + 127) * IMPLICIT, W32, 0, (e + 127) * IMPLICIT);
  }

  lemma QuotOnes(n: nat, k: nat)
    requires n > 0 && k > 0
    ensures n * k > 0 && Quot(n * k - 1, k) == n - 1
  {
    MulMono(1, n, k);
    DivModUnique(n * k - 1, k, n - 1, k - 1);
  }

  lemma StickyMask(s: nat)
    requires 2 < s <= 40
    ensures Shr(W64 - 1, 66 - s) == Pow2(s - 2) - 1
  {
    hide Pow2, Quot;
    Pow2Words();
    Pow2Add(s - 2, 66 - s);
    QuotOnes(Pow2(s - 2), Pow2(66 - s));
  }

  /** Twenty-five significant bits: one left shift makes room. */
  lemma OneDropped(a: nat, m: nat, rest: nat)
    requires Split(a, m, 1, rest) && a < W63
    ensures Shl(64, a, 1) == 4 * m + Quarter(rest, 1)
  {
    hide Pow2, Shl;
    Pow2Next(0);
    Pow2Words();
    assert a == 2 * m + rest;
    ShlOne(64, a);
  }

  /** Twenty-six significant bits: already in place. */
  lemma TwoDropped(a: nat, m: nat, rest: nat)
    requires Split(a, m, 2, rest)
    ensures a == 4 * m + Quarter(rest, 2)
  {
    assert Pow2(1) == 2 && Pow2(2) == 4;
  }

  /** The three ways `__floatundisf` brings an operand of more than 24 bits to 26. */
  method ToTwentySix(x: nat, sd: nat, ghost m: nat, ghost rest: nat) returns (a: nat)
    requires 24 < sd <= 64 && x < Pow2(sd) && Split(x, m, sd - 24, rest)
    ensures a == 4 * m + Quarter(rest, sd - 24)
  {
    hide Pow2, BitAnd, BitOr, Shl, Shr, Split, Quarter;
    a := x;
    if sd == 25 {
      assert x < W63 by {
        Pow2Words();
        Pow2Mono(25, 63);
      }
      OneDropped(x, m, rest);
      a := Shl(64, a, 1);
    } else if sd == 26 {
      TwoDropped(x, m, rest);
    } else {
      StickyMask(sd - 24);
      StickyShift(x, m, sd - 24, rest);
      a := BitOr(Shr(a, sd - 26), if BitAnd(a, Shr(W64 - 1, 90 - sd)) != 0 then 1 else 0);
    }
  }

  /** Or, increment and shift drop the two low bits, rounded. */
  lemma RoundStep(m: nat, q: nat)
    requires m < 2 * IMPLICIT && q < 4
    ensures var w := 4 * m + q;
            Shr((BitOr(w, if BitAnd(w, 4) != 0 then 1 else 0) + 1) % W64, 2) == m + RoundsUp(q, m)
  {
    hide BitOr, BitAnd, Shr, RoundsUp;
    var w := 4 * m + q;
    var x := BitOr(w, if BitAnd(w, 4) != 0 then 1 else 0) + 1;
    AddRound(m, q);
    RoundFitsWord(m, q);
    DivModUnique(x, W64, 0, x);
    ShrTwo(x);
  }

  /** The rounding steps on an operand of more than 24 bits. */
  method RoundTo24(x: nat, sd: nat) returns (a: nat, e: nat)
    requires 24 < sd <= 64 && Pow2(sd - 1) <= x < Pow2(sd)
    ensures IMPLICIT <= a < 2 * IMPLICIT && e <= 64 && NearestEven(Scaled(x), Encode(e, a))
  {
    hide Pow2, BitAnd, BitOr, Shl, Shr, NearestEven, Scaled, Split, Encode, Quarter, RoundsUp;
    e := sd - 1;
    ghost var m, rest := SplitTop(x, sd);
    ghost var s := sd - 24;
    ghost var up := RoundsUp(Quarter(rest, s), m);
    a := ToTwentySix(x, sd, m, rest);
    SmallParts(rest, s, m);
    RoundStep(m, Quarter(rest, s));
    a := BitOr(a, if BitAnd(a, 4) != 0 then 1 else 0);
    a := (a + 1) % W64;
    a := Shr(a, 2);
    assert a == m + up;
    QuarterDecides(rest, s, m);
    RoundedSplit(x, e, m, s, rest, up);
    CarryOut(m, up);
    EncodeUp(e, m, up);
    if BitAnd(a, Pow2(24)) != 0 {
      ShrOne(a);
      a := Shr(a, 1);
      e := e + 1;
    }
  }

  /** `__floatundisf`: every 64-bit integer to the nearest float, ties to even. */
  method FloatUndisf(x: nat) returns (bits: nat)
    requires x < W64
    ensures NearestEven(Scaled(x), bits)
  {
    hide Pow2, BitAnd, BitOr, Shl, NearestEven, Scaled, Encode, BitLength;
    if x == 0 {
      ZeroIsExact();
      return 0;
    }
    Pow2Words();
    var sd := 64 - Clz(64, x);
    var e, a: nat := sd - 1, x;
    if sd > 24 {
      a, e := RoundTo24(x, sd);
    } else {
      ShortSignificand(x, sd);
      a := Shl(64, a, 24 - sd);
    }
    Assemble(e, a);
    bits := BitOr(Shl(32, e + 127, 23), BitAnd(a % W32, 0x7F_FFFF));
  }

  lemma ZeroIsExact()
    ensures NearestEven(Scaled(0), 0)
  {
    Successor(0);
    BetweenNeighbours(0, 0, 0);
  }

  lemma SmallParts(rest: nat, s: nat, m: nat)
    requires s > 0
    ensures Quarter(rest, s) < 4 && RoundsUp(Quarter(rest, s), m) < 2
  {
  }

  lemma RoundFitsWord(m: nat, q: nat)
    requires m < 2 * IMPLICIT && q < 4
    ensures var w := 4 * m + q; BitOr(w, if BitAnd(w, 4) != 0 then 1 else 0) + 1 < W64
  {
    OrOne(4 * m + q);
    OrZero(4 * m + q);
    hide BitOr, BitAnd;
  }

  lemma ShrTwo(a: nat)
    ensures Shr(a, 2) == a / 4
  {
    assert Pow2(2) == 4;
  }

  lemma ShrOne(a: nat)
    ensures Shr(a, 1) == a / 2
  {
    assert Pow2(1) == 2;
  }

  lemma RoundedSplit(x: nat, e: nat, m: nat, s: nat, rest: nat, up: nat)
    requires IMPLICIT <= m < 2 * IMPLICIT && 0 < s == e - 23 && e < 64 && Split(x, m, s, rest)
    requires up == if rest < Pow2(s - 1) || (rest == Pow2(s - 1) && m % 2 == 0) then 0 else 1
    ensures NearestEven(Scaled(x), Encode(e, m) + up)
  {
    RoundedSignificand(x, e, m, s, rest, up);
  }

  /** The bit test after rounding detects exactly the carry into bit 24. */
  lemma CarryOut(m: nat, up: nat)
    requires IMPLICIT <= m < 2 * IMPLICIT && up < 2
    ensures BitAnd(m + up, Pow2(24)) != 0 <==> m + up == 2 * IMPLICIT
  {
    hide BitAnd, Pow2;
    PowImplicit();
    AndBit(m + up, 24);
    var x := m + up;
    DivModUnique(x, 2 * IMPLICIT, if x == 2 * IMPLICIT then 1 else 0, if x == 2 * IMPLICIT then 0 else x);
  }

  /** A carry out of the significand moves on into the exponent. */
  lemma EncodeUp(e: nat, m: nat, up: nat)
    requires IMPLICIT <= m < 2 * IMPLICIT && up < 2
    ensures Encode(e, m) + up == if m + up == 2 * IMPLICIT then Encode(e + 1, IMPLICIT) else Encode(e, m + up)
  {
  }

  lemma ShortSignificand(x: nat, sd: nat)
    requires 0 < sd <= 24 && Pow2(sd - 1) <= x < Pow2(sd)
    ensures var m := Shl(64, x, 24 - sd);
            IMPLICIT <= m < 2 * IMPLICIT && NearestEven(Scaled(x), Encode(sd - 1, m))
  {
    PowImplicit();
    Pow2Words();
    Pow2Add(sd - 1, 24 - sd);
    Pow2Add(sd, 24 - sd);
    var k, m := Pow2(24 - sd), Mul(x, Pow2(24 - sd));
    MulMono(Pow2(sd - 1), x, k);
    MulStrict(x, Pow2(sd), k);
    hide Pow2;
    DivModUnique(m, W64, 0, m);
    ExactSignificand(x, sd - 1, m);
  }

  // ----- __floatunsisf

  /** The dropped bits moved to the top of a word compare with the sign bit as they do with a half. */
  lemma DroppedAtTop(a: nat, m: nat, s: nat, rest: nat)
    requires Split(a, m, s, rest) && 0 < s <= 8 && a < W32
    ensures Shl(32, a, 32 - s) > SIGN_BIT <==> rest > Pow2(s - 1)
    ensures Shl(32, a, 32 - s) == SIGN_BIT <==> rest == Pow2(s - 1)
    ensures Shr(a, s) == m
  {
    hide Pow2;
    Pow2Words();
    var k, n := Pow2(s), Pow2(32 - s);
    Pow2Next(s - 1);
    Pow2Add(s, 32 - s);
    Pow2Add(s - 1, 32 - s);
    MulAtTop(a, m, k, rest, n);
    CompareScaled(rest, Pow2(s - 1), n);
    DivModUnique(a, k, m, rest);
  }

  lemma MulAtTop(a: nat, m: nat, k: nat, rest: nat, n: nat)
    requires a == Mul(m, k) + rest && rest < k && n > 0
    ensures k * n > 0 && a * n % (k * n) == Mul(rest, n)
  {
    MulMono(1, k, n);
    assert a * n == m * (k * n) + rest * n by { assert (m * k) * n == m * (k * n); }
    MulStrict(rest, k, n);
    assert 0 <= rest * n;
    DivModUnique(a * n, k * n, m, rest * n);
  }

  /** The right shift of `__floatunsisf`, rounded through the top of a word. */
  method ShiftAndRound(a: nat, exponent: nat) returns (result: nat)
    requires a < W32 && 23 < exponent < 32 && Pow2(exponent) <= a < Pow2(exponent + 1)
    ensures NearestEven(Scaled(a), result + (exponent + 127) * IMPLICIT)
  {
    hide Pow2, BitAnd, BitXor, Shl, Shr, NearestEven, Scaled, Split, Encode;
    var shift := exponent - 23;
    ghost var m, rest := SplitTop(a, exponent + 1);
    DroppedAtTop(a, m, shift, rest);
    ClearTop(m);
    ghost var half := Pow2(shift - 1);
    ghost var up := if rest < half || (rest == half && m % 2 == 0) then 0 else 1;
    RoundedSplit(a, exponent, m, shift, rest, up);
    EncodeIs(exponent, m);
    result := BitXor(Shr(a, shift), IMPLICIT);
    ParityBelow(m);
    var round := Shl(32, a, 32 - shift);
    if round > SIGN_BIT {
      result := result + 1;
    }
    if round == SIGN_BIT {
      LowBit(result);
      result := result + BitAnd(result, 1);
    }
    assert result == m - IMPLICIT + up;
  }

  lemma ClearTop(m: nat)
    requires IMPLICIT <= m < 2 * IMPLICIT
    ensures BitXor(m, IMPLICIT) == m - IMPLICIT
  {
    PowImplicit();
    XorTop(m, 23);
  }

  lemma ParityBelow(m: nat)
    requires m >= IMPLICIT
    ensures (m - IMPLICIT) % 2 == m % 2
  {
  }

  /**
   `__floatunsisf`: round by comparing the dropped bits with the sign bit, and let a
   carry out of the significand run into the exponent.
   */
  method FloatUnsisf(a: nat) returns (bits: nat)
    requires a < W32
    ensures NearestEven(Scaled(a), bits)
  {
    hide Pow2, BitXor, Shl, NearestEven, Scaled, Encode, BitLength;
    if a == 0 {
      ZeroIsExact();
      return 0;
    }
    Pow2Words();
    var exponent: nat := 31 - Clz(32, a);
    var result: nat;
    if exponent <= 23 {
      ShortSignificand32(a, exponent);
      var shift := 23 - exponent;
      ClearTop(Shl(32, a, shift));
      result := BitXor(Shl(32, a, shift), IMPLICIT);
      EncodeIs(exponent, Shl(32, a, shift));
    } else {
      result := ShiftAndRound(a, exponent);
    }
    ExponentField(exponent);
    bits := result + Shl(32, exponent + 127, 23);
  }

  lemma LowBit(x: nat)
    ensures BitAnd(x, 1) == x % 2
  {
    AndLowMask(x, 1);
    assert Pow2(1) == 2;
  }

  lemma EncodeIs(e: nat, m: nat)
    requires m >= IMPLICIT
    ensures Encode(e, m) == (e + 127) * IMPLICIT + (m - IMPLICIT)
  {
  }

  lemma ExponentField(e: nat)
    requires e <= 31
    ensures Shl(32, e + 127, 23) == (e + 127) * IMPLICIT
  {
    PowImplicit();
    Pow2Words();
    DivModUnique((e + 127) * IMPLICIT, W32, 0, (e + 127) * IMPLICIT);
  }

  lemma ShortSignificand32(x: nat, e: nat)
    requires e <= 23 && Pow2(e) <= x < Pow2(e + 1)
    ensures var m := Shl(32, x, 23 - e);
            IMPLICIT <= m < 2 * IMPLICIT && NearestEven(Scaled(x), Encode(e, m))
  {
    PowImplicit();
    Pow2Words();
    Pow2Add(e, 23 - e);
    Pow2Add(e + 1, 23 - e);
    var k, m := Pow2(23 - e), Mul(x, Pow2(23 - e));
    MulMono(Pow2(e), x, k);
    MulStrict(x, Pow2(e + 1), k);
    hide Pow2;
    DivModUnique(m, W32, 0, m);
    ExactSignificand(x, e, m);
  }

  /** Both conversions, run on the same and on ordered inputs. */
  method ConversionsAgree(a: nat, b: nat) returns (fa: nat, ua: nat, fb: nat)
    requires a < W32 && a <= b < W64
    ensures fa == ua && fa <= fb
    ensures NearestEven(Scaled(a), fa) && NearestEven(Scaled(b), fb)
  {
    hide NearestEven, Value;
    fa := FloatUndisf(a);
    ua := FloatUnsisf(a);
    fb := FloatUndisf(b);
    NearestEvenUnique(Scaled(a), fa, ua);
    ScaledMono(a, b);
    NearestEvenMonotone(Scaled(a), Scaled(b), fa, fb);
  }

  lemma ScaledMono(a: nat, b: nat)
    requires a <= b
    ensures Scaled(a) <= Scaled(b)
  {
    MulMono(a, b, Pow2(149));
  }
}
