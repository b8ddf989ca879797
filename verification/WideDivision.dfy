/**
 128-bit by 64-bit and 128-bit by 128-bit unsigned division,
 compile-rt-builtins/udivmodti4.c.  All arithmetic is on wrapped words: every
 C expression of type `du_int` (`tu_int`) is reduced modulo 2^64 (2^128).
 */
module WideDivision {
  import opened Words

  function Wrap64(x: int): (r: nat)
    ensures r < W64
  {
    x % W64
  }

  lemma WrapSmall(x: int)
    requires 0 <= x < W64
    ensures Wrap64(x) == x
  {
  }

  // ----- one quotient digit of Algorithm D

  /** Comparing a candidate with a true quotient. */
  lemma QuotientTest(q: nat, n: nat, v: nat)
    requires v > 0
    ensures Mul(q, v) > n <==> q > Quot(n, v)
  {
    DivBounds(n, v);
    if q > n / v {
      MulMono(n / v + 1, q, v);
    } else {
      MulMono(q, n / v, v);
    }
  }

  ghost function ExactDigit(un: nat, d: nat, vn1: nat, vn0: nat): nat
    requires vn1 > 0
  {
    Quot(un * W32 + d, vn1 * W32 + vn0)
  }

  /** The correction test of the loop decides exactly whether the digit is too large. */
  lemma DigitTest(un: nat, d: nat, vn1: nat, vn0: nat, q: nat, rhat: int)
    requires vn1 > 0 && rhat == un - Mul(q, vn1)
    ensures Mul(q, vn0) > W32 * rhat + d <==> q > ExactDigit(un, d, vn1, vn0)
  {
    var v := vn1 * W32 + vn0;
    QuotientTest(q, un * W32 + d, v);
    DigitProduct(q, vn1, vn0);
    hide Mul, Quot;
    assert ExactDigit(un, d, vn1, vn0) == Quot(un * W32 + d, v);
  }

  lemma DigitProduct(q: nat, vn1: nat, vn0: nat)
    ensures Mul(q, vn1 * W32 + vn0) == Mul(q, vn1) * W32 + Mul(q, vn0)
  {
  }

  /** A two-digit dividend below the divisor has a one-digit quotient. */
  lemma DigitFits(un: nat, d: nat, vn1: nat, vn0: nat)
    requires vn1 > 0 && un < vn1 * W32 + vn0 && d < W32
    ensures ExactDigit(un, d, vn1, vn0) < W32
  {
    QuotientTest(W32, un * W32 + d, vn1 * W32 + vn0);
  }

  /** The first estimate never exceeds `b + 1`, so nothing compared later overflows. */
  lemma EstimateBound(un: nat, vn1: nat, vn0: nat)
    requires W32 / 2 <= vn1 && vn0 < W32 && un < vn1 * W32 + vn0
    ensures Quot(un, vn1) <= W32 + 1
  {
    QuotientTest(W32 + 2, un, vn1);
    hide Quot;
    assert Mul(W32 + 2, vn1) == vn1 * W32 + 2 * vn1;
  }

  lemma ProductBound(x: nat, y: nat)
    requires x <= W32 && y < W32
    ensures Mul(x, y) < W64
  {
    MulMono(x, W32, y);
  }

  /** A candidate digit with its partial remainder. */
  ghost predicate Trial(un: nat, vn1: nat, q: nat, rhat: nat)
  {
    Mul(q, vn1) + rhat == un
  }

  lemma FirstTrial(un: nat, d: nat, vn1: nat, vn0: nat, q: nat, p: nat)
    requires W32 / 2 <= vn1 < W32 && vn0 < W32 && d < W32
    requires un < vn1 * W32 + vn0
    requires q == Quot(un, vn1) && p == Mul(q, vn1)
    ensures p <= un < p + vn1 && Trial(un, vn1, q, un - p)
    ensures ExactDigit(un, d, vn1, vn0) <= q <= W32 + 1 && ExactDigit(un, d, vn1, vn0) < W32
  {
    hide Mul, Quot, ExactDigit;
    DigitFits(un, d, vn1, vn0);
    EstimateBound(un, vn1, vn0);
    FirstRemainder(un, vn1, q);
    DigitTest(un, d, vn1, vn0, q + 1, un - p - vn1);
  }

  lemma FirstRemainder(un: nat, vn1: nat, q: nat)
    requires vn1 > 0 && q == Quot(un, vn1)
    ensures Mul(q, vn1) <= un < Mul(q, vn1) + vn1
    ensures Mul(q + 1, vn1) == Mul(q, vn1) + vn1
  {
    DivBounds(un, vn1);
  }

  lemma NextTrial(un: nat, vn1: nat, q: nat, rhat: nat)
    requires q > 0 && Trial(un, vn1, q, rhat)
    ensures Trial(un, vn1, q - 1, rhat + vn1)
  {
  }

  /** Wrapping does not disturb the correction test while the operands are digits. */
  lemma WrappedTest(un: nat, d: nat, vn1: nat, vn0: nat, q: nat, rhat: nat, p: nat)
    requires 0 < vn1 && vn0 < W32 && d < W32 && q < W32 && rhat < W32
    requires Trial(un, vn1, q, rhat) && p == Mul(q, vn0)
    ensures Wrap64(p) > Wrap64(Wrap64(W32 * rhat) + d) <==> q > ExactDigit(un, d, vn1, vn0)
  {
    hide Mul, Quot, ExactDigit, Wrap64;
    ProductBound(q, vn0);
    WrapSmall(p);
    WrapSmall(W32 * rhat);
    WrapSmall(W32 * rhat + d);
    DigitTest(un, d, vn1, vn0, q, rhat);
  }

  /** Once the partial remainder reaches the base, the digit cannot be too large. */
  lemma LargeRemainder(un: nat, d: nat, vn1: nat, vn0: nat, q: nat, rhat: nat)
    requires 0 < vn1 && vn0 < W32 && q <= W32 && rhat >= W32
    requires Trial(un, vn1, q, rhat)
    ensures q <= ExactDigit(un, d, vn1, vn0)
  {
    hide Mul, Quot, ExactDigit;
    ProductBound(q, vn0);
    DigitTest(un, d, vn1, vn0, q, rhat);
  }

  /**
   One digit: estimate with the top divisor digit, then correct.
   `rounds` counts the corrections, so the estimate was `q + rounds`.
   */
  method QuotientDigit(un: nat, d: nat, vn1: nat, vn0: nat) returns (q: nat, ghost rounds: nat)
    requires W32 / 2 <= vn1 < W32 && vn0 < W32 && d < W32
    requires un < vn1 * W32 + vn0
    ensures q == ExactDigit(un, d, vn1, vn0) && q < W32
    ensures rounds <= 2 && Quot(un, vn1) == q + rounds
  {
    hide Mul, Quot, ExactDigit, Trial, Wrap64;
    ghost var exact := ExactDigit(un, d, vn1, vn0);
    q := Quot(un, vn1);
    var product := Mul(q, vn1);
    FirstTrial(un, d, vn1, vn0, q, product);
    WrapSmall(product);
    WrapSmall(un - product);
    var rhat: nat := Wrap64(un - Wrap64(product));
    rounds := 0;
    product := Mul(q, vn0);
    if q < W32 {
      WrappedTest(un, d, vn1, vn0, q, rhat, product);
    }
    while q >= W32 || Wrap64(product) > Wrap64(Wrap64(W32 * rhat) + d)
      invariant exact <= q <= W32 + 1 - rounds
      invariant Quot(un, vn1) == q + rounds
      invariant rhat < W32 && Trial(un, vn1, q, rhat)
      invariant rounds == 0 || (rounds == 1 && rhat >= W32 / 2)
      invariant q < W32 ==> (Wrap64(product) > Wrap64(Wrap64(W32 * rhat) + d) <==> q > exact)
      decreases q
    {
      NextTrial(un, vn1, q, rhat);
      WrapSmall(q - 1);
      WrapSmall(rhat + vn1);
      q := Wrap64(q - 1);
      rhat := Wrap64(rhat + vn1);
      rounds := rounds + 1;
      if rhat >= W32 {
        LargeRemainder(un, d, vn1, vn0, q, rhat);
        break;
      }
      product := Mul(q, vn0);
      if q < W32 {
        WrappedTest(un, d, vn1, vn0, q, rhat, product);
      }
    }
  }

  // ----- normalisation

  /** Shifting the divisor by its leading zeros loses nothing and sets the top bit. */
  lemma NormalisedDivisor(v: nat, s: nat)
    requires 0 < v < W64 && Pow2(64) == W64 && s == Clz(64, v)
    ensures Shl(64, v, s) == Mul(v, Pow2(s)) && W63 <= Mul(v, Pow2(s)) < W64
  {
    hide Pow2, Mul, Shl, BitLength;
    Pow2Words();
    Pow2Join(63 - s, s);
    Pow2Join(64 - s, s);
    ScaledBounds(Pow2(63 - s), v, Pow2(64 - s), Pow2(s));
    ShlIs(64, v, s);
  }

  lemma ScaledDivision(x: nat, k: nat, p: nat, w: nat)
    requires k > 0 && p > 0 && w == k * p && x < w
    ensures x * p == (x / k) * w + x * p % w && x / k < p
  {
    var hi, lo := x / k, x % k;
    assert x == hi * k + lo;
    assert x * p == hi * w + lo * p by {
      assert (hi * k) * p == hi * (k * p);
    }
    MulStrict(lo, k, p);
    assert 0 <= lo * p;
    DivModUnique(x * p, w, hi, lo * p);
    MulCancel(hi, p, k);
  }

  /** The bits shifted out of the low word are those shifted into the high word. */
  lemma ShiftedLowWord(u0: nat, s: nat)
    requires u0 < W64 && 0 < s < 64 && Pow2(64) == W64
    ensures Mul(u0, Pow2(s)) == Shr(u0, 64 - s) * W64 + Shl(64, u0, s)
    ensures Shr(u0, 64 - s) < Pow2(s)
  {
    hide Pow2;
    Pow2Add(64 - s, s);
    ScaledDivision(u0, Pow2(64 - s), Pow2(s), W64);
  }

  lemma ShiftedHighWord(u1: nat, v: nat, p: nat, hi: nat)
    requires u1 < v && hi < p
    ensures Mul(u1, p) + hi < Mul(v, p)
  {
    MulMono(u1 + 1, v, p);
  }

  /** The normalised dividend is the dividend times the same power of two. */
  lemma NormalisedDividend(u1: nat, u0: nat, v: nat, s: nat)
    requires u1 < v < W64 && u0 < W64 && 0 < s < 64
    requires Pow2(64) == W64 && Mul(v, Pow2(s)) < W64
    ensures var un64 := BitOr(Shl(64, u1, s), Shr(u0, 64 - s));
            && un64 < Mul(v, Pow2(s))
            && un64 * W64 + Shl(64, u0, s) == Mul(u1 * W64 + u0, Pow2(s))
  {
    var p, hi := Pow2(s), Shr(u0, 64 - s);
    ShiftedLowWord(u0, s);
    ShiftedHighWord(u1, v, p, hi);
    assert Shl(64, u1, s) == Mul(u1, p) by {
      DivModUnique(u1 * p, W64, 0, u1 * p);
    }
    OrDisjoint(u1, s, hi);
    assert BitOr(Shl(64, u1, s), hi) == Mul(u1, p) + hi;
    MulSplit(u1, u0, p);
  }

  lemma MulSplit(u1: nat, u0: nat, p: nat)
    ensures Mul(u1 * W64 + u0, p) == Mul(u1, p) * W64 + Mul(u0, p)
  {
  }

  /** A 64-bit word as two 32-bit digits. */
  lemma SplitWord(x: nat)
    requires x < W64
    ensures x == Shr(x, 32) * W32 + BitAnd(x, 0xFFFF_FFFF)
    ensures Shr(x, 32) < W32 && BitAnd(x, 0xFFFF_FFFF) < W32
  {
    hide Pow2, BitAnd;
    Pow2Words();
    AndLowMask(x, 32);
  }

  lemma WrapShift(x: int, k: int)
    ensures Wrap64(x + k * W64) == Wrap64(x)
  {
    DivModUnique(x + k * W64, W64, x / W64 + k, x % W64);
  }

  /** A wrapped difference that is a true remainder is that remainder. */
  lemma WrappedRemainder(n: nat, q: nat, v: nat)
    requires 0 < v < W64 && q == Quot(n, v)
    ensures Wrap64(Wrap64(n) - Wrap64(Mul(q, v))) == n - Mul(q, v) && n - Mul(q, v) < v
  {
    DivBounds(n, v);
    var p := Mul(q, v);
    assert p <= n < p + v;
    hide Mul, Quot;
    var a, b := n / W64, p / W64;
    WrapShift(Wrap64(n) - Wrap64(p), a - b);
    assert Wrap64(n) - Wrap64(p) + (a - b) * W64 == n - p;
    WrapSmall(n - p);
  }

  // ----- 128 by 64 bits

  /** The two digit divisions chain into the full quotient. */
  lemma ChainDigits(un64: nat, un1: nat, un0: nat, v: nat, q1: nat, q0: nat, un21: nat, rem: nat)
    requires un64 * W32 + un1 == Mul(q1, v) + un21
    requires un21 * W32 + un0 == Mul(q0, v) + rem
    ensures un64 * W64 + (un1 * W32 + un0) == Mul(q1 * W32 + q0, v) + rem
  {
    assert Mul(q1 * W32 + q0, v) == Mul(q1, v) * W32 + Mul(q0, v);
    hide Mul;
  }

  /** Undoing the normalisation of quotient and remainder. */
  lemma TimesDifference(x: int, y: int, p: int)
    ensures (x - y) * p == x * p - y * p
  {
  }

  lemma Denormalise(u: nat, v: nat, p: nat, q: nat, rem: nat)
    requires p > 0 && Mul(u, p) == Mul(q, Mul(v, p)) + rem && rem < Mul(v, p)
    ensures Quot(rem, p) < v && q * v + Quot(rem, p) == u
  {
    MulAssoc(q, v, p);
    var d := u - q * v;
    TimesDifference(u, q * v, p);
    assert d * p == rem;
    if d < 0 {
      MulMono(d, -1, p);
      assert false;
    }
    MulCancel(d, v, p);
    QuotUnique(rem, p, d, 0);
  }

  /**
   `udiv128by64to64default`: the quotient of the two-word number `u1:u0` by `v`
   with its remainder, by normalisation and two quotient digits.
   */
  method Udiv128By64(u1: nat, u0: nat, v: nat) returns (q: nat, r: nat)
    requires u1 < v < W64 && u0 < W64
    ensures q < W64 && r < v && q * v + r == u1 * W64 + u0
  {
    hide Mul, Quot, ExactDigit, Wrap64, BitAnd, BitOr, Shl, Pow2;
    Pow2Words();
    var s := Clz(64, v);
    NormalisedDivisor(v, s);
    var vn, un64, un10 := v, u1, u0;
    ghost var p := Pow2(s);
    if s > 0 {
      vn := Shl(64, v, s);
      un64 := BitOr(Shl(64, u1, s), Shr(u0, 64 - s));
      un10 := Shl(64, u0, s);
      NormalisedDividend(u1, u0, v, s);
    } else {
      MulOne(v);
      MulOne(u1 * W64 + u0);
    }
    assert un64 * W64 + un10 == Mul(u1 * W64 + u0, p) && vn == Mul(v, p);

    var vn1, vn0 := Shr(vn, 32), BitAnd(vn, 0xFFFF_FFFF);
    var un1, un0 := Shr(un10, 32), BitAnd(un10, 0xFFFF_FFFF);
    SplitWord(vn);
    SplitWord(un10);
    hide Shr;

    ghost var rounds;
    var q1;
    q1, rounds := QuotientDigit(un64, un1, vn1, vn0);
    WrappedDigit(un64, un1, vn, vn1, vn0, q1);
    var un21 := Wrap64(Wrap64(un64 * W32 + un1) - Wrap64(Mul(q1, vn)));

    var q0;
    q0, rounds := QuotientDigit(un21, un0, vn1, vn0);
    WrappedDigit(un21, un0, vn, vn1, vn0, q0);
    var rem := Wrap64(Wrap64(un21 * W32 + un0) - Wrap64(Mul(q0, vn)));

    r := Shr(rem, s);
    WrapSmall(q1 * W32 + q0);
    q := Wrap64(q1 * W32 + q0);
    ChainDigits(un64, un1, un0, vn, q1, q0, un21, rem);
    Denormalise(u1 * W64 + u0, v, p, q, rem);
    assert r == Quot(rem, p) by { ShrIsQuot(rem, s); }
  }

  lemma ShrIsQuot(x: nat, s: nat)
    ensures Shr(x, s) == Quot(x, Pow2(s))
  {
  }

  lemma MulOne(x: nat)
    ensures Mul(x, Pow2(0)) == x
  {
  }

  lemma WrappedDigit(un: nat, d: nat, vn: nat, vn1: nat, vn0: nat, q: nat)
    requires 0 < vn1 && vn == vn1 * W32 + vn0 < W64 && q == ExactDigit(un, d, vn1, vn0)
    ensures var rem := Wrap64(Wrap64(un * W32 + d) - Wrap64(Mul(q, vn)));
            rem < vn && un * W32 + d == Mul(q, vn) + rem
  {
    hide Mul, Quot, Wrap64;
    WrappedRemainder(un * W32 + d, q, vn);
  }

  // ----- 128 by 128 bits

  function High(x: nat): nat { x / W64 }

  function Low(x: nat): nat { x % W64 }

  /** Dividing the high word first leaves a two-word dividend below the divisor. */
  lemma HighThenLow(a: nat, b: nat, qh: nat, rh: nat, ql: nat, r: nat)
    requires b > 0 && qh == Quot(High(a), b) && rh == Rem(High(a), b)
    requires ql * b + r == rh * W64 + Low(a)
    ensures (qh * W64 + ql) * b + r == a
  {
    assert (qh * W64 + ql) * b == (qh * b) * W64 + ql * b;
    assert a == High(a) * W64 + Low(a);
  }

  /** `q` copies of `b * 2^k` have been taken out of `a`, and `r` is left. */
  ghost predicate Taken(a: nat, b: nat, q: nat, r: nat, k: nat)
  {
    a == Mul(q, Mul(b, Pow2(k))) + r && r < Mul(b, Pow2(k))
  }

  lemma FirstTaken(a: nat, b: nat, k: nat)
    requires a < 2 * Mul(b, Pow2(k))
    ensures Taken(a, b, 0, a, k + 1)
  {
    MulDouble(b, k);
  }

  lemma MulDouble(b: nat, k: nat)
    ensures Mul(b, Pow2(k + 1)) == 2 * Mul(b, Pow2(k))
  {
  }

  lemma TakeStep(a: nat, b: nat, q: nat, r: nat, k: nat, d: nat)
    requires Taken(a, b, q, r, k + 1) && d == Mul(b, Pow2(k))
    ensures r < 2 * d && r <= a
    ensures if r >= d then Taken(a, b, 2 * q + 1, r - d, k) else Taken(a, b, 2 * q, r, k)
  {
    MulDouble(b, k);
    assert Mul(q, 2 * d) == Mul(2 * q, d) && Mul(2 * q + 1, d) == Mul(2 * q, d) + d;
    hide Pow2;
  }

  lemma TakenAll(a: nat, b: nat, q: nat, r: nat)
    requires Taken(a, b, q, r, 0)
    ensures q * b + r == a && r < b
  {
  }

  lemma HalveDivisor(b: nat, k: nat)
    requires k > 0
    ensures Shr(Mul(b, Pow2(k)), 1) == Mul(b, Pow2(k - 1))
  {
    MulDouble(b, k - 1);
    assert Pow2(1) == 2;
  }

  /** The new quotient bit is or-ed into the freed low bit. */
  lemma PushBit(q: nat, n: nat, m: nat)
    requires n < 64 && q < Pow2(n) && Pow2(64) == W64 && Pow2(128) == W128
    requires m == 0 || m == W128 - 1
    ensures BitOr(Shl(64, q, 1), BitAnd(m, 1)) == 2 * q + (if m == 0 then 0 else 1)
    ensures 2 * q + 1 < Pow2(n + 1)
  {
    hide Pow2, BitAnd, BitOr, Shl;
    Pow2Next(n);
    Pow2Mono(n + 1, 64);
    ShlOne(64, q);
    MaskBit(128, m);
    OrDisjoint(q, 1, BitAnd(m, 1));
  }

  lemma DoubleWordClz(x: nat)
    requires x < W128 && High(x) > 0 && Pow2(64) == W64
    ensures High(x) < W64
    ensures var c := Clz(64, High(x)); Pow2(127 - c) <= x < Pow2(128 - c)
  {
    assert x == High(x) * W64 + Low(x) && High(x) < W64;
    HalvesClz(64, High(x), Low(x));
  }

  lemma HighMono(a: nat, b: nat)
    requires b <= a
    ensures High(b) <= High(a)
  {
  }

  /** The divisor is shifted up to the dividend's top bit; `0 <= shift <= 63`. */
  lemma AlignDivisor(a: nat, b: nat)
    requires b <= a < W128 && High(b) > 0 && Pow2(64) == W64 && Pow2(128) == W128 && Pow2(127) == W127
    ensures 0 < High(b) <= High(a) < W64
    ensures var shift := Clz(64, High(b)) - Clz(64, High(a));
            && 0 <= shift <= 63 && Taken(a, b, 0, a, shift + 1)
            && Shl(128, b, shift) == Mul(b, Pow2(shift)) < W128
            && (Mul(b, Pow2(shift)) < W127 || a >= W127)
  {
    hide Pow2, Taken, Mul, Shl, High, BitLength;
    HighMono(a, b);
    DoubleWordClz(a);
    DoubleWordClz(b);
    ClzMono(64, High(b), High(a));
    var ca, cb := Clz(64, High(a)), Clz(64, High(b));
    AlignTop(128, a, b, ca, cb);
    FirstTaken(a, b, cb - ca);
  }

  /** The normalised shift-subtract loop, for divisors of more than 64 bits. */
  method ShiftSubtract(a: nat, b: nat) returns (q: nat, rem: nat)
    requires b <= a < W128 && High(b) > 0
    ensures q * b + rem == a && rem < b
  {
    Pow2Words();
    hide Mul, Pow2, Taken, Shl, Shr, BitAnd, BitOr, CompareMask, Clz;
    AlignDivisor(a, b);
    var shift: int := Clz(64, High(b)) - Clz(64, High(a));
    ghost var first := shift;
    var divisor: nat, dividend: nat, quotient: nat := Shl(128, b, shift), a, 0;
    hide High;
    while shift >= 0
      invariant -1 <= shift <= first <= 63
      invariant Taken(a, b, quotient, dividend, shift + 1)
      invariant shift >= 0 ==> divisor == Mul(b, Pow2(shift)) < W128
      invariant shift >= 0 ==> divisor < W127 || dividend >= W127
      invariant quotient < Pow2(first - shift)
    {
      TakeStep(a, b, quotient, dividend, shift, divisor);
      CompareMaskExact(128, divisor, dividend);
      var s := CompareMask(128, divisor, dividend);
      PushBit(quotient, first - shift, s);
      SubtractMasked(128, W128, divisor, dividend, s);
      quotient := BitOr(Shl(64, quotient, 1), BitAnd(s, 1));
      dividend := (dividend - BitAnd(divisor, s)) % W128;
      if shift > 0 {
        HalveDivisor(b, shift);
        MulDouble(b, shift - 1);
      }
      divisor := Shr(divisor, 1);
      shift := shift - 1;
    }
    TakenAll(a, b, quotient, dividend);
    q, rem := quotient, dividend;
  }

  /** `__udivmodti4`: for every divisor but zero, the exact quotient and remainder. */
  method Udivmodti4(a: nat, b: nat) returns (q: nat, rem: nat)
    requires a < W128 && 0 < b < W128
    ensures q * b + rem == a && rem < b
  {
    if b > a {
      return 0, a;
    }
    if High(b) == 0 {
      if High(a) < b {
        q, rem := Udiv128By64(High(a), Low(a), b);
      } else {
        var qh, rh := Quot(High(a), b), Rem(High(a), b);
        var ql, r := Udiv128By64(rh, Low(a), b);
        HighThenLow(a, b, qh, rh, ql, r);
        q, rem := qh * W64 + ql, r;
      }
    } else {
      q, rem := ShiftSubtract(a, b);
    }
  }
}
