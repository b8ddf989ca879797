/**
 64-bit unsigned and signed division on a 32-bit machine,
 compile-rt-builtins/udivmoddi4.c and compile-rt-builtins/divmoddi4.c.  The
 64-bit values are pairs of 32-bit words, as in the C unions.
 */
module NarrowDivision {
  import opened Words

  // ----- shifts of a two-word number

  function Join(h: nat, l: nat): (x: nat) { h * W32 + l }

  function HighWord(x: nat): (h: nat)
    ensures x < W64 ==> h < W32
  {
    x / W32
  }

  function LowWord(x: nat): (l: nat)
    ensures l < W32
  {
    x % W32
  }

  lemma JoinSplit(x: nat)
    ensures Join(HighWord(x), LowWord(x)) == x
  {
  }

  lemma AddQuotient(y: nat, k: nat, z: nat)
    requires k > 0
    ensures (y * k + z) / k == y + z / k && (y * k + z) % k == z % k
  {
    DivModUnique(y * k + z, k, y + z / k, z % k);
  }

  lemma Complementary(t: nat)
    requires 0 < t < 32
    ensures Pow2(t) * Pow2(32 - t) == W32
  {
    Pow2Words();
    Pow2Add(t, 32 - t);
  }

  /** A left shift by `32 - t` keeps the low `t` bits and moves them up. */
  lemma ShiftUp(l: nat, t: nat)
    requires l < W32 && 0 < t < 32
    ensures Shl(32, l, 32 - t) == Mul(Rem(l, Pow2(t)), Pow2(32 - t))
    ensures Mul(l, Pow2(32 - t)) == Shr(l, t) * W32 + Shl(32, l, 32 - t)
    ensures Shr(l, t) < Pow2(32 - t)
  {
    Pow2Words();
    Complementary(t);
    ScaleDown(l, Pow2(t), Pow2(32 - t), W32);
  }

  lemma ScaleDown(x: nat, k: nat, m: nat, w: nat)
    requires k > 0 && m > 0 && w == k * m && x < w
    ensures x * m % w == (x % k) * m && x * m == (x / k) * w + (x % k) * m && x / k < m
  {
    var hi, lo := x / k, x % k;
    assert x == hi * k + lo;
    assert x * m == hi * w + lo * m by {
      assert (hi * k) * m == hi * (k * m);
    }
    MulStrict(lo, k, m);
    assert 0 <= lo * m;
    DivModUnique(x * m, w, hi, lo * m);
    MulCancel(hi, m, k);
  }

  /** `(h << (32 - t)) | (l >> t)`: the word that straddles two halves. */
  lemma Straddle(h: nat, l: nat, t: nat)
    requires h < W32 && l < W32 && 0 < t < 32
    ensures BitOr(Shl(32, h, 32 - t), Shr(l, t)) == Shl(32, h, 32 - t) + Shr(l, t) < W32
  {
    hide Mul, Rem, BitOr, Shl, Shr;
    ShiftUp(h, t);
    ShiftUp(l, t);
    StraddleOr(Rem(h, Pow2(t)), 32 - t, Shr(l, t));
    StraddleFits(h, t, Shr(l, t));
  }

  lemma StraddleOr(hi: nat, k: nat, lo: nat)
    requires lo < Pow2(k)
    ensures BitOr(Mul(hi, Pow2(k)), lo) == Mul(hi, Pow2(k)) + lo
  {
    OrDisjoint(hi, k, lo);
  }

  lemma StraddleFits(h: nat, t: nat, lo: nat)
    requires 0 < t < 32 && lo < Pow2(32 - t)
    ensures Mul(Rem(h, Pow2(t)), Pow2(32 - t)) + lo < W32
  {
    hide Pow2, Rem;
    Complementary(t);
    MulMono(Rem(h, Pow2(t)) + 1, Pow2(t), Pow2(32 - t));
  }

  /**
   What the shift-subtract loop starts from: `q` holds the low `sr` bits of the
   dividend at its top, `r` the rest.
   */
  ghost predicate Loaded(n: nat, sr: nat, q: nat, r: nat)
    requires sr <= 64
  {
    q == Mul(Rem(n, Pow2(sr)), Pow2(64 - sr)) && r == Quot(n, Pow2(sr))
  }

  /** The initialisation for `1 <= sr <= 31`. */
  lemma LoadShort(nh: nat, nl: nat, sr: nat)
    requires nh < W32 && nl < W32 && 0 < sr < 32
    ensures Loaded(Join(nh, nl), sr, Join(Shl(32, nl, 32 - sr), 0),
                   Join(Shr(nh, sr), BitOr(Shl(32, nh, 32 - sr), Shr(nl, sr))))
  {
    hide Mul, Quot, Rem, Pow2, Shl, BitOr, Shr;
    var k, m := Pow2(sr), Pow2(32 - sr);
    ShiftUp(nh, sr);
    ShiftUp(nl, sr);
    Straddle(nh, nl, sr);
    Complementary(sr);
    ShortQuotient(nh, nl, k, m);
    QuotShr(nl, sr);
    assert Pow2(64 - sr) == m * W32 by {
      Pow2Words();
      Pow2Add(32 - sr, 32);
    }
    MulAssoc(Rem(nl, k), m, W32);
  }

  lemma ShortQuotient(nh: nat, nl: nat, k: nat, m: nat)
    requires k > 0 && k * m == W32
    ensures Quot(nh * W32 + nl, k) == Mul(nh, m) + Quot(nl, k)
    ensures Rem(nh * W32 + nl, k) == Rem(nl, k)
  {
    assert nh * W32 == (nh * m) * k by { assert (nh * m) * k == nh * (k * m); }
    AddQuotient(nh * m, k, nl);
  }

  lemma QuotShr(x: nat, s: nat)
    ensures Quot(x, Pow2(s)) == Shr(x, s)
  {
  }

  /** The initialisation for `sr == 32`. */
  lemma LoadWord(nh: nat, nl: nat)
    requires nh < W32 && nl < W32
    ensures Loaded(Join(nh, nl), 32, Join(nl, 0), Join(0, nh))
  {
    Pow2Words();
    hide Pow2;
    AddQuotient(nh, W32, nl);
    DivModUnique(nl, W32, 0, nl);
  }

  /** The initialisation for `33 <= sr <= 63`. */
  lemma LoadLong(nh: nat, nl: nat, sr: nat)
    requires nh < W32 && nl < W32 && 32 < sr < 64
    ensures Loaded(Join(nh, nl), sr,
                   Join(BitOr(Shl(32, nh, 64 - sr), Shr(nl, sr - 32)), Shl(32, nl, 64 - sr)),
                   Join(0, Shr(nh, sr - 32)))
  {
    hide Mul, Quot, Rem, Pow2, Shl, BitOr, Shr;
    var t := sr - 32;
    var k, m := Pow2(t), Pow2(32 - t);
    ShiftUp(nh, t);
    ShiftUp(nl, t);
    Straddle(nh, nl, t);
    assert Pow2(sr) == W32 * k by {
      Pow2Words();
      Pow2Add(32, t);
    }
    LongQuotient(nh, nl, k);
    QuotShr(nh, t);
    LongProduct(Rem(nh, k), nl, m);
  }

  lemma LongQuotient(nh: nat, nl: nat, k: nat)
    requires k > 0 && nl < W32
    ensures Quot(nh * W32 + nl, W32 * k) == Quot(nh, k)
    ensures Rem(nh * W32 + nl, W32 * k) == Rem(nh, k) * W32 + nl
  {
    var q, r := nh / k, nh % k;
    assert nh == q * k + r;
    assert nh * W32 + nl == q * (W32 * k) + (r * W32 + nl) by {
      assert (q * k) * W32 == q * (W32 * k);
    }
    MulMono(r + 1, k, W32);
    DivModUnique(nh * W32 + nl, W32 * k, q, r * W32 + nl);
  }

  lemma LongProduct(r: nat, nl: nat, m: nat)
    ensures Mul(r * W32 + nl, m) == Mul(r, m) * W32 + Mul(nl, m)
  {
  }

  // ----- the shift-subtract loop

  /** The bit that leaves the quotient register, and the register after it has left. */
  function OutBit(q: nat): (t: nat) { q / W63 }

  function ShiftIn(q: nat, carry: nat): (r: nat) { (2 * q + carry) % W64 }

  /** One-bit shift of a two-word number with a bit shifted in at the bottom. */
  lemma ShiftPair(h: nat, l: nat, bit: nat)
    requires h < W32 && l < W32 && bit < 2
    ensures BitOr(Shl(32, h, 1), Shr(l, 31)) < W32 && BitOr(Shl(32, l, 1), bit) < W32
    ensures Join(BitOr(Shl(32, h, 1), Shr(l, 31)), BitOr(Shl(32, l, 1), bit)) == ShiftIn(Join(h, l), bit)
  {
    SplitTop(h);
    SplitTop(l);
    DoubleWord(h);
    DoubleWord(l);
    LowBitOr(BelowTop(h), Shr(l, 31));
    LowBitOr(BelowTop(l), bit);
    DoubledPair(Join(h, l), Shr(h, 31), BelowTop(h), Shr(l, 31), BelowTop(l), bit);
    hide BitOr, Shl, Shr, BelowTop, ShiftIn;
  }

  function BelowTop(x: nat): (r: nat) { x % 0x8000_0000 }

  lemma DoubledPair(x: nat, th: nat, rh: nat, tl: nat, rl: nat, bit: nat)
    requires th < 2 && tl < 2 && rh < 0x8000_0000 && rl < 0x8000_0000 && bit < 2
    requires x == (th * 0x8000_0000 + rh) * W32 + (tl * 0x8000_0000 + rl)
    ensures ShiftIn(x, bit) == (2 * rh + tl) * W32 + (2 * rl + bit)
  {
    DivModUnique(2 * x + bit, W64, th, (2 * rh + tl) * W32 + (2 * rl + bit));
  }

  lemma SplitTop(x: nat)
    requires x < W32
    ensures Shr(x, 31) < 2 && BelowTop(x) < 0x8000_0000 && x == Shr(x, 31) * 0x8000_0000 + BelowTop(x)
  {
    Pow2Words();
  }

  lemma DoubleWord(x: nat)
    requires x < W32
    ensures Shl(32, x, 1) == 2 * BelowTop(x)
  {
    Pow2Words();
    assert Pow2(1) == 2;
    hide Pow2;
    DivModUnique(x * 2, W32, x / 0x8000_0000, 2 * BelowTop(x));
  }

  lemma LowBitOr(x: nat, bit: nat)
    requires bit < 2
    ensures BitOr(2 * x, bit) == 2 * x + bit
  {
    assert Pow2(1) == 2;
    OrDisjoint(x, 1, bit);
  }

  /**
   With `k` bits still to bring down: the top `k` bits of `q` are the low bits
   of `n`, the rest of `q` (namely `p`) with `carry` below it is the quotient so far.
   */
  ghost predicate Progress(n: nat, d: nat, k: nat, q: nat, p: nat, carry: nat, r: nat)
    requires k <= 64
  {
    && q == Mul(Rem(n, Pow2(k)), Pow2(64 - k)) + p
    && p < Pow2(64 - k) && carry < 2
    && Quot(n, Pow2(k)) == Mul(2 * p + carry, d) + r && r < d
  }

  lemma StartProgress(n: nat, d: nat, sr: nat, q: nat, r: nat)
    requires sr < 64 && Loaded(n, sr, q, r) && r < d
    ensures Progress(n, d, sr, q, 0, 0, r)
  {
  }

  lemma EndProgress(n: nat, d: nat, q: nat, p: nat, carry: nat, r: nat)
    requires Progress(n, d, 0, q, p, carry, r)
    ensures (2 * q + carry) * d + r == n && r < d && carry < 2
  {
    assert Rem(n, 1) == 0;
    assert Quot(n, 1) == n;
  }

  function BitAbove(n: nat, half: nat): (t: nat)
    requires half > 0
  {
    Quot(Rem(n, 2 * half), half)
  }

  lemma DoubleFactor(x: nat, m: nat)
    ensures Mul(x, 2 * m) == 2 * Mul(x, m)
  {
  }

  /** Splitting off the top one of `k` low bits. */
  lemma NextBit(n: nat, half: nat)
    requires half > 0
    ensures var t := BitAbove(n, half);
            && t < 2 && Rem(n, 2 * half) == Mul(t, half) + Rem(n, half)
            && Quot(n, half) == 2 * Quot(n, 2 * half) + t
  {
    var q, m := n / (2 * half), n % (2 * half);
    assert n == q * (2 * half) + m;
    var t, low := m / half, m % half;
    assert m == t * half + low;
    assert t < 2 by { MulCancel(t, 2, half); }
    assert n == (2 * q + t) * half + low by { assert q * (2 * half) == (2 * q) * half; }
    DivModUnique(n, half, 2 * q + t, low);
  }

  /** Where that bit sits in the quotient register. */
  lemma TopBit(low: nat, t: nat, half: nat, m: nat, p: nat)
    requires half > 0 && half * m == W63 && low < half && p < m && t < 2
    ensures var q := Mul(Mul(t, half) + low, m) + p;
            q == t * W63 + (Mul(low, m) + p) && Mul(low, m) + p < W63
  {
    assert Mul(Mul(t, half) + low, m) == t * (half * m) + Mul(low, m);
    MulMono(low + 1, half, m);
  }

  /** One bit moves from the top of `q` to the bottom of `r`. */
  lemma BringDown(n: nat, k: nat, q: nat, p: nat, carry: nat)
    requires 0 < k <= 64 && p < Pow2(64 - k) && carry < 2
    requires q == Mul(Rem(n, Pow2(k)), Pow2(64 - k)) + p
    ensures q < W64 && OutBit(q) < 2
    ensures Quot(n, Pow2(k - 1)) == 2 * Quot(n, Pow2(k)) + OutBit(q)
    ensures ShiftIn(q, carry) == Mul(Rem(n, Pow2(k - 1)), Pow2(65 - k)) + (2 * p + carry)
    ensures 2 * p + carry < Pow2(65 - k)
  {
    hide Pow2;
    var half, m := Pow2(k - 1), Pow2(64 - k);
    Pow2Next(k - 1);
    Pow2Next(64 - k);
    assert half * m == W63 by {
      Pow2Words();
      Pow2Add(k - 1, 64 - k);
    }
    NextBit(n, half);
    var t, low := BitAbove(n, half), Rem(n, half);
    TopBit(low, t, half, m, p);
    DoubleFactor(low, m);
    hide Mul, Quot, Rem, BitAbove, OutBit, ShiftIn;
    RegisterShift(q, t, Mul(low, m) + p, carry);
  }

  lemma ProgressStep(n: nat, d: nat, k: nat, q: nat, p: nat, carry: nat, r: nat, q2: nat, p2: nat, r2: nat)
    requires 0 < k <= 64 && Progress(n, d, k, q, p, carry, r)
    requires q2 == ShiftIn(q, carry) && p2 == 2 * p + carry && r2 == 2 * r + OutBit(q)
    ensures q < W64 && OutBit(q) < 2
    ensures if r2 >= d then Progress(n, d, k - 1, q2, p2, 1, r2 - d)
            else Progress(n, d, k - 1, q2, p2, 0, r2)
    ensures k == 1 ==> r2 + Mul(2 * p2, d) == n
  {
    hide Mul, Quot, Rem, Pow2, OutBit, ShiftIn;
    BringDown(n, k, q, p, carry);
    DoubleQuotient(p2, d);
    PowZero();
    QuotOne(n);
    assert Quot(n, Pow2(k - 1)) == Mul(2 * p2, d) + r2;
  }

  lemma RegisterShift(q: nat, t: nat, rest: nat, carry: nat)
    requires t < 2 && rest < W63 && q == t * W63 + rest && carry < 2
    ensures q < W64 && OutBit(q) == t && ShiftIn(q, carry) == 2 * rest + carry
  {
    DivModUnique(q, W63, t, rest);
    DivModUnique(2 * q + carry, W64, t, 2 * rest + carry);
  }

  lemma PowZero()
    ensures Pow2(0) == 1
  {
  }

  lemma QuotOne(n: nat)
    ensures Quot(n, 1) == n
  {
  }

  lemma DoubleQuotient(p: nat, d: nat)
    ensures Mul(2 * p, d) == 2 * Mul(p, d) && Mul(2 * p + 1, d) == Mul(2 * p, d) + d
  {
  }

  lemma OutBitOfPair(h: nat, l: nat)
    requires h < W32 && l < W32
    ensures Shr(h, 31) == OutBit(Join(h, l)) < 2
  {
    SplitTop(h);
    DivModUnique(h * W32 + l, W63, Shr(h, 31), BelowTop(h) * W32 + l);
  }

  lemma NoOverflow(x: nat, bit: nat)
    requires 2 * x + bit < W64
    ensures ShiftIn(x, bit) == 2 * x + bit
  {
    DivModUnique(2 * x + bit, W64, 0, 2 * x + bit);
  }

  /** The quotient cannot overflow when the last bit is shifted in. */
  lemma LastShift(n: nat, d: nat, q: nat, carry: nat, r: nat)
    requires n < W64 && (2 * q + carry) * d + r == n && 0 < d && carry < 2
    ensures BitOr(Shl(64, q, 1), carry) == 2 * q + carry
  {
    MulMono(1, d, 2 * q + carry);
    assert Shl(64, q, 1) == 2 * q by {
      hide Pow2;
      Pow2Words();
      ShlOne(64, q);
    }
    LowBitOr(q, carry);
  }

  /** Why the shifted remainder fits a word and compares correctly. */
  lemma RoundFits(n: nat, d: nat, sr: nat, r: nat, bit: nat, p: nat)
    requires n < W64 && d < W64 && r < d && bit < 2
    requires d < W63 || (sr == 1 && n >= W63)
    requires sr == 1 ==> 2 * r + bit + Mul(2 * p, d) == n
    ensures var r2 := 2 * r + bit; r2 < W64 && r2 < 2 * d && (d < W63 || r2 >= W63)
  {
    if d >= W63 && p > 0 {
      MulMono(2, 2 * p, d);
    }
  }

  /** One turn of the loop: shift `r:q` left by one, then compare and subtract. */
  method Round(d: nat, qh: nat, ql: nat, carry: nat, r: nat) returns (qh': nat, ql': nat, carry': nat, r': nat)
    requires qh < W32 && ql < W32 && carry < 2 && d < W64
    requires var r2 := 2 * r + OutBit(Join(qh, ql));
             r2 < W64 && r2 < 2 * d && (d < W63 || r2 >= W63)
    ensures qh' < W32 && ql' < W32 && Join(qh', ql') == ShiftIn(Join(qh, ql), carry)
    ensures var r2 := 2 * r + OutBit(Join(qh, ql));
            if r2 >= d then carry' == 1 && r' == r2 - d else carry' == 0 && r' == r2
  {
    hide Pow2, BitAnd, BitOr, Shl, Shr, OutBit, ShiftIn, CompareMask, HighWord, LowWord, Join;
    var rh: nat, rl: nat := HighWord(r), LowWord(r);
    JoinSplit(r);
    OutBitOfPair(qh, ql);
    ShiftPair(rh, rl, Shr(qh, 31));
    ShiftPair(qh, ql, carry);
    NoOverflow(r, Shr(qh, 31));
    rh, rl := BitOr(Shl(32, rh, 1), Shr(rl, 31)), BitOr(Shl(32, rl, 1), Shr(qh, 31));
    qh', ql' := BitOr(Shl(32, qh, 1), Shr(ql, 31)), BitOr(Shl(32, ql, 1), carry);
    carry', r' := CompareSubtract(d, Join(rh, rl));
  }

  /** The branch-free `if (r >= d) { r -= d; carry = 1; }`. */
  method CompareSubtract(d: nat, r: nat) returns (carry: nat, r': nat)
    requires d < W64 && r < W64 && r < 2 * d && (d < W63 || r >= W63)
    ensures if r >= d then carry == 1 && r' == r - d else carry == 0 && r' == r
  {
    Pow2Words();
    hide Pow2, BitAnd, CompareMask;
    CompareMaskExact(64, d, r);
    var s := CompareMask(64, d, r);
    SubtractMasked(64, W64, d, r, s);
    carry := BitAnd(s, 1);
    r' := (r - BitAnd(d, s)) % W64;
  }

  /** The loop from a loaded register pair, with the final carry shifted in. */
  method ShiftSubtract(n: nat, d: nat, sr0: nat, q0: nat, r0: nat) returns (q: nat, r: nat)
    requires n < W64 && d < W64 && 0 < sr0 < 64 && q0 < W64 && r0 < d
    requires Loaded(n, sr0, q0, r0)
    requires d < W63 || (sr0 == 1 && n >= W63)
    ensures q * d + r == n && r < d
  {
    hide Progress, Loaded, Pow2, BitAnd, BitOr, Shl, Shr, OutBit, ShiftIn, Join, HighWord, LowWord, Mul;
    StartProgress(n, d, sr0, q0, r0);
    JoinSplit(q0);
    ghost var p: nat := 0;
    var qh: nat, ql: nat := HighWord(q0), LowWord(q0);
    var carry: nat := 0;
    var sr: nat := sr0;
    r := r0;
    while sr > 0
      invariant sr <= sr0 && qh < W32 && ql < W32 && carry < 2
      invariant Progress(n, d, sr, Join(qh, ql), p, carry, r) && r < d
    {
      var bit := OutBit(Join(qh, ql));
      ProgressStep(n, d, sr, Join(qh, ql), p, carry, r, ShiftIn(Join(qh, ql), carry), 2 * p + carry, 2 * r + bit);
      RoundFits(n, d, sr, r, bit, 2 * p + carry);
      p := 2 * p + carry;
      qh, ql, carry, r := Round(d, qh, ql, carry, r);
      sr := sr - 1;
    }
    EndProgress(n, d, Join(qh, ql), p, carry, r);
    LastShift(n, d, Join(qh, ql), carry, r);
    q := BitOr(Shl(64, Join(qh, ql), 1), carry);
  }

  // ----- the special cases of __udivmoddi4

  /** `K 0 / K 0`. */
  lemma HighOverHigh(nh: nat, nl: nat, dh: nat)
    requires dh > 0 && nl < W32
    ensures Quot(nh, dh) * Join(dh, 0) + Join(Rem(nh, dh), nl) == Join(nh, nl)
    ensures Join(Rem(nh, dh), nl) < Join(dh, 0)
  {
    var q, r := Quot(nh, dh), Rem(nh, dh);
    assert nh == q * dh + r;
    assert q * (dh * W32) == (q * dh) * W32;
  }

  /** The power-of-two shortcut on one word. */
  lemma PowerShortcut(x: nat, d: nat)
    requires 0 < d < W32 && BitAnd(d, d - 1) == 0
    ensures d == Pow2(Ctz(d)) && Ctz(d) < 32
    ensures BitAnd(x, d - 1) == Rem(x, d) && Shr(x, Ctz(d)) == Quot(x, d)
  {
    PowerOfTwoTest(d);
    AndLowMask(x, Ctz(d));
    Pow2Words();
    if Ctz(d) >= 32 {
      Pow2Mono(32, Ctz(d));
    }
  }

  /** `K X / 0 2^k`: the quotient is a two-word right shift. */
  lemma PowerOverLow(nh: nat, nl: nat, k: nat)
    requires nh < W32 && nl < W32 && 0 < k < 32
    ensures var q := Join(Shr(nh, k), BitOr(Shl(32, nh, 32 - k), Shr(nl, k)));
            q * Pow2(k) + Rem(nl, Pow2(k)) == Join(nh, nl)
  {
    LoadShort(nh, nl, k);
    Complementary(k);
    ShortQuotient(nh, nl, Pow2(k), Pow2(32 - k));
    QuotRem(Join(nh, nl), Pow2(k));
    var q := Join(Shr(nh, k), BitOr(Shl(32, nh, 32 - k), Shr(nl, k)));
    LoadedRest(Join(nh, nl), k, Join(Shl(32, nl, 32 - k), 0), q);
    assert Rem(Join(nh, nl), Pow2(k)) == Rem(nl, Pow2(k));
    hide *;
  }

  lemma TopWordSmaller(nh: nat, dh: nat)
    requires 0 < nh < W32 && 0 < dh < W32 && Pow2(32) == W32
    requires Clz(32, dh) < Clz(32, nh)
    ensures nh < dh
  {
    Pow2Mono(32 - Clz(32, nh), 31 - Clz(32, dh));
  }

  /** A divisor word with 31 leading zeros is 1, and 1 passes the power-of-two test. */
  lemma NotOne(d: nat)
    requires 0 < d < W32 && Pow2(32) == W32 && BitAnd(d, d - 1) != 0
    ensures Clz(32, d) <= 30
  {
    assert Pow2(0) == 1 && Pow2(1) == 2;
    assert BitAnd(1, 0) == 0;
  }

  /** Shifting down to below the divisor's top bit leaves less than the divisor. */
  lemma ShiftedBelow(n: nat, top: nat, sr: nat, d: nat)
    requires sr <= top && n < Pow2(top) && Pow2(top - sr) <= d
    ensures Quot(n, Pow2(sr)) < d
  {
    Pow2Add(top - sr, sr);
    var k := Pow2(sr);
    DivBounds(n, k);
    MulCancel(n / k, Pow2(top - sr), k);
  }

  lemma JoinClz(h: nat, l: nat)
    requires 0 < h < W32 && l < W32 && Pow2(32) == W32
    ensures var c := Clz(32, h); Pow2(63 - c) <= Join(h, l) < Pow2(64 - c)
  {
    HalvesClz(32, h, l);
  }

  /** Two nonzero top words: `sr` is one more than the difference of leading zeros. */
  lemma LoadHigh(nh: nat, nl: nat, dh: nat, dl: nat)
    requires 0 < nh < W32 && nl < W32 && 0 < dh < W32 && dl < W32 && Pow2(32) == W32
    requires Clz(32, nh) <= Clz(32, dh)
    ensures var sr := Clz(32, dh) - Clz(32, nh) + 1; var n, d := Join(nh, nl), Join(dh, dl);
            && n < W64 && d < W64 && Quot(n, Pow2(sr)) < d && (d < W63 || (sr == 1 && n >= W63))
  {
    hide Join, Pow2, Quot, Clz;
    var cn, cd := Clz(32, nh), Clz(32, dh);
    JoinClz(nh, nl);
    JoinClz(dh, dl);
    ShiftedBelow(Join(nh, nl), 64 - cn, cd - cn + 1, Join(dh, dl));
    JoinBound(nh, nl);
    JoinBound(dh, dl);
    assert Pow2(63) == W63 by { Pow2Words(); }
    if cd > 0 {
      Pow2Mono(64 - cd, 63);
    }
  }

  /** A one-word divisor: `sr` spans the low word as well. */
  lemma LoadLow(nh: nat, nl: nat, dl: nat)
    requires 0 < nh < W32 && nl < W32 && 0 < dl < W32 && Pow2(32) == W32 && BitAnd(dl, dl - 1) != 0
    ensures var sr := 33 + Clz(32, dl) - Clz(32, nh); 2 <= sr <= 63 && Quot(Join(nh, nl), Pow2(sr)) < dl
  {
    hide Pow2, BitAnd, Clz, Quot, Join;
    NotOne(dl);
    var cn, cd := Clz(32, nh), Clz(32, dl);
    JoinClz(nh, nl);
    ShiftedBelow(Join(nh, nl), 64 - cn, 33 + cd - cn, dl);
  }

  function Wrap32(x: int): (r: nat)
    ensures r < W32
    ensures 0 <= x < W32 ==> r == x
    ensures -32 <= x < 0 ==> r > 31
  {
    x % W32
  }

  /** Loading the registers for two nonzero top words, `1 <= sr <= 32`. */
  method AlignedDivide(nh: nat, nl: nat, dh: nat, dl: nat, sr: nat) returns (q: nat, rem: nat)
    requires 0 < nh < W32 && nl < W32 && 0 < dh < W32 && dl < W32 && Pow2(32) == W32
    requires 1 <= sr == Clz(32, dh) - Clz(32, nh) + 1
    ensures q * Join(dh, dl) + rem == Join(nh, nl) && rem < Join(dh, dl)
  {
    hide Pow2, Quot, Rem, Clz, Shl, Shr, BitOr, Loaded, Join;
    LoadHigh(nh, nl, dh, dl);
    var q0, r0;
    if sr == 32 {
      LoadWord(nh, nl);
      JoinBound(nl, 0);
      q0, r0 := Join(nl, 0), Join(0, nh);
    } else {
      LoadShort(nh, nl, sr);
      JoinBound(Shl(32, nl, 32 - sr), 0);
      q0 := Join(Shl(32, nl, 32 - sr), 0);
      r0 := Join(Shr(nh, sr), BitOr(Shl(32, nh, 32 - sr), Shr(nl, sr)));
    }
    LoadedRest(Join(nh, nl), sr, q0, r0);
    q, rem := ShiftSubtract(Join(nh, nl), Join(dh, dl), sr, q0, r0);
  }

  /** Divisors with a zero low word. */
  method DivideByHighWord(nh: nat, nl: nat, dh: nat) returns (q: nat, rem: nat)
    requires 0 < nh < W32 && nl < W32 && 0 < dh < W32
    ensures q * Join(dh, 0) + rem == Join(nh, nl) && rem < Join(dh, 0)
  {
    hide Pow2, Quot, Rem, Clz, Ctz, BitAnd, Shl, Shr, BitOr, Wrap32;
    HighOverHigh(nh, nl, dh);
    if nl == 0 {
      return Quot(nh, dh), Join(Rem(nh, dh), 0);
    }
    if BitAnd(dh, dh - 1) == 0 {
      PowerShortcut(nh, dh);
      return Shr(nh, Ctz(dh)), Join(BitAnd(nh, dh - 1), nl);
    }
    Pow2Words();
    NotOne(dh);
    var sr := Wrap32(Clz(32, dh) - Clz(32, nh));
    if sr > 30 {
      TopWordSmaller(nh, dh);
      return 0, Join(nh, nl);
    }
    q, rem := AlignedDivide(nh, nl, dh, 0, sr + 1);
  }

  lemma LoadedRest(n: nat, sr: nat, q: nat, r: nat)
    requires sr <= 64 && Loaded(n, sr, q, r)
    ensures r == Quot(n, Pow2(sr))
  {
  }

  lemma RemOne(x: nat)
    ensures Rem(x, 1) == 0
  {
  }

  /** Divisors of one word. */
  method DivideByLowWord(nh: nat, nl: nat, dl: nat) returns (q: nat, rem: nat)
    requires 0 < nh < W32 && nl < W32 && 0 < dl < W32
    ensures q * dl + rem == Join(nh, nl) && rem < dl
  {
    hide Pow2, Quot, Clz, Ctz, BitAnd, Shl, Shr, BitOr, Loaded;
    if BitAnd(dl, dl - 1) == 0 {
      PowerShortcut(nl, dl);
      rem := BitAnd(nl, dl - 1);
      if dl == 1 {
        RemOne(nl);
        return Join(nh, nl), rem;
      }
      var k := Ctz(dl);
      PowZero();
      PowerOverLow(nh, nl, k);
      q := Join(Shr(nh, k), BitOr(Shl(32, nh, 32 - k), Shr(nl, k)));
      return;
    }
    Pow2Words();
    hide Rem;
    LoadLow(nh, nl, dl);
    JoinBound(nh, nl);
    hide Join;
    var sr := 33 + Clz(32, dl) - Clz(32, nh);
    var q0, r0;
    if sr == 32 {
      LoadWord(nh, nl);
      JoinBound(nl, 0);
      q0, r0 := Join(nl, 0), Join(0, nh);
    } else if sr < 32 {
      LoadShort(nh, nl, sr);
      JoinBound(Shl(32, nl, 32 - sr), 0);
      q0 := Join(Shl(32, nl, 32 - sr), 0);
      r0 := Join(Shr(nh, sr), BitOr(Shl(32, nh, 32 - sr), Shr(nl, sr)));
    } else {
      LoadLong(nh, nl, sr);
      Straddle(nh, nl, sr - 32);
      JoinBound(BitOr(Shl(32, nh, 64 - sr), Shr(nl, sr - 32)), Shl(32, nl, 64 - sr));
      q0 := Join(BitOr(Shl(32, nh, 64 - sr), Shr(nl, sr - 32)), Shl(32, nl, 64 - sr));
      r0 := Join(0, Shr(nh, sr - 32));
    }
    LoadedRest(Join(nh, nl), sr, q0, r0);
    q, rem := ShiftSubtract(Join(nh, nl), dl, sr, q0, r0);
  }

  lemma JoinBound(h: nat, l: nat)
    requires h < W32 && l < W32
    ensures Join(h, l) < W64
  {
  }

  /** Divisors with both words nonzero. */
  method DivideByBoth(nh: nat, nl: nat, dh: nat, dl: nat) returns (q: nat, rem: nat)
    requires 0 < nh < W32 && nl < W32 && 0 < dh < W32 && 0 < dl < W32
    ensures q * Join(dh, dl) + rem == Join(nh, nl) && rem < Join(dh, dl)
  {
    Pow2Words();
    hide Pow2, Quot, Rem, Clz, BitAnd, Shl, Shr, BitOr, Loaded, Wrap32;
    var sr := Wrap32(Clz(32, dh) - Clz(32, nh));
    if sr > 31 {
      TopWordSmaller(nh, dh);
      return 0, Join(nh, nl);
    }
    q, rem := AlignedDivide(nh, nl, dh, dl, sr + 1);
  }

  /** `__udivmoddi4`: for every divisor but zero, the exact quotient and remainder. */
  method Udivmoddi4(a: nat, b: nat) returns (q: nat, rem: nat)
    requires a < W64 && 0 < b < W64
    ensures q * b + rem == a && rem < b
  {
    JoinSplit(a);
    JoinSplit(b);
    var nh: nat, nl: nat, dh: nat, dl: nat := HighWord(a), LowWord(a), HighWord(b), LowWord(b);
    hide HighWord, LowWord;
    if nh == 0 {
      if dh == 0 {
        QuotRem(nl, dl);
        return Quot(nl, dl), Rem(nl, dl);
      }
      return 0, nl;
    }
    if dl == 0 {
      q, rem := DivideByHighWord(nh, nl, dh);
    } else if dh == 0 {
      q, rem := DivideByLowWord(nh, nl, dl);
    } else {
      q, rem := DivideByBoth(nh, nl, dh, dl);
    }
  }

  // ----- the signed wrapper

  /** Two's complement reading of a 64-bit word. */
  const INT_MIN: int := -0x8000_0000_0000_0000

  function Signed(x: nat): (r: int)
    requires x < W64
  {
    if x < W63 then x else x - W64
  }

  function Unsigned(x: int): (r: nat)
    requires INT_MIN <= x < W63
    ensures r < W64 && Signed(r) == x
  {
    if x >= 0 then x else x + W64
  }

  /** `(x ^ s) - s`: negate when `s` is all ones. */
  function CondNegate(x: nat, s: nat): (r: nat)
    ensures r < W64
  {
    (BitXor(x, s) - s) % W64
  }

  lemma XorZero(x: nat)
    ensures BitXor(x, 0) == x
  {
  }

  lemma CondNegateMeaning(x: nat, s: nat)
    requires x < W64 && (s == 0 || s == W64 - 1)
    ensures CondNegate(x, s) == if s == 0 || x == 0 then x else W64 - x
  {
    hide BitXor, Pow2;
    if s == 0 {
      XorZero(x);
    } else {
      Pow2Words();
      XorOnes(x, 64);
      DivModUnique(0 - x, W64, if x == 0 then 0 else -1, if x == 0 then 0 else W64 - x);
    }
  }

  lemma XorOfMasks(s: nat, t: nat)
    requires (s == 0 || s == W64 - 1) && (t == 0 || t == W64 - 1)
    ensures BitXor(s, t) == if s == t then 0 else W64 - 1
  {
    if t != 0 {
      Pow2Words();
      XorOnes(s, 64);
    }
  }

  ghost function Abs(x: int): nat { if x < 0 then -x else x }

  lemma SignedMask(x: int)
    requires INT_MIN <= x < W63
    ensures Pow2(64) == W64
    ensures SignMask(64, Unsigned(x)) == if x < 0 then W64 - 1 else 0
  {
    Pow2Words();
  }

  /** Signs of quotient and remainder put back on the magnitudes. */
  lemma TruncatedSigns(a: int, b: int, q: nat, r: nat)
    requires b != 0 && q * Abs(b) + r == Abs(a) && r < Abs(b)
    ensures var q': int := if (a < 0) == (b < 0) then q else 0 - q; var r': int := if a < 0 then 0 - r else r;
            q' * b + r' == a
  {
  }

  lemma QuotientFits(a: int, b: int, q: nat, r: nat)
    requires b != 0 && INT_MIN <= a < W63 && q * Abs(b) + r == Abs(a)
    ensures q <= W63 && (q == W63 ==> a == INT_MIN && Abs(b) == 1)
  {
    MulMono(1, Abs(b), q);
    if q == W63 && Abs(b) > 1 {
      MulMono(2, Abs(b), q);
    }
  }

  lemma PutSign(x: nat, s: nat)
    requires x <= W63 && (s == 0 || s == W64 - 1)
    ensures Signed(CondNegate(x, s)) == if s != 0 then 0 - x else if x == W63 then INT_MIN else x
  {
    CondNegateMeaning(x, s);
    hide CondNegate;
  }

  /** Everything that is promised of the signed results follows from the magnitudes. */
  lemma SignedResults(a: int, b: int, uq: nat, ur: nat, q: int, rem: int)
    requires INT_MIN <= a < W63 && INT_MIN <= b < W63 && b != 0
    requires uq * Abs(b) + ur == Abs(a) && ur < Abs(b)
    requires q == if (a < 0) != (b < 0) then 0 - uq else if uq == W63 then INT_MIN else uq
    requires rem == if a < 0 then 0 - ur else ur
    ensures uq <= W63 && INT_MIN <= q < W63 && INT_MIN <= rem < W63
    ensures Abs(rem) < Abs(b) && (rem != 0 ==> (rem < 0 <==> a < 0))
    ensures q * b + rem == a <==> !(a == INT_MIN && b == -1)
    ensures a == INT_MIN && b == -1 ==> q == INT_MIN && rem == 0
  {
    QuotientFits(a, b, uq, ur);
    TruncatedSigns(a, b, uq, ur);
  }

  /**
   `__divmoddi4`: division truncating toward zero, the remainder taking the sign of
   the dividend; exact for every pair except the most negative number over -1,
   where the quotient wraps to the most negative number.
   */
  method Divmoddi4(a: int, b: int) returns (q: int, rem: int)
    requires INT_MIN <= a < W63 && INT_MIN <= b < W63 && b != 0
    ensures INT_MIN <= q < W63 && INT_MIN <= rem < W63
    ensures Abs(rem) < Abs(b) && (rem != 0 ==> (rem < 0 <==> a < 0))
    ensures q * b + rem == a <==> !(a == INT_MIN && b == -1)
    ensures a == INT_MIN && b == -1 ==> q == INT_MIN && rem == 0
  {
    SignedMask(a);
    SignedMask(b);
    hide Pow2, CondNegate, BitXor;
    var sa, sb := SignMask(64, Unsigned(a)), SignMask(64, Unsigned(b));
    hide SignMask;
    CondNegateMeaning(Unsigned(a), sa);
    CondNegateMeaning(Unsigned(b), sb);
    var ua, ub := CondNegate(Unsigned(a), sa), CondNegate(Unsigned(b), sb);
    assert ua == Abs(a) && ub == Abs(b);
    XorOfMasks(sb, sa);
    sb := BitXor(sb, sa);
    var uq, ur := Udivmoddi4(ua, ub);
    QuotientFits(a, b, uq, ur);
    PutSign(uq, sb);
    PutSign(ur, sa);
    q := Signed(CondNegate(uq, sb));
    rem := Signed(CondNegate(ur, sa));
    SignedResults(a, b, uq, ur, q, rem);
  }
}
