/**
 Machine words as natural numbers.  A word of width `w` is a number below
 `Pow2(w)`; shifts, masks and the sign-propagating right shift are spelled out
 here, and the bitwise operators are defined bit by bit so that the "or of
 disjoint halves" and "and with a mask" idioms of the C code are theorems.
 */
module Words {

  type Byte = b: nat | b < 256

  function Min(x: nat, y: nat): nat { if x <= y then x else y }

  const W32: nat := 0x1_0000_0000
  const W63: nat := 0x8000_0000_0000_0000
  const W64: nat := 0x1_0000_0000_0000_0000
  const W127: nat := 0x8000_0000_0000_0000_0000_0000_0000_0000
  const W128: nat := 0x1_0000_0000_0000_0000_0000_0000_0000_0000

  function Pow2(n: nat): (p: nat)
    ensures p >= 1
  {
    if n == 0 then 1 else 2 * Pow2(n - 1)
  }

  lemma Pow2Next(n: nat)
    ensures Pow2(0) == 1 && Pow2(1) == 2 && Pow2(n + 1) == 2 * Pow2(n)
  {
  }

  lemma Pow2Words()
    ensures Pow2(31) == 0x8000_0000 && Pow2(32) == W32 && Pow2(63) == W63
    ensures Pow2(64) == W64 && Pow2(127) == W127 && Pow2(128) == W128
  {
    hide Pow2;
    var n := 4;
    Pow2Four(n);
    Pow2Double(n, 16);
    Pow2Double(2 * n, 0x100);
    Pow2Double(4 * n, 0x1_0000);
    Pow2Double(8 * n, W32);
    Pow2Double(16 * n, W64);
  }

  lemma Pow2Four(n: nat)
    requires n == 4
    ensures Pow2(n) == 16
  {
  }

  lemma Pow2Double(n: nat, p: nat)
    requires n > 0 && Pow2(n) == p
    ensures Pow2(2 * n) == p * p && 2 * Pow2(2 * n - 1) == p * p
  {
    Pow2Add(n, n);
  }

  lemma {:induction false} Pow2Add(a: nat, b: nat)
    ensures Pow2(a + b) == Pow2(a) * Pow2(b)
  {
    if a > 0 {
      Pow2Add(a - 1, b);
      DoubleProduct(Pow2(a - 1), Pow2(b));
    }
  }

  lemma DoubleProduct(x: nat, y: nat)
    ensures (2 * x) * y == 2 * (x * y)
  {
  }

  lemma {:induction false} Pow2Mono(a: nat, b: nat)
    requires a <= b
    ensures Pow2(a) <= Pow2(b)
    decreases b - a
  {
    if a < b {
      Pow2Mono(a + 1, b);
    }
  }

  function Mul(x: nat, y: nat): (p: nat)
  {
    x * y
  }

  function Quot(x: nat, y: nat): (q: nat)
    requires y > 0
  {
    x / y
  }

  function Rem(x: nat, y: nat): (r: nat)
    requires y > 0
    ensures r < y
  {
    x % y
  }

  // ----- division facts the solver does not find by itself

  lemma MulAssoc(x: nat, y: nat, z: nat)
    ensures Mul(x, y * z) == Mul(x, y) * z == Mul(Mul(x, y), z)
  {
  }

  lemma QuotRem(x: nat, y: nat)
    requires y > 0
    ensures Quot(x, y) * y + Rem(x, y) == x
    ensures Mul(Quot(x, y), y) + Rem(x, y) == x
  {
  }

  /** A quotient and remainder in range are the Euclidean ones. */
  lemma DivModUnique(a: int, b: int, q: int, r: int)
    requires 0 <= r < b && a == q * b + r
    ensures a / b == q && a % b == r
  {
    var q', r' := a / b, a % b;
    assert a == q' * b + r';
    assert (q - q') * b == r' - r && (q' - q) * b == r - r';
    if q < q' {
      MulMono(1, q' - q, b);
    } else if q > q' {
      MulMono(1, q - q', b);
    }
  }

  lemma QuotUnique(x: nat, y: nat, q: nat, r: nat)
    requires r < y && x == Mul(q, y) + r
    ensures Quot(x, y) == q && Rem(x, y) == r
  {
    DivModUnique(x, y, q, r);
  }

  lemma MulMono(x: int, y: int, k: int)
    requires x <= y && 0 <= k
    ensures x * k <= y * k
  {
  }

  lemma MulStrict(x: int, y: int, k: int)
    requires x < y && 0 < k
    ensures x * k < y * k
  {
  }

  /** Cancelling a positive factor in a strict inequality. */
  lemma MulCancel(x: int, y: int, k: int)
    requires x * k < y * k && 0 < k
    ensures x < y
  {
    if y <= x {
      MulMono(y, x, k);
    }
  }

  lemma DivBounds(a: int, b: int)
    requires 0 < b
    ensures (a / b) * b <= a < (a / b + 1) * b
  {
  }

  lemma MulAdd(x: nat, y: nat, z: nat)
    ensures Mul(x + y, z) == Mul(x, z) + Mul(y, z)
  {
  }

  /** Dividing by a product is dividing twice. */
  lemma DivDiv(x: nat, a: nat, b: nat)
    requires 0 < a && 0 < b
    ensures a * b > 0 && x / (a * b) == (x / a) / b
  {
    var q, r := Quot(x, a), Rem(x, a);
    var q2, r2 := Quot(q, b), Rem(q, b);
    QuotRem(x, a);
    QuotRem(q, b);
    MulMono(1, a, b);
    assert q == x / a && q2 == (x / a) / b;
    hide Quot, Rem;
    MulAdd(Mul(q2, b), r2, a);
    MulSwap(q2, b, a);
    MulMono(r2 + 1, b, a);
    DivModUnique(x, a * b, q2, Mul(r2, a) + r);
  }

  lemma MulSwap(x: nat, y: nat, z: nat)
    ensures Mul(Mul(x, y), z) == x * (z * y)
  {
  }

  // ----- bit length, leading and trailing zeros

  function BitLength(x: nat): (n: nat)
  {
    if x == 0 then 0 else 1 + BitLength(x / 2)
  }

  lemma {:induction false} BitLengthBounds(x: nat)
    ensures x < Pow2(BitLength(x))
    ensures x > 0 ==> BitLength(x) > 0 && Pow2(BitLength(x) - 1) <= x
  {
    if x > 0 {
      BitLengthBounds(x / 2);
    }
  }

  lemma {:induction false} BitLengthMono(x: nat, y: nat)
    requires x <= y
    ensures BitLength(x) <= BitLength(y)
  {
    if x > 0 {
      BitLengthMono(x / 2, y / 2);
    }
  }

  lemma {:induction false} BitLengthWidth(x: nat, w: nat)
    requires x < Pow2(w)
    ensures BitLength(x) <= w
  {
    if x > 0 {
      BitLengthWidth(x / 2, w - 1);
    }
  }

  /** Count of leading zeros in a word of width `w`. */
  function Clz(w: nat, x: nat): (n: nat)
    requires 0 < x < Pow2(w)
    ensures n < w && Pow2(w - 1 - n) <= x < Pow2(w - n)
  {
    BitLengthBounds(x);
    BitLengthWidth(x, w);
    w - BitLength(x)
  }

  lemma ClzMono(w: nat, x: nat, y: nat)
    requires 0 < x <= y < Pow2(w)
    ensures Clz(w, y) <= Clz(w, x)
  {
    BitLengthMono(x, y);
  }

  /** Count of trailing zeros. */
  function Ctz(x: nat): (n: nat)
    requires x > 0
  {
    if x % 2 == 1 then 0 else 1 + Ctz(x / 2)
  }

  lemma {:induction false} CtzPow2(k: nat)
    ensures Ctz(Pow2(k)) == k
  {
    if k > 0 {
      CtzPow2(k - 1);
    }
  }

  // ----- shifts

  function Shl(w: nat, x: nat, s: nat): (r: nat)
    ensures r < Pow2(w)
  {
    x * Pow2(s) % Pow2(w)
  }

  function Shr(x: nat, s: nat): (r: nat)
  {
    Quot(x, Pow2(s))
  }

  lemma ShlIs(w: nat, x: nat, s: nat)
    requires Mul(x, Pow2(s)) < Pow2(w)
    ensures Shl(w, x, s) == Mul(x, Pow2(s))
  {
    hide Pow2;
    DivModUnique(x * Pow2(s), Pow2(w), 0, x * Pow2(s));
  }

  lemma ShlOne(w: nat, x: nat)
    requires 2 * x < Pow2(w)
    ensures Shl(w, x, 1) == 2 * x
  {
    hide Pow2;
    Pow2Next(0);
    DivModUnique(2 * x, Pow2(w), 0, 2 * x);
  }

  /** Sign-propagating right shift of the whole width: the mask -1 or 0. */
  function SignMask(w: nat, x: nat): (m: nat)
    requires w > 0 && x < Pow2(w)
    ensures m == 0 || m == Pow2(w) - 1
  {
    if x >= Pow2(w - 1) then Pow2(w) - 1 else 0
  }

  // ----- bitwise operators, bit by bit

  function BitAnd(x: nat, y: nat): (r: nat)
    decreases x
  {
    if x == 0 || y == 0 then 0
    else 2 * BitAnd(x / 2, y / 2) + (if x % 2 == 1 && y % 2 == 1 then 1 else 0)
  }

  function BitOr(x: nat, y: nat): (r: nat)
    decreases x + y
  {
    if x == 0 then y
    else if y == 0 then x
    else 2 * BitOr(x / 2, y / 2) + (if x % 2 == 1 || y % 2 == 1 then 1 else 0)
  }

  function BitXor(x: nat, y: nat): (r: nat)
    decreases x + y
  {
    if x == 0 then y
    else if y == 0 then x
    else 2 * BitXor(x / 2, y / 2) + (if x % 2 != y % 2 then 1 else 0)
  }

  /** Masking with `2^k - 1` keeps the low `k` bits. */
  lemma {:induction false} AndLowMask(x: nat, k: nat)
    ensures BitAnd(x, Pow2(k) - 1) == x % Pow2(k)
    decreases k
  {
    if k == 0 {
      assert x % 1 == 0;
    } else if x == 0 {
      DivModUnique(0, Pow2(k), 0, 0);
    } else {
      assert (Pow2(k) - 1) / 2 == Pow2(k - 1) - 1;
      AndLowMask(x / 2, k - 1);
      ModDouble(x, Pow2(k - 1));
    }
  }

  lemma ModDouble(x: nat, p: nat)
    requires p > 0
    ensures x % (2 * p) == 2 * (x / 2 % p) + x % 2
  {
    var h := x / 2;
    var q, r := h / p, h % p;
    assert h == q * p + r;
    assert x == q * (2 * p) + (2 * r + x % 2) by {
      assert 2 * (q * p) == q * (2 * p);
    }
    DivModUnique(x, 2 * p, q, 2 * r + x % 2);
  }

  /** Or-ing a low part under a shifted high part adds them. */
  lemma {:induction false} OrDisjoint(hi: nat, k: nat, lo: nat)
    requires lo < Pow2(k)
    ensures BitOr(hi * Pow2(k), lo) == hi * Pow2(k) + lo
    decreases k
  {
    if k > 0 && hi > 0 && lo > 0 {
      var p := Pow2(k - 1);
      var x := hi * Pow2(k);
      assert x == 2 * (hi * p);
      assert hi * p >= 1 by { MulMono(1, hi, p); }
      OrDisjoint(hi, k - 1, lo / 2);
      assert x / 2 == hi * p;
    } else if hi == 0 {
      assert hi * Pow2(k) == 0;
    }
  }

  /** Xor with all ones complements. */
  lemma {:induction false} XorOnes(x: nat, w: nat)
    requires x < Pow2(w)
    ensures BitXor(x, Pow2(w) - 1) == Pow2(w) - 1 - x
    decreases w
  {
    if w > 0 && x > 0 {
      assert (Pow2(w) - 1) / 2 == Pow2(w - 1) - 1;
      XorOnes(x / 2, w - 1);
    }
  }

  /** `x & (x - 1) == 0` is the power-of-two test. */
  lemma {:induction false} PowerOfTwoTest(x: nat)
    requires x > 0
    ensures BitAnd(x, x - 1) == 0 <==> x == Pow2(Ctz(x))
  {
    if x % 2 == 1 {
      if x > 1 {
        assert x / 2 == (x - 1) / 2;
        AndSelf(x / 2);
      }
    } else {
      assert (x - 1) / 2 == x / 2 - 1;
      PowerOfTwoTest(x / 2);
    }
  }

  lemma {:induction false} AndSelf(x: nat)
    ensures BitAnd(x, x) == x
  {
    if x > 0 {
      AndSelf(x / 2);
    }
  }

  /** A word masked by all ones or by zero. */
  lemma AndMask(w: nat, x: nat, m: nat)
    requires x < Pow2(w) && (m == 0 || m == Pow2(w) - 1)
    ensures BitAnd(x, m) == if m == 0 then 0 else x
  {
    if m != 0 {
      AndLowMask(x, w);
      DivModUnique(x, Pow2(w), 0, x);
    }
  }

  /** The low bit of a mask. */
  lemma MaskBit(w: nat, m: nat)
    requires w > 0 && (m == 0 || m == Pow2(w) - 1)
    ensures BitAnd(m, 1) == if m == 0 then 0 else 1
  {
    AndLowMask(m, 1);
    assert Pow2(1) == 2;
    assert Pow2(w) == 2 * Pow2(w - 1);
  }

  // ----- the branch-free compare of the shift-subtract dividers

  /** Subtracting the masked divisor subtracts it or does nothing. */
  lemma SubtractMasked(w: nat, size: nat, d: nat, r: nat, m: nat)
    requires w > 0 && Pow2(w) == size && d < size && r < size
    requires m == if r >= d then size - 1 else 0
    ensures (r - BitAnd(d, m)) % size == if r >= d then r - d else r
    ensures BitAnd(m, 1) == if r >= d then 1 else 0
  {
    AndMask(w, d, m);
    MaskBit(w, m);
    hide BitAnd, Pow2;
    var x := if r >= d then r - d else r;
    DivModUnique(x, size, 0, x);
  }

  /** `(d - r - 1) >> (w - 1)` on wrapped words. */
  function CompareMask(w: nat, d: nat, r: nat): (m: nat)
    requires w > 0
    ensures m == 0 || m == Pow2(w) - 1
  {
    SignMask(w, (d - r - 1) % Pow2(w))
  }

  /** The mask is all ones exactly when `r >= d`, provided the difference fits a signed word. */
  lemma CompareMaskExact(w: nat, d: nat, r: nat)
    requires w > 0 && d < Pow2(w) && r < Pow2(w) && r < 2 * d
    requires d < Pow2(w - 1) || r >= Pow2(w - 1)
    ensures CompareMask(w, d, r) == if r >= d then Pow2(w) - 1 else 0
  {
    var x := d - r - 1;
    if r >= d {
      DivModUnique(x, Pow2(w), -1, x + Pow2(w));
    } else {
      DivModUnique(x, Pow2(w), 0, x);
    }
  }

  // ----- leading zeros across two halves

  /** The top half's leading zeros bracket the whole number. */
  lemma HalvesClz(w: nat, h: nat, l: nat)
    requires 0 < h < Pow2(w) && l < Pow2(w)
    ensures var c := Clz(w, h); var x := h * Pow2(w) + l;
            Pow2(w + w - 1 - c) <= x < Pow2(w + w - c)
  {
    var c, p := Clz(w, h), Pow2(w);
    Pow2Add(w - 1 - c, w);
    Pow2Add(w - c, w);
    hide Pow2;
    MulMono(Pow2(w - 1 - c), h, p);
    MulMono(h + 1, Pow2(w - c), p);
    assert (h + 1) * p == h * p + p;
  }

  lemma Pow2Join(a: nat, b: nat)
    ensures Mul(Pow2(a), Pow2(b)) == Pow2(a + b)
  {
    Pow2Add(a, b);
  }

  lemma ScaledBounds(lo: nat, x: nat, hi: nat, k: nat)
    requires lo <= x < hi && k > 0
    ensures Mul(lo, k) <= Mul(x, k) < Mul(hi, k)
  {
    MulMono(lo, x, k);
    MulStrict(x, hi, k);
  }

  /** Aligning the top bits of `b` and `a` by a left shift. */
  lemma AlignTop(w: nat, a: nat, b: nat, ca: nat, cb: nat)
    requires ca <= cb < w
    requires Pow2(w - 1 - ca) <= a < Pow2(w - ca)
    requires Pow2(w - 1 - cb) <= b < Pow2(w - cb)
    ensures var d := Mul(b, Pow2(cb - ca));
            && Pow2(w - 1 - ca) <= d < Pow2(w - ca) && a < 2 * d
            && d < Pow2(w) && Shl(w, b, cb - ca) == d
            && (d < Pow2(w - 1) || a >= Pow2(w - 1))
  {
    hide Pow2, Mul, Shl;
    var s := cb - ca;
    Pow2Join(w - 1 - cb, s);
    Pow2Join(w - cb, s);
    Pow2Next(w - 1 - ca);
    Pow2Mono(w - ca, w);
    if ca > 0 {
      Pow2Mono(w - ca, w - 1);
    }
    ScaledBounds(Pow2(w - 1 - cb), b, Pow2(w - cb), Pow2(s));
    ShlIs(w, b, s);
  }

  // ----- single bits

  /** Testing one bit. */
  lemma {:induction false} AndBit(x: nat, k: nat)
    ensures BitAnd(x, Pow2(k)) == Mul(x / Pow2(k) % 2, Pow2(k))
    decreases k
  {
    if k == 0 {
      if x > 0 {
        assert BitAnd(x / 2, 0) == 0;
      }
    } else {
      AndBit(x / 2, k - 1);
      DivDiv(x, 2, Pow2(k - 1));
      if x > 0 {
        assert Pow2(k) / 2 == Pow2(k - 1);
      }
      MulTwice(x / Pow2(k) % 2, Pow2(k - 1));
    }
  }

  lemma MulTwice(x: nat, y: nat)
    ensures Mul(x, 2 * y) == 2 * Mul(x, y)
  {
  }

  /** Setting the lowest bit. */
  lemma OrOne(x: nat)
    ensures BitOr(x, 1) == if x % 2 == 0 then x + 1 else x
  {
    if x > 0 {
      assert BitOr(x / 2, 0) == x / 2;
    }
  }

  /** Xor with the top bit clears it. */
  lemma {:induction false} XorTop(x: nat, k: nat)
    requires Pow2(k) <= x < 2 * Pow2(k)
    ensures BitXor(x, Pow2(k)) == x - Pow2(k)
    decreases k
  {
    if k == 0 {
      assert BitXor(0, 0) == 0;
    } else {
      assert Pow2(k) / 2 == Pow2(k - 1);
      XorTop(x / 2, k - 1);
    }
  }
}
