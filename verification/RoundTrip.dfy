/**
 Printing a number with src/printf.c and reading it back with `strtol` of
 src/string.c.
 */
module RoundTrip {
  import opened Words
  import opened Printf
  import opened Strtol

  // ----- the digits of a number have its value

  lemma DigitReads(d: nat, upper: bool)
    requires d < 16
    ensures DigitOf(DigitChar(d, upper)) == d
  {
  }

  lemma {:induction false} ShedFront(val: nat, base: nat, k: nat)
    requires base > 0 && k > 0
    ensures Shed(val, base, k) == Shed(Quot(val, base), base, k - 1)
  {
    if k > 1 {
      ShedFront(val, base, k - 1);
    }
  }

  /** Nothing is left after all the digits, and something before the last. */
  lemma {:induction false} ShedAll(val: nat, base: nat, k: nat)
    requires base >= 2 && k >= CountDigits(val, base)
    ensures Shed(val, base, k) == 0
    decreases k
  {
    hide Quot;
    if val == 0 {
      if k > 0 {
        ShedAll(0, base, k - 1);
        QuotLess(0, base);
      }
    } else {
      ShedFront(val, base, k);
      ShedAll(Quot(val, base), base, k - 1);
    }
  }

  lemma {:induction false} ShedLast(val: nat, base: nat)
    requires base >= 2 && val > 0
    ensures CountDigits(val, base) > 0 && 0 < Shed(val, base, CountDigits(val, base) - 1) < base
    decreases val
  {
    hide Quot;
    var q := Quot(val, base);
    QuotLess(val, base);
    if q == 0 {
      QuotZero(val, base);
      assert CountDigits(q, base) == 0;
    } else {
      ShedLast(q, base);
      ShedFront(val, base, CountDigits(val, base) - 1);
    }
  }

  lemma QuotZero(val: nat, base: nat)
    requires base > 0 && Quot(val, base) == 0
    ensures val < base
  {
    DivBounds(val, base);
  }

  /** A number without marks, digit by digit. */
  lemma PlainNumber(val: nat, base: nat, upper: bool, d: nat, k: nat)
    requires 2 <= base <= 16 && k < d
    ensures |NumberText(val, base, upper, d, d)| == d
    ensures Rem(Shed(val, base, d - 1 - k), base) < base
    ensures NumberText(val, base, upper, d, d)[k] == DigitChar(Rem(Shed(val, base, d - 1 - k), base), upper)
  {
    DivModUnique(d - 1, d, 0, d - 1);
    DivModUnique(d - 1 - k, d + 1, 0, d - 1 - k);
    QuotLess(Shed(val, base, d - 1 - k), base);
  }

  ghost predicate NumeralAt(digits: string, val: nat, base: nat, upper: bool, k: nat)
    requires 2 <= base <= 16 && k < |digits|
  {
    && Rem(Shed(val, base, |digits| - 1 - k), base) < base
    && digits[k] == DigitChar(Rem(Shed(val, base, |digits| - 1 - k), base), upper)
  }

  /** `digits` ends with the digits of `val`, after zeros. */
  ghost predicate Numeral(digits: string, val: nat, base: nat, upper: bool)
    requires 2 <= base <= 16
  {
    forall k | 0 <= k < |digits| :: NumeralAt(digits, val, base, upper, k)
  }

  lemma NumeralDigit(digits: string, val: nat, base: nat, upper: bool, k: nat)
    requires 2 <= base <= 16 && Numeral(digits, val, base, upper) && k < |digits|
    ensures InBase(digits[k], base) && DigitOf(digits[k]) == Rem(Shed(val, base, |digits| - 1 - k), base)
  {
    hide Quot, Rem, Shed, DigitChar, DigitOf;
    assert NumeralAt(digits, val, base, upper, k);
    DigitReads(Rem(Shed(val, base, |digits| - 1 - k), base), upper);
  }

  /** Reading the first `k` digits gives what is left when the others are shed. */
  lemma {:induction false} NumeralValue(digits: string, val: nat, base: nat, upper: bool, k: nat)
    requires 2 <= base <= 16 && Numeral(digits, val, base, upper) && k <= |digits|
    requires |digits| >= CountDigits(val, base)
    ensures Value(digits, 0, k, base) == Shed(val, base, |digits| - k)
  {
    hide Numeral, Quot, Rem, Mul, InBase, DigitOf;
    if k == 0 {
      ShedAll(val, base, |digits|);
    } else {
      NumeralValue(digits, val, base, upper, k - 1);
      NumeralDigit(digits, val, base, upper, k - 1);
      ShedNext(val, base, |digits| - k + 1);
      QuotRem(Shed(val, base, |digits| - k), base);
    }
  }

  lemma NoDigitsOfZero(base: nat)
    requires base > 0
    ensures Rem(0, base) == 0 && Rem(0, base) < 16 && DigitChar(Rem(0, base), true) == '0' == DigitChar(Rem(0, base), false)
  {
    DivModUnique(0, base, 0, 0);
  }

  lemma ZeroOrDigit(zeros: nat, val: nat, base: nat, upper: bool, d: nat, k: nat)
    requires 2 <= base <= 16 && d > 0 && d >= CountDigits(val, base) && k < zeros + d
    ensures |NumberText(val, base, upper, d, d)| == d && |Fill('0', zeros, 0)| == zeros
    ensures NumeralAt(Fill('0', zeros, 0) + NumberText(val, base, upper, d, d), val, base, upper, k)
  {
    hide NumberText, Quot, Rem, Shed, CountDigits, DigitChar;
    PlainNumber(val, base, upper, d, 0);
    if k < zeros {
      ShedAll(val, base, zeros + d - 1 - k);
      NoDigitsOfZero(base);
    } else {
      PlainNumber(val, base, upper, d, k - zeros);
    }
  }

  /** Zeros in front change nothing. */
  lemma ZerosInFront(zeros: nat, val: nat, base: nat, upper: bool, d: nat)
    requires 2 <= base <= 16 && d > 0 && d >= CountDigits(val, base)
    ensures Numeral(Fill('0', zeros, 0) + NumberText(val, base, upper, d, d), val, base, upper)
  {
    hide NumberText, Fill, NumeralAt, CountDigits;
    var digits := Fill('0', zeros, 0) + NumberText(val, base, upper, d, d);
    ZeroOrDigit(zeros, val, base, upper, d, 0);
    forall k | 0 <= k < |digits| ensures NumeralAt(digits, val, base, upper, k) {
      ZeroOrDigit(zeros, val, base, upper, d, k);
    }
  }

  // ----- marks only group

  ghost function Unmarked(s: string): string
  {
    if s == "" then "" else (if s[0] == '_' then "" else [s[0]]) + Unmarked(s[1..])
  }

  lemma {:induction false} DigitsWithin(d: nat, skip: nat, j: nat)
    requires d > 0 && skip > 0 && j <= TextLength(d, skip)
    ensures 0 <= DigitIndex(j, skip) <= d
    ensures j == TextLength(d, skip) ==> DigitIndex(j, skip) == d
    decreases TextLength(d, skip) - j
  {
    hide DigitIndex, TextLength, Rem;
    if j == TextLength(d, skip) {
      NoLeadingTick(d, skip);
      TickStep(j - 1, skip);
    } else {
      DigitsWithin(d, skip, j + 1);
      TickStep(j, skip);
    }
  }

  lemma {:induction false} UnmarkedSuffix(val: nat, base: nat, upper: bool, d: nat, skip: nat, j: nat)
    requires 2 <= base <= 16 && d > 0 && skip > 0 && j <= TextLength(d, skip)
    ensures |NumberText(val, base, upper, d, d)| == d && 0 <= DigitIndex(j, skip) <= d
    ensures Unmarked(NumberText(val, base, upper, d, skip)[TextLength(d, skip) - j..])
            == NumberText(val, base, upper, d, d)[d - DigitIndex(j, skip)..]
    decreases j
  {
    hide DigitIndex, TextLength, Rem, Shed, NumberText, DigitChar;
    var marked, plain := NumberText(val, base, upper, d, skip), NumberText(val, base, upper, d, d);
    PlainNumber(val, base, upper, d, 0);
    DigitsWithin(d, skip, j);
    if j == 0 {
      NoneFromRight(skip);
      assert marked[TextLength(d, skip)..] == "" && plain[d..] == "";
    } else {
      UnmarkedSuffix(val, base, upper, d, skip, j - 1);
      TickStep(j - 1, skip);
      var s := marked[TextLength(d, skip) - j..];
      assert s[1..] == marked[TextLength(d, skip) - (j - 1)..];
      assert s[0] == CharFromRight(val, base, upper, skip, j - 1);
      if Rem(j - 1, skip + 1) < skip {
        DigitFromRight(val, base, upper, d, skip, j - 1);
      }
    }
  }

  /** A position that holds no mark holds the plain number's next digit. */
  lemma DigitFromRight(val: nat, base: nat, upper: bool, d: nat, skip: nat, j: nat)
    requires 2 <= base <= 16 && skip > 0 && Rem(j, skip + 1) < skip && 0 <= DigitIndex(j, skip) < d
    ensures |NumberText(val, base, upper, d, d)| == d && CharFromRight(val, base, upper, skip, j) != '_'
    ensures var plain, i := NumberText(val, base, upper, d, d), DigitIndex(j, skip);
            plain[d - 1 - i..] == [CharFromRight(val, base, upper, skip, j)] + plain[d - i..]
  {
    hide DigitIndex, Rem, Shed, NumberText, DigitChar;
    var i := DigitIndex(j, skip);
    PlainNumber(val, base, upper, d, d - 1 - i);
    NoMark(Rem(Shed(val, base, i), base), upper);
    var plain := NumberText(val, base, upper, d, d);
    assert plain[d - 1 - i..] == [plain[d - 1 - i]] + plain[d - i..];
  }

  lemma NoneFromRight(skip: nat)
    ensures DigitIndex(0, skip) == 0
  {
  }

  lemma NoMark(d: nat, upper: bool)
    requires d < 16
    ensures DigitChar(d, upper) != '_'
  {
  }

  /** Without its marks a grouped number is the plain number. */
  lemma MarksOnlyGroup(val: nat, base: nat, upper: bool, d: nat, skip: nat)
    requires 2 <= base <= 16 && d > 0 && skip > 0
    ensures Unmarked(NumberText(val, base, upper, d, skip)) == NumberText(val, base, upper, d, d)
  {
    hide DigitIndex, TextLength, NumberText, Unmarked;
    var len := TextLength(d, skip);
    DigitsWithin(d, skip, len);
    UnmarkedSuffix(val, base, upper, d, skip, len);
    assert NumberText(val, base, upper, d, skip)[len - len..] == NumberText(val, base, upper, d, skip);
    assert NumberText(val, base, upper, d, d)[d - d..] == NumberText(val, base, upper, d, d);
  }

  // ----- reading a laid out numeral

  predicate Blank(s: string) { forall i | 0 <= i < |s| :: s[i] == ' ' }

  predicate AllInBase(s: string, base: nat) { forall i | 0 <= i < |s| :: InBase(s[i], base) }

  lemma {:induction false} SkipsTo(s: string, i: nat, j: nat)
    requires i <= j <= |s| && (forall k | i <= k < j :: IsSpace(s[k])) && !IsSpace(At(s, j))
    ensures SkipSpaces(s, i) == j
    decreases j - i
  {
    if i < j {
      SkipsTo(s, i + 1, j);
    }
  }

  lemma {:induction false} RunIs(s: string, i: nat, k: nat, base: nat)
    requires i + k <= |s| && (forall m | i <= m < i + k :: InBase(s[m], base)) && !InBase(At(s, i + k), base)
    ensures Run(s, i, base) == k
    decreases k
  {
    if k > 0 {
      RunIs(s, i + 1, k - 1, base);
    }
  }

  lemma {:induction false} ValueInside(s: string, from: nat, digits: string, k: nat, base: nat)
    requires k <= |digits| && from + |digits| <= |s| && s[from..from + |digits|] == digits
    ensures Value(s, from, k, base) == Value(digits, 0, k, base)
  {
    if k > 0 {
      ValueInside(s, from, digits, k - 1, base);
      assert s[from + k - 1] == digits[k - 1];
    }
  }

  /** How the reader comes to use `base`. */
  predicate Recognised(prefix: string, digits: string, base: nat, readBase: nat)
    requires |digits| > 0
  {
    if prefix == "" then
      || readBase == base
      || (readBase == 0 && base == 8 && digits[0] == '0')
      || (readBase == 0 && base == 10 && digits[0] != '0')
    else (prefix == "0x" || prefix == "0X") && base == 16 && (readBase == 0 || readBase == 16)
  }

  lemma FrontFound(pad: string, sign: string, prefix: string, digits: string, tail: string, base: nat, readBase: nat)
    requires Blank(pad) && Blank(tail) && sign in ["", "+", "-"] && 2 <= base <= 16
    requires |digits| > 0 && AllInBase(digits, base) && Recognised(prefix, digits, base, readBase)
    ensures FrontOf(pad + sign + prefix + digits + tail, readBase) == Front(sign == "-", base, |pad + sign + prefix|)
  {
    var s := pad + sign + prefix + digits + tail;
    var j := |pad + sign|;
    assert InBase(digits[0], base);
    assert s[|pad + sign + prefix|] == digits[0];
    assert prefix != "" ==> s[j] == prefix[0] && s[j + 1] == prefix[1];
    assert sign != "" ==> s[|pad|] == sign[0];
    SkipsTo(s, 0, |pad|);
    if prefix == "" {
      assert At(s, j) == digits[0];
      assert |digits| > 1 ==> InBase(digits[1], base) && s[j + 1] == digits[1];
      assert |digits| == 1 && |tail| > 0 ==> s[j + 1] == tail[0];
    }
  }

  lemma Scanned(pad: string, sign: string, prefix: string, digits: string, tail: string, base: nat, readBase: nat)
    requires Blank(pad) && Blank(tail) && sign in ["", "+", "-"] && 2 <= base <= 16
    requires |digits| > 0 && AllInBase(digits, base) && Recognised(prefix, digits, base, readBase)
    ensures Parse(pad + sign + prefix + digits + tail, readBase)
            == Parsed(Clamp(sign == "-", Value(digits, 0, |digits|, base)), |pad + sign + prefix + digits|)
  {
    hide FrontOf, Value;
    var s := pad + sign + prefix + digits + tail;
    var from := |pad + sign + prefix|;
    FrontFound(pad, sign, prefix, digits, tail, base, readBase);
    assert s[from..from + |digits|] == digits;
    forall m | from <= m < from + |digits| ensures InBase(s[m], base) {
      assert s[m] == digits[m - from] && InBase(digits[m - from], base);
    }
    assert |tail| > 0 ==> s[from + |digits|] == tail[0];
    RunIs(s, from, |digits|, base);
    ValueInside(s, from, digits, |digits|, base);
  }

  // ----- printing and reading back

  /** When `strtol` with `readBase` takes the text for a numeral in `base`. */
  predicate Reads(f: Flags, base: nat, readBase: nat)
  {
    base in [8, 10, 16] && (readBase == base || (readBase == 0 && f.hash && base != 10))
  }

  /** The padding after a left-adjusted number. */
  ghost function Trailing(val: nat, f: Flags, base: nat, width: int, prec: int): nat
    requires val < W64 && 2 <= base <= 16
  {
    var bare := |IntText(val, f, base, 0, prec)|;
    if f.minus && width > bare then width - bare else 0
  }

  lemma Fills(width: int, used: nat)
    ensures Blank(Fill(' ', width, used)) && |Fill(' ', width, used)| == if width > used then width - used else 0
    ensures Fill('0', if width > used then width - used else 0, 0) == Fill('0', width, used)
    ensures Fill('0', 0, 0) == ""
  {
  }

  lemma Regroup(early: string, lead: string, prefix: string, zeros: string, number: string, late: string,
                pad: string, sign: string)
    requires pad + sign == early + lead
    ensures early + lead + prefix + zeros + number + late == pad + sign + prefix + (zeros + number) + late
  {
    assert early + lead + prefix + zeros + number == early + lead + prefix + (zeros + number);
  }

  lemma BareLength(val: nat, f: Flags, base: nat, prec: int, number: string)
    requires val < W64 && 2 <= base <= 16
    requires var d := DigitsShown(Magnitude(val, f), f, base, prec);
             number == NumberText(Magnitude(val, f), base, f.upper, d, TickSkip(f, base, d))
    ensures |IntText(val, f, base, 0, prec)| == |SignText(Negative(val, f), f)| + |PrefixText(f, base)| + |number|
  {
    hide NumberText, DigitsShown, IntText;
    var used := |SignText(Negative(val, f), f)| + |PrefixText(f, base)| + |number|;
    IntTextPieces(val, f, base, 0, prec, SignText(Negative(val, f), f), number, used);
  }

  /** The pieces of the text of a number without marks, as the reader sees them. */
  lemma Layout(val: nat, f: Flags, base: nat, width: int, prec: int)
    returns (pad: string, sign: string, zeros: nat, number: string, tail: string)
    requires val < W64 && 2 <= base <= 16 && !f.tick
    ensures var mag := Magnitude(val, f); var d := DigitsShown(mag, f, base, prec);
            number == NumberText(mag, base, f.upper, d, d)
    ensures Blank(pad) && Blank(tail) && sign in ["", "+", "-"] && (sign == "-" <==> Negative(val, f))
    ensures zeros > 0 ==> f.zero && !f.minus
    ensures IntText(val, f, base, width, prec) == pad + sign + PrefixText(f, base) + (Fill('0', zeros, 0) + number) + tail
    ensures |tail| == Trailing(val, f, base, width, prec)
  {
    hide NumberText, DigitsShown, IntText, Fill, PrefixText;
    var mag := Magnitude(val, f);
    var d := DigitsShown(mag, f, base, prec);
    number := NumberText(mag, base, f.upper, d, d);
    var lead := SignText(Negative(val, f), f);
    var used := |lead| + |PrefixText(f, base)| + |number|;
    Fills(width, used);
    IntTextPieces(val, f, base, width, prec, lead, number, used);
    BareLength(val, f, base, prec, number);
    zeros := if f.zero && !f.minus && width > used then width - used else 0;
    tail := if f.minus then Fill(' ', width, used) else "";
    var early := if !f.minus && !f.zero then Fill(' ', width, used) else "";
    pad, sign := early, lead;
    if lead == " " {
      pad, sign := early + " ", "";
    }
    assert pad + sign == early + lead;
    Regroup(early, lead, PrefixText(f, base), Fill('0', zeros, 0), number, tail, pad, sign);
  }

  /**
   For every 64-bit value, flag, width and precision, but without ' marks: reading
   the printed text back gives the value clamped to 32 bits, and the end found is
   the end of the number.
   */
  lemma PrintThenRead(val: nat, f: Flags, base: nat, width: int, prec: int, readBase: nat)
    requires val < W64 && !f.tick && Reads(f, base, readBase)
    ensures Parse(IntText(val, f, base, width, prec), readBase)
            == Parsed(Clamp(Negative(val, f), Magnitude(val, f)),
                      |IntText(val, f, base, width, prec)| - Trailing(val, f, base, width, prec))
  {
    hide IntText, NumberText, Trailing, Parse, Shed, Quot, Rem, Value, Numeral, InBase, Fill;
    var pad, sign, zeros, number, tail := Layout(val, f, base, width, prec);
    var mag := Magnitude(val, f);
    var d := DigitsShown(mag, f, base, prec);
    var digits := Fill('0', zeros, 0) + number;
    ZerosInFront(zeros, mag, base, f.upper, d);
    PlainNumber(mag, base, f.upper, d, 0);
    NumeralReads(digits, mag, base, f.upper);
    LeadingZero(digits, mag, base, f.upper);
    Scanned(pad, sign, PrefixText(f, base), digits, tail, base, readBase);
  }

  lemma NumeralReads(digits: string, val: nat, base: nat, upper: bool)
    requires 2 <= base <= 16 && Numeral(digits, val, base, upper) && |digits| >= CountDigits(val, base)
    ensures AllInBase(digits, base) && Value(digits, 0, |digits|, base) == val
  {
    hide Numeral, InBase, Value;
    NumeralValue(digits, val, base, upper, |digits|);
    forall i | 0 <= i < |digits| ensures InBase(digits[i], base) {
      NumeralDigit(digits, val, base, upper, i);
    }
  }

  /** More digits than needed start with a zero; just enough do not. */
  lemma LeadingZero(digits: string, val: nat, base: nat, upper: bool)
    requires 2 <= base <= 16 && Numeral(digits, val, base, upper) && |digits| > 0
    ensures |digits| > CountDigits(val, base) ==> digits[0] == '0'
    ensures |digits| == CountDigits(val, base) ==> digits[0] != '0'
  {
    assert NumeralAt(digits, val, base, upper, 0);
    if |digits| > CountDigits(val, base) {
      ShedAll(val, base, |digits| - 1);
      NoDigitsOfZero(base);
    } else if |digits| == CountDigits(val, base) {
      ShedLast(val, base);
      DivModUnique(Shed(val, base, |digits| - 1), base, 0, Shed(val, base, |digits| - 1));
      hide Shed, Quot, Rem, CountDigits;
      assert digits[0] == DigitChar(Shed(val, base, |digits| - 1), upper);
    }
  }

  /** A decimal without zeros in front is read in base 0 as well: a first digit 0 stands alone. */
  lemma PlainDecimalRead(val: nat, f: Flags, width: int, prec: int)
    requires val < W64 && !f.tick && (f.minus || !f.zero) && prec <= 1
    ensures Parse(IntText(val, f, 10, width, prec), 0)
            == Parsed(Clamp(Negative(val, f), Magnitude(val, f)),
                      |IntText(val, f, 10, width, prec)| - Trailing(val, f, 10, width, prec))
  {
    hide IntText, NumberText, Trailing, Parse, Shed, Quot, Rem, Value, Numeral, InBase, CountDigits, AllInBase, Fill,
      DigitsShown, Recognised, Clamp, Magnitude, SignText, Blank;
    var pad, sign, zeros, number, tail := Layout(val, f, 10, width, prec);
    var mag := Magnitude(val, f);
    var d := DigitsShown(mag, f, 10, prec);
    Fills(0, 0);
    assert Fill('0', zeros, 0) + number == number;
    ZerosInFront(zeros, mag, 10, f.upper, d);
    PlainNumber(mag, 10, f.upper, d, 0);
    JustEnough(number, mag, f, prec);
    Scanned(pad, sign, "", number, tail, if mag == 0 then 8 else 10, 0);
  }

  /** No more digits than needed: recognised as octal only when it is a lone zero. */
  lemma JustEnough(digits: string, mag: nat, f: Flags, prec: int)
    requires Numeral(digits, mag, 10, f.upper) && |digits| == DigitsShown(mag, f, 10, prec) && prec <= 1
    ensures var base := if mag == 0 then 8 else 10;
            Recognised("", digits, base, 0) && AllInBase(digits, base) && Value(digits, 0, |digits|, base) == mag
  {
    hide Numeral, AllInBase, Value, CountDigits;
    NoDigits(mag, 10);
    LeadingZero(digits, mag, 10, f.upper);
    NumeralReads(digits, mag, 10, f.upper);
    if mag == 0 {
      assert digits == "0";
      LoneZero();
    }
  }

  lemma NoDigits(val: nat, base: nat)
    requires base >= 2
    ensures CountDigits(val, base) == 0 <==> val == 0
  {
  }

  lemma LoneZero()
    ensures AllInBase("0", 8) && Value("0", 0, 1, 8) == 0
  {
    assert Value("0", 0, 0, 8) == 0;
  }

  // ----- through the format

  lemma SignMatches(w: nat, v: int)
    requires Signed32(w) == v
    ensures SignExtended(w, W32) == if v < 0 then W64 + v else v
    ensures v >= 0 ==> Unsigned(w, W32) == v
  {
    hide Rem;
  }

  /** Every signed 32-bit value printed by %d is read back, in base 10 and in base 0, up to the terminator. */
  lemma DecimalRoundTrip(v: int, args: Args)
    requires LONG_MIN <= v <= LONG_MAX && Signed32(args.word(0)) == v
    ensures WellFormed("%d", 0, args, 0)
    ensures var text := Render("%d", 0, args, 0);
            Parse(text, 10) == Parse(text, 0) == Parsed(v, |text|)
  {
    hide IntText, Parse, SignExtended, Unsigned, Signed32;
    var fmt := "%d";
    var d := Directive(NO_FLAGS, 0, -1, RANK_INT, 'd', 2, 0);
    assert FromLength(fmt, 1, NO_FLAGS, 0, -1, RANK_INT, 0) == d;
    assert FromFlags(fmt, 1, NO_FLAGS, args, 0) == d;
    assert WellFormed(fmt, 2, args, 1);
    var f := NO_FLAGS.(signed := true);
    var val := SignExtended(args.word(0), W32);
    SignMatches(args.word(0), v);
    assert Converted(d, args) == IntText(val, f, 10, 0, -1);
    assert Render(fmt, 0, args, 0) == IntText(val, f, 10, 0, -1) + Render(fmt, 2, args, 1) == IntText(val, f, 10, 0, -1);
    PrintThenRead(val, f, 10, 0, -1, 10);
    PlainDecimalRead(val, f, 0, -1);
  }

  /** Every value in 0..2^31-1 printed by %#o or %#x is read back in base 0 up to the terminator. */
  lemma PrefixedRoundTrip(v: int, args: Args, ch: char)
    requires 0 <= v <= LONG_MAX && Signed32(args.word(0)) == v && (ch == 'o' || ch == 'x' || ch == 'X')
    ensures WellFormed("%#" + [ch], 0, args, 0)
    ensures var text := Render("%#" + [ch], 0, args, 0); Parse(text, 0) == Parsed(v, |text|)
  {
    hide IntText, Parse, SignExtended, Unsigned, Signed32;
    var fmt := "%#" + [ch];
    var f := NO_FLAGS.(hash := true);
    var d := Directive(f, 0, -1, RANK_INT, ch, 3, 0);
    assert FromLength(fmt, 2, f, 0, -1, RANK_INT, 0) == d;
    assert FromWidth(fmt, 2, f, 0, args, 0) == d;
    assert FromFlags(fmt, 2, f, args, 0) == d;
    assert FromFlags(fmt, 1, NO_FLAGS, args, 0) == d;
    assert WellFormed(fmt, 3, args, 1);
    var val := Unsigned(args.word(0), W32);
    SignMatches(args.word(0), v);
    var g := if ch == 'X' then f.(upper := true) else f;
    var base := if ch == 'o' then 8 else 16;
    assert Converted(d, args) == IntText(val, g, base, 0, -1);
    assert Render(fmt, 0, args, 0) == IntText(val, g, base, 0, -1) + Render(fmt, 3, args, 1) == IntText(val, g, base, 0, -1);
    PrintThenRead(val, g, base, 0, -1, 0);
  }
}
