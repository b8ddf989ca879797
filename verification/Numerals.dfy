/**
 Numbers as they are written: a number spelled out in a base with the usual alphabet.
 What src/printf.c prints and what `strtol` of src/string.c reads are both stated in
 terms of it.
 */
module Numerals {
  import opened Words
  import opened Printf
  import opened Strtol
  import opened RoundTrip

  const LOWER: string := "0123456789abcdefghijklmnopqrstuvwxyz"
  const UPPER: string := "0123456789ABCDEFGHIJKLMNOPQRSTUVWXYZ"

  function Alphabet(upper: bool): (s: string)
    ensures |s| == 36
  {
    if upper then UPPER else LOWER
  }

  /** A number in a base, without zeros in front. */
  function Spelled(v: nat, base: nat, upper: bool): (s: string)
    requires 2 <= base <= 36
    ensures s != ""
    decreases v
  {
    QuotLess(v, base);
    if v < base then [Alphabet(upper)[v]]
    else Spelled(Quot(v, base), base, upper) + [Alphabet(upper)[Rem(v, base)]]
  }

  /** The two alphabets, letter by letter. */
  lemma Letters(d: nat)
    requires d < 36
    ensures LOWER[d] == if d < 10 then '0' + d as char else 'a' + (d - 10) as char
    ensures UPPER[d] == if d < 10 then '0' + d as char else 'A' + (d - 10) as char
  {
  }

  lemma LetterValue(d: nat, upper: bool)
    requires d < 36
    ensures DigitOf(Alphabet(upper)[d]) == d
    ensures d < 16 ==> Alphabet(upper)[d] == DigitChar(d, upper)
  {
    Letters(d);
  }

  // ----- reading

  lemma {:induction false} SpelledInBase(v: nat, base: nat, upper: bool)
    requires 2 <= base <= 36
    ensures AllInBase(Spelled(v, base, upper), base)
    decreases v
  {
    hide DigitOf, Quot, Rem;
    QuotLess(v, base);
    if v < base {
      LetterValue(v, upper);
    } else {
      SpelledInBase(Quot(v, base), base, upper);
      LetterValue(Rem(v, base), upper);
    }
  }

  lemma {:induction false} SpelledValue(v: nat, base: nat, upper: bool)
    requires 2 <= base <= 36
    ensures var s := Spelled(v, base, upper); Value(s, 0, |s|, base) == v
    decreases v
  {
    hide DigitOf, Quot, Rem, Mul;
    QuotLess(v, base);
    var s := Spelled(v, base, upper);
    if v < base {
      LetterValue(v, upper);
      assert Value(s, 0, 0, base) == 0;
      NoProduct(base);
    } else {
      var q, r := Quot(v, base), Rem(v, base);
      var front := Spelled(q, base, upper);
      SpelledValue(q, base, upper);
      LetterValue(r, upper);
      QuotRem(v, base);
      assert s[0..|front|] == front;
      ValueInside(s, 0, front, |front|, base);
    }
  }

  lemma NoProduct(base: nat)
    ensures Mul(0, base) == 0
  {
  }

  /** The six characters of white space. */
  ghost predicate White(s: string)
  {
    forall c | c in s :: c in [' ', '\t', '\n', '\U{000B}', '\U{000C}', '\r']
  }

  /** The text begins with a digit of the base. */
  ghost predicate StartsWithDigit(s: string, base: nat)
    requires base <= 36
  {
    s != "" && (s[0] in LOWER[..base] || s[0] in UPPER[..base])
  }

  lemma DigitInAlphabet(c: char, base: nat)
    requires base <= 36
    ensures InBase(c, base) <==> c in LOWER[..base] || c in UPPER[..base]
  {
    if InBase(c, base) {
      InEither(c, base);
    }
    if c in LOWER[..base] {
      LetterInBase(c, base, false);
    }
    if c in UPPER[..base] {
      LetterInBase(c, base, true);
    }
  }

  lemma InEither(c: char, base: nat)
    requires base <= 36 && InBase(c, base)
    ensures c in LOWER[..base] || c in UPPER[..base]
  {
    var d := DigitOf(c);
    Letters(d);
    hide *;
    assert LOWER[..base][d] == LOWER[d] && UPPER[..base][d] == UPPER[d];
  }

  lemma LetterInBase(c: char, base: nat, upper: bool)
    requires base <= 36 && c in Alphabet(upper)[..base]
    ensures InBase(c, base)
  {
    hide DigitOf, Alphabet;
    var d :| 0 <= d < base && Alphabet(upper)[d] == c;
    LetterValue(d, upper);
  }

  /** A single 0 in front of an x, which in base 16 is a prefix. */
  ghost predicate LooksHex(v: nat, base: nat, tail: string)
  {
    base == 16 && v == 0 && tail != "" && (tail[0] == 'x' || tail[0] == 'X')
  }

  lemma SignPlace(space: string, sign: string, rest: string)
    requires White(space) && sign in ["", "+", "-"]
    requires sign == "" ==> rest == "" || (!IsSpace(rest[0]) && rest[0] != '+' && rest[0] != '-')
    ensures var s := space + sign + rest;
            SkipSpaces(s, 0) == |space| && SignEnd(s) == |space + sign| && (At(s, |space|) == '-' <==> sign == "-")
  {
    var s := space + sign + rest;
    assert sign != "" ==> s[|space|] == sign[0];
    assert sign == "" && rest != "" ==> s[|space|] == rest[0];
    forall k | 0 <= k < |space| ensures IsSpace(s[k]) {
      assert s[k] == space[k] && space[k] in space;
    }
    SkipsTo(s, 0, |space|);
  }

  lemma PlainFront(space: string, sign: string, digits: string, tail: string, base: nat)
    requires White(space) && sign in ["", "+", "-"] && 2 <= base <= 36
    requires digits != "" && AllInBase(digits, base)
    requires !(base == 16 && digits == "0" && tail != "" && (tail[0] == 'x' || tail[0] == 'X'))
    ensures FrontOf(space + sign + (digits + tail), base) == Front(sign == "-", base, |space + sign|)
  {
    var s := space + sign + (digits + tail);
    var j := |space + sign|;
    assert InBase(digits[0], base);
    SignPlace(space, sign, digits + tail);
    assert s[j] == digits[0];
    assert |digits| > 1 ==> s[j + 1] == digits[1] && InBase(digits[1], base);
    assert |digits| == 1 && tail != "" ==> s[j + 1] == tail[0];
    assert !HexPrefix(s, j, base);
  }

  /**
   Every number in every base from 2 to 36, in either case, behind any white space and
   sign and before anything but another digit, is read to its end as the 32-bit number
   nearest to it.
   */
  lemma NumeralRead(space: string, sign: string, v: nat, base: nat, upper: bool, tail: string)
    requires White(space) && sign in ["", "+", "-"] && 2 <= base <= 36
    requires !StartsWithDigit(tail, base) && !LooksHex(v, base, tail)
    ensures var digits := Spelled(v, base, upper); var p := Parse(space + sign + (digits + tail), base);
            p.end == |space + sign + digits| && Nearest32(if sign == "-" then 0 - v else v, p.value)
  {
    hide FrontOf, Value, Run, Nearest32, InBase, Spelled;
    SpelledInBase(v, base, upper);
    SpelledZero(v, base, upper);
    PlainFront(space, sign, Spelled(v, base, upper), tail, base);
    SpelledRun(space + sign, v, base, upper, tail);
    ClampNearest(sign == "-", v, Clamp(sign == "-", v));
  }

  /** The digits are all of the number, and its value is the number. */
  lemma SpelledRun(front: string, v: nat, base: nat, upper: bool, tail: string)
    requires 2 <= base <= 36 && !StartsWithDigit(tail, base)
    ensures var digits := Spelled(v, base, upper); var s := front + (digits + tail);
            Run(s, |front|, base) == |digits| && Value(s, |front|, |digits|, base) == v
  {
    hide Value, Run, DigitOf, InBase, Spelled;
    var digits := Spelled(v, base, upper);
    SpelledInBase(v, base, upper);
    SpelledValue(v, base, upper);
    var s, from := front + (digits + tail), |front|;
    Inside(front, digits, tail);
    forall m | from <= m < from + |digits| ensures InBase(s[m], base) {
      assert InBase(digits[m - from], base);
    }
    if tail != "" {
      DigitInAlphabet(tail[0], base);
    } else {
      NoDigitAtEnd(base);
    }
    RunIs(s, from, |digits|, base);
    ValueInside(s, from, digits, |digits|, base);
  }

  lemma Inside(a: string, b: string, c: string)
    ensures var s := a + (b + c);
            && s[|a|..|a| + |b|] == b && |s| == |a| + |b| + |c|
            && (forall m | |a| <= m < |a| + |b| :: s[m] == b[m - |a|]) && (c != "" ==> s[|a| + |b|] == c[0])
  {
  }

  lemma NoDigitAtEnd(base: nat)
    ensures !InBase('\0', base)
  {
  }

  lemma {:induction false} SpelledZero(v: nat, base: nat, upper: bool)
    requires 2 <= base <= 36
    ensures Spelled(v, base, upper) == "0" <==> v == 0
    ensures v > 0 ==> Spelled(v, base, upper)[0] != '0'
    decreases v
  {
    hide Quot, Rem;
    QuotLess(v, base);
    if v < base {
      LetterValue(v, upper);
      LetterValue(0, upper);
    } else {
      QuotPositive(v, base);
      SpelledZero(Quot(v, base), base, upper);
    }
  }

  lemma QuotPositive(v: nat, base: nat)
    requires v >= base > 0
    ensures Quot(v, base) > 0
  {
    DivBounds(v, base);
  }

  /** Where no digit follows the white space and the sign, nothing is read. */
  lemma NoNumeralRead(space: string, sign: string, tail: string, base: nat)
    requires White(space) && sign in ["", "+", "-"] && 2 <= base <= 36 && !StartsWithDigit(tail, base)
    requires sign == "" ==> tail == "" || (!White([tail[0]]) && tail[0] != '+' && tail[0] != '-')
    ensures Parse(space + sign + tail, base) == Parsed(0, 0)
  {
    var s := space + sign + tail;
    var j := |space + sign|;
    SignPlace(space, sign, tail);
    if tail != "" {
      assert s[j] == tail[0];
      DigitInAlphabet(tail[0], base);
      DigitInAlphabet('0', base);
      Letters(0);
      assert LOWER[..base][0] == '0';
    }
    assert !InBase(At(s, j), base);
    assert Run(s, j, base) == 0;
  }

  // ----- printing

  function Repeat(c: char, n: nat): (s: string)
    ensures |s| == n
  {
    seq(n, (i: nat) => c)
  }

  lemma NextDigit(val: nat, base: nat, upper: bool, d: nat)
    requires 2 <= base <= 16 && d > 1
    ensures Rem(val, base) < 16
    ensures NumberText(val, base, upper, d, d)
            == NumberText(Quot(val, base), base, upper, d - 1, d - 1) + [DigitChar(Rem(val, base), upper)]
  {
    hide NumberText, Quot, Rem, Shed, DigitChar;
    var whole, front := NumberText(val, base, upper, d, d), NumberText(Quot(val, base), base, upper, d - 1, d - 1);
    PlainNumber(val, base, upper, d, d - 1);
    PlainNumber(Quot(val, base), base, upper, d - 1, 0);
    ShedNone(val, base);
    forall k | 0 <= k < d - 1 ensures whole[k] == front[k] {
      PlainNumber(val, base, upper, d, k);
      PlainNumber(Quot(val, base), base, upper, d - 1, k);
      ShedFront(val, base, d - 1 - k);
    }
  }

  lemma ShedNone(val: nat, base: nat)
    requires base > 0
    ensures Shed(val, base, 0) == val
  {
  }

  lemma CountSmall(val: nat, base: nat)
    requires base >= 2
    ensures val < base ==> CountDigits(val, base) == if val == 0 then 0 else 1
    ensures val >= base ==> CountDigits(val, base) == 1 + CountDigits(Quot(val, base), base)
    ensures val < base <==> Quot(val, base) == 0
    ensures val < base ==> Rem(val, base) == val
  {
    QuotLess(val, base);
    if val < base {
      DivModUnique(val, base, 0, val);
    } else {
      QuotPositive(val, base);
    }
  }

  /** What is printed without marks is the number spelled out, behind as many zeros as it takes. */
  lemma {:induction false} SpelledText(val: nat, base: nat, upper: bool, d: nat)
    requires 2 <= base <= 16 && d > 0 && d >= CountDigits(val, base)
    ensures var s := Spelled(val, base, upper);
            && |s| == (if val == 0 then 1 else CountDigits(val, base)) <= d
            && NumberText(val, base, upper, d, d) == Repeat('0', d - |s|) + s
    decreases d
  {
    hide NumberText, Quot, Rem, CountDigits, DigitChar, CharFromRight, TextLength, DigitOf, Spelled, Repeat, Alphabet;
    CountSmall(val, base);
    SpelledStep(val, base, upper);
    QuotLess(val, base);
    if d == 1 {
      CountNone(Quot(val, base), base);
      PlainNumber(val, base, upper, 1, 0);
      ShedNone(val, base);
      assert NumberText(val, base, upper, 1, 1) == [DigitChar(Rem(val, base), upper)];
      ZerosThen(0, Spelled(val, base, upper), "");
    } else {
      NextDigit(val, base, upper, d);
      var q, last := Quot(val, base), [DigitChar(Rem(val, base), upper)];
      CountNone(0, base);
      SpelledText(q, base, upper, d - 1);
      SpelledZero(0, base, upper);
      ZerosThen(d - 1 - |Spelled(q, base, upper)|, Spelled(q, base, upper), last);
    }
  }

  lemma SpelledStep(v: nat, base: nat, upper: bool)
    requires 2 <= base <= 16
    ensures Rem(v, base) < 16
    ensures Spelled(v, base, upper)
            == (if v < base then "" else Spelled(Quot(v, base), base, upper)) + [DigitChar(Rem(v, base), upper)]
  {
    hide Quot, Rem;
    QuotLess(v, base);
    CountSmall(v, base);
    LetterValue(Rem(v, base), upper);
  }

  lemma ZerosThen(n: nat, s: string, last: string)
    ensures Repeat('0', n) + s + last == Repeat('0', n) + (s + last)
    ensures Repeat('0', 0) + s == s
    ensures Repeat('0', n) + "0" == Repeat('0', n + 1)
  {
  }

  lemma CountNone(val: nat, base: nat)
    requires base >= 2
    ensures CountDigits(val, base) == 0 <==> val == 0
  {
  }

  // ----- marks between groups

  /** A mark in front of every `k` characters counted from the right, but not in front of all. */
  function Grouped(s: string, k: nat): string
    requires k > 0
    decreases |s|
  {
    if |s| <= k then s else Grouped(s[..|s| - k], k) + "_" + s[|s| - k..]
  }

  lemma {:induction false} ShedTwice(val: nat, base: nat, a: nat, b: nat)
    requires base > 0
    ensures Shed(val, base, a + b) == Shed(Shed(val, base, a), base, b)
    decreases b
  {
    if b > 0 {
      ShedTwice(val, base, a, b - 1);
    }
  }

  /** The last group holds the last digits. */
  lemma LowDigit(val: nat, base: nat, upper: bool, skip: nat, j: nat)
    requires 2 <= base <= 16 && j < skip
    ensures Rem(Shed(val, base, j), base) < 16
    ensures CharFromRight(val, base, upper, skip, j) == DigitChar(Rem(Shed(val, base, j), base), upper)
  {
    hide Quot, Rem, Shed, DigitChar;
    SmallQuot(j, skip + 1);
    QuotLess(Shed(val, base, j), base);
  }

  lemma SmallQuot(j: nat, m: nat)
    requires j < m
    ensures Quot(j, m) == 0 && Rem(j, m) == j
  {
    DivModUnique(j, m, 0, j);
  }

  lemma MarkThere(val: nat, base: nat, upper: bool, skip: nat)
    requires 2 <= base <= 16 && skip > 0
    ensures CharFromRight(val, base, upper, skip, skip) == '_'
  {
    hide Quot, Rem, Shed, DigitChar;
    SmallQuot(skip, skip + 1);
  }

  lemma NextQuot(j: nat, m: nat)
    requires j >= m > 0
    ensures Quot(j, m) == Quot(j - m, m) + 1 && Rem(j, m) == Rem(j - m, m)
  {
    QuotRem(j - m, m);
    var q, r := Quot(j - m, m), Rem(j - m, m);
    hide Quot, Rem;
    MulAdd(q, 1, m);
    MulOne(m);
    QuotUnique(j, m, q + 1, r);
  }

  /** Left of the first mark stands the number without its last digits, grouped in turn. */
  lemma HighDigit(val: nat, base: nat, upper: bool, skip: nat, j: nat)
    requires 2 <= base <= 16 && skip > 0 && j > skip
    ensures CharFromRight(val, base, upper, skip, j)
            == CharFromRight(Shed(val, base, skip), base, upper, skip, j - (skip + 1))
  {
    hide Quot, Rem, Shed, DigitChar;
    var i := j - (skip + 1);
    NextQuot(j, skip + 1);
    TickStep(i, skip);
    assert DigitIndex(j, skip) == skip + DigitIndex(i, skip);
    ShedTwice(val, base, skip, DigitIndex(i, skip));
  }

  lemma NoMarks(val: nat, base: nat, upper: bool, d: nat, skip: nat)
    requires 2 <= base <= 16 && 0 < d <= skip
    ensures NumberText(val, base, upper, d, skip) == NumberText(val, base, upper, d, d)
  {
    hide Quot, Rem, Shed, DigitChar, CharFromRight, NumberText;
    SmallQuot(d - 1, skip);
    SmallQuot(d - 1, d);
    var text, plain := NumberText(val, base, upper, d, skip), NumberText(val, base, upper, d, d);
    forall k | 0 <= k < d ensures text[k] == plain[k] {
      LowDigit(val, base, upper, skip, d - 1 - k);
      LowDigit(val, base, upper, d, d - 1 - k);
    }
  }

  lemma LastGroup(val: nat, base: nat, upper: bool, d: nat, skip: nat)
    requires 2 <= base <= 16 && 0 < skip < d
    ensures var plain, high := NumberText(val, base, upper, d, d), Shed(val, base, skip);
            && |plain| == d && plain[..d - skip] == NumberText(high, base, upper, d - skip, d - skip)
            && NumberText(val, base, upper, d, skip)
               == NumberText(high, base, upper, d - skip, skip) + "_" + plain[d - skip..]
  {
    hide TextLength, CharFromRight, NumberText, Shed;
    var text := NumberText(val, base, upper, d, skip);
    HighPart(val, base, upper, d, skip);
    LeftPart(val, base, upper, d, skip);
    LowPart(val, base, upper, d, skip);
    Rebuilt(text, |text| - skip - 1);
  }

  /** The last group. */
  lemma LowPart(val: nat, base: nat, upper: bool, d: nat, skip: nat)
    requires 2 <= base <= 16 && 0 < skip < d
    ensures var plain, text := NumberText(val, base, upper, d, d), NumberText(val, base, upper, d, skip);
            |plain| == d && |text| > d && text[|text| - skip..] == plain[d - skip..]
  {
    hide Quot, Rem, Shed, DigitChar, CharFromRight, NumberText;
    var plain, text := NumberText(val, base, upper, d, d), NumberText(val, base, upper, d, skip);
    SmallQuot(d - 1, d);
    NextQuot(d - 1, skip);
    var low, last := plain[d - skip..], text[|text| - skip..];
    forall k | 0 <= k < skip ensures last[k] == low[k] {
      LowDigit(val, base, upper, skip, skip - 1 - k);
      LowDigit(val, base, upper, d, skip - 1 - k);
      assert last[k] == text[|text| - skip + k] && low[k] == plain[d - skip + k];
    }
    assert last == low;
  }

  lemma Rebuilt(text: string, n: nat)
    requires n < |text|
    ensures text == text[..n] + [text[n]] + text[n + 1..]
  {
  }

  /** The digits in front of the last group. */
  lemma HighPart(val: nat, base: nat, upper: bool, d: nat, skip: nat)
    requires 2 <= base <= 16 && 0 < skip < d
    ensures var plain := NumberText(val, base, upper, d, d);
            |plain| == d && plain[..d - skip] == NumberText(Shed(val, base, skip), base, upper, d - skip, d - skip)
  {
    hide Quot, Rem, Shed, DigitChar, CharFromRight, NumberText;
    var high := Shed(val, base, skip);
    var plain, front := NumberText(val, base, upper, d, d), NumberText(high, base, upper, d - skip, d - skip);
    SmallQuot(d - 1, d);
    SmallQuot(d - skip - 1, d - skip);
    forall k | 0 <= k < d - skip ensures plain[k] == front[k] {
      LowDigit(val, base, upper, d, d - 1 - k);
      LowDigit(high, base, upper, d - skip, d - skip - 1 - k);
      ShedTwice(val, base, skip, d - skip - 1 - k);
    }
  }

  /** What stands left of the last mark, and the mark. */
  lemma LeftPart(val: nat, base: nat, upper: bool, d: nat, skip: nat)
    requires 2 <= base <= 16 && 0 < skip < d
    ensures var text, left := NumberText(val, base, upper, d, skip),
                              NumberText(Shed(val, base, skip), base, upper, d - skip, skip);
            |text| == |left| + 1 + skip && text[..|left|] == left && text[|left|] == '_'
  {
    hide Quot, Rem, Shed, DigitChar, CharFromRight, NumberText;
    var high := Shed(val, base, skip);
    var text, left := NumberText(val, base, upper, d, skip), NumberText(high, base, upper, d - skip, skip);
    NextQuot(d - 1, skip);
    forall k | 0 <= k < |left| ensures text[k] == left[k] {
      HighDigit(val, base, upper, skip, |text| - 1 - k);
    }
    MarkThere(val, base, upper, skip);
  }

  /** The ' flag groups the digits from the right. */
  lemma {:induction false} GroupedText(val: nat, base: nat, upper: bool, d: nat, skip: nat)
    requires 2 <= base <= 16 && d > 0 && skip > 0
    ensures NumberText(val, base, upper, d, skip) == Grouped(NumberText(val, base, upper, d, d), skip)
    decreases d
  {
    hide NumberText, TextLength, CharFromRight, Shed;
    PlainNumber(val, base, upper, d, 0);
    if d <= skip {
      NoMarks(val, base, upper, d, skip);
    } else {
      LastGroup(val, base, upper, d, skip);
      GroupedText(Shed(val, base, skip), base, upper, d - skip, skip);
    }
  }

  // ----- one integer conversion

  /** At least so many digits, with zeros in front. */
  function AtLeast(s: string, n: int): string { Repeat('0', if n > |s| then n - |s| else 0) + s }

  /** The sign, the prefix and the digits of a number as printed, before any padding to a width. */
  ghost function SignShown(negative: bool, f: Flags): string
  {
    if negative then "-" else if f.plus then "+" else if f.space then " " else ""
  }

  ghost function PrefixShown(f: Flags, base: nat): string
  {
    if !f.hash || base != 16 then "" else if f.upper then "0X" else "0x"
  }

  ghost function DigitsOf(mag: nat, f: Flags, base: nat, prec: int): string
    requires 2 <= base <= 16
  {
    var s := Spelled(mag, base, f.upper);
    var digits := AtLeast(if f.hash && base == 8 && mag > 0 && prec <= |s| then "0" + s else s, prec);
    if !f.tick then digits else Grouped(digits, if base == 16 then 4 else 3)
  }

  /** A field of a least width: blanks behind if it is left-adjusted, zeros inside or blanks in front if not. */
  function Field(minus: bool, zero: bool, width: int, lead: string, body: string): string
  {
    var used := |lead| + |body|;
    var gap := if width > used then width - used else 0;
    if minus then lead + body + Repeat(' ', gap)
    else if zero then lead + Repeat('0', gap) + body
    else Repeat(' ', gap) + lead + body
  }

  lemma FillRepeats(x: char, width: int, limit: int)
    ensures Fill(x, width, limit) == Repeat(x, if width > limit then width - limit else 0)
  {
  }

  lemma DigitsAre(mag: nat, f: Flags, base: nat, prec: int)
    requires 2 <= base <= 16
    ensures var d := DigitsShown(mag, f, base, prec);
            NumberText(mag, base, f.upper, d, TickSkip(f, base, d)) == DigitsOf(mag, f, base, prec)
  {
    hide NumberText, CountDigits, Spelled, DigitsShown, TextLength, CharFromRight, AtLeast, Grouped;
    var d := DigitsShown(mag, f, base, prec);
    SpelledText(mag, base, f.upper, d);
    CountShown(mag, f, base, prec);
    ZerosNeeded(Spelled(mag, base, f.upper), f.hash && base == 8 && mag > 0, prec);
    if f.tick {
      GroupedText(mag, base, f.upper, d, if base == 16 then 4 else 3);
    }
  }

  lemma CountShown(mag: nat, f: Flags, base: nat, prec: int)
    requires 2 <= base <= 16
    ensures var n := if mag == 0 then 1 else CountDigits(mag, base);
            DigitsShown(mag, f, base, prec)
            == if f.hash && base == 8 && mag > 0 && prec <= n then n + 1 else if prec > n then prec else n
  {
    CountNone(mag, base);
    hide CountDigits;
  }

  lemma ZerosNeeded(s: string, one: bool, prec: int)
    ensures var d := if one && prec <= |s| then |s| + 1 else if prec > |s| then prec else |s|;
            Repeat('0', d - |s|) + s == AtLeast(if one && prec <= |s| then "0" + s else s, prec)
  {
    assert Repeat('0', 1) == "0" && Repeat('0', 0) == "";
  }

  /** The text of an integer conversion in terms of the number spelled out. */
  lemma IntTextIs(val: nat, f: Flags, base: nat, width: int, prec: int)
    requires val < W64 && 2 <= base <= 16
    ensures var negative := f.signed && val >= W63; var mag := if negative then W64 - val else val;
            IntText(val, f, base, width, prec)
            == Field(f.minus, f.zero, width, SignShown(negative, f) + PrefixShown(f, base), DigitsOf(mag, f, base, prec))
  {
    hide NumberText, DigitsShown, Fill, Repeat, DigitsOf, TickSkip;
    var mag := Magnitude(val, f);
    DigitsAre(mag, f, base, prec);
    var number := DigitsOf(mag, f, base, prec);
    var lead := SignShown(Negative(val, f), f) + PrefixShown(f, base);
    var used := |lead| + |number|;
    FillRepeats(' ', width, used);
    FillRepeats('0', width, used);
    assert lead == SignText(Negative(val, f), f) + PrefixText(f, base);
  }
}
