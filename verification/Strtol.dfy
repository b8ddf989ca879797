/**
 Reading integers, `strtol` of src/string.c.  A string is a sequence of characters
 whose terminator stands just past its end; no read goes further.
 */
module Strtol {
  import opened Words

  const LONG_MAX: int := 0x7FFF_FFFF
  const LONG_MIN: int := -0x8000_0000

  predicate IsSpace(c: char) { c == ' ' || '\t' <= c <= '\r' }

  function At(s: string, i: nat): char
    requires i <= |s|
  {
    if i < |s| then s[i] else '\0'
  }

  /** The value of a digit or letter, and nothing for any other character. */
  function DigitOf(c: char): (d: int)
    ensures -1 <= d < 36
  {
    if '0' <= c <= '9' then c as int - '0' as int
    else if 'A' <= c <= 'Z' then c as int - 'A' as int + 10
    else if 'a' <= c <= 'z' then c as int - 'a' as int + 10
    else -1
  }

  predicate InBase(c: char, base: nat) { 0 <= DigitOf(c) < base }

  // ----- the meaning of a numeral

  /** The first position from `i` on that is no white space. */
  ghost function SkipSpaces(s: string, i: nat): (j: nat)
    requires i <= |s|
    ensures i <= j <= |s| && !IsSpace(At(s, j))
    decreases |s| - i
  {
    if i < |s| && IsSpace(s[i]) then SkipSpaces(s, i + 1) else i
  }

  /** How many digits of the base stand from `i` on. */
  ghost function Run(s: string, i: nat, base: nat): (k: nat)
    requires i <= |s|
    ensures i + k <= |s|
    decreases |s| - i
  {
    if i < |s| && InBase(s[i], base) then 1 + Run(s, i + 1, base) else 0
  }

  /** The value of `k` digits from `i` on. */
  ghost function Value(s: string, i: nat, k: nat, base: nat): nat
    requires i + k <= |s|
  {
    if k == 0 then 0
    else Mul(Value(s, i, k - 1, base), base) + if InBase(s[i + k - 1], base) then DigitOf(s[i + k - 1]) else 0
  }

  /** Sign, base and first digit of a numeral. */
  datatype Front = Front(neg: bool, base: nat, from: nat)

  /** The position after white space and sign. */
  ghost function SignEnd(s: string): (j: nat)
    ensures j <= |s|
  {
    var i := SkipSpaces(s, 0);
    if At(s, i) == '-' || At(s, i) == '+' then i + 1 else i
  }

  /** `0x` stands at `j` and the base admits it. */
  ghost predicate HexPrefix(s: string, j: nat, base: nat)
    requires j <= |s|
    ensures HexPrefix(s, j, base) ==> j + 2 <= |s|
  {
    (base == 0 || base == 16) && At(s, j) == '0' && (At(s, j + 1) == 'x' || At(s, j + 1) == 'X')
  }

  ghost function FrontAs(s: string, base: nat, hex: bool): (f: Front)
    requires hex ==> SignEnd(s) + 2 <= |s|
    ensures f.from <= |s| && f.base > 0
  {
    var j := SignEnd(s);
    Front(At(s, SkipSpaces(s, 0)) == '-',
          if hex then 16 else if base != 0 then base else if At(s, j) == '0' then 8 else 10,
          if hex then j + 2 else j)
  }

  /** As the code has it: `0x` is a prefix whatever follows. */
  ghost function FrontOf(s: string, base: nat): (f: Front)
    ensures f.from <= |s| && f.base > 0
  {
    FrontAs(s, base, HexPrefix(s, SignEnd(s), base))
  }

  function Clamp(neg: bool, v: nat): int
  {
    if neg then if v > -LONG_MIN then LONG_MIN else -(v as int)
    else if v > LONG_MAX then LONG_MAX else v
  }

  /** `r` is the number of 32 bits that is nearest to `exact`. */
  ghost predicate Nearest32(exact: int, r: int)
  {
    && -0x8000_0000 <= r <= 0x7FFF_FFFF
    && forall n: int | -0x8000_0000 <= n <= 0x7FFF_FFFF :: Away(exact, r) <= Away(exact, n)
  }

  function Away(x: int, y: int): nat { if x <= y then y - x else x - y }

  /** A value out of range becomes the end of the range on its own side, and no other. */
  lemma ClampNearest(neg: bool, v: nat, r: int)
    ensures Nearest32(if neg then 0 - v else v, r) <==> r == Clamp(neg, v)
  {
    var exact := if neg then 0 - v else v;
    var c := Clamp(neg, v);
    assert Away(exact, c) == (if exact > 0x7FFF_FFFF then exact - 0x7FFF_FFFF
                              else if exact < -0x8000_0000 then -0x8000_0000 - exact else 0);
    if Nearest32(exact, r) {
      assert Away(exact, r) <= Away(exact, c);
    }
  }

  datatype Parsed = Parsed(value: int, end: nat)

  ghost function ParseFrom(s: string, f: Front): Parsed
    requires f.from <= |s|
  {
    var k := Run(s, f.from, f.base);
    if k == 0 then Parsed(0, 0) else Parsed(Clamp(f.neg, Value(s, f.from, k, f.base)), f.from + k)
  }

  /** The digit prefix's value clamped to 32 bits, and where it ends; without a digit, nothing is read. */
  ghost function Parse(s: string, base: nat): Parsed { ParseFrom(s, FrontOf(s, base)) }

  // ----- white space in front

  lemma {:induction false} RunBehind(c: char, s: string, i: nat, base: nat)
    requires i <= |s|
    ensures Run([c] + s, i + 1, base) == Run(s, i, base)
    decreases |s| - i
  {
    if i < |s| {
      assert ([c] + s)[i + 1] == s[i];
      RunBehind(c, s, i + 1, base);
    }
  }

  lemma {:induction false} ValueBehind(c: char, s: string, i: nat, k: nat, base: nat)
    requires i + k <= |s|
    ensures Value([c] + s, i + 1, k, base) == Value(s, i, k, base)
  {
    if k > 0 {
      assert ([c] + s)[i + k] == s[i + k - 1];
      ValueBehind(c, s, i, k - 1, base);
    }
  }

  lemma {:induction false} SpacesBehind(c: char, s: string, i: nat)
    requires i <= |s|
    ensures SkipSpaces([c] + s, i + 1) == SkipSpaces(s, i) + 1
    decreases |s| - i
  {
    if i < |s| {
      assert ([c] + s)[i + 1] == s[i];
      SpacesBehind(c, s, i + 1);
    }
  }

  lemma AtBehind(c: char, s: string, i: nat)
    requires i <= |s|
    ensures At([c] + s, i + 1) == At(s, i)
  {
  }

  lemma FrontBehind(c: char, s: string, base: nat)
    requires c in [' ', '\t', '\n', '\U{000B}', '\U{000C}', '\r']
    ensures var f, g := FrontOf(s, base), FrontOf([c] + s, base);
            g.neg == f.neg && g.base == f.base && g.from == f.from + 1
  {
    hide SkipSpaces;
    var t := [c] + s;
    var i := SkipSpaces(s, 0);
    assert SkipSpaces(t, 0) == i + 1 by { FirstSkipped(c, s); }
    AtBehind(c, s, i);
    var j := SignEnd(s);
    assert SignEnd(t) == j + 1;
    AtBehind(c, s, j);
    if j + 1 <= |s| {
      AtBehind(c, s, j + 1);
    }
  }

  lemma FirstSkipped(c: char, s: string)
    requires c in [' ', '\t', '\n', '\U{000B}', '\U{000C}', '\r']
    ensures SkipSpaces([c] + s, 0) == SkipSpaces(s, 0) + 1
  {
    assert ([c] + s)[0] == c && IsSpace(c);
    SpacesBehind(c, s, 0);
  }

  /** Blank, tab, newline, vertical tab, form feed or carriage return in front: the same value, one place further. */
  lemma SpaceInFront(c: char, s: string, base: nat)
    requires c in [' ', '\t', '\n', '\U{000B}', '\U{000C}', '\r']
    ensures var p, q := Parse(s, base), Parse([c] + s, base);
            q.value == p.value && q.end == if p.end == 0 then 0 else p.end + 1
  {
    hide FrontOf;
    var f := FrontOf(s, base);
    FrontBehind(c, s, base);
    RunBehind(c, s, f.from, f.base);
    ValueBehind(c, s, f.from, Run(s, f.from, f.base), f.base);
  }

  // ----- the numeral the C standard means

  /** `0x` stands where the base admits it, with no hexadecimal digit behind it. */
  ghost predicate BarePrefix(s: string, base: nat)
  {
    HexPrefix(s, SignEnd(s), base) && !InBase(At(s, SignEnd(s) + 2), 16)
  }

  /** Section 7.22.1.4 of ISO/IEC 9899:2011: `0x` belongs to the numeral only with a digit behind it. */
  ghost function StdParse(s: string, base: nat): Parsed
  {
    ParseFrom(s, FrontAs(s, base, HexPrefix(s, SignEnd(s), base) && !BarePrefix(s, base)))
  }

  /** The code reads the standard's numeral except after a bare prefix, where it reads nothing instead of the 0. */
  lemma StandardUnlessBarePrefix(s: string, base: nat)
    ensures Parse(s, base) == StdParse(s, base) <==> !BarePrefix(s, base)
    ensures BarePrefix(s, base) ==> Parse(s, base) == Parsed(0, 0) && StdParse(s, base) == Parsed(0, SignEnd(s) + 1)
  {
    if BarePrefix(s, base) {
      var j := SignEnd(s);
      var b := if base == 16 then 16 else 8;
      assert !InBase(At(s, j + 1), b) && InBase(s[j], b);
      assert Run(s, j + 1, b) == 0 && Run(s, j, b) == 1;
      assert Value(s, j, 0, b) == 0;
      assert Value(s, j, 1, b) == 0;
      assert Run(s, j + 2, 16) == 0;
    }
  }

  lemma PrefixAlone()
    ensures Parse("0x", 0) == Parsed(0, 0) && StdParse("0x", 0) == Parsed(0, 1)
    ensures Parse("0xg", 16) == Parsed(0, 0) && StdParse("0xg", 16) == Parsed(0, 1)
  {
    assert SkipSpaces("0x", 0) == 0 && SkipSpaces("0xg", 0) == 0;
    assert BarePrefix("0x", 0) && BarePrefix("0xg", 16);
    assert SignEnd("0x") == 0 == SignEnd("0xg");
    hide *;
    StandardUnlessBarePrefix("0x", 0);
    StandardUnlessBarePrefix("0xg", 16);
  }

  // ----- the overflow test

  /** Comparing with quotient and remainder of the limit decides whether one more digit fits. */
  lemma CutoffExact(acc: nat, d: nat, base: nat, limit: nat)
    requires d < base
    ensures (acc > Quot(limit, base) || (acc == Quot(limit, base) && d > Rem(limit, base)))
            <==> Mul(acc, base) + d > limit
  {
    var q, r := Quot(limit, base), Rem(limit, base);
    assert limit == Mul(q, base) + r && r < base;
    hide Quot, Rem;
    if acc > q {
      MulMono(q + 1, acc, base);
    } else if acc < q {
      MulMono(acc + 1, q, base);
    }
  }

  /** Once beyond the limit, always beyond it. */
  lemma StaysBeyond(v: nat, base: nat, limit: nat)
    requires v > limit && base > 0
    ensures Mul(v, base) > limit
  {
    MulMono(1, base, v);
  }

  function ToLong(u: nat): int
    requires u < W32
  {
    if u < 0x8000_0000 then u else u - W32
  }

  /** Skip white space, take the sign, settle the base: `c` is the character before `s`. */
  method ReadFront(nptr: string, base0: nat) returns (f: Front, c: char, s: nat)
    ensures f == FrontOf(nptr, base0) && s == f.from + 1 && c == At(nptr, f.from)
  {
    c, s := At(nptr, 0), 1;
    while IsSpace(c)
      invariant 1 <= s <= |nptr| + 1 && c == At(nptr, s - 1)
      invariant SkipSpaces(nptr, 0) == SkipSpaces(nptr, s - 1)
      decreases |nptr| + 1 - s
    {
      c, s := At(nptr, s), s + 1;
    }
    var neg := false;
    if c == '-' {
      neg := true;
      c, s := At(nptr, s), s + 1;
    } else if c == '+' {
      c, s := At(nptr, s), s + 1;
    }
    var base := base0;
    if (base == 0 || base == 16) && c == '0' && (At(nptr, s) == 'x' || At(nptr, s) == 'X') {
      c, s := At(nptr, s + 1), s + 2;
      base := 16;
    }
    if base == 0 {
      base := if c == '0' then 8 else 10;
    }
    f := Front(neg, base, s - 1);
  }

  /** `strtol`: the value returned and the offset stored through `endptr`. */
  method StrToL(nptr: string, base0: nat) returns (value: int, end: nat)
    ensures Parsed(value, end) == Parse(nptr, base0)
    ensures var f := FrontOf(nptr, base0); var k := Run(nptr, f.from, f.base);
            if k == 0 then value == 0 && end == 0
            else
              && end == f.from + k
              && Nearest32(if f.neg then 0 - Value(nptr, f.from, k, f.base) else Value(nptr, f.from, k, f.base), value)
  {
    hide FrontOf, Mul, Quot, Rem, Nearest32;
    var f, c, s := ReadFront(nptr, base0);
    var base, from := f.base, f.from;
    var limit := if f.neg then 0x8000_0000 else 0x7FFF_FFFF;
    var cutlim, cutoff := Rem(limit, base), Quot(limit, base);
    var acc: nat, any := 0, 0;
    while true
      invariant from < s <= |nptr| + 1 && c == At(nptr, s - 1)
      invariant Run(nptr, from, base) == s - 1 - from + Run(nptr, s - 1, base)
      invariant any == 0 <==> s - 1 == from
      invariant any >= 0 ==> acc == Value(nptr, from, s - 1 - from, base) <= limit
      invariant any < 0 ==> Value(nptr, from, s - 1 - from, base) > limit
      decreases |nptr| + 1 - s
    {
      var d := DigitOf(c);
      if d < 0 || d >= base {
        break;
      }
      CutoffExact(acc, d, base, limit);
      if any < 0 || acc > cutoff || (acc == cutoff && d > cutlim) {
        if any < 0 {
          StaysBeyond(Value(nptr, from, s - 1 - from, base), base, limit);
        }
        any := -1;
      } else {
        any := 1;
        acc := Mul(acc, base) + d;
      }
      c, s := At(nptr, s), s + 1;
    }
    if any < 0 {
      acc := limit;
    } else if f.neg {
      acc := if acc == 0 then 0 else W32 - acc;
    }
    value := ToLong(acc);
    end := if any != 0 then s - 1 else 0;
    ClampNearest(f.neg, Value(nptr, from, s - 1 - from, base), value);
  }
}
