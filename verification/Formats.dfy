/**
 What a format prints, src/printf.c, read off the format as a programmer writes it: a row
 of plain texts and conversion specifications.
 */
module Formats {
  import opened Words
  import opened Printf
  import opened Strtol
  import opened Numerals

  // ----- a format behind another text

  ghost function Later(d: Directive, n: nat): Directive
  {
    if d.Unfinished? then d else d.(next := d.next + n)
  }

  lemma CharBehind(a: string, b: string, p: nat)
    requires p < |b|
    ensures |a| + p < |a + b| && (a + b)[|a| + p] == b[p]
  {
  }

  lemma {:induction false} LengthBehind(a: string, b: string, p: nat, f: Flags, width: int, prec: int, rank: int, at: nat)
    ensures FromLength(a + b, |a| + p, f, width, prec, rank, at) == Later(FromLength(b, p, f, width, prec, rank, at), |a|)
    decreases |b| - p
  {
    if p < |b| {
      CharBehind(a, b, p);
      if IsLength(b[p]) {
        LengthBehind(a, b, p + 1, f, width, prec, Ranked(rank, b[p]), at);
      }
    }
  }

  lemma {:induction false} PrecBehind(a: string, b: string, p: nat, f: Flags, width: int, prec: int, args: Args, at: nat)
    ensures FromPrec(a + b, |a| + p, f, width, prec, args, at) == Later(FromPrec(b, p, f, width, prec, args, at), |a|)
    decreases |b| - p
  {
    hide Signed32, FromLength;
    if p < |b| {
      CharBehind(a, b, p);
      if IsDigit(b[p]) {
        PrecBehind(a, b, p + 1, f, width, 10 * prec + DigitValue(b[p]), args, at);
      } else if b[p] == '*' {
        var w := Signed32(args.word(at));
        PrecBehind(a, b, p + 1, f, width, if w < 0 then -1 else w, args, at + 1);
      } else {
        LengthBehind(a, b, p, f, width, prec, RANK_INT, at);
      }
    }
  }

  lemma {:induction false} WidthBehind(a: string, b: string, p: nat, f: Flags, width: int, args: Args, at: nat)
    ensures FromWidth(a + b, |a| + p, f, width, args, at) == Later(FromWidth(b, p, f, width, args, at), |a|)
    decreases |b| - p
  {
    hide Signed32, FromLength, FromPrec;
    if p < |b| {
      CharBehind(a, b, p);
      if IsDigit(b[p]) {
        WidthBehind(a, b, p + 1, f, 10 * width + DigitValue(b[p]), args, at);
      } else if b[p] == '*' {
        var w := Signed32(args.word(at));
        WidthBehind(a, b, p + 1, if w < 0 then f.(minus := true) else f, if w < 0 then -w else w, args, at + 1);
      } else if b[p] == '.' {
        PrecBehind(a, b, p + 1, f, width, 0, args, at);
      } else {
        LengthBehind(a, b, p, f, width, -1, RANK_INT, at);
      }
    }
  }

  lemma {:induction false} FlagsBehind(a: string, b: string, p: nat, f: Flags, args: Args, at: nat)
    ensures FromFlags(a + b, |a| + p, f, args, at) == Later(FromFlags(b, p, f, args, at), |a|)
    decreases |b| - p
  {
    hide FromWidth, WithFlag;
    if p < |b| {
      CharBehind(a, b, p);
      if IsFlag(b[p]) {
        FlagsBehind(a, b, p + 1, WithFlag(f, b[p]), args, at);
      } else {
        WidthBehind(a, b, p, f, 0, args, at);
      }
    }
  }

  /** A format prints the same wherever it stands. */
  lemma {:induction false} RenderBehind(a: string, b: string, p: nat, args: Args, at: nat)
    ensures WellFormed(a + b, |a| + p, args, at) <==> WellFormed(b, p, args, at)
    ensures WellFormed(b, p, args, at) ==> Render(a + b, |a| + p, args, at) == Render(b, p, args, at)
    decreases |b| - p
  {
    hide FromFlags, Converted, Printable;
    if p < |b| {
      CharBehind(a, b, p);
      if b[p] != '%' {
        RenderBehind(a, b, p + 1, args, at);
      } else {
        FlagsBehind(a, b, p + 1, NO_FLAGS, args, at);
        var d := FromFlags(b, p + 1, NO_FLAGS, args, at);
        if d.Directive? {
          SameConverted(d, |a|, args);
          RenderBehind(a, b, d.next, args, d.at + Fetches(d.conv));
        }
      }
    }
  }

  lemma SameConverted(d: Directive, n: nat, args: Args)
    requires d.Directive?
    ensures Printable(Later(d, n)) <==> Printable(d)
    ensures Printable(d) ==> Converted(Later(d, n), args) == Converted(d, args)
  {
  }

  /** Text without a percent sign is printed as it stands, and the rest behind it. */
  lemma {:induction false} TextPrints(s: string, fmt: string, args: Args, at: nat)
    requires '%' !in s
    ensures WellFormed(s + fmt, 0, args, at) <==> WellFormed(fmt, 0, args, at)
    ensures WellFormed(fmt, 0, args, at) ==> Render(s + fmt, 0, args, at) == s + Render(fmt, 0, args, at)
  {
    hide WellFormed, Render;
    if s == "" {
      assert s + fmt == fmt;
      assert WellFormed(fmt, 0, args, at) ==> "" + Render(fmt, 0, args, at) == Render(fmt, 0, args, at);
    } else {
      var rest := s[1..];
      assert s[0] in s && forall c | c in rest :: c in s;
      TextPrints(rest, fmt, args, at);
      RenderBehind([s[0]], rest + fmt, 0, args, at);
      FirstOfText(s, fmt);
      OrdinaryFirst(s + fmt, args, at);
      if WellFormed(fmt, 0, args, at) {
        FirstOfText(s, Render(fmt, 0, args, at));
      }
    }
  }

  lemma FirstOfText(s: string, t: string)
    requires s != ""
    ensures (s + t)[0] == s[0] && [s[0]] + (s[1..] + t) == s + t
  {
  }

  lemma OrdinaryFirst(fmt: string, args: Args, at: nat)
    requires fmt != "" && fmt[0] != '%'
    ensures WellFormed(fmt, 0, args, at) <==> WellFormed(fmt, 1, args, at)
    ensures WellFormed(fmt, 0, args, at) ==> Render(fmt, 0, args, at) == [fmt[0]] + Render(fmt, 1, args, at)
  {
  }

  // ----- conversion specifications as they are written

  datatype Amount = Digits(s: string) | Star

  datatype Precision = NoPrecision | Precision(amount: Amount)

  datatype Spec = Spec(flags: string, width: Amount, prec: Precision, length: string, conv: char)

  /** The conversions that take an argument. */
  const TAKING: string := "diuoxXpPcsn"

  /** Any character that is no flag, digit, star, point or length. */
  ghost predicate Converts(c: char)
  {
    !('0' <= c <= '9') && c !in ['-', '+', '\'', ' ', '#', '*', '.', 'h', 'l', 'j', 'z', 't', 'L', 'q']
  }

  ghost predicate AllDigits(s: string) { forall c | c in s :: '0' <= c <= '9' }

  ghost predicate AllFlags(s: string) { forall c | c in s :: c in ['-', '+', '\'', ' ', '#', '0'] }

  ghost predicate Proper(spec: Spec)
  {
    && AllFlags(spec.flags)
    && (spec.width.Digits? ==> AllDigits(spec.width.s) && (spec.width.s == "" || spec.width.s[0] != '0'))
    && (spec.prec.Precision? && spec.prec.amount.Digits? ==> AllDigits(spec.prec.amount.s))
    && spec.length in ["", "hh", "h", "l", "ll", "j", "z", "t", "L", "q"]
    && Converts(spec.conv)
  }

  function AmountText(a: Amount): string { if a.Star? then "*" else a.s }

  function PrecisionText(p: Precision): string { if p.NoPrecision? then "" else "." + AmountText(p.amount) }

  /** The specification behind its percent sign. */
  function Body(spec: Spec): string
  {
    spec.flags + AmountText(spec.width) + PrecisionText(spec.prec) + spec.length + [spec.conv]
  }

  function Spell(spec: Spec): string { "%" + Body(spec) }

  // ----- what a specification means

  /** The number that digits go on to spell, in base ten. */
  function Decimal(sofar: nat, s: string): nat
    requires AllDigits(s)
    decreases |s|
  {
    if s == "" then sofar
    else
      assert s[0] in s && forall c | c in s[1..] :: c in s;
      Decimal(10 * sofar + (s[0] as int - '0' as int), s[1..])
  }

  /** An argument taken as a signed number of so many values. */
  function Narrow(w: nat, size: nat): int
    requires size > 0
  {
    if 2 * (w % size) >= size then w % size - size else w % size
  }

  function Taken(a: Amount): nat { if a.Star? then 1 else 0 }

  function PrecisionTaken(p: Precision): nat { if p.NoPrecision? then 0 else Taken(p.amount) }

  function Size(length: string): (size: nat)
    ensures 2 <= size <= W64
  {
    if length == "hh" then 0x100
    else if length == "h" then 0x1_0000
    else if length in ["ll", "j", "L", "q"] then W64
    else W32
  }

  ghost function FlagsOf(spec: Spec, args: Args, at: nat): Flags
  {
    Flags('0' in spec.flags, '-' in spec.flags || (spec.width.Star? && Narrow(args.word(at), W32) < 0), '+' in spec.flags,
          '\'' in spec.flags, ' ' in spec.flags, '#' in spec.flags, false, false)
  }

  ghost function WidthOf(a: Amount, args: Args, at: nat): int
    requires a.Digits? ==> AllDigits(a.s)
  {
    match a
    case Digits(s) => Decimal(0, s)
    case Star => var w := Narrow(args.word(at), W32); if w < 0 then -w else w
  }

  ghost function PrecisionOf(p: Precision, args: Args, at: nat): int
    requires p.Precision? && p.amount.Digits? ==> AllDigits(p.amount.s)
  {
    match p
    case NoPrecision => -1
    case Precision(Digits(s)) => Decimal(0, s)
    case Precision(Star) => var w := Narrow(args.word(at), W32); if w < 0 then -1 else w
  }

  function Clip(s: string, prec: int): string { if 0 <= prec < |s| then s[..prec] else s }

  /** An unsigned number printed in a base. */
  ghost function UnsignedShown(v: nat, f: Flags, base: nat, width: int, prec: int): string
    requires 2 <= base <= 16
  {
    Field(f.minus, f.zero, width, SignShown(false, f) + PrefixShown(f, base), DigitsOf(v, f, base, prec))
  }

  ghost function SignedShown(v: int, f: Flags, width: int, prec: int): string
  {
    Field(f.minus, f.zero, width, SignShown(v < 0, f), DigitsOf(if v < 0 then -v else v, f, 10, prec))
  }

  /** The text of one specification. */
  ghost function Shown(spec: Spec, args: Args, at: nat): string
    requires Proper(spec)
  {
    var f, width := FlagsOf(spec, args, at), WidthOf(spec.width, args, at);
    var prec := PrecisionOf(spec.prec, args, at + Taken(spec.width));
    var a := at + Taken(spec.width) + PrecisionTaken(spec.prec);
    var w, size := args.word(a), Size(spec.length);
    match spec.conv
    case 'd' => SignedShown(Narrow(w, size), f, width, prec)
    case 'i' => SignedShown(Narrow(w, size), f, width, prec)
    case 'u' => UnsignedShown(w % size, f, 10, width, prec)
    case 'o' => UnsignedShown(w % size, f, 8, width, prec)
    case 'x' => UnsignedShown(w % size, f, 16, width, prec)
    case 'X' => UnsignedShown(w % size, f.(upper := true), 16, width, prec)
    case 'p' => UnsignedShown(w % W32, f.(hash := true), 16, width, 8)
    case 'P' => UnsignedShown(w % W32, f.(hash := true, upper := true), 16, width, 8)
    case 'c' => Field(f.minus, f.zero, width, "", Clip([(w % 256) as char], prec))
    case 's' => Field(f.minus, f.zero, width, "", Clip(if args.text(a).Null? then "(null)" else args.text(a).s, prec))
    case 'n' => ""
    case _ => [spec.conv]
  }

  /** How many arguments it takes. */
  function Uses(spec: Spec): nat
  {
    Taken(spec.width) + PrecisionTaken(spec.prec) + if spec.conv in TAKING then 1 else 0
  }

  // ----- reading a specification

  ghost function WithFlags(f: Flags, s: string): Flags
    decreases |s|
  {
    if s == "" then f else WithFlags(WithFlag(f, s[0]), s[1..])
  }

  lemma {:induction false} FlagsMean(f: Flags, s: string)
    requires AllFlags(s)
    ensures WithFlags(f, s)
            == Flags(f.zero || '0' in s, f.minus || '-' in s, f.plus || '+' in s, f.tick || '\'' in s,
                     f.space || ' ' in s, f.hash || '#' in s, f.signed, f.upper)
    decreases |s|
  {
    if s != "" {
      FirstOr(s);
      FlagMeans(f, s[0]);
      hide WithFlag;
      FlagsMean(WithFlag(f, s[0]), s[1..]);
    }
  }

  lemma FirstOr(s: string)
    requires s != ""
    ensures s[0] in s && forall c :: c in s <==> c == s[0] || c in s[1..]
  {
    assert s == [s[0]] + s[1..];
  }

  lemma FlagMeans(f: Flags, c: char)
    requires c in ['-', '+', '\'', ' ', '#', '0']
    ensures WithFlag(f, c)
            == Flags(f.zero || c == '0', f.minus || c == '-', f.plus || c == '+', f.tick || c == '\'',
                     f.space || c == ' ', f.hash || c == '#', f.signed, f.upper)
  {
  }

  ghost predicate StandsAt(fmt: string, p: nat, s: string) { p + |s| <= |fmt| && fmt[p..p + |s|] == s }

  lemma FirstStands(fmt: string, p: nat, s: string)
    requires StandsAt(fmt, p, s) && s != ""
    ensures fmt[p] == s[0] && s[0] in s && StandsAt(fmt, p + 1, s[1..])
    ensures forall c | c in s[1..] :: c in s
  {
    assert fmt[p + 1..p + |s|] == fmt[p..p + |s|][1..];
    assert fmt[p] == fmt[p..p + |s|][0];
  }

  lemma {:induction false} FlagsRead(fmt: string, p: nat, s: string, f: Flags, args: Args, at: nat)
    requires StandsAt(fmt, p, s) && AllFlags(s)
    ensures FromFlags(fmt, p, f, args, at) == FromFlags(fmt, p + |s|, WithFlags(f, s), args, at)
    decreases |s|
  {
    hide FromWidth, WithFlag;
    if s != "" {
      FirstStands(fmt, p, s);
      FlagsRead(fmt, p + 1, s[1..], WithFlag(f, s[0]), args, at);
    }
  }

  lemma {:induction false} WidthRead(fmt: string, p: nat, s: string, f: Flags, width: nat, args: Args, at: nat)
    requires StandsAt(fmt, p, s) && AllDigits(s)
    ensures FromWidth(fmt, p, f, width, args, at) == FromWidth(fmt, p + |s|, f, Decimal(width, s), args, at)
    decreases |s|
  {
    hide FromPrec, FromLength, Signed32;
    if s != "" {
      FirstStands(fmt, p, s);
      WidthRead(fmt, p + 1, s[1..], f, 10 * width + DigitValue(s[0]), args, at);
    }
  }

  lemma {:induction false} PrecisionRead(fmt: string, p: nat, s: string, f: Flags, width: int, prec: nat, args: Args, at: nat)
    requires StandsAt(fmt, p, s) && AllDigits(s)
    ensures FromPrec(fmt, p, f, width, prec, args, at) == FromPrec(fmt, p + |s|, f, width, Decimal(prec, s), args, at)
    decreases |s|
  {
    hide FromLength, Signed32;
    if s != "" {
      FirstStands(fmt, p, s);
      PrecisionRead(fmt, p + 1, s[1..], f, width, 10 * prec + DigitValue(s[0]), args, at);
    }
  }

  ghost function RankedBy(rank: int, s: string): int
    decreases |s|
  {
    if s == "" then rank else RankedBy(Ranked(rank, s[0]), s[1..])
  }

  lemma {:induction false} LengthRead(fmt: string, p: nat, s: string, f: Flags, width: int, prec: int, rank: int, at: nat)
    requires StandsAt(fmt, p, s) && forall c | c in s :: IsLength(c)
    ensures FromLength(fmt, p, f, width, prec, rank, at)
            == FromLength(fmt, p + |s|, f, width, prec, RankedBy(rank, s), at)
    decreases |s|
  {
    if s != "" {
      FirstStands(fmt, p, s);
      LengthRead(fmt, p + 1, s[1..], f, width, prec, Ranked(rank, s[0]), at);
    }
  }

  lemma LengthMeans(s: string)
    requires s in ["", "hh", "h", "l", "ll", "j", "z", "t", "L", "q"]
    ensures (forall c | c in s :: IsLength(c)) && RankSize(RankedBy(RANK_INT, s)) == Size(s)
  {
    if s == "hh" || s == "ll" {
      assert s[1..] == [s[0]] && s[1..][1..] == "";
      assert RankedBy(RANK_INT, s) == RankedBy(Ranked(RANK_INT, s[0]), s[1..]);
      assert RankedBy(Ranked(RANK_INT, s[0]), s[1..]) == RankedBy(Ranked(Ranked(RANK_INT, s[0]), s[0]), "");
    } else if s != "" {
      assert s[1..] == "";
      assert RankedBy(RANK_INT, s) == RankedBy(Ranked(RANK_INT, s[0]), "");
    }
  }

  lemma NarrowIs(w: nat)
    ensures Signed32(w) == Narrow(w, W32)
  {
  }

  /** The character is neither a digit nor a star nor, where asked, a point. */
  ghost predicate Ends(c: char) { !IsDigit(c) && c != '*' }

  lemma WidthDone(fmt: string, p: nat, a: Amount, f: Flags, args: Args, at: nat)
    requires StandsAt(fmt, p, AmountText(a)) && (a.Digits? ==> AllDigits(a.s))
    ensures var w := Narrow(args.word(at), W32);
            FromWidth(fmt, p, f, 0, args, at)
            == FromWidth(fmt, p + |AmountText(a)|, if a.Star? && w < 0 then f.(minus := true) else f,
                         WidthOf(a, args, at), args, at + Taken(a))
  {
    hide FromPrec, FromLength, Narrow, Signed32;
    NarrowIs(args.word(at));
    match a {
      case Digits(s) => WidthRead(fmt, p, s, f, 0, args, at);
      case Star => FirstStands(fmt, p, "*");
    }
  }

  lemma PrecisionDone(fmt: string, p: nat, prec: Precision, f: Flags, width: int, args: Args, at: nat)
    requires StandsAt(fmt, p, PrecisionText(prec))
    requires prec.Precision? && prec.amount.Digits? ==> AllDigits(prec.amount.s)
    requires var q := p + |PrecisionText(prec)|; q < |fmt| && Ends(fmt[q]) && fmt[q] != '.'
    ensures FromWidth(fmt, p, f, width, args, at)
            == FromLength(fmt, p + |PrecisionText(prec)|, f, width, PrecisionOf(prec, args, at), RANK_INT,
                          at + PrecisionTaken(prec))
  {
    hide FromWidth, FromPrec, FromLength, StandsAt, AllDigits, PrecisionOf, AmountText;
    if prec.NoPrecision? {
      WidthStop(fmt, p, f, width, args, at);
      NoneGiven(args, at);
    } else {
      var text := AmountText(prec.amount);
      FirstStands(fmt, p, "." + text);
      assert ("." + text)[1..] == text;
      Point(fmt, p, f, width, args, at);
      AmountRead(fmt, p + 1, prec.amount, f, width, args, at);
      PrecisionStop(fmt, p + 1 + |text|, f, width, PrecisionOf(prec, args, at), args, at + Taken(prec.amount));
    }
  }

  lemma NoneGiven(args: Args, at: nat)
    ensures PrecisionOf(NoPrecision, args, at) == -1
  {
  }

  lemma AmountRead(fmt: string, p: nat, a: Amount, f: Flags, width: int, args: Args, at: nat)
    requires StandsAt(fmt, p, AmountText(a)) && (a.Digits? ==> AllDigits(a.s))
    ensures FromPrec(fmt, p, f, width, 0, args, at)
            == FromPrec(fmt, p + |AmountText(a)|, f, width, PrecisionOf(Precision(a), args, at), args, at + Taken(a))
  {
    hide FromPrec, FromLength, Narrow, StandsAt, AllDigits;
    match a {
      case Digits(s) => PrecisionRead(fmt, p, s, f, width, 0, args, at);
      case Star =>
        FirstStands(fmt, p, "*");
        PrecisionStar(fmt, p, f, width, 0, args, at);
    }
  }

  lemma WidthStop(fmt: string, p: nat, f: Flags, width: int, args: Args, at: nat)
    requires p < |fmt| && Ends(fmt[p]) && fmt[p] != '.'
    ensures FromWidth(fmt, p, f, width, args, at) == FromLength(fmt, p, f, width, -1, RANK_INT, at)
  {
  }

  lemma Point(fmt: string, p: nat, f: Flags, width: int, args: Args, at: nat)
    requires p < |fmt| && fmt[p] == '.'
    ensures FromWidth(fmt, p, f, width, args, at) == FromPrec(fmt, p + 1, f, width, 0, args, at)
  {
  }

  lemma PrecisionStop(fmt: string, p: nat, f: Flags, width: int, prec: int, args: Args, at: nat)
    requires p < |fmt| && Ends(fmt[p])
    ensures FromPrec(fmt, p, f, width, prec, args, at) == FromLength(fmt, p, f, width, prec, RANK_INT, at)
  {
  }

  lemma PrecisionStar(fmt: string, p: nat, f: Flags, width: int, prec: int, args: Args, at: nat)
    requires p < |fmt| && fmt[p] == '*'
    ensures var w := Narrow(args.word(at), W32);
            FromPrec(fmt, p, f, width, prec, args, at) == FromPrec(fmt, p + 1, f, width, if w < 0 then -1 else w, args, at + 1)
  {
    NarrowIs(args.word(at));
    hide Narrow, Signed32;
  }

  lemma Places(spec: Spec, fmt: string, p: nat)
    requires StandsAt(fmt, p, Body(spec))
    ensures var p1 := p + |spec.flags|; var p2 := p1 + |AmountText(spec.width)|;
            var p3 := p2 + |PrecisionText(spec.prec)|; var p4 := p3 + |spec.length|;
            && StandsAt(fmt, p, spec.flags) && StandsAt(fmt, p1, AmountText(spec.width))
            && StandsAt(fmt, p2, PrecisionText(spec.prec)) && StandsAt(fmt, p3, spec.length)
            && p4 + 1 == p + |Body(spec)| <= |fmt| && fmt[p4] == spec.conv
  {
    hide AmountText, PrecisionText, StandsAt;
    var a, b, c, d, e := spec.flags, AmountText(spec.width), PrecisionText(spec.prec), spec.length, [spec.conv];
    PartsOf(a, b, c, d, e);
    PartStands(fmt, p, "", a, b + c + d + e);
    PartStands(fmt, p, a, b, c + d + e);
    PartStands(fmt, p, a + b, c, d + e);
    PartStands(fmt, p, a + b + c, d, e);
    PartStands(fmt, p, a + b + c + d, e, "");
    LastStands(fmt, p + |a + b + c + d|, spec.conv);
    Within(fmt, p, Body(spec));
  }

  lemma PartsOf(a: string, b: string, c: string, d: string, e: string)
    ensures var s := a + b + c + d + e;
            && s == "" + a + (b + c + d + e) == a + b + (c + d + e) == a + b + c + (d + e) == a + b + c + d + e + ""
  {
    assert a + b + (c + d + e) == a + b + c + d + e;
    assert a + b + c + (d + e) == a + b + c + d + e;
    assert "" + a + (b + c + d + e) == a + (b + c + d + e) == a + b + c + d + e;
  }

  lemma LastStands(fmt: string, p: nat, c: char)
    requires StandsAt(fmt, p, [c])
    ensures p < |fmt| && fmt[p] == c
  {
    assert fmt[p] == fmt[p..p + 1][0];
  }

  lemma Within(fmt: string, p: nat, s: string)
    requires StandsAt(fmt, p, s)
    ensures p + |s| <= |fmt|
  {
  }

  lemma PartStands(fmt: string, p: nat, a: string, b: string, c: string)
    requires StandsAt(fmt, p, a + b + c)
    ensures StandsAt(fmt, p + |a|, b)
  {
    PartOf(a, b, c);
    SliceOf(fmt, p, a + b + c, |a|, |a| + |b|);
  }

  lemma PartOf(a: string, b: string, c: string)
    ensures (a + b + c)[|a|..|a| + |b|] == b
  {
  }

  lemma SliceOf(fmt: string, p: nat, s: string, i: nat, j: nat)
    requires StandsAt(fmt, p, s) && i <= j <= |s|
    ensures fmt[p + i..p + j] == s[i..j]
  {
    var part, whole := fmt[p + i..p + j], fmt[p..p + |s|];
    assert whole == s && |part| == j - i;
    forall k | 0 <= k < |part| ensures part[k] == s[i..j][k] {
      assert whole[i + k] == fmt[p + (i + k)];
    }
    assert part == s[i..j];
  }

  lemma FlagsDone(spec: Spec, fmt: string, p: nat, args: Args, at: nat)
    requires Proper(spec) && StandsAt(fmt, p, Body(spec))
    ensures var f := WithFlags(NO_FLAGS, spec.flags); var w := Narrow(args.word(at), W32);
            && FromFlags(fmt, p, NO_FLAGS, args, at) == FromWidth(fmt, p + |spec.flags|, f, 0, args, at)
            && FlagsOf(spec, args, at) == if spec.width.Star? && w < 0 then f.(minus := true) else f
  {
    hide FromFlags, FromWidth, Narrow, WithFlag, WithFlags, FlagsOf, AmountText, PrecisionText, StandsAt, AllDigits, AllFlags;
    Places(spec, fmt, p);
    FlagsRead(fmt, p, spec.flags, NO_FLAGS, args, at);
    FlagsOfIs(spec, args, at);
    NoFlagNext(spec, fmt, p + |spec.flags|);
    FlagsStop(fmt, p + |spec.flags|, WithFlags(NO_FLAGS, spec.flags), args, at);
  }

  lemma FlagsOfIs(spec: Spec, args: Args, at: nat)
    requires AllFlags(spec.flags)
    ensures var f := WithFlags(NO_FLAGS, spec.flags); var w := Narrow(args.word(at), W32);
            FlagsOf(spec, args, at) == if spec.width.Star? && w < 0 then f.(minus := true) else f
  {
    hide Narrow, WithFlags;
    FlagsMean(NO_FLAGS, spec.flags);
  }

  lemma FlagsStop(fmt: string, p: nat, f: Flags, args: Args, at: nat)
    requires p < |fmt| && !IsFlag(fmt[p])
    ensures FromFlags(fmt, p, f, args, at) == FromWidth(fmt, p, f, 0, args, at)
  {
  }

  lemma NoFlagNext(spec: Spec, fmt: string, p: nat)
    requires Proper(spec) && StandsAt(fmt, p, AmountText(spec.width))
    requires var p2 := p + |AmountText(spec.width)|; var p3 := p2 + |PrecisionText(spec.prec)|;
             && StandsAt(fmt, p2, PrecisionText(spec.prec)) && StandsAt(fmt, p3, spec.length)
             && p3 + |spec.length| < |fmt| && fmt[p3 + |spec.length|] == spec.conv
    ensures p < |fmt| && !IsFlag(fmt[p])
  {
    var text := AmountText(spec.width);
    if text != "" {
      FirstStands(fmt, p, text);
    } else if spec.prec.Precision? {
      FirstStands(fmt, p, PrecisionText(spec.prec));
    } else if spec.length != "" {
      FirstStands(fmt, p, spec.length);
    }
  }

  lemma EndsNext(spec: Spec, fmt: string, p: nat)
    requires Proper(spec) && StandsAt(fmt, p, spec.length)
    requires p + |spec.length| < |fmt| && fmt[p + |spec.length|] == spec.conv
    ensures p < |fmt| && Ends(fmt[p]) && fmt[p] != '.'
  {
    if spec.length != "" {
      FirstStands(fmt, p, spec.length);
    }
  }

  /** The specification as the scanner has it when it comes to the conversion character. */
  ghost function Understood(spec: Spec, args: Args, at: nat, next: nat): Directive
    requires Proper(spec)
  {
    Directive(FlagsOf(spec, args, at), WidthOf(spec.width, args, at),
              PrecisionOf(spec.prec, args, at + Taken(spec.width)), RankedBy(RANK_INT, spec.length), spec.conv, next,
              at + Taken(spec.width) + PrecisionTaken(spec.prec))
  }

  /** A specification is understood as it was meant. */
  lemma SpecRead(spec: Spec, fmt: string, p: nat, args: Args, at: nat)
    requires Proper(spec) && StandsAt(fmt, p, Body(spec))
    ensures FromFlags(fmt, p, NO_FLAGS, args, at) == Understood(spec, args, at, p + |Body(spec)|)
  {
    hide FromFlags, FromWidth, FromPrec, FromLength, WithFlags, FlagsOf, WidthOf, Narrow, AmountText, PrecisionText,
      StandsAt, SpecTail;
    Places(spec, fmt, p);
    FlagsDone(spec, fmt, p, args, at);
    var p1 := p + |spec.flags|;
    WidthDone(fmt, p1, spec.width, WithFlags(NO_FLAGS, spec.flags), args, at);
    TailRead(spec, fmt, p1 + |AmountText(spec.width)|, FlagsOf(spec, args, at), WidthOf(spec.width, args, at), args,
             at + Taken(spec.width));
    TailIs(spec, args, at, p + |Body(spec)|);
  }

  ghost function SpecTail(spec: Spec, f: Flags, width: int, args: Args, at: nat, next: nat): Directive
    requires Proper(spec)
  {
    Directive(f, width, PrecisionOf(spec.prec, args, at), RankedBy(RANK_INT, spec.length), spec.conv, next,
              at + PrecisionTaken(spec.prec))
  }

  lemma TailIs(spec: Spec, args: Args, at: nat, next: nat)
    requires Proper(spec)
    ensures SpecTail(spec, FlagsOf(spec, args, at), WidthOf(spec.width, args, at), args, at + Taken(spec.width), next)
            == Understood(spec, args, at, next)
  {
  }

  /** From the precision on. */
  lemma TailRead(spec: Spec, fmt: string, p: nat, f: Flags, width: int, args: Args, at: nat)
    requires Proper(spec) && StandsAt(fmt, p, PrecisionText(spec.prec))
    requires var q := p + |PrecisionText(spec.prec)|;
             StandsAt(fmt, q, spec.length) && q + |spec.length| < |fmt| && fmt[q + |spec.length|] == spec.conv
    ensures FromWidth(fmt, p, f, width, args, at)
            == SpecTail(spec, f, width, args, at, p + |PrecisionText(spec.prec)| + |spec.length| + 1)
  {
    hide FromWidth, FromPrec, PrecisionOf, Narrow, PrecisionText, StandsAt, RankedBy;
    var q := p + |PrecisionText(spec.prec)|;
    EndsNext(spec, fmt, q);
    PrecisionDone(fmt, p, spec.prec, f, width, args, at);
    LengthMeans(spec.length);
    LengthRead(fmt, q, spec.length, f, width, PrecisionOf(spec.prec, args, at), RANK_INT, at + PrecisionTaken(spec.prec));
    NoLength(spec);
  }

  lemma NoLength(spec: Spec)
    requires Proper(spec)
    ensures !IsLength(spec.conv)
  {
  }

  // ----- printing a specification

  lemma SignedIs(w: nat, size: nat, f: Flags, width: int, prec: int)
    requires 2 <= size <= W64 && size % 2 == 0 && !f.signed
    ensures IntText(SignExtended(w, size), f.(signed := true), 10, width, prec)
            == SignedShown(Narrow(w, size), f, width, prec)
  {
    hide IntText, Spelled, AtLeast, Grouped, Field;
    IntTextIs(SignExtended(w, size), f.(signed := true), 10, width, prec);
    assert SignShown(Narrow(w, size) < 0, f) + "" == SignShown(Narrow(w, size) < 0, f);
  }

  lemma UnsignedIs(w: nat, size: nat, f: Flags, base: nat, width: int, prec: int)
    requires 2 <= size <= W64 && !f.signed && 2 <= base <= 16
    ensures IntText(Unsigned(w, size), f, base, width, prec) == UnsignedShown(w % size, f, base, width, prec)
  {
    hide IntText, DigitsOf, Field;
    IntTextIs(Unsigned(w, size), f, base, width, prec);
  }

  lemma StringIs(s: string, f: Flags, width: int, prec: int)
    requires prec >= -1
    ensures StringText(s, f, width, prec) == Field(f.minus, f.zero, width, "", Clip(s, prec))
  {
    hide Fill, Repeat;
    var shown := Clip(s, prec);
    FillRepeats(' ', width, |shown|);
    FillRepeats('0', width, |shown|);
    assert "" + shown == shown;
    assert forall t: string :: "" + t == t && t + "" == t;
  }

  lemma PrecisionAtLeast(p: Precision, args: Args, at: nat)
    requires p.Precision? && p.amount.Digits? ==> AllDigits(p.amount.s)
    ensures PrecisionOf(p, args, at) >= -1
  {
  }

  lemma ByteIs(w: nat)
    ensures ByteChar(w) == (w % 256) as char
  {
  }

  lemma SizeEven(length: string)
    ensures Size(length) % 2 == 0
  {
  }

  /** What is printed for a specification that is understood. */
  lemma ConvertedIs(spec: Spec, args: Args, at: nat, next: nat)
    requires Proper(spec)
    ensures var d := Understood(spec, args, at, next);
            && Printable(d) && Converted(d, args) == Shown(spec, args, at)
            && Fetches(d.conv) == (if spec.conv in TAKING then 1 else 0)
  {
    hide NumericText, StringText, SignedShown, UnsignedShown, Clip, Field, ByteChar, FlagsOf, PrecisionOf, WidthOf,
      Narrow, AllDigits, AllFlags, RankedBy;
    var d := Understood(spec, args, at, next);
    PrecisionAtLeast(spec.prec, args, at + Taken(spec.width));
    if IsNumeric(spec.conv) {
      NumericIs(spec, args, at, next);
    } else if IsString(spec.conv) {
      var w := args.word(d.at);
      ByteIs(w);
      StringIs(if spec.conv == 'c' then [ByteChar(w)] else TextOf(args.text(d.at)), d.flags, d.width, d.prec);
    }
  }

  lemma NumericIs(spec: Spec, args: Args, at: nat, next: nat)
    requires Proper(spec) && IsNumeric(spec.conv)
    ensures var d := Understood(spec, args, at, next); NumericText(d, args.word(d.at)) == Shown(spec, args, at)
  {
    hide IntText, SignExtended, Unsigned, Narrow, SignedShown, UnsignedShown, Clip, Field, RankedBy, RankSize, Size,
      FlagsOf, PrecisionOf, WidthOf, AllDigits, AllFlags;
    var d := Understood(spec, args, at, next);
    var f, w, size := d.flags, args.word(d.at), Size(spec.length);
    NotYetSigned(spec, args, at);
    LengthMeans(spec.length);
    SizeEven(spec.length);
    if spec.conv == 'd' || spec.conv == 'i' {
      SignedIs(w, size, f, d.width, d.prec);
    } else if spec.conv == 'p' || spec.conv == 'P' {
      UnsignedIs(w, W32, if spec.conv == 'P' then f.(upper := true, hash := true) else f.(hash := true), 16, d.width, 8);
    } else {
      var base := if spec.conv == 'u' then 10 else if spec.conv == 'o' then 8 else 16;
      UnsignedIs(w, size, if spec.conv == 'X' then f.(upper := true) else f, base, d.width, d.prec);
    }
  }

  lemma NotYetSigned(spec: Spec, args: Args, at: nat)
    ensures !FlagsOf(spec, args, at).signed
  {
  }

  /** A specification prints its text, and the rest of the format its own behind it. */
  lemma SpecPrints(spec: Spec, rest: string, args: Args, at: nat)
    requires Proper(spec)
    ensures WellFormed(Spell(spec) + rest, 0, args, at) <==> WellFormed(rest, 0, args, at + Uses(spec))
    ensures WellFormed(rest, 0, args, at + Uses(spec)) ==>
              Render(Spell(spec) + rest, 0, args, at) == Shown(spec, args, at) + Render(rest, 0, args, at + Uses(spec))
  {
    hide Understood, Shown, Converted, FromFlags, Body, Proper, Printable, Fetches;
    var fmt := Spell(spec) + rest;
    assert fmt[1..1 + |Body(spec)|] == Body(spec);
    SpecRead(spec, fmt, 1, args, at);
    ConvertedIs(spec, args, at, |Spell(spec)|);
    UnderstoodEnd(spec, args, at, |Spell(spec)|);
    RenderBehind(Spell(spec), rest, 0, args, at + Uses(spec));
  }

  lemma UnderstoodEnd(spec: Spec, args: Args, at: nat, next: nat)
    requires Proper(spec)
    ensures var d := Understood(spec, args, at, next);
            d.Directive? && d.next == next && d.conv == spec.conv
            && d.at == at + Taken(spec.width) + PrecisionTaken(spec.prec)
  {
  }

  // ----- whole formats

  datatype Piece = Plain(s: string) | Conversion(spec: Spec)

  ghost predicate ProperPiece(p: Piece)
  {
    match p
    case Plain(s) => '%' !in s
    case Conversion(spec) => Proper(spec)
  }

  ghost function PieceText(p: Piece): string { if p.Plain? then p.s else Spell(p.spec) }

  ghost function PieceShown(p: Piece, args: Args, at: nat): string
    requires ProperPiece(p)
  {
    match p
    case Plain(s) => s
    case Conversion(spec) => Shown(spec, args, at)
  }

  function PieceUses(p: Piece): nat { if p.Plain? then 0 else Uses(p.spec) }

  lemma PiecePrints(p: Piece, rest: string, args: Args, at: nat)
    requires ProperPiece(p) && WellFormed(rest, 0, args, at + PieceUses(p))
    ensures WellFormed(PieceText(p) + rest, 0, args, at)
    ensures Render(PieceText(p) + rest, 0, args, at)
            == PieceShown(p, args, at) + Render(rest, 0, args, at + PieceUses(p))
  {
    hide Spell, Shown, Proper, Uses, WellFormed, Render;
    match p {
      case Plain(s) => TextPrints(s, rest, args, at);
      case Conversion(spec) => SpecPrints(spec, rest, args, at);
    }
  }

  ghost function SpellAll(ps: seq<Piece>): string
  {
    if ps == [] then "" else PieceText(ps[0]) + SpellAll(ps[1..])
  }

  /** Each piece takes its arguments behind those of the pieces before it. */
  ghost function ShownAll(ps: seq<Piece>, args: Args, at: nat): string
    requires forall i | 0 <= i < |ps| :: ProperPiece(ps[i])
  {
    if ps == [] then "" else PieceShown(ps[0], args, at) + ShownAll(ps[1..], args, at + PieceUses(ps[0]))
  }

  /** A format prints the texts of its pieces, one after the other. */
  lemma {:induction false} FormatPrints(ps: seq<Piece>, args: Args, at: nat)
    requires forall i | 0 <= i < |ps| :: ProperPiece(ps[i])
    ensures WellFormed(SpellAll(ps), 0, args, at) && Render(SpellAll(ps), 0, args, at) == ShownAll(ps, args, at)
  {
    hide WellFormed, Render, PieceShown, PieceText, ProperPiece, PieceUses;
    if ps == [] {
      EmptyPrints(args, at);
    } else {
      FormatPrints(ps[1..], args, at + PieceUses(ps[0]));
      PiecePrints(ps[0], SpellAll(ps[1..]), args, at);
    }
  }

  lemma EmptyPrints(args: Args, at: nat)
    ensures WellFormed("", 0, args, at) && Render("", 0, args, at) == ""
  {
  }

  // ----- the everyday formats

  /** The format prints the text, taking its arguments from the first on. */
  ghost predicate Prints(fmt: string, args: Args, text: string)
  {
    WellFormed(fmt, 0, args, 0) && Render(fmt, 0, args, 0) == text
  }

  /** A format of one specification. */
  lemma OnePrints(spec: Spec, args: Args)
    requires Proper(spec)
    ensures Prints(Spell(spec), args, Shown(spec, args, 0))
  {
    hide Spell, Shown, Proper, WellFormed, Render;
    EmptyPrints(args, Uses(spec));
    SpecPrints(spec, "", args, 0);
    assert Spell(spec) + "" == Spell(spec) && Shown(spec, args, 0) + "" == Shown(spec, args, 0);
  }

  function Written(v: int): string { if v < 0 then "-" + Spelled(-v, 10, false) else Spelled(v, 10, false) }

  function Blanks(n: int, used: int): string { Repeat(' ', if n > used then n - used else 0) }

  lemma {:induction false} DecimalSpelled(n: nat)
    ensures AllDigits(Spelled(n, 10, false)) && Decimal(0, Spelled(n, 10, false)) == n
    decreases n
  {
    hide Quot, Rem;
    QuotLess(n, 10);
    var last := Rem(n, 10);
    CountSmall(n, 10);
    LetterValue(last, false);
    Letters(last);
    QuotRem(n, 10);
    if n < 10 {
      DecimalSnoc(0, "", Spelled(n, 10, false)[0]);
      assert "" + Spelled(n, 10, false) == [Spelled(n, 10, false)[0]];
    } else {
      DecimalSpelled(Quot(n, 10));
      DecimalSnoc(0, Spelled(Quot(n, 10), 10, false), Alphabet(false)[last]);
    }
  }

  lemma {:induction false} DecimalSnoc(sofar: nat, s: string, c: char)
    requires AllDigits(s) && '0' <= c <= '9'
    ensures AllDigits(s + [c]) && Decimal(sofar, s + [c]) == 10 * Decimal(sofar, s) + (c as int - '0' as int)
    decreases |s|
  {
    if s == "" {
      assert s + [c] == [c] && [c][1..] == "";
    } else {
      assert s[0] in s && forall d | d in s[1..] :: d in s;
      assert (s + [c])[0] == s[0] && (s + [c])[1..] == s[1..] + [c];
      DecimalSnoc(10 * sofar + (s[0] as int - '0' as int), s[1..], c);
    }
  }

  /** `%`, a flag or none, a width or none, and the conversion. */
  function Short(flags: string, width: nat, conv: char): Spec
  {
    Spec(flags, Digits(WidthText(width)), NoPrecision, "", conv)
  }

  function WidthText(n: nat): string { if n == 0 then "" else Spelled(n, 10, false) }

  lemma ShortMeans(flags: string, width: nat, conv: char, args: Args)
    requires AllFlags(flags) && Converts(conv)
    ensures var spec := Short(flags, width, conv);
            && Proper(spec) && WidthOf(spec.width, args, 0) == width && PrecisionOf(spec.prec, args, 0) == -1
            && FlagsOf(spec, args, 0) == Flags('0' in flags, '-' in flags, '+' in flags, '\'' in flags, ' ' in flags,
                                               '#' in flags, false, false)
  {
    hide Spelled;
    DecimalSpelled(width);
    SpelledZero(width, 10, false);
  }

  lemma ShortText(flags: string, width: nat, conv: char)
    ensures Spell(Short(flags, width, conv)) == "%" + flags + WidthText(width) + [conv]
  {
    hide Spelled;
    var text := WidthText(width);
    assert flags + text + "" + "" + [conv] == flags + text + [conv];
    assert "%" + (flags + text + [conv]) == "%" + flags + text + [conv];
  }

  lemma ShortPrints(flags: string, width: nat, conv: char, args: Args)
    requires AllFlags(flags) && Converts(conv)
    ensures Proper(Short(flags, width, conv))
    ensures Prints("%" + flags + WidthText(width) + [conv], args, Shown(Short(flags, width, conv), args, 0))
  {
    hide Shown, Spelled, Proper, Short, WidthText, Render, WellFormed, Spell;
    ShortMeans(flags, width, conv, args);
    ShortText(flags, width, conv);
    OnePrints(Short(flags, width, conv), args);
  }

  lemma NoMore(s: string)
    ensures AtLeast(s, -1) == s && "" + s == s && s + "" == s && Repeat(' ', 0) == ""
  {
  }

  /** Without precision, hash and tick the digits are the number spelled out. */
  lemma PlainDigits(mag: nat, f: Flags, base: nat)
    requires 2 <= base <= 16 && !f.hash && !f.tick
    ensures DigitsOf(mag, f, base, -1) == Spelled(mag, base, f.upper)
  {
    hide Spelled;
    NoMore(Spelled(mag, base, f.upper));
  }

  /** The sign in front of a number that is not negative. */
  function PlusText(flags: string): string { if flags == "+" || flags == " " then flags else "" }

  lemma SignedForm(flags: string, n: nat, v: int, args: Args)
    requires flags in ["", "+", " ", "-"] && -0x8000_0000 <= v < 0x8000_0000 && args.word(0) % W32 == v % W32
    ensures Prints("%" + flags + WidthText(n) + "d", args,
                   Padded(flags == "-", n, (if v < 0 then "" else PlusText(flags)) + Written(v)))
  {
    hide Prints, Shown, Padded, Written, WidthText, Proper, Short;
    ShortPrints(flags, n, 'd', args);
    ShownSigned(flags, n, v, args);
  }

  lemma ShownSigned(flags: string, n: nat, v: int, args: Args)
    requires flags in ["", "+", " ", "-"] && -0x8000_0000 <= v < 0x8000_0000 && args.word(0) % W32 == v % W32
    ensures var spec := Short(flags, n, 'd');
            && Proper(spec)
            && Shown(spec, args, 0) == Padded(flags == "-", n, (if v < 0 then "" else PlusText(flags)) + Written(v))
  {
    hide Spelled, SignedShown, Padded, Narrow, FlagsOf, WidthOf, PrecisionOf, Proper, Written;
    ShortMeans(flags, n, 'd', args);
    NarrowFrom(args.word(0), v);
    SignedField(flags, n, v, FlagsOf(Short(flags, n, 'd'), args, 0));
  }

  lemma SignedField(flags: string, n: nat, v: int, f: Flags)
    requires flags in ["", "+", " ", "-"]
    requires f == Flags(false, '-' in flags, '+' in flags, false, ' ' in flags, false, false, false)
    ensures SignedShown(v, f, n, -1) == Padded(flags == "-", n, (if v < 0 then "" else PlusText(flags)) + Written(v))
  {
    hide Spelled, Field, DigitsOf, Padded;
    var number := Spelled(if v < 0 then 0 - v else v, 10, false);
    PlainDigits(if v < 0 then 0 - v else v, f, 10);
    PlainField(flags == "-", n, if v < 0 then "-" else PlusText(flags), number);
    NoMore("-" + number);
  }

  lemma NarrowFrom(w: nat, v: int)
    requires -0x8000_0000 <= v < 0x8000_0000 && w % W32 == v % W32
    ensures Narrow(w, W32) == v
  {
  }

  function Padded(minus: bool, n: nat, text: string): string
  {
    if minus then text + Blanks(n, |text|) else Blanks(n, |text|) + text
  }

  lemma PlainField(minus: bool, n: nat, lead: string, body: string)
    ensures Field(minus, false, n, lead, body) == Padded(minus, n, lead + body)
    ensures Padded(false, 0, lead) == lead
  {
    var gap := Blanks(n, |lead + body|);
    assert gap + lead + body == gap + (lead + body);
  }

  /**
   %d prints the number; with + or a blank that in front of one that is not negative; with a
   width blanks to that width in front, or with - behind.
   */
  lemma DecimalForms(v: int, n: nat, args: Args)
    requires -0x8000_0000 <= v < 0x8000_0000 && args.word(0) % W32 == v % W32 && n > 0
    ensures Prints("%d", args, Written(v))
    ensures Prints("%+d", args, if v < 0 then Written(v) else "+" + Written(v))
    ensures Prints("% d", args, if v < 0 then Written(v) else " " + Written(v))
    ensures Prints("%" + Spelled(n, 10, false) + "d", args, Blanks(n, |Written(v)|) + Written(v))
    ensures Prints("%-" + Spelled(n, 10, false) + "d", args, Written(v) + Blanks(n, |Written(v)|))
  {
    hide Prints, Spelled, Written, Repeat;
    SignForm("", v, args);
    SignForm("+", v, args);
    SignForm(" ", v, args);
    FormatText("d");
    NoMore(Written(v));
    WidthForm("", n, v, args);
    WidthForm("-", n, v, args);
    assert "%" + "" == "%" && "%" + "-" == "%-";
  }

  lemma SignForm(flags: string, v: int, args: Args)
    requires flags in ["", "+", " "] && -0x8000_0000 <= v < 0x8000_0000 && args.word(0) % W32 == v % W32
    ensures Prints("%" + flags + "d", args, if v < 0 then Written(v) else flags + Written(v))
  {
    hide Prints, Spelled, Written, Padded;
    SignedForm(flags, 0, v, args);
    var text := (if v < 0 then "" else PlusText(flags)) + Written(v);
    PlainField(false, 0, text, "");
    NoMore("%" + flags);
    NoMore(Written(v));
  }

  lemma WidthForm(flags: string, n: nat, v: int, args: Args)
    requires flags in ["", "-"] && -0x8000_0000 <= v < 0x8000_0000 && args.word(0) % W32 == v % W32 && n > 0
    ensures Prints("%" + flags + Spelled(n, 10, false) + "d", args, Padded(flags == "-", n, Written(v)))
  {
    hide Prints, Spelled, Written, Padded;
    SignedForm(flags, n, v, args);
    NoMore(Written(v));
  }

  lemma FormatText(conv: string)
    ensures "%" + "" + "" + conv == "%" + conv && "%" + "" + conv == "%" + conv
    ensures "%d" == "%" + "d" && "%+d" == "%" + "+" + "d" && "% d" == "%" + " " + "d"
    ensures "%u" == "%" + "u" && "%%" == "%" + "%" && "%c" == "%" + "c" && "%s" == "%" + "s"
  {
  }

  /** %u prints the number of 32 bits, and reading it back gives the signed number nearest to it. */
  lemma UnsignedRoundTrip(args: Args)
    ensures Prints("%u", args, Spelled(args.word(0) % W32, 10, false))
    ensures var text := Render("%u", 0, args, 0); var p := Parse(text, 10);
            p.end == |text| && Nearest32(args.word(0) % W32, p.value)
  {
    var v := args.word(0) % W32;
    UnsignedForm(args);
    hide Render, WellFormed, Spelled, Nearest32, Parse;
    NoMore(Spelled(v, 10, false));
    NumeralRead("", "", v, 10, false, "");
  }

  lemma UnsignedForm(args: Args)
    ensures Prints("%u", args, Spelled(args.word(0) % W32, 10, false))
  {
    hide Prints, Spelled, Field, DigitsOf, Proper, FlagsOf, WidthOf, PrecisionOf;
    ShortPrints("", 0, 'u', args);
    ShortMeans("", 0, 'u', args);
    var number := Spelled(args.word(0) % W32, 10, false);
    PlainDigits(args.word(0) % W32, FlagsOf(Short("", 0, 'u'), args, 0), 10);
    FormatText("u");
    PlainField(false, 0, "", number);
    PlainField(false, 0, number, "");
    NoMore(number);
  }

  /** %% prints a percent sign, %c its character and %s its string. */
  lemma TextForms(args: Args)
    ensures Prints("%%", args, "%")
    ensures Prints("%c", args, [(args.word(0) % 256) as char])
    ensures args.text(0).Str? ==> Prints("%s", args, args.text(0).s)
  {
    hide Prints, Proper, Shown;
    FormatText("%");
    FormatText("c");
    FormatText("s");
    ShortPrints("", 0, '%', args);
    ShortPrints("", 0, 'c', args);
    ShortPrints("", 0, 's', args);
    TextShown(args);
  }

  lemma TextShown(args: Args)
    ensures Proper(Short("", 0, '%')) && Proper(Short("", 0, 'c')) && Proper(Short("", 0, 's'))
    ensures Shown(Short("", 0, '%'), args, 0) == "%"
    ensures Shown(Short("", 0, 'c'), args, 0) == [(args.word(0) % 256) as char]
    ensures args.text(0).Str? ==> Shown(Short("", 0, 's'), args, 0) == args.text(0).s
  {
    hide Proper, Field, FlagsOf, WidthOf, PrecisionOf;
    ShortMeans("", 0, '%', args);
    ShortMeans("", 0, 'c', args);
    ShortMeans("", 0, 's', args);
    WholeField([(args.word(0) % 256) as char]);
    if args.text(0).Str? {
      WholeField(args.text(0).s);
    }
  }

  lemma WholeField(s: string)
    ensures Field(false, false, 0, "", Clip(s, -1)) == s
  {
    PlainField(false, 0, "", s);
    PlainField(false, 0, s, "");
    NoMore(s);
  }
}
