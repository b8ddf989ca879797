/**
 Formatted output, src/printf.c.  Strings are sequences without their terminating
 NUL.  The output buffer is an array, and every write at or past the given bound
 would be a verification failure in the method that makes it.
 */
module Printf {
  import opened Words

  const RANK_CHAR: int := -2
  const RANK_SHORT: int := -1
  const RANK_INT: int := 0
  const RANK_LONG: int := 1
  const RANK_LONGLONG: int := 2

  datatype Flags = Flags(zero: bool, minus: bool, plus: bool, tick: bool,
                         space: bool, hash: bool, signed: bool, upper: bool)

  const NO_FLAGS: Flags := Flags(false, false, false, false, false, false, false, false)

  // ----- a bounded buffer

  /** `before` with the first `n` characters of `out` laid over it at `start`. */
  ghost function Overlay(before: seq<char>, start: nat, n: nat, out: string): (now: seq<char>)
    ensures |now| == |before|
    ensures forall k | 0 <= k < |before| ::
              now[k] == if start <= k < start + Min(n, |out|) then out[k - start] else before[k]
  {
    seq(|before|, k requires 0 <= k < |before| =>
      if start <= k < start + Min(n, |out|) then out[k - start] else before[k])
  }

  /**
   `out` has been printed: the buffer shows what fits of it and is otherwise
   untouched, and the pointer `q` follows the count `o` as long as anything fits.
   */
  ghost predicate Printed(now: seq<char>, before: seq<char>, start: nat, n: nat, out: string, q: nat, o: nat)
  {
    && (n > 0 ==> start + n <= |before|)
    && now == Overlay(before, start, n, out) && o == |out| && (o <= n ==> q == start + o)
  }

  lemma NothingPrinted(before: seq<char>, start: nat, n: nat)
    requires n > 0 ==> start + n <= |before|
    ensures Printed(before, before, start, n, "", start, 0)
  {
  }

  lemma PrintedMeans(now: seq<char>, before: seq<char>, start: nat, n: nat, out: string, q: nat, o: nat)
    requires Printed(now, before, start, n, out, q, o)
    ensures now == Overlay(before, start, n, out) && o == |out| && (o <= n ==> q == start + o)
  {
  }

  lemma OverlayGrows(before: seq<char>, start: nat, n: nat, out: string, x: char)
    requires n > 0 ==> start + n <= |before|
    ensures |out| < n ==> Overlay(before, start, n, out + [x]) == Overlay(before, start, n, out)[start + |out| := x]
    ensures |out| >= n ==> Overlay(before, start, n, out + [x]) == Overlay(before, start, n, out)
  {
  }

  /** One character, written only below the bound, counted always. */
  method Emit(buf: array<char>, n: nat, x: char, q0: nat, o0: nat,
              ghost before: seq<char>, ghost start: nat, ghost out: string) returns (q: nat, o: nat)
    requires Printed(buf[..], before, start, n, out, q0, o0)
    modifies buf
    ensures Printed(buf[..], before, start, n, out + [x], q, o)
  {
    OverlayGrows(before, start, n, out, x);
    q, o := q0, o0;
    if o < n {
      buf[q] := x;
      q := q + 1;
    }
    o := o + 1;
  }

  function Fill(x: char, width: int, limit: int): string
  {
    seq(if width > limit then width - limit else 0, (k: nat) => x)
  }

  method Pad(buf: array<char>, n: nat, x: char, width0: int, limit: int, q0: nat, o0: nat,
             ghost before: seq<char>, ghost start: nat, ghost out: string) returns (q: nat, o: nat)
    requires Printed(buf[..], before, start, n, out, q0, o0)
    modifies buf
    ensures Printed(buf[..], before, start, n, out + Fill(x, width0, limit), q, o)
  {
    q, o := q0, o0;
    var width := width0;
    ghost var sofar := out;
    while width > limit
      invariant width <= width0 && (width < width0 ==> width >= limit)
      invariant sofar == out + Fill(x, width0, width)
      invariant Printed(buf[..], before, start, n, sofar, q, o)
    {
      q, o := Emit(buf, n, x, q, o, before, start, sofar);
      assert Fill(x, width0, width) + [x] == Fill(x, width0, width - 1);
      assert out + Fill(x, width0, width) + [x] == out + (Fill(x, width0, width) + [x]);
      sofar := sofar + [x];
      width := width - 1;
    }
    assert Fill(x, width0, width) == Fill(x, width0, limit);
  }

  // ----- the digits of a number

  function DigitChar(d: nat, upper: bool): char
    requires d < 16
  {
    if d < 10 then '0' + d as char else if upper then 'A' + (d - 10) as char else 'a' + (d - 10) as char
  }

  /** `val` without its last `k` digits. */
  ghost function Shed(val: nat, base: nat, k: nat): nat
    requires base > 0
  {
    if k == 0 then val else Quot(Shed(val, base, k - 1), base)
  }

  lemma ShedNext(val: nat, base: nat, k: nat)
    requires base > 0 && k > 0
    ensures Shed(val, base, k) == Quot(Shed(val, base, k - 1), base)
  {
  }

  /** How many digits `val` has; none for zero. */
  ghost function CountDigits(val: nat, base: nat): nat
    requires base >= 2
    decreases val
  {
    if val == 0 then 0 else 1 + CountDigits(Quot(val, base), base)
  }

  /** Which digit stands `j` places from the right when every `skip` digits are followed by a mark. */
  function DigitIndex(j: nat, skip: nat): int
  {
    j - Quot(j, skip + 1)
  }

  lemma SmallFactor(q: nat, m: nat, j: nat)
    requires Mul(q, m) <= j && m > 0
    ensures q <= j && (m >= 2 && j > 0 ==> q < j)
  {
    MulMono(1, m, q);
    if m >= 2 {
      MulMono(2, m, q);
    }
  }

  lemma QuotLess(j: nat, m: nat)
    requires m > 0
    ensures Quot(j, m) <= j && Rem(j, m) < m
    ensures m >= 2 && j > 0 ==> Quot(j, m) < j
  {
    DivBounds(j, m);
    assert Mul(Quot(j, m), m) <= j && Rem(j, m) < m;
    hide Quot, Rem;
    SmallFactor(Quot(j, m), m, j);
  }

  /** The character `j` places from the right. */
  ghost function CharFromRight(val: nat, base: nat, upper: bool, skip: nat, j: nat): char
    requires 2 <= base <= 16 && skip > 0
  {
    QuotLess(j, skip + 1);
    QuotLess(Shed(val, base, DigitIndex(j, skip)), base);
    if Rem(j, skip + 1) == skip then '_'
    else DigitChar(Rem(Shed(val, base, DigitIndex(j, skip)), base), upper)
  }

  function TextLength(d: nat, skip: nat): (len: nat)
    requires d > 0 && skip > 0
    ensures len >= d
  {
    d + Quot(d - 1, skip)
  }

  /** The last `d` digits of `val`, a mark after every `skip` of them from the right. */
  ghost function NumberText(val: nat, base: nat, upper: bool, d: nat, skip: nat): (text: string)
    requires 2 <= base <= 16 && d > 0 && skip > 0
    ensures |text| == TextLength(d, skip)
    ensures forall k | 0 <= k < |text| :: text[k] == CharFromRight(val, base, upper, skip, |text| - 1 - k)
  {
    var len := TextLength(d, skip);
    seq(len, k requires 0 <= k < len => CharFromRight(val, base, upper, skip, len - 1 - k))
  }

  lemma MulOne(m: nat)
    ensures Mul(1, m) == m
  {
  }

  lemma MulOneMore(a: nat, skip: nat)
    ensures Mul(a, skip + 1) == Mul(a, skip) + a
  {
  }

  /** One place further left: a mark does not use up a digit. */
  lemma TickStep(j: nat, skip: nat)
    requires skip > 0
    ensures Rem(j, skip + 1) <= skip
    ensures Rem(j, skip + 1) == skip ==> Rem(j + 1, skip + 1) == 0 && DigitIndex(j + 1, skip) == DigitIndex(j, skip)
    ensures Rem(j, skip + 1) < skip ==>
              Rem(j + 1, skip + 1) == Rem(j, skip + 1) + 1 && DigitIndex(j + 1, skip) == DigitIndex(j, skip) + 1
    ensures DigitIndex(j, skip) >= 0
  {
    hide Quot, Rem;
    var m := skip + 1;
    var a, r := Quot(j, m), Rem(j, m);
    QuotLess(j, m);
    QuotRem(j, m);
    if r == skip {
      MulAdd(a, 1, m);
      MulOne(m);
      QuotUnique(j + 1, m, a + 1, 0);
    } else {
      QuotUnique(j + 1, m, a, r + 1);
    }
  }

  /** The leftmost character is a digit. */
  lemma NoLeadingTick(d: nat, skip: nat)
    requires d > 0 && skip > 0
    ensures Rem(TextLength(d, skip) - 1, skip + 1) < skip
    ensures DigitIndex(TextLength(d, skip) - 1, skip) == d - 1
  {
    hide Quot, Rem;
    var a, r := Quot(d - 1, skip), Rem(d - 1, skip);
    QuotRem(d - 1, skip);
    MulOneMore(a, skip);
    QuotUnique(TextLength(d, skip) - 1, skip + 1, a, r);
  }

  /** The buffer while `text` is laid after `out` from its end towards its start. */
  ghost predicate HalfPrinted(now: seq<char>, mid: seq<char>, from: nat, bound: nat, text: string, left: nat)
  {
    && |now| == |mid|
    && forall k | 0 <= k < |now| ::
         now[k] == if from + left <= k < Min(bound, from + |text|) then text[k - from] else mid[k]
  }

  lemma FullyPrinted(now: seq<char>, before: seq<char>, start: nat, n: nat, out: string, text: string)
    requires n > 0 ==> start + n <= |before|
    requires HalfPrinted(now, Overlay(before, start, n, out), start + |out|, if n == 0 then 0 else start + n, text, 0)
    ensures now == Overlay(before, start, n, out + text)
  {
  }

  lemma StartLeft(mid: seq<char>, from: nat, bound: nat, text: string, skip: nat, val: nat, base: nat)
    requires base > 0 && skip > 0
    ensures HalfPrinted(mid, mid, from, bound, text, |text|)
    ensures Rem(0, skip + 1) == 0 && DigitIndex(0, skip) == 0 && Shed(val, base, 0) == val
  {
  }

  lemma OneMoreLeft(now: seq<char>, mid: seq<char>, from: nat, bound: nat, text: string, left: nat)
    requires HalfPrinted(now, mid, from, bound, text, left) && 0 < left <= |text| && bound <= |now|
    ensures from + left - 1 < bound ==>
              HalfPrinted(now[from + left - 1 := text[left - 1]], mid, from, bound, text, left - 1)
    ensures from + left - 1 >= bound ==> HalfPrinted(now, mid, from, bound, text, left - 1)
  {
  }

  method PutLeft(buf: array<char>, n: nat, c: char, qq: nat, oo: nat,
                 ghost mid: seq<char>, ghost from: nat, ghost bound: nat, ghost text: string, ghost left: nat)
    requires HalfPrinted(buf[..], mid, from, bound, text, left) && bound <= buf.Length
    requires 0 < left <= |text| && c == text[left - 1]
    requires (oo < n <==> from + left - 1 < bound) && (oo < n ==> qq == from + left - 1)
    modifies buf
    ensures HalfPrinted(buf[..], mid, from, bound, text, left - 1)
  {
    OneMoreLeft(buf[..], mid, from, bound, text, left);
    hide HalfPrinted;
    ghost var was := buf[..];
    if oo < n {
      buf[qq] := c;
      assert buf[..] == was[qq := c];
    }
  }

  /** The digits, written right to left. */
  method WriteNumber(buf: array<char>, n: nat, val0: nat, base: nat, upper: bool, tickskip: nat, d: nat, q0: nat, o0: nat,
                     ghost before: seq<char>, ghost start: nat, ghost out: string) returns (q: nat, o: nat)
    requires Printed(buf[..], before, start, n, out, q0, o0)
    requires 2 <= base <= 16 && d > 0 && tickskip > 0
    modifies buf
    ensures Printed(buf[..], before, start, n, out + NumberText(val0, base, upper, d, tickskip), q, o)
  {
    hide Shed, Quot, Rem, DigitIndex, TextLength, DigitChar, Overlay, HalfPrinted;
    ghost var text := NumberText(val0, base, upper, d, tickskip);
    ghost var mid, from, bound := buf[..], start + |out|, if n == 0 then 0 else start + n;
    var ndigits: nat := TextLength(d, tickskip);
    q, o := q0 + ndigits, o0 + ndigits;
    var qq, oo := q, o;
    var val, b4tick := val0, tickskip;
    StartLeft(mid, from, bound, text, tickskip, val0, base);
    while ndigits > 0
      invariant ndigits <= |text| && oo == o0 + ndigits && qq == q0 + ndigits
      invariant b4tick == tickskip - Rem(|text| - ndigits, tickskip + 1)
      invariant DigitIndex(|text| - ndigits, tickskip) >= 0
      invariant val == Shed(val0, base, DigitIndex(|text| - ndigits, tickskip))
      invariant HalfPrinted(buf[..], mid, from, bound, text, ndigits)
    {
      TickStep(|text| - ndigits, tickskip);
      QuotLess(|text| - ndigits, tickskip + 1);
      if b4tick == 0 {
        NoLeadingTick(d, tickskip);
        TickStep(|text| - ndigits + 1, tickskip);
        qq, oo, ndigits := qq - 1, oo - 1, ndigits - 1;
        PutLeft(buf, n, '_', qq, oo, mid, from, bound, text, ndigits + 1);
        b4tick := tickskip - 1;
      } else {
        b4tick := b4tick - 1;
      }
      qq, oo, ndigits := qq - 1, oo - 1, ndigits - 1;
      QuotLess(val, base);
      PutLeft(buf, n, DigitChar(Rem(val, base), upper), qq, oo, mid, from, bound, text, ndigits + 1);
      val := Quot(val, base);
      ShedNext(val0, base, DigitIndex(|text| - ndigits, tickskip));
    }
    FullyPrinted(buf[..], before, start, n, out, text);
  }

  // ----- one integer conversion

  function Negative(val: nat, f: Flags): bool { f.signed && val >= W63 }

  function Magnitude(val: nat, f: Flags): (m: nat)
    requires val < W64
  {
    if Negative(val, f) then W64 - val else val
  }

  function SignText(negative: bool, f: Flags): string
  {
    if negative then "-" else if f.plus then "+" else if f.space then " " else ""
  }

  function PrefixText(f: Flags, base: nat): string
  {
    if f.hash && base == 16 then if f.upper then "0X" else "0x" else ""
  }

  /** How many digits are shown: what the number needs, what the precision asks, and at least one. */
  ghost function DigitsShown(mag: nat, f: Flags, base: nat, prec: int): (d: nat)
    requires base >= 2
    ensures d > 0 && d >= prec && d >= CountDigits(mag, base)
    ensures f.hash && base == 8 ==> d > CountDigits(mag, base)
  {
    var needed := CountDigits(mag, base);
    var asked := if f.hash && base == 8 && prec < needed + 1 then needed + 1 else prec;
    if needed < asked then asked else if mag == 0 then 1 else needed
  }

  /** Without the ' flag there is no mark. */
  function TickSkip(f: Flags, base: nat, d: nat): nat
  {
    if f.tick then if base == 16 then 4 else 3 else d
  }

  /** The text of an integer conversion. */
  ghost function IntText(val: nat, f: Flags, base: nat, width: int, prec: int): string
    requires val < W64 && 2 <= base <= 16
  {
    var mag := Magnitude(val, f);
    var d := DigitsShown(mag, f, base, prec);
    var number := NumberText(mag, base, f.upper, d, TickSkip(f, base, d));
    var lead := SignText(Negative(val, f), f) + PrefixText(f, base);
    var used := |lead| + |number|;
    if f.minus then lead + number + Fill(' ', width, used)
    else if f.zero then lead + Fill('0', width, used) + number
    else Fill(' ', width, used) + lead + number
  }

  method CountNeeded(val: nat, base: nat) returns (ndigits: nat)
    requires base >= 2
    ensures ndigits == CountDigits(val, base)
  {
    ndigits := 0;
    var tmpval: nat := val;
    while tmpval != 0
      invariant ndigits + CountDigits(tmpval, base) == CountDigits(val, base)
    {
      QuotLess(tmpval, base);
      tmpval := Quot(tmpval, base);
      ndigits := ndigits + 1;
    }
  }

  method EmitAll(buf: array<char>, n: nat, s: string, q0: nat, o0: nat,
                 ghost before: seq<char>, ghost start: nat, ghost out: string) returns (q: nat, o: nat)
    requires Printed(buf[..], before, start, n, out, q0, o0)
    modifies buf
    ensures Printed(buf[..], before, start, n, out + s, q, o)
  {
    hide Printed;
    q, o := q0, o0;
    assert out + s[..0] == out;
    for i := 0 to |s|
      invariant Printed(buf[..], before, start, n, out + s[..i], q, o)
    {
      q, o := Emit(buf, n, s[i], q, o, before, start, out + s[..i]);
      assert out + s[..i] + [s[i]] == out + s[..i + 1];
    }
    assert s[..|s|] == s;
  }

  /** How many digits to show, marks not counted. */
  method ChooseDigits(mag: nat, f: Flags, base: nat, prec0: int) returns (d: nat)
    requires base >= 2
    ensures d == DigitsShown(mag, f, base, prec0)
  {
    var ndigits := CountNeeded(mag, base);
    var prec := prec0;
    if f.hash && base == 8 {
      if prec < ndigits + 1 {
        prec := ndigits + 1;
      }
    }
    if ndigits < prec {
      ndigits := prec;
    } else if mag == 0 {
      ndigits := 1;
    }
    d := ndigits;
  }

  /** The text as the five pieces in the order they are written; at most one kind of padding is there. */
  lemma IntTextPieces(val: nat, f: Flags, base: nat, width: int, prec: int, sign: string, number: string, used: int)
    requires val < W64 && 2 <= base <= 16
    requires sign == SignText(Negative(val, f), f)
    requires var d := DigitsShown(Magnitude(val, f), f, base, prec);
             number == NumberText(Magnitude(val, f), base, f.upper, d, TickSkip(f, base, d))
    requires used == |sign| + |PrefixText(f, base)| + |number|
    ensures IntText(val, f, base, width, prec)
            == (if !f.minus && !f.zero then Fill(' ', width, used) else "") + sign + PrefixText(f, base)
               + (if f.zero && !f.minus then Fill('0', width, used) else "") + number
               + (if f.minus then Fill(' ', width, used) else "")
  {
    hide NumberText, CountDigits, Fill, DigitsShown, Magnitude, Negative, SignText, PrefixText, TickSkip;
    var none: string := "";
    NoneAround(sign, PrefixText(f, base), number, none);
  }

  lemma NoneAround(sign: string, prefix: string, number: string, none: string)
    requires none == ""
    ensures none + sign + prefix + none + number == sign + prefix + number
    ensures forall pad: string :: none + sign + prefix + pad + number + none == sign + prefix + pad + number
    ensures forall pad: string :: pad + sign + prefix + none + number + none == pad + (sign + prefix) + number
  {
    forall pad: string
      ensures none + sign + prefix + pad + number + none == sign + prefix + pad + number
      ensures pad + sign + prefix + none + number + none == pad + (sign + prefix) + number
    {
      assert pad + sign + prefix == pad + (sign + prefix);
    }
  }

  /** The width is a minimum, whichever way the field is filled up. */
  lemma FieldWidth(val: nat, f: Flags, base: nat, width: int, prec: int)
    requires val < W64 && 2 <= base <= 16
    ensures var bare := |IntText(val, f, base, 0, prec)|;
            |IntText(val, f, base, width, prec)| == if width > bare then width else bare
  {
    hide NumberText, DigitsShown, IntText;
    var d := DigitsShown(Magnitude(val, f), f, base, prec);
    var number := NumberText(Magnitude(val, f), base, f.upper, d, TickSkip(f, base, d));
    var sign := SignText(Negative(val, f), f);
    var used := |sign| + |PrefixText(f, base)| + |number|;
    IntTextPieces(val, f, base, width, prec, sign, number, used);
    IntTextPieces(val, f, base, 0, prec, sign, number, used);
  }

  /** `format_int` at `start`: the text of the number, cut off at the bound. */
  method FormatInt(buf: array<char>, start: nat, n: nat, val: nat, f: Flags, base: nat, width: int, prec: int)
    returns (o: nat)
    requires val < W64 && 2 <= base <= 16
    requires n > 0 ==> start + n <= buf.Length
    modifies buf
    ensures o == |IntText(val, f, base, width, prec)|
    ensures buf[..] == Overlay(old(buf[..]), start, n, IntText(val, f, base, width, prec))
  {
    hide Printed, Overlay, Fill, NumberText, CountDigits, DigitsShown, TextLength, IntText;
    ghost var before := buf[..];
    ghost var out := "";
    var q := start;
    o := 0;
    NothingPrinted(before, start, n);
    var minus := Negative(val, f);
    var mag := Magnitude(val, f);
    var d := ChooseDigits(mag, f, base, prec);
    var tickskip := TickSkip(f, base, d);
    ghost var number := NumberText(mag, base, f.upper, d, tickskip);
    var nchars := TextLength(d, tickskip);
    if minus || f.plus || f.space {
      nchars := nchars + 1;
    }
    if f.hash && base == 16 {
      nchars := nchars + 2;
    }
    IntTextPieces(val, f, base, width, prec, SignText(minus, f), number, nchars);
    ghost var early := if !f.minus && !f.zero then Fill(' ', width, nchars) else "";
    ghost var zeros := if f.zero && !f.minus then Fill('0', width, nchars) else "";
    ghost var late := if f.minus then Fill(' ', width, nchars) else "";
    assert out + early == early;
    if !f.minus && !f.zero {
      q, o := Pad(buf, n, ' ', width, nchars, q, o, before, start, out);
    }
    out := early;
    q, o := EmitAll(buf, n, SignText(minus, f), q, o, before, start, out);
    out := out + SignText(minus, f);
    q, o := EmitAll(buf, n, PrefixText(f, base), q, o, before, start, out);
    out := out + PrefixText(f, base);
    assert zeros == "" ==> out + zeros == out;
    if f.zero && !f.minus {
      q, o := Pad(buf, n, '0', width, nchars, q, o, before, start, out);
    }
    out := out + zeros;
    q, o := WriteNumber(buf, n, mag, base, f.upper, tickskip, d, q, o, before, start, out);
    out := out + number;
    assert late == "" ==> out + late == out;
    if f.minus {
      q, o := Pad(buf, n, ' ', width, nchars, q, o, before, start, out);
    }
    out := out + late;
    PrintedMeans(buf[..], before, start, n, out, q, o);
  }

  // ----- the format language

  datatype Text = Null | Str(s: string)

  /** The argument list: fetch number `i` reads a word, or a string pointer. */
  datatype Args = Args(word: nat -> nat, text: nat -> Text)

  /** One conversion: its parts, the position after it and the fetches made before its own. */
  datatype Directive = Unfinished | Directive(flags: Flags, width: int, prec: int, rank: int, conv: char, next: nat, at: nat)

  predicate IsDigit(c: char) { '0' <= c <= '9' }

  function DigitValue(c: char): nat
    requires IsDigit(c)
  {
    c as nat - '0' as nat
  }

  predicate IsFlag(c: char) { c in {'-', '+', '\'', ' ', '#', '0'} }

  function WithFlag(f: Flags, c: char): Flags
  {
    match c
    case '-' => f.(minus := true)
    case '+' => f.(plus := true)
    case '\'' => f.(tick := true)
    case ' ' => f.(space := true)
    case '#' => f.(hash := true)
    case _ => f.(zero := true)
  }

  function Signed32(w: nat): int
  {
    var u := Rem(w, W32);
    if u < 0x8000_0000 then u else u - W32
  }

  predicate IsLength(c: char) { c in {'h', 'l', 'j', 'z', 't', 'L', 'q'} }

  function Ranked(rank: int, c: char): int
  {
    match c
    case 'h' => rank - 1
    case 'l' => rank + 1
    case 'j' => RANK_LONGLONG
    case 'z' => RANK_LONG
    case 't' => RANK_LONG
    case _ => rank + 2
  }

  /** flags* then the width */
  ghost function FromFlags(fmt: string, p: nat, f: Flags, args: Args, at: nat): (d: Directive)
    ensures d.Directive? ==> p < d.next <= |fmt|
    decreases |fmt| - p, 3
  {
    if p >= |fmt| then Unfinished
    else if IsFlag(fmt[p]) then FromFlags(fmt, p + 1, WithFlag(f, fmt[p]), args, at)
    else FromWidth(fmt, p, f, 0, args, at)
  }

  /** digits and stars, then a point and the precision, or the length modifiers */
  ghost function FromWidth(fmt: string, p: nat, f: Flags, width: int, args: Args, at: nat): (d: Directive)
    ensures d.Directive? ==> p < d.next <= |fmt|
    decreases |fmt| - p, 2
  {
    if p >= |fmt| then Unfinished
    else if IsDigit(fmt[p]) then FromWidth(fmt, p + 1, f, 10 * width + DigitValue(fmt[p]), args, at)
    else if fmt[p] == '*' then
      var w := Signed32(args.word(at));
      if w < 0 then FromWidth(fmt, p + 1, f.(minus := true), -w, args, at + 1)
      else FromWidth(fmt, p + 1, f, w, args, at + 1)
    else if fmt[p] == '.' then FromPrec(fmt, p + 1, f, width, 0, args, at)
    else FromLength(fmt, p, f, width, -1, RANK_INT, at)
  }

  /** digits and stars; a negative star means no precision */
  ghost function FromPrec(fmt: string, p: nat, f: Flags, width: int, prec: int, args: Args, at: nat): (d: Directive)
    ensures d.Directive? ==> p < d.next <= |fmt|
    decreases |fmt| - p, 1
  {
    if p >= |fmt| then Unfinished
    else if IsDigit(fmt[p]) then FromPrec(fmt, p + 1, f, width, 10 * prec + DigitValue(fmt[p]), args, at)
    else if fmt[p] == '*' then
      var w := Signed32(args.word(at));
      FromPrec(fmt, p + 1, f, width, if w < 0 then -1 else w, args, at + 1)
    else FromLength(fmt, p, f, width, prec, RANK_INT, at)
  }

  /** length modifiers, then the conversion character */
  ghost function FromLength(fmt: string, p: nat, f: Flags, width: int, prec: int, rank: int, at: nat): (d: Directive)
    ensures d.Directive? ==> p < d.next <= |fmt|
    decreases |fmt| - p, 0
  {
    if p >= |fmt| then Unfinished
    else if IsLength(fmt[p]) then FromLength(fmt, p + 1, f, width, prec, Ranked(rank, fmt[p]), at)
    else Directive(f, width, prec, rank, fmt[p], p + 1, at)
  }

  // ----- what a conversion prints

  function RankSize(rank: int): (m: nat)
    ensures 0 < m <= W64
  {
    if rank <= RANK_CHAR then 0x100
    else if rank == RANK_SHORT then 0x1_0000
    else if rank >= RANK_LONGLONG then W64
    else W32
  }

  /** The argument cut to `size` values. */
  function Unsigned(w: nat, size: nat): (v: nat)
    requires 0 < size <= W64
    ensures v < W64
  {
    var v := Rem(w, size);
    assert v < size;
    v
  }

  /** The argument cut to `size` values and sign extended to 64 bits. */
  function SignExtended(w: nat, size: nat): (v: nat)
    requires 0 < size <= W64
    ensures v < W64
  {
    var v := Rem(w, size);
    assert v < size;
    if 2 * v < size then v else W64 - size + v
  }

  predicate IsNumeric(c: char) { c in {'P', 'p', 'd', 'i', 'o', 'u', 'X', 'x'} }

  ghost function NumericText(d: Directive, w: nat): string
    requires d.Directive? && IsNumeric(d.conv)
  {
    var f, size := d.flags, RankSize(d.rank);
    match d.conv
    case 'P' => IntText(Unsigned(w, W32), f.(upper := true, hash := true), 16, d.width, 8)
    case 'p' => IntText(Unsigned(w, W32), f.(hash := true), 16, d.width, 8)
    case 'd' => IntText(SignExtended(w, size), f.(signed := true), 10, d.width, d.prec)
    case 'i' => IntText(SignExtended(w, size), f.(signed := true), 10, d.width, d.prec)
    case 'o' => IntText(Unsigned(w, size), f, 8, d.width, d.prec)
    case 'u' => IntText(Unsigned(w, size), f, 10, d.width, d.prec)
    case 'X' => IntText(Unsigned(w, size), f.(upper := true), 16, d.width, d.prec)
    case _ => IntText(Unsigned(w, size), f, 16, d.width, d.prec)
  }

  function Clipped(s: string, prec: int): string
    requires prec >= -1
  {
    if prec != -1 && |s| > prec then s[..prec] else s
  }

  function StringText(s: string, f: Flags, width: int, prec: int): string
    requires prec >= -1
  {
    var shown := Clipped(s, prec);
    if f.minus then shown + Fill(' ', width, |shown|)
    else Fill(if f.zero then '0' else ' ', width, |shown|) + shown
  }

  function ByteChar(w: nat): char
  {
    QuotLess(w, 256);
    Rem(w, 256) as char
  }

  function TextOf(t: Text): string { if t.Null? then "(null)" else t.s }

  predicate IsString(c: char) { c == 'c' || c == 's' }

  /** A string conversion asks for a precision or none, never for one below none. */
  predicate Printable(d: Directive)
  {
    d.Directive? && IsString(d.conv) ==> d.prec >= -1
  }

  /** How often the loop `for (i = slen; i; i--)` runs on a 32-bit counter. */
  function LoopRuns(slen: int): nat
    requires -0x8000_0000 <= slen < 0x8000_0000
  {
    if slen >= 0 then slen else W32 + slen
  }

  method CountRuns(slen: int) returns (runs: nat)
    requires -0x8000_0000 <= slen < 0x8000_0000
    ensures runs == LoopRuns(slen)
  {
    var i := slen;
    runs := 0;
    while i != 0
      invariant -0x8000_0000 <= i < 0x8000_0000
      invariant runs + LoopRuns(i) == LoopRuns(slen)
      decreases LoopRuns(i)
    {
      i := if i == -0x8000_0000 then 0x7FFF_FFFF else i - 1;
      runs := runs + 1;
    }
  }

  /** The loop reads past the end of its string if and only if the precision is below "none". */
  lemma StringOverrun(s: string, prec: int)
    requires |s| < 0x8000_0000 && -0x8000_0000 <= prec < 0x8000_0000
    ensures var slen := if prec != -1 && |s| > prec then prec else |s|;
            && (LoopRuns(slen) > |s| <==> prec < -1)
            && (prec >= -1 ==> LoopRuns(slen) == |Clipped(s, prec)|)
  {
  }

  ghost function Converted(d: Directive, args: Args): string
    requires d.Directive? && Printable(d)
  {
    if IsNumeric(d.conv) then NumericText(d, args.word(d.at))
    else if d.conv == 'c' then StringText([ByteChar(args.word(d.at))], d.flags, d.width, d.prec)
    else if d.conv == 's' then StringText(TextOf(args.text(d.at)), d.flags, d.width, d.prec)
    else if d.conv == 'n' then ""
    else [d.conv]
  }

  function Fetches(c: char): nat { if IsNumeric(c) || IsString(c) || c == 'n' then 1 else 0 }

  // ----- the whole output

  ghost predicate WellFormed(fmt: string, p: nat, args: Args, at: nat)
    decreases |fmt| - p
  {
    if p >= |fmt| then true
    else if fmt[p] != '%' then WellFormed(fmt, p + 1, args, at)
    else WellFormedFrom(FromFlags(fmt, p + 1, NO_FLAGS, args, at), fmt, p + 1, args)
  }

  ghost predicate WellFormedFrom(d: Directive, fmt: string, p: nat, args: Args)
    decreases |fmt| - p, 1
  {
    d.Directive? ==> Printable(d) && p < d.next <= |fmt| && WellFormed(fmt, d.next, args, d.at + Fetches(d.conv))
  }

  /** The full output of a format from position `p`, `at` fetches already made. */
  ghost function Render(fmt: string, p: nat, args: Args, at: nat): string
    requires WellFormed(fmt, p, args, at)
    decreases |fmt| - p
  {
    if p >= |fmt| then ""
    else if fmt[p] != '%' then [fmt[p]] + Render(fmt, p + 1, args, at)
    else RenderFrom(FromFlags(fmt, p + 1, NO_FLAGS, args, at), fmt, p + 1, args)
  }

  ghost function RenderFrom(d: Directive, fmt: string, p: nat, args: Args): string
    requires WellFormedFrom(d, fmt, p, args)
    decreases |fmt| - p, 1
  {
    if d.Unfinished? then "" else Converted(d, args) + Render(fmt, d.next, args, d.at + Fetches(d.conv))
  }

  // ----- which formats are well formed

  /** The end of a run of digits and stars. */
  function NumberEnd(fmt: string, p: nat): (e: nat)
    requires p <= |fmt|
    ensures p <= e <= |fmt|
    decreases |fmt| - p
  {
    if p < |fmt| && (IsDigit(fmt[p]) || fmt[p] == '*') then NumberEnd(fmt, p + 1) else p
  }

  function FlagsEnd(fmt: string, p: nat): (e: nat)
    requires p <= |fmt|
    ensures p <= e <= |fmt|
    decreases |fmt| - p
  {
    if p < |fmt| && IsFlag(fmt[p]) then FlagsEnd(fmt, p + 1) else p
  }

  /** How many stars, and so fetches, from `p` up to `e`. */
  function Stars(fmt: string, p: nat, e: nat): nat
    requires e <= |fmt|
    decreases e - p
  {
    if p >= e then 0 else (if fmt[p] == '*' then 1 else 0) + Stars(fmt, p + 1, e)
  }

  /** The last star from `p` up to `e`, or -1. */
  function LastStar(fmt: string, p: nat, e: nat): (k: int)
    requires e <= |fmt|
    ensures k == -1 || (p <= k < e && fmt[k] == '*')
    ensures forall i | p <= i < e && k < i :: fmt[i] != '*'
    decreases e - p
  {
    if p >= e then -1
    else
      var k := LastStar(fmt, p + 1, e);
      if k != -1 then k else if fmt[p] == '*' then p else -1
  }

  ghost predicate OtherThanNines(fmt: string, p: int, e: nat)
    requires 0 <= p && e <= |fmt|
  {
    exists i: nat :: p <= i < e && fmt[i] != '9'
  }

  /** The last star before `e` has a negative argument, and a digit other than 9 stands behind it. */
  ghost predicate SinkingStar(fmt: string, p: nat, e: nat, args: Args, at: nat)
    requires e <= |fmt|
  {
    var k := LastStar(fmt, p, e);
    k != -1 && Signed32(args.word(at + Stars(fmt, p, k))) < 0 && OtherThanNines(fmt, k + 1, e)
  }

  /** The same in the precision of the directive whose flags start at `p`. */
  ghost predicate SinkingPrecision(fmt: string, p: nat, args: Args, at: nat)
    requires p <= |fmt|
  {
    var w := FlagsEnd(fmt, p);
    var dot := NumberEnd(fmt, w);
    dot < |fmt| && fmt[dot] == '.' && SinkingStar(fmt, dot + 1, NumberEnd(fmt, dot + 1), args, at + Stars(fmt, w, dot))
  }

  lemma OtherStep(fmt: string, p: nat, e: nat)
    requires p < e <= |fmt|
    ensures OtherThanNines(fmt, p, e) <==> fmt[p] != '9' || OtherThanNines(fmt, p + 1, e)
  {
  }

  lemma SinkStep(fmt: string, p: nat, e: nat, args: Args, at: nat)
    requires p < e <= |fmt|
    ensures fmt[p] != '*' ==>
              LastStar(fmt, p, e) == LastStar(fmt, p + 1, e)
              && (SinkingStar(fmt, p, e, args, at) <==> SinkingStar(fmt, p + 1, e, args, at))
    ensures fmt[p] == '*' ==>
              LastStar(fmt, p, e) != -1
              && (SinkingStar(fmt, p, e, args, at) <==>
                    if LastStar(fmt, p + 1, e) == -1 then Signed32(args.word(at)) < 0 && OtherThanNines(fmt, p + 1, e)
                    else SinkingStar(fmt, p + 1, e, args, at + 1))
  {
    hide Signed32, OtherThanNines;
  }

  lemma {:induction false} PrecisionSinks(fmt: string, p: nat, f: Flags, width: int, prec: int, args: Args, at: nat)
    requires p <= |fmt|
    ensures var d := FromPrec(fmt, p, f, width, prec, args, at); var e := NumberEnd(fmt, p);
            d.Directive? ==> (d.prec < -1 <==>
              if LastStar(fmt, p, e) == -1 then prec < -1 || (prec == -1 && OtherThanNines(fmt, p, e))
              else SinkingStar(fmt, p, e, args, at))
    decreases |fmt| - p
  {
    hide Signed32, OtherThanNines, SinkingStar;
    var e := NumberEnd(fmt, p);
    if p == e {
      NoOther(fmt, p);
      LengthKeepsPrecision(fmt, p, f, width, prec, RANK_INT, at);
    } else {
      OtherStep(fmt, p, e);
      SinkStep(fmt, p, e, args, at);
      if IsDigit(fmt[p]) {
        PrecisionSinks(fmt, p + 1, f, width, 10 * prec + DigitValue(fmt[p]), args, at);
      } else {
        var w := Signed32(args.word(at));
        PrecisionSinks(fmt, p + 1, f, width, if w < 0 then -1 else w, args, at + 1);
      }
    }
  }

  lemma NoOther(fmt: string, p: nat)
    requires p <= |fmt|
    ensures !OtherThanNines(fmt, p, p)
  {
  }

  lemma {:induction false} LengthKeepsPrecision(fmt: string, p: nat, f: Flags, width: int, prec: int, rank: int, at: nat)
    ensures var d := FromLength(fmt, p, f, width, prec, rank, at); d.Directive? ==> d.prec == prec
    decreases |fmt| - p
  {
    if p < |fmt| && IsLength(fmt[p]) {
      LengthKeepsPrecision(fmt, p + 1, f, width, prec, Ranked(rank, fmt[p]), at);
    }
  }

  lemma {:induction false} WidthThenPrecision(fmt: string, p: nat, f: Flags, width: int, args: Args, at: nat)
    requires p <= |fmt|
    ensures var d := FromWidth(fmt, p, f, width, args, at); var dot := NumberEnd(fmt, p);
            d.Directive? ==> (d.prec < -1 <==>
              dot < |fmt| && fmt[dot] == '.'
              && SinkingStar(fmt, dot + 1, NumberEnd(fmt, dot + 1), args, at + Stars(fmt, p, dot)))
    decreases |fmt| - p
  {
    hide Signed32, SinkingStar, FromLength, FromPrec;
    if p < |fmt| {
      if IsDigit(fmt[p]) {
        WidthThenPrecision(fmt, p + 1, f, 10 * width + DigitValue(fmt[p]), args, at);
      } else if fmt[p] == '*' {
        var w := Signed32(args.word(at));
        WidthThenPrecision(fmt, p + 1, if w < 0 then f.(minus := true) else f, if w < 0 then -w else w, args, at + 1);
      } else if fmt[p] == '.' {
        PrecisionSinks(fmt, p + 1, f, width, 0, args, at);
        NoStarNoSink(fmt, p + 1, NumberEnd(fmt, p + 1), args, at);
      } else {
        LengthKeepsPrecision(fmt, p, f, width, -1, RANK_INT, at);
      }
    }
  }

  lemma NoStarNoSink(fmt: string, p: nat, e: nat, args: Args, at: nat)
    requires e <= |fmt|
    ensures LastStar(fmt, p, e) == -1 ==> !SinkingStar(fmt, p, e, args, at)
  {
  }

  /** A directive's precision falls below "none" exactly when it sinks. */
  lemma {:induction false} DirectiveSinks(fmt: string, p: nat, f: Flags, args: Args, at: nat)
    requires p <= |fmt|
    ensures var d := FromFlags(fmt, p, f, args, at); d.Directive? ==> (d.prec < -1 <==> SinkingPrecision(fmt, p, args, at))
    decreases |fmt| - p
  {
    hide SinkingStar, Stars, LastStar, NumberEnd;
    if p < |fmt| && IsFlag(fmt[p]) {
      DirectiveSinks(fmt, p + 1, WithFlag(f, fmt[p]), args, at);
    } else {
      WidthThenPrecision(fmt, p, f, 0, args, at);
    }
  }

  /** Scanning from `p` with `at` fetches made, a directive is met at `q` after `a` fetches. */
  ghost predicate Reaches(fmt: string, p: nat, args: Args, at: nat, q: nat, a: nat)
    decreases |fmt| - p
  {
    p < |fmt| &&
    if fmt[p] != '%' then Reaches(fmt, p + 1, args, at, q, a)
    else
      || (q == p && a == at)
      || var d := FromFlags(fmt, p + 1, NO_FLAGS, args, at);
         d.Directive? && Reaches(fmt, d.next, args, d.at + Fetches(d.conv), q, a)
  }

  /** The directive at `q` prints a string with a precision that sinks. */
  ghost predicate SinkingString(fmt: string, args: Args, q: nat, a: nat)
    requires q < |fmt|
  {
    var d := FromFlags(fmt, q + 1, NO_FLAGS, args, a);
    d.Directive? && IsString(d.conv) && SinkingPrecision(fmt, q + 1, args, a)
  }

  /** No string directive that is met sinks. */
  ghost predicate NoneSinks(fmt: string, p: nat, args: Args, at: nat)
  {
    forall q: nat, a: nat | q < |fmt| && Reaches(fmt, p, args, at, q, a) :: !SinkingString(fmt, args, q, a)
  }

  lemma NothingReached(fmt: string, p: nat, args: Args, at: nat)
    requires p >= |fmt|
    ensures NoneSinks(fmt, p, args, at)
  {
  }

  lemma NoneSinksStep(fmt: string, p: nat, args: Args, at: nat)
    requires p < |fmt|
    ensures var d := FromFlags(fmt, p + 1, NO_FLAGS, args, at);
            NoneSinks(fmt, p, args, at) <==>
              if fmt[p] != '%' then NoneSinks(fmt, p + 1, args, at)
              else !SinkingString(fmt, args, p, at)
                   && (d.Directive? ==> NoneSinks(fmt, d.next, args, d.at + Fetches(d.conv)))
  {
    hide SinkingString, FromFlags;
    if fmt[p] == '%' {
      var d := FromFlags(fmt, p + 1, NO_FLAGS, args, at);
      assert Reaches(fmt, p, args, at, p, at);
      if d.Directive? {
        assert forall q: nat, a: nat | Reaches(fmt, d.next, args, d.at + Fetches(d.conv), q, a) ::
            Reaches(fmt, p, args, at, q, a);
      }
    } else {
      assert forall q: nat, a: nat | Reaches(fmt, p + 1, args, at, q, a) :: Reaches(fmt, p, args, at, q, a);
    }
  }

  /**
   What `vsnprintf` asks of a format and its arguments, read off the format: no %s or %c
   is met in whose precision the last star has a negative argument and a digit other
   than 9 behind it.
   */
  lemma {:induction false} WellFormedExactly(fmt: string, p: nat, args: Args, at: nat)
    ensures WellFormed(fmt, p, args, at) <==> NoneSinks(fmt, p, args, at)
    decreases |fmt| - p
  {
    hide SinkingPrecision, FromFlags, Reaches, NoneSinks;
    if p < |fmt| {
      NoneSinksStep(fmt, p, args, at);
      if fmt[p] != '%' {
        WellFormedExactly(fmt, p + 1, args, at);
      } else {
        DirectiveSinks(fmt, p + 1, NO_FLAGS, args, at);
        var d := FromFlags(fmt, p + 1, NO_FLAGS, args, at);
        if d.Directive? {
          WellFormedExactly(fmt, d.next, args, d.at + Fetches(d.conv));
        }
      }
    } else {
      NothingReached(fmt, p, args, at);
    }
  }

  /** A negative star with a 5 behind it sinks; with a 9 behind it there is no precision. */
  lemma StarThenDigit(args: Args)
    requires Signed32(args.word(0)) < 0
    ensures !WellFormed("%.*5s", 0, args, 0) && WellFormed("%.*9s", 0, args, 0)
  {
    hide Signed32;
    var d5, d9 := Directive(NO_FLAGS, 0, -5, RANK_INT, 's', 5, 1), Directive(NO_FLAGS, 0, -1, RANK_INT, 's', 5, 1);
    assert FromLength("%.*5s", 4, NO_FLAGS, 0, -5, RANK_INT, 1) == d5;
    assert FromPrec("%.*5s", 3, NO_FLAGS, 0, -1, args, 1) == d5;
    assert FromFlags("%.*5s", 1, NO_FLAGS, args, 0) == FromPrec("%.*5s", 2, NO_FLAGS, 0, 0, args, 0) == d5;
    assert FromLength("%.*9s", 4, NO_FLAGS, 0, -1, RANK_INT, 1) == d9;
    assert FromPrec("%.*9s", 3, NO_FLAGS, 0, -1, args, 1) == d9;
    assert FromFlags("%.*9s", 1, NO_FLAGS, args, 0) == FromPrec("%.*9s", 2, NO_FLAGS, 0, 0, args, 0) == d9;
  }

  datatype State = Normal | InFlags | InWidth | InPrec | InLength

  function Stage(s: State): nat
  {
    match s case Normal => 0 case InFlags => 3 case InWidth => 2 case InPrec => 1 case InLength => 0
  }

  /** What the variables of the loop hold. */
  datatype Scan = Scan(state: State, p: nat, flags: Flags, width: int, prec: int, rank: int, at: nat)

  ghost function Ahead(s: Scan, fmt: string, args: Args): Directive
    requires !s.state.Normal?
  {
    match s.state
    case InFlags => FromFlags(fmt, s.p, s.flags, args, s.at)
    case InWidth => FromWidth(fmt, s.p, s.flags, s.width, args, s.at)
    case InPrec => FromPrec(fmt, s.p, s.flags, s.width, s.prec, args, s.at)
    case _ => FromLength(fmt, s.p, s.flags, s.width, s.prec, s.rank, s.at)
  }

  ghost predicate Consistent(s: Scan, fmt: string, args: Args)
  {
    && s.p <= |fmt|
    && (s.state.InFlags? ==> s.width == 0) && (s.state.InFlags? || s.state.InWidth? ==> s.prec == -1)
    && (!s.state.Normal? && !s.state.InLength? ==> s.rank == RANK_INT)
    && if s.state.Normal? then WellFormed(fmt, s.p, args, s.at) else WellFormedFrom(Ahead(s, fmt, args), fmt, s.p, args)
  }

  /** What is still to be printed. */
  ghost function ToCome(s: Scan, fmt: string, args: Args): string
    requires Consistent(s, fmt, args)
  {
    if s.state.Normal? then Render(fmt, s.p, args, s.at) else RenderFrom(Ahead(s, fmt, args), fmt, s.p, args)
  }

  lemma OverlayTwice(before: seq<char>, n: nat, out: string, text: string)
    requires n <= |before|
    ensures var room := if |out| < n then n - |out| else 0;
            Overlay(Overlay(before, 0, n, out), |out|, room, text) == Overlay(before, 0, n, out + text)
  {
  }

  /** A number at the current end of the output. */
  method PutNumber(buf: array<char>, n: nat, val: nat, f: Flags, base: nat, width: int, prec: int, q0: nat, o0: nat,
                   ghost before: seq<char>, ghost out: string) returns (q: nat, o: nat)
    requires Printed(buf[..], before, 0, n, out, q0, o0) && n <= buf.Length
    requires val < W64 && 2 <= base <= 16
    modifies buf
    ensures Printed(buf[..], before, 0, n, out + IntText(val, f, base, width, prec), q, o)
  {
    hide IntText;
    OverlayTwice(before, n, out, IntText(val, f, base, width, prec));
    var sz := FormatInt(buf, q0, if o0 < n then n - o0 else 0, val, f, base, width, prec);
    hide Overlay;
    NoRoom(buf[..], q0, IntText(val, f, base, width, prec));
    q, o := q0 + sz, o0 + sz;
  }

  lemma NoRoom(now: seq<char>, at: nat, text: string)
    ensures Overlay(now, at, 0, text) == now && Overlay(now, |text|, 0, text) == now
  {
  }

  /** A string conversion at the current end of the output. */
  method PutString(buf: array<char>, n: nat, s: string, f: Flags, width: int, prec: int, q0: nat, o0: nat,
                   ghost before: seq<char>, ghost out: string) returns (q: nat, o: nat)
    requires Printed(buf[..], before, 0, n, out, q0, o0) && prec >= -1
    modifies buf
    ensures Printed(buf[..], before, 0, n, out + StringText(s, f, width, prec), q, o)
  {
    hide Printed, Fill;
    q, o := q0, o0;
    var slen := |s|;
    if prec != -1 && slen > prec {
      slen := prec;
    }
    ghost var shown := s[..slen];
    assert shown == Clipped(s, prec);
    if !f.minus {
      var pad := if f.zero then '0' else ' ';
      q, o := Pad(buf, n, pad, width, slen, q, o, before, 0, out);
      q, o := EmitAll(buf, n, s[..slen], q, o, before, 0, out + Fill(pad, width, slen));
      assert out + Fill(pad, width, slen) + shown == out + (Fill(pad, width, slen) + shown);
    } else {
      q, o := EmitAll(buf, n, s[..slen], q, o, before, 0, out);
      q, o := Pad(buf, n, ' ', width, slen, q, o, before, 0, out + shown);
      assert out + shown + Fill(' ', width, slen) == out + (shown + Fill(' ', width, slen));
    }
  }

  /** A numeric conversion: base, flags and the width of the argument by the conversion character. */
  method PutNumeric(buf: array<char>, n: nat, ch: char, flags0: Flags, width: int, prec0: int, rank: int, w: nat,
                    q0: nat, o0: nat, ghost before: seq<char>, ghost out: string, ghost d: Directive)
    returns (q: nat, o: nat)
    requires Printed(buf[..], before, 0, n, out, q0, o0) && n <= buf.Length
    requires d.Directive? && d.(next := 0, at := 0) == Directive(flags0, width, prec0, rank, ch, 0, 0) && IsNumeric(ch)
    modifies buf
    ensures Printed(buf[..], before, 0, n, out + NumericText(d, w), q, o)
  {
    hide Printed, IntText, Unsigned, SignExtended;
    var flags, prec, size := flags0, prec0, RankSize(rank);
    var base: nat, val: nat;
    if ch == 'P' || ch == 'p' {
      if ch == 'P' {
        flags := flags.(upper := true);
      }
      base, prec := 16, 8;
      flags := flags.(hash := true);
      val := Unsigned(w, W32);
    } else if ch == 'd' || ch == 'i' {
      base := 10;
      flags := flags.(signed := true);
      val := SignExtended(w, size);
    } else {
      if ch == 'o' {
        base := 8;
      } else if ch == 'u' {
        base := 10;
      } else {
        if ch == 'X' {
          flags := flags.(upper := true);
        }
        base := 16;
      }
      val := Unsigned(w, size);
    }
    q, o := PutNumber(buf, n, val, flags, base, width, prec, q0, o0, before, out);
  }

  /** The terminal part of a conversion. */
  method PutConversion(buf: array<char>, n: nat, ch: char, flags: Flags, width: int, prec: int, rank: int,
                       args: Args, at0: nat, q0: nat, o0: nat,
                       ghost before: seq<char>, ghost out: string, ghost d: Directive)
    returns (q: nat, o: nat, at: nat)
    requires Printed(buf[..], before, 0, n, out, q0, o0) && n <= buf.Length && Printable(d)
    requires d.Directive? && d.(next := 0) == Directive(flags, width, prec, rank, ch, 0, at0)
    modifies buf
    ensures Printed(buf[..], before, 0, n, out + Converted(d, args), q, o) && at == at0 + Fetches(ch)
  {
    hide Printed, NumericText, StringText;
    q, o, at := q0, o0, at0;
    if IsNumeric(ch) {
      q, o := PutNumeric(buf, n, ch, flags, width, prec, rank, args.word(at), q, o, before, out, d);
      at := at + 1;
    } else if ch == 'c' {
      var carg := ByteChar(args.word(at));
      at := at + 1;
      q, o := PutString(buf, n, [carg], flags, width, prec, q, o, before, out);
    } else if ch == 's' {
      var sarg := TextOf(args.text(at));
      at := at + 1;
      q, o := PutString(buf, n, sarg, flags, width, prec, q, o, before, out);
    } else if ch == 'n' {
      at := at + 1;
      assert out + "" == out;
    } else {
      q, o := Emit(buf, n, ch, q, o, before, 0, out);
    }
  }

  // ----- vsnprintf

  /** A buffer of capacity `n` after `text`: what fits, then the terminator. */
  ghost function Terminated(before: seq<char>, n: nat, text: string): (now: seq<char>)
    requires n <= |before|
  {
    if n == 0 then before
    else var k := Min(|text|, n - 1); text[..k] + ['\0'] + before[k + 1..]
  }

  lemma TerminatedMeans(before: seq<char>, n: nat, text: string, now: seq<char>)
    requires n <= |before| && now == Terminated(before, n, text)
    ensures |now| == |before|
    ensures n > 0 ==> var k := Min(|text|, n - 1); now[..k] == text[..k] && now[k] == '\0'
    ensures forall i | 0 <= i < |before| && (n == 0 || i > Min(|text|, n - 1)) :: now[i] == before[i]
  {
  }

  lemma TerminateOverlay(before: seq<char>, n: nat, text: string)
    requires n <= |before|
    ensures |text| < n ==> Overlay(before, 0, n, text)[|text| := '\0'] == Terminated(before, n, text)
    ensures 0 < n <= |text| ==> Overlay(before, 0, n, text)[n - 1 := '\0'] == Terminated(before, n, text)
    ensures n == 0 ==> Overlay(before, 0, n, text) == before
  {
  }

  method Terminate(buf: array<char>, n: nat, q: nat, o: nat, ghost before: seq<char>, ghost out: string)
    requires Printed(buf[..], before, 0, n, out, q, o) && n <= buf.Length
    modifies buf
    ensures |before| == buf.Length && o == |out| && buf[..] == Terminated(before, n, out)
  {
    PrintedMeans(buf[..], before, 0, n, out, q, o);
    TerminateOverlay(before, n, out);
    if o < n {
      buf[q] := '\0';
    } else if n > 0 {
      buf[n - 1] := '\0';
    }
  }

  /**
   The returned count is the length of the full output whatever the capacity; the
   buffer holds what fits of it and a terminator, and nothing else is written.
   */
  method Vsnprintf(buf: array<char>, n: nat, format: string, args: Args) returns (o: nat)
    requires n <= buf.Length && WellFormed(format, 0, args, 0)
    modifies buf
    ensures o == |Render(format, 0, args, 0)|
    ensures buf[..] == Terminated(old(buf[..]), n, Render(format, 0, args, 0))
    ensures n > 0 ==> var k := Min(o, n - 1); buf[..k] == Render(format, 0, args, 0)[..k] && buf[k] == '\0'
    ensures forall i | 0 <= i < buf.Length && (n == 0 || i > Min(o, n - 1)) :: buf[i] == old(buf[i])
  {
    hide Printed, Overlay, Terminated, Render, WellFormed;
    ghost var before, whole := buf[..], Render(format, 0, args, 0);
    var q;
    q, o := PrintAll(buf, n, format, args);
    Terminate(buf, n, q, o, before, whole);
    TerminatedMeans(before, n, whole, buf[..]);
  }

  /** The loop over the format. */
  method PrintAll(buf: array<char>, n: nat, format: string, args: Args) returns (q: nat, o: nat)
    requires n <= buf.Length && WellFormed(format, 0, args, 0)
    modifies buf
    ensures Printed(buf[..], old(buf[..]), 0, n, Render(format, 0, args, 0), q, o)
  {
    hide Printed, Overlay, Converted, WithFlag, Ranked, Signed32, Printable, IsLength, IsFlag, Fetches;
    ghost var before, out, whole := buf[..], "", Render(format, 0, args, 0);
    var p: nat, at: nat := 0, 0;
    q, o := 0, 0;
    NothingPrinted(before, 0, n);
    var state, flags, width, prec, rank := Normal, NO_FLAGS, 0, -1, RANK_INT;
    assert out + whole == whole;
    while p < |format|
      invariant Consistent(Scan(state, p, flags, width, prec, rank, at), format, args)
      invariant out + ToCome(Scan(state, p, flags, width, prec, rank, at), format, args) == whole
      invariant Printed(buf[..], before, 0, n, out, q, o)
      decreases |format| - p, Stage(state)
    {
      var ch := format[p];
      p := p + 1;
      match state {
        case Normal =>
          if ch == '%' {
            state, flags, rank, width, prec := InFlags, NO_FLAGS, RANK_INT, 0, -1;
          } else {
            q, o := Emit(buf, n, ch, q, o, before, 0, out);
            assert out + ([ch] + Render(format, p, args, at)) == (out + [ch]) + Render(format, p, args, at);
            out := out + [ch];
          }
        case InFlags =>
          if IsFlag(ch) {
            flags := WithFlag(flags, ch);
          } else {
            state := InWidth;
            p := p - 1;
          }
        case InWidth =>
          if IsDigit(ch) {
            width := width * 10 + DigitValue(ch);
          } else if ch == '*' {
            width := Signed32(args.word(at));
            at := at + 1;
            if width < 0 {
              width := -width;
              flags := flags.(minus := true);
            }
          } else if ch == '.' {
            prec, state := 0, InPrec;
          } else {
            state := InLength;
            p := p - 1;
          }
        case InPrec =>
          if IsDigit(ch) {
            prec := prec * 10 + DigitValue(ch);
          } else if ch == '*' {
            prec := Signed32(args.word(at));
            at := at + 1;
            if prec < 0 {
              prec := -1;
            }
          } else {
            state := InLength;
            p := p - 1;
          }
        case InLength =>
          if IsLength(ch) {
            rank := Ranked(rank, ch);
          } else {
            state := Normal;
            ghost var d := Directive(flags, width, prec, rank, ch, p, at);
            q, o, at := PutConversion(buf, n, ch, flags, width, prec, rank, args, at, q, o, before, out, d);
            ghost var shown := Converted(d, args);
            assert out + (shown + Render(format, p, args, at)) == (out + shown) + Render(format, p, args, at);
            out := out + shown;
          }
      }
    }
    assert out == whole;
  }

  // ----- asprintf

  /** Two passes: the first only measures, the second prints into exactly that much. */
  method Asprintf(format: string, args: Args, enough: bool) returns (rv: int, p: array?<char>)
    requires WellFormed(format, 0, args, 0)
    ensures enough ==> rv == |Render(format, 0, args, 0)|
    ensures enough ==> p != null && fresh(p) && p[..] == Render(format, 0, args, 0) + ['\0']
    ensures !enough ==> rv == -1 && p == null
  {
    hide WellFormed, Render;
    var none := new char[0];
    var bytes := Vsnprintf(none, 0, format, args);
    bytes := bytes + 1;
    if !enough {
      return -1, null;
    }
    var room := new char[bytes];
    rv := Vsnprintf(room, bytes, format, args);
    assert Render(format, 0, args, 0)[..rv] == Render(format, 0, args, 0);
    p := room;
  }
}
