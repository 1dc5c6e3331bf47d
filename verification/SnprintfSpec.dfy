/** What lib/libc/stdio/snprintf.c prints: the text of a format with its arguments, before the
    buffer's size cuts it off. */
module SnprintfSpec {
  import opened Basics
  import opened Machine
  import opened Division

  /** An argument: a 32-bit word, a string without its closing zero, or the null pointer. */
  datatype Arg = Number(w: Word) | Text(s: string) | Null

  // ---------- numbers ----------

  /** "0123456789ABCDEF"[k]. */
  function Digit(k: nat): char
    requires k < 16
  {
    if k < 10 then ('0' as int + k) as char else ('A' as int + (k - 10)) as char
  }

  /** Quotient and remainder, by taking the base away; QuotRem says what they are. */
  function Quot(u: nat, base: nat): (q: nat)
    requires base >= 2
    ensures q <= u && (u >= base ==> 0 < q < u)
  {
    if u < base then 0 else 1 + Quot(u - base, base)
  }

  function Rem(u: nat, base: nat): (r: nat)
    requires base >= 2
    ensures r < base
  {
    if u < base then u else Rem(u - base, base)
  }

  lemma {:induction false} QuotRem(u: nat, base: nat)
    requires base >= 2
    ensures u == Quot(u, base) * base + Rem(u, base)
  {
    if u < base {
    } else {
      QuotRem(u - base, base);
    }
  }

  lemma QuotIsDiv(u: nat, base: nat)
    requires base >= 2
    ensures Quot(u, base) == u / base && Rem(u, base) == u % base
  {
    QuotRem(u, base);
    DivisionUnique(u, base, Quot(u, base), Rem(u, base));
  }

  /** The digits of a number, most significant first; one digit for zero. */
  function Digits(u: nat, base: nat): (s: string)
    requires 2 <= base <= 16
    ensures |s| >= 1
  {
    if u < base then [Digit(u)] else Digits(Quot(u, base), base) + [Digit(Rem(u, base))]
  }

  function Repeat(c: char, n: nat): string {
    seq(n, _ => c)
  }

  /** Digits with a width: leading zeros, or the low digits only when the width is too small. The
      code tests flag | FLAG_ZEROPAD, which always holds, so numbers are never padded with spaces. */
  function Padded(digits: string, width: nat): string {
    if width == 0 then digits
    else if width >= |digits| then Repeat('0', width - |digits|) + digits
    else digits[|digits| - width..]
  }

  function AsSigned(w: Word): int {
    if w < WORD_RANGE / 2 then w else w - WORD_RANGE
  }

  function Magnitude(v: int): nat {
    if v < 0 then -v else v
  }

  function NumberText(neg: bool, u: nat, base: nat, width: nat): string
    requires 2 <= base <= 16
  {
    (if neg then "-" else "") + Padded(Digits(u, base), width)
  }

  // ---------- directives ----------

  predicate IsDigit(c: char) { '0' <= c <= '9' }

  /** Where the digits from i on end. */
  function RunEnd(f: string, i: nat): (k: nat)
    requires i <= |f|
    ensures i <= k <= |f| && forall j :: i <= j < k ==> IsDigit(f[j])
    ensures k < |f| ==> !IsDigit(f[k])
    ensures i < |f| && IsDigit(f[i]) ==> i < k
    decreases |f| - i
  {
    if i == |f| || !IsDigit(f[i]) then i else RunEnd(f, i + 1)
  }

  /** width = width * 10 + digit, for each digit of f[i..k]. */
  function Widen(width: nat, f: string, i: nat, k: nat): nat
    requires i <= k <= |f| && forall j :: i <= j < k ==> IsDigit(f[j])
  {
    if i == k then width
    else
      var c := f[k - 1];
      assert IsDigit(c);
      Widen(width, f, i, k - 1) * 10 + (c as int - '0' as int)
  }

  /** After the percent sign: zeros set a flag, other digits start a number; both go on. The result
      is the place of the conversion, and the width. */
  function Flags(f: string, i: nat, width: nat): (r: (nat, nat))
    requires i <= |f|
    ensures i <= r.0 <= |f|
    decreases |f| - i
  {
    if i == |f| then (i, width)
    else if f[i] == '0' then Flags(f, i + 1, width)
    else if IsDigit(f[i]) then Flags(f, RunEnd(f, i), Widen(width, f, i, RunEnd(f, i)))
    else (i, width)
  }

  function Base(c: char): nat {
    if c == 'o' then 8 else if c == 'x' || c == 'p' then 16 else 10
  }

  predicate Numeric(c: char) {
    c == 'd' || c == 'o' || c == 'x' || c == 'p' || c == 'u'
  }

  /** How many arguments a conversion takes. */
  function Takes(c: char): nat {
    if Numeric(c) || c == 'c' || c == 's' then 1 else 0
  }

  predicate ArgFits(c: char, a: Arg) {
    if c == 's' then a.Null? || (a.Text? && '\0' !in a.s) else a.Number?
  }

  function ArgAt(args: seq<Arg>, a: nat): Arg {
    if a < |args| then args[a] else Null
  }

  /** The text of a conversion with its argument; an unknown one prints itself. */
  function Converted(c: char, arg: Arg, width: nat): string
    requires Takes(c) == 1 ==> ArgFits(c, arg)
  {
    if c == 'd' then NumberText(AsSigned(arg.w) < 0, Magnitude(AsSigned(arg.w)), 10, width)
    else if Numeric(c) then NumberText(false, arg.w, Base(c), width)
    else if c == 'c' then [(arg.w % 256) as char]
    else if c == 's' then
      var s := if arg.Null? then "(null)" else arg.s;
      s + Repeat(' ', if width > |s| then width - |s| else 0)
    else if c == '%' then "%"
    else ['%', c]
  }

  /** Only a known conversion sets the width back. */
  function WidthAfter(c: char, width: nat): nat {
    if Takes(c) == 1 || c == '%' then 0 else width
  }

  /** The format asks for the arguments there are, and has no percent sign at its end. */
  ghost predicate Fits(f: string, i: nat, args: seq<Arg>, a: nat)
    requires i <= |f|
    decreases |f| - i
  {
    if i == |f| then true
    else if f[i] != '%' then Fits(f, i + 1, args, a)
    else
      var k := Flags(f, i + 1, 0).0;
      && k < |f|
      && (Takes(f[k]) == 1 ==> a < |args| && ArgFits(f[k], args[a]))
      && Fits(f, k + 1, args, a + Takes(f[k]))
  }

  lemma {:induction false} FlagsPlace(f: string, i: nat, v: nat, w: nat)
    requires i <= |f|
    ensures Flags(f, i, v).0 == Flags(f, i, w).0
    decreases |f| - i
  {
    if i < |f| {
      if f[i] == '0' {
        FlagsPlace(f, i + 1, v, w);
      } else if IsDigit(f[i]) {
        var k := RunEnd(f, i);
        FlagsPlace(f, k, Widen(v, f, i, k), Widen(w, f, i, k));
      }
    }
  }

  /** All that a format prints from i on, the arguments taken from a on. */
  function Output(f: string, i: nat, args: seq<Arg>, a: nat, width: nat): string
    requires i <= |f| && Fits(f, i, args, a)
    decreases |f| - i, 1
  {
    if i == |f| then ""
    else if f[i] != '%' then [f[i]] + Output(f, i + 1, args, a, width)
    else
      FlagsPlace(f, i + 1, width, 0);
      var (k, w) := Flags(f, i + 1, width);
      OutputFrom(f, i, k, args, a, w)
  }

  /** The conversion at k, with its width, of the directive at i, and all that follows. */
  function OutputFrom(f: string, i: nat, k: nat, args: seq<Arg>, a: nat, w: nat): string
    requires i < k < |f| && (Takes(f[k]) == 1 ==> a < |args| && ArgFits(f[k], args[a]))
    requires Fits(f, k + 1, args, a + Takes(f[k]))
    decreases |f| - i, 0
  {
    Converted(f[k], ArgAt(args, a), w) + Output(f, k + 1, args, a + Takes(f[k]), WidthAfter(f[k], w))
  }

  /** What a format that fits needs at a percent sign. */
  lemma FitsStep(f: string, i: nat, args: seq<Arg>, a: nat, width: nat, k: nat, w: nat)
    requires i < |f| && f[i] == '%' && Flags(f, i + 1, width) == (k, w) && Fits(f, i, args, a)
    ensures k < |f| && Fits(f, k + 1, args, a + Takes(f[k]))
    ensures Takes(f[k]) == 1 ==> a < |args| && ArgFits(f[k], args[a])
  {
    FlagsPlace(f, i + 1, width, 0);
  }

  lemma OutputStep(f: string, i: nat, args: seq<Arg>, a: nat, width: nat, k: nat, w: nat)
    requires i < |f| && f[i] == '%' && Flags(f, i + 1, width) == (k, w) && Fits(f, i, args, a)
    requires k < |f| && Fits(f, k + 1, args, a + Takes(f[k]))
    requires Takes(f[k]) == 1 ==> a < |args| && ArgFits(f[k], args[a])
    ensures Output(f, i, args, a, width)
         == Converted(f[k], ArgAt(args, a), w) + Output(f, k + 1, args, a + Takes(f[k]), WidthAfter(f[k], w))
  {
    assert Output(f, i, args, a, width) == OutputFrom(f, i, k, args, a, w);
  }

  // ---------- reading numbers back ----------

  function DigitValue(c: char): nat {
    if '0' <= c <= '9' then c as int - '0' as int
    else if 'A' <= c <= 'F' then c as int - 'A' as int + 10
    else 0
  }

  function Parse(s: string, base: nat): nat {
    if s == "" then 0 else Parse(s[..|s| - 1], base) * base + DigitValue(s[|s| - 1])
  }

  function ParseSigned(s: string, base: nat): int {
    if s != "" && s[0] == '-' then -(Parse(s[1..], base) as int) else Parse(s, base)
  }

  lemma DigitBack(k: nat)
    requires k < 16
    ensures DigitValue(Digit(k)) == k && Digit(k) != '-'
  {
  }

  /** The digits of a number are a numeral for it. */
  lemma {:induction false} ParseDigits(u: nat, base: nat)
    requires 2 <= base <= 16
    ensures Parse(Digits(u, base), base) == u
  {
    if u < base {
      assert "" + [Digit(u)] == [Digit(u)] == Digits(u, base);
      assert Parse("", base) == 0;
      ParseLast("", u, base);
    } else {
      var r := Digits(Quot(u, base), base);
      ParseDigits(Quot(u, base), base);
      assert Digits(u, base) == r + [Digit(Rem(u, base))];
      ParseStep(r, u, base);
    }
  }

  lemma ParseStep(r: string, u: nat, base: nat)
    requires 2 <= base <= 16 && Parse(r, base) == Quot(u, base)
    ensures Parse(r + [Digit(Rem(u, base))], base) == u
  {
    ParseLast(r, Rem(u, base), base);
    QuotRem(u, base);
  }

  lemma {:induction false} ParseZeros(n: nat, s: string, base: nat)
    ensures Parse(Repeat('0', n) + s, base) == Parse(s, base)
    decreases |s| + n
  {
    var t := Repeat('0', n) + s;
    if s != "" {
      assert t[..|t| - 1] == Repeat('0', n) + s[..|s| - 1];
      ParseZeros(n, s[..|s| - 1], base);
    } else if n > 0 {
      assert t[..|t| - 1] == Repeat('0', n - 1) + "";
      ParseZeros(n - 1, "", base);
    }
  }

  function Power(base: nat, n: nat): nat {
    if n == 0 then 1 else base * Power(base, n - 1)
  }

  lemma {:induction false} LowDigits(u: nat, base: nat, w: nat)
    requires 2 <= base <= 16 && 0 < w < |Digits(u, base)|
    ensures var s := Digits(u, base); Parse(s[|s| - w..], base) < Power(base, w) <= u
  {
    var v, k := Quot(u, base), Rem(u, base);
    var r := Digits(v, base);
    var t := r[|r| - (w - 1)..];
    assert Digits(u, base)[|Digits(u, base)| - w..] == t + [Digit(k)];
    ParseLast(t, k, base);
    QuotRem(u, base);
    if w == 1 {
      assert Power(base, 0) == 1 && Parse(t, base) == 0;
    } else {
      LowDigits(v, base, w - 1);
    }
    Grow(Parse(t, base), Power(base, w - 1), base, v, k);
  }

  lemma ParseLast(t: string, k: nat, base: nat)
    requires k < 16
    ensures Parse(t + [Digit(k)], base) == Parse(t, base) * base + k
  {
    DigitBack(k);
    assert (t + [Digit(k)])[..|t|] == t;
  }

  lemma Grow(p: nat, q: nat, base: nat, v: nat, k: nat)
    requires p < q <= v && k < base
    ensures p * base + k < base * q <= v * base + k
  {
    assert (p + 1) * base <= q * base;
    assert q * base <= v * base;
  }

  /** Nothing but digits of the base. */
  ghost predicate Numeral(s: string, base: nat) {
    forall j {:trigger s[j]} :: 0 <= j < |s| ==>
      (IsDigit(s[j]) || 'A' <= s[j] <= 'F') && DigitValue(s[j]) < base
  }

  lemma {:induction false} DigitsNumeral(u: nat, base: nat)
    requires 2 <= base <= 16
    ensures Numeral(Digits(u, base), base)
  {
    if u < base {
      DigitBack(u);
    } else {
      DigitsNumeral(Quot(u, base), base);
      DigitBack(Rem(u, base));
    }
  }

  /** A number printed with a width has as many characters as the width says, all of them digits, zeros
      in front if there is room; without a width it has its digits. */
  lemma PaddedShape(u: nat, base: nat, width: nat)
    requires 2 <= base <= 16
    ensures
      var d, s := Digits(u, base), Padded(Digits(u, base), width);
      && Numeral(s, base) && |s| == (if width == 0 then |d| else width)
      && (width >= |d| ==> s[width - |d|..] == d && forall j :: 0 <= j < width - |d| ==> s[j] == '0')
  {
    DigitsNumeral(u, base);
    var d, s := Digits(u, base), Padded(Digits(u, base), width);
    if width >= |d| {
      assert s[width - |d|..] == d;
    }
  }

  /** A number printed with a width reads back as itself exactly when there is no width or the width
      has room for its digits. */
  lemma PaddedBack(u: nat, base: nat, width: nat)
    requires 2 <= base <= 16
    ensures Parse(Padded(Digits(u, base), width), base) == u <==> width == 0 || width >= |Digits(u, base)|
  {
    var s := Digits(u, base);
    ParseDigits(u, base);
    if width >= |s| {
      ParseZeros(width - |s|, s, base);
    } else if width > 0 {
      LowDigits(u, base, width);
    }
  }

  lemma {:induction false} DigitsPlain(u: nat, base: nat, k: nat)
    requires 2 <= base <= 16 && k < |Digits(u, base)|
    ensures Digits(u, base)[k] != '-' && Digits(u, base)[k] != '%'
    ensures base == 10 ==> IsDigit(Digits(u, base)[k])
    ensures k == 0 && u > 0 ==> Digits(u, base)[k] != '0'
  {
    DigitBack(Rem(u, base));
    if u < base {
    } else {
      var r := Digits(Quot(u, base), base);
      if k < |r| { DigitsPlain(Quot(u, base), base, k); }
    }
  }

  lemma PaddedNoMinus(u: nat, base: nat, width: nat)
    requires 2 <= base <= 16
    ensures var s := Padded(Digits(u, base), width); s != "" && s[0] != '-'
  {
    var d := Digits(u, base);
    DigitsPlain(u, base, 0);
    if 0 < width < |d| { DigitsPlain(u, base, |d| - width); }
  }

  // ---------- round trip through the format ----------

  /** A format of one conversion with a width, or none if the width is 0. */
  function OneFormat(width: nat, c: char): string {
    "%" + (if width == 0 then "" else Digits(width, 10)) + [c]
  }

  lemma {:induction false} WidenParse(f: string, i: nat, k: nat)
    requires i <= k <= |f| && forall j :: i <= j < k ==> IsDigit(f[j])
    ensures Widen(0, f, i, k) == Parse(f[i..k], 10)
  {
    if i >= k {
    } else {
      WidenParse(f, i, k - 1);
      assert f[i..k][..k - i - 1] == f[i..k - 1] && f[i..k][k - i - 1] == f[k - 1];
    }
  }

  lemma {:induction false} RunEnds(f: string, i: nat, k: nat)
    requires i <= k < |f| && !IsDigit(f[k]) && forall j :: i <= j < k ==> IsDigit(f[j])
    ensures RunEnd(f, i) == k
    decreases k - i
  {
    if i >= k {
    } else {
      RunEnds(f, i + 1, k);
    }
  }

  lemma OneFlags(width: nat, c: char)
    requires !IsDigit(c)
    ensures var f := OneFormat(width, c); Flags(f, 1, 0) == (|f| - 1, width) && f[|f| - 1] == c && f[0] == '%'
  {
    var f := OneFormat(width, c);
    if width > 0 {
      var s := Digits(width, 10);
      var k := |s| + 1;
      forall j | 1 <= j < k ensures IsDigit(f[j]) {
        DigitsPlain(width, 10, j - 1);
        assert f[j] == s[j - 1];
      }
      DigitsPlain(width, 10, 0);
      assert f[1] == s[0];
      RunEnds(f, 1, k);
      WidenParse(f, 1, k);
      assert f[1..k] == s;
      ParseDigits(width, 10);
    }
  }

  lemma OneOutput(width: nat, c: char, w: Word)
    requires Numeric(c)
    ensures Fits(OneFormat(width, c), 0, [Number(w)], 0)
    ensures Output(OneFormat(width, c), 0, [Number(w)], 0, 0) == Converted(c, Number(w), width)
  {
    OneFlags(width, c);
    var f := OneFormat(width, c);
    assert Fits(f, |f|, [Number(w)], 1) && Output(f, |f|, [Number(w)], 1, WidthAfter(c, width)) == "";
  }

  /** Printing with %u, %x, %p or %o and reading back gives the argument, exactly when there is no
      width or it has room for the digits. */
  lemma UnsignedRoundTrip(width: nat, c: char, w: Word)
    requires Numeric(c) && c != 'd'
    ensures Fits(OneFormat(width, c), 0, [Number(w)], 0)
    ensures Parse(Output(OneFormat(width, c), 0, [Number(w)], 0, 0), Base(c)) == w
      <==> width == 0 || width >= |Digits(w, Base(c))|
  {
    OneOutput(width, c, w);
    PaddedBack(w, Base(c), width);
    assert "" + Padded(Digits(w, Base(c)), width) == Padded(Digits(w, Base(c)), width);
  }

  /** The same for %d, with the sign; the width counts the digits and not the sign. */
  lemma SignedRoundTrip(width: nat, w: Word)
    ensures Fits(OneFormat(width, 'd'), 0, [Number(w)], 0)
    ensures ParseSigned(Output(OneFormat(width, 'd'), 0, [Number(w)], 0, 0), 10) == AsSigned(w)
      <==> width == 0 || width >= |Digits(Magnitude(AsSigned(w)), 10)|
  {
    OneOutput(width, 'd', w);
    var u := Magnitude(AsSigned(w));
    var p := Padded(Digits(u, 10), width);
    PaddedBack(u, 10, width);
    PaddedNoMinus(u, 10, width);
    if AsSigned(w) < 0 {
      assert ("-" + p)[1..] == p;
    } else {
      assert "" + p == p;
    }
  }
}
