/** lib/libc/stdio/snprintf.c as it runs: characters go to the buffer one by one, and the function
    returns as soon as the buffer is full. */
module Snprintf {
  import opened Basics
  import opened Machine
  import opened SnprintfSpec
  import opened Division

  const TABLE := "0123456789ABCDEF"
  const BUF_SIZE := 25

  // ---------- the bounded buffer ----------

  /** From position pos on, text was written: all of it, up to pos2; or the buffer is full, with what
      fits before the closing zero. Nothing at size or beyond changed. */
  ghost predicate Wrote(b: seq<char>, a: seq<char>, size: nat, pos: nat, text: string, pos2: nat, full: bool) {
    && |a| == |b| && pos < size <= |b| && a[size..] == b[size..]
    && if full then pos + |text| >= size && a[..size - 1] == (b[..pos] + text)[..size - 1] && a[size - 1] == '\0'
       else pos2 == pos + |text| < size && a[..pos2] == b[..pos] + text
  }

  lemma WroteNothing(b: seq<char>, size: nat, pos: nat)
    requires pos < size <= |b|
    ensures Wrote(b, b, size, pos, "", pos, false)
  {
  }

  lemma WroteThen(b: seq<char>, m: seq<char>, a: seq<char>, size: nat, pos: nat, s: string, p: nat, t: string, q: nat,
                  full: bool)
    requires Wrote(b, m, size, pos, s, p, false) && Wrote(m, a, size, p, t, q, full)
    ensures Wrote(b, a, size, pos, s + t, q, full)
  {
    assert b[..pos] + (s + t) == (b[..pos] + s) + t;
  }

  lemma WroteCut(b: seq<char>, a: seq<char>, size: nat, pos: nat, s: string, t: string, q: nat)
    requires Wrote(b, a, size, pos, s, q, true)
    ensures Wrote(b, a, size, pos, s + t, q, true)
  {
    assert b[..pos] + (s + t) == (b[..pos] + s) + t;
  }

  /** The macro set_ch. */
  method SetCh(str: array<char>, size: nat, pos: nat, ch: char) returns (pos2: nat, full: bool)
    requires pos < size <= str.Length
    modifies str
    ensures pos2 == pos + 1 && full == (pos2 == size)
    ensures Wrote(old(str[..]), str[..], size, pos, [ch], pos2, full)
  {
    str[pos] := ch;
    pos2 := pos + 1;
    full := false;
    if pos2 == size {
      str[size - 1] := '\0';
      full := true;
    }
  }

  // ---------- digits ----------

  lemma QuotBelow(u: nat, base: nat, p: nat)
    requires 8 <= base && u < 8 * p
    ensures Quot(u, base) < p
  {
    QuotRem(u, base);
    Mono(8, base, Quot(u, base));
  }

  lemma {:induction false} DigitsShort(u: nat, base: nat, k: nat)
    requires 8 <= base <= 16 && k >= 1 && u < Power(8, k)
    ensures |Digits(u, base)| <= k
  {
    assert Power(8, k) == 8 * Power(8, k - 1);
    assert Power(8, 0) == 1;
    if u < base {
    } else {
      QuotBelow(u, base, Power(8, k - 1));
      DigitsShort(Quot(u, base), base, k - 1);
    }
  }

  lemma WordDigits(u: nat, base: nat)
    requires 8 <= base <= 16 && u < WORD_RANGE
    ensures |Digits(u, base)| <= 11
  {
    assert Power(8, 3) == 512;
    assert Power(8, 6) == 512 * Power(8, 3);
    assert Power(8, 9) == 512 * Power(8, 6);
    assert Power(8, 11) == 64 * Power(8, 9);
    DigitsShort(u, base, 11);
  }

  lemma TableDigit(k: nat)
    requires k < 16
    ensures TABLE[k] == Digit(k)
  {
  }

  /** The buffer holds the digits, least significant first. */
  ghost predicate Backward(buf: array<char>, n: nat, digits: string)
    reads buf
  {
    n <= buf.Length && n <= |digits| && forall j :: 0 <= j < n ==> buf[j] == digits[|digits| - 1 - j]
  }

  /** One round: the digit taken off, and what is left. */
  lemma FillStep(v: nat, base: nat, digits: string, n: nat)
    requires 8 <= base <= 16 && v > 0 && n < |digits| && Digits(v, base) == digits[..|digits| - n]
    ensures digits[|digits| - 1 - n] == Digit(Rem(v, base)) && Quot(v, base) < v
    ensures if Quot(v, base) == 0 then n + 1 == |digits|
      else n + 1 < |digits| && Digits(Quot(v, base), base) == digits[..|digits| - (n + 1)]
  {
    var s := Digits(v, base);
    assert s[|s| - 1] == digits[|digits| - 1 - n] && s[..|s| - 1] == digits[..|digits| - (n + 1)];
    if v >= base {
      assert s[..|s| - 1] == Digits(Quot(v, base), base);
    }
  }

  method TakeDigit(v: nat, base: nat) returns (ch: char, rest: nat)
    requires 8 <= base <= 16
    ensures ch == Digit(Rem(v, base)) && rest == Quot(v, base)
  {
    QuotIsDiv(v, base);
    TableDigit(v % base);
    ch := TABLE[v % base];
    rest := v / base;
  }

  /** The loop that takes a number apart. */
  method FillDigits(u: nat, base: nat, buf: array<char>) returns (n: nat)
    requires 8 <= base <= 16 && u < WORD_RANGE && buf.Length == BUF_SIZE
    modifies buf
    ensures n == |Digits(u, base)| && Backward(buf, n, Digits(u, base))
  {
    var v: nat := u;
    n := 0;
    ghost var digits := Digits(u, base);
    WordDigits(u, base);
    while v > 0
      invariant v == 0 ==> n == if u == 0 then 0 else |digits|
      invariant v > 0 ==> n < |digits| && Digits(v, base) == digits[..|digits| - n]
      invariant Backward(buf, n, digits)
      decreases v
    {
      FillStep(v, base, digits, n);
      buf[n], v := TakeDigit(v, base);
      n := n + 1;
    }
    if n == 0 {
      buf[n] := '0';
      n := n + 1;
      assert digits == [Digit(0)];
    }
  }

  /** The loop for no width. */
  method PutDigits(str: array<char>, size: nat, pos0: nat, buf: array<char>, n: nat, ghost digits: string)
    returns (pos: nat, full: bool)
    requires pos0 < size <= str.Length && buf != str && n == |digits| && Backward(buf, n, digits)
    modifies str
    ensures Wrote(old(str[..]), str[..], size, pos0, digits, pos, full)
  {
    pos, full := pos0, false;
    var k: int := n - 1;
    WroteNothing(str[..], size, pos0);
    assert digits[..0] == "";
    while k >= 0
      invariant -1 <= k < n && Backward(buf, n, digits)
      invariant Wrote(old(str[..]), str[..], size, pos0, digits[..n - 1 - k], pos, false)
    {
      ghost var m := str[..];
      ghost var was := pos;
      pos, full := SetCh(str, size, pos, buf[k]);
      assert digits[..n - k] == digits[..n - 1 - k] + [buf[k]];
      WroteThen(old(str[..]), m, str[..], size, pos0, digits[..n - 1 - k], was, [buf[k]], pos, full);
      if full {
        WroteCut(old(str[..]), str[..], size, pos0, digits[..n - k], digits[n - k..], pos);
        assert digits[..n - k] + digits[n - k..] == digits;
        return;
      }
      k := k - 1;
    }
    assert digits[..n] == digits;
  }

  /** The loop for a width: zeros above the digits, and no more characters than the width. */
  method PutPadded(str: array<char>, size: nat, pos0: nat, buf: array<char>, n: nat, width0: nat, ghost digits: string)
    returns (pos: nat, full: bool)
    requires pos0 < size <= str.Length && buf != str && n == |digits| && Backward(buf, n, digits) && width0 > 0
    modifies str
    ensures Wrote(old(str[..]), str[..], size, pos0, Padded(digits, width0), pos, full)
  {
    pos, full := pos0, false;
    var width: int := width0 - 1;
    ghost var text := Padded(digits, width0);
    WroteNothing(str[..], size, pos0);
    assert text[..0] == "" && |text| == width0;
    while width >= 0
      invariant -1 <= width < width0 && Backward(buf, n, digits)
      invariant Wrote(old(str[..]), str[..], size, pos0, text[..width0 - 1 - width], pos, false)
    {
      ghost var m := str[..];
      ghost var was := pos;
      var ch := if width >= n then '0' else buf[width];
      pos, full := SetCh(str, size, pos, ch);
      assert text[width0 - 1 - width] == ch;
      assert text[..width0 - width] == text[..width0 - 1 - width] + [ch];
      WroteThen(old(str[..]), m, str[..], size, pos0, text[..width0 - 1 - width], was, [ch], pos, full);
      if full {
        WroteCut(old(str[..]), str[..], size, pos0, text[..width0 - width], text[width0 - width..], pos);
        assert text[..width0 - width] + text[width0 - width..] == text;
        return;
      }
      width := width - 1;
    }
    assert text[..width0] == text;
  }

  /** print_uint: the sign, then the digits. */
  method PutNumber(str: array<char>, size: nat, pos0: nat, neg: bool, u: nat, base: nat, width: nat)
    returns (pos: nat, full: bool)
    requires pos0 < size <= str.Length && 8 <= base <= 16 && u < WORD_RANGE
    modifies str
    ensures Wrote(old(str[..]), str[..], size, pos0, NumberText(neg, u, base, width), pos, full)
  {
    var buf := new char[BUF_SIZE](_ => '\0');
    var n := FillDigits(u, base, buf);
    ghost var digits := Digits(u, base);
    ghost var sign := if neg then "-" else "";
    pos, full := pos0, false;
    WroteNothing(str[..], size, pos0);
    if neg {
      pos, full := SetCh(str, size, pos, '-');
      if full {
        WroteCut(old(str[..]), str[..], size, pos0, sign, Padded(digits, width), pos);
        return;
      }
    }
    ghost var m := str[..];
    ghost var was := pos;
    if width == 0 {
      pos, full := PutDigits(str, size, pos, buf, n, digits);
    } else {
      pos, full := PutPadded(str, size, pos, buf, n, width, digits);
    }
    WroteThen(old(str[..]), m, str[..], size, pos0, sign, was, Padded(digits, width), pos, full);
  }

  // ---------- strings ----------

  /** The loops of the string conversion: the characters, then spaces up to the width. */
  method PutString(str: array<char>, size: nat, pos0: nat, s: string, width: nat) returns (pos: nat, full: bool)
    requires pos0 < size <= str.Length
    modifies str
    ensures Wrote(old(str[..]), str[..], size, pos0, s + Repeat(' ', if width > |s| then width - |s| else 0), pos, full)
  {
    ghost var text := s + Repeat(' ', if width > |s| then width - |s| else 0);
    pos, full := pos0, false;
    var len := 0;
    WroteNothing(str[..], size, pos0);
    assert text[..0] == "";
    while len < |s|
      invariant 0 <= len <= |s|
      invariant Wrote(old(str[..]), str[..], size, pos0, text[..len], pos, false)
    {
      ghost var m := str[..];
      ghost var was := pos;
      pos, full := SetCh(str, size, pos, s[len]);
      Append(old(str[..]), m, str[..], size, pos0, text, len, was, pos, full);
      if full {
        return;
      }
      len := len + 1;
    }
    while len < width
      invariant |s| <= len <= |text|
      invariant Wrote(old(str[..]), str[..], size, pos0, text[..len], pos, false)
    {
      ghost var m := str[..];
      ghost var was := pos;
      pos, full := SetCh(str, size, pos, ' ');
      Append(old(str[..]), m, str[..], size, pos0, text, len, was, pos, full);
      if full {
        return;
      }
      len := len + 1;
    }
    assert text[..len] == text;
  }

  /** One more character of a text. */
  lemma Append(b: seq<char>, m: seq<char>, a: seq<char>, size: nat, pos: nat, text: string, k: nat, p: nat, q: nat,
               full: bool)
    requires k < |text| && Wrote(b, m, size, pos, text[..k], p, false) && Wrote(m, a, size, p, [text[k]], q, full)
    ensures if full then Wrote(b, a, size, pos, text, q, true) else Wrote(b, a, size, pos, text[..k + 1], q, false)
  {
    assert text[..k + 1] == text[..k] + [text[k]];
    WroteThen(b, m, a, size, pos, text[..k], p, [text[k]], q, full);
    if full {
      WroteCut(b, a, size, pos, text[..k + 1], text[k + 1..], q);
      assert text[..k + 1] + text[k + 1..] == text;
    }
  }

  // ---------- directives ----------

  /** The digit loop: the width so far, times ten, plus each digit. */
  method ReadWidth(fmt: string, i0: nat, width0: nat) returns (i: nat, width: nat)
    requires i0 < |fmt| && IsDigit(fmt[i0])
    ensures i == RunEnd(fmt, i0) && width == Widen(width0, fmt, i0, i)
  {
    i, width := i0, width0;
    while i < |fmt| && IsDigit(fmt[i])
      invariant i0 <= i <= |fmt| && RunEnd(fmt, i) == RunEnd(fmt, i0)
      invariant width == Widen(width0, fmt, i0, i)
    {
      width := width * 10;
      width := width + (fmt[i] as int - '0' as int);
      i := i + 1;
    }
  }

  /** The flags and the width of a directive, up to its conversion. */
  method ReadFlags(fmt: string, i0: nat, width0: nat) returns (i: nat, width: nat)
    requires i0 <= |fmt|
    ensures (i, width) == Flags(fmt, i0, width0)
  {
    i, width := i0, width0;
    while i < |fmt| && IsDigit(fmt[i])
      invariant i0 <= i <= |fmt|
      invariant Flags(fmt, i, width) == Flags(fmt, i0, width0)
      decreases |fmt| - i
    {
      if fmt[i] == '0' {
        i := i + 1;
      } else {
        i, width := ReadWidth(fmt, i, width);
      }
    }
  }

  /** The switch on the conversion. */
  method PutConverted(str: array<char>, size: nat, pos0: nat, c: char, arg: Arg, width: nat)
    returns (pos: nat, full: bool)
    requires pos0 < size <= str.Length && (Takes(c) == 1 ==> ArgFits(c, arg))
    modifies str
    ensures Wrote(old(str[..]), str[..], size, pos0, Converted(c, arg, width), pos, full)
  {
    if c == 'd' {
      var val := AsSigned(arg.w);
      pos, full := PutNumber(str, size, pos0, val < 0, Magnitude(val), 10, width);
    } else if c == 'o' {
      pos, full := PutNumber(str, size, pos0, false, arg.w, 8, width);
    } else if c == 'x' || c == 'p' {
      pos, full := PutNumber(str, size, pos0, false, arg.w, 16, width);
    } else if c == 'u' {
      pos, full := PutNumber(str, size, pos0, false, arg.w, 10, width);
    } else if c == 'c' {
      pos, full := SetCh(str, size, pos0, (arg.w % 256) as char);
    } else if c == 's' {
      pos, full := PutString(str, size, pos0, if arg.Null? then "(null)" else arg.s, width);
    } else if c == '%' {
      pos, full := SetCh(str, size, pos0, '%');
    } else {
      pos, full := PutTwo(str, size, pos0, c);
    }
  }

  /** An unknown conversion prints itself. */
  method PutTwo(str: array<char>, size: nat, pos0: nat, c: char) returns (pos: nat, full: bool)
    requires pos0 < size <= str.Length
    modifies str
    ensures Wrote(old(str[..]), str[..], size, pos0, ['%', c], pos, full)
  {
    pos, full := SetCh(str, size, pos0, '%');
    assert ['%'] + [c] == ['%', c];
    if full {
      WroteCut(old(str[..]), str[..], size, pos0, ['%'], [c], pos);
      return;
    }
    ghost var m := str[..];
    ghost var was := pos;
    pos, full := SetCh(str, size, pos, c);
    WroteThen(old(str[..]), m, str[..], size, pos0, ['%'], was, [c], pos, full);
  }

  // ---------- the whole function ----------

  /** So far done has been printed, and the rest of the format prints the rest of out. */
  ghost predicate Progress(out: string, done: string, f: string, i: nat, args: seq<Arg>, a: nat, width: nat) {
    i <= |f| && Fits(f, i, args, a) && out == done + Output(f, i, args, a, width)
  }

  lemma ProgressPlain(out: string, done: string, f: string, i: nat, args: seq<Arg>, a: nat, width: nat)
    requires i < |f| && f[i] != '%' && Progress(out, done, f, i, args, a, width)
    ensures Progress(out, done + [f[i]], f, i + 1, args, a, width)
  {
  }

  /** A directive prints its conversion, and the format goes on behind it. */
  lemma ProgressDirective(out: string, done: string, f: string, i: nat, args: seq<Arg>, a: nat, width: nat, k: nat,
                          w: nat)
    requires i < |f| && f[i] == '%' && Progress(out, done, f, i, args, a, width) && (k, w) == Flags(f, i + 1, width)
    ensures i < k < |f| && (Takes(f[k]) == 1 ==> a < |args| && ArgFits(f[k], args[a]))
    ensures
      var now := done + Converted(f[k], ArgAt(args, a), w);
      Progress(out, now, f, k + 1, args, a + Takes(f[k]), WidthAfter(f[k], w))
  {
    FitsStep(f, i, args, a, width, k, w);
    OutputStep(f, i, args, a, width, k, w);
    var text, rest := Converted(f[k], ArgAt(args, a), w), Output(f, k + 1, args, a + Takes(f[k]), WidthAfter(f[k], w));
    assert done + (text + rest) == (done + text) + rest;
  }

  lemma FullOutput(b: seq<char>, now: seq<char>, size: nat, out: string, done: string,
                   f: string, i: nat, args: seq<Arg>, a: nat, width: nat, q: nat)
    requires Progress(out, done, f, i, args, a, width) && Wrote(b, now, size, 0, done, q, true)
    ensures Wrote(b, now, size, 0, out, q, true)
  {
    WroteCut(b, now, size, 0, done, Output(f, i, args, a, width), q);
  }

  /** The place of the conversion and the width; the text it will print is added to done. */
  method ReadDirective(fmt: string, i0: nat, args: seq<Arg>, a: nat, width0: nat, ghost out: string, ghost done: string)
    returns (i: nat, width: nat)
    requires i0 < |fmt| && fmt[i0] == '%' && Progress(out, done, fmt, i0, args, a, width0)
    ensures i0 < i < |fmt| && (Takes(fmt[i]) == 1 ==> a < |args| && ArgFits(fmt[i], args[a]))
    ensures
      var now := done + Converted(fmt[i], ArgAt(args, a), width);
      Progress(out, now, fmt, i + 1, args, a + Takes(fmt[i]), WidthAfter(fmt[i], width))
  {
    i, width := ReadFlags(fmt, i0 + 1, width0);
    ProgressDirective(out, done, fmt, i0, args, a, width0, i, width);
  }

  /** A directive, from the percent sign on. */
  method PutDirective(str: array<char>, size: nat, pos0: nat, fmt: string, i0: nat, args: seq<Arg>, a0: nat,
                      width0: nat, ghost out: string, ghost done0: string)
    returns (pos: nat, full: bool, i: nat, a: nat, width: nat, ghost text: string)
    requires pos0 < size <= str.Length && i0 < |fmt| && fmt[i0] == '%'
      && Progress(out, done0, fmt, i0, args, a0, width0)
    modifies str
    ensures Wrote(old(str[..]), str[..], size, pos0, text, pos, full)
    ensures i0 < i && Progress(out, done0 + text, fmt, i, args, a, width)
  {
    i, width := ReadDirective(fmt, i0, args, a0, width0, out, done0);
    var c := fmt[i];
    text := Converted(c, ArgAt(args, a0), width);
    pos, full := PutConverted(str, size, pos0, c, ArgAt(args, a0), width);
    a := a0 + Takes(c);
    i := i + 1;
    if Takes(c) == 1 || c == '%' {
      width := 0;
    }
  }

  /** One turn of the outer loop of vsnprintf. */
  method PutNext(str: array<char>, size: nat, pos0: nat, fmt: string, i0: nat, args: seq<Arg>, a0: nat, width0: nat,
                 ghost out: string, ghost done0: string)
    returns (pos: nat, full: bool, i: nat, a: nat, width: nat, ghost text: string)
    requires pos0 < size <= str.Length && i0 < |fmt| && Progress(out, done0, fmt, i0, args, a0, width0)
    modifies str
    ensures Wrote(old(str[..]), str[..], size, pos0, text, pos, full)
    ensures i0 < i && Progress(out, done0 + text, fmt, i, args, a, width)
  {
    if fmt[i0] == '%' {
      pos, full, i, a, width, text := PutDirective(str, size, pos0, fmt, i0, args, a0, width0, out, done0);
    } else {
      ProgressPlain(out, done0, fmt, i0, args, a0, width0);
      text := [fmt[i0]];
      pos, full := SetCh(str, size, pos0, fmt[i0]);
      i, a, width := i0 + 1, a0, width0;
    }
  }

  /** The outer loop of vsnprintf. */
  method PutAll(str: array<char>, size: nat, fmt: string, args: seq<Arg>) returns (pos: nat, full: bool)
    requires 1 <= size <= str.Length && Fits(fmt, 0, args, 0)
    modifies str
    ensures Wrote(old(str[..]), str[..], size, 0, Output(fmt, 0, args, 0, 0), pos, full)
  {
    var i: nat, a: nat, width: nat := 0, 0, 0;
    pos, full := 0, false;
    ghost var out, done := Output(fmt, 0, args, 0, 0), "";
    WroteNothing(str[..], size, 0);
    assert done + out == out;
    while i < |fmt|
      invariant Wrote(old(str[..]), str[..], size, 0, done, pos, false)
      invariant !full && Progress(out, done, fmt, i, args, a, width)
      decreases |fmt| - i
    {
      ghost var m, was, text := str[..], pos, "";
      pos, full, i, a, width, text := PutNext(str, size, pos, fmt, i, args, a, width, out, done);
      WroteThen(old(str[..]), m, str[..], size, 0, done, was, text, pos, full);
      done := done + text;
      if full {
        FullOutput(old(str[..]), str[..], size, out, done, fmt, i, args, a, width, pos);
        return;
      }
    }
    assert out == done;
  }

  /** What is left in the buffer: the output, or as much of it as fits, with a zero behind it. */
  ghost predicate Holds(a: seq<char>, size: nat, out: string, r: nat) {
    && 1 <= size <= |a|
    && if |out| + 1 < size then r == |out| && a[..r] == out && a[r] == '\0'
       else r == size && a[..size - 1] == out[..size - 1] && a[size - 1] == '\0'
  }

  lemma CutShort(b: seq<char>, a: seq<char>, size: nat, out: string, q: nat)
    requires Wrote(b, a, size, 0, out, q, true)
    ensures Holds(a, size, out, size)
  {
    assert b[..0] + out == out;
  }

  lemma Closed(b: seq<char>, m: seq<char>, a: seq<char>, size: nat, out: string, p: nat, q: nat, full: bool)
    requires Wrote(b, m, size, 0, out, p, false) && Wrote(m, a, size, p, ['\0'], q, full) && full == (q == size)
      && q == p + 1
    ensures Holds(a, size, out, if full then size else p)
  {
    assert b[..0] + out == out;
    assert m[..p] == out;
    if full {
      assert (out + ['\0'])[..size - 1] == out[..size - 1];
    } else {
      assert a[..q] == out + ['\0'];
      assert a[..p] == a[..q][..p] && a[p] == a[..q][p];
    }
  }

  /** vsnprintf: the output, or as much of it as fits, with a zero behind it, and nothing outside
      str[0..size). The length is returned only when the output is shorter than size - 1; from there
      on the result is size. */
  method Vsnprintf(str: array<char>, size: nat, fmt: string, args: seq<Arg>) returns (r: nat)
    requires 1 <= size <= str.Length && Fits(fmt, 0, args, 0)
    modifies str
    ensures str[size..] == old(str[size..]) && Holds(str[..], size, Output(fmt, 0, args, 0, 0), r)
  {
    ghost var out, b := Output(fmt, 0, args, 0, 0), str[..];
    var pos, full := PutAll(str, size, fmt, args);
    if full {
      CutShort(b, str[..], size, out, pos);
      return size;
    }
    ghost var m, was := str[..], pos;
    pos, full := SetCh(str, size, pos, '\0');
    Closed(b, m, str[..], size, out, was, pos, full);
    if full {
      return size;
    }
    pos := pos - 1;
    return pos;
  }

  /** A number printed alone into a buffer with room for it reads back as the argument. */
  lemma PrintedBack(a: seq<char>, size: nat, r: nat, width: nat, w: Word)
    requires Fits(OneFormat(width, 'd'), 0, [Number(w)], 0)
      && Holds(a, size, Output(OneFormat(width, 'd'), 0, [Number(w)], 0, 0), r)
    requires r < size && (width == 0 || width >= |Digits(Magnitude(AsSigned(w)), 10)|)
    ensures ParseSigned(a[..r], 10) == AsSigned(w)
  {
    SignedRoundTrip(width, w);
  }
}
