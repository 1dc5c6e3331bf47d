/** What whole formats print: directive after directive, literal text, strings, and several numbers at
    once read back. */
module SnprintfFormats {
  import opened Basics
  import opened Machine
  import opened Division
  import opened SnprintfSpec

  // ---------- output, whatever the directives mean ----------

  /** The place of the conversion behind a percent sign, and the width: of a format, from a place on,
      with the width so far. */
  type Scan = (string, nat, nat) -> (nat, nat)

  /** The text of a conversion: its letter, the argument it takes if any, and the width. */
  type Convert = (char, Arg, nat) -> string

  /** The argument a conversion takes, and none if it takes none. */
  function Taken(c: char, args: seq<Arg>, a: nat): Arg {
    if Takes(c) == 1 then ArgAt(args, a) else Null
  }

  /** Texts to be printed one after the other. */
  datatype Texts = End | Then(head: string, rest: Texts)

  function Flat(t: Texts): string {
    match t
    case End => ""
    case Then(head, rest) => head + Flat(rest)
  }

  function Append(t: Texts, u: Texts): Texts {
    match t
    case End => u
    case Then(head, rest) => Then(head, Append(rest, u))
  }

  lemma {:induction false} FlatAppend(t: Texts, u: Texts)
    ensures Flat(Append(t, u)) == Flat(t) + Flat(u)
  {
    match t
    case End => assert "" + Flat(u) == Flat(u);
    case Then(head, rest) =>
      FlatAppend(rest, u);
      Regroup(head, Flat(rest), Flat(u));
  }

  lemma Regroup(x: string, y: string, z: string)
    ensures x + (y + z) == (x + y) + z
  {
  }

  /** Output by a scan and a conversion; nothing from a percent sign on that ends the format. */
  function OutputBy(scan: Scan, conv: Convert, f: string, i: nat, args: seq<Arg>, a: nat, width: nat): Texts
    decreases |f| - i
  {
    if i >= |f| then End
    else if f[i] != '%' then Then([f[i]], OutputBy(scan, conv, f, i + 1, args, a, width))
    else
      var (k, w) := scan(f, i + 1, width);
      if i < k < |f| then
        Then(conv(f[k], Taken(f[k], args, a), w),
             OutputBy(scan, conv, f, k + 1, args, a + Takes(f[k]), WidthAfter(f[k], w)))
      else End
  }

  /** The next argument and the width at the end of a format; none if a percent sign ends it. */
  function EndBy(scan: Scan, f: string, i: nat, a: nat, width: nat): (r: Maybe<(nat, nat)>)
    ensures r.Some? ==> a <= r.value.0
    decreases |f| - i
  {
    if i >= |f| then Some((a, width))
    else if f[i] != '%' then EndBy(scan, f, i + 1, a, width)
    else
      var (k, w) := scan(f, i + 1, width);
      if i < k < |f| then EndBy(scan, f, k + 1, a + Takes(f[k]), WidthAfter(f[k], w)) else None
  }

  /** The format takes n arguments and leaves no width. */
  predicate EndsAt(scan: Scan, f: string, n: nat) {
    var r := EndBy(scan, f, 0, 0, 0);
    r.Some? && r.value.0 == n && r.value.1 == 0
  }

  // ---------- a format at the front and at the end of a longer one ----------

  /** h starts with f. */
  ghost predicate Front<T>(h: seq<T>, f: seq<T>) {
    |f| <= |h| && forall j {:trigger f[j]} :: 0 <= j < |f| ==> h[j] == f[j]
  }

  /** From d on h is g. */
  ghost predicate Back<T>(h: seq<T>, d: nat, g: seq<T>) {
    |h| == d + |g| && forall j {:trigger g[j]} :: 0 <= j < |g| ==> h[d + j] == g[j]
  }

  ghost predicate FrontScan(scan: Scan, h: string, f: string) {
    forall i: nat, w: nat {:trigger scan(f, i, w)} :: scan(f, i, w).0 < |f| ==> scan(h, i, w) == scan(f, i, w)
  }

  ghost predicate BackScan(scan: Scan, h: string, d: nat, g: string) {
    forall i: nat, w: nat {:trigger scan(g, i, w)} ::
      i <= |g| ==> scan(h, d + i, w) == (d + scan(g, i, w).0, scan(g, i, w).1)
  }

  lemma {:induction false} FrontBy(scan: Scan, conv: Convert, h: string, f: string, i: nat, all: seq<Arg>,
                                   args: seq<Arg>, a: nat, width: nat)
    requires Front(h, f) && FrontScan(scan, h, f) && Front(all, args) && i <= |f|
    requires EndBy(scan, f, i, a, width).Some? && EndBy(scan, f, i, a, width).value.0 <= |args|
    ensures
      var (b, v) := EndBy(scan, f, i, a, width).value;
      OutputBy(scan, conv, h, i, all, a, width)
        == Append(OutputBy(scan, conv, f, i, args, a, width), OutputBy(scan, conv, h, |f|, all, b, v))
    decreases |f| - i
  {
    assert i < |f| ==> h[i] == f[i];
    if i == |f| {
    } else if f[i] != '%' {
      FrontBy(scan, conv, h, f, i + 1, all, args, a, width);
    } else {
      var (k, w) := scan(f, i + 1, width);
      assert scan(h, i + 1, width) == (k, w) && h[k] == f[k];
      FrontBy(scan, conv, h, f, k + 1, all, args, a + Takes(f[k]), WidthAfter(f[k], w));
      assert Takes(f[k]) == 1 ==> all[a] == args[a];
    }
  }

  /** From d places on the longer format prints what the shorter one does. */
  lemma {:induction false} BackBy(scan: Scan, conv: Convert, h: string, d: nat, g: string, i: nat, all: seq<Arg>,
                                  e: nat, more: seq<Arg>, a: nat, width: nat)
    requires Back(h, d, g) && BackScan(scan, h, d, g) && Back(all, e, more) && i <= |g|
    ensures OutputBy(scan, conv, h, d + i, all, e + a, width) == OutputBy(scan, conv, g, i, more, a, width)
    decreases |g| - i
  {
    assert i < |g| ==> h[d + i] == g[i];
    if i == |g| {
    } else if g[i] != '%' {
      BackBy(scan, conv, h, d, g, i + 1, all, e, more, a, width);
    } else {
      var (k, w) := scan(g, i + 1, width);
      assert scan(h, d + (i + 1), width) == (d + k, w);
      if i < k < |g| {
        assert h[d + k] == g[k];
        BackBy(scan, conv, h, d, g, k + 1, all, e, more, a + Takes(g[k]), WidthAfter(g[k], w));
        assert a < |more| ==> all[e + a] == more[a];
      }
    }
  }

  // ---------- the scan and the conversions there are ----------

  predicate ConversionFits(c: char, x: Arg) {
    Takes(c) == 1 ==> ArgFits(c, x)
  }

  /** scan finds what the flags loop finds. */
  ghost predicate Scans(scan: Scan) {
    forall f, i: nat, w: nat {:trigger scan(f, i, w)} :: i <= |f| ==> scan(f, i, w) == Flags(f, i, w)
  }

  /** conv prints what the conversions print. */
  ghost predicate Converts(conv: Convert) {
    forall c, x, w: nat {:trigger conv(c, x, w)} :: ConversionFits(c, x) ==> conv(c, x, w) == Converted(c, x, w)
  }

  lemma Meanings() returns (scan: Scan, conv: Convert)
    ensures Scans(scan) && Converts(conv)
    ensures forall f, i: nat, w: nat {:trigger scan(f, i, w)} :: i > |f| ==> scan(f, i, w) == (i, w)
  {
    scan := (f: string, i: nat, w: nat) => if i <= |f| then Flags(f, i, w) else (i, w);
    conv := (c: char, x: Arg, w: nat) => if ConversionFits(c, x) then Converted(c, x, w) else "";
  }

  /** The argument matters to a conversion only if it takes one. */
  lemma TakenText(conv: Convert, c: char, args: seq<Arg>, a: nat, w: nat)
    requires Converts(conv) && (Takes(c) == 1 ==> a < |args| && ArgFits(c, args[a]))
    ensures conv(c, Taken(c, args, a), w) == Converted(c, ArgAt(args, a), w)
  {
  }

  /** What a format prints from a place on, with the next argument and the width so far. */
  type Print = (string, nat, seq<Arg>, nat, nat) -> string

  /** out prints the text or the directive at i and goes on. */
  ghost predicate PrintStep(out: Print, conv: Convert, f: string, i: nat, args: seq<Arg>, a: nat, width: nat) {
    i < |f| && Fits(f, i, args, a) ==>
      if f[i] != '%' then out(f, i, args, a, width) == [f[i]] + out(f, i + 1, args, a, width)
      else
        var (k, w) := Flags(f, i + 1, width);
        && i < k < |f|
        && out(f, i, args, a, width)
           == conv(f[k], Taken(f[k], args, a), w) + out(f, k + 1, args, a + Takes(f[k]), WidthAfter(f[k], w))
  }

  ghost predicate Prints(out: Print, conv: Convert) {
    && (forall f, i: nat, args, a: nat, width: nat {:trigger PrintStep(out, conv, f, i, args, a, width)} ::
          PrintStep(out, conv, f, i, args, a, width))
    && (forall f, args, a: nat, width: nat {:trigger out(f, |f|, args, a, width)} :: out(f, |f|, args, a, width) == "")
  }

  /** Output as such a function. */
  ghost function OutputAs(): Print {
    (f: string, i: nat, args: seq<Arg>, a: nat, width: nat) =>
      if i <= |f| && Fits(f, i, args, a) then Output(f, i, args, a, width) else ""
  }

  lemma OutputAsIs(f: string, i: nat, args: seq<Arg>, a: nat, width: nat)
    requires i <= |f| && Fits(f, i, args, a)
    ensures OutputAs()(f, i, args, a, width) == Output(f, i, args, a, width)
  {
  }

  lemma PrintsFrom(conv: Convert, f: string, i: nat, k: nat, args: seq<Arg>, a: nat, w: nat)
    requires Converts(conv) && i < k < |f| && (Takes(f[k]) == 1 ==> a < |args| && ArgFits(f[k], args[a]))
    requires Fits(f, k + 1, args, a + Takes(f[k]))
    ensures OutputFrom(f, i, k, args, a, w)
         == conv(f[k], Taken(f[k], args, a), w) + OutputAs()(f, k + 1, args, a + Takes(f[k]), WidthAfter(f[k], w))
  {
    TakenText(conv, f[k], args, a, w);
    OutputAsIs(f, k + 1, args, a + Takes(f[k]), WidthAfter(f[k], w));
  }

  lemma PrintsDirective(f: string, i: nat, args: seq<Arg>, a: nat, width: nat, k: nat, w: nat)
    requires i < k < |f| && f[i] == '%' && Flags(f, i + 1, width) == (k, w) && Fits(f, i, args, a)
    requires Fits(f, k + 1, args, a + Takes(f[k]))
    requires Takes(f[k]) == 1 ==> a < |args| && ArgFits(f[k], args[a])
    ensures OutputAs()(f, i, args, a, width) == OutputFrom(f, i, k, args, a, w)
  {
    OutputAsIs(f, i, args, a, width);
  }

  lemma PrintsLiteral(f: string, i: nat, args: seq<Arg>, a: nat, width: nat)
    requires i < |f| && f[i] != '%' && Fits(f, i, args, a)
    ensures OutputAs()(f, i, args, a, width) == [f[i]] + OutputAs()(f, i + 1, args, a, width)
  {
    OutputAsIs(f, i, args, a, width);
    OutputAsIs(f, i + 1, args, a, width);
  }

  lemma OutputPrintStep(out: Print, conv: Convert, f: string, i: nat, args: seq<Arg>, a: nat, width: nat)
    requires Converts(conv) && out == OutputAs()
    ensures PrintStep(out, conv, f, i, args, a, width)
  {
    if i < |f| && Fits(f, i, args, a) {
      if f[i] != '%' {
        PrintsLiteral(f, i, args, a, width);
      } else {
        var (k, w) := Flags(f, i + 1, width);
        FitsStep(f, i, args, a, width, k, w);
        PrintsDirective(f, i, args, a, width, k, w);
        PrintsFrom(conv, f, i, k, args, a, w);
      }
    }
  }

  lemma OutputPrints(conv: Convert) returns (out: Print)
    requires Converts(conv)
    ensures Prints(out, conv)
    ensures forall f, i: nat, args, a: nat, width: nat {:trigger Output(f, i, args, a, width)} ::
      i <= |f| && Fits(f, i, args, a) ==> Output(f, i, args, a, width) == out(f, i, args, a, width)
  {
    out := OutputAs();
    forall f, i: nat, args, a: nat, width: nat ensures PrintStep(out, conv, f, i, args, a, width) {
      OutputPrintStep(out, conv, f, i, args, a, width);
    }
  }

  lemma {:induction false} PrintIsBy(out: Print, scan: Scan, conv: Convert, f: string, i: nat, args: seq<Arg>, a: nat,
                                     width: nat)
    requires Prints(out, conv) && Scans(scan) && i <= |f| && Fits(f, i, args, a)
    ensures out(f, i, args, a, width) == Flat(OutputBy(scan, conv, f, i, args, a, width))
    decreases |f| - i
  {
    assert PrintStep(out, conv, f, i, args, a, width);
    if i == |f| {
    } else if f[i] != '%' {
      PrintIsBy(out, scan, conv, f, i + 1, args, a, width);
    } else {
      var (k, w) := Flags(f, i + 1, width);
      FitsStep(f, i, args, a, width, k, w);
      assert scan(f, i + 1, width) == (k, w);
      PrintIsBy(out, scan, conv, f, k + 1, args, a + Takes(f[k]), WidthAfter(f[k], w));
    }
  }

  // ---------- flags at the front of a longer format ----------

  lemma {:induction false} RunEndFront(h: string, f: string, i: nat)
    requires Front(h, f) && i <= |f| && RunEnd(f, i) < |f|
    ensures RunEnd(h, i) == RunEnd(f, i)
    decreases |f| - i
  {
    if i == |f| || !IsDigit(f[i]) {
    } else {
      RunEndFront(h, f, i + 1);
    }
  }

  lemma {:induction false} WidenFront(width: nat, h: string, f: string, i: nat, k: nat)
    requires Front(h, f) && i <= k <= |f| && forall j :: i <= j < k ==> IsDigit(f[j])
    ensures forall j :: i <= j < k ==> IsDigit(h[j])
    ensures Widen(width, h, i, k) == Widen(width, f, i, k)
  {
    if i == k {
    } else {
      assert IsDigit(f[k - 1]) && h[k - 1] == f[k - 1];
      WidenFront(width, h, f, i, k - 1);
    }
  }

  lemma {:induction false} FlagsFront(h: string, f: string, i: nat, width: nat)
    requires Front(h, f) && i <= |f| && Flags(f, i, width).0 < |f|
    ensures Flags(h, i, width) == Flags(f, i, width)
    decreases |f| - i
  {
    assert i < |f| ==> h[i] == f[i];
    if i < |f| && f[i] == '0' {
      FlagsFront(h, f, i + 1, width);
    } else if i < |f| && IsDigit(f[i]) {
      var k := RunEnd(f, i);
      FlagsFront(h, f, k, Widen(width, f, i, k));
      RunEndFront(h, f, i);
      WidenFront(width, h, f, i, k);
    }
  }

  // ---------- and as its end ----------

  lemma {:induction false} RunEndBack(h: string, d: nat, g: string, i: nat)
    requires Back(h, d, g) && i <= |g|
    ensures RunEnd(h, d + i) == d + RunEnd(g, i)
    decreases |g| - i
  {
    assert i < |g| ==> h[d + i] == g[i];
    if i == |g| || !IsDigit(g[i]) {
    } else {
      RunEndBack(h, d, g, i + 1);
    }
  }

  lemma {:induction false} WidenBack(width: nat, h: string, d: nat, g: string, i: nat, k: nat)
    requires Back(h, d, g) && i <= k <= |g| && forall j :: i <= j < k ==> IsDigit(g[j])
    ensures forall j :: d + i <= j < d + k ==> IsDigit(h[j])
    ensures Widen(width, h, d + i, d + k) == Widen(width, g, i, k)
  {
    if i == k {
    } else {
      assert IsDigit(g[k - 1]) && h[d + (k - 1)] == g[k - 1];
      WidenBack(width, h, d, g, i, k - 1);
    }
  }

  lemma {:induction false} FlagsBack(h: string, d: nat, g: string, i: nat, width: nat)
    requires Back(h, d, g) && i <= |g|
    ensures Flags(h, d + i, width) == (d + Flags(g, i, width).0, Flags(g, i, width).1)
    decreases |g| - i
  {
    assert i < |g| ==> h[d + i] == g[i];
    if i == |g| {
    } else if g[i] == '0' {
      FlagsBack(h, d, g, i + 1, width);
    } else if IsDigit(g[i]) {
      var k := RunEnd(g, i);
      RunEndBack(h, d, g, i);
      WidenBack(width, h, d, g, i, k);
      FlagsBack(h, d, g, k, Widen(width, g, i, k));
    }
  }

  lemma {:induction false} FitsBack(h: string, d: nat, g: string, i: nat, all: seq<Arg>, e: nat, more: seq<Arg>, a: nat)
    requires Back(h, d, g) && Back(all, e, more) && i <= |g| && Fits(g, i, more, a)
    ensures Fits(h, d + i, all, e + a)
    decreases |g| - i
  {
    assert i < |g| ==> h[d + i] == g[i];
    if i == |g| {
    } else if g[i] != '%' {
      FitsBack(h, d, g, i + 1, all, e, more, a);
    } else {
      FlagsBack(h, d, g, i + 1, 0);
      var k := Flags(g, i + 1, 0).0;
      assert h[d + k] == g[k] && (a < |more| ==> all[e + a] == more[a]);
      FitsBack(h, d, g, k + 1, all, e, more, a + Takes(g[k]));
    }
  }

  // ---------- formats compose ----------

  predicate Known(c: char) {
    c == 'd' || c == 'o' || c == 'x' || c == 'p' || c == 'u' || c == 'c' || c == 's' || c == '%'
  }

  /** The last directive from i on is a known one; settled if there is none. */
  predicate Settled(f: string, i: nat, settled: bool)
    requires i <= |f|
    decreases |f| - i
  {
    if i == |f| then settled
    else if f[i] != '%' then Settled(f, i + 1, settled)
    else
      var k := Flags(f, i + 1, 0).0;
      k < |f| && Settled(f, k + 1, Known(f[k]))
  }

  /** How many arguments the directives from i on take. */
  function Needs(f: string, i: nat): nat
    requires i <= |f|
    decreases |f| - i
  {
    if i == |f| then 0
    else if f[i] != '%' then Needs(f, i + 1)
    else
      var k := Flags(f, i + 1, 0).0;
      if k == |f| then 0 else Takes(f[k]) + Needs(f, k + 1)
  }

  lemma {:induction false} FitsFront(h: string, f: string, g: string, i: nat, all: seq<Arg>, args: seq<Arg>,
                                     more: seq<Arg>, a: nat)
    requires Front(h, f) && Back(h, |f|, g) && Front(all, args) && Back(all, |args|, more)
    requires i <= |f| && Fits(f, i, args, a) && a + Needs(f, i) == |args| && Fits(g, 0, more, 0)
    ensures Fits(h, i, all, a)
    decreases |f| - i
  {
    assert i < |f| ==> h[i] == f[i];
    if i == |f| {
      FitsBack(h, |f|, g, 0, all, |args|, more, 0);
    } else if f[i] != '%' {
      FitsFront(h, f, g, i + 1, all, args, more, a);
    } else {
      FlagsFront(h, f, i + 1, 0);
      var k := Flags(f, i + 1, 0).0;
      assert h[k] == f[k] && (a < |args| ==> all[a] == args[a]);
      FitsFront(h, f, g, k + 1, all, args, more, a + Takes(f[k]));
    }
  }

  /** A settled format leaves no width, and has taken the arguments it needs. */
  lemma {:induction false} SettledEnd(scan: Scan, f: string, i: nat, args: seq<Arg>, a: nat, width: nat, settled: bool)
    requires Scans(scan) && i <= |f| && Fits(f, i, args, a)
    requires Settled(f, i, settled) && (settled ==> width == 0)
    ensures EndBy(scan, f, i, a, width).Some? && EndBy(scan, f, i, a, width).value.0 == a + Needs(f, i)
    ensures EndBy(scan, f, i, a, width).value.1 == 0
    decreases |f| - i
  {
    if i == |f| {
    } else if f[i] != '%' {
      SettledEnd(scan, f, i + 1, args, a, width, settled);
    } else {
      FlagsPlace(f, i + 1, width, 0);
      var (k, w) := Flags(f, i + 1, width);
      FitsStep(f, i, args, a, width, k, w);
      assert scan(f, i + 1, width) == (k, w);
      SettledEnd(scan, f, k + 1, args, a + Takes(f[k]), WidthAfter(f[k], w), Known(f[k]));
    }
  }

  lemma ScanFront(scan: Scan, h: string, f: string)
    requires Scans(scan) && Front(h, f)
    requires forall i: nat, w: nat {:trigger scan(f, i, w)} :: i > |f| ==> scan(f, i, w) == (i, w)
    ensures FrontScan(scan, h, f)
  {
    forall i: nat, w: nat | scan(f, i, w).0 < |f| ensures scan(h, i, w) == scan(f, i, w) {
      assert i <= |f| && scan(f, i, w) == Flags(f, i, w) && scan(h, i, w) == Flags(h, i, w);
      FlagsFront(h, f, i, w);
    }
  }

  lemma ScanBackAt(scan: Scan, h: string, d: nat, g: string, i: nat, w: nat)
    requires Scans(scan) && Back(h, d, g) && i <= |g|
    ensures scan(h, d + i, w) == (d + scan(g, i, w).0, scan(g, i, w).1)
  {
    assert scan(g, i, w) == Flags(g, i, w) && scan(h, d + i, w) == Flags(h, d + i, w);
    FlagsBack(h, d, g, i, w);
  }

  lemma ScanBack(scan: Scan, h: string, d: nat, g: string)
    requires Scans(scan) && Back(h, d, g)
    ensures BackScan(scan, h, d, g)
  {
    forall i: nat, w: nat | i <= |g| ensures scan(h, d + i, w) == (d + scan(g, i, w).0, scan(g, i, w).1) {
      ScanBackAt(scan, h, d, g, i, w);
    }
  }

  lemma ComposeScans(scan: Scan, h: string, f: string, g: string, args: seq<Arg>)
    requires Scans(scan) && forall f, i: nat, w: nat {:trigger scan(f, i, w)} :: i > |f| ==> scan(f, i, w) == (i, w)
    requires Front(h, f) && Back(h, |f|, g)
    requires Fits(f, 0, args, 0) && Needs(f, 0) == |args| && Settled(f, 0, true)
    ensures FrontScan(scan, h, f) && BackScan(scan, h, |f|, g) && EndsAt(scan, f, |args|)
  {
    ScanFront(scan, h, f);
    ScanBack(scan, h, |f|, g);
    SettledEnd(scan, f, 0, args, 0, 0, true);
  }

  lemma ComposeTexts(scan: Scan, conv: Convert, h: string, f: string, g: string, all: seq<Arg>, args: seq<Arg>,
                     more: seq<Arg>)
    requires Front(h, f) && Back(h, |f|, g) && Front(all, args) && Back(all, |args|, more)
    requires FrontScan(scan, h, f) && BackScan(scan, h, |f|, g) && EndsAt(scan, f, |args|)
    ensures OutputBy(scan, conv, h, 0, all, 0, 0)
         == Append(OutputBy(scan, conv, f, 0, args, 0, 0), OutputBy(scan, conv, g, 0, more, 0, 0))
  {
    FrontBy(scan, conv, h, f, 0, all, args, 0, 0);
    BackBy(scan, conv, h, |f|, g, 0, all, |args|, more, 0, 0);
  }

  lemma ComposeBy(out: Print, scan: Scan, conv: Convert, f: string, g: string, args: seq<Arg>, more: seq<Arg>)
    requires Prints(out, conv) && Scans(scan)
    requires Fits(f, 0, args, 0) && Fits(g, 0, more, 0) && Fits(f + g, 0, args + more, 0)
    requires OutputBy(scan, conv, f + g, 0, args + more, 0, 0)
          == Append(OutputBy(scan, conv, f, 0, args, 0, 0), OutputBy(scan, conv, g, 0, more, 0, 0))
    ensures out(f + g, 0, args + more, 0, 0) == out(f, 0, args, 0, 0) + out(g, 0, more, 0, 0)
  {
    PrintIsBy(out, scan, conv, f, 0, args, 0, 0);
    PrintIsBy(out, scan, conv, g, 0, more, 0, 0);
    PrintIsBy(out, scan, conv, f + g, 0, args + more, 0, 0);
    FlatAppend(OutputBy(scan, conv, f, 0, args, 0, 0), OutputBy(scan, conv, g, 0, more, 0, 0));
  }

  /** A format whose last directive is a known one prints the same in front of any other, and the other
      prints what it prints alone. */
  lemma Compose(f: string, g: string, args: seq<Arg>, more: seq<Arg>)
    requires Fits(f, 0, args, 0) && Needs(f, 0) == |args| && Fits(g, 0, more, 0) && Settled(f, 0, true)
    ensures Fits(f + g, 0, args + more, 0)
    ensures Output(f + g, 0, args + more, 0, 0) == Output(f, 0, args, 0, 0) + Output(g, 0, more, 0, 0)
  {
    FitsFront(f + g, f, g, 0, args + more, args, more, 0);
    var scan, conv := Meanings();
    var out := OutputPrints(conv);
    ComposeScans(scan, f + g, f, g, args);
    ComposeTexts(scan, conv, f + g, f, g, args + more, args, more);
    ComposeBy(out, scan, conv, f, g, args, more);
  }

  lemma CarriedWith(width: nat, c: char, d: char, w: Word)
    requires !Known(c) && !IsDigit(c) && Numeric(d)
    ensures
      var f, h := OneFormat(width, c), OneFormat(width, c) + OneFormat(0, d);
      && |h| == |f| + 2 && h[0] == '%' && h[|f| - 1] == c && h[|f|] == '%' && h[|f| + 1] == d
      && Flags(h, 1, 0) == (|f| - 1, width) && Flags(h, |f| + 1, width) == (|f| + 1, width)
      && Fits(h, 0, [Number(w)], 0) && Fits(h, |f|, [Number(w)], 0)
  {
    var f, g, args := OneFormat(width, c), OneFormat(0, d), [Number(w)];
    var h := f + g;
    OneFlags(width, c);
    FlagsFront(h, f, 1, 0);
    assert g == ['%', d] && h[|f|] == '%' && h[|f| + 1] == d;
    assert Fits(h, |h|, args, 1);
    assert Flags(h, |f| + 1, 0) == (|f| + 1, 0) && Fits(h, |f|, args, 0);
  }

  lemma UnknownText(conv: Convert, c: char, w: nat)
    requires Converts(conv) && !Known(c)
    ensures conv(c, Null, w) == ['%', c]
  {
  }

  lemma CarriesBy(out: Print, conv: Convert, h: string, m: nat, args: seq<Arg>, width: nat)
    requires Prints(out, conv) && 0 < m && |h| == m + 2 && h[0] == '%' && h[m] == '%'
    requires Flags(h, 1, 0) == (m - 1, width) && Flags(h, m + 1, width) == (m + 1, width)
    requires !Known(h[m - 1]) && Numeric(h[m + 1]) && Fits(h, 0, args, 0) && Fits(h, m, args, 0) && |args| == 1
    ensures out(h, 0, args, 0, 0) == conv(h[m - 1], Null, width) + conv(h[m + 1], args[0], width)
  {
    assert PrintStep(out, conv, h, 0, args, 0, 0) && PrintStep(out, conv, h, m, args, 0, width);
    assert out(h, |h|, args, 1, 0) == "";
  }

  /** The condition is needed: an unknown conversion prints itself and leaves its width to the next
      directive. */
  lemma WidthCarries(width: nat, c: char, d: char, w: Word)
    requires !Known(c) && !IsDigit(c) && Numeric(d)
    ensures
      var f := OneFormat(width, c) + OneFormat(0, d);
      Fits(f, 0, [Number(w)], 0) && Output(f, 0, [Number(w)], 0, 0) == ['%', c] + Converted(d, Number(w), width)
  {
    var f, args := OneFormat(width, c), [Number(w)];
    var h := f + OneFormat(0, d);
    CarriedWith(width, c, d, w);
    var scan, conv := Meanings();
    var out := OutputPrints(conv);
    CarriesBy(out, conv, h, |f|, args, width);
    TakenText(conv, d, args, 0, width);
    UnknownText(conv, c, width);
  }

  // ---------- literal text, strings and characters ----------

  lemma {:induction false} LiteralFrom(t: string, i: nat, a: nat)
    requires i <= |t| && '%' !in t
    ensures Fits(t, i, [], a) && Settled(t, i, true) && Needs(t, i) == 0 && Output(t, i, [], a, 0) == t[i..]
    decreases |t| - i
  {
    if i == |t| {
    } else {
      assert t[i] in t;
      LiteralFrom(t, i + 1, a);
    }
  }

  /** Text without a percent sign prints as it is. */
  lemma Literal(t: string)
    requires '%' !in t
    ensures Fits(t, 0, [], 0) && Settled(t, 0, true) && Needs(t, 0) == 0 && Output(t, 0, [], 0, 0) == t
  {
    LiteralFrom(t, 0, 0);
  }

  /** A format of one known conversion. */
  lemma OneDirective(width: nat, c: char, arg: Arg)
    requires Known(c) && c != '%' && ArgFits(c, arg)
    ensures var f := OneFormat(width, c);
      && Fits(f, 0, [arg], 0) && Settled(f, 0, true) && Needs(f, 0) == 1
      && Output(f, 0, [arg], 0, 0) == Converted(c, arg, width)
  {
    OneFlags(width, c);
    var f := OneFormat(width, c);
    assert Fits(f, |f|, [arg], 1) && Output(f, |f|, [arg], 1, WidthAfter(c, width)) == "";
    assert Settled(f, |f|, true) && Needs(f, |f|) == 0;
  }

  /** %s prints the string, or (null), and then spaces up to the width if it is shorter. */
  lemma TextPrinted(width: nat, arg: Arg)
    requires ArgFits('s', arg)
    ensures Fits(OneFormat(width, 's'), 0, [arg], 0)
    ensures
      var out := Output(OneFormat(width, 's'), 0, [arg], 0, 0);
      var s := if arg.Null? then "(null)" else arg.s;
      && |out| == (if |s| < width then width else |s|) && s <= out
      && forall j :: |s| <= j < |out| ==> out[j] == ' '
  {
    OneDirective(width, 's', arg);
  }

  /** %c prints one character, the low byte of its argument, whatever the width. */
  lemma CharPrinted(width: nat, w: Word)
    ensures Fits(OneFormat(width, 'c'), 0, [Number(w)], 0)
    ensures Output(OneFormat(width, 'c'), 0, [Number(w)], 0, 0) == [(w % 256) as char]
  {
    OneDirective(width, 'c', Number(w));
  }

  /** Two percent signs print one and take no argument. */
  lemma PercentPrinted()
    ensures Fits("%%", 0, [], 0) && Output("%%", 0, [], 0, 0) == "%" && Settled("%%", 0, true) && Needs("%%", 0) == 0
  {
    assert Flags("%%", 1, 0) == (1, 0);
    assert Fits("%%", 2, [], 0) && Output("%%", 2, [], 0, 0) == "" && Settled("%%", 2, true) && Needs("%%", 2) == 0;
  }

  // ---------- several numbers ----------

  /** A numeric directive and its argument. */
  datatype Field = Field(width: nat, c: char, w: Word)

  function FormatOf(fs: seq<Field>): string {
    if fs == [] then "" else OneFormat(fs[0].width, fs[0].c) + FormatOf(fs[1..])
  }

  function ArgsOf(fs: seq<Field>): seq<Arg> {
    if fs == [] then [] else [Number(fs[0].w)] + ArgsOf(fs[1..])
  }

  ghost predicate AllNumeric(fs: seq<Field>) {
    forall f :: f in fs ==> Numeric(f.c)
  }

  /** The numbers printed, one by one. */
  function Pieces(fs: seq<Field>): seq<string>
    requires AllNumeric(fs)
  {
    seq(|fs|, k requires 0 <= k < |fs| => PieceOf(fs, k))
  }

  function PieceOf(fs: seq<Field>, k: nat): string
    requires AllNumeric(fs) && k < |fs|
  {
    assert fs[k] in fs;
    Converted(fs[k].c, Number(fs[k].w), fs[k].width)
  }

  function Join(ps: seq<string>): string {
    if ps == [] then "" else ps[0] + Join(ps[1..])
  }

  /** Where the k-th piece starts. */
  function Offset(ps: seq<string>, k: nat): nat
    requires k <= |ps|
  {
    if k == 0 then 0 else |ps[0]| + Offset(ps[1..], k - 1)
  }

  lemma {:induction false} JoinSlice(ps: seq<string>, k: nat)
    requires k < |ps|
    ensures Offset(ps, k) + |ps[k]| <= |Join(ps)|
    ensures Join(ps)[Offset(ps, k)..Offset(ps, k) + |ps[k]|] == ps[k]
  {
    if k == 0 {
    } else {
      JoinSlice(ps[1..], k - 1);
      SliceOf(ps[0], Join(ps[1..]), Offset(ps, k), |ps[k]|);
    }
  }

  lemma SliceOf(a: string, b: string, at: nat, n: nat)
    requires |a| <= at && at + n <= |a| + |b|
    ensures (a + b)[at..at + n] == b[at - |a|..at - |a| + n]
  {
  }

  /** A format of numeric directives prints each number as its directive does alone. */
  lemma {:induction false} FieldsPrinted(fs: seq<Field>)
    requires AllNumeric(fs)
    ensures Fits(FormatOf(fs), 0, ArgsOf(fs), 0)
    ensures Output(FormatOf(fs), 0, ArgsOf(fs), 0, 0) == Join(Pieces(fs))
  {
    if fs == [] {
    } else {
      assert fs[0] in fs;
      var rest := fs[1..];
      FieldsPrinted(rest);
      OneDirective(fs[0].width, fs[0].c, Number(fs[0].w));
      Compose(OneFormat(fs[0].width, fs[0].c), FormatOf(rest), [Number(fs[0].w)], ArgsOf(rest));
      PiecesCons(fs);
    }
  }

  lemma NextPiece(fs: seq<Field>, k: nat)
    requires AllNumeric(fs) && k + 1 < |fs|
    ensures AllNumeric(fs[1..]) && PieceOf(fs, k + 1) == PieceOf(fs[1..], k)
  {
    assert fs[1..][k] == fs[k + 1];
  }

  lemma ConsIs(ps: seq<string>, x: string, qs: seq<string>)
    requires |ps| == |qs| + 1 && ps[0] == x && forall k :: 0 <= k < |qs| ==> ps[k + 1] == qs[k]
    ensures ps == [x] + qs
  {
  }

  lemma PiecesCons(fs: seq<Field>)
    requires AllNumeric(fs) && fs != []
    ensures AllNumeric(fs[1..]) && Numeric(fs[0].c)
    ensures Pieces(fs) == [Converted(fs[0].c, Number(fs[0].w), fs[0].width)] + Pieces(fs[1..])
  {
    assert fs[0] in fs;
    var ps, qs := Pieces(fs), Pieces(fs[1..]);
    forall k | 0 <= k < |qs| ensures ps[k + 1] == qs[k] { NextPiece(fs, k); }
    ConsIs(ps, PieceOf(fs, 0), qs);
  }

  /** Unsigned directives with a width that has room for their number. */
  ghost predicate Roomy(fs: seq<Field>) {
    forall f :: f in fs ==> Numeric(f.c) && f.c != 'd' && f.width >= |Digits(f.w, Base(f.c))|
  }

  /** Where the k-th number starts. */
  function Start(fs: seq<Field>, k: nat): nat
    requires k <= |fs|
  {
    if k == 0 then 0 else fs[0].width + Start(fs[1..], k - 1)
  }

  lemma RoomyField(f: Field)
    requires Numeric(f.c) && f.c != 'd' && f.width >= |Digits(f.w, Base(f.c))|
    ensures |Converted(f.c, Number(f.w), f.width)| == f.width
    ensures Parse(Converted(f.c, Number(f.w), f.width), Base(f.c)) == f.w
  {
    PaddedBack(f.w, Base(f.c), f.width);
    assert "" + Padded(Digits(f.w, Base(f.c)), f.width) == Padded(Digits(f.w, Base(f.c)), f.width);
  }

  lemma {:induction false} StartIsOffset(fs: seq<Field>, k: nat)
    requires Roomy(fs) && k <= |fs|
    ensures AllNumeric(fs) && Start(fs, k) == Offset(Pieces(fs), k)
  {
    if k == 0 {
    } else {
      assert fs[0] in fs;
      StartIsOffset(fs[1..], k - 1);
      RoomyField(fs[0]);
      PiecesCons(fs);
      assert Pieces(fs)[1..] == Pieces(fs[1..]);
    }
  }

  lemma PieceReads(fs: seq<Field>, k: nat)
    requires Roomy(fs) && k < |fs|
    ensures AllNumeric(fs) && |Pieces(fs)[k]| == fs[k].width
    ensures Parse(Pieces(fs)[k], Base(fs[k].c)) == fs[k].w
  {
    assert fs[k] in fs;
    RoomyField(fs[k]);
    assert Pieces(fs)[k] == PieceOf(fs, k);
  }

  /** From at on, n characters are a numeral for v. */
  ghost predicate ReadsAt(out: string, at: nat, n: nat, base: nat, v: int) {
    at + n <= |out| && Parse(out[at..at + n], base) == v
  }

  lemma PieceAt(out: string, ps: seq<string>, k: nat, base: nat, v: int)
    requires k < |ps| && out == Join(ps) && Parse(ps[k], base) == v
    ensures ReadsAt(out, Offset(ps, k), |ps[k]|, base, v)
  {
    JoinSlice(ps, k);
  }

  /** Printing several numbers at once and reading each back at its place gives the arguments. */
  lemma FieldsRoundTrip(fs: seq<Field>, k: nat)
    requires Roomy(fs) && k < |fs|
    ensures Fits(FormatOf(fs), 0, ArgsOf(fs), 0)
    ensures ReadsAt(Output(FormatOf(fs), 0, ArgsOf(fs), 0, 0), Start(fs, k), fs[k].width, Base(fs[k].c), fs[k].w)
  {
    StartIsOffset(fs, k);
    FieldsPrinted(fs);
    PieceReads(fs, k);
    PieceAt(Join(Pieces(fs)), Pieces(fs), k, Base(fs[k].c), fs[k].w);
  }
}
