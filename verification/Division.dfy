/** drivers/misc/division-arm.c: unsigned and signed division of 32-bit words by shifting and
    subtracting. */
module Division {
  import opened Basics
  import opened Machine

  const TOP := 0x8000_0000

  type Word = x: int | 0 <= x < WORD_RANGE

  function Shl(x: Word): Word { if x < TOP then 2 * x else 2 * x - WORD_RANGE }

  // ---------- the scaling loop ----------

  datatype Scale = Scale(i: Word, shift: Word, den: Word)

  function Start(d: Word): Scale { Scale(1, Shl(d), d) }

  predicate Guard(s: Scale, n: Word) { s.shift < TOP && s.shift <= n }

  function Double(s: Scale): Scale { Scale(Shl(s.i), Shl(s.shift), Shl(s.den)) }

  function Doubled(s: Scale, k: nat): Scale {
    if k == 0 then s else Double(Doubled(s, k - 1))
  }

  /** For the denominator 0x80000000 the loop never ends: its shift is 0 from the start. */
  lemma {:induction false} NeverScaled(n: Word, k: nat)
    ensures Guard(Doubled(Start(TOP), k), n)
  {
    if k == 0 {
    } else {
      NeverScaled(n, k - 1);
      ShiftZero(k - 1);
    }
  }

  lemma {:induction false} ShiftZero(k: nat)
    ensures Doubled(Start(TOP), k).shift == 0
  {
    if k == 0 {
    } else {
      ShiftZero(k - 1);
    }
  }

  // ---------- unsigned ----------

  /** The first doubling of the denominator drops its top bit, and the loop goes on. */
  predicate Wraps(n: Word, d: Word) {
    d >= TOP && Shl(d) < TOP && Shl(d) <= n
  }

  /** What the result is a division by. */
  function Divisor(n: Word, d: Word): int {
    if Wraps(n, d) then d - TOP else d
  }

  /** The denominator without its top bit. */
  function Low(d: Word): int {
    if d < TOP then d else d - TOP
  }

  lemma AtLeast(q: int, e: int)
    requires q >= 0 && e >= 1
    ensures q <= q * e
  {
  }

  lemma TimesTwo(e: int, i: int)
    ensures e * (2 * i) == 2 * (e * i)
  {
  }

  /** What the first loop keeps after k rounds. */
  ghost predicate Scaling(n: Word, d: Word, s: Scale, k: nat) {
    && s.i == Pow2(k) && s.shift == 2 * (Low(d) * s.i) && s.shift == Shl(s.den)
    && if k == 0 then s.den == d else s.den == Low(d) * s.i && (d >= TOP ==> Wraps(n, d))
  }

  lemma ScalingStep(n: Word, d: Word, s: Scale, k: nat)
    requires d != 0 && d != TOP && Scaling(n, d, s, k) && Guard(s, n)
    ensures Scaling(n, d, Double(s), k + 1) && Double(s).shift == 2 * s.shift > s.shift
  {
    TimesTwo(Low(d), s.i);
    AtLeast(s.i, Low(d));
  }

  lemma ScalingEnd(n: Word, d: Word, s: Scale, k: nat)
    requires d != 0 && d != TOP && Scaling(n, d, s, k) && !Guard(s, n)
    ensures s.den == Divisor(n, d) * s.i && n < 4 * s.den && s.den > 0
  {
    AtLeast(s.i, Low(d));
  }

  /** The first loop: the denominator in use is scaled by a power of two until at most three fit. */
  method ScaleUp(n: Word, d: Word) returns (i: Word, den: Word, ghost k: nat)
    requires d != 0 && d != TOP
    ensures i == Pow2(k) && den == Divisor(n, d) * i && den > 0
    ensures n < 4 * den
  {
    var shift: Word := Shl(d);
    i, den, k := 1, d, 0;
    while shift < TOP && shift <= n
      invariant Scaling(n, d, Scale(i, shift, den), k)
      decreases WORD_RANGE - shift
    {
      ScalingStep(n, d, Scale(i, shift, den), k);
      shift := Shl(shift);
      i, den := Shl(i), Shl(den);
      k := k + 1;
    }
    ScalingEnd(n, d, Scale(i, shift, den), k);
  }

  lemma MoveOver(q: int, i: int, e: int, rem: int)
    ensures (q + i) * e + (rem - e * i) == q * e + rem
  {
  }

  lemma FewTimes(count: nat, m: nat, den: int, n: int)
    requires den > 0 && n < m * den && count * den <= n
    ensures count < m
  {
    if count >= m { Mono(m, count, den); }
  }

  /** One level of the second loop: the scaled denominator is subtracted while it fits, and the
      quotient makes up for it. */
  method Subtract(num: Word, den: Word, quot: Word, i: Word, ghost n: Word, ghost e: int)
    returns (rem: Word, q: Word, ghost count: nat)
    requires e >= 1 && den == e * i && den > 0 && n == quot * e + num
    ensures n == q * e + rem && rem < den && rem == num - count * den && q == quot + count * i
    ensures Below(num, 4, den) ==> count <= 3
    ensures Below(num, 2, den) ==> count <= 1
  {
    rem, q, count := num, quot, 0;
    while rem >= den
      invariant n == q * e + rem && rem == num - count * den && q == quot + count * i
    {
      MoveOver(q, i, e, rem);
      AtLeast(q + i, e);
      assert (count + 1) * den == count * den + den && (count + 1) * i == count * i + i;
      rem := rem - den;
      q := q + i;
      count := count + 1;
    }
    if num < 4 * den { FewTimes(count, 4, den, num); }
    if num < 2 * den { FewTimes(count, 2, den, num); }
  }

  predicate Below(x: int, m: int, y: int) { x < m * y }

  /** At most three subtractions at the first level and one at each later level. */
  ghost predicate Quick(counts: seq<nat>) {
    forall j :: 0 <= j < |counts| ==> counts[j] <= if j == 0 then 3 else 1
  }

  /** The sum of counts[j] * 2^(|counts| - 1 - j): what subtracting counts[j] times at each level
      adds to the quotient. */
  function Weighted(counts: seq<nat>): nat {
    if counts == [] then 0 else 2 * Weighted(counts[..|counts| - 1]) + counts[|counts| - 1]
  }

  /** The quotient so far, with the levels from i on still to come. */
  ghost predicate SoFar(quot: int, counts: seq<nat>, i: int) {
    quot == Weighted(counts) * (if i == 0 then 1 else 2 * i)
  }

  lemma LevelCounted(quot: int, counts: seq<nat>, count: nat, k: nat, i: int)
    requires i == Pow2(k) && SoFar(quot, counts, i)
    ensures SoFar(quot + count * i, counts + [count], i / 2)
  {
    assert (counts + [count])[..|counts|] == counts;
    var v := Weighted(counts);
    assert (2 * v + count) * i == v * (2 * i) + count * i;
    assert k > 0 ==> i == 2 * Pow2(k - 1);
  }

  lemma Halve(e: int, k: nat)
    requires k > 0 && e >= 1
    ensures Pow2(k) / 2 == Pow2(k - 1) && e * Pow2(k) / 2 == e * Pow2(k - 1)
  {
    TimesTwo(e, Pow2(k - 1));
  }

  lemma NextLevel(e: int, k: nat, i: int, den: int, rem: int)
    requires e >= 1 && i == Pow2(k) && den == e * i && rem < den
    ensures if k == 0 then i / 2 == 0 && rem < e
      else i / 2 == Pow2(k - 1) && den / 2 == e * (i / 2) && Below(rem, 2, den / 2)
  {
    if k > 0 {
      Halve(e, k);
      TimesTwo(e, Pow2(k - 1));
    }
  }

  /** __aeabi_uidivmod: ends for every denominator but 0x80000000. For 0 it is minus one. Otherwise
      quotient and remainder are those of a division by Divisor(n, d), and the quotient is made of
      the subtractions counted. */
  method Uidivmod(n: Word, d: Word) returns (quot: Word, rem: Word, ghost counts: seq<nat>)
    requires d != TOP
    ensures d == 0 ==> quot == WORD_RANGE - 1
    ensures d != 0 ==> n == quot * Divisor(n, d) + rem && rem < Divisor(n, d)
    ensures Quick(counts) && (d != 0 ==> quot == Weighted(counts))
  {
    counts := [];
    if d == 0 {
      return WORD_RANGE - 1, n, counts;
    }
    ghost var e := Divisor(n, d);
    var i, den;
    ghost var k: int;
    i, den, k := ScaleUp(n, d);
    quot, rem := 0, n;
    while i > 0
      invariant if i == 0 then k == -1 && rem < e else k >= 0 && i == Pow2(k) && den == e * i
      invariant n == quot * e + rem && Quick(counts)
      invariant i > 0 ==> Below(rem, if counts == [] then 4 else 2, den)
      invariant SoFar(quot, counts, i)
      decreases i
    {
      AtLeast(i, e);
      ghost var count;
      ghost var q := quot;
      rem, quot, count := Subtract(rem, den, quot, i, n, e);
      LevelCounted(q, counts, count, k, i);
      counts := counts + [count];
      NextLevel(e, k, i, den, rem);
      i, den := i / 2, den / 2;
      k := k - 1;
    }
  }

  /** The unsigned routine divides correctly exactly when the top bit of the denominator is not
      lost. */
  lemma CorrectIff(n: Word, d: Word, quot: Word, rem: Word)
    requires d != 0 && d != TOP && n == quot * Divisor(n, d) + rem && rem < Divisor(n, d)
    ensures (quot == n / d && rem == n % d) <==> !Wraps(n, d)
  {
    if !Wraps(n, d) {
      DivisionUnique(n, d, quot, rem);
    } else {
      if quot <= 1 { Mono(quot, 1, Divisor(n, d)); }
      assert quot >= 2;
      TopQuotient(n, d);
    }
  }

  lemma TopQuotient(n: Word, d: Word)
    requires d >= TOP
    ensures n / d <= 1
  {
    if n >= d { DivisionUnique(n, d, 1, n - d); } else { DivisionUnique(n, d, 0, n); }
  }

  // ---------- signed ----------

  type Int32 = x: int | -TOP <= x < TOP

  /** ABS: of the least integer, its own bit pattern. */
  function Abs(x: Int32): Word { if x < 0 then -(x as int) else x }

  function AsInt(w: int): (r: int)
    ensures -TOP <= r < TOP
  {
    (w + TOP) % WORD_RANGE - TOP
  }

  /** Division that truncates toward zero. */
  function Trunc(n: int, d: int): int
    requires d != 0
  {
    var a, b := if n < 0 then -n else n, if d < 0 then -d else d;
    if (n < 0) == (d < 0) then a / b else -(a / b)
  }

  /** It is the only quotient whose remainder is smaller than the denominator and has the sign of
      the numerator. */
  lemma TruncUnique(n: int, d: int, q: int, r: int)
    requires d != 0 && n == q * d + r
    requires if n < 0 then -(if d < 0 then -d else d) < r <= 0 else 0 <= r < if d < 0 then -d else d
    ensures q == Trunc(n, d)
  {
    var b := if d < 0 then -d else d;
    if n < 0 {
      assert -n == (if d < 0 then q else -q) * b + (-r);
      DivisionUnique(-n, b, if d < 0 then q else -q, -r);
    } else {
      assert n == (if d < 0 then -q else q) * b + r;
      DivisionUnique(n, b, if d < 0 then -q else q, r);
    }
  }

  /** __aeabi_idivmod: truncation toward zero, the remainder with the sign of the numerator. Only
      the quotient of the least integer and -1 does not fit, and wraps to the least integer. */
  method Idivmod(n: Int32, d: Int32) returns (result: Int32, remain: Int32)
    requires d != -TOP
    ensures d == 0 ==> result == -1
    ensures d != 0 ==> result == if n == -TOP && d == -1 then -TOP else Trunc(n, d)
    ensures d != 0 ==> remain == n - Trunc(n, d) * d
    ensures d != 0 ==> if n < 0 then 0 - Abs(d) < remain <= 0 else 0 <= remain < Abs(d)
  {
    if d == 0 {
      return -1, n;
    }
    var q, r;
    ghost var counts;
    q, r, counts := Uidivmod(Abs(n), Abs(d));
    ExactRemainder(n, d, Abs(n), Abs(d), q, r);
    ResultFits(n, d, Abs(n), Abs(d), q, r);
    result := Signed(n, d, q);
    if n == -TOP && d == -1 {
      assert result * d == TOP;
    } else {
      InRange(n - result * d);
    }
    remain := AsInt(n - result * d);
  }

  /** The sign of the quotient. */
  method Signed(n: Int32, d: Int32, q: Word) returns (result: Int32)
    requires q <= TOP && d != 0 && (q == TOP ==> n == -TOP && (d == 1 || d == -1))
    ensures result == if q == TOP then -TOP else if (n < 0) == (d < 0) then q else -(q as int)
  {
    result := AsInt(q);
    if n < 0 && d > 0 {
      result := AsInt(-(result as int));
    }
    if n >= 0 && d < 0 {
      result := AsInt(-(result as int));
    }
  }

  lemma InRange(x: int)
    requires -TOP <= x < TOP
    ensures AsInt(x) == x
  {
  }

  lemma ExactRemainder(n: int, d: int, a: int, b: int, q: int, r: int)
    requires d != 0 && (a == if n < 0 then -n else n) && (b == if d < 0 then -d else d)
    requires a == q * b + r && 0 <= r < b
    ensures Trunc(n, d) == if (n < 0) == (d < 0) then q else -q
    ensures n - Trunc(n, d) * d == if n < 0 then -r else r
  {
    DivisionUnique(a, b, q, r);
    assert (-q) * d == -(q * d) && q * (-d) == -(q * d);
  }

  /** The quotient of the absolute values fits but for the least integer by 1 or -1. */
  lemma ResultFits(n: int, d: int, a: int, b: int, q: int, r: int)
    requires -TOP <= n < TOP && d != 0 && (a == if n < 0 then -n else n) && (b == if d < 0 then -d else d)
    requires a == q * b + r && 0 <= r < b
    ensures 0 <= q <= TOP && (q == TOP ==> n == -TOP && b == 1)
    ensures n == -TOP && b == 1 ==> q == TOP
  {
    if q < 0 { Mono(q, -1, b); }
    AtLeast(q, b);
    if q == TOP && b > 1 { Mono(2, b, q); }
  }
}
