/** What several parts share: an optional value, distinctness, set sizes, powers of two,
    bitwise operators and what they mean on aligned numbers. */
module Basics {

  datatype Maybe<T> = None | Some(value: T)

  ghost predicate DistinctInts(xs: seq<int>) {
    forall k, l :: 0 <= k < l < |xs| ==> xs[k] != xs[l]
  }

  lemma SubsetSize<T>(a: set<T>, b: set<T>)
    requires a <= b
    ensures |a| <= |b|
  {
    assert b == a + (b - a);
  }

  function Pow2(k: nat): (p: nat)
    ensures p >= 1
  {
    if k == 0 then 1 else 2 * Pow2(k - 1)
  }

  predicate IsPow2(n: int)
    decreases n
  {
    n == 1 || (n > 1 && n % 2 == 0 && IsPow2(n / 2))
  }

  /** Bitwise operators on non-negative integers, bit by bit. */
  function Or(x: nat, y: nat): nat {
    if x == 0 && y == 0 then 0 else (if x % 2 == 1 || y % 2 == 1 then 1 else 0) + 2 * Or(x / 2, y / 2)
  }

  function Xor(x: nat, y: nat): nat {
    if x == 0 && y == 0 then 0 else (if x % 2 != y % 2 then 1 else 0) + 2 * Xor(x / 2, y / 2)
  }

  function And(x: nat, y: nat): (r: nat)
    ensures r <= x && r <= y
  {
    if x == 0 || y == 0 then 0 else (if x % 2 == 1 && y % 2 == 1 then 1 else 0) + 2 * And(x / 2, y / 2)
  }

  lemma {:induction false} OrZero(x: nat)
    ensures Or(x, 0) == x
  {
    if x == 0 {
    } else {
      OrZero(x / 2);
    }
  }

  /** ORing low bits into an aligned number is adding them. */
  lemma {:induction false} OrIsSum(a: nat, b: nat, m: int)
    requires IsPow2(m) && a % m == 0 && b < m
    ensures Or(a, b) == a + b
  {
    if m == 1 {
      OrZero(a);
    } else {
      HalfMod(a, m);
      OrIsSum(a / 2, b / 2, m / 2);
    }
  }

  lemma {:induction false} AndCommutes(x: nat, y: nat)
    ensures And(x, y) == And(y, x)
  {
    if x == 0 || y == 0 {
    } else {
      AndCommutes(x / 2, y / 2);
    }
  }

  /** Masking with a power of two less one is the remainder. */
  lemma {:induction false} AndIsMod(x: nat, m: int)
    requires IsPow2(m)
    ensures And(x, m - 1) == x % m
  {
    if m == 1 || x == 0 {
    } else {
      HalfMod(x, m);
      AndIsMod(x / 2, m / 2);
      assert (m - 1) / 2 == m / 2 - 1 && (m - 1) % 2 == 1;
    }
  }

  lemma HalfMod(x: nat, m: int)
    requires m > 1 && m % 2 == 0
    ensures x % m == x % 2 + 2 * (x / 2 % (m / 2))
  {
    var h, q, r := m / 2, x / 2 / (m / 2), x / 2 % (m / 2);
    assert x / 2 == h * q + r;
    assert x == q * m + (x % 2 + 2 * r);
    DivisionUnique(x, m, q, x % 2 + 2 * r);
  }

  lemma Mono(a: int, b: int, c: int)
    requires a <= b && c >= 0
    ensures a * c <= b * c
  {
  }

  /** The quotient and remainder of a division are one pair. */
  lemma DivisionUnique(n: int, d: int, q: int, r: int)
    requires d > 0 && n == q * d + r && 0 <= r < d
    ensures q == n / d && r == n % d
  {
    assert n == n / d * d + n % d;
    if q > n / d { Mono(n / d + 1, q, d); }
    if q < n / d { Mono(q + 1, n / d, d); }
  }

  lemma {:induction false} Pow2Positive(n: int)
    requires IsPow2(n)
    ensures n > 0
  {
  }

  lemma {:induction false} Pow2IsPow2(k: nat)
    ensures Pow2(k) >= 1 && IsPow2(Pow2(k))
  {
    if k == 0 {
    } else {
      Pow2IsPow2(k - 1);
    }
  }

  lemma Pow2Byte(k: nat)
    ensures Pow2(k + 8) == 256 * Pow2(k)
  {
    assert Pow2(k + 4) == 16 * Pow2(k) by { assert Pow2(k + 2) == 4 * Pow2(k); }
    assert Pow2(k + 6) == 4 * Pow2(k + 4);
  }

  /** Steps n to hi - 1 from state s on, if none is refused. */
  function Iterate<S>(step: (S, int) -> Maybe<S>, s: S, n: int, hi: int): Maybe<S>
    decreases hi - n
  {
    if n >= hi then Some(s)
    else
      match step(s, n)
      case None => None
      case Some(t) => Iterate(step, t, n + 1, hi)
  }

  ghost predicate Leads<S>(step: (S, int) -> Maybe<S>, ss: seq<S>, lo: int, k: int)
    requires 0 <= k < |ss| - 1
  {
    step(ss[k], lo + k) == Some(ss[k + 1])
  }

  /** From each state the step leads to the next. */
  ghost predicate Trace<S>(step: (S, int) -> Maybe<S>, ss: seq<S>, lo: int) {
    |ss| > 0 && forall k :: 0 <= k < |ss| - 1 ==> Leads(step, ss, lo, k)
  }

  /** Steps lo to n - 1 lead from s to t. */
  ghost predicate Reaches<S(!new)>(step: (S, int) -> Maybe<S>, s: S, lo: int, t: S, n: int) {
    exists ss :: Trace(step, ss, lo) && |ss| == n - lo + 1 && ss[0] == s && ss[n - lo] == t
  }

  lemma ReachesSelf<S(!new)>(step: (S, int) -> Maybe<S>, s: S, lo: int)
    ensures Reaches(step, s, lo, s, lo)
  {
    assert Trace(step, [s], lo);
  }

  lemma ReachesMore<S(!new)>(step: (S, int) -> Maybe<S>, s: S, lo: int, t: S, n: int, u: S)
    requires Reaches(step, s, lo, t, n) && step(t, n) == Some(u)
    ensures Reaches(step, s, lo, u, n + 1)
  {
    var ss :| Trace(step, ss, lo) && |ss| == n - lo + 1 && ss[0] == s && ss[n - lo] == t;
    var more := ss + [u];
    forall k | 0 <= k < |more| - 1 ensures Leads(step, more, lo, k) {
      assert k < |ss| - 1 ==> Leads(step, ss, lo, k);
    }
    assert Trace(step, more, lo);
  }

  lemma {:induction false} TraceIterates<S(!new)>(step: (S, int) -> Maybe<S>, ss: seq<S>, lo: int, k: nat, hi: int)
    requires Trace(step, ss, lo) && k < |ss| && lo + k <= hi
    ensures Iterate(step, ss[0], lo, hi) == Iterate(step, ss[k], lo + k, hi)
  {
    if k == 0 {
    } else {
      TraceIterates(step, ss, lo, k - 1, hi);
      assert Leads(step, ss, lo, k - 1);
    }
  }

  /** What is left to iterate is what there was to iterate. */
  lemma ReachesIterate<S(!new)>(step: (S, int) -> Maybe<S>, s: S, lo: int, t: S, n: int, hi: int)
    requires Reaches(step, s, lo, t, n) && n <= hi
    ensures Iterate(step, s, lo, hi) == Iterate(step, t, n, hi)
  {
    var ss :| Trace(step, ss, lo) && |ss| == n - lo + 1 && ss[0] == s && ss[n - lo] == t;
    TraceIterates(step, ss, lo, n - lo, hi);
  }
}
