/** kern/mm/kmemory_manage.c: variable-size allocation on the slab, with the size stored in
    front of the block. */
module Kmalloc {
  import opened Basics
  import opened Machine
  import opened Slab
  import opened SlabRuns
  import opened SlabServe
  import opened SlabMemory
  import opened SlabAllocator

  /** x & (-x): the lowest set bit of x. */
  function LowBit(x: int): (l: int)
    requires x >= 0
    ensures x > 0 ==> 0 < l <= x
    ensures x == 0 ==> l == 0
  {
    if x == 0 then 0 else if x % 2 == 1 then 1 else 2 * LowBit(x / 2)
  }

  /** A number and its complement have no bit in common. */
  lemma {:induction false} ComplementApart(y: nat, k: nat)
    requires y < Pow2(k)
    ensures And(y, Pow2(k) - 1 - y) == 0
  {
    if k == 0 {
    } else {
      assert Pow2(k) == 2 * Pow2(k - 1);
      ComplementApart(y / 2, k - 1);
      assert (Pow2(k) - 1 - y) / 2 == Pow2(k - 1) - 1 - y / 2;
    }
  }

  /** A number and its negative in k bits have exactly the lowest bit in common. */
  lemma {:induction false} LowBitInBits(x: nat, k: nat)
    requires 0 < x < Pow2(k)
    ensures And(x, Pow2(k) - x) == LowBit(x)
  {
    assert Pow2(k) == 2 * Pow2(k - 1);
    if x % 2 == 1 {
      assert (Pow2(k) - x) / 2 == Pow2(k - 1) - 1 - x / 2 && (Pow2(k) - x) % 2 == 1;
      ComplementApart(x / 2, k - 1);
    } else {
      LowBitInBits(x / 2, k - 1);
      assert (Pow2(k) - x) / 2 == Pow2(k - 1) - x / 2 && (Pow2(k) - x) % 2 == 0;
    }
  }

  lemma Negative32(x: nat)
    requires 0 < x < WORD_RANGE
    ensures x < Pow2(32) && Wrap(WORD_RANGE - x) == Pow2(32) - x
  {
    Pow2Word();
  }

  /** lowbit: on every word LowBit is x & -x, the negative taken in 32 bits. */
  lemma LowBitIsMask(x: nat)
    requires x < WORD_RANGE
    ensures LowBit(x) == And(x, Wrap(WORD_RANGE - x))
  {
    if x == 0 {
    } else {
      Negative32(x);
      LowBitInBits(x, 32);
    }
  }

  lemma {:induction false} LowBitOfPow2(x: int)
    requires x > 0
    ensures LowBit(x) == x <==> IsPow2(x)
  {
    if x % 2 == 0 { LowBitOfPow2(x / 2); }
  }

  /** Adding the lowest bit does not step over a power of two, and at least doubles that bit. */
  lemma {:induction false} LowBitStep(x: int, p: int)
    requires 0 < x && IsPow2(p)
    ensures x < p ==> x + LowBit(x) <= p
    ensures LowBit(x + LowBit(x)) >= 2 * LowBit(x)
  {
    if x % 2 == 0 {
      if p == 1 { LowBitStep(x / 2, 1); } else { LowBitStep(x / 2, p / 2); }
    }
  }

  /** A power of two that is at least n. */
  ghost predicate Cap(p: int, n: int) {
    IsPow2(p) && n <= p
  }

  /** The least power of two that is at least n. */
  ghost predicate LeastPow2(r: int, n: int) {
    Cap(r, n) && forall p :: Cap(p, n) ==> r <= p
  }

  function Ceil2(n: int, p: int): int
    requires p > 0
    decreases n - p
  {
    if n <= p then p else Ceil2(n, 2 * p)
  }

  lemma {:induction false} Ceil2Least(n: int, p: int)
    requires IsPow2(p) && p > 0 && forall q :: Cap(q, n) ==> p <= q
    ensures LeastPow2(Ceil2(n, p), n)
    decreases n - p
  {
    if n <= p {
    } else {
      forall q | Cap(q, n) ensures 2 * p <= q { Pow2Above(p, q); }
      assert IsPow2(2 * p);
      Ceil2Least(n, 2 * p);
    }
  }

  lemma {:induction false} Pow2Above(p: int, q: int)
    requires IsPow2(p) && IsPow2(q) && 0 < p < q
    ensures 2 * p <= q
  {
    if p <= 1 {
    } else {
      Pow2Above(p / 2, q / 2);
    }
  }

  lemma CapsPositive(n: int)
    ensures forall q :: Cap(q, n) ==> 1 <= q
  {
    forall q: int ensures Cap(q, n) ==> 1 <= q {
      if IsPow2(q) { Pow2Positive(q); }
    }
  }

  /** What up_bound returns: the least power of two for the size and its header, or 0 when that
      does not fit a word (the sum itself wraps). */
  function UpBound(size: int): int
    requires 0 <= size < WORD_RANGE
  {
    var n := Wrap(size + 4);
    if n == 0 || n > 0x8000_0000 then 0 else Ceil2(n, 1)
  }

  lemma UpBoundLeast(size: int)
    requires 0 <= size && size + 4 <= 0x8000_0000
    ensures LeastPow2(UpBound(size), size + 4)
  {
    CapsPositive(size + 4);
    Ceil2Least(size + 4, 1);
  }

  lemma LeastUnique(a: int, b: int, n: int)
    requires LeastPow2(a, n) && LeastPow2(b, n)
    ensures a == b
  {
  }

  /** What the loop keeps: it stays below every power of two for n, and its lowest bit doubles. */
  ghost predicate Rounding(size: int, n: int, rounds: nat) {
    && 0 <= size < WORD_RANGE && 0 <= n < WORD_RANGE && rounds <= 32
    && if size == 0 then n == 0 || n > 0x8000_0000
       else 0 < n <= size && LowBit(size) >= Pow2(rounds) && BelowCaps(size, n)
  }

  ghost predicate BelowCaps(size: int, n: int) {
    forall p :: Cap(p, n) ==> size <= p
  }

  lemma StepBelow(size: int, n: int)
    requires 0 < size < WORD_RANGE && size != LowBit(size) && BelowCaps(size, n)
    ensures BelowCaps(size + LowBit(size), n)
  {
    forall p | Cap(p, n) ensures size + LowBit(size) <= p {
      LowBitOfPow2(size);
      LowBitStep(size, p);
    }
  }

  lemma StepTop(size: int, n: int)
    requires 0 < size < WORD_RANGE && size != LowBit(size) && BelowCaps(size + LowBit(size), n)
    ensures size + LowBit(size) <= WORD_RANGE && LowBit(size + LowBit(size)) >= 2 * LowBit(size)
    ensures n <= 0x8000_0000 ==> size + LowBit(size) <= 0x8000_0000
  {
    BigPow2();
    assert n <= 0x8000_0000 ==> Cap(0x8000_0000, n);
    LowBitStep(size, WORD_RANGE);
  }

  function Wrap(x: int): int { x % WORD_RANGE }

  /** How far a word is from wrapping to 0. */
  function Distance(size: int): int {
    if size == 0 then 0 else WORD_RANGE - size
  }

  lemma NotYet32(size: int, rounds: nat)
    requires 0 < size < WORD_RANGE && rounds <= 32 && LowBit(size) >= Pow2(rounds)
    ensures rounds < 32
  {
    BigPow2();
  }

  lemma RoundingStep(size: int, n: int, rounds: nat)
    requires Rounding(size, n, rounds) && size != LowBit(size)
    ensures Rounding(Wrap(size + LowBit(size)), n, rounds + 1)
    ensures Distance(Wrap(size + LowBit(size))) < Distance(size)
  {
    assert size > 0 && LowBit(size) > 0;
    StepBelow(size, n);
    StepTop(size, n);
    NotYet32(size, rounds);
    assert Pow2(rounds + 1) == 2 * Pow2(rounds);
    var next := size + LowBit(size);
    if next == WORD_RANGE {
      assert Wrap(next) == 0;
    } else {
      assert Wrap(next) == next;
    }
  }

  lemma RoundingStart(n: int)
    requires 0 <= n < WORD_RANGE
    ensures Rounding(n, n, 0)
  {
  }

  lemma RoundingEnd(size: int, n: int, rounds: nat)
    requires Rounding(size, n, rounds) && size == LowBit(size)
    ensures size == if n == 0 || n > 0x8000_0000 then 0 else Ceil2(n, 1)
  {
    if size > 0 {
      BigPow2();
      LowBitOfPow2(size);
      Pow2Above(size, WORD_RANGE);
      CapsPositive(n);
      Ceil2Least(n, 1);
      LeastUnique(size, Ceil2(n, 1), n);
    }
  }

  /** up_bound terminates on every word, in at most 32 rounds. */
  method UpBoundLoop(size0: int) returns (size: int, ghost rounds: nat)
    requires 0 <= size0 < WORD_RANGE
    ensures size == UpBound(size0)
    ensures rounds <= 32
  {
    size := Wrap(size0 + 4);
    ghost var n := size;
    rounds := 0;
    RoundingStart(n);
    while size != LowBit(size)
      invariant Rounding(size, n, rounds)
      decreases Distance(size)
    {
      RoundingStep(size, n, rounds);
      size := Wrap(size + LowBit(size));
      rounds := rounds + 1;
    }
    RoundingEnd(size, n, rounds);
  }

  // ---------- kmalloc and kmfree ----------

  /** Sizes whose class the slab serves. */
  predicate Servable(size: int) {
    0 <= size && size + 4 <= 0x1000_0000
  }

  lemma UpBoundServed(size: int)
    requires Servable(size)
    ensures Request(UpBound(size), 0) && UpBound(size) >= size + 4
    ensures Served(UpBound(size), 4) && AlignFor(UpBound(size), 0) == 4
    ensures UpBound(size) == 4 <==> size == 0
  {
    UpBoundLeast(size);
    assert IsPow2(4);
    assert IsPow2(0x1000_0000) by {
      Pow2Byte(0);
      Pow2Byte(8);
      Pow2Byte(16);
      Pow2Byte(20);
      assert Pow2(20) == 16 * Pow2(16) by { assert Pow2(18) == 4 * Pow2(16); }
      Pow2IsPow2(28);
    }
    assert Cap(0x1000_0000, size + 4) && (size == 0 ==> Cap(4, size + 4));
  }

  /** The slab allocation a kmalloc of this size makes. */
  function ClassAlloc(s: Slabs, size: int): Maybe<(Slabs, int, int)>
    requires Servable(size)
  {
    UpBoundServed(size);
    SlbAlloc(s, UpBound(size), 4)
  }

  /** A block kmalloc handed out, not given back since. */
  ghost predicate Block(slb: Slb, a: int, p: int, size: int)
    reads slb, slb.space, slb.space.ram
  {
    && slb.Valid() && Out(slb.st, a, p - 4) && Servable(size)
    && slb.st.pools[a].osize == UpBound(size) && slb.st.pools[a].align == 4
    && slb.space.ram.Load(p - 4) == size
  }

  /** The object under a new block: it was the allocator's, its words are now the client's. */
  lemma ClassAllocMeaning(s: Slabs, size: int)
    requires Inv(s) && Servable(size) && ClassAlloc(s, size).Some?
    ensures var (t, x, a) := ClassAlloc(s, size).value;
      && Inv(t) && Out(t, a, x) && t.pools[a].osize == UpBound(size) && t.pools[a].align == 4
      && Owned(s, x) && !Owned(t, x)
    ensures forall y :: Owned(ClassAlloc(s, size).value.0, y) ==> Owned(s, y)
  {
    UpBoundServed(size);
    var (t, x, a) := ClassAlloc(s, size).value;
    AllocMeaning(s, UpBound(size), 4);
    OutNotOwned(t, a, x, x);
    AllocOwned(s, UpBound(size), 4, x);
    forall y | Owned(t, y) ensures Owned(s, y) { AllocOwned(s, UpBound(size), 4, y); }
  }

  /** Only words the allocators owned differ. */
  ghost predicate OnlyOwned(s: Slabs, w: Words, w2: Words) {
    forall x {:trigger Rd(w2, x)} :: Rd(w2, x) != Rd(w, x) ==> Owned(s, x)
  }

  lemma {:induction false} OnlyOwnedStore(s: Slabs, w: Words, w1: Words, x: int, v: int)
    requires OnlyOwned(s, w, w1) && Owned(s, x)
    ensures OnlyOwned(s, w, w1[x := v])
  {
    var w2 := w1[x := v];
    forall y | Rd(w2, y) != Rd(w, y) ensures Owned(s, y) {
      if y != x { assert Rd(w2, y) == Rd(w1, y); }
    }
  }

  /** The object for a block, of the size up_bound computes and slb_alloc's default alignment. */
  method AllocObject(slb: Slb, size: int) returns (p: Maybe<int>)
    requires slb.Valid() && Servable(size)
    modifies slb, slb.space, slb.space.ram
    ensures p.Some? <==> CanServe(old(slb.st), UpBound(size), 4)
    ensures match ClassAlloc(old(slb.st), size)
      case None => p.None?
      case Some(res) =>
        && p == Some(res.1) && slb.st == res.0 && slb.Valid() && !Owned(slb.st, res.1)
        && Out(slb.st, res.2, res.1)
        && slb.st.pools[res.2].osize == UpBound(size) && slb.st.pools[res.2].align == 4
    ensures p.Some? ==> Owned(old(slb.st), p.value)
    ensures OnlyOwned(old(slb.st), old(slb.space.ram.words), slb.space.ram.words)
  {
    UpBoundServed(size);
    if ClassAlloc(slb.st, size).Some? { ClassAllocMeaning(slb.st, size); }
    var bound, _ := UpBoundLoop(size);
    p := slb.SlbAllocAlign(bound, 0);
  }

  /** kmalloc: a block of the class for the size, its size word in front. */
  method Allocate(slb: Slb, size: int) returns (r: Maybe<int>)
    requires slb.Valid() && Servable(size)
    modifies slb, slb.space, slb.space.ram
    ensures r.Some? <==> CanServe(old(slb.st), UpBound(size), 4)
    ensures match ClassAlloc(old(slb.st), size)
      case None => r.None?
      case Some(res) =>
        && r == Some(res.1 + 4) && slb.st == res.0 && slb.Valid()
        && Block(slb, res.2, r.value, size)
    ensures OnlyOwned(old(slb.st), old(slb.space.ram.words), slb.space.ram.words)
  {
    ghost var s, w := slb.st, slb.space.ram.words;
    var p := AllocObject(slb, size);
    if p.None? {
      return None;
    }
    OnlyOwnedStore(s, w, slb.space.ram.words, p.value, size);
    ClientWord(slb, p.value, size);
    return Some(p.value + 4);
  }

  /** kmfree recomputes from the stored size exactly the object size kmalloc used, and under
      alignment 4 the release would succeed; but slb_free does not normalise its alignment as
      slb_alloc does, so the block is given back if and only if its size is 0. Otherwise the call is
      refused and changes nothing, in memory or in the allocator's state. */
  method Free(slb: Slb, p: int, ghost a: int, ghost size: int) returns (code: int, ghost bound: int)
    requires Block(slb, a, p, size)
    modifies slb, slb.space.ram
    ensures bound == old(slb.st).pools[a].osize
      && SlbFree(old(slb.st), p - 4, bound, 4) == (Push(old(slb.st), a, p - 4), 0)
    ensures (slb.st, code) == SlbFree(old(slb.st), p - 4, bound, 0)
    ensures slb.Valid() && (code == 0 <==> size == 0)
    ensures if size == 0 then slb.st == Push(old(slb.st), a, p - 4)
            else slb.st == old(slb.st) && slb.space.ram.words == old(slb.space.ram.words)
  {
    UpBoundServed(size);
    var up, _ := UpBoundLoop(slb.space.ram.Load(p - 4));
    bound := up;
    DefaultAlignRefused(slb.st, p - 4, up);
    FreeMeaning(slb.st, a, p - 4);
    code := slb.SlbFreeAlign(p - 4, up, 0);
  }
}
