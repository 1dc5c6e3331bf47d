/** kern/mm/slb.c as functions on the allocator's state: caches (slb_t) of pools (slb_pool_t) of
    equal-sized objects, fed by the page allocator. Cache records are slab objects themselves. */
module Slab {
  import opened Basics
  import opened Machine
  import opened Pages

  const RECORD_SIZE := 16   // sizeof(slb_t)
  const HEADER_SIZE := 16   // sizeof(slb_pool_t)
  const LINK_SIZE := 4      // sizeof(slb_obj_t)
  const RECORD_ALIGN := 4

  function Min(a: int, b: int): int { if a < b then a else b }

  function Max(a: int, b: int): int { if a > b then a else b }

  // ---------- requests ----------

  function AlignFor(osize: int, align: int): int { if align == 0 then Min(osize, 4) else align }

  /** Object classes the allocator is meant for: a power-of-two alignment no larger than the
      object, and a pool size that does not overflow 32 bits. */
  predicate Served(osize: int, align: int) {
    LINK_SIZE <= osize && 10 * osize + 26 + PAGE <= WORD_RANGE && IsPow2(align) && align <= osize
  }

  predicate Request(osize: int, align: int) {
    0 <= osize && Served(Max(osize, LINK_SIZE), AlignFor(osize, align))
  }

  // ---------- pools ----------

  /** Bytes requested for a pool: room for ten objects and the header, in whole pages. */
  function PoolSize(osize: int): (r: int)
    ensures Aligned(r) && r - PAGE < 10 * osize + HEADER_SIZE + 10 <= r
  {
    var psize := osize * 10 + HEADER_SIZE + 10;
    if psize % PAGE != 0 then (psize / PAGE + 1) * PAGE else psize
  }

  predicate OnAlign(i: int, align: int) {
    align == 0 || (align > 0 && i % align == 0)
  }

  function FirstSlot(at: int, align: int): int
    requires align >= 0
  {
    var i := at + HEADER_SIZE;
    if !OnAlign(i, align) then i + align - i % align else i
  }

  /** The object addresses the segmenting loop finds from i on. */
  function SlotsFrom(i: int, limit: int, osize: int, align: int): seq<int>
    requires osize > 0
    decreases limit - i
  {
    if i + osize > limit then []
    else (if OnAlign(i, align) then [i] else []) + SlotsFrom(i + Max(osize, align), limit, osize, align)
  }

  function Reverse(s: seq<int>): (r: seq<int>)
    ensures |r| == |s|
    ensures forall x :: x in r <==> x in s
  {
    if s == [] then [] else Reverse(s[1..]) + [s[0]]
  }

  lemma {:induction false} ReverseDistinct(s: seq<int>)
    requires DistinctInts(s)
    ensures DistinctInts(Reverse(s))
  {
    if s == [] {
    } else {
      ReverseDistinct(s[1..]);
      var r := Reverse(s[1..]);
      forall k | 0 <= k < |r| ensures r[k] != s[0] { assert r[k] in s[1..]; }
    }
  }

  /** A pool: its object class, the count it keeps, all its objects and its free list. */
  datatype Pool = Pool(osize: int, align: int, size: int, inuse: int, slots: seq<int>, free: seq<int>)

  function SlotsOf(at: int, osize: int, align: int): seq<int>
    requires osize > 0 && align >= 0
  {
    SlotsFrom(FirstSlot(at, align), at + PoolSize(osize), osize, align)
  }

  function FreshPool(at: int, osize: int, align: int): Pool
    requires osize > 0 && align >= 0
  {
    var slots := SlotsOf(at, osize, align);
    Pool(osize, align, PoolSize(osize), 0, slots, Reverse(slots))
  }

  /** Objects k and l do not overlap. */
  ghost predicate SlotBefore(slots: seq<int>, osize: int, k: int, l: int)
    requires 0 <= k < l < |slots|
  {
    slots[k] + osize <= slots[l]
  }

  ghost predicate SlotFits(x: int, lo: int, hi: int, osize: int, align: int) {
    lo <= x && x + osize <= hi && OnAlign(x, align)
  }

  ghost predicate Spread(slots: seq<int>, lo: int, hi: int, osize: int, align: int) {
    && (forall k {:trigger SlotFits(slots[k], lo, hi, osize, align)} ::
          0 <= k < |slots| ==> SlotFits(slots[k], lo, hi, osize, align))
    && (forall k, l :: 0 <= k < l < |slots| ==> SlotBefore(slots, osize, k, l))
  }

  lemma {:induction false} SlotsSpread(i: int, limit: int, osize: int, align: int)
    requires osize > 0
    ensures Spread(SlotsFrom(i, limit, osize, align), i, limit, osize, align)
    decreases limit - i
  {
    var slots := SlotsFrom(i, limit, osize, align);
    if i + osize <= limit {
      var step := Max(osize, align);
      var rest := SlotsFrom(i + step, limit, osize, align);
      SlotsSpread(i + step, limit, osize, align);
      var d := if OnAlign(i, align) then 1 else 0;
      forall k | 0 <= k < |slots| ensures SlotFits(slots[k], i, limit, osize, align) {
        assert k >= d ==> slots[k] == rest[k - d] && SlotFits(rest[k - d], i + step, limit, osize, align);
      }
      forall k, l | 0 <= k < l < |slots| ensures SlotBefore(slots, osize, k, l) {
        assert slots[l] == rest[l - d] && SlotFits(rest[l - d], i + step, limit, osize, align);
        assert k >= d ==> slots[k] == rest[k - d] && SlotBefore(rest, osize, k - d, l - d);
      }
    }
  }

  /** At least n objects when the first address is aligned and n steps of an aligned size fit. */
  lemma {:induction false} SlotsAtLeast(i: int, limit: int, osize: int, align: int, n: nat)
    requires osize > 0 && 0 < align <= osize && OnAlign(i, align) && i + n * osize <= limit
    requires n <= 1 || OnAlign(osize, align)
    ensures |SlotsFrom(i, limit, osize, align)| >= n
    decreases n
  {
    if n == 0 {
    } else {
      assert i + osize + (n - 1) * osize == i + n * osize;
      assert n > 1 ==> (n - 1) * osize >= 0;
      if n > 1 {
        assert OnAlign(i + osize, align) by { AlignedSum(i, osize, align); }
        SlotsAtLeast(i + osize, limit, osize, align, n - 1);
      }
    }
  }

  lemma AlignedSum(a: int, b: int, m: int)
    requires m > 0 && a % m == 0 && b % m == 0
    ensures (a + b) % m == 0
  {
    var p, q := a / m, b / m;
    assert a == m * p && b == m * q;
    assert a + b == m * (p + q);
    MultipleMod(p + q, m);
  }

  lemma MultipleMod(k: int, m: int)
    requires m > 0
    ensures (m * k) % m == 0
  {
    var r := (m * k) % m;
    var q := (m * k) / m;
    assert m * k == m * q + r && 0 <= r < m;
    assert r == m * (k - q);
    assert k - q >= 1 ==> m * (k - q) >= m;
    assert k - q <= -1 ==> m * (k - q) <= -m;
  }

  lemma FirstSlotAligned(at: int, align: int)
    requires align > 0
    ensures OnAlign(FirstSlot(at, align), align)
    ensures at + HEADER_SIZE <= FirstSlot(at, align) < at + HEADER_SIZE + align
  {
    NextMultiple(at + HEADER_SIZE, align);
  }

  lemma NextMultiple(i: int, m: int)
    requires m > 0
    ensures (i + m - i % m) % m == 0
  {
    assert i == m * (i / m) + i % m;
    assert i + m - i % m == m * (i / m + 1);
    MultipleMod(i / m + 1, m);
  }

  /** Every fresh pool is usable: one object at least, and nine if the alignment divides the size. */
  lemma FreshPoolUsable(at: int, osize: int, align: int)
    requires Served(osize, align)
    ensures align > 0 && |FreshPool(at, osize, align).free| >= 1
    ensures osize % align == 0 ==> |FreshPool(at, osize, align).free| >= 9
  {
    Pow2Positive(align);
    FirstSlotAligned(at, align);
    var i, limit := FirstSlot(at, align), at + PoolSize(osize);
    SlotsAtLeast(i, limit, osize, align, 1);
    if osize % align == 0 { SlotsAtLeast(i, limit, osize, align, 9); }
  }

  // ---------- the allocator's state ----------

  /** A class record: its own address and the pool it was taken from, its key, and its pools,
      newest first. */
  datatype Cache = Cache(rec: int, home: int, align: int, osize: int, pools: seq<int>)

  /** The page allocator's list, the class records from slb_head on, every pool by address,
      and the pool slb_init made. */
  datatype Slabs = Slabs(areas: seq<Area>, caches: seq<Cache>, pools: map<int, Pool>, boot: int)

  /** The first class with this key, or |cs|. */
  function FindCache(cs: seq<Cache>, osize: int, align: int): (i: nat)
    ensures i <= |cs|
    ensures i < |cs| ==> cs[i].osize == osize && cs[i].align == align
    ensures forall j :: 0 <= j < i ==> !(cs[j].osize == osize && cs[j].align == align)
  {
    if cs == [] || (cs[0].osize == osize && cs[0].align == align) then 0
    else 1 + FindCache(cs[1..], osize, align)
  }

  predicate HasFree(pools: map<int, Pool>, a: int) {
    a in pools && pools[a].free != []
  }

  /** The first pool of the list with a free object, or |ps|. */
  function FindPool(pools: map<int, Pool>, ps: seq<int>): (j: nat)
    ensures j <= |ps|
    ensures j < |ps| ==> HasFree(pools, ps[j])
    ensures forall k :: 0 <= k < j ==> !HasFree(pools, ps[k])
  {
    if ps == [] || HasFree(pools, ps[0]) then 0 else 1 + FindPool(pools, ps[1..])
  }

  /** Takes the first free object of pool a. */
  function Pop(s: Slabs, a: int): Slabs
    requires HasFree(s.pools, a)
  {
    var p := s.pools[a];
    s.(pools := s.pools[a := p.(free := p.free[1..], inuse := p.inuse + 1)])
  }

  /** Puts object x back into pool a. */
  function Push(s: Slabs, a: int, x: int): Slabs
    requires a in s.pools
  {
    var p := s.pools[a];
    s.(pools := s.pools[a := p.(free := [x] + p.free, inuse := p.inuse - 1)])
  }

  /** Where the page allocator puts the next pool for objects of this size. */
  function PoolIndex(s: Slabs, osize: int): nat {
    FirstFit(s.areas, PoolSize(osize))
  }

  /** Adds a fresh pool at the head of class i. */
  function Grow(s: Slabs, i: nat): Slabs
    requires i < |s.caches| && s.caches[i].osize > 0 && s.caches[i].align >= 0
    requires PoolIndex(s, s.caches[i].osize) < |s.areas|
  {
    var c := s.caches[i];
    var k := PoolIndex(s, c.osize);
    var at := s.areas[k].at;
    s.(areas := Carve(s.areas, k, PoolSize(c.osize)),
       caches := s.caches[i := c.(pools := [at] + c.pools)],
       pools := s.pools[at := FreshPool(at, c.osize, c.align)])
  }

  /** Adds a class whose record is object rec of pool home, without pools. */
  function AddCache(s: Slabs, rec: int, home: int, osize: int, align: int): Slabs {
    s.(caches := [Cache(rec, home, align, osize, [])] + s.caches)
  }

  /** An allocation from a class that exists; None is the spin in pages_alloc when memory has run
      out. */
  function AllocIn(s: Slabs, i: nat): Maybe<(Slabs, int)>
    requires i < |s.caches| && Served(s.caches[i].osize, s.caches[i].align)
  {
    Pow2Positive(s.caches[i].align);
    var c := s.caches[i];
    var j := FindPool(s.pools, c.pools);
    if j < |c.pools| then Some((Pop(s, c.pools[j]), s.pools[c.pools[j]].free[0]))
    else if PoolIndex(s, c.osize) == |s.areas| then None
    else
      var at := s.areas[PoolIndex(s, c.osize)].at;
      FreshPoolUsable(at, c.osize, c.align);
      var s1 := Grow(s, i);
      Some((Pop(s1, at), s1.pools[at].free[0]))
  }

  /** Pool of the object AllocIn hands out. */
  function AllocPool(s: Slabs, i: nat): int
    requires i < |s.caches|
      && (FindPool(s.pools, s.caches[i].pools) < |s.caches[i].pools| || PoolIndex(s, s.caches[i].osize) < |s.areas|)
  {
    var c := s.caches[i];
    var j := FindPool(s.pools, c.pools);
    if j < |c.pools| then c.pools[j] else s.areas[PoolIndex(s, c.osize)].at
  }

  // ---------- the invariant ----------

  /** Pool a on its own. */
  ghost predicate PoolOk(s: Slabs, a: int)
    requires a in s.pools
  {
    var p := s.pools[a];
    && KERNEL_BASE <= a && Aligned(a) && a + p.size < WORD_RANGE
    && Served(p.osize, p.align) && p.size == PoolSize(p.osize)
    && p.slots == SlotsOf(a, p.osize, p.align)
    && (forall x :: x in p.free ==> x in p.slots)
    && DistinctInts(p.free)
    && p.inuse >= 0
    && p.inuse + |p.free| + (if a == s.boot then 1 else 0) == |p.slots|
  }

  ghost predicate PoolsApart(s: Slabs, a: int, b: int)
    requires a in s.pools && b in s.pools
  {
    a + s.pools[a].size <= b || b + s.pools[b].size <= a
  }

  /** None of pool a belongs to the page allocator. */
  ghost predicate PoolTaken(s: Slabs, a: int)
    requires a in s.pools
  {
    forall x :: a <= x < a + s.pools[a].size ==> !Covers(s.areas, x)
  }

  ghost predicate InClass(s: Slabs, i: int, a: int)
    requires 0 <= i < |s.caches|
  {
    a in s.pools && s.pools[a].osize == s.caches[i].osize && s.pools[a].align == s.caches[i].align
  }

  ghost predicate CacheOk(s: Slabs, i: int)
    requires 0 <= i < |s.caches|
  {
    var c := s.caches[i];
    && Served(c.osize, c.align)
    && (forall a :: a in c.pools ==> InClass(s, i, a))
    && DistinctInts(c.pools)
    && c.home in s.pools && s.pools[c.home].osize == RECORD_SIZE
    && c.rec in s.pools[c.home].slots && c.rec !in s.pools[c.home].free
  }

  ghost predicate CachesApart(s: Slabs, i: int, j: int)
    requires 0 <= i < j < |s.caches|
  {
    && s.caches[i].rec != s.caches[j].rec
    && !(s.caches[i].osize == s.caches[j].osize && s.caches[i].align == s.caches[j].align)
  }

  ghost predicate Listed(s: Slabs, a: int) {
    exists i :: 0 <= i < |s.caches| && a in s.caches[i].pools
  }

  ghost predicate PoolsInv(s: Slabs) {
    && Canonical(s.areas)
    && (forall a {:trigger PoolOk(s, a)} :: a in s.pools ==> PoolOk(s, a))
    && (forall a {:trigger PoolTaken(s, a)} :: a in s.pools ==> PoolTaken(s, a))
    && (forall a, b {:trigger PoolsApart(s, a, b)} :: a in s.pools && b in s.pools && a != b ==> PoolsApart(s, a, b))
  }

  ghost predicate CachesInv(s: Slabs) {
    && (forall i {:trigger CacheOk(s, i)} :: 0 <= i < |s.caches| ==> CacheOk(s, i))
    && (forall i, j {:trigger CachesApart(s, i, j)} :: 0 <= i < j < |s.caches| ==> CachesApart(s, i, j))
    && (forall a {:trigger Listed(s, a)} :: a in s.pools ==> Listed(s, a))
    // the class slb_init made is still there, at the end, with its record in the first pool
    && s.caches != []
    && var boot := s.caches[|s.caches| - 1];
       boot.osize == RECORD_SIZE && boot.align == RECORD_ALIGN && boot.home == s.boot
  }

  ghost predicate Inv(s: Slabs) {
    PoolsInv(s) && CachesInv(s)
  }
}
