/** kern/mm/slb.c as it runs: stores into memory, proved to do what SlabRuns.SlbAlloc and
    SlabRuns.SlbFree say. */
module SlabAllocator {
  import opened Basics
  import opened Machine
  import opened Pages
  import opened Slab
  import opened SlabRuns
  import opened SlabServe
  import opened SlabMemory

  lemma {:induction false} ChainedFrame(w: Words, w2: Words, head: int, xs: seq<Area>)
    requires Canonical(xs) && Chained(w, head, xs)
    requires forall x :: Covers(xs, x) ==> Rd(w2, x) == Rd(w, x)
    ensures Chained(w2, head, xs)
  {
    forall i | 0 <= i < |xs| ensures Node(w2, xs, i) {
      assert WellPlaced(xs[i]) && Node(w, xs, i);
      assert Covers(xs, xs[i].at) && Covers(xs, xs[i].at + 4);
    }
  }

  /** One turn of the segmenting loop puts object x in front of the free list. */
  lemma {:induction false} SegmentStep(w: Words, at: int, p: Pool, x: int)
    requires PoolAt(w, at, p) && at + HEADER_SIZE <= x
    requires forall f :: f in p.free ==> at + HEADER_SIZE <= f < x
    ensures PoolAt(w[x := Rd(w, at + 8)][at + 8 := x], at, p.(free := [x] + p.free))
  {
    var w2 := w[x := Rd(w, at + 8)][at + 8 := x];
    var free := [x] + p.free;
    forall k | 0 <= k < |free| ensures FreeLink(w2, free, k) {
      if k > 0 { assert FreeLink(w, p.free, k - 1) && free[k] == p.free[k - 1] && free[k] in p.free; }
    }
  }

  // ---------- the mask tests of the segmenting loop ----------

  /** The loop's own test: no bit of the address under the mask align - 1. */
  predicate MaskAlign(i: nat, align: nat) {
    align == 0 || And(i, align - 1) == 0
  }

  function MaskFirst(at: nat, align: nat): (i: nat)
    ensures at + HEADER_SIZE <= i
  {
    var i := at + HEADER_SIZE;
    if !MaskAlign(i, align) then i + align - And(align - 1, i) else i
  }

  /** The addresses the loop links, whatever the alignment. */
  function MaskSlots(i: nat, limit: nat, osize: nat, align: nat): seq<int>
    requires osize > 0
    decreases limit - i
  {
    if i + osize > limit then []
    else (if MaskAlign(i, align) then [i] else []) + MaskSlots(i + Max(osize, align), limit, osize, align)
  }

  lemma MaskAlignIs(i: nat, align: nat)
    requires align == 0 || IsPow2(align)
    ensures MaskAlign(i, align) <==> OnAlign(i, align)
  {
    if align > 0 { AndIsMod(i, align); }
  }

  /** For a power of two the first address is the next multiple. */
  lemma MaskFirstIs(at: nat, align: nat)
    requires align == 0 || IsPow2(align)
    ensures MaskFirst(at, align) == FirstSlot(at, align)
  {
    MaskAlignIs(at + HEADER_SIZE, align);
    if align > 0 {
      AndIsMod(at + HEADER_SIZE, align);
      AndCommutes(align - 1, at + HEADER_SIZE);
    }
  }

  /** For a power of two the loop finds exactly the multiples. */
  lemma {:induction false} MaskSlotsAre(i: nat, limit: nat, osize: nat, align: nat)
    requires osize > 0 && (align == 0 || IsPow2(align))
    ensures MaskSlots(i, limit, osize, align) == SlotsFrom(i, limit, osize, align)
    decreases limit - i
  {
    if i + osize > limit {
    } else {
      MaskAlignIs(i, align);
      MaskSlotsAre(i + Max(osize, align), limit, osize, align);
    }
  }

  /** What is still to be segmented, reversed, in front of what is already linked. */
  lemma SegmentsLeft(i: nat, limit: nat, osize: nat, align: nat, linked: seq<int>)
    requires osize > 0 && i + osize <= limit
    ensures Reverse(MaskSlots(i, limit, osize, align)) + linked
         == Reverse(MaskSlots(i + Max(osize, align), limit, osize, align))
           + (if MaskAlign(i, align) then [i] + linked else linked)
  {
    var rest := MaskSlots(i + Max(osize, align), limit, osize, align);
    if MaskAlign(i, align) {
      assert MaskSlots(i, limit, osize, align) == [i] + rest;
      assert ([i] + rest)[1..] == rest;
      assert Reverse([i] + rest) == Reverse(rest) + [i];
      assert Reverse(rest) + [i] + linked == Reverse(rest) + ([i] + linked);
    } else {
      assert MaskSlots(i, limit, osize, align) == rest;
    }
  }

  /** Nothing outside [lo, lo + n) differs. */
  ghost predicate SameOutside(w: Words, w2: Words, lo: int, n: int) {
    forall x {:trigger Rd(w2, x)} :: !InRange(x, lo, n) ==> Rd(w2, x) == Rd(w, x)
  }

  method PoolHeader(ram: Ram, pool: int, psize: int, osize: int, align: int, ghost slots: seq<int>)
    requires psize >= HEADER_SIZE
    modifies ram
    ensures PoolAt(ram.words, pool, Pool(osize, align, psize, 0, slots, []))
    ensures ram.Load(pool + 12) == 0
    ensures SameOutside(old(ram.words), ram.words, pool, psize)
  {
    ram.Store(pool, 0);
    ram.Store(pool + 4, psize);
    ram.Store(pool + 8, 0);
    ram.Store(pool + 12, 0);
  }

  method LinkObject(ram: Ram, pool: int, ghost p: Pool, x: int)
    requires PoolAt(ram.words, pool, p) && pool + HEADER_SIZE <= x && InRange(x, pool, p.size)
    requires forall f :: f in p.free ==> pool + HEADER_SIZE <= f < x
    modifies ram
    ensures PoolAt(ram.words, pool, p.(free := [x] + p.free))
    ensures ram.Load(pool + 12) == old(ram.Load(pool + 12))
    ensures SameOutside(old(ram.words), ram.words, pool, p.size)
  {
    SegmentStep(ram.words, pool, p, x);
    ram.Store(x, ram.Load(pool + 8));
    ram.Store(pool + 8, x);
  }

  /** The objects from i on, last first, in front of those linked already, are all there will be. */
  ghost predicate Remaining(all: seq<int>, i: nat, limit: nat, osize: nat, align: nat, linked: seq<int>)
    requires osize > 0
  {
    all == Reverse(MaskSlots(i, limit, osize, align)) + linked
  }

  lemma RemainingStep(all: seq<int>, i: nat, limit: nat, osize: nat, align: nat, linked: seq<int>)
    requires osize > 0 && i + osize <= limit && Remaining(all, i, limit, osize, align, linked)
    ensures
      var linked2 := if MaskAlign(i, align) then [i] + linked else linked;
      Remaining(all, i + Max(osize, align), limit, osize, align, linked2)
  {
    SegmentsLeft(i, limit, osize, align, linked);
  }

  lemma RemainingEnd(all: seq<int>, i: nat, limit: nat, osize: nat, align: nat, linked: seq<int>)
    requires osize > 0 && i + osize > limit && Remaining(all, i, limit, osize, align, linked)
    ensures all == linked
  {
    assert MaskSlots(i, limit, osize, align) == [];
  }

  /** The body of the segmenting loop. */
  method SegmentOne(ram: Ram, pool: int, ghost p: Pool, i: nat, align: nat) returns (ghost q: Pool)
    requires PoolAt(ram.words, pool, p) && pool + HEADER_SIZE <= i < pool + p.size
    requires forall f :: f in p.free ==> pool + HEADER_SIZE <= f < i
    modifies ram
    ensures q == p.(free := if MaskAlign(i, align) then [i] + p.free else p.free)
    ensures PoolAt(ram.words, pool, q) && forall f :: f in q.free ==> pool + HEADER_SIZE <= f <= i
    ensures ram.Load(pool + 12) == old(ram.Load(pool + 12))
    ensures SameOutside(old(ram.words), ram.words, pool, p.size)
  {
    q := p;
    if MaskAlign(i, align) {
      LinkObject(ram, pool, p, i);
      q := p.(free := [i] + p.free);
    }
  }

  /** The segmenting loop: every object from i0 on goes onto the free list, the last one first. */
  method Segment(ram: Ram, pool: nat, psize: nat, osize: nat, align: nat, i0: nat, ghost slots: seq<int>)
    requires osize >= LINK_SIZE && psize >= HEADER_SIZE && pool + HEADER_SIZE <= i0
    requires PoolAt(ram.words, pool, Pool(osize, align, psize, 0, slots, [])) && ram.Load(pool + 12) == 0
    modifies ram
    ensures PoolAt(ram.words, pool,
      Pool(osize, align, psize, 0, slots, Reverse(MaskSlots(i0, pool + psize, osize, align))))
    ensures ram.Load(pool + 12) == 0 && SameOutside(old(ram.words), ram.words, pool, psize)
  {
    var i := i0;
    ghost var p := Pool(osize, align, psize, 0, slots, []);
    ghost var all := Reverse(MaskSlots(i0, pool + psize, osize, align));
    assert all + [] == all;
    while i + osize <= pool + psize
      invariant pool + HEADER_SIZE <= i && p.size == psize
      invariant p == Pool(osize, align, psize, 0, slots, p.free)
      invariant Remaining(all, i, pool + psize, osize, align, p.free)
      invariant PoolAt(ram.words, pool, p)
      invariant forall f :: f in p.free ==> pool + HEADER_SIZE <= f < i
      invariant ram.Load(pool + 12) == 0
      invariant SameOutside(old(ram.words), ram.words, pool, psize)
      decreases pool + psize - i
    {
      RemainingStep(all, i, pool + psize, osize, align, p.free);
      ghost var w := ram.words;
      p := SegmentOne(ram, pool, p, i, align);
      SameOutsideTwice(old(ram.words), w, ram.words, pool, psize);
      i := i + Max(osize, align);
    }
    RemainingEnd(all, i, pool + psize, osize, align, p.free);
  }

  lemma {:induction false} SameOutsideTwice(w: Words, w1: Words, w2: Words, lo: int, n: int)
    requires SameOutside(w, w1, lo, n) && SameOutside(w1, w2, lo, n)
    ensures SameOutside(w, w2, lo, n)
  {
    forall x | !InRange(x, lo, n) ensures Rd(w2, x) == Rd(w, x) { assert Rd(w1, x) == Rd(w, x); }
  }

  /** pool_segm: writes the header and threads every object of the range onto the free list. */
  method PoolSegm(ram: Ram, pool: nat, psize: nat, osize: nat, align: nat) returns (ok: bool)
    requires osize >= LINK_SIZE && psize >= HEADER_SIZE && pool > 0
    modifies ram
    ensures ok == (MaskFirst(pool, align) < pool + psize)
    ensures ok ==>
      var slots := MaskSlots(MaskFirst(pool, align), pool + psize, osize, align);
      PoolAt(ram.words, pool, Pool(osize, align, psize, 0, slots, Reverse(slots)))
    ensures ram.Load(pool + 12) == 0
    ensures SameOutside(old(ram.words), ram.words, pool, psize)
  {
    ghost var slots := MaskSlots(MaskFirst(pool, align), pool + psize, osize, align);
    PoolHeader(ram, pool, psize, osize, align, slots);
    var i := pool + HEADER_SIZE;
    if !MaskAlign(i, align) {
      i := i + align - And(align - 1, i);
    }
    if i >= pool + psize {
      return false;
    }
    Segment(ram, pool, psize, osize, align, i, slots);
    return true;
  }

  /** For the classes served, what pool_segm writes is a fresh pool, and the first object fits. */
  lemma SegmentsFresh(at: nat, osize: nat, align: nat)
    requires Served(osize, if align == 0 then RECORD_ALIGN else align)
    ensures MaskFirst(at, align) < at + PoolSize(osize)
    ensures
      var slots := MaskSlots(MaskFirst(at, align), at + PoolSize(osize), osize, align);
      FreshPool(at, osize, align) == Pool(osize, align, PoolSize(osize), 0, slots, Reverse(slots))
  {
    var a := if align == 0 then RECORD_ALIGN else align;
    Pow2Positive(a);
    FirstSlotAligned(at, a);
    MaskFirstIs(at, align);
    MaskSlotsAre(MaskFirst(at, align), at + PoolSize(osize), osize, align);
  }

  lemma PoolRange(areas: seq<Area>, osize: int)
    requires Canonical(areas) && LINK_SIZE <= osize && FirstFit(areas, PoolSize(osize)) < |areas|
    ensures var k := FirstFit(areas, PoolSize(osize)); var at := areas[k].at;
      && Canonical(Carve(areas, k, PoolSize(osize)))
      && KERNEL_BASE <= at < at + PoolSize(osize) < WORD_RANGE
      && (forall x :: InRange(x, at, PoolSize(osize)) ==> Covers(areas, x))
      && (forall x :: Covers(Carve(areas, k, PoolSize(osize)), x) ==>
        Covers(areas, x) && !InRange(x, at, PoolSize(osize)))
  {
    CarvedRange(Slabs(areas, [], map[], 0), osize);
  }

  /** Linking a fresh pool leaves its header and free list alone. */
  lemma {:induction false} FreshHeader(w: Words, w2: Words, at: int, p: Pool)
    requires PoolAt(w, at, p) && forall f :: f in p.free ==> at + HEADER_SIZE <= f < at + p.size
    requires p.size >= HEADER_SIZE
    requires forall x :: InRange(x, at, p.size) && x != at + 12 ==> Rd(w2, x) == Rd(w, x)
    ensures PoolAt(w2, at, p)
  {
    assert InRange(at, at, p.size) && InRange(at + 4, at, p.size) && InRange(at + 8, at, p.size);
    forall k | 0 <= k < |p.free| ensures FreeLink(w2, p.free, k) {
      assert FreeLink(w, p.free, k) && p.free[k] in p.free && InRange(p.free[k], at, p.size);
    }
  }

  /** The two stores that link the pool at `at` in front of the list in record rec. */
  function LinkPoolWords(w: Words, at: int, rec: int): Words {
    var w1 := w[at + 12 := Rd(w, rec + 8)];
    w1[rec + 8 := at]
  }

  /** From memory before the pool was made (w), and segmented (w1), to the state with it linked. */
  lemma {:induction false} LinkPoolRep(w: Words, w1: Words, head: int, s: Slabs, i: nat, at: int)
    requires Inv(s) && Rep(w, head, s) && i < |s.caches| && PoolIndex(s, s.caches[i].osize) < |s.areas|
    requires s.caches[i].osize > 0 && s.caches[i].align >= 0 && at == s.areas[PoolIndex(s, s.caches[i].osize)].at
    requires PoolAt(w1, at, FreshPool(at, s.caches[i].osize, s.caches[i].align))
    requires forall x :: Rd(w1, x) != Rd(w, x) ==> Covers(s.areas, x)
    ensures Inv(Grow(s, i)) && Rep(LinkPoolWords(w1, at, s.caches[i].rec), head, Grow(s, i))
  {
    var rec := s.caches[i].rec;
    var w2 := LinkPoolWords(w1, at, rec);
    GrowInv(s, i);
    RecordWordTaken(s, i, at);
    assert RecordRep(w, s, i);
    FreshSlots(s, i, at);
    FreshHeader(w1, w2, at, FreshPool(at, s.caches[i].osize, s.caches[i].align));
    forall x | SlabOwned(s, x) && x != rec + 8 ensures Rd(w2, x) == Rd(w, x) {
      LinkPoolFrame(w, w1, s, i, at, x);
    }
    GrowRep(w, w2, head, s, i);
  }

  lemma {:induction false} LinkPoolFrame(w: Words, w1: Words, s: Slabs, i: nat, at: int, x: int)
    requires Inv(s) && i < |s.caches| && PoolIndex(s, s.caches[i].osize) < |s.areas|
    requires at == s.areas[PoolIndex(s, s.caches[i].osize)].at
    requires forall y :: Rd(w1, y) != Rd(w, y) ==> Covers(s.areas, y)
    requires SlabOwned(s, x) && x != s.caches[i].rec + 8
    ensures Rd(LinkPoolWords(w1, at, s.caches[i].rec), x) == Rd(w, x)
  {
    assert CacheOk(s, i);
    CarvedRange(s, s.caches[i].osize);
    SlabOwnedTaken(s, x);
  }

  lemma RecordWordTaken(s: Slabs, i: nat, at: int)
    requires Inv(s) && i < |s.caches| && PoolIndex(s, s.caches[i].osize) < |s.areas|
    requires at == s.areas[PoolIndex(s, s.caches[i].osize)].at
    ensures var x := s.caches[i].rec + 8;
      && InRecord(s, x) && !Covers(s.areas, x)
      && !InRange(x, at, PoolSize(s.caches[i].osize)) && x != at + 12
  {
    var x := s.caches[i].rec + 8;
    assert CacheOk(s, i);
    assert InRange(x, s.caches[i].rec, RECORD_SIZE) && InRecord(s, x);
    SlabOwnedTaken(s, x);
    CarvedRange(s, s.caches[i].osize);
  }

  /** The stores hit the new pool and the class record, and no area that is still free. */
  lemma {:induction false} LinkPoolOutside(w: Words, w1: Words, s: Slabs, i: nat, at: int)
    requires Inv(s) && i < |s.caches| && PoolIndex(s, s.caches[i].osize) < |s.areas| && LINK_SIZE <= s.caches[i].osize
    requires at == s.areas[PoolIndex(s, s.caches[i].osize)].at
    requires forall x :: Rd(w1, x) != Rd(w, x) ==> Covers(s.areas, x)
    ensures var w2 := LinkPoolWords(w1, at, s.caches[i].rec);
      var left := Carve(s.areas, PoolIndex(s, s.caches[i].osize), PoolSize(s.caches[i].osize));
      && (forall x {:trigger Rd(w2, x)} :: Rd(w2, x) != Rd(w, x) ==> Owned(s, x))
      && (forall x {:trigger Covers(left, x)} :: Covers(left, x) ==> Rd(w2, x) == Rd(w1, x))
  {
    RecordWordTaken(s, i, at);
    PoolRange(s.areas, s.caches[i].osize);
    assert InRange(at + 12, at, PoolSize(s.caches[i].osize));
  }

  lemma FreshSlots(s: Slabs, i: nat, at: int)
    requires Inv(s) && i < |s.caches| && PoolIndex(s, s.caches[i].osize) < |s.areas|
    requires s.caches[i].osize > 0 && s.caches[i].align >= 0 && at == s.areas[PoolIndex(s, s.caches[i].osize)].at
    ensures var p := FreshPool(at, s.caches[i].osize, s.caches[i].align);
      p.size >= HEADER_SIZE && forall f :: f in p.free ==> at + HEADER_SIZE <= f < at + p.size
  {
    GrowInv(s, i);
    var t := Grow(s, i);
    assert PoolOk(t, at);
    forall f | f in t.pools[at].free ensures at + HEADER_SIZE <= f < at + t.pools[at].size {
      SlotInPool(t, at, f);
    }
  }

  /** A class with no usable pool serves from a pool just added as it would by adding it. */
  lemma AllocAfterGrow(s: Slabs, i: nat)
    requires Inv(s) && i < |s.caches| && PoolIndex(s, s.caches[i].osize) < |s.areas|
    requires FindPool(s.pools, s.caches[i].pools) == |s.caches[i].pools|
    ensures s.caches[i].osize > 0 && s.caches[i].align >= 0 && Served(s.caches[i].osize, s.caches[i].align)
    ensures AllocIn(Grow(s, i), i) == AllocIn(s, i)
  {
    assert CacheOk(s, i);
    GrowPools(s, i);
  }

  /** What the last two stores change, once the pool is segmented: nothing else the slab keeps. */
  lemma {:induction false} NewClassWords(w1: Words, wp: Words, head: int, s: Slabs, home: int, rec: int, osize: int,
                                         align: int, at: int)
    requires Inv(s) && Out(s, home, rec) && s.pools[home].osize == RECORD_SIZE
    requires Inv(AddCache(s, rec, home, osize, align)) && LINK_SIZE <= osize && align >= 0
    requires PoolIndex(s, osize) < |s.areas| && at == s.areas[PoolIndex(s, osize)].at
    requires PoolAt(wp, at, FreshPool(at, osize, align)) && Rd(wp, at + 12) == 0
    requires forall x :: Rd(wp, x) != Rd(w1[rec := align][rec + 4 := osize], x) ==> Covers(s.areas, x)
    ensures var w2 := wp[rec + 8 := at][rec + 12 := head];
      && PoolAt(w2, at, FreshPool(at, osize, align)) && Rd(w2, at + 12) == 0
      && forall x :: SlabOwned(AddCache(s, rec, home, osize, align), x) && x != rec + 8
           ==> Rd(w2, x) == Rd(RecordWords(w1, rec, align, osize, 0, head), x)
  {
    var t := AddCache(s, rec, home, osize, align);
    var w2 := wp[rec + 8 := at][rec + 12 := head];
    FreshSlots(t, 0, at);
    CarvedRange(t, osize);
    forall x | InRange(x, rec, RECORD_SIZE) ensures !Covers(s.areas, x) { OutNotOwned(s, home, rec, x); }
    assert InRange(rec + 8, rec, 16) && InRange(rec + 12, rec, 16);
    FreshHeader(wp, w2, at, FreshPool(at, osize, align));
    forall x | SlabOwned(t, x) && x != rec + 8 ensures Rd(w2, x) == Rd(RecordWords(w1, rec, align, osize, 0, head), x) {
      SlabOwnedTaken(t, x);
    }
  }

  lemma {:induction false} NewClassRep(w1: Words, wp: Words, head: int, s: Slabs, home: int, rec: int, osize: int,
                                       align: int, at: int)
    requires Inv(s) && Rep(w1, head, s) && Out(s, home, rec) && s.pools[home].osize == RECORD_SIZE
    requires Served(osize, align) && FindCache(s.caches, osize, align) == |s.caches|
    requires PoolIndex(s, osize) < |s.areas| && at == s.areas[PoolIndex(s, osize)].at && align >= 0
    requires PoolAt(wp, at, FreshPool(at, osize, align)) && Rd(wp, at + 12) == 0
    requires forall x :: Rd(wp, x) != Rd(w1[rec := align][rec + 4 := osize], x) ==> Covers(s.areas, x)
    ensures var t := AddCache(s, rec, home, osize, align);
      Inv(t) && Inv(Grow(t, 0)) && Rep(wp[rec + 8 := at][rec + 12 := head], rec, Grow(t, 0))
  {
    var t := AddCache(s, rec, home, osize, align);
    AddCacheRep(w1, head, s, home, rec, osize, align);
    AddCacheInv(s, rec, home, osize, align);
    GrowInv(t, 0);
    NewClassWords(w1, wp, head, s, home, rec, osize, align, at);
    GrowRep(RecordWords(w1, rec, align, osize, 0, head), wp[rec + 8 := at][rec + 12 := head], rec, t, 0);
  }

  /** The state once the class of a new key has been made and given its first pool. */
  function NewClassState(s: Slabs, osize: int, align: int): Maybe<Slabs>
    requires Served(osize, align) && align > 0
  {
    var r := FindCache(s.caches, RECORD_SIZE, RECORD_ALIGN);
    if r == |s.caches| then None
    else
      match AllocIn(s, r)
      case None => None
      case Some(rec) =>
        var t := AddCache(rec.0, rec.1, AllocPool(s, r), osize, align);
        if PoolIndex(t, osize) == |t.areas| then None else Some(Grow(t, 0))
  }

  /** The record object the new class is made from. */
  lemma RecordObject(s: Slabs, osize: int, align: int)
    requires Inv(s) && Served(osize, align) && FindCache(s.caches, osize, align) == |s.caches|
    ensures var r := FindCache(s.caches, RECORD_SIZE, RECORD_ALIGN);
      && r < |s.caches| && Served(RECORD_SIZE, RECORD_ALIGN) && align > 0
      && (AllocIn(s, r).Some? ==>
            var (t, rec) := AllocIn(s, r).value; var home := AllocPool(s, r);
            && Inv(t) && Out(t, home, rec) && t.pools[home].osize == RECORD_SIZE
            && FindCache(t.caches, osize, align) == |t.caches|
            && (forall x :: Owned(t, x) || InRange(x, rec, RECORD_SIZE) ==> Owned(s, x)))
  {
    RecordClassPresent(s);
    Pow2Positive(align);
    var r := FindCache(s.caches, RECORD_SIZE, RECORD_ALIGN);
    AllocInMeaning(s, r);
    if AllocIn(s, r).Some? {
      var (t, rec) := AllocIn(s, r).value;
      AllocInKeys(s, r);
      AbsentStays(s.caches, t.caches, osize, align);
      forall x | Owned(t, x) || InRange(x, rec, RECORD_SIZE) ensures Owned(s, x) { AllocInOwned(s, r, x); }
    }
  }

  lemma NewClassOwned(s: Slabs, osize: int, align: int, x: int)
    requires Inv(s) && Served(osize, align) && align > 0 && FindCache(s.caches, osize, align) == |s.caches|
    requires NewClassState(s, osize, align).Some? && Owned(NewClassState(s, osize, align).value, x)
    ensures Owned(s, x)
  {
    RecordObject(s, osize, align);
    var r := FindCache(s.caches, RECORD_SIZE, RECORD_ALIGN);
    var (s1, rec) := AllocIn(s, r).value;
    var home := AllocPool(s, r);
    AddCacheInv(s1, rec, home, osize, align);
    GrowOwned(AddCache(s1, rec, home, osize, align), 0, x);
    AddCacheOwned(s1, rec, home, osize, align, x);
  }

  /** The state of a class just made, from the record taken for it. */
  lemma NewClassFrom(s: Slabs, osize: int, align: int)
    requires Served(osize, align) && align > 0
    requires var r := FindCache(s.caches, RECORD_SIZE, RECORD_ALIGN); r < |s.caches| && AllocIn(s, r).Some?
    ensures var r := FindCache(s.caches, RECORD_SIZE, RECORD_ALIGN);
      var (s1, rec) := AllocIn(s, r).value;
      var t := AddCache(s1, rec, AllocPool(s, r), osize, align);
      NewClassState(s, osize, align) == if PoolIndex(t, osize) == |t.areas| then None else Some(Grow(t, 0))
  {
  }

  /** A class at the head of the list, just given its first pool, serves as it would by adding it. */
  lemma HeadClassServes(t: Slabs, osize: int, align: int)
    requires Inv(t) && Served(osize, align) && t.caches != [] && PoolIndex(t, osize) < |t.areas|
    requires t.caches[0].osize == osize && t.caches[0].align == align && t.caches[0].pools == []
    ensures FindCache(Grow(t, 0).caches, osize, align) == 0 < |Grow(t, 0).caches|
    ensures SlbAlloc(Grow(t, 0), osize, align)
         == if AllocIn(t, 0).None? then None else Some((AllocIn(t, 0).value.0, AllocIn(t, 0).value.1, AllocPool(t, 0)))
  {
    AllocAfterGrow(t, 0);
    assert Grow(t, 0).caches[0].osize == osize && Grow(t, 0).caches[0].align == align;
    PresentAlloc(Grow(t, 0), osize, align);
  }

  /** Making the class first and asking again is what SlbAlloc describes. */
  lemma NewClassThenAlloc(s: Slabs, osize: int, align: int)
    requires Inv(s) && Served(osize, align) && align > 0 && FindCache(s.caches, osize, align) == |s.caches|
    ensures NewClassState(s, osize, align).None? ==> SlbAlloc(s, osize, align).None?
    ensures NewClassState(s, osize, align).Some? ==>
      var t := NewClassState(s, osize, align).value;
      FindCache(t.caches, osize, align) == 0 < |t.caches| && SlbAlloc(t, osize, align) == SlbAlloc(s, osize, align)
  {
    RecordObject(s, osize, align);
    var r := FindCache(s.caches, RECORD_SIZE, RECORD_ALIGN);
    if AllocIn(s, r).Some? {
      var (s1, rec) := AllocIn(s, r).value;
      var t := AddCache(s1, rec, AllocPool(s, r), osize, align);
      AddCacheInv(s1, rec, AllocPool(s, r), osize, align);
      AbsentAlloc(s, osize, align);
      NewClassFrom(s, osize, align);
      if PoolIndex(t, osize) < |t.areas| { HeadClassServes(t, osize, align); }
    }
  }

  lemma PresentAlloc(s: Slabs, osize: int, align: int)
    requires Served(osize, align) && FindCache(s.caches, osize, align) < |s.caches|
    ensures var i := FindCache(s.caches, osize, align);
      SlbAlloc(s, osize, align) ==
        if AllocIn(s, i).None? then None else Some((AllocIn(s, i).value.0, AllocIn(s, i).value.1, AllocPool(s, i)))
  {
  }

  lemma AbsentAlloc(s: Slabs, osize: int, align: int)
    requires Served(osize, align) && FindCache(s.caches, osize, align) == |s.caches|
    requires Served(RECORD_SIZE, RECORD_ALIGN)
    requires var r := FindCache(s.caches, RECORD_SIZE, RECORD_ALIGN); r < |s.caches| && AllocIn(s, r).Some?
    ensures var r := FindCache(s.caches, RECORD_SIZE, RECORD_ALIGN);
      var (s1, rec) := AllocIn(s, r).value;
      var t := AddCache(s1, rec, AllocPool(s, r), osize, align);
      SlbAlloc(s, osize, align) ==
        if AllocIn(t, 0).None? then None else Some((AllocIn(t, 0).value.0, AllocIn(t, 0).value.1, AllocPool(t, 0)))
  {
  }

  /** The words a release stores to belong to the allocator afterwards. */
  lemma GivenOwned(t: Slabs, a: int, x: int)
    requires a in t.pools && t.pools[a].free != [] && t.pools[a].free[0] == x && t.pools[a].osize > 0
    ensures Owned(t, a) && Owned(t, a + 8) && Owned(t, x)
  {
    assert InRange(a, a, HEADER_SIZE) && InRange(a + 8, a, HEADER_SIZE);
    assert InHeader(t, a) && InHeader(t, a + 8);
    assert x in t.pools[a].free && InRange(x, x, t.pools[a].osize);
    assert InFree(t, x);
  }

  /** The stores of slb_init after the first pool has been segmented. */
  function BootWords(w: Words, pool: int): Words {
    var rec := Rd(w, pool + 8);
    var w1 := w[pool + 8 := Rd(w, rec)];
    RecordWords(w1, rec, RECORD_ALIGN, RECORD_SIZE, pool, 0)
  }

  lemma {:induction false} BootRep(areas: seq<Area>, w: Words, at: int)
    requires Canonical(areas) && FirstFit(areas, PoolSize(RECORD_SIZE)) < |areas|
    requires at == areas[FirstFit(areas, PoolSize(RECORD_SIZE))].at
    requires PoolAt(w, at, FreshPool(at, RECORD_SIZE, 0)) && Rd(w, at + 12) == 0
    ensures Inv(Boot(areas)) && Rep(BootWords(w, at), Rd(w, at + 8), Boot(areas))
    ensures forall x :: Rd(BootWords(w, at), x) != Rd(w, x) ==> InRange(x, at, PoolSize(RECORD_SIZE))
  {
    BootInv(areas);
    FirstPoolRep(Boot(areas), w, at, SlotsOf(at, RECORD_SIZE, 0));
  }

  /** The words slb_init leaves: the record at rec, the list head moved on, all else as it was. */
  lemma {:induction false} BootReads(w: Words, at: int, rec: int)
    requires rec == Rd(w, at + 8) && rec >= at + HEADER_SIZE
    ensures var w2 := BootWords(w, at);
      && Rd(w2, rec) == RECORD_ALIGN && Rd(w2, rec + 4) == RECORD_SIZE && Rd(w2, rec + 8) == at && Rd(w2, rec + 12) == 0
      && Rd(w2, at + 8) == Rd(w, rec)
      && forall x {:trigger Rd(w2, x)} :: x != at + 8 && !InRange(x, rec, RECORD_SIZE) ==> Rd(w2, x) == Rd(w, x)
  {
  }

  lemma FirstObject(s: Slabs, at: int, slots: seq<int>)
    requires slots != [] && s == BootState(s.areas, at, slots) && Inv(s)
    ensures s.caches[0].rec == Reverse(slots)[0] && s.pools[at].free == Reverse(slots)[1..]
    ensures var rec := Reverse(slots)[0];
      rec >= at + HEADER_SIZE && rec + RECORD_SIZE <= at + PoolSize(RECORD_SIZE)
  {
    RecordInSlot(s, 0);
  }

  /** The free list of the first pool, without the object that became the record. */
  lemma {:induction false} FirstPoolLinks(s: Slabs, w: Words, w2: Words, at: int, slots: seq<int>)
    requires slots != [] && s == BootState(s.areas, at, slots) && Inv(s)
    requires forall k :: 0 <= k < |Reverse(slots)| ==> FreeLink(w, Reverse(slots), k)
    requires forall x :: x != at + 8 && !InRange(x, Reverse(slots)[0], RECORD_SIZE) ==> Rd(w2, x) == Rd(w, x)
    ensures forall k :: 0 <= k < |Reverse(slots)| - 1 ==> FreeLink(w2, Reverse(slots)[1..], k)
  {
    var objs, free := Reverse(slots), Reverse(slots)[1..];
    forall k | 0 <= k < |free| ensures FreeLink(w2, free, k) {
      assert FreeLink(w, objs, k + 1) && free[k] in s.pools[at].free;
      FreeAwayFromRecord(s, at, free[k]);
    }
  }

  lemma {:induction false} FirstPoolRep(s: Slabs, w: Words, at: int, slots: seq<int>)
    requires slots != [] && s == BootState(s.areas, at, slots) && Inv(s)
    requires PoolAt(w, at, Pool(RECORD_SIZE, 0, PoolSize(RECORD_SIZE), 0, slots, Reverse(slots))) && Rd(w, at + 12) == 0
    ensures Rep(BootWords(w, at), Rd(w, at + 8), s)
    ensures forall x :: Rd(BootWords(w, at), x) != Rd(w, x) ==> InRange(x, at, PoolSize(RECORD_SIZE))
  {
    var objs := Reverse(slots);
    var w2 := BootWords(w, at);
    FirstObject(s, at, slots);
    BootReads(w, at, objs[0]);
    assert FreeLink(w, objs, 0);
    FirstPoolLinks(s, w, w2, at, slots);
    FirstPoolHolds(w2, s, at, slots);
  }

  /** The stored words are those of the state. */
  lemma {:induction false} FirstPoolHolds(w: Words, s: Slabs, at: int, slots: seq<int>)
    requires slots != [] && s == BootState(s.areas, at, slots)
    requires Rd(w, at) == 0 && Rd(w, at + 4) == PoolSize(RECORD_SIZE) && Rd(w, at + 12) == 0
    requires Rd(w, at + 8) == IntPtr(Reverse(slots)[1..], 0)
    requires forall k :: 0 <= k < |Reverse(slots)| - 1 ==> FreeLink(w, Reverse(slots)[1..], k)
    requires var rec := Reverse(slots)[0];
      Rd(w, rec) == RECORD_ALIGN && Rd(w, rec + 4) == RECORD_SIZE && Rd(w, rec + 8) == at && Rd(w, rec + 12) == 0
    ensures Rep(w, Reverse(slots)[0], s)
  {
    assert PoolRep(w, s, at) && RecordRep(w, s, 0) && PoolsRep(w, s, 0);
  }

  lemma FreeAwayFromRecord(s: Slabs, at: int, f: int)
    requires Inv(s) && at in s.pools && f in s.pools[at].free && s.caches[0].home == at
    requires s.pools[at].osize == RECORD_SIZE
    ensures f >= at + HEADER_SIZE && !InRange(f, s.caches[0].rec, RECORD_SIZE)
  {
    assert PoolOk(s, at);
    SlotInPool(s, at, f);
    RecordInSlot(s, 0);
    RecordNotFree(s, 0, at, f);
    SlotsApart(s, at, f, s.caches[0].rec);
  }

  /** An allocation hands out memory the allocators owned, and they own no more than before. */
  lemma AllocOwned(s: Slabs, osize: int, align: int, y: int)
    requires Inv(s) && Served(osize, align) && SlbAlloc(s, osize, align).Some?
    requires var (t, x, a) := SlbAlloc(s, osize, align).value; Owned(t, y) || InRange(y, x, osize)
    ensures Owned(s, y)
  {
    var i := FindCache(s.caches, osize, align);
    if i < |s.caches| {
      PresentAlloc(s, osize, align);
      AllocInOwned(s, i, y);
    } else {
      RecordObject(s, osize, align);
      AbsentAlloc(s, osize, align);
      var r := FindCache(s.caches, RECORD_SIZE, RECORD_ALIGN);
      var (s1, rec) := AllocIn(s, r).value;
      var home := AllocPool(s, r);
      AddCacheInv(s1, rec, home, osize, align);
      AllocInOwned(AddCache(s1, rec, home, osize, align), 0, y);
      AddCacheOwned(s1, rec, home, osize, align, y);
    }
  }

  lemma {:induction false} SameRep(w: Words, head: int, s: Slabs, areas: seq<Area>)
    requires Rep(w, head, s)
    ensures Rep(w, head, s.(areas := areas))
  {
    var t := s.(areas := areas);
    forall a | a in t.pools ensures PoolRep(w, t, a) { assert PoolRep(w, s, a); }
    forall i | 0 <= i < |t.caches| ensures RecordRep(w, t, i) { assert RecordRep(w, s, i); }
    forall i | 0 <= i < |t.caches| ensures PoolsRep(w, t, i) { assert PoolsRep(w, s, i); }
  }

  lemma SlabOwnedSame(s: Slabs, areas: seq<Area>, x: int)
    ensures SlabOwned(s.(areas := areas), x) <==> SlabOwned(s, x)
  {
    var t := s.(areas := areas);
    assert InHeader(t, x) <==> InHeader(s, x);
    assert InFree(t, x) <==> InFree(s, x);
    assert InRecord(t, x) <==> InRecord(s, x);
  }

  /** Pages taken were the allocators' and are not any more; nothing else changes hands. */
  lemma TakenFrames(s: Slabs, need: int)
    requires Inv(s) && need > 0 && Aligned(need) && FirstFit(s.areas, need) < |s.areas|
    ensures var k := FirstFit(s.areas, need);
      var t := s.(areas := Carve(s.areas, k, need));
      && (forall x :: InRange(x, s.areas[k].at, need) ==> Owned(s, x) && !Owned(t, x))
      && (forall x :: Owned(t, x) ==> Owned(s, x))
  {
    var k := FirstFit(s.areas, need);
    var at := s.areas[k].at;
    var t := s.(areas := Carve(s.areas, k, need));
    forall x ensures Owned(t, x) ==> Owned(s, x) && !InRange(x, at, need) {
      CarveCover(s.areas, k, need, x);
      SlabOwnedSame(s, t.areas, x);
      if SlabOwned(s, x) { SlabOwnedTaken(s, x); assert InRange(x, at, need) ==> Covers(s.areas, x); }
    }
    assert forall x :: InRange(x, at, need) ==> Covers(s.areas, x);
  }

  class Slb {
    const space: PageSpace
    var slbHead: int
    ghost var st: Slabs

    constructor (space: PageSpace)
      ensures this.space == space && slbHead == 0
    {
      this.space := space;
      slbHead := 0;
    }

    ghost predicate Valid()
      reads this, space, space.ram
    {
      space.Valid() && st.areas == space.areas && Inv(st) && Rep(space.ram.words, slbHead, st)
    }

    /** The first half of pool_alloc: whole pages for a pool. None is the spin of pages_alloc. */
    method TakePages(osize: int) returns (r: Maybe<int>)
      requires space.Valid() && LINK_SIZE <= osize && 10 * osize + 26 + PAGE <= WORD_RANGE
      modifies space, space.ram
      ensures var k := FirstFit(old(space.areas), PoolSize(osize));
        && (r.None? <==> k == |old(space.areas)|)
        && (r.Some? ==>
              && r.value == old(space.areas)[k].at >= KERNEL_BASE
              && space.Valid() && space.areas == Carve(old(space.areas), k, PoolSize(osize)))
      ensures forall x :: space.ram.Load(x) != old(space.ram.Load(x)) ==> Covers(old(space.areas), x)
    {
      var psize := osize * 10 + HEADER_SIZE + 10;
      if psize % PAGE != 0 {
        psize := (psize / PAGE + 1) * PAGE;
      }
      assert psize == PoolSize(osize) && Aligned(psize);
      if FirstFit(space.areas, psize) < |space.areas| {
        PoolRange(space.areas, osize);
      }
      var g := space.PagesAlloc(psize);
      if !g.At? {
        return None;
      }
      return Some(P2V(g.pa));
    }

    /** pool_segm on pages just taken; the page allocator's own words are elsewhere. */
    method SegmentPool(pool: int, osize: int, align: int)
      requires space.Valid() && Served(osize, if align == 0 then RECORD_ALIGN else align) && pool >= KERNEL_BASE
      requires forall x :: Covers(space.areas, x) ==> !InRange(x, pool, PoolSize(osize))
      modifies space.ram
      ensures align >= 0 && space.Valid() && PoolAt(space.ram.words, pool, FreshPool(pool, osize, align))
      ensures space.ram.Load(pool + 12) == 0
      ensures SameOutside(old(space.ram.words), space.ram.words, pool, PoolSize(osize))
    {
      SegmentsFresh(pool, osize, align);
      ghost var w := space.ram.words;
      var ok := PoolSegm(space.ram, pool, PoolSize(osize), osize, align);
      assert ok;
      ChainedFrame(w, space.ram.words, space.head, space.areas);
    }

    /** pool_alloc: the pages, segmented. The branch that gives a pool back because nothing fits
        in it is never taken for served sizes. */
    method PoolAlloc(osize: int, align: int) returns (r: Maybe<int>)
      requires space.Valid() && Served(osize, if align == 0 then RECORD_ALIGN else align)
      modifies space, space.ram
      ensures var k := FirstFit(old(space.areas), PoolSize(osize));
        && (r.None? <==> k == |old(space.areas)|)
        && (r.Some? ==>
              && r.value == old(space.areas)[k].at && align >= 0
              && space.Valid() && space.areas == Carve(old(space.areas), k, PoolSize(osize))
              && PoolAt(space.ram.words, r.value, FreshPool(r.value, osize, align))
              && space.ram.Load(r.value + 12) == 0)
      ensures forall x :: space.ram.Load(x) != old(space.ram.Load(x)) ==> Covers(old(space.areas), x)
    {
      ghost var areas := space.areas;
      Pow2Positive(if align == 0 then RECORD_ALIGN else align);
      r := TakePages(osize);
      if r.Some? {
        PoolRange(areas, osize);
        SegmentPool(r.value, osize, align);
      }
    }

    /** The class search of slb_alloc_align and slb_free_align. */
    method FindRecord(osize: int, align: int) returns (iter: int)
      requires Valid()
      ensures iter == RecPtr(st.caches, FindCache(st.caches, osize, align))
    {
      iter := slbHead;
      ghost var k: int := 0;
      while iter != 0 && !(space.ram.Load(iter) == align && space.ram.Load(iter + 4) == osize)
        invariant 0 <= k <= |st.caches| && iter == RecPtr(st.caches, k)
        invariant forall j :: 0 <= j < k ==> !(st.caches[j].osize == osize && st.caches[j].align == align)
        decreases |st.caches| - k
      {
        assert RecordRep(space.ram.words, st, k);
        iter := space.ram.Load(iter + 12);
        k := k + 1;
      }
      if k < |st.caches| {
        RecordInSlot(st, k);
        assert RecordRep(space.ram.words, st, k);
      }
      assert FindCache(st.caches, osize, align) == k;
    }

    /** The pool search of slb_alloc_align: the first pool with a free object, or null. */
    method FindUsable(iter: int, ghost i: nat) returns (pool: int)
      requires Valid() && i < |st.caches| && iter == st.caches[i].rec
      ensures pool == IntPtr(st.caches[i].pools, FindPool(st.pools, st.caches[i].pools))
    {
      ghost var ps := st.caches[i].pools;
      assert RecordRep(space.ram.words, st, i) && PoolsRep(space.ram.words, st, i) && CacheOk(st, i);
      pool := space.ram.Load(iter + 8);
      ghost var k: int := 0;
      while pool != 0 && space.ram.Load(pool + 8) == 0
        invariant 0 <= k <= |ps| && pool == IntPtr(ps, k)
        invariant forall j :: 0 <= j < k ==> !HasFree(st.pools, ps[j])
        decreases |ps| - k
      {
        UsablePool(ps[k], i);
        assert PoolLink(space.ram.words, ps, k);
        pool := space.ram.Load(pool + 12);
        k := k + 1;
      }
      if k < |ps| { UsablePool(ps[k], i); }
      assert FindPool(st.pools, ps) == k;
    }

    lemma UsablePool(a: int, i: nat)
      requires Valid() && i < |st.caches| && a in st.caches[i].pools
      ensures a in st.pools && a > 0 && (HasFree(st.pools, a) <==> space.ram.Load(a + 8) != 0)
    {
      assert CacheOk(st, i) && InClass(st, i, a);
      assert PoolOk(st, a) && PoolRep(space.ram.words, st, a);
      if st.pools[a].free != [] {
        assert st.pools[a].free[0] in st.pools[a].slots;
        SlotInPool(st, a, st.pools[a].free[0]);
      }
    }

    /** Unlinks the first free object of a pool and counts it. */
    method TakeObject(pool: int) returns (obj: int)
      requires Valid() && HasFree(st.pools, pool)
      modifies this`st, space.ram
      ensures Valid() && st == Pop(old(st), pool) && obj == old(st).pools[pool].free[0]
      ensures forall x :: space.ram.Load(x) != old(space.ram.Load(x)) ==> x == pool || x == pool + 8
    {
      ghost var w := space.ram.words;
      PopRep(w, slbHead, st, pool);
      PopInv(st, pool);
      assert PoolOk(st, pool) && PoolTaken(st, pool);
      obj := space.ram.Load(pool + 8);
      space.ram.Store(pool + 8, space.ram.Load(obj));
      space.ram.Store(pool, space.ram.Load(pool) + 1);
      assert space.ram.words == PopWords(w, pool);
      ChainedFrame(w, space.ram.words, space.head, space.areas);
      st := Pop(st, pool);
    }

    /** The two stores that link a fresh pool in front of class i. */
    method LinkPool(iter: int, pool: int, osize: int, ghost i: nat, ghost w: Words)
      requires Inv(st) && Rep(w, slbHead, st) && i < |st.caches| && iter == st.caches[i].rec
        && osize == st.caches[i].osize
      requires osize > 0 && st.caches[i].align >= 0 && LINK_SIZE <= osize
      requires PoolIndex(st, osize) < |st.areas| && pool == st.areas[PoolIndex(st, osize)].at
      requires space.Valid() && space.areas == Carve(st.areas, PoolIndex(st, osize), PoolSize(osize))
      requires PoolAt(space.ram.words, pool, FreshPool(pool, osize, st.caches[i].align))
      requires forall x :: space.ram.Load(x) != Rd(w, x) ==> Covers(st.areas, x)
      modifies this`st, space.ram
      ensures Valid() && st == Grow(old(st), i)
      ensures forall x :: space.ram.Load(x) != Rd(w, x) ==> Owned(old(st), x)
    {
      ghost var w1 := space.ram.words;
      LinkPoolRep(w, w1, slbHead, st, i, pool);
      LinkPoolOutside(w, w1, st, i, pool);
      space.ram.Store(pool + 12, space.ram.Load(iter + 8));
      space.ram.Store(iter + 8, pool);
      assert space.ram.words == LinkPoolWords(w1, pool, iter);
      ChainedFrame(w1, space.ram.words, space.head, space.areas);
      st := Grow(st, i);
    }

    /** Allocates a pool for class i and links it in front. */
    method AddPool(iter: int, osize: int, align: int, ghost i: nat) returns (r: Maybe<int>)
      requires Valid() && i < |st.caches| && iter == st.caches[i].rec
      requires osize == st.caches[i].osize && align == st.caches[i].align
      modifies this`st, space, space.ram
      ensures osize > 0 && align >= 0
      ensures r.None? <==> PoolIndex(old(st), osize) == |old(st).areas|
      ensures r.Some? ==>
        Valid() && r.value == old(st).areas[PoolIndex(old(st), osize)].at && st == Grow(old(st), i)
      ensures forall x :: space.ram.Load(x) != old(space.ram.Load(x)) ==> Owned(old(st), x)
    {
      assert CacheOk(st, i);
      Pow2Positive(align);
      ghost var w := space.ram.words;
      r := PoolAlloc(osize, align);
      if r.Some? {
        LinkPool(iter, r.value, osize, i, w);
      }
    }

    method AllocFromClass(iter: int, osize: int, align: int, ghost i: nat) returns (r: Maybe<int>)
      requires Valid() && i < |st.caches| && iter == st.caches[i].rec
      requires osize == st.caches[i].osize && align == st.caches[i].align
      modifies this`st, space, space.ram
      ensures Served(osize, align)
      ensures r.Some? <==> FreeObject(old(st), osize, align) || Room(old(st).areas, osize)
      ensures match AllocIn(old(st), i)
        case None => r.None?
        case Some(res) => r == Some(res.1) && st == res.0 && Valid()
      ensures forall x :: space.ram.Load(x) != old(space.ram.Load(x)) ==> Owned(old(st), x)
    {
      assert CacheOk(st, i);
      AllocInExact(st, i);
      ghost var s := st;
      var pool := FindUsable(iter, i);
      if pool == 0 {
        if FindPool(st.pools, st.caches[i].pools) < |st.caches[i].pools| {
          UsablePool(st.caches[i].pools[FindPool(st.pools, st.caches[i].pools)], i);
        }
        if PoolIndex(st, osize) < |st.areas| { GrowPools(st, i); }
        var n := AddPool(iter, osize, align, i);
        if n.None? {
          return None;
        }
        pool := n.value;
      }
      var obj := TakeObject(pool);
      return Some(obj);
    }

    /** slb_alloc_align. The recursion is bounded: the class of records is always there, and the
        second call finds the class just made. */
    method SlbAllocAlign(size: int, alignment: int) returns (r: Maybe<int>)
      requires Valid() && Request(size, alignment)
      modifies this, space, space.ram
      ensures r.Some? <==> CanServe(old(st), Max(size, LINK_SIZE), AlignFor(size, alignment))
      ensures match SlbAlloc(old(st), Max(size, LINK_SIZE), AlignFor(size, alignment))
        case None => r.None?
        case Some(res) => r == Some(res.1) && st == res.0 && Valid()
      ensures forall x :: space.ram.Load(x) != old(space.ram.Load(x)) ==> Owned(old(st), x)
      decreases if FindCache(st.caches, Max(size, LINK_SIZE), AlignFor(size, alignment)) < |st.caches| then 0 else 2
    {
      var align := if alignment == 0 then Min(size, 4) else alignment;
      var osize := Max(size, LINK_SIZE);
      ghost var i := FindCache(st.caches, osize, align);
      SlbAllocExact(st, osize, align);
      var iter := FindRecord(osize, align);
      if i < |st.caches| { RecordInSlot(st, i); }
      if iter != 0 {
        PresentAlloc(st, osize, align);
        r := AllocFromClass(iter, osize, align, i);
        return;
      }
      ghost var s := st;
      r := NewClass(osize, align);
      NewClassThenAlloc(s, osize, align);
      if r.Some? {
        forall x | Owned(st, x) ensures Owned(s, x) { NewClassOwned(s, osize, align, x); }
        r := SlbAllocAlign(osize, align);
      }
    }

    method FillRecord(rec: int, osize: int, align: int, ghost home: int)
      requires Valid() && Out(st, home, rec) && st.pools[home].osize == RECORD_SIZE
      modifies space.ram
      ensures space.ram.words == old(space.ram.words)[rec := align][rec + 4 := osize]
      ensures space.Valid()
    {
      ghost var w := space.ram.words;
      assert InRange(rec, rec, 16) && InRange(rec + 4, rec, 16);
      OutNotOwned(st, home, rec, rec);
      OutNotOwned(st, home, rec, rec + 4);
      space.ram.Store(rec, align);
      space.ram.Store(rec + 4, osize);
      ChainedFrame(w, space.ram.words, space.head, space.areas);
    }

    method LinkClass(rec: int, pool: int, osize: int, align: int, ghost home: int, ghost w1: Words)
      requires Inv(st) && Rep(w1, slbHead, st) && Out(st, home, rec) && st.pools[home].osize == RECORD_SIZE
      requires Served(osize, align) && FindCache(st.caches, osize, align) == |st.caches| && align > 0
      requires PoolIndex(st, osize) < |st.areas| && pool == st.areas[PoolIndex(st, osize)].at
      requires space.Valid() && space.areas == Carve(st.areas, PoolIndex(st, osize), PoolSize(osize))
      requires PoolAt(space.ram.words, pool, FreshPool(pool, osize, align)) && space.ram.Load(pool + 12) == 0
      requires forall x :: space.ram.Load(x) != Rd(w1[rec := align][rec + 4 := osize], x) ==> Covers(st.areas, x)
      modifies this, space.ram
      ensures Valid() && st == Grow(AddCache(old(st), rec, home, osize, align), 0)
      ensures forall x :: space.ram.Load(x) != old(space.ram.Load(x)) ==> InRange(x, rec, RECORD_SIZE)
    {
      ghost var wp := space.ram.words;
      NewClassRep(w1, wp, slbHead, st, home, rec, osize, align, pool);
      PoolRange(st.areas, osize);
      forall x | InRange(x, rec, RECORD_SIZE) ensures !Covers(st.areas, x) { OutNotOwned(st, home, rec, x); }
      space.ram.Store(rec + 8, pool);
      space.ram.Store(rec + 12, slbHead);
      ChainedFrame(wp, space.ram.words, space.head, space.areas);
      slbHead := rec;
      st := Grow(AddCache(st, rec, home, osize, align), 0);
    }

    /** Turns record object rec into a class with one pool at the head of the list. */
    method MakeClass(rec: int, osize: int, align: int, ghost home: int) returns (r: Maybe<int>)
      requires Valid() && Out(st, home, rec) && st.pools[home].osize == RECORD_SIZE
      requires Served(osize, align) && FindCache(st.caches, osize, align) == |st.caches| && align > 0
      modifies this, space, space.ram
      ensures r.None? <==> PoolIndex(old(st), osize) == |old(st).areas|
      ensures r.Some? ==> Valid() && st == Grow(AddCache(old(st), rec, home, osize, align), 0)
      ensures forall x :: space.ram.Load(x) != old(space.ram.Load(x)) ==>
        InRange(x, rec, RECORD_SIZE) || Covers(old(st).areas, x)
    {
      ghost var w1 := space.ram.words;
      FillRecord(rec, osize, align, home);
      r := PoolAlloc(osize, align);
      if r.Some? {
        LinkClass(rec, r.value, osize, align, home, w1);
      }
    }

    /** The record just taken becomes the class. */
    method BuildClass(rec: int, osize: int, align: int, ghost s: Slabs) returns (r: Maybe<int>)
      requires Valid() && Inv(s) && Served(osize, align) && align > 0 && FindCache(s.caches, osize, align) == |s.caches|
      requires Served(RECORD_SIZE, RECORD_ALIGN)
      requires var i := FindCache(s.caches, RECORD_SIZE, RECORD_ALIGN);
        i < |s.caches| && AllocIn(s, i) == Some((st, rec))
      modifies this, space, space.ram
      ensures match NewClassState(s, osize, align)
        case None => r.None?
        case Some(t) => r.Some? && st == t && Valid()
      ensures forall x :: space.ram.Load(x) != old(space.ram.Load(x)) ==> Owned(s, x)
    {
      RecordObject(s, osize, align);
      NewClassFrom(s, osize, align);
      r := MakeClass(rec, osize, align, AllocPool(s, FindCache(s.caches, RECORD_SIZE, RECORD_ALIGN)));
    }

    /** The part of slb_alloc_align for a new key: a record from the class of records, and the
        class made of it. */
    method NewClass(osize: int, align: int) returns (r: Maybe<int>)
      requires Valid() && Served(osize, align) && FindCache(st.caches, osize, align) == |st.caches|
      modifies this, space, space.ram
      ensures align > 0
      ensures match NewClassState(old(st), osize, align)
        case None => r.None?
        case Some(t) => r.Some? && st == t && Valid()
      ensures forall x :: space.ram.Load(x) != old(space.ram.Load(x)) ==> Owned(old(st), x)
      decreases 1
    {
      ghost var s := st;
      Pow2Positive(align);
      RecordClassPresent(s);
      PresentAlloc(s, RECORD_SIZE, RECORD_ALIGN);
      var rec := SlbAllocAlign(RECORD_SIZE, 0);
      if rec.None? {
        return None;
      }
      r := BuildClass(rec.value, osize, align, s);
    }

    // ---------- release ----------

    /** The pool search of slb_free_align: the first pool whose range holds p, or null. */
    method FindOwner(iter: int, p: int, ghost i: nat) returns (pool: int)
      requires Valid() && i < |st.caches| && iter == st.caches[i].rec
      ensures pool == IntPtr(st.caches[i].pools, FindHome(st.pools, st.caches[i].pools, p))
    {
      ghost var ps := st.caches[i].pools;
      assert RecordRep(space.ram.words, st, i) && PoolsRep(space.ram.words, st, i);
      pool := space.ram.Load(iter + 8);
      ghost var k: int := 0;
      while pool != 0 && !(pool <= p && pool + space.ram.Load(pool + 4) > p)
        invariant 0 <= k <= |ps| && pool == IntPtr(ps, k)
        invariant forall j :: 0 <= j < k ==> !Contains(st.pools, ps[j], p)
        decreases |ps| - k
      {
        PoolSizeStored(ps[k], i);
        assert PoolLink(space.ram.words, ps, k);
        pool := space.ram.Load(pool + 12);
        k := k + 1;
      }
      if k < |ps| { PoolSizeStored(ps[k], i); }
      assert FindHome(st.pools, ps, p) == k;
    }

    lemma PoolSizeStored(a: int, i: nat)
      requires Valid() && i < |st.caches| && a in st.caches[i].pools
      ensures a in st.pools && a > 0 && space.ram.Load(a + 4) == st.pools[a].size
    {
      assert CacheOk(st, i) && InClass(st, i, a);
      assert PoolOk(st, a) && PoolRep(space.ram.words, st, a);
    }

    /** Links object p in front of the pool's free list and uncounts it. */
    method GiveObject(pool: int, p: int)
      requires Valid() && Out(st, pool, p)
      modifies this`st, space.ram
      ensures Valid() && st == Push(old(st), pool, p)
      ensures forall x :: space.ram.Load(x) != old(space.ram.Load(x)) ==> x == pool || x == pool + 8 || x == p
    {
      ghost var w := space.ram.words;
      PushRep(w, slbHead, st, pool, p);
      PushInv(st, pool, p);
      assert PoolOk(st, pool) && PoolTaken(st, pool);
      SlotInPool(st, pool, p);
      space.ram.Store(p, space.ram.Load(pool + 8));
      space.ram.Store(pool + 8, p);
      space.ram.Store(pool, space.ram.Load(pool) - 1);
      assert space.ram.words == PushWords(w, pool, p);
      ChainedFrame(w, space.ram.words, space.head, space.areas);
      st := Push(st, pool, p);
    }

    /** slb_free_align. A caller who hits a pool of the class must be giving back an object it
        holds; anything else is refused with code 1. */
    method SlbFreeAlign(p: int, size: int, alignment: int) returns (code: int)
      requires Valid()
      requires FreeTarget(st, p, size, alignment).Some? ==> Out(st, FreeTarget(st, p, size, alignment).value, p)
      modifies this`st, space.ram
      ensures Valid() && (st, code) == SlbFree(old(st), p, size, alignment)
      ensures code != 0 ==> space.ram.words == old(space.ram.words)
      ensures forall x :: space.ram.Load(x) != old(space.ram.Load(x)) ==> Owned(st, x)
    {
      var align := if alignment == 0 && size <= 4 then size else alignment;
      ghost var i := FindCache(st.caches, size, align);
      var iter := FindRecord(size, align);
      if i < |st.caches| { RecordInSlot(st, i); }
      if iter == 0 {
        return 1;
      }
      var pool := FindOwner(iter, p, i);
      ghost var ps := st.caches[i].pools;
      if FindHome(st.pools, ps, p) < |ps| { PoolSizeStored(ps[FindHome(st.pools, ps, p)], i); }
      if pool == 0 {
        return 1;
      }
      SlotInPool(st, pool, p);
      GiveObject(pool, p);
      GivenOwned(st, pool, p);
      return 0;
    }

    // ---------- pages for others ----------

    /** pages_alloc called directly, for memory that does not go through the slab. */
    method TakeFrames(need: int) returns (r: Maybe<int>)
      requires Valid() && 0 < need < WORD_RANGE && Aligned(need)
      modifies this`st, space, space.ram
      ensures r.None? <==> FirstFit(old(st).areas, need) == |old(st).areas|
      ensures r.Some? ==>
        var k := FirstFit(old(st).areas, need);
        && Valid() && st == old(st).(areas := Carve(old(st).areas, k, need))
        && r.value == old(st).areas[k].at >= KERNEL_BASE && r.value % PAGE == 0 && r.value + need < WORD_RANGE
        && (forall x :: InRange(x, r.value, need) ==> Owned(old(st), x) && !Owned(st, x))
        && (forall x :: Owned(st, x) ==> Owned(old(st), x))
      ensures forall x :: space.ram.Load(x) != old(space.ram.Load(x)) ==> Owned(old(st), x)
    {
      ghost var w, s, k := space.ram.words, st, FirstFit(st.areas, need);
      if k < |st.areas| {
        assert WellPlaced(st.areas[k]);
        TakePagesInv(s, need);
      }
      var g := space.PagesAlloc(need);
      if !g.At? {
        return None;
      }
      TakenFrames(s, need);
      forall x | SlabOwned(s, x) ensures Rd(space.ram.words, x) == Rd(w, x) { SlabOwnedTaken(s, x); }
      RepFrame(w, space.ram.words, slbHead, s);
      st := st.(areas := space.areas);
      SameRep(space.ram.words, slbHead, s, st.areas);
      return Some(P2V(g.pa));
    }

    // ---------- start-up ----------

    /** The stores of slb_init. */
    method BootStores(pool: int) returns (rec: int)
      modifies space.ram
      ensures rec == old(space.ram.Load(pool + 8)) && space.ram.words == BootWords(old(space.ram.words), pool)
    {
      rec := space.ram.Load(pool + 8);
      space.ram.Store(pool + 8, space.ram.Load(rec));
      space.ram.Store(rec, RECORD_ALIGN);
      space.ram.Store(rec + 4, RECORD_SIZE);
      space.ram.Store(rec + 8, pool);
      space.ram.Store(rec + 12, 0);
    }

    /** The first object of the first pool becomes the first record. */
    method FirstRecord(pool: int, ghost areas: seq<Area>)
      requires Canonical(areas) && FirstFit(areas, PoolSize(RECORD_SIZE)) < |areas|
      requires pool == areas[FirstFit(areas, PoolSize(RECORD_SIZE))].at
      requires space.Valid()
        && space.areas == Carve(areas, FirstFit(areas, PoolSize(RECORD_SIZE)), PoolSize(RECORD_SIZE))
      requires PoolAt(space.ram.words, pool, FreshPool(pool, RECORD_SIZE, 0)) && space.ram.Load(pool + 12) == 0
      modifies this, space.ram
      ensures Valid() && st == Boot(areas)
      ensures forall x :: space.ram.Load(x) != old(space.ram.Load(x)) ==> Covers(areas, x)
    {
      ghost var wp := space.ram.words;
      BootRep(areas, wp, pool);
      slbHead := BootStores(pool);
      PoolRange(areas, RECORD_SIZE);
      ChainedFrame(wp, space.ram.words, space.head, space.areas);
      st := Boot(areas);
    }

    /** slb_init: 0 on success; false here when pages_alloc would spin. */
    method SlbInit() returns (ok: bool)
      requires space.Valid()
      modifies this, space, space.ram
      ensures ok <==> FirstFit(old(space.areas), PoolSize(RECORD_SIZE)) < |old(space.areas)|
      ensures ok ==> Valid() && st == Boot(old(space.areas))
      ensures forall x :: space.ram.Load(x) != old(space.ram.Load(x)) ==> Covers(old(space.areas), x)
    {
      ghost var areas := space.areas;
      slbHead := 0;
      var init := PoolAlloc(RECORD_SIZE, 0);
      if init.None? {
        return false;
      }
      FirstRecord(init.value, areas);
      return true;
    }
  }

  /** A store to a word that is not the allocators' leaves them as they are. */
  method ClientWord(slb: Slb, x: int, v: int)
    requires slb.Valid() && !Owned(slb.st, x)
    modifies slb.space.ram
    ensures slb.Valid() && slb.space.ram.words == old(slb.space.ram.words)[x := v]
  {
    ghost var w := slb.space.ram.words;
    slb.space.ram.Store(x, v);
    ClientStore(w, slb.space.ram.words, slb.slbHead, slb.st);
    ChainedFrame(w, slb.space.ram.words, slb.space.head, slb.space.areas);
  }
}
