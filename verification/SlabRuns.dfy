/** The slab allocator over whole runs: its invariant, what allocation and release do to the
    outstanding objects, and the separation of everything it manages. */
module SlabRuns {
  import opened Basics
  import opened Machine
  import opened Pages
  import opened Slab

  // ---------- each step keeps the invariant ----------

  lemma PopInv(s: Slabs, a: int)
    requires Inv(s) && HasFree(s.pools, a)
    ensures Inv(Pop(s, a))
  {
    var t := Pop(s, a);
    assert PoolOk(s, a) && PoolTaken(s, a);
    forall b | b in t.pools ensures PoolOk(t, b) { assert PoolOk(s, b); }
    forall b | b in t.pools ensures PoolTaken(t, b) { assert PoolTaken(s, b); }
    forall b, c | b in t.pools && c in t.pools && b != c ensures PoolsApart(t, b, c) { assert PoolsApart(s, b, c); }
    forall i | 0 <= i < |t.caches| ensures CacheOk(t, i) {
      assert CacheOk(s, i);
      forall b | b in t.caches[i].pools ensures InClass(t, i, b) { assert InClass(s, i, b); }
    }
    forall i, j | 0 <= i < j < |t.caches| ensures CachesApart(t, i, j) { assert CachesApart(s, i, j); }
    forall b | b in t.pools ensures Listed(t, b) { assert Listed(s, b); }
  }

  ghost predicate IsRecord(s: Slabs, x: int) {
    exists i :: 0 <= i < |s.caches| && s.caches[i].rec == x
  }

  /** Object x of pool a is in the hands of a caller. */
  ghost predicate Out(s: Slabs, a: int, x: int) {
    a in s.pools && x in s.pools[a].slots && x !in s.pools[a].free && !IsRecord(s, x)
  }

  lemma PushInv(s: Slabs, a: int, x: int)
    requires Inv(s) && Out(s, a, x)
    ensures Inv(Push(s, a, x))
  {
    var t := Push(s, a, x);
    assert PoolOk(s, a);
    InuseCountsOthers(s, a, x);
    forall b | b in t.pools ensures PoolOk(t, b) { assert PoolOk(s, b); }
    forall b | b in t.pools ensures PoolTaken(t, b) { assert PoolTaken(s, b); }
    forall b, c | b in t.pools && c in t.pools && b != c ensures PoolsApart(t, b, c) { assert PoolsApart(s, b, c); }
    forall i | 0 <= i < |t.caches| ensures CacheOk(t, i) {
      assert CacheOk(s, i);
      forall b | b in t.caches[i].pools ensures InClass(t, i, b) { assert InClass(s, i, b); }
    }
    forall i, j | 0 <= i < j < |t.caches| ensures CachesApart(t, i, j) { assert CachesApart(s, i, j); }
    forall b | b in t.pools ensures Listed(t, b) { assert Listed(s, b); }
  }

  function SetOf(xs: seq<int>): set<int> { set x | x in xs }

  lemma {:induction false} DistinctCount(xs: seq<int>)
    requires DistinctInts(xs)
    ensures |SetOf(xs)| == |xs|
  {
    if xs == [] {
    } else {
      DistinctCount(xs[1..]);
      assert SetOf(xs) == {xs[0]} + SetOf(xs[1..]);
    }
  }

  lemma FreshDistinct(a: int, osize: int, align: int)
    requires osize > 0 && align >= 0
    ensures DistinctInts(SlotsOf(a, osize, align))
  {
    var slots := SlotsOf(a, osize, align);
    SlotsSpread(FirstSlot(a, align), a + PoolSize(osize), osize, align);
    forall k, l | 0 <= k < l < |slots| ensures slots[k] != slots[l] {
      assert SlotBefore(slots, osize, k, l);
    }
  }

  /** The count of a pool with an outstanding object is positive: cnt_inuse never wraps. */
  lemma InuseCountsOthers(s: Slabs, a: int, x: int)
    requires Inv(s) && Out(s, a, x)
    ensures s.pools[a].inuse >= 1
  {
    var p := s.pools[a];
    assert PoolOk(s, a);
    var last := |s.caches| - 1;
    assert CacheOk(s, last);
    var boot := s.caches[last].rec;
    Pow2Positive(p.align);
    FreshDistinct(a, p.osize, p.align);
    DistinctCount(p.slots);
    DistinctCount(p.free);
    if a == s.boot {
      SubsetSize(SetOf(p.free) + {x} + {boot}, SetOf(p.slots));
    } else {
      SubsetSize(SetOf(p.free) + {x}, SetOf(p.slots));
    }
  }

  /** The range the page allocator hands over for a pool. */
  lemma CarvedRange(s: Slabs, osize: int)
    requires PoolsInv(s) && LINK_SIZE <= osize && PoolIndex(s, osize) < |s.areas|
    ensures var k := PoolIndex(s, osize); var at := s.areas[k].at;
      && Canonical(Carve(s.areas, k, PoolSize(osize)))
      && KERNEL_BASE <= at && Aligned(at) && at + PoolSize(osize) < WORD_RANGE
      && Aligned(PoolSize(osize)) && PoolSize(osize) > 0
      && (forall b :: at <= b < at + PoolSize(osize) ==> Covers(s.areas, b))
      && (forall b :: Covers(Carve(s.areas, k, PoolSize(osize)), b) <==>
            Covers(s.areas, b) && !(at <= b < at + PoolSize(osize)))
  {
    var k := PoolIndex(s, osize);
    var at := s.areas[k].at;
    assert WellPlaced(s.areas[k]);
    CarveCanonical(s.areas, k, PoolSize(osize));
    forall b ensures Covers(Carve(s.areas, k, PoolSize(osize)), b) <==>
                     Covers(s.areas, b) && !(at <= b < at + PoolSize(osize)) {
      CarveCover(s.areas, k, PoolSize(osize), b);
    }
    assert forall b :: at <= b < at + PoolSize(osize) ==> Covers(s.areas, b);
  }

  lemma GrowPools(s: Slabs, i: nat)
    requires Inv(s) && i < |s.caches| && PoolIndex(s, s.caches[i].osize) < |s.areas|
    ensures s.caches[i].osize > 0 && s.caches[i].align >= 0
    ensures var at := s.areas[PoolIndex(s, s.caches[i].osize)].at;
      at !in s.pools && at != s.boot && HasFree(Grow(s, i).pools, at)
    ensures PoolsInv(Grow(s, i))
  {
    assert CacheOk(s, i);
    var c := s.caches[i];
    Pow2Positive(c.align);
    CarvedRange(s, c.osize);
    var at := s.areas[PoolIndex(s, c.osize)].at;
    var t := Grow(s, i);
    FreshPoolUsable(at, c.osize, c.align);
    assert CacheOk(s, |s.caches| - 1);
    forall b | b in s.pools ensures b != at && (at + PoolSize(c.osize) <= b || b + s.pools[b].size <= at) {
      assert PoolOk(s, b) && PoolTaken(s, b);
      assert Covers(s.areas, at) && (at <= b < at + PoolSize(c.osize) ==> Covers(s.areas, b));
    }
    forall b | b in t.pools ensures PoolOk(t, b) {
      if b == at { FreshPoolOk(t, at, c.osize, c.align); } else { assert PoolOk(s, b); }
    }
    forall b | b in t.pools ensures PoolTaken(t, b) { assert b != at ==> PoolTaken(s, b); }
    forall b, d | b in t.pools && d in t.pools && b != d ensures PoolsApart(t, b, d) {
      assert b != at && d != at ==> PoolsApart(s, b, d);
    }
  }

  lemma FreshPoolOk(s: Slabs, at: int, osize: int, align: int)
    requires at in s.pools && Served(osize, align) && align >= 0 && at != s.boot
    requires s.pools[at] == FreshPool(at, osize, align)
    requires KERNEL_BASE <= at && Aligned(at) && at + PoolSize(osize) < WORD_RANGE
    ensures PoolOk(s, at)
  {
    FreshDistinct(at, osize, align);
    ReverseDistinct(s.pools[at].slots);
  }

  lemma GrowInv(s: Slabs, i: nat)
    requires Inv(s) && i < |s.caches| && PoolIndex(s, s.caches[i].osize) < |s.areas|
    ensures s.caches[i].osize > 0 && s.caches[i].align >= 0 && Inv(Grow(s, i))
  {
    GrowPools(s, i);
    var t := Grow(s, i);
    var at := s.areas[PoolIndex(s, s.caches[i].osize)].at;
    forall j | 0 <= j < |t.caches| ensures CacheOk(t, j) {
      assert CacheOk(s, j);
      forall b | b in t.caches[j].pools ensures InClass(t, j, b) {
        assert b != at ==> InClass(s, j, b);
      }
      var ps := s.caches[j].pools;
      forall k | 0 <= k < |ps| ensures ps[k] != at { assert InClass(s, j, ps[k]); }
      assert DistinctInts(t.caches[j].pools);
    }
    forall j, k | 0 <= j < k < |t.caches| ensures CachesApart(t, j, k) { assert CachesApart(s, j, k); }
    forall b | b in t.pools ensures Listed(t, b) {
      if b == at {
        assert at in t.caches[i].pools;
      } else {
        assert Listed(s, b);
        var j :| 0 <= j < |s.caches| && b in s.caches[j].pools;
        assert b in t.caches[j].pools;
      }
    }
  }

  lemma AddCacheInv(s: Slabs, rec: int, home: int, osize: int, align: int)
    requires Inv(s) && Served(osize, align) && Out(s, home, rec) && s.pools[home].osize == RECORD_SIZE
    requires FindCache(s.caches, osize, align) == |s.caches|
    ensures Inv(AddCache(s, rec, home, osize, align))
  {
    var t := AddCache(s, rec, home, osize, align);
    forall b | b in t.pools ensures PoolOk(t, b) { assert PoolOk(s, b); }
    forall b | b in t.pools ensures PoolTaken(t, b) { assert PoolTaken(s, b); }
    forall b, c | b in t.pools && c in t.pools && b != c ensures PoolsApart(t, b, c) { assert PoolsApart(s, b, c); }
    AddCacheCaches(s, rec, home, osize, align);
    forall b | b in t.pools ensures Listed(t, b) {
      assert Listed(s, b);
      var j :| 0 <= j < |s.caches| && b in s.caches[j].pools;
      assert b in t.caches[j + 1].pools;
    }
  }

  lemma AddCacheCaches(s: Slabs, rec: int, home: int, osize: int, align: int)
    requires Inv(s) && Served(osize, align) && Out(s, home, rec) && s.pools[home].osize == RECORD_SIZE
    requires FindCache(s.caches, osize, align) == |s.caches|
    ensures
      var t := AddCache(s, rec, home, osize, align);
      && (forall j :: 0 <= j < |t.caches| ==> CacheOk(t, j))
      && (forall j, k :: 0 <= j < k < |t.caches| ==> CachesApart(t, j, k))
  {
    var t := AddCache(s, rec, home, osize, align);
    forall j | 0 <= j < |t.caches| ensures CacheOk(t, j) {
      if j > 0 {
        assert CacheOk(s, j - 1);
        forall b | b in t.caches[j].pools ensures InClass(t, j, b) { assert InClass(s, j - 1, b); }
      }
    }
    forall j, k | 0 <= j < k < |t.caches| ensures CachesApart(t, j, k) {
      if j == 0 {
        assert s.caches[k - 1].rec != rec;
      } else {
        assert CachesApart(s, j - 1, k - 1);
      }
    }
  }

  // ---------- allocation ----------

  lemma FindFirstCache(s: Slabs, i: nat)
    requires CachesInv(s) && i < |s.caches|
    ensures FindCache(s.caches, s.caches[i].osize, s.caches[i].align) == i
  {
    var c := s.caches[i];
    var j: int := FindCache(s.caches, c.osize, c.align);
    assert j < i ==> CachesApart(s, j, i);
    assert j <= i;
  }

  /** The class of class records is always there, so asking it for a record never needs a new
      class: that is why the recursion in slb_alloc_align is two calls deep at most. */
  lemma RecordClassPresent(s: Slabs)
    requires Inv(s)
    ensures FindCache(s.caches, RECORD_SIZE, RECORD_ALIGN) < |s.caches|
    ensures Served(RECORD_SIZE, RECORD_ALIGN)
  {
    FindFirstCache(s, |s.caches| - 1);
    assert CacheOk(s, |s.caches| - 1);
  }

  /** What an allocation does to the state: none when pages_alloc would spin, else the new
      state, the object and the pool it came from. */
  function SlbAlloc(s: Slabs, osize: int, align: int): Maybe<(Slabs, int, int)>
    requires Served(osize, align)
  {
    var i := FindCache(s.caches, osize, align);
    if i < |s.caches| then
      match AllocIn(s, i)
      case None => None
      case Some(r) => Some((r.0, r.1, AllocPool(s, i)))
    else
      var r := FindCache(s.caches, RECORD_SIZE, RECORD_ALIGN);
      if r == |s.caches| then None
      else
        match AllocIn(s, r)
        case None => None
        case Some(rec) =>
          var s1 := AddCache(rec.0, rec.1, AllocPool(s, r), osize, align);
          match AllocIn(s1, 0)
          case None => None
          case Some(obj) => Some((obj.0, obj.1, AllocPool(s1, 0)))
  }

  /** t has exactly one outstanding object more than s: x of pool a. */
  ghost predicate Gains(s: Slabs, t: Slabs, a: int, x: int) {
    && Out(t, a, x) && !Out(s, a, x)
    && forall b, y :: Out(t, b, y) <==> Out(s, b, y) || (b == a && y == x)
  }

  lemma PopGains(s: Slabs, a: int)
    requires Inv(s) && HasFree(s.pools, a)
    ensures Gains(s, Pop(s, a), a, s.pools[a].free[0])
  {
    var p, t := s.pools[a], Pop(s, a);
    var x := p.free[0];
    assert PoolOk(s, a);
    assert forall k :: 1 <= k < |p.free| ==> p.free[k] != x;
    forall i | 0 <= i < |s.caches| ensures s.caches[i].rec != x {
      RecordNotFree(s, i, a, x);
    }
    assert x !in p.free[1..];
    forall b, y ensures Out(t, b, y) <==> Out(s, b, y) || (b == a && y == x) {
      if b == a { assert y in p.free <==> y == x || y in p.free[1..]; }
    }
  }

  /** Equal addresses are the same object of the same pool. */
  lemma SamePool(s: Slabs, a: int, x: int, b: int, y: int)
    requires PoolsInv(s) && a in s.pools && b in s.pools && x in s.pools[a].slots && y in s.pools[b].slots
    requires x < y + 4 && y < x + 4
    ensures a == b && x == y
  {
    SlotInPool(s, a, x);
    SlotInPool(s, b, y);
    assert a != b ==> PoolsApart(s, a, b);
    SlotsApart(s, a, x, if a == b then y else x);
  }

  lemma SlotInPool(s: Slabs, a: int, x: int)
    requires PoolsInv(s) && a in s.pools && x in s.pools[a].slots
    ensures var p := s.pools[a];
      && p.osize >= LINK_SIZE
      && a + HEADER_SIZE <= x && x + p.osize <= a + p.size && OnAlign(x, p.align) && p.align > 0
  {
    var p := s.pools[a];
    assert PoolOk(s, a);
    Pow2Positive(p.align);
    FirstSlotAligned(a, p.align);
    SlotsSpread(FirstSlot(a, p.align), a + p.size, p.osize, p.align);
    var k :| 0 <= k < |p.slots| && p.slots[k] == x;
    assert SlotFits(p.slots[k], FirstSlot(a, p.align), a + p.size, p.osize, p.align);
  }

  lemma SlotsApart(s: Slabs, a: int, x: int, y: int)
    requires PoolsInv(s) && a in s.pools && x in s.pools[a].slots && y in s.pools[a].slots
    ensures x == y || x + s.pools[a].osize <= y || y + s.pools[a].osize <= x
  {
    var p := s.pools[a];
    assert PoolOk(s, a);
    SlotsSpread(FirstSlot(a, p.align), a + p.size, p.osize, p.align);
    SpreadApart(p.slots, FirstSlot(a, p.align), a + p.size, p.osize, p.align, x, y);
  }

  lemma SpreadApart(slots: seq<int>, lo: int, hi: int, osize: int, align: int, x: int, y: int)
    requires Spread(slots, lo, hi, osize, align) && x in slots && y in slots
    ensures x == y || Apart(x, osize, y, osize)
  {
    var k :| 0 <= k < |slots| && slots[k] == x;
    var l :| 0 <= l < |slots| && slots[l] == y;
    assert k < l ==> SlotBefore(slots, osize, k, l);
    assert l < k ==> SlotBefore(slots, osize, l, k);
  }

  lemma RecordNotFree(s: Slabs, i: nat, a: int, x: int)
    requires Inv(s) && i < |s.caches| && a in s.pools && x in s.pools[a].free
    ensures s.caches[i].rec != x
  {
    assert CacheOk(s, i) && PoolOk(s, a);
    var c := s.caches[i];
    if c.rec == x { SamePool(s, c.home, c.rec, a, x); }
  }

  lemma GrowKeepsOut(s: Slabs, i: nat)
    requires Inv(s) && i < |s.caches| && PoolIndex(s, s.caches[i].osize) < |s.areas|
    requires s.caches[i].osize > 0 && s.caches[i].align >= 0
    ensures forall b, y :: Out(Grow(s, i), b, y) <==> Out(s, b, y)
  {
    GrowPools(s, i);
    var t := Grow(s, i);
    var at := s.areas[PoolIndex(s, s.caches[i].osize)].at;
    forall y ensures IsRecord(t, y) <==> IsRecord(s, y) {
      if IsRecord(s, y) {
        var j :| 0 <= j < |s.caches| && s.caches[j].rec == y;
        assert t.caches[j].rec == y;
      }
      if IsRecord(t, y) {
        var j :| 0 <= j < |t.caches| && t.caches[j].rec == y;
        assert s.caches[j].rec == y;
      }
    }
    assert forall y :: y in t.pools[at].slots ==> y in t.pools[at].free;
  }

  lemma AllocInMeaning(s: Slabs, i: nat)
    requires Inv(s) && i < |s.caches|
    ensures Served(s.caches[i].osize, s.caches[i].align)
    ensures AllocIn(s, i).Some? ==>
      var (t, x) := AllocIn(s, i).value; var a := AllocPool(s, i); var c := s.caches[i];
      && Inv(t) && Gains(s, t, a, x)
      && t.pools[a].osize == c.osize && t.pools[a].align == c.align
      && |t.caches| == |s.caches|
  {
    assert CacheOk(s, i);
    var c := s.caches[i];
    var j := FindPool(s.pools, c.pools);
    if j < |c.pools| {
      assert InClass(s, i, c.pools[j]);
      PopInv(s, c.pools[j]);
      PopGains(s, c.pools[j]);
    } else if PoolIndex(s, c.osize) < |s.areas| {
      GrowInv(s, i);
      GrowPools(s, i);
      GrowKeepsOut(s, i);
      var at := s.areas[PoolIndex(s, c.osize)].at;
      PopInv(Grow(s, i), at);
      PopGains(Grow(s, i), at);
    }
  }

  /** A successful allocation keeps the invariant and adds exactly one outstanding object, of
      the size and alignment asked for. */
  lemma AllocMeaning(s: Slabs, osize: int, align: int)
    requires Inv(s) && Served(osize, align) && SlbAlloc(s, osize, align).Some?
    ensures var (t, x, a) := SlbAlloc(s, osize, align).value;
      Inv(t) && Gains(s, t, a, x) && t.pools[a].osize == osize && t.pools[a].align == align
  {
    RecordClassPresent(s);
    var i := FindCache(s.caches, osize, align);
    if i < |s.caches| {
      AllocInMeaning(s, i);
    } else {
      var r := FindCache(s.caches, RECORD_SIZE, RECORD_ALIGN);
      AllocInMeaning(s, r);
      var (s1, rec) := AllocIn(s, r).value;
      var home := AllocPool(s, r);
      AllocInKeys(s, r);
      AbsentStays(s.caches, s1.caches, osize, align);
      AddCacheInv(s1, rec, home, osize, align);
      var s2 := AddCache(s1, rec, home, osize, align);
      AddCacheOut(s1, rec, home, osize, align);
      AllocInMeaning(s2, 0);
      GainsAfterRecord(s, s1, s2, home, rec);
    }
  }

  ghost predicate SameKeys(cs: seq<Cache>, ds: seq<Cache>) {
    |cs| == |ds| && forall i :: 0 <= i < |cs| ==> cs[i].osize == ds[i].osize && cs[i].align == ds[i].align
  }

  lemma AllocInKeys(s: Slabs, i: nat)
    requires i < |s.caches| && Served(s.caches[i].osize, s.caches[i].align) && AllocIn(s, i).Some?
    ensures SameKeys(s.caches, AllocIn(s, i).value.0.caches)
  {
  }

  lemma {:induction false} AbsentStays(cs: seq<Cache>, ds: seq<Cache>, osize: int, align: int)
    requires SameKeys(cs, ds) && FindCache(cs, osize, align) == |cs|
    ensures FindCache(ds, osize, align) == |ds|
  {
    if cs == [] {
    } else {
      forall i | 0 <= i < |cs| - 1
        ensures cs[1..][i].osize == ds[1..][i].osize && cs[1..][i].align == ds[1..][i].align
      {
        assert cs[i + 1].osize == ds[i + 1].osize;
      }
      AbsentStays(cs[1..], ds[1..], osize, align);
    }
  }

  lemma AddCacheOut(s: Slabs, rec: int, home: int, osize: int, align: int)
    ensures forall y :: IsRecord(AddCache(s, rec, home, osize, align), y) <==> IsRecord(s, y) || y == rec
  {
    var t := AddCache(s, rec, home, osize, align);
    forall y ensures IsRecord(t, y) <==> IsRecord(s, y) || y == rec {
      if IsRecord(s, y) {
        var i :| 0 <= i < |s.caches| && s.caches[i].rec == y;
        assert t.caches[i + 1].rec == y;
      }
      if y == rec { assert t.caches[0].rec == y; }
      if IsRecord(t, y) {
        var i :| 0 <= i < |t.caches| && t.caches[i].rec == y;
        assert i > 0 ==> s.caches[i - 1].rec == y;
      }
    }
  }

  /** The object taken for the new record is nobody's: the outstanding objects are as before. */
  lemma GainsAfterRecord(s: Slabs, s1: Slabs, s2: Slabs, home: int, rec: int)
    requires PoolsInv(s1) && Gains(s, s1, home, rec) && s2.pools == s1.pools
    requires forall y :: IsRecord(s2, y) <==> IsRecord(s1, y) || y == rec
    ensures forall b, y :: Out(s2, b, y) <==> Out(s, b, y)
  {
    forall b, y ensures Out(s2, b, y) <==> Out(s, b, y) {
      if y == rec && Out(s1, b, y) { SamePool(s1, b, y, home, rec); }
    }
  }

  // ---------- release ----------

  predicate Contains(pools: map<int, Pool>, a: int, x: int) {
    a in pools && a <= x < a + pools[a].size
  }

  /** The first pool of the list whose range holds x, or |ps|. */
  function FindHome(pools: map<int, Pool>, ps: seq<int>, x: int): (j: nat)
    ensures j <= |ps|
    ensures j < |ps| ==> Contains(pools, ps[j], x)
    ensures forall k :: 0 <= k < j ==> !Contains(pools, ps[k], x)
  {
    if ps == [] || Contains(pools, ps[0], x) then 0 else 1 + FindHome(pools, ps[1..], x)
  }

  /** slb_free_align normalises the alignment for small objects only. */
  function FreeAlign(osize: int, align: int): int {
    if align == 0 && osize <= 4 then osize else align
  }

  /** The pool slb_free_align puts the object into, if any. */
  function FreeTarget(s: Slabs, x: int, osize: int, align: int): Maybe<int> {
    var i := FindCache(s.caches, osize, FreeAlign(osize, align));
    if i == |s.caches| then None
    else
      var ps := s.caches[i].pools;
      var j := FindHome(s.pools, ps, x);
      if j == |ps| then None else Some(ps[j])
  }

  /** What a release does: the new state, and the code returned. */
  function SlbFree(s: Slabs, x: int, osize: int, align: int): (Slabs, int) {
    match FreeTarget(s, x, osize, align)
    case None => (s, 1)
    case Some(a) => if a in s.pools then (Push(s, a, x), 0) else (s, 1)
  }

  /** t has exactly one outstanding object less than s: x of pool a. */
  ghost predicate Loses(s: Slabs, t: Slabs, a: int, x: int) {
    Gains(t, s, a, x)
  }

  lemma PushLoses(s: Slabs, a: int, x: int)
    requires Inv(s) && Out(s, a, x)
    ensures Loses(s, Push(s, a, x), a, x)
  {
    var t := Push(s, a, x);
    var p, q := s.pools[a], t.pools[a];
    assert q.free[0] == x;
    forall b, y ensures Out(s, b, y) <==> Out(t, b, y) || (b == a && y == x) {
      if b == a { assert y in q.free <==> y == x || y in p.free; }
    }
  }

  /** Releasing an outstanding object under its own size and alignment finds its pool, keeps
      the invariant and takes away exactly that object. */
  lemma FreeMeaning(s: Slabs, a: int, x: int)
    requires Inv(s) && Out(s, a, x)
    ensures var p := s.pools[a];
      p.align > 0 && FreeTarget(s, x, p.osize, p.align) == Some(a)
        && SlbFree(s, x, p.osize, p.align) == (Push(s, a, x), 0)
    ensures Inv(Push(s, a, x)) && Loses(s, Push(s, a, x), a, x)
  {
    PushInv(s, a, x);
    PushLoses(s, a, x);
    assert Listed(s, a);
    var i :| 0 <= i < |s.caches| && a in s.caches[i].pools;
    assert CacheOk(s, i) && InClass(s, i, a);
    FindFirstCache(s, i);
    var ps := s.caches[i].pools;
    SlotInPool(s, a, x);
    var j: int := FindHome(s.pools, ps, x);
    var k :| 0 <= k < |ps| && ps[k] == a;
    assert Contains(s.pools, ps[k], x);
    assert j < |ps| && InClass(s, i, ps[j]);
    assert ps[j] != a ==> PoolsApart(s, ps[j], a);
  }

  /** A release without alignment of a size above four is refused: no class has alignment 0. */
  lemma DefaultAlignRefused(s: Slabs, x: int, osize: int)
    requires Inv(s)
    ensures osize > 4 ==> SlbFree(s, x, osize, 0) == (s, 1)
  {
    var i := FindCache(s.caches, osize, 0);
    if i < |s.caches| {
      assert CacheOk(s, i);
      Pow2Positive(s.caches[i].align);
    }
  }

  /** A release of a size below four is refused: the allocation rounded the size up. */
  lemma SmallSizeRefused(s: Slabs, x: int, size: int, align: int)
    requires Inv(s) && size < LINK_SIZE
    ensures SlbFree(s, x, size, align) == (s, 1)
  {
    var i := FindCache(s.caches, size, FreeAlign(size, align));
    assert i < |s.caches| ==> CacheOk(s, i);
  }

  /** When slb_free_align undoes slb_alloc_align: given back under the size and alignment it was asked
      for with, an object is accepted if and only if the size is at least four and either the
      alignment was given or the size is four. Else the call is refused and changes nothing. */
  lemma ReleaseAsRequested(s: Slabs, a: int, x: int, size: int, align: int)
    requires Inv(s) && Out(s, a, x) && Request(size, align)
    requires s.pools[a].osize == Max(size, LINK_SIZE) && s.pools[a].align == AlignFor(size, align)
    ensures SlbFree(s, x, size, align)
         == if size >= 4 && (align != 0 || size == 4) then (Push(s, a, x), 0) else (s, 1)
  {
    FreeMeaning(s, a, x);
    DefaultAlignRefused(s, x, size);
    if size < LINK_SIZE { SmallSizeRefused(s, x, size, align); }
  }

  // ---------- start-up ----------

  lemma {:induction false} UnalignedSlots(i: int, limit: int)
    requires i % 4 == 0
    ensures SlotsFrom(i, limit, RECORD_SIZE, 0) == SlotsFrom(i, limit, RECORD_SIZE, RECORD_ALIGN)
    decreases limit - i
  {
    if i + RECORD_SIZE > limit {
    } else {
      UnalignedSlots(i + RECORD_SIZE, limit);
    }
  }

  /** slb_init: a pool of records, one of which becomes the class of records itself. The pool's
      count stays 0: that object is never counted. */
  function Boot(areas: seq<Area>): Slabs
    requires FirstFit(areas, PoolSize(RECORD_SIZE)) < |areas|
  {
    var k := FirstFit(areas, PoolSize(RECORD_SIZE));
    BootState(Carve(areas, k, PoolSize(RECORD_SIZE)), areas[k].at, SlotsOf(areas[k].at, RECORD_SIZE, 0))
  }

  function BootState(areas: seq<Area>, at: int, slots: seq<int>): Slabs
    requires slots != []
  {
    var objs := Reverse(slots);
    Slabs(areas, [Cache(objs[0], at, RECORD_ALIGN, RECORD_SIZE, [at])],
          map[at := Pool(RECORD_SIZE, RECORD_ALIGN, PoolSize(RECORD_SIZE), 0, slots, objs[1..])], at)
  }

  lemma BootPool(areas: seq<Area>, at: int, slots: seq<int>)
    requires Canonical(areas) && KERNEL_BASE <= at && Aligned(at) && at + PoolSize(RECORD_SIZE) < WORD_RANGE
    requires forall x :: at <= x < at + PoolSize(RECORD_SIZE) ==> !Covers(areas, x)
    requires slots != [] && slots == SlotsOf(at, RECORD_SIZE, RECORD_ALIGN) && DistinctInts(slots)
    ensures Inv(BootState(areas, at, slots))
    ensures forall a, x :: !Out(BootState(areas, at, slots), a, x)
  {
    var s := BootState(areas, at, slots);
    var objs := Reverse(slots);
    ReverseDistinct(slots);
    assert objs == [objs[0]] + objs[1..];
    assert objs[0] !in objs[1..];
    assert PoolOk(s, at) && PoolTaken(s, at);
    OnePoolInv(s);
  }

  lemma OnePoolInv(s: Slabs)
    requires s.pools.Keys == {s.boot} && PoolOk(s, s.boot) && PoolTaken(s, s.boot) && Canonical(s.areas)
    requires s.pools[s.boot].osize == RECORD_SIZE && s.pools[s.boot].align == RECORD_ALIGN
    requires |s.caches| == 1 && s.caches[0] == Cache(s.caches[0].rec, s.boot, RECORD_ALIGN, RECORD_SIZE, [s.boot])
    requires s.caches[0].rec in s.pools[s.boot].slots && s.caches[0].rec !in s.pools[s.boot].free
    requires forall x :: x in s.pools[s.boot].slots ==> x in s.pools[s.boot].free || x == s.caches[0].rec
    ensures Inv(s)
    ensures forall a, x :: !Out(s, a, x)
  {
    assert InClass(s, 0, s.boot);
    assert s.boot in s.caches[0].pools;
    assert IsRecord(s, s.caches[0].rec);
  }

  lemma PageHeaderAligned(at: int)
    requires at % PAGE == 0
    ensures (at + HEADER_SIZE) % 4 == 0
  {
    var q := at / PAGE;
    assert at == PAGE * q;
    assert at + HEADER_SIZE == 4 * (1024 * q + 4);
  }

  /** The slots of the first pool are the same for alignment 0 and 4. */
  lemma BootSlots(at: int)
    requires Aligned(at)
    ensures SlotsOf(at, RECORD_SIZE, 0) == SlotsOf(at, RECORD_SIZE, RECORD_ALIGN)
  {
    PageHeaderAligned(at);
    UnalignedSlots(at + HEADER_SIZE, at + PoolSize(RECORD_SIZE));
  }

  lemma BootInv(areas: seq<Area>)
    requires Canonical(areas) && FirstFit(areas, PoolSize(RECORD_SIZE)) < |areas|
    ensures Inv(Boot(areas))
    ensures forall a, x :: !Out(Boot(areas), a, x)
  {
    var k := FirstFit(areas, PoolSize(RECORD_SIZE));
    var at := areas[k].at;
    CarvedRange(Slabs(areas, [], map[], at), RECORD_SIZE);
    BootSlots(at);
    FreshDistinct(at, RECORD_SIZE, RECORD_ALIGN);
    BootPool(Carve(areas, k, PoolSize(RECORD_SIZE)), at, SlotsOf(at, RECORD_SIZE, 0));
  }

  // ---------- separation ----------

  /** An outstanding object is aligned, lies in its pool behind the header, belongs to no one
      else: not to another outstanding object, a free object, a class record, a pool header,
      or the page allocator. */
  ghost predicate Safe(s: Slabs, a: int, x: int)
    requires a in s.pools
  {
    var p := s.pools[a];
    && OnAlign(x, p.align) && a + HEADER_SIZE <= x && x + p.osize <= a + p.size
    && (forall b, y :: Out(s, b, y) && (b != a || y != x) ==> Apart(x, p.osize, y, s.pools[b].osize))
    && (forall b, y :: b in s.pools && y in s.pools[b].free ==> Apart(x, p.osize, y, s.pools[b].osize))
    && (forall i :: 0 <= i < |s.caches| ==> Apart(x, p.osize, s.caches[i].rec, RECORD_SIZE))
    && (forall b :: b in s.pools ==> Apart(x, p.osize, b, HEADER_SIZE))
    && (forall c :: x <= c < x + p.osize ==> !Covers(s.areas, c))
  }

  lemma SlotsSeparate(s: Slabs, a: int, x: int, b: int, y: int)
    requires PoolsInv(s) && a in s.pools && b in s.pools && x in s.pools[a].slots && y in s.pools[b].slots
    ensures (a == b && x == y) || Apart(x, s.pools[a].osize, y, s.pools[b].osize)
  {
    SlotInPool(s, a, x);
    SlotInPool(s, b, y);
    if a != b { assert PoolsApart(s, a, b); } else { SlotsApart(s, a, x, y); }
  }

  lemma OutIsSafe(s: Slabs, a: int, x: int)
    requires Inv(s) && Out(s, a, x)
    ensures Safe(s, a, x)
  {
    var p := s.pools[a];
    SlotInPool(s, a, x);
    assert PoolTaken(s, a);
    forall b, y | Out(s, b, y) && (b != a || y != x) ensures Apart(x, p.osize, y, s.pools[b].osize) {
      SlotsSeparate(s, a, x, b, y);
    }
    forall b, y | b in s.pools && y in s.pools[b].free ensures Apart(x, p.osize, y, s.pools[b].osize) {
      assert PoolOk(s, b);
      SlotsSeparate(s, a, x, b, y);
    }
    forall i | 0 <= i < |s.caches| ensures Apart(x, p.osize, s.caches[i].rec, RECORD_SIZE) {
      assert CacheOk(s, i);
      SlotsSeparate(s, a, x, s.caches[i].home, s.caches[i].rec);
    }
    forall b | b in s.pools ensures Apart(x, p.osize, b, HEADER_SIZE) {
      if b != a { assert PoolsApart(s, a, b) && PoolOk(s, b); }
    }
  }

  // ---------- whole runs ----------

  /** Calls of the two allocators: slab objects, and pages asked for by others (page tables). */
  datatype Event =
    | Allocate(osize: int, align: int)
    | Release(pool: int, obj: int)
    | TakePages(need: int)
    | GivePages(piece: Area)

  /** Callers release objects and pages they hold, and do not go on when memory has run out. */
  ghost predicate Enabled(s: Slabs, e: Event) {
    match e
    case Allocate(osize, align) => Served(osize, align) && SlbAlloc(s, osize, align).Some?
    case Release(a, x) => Out(s, a, x)
    case TakePages(need) => need > 0 && Aligned(need) && FirstFit(s.areas, need) < |s.areas|
    case GivePages(piece) =>
      && WellPlaced(piece) && Disjoint(s.areas, piece)
      && forall a :: a in s.pools ==> Apart(piece.at, piece.size, a, s.pools[a].size)
  }

  ghost function Step(s: Slabs, e: Event): Slabs
    requires Enabled(s, e)
  {
    match e
    case Allocate(osize, align) => SlbAlloc(s, osize, align).value.0
    case Release(a, x) => SlbFree(s, x, s.pools[a].osize, s.pools[a].align).0
    case TakePages(need) => s.(areas := Carve(s.areas, FirstFit(s.areas, need), need))
    case GivePages(piece) => s.(areas := Pages.Release(s.areas, piece))
  }

  lemma AreasInv(s: Slabs, areas: seq<Area>)
    requires Inv(s) && Canonical(areas)
    requires forall a, c :: a in s.pools && a <= c < a + s.pools[a].size ==> !Covers(areas, c)
    ensures Inv(s.(areas := areas))
  {
    var t := s.(areas := areas);
    forall b | b in t.pools ensures PoolOk(t, b) { assert PoolOk(s, b); }
    forall b, c | b in t.pools && c in t.pools && b != c ensures PoolsApart(t, b, c) { assert PoolsApart(s, b, c); }
    forall i | 0 <= i < |t.caches| ensures CacheOk(t, i) {
      assert CacheOk(s, i);
      forall b | b in t.caches[i].pools ensures InClass(t, i, b) { assert InClass(s, i, b); }
    }
    forall i, j | 0 <= i < j < |t.caches| ensures CachesApart(t, i, j) { assert CachesApart(s, i, j); }
    forall b | b in t.pools ensures Listed(t, b) { assert Listed(s, b); }
  }

  lemma TakePagesInv(s: Slabs, need: int)
    requires Inv(s) && need > 0 && Aligned(need) && FirstFit(s.areas, need) < |s.areas|
    ensures Inv(s.(areas := Carve(s.areas, FirstFit(s.areas, need), need)))
  {
    var k := FirstFit(s.areas, need);
    CarveCanonical(s.areas, k, need);
    forall a, c | a in s.pools && a <= c < a + s.pools[a].size ensures !Covers(Carve(s.areas, k, need), c) {
      assert PoolTaken(s, a);
      CarveCover(s.areas, k, need, c);
    }
    AreasInv(s, Carve(s.areas, k, need));
  }

  lemma StepInv(s: Slabs, e: Event)
    requires Inv(s) && Enabled(s, e)
    ensures Inv(Step(s, e))
  {
    match e
    case Allocate(osize, align) => AllocMeaning(s, osize, align);
    case Release(a, x) =>
      SlotInPool(s, a, x);
      FreeMeaning(s, a, x);
    case TakePages(need) => TakePagesInv(s, need);
    case GivePages(piece) =>
      ReleaseMeaning(s.areas, piece);
      forall a, c | a in s.pools && a <= c < a + s.pools[a].size ensures !Covers(Pages.Release(s.areas, piece), c) {
        assert PoolTaken(s, a) && Apart(piece.at, piece.size, a, s.pools[a].size);
      }
      AreasInv(s, Pages.Release(s.areas, piece));
  }

  ghost predicate Runs(s: Slabs, es: seq<Event>)
    decreases |es|
  {
    es == [] || (Enabled(s, es[0]) && Runs(Step(s, es[0]), es[1..]))
  }

  ghost function After(s: Slabs, es: seq<Event>): Slabs
    requires Runs(s, es)
    decreases |es|
  {
    if es == [] then s else After(Step(s, es[0]), es[1..])
  }

  lemma {:induction false} RunInv(s: Slabs, es: seq<Event>)
    requires Inv(s) && Runs(s, es)
    ensures Inv(After(s, es))
    decreases |es|
  {
    if es == [] {
    } else {
      StepInv(s, es[0]);
      RunInv(Step(s, es[0]), es[1..]);
    }
  }

  /** In every state reachable from slb_init, every outstanding object is safe. */
  lemma AlwaysSafe(areas: seq<Area>, es: seq<Event>, a: int, x: int)
    requires Canonical(areas) && FirstFit(areas, PoolSize(RECORD_SIZE)) < |areas|
    requires Runs(Boot(areas), es) && Out(After(Boot(areas), es), a, x)
    ensures Safe(After(Boot(areas), es), a, x)
  {
    BootInv(areas);
    RunInv(Boot(areas), es);
    OutIsSafe(After(Boot(areas), es), a, x);
  }

  /** Each pool's count and free list make up its capacity; in the bootstrap pool they fall one
      short, because slb_init takes an object without counting it. */
  lemma AlwaysCounted(areas: seq<Area>, es: seq<Event>, a: int)
    requires Canonical(areas) && FirstFit(areas, PoolSize(RECORD_SIZE)) < |areas|
    requires Runs(Boot(areas), es) && a in After(Boot(areas), es).pools
    ensures var p := After(Boot(areas), es).pools[a];
      p.inuse + |p.free| == |p.slots| - (if a == After(Boot(areas), es).boot then 1 else 0)
  {
    BootInv(areas);
    RunInv(Boot(areas), es);
    assert PoolOk(After(Boot(areas), es), a);
  }
}
