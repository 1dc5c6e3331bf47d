/** When the slab allocator can serve a request, said of free objects and free memory alone. */
module SlabServe {
  import opened Basics
  import opened Machine
  import opened Pages
  import PageRuns
  import opened Slab
  import opened SlabRuns

  /** Some pool for objects of this size and alignment has one to give. */
  ghost predicate FreeObject(s: Slabs, osize: int, align: int) {
    exists a :: a in s.pools && s.pools[a].osize == osize && s.pools[a].align == align && s.pools[a].free != []
  }

  ghost predicate ClassPresent(s: Slabs, osize: int, align: int) {
    exists i :: 0 <= i < |s.caches| && s.caches[i].osize == osize && s.caches[i].align == align
  }

  /** Somewhere the bytes of a whole pool are free in one piece. */
  ghost predicate Room(xs: seq<Area>, osize: int) {
    exists b :: PageRuns.FreeRun(xs, b, PoolSize(osize))
  }

  ghost predicate LowestRun(xs: seq<Area>, at: int, need: int) {
    PageRuns.FreeRun(xs, at, need) && forall b :: PageRuns.FreeRun(xs, b, need) ==> at <= b
  }

  /** Room for a pool beside the one for class records, which takes the lowest place it fits. */
  ghost predicate RoomForBoth(xs: seq<Area>, osize: int) {
    exists r, b :: LowestRun(xs, r, PoolSize(RECORD_SIZE)) && PageRuns.FreeRun(xs, b, PoolSize(osize))
                   && Apart(b, PoolSize(osize), r, PoolSize(RECORD_SIZE))
  }

  /** A class that exists needs a free object or room for a pool; a new one needs a record and room
      for its first pool. */
  ghost predicate CanServe(s: Slabs, osize: int, align: int) {
    if ClassPresent(s, osize, align) then FreeObject(s, osize, align) || Room(s.areas, osize)
    else if FreeObject(s, RECORD_SIZE, RECORD_ALIGN) then Room(s.areas, osize)
    else RoomForBoth(s.areas, osize)
  }

  /** The free bytes ys are those of xs but for the lowest run for a pool. */
  ghost predicate PoolOff(xs: seq<Area>, ys: seq<Area>, osize: int) {
    exists at :: LowestRun(xs, at, PoolSize(osize)) && RunOff(xs, ys, at, PoolSize(osize))
  }

  ghost predicate RunOff(xs: seq<Area>, ys: seq<Area>, at: int, n: int) {
    forall b :: Covers(ys, b) <==> Covers(xs, b) && !(at <= b < at + n)
  }

  /** The pools of a class are those of its size and alignment. */
  lemma FreeInClass(s: Slabs, i: nat)
    requires Inv(s) && i < |s.caches|
    ensures FindPool(s.pools, s.caches[i].pools) < |s.caches[i].pools|
      <==> FreeObject(s, s.caches[i].osize, s.caches[i].align)
  {
    var c := s.caches[i];
    var j: int := FindPool(s.pools, c.pools);
    assert CacheOk(s, i);
    if j < |c.pools| { assert InClass(s, i, c.pools[j]); }
    if FreeObject(s, c.osize, c.align) {
      var a :| a in s.pools && s.pools[a].osize == c.osize && s.pools[a].align == c.align && s.pools[a].free != [];
      ListedInClass(s, i, a);
      var m :| 0 <= m < |c.pools| && c.pools[m] == a;
      assert HasFree(s.pools, c.pools[m]);
    }
  }

  lemma ListedInClass(s: Slabs, i: nat, a: int)
    requires Inv(s) && i < |s.caches| && a in s.pools
    requires s.pools[a].osize == s.caches[i].osize && s.pools[a].align == s.caches[i].align
    ensures a in s.caches[i].pools
  {
    assert Listed(s, a);
    var k :| 0 <= k < |s.caches| && a in s.caches[k].pools;
    assert CacheOk(s, k) && InClass(s, k, a);
    assert k < i ==> CachesApart(s, k, i);
    assert i < k ==> CachesApart(s, i, k);
  }

  /** A class that exists serves exactly if it has a free object, and then memory stays as it was, or
      if there is room for a pool, and then the lowest is taken. */
  lemma AllocInExact(s: Slabs, i: nat)
    requires Inv(s) && i < |s.caches|
    ensures Served(s.caches[i].osize, s.caches[i].align)
    ensures
      var (o, al) := (s.caches[i].osize, s.caches[i].align);
      && (AllocIn(s, i).Some? <==> FreeObject(s, o, al) || Room(s.areas, o))
      && (FreeObject(s, o, al) ==> AllocIn(s, i).value.0.areas == s.areas)
      && (!FreeObject(s, o, al) && Room(s.areas, o) ==> PoolOff(s.areas, AllocIn(s, i).value.0.areas, o))
  {
    assert CacheOk(s, i);
    FreeInClass(s, i);
    var o := s.caches[i].osize;
    assert PoolSize(o) > 0;
    PageRuns.FirstFitComplete(s.areas, PoolSize(o));
    if PoolIndex(s, o) < |s.areas| {
      CarvedRange(s, o);
      var at := s.areas[PoolIndex(s, o)].at;
      var ys := Carve(s.areas, PoolIndex(s, o), PoolSize(o));
      assert LowestRun(s.areas, at, PoolSize(o)) && RunOff(s.areas, ys, at, PoolSize(o));
    }
  }

  /** What room is left once a run is gone. */
  lemma RoomLeft(xs: seq<Area>, ys: seq<Area>, at: int, n: int, osize: int)
    requires RunOff(xs, ys, at, n) && n > 0 && PoolSize(osize) > 0
    ensures Room(ys, osize)
      <==> exists b :: PageRuns.FreeRun(xs, b, PoolSize(osize)) && Apart(b, PoolSize(osize), at, n)
  {
    var m := PoolSize(osize);
    forall b ensures PageRuns.FreeRun(ys, b, m) <==> PageRuns.FreeRun(xs, b, m) && Apart(b, m, at, n) {
      if PageRuns.FreeRun(ys, b, m) {
        assert Covers(ys, b) && (b <= at < b + m ==> Covers(ys, at));
      }
    }
  }

  lemma RoomBeside(xs: seq<Area>, ys: seq<Area>, osize: int)
    requires PoolOff(xs, ys, RECORD_SIZE) && PoolSize(osize) > 0
    ensures Room(ys, osize) <==> RoomForBoth(xs, osize)
  {
    var n := PoolSize(RECORD_SIZE);
    var at :| LowestRun(xs, at, n) && RunOff(xs, ys, at, n);
    RoomLeft(xs, ys, at, n, osize);
    forall r | LowestRun(xs, r, n) ensures r == at { }
  }

  /** A new class serves exactly if there is room for its pool once its record has been taken. */
  lemma NewClassExact(s: Slabs, osize: int, align: int)
    requires Inv(s) && Served(osize, align) && FindCache(s.caches, osize, align) == |s.caches|
    ensures
      var r := FindCache(s.caches, RECORD_SIZE, RECORD_ALIGN);
      && r < |s.caches| && Served(RECORD_SIZE, RECORD_ALIGN)
      && (SlbAlloc(s, osize, align).Some? <==> AllocIn(s, r).Some? && Room(AllocIn(s, r).value.0.areas, osize))
  {
    RecordClassPresent(s);
    var r := FindCache(s.caches, RECORD_SIZE, RECORD_ALIGN);
    AllocInMeaning(s, r);
    if AllocIn(s, r).Some? {
      var (s1, rec) := AllocIn(s, r).value;
      var home := AllocPool(s, r);
      AllocInKeys(s, r);
      AbsentStays(s.caches, s1.caches, osize, align);
      AddCacheInv(s1, rec, home, osize, align);
      var t := AddCache(s1, rec, home, osize, align);
      AllocInExact(t, 0);
      FreeInClass(t, 0);
    }
  }

  /** An allocation succeeds exactly if free objects and free memory can serve it. */
  lemma SlbAllocExact(s: Slabs, osize: int, align: int)
    requires Inv(s) && Served(osize, align)
    ensures SlbAlloc(s, osize, align).Some? <==> CanServe(s, osize, align)
    ensures ClassPresent(s, osize, align) && FreeObject(s, osize, align) ==>
      SlbAlloc(s, osize, align).value.0.areas == s.areas
    ensures ClassPresent(s, osize, align) && !FreeObject(s, osize, align) && Room(s.areas, osize) ==>
      PoolOff(s.areas, SlbAlloc(s, osize, align).value.0.areas, osize)
  {
    var i := FindCache(s.caches, osize, align);
    if i < |s.caches| {
      AllocInExact(s, i);
    } else {
      NewClassExact(s, osize, align);
      var r := FindCache(s.caches, RECORD_SIZE, RECORD_ALIGN);
      AllocInExact(s, r);
      if AllocIn(s, r).Some? && !FreeObject(s, RECORD_SIZE, RECORD_ALIGN) {
        RoomBeside(s.areas, AllocIn(s, r).value.0.areas, osize);
      }
    }
  }
}
