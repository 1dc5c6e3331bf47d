/** How the slab allocator's state lies in memory, and that its stores keep it there. */
module SlabMemory {
  import opened Basics
  import opened Machine
  import opened Pages
  import opened Slab
  import opened SlabRuns

  function IntPtr(xs: seq<int>, k: nat): int {
    if k < |xs| then xs[k] else 0
  }

  function RecPtr(cs: seq<Cache>, i: nat): int {
    if i < |cs| then cs[i].rec else 0
  }

  /** The k-th free object points to the next. */
  ghost predicate FreeLink(w: Words, xs: seq<int>, k: int)
    requires 0 <= k < |xs|
  {
    Rd(w, xs[k]) == IntPtr(xs, k + 1)
  }

  /** The j-th pool of a class points to the next. */
  ghost predicate PoolLink(w: Words, ps: seq<int>, j: int)
    requires 0 <= j < |ps|
  {
    Rd(w, ps[j] + 12) == IntPtr(ps, j + 1)
  }

  ghost predicate PoolAt(w: Words, a: int, p: Pool) {
    && Rd(w, a) == p.inuse && Rd(w, a + 4) == p.size && Rd(w, a + 8) == IntPtr(p.free, 0)
    && forall k :: 0 <= k < |p.free| ==> FreeLink(w, p.free, k)
  }

  ghost predicate PoolRep(w: Words, s: Slabs, a: int)
    requires a in s.pools
  {
    PoolAt(w, a, s.pools[a])
  }

  ghost predicate RecordRep(w: Words, s: Slabs, i: int)
    requires 0 <= i < |s.caches|
  {
    var c := s.caches[i];
    && Rd(w, c.rec) == c.align && Rd(w, c.rec + 4) == c.osize
    && Rd(w, c.rec + 8) == IntPtr(c.pools, 0) && Rd(w, c.rec + 12) == RecPtr(s.caches, i + 1)
  }

  ghost predicate PoolsRep(w: Words, s: Slabs, i: int)
    requires 0 <= i < |s.caches|
  {
    forall j :: 0 <= j < |s.caches[i].pools| ==> PoolLink(w, s.caches[i].pools, j)
  }

  ghost predicate Rep(w: Words, head: int, s: Slabs) {
    && head == RecPtr(s.caches, 0)
    && (forall a {:trigger PoolRep(w, s, a)} :: a in s.pools ==> PoolRep(w, s, a))
    && (forall i {:trigger RecordRep(w, s, i)} :: 0 <= i < |s.caches| ==> RecordRep(w, s, i))
    && (forall i {:trigger PoolsRep(w, s, i)} :: 0 <= i < |s.caches| ==> PoolsRep(w, s, i))
  }

  // ---------- frames ----------

  ghost predicate InRange(x: int, lo: int, n: int) {
    lo <= x < lo + n
  }

  ghost predicate InHeader(s: Slabs, x: int) {
    exists a :: a in s.pools && InRange(x, a, HEADER_SIZE)
  }

  ghost predicate InFree(s: Slabs, x: int) {
    exists a, f :: a in s.pools && f in s.pools[a].free && InRange(x, f, s.pools[a].osize)
  }

  ghost predicate InRecord(s: Slabs, x: int) {
    exists i :: 0 <= i < |s.caches| && InRange(x, s.caches[i].rec, RECORD_SIZE)
  }

  /** Memory the slab allocator keeps its own data in. */
  ghost predicate SlabOwned(s: Slabs, x: int) {
    InHeader(s, x) || InFree(s, x) || InRecord(s, x)
  }

  /** Memory of either allocator: what no caller may touch, and all the allocators touch. */
  ghost predicate Owned(s: Slabs, x: int) {
    SlabOwned(s, x) || Covers(s.areas, x)
  }

  lemma {:induction false} PoolFrame(w: Words, w2: Words, s: Slabs, a: int)
    requires a in s.pools && PoolRep(w, s, a)
    requires Rd(w2, a) == Rd(w, a) && Rd(w2, a + 4) == Rd(w, a + 4) && Rd(w2, a + 8) == Rd(w, a + 8)
    requires forall f :: f in s.pools[a].free ==> Rd(w2, f) == Rd(w, f)
    ensures PoolRep(w2, s, a)
  {
    var p := s.pools[a];
    forall k | 0 <= k < |p.free| ensures FreeLink(w2, p.free, k) {
      assert FreeLink(w, p.free, k);
    }
  }

  lemma {:induction false} RecordFrame(w: Words, w2: Words, s: Slabs, i: int)
    requires 0 <= i < |s.caches| && RecordRep(w, s, i)
    requires forall x :: InRange(x, s.caches[i].rec, RECORD_SIZE) ==> Rd(w2, x) == Rd(w, x)
    ensures RecordRep(w2, s, i)
  {
    var r := s.caches[i].rec;
    assert InRange(r, r, 16) && InRange(r + 4, r, 16) && InRange(r + 8, r, 16) && InRange(r + 12, r, 16);
  }

  lemma {:induction false} PoolsFrame(w: Words, w2: Words, s: Slabs, i: int)
    requires 0 <= i < |s.caches| && PoolsRep(w, s, i)
    requires forall a :: a in s.caches[i].pools ==> Rd(w2, a + 12) == Rd(w, a + 12)
    ensures PoolsRep(w2, s, i)
  {
    var ps := s.caches[i].pools;
    forall j | 0 <= j < |ps| ensures PoolLink(w2, ps, j) {
      assert ps[j] in ps && PoolLink(w, ps, j);
    }
  }

  /** Words the allocator does not own may change freely. */
  lemma {:induction false} RepFrame(w: Words, w2: Words, head: int, s: Slabs)
    requires Inv(s) && Rep(w, head, s)
    requires forall x :: SlabOwned(s, x) ==> Rd(w2, x) == Rd(w, x)
    ensures Rep(w2, head, s)
  {
    forall a | a in s.pools ensures PoolRep(w2, s, a) {
      assert PoolRep(w, s, a);
      OwnedPoolSame(w, w2, s, a);
      PoolFrame(w, w2, s, a);
    }
    forall i | 0 <= i < |s.caches| ensures RecordRep(w2, s, i) {
      assert RecordRep(w, s, i);
      forall x | InRange(x, s.caches[i].rec, RECORD_SIZE) ensures Rd(w2, x) == Rd(w, x) { assert InRecord(s, x); }
      RecordFrame(w, w2, s, i);
    }
    forall i | 0 <= i < |s.caches| ensures PoolsRep(w2, s, i) {
      assert CacheOk(s, i) && PoolsRep(w, s, i);
      forall a | a in s.caches[i].pools ensures Rd(w2, a + 12) == Rd(w, a + 12) {
        assert InClass(s, i, a);
        assert InRange(a + 12, a, HEADER_SIZE) && InHeader(s, a + 12);
      }
      PoolsFrame(w, w2, s, i);
    }
  }

  lemma {:induction false} OwnedPoolSame(w: Words, w2: Words, s: Slabs, a: int)
    requires PoolsInv(s) && a in s.pools
    requires forall x :: SlabOwned(s, x) ==> Rd(w2, x) == Rd(w, x)
    ensures Rd(w2, a) == Rd(w, a) && Rd(w2, a + 4) == Rd(w, a + 4) && Rd(w2, a + 8) == Rd(w, a + 8)
    ensures forall f :: f in s.pools[a].free ==> Rd(w2, f) == Rd(w, f)
  {
    assert PoolOk(s, a);
    assert InRange(a, a, 16) && InRange(a + 4, a, 16) && InRange(a + 8, a, 16);
    assert InHeader(s, a) && InHeader(s, a + 4) && InHeader(s, a + 8);
    forall f | f in s.pools[a].free ensures Rd(w2, f) == Rd(w, f) {
      assert InRange(f, f, s.pools[a].osize) && InFree(s, f);
    }
  }

  // ---------- one pool changes ----------

  /** A record lies in the object it was made from. */
  lemma RecordInSlot(s: Slabs, i: int)
    requires Inv(s) && 0 <= i < |s.caches|
    ensures var c := s.caches[i];
      && c.home in s.pools && s.pools[c.home].osize == RECORD_SIZE && c.rec in s.pools[c.home].slots
      && c.rec > 0 && c.home + HEADER_SIZE <= c.rec && c.rec + RECORD_SIZE <= c.home + s.pools[c.home].size
  {
    assert CacheOk(s, i);
    var c := s.caches[i];
    assert PoolOk(s, c.home);
    SlotInPool(s, c.home, c.rec);
  }

  /** The words of pool a that belong to it alone: not its link to the next pool, no record. */
  ghost predicate Private(s: Slabs, a: int, x: int)
    requires a in s.pools
  {
    InRange(x, a, s.pools[a].size) && x != a + 12 && !InRecord(s, x)
  }

  lemma {:induction false} OnePoolChanges(w: Words, w2: Words, head: int, s: Slabs, a: int, p: Pool)
    requires Inv(s) && a in s.pools && Rep(w, head, s) && PoolAt(w2, a, p)
    requires forall x :: !Private(s, a, x) ==> Rd(w2, x) == Rd(w, x)
    ensures Rep(w2, head, s.(pools := s.pools[a := p]))
  {
    var t := s.(pools := s.pools[a := p]);
    forall b | b in t.pools ensures PoolRep(w2, t, b) {
      if b != a {
        OtherPoolSame(w, w2, s, a, b);
        assert PoolRep(w, s, b);
        PoolFrame(w, w2, s, b);
      }
    }
    forall i | 0 <= i < |t.caches| ensures RecordRep(w2, t, i) {
      forall x | InRange(x, s.caches[i].rec, RECORD_SIZE) ensures Rd(w2, x) == Rd(w, x) { assert InRecord(s, x); }
      assert RecordRep(w, s, i);
      RecordFrame(w, w2, s, i);
    }
    forall i | 0 <= i < |t.caches| ensures PoolsRep(w2, t, i) {
      assert CacheOk(s, i);
      forall b | b in s.caches[i].pools ensures Rd(w2, b + 12) == Rd(w, b + 12) {
        assert InClass(s, i, b) && PoolOk(s, b);
        assert b != a ==> PoolsApart(s, a, b);
      }
      assert PoolsRep(w, s, i);
      PoolsFrame(w, w2, s, i);
    }
  }

  lemma {:induction false} OtherPoolSame(w: Words, w2: Words, s: Slabs, a: int, b: int)
    requires PoolsInv(s) && a in s.pools && b in s.pools && a != b
    requires forall x :: !Private(s, a, x) ==> Rd(w2, x) == Rd(w, x)
    ensures Rd(w2, b) == Rd(w, b) && Rd(w2, b + 4) == Rd(w, b + 4) && Rd(w2, b + 8) == Rd(w, b + 8)
    ensures forall f :: f in s.pools[b].free ==> Rd(w2, f) == Rd(w, f)
  {
    assert PoolOk(s, b) && PoolsApart(s, a, b);
    forall f | f in s.pools[b].free ensures Rd(w2, f) == Rd(w, f) { SlotInPool(s, b, f); }
  }

  // ---------- taking and giving back an object ----------

  function PopWords(w: Words, a: int): Words {
    var w1 := w[a + 8 := Rd(w, Rd(w, a + 8))];
    w1[a := Rd(w1, a) + 1]
  }

  function PushWords(w: Words, a: int, x: int): Words {
    var w1 := w[x := Rd(w, a + 8)][a + 8 := x];
    w1[a := Rd(w1, a) - 1]
  }

  lemma HeaderPrivate(s: Slabs, a: int)
    requires Inv(s) && a in s.pools
    ensures Private(s, a, a) && Private(s, a, a + 8)
  {
    assert PoolOk(s, a);
    forall i | 0 <= i < |s.caches|
      ensures !InRange(a, s.caches[i].rec, RECORD_SIZE) && !InRange(a + 8, s.caches[i].rec, RECORD_SIZE)
    {
      RecordInSlot(s, i);
      var h := s.caches[i].home;
      assert h != a ==> PoolsApart(s, a, h);
    }
  }

  lemma {:induction false} PopRep(w: Words, head: int, s: Slabs, a: int)
    requires Inv(s) && Rep(w, head, s) && HasFree(s.pools, a)
    ensures Rep(PopWords(w, a), head, Pop(s, a))
    ensures Rd(w, a + 8) == s.pools[a].free[0]
    ensures forall x :: Rd(PopWords(w, a), x) != Rd(w, x) ==> x == a || x == a + 8
  {
    var p, w2 := s.pools[a], PopWords(w, a);
    HeaderPrivate(s, a);
    assert PoolRep(w, s, a) && PoolOk(s, a);
    assert FreeLink(w, p.free, 0);
    forall k | 0 <= k < |p.free[1..]| ensures FreeLink(w2, p.free[1..], k) {
      assert FreeLink(w, p.free, k + 1);
      SlotInPool(s, a, p.free[k + 1]);
    }
    OnePoolChanges(w, w2, head, s, a, p.(free := p.free[1..], inuse := p.inuse + 1));
  }

  lemma OutPrivate(s: Slabs, a: int, x: int)
    requires Inv(s) && Out(s, a, x)
    ensures Private(s, a, x)
  {
    OutIsSafe(s, a, x);
    SlotInPool(s, a, x);
    forall i | 0 <= i < |s.caches| ensures !InRange(x, s.caches[i].rec, RECORD_SIZE) { }
  }

  lemma {:induction false} PushRep(w: Words, head: int, s: Slabs, a: int, x: int)
    requires Inv(s) && Rep(w, head, s) && Out(s, a, x)
    ensures Rep(PushWords(w, a, x), head, Push(s, a, x))
    ensures forall y :: Rd(PushWords(w, a, x), y) != Rd(w, y) ==> y == a || y == a + 8 || y == x
  {
    var p, w2 := s.pools[a], PushWords(w, a, x);
    HeaderPrivate(s, a);
    OutPrivate(s, a, x);
    SlotInPool(s, a, x);
    assert PoolRep(w, s, a) && PoolOk(s, a);
    var free := [x] + p.free;
    forall k | 0 <= k < |free| ensures FreeLink(w2, free, k) {
      if k > 0 {
        assert FreeLink(w, p.free, k - 1);
        SlotInPool(s, a, free[k]);
      }
    }
    OnePoolChanges(w, w2, head, s, a, p.(free := free, inuse := p.inuse - 1));
  }

  // ---------- a new pool ----------

  /** After the page allocator's stores, the segmenting stores and the two linking stores. */
  lemma {:induction false} GrowRep(w: Words, w2: Words, head: int, s: Slabs, i: nat)
    requires Inv(s) && Rep(w, head, s) && i < |s.caches| && PoolIndex(s, s.caches[i].osize) < |s.areas|
    requires s.caches[i].osize > 0 && s.caches[i].align >= 0
    requires var c := s.caches[i]; var at := s.areas[PoolIndex(s, c.osize)].at;
      && PoolAt(w2, at, FreshPool(at, c.osize, c.align))
      && Rd(w2, at + 12) == IntPtr(c.pools, 0) && Rd(w2, c.rec + 8) == at
      && forall x :: SlabOwned(s, x) && x != c.rec + 8 ==> Rd(w2, x) == Rd(w, x)
    ensures Rep(w2, head, Grow(s, i))
  {
    var c := s.caches[i];
    var at := s.areas[PoolIndex(s, c.osize)].at;
    var t := Grow(s, i);
    GrowPools(s, i);
    RecordInSlot(s, i);
    forall b | b in t.pools ensures PoolRep(w2, t, b) {
      if b != at {
        assert PoolRep(w, s, b);
        RecordWordOutside(s, i, b);
        PoolSameButRecord(w, w2, s, i, b);
        PoolFrame(w, w2, s, b);
      }
    }
    forall j | 0 <= j < |t.caches| ensures RecordRep(w2, t, j) {
      assert RecordRep(w, s, j);
      RecordsSame(w, w2, s, i, j);
    }
    forall j | 0 <= j < |t.caches| ensures PoolsRep(w2, t, j) {
      GrowLinks(w, w2, head, s, i, j);
      if j == i {
        var ps := t.caches[i].pools;
        forall k | 0 <= k < |ps| ensures PoolLink(w2, ps, k) {
          if k > 0 { assert PoolLink(w2, c.pools, k - 1); }
        }
      }
    }
  }

  /** The links between the pools there were stay. */
  lemma {:induction false} GrowLinks(w: Words, w2: Words, head: int, s: Slabs, i: nat, j: nat)
    requires Inv(s) && Rep(w, head, s) && i < |s.caches| && j < |s.caches|
    requires forall x :: SlabOwned(s, x) && x != s.caches[i].rec + 8 ==> Rd(w2, x) == Rd(w, x)
    ensures PoolsRep(w2, s, j)
  {
    assert PoolsRep(w, s, j) && CacheOk(s, j);
    forall b | b in s.caches[j].pools ensures Rd(w2, b + 12) == Rd(w, b + 12) {
      assert InClass(s, j, b);
      RecordWordOutside(s, i, b);
      assert InRange(b + 12, b, HEADER_SIZE) && InHeader(s, b + 12);
    }
    PoolsFrame(w, w2, s, j);
  }

  /** A record's pool pointer is neither in a pool header nor a free object. */
  lemma RecordWordOutside(s: Slabs, i: int, b: int)
    requires Inv(s) && 0 <= i < |s.caches| && b in s.pools
    ensures var x := s.caches[i].rec + 8;
      !InRange(x, b, HEADER_SIZE) && forall f :: f in s.pools[b].free ==> f != x
  {
    RecordInSlot(s, i);
    var c := s.caches[i];
    assert PoolOk(s, b);
    assert b != c.home ==> PoolsApart(s, b, c.home);
    forall f | f in s.pools[b].free ensures f != c.rec + 8 {
      SlotsSeparate(s, b, f, c.home, c.rec);
      RecordNotFree(s, i, b, f);
      SlotInPool(s, b, f);
    }
  }

  lemma {:induction false} PoolSameButRecord(w: Words, w2: Words, s: Slabs, i: int, b: int)
    requires Inv(s) && 0 <= i < |s.caches| && b in s.pools
    requires forall x :: SlabOwned(s, x) && x != s.caches[i].rec + 8 ==> Rd(w2, x) == Rd(w, x)
    ensures Rd(w2, b) == Rd(w, b) && Rd(w2, b + 4) == Rd(w, b + 4) && Rd(w2, b + 8) == Rd(w, b + 8)
    ensures forall f :: f in s.pools[b].free ==> Rd(w2, f) == Rd(w, f)
  {
    RecordWordOutside(s, i, b);
    assert PoolOk(s, b);
    assert InRange(b, b, 16) && InRange(b + 4, b, 16) && InRange(b + 8, b, 16);
    assert InHeader(s, b) && InHeader(s, b + 4) && InHeader(s, b + 8);
    forall f | f in s.pools[b].free ensures Rd(w2, f) == Rd(w, f) {
      assert InRange(f, f, s.pools[b].osize) && InFree(s, f);
    }
  }

  /** Records do not overlap, so only record i sees its pool pointer change. */
  lemma {:induction false} RecordsSame(w: Words, w2: Words, s: Slabs, i: int, j: int)
    requires Inv(s) && 0 <= i < |s.caches| && 0 <= j < |s.caches|
    requires forall x :: SlabOwned(s, x) && x != s.caches[i].rec + 8 ==> Rd(w2, x) == Rd(w, x)
    ensures forall x :: InRange(x, s.caches[j].rec, RECORD_SIZE) && (j != i || x != s.caches[i].rec + 8) ==>
      Rd(w2, x) == Rd(w, x)
    ensures var r := s.caches[j].rec;
      Rd(w2, r) == Rd(w, r) && Rd(w2, r + 4) == Rd(w, r + 4) && Rd(w2, r + 12) == Rd(w, r + 12)
      && (j != i ==> Rd(w2, r + 8) == Rd(w, r + 8))
  {
    RecordInSlot(s, i);
    RecordInSlot(s, j);
    if i != j {
      assert CachesApart(s, if i < j then i else j, if i < j then j else i);
      SlotsSeparate(s, s.caches[i].home, s.caches[i].rec, s.caches[j].home, s.caches[j].rec);
    }
    var r := s.caches[j].rec;
    forall x | InRange(x, r, RECORD_SIZE) && (j != i || x != s.caches[i].rec + 8) ensures Rd(w2, x) == Rd(w, x) {
      assert InRecord(s, x);
    }
    assert InRange(r, r, 16) && InRange(r + 4, r, 16) && InRange(r + 8, r, 16) && InRange(r + 12, r, 16);
  }

  // ---------- a new class ----------

  function RecordWords(w: Words, rec: int, align: int, osize: int, pool: int, next: int): Words {
    w[rec := align][rec + 4 := osize][rec + 8 := pool][rec + 12 := next]
  }

  /** Nothing of an outstanding object is the allocators'. */
  lemma OutNotOwned(s: Slabs, a: int, x: int, y: int)
    requires Inv(s) && Out(s, a, x) && InRange(y, x, s.pools[a].osize)
    ensures !Owned(s, y)
  {
    OutIsSafe(s, a, x);
    forall i | 0 <= i < |s.caches| ensures !InRange(y, s.caches[i].rec, RECORD_SIZE) { }
    forall b | b in s.pools ensures !InRange(y, b, HEADER_SIZE) { }
    forall b, f | b in s.pools && f in s.pools[b].free ensures !InRange(y, f, s.pools[b].osize) { }
  }

  lemma {:induction false} NewRecordFrame(w: Words, head: int, s: Slabs, home: int, rec: int, osize: int, align: int)
    requires Inv(s) && Rep(w, head, s) && Out(s, home, rec) && s.pools[home].osize == RECORD_SIZE
    ensures Rep(RecordWords(w, rec, align, osize, 0, head), head, s)
  {
    var v := RecordWords(w, rec, align, osize, 0, head);
    forall x | SlabOwned(s, x) ensures Rd(v, x) == Rd(w, x) {
      if InRange(x, rec, RECORD_SIZE) { OutNotOwned(s, home, rec, x); }
    }
    RepFrame(w, v, head, s);
  }

  /** A filled record in front of the list. */
  lemma {:induction false} ConsRecord(v: Words, head: int, s: Slabs, home: int, rec: int, osize: int, align: int)
    requires Rep(v, head, s)
    requires Rd(v, rec) == align && Rd(v, rec + 4) == osize && Rd(v, rec + 8) == 0 && Rd(v, rec + 12) == head
    ensures Rep(v, rec, AddCache(s, rec, home, osize, align))
  {
    var t := AddCache(s, rec, home, osize, align);
    forall b | b in t.pools ensures PoolRep(v, t, b) { assert PoolRep(v, s, b); }
    forall j | 0 <= j < |t.caches| ensures RecordRep(v, t, j) {
      assert j > 0 ==> RecordRep(v, s, j - 1) && RecPtr(t.caches, j + 1) == RecPtr(s.caches, j);
    }
    forall j | 0 <= j < |t.caches| ensures PoolsRep(v, t, j) {
      assert j > 0 ==> PoolsRep(v, s, j - 1) && t.caches[j].pools == s.caches[j - 1].pools;
    }
  }

  lemma {:induction false} AddCacheRep(w: Words, head: int, s: Slabs, home: int, rec: int, osize: int, align: int)
    requires Inv(s) && Rep(w, head, s) && Out(s, home, rec) && s.pools[home].osize == RECORD_SIZE
    ensures Rep(RecordWords(w, rec, align, osize, 0, head), rec, AddCache(s, rec, home, osize, align))
  {
    NewRecordFrame(w, head, s, home, rec, osize, align);
    ConsRecord(RecordWords(w, rec, align, osize, 0, head), head, s, home, rec, osize, align);
  }

  // ---------- what the allocators own shrinks as objects go out ----------

  lemma PopOwned(s: Slabs, a: int, x: int)
    requires HasFree(s.pools, a) && Owned(Pop(s, a), x)
    ensures Owned(s, x)
  {
    var t := Pop(s, a);
    if InHeader(t, x) {
      var b :| b in t.pools && InRange(x, b, HEADER_SIZE);
      assert b in s.pools;
    } else if InFree(t, x) {
      var b, f :| b in t.pools && f in t.pools[b].free && InRange(x, f, t.pools[b].osize);
      assert f in s.pools[b].free && InRange(x, f, s.pools[b].osize);
    } else if InRecord(t, x) {
      var i :| 0 <= i < |t.caches| && InRange(x, t.caches[i].rec, RECORD_SIZE);
      assert InRange(x, s.caches[i].rec, RECORD_SIZE);
    }
  }

  lemma GrowOwned(s: Slabs, i: nat, x: int)
    requires Inv(s) && i < |s.caches| && PoolIndex(s, s.caches[i].osize) < |s.areas|
    requires s.caches[i].osize > 0 && s.caches[i].align >= 0
    requires Owned(Grow(s, i), x)
    ensures Owned(s, x)
  {
    var t := Grow(s, i);
    var osize := s.caches[i].osize;
    assert CacheOk(s, i);
    GrowInv(s, i);
    CarvedRange(s, osize);
    var at := s.areas[PoolIndex(s, osize)].at;
    if InHeader(t, x) {
      var b :| b in t.pools && InRange(x, b, HEADER_SIZE);
      assert b != at ==> b in s.pools;
    } else if InFree(t, x) {
      var b, f :| b in t.pools && f in t.pools[b].free && InRange(x, f, t.pools[b].osize);
      if b == at {
        assert PoolOk(t, at);
        SlotInPool(t, at, f);
      } else {
        assert f in s.pools[b].free && InRange(x, f, s.pools[b].osize);
      }
    } else if InRecord(t, x) {
      var j :| 0 <= j < |t.caches| && InRange(x, t.caches[j].rec, RECORD_SIZE);
      assert InRange(x, s.caches[j].rec, RECORD_SIZE);
    }
  }

  lemma AddCacheOwned(s: Slabs, rec: int, home: int, osize: int, align: int, x: int)
    requires Owned(AddCache(s, rec, home, osize, align), x)
    ensures Owned(s, x) || InRange(x, rec, RECORD_SIZE)
  {
    var t := AddCache(s, rec, home, osize, align);
    if InHeader(t, x) {
      var b :| b in t.pools && InRange(x, b, HEADER_SIZE);
      assert b in s.pools;
    } else if InFree(t, x) {
      var b, f :| b in t.pools && f in t.pools[b].free && InRange(x, f, t.pools[b].osize);
      assert f in s.pools[b].free && InRange(x, f, s.pools[b].osize);
    } else if InRecord(t, x) {
      var j :| 0 <= j < |t.caches| && InRange(x, t.caches[j].rec, RECORD_SIZE);
      assert j > 0 ==> InRange(x, s.caches[j - 1].rec, RECORD_SIZE);
    }
  }

  /** An allocation from a class hands out memory the allocators owned, and owns no more than
      before. */
  lemma AllocInOwned(s: Slabs, i: nat, x: int)
    requires Inv(s) && i < |s.caches| && Served(s.caches[i].osize, s.caches[i].align) && AllocIn(s, i).Some?
    requires var (t, obj) := AllocIn(s, i).value; Owned(t, x) || InRange(x, obj, s.caches[i].osize)
    ensures Owned(s, x)
  {
    var c := s.caches[i];
    var j := FindPool(s.pools, c.pools);
    assert CacheOk(s, i);
    if j < |c.pools| {
      assert InClass(s, i, c.pools[j]);
      if InRange(x, AllocIn(s, i).value.1, c.osize) {
        assert InFree(s, x);
      } else {
        PopOwned(s, c.pools[j], x);
      }
    } else {
      GrowPools(s, i);
      var at := s.areas[PoolIndex(s, c.osize)].at;
      var t := Grow(s, i);
      if InRange(x, AllocIn(s, i).value.1, c.osize) {
        assert t.pools[at].free[0] in t.pools[at].free && InFree(t, x);
      } else {
        PopOwned(t, at, x);
      }
      GrowOwned(s, i, x);
    }
  }

  /** The slab's own data lies in its pools, which the page allocator has given away. */
  lemma SlabOwnedTaken(s: Slabs, x: int)
    requires Inv(s) && SlabOwned(s, x)
    ensures !Covers(s.areas, x)
  {
    if InHeader(s, x) {
      var a :| a in s.pools && InRange(x, a, HEADER_SIZE);
      assert PoolTaken(s, a) && PoolOk(s, a);
    } else if InFree(s, x) {
      var a, f :| a in s.pools && f in s.pools[a].free && InRange(x, f, s.pools[a].osize);
      assert PoolTaken(s, a) && PoolOk(s, a);
      SlotInPool(s, a, f);
    } else {
      var i :| 0 <= i < |s.caches| && InRange(x, s.caches[i].rec, RECORD_SIZE);
      RecordInSlot(s, i);
      assert PoolTaken(s, s.caches[i].home);
    }
  }

  /** A word of an outstanding object may be stored by its holder. */
  lemma {:induction false} ClientStore(w: Words, w2: Words, head: int, s: Slabs)
    requires Inv(s) && Rep(w, head, s)
    requires forall x :: Owned(s, x) ==> Rd(w2, x) == Rd(w, x)
    ensures Rep(w2, head, s)
  {
    RepFrame(w, w2, head, s);
  }
}
