/** All page tables of the system together: every first-level table, second-level table and frame of
    a mapped page is memory of its own, over any run of mappings and other memory traffic. */
module PageWorld {
  import opened Basics
  import opened Machine
  import Pages
  import opened Slab
  import SlabRuns
  import SlabServe
  import opened SlabMemory
  import SlabAllocator
  import opened PageTable

  // ---------- what the page tables hold ----------

  /** The first-level table of process k, its table of entry i, and the frame of its page n. */
  datatype Region = Dir(k: nat) | Table(k: nat, i: int) | Frame(k: nat, n: int)

  /** Page n is mapped through a second-level table. */
  ghost predicate MappedPage(w: Words, pt: int, n: int) {
    HasTable(w, pt, n / L2_ENTRIES) && Mapped(w, pt, n)
  }

  ghost predicate Live(w: Words, pts: seq<int>, r: Region) {
    && r.k < |pts|
    && match r
       case Dir(k) => true
       case Table(k, i) => 0 <= i < L1_ENTRIES && HasTable(w, pts[k], i)
       case Frame(k, n) => 0 <= n < PAGES && MappedPage(w, pts[k], n)
  }

  function At(w: Words, pts: seq<int>, r: Region): int
    requires r.k < |pts|
  {
    match r
    case Dir(k) => pts[k]
    case Table(k, i) => TableOf(L1Entry(w, pts[k], i))
    case Frame(k, n) => P2V(FrameOf(PageEntry(w, pts[k], n)))
  }

  function Size(r: Region): int {
    match r
    case Dir(_) => L1_BYTES
    case Table(_, _) => L2_BYTES
    case Frame(_, _) => PAGE
  }

  /** A region lies in kernel memory, and no allocator owns any of it. */
  ghost predicate Held(s: Slabs, w: Words, pts: seq<int>, r: Region)
    requires r.k < |pts|
  {
    && KERNEL_BASE <= At(w, pts, r) && At(w, pts, r) + Size(r) < WORD_RANGE
    && Unowned(s, At(w, pts, r), Size(r))
  }

  ghost predicate RegionsApart(w: Words, pts: seq<int>, r: Region, q: Region)
    requires r.k < |pts| && q.k < |pts|
  {
    Apart(At(w, pts, r), Size(r), At(w, pts, q), Size(q))
  }

  /** Every region is held, and no two meet: no table is shared, and no frame is mapped twice. */
  ghost predicate World(s: Slabs, w: Words, pts: seq<int>) {
    && (forall r :: Live(w, pts, r) ==> Held(s, w, pts, r))
    && (forall r, q {:trigger RegionsApart(w, pts, r, q)} ::
          Live(w, pts, r) && Live(w, pts, q) && r != q ==> RegionsApart(w, pts, r, q))
  }

  lemma {:induction false} WorldTables(s: Slabs, w: Words, pts: seq<int>, k: nat)
    requires World(s, w, pts) && k < |pts|
    ensures Tables(s, w, pts[k])
  {
    assert Live(w, pts, Dir(k)) && Held(s, w, pts, Dir(k));
    forall i | 0 <= i < L1_ENTRIES && HasTable(w, pts[k], i) ensures TableHeld(s, w, pts[k], i) {
      assert Live(w, pts, Table(k, i)) && Held(s, w, pts, Table(k, i)) && RegionsApart(w, pts, Table(k, i), Dir(k));
    }
    forall i, j | 0 <= i < L1_ENTRIES && 0 <= j < L1_ENTRIES && i != j && HasTable(w, pts[k], i) &&
                   HasTable(w, pts[k], j)
      ensures TablesApart(w, pts[k], i, j)
    {
      assert Live(w, pts, Table(k, i)) && Live(w, pts, Table(k, j));
      assert RegionsApart(w, pts, Table(k, i), Table(k, j));
    }
  }

  // ---------- memory traffic that leaves the tables alone ----------

  /** x is a word of some process's tables. */
  ghost predicate TableWord(w: Words, pts: seq<int>, x: int) {
    exists r :: Live(w, pts, r) && !r.Frame? && InRange(x, At(w, pts, r), Size(r))
  }

  ghost predicate SameTables(w: Words, w2: Words, pts: seq<int>) {
    forall x :: TableWord(w, pts, x) ==> Rd(w2, x) == Rd(w, x)
  }

  /** With the words of the tables unchanged the same regions are live, in the same places. */
  lemma {:induction false} SameRegion(w: Words, w2: Words, pts: seq<int>, r: Region)
    requires SameTables(w, w2, pts) && r.k < |pts|
    ensures Live(w2, pts, r) <==> Live(w, pts, r)
    ensures Live(w, pts, r) ==> At(w2, pts, r) == At(w, pts, r)
  {
    match r
    case Dir(k) =>
    case Table(k, i) =>
      if 0 <= i < L1_ENTRIES { SameL1(w, w2, pts, k, i); }
    case Frame(k, n) =>
      if 0 <= n < PAGES { SamePage(w, w2, pts, k, n); }
  }

  lemma {:induction false} SameL1(w: Words, w2: Words, pts: seq<int>, k: nat, i: int)
    requires SameTables(w, w2, pts) && k < |pts| && 0 <= i < L1_ENTRIES
    ensures L1Entry(w2, pts[k], i) == L1Entry(w, pts[k], i)
  {
    assert Live(w, pts, Dir(k)) && InRange(pts[k] + 4 * i, At(w, pts, Dir(k)), Size(Dir(k)));
    assert TableWord(w, pts, pts[k] + 4 * i);
  }

  lemma {:induction false} SamePage(w: Words, w2: Words, pts: seq<int>, k: nat, n: int)
    requires SameTables(w, w2, pts) && k < |pts| && 0 <= n < PAGES
    ensures HasTable(w2, pts[k], n / L2_ENTRIES) <==> HasTable(w, pts[k], n / L2_ENTRIES)
    ensures HasTable(w, pts[k], n / L2_ENTRIES) ==> PageEntry(w2, pts[k], n) == PageEntry(w, pts[k], n)
  {
    var i := n / L2_ENTRIES;
    SameL1(w, w2, pts, k, i);
    if HasTable(w, pts[k], i) {
      var r := Table(k, i);
      var x := TableOf(L1Entry(w, pts[k], i)) + 4 * (n % L2_ENTRIES);
      assert Live(w, pts, r) && InRange(x, At(w, pts, r), Size(r));
      assert TableWord(w, pts, x);
    }
  }

  lemma {:induction false} WorldFrame(s: Slabs, w: Words, t: Slabs, w2: Words, pts: seq<int>)
    requires World(s, w, pts) && SameTables(w, w2, pts)
    requires forall r :: Live(w, pts, r) ==> Unowned(t, At(w, pts, r), Size(r))
    ensures World(t, w2, pts)
  {
    forall r | Live(w2, pts, r) ensures Held(t, w2, pts, r) {
      SameRegion(w, w2, pts, r);
      assert Held(s, w, pts, r);
    }
    forall r, q | Live(w2, pts, r) && Live(w2, pts, q) && r != q ensures RegionsApart(w2, pts, r, q) {
      SameRegion(w, w2, pts, r);
      SameRegion(w, w2, pts, q);
      assert RegionsApart(w, pts, r, q);
    }
  }

  /** A word of the tables is nobody's to write but mmap's. */
  lemma {:induction false} TableWordUnowned(s: Slabs, w: Words, pts: seq<int>, x: int)
    requires World(s, w, pts) && TableWord(w, pts, x)
    ensures !Owned(s, x)
  {
    var r :| Live(w, pts, r) && !r.Frame? && InRange(x, At(w, pts, r), Size(r));
    assert Held(s, w, pts, r);
  }

  // ---------- mmap keeps the world ----------

  /** Other processes' tables are not among the words an mmap may write. */
  lemma {:induction false} OthersNotWritten(s0: Slabs, w0: Words, pts: seq<int>, k: nat, r: Region, x: int)
    requires World(s0, w0, pts) && k < |pts| && Live(w0, pts, r) && r.k != k && InRange(x, At(w0, pts, r), Size(r))
    ensures !Owned(s0, x) && !InTables(w0, pts[k], x)
  {
    assert Held(s0, w0, pts, r);
    assert Live(w0, pts, Dir(k)) && RegionsApart(w0, pts, r, Dir(k));
    forall i | 0 <= i < L1_ENTRIES && HasTable(w0, pts[k], i)
      ensures !InRange(x, TableOf(L1Entry(w0, pts[k], i)), L2_BYTES)
    {
      assert Live(w0, pts, Table(k, i)) && RegionsApart(w0, pts, r, Table(k, i));
    }
  }

  ghost predicate Old(w0: Words, w: Words, pts: seq<int>, r: Region)
    requires r.k < |pts|
  {
    Live(w0, pts, r) && At(w, pts, r) == At(w0, pts, r)
  }

  /** What another process has is what it had. */
  lemma {:induction false} OtherRegion(s0: Slabs, w0: Words, w: Words, pts: seq<int>, k: nat, r: Region)
    requires World(s0, w0, pts) && k < |pts| && Wrote(s0, w0, w, pts[k])
    requires Live(w, pts, r) && r.k != k
    ensures Old(w0, w, pts, r)
  {
    match r
    case Dir(j) =>
    case Table(j, i) =>
      OthersNotWritten(s0, w0, pts, k, Dir(j), pts[j] + 4 * i);
    case Frame(j, n) =>
      var i := n / L2_ENTRIES;
      OthersNotWritten(s0, w0, pts, k, Dir(j), pts[j] + 4 * i);
      assert HasTable(w0, pts[j], i);
      var x := TableOf(L1Entry(w0, pts[j], i)) + 4 * (n % L2_ENTRIES);
      assert Live(w0, pts, Table(j, i)) && InRange(x, At(w0, pts, Table(j, i)), L2_BYTES);
      OthersNotWritten(s0, w0, pts, k, Table(j, i), x);
  }

  /** What the process itself has is what it had, or was the allocators' when the mmap began. */
  lemma {:induction false} OwnRegion(s0: Slabs, w0: Words, s: Slabs, w: Words, pts: seq<int>, k: nat, start: int,
                                     finish: int, bits: int, frames: map<int, int>, r: Region)
    requires k < |pts| && Progress(s0, w0, s, w, pts[k], start, finish, bits, frames, PAGES) && PageBits(bits)
    requires Live(w, pts, r) && r.k == k
    ensures Old(w0, w, pts, r) || AllOwned(s0, At(w, pts, r), Size(r))
    ensures r.Frame? && r.n in frames ==> At(w, pts, r) == frames[r.n] && FrameFresh(s0, s, w, pts[k], frames[r.n])
    ensures r.Frame? && r.n !in frames ==> Old(w0, w, pts, r)
    ensures r.Dir? ==> Old(w0, w, pts, r)
  {
    var pt := pts[k];
    match r
    case Dir(_) =>
    case Table(_, i) => assert L1Done(s0, w0, w, pt, i);
    case Frame(_, n) =>
      assert L1Done(s0, w0, w, pt, n / L2_ENTRIES) && EntryDone(w0, w, pt, bits, frames, n);
      if n in frames {
        assert FrameFresh(s0, s, w, pt, frames[n]);
        FrameBits(frames[n], bits);
      }
  }

  lemma {:induction false} RegionOldOrNew(s0: Slabs, w0: Words, s: Slabs, w: Words, pts: seq<int>, k: nat, start: int,
                                          finish: int, bits: int, frames: map<int, int>, r: Region)
    requires World(s0, w0, pts) && k < |pts| && PageBits(bits)
    requires Progress(s0, w0, s, w, pts[k], start, finish, bits, frames, PAGES) && Live(w, pts, r)
    ensures Old(w0, w, pts, r) || (r.k == k && AllOwned(s0, At(w, pts, r), Size(r)))
    ensures Held(s, w, pts, r)
  {
    if r.k != k {
      OtherRegion(s0, w0, w, pts, k, r);
    } else {
      OwnRegion(s0, w0, s, w, pts, k, start, finish, bits, frames, r);
    }
    if Old(w0, w, pts, r) {
      assert Held(s0, w0, pts, r);
    } else if r.Table? {
      assert TableHeld(s, w, pts[k], r.i);
    }
  }

  lemma {:induction false} OldNewApart(s0: Slabs, w0: Words, w: Words, pts: seq<int>, r: Region, q: Region)
    requires World(s0, w0, pts) && r.k < |pts| && q.k < |pts|
    requires Old(w0, w, pts, r) && AllOwned(s0, At(w, pts, q), Size(q))
    ensures RegionsApart(w, pts, r, q) && RegionsApart(w, pts, q, r)
  {
    assert Held(s0, w0, pts, r);
    OwnedApart(s0, At(w, pts, r), Size(r), At(w, pts, q), Size(q));
  }

  /** Two regions the mmap made. */
  lemma {:induction false} NewNewApart(s0: Slabs, w0: Words, s: Slabs, w: Words, pts: seq<int>, k: nat, start: int,
                                       finish: int, bits: int, frames: map<int, int>, r: Region, q: Region)
    requires k < |pts| && PageBits(bits) && Progress(s0, w0, s, w, pts[k], start, finish, bits, frames, PAGES)
    requires Live(w, pts, r) && Live(w, pts, q) && r != q && r.k == k == q.k
    requires !Old(w0, w, pts, r) && !Old(w0, w, pts, q)
    ensures RegionsApart(w, pts, r, q)
  {
    OwnRegion(s0, w0, s, w, pts, k, start, finish, bits, frames, r);
    OwnRegion(s0, w0, s, w, pts, k, start, finish, bits, frames, q);
    if r.Table? && q.Table? {
      assert TablesApart(w, pts[k], r.i, q.i);
    } else if r.Frame? && q.Frame? {
      assert FramesApart(frames, r.n, q.n);
    } else {
      assert HasTable(w, pts[k], if r.Table? then r.i else q.i);
    }
  }

  /** An mmap on any one table keeps the world: every mapped page of every table has a frame of its
      own, as before. */
  lemma {:induction false} MmapKeepsWorld(s0: Slabs, w0: Words, s: Slabs, w: Words, pts: seq<int>, k: nat, start: int,
                                          finish: int, bits: int, frames: map<int, int>)
    requires World(s0, w0, pts) && k < |pts| && PageBits(bits)
    requires Progress(s0, w0, s, w, pts[k], start, finish, bits, frames, PAGES)
    ensures World(s, w, pts)
  {
    forall r | Live(w, pts, r) ensures Held(s, w, pts, r) {
      RegionOldOrNew(s0, w0, s, w, pts, k, start, finish, bits, frames, r);
    }
    forall r, q | Live(w, pts, r) && Live(w, pts, q) && r != q ensures RegionsApart(w, pts, r, q) {
      RegionOldOrNew(s0, w0, s, w, pts, k, start, finish, bits, frames, r);
      RegionOldOrNew(s0, w0, s, w, pts, k, start, finish, bits, frames, q);
      if Old(w0, w, pts, r) && Old(w0, w, pts, q) {
        assert RegionsApart(w0, pts, r, q);
      } else if Old(w0, w, pts, r) {
        OldNewApart(s0, w0, w, pts, r, q);
      } else if Old(w0, w, pts, q) {
        OldNewApart(s0, w0, w, pts, q, r);
      } else {
        NewNewApart(s0, w0, s, w, pts, k, start, finish, bits, frames, r, q);
      }
    }
  }

  /** The frame of a page an mmap maps is the frame of no page that any table mapped before. */
  lemma {:induction false} NewFrameUnused(s0: Slabs, w0: Words, s: Slabs, w: Words, pts: seq<int>, k: nat, start: int,
                                          finish: int, bits: int, frames: map<int, int>, va: int, j: nat, vb: int)
    requires World(s0, w0, pts) && k < |pts| && PageBits(bits) && NoSections(w0, pts[k], start, finish)
    requires Progress(s0, w0, s, w, pts[k], start, finish, bits, frames, PAGES) && Visited(w, pts[k], start, finish)
    requires 0 <= va < WORD_RANGE && 0 <= start && finish < WORD_RANGE && InMap(va / PAGE, start, finish)
    requires !Mapped(w0, pts[k], va / PAGE)
    requires j < |pts| && 0 <= vb < WORD_RANGE && MappedPage(w0, pts[j], vb / PAGE)
    ensures WalkV2P(w, pts[k], va) != WalkV2P(w0, pts[j], vb)
  {
    MmapResolves(s0, w0, s, w, pts[k], start, finish, bits, frames, va);
    var r := Frame(j, vb / PAGE);
    assert Live(w0, pts, r) && Held(s0, w0, pts, r);
    assert vb / PAGE / L2_ENTRIES == vb / SECTION;
    WalkerReadsEntry(w0, pts[j], vb);
    assert Unowned(s0, At(w0, pts, r), PAGE);
    assert P2V(V2P(frames[va / PAGE])) == frames[va / PAGE];
  }

  // ---------- what allocation and release do to ownership ----------

  lemma PushOwned(s: Slabs, a: int, x: int, y: int)
    requires SlabRuns.Out(s, a, x) && Owned(Push(s, a, x), y)
    ensures Owned(s, y) || InRange(y, x, s.pools[a].osize)
  {
    var t := Push(s, a, x);
    if InHeader(t, y) {
      var b :| b in t.pools && InRange(y, b, HEADER_SIZE);
      assert b in s.pools;
    } else if InFree(t, y) {
      var b, f :| b in t.pools && f in t.pools[b].free && InRange(y, f, t.pools[b].osize);
      assert b != a || f != x ==> f in s.pools[b].free && InRange(y, f, s.pools[b].osize);
    } else if InRecord(t, y) {
      var i :| 0 <= i < |t.caches| && InRange(y, t.caches[i].rec, RECORD_SIZE);
      assert InRange(y, s.caches[i].rec, RECORD_SIZE);
    }
  }

  /** What a caller gives back with an event: start and length. */
  function Returned(s: Slabs, e: SlabRuns.Event): (int, int) {
    match e
    case Release(a, x) => (x, if a in s.pools then s.pools[a].osize else 0)
    case GivePages(piece) => (piece.at, piece.size)
    case _ => (0, 0)
  }

  /** The allocators come to own nothing but what they are given. */
  lemma TrafficOwned(s: Slabs, e: SlabRuns.Event, y: int)
    requires Inv(s) && SlabRuns.Enabled(s, e) && Owned(SlabRuns.Step(s, e), y)
    ensures Owned(s, y) || InRange(y, Returned(s, e).0, Returned(s, e).1)
  {
    match e
    case Allocate(osize, align) => SlabAllocator.AllocOwned(s, osize, align, y);
    case Release(a, x) => ReleasedOwned(s, a, x, y);
    case TakePages(need) => SlabAllocator.TakenFrames(s, need);
    case GivePages(piece) =>
      Pages.ReleaseMeaning(s.areas, piece);
      SlabAllocator.SlabOwnedSame(s, Pages.Release(s.areas, piece), y);
  }

  lemma ReleasedOwned(s: Slabs, a: int, x: int, y: int)
    requires Inv(s) && SlabRuns.Out(s, a, x) && Owned(SlabRuns.Step(s, SlabRuns.Release(a, x)), y)
    ensures Owned(s, y) || InRange(y, x, s.pools[a].osize)
  {
    SlabRuns.FreeMeaning(s, a, x);
    PushOwned(s, a, x, y);
  }

  // ---------- a new first-level table ----------

  /** A cleared table joins the others; it maps nothing yet. */
  lemma {:induction false} WorldExtend(t: Slabs, w: Words, pts: seq<int>, pt: int)
    requires World(t, w, pts) && Zeroed(w, pt, L1_BYTES)
    requires KERNEL_BASE <= pt && pt + L1_BYTES < WORD_RANGE && Unowned(t, pt, L1_BYTES)
    requires forall r :: Live(w, pts, r) ==> Apart(At(w, pts, r), Size(r), pt, L1_BYTES)
    ensures World(t, w, pts + [pt])
  {
    var all := pts + [pt];
    forall i | 0 <= i < L1_ENTRIES ensures !HasTable(w, pt, i) {
      assert InRange(pt + 4 * i, pt, L1_BYTES) && (pt + 4 * i - pt) % 4 == 0;
    }
    assert forall r :: Live(w, all, r) ==> (r.k < |pts| && Live(w, pts, r)) || r == Dir(|pts|);
    forall r | Live(w, all, r) ensures Held(t, w, all, r) {
      assert r.k < |pts| ==> Held(t, w, pts, r);
    }
    forall r, q | Live(w, all, r) && Live(w, all, q) && r != q ensures RegionsApart(w, all, r, q) {
      assert r.k < |pts| && q.k < |pts| ==> RegionsApart(w, pts, r, q);
    }
  }

  // ---------- whole runs ----------

  /** The allocators, memory, and the first-level tables of all processes. */
  datatype State = State(st: Slabs, w: Words, pts: seq<int>)

  datatype Event =
    | Traffic(e: SlabRuns.Event)
    | ClientStores
    | NewDir
    | Map(k: nat, start: int, finish: int, bits: int, frames: map<int, int>)

  /** What is given back is not a table or a frame in use. */
  ghost predicate ReturnsOwn(a: State, e: SlabRuns.Event) {
    var (at, n) := Returned(a.st, e);
    forall r :: Live(a.w, a.pts, r) ==> Apart(at, n, At(a.w, a.pts, r), Size(r))
  }

  /** Calls of the allocators write memory these own before or after; callers write what neither the
      allocators nor the page tables have, their frames included; a new table is allocated and
      cleared; and an mmap does what PageTable.Mmap promises. */
  ghost predicate Step(a: State, e: Event, b: State) {
    match e
    case Traffic(f) =>
      && SlabRuns.Enabled(a.st, f) && b.st == SlabRuns.Step(a.st, f) && b.pts == a.pts && ReturnsOwn(a, f)
      && forall x {:trigger Rd(b.w, x)} :: Rd(b.w, x) != Rd(a.w, x) ==> Owned(a.st, x) || Owned(b.st, x)
    case ClientStores =>
      && b.st == a.st && b.pts == a.pts
      && forall x {:trigger Rd(b.w, x)} :: Rd(b.w, x) != Rd(a.w, x) ==> !Owned(a.st, x) && !TableWord(a.w, a.pts, x)
    case NewDir =>
      && Served(L1_BYTES, L1_BYTES) && SlabRuns.SlbAlloc(a.st, L1_BYTES, L1_BYTES).Some?
      && b.st == SlabRuns.SlbAlloc(a.st, L1_BYTES, L1_BYTES).value.0
      && b.pts == a.pts + [SlabRuns.SlbAlloc(a.st, L1_BYTES, L1_BYTES).value.1]
      && Zeroed(b.w, b.pts[|a.pts|], L1_BYTES)
      && forall x {:trigger Rd(b.w, x)} :: Rd(b.w, x) != Rd(a.w, x) ==> Owned(a.st, x)
    case Map(k, start, finish, bits, frames) =>
      && k < |a.pts| && b.pts == a.pts && PageBits(bits) && Inv(b.st)
      && Progress(a.st, a.w, b.st, b.w, a.pts[k], start, finish, bits, frames, PAGES)
      && ServeMap(a.st, a.w, a.pts[k], start, finish) == Some(b.st)
  }

  /** mmap on any table of a world is one of these steps, and keeps the world. */
  method MapStep(slb: SlabAllocator.Slb, ghost pts: seq<int>, ghost k: nat, pt: int, start: int, finish: int,
                 pattern1: int, pattern2: int)
    returns (ok: bool, ghost frames: map<int, int>)
    requires slb.Valid() && World(slb.st, slb.space.ram.words, pts) && k < |pts| && pt == pts[k]
    requires TableBits(pattern1) && PageBits(pattern2) && NoSections(slb.space.ram.words, pt, start, finish)
    requires 0 <= start < WORD_RANGE && 0 <= finish < WORD_RANGE
    modifies slb, slb.space, slb.space.ram
    ensures
      var served := ServeMap(old(slb.st), old(slb.space.ram.words), pt, start, finish);
      (ok <==> served.Some?) && (ok ==> slb.st == served.value)
    ensures ok ==> slb.Valid() && World(slb.st, slb.space.ram.words, pts)
    ensures ok ==> AllDescribed(old(slb.space.ram.words), slb.space.ram.words, pt, start, finish, pattern1)
    ensures ok ==> Step(State(old(slb.st), old(slb.space.ram.words), pts), Map(k, start, finish, pattern2, frames),
                        State(slb.st, slb.space.ram.words, pts))
  {
    ghost var s, w := slb.st, slb.space.ram.words;
    WorldTables(s, w, pts, k);
    ok, frames := Mmap(slb, pt, start, finish, pattern1, pattern2);
    if ok {
      MmapKeepsWorld(s, w, slb.st, slb.space.ram.words, pts, k, start, finish, pattern2, frames);
    }
  }

  /** A first-level table as _fork makes it: allocated on its own size and cleared. */
  method DirStep(slb: SlabAllocator.Slb, ghost pts: seq<int>) returns (r: Maybe<int>)
    requires slb.Valid() && World(slb.st, slb.space.ram.words, pts)
    modifies slb, slb.space, slb.space.ram
    ensures r.Some? <==> SlabServe.CanServe(old(slb.st), L1_BYTES, L1_BYTES)
    ensures r.Some? ==> slb.Valid() && World(slb.st, slb.space.ram.words, pts + [r.value])
    ensures r.Some? ==> Step(State(old(slb.st), old(slb.space.ram.words), pts), NewDir,
                             State(slb.st, slb.space.ram.words, pts + [r.value]))
  {
    assert IsPow2(L1_BYTES);
    ghost var a := State(slb.st, slb.space.ram.words, pts);
    r := slb.SlbAllocAlign(L1_BYTES, L1_BYTES);
    if r.Some? {
      ghost var w := slb.space.ram.words;
      TableObject(a.st, slb.st, r.value, L1_BYTES);
      Zero(slb.space.ram, r.value, L1_ENTRIES);
      ClientStore(w, slb.space.ram.words, slb.slbHead, slb.st);
      SlabAllocator.ChainedFrame(w, slb.space.ram.words, slb.space.head, slb.space.areas);
      ghost var b := State(slb.st, slb.space.ram.words, pts + [r.value]);
      assert b.pts[|pts|] == r.value;
      NewDirWorld(a, b);
    }
  }

  lemma {:induction false} TrafficWorld(a: State, e: SlabRuns.Event, b: State)
    requires Inv(a.st) && World(a.st, a.w, a.pts) && Step(a, Traffic(e), b)
    ensures World(b.st, b.w, b.pts)
  {
    forall r | Live(a.w, a.pts, r) ensures Unowned(b.st, At(a.w, a.pts, r), Size(r)) {
      assert Held(a.st, a.w, a.pts, r);
      forall x | InRange(x, At(a.w, a.pts, r), Size(r)) ensures !Owned(b.st, x) {
        if Owned(b.st, x) { TrafficOwned(a.st, e, x); }
      }
    }
    forall x | TableWord(a.w, a.pts, x) ensures Rd(b.w, x) == Rd(a.w, x) {
      TableWordUnowned(a.st, a.w, a.pts, x);
    }
    WorldFrame(a.st, a.w, b.st, b.w, a.pts);
  }

  lemma {:induction false} NewDirWorld(a: State, b: State)
    requires Inv(a.st) && World(a.st, a.w, a.pts) && Step(a, NewDir, b)
    ensures Inv(b.st) && World(b.st, b.w, b.pts)
  {
    var pt := b.pts[|a.pts|];
    TableObject(a.st, b.st, pt, L1_BYTES);
    forall r | Live(a.w, a.pts, r) ensures Unowned(b.st, At(a.w, a.pts, r), Size(r)) {
      assert Held(a.st, a.w, a.pts, r);
    }
    forall x | TableWord(a.w, a.pts, x) ensures Rd(b.w, x) == Rd(a.w, x) {
      TableWordUnowned(a.st, a.w, a.pts, x);
    }
    WorldFrame(a.st, a.w, b.st, b.w, a.pts);
    forall r | Live(b.w, a.pts, r) ensures Apart(At(b.w, a.pts, r), Size(r), pt, L1_BYTES) {
      SameRegion(a.w, b.w, a.pts, r);
      assert Held(a.st, a.w, a.pts, r);
      OwnedApart(a.st, At(b.w, a.pts, r), Size(r), pt, L1_BYTES);
    }
    WorldExtend(b.st, b.w, a.pts, pt);
  }

  lemma {:induction false} StepWorld(a: State, e: Event, b: State)
    requires Inv(a.st) && World(a.st, a.w, a.pts) && Step(a, e, b)
    ensures Inv(b.st) && World(b.st, b.w, b.pts)
  {
    match e
    case Traffic(f) =>
      SlabRuns.StepInv(a.st, f);
      TrafficWorld(a, f, b);
    case ClientStores =>
      forall r | Live(a.w, a.pts, r) ensures Unowned(b.st, At(a.w, a.pts, r), Size(r)) {
        assert Held(a.st, a.w, a.pts, r);
      }
      WorldFrame(a.st, a.w, b.st, b.w, a.pts);
    case NewDir => NewDirWorld(a, b);
    case Map(k, start, finish, bits, frames) =>
      MmapKeepsWorld(a.st, a.w, b.st, b.w, a.pts, k, start, finish, bits, frames);
  }

  ghost predicate StepAt(ss: seq<State>, es: seq<Event>, i: int)
    requires 0 <= i < |es| && |ss| == |es| + 1
  {
    Step(ss[i], es[i], ss[i + 1])
  }

  /** States ss with the events es between them, from a sound state of the allocators on, with no
      table yet. */
  ghost predicate Run(ss: seq<State>, es: seq<Event>) {
    && |ss| == |es| + 1 && Inv(ss[0].st) && ss[0].pts == []
    && forall i :: 0 <= i < |es| ==> StepAt(ss, es, i)
  }

  lemma {:induction false} NoTables(s: Slabs, w: Words)
    ensures World(s, w, [])
  {
  }

  lemma {:induction false} RunWorld(ss: seq<State>, es: seq<Event>, i: nat)
    requires Run(ss, es) && i <= |es|
    ensures Inv(ss[i].st) && World(ss[i].st, ss[i].w, ss[i].pts)
  {
    if i == 0 {
      NoTables(ss[0].st, ss[0].w);
      assert ss[0].pts == [];
    } else {
      RunWorld(ss, es, i - 1);
      var a, e, b := ss[i - 1], es[i - 1], ss[i];
      assert Step(a, e, b) by { assert StepAt(ss, es, i - 1); }
      StepWorld(a, e, b);
    }
  }

  /** However many processes map, allocate, release and write, two pages mapped at the same time, of
      one table or of two, resolve to different frames, and no allocator owns a frame in use. */
  lemma {:induction false} FramesNeverShared(ss: seq<State>, es: seq<Event>, i: nat, j: nat, va: int, k: nat, vb: int)
    requires Run(ss, es) && i <= |es| && j < |ss[i].pts| && k < |ss[i].pts|
    requires 0 <= va < WORD_RANGE && MappedPage(ss[i].w, ss[i].pts[j], va / PAGE)
    requires 0 <= vb < WORD_RANGE && MappedPage(ss[i].w, ss[i].pts[k], vb / PAGE)
    requires j != k || va / PAGE != vb / PAGE
    ensures WalkV2P(ss[i].w, ss[i].pts[j], va) != WalkV2P(ss[i].w, ss[i].pts[k], vb)
    ensures Unowned(ss[i].st, P2V(WalkV2P(ss[i].w, ss[i].pts[j], va)), PAGE)
  {
    RunWorld(ss, es, i);
    var w, pts := ss[i].w, ss[i].pts;
    var r, q := Frame(j, va / PAGE), Frame(k, vb / PAGE);
    assert Live(w, pts, r) && Live(w, pts, q) && Held(ss[i].st, w, pts, r) && RegionsApart(w, pts, r, q);
    assert va / PAGE / L2_ENTRIES == va / SECTION && vb / PAGE / L2_ENTRIES == vb / SECTION;
    WalkerReadsEntry(w, pts[j], va);
    WalkerReadsEntry(w, pts[k], vb);
  }
}
