/** What the page allocator promises over whole runs of pages_alloc and pages_free. */
module PageRuns {
  import opened Machine
  import opened Pages

  // ---------- one allocation ----------

  /** need contiguous free bytes from b on. */
  ghost predicate FreeRun(xs: seq<Area>, b: int, need: int) {
    forall c :: b <= c < b + need ==> Covers(xs, c)
  }

  /** A run of free bytes lies inside one extent: neighbours leave a gap. */
  lemma RunInOneExtent(xs: seq<Area>, b: int, need: int) returns (i: nat)
    requires Canonical(xs) && need > 0 && FreeRun(xs, b, need)
    ensures i < |xs| && xs[i].at <= b && b + need <= xs[i].End()
  {
    assert Covers(xs, b);
    i :| 0 <= i < |xs| && xs[i].at <= b < xs[i].End();
    var e := xs[i].End();
    EndNotCovered(xs, i);
    assert b <= e < b + need ==> Covers(xs, e);
  }

  lemma EndNotCovered(xs: seq<Area>, i: nat)
    requires Canonical(xs) && i < |xs|
    ensures !Covers(xs, xs[i].End())
  {
    Around(xs, i);
    if i + 1 < |xs| {
      assert Gap(xs, i);
      Around(xs, i + 1);
    }
  }

  /** First fit finds an extent exactly when enough contiguous bytes are free somewhere,
      and then no fitting run starts below the address it returns. */
  lemma FirstFitComplete(xs: seq<Area>, need: int)
    requires Canonical(xs) && need > 0
    ensures FirstFit(xs, need) < |xs| <==> exists b :: FreeRun(xs, b, need)
    ensures FirstFit(xs, need) < |xs| ==>
      var at := xs[FirstFit(xs, need)].at;
      FreeRun(xs, at, need) && forall b :: FreeRun(xs, b, need) ==> at <= b
  {
    var k: int := FirstFit(xs, need);
    if k < |xs| {
      assert FreeRun(xs, xs[k].at, need);
    }
    forall b | FreeRun(xs, b, need)
      ensures k < |xs| && xs[k].at <= b
    {
      var i := RunInOneExtent(xs, b, need);
      assert xs[i].size >= need;
      assert k <= i;
      if k < i { assert Below(xs, k, i); assert WellPlaced(xs[k]); }
    }
  }

  /** Giving back what was just allocated restores the identical list. */
  lemma AllocThenFree(xs: seq<Area>, k: nat, need: int)
    requires Canonical(xs) && k < |xs| && 0 < need <= xs[k].size && Aligned(need)
    ensures Release(Carve(xs, k, need), Area(xs[k].at, need)) == xs
  {
    var a := Area(xs[k].at, need);
    var ys := Carve(xs, k, need);
    assert WellPlaced(xs[k]);
    CarveCanonical(xs, k, need);
    forall b ensures Covers(ys, b) <==> Covers(xs, b) && !(a.at <= b < a.End()) {
      CarveCover(xs, k, need, b);
    }
    ReleaseMeaning(ys, a);
    assert forall b :: a.at <= b < a.End() ==> Covers(xs, b);
    CanonicalUnique(Release(ys, a), xs);
  }

  // ---------- whole runs ----------

  function PageOf(b: int): int { b - b % PAGE }

  function PagesIn(a: Area): set<int> {
    set p: int | a.at <= p < a.End() && Aligned(p)
  }

  /** The free list, and the base addresses of the pages handed out and not yet given back. */
  datatype Space = Space(free: seq<Area>, used: set<int>)

  datatype Event = Alloc(need: int) | Free(piece: Area)

  /** Callers ask for a positive number of pages that fits, and give back pages they hold. */
  ghost predicate Enabled(s: Space, e: Event) {
    match e
    case Alloc(need) => need > 0 && Aligned(need) && FirstFit(s.free, need) < |s.free|
    case Free(piece) => WellPlaced(piece) && PagesIn(piece) <= s.used
  }

  ghost function Step(s: Space, e: Event): Space
    requires Enabled(s, e)
  {
    match e
    case Alloc(need) =>
      var k := FirstFit(s.free, need);
      Space(Carve(s.free, k, need), s.used + PagesIn(Area(s.free[k].at, need)))
    case Free(piece) =>
      Space(Release(s.free, piece), s.used - PagesIn(piece))
  }

  ghost predicate Runs(s: Space, es: seq<Event>)
    decreases |es|
  {
    es == [] || (Enabled(s, es[0]) && Runs(Step(s, es[0]), es[1..]))
  }

  ghost function After(s: Space, es: seq<Event>): Space
    requires Runs(s, es)
    decreases |es|
  {
    if es == [] then s else After(Step(s, es[0]), es[1..])
  }

  const WHOLE := Area(P2V(RAM_START), RAM_END - RAM_START)

  const BOOT := Space([WHOLE], {})

  /** Every byte of RAM is either free or in a page handed out; nothing else is free. */
  ghost predicate Inv(s: Space) {
    && Canonical(s.free)
    && s.used <= PagesIn(WHOLE)
    && forall b :: Covers(s.free, b) <==> WHOLE.at <= b < WHOLE.End() && PageOf(b) !in s.used
  }

  lemma BootInv()
    ensures Inv(BOOT)
  {
    assert BOOT.free[0] == WHOLE;
    assert forall b :: Covers(BOOT.free, b) <==> WHOLE.at <= b < WHOLE.End();
  }

  lemma InPiece(a: Area, b: int)
    requires WellPlaced(a)
    ensures PageOf(b) in PagesIn(a) <==> a.at <= b < a.End()
  {
  }

  lemma StepInv(s: Space, e: Event)
    requires Inv(s) && Enabled(s, e)
    ensures Inv(Step(s, e))
  {
    match e
    case Alloc(need) =>
      var k := FirstFit(s.free, need);
      var a := Area(s.free[k].at, need);
      assert WellPlaced(s.free[k]);
      CarveCanonical(s.free, k, need);
      forall b ensures Covers(Carve(s.free, k, need), b) <==> Covers(s.free, b) && PageOf(b) !in PagesIn(a) {
        CarveCover(s.free, k, need, b);
        InPiece(a, b);
      }
      forall p | p in PagesIn(a) ensures p in PagesIn(WHOLE) {
        assert Covers(s.free, p);
      }
    case Free(piece) =>
      forall b | piece.at <= b < piece.End() ensures !Covers(s.free, b) && WHOLE.at <= b < WHOLE.End() {
        InPiece(piece, b);
        assert PageOf(b) in PagesIn(WHOLE);
        InPiece(WHOLE, b);
      }
      ReleaseMeaning(s.free, piece);
      forall b ensures PageOf(b) in PagesIn(piece) <==> piece.at <= b < piece.End() {
        InPiece(piece, b);
      }
  }

  lemma {:induction false} RunInv(s: Space, es: seq<Event>)
    requires Inv(s) && Runs(s, es)
    ensures Inv(After(s, es))
    decreases |es|
  {
    if es == [] {
    } else {
      StepInv(s, es[0]);
      RunInv(Step(s, es[0]), es[1..]);
    }
  }

  /** The list between calls depends only on which pages are out, not on how, in which order
      or in which pieces they were handed out and given back. */
  lemma ListIsCanonicalForm(es: seq<Event>, fs: seq<Event>)
    requires Runs(BOOT, es) && Runs(BOOT, fs) && After(BOOT, es).used == After(BOOT, fs).used
    ensures After(BOOT, es).free == After(BOOT, fs).free
  {
    BootInv();
    RunInv(BOOT, es);
    RunInv(BOOT, fs);
    CanonicalUnique(After(BOOT, es).free, After(BOOT, fs).free);
  }

  /** Once everything is given back, in whatever order and pieces, the list is the one
      init_pspace made. */
  lemma AllFreedRestoresBoot(es: seq<Event>)
    requires Runs(BOOT, es) && After(BOOT, es).used == {}
    ensures After(BOOT, es).free == [WHOLE]
  {
    ListIsCanonicalForm(es, []);
  }

  /** pages_alloc(0) ties the first node into a loop: no list of extents is stored any more. */
  lemma {:induction false} SelfLoopIsNoList(w: Words, head: int, xs: seq<Area>)
    requires head != 0 && Rd(w, head) == head && Canonical(xs)
    ensures !Chained(w, head, xs)
  {
    if Chained(w, head, xs) {
      assert Node(w, xs, 0);
      if |xs| > 1 { Around(xs, 0); }
    }
  }
}
