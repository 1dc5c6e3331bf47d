/** kern/mm/pages_manage.c: first-fit allocation of physical memory from an address-ordered
    list of free extents. The list nodes live in the first two words of the extents. */
module Pages {
  import opened Machine

  const RAM_START := 0x80_0000
  const RAM_END := 0x1f00_0000

  /** A free extent, named by the virtual address of its node. */
  datatype Area = Area(at: int, size: int) {
    function End(): int { at + size }
  }

  predicate Aligned(x: int) { x % PAGE == 0 }

  ghost predicate WellPlaced(a: Area) {
    && KERNEL_BASE <= a.at && 0 < a.size && a.End() < WORD_RANGE
    && Aligned(a.at) && Aligned(a.size)
  }

  /** Address order; neighbours may touch. */
  ghost predicate Ordered(xs: seq<Area>) {
    && (forall i {:trigger WellPlaced(xs[i])} :: 0 <= i < |xs| ==> WellPlaced(xs[i]))
    && (forall i, j :: 0 <= i < j < |xs| ==> Below(xs, i, j))
  }

  ghost predicate Below(xs: seq<Area>, i: int, j: int)
    requires 0 <= i < j < |xs|
  {
    xs[i].End() <= xs[j].at
  }

  /** Extents p and p + 1 do not touch. */
  ghost predicate Gap(xs: seq<Area>, p: int)
    requires 0 <= p < |xs| - 1
  {
    xs[p].End() < xs[p + 1].at
  }

  /** The form the list has between calls: ordered, and nothing left to coalesce. */
  ghost predicate Canonical(xs: seq<Area>) {
    && Ordered(xs)
    && (forall p :: 0 <= p < |xs| - 1 ==> Gap(xs, p))
  }

  ghost predicate Covers(xs: seq<Area>, b: int) {
    exists i :: 0 <= i < |xs| && xs[i].at <= b < xs[i].End()
  }

  function Ptr(xs: seq<Area>, i: nat): int {
    if i < |xs| then xs[i].at else 0
  }

  /** The words of memory spell out xs as a linked list starting at head. */
  ghost predicate Chained(w: Words, head: int, xs: seq<Area>) {
    && head == Ptr(xs, 0)
    && (forall i :: 0 <= i < |xs| ==> Node(w, xs, i))
  }

  /** The i-th node: its next pointer and its size. */
  ghost predicate Node(w: Words, xs: seq<Area>, i: int)
    requires 0 <= i < |xs|
  {
    Rd(w, xs[i].at) == Ptr(xs, i + 1) && Rd(w, xs[i].at + 4) == xs[i].size
  }

  // ---------- what the operations do to the list ----------

  /** Index of the first extent that is large enough, or |xs|. */
  function FirstFit(xs: seq<Area>, need: int): (k: nat)
    ensures k <= |xs|
    ensures k < |xs| ==> xs[k].size >= need
    ensures forall j :: 0 <= j < k ==> xs[j].size < need
  {
    if xs == [] || xs[0].size >= need then 0 else 1 + FirstFit(xs[1..], need)
  }

  lemma {:induction false} FirstFitIs(xs: seq<Area>, need: int, k: nat)
    requires k <= |xs| && (k < |xs| ==> xs[k].size >= need)
    requires forall j :: 0 <= j < k ==> xs[j].size < need
    ensures FirstFit(xs, need) == k
  {
    if k == 0 {
    } else {
      FirstFitIs(xs[1..], need, k - 1);
    }
  }

  function Remove(xs: seq<Area>, k: nat): seq<Area>
    requires k < |xs|
  {
    xs[..k] + xs[k + 1..]
  }

  /** Takes the front of extent k. */
  function Carve(xs: seq<Area>, k: nat, need: int): seq<Area>
    requires k < |xs|
  {
    if xs[k].size == need then Remove(xs, k)
    else xs[k := Area(xs[k].at + need, xs[k].size - need)]
  }

  /** Index of the first extent at or above an address, or |xs|. */
  function Place(xs: seq<Area>, at: int): (k: nat)
    ensures k <= |xs|
    ensures k < |xs| ==> xs[k].at >= at
    ensures forall j :: 0 <= j < k ==> xs[j].at < at
  {
    if xs == [] || xs[0].at >= at then 0 else 1 + Place(xs[1..], at)
  }

  lemma {:induction false} PlaceIs(xs: seq<Area>, at: int, k: nat)
    requires k <= |xs| && (k < |xs| ==> xs[k].at >= at)
    requires forall j :: 0 <= j < k ==> xs[j].at < at
    ensures Place(xs, at) == k
  {
    if k == 0 {
    } else {
      PlaceIs(xs[1..], at, k - 1);
    }
  }

  /** Joins extents i and i + 1 when they touch. */
  function Join(xs: seq<Area>, i: int): seq<Area> {
    if 0 <= i && i + 1 < |xs| && xs[i].End() == xs[i + 1].at
    then Remove(xs, i + 1)[i := Area(xs[i].at, xs[i].size + xs[i + 1].size)]
    else xs
  }

  function Insert(xs: seq<Area>, a: Area): seq<Area> {
    var k := Place(xs, a.at);
    xs[..k] + [a] + xs[k..]
  }

  /** Gives a back: inserted in order, joined to the left, then to the right. */
  function Release(xs: seq<Area>, a: Area): seq<Area> {
    var k: int := Place(xs, a.at);
    var ys := Insert(xs, a);
    var zs := Join(ys, k - 1);
    Join(zs, if |zs| < |ys| then k - 1 else k)
  }

  // ---------- the list determines, and is determined by, the free bytes ----------

  ghost predicate SameCover(xs: seq<Area>, ys: seq<Area>) {
    forall b :: Covers(xs, b) <==> Covers(ys, b)
  }

  /** Where the other extents lie relative to extent k. */
  lemma Around(xs: seq<Area>, k: int)
    requires Ordered(xs) && 0 <= k < |xs|
    ensures WellPlaced(xs[k])
    ensures forall i :: 0 <= i < k ==> xs[i].End() <= xs[k].at
    ensures forall j :: k < j < |xs| ==> xs[k].End() <= xs[j].at
  {
    assert WellPlaced(xs[k]);
    forall i | 0 <= i < k ensures xs[i].End() <= xs[k].at { assert Below(xs, i, k); }
    forall j | k < j < |xs| ensures xs[k].End() <= xs[j].at { assert Below(xs, k, j); }
  }

  lemma FirstByteCovered(xs: seq<Area>)
    requires Ordered(xs) && xs != []
    ensures Covers(xs, xs[0].at)
    ensures forall b :: Covers(xs, b) ==> xs[0].at <= b
  {
    Around(xs, 0);
  }

  lemma GapAfterFirst(xs: seq<Area>)
    requires Canonical(xs) && xs != []
    ensures !Covers(xs, xs[0].End())
  {
    Around(xs, 0);
    if |xs| > 1 {
      assert Gap(xs, 0);
      Around(xs, 1);
    }
  }

  lemma TailCanonical(xs: seq<Area>)
    requires Canonical(xs) && xs != []
    ensures Canonical(xs[1..])
  {
    var ys := xs[1..];
    forall i | 0 <= i < |ys| ensures WellPlaced(ys[i]) { assert WellPlaced(xs[i + 1]); }
    forall i, j | 0 <= i < j < |ys| ensures Below(ys, i, j) { assert Below(xs, i + 1, j + 1); }
    forall p | 0 <= p < |ys| - 1 ensures Gap(ys, p) { assert Gap(xs, p + 1); }
  }

  lemma CoverTail(xs: seq<Area>, b: int)
    requires Ordered(xs) && xs != []
    ensures Covers(xs[1..], b) <==> Covers(xs, b) && !(xs[0].at <= b < xs[0].End())
  {
    Around(xs, 0);
    if Covers(xs, b) && !(xs[0].at <= b < xs[0].End()) {
      var i :| 0 <= i < |xs| && xs[i].at <= b < xs[i].End();
      assert xs[1..][i - 1] == xs[i];
    }
    if Covers(xs[1..], b) {
      var i :| 0 <= i < |xs[1..]| && xs[1..][i].at <= b < xs[1..][i].End();
      assert xs[i + 1] == xs[1..][i];
    }
  }

  /** Two canonical lists of the same free bytes are the same list. */
  lemma {:induction false} CanonicalUnique(xs: seq<Area>, ys: seq<Area>)
    requires Canonical(xs) && Canonical(ys) && SameCover(xs, ys)
    ensures xs == ys
  {
    if xs == [] || ys == [] {
      if xs != [] { FirstByteCovered(xs); }
      if ys != [] { FirstByteCovered(ys); }
    } else {
      FirstByteCovered(xs);
      FirstByteCovered(ys);
      FirstExtentEqual(xs, ys);
      forall b ensures Covers(xs[1..], b) <==> Covers(ys[1..], b) {
        CoverTail(xs, b);
        CoverTail(ys, b);
      }
      TailCanonical(xs);
      TailCanonical(ys);
      CanonicalUnique(xs[1..], ys[1..]);
    }
  }

  lemma FirstExtentEqual(xs: seq<Area>, ys: seq<Area>)
    requires Canonical(xs) && Canonical(ys) && SameCover(xs, ys)
    requires xs != [] && ys != []
    ensures xs[0] == ys[0]
  {
    FirstByteCovered(xs);
    FirstByteCovered(ys);
    GapAfterFirst(xs);
    GapAfterFirst(ys);
    var x, y := xs[0], ys[0];
    assert WellPlaced(xs[0]) && WellPlaced(ys[0]);
    assert y.at <= x.End() < y.End() ==> Covers(ys, x.End());
    assert x.at <= y.End() < x.End() ==> Covers(xs, y.End());
  }

  // ---------- carving ----------

  lemma CarveCanonical(xs: seq<Area>, k: nat, need: int)
    requires Canonical(xs) && k < |xs| && 0 < need <= xs[k].size && Aligned(need)
    ensures Canonical(Carve(xs, k, need))
  {
    var ys := Carve(xs, k, need);
    var shift := if xs[k].size == need then 1 else 0;
    assert WellPlaced(xs[k]);
    forall i | 0 <= i < |ys| ensures WellPlaced(ys[i]) {
      assert WellPlaced(xs[if i < k then i else i + shift]);
    }
    forall i, j | 0 <= i < j < |ys| ensures Below(ys, i, j) {
      assert Below(xs, if i < k then i else i + shift, if j < k then j else j + shift);
    }
    forall p | 0 <= p < |ys| - 1 ensures Gap(ys, p) {
      assert Gap(xs, if p < k then p else p + shift);
      if p == k - 1 && shift == 1 { Around(xs, k); assert Gap(xs, k); }
    }
  }

  /** Exactly the front of extent k stops being free. */
  lemma CarveCover(xs: seq<Area>, k: nat, need: int, b: int)
    requires Canonical(xs) && k < |xs| && 0 < need <= xs[k].size
    ensures Covers(Carve(xs, k, need), b) <==> Covers(xs, b) && !(xs[k].at <= b < xs[k].at + need)
  {
    forall i | 0 <= i < |xs| && i != k
      ensures xs[i].End() <= xs[k].at || xs[k].End() <= xs[i].at
    {
      assert Below(xs, if i < k then i else k, if i < k then k else i);
    }
    CarveCoverAt(xs, k, need, b);
  }

  lemma CarveCoverAt(xs: seq<Area>, k: nat, need: int, b: int)
    requires k < |xs| && 0 < need <= xs[k].size
    requires forall i :: 0 <= i < |xs| && i != k ==> xs[i].End() <= xs[k].at || xs[k].End() <= xs[i].at
    ensures Covers(Carve(xs, k, need), b) <==> Covers(xs, b) && !(xs[k].at <= b < xs[k].at + need)
  {
    var ys := Carve(xs, k, need);
    if Covers(xs, b) && !(xs[k].at <= b < xs[k].at + need) {
      var i :| 0 <= i < |xs| && xs[i].at <= b < xs[i].End();
      var j := if xs[k].size == need && i > k then i - 1 else i;
      assert ys[j].at <= b < ys[j].End();
    }
    if Covers(ys, b) {
      var i :| 0 <= i < |ys| && ys[i].at <= b < ys[i].End();
      var j := if xs[k].size == need && i >= k then i + 1 else i;
      assert xs[j].at <= b < xs[j].End();
    }
  }

  // ---------- releasing ----------

  ghost predicate Disjoint(xs: seq<Area>, a: Area) {
    forall b :: a.at <= b < a.End() ==> !Covers(xs, b)
  }

  lemma InsertPlace(xs: seq<Area>, a: Area)
    requires Canonical(xs) && WellPlaced(a) && Disjoint(xs, a)
    ensures var k := Place(xs, a.at);
      && (forall j :: 0 <= j < k ==> xs[j].End() <= a.at)
      && (forall j :: k <= j < |xs| ==> a.End() <= xs[j].at)
  {
    var k := Place(xs, a.at);
    forall j | 0 <= j < k ensures xs[j].End() <= a.at {
      assert !Covers(xs, a.at);
      assert xs[j].at <= a.at < xs[j].End() ==> Covers(xs, a.at);
    }
    forall j | k <= j < |xs| ensures a.End() <= xs[j].at {
      assert WellPlaced(xs[j]) && WellPlaced(xs[k]);
      assert k < j ==> Below(xs, k, j);
      assert Covers(xs, xs[j].at);
    }
  }

  lemma SpliceOrdered(xs: seq<Area>, k: nat, a: Area)
    requires Ordered(xs) && WellPlaced(a) && k <= |xs|
    requires forall j :: 0 <= j < k ==> xs[j].End() <= a.at
    requires forall j :: k <= j < |xs| ==> a.End() <= xs[j].at
    ensures Ordered(xs[..k] + [a] + xs[k..])
  {
    var ys := xs[..k] + [a] + xs[k..];
    forall i | 0 <= i < |ys| ensures WellPlaced(ys[i]) {
      assert i != k ==> WellPlaced(xs[if i < k then i else i - 1]);
    }
    forall i, j | 0 <= i < j < |ys| ensures Below(ys, i, j) {
      if i == k {
        assert ys[j] == xs[j - 1];
      } else if j == k {
        assert ys[i] == xs[i];
      } else {
        assert Below(xs, if i < k then i else i - 1, if j < k then j else j - 1);
      }
    }
  }

  lemma InsertCover(xs: seq<Area>, a: Area, b: int)
    ensures Covers(Insert(xs, a), b) <==> Covers(xs, b) || a.at <= b < a.End()
  {
    var k := Place(xs, a.at);
    var ys := Insert(xs, a);
    if Covers(xs, b) {
      var i :| 0 <= i < |xs| && xs[i].at <= b < xs[i].End();
      assert ys[if i < k then i else i + 1] == xs[i];
    }
    if a.at <= b < a.End() { assert ys[k] == a; }
    if Covers(ys, b) {
      var i :| 0 <= i < |ys| && ys[i].at <= b < ys[i].End();
      if i != k { assert ys[i] == xs[if i < k then i else i - 1]; }
    }
  }

  lemma JoinOrdered(xs: seq<Area>, i: int)
    requires Ordered(xs)
    ensures Ordered(Join(xs, i))
  {
    if 0 <= i && i + 1 < |xs| && xs[i].End() == xs[i + 1].at {
      var ys := Join(xs, i);
      JoinPlaced(xs, i);
      forall p, q | 0 <= p < q < |ys| ensures Below(ys, p, q) {
        assert Below(xs, if p < i then p else p + 1, if q <= i then q else q + 1);
      }
    }
  }

  lemma JoinPlaced(xs: seq<Area>, i: nat)
    requires Ordered(xs) && i + 1 < |xs| && xs[i].End() == xs[i + 1].at
    ensures forall j {:trigger WellPlaced(Join(xs, i)[j])} :: 0 <= j < |Join(xs, i)| ==> WellPlaced(Join(xs, i)[j])
  {
    var ys := Join(xs, i);
    assert WellPlaced(xs[i]) && WellPlaced(xs[i + 1]);
    forall j | 0 <= j < |ys| ensures WellPlaced(ys[j]) {
      assert j != i ==> WellPlaced(xs[if j < i then j else j + 1]);
    }
  }

  lemma JoinCover(xs: seq<Area>, i: int, b: int)
    requires 0 <= i && i + 1 < |xs| ==> xs[i].size > 0 && xs[i + 1].size > 0
    ensures Covers(Join(xs, i), b) <==> Covers(xs, b)
  {
    if 0 <= i && i + 1 < |xs| && xs[i].End() == xs[i + 1].at {
      if Covers(xs, b) { JoinKeeps(xs, i, b); }
      if Covers(Join(xs, i), b) { JoinAddsNothing(xs, i, b); }
    }
  }

  lemma JoinKeeps(xs: seq<Area>, i: nat, b: int)
    requires i + 1 < |xs| && xs[i].End() == xs[i + 1].at
    requires xs[i].size > 0 && xs[i + 1].size > 0 && Covers(xs, b)
    ensures Covers(Join(xs, i), b)
  {
    var ys := Join(xs, i);
    var j :| 0 <= j < |xs| && xs[j].at <= b < xs[j].End();
    if j < i {
      assert ys[j] == xs[j];
    } else if j <= i + 1 {
      assert ys[i] == Area(xs[i].at, xs[i].size + xs[i + 1].size);
    } else {
      assert ys[j - 1] == xs[j];
    }
  }

  lemma JoinAddsNothing(xs: seq<Area>, i: nat, b: int)
    requires i + 1 < |xs| && xs[i].End() == xs[i + 1].at && Covers(Join(xs, i), b)
    ensures Covers(xs, b)
  {
    var ys := Join(xs, i);
    var j :| 0 <= j < |ys| && ys[j].at <= b < ys[j].End();
    if j < i {
      assert ys[j] == xs[j];
    } else if j == i {
      assert ys[i] == Area(xs[i].at, xs[i].size + xs[i + 1].size);
      assert b < xs[i].End() || xs[i + 1].at <= b < xs[i + 1].End();
    } else {
      assert ys[j] == xs[j + 1];
    }
  }

  /** Every neighbour pair (p, p + 1) leaves a gap, except possibly the pairs i and j. */
  ghost predicate GapsExcept(xs: seq<Area>, i: int, j: int) {
    forall p :: 0 <= p < |xs| - 1 && p != i && p != j ==> Gap(xs, p)
  }

  /** Joining at i closes the pair i; a hole just after it stays the hole just after it. */
  lemma JoinGaps(xs: seq<Area>, i: int, hole: int)
    requires Ordered(xs) && GapsExcept(xs, i, hole) && (hole == i + 1 || hole == -1)
    ensures var ys := Join(xs, i);
            var h := if hole != -1 && |ys| < |xs| then i else hole;
            GapsExcept(ys, h, h)
  {
    var ys := Join(xs, i);
    var h := if hole != -1 && |ys| < |xs| then i else hole;
    forall p | 0 <= p < |ys| - 1 && p != h ensures Gap(ys, p) {
      if |ys| == |xs| {
        assert if p != i then Gap(xs, p) else Below(xs, p, p + 1);
      } else if p < i {
        assert Gap(xs, p);
      } else {
        assert Gap(xs, p + 1);
        assert ys[p + 1] == xs[p + 2];
        assert p > i ==> ys[p] == xs[p + 1];
      }
    }
  }

  lemma InsertGaps(xs: seq<Area>, a: Area)
    requires Canonical(xs)
    ensures var k: int := Place(xs, a.at); GapsExcept(Insert(xs, a), k - 1, k)
  {
    var k: int := Place(xs, a.at);
    var ys := Insert(xs, a);
    forall p | 0 <= p < |ys| - 1 && p != k && p != k - 1 ensures Gap(ys, p) {
      assert Gap(xs, if p < k then p else p - 1);
    }
  }

  lemma ReleaseCanonical(xs: seq<Area>, a: Area)
    requires Canonical(xs) && WellPlaced(a) && Disjoint(xs, a)
    ensures Ordered(Insert(xs, a)) && Canonical(Release(xs, a))
  {
    var k: int := Place(xs, a.at);
    var ys := Insert(xs, a);
    InsertPlace(xs, a);
    SpliceOrdered(xs, k, a);
    InsertGaps(xs, a);
    var zs := Join(ys, k - 1);
    var j := if |zs| < |ys| then k - 1 else k;
    JoinOrdered(ys, k - 1);
    JoinGaps(ys, k - 1, k);
    JoinOrdered(zs, j);
    JoinGaps(zs, j, -1);
  }

  lemma JoinCoverAll(xs: seq<Area>, i: int)
    requires Ordered(xs)
    ensures SameCover(xs, Join(xs, i))
  {
    if 0 <= i && i + 1 < |xs| {
      assert WellPlaced(xs[i]) && WellPlaced(xs[i + 1]);
    }
    forall b ensures Covers(Join(xs, i), b) <==> Covers(xs, b) {
      JoinCover(xs, i, b);
    }
  }

  /** Giving back a well-placed extent that is not free keeps the list canonical and frees
      exactly its bytes. */
  lemma ReleaseMeaning(xs: seq<Area>, a: Area)
    requires Canonical(xs) && WellPlaced(a) && Disjoint(xs, a)
    ensures Canonical(Release(xs, a))
    ensures forall b :: Covers(Release(xs, a), b) <==> Covers(xs, b) || a.at <= b < a.End()
  {
    ReleaseCanonical(xs, a);
    var k: int := Place(xs, a.at);
    var ys := Insert(xs, a);
    var zs := Join(ys, k - 1);
    var j := if |zs| < |ys| then k - 1 else k;
    JoinOrdered(ys, k - 1);
    JoinCoverAll(ys, k - 1);
    JoinCoverAll(zs, j);
    forall b ensures Covers(Release(xs, a), b) <==> Covers(xs, b) || a.at <= b < a.End() {
      InsertCover(xs, a, b);
    }
  }

  // ---------- the list in memory ----------

  /** Nodes sit at least a page apart, so the two words of one node are not those of another. */
  lemma NodesApart(xs: seq<Area>, i: int, j: int)
    requires Ordered(xs) && 0 <= i < |xs| && 0 <= j < |xs| && i != j
    ensures xs[i].at + PAGE <= xs[j].at || xs[j].at + PAGE <= xs[i].at
  {
    assert Below(xs, if i < j then i else j, if i < j then j else i);
    assert WellPlaced(xs[i]) && WellPlaced(xs[j]);
  }

  ghost predicate ApartFrom(xs: seq<Area>, k: int)
    requires 0 <= k < |xs|
  {
    forall i :: 0 <= i < |xs| && i != k ==> xs[i].at + PAGE <= xs[k].at || xs[k].at + PAGE <= xs[i].at
  }

  lemma AllNodesApart(xs: seq<Area>, k: int)
    requires Ordered(xs) && 0 <= k < |xs|
    ensures ApartFrom(xs, k)
  {
    forall i | 0 <= i < |xs| && i != k
      ensures xs[i].at + PAGE <= xs[k].at || xs[k].at + PAGE <= xs[i].at
    {
      NodesApart(xs, i, k);
    }
  }

  function Split(xs: seq<Area>, k: nat, first: int): seq<Area>
    requires k < |xs|
  {
    xs[..k] + [Area(xs[k].at, first), Area(xs[k].at + first, xs[k].size - first)] + xs[k + 1..]
  }

  lemma {:induction false} RemoveChained(w: Words, head: int, xs: seq<Area>, k: nat)
    requires k < |xs| && Chained(w, head, xs) && (k > 0 ==> ApartFrom(xs, k - 1))
    ensures var next := Ptr(xs, k + 1);
            Chained(if k > 0 then w[xs[k - 1].at := next] else w, if k == 0 then next else head, Remove(xs, k))
  {
    var next := Ptr(xs, k + 1);
    var ys := Remove(xs, k);
    var w2 := if k > 0 then w[xs[k - 1].at := next] else w;
    forall i | 0 <= i < |ys| ensures Node(w2, ys, i) {
      var j := if i < k then i else i + 1;
      assert ys[i] == xs[j];
      assert Node(w, xs, j);
    }
  }

  lemma SplitOrdered(xs: seq<Area>, k: nat, first: int)
    requires Ordered(xs) && k < |xs| && 0 < first < xs[k].size && Aligned(first)
    ensures Ordered(Split(xs, k, first))
  {
    SplitPlaced(xs, k, first);
    forall i, j | 0 <= i < j < |Split(xs, k, first)| ensures Below(Split(xs, k, first), i, j) {
      SplitBelow(xs, k, first, i, j);
    }
  }

  lemma SplitPlaced(xs: seq<Area>, k: nat, first: int)
    requires Ordered(xs) && k < |xs| && 0 < first < xs[k].size && Aligned(first)
    ensures forall i {:trigger WellPlaced(Split(xs, k, first)[i])} ::
      0 <= i < |xs| + 1 ==> WellPlaced(Split(xs, k, first)[i])
  {
    var ys := Split(xs, k, first);
    assert WellPlaced(xs[k]);
    forall i | 0 <= i < |ys| ensures WellPlaced(ys[i]) {
      assert WellPlaced(xs[if i <= k then i else i - 1]);
    }
  }

  lemma SplitBelow(xs: seq<Area>, k: nat, first: int, i: int, j: int)
    requires Ordered(xs) && k < |xs| && 0 < first < xs[k].size && 0 <= i < j <= |xs|
    ensures Below(Split(xs, k, first), i, j)
  {
    var p, q := if i <= k then i else i - 1, if j <= k then j else j - 1;
    assert p < q ==> Below(xs, p, q);
    assert WellPlaced(xs[k]);
  }

  lemma {:induction false} SplitChained(w: Words, head: int, xs: seq<Area>, k: nat, first: int)
    requires k < |xs| && Chained(w, head, xs)
    requires ApartFrom(Split(xs, k, first), k) && ApartFrom(Split(xs, k, first), k + 1)
    ensures var p := xs[k].at;
            Chained(SplitWords(w, p, first), head, Split(xs, k, first))
  {
    var p, q := xs[k].at, xs[k].at + first;
    var w2 := SplitWords(w, p, first);
    assert Node(w, xs, k);
    var ys := Split(xs, k, first);
    assert ys[k] == Area(p, first) && ys[k + 1] == Area(q, xs[k].size - first);
    forall i | 0 <= i < |ys| ensures Node(w2, ys, i) {
      if i != k && i != k + 1 {
        var j := if i < k then i else i - 1;
        assert ys[i] == xs[j];
        assert Node(w, xs, j);
      }
    }
  }

  /** The stores that link a new node t in between last and next. */
  function LinkWords(w: Words, last: int, t: int, next: int, size: int): Words {
    var w1 := w[t + 4 := size][t := next];
    if last == 0 then w1 else w1[last := t]
  }

  lemma {:induction false} InsertChained(w: Words, head: int, xs: seq<Area>, k: nat, a: Area, last: int)
    requires k <= |xs| && Chained(w, head, xs)
    requires if k == 0 then last == 0 else last == xs[k - 1].at != 0
    requires var ys := xs[..k] + [a] + xs[k..]; ApartFrom(ys, k) && (k > 0 ==> ApartFrom(ys, k - 1))
    ensures
      var head2 := if k == 0 then a.at else head;
      Chained(LinkWords(w, last, a.at, Ptr(xs, k), a.size), head2, xs[..k] + [a] + xs[k..])
  {
    var w2 := LinkWords(w, last, a.at, Ptr(xs, k), a.size);
    var ys := xs[..k] + [a] + xs[k..];
    assert ys[k] == a && (k > 0 ==> ys[k - 1] == xs[k - 1]);
    forall i | 0 <= i < |ys| ensures Node(w2, ys, i) {
      if i != k {
        var j := if i < k then i else i - 1;
        assert ys[i] == xs[j];
        assert Node(w, xs, j);
      }
    }
  }

  /** The stores that merge the node at n into the node at p. */
  function JoinWords(w: Words, p: int, n: int): Words {
    var w1 := w[p := Rd(w, n)];
    w1[p + 4 := Rd(w1, p + 4) + Rd(w1, n + 4)]
  }

  lemma {:induction false} JoinChained(w: Words, head: int, xs: seq<Area>, i: nat)
    requires i + 1 < |xs| && xs[i].End() == xs[i + 1].at && Chained(w, head, xs) && ApartFrom(xs, i)
    ensures Chained(JoinWords(w, xs[i].at, xs[i + 1].at), head, Join(xs, i))
  {
    JoinUnlinks(w, head, xs, i);
    ApartAfterRemove(xs, i);
    ResizeChained(w[xs[i].at := Rd(w, xs[i + 1].at)], head, Remove(xs, i + 1), i, xs[i].size + xs[i + 1].size);
  }

  lemma {:induction false} JoinUnlinks(w: Words, head: int, xs: seq<Area>, i: nat)
    requires i + 1 < |xs| && Chained(w, head, xs) && ApartFrom(xs, i)
    ensures var p, n := xs[i].at, xs[i + 1].at;
      var w1 := w[p := Rd(w, n)];
      && Chained(w1, head, Remove(xs, i + 1)) && Remove(xs, i + 1)[i].at == p
      && JoinWords(w, p, n) == w1[p + 4 := xs[i].size + xs[i + 1].size]
  {
    assert Node(w, xs, i) && Node(w, xs, i + 1);
    RemoveChained(w, head, xs, i + 1);
  }

  lemma ApartAfterRemove(xs: seq<Area>, i: nat)
    requires i + 1 < |xs| && ApartFrom(xs, i)
    ensures ApartFrom(Remove(xs, i + 1), i)
  {
    var ys := Remove(xs, i + 1);
    assert ys[i] == xs[i];
    forall j | 0 <= j < |ys| && j != i ensures ys[j].at + PAGE <= ys[i].at || ys[i].at + PAGE <= ys[j].at {
      assert ys[j] == xs[if j < i then j else j + 1];
    }
  }

  lemma {:induction false} ResizeChained(w: Words, head: int, xs: seq<Area>, i: nat, size: int)
    requires i < |xs| && Chained(w, head, xs) && ApartFrom(xs, i)
    ensures Chained(w[xs[i].at + 4 := size], head, xs[i := Area(xs[i].at, size)])
  {
    var ys := xs[i := Area(xs[i].at, size)];
    var w2 := w[xs[i].at + 4 := size];
    forall j | 0 <= j < |ys| ensures Node(w2, ys, j) {
      assert Node(w, xs, j);
    }
  }

  /** Merging node i with its neighbour, if they touch, or leaving the list alone. */
  lemma {:induction false} JoinStep(w: Words, head: int, xs: seq<Area>, i: int)
    requires Ordered(xs) && Chained(w, head, xs) && 0 <= i < |xs|
    ensures Rd(w, xs[i].at) == Ptr(xs, i + 1) && Rd(w, xs[i].at + 4) == xs[i].size
    ensures WellPlaced(xs[i]) && (i + 1 < |xs| ==> WellPlaced(xs[i + 1]))
    ensures if i + 1 < |xs| && xs[i].End() == xs[i + 1].at
      then Chained(JoinWords(w, xs[i].at, xs[i + 1].at), head, Join(xs, i))
      else Join(xs, i) == xs
  {
    assert Node(w, xs, i);
    if i + 1 < |xs| && xs[i].End() == xs[i + 1].at {
      AllNodesApart(xs, i);
      JoinChained(w, head, xs, i);
    }
  }

  /** The stores of pages_alloc once it has settled on node p behind node last. */
  function AllocWords(w: Words, last: int, p: int, need: int): Words {
    var w1 := if need < Rd(w, p + 4) then SplitWords(w, p, need) else w;
    if last != 0 then w1[last := Rd(w1, p)] else w1
  }

  function SplitWords(w: Words, p: int, first: int): Words {
    w[p + first + 4 := Rd(w, p + 4) - first][p + first := Rd(w, p)][p + 4 := first][p := p + first]
  }

  lemma {:induction false} AllocStep(w: Words, head: int, xs: seq<Area>, k: nat, need: int)
    requires Ordered(xs) && Chained(w, head, xs) && k < |xs| && 0 < need <= xs[k].size && Aligned(need)
    ensures var p := xs[k].at;
      var w1 := if need < Rd(w, p + 4) then SplitWords(w, p, need) else w;
      var last, head2 := if k == 0 then 0 else xs[k - 1].at, if k == 0 then Rd(w1, p) else head;
      Chained(AllocWords(w, last, p, need), head2, Carve(xs, k, need))
  {
    var p := xs[k].at;
    assert Node(w, xs, k);
    if need < xs[k].size {
      SplitStep(w, head, xs, k, need);
      UnlinkStep(SplitWords(w, p, need), head, Split(xs, k, need), k);
      assert Remove(Split(xs, k, need), k) == Carve(xs, k, need);
    } else {
      UnlinkStep(w, head, xs, k);
    }
  }

  lemma {:induction false} SplitStep(w: Words, head: int, xs: seq<Area>, k: nat, need: int)
    requires Ordered(xs) && Chained(w, head, xs) && k < |xs| && 0 < need < xs[k].size && Aligned(need)
    ensures Ordered(Split(xs, k, need)) && Chained(SplitWords(w, xs[k].at, need), head, Split(xs, k, need))
  {
    SplitOrdered(xs, k, need);
    AllNodesApart(Split(xs, k, need), k);
    AllNodesApart(Split(xs, k, need), k + 1);
    SplitChained(w, head, xs, k, need);
  }

  lemma {:induction false} UnlinkStep(w: Words, head: int, xs: seq<Area>, k: nat)
    requires Ordered(xs) && Chained(w, head, xs) && k < |xs|
    ensures var next := Rd(w, xs[k].at);
            Chained(if k > 0 then w[xs[k - 1].at := next] else w, if k == 0 then next else head, Remove(xs, k))
    ensures k > 0 ==> xs[k - 1].at != 0
  {
    assert Node(w, xs, k);
    if k > 0 {
      AllNodesApart(xs, k - 1);
      assert WellPlaced(xs[k - 1]);
    }
    RemoveChained(w, head, xs, k);
  }

  /** The stores of pages_free: link the new node in, merge it into last if they touch,
      then merge next into it if they touch. */
  function FreeWords(w: Words, last: int, t: int, next: int, size: int): Words {
    var w1 := LinkWords(w, last, t, next, size);
    MergeNext(MergeLast(w1, last, t), if TouchesLast(w1, last, t) then last else t, next)
  }

  predicate TouchesLast(w: Words, last: int, t: int) {
    last != 0 && P2V(last) + Rd(w, last + 4) == P2V(t)
  }

  function MergeLast(w: Words, last: int, t: int): Words {
    if TouchesLast(w, last, t) then JoinWords(w, last, t) else w
  }

  function MergeNext(w: Words, t: int, next: int): Words {
    if next != 0 && P2V(t) + Rd(w, t + 4) == P2V(next) then JoinWords(w, t, next) else w
  }

  lemma {:induction false} LinkStep(w: Words, head: int, xs: seq<Area>, a: Area)
    requires Canonical(xs) && Chained(w, head, xs) && WellPlaced(a) && Disjoint(xs, a)
    ensures var k := Place(xs, a.at);
      Chained(LinkWords(w, if k == 0 then 0 else xs[k - 1].at, a.at, Ptr(xs, k), a.size),
              if k == 0 then a.at else head, Insert(xs, a))
  {
    var k: int := Place(xs, a.at);
    var ys := Insert(xs, a);
    assert ApartFrom(ys, k) && (k > 0 ==> ApartFrom(ys, k - 1)) by {
      ReleaseCanonical(xs, a);
      AllNodesApart(ys, k);
      if k > 0 { AllNodesApart(ys, k - 1); }
    }
    if k > 0 { assert WellPlaced(xs[k - 1]); }
    InsertChained(w, head, xs, k, a, if k == 0 then 0 else xs[k - 1].at);
  }

  lemma {:induction false} MergeNextStep(w: Words, head: int, xs: seq<Area>, i: int)
    requires Ordered(xs) && Chained(w, head, xs) && 0 <= i < |xs|
    ensures Chained(MergeNext(w, xs[i].at, Ptr(xs, i + 1)), head, Join(xs, i))
  {
    JoinStep(w, head, xs, i);
  }

  lemma {:induction false} FreeStep(w: Words, head: int, xs: seq<Area>, a: Area)
    requires Canonical(xs) && Chained(w, head, xs) && WellPlaced(a) && Disjoint(xs, a)
    ensures var k := Place(xs, a.at);
      Chained(FreeWords(w, if k == 0 then 0 else xs[k - 1].at, a.at, Ptr(xs, k), a.size),
              if k == 0 then a.at else head, Release(xs, a))
  {
    var k: int := Place(xs, a.at);
    var last, next := if k == 0 then 0 else xs[k - 1].at, Ptr(xs, k);
    var head1, ys := if k == 0 then a.at else head, Insert(xs, a);
    LinkStep(w, head, xs, a);
    ReleaseCanonical(xs, a);
    var w1 := LinkWords(w, last, a.at, next, a.size);
    assert ys[k] == a && (k > 0 ==> ys[k - 1] == xs[k - 1]) && Ptr(ys, k + 1) == next;
    MergeSteps(w1, head1, ys, k);
    if k > 0 { JoinStep(w1, head1, ys, k - 1); }
  }

  /** Both merges around node k. */
  lemma {:induction false} MergeSteps(w: Words, head: int, ys: seq<Area>, k: int)
    requires Ordered(ys) && Chained(w, head, ys) && 0 <= k < |ys|
    ensures var last, t := if k == 0 then 0 else ys[k - 1].at, ys[k].at;
      var zs := Join(ys, k - 1);
      var left := TouchesLast(w, last, t);
      && left == (|zs| < |ys|)
      && Chained(MergeNext(MergeLast(w, last, t), if left then last else t, Ptr(ys, k + 1)),
                 head, Join(zs, if left then k - 1 else k))
  {
    var zs := Join(ys, k - 1);
    JoinStep(w, head, ys, k);
    if k > 0 {
      JoinStep(w, head, ys, k - 1);
      JoinOrdered(ys, k - 1);
    }
    if |zs| < |ys| {
      assert zs[k - 1].at == ys[k - 1].at && Ptr(zs, k) == Ptr(ys, k + 1);
      MergeNextStep(JoinWords(w, ys[k - 1].at, ys[k].at), head, zs, k - 1);
    } else {
      MergeNextStep(w, head, ys, k);
    }
  }

  lemma StillFree(xs: seq<Area>, a: Area, b: int)
    requires Canonical(xs) && WellPlaced(a) && Disjoint(xs, a) && !Covers(Release(xs, a), b)
    ensures a.size >= PAGE && !(a.at <= b < a.End())
    ensures var k: int := Place(xs, a.at);
      k > 0 ==> xs[k - 1].size >= PAGE && !(xs[k - 1].at <= b < xs[k - 1].End())
  {
    var k: int := Place(xs, a.at);
    ReleaseMeaning(xs, a);
    assert !Covers(xs, b);
    if k > 0 { assert WellPlaced(xs[k - 1]); }
  }

  lemma {:induction false} FreeCoveredAt(w: Words, xs: seq<Area>, a: Area, b: int)
    requires Canonical(xs) && WellPlaced(a) && Disjoint(xs, a) && !Covers(Release(xs, a), b)
    ensures var k := Place(xs, a.at);
      Rd(FreeWords(w, if k == 0 then 0 else xs[k - 1].at, a.at, Ptr(xs, k), a.size), b) == Rd(w, b)
  {
    var k: int := Place(xs, a.at);
    StillFree(xs, a, b);
    FreeFrame(w, if k == 0 then 0 else xs[k - 1].at, a.at, Ptr(xs, k), a.size, b);
  }

  lemma PieceWellPlaced(start: int, finish: int)
    requires 0 <= start < finish < KERNEL_BASE && Aligned(start) && Aligned(finish)
    ensures WellPlaced(Area(P2V(start), finish - start)) && P2V(start) != 0
  {
  }

  /** The stores of pages_free make its memory a list of the released extents, and touch
      only memory that is free afterwards. */
  lemma {:induction false} FreeMeaning(w: Words, head: int, xs: seq<Area>, a: Area)
    requires Canonical(xs) && Chained(w, head, xs) && WellPlaced(a) && Disjoint(xs, a)
    ensures Canonical(Release(xs, a))
    ensures var k := Place(xs, a.at);
      var w2 := FreeWords(w, if k == 0 then 0 else xs[k - 1].at, a.at, Ptr(xs, k), a.size);
      && Chained(w2, if k == 0 then a.at else head, Release(xs, a))
      && forall b :: Rd(w2, b) != Rd(w, b) ==> Covers(Release(xs, a), b)
  {
    var k := Place(xs, a.at);
    var w2 := FreeWords(w, if k == 0 then 0 else xs[k - 1].at, a.at, Ptr(xs, k), a.size);
    ReleaseCanonical(xs, a);
    FreeStep(w, head, xs, a);
    forall b | !Covers(Release(xs, a), b) ensures Rd(w2, b) == Rd(w, b) {
      FreeCoveredAt(w, xs, a, b);
    }
  }

  lemma {:induction false} FreeFrame(w: Words, last: int, t: int, next: int, size: int, b: int)
    requires b != t && b != t + 4 && (last != 0 ==> b != last && b != last + 4)
    ensures Rd(FreeWords(w, last, t, next, size), b) == Rd(w, b)
  {
    var w1 := LinkWords(w, last, t, next, size);
    var w2 := MergeLast(w1, last, t);
    assert Rd(w1, b) == Rd(w, b);
    assert Rd(w2, b) == Rd(w1, b);
    MergeNextFrame(w2, if TouchesLast(w1, last, t) then last else t, next, b);
  }

  lemma {:induction false} MergeNextFrame(w: Words, t: int, next: int, b: int)
    requires b != t && b != t + 4
    ensures Rd(MergeNext(w, t, next), b) == Rd(w, b)
  {
  }

  /** pages_alloc stores only into memory that was free before. */
  lemma {:induction false} AllocCovered(w: Words, xs: seq<Area>, k: nat, need: int)
    requires Ordered(xs) && k < |xs| && 0 <= need <= xs[k].size && Aligned(need) && Rd(w, xs[k].at + 4) == xs[k].size
    ensures var w2 := AllocWords(w, if k == 0 then 0 else xs[k - 1].at, xs[k].at, need);
      forall b :: Rd(w2, b) != Rd(w, b) ==> Covers(xs, b)
  {
    var last, p := if k == 0 then 0 else xs[k - 1].at, xs[k].at;
    var w2 := AllocWords(w, last, p, need);
    assert WellPlaced(xs[k]) && (k > 0 ==> WellPlaced(xs[k - 1]));
    forall b | Rd(w2, b) != Rd(w, b) ensures Covers(xs, b) {
      if k > 0 && b == last {
        assert xs[k - 1].at <= b < xs[k - 1].End();
      } else if p <= b < xs[k].End() {
      } else {
        AllocFrame(w, last, p, need, b);
      }
    }
  }

  /** Taking nothing ties the first extent's node to itself. */
  lemma ZeroLoop(w: Words, xs: seq<Area>)
    requires Ordered(xs) && |xs| > 0 && Rd(w, xs[0].at + 4) == xs[0].size
    ensures
      var p := xs[0].at;
      var w2 := AllocWords(w, 0, p, 0);
      FirstFit(xs, 0) == 0 && p != 0 && Rd(SplitWords(w, p, 0), p) == Rd(w2, p) == p && Rd(w2, p + 4) == 0
  {
    assert WellPlaced(xs[0]);
  }

  /** What taking need bytes off extent k leaves in memory. */
  lemma {:induction false} AllocTaken(w: Words, head: int, xs: seq<Area>, k: nat, need: int)
    requires Canonical(xs) && Chained(w, head, xs) && k < |xs| && 0 <= need <= xs[k].size && Aligned(need)
    ensures
      var p := xs[k].at;
      var w1 := if need < Rd(w, p + 4) then SplitWords(w, p, need) else w;
      var w2 := AllocWords(w, if k == 0 then 0 else xs[k - 1].at, p, need);
      && (forall b :: Rd(w2, b) != Rd(w, b) ==> Covers(xs, b))
      && (need > 0 ==>
            && Canonical(Carve(xs, k, need))
            && Chained(w2, if k == 0 then Rd(w1, p) else head, Carve(xs, k, need)))
  {
    assert Node(w, xs, k);
    AllocCovered(w, xs, k, need);
    if need > 0 {
      AllocStep(w, head, xs, k, need);
      CarveCanonical(xs, k, need);
    }
  }

  lemma {:induction false} AllocFrame(w: Words, last: int, p: int, need: int, b: int)
    requires b != p && b != p + 4 && (last != 0 ==> b != last)
    requires need < Rd(w, p + 4) ==> b != p + need && b != p + need + 4
    ensures Rd(AllocWords(w, last, p, need), b) == Rd(w, b)
  {
  }

  /** What pages_alloc does: returns 0 for an unaligned size, spins when nothing fits, or
      returns a physical address. */
  datatype Grant = Refused | NoMemory | At(pa: int)

  class PageSpace {
    const ram: Ram
    var head: int
    ghost var areas: seq<Area>

    ghost predicate Valid()
      reads this, ram
    {
      Canonical(areas) && Chained(ram.words, head, areas)
    }

    /** init_pspace: no list, then all of RAM above the kernel image is given back. */
    constructor InitPspace(ram: Ram)
      modifies ram
      ensures this.ram == ram && Valid()
      ensures areas == [Area(P2V(RAM_START), RAM_END - RAM_START)]
    {
      this.ram := ram;
      head := 0;
      areas := [];
      new;
      var code := PagesFree(RAM_START, RAM_END);
    }

    /** The stores of a release: the new node linked in, then merged with both neighbours. */
    method PutPiece(last: int, t: int, next: int, size: int)
      modifies ram, this`head
      ensures ram.words == FreeWords(old(ram.words), last, t, next, size)
      ensures head == if last == 0 then t else old(head)
    {
      LinkIn(last, t, next, size);
      var temp := CoalesceLeft(last, t);
      CoalesceRight(temp, next);
    }

    /** An aligned piece of memory becomes free. */
    method PutBack(start: int, size: int, ghost a: Area)
      requires Valid() && 0 <= start < KERNEL_BASE && a == Area(P2V(start), size)
      requires WellPlaced(a) && Disjoint(areas, a)
      modifies this, ram
      ensures Valid() && areas == Release(old(areas), a)
      ensures forall b :: ram.Load(b) != old(ram.Load(b)) ==> Covers(areas, b)
    {
      var last, next := FindPlace(start);
      FreeMeaning(ram.words, head, areas, a);
      PutPiece(last, P2V(start), next, size);
      areas := Release(areas, a);
    }

    /** Physical [start, finish) becomes free again. */
    method PagesFree(start: int, finish: int) returns (code: int)
      requires Valid()
      requires Aligned(start) && Aligned(finish) ==>
        0 <= start < finish < KERNEL_BASE && Disjoint(areas, Area(P2V(start), finish - start))
      modifies this, ram
      ensures Valid()
      ensures code == if Aligned(start) && Aligned(finish) then 0 else 1
      ensures code == 1 ==> areas == old(areas) && ram.words == old(ram.words)
      ensures code == 0 ==> areas == Release(old(areas), Area(P2V(start), finish - start))
      ensures forall b :: ram.Load(b) != old(ram.Load(b)) ==> Covers(areas, b)
    {
      if start % PAGE != 0 || finish % PAGE != 0 {
        return 1;
      }
      PieceWellPlaced(start, finish);
      PutBack(start, finish - start, Area(P2V(start), finish - start));
      return 0;
    }

    /** Threads the new node t between last and next. */
    method LinkIn(last: int, t: int, next: int, size: int)
      modifies ram, this`head
      ensures ram.words == LinkWords(old(ram.words), last, t, next, size)
      ensures head == if last == 0 then t else old(head)
    {
      ram.Store(t + 4, size);
      ram.Store(t, next);
      if last == 0 {
        head := t;
      } else {
        ram.Store(last, t);
      }
    }

    method CoalesceLeft(last: int, t: int) returns (temp: int)
      modifies ram
      ensures ram.words == MergeLast(old(ram.words), last, t)
      ensures temp == if TouchesLast(old(ram.words), last, t) then last else t
    {
      temp := t;
      if last != 0 && P2V(last) + ram.Load(last + 4) == P2V(t) {
        ram.Store(last, ram.Load(t));
        ram.Store(last + 4, ram.Load(last + 4) + ram.Load(t + 4));
        temp := last;
      }
    }

    method CoalesceRight(t: int, next: int)
      modifies ram
      ensures ram.words == MergeNext(old(ram.words), t, next)
    {
      if next != 0 && P2V(t) + ram.Load(t + 4) == P2V(next) {
        ram.Store(t, ram.Load(next));
        ram.Store(t + 4, ram.Load(t + 4) + ram.Load(next + 4));
      }
    }

    /** The search loop of pages_free: the first node at or above start, and the one before it. */
    method FindPlace(start: int) returns (last: int, next: int)
      requires Valid() && 0 <= start < KERNEL_BASE
      ensures var k := Place(areas, P2V(start));
        && next == Ptr(areas, k) && last == (if k == 0 then 0 else areas[k - 1].at)
        && (k < |areas| ==> WellPlaced(areas[k])) && (k > 0 ==> WellPlaced(areas[k - 1]))
    {
      last, next := 0, head;
      ghost var k: int := 0;
      while next != 0 && V2P(next) < start
        invariant 0 <= k <= |areas| && next == Ptr(areas, k)
        invariant last == if k == 0 then 0 else areas[k - 1].at
        invariant forall j :: 0 <= j < k ==> areas[j].at < P2V(start)
        decreases |areas| - k
      {
        assert WellPlaced(areas[k]) && Node(ram.words, areas, k);
        last, next := next, ram.Load(next);
        k := k + 1;
      }
      assert k < |areas| ==> WellPlaced(areas[k]);
      assert k > 0 ==> WellPlaced(areas[k - 1]);
      PlaceIs(areas, P2V(start), k);
    }

    /** Cuts the node p in two. If p is node k of the list, the list stored afterwards has two
        adjoining nodes in its place. */
    method PagesSplit(p: int, first: int, ghost k: nat) returns (code: int)
      requires 0 <= first < WORD_RANGE
      modifies ram
      ensures code == if p == 0 || Rd(old(ram.words), p + 4) < first || !Aligned(first) then 1 else 0
      ensures code == 1 || Rd(old(ram.words), p + 4) == first ==> ram.words == old(ram.words)
      ensures code == 0 && Rd(old(ram.words), p + 4) != first ==>
        ram.words == SplitWords(old(ram.words), p, first)
      ensures old(Valid()) && k < |areas| && p == areas[k].at && 0 < first < areas[k].size && Aligned(first) ==>
        code == 0 && Ordered(Split(areas, k, first)) && Chained(ram.words, head, Split(areas, k, first))
    {
      if Valid() && k < |areas| && p == areas[k].at && 0 < first < areas[k].size && Aligned(first) {
        assert Node(ram.words, areas, k) && WellPlaced(areas[k]);
        SplitStep(ram.words, head, areas, k, first);
      }
      if p == 0 || ram.Load(p + 4) < first || first % PAGE != 0 {
        return 1;
      }
      if ram.Load(p + 4) == first {
        return 0;
      }
      var q := p + first;
      ram.Store(q + 4, ram.Load(p + 4) - first);
      ram.Store(q, ram.Load(p));
      ram.Store(p + 4, first);
      ram.Store(p, q);
      return 0;
    }

    /** The search loop of pages_alloc: the first node that is large enough, and the one before it. */
    method FindFit(need: int) returns (last: int, next: int)
      requires Valid()
      ensures var k := FirstFit(areas, need);
        && next == Ptr(areas, k) && last == (if k == 0 then 0 else areas[k - 1].at)
        && (k < |areas| ==> WellPlaced(areas[k]) && Node(ram.words, areas, k))
        && (k > 0 ==> WellPlaced(areas[k - 1]))
    {
      last, next := 0, head;
      ghost var k: int := 0;
      while next != 0 && need > ram.Load(next + 4)
        invariant 0 <= k <= |areas| && next == Ptr(areas, k)
        invariant last == if k == 0 then 0 else areas[k - 1].at
        invariant forall j :: 0 <= j < k ==> areas[j].size < need
        decreases |areas| - k
      {
        assert WellPlaced(areas[k]) && Node(ram.words, areas, k);
        last, next := next, ram.Load(next);
        k := k + 1;
      }
      assert k < |areas| ==> Node(ram.words, areas, k) && WellPlaced(areas[k]);
      assert k > 0 ==> WellPlaced(areas[k - 1]);
      FirstFitIs(areas, need, k);
    }

    method PagesAlloc(need: int) returns (r: Grant)
      requires Valid() && 0 <= need < WORD_RANGE
      modifies this, ram
      ensures r.Refused? <==> !Aligned(need)
      ensures !r.At? ==> areas == old(areas) && ram.words == old(ram.words) && head == old(head)
      ensures Aligned(need) ==> (r.NoMemory? <==> FirstFit(old(areas), need) == |old(areas)|)
      ensures r.At? ==> r.pa == V2P(old(areas)[FirstFit(old(areas), need)].at)
      ensures r.At? && need > 0 ==>
        Valid() && areas == Carve(old(areas), FirstFit(old(areas), need), need)
      ensures r.At? && need == 0 ==>
        head == old(head) != 0 && ram.Load(head) == head && ram.Load(head + 4) == 0
      ensures forall b :: ram.Load(b) != old(ram.Load(b)) ==> Covers(old(areas), b)
    {
      if need % PAGE != 0 {
        return Refused;
      }
      var last, next := FindFit(need);
      if next == 0 || ram.Load(next + 4) < need {
        return NoMemory;
      }
      ghost var w, k := ram.words, FirstFit(areas, need);
      assert next == areas[k].at && Rd(w, next + 4) == areas[k].size;
      AllocTaken(w, head, areas, k, need);
      if need == 0 { ZeroLoop(w, areas); }
      assert k > 0 ==> next != head by { assert k > 0 ==> Below(areas, 0, k) && WellPlaced(areas[0]); }
      if need < ram.Load(next + 4) {
        var code := PagesSplit(next, need, k);
        if code != 0 {
          return At(1);
        }
      }
      if last != 0 {
        ram.Store(last, ram.Load(next));
      }
      if next == head {
        head := ram.Load(next);
      }
      assert ram.words == AllocWords(w, last, next, need);
      if need > 0 {
        areas := Carve(areas, k, need);
      }
      return At(V2P(next));
    }
  }
}
