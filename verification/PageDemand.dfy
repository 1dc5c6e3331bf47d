/** When an mmap gets what it asks for: where the tables are there, exactly if enough pages are free. */
module PageDemand {
  import opened Basics
  import opened Machine
  import opened Pages
  import opened Slab
  import opened PageTable

  // ---------- pages free ----------

  function FreePages(xs: seq<Area>): int {
    if xs == [] then 0 else xs[0].size / PAGE + FreePages(xs[1..])
  }

  lemma {:induction false} FreePagesMore(xs: seq<Area>)
    requires Ordered(xs)
    ensures FreePages(xs) >= |xs|
  {
    if xs == [] {
    } else {
      assert WellPlaced(xs[0]);
      OrderedRest(xs);
      FreePagesMore(xs[1..]);
    }
  }

  lemma {:induction false} OrderedRest(xs: seq<Area>)
    requires Ordered(xs) && xs != []
    ensures Ordered(xs[1..])
  {
    var ys := xs[1..];
    forall i | 0 <= i < |ys| ensures WellPlaced(ys[i]) { assert WellPlaced(xs[i + 1]); }
    forall i, j | 0 <= i < j < |ys| ensures Below(ys, i, j) { assert Below(xs, i + 1, j + 1); }
  }

  /** A page is had exactly while one is free, and then there is one fewer. */
  lemma ServeFrameCounts(s: Slabs)
    requires Canonical(s.areas)
    ensures ServeFrame(s).Some? <==> FreePages(s.areas) > 0
    ensures FreePages(s.areas) >= 0
    ensures ServeFrame(s).Some? ==>
      Canonical(ServeFrame(s).value.areas) && FreePages(ServeFrame(s).value.areas) == FreePages(s.areas) - 1
  {
    var xs := s.areas;
    FreePagesMore(xs);
    if xs != [] {
      assert WellPlaced(xs[0]);
      assert FirstFit(xs, PAGE) == 0;
      CarveCanonical(xs, 0, PAGE);
      if xs[0].size == PAGE {
        assert Carve(xs, 0, PAGE) == xs[1..];
      } else {
        assert Carve(xs, 0, PAGE)[1..] == xs[1..];
      }
    }
  }

  // ---------- pages wanted ----------

  /** How many pages of [n, hi) an mmap of the range has to map. */
  ghost function Demand(w0: Words, pt: int, start: int, finish: int, n: int, hi: int): nat
    decreases hi - n
  {
    if n >= hi then 0
    else (if Wanted(w0, pt, start, finish, n) then 1 else 0) + Demand(w0, pt, start, finish, n + 1, hi)
  }

  lemma {:induction false} DemandSplit(w0: Words, pt: int, start: int, finish: int, n: int, m: int, hi: int)
    requires n <= m <= hi
    ensures Demand(w0, pt, start, finish, n, hi)
         == Demand(w0, pt, start, finish, n, m) + Demand(w0, pt, start, finish, m, hi)
    decreases m - n
  {
    if n == m {
    } else {
      DemandSplit(w0, pt, start, finish, n + 1, m, hi);
    }
  }

  lemma {:induction false} NoDemand(w0: Words, pt: int, start: int, finish: int, n: int, hi: int)
    requires forall k :: n <= k < hi ==> !InMap(k, start, finish)
    ensures Demand(w0, pt, start, finish, n, hi) == 0
    decreases hi - n
  {
    if n >= hi {
    } else {
      assert !InMap(n, start, finish);
      NoDemand(w0, pt, start, finish, n + 1, hi);
    }
  }

  lemma Outside(start: int, finish: int, k: int)
    requires 0 <= start < WORD_RANGE && 0 <= finish < WORD_RANGE && 0 <= k
    requires !(start / SECTION * L2_ENTRIES <= k < (LastEntry(finish) + 1) * L2_ENTRIES)
    ensures !InMap(k, start, finish)
  {
  }

  /** All that is wanted lies in the entries the outer loop visits. */
  lemma DemandOfRange(w0: Words, pt: int, start: int, finish: int)
    requires 0 <= start < WORD_RANGE && 0 <= finish < WORD_RANGE
    ensures Demand(w0, pt, start, finish, 0, PAGES)
         == Demand(w0, pt, start, finish, start / SECTION * L2_ENTRIES, (LastEntry(finish) + 1) * L2_ENTRIES)
  {
    var lo, hi := start / SECTION * L2_ENTRIES, (LastEntry(finish) + 1) * L2_ENTRIES;
    forall k | 0 <= k < PAGES && !(lo <= k < hi) ensures !InMap(k, start, finish) { Outside(start, finish, k); }
    if lo >= hi {
      NoDemand(w0, pt, start, finish, 0, PAGES);
    } else {
      NoDemand(w0, pt, start, finish, 0, lo);
      NoDemand(w0, pt, start, finish, hi, PAGES);
      DemandSplit(w0, pt, start, finish, 0, lo, PAGES);
      DemandSplit(w0, pt, start, finish, lo, hi, PAGES);
    }
  }

  // ---------- served exactly if enough are free ----------

  /** Serving the pages of [n, hi): possible exactly if as many are free, and then so many fewer. */
  lemma {:induction false} PagesCounted(s: Slabs, w0: Words, pt: int, start: int, finish: int, n: int, hi: int)
    requires Canonical(s.areas)
    ensures
      var r := Iterate(PageServer(w0, pt, start, finish), s, n, hi);
      var d := Demand(w0, pt, start, finish, n, hi);
      && (r.Some? <==> d <= FreePages(s.areas))
      && (r.Some? ==> Canonical(r.value.areas) && FreePages(r.value.areas) == FreePages(s.areas) - d)
    decreases hi - n
  {
    FreePagesMore(s.areas);
    if n >= hi {
    } else {
      ServeFrameCounts(s);
      var t := ServePage(s, w0, pt, start, finish, n);
      assert PageServer(w0, pt, start, finish)(s, n) == t;
      if t.Some? { PagesCounted(t.value, w0, pt, start, finish, n + 1, hi); }
    }
  }

  /** The same for entries that all have a table. */
  lemma {:induction false} EntriesCounted(s: Slabs, w0: Words, pt: int, start: int, finish: int, i: int, hi: int)
    requires Canonical(s.areas) && forall k :: i <= k < hi ==> EntryUsed(w0, pt, k)
    ensures
      var r := Iterate(EntryServer(w0, pt, PageServer(w0, pt, start, finish)), s, i, hi);
      var d := Demand(w0, pt, start, finish, i * L2_ENTRIES, hi * L2_ENTRIES);
      && (r.Some? <==> d <= FreePages(s.areas))
      && (r.Some? ==> Canonical(r.value.areas) && FreePages(r.value.areas) == FreePages(s.areas) - d)
    decreases hi - i
  {
    FreePagesMore(s.areas);
    if i >= hi {
    } else {
      var page := PageServer(w0, pt, start, finish);
      assert EntryUsed(w0, pt, i);
      var t := ServeEntry(s, w0, pt, page, i);
      assert EntryServer(w0, pt, page)(s, i) == t;
      PagesCounted(s, w0, pt, start, finish, i * L2_ENTRIES, (i + 1) * L2_ENTRIES);
      DemandSplit(w0, pt, start, finish, i * L2_ENTRIES, (i + 1) * L2_ENTRIES, hi * L2_ENTRIES);
      if t.Some? { EntriesCounted(t.value, w0, pt, start, finish, i + 1, hi); }
    }
  }

  /** An mmap of a range whose tables are there succeeds exactly if as many pages are free as pages
      of the range are not mapped, and it takes exactly so many. */
  lemma MapCounted(s: Slabs, w0: Words, pt: int, start: int, finish: int)
    requires Canonical(s.areas) && 0 <= start < WORD_RANGE && 0 <= finish < WORD_RANGE
    requires Visited(w0, pt, start, finish)
    ensures
      var r := ServeMap(s, w0, pt, start, finish);
      var d := Demand(w0, pt, start, finish, 0, PAGES);
      && (r.Some? <==> d <= FreePages(s.areas))
      && (r.Some? ==> FreePages(r.value.areas) == FreePages(s.areas) - d)
  {
    var lo, hi := start / SECTION, LastEntry(finish) + 1;
    DemandOfRange(w0, pt, start, finish);
    forall k | lo <= k < hi ensures EntryUsed(w0, pt, k) { assert TypeOf(L1Entry(w0, pt, k)) != 0; }
    EntriesCounted(s, w0, pt, start, finish, lo, hi);
  }
}
