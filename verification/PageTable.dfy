/** kern/mm/mmap.c: the two-level page tables of section B3.5.1 of ARM DDI 0406, built by mmap
    over the two allocators, and the walker walk_v2p of drivers/sd/use-sd-zynq7000.c. */
module PageTable {
  import opened Basics
  import opened Machine
  import opened Pages
  import opened Slab
  import opened SlabRuns
  import opened SlabServe
  import opened SlabMemory
  import opened SlabAllocator

  const SECTION := 0x10_0000   // PAGE_L1SIZE
  const L1_BYTES := 0x4000     // PTE_L1SIZE
  const L2_BYTES := 0x400      // PTE_L2SIZE, also its alignment
  const L1_ENTRIES := 4096
  const L2_ENTRIES := 256
  const PAGES := 0x10_0000     // pages of the 32-bit address space

  /** The two type bits of a descriptor. */
  function TypeOf(e: int): int { e % 4 }

  /** The table a first-level descriptor points to. */
  function TableOf(e: int): int { P2V(e / L2_BYTES * L2_BYTES) }

  function L1Entry(w: Words, pt: int, i: int): int { Rd(w, pt + 4 * i) }

  /** The second-level descriptor of page n of the address space; 0 where there is no table. */
  function PageEntry(w: Words, pt: int, n: int): int {
    var e := L1Entry(w, pt, n / L2_ENTRIES);
    if TypeOf(e) == 0 then 0 else Rd(w, TableOf(e) + 4 * (n % L2_ENTRIES))
  }

  predicate Mapped(w: Words, pt: int, n: int) { TypeOf(PageEntry(w, pt, n)) != 0 }

  function FrameOf(e: int): int { e - e % PAGE }

  // ---------- the walker ----------

  /** walk_v2p: shifts and masks of its own, no look at the type bits. */
  function WalkV2P(w: Words, pt: int, va: int): int {
    var l2 := P2V(Rd(w, pt + 4 * (va / SECTION)) / 1024 * 1024);
    var off := va % SECTION;
    var e := Rd(w, l2 + 4 * (off / PAGE));
    e / 0x1000 * 0x1000
  }

  /** Where there is a table, the walker finds the frame in the page's descriptor. */
  lemma WalkerReadsEntry(w: Words, pt: int, va: int)
    requires 0 <= va < WORD_RANGE && TypeOf(L1Entry(w, pt, va / SECTION)) != 0
    ensures WalkV2P(w, pt, va) == FrameOf(PageEntry(w, pt, va / PAGE))
  {
    var n := va / PAGE;
    assert n / L2_ENTRIES == va / SECTION;
    assert n % L2_ENTRIES == va % SECTION / PAGE;
  }

  /** A descriptor ORs attribute bits into an aligned address, which is adding them. */
  lemma DescriptorWord(at: int, bits: int, m: int)
    requires (m == L2_BYTES || m == PAGE) && KERNEL_BASE <= at < WORD_RANGE && at % m == 0 && 0 <= bits < m
    ensures Or(V2P(at), bits) == V2P(at) + bits
  {
    assert IsPow2(m);
    OrIsSum(V2P(at), bits, m);
  }

  // ---------- what the tables own ----------

  ghost predicate Unowned(s: Slabs, at: int, n: int) {
    forall x :: InRange(x, at, n) ==> !Owned(s, x)
  }

  ghost predicate HasTable(w: Words, pt: int, i: int) {
    TypeOf(L1Entry(w, pt, i)) == 1
  }

  /** The second-level table of entry i is nobody else's. */
  ghost predicate TableHeld(s: Slabs, w: Words, pt: int, i: int) {
    var t := TableOf(L1Entry(w, pt, i));
    && KERNEL_BASE <= t && t + L2_BYTES < WORD_RANGE
    && Unowned(s, t, L2_BYTES) && Apart(t, L2_BYTES, pt, L1_BYTES)
  }

  ghost predicate TablesApart(w: Words, pt: int, i: int, j: int) {
    Apart(TableOf(L1Entry(w, pt, i)), L2_BYTES, TableOf(L1Entry(w, pt, j)), L2_BYTES)
  }

  /** The first-level table and its second-level tables lie in memory of their own. */
  ghost predicate Tables(s: Slabs, w: Words, pt: int) {
    && Unowned(s, pt, L1_BYTES)
    && (forall i {:trigger HasTable(w, pt, i)} :: 0 <= i < L1_ENTRIES && HasTable(w, pt, i) ==> TableHeld(s, w, pt, i))
    && (forall i, j {:trigger TablesApart(w, pt, i, j)} ::
          0 <= i < L1_ENTRIES && 0 <= j < L1_ENTRIES && i != j && HasTable(w, pt, i) && HasTable(w, pt, j)
          ==> TablesApart(w, pt, i, j))
  }

  /** Memory that was all the allocators' is apart from memory that is none of theirs. */
  lemma OwnedApart(s: Slabs, a: int, n: int, b: int, m: int)
    requires n > 0 && m > 0 && Unowned(s, a, n) && forall x :: InRange(x, b, m) ==> Owned(s, x)
    ensures Apart(a, n, b, m)
  {
    if !Apart(a, n, b, m) {
      var x := if a < b then b else a;
      assert InRange(x, a, n);
      assert InRange(x, b, m);
    }
  }

  /** Words nobody owns keep the tables as they are. */
  lemma {:induction false} TablesFrame(s: Slabs, w: Words, t: Slabs, w2: Words, pt: int)
    requires Tables(s, w, pt)
    requires forall x :: !Owned(s, x) ==> Rd(w2, x) == Rd(w, x)
    requires forall x :: Owned(t, x) ==> Owned(s, x)
    ensures Tables(t, w2, pt)
    ensures forall i :: 0 <= i < L1_ENTRIES ==> L1Entry(w2, pt, i) == L1Entry(w, pt, i)
  {
    forall i | 0 <= i < L1_ENTRIES ensures L1Entry(w2, pt, i) == L1Entry(w, pt, i) {
      assert InRange(pt + 4 * i, pt, L1_BYTES);
    }
    forall i | 0 <= i < L1_ENTRIES && HasTable(w2, pt, i) ensures TableHeld(t, w2, pt, i) {
      assert HasTable(w, pt, i) && TableHeld(s, w, pt, i);
    }
    forall i, j | 0 <= i < L1_ENTRIES && 0 <= j < L1_ENTRIES && i != j && HasTable(w2, pt, i) && HasTable(w2, pt, j)
      ensures TablesApart(w2, pt, i, j)
    {
      assert HasTable(w, pt, i) && HasTable(w, pt, j) && TablesApart(w, pt, i, j);
    }
  }

  // ---------- the two kinds of growth ----------

  ghost predicate Zeroed(w: Words, at: int, bytes: int) {
    forall x {:trigger Rd(w, x)} :: InRange(x, at, bytes) && (x - at) % 4 == 0 ==> Rd(w, x) == 0
  }

  /** memset to zero, a word at a time. */
  method Zero(ram: Ram, at: int, words: nat)
    modifies ram
    ensures Zeroed(ram.words, at, 4 * words)
    ensures SameOutside(old(ram.words), ram.words, at, 4 * words)
  {
    for i := 0 to words
      invariant Zeroed(ram.words, at, 4 * i)
      invariant SameOutside(old(ram.words), ram.words, at, 4 * words)
    {
      ghost var w := ram.words;
      ram.Store(at + 4 * i, 0);
      assert InRange(at + 4 * i, at, 4 * words);
      forall x | !InRange(x, at, 4 * words) ensures Rd(ram.words, x) == Rd(old(ram.words), x) {
        assert Rd(w, x) == Rd(old(ram.words), x);
      }
      forall x | InRange(x, at, 4 * (i + 1)) && (x - at) % 4 == 0 ensures Rd(ram.words, x) == 0 {
        assert x != at + 4 * i ==> InRange(x, at, 4 * i) && Rd(w, x) == 0;
      }
    }
  }

  /** From (s, w) to (t, w2), only allocator memory and the word at y change, and the allocators
      own no more than before. */
  ghost predicate Grows(s: Slabs, w: Words, t: Slabs, w2: Words, y: int) {
    && (forall x {:trigger Rd(w2, x)} :: Rd(w2, x) != Rd(w, x) ==> Owned(s, x) || x == y)
    && (forall x {:trigger Owned(t, x)} :: Owned(t, x) ==> Owned(s, x))
  }

  ghost predicate TakenFrom(s: Slabs, t: Slabs, at: int, n: int) {
    forall x :: InRange(x, at, n) ==> Owned(s, x) && !Owned(t, x)
  }

  predicate TableBits(bits: int) { 0 <= bits < 0x400 && TypeOf(bits) == 1 }

  predicate PageBits(bits: int) { 0 <= bits < PAGE && TypeOf(bits) != 0 }

  /** The allocators after giving out an aligned object for a table, if they can. */
  function ServeTable(s: Slabs): Maybe<Slabs> {
    assert IsPow2(L2_BYTES);
    match SlbAlloc(s, L2_BYTES, L2_BYTES)
    case None => None
    case Some(r) => Some(r.0)
  }

  /** The allocators after giving out one page, if they can. */
  function ServeFrame(s: Slabs): Maybe<Slabs> {
    var k := FirstFit(s.areas, PAGE);
    if k == |s.areas| then None else Some(s.(areas := Carve(s.areas, k, PAGE)))
  }

  method StoreDescriptor(slb: Slb, x: int, at: int, bits: int, ghost m: int)
    requires slb.Valid() && !Owned(slb.st, x) && (m == L2_BYTES || m == PAGE)
    requires KERNEL_BASE <= at < WORD_RANGE && at % m == 0 && 0 <= bits < m
    modifies slb.space.ram
    ensures slb.Valid() && slb.space.ram.words == old(slb.space.ram.words)[x := V2P(at) + bits]
  {
    DescriptorWord(at, bits, m);
    ClientWord(slb, x, Or(V2P(at), bits));
  }

  /** An aligned object of the slab, and no other word changed but the allocators'. */
  method AllocTable(slb: Slb) returns (r: Maybe<int>)
    requires slb.Valid()
    modifies slb, slb.space, slb.space.ram
    ensures r.Some? <==> ServeTable(old(slb.st)).Some?
    ensures r.Some? <==> CanServe(old(slb.st), L2_BYTES, L2_BYTES)
    ensures r.Some? ==>
      && slb.Valid() && KERNEL_BASE <= r.value && r.value + L2_BYTES < WORD_RANGE && r.value % L2_BYTES == 0
      && TakenFrom(old(slb.st), slb.st, r.value, L2_BYTES)
      && Grows(old(slb.st), old(slb.space.ram.words), slb.st, slb.space.ram.words, r.value)
      && Zeroed(slb.space.ram.words, r.value, L2_BYTES)
      && slb.st == ServeTable(old(slb.st)).value
  {
    assert IsPow2(L2_BYTES);
    ghost var s, w := slb.st, slb.space.ram.words;
    r := slb.SlbAllocAlign(L2_BYTES, L2_BYTES);
    if r.Some? {
      ghost var w1 := slb.space.ram.words;
      TableObject(s, slb.st, r.value, L2_BYTES);
      Zero(slb.space.ram, r.value, L2_ENTRIES);
      ClientStore(w1, slb.space.ram.words, slb.slbHead, slb.st);
      ChainedFrame(w1, slb.space.ram.words, slb.space.head, slb.space.areas);
    }
  }

  /** An object on its own size, as tables of both levels are asked for: memory nobody had. */
  lemma TableObject(s: Slabs, t: Slabs, x: int, size: int)
    requires Inv(s) && Served(size, size) && SlbAlloc(s, size, size).Some?
    requires SlbAlloc(s, size, size).value.0 == t && SlbAlloc(s, size, size).value.1 == x
    ensures Inv(t) && KERNEL_BASE <= x && x + size < WORD_RANGE && x % size == 0
    ensures TakenFrom(s, t, x, size)
    ensures forall y :: Owned(t, y) ==> Owned(s, y)
  {
    AllocMeaning(s, size, size);
    var a := SlbAlloc(s, size, size).value.2;
    SlotInPool(t, a, x);
    assert PoolOk(t, a);
    forall y | InRange(y, x, size) ensures Owned(s, y) && !Owned(t, y) {
      AllocOwned(s, size, size, y);
      OutNotOwned(t, a, x, y);
    }
    forall y | Owned(t, y) ensures Owned(s, y) { AllocOwned(s, size, size, y); }
  }

  /** A first-level entry that was empty now points to table t. */
  lemma {:induction false} TableAdded(s: Slabs, w: Words, t: Slabs, w1: Words, pt: int, i: int, at: int, bits: int)
    requires Tables(s, w, pt) && 0 <= i < L1_ENTRIES && TypeOf(L1Entry(w, pt, i)) == 0 && TableBits(bits)
    requires KERNEL_BASE <= at && at + L2_BYTES < WORD_RANGE && at % L2_BYTES == 0
    requires TakenFrom(s, t, at, L2_BYTES) && Grows(s, w, t, w1, at)
    ensures var w2 := w1[pt + 4 * i := V2P(at) + bits];
      && TableOf(V2P(at) + bits) == at && Tables(t, w2, pt)
      && Apart(at, L2_BYTES, pt, L1_BYTES)
      && forall j :: 0 <= j < L1_ENTRIES ==> L1Entry(w2, pt, j) == if j == i then V2P(at) + bits else L1Entry(w, pt, j)
  {
    var e := V2P(at) + bits;
    var w2 := w1[pt + 4 * i := e];
    DescriptorOf(at, bits);
    OwnedApart(s, pt, L1_BYTES, at, L2_BYTES);
    assert InRange(at, at, L2_BYTES);
    TablesFrame(s, w, t, w1, pt);
    assert forall j :: 0 <= j < L1_ENTRIES ==> L1Entry(w2, pt, j) == if j == i then e else L1Entry(w1, pt, j);
    forall j | 0 <= j < L1_ENTRIES && HasTable(w2, pt, j) ensures TableHeld(t, w2, pt, j) {
      if j != i { assert HasTable(w1, pt, j) && TableHeld(t, w1, pt, j); }
    }
    forall j, k | 0 <= j < L1_ENTRIES && 0 <= k < L1_ENTRIES && j != k && HasTable(w2, pt, j) && HasTable(w2, pt, k)
      ensures TablesApart(w2, pt, j, k)
    {
      var other := if j == i then k else j;
      assert HasTable(w1, pt, other) && HasTable(w, pt, other) && TableHeld(s, w, pt, other);
      OwnedApart(s, TableOf(L1Entry(w, pt, other)), L2_BYTES, at, L2_BYTES);
      if j != i && k != i { assert HasTable(w1, pt, j) && HasTable(w1, pt, k) && TablesApart(w1, pt, j, k); }
    }
  }

  lemma DescriptorOf(at: int, bits: int)
    requires KERNEL_BASE <= at < WORD_RANGE && at % L2_BYTES == 0 && TableBits(bits)
    ensures TableOf(V2P(at) + bits) == at && TypeOf(V2P(at) + bits) == 1
  {
    var q := V2P(at) / L2_BYTES;
    assert V2P(at) == L2_BYTES * q;
    assert (V2P(at) + bits) / L2_BYTES == q;
  }

  /** Entry i gained an empty table; all other entries, and memory held by others, are as before. */
  ghost predicate TableStep(s: Slabs, w: Words, t: Slabs, w2: Words, pt: int, i: int) {
    var at := TableOf(L1Entry(w2, pt, i));
    && Tables(t, w2, pt) && HasTable(w2, pt, i)
    && (forall j :: 0 <= j < L1_ENTRIES && j != i ==> L1Entry(w2, pt, j) == L1Entry(w, pt, j))
    && Zeroed(w2, at, L2_BYTES) && TakenFrom(s, t, at, L2_BYTES)
    && Grows(s, w, t, w2, pt + 4 * i)
  }

  /** Entry i is the address of its table with exactly these attribute bits. */
  ghost predicate Described(w: Words, pt: int, i: int, bits: int) {
    L1Entry(w, pt, i) == V2P(TableOf(L1Entry(w, pt, i))) + bits
  }

  /** The descriptor's store makes the step. */
  lemma {:induction false} TableStored(s: Slabs, w: Words, t: Slabs, w1: Words, pt: int, i: int, at: int, bits: int)
    requires Tables(s, w, pt) && 0 <= i < L1_ENTRIES && TypeOf(L1Entry(w, pt, i)) == 0 && TableBits(bits)
    requires KERNEL_BASE <= at && at + L2_BYTES < WORD_RANGE && at % L2_BYTES == 0
    requires TakenFrom(s, t, at, L2_BYTES) && Grows(s, w, t, w1, at) && Zeroed(w1, at, L2_BYTES)
    ensures TableStep(s, w, t, w1[pt + 4 * i := V2P(at) + bits], pt, i)
    ensures Described(w1[pt + 4 * i := V2P(at) + bits], pt, i, bits)
    ensures !Owned(t, pt + 4 * i)
  {
    var w2 := w1[pt + 4 * i := V2P(at) + bits];
    TableAdded(s, w, t, w1, pt, i, at, bits);
    DescriptorOf(at, bits);
    assert InRange(pt + 4 * i, pt, L1_BYTES);
    forall x | Rd(w2, x) != Rd(w, x) ensures Owned(s, x) || x == pt + 4 * i {
      assert x != pt + 4 * i ==> Rd(w1, x) != Rd(w, x);
      assert x == at ==> InRange(x, at, L2_BYTES);
    }
    forall x | InRange(x, at, L2_BYTES) && (x - at) % 4 == 0 ensures Rd(w2, x) == 0 {
      assert Rd(w1, x) == 0;
    }
  }

  /** The store of a descriptor for the cleared table at this address. */
  method LinkTable(slb: Slb, pt: int, i: int, at: int, bits: int, ghost s: Slabs, ghost w: Words)
    requires slb.Valid() && Tables(s, w, pt) && 0 <= i < L1_ENTRIES && TypeOf(L1Entry(w, pt, i)) == 0
    requires TableBits(bits) && KERNEL_BASE <= at && at + L2_BYTES < WORD_RANGE && at % L2_BYTES == 0
    requires TakenFrom(s, slb.st, at, L2_BYTES) && Grows(s, w, slb.st, slb.space.ram.words, at)
    requires Zeroed(slb.space.ram.words, at, L2_BYTES)
    modifies slb.space.ram
    ensures slb.Valid() && Described(slb.space.ram.words, pt, i, bits)
    ensures TableStep(s, w, slb.st, slb.space.ram.words, pt, i)
  {
    TableStored(s, w, slb.st, slb.space.ram.words, pt, i, at, bits);
    StoreDescriptor(slb, pt + 4 * i, at, bits, L2_BYTES);
  }

  /** A new, empty second-level table for entry i. */
  method NewTable(slb: Slb, pt: int, i: int, bits: int) returns (ok: bool)
    requires slb.Valid() && Tables(slb.st, slb.space.ram.words, pt) && TableBits(bits)
    requires 0 <= i < L1_ENTRIES && TypeOf(L1Entry(slb.space.ram.words, pt, i)) == 0
    modifies slb, slb.space, slb.space.ram
    ensures ok <==> ServeTable(old(slb.st)).Some?
    ensures ok <==> CanServe(old(slb.st), L2_BYTES, L2_BYTES)
    ensures ok ==> slb.st == ServeTable(old(slb.st)).value
    ensures ok ==> Described(slb.space.ram.words, pt, i, bits)
    ensures ok ==> slb.Valid() && TableStep(old(slb.st), old(slb.space.ram.words), slb.st, slb.space.ram.words, pt, i)
  {
    ghost var s, w := slb.st, slb.space.ram.words;
    var temp := AllocTable(slb);
    if temp.None? {
      return false;
    }
    LinkTable(slb, pt, i, temp.value, bits, s, w);
    return true;
  }

  /** The page entries a table step leaves: empty stays empty, present stays present. */
  lemma {:induction false} TableStepEntries(s: Slabs, w: Words, t: Slabs, w2: Words, pt: int, i: int, n: int)
    requires Tables(s, w, pt) && 0 <= i < L1_ENTRIES && TypeOf(L1Entry(w, pt, i)) == 0
    requires TableStep(s, w, t, w2, pt, i)
    requires 0 <= n < PAGES && TypeOf(L1Entry(w, pt, n / L2_ENTRIES)) <= 1
    ensures PageEntry(w2, pt, n) == PageEntry(w, pt, n)
  {
    var j := n / L2_ENTRIES;
    if j == i {
      var at := TableOf(L1Entry(w2, pt, i));
      var x := at + 4 * (n % L2_ENTRIES);
      assert InRange(x, at, L2_BYTES) && (x - at) % 4 == 0 && Rd(w2, x) == 0;
    } else if HasTable(w, pt, j) {
      assert TableHeld(s, w, pt, j);
      var at := TableOf(L1Entry(w, pt, j));
      var x := at + 4 * (n % L2_ENTRIES);
      assert InRange(x, at, L2_BYTES) && InRange(pt + 4 * i, pt, L1_BYTES);
      assert !Owned(s, x) && x != pt + 4 * i;
    }
  }

  // ---------- pages ----------

  /** The word of page n's descriptor. */
  function SlotOf(w: Words, pt: int, n: int): int {
    TableOf(L1Entry(w, pt, n / L2_ENTRIES)) + 4 * (n % L2_ENTRIES)
  }

  /** Page n gained a zeroed frame f that was the allocators'; nothing else held by others changed. */
  ghost predicate PageStep(s: Slabs, w: Words, t: Slabs, w2: Words, pt: int, n: int, f: int, bits: int) {
    && Tables(t, w2, pt)
    && (forall j :: 0 <= j < L1_ENTRIES ==> L1Entry(w2, pt, j) == L1Entry(w, pt, j))
    && PageEntry(w2, pt, n) == V2P(f) + bits
    && KERNEL_BASE <= f && f + PAGE < WORD_RANGE && f % PAGE == 0
    && Zeroed(w2, f, PAGE) && TakenFrom(s, t, f, PAGE)
    && Grows(s, w, t, w2, SlotOf(w, pt, n))
  }

  /** A cleared frame of the page allocator. */
  method AllocFrame(slb: Slb) returns (r: Maybe<int>)
    requires slb.Valid()
    modifies slb, slb.space, slb.space.ram
    ensures r.Some? <==> ServeFrame(old(slb.st)).Some?
    ensures r.Some? ==>
      && slb.Valid() && KERNEL_BASE <= r.value && r.value + PAGE < WORD_RANGE && r.value % PAGE == 0
      && TakenFrom(old(slb.st), slb.st, r.value, PAGE)
      && Grows(old(slb.st), old(slb.space.ram.words), slb.st, slb.space.ram.words, r.value)
      && Zeroed(slb.space.ram.words, r.value, PAGE)
      && slb.st == ServeFrame(old(slb.st)).value
  {
    r := slb.TakeFrames(PAGE);
    if r.Some? {
      ghost var w := slb.space.ram.words;
      Zero(slb.space.ram, r.value, 1024);
      ClientStore(w, slb.space.ram.words, slb.slbHead, slb.st);
      ChainedFrame(w, slb.space.ram.words, slb.space.head, slb.space.areas);
    }
  }

  /** The page descriptor's store makes the step. */
  lemma {:induction false} PageStored(s: Slabs, w: Words, t: Slabs, w1: Words, pt: int, n: int, f: int, bits: int)
    requires Tables(s, w, pt) && 0 <= n < PAGES && HasTable(w, pt, n / L2_ENTRIES)
    requires KERNEL_BASE <= f && f + PAGE < WORD_RANGE && f % PAGE == 0
    requires TakenFrom(s, t, f, PAGE) && Grows(s, w, t, w1, f) && Zeroed(w1, f, PAGE)
    ensures PageStep(s, w, t, w1[SlotOf(w, pt, n) := V2P(f) + bits], pt, n, f, bits)
    ensures !Owned(t, SlotOf(w, pt, n))
  {
    var slot := SlotOf(w, pt, n);
    var w2 := w1[slot := V2P(f) + bits];
    SlotHeld(s, w, pt, n);
    SlotOutside(s, w, pt, n, f);
    forall x | Rd(w2, x) != Rd(w, x) ensures Owned(s, x) || x == slot {
      assert x != slot ==> Rd(w1, x) != Rd(w, x);
      assert x == f ==> InRange(x, f, PAGE);
    }
    SlotStore(s, w, t, w2, pt, n);
    forall x | InRange(x, f, PAGE) && (x - f) % 4 == 0 ensures Rd(w2, x) == 0 { assert Rd(w1, x) == 0; }
  }

  method NewPage(slb: Slb, pt: int, n: int, bits: int) returns (ok: bool, ghost f: int)
    requires slb.Valid() && Tables(slb.st, slb.space.ram.words, pt) && PageBits(bits)
    requires 0 <= n < PAGES && HasTable(slb.space.ram.words, pt, n / L2_ENTRIES)
    modifies slb, slb.space, slb.space.ram
    ensures ok <==> ServeFrame(old(slb.st)).Some?
    ensures ok ==> slb.st == ServeFrame(old(slb.st)).value
    ensures ok ==>
      && slb.Valid()
      && PageStep(old(slb.st), old(slb.space.ram.words), slb.st, slb.space.ram.words, pt, n, f, bits)
  {
    ghost var s, w := slb.st, slb.space.ram.words;
    f := 0;
    var slot := TableOf(slb.space.ram.Load(pt + 4 * (n / L2_ENTRIES))) + 4 * (n % L2_ENTRIES);
    var temp := AllocFrame(slb);
    if temp.None? {
      return false, 0;
    }
    f := temp.value;
    PageStored(s, w, slb.st, slb.space.ram.words, pt, n, f, bits);
    StoreDescriptor(slb, slot, temp.value, bits, PAGE);
    return true, f;
  }

  lemma {:induction false} SlotHeld(s: Slabs, w: Words, pt: int, n: int)
    requires Tables(s, w, pt) && 0 <= n < PAGES && HasTable(w, pt, n / L2_ENTRIES)
    ensures !Owned(s, SlotOf(w, pt, n)) && !InRange(SlotOf(w, pt, n), pt, L1_BYTES)
    ensures InRange(SlotOf(w, pt, n), TableOf(L1Entry(w, pt, n / L2_ENTRIES)), L2_BYTES)
  {
    assert TableHeld(s, w, pt, n / L2_ENTRIES);
    assert InRange(SlotOf(w, pt, n), TableOf(L1Entry(w, pt, n / L2_ENTRIES)), L2_BYTES);
  }

  lemma {:induction false} SlotOutside(s: Slabs, w: Words, pt: int, n: int, f: int)
    requires Tables(s, w, pt) && 0 <= n < PAGES && HasTable(w, pt, n / L2_ENTRIES)
    requires forall x :: InRange(x, f, PAGE) ==> Owned(s, x)
    ensures !InRange(SlotOf(w, pt, n), f, PAGE)
  {
    SlotHeld(s, w, pt, n);
  }

  /** Storing a descriptor leaves the tables where they are. */
  lemma {:induction false} SlotStore(s: Slabs, w: Words, t: Slabs, w2: Words, pt: int, n: int)
    requires Tables(s, w, pt) && 0 <= n < PAGES && HasTable(w, pt, n / L2_ENTRIES)
    requires Grows(s, w, t, w2, SlotOf(w, pt, n))
    ensures Tables(t, w2, pt)
    ensures forall j :: 0 <= j < L1_ENTRIES ==> L1Entry(w2, pt, j) == L1Entry(w, pt, j)
    ensures SlotOf(w2, pt, n) == SlotOf(w, pt, n)
  {
    SlotHeld(s, w, pt, n);
    forall j | 0 <= j < L1_ENTRIES ensures L1Entry(w2, pt, j) == L1Entry(w, pt, j) {
      assert InRange(pt + 4 * j, pt, L1_BYTES);
    }
    forall i | 0 <= i < L1_ENTRIES && HasTable(w2, pt, i) ensures TableHeld(t, w2, pt, i) {
      assert HasTable(w, pt, i) && TableHeld(s, w, pt, i);
    }
    forall i, j | 0 <= i < L1_ENTRIES && 0 <= j < L1_ENTRIES && i != j && HasTable(w2, pt, i) && HasTable(w2, pt, j)
      ensures TablesApart(w2, pt, i, j)
    {
      assert HasTable(w, pt, i) && HasTable(w, pt, j) && TablesApart(w, pt, i, j);
    }
  }

  /** A page step changes the entry of its own page only. */
  lemma {:induction false} PageStepEntries(s: Slabs, w: Words, t: Slabs, w2: Words, pt: int, n: int, f: int,
                                           bits: int, m: int)
    requires Tables(s, w, pt) && 0 <= n < PAGES && HasTable(w, pt, n / L2_ENTRIES)
    requires PageStep(s, w, t, w2, pt, n, f, bits)
    requires 0 <= m < PAGES && m != n && TypeOf(L1Entry(w, pt, m / L2_ENTRIES)) <= 1
    ensures PageEntry(w2, pt, m) == PageEntry(w, pt, m)
  {
    var i, j := n / L2_ENTRIES, m / L2_ENTRIES;
    SlotHeld(s, w, pt, n);
    if HasTable(w, pt, j) {
      SlotHeld(s, w, pt, m);
      if i != j {
        assert TablesApart(w, pt, i, j);
      } else {
        assert n == L2_ENTRIES * i + n % L2_ENTRIES && m == L2_ENTRIES * j + m % L2_ENTRIES;
      }
    }
  }

  // ---------- mmap ----------

  /** Page n lies in [start, finish), as the inner loop tests it. */
  predicate InMap(n: int, start: int, finish: int) { start <= n * PAGE < finish }

  /** No page of the range is covered by a section. */
  ghost predicate NoSections(w: Words, pt: int, start: int, finish: int) {
    forall n {:trigger InMap(n, start, finish)} :: 0 <= n < PAGES && InMap(n, start, finish) ==>
      TypeOf(L1Entry(w, pt, n / L2_ENTRIES)) <= 1
  }

  ghost predicate Wanted(w0: Words, pt: int, start: int, finish: int, n: int) {
    0 <= n < PAGES && InMap(n, start, finish) && !Mapped(w0, pt, n)
  }

  /** Frame f was the allocators' at the start, is nobody else's now, and still holds zeros. */
  ghost predicate FrameFresh(s0: Slabs, s: Slabs, w: Words, pt: int, f: int) {
    && KERNEL_BASE <= f && f + PAGE < WORD_RANGE && f % PAGE == 0
    && TakenFrom(s0, s, f, PAGE) && Zeroed(w, f, PAGE)
    && Apart(f, PAGE, pt, L1_BYTES)
    && forall i {:trigger HasTable(w, pt, i)} :: 0 <= i < L1_ENTRIES && HasTable(w, pt, i) ==>
      Apart(f, PAGE, TableOf(L1Entry(w, pt, i)), L2_BYTES)
  }

  /** The entry of page n after the pages in frames have been mapped: theirs, or the old one. */
  ghost predicate EntryDone(w0: Words, w: Words, pt: int, bits: int, frames: map<int, int>, n: int) {
    if n in frames then PageEntry(w, pt, n) == V2P(frames[n]) + bits
    else TypeOf(L1Entry(w0, pt, n / L2_ENTRIES)) <= 1 ==> PageEntry(w, pt, n) == PageEntry(w0, pt, n)
  }

  ghost predicate AllOwned(s: Slabs, at: int, n: int) {
    forall x :: InRange(x, at, n) ==> Owned(s, x)
  }

  /** First-level entry i is the old one, or it was empty and has a table made of allocator memory. */
  ghost predicate L1Done(s0: Slabs, w0: Words, w: Words, pt: int, i: int) {
    || L1Entry(w, pt, i) == L1Entry(w0, pt, i)
    || (TypeOf(L1Entry(w0, pt, i)) == 0 && HasTable(w, pt, i) && AllOwned(s0, TableOf(L1Entry(w, pt, i)), L2_BYTES))
  }

  /** x is a word of the first-level table or of a second-level one. */
  ghost predicate InTables(w: Words, pt: int, x: int) {
    || InRange(x, pt, L1_BYTES)
    || exists i {:trigger HasTable(w, pt, i)} ::
         0 <= i < L1_ENTRIES && HasTable(w, pt, i) && InRange(x, TableOf(L1Entry(w, pt, i)), L2_BYTES)
  }

  /** Only allocator memory and these tables were written. */
  ghost predicate Wrote(s0: Slabs, w0: Words, w: Words, pt: int) {
    forall x {:trigger Rd(w, x)} :: Rd(w, x) != Rd(w0, x) ==> Owned(s0, x) || InTables(w0, pt, x)
  }

  ghost predicate FramesApart(frames: map<int, int>, n: int, m: int)
    requires n in frames && m in frames
  {
    Apart(frames[n], PAGE, frames[m], PAGE)
  }

  /** What mmap has achieved when it has dealt with all pages below cur. */
  ghost predicate Progress(s0: Slabs, w0: Words, s: Slabs, w: Words, pt: int, start: int, finish: int, bits: int,
                           frames: map<int, int>, cur: int) {
    && Tables(s, w, pt)
    && (forall n {:trigger n in frames} :: n in frames <==> n < cur && Wanted(w0, pt, start, finish, n))
    && (forall n {:trigger EntryDone(w0, w, pt, bits, frames, n)} :: 0 <= n < PAGES ==>
      EntryDone(w0, w, pt, bits, frames, n))
    && (forall n {:trigger FrameFresh(s0, s, w, pt, frames[n])} :: n in frames ==> FrameFresh(s0, s, w, pt, frames[n]))
    && (forall n, m {:trigger FramesApart(frames, n, m)} :: n in frames && m in frames && n != m ==>
      FramesApart(frames, n, m))
    && (forall i {:trigger L1Done(s0, w0, w, pt, i)} :: 0 <= i < L1_ENTRIES ==> L1Done(s0, w0, w, pt, i))
    && (forall x {:trigger Owned(s, x)} :: Owned(s, x) ==> Owned(s0, x))
    && Wrote(s0, w0, w, pt)
  }

  /** A frame outlives a step that neither hits it nor builds a table over it. */
  lemma {:induction false} FrameKept(s0: Slabs, s: Slabs, w: Words, t: Slabs, w2: Words, pt: int, f: int, y: int)
    requires FrameFresh(s0, s, w, pt, f) && Grows(s, w, t, w2, y) && !InRange(y, f, PAGE)
    requires forall i :: 0 <= i < L1_ENTRIES && HasTable(w2, pt, i) ==>
      (L1Entry(w2, pt, i) == L1Entry(w, pt, i) || TakenFrom(s, t, TableOf(L1Entry(w2, pt, i)), L2_BYTES))
    ensures FrameFresh(s0, t, w2, pt, f)
  {
    forall x | InRange(x, f, PAGE) ensures !Owned(t, x) && Rd(w2, x) == Rd(w, x) {
      assert !Owned(s, x);
    }
    forall x | InRange(x, f, PAGE) && (x - f) % 4 == 0 ensures Rd(w2, x) == 0 { assert Rd(w, x) == 0; }
    forall i | 0 <= i < L1_ENTRIES && HasTable(w2, pt, i)
      ensures Apart(f, PAGE, TableOf(L1Entry(w2, pt, i)), L2_BYTES) {
      if L1Entry(w2, pt, i) == L1Entry(w, pt, i) {
        assert HasTable(w, pt, i);
      } else {
        OwnedApart(s, f, PAGE, TableOf(L1Entry(w2, pt, i)), L2_BYTES);
      }
    }
  }

  lemma {:induction false} TableProgress(s0: Slabs, w0: Words, s: Slabs, w: Words, t: Slabs, w2: Words,
                      pt: int, start: int, finish: int, bits: int, frames: map<int, int>, cur: int, i: int)
    requires Progress(s0, w0, s, w, pt, start, finish, bits, frames, cur)
    requires 0 <= i < L1_ENTRIES && TypeOf(L1Entry(w, pt, i)) == 0 && TableStep(s, w, t, w2, pt, i)
    requires NoSections(w0, pt, start, finish)
    ensures Progress(s0, w0, t, w2, pt, start, finish, bits, frames, cur)
  {
    forall n | 0 <= n < PAGES ensures EntryDone(w0, w2, pt, bits, frames, n) {
      var j := n / L2_ENTRIES;
      assert EntryDone(w0, w, pt, bits, frames, n) && L1Done(s0, w0, w, pt, j);
      if n in frames || TypeOf(L1Entry(w0, pt, j)) <= 1 {
        PageHasSmallType(s0, w0, s, w, pt, start, finish, bits, frames, cur, n);
        TableStepEntries(s, w, t, w2, pt, i, n);
      }
    }
    forall n | n in frames ensures FrameFresh(s0, t, w2, pt, frames[n]) {
      assert FrameFresh(s0, s, w, pt, frames[n]);
      assert InRange(pt + 4 * i, pt, L1_BYTES);
      FrameKept(s0, s, w, t, w2, pt, frames[n], pt + 4 * i);
    }
    forall j | 0 <= j < L1_ENTRIES ensures L1Done(s0, w0, w2, pt, j) { assert L1Done(s0, w0, w, pt, j); }
    WroteOn(s0, w0, s, w, t, w2, pt, pt + 4 * i);
  }

  /** One more step writes where the ones before could. */
  lemma {:induction false} WroteOn(s0: Slabs, w0: Words, s: Slabs, w: Words, t: Slabs, w2: Words, pt: int, y: int)
    requires Wrote(s0, w0, w, pt) && Grows(s, w, t, w2, y) && forall x :: Owned(s, x) ==> Owned(s0, x)
    requires Owned(s0, y) || InTables(w0, pt, y)
    ensures Wrote(s0, w0, w2, pt)
  {
    forall x | Rd(w2, x) != Rd(w0, x) ensures Owned(s0, x) || InTables(w0, pt, x) {
      if Rd(w2, x) == Rd(w, x) { assert Rd(w, x) != Rd(w0, x); }
    }
  }

  /** A page's descriptor is written in a table there was, or in memory that was the allocators'. */
  lemma SlotWritable(s0: Slabs, w0: Words, s: Slabs, w: Words, pt: int, n: int)
    requires Tables(s, w, pt) && 0 <= n < PAGES && HasTable(w, pt, n / L2_ENTRIES)
      && L1Done(s0, w0, w, pt, n / L2_ENTRIES)
    ensures Owned(s0, SlotOf(w, pt, n)) || InTables(w0, pt, SlotOf(w, pt, n))
  {
    SlotHeld(s, w, pt, n);
    if L1Entry(w, pt, n / L2_ENTRIES) == L1Entry(w0, pt, n / L2_ENTRIES) {
      assert HasTable(w0, pt, n / L2_ENTRIES);
    }
  }

  /** Pages that were mapped or could be have first-level entries of type 0 or 1 throughout. */
  lemma {:induction false} PageHasSmallType(s0: Slabs, w0: Words, s: Slabs, w: Words, pt: int, start: int, finish: int,
                         bits: int, frames: map<int, int>, cur: int, n: int)
    requires Progress(s0, w0, s, w, pt, start, finish, bits, frames, cur) && 0 <= n < PAGES
    requires n in frames || TypeOf(L1Entry(w0, pt, n / L2_ENTRIES)) <= 1
    requires NoSections(w0, pt, start, finish)
    ensures TypeOf(L1Entry(w, pt, n / L2_ENTRIES)) <= 1
  {
    assert L1Done(s0, w0, w, pt, n / L2_ENTRIES);
  }

  lemma {:induction false} PageProgress(s0: Slabs, w0: Words, s: Slabs, w: Words, t: Slabs, w2: Words, pt: int,
                     start: int, finish: int, bits: int, frames: map<int, int>, n: int, f: int)
    requires Progress(s0, w0, s, w, pt, start, finish, bits, frames, n) && NoSections(w0, pt, start, finish)
    requires Wanted(w0, pt, start, finish, n) && HasTable(w, pt, n / L2_ENTRIES)
    requires PageStep(s, w, t, w2, pt, n, f, bits)
    ensures Progress(s0, w0, t, w2, pt, start, finish, bits, frames[n := f], n + 1)
  {
    var fs := frames[n := f];
    SlotHeld(s, w, pt, n);
    forall m | 0 <= m < PAGES ensures EntryDone(w0, w2, pt, bits, fs, m) {
      assert EntryDone(w0, w, pt, bits, frames, m);
      if m != n && (m in frames || TypeOf(L1Entry(w0, pt, m / L2_ENTRIES)) <= 1) {
        PageHasSmallType(s0, w0, s, w, pt, start, finish, bits, frames, n, m);
        PageStepEntries(s, w, t, w2, pt, n, f, bits, m);
      }
    }
    forall m | m in frames ensures FrameFresh(s0, t, w2, pt, frames[m]) {
      assert FrameFresh(s0, s, w, pt, frames[m]);
      FrameKept(s0, s, w, t, w2, pt, frames[m], SlotOf(w, pt, n));
    }
    NewFrameFresh(s0, s, w, t, w2, pt, n, f, bits);
    forall m, k | m in fs && k in fs && m != k ensures FramesApart(fs, m, k) {
      if m != n && k != n {
        assert FramesApart(frames, m, k);
      } else {
        var other := if m == n then k else m;
        assert FrameFresh(s0, s, w, pt, frames[other]);
        OwnedApart(s, frames[other], PAGE, f, PAGE);
      }
    }
    forall i | 0 <= i < L1_ENTRIES ensures L1Done(s0, w0, w2, pt, i) { assert L1Done(s0, w0, w, pt, i); }
    assert L1Done(s0, w0, w, pt, n / L2_ENTRIES);
    SlotWritable(s0, w0, s, w, pt, n);
    WroteOn(s0, w0, s, w, t, w2, pt, SlotOf(w, pt, n));
  }

  lemma {:induction false} NewFrameFresh(s0: Slabs, s: Slabs, w: Words, t: Slabs, w2: Words, pt: int, n: int, f: int,
                                         bits: int)
    requires Tables(s, w, pt) && PageStep(s, w, t, w2, pt, n, f, bits)
    requires forall x :: Owned(s, x) ==> Owned(s0, x)
    ensures FrameFresh(s0, t, w2, pt, f)
  {
    OwnedApart(s, pt, L1_BYTES, f, PAGE);
    forall i | 0 <= i < L1_ENTRIES && HasTable(w2, pt, i)
      ensures Apart(f, PAGE, TableOf(L1Entry(w2, pt, i)), L2_BYTES) {
      assert HasTable(w, pt, i) && TableHeld(s, w, pt, i);
      OwnedApart(s, TableOf(L1Entry(w, pt, i)), L2_BYTES, f, PAGE);
    }
  }

  /** The first-level entries from start to finish are in use. */
  ghost predicate Visited(w: Words, pt: int, start: int, finish: int) {
    forall i {:trigger L1Entry(w, pt, i)} :: start / SECTION <= i <= LastEntry(finish) ==>
      TypeOf(L1Entry(w, pt, i)) != 0
  }

  /** Everything a second, identical mmap would find: tables for all entries visited, and every
      page of the range mapped. */
  ghost predicate Complete(w: Words, pt: int, start: int, finish: int) {
    && Visited(w, pt, start, finish)
    && (forall n {:trigger Mapped(w, pt, n)} :: 0 <= n < PAGES && InMap(n, start, finish) ==> Mapped(w, pt, n))
  }

  /** The last first-level entry the outer loop visits; finish - 1 is unsigned. */
  function LastEntry(finish: int): int { (finish - 1) % WORD_RANGE / SECTION }

  // ---------- what an mmap asks of the allocators ----------

  /** One step of the allocators' state at a page or an entry; None if they cannot serve it. */
  type Server = (Slabs, int) -> Maybe<Slabs>

  /** A frame for page n if it is in the range and was not mapped in w0. */
  ghost function ServePage(s: Slabs, w0: Words, pt: int, start: int, finish: int, n: int): Maybe<Slabs> {
    if Wanted(w0, pt, start, finish, n) then ServeFrame(s) else Some(s)
  }

  ghost function PageServer(w0: Words, pt: int, start: int, finish: int): Server {
    (s, n) => ServePage(s, w0, pt, start, finish, n)
  }

  /** A table for entry i if it was empty in w0, then what its pages need. */
  ghost function ServeEntry(s: Slabs, w0: Words, pt: int, page: Server, i: int): Maybe<Slabs> {
    match if TypeOf(L1Entry(w0, pt, i)) == 0 then ServeTable(s) else Some(s)
    case None => None
    case Some(t) => Iterate(page, t, i * L2_ENTRIES, (i + 1) * L2_ENTRIES)
  }

  ghost function EntryServer(w0: Words, pt: int, page: Server): Server {
    (s, i) => ServeEntry(s, w0, pt, page, i)
  }

  /** What a whole mmap makes of the allocators: entry by entry a table where there was none and a
      frame for every page to be mapped, and nothing else. */
  ghost function ServeMap(s: Slabs, w0: Words, pt: int, start: int, finish: int): Maybe<Slabs> {
    var entry := EntryServer(w0, pt, PageServer(w0, pt, start, finish));
    Iterate(entry, s, start / SECTION, LastEntry(finish) + 1)
  }

  /** The two servers by what they do, for the loops to use without their definitions. */
  ghost predicate PageServes(page: Server, w0: Words, pt: int, start: int, finish: int) {
    forall s, n {:trigger ServePage(s, w0, pt, start, finish, n)} ::
      page(s, n) == ServePage(s, w0, pt, start, finish, n)
  }

  ghost predicate EntryServes(entry: Server, w0: Words, pt: int, page: Server) {
    forall s, i {:trigger ServeEntry(s, w0, pt, page, i)} :: entry(s, i) == ServeEntry(s, w0, pt, page, i)
  }

  lemma Servers(w0: Words, pt: int, start: int, finish: int) returns (page: Server, entry: Server)
    ensures PageServes(page, w0, pt, start, finish) && EntryServes(entry, w0, pt, page)
    ensures forall s {:trigger ServeMap(s, w0, pt, start, finish)} ::
      ServeMap(s, w0, pt, start, finish) == Iterate(entry, s, start / SECTION, LastEntry(finish) + 1)
  {
    page := PageServer(w0, pt, start, finish);
    entry := EntryServer(w0, pt, page);
  }

  ghost predicate EntryUsed(w: Words, pt: int, k: int) { TypeOf(L1Entry(w, pt, k)) != 0 }

  /** An entry that was empty in w0 has a descriptor with these attribute bits. */
  ghost predicate EntryMade(w0: Words, w: Words, pt: int, bits1: int, k: int) {
    TypeOf(L1Entry(w0, pt, k)) == 0 ==> Described(w, pt, k, bits1)
  }

  ghost predicate AllDescribed(w0: Words, w: Words, pt: int, start: int, finish: int, bits1: int) {
    forall k {:trigger EntryMade(w0, w, pt, bits1, k)} ::
      start / SECTION <= k <= LastEntry(finish) ==> EntryMade(w0, w, pt, bits1, k)
  }

  ghost predicate EntryKept(w: Words, w2: Words, pt: int, k: int) { L1Entry(w2, pt, k) == L1Entry(w, pt, k) }

  ghost predicate EntriesKept(w: Words, w2: Words, pt: int) {
    forall k {:trigger EntryKept(w, w2, pt, k)} :: 0 <= k < L1_ENTRIES ==> EntryKept(w, w2, pt, k)
  }

  ghost predicate OthersKept(w: Words, w2: Words, pt: int, i: int) {
    forall k {:trigger EntryKept(w, w2, pt, k)} :: 0 <= k < L1_ENTRIES && k != i ==> EntryKept(w, w2, pt, k)
  }

  lemma {:induction false} OthersThenAll(w: Words, w1: Words, w2: Words, pt: int, i: int)
    requires OthersKept(w, w1, pt, i) && EntriesKept(w1, w2, pt)
    ensures OthersKept(w, w2, pt, i) && (EntriesKept(w, w1, pt) ==> EntriesKept(w, w2, pt))
    ensures 0 <= i < L1_ENTRIES ==> L1Entry(w2, pt, i) == L1Entry(w1, pt, i)
  {
    forall k | 0 <= k < L1_ENTRIES ensures k != i ==> EntryKept(w, w2, pt, k) {
      assert EntryKept(w1, w2, pt, k) && (k != i ==> EntryKept(w, w1, pt, k));
    }
    if EntriesKept(w, w1, pt) && 0 <= i < L1_ENTRIES { assert EntryKept(w, w1, pt, i) && EntryKept(w1, w2, pt, i); }
    if 0 <= i < L1_ENTRIES { assert EntryKept(w1, w2, pt, i); }
  }

  /** One page of the inner loop. */
  method MapPage(slb: Slb, pt: int, start: int, finish: int, bits: int, n: int,
                 ghost s0: Slabs, ghost w0: Words, ghost page: Server,
                 ghost frames: map<int, int>)
    returns (ok: bool, ghost fs: map<int, int>)
    requires slb.Valid() && PageBits(bits) && NoSections(w0, pt, start, finish) && 0 <= n < PAGES
    requires Progress(s0, w0, slb.st, slb.space.ram.words, pt, start, finish, bits, frames, n)
    requires TypeOf(L1Entry(slb.space.ram.words, pt, n / L2_ENTRIES)) != 0
    requires PageServes(page, w0, pt, start, finish)
    modifies slb, slb.space, slb.space.ram
    ensures ok ==> slb.Valid() && Progress(s0, w0, slb.st, slb.space.ram.words, pt, start, finish, bits, fs, n + 1)
    ensures ok ==> EntriesKept(old(slb.space.ram.words), slb.space.ram.words, pt)
    ensures ok <==> page(old(slb.st), n).Some?
    ensures ok ==> slb.st == page(old(slb.st), n).value
    ensures !InMap(n, start, finish) || Mapped(old(slb.space.ram.words), pt, n) ==>
      ok && slb.space.ram.words == old(slb.space.ram.words) && slb.st == old(slb.st)
  {
    assert page(slb.st, n) == ServePage(slb.st, w0, pt, start, finish, n);
    var temp := n * PAGE;
    if temp < start || temp >= finish {
      assert !Wanted(w0, pt, start, finish, n);
      return true, frames;
    }
    ghost var w := slb.space.ram.words;
    assert InMap(n, start, finish) && L1Done(s0, w0, w, pt, n / L2_ENTRIES);
    assert EntryDone(w0, w, pt, bits, frames, n);
    var l2page := TableOf(slb.space.ram.Load(pt + 4 * (n / L2_ENTRIES)));
    if TypeOf(slb.space.ram.Load(l2page + 4 * (n % L2_ENTRIES))) == 0 {
      ghost var s := slb.st;
      ghost var f;
      assert Wanted(w0, pt, start, finish, n);
      ok, f := NewPage(slb, pt, n, bits);
      fs := frames[n := f];
      if ok {
        PageProgress(s0, w0, s, w, slb.st, slb.space.ram.words, pt, start, finish, bits, frames, n, f);
      }
    } else {
      assert !Wanted(w0, pt, start, finish, n);
      return true, frames;
    }
  }

  /** The pages of entry i that an mmap of the range would find mapped already. */
  ghost predicate TableComplete(w: Words, pt: int, start: int, finish: int, i: int) {
    forall n {:trigger Mapped(w, pt, n)} :: i * L2_ENTRIES <= n < (i + 1) * L2_ENTRIES && InMap(n, start, finish) ==>
      Mapped(w, pt, n)
  }

  /** What the inner loop of entry i keeps before page n, beside the record of what is done: the
      first-level entries as they were, the pages so far served, and nothing changed if there was
      nothing to do. */
  ghost predicate Row(w: Words, s: Slabs, w2: Words, t: Slabs, pt: int, start: int, finish: int, page: Server,
                      i: int, n: int) {
    && EntriesKept(w, w2, pt)
    && Reaches(page, s, i * L2_ENTRIES, t, n)
    && (TableComplete(w, pt, start, finish, i) ==> w2 == w && t == s)
  }

  lemma {:induction false} RowStep(w: Words, s: Slabs, w1: Words, t: Slabs, w2: Words, u: Slabs, pt: int,
                                   start: int, finish: int, page: Server, i: int, n: int)
    requires Row(w, s, w1, t, pt, start, finish, page, i, n) && i * L2_ENTRIES <= n < (i + 1) * L2_ENTRIES
    requires EntriesKept(w1, w2, pt) && page(t, n) == Some(u)
    requires !InMap(n, start, finish) || Mapped(w1, pt, n) ==> w2 == w1 && u == t
    ensures Row(w, s, w2, u, pt, start, finish, page, i, n + 1)
  {
    ReachesMore(page, s, i * L2_ENTRIES, t, n, u);
    OthersThenAll(w, w1, w2, pt, i);
  }

  /** MapPage with what the inner loop keeps. */
  method PageTurn(slb: Slb, pt: int, start: int, finish: int, bits: int, i: int, n: int,
                  ghost s0: Slabs, ghost w0: Words, ghost w: Words, ghost s: Slabs, ghost page: Server,
                  ghost frames0: map<int, int>)
    returns (ok: bool, ghost frames: map<int, int>)
    requires slb.Valid() && PageBits(bits) && NoSections(w0, pt, start, finish)
    requires 0 <= i < L1_ENTRIES && i * L2_ENTRIES <= n < (i + 1) * L2_ENTRIES && TypeOf(L1Entry(w, pt, i)) != 0
    requires Progress(s0, w0, slb.st, slb.space.ram.words, pt, start, finish, bits, frames0, n)
    requires Row(w, s, slb.space.ram.words, slb.st, pt, start, finish, page, i, n)
    requires PageServes(page, w0, pt, start, finish)
    modifies slb, slb.space, slb.space.ram
    ensures ok ==>
      && slb.Valid() && Progress(s0, w0, slb.st, slb.space.ram.words, pt, start, finish, bits, frames, n + 1)
      && Row(w, s, slb.space.ram.words, slb.st, pt, start, finish, page, i, n + 1)
    ensures !ok ==>
      && Iterate(page, s, i * L2_ENTRIES, (i + 1) * L2_ENTRIES).None? && !TableComplete(w, pt, start, finish, i)
  {
    ghost var w1, t := slb.space.ram.words, slb.st;
    assert EntryKept(w, w1, pt, i) && n / L2_ENTRIES == i;
    ok, frames := MapPage(slb, pt, start, finish, bits, n, s0, w0, page, frames0);
    if ok {
      RowStep(w, s, w1, t, slb.space.ram.words, slb.st, pt, start, finish, page, i, n);
    } else {
      ReachesIterate(page, s, i * L2_ENTRIES, t, n, (i + 1) * L2_ENTRIES);
    }
  }

  /** The inner loop. */
  method MapTable(slb: Slb, pt: int, start: int, finish: int, bits: int, i: int,
                  ghost s0: Slabs, ghost w0: Words, ghost page: Server,
                  ghost frames0: map<int, int>)
    returns (ok: bool, ghost frames: map<int, int>)
    requires slb.Valid() && PageBits(bits) && NoSections(w0, pt, start, finish) && 0 <= i < L1_ENTRIES
    requires Progress(s0, w0, slb.st, slb.space.ram.words, pt, start, finish, bits, frames0, i * L2_ENTRIES)
    requires TypeOf(L1Entry(slb.space.ram.words, pt, i)) != 0
    requires PageServes(page, w0, pt, start, finish)
    modifies slb, slb.space, slb.space.ram
    ensures ok ==>
      && slb.Valid()
      && Progress(s0, w0, slb.st, slb.space.ram.words, pt, start, finish, bits, frames, (i + 1) * L2_ENTRIES)
    ensures ok ==> EntriesKept(old(slb.space.ram.words), slb.space.ram.words, pt)
    ensures
      var served := Iterate(page, old(slb.st), i * L2_ENTRIES, (i + 1) * L2_ENTRIES);
      (ok <==> served.Some?) && (ok ==> slb.st == served.value)
    ensures TableComplete(old(slb.space.ram.words), pt, start, finish, i) ==>
      ok && slb.space.ram.words == old(slb.space.ram.words) && slb.st == old(slb.st)
  {
    ghost var w, s := slb.space.ram.words, slb.st;
    frames := frames0;
    var j, n := 0, i * L2_ENTRIES;
    ReachesSelf(page, s, n);
    while j < L2_ENTRIES
      invariant 0 <= j <= L2_ENTRIES && n == i * L2_ENTRIES + j && slb.Valid()
      invariant Progress(s0, w0, slb.st, slb.space.ram.words, pt, start, finish, bits, frames, n)
      invariant Row(w, s, slb.space.ram.words, slb.st, pt, start, finish, page, i, n)
    {
      ok, frames := PageTurn(slb, pt, start, finish, bits, i, n, s0, w0, w, s, page, frames);
      if !ok {
        return;
      }
      j, n := j + 1, n + 1;
    }
    ReachesIterate(page, s, i * L2_ENTRIES, slb.st, n, n);
    return true, frames;
  }

  /** One turn of the outer loop. */
  method MapEntry(slb: Slb, pt: int, start: int, finish: int, bits1: int, bits: int, i: int,
                  ghost s0: Slabs, ghost w0: Words, ghost page: Server,
                  ghost frames0: map<int, int>)
    returns (ok: bool, ghost frames: map<int, int>)
    requires slb.Valid() && TableBits(bits1) && PageBits(bits) && NoSections(w0, pt, start, finish)
    requires 0 <= i < L1_ENTRIES && L1Entry(slb.space.ram.words, pt, i) == L1Entry(w0, pt, i)
    requires Progress(s0, w0, slb.st, slb.space.ram.words, pt, start, finish, bits, frames0, i * L2_ENTRIES)
    requires PageServes(page, w0, pt, start, finish)
    modifies slb, slb.space, slb.space.ram
    ensures ok <==> ServeEntry(old(slb.st), w0, pt, page, i).Some?
    ensures ok ==> slb.Valid() && slb.st == ServeEntry(old(slb.st), w0, pt, page, i).value
    ensures ok ==> Progress(s0, w0, slb.st, slb.space.ram.words, pt, start, finish, bits, frames, (i + 1) * L2_ENTRIES)
    ensures ok ==> TypeOf(L1Entry(slb.space.ram.words, pt, i)) != 0
    ensures ok && TypeOf(L1Entry(w0, pt, i)) == 0 ==> Described(slb.space.ram.words, pt, i, bits1)
    ensures ok ==> OthersKept(old(slb.space.ram.words), slb.space.ram.words, pt, i)
    ensures
      var w := old(slb.space.ram.words);
      TypeOf(L1Entry(w, pt, i)) != 0 && TableComplete(w, pt, start, finish, i) ==>
        ok && slb.space.ram.words == w && slb.st == old(slb.st)
  {
    frames := frames0;
    ghost var s, w := slb.st, slb.space.ram.words;
    if TypeOf(slb.space.ram.Load(pt + 4 * i)) == 0 {
      assert TypeOf(L1Entry(w, pt, i)) == 0;
      ok := NewTable(slb, pt, i, bits1);
      if !ok {
        return;
      }
      TableProgress(s0, w0, s, w, slb.st, slb.space.ram.words, pt, start, finish, bits, frames, i * L2_ENTRIES, i);
    }
    ghost var w1 := slb.space.ram.words;
    ok, frames := MapTable(slb, pt, start, finish, bits, i, s0, w0, page, frames);
    if ok { OthersThenAll(w, w1, slb.space.ram.words, pt, i); }
  }

  /** What the outer loop keeps before entry i, beside the record of what is done: entries visited
      are in use and later ones as they were, what is left to serve is what was to be served, and
      nothing changed if there was nothing to do. */
  ghost predicate Ahead(s0: Slabs, w0: Words, s: Slabs, w: Words, pt: int, start: int, finish: int,
                        entry: Server, bits1: int, i: int) {
    && (forall k {:trigger EntryUsed(w, pt, k)} :: start / SECTION <= k < i ==> EntryUsed(w, pt, k))
    && (forall k {:trigger EntryMade(w0, w, pt, bits1, k)} ::
          start / SECTION <= k < i ==> EntryMade(w0, w, pt, bits1, k))
    && (forall k {:trigger EntryKept(w0, w, pt, k)} :: i <= k < L1_ENTRIES ==> EntryKept(w0, w, pt, k))
    && Reaches(entry, s0, start / SECTION, s, i)
    && (Complete(w0, pt, start, finish) ==> w == w0 && s == s0)
  }

  /** One entry done: t and w2 are what MapEntry leaves. */
  lemma {:induction false} AheadStep(s0: Slabs, w0: Words, s: Slabs, w: Words, t: Slabs, w2: Words, pt: int,
                                     start: int, finish: int, entry: Server, bits1: int, i: int)
    requires Ahead(s0, w0, s, w, pt, start, finish, entry, bits1, i)
    requires 0 <= start / SECTION <= i <= LastEntry(finish) && i < L1_ENTRIES
    requires entry(s, i) == Some(t)
    requires TypeOf(L1Entry(w2, pt, i)) != 0 && EntryMade(w0, w2, pt, bits1, i) && OthersKept(w, w2, pt, i)
    requires TypeOf(L1Entry(w, pt, i)) != 0 && TableComplete(w, pt, start, finish, i) ==> w2 == w && t == s
    ensures Ahead(s0, w0, t, w2, pt, start, finish, entry, bits1, i + 1)
  {
    ReachesMore(entry, s0, start / SECTION, s, i, t);
    if Complete(w0, pt, start, finish) { CompleteEntry(w0, pt, start, finish, i); }
    forall k | start / SECTION <= k < i + 1 ensures EntryUsed(w2, pt, k) {
      if k < i { assert EntryUsed(w, pt, k) && EntryKept(w, w2, pt, k); }
    }
    forall k | start / SECTION <= k < i + 1 ensures EntryMade(w0, w2, pt, bits1, k) {
      if k < i { assert EntryMade(w0, w, pt, bits1, k) && EntryKept(w, w2, pt, k); }
    }
    forall k | i + 1 <= k < L1_ENTRIES ensures EntryKept(w0, w2, pt, k) {
      assert EntryKept(w0, w, pt, k) && EntryKept(w, w2, pt, k);
    }
  }

  lemma {:induction false} AheadEnd(s0: Slabs, w0: Words, s: Slabs, w: Words, pt: int, start: int, finish: int,
                                    entry: Server, bits1: int, i: int)
    requires Ahead(s0, w0, s, w, pt, start, finish, entry, bits1, i) && i > LastEntry(finish)
    requires i == start / SECTION || i == LastEntry(finish) + 1
    ensures Visited(w, pt, start, finish) && AllDescribed(w0, w, pt, start, finish, bits1)
    ensures Iterate(entry, s0, start / SECTION, LastEntry(finish) + 1) == Some(s)
    ensures Complete(w0, pt, start, finish) ==> w == w0 && s == s0
  {
    if i == LastEntry(finish) + 1 { ReachesIterate(entry, s0, start / SECTION, s, i, LastEntry(finish) + 1); }
    forall k | start / SECTION <= k <= LastEntry(finish) ensures TypeOf(L1Entry(w, pt, k)) != 0 {
      assert EntryUsed(w, pt, k);
    }
    forall k | start / SECTION <= k <= LastEntry(finish) ensures EntryMade(w0, w, pt, bits1, k) { }
  }

  /** An entry refused: so is the rest, and there was something to do. */
  lemma {:induction false} AheadFails(s0: Slabs, w0: Words, s: Slabs, w: Words, pt: int, start: int, finish: int,
                                      entry: Server, bits1: int, i: int)
    requires Ahead(s0, w0, s, w, pt, start, finish, entry, bits1, i)
    requires 0 <= start / SECTION <= i <= LastEntry(finish) && i < L1_ENTRIES
    requires entry(s, i).None?
    requires !(TypeOf(L1Entry(w, pt, i)) != 0 && TableComplete(w, pt, start, finish, i))
    ensures Iterate(entry, s0, start / SECTION, LastEntry(finish) + 1).None?
    ensures !Complete(w0, pt, start, finish)
  {
    ReachesIterate(entry, s0, start / SECTION, s, i, LastEntry(finish) + 1);
    if Complete(w0, pt, start, finish) { CompleteEntry(w0, pt, start, finish, i); }
  }

  lemma CompleteEntry(w: Words, pt: int, start: int, finish: int, i: int)
    requires Complete(w, pt, start, finish) && start / SECTION <= i <= LastEntry(finish) && 0 <= i < L1_ENTRIES
    ensures TypeOf(L1Entry(w, pt, i)) != 0 && TableComplete(w, pt, start, finish, i)
  {
  }

  /** Before the first page of the range nothing is to be done. */
  lemma {:induction false} ProgressStart(s: Slabs, w: Words, pt: int, start: int, finish: int, bits: int)
    requires Tables(s, w, pt) && 0 <= start < WORD_RANGE && 0 <= finish < WORD_RANGE
    ensures Progress(s, w, s, w, pt, start, finish, bits, map[], start / SECTION * L2_ENTRIES)
  {
  }

  /** After the last entry there is no more page of the range. */
  lemma {:induction false} ProgressEnd(s0: Slabs, w0: Words, s: Slabs, w: Words, pt: int, start: int, finish: int,
                                       bits: int, frames: map<int, int>, i: int)
    requires 0 <= start && 0 <= finish < WORD_RANGE && LastEntry(finish) < i <= L1_ENTRIES
    requires Progress(s0, w0, s, w, pt, start, finish, bits, frames, i * L2_ENTRIES)
    ensures Progress(s0, w0, s, w, pt, start, finish, bits, frames, PAGES)
  {
    assert forall n :: i * L2_ENTRIES <= n < PAGES ==> !InMap(n, start, finish);
  }

  /** MapEntry with what the outer loop keeps. */
  method EntryTurn(slb: Slb, pt: int, start: int, finish: int, bits1: int, bits: int, i: int,
                   ghost s0: Slabs, ghost w0: Words, ghost page: Server, ghost entry: Server,
                   ghost frames0: map<int, int>)
    returns (ok: bool, ghost frames: map<int, int>)
    requires slb.Valid() && TableBits(bits1) && PageBits(bits) && NoSections(w0, pt, start, finish)
    requires 0 <= start / SECTION <= i <= LastEntry(finish) && i < L1_ENTRIES
    requires Progress(s0, w0, slb.st, slb.space.ram.words, pt, start, finish, bits, frames0, i * L2_ENTRIES)
    requires Ahead(s0, w0, slb.st, slb.space.ram.words, pt, start, finish, entry, bits1, i)
    requires PageServes(page, w0, pt, start, finish) && EntryServes(entry, w0, pt, page)
    modifies slb, slb.space, slb.space.ram
    ensures ok ==>
      && slb.Valid()
      && Progress(s0, w0, slb.st, slb.space.ram.words, pt, start, finish, bits, frames, (i + 1) * L2_ENTRIES)
      && Ahead(s0, w0, slb.st, slb.space.ram.words, pt, start, finish, entry, bits1, i + 1)
    ensures !ok ==>
      && Iterate(entry, s0, start / SECTION, LastEntry(finish) + 1).None? && !Complete(w0, pt, start, finish)
  {
    ghost var s, w := slb.st, slb.space.ram.words;
    assert EntryKept(w0, w, pt, i);
    assert entry(s, i) == ServeEntry(s, w0, pt, page, i);
    ok, frames := MapEntry(slb, pt, start, finish, bits1, bits, i, s0, w0, page, frames0);
    if ok {
      AheadStep(s0, w0, s, w, slb.st, slb.space.ram.words, pt, start, finish, entry, bits1, i);
    } else {
      AheadFails(s0, w0, s, w, pt, start, finish, entry, bits1, i);
    }
  }

  /** The outer loop. */
  method MapEntries(slb: Slb, pt: int, start: int, finish: int, bits1: int, bits: int,
                    ghost s0: Slabs, ghost w0: Words, ghost page: Server, ghost entry: Server)
    returns (ok: bool, ghost frames: map<int, int>)
    requires slb.Valid() && slb.st == s0 && slb.space.ram.words == w0 && TableBits(bits1) && PageBits(bits)
    requires 0 <= start < WORD_RANGE && 0 <= finish < WORD_RANGE && NoSections(w0, pt, start, finish)
    requires Progress(s0, w0, s0, w0, pt, start, finish, bits, map[], start / SECTION * L2_ENTRIES)
    requires PageServes(page, w0, pt, start, finish) && EntryServes(entry, w0, pt, page)
    modifies slb, slb.space, slb.space.ram
    ensures ok <==> Iterate(entry, s0, start / SECTION, LastEntry(finish) + 1).Some?
    ensures ok ==> Iterate(entry, s0, start / SECTION, LastEntry(finish) + 1) == Some(slb.st)
    ensures ok ==>
      && slb.Valid() && Visited(slb.space.ram.words, pt, start, finish)
      && AllDescribed(w0, slb.space.ram.words, pt, start, finish, bits1)
      && Progress(s0, w0, slb.st, slb.space.ram.words, pt, start, finish, bits, frames, PAGES)
    ensures Complete(w0, pt, start, finish) ==> ok && slb.space.ram.words == w0 && slb.st == s0
  {
    frames := map[];
    var i := start / SECTION;
    ReachesSelf(entry, s0, i);
    while i <= LastEntry(finish)
      invariant start / SECTION <= i <= L1_ENTRIES && slb.Valid()
      invariant i == start / SECTION || i <= LastEntry(finish) + 1
      invariant Progress(s0, w0, slb.st, slb.space.ram.words, pt, start, finish, bits, frames, i * L2_ENTRIES)
      invariant Ahead(s0, w0, slb.st, slb.space.ram.words, pt, start, finish, entry, bits1, i)
    {
      ok, frames := EntryTurn(slb, pt, start, finish, bits1, bits, i, s0, w0, page, entry, frames);
      if !ok {
        return;
      }
      i := i + 1;
    }
    ProgressEnd(s0, w0, slb.st, slb.space.ram.words, pt, start, finish, bits, frames, i);
    AheadEnd(s0, w0, slb.st, slb.space.ram.words, pt, start, finish, entry, bits1, i);
    return true, frames;
  }

  /** mmap(pt, start, finish, pattern1, pattern2). False is the spin of pages_alloc. */
  method Mmap(slb: Slb, pt: int, start: int, finish: int, pattern1: int, pattern2: int)
    returns (ok: bool, ghost frames: map<int, int>)
    requires slb.Valid() && Tables(slb.st, slb.space.ram.words, pt) && TableBits(pattern1) && PageBits(pattern2)
    requires 0 <= start < WORD_RANGE && 0 <= finish < WORD_RANGE && NoSections(slb.space.ram.words, pt, start, finish)
    modifies slb, slb.space, slb.space.ram
    ensures
      var served := ServeMap(old(slb.st), old(slb.space.ram.words), pt, start, finish);
      (ok <==> served.Some?) && (ok ==> slb.st == served.value)
    ensures ok ==> slb.Valid()
    ensures ok ==>
      var s0, w0 := old(slb.st), old(slb.space.ram.words);
      Progress(s0, w0, slb.st, slb.space.ram.words, pt, start, finish, pattern2, frames, PAGES)
    ensures ok ==> Visited(slb.space.ram.words, pt, start, finish)
    ensures ok ==> AllDescribed(old(slb.space.ram.words), slb.space.ram.words, pt, start, finish, pattern1)
    ensures Complete(old(slb.space.ram.words), pt, start, finish) ==>
      ok && slb.space.ram.words == old(slb.space.ram.words) && slb.st == old(slb.st)
  {
    ghost var s0, w0 := slb.st, slb.space.ram.words;
    ghost var page, entry := Servers(w0, pt, start, finish);
    ProgressStart(s0, w0, pt, start, finish, pattern2);
    ok, frames := MapEntries(slb, pt, start, finish, pattern1, pattern2, s0, w0, page, entry);
  }

  // ---------- builder and walker agree ----------

  lemma LowPart(q: int, bits: int)
    requires 0 <= bits < PAGE
    ensures (PAGE * q + bits) % PAGE == bits && (PAGE * q + bits) % 4 == bits % 4
  {
    DivisionUnique(PAGE * q + bits, PAGE, q, bits);
    DivisionUnique(PAGE * q + bits, 4, 1024 * q + bits / 4, bits % 4);
  }

  lemma FrameBits(f: int, bits: int)
    requires KERNEL_BASE <= f < WORD_RANGE && f % PAGE == 0 && PageBits(bits)
    ensures FrameOf(V2P(f) + bits) == V2P(f) && TypeOf(V2P(f) + bits) != 0
  {
    var q := V2P(f) / PAGE;
    assert V2P(f) == PAGE * q;
    LowPart(q, bits);
  }

  /** After mmap every address of the range resolves through walk_v2p: a page that was not mapped
      to a zeroed frame that was free before, apart from all memory anyone held then and different
      from the frame of every other new page;
      a page that was mapped to the frame it had. */
  lemma {:induction false} MmapResolves(s0: Slabs, w0: Words, s: Slabs, w: Words, pt: int,
                                        start: int, finish: int, bits: int, frames: map<int, int>, va: int)
    requires Progress(s0, w0, s, w, pt, start, finish, bits, frames, PAGES) && Visited(w, pt, start, finish)
    requires NoSections(w0, pt, start, finish) && PageBits(bits)
    requires 0 <= va < WORD_RANGE && 0 <= start && finish < WORD_RANGE && InMap(va / PAGE, start, finish)
    ensures Mapped(w, pt, va / PAGE)
    ensures Mapped(w0, pt, va / PAGE) ==> WalkV2P(w, pt, va) == WalkV2P(w0, pt, va)
    ensures !Mapped(w0, pt, va / PAGE) ==>
      var n := va / PAGE;
      && n in frames && WalkV2P(w, pt, va) == V2P(frames[n]) && FrameFresh(s0, s, w, pt, frames[n])
      && (forall m :: m in frames && m != n ==> frames[m] != frames[n])
      && (forall b {:trigger Unowned(s0, b, PAGE)} :: Unowned(s0, b, PAGE) ==> Apart(frames[n], PAGE, b, PAGE))
  {
    var n := va / PAGE;
    var i := n / L2_ENTRIES;
    assert i == va / SECTION;
    assert start / SECTION <= i <= LastEntry(finish);
    assert TypeOf(L1Entry(w, pt, i)) != 0 && L1Done(s0, w0, w, pt, i);
    assert EntryDone(w0, w, pt, bits, frames, n);
    WalkerReadsEntry(w, pt, va);
    if Mapped(w0, pt, n) {
      WalkerReadsEntry(w0, pt, va);
    } else {
      assert Wanted(w0, pt, start, finish, n) && n in frames;
      assert FrameFresh(s0, s, w, pt, frames[n]);
      FrameBits(frames[n], bits);
      NewFrameApart(s0, w0, s, w, pt, start, finish, bits, frames, n);
    }
  }

  lemma {:induction false} NewFrameApart(s0: Slabs, w0: Words, s: Slabs, w: Words, pt: int,
                                         start: int, finish: int, bits: int, frames: map<int, int>, n: int)
    requires Progress(s0, w0, s, w, pt, start, finish, bits, frames, PAGES) && n in frames
    ensures forall m :: m in frames && m != n ==> frames[m] != frames[n]
    ensures forall b {:trigger Unowned(s0, b, PAGE)} :: Unowned(s0, b, PAGE) ==> Apart(frames[n], PAGE, b, PAGE)
  {
    assert FrameFresh(s0, s, w, pt, frames[n]);
    forall m | m in frames && m != n ensures frames[m] != frames[n] { assert FramesApart(frames, m, n); }
    forall b | Unowned(s0, b, PAGE) ensures Apart(frames[n], PAGE, b, PAGE) {
      OwnedApart(s0, b, PAGE, frames[n], PAGE);
    }
  }

  /** Addresses outside the range that were mapped through a table resolve as before, and no
      others get mapped. */
  lemma {:induction false} MmapElsewhere(s0: Slabs, w0: Words, s: Slabs, w: Words, pt: int,
                                         start: int, finish: int, bits: int, frames: map<int, int>, va: int)
    requires Progress(s0, w0, s, w, pt, start, finish, bits, frames, PAGES)
    requires 0 <= va < WORD_RANGE && !InMap(va / PAGE, start, finish) && TypeOf(L1Entry(w0, pt, va / SECTION)) <= 1
    ensures Mapped(w, pt, va / PAGE) <==> Mapped(w0, pt, va / PAGE)
    ensures Mapped(w0, pt, va / PAGE) ==> WalkV2P(w, pt, va) == WalkV2P(w0, pt, va)
  {
    var n := va / PAGE;
    assert n / L2_ENTRIES == va / SECTION;
    assert EntryDone(w0, w, pt, bits, frames, n) && L1Done(s0, w0, w, pt, va / SECTION) && n !in frames;
    if Mapped(w0, pt, n) {
      WalkerReadsEntry(w0, pt, va);
      WalkerReadsEntry(w, pt, va);
    }
  }

  /** What one mmap leaves is complete, so a second, identical one changes nothing. */
  lemma {:induction false} MmapTwice(s0: Slabs, w0: Words, s: Slabs, w: Words, pt: int,
                                     start: int, finish: int, bits: int, frames: map<int, int>)
    requires Progress(s0, w0, s, w, pt, start, finish, bits, frames, PAGES) && Visited(w, pt, start, finish)
    requires NoSections(w0, pt, start, finish) && PageBits(bits) && 0 <= start && finish < WORD_RANGE
    ensures Complete(w, pt, start, finish) && NoSections(w, pt, start, finish)
  {
    forall n | 0 <= n < PAGES && InMap(n, start, finish) ensures Mapped(w, pt, n) {
      assert n * PAGE / PAGE == n;
      MmapResolves(s0, w0, s, w, pt, start, finish, bits, frames, n * PAGE);
    }
    forall n | 0 <= n < PAGES && InMap(n, start, finish) ensures TypeOf(L1Entry(w, pt, n / L2_ENTRIES)) <= 1 {
      assert L1Done(s0, w0, w, pt, n / L2_ENTRIES);
    }
  }

  /** A first-level table fresh from the slab and cleared, as fork makes it, is an empty one. */
  lemma {:induction false} ClearedTable(s: Slabs, w: Words, a: int, pt: int)
    requires Inv(s) && Out(s, a, pt) && s.pools[a].osize == L1_BYTES && Zeroed(w, pt, L1_BYTES)
    ensures Tables(s, w, pt)
    ensures forall n :: 0 <= n < PAGES ==> !Mapped(w, pt, n)
  {
    forall x | InRange(x, pt, L1_BYTES) ensures !Owned(s, x) { OutNotOwned(s, a, pt, x); }
    forall i | 0 <= i < L1_ENTRIES ensures L1Entry(w, pt, i) == 0 {
      assert InRange(pt + 4 * i, pt, L1_BYTES) && (pt + 4 * i - pt) % 4 == 0;
    }
  }
}
