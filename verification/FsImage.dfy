/** The index image checkpoint_fs writes and load_fs reads, byte by byte addressed; a word is kept
    whole at the address of its first byte. All of it goes to the sectors at FS_BASE, past the data. */
module FsImage {
  import opened Basics
  import opened FsSpec
  import opened FsChains

  const IMAGE_BYTES := 0x10_0000                       // FS_DATA_SIZE
  const IMAGE_SECTORS := IMAGE_BYTES / SECTOR_BYTES
  const FS_SECTOR := FS_BASE / SECTOR_BYTES
  const COUNT := 4 + 4 * BLOCKS
  const ENTRIES := COUNT + 4
  const ENTRY_BYTES := 20                              // sizeof(fentry_stored_t)

  // ---------- layout ----------

  ghost predicate BlockSaved(image: seq<int>, db: seq<DataBlock>, k: int)
    requires 0 <= k < BLOCKS == |db| && |image| == IMAGE_BYTES
  {
    image[4 + 4 * k] == db[k].next
  }

  ghost predicate BlocksSaved(image: seq<int>, db: seq<DataBlock>, n: int)
    requires 0 <= n <= BLOCKS == |db| && |image| == IMAGE_BYTES
  {
    forall k :: 0 <= k < n ==> BlockSaved(image, db, k)
  }

  ghost predicate EntrySaved(image: seq<int>, fs: seq<File>, firsts: seq<int>, i: int)
    requires 0 <= i < |fs| == |firsts| && i < BLOCKS && |image| == IMAGE_BYTES
  {
    var e := ENTRIES + ENTRY_BYTES * i;
    && image[e] == fs[i].index && image[e + 4] == SECTOR_BYTES * firsts[i]
    && image[e + 8..e + 8 + NAME_BYTES] == fs[i].name
  }

  ghost predicate EntriesSaved(image: seq<int>, fs: seq<File>, firsts: seq<int>, n: int)
    requires 0 <= n <= |fs| == |firsts| && n <= BLOCKS && |image| == IMAGE_BYTES
  {
    forall i :: 0 <= i < n ==> EntrySaved(image, fs, firsts, i)
  }

  ghost predicate ImageOf(image: seq<int>, freeHead: int, db: seq<DataBlock>, firsts: seq<int>, fs: seq<File>) {
    && |image| == IMAGE_BYTES && |db| == BLOCKS && |fs| == |firsts| <= BLOCKS
    && image[0] == freeHead && image[COUNT] == |fs|
    && BlocksSaved(image, db, BLOCKS) && EntriesSaved(image, fs, firsts, |fs|)
  }

  /** The image lies on the disk. */
  ghost predicate OnDisk(disk: Disk, image: seq<int>, n: int)
    requires |image| == IMAGE_BYTES && 0 <= n <= IMAGE_SECTORS
  {
    forall k :: 0 <= k < n ==> SectorOf(disk, image, k)
  }

  ghost predicate SectorOf(disk: Disk, image: seq<int>, k: int)
    requires |image| == IMAGE_BYTES && 0 <= k < IMAGE_SECTORS
  {
    Sector(disk, FS_SECTOR + k) == image[SECTOR_BYTES * k..SECTOR_BYTES * k + SECTOR_BYTES]
  }

  ghost predicate InOrder(db: seq<DataBlock>) {
    |db| == BLOCKS && forall k {:trigger db[k]} :: 0 <= k < BLOCKS ==> db[k].ondisk == STORAGE_BASE + SECTOR_BYTES * k
  }

  /** No file is empty: what checkpoint_fs needs, as it follows every file's first block. */
  ghost predicate NoneEmpty(fs: seq<File>) {
    forall i :: 0 <= i < |fs| ==> fs[i].chain != []
  }

  ghost predicate Named(fs: seq<File>) {
    forall i :: 0 <= i < |fs| ==> |fs[i].name| == NAME_BYTES
  }

  /** A good state whose image is on the disk. */
  ghost predicate Saved(disk: Disk, st: FsState) {
    && Good(st) && NoneEmpty(st.files) && Named(st.files)
    && exists image, freeHead, db, firsts ::
      SavedAs(disk, st, image, freeHead, db, firsts)
  }

  ghost predicate SavedAs(disk: Disk, st: FsState, image: seq<int>, freeHead: int, db: seq<DataBlock>,
                          firsts: seq<int>) {
    && ImageOf(image, freeHead, db, firsts, st.files) && InOrder(db) && Linked(db, freeHead, firsts, st)
    && OnDisk(disk, image, IMAGE_SECTORS)
  }

  /** Every file closed. */
  function Closed(st: FsState): FsState {
    st.(files := seq(|st.files|, i requires 0 <= i < |st.files| => st.files[i].(occupied := -1)))
  }

  lemma {:induction false} FlattenChains(fs: seq<File>, gs: seq<File>)
    requires |fs| == |gs| && forall i :: 0 <= i < |fs| ==> fs[i].chain == gs[i].chain
    ensures Flatten(fs) == Flatten(gs)
  {
    if fs == [] {
    } else {
      assert forall i :: 0 <= i < |fs| - 1 ==> fs[1..][i] == fs[i + 1] && gs[1..][i] == gs[i + 1];
      FlattenChains(fs[1..], gs[1..]);
    }
  }

  lemma ClosedGood(st: FsState)
    requires Good(st)
    ensures Good(Closed(st))
  {
    FlattenChains(st.files, Closed(st).files);
    assert AllBlocks(Closed(st)) == AllBlocks(st);
    forall b ensures AllBlocks(Closed(st))[b] <= InTableOnce(b) { AtMostOnce(st, b); }
  }

  lemma ClosedLinked(db: seq<DataBlock>, freeHead: int, firsts: seq<int>, st: FsState)
    requires Linked(db, freeHead, firsts, st)
    ensures Linked(db, freeHead, firsts, Closed(st))
  {
    forall i | 0 <= i < |firsts| ensures ChainAt(db, firsts, Closed(st).files, i) {
      assert ChainAt(db, firsts, st.files, i);
    }
  }

  /** A chain is determined by the links and where it starts. */
  lemma {:induction false} SameChain(db: seq<DataBlock>, head: int, s: seq<int>, t: seq<int>)
    requires Chain(db, head, s) && Chain(db, head, t) && InTable(s) && InTable(t)
    ensures s == t
    decreases |s|
  {
    assert s != [] ==> LinkedAt(db, s, 0);
    assert t != [] ==> LinkedAt(db, t, 0);
    if s != [] && t != [] {
      ChainTail(db, head, s);
      ChainTail(db, head, t);
      SameChain(db, db[head].next, s[1..], t[1..]);
    }
  }

  lemma ChainTail(db: seq<DataBlock>, head: int, s: seq<int>)
    requires Chain(db, head, s) && s != []
    ensures 0 <= head < |db| && Chain(db, db[head].next, s[1..])
  {
    assert LinkedAt(db, s, 0);
    forall k | 0 <= k < |s[1..]| ensures LinkedAt(db, s[1..], k) { assert LinkedAt(db, s, k + 1); }
  }

  lemma SameFile(db: seq<DataBlock>, image: seq<int>, s: FsState, t: FsState, fs: seq<int>, gs: seq<int>, ha: int,
                 hb: int, i: nat)
    requires |image| == IMAGE_BYTES && |db| == BLOCKS && i < |s.files| == |t.files| == |fs| == |gs| && i < BLOCKS
    requires EntrySaved(image, s.files, fs, i) && EntrySaved(image, t.files, gs, i)
    requires Linked(db, ha, fs, s) && Linked(db, hb, gs, t) && Good(s) && Good(t)
    ensures s.files[i].(occupied := -1) == t.files[i].(occupied := -1)
  {
    assert ChainAt(db, fs, s.files, i) && ChainAt(db, gs, t.files, i);
    GoodChain(s, i);
    GoodChain(t, i);
    SameChain(db, fs[i], s.files[i].chain, t.files[i].chain);
  }

  /** The image loses nothing but who has a file open: two states saved as one image are the same
      up to that. */
  lemma ImageFaithful(disk: Disk, image: seq<int>, s: FsState, t: FsState, ha: int, hb: int,
                      da: seq<DataBlock>, db: seq<DataBlock>, fs: seq<int>, gs: seq<int>)
    requires SavedAs(disk, s, image, ha, da, fs) && SavedAs(disk, t, image, hb, db, gs) && Good(s) && Good(t)
    ensures Closed(s) == Closed(t)
  {
    forall k | 0 <= k < BLOCKS ensures da[k] == db[k] {
      assert BlockSaved(image, da, k) && BlockSaved(image, db, k);
      assert da[k] == DataBlock(da[k].next, da[k].ondisk) && db[k] == DataBlock(db[k].next, db[k].ondisk);
    }
    assert da == db;
    GoodFree(s);
    GoodFree(t);
    SameChain(db, ha, s.free, t.free);
    forall i | 0 <= i < |s.files| ensures Closed(s).files[i] == Closed(t).files[i] {
      assert EntrySaved(image, s.files, fs, i) && EntrySaved(image, t.files, gs, i);
      SameFile(db, image, s, t, fs, gs, ha, hb, i);
    }
  }

  /** The two disks agree outside the image. */
  ghost predicate SameData(a: Disk, b: Disk) {
    forall s {:trigger Sector(b, s)} :: !(FS_SECTOR <= s < FS_SECTOR + IMAGE_SECTORS) ==> Sector(b, s) == Sector(a, s)
  }

  /** So every file reads the same: the blocks of the table lie below the image. */
  lemma DataKept(a: Disk, b: Disk, st: FsState, i: nat)
    requires SameData(a, b) && Good(st) && i < |st.files|
    ensures Content(b, st.files[i].chain) == Content(a, st.files[i].chain)
  {
    GoodChain(st, i);
  }

  // ---------- filling and reading the buffer ----------

  /** The link loop of checkpoint_fs. */
  method SaveBlocks(image: array<int>, dbTable: array<DataBlock>)
    requires image.Length == IMAGE_BYTES && dbTable.Length == BLOCKS
    modifies image
    ensures image[0] == old(image[0]) && BlocksSaved(image[..], dbTable[..], BLOCKS)
  {
    var i := 0;
    while i < BLOCKS
      invariant 0 <= i <= BLOCKS && image[0] == old(image[0])
      invariant BlocksSaved(image[..], dbTable[..], i)
    {
      ghost var was := image[..];
      image[4 + 4 * i] := if dbTable[i].next == NIL then -1 else dbTable[i].next;
      forall k | 0 <= k <= i ensures BlockSaved(image[..], dbTable[..], k) {
        assert k < i ==> BlockSaved(was, dbTable[..], k);
      }
      i := i + 1;
    }
  }

  /** One record of the file table. */
  method SaveEntry(image: array<int>, i: nat, index: int, addr: int, name: seq<int>)
    requires image.Length == IMAGE_BYTES && i < BLOCKS && |name| == NAME_BYTES
    modifies image
    ensures var e := ENTRIES + ENTRY_BYTES * i;
      image[e] == index && image[e + 4] == addr && image[e + 8..e + 8 + NAME_BYTES] == name
    ensures forall p :: 0 <= p < IMAGE_BYTES && !(0 <= p - (ENTRIES + ENTRY_BYTES * i) < ENTRY_BYTES) ==>
      image[p] == old(image[p])
  {
    var e := ENTRIES + ENTRY_BYTES * i;
    image[e] := index;
    image[e + 4] := addr;
    for j := 0 to NAME_BYTES
      invariant image[e] == index && image[e + 4] == addr
      invariant forall k :: 0 <= k < j ==> image[e + 8 + k] == name[k]
      invariant forall p :: 0 <= p < IMAGE_BYTES && !(0 <= p - e < ENTRY_BYTES) ==> image[p] == old(image[p])
    {
      image[e + 8 + j] := name[j];
    }
  }

  /** The next record leaves the rest of the image as it was. */
  lemma EntriesKept(was: seq<int>, now: seq<int>, db: seq<DataBlock>, fs: seq<File>, firsts: seq<int>, n: nat)
    requires |was| == |now| == IMAGE_BYTES && n < |fs| == |firsts| && n < BLOCKS == |db|
    requires BlocksSaved(was, db, BLOCKS) && EntriesSaved(was, fs, firsts, n)
    requires forall p :: 0 <= p < IMAGE_BYTES && !(0 <= p - (ENTRIES + ENTRY_BYTES * n) < ENTRY_BYTES) ==>
      now[p] == was[p]
    requires EntrySaved(now, fs, firsts, n)
    ensures BlocksSaved(now, db, BLOCKS) && EntriesSaved(now, fs, firsts, n + 1)
    ensures now[0] == was[0] && now[COUNT] == was[COUNT]
  {
    forall k | 0 <= k < BLOCKS ensures BlockSaved(now, db, k) { assert BlockSaved(was, db, k); }
    forall i | 0 <= i < n ensures EntrySaved(now, fs, firsts, i) {
      assert EntrySaved(was, fs, firsts, i);
      var e := ENTRIES + ENTRY_BYTES * i;
      assert now[e + 8..e + 8 + NAME_BYTES] == was[e + 8..e + 8 + NAME_BYTES];
    }
  }

  /** The table load_fs makes: links from the image, addresses by position. */
  method LoadBlocks(image: array<int>, ghost db: seq<DataBlock>) returns (dbTable: array<DataBlock>)
    requires image.Length == IMAGE_BYTES && InOrder(db) && BlocksSaved(image[..], db, BLOCKS)
    ensures fresh(dbTable) && dbTable[..] == db
  {
    dbTable := new DataBlock[BLOCKS](_ => DataBlock(NIL, 0));
    var i := 0;
    while i < BLOCKS
      invariant 0 <= i <= BLOCKS && dbTable[..i] == db[..i]
      invariant fresh(dbTable)
      modifies dbTable
    {
      assert BlockSaved(image[..], db, i);
      var next := if image[4 + 4 * i] == -1 then NIL else image[4 + 4 * i];
      dbTable[i] := DataBlock(next, STORAGE_BASE + SECTOR_BYTES * i);
      assert db[i] == DataBlock(db[i].next, db[i].ondisk);
      i := i + 1;
    }
    assert dbTable[..BLOCKS] == dbTable[..] && db[..BLOCKS] == db;
  }

  method LoadName(image: array<int>, e: nat) returns (name: seq<int>)
    requires e + 8 + NAME_BYTES <= image.Length
    ensures name == image[e + 8..e + 8 + NAME_BYTES]
  {
    name := [];
    for j := 0 to NAME_BYTES
      invariant name == image[e + 8..e + 8 + j]
    {
      name := name + [image[e + 8 + j]];
    }
  }

  // ---------- transfer ----------

  /** The transfer of checkpoint_fs: 2048 sectors, less than the 32768 one command moves. */
  method DmaWrite(disk: Disk, image: array<int>) returns (out: Disk)
    requires image.Length == IMAGE_BYTES
    ensures OnDisk(out, image[..], IMAGE_SECTORS)
    ensures SameData(disk, out)
  {
    out := disk;
    var k := 0;
    while k < IMAGE_SECTORS
      invariant 0 <= k <= IMAGE_SECTORS && OnDisk(out, image[..], k)
      invariant SameData(disk, out)
    {
      ghost var was := out;
      out := out[FS_SECTOR + k := image[SECTOR_BYTES * k..SECTOR_BYTES * k + SECTOR_BYTES]];
      forall i | 0 <= i <= k ensures SectorOf(out, image[..], i) {
        assert i < k ==> SectorOf(was, image[..], i);
      }
      forall s | !(FS_SECTOR <= s < FS_SECTOR + IMAGE_SECTORS) ensures Sector(out, s) == Sector(disk, s) {
        assert Sector(was, s) == Sector(disk, s);
      }
      k := k + 1;
    }
  }

  method DmaRead(disk: Disk, image: array<int>, ghost saved: seq<int>)
    requires image.Length == IMAGE_BYTES == |saved| && OnDisk(disk, saved, IMAGE_SECTORS)
    modifies image
    ensures image[..] == saved
  {
    var k := 0;
    while k < IMAGE_SECTORS
      invariant 0 <= k <= IMAGE_SECTORS
      invariant image[..SECTOR_BYTES * k] == saved[..SECTOR_BYTES * k]
    {
      var s := Sector(disk, FS_SECTOR + k);
      assert SectorOf(disk, saved, k);
      var b := SECTOR_BYTES * k;
      ghost var was := image[..b];
      forall j | 0 <= j < SECTOR_BYTES {
        image[b + j] := s[j];
      }
      assert image[..b] == was;
      assert image[b..b + SECTOR_BYTES] == s;
      assert image[..b + SECTOR_BYTES] == image[..b] + image[b..b + SECTOR_BYTES];
      assert saved[..b + SECTOR_BYTES] == saved[..b] + saved[b..b + SECTOR_BYTES];
      k := k + 1;
    }
    assert image[..IMAGE_BYTES] == image[..] && saved[..IMAGE_BYTES] == saved;
  }
}
