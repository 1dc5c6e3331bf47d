/** kern/fs/fs_manage.c as it runs: a block table with links, a linked list of file entries and a
    disk, proved to do what FsSpec says. */
module Fs {
  import opened Basics
  import opened FsSpec
  import opened FsChains
  import opened FsImage

  class FEntry {
    var index: int
    var name: seq<int>
    var firstBlock: int
    var next: FEntry?
    var occupied: int

    constructor (index: int, name: seq<int>, firstBlock: int, next: FEntry?, occupied: int)
      ensures this.index == index && this.name == name && this.firstBlock == firstBlock
      ensures this.next == next && this.occupied == occupied
    {
      this.index, this.name, this.firstBlock, this.next, this.occupied := index, name, firstBlock, next, occupied;
    }
  }

  function EntryPtr(es: seq<FEntry>, i: nat): FEntry? {
    if i < |es| then es[i] else null
  }

  lemma UsedFd(fs: seq<File>, fd: int)
    ensures Find(fs, fd) < |fs| <==> fd in Indices(fs)
  {
    if fd in Indices(fs) {
      var f :| f in fs && f.index == fd;
      var i :| 0 <= i < |fs| && fs[i] == f;
      assert Find(fs, fd) <= i;
    }
    if Find(fs, fd) < |fs| { assert fs[Find(fs, fd)] in fs; }
  }

  class FileSystem {
    var dbTable: array<DataBlock>
    var freeHead: int
    var fentryHead: FEntry?
    var disk: Disk
    /** The abstract state, and what it is stored in: entry objects, their first blocks, the table. */
    ghost var view: FsState
    ghost var entries: seq<FEntry>
    ghost var firsts: seq<int>
    ghost var db: seq<DataBlock>

    /** Entry i holds the record of file i. */
    ghost predicate Holds(i: int)
      requires 0 <= i < |entries| == |view.files| == |firsts|
      reads this`entries, this`view, this`firsts, entries
    {
      var e, f := entries[i], view.files[i];
      && e.index == f.index && e.name == f.name && |f.name| == NAME_BYTES && e.occupied == f.occupied
        && e.firstBlock == firsts[i]
      && e.next == EntryPtr(entries, i + 1)
    }

    ghost predicate Listed()
      reads this`entries, this`view, this`firsts, this`fentryHead, entries
    {
      && |entries| == |view.files| == |firsts|
      && fentryHead == EntryPtr(entries, 0)
      && (forall i {:trigger Holds(i)} :: 0 <= i < |entries| ==> Holds(i))
      && (forall i, j :: 0 <= i < j < |entries| ==> entries[i] != entries[j])
    }

    ghost predicate Valid()
      reads this`entries, this`view, this`firsts, this`fentryHead, this`freeHead, this`db, this`dbTable
      reads entries, dbTable
    {
      && Listed() && db == dbTable[..] && InOrder(db)
      && Linked(db, freeHead, firsts, view)
      && Good(view)
    }

    // ---------- open, close ----------

    /** The search all operations start with. */
    method FindEntry(index: int) returns (x: FEntry?)
      requires Listed()
      ensures x == EntryPtr(entries, Find(view.files, index))
    {
      x := fentryHead;
      ghost var i: int := 0;
      while x != null
        invariant 0 <= i <= |entries| && x == EntryPtr(entries, i)
        invariant forall j :: 0 <= j < i ==> view.files[j].index != index
        decreases |entries| - i
      {
        assert Holds(i);
        if x.index == index {
          break;
        }
        x := x.next;
        i := i + 1;
      }
      assert Find(view.files, index) == i;
    }

    /** Marks entry i; nothing else of the state changes. */
    method Mark(x: FEntry, mark: int, ghost i: nat)
      requires Valid() && i < |entries| && x == entries[i]
      modifies this`view, x`occupied
      ensures Valid()
      ensures view == old(view).(files := old(view).files[i := old(view).files[i].(occupied := mark)])
    {
      MarkLinked(db, freeHead, firsts, view, i, mark);
      x.occupied := mark;
      view := view.(files := view.files[i := view.files[i].(occupied := mark)]);
      forall j | 0 <= j < |entries| ensures Holds(j) { assert old(Holds(j)); }
    }

    method OpenFile(pid: int, index: int) returns (code: int)
      requires Valid()
      modifies this`view, entries
      ensures Valid() && (view, code) == SetOccupied(old(view), pid, index, pid)
    {
      var x := FindEntry(index);
      if x == null {
        return -1;
      }
      assert Holds(Find(view.files, index));
      if x.occupied != -1 && x.occupied != pid {
        return -2;
      }
      Mark(x, pid, Find(view.files, index));
      return 0;
    }

    method CloseFile(pid: int, index: int) returns (code: int)
      requires Valid()
      modifies this`view, entries
      ensures Valid() && (view, code) == SetOccupied(old(view), pid, index, -1)
    {
      var x := FindEntry(index);
      if x == null {
        return -1;
      }
      assert Holds(Find(view.files, index));
      if x.occupied != -1 && x.occupied != pid {
        return -2;
      }
      Mark(x, -1, Find(view.files, index));
      return 0;
    }

    // ---------- blocks ----------

    method SetNext(b: int, v: int)
      requires InOrder(db) && db == dbTable[..] && 0 <= b < BLOCKS
      modifies this`db, dbTable
      ensures InOrder(db) && db == dbTable[..] && db == old(db)[b := old(db)[b].(next := v)]
    {
      dbTable[b] := dbTable[b].(next := v);
      db := db[b := db[b].(next := v)];
    }

    /** The walk of data_alloc: the n-th free block and its successor, if there are n. */
    method WalkFree(n: int) returns (x: int, px: int, ok: bool)
      requires InOrder(db) && db == dbTable[..] && Chain(db, freeHead, view.free) && InTable(view.free) && n > 0
      ensures ok == (n <= |view.free|)
      ensures ok ==> x == NextOf(view.free, n) && px == view.free[n - 1]
    {
      x, px := freeHead, NIL;
      var i := 0;
      while i < n
        invariant 0 <= i <= n && i <= |view.free|
        invariant x == NextOf(view.free, i)
        invariant px == if i == 0 then NIL else view.free[i - 1]
      {
        if x == NIL {
          return x, px, false;
        }
        assert LinkedAt(db, view.free, i);
        px := x;
        x := dbTable[x].next;
        i := i + 1;
      }
      return x, px, true;
    }

    /** data_alloc: the first n blocks of the free chain, cut off, or nothing at all. */
    method DataAlloc(n: int) returns (p: int)
      requires Valid()
      modifies this`freeHead, this`view, this`db, dbTable
      ensures Valid() && view.files == old(view).files
      ensures match Take(old(view).free, n)
        case None => p == NIL && view == old(view) && db == old(db)
        case Some(blocks) => p != NIL && view.free == old(view).free[n..] && Chain(db, p, blocks)
    {
      if n <= 0 {
        return NIL;
      }
      GoodFree(view);
      var x, px, ok := WalkFree(n);
      if !ok {
        return NIL;
      }
      CutLinked(db, freeHead, firsts, view, n);
      ShrinkGood(view, n);
      forall j | 0 <= j < |entries| ensures Holds(j) { }
      SetNext(px, NIL);
      p := freeHead;
      freeHead := x;
      view := view.(free := view.free[n..]);
      forall j | 0 <= j < |entries| ensures Holds(j) { assert old(Holds(j)); }
    }

    // ---------- append ----------

    /** The walk to the end of a chain. */
    method LastBlock(first: int, ghost c: seq<int>) returns (pt: int)
      requires InOrder(db) && db == dbTable[..] && Chain(db, first, c) && InTable(c) && first != NIL
      ensures c != [] && pt == c[|c| - 1]
    {
      pt := first;
      ghost var k: int := 0;
      assert LinkedAt(db, c, 0);
      while dbTable[pt].next != NIL
        invariant 0 <= k < |c| && pt == c[k] && 0 <= pt < BLOCKS
        decreases |c| - k
      {
        assert LinkedAt(db, c, k);
        pt := dbTable[pt].next;
        k := k + 1;
        assert LinkedAt(db, c, k);
      }
      assert LinkedAt(db, c, k);
      assert |c| <= k + 1;
    }

    /** Chains loose blocks to the end of file i. */
    method LinkBlocks(x: FEntry, ghost i: nat, p: int, ghost blocks: seq<int>)
      requires Valid() && i < |entries| && x == entries[i]
      requires blocks != [] && Chain(db, p, blocks) && Loose(view, blocks) && Good(WithBlocks(view, i, blocks))
      modifies this`view, this`firsts, this`db, x`firstBlock, dbTable
      ensures Valid() && Chain(db, p, blocks) && view == WithBlocks(old(view), i, blocks)
    {
      GoodChain(view, i);
      ghost var c := view.files[i].chain;
      assert ChainAt(db, firsts, view.files, i) && Holds(i);
      if x.firstBlock != NIL {
        var pt := LastBlock(x.firstBlock, c);
        JoinLinked(db, freeHead, firsts, view, i, p, blocks);
        SetNext(pt, p);
      } else {
        FirstLinked(db, freeHead, firsts, view, i, p, blocks);
        x.firstBlock := p;
        firsts := firsts[i := p];
      }
      view := WithBlocks(view, i, blocks);
      forall j | 0 <= j < |entries| ensures Holds(j) { assert old(Holds(j)); }
    }

    /** The write loop of append_file: a sector per block of the chain. */
    method WriteBlocks(first: int, ghost blocks: seq<int>, data: seq<seq<int>>, size: int)
      requires InOrder(db) && db == dbTable[..] && Chain(db, first, blocks) && |blocks| == size <= |data|
      modifies this`disk
      ensures disk == Written(old(disk), blocks, data)
    {
      var p := first;
      var i := 0;
      assert blocks[..0] == [];
      while i < size
        invariant 0 <= i <= size && p == NextOf(blocks, i)
        invariant disk == Written(old(disk), blocks[..i], data)
      {
        assert LinkedAt(db, blocks, i) && db[p].ondisk == STORAGE_BASE + SECTOR_BYTES * p;
        assert blocks[..i + 1][..i] == blocks[..i];
        disk := disk[dbTable[p].ondisk / SECTOR_BYTES := data[i]];
        p := dbTable[p].next;
        i := i + 1;
      }
      assert blocks[..size] == blocks;
    }

    /** append_file after its blocks have been taken from state st. */
    method AppendTaken(p: int, pid: int, index: int, data: seq<seq<int>>, size: int, ghost st: FsState)
      returns (code: int)
      requires Valid() && Good(st) && 0 < size <= |st.free| && size <= |data|
      requires view == st.(free := st.free[size..]) && Chain(db, p, st.free[..size])
      modifies this`view, this`firsts, this`db, this`disk, dbTable, entries
      ensures Valid() && (view, code) == Append(st, pid, index, size)
      ensures disk == if code == 0 then Written(old(disk), st.free[..size], data) else old(disk)
    {
      AppendAfterTake(st, pid, index, size);
      var x := FindEntry(index);
      if x == null {
        return -2;
      }
      ghost var i := Find(st.files, index);
      assert Holds(i);
      if x.occupied != -1 && x.occupied != pid {
        return -3;
      }
      LinkBlocks(x, i, p, st.free[..size]);
      WriteBlocks(p, st.free[..size], data, size);
      return 0;
    }

    /** append_file. */
    method AppendFile(pid: int, index: int, data: seq<seq<int>>, size: int) returns (code: int)
      requires Valid() && size <= |data|
      modifies this`freeHead, this`view, this`firsts, this`db, this`disk, dbTable, entries
      ensures Valid() && (view, code) == Append(old(view), pid, index, size)
      ensures disk ==
        if code == 0 && 0 <= size <= |old(view).free| then Written(old(disk), old(view).free[..size], data)
                      else old(disk)
    {
      ghost var st := view;
      var p := DataAlloc(size);
      if p == NIL {
        return -1;
      }
      code := AppendTaken(p, pid, index, data, size, st);
    }

    // ---------- read ----------

    /** seek_datablock: the block at pos, null at the end, or if the file is missing or in use. */
    method SeekDatablock(pid: int, index: int, pos: nat) returns (p: int, ghost c: seq<int>)
      requires Valid()
      requires var i := Find(view.files, index); i < |view.files| && MayUse(view.files[i], pid) ==>
        pos <= |view.files[i].chain|
      ensures var i := Find(view.files, index);
        && p == (if i < |view.files| && MayUse(view.files[i], pid) then NextOf(view.files[i].chain, pos) else NIL)
        && c == if i < |view.files| && MayUse(view.files[i], pid) then view.files[i].chain[pos..] else []
      ensures Chain(db, p, c) && InTable(c)
    {
      var x := FindEntry(index);
      if x == null {
        return NIL, [];
      }
      ghost var k := Find(view.files, index);
      assert Holds(k) && ChainAt(db, firsts, view.files, k);
      if x.occupied != -1 && x.occupied != pid {
        return NIL, [];
      }
      GoodChain(view, k);
      ghost var chain := view.files[k].chain;
      var i := 0;
      p := x.firstBlock;
      while i < pos
        invariant 0 <= i <= pos <= |chain| && p == NextOf(chain, i)
      {
        assert LinkedAt(db, chain, i);
        p := dbTable[p].next;
        i := i + 1;
      }
      c := chain[pos..];
      forall j | 0 <= j < |c| ensures LinkedAt(db, c, j) { assert LinkedAt(db, chain, pos + j); }
    }

    /** The read loop of read_datablock: up to size blocks of a chain. */
    method ReadBlocks(first: int, ghost c: seq<int>, size: nat) returns (data: seq<seq<int>>)
      requires InOrder(db) && db == dbTable[..] && Chain(db, first, c)
      ensures data == Content(disk, c)[..if size < |c| then size else |c|]
    {
      var p := first;
      data := [];
      var i := 0;
      while i < size
        invariant 0 <= i <= size && i <= |c| && p == NextOf(c, i)
        invariant data == Content(disk, c)[..i]
      {
        assert i < |c| ==> LinkedAt(db, c, i);
        if p == NIL {
          break;
        }
        assert db[p].ondisk == STORAGE_BASE + SECTOR_BYTES * p;
        data := data + [Sector(disk, dbTable[p].ondisk / SECTOR_BYTES)];
        p := dbTable[p].next;
        i := i + 1;
      }
    }

    /** read_datablock: up to size blocks from pos on. */
    method ReadDatablock(pid: int, index: int, pos: nat, size: nat) returns (data: seq<seq<int>>)
      requires Valid()
      requires var i := Find(view.files, index); i < |view.files| && MayUse(view.files[i], pid) ==>
        pos <= |view.files[i].chain|
      ensures data == ReadResult(view, disk, pid, index, pos, size)
    {
      var p;
      ghost var c;
      p, c := SeekDatablock(pid, index, pos);
      data := ReadBlocks(p, c, size);
      ReadFromSeek(view, disk, pid, index, pos, size);
    }

    // ---------- create ----------

    /** The code shared by the two ways to create a file: a new entry at the head of the list. */
    method NewEntry(index: int, name: seq<int>)
      requires Valid() && |name| == NAME_BYTES
      modifies this`view, this`entries, this`firsts, this`fentryHead
      ensures Valid() && view == Create(old(view), index, name)
    {
      var p := new FEntry(index, name, NIL, fentryHead, -1);
      CreateBlocks(view, index, name);
      ghost var st, es := view, entries;
      assert forall b :: AllBlocks(Create(st, index, name))[b] == AllBlocks(st)[b];
      forall j | 0 <= j < |es| ensures es[j] != p { assert Holds(j); }
      fentryHead := p;
      entries := [p] + entries;
      firsts := [NIL] + firsts;
      view := Create(view, index, name);
      forall j | 0 <= j < |entries| ensures Holds(j) {
        assert j > 0 ==> old(Holds(j - 1));
      }
      forall j | 0 <= j < |entries| ensures ChainAt(db, firsts, view.files, j) {
        assert j > 0 ==> ChainAt(db, old(firsts), st.files, j - 1);
      }
    }

    /** create_file: the name bytes stay what they were in memory. */
    method CreateFile(index: int, garbage: seq<int>) returns (code: int)
      requires Valid() && |garbage| == NAME_BYTES
      modifies this`view, this`entries, this`firsts, this`fentryHead
      ensures code == 0 && Valid() && view == Create(old(view), index, garbage)
    {
      NewEntry(index, garbage);
      return 0;
    }

    method FnameToFd(name: seq<int>, n: nat) returns (fd: int)
      requires Valid() && n <= |name|
      ensures fd == if n >= NAME_BYTES then -1 else NameToFd(view.files, name, n)
    {
      if n >= NAME_BYTES {
        return -1;
      }
      var x := fentryHead;
      ghost var i: int := 0;
      while x != null
        invariant 0 <= i <= |entries| && x == EntryPtr(entries, i)
        invariant NameToFd(view.files, name, n) == NameToFd(view.files[i..], name, n)
        decreases |entries| - i
      {
        assert Holds(i);
        assert view.files[i..][0] == view.files[i] && view.files[i..][1..] == view.files[i + 1..];
        var same := SameBytes(x.name, name, n);
        if same && x.name[n] == 0 {
          return x.index;
        }
        x := x.next;
        i := i + 1;
      }
      return -1;
    }

    /** The byte loop of fname_to_fd. */
    static method SameBytes(a: seq<int>, b: seq<int>, n: nat) returns (valid: bool)
      requires n <= |a| && n <= |b|
      ensures valid == (a[..n] == b[..n])
    {
      for j := 0 to n
        invariant a[..j] == b[..j]
      {
        if a[j] != b[j] {
          assert a[..n][j] != b[..n][j];
          return false;
        }
      }
      return true;
    }

    /** create_file_from_name: the least descriptor not in use, found in at most one round more
        than there are files. */
    method CreateFileFromName(name: seq<int>, n: nat, garbage: seq<int>) returns (r: int)
      requires Valid() && n <= |name| && |garbage| == NAME_BYTES
      modifies this`view, this`entries, this`firsts, this`fentryHead
      ensures Valid()
      ensures n >= NAME_BYTES ==> r == -1 && view == old(view)
      ensures n < NAME_BYTES && NameToFd(old(view).files, name, n) == 0 ==> r == -2 && view == old(view)
      ensures n < NAME_BYTES && NameToFd(old(view).files, name, n) != 0 ==>
        r == NextFd(old(view).files, 1) && view == Create(old(view), r, ClearedName(n, garbage))
    {
      if n >= NAME_BYTES {
        return -1;
      }
      var found := FnameToFd(name, n);
      if found == 0 {
        return -2;
      }
      var fd := 1;
      while true
        invariant Valid() && view == old(view) && entries == old(entries)
        invariant 1 <= fd && UpTo(fd - 1) <= Indices(view.files)
        invariant NextFd(view.files, 1) == NextFd(view.files, fd)
        decreases |view.files| + 1 - fd
      {
        Pigeonhole(view.files, fd - 1);
        var x := FindEntry(fd);
        UsedFd(view.files, fd);
        if x == null {
          break;
        }
        fd := fd + 1;
      }
      NewEntry(fd, ClearedName(n, garbage));
      return fd;
    }

    // ---------- build ----------

    /** build_fs: one chain of all blocks and no file. The disk is left alone. */
    constructor BuildFs(disk: Disk)
      ensures Valid() && view == Built() && this.disk == disk
    {
      var table := new DataBlock[BLOCKS](_ => DataBlock(NIL, 0));
      var i := 0;
      while i < BLOCKS
        invariant 0 <= i <= BLOCKS
        invariant forall k :: 0 <= k < i ==>
          table[k] == DataBlock(if k + 1 == BLOCKS then NIL else k + 1, STORAGE_BASE + SECTOR_BYTES * k)
      {
        table[i] := DataBlock(i + 1, STORAGE_BASE + SECTOR_BYTES * i);
        if i + 1 == BLOCKS {
          table[i] := table[i].(next := NIL);
        }
        i := i + 1;
      }
      dbTable, freeHead, fentryHead := table, 0, null;
      this.disk := disk;
      view, entries, firsts, db := Built(), [], [], table[..];
      new;
      BuiltBlocks();
      forall k | 0 <= k < |view.free| ensures LinkedAt(db, view.free, k) {
        assert view.free[k] == k;
      }
    }

    // ---------- checkpoint ----------

    method CountFiles() returns (n: int)
      requires Listed()
      ensures n == |entries|
    {
      n := 0;
      var x := fentryHead;
      while x != null
        invariant 0 <= n <= |entries| && x == EntryPtr(entries, n)
        decreases |entries| - n
      {
        assert Holds(n);
        n := n + 1;
        x := x.next;
      }
    }

    /** The record loop of checkpoint_fs. */
    method SaveEntries(image: array<int>)
      requires Listed() && InOrder(db) && db == dbTable[..] && Linked(db, freeHead, firsts, view) && Good(view)
      requires NoneEmpty(view.files) && |entries| <= BLOCKS
      requires image.Length == IMAGE_BYTES && BlocksSaved(image[..], db, BLOCKS)
      modifies image
      ensures BlocksSaved(image[..], db, BLOCKS) && EntriesSaved(image[..], view.files, firsts, |entries|)
      ensures image[0] == old(image[0]) && image[COUNT] == old(image[COUNT])
    {
      var x := fentryHead;
      var i := 0;
      while x != null
        invariant 0 <= i <= |entries| && x == EntryPtr(entries, i)
        invariant BlocksSaved(image[..], db, BLOCKS) && EntriesSaved(image[..], view.files, firsts, i)
        invariant image[0] == old(image[0]) && image[COUNT] == old(image[COUNT])
        decreases |entries| - i
      {
        ghost var was := image[..];
        var first := FirstOf(x, i);
        SaveEntry(image, i, x.index, first.ondisk - STORAGE_BASE, x.name);
        EntriesKept(was, image[..], db, view.files, firsts, i);
        x := x.next;
        i := i + 1;
      }
    }

    /** The first block of a file that has one. */
    method FirstOf(x: FEntry, ghost i: nat) returns (b: DataBlock)
      requires Listed() && InOrder(db) && db == dbTable[..] && Linked(db, freeHead, firsts, view)
      requires i < |entries| && x == entries[i] && NoneEmpty(view.files)
      ensures Holds(i) && b.ondisk - STORAGE_BASE == SECTOR_BYTES * firsts[i] && 0 <= firsts[i] < BLOCKS
    {
      assert Holds(i) && ChainAt(db, firsts, view.files, i) && LinkedAt(db, view.files[i].chain, 0);
      b := dbTable[x.firstBlock];
      assert b == db[firsts[i]];
    }

    /** The buffer checkpoint_fs fills. */
    method FillImage() returns (image: array<int>)
      requires Valid() && NoneEmpty(view.files)
      ensures fresh(image) && image.Length == IMAGE_BYTES
      ensures ImageOf(image[..], freeHead, db, firsts, view.files)
    {
      FileCount(view);
      image := new int[IMAGE_BYTES];
      image[0] := if freeHead == NIL then -1 else freeHead;
      SaveBlocks(image, dbTable);
      var n := CountFiles();
      ghost var was := image[..];
      image[COUNT] := n;
      forall k | 0 <= k < BLOCKS ensures BlockSaved(image[..], db, k) { assert BlockSaved(was, db, k); }
      SaveEntries(image);
    }

    /** checkpoint_fs: the state is saved on the disk, and no sector outside the image changes. */
    method CheckpointFs() returns (code: int)
      requires Valid() && NoneEmpty(view.files)
      modifies this`disk
      ensures code == 0 && Valid() && Saved(disk, view)
      ensures SameData(old(disk), disk) && view == old(view)
    {
      var image := FillImage();
      disk := DmaWrite(disk, image);
      assert Named(view.files) by {
        forall i | 0 <= i < |entries| ensures |view.files[i].name| == NAME_BYTES { assert Holds(i); }
      }
      assert SavedAs(disk, view, image[..], freeHead, db, firsts);
      return 0;
    }

    // ---------- load ----------

    /** The table of entry records load_fs allocates. */
    static method EntryTable() returns (t: seq<FEntry>)
      ensures |t| == BLOCKS
      ensures forall i :: 0 <= i < BLOCKS ==> fresh(t[i])
      ensures forall i, j :: 0 <= i < j < BLOCKS ==> t[i] != t[j]
    {
      t := [];
      while |t| < BLOCKS
        invariant |t| <= BLOCKS && forall i :: 0 <= i < |t| ==> fresh(t[i])
        invariant forall i, j :: 0 <= i < j < |t| ==> t[i] != t[j]
      {
        var x := new FEntry(0, [], NIL, null, 0);
        t := t + [x];
      }
    }

    static method LoadEntry(x: FEntry, image: array<int>, i: nat, next: FEntry?)
      requires image.Length == IMAGE_BYTES && i < BLOCKS
      modifies x
      ensures var e := ENTRIES + ENTRY_BYTES * i;
        x.index == image[e] && x.firstBlock == image[e + 4] / SECTOR_BYTES && x.name == image[e + 8..e + 8 + NAME_BYTES]
      ensures x.next == next && x.occupied == -1
    {
      var e := ENTRIES + ENTRY_BYTES * i;
      x.index := image[e];
      x.next := next;
      x.firstBlock := image[e + 4] / SECTOR_BYTES;
      x.occupied := -1;
      x.name := LoadName(image, e);
    }

    /** The record loop of load_fs. */
    method LoadEntries(image: array<int>, table: seq<FEntry>, cnt: int, ghost st: FsState)
      requires image.Length == IMAGE_BYTES && cnt == |st.files| == |firsts| <= BLOCKS == |table|
      requires Named(st.files) && EntriesSaved(image[..], st.files, firsts, cnt)
      requires view == Closed(st) && entries == table[..cnt]
      requires forall i, j :: 0 <= i < j < BLOCKS ==> table[i] != table[j]
      modifies table
      ensures forall i {:trigger Holds(i)} :: 0 <= i < cnt ==> Holds(i)
    {
      var i := 0;
      while i < cnt
        invariant 0 <= i <= cnt
        invariant forall k {:trigger Holds(k)} :: 0 <= k < i ==> Holds(k)
      {
        label Before:
        assert EntrySaved(image[..], st.files, firsts, i);
        LoadEntry(table[i], image, i, if i + 1 < cnt then table[i + 1] else null);
        assert Holds(i);
        forall k | 0 <= k <= i ensures Holds(k) {
          assert k < i ==> old@Before(Holds(k)) && entries[k] != table[i];
        }
        i := i + 1;
      }
    }

    /** load_fs after the image of st has been read: the table, then the records. */
    method Restore(image: array<int>, ghost st: FsState, ghost fh: int, ghost d: seq<DataBlock>, ghost fs: seq<int>)
      requires image.Length == IMAGE_BYTES && Good(st) && NoneEmpty(st.files) && Named(st.files)
      requires ImageOf(image[..], fh, d, fs, st.files) && InOrder(d) && Linked(d, fh, fs, st)
      modifies this`dbTable, this`freeHead, this`fentryHead, this`view, this`entries, this`firsts, this`db
      ensures view == Closed(st)
      ensures Valid() <==> st.files != []
      ensures fresh(dbTable) && fresh(entries)
    {
      ClosedGood(st);
      ClosedLinked(d, fh, fs, st);
      FreeHeadKept(d, fh, fs, st);
      var table := EntryTable();
      var where := image[0];
      freeHead := if where >= 0 then where else NIL;
      dbTable := LoadBlocks(image, d);
      var cnt := image[COUNT];
      fentryHead := table[0];
      view, entries, firsts, db := Closed(st), table[..cnt], fs, d;
      LoadEntries(image, table, cnt, st);
    }

    /** load_fs after checkpoint_fs: the free chain, the files in order, their names, descriptors
        and chains are what was saved, and every file is closed. With no file at all the list head
        points at a record that was never filled in, and the result is no valid state. */
    method LoadFs(ghost st: FsState)
      requires Saved(disk, st)
      modifies this`dbTable, this`freeHead, this`fentryHead, this`view, this`entries, this`firsts, this`db
      ensures view == Closed(st)
      ensures Valid() <==> st.files != []
      ensures fresh(dbTable) && fresh(entries)
    {
      ghost var im, fh, d, fs :| SavedAs(disk, st, im, fh, d, fs);
      var image := new int[IMAGE_BYTES];
      DmaRead(disk, image, im);
      Restore(image, st, fh, d, fs);
    }
  }
}
