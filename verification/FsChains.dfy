/** How the file system's chains are stored: a table of blocks, each with a link to the next. Block
    pointers are indices into the table, -1 for null. */
module FsChains {
  import opened Basics
  import opened FsSpec

  const NIL := -1

  datatype DataBlock = DataBlock(next: int, ondisk: int)

  function NextOf(s: seq<int>, k: nat): int {
    if k < |s| then s[k] else NIL
  }

  /** The k-th block of the chain is in the table and points to the next. */
  ghost predicate LinkedAt(db: seq<DataBlock>, s: seq<int>, k: int)
    requires 0 <= k < |s|
  {
    0 <= s[k] < |db| && db[s[k]].next == NextOf(s, k + 1)
  }

  ghost predicate Chain(db: seq<DataBlock>, head: int, s: seq<int>) {
    head == NextOf(s, 0) && forall k :: 0 <= k < |s| ==> LinkedAt(db, s, k)
  }

  lemma ChainFrame(db: seq<DataBlock>, db2: seq<DataBlock>, head: int, s: seq<int>)
    requires Chain(db, head, s) && |db2| == |db|
    requires forall b :: b in s && 0 <= b < |db| ==> db2[b] == db[b]
    ensures Chain(db2, head, s)
  {
    forall k | 0 <= k < |s| ensures LinkedAt(db2, s, k) {
      assert LinkedAt(db, s, k) && s[k] in s;
    }
  }

  /** Linking the last block of one chain to the head of another joins them. */
  lemma ChainJoin(db: seq<DataBlock>, head: int, s: seq<int>, p: int, t: seq<int>)
    requires Chain(db, head, s) && Chain(db, p, t) && s != [] && DistinctInts(s) && NoneShared(s, t)
    ensures 0 <= s[|s| - 1] < |db|
    ensures var last := s[|s| - 1]; Chain(db[last := db[last].(next := p)], head, s + t)
  {
    var last := s[|s| - 1];
    assert LinkedAt(db, s, |s| - 1);
    var db2 := db[last := db[last].(next := p)];
    forall k | 0 <= k < |s + t| ensures LinkedAt(db2, s + t, k) {
      if k < |s| {
        assert LinkedAt(db, s, k);
      } else {
        assert LinkedAt(db, t, k - |s|) && last in s && t[k - |s|] in t;
      }
    }
  }

  /** Cutting a chain after its first n blocks. */
  lemma ChainCut(db: seq<DataBlock>, head: int, s: seq<int>, n: nat)
    requires Chain(db, head, s) && DistinctInts(s) && 0 < n <= |s|
    ensures 0 <= s[n - 1] < |db|
    ensures var db2 := db[s[n - 1] := db[s[n - 1]].(next := NIL)];
      Chain(db2, head, s[..n]) && Chain(db2, NextOf(s, n), s[n..])
  {
    assert LinkedAt(db, s, n - 1);
    var db2 := db[s[n - 1] := db[s[n - 1]].(next := NIL)];
    forall k | 0 <= k < n ensures LinkedAt(db2, s[..n], k) { assert LinkedAt(db, s, k); }
    forall k | 0 <= k < |s| - n ensures LinkedAt(db2, s[n..], k) { assert LinkedAt(db, s, n + k); }
  }

  ghost predicate ChainAt(db: seq<DataBlock>, firsts: seq<int>, fs: seq<File>, i: int)
    requires 0 <= i < |firsts| == |fs|
  {
    Chain(db, firsts[i], fs[i].chain)
  }

  /** The whole table: the free chain, and a chain for every file. */
  ghost predicate Linked(db: seq<DataBlock>, freeHead: int, firsts: seq<int>, st: FsState) {
    && |firsts| == |st.files| && Chain(db, freeHead, st.free)
    && forall i :: 0 <= i < |firsts| ==> ChainAt(db, firsts, st.files, i)
  }

  /** Blocks that are in no chain of the state. */
  ghost predicate Loose(st: FsState, blocks: seq<int>) {
    && NoneShared(st.free, blocks)
    && forall f :: f in st.files ==> NoneShared(f.chain, blocks)
  }

  lemma CutLinked(db: seq<DataBlock>, freeHead: int, firsts: seq<int>, st: FsState, n: nat)
    requires Linked(db, freeHead, firsts, st) && Good(st) && 0 < n <= |st.free|
    ensures 0 <= st.free[n - 1] < |db|
    ensures var b := st.free[n - 1]; var db2 := db[b := db[b].(next := NIL)];
      Linked(db2, NextOf(st.free, n), firsts, st.(free := st.free[n..])) && Chain(db2, freeHead, st.free[..n])
  {
    GoodFree(st);
    ChainCut(db, freeHead, st.free, n);
    var b := st.free[n - 1];
    var db2 := db[b := db[b].(next := NIL)];
    forall i | 0 <= i < |firsts| ensures ChainAt(db2, firsts, st.files, i) {
      GoodChain(st, i);
      assert ChainAt(db, firsts, st.files, i) && b in st.free;
      ChainFrame(db, db2, firsts[i], st.files[i].chain);
    }
  }

  function WithBlocks(st: FsState, i: nat, blocks: seq<int>): FsState
    requires i < |st.files|
  {
    st.(files := st.files[i := st.files[i].(chain := st.files[i].chain + blocks)])
  }

  lemma JoinLinked(db: seq<DataBlock>, freeHead: int, firsts: seq<int>, st: FsState, i: nat, p: int, blocks: seq<int>)
    requires Linked(db, freeHead, firsts, st) && Good(st) && Loose(st, blocks)
    requires i < |st.files| && st.files[i].chain != [] && Chain(db, p, blocks)
    ensures var last := st.files[i].chain[|st.files[i].chain| - 1];
      && 0 <= last < |db|
      && var db2 := db[last := db[last].(next := p)];
         Linked(db2, freeHead, firsts, WithBlocks(st, i, blocks)) && Chain(db2, p, blocks)
  {
    var c := st.files[i].chain;
    var last := c[|c| - 1];
    GoodChain(st, i);
    assert ChainAt(db, firsts, st.files, i) && last in c && st.files[i] in st.files;
    ChainJoin(db, firsts[i], c, p, blocks);
    var db2 := db[last := db[last].(next := p)];
    ChainFrame(db, db2, freeHead, st.free);
    ChainFrame(db, db2, p, blocks);
    var fs := WithBlocks(st, i, blocks).files;
    forall j | 0 <= j < |firsts| ensures ChainAt(db2, firsts, fs, j) {
      if j != i {
        GoodChains(st, i, j);
        assert ChainAt(db, firsts, st.files, j);
        ChainFrame(db, db2, firsts[j], st.files[j].chain);
      }
    }
  }

  /** After data_alloc: the blocks taken are loose, and what append_file then does is as specified. */
  lemma AppendAfterTake(st: FsState, pid: int, index: int, n: int)
    requires Good(st) && 0 < n <= |st.free|
    ensures var s1 := st.(free := st.free[n..]); var blocks := st.free[..n]; var i := Find(st.files, index);
      && Loose(s1, blocks)
      && (i == |st.files| ==> Append(st, pid, index, n) == (s1, -2))
      && (i < |st.files| && !MayUse(st.files[i], pid) ==> Append(st, pid, index, n) == (s1, -3))
      && (i < |st.files| && MayUse(st.files[i], pid) ==>
            Good(WithBlocks(s1, i, blocks)) && Append(st, pid, index, n) == (WithBlocks(s1, i, blocks), 0))
  {
    LooseBlocks(st, n);
    AppendGood(st, pid, index, n);
  }

  lemma FirstLinked(db: seq<DataBlock>, freeHead: int, firsts: seq<int>, st: FsState, i: nat, p: int, blocks: seq<int>)
    requires Linked(db, freeHead, firsts, st) && i < |st.files| && st.files[i].chain == [] && Chain(db, p, blocks)
    ensures Linked(db, freeHead, firsts[i := p], WithBlocks(st, i, blocks))
  {
    assert [] + blocks == blocks;
    var firsts2, fs2 := firsts[i := p], WithBlocks(st, i, blocks).files;
    forall j | 0 <= j < |firsts| ensures ChainAt(db, firsts2, fs2, j) {
      assert j != i ==> ChainAt(db, firsts, st.files, j);
    }
  }

  /** Cutting off the blocks before pos and then those after size is reading the blocks between. */
  lemma ReadFromSeek(st: FsState, disk: Disk, pid: int, index: int, pos: nat, size: nat)
    requires var i := Find(st.files, index); i < |st.files| && MayUse(st.files[i], pid) ==> pos <= |st.files[i].chain|
    ensures var i := Find(st.files, index);
      var c := if i < |st.files| && MayUse(st.files[i], pid) then st.files[i].chain[pos..] else [];
      ReadResult(st, disk, pid, index, pos, size) == Content(disk, c)[..if size < |c| then size else |c|]
  {
    var i := Find(st.files, index);
    if i < |st.files| && MayUse(st.files[i], pid) {
      var chain := st.files[i].chain;
      var c := chain[pos..];
      var m := if size < |c| then size else |c|;
      assert chain[pos..pos + m] == c[0..m];
      ContentSlice(disk, c, 0, m);
    }
  }

  /** Marking a file touches no chain. */
  lemma MarkLinked(db: seq<DataBlock>, freeHead: int, firsts: seq<int>, st: FsState, i: nat, mark: int)
    requires Linked(db, freeHead, firsts, st) && Good(st) && i < |st.files|
    ensures var t := st.(files := st.files[i := st.files[i].(occupied := mark)]);
      Linked(db, freeHead, firsts, t) && Good(t)
  {
    var f := st.files[i].(occupied := mark);
    var t := st.(files := st.files[i := f]);
    FlattenSame(st.files, i, f);
    assert AllBlocks(t) == AllBlocks(st);
    forall b ensures AllBlocks(t)[b] <= InTableOnce(b) { AtMostOnce(st, b); }
    forall j | 0 <= j < |firsts| ensures ChainAt(db, firsts, t.files, j) { assert ChainAt(db, firsts, st.files, j); }
  }

  /** A free chain's head is a block or null, so its sign tells which. */
  lemma FreeHeadKept(db: seq<DataBlock>, freeHead: int, firsts: seq<int>, st: FsState)
    requires Linked(db, freeHead, firsts, st)
    ensures freeHead == if freeHead >= 0 then freeHead else NIL
  {
    assert st.free != [] ==> LinkedAt(db, st.free, 0);
  }
}
