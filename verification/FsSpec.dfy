/** kern/fs/fs_manage.c as functions on the file system's state: one chain of free blocks, and a
    chain of blocks per file. */
module FsSpec {
  import opened Basics

  const BLOCKS := 0x8000          // STORAGE_SIZE >> 9
  const STORAGE_BASE := 0xC000_0000
  const FS_BASE := 0xC200_0000
  const SECTOR_BYTES := 512
  const NAME_BYTES := 10

  datatype File = File(index: int, name: seq<int>, chain: seq<int>, occupied: int)

  datatype FsState = FsState(free: seq<int>, files: seq<File>)

  // ---------- operations ----------

  /** The first file with this index number, or |fs|. */
  function Find(fs: seq<File>, index: int): (i: nat)
    ensures i <= |fs|
    ensures i < |fs| ==> fs[i].index == index
    ensures forall j :: 0 <= j < i ==> fs[j].index != index
  {
    if fs == [] || fs[0].index == index then 0 else 1 + Find(fs[1..], index)
  }

  /** A process may use a file nobody has open, or that it has open itself. */
  predicate MayUse(f: File, pid: int) {
    f.occupied == -1 || f.occupied == pid
  }

  /** open_file with occupied := pid, close_file with occupied := -1. */
  function SetOccupied(st: FsState, pid: int, index: int, mark: int): (FsState, int) {
    var i := Find(st.files, index);
    if i == |st.files| then (st, -1)
    else if !MayUse(st.files[i], pid) then (st, -2)
    else (st.(files := st.files[i := st.files[i].(occupied := mark)]), 0)
  }

  /** A new, empty file in front. */
  function Create(st: FsState, index: int, name: seq<int>): FsState {
    st.(files := [File(index, name, [], -1)] + st.files)
  }

  /** data_alloc: the first n free blocks, or nothing. */
  function Take(free: seq<int>, n: int): Maybe<seq<int>> {
    if n <= 0 || n > |free| then None else Some(free[..n])
  }

  /** The block bookkeeping of append_file. */
  function Append(st: FsState, pid: int, index: int, n: int): (FsState, int) {
    match Take(st.free, n)
    case None => (st, -1)
    case Some(blocks) =>
      var s1 := st.(free := if 0 <= n <= |st.free| then st.free[n..] else []);
      var i := Find(st.files, index);
      if i == |st.files| then (s1, -2)
      else if !MayUse(st.files[i], pid) then (s1, -3)
      else (s1.(files := st.files[i := st.files[i].(chain := st.files[i].chain + blocks)]), 0)
  }

  // ---------- descriptors ----------

  function Indices(fs: seq<File>): set<int> {
    set f | f in fs :: f.index
  }

  function UpTo(n: nat): (s: set<int>)
    ensures forall k :: k in s <==> 1 <= k <= n
  {
    if n == 0 then {} else UpTo(n - 1) + {n}
  }

  lemma {:induction false} UpToSize(n: nat)
    ensures |UpTo(n)| == n
  {
    if n == 0 {
    } else {
      UpToSize(n - 1);
    }
  }

  lemma {:induction false} IndicesSize(fs: seq<File>)
    ensures |Indices(fs)| <= |fs|
  {
    if fs == [] {
    } else {
      IndicesSize(fs[1..]);
      assert Indices(fs) == {fs[0].index} + Indices(fs[1..]);
    }
  }

  /** With the numbers 1 to n all taken there are at least n files. */
  lemma Pigeonhole(fs: seq<File>, n: nat)
    requires UpTo(n) <= Indices(fs)
    ensures n <= |fs|
  {
    UpToSize(n);
    IndicesSize(fs);
    SubsetSize(UpTo(n), Indices(fs));
  }

  /** The search of create_file_from_name, from fd on: the least number no file has. */
  function NextFd(fs: seq<File>, fd: int): (r: int)
    requires fd >= 1 && UpTo(fd - 1) <= Indices(fs)
    ensures fd <= r <= |fs| + 1 && r !in Indices(fs)
    ensures forall k :: 1 <= k < r ==> k in Indices(fs)
    decreases |fs| + 1 - fd
  {
    Pigeonhole(fs, fd - 1);
    if fd !in Indices(fs) then fd else NextFd(fs, fd + 1)
  }

  // ---------- names ----------

  /** The test of fname_to_fd: the first n bytes agree and a zero byte follows. */
  predicate Matches(stored: seq<int>, name: seq<int>, n: nat) {
    n < NAME_BYTES && n <= |name| && |stored| == NAME_BYTES && stored[..n] == name[..n] && stored[n] == 0
  }

  /** fname_to_fd: the descriptor of the first file that matches, or -1. */
  function NameToFd(fs: seq<File>, name: seq<int>, n: nat): int {
    if fs == [] then -1
    else if Matches(fs[0].name, name, n) then fs[0].index
    else NameToFd(fs[1..], name, n)
  }

  /** The name stored: the bytes before the first zero, all of them if there is none. */
  function NameOf(stored: seq<int>): (r: seq<int>)
    ensures |r| <= |stored| && r == stored[..|r|] && 0 !in r
    ensures |r| < |stored| ==> stored[|r|] == 0
  {
    if stored == [] || stored[0] == 0 then [] else [stored[0]] + NameOf(stored[1..])
  }

  lemma {:induction false} NameOfIs(stored: seq<int>, k: nat)
    requires k < |stored| && stored[k] == 0 && 0 !in stored[..k]
    ensures NameOf(stored) == stored[..k]
  {
    if k == 0 {
    } else {
      assert stored[..k][0] == stored[0] && stored[1..][..k - 1] == stored[..k][1..];
      NameOfIs(stored[1..], k - 1);
    }
  }

  /** For a name without zero bytes the test is that the name stored is that name, no longer and no
      shorter. */
  lemma MatchesName(stored: seq<int>, name: seq<int>, n: nat)
    requires n < NAME_BYTES && n <= |name| && |stored| == NAME_BYTES && 0 !in name[..n]
    ensures Matches(stored, name, n) <==> NameOf(stored) == name[..n]
  {
    if Matches(stored, name, n) { NameOfIs(stored, n); }
  }

  /** The first file with this name, or |fs|. */
  function FirstNamed(fs: seq<File>, name: seq<int>): (i: nat)
    ensures i <= |fs|
    ensures i < |fs| ==> NameOf(fs[i].name) == name
    ensures forall j :: 0 <= j < i ==> NameOf(fs[j].name) != name
  {
    if fs == [] || NameOf(fs[0].name) == name then 0 else 1 + FirstNamed(fs[1..], name)
  }

  /** The lookup by name gives the descriptor of the first file with exactly this name, or -1. */
  lemma {:induction false} LookupByName(fs: seq<File>, name: seq<int>, n: nat)
    requires n < NAME_BYTES && n <= |name| && 0 !in name[..n]
    requires forall f :: f in fs ==> |f.name| == NAME_BYTES
    ensures
      var i := FirstNamed(fs, name[..n]);
      NameToFd(fs, name, n) == if i < |fs| then fs[i].index else -1
  {
    if fs == [] {
    } else {
      MatchesName(fs[0].name, name, n);
      LookupByName(fs[1..], name, n);
    }
  }

  /** The name bytes create_file_from_name leaves: zeros, not the name; the rest is what was in
      memory. */
  function ClearedName(n: nat, rest: seq<int>): (r: seq<int>)
    requires n < NAME_BYTES && |rest| == NAME_BYTES
    ensures |r| == NAME_BYTES && r[n] == 0 && forall j :: 0 <= j <= n ==> r[j] == 0
    ensures forall j :: n < j < NAME_BYTES ==> r[j] == rest[j]
  {
    seq(NAME_BYTES, j => if j <= n then 0 else if 0 <= j < |rest| then rest[j] else 0)
  }

  /** A file created by name is found again under that name exactly when the name is all zero
      bytes; otherwise the lookup goes on as if it had not been created. */
  lemma CreatedByName(st: FsState, name: seq<int>, n: nat, rest: seq<int>)
    requires n < NAME_BYTES && |name| >= n && |rest| == NAME_BYTES
    ensures var fd := NextFd(st.files, 1);
      NameToFd(Create(st, fd, ClearedName(n, rest)).files, name, n)
        == if forall j :: 0 <= j < n ==> name[j] == 0 then fd else NameToFd(st.files, name, n)
  {
    var fd := NextFd(st.files, 1);
    var stored := ClearedName(n, rest);
    var fs := Create(st, fd, stored).files;
    assert fs[1..] == st.files;
    if forall j :: 0 <= j < n ==> name[j] == 0 {
      assert stored[..n] == name[..n];
    } else {
      var j :| 0 <= j < n && name[j] != 0;
      assert stored[..n][j] != name[..n][j];
    }
  }

  ghost predicate DistinctIndices(fs: seq<File>) {
    forall i, j :: 0 <= i < j < |fs| ==> fs[i].index != fs[j].index
  }

  // ---------- blocks are neither lost nor shared ----------

  function Flatten(fs: seq<File>): seq<int> {
    if fs == [] then [] else fs[0].chain + Flatten(fs[1..])
  }

  function AllBlocks(st: FsState): multiset<int> {
    multiset(st.free) + multiset(Flatten(st.files))
  }

  /** The state build_fs makes. */
  function Built(): FsState {
    FsState(seq(BLOCKS, k => k), [])
  }

  lemma {:induction false} CountUp(xs: seq<int>, n: nat)
    requires n <= |xs| && forall k :: 0 <= k < |xs| ==> xs[k] == k
    ensures forall b :: multiset(xs[..n])[b] == if 0 <= b < n then 1 else 0
  {
    if n == 0 {
    } else {
      CountUp(xs, n - 1);
      assert xs[..n] == xs[..n - 1] + [n - 1];
    }
  }

  lemma BuiltBlocks()
    ensures Conserved(Built()) && Good(Built()) && |AllBlocks(Built())| == BLOCKS
  {
    var xs := Built().free;
    CountUp(xs, |xs|);
    assert xs[..|xs|] == xs;
    assert AllBlocks(Built()) == multiset(xs);
  }

  /** A multiset within the table has no more than its size, and all of it if it has that size. */
  lemma Bounded(a: multiset<int>)
    requires forall b {:trigger a[b]} :: a[b] <= InTableOnce(b)
    ensures |a| <= BLOCKS
    ensures |a| == BLOCKS <==> forall b {:trigger a[b]} :: a[b] == InTableOnce(b)
  {
    BuiltBlocks();
    var all := AllBlocks(Built());
    assert a <= all;
    SubMultiset(a, all);
    if forall b :: a[b] == InTableOnce(b) { assert a == all; }
  }

  /** How often the table has a block. */
  function InTableOnce(b: int): nat { if 0 <= b < BLOCKS then 1 else 0 }

  /** Blocks are blocks of the table, and none is in two places. */
  ghost predicate Good(st: FsState) {
    forall b {:trigger AllBlocks(st)[b]} :: AllBlocks(st)[b] <= InTableOnce(b)
  }

  /** Free chain and file chains together are exactly the block table. */
  ghost predicate Conserved(st: FsState) {
    forall b {:trigger AllBlocks(st)[b]} :: AllBlocks(st)[b] == InTableOnce(b)
  }

  lemma FlattenCons(fs: seq<File>)
    requires fs != []
    ensures multiset(Flatten(fs)) == multiset(fs[0].chain) + multiset(Flatten(fs[1..]))
  {
  }

  lemma FlattenCount(fs: seq<File>, b: int)
    requires fs != []
    ensures multiset(Flatten(fs))[b] == multiset(fs[0].chain)[b] + multiset(Flatten(fs[1..]))[b]
  {
    FlattenCons(fs);
  }

  /** How often b occurs in each of the files' chains. */
  function Counts(fs: seq<File>, b: int): (c: seq<nat>)
    ensures |c| == |fs| && forall i :: 0 <= i < |fs| ==> c[i] == multiset(fs[i].chain)[b]
  {
    seq(|fs|, i requires 0 <= i < |fs| => multiset(fs[i].chain)[b])
  }

  function Sum(c: seq<nat>): nat {
    if c == [] then 0 else c[0] + Sum(c[1..])
  }

  lemma {:induction false} FlattenSum(fs: seq<File>, b: int)
    ensures multiset(Flatten(fs))[b] == Sum(Counts(fs, b))
  {
    if fs == [] {
    } else {
      FlattenCount(fs, b);
      FlattenSum(fs[1..], b);
      assert Counts(fs, b)[1..] == Counts(fs[1..], b);
    }
  }

  lemma Cancel(a: multiset<int>, b: multiset<int>, c: multiset<int>)
    requires a + c == b + c
    ensures a == b
  {
    forall x ensures a[x] == b[x] { assert (a + c)[x] == (b + c)[x]; }
  }

  lemma FlattenUpdateAt(fs: seq<File>, i: nat, f: File, b: int)
    requires i < |fs|
    ensures multiset(Flatten(fs[i := f]))[b] + multiset(fs[i].chain)[b]
         == multiset(Flatten(fs))[b] + multiset(f.chain)[b]
  {
    var gs := fs[i := f];
    var c := Counts(fs, b);
    FlattenSum(fs, b);
    FlattenSum(gs, b);
    assert Counts(gs, b) == c[i := multiset(f.chain)[b]];
    SumUpdate(c, i, multiset(f.chain)[b]);
  }

  lemma FlattenUpdate(fs: seq<File>, i: nat, f: File)
    requires i < |fs|
    ensures multiset(Flatten(fs[i := f])) + multiset(fs[i].chain) == multiset(Flatten(fs)) + multiset(f.chain)
  {
    var gs := fs[i := f];
    var l := multiset(Flatten(gs)) + multiset(fs[i].chain);
    var r := multiset(Flatten(fs)) + multiset(f.chain);
    forall b ensures l[b] == r[b] { FlattenUpdateAt(fs, i, f, b); }
  }

  lemma Exchanged(a: multiset<int>, b: multiset<int>, c: multiset<int>)
    ensures (a + b) + c == (c + b) + a
  {
  }

  lemma {:induction false} SumUpdate(c: seq<nat>, i: nat, v: nat)
    requires i < |c|
    ensures Sum(c[i := v]) + c[i] == Sum(c) + v
  {
    if i == 0 {
      assert c[0 := v][1..] == c[1..];
    } else {
      SumUpdate(c[1..], i - 1, v);
      assert c[i := v][1..] == c[1..][i - 1 := v];
    }
  }

  lemma FlattenSame(fs: seq<File>, i: nat, f: File)
    requires i < |fs| && f.chain == fs[i].chain
    ensures multiset(Flatten(fs[i := f])) == multiset(Flatten(fs))
  {
    FlattenUpdate(fs, i, f);
    Cancel(multiset(Flatten(fs[i := f])), multiset(Flatten(fs)), multiset(f.chain));
  }

  lemma FlattenMore(fs: seq<File>, i: nat, blocks: seq<int>)
    requires i < |fs|
    ensures multiset(Flatten(fs[i := fs[i].(chain := fs[i].chain + blocks)]))
      == multiset(Flatten(fs)) + multiset(blocks)
  {
    var f := fs[i].(chain := fs[i].chain + blocks);
    FlattenUpdate(fs, i, f);
    Cancel(multiset(Flatten(fs[i := f])), multiset(Flatten(fs)) + multiset(blocks), multiset(fs[i].chain));
  }

  /** An append keeps all blocks when it succeeds or runs out of space; when the file is missing
      or in use the blocks already taken are lost, and no others. */
  lemma AppendBlocks(st: FsState, pid: int, index: int, n: int)
    ensures var (t, code) := Append(st, pid, index, n);
      && (code == 0 || code == -1 ==> AllBlocks(t) == AllBlocks(st))
      && (code == -2 || code == -3 ==>
            0 < n <= |st.free| && AllBlocks(t) + multiset(st.free[..n]) == AllBlocks(st))
  {
    var (t, code) := Append(st, pid, index, n);
    if code != -1 {
      CutCount(st.free, n);
      var taken, left, files := multiset(st.free[..n]), multiset(st.free[n..]), multiset(Flatten(st.files));
      assert t.free == st.free[n..];
      if code == 0 {
        FlattenMore(st.files, Find(st.files, index), st.free[..n]);
        MovedOver(taken, left, files);
      } else {
        Exchanged(left, files, taken);
        MovedOver(taken, left, files);
      }
    }
  }

  lemma CutCount(q: seq<int>, n: nat)
    requires n <= |q|
    ensures multiset(q) == multiset(q[..n]) + multiset(q[n..])
  {
    assert q == q[..n] + q[n..];
  }

  lemma MovedOver(a: multiset<int>, b: multiset<int>, c: multiset<int>)
    ensures b + (c + a) == (a + b) + c == (b + c) + a
  {
  }

  lemma SetOccupiedBlocks(st: FsState, pid: int, index: int, mark: int)
    ensures AllBlocks(SetOccupied(st, pid, index, mark).0) == AllBlocks(st)
  {
    var i := Find(st.files, index);
    if i < |st.files| {
      FlattenSame(st.files, i, st.files[i].(occupied := mark));
    }
  }

  lemma CreateBlocks(st: FsState, index: int, name: seq<int>)
    ensures AllBlocks(Create(st, index, name)) == AllBlocks(st)
  {
    var fs := [File(index, name, [], -1)] + st.files;
    assert fs[1..] == st.files;
    FlattenCons(fs);
  }

  // ---------- whole runs ----------

  datatype Event =
    | OpenFile(pid: int, index: int)
    | CloseFile(pid: int, index: int)
    | CreateFile(index: int, name: seq<int>)
    | CreateNamed(name: seq<int>)
    | AppendFile(pid: int, index: int, blocks: int)

  function Step(st: FsState, e: Event): FsState {
    match e
    case OpenFile(pid, index) => SetOccupied(st, pid, index, pid).0
    case CloseFile(pid, index) => SetOccupied(st, pid, index, -1).0
    case CreateFile(index, name) => Create(st, index, name)
    case CreateNamed(name) => Create(st, NextFd(st.files, 1), name)
    case AppendFile(pid, index, n) => Append(st, pid, index, n).0
  }

  function After(st: FsState, es: seq<Event>): FsState
    decreases |es|
  {
    if es == [] then st else After(Step(st, es[0]), es[1..])
  }

  /** A file the process may append to. */
  predicate Appendable(st: FsState, pid: int, index: int) {
    var i := Find(st.files, index);
    i < |st.files| && MayUse(st.files[i], pid)
  }

  /** Blocks an event loses: those of an append that there is space for and that is to a file that
      is missing or that someone else has open. */
  function Leak(st: FsState, e: Event): nat {
    match e
    case AppendFile(pid, index, n) =>
      if 0 < n <= |st.free| && !Appendable(st, pid, index) then n else 0
    case _ => 0
  }

  function Leaked(st: FsState, es: seq<Event>): nat
    decreases |es|
  {
    if es == [] then 0 else Leak(st, es[0]) + Leaked(Step(st, es[0]), es[1..])
  }

  lemma StepBlocks(st: FsState, e: Event)
    ensures AllBlocks(Step(st, e)) <= AllBlocks(st)
    ensures |AllBlocks(Step(st, e))| + Leak(st, e) == |AllBlocks(st)|
  {
    match e
    case OpenFile(pid, index) => SetOccupiedBlocks(st, pid, index, pid);
    case CloseFile(pid, index) => SetOccupiedBlocks(st, pid, index, -1);
    case CreateFile(index, name) => CreateBlocks(st, index, name);
    case CreateNamed(name) => CreateBlocks(st, NextFd(st.files, 1), name);
    case AppendFile(pid, index, n) => AppendBlocks(st, pid, index, n);
  }

  lemma {:induction false} RunBlocks(st: FsState, es: seq<Event>)
    requires Good(st)
    ensures Good(After(st, es))
    ensures |AllBlocks(After(st, es))| + Leaked(st, es) == |AllBlocks(st)|
    decreases |es|
  {
    if es == [] {
    } else {
      StepBlocks(st, es[0]);
      RunBlocks(Step(st, es[0]), es[1..]);
    }
  }

  /** From build_fs on, blocks are never shared; and they are all accounted for if and only if no
      append that there was space for went to a file that was missing or that someone else had
      open. */
  lemma BlocksConserved(es: seq<Event>)
    ensures Good(After(Built(), es))
    ensures Conserved(After(Built(), es)) <==> Leaked(Built(), es) == 0
  {
    BuiltBlocks();
    RunBlocks(Built(), es);
    Bounded(AllBlocks(After(Built(), es)));
  }

  lemma SubMultiset(a: multiset<int>, b: multiset<int>)
    requires a <= b
    ensures |a| <= |b|
    ensures |a| == |b| ==> a == b
  {
    assert b == a + (b - a);
    assert |b - a| == 0 ==> b - a == multiset{};
  }

  ghost predicate NamedOnly(es: seq<Event>) {
    forall k :: 0 <= k < |es| ==> !es[k].CreateFile?
  }

  /** Files created by name never share a descriptor, whatever happens in between. */
  lemma {:induction false} DescriptorsDistinct(st: FsState, es: seq<Event>)
    requires DistinctIndices(st.files) && NamedOnly(es)
    ensures DistinctIndices(After(st, es).files)
    decreases |es|
  {
    if es == [] {
    } else {
      assert !es[0].CreateFile?;
      StepDescriptors(st, es[0]);
      assert forall k :: 0 <= k < |es| - 1 ==> es[1..][k] == es[k + 1];
      DescriptorsDistinct(Step(st, es[0]), es[1..]);
    }
  }

  lemma StepDescriptors(st: FsState, e: Event)
    requires DistinctIndices(st.files) && !e.CreateFile?
    ensures DistinctIndices(Step(st, e).files)
  {
    if e.CreateNamed? {
      var fd := NextFd(st.files, 1);
      forall i | 0 <= i < |st.files| ensures st.files[i].index != fd {
        assert st.files[i] in st.files;
      }
    }
  }

  // ---------- chains ----------

  lemma {:induction false} TwiceCounted(xs: seq<int>, k: nat, l: nat)
    requires k < l < |xs| && xs[k] == xs[l]
    ensures multiset(xs)[xs[k]] >= 2
  {
    assert xs == xs[..l] + xs[l..];
    assert xs[..l][k] == xs[k] && xs[l..][0] == xs[l];
    assert xs[k] in multiset(xs[..l]) && xs[k] in multiset(xs[l..]);
  }

  lemma {:induction false} OneOfSum(c: seq<nat>, i: nat)
    requires i < |c|
    ensures Sum(c) >= c[i]
  {
    if i == 0 {
    } else {
      OneOfSum(c[1..], i - 1);
    }
  }

  lemma {:induction false} TwoOfSum(c: seq<nat>, i: nat, j: nat)
    requires i < j < |c|
    ensures Sum(c) >= c[i] + c[j]
  {
    if i == 0 {
      OneOfSum(c[1..], j - 1);
    } else {
      TwoOfSum(c[1..], i - 1, j - 1);
    }
  }

  lemma ChainCounted(fs: seq<File>, i: nat, b: int)
    requires i < |fs|
    ensures multiset(Flatten(fs))[b] >= multiset(fs[i].chain)[b]
  {
    FlattenSum(fs, b);
    OneOfSum(Counts(fs, b), i);
  }

  lemma ChainsCounted(fs: seq<File>, i: nat, j: nat, b: int)
    requires i < j < |fs|
    ensures multiset(Flatten(fs))[b] >= multiset(fs[i].chain)[b] + multiset(fs[j].chain)[b]
  {
    FlattenSum(fs, b);
    TwoOfSum(Counts(fs, b), i, j);
  }

  ghost predicate InTable(xs: seq<int>) {
    forall k :: 0 <= k < |xs| ==> 0 <= xs[k] < BLOCKS
  }

  ghost predicate NoneShared(xs: seq<int>, ys: seq<int>) {
    forall b :: b in xs ==> b !in ys
  }

  lemma AtMostOnce(st: FsState, b: int)
    requires Good(st)
    ensures AllBlocks(st)[b] <= InTableOnce(b)
  {
  }

  lemma GoodFree(st: FsState)
    requires Good(st)
    ensures InTable(st.free) && DistinctInts(st.free)
  {
    forall k | 0 <= k < |st.free| ensures 0 <= st.free[k] < BLOCKS { AtMostOnce(st, st.free[k]); }
    forall k, l | 0 <= k < l < |st.free| ensures st.free[k] != st.free[l] {
      AtMostOnce(st, st.free[k]);
      if st.free[k] == st.free[l] { TwiceCounted(st.free, k, l); }
    }
  }

  lemma GoodChain(st: FsState, i: nat)
    requires Good(st) && i < |st.files|
    ensures var c := st.files[i].chain; InTable(c) && DistinctInts(c) && NoneShared(st.free, c)
  {
    var c := st.files[i].chain;
    forall k | 0 <= k < |c| ensures 0 <= c[k] < BLOCKS {
      AtMostOnce(st, c[k]);
      ChainCounted(st.files, i, c[k]);
    }
    forall k, l | 0 <= k < l < |c| ensures c[k] != c[l] {
      AtMostOnce(st, c[k]);
      ChainCounted(st.files, i, c[k]);
      if c[k] == c[l] { TwiceCounted(c, k, l); }
    }
    forall b | b in st.free ensures b !in c {
      AtMostOnce(st, b);
      ChainCounted(st.files, i, b);
    }
  }

  lemma GoodChains(st: FsState, i: nat, j: nat)
    requires Good(st) && i < |st.files| && j < |st.files| && i != j
    ensures NoneShared(st.files[i].chain, st.files[j].chain)
  {
    forall b | b in st.files[i].chain ensures b !in st.files[j].chain {
      AtMostOnce(st, b);
      ChainsCounted(st.files, if i < j then i else j, if i < j then j else i, b);
    }
  }

  /** Dropping free blocks from the books keeps the rest good. */
  lemma ShrinkGood(st: FsState, n: nat)
    requires Good(st) && n <= |st.free|
    ensures Good(st.(free := st.free[n..]))
  {
    var t := st.(free := st.free[n..]);
    assert st.free == st.free[..n] + st.free[n..];
    assert multiset(st.free) == multiset(st.free[..n]) + multiset(st.free[n..]);
    forall b ensures AllBlocks(t)[b] <= InTableOnce(b) { assert AllBlocks(st)[b] <= InTableOnce(b); }
  }

  /** The blocks just taken are in neither the free list nor a file. */
  lemma LooseBlocks(st: FsState, n: int)
    requires Good(st) && 0 < n <= |st.free|
    ensures NoneShared(st.free[n..], st.free[..n])
    ensures forall f :: f in st.files ==> NoneShared(f.chain, st.free[..n])
  {
    GoodFree(st);
    forall f | f in st.files ensures NoneShared(f.chain, st.free[..n]) {
      var i :| 0 <= i < |st.files| && st.files[i] == f;
      GoodChain(st, i);
    }
  }

  lemma AppendGood(st: FsState, pid: int, index: int, n: int)
    requires Good(st)
    ensures Good(Append(st, pid, index, n).0)
  {
    var t := Append(st, pid, index, n).0;
    AppendBlocks(st, pid, index, n);
    forall b ensures AllBlocks(t)[b] <= InTableOnce(b) { assert AllBlocks(st)[b] <= InTableOnce(b); }
  }

  lemma {:induction false} FilesFit(fs: seq<File>)
    requires forall i :: 0 <= i < |fs| ==> fs[i].chain != []
    ensures |fs| <= |Flatten(fs)|
  {
    if fs == [] {
    } else {
      assert forall i :: 0 <= i < |fs| - 1 ==> fs[1..][i] == fs[i + 1];
      FilesFit(fs[1..]);
    }
  }

  /** Files with a block each are no more than the blocks. */
  lemma FileCount(st: FsState)
    requires Good(st) && forall i :: 0 <= i < |st.files| ==> st.files[i].chain != []
    ensures |st.files| <= BLOCKS
  {
    FilesFit(st.files);
    Bounded(AllBlocks(st));
  }

  // ---------- contents ----------

  type Disk = map<int, seq<int>>

  const FIRST_SECTOR := STORAGE_BASE / SECTOR_BYTES

  function Sector(disk: Disk, k: int): seq<int> {
    if k in disk then disk[k] else []
  }

  /** What is stored in the blocks of a chain, in order. */
  function Content(disk: Disk, chain: seq<int>): seq<seq<int>> {
    seq(|chain|, k requires 0 <= k < |chain| => Sector(disk, FIRST_SECTOR + chain[k]))
  }

  /** The disk after data has been written to blocks, one after the other. */
  function Written(disk: Disk, blocks: seq<int>, data: seq<seq<int>>): Disk
    requires |blocks| <= |data|
  {
    if blocks == [] then disk
    else Written(disk, blocks[..|blocks| - 1], data)[FIRST_SECTOR + blocks[|blocks| - 1] := data[|blocks| - 1]]
  }

  lemma {:induction false} WrittenElsewhere(disk: Disk, blocks: seq<int>, data: seq<seq<int>>, k: int)
    requires |blocks| <= |data| && k - FIRST_SECTOR !in blocks
    ensures Sector(Written(disk, blocks, data), k) == Sector(disk, k)
  {
    if blocks == [] {
    } else {
      assert blocks[|blocks| - 1] in blocks;
      WrittenElsewhere(disk, blocks[..|blocks| - 1], data, k);
    }
  }

  lemma {:induction false} WrittenAt(disk: Disk, blocks: seq<int>, data: seq<seq<int>>, k: nat)
    requires |blocks| <= |data| && k < |blocks| && DistinctInts(blocks)
    ensures Sector(Written(disk, blocks, data), FIRST_SECTOR + blocks[k]) == data[k]
  {
    if k == |blocks| - 1 {
    } else {
      WrittenAt(disk, blocks[..|blocks| - 1], data, k);
    }
  }

  lemma ContentConcat(disk: Disk, a: seq<int>, b: seq<int>)
    ensures Content(disk, a + b) == Content(disk, a) + Content(disk, b)
  {
  }

  lemma ContentSame(disk: Disk, blocks: seq<int>, data: seq<seq<int>>, chain: seq<int>)
    requires |blocks| <= |data| && NoneShared(blocks, chain)
    ensures Content(Written(disk, blocks, data), chain) == Content(disk, chain)
  {
    var d := Written(disk, blocks, data);
    forall k | 0 <= k < |chain| ensures Content(d, chain)[k] == Content(disk, chain)[k] {
      assert chain[k] in chain;
      WrittenElsewhere(disk, blocks, data, FIRST_SECTOR + chain[k]);
    }
  }

  lemma WrittenContent(disk: Disk, blocks: seq<int>, data: seq<seq<int>>)
    requires |blocks| <= |data| && DistinctInts(blocks)
    ensures Content(Written(disk, blocks, data), blocks) == data[..|blocks|]
  {
    var d := Written(disk, blocks, data);
    forall k | 0 <= k < |blocks| ensures Content(d, blocks)[k] == data[k] { WrittenAt(disk, blocks, data, k); }
  }

  /** The blocks an append takes are distinct, and in no file. */
  lemma TakenBlocks(st: FsState, n: int)
    requires Good(st) && 0 < n <= |st.free|
    ensures DistinctInts(st.free[..n]) && InTable(st.free[..n])
    ensures forall i :: 0 <= i < |st.files| ==> NoneShared(st.free[..n], st.files[i].chain)
  {
    GoodFree(st);
    forall i | 0 <= i < |st.files| ensures NoneShared(st.free[..n], st.files[i].chain) { GoodChain(st, i); }
  }

  lemma AppendedContent(st: FsState, disk: Disk, i: nat, n: int, data: seq<seq<int>>)
    requires Good(st) && i < |st.files| && 0 < n <= |st.free| && |data| >= n
    ensures var c := st.files[i].chain; var blocks := st.free[..n]; var d := Written(disk, blocks, data);
      Content(d, c) == Content(disk, c) && Content(d, c + blocks) == Content(disk, c) + data[..n]
  {
    var c, blocks := st.files[i].chain, st.free[..n];
    TakenBlocks(st, n);
    ContentSame(disk, blocks, data, c);
    ContentConcat(Written(disk, blocks, data), c, blocks);
    WrittenContent(disk, blocks, data);
  }

  /** A successful append makes the file's contents the old ones followed by the data, and
      changes neither the record nor the contents of any other file. */
  lemma AppendContents(st: FsState, disk: Disk, pid: int, index: int, n: int, data: seq<seq<int>>)
    requires Good(st) && Append(st, pid, index, n).1 == 0 && |data| >= n
    ensures 0 < n <= |st.free|
    ensures var t := Append(st, pid, index, n).0; var d := Written(disk, st.free[..n], data);
      && |t.files| == |st.files|
      && forall j :: 0 <= j < |st.files| ==>
           if j == Find(st.files, index) then
             t.files[j] == st.files[j].(chain := t.files[j].chain)
               && Content(d, t.files[j].chain) == Content(disk, st.files[j].chain) + data[..n]
           else
             t.files[j] == st.files[j] && Content(d, t.files[j].chain) == Content(disk, st.files[j].chain)
  {
    var i := Find(st.files, index);
    forall j | 0 <= j < |st.files| {
      AppendedContent(st, disk, j, n, data);
    }
  }

  /** What read_datablock returns: the blocks from pos on that the file has, none if the file is
      missing or in use. */
  function ReadResult(st: FsState, disk: Disk, pid: int, index: int, pos: nat, size: nat): seq<seq<int>> {
    var i := Find(st.files, index);
    if i == |st.files| || !MayUse(st.files[i], pid) || pos > |st.files[i].chain| then []
    else
      var c := st.files[i].chain;
      Content(disk, c[pos..if pos + size < |c| then pos + size else |c|])
  }

  lemma ContentSlice(disk: Disk, chain: seq<int>, lo: nat, hi: nat)
    requires lo <= hi <= |chain|
    ensures Content(disk, chain[lo..hi]) == Content(disk, chain)[lo..hi]
  {
  }

  /** Reading after an append: the blocks from the old end on are exactly the data appended. */
  lemma ReadBack(st: FsState, disk: Disk, pid: int, index: int, n: int, data: seq<seq<int>>)
    requires Good(st) && Append(st, pid, index, n).1 == 0 && |data| >= n
    ensures 0 < n <= |st.free|
    ensures var i := Find(st.files, index);
      && i < |st.files|
      && var t, d := Append(st, pid, index, n).0, Written(disk, st.free[..n], data);
         ReadResult(t, d, pid, index, |st.files[i].chain|, n) == data[..n]
  {
    AppendContents(st, disk, pid, index, n, data);
    var i := Find(st.files, index);
    var t, d := Append(st, pid, index, n).0, Written(disk, st.free[..n], data);
    FindAfterAppend(st.files, i, st.free[..n], index);
    var c, old_ := t.files[i].chain, st.files[i].chain;
    ContentSlice(d, c, |old_|, |c|);
    assert Content(d, c)[|old_|..] == data[..n];
  }

  lemma {:induction false} FindAfterAppend(fs: seq<File>, i: nat, blocks: seq<int>, index: int)
    requires i < |fs| && i == Find(fs, index)
    ensures Find(fs[i := fs[i].(chain := fs[i].chain + blocks)], index) == i
  {
    var gs := fs[i := fs[i].(chain := fs[i].chain + blocks)];
    if i == 0 {
    } else {
      FindAfterAppend(fs[1..], i - 1, blocks, index);
      assert gs[1..] == fs[1..][i - 1 := fs[i].(chain := fs[i].chain + blocks)];
    }
  }
}
