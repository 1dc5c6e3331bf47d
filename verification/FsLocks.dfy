/** What opening a file is for: while one process has it open no other can use it. */
module FsLocks {
  import opened Basics
  import opened FsSpec

  /** The file found under this number is open, and pid opened it. */
  predicate OpenBy(st: FsState, index: int, pid: int) {
    var i := Find(st.files, index);
    i < |st.files| && pid != -1 && st.files[i].occupied == pid
  }

  predicate Closed(st: FsState, index: int) {
    var i := Find(st.files, index);
    i < |st.files| && st.files[i].occupied == -1
  }

  /** The number is a file's, and it is closed or pid has it open. */
  predicate Usable(st: FsState, index: int, pid: int) {
    Closed(st, index) || OpenBy(st, index, pid)
  }

  // ---------- one call ----------

  /** The calls a process can make on an open file, by what they return to another process q. */
  ghost predicate ShutOut(st: FsState, index: int, q: int) {
    && SetOccupied(st, q, index, q) == (st, -2)
    && SetOccupied(st, q, index, -1) == (st, -2)
    && (forall n :: Append(st, q, index, n).1 == if 0 < n <= |st.free| then -3 else -1)
    && (forall n :: Append(st, q, index, n).0.files == st.files)
    && (forall disk, pos: nat, size: nat :: ReadResult(st, disk, q, index, pos, size) == [])
  }

  /** p reads what the file has from pos on, as much as it asks for. */
  ghost predicate Reads(st: FsState, index: int, p: int, disk: Disk, pos: nat, size: nat) {
    var i := Find(st.files, index);
    i < |st.files| && pos <= |st.files[i].chain| ==>
      var content := Content(disk, st.files[i].chain)[pos..];
      ReadResult(st, disk, p, index, pos, size) == content[..if size < |content| then size else |content|]
  }

  /** The same calls of a process that may make them. */
  ghost predicate LetIn(st: FsState, index: int, p: int) {
    && SetOccupied(st, p, index, p).1 == 0 && OpenBy(SetOccupied(st, p, index, p).0, index, p)
    && SetOccupied(st, p, index, -1).1 == 0 && Closed(SetOccupied(st, p, index, -1).0, index)
    && (forall n :: if 0 < n <= |st.free| then Append(st, p, index, n).1 == 0 else Append(st, p, index, n) == (st, -1))
    && (forall disk, pos: nat, size: nat :: Reads(st, index, p, disk, pos, size))
  }

  lemma {:induction false} FindSame(fs: seq<File>, i: nat, f: File, index: int)
    requires i < |fs| && f.index == fs[i].index
    ensures Find(fs[i := f], index) == Find(fs, index)
  {
    if i == 0 || fs[0].index == index {
    } else {
      assert fs[i := f][1..] == fs[1..][i - 1 := f];
      FindSame(fs[1..], i - 1, f, index);
    }
  }

  lemma ReadsContent(st: FsState, disk: Disk, p: int, index: int, pos: nat, size: nat)
    requires Usable(st, index, p)
    ensures Reads(st, index, p, disk, pos, size)
  {
    var c := st.files[Find(st.files, index)].chain;
    if pos <= |c| {
      var m := if pos + size < |c| then pos + size else |c|;
      ContentSlice(disk, c, pos, m);
      assert Content(disk, c)[pos..m] == Content(disk, c)[pos..][..m - pos];
    }
  }

  /** A file lets a process in exactly if it is closed or the process has it open; everybody else is
      shut out of an open file. */
  lemma OneCall(st: FsState, index: int, p: int)
    requires p != -1 && Find(st.files, index) < |st.files|
    ensures Usable(st, index, p) ==> LetIn(st, index, p)
    ensures !Usable(st, index, p) ==> ShutOut(st, index, p)
  {
    var i := Find(st.files, index);
    FindSame(st.files, i, st.files[i].(occupied := p), index);
    FindSame(st.files, i, st.files[i].(occupied := -1), index);
    if Usable(st, index, p) {
      forall disk, pos: nat, size: nat ensures Reads(st, index, p, disk, pos, size) {
        ReadsContent(st, disk, p, index, pos, size);
      }
    }
  }

  /** A call for a number no file has is refused, and gets nothing. */
  lemma Missing(st: FsState, index: int, p: int)
    requires Find(st.files, index) == |st.files|
    ensures forall mark :: SetOccupied(st, p, index, mark) == (st, -1)
    ensures forall n :: Append(st, p, index, n).1 == if 0 < n <= |st.free| then -2 else -1
    ensures forall n :: Append(st, p, index, n).0.files == st.files
    ensures forall disk, pos: nat, size: nat :: ReadResult(st, disk, p, index, pos, size) == []
  {
  }

  // ---------- over runs ----------

  /** An event that closes the file for p. */
  predicate Closes(e: Event, index: int, p: int) {
    e == CloseFile(p, index)
  }

  /** An append to the file by p, the only thing that changes its record. */
  predicate Extends(e: Event, index: int, p: int) {
    e.AppendFile? && e.pid == p && e.index == index
  }

  /** A creation under the same number, which puts the new file in front of the old one. */
  predicate Hides(e: Event, index: int) {
    e.CreateFile? && e.index == index
  }

  ghost predicate NoneHides(es: seq<Event>, index: int) {
    forall e :: e in es ==> !Hides(e, index)
  }

  /** What was under this number is found under it again, one place further on after a creation. */
  lemma StepFind(st: FsState, e: Event, index: int)
    requires Find(st.files, index) < |st.files| && !Hides(e, index)
    ensures
      var t := Step(st, e);
      Find(t.files, index) == Find(st.files, index) + (if e.CreateNamed? || e.CreateFile? then 1 else 0) < |t.files|
  {
    var i := Find(st.files, index);
    match e
    case OpenFile(pid, k) => SameFind(st, Step(st, e), Find(st.files, k), index);
    case CloseFile(pid, k) => SameFind(st, Step(st, e), Find(st.files, k), index);
    case AppendFile(pid, k, n) => SameFind(st, Step(st, e), Find(st.files, k), index);
    case CreateNamed(name) =>
      var fd := NextFd(st.files, 1);
      assert st.files[i] in st.files && fd != index;
      assert Step(st, e).files[1..] == st.files;
    case CreateFile(k, name) => assert Step(st, e).files[1..] == st.files;
  }

  lemma SameFind(st: FsState, t: FsState, k: nat, index: int)
    requires
      || t.files == st.files
      || (k < |st.files| && exists f: File :: f.index == st.files[k].index && t.files == st.files[k := f])
    ensures Find(t.files, index) == Find(st.files, index) && |t.files| == |st.files|
  {
    if t.files != st.files {
      var f: File :| f.index == st.files[k].index && t.files == st.files[k := f];
      FindSame(st.files, k, f, index);
    }
  }

  /** No step but p's own close opens the file to others, and none but p's own calls change it. */
  lemma StepHeld(st: FsState, e: Event, index: int, p: int)
    requires OpenBy(st, index, p) && !Hides(e, index) && !Closes(e, index, p)
    ensures OpenBy(Step(st, e), index, p)
    ensures !Extends(e, index, p) ==>
      Step(st, e).files[Find(Step(st, e).files, index)] == st.files[Find(st.files, index)]
  {
    StepFind(st, e, index);
    var i := Find(st.files, index);
    match e
    case OpenFile(pid, k) => OtherFile(st, k, index);
    case CloseFile(pid, k) => OtherFile(st, k, index);
    case AppendFile(pid, k, n) => OtherFile(st, k, index);
    case CreateNamed(name) => assert Step(st, e).files[i + 1] == st.files[i];
    case CreateFile(k, name) => assert Step(st, e).files[i + 1] == st.files[i];
  }

  lemma OtherFile(st: FsState, k: int, index: int)
    ensures k != index && Find(st.files, index) < |st.files| ==> Find(st.files, k) != Find(st.files, index)
  {
  }

  /** While p does not close the file, whatever others do it stays p's: everyone else is shut out, and
      p is let in. */
  lemma {:induction false} Exclusive(st: FsState, es: seq<Event>, index: int, p: int, q: int)
    requires OpenBy(st, index, p) && NoneHides(es, index) && CloseFile(p, index) !in es && q != -1
    ensures OpenBy(After(st, es), index, p) && LetIn(After(st, es), index, p)
    ensures q != p ==> ShutOut(After(st, es), index, q)
    decreases |es|
  {
    if es == [] {
      OneCall(st, index, p);
      OneCall(st, index, q);
    } else {
      assert es[0] in es && !Hides(es[0], index);
      StepHeld(st, es[0], index, p);
      Exclusive(Step(st, es[0]), es[1..], index, p, q);
    }
  }

  /** And unless p extends the file itself its record stays as it was. */
  lemma {:induction false} Untouched(st: FsState, es: seq<Event>, index: int, p: int)
    requires OpenBy(st, index, p) && NoneHides(es, index) && CloseFile(p, index) !in es
    requires forall e :: e in es ==> !Extends(e, index, p)
    ensures Find(After(st, es).files, index) < |After(st, es).files|
    ensures After(st, es).files[Find(After(st, es).files, index)] == st.files[Find(st.files, index)]
    decreases |es|
  {
    if es == [] {
    } else {
      assert es[0] in es && !Hides(es[0], index);
      StepHeld(st, es[0], index, p);
      Untouched(Step(st, es[0]), es[1..], index, p);
    }
  }

  /** The disk after an event, data being what an append writes. */
  function StepDisk(st: FsState, disk: Disk, e: Event, data: seq<seq<int>>): Disk {
    if e.AppendFile? && 0 < e.blocks <= |st.free| && e.blocks <= |data| && Append(st, e.pid, e.index, e.blocks).1 == 0
    then Written(disk, st.free[..e.blocks], data)
    else disk
  }

  function AfterDisk(st: FsState, disk: Disk, es: seq<Event>, ds: seq<seq<seq<int>>>): Disk
    requires |es| == |ds|
    decreases |es|
  {
    if es == [] then disk else AfterDisk(Step(st, es[0]), StepDisk(st, disk, es[0], ds[0]), es[1..], ds[1..])
  }

  lemma StepGood(st: FsState, e: Event)
    requires Good(st)
    ensures Good(Step(st, e))
  {
    StepBlocks(st, e);
    forall b ensures AllBlocks(Step(st, e))[b] <= InTableOnce(b) { assert AllBlocks(st)[b] <= InTableOnce(b); }
  }

  lemma StepContent(st: FsState, disk: Disk, e: Event, data: seq<seq<int>>, i: nat)
    requires Good(st) && i < |st.files|
    ensures Content(StepDisk(st, disk, e, data), st.files[i].chain) == Content(disk, st.files[i].chain)
  {
    if StepDisk(st, disk, e, data) != disk { AppendedContent(st, disk, i, e.blocks, data); }
  }

  /** What the file holds stays as it was too, whatever others write to theirs. */
  lemma {:induction false} ContentUntouched(st: FsState, disk: Disk, es: seq<Event>, ds: seq<seq<seq<int>>>,
                                            index: int, p: int)
    requires Good(st) && |es| == |ds| && OpenBy(st, index, p) && NoneHides(es, index) && CloseFile(p, index) !in es
    requires forall e :: e in es ==> !Extends(e, index, p)
    ensures
      var c := st.files[Find(st.files, index)].chain;
      Content(AfterDisk(st, disk, es, ds), c) == Content(disk, c)
    decreases |es|
  {
    if es == [] {
    } else {
      assert es[0] in es && !Hides(es[0], index);
      StepHeld(st, es[0], index, p);
      StepGood(st, es[0]);
      StepContent(st, disk, es[0], ds[0], Find(st.files, index));
      ContentUntouched(Step(st, es[0]), StepDisk(st, disk, es[0], ds[0]), es[1..], ds[1..], index, p);
    }
  }

  /** From an open to the close: when p's open succeeds the file was closed or p's, from then on it is
      p's alone, and after p's close any process can open it. */
  lemma OpenToClose(st: FsState, es: seq<Event>, index: int, p: int, q: int)
    requires p != -1 && q != -1 && NoneHides(es, index) && CloseFile(p, index) !in es
    requires SetOccupied(st, p, index, p).1 == 0
    ensures Usable(st, index, p)
    ensures
      var t := After(Step(st, OpenFile(p, index)), es);
      && LetIn(t, index, p) && (q != p ==> ShutOut(t, index, q))
      && Closed(Step(t, CloseFile(p, index)), index) && LetIn(Step(t, CloseFile(p, index)), index, q)
  {
    OneCall(st, index, p);
    var s := Step(st, OpenFile(p, index));
    Exclusive(s, es, index, p, q);
    var t := After(s, es);
    OneCall(Step(t, CloseFile(p, index)), index, q);
  }

  /** A file just created is closed. */
  lemma CreatedClosed(st: FsState, index: int, name: seq<int>)
    ensures Closed(Create(st, index, name), index) && Find(Create(st, index, name).files, index) == 0
    ensures Create(st, index, name).files[0].chain == []
  {
  }
}
