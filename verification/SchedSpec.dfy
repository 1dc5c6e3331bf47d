/** kern/sched as functions on the scheduler's state: six queues of process numbers, the process
    records, and the registers of the processor. */
module SchedSpec {
  import opened Machine

  const MAX_PCB := 0x1000
  const TIMER_IRQ := 29

  datatype Status = NEW | READY | RUNNING | WAIT | ZOMBIE | ABORT

  /** A register context; regs holds r1 to r12, cpsr, spsr, sp and lr. */
  datatype Context = Context(r0: int, regs: seq<int>, pc: int)

  datatype Process = Process(pid: int, ppid: int, status: Status, pageTable: int, cpu: Context)

  /** live is what the processor goes on with; freed are the processes sched_free let go. */
  datatype State = State(queues: map<Status, seq<nat>>, procs: seq<Process>, freed: set<nat>, live: Context)

  const ZEROED := Context(0, [0, 0, 0, 0, 0, 0, 0, 0, 0, 0, 0, 0, 0, 0, 0, 0], 0)       // what memset leaves

  function Q(s: State, st: Status): seq<nat> {
    if st in s.queues then s.queues[st] else []
  }

  // ---------- queues ----------

  /** queue_pop: the queue without its first entry for p. */
  function Without<T(==)>(q: seq<T>, p: T): seq<T> {
    if q == [] then []
    else if q[0] == p then q[1..]
    else [q[0]] + Without(q[1..], p)
  }

  predicate Differ<T(==)>(q: seq<T>, i: int, j: int)
    requires 0 <= i < j < |q|
  {
    q[i] != q[j]
  }

  ghost predicate Unique<T>(q: seq<T>) {
    forall i, j :: 0 <= i < j < |q| ==> Differ(q, i, j)
  }

  lemma UniqueIndex<T>(q: seq<T>, i: nat, j: nat)
    requires Unique(q) && i < |q| && j < |q| && q[i] == q[j]
    ensures i == j
  {
    assert i < j ==> Differ(q, i, j);
    assert j < i ==> Differ(q, j, i);
  }

  /** Removal closes the gap and keeps the order of the others. */
  lemma {:induction false} WithoutAt<T>(q: seq<T>, i: nat)
    requires i < |q| && forall j :: 0 <= j < i ==> q[j] != q[i]
    ensures Without(q, q[i]) == q[..i] + q[i + 1..]
  {
    if i == 0 {
    } else {
      WithoutAt(q[1..], i - 1);
      assert q[1..][i - 1] == q[i] && q[0] != q[i];
      assert q[..i] == [q[0]] + q[1..][..i - 1] && q[1..][i..] == q[i + 1..];
    }
  }

  lemma {:induction false} WithoutNone<T>(q: seq<T>, p: T)
    requires p !in q
    ensures Without(q, p) == q
  {
    if q == [] {
    } else {
      assert q[0] in q && forall x :: x in q[1..] ==> x in q;
      WithoutNone(q[1..], p);
    }
  }

  lemma WithoutMembers(q: seq<nat>, p: nat)
    requires Unique(q)
    ensures Unique(Without(q, p)) && forall x :: x in Without(q, p) <==> x in q && x != p
  {
    if p in q {
      var i :| 0 <= i < |q| && q[i] == p;
      FirstAt(q, i);
      WithoutAt(q, i);
      ClosedGap(q, i);
    } else {
      WithoutNone(q, p);
    }
  }

  /** Leaving out one element of a sequence without repetition leaves out exactly that element. */
  lemma ClosedGap(q: seq<nat>, i: nat)
    requires Unique(q) && i < |q|
    ensures
      var r := q[..i] + q[i + 1..];
      Unique(r) && forall x :: x in r <==> x in q && x != q[i]
  {
    var r := q[..i] + q[i + 1..];
    forall j, k | 0 <= j < k < |r| ensures Differ(r, j, k) {
      assert Differ(q, if j < i then j else j + 1, if k < i then k else k + 1);
    }
    forall j | 0 <= j < |r| ensures r[j] != q[i] {
      assert Differ(q, if j < i then j else i, if j < i then i else j + 1);
    }
    forall x | x in q && x != q[i] ensures x in r {
      var j :| 0 <= j < |q| && q[j] == x;
      assert if j < i then r[j] == x else r[j - 1] == x;
    }
  }

  lemma FirstAt<T>(q: seq<T>, i: nat)
    requires Unique(q) && i < |q|
    ensures forall j :: 0 <= j < i ==> q[j] != q[i]
  {
    forall j | 0 <= j < i ensures q[j] != q[i] { assert Differ(q, j, i); }
  }

  // ---------- transitions ----------

  function SetStatus(s: State, p: nat, to: Status): State
    requires p < |s.procs|
  {
    s.(procs := s.procs[p := s.procs[p].(status := to)])
  }

  function Push(s: State, st: Status, p: nat): State {
    s.(queues := s.queues[st := Q(s, st) + [p]])
  }

  function Pop(s: State, st: Status, p: nat): State {
    s.(queues := s.queues[st := Without(Q(s, st), p)])
  }

  /** sched_mature, sched_allow, sched_block, sched_preempt, sched_wake and sched_finish. */
  function Move(s: State, p: nat, from: Status, to: Status): State
    requires p < |s.procs|
  {
    SetStatus(Push(Pop(s, from, p), to, p), p, to)
  }

  /** sched_kill leaves the queue of NEW, READY, RUNNING and WAIT, and no other. */
  function Kill(s: State, p: nat): State
    requires p < |s.procs|
  {
    var st := s.procs[p].status;
    SetStatus(Push(if st in {NEW, READY, RUNNING, WAIT} then Pop(s, st, p) else s, ABORT, p), p, ABORT)
  }

  function Free(s: State, p: nat): State {
    Pop(s, ZOMBIE, p).(freed := s.freed + {p})
  }

  /** new_pcb. */
  function New(s: State): State {
    var p := |s.procs|;
    Push(s.(procs := s.procs + [Process(p, 0, NEW, 0, ZEROED)]), NEW, p)
  }

  // ---------- switching ----------

  function Save(s: State, p: nat, c: Context): State
    requires p < |s.procs|
  {
    s.(procs := s.procs[p := s.procs[p].(cpu := c)])
  }

  /** What an interrupt leaves in the context: the address to resume at plus four. */
  function Trapped(c: Context): Context {
    c.(pc := (c.pc + 4) % WORD_RANGE)
  }

  function Current(s: State): nat
    requires Q(s, RUNNING) != []
  {
    Q(s, RUNNING)[0]
  }

  predicate ReadyKnown(s: State) {
    forall p :: p in Q(s, READY) ==> p < |s.procs|
  }

  /** int_ent_irq: the trap is saved with the running process; on the timer, sched_main. */
  function Irq(s: State, id: int): State
    requires Q(s, RUNNING) != [] && Current(s) < |s.procs| && ReadyKnown(s)
  {
    var from := Current(s);
    var t := Save(s, from, Trapped(s.live));
    assert Q(t, READY) == Q(s, READY);
    if id == TIMER_IRQ then SchedMain(t, from) else t
  }

  function SchedMain(s: State, from: nat): State
    requires from < |s.procs| && ReadyKnown(s)
  {
    var t := Move(s, from, RUNNING, READY);
    assert Q(t, READY) == Q(s, READY) + [from];
    var to := Q(t, READY)[0];
    assert Q(s, READY) != [] ==> to in Q(s, READY);
    ContextSwitch(Move(t, to, READY, RUNNING), from, to)
  }

  /** switch_to: the first copy is done when the second is made, so a process may follow itself. */
  function ContextSwitch(s: State, from: nat, to: nat): State
    requires from < |s.procs| && to < |s.procs|
  {
    var t := Save(s, from, s.live);
    t.(live := t.procs[to].cpu)
  }

  /** The svc entry and _fork, with a page table for the child. */
  function Fork(s: State, table: int): State
    requires Q(s, RUNNING) != [] && Current(s) < |s.procs|
  {
    var f := Current(s);
    Forked(New(Save(s, f, s.live)), f, |s.procs|, table)
  }

  /** _fork after new_pcb: the copy, its own numbers, the ready queue, and the return values. */
  function Forked(t: State, f: nat, c: nat, table: int): State
    requires f < |t.procs| && c < |t.procs|
  {
    var pid := t.procs[c].pid;
    var copy := t.procs[f].(pid := pid, ppid := t.procs[f].pid, pageTable := table);
    Returns(Move(t.(procs := t.procs[c := copy]), c, NEW, READY), f, c)
  }

  function Returns(u: State, f: nat, c: nat): State
    requires f < |u.procs| && c < |u.procs|
  {
    var v := Save(u, f, u.procs[f].cpu.(r0 := u.procs[c].pid));
    Save(v, c, v.procs[c].cpu.(r0 := 0)).(live := u.live.(r0 := u.procs[c].pid))
  }

  /** Any other system call, or the running program itself: the registers change. */
  function Compute(s: State, saved: bool, regs: Context): State
    requires Q(s, RUNNING) != [] && Current(s) < |s.procs|
  {
    (if saved then Save(s, Current(s), s.live) else s).(live := regs)
  }

  // ---------- invariant ----------

  ghost predicate QueueOk(s: State, st: Status) {
    && Unique(Q(s, st))
    && forall p :: p in Q(s, st) ==> p < |s.procs| && s.procs[p].status == st && p !in s.freed
  }

  ghost predicate ProcOk(s: State, p: nat)
    requires p < |s.procs|
  {
    && s.procs[p].pid == p
    && (if p in s.freed then s.procs[p].status == ZOMBIE else p in Q(s, s.procs[p].status))
  }

  /** A process not freed is in the queue of its status, once, and in no other queue. */
  ghost predicate Inv(s: State) {
    && (forall st :: QueueOk(s, st))
    && (forall p: nat :: p < |s.procs| ==> ProcOk(s, p))
    && (forall p :: p in s.freed ==> p < |s.procs|)
  }

  /** Read off the invariant: one queue, and one place in it. */
  lemma OneQueue(s: State, p: nat, st: Status)
    requires Inv(s) && p < |s.procs|
    ensures p in Q(s, st) <==> p !in s.freed && s.procs[p].status == st
    ensures multiset(Q(s, st))[p] <= 1
    ensures forall q: nat :: q < |s.procs| && s.procs[q].pid == s.procs[p].pid ==> q == p
  {
    assert QueueOk(s, st) && ProcOk(s, p);
    OnlyOnce(Q(s, st), p);
    forall q: nat | q < |s.procs| && s.procs[q].pid == s.procs[p].pid ensures q == p { assert ProcOk(s, q); }
  }

  lemma SomeQueue(s: State, p: nat)
    requires Inv(s) && p < |s.procs|
    ensures p !in s.freed <==>
      p in Q(s, NEW) || p in Q(s, READY) || p in Q(s, RUNNING) || p in Q(s, WAIT) || p in Q(s, ZOMBIE)
        || p in Q(s, ABORT)
  {
    OneQueue(s, p, NEW);
    OneQueue(s, p, READY);
    OneQueue(s, p, RUNNING);
    OneQueue(s, p, WAIT);
    OneQueue(s, p, ZOMBIE);
    OneQueue(s, p, ABORT);
  }

  lemma {:induction false} OnlyOnce(q: seq<nat>, p: nat)
    requires Unique(q)
    ensures multiset(q)[p] <= 1
  {
    if q == [] {
    } else {
      forall i, j | 0 <= i < j < |q| - 1 ensures Differ(q[1..], i, j) { assert Differ(q, i + 1, j + 1); }
      OnlyOnce(q[1..], p);
      assert q == [q[0]] + q[1..];
      forall j | 0 <= j < |q| - 1 ensures q[1..][j] != q[0] { assert Differ(q, 0, j + 1); }
      assert q[0] !in q[1..];
    }
  }

  lemma PopQueues(s: State, st: Status, p: nat)
    requires QueueOk(s, st)
    ensures forall t :: Q(Pop(s, st, p), t) == if t == st then Without(Q(s, st), p) else Q(s, t)
    ensures Unique(Q(Pop(s, st, p), st)) && forall x :: x in Q(Pop(s, st, p), st) <==> x in Q(s, st) && x != p
  {
    WithoutMembers(Q(s, st), p);
  }

  lemma PushQueues(s: State, st: Status, p: nat)
    ensures forall t :: Q(Push(s, st, p), t) == if t == st then Q(s, st) + [p] else Q(s, t)
  {
  }

  lemma PushUnique<T>(q: seq<T>, p: T)
    ensures Unique(q + [p]) <==> Unique(q) && p !in q
  {
    var r := q + [p];
    if Unique(q) && p !in q {
      forall i, j | 0 <= i < j < |r| ensures Differ(r, i, j) {
        assert r[i] in q;
        assert j < |q| ==> Differ(q, i, j);
      }
    }
    if Unique(r) {
      forall i, j | 0 <= i < j < |q| ensures Differ(q, i, j) { assert Differ(r, i, j); }
    }
    if p in q {
      var i :| 0 <= i < |q| && q[i] == p;
      assert !Differ(r, i, |q|);
    }
  }

  /** A transition keeps the invariant exactly when it is called from its documented state. */
  lemma MoveInv(s: State, p: nat, from: Status, to: Status)
    requires Inv(s) && p < |s.procs| && from != to
    ensures Inv(Move(s, p, from, to)) <==> s.procs[p].status == from && p !in s.freed
  {
    var t := Move(s, p, from, to);
    assert QueueOk(s, from) && QueueOk(s, to) && ProcOk(s, p);
    PopQueues(s, from, p);
    PushUnique(Q(s, to), p);
    if s.procs[p].status == from && p !in s.freed {
      MoveKeeps(s, p, from, to);
    } else if p in s.freed {
      assert p in Q(t, to) && !QueueOk(t, to);
    } else {
      var was := s.procs[p].status;
      if was == to {
        assert !QueueOk(t, to);
      } else {
        assert p in Q(t, was) && !QueueOk(t, was);
      }
    }
  }

  lemma MoveQueues(s: State, p: nat, from: Status, to: Status)
    requires p < |s.procs| && from != to && QueueOk(s, from) && QueueOk(s, to) && s.procs[p].status == from
    ensures var t := Move(s, p, from, to);
      Unique(Q(t, from)) && Unique(Q(t, to)) && MovedMembers(s, t, p, from, to)
  {
    PopQueues(s, from, p);
    PushUnique(Q(s, to), p);
  }

  /** Who is in which queue after a move. */
  ghost predicate MovedMembers(s: State, t: State, p: nat, from: Status, to: Status) {
    && (forall x :: x in Q(t, from) <==> x in Q(s, from) && x != p)
    && (forall x :: x in Q(t, to) <==> x in Q(s, to) || x == p)
    && (forall st :: st != from && st != to ==> Q(t, st) == Q(s, st))
  }

  lemma MoveKeeps(s: State, p: nat, from: Status, to: Status)
    requires Inv(s) && p < |s.procs| && from != to && s.procs[p].status == from && p !in s.freed
    ensures Inv(Move(s, p, from, to))
  {
    var t := Move(s, p, from, to);
    MoveQueues(s, p, from, to);
    forall st ensures QueueOk(t, st) { assert QueueOk(s, st); }
    forall q: nat | q < |t.procs| ensures ProcOk(t, q) { assert ProcOk(s, q); }
  }

  /** A kill from one of its four states: the process is aborted and last in that queue, it has left
      the one it was in, the order of all others is kept, and so are all records but for its status. */
  lemma KillMeaning(s: State, p: nat)
    requires Inv(s) && p < |s.procs| && p !in s.freed && s.procs[p].status in {NEW, READY, RUNNING, WAIT}
    ensures
      var t := Kill(s, p);
      && t.procs == s.procs[p := s.procs[p].(status := ABORT)] && t.live == s.live && t.freed == s.freed
      && Q(t, ABORT) == Q(s, ABORT) + [p]
      && (forall st :: st != ABORT ==> Q(t, st) == Without(Q(s, st), p) && p !in Q(t, st))
  {
    var t := Kill(s, p);
    KillInv(s, p);
    forall st | st != ABORT ensures Q(t, st) == Without(Q(s, st), p) && p !in Q(t, st) {
      assert QueueOk(t, st) && QueueOk(s, st);
      if st != s.procs[p].status { WithoutNone(Q(s, st), p); }
    }
  }

  /** sched_kill keeps the invariant exactly for the four states it knows how to leave. */
  lemma KillInv(s: State, p: nat)
    requires Inv(s) && p < |s.procs|
    ensures Inv(Kill(s, p)) <==> s.procs[p].status in {NEW, READY, RUNNING, WAIT}
  {
    assert ProcOk(s, p);
    var st := s.procs[p].status;
    if st in {NEW, READY, RUNNING, WAIT} {
      assert Kill(s, p) == Move(s, p, st, ABORT);
      MoveInv(s, p, st, ABORT);
    } else {
      var t := Kill(s, p);
      PushUnique(Q(s, ABORT), p);
      assert p in Q(t, ABORT);
      if st == ZOMBIE && p !in s.freed { assert p in Q(t, ZOMBIE) && !QueueOk(t, ZOMBIE); }
      assert !QueueOk(t, ABORT) || !QueueOk(t, ZOMBIE);
    }
  }

  lemma FreeInv(s: State, p: nat)
    requires Inv(s) && p < |s.procs| && s.procs[p].status == ZOMBIE
    ensures Inv(Free(s, p)) && forall st :: p !in Q(Free(s, p), st)
  {
    var t := Free(s, p);
    assert QueueOk(s, ZOMBIE);
    PopQueues(s, ZOMBIE, p);
    forall st ensures QueueOk(t, st) && p !in Q(t, st) { assert QueueOk(s, st); }
    forall q: nat | q < |t.procs| ensures ProcOk(t, q) { assert ProcOk(s, q); }
  }

  lemma NewInv(s: State)
    requires Inv(s)
    ensures Inv(New(s)) && |New(s).procs| == |s.procs| + 1 && New(s).procs[..|s.procs|] == s.procs
    ensures
      var p := New(s).procs[|s.procs|];
      p.pid == |s.procs| && p.ppid == 0 && p.status == NEW && p.pageTable == 0 && p.cpu == ZEROED
  {
    var t := New(s);
    var p: nat := |s.procs|;
    assert QueueOk(s, NEW);
    assert p !in Q(s, NEW);
    PushUnique(Q(s, NEW), p);
    assert Q(t, NEW) == Q(s, NEW) + [p];
    forall st ensures QueueOk(t, st) {
      assert QueueOk(s, st);
      assert forall x :: x in Q(t, st) ==> x == p || x in Q(s, st);
    }
    forall q: nat | q < |t.procs| ensures ProcOk(t, q) {
      assert q < p ==> ProcOk(s, q);
      assert q in Q(s, NEW) ==> q in Q(s, NEW) + [p];
    }
  }

  lemma SaveInv(s: State, p: nat, c: Context)
    requires Inv(s) && p < |s.procs|
    ensures Inv(Save(s, p, c))
  {
    var t := Save(s, p, c);
    forall st ensures QueueOk(t, st) { assert QueueOk(s, st); }
    forall q: nat | q < |t.procs| ensures ProcOk(t, q) { assert ProcOk(s, q); }
  }

  lemma LiveInv(s: State, c: Context)
    requires Inv(s)
    ensures Inv(s.(live := c))
  {
    var t := s.(live := c);
    forall st ensures QueueOk(t, st) { assert QueueOk(s, st); }
    forall q: nat | q < |t.procs| ensures ProcOk(t, q) { assert ProcOk(s, q); }
  }

  lemma RunningKnown(s: State)
    requires Inv(s) && Q(s, RUNNING) != []
    ensures Current(s) < |s.procs| && s.procs[Current(s)].status == RUNNING && Current(s) !in s.freed
    ensures ReadyKnown(s)
  {
    assert QueueOk(s, RUNNING) && QueueOk(s, READY);
    assert Current(s) in Q(s, RUNNING);
  }

  /** Preempting the running process leaves someone to pick. */
  lemma PreemptMeaning(s: State)
    requires Inv(s) && Q(s, RUNNING) != []
    ensures Current(s) < |s.procs| && ReadyKnown(s) && Unique(Q(s, RUNNING))
    ensures var m := Move(s, Current(s), RUNNING, READY);
      Q(m, READY) == Q(s, READY) + [Current(s)] && Unique(Q(m, READY)) && Q(m, READY)[0] < |m.procs|
  {
    RunningKnown(s);
    assert QueueOk(s, RUNNING) && QueueOk(s, READY);
    MoveInv(s, Current(s), RUNNING, READY);
    var m := Move(s, Current(s), RUNNING, READY);
    assert QueueOk(m, READY) && Q(m, READY)[0] in Q(m, READY);
  }

  // ---------- what a step leaves alone ----------

  ghost predicate OthersKept(s: State, t: State) {
    forall st :: st != READY && st != RUNNING ==> Q(t, st) == Q(s, st)
  }

  /** Process c joined the end of the ready queue, and nothing else happened to the queues. */
  ghost predicate Joined(s: State, t: State, c: nat) {
    forall st :: Q(t, st) == if st == READY then Q(s, st) + [c] else Q(s, st)
  }

  ghost predicate ContextsKept(s: State, t: State, except: nat)
    requires |s.procs| <= |t.procs|
  {
    forall p: nat :: p < |s.procs| && p != except ==> t.procs[p].cpu == s.procs[p].cpu
  }

  ghost predicate RecordsKept(s: State, t: State, except: nat)
    requires |s.procs| <= |t.procs|
  {
    forall p: nat :: p < |s.procs| && p != except ==> t.procs[p] == s.procs[p]
  }

  // ---------- the timer tick ----------

  /** sched_main moves the head of the running queue to the end of the ready queue, and then the
      head of the ready queue to the end of the running queue. */
  lemma TickQueues(s: State)
    requires Inv(s) && Q(s, RUNNING) != []
    ensures Current(s) < |s.procs| && ReadyKnown(s)
    ensures var t := Irq(s, TIMER_IRQ); var line := Q(s, READY) + [Current(s)];
      Q(t, READY) == line[1..] && Q(t, RUNNING) == Q(s, RUNNING)[1..] + [line[0]] && Inv(t)
      && OthersKept(s, t)
  {
    RunningKnown(s);
    var from := Current(s);
    var a := Save(s, from, Trapped(s.live));
    SaveInv(s, from, Trapped(s.live));
    var b := Move(a, from, RUNNING, READY);
    MoveInv(a, from, RUNNING, READY);
    WithoutAt(Q(a, RUNNING), 0);
    var line := Q(s, READY) + [from];
    var to := line[0];
    assert Q(b, READY) == line && to in Q(b, READY);
    assert QueueOk(b, READY);
    MoveInv(b, to, READY, RUNNING);
    var c := Move(b, to, READY, RUNNING);
    WithoutAt(line, 0);
    SaveInv(c, from, c.live);
    var d := Save(c, from, c.live);
    LiveInv(d, d.procs[to].cpu);
  }

  /** The contexts after a tick: the process preempted has what the processor would have gone on
      with, the processor has what the process picked had, and no other context changes. */
  lemma TickContexts(s: State)
    requires Inv(s) && Q(s, RUNNING) != []
    ensures Current(s) < |s.procs| && ReadyKnown(s)
    ensures var t := Irq(s, TIMER_IRQ); var from := Current(s); var to := (Q(s, READY) + [from])[0];
      && |t.procs| == |s.procs| && to < |s.procs|
      && t.procs[from].cpu == s.live
      && t.live == (if to == from then s.live else s.procs[to].cpu)
      && (to == from <==> Q(s, READY) == [])
      && ContextsKept(s, t, from)
  {
    RunningKnown(s);
    assert QueueOk(s, READY);
    assert Q(s, READY) != [] ==> Q(s, READY)[0] in Q(s, READY);
    var from := Current(s);
    var a := Save(s, from, Trapped(s.live));
    assert Q(Move(a, from, RUNNING, READY), READY) == Q(s, READY) + [from];
  }

  // ---------- fork ----------

  /** The first half of fork: the parent's registers kept, and a new process at the end of its queue,
      from where it can be taken again. */
  lemma ForkStart(s: State, f: nat)
    requires Inv(s) && f < |s.procs| && Inv(Save(s, f, s.live))
    ensures
      var t := New(Save(s, f, s.live));
      var c: nat := |s.procs|;
      && Inv(t) && Q(t, NEW) == Q(s, NEW) + [c] && Without(Q(t, NEW), c) == Q(s, NEW)
      && t.procs[c].status == NEW && c !in t.freed
  {
    assert QueueOk(s, NEW);
    NewInv(Save(s, f, s.live));
    assert Q(New(Save(s, f, s.live)), NEW) == Q(s, NEW) + [|s.procs|];
    WithoutLast(Q(s, NEW), |s.procs|);
  }

  lemma WithoutLast(q: seq<nat>, p: nat)
    requires p !in q
    ensures Without(q + [p], p) == q
  {
    WithoutAt(q + [p], |q|);
    assert (q + [p])[..|q|] + (q + [p])[|q| + 1..] == q;
  }

  /** The child is ready, at the end of the line, with the parent's registers but for r0, which is
      0; the parent goes on with the child's number in r0. Other processes keep everything. */
  lemma ForkMeaning(s: State, table: int)
    requires Inv(s) && Q(s, RUNNING) != []
    ensures Current(s) < |s.procs|
    ensures var t := Fork(s, table); var f := Current(s); var c := |s.procs|;
      && |t.procs| == c + 1 && Inv(t)
      && t.procs[c] == Process(c, f, READY, table, s.live.(r0 := 0))
      && t.live == s.live.(r0 := c)
      && RecordsKept(s, t, f)
      && t.procs[f] == s.procs[f].(cpu := s.live.(r0 := c))
      && Joined(s, t, c)
  {
    RunningKnown(s);
    var f: nat, c: nat := Current(s), |s.procs|;
    assert ProcOk(s, f);
    SaveInv(s, f, s.live);
    var a := Save(s, f, s.live);
    ForkStart(s, f);
    var t := New(a);
    var copy := t.procs[f].(pid := c, ppid := t.procs[f].pid, pageTable := table);
    var u0 := t.(procs := t.procs[c := copy]);
    ForkedInv(t, u0, c);
    var u := Move(u0, c, NEW, READY);
    var v := Save(u, f, u.procs[f].cpu.(r0 := c));
    SaveInv(u, f, u.procs[f].cpu.(r0 := c));
    SaveInv(v, c, v.procs[c].cpu.(r0 := 0));
    var w := Save(v, c, v.procs[c].cpu.(r0 := 0));
    LiveInv(w, s.live.(r0 := c));
  }

  /** For a moment the child's record says RUNNING while the child is in the queue of new
      processes; sched_mature sets that right. */
  lemma ForkedInv(t: State, u: State, c: nat)
    requires Inv(t) && c < |t.procs| && t.procs[c].status == NEW && c !in t.freed
    requires |u.procs| == |t.procs| && u == t.(procs := t.procs[c := u.procs[c]]) && u.procs[c].pid == c
    ensures Inv(Move(u, c, NEW, READY))
  {
    MoveInv(t, c, NEW, READY);
    var x, y := Move(t, c, NEW, READY), Move(u, c, NEW, READY);
    forall st ensures QueueOk(y, st) { assert QueueOk(x, st) && Q(x, st) == Q(y, st); }
    forall q: nat | q < |y.procs| ensures ProcOk(y, q) { assert ProcOk(x, q); }
  }

  // ---------- boot ----------

  /** init_rr and init_sched up to its first system call: process 0 runs, process 1 is new. */
  function Boot(kernelTable: int): State {
    var s0 := New(State(map[], [], {}, ZEROED));
    var s1 := s0.(procs := [s0.procs[0].(ppid := 0, status := RUNNING, pageTable := kernelTable)]);
    New(Move(Move(s1, 0, NEW, READY), 0, READY, RUNNING))
  }

  lemma BootInv(kernelTable: int)
    ensures var s := Boot(kernelTable);
      && Inv(s) && Q(s, RUNNING) == [0] && Q(s, NEW) == [1] && Q(s, READY) == [] && |s.procs| == 2
      && s.procs[0].pageTable == kernelTable && s.procs[0].ppid == 0 && s.freed == {}
  {
    var e := State(map[], [], {}, ZEROED);
    assert Inv(e);
    NewInv(e);
    var s0 := New(e);
    var s1 := s0.(procs := [s0.procs[0].(ppid := 0, status := RUNNING, pageTable := kernelTable)]);
    assert s1 == s0.(procs := s0.procs[0 := s1.procs[0]]);
    ForkedInv(s0, s1, 0);
    var s2 := Move(s1, 0, NEW, READY);
    assert Q(s1, NEW) == [0] && Q(s2, READY) == [0];
    MoveInv(s2, 0, READY, RUNNING);
    NewInv(Move(s2, 0, READY, RUNNING));
  }
}
