/** Whole runs of the scheduler: what the queues keep, how long a ready process waits, and which
    registers a process gets back. */
module SchedRuns {
  import opened SchedSpec

  datatype Event =
    | NewProcess
    | Mature(p: nat)
    | Allow(p: nat)
    | Block(p: nat)
    | Preempt(p: nat)
    | Wake(p: nat)
    | Finish(p: nat)
    | KillProcess(p: nat)
    | FreeProcess(p: nat)
    | Tick
    | OtherIrq(id: int)
    | ForkCall(table: int)
    | Run(saved: bool, regs: Context)

  /** The transitions are called from their documented states, and a process must run for an
      interrupt or a system call to come. */
  ghost predicate Enabled(s: State, e: Event) {
    match e
    case NewProcess => |s.procs| < MAX_PCB
    case Mature(p) => p < |s.procs| && s.procs[p].status == NEW
    case Allow(p) => p < |s.procs| && s.procs[p].status == READY
    case Block(p) => p < |s.procs| && s.procs[p].status == RUNNING
    case Preempt(p) => p < |s.procs| && s.procs[p].status == RUNNING
    case Wake(p) => p < |s.procs| && s.procs[p].status == WAIT
    case Finish(p) => p < |s.procs| && s.procs[p].status == RUNNING
    case KillProcess(p) => p < |s.procs| && s.procs[p].status in {NEW, READY, RUNNING, WAIT}
    case FreeProcess(p) => p < |s.procs| && s.procs[p].status == ZOMBIE
    case Tick => Q(s, RUNNING) != []
    case OtherIrq(id) => id != TIMER_IRQ && Q(s, RUNNING) != []
    case ForkCall(_) => |s.procs| < MAX_PCB && Q(s, RUNNING) != []
    case Run(_, _) => Q(s, RUNNING) != []
  }

  ghost function Step(s: State, e: Event): State
    requires Inv(s) && Enabled(s, e)
  {
    match e
    case NewProcess => New(s)
    case Mature(p) => Move(s, p, NEW, READY)
    case Allow(p) => Move(s, p, READY, RUNNING)
    case Block(p) => Move(s, p, RUNNING, WAIT)
    case Preempt(p) => Move(s, p, RUNNING, READY)
    case Wake(p) => Move(s, p, WAIT, READY)
    case Finish(p) => Move(s, p, RUNNING, ZOMBIE)
    case KillProcess(p) => Kill(s, p)
    case FreeProcess(p) => Free(s, p)
    case Tick => RunningKnown(s); Irq(s, TIMER_IRQ)
    case OtherIrq(id) => RunningKnown(s); Irq(s, id)
    case ForkCall(table) => RunningKnown(s); Fork(s, table)
    case Run(saved, regs) => RunningKnown(s); Compute(s, saved, regs)
  }

  lemma StepInv(s: State, e: Event)
    requires Inv(s) && Enabled(s, e)
    ensures Inv(Step(s, e)) && |s.procs| <= |Step(s, e).procs|
  {
    if Q(s, RUNNING) != [] { RunningKnown(s); }
    match e
    case NewProcess => NewInv(s);
    case Mature(p) => assert ProcOk(s, p); MoveInv(s, p, NEW, READY);
    case Allow(p) => assert ProcOk(s, p); MoveInv(s, p, READY, RUNNING);
    case Block(p) => assert ProcOk(s, p); MoveInv(s, p, RUNNING, WAIT);
    case Preempt(p) => assert ProcOk(s, p); MoveInv(s, p, RUNNING, READY);
    case Wake(p) => assert ProcOk(s, p); MoveInv(s, p, WAIT, READY);
    case Finish(p) => assert ProcOk(s, p); MoveInv(s, p, RUNNING, ZOMBIE);
    case KillProcess(p) => KillInv(s, p);
    case FreeProcess(p) => FreeInv(s, p);
    case Tick => TickQueues(s); TickContexts(s);
    case OtherIrq(id) => SaveInv(s, Current(s), Trapped(s.live));
    case ForkCall(table) => ForkMeaning(s, table);
    case Run(saved, regs) =>
      SaveInv(s, Current(s), s.live);
      LiveInv(if saved then Save(s, Current(s), s.live) else s, regs);
  }

  /** A run, its events enabled one after the other. */
  ghost predicate Runs(s: State, es: seq<Event>)
    requires Inv(s)
    decreases |es|
  {
    es == [] || (Enabled(s, es[0]) && (StepInv(s, es[0]); Runs(Step(s, es[0]), es[1..])))
  }

  ghost function After(s: State, es: seq<Event>): State
    requires Inv(s) && Runs(s, es)
    decreases |es|
  {
    if es == [] then s else StepInv(s, es[0]); After(Step(s, es[0]), es[1..])
  }

  /** Over any run every process not freed stays in exactly the queue of its status, and processes
      are neither lost nor renumbered. */
  lemma {:induction false} RunInv(s: State, es: seq<Event>)
    requires Inv(s) && Runs(s, es)
    ensures Inv(After(s, es)) && |s.procs| <= |After(s, es).procs|
    decreases |es|
  {
    if es == [] {
    } else {
      StepInv(s, es[0]);
      RunInv(Step(s, es[0]), es[1..]);
    }
  }

  lemma {:induction false} RunSplit(s: State, es: seq<Event>, k: nat)
    requires Inv(s) && Runs(s, es) && k <= |es|
    ensures Runs(s, es[..k])
    ensures Inv(After(s, es[..k])) && Runs(After(s, es[..k]), es[k..])
    ensures After(After(s, es[..k]), es[k..]) == After(s, es)
    decreases k
  {
    if k > 0 {
      StepInv(s, es[0]);
      var t := Step(s, es[0]);
      RunSplit(t, es[1..], k - 1);
      assert es[..k][0] == es[0] && es[..k][1..] == es[1..][..k - 1] && es[k..] == es[1..][k - 1..];
    } else {
      assert es[..0] == [] && es[0..] == es;
    }
  }

  /** From boot on: any process is in one queue, the one of its status, or has been freed. */
  lemma BootRuns(kernelTable: int, es: seq<Event>, p: nat, st: Status)
    requires (BootInv(kernelTable); Runs(Boot(kernelTable), es))
    requires (BootInv(kernelTable); p < |After(Boot(kernelTable), es).procs|)
    ensures (BootInv(kernelTable);
      var t := After(Boot(kernelTable), es);
      && (p in Q(t, st) <==> p !in t.freed && t.procs[p].status == st)
      && multiset(Q(t, st))[p] <= 1 && t.procs[p].pid == p)
  {
    BootInv(kernelTable);
    RunInv(Boot(kernelTable), es);
    var t := After(Boot(kernelTable), es);
    OneQueue(t, p, st);
    assert ProcOk(t, p);
  }

  // ---------- rotation ----------

  function Rotated(xs: seq<nat>, n: nat): seq<nat>
    requires xs != []
    decreases n
  {
    if n == 0 then xs else Rotated(xs[1..] + [xs[0]], n - 1)
  }

  lemma {:induction false} RotatedSplit(xs: seq<nat>, n: nat)
    requires n <= |xs| && xs != []
    ensures Rotated(xs, n) == xs[n..] + xs[..n]
    decreases n
  {
    var ys := xs[1..] + [xs[0]];
    if n > 0 && n < |xs| {
      RotatedSplit(ys, n - 1);
      assert ys[n - 1..] == xs[n..] + [xs[0]] && [xs[0]] + ys[..n - 1] == xs[..n];
    } else if n > 0 {
      RotatedSplit(ys, n - 1);
      assert ys[n - 1..] == [xs[0]] && ys[..n - 1] == xs[1..];
      assert xs == [xs[0]] + xs[1..];
    }
  }

  function Ticks(n: nat): seq<Event> {
    seq(n, _ => Tick)
  }

  function Ring(s: State): seq<nat> {
    Q(s, RUNNING) + Q(s, READY)
  }

  /** With one process running, n ticks and nothing else turn the running process and the ready
      queue, taken as one ring, n places. */
  lemma {:induction false} TicksRotate(s: State, n: nat)
    requires Inv(s) && |Q(s, RUNNING)| == 1
    ensures Runs(s, Ticks(n))
    ensures var t := After(s, Ticks(n));
      |Q(t, RUNNING)| == 1 && Ring(t) == Rotated(Ring(s), n) && OthersKept(s, t)
    decreases n
  {
    if n == 0 {
    } else {
      TickQueues(s);
      StepInv(s, Tick);
      var t := Step(s, Tick);
      assert Q(s, READY) + [Current(s)] == Ring(s)[1..] + [Ring(s)[0]];
      assert Ring(t) == Ring(s)[1..] + [Ring(s)[0]];
      TicksRotate(t, n - 1);
      assert Ticks(n)[0] == Tick && Ticks(n)[1..] == Ticks(n - 1);
    }
  }

  /** After as many ticks as there are processes to share the processor, both queues are as they
      were. */
  lemma FullCircle(s: State)
    requires Inv(s) && |Q(s, RUNNING)| == 1
    ensures var es := Ticks(|Q(s, READY)| + 1);
      Runs(s, es) && Q(After(s, es), RUNNING) == Q(s, RUNNING) && Q(After(s, es), READY) == Q(s, READY)
  {
    var n := |Q(s, READY)| + 1;
    TicksRotate(s, n);
    RotatedSplit(Ring(s), n);
    var t := After(s, Ticks(n));
    assert Ring(s)[n..] + Ring(s)[..n] == Ring(s);
    assert Ring(t)[..1] == Q(t, RUNNING) && Ring(t)[1..] == Q(t, READY);
    assert Ring(s)[..1] == Q(s, RUNNING) && Ring(s)[1..] == Q(s, READY);
  }

  // ---------- bounded wait ----------

  function CountTicks(es: seq<Event>): nat {
    if es == [] then 0 else (if es[0].Tick? then 1 else 0) + CountTicks(es[1..])
  }

  /** Process p is in the ready queue with at most j others before it. */
  ghost predicate Waits(s: State, p: nat, j: int) {
    exists i :: 0 <= i <= j && i < |Q(s, READY)| && Q(s, READY)[i] == p
  }

  lemma WithoutPosition(q: seq<nat>, x: nat, i: nat)
    requires Unique(q) && i < |q| && q[i] != x
    ensures exists k :: 0 <= k <= i && k < |Without(q, x)| && Without(q, x)[k] == q[i]
  {
    if x in q {
      var m :| 0 <= m < |q| && q[m] == x;
      FirstAt(q, m);
      WithoutAt(q, m);
      var k := if i < m then i else i - 1;
      assert Without(q, x)[k] == q[i];
    } else {
      WithoutNone(q, x);
      assert Without(q, x)[i] == q[i];
    }
  }

  /** No step but the death of p sets p back: it runs, or is no further from the head, and nearer
      after a tick. */
  lemma StepWaits(s: State, e: Event, p: nat, j: nat)
    requires Inv(s) && Enabled(s, e) && Waits(s, p, j) && e != KillProcess(p)
    ensures var t := Step(s, e);
      p in Q(t, RUNNING) || Waits(t, p, if e.Tick? then j - 1 else j)
  {
    var i: int :| 0 <= i <= j && i < |Q(s, READY)| && Q(s, READY)[i] == p;
    assert QueueOk(s, READY) && p in Q(s, READY);
    var t := Step(s, e);
    if e.Tick? {
      TickQueues(s);
      var line := Q(s, READY) + [Current(s)];
      if i == 0 {
        assert Q(t, RUNNING)[|Q(s, RUNNING)| - 1] == p;
      } else {
        assert Q(t, READY)[i - 1] == p;
      }
    } else if e.Allow? || (e.KillProcess? && s.procs[e.p].status == READY) {
      if e.p == p {
        assert p in Q(s, RUNNING) + [p] && Q(t, RUNNING) == Q(s, RUNNING) + [p];
      } else {
        WithoutPosition(Q(s, READY), e.p, i);
        assert Q(t, READY) == Without(Q(s, READY), e.p);
      }
    } else {
      OtherReady(s, e);
      assert Q(t, READY)[i] == p;
    }
  }

  /** Every other step leaves the ready queue alone or adds to its end. */
  lemma OtherReady(s: State, e: Event)
    requires Inv(s) && Enabled(s, e) && !e.Tick? && !e.Allow?
    requires e.KillProcess? ==> s.procs[e.p].status != READY
    ensures Q(s, READY) <= Q(Step(s, e), READY)
  {
    if Q(s, RUNNING) != [] { RunningKnown(s); }
    if e.ForkCall? { ForkMeaning(s, e.table); }
  }

  /** A process at position j of the ready queue runs after at most j + 1 ticks, whatever happens
      in between, unless it is killed. */
  lemma {:induction false} BoundedWait(s: State, es: seq<Event>, p: nat, j: nat)
    requires Inv(s) && Runs(s, es) && Waits(s, p, j) && KillProcess(p) !in es && CountTicks(es) >= j + 1
    ensures exists k :: 0 <= k <= |es| && RunsBy(s, es, k, p) && CountTicks(es[..k]) <= j + 1
    decreases |es|
  {
    StepInv(s, es[0]);
    StepWaits(s, es[0], p, j);
    var t := Step(s, es[0]);
    if p in Q(t, RUNNING) {
      RunSplit(s, es, 1);
      assert es[..1] == [es[0]] && CountTicks([es[0]]) <= 1;
      assert After(s, es[..1]) == t;
      assert RunsBy(s, es, 1, p);
    } else {
      var j2: int := if es[0].Tick? then j - 1 else j;
      assert forall x :: x in es[1..] ==> x in es;
      BoundedWait(t, es[1..], p, j2);
      var k :| 0 <= k <= |es| - 1 && RunsBy(t, es[1..], k, p) && CountTicks(es[1..][..k]) <= j2 + 1;
      RunSplit(s, es, k + 1);
      assert es[..k + 1][0] == es[0] && es[..k + 1][1..] == es[1..][..k];
      assert RunsBy(s, es, k + 1, p);
    }
  }

  /** After the first k events p is in the running queue. */
  ghost predicate RunsBy(s: State, es: seq<Event>, k: nat, p: nat)
    requires Inv(s)
  {
    k <= |es| && Runs(s, es[..k]) && p in Q(After(s, es[..k]), RUNNING)
  }

  // ---------- register contexts ----------

  /** Exactly one process runs. */
  ghost predicate Solo(s: State) {
    |Q(s, RUNNING)| == 1
  }

  /** Events that leave the choice of the running process to the timer. */
  ghost predicate Calm(s: State, e: Event)
    requires Inv(s) && Enabled(s, e)
  {
    match e
    case Allow(_) => false
    case Preempt(_) => false
    case Block(_) => false
    case Finish(_) => false
    case KillProcess(p) => s.procs[p].status != RUNNING
    case _ => true
  }

  lemma CalmRunning(s: State, e: Event)
    requires Inv(s) && Solo(s) && Enabled(s, e) && Calm(s, e)
    ensures Solo(Step(s, e))
    ensures !e.Tick? ==> Q(Step(s, e), RUNNING) == Q(s, RUNNING)
  {
    RunningKnown(s);
    if e.Tick? { TickQueues(s); }
    if e.ForkCall? { ForkMeaning(s, e.table); }
  }

  /** One step: the registers of a process that neither runs nor is picked do not change; a tick
      that picks p resumes it with exactly the registers kept for it. */
  lemma StepContext(s: State, e: Event, p: nat)
    requires Inv(s) && Solo(s) && Enabled(s, e) && Calm(s, e) && p < |s.procs| && p != Current(s)
    ensures Solo(Step(s, e)) && p < |Step(s, e).procs|
    ensures if Current(Step(s, e)) == p
      then e.Tick? && Step(s, e).live == s.procs[p].cpu
      else Step(s, e).procs[p].cpu == s.procs[p].cpu
  {
    CalmRunning(s, e);
    RunningKnown(s);
    StepInv(s, e);
    if e.Tick? {
      TickQueues(s);
      TickContexts(s);
    }
    if e.ForkCall? { ForkMeaning(s, e.table); }
  }

  ghost predicate AllCalm(s: State, es: seq<Event>)
    requires Inv(s) && Runs(s, es)
    decreases |es|
  {
    es != [] ==> Calm(s, es[0]) && (StepInv(s, es[0]); AllCalm(Step(s, es[0]), es[1..]))
  }

  /** p does not run before the last event of the run, and does after it. */
  ghost predicate ResumesLast(s: State, es: seq<Event>, p: nat)
    requires Inv(s) && Runs(s, es)
    decreases |es|
  {
    && Q(s, RUNNING) != []
    && if es == [] then Current(s) == p
       else Current(s) != p && (StepInv(s, es[0]); ResumesLast(Step(s, es[0]), es[1..], p))
  }

  /** However many ticks, system calls, forks and computations of others lie between, a process is
      resumed with exactly the registers kept for it when it did not run. */
  lemma {:induction false} ResumedContext(s: State, es: seq<Event>, p: nat)
    requires Inv(s) && Solo(s) && Runs(s, es) && AllCalm(s, es) && p < |s.procs| && es != [] && ResumesLast(s, es, p)
    ensures After(s, es).live == s.procs[p].cpu
    decreases |es|
  {
    StepInv(s, es[0]);
    StepContext(s, es[0], p);
    if |es| > 1 {
      ResumedContext(Step(s, es[0]), es[1..], p);
    }
  }

  /** A preempted process gets back what it had: from a tick that takes the processor away to the
      one that gives it back, the registers are the same. */
  lemma PreemptedResumes(s: State, es: seq<Event>)
    requires Inv(s) && Solo(s) && Runs(s, es) && AllCalm(s, es) && es != [] && es[0] == Tick
    requires Inv(Step(s, Tick)) && Runs(Step(s, Tick), es[1..]) && ResumesLast(Step(s, Tick), es[1..], Current(s))
    ensures After(s, es).live == s.live
  {
    RunningKnown(s);
    TickQueues(s);
    TickContexts(s);
    CalmRunning(s, Tick);
    if |es| > 1 {
      ResumedContext(Step(s, Tick), es[1..], Current(s));
    } else {
      assert Current(Step(s, Tick)) == (Q(s, READY) + [Current(s)])[0];
    }
  }

  /** Events that leave the processor's registers alone: all but ticks, system calls and the running
      program itself. */
  ghost predicate Quiet(e: Event) {
    !e.Tick? && !e.ForkCall? && !e.Run?
  }

  /** Interrupts other than the timer's, however many, and transitions change no register of the
      interrupted program: it goes on at the address it was interrupted at. */
  lemma {:induction false} QuietLive(s: State, es: seq<Event>)
    requires Inv(s) && Runs(s, es) && forall e :: e in es ==> Quiet(e)
    ensures After(s, es).live == s.live
    decreases |es|
  {
    if es == [] {
    } else {
      assert Quiet(es[0]);
      StepInv(s, es[0]);
      if Q(s, RUNNING) != [] { RunningKnown(s); }
      QuietLive(Step(s, es[0]), es[1..]);
    }
  }

  /** The registers process p has, in the processor or kept for it. */
  function Registers(s: State, p: nat): Context
    requires p < |s.procs|
  {
    if Q(s, RUNNING) != [] && Current(s) == p then s.live else s.procs[p].cpu
  }

  /** p itself computes or calls. */
  ghost predicate Own(s: State, e: Event, p: nat) {
    (e.Run? || e.ForkCall?) && Q(s, RUNNING) != [] && Current(s) == p
  }

  lemma StepRegisters(s: State, e: Event, p: nat)
    requires Inv(s) && Solo(s) && Enabled(s, e) && Calm(s, e) && p < |s.procs| && !Own(s, e, p)
    ensures Solo(Step(s, e)) && p < |Step(s, e).procs|
    ensures Registers(Step(s, e), p) == Registers(s, p)
  {
    StepInv(s, e);
    CalmRunning(s, e);
    RunningKnown(s);
    if Current(s) != p {
      StepContext(s, e, p);
    } else if e.Tick? {
      TickQueues(s);
      TickContexts(s);
    }
  }

  ghost predicate NeverOwn(s: State, es: seq<Event>, p: nat)
    requires Inv(s) && Runs(s, es)
    decreases |es|
  {
    es != [] ==> !Own(s, es[0], p) && (StepInv(s, es[0]); NeverOwn(Step(s, es[0]), es[1..], p))
  }

  /** Over any calm run in which a process neither computes nor calls itself it keeps its registers,
      running or not, whatever interrupts and ticks come and whatever others do. */
  lemma {:induction false} KeepsRegisters(s: State, es: seq<Event>, p: nat)
    requires Inv(s) && Solo(s) && Runs(s, es) && AllCalm(s, es) && p < |s.procs| && NeverOwn(s, es, p)
    ensures p < |After(s, es).procs| && Registers(After(s, es), p) == Registers(s, p)
    decreases |es|
  {
    if es == [] {
    } else {
      StepInv(s, es[0]);
      StepRegisters(s, es[0], p);
      KeepsRegisters(Step(s, es[0]), es[1..], p);
    }
  }

  /** A process that runs, and runs again at the end, goes on with the registers it had. */
  lemma GoesOn(s: State, es: seq<Event>, p: nat)
    requires Inv(s) && Solo(s) && Runs(s, es) && AllCalm(s, es) && p < |s.procs| && NeverOwn(s, es, p)
    requires Current(s) == p && Q(After(s, es), RUNNING) != [] && Current(After(s, es)) == p
    ensures After(s, es).live == s.live
  {
    KeepsRegisters(s, es, p);
  }

  /** A forked child first runs with the parent's registers at the call, but for r0 == 0, and the
      parent goes on at once with the child's number in r0. */
  lemma ForkedResumes(s: State, table: int, es: seq<Event>)
    requires Inv(s) && Solo(s) && Enabled(s, ForkCall(table)) && es != []
    requires Inv(Step(s, ForkCall(table))) && Runs(Step(s, ForkCall(table)), es)
      && AllCalm(Step(s, ForkCall(table)), es)
    requires ResumesLast(Step(s, ForkCall(table)), es, |s.procs|)
    ensures Step(s, ForkCall(table)).live == s.live.(r0 := |s.procs|)
    ensures After(Step(s, ForkCall(table)), es).live == s.live.(r0 := 0)
  {
    ForkMeaning(s, table);
    CalmRunning(s, ForkCall(table));
    ResumedContext(Step(s, ForkCall(table)), es, |s.procs|);
  }

  // ---------- what no step undoes ----------

  /** Number, parent and page table are the same, and a process aborted or finished still is. */
  ghost predicate SameForLife(p: Process, q: Process) {
    && q.pid == p.pid && q.ppid == p.ppid && q.pageTable == p.pageTable
    && (p.status in {ABORT, ZOMBIE} ==> q.status == p.status)
  }

  lemma StepRecord(s: State, e: Event, p: nat)
    requires Inv(s) && Enabled(s, e) && p < |s.procs|
    ensures p < |Step(s, e).procs| && SameForLife(s.procs[p], Step(s, e).procs[p])
  {
    StepInv(s, e);
    match e
    case Tick => TickRecord(s, p);
    case ForkCall(table) => ForkRecord(s, table, p);
    case OtherIrq(_) => RunningKnown(s);
    case Run(_, _) => RunningKnown(s);
    case _ =>
  }

  lemma TickRecord(s: State, p: nat)
    requires Inv(s) && Enabled(s, Tick) && p < |s.procs|
    ensures p < |Step(s, Tick).procs| && SameForLife(s.procs[p], Step(s, Tick).procs[p])
  {
    RunningKnown(s);
    TickContexts(s);
    assert QueueOk(s, RUNNING) && QueueOk(s, READY);
    var from := Current(s);
    var a := Save(s, from, Trapped(s.live));
    var line := Q(s, READY) + [from];
    assert Q(Move(a, from, RUNNING, READY), READY) == line;
    assert s.procs[line[0]].status in {READY, RUNNING} by { assert line[0] in line; }
  }

  lemma ForkRecord(s: State, table: int, p: nat)
    requires Inv(s) && Enabled(s, ForkCall(table)) && p < |s.procs|
    ensures p < |Step(s, ForkCall(table)).procs| && SameForLife(s.procs[p], Step(s, ForkCall(table)).procs[p])
  {
    ForkMeaning(s, table);
    var t := Fork(s, table);
    if p != Current(s) { assert t.procs[p] == s.procs[p]; }
  }

  /** Number, parent and page table of a process are for life, and one that is aborted or has finished
      stays so. */
  lemma {:induction false} RecordForLife(s: State, es: seq<Event>, p: nat)
    requires Inv(s) && Runs(s, es) && p < |s.procs|
    ensures p < |After(s, es).procs| && SameForLife(s.procs[p], After(s, es).procs[p])
    decreases |es|
  {
    if es == [] {
    } else {
      StepInv(s, es[0]);
      StepRecord(s, es[0], p);
      RecordForLife(Step(s, es[0]), es[1..], p);
    }
  }

  /** A killed process never runs again, and is never ready again. */
  lemma KilledForGood(s: State, es: seq<Event>, p: nat)
    requires Inv(s) && Enabled(s, KillProcess(p)) && p !in s.freed
    requires Inv(Step(s, KillProcess(p))) && Runs(Step(s, KillProcess(p)), es)
    ensures
      var t := After(Step(s, KillProcess(p)), es);
      p in Q(t, ABORT) && p !in Q(t, RUNNING) && p !in Q(t, READY) && p !in Q(t, ZOMBIE)
  {
    var k := Step(s, KillProcess(p));
    KillMeaning(s, p);
    RecordForLife(k, es, p);
    RunInv(k, es);
    var t := After(k, es);
    forall st ensures p in Q(t, st) <==> p !in t.freed && t.procs[p].status == st { OneQueue(t, p, st); }
    assert ProcOk(t, p);
  }
}
