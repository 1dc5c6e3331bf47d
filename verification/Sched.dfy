/** kern/sched as it runs: six linked queues, a list of process blocks, and register contexts copied
    between them. */
module Sched {
  import opened Machine
  import opened SchedSpec

  class Pcb {
    var pid: int
    var ppid: int
    var status: Status
    var pageTable: int
    var cpu: Context

    /** A block of zero bytes. */
    constructor ()
      ensures pid == 0 && ppid == 0 && status == NEW && pageTable == 0 && cpu == ZEROED
    {
      pid, ppid, status, pageTable, cpu := 0, 0, NEW, 0, ZEROED;
    }
  }

  class Element {
    const pcb: Pcb
    var next: Element?
    /** The queue the element is for. */
    ghost const owner: Status

    constructor (pcb: Pcb, ghost owner: Status)
      ensures this.pcb == pcb && next == null && this.owner == owner
    {
      this.pcb, next, this.owner := pcb, null, owner;
    }
  }

  datatype Queue = Queue(head: Element?, tail: Element?)

  function At(nodes: seq<Element>, i: nat): Element? {
    if i < |nodes| then nodes[i] else null
  }

  function Of(nodes: map<Status, seq<Element>>, st: Status): seq<Element> {
    if st in nodes then nodes[st] else []
  }

  /** Element i of the queue of a status is for process q[i]. */
  ghost predicate Named(pcbs: seq<Pcb>, ns: seq<Element>, st: Status, q: seq<nat>, i: int)
    requires 0 <= i < |ns| == |q|
  {
    q[i] < |pcbs| && ns[i].pcb == pcbs[q[i]] && ns[i].owner == st
  }

  /** The queue record points at the first and the last element; the elements are those of q. */
  ghost predicate Holds(queues: map<Status, Queue>, pcbs: seq<Pcb>, ns: seq<Element>, st: Status, q: seq<nat>) {
    && st in queues && queues[st] == Queue(At(ns, 0), LastOf(ns))
    && |ns| == |q| && Unique(ns)
    && forall i :: 0 <= i < |q| ==> Named(pcbs, ns, st, q, i)
  }

  ghost predicate AllHold(queues: map<Status, Queue>, pcbs: seq<Pcb>, nodes: map<Status, seq<Element>>, s: State) {
    forall t {:trigger Holds(queues, pcbs, Of(nodes, t), t, Q(s, t))} :: Holds(queues, pcbs, Of(nodes, t), t, Q(s, t))
  }

  /** An element is in one queue only. */
  lemma OtherOwner(queues: map<Status, Queue>, pcbs: seq<Pcb>, ms: seq<Element>, t: Status, r: seq<nat>, i: nat,
                   ns: seq<Element>, st: Status, q: seq<nat>)
    requires Holds(queues, pcbs, ms, t, r) && Holds(queues, pcbs, ns, st, q) && t != st && i < |ms|
    ensures ms[i] !in ns
  {
    assert Named(pcbs, ms, t, r, i);
    forall j | 0 <= j < |ns| ensures ns[j] != ms[i] { assert Named(pcbs, ns, st, q, j); }
  }

  /** Elements of one queue are for different processes. */
  lemma SamePcb(queues: map<Status, Queue>, pcbs: seq<Pcb>, ns: seq<Element>, st: Status, q: seq<nat>, i: nat, j: nat)
    requires Holds(queues, pcbs, ns, st, q) && Unique(pcbs) && Unique(q) && i <= j < |ns|
    ensures ns[i].pcb == ns[j].pcb <==> i == j
  {
    assert Named(pcbs, ns, st, q, i) && Named(pcbs, ns, st, q, j);
    if ns[i].pcb == ns[j].pcb {
      UniqueIndex(pcbs, q[i], q[j]);
      UniqueIndex(q, i, j);
    }
  }

  /** Holds says nothing but of the queues. */
  lemma HoldsKept(queues: map<Status, Queue>, pcbs: seq<Pcb>, nodes: map<Status, seq<Element>>, s: State, t: State)
    requires AllHold(queues, pcbs, nodes, s) && t.queues == s.queues
    ensures AllHold(queues, pcbs, nodes, t)
  {
    forall st ensures Holds(queues, pcbs, Of(nodes, st), st, Q(t, st)) {
      assert Holds(queues, pcbs, Of(nodes, st), st, Q(s, st));
    }
  }

  lemma HoldsWider(queues: map<Status, Queue>, pcbs: seq<Pcb>, task: Pcb, nodes: map<Status, seq<Element>>, s: State)
    requires AllHold(queues, pcbs, nodes, s)
    ensures AllHold(queues, pcbs + [task], nodes, s)
  {
    forall st ensures Holds(queues, pcbs + [task], Of(nodes, st), st, Q(s, st)) {
      assert Holds(queues, pcbs, Of(nodes, st), st, Q(s, st));
      forall i | 0 <= i < |Q(s, st)| ensures Named(pcbs + [task], Of(nodes, st), st, Q(s, st), i) {
        assert Named(pcbs, Of(nodes, st), st, Q(s, st), i);
      }
    }
  }

  lemma HoldsMore(queues: map<Status, Queue>, pcbs: seq<Pcb>, nodes: map<Status, seq<Element>>, s: State,
                  st: Status, p: nat, e: Element)
    requires AllHold(queues, pcbs, nodes, s)
    requires e !in Of(nodes, st) && p < |pcbs| && e.pcb == pcbs[p] && e.owner == st
    ensures var ns := Of(nodes, st) + [e];
      AllHold(queues[st := Queue(ns[0], e)], pcbs, nodes[st := ns], Push(s, st, p))
  {
    var ns0, ns := Of(nodes, st), Of(nodes, st) + [e];
    PushUnique(ns0, e);
    PushQueues(s, st, p);
    assert Holds(queues, pcbs, ns0, st, Q(s, st));
    forall i | 0 <= i < |ns| ensures Named(pcbs, ns, st, Q(s, st) + [p], i) {
      assert i < |ns0| ==> Named(pcbs, ns0, st, Q(s, st), i);
    }
    forall t ensures Holds(queues[st := Queue(ns[0], e)], pcbs, Of(nodes[st := ns], t), t, Q(Push(s, st, p), t)) {
      assert Holds(queues, pcbs, Of(nodes, t), t, Q(s, t));
    }
  }

  function Gone<T>(ns: seq<T>, i: nat): seq<T>
    requires i < |ns|
  {
    ns[..i] + ns[i + 1..]
  }

  function LastOf(ns: seq<Element>): Element? {
    if ns == [] then null else ns[|ns| - 1]
  }

  lemma HoldsLess(queues: map<Status, Queue>, pcbs: seq<Pcb>, nodes: map<Status, seq<Element>>, s: State, st: Status,
                  i: nat)
    requires AllHold(queues, pcbs, nodes, s) && Unique(Q(s, st)) && i < |Q(s, st)|
    ensures i < |Of(nodes, st)|
    ensures var ms := Gone(Of(nodes, st), i);
      AllHold(queues[st := Queue(At(ms, 0), LastOf(ms))], pcbs, nodes[st := ms], Pop(s, st, Q(s, st)[i]))
  {
    var ns, q := Of(nodes, st), Q(s, st);
    assert Holds(queues, pcbs, ns, st, q);
    FirstAt(q, i);
    WithoutAt(q, i);
    var ms, r := Gone(ns, i), Gone(q, i);
    forall j | 0 <= j < |ms| ensures Named(pcbs, ms, st, r, j) {
      assert Named(pcbs, ns, st, q, if j < i then j else j + 1);
    }
    forall j, k | 0 <= j < k < |ms| ensures Differ(ms, j, k) {
      assert Differ(ns, if j < i then j else j + 1, if k < i then k else k + 1);
    }
    var now := queues[st := Queue(At(ms, 0), LastOf(ms))];
    forall t ensures Holds(now, pcbs, Of(nodes[st := ms], t), t, Q(Pop(s, st, q[i]), t)) {
      assert Holds(queues, pcbs, Of(nodes, t), t, Q(s, t));
    }
  }

  lemma HoldsSame(queues: map<Status, Queue>, pcbs: seq<Pcb>, nodes: map<Status, seq<Element>>, s: State, st: Status,
                  p: nat)
    requires AllHold(queues, pcbs, nodes, s) && p !in Q(s, st)
    ensures AllHold(queues, pcbs, nodes, Pop(s, st, p))
  {
    WithoutNone(Q(s, st), p);
    forall t ensures Holds(queues, pcbs, Of(nodes, t), t, Q(Pop(s, st, p), t)) {
      assert Holds(queues, pcbs, Of(nodes, t), t, Q(s, t));
    }
  }

  class Scheduler {
    /** queue_new, queue_ready, queue_running, queue_wait, queue_zombie and queue_abort. */
    var queues: map<Status, Queue>
    const pcbList: array<Pcb?>
    var cntPcb: nat
    var contextIrq: Context
    var contextSvc: Context
    /** The abstract state, and what it is stored in: the elements of each queue and the blocks. */
    ghost var view: State
    ghost var nodes: map<Status, seq<Element>>
    ghost var pcbs: seq<Pcb>
    ghost var elements: set<Element>

    /** Element i of a queue points at the next. */
    ghost predicate Node(ns: seq<Element>, i: int)
      requires 0 <= i < |ns|
      reads this`elements, elements
    {
      ns[i] in elements && ns[i].next == At(ns, i + 1)
    }

    ghost predicate Linked(ns: seq<Element>)
      reads this`elements, elements
    {
      forall i {:trigger Node(ns, i)} :: 0 <= i < |ns| ==> Node(ns, i)
    }

    ghost predicate AllLinked(nodes: map<Status, seq<Element>>)
      reads this`elements, elements
    {
      forall st {:trigger Linked(Of(nodes, st))} :: Linked(Of(nodes, st))
    }

    ghost predicate Queued()
      reads this`queues, this`nodes, this`view, this`pcbs, this`elements, elements
    {
      AllHold(queues, pcbs, nodes, view) && AllLinked(nodes)
    }

    /** Block p holds the record of process p. */
    ghost predicate Record(p: nat, r: Process)
      requires p < |pcbs| <= pcbList.Length
      reads this`pcbs, pcbs, pcbList
    {
      pcbList[p] == pcbs[p] && r == Process(pcbs[p].pid, pcbs[p].ppid, pcbs[p].status, pcbs[p].pageTable, pcbs[p].cpu)
    }

    ghost predicate Listed(procs: seq<Process>)
      reads this`pcbs, this`cntPcb, pcbs, pcbList
    {
      && cntPcb == |pcbs| == |procs| <= MAX_PCB == pcbList.Length && Unique(pcbs)
      && (forall p: nat {:trigger Record(p, procs[p])} :: p < |pcbs| ==> Record(p, procs[p]))
    }

    ghost predicate Rep()
      reads this, pcbs, pcbList, elements
    {
      Queued() && Listed(view.procs)
    }

    /** init_rr and init_pcb. */
    constructor ()
      ensures Rep() && view == State(map[], [], {}, ZEROED)
    {
      var none := Queue(null, null);
      queues := map[NEW := none, READY := none, RUNNING := none, WAIT := none, ZOMBIE := none, ABORT := none];
      pcbList := new Pcb?[MAX_PCB](_ => null);
      cntPcb, contextIrq, contextSvc := 0, ZEROED, ZEROED;
      view, nodes, pcbs, elements := State(map[], [], {}, ZEROED), map[], [], {};
      new;
      forall st ensures Holds(queues, pcbs, [], st, []) {
        match st
        case _ => assert st == NEW || st == READY || st == RUNNING || st == WAIT || st == ZOMBIE || st == ABORT;
      }
    }

    // ---------- queues ----------

    /** The pointer changes of queue_push. */
    method Link(st: Status, element: Element)
      requires Queued() && element.next == null && element !in elements
      modifies this`queues, elements
      ensures queues == old(queues)[st := Queue((Of(nodes, st) + [element])[0], element)]
      ensures forall e :: e in elements ==>
        e.next == if Of(nodes, st) != [] && e == Of(nodes, st)[|Of(nodes, st)| - 1] then element else old(e.next)
    {
      ghost var ns := Of(nodes, st);
      assert Holds(queues, pcbs, ns, st, Q(view, st)) && Linked(ns);
      assert ns != [] ==> Node(ns, |ns| - 1);
      if queues[st].head == null {
        queues := queues[st := Queue(element, element)];
      } else {
        queues[st].tail.next := element;
        queues := queues[st := queues[st].(tail := element)];
      }
    }

    /** After the pointer changes every queue is linked, with the new element at the end of its own. */
    method Attach(st: Status, element: Element)
      requires Queued() && element.next == null && element !in elements
      modifies this`queues, this`elements, elements
      ensures queues == old(queues)[st := Queue((Of(nodes, st) + [element])[0], element)]
      ensures elements == old(elements) + {element}
      ensures AllLinked(nodes[st := Of(nodes, st) + [element]])
    {
      ghost var ns := Of(nodes, st);
      assert Linked(ns) && Holds(queues, pcbs, ns, st, Q(view, st));
      Link(st, element);
      elements := elements + {element};
      forall i | 0 <= i < |ns| + 1 ensures Node(ns + [element], i) {
        assert i < |ns| ==> old(Node(ns, i));
        assert i < |ns| - 1 ==> Differ(ns, i, |ns| - 1);
      }
      ghost var after := nodes[st := ns + [element]];
      forall t ensures Linked(Of(after, t)) {
        if t != st {
          var ms := Of(nodes, t);
          assert old(Linked(ms)) && Holds(old(queues), pcbs, ms, t, Q(view, t));
          forall i | 0 <= i < |ms| ensures Node(ms, i) {
            assert old(Node(ms, i));
            OtherOwner(old(queues), pcbs, ms, t, Q(view, t), i, ns, st, Q(view, st));
          }
        }
      }
    }

    /** queue_push. */
    method PushTo(st: Status, task: Pcb, ghost p: nat)
      requires Queued() && p < |pcbs| && task == pcbs[p]
      modifies this`queues, this`nodes, this`view, this`elements, elements
      ensures Queued() && view == Push(old(view), st, p)
      ensures fresh(elements - old(elements)) && old(elements) <= elements
    {
      var element := new Element(task, st);
      ghost var ns := Of(nodes, st);
      assert Linked(Of(nodes, st));
      assert element !in ns by {
        forall i | 0 <= i < |ns| ensures ns[i] != element { assert Node(ns, i); }
      }
      HoldsMore(queues, pcbs, nodes, view, st, p, element);
      Attach(st, element);
      nodes := nodes[st := ns + [element]];
      view := Push(view, st, p);
    }

    /** The pointer changes of queue_pop. */
    method Unlink(st: Status, p: Element, last: Element?, ghost i: nat)
      requires Queued() && Unique(pcbs) && Unique(Q(view, st)) && i < |Of(nodes, st)| && p == Of(nodes, st)[i]
      requires last == if i == 0 then null else Of(nodes, st)[i - 1]
      modifies this`queues, elements
      ensures var ms := Gone(Of(nodes, st), i); queues == old(queues)[st := Queue(At(ms, 0), LastOf(ms))]
      ensures forall e :: e in elements ==>
        e.next == if i > 0 && e == Of(nodes, st)[i - 1] then At(Of(nodes, st), i + 1) else old(e.next)
    {
      ghost var ns := Of(nodes, st);
      assert Holds(queues, pcbs, ns, st, Q(view, st)) && Linked(ns);
      assert Node(ns, i) && (i > 0 ==> Node(ns, i - 1));
      SamePcb(queues, pcbs, ns, st, Q(view, st), 0, i);
      SamePcb(queues, pcbs, ns, st, Q(view, st), i, |ns| - 1);
      if queues[st].head.pcb == p.pcb {
        queues := queues[st := queues[st].(head := p.next)];
      }
      if queues[st].tail.pcb == p.pcb {
        queues := queues[st := queues[st].(tail := last)];
      }
      if last != null {
        last.next := p.next;
      }
    }

    /** After the pointer changes every queue is linked, its own without the element. */
    method Detach(st: Status, p: Element, last: Element?, ghost i: nat)
      requires Queued() && Unique(pcbs) && Unique(Q(view, st)) && i < |Of(nodes, st)| && p == Of(nodes, st)[i]
      requires last == if i == 0 then null else Of(nodes, st)[i - 1]
      modifies this`queues, elements
      ensures var ms := Gone(Of(nodes, st), i); queues == old(queues)[st := Queue(At(ms, 0), LastOf(ms))]
      ensures AllLinked(nodes[st := Gone(Of(nodes, st), i)])
    {
      ghost var ns := Of(nodes, st);
      ghost var ms := Gone(ns, i);
      assert Linked(ns) && Holds(queues, pcbs, ns, st, Q(view, st));
      Unlink(st, p, last, i);
      forall k | 0 <= k < |ms| ensures Node(ms, k) {
        ghost var j := if k < i then k else k + 1;
        assert old(Node(ns, j));
        assert i > 0 && j < i - 1 ==> Differ(ns, j, i - 1);
        assert i > 0 && j > i - 1 ==> Differ(ns, i - 1, j);
      }
      ghost var after := nodes[st := ms];
      forall t ensures Linked(Of(after, t)) {
        if t != st {
          var other := Of(nodes, t);
          assert old(Linked(other)) && Holds(old(queues), pcbs, other, t, Q(view, t));
          forall k | 0 <= k < |other| ensures Node(other, k) {
            assert old(Node(other, k));
            OtherOwner(old(queues), pcbs, other, t, Q(view, t), k, ns, st, Q(view, st));
          }
        }
      }
    }

    /** The search of queue_pop, with the element before the one found. */
    method FindElement(st: Status, task: Pcb, ghost pid: nat) returns (p: Element?, last: Element?, ghost i: nat)
      requires Queued() && Unique(pcbs) && pid < |pcbs| && task == pcbs[pid]
      ensures |Of(nodes, st)| == |Q(view, st)| && i <= |Q(view, st)| && p == At(Of(nodes, st), i)
      ensures last == if i == 0 then null else Of(nodes, st)[i - 1]
      ensures if i < |Q(view, st)| then Q(view, st)[i] == pid else pid !in Q(view, st)
      ensures p != null <==> pid in Q(view, st)
    {
      ghost var ns := Of(nodes, st);
      assert Holds(queues, pcbs, ns, st, Q(view, st)) && Linked(ns);
      last := null;
      p := queues[st].head;
      i := 0;
      while p != null
        invariant i <= |ns| && p == At(ns, i) && last == (if i == 0 then null else ns[i - 1])
        invariant forall j :: 0 <= j < i ==> Q(view, st)[j] != pid
        decreases |ns| - i
      {
        assert Node(ns, i) && Named(pcbs, ns, st, Q(view, st), i);
        if p.pcb == task {
          UniqueIndex(pcbs, Q(view, st)[i], pid);
          return;
        }
        last := p;
        p := p.next;
        i := i + 1;
      }
    }

    method RemoveElement(st: Status, p: Element, last: Element?, ghost i: nat, ghost pid: nat)
      requires Queued() && Unique(pcbs) && Unique(Q(view, st)) && i < |Of(nodes, st)| == |Q(view, st)|
        && p == Of(nodes, st)[i]
      requires last == (if i == 0 then null else Of(nodes, st)[i - 1]) && Q(view, st)[i] == pid
      modifies this`queues, this`nodes, this`view, elements
      ensures Queued() && view == Pop(old(view), st, pid)
    {
      HoldsLess(queues, pcbs, nodes, view, st, i);
      ghost var after := nodes[st := Gone(Of(nodes, st), i)];
      Detach(st, p, last, i);
      nodes := after;
      view := Pop(view, st, pid);
    }

    /** queue_pop: the element of a process is taken out wherever it is; a process not in the queue
        leaves it as it was. */
    method PopFrom(st: Status, task: Pcb, ghost pid: nat)
      requires Queued() && Unique(pcbs) && Unique(Q(view, st)) && pid < |pcbs| && task == pcbs[pid]
      modifies this`queues, this`nodes, this`view, elements
      ensures Queued() && view == Pop(old(view), st, pid)
    {
      var p, last;
      ghost var i;
      p, last, i := FindElement(st, task, pid);
      if p != null {
        RemoveElement(st, p, last, i, pid);
      } else {
        HoldsSame(queues, pcbs, nodes, view, st, pid);
        view := Pop(view, st, pid);
      }
    }

    // ---------- process blocks ----------

    method SetStatusOf(task: Pcb, to: Status, ghost p: nat)
      requires Rep() && p < |pcbs| && task == pcbs[p]
      modifies this`view, task`status
      ensures Rep() && view == SetStatus(old(view), p, to)
    {
      task.status := to;
      ghost var procs := view.procs[p := view.procs[p].(status := to)];
      forall x: nat | x < |pcbs| ensures Record(x, procs[x]) {
        assert old(Record(x, view.procs[x]));
        if x != p && pcbs[x] == task { UniqueIndex(pcbs, x, p); }
      }
      HoldsKept(queues, pcbs, nodes, view, SetStatus(view, p, to));
      view := SetStatus(view, p, to);
    }

    method SetCpuOf(task: Pcb, cpu: Context, ghost p: nat)
      requires Rep() && p < |pcbs| && task == pcbs[p]
      modifies this`view, task`cpu
      ensures Rep() && view == Save(old(view), p, cpu)
    {
      task.cpu := cpu;
      ghost var procs := view.procs[p := view.procs[p].(cpu := cpu)];
      forall x: nat | x < |pcbs| ensures Record(x, procs[x]) {
        assert old(Record(x, view.procs[x]));
        if x != p && pcbs[x] == task { UniqueIndex(pcbs, x, p); }
      }
      HoldsKept(queues, pcbs, nodes, view, Save(view, p, cpu));
      view := Save(view, p, cpu);
    }

    // ---------- transitions ----------

    /** The three steps all transitions have: out of one queue, into another, and the status. */
    method Transfer(task: Pcb, from: Status, to: Status, ghost p: nat)
      requires Rep() && Unique(Q(view, from)) && p < |pcbs| && task == pcbs[p]
      modifies this`queues, this`nodes, this`view, this`elements, elements, task`status
      ensures Rep() && view == Move(old(view), p, from, to)
      ensures fresh(elements - old(elements)) && old(elements) <= elements
    {
      PopFrom(from, task, p);
      PushTo(to, task, p);
      SetStatusOf(task, to, p);
    }

    /** sched_mature. */
    method Mature(task: Pcb, ghost p: nat)
      requires Rep() && Unique(Q(view, NEW)) && p < |pcbs| && task == pcbs[p]
      modifies this`queues, this`nodes, this`view, this`elements, elements, task`status
      ensures Rep() && view == Move(old(view), p, NEW, READY)
      ensures fresh(elements - old(elements)) && old(elements) <= elements
    {
      Transfer(task, NEW, READY, p);
    }

    /** sched_allow. */
    method Allow(task: Pcb, ghost p: nat)
      requires Rep() && Unique(Q(view, READY)) && p < |pcbs| && task == pcbs[p]
      modifies this`queues, this`nodes, this`view, this`elements, elements, task`status
      ensures Rep() && view == Move(old(view), p, READY, RUNNING)
      ensures fresh(elements - old(elements)) && old(elements) <= elements
    {
      Transfer(task, READY, RUNNING, p);
    }

    /** sched_block. */
    method Block(task: Pcb, ghost p: nat)
      requires Rep() && Unique(Q(view, RUNNING)) && p < |pcbs| && task == pcbs[p]
      modifies this`queues, this`nodes, this`view, this`elements, elements, task`status
      ensures Rep() && view == Move(old(view), p, RUNNING, WAIT)
      ensures fresh(elements - old(elements)) && old(elements) <= elements
    {
      Transfer(task, RUNNING, WAIT, p);
    }

    /** sched_preempt. */
    method Preempt(task: Pcb, ghost p: nat)
      requires Rep() && Unique(Q(view, RUNNING)) && p < |pcbs| && task == pcbs[p]
      modifies this`queues, this`nodes, this`view, this`elements, elements, task`status
      ensures Rep() && view == Move(old(view), p, RUNNING, READY)
      ensures fresh(elements - old(elements)) && old(elements) <= elements
    {
      Transfer(task, RUNNING, READY, p);
    }

    /** sched_wake. */
    method Wake(task: Pcb, ghost p: nat)
      requires Rep() && Unique(Q(view, WAIT)) && p < |pcbs| && task == pcbs[p]
      modifies this`queues, this`nodes, this`view, this`elements, elements, task`status
      ensures Rep() && view == Move(old(view), p, WAIT, READY)
      ensures fresh(elements - old(elements)) && old(elements) <= elements
    {
      Transfer(task, WAIT, READY, p);
    }

    /** sched_finish. */
    method Finish(task: Pcb, ghost p: nat)
      requires Rep() && Unique(Q(view, RUNNING)) && p < |pcbs| && task == pcbs[p]
      modifies this`queues, this`nodes, this`view, this`elements, elements, task`status
      ensures Rep() && view == Move(old(view), p, RUNNING, ZOMBIE)
      ensures fresh(elements - old(elements)) && old(elements) <= elements
    {
      Transfer(task, RUNNING, ZOMBIE, p);
    }

    /** sched_kill. */
    method KillTask(task: Pcb, ghost p: nat)
      requires Rep() && Inv(view) && p < |pcbs| && task == pcbs[p]
      modifies this`queues, this`nodes, this`view, this`elements, elements, task`status
      ensures Rep() && view == Kill(old(view), p)
      ensures fresh(elements - old(elements)) && old(elements) <= elements
    {
      assert Record(p, view.procs[p]);
      assert QueueOk(view, task.status);
      match task.status {
        case NEW => PopFrom(NEW, task, p);
        case READY => PopFrom(READY, task, p);
        case RUNNING => PopFrom(RUNNING, task, p);
        case WAIT => PopFrom(WAIT, task, p);
        case _ =>
      }
      PushTo(ABORT, task, p);
      SetStatusOf(task, ABORT, p);
    }

    /** sched_free. */
    method FreeTask(task: Pcb, ghost p: nat)
      requires Rep() && Unique(Q(view, ZOMBIE)) && p < |pcbs| && task == pcbs[p]
      modifies this`queues, this`nodes, this`view, elements
      ensures Rep() && view == Free(old(view), p)
    {
      PopFrom(ZOMBIE, task, p);
      HoldsKept(queues, pcbs, nodes, view, view.(freed := view.freed + {p}));
      view := view.(freed := view.freed + {p});
    }

    // ---------- look-ups ----------

    /** sched_get_running and sched_pick: the head of a queue that has one. */
    method HeadOf(st: Status) returns (task: Pcb)
      requires Rep() && Q(view, st) != []
      ensures Q(view, st)[0] < |pcbs| && task == pcbs[Q(view, st)[0]]
    {
      assert Holds(queues, pcbs, Of(nodes, st), st, Q(view, st));
      assert Named(pcbs, Of(nodes, st), st, Q(view, st), 0);
      task := queues[st].head.pcb;
    }

    /** sched_get_bypid_in. */
    method GetByPidIn(st: Status, pid: int) returns (task: Pcb?)
      requires Rep() && Inv(view)
      ensures task == if 0 <= pid < |pcbs| && (pid as nat) in Q(view, st) then pcbs[pid] else null
      ensures task != null ==> 0 <= pid < |pcbs| && (pid as nat) !in view.freed && task == pcbs[pid]
    {
      ghost var ns := Of(nodes, st);
      assert Holds(queues, pcbs, ns, st, Q(view, st)) && Linked(ns) && QueueOk(view, st);
      var p := queues[st].head;
      ghost var i: nat := 0;
      while p != null
        invariant i <= |ns| && p == At(ns, i)
        invariant forall j :: 0 <= j < i ==> Q(view, st)[j] != pid
        decreases |ns| - i
      {
        assert Node(ns, i) && Named(pcbs, ns, st, Q(view, st), i);
        ghost var k := Q(view, st)[i];
        assert Record(k, view.procs[k]) && ProcOk(view, k);
        if p.pcb.pid == pid {
          return p.pcb;
        }
        p := p.next;
        i := i + 1;
      }
      return null;
    }

    /** sched_get_bypid: the block of a process that has not been freed, found in whichever queue
        it is. */
    method GetByPid(pid: int) returns (task: Pcb?)
      requires Rep() && Inv(view)
      ensures task == if 0 <= pid < |pcbs| && (pid as nat) !in view.freed then pcbs[pid] else null
    {
      task := GetByPidIn(NEW, pid);
      if task != null {
        return;
      }
      task := GetByPidIn(READY, pid);
      if task != null {
        return;
      }
      task := GetByPidIn(RUNNING, pid);
      if task != null {
        return;
      }
      task := GetByPidIn(WAIT, pid);
      if task != null {
        return;
      }
      task := GetByPidIn(ZOMBIE, pid);
      if task != null {
        return;
      }
      task := GetByPidIn(ABORT, pid);
      if 0 <= pid < |pcbs| { SomeQueue(view, pid); }
    }

    // ---------- new processes ----------

    /** new_pcb, when there is room in the list. */
    method NewPcb() returns (task: Pcb)
      requires Rep() && cntPcb < MAX_PCB
      modifies this`queues, this`nodes, this`view, this`elements, this`pcbs, this`cntPcb, elements, pcbList
      ensures Rep() && view == New(old(view)) && pcbs == old(pcbs) + [task] && fresh(task)
      ensures fresh(elements - old(elements)) && old(elements) <= elements
    {
      task := new Pcb();
      AddBlock(task);
      PushTo(NEW, task, |pcbs| - 1);
    }

    /** The entry in the list, and the block's number. */
    method ListBlock(task: Pcb)
      requires Listed(view.procs) && cntPcb < MAX_PCB && task !in pcbs && task !in pcbList[..]
      requires task.ppid == 0 && task.status == NEW && task.pageTable == 0 && task.cpu == ZEROED
      modifies this`pcbs, this`cntPcb, pcbList, task`pid, task`status
      ensures pcbs == old(pcbs) + [task]
      ensures Listed(view.procs + [Process(|old(pcbs)|, 0, NEW, 0, ZEROED)])
    {
      pcbList[cntPcb] := task;
      task.status := NEW;
      task.pid := cntPcb;
      cntPcb := cntPcb + 1;
      PushUnique(pcbs, task);
      ghost var procs := view.procs + [Process(|pcbs|, 0, NEW, 0, ZEROED)];
      ghost var was := pcbs;
      pcbs := pcbs + [task];
      forall x: nat | x < |pcbs| ensures Record(x, procs[x]) {
        assert x < |was| ==> old(Record(x, view.procs[x]));
      }
    }

    method AddBlock(task: Pcb)
      requires Rep() && cntPcb < MAX_PCB && task !in pcbs && task !in pcbList[..]
      requires task.ppid == 0 && task.status == NEW && task.pageTable == 0 && task.cpu == ZEROED
      modifies this`view, this`pcbs, this`cntPcb, pcbList, task`pid, task`status
      ensures Rep() && pcbs == old(pcbs) + [task]
      ensures view == old(view).(procs := old(view).procs + [Process(|old(pcbs)|, 0, NEW, 0, ZEROED)])
    {
      ghost var after := view.(procs := view.procs + [Process(|pcbs|, 0, NEW, 0, ZEROED)]);
      HoldsWider(queues, pcbs, task, nodes, view);
      HoldsKept(queues, pcbs + [task], nodes, view, after);
      ListBlock(task);
      view := after;
    }

    // ---------- switching ----------

    /** switch_to, of the blocks' contexts and the context to return with. */
    method SwitchTo(from: Pcb, to: Pcb, onReturn: Context, ghost f: nat, ghost t: nat) returns (out: Context)
      requires Rep() && f < |pcbs| && from == pcbs[f] && t < |pcbs| && to == pcbs[t] && onReturn == view.live
      modifies this`view, from`cpu
      ensures Rep() && view == ContextSwitch(old(view), f, t) && out == view.live
    {
      SetCpuOf(from, onReturn, f);
      assert Record(t, view.procs[t]);
      out := to.cpu;
      HoldsKept(queues, pcbs, nodes, view, view.(live := out));
      view := view.(live := out);
    }

    /** sched_pick and sched_allow. */
    method AllowPicked() returns (next: Pcb)
      requires Rep() && Q(view, READY) != [] && Unique(Q(view, READY)) && Q(view, READY)[0] < |view.procs|
      modifies this`queues, this`nodes, this`view, this`elements, elements, pcbs
      ensures Rep() && view == Move(old(view), old(Q(view, READY)[0]), READY, RUNNING)
      ensures old(Q(view, READY)[0]) < |pcbs| && next == pcbs[old(Q(view, READY)[0])]
    {
      next := HeadOf(READY);
      Allow(next, Q(view, READY)[0]);
    }

    /** sched_main after the running process is back in line. */
    method ResumeNext(now: Pcb, ghost f: nat)
      requires Rep() && f < |pcbs| && now == pcbs[f] && contextIrq == view.live
      requires Q(view, READY) != [] && Unique(Q(view, READY)) && Q(view, READY)[0] < |view.procs|
      modifies this`queues, this`nodes, this`view, this`elements, this`contextIrq, elements, pcbs
      ensures Rep() && contextIrq == view.live && f < |old(view).procs|
      ensures view == ContextSwitch(Move(old(view), old(Q(view, READY)[0]), READY, RUNNING), f, old(Q(view, READY)[0]))
    {
      ghost var t := Q(view, READY)[0];
      var next := AllowPicked();
      contextIrq := SwitchTo(now, next, contextIrq, f, t);
    }

    /** sched_main. */
    method SchedMainTick()
      requires Rep() && Inv(view) && Q(view, RUNNING) != [] && contextIrq == view.live
      modifies this`queues, this`nodes, this`view, this`elements, this`contextIrq, elements, pcbs
      ensures Rep() && old(Current(view) < |view.procs| && ReadyKnown(view))
        && view == SchedMain(old(view), old(Current(view)))
      ensures contextIrq == view.live
    {
      PreemptMeaning(view);
      ghost var f := Current(view);
      var now := HeadOf(RUNNING);
      Preempt(now, f);
      ResumeNext(now, f);
    }

    /** int_ent_irq with these registers on the interrupt stack: what the processor goes on with. */
    method IntEntIrq(regs: Context, id: int) returns (out: Context)
      requires Rep() && Inv(view) && Q(view, RUNNING) != [] && regs == Trapped(view.live)
        && 0 <= view.live.pc < WORD_RANGE
      modifies this`queues, this`nodes, this`view, this`elements, this`contextIrq, elements, pcbs
      ensures Rep() && old(Current(view) < |view.procs| && ReadyKnown(view)) && view == Irq(old(view), id)
        && out == view.live
    {
      RunningKnown(view);
      contextIrq := regs;
      var running := HeadOf(RUNNING);
      SaveInv(view, Current(view), regs);
      SetCpuOf(running, contextIrq, Current(view));
      contextIrq := contextIrq.(pc := (contextIrq.pc - 4) % WORD_RANGE);
      assert contextIrq == view.live;
      if id == TIMER_IRQ {
        SchedMainTick();
      }
      out := contextIrq;
    }

    // ---------- fork ----------

    /** The copy of the parent's block, with the child's own number, parent and page table. */
    method WriteCopy(to: Pcb, from: Pcb, pid: int, ppid: int, table: int, ghost c: nat, ghost f: nat)
      requires Listed(view.procs) && c < |pcbs| && to == pcbs[c] && f < |pcbs| && from == pcbs[f] && c != f
      modifies to
      ensures Listed(view.procs[c := view.procs[f].(pid := pid, ppid := ppid, pageTable := table)])
    {
      assert Record(f, view.procs[f]);
      if to == from { UniqueIndex(pcbs, c, f); }
      to.pid, to.ppid, to.status, to.pageTable, to.cpu := from.pid, from.ppid, from.status, from.pageTable, from.cpu;
      to.pageTable := table;
      to.pid := pid;
      to.ppid := ppid;
      ghost var procs := view.procs[c := view.procs[f].(pid := pid, ppid := ppid, pageTable := table)];
      forall x: nat | x < |pcbs| ensures Record(x, procs[x]) {
        assert old(Record(x, view.procs[x]));
        if x != c && pcbs[x] == to { UniqueIndex(pcbs, x, c); }
      }
    }

    method CopyBlock(to: Pcb, from: Pcb, pid: int, ppid: int, table: int, ghost c: nat, ghost f: nat)
      requires Rep() && c < |pcbs| && to == pcbs[c] && f < |pcbs| && from == pcbs[f] && c != f
      modifies this`view, to
      ensures Rep()
      ensures
        var copy := old(view).procs[f].(pid := pid, ppid := ppid, pageTable := table);
        view == old(view).(procs := old(view).procs[c := copy])
    {
      ghost var after := view.(procs := view.procs[c := view.procs[f].(pid := pid, ppid := ppid, pageTable := table)]);
      HoldsKept(queues, pcbs, nodes, view, after);
      WriteCopy(to, from, pid, ppid, table, c, f);
      view := after;
    }

    /** The svc entry and _fork with a page table for the child: what the parent goes on with. */
    method ForkCall(regs: Context, table: int) returns (out: Context)
      requires Rep() && Inv(view) && Q(view, RUNNING) != [] && regs == view.live && cntPcb < MAX_PCB
      modifies this`queues, this`nodes, this`view, this`elements, this`pcbs, this`cntPcb, this`contextSvc
      modifies elements, pcbs, pcbList
      ensures Rep() && old(Current(view) < |view.procs|) && view == Fork(old(view), table) && out == view.live
    {
      RunningKnown(view);
      ghost var f, c := Current(view), |pcbs|;
      contextSvc := regs;
      var running := HeadOf(RUNNING);
      SaveInv(view, f, regs);
      SetCpuOf(running, contextSvc, f);
      NewInv(view);
      assert QueueOk(New(view), NEW);
      var child := NewPcb();
      out := FinishFork(child, table, f, c);
    }

    /** _fork after new_pcb: the copy, and the child into the ready queue. */
    method FinishFork(child: Pcb, table: int, ghost f: nat, ghost c: nat) returns (out: Context)
      requires Rep() && Unique(Q(view, NEW)) && Q(view, RUNNING) != [] && f == Current(view) && f < c < |pcbs|
        && child == pcbs[c]
      requires contextSvc == view.live
      modifies this`queues, this`nodes, this`view, this`elements, this`contextSvc, elements, pcbs
      ensures Rep() && out == view.live
      ensures view == Forked(old(view), f, c, table)
    {
      var parent := HeadOf(RUNNING);
      assert Record(c, view.procs[c]) && Record(f, view.procs[f]);
      CopyBlock(child, parent, child.pid, parent.pid, table, c, f);
      Mature(child, c);
      out := ForkReturns(parent, child, f, c);
    }

    /** The return values of _fork. */
    method ForkReturns(parent: Pcb, child: Pcb, ghost f: nat, ghost c: nat) returns (out: Context)
      requires Rep() && f < |pcbs| && c < |pcbs| && f != c && parent == pcbs[f] && child == pcbs[c]
        && contextSvc == view.live
      modifies this`view, this`contextSvc, pcbs
      ensures Rep() && out == view.live
      ensures view == Returns(old(view), f, c)
    {
      assert Record(c, view.procs[c]) && Record(f, view.procs[f]);
      contextSvc := contextSvc.(r0 := child.pid);
      SetCpuOf(parent, parent.cpu.(r0 := child.pid), f);
      assert Record(c, view.procs[c]);
      SetCpuOf(child, child.cpu.(r0 := 0), c);
      HoldsKept(queues, pcbs, nodes, view, view.(live := contextSvc));
      view := view.(live := contextSvc);
      out := contextSvc;
    }

    // ---------- boot ----------

    /** init_sched up to its first system call. */
    method InitSched(kernelTable: int)
      requires Rep() && view == State(map[], [], {}, ZEROED) && pcbs == []
      modifies this`queues, this`nodes, this`view, this`elements, this`pcbs, this`cntPcb, elements, pcbList
      ensures Rep() && view == Boot(kernelTable)
    {
      var now := NewPcb();
      BootBlock(now, kernelTable);
      Mature(now, 0);
      Allow(now, 0);
      var mirror := NewPcb();
    }

    /** What init_sched writes into the first block. */
    method BootBlock(now: Pcb, kernelTable: int)
      requires Rep() && |pcbs| == 1 && now == pcbs[0]
      modifies this`view, now
      ensures Rep()
      ensures
        var p := old(view).procs[0];
        view == old(view).(procs := [p.(ppid := p.pid, status := RUNNING, pageTable := kernelTable)])
    {
      assert Record(0, view.procs[0]);
      now.ppid := now.pid;
      now.status := RUNNING;
      now.pageTable := kernelTable;
      ghost var procs := [view.procs[0].(ppid := view.procs[0].pid, status := RUNNING, pageTable := kernelTable)];
      assert Record(0, procs[0]);
      HoldsKept(queues, pcbs, nodes, view, view.(procs := procs));
      view := view.(procs := procs);
    }
  }
}
