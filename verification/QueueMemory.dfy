/** kern/sched/policy_rr.c on the slab: what the scheduler's queues do to the memory of their elements. */
module QueueMemory {
  import opened Slab
  import SlabRuns

  const ELEMENT_SIZE := 8          // sizeof(queue_element_t)

  /** A queue element: its pool and its address. */
  datatype Element = Element(pool: int, at: int)

  /** The allocators, and every element queue_push ever got. */
  datatype State = State(st: Slabs, elements: seq<Element>)

  /** queue_push and queue_pop as they call the slab, and everything others do with it. */
  datatype Event = PushElement | PopElement(at: int) | Other(e: SlabRuns.Event)

  /** Others do not release the queues' elements, and nobody goes on when memory has run out. */
  ghost predicate Enabled(s: State, e: Event) {
    match e
    case PushElement => Request(ELEMENT_SIZE, 0) && SlabRuns.SlbAlloc(s.st, ELEMENT_SIZE, 4).Some?
    case PopElement(at) => true
    case Other(f) => SlabRuns.Enabled(s.st, f) && !(f.Release? && Element(f.pool, f.obj) in s.elements)
  }

  /** slb_alloc without alignment takes 4; slb_free passes on that there is none. */
  ghost function Step(s: State, e: Event): State
    requires Enabled(s, e)
  {
    match e
    case PushElement =>
      var (t, x, a) := SlabRuns.SlbAlloc(s.st, ELEMENT_SIZE, AlignFor(ELEMENT_SIZE, 0)).value;
      State(t, s.elements + [Element(a, x)])
    case PopElement(at) => s.(st := SlabRuns.SlbFree(s.st, at, ELEMENT_SIZE, 0).0)
    case Other(f) => s.(st := SlabRuns.Step(s.st, f))
  }

  ghost predicate Held(s: State, i: int)
    requires 0 <= i < |s.elements|
  {
    SlabRuns.Out(s.st, s.elements[i].pool, s.elements[i].at)
  }

  ghost predicate Different(s: State, i: int, j: int)
    requires 0 <= i < j < |s.elements|
  {
    s.elements[i] != s.elements[j]
  }

  /** Every element ever pushed is still outstanding, and no two are one. */
  ghost predicate AllHeld(s: State) {
    && Inv(s.st)
    && (forall i :: 0 <= i < |s.elements| ==> Held(s, i))
    && (forall i, j :: 0 <= i < j < |s.elements| ==> Different(s, i, j))
  }

  /** Whatever happens to the slab, an outstanding object stays so until it is released itself. */
  lemma StaysOut(s: Slabs, e: SlabRuns.Event, a: int, x: int)
    requires Inv(s) && SlabRuns.Enabled(s, e) && SlabRuns.Out(s, a, x) && e != SlabRuns.Release(a, x)
    ensures SlabRuns.Out(SlabRuns.Step(s, e), a, x)
  {
    match e
    case Allocate(osize, align) => SlabRuns.AllocMeaning(s, osize, align);
    case Release(b, y) => SlabRuns.FreeMeaning(s, b, y);
    case TakePages(_) =>
    case GivePages(_) =>
  }

  lemma StepHeld(s: State, e: Event)
    requires AllHeld(s) && Enabled(s, e)
    ensures AllHeld(Step(s, e)) && |Step(s, e).elements| == |s.elements| + Pushes([e])
  {
    var t := Step(s, e);
    match e
    case PushElement =>
      SlabRuns.AllocMeaning(s.st, ELEMENT_SIZE, 4);
      forall i | 0 <= i < |t.elements| ensures Held(t, i) { assert i < |s.elements| ==> Held(s, i); }
      forall i, j | 0 <= i < j < |t.elements| ensures Different(t, i, j) {
        assert Held(s, i) && (j < |s.elements| ==> Different(s, i, j));
      }
    case PopElement(at) => SlabRuns.DefaultAlignRefused(s.st, at, ELEMENT_SIZE);
    case Other(f) =>
      SlabRuns.StepInv(s.st, f);
      forall i | 0 <= i < |t.elements| ensures Held(t, i) {
        assert Held(s, i) && s.elements[i] in s.elements;
        StaysOut(s.st, f, s.elements[i].pool, s.elements[i].at);
      }
      forall i, j | 0 <= i < j < |t.elements| ensures Different(t, i, j) { assert Different(s, i, j); }
  }

  function Pushes(es: seq<Event>): nat {
    if es == [] then 0 else (if es[0].PushElement? then 1 else 0) + Pushes(es[1..])
  }

  ghost predicate Runs(s: State, es: seq<Event>)
    decreases |es|
  {
    es == [] || (Enabled(s, es[0]) && Runs(Step(s, es[0]), es[1..]))
  }

  ghost function After(s: State, es: seq<Event>): State
    requires Runs(s, es)
    decreases |es|
  {
    if es == [] then s else After(Step(s, es[0]), es[1..])
  }

  /** However often elements are popped, no element queue_push ever got goes back to the slab: as
      many distinct objects stay taken as there were pushes. */
  lemma {:induction false} NeverGivenBack(s: State, es: seq<Event>)
    requires AllHeld(s) && Runs(s, es)
    ensures AllHeld(After(s, es)) && |After(s, es).elements| == |s.elements| + Pushes(es)
    decreases |es|
  {
    if es == [] {
    } else {
      StepHeld(s, es[0]);
      NeverGivenBack(Step(s, es[0]), es[1..]);
    }
  }
}
