/** The queue record, its two operations, and what every run of them keeps
    (ideas/queue/queue.c:20-115). */
module QueueRuns {
  import opened Options
  import opened Times
  import opened HeapSpec

  /** heap is heap[0..c_items), cap is n_items, growable is flags & OSC_QUEUE_GROWABLE. */
  datatype Queue = Queue(heap: seq<Msg>, cap: nat, growable: bool)

  predicate Valid(q: Queue) {
    IsHeap(q.heap) && |q.heap| <= q.cap && (q.growable ==> q.cap >= 1)
  }

  function Add(q: Queue, m: Msg): (Queue, bool) {
    if |q.heap| == q.cap && !q.growable then (q, false)
    else (q.(heap := AddHeap(q.heap, m), cap := if |q.heap| == q.cap then 2 * q.cap else q.cap), true)
  }

  function Remove(q: Queue): (Queue, Option<Msg>) {
    if q.heap == [] then (q, None) else (q.(heap := RemoveHeap(q.heap)), Some(q.heap[0]))
  }

  // ---------- Runs ----------

  datatype Op = OpAdd(m: Msg) | OpRemove
  datatype Result = Added(ok: bool) | Removed(m: Option<Msg>)

  function Step(q: Queue, op: Op): (Queue, Result) {
    match op
    case OpAdd(m) => var (q', ok) := Add(q, m); (q', Added(ok))
    case OpRemove => var (q', m) := Remove(q); (q', Removed(m))
  }

  function Run(q: Queue, ops: seq<Op>): (Queue, seq<Result>)
    decreases |ops|
  {
    if ops == [] then (q, [])
    else
      var (q1, r) := Step(q, ops[0]);
      var (q2, rs) := Run(q1, ops[1..]);
      (q2, [r] + rs)
  }

  // ---------- The abstract priority queue: a bag of messages ----------

  /** The results an abstract queue holding bag may give; limit is its size bound, if any. */
  ghost predicate Allowed(bag: multiset<Msg>, limit: Option<nat>, op: Op, r: Result) {
    match (op, r)
    case (OpAdd(_), Added(ok)) => ok <==> limit.None? || |bag| < limit.value
    case (OpRemove, Removed(None)) => bag == multiset{}
    case (OpRemove, Removed(Some(m))) => m in bag && forall o | o in bag :: !Before(o.due, m.due)
    case _ => false
  }

  ghost function BagAfter(bag: multiset<Msg>, op: Op, r: Result): multiset<Msg> {
    match (op, r)
    case (OpAdd(m), Added(true)) => bag + multiset{m}
    case (OpRemove, Removed(Some(m))) => bag - multiset{m}
    case _ => bag
  }

  ghost predicate LegalRun(bag: multiset<Msg>, limit: Option<nat>, ops: seq<Op>, rs: seq<Result>, end: multiset<Msg>)
    decreases |ops|
  {
    |rs| == |ops| &&
    if ops == [] then end == bag
    else Allowed(bag, limit, ops[0], rs[0]) && LegalRun(BagAfter(bag, ops[0], rs[0]), limit, ops[1..], rs[1..], end)
  }

  function Limit(q: Queue): Option<nat> {
    if q.growable then None else Some(q.cap)
  }

  /** A message that is due first in a heap is due first in its bag. */
  lemma EarliestInBag(h: seq<Msg>, m: Msg)
    requires Earliest(m, h)
    ensures m in multiset(h) && forall o | o in multiset(h) :: !Before(o.due, m.due)
  {
  }

  lemma RemoveRefines(q: Queue)
    requires Valid(q)
    ensures var (q', m) := Remove(q);
            && Valid(q') && Limit(q') == Limit(q)
            && Allowed(multiset(q.heap), Limit(q), OpRemove, Removed(m))
            && multiset(q'.heap) == BagAfter(multiset(q.heap), OpRemove, Removed(m))
  {
    hide IsHeap, RemoveHeap, Earliest, Before;
    if q.heap != [] {
      RemoveHeapCorrect(q.heap);
      EarliestInBag(q.heap, q.heap[0]);
    }
  }

  lemma AddRefines(q: Queue, m: Msg)
    requires Valid(q)
    ensures var (q', ok) := Add(q, m);
            && Valid(q') && Limit(q') == Limit(q)
            && Allowed(multiset(q.heap), Limit(q), OpAdd(m), Added(ok))
            && multiset(q'.heap) == BagAfter(multiset(q.heap), OpAdd(m), Added(ok))
  {
    hide IsHeap, AddHeap;
    assert |multiset(q.heap)| == |q.heap|;
    AddHeapCorrect(q.heap, m);
  }

  lemma StepRefines(q: Queue, op: Op)
    requires Valid(q)
    ensures var (q', r) := Step(q, op);
            && Valid(q') && Limit(q') == Limit(q)
            && Allowed(multiset(q.heap), Limit(q), op, r)
            && multiset(q'.heap) == BagAfter(multiset(q.heap), op, r)
  {
    hide Valid, Allowed, BagAfter, Add, Remove;
    match op
    case OpAdd(m) => AddRefines(q, m);
    case OpRemove => RemoveRefines(q);
  }

  /** Every run of adds and removes is a run of the abstract queue: the answers are allowed
      at each step and the messages are conserved with their multiplicity. */
  lemma {:induction false} RunRefines(q: Queue, ops: seq<Op>)
    requires Valid(q)
    ensures Valid(Run(q, ops).0)
    ensures LegalRun(multiset(q.heap), Limit(q), ops, Run(q, ops).1, multiset(Run(q, ops).0.heap))
    decreases |ops|
  {
    if ops != [] {
      var (q1, r) := Step(q, ops[0]);
      StepRefines(q, ops[0]);
      RunRefines(q1, ops[1..]);
      assert Run(q, ops).1[1..] == Run(q1, ops[1..]).1;
    }
  }

  // ---------- Draining ----------

  function Drain(q: Queue): seq<Msg>
    requires Valid(q)
    decreases |q.heap|
  {
    if q.heap == [] then []
    else
      StepRefines(q, OpRemove);
      RemoveHeapCorrect(q.heap);
      [q.heap[0]] + Drain(Remove(q).0)
  }

  predicate SortedByDue(ms: seq<Msg>) {
    forall i, j | 0 <= i < j < |ms| :: !Before(ms[j].due, ms[i].due)
  }

  lemma SortedCons(m: Msg, rest: seq<Msg>, h: seq<Msg>)
    requires SortedByDue(rest) && Earliest(m, h) && multiset(rest) <= multiset(h)
    ensures SortedByDue([m] + rest)
  {
    forall j | 0 <= j < |rest|
      ensures !Before(rest[j].due, m.due)
    {
      assert rest[j] in multiset(rest);
      assert rest[j] in multiset(h);
    }
  }

  /** Removing until the queue is empty yields its messages, each once, in order of due time. */
  lemma {:induction false} DrainSorts(q: Queue)
    requires Valid(q)
    ensures multiset(Drain(q)) == multiset(q.heap) && SortedByDue(Drain(q))
    decreases |q.heap|
  {
    hide IsHeap, RemoveHeap, Earliest, SortedByDue;
    if q.heap == [] {
      NothingSorted();
    } else {
      RemoveHeapCorrect(q.heap);
      var q' := Remove(q).0;
      DrainSorts(q');
      SortedCons(q.heap[0], Drain(q'), q.heap);
    }
  }

  lemma NothingSorted()
    ensures SortedByDue([])
  {
  }

  // ---------- Capacity ----------

  /** The largest number of messages held during the run. */
  function Peak(q: Queue, ops: seq<Op>): nat
    decreases |ops|
  {
    if ops == [] then |q.heap|
    else
      var p := Peak(Step(q, ops[0]).0, ops[1..]);
      if p < |q.heap| then |q.heap| else p
  }

  /** How often the run doubles the capacity. */
  function Growths(q: Queue, ops: seq<Op>): nat
    decreases |ops|
  {
    if ops == [] then 0
    else
      var q1 := Step(q, ops[0]).0;
      (if q1.cap != q.cap then 1 else 0) + Growths(q1, ops[1..])
  }

  lemma StepCapacity(q: Queue, op: Op)
    requires Valid(q)
    ensures var q1 := Step(q, op).0;
            q1.cap == q.cap || (q1.cap == 2 * q.cap && |q1.heap| == q.cap + 1)
  {
    if op.OpAdd? {
      AddHeapCorrect(q.heap, op.m);
    }
  }

  lemma DoubledOnce(cap: nat, p: nat)
    ensures (2 * cap) * p == cap * (2 * p)
  {
  }

  /** The capacity is the initial one doubled some number of times, and once it has grown
      it stays below twice the peak size. */
  lemma {:induction false} CapacityOfRun(q: Queue, ops: seq<Op>)
    requires Valid(q)
    ensures Run(q, ops).0.cap == q.cap * Pow2(Growths(q, ops))
    ensures Growths(q, ops) > 0 ==> Run(q, ops).0.cap < 2 * Peak(q, ops)
    decreases |ops|
  {
    hide Step, Valid;
    if ops != [] {
      var q1 := Step(q, ops[0]).0;
      StepRefines(q, ops[0]);
      StepCapacity(q, ops[0]);
      CapacityOfRun(q1, ops[1..]);
      PeakStart(q1, ops[1..]);
      DoubledOnce(q.cap, Pow2(Growths(q1, ops[1..])));
    }
  }

  lemma {:induction false} PeakStart(q: Queue, ops: seq<Op>)
    ensures |q.heap| <= Peak(q, ops)
  {
    if ops != [] {
      assert Peak(q, ops) >= |q.heap|;
    }
  }

  // ---------- remove_due_s ----------

  /** The critical section of remove_due_s: the root if it is due, else nothing. */
  function RemoveDue(q: Queue, now: Time, threshold: Option<Time>): (Queue, Option<Msg>) {
    if q.heap != [] && IsDue(q.heap[0].due, now, threshold) then Remove(q) else (q, None)
  }

  predicate AllNormal(h: seq<Msg>) {
    forall m | m in h :: Normal(m.due)
  }

  /** It answers NULL, and leaves the queue alone, exactly when no message anywhere in the
      queue is due within the threshold; otherwise it takes out an earliest message. */
  lemma RemoveDueExact(q: Queue, now: Time, threshold: Option<Time>)
    requires Valid(q) && AllNormal(q.heap) && Normal(now) && NormalThreshold(threshold)
    ensures var (q', r) := RemoveDue(q, now, threshold);
            && Valid(q')
            && (r.None? <==> forall m | m in q.heap :: Micros(m.due) > Micros(now) + Slack(threshold))
            && (r.None? ==> q' == q)
            && (r.Some? ==> Earliest(r.value, q.heap) && multiset(q.heap) == multiset(q'.heap) + multiset{r.value})
  {
    if q.heap != [] {
      StepRefines(q, OpRemove);
      RemoveHeapCorrect(q.heap);
      var root := q.heap[0];
      IsDueExact(root.due, now, threshold);
      forall m | m in q.heap
        ensures Micros(root.due) <= Micros(m.due)
      {
        BeforeIsMicrosOrder(m.due, root.due);
      }
    }
  }
}
