/** The thread-safe functions of ideas/queue/queue.c:131-223 as a step machine. A step is
    what one thread does between two points at which another thread could run: taking the
    lock, testing the queue, changing it, signalling, parking, waking, sleeping, unlocking. */
module Blocking {
  import opened Options
  import opened Times
  import opened HeapSpec
  import opened QueueRuns

  type Tid = nat

  /** Which removal a thread asks for: any message, or one that is due. */
  datatype Mode = Any | Due(threshold: Option<Time>)

  /** What a thread does for its whole life. A producer calls add_s again and again, a
      remover remove_s or remove_due_s; a taker calls take_s or take_due_s, for ever if it
      loops (as the consumers of ideas/queue/main.c:30-37) and once if it does not. */
  datatype Role = Producer | Remover(mode: Mode) | Taker(mode: Mode, loops: bool)

  /** Where a thread is. */
  datatype PC =
    | Start                      // about to call LOCK
    | Locked                     // holds the lock, nothing looked at yet
    | Noted(wasEmpty: bool)      // producer: was_empty is set, add not yet called
    | Signalling                 // producer: added to an empty queue, signal still to come
    | Testing                    // due mode: saw a non-empty queue, clock not yet read
    | Removing(now: Option<Time>) // decided to remove, at the clock reading now if due mode
    | SawEmpty                   // taker: saw an empty queue, about to wait
    | NotDue                     // taker: root not due, about to unlock and sleep
    | Leaving                    // about to UNLOCK and return
    | Parked                     // inside pthread_cond_wait, not signalled
    | Woken                      // inside pthread_cond_wait, must take the lock again
    | Sleeping                   // inside usleep, without the lock
    | Exited

  predicate HoldsLock(pc: PC) {
    || pc.Locked? || pc.Noted? || pc.Signalling? || pc.Testing?
    || pc.Removing? || pc.SawEmpty? || pc.NotDue? || pc.Leaving?
  }

  datatype Config = Config(roles: seq<Role>, cap: nat, growable: bool)

  ghost predicate ValidConfig(c: Config) {
    && (c.growable ==> c.cap >= 1)
    && forall t | 0 <= t < |c.roles| && !c.roles[t].Producer? && c.roles[t].mode.Due? ::
         NormalThreshold(c.roles[t].mode.threshold)
  }

  /** A removal: who, what, from which heap, at which clock reading. */
  datatype Delivery = Delivery(thread: Tid, msg: Msg, from: seq<Msg>, now: Option<Time>)

  /** added and log record the history; the program does not read them. */
  datatype State = State(pcs: seq<PC>, lock: Option<Tid>, q: Queue, added: multiset<Msg>, log: seq<Delivery>)

  function Initial(c: Config): State {
    State(seq(|c.roles|, _ => Start), None, Queue([], c.cap, c.growable), multiset{}, [])
  }

  datatype Step =
    | Lock(t: Tid)
    | NoteEmpty(t: Tid)
    | AddMsg(t: Tid, m: Msg)
    | Signal(t: Tid, woken: Option<Tid>)
    | Look(t: Tid)
    | Test(t: Tid, now: Time)
    | Take(t: Tid)
    | Park(t: Tid)
    | Nap(t: Tid)
    | Unlock(t: Tid)
    | WakeSpuriously(t: Tid)

  predicate SomeoneParked(s: State) {
    exists t: Tid | t < |s.pcs| :: s.pcs[t].Parked?
  }

  /** The state with thread t at pc. */
  function At(s: State, t: Tid, pc: PC): State
    requires t < |s.pcs|
  {
    s.(pcs := s.pcs[t := pc])
  }

  predicate Enabled(c: Config, s: State, step: Step)
    requires |s.pcs| == |c.roles|
  {
    && step.t < |c.roles|
    && var pc, role := s.pcs[step.t], c.roles[step.t];
       match step
       case Lock(_) => s.lock.None? && (pc.Start? || pc.Woken? || pc.Sleeping?)
       case NoteEmpty(_) => pc.Locked? && role.Producer?
       case AddMsg(_, m) => pc.Noted? && Normal(m.due)
       case Signal(_, w) =>
         && pc.Signalling?
         && (w.None? <==> !SomeoneParked(s))
         && (w.Some? ==> w.value < |s.pcs| && s.pcs[w.value].Parked?)
       case Look(_) => pc.Locked? && !role.Producer?
       case Test(_, now) => pc.Testing? && !role.Producer? && role.mode.Due? && s.q.heap != [] && Normal(now)
       case Take(_) => pc.Removing? && s.q.heap != []
       case Park(_) => pc.SawEmpty?
       case Nap(_) => pc.NotDue?
       case Unlock(_) => pc.Leaving?
       case WakeSpuriously(_) => pc.Parked?
  }

  /** A signal moves one parked thread, if there is one, to the threads that wait for the
      lock; further threads may wake at any time. */
  function After(c: Config, s: State, step: Step): (s': State)
    requires |s.pcs| == |c.roles| && Enabled(c, s, step)
    ensures |s'.pcs| == |s.pcs|
  {
    var t, role := step.t, c.roles[step.t];
    match step
    case Lock(_) => At(s, t, Locked).(lock := Some(t))
    case NoteEmpty(_) => At(s, t, Noted(s.q.heap == []))
    case AddMsg(_, m) =>
      var (q', ok) := Add(s.q, m);
      At(s, t, if ok && s.pcs[t].wasEmpty then Signalling else Leaving)
        .(q := q', added := if ok then s.added + multiset{m} else s.added)
    case Signal(_, w) =>
      if w.None? then At(s, t, Leaving) else At(At(s, t, Leaving), w.value, Woken)
    case Look(_) =>
      if s.q.heap == [] then At(s, t, if role.Taker? then SawEmpty else Leaving)
      else At(s, t, if role.mode.Due? then Testing else Removing(None))
    case Test(_, now) =>
      if IsDue(s.q.heap[0].due, now, role.mode.threshold) then At(s, t, Removing(Some(now)))
      else At(s, t, if role.Taker? then NotDue else Leaving)
    case Take(_) =>
      At(s, t, Leaving).(q := Remove(s.q).0, log := s.log + [Delivery(t, s.q.heap[0], s.q.heap, s.pcs[t].now)])
    case Park(_) => At(s, t, Parked).(lock := None)
    case Nap(_) => At(s, t, Sleeping).(lock := None)
    case Unlock(_) => At(s, t, if role.Taker? && !role.loops then Exited else Start).(lock := None)
    case WakeSpuriously(_) => At(s, t, Woken)
  }

  ghost predicate Next(c: Config, s: State, s': State) {
    && |s.pcs| == |c.roles|
    && exists step :: Enabled(c, s, step) && s' == After(c, s, step)
  }

  /** An interleaving, from the initial state on. */
  ghost predicate IsRun(c: Config, run: seq<State>) {
    && run != [] && run[0] == Initial(c)
    && forall i | 0 <= i < |run| - 1 :: Next(c, run[i], run[i + 1])
  }

  // ---------- What every step keeps ----------

  ghost predicate LockInv(s: State) {
    && (forall t: Tid | t < |s.pcs| :: HoldsLock(s.pcs[t]) <==> s.lock == Some(t))
    && (s.lock.Some? ==> s.lock.value < |s.pcs|)
  }

  /** What a thread at pc knows about the queue; only lock holders know anything. */
  predicate Knows(role: Role, pc: PC, q: Queue) {
    match pc
    case Noted(e) => role.Producer? && (e <==> q.heap == [])
    case Signalling => role.Producer? && q.heap != []
    case Testing => !role.Producer? && role.mode.Due? && q.heap != []
    case Removing(now) =>
      && !role.Producer? && q.heap != [] && (now.Some? <==> role.mode.Due?)
      && (now.Some? ==> Normal(now.value) && IsDue(q.heap[0].due, now.value, role.mode.threshold))
    case SawEmpty => role.Taker? && q.heap == []
    case NotDue => role.Taker?
    case Parked => role.Taker?
    case Woken => role.Taker?
    case Sleeping => role.Taker?
    case Exited => role.Taker? && !role.loops
    case _ => true
  }

  ghost predicate ThreadInv(c: Config, s: State) {
    |s.pcs| == |c.roles| && forall t: Tid | t < |s.pcs| :: Knows(c.roles[t], s.pcs[t], s.q)
  }

  ghost predicate QueueInv(c: Config, s: State) {
    Valid(s.q) && AllNormal(s.q.heap) && s.q.growable == c.growable && (!c.growable ==> s.q.cap == c.cap)
  }

  function Delivered(log: seq<Delivery>): multiset<Msg> {
    if log == [] then multiset{} else Delivered(log[..|log| - 1]) + multiset{log[|log| - 1].msg}
  }

  ghost predicate Conserved(s: State) {
    s.added == Delivered(s.log) + multiset(s.q.heap)
  }

  /** A delivery takes an earliest message, and a due-taking call one that was due within
      its threshold at the clock reading it sampled. */
  ghost predicate GoodDelivery(c: Config, d: Delivery) {
    && d.thread < |c.roles| && !c.roles[d.thread].Producer?
    && Earliest(d.msg, d.from)
    && (c.roles[d.thread].mode.Due? ==>
          d.now.Some? && Micros(d.msg.due) <= Micros(d.now.value) + Slack(c.roles[d.thread].mode.threshold))
  }

  ghost predicate Inv(c: Config, s: State) {
    && LockInv(s) && ThreadInv(c, s) && QueueInv(c, s) && Conserved(s)
    && forall i | 0 <= i < |s.log| :: GoodDelivery(c, s.log[i])
  }

  lemma InitialInv(c: Config)
    requires ValidConfig(c)
    ensures Inv(c, Initial(c))
  {
  }

  /** What a step does to the lock and to the places of the threads. */
  lemma LockAfter(c: Config, s: State, step: Step)
    requires |s.pcs| == |c.roles| && Enabled(c, s, step)
    ensures var s', t := After(c, s, step), step.t;
            && (forall u: Tid | u < |s.pcs| && u != t :: HoldsLock(s'.pcs[u]) == HoldsLock(s.pcs[u]))
            && (s'.lock == if HoldsLock(s'.pcs[t]) == HoldsLock(s.pcs[t]) then s.lock
                           else if HoldsLock(s'.pcs[t]) then Some(t) else None)
            && (HoldsLock(s'.pcs[t]) && !HoldsLock(s.pcs[t]) ==> s.lock == None)
  {
  }

  lemma StepKeepsLock(c: Config, s: State, step: Step)
    requires LockInv(s) && |s.pcs| == |c.roles| && Enabled(c, s, step)
    ensures LockInv(After(c, s, step))
  {
    LockAfter(c, s, step);
    hide After, Enabled, HoldsLock;
    var s' := After(c, s, step);
    forall t: Tid | t < |s'.pcs|
      ensures HoldsLock(s'.pcs[t]) <==> s'.lock == Some(t)
    {
      assert HoldsLock(s.pcs[t]) <==> s.lock == Some(t);
      assert HoldsLock(s.pcs[step.t]) <==> s.lock == Some(step.t);
    }
  }

  lemma MoverKnows(c: Config, s: State, step: Step)
    requires |s.pcs| == |c.roles| && Enabled(c, s, step) && IsHeap(s.q.heap)
    requires Knows(c.roles[step.t], s.pcs[step.t], s.q)
    ensures Knows(c.roles[step.t], After(c, s, step).pcs[step.t], After(c, s, step).q)
  {
    if step.AddMsg? {
      AddHeapCorrect(s.q.heap, step.m);
    }
  }

  /** Only the lock holder changes the queue, so what it knows cannot be spoilt by others. */
  lemma OthersKnow(c: Config, s: State, step: Step, t: Tid)
    requires Inv(c, s) && Enabled(c, s, step) && t < |s.pcs| && t != step.t
    ensures Knows(c.roles[t], After(c, s, step).pcs[t], After(c, s, step).q)
  {
    assert Knows(c.roles[t], s.pcs[t], s.q);
    assert HoldsLock(s.pcs[t]) <==> s.lock == Some(t);
    assert HoldsLock(s.pcs[step.t]) <==> s.lock == Some(step.t);
    if !HoldsLock(s.pcs[step.t]) {
      assert After(c, s, step).q == s.q;
    } else {
      assert !HoldsLock(s.pcs[t]);
    }
  }

  lemma StepKeepsThreads(c: Config, s: State, step: Step)
    requires Inv(c, s) && Enabled(c, s, step)
    ensures ThreadInv(c, After(c, s, step))
  {
    forall t: Tid | t < |s.pcs|
      ensures Knows(c.roles[t], After(c, s, step).pcs[t], After(c, s, step).q)
    {
      if t == step.t {
        assert Knows(c.roles[t], s.pcs[t], s.q);
        MoverKnows(c, s, step);
      } else {
        OthersKnow(c, s, step, t);
      }
    }
  }

  /** What a step does to the queue and to its history. */
  lemma QueueAfter(c: Config, s: State, step: Step)
    requires |s.pcs| == |c.roles| && Enabled(c, s, step)
    ensures var s' := After(c, s, step);
            match step
            case AddMsg(_, m) =>
              s'.q == Add(s.q, m).0 && s'.log == s.log &&
              s'.added == if Add(s.q, m).1 then s.added + multiset{m} else s.added
            case Take(t) =>
              s.q.heap != [] && s'.q == Remove(s.q).0 && s'.added == s.added && s.pcs[t].Removing? &&
              s'.log == s.log + [Delivery(t, s.q.heap[0], s.q.heap, s.pcs[t].now)]
            case _ => s'.q == s.q && s'.added == s.added && s'.log == s.log
  {
  }

  lemma AddKeepsNormal(q: Queue, m: Msg)
    requires Valid(q) && AllNormal(q.heap) && Normal(m.due)
    ensures AllNormal(Add(q, m).0.heap)
  {
    StepRefines(q, OpAdd(m));
    var q' := Add(q, m).0;
    forall o | o in q'.heap
      ensures Normal(o.due)
    {
      assert o in multiset(q'.heap);
      assert o in q.heap || o == m;
    }
  }

  lemma RemoveKeepsNormal(q: Queue)
    requires Valid(q) && AllNormal(q.heap)
    ensures AllNormal(Remove(q).0.heap)
  {
    StepRefines(q, OpRemove);
    var q' := Remove(q).0;
    forall o | o in q'.heap
      ensures Normal(o.due)
    {
      assert o in multiset(q'.heap);
      assert o in multiset(q.heap);
    }
  }

  lemma StepKeepsQueue(c: Config, s: State, step: Step)
    requires Inv(c, s) && Enabled(c, s, step)
    ensures QueueInv(c, After(c, s, step))
  {
    QueueAfter(c, s, step);
    hide After, IsHeap, AllNormal;
    if step.AddMsg? {
      StepRefines(s.q, OpAdd(step.m));
      AddKeepsNormal(s.q, step.m);
    } else if step.Take? {
      StepRefines(s.q, OpRemove);
      RemoveKeepsNormal(s.q);
    }
  }

  lemma AddConserves(q: Queue, m: Msg)
    requires Valid(q) && Add(q, m).1
    ensures multiset(Add(q, m).0.heap) == multiset(q.heap) + multiset{m}
  {
    AddHeapCorrect(q.heap, m);
  }

  lemma AddRefused(q: Queue, m: Msg)
    requires !Add(q, m).1
    ensures Add(q, m).0 == q
  {
  }

  lemma TakeConserves(q: Queue, log: seq<Delivery>, d: Delivery)
    requires Valid(q) && q.heap != [] && d.msg == q.heap[0]
    ensures Delivered(log + [d]) + multiset(Remove(q).0.heap) == Delivered(log) + multiset(q.heap)
  {
    RemoveHeapCorrect(q.heap);
    assert (log + [d])[..|log|] == log;
  }

  lemma StepConserves(c: Config, s: State, step: Step)
    requires Inv(c, s) && Enabled(c, s, step)
    ensures Conserved(After(c, s, step))
  {
    QueueAfter(c, s, step);
    hide After, Enabled, LockInv, ThreadInv, GoodDelivery, AllNormal, Valid, Add, Remove, Delivered;
    if step.AddMsg? {
      if Add(s.q, step.m).1 {
        AddConserves(s.q, step.m);
      } else {
        AddRefused(s.q, step.m);
      }
    } else if step.Take? {
      TakeConserves(s.q, s.log, Delivery(step.t, s.q.heap[0], s.q.heap, s.pcs[step.t].now));
    }
  }

  lemma StepKeepsLog(c: Config, s: State, step: Step)
    requires ValidConfig(c) && Inv(c, s) && Enabled(c, s, step)
    ensures forall i | 0 <= i < |After(c, s, step).log| :: GoodDelivery(c, After(c, s, step).log[i])
  {
    QueueAfter(c, s, step);
    hide After;
    if step.Take? {
      RootIsEarliest(s.q.heap);
      var role, pc := c.roles[step.t], s.pcs[step.t];
      assert Knows(role, pc, s.q);
      if role.mode.Due? {
        assert s.q.heap[0] in s.q.heap;
        IsDueExact(s.q.heap[0].due, pc.now.value, role.mode.threshold);
      }
    }
  }

  lemma StepKeepsInv(c: Config, s: State, s': State)
    requires ValidConfig(c) && Inv(c, s) && Next(c, s, s')
    ensures Inv(c, s')
  {
    var step :| Enabled(c, s, step) && s' == After(c, s, step);
    StepKeepsLock(c, s, step);
    StepKeepsThreads(c, s, step);
    StepKeepsQueue(c, s, step);
    StepConserves(c, s, step);
    StepKeepsLog(c, s, step);
  }

  /** Every state of every interleaving: the lock has at most one holder, what a holder has
      seen of the queue still holds, nothing is lost, duplicated or delivered out of order
      or early. */
  lemma {:induction false} RunsKeepInv(c: Config, run: seq<State>, i: nat)
    requires ValidConfig(c) && IsRun(c, run) && i < |run|
    ensures Inv(c, run[i])
  {
    if i == 0 {
      InitialInv(c);
    } else {
      RunsKeepInv(c, run, i - 1);
      StepKeepsInv(c, run[i - 1], run[i]);
    }
  }

  /** No message is delivered more often than it was added. */
  lemma NoDuplicateDelivery(c: Config, run: seq<State>, i: nat, m: Msg)
    requires ValidConfig(c) && IsRun(c, run) && i < |run|
    ensures Delivered(run[i].log)[m] <= run[i].added[m]
    ensures run[i].added[m] == Delivered(run[i].log)[m] + multiset(run[i].q.heap)[m]
  {
    RunsKeepInv(c, run, i);
  }

  /** No step but the thread's own Park takes it to Parked. */
  lemma ParkedByItself(c: Config, s: State, step: Step, t: Tid)
    requires |s.pcs| == |c.roles| && Enabled(c, s, step) && t < |s.pcs|
    requires !s.pcs[t].Parked? && After(c, s, step).pcs[t].Parked?
    ensures step == Park(t)
  {
  }

  /** A thread parks only while it holds the lock on an empty queue. */
  lemma ParksOnlyOnEmptyQueue(c: Config, run: seq<State>, i: nat, t: Tid)
    requires ValidConfig(c) && IsRun(c, run) && i + 1 < |run| && t < |c.roles|
    requires |run[i].pcs| == |run[i + 1].pcs| == |c.roles|
    requires !run[i].pcs[t].Parked? && run[i + 1].pcs[t].Parked?
    ensures run[i].lock == Some(t) && run[i].q.heap == []
    ensures run[i + 1].lock == None && run[i + 1].q.heap == []
  {
    RunsKeepInv(c, run, i);
    var s, s' := run[i], run[i + 1];
    assert Next(c, s, s');
    var step :| Enabled(c, s, step) && s' == After(c, s, step);
    ParkedByItself(c, s, step, t);
    assert Knows(c.roles[t], s.pcs[t], s.q);
    assert HoldsLock(s.pcs[t]);
  }

  /** Thread t has made up its mind to remove a message, or at least to look at the root. */
  predicate GoesOn(pc: PC) {
    pc.Testing? || pc.Removing?
  }

  /** The two steps at which a call that removes or takes can give up. Looking, it gives up
      exactly on an empty queue. A due-taking call that reads the clock gives up exactly when
      no message anywhere in the queue is due within its threshold at that reading. */
  lemma GivesUpExactly(c: Config, run: seq<State>, i: nat, t: Tid, step: Step)
    requires ValidConfig(c) && IsRun(c, run) && i < |run|
    requires |run[i].pcs| == |c.roles| && Enabled(c, run[i], step) && step.t == t && (step.Look? || step.Test?)
    ensures var s, s' := run[i], After(c, run[i], step);
            && s'.q == s.q && s'.lock == s.lock == Some(t)
            && (step.Look? ==> (!GoesOn(s'.pcs[t]) <==> s.q.heap == []))
            && (step.Test? ==>
                  (!GoesOn(s'.pcs[t]) <==>
                     forall m | m in s.q.heap :: Micros(m.due) > Micros(step.now) + Slack(c.roles[t].mode.threshold)))
  {
    RunsKeepInv(c, run, i);
    var s := run[i];
    assert HoldsLock(s.pcs[t]);
    if step.Test? {
      var threshold := c.roles[t].mode.threshold;
      RemoveDueExact(s.q, step.now, threshold);
      assert RemoveDue(s.q, step.now, threshold).1.None? <==> !IsDue(s.q.heap[0].due, step.now, threshold);
    }
  }
}
