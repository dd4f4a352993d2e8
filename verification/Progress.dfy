/** What the threads of ideas/queue/queue.c:131-223 can always still do: nobody is stuck with the
    lock, no state is dead, and a thread that may run delivers, adds or gives way by its own
    steps alone. */
module Progress {
  import opened Options
  import opened Times
  import opened HeapSpec
  import opened QueueRuns
  import opened Blocking
  import opened Stranding

  /** From s these steps can be taken, one after the other, and lead to s'. */
  ghost predicate Leads(c: Config, s: State, steps: seq<Blocking.Step>, s': State)
    decreases |steps|
  {
    if steps == [] then s' == s
    else
      && |s.pcs| == |c.roles| && Enabled(c, s, steps[0])
      && Leads(c, Blocking.After(c, s, steps[0]), steps[1..], s')
  }

  /** Steps of thread t only, none of them a spurious wake-up. */
  predicate OwnSteps(t: Tid, steps: seq<Blocking.Step>) {
    forall step | step in steps :: step.t == t && !step.WakeSpuriously?
  }

  /** Thread t alone can get from s to s'. */
  ghost predicate Alone(c: Config, t: Tid, s: State, s': State) {
    exists steps :: OwnSteps(t, steps) && Leads(c, s, steps, s')
  }

  lemma {:induction false} LeadsOn(c: Config, s: State, steps: seq<Blocking.Step>, s1: State, step: Blocking.Step)
    requires Leads(c, s, steps, s1) && |s1.pcs| == |c.roles| && Enabled(c, s1, step)
    ensures Leads(c, s, steps + [step], Blocking.After(c, s1, step))
    decreases |steps|
  {
    hide Enabled, Blocking.After;
    if steps == [] {
      assert [] + [step] == [step] && [step][1..] == [];
      assert Leads(c, Blocking.After(c, s1, step), [], Blocking.After(c, s1, step));
    } else {
      LeadsOn(c, Blocking.After(c, s, steps[0]), steps[1..], s1, step);
      assert (steps + [step])[1..] == steps[1..] + [step];
    }
  }

  lemma StayAlone(c: Config, t: Tid, s: State)
    ensures Alone(c, t, s, s)
  {
    assert Leads(c, s, [], s) && OwnSteps(t, []);
  }

  lemma GoOn(c: Config, t: Tid, s: State, s1: State, step: Blocking.Step)
    requires Alone(c, t, s, s1) && |s1.pcs| == |c.roles| && Enabled(c, s1, step)
    requires step.t == t && !step.WakeSpuriously?
    ensures Alone(c, t, s, Blocking.After(c, s1, step))
  {
    hide Enabled, Blocking.After;
    var steps :| OwnSteps(t, steps) && Leads(c, s, steps, s1);
    LeadsOn(c, s, steps, s1, step);
    assert OwnSteps(t, steps + [step]);
  }

  // ---------- Taking ----------

  /** A thread that removes or takes, and is neither parked nor gone. */
  predicate CanTake(c: Config, s: State, t: Tid)
    requires |s.pcs| == |c.roles|
  {
    t < |c.roles| && !c.roles[t].Producer? && !s.pcs[t].Parked? && !s.pcs[t].Exited?
  }

  /** Without the lock, such a thread is about to ask for it: at the start of a call, after a
      wake-up or after a nap. */
  lemma CanLock(c: Config, s: State, t: Tid)
    requires Inv(c, s) && s.lock.None? && t < |c.roles| && !s.pcs[t].Parked? && !s.pcs[t].Exited?
    ensures Enabled(c, s, Lock(t))
  {
    assert !HoldsLock(s.pcs[t]);
  }

  /** Where a thread is after its call. */
  function Home(role: Role): PC {
    if role.Taker? && !role.loops then Exited else Start
  }

  /** From every reachable state with the lock free and a message in the queue: a thread that
      removes or takes and is neither parked nor gone delivers by its own steps alone, if the
      root is due within its threshold at a clock reading, or it does not ask for that. The
      delivery is of an earliest message, the lock is free again, and the call is over. */
  lemma TakesAlone(c: Config, run: seq<State>, i: nat, t: Tid, now: Time) returns (s': State)
    requires ValidConfig(c) && IsRun(c, run) && i < |run| && |run[i].pcs| == |c.roles|
    requires run[i].lock.None? && run[i].q.heap != [] && CanTake(c, run[i], t)
    requires Normal(now)
    requires c.roles[t].mode.Due? ==>
               Micros(run[i].q.heap[0].due) <= Micros(now) + Slack(c.roles[t].mode.threshold)
    ensures Alone(c, t, run[i], s')
    ensures |s'.log| == |run[i].log| + 1 && s'.log[..|run[i].log|] == run[i].log
    ensures var d, role := s'.log[|run[i].log|], c.roles[t];
            && d.thread == t && d.from == run[i].q.heap && Earliest(d.msg, run[i].q.heap)
            && d.now == if role.mode.Due? then Some(now) else None
    ensures s'.q == Remove(run[i].q).0 && s'.lock.None? && s'.pcs == run[i].pcs[t := Home(c.roles[t])]
  {
    var s := run[i];
    RunsKeepInv(c, run, i);
    RootIsEarliest(s.q.heap);
    CanLock(c, s, t);
    var s3 := LooksAlone(c, s, t, now);
    s' := TakesAndLeaves(c, s, s3, t);
  }

  lemma LooksAlone(c: Config, s: State, t: Tid, now: Time) returns (s3: State)
    requires ValidConfig(c) && Inv(c, s) && s.q.heap != [] && CanTake(c, s, t) && Enabled(c, s, Lock(t))
    requires Normal(now)
    requires c.roles[t].mode.Due? ==> Micros(s.q.heap[0].due) <= Micros(now) + Slack(c.roles[t].mode.threshold)
    ensures Alone(c, t, s, s3)
    ensures s3 == s.(pcs := s.pcs[t := Removing(if c.roles[t].mode.Due? then Some(now) else None)], lock := Some(t))
  {
    StayAlone(c, t, s);
    GoOn(c, t, s, s, Lock(t));
    var s1 := Blocking.After(c, s, Lock(t));
    GoOn(c, t, s, s1, Look(t));
    s3 := Blocking.After(c, s1, Look(t));
    if c.roles[t].mode.Due? {
      assert s.q.heap[0] in s.q.heap;
      IsDueExact(s.q.heap[0].due, now, c.roles[t].mode.threshold);
      GoOn(c, t, s, s3, Test(t, now));
      s3 := Blocking.After(c, s3, Test(t, now));
    }
  }

  lemma TakesAndLeaves(c: Config, s: State, s3: State, t: Tid) returns (s': State)
    requires |s.pcs| == |c.roles| && t < |c.roles| && !c.roles[t].Producer? && s.q.heap != [] && s.lock.None?
    requires Alone(c, t, s, s3)
    requires s3 == s.(pcs := s3.pcs, lock := Some(t)) && |s3.pcs| == |s.pcs| && s3.pcs == s.pcs[t := s3.pcs[t]]
    requires s3.pcs[t].Removing?
    ensures Alone(c, t, s, s')
    ensures s' == s.(pcs := s.pcs[t := Home(c.roles[t])], q := Remove(s.q).0,
                     log := s.log + [Delivery(t, s.q.heap[0], s.q.heap, s3.pcs[t].now)])
  {
    hide Alone;
    GoOn(c, t, s, s3, Take(t));
    var s4 := Blocking.After(c, s3, Take(t));
    GoOn(c, t, s, s4, Unlock(t));
    s' := Blocking.After(c, s4, Unlock(t));
  }

  /** With consumers that loop for ever, as in ideas/queue/main.c: whenever the lock is free and
      the root is due for all of them at a clock reading, one of them delivers by its own steps
      alone. */
  lemma LoopingConsumersDeliver(c: Config, run: seq<State>, i: nat, now: Time) returns (t: Tid, s': State)
    requires ValidConfig(c) && IsRun(c, run) && i < |run| && Normal(now)
    requires exists t: Tid :: IsTaker(c, t)
    requires forall t: Tid :: IsTaker(c, t) ==> c.roles[t].loops
    requires run[i].lock.None? && run[i].q.heap != []
    requires forall t: Tid :: IsTaker(c, t) && c.roles[t].mode.Due? ==>
               Micros(run[i].q.heap[0].due) <= Micros(now) + Slack(c.roles[t].mode.threshold)
    ensures IsTaker(c, t) && Alone(c, t, run[i], s')
    ensures |s'.log| == |run[i].log| + 1 && s'.log[|run[i].log|].thread == t
    ensures Earliest(s'.log[|run[i].log|].msg, run[i].q.heap) && s'.q == Remove(run[i].q).0
  {
    RunsKeepInv(c, run, i);
    LoopingConsumersAreNotStranded(c, run, i);
    t :| IsTaker(c, t) && !run[i].pcs[t].Parked?;
    assert Knows(c.roles[t], run[i].pcs[t], run[i].q);
    s' := TakesAlone(c, run, i, t, now);
  }

  /** After a reading at which the root is not due, a taker's own next step frees the lock, and
      then it can ask for it again. */
  lemma NapGivesWay(c: Config, run: seq<State>, i: nat, t: Tid)
    requires ValidConfig(c) && IsRun(c, run) && i < |run| && |run[i].pcs| == |c.roles|
    requires t < |c.roles| && run[i].pcs[t].NotDue?
    ensures Enabled(c, run[i], Nap(t)) && Blocking.After(c, run[i], Nap(t)).lock.None?
    ensures Enabled(c, Blocking.After(c, run[i], Nap(t)), Lock(t))
  {
  }

  /** Where a thread waits for another message: a taker in its wait or its nap; a remover does not,
      its call is over. */
  function Waits(role: Role, pc: PC): PC {
    if role.Taker? then pc else Start
  }

  /** From every reachable state with the lock free and an empty queue, such a thread alone gets to
      where it waits, and everything else is as it was. */
  lemma FindsNothingAlone(c: Config, run: seq<State>, i: nat, t: Tid) returns (s': State)
    requires ValidConfig(c) && IsRun(c, run) && i < |run| && |run[i].pcs| == |c.roles|
    requires run[i].lock.None? && run[i].q.heap == [] && CanTake(c, run[i], t)
    ensures Alone(c, t, run[i], s')
    ensures s' == run[i].(pcs := run[i].pcs[t := Waits(c.roles[t], Parked)])
  {
    var s := run[i];
    RunsKeepInv(c, run, i);
    CanLock(c, s, t);
    StayAlone(c, t, s);
    GoOn(c, t, s, s, Lock(t));
    var s1 := Blocking.After(c, s, Lock(t));
    GoOn(c, t, s, s1, Look(t));
    var s2 := Blocking.After(c, s1, Look(t));
    var last := if c.roles[t].Taker? then Park(t) else Unlock(t);
    GoOn(c, t, s, s2, last);
    s' := Blocking.After(c, s2, last);
  }

  /** The same with a message in the queue and a clock reading at which none is due. */
  lemma FindsNoneDueAlone(c: Config, run: seq<State>, i: nat, t: Tid, now: Time) returns (s': State)
    requires ValidConfig(c) && IsRun(c, run) && i < |run| && |run[i].pcs| == |c.roles|
    requires run[i].lock.None? && run[i].q.heap != [] && CanTake(c, run[i], t)
    requires Normal(now) && c.roles[t].mode.Due?
    requires forall m | m in run[i].q.heap :: Micros(m.due) > Micros(now) + Slack(c.roles[t].mode.threshold)
    ensures Alone(c, t, run[i], s')
    ensures s' == run[i].(pcs := run[i].pcs[t := Waits(c.roles[t], Sleeping)])
  {
    var s := run[i];
    RunsKeepInv(c, run, i);
    CanLock(c, s, t);
    IsDueExact(s.q.heap[0].due, now, c.roles[t].mode.threshold);
    StayAlone(c, t, s);
    GoOn(c, t, s, s, Lock(t));
    var s1 := Blocking.After(c, s, Lock(t));
    GoOn(c, t, s, s1, Look(t));
    var s2 := Blocking.After(c, s1, Look(t));
    s' := TestsAndWaits(c, s, s2, t, now);
  }

  lemma TestsAndWaits(c: Config, s: State, s2: State, t: Tid, now: Time) returns (s': State)
    requires |s.pcs| == |c.roles| && t < |c.roles| && !c.roles[t].Producer? && c.roles[t].mode.Due?
    requires s.q.heap != [] && s.lock.None? && Normal(now) && Alone(c, t, s, s2)
    requires !IsDue(s.q.heap[0].due, now, c.roles[t].mode.threshold)
    requires s2 == s.(pcs := s.pcs[t := Testing], lock := Some(t))
    ensures Alone(c, t, s, s') && s' == s.(pcs := s.pcs[t := Waits(c.roles[t], Sleeping)])
  {
    hide Alone, IsDue;
    GoOn(c, t, s, s2, Test(t, now));
    var s3 := Blocking.After(c, s2, Test(t, now));
    var last := if c.roles[t].Taker? then Nap(t) else Unlock(t);
    GoOn(c, t, s, s3, last);
    s' := Blocking.After(c, s3, last);
  }

  /** A parked thread may wake at any time. If it finds the queue still empty it parks again, and
      nothing has happened. */
  lemma SpuriousWakeIsHarmless(c: Config, run: seq<State>, i: nat, t: Tid)
    requires ValidConfig(c) && IsRun(c, run) && i < |run| && |run[i].pcs| == |c.roles|
    requires t < |c.roles| && run[i].pcs[t].Parked? && run[i].lock.None? && run[i].q.heap == []
    ensures Leads(c, run[i], [WakeSpuriously(t), Lock(t), Look(t), Park(t)], run[i])
  {
    var s := run[i];
    RunsKeepInv(c, run, i);
    assert Knows(c.roles[t], s.pcs[t], s.q);
    var s1 := Blocking.After(c, s, WakeSpuriously(t));
    var s2 := Blocking.After(c, s1, Lock(t));
    var s3 := Blocking.After(c, s2, Look(t));
    assert Leads(c, s, [], s);
    LeadsOn(c, s, [], s, WakeSpuriously(t));
    LeadsOn(c, s, [] + [WakeSpuriously(t)], s1, Lock(t));
    LeadsOn(c, s, [] + [WakeSpuriously(t)] + [Lock(t)], s2, Look(t));
    LeadsOn(c, s, [] + [WakeSpuriously(t)] + [Lock(t)] + [Look(t)], s3, Park(t));
    assert Blocking.After(c, s3, Park(t)) == s;
    assert [] + [WakeSpuriously(t)] + [Lock(t)] + [Look(t)] + [Park(t)] ==
           [WakeSpuriously(t), Lock(t), Look(t), Park(t)];
  }

  // ---------- Adding ----------

  /** From every reachable state with the lock free, a producer adds by its own steps alone: the
      queue is then what add makes of it, and if it was empty and took the message, one parked
      thread has been woken, if there was one. */
  lemma AddsAlone(c: Config, run: seq<State>, i: nat, p: Tid, m: Msg) returns (s': State)
    requires ValidConfig(c) && IsRun(c, run) && i < |run| && |run[i].pcs| == |c.roles|
    requires run[i].lock.None? && IsProducer(c, p) && Normal(m.due)
    ensures Alone(c, p, run[i], s') && s'.lock.None? && s'.log == run[i].log
    ensures s'.q == Add(run[i].q, m).0
    ensures s'.added == if Add(run[i].q, m).1 then run[i].added + multiset{m} else run[i].added
    ensures var wakes := Add(run[i].q, m).1 && run[i].q.heap == [] && SomeoneParked(run[i]);
            if wakes then
              exists w: Tid :: w < |run[i].pcs| && run[i].pcs[w].Parked? && s'.pcs == run[i].pcs[w := Woken]
            else s'.pcs == run[i].pcs
  {
    var s := run[i];
    RunsKeepInv(c, run, i);
    assert Knows(c.roles[p], s.pcs[p], s.q);
    assert !HoldsLock(s.pcs[p]);
    var s3 := AddsLocked(c, s, p, m);
    s' := SignalsAndLeaves(c, s, s3, p, m);
  }

  lemma AddsLocked(c: Config, s: State, p: Tid, m: Msg) returns (s3: State)
    requires |s.pcs| == |c.roles| && IsProducer(c, p) && s.pcs[p].Start? && s.lock.None? && Normal(m.due)
    ensures Alone(c, p, s, s3)
    ensures var ok := Add(s.q, m).1;
            s3 == s.(pcs := s.pcs[p := if ok && s.q.heap == [] then Signalling else Leaving], lock := Some(p),
                     q := Add(s.q, m).0, added := if ok then s.added + multiset{m} else s.added)
  {
    hide Alone, Add;
    StayAlone(c, p, s);
    GoOn(c, p, s, s, Lock(p));
    var s1 := Blocking.After(c, s, Lock(p));
    GoOn(c, p, s, s1, NoteEmpty(p));
    var s2 := Blocking.After(c, s1, NoteEmpty(p));
    GoOn(c, p, s, s2, AddMsg(p, m));
    s3 := Blocking.After(c, s2, AddMsg(p, m));
  }

  lemma SignalsAndLeaves(c: Config, s: State, s3: State, p: Tid, m: Msg) returns (s': State)
    requires |s.pcs| == |c.roles| && IsProducer(c, p) && s.pcs[p].Start? && s.lock.None? && Alone(c, p, s, s3)
    requires |s3.pcs| == |s.pcs| && s3.pcs == s.pcs[p := s3.pcs[p]]
    requires s3.pcs[p] == if Add(s.q, m).1 && s.q.heap == [] then Signalling else Leaving
    ensures Alone(c, p, s, s') && s' == s3.(pcs := s'.pcs, lock := None)
    ensures if s3.pcs[p].Signalling? && SomeoneParked(s) then
              exists w: Tid :: w < |s.pcs| && s.pcs[w].Parked? && s'.pcs == s.pcs[w := Woken]
            else s'.pcs == s.pcs
  {
    hide Alone, Add;
    var s4 := s3;
    if s3.pcs[p].Signalling? {
      if w: Tid :| w < |s.pcs| && s.pcs[w].Parked? {
        assert s3.pcs[w].Parked?;
        GoOn(c, p, s, s3, Signal(p, Some(w)));
        s4 := Blocking.After(c, s3, Signal(p, Some(w)));
        GoOn(c, p, s, s4, Unlock(p));
        s' := Blocking.After(c, s4, Unlock(p));
        assert s'.pcs == s.pcs[w := Woken];
        return;
      }
      assert !SomeoneParked(s3);
      GoOn(c, p, s, s3, Signal(p, None));
      s4 := Blocking.After(c, s3, Signal(p, None));
    }
    GoOn(c, p, s, s4, Unlock(p));
    s' := Blocking.After(c, s4, Unlock(p));
    assert s'.pcs == s.pcs;
  }

  // ---------- Nobody is stuck ----------

  /** A step of the lock holder: some clock reading, some message and some thread to wake do. */
  lemma HolderCanStep(c: Config, s: State, t: Tid) returns (step: Blocking.Step)
    requires Inv(c, s) && s.lock == Some(t)
    ensures step.t == t && !step.WakeSpuriously? && Enabled(c, s, step)
  {
    assert HoldsLock(s.pcs[t]);
    assert Knows(c.roles[t], s.pcs[t], s.q);
    match s.pcs[t]
    case Locked => step := if c.roles[t].Producer? then NoteEmpty(t) else Look(t);
    case Noted(_) => step := AddMsg(t, Msg(0, Time(0, 0), 0));
    case Signalling =>
      if w: Tid :| w < |s.pcs| && s.pcs[w].Parked? {
        step := Signal(t, Some(w));
      } else {
        step := Signal(t, None);
      }
    case Testing => step := Test(t, Time(0, 0));
    case Removing(_) => step := Take(t);
    case SawEmpty => step := Park(t);
    case NotDue => step := Nap(t);
    case Leaving => step := Unlock(t);
  }

  /** No reachable state is dead: while some thread is neither parked nor gone, there is a step
      other than a spurious wake-up. */
  lemma NoDeadlock(c: Config, run: seq<State>, i: nat, t: Tid) returns (step: Blocking.Step)
    requires ValidConfig(c) && IsRun(c, run) && i < |run| && |run[i].pcs| == |c.roles|
    requires t < |c.roles| && !run[i].pcs[t].Parked? && !run[i].pcs[t].Exited?
    ensures !step.WakeSpuriously? && Enabled(c, run[i], step)
    ensures step.t == if run[i].lock.Some? then run[i].lock.value else t
  {
    var s := run[i];
    RunsKeepInv(c, run, i);
    if s.lock.Some? {
      step := HolderCanStep(c, s, s.lock.value);
    } else {
      CanLock(c, s, t);
      step := Lock(t);
    }
  }

  /** How many steps the holder is at most away from giving the lock up. */
  function ToGo(pc: PC): nat {
    match pc
    case Locked => 4
    case Noted(_) => 3
    case Testing => 3
    case Signalling => 2
    case Removing(_) => 2
    case SawEmpty => 1
    case NotDue => 1
    case Leaving => 1
    case _ => 0
  }

  lemma HolderStep(c: Config, s: State, step: Blocking.Step)
    requires |s.pcs| == |c.roles| && Enabled(c, s, step) && s.lock == Some(step.t) && !step.WakeSpuriously?
    requires HoldsLock(s.pcs[step.t])
    ensures var s' := Blocking.After(c, s, step);
            ToGo(s'.pcs[step.t]) < ToGo(s.pcs[step.t]) && (s'.lock == s.lock || s'.lock.None?)
  {
    hide Add, Remove, IsDue;
  }

  lemma HolderGetsOn(c: Config, s: State, step: Blocking.Step)
    requires Inv(c, s) && Enabled(c, s, step) && s.lock == Some(step.t) && !step.WakeSpuriously?
    ensures var s' := Blocking.After(c, s, step);
            ToGo(s'.pcs[step.t]) < ToGo(s.pcs[step.t]) && (s'.lock == s.lock || s'.lock.None?)
  {
    hide Blocking.After, Enabled, ToGo, HoldsLock;
    assert HoldsLock(s.pcs[step.t]);
    HolderStep(c, s, step);
  }

  lemma {:induction false} HolderFreesLock(c: Config, s: State, s1: State, t: Tid) returns (s': State)
    requires ValidConfig(c) && Inv(c, s1) && s1.lock == Some(t) && t < |s1.pcs| && Alone(c, t, s, s1)
    ensures Alone(c, t, s, s') && s'.lock.None?
    decreases ToGo(s1.pcs[t])
  {
    hide Inv, Enabled, Blocking.After, Alone, ToGo;
    InvShape(c, s1);
    var step := HolderCanStep(c, s1, t);
    GoOn(c, t, s, s1, step);
    s' := Blocking.After(c, s1, step);
    HolderGetsOn(c, s1, step);
    assert Next(c, s1, s');
    StepKeepsInv(c, s1, s');
    if s'.lock.Some? {
      InvShape(c, s');
      s' := HolderFreesLock(c, s, s', t);
    }
  }

  lemma InvShape(c: Config, s: State)
    requires Inv(c, s)
    ensures |s.pcs| == |c.roles|
  {
  }

  /** In every reachable state, whoever holds the lock gives it up by its own steps alone. */
  lemma LockIsFreed(c: Config, run: seq<State>, i: nat) returns (s': State)
    requires ValidConfig(c) && IsRun(c, run) && i < |run| && run[i].lock.Some?
    ensures Alone(c, run[i].lock.value, run[i], s') && s'.lock.None?
  {
    var t := run[i].lock.value;
    RunsKeepInv(c, run, i);
    StayAlone(c, t, run[i]);
    s' := HolderFreesLock(c, run[i], run[i], t);
  }
}
