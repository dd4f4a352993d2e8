/** When a message can be left in the queue with every waiting taker parked for good. The
    producer signals only when it finds the queue empty (ideas/queue/queue.c:131-140). */
module Stranding {
  import opened Options
  import opened Times
  import opened HeapSpec
  import opened QueueRuns
  import opened Blocking

  /** Nobody runs, a message waits, some taker is parked, and no taker is left that will
      look at the queue without a further signal. */
  ghost predicate Stranded(c: Config, s: State) {
    && |s.pcs| == |c.roles| && s.lock.None? && s.q.heap != [] && SomeoneParked(s)
    && forall t: Tid | t < |c.roles| && c.roles[t].Taker? :: s.pcs[t].Parked? || s.pcs[t].Exited?
  }

  predicate IsProducer(c: Config, p: Tid) {
    p < |c.roles| && c.roles[p].Producer?
  }

  predicate IsTaker(c: Config, t: Tid) {
    t < |c.roles| && c.roles[t].Taker?
  }

  predicate IsOneShot(c: Config, t: Tid) {
    IsTaker(c, t) && !c.roles[t].loops
  }

  /** A one-shot taker beside another taker, a producer, and room for two messages. */
  ghost predicate MayStrand(c: Config) {
    && (c.growable || c.cap >= 2)
    && (exists p: Tid :: IsProducer(c, p))
    && exists a: Tid, b: Tid :: IsOneShot(c, a) && IsTaker(c, b) && a != b
  }

  // ---------- Safe configurations ----------

  /** A taker that will look at the queue again without being signalled. */
  predicate Awake(role: Role, pc: PC) {
    role.Taker? && !pc.Parked? && !pc.Exited? && (pc.Leaving? ==> role.loops)
  }

  predicate SomeoneAwake(c: Config, s: State)
    requires |s.pcs| == |c.roles|
  {
    exists t: Tid | t < |c.roles| :: Awake(c.roles[t], s.pcs[t])
  }

  predicate SomeoneSignalling(s: State) {
    exists t: Tid | t < |s.pcs| :: s.pcs[t].Signalling?
  }

  /** The condition under which somebody must be awake. */
  predicate NeedsAwake(s: State) {
    s.q.heap != [] && !SomeoneSignalling(s) && SomeoneParked(s)
  }

  /** With no room for a second message, a leaving taker has emptied the queue. */
  ghost predicate LeavesEmpty(c: Config, s: State)
    requires |s.pcs| == |c.roles|
  {
    !c.growable && c.cap <= 1 ==> forall t: Tid | IsTaker(c, t) && s.pcs[t].Leaving? :: s.q.heap == []
  }

  ghost predicate WakeInv(c: Config, s: State) {
    && |s.pcs| == |c.roles|
    && (NeedsAwake(s) ==> SomeoneAwake(c, s))
    && (s.q.heap != [] ==> exists p: Tid :: IsProducer(c, p))
    && LeavesEmpty(c, s)
  }

  lemma HolderIsAlone(c: Config, s: State, t: Tid, u: Tid)
    requires Inv(c, s) && t < |s.pcs| && u < |s.pcs| && HoldsLock(s.pcs[t]) && HoldsLock(s.pcs[u])
    ensures t == u
  {
    assert s.lock == Some(t) && s.lock == Some(u);
  }

  lemma AwakeStays(c: Config, s: State, step: Step, u: Tid)
    requires |s.pcs| == |c.roles| && Enabled(c, s, step) && u < |s.pcs| && Awake(c.roles[u], s.pcs[u])
    requires Knows(c.roles[step.t], s.pcs[step.t], s.q) && s.q.heap != []
    requires step == Take(u) ==> c.roles[u].loops
    ensures Awake(c.roles[u], After(c, s, step).pcs[u])
  {
  }

  lemma StepKeepsAwake(c: Config, s: State, s': State)
    requires Inv(c, s) && WakeInv(c, s) && !MayStrand(c) && Next(c, s, s') && NeedsAwake(s')
    ensures |s'.pcs| == |c.roles| && SomeoneAwake(c, s')
  {
    hide After, Enabled, Inv;
    assert |s.pcs| == |c.roles|;
    var step :| Enabled(c, s, step) && s' == After(c, s, step);
    var v: Tid :| v < |s'.pcs| && s'.pcs[v].Parked?;
    if step.Signal? {
      WokenIsAwake(c, s, step, v);
    } else {
      WasQuiet(c, s, step);
      NotParking(c, s, step);
      StillParked(c, s, step, v);
      QuietStepKeepsAwake(c, s, step, v);
    }
  }

  lemma QuietStepKeepsAwake(c: Config, s: State, step: Step, v: Tid)
    requires Inv(c, s) && WakeInv(c, s) && !MayStrand(c) && Enabled(c, s, step)
    requires NeedsAwake(s) && v < |s.pcs| && s.pcs[v].Parked? && After(c, s, step).q.heap != []
    ensures SomeoneAwake(c, After(c, s, step))
  {
    var u: Tid :| u < |c.roles| && Awake(c.roles[u], s.pcs[u]);
    assert Knows(c.roles[v], s.pcs[v], s.q) && Knows(c.roles[step.t], s.pcs[step.t], s.q);
    if step == Take(u) && !c.roles[u].loops {
      OneShotTakesLast(c, s, u, v);
    } else {
      AwakeStays(c, s, step, u);
    }
  }

  lemma NotParking(c: Config, s: State, step: Step)
    requires Inv(c, s) && Enabled(c, s, step) && s.q.heap != []
    ensures !step.Park?
  {
    assert Knows(c.roles[step.t], s.pcs[step.t], s.q);
  }

  lemma StillParked(c: Config, s: State, step: Step, v: Tid)
    requires |s.pcs| == |c.roles| && Enabled(c, s, step) && !step.Park?
    requires v < |s.pcs| && After(c, s, step).pcs[v].Parked?
    ensures s.pcs[v].Parked?
  {
  }

  lemma WokenIsAwake(c: Config, s: State, step: Step, v: Tid)
    requires Inv(c, s) && Enabled(c, s, step) && step.Signal?
    requires v < |s.pcs| && After(c, s, step).pcs[v].Parked?
    ensures SomeoneAwake(c, After(c, s, step))
  {
    assert s.pcs[v].Parked?;
    var w := step.woken.value;
    assert Knows(c.roles[w], s.pcs[w], s.q);
    assert Awake(c.roles[w], After(c, s, step).pcs[w]);
  }

  /** If no signal is pending after a step that is not the signal, none was before, and the
      queue was not empty either. */
  lemma WasQuiet(c: Config, s: State, step: Step)
    requires Inv(c, s) && Enabled(c, s, step) && !step.Signal?
    requires After(c, s, step).q.heap != [] && !SomeoneSignalling(After(c, s, step))
    ensures s.q.heap != [] && !SomeoneSignalling(s)
  {
    var s' := After(c, s, step);
    assert Knows(c.roles[step.t], s.pcs[step.t], s.q);
    assert !s'.pcs[step.t].Signalling?;
    forall u: Tid | u < |s.pcs|
      ensures !s.pcs[u].Signalling?
    {
      assert !s'.pcs[u].Signalling?;
      assert u != step.t ==> s'.pcs[u] == s.pcs[u];
    }
  }

  /** In a safe configuration a one-shot taker beside another taker leaves an empty queue. */
  lemma OneShotTakesLast(c: Config, s: State, u: Tid, v: Tid)
    requires Inv(c, s) && WakeInv(c, s) && !MayStrand(c) && Enabled(c, s, Take(u))
    requires IsOneShot(c, u) && IsTaker(c, v) && u != v
    ensures After(c, s, Take(u)).q.heap == []
  {
    assert !c.growable && c.cap <= 1;
    RemoveHeapCorrect(s.q.heap);
  }

  lemma OnlyProducersFill(c: Config, s: State, s': State)
    requires Inv(c, s) && WakeInv(c, s) && Next(c, s, s') && s'.q.heap != []
    ensures exists p: Tid :: IsProducer(c, p)
  {
    var step :| Enabled(c, s, step) && s' == After(c, s, step);
    assert Knows(c.roles[step.t], s.pcs[step.t], s.q);
    if step.AddMsg? {
      assert IsProducer(c, step.t);
    }
  }

  lemma StepKeepsLeaves(c: Config, s: State, s': State)
    requires Inv(c, s) && WakeInv(c, s) && Next(c, s, s')
    ensures |s'.pcs| == |c.roles| && LeavesEmpty(c, s')
  {
    hide After, Enabled, Inv;
    var step :| Enabled(c, s, step) && s' == After(c, s, step);
    forall u: Tid | !c.growable && c.cap <= 1 && IsTaker(c, u) && s'.pcs[u].Leaving?
      ensures s'.q.heap == []
    {
      LeavingSeesEmpty(c, s, step, u);
    }
  }

  lemma StepKeepsWake(c: Config, s: State, s': State)
    requires Inv(c, s) && WakeInv(c, s) && !MayStrand(c) && Next(c, s, s')
    ensures WakeInv(c, s')
  {
    StepKeepsLeaves(c, s, s');
    if NeedsAwake(s') {
      StepKeepsAwake(c, s, s');
    }
    if s'.q.heap != [] {
      OnlyProducersFill(c, s, s');
    }
  }

  /** A taker gets to Leaving by its own Take only, and stays there until its own Unlock. */
  lemma HowToLeave(c: Config, s: State, step: Step, u: Tid)
    requires |s.pcs| == |c.roles| && Enabled(c, s, step) && Knows(c.roles[step.t], s.pcs[step.t], s.q)
    requires IsTaker(c, u) && After(c, s, step).pcs[u].Leaving?
    ensures step == Take(u) || (step.t != u && s.pcs[u].Leaving?)
  {
  }

  lemma LeavingSeesEmpty(c: Config, s: State, step: Step, u: Tid)
    requires Inv(c, s) && WakeInv(c, s) && Enabled(c, s, step)
    requires !c.growable && c.cap <= 1 && IsTaker(c, u) && After(c, s, step).pcs[u].Leaving?
    ensures After(c, s, step).q.heap == []
  {
    assert Knows(c.roles[step.t], s.pcs[step.t], s.q);
    HowToLeave(c, s, step, u);
    QueueAfter(c, s, step);
    hide After;
    if step == Take(u) {
      RemoveHeapCorrect(s.q.heap);
    } else if HoldsLock(s.pcs[step.t]) {
      HolderIsAlone(c, s, step.t, u);
    }
  }

  lemma StartsAwake(c: Config)
    ensures WakeInv(c, Initial(c))
  {
  }

  lemma {:induction false} RunsKeepWake(c: Config, run: seq<State>, i: nat)
    requires ValidConfig(c) && IsRun(c, run) && i < |run| && !MayStrand(c)
    ensures WakeInv(c, run[i])
  {
    hide Inv, WakeInv, Next;
    if i == 0 {
      StartsAwake(c);
    } else {
      RunsKeepInv(c, run, i - 1);
      RunsKeepWake(c, run, i - 1);
      StepKeepsWake(c, run[i - 1], run[i]);
    }
  }

  lemma SafeNeverStrands(c: Config, run: seq<State>, i: nat)
    requires ValidConfig(c) && IsRun(c, run) && i < |run| && !MayStrand(c)
    ensures !Stranded(c, run[i])
  {
    RunsKeepInv(c, run, i);
    RunsKeepWake(c, run, i);
    var s := run[i];
    if NeedsAwake(s) {
      var t: Tid :| t < |c.roles| && Awake(c.roles[t], s.pcs[t]);
    } else if SomeoneSignalling(s) {
      var t: Tid :| t < |s.pcs| && s.pcs[t].Signalling?;
      assert HoldsLock(s.pcs[t]) && s.lock == Some(t);
    }
  }

  /** With consumers that loop for ever, as in ideas/queue/main.c: whenever the lock is free
      and the queue is not empty, some consumer is not parked. */
  lemma LoopingConsumersAreNotStranded(c: Config, run: seq<State>, i: nat)
    requires ValidConfig(c) && IsRun(c, run) && i < |run|
    requires exists t: Tid :: IsTaker(c, t)
    requires forall t: Tid :: IsTaker(c, t) ==> c.roles[t].loops
    requires run[i].lock.None? && run[i].q.heap != []
    ensures |run[i].pcs| == |c.roles| && exists t: Tid :: IsTaker(c, t) && !run[i].pcs[t].Parked?
  {
    var s := run[i];
    RunsKeepInv(c, run, i);
    SafeNeverStrands(c, run, i);
    var u: Tid :| IsTaker(c, u);
    if s.pcs[u].Parked? {
      assert SomeoneParked(s);
      var t: Tid :| t < |c.roles| && c.roles[t].Taker? && !(s.pcs[t].Parked? || s.pcs[t].Exited?);
      assert IsTaker(c, t);
    }
  }

  // ---------- Unsafe configurations strand ----------

  ghost predicate Reachable(c: Config, s: State) {
    exists run :: IsRun(c, run) && run[|run| - 1] == s
  }

  lemma Extend(c: Config, s: State, step: Step)
    requires Reachable(c, s) && |s.pcs| == |c.roles| && Enabled(c, s, step)
    ensures Reachable(c, After(c, s, step))
  {
    var run :| IsRun(c, run) && run[|run| - 1] == s;
    var s' := After(c, s, step);
    var longer := run + [s'];
    forall i | 0 <= i < |longer| - 1
      ensures Next(c, longer[i], longer[i + 1])
    {
      if i < |run| - 1 {
        assert Next(c, run[i], run[i + 1]);
      }
    }
    assert IsRun(c, longer);
  }

  /** The first n threads have run; the takers among them found the queue empty. */
  function ParkedUpTo(c: Config, n: nat): State {
    Initial(c).(pcs := seq(|c.roles|, (t: int) requires 0 <= t < |c.roles| =>
      if t < n && c.roles[t].Taker? then Parked else Start))
  }

  lemma {:induction false} ParkAll(c: Config, n: nat)
    requires n <= |c.roles|
    ensures Reachable(c, ParkedUpTo(c, n))
    decreases n
  {
    if n == 0 {
      assert ParkedUpTo(c, 0) == Initial(c);
      assert IsRun(c, [Initial(c)]);
    } else {
      ParkAll(c, n - 1);
      var t := n - 1;
      var s := ParkedUpTo(c, t);
      if c.roles[t].Taker? {
        Extend(c, s, Lock(t));
        var s1 := After(c, s, Lock(t));
        Extend(c, s1, Look(t));
        var s2 := After(c, s1, Look(t));
        Extend(c, s2, Park(t));
        assert After(c, s2, Park(t)) == ParkedUpTo(c, n);
      } else {
        assert s == ParkedUpTo(c, n);
      }
    }
  }

  /** One whole call of add_s that succeeds, signalling a if the queue was empty. */
  lemma AddCall(c: Config, s: State, p: Tid, m: Msg, a: Tid)
    requires Reachable(c, s) && |s.pcs| == |c.roles| && s.lock.None?
    requires IsProducer(c, p) && s.pcs[p].Start? && Normal(m.due) && Add(s.q, m).1
    requires s.q.heap == [] ==> a < |s.pcs| && s.pcs[a].Parked?
    ensures Reachable(c, s.(pcs := if s.q.heap == [] then s.pcs[a := Woken] else s.pcs,
                            q := Add(s.q, m).0, added := s.added + multiset{m}))
  {
    Extend(c, s, Lock(p));
    var s1 := After(c, s, Lock(p));
    Extend(c, s1, NoteEmpty(p));
    var s2 := After(c, s1, NoteEmpty(p));
    Extend(c, s2, AddMsg(p, m));
    var s3 := After(c, s2, AddMsg(p, m));
    var s4 := s3;
    if s.q.heap == [] {
      assert s3.pcs[a].Parked?;
      Extend(c, s3, Signal(p, Some(a)));
      s4 := After(c, s3, Signal(p, Some(a)));
    }
    Extend(c, s4, Unlock(p));
    assert After(c, s4, Unlock(p)).pcs == if s.q.heap == [] then s.pcs[a := Woken] else s.pcs;
  }

  /** The rest of a one-shot take after its wait, for a message that is long due. */
  lemma TakeCall(c: Config, s: State, a: Tid) returns (s': State)
    requires Reachable(c, s) && |s.pcs| == |c.roles| && s.lock.None?
    requires IsOneShot(c, a) && s.pcs[a].Woken? && s.q.heap != [] && s.q.heap[0].due == Time(0, 0)
    ensures Reachable(c, s') && s'.pcs == s.pcs[a := Exited] && s'.lock.None? && s'.q == Remove(s.q).0
  {
    Extend(c, s, Lock(a));
    var s1 := After(c, s, Lock(a));
    Extend(c, s1, Look(a));
    var s2 := After(c, s1, Look(a));
    var s3 := s2;
    if c.roles[a].mode.Due? {
      Extend(c, s2, Test(a, Time(1, 0)));
      s3 := After(c, s2, Test(a, Time(1, 0)));
    }
    Extend(c, s3, Take(a));
    var s4 := After(c, s3, Take(a));
    Extend(c, s4, Unlock(a));
    s' := After(c, s4, Unlock(a));
  }

  lemma UnsafeStrands(c: Config) returns (s: State)
    requires ValidConfig(c) && MayStrand(c)
    ensures Reachable(c, s) && Stranded(c, s)
  {
    var p: Tid :| IsProducer(c, p);
    var a: Tid, b: Tid :| IsOneShot(c, a) && IsTaker(c, b) && a != b;
    var m := Msg(0, Time(0, 0), 0);
    ParkAll(c, |c.roles|);
    var s2 := TwoAdds(c, ParkedUpTo(c, |c.roles|), p, m, a);
    s := TakeCall(c, s2, a);
    assert s.pcs[b].Parked?;
  }

  lemma TwoAdds(c: Config, s: State, p: Tid, m: Msg, a: Tid) returns (s2: State)
    requires Reachable(c, s) && |s.pcs| == |c.roles| && s.lock.None? && s.q == Queue([], c.cap, c.growable)
    requires ValidConfig(c) && (c.growable || c.cap >= 2) && Normal(m.due)
    requires IsProducer(c, p) && s.pcs[p].Start? && a < |s.pcs| && s.pcs[a].Parked?
    ensures Reachable(c, s2) && s2.pcs == s.pcs[a := Woken] && s2.lock.None?
    ensures s2.q.heap != [] && s2.q.heap[0] == m && Remove(s2.q).0.heap != []
  {
    AddHeapCorrect([], m);
    AddCall(c, s, p, m, a);
    var s1 := s.(pcs := s.pcs[a := Woken], q := Add(s.q, m).0, added := s.added + multiset{m});
    AddHeapCorrect(s1.q.heap, m);
    AddCall(c, s1, p, m, a);
    s2 := s1.(q := Add(s1.q, m).0, added := s1.added + multiset{m});
    assert s2.q.heap[0] in multiset(s2.q.heap);
    RemoveHeapCorrect(s2.q.heap);
  }

  ghost predicate NeverStrands(c: Config) {
    forall run: seq<State>, i: nat | IsRun(c, run) && i < |run| :: !Stranded(c, run[i])
  }

  /** Exactly which configurations can strand a message. */
  lemma NeverStrandsIff(c: Config)
    requires ValidConfig(c)
    ensures NeverStrands(c) <==> !MayStrand(c)
  {
    if MayStrand(c) {
      var s := UnsafeStrands(c);
      var run :| IsRun(c, run) && run[|run| - 1] == s;
      assert Stranded(c, run[|run| - 1]);
    } else {
      forall run: seq<State>, i: nat | IsRun(c, run) && i < |run|
        ensures !Stranded(c, run[i])
      {
        SafeNeverStrands(c, run, i);
      }
    }
  }
}
