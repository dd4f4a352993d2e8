/** Every interleaving of the thread-safe functions of ideas/queue/queue.c:131-223 is, on the
    queue, a sequential run of adds and removes in the order of the critical sections. */
module Sequential {
  import opened Options
  import opened Times
  import opened HeapSpec
  import opened QueueRuns
  import opened Blocking

  /** What a step of a thread does to the queue. */
  function OpOf(step: Blocking.Step): seq<Op> {
    match step
    case AddMsg(_, m) => [OpAdd(m)]
    case Take(_) => [OpRemove]
    case _ => []
  }

  /** The messages that a sequential run gave out, in order. */
  function GivenOut(rs: seq<Result>): seq<Msg> {
    if rs == [] then [] else
      var last := rs[|rs| - 1];
      GivenOut(rs[..|rs| - 1]) + if last.Removed? && last.m.Some? then [last.m.value] else []
  }

  /** The messages that it took in. */
  function TakenIn(ops: seq<Op>, rs: seq<Result>): multiset<Msg>
    requires |ops| == |rs|
  {
    if ops == [] then multiset{} else
      var op, r := ops[|ops| - 1], rs[|rs| - 1];
      TakenIn(ops[..|ops| - 1], rs[..|rs| - 1]) +
      if op.OpAdd? && r == Added(true) then multiset{op.m} else multiset{}
  }

  function Messages(log: seq<Delivery>): seq<Msg> {
    if log == [] then [] else Messages(log[..|log| - 1]) + [log[|log| - 1].msg]
  }

  lemma {:induction false} MessagesDelivered(log: seq<Delivery>)
    ensures multiset(Messages(log)) == Delivered(log)
  {
    if log != [] {
      MessagesDelivered(log[..|log| - 1]);
    }
  }

  /** The state looks as if these operations had been called one after the other. */
  ghost predicate LooksSequential(c: Config, s: State, ops: seq<Op>) {
    var (q, rs) := Run(Initial(c).q, ops);
    && q == s.q && |rs| == |ops| && GivenOut(rs) == Messages(s.log) && TakenIn(ops, rs) == s.added
  }

  /** A step of the interleaving appends what it does to the queue. */
  ghost predicate Appends(c: Config, s: State, s': State, ops: seq<Op>, ops': seq<Op>) {
    |s.pcs| == |c.roles| &&
    exists step :: Enabled(c, s, step) && s' == Blocking.After(c, s, step) && ops' == ops + OpOf(step)
  }

  lemma {:induction false} RunAppended(q: Queue, ops: seq<Op>, op: Op)
    ensures var (q1, rs) := Run(q, ops);
            var (q2, r) := QueueRuns.Step(q1, op);
            |rs| == |ops| && Run(q, ops + [op]) == (q2, rs + [r])
    decreases |ops|
  {
    hide QueueRuns.Step;
    if ops == [] {
      var (q2, r) := QueueRuns.Step(q, op);
      assert [op][1..] == [] && ops + [op] == [op] && [r] + [] == [r] == [] + [r];
      assert Run(q2, []) == (q2, []);
    } else {
      var (q1, r) := QueueRuns.Step(q, ops[0]);
      var (q2, rs) := Run(q1, ops[1..]);
      RunAppended(q1, ops[1..], op);
      assert (ops + [op])[1..] == ops[1..] + [op];
      assert [r] + (rs + [QueueRuns.Step(q2, op).1]) == ([r] + rs) + [QueueRuns.Step(q2, op).1];
    }
  }

  lemma ResultAppended(ops: seq<Op>, rs: seq<Result>, op: Op, r: Result)
    requires |ops| == |rs|
    ensures GivenOut(rs + [r]) == GivenOut(rs) + if r.Removed? && r.m.Some? then [r.m.value] else []
    ensures TakenIn(ops + [op], rs + [r]) ==
            TakenIn(ops, rs) + if op.OpAdd? && r == Added(true) then multiset{op.m} else multiset{}
  {
    assert (rs + [r])[..|rs|] == rs && (ops + [op])[..|ops|] == ops;
  }

  lemma StepAppends(c: Config, s: State, step: Blocking.Step, ops: seq<Op>)
    requires |s.pcs| == |c.roles| && Enabled(c, s, step) && LooksSequential(c, s, ops)
    ensures LooksSequential(c, Blocking.After(c, s, step), ops + OpOf(step))
  {
    QueueAfter(c, s, step);
    hide Blocking.After, Enabled, Run, GivenOut, TakenIn, AddHeap, RemoveHeap;
    if OpOf(step) == [] {
      assert ops + [] == ops;
    } else {
      var op := OpOf(step)[0];
      var (q, rs) := Run(Initial(c).q, ops);
      RunAppended(Initial(c).q, ops, op);
      ResultAppended(ops, rs, op, QueueRuns.Step(q, op).1);
      if step.Take? {
        LogAppended(s.log, Delivery(step.t, s.q.heap[0], s.q.heap, s.pcs[step.t].now));
      }
    }
  }

  lemma LogAppended(log: seq<Delivery>, d: Delivery)
    ensures Messages(log + [d]) == Messages(log) + [d.msg]
  {
    assert (log + [d])[..|log|] == log;
  }

  lemma StartsSequential(c: Config)
    ensures LooksSequential(c, Initial(c), [])
  {
  }

  lemma LastStep(c: Config, s: State, s': State, ops: seq<Op>) returns (ops': seq<Op>)
    requires Next(c, s, s') && LooksSequential(c, s, ops)
    ensures LooksSequential(c, s', ops') && Appends(c, s, s', ops, ops')
  {
    var step :| Enabled(c, s, step) && s' == Blocking.After(c, s, step);
    StepAppends(c, s, step, ops);
    ops' := ops + OpOf(step);
  }

  lemma LegalAtEnd(c: Config, s: State, ops: seq<Op>)
    requires ValidConfig(c) && LooksSequential(c, s, ops)
    ensures LegalRun(multiset{}, Limit(Initial(c).q), ops, Run(Initial(c).q, ops).1, multiset(s.q.heap))
  {
    assert Valid(Initial(c).q) && multiset(Initial(c).q.heap) == multiset{};
    RunRefines(Initial(c).q, ops);
  }

  lemma {:induction false} StepByStep(c: Config, run: seq<State>) returns (ops: seq<seq<Op>>)
    requires IsRun(c, run)
    ensures |ops| == |run| && ops[0] == []
    ensures forall i | 0 <= i < |run| :: LooksSequential(c, run[i], ops[i])
    ensures forall i | 0 <= i < |run| - 1 :: Appends(c, run[i], run[i + 1], ops[i], ops[i + 1])
    decreases |run|
  {
    hide LooksSequential, Appends, Next, Initial;
    var n := |run| - 1;
    if n == 0 {
      ops := [[]];
      StartsSequential(c);
    } else {
      var before := run[..n];
      FrontOfRun(c, run);
      var ops' := StepByStep(c, before);
      var last := LastStep(c, run[n - 1], run[n], ops'[n - 1]);
      ops := ops' + [last];
      forall i | 0 <= i < n
        ensures Appends(c, run[i], run[i + 1], ops[i], ops[i + 1])
      {
        if i < n - 1 {
          assert Appends(c, before[i], before[i + 1], ops'[i], ops'[i + 1]);
        }
      }
    }
  }

  lemma FrontOfRun(c: Config, run: seq<State>)
    requires IsRun(c, run) && |run| > 1
    ensures IsRun(c, run[..|run| - 1]) && Next(c, run[|run| - 2], run[|run| - 1])
  {
    var n := |run| - 1;
    assert Next(c, run[n - 1], run[(n - 1) + 1]);
    assert forall i | 0 <= i < n - 1 :: Next(c, run[i], run[i + 1]);
  }

  /** Every interleaving: there are sequential runs, one for each state, each of which appends
      to the one before what the step in between does to the queue. Each run leaves the queue
      of its state, has given out the messages delivered, in order, and taken in those added;
      and it is a run of the bounded bag with remove-a-minimum. */
  lemma InterleavingIsSequential(c: Config, run: seq<State>) returns (ops: seq<seq<Op>>)
    requires ValidConfig(c) && IsRun(c, run)
    ensures |ops| == |run| && ops[0] == []
    ensures forall i | 0 <= i < |run| - 1 :: Appends(c, run[i], run[i + 1], ops[i], ops[i + 1])
    ensures forall i | 0 <= i < |run| ::
              && LooksSequential(c, run[i], ops[i])
              && multiset(Messages(run[i].log)) == Delivered(run[i].log)
              && LegalRun(multiset{}, Limit(Initial(c).q), ops[i], Run(Initial(c).q, ops[i]).1, multiset(run[i].q.heap))
  {
    ops := StepByStep(c, run);
    hide LooksSequential, Appends, LegalRun, Run, IsRun;
    forall i | 0 <= i < |run|
      ensures multiset(Messages(run[i].log)) == Delivered(run[i].log)
      ensures LegalRun(multiset{}, Limit(Initial(c).q), ops[i], Run(Initial(c).q, ops[i]).1, multiset(run[i].q.heap))
    {
      LegalAtEnd(c, run[i], ops[i]);
      MessagesDelivered(run[i].log);
    }
  }
}
