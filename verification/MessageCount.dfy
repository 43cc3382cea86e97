/**
 The message counter of src/common/container_impl.cc beside its queue: producers push
 and then add one, the message-queue threads (serialised by `_mutex`) look at the
 counter, pop and then subtract one.  Each line is a separate atomic step and the
 counter is 32 bits wide.
 */
module MessageCount {
  import opened MpscProtocol
  import opened Sequences
  import opened Words

  // The message-queue thread that holds `_mutex`.
  datatype Thread = Waiting | Popping | Counting

  // `uncounted` are the producers between their exchange and their add.
  datatype System = System(q: State, count: nat, uncounted: set<Tid>, thread: Thread)

  datatype Action =
    | Producer(step: Step)
    | CountAdd(t: Tid)
    | Check
    | Take
    | CountSub

  function Start(): System {
    System(Initial(), 0, {}, Waiting)
  }

  predicate Can(s: System, a: Action)
    requires s.q.head <= |s.q.all|
  {
    match a
    case Producer(step) =>
      !step.Pop? && Enabled(s.q, step) && (step.PushClear? ==> step.t !in s.uncounted)
    case CountAdd(t) => t in s.uncounted && t !in s.q.producers
    case Check => s.thread.Waiting? && s.count != 0
    case Take => s.thread.Popping?
    case CountSub => s.thread.Counting?
  }

  function Do(s: System, a: Action): System
    requires s.q.head <= |s.q.all| && Can(s, a)
  {
    match a
    case Producer(step) =>
      s.(q := Apply(s.q, step), uncounted := s.uncounted + if step.PushExchange? then {step.t} else {})
    case CountAdd(t) => s.(count := (s.count + 1) % WORD, uncounted := s.uncounted - {t})
    case Check => s.(thread := Popping)
    case Take =>
      var q' := PopStep(s.q);
      s.(q := q', thread := if !q'.consumer.Idle? then Popping
                            else if Handed(s.q, Pop) != [] then Counting else Waiting)
    case CountSub => s.(count := (s.count + WORD - 1) % WORD, thread := Waiting)
  }

  // Messages added to the counter and not yet subtracted.
  function Outstanding(s: System): int
    requires s.q.head <= |s.q.all|
  {
    |Queued(s.q)| + (if s.thread.Counting? then 1 else 0) - |s.uncounted|
  }

  ghost predicate Ok(s: System) {
    && Inv(s.q)
    && (!s.thread.Popping? ==> s.q.consumer.Idle?)
    && (forall t :: t in s.q.producers && s.q.producers[t].Exchanged? ==> t in s.uncounted)
    && (forall t :: t in s.q.producers && s.q.producers[t].Cleared? ==> t !in s.uncounted)
    && Outstanding(s) >= (if s.thread.Waiting? then 0 else 1)
    && s.count == Outstanding(s) % WORD
  }

  lemma QueuedLength(s: State)
    requires s.head <= |s.all|
    ensures |Queued(s)| == |NoStub(s.all)| - |NoStub(s.all[..s.head])|
  {
    assert s.all == s.all[..s.head] + Window(s);
    WithoutConcat(s.all[..s.head], Window(s), STUB);
  }

  // A queue step adds the exchanged message and removes the one handed out.
  lemma QueueStepLength(s: State, step: Step)
    requires Inv(s) && Enabled(s, step)
    ensures Inv(Apply(s, step))
    ensures |Queued(Apply(s, step))| == |Queued(s)| + |Exchanging(s, step)| - |Handed(s, step)|
  {
    StepKeepsInv(s, step);
    StepShape(s, step);
    StepHistory(s, Apply(s, step), step);
    QueuedLength(s);
    QueuedLength(Apply(s, step));
  }

  lemma ProducerKeepsOk(s: System, step: Step)
    requires Ok(s) && Can(s, Producer(step))
    ensures Ok(Do(s, Producer(step)))
  {
    QueueStepLength(s.q, step);
    var s' := Do(s, Producer(step));
    assert |s'.uncounted| == |s.uncounted| + |Exchanging(s.q, step)| by {
      if step.PushExchange? { assert step.t !in s.uncounted; }
      else { assert s'.uncounted == s.uncounted; }
    }
    assert Outstanding(s') == Outstanding(s);
  }

  lemma PopKeepsProducers(s: State)
    ensures PopStep(s).producers == s.producers
    ensures |Handed(s, Pop)| <= 1
    ensures Handed(s, Pop) != [] ==> PopStep(s).consumer.Idle?
  {
  }

  lemma TakeKeepsOutstanding(s: System)
    requires Inv(s.q) && s.thread.Popping?
    ensures PopStep(s.q).head <= |PopStep(s.q).all|
    ensures Outstanding(Do(s, Take)) == Outstanding(s)
  {
    PopKeepsProducers(s.q);
    assert Enabled(s.q, Pop) && Apply(s.q, Pop) == PopStep(s.q);
    QueueStepLength(s.q, Pop);
  }

  lemma TakeKeepsOk(s: System)
    requires Ok(s) && s.thread.Popping?
    ensures Ok(Do(s, Take))
  {
    PopKeepsProducers(s.q);
    TakeKeepsOutstanding(s);
    PopKeepsInv(s.q);
  }

  lemma CountKeepsOk(s: System, a: Action)
    requires Ok(s) && Can(s, a) && (a.CountAdd? || a.CountSub?)
    ensures Ok(Do(s, a))
  {
    var s' := Do(s, a);
    if a.CountAdd? { assert |s'.uncounted| == |s.uncounted| - 1; }
    assert Outstanding(s') == Outstanding(s) + if a.CountAdd? then 1 else -1;
  }

  /** Every action of every thread keeps the counter in step with the queue. */
  lemma ActionKeepsOk(s: System, a: Action)
    requires Ok(s) && Can(s, a)
    ensures Ok(Do(s, a))
  {
    match a
    case Producer(step) => ProducerKeepsOk(s, step);
    case Take => TakeKeepsOk(s);
    case Check =>
    case _ => CountKeepsOk(s, a);
  }

  predicate ValidRun(s: System, actions: seq<Action>)
    decreases |actions|
  {
    s.q.head <= |s.q.all| &&
    (actions == [] || (Can(s, actions[0]) && ValidRun(Do(s, actions[0]), actions[1..])))
  }

  function Run(s: System, actions: seq<Action>): System
    requires ValidRun(s, actions)
    decreases |actions|
  {
    if actions == [] then s else Run(Do(s, actions[0]), actions[1..])
  }

  lemma {:induction false} RunKeepsOk(s: System, actions: seq<Action>)
    requires Ok(s) && ValidRun(s, actions)
    ensures Ok(Run(s, actions))
    decreases |actions|
  {
    if actions != [] {
      ActionKeepsOk(s, actions[0]);
      RunKeepsOk(Do(s, actions[0]), actions[1..]);
    }
  }

  lemma StartOk()
    ensures Ok(Start())
  {
    assert [STUB][1..] == [] && Window(Initial()) == [STUB];
    assert Queued(Initial()) == [];
  }

  lemma ExactWhenOk(s: System)
    requires Ok(s) && |Queued(s.q)| + 1 < WORD
    ensures s.count + |s.uncounted| == |Queued(s.q)| + (if s.thread.Counting? then 1 else 0)
    ensures s.thread.Counting? ==> s.count >= 1 && Do(s, CountSub).count == s.count - 1
  {
    assert 0 <= Outstanding(s) < WORD;
  }

  /** In every interleaving with fewer than 2^32 messages about, the counter plus the
      messages not yet added equals the queued messages plus the one just popped; so it
      never exceeds the queued messages (plus that one), and the thread that is about to
      subtract finds at least one. */
  lemma CounterIsExact(actions: seq<Action>)
    requires ValidRun(Start(), actions)
    requires Run(Start(), actions).q.head <= |Run(Start(), actions).q.all|
    requires |Queued(Run(Start(), actions).q)| + 1 < WORD
    ensures var s := Run(Start(), actions);
            && s.count + |s.uncounted| == |Queued(s.q)| + (if s.thread.Counting? then 1 else 0)
            && (s.thread.Counting? ==> s.count >= 1 && Do(s, CountSub).count == s.count - 1)
  {
    StartOk();
    RunKeepsOk(Start(), actions);
    ExactWhenOk(Run(Start(), actions));
  }

  lemma OpenIsOwed(q: State, i: nat)
    requires Inv(q) && i in q.open
    ensures q.consumer.StubLink? || exists t :: t in q.producers && q.producers[t].Exchanged?
  {
    assert LinkOk(q, i);
  }

  lemma NothingOpen(q: State, uncounted: set<Tid>)
    requires Inv(q) && q.consumer.Idle? && uncounted == {}
    requires forall t :: t in q.producers && q.producers[t].Exchanged? ==> t in uncounted
    ensures q.open == map[]
  {
    if i :| i in q.open {
      OpenIsOwed(q, i);
      assert false;
    }
    assert q.open.Keys == {};
  }

  /** Once the threads have stopped and no push is in flight, the counter is the number of
      queued messages modulo 2^32 and nothing is in flight. */
  lemma StoppedCounter(actions: seq<Action>)
    requires ValidRun(Start(), actions)
    requires Run(Start(), actions).uncounted == {} && Run(Start(), actions).thread.Waiting?
    ensures var s := Run(Start(), actions);
            && Inv(s.q) && s.q.consumer.Idle? && s.q.open == map[]
            && s.count == |Queued(s.q)| % WORD
  {
    StartOk();
    RunKeepsOk(Start(), actions);
    var s := Run(Start(), actions);
    NothingOpen(s.q, s.uncounted);
  }

  // The queue steps among the actions.
  function QueueSteps(actions: seq<Action>): seq<Step> {
    if actions == [] then []
    else (match actions[0]
          case Producer(step) => [step]
          case Take => [Pop]
          case _ => []) + QueueSteps(actions[1..])
  }

  // Seen from the queue, a run of the system is a run of the queue.
  lemma {:induction false} QueueRun(s: System, actions: seq<Action>)
    requires Ok(s) && ValidRun(s, actions)
    ensures MpscProtocol.ValidRun(s.q, QueueSteps(actions))
    ensures MpscProtocol.Run(s.q, QueueSteps(actions)) == Run(s, actions).q
    decreases |actions|
  {
    if actions != [] {
      var a := actions[0];
      ActionKeepsOk(s, a);
      QueueRun(Do(s, a), actions[1..]);
      var rest := QueueSteps(actions[1..]);
      if a.Producer? || a.Take? {
        var step := if a.Take? then Pop else a.step;
        assert Enabled(s.q, step) && Apply(s.q, step) == Do(s, a).q;
        assert QueueSteps(actions) == [step] + rest && QueueSteps(actions)[1..] == rest;
      } else {
        assert QueueSteps(actions) == rest;
      }
    }
  }

  lemma TakeEnds(s: System)
    requires s.thread.Popping? && PopStep(s.q).consumer.Idle?
    requires s.q.head <= |s.q.all| && PopStep(s.q).head <= |PopStep(s.q).all|
    ensures Do(s, Take) == s.(q := PopAlone(s.q), thread := if PopAlone(s.q).answer.Got? then Counting else Waiting)
  {
    assert PopAlone(s.q) == PopStep(s.q);
  }

  lemma PopGoesOn(q: State)
    requires !PopStep(q).consumer.Idle?
    ensures Remaining(PopStep(q).consumer) < Remaining(q.consumer) && Handed(q, Pop) == []
  {
  }

  lemma TakeGoesOn(s: System)
    requires s.thread.Popping? && !PopStep(s.q).consumer.Idle?
    requires s.q.head <= |s.q.all| && PopStep(s.q).head <= |PopStep(s.q).all|
    ensures Do(s, Take) == s.(q := PopStep(s.q)) && PopAlone(PopStep(s.q)) == PopAlone(s.q)
    ensures Remaining(PopStep(s.q).consumer) < Remaining(s.q.consumer)
  {
    PopGoesOn(s.q);
  }

  // The steps of one pop, by the thread that has seen a message counted.
  lemma {:induction false} TakesPop(s: System) returns (takes: seq<Action>)
    requires s.thread.Popping? && Inv(s.q)
    ensures ValidRun(s, takes)
    ensures Run(s, takes) == s.(q := PopAlone(s.q), thread := if PopAlone(s.q).answer.Got? then Counting else Waiting)
    decreases Remaining(s.q.consumer)
  {
    PopKeepsInv(s.q);
    var rest := [];
    if PopStep(s.q).consumer.Idle? {
      TakeEnds(s);
    } else {
      TakeGoesOn(s);
      rest := TakesPop(Do(s, Take));
    }
    takes := [Take] + rest;
    assert takes[0] == Take && takes[1..] == rest;
  }

  lemma {:induction false} RunThenSub(s: System, actions: seq<Action>)
    requires ValidRun(s, actions) && Run(s, actions).thread.Counting? && Run(s, actions).q.head <= |Run(s, actions).q.all|
    requires Do(Run(s, actions), CountSub).q.head <= |Do(Run(s, actions), CountSub).q.all|
    ensures ValidRun(s, actions + [CountSub]) && Run(s, actions + [CountSub]) == Do(Run(s, actions), CountSub)
    decreases |actions|
  {
    if actions == [] {
      assert actions + [CountSub] == [CountSub] && [CountSub][1..] == [];
    } else {
      RunThenSub(Do(s, actions[0]), actions[1..]);
      assert (actions + [CountSub])[1..] == actions[1..] + [CountSub];
    }
  }

  /** A waiting thread serves: with no push in flight and fewer than 2^32 messages about, while
      any is queued the counter is positive, and the thread that looks at it takes the first
      message and counts it off. */
  lemma WaitingThreadServes(s: System) returns (actions: seq<Action>)
    requires Ok(s) && s.thread.Waiting? && s.uncounted == {}
    requires s.q.head <= |s.q.all| && 0 < |Queued(s.q)| < WORD
    ensures Can(s, Check) && ValidRun(s, actions)
    ensures var r := Run(s, actions);
            && r.thread.Waiting? && r.q.head <= |r.q.all|
            && r.q.answer == Got(Queued(s.q)[0]) && Queued(r.q) == Queued(s.q)[1..]
            && r.count == s.count - 1 == |Queued(r.q)|
  {
    NothingOpen(s.q, s.uncounted);
    QuiescentPop(s.q);
    assert s.count == |Queued(s.q)|;
    var s1 := Do(s, Check);
    var takes := TakesPop(s1);
    var s2 := Run(s1, takes);
    actions := [Check] + (takes + [CountSub]);
    assert actions[1..] == takes + [CountSub];
    RunThenSub(s1, takes);
  }

  // The loop at the end of Shutdown, with nobody else left: the final system and the deleted nodes.
  ghost function DrainLoop(s: System): (System, seq<Node>)
    requires Inv(s.q) && s.q.consumer.Idle? && s.q.open == map[]
    decreases |Queued(s.q)|
  {
    QuiescentPop(s.q);
    var q' := PopAlone(s.q);
    if q'.answer.Got? then
      var (end, deleted) := DrainLoop(s.(q := q', count := (s.count + WORD - 1) % WORD));
      (end, [q'.answer.node] + deleted)
    else (s.(q := q'), [])
  }

  lemma OneFewer(n: nat)
    ensures ((n + 1) % WORD + WORD - 1) % WORD == n % WORD
  {
  }

  // One pop of the loop.
  lemma DrainPop(s: System)
    requires Inv(s.q) && s.q.consumer.Idle? && s.q.open == map[] && s.count == |Queued(s.q)| % WORD
    ensures var q' := PopAlone(s.q);
            && Inv(q') && q'.consumer.Idle? && q'.open == map[]
            && (Queued(s.q) == [] ==>
                  q'.answer.Empty? && q'.newest == q'.oldest == STUB && Queued(q') == [] && s.count == 0)
            && (Queued(s.q) != [] ==>
                  && q'.answer.Got? && Queued(s.q) == [q'.answer.node] + Queued(q')
                  && (s.count + WORD - 1) % WORD == |Queued(q')| % WORD)
  {
    QuiescentPop(s.q);
    if Queued(s.q) != [] { OneFewer(|Queued(PopAlone(s.q))|); }
  }

  lemma {:induction false} DrainLoopEmpties(s: System)
    requires Inv(s.q) && s.q.consumer.Idle? && s.q.open == map[] && s.count == |Queued(s.q)| % WORD
    ensures var (end, deleted) := DrainLoop(s);
            && Inv(end.q) && end.q.answer.Empty? && end.q.newest == end.q.oldest == STUB
            && Queued(end.q) == [] && deleted == Queued(s.q) && end.count == 0
    decreases |Queued(s.q)|
  {
    DrainPop(s);
    if Queued(s.q) != [] {
      var q' := PopAlone(s.q);
      DrainLoopEmpties(s.(q := q', count := (s.count + WORD - 1) % WORD));
    }
  }

  /** Shutdown after any run: when the threads have stopped and no push is in flight, the
      drain ends, deletes exactly what is queued, in order, and leaves the counter at zero
      and both ends at the stub.  So every message that was ever pushed has been handed to
      the application or deleted, once, in the order of the pushes. */
  lemma ShutdownDeliversOrDeletes(actions: seq<Action>)
    requires ValidRun(Start(), actions)
    requires Run(Start(), actions).uncounted == {} && Run(Start(), actions).thread.Waiting?
    ensures var s := Run(Start(), actions);
            && Inv(s.q) && s.q.consumer.Idle? && s.q.open == map[]
            && var (end, deleted) := DrainLoop(s);
               && Inv(end.q) && end.q.newest == end.q.oldest == STUB && end.count == 0
               && deleted == Queued(s.q) && Queued(end.q) == []
               && MpscProtocol.ValidRun(Initial(), QueueSteps(actions))
               && Returned(Initial(), QueueSteps(actions)) + deleted == Exchanges(Initial(), QueueSteps(actions))
  {
    StoppedCounter(actions);
    DrainLoopEmpties(Run(Start(), actions));
    StartOk();
    QueueRun(Start(), actions);
    Fifo(QueueSteps(actions));
  }
}
