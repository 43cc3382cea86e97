/**
 The heartbeat chain through the container and the timer: attach sets a timer for the pair
 (slot, handle id); when it fires, OnTimer looks the slot up, compares the handle id and the
 endpoint's state, raises the event and sets the timer again.  Each of those is a separate
 atomic step, interleaved with attaches, deletions and endpoints going offline.

 The heartbeat interval is positive.  Deadlines do not matter here: a table entry may fire
 whenever it pleases.
 */
module Heartbeat {
  import opened Words
  import opened Wrappers

  datatype Pair = Pair(slot: nat, handle: nat)

  // The timer thread inside OnTimer.
  datatype Phase =
    | Quiet
    | Fired(p: Pair)
    | Found(p: Pair, occupant: nat)
    | Raised(p: Pair)

  datatype State = State(
    slots: map<nat, nat>,      // occupied slot -> its connection's handle id
    online: set<nat>,          // handle ids of connections whose endpoint is online
    counter: nat,              // connections ever created
    queue: multiset<Pair>,     // set, not yet in the timer's table
    table: multiset<Pair>,
    phase: Phase,
    events: seq<Pair>)         // heartbeat events raised

  datatype Step =
    | Attach(slot: nat, up: bool)
    | GoOffline(handle: nat)
    | Delete(slot: nat)
    | Insert(p: Pair)
    | Fire(p: Pair)
    | Lookup
    | Decide
    | Rearm

  function Initial(): State {
    State(map[], {}, 0, multiset{}, multiset{}, Quiet, [])
  }

  predicate Enabled(s: State, step: Step) {
    match step
    case Attach(slot, _) => slot !in s.slots
    case GoOffline(_) => true
    case Delete(_) => true
    case Insert(p) => p in s.queue
    case Fire(p) => p in s.table && s.phase.Quiet?
    case Lookup => s.phase.Fired?
    case Decide => s.phase.Found?
    case Rearm => s.phase.Raised?
  }

  function Apply(s: State, step: Step): State
    requires Enabled(s, step)
  {
    match step
    case Attach(slot, up) =>
      var h := s.counter % WORD;
      s.(slots := s.slots[slot := h], online := if up then s.online + {h} else s.online - {h},
         counter := s.counter + 1, queue := s.queue + multiset{Pair(slot, h)})
    case GoOffline(h) => s.(online := s.online - {h})
    case Delete(slot) => s.(slots := s.slots - {slot})
    case Insert(p) => s.(queue := s.queue - multiset{p}, table := s.table + multiset{p})
    case Fire(p) => s.(table := s.table - multiset{p}, phase := Fired(p))
    case Lookup =>
      var p := s.phase.p;
      s.(phase := if p.slot in s.slots then Found(p, s.slots[p.slot]) else Quiet)
    case Decide =>
      var p := s.phase.p;
      if s.phase.occupant == p.handle && p.handle in s.online
      then s.(phase := Raised(p), events := s.events + [p])
      else s.(phase := Quiet)
    case Rearm => s.(phase := Quiet, queue := s.queue + multiset{s.phase.p})
  }

  // Timers pending for a pair, over the queue, the table and the running callback.
  function Pending(s: State, p: Pair): nat {
    s.queue[p] + s.table[p] + if !s.phase.Quiet? && s.phase.p == p then 1 else 0
  }

  predicate Occupies(s: State, p: Pair) {
    p.slot in s.slots && s.slots[p.slot] == p.handle
  }

  ghost predicate PairOk(s: State, p: Pair) {
    && Pending(s, p) <= (if p.handle < s.counter then 1 else 0)
    && (Occupies(s, p) && p.handle in s.online ==> Pending(s, p) == 1)
  }

  ghost predicate SlotOk(s: State, slot: nat)
    requires slot in s.slots
  {
    && s.slots[slot] < s.counter
    && forall other :: other in s.slots && other != slot ==> s.slots[other] != s.slots[slot]
  }

  ghost predicate Inv(s: State) {
    && s.counter <= WORD
    && (forall p :: PairOk(s, p))
    && (forall slot :: slot in s.slots ==> SlotOk(s, slot))
    && (s.phase.Found? && Occupies(s, s.phase.p) ==> s.phase.occupant == s.phase.p.handle)
  }

  lemma InitialInv()
    ensures Inv(Initial())
  {
  }

  // The timer's own steps move one pending pair along, or drop the one being handled.
  lemma InsertPending(s: State, q: Pair, p: Pair)
    requires Enabled(s, Insert(q))
    ensures Pending(Apply(s, Insert(q)), p) == Pending(s, p)
  {
  }

  lemma FirePending(s: State, q: Pair, p: Pair)
    requires Enabled(s, Fire(q))
    ensures Pending(Apply(s, Fire(q)), p) == Pending(s, p)
  {
  }

  lemma RearmPending(s: State, p: Pair)
    requires Enabled(s, Rearm)
    ensures Pending(Apply(s, Rearm), p) == Pending(s, p)
  {
  }

  lemma TimerStepPending(s: State, step: Step, p: Pair)
    requires Enabled(s, step) && !step.Attach?
    ensures Pending(Apply(s, step), p) <= Pending(s, p)
    ensures (!step.Lookup? && !step.Decide?) || p != s.phase.p ==> Pending(Apply(s, step), p) == Pending(s, p)
  {
    match step
    case Insert(q) => InsertPending(s, q, p);
    case Fire(q) => FirePending(s, q, p);
    case Rearm => RearmPending(s, p);
    case _ =>
  }

  lemma TimerStepKeepsPair(s: State, step: Step, p: Pair)
    requires PairOk(s, p) && Enabled(s, step)
    requires step.Insert? || step.Fire? || step.Lookup? || step.Decide? || step.Rearm?
    requires s.phase.Found? && Occupies(s, s.phase.p) ==> s.phase.occupant == s.phase.p.handle
    ensures PairOk(Apply(s, step), p)
  {
    TimerStepPending(s, step, p);
  }

  lemma AttachKeepsPair(s: State, slot: nat, up: bool, p: Pair)
    requires PairOk(s, p) && slot !in s.slots && s.counter < WORD
    requires Occupies(s, p) ==> p.handle < s.counter
    ensures PairOk(Apply(s, Attach(slot, up)), p)
  {
    var s' := Apply(s, Attach(slot, up));
    var h := s.counter;
    assert s'.queue[p] == s.queue[p] + if p == Pair(slot, h) then 1 else 0;
  }

  lemma StepKeepsPair(s: State, step: Step, p: Pair)
    requires PairOk(s, p) && Enabled(s, step) && s.counter <= WORD && Apply(s, step).counter <= WORD
    requires Occupies(s, p) ==> p.handle < s.counter
    requires s.phase.Found? && Occupies(s, s.phase.p) ==> s.phase.occupant == s.phase.p.handle
    ensures PairOk(Apply(s, step), p)
  {
    match step
    case Attach(slot, up) => AttachKeepsPair(s, slot, up, p);
    case GoOffline(_) =>
    case Delete(_) =>
    case _ => TimerStepKeepsPair(s, step, p);
  }

  lemma StepKeepsSlots(s: State, step: Step)
    requires Enabled(s, step) && s.counter <= WORD && Apply(s, step).counter <= WORD
    requires forall slot :: slot in s.slots ==> SlotOk(s, slot)
    ensures forall slot :: slot in Apply(s, step).slots ==> SlotOk(Apply(s, step), slot)
  {
    var s' := Apply(s, step);
    forall slot | slot in s'.slots
      ensures SlotOk(s', slot)
    {
      if slot in s.slots { assert SlotOk(s, slot); }
      forall other | other in s'.slots && other != slot ensures s'.slots[other] != s'.slots[slot] {
        if other in s.slots { assert SlotOk(s, other); }
      }
    }
  }

  /** Every step keeps the count of pending timers right, as long as handle ids have not wrapped. */
  lemma StepKeepsInv(s: State, step: Step)
    requires Inv(s) && Enabled(s, step) && Apply(s, step).counter <= WORD
    ensures Inv(Apply(s, step))
  {
    forall p
      ensures PairOk(Apply(s, step), p)
    {
      if p.slot in s.slots { assert SlotOk(s, p.slot); }
      StepKeepsPair(s, step, p);
    }
    StepKeepsSlots(s, step);
    if !s.phase.Quiet? { assert PairOk(s, s.phase.p); }
  }

  predicate ValidRun(s: State, steps: seq<Step>)
    decreases |steps|
  {
    steps == [] || (Enabled(s, steps[0]) && ValidRun(Apply(s, steps[0]), steps[1..]))
  }

  function Run(s: State, steps: seq<Step>): (r: State)
    requires ValidRun(s, steps)
    ensures s.counter <= r.counter && s.events <= r.events
    decreases |steps|
  {
    if steps == [] then s else Run(Apply(s, steps[0]), steps[1..])
  }

  lemma {:induction false} RunKeepsInv(s: State, steps: seq<Step>)
    requires Inv(s) && ValidRun(s, steps) && Run(s, steps).counter <= WORD
    ensures Inv(Run(s, steps))
    decreases |steps|
  {
    if steps != [] {
      StepKeepsInv(s, steps[0]);
      RunKeepsInv(Apply(s, steps[0]), steps[1..]);
    }
  }

  /** Heartbeat uniqueness: with at most 2^32 connections ever created, in every interleaving
      each (slot, handle id) pair has at most one pending timer, and the pair of an occupied
      slot whose endpoint is online has exactly one. */
  lemma OneHeartbeat(steps: seq<Step>, p: Pair)
    requires ValidRun(Initial(), steps) && Run(Initial(), steps).counter <= WORD
    ensures var s := Run(Initial(), steps);
            && Pending(s, p) <= 1
            && (Occupies(s, p) && p.handle in s.online ==> Pending(s, p) == 1)
  {
    InitialInv();
    RunKeepsInv(Initial(), steps);
    assert PairOk(Run(Initial(), steps), p);
  }

  function Occurrences(ps: seq<Pair>, p: Pair): nat {
    multiset(ps)[p]
  }

  // -------------------------------------------------------------------------
  // Firings and events over a whole run

  function Fires(steps: seq<Step>, p: Pair): nat {
    if steps == [] then 0 else (if steps[0] == Fire(p) then 1 else 0) + Fires(steps[1..], p)
  }

  // The step sets a timer for the pair: its attach, or the end of OnTimer.
  predicate SetsTimer(s: State, step: Step, p: Pair) {
    || (step.Attach? && p == Pair(step.slot, s.counter % WORD))
    || (step.Rearm? && s.phase == Raised(p))
  }

  function Settings(s: State, steps: seq<Step>, p: Pair): nat
    requires ValidRun(s, steps)
    decreases |steps|
  {
    if steps == [] then 0
    else (if SetsTimer(s, steps[0], p) then 1 else 0) + Settings(Apply(s, steps[0]), steps[1..], p)
  }

  // OnTimer holds the pair's timer and has not decided yet ...
  function Undecided(s: State, p: Pair): nat {
    if s.phase == Fired(p) || (s.phase.Found? && s.phase.p == p) then 1 else 0
  }

  // ... or has raised the event and not set the timer again.
  function Rearming(s: State, p: Pair): nat {
    if s.phase == Raised(p) then 1 else 0
  }

  // The pair's firings, settings and events so far.
  ghost predicate Balanced(s: State, p: Pair, fires: nat, settings: nat) {
    && settings == fires + s.queue[p] + s.table[p]
    && Occurrences(s.events, p) + Undecided(s, p) <= fires
    && (p.handle >= s.counter ==> fires == 0 && settings == 0)
    && (Occupies(s, p) && p.handle in s.online ==> fires == Occurrences(s.events, p) + Undecided(s, p))
  }

  lemma OneMoreEvent(ps: seq<Pair>, q: Pair, p: Pair)
    ensures Occurrences(ps + [q], p) == Occurrences(ps, p) + if q == p then 1 else 0
  {
    assert multiset(ps + [q]) == multiset(ps) + multiset{q};
  }

  lemma AttachKeepsBalance(s: State, slot: nat, up: bool, p: Pair, fires: nat, settings: nat)
    requires Inv(s) && Balanced(s, p, fires, settings) && Enabled(s, Attach(slot, up)) && s.counter < WORD
    ensures Balanced(Apply(s, Attach(slot, up)), p, fires,
                     settings + if SetsTimer(s, Attach(slot, up), p) then 1 else 0)
  {
    assert PairOk(s, p);
    if p.slot in s.slots { assert SlotOk(s, p.slot); }
  }

  lemma QueueKeepsBalance(s: State, step: Step, p: Pair, fires: nat, settings: nat)
    requires PairOk(s, p) && Balanced(s, p, fires, settings) && Enabled(s, step)
    requires step.Insert? || step.Fire? || step.Rearm?
    ensures Balanced(Apply(s, step), p, fires + (if step == Fire(p) then 1 else 0),
                     settings + if SetsTimer(s, step, p) then 1 else 0)
  {
  }

  lemma DecideKeepsBalance(s: State, step: Step, p: Pair, fires: nat, settings: nat)
    requires PairOk(s, p) && Balanced(s, p, fires, settings) && Enabled(s, step)
    requires step.Lookup? || step.Decide?
    requires s.phase.Found? && Occupies(s, s.phase.p) ==> s.phase.occupant == s.phase.p.handle
    ensures Balanced(Apply(s, step), p, fires, settings)
  {
    OneMoreEvent(s.events, s.phase.p, p);
  }

  lemma TimerStepKeepsBalance(s: State, step: Step, p: Pair, fires: nat, settings: nat)
    requires Inv(s) && Balanced(s, p, fires, settings) && Enabled(s, step) && !step.Attach?
    ensures Balanced(Apply(s, step), p, fires + (if step == Fire(p) then 1 else 0),
                     settings + if SetsTimer(s, step, p) then 1 else 0)
  {
    assert PairOk(s, p);
    match step
    case Lookup | Decide => DecideKeepsBalance(s, step, p, fires, settings);
    case Insert(_) | Fire(_) | Rearm => QueueKeepsBalance(s, step, p, fires, settings);
    case _ =>
  }

  lemma {:induction false} RunKeepsBalance(s: State, steps: seq<Step>, p: Pair, fires: nat, settings: nat)
    requires Inv(s) && Balanced(s, p, fires, settings) && ValidRun(s, steps) && Run(s, steps).counter <= WORD
    ensures Balanced(Run(s, steps), p, fires + Fires(steps, p), settings + Settings(s, steps, p))
    decreases |steps|
  {
    if steps != [] {
      var step, s1 := steps[0], Apply(s, steps[0]);
      assert s1.counter <= Run(s1, steps[1..]).counter;
      StepKeepsInv(s, step);
      var f := fires + if step == Fire(p) then 1 else 0;
      var n := settings + if SetsTimer(s, step, p) then 1 else 0;
      assert Balanced(s1, p, f, n) by {
        if step.Attach? {
          AttachKeepsBalance(s, step.slot, step.up, p, fires, settings);
        } else {
          TimerStepKeepsBalance(s, step, p, fires, settings);
        }
      }
      RunKeepsBalance(s1, steps[1..], p, f, n);
    }
  }

  /** Over any run with at most 2^32 connections ever created, every event of a pair answers
      a firing of its own.  While the pair's connection is in its slot and its endpoint online,
      the converse holds: every firing that has been decided raised an event, and the timer was
      set once by the attach and once again after each event, except for the one being raised. */
  lemma EventsAreDeserved(steps: seq<Step>, p: Pair)
    requires ValidRun(Initial(), steps) && Run(Initial(), steps).counter <= WORD
    ensures var s := Run(Initial(), steps);
            && Occurrences(s.events, p) + Undecided(s, p) <= Fires(steps, p)
            && Settings(Initial(), steps, p) == Fires(steps, p) + s.queue[p] + s.table[p]
            && (Occupies(s, p) && p.handle in s.online ==>
                  && Fires(steps, p) == Occurrences(s.events, p) + Undecided(s, p)
                  && Settings(Initial(), steps, p) == 1 + Occurrences(s.events, p) - Rearming(s, p))
  {
    InitialInv();
    RunKeepsBalance(Initial(), steps, p, 0, 0);
    RunKeepsInv(Initial(), steps);
    assert PairOk(Run(Initial(), steps), p);
  }

  /** A firing whose lookup or decision fails is the pair's last: no timer of it is left. */
  lemma RefusedTimerEnds(s: State, step: Step)
    requires Inv(s) && Enabled(s, step) && (step.Lookup? || step.Decide?) && Apply(s, step).phase.Quiet?
    ensures Pending(Apply(s, step), s.phase.p) == 0
  {
    assert PairOk(s, s.phase.p);
  }

  // -------------------------------------------------------------------------
  // What decides about slots and endpoints

  predicate OnSlot(step: Step, slot: nat) {
    (step.Attach? && step.slot == slot) || (step.Delete? && step.slot == slot)
  }

  // The occupant of a slot, if any.
  function Occupant(s: State, slot: nat): Option<nat> {
    if slot in s.slots then Some(s.slots[slot]) else None
  }

  // The run neither attaches to the slot nor deletes it.
  predicate LeavesSlot(steps: seq<Step>, slot: nat) {
    steps == [] || (!OnSlot(steps[0], slot) && LeavesSlot(steps[1..], slot))
  }

  lemma StepLeavesSlot(s: State, step: Step, slot: nat)
    requires Enabled(s, step) && !OnSlot(step, slot)
    ensures Occupant(Apply(s, step), slot) == Occupant(s, slot)
  {
  }

  lemma {:induction false} SlotUndisturbed(s: State, steps: seq<Step>, slot: nat)
    requires ValidRun(s, steps) && LeavesSlot(steps, slot)
    ensures Occupant(Run(s, steps), slot) == Occupant(s, slot)
    decreases |steps|
  {
    if steps != [] {
      StepLeavesSlot(s, steps[0], slot);
      SlotUndisturbed(Apply(s, steps[0]), steps[1..], slot);
    }
  }

  /** The last attach or delete of a slot decides who occupies it: after an attach the
      connection then created, after a delete nobody. */
  lemma LastOnSlotDecides(s: State, steps: seq<Step>, slot: nat)
    requires steps != [] && ValidRun(s, steps) && OnSlot(steps[0], slot) && LeavesSlot(steps[1..], slot)
    ensures Occupant(Run(s, steps), slot) == if steps[0].Attach? then Some(s.counter % WORD) else None
  {
    SlotUndisturbed(Apply(s, steps[0]), steps[1..], slot);
  }

  lemma StepOnline(s: State, step: Step, handle: nat)
    requires Enabled(s, step) && Apply(s, step).counter <= WORD && handle < s.counter
    ensures handle in Apply(s, step).online <==> handle in s.online && step != GoOffline(handle)
  {
  }

  lemma {:induction false} OnlineUntilOffline(s: State, steps: seq<Step>, handle: nat)
    requires ValidRun(s, steps) && Run(s, steps).counter <= WORD && handle < s.counter
    ensures handle in Run(s, steps).online <==> handle in s.online && GoOffline(handle) !in steps
    decreases |steps|
  {
    if steps != [] {
      var s' := Apply(s, steps[0]);
      assert s'.counter <= Run(s', steps[1..]).counter;
      StepOnline(s, steps[0], handle);
      OnlineUntilOffline(s', steps[1..], handle);
      assert steps == [steps[0]] + steps[1..];
    }
  }

  /** A connection is online exactly if its endpoint was when it was attached and has not gone
      offline since. */
  lemma OnlineSinceAttach(s: State, steps: seq<Step>)
    requires steps != [] && steps[0].Attach? && ValidRun(s, steps) && Run(s, steps).counter <= WORD
    ensures s.counter in Run(s, steps).online <==> steps[0].up && GoOffline(s.counter) !in steps[1..]
  {
    var s' := Apply(s, steps[0]);
    assert s'.counter <= Run(s', steps[1..]).counter;
    OnlineUntilOffline(s', steps[1..], s.counter);
  }

  // -------------------------------------------------------------------------
  // Timers that have outlived their connection

  // OnTimer may still raise an event for the pair or set its timer: it has raised one and not
  // set the timer again, or the endpoint is online and its connection in its slot or found.
  predicate Live(s: State, p: Pair) {
    s.phase == Raised(p) || (p.handle in s.online && (Occupies(s, p) || s.phase == Found(p, p.handle)))
  }

  predicate Stale(s: State, p: Pair) {
    p.handle < s.counter && !Live(s, p)
  }

  lemma AttachLeavesStale(s: State, slot: nat, up: bool, p: Pair)
    requires slot !in s.slots && s.counter < WORD && Stale(s, p)
    ensures Stale(Apply(s, Attach(slot, up)), p) && p != Pair(slot, s.counter % WORD)
  {
    assert p.handle != s.counter % WORD;
  }

  lemma CallbackLeavesStale(s: State, step: Step, p: Pair)
    requires Enabled(s, step) && Stale(s, p) && (step.Lookup? || step.Decide? || step.Rearm?)
    ensures Stale(Apply(s, step), p) && !SetsTimer(s, step, p)
  {
  }

  lemma StaleStaysStale(s: State, step: Step, p: Pair)
    requires Enabled(s, step) && Apply(s, step).counter <= WORD && Stale(s, p)
    ensures Stale(Apply(s, step), p) && !SetsTimer(s, step, p)
  {
    match step
    case Attach(slot, up) => AttachLeavesStale(s, slot, up, p);
    case Lookup | Decide | Rearm => CallbackLeavesStale(s, step, p);
    case _ =>
  }

  lemma StaleStep(s: State, step: Step, p: Pair)
    requires Enabled(s, step) && Apply(s, step).counter <= WORD && Stale(s, p)
    ensures Stale(Apply(s, step), p) && !SetsTimer(s, step, p)
    ensures Occurrences(Apply(s, step).events, p) == Occurrences(s.events, p)
    ensures Pending(Apply(s, step), p) <= Pending(s, p)
  {
    StaleStaysStale(s, step, p);
    if !step.Attach? { TimerStepPending(s, step, p); }
    if step.Decide? { OneMoreEvent(s.events, s.phase.p, p); }
  }

  // The run raises no event for the pair and does not set its timer.
  ghost predicate Silent(s: State, steps: seq<Step>, p: Pair) {
    ValidRun(s, steps) && Run(s, steps).counter <= WORD ==>
      Occurrences(Run(s, steps).events, p) == Occurrences(s.events, p) && Settings(s, steps, p) == 0
  }

  /** A stale timer, such as one left from an earlier occupant of its slot, raises no event and
      is never set again, whatever is attached to the slot later. */
  lemma {:induction false} StaleTimerDies(s: State, steps: seq<Step>, p: Pair)
    requires ValidRun(s, steps) && Run(s, steps).counter <= WORD && Stale(s, p)
    ensures Stale(Run(s, steps), p) && Silent(s, steps, p)
    ensures Pending(Run(s, steps), p) <= Pending(s, p)
    decreases |steps|
  {
    if steps != [] {
      StaleStep(s, steps[0], p);
      StaleTimerDies(Apply(s, steps[0]), steps[1..], p);
    }
  }

  // What the timer's own threads do next to get to the decision about an occupant.
  function NextStep(s: State, p: Pair): Step {
    match s.phase
    case Quiet => if p in s.table then Fire(p) else Insert(p)
    case Fired(_) => Lookup
    case Found(_, _) => Decide
    case Raised(_) => Rearm
  }

  // How many of those steps are left.
  function Distance(s: State, p: Pair): nat {
    if !s.phase.Quiet? && s.phase.p == p then (if s.phase.Fired? then 1 else 0)
    else 2 + (match s.phase case Quiet => 0 case Raised(_) => 1 case Found(_, _) => 2 case Fired(_) => 3)
         + (if p in s.table then 0 else 4)
  }

  lemma NextStepEnabled(s: State, p: Pair)
    requires PairOk(s, p) && Occupies(s, p) && p.handle in s.online
    ensures Enabled(s, NextStep(s, p))
  {
  }

  lemma QuietAdvances(s: State, p: Pair)
    requires s.phase.Quiet? && Enabled(s, NextStep(s, p))
    ensures Distance(Apply(s, NextStep(s, p)), p) < Distance(s, p)
  {
  }

  lemma NextStepAdvances(s: State, p: Pair)
    requires Enabled(s, NextStep(s, p)) && Occupies(s, p) && p.handle in s.online && s.phase != Raised(p)
    requires !(s.phase.Found? && s.phase.p == p)
    ensures var s' := Apply(s, NextStep(s, p));
            && s'.counter == s.counter && Occupies(s', p) && p.handle in s'.online
            && s'.phase != Raised(p) && Distance(s', p) < Distance(s, p)
            && Occurrences(s'.events, p) == Occurrences(s.events, p)
  {
    match s.phase
    case Quiet => QuietAdvances(s, p);
    case Found(q, _) => OneMoreEvent(s.events, q, p);
    case _ =>
  }

  // An occupant online gets another event.
  lemma {:induction false} OccupantIsHeard(s: State, p: Pair) returns (steps: seq<Step>)
    requires Inv(s) && Occupies(s, p) && p.handle in s.online && s.phase != Raised(p)
    ensures ValidRun(s, steps) && Run(s, steps).counter <= WORD
    ensures Occurrences(Run(s, steps).events, p) > Occurrences(s.events, p)
    decreases Distance(s, p)
  {
    if s.phase.Found? && s.phase.p == p {
      steps := [Decide];
      OneMoreEvent(s.events, p, p);
      assert Run(s, steps) == Run(Apply(s, Decide), []);
    } else {
      assert PairOk(s, p);
      NextStepEnabled(s, p);
      NextStepAdvances(s, p);
      StepKeepsInv(s, NextStep(s, p));
      var rest := OccupantIsHeard(Apply(s, NextStep(s, p)), p);
      steps := [NextStep(s, p)] + rest;
      assert steps[1..] == rest;
    }
  }

  lemma LiveIsHeard(s: State, p: Pair) returns (steps: seq<Step>)
    requires Inv(s) && Live(s, p)
    ensures !Silent(s, steps, p)
  {
    if s.phase == Raised(p) {
      steps := [Rearm];
      assert Run(s, steps) == Run(Apply(s, Rearm), []) && SetsTimer(s, Rearm, p);
    } else if s.phase == Found(p, p.handle) {
      steps := [Decide];
      OneMoreEvent(s.events, p, p);
      assert Run(s, steps) == Run(Apply(s, Decide), []);
    } else {
      steps := OccupantIsHeard(s, p);
    }
  }

  /** A timer is dead for good, in every continuation, exactly when it is stale. */
  lemma StaleExactly(s: State, p: Pair)
    requires Inv(s) && p.handle < s.counter
    ensures Stale(s, p) <==> forall steps :: Silent(s, steps, p)
  {
    if Stale(s, p) {
      forall steps
        ensures Silent(s, steps, p)
      {
        if ValidRun(s, steps) && Run(s, steps).counter <= WORD { StaleTimerDies(s, steps, p); }
      }
    } else {
      var steps := LiveIsHeard(s, p);
    }
  }
}
