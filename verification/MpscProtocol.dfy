/**
 The multi-producer single-consumer queue of src/utils/mpscq.cc as a system of
 atomic steps: any number of pushes in flight, one consumer, and clients that
 reuse the memory of every node the queue does not hold.

 A node is known by its address.  A push is three steps (clear the node's link,
 exchange `newest`, link the predecessor); a pop is up to seven.  Between the
 exchange and the link the chain of `next` pointers is broken.

 `all`, `head` and `open` are history variables: no step's shared-memory effect
 depends on them.  `all` lists every node in the order of the exchanges (the
 stub included, each time it is pushed), `head` counts how many of these the
 consumer has moved past, and `open` says who still owes the link into a position.
 */
module MpscProtocol {
  import opened Sequences
  import opened Wrappers

  type Node = nat
  type Tid = nat
  const STUB: Node := 0

  // A producer inside push(): before and after the exchange.
  datatype Producer =
    | Cleared(node: Node)
    | Exchanged(node: Node, prev: Node, at: nat)

  // Where the consumer stands inside PopAndCheckEnd().
  datatype Consumer =
    | Idle
    | PastStub(tail: Node)
    | ReadNewest(tail: Node)
    | StubClear(tail: Node)
    | StubExchange(tail: Node)
    | StubLink(tail: Node, prev: Node, at: nat)
    | LastLoad(tail: Node)

  // What the consumer's latest step answered.
  datatype Answer = Running | Empty | Retry | Got(node: Node)

  datatype Agent = Pusher(t: Tid) | Popper

  datatype State = State(
    newest: Node,
    oldest: Node,
    next: map<Node, Option<Node>>,
    producers: map<Tid, Producer>,
    consumer: Consumer,
    answer: Answer,
    all: seq<Node>,
    head: nat,
    open: map<nat, Agent>)

  datatype Step =
    | PushClear(t: Tid, node: Node)
    | PushExchange(t: Tid)
    | PushLink(t: Tid)
    | Pop
    | ClientWrite(node: Node, v: Option<Node>)

  function Load(s: State, n: Node): Option<Node> {
    if n in s.next then s.next[n] else None
  }

  function Initial(): State {
    State(STUB, STUB, map[STUB := None], map[], Idle, Running, [STUB], 0, map[])
  }

  // The nodes from `oldest` to `newest`.
  function Window(s: State): seq<Node>
    requires s.head <= |s.all|
  {
    s.all[s.head..]
  }

  function NoStub(ns: seq<Node>): seq<Node> {
    Without(ns, STUB)
  }

  // The messages pushed and not yet returned.
  function Queued(s: State): seq<Node>
    requires s.head <= |s.all|
  {
    NoStub(Window(s))
  }

  // The queue holds the node: it is queued, or a push of it has begun.
  predicate InUse(s: State, n: Node)
    requires s.head <= |s.all|
  {
    n == STUB || n in Window(s) || exists t | t in s.producers :: s.producers[t] == Cleared(n)
  }

  predicate Enabled(s: State, step: Step)
    requires s.head <= |s.all|
  {
    match step
    case PushClear(t, node) => t !in s.producers && !InUse(s, node)
    case PushExchange(t) => t in s.producers && s.producers[t].Cleared?
    case PushLink(t) => t in s.producers && s.producers[t].Exchanged?
    case Pop => true
    case ClientWrite(node, _) => !InUse(s, node)
  }

  // Load tail->next; a successor means the tail can be returned.
  function TakeOrLook(s: State, tail: Node): State {
    var obj := Load(s, tail);
    if obj.Some? then s.(oldest := obj.value, head := s.head + 1, consumer := Idle, answer := Got(tail))
    else s.(consumer := ReadNewest(tail), answer := Running)
  }

  // The consumer's next atomic action.  `oldest` is written by the consumer only.
  function PopStep(s: State): State {
    match s.consumer
    case Idle =>
      var obj := Load(s, s.oldest);
      if s.oldest == STUB then
        if obj.None? then s.(answer := Empty)
        else s.(oldest := obj.value, head := s.head + 1, consumer := PastStub(obj.value), answer := Running)
      else TakeOrLook(s, s.oldest)
    case PastStub(tail) => TakeOrLook(s, tail)
    case ReadNewest(tail) =>
      if tail != s.newest then s.(consumer := Idle, answer := Retry) else s.(consumer := StubClear(tail))
    case StubClear(tail) => s.(next := s.next[STUB := None], consumer := StubExchange(tail))
    case StubExchange(tail) =>
      s.(newest := STUB, consumer := StubLink(tail, s.newest, |s.all|),
         all := s.all + [STUB], open := s.open[|s.all| := Popper])
    case StubLink(tail, prev, at) =>
      s.(next := s.next[prev := Some(STUB)], consumer := LastLoad(tail), open := s.open - {at})
    case LastLoad(tail) =>
      var obj := Load(s, tail);
      if obj.Some? then s.(oldest := obj.value, head := s.head + 1, consumer := Idle, answer := Got(tail))
      else s.(consumer := Idle, answer := Retry)
  }

  function Apply(s: State, step: Step): State
    requires s.head <= |s.all| && Enabled(s, step)
  {
    match step
    case PushClear(t, node) =>
      s.(next := s.next[node := None], producers := s.producers[t := Cleared(node)])
    case PushExchange(t) =>
      var node := s.producers[t].node;
      s.(newest := node, producers := s.producers[t := Exchanged(node, s.newest, |s.all|)],
         all := s.all + [node], open := s.open[|s.all| := Pusher(t)])
    case PushLink(t) =>
      var p := s.producers[t];
      s.(next := s.next[p.prev := Some(p.node)], producers := s.producers - {t}, open := s.open - {p.at})
    case Pop => PopStep(s)
    case ClientWrite(node, v) => s.(next := s.next[node := v])
  }

  // -------------------------------------------------------------------------
  // The invariant

  ghost predicate WindowOk(s: State) {
    && s.head < |s.all|
    && s.oldest == s.all[s.head]
    && s.newest == s.all[|s.all| - 1]
    && (forall i: nat, j: nat :: s.head <= i < j < |s.all| ==> Apart(s.all, i, j))
    && Load(s, s.newest) == None
  }

  // The link into position i of the exchange order: present, or owed by exactly the agent `open` names.
  ghost predicate LinkOk(s: State, i: nat)
    requires 0 < i < |s.all|
  {
    && Load(s, s.all[i - 1]) == (if i in s.open then None else Some(s.all[i]))
    && (i in s.open ==>
          match s.open[i]
          case Pusher(t) => t in s.producers && s.producers[t] == Exchanged(s.all[i], s.all[i - 1], i)
          case Popper => s.consumer.StubLink? && s.consumer.at == i)
  }

  ghost predicate LinksOk(s: State) {
    && (forall i: nat :: s.head < i < |s.all| ==> LinkOk(s, i))
    && (forall i :: i in s.open ==> s.head < i < |s.all|)
  }

  ghost predicate ProducerOk(s: State, t: Tid)
    requires t in s.producers && s.head <= |s.all|
  {
    match s.producers[t]
    case Cleared(n) =>
      && n != STUB && n !in Window(s) && Load(s, n) == None
      && (forall u :: u in s.producers && u != t ==> s.producers[u] != Cleared(n))
    case Exchanged(n, p, at) =>
      && at in s.open && s.open[at] == Pusher(t)
      && s.head < at < |s.all| && n == s.all[at] && n != STUB && p == s.all[at - 1]
  }

  ghost predicate ProducersOk(s: State)
    requires s.head <= |s.all|
  {
    forall t :: t in s.producers ==> ProducerOk(s, t)
  }

  ghost predicate ConsumerOk(s: State)
    requires s.head <= |s.all|
  {
    && (s.consumer.Idle? || (s.consumer.tail == s.oldest && s.oldest != STUB))
    && (s.consumer.StubClear? ==> STUB !in Window(s))
    && (s.consumer.StubExchange? ==> STUB !in Window(s) && Load(s, STUB) == None)
    && (s.consumer.StubLink? ==>
          var at := s.consumer.at;
          && at in s.open && s.open[at] == Popper && s.head < at < |s.all|
          && s.all[at] == STUB && s.consumer.prev == s.all[at - 1])
  }

  ghost predicate Inv(s: State) {
    WindowOk(s) && LinksOk(s) && ProducersOk(s) && ConsumerOk(s)
  }

  lemma InitialInv()
    ensures Inv(Initial())
  {
  }

  lemma WindowMember(s: State, i: nat)
    requires s.head <= i < |s.all|
    ensures s.all[i] in Window(s)
  {
    assert Window(s)[i - s.head] == s.all[i];
  }

  lemma NoRepeat(s: State, i: nat, j: nat)
    requires WindowOk(s) && s.head <= i < |s.all| && s.head <= j < |s.all|
    ensures s.all[i] == s.all[j] ==> i == j
  {
    if i < j { assert Apart(s.all, i, j); }
    if j < i { assert Apart(s.all, j, i); }
  }

  // A write to a node outside the window leaves every link as it was.
  lemma WriteOutsideKeepsLinks(s: State, n: Node, v: Option<Node>)
    requires WindowOk(s) && LinksOk(s) && n !in Window(s)
    ensures WindowOk(s.(next := s.next[n := v])) && LinksOk(s.(next := s.next[n := v]))
  {
    var s' := s.(next := s.next[n := v]);
    WindowMember(s, |s.all| - 1);
    forall i: nat | s.head < i < |s.all|
      ensures LinkOk(s', i)
    {
      assert LinkOk(s, i);
      WindowMember(s, i - 1);
    }
  }

  lemma PushClearKeepsInv(s: State, t: Tid, node: Node)
    requires Inv(s) && Enabled(s, PushClear(t, node))
    ensures Inv(Apply(s, PushClear(t, node)))
  {
    var s' := Apply(s, PushClear(t, node));
    var s1 := s.(next := s.next[node := None]);
    WriteOutsideKeepsLinks(s, node, None);
    forall i: nat | s.head < i < |s.all|
      ensures LinkOk(s', i)
    {
      assert LinkOk(s1, i);
    }
    forall u | u in s'.producers
      ensures ProducerOk(s', u)
    {
      if u in s.producers { assert ProducerOk(s, u); }
    }
  }

  // An exchange by either side appends a node whose incoming link is still owed.
  lemma AppendKeepsWindowAndLinks(s: State, s': State, node: Node, who: Agent)
    requires WindowOk(s) && LinksOk(s) && node !in Window(s) && Load(s, node) == None
    requires s'.next == s.next && s'.head == s.head && s'.oldest == s.oldest && s'.newest == node
    requires s'.all == s.all + [node] && s'.open == s.open[|s.all| := who]
    requires forall t :: t in s.producers && s.producers[t].Exchanged? ==> t in s'.producers && s'.producers[t] == s.producers[t]
    requires s.consumer.StubLink? ==> s'.consumer == s.consumer
    requires match who
             case Pusher(t) => t in s'.producers && s'.producers[t] == Exchanged(node, s.newest, |s.all|)
             case Popper => s'.consumer.StubLink? && s'.consumer.at == |s.all|
    ensures WindowOk(s') && LinksOk(s')
    ensures Window(s') == Window(s) + [node]
  {
    forall i: nat | s'.head < i < |s'.all|
      ensures LinkOk(s', i)
    {
      if i < |s.all| { assert LinkOk(s, i); }
    }
    forall i: nat, j: nat | s'.head <= i < j < |s'.all|
      ensures Apart(s'.all, i, j)
    {
      WindowMember(s, i);
      if j < |s.all| { assert Apart(s.all, i, j); }
    }
  }

  // ... and the other pushes keep their claims.
  lemma AppendKeepsProducers(s: State, s': State, node: Node, who: Agent)
    requires s.head < |s.all| && ProducersOk(s) && |s.all| !in s.open
    requires s'.next == s.next && s'.head == s.head && s'.all == s.all + [node] && s'.open == s.open[|s.all| := who]
    requires s'.producers.Keys == s.producers.Keys
    requires forall u :: u in s.producers && who != Pusher(u) ==>
               s'.producers[u] == s.producers[u] && s.producers[u] != Cleared(node)
    requires forall t :: who == Pusher(t) ==>
               t in s'.producers && node != STUB && s'.producers[t] == Exchanged(node, s.all[|s.all| - 1], |s.all|)
    ensures ProducersOk(s')
  {
    assert Window(s') == Window(s) + [node];
    forall u | u in s'.producers
      ensures ProducerOk(s', u)
    {
      assert ProducerOk(s, u);
    }
  }

  lemma PushExchangeKeepsInv(s: State, t: Tid)
    requires Inv(s) && Enabled(s, PushExchange(t))
    ensures Inv(Apply(s, PushExchange(t)))
  {
    var s' := Apply(s, PushExchange(t));
    var node := s.producers[t].node;
    assert ProducerOk(s, t);
    AppendKeepsWindowAndLinks(s, s', node, Pusher(t));
    AppendKeepsProducers(s, s', node, Pusher(t));
  }

  // Linking a predecessor discharges the one link that was owed at `at`.
  lemma LinkKeepsWindowAndLinks(s: State, s': State, at: nat)
    requires WindowOk(s) && LinksOk(s) && at in s.open
    requires s'.head == s.head && s'.oldest == s.oldest && s'.newest == s.newest && s'.all == s.all
    requires s'.next == s.next[s.all[at - 1] := Some(s.all[at])] && s'.open == s.open - {at}
    requires forall t :: t in s.producers && s.open[at] != Pusher(t) ==> t in s'.producers && s'.producers[t] == s.producers[t]
    requires s.open[at] != Popper ==> s'.consumer == s.consumer
    ensures WindowOk(s') && LinksOk(s')
  {
    assert LinkOk(s, at);
    forall i: nat | s'.head < i < |s'.all|
      ensures LinkOk(s', i)
    {
      assert LinkOk(s, i);
      if i < at { assert Apart(s.all, i - 1, at - 1); }
      if at < i { assert Apart(s.all, at - 1, i - 1); }
    }
    assert Apart(s.all, at - 1, |s.all| - 1);
    forall i: nat, j: nat | s'.head <= i < j < |s'.all|
      ensures Apart(s'.all, i, j)
    {
      assert Apart(s.all, i, j);
    }
  }

  // ... and disturbs no other push.
  lemma LinkKeepsProducers(s: State, s': State, at: nat)
    requires s.head <= |s.all| && ProducersOk(s) && s.head < at < |s.all| && at in s.open
    requires s.all[at - 1] in Window(s)
    requires s'.head == s.head && s'.all == s.all
    requires s'.next == s.next[s.all[at - 1] := Some(s.all[at])] && s'.open == s.open - {at}
    requires forall u :: u in s'.producers ==>
               u in s.producers && s'.producers[u] == s.producers[u] && s.open[at] != Pusher(u)
    ensures ProducersOk(s')
  {
    forall u | u in s'.producers
      ensures ProducerOk(s', u)
    {
      assert ProducerOk(s, u);
      match s.producers[u]
      case Cleared(n) => assert n != s.all[at - 1];
      case Exchanged(_, _, a) => assert a != at;
    }
  }

  lemma PushLinkKeepsInv(s: State, t: Tid)
    requires Inv(s) && Enabled(s, PushLink(t))
    ensures Inv(Apply(s, PushLink(t)))
  {
    var s' := Apply(s, PushLink(t));
    var p := s.producers[t];
    assert ProducerOk(s, t);
    LinkKeepsWindowAndLinks(s, s', p.at);
    WindowMember(s, p.at - 1);
    LinkKeepsProducers(s, s', p.at);
  }

  // The consumer moves past the oldest node.
  lemma AdvanceKeepsInv(s: State, s': State)
    requires Inv(s) && Load(s, s.oldest).Some?
    requires s.consumer.Idle? || s.consumer.PastStub? || s.consumer.LastLoad?
    requires s' == s.(oldest := Load(s, s.oldest).value, head := s.head + 1,
                      consumer := s'.consumer, answer := s'.answer)
    requires s'.consumer == Idle || (s.oldest == STUB && s'.consumer == PastStub(s'.oldest))
    ensures Inv(s')
  {
    assert LinkOk(s, s.head + 1) && Apart(s.all, s.head, s.head + 1);
    assert Window(s) == [s.oldest] + Window(s');
    forall i: nat | s'.head < i < |s'.all|
      ensures LinkOk(s', i)
    {
      assert LinkOk(s, i);
    }
    forall u | u in s'.producers
      ensures ProducerOk(s', u)
    {
      assert ProducerOk(s, u);
    }
  }

  // The remaining consumer steps leave the window and the producers' claims alone.
  lemma StubClearKeepsInv(s: State)
    requires Inv(s) && s.consumer.StubClear?
    ensures Inv(PopStep(s))
  {
    var s' := PopStep(s);
    WriteOutsideKeepsLinks(s, STUB, None);
    var s1 := s.(next := s.next[STUB := None]);
    forall i: nat | s.head < i < |s.all|
      ensures LinkOk(s', i)
    {
      assert LinkOk(s1, i);
    }
    forall u | u in s'.producers
      ensures ProducerOk(s', u)
    {
      assert ProducerOk(s, u);
    }
  }

  lemma StubExchangeKeepsInv(s: State)
    requires Inv(s) && s.consumer.StubExchange?
    ensures Inv(PopStep(s))
  {
    var s' := PopStep(s);
    AppendKeepsWindowAndLinks(s, s', STUB, Popper);
    AppendKeepsProducers(s, s', STUB, Popper);
  }

  lemma StubLinkKeepsInv(s: State)
    requires Inv(s) && s.consumer.StubLink?
    ensures Inv(PopStep(s))
  {
    var s' := PopStep(s);
    var at := s.consumer.at;
    LinkKeepsWindowAndLinks(s, s', at);
    WindowMember(s, at - 1);
    LinkKeepsProducers(s, s', at);
  }

  // A step that changes only the consumer's own position.
  lemma MoveKeepsRest(s: State, s': State)
    requires WindowOk(s) && LinksOk(s) && ProducersOk(s)
    requires s' == s.(consumer := s'.consumer, answer := s'.answer)
    requires !s.consumer.StubLink?
    ensures WindowOk(s') && LinksOk(s') && ProducersOk(s')
  {
    forall i: nat | s'.head < i < |s'.all|
      ensures LinkOk(s', i)
    {
      assert LinkOk(s, i);
    }
    forall u | u in s'.producers
      ensures ProducerOk(s', u)
    {
      assert ProducerOk(s, u);
    }
  }

  // A newest node that is also the oldest stands alone.
  lemma OneNode(s: State)
    requires WindowOk(s) && s.oldest == s.newest
    ensures Window(s) == [s.oldest]
  {
    NoRepeat(s, s.head, |s.all| - 1);
  }

  lemma LookKeepsInv(s: State)
    requires Inv(s) && !s.consumer.StubClear? && !s.consumer.StubExchange? && !s.consumer.StubLink?
    requires s.consumer.ReadNewest? || Load(s, s.oldest).None?
    ensures Inv(PopStep(s))
  {
    var s' := PopStep(s);
    MoveKeepsRest(s, s');
    assert ConsumerOk(s') by {
      if s'.consumer.StubClear? { OneNode(s); }
    }
  }

  lemma PopKeepsInv(s: State)
    requires Inv(s)
    ensures Inv(PopStep(s))
  {
    match s.consumer
    case Idle | PastStub(_) | LastLoad(_) =>
      if Load(s, s.oldest).Some? { AdvanceKeepsInv(s, PopStep(s)); } else { LookKeepsInv(s); }
    case ReadNewest(_) => LookKeepsInv(s);
    case StubClear(_) => StubClearKeepsInv(s);
    case StubExchange(_) => StubExchangeKeepsInv(s);
    case StubLink(_, _, _) => StubLinkKeepsInv(s);
  }

  lemma ClientWriteKeepsInv(s: State, n: Node, v: Option<Node>)
    requires Inv(s) && Enabled(s, ClientWrite(n, v))
    ensures Inv(Apply(s, ClientWrite(n, v)))
  {
    WriteOutsideKeepsLinks(s, n, v);
    var s' := Apply(s, ClientWrite(n, v));
    forall u | u in s'.producers
      ensures ProducerOk(s', u)
    {
      assert ProducerOk(s, u);
    }
  }

  /** Every atomic step of every agent keeps the invariant. */
  lemma StepKeepsInv(s: State, step: Step)
    requires Inv(s) && Enabled(s, step)
    ensures Inv(Apply(s, step))
  {
    match step
    case PushClear(t, node) => PushClearKeepsInv(s, t, node);
    case PushExchange(t) => PushExchangeKeepsInv(s, t);
    case PushLink(t) => PushLinkKeepsInv(s, t);
    case Pop => PopKeepsInv(s);
    case ClientWrite(n, v) => ClientWriteKeepsInv(s, n, v);
  }

  // -------------------------------------------------------------------------
  // Runs

  predicate ValidRun(s: State, steps: seq<Step>)
    decreases |steps|
  {
    s.head <= |s.all| &&
    (steps == [] || (Enabled(s, steps[0]) && ValidRun(Apply(s, steps[0]), steps[1..])))
  }

  function Run(s: State, steps: seq<Step>): State
    requires ValidRun(s, steps)
    decreases |steps|
  {
    if steps == [] then s else Run(Apply(s, steps[0]), steps[1..])
  }

  // What a step hands out, and what it exchanges.
  function Handed(s: State, step: Step): seq<Node> {
    if step.Pop? && PopStep(s).consumer.Idle? && PopStep(s).answer.Got? then [PopStep(s).answer.node] else []
  }

  function Exchanging(s: State, step: Step): seq<Node>
    requires s.head <= |s.all| && Enabled(s, step)
  {
    if step.PushExchange? then [s.producers[step.t].node] else []
  }

  // What a run shows from outside: nodes in the order producers exchanged them in ...
  function Exchanges(s: State, steps: seq<Step>): seq<Node>
    requires ValidRun(s, steps)
    decreases |steps|
  {
    if steps == [] then []
    else Exchanging(s, steps[0]) + Exchanges(Apply(s, steps[0]), steps[1..])
  }

  // ... and nodes in the order pops handed them out.
  function Returned(s: State, steps: seq<Step>): seq<Node>
    requires ValidRun(s, steps)
    decreases |steps|
  {
    if steps == [] then []
    else Handed(s, steps[0]) + Returned(Apply(s, steps[0]), steps[1..])
  }

  // What a step appends to the exchange order, and whether the consumer moves on.
  function Appended(s: State, step: Step): seq<Node>
    requires s.head <= |s.all| && Enabled(s, step)
  {
    match step
    case PushExchange(t) => [s.producers[t].node]
    case Pop => if s.consumer.StubExchange? then [STUB] else []
    case _ => []
  }

  function Message(n: Node): seq<Node> {
    if n == STUB then [] else [n]
  }

  lemma StepShape(s: State, step: Step)
    requires Inv(s) && Enabled(s, step)
    ensures Apply(s, step).all == s.all + Appended(s, step)
    ensures step.PushExchange? ==> s.producers[step.t].node != STUB
    ensures || (Apply(s, step).head == s.head && Handed(s, step) == [])
            || (Apply(s, step).head == s.head + 1 <= |s.all| && Handed(s, step) == Message(s.all[s.head]))
  {
    if step.PushExchange? { assert ProducerOk(s, step.t); }
  }

  // What the two histories grow by.
  ghost predicate Grew(s: State, s': State, exchanged: seq<Node>, returned: seq<Node>) {
    && s.head <= |s.all| && s'.head <= |s'.all|
    && NoStub(s'.all) == NoStub(s.all) + exchanged
    && NoStub(s'.all[..s'.head]) == NoStub(s.all[..s.head]) + returned
  }

  lemma StepHistory(s: State, s': State, step: Step)
    requires s.head <= |s.all| && Enabled(s, step)
    requires s'.all == s.all + Appended(s, step)
    requires step.PushExchange? ==> s.producers[step.t].node != STUB
    requires || (s'.head == s.head && Handed(s, step) == [])
             || (s'.head == s.head + 1 <= |s.all| && Handed(s, step) == Message(s.all[s.head]))
    ensures Grew(s, s', Exchanging(s, step), Handed(s, step))
  {
    WithoutConcat(s.all, Appended(s, step), STUB);
    if Appended(s, step) != [] { WithoutSingle(Appended(s, step)[0], STUB); }
    assert NoStub(Appended(s, step)) == Exchanging(s, step);
    if s'.head == s.head {
      assert s'.all[..s'.head] == s.all[..s.head];
    } else {
      assert s'.all[..s'.head] == s.all[..s.head] + [s.all[s.head]];
      WithoutConcat(s.all[..s.head], [s.all[s.head]], STUB);
      WithoutSingle(s.all[s.head], STUB);
    }
  }

  lemma {:induction false} RunKeepsInv(s: State, steps: seq<Step>)
    requires Inv(s) && ValidRun(s, steps)
    ensures Inv(Run(s, steps))
    decreases |steps|
  {
    if steps != [] {
      StepKeepsInv(s, steps[0]);
      RunKeepsInv(Apply(s, steps[0]), steps[1..]);
    }
  }

  lemma GrewConcat(s: State, m: State, s': State, e1: seq<Node>, e2: seq<Node>, r1: seq<Node>, r2: seq<Node>)
    requires Grew(s, m, e1, r1) && Grew(m, s', e2, r2)
    ensures Grew(s, s', e1 + e2, r1 + r2)
  {
    assert NoStub(s.all) + e1 + e2 == NoStub(s.all) + (e1 + e2);
    assert NoStub(s.all[..s.head]) + r1 + r2 == NoStub(s.all[..s.head]) + (r1 + r2);
  }

  lemma {:induction false} RunHistory(s: State, steps: seq<Step>)
    requires Inv(s) && ValidRun(s, steps)
    ensures Grew(s, Run(s, steps), Exchanges(s, steps), Returned(s, steps))
    decreases |steps|
  {
    if steps != [] {
      var m := Apply(s, steps[0]);
      StepKeepsInv(s, steps[0]);
      StepShape(s, steps[0]);
      StepHistory(s, m, steps[0]);
      RunHistory(m, steps[1..]);
      GrewConcat(s, m, Run(s, steps), Exchanging(s, steps[0]), Exchanges(m, steps[1..]),
                 Handed(s, steps[0]), Returned(m, steps[1..]));
    }
  }

  lemma HistorySplit(s: State, s': State, exchanged: seq<Node>, returned: seq<Node>)
    requires s.all == [STUB] && s.head == 0 && Grew(s, s', exchanged, returned)
    ensures returned + Queued(s') == exchanged
  {
    WithoutConcat(s'.all[..s'.head], Window(s'), STUB);
    assert s'.all == s'.all[..s'.head] + Window(s');
    assert s.all[..0] == [] && s.all[1..] == [];
    assert NoStub(s.all) == NoStub(s.all[1..]) == [] && NoStub(s.all[..s.head]) == [];
    assert NoStub(s'.all) == exchanged && NoStub(s'.all[..s'.head]) == returned;
  }

  /** FIFO, no loss, no duplication: in every interleaving, what the pops handed out
      followed by what is still queued is exactly the order of the exchanges. */
  lemma Fifo(steps: seq<Step>)
    requires ValidRun(Initial(), steps)
    ensures var s := Run(Initial(), steps);
            && s.head <= |s.all|
            && Returned(Initial(), steps) + Queued(s) == Exchanges(Initial(), steps)
  {
    InitialInv();
    RunHistory(Initial(), steps);
    HistorySplit(Initial(), Run(Initial(), steps), Exchanges(Initial(), steps), Returned(Initial(), steps));
  }

  ghost predicate Reachable(s: State) {
    exists steps :: ValidRun(Initial(), steps) && Run(Initial(), steps) == s
  }

  lemma ReachableInv(s: State)
    requires Reachable(s)
    ensures Inv(s)
  {
    var steps :| ValidRun(Initial(), steps) && Run(Initial(), steps) == s;
    InitialInv();
    RunKeepsInv(Initial(), steps);
  }

  // An agent between its exchange and its link.
  predicate InFlight(s: State, who: Agent, prev: Node, node: Node) {
    match who
    case Pusher(t) =>
      t in s.producers && s.producers[t].Exchanged? && s.producers[t].prev == prev && s.producers[t].node == node
    case Popper => s.consumer.StubLink? && s.consumer.prev == prev && node == STUB
  }

  lemma WindowDistinct(s: State)
    requires WindowOk(s)
    ensures forall i, j :: 0 <= i < j < |Window(s)| ==> Window(s)[i] != Window(s)[j]
  {
    var w := Window(s);
    forall i, j | 0 <= i < j < |w|
      ensures w[i] != w[j]
    {
      assert Apart(s.all, s.head + i, s.head + j);
    }
  }

  ghost predicate Joined(s: State, prev: Node, node: Node) {
    || (Load(s, prev) == Some(node) && forall who :: !InFlight(s, who, prev, node))
    || (Load(s, prev) == None && exists who :: InFlight(s, who, prev, node)
                                              && forall other :: InFlight(s, other, prev, node) ==> other == who)
  }

  lemma InFlightAt(s: State, who: Agent, prev: Node, node: Node) returns (at: nat)
    requires Inv(s) && InFlight(s, who, prev, node)
    ensures s.head < at < |s.all| && at in s.open && s.open[at] == who
    ensures s.all[at - 1] == prev && s.all[at] == node
  {
    match who
    case Pusher(t) =>
      assert ProducerOk(s, t);
      at := s.producers[t].at;
    case Popper =>
      at := s.consumer.at;
  }

  lemma PairJoined(s: State, i: nat)
    requires Inv(s) && s.head < i < |s.all|
    ensures Joined(s, s.all[i - 1], s.all[i])
  {
    assert LinkOk(s, i);
    var prev, node := s.all[i - 1], s.all[i];
    forall who | InFlight(s, who, prev, node)
      ensures i in s.open && who == s.open[i]
    {
      var at := InFlightAt(s, who, prev, node);
      NoRepeat(s, at, i);
    }
    if i in s.open {
      assert InFlight(s, s.open[i], s.all[i - 1], s.all[i]);
    }
  }

  lemma WindowJoined(s: State)
    requires Inv(s)
    ensures forall i :: 0 <= i < |Window(s)| - 1 ==> Joined(s, Window(s)[i], Window(s)[i + 1])
  {
    var w := Window(s);
    forall i | 0 <= i < |w| - 1
      ensures Joined(s, w[i], w[i + 1])
    {
      PairJoined(s, s.head + i + 1);
    }
  }

  ghost predicate Adjacent(ns: seq<Node>, a: Node, b: Node) {
    exists i, j :: 0 <= i < j < |ns| && j == i + 1 && ns[i] == a && ns[j] == b
  }

  lemma InFlightAdjacent(s: State, who: Agent, prev: Node, node: Node)
    requires Inv(s) && InFlight(s, who, prev, node)
    ensures Adjacent(Window(s), prev, node)
  {
    var at := InFlightAt(s, who, prev, node);
    var w := Window(s);
    assert w[at - 1 - s.head] == prev && w[at - s.head] == node;
  }

  /** In every reachable state the nodes from `oldest` to `newest` form one duplicate-free
      order in which each adjacent pair is linked and nobody's, or unlinked and owed by
      exactly one agent; and nobody owes any other link. */
  lemma Chain(s: State)
    requires Reachable(s)
    ensures s.head < |s.all|
    ensures Window(s)[0] == s.oldest && Window(s)[|Window(s)| - 1] == s.newest && Load(s, s.newest) == None
    ensures forall i, j :: 0 <= i < j < |Window(s)| ==> Window(s)[i] != Window(s)[j]
    ensures forall i :: 0 <= i < |Window(s)| - 1 ==> Joined(s, Window(s)[i], Window(s)[i + 1])
    ensures forall who, prev, node :: InFlight(s, who, prev, node) ==> Adjacent(Window(s), prev, node)
  {
    ReachableInv(s);
    WindowDistinct(s);
    WindowJoined(s);
    forall who, prev, node | InFlight(s, who, prev, node)
      ensures Adjacent(Window(s), prev, node)
    {
      InFlightAdjacent(s, who, prev, node);
    }
  }

  // The queue's first message, when `oldest` is one, is queued.
  lemma OldestIsQueued(s: State)
    requires WindowOk(s) && s.oldest != STUB
    ensures s.oldest in Queued(s)
  {
    WindowMember(s, s.head);
    WithoutMember(Window(s), STUB, s.oldest);
  }

  // The stub alone in front, without a link behind it: nothing is queued, or a push owes the link.
  lemma UnlinkedStub(s: State)
    requires WindowOk(s) && LinksOk(s) && s.oldest == STUB && Load(s, STUB) == None
    ensures Queued(s) == [] || s.head + 1 in s.open
  {
    if s.head + 1 < |s.all| {
      assert LinkOk(s, s.head + 1);
    } else {
      assert Window(s) == [STUB] && Window(s)[1..] == [];
      assert Queued(s) == NoStub(Window(s)[1..]);
    }
  }

  // The steps that end a pop.
  lemma PopEnds(s: State)
    requires s.consumer.Idle? || (s.consumer.tail == s.oldest && s.oldest != STUB)
    requires PopStep(s).consumer.Idle?
    ensures var r := PopStep(s);
            && (r.answer.Empty? || r.answer.Retry? || r.answer.Got?)
            && (r.answer.Empty? <==> s.oldest == STUB)
            && (r.answer.Empty? ==> s.consumer.Idle? && Load(s, STUB) == None && r == s.(answer := Empty))
            && (r.answer.Retry? ==> r == s.(consumer := Idle, answer := Retry))
            && (r.answer.Got? <==> s.oldest != STUB && !s.consumer.ReadNewest? && Load(s, s.oldest).Some?)
  {
  }

  /** What a pop answers in any interleaving.  It says that the queue is empty only in front of
      a stub without a link, when nothing is queued or the push behind the stub has not linked
      it yet; and it asks for another try only while a message is queued.  Either way it leaves
      the queue alone. */
  lemma PopAnswers(s: State)
    requires Reachable(s) && PopStep(s).consumer.Idle?
    ensures s.head < |s.all| && !PopStep(s).answer.Running?
    ensures PopStep(s).answer.Empty? <==> s.oldest == STUB
    ensures PopStep(s).answer.Empty? ==>
              && s.consumer.Idle? && Load(s, STUB) == None && PopStep(s) == s.(answer := Empty)
              && (Queued(s) == [] || s.head + 1 in s.open)
    ensures PopStep(s).answer.Retry? ==>
              PopStep(s) == s.(consumer := Idle, answer := Retry) && Queued(s) != []
    ensures PopStep(s).answer.Got? <==> s.oldest != STUB && !s.consumer.ReadNewest? && Load(s, s.oldest).Some?
  {
    ReachableInv(s);
    PopEnds(s);
    if s.oldest == STUB { UnlinkedStub(s); } else { OldestIsQueued(s); }
  }

  // -------------------------------------------------------------------------
  // Memory: a returned node is the client's again

  // The nodes whose memory a step reads or writes.
  function Touches(s: State, step: Step): set<Node>
    requires s.head <= |s.all| && Enabled(s, step)
  {
    match step
    case PushClear(_, node) => {node}
    case PushExchange(_) => {}
    case PushLink(t) => {s.producers[t].prev}
    case ClientWrite(node, _) => {node}
    case Pop =>
      match s.consumer
      case Idle => {s.oldest}
      case PastStub(tail) => {tail}
      case ReadNewest(_) => {}
      case StubClear(_) => {STUB}
      case StubExchange(_) => {}
      case StubLink(_, prev, _) => {prev}
      case LastLoad(tail) => {tail}
  }

  // A client hands the node over, or writes to it.
  predicate Pushes(step: Step, n: Node) {
    step.PushClear? && step.node == n
  }

  predicate Writes(step: Step, n: Node) {
    step.ClientWrite? && step.node == n
  }

  // Nothing in the queue mentions the node.
  ghost predicate Forgotten(s: State, n: Node)
    requires s.head <= |s.all|
  {
    && n != s.newest && n != s.oldest
    && (forall m :: m in Window(s) ==> Load(s, m) != Some(n))
    && (forall who, node :: !InFlight(s, who, n, node))
    && (forall who, prev :: !InFlight(s, who, prev, n))
  }

  lemma NotInUseIsForgotten(s: State, n: Node)
    requires Inv(s) && !InUse(s, n)
    ensures Forgotten(s, n)
  {
    WindowMember(s, s.head);
    WindowMember(s, |s.all| - 1);
    forall m | m in Window(s)
      ensures Load(s, m) != Some(n)
    {
      var k :| 0 <= k < |Window(s)| && Window(s)[k] == m;
      if k < |Window(s)| - 1 {
        assert LinkOk(s, s.head + k + 1);
        WindowMember(s, s.head + k + 1);
      }
    }
    forall who, prev, node | InFlight(s, who, prev, node)
      ensures prev != n && node != n
    {
      var at := InFlightAt(s, who, prev, node);
      WindowMember(s, at);
      WindowMember(s, at - 1);
    }
  }

  lemma UntouchedByStep(s: State, n: Node, step: Step)
    requires Inv(s) && !InUse(s, n) && Enabled(s, step)
    ensures n in Touches(s, step) ==> Pushes(step, n) || Writes(step, n)
  {
    NotInUseIsForgotten(s, n);
    if step.PushLink? {
      assert InFlight(s, Pusher(step.t), s.producers[step.t].prev, s.producers[step.t].node);
    }
    if s.consumer.StubLink? {
      assert InFlight(s, Popper, s.consumer.prev, STUB);
    }
  }

  /** In every reachable state a node the queue does not hold is forgotten by it, and the
      next step of any agent leaves its memory alone unless a client itself pushes it or
      writes to it. */
  lemma ClientNodesAreUntouched(s: State, n: Node, step: Step)
    requires Reachable(s) && s.head <= |s.all| && !InUse(s, n) && Enabled(s, step)
    ensures Forgotten(s, n)
    ensures n in Touches(s, step) ==> Pushes(step, n) || Writes(step, n)
  {
    ReachableInv(s);
    NotInUseIsForgotten(s, n);
    UntouchedByStep(s, n, step);
  }

  /** The step in which a pop answers with a node gives that node back: it was held
      before the step and is not held after it. */
  lemma ReturnedNodeIsReleased(s: State)
    requires Reachable(s) && Handed(s, Pop) != []
    ensures s.head < |s.all| && PopStep(s).head <= |PopStep(s).all|
    ensures Handed(s, Pop) == [s.oldest] && s.oldest != STUB
    ensures InUse(s, s.oldest) && !InUse(PopStep(s), s.oldest)
  {
    ReachableInv(s);
    StepShape(s, Pop);
    WindowMember(s, s.head);
    var s' := PopStep(s);
    assert Handed(s, Pop) == [s.oldest];
    if s.oldest in Window(s') {
      var k :| 0 <= k < |Window(s')| && Window(s')[k] == s.oldest;
      NoRepeat(s, s.head, s'.head + k);
    }
    forall t | t in s'.producers
      ensures s'.producers[t] != Cleared(s.oldest)
    {
      assert ProducerOk(s, t);
    }
  }

  // Writes to different nodes commute.
  lemma UpdatesCommute(m: map<Node, Option<Node>>, a: Node, x: Option<Node>, b: Node, y: Option<Node>)
    requires a != b
    ensures m[a := x][b := y] == m[b := y][a := x]
  {
  }

  // The state with one node's memory overwritten.
  function Scribbled(s: State, n: Node, v: Option<Node>): State {
    s.(next := s.next[n := v])
  }

  // What a step does not touch it does not write ...
  lemma WriteFrame(s: State, step: Step, n: Node)
    requires s.head <= |s.all| && Enabled(s, step) && n !in Touches(s, step)
    ensures Load(Apply(s, step), n) == Load(s, n)
  {
  }

  lemma TakeReadFrame(s: State, tail: Node, n: Node, v: Option<Node>)
    requires n != tail
    ensures TakeOrLook(Scribbled(s, n, v), tail) == Scribbled(TakeOrLook(s, tail), n, v)
  {
  }

  lemma StubReadFrame(s: State, n: Node, v: Option<Node>)
    requires s.head <= |s.all| && n !in Touches(s, Pop)
    requires s.consumer.StubClear? || s.consumer.StubExchange? || s.consumer.StubLink?
    ensures PopStep(Scribbled(s, n, v)) == Scribbled(PopStep(s), n, v)
  {
    match s.consumer
    case StubClear(_) => UpdatesCommute(s.next, n, v, STUB, None);
    case StubLink(_, prev, _) => UpdatesCommute(s.next, n, v, prev, Some(STUB));
    case StubExchange(_) =>
  }

  lemma PopReadFrame(s: State, n: Node, v: Option<Node>)
    requires s.head <= |s.all| && n !in Touches(s, Pop)
    ensures PopStep(Scribbled(s, n, v)) == Scribbled(PopStep(s), n, v)
  {
    match s.consumer
    case Idle => TakeReadFrame(s, s.oldest, n, v);
    case PastStub(tail) => TakeReadFrame(s, tail, n, v);
    case StubClear(_) | StubExchange(_) | StubLink(_, _, _) => StubReadFrame(s, n, v);
    case _ =>
  }

  // ... and does not read: whatever is in that memory, the step does the same.
  lemma ReadFrame(s: State, step: Step, n: Node, v: Option<Node>)
    requires s.head <= |s.all| && Enabled(s, step) && n !in Touches(s, step)
    ensures Enabled(Scribbled(s, n, v), step)
    ensures Apply(Scribbled(s, n, v), step) == Scribbled(Apply(s, step), n, v)
  {
    match step
    case PushClear(t, node) => UpdatesCommute(s.next, n, v, node, None);
    case PushExchange(_) =>
    case PushLink(t) => UpdatesCommute(s.next, n, v, s.producers[t].prev, Some(s.producers[t].node));
    case ClientWrite(node, x) => UpdatesCommute(s.next, n, v, node, x);
    case Pop => PopReadFrame(s, n, v);
  }

  // What enters the window is what the step appends.
  lemma WindowAfter(s: State, s': State, appended: seq<Node>, n: Node)
    requires s.head <= |s.all| && s'.head <= |s'.all|
    requires s'.all == s.all + appended && s.head <= s'.head <= s.head + 1
    ensures n in Window(s') ==> n in Window(s) || n in appended
  {
    if n in Window(s') {
      var k :| 0 <= k < |Window(s')| && Window(s')[k] == n;
      if s'.head + k < |s.all| {
        WindowMember(s, s'.head + k);
      } else {
        assert appended[s'.head + k - |s.all|] == n;
      }
    }
  }

  lemma AppendedIsHeld(s: State, step: Step, n: Node)
    requires s.head <= |s.all| && Enabled(s, step) && n in Appended(s, step)
    ensures InUse(s, n)
  {
    if step.PushExchange? { assert s.producers[step.t] == Cleared(n); }
  }

  lemma ClearedBefore(s: State, step: Step, n: Node)
    requires s.head <= |s.all| && Enabled(s, step) && !Pushes(step, n)
    ensures (exists t | t in Apply(s, step).producers :: Apply(s, step).producers[t] == Cleared(n)) ==>
              exists t | t in s.producers :: s.producers[t] == Cleared(n)
  {
    var s' := Apply(s, step);
    if t :| t in s'.producers && s'.producers[t] == Cleared(n) {
      assert t in s.producers && s.producers[t] == Cleared(n) by {
        if step.Pop? { assert s'.producers == s.producers; }
      }
    }
  }

  // A node the queue does not hold stays so until a client pushes it.
  lemma StaysReleased(s: State, step: Step, n: Node)
    requires Inv(s) && Enabled(s, step) && !InUse(s, n) && !Pushes(step, n)
    ensures Apply(s, step).head <= |Apply(s, step).all| && !InUse(Apply(s, step), n)
  {
    StepShape(s, step);
    WindowAfter(s, Apply(s, step), Appended(s, step), n);
    if n in Appended(s, step) { AppendedIsHeld(s, step, n); }
    ClearedBefore(s, step, n);
  }

  // No client hands the node over, or writes to it, during the run.
  predicate LeftAlone(steps: seq<Step>, n: Node) {
    forall i :: 0 <= i < |steps| ==> !Pushes(steps[i], n) && !Writes(steps[i], n)
  }

  /** Over any run in which clients leave a released node alone it stays released, its memory
      is not written, and it is not read either: whatever value had been in it, the run would
      have been the same step for step. */
  lemma {:induction false} ReleasedForTheRun(s: State, steps: seq<Step>, n: Node, v: Option<Node>)
    requires Inv(s) && ValidRun(s, steps) && !InUse(s, n) && LeftAlone(steps, n)
    ensures Inv(Run(s, steps)) && !InUse(Run(s, steps), n)
    ensures Load(Run(s, steps), n) == Load(s, n)
    ensures ValidRun(Scribbled(s, n, v), steps)
    ensures Run(Scribbled(s, n, v), steps) == Scribbled(Run(s, steps), n, v)
    decreases |steps|
  {
    if steps != [] {
      var step := steps[0];
      assert !Pushes(steps[0], n) && !Writes(steps[0], n);
      UntouchedByStep(s, n, step);
      StepKeepsInv(s, step);
      StaysReleased(s, step, n);
      WriteFrame(s, step, n);
      ReadFrame(s, step, n, v);
      assert forall i :: 0 <= i < |steps[1..]| ==> steps[1..][i] == steps[i + 1];
      ReleasedForTheRun(Apply(s, step), steps[1..], n, v);
    }
  }

  /** From the pop that returns a node until a client pushes it again, no step of any agent
      reads or writes the node, so the caller may delete it at once. */
  lemma ReturnedNodeMayBeDeleted(s: State, steps: seq<Step>, v: Option<Node>)
    requires Reachable(s) && Handed(s, Pop) != [] && ValidRun(PopStep(s), steps)
    requires LeftAlone(steps, s.oldest)
    ensures Handed(s, Pop) == [s.oldest]
    ensures Run(PopStep(s), steps).head <= |Run(PopStep(s), steps).all| && !InUse(Run(PopStep(s), steps), s.oldest)
    ensures Load(Run(PopStep(s), steps), s.oldest) == Load(PopStep(s), s.oldest)
    ensures ValidRun(Scribbled(PopStep(s), s.oldest, v), steps)
    ensures Run(Scribbled(PopStep(s), s.oldest, v), steps) == Scribbled(Run(PopStep(s), steps), s.oldest, v)
  {
    ReachableInv(s);
    ReturnedNodeIsReleased(s);
    PopKeepsInv(s);
    ReleasedForTheRun(PopStep(s), steps, s.oldest, v);
  }

  // -------------------------------------------------------------------------
  // A pop that runs to its answer with no other agent moving

  function Remaining(c: Consumer): nat {
    match c
    case Idle => 7
    case PastStub(_) => 6
    case ReadNewest(_) => 5
    case StubClear(_) => 4
    case StubExchange(_) => 3
    case StubLink(_, _, _) => 2
    case LastLoad(_) => 1
  }

  function PopAlone(s: State): State
    decreases Remaining(s.consumer)
  {
    var s' := PopStep(s);
    if s'.consumer.Idle? then s' else PopAlone(s')
  }

  lemma QuiescentEmpty(s: State)
    requires WindowOk(s) && s.consumer.Idle? && s.oldest == STUB && |Window(s)| == 1
    ensures Queued(s) == [] && s.newest == STUB
    ensures PopAlone(s) == PopStep(s) == s.(answer := Empty)
  {
    assert Window(s)[1..] == [] && Queued(s) == NoStub(Window(s)[1..]);
  }

  // The stub in front of a message is passed over.
  lemma QuiescentSkip(s: State)
    requires Inv(s) && s.consumer.Idle? && s.open == map[] && s.oldest == STUB && |Window(s)| > 1
    ensures var s1 := PopStep(s);
            && Inv(s1) && s1.consumer.PastStub? && s1.oldest != STUB && s1.open == map[]
            && s1.producers == s.producers && Queued(s1) == Queued(s) && PopAlone(s) == PopAlone(s1)
  {
    PopKeepsInv(s);
    assert LinkOk(s, s.head + 1);
    assert Window(s)[1..] == Window(PopStep(s));
    assert Queued(s) == NoStub(Window(s)[1..]);
  }

  // The last message: the consumer pushes the stub behind it and then takes it.
  lemma QuiescentStubPush(s: State)
    requires s.open == map[] && s.consumer == ReadNewest(s.oldest)
    requires s.head + 1 == |s.all| && s.newest == s.oldest && s.oldest != STUB
    ensures var r := PopAlone(s);
            && r.consumer.Idle? && r.open == map[] && r.producers == s.producers
            && r.head <= |r.all| && r.answer == Got(s.oldest) && Queued(r) == []
  {
    var s2 := PopStep(s);
    var s3 := PopStep(s2);
    var s4 := PopStep(s3);
    var s5 := PopStep(s4);
    assert s5.consumer == LastLoad(s.oldest) && s5.all == s.all + [STUB] && s5.open == map[];
    assert Load(s5, s.oldest) == Some(STUB);
    var s6 := PopStep(s5);
    assert s6.consumer.Idle? && Window(s6) == [STUB];
    assert NoStub(Window(s6)) == NoStub(Window(s6)[1..]) == [];
    assert PopAlone(s5) == s6;
    assert PopAlone(s3) == PopAlone(s4) == PopAlone(s5);
    assert PopAlone(s) == PopAlone(s2) == PopAlone(s3);
  }

  lemma {:induction false} PopAloneKeepsInv(s: State)
    requires Inv(s)
    ensures Inv(PopAlone(s))
    decreases Remaining(s.consumer)
  {
    PopKeepsInv(s);
    if !PopStep(s).consumer.Idle? { PopAloneKeepsInv(PopStep(s)); }
  }

  // The tail is a message: it is returned, after the stub has gone behind it if it was the last.
  lemma QuiescentTake(s: State)
    requires Inv(s) && s.oldest != STUB && s.open == map[]
    requires s.consumer.Idle? || s.consumer.PastStub?
    ensures var r := PopAlone(s);
            && Inv(r) && r.consumer.Idle? && r.open == map[] && r.producers == s.producers
            && r.head <= |r.all| && Queued(s) != []
            && r.answer == Got(Queued(s)[0]) && Queued(r) == Queued(s)[1..]
  {
    var w := Window(s);
    assert Queued(s) == [s.oldest] + NoStub(w[1..]);
    PopAloneKeepsInv(s);
    if |w| > 1 {
      assert LinkOk(s, s.head + 1);
      assert Window(PopStep(s)) == w[1..];
    } else {
      assert w[1..] == [];
      QuiescentStubPush(PopStep(s));
    }
  }

  /** With no push in flight a pop is exact: it answers the first queued message and leaves
      the rest, or answers that the queue is empty; it never asks the caller to retry. */
  lemma QuiescentPop(s: State)
    requires Inv(s) && s.consumer.Idle? && s.open == map[]
    ensures var r := PopAlone(s);
            && Inv(r) && r.consumer.Idle? && r.open == map[] && r.producers == s.producers
            && r.head <= |r.all|
            && (Queued(s) == [] ==> r.answer == Empty && r == s.(answer := Empty) && r.newest == r.oldest == STUB)
            && (Queued(s) != [] ==> r.answer == Got(Queued(s)[0]) && Queued(r) == Queued(s)[1..])
  {
    if s.oldest != STUB {
      QuiescentTake(s);
    } else if |Window(s)| == 1 {
      QuiescentEmpty(s);
    } else {
      QuiescentSkip(s);
      QuiescentTake(PopStep(s));
    }
  }
}
