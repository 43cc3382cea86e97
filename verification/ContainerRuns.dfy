/**
 Whole runs of the connection container: any interleaving of attaches, deletes, refreshes
 and timeout checks, each one lock-held section, with a clock that does not run backwards.
 */
module ContainerRuns {
  import opened ConnectionId
  import opened ContainerBook
  import opened Sequences
  import opened Words
  import opened Wrappers

  datatype Op =
    | DoAttach(handle: nat, port: nat, now: int)
    | DoDelete(index: nat)
    | DoRefresh(index: nat, now: int)
    | DoCheck(now: int, order: seq<nat>)

  // What an attach was given.
  datatype Origin = Origin(handle: nat, port: nat)

  // The book with what a run has seen so far: the time, the latest check, when each slot was
  // last attached or refreshed, what the attach that last took it was given, every id issued,
  // the most slots ever occupied, the expansions.
  datatype World = World(
    book: Book,
    clock: int,
    checked: int,
    touched: map<nat, int>,
    origins: map<nat, Origin>,
    issued: set<nat>,
    peak: nat,
    expansions: nat)

  // What CreateContainer's settings must satisfy for the container to be usable.
  predicate Usable(o: Options) {
    0 < o.defaultSize <= o.maxSize < WORD && o.magic < HALF
  }

  function Begin(o: Options, now: int): World {
    World(Initial(o, now), now, now, map[], map[], {}, 0, 0)
  }

  ghost predicate Enabled(w: World, op: Op) {
    match op
    case DoAttach(_, port, now) => port < HALF && w.clock <= now
    case DoDelete(_) => true
    case DoRefresh(_, now) => w.clock <= now
    case DoCheck(now, order) =>
      w.clock <= now && if SweepDue(w.book, now) then SweepOrder(w.book, now, order) else order == []
  }

  function Max(a: nat, b: nat): nat {
    if a < b then b else a
  }

  function Step(o: Options, w: World, op: Op): World {
    match op
    case DoAttach(handle, port, now) =>
      var r := Ready(w.book, o);
      if Full(w.book, o) || r.free == [] then w.(clock := now)
      else
        var index := r.free[0];
        var book := Attach(w.book, o, handle, port, now);
        World(book, now, w.checked, w.touched[index := now], w.origins[index := Origin(handle, port)],
              w.issued + {BuildConnectionId(o.magic, port, index)},
              Max(w.peak, |book.occupied|), w.expansions + if w.book.free == [] then 1 else 0)
    case DoDelete(index) => w.(book := Delete(w.book, index))
    case DoRefresh(index, now) =>
      w.(book := Refresh(w.book, o, index, now), clock := now,
         touched := if index in w.book.occupied then w.touched[index := now] else w.touched)
    case DoCheck(now, order) =>
      w.(book := if SweepDue(w.book, now) then Sweep(w.book, now, order) else w.book, clock := now, checked := now)
  }

  // -------------------------------------------------------------------------
  // The invariant

  // Each occupant's id is its own slot's, and its deadline its last touch plus the timeout.
  ghost predicate OccupantOk(o: Options, w: World, i: nat)
    requires i in w.book.occupied
  {
    var c := w.book.occupied[i];
    && c.conn.port < HALF && c.conn.cid == BuildConnectionId(o.magic, c.conn.port, i) && c.conn.cid in w.issued
    && i in w.origins && c.conn.handle == w.origins[i].handle && c.conn.port == w.origins[i].port
    && i in w.touched && w.touched[i] <= w.clock && c.deadline == w.touched[i] + o.timeout
    && c.deadline >= w.book.lastCheck
  }

  ghost predicate IssuedOk(o: Options, w: World, cid: nat) {
    CheckConnectionId(o, cid) == Some(GetUserId(cid)) && GetUserId(cid) < w.book.size
  }

  ghost predicate ClockOk(w: World) {
    w.book.lastCheck <= w.checked <= w.clock && w.checked < w.book.lastCheck + CHECK_INTERVAL
  }

  function Pow2(k: nat): (p: nat)
    ensures p > 0
  {
    if k == 0 then 1 else 2 * Pow2(k - 1)
  }

  function SizeAfter(o: Options, k: nat): nat {
    if o.defaultSize * Pow2(k) < o.maxSize then o.defaultSize * Pow2(k) else o.maxSize
  }

  ghost predicate SizeOk(o: Options, w: World) {
    && w.book.size == SizeAfter(o, w.expansions)
    && |w.book.occupied| <= w.peak
    && w.book.size <= Max(o.defaultSize, 2 * w.peak)
  }

  ghost predicate Inv(o: Options, w: World) {
    && FreeExact(w.book)
    && (forall i :: i in w.book.occupied ==> OccupantOk(o, w, i))
    && (forall cid :: cid in w.issued ==> IssuedOk(o, w, cid))
    && ClockOk(w)
    && SizeOk(o, w)
  }

  lemma BeginInv(o: Options, now: int)
    requires Usable(o)
    ensures Inv(o, Begin(o, now))
  {
    var b := Begin(o, now).book;
    forall i: nat ensures i in b.free <==> i < b.size { RangeMembers(0, o.defaultSize, i); }
    forall i: nat, j: nat | i < j < |b.free| ensures Apart(b.free, i, j) {}
  }

  // -------------------------------------------------------------------------
  // Free slots

  lemma ReadyFree(o: Options, b: Book)
    requires FreeExact(b) && !Full(b, o) && 0 < b.size
    ensures FreeExact(Ready(b, o)) && Ready(b, o).free != []
  {
    if b.free == [] {
      var g := Grown(b.size, o.maxSize);
      forall i: nat ensures i in Range(b.size, g) <==> b.size <= i < g { RangeMembers(b.size, g, i); }
      forall i: nat, j: nat | i < j < |Range(b.size, g)| ensures Apart(Range(b.size, g), i, j) {}
    }
  }

  /** Expansion adds a free slot exactly when the size is positive and below the maximum: an
      initial size of zero stays zero. */
  lemma ExpansionAddsSlots(size: nat, max: nat)
    ensures Grown(size, max) > size <==> 0 < size < max
  {
  }

  lemma AttachFree(o: Options, b: Book, handle: nat, port: nat, now: int)
    requires FreeExact(b) && !Full(b, o) && FreeExact(Ready(b, o)) && Ready(b, o).free != []
    ensures FreeExact(Attach(b, o, handle, port, now))
  {
    var r := Ready(b, o);
    NoDuplicatesTail(r.free);
    assert r.free[0] in r.free && r.occupied == b.occupied;
    forall i | i in r.free[1..]
      ensures i < r.size && i !in r.occupied && i != r.free[0]
    {
      assert i in r.free;
    }
    forall i: nat | i < r.size && i !in r.occupied && i != r.free[0]
      ensures i in r.free[1..]
    {
      assert i in r.free;
    }
  }

  lemma DeleteFree(b: Book, index: nat)
    requires FreeExact(b)
    ensures FreeExact(Delete(b, index))
  {
    if index in b.occupied { NoDuplicatesAppend(b.free, index); }
  }

  lemma SweepFree(b: Book, now: int, order: seq<nat>)
    requires FreeExact(b) && SweepOrder(b, now, order)
    ensures FreeExact(Sweep(b, now, order))
  {
    NoDuplicatesConcat(b.free, order);
  }

  // -------------------------------------------------------------------------
  // Sizes

  lemma Doubling(d: nat, k: nat)
    ensures d * Pow2(k + 1) == 2 * (d * Pow2(k))
  {
  }

  lemma SizeGrows(o: Options, k: nat)
    requires Usable(o)
    ensures 0 < SizeAfter(o, k)
    ensures SizeAfter(o, k) < o.maxSize ==> Grown(SizeAfter(o, k), o.maxSize) == SizeAfter(o, k + 1)
  {
    Doubling(o.defaultSize, k);
  }

  // -------------------------------------------------------------------------
  // Ids

  /** An id built for a slot is accepted, with that slot, exactly when the slot is within
      the configured maximum (and is not the reserved index). */
  lemma BuiltIdAccepted(o: Options, port: nat, index: nat)
    requires o.magic < HALF && port < HALF && index < WORD
    ensures (CheckConnectionId(o, BuildConnectionId(o.magic, port, index)) == Some(index))
            <==> index < o.maxSize && index != InvalidIndex
  {
    RoundTrip(o.magic, port, index);
  }

  predicate IdOf(o: Options, cid: nat, port: nat, index: nat) {
    port < HALF && cid == BuildConnectionId(o.magic, port, index)
  }

  lemma MagicFits(o: Options, cid: nat, port: nat, index: nat)
    requires cid < LONG && cid == BuildConnectionId(o.magic, port, index)
    ensures o.magic < HALF
  {
  }

  /** The check accepts exactly the ids built with the container's magic number, any port and
      a slot below the maximum other than the reserved one, and answers with that slot. */
  lemma AcceptedExactly(o: Options, cid: nat, index: nat)
    requires cid < LONG
    ensures CheckConnectionId(o, cid) == Some(index) <==>
              && index < o.maxSize && index < 0xffff_ffff
              && exists port :: IdOf(o, cid, port, index)
  {
    Rebuild(cid);
    if CheckConnectionId(o, cid) == Some(index) {
      assert IdOf(o, cid, GetListenPort(cid), index);
    }
    if port :| index < 0xffff_ffff && IdOf(o, cid, port, index) {
      MagicFits(o, cid, port, index);
      RoundTrip(o.magic, port, index);
    }
  }

  // -------------------------------------------------------------------------
  // Steps

  // The vector is as large as the formula says also once it has grown for an attach.
  lemma ReadySize(o: Options, w: World)
    requires Usable(o) && SizeOk(o, w) && !Full(w.book, o)
    ensures w.book.size <= Ready(w.book, o).size <= o.maxSize
    ensures Ready(w.book, o).size == SizeAfter(o, w.expansions + if w.book.free == [] then 1 else 0)
  {
    SizeGrows(o, w.expansions);
  }

  // The slot an attach takes was empty; so one more is occupied.
  lemma AttachIndex(o: Options, b: Book)
    requires FreeExact(Ready(b, o)) && Ready(b, o).free != []
    ensures Ready(b, o).free[0] < Ready(b, o).size && Ready(b, o).free[0] !in b.occupied
  {
    assert Ready(b, o).free[0] in Ready(b, o).free;
  }

  lemma AttachCount(o: Options, b: Book, handle: nat, port: nat, now: int)
    requires !Full(b, o) && FreeExact(Ready(b, o)) && Ready(b, o).free != []
    ensures |Attach(b, o, handle, port, now).occupied| == |b.occupied| + 1
  {
    AttachIndex(o, b);
    var b' := Attach(b, o, handle, port, now);
    assert b'.occupied.Keys == b.occupied.Keys + {Ready(b, o).free[0]};
  }

  lemma GrownWithinPeak(o: Options, b: Book, peak: nat)
    requires FreeExact(b) && |b.occupied| <= peak && b.size <= Max(o.defaultSize, 2 * peak)
    ensures Ready(b, o).size <= Max(o.defaultSize, 2 * Max(peak, |b.occupied| + 1))
  {
    FreeCount(b);
  }

  // Attaching fills one more slot, inside the vector and below the maximum.
  lemma AttachSizes(o: Options, w: World, handle: nat, port: nat, now: int)
    requires Usable(o) && FreeExact(w.book) && SizeOk(o, w) && !Full(w.book, o)
    requires FreeExact(Ready(w.book, o)) && Ready(w.book, o).free != []
    ensures SizeOk(o, Step(o, w, DoAttach(handle, port, now)))
    ensures var index := Ready(w.book, o).free[0];
            index < Ready(w.book, o).size <= o.maxSize && index !in w.book.occupied
    ensures w.book.size <= Ready(w.book, o).size
  {
    ReadySize(o, w);
    AttachIndex(o, w.book);
    AttachCount(o, w.book, handle, port, now);
    GrownWithinPeak(o, w.book, w.peak);
  }

  lemma AttachOccupants(o: Options, w: World, w': World, index: nat, c: Connection, now: int)
    requires Usable(o) && (forall i :: i in w.book.occupied ==> OccupantOk(o, w, i)) && ClockOk(w) && w.clock <= now
    requires index < o.maxSize && c.port < HALF && c.cid == BuildConnectionId(o.magic, c.port, index)
    requires w'.book.occupied == w.book.occupied[index := Occupant(c, now + o.timeout)]
    requires w'.book.lastCheck == w.book.lastCheck && w'.clock == now
    requires w'.touched == w.touched[index := now] && w'.issued == w.issued + {c.cid}
    requires w'.origins == w.origins[index := Origin(c.handle, c.port)]
    ensures forall i :: i in w'.book.occupied ==> OccupantOk(o, w', i)
  {
    forall i | i in w'.book.occupied
      ensures OccupantOk(o, w', i)
    {
      if i != index { assert OccupantOk(o, w, i); }
    }
  }

  lemma AttachIssued(o: Options, w: World, w': World, port: nat, index: nat)
    requires Usable(o) && (forall cid :: cid in w.issued ==> IssuedOk(o, w, cid))
    requires index < w'.book.size && index < o.maxSize && w.book.size <= w'.book.size && port < HALF
    requires w'.issued == w.issued + {BuildConnectionId(o.magic, port, index)}
    ensures forall cid :: cid in w'.issued ==> IssuedOk(o, w', cid)
  {
    BuiltIdAccepted(o, port, index);
    RoundTrip(o.magic, port, index);
    forall cid | cid in w'.issued
      ensures IssuedOk(o, w', cid)
    {
      if cid in w.issued { assert IssuedOk(o, w, cid); }
    }
  }

  lemma AttachKeepsInv(o: Options, w: World, handle: nat, port: nat, now: int)
    requires Usable(o) && Inv(o, w) && Enabled(w, DoAttach(handle, port, now))
    ensures Inv(o, Step(o, w, DoAttach(handle, port, now)))
  {
    var w' := Step(o, w, DoAttach(handle, port, now));
    if Full(w.book, o) {
      assert w' == w.(clock := now);
      forall i | i in w'.book.occupied ensures OccupantOk(o, w', i) { assert OccupantOk(o, w, i); }
      forall cid | cid in w'.issued ensures IssuedOk(o, w', cid) { assert IssuedOk(o, w, cid); }
      return;
    }
    SizeGrows(o, w.expansions);
    ReadyFree(o, w.book);
    AttachFree(o, w.book, handle, port, now);
    AttachSizes(o, w, handle, port, now);
    var index := Ready(w.book, o).free[0];
    AttachOccupants(o, w, w', index, NewConnection(o, handle, port, index), now);
    AttachIssued(o, w, w', port, index);
  }

  lemma FewerOccupied(b: Book, b': Book)
    requires b'.occupied.Keys <= b.occupied.Keys
    ensures |b'.occupied| <= |b.occupied|
  {
    assert b.occupied.Keys == b'.occupied.Keys + (b.occupied.Keys - b'.occupied.Keys);
  }

  lemma DeleteKeepsInv(o: Options, w: World, index: nat)
    requires Inv(o, w)
    ensures Inv(o, Step(o, w, DoDelete(index)))
  {
    DeleteFree(w.book, index);
    var w' := Step(o, w, DoDelete(index));
    forall i | i in w'.book.occupied ensures OccupantOk(o, w', i) { assert OccupantOk(o, w, i); }
    forall cid | cid in w'.issued ensures IssuedOk(o, w', cid) { assert IssuedOk(o, w, cid); }
    FewerOccupied(w.book, w'.book);
  }

  lemma RefreshKeepsInv(o: Options, w: World, index: nat, now: int)
    requires Inv(o, w) && w.clock <= now
    ensures Inv(o, Step(o, w, DoRefresh(index, now)))
  {
    var w' := Step(o, w, DoRefresh(index, now));
    forall i | i in w'.book.occupied ensures OccupantOk(o, w', i) { assert OccupantOk(o, w, i); }
    forall cid | cid in w'.issued ensures IssuedOk(o, w', cid) { assert IssuedOk(o, w, cid); }
    FewerOccupied(w.book, w'.book);
  }

  lemma CheckKeepsInv(o: Options, w: World, now: int, order: seq<nat>)
    requires Inv(o, w) && Enabled(w, DoCheck(now, order))
    ensures Inv(o, Step(o, w, DoCheck(now, order)))
  {
    var w' := Step(o, w, DoCheck(now, order));
    if SweepDue(w.book, now) { SweepFree(w.book, now, order); }
    forall i | i in w'.book.occupied ensures OccupantOk(o, w', i) { assert OccupantOk(o, w, i); }
    forall cid | cid in w'.issued ensures IssuedOk(o, w', cid) { assert IssuedOk(o, w, cid); }
    FewerOccupied(w.book, w'.book);
  }

  /** Every section keeps slots, free list, deadlines, ids and sizes in agreement. */
  lemma StepKeepsInv(o: Options, w: World, op: Op)
    requires Usable(o) && Inv(o, w) && Enabled(w, op)
    ensures Inv(o, Step(o, w, op))
  {
    match op
    case DoAttach(handle, port, now) => AttachKeepsInv(o, w, handle, port, now);
    case DoDelete(index) => DeleteKeepsInv(o, w, index);
    case DoRefresh(index, now) => RefreshKeepsInv(o, w, index, now);
    case DoCheck(now, order) => CheckKeepsInv(o, w, now, order);
  }

  ghost predicate ValidRun(o: Options, w: World, ops: seq<Op>)
    decreases |ops|
  {
    ops == [] || (Enabled(w, ops[0]) && ValidRun(o, Step(o, w, ops[0]), ops[1..]))
  }

  function Run(o: Options, w: World, ops: seq<Op>): World
    decreases |ops|
  {
    if ops == [] then w else Run(o, Step(o, w, ops[0]), ops[1..])
  }

  lemma {:induction false} RunKeepsInv(o: Options, w: World, ops: seq<Op>)
    requires Usable(o) && Inv(o, w) && ValidRun(o, w, ops)
    ensures Inv(o, Run(o, w, ops))
    ensures w.issued <= Run(o, w, ops).issued && w.book.size <= Run(o, w, ops).book.size
    decreases |ops|
  {
    if ops != [] {
      StepKeepsInv(o, w, ops[0]);
      RunKeepsInv(o, Step(o, w, ops[0]), ops[1..]);
    }
  }

  ghost predicate Reachable(o: Options, w: World) {
    exists now, ops :: ValidRun(o, Begin(o, now), ops) && w == Run(o, Begin(o, now), ops)
  }

  lemma ReachableInv(o: Options, w: World)
    requires Usable(o) && Reachable(o, w)
    ensures Inv(o, w)
  {
    var now, ops :| ValidRun(o, Begin(o, now), ops) && w == Run(o, Begin(o, now), ops);
    BeginInv(o, now);
    RunKeepsInv(o, Begin(o, now), ops);
  }

  // -------------------------------------------------------------------------
  // What holds in every reachable world

  /** The free list holds exactly the empty slots, once each, and the counts add up. */
  lemma SlotsAgree(o: Options, w: World)
    requires Usable(o) && Reachable(o, w)
    ensures NoDuplicates(w.book.free) && |w.book.free| + |w.book.occupied| == w.book.size
    ensures forall i: nat :: i in w.book.free <==> i < w.book.size && i !in w.book.occupied
  {
    ReachableInv(o, w);
    FreeCount(w.book);
  }

  /** Capacity: attach succeeds exactly when fewer than the maximum are occupied; after k
      expansions the size is min(default * 2^k, max), and it never exceeds the default or
      twice the most slots ever occupied. */
  lemma Capacity(o: Options, w: World)
    requires Usable(o) && Reachable(o, w)
    ensures !Full(w.book, o) <==> |w.book.occupied| < o.maxSize
    ensures !Full(w.book, o) ==> Ready(w.book, o).free != []
    ensures w.book.size == SizeAfter(o, w.expansions)
    ensures w.book.size <= Max(o.defaultSize, 2 * w.peak)
  {
    ReachableInv(o, w);
    SizeGrows(o, w.expansions);
    FreeCount(w.book);
    if !Full(w.book, o) { ReadyFree(o, w.book); }
  }

  /** Each occupant is the connection of the attach that last took its slot, with that attach's
      handle id and port, whatever has been refreshed, deleted or swept since. */
  lemma OccupantsAreTheirAttach(o: Options, w: World, i: nat)
    requires Usable(o) && Reachable(o, w) && i in w.book.occupied
    ensures i in w.origins
    ensures w.book.occupied[i].conn.handle == w.origins[i].handle
    ensures w.book.occupied[i].conn.port == w.origins[i].port
  {
    ReachableInv(o, w);
    assert OccupantOk(o, w, i);
  }

  // The run never releases the slot.
  ghost predicate Keeps(o: Options, w: World, ops: seq<Op>, i: nat)
    decreases |ops|
  {
    && i in w.book.occupied
    && (ops == [] || Keeps(o, Step(o, w, ops[0]), ops[1..], i))
  }

  lemma StepKeepsOccupant(o: Options, w: World, op: Op, i: nat)
    requires Usable(o) && Inv(o, w) && i in w.book.occupied && i in Step(o, w, op).book.occupied
    ensures Step(o, w, op).book.occupied[i].conn == w.book.occupied[i].conn
  {
    if op.DoAttach? && !Full(w.book, o) {
      SizeGrows(o, w.expansions);
      ReadyFree(o, w.book);
      assert Ready(w.book, o).free[0] in Ready(w.book, o).free;
    }
  }

  lemma {:induction false} KeptOccupant(o: Options, w: World, ops: seq<Op>, i: nat)
    requires Usable(o) && Inv(o, w) && ValidRun(o, w, ops) && Keeps(o, w, ops, i)
    ensures i in Run(o, w, ops).book.occupied
    ensures Run(o, w, ops).book.occupied[i].conn == w.book.occupied[i].conn
    decreases |ops|
  {
    if ops != [] {
      var w' := Step(o, w, ops[0]);
      StepKeepsInv(o, w, ops[0]);
      StepKeepsOccupant(o, w, ops[0], i);
      KeptOccupant(o, w', ops[1..], i);
    }
  }

  /** From the attach on, and as long as its slot is not released, looking the slot up gives the
      connection that was attached: the given handle id and port, and the id for this slot. */
  lemma AttachedStays(o: Options, w: World, handle: nat, port: nat, now: int, ops: seq<Op>)
    requires Usable(o) && Reachable(o, w) && Enabled(w, DoAttach(handle, port, now)) && !Full(w.book, o)
    requires ValidRun(o, Step(o, w, DoAttach(handle, port, now)), ops)
    requires Ready(w.book, o).free != []
    requires Keeps(o, Step(o, w, DoAttach(handle, port, now)), ops, Ready(w.book, o).free[0])
    ensures var i, book := Ready(w.book, o).free[0], Run(o, Step(o, w, DoAttach(handle, port, now)), ops).book;
            && i in book.occupied
            && book.occupied[i].conn == Connection(handle, port, BuildConnectionId(o.magic, port, i))
  {
    ReachableInv(o, w);
    StepKeepsInv(o, w, DoAttach(handle, port, now));
    KeptOccupant(o, Step(o, w, DoAttach(handle, port, now)), ops, Ready(w.book, o).free[0]);
  }

  /** Every occupant's id decodes to the container's magic number, its port and its own slot,
      is not the invalid id, and is no other occupant's. */
  lemma IdsIdentify(o: Options, w: World, i: nat)
    requires Usable(o) && Reachable(o, w) && i in w.book.occupied
    ensures var c := w.book.occupied[i].conn;
            && GetMagicNumber(c.cid) == o.magic && GetListenPort(c.cid) == c.port && GetUserId(c.cid) == i
            && c.cid != InvalidConnectionId
            && CheckConnectionId(o, c.cid) == Some(i) && i < w.book.size
            && forall j :: j in w.book.occupied && j != i ==> w.book.occupied[j].conn.cid != c.cid
  {
    ReachableInv(o, w);
    SizeGrows(o, w.expansions);
    assert OccupantOk(o, w, i);
    RoundTrip(o.magic, w.book.occupied[i].conn.port, i);
    BuiltIdAccepted(o, w.book.occupied[i].conn.port, i);
    forall j | j in w.book.occupied && j != i
      ensures w.book.occupied[j].conn.cid != w.book.occupied[i].conn.cid
    {
      assert OccupantOk(o, w, j);
      RoundTrip(o.magic, w.book.occupied[j].conn.port, j);
    }
  }

  /** Once issued, an id passes the check with an index inside the slot vector for ever. */
  lemma IssuedIdsStayGood(o: Options, w: World, ops: seq<Op>, cid: nat)
    requires Usable(o) && Reachable(o, w) && ValidRun(o, w, ops) && cid in w.issued
    ensures CheckConnectionId(o, cid) == Some(GetUserId(cid)) && GetUserId(cid) < Run(o, w, ops).book.size
  {
    ReachableInv(o, w);
    RunKeepsInv(o, w, ops);
    assert IssuedOk(o, Run(o, w, ops), cid);
  }

  // An id that passes the check although its slot lies outside the vector.
  predicate OutOfBounds(o: Options, b: Book, cid: nat) {
    CheckConnectionId(o, cid).Some? && CheckConnectionId(o, cid).value >= b.size
  }

  /** The check compares with the configured maximum, not with the vector: an id outside the
      vector passes exactly when it has the container's magic number and a slot from the size up
      to the maximum.  There are such ids exactly while the vector has not grown to the maximum,
      and none of them was ever issued. */
  lemma AcceptedOutOfBounds(o: Options, w: World)
    requires Usable(o) && Reachable(o, w)
    ensures forall cid :: OutOfBounds(o, w.book, cid) <==>
                            GetMagicNumber(cid) == o.magic && w.book.size <= GetUserId(cid) < o.maxSize
    ensures (exists cid: nat :: cid < LONG && OutOfBounds(o, w.book, cid)) <==> w.book.size < o.maxSize
    ensures forall cid :: OutOfBounds(o, w.book, cid) ==> cid !in w.issued
  {
    ReachableInv(o, w);
    forall cid | cid in w.issued
      ensures !OutOfBounds(o, w.book, cid)
    {
      assert IssuedOk(o, w, cid);
    }
    if w.book.size < o.maxSize {
      var cid := BuildConnectionId(o.magic, 0, w.book.size);
      RoundTrip(o.magic, 0, w.book.size);
      BuiltIdAccepted(o, 0, w.book.size);
      assert cid < LONG && OutOfBounds(o, w.book, cid);
    }
  }

  /** No slot is swept before its last attach or refresh plus the timeout; a performed sweep
      removes exactly the slots that are due. */
  lemma SweepsOnTime(o: Options, w: World, now: int, order: seq<nat>, i: nat)
    requires Usable(o) && Reachable(o, w) && Enabled(w, DoCheck(now, order)) && i in w.book.occupied
    ensures var w' := Step(o, w, DoCheck(now, order));
            && i in w.touched
            && (i !in w'.book.occupied <==> SweepDue(w.book, now) && w.touched[i] + o.timeout <= now)
  {
    ReachableInv(o, w);
    assert OccupantOk(o, w, i);
  }

  /** Whatever happened before, right after a check at time t no occupant is overdue by 3000 ms
      or more, so with checks at most P apart every occupant's deadline is later than
      now - 3000 - P at all times. */
  lemma OverdueBound(o: Options, w: World, i: nat, gap: nat)
    requires Usable(o) && Reachable(o, w) && i in w.book.occupied
    requires w.clock <= w.checked + gap
    ensures w.book.occupied[i].deadline > w.clock - 3000 - gap
  {
    ReachableInv(o, w);
    assert OccupantOk(o, w, i);
  }

  // -------------------------------------------------------------------------
  // The free list is a queue

  function TakenBy(o: Options, w: World, op: Op): seq<nat> {
    if op.DoAttach? && !Full(w.book, o) && Ready(w.book, o).free != [] then [Ready(w.book, o).free[0]] else []
  }

  // The slots a run hands out, in order, and those it puts on the free list.
  function Taken(o: Options, w: World, ops: seq<Op>): seq<nat>
    decreases |ops|
  {
    if ops == [] then [] else TakenBy(o, w, ops[0]) + Taken(o, Step(o, w, ops[0]), ops[1..])
  }

  function AddedBy(o: Options, w: World, op: Op): seq<nat> {
    match op
    case DoAttach(_, _, _) =>
      if w.book.free == [] && TakenBy(o, w, op) != [] then Range(w.book.size, Grown(w.book.size, o.maxSize)) else []
    case DoDelete(index) => if index in w.book.occupied then [index] else []
    case DoRefresh(_, _) => []
    case DoCheck(now, order) => if SweepDue(w.book, now) then order else []
  }

  function Added(o: Options, w: World, ops: seq<Op>): seq<nat>
    decreases |ops|
  {
    if ops == [] then [] else AddedBy(o, w, ops[0]) + Added(o, Step(o, w, ops[0]), ops[1..])
  }

  lemma FreeListStep(o: Options, w: World, op: Op)
    ensures w.book.free + AddedBy(o, w, op) == TakenBy(o, w, op) + Step(o, w, op).book.free
  {
    if op.DoAttach? && TakenBy(o, w, op) != [] {
      var r := Ready(w.book, o);
      assert w.book.free + AddedBy(o, w, op) == r.free == [r.free[0]] + r.free[1..];
    }
  }

  /** First released, first reused: over any run, the free list followed by what is added to
      it is what is handed out followed by the final free list.  So a released slot is handed
      out only after every slot that was free when it was released. */
  lemma {:induction false} FreeListIsFifo(o: Options, w: World, ops: seq<Op>)
    ensures w.book.free + Added(o, w, ops) == Taken(o, w, ops) + Run(o, w, ops).book.free
    decreases |ops|
  {
    if ops == [] {
      assert w.book.free + [] == [] + w.book.free;
    } else {
      var op, w' := ops[0], Step(o, w, ops[0]);
      FreeListIsFifo(o, w', ops[1..]);
      FreeListStep(o, w, op);
      QueuesCompose(w.book.free, AddedBy(o, w, op), TakenBy(o, w, op), w'.book.free,
                    Added(o, w', ops[1..]), Taken(o, w', ops[1..]), Run(o, w', ops[1..]).book.free);
    }
  }

  lemma Releases(o: Options, w: World, op: Op)
    requires Enabled(w, op) && (op.DoDelete? || op.DoCheck?)
    ensures var w', released := Step(o, w, op), AddedBy(o, w, op);
            && w'.book.free == w.book.free + released
            && (forall i :: i in released <==> i in w.book.occupied && i !in w'.book.occupied)
  {
  }

  /** A slot released by a delete or a sweep goes behind every slot then free: from there on
      the slots handed out are those, in their order, then the ones this step released, in
      theirs. */
  lemma ReuseComesLast(o: Options, w: World, op: Op, ops: seq<Op>)
    requires Enabled(w, op) && (op.DoDelete? || op.DoCheck?)
    ensures var w', released, taken := Step(o, w, op), AddedBy(o, w, op), Taken(o, Step(o, w, op), ops);
            && w'.book.free == w.book.free + released
            && (forall i :: i in released <==> i in w.book.occupied && i !in w'.book.occupied)
            && (forall k :: 0 <= k < |taken| && k < |w.book.free| ==> taken[k] == w.book.free[k])
            && (forall k :: 0 <= k < |released| && |w.book.free| + k < |taken| ==>
                  taken[|w.book.free| + k] == released[k])
  {
    var w' := Step(o, w, op);
    FreeListIsFifo(o, w', ops);
    Releases(o, w, op);
    var released, taken := AddedBy(o, w, op), Taken(o, w', ops);
    var line := w.book.free + released + Added(o, w', ops);
    assert line == taken + Run(o, w', ops).book.free;
    assert forall k :: 0 <= k < |taken| ==> taken[k] == line[k];
  }
}
