/**
 What the connection container of src/common/container_impl.cc keeps, without the data
 structures it keeps it in: how many slots there are, who occupies which until when, and
 the queue of free slots.  `Container` shows that the slot vector, the multimap and the
 list implement these operations; here are their consequences over whole runs.
 */
module ContainerBook {
  import opened ConnectionId
  import opened Sequences
  import opened Words
  import opened Wrappers

  const CHECK_INTERVAL: int := 3000
  const InvalidIndex: nat := WORD - 1

  datatype Options = Options(defaultSize: nat, maxSize: nat, timeout: nat, magic: nat)

  datatype Connection = Connection(handle: nat, port: nat, cid: nat)
  datatype Occupant = Occupant(conn: Connection, deadline: int)

  datatype Book = Book(size: nat, occupied: map<nat, Occupant>, free: seq<nat>, lastCheck: int)

  // The slots from lo up to hi.
  function Range(lo: nat, hi: nat): (r: seq<nat>)
    ensures |r| == (if lo <= hi then hi - lo else 0)
    ensures forall k :: 0 <= k < |r| ==> r[k] == lo + k
  {
    if lo < hi then seq(hi - lo, k requires 0 <= k => lo + k) else []
  }

  lemma RangeMembers(lo: nat, hi: nat, i: nat)
    ensures i in Range(lo, hi) <==> lo <= i < hi
  {
    if lo <= i < hi { assert Range(lo, hi)[i - lo] == i; }
  }

  function Initial(o: Options, now: int): Book {
    Book(o.defaultSize, map[], Range(0, o.defaultSize), now)
  }

  // The size the slot vector grows to.
  function Grown(size: nat, max: nat): nat {
    if size * 2 < max then size * 2 else max
  }

  // The book in which the next attach takes its slot: grown if no slot is free.
  function Ready(b: Book, o: Options): Book {
    if b.free != [] then b
    else b.(size := Grown(b.size, o.maxSize), free := Range(b.size, Grown(b.size, o.maxSize)))
  }

  predicate Full(b: Book, o: Options) {
    b.free == [] && b.size >= o.maxSize
  }

  function NewConnection(o: Options, handle: nat, port: nat, index: nat): Connection {
    Connection(handle, port, BuildConnectionId(o.magic, port, index))
  }

  function Attach(b: Book, o: Options, handle: nat, port: nat, now: int): Book
    requires !Full(b, o) && Ready(b, o).free != []
  {
    var r := Ready(b, o);
    var index := r.free[0];
    r.(occupied := r.occupied[index := Occupant(NewConnection(o, handle, port, index), now + o.timeout)],
       free := r.free[1..])
  }

  function Delete(b: Book, index: nat): Book {
    if index in b.occupied then b.(occupied := b.occupied - {index}, free := b.free + [index]) else b
  }

  function Refresh(b: Book, o: Options, index: nat, now: int): Book {
    if index in b.occupied
    then b.(occupied := b.occupied[index := b.occupied[index].(deadline := now + o.timeout)])
    else b
  }

  // The slot index when the id is acceptable.
  function CheckConnectionId(o: Options, cid: nat): Option<nat> {
    if cid == InvalidConnectionId || GetMagicNumber(cid) != o.magic then None
    else
      var idx := GetUserId(cid);
      if idx == InvalidIndex || idx >= o.maxSize then None else Some(idx)
  }

  // The free list is duplicate-free and holds exactly the empty slots.
  ghost predicate FreeExact(b: Book) {
    && NoDuplicates(b.free)
    && (forall i :: i in b.free ==> i < b.size && i !in b.occupied)
    && (forall i: nat :: i < b.size && i !in b.occupied ==> i in b.free)
    && (forall i :: i in b.occupied ==> i < b.size)
  }

  /** Free slots and occupied slots together are all the slots. */
  lemma FreeCount(b: Book)
    requires FreeExact(b)
    ensures |b.free| + |b.occupied| == b.size
  {
    var f := set i | i in b.free;
    DistinctCount(b.free);
    assert f + b.occupied.Keys == Below(b.size);
    assert |f + b.occupied.Keys| == |f| + |b.occupied.Keys|;
  }

  ghost predicate InTurn(b: Book, order: seq<nat>, i: nat, j: nat)
    requires i < |order| && j < |order|
  {
    order[i] in b.occupied && order[j] in b.occupied ==>
      b.occupied[order[i]].deadline <= b.occupied[order[j]].deadline
  }

  // A performed sweep frees the due slots, earliest deadline first.
  ghost predicate SweepOrder(b: Book, now: int, order: seq<nat>) {
    && NoDuplicates(order)
    && (forall i :: i in order <==> i in b.occupied && b.occupied[i].deadline <= now)
    && (forall i: nat, j: nat :: i < j < |order| ==> InTurn(b, order, i, j))
  }

  function Sweep(b: Book, now: int, order: seq<nat>): Book {
    b.(occupied := b.occupied - (set i | i in order), free := b.free + order, lastCheck := now)
  }

  ghost predicate Logs(b: Book, slot: nat, conn: Connection) {
    slot in b.occupied && b.occupied[slot].conn == conn
  }

  // `log` lists the connections in the given slots, in that order.
  ghost predicate LogsConnections(b: Book, order: seq<nat>, log: seq<Connection>) {
    && |log| == |order|
    && forall k: nat :: k < |order| ==> Logs(b, order[k], log[k])
  }

  lemma LogsAppend(b: Book, order: seq<nat>, log: seq<Connection>, slot: nat, conn: Connection)
    requires LogsConnections(b, order, log) && Logs(b, slot, conn)
    ensures LogsConnections(b, order + [slot], log + [conn])
  {
  }

  predicate SweepDue(b: Book, now: int) {
    now - b.lastCheck >= CHECK_INTERVAL
  }

  // A sweep of `start` that has freed `done` so far, always the earliest first.
  ghost predicate SweepSoFar(start: Book, now: int, done: seq<nat>, b: Book) {
    && b == Sweep(start, now, done)
    && NoDuplicates(done)
    && (forall i :: i in done ==> i in start.occupied && start.occupied[i].deadline <= now)
    && (forall i: nat, j: nat :: i < j < |done| ==> InTurn(start, done, i, j))
    && (forall i, j :: i in done && j in b.occupied ==> start.occupied[i].deadline <= start.occupied[j].deadline)
  }

  lemma SweepStart(start: Book, now: int)
    ensures SweepSoFar(start, now, [], start.(lastCheck := now))
  {
    assert start.occupied - {} == start.occupied;
  }

  lemma SweepStep(start: Book, now: int, done: seq<nat>, b: Book, i: nat)
    requires SweepSoFar(start, now, done, b)
    requires i in b.occupied && b.occupied[i].deadline <= now
    requires forall j :: j in b.occupied ==> b.occupied[i].deadline <= b.occupied[j].deadline
    ensures SweepSoFar(start, now, done + [i], Delete(b, i))
    ensures Logs(start, i, b.occupied[i].conn)
  {
    NoDuplicatesAppend(done, i);
    var more := done + [i];
    assert (set j | j in more) == (set j | j in done) + {i};
    assert Delete(b, i).occupied == start.occupied - (set j | j in more);
    forall j: nat, k: nat | j < k < |more|
      ensures InTurn(start, more, j, k)
    {
      if k < |done| { assert InTurn(start, done, j, k); } else { assert done[j] in done; }
    }
  }

  lemma SweepEnd(start: Book, now: int, done: seq<nat>, b: Book)
    requires SweepSoFar(start, now, done, b)
    requires forall j :: j in b.occupied ==> b.occupied[j].deadline > now
    ensures SweepOrder(start, now, done)
  {
    forall i | i in start.occupied && start.occupied[i].deadline <= now
      ensures i in done
    {
      assert i in done || i in b.occupied;
    }
  }
}
