/**
 The connection container of src/common/container_impl.cc: a slot vector, a list of free
 slots and a multimap of deadlines whose iterators the slots hold.  Each method is one
 section under `_conn_mtx`; together they implement the operations of `ContainerBook`.
 */
module Container {
  import opened ContainerBook
  import opened ConnectionId
  import opened Sequences
  import opened Wrappers
  import M = Multimap

  // std::pair<std::shared_ptr<Connection>, TimeoutRecordMap::iterator>
  datatype Slot = Slot(first: Option<Connection>, second: M.Iterator)

  type Records = M.Multimap<nat>

  // What AttachEndpointImpl ends in; the last is the undefined front() of an empty list.
  datatype AttachResult = Refused | Attached(conn: Connection) | FrontOfEmptyList

  ghost predicate SlotOk(mgr: seq<Slot>, records: Records, i: nat)
    requires i < |mgr|
  {
    if mgr[i].first.None? then !mgr[i].second.At?
    else mgr[i].second.At? && mgr[i].second.id in records.nodes && records.nodes[mgr[i].second.id].value == i
  }

  ghost predicate RecordOk(mgr: seq<Slot>, records: Records, id: nat)
    requires id in records.nodes
  {
    var i := records.nodes[id].value;
    i < |mgr| && mgr[i].first.Some? && mgr[i].second == M.At(id)
  }

  // Slots and timeout records designate each other.
  ghost predicate Agree(mgr: seq<Slot>, records: Records) {
    && (forall i: nat :: i < |mgr| ==> SlotOk(mgr, records, i))
    && (forall id :: id in records.nodes ==> RecordOk(mgr, records, id))
  }

  // The free list is duplicate-free and holds exactly the empty slots.
  ghost predicate FreeOk(mgr: seq<Slot>, free: seq<nat>) {
    && NoDuplicates(free)
    && (forall k :: 0 <= k < |free| ==> free[k] < |mgr| && mgr[free[k]].first.None?)
    && (forall i: nat :: i < |mgr| && mgr[i].first.None? ==> i in free)
  }

  // The connection in a slot and the deadline its record gives it.
  function OccupantOf(slot: Slot, records: Records): Occupant
    requires slot.first.Some? && slot.second.At? && slot.second.id in records.nodes
  {
    Occupant(slot.first.value, records.nodes[slot.second.id].key)
  }

  predicate Holds(slot: Slot, records: Records) {
    slot.first.Some? && slot.second.At? && slot.second.id in records.nodes
  }

  ghost function Occupied(mgr: seq<Slot>, records: Records): map<nat, Occupant> {
    map i: nat | i < |mgr| && Holds(mgr[i], records) :: OccupantOf(mgr[i], records)
  }

  // Empty slots appended to the vector, and put on the empty free list.
  lemma GrowKeepsValid(mgr: seq<Slot>, grown: seq<Slot>, records: Records)
    requires Agree(mgr, records) && FreeOk(mgr, [])
    requires |mgr| <= |grown| && grown[..|mgr|] == mgr
    requires forall i :: |mgr| <= i < |grown| ==> grown[i] == Slot(None, M.End)
    ensures Agree(grown, records) && FreeOk(grown, Range(|mgr|, |grown|))
    ensures Occupied(grown, records) == Occupied(mgr, records)
  {
    forall i: nat | i < |grown|
      ensures SlotOk(grown, records, i)
    {
      if i < |mgr| { assert SlotOk(mgr, records, i); }
    }
    forall id | id in records.nodes
      ensures RecordOk(grown, records, id)
    {
      assert RecordOk(mgr, records, id);
    }
    forall i: nat | i < |grown| && grown[i].first.None?
      ensures i in Range(|mgr|, |grown|)
    {
      RangeMembers(|mgr|, |grown|, i);
    }
  }

  // A slot whose connection is gone: no record, back on the free list.
  function Released(mgr: seq<Slot>, i: nat): seq<Slot>
    requires i < |mgr|
  {
    mgr[i := Slot(None, M.End)]
  }

  lemma ReleasedOccupied(mgr: seq<Slot>, records: Records, i: nat)
    requires Agree(mgr, records) && i < |mgr| && Holds(mgr[i], records) && mgr[i].second.id in records.order
    ensures Occupied(Released(mgr, i), M.Erase(records, mgr[i].second.id)) == Occupied(mgr, records) - {i}
  {
    var o, o' := Occupied(mgr, records), Occupied(Released(mgr, i), M.Erase(records, mgr[i].second.id));
    forall j: nat
      ensures j in o' <==> j in o && j != i
      ensures j in o' ==> o'[j] == o[j]
    {
      if j < |mgr| { assert SlotOk(mgr, records, j) && SlotOk(mgr, records, i); }
    }
    assert o'.Keys == (o - {i}).Keys;
  }

  lemma ReleaseKeepsAgree(mgr: seq<Slot>, records: Records, i: nat)
    requires M.Valid(records) && Agree(mgr, records)
    requires i < |mgr| && Holds(mgr[i], records) && mgr[i].second.id in records.order
    ensures var records' := M.Erase(records, mgr[i].second.id);
            && M.Valid(records') && Agree(Released(mgr, i), records')
            && Occupied(Released(mgr, i), records') == Occupied(mgr, records) - {i}
  {
    var id := mgr[i].second.id;
    var mgr', records' := Released(mgr, i), M.Erase(records, id);
    M.EraseValid(records, id);
    forall j: nat | j < |mgr'|
      ensures SlotOk(mgr', records', j)
    {
      assert SlotOk(mgr, records, j) && SlotOk(mgr, records, i);
    }
    forall r | r in records'.nodes
      ensures RecordOk(mgr', records', r)
    {
      assert RecordOk(mgr, records, r);
    }
    ReleasedOccupied(mgr, records, i);
  }

  lemma FreeAppend(mgr: seq<Slot>, mgr': seq<Slot>, free: seq<nat>, i: nat)
    requires FreeOk(mgr, free) && i < |mgr| && mgr[i].first.Some? && mgr' == Released(mgr, i)
    ensures FreeOk(mgr', free + [i])
  {
    NoDuplicatesAppend(free, i);
    forall j: nat | j < |mgr'| && mgr'[j].first.None?
      ensures j in free + [i]
    {
      if j == i { assert (free + [i])[|free|] == i; } else { assert j in free; }
    }
  }

  lemma FilledOccupied(mgr: seq<Slot>, records: Records, i: nat, conn: Connection, deadline: int)
    requires M.Valid(records) && Agree(mgr, records) && i < |mgr|
    ensures Occupied(mgr[i := Slot(Some(conn), M.At(records.nextId))], M.Insert(records, deadline, i))
         == Occupied(mgr, records)[i := Occupant(conn, deadline)]
  {
    var o := Occupied(mgr, records);
    var o' := Occupied(mgr[i := Slot(Some(conn), M.At(records.nextId))], M.Insert(records, deadline, i));
    forall j: nat
      ensures j in o' <==> j in o || j == i
      ensures j in o' && j != i ==> o'[j] == o[j]
    {
      if j < |mgr| { assert SlotOk(mgr, records, j); }
    }
    assert o'.Keys == o.Keys + {i};
  }

  // A slot filled, or refilled, with a connection whose record is new.
  lemma FillKeepsAgree(mgr: seq<Slot>, records: Records, i: nat, conn: Connection, deadline: int)
    requires M.Valid(records) && Agree(mgr, records) && i < |mgr| && !mgr[i].second.At?
    ensures var records' := M.Insert(records, deadline, i);
            var mgr' := mgr[i := Slot(Some(conn), M.At(records.nextId))];
            && M.Valid(records') && Agree(mgr', records')
            && Occupied(mgr', records') == Occupied(mgr, records)[i := Occupant(conn, deadline)]
  {
    var records' := M.Insert(records, deadline, i);
    var mgr' := mgr[i := Slot(Some(conn), M.At(records.nextId))];
    M.InsertValid(records, deadline, i);
    forall j: nat | j < |mgr'|
      ensures SlotOk(mgr', records', j)
    {
      assert SlotOk(mgr, records, j);
    }
    forall r | r in records'.nodes
      ensures RecordOk(mgr', records', r)
    {
      if r != records.nextId { assert RecordOk(mgr, records, r) && SlotOk(mgr, records, i); }
    }
    FilledOccupied(mgr, records, i, conn, deadline);
  }

  lemma FreeTake(mgr: seq<Slot>, free: seq<nat>, slot: Slot)
    requires FreeOk(mgr, free) && free != [] && slot.first.Some?
    ensures FreeOk(mgr[free[0] := slot], free[1..])
  {
    var mgr' := mgr[free[0] := slot];
    NoDuplicatesTail(free);
    forall i: nat | i < |mgr'| && mgr'[i].first.None?
      ensures i in free[1..]
    {
      assert i in free && i != free[0];
    }
  }

  lemma FreeSwap(mgr: seq<Slot>, free: seq<nat>, i: nat, slot: Slot)
    requires FreeOk(mgr, free) && i < |mgr| && mgr[i].first.Some? && slot.first.Some?
    ensures FreeOk(mgr[i := slot], free)
  {
  }

  // A slot's record is replaced by one with a new deadline.
  function Rearmed(mgr: seq<Slot>, records: Records, i: nat): seq<Slot>
    requires i < |mgr|
  {
    mgr[i := mgr[i].(second := M.At(records.nextId))]
  }

  lemma PutBack(o: map<nat, Occupant>, i: nat, v: Occupant)
    ensures (o - {i})[i := v] == o[i := v]
  {
  }

  lemma RefreshKeepsAgree(mgr: seq<Slot>, records: Records, i: nat, deadline: int)
    requires M.Valid(records) && Agree(mgr, records)
    requires i < |mgr| && Holds(mgr[i], records) && mgr[i].second.id in records.order
    ensures var records' := M.Insert(M.Erase(records, mgr[i].second.id), deadline, i);
            && M.Valid(records') && Agree(Rearmed(mgr, records, i), records')
            && Occupied(Rearmed(mgr, records, i), records')
            == Occupied(mgr, records)[i := OccupantOf(mgr[i], records).(deadline := deadline)]
  {
    var erased := M.Erase(records, mgr[i].second.id);
    var empty, filled := Released(mgr, i), Slot(mgr[i].first, M.At(records.nextId));
    ReleaseKeepsAgree(mgr, records, i);
    FillKeepsAgree(empty, erased, i, mgr[i].first.value, deadline);
    assert Rearmed(mgr, records, i) == empty[i := filled];
    PutBack(Occupied(mgr, records), i, OccupantOf(mgr[i], records).(deadline := deadline));
  }

  lemma SlotOccupied(mgr: seq<Slot>, records: Records, i: nat)
    requires Agree(mgr, records) && i < |mgr|
    ensures mgr[i].first.Some? <==> Holds(mgr[i], records)
    ensures Holds(mgr[i], records) <==> i in Occupied(mgr, records)
    ensures Holds(mgr[i], records) ==> Occupied(mgr, records)[i] == OccupantOf(mgr[i], records)
  {
    assert SlotOk(mgr, records, i);
  }

  lemma InitialValid(size: nat)
    ensures var mgr := seq(size, _ => Slot(None, M.Singular));
            && M.Valid(M.Empty<nat>()) && Agree(mgr, M.Empty()) && FreeOk(mgr, Range(0, size))
            && Occupied(mgr, M.Empty()) == map[]
  {
    var mgr := seq(size, _ => Slot(None, M.Singular));
    forall i: nat | i < |mgr| ensures i in Range(0, size) { RangeMembers(0, size, i); }
    assert Occupied(mgr, M.Empty()).Keys == {};
  }

  lemma NoRecordsNoOccupants(mgr: seq<Slot>, records: Records)
    requires M.Valid(records) && Agree(mgr, records) && records.order == []
    ensures Occupied(mgr, records) == map[]
  {
    forall j | j in Occupied(mgr, records)
      ensures false
    {
      M.FirstIsEarliest(records, mgr[j].second.id);
    }
    assert Occupied(mgr, records).Keys == {};
  }

  /** There are as many timeout records as occupied slots. */
  lemma {:induction false} RecordCount(mgr: seq<Slot>, records: Records)
    requires M.Valid(records) && Agree(mgr, records)
    ensures |records.order| == |Occupied(mgr, records)|
    decreases |records.order|
  {
    if records.order == [] {
      NoRecordsNoOccupants(mgr, records);
    } else {
      var id := records.order[0];
      assert id in records.order && RecordOk(mgr, records, id);
      var i := records.nodes[id].value;
      SlotOccupied(mgr, records, i);
      ReleaseKeepsAgree(mgr, records, i);
      M.EraseFirst(records);
      RecordCount(Released(mgr, i), M.Erase(records, id));
    }
  }

  class Container {
    const option: Options
    var mgr: seq<Slot>
    var records: Records
    var free: seq<nat>
    var lastCheck: int

    ghost predicate Valid()
      reads this
    {
      M.Valid(records) && Agree(mgr, records) && FreeOk(mgr, free)
    }

    ghost function Book(): Book
      reads this
      requires Valid()
    {
      ContainerBook.Book(|mgr|, Occupied(mgr, records), free, lastCheck)
    }

    lemma FreeOrRecorded(i: nat)
      requires Valid()
      ensures i in free <==> i < |mgr| && forall id :: id in records.nodes ==> records.nodes[id].value != i
    {
      if i < |mgr| { assert SlotOk(mgr, records, i); }
      forall id | id in records.nodes ensures records.nodes[id].value < |mgr| && mgr[records.nodes[id].value].first.Some? {
        assert RecordOk(mgr, records, id);
      }
    }

    /** Free slots and timeout records together are all the slots, and a slot is free exactly
        when no record designates it. */
    lemma CountsAddUp()
      requires Valid()
      ensures FreeExact(Book())
      ensures |records.order| == |Book().occupied|
      ensures |free| + |records.order| == |mgr|
      ensures forall i: nat :: i in free <==> i < |mgr| && forall id :: id in records.nodes ==> records.nodes[id].value != i
    {
      forall i: nat | i < |mgr| ensures i in Book().occupied <==> mgr[i].first.Some? {
        SlotOccupied(mgr, records, i);
      }
      FreeCount(Book());
      RecordCount(mgr, records);
      forall i: nat
        ensures i in free <==> i < |mgr| && forall id :: id in records.nodes ==> records.nodes[id].value != i
      {
        FreeOrRecorded(i);
      }
    }

    // The slot setup in Init().
    constructor (option: Options, now: int)
      ensures Valid() && this.option == option && Book() == Initial(option, now)
    {
      this.option := option;
      InitialValid(option.defaultSize);
      mgr := seq(option.defaultSize, _ => Slot(None, M.Singular));
      records := M.Empty();
      free := Range(0, option.defaultSize);
      lastCheck := now;
    }

    // Append empty slots up to the grown size and put them on the free list.
    method Expand()
      requires Valid() && free == [] && |mgr| < option.maxSize
      modifies this`mgr, this`free
      ensures Valid() && Book() == Ready(old(Book()), option)
    {
      var count := |mgr|;
      var expand := if count * 2 < option.maxSize then count * 2 else option.maxSize;
      for i := count to expand
        invariant |mgr| == i && mgr[..count] == old(mgr)
        invariant forall j :: count <= j < i ==> mgr[j] == Slot(None, M.End)
        invariant free == Range(count, i)
      {
        mgr := mgr + [Slot(None, M.End)];
        free := free + [i];
      }
      GrowKeepsValid(old(mgr), mgr, records);
    }

    // The second half of AttachEndpointImpl, with a slot free.
    method Occupy(handle: nat, port: nat, now: int) returns (conn: Connection)
      requires Valid() && free != []
      modifies this`mgr, this`records, this`free
      ensures Valid() && |mgr| == |old(mgr)| && free == old(free)[1..]
      ensures conn == NewConnection(option, handle, port, old(free[0]))
      ensures conn.handle == handle && conn.port == port && conn.cid == BuildConnectionId(option.magic, port, old(free[0]))
      ensures Occupied(mgr, records)
           == old(Occupied(mgr, records))[old(free[0]) := Occupant(conn, now + option.timeout)]
    {
      var index := free[0];
      var cid := BuildConnectionId(option.magic, port, index);
      var deadline := now + option.timeout;
      conn := Connection(handle, port, cid);
      assert SlotOk(mgr, records, index);
      FillKeepsAgree(mgr, records, index, conn, deadline);
      FreeTake(mgr, free, Slot(Some(conn), M.At(records.nextId)));
      free := free[1..];
      mgr := mgr[index := Slot(Some(conn), M.At(records.nextId))];
      records := M.Insert(records, deadline, index);
    }

    /** Attach takes the first free slot, growing the vector when there is none.  A vector of
        size zero below the maximum does not grow, and then the first free slot is asked of an
        empty list. */
    method AttachEndpointImpl(handle: nat, port: nat, now: int) returns (r: AttachResult)
      requires Valid()
      modifies this`mgr, this`records, this`free
      ensures Valid()
      ensures r.Refused? <==> Full(old(Book()), option)
      ensures r.FrontOfEmptyList? <==> |old(mgr)| == 0 < option.maxSize
      ensures !r.Attached? ==> Book() == old(Book())
      ensures r.Attached? ==>
                && Ready(old(Book()), option).free != []
                && Book() == Attach(old(Book()), option, handle, port, now)
                && r.conn == NewConnection(option, handle, port, Ready(old(Book()), option).free[0])
                && r.conn.handle == handle && r.conn.port == port
    {
      if free == [] && |mgr| >= option.maxSize {
        return Refused;
      }
      if free == [] {
        Expand();
      }
      if free == [] {
        return FrontOfEmptyList;
      }
      var conn := Occupy(handle, port, now);
      r := Attached(conn);
    }

    // Drop the connection, its record and the slot's claim on both.
    method Release(index: nat)
      requires Valid() && index < |mgr| && mgr[index].first.Some?
      modifies this`mgr, this`records, this`free
      ensures Valid()
      ensures Book() == Delete(old(Book()), index) && index in old(Book()).occupied
      ensures mgr == Released(old(mgr), index)
      ensures old(mgr[index].second).At? && old(mgr[index].second).id in old(records).order
      ensures records == M.Erase(old(records), old(mgr[index].second).id)
    {
      assert SlotOk(mgr, records, index);
      ReleaseKeepsAgree(mgr, records, index);
      FreeAppend(mgr, Released(mgr, index), free, index);
      mgr := mgr[index := mgr[index].(first := None)];
      records := M.Erase(records, mgr[index].second.id);
      mgr := mgr[index := mgr[index].(second := M.End)];
      free := free + [index];
      assert mgr == Released(old(mgr), index);
    }

    // Here and below `inBounds` is false where the source's `_mgr[index]` is undefined.
    method DeleteConnection(index: nat) returns (inBounds: bool)
      requires Valid()
      modifies this`mgr, this`records, this`free
      ensures Valid() && Book() == Delete(old(Book()), index)
      ensures inBounds <==> index < |old(mgr)|
    {
      if index >= |mgr| { return false; }
      inBounds := true;
      if mgr[index].first.None? {
        return;
      }
      Release(index);
    }

    // Replace an occupied slot's record.
    method Rearm(index: nat, deadline: int)
      requires Valid() && index < |mgr| && Holds(mgr[index], records)
      modifies this`mgr, this`records
      ensures Valid() && |mgr| == |old(mgr)|
      ensures Occupied(mgr, records)
           == old(Occupied(mgr, records))[index := OccupantOf(old(mgr)[index], old(records)).(deadline := deadline)]
    {
      RefreshKeepsAgree(mgr, records, index, deadline);
      FreeSwap(mgr, free, index, mgr[index].(second := M.At(records.nextId)));
      var erased := M.Erase(records, mgr[index].second.id);
      mgr := mgr[index := mgr[index].(second := M.At(records.nextId))];
      records := M.Insert(erased, deadline, index);
    }

    method RefreshTime(index: nat, now: int) returns (inBounds: bool)
      requires Valid()
      modifies this`mgr, this`records
      ensures Valid() && Book() == Refresh(old(Book()), option, index, now)
      ensures inBounds <==> index < |old(mgr)|
    {
      if index >= |mgr| { return false; }
      inBounds := true;
      SlotOccupied(mgr, records, index);
      if mgr[index].first.None? {
        return;
      }
      Rearm(index, now + option.timeout);
    }

    method GetConnection(index: nat) returns (inBounds: bool, conn: Option<Connection>)
      requires Valid()
      ensures conn == if index in Book().occupied then Some(Book().occupied[index].conn) else None
      ensures inBounds <==> index < |mgr|
    {
      if index >= |mgr| { return false, None; }
      inBounds := true;
      assert SlotOk(mgr, records, index);
      conn := mgr[index].first;
    }

    // The slot the first record designates is the one due first.
    lemma FirstRecord()
      requires Valid() && records.order != []
      ensures var id := records.order[0];
              && id in records.nodes
              && var i := records.nodes[id].value;
              && i < |mgr| && mgr[i].first.Some? && mgr[i].second == M.At(id)
              && i in Book().occupied && Book().occupied[i].deadline == records.nodes[id].key
              && (forall j :: j in Book().occupied ==>
                    Book().occupied[i].deadline <= Book().occupied[j].deadline)
    {
      var id := records.order[0];
      assert id in records.order && RecordOk(mgr, records, id);
      forall j | j in Book().occupied
        ensures records.nodes[id].key <= Book().occupied[j].deadline
      {
        M.FirstIsEarliest(records, mgr[j].second.id);
      }
    }

    // One pass of the sweep's loop over a record that is due.
    method SweepOne(it: M.Iterator) returns (next: M.Iterator, index: nat, conn: Connection)
      requires Valid() && records.order != [] && it == M.Begin(records)
      modifies this`mgr, this`records, this`free
      ensures Valid() && next == M.Begin(records) && |records.order| < |old(records.order)|
      ensures old(it.id in records.nodes) && index == old(records.nodes[it.id].value)
      ensures index in old(Book()).occupied && Book() == Delete(old(Book()), index)
      ensures conn == old(Book()).occupied[index].conn
    {
      FirstRecord();
      index := records.nodes[it.id].value;
      next := M.Next(records, it.id);
      M.EraseFirst(records);
      conn := mgr[index].first.value;
      Release(index);
    }

    // The first record decides whether the sweep goes on, and with which slot.
    lemma DueFirst(start: Book, now: int, done: seq<nat>)
      requires Valid() && records.order != [] && SweepSoFar(start, now, done, Book())
      ensures var id := records.order[0];
              && id in records.nodes
              && var i := records.nodes[id].value;
              && i in Book().occupied
              && (records.nodes[id].key <= now ==>
                    && SweepSoFar(start, now, done + [i], Delete(Book(), i))
                    && Logs(start, i, Book().occupied[i].conn))
    {
      FirstRecord();
      var id := records.order[0];
      if records.nodes[id].key <= now {
        SweepStep(start, now, done, Book(), records.nodes[id].value);
      }
    }

    lemma SweptAll(start: Book, now: int, done: seq<nat>)
      requires Valid() && SweepSoFar(start, now, done, Book())
      requires records.order != [] ==> records.order[0] in records.nodes && records.nodes[records.order[0]].key > now
      ensures SweepOrder(start, now, done) && Book() == Sweep(start, now, done)
    {
      if records.order == [] { NoRecordsNoOccupants(mgr, records); } else { FirstRecord(); }
      SweepEnd(start, now, done, Book());
    }

    // The locked part of OnTimeoutCheck.
    method SweepRecords(ghost start: Book, now: int) returns (swept: seq<nat>, closed: seq<Connection>)
      requires Valid() && Book() == start && SweepSoFar(start, now, [], start.(lastCheck := now))
      modifies this`mgr, this`records, this`free, this`lastCheck
      ensures Valid() && SweepOrder(start, now, swept) && Book() == Sweep(start, now, swept)
      ensures LogsConnections(start, swept, closed)
    {
      swept, closed := [], [];
      lastCheck := now;
      var it := M.Begin(records);
      while it != M.End
        invariant Valid() && it == M.Begin(records)
        invariant SweepSoFar(start, now, swept, Book())
        invariant LogsConnections(start, swept, closed)
        decreases |records.order|
      {
        DueFirst(start, now, swept);
        if records.nodes[it.id].key > now {
          break;
        }
        var index, conn;
        it, index, conn := SweepOne(it);
        LogsAppend(start, swept, closed, index, conn);
        swept, closed := swept + [index], closed + [conn];
      }
      SweptAll(start, now, swept);
    }

    /** A check within 3000 ms of the last does nothing.  Otherwise it frees exactly the
        slots whose deadline has passed, although it erases records as it walks them. */
    method OnTimeoutCheck(now: int) returns (swept: seq<nat>, closed: seq<Connection>)
      requires Valid()
      modifies this`mgr, this`records, this`free, this`lastCheck
      ensures Valid()
      ensures now - old(lastCheck) < 3000 ==> swept == [] && closed == [] && Book() == old(Book())
      ensures now - old(lastCheck) >= 3000 ==>
                SweepOrder(old(Book()), now, swept) && Book() == Sweep(old(Book()), now, swept)
      ensures LogsConnections(old(Book()), swept, closed)
    {
      if now - lastCheck < CHECK_INTERVAL {
        return [], [];
      }
      SweepStart(Book(), now);
      swept, closed := SweepRecords(Book(), now);
    }
  }
}
