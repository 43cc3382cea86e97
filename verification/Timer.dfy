/** src/utils/timer.cc: requests go through a queue into a deadline-ordered table and fire from there. */
module Timer {
  import opened Sequences
  import opened Words
  import M = Multimap

  const MAX_FIRINGS: nat := 3
  const MAX_PASS_MS: int := 300

  // A request: its deadline and its packed ids.
  type Request = M.Entry<nat>

  function Pack(tid1: nat, tid2: nat): nat {
    tid1 * WORD + tid2
  }

  // A call of the handler and the time the pass that made it began.
  datatype Call = Call(tid1: nat, tid2: nat, at: int)

  /** The two ids come back out of the packed word, and the word out of the two. */
  lemma PackRoundTrip(tid1: nat, tid2: nat)
    requires tid1 < WORD && tid2 < WORD
    ensures Pack(tid1, tid2) / WORD == tid1 && Pack(tid1, tid2) % WORD == tid2
    ensures Pack(tid1, tid2) < WORD * WORD
  {
  }

  // Each call is the request fired, no earlier than its deadline.
  ghost predicate Answers(call: Call, r: Request) {
    r.value == Pack(call.tid1, call.tid2) && call.tid2 < WORD && r.key <= call.at
  }

  ghost predicate InsertedBehind(before: seq<Request>, r: Request, after: seq<Request>, k: nat)
    requires k <= |before|
  {
    && after == before[..k] + [r] + before[k..]
    && (forall i :: 0 <= i < k ==> before[i].key <= r.key)
    && (forall i :: k <= i < |before| ==> before[i].key > r.key)
  }

  // `after` is `before` with r put in behind every request that is due no later.
  ghost predicate Inserted(before: seq<Request>, r: Request, after: seq<Request>) {
    exists k :: 0 <= k <= |before| && InsertedBehind(before, r, after, k)
  }

  // None of the first n handler calls was slow.
  ghost predicate Prompt(clock: seq<int>, begin: int, n: nat)
    requires n <= |clock|
  {
    forall j :: 0 <= j < n ==> clock[j] - begin <= 300
  }

  class Timer {
    var mq: seq<Request>
    var tbls: M.Multimap<nat>
    var shutdown: bool
    var calls: seq<Call>                    // the handler calls made
    ghost var fired: seq<Request>           // the requests they were for
    ghost var requested: multiset<Request>  // every request SetTimer has taken
    ghost var discarded: multiset<Request>  // requests deleted by Shutdown

    ghost predicate Sound()
      reads this
    {
      && M.Valid(tbls)
      && |calls| == |fired|
      && (forall k :: 0 <= k < |calls| ==> Answers(calls[k], fired[k]))
    }

    // Every request is in exactly one of queue, table, fired and discarded.
    ghost predicate Conserved()
      reads this
      requires M.Valid(tbls)
    {
      requested == multiset(mq) + multiset(M.Entries(tbls)) + multiset(fired) + discarded
    }

    ghost predicate Valid()
      reads this
    {
      Sound() && Conserved()
    }

    constructor ()
      ensures Valid() && !shutdown && requested == multiset{} && calls == []
    {
      mq, tbls, shutdown, calls := [], M.Empty(), false, [];
      fired, requested, discarded := [], multiset{}, multiset{};
    }

    method SetTimer(tid1: nat, tid2: nat, delay: nat, now: int)
      requires Valid() && tid1 < WORD && tid2 < WORD
      modifies this`mq, this`requested
      ensures Valid()
      ensures var r := M.Entry(now + delay, Pack(tid1, tid2));
              && mq == old(mq) + (if shutdown then [] else [r])
              && requested == old(requested) + (if shutdown then multiset{} else multiset{r})
    {
      if shutdown {
        return;
      }
      var r := M.Entry(now + delay, Pack(tid1, tid2));
      mq := mq + [r];
      requested := requested + multiset{r};
    }

    // Where a request with this deadline belongs.
    lemma EntriesAround(key: int)
      requires Valid()
      ensures var es, k := M.Entries(tbls), M.UpperBound(tbls, key, 0);
              && (forall i :: 0 <= i < k ==> es[i].key <= key)
              && (forall i :: k <= i < |es| ==> es[i].key > key)
    {
      var es, k := M.Entries(tbls), M.UpperBound(tbls, key, 0);
      forall i | k <= i < |es|
        ensures es[i].key > key
      {
        assert tbls.order[k] in tbls.order;
        M.EntriesSorted(tbls, k, i);
      }
    }

    // What WorkThread does with a request it popped.
    method Accept()
      requires Valid() && mq != []
      modifies this`mq, this`tbls
      ensures Valid() && mq == old(mq)[1..]
      ensures Inserted(old(M.Entries(tbls)), old(mq[0]), M.Entries(tbls))
    {
      var r := mq[0];
      ghost var es, k := M.Entries(tbls), M.UpperBound(tbls, r.key, 0);
      M.InsertValid(tbls, r.key, r.value);
      M.EntriesInsert(tbls, r.key, r.value);
      EntriesAround(r.key);
      MultisetInsert(es, k, r);
      MultisetFirst(mq);
      assert InsertedBehind(es, r, M.Entries(M.Insert(tbls, r.key, r.value)), k);
      mq, tbls := mq[1..], M.Insert(tbls, r.key, r.value);
    }

    // ... when there is one.
    method AcceptPopped(popped: bool) returns (ghost table: seq<Request>)
      requires Valid()
      modifies this`mq, this`tbls
      ensures Valid() && table == M.Entries(tbls)
      ensures if popped && old(mq) != []
              then mq == old(mq)[1..] && Inserted(old(M.Entries(tbls)), old(mq)[0], table)
              else mq == old(mq) && table == old(M.Entries(tbls))
    {
      if popped && mq != [] {
        Accept();
      }
      table := M.Entries(tbls);
    }

    // Erase the first entry of the table and call the handler for it.
    method FireFirst(begin: int)
      requires Sound() && tbls.order != [] && M.Entries(tbls)[0].key <= begin
      modifies this`tbls, this`calls, this`fired
      ensures Sound() && |tbls.order| == |old(tbls.order)| - 1
      ensures M.Entries(tbls) == old(M.Entries(tbls))[1..]
      ensures fired == old(fired) + [old(M.Entries(tbls)[0])]
      ensures |calls| == |old(calls)| + 1 && calls[..|old(calls)|] == old(calls) && calls[|old(calls)|].at == begin
    {
      M.EraseValid(tbls, tbls.order[0]);
      M.EntriesEraseFirst(tbls);
      assert tbls.order[0] in tbls.order;
      var r := tbls.nodes[tbls.order[0]];
      tbls := M.Erase(tbls, tbls.order[0]);
      calls := calls + [Call(r.value / WORD, r.value % WORD, begin)];
      fired := fired + [r];
    }

    // The firing loop.
    method FireDue(begin: int, clock: seq<int>) returns (count: nat)
      requires Sound() && |clock| >= 3
      modifies this`tbls, this`calls, this`fired
      ensures Sound() && count <= 3 && |calls| == |old(calls)| + count
      ensures var table := old(M.Entries(tbls));
              && count <= |table|
              && fired == old(fired) + table[..count] && M.Entries(tbls) == table[count..]
              && (count == |table| || table[count].key > begin || count == 3
                  || (count > 0 && clock[count - 1] - begin > 300))
      ensures forall i :: |old(calls)| <= i < |calls| ==> calls[i].at == begin
      ensures forall j :: 0 <= j < count - 1 ==> clock[j] - begin <= 300
    {
      count := 0;
      ghost var table := M.Entries(tbls);
      while tbls.order != []
        invariant Sound() && count < MAX_FIRINGS && count <= |table|
        invariant M.Entries(tbls) == table[count..]
        invariant fired == old(fired) + table[..count] && |calls| == |old(calls)| + count
        invariant forall i :: |old(calls)| <= i < |calls| ==> calls[i].at == begin
        invariant Prompt(clock, begin, count)
        decreases |tbls.order|
      {
        assert M.Entries(tbls)[0] == table[count] == tbls.nodes[tbls.order[0]];
        if tbls.nodes[tbls.order[0]].key > begin {
          break;
        }
        FireFirst(begin);
        count := count + 1;
        assert table[..count] == table[..count - 1] + [table[count - 1]];
        if count >= MAX_FIRINGS || clock[count - 1] - begin > MAX_PASS_MS {
          break;
        }
      }
    }

    lemma TableSorted()
      requires Valid()
      ensures forall i, j :: 0 <= i <= j < |M.Entries(tbls)| ==> M.Entries(tbls)[i].key <= M.Entries(tbls)[j].key
    {
      forall i, j | 0 <= i <= j < |M.Entries(tbls)|
        ensures M.Entries(tbls)[i].key <= M.Entries(tbls)[j].key
      {
        M.EntriesSorted(tbls, i, j);
      }
    }

    /** One pass of WorkThread.  `popped` says whether the queue yielded a request, `clock` is
        what the time is after each handler call, and `table` the table once the request is in.
        The pass fires the first `count` entries of the table, at most three and none before its
        deadline (Valid: each call's time is no earlier than its request's deadline).  It stops
        when nothing else is due, at three, or at the first call after which more than 300 ms
        have passed, and for no other reason, which fixes `count`. */
    method Pass(popped: bool, begin: int, clock: seq<int>) returns (count: nat, ghost table: seq<Request>)
      requires Valid() && |clock| >= 3
      modifies this`mq, this`tbls, this`calls, this`fired
      ensures Valid()
      ensures if popped && old(mq) != []
              then mq == old(mq)[1..] && Inserted(old(M.Entries(tbls)), old(mq)[0], table)
              else mq == old(mq) && table == old(M.Entries(tbls))
      ensures count <= 3 && count <= |table|
      ensures fired == old(fired) + table[..count] && M.Entries(tbls) == table[count..]
      ensures forall i, j :: 0 <= i <= j < |table| ==> table[i].key <= table[j].key
      ensures |calls| == |old(calls)| + count
      ensures forall i :: |old(calls)| <= i < |calls| ==> calls[i].at == begin
      ensures count == |table| || table[count].key > begin || count == 3
              || (count > 0 && clock[count - 1] - begin > 300)
      ensures forall j :: 0 <= j < count - 1 ==> clock[j] - begin <= 300
    {
      table := AcceptPopped(popped);
      TableSorted();
      ghost var before := fired;
      count := FireDue(begin, clock);
      MultisetMove(before, table, count);
      MultisetRegroup(multiset(mq), multiset(table), multiset(before), multiset(M.Entries(tbls)), multiset(fired), discarded);
    }

    method DiscardFirst()
      requires Valid() && mq != []
      modifies this`mq, this`discarded
      ensures Valid() && mq == old(mq)[1..] && discarded == old(discarded) + multiset{old(mq[0])}
    {
      MultisetFirst(mq);
      discarded := discarded + multiset{mq[0]};
      mq := mq[1..];
    }

    method Shutdown()
      requires Valid()
      modifies this`shutdown, this`mq, this`discarded
      ensures Valid() && shutdown
      ensures !old(shutdown) ==> mq == [] && discarded == old(discarded) + multiset(old(mq))
      ensures old(shutdown) ==> mq == old(mq) && discarded == old(discarded)
    {
      if shutdown {
        return;
      }
      shutdown := true;
      while mq != []
        invariant Valid() && shutdown && discarded + multiset(mq) == old(discarded) + multiset(old(mq))
        decreases |mq|
      {
        MultisetFirst(mq);
        DiscardFirst();
      }
    }
  }
}
