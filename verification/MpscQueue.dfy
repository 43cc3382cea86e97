/**
 The queue of src/utils/mpscq.cc on the heap, for callers that have it to themselves:
 the shutdown drains run after every other thread has stopped.  `MpscProtocol` gives
 the interleaved behaviour.
 */
module MpscQueue {
  import opened Sequences
  import opened Words

  class Node {
    var next: Node?

    constructor ()
      ensures next == null
    {
      next := null;
    }
  }

  class Queue {
    var newest: Node
    var oldest: Node
    const stub: Node
    ghost var chain: seq<Node>  // from oldest to newest

    ghost predicate Valid()
      reads this, chain
    {
      && |chain| > 0 && chain[0] == oldest && chain[|chain| - 1] == newest && newest.next == null
      && (forall i, j :: 0 <= i < j < |chain| ==> chain[i] != chain[j])
      && (forall i, j :: 0 <= i < j < |chain| && j == i + 1 ==> chain[i].next == chain[j])
    }

    ghost function Contents(): seq<Node>
      reads this
    {
      Without(chain, stub)
    }

    constructor ()
      ensures Valid() && Contents() == [] && fresh(stub)
    {
      var s := new Node();
      stub := s;
      newest := s;
      oldest := s;
      chain := [s];
      new;
      assert Contents() == Without(chain[1..], stub) == [];
    }

    // The destructor's two assertions hold exactly when only the stub is left.
    predicate Drained()
      reads this
    {
      newest == stub && oldest == stub
    }

    method Push(node: Node) returns (first: bool)
      requires Valid() && node !in chain
      modifies this, node, newest
      ensures Valid()
      ensures chain == old(chain) + [node]
      ensures Contents() == old(Contents()) + if node == stub then [] else [node]
      ensures first == (old(newest) == stub)
    {
      node.next := null;
      var prev := newest;
      newest := node;
      prev.next := node;
      first := prev == stub;
      chain := chain + [node];
      WithoutConcat(old(chain), [node], stub);
      WithoutSingle(node, stub);
    }

    // The oldest node's link says whether it is the only one.
    lemma OldestLink()
      requires Valid()
      ensures oldest.next == if |chain| == 1 then null else chain[1]
    {
    }

    // Move past the oldest node, which has a successor.
    method Advance(obj: Node)
      requires Valid() && oldest.next == obj
      modifies this`oldest, this`chain
      ensures Valid() && chain == old(chain)[1..] && oldest == obj
      ensures old(oldest) !in chain
      ensures old(oldest) == stub ==> Contents() == old(Contents())
      ensures old(oldest) != stub ==> old(Contents()) == [old(oldest)] + Contents()
    {
      assert obj == chain[1];
      oldest := obj;
      chain := chain[1..];
    }

    method PopAndCheckEnd() returns (r: Node?, empty: bool)
      requires Valid()
      modifies this, chain, stub
      ensures Valid()
      ensures forall i :: 0 <= i < |chain| ==> chain[i] in old(chain) || chain[i] == stub
      ensures old(Contents()) == [] ==> r == null && empty && Contents() == [] && Drained()
      ensures old(Contents()) != [] ==>
                && r == old(Contents())[0] && !empty
                && Contents() == old(Contents())[1..] && r !in chain
    {
      var tail := oldest;
      var obj := oldest.next;
      OldestLink();
      if tail == stub {
        if obj == null {
          assert chain[1..] == [] && Contents() == Without(chain[1..], stub) == [];
          return null, true;
        }
        Advance(obj);
        tail := obj;
        obj := tail.next;
      }
      assert Contents() == old(Contents()) && tail == oldest && tail != stub && tail == Contents()[0];
      if obj != null {
        Advance(obj);
        return tail, false;
      }
      OldestLink();
      var head := newest;
      if tail != head {
        return null, false;
      }
      assert Contents() == [tail] + Without(chain[1..], stub) == [tail];
      var _ := Push(stub);
      OldestLink();
      obj := tail.next;
      if obj != null {
        Advance(obj);
        return tail, false;
      }
      return null, false;
    }
  }

  lemma DeletedNext(deleted: seq<Node>, rest: seq<Node>, n: Node)
    requires rest != [] && rest[0] == n
    ensures deleted + rest == (deleted + [n]) + rest[1..]
  {
  }

  // The 32-bit counter after n subtractions of one.
  function Subtracted(count: nat, n: nat): nat {
    if n == 0 then count else (Subtracted(count, n - 1) + WORD - 1) % WORD
  }

  lemma SubtractOne(s: nat, n: nat)
    requires s < WORD && n > 0
    ensures var s' := (s + WORD - 1) % WORD; s' < WORD && (s' + n) % WORD == (s + (n - 1)) % WORD
  {
    if s == 0 {
      assert (s + WORD - 1) % WORD == WORD - 1;
      assert WORD - 1 + n == (n - 1) + WORD;
    } else {
      assert s + WORD - 1 == (s - 1) + WORD;
      assert (s + WORD - 1) % WORD == s - 1;
    }
  }

  lemma SameRemainder(s: nat, n: nat)
    requires s < WORD && (s + n) % WORD == n % WORD
    ensures s == 0
  {
    var r := n % WORD;
    assert (s + n) % WORD == (s + r) % WORD;
    assert s + r < WORD ==> (s + r) % WORD == s + r;
  }

  lemma {:induction false} SubtractedExactly(count: nat, n: nat)
    requires count < WORD
    ensures Subtracted(count, n) < WORD && (Subtracted(count, n) + n) % WORD == count
  {
    if n > 0 {
      SubtractedExactly(count, n - 1);
      SubtractOne(Subtracted(count, n - 1), n);
    }
  }

  /** The loop at the end of ContainerImpl::Shutdown: with nobody else left it terminates,
      deletes every remaining message exactly once in queue order, takes as many off the
      32-bit message count, which is then zero if it was in step with the queue
      (MessageCount.StoppedCounter), and leaves the queue as its destructor demands. */
  method Drain(q: Queue, count: nat) returns (left: nat, deleted: seq<Node>)
    requires q.Valid() && count < WORD
    modifies q, q.chain, q.stub
    ensures q.Valid() && q.Contents() == [] && q.Drained()
    ensures deleted == old(q.Contents())
    ensures left < WORD && (left + |deleted|) % WORD == count
    ensures count == |deleted| % WORD ==> left == 0
  {
    left, deleted := count, [];
    var empty := true;
    while true
      invariant q.Valid() && left == Subtracted(count, |deleted|)
      invariant forall i :: 0 <= i < |q.chain| ==> q.chain[i] in old(q.chain) || q.chain[i] == q.stub
      invariant old(q.Contents()) == deleted + q.Contents()
      decreases |q.Contents()|
    {
      ghost var rest := q.Contents();
      var n;
      n, empty := q.PopAndCheckEnd();
      if n != null {
        left := (left + WORD - 1) % WORD;
        DeletedNext(deleted, rest, n);
        deleted := deleted + [n];
      }
      if empty { break; }
    }
    SubtractedExactly(count, |deleted|);
    if count == |deleted| % WORD { SameRemainder(left, |deleted|); }
  }
}
