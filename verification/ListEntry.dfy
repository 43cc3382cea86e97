/**
 src/utils/list_entry.cc: circular doubly linked lists through embedded entries.  A ring is
 given by the sequence of its entries; when its first entry is the list's head, the others
 are the list.  No operation writes to an entry outside the ring and the item it is given,
 so every other ring stays as it was.
 */
module ListEntry {
  import opened Sequences

  class Entry {
    var prev: Entry?
    var next: Entry?

    // RAPTOR_LIST_ENTRY_INIT: an entry on no ring.
    constructor ()
      ensures prev == null && next == null
    {
      prev, next := null, null;
    }

    // RAPTOR_LIST_INIT: the head of an empty list.
    constructor Head()
      ensures Ring([this])
    {
      prev, next := this, this;
    }
  }

  // The place after i on a ring of n.
  function After(i: nat, n: nat): nat
    requires i < n
  {
    if i + 1 == n then 0 else i + 1
  }

  ghost predicate Linked(r: seq<Entry>, i: nat)
    requires i < |r|
    reads r
  {
    r[i].next == r[After(i, |r|)] && r[After(i, |r|)].prev == r[i]
  }

  // The entries of r, in order, form one ring: `next` and `prev` are inverse around it.
  ghost predicate Ring(r: seq<Entry>)
    reads r
  {
    && |r| > 0
    && (forall i, j :: 0 <= i < j < |r| ==> r[i] != r[j])
    && (forall i: nat :: i < |r| ==> Linked(r, i))
  }

  /** A ring read from another of its entries is the same ring. */
  lemma Rotation(r: seq<Entry>, k: nat)
    requires Ring(r) && k < |r|
    ensures Ring(r[k..] + r[..k])
  {
    var n, q := |r|, r[k..] + r[..k];
    assert forall i :: 0 <= i < n ==> q[i] == r[if i + k < n then i + k else i + k - n];
    forall i: nat | i < n
      ensures Linked(q, i)
    {
      assert Linked(r, if i + k < n then i + k else i + k - n);
    }
  }

  method PushFront(head: Entry, item: Entry, ghost r: seq<Entry>)
    requires Ring(r) && r[0] == head && item !in r
    modifies r, item
    ensures Ring([head, item] + r[1..])
    ensures forall i :: 2 <= i < |r| ==> unchanged(r[i])
  {
    assert Linked(r, 0) && Linked(r, |r| - 1);
    var first := head.next;
    head.next := item;
    item.prev := head;
    item.next := first;
    first.prev := item;
    ghost var q := [head, item] + r[1..];
    forall i: nat | i < |q|
      ensures Linked(q, i)
    {
      if i >= 2 { assert old(Linked(r, i - 1)); }
    }
  }

  method PushBack(head: Entry, item: Entry, ghost r: seq<Entry>)
    requires Ring(r) && r[0] == head && item !in r
    modifies r, item
    ensures Ring(r + [item])
    ensures forall i :: 1 <= i < |r| - 1 ==> unchanged(r[i])
  {
    assert Linked(r, |r| - 1);
    var last := head.prev;
    last.next := item;
    item.prev := last;
    item.next := head;
    head.prev := item;
    ghost var q := r + [item];
    forall i: nat | i < |q|
      ensures Linked(q, i)
    {
      if i < |r| - 1 { assert old(Linked(r, i)); }
    }
  }

  // Two entries around a gap are linked over it.
  lemma GapClosed(r: seq<Entry>, q: seq<Entry>, k: nat)
    requires |r| > 1 && k < |r| && q == RemoveAt(r, k)
    requires forall i, j :: 0 <= i < j < |r| ==> r[i] != r[j]
    requires forall i: nat :: i < |r| && i != k && After(i, |r|) != k ==> Linked(r, i)
    requires var p, n := if k == 0 then |r| - 1 else k - 1, After(k, |r|); r[p].next == r[n] && r[n].prev == r[p]
    ensures Ring(q)
  {
    forall i: nat | i < |q|
      ensures Linked(q, i)
    {
      var i0 := if i < k then i else i + 1;
      if After(i0, |r|) != k { assert Linked(r, i0); }
    }
  }

  method RemoveEntry(item: Entry, ghost r: seq<Entry>, ghost k: nat) returns (done: int)
    requires Ring(r) && k < |r| && r[k] == item
    modifies r
    ensures if |r| == 1 then done == 0 && unchanged(item) else done == 1 && Ring(RemoveAt(r, k)) && unchanged(item)
  {
    ghost var p := if k == 0 then |r| - 1 else k - 1;
    assert Linked(r, k) && Linked(r, p);
    if item.next == item {
      return 0;
    }
    var prior := item.prev;
    var next := item.next;
    prior.next := next;
    next.prev := prior;
    forall i: nat | i < |r| && i != k && After(i, |r|) != k
      ensures Linked(r, i)
    {
      assert old(Linked(r, i));
    }
    GapClosed(r, RemoveAt(r, k), k);
    return 1;
  }

  method PopFront(head: Entry, ghost r: seq<Entry>) returns (removed: Entry?)
    requires Ring(r) && r[0] == head
    modifies r
    ensures if |r| == 1 then removed == null && unchanged(head)
            else removed == r[1] && Ring([head] + r[2..]) && unchanged(removed)
  {
    assert Linked(r, 0);
    if head.next == head {
      return null;
    }
    assert Linked(r, 1);
    removed := head.next;
    var second := removed.next;
    head.next := second;
    second.prev := head;
    forall i: nat | i < |r| && i != 1 && After(i, |r|) != 1
      ensures Linked(r, i)
    {
      assert old(Linked(r, i));
    }
    GapClosed(r, [head] + r[2..], 1);
  }

  method PopBack(head: Entry, ghost r: seq<Entry>) returns (removed: Entry?)
    requires Ring(r) && r[0] == head
    modifies r
    ensures if |r| == 1 then removed == null && unchanged(head)
            else removed == r[|r| - 1] && Ring(r[..|r| - 1]) && unchanged(removed)
  {
    ghost var last := |r| - 1;
    assert Linked(r, 0) && Linked(r, last);
    if head.next == head {
      return null;
    }
    assert Linked(r, last - 1);
    removed := head.prev;
    var second := removed.prev;
    second.next := head;
    head.prev := second;
    forall i: nat | i < |r| && i != last && After(i, |r|) != last
      ensures Linked(r, i)
    {
      assert old(Linked(r, i));
    }
    GapClosed(r, r[..last], last);
  }
}
