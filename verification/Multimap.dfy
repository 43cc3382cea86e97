/**
 std::multimap with integer keys, as the container and the timer use it: entries in key
 order, equal keys in insertion order, and iterators that stay good while other entries
 come and go.  An entry's identity stands for the iterator that designates it.
 */
module Multimap {
  import opened Sequences

  datatype Entry<+V> = Entry(key: int, value: V)

  datatype Iterator = Singular | End | At(id: nat)

  datatype Multimap<V> = Multimap(order: seq<nat>, nodes: map<nat, Entry<V>>, nextId: nat)

  function Empty<V>(): Multimap<V> {
    Multimap([], map[], 0)
  }

  ghost predicate Listed<V>(order: seq<nat>, nodes: map<nat, Entry<V>>) {
    forall id :: id in order <==> id in nodes
  }

  ghost predicate InOrder<V>(order: seq<nat>, nodes: map<nat, Entry<V>>, i: nat, j: nat) {
    i < |order| && j < |order| && order[i] in nodes && order[j] in nodes ==>
      nodes[order[i]].key <= nodes[order[j]].key
  }

  ghost predicate Sorted<V>(order: seq<nat>, nodes: map<nat, Entry<V>>) {
    forall i: nat, j: nat :: i < j < |order| ==> InOrder(order, nodes, i, j)
  }

  ghost predicate Valid<V>(m: Multimap<V>) {
    && NoDuplicates(m.order)
    && Listed(m.order, m.nodes)
    && Sorted(m.order, m.nodes)
    && (forall id :: id in m.nodes ==> id < m.nextId)
  }

  // How many leading entries have a key no greater than `key`.
  function UpperBound<V>(m: Multimap<V>, key: int, from: nat): (k: nat)
    requires from <= |m.order|
    ensures from <= k <= |m.order|
    ensures forall i :: from <= i < k ==> m.order[i] in m.nodes && m.nodes[m.order[i]].key <= key
    ensures k < |m.order| && m.order[k] in m.nodes ==> m.nodes[m.order[k]].key > key
    decreases |m.order| - from
  {
    if from < |m.order| && m.order[from] in m.nodes && m.nodes[m.order[from]].key <= key
    then UpperBound(m, key, from + 1) else from
  }

  function InsertedAt<T>(s: seq<T>, k: nat, x: T): (r: seq<T>)
    requires k <= |s|
    ensures |r| == |s| + 1 && r[k] == x
    ensures forall i :: 0 <= i < k ==> r[i] == s[i]
    ensures forall i :: k < i < |r| ==> r[i] == s[i - 1]
  {
    s[..k] + [x] + s[k..]
  }

  // The new entry is m.nextId.
  function Insert<V>(m: Multimap<V>, key: int, value: V): Multimap<V> {
    var k := UpperBound(m, key, 0);
    Multimap(InsertedAt(m.order, k, m.nextId), m.nodes[m.nextId := Entry(key, value)], m.nextId + 1)
  }

  lemma InsertAtMembers(s: seq<nat>, k: nat, x: nat, y: nat)
    requires k <= |s|
    ensures y in InsertedAt(s, k, x) <==> y == x || y in s
  {
    var r := InsertedAt(s, k, x);
    if y == x {
      assert r[k] == y;
    } else if y in s {
      var i :| 0 <= i < |s| && s[i] == y;
      assert r[if i < k then i else i + 1] == y;
    }
  }

  lemma InsertAtNoDuplicates(s: seq<nat>, k: nat, x: nat)
    requires k <= |s| && NoDuplicates(s) && x !in s
    ensures NoDuplicates(InsertedAt(s, k, x))
  {
    var r := InsertedAt(s, k, x);
    forall i: nat, j: nat | i < j < |r|
      ensures Apart(r, i, j)
    {
      var i0, j0 := if i < k then i else i - 1, if j < k then j else j - 1;
      if i != k && j != k { assert Apart(s, i0, j0); }
    }
  }

  lemma InsertSorted<V>(m: Multimap<V>, key: int, value: V)
    requires Sorted(m.order, m.nodes) && Listed(m.order, m.nodes) && m.nextId !in m.nodes
    ensures Sorted(Insert(m, key, value).order, Insert(m, key, value).nodes)
  {
    var k := UpperBound(m, key, 0);
    var r := Insert(m, key, value);
    forall i: nat, j: nat | i < j < |r.order|
      ensures InOrder(r.order, r.nodes, i, j)
    {
      var i0, j0 := if i < k then i else i - 1, if j < k then j else j - 1;
      if i != k && j != k {
        assert InOrder(m.order, m.nodes, i0, j0);
      } else if i == k {
        assert m.order[k] in m.nodes && m.order[j0] in m.nodes;
        if k < j0 { assert InOrder(m.order, m.nodes, k, j0); }
      } else {
        assert m.order[i0] in m.nodes;
      }
    }
  }

  lemma InsertValid<V>(m: Multimap<V>, key: int, value: V)
    requires Valid(m)
    ensures var r := Insert(m, key, value);
            && Valid(r) && m.nextId !in m.nodes && m.nextId in r.nodes && r.nodes[m.nextId] == Entry(key, value)
            && forall id :: id in m.nodes ==> id in r.nodes && r.nodes[id] == m.nodes[id]
  {
    var k := UpperBound(m, key, 0);
    InsertAtNoDuplicates(m.order, k, m.nextId);
    InsertSorted(m, key, value);
    forall id ensures id in Insert(m, key, value).order <==> id in Insert(m, key, value).nodes {
      InsertAtMembers(m.order, k, m.nextId, id);
    }
  }

  function IndexOf(order: seq<nat>, id: nat): (k: nat)
    requires id in order
    ensures k < |order| && order[k] == id
  {
    if order[0] == id then 0 else 1 + IndexOf(order[1..], id)
  }

  function Erase<V>(m: Multimap<V>, id: nat): Multimap<V>
    requires id in m.order
  {
    m.(order := RemoveAt(m.order, IndexOf(m.order, id)), nodes := m.nodes - {id})
  }

  lemma RemoveAtMembers(s: seq<nat>, k: nat, y: nat)
    requires k < |s| && NoDuplicates(s)
    ensures y in RemoveAt(s, k) <==> y != s[k] && y in s
  {
    var r := RemoveAt(s, k);
    if y in r {
      var i :| 0 <= i < |r| && r[i] == y;
      SamePlace(s, k, if i < k then i else i + 1);
    }
    if y != s[k] && y in s {
      var i :| 0 <= i < |s| && s[i] == y;
      assert r[if i < k then i else i - 1] == y;
    }
  }

  lemma EraseValid<V>(m: Multimap<V>, id: nat)
    requires Valid(m) && id in m.order
    ensures Valid(Erase(m, id)) && id !in Erase(m, id).nodes
    ensures forall other :: other in m.nodes && other != id ==>
                              other in Erase(m, id).nodes && Erase(m, id).nodes[other] == m.nodes[other]
  {
    var k := IndexOf(m.order, id);
    var r := Erase(m, id);
    forall x ensures x in r.order <==> x in r.nodes {
      RemoveAtMembers(m.order, k, x);
    }
    forall i: nat, j: nat | i < j < |r.order|
      ensures Apart(r.order, i, j) && InOrder(r.order, r.nodes, i, j)
    {
      var i0, j0 := if i < k then i else i + 1, if j < k then j else j + 1;
      assert Apart(m.order, i0, j0) && InOrder(m.order, m.nodes, i0, j0);
    }
  }

  // Erasing the first entry leaves the others in order.
  lemma EraseFirst<V>(m: Multimap<V>)
    requires m.order != []
    ensures Erase(m, m.order[0]).order == m.order[1..]
  {
  }

  lemma FirstIsEarliest<V>(m: Multimap<V>, id: nat)
    requires Valid(m) && id in m.nodes
    ensures m.order != [] && m.order[0] in m.nodes && m.nodes[m.order[0]].key <= m.nodes[id].key
  {
    var k := IndexOf(m.order, id);
    assert m.order[0] in m.order;
    if k > 0 { assert InOrder(m.order, m.nodes, 0, k); }
  }

  function Begin<V>(m: Multimap<V>): Iterator {
    if m.order == [] then End else At(m.order[0])
  }

  // The iterator after `it`.
  function Next<V>(m: Multimap<V>, id: nat): Iterator
    requires id in m.order
  {
    var k := IndexOf(m.order, id);
    if k + 1 < |m.order| then At(m.order[k + 1]) else End
  }

  // The entries as a sequence in key order.
  ghost function Entries<V>(m: Multimap<V>): (es: seq<Entry<V>>)
    requires Listed(m.order, m.nodes)
    ensures |es| == |m.order|
  {
    seq(|m.order|, i requires 0 <= i < |m.order| => assert m.order[i] in m.order; m.nodes[m.order[i]])
  }

  // An insertion puts the entry behind every entry with a key no greater.
  lemma EntriesInsert<V>(m: Multimap<V>, key: int, value: V)
    requires Listed(m.order, m.nodes) && m.nextId !in m.nodes
    requires Listed(Insert(m, key, value).order, Insert(m, key, value).nodes)
    ensures Entries(Insert(m, key, value)) == InsertedAt(Entries(m), UpperBound(m, key, 0), Entry(key, value))
  {
    var k := UpperBound(m, key, 0);
    var r := Insert(m, key, value);
    forall i | 0 <= i < |r.order|
      ensures Entries(r)[i] == InsertedAt(Entries(m), k, Entry(key, value))[i]
    {
      if i < k {
        assert m.order[i] in m.order;
      } else if i > k {
        assert m.order[i - 1] in m.order;
      }
    }
  }

  // What stands at place i once the first entry is gone.
  lemma EntryBehindFirst<V>(m: Multimap<V>, i: nat)
    requires NoDuplicates(m.order) && i + 1 < |m.order| && m.order[i + 1] in m.nodes
    ensures var r := Erase(m, m.order[0]);
            && i < |r.order| && r.order[i] == m.order[i + 1]
            && r.order[i] in r.nodes && r.nodes[r.order[i]] == m.nodes[m.order[i + 1]]
  {
    assert IndexOf(m.order, m.order[0]) == 0;
    SamePlace(m.order, 0, i + 1);
  }

  lemma EntriesEraseFirst<V>(m: Multimap<V>)
    requires NoDuplicates(m.order) && Listed(m.order, m.nodes) && m.order != []
    requires Listed(Erase(m, m.order[0]).order, Erase(m, m.order[0]).nodes)
    ensures Entries(Erase(m, m.order[0])) == Entries(m)[1..]
  {
    var r := Erase(m, m.order[0]);
    var es, es' := Entries(m), Entries(r);
    assert |es'| == |es| - 1;
    forall i: nat | i < |es'|
      ensures es'[i] == es[i + 1]
    {
      assert m.order[i + 1] in m.order;
      EntryBehindFirst(m, i);
    }
  }

  lemma EntriesSorted<V>(m: Multimap<V>, i: nat, j: nat)
    requires Valid(m) && i <= j < |m.order|
    ensures Entries(m)[i].key <= Entries(m)[j].key
  {
    assert m.order[i] in m.order && m.order[j] in m.order;
    if i < j { assert InOrder(m.order, m.nodes, i, j); }
  }
}
