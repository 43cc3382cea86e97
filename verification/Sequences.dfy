/** Facts about finite sequences that several components share. */
module Sequences {
  predicate Apart<T(==)>(s: seq<T>, i: nat, j: nat)
    requires i < |s| && j < |s|
  {
    s[i] != s[j]
  }

  ghost predicate NoDuplicates<T>(s: seq<T>) {
    forall i: nat, j: nat :: i < j < |s| ==> Apart(s, i, j)
  }

  // Equal elements stand at equal places.
  lemma SamePlace<T>(s: seq<T>, i: nat, j: nat)
    requires NoDuplicates(s) && i < |s| && j < |s|
    ensures s[i] == s[j] <==> i == j
  {
    if i < j { assert Apart(s, i, j); }
    if j < i { assert Apart(s, j, i); }
  }

  lemma NoDuplicatesAppend<T>(s: seq<T>, x: T)
    requires NoDuplicates(s) && x !in s
    ensures NoDuplicates(s + [x])
  {
    forall i: nat, j: nat | i < j < |s + [x]|
      ensures Apart(s + [x], i, j)
    {
      if j < |s| { assert Apart(s, i, j); }
    }
  }

  lemma NoDuplicatesTail<T>(s: seq<T>)
    requires NoDuplicates(s) && s != []
    ensures NoDuplicates(s[1..]) && s[0] !in s[1..]
  {
    forall i: nat, j: nat | i < j < |s[1..]|
      ensures Apart(s[1..], i, j)
    {
      assert Apart(s, i + 1, j + 1);
    }
    assert forall i: nat :: i < |s[1..]| ==> Apart(s, 0, i + 1) && s[1..][i] == s[i + 1];
  }

  lemma NoDuplicatesConcat<T>(a: seq<T>, b: seq<T>)
    requires NoDuplicates(a) && NoDuplicates(b) && forall x :: x in a ==> x !in b
    ensures NoDuplicates(a + b)
  {
    forall i: nat, j: nat | i < j < |a + b|
      ensures Apart(a + b, i, j)
    {
      if j < |a| {
        assert Apart(a, i, j);
      } else if i >= |a| {
        assert Apart(b, i - |a|, j - |a|);
      } else {
        assert a[i] in a && b[j - |a|] in b;
      }
    }
  }

  lemma {:induction false} DistinctCount<T>(s: seq<T>)
    requires NoDuplicates(s)
    ensures |set x | x in s| == |s|
  {
    if s != [] {
      NoDuplicatesTail(s);
      DistinctCount(s[1..]);
      assert (set x | x in s) == {s[0]} + (set x | x in s[1..]);
    }
  }

  lemma {:induction false} DistinctOnce<T>(s: seq<T>, x: T)
    requires NoDuplicates(s)
    ensures multiset(s)[x] <= 1
  {
    if s != [] {
      NoDuplicatesTail(s);
      DistinctOnce(s[1..], x);
      assert s == [s[0]] + s[1..];
    }
  }

  // The numbers below n.
  function Below(n: nat): (s: set<nat>)
    ensures forall i: nat :: i in s <==> i < n
    ensures |s| == n
  {
    if n == 0 then {} else Below(n - 1) + {n - 1}
  }

  lemma MultisetInsert<T>(s: seq<T>, k: nat, x: T)
    requires k <= |s|
    ensures multiset(s[..k] + [x] + s[k..]) == multiset(s) + multiset{x}
  {
    assert s == s[..k] + s[k..];
  }

  lemma MultisetFirst<T>(s: seq<T>)
    requires s != []
    ensures multiset(s) == multiset{s[0]} + multiset(s[1..])
  {
    assert s == [s[0]] + s[1..];
  }

  lemma MultisetMove<T>(a: seq<T>, b: seq<T>, k: nat)
    requires k <= |b|
    ensures multiset(a + b[..k]) + multiset(b[k..]) == multiset(a) + multiset(b)
  {
    assert b == b[..k] + b[k..];
  }

  lemma MultisetRegroup<T>(q: multiset<T>, a: multiset<T>, b: multiset<T>, a': multiset<T>, b': multiset<T>, d: multiset<T>)
    requires b' + a' == b + a
    ensures q + a' + b' + d == q + a + b + d
  {
    assert q + a' + b' == q + (b' + a') && q + a + b == q + (b + a);
  }

  // Two queues taken one after the other.
  lemma QueuesCompose<T>(q: seq<T>, x: seq<T>, y: seq<T>, r: seq<T>, added: seq<T>, taken: seq<T>, last: seq<T>)
    requires q + x == y + r && r + added == taken + last
    ensures q + (x + added) == (y + taken) + last
  {
    assert q + (x + added) == (q + x) + added == y + (r + added) == (y + taken) + last;
  }

  // The sequence with the element at k taken out.
  function RemoveAt<T>(s: seq<T>, k: nat): (r: seq<T>)
    requires k < |s|
    ensures |r| == |s| - 1
    ensures forall i :: 0 <= i < k ==> r[i] == s[i]
    ensures forall i :: k <= i < |r| ==> r[i] == s[i + 1]
  {
    s[..k] + s[k + 1..]
  }

  // The sequence with every occurrence of x taken out.
  function Without<T(==)>(s: seq<T>, x: T): seq<T> {
    if s == [] then [] else (if s[0] == x then [] else [s[0]]) + Without(s[1..], x)
  }

  lemma WithoutSingle<T>(y: T, x: T)
    ensures Without([y], x) == if y == x then [] else [y]
  {
    assert [y][1..] == [];
  }

  lemma {:induction false} WithoutConcat<T>(a: seq<T>, b: seq<T>, x: T)
    ensures Without(a + b, x) == Without(a, x) + Without(b, x)
  {
    if a == [] {
      assert a + b == b;
    } else {
      assert (a + b)[1..] == a[1..] + b;
      WithoutConcat(a[1..], b, x);
    }
  }

  lemma {:induction false} WithoutMember<T>(s: seq<T>, x: T, y: T)
    ensures y in Without(s, x) <==> y in s && y != x
  {
    if s != [] {
      WithoutMember(s[1..], x, y);
    }
  }
}
