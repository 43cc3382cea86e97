/** Bytes, and the flat byte string a list of fragments stands for. */
module Bytes {
  newtype byte = x: int | 0 <= x < 0x100

  // What a Slice holds; `SliceStorage` says how it is stored.
  type Slice = seq<byte>

  function Flat(vs: seq<Slice>): seq<byte> {
    if vs == [] then [] else vs[0] + Flat(vs[1..])
  }

  lemma {:induction false} FlatConcat(a: seq<Slice>, b: seq<Slice>)
    ensures Flat(a + b) == Flat(a) + Flat(b)
  {
    if a == [] {
      assert a + b == b;
    } else {
      assert (a + b)[1..] == a[1..] + b;
      FlatConcat(a[1..], b);
    }
  }

  lemma FlatSingle(s: Slice)
    ensures Flat([s]) == s
  {
    assert [s][1..] == [];
  }

  lemma FlatAppend(a: seq<Slice>, s: Slice)
    ensures Flat(a + [s]) == Flat(a) + s
  {
    FlatConcat(a, [s]);
    FlatSingle(s);
  }

  lemma FlatSplit(vs: seq<Slice>, i: nat)
    requires i <= |vs|
    ensures Flat(vs) == Flat(vs[..i]) + Flat(vs[i..])
  {
    assert vs == vs[..i] + vs[i..];
    FlatConcat(vs[..i], vs[i..]);
  }

  lemma FlatNext(vs: seq<Slice>, i: nat)
    requires i < |vs|
    ensures Flat(vs[..i + 1]) == Flat(vs[..i]) + vs[i]
  {
    assert vs[..i + 1] == vs[..i] + [vs[i]];
    FlatAppend(vs[..i], vs[i]);
  }

  lemma PrefixOfSum(c: seq<byte>, a: seq<byte>, b: seq<byte>)
    requires c == a + b
    ensures a <= c
  {
  }

  lemma FlatPrefixOf(vs: seq<Slice>, i: nat)
    requires i <= |vs|
    ensures Flat(vs[..i]) <= Flat(vs)
  {
    FlatSplit(vs, i);
    PrefixOfSum(Flat(vs), Flat(vs[..i]), Flat(vs[i..]));
  }

  // The prefix ending at slice i, and the same with slice i.
  lemma FlatPrefix(vs: seq<Slice>, i: nat)
    requires i < |vs|
    ensures Flat(vs[..i + 1]) == Flat(vs[..i]) + vs[i]
    ensures Flat(vs[..i + 1]) <= Flat(vs)
  {
    FlatNext(vs, i);
    FlatPrefixOf(vs, i + 1);
  }

  ghost predicate AllNonEmpty(vs: seq<Slice>) {
    forall i :: 0 <= i < |vs| ==> vs[i] != []
  }

  ghost predicate AllAtMost(vs: seq<Slice>, n: nat) {
    forall i :: 0 <= i < |vs| ==> |vs[i]| <= n
  }
}
