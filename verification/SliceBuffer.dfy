/** src/utils/slice_buffer.cc: a vector of fragments that behaves as one flat byte string. */
module SliceBuffer {
  import opened Bytes

  // The fragments left once n bytes are taken off the front.
  function Dropped(vs: seq<Slice>, n: nat): seq<Slice>
    requires n <= |Flat(vs)|
  {
    if n == 0 then vs
    else if |vs[0]| > n then [vs[0][n..]] + vs[1..]
    else Dropped(vs[1..], n - |vs[0]|)
  }

  lemma {:induction false} DroppedFlat(vs: seq<Slice>, n: nat)
    requires n <= |Flat(vs)|
    ensures Flat(Dropped(vs, n)) == Flat(vs)[n..]
    decreases |vs|
  {
    if n == 0 {
    } else if |vs[0]| > n {
      var d := Dropped(vs, n);
      assert d[0] == vs[0][n..] && d[1..] == vs[1..];
    } else {
      DroppedFlat(vs[1..], n - |vs[0]|);
    }
  }

  // Taking bytes off the front neither makes a fragment longer nor leaves an empty one behind.
  lemma {:induction false} DroppedFragments(vs: seq<Slice>, n: nat, max: nat)
    requires n <= |Flat(vs)|
    ensures AllNonEmpty(vs) ==> AllNonEmpty(Dropped(vs, n))
    ensures AllAtMost(vs, max) ==> AllAtMost(Dropped(vs, n), max)
    decreases |vs|
  {
    if n > 0 && |vs[0]| <= n {
      DroppedFragments(vs[1..], n - |vs[0]|, max);
    }
  }

  // n bytes are the fragments before k and a proper front part of fragment k, if any of it.
  ghost predicate DroppedAt(vs: seq<Slice>, n: nat, left: seq<Slice>, k: nat) {
    && k <= |vs| && |Flat(vs[..k])| <= n
    && var part := n - |Flat(vs[..k])|;
       if part == 0 then left == vs[k..]
       else k < |vs| && part < |vs[k]| && left == [vs[k][part..]] + vs[k + 1..]
  }

  /** Dropping bytes drops whole fragments and cuts at most one: all behind it stay as they are. */
  lemma {:induction false} DroppedShape(vs: seq<Slice>, n: nat)
    requires n <= |Flat(vs)|
    ensures exists k: nat :: DroppedAt(vs, n, Dropped(vs, n), k)
    decreases |vs|
  {
    if n == 0 || |vs[0]| > n {
      assert vs[..0] == [] && vs[0..] == vs;
      assert DroppedAt(vs, n, Dropped(vs, n), 0);
    } else {
      var tail, m := vs[1..], n - |vs[0]|;
      DroppedShape(tail, m);
      var k: nat :| DroppedAt(tail, m, Dropped(tail, m), k);
      assert k <= |tail|;
      assert vs[..k + 1] == [vs[0]] + vs[1..][..k];
      FlatConcat([vs[0]], vs[1..][..k]);
      FlatSingle(vs[0]);
      assert vs[k + 1..] == vs[1..][k..];
      assert DroppedAt(vs, n, Dropped(vs, n), k + 1);
    }
  }

  /** Once every byte is gone the vector is empty exactly when no empty fragment trails. */
  lemma {:induction false} DroppedAll(vs: seq<Slice>)
    ensures Dropped(vs, |Flat(vs)|) == [] <==> vs == [] || vs[|vs| - 1] != []
    decreases |vs|
  {
    if vs != [] && |Flat(vs)| > 0 {
      DroppedAll(vs[1..]);
      if vs[1..] == [] { FlatSingle(vs[0]); }
    } else if vs != [] {
      FlatPrefix(vs, |vs| - 1);
      assert vs[..|vs|] == vs;
    }
  }

  /** With nonempty fragments, "no fragments" and "no bytes" are the same. */
  lemma EmptyMeansNoBytes(vs: seq<Slice>)
    requires AllNonEmpty(vs)
    ensures vs == [] <==> |Flat(vs)| == 0
  {
  }

  class SliceBuffer {
    var vs: seq<Slice>
    var length: nat

    ghost predicate Valid()
      reads this
    {
      length == |Flat(vs)|
    }

    ghost function Content(): seq<byte>
      reads this
    {
      Flat(vs)
    }

    constructor ()
      ensures Valid() && vs == [] && Content() == []
    {
      vs, length := [], 0;
    }

    method Merge() returns (ret: Slice)
      requires Valid()
      ensures ret == Content()
    {
      if |vs| == 0 {
        return [];
      }
      if |vs| == 1 {
        FlatSingle(vs[0]);
        assert vs == [vs[0]];
        return vs[0];
      }
      var buf := new byte[length];
      var pos := 0;
      for i := 0 to |vs|
        invariant pos == |Flat(vs[..i])| <= length
        invariant buf[..pos] == Flat(vs[..i])
      {
        FlatPrefix(vs, i);
        ghost var before := buf[..pos];
        var blkSize := |vs[i]|;
        if blkSize > 0 {
          forall k | 0 <= k < blkSize { buf[pos + k] := vs[i][k]; }
          assert buf[..pos + blkSize] == before + vs[i];
          pos := pos + blkSize;
        }
      }
      assert vs[..|vs|] == vs;
      ret := buf[..];
    }

    method AddSlice(s: Slice)
      requires Valid()
      modifies this
      ensures Valid() && vs == old(vs) + [s] && Content() == old(Content()) + s
    {
      FlatConcat(vs, [s]);
      FlatSingle(s);
      vs := vs + [s];
      length := length + |s|;
    }

    method CopyToBuffer(buffer: array<byte>, len: nat) returns (pos: nat)
      requires Valid() && len <= length && len <= buffer.Length
      modifies buffer
      ensures pos == len && buffer[..len] == Content()[..len]
      ensures buffer[len..] == old(buffer[len..])
    {
      var it: nat, left: nat := 0, len;
      pos := 0;
      while it != |vs| && left != 0
        invariant it <= |vs| && pos + left == len
        invariant left == 0 || pos == |Flat(vs[..it])|
        invariant pos <= |Flat(vs[..it])| <= length
        invariant buffer[..pos] == Content()[..pos]
        invariant buffer[len..] == old(buffer[len..])
        decreases |vs| - it
      {
        FlatPrefix(vs, it);
        ghost var before := buffer[..pos];
        var n := if left < |vs[it]| then left else |vs[it]|;
        forall k | 0 <= k < n { buffer[pos + k] := vs[it][k]; }
        assert buffer[..pos + n] == before + vs[it][..n];
        assert Content()[..pos + n] == Flat(vs[..it]) + vs[it][..n];
        left := left - n;
        pos := pos + n;
        it := it + 1;
      }
      assert vs[..|vs|] == vs;
    }

    method GetHeader(len: nat) returns (s: Slice)
      requires Valid()
      ensures s == if len <= |Content()| then Content()[..len] else []
    {
      if len == 0 || length < len {
        return [];
      }
      var buf := new byte[len];
      var _ := CopyToBuffer(buf, len);
      s := buf[..];
    }

    method MoveHeader(len: nat) returns (ok: bool)
      requires Valid()
      modifies this
      ensures Valid()
      ensures ok == (len <= |old(Content())|)
      ensures vs == if ok then Dropped(old(vs), len) else old(vs)
      ensures Content() == if ok then old(Content())[len..] else old(Content())
      decreases |vs|
    {
      if length < len {
        return false;
      }
      DroppedFlat(vs, len);
      if len == 0 {
        return true;
      }
      var left := |vs[0]|;
      if left > len {
        vs := [vs[0][len..]] + vs[1..];
        length := length - len;
      } else if left == len {
        length := length - len;
        vs := vs[1..];
      } else {
        length := length - left;
        vs := vs[1..];
        ok := MoveHeader(len - left);
        return ok;
      }
      return true;
    }

    method ClearBuffer()
      modifies this
      ensures Valid() && vs == [] && Content() == []
    {
      vs, length := [], 0;
    }

    predicate Empty()
      reads this
    {
      vs == []
    }

    method PopFront()
      requires Valid()
      modifies this
      ensures Valid() && vs == if old(vs) == [] then [] else old(vs)[1..]
      ensures old(vs) != [] ==> old(Content()) == old(vs)[0] + Content()
    {
      if vs != [] {
        length := length - |vs[0]|;
        vs := vs[1..];
      }
    }

    method PopBack()
      requires Valid()
      modifies this
      ensures Valid() && vs == if old(vs) == [] then [] else old(vs)[..|old(vs)| - 1]
      ensures old(vs) != [] ==> old(Content()) == Content() + old(vs)[|old(vs)| - 1]
    {
      var c := |vs|;
      if c != 0 {
        FlatPrefix(vs, c - 1);
        assert vs[..c] == vs;
        length := length - |vs[c - 1]|;
        vs := vs[..c - 1];
      }
    }
  }
}
