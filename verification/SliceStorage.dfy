/**
 How src/utils/slice.cc stores slices: up to 23 bytes inline, more in a reference-counted
 heap block that any number of Slice objects share.  Slice objects and blocks are known by
 their addresses; a block's address is not used again after it is freed.
 */
module SliceStorage {
  import opened Bytes
  import opened Sequences

  const INLINED_SIZE: nat := 23

  // A SliceRefCount and the bytes behind it.
  datatype Block = Block(refs: nat, bytes: seq<byte>)

  // The `_refs` pointer (absent or a block) and the union `_data`.
  datatype Rep =
    | Inlined(length: nat, bytes: seq<byte>)
    | Counted(block: nat, offset: nat, length: nat)

  predicate Points(slices: map<nat, Rep>, v: nat, b: nat) {
    v in slices && slices[v].Counted? && slices[v].block == b
  }

  // The slices that refer to a block.
  function Owners(slices: map<nat, Rep>, b: nat): set<nat> {
    set v | v in slices && Points(slices, v, b)
  }

  // No other slice shares this one's block.
  predicate LastOwner(slices: map<nat, Rep>, v: nat)
    requires v in slices
  {
    slices[v].Counted? && Owners(slices, slices[v].block) == {v}
  }

  predicate RepOk(blocks: map<nat, Block>, rep: Rep) {
    match rep
    case Inlined(length, bytes) => |bytes| == INLINED_SIZE && length <= INLINED_SIZE
    case Counted(b, offset, length) => b in blocks && offset + length <= |blocks[b].bytes|
  }

  ghost predicate BlockOk(blocks: map<nat, Block>, slices: map<nat, Rep>, b: nat)
    requires b in blocks
  {
    blocks[b].refs == |Owners(slices, b)| > 0
  }

  function ContentOf(blocks: map<nat, Block>, rep: Rep): seq<byte>
    requires RepOk(blocks, rep)
  {
    match rep
    case Inlined(length, bytes) => bytes[..length]
    case Counted(b, offset, length) => blocks[b].bytes[offset..offset + length]
  }

  // Changing what one slice refers to changes the owners by that slice alone.
  lemma OwnersChange(slices: map<nat, Rep>, slices': map<nat, Rep>, v: nat, b: nat)
    requires forall w :: w != v ==> (w in slices <==> w in slices')
    requires forall w :: w != v && w in slices && w in slices' ==> slices[w] == slices'[w]
    ensures |Owners(slices', b)| + (if Points(slices, v, b) then 1 else 0)
         == |Owners(slices, b)| + (if Points(slices', v, b) then 1 else 0)
  {
    var o, o' := Owners(slices, b), Owners(slices', b);
    assert o - {v} == o' - {v} by {
      forall w ensures w in o - {v} <==> w in o' - {v} {}
    }
    assert Points(slices, v, b) ==> |o - {v}| == |o| - 1;
    assert !Points(slices, v, b) ==> o - {v} == o;
    assert Points(slices', v, b) ==> |o' - {v}| == |o'| - 1;
    assert !Points(slices', v, b) ==> o' - {v} == o';
  }

  ghost predicate Kept(blocks: map<nat, Block>, slices: map<nat, Rep>,
                       blocks': map<nat, Block>, slices': map<nat, Rep>, w: nat)
    requires w in slices
  {
    && w in slices' && slices'[w] == slices[w]
    && (RepOk(blocks, slices[w]) ==>
          RepOk(blocks', slices[w]) && ContentOf(blocks', slices[w]) == ContentOf(blocks, slices[w]))
  }

  // Every other slice still has its representation and its content.
  ghost predicate OthersKept(blocks: map<nat, Block>, slices: map<nat, Rep>,
                             blocks': map<nat, Block>, slices': map<nat, Rep>, v: nat) {
    forall w :: w in slices && w != v ==> Kept(blocks, slices, blocks', slices', w)
  }

  // Blocks hold their bytes whatever happens to the counts.
  ghost predicate SameBytes(blocks: map<nat, Block>, blocks': map<nat, Block>) {
    forall b :: b in blocks && b in blocks' ==> blocks'[b].bytes == blocks[b].bytes
  }

  // A block's count follows the one slice whose reference changed.
  ghost predicate CountFollows(blocks: map<nat, Block>, slices: map<nat, Rep>,
                               blocks': map<nat, Block>, slices': map<nat, Rep>, v: nat, b: nat) {
    var was := if b in blocks then blocks[b].refs else 0;
    var now := if b in blocks' then blocks'[b].refs else 0;
    && now + (if Points(slices, v, b) then 1 else 0) == was + (if Points(slices', v, b) then 1 else 0)
    && (b in blocks' ==> now > 0)
  }

  lemma CountsStayExact(blocks: map<nat, Block>, slices: map<nat, Rep>,
                        blocks': map<nat, Block>, slices': map<nat, Rep>, v: nat)
    requires forall b :: b in blocks ==> BlockOk(blocks, slices, b)
    requires forall w :: w in slices ==> RepOk(blocks, slices[w])
    requires forall w :: w != v ==> (w in slices <==> w in slices')
    requires forall w :: w != v && w in slices && w in slices' ==> slices[w] == slices'[w]
    requires forall b :: CountFollows(blocks, slices, blocks', slices', v, b)
    requires SameBytes(blocks, blocks')
    ensures forall b :: b in blocks' ==> BlockOk(blocks', slices', b)
    ensures OthersKept(blocks, slices, blocks', slices', v)
  {
    forall b
      ensures |Owners(slices', b)| == if b in blocks' then blocks'[b].refs else 0
    {
      OwnersChange(slices, slices', v, b);
      assert CountFollows(blocks, slices, blocks', slices', v, b);
      if b in blocks {
        assert BlockOk(blocks, slices, b);
      } else {
        assert forall w :: w in slices ==> !Points(slices, w, b);
        assert Owners(slices, b) == {};
      }
    }
    forall b | b in blocks'
      ensures BlockOk(blocks', slices', b)
    {
      assert CountFollows(blocks, slices, blocks', slices', v, b);
    }
    forall w | w in slices && w != v
      ensures Kept(blocks, slices, blocks', slices', w)
    {
      if slices[w].Counted? {
        var b := slices[w].block;
        assert w in Owners(slices', b);
        assert CountFollows(blocks, slices, blocks', slices', v, b);
      }
    }
  }

  // The blocks after one reference more, or one less; a block without references is gone.
  function Inc(blocks: map<nat, Block>, rep: Rep): map<nat, Block> {
    if rep.Counted? && rep.block in blocks
    then blocks[rep.block := blocks[rep.block].(refs := blocks[rep.block].refs + 1)] else blocks
  }

  function Dec(blocks: map<nat, Block>, rep: Rep): map<nat, Block> {
    if rep.Counted? && rep.block in blocks && blocks[rep.block].refs > 0 then
      if blocks[rep.block].refs == 1 then blocks - {rep.block}
      else blocks[rep.block := blocks[rep.block].(refs := blocks[rep.block].refs - 1)]
    else blocks
  }

  // A slice may let go of its block before it shares another's, or after: no block that is
  // still referred to is freed on the way.
  lemma AssignCounts(blocks: map<nat, Block>, slices: map<nat, Rep>, v: nat, from: nat)
    requires v in slices && from in slices && v != from
    requires RepOk(blocks, slices[v]) && RepOk(blocks, slices[from])
    requires forall b :: b in blocks ==> blocks[b].refs > 0
    requires slices[v].Counted? && slices[from].Counted? && slices[v].block == slices[from].block ==>
               blocks[slices[v].block].refs >= 2
    ensures var blocks', slices' := Inc(Dec(blocks, slices[v]), slices[from]), slices[v := slices[from]];
            && blocks' == Dec(Inc(blocks, slices[from]), slices[v])
            && SameBytes(blocks, blocks') && RepOk(blocks', slices[from])
            && ContentOf(blocks', slices[from]) == ContentOf(blocks, slices[from])
            && (forall b :: CountFollows(blocks, slices, blocks', slices', v, b))
  {
    var blocks' := Inc(Dec(blocks, slices[v]), slices[from]);
    assert blocks' == Dec(Inc(blocks, slices[from]), slices[v]);
  }

  // Two slices on one block: letting go of one does not free it.
  lemma SharedCount(blocks: map<nat, Block>, slices: map<nat, Rep>, v: nat, w: nat)
    requires v in slices && w in slices && v != w
    requires forall b :: b in blocks ==> BlockOk(blocks, slices, b)
    requires RepOk(blocks, slices[v]) && RepOk(blocks, slices[w])
    ensures forall b :: b in blocks ==> blocks[b].refs > 0
    ensures slices[v].Counted? && slices[w].Counted? && slices[v].block == slices[w].block ==>
              blocks[slices[v].block].refs >= 2
  {
    forall b | b in blocks ensures blocks[b].refs > 0 { assert BlockOk(blocks, slices, b); }
    if slices[v].Counted? {
      var b := slices[v].block;
      assert BlockOk(blocks, slices, b) && v in Owners(slices, b);
      if slices[w].Counted? && slices[w].block == b {
        assert {v, w} <= Owners(slices, b);
        assert |Owners(slices, b)| == |Owners(slices, b) - {v, w}| + |{v, w}|;
      }
    }
  }

  lemma AssignKeeps(blocks: map<nat, Block>, slices: map<nat, Rep>, v: nat, from: nat)
    requires v in slices && from in slices && v != from
    requires forall b :: b in blocks ==> BlockOk(blocks, slices, b)
    requires forall w :: w in slices ==> RepOk(blocks, slices[w])
    ensures var blocks', slices' := Inc(Dec(blocks, slices[v]), slices[from]), slices[v := slices[from]];
            && blocks' == Dec(Inc(blocks, slices[from]), slices[v])
            && (forall b :: b in blocks' ==> BlockOk(blocks', slices', b))
            && (forall w :: w in slices' ==> RepOk(blocks', slices'[w]))
            && RepOk(blocks', slices[from])
            && ContentOf(blocks', slices[from]) == ContentOf(blocks, slices[from])
            && OthersKept(blocks, slices, blocks', slices', v)
    ensures slices[v].Counted? ==> slices[v].block in blocks && blocks[slices[v].block].refs > 0
    ensures slices[v].Counted? ==>
              slices[v].block in Inc(blocks, slices[from]) && Inc(blocks, slices[from])[slices[v].block].refs > 0
    ensures slices[from].Counted? ==> slices[from].block in blocks && slices[from].block in Dec(blocks, slices[v])
  {
    var blocks', slices' := Inc(Dec(blocks, slices[v]), slices[from]), slices[v := slices[from]];
    SharedCount(blocks, slices, v, from);
    AssignCounts(blocks, slices, v, from);
    CountsStayExact(blocks, slices, blocks', slices', v);
    forall w | w in slices'
      ensures RepOk(blocks', slices'[w])
    {
      if w != v { assert Kept(blocks, slices, blocks', slices', w); }
    }
  }

  function Zeros(): (r: seq<byte>)
    ensures |r| == INLINED_SIZE
  {
    seq(INLINED_SIZE, _ => 0)
  }

  // The bytes with those from `at` on replaced.
  function Overwritten(bytes: seq<byte>, at: nat, data: seq<byte>): (r: seq<byte>)
    requires at + |data| <= |bytes|
    ensures |r| == |bytes|
  {
    bytes[..at] + data + bytes[at + |data|..]
  }

  lemma OverwrittenPart(bytes: seq<byte>, offset: nat, length: nat, at: nat, data: seq<byte>)
    requires offset + length <= |bytes| && at + |data| <= length
    ensures Overwritten(bytes, offset + at, data)[offset..offset + length]
         == Overwritten(bytes[offset..offset + length], at, data)
  {
  }

  lemma OverwrittenTwice(bytes: seq<byte>, a: seq<byte>, b: seq<byte>)
    requires |bytes| == |a| + |b|
    ensures Overwritten(Overwritten(bytes, 0, a), |a|, b) == a + b
  {
  }

  lemma KeptTwice(blocks: map<nat, Block>, slices: map<nat, Rep>, blocks1: map<nat, Block>, slices1: map<nat, Rep>,
                  blocks2: map<nat, Block>, slices2: map<nat, Rep>, v: nat)
    requires OthersKept(blocks, slices, blocks1, slices1, v) && OthersKept(blocks1, slices1, blocks2, slices2, v)
    ensures OthersKept(blocks, slices, blocks2, slices2, v)
  {
    forall w | w in slices && w != v
      ensures Kept(blocks, slices, blocks2, slices2, w)
    {
      assert Kept(blocks, slices, blocks1, slices1, w) && Kept(blocks1, slices1, blocks2, slices2, w);
    }
  }

  // Writing to a block that one slice owns alone changes no other slice and no count.
  lemma WrittenBlockKeeps(blocks: map<nat, Block>, blocks': map<nat, Block>, slices: map<nat, Rep>, v: nat)
    requires forall b :: b in blocks ==> BlockOk(blocks, slices, b)
    requires forall w :: w in slices ==> RepOk(blocks, slices[w])
    requires v in slices && LastOwner(slices, v)
    requires slices[v].block in blocks && slices[v].block in blocks'
    requires blocks' == blocks[slices[v].block := blocks'[slices[v].block]]
    requires blocks'[slices[v].block].refs == blocks[slices[v].block].refs
    requires |blocks'[slices[v].block].bytes| == |blocks[slices[v].block].bytes|
    ensures forall b :: b in blocks' ==> BlockOk(blocks', slices, b)
    ensures forall w :: w in slices ==> RepOk(blocks', slices[w])
    ensures OthersKept(blocks, slices, blocks', slices, v)
  {
    forall b | b in blocks' ensures BlockOk(blocks', slices, b) { assert BlockOk(blocks, slices, b); }
    var own := slices[v].block;
    forall w | w in slices && w != v
      ensures Kept(blocks, slices, blocks', slices, w)
    {
      assert w !in Owners(slices, own);
    }
  }

  // A slice that changes what it shows of its storage, but not its storage.
  lemma ReshapeKeeps(blocks: map<nat, Block>, slices: map<nat, Rep>, slices': map<nat, Rep>, v: nat, rep: Rep)
    requires forall b :: b in blocks ==> BlockOk(blocks, slices, b)
    requires forall w :: w in slices ==> RepOk(blocks, slices[w])
    requires v in slices && RepOk(blocks, rep) && slices' == slices[v := rep]
    requires rep.Counted? <==> slices[v].Counted?
    requires rep.Counted? ==> rep.block == slices[v].block
    ensures forall b :: b in blocks ==> BlockOk(blocks, slices', b)
    ensures forall w :: w in slices' ==> RepOk(blocks, slices'[w])
    ensures OthersKept(blocks, slices, blocks, slices', v)
  {
    forall b: nat
      ensures CountFollows(blocks, slices, blocks, slices', v, b)
    {
      if b in blocks { assert BlockOk(blocks, slices, b); }
    }
    CountsStayExact(blocks, slices, blocks, slices', v);
  }

  lemma ShorterContent(blocks: map<nat, Block>, rep: Rep, n: nat)
    requires RepOk(blocks, rep) && n <= rep.length
    ensures RepOk(blocks, rep.(length := rep.length - n))
    ensures ContentOf(blocks, rep.(length := rep.length - n)) == ContentOf(blocks, rep)[..rep.length - n]
  {
  }

  // memmove within the inline bytes.
  function MovedDown(bytes: seq<byte>, n: nat, left: nat): (r: seq<byte>)
    requires n + left <= |bytes|
    ensures |r| == |bytes| && r[..left] == bytes[n..n + left]
  {
    bytes[n..n + left] + bytes[left..]
  }

  // What is left when n bytes go at the front: inline bytes move down, a heap pointer moves up.
  function FrontDropped(rep: Rep, n: nat): Rep
    requires n <= rep.length && (rep.Inlined? ==> rep.length <= |rep.bytes|)
  {
    match rep
    case Inlined(length, bytes) => Inlined(length - n, MovedDown(bytes, n, length - n))
    case Counted(b, offset, length) => Counted(b, offset + n, length - n)
  }

  lemma FrontContent(blocks: map<nat, Block>, rep: Rep, n: nat)
    requires RepOk(blocks, rep) && n <= rep.length
    ensures RepOk(blocks, FrontDropped(rep, n))
    ensures ContentOf(blocks, FrontDropped(rep, n)) == ContentOf(blocks, rep)[n..]
  {
  }

  // A slice that is gone, with its reference.
  lemma DestroyKeeps(blocks: map<nat, Block>, slices: map<nat, Rep>, v: nat)
    requires forall b :: b in blocks ==> BlockOk(blocks, slices, b)
    requires forall w :: w in slices ==> RepOk(blocks, slices[w])
    requires v in slices
    ensures var blocks', slices' := Dec(blocks, slices[v]), slices - {v};
            && (forall b :: b in blocks' ==> BlockOk(blocks', slices', b))
            && (forall w :: w in slices' ==> RepOk(blocks', slices'[w]))
            && OthersKept(blocks, slices, blocks', slices', v)
  {
    var blocks', slices' := Dec(blocks, slices[v]), slices - {v};
    forall b ensures CountFollows(blocks, slices, blocks', slices', v, b) {
      if b in blocks { assert BlockOk(blocks, slices, b); }
    }
    CountsStayExact(blocks, slices, blocks', slices', v);
    forall w | w in slices' ensures RepOk(blocks', slices'[w]) {
      assert Kept(blocks, slices, blocks', slices', w);
    }
  }

  class Memory {
    var blocks: map<nat, Block>
    var slices: map<nat, Rep>
    var freed: seq<nat>     // blocks freed so far
    var nextBlock: nat

    ghost predicate SlicesOk()
      reads this
    {
      forall v :: v in slices ==> RepOk(blocks, slices[v])
    }

    ghost predicate HeapOk()
      reads this
    {
      && NoDuplicates(freed)
      && (forall b: nat :: b < nextBlock <==> b in blocks || b in freed)
      && (forall b :: b in freed ==> b !in blocks)
    }

    // Reference counts are exact, every slice lies inside its storage, and every block ever
    // allocated is live or has been freed once.
    ghost predicate Valid()
      reads this
    {
      && SlicesOk() && HeapOk()
      && (forall b :: b in blocks ==> BlockOk(blocks, slices, b))
    }

    function Content(v: nat): seq<byte>
      requires v in slices && RepOk(blocks, slices[v])
      reads this
    {
      ContentOf(blocks, slices[v])
    }

    constructor ()
      ensures Valid() && slices == map[] && blocks == map[] && freed == []
    {
      blocks, slices, freed, nextBlock := map[], map[], [], 0;
    }

    // malloc and SliceRefCount's constructor.
    method NewBlock(bytes: seq<byte>) returns (b: nat)
      requires HeapOk()
      modifies this`blocks, this`nextBlock
      ensures HeapOk() && b == old(nextBlock) && b !in old(blocks)
      ensures blocks == old(blocks)[b := Block(1, bytes)]
    {
      b := nextBlock;
      blocks := blocks[b := Block(1, bytes)];
      nextBlock := nextBlock + 1;
    }

    method AddRef(b: nat)
      requires b in blocks && HeapOk()
      modifies this`blocks
      ensures HeapOk() && blocks == old(blocks)[b := old(blocks)[b].(refs := old(blocks)[b].refs + 1)]
    {
      blocks := blocks[b := blocks[b].(refs := blocks[b].refs + 1)];
    }

    method DecRef(b: nat)
      requires b in blocks && blocks[b].refs > 0 && HeapOk()
      modifies this`blocks, this`freed
      ensures HeapOk()
      ensures if old(blocks)[b].refs == 1 then blocks == old(blocks) - {b} && freed == old(freed) + [b]
              else blocks == old(blocks)[b := old(blocks)[b].(refs := old(blocks)[b].refs - 1)] && freed == old(freed)
    {
      var n := blocks[b].refs;
      blocks := blocks[b := blocks[b].(refs := n - 1)];
      if n == 1 {
        NoDuplicatesAppend(freed, b);
        freed := freed + [b];
        blocks := blocks - {b};
        assert blocks == old(blocks) - {b};
      }
    }

    // Slice(): nothing, inline.
    method ConstructEmpty(v: nat)
      requires Valid() && v !in slices
      modifies this`slices
      ensures Valid() && slices.Keys == old(slices).Keys + {v} && slices[v].Inlined?
      ensures Content(v) == [] && OthersKept(blocks, old(slices), blocks, slices, v)
    {
      slices := slices[v := Inlined(0, Zeros())];
      CountsStayExact(blocks, old(slices), blocks, slices, v);
    }

    // Slice(ptr, len); `junk` is what the unwritten inline bytes happen to hold.
    method Construct(v: nat, data: seq<byte>, junk: seq<byte>)
      requires Valid() && v !in slices && |junk| == INLINED_SIZE
      modifies this`blocks, this`slices, this`nextBlock
      ensures Valid() && slices.Keys == old(slices).Keys + {v}
      ensures Content(v) == data && (slices[v].Counted? <==> |data| > 23)
      ensures OthersKept(old(blocks), old(slices), blocks, slices, v)
    {
      if |data| == 0 {
        ConstructEmpty(v);
        return;
      }
      if |data| <= INLINED_SIZE {
        slices := slices[v := Inlined(|data|, data + junk[|data|..])];
      } else {
        var b := NewBlock(data);
        slices := slices[v := Counted(b, 0, |data|)];
      }
      CountsStayExact(old(blocks), old(slices), blocks, slices, v);
    }

    // The copy constructor; the move constructor shares the block in the same way.
    method Copy(v: nat, from: nat)
      requires Valid() && v !in slices && from in slices
      modifies this`blocks, this`slices
      ensures Valid() && slices.Keys == old(slices).Keys + {v}
      ensures Content(v) == old(Content(from)) && freed == old(freed) && slices[v] == old(slices)[from]
      ensures OthersKept(old(blocks), old(slices), blocks, slices, v)
    {
      if slices[from].Counted? {
        AddRef(slices[from].block);
      }
      slices := slices[v := slices[from]];
      CountsStayExact(old(blocks), old(slices), blocks, slices, v);
    }

    // `if (_refs) _refs->AddRef()` and `if (_refs) _refs->DecRef()`.
    method Share(v: nat)
      requires v in slices && HeapOk() && (slices[v].Counted? ==> slices[v].block in blocks)
      modifies this`blocks
      ensures HeapOk() && blocks == Inc(old(blocks), slices[v])
    {
      if slices[v].Counted? {
        AddRef(slices[v].block);
      }
    }

    method Release(v: nat)
      requires v in slices && HeapOk()
      requires slices[v].Counted? ==> slices[v].block in blocks && blocks[slices[v].block].refs > 0
      modifies this`blocks, this`freed
      ensures HeapOk() && blocks == Dec(old(blocks), slices[v])
      ensures freed == old(freed)
                       + if slices[v].Counted? && old(blocks)[slices[v].block].refs == 1 then [slices[v].block] else []
    {
      if slices[v].Counted? {
        DecRef(slices[v].block);
      }
    }

    lemma LastOwnerCount(v: nat)
      requires Valid() && v in slices && slices[v].Counted?
      ensures blocks[slices[v].block].refs > 0
      ensures blocks[slices[v].block].refs == 1 <==> LastOwner(slices, v)
    {
      var o := Owners(slices, slices[v].block);
      assert BlockOk(blocks, slices, slices[v].block) && v in o;
      assert |o - {v}| == |o| - 1 && (o == {v} <==> o - {v} == {});
    }

    // Letting go of v's block frees it, before or after sharing another's, exactly if v is its last.
    lemma FreedByAssign(v: nat, from: nat)
      requires Valid() && v in slices && from in slices && v != from && slices[v].Counted?
      ensures slices[v].block in blocks && slices[v].block in Inc(blocks, slices[from])
      ensures blocks[slices[v].block].refs == 1 <==> LastOwner(slices, v)
      ensures Inc(blocks, slices[from])[slices[v].block].refs == 1 <==> LastOwner(slices, v)
    {
      LastOwnerCount(v);
      SharedCount(blocks, slices, v, from);
    }

    // Copy assignment: let go of the old block, then share the new one.
    method Assign(v: nat, from: nat)
      requires Valid() && v in slices && from in slices
      modifies this`blocks, this`slices, this`freed
      ensures Valid() && slices.Keys == old(slices).Keys
      ensures Content(v) == old(Content(from)) && slices[v] == old(slices)[from]
      ensures freed == old(freed) + if v != from && LastOwner(old(slices), v) then [old(slices)[v].block] else []
      ensures OthersKept(old(blocks), old(slices), blocks, slices, v)
    {
      if v != from {
        AssignKeeps(blocks, slices, v, from);
        if slices[v].Counted? { FreedByAssign(v, from); }
        Release(v);
        Share(from);
        slices := slices[v := slices[from]];
      }
    }

    // Move assignment: the same in the other order.
    method MoveAssign(v: nat, from: nat)
      requires Valid() && v in slices && from in slices
      modifies this`blocks, this`slices, this`freed
      ensures Valid() && slices.Keys == old(slices).Keys
      ensures Content(v) == old(Content(from)) && slices[v] == old(slices)[from]
      ensures freed == old(freed) + if v != from && LastOwner(old(slices), v) then [old(slices)[v].block] else []
      ensures OthersKept(old(blocks), old(slices), blocks, slices, v)
    {
      if v != from {
        AssignKeeps(blocks, slices, v, from);
        if slices[v].Counted? { FreedByAssign(v, from); }
        Share(from);
        Release(v);
        slices := slices[v := slices[from]];
      }
    }

    method Destroy(v: nat)
      requires Valid() && v in slices
      modifies this`blocks, this`slices, this`freed
      ensures Valid() && slices.Keys == old(slices).Keys - {v}
      ensures OthersKept(old(blocks), old(slices), blocks, slices, v)
      ensures freed == old(freed) + if LastOwner(old(slices), v) then [old(slices)[v].block] else []
    {
      DestroyKeeps(blocks, slices, v);
      if slices[v].Counted? { LastOwnerCount(v); }
      Release(v);
      slices := slices - {v};
    }

    // The slice shows another part of its storage, or its inline bytes have changed.
    method Reshape(v: nat, rep: Rep)
      requires Valid() && v in slices && RepOk(blocks, rep) && (rep.Counted? <==> slices[v].Counted?)
      requires rep.Counted? ==> rep.block == slices[v].block
      modifies this`slices
      ensures Valid() && slices == old(slices)[v := rep]
      ensures OthersKept(blocks, old(slices), blocks, slices, v)
    {
      ReshapeKeeps(blocks, slices, slices[v := rep], v, rep);
      slices := slices[v := rep];
    }

    method PopBack(v: nat, removeSize: nat)
      requires Valid() && v in slices
      modifies this`slices
      ensures Valid() && slices.Keys == old(slices).Keys
      ensures Content(v) == if removeSize <= |old(Content(v))| then old(Content(v))[..|old(Content(v))| - removeSize] else []
      ensures OthersKept(blocks, old(slices), blocks, slices, v)
    {
      if removeSize == 0 {
        return;
      }
      var n := if removeSize > slices[v].length then slices[v].length else removeSize;
      ShorterContent(blocks, slices[v], n);
      Reshape(v, slices[v].(length := slices[v].length - n));
    }

    // The inline form moves the bytes down; the heap form moves the pointer up.
    method PopFront(v: nat, removeSize: nat)
      requires Valid() && v in slices
      modifies this`slices
      ensures Valid() && slices.Keys == old(slices).Keys
      ensures Content(v) == if removeSize <= |old(Content(v))| then old(Content(v))[removeSize..] else []
      ensures OthersKept(blocks, old(slices), blocks, slices, v)
    {
      if removeSize == 0 {
        return;
      }
      var n := if removeSize > slices[v].length then slices[v].length else removeSize;
      FrontContent(blocks, slices[v], n);
      Reshape(v, FrontDropped(slices[v], n));
    }

    // No other slice sees what is written through this one.
    ghost predicate Exclusive(v: nat)
      requires v in slices
      reads this
    {
      slices[v].Counted? ==> LastOwner(slices, v)
    }

    // MakeSliceByLength: a slice of the given length for its maker to fill; `junk` is what the
    // allocated bytes happen to hold.
    method MakeSliceByLength(v: nat, junk: seq<byte>)
      requires Valid() && v !in slices
      modifies this`blocks, this`slices, this`nextBlock
      ensures Valid() && slices.Keys == old(slices).Keys + {v}
      ensures |Content(v)| == |junk| && Exclusive(v) && (slices[v].Counted? <==> |junk| > 23)
      ensures OthersKept(old(blocks), old(slices), blocks, slices, v)
    {
      if |junk| <= INLINED_SIZE {
        slices := slices[v := Inlined(|junk|, Zeros())];
      } else {
        var b := NewBlock(junk);
        slices := slices[v := Counted(b, 0, |junk|)];
        assert forall w :: w in old(slices) ==> RepOk(old(blocks), old(slices)[w]);
      }
      CountsStayExact(old(blocks), old(slices), blocks, slices, v);
    }

    // memcpy into a block.
    method WriteBlock(v: nat, at: nat, data: seq<byte>)
      requires Valid() && v in slices && slices[v].Counted? && Exclusive(v) && at + |data| <= |Content(v)|
      modifies this`blocks
      ensures Valid() && Exclusive(v) && Content(v) == Overwritten(old(Content(v)), at, data)
      ensures OthersKept(old(blocks), slices, blocks, slices, v)
    {
      var Counted(b, offset, length) := slices[v];
      OverwrittenPart(blocks[b].bytes, offset, length, at, data);
      blocks := blocks[b := blocks[b].(bytes := Overwritten(blocks[b].bytes, offset + at, data))];
      WrittenBlockKeeps(old(blocks), blocks, slices, v);
    }

    // memcpy into Buffer() + at.
    method Write(v: nat, at: nat, data: seq<byte>)
      requires Valid() && v in slices && Exclusive(v) && at + |data| <= |Content(v)|
      modifies this`blocks, this`slices
      ensures Valid() && slices.Keys == old(slices).Keys && Exclusive(v)
      ensures Content(v) == Overwritten(old(Content(v)), at, data)
      ensures OthersKept(old(blocks), old(slices), blocks, slices, v)
    {
      match slices[v]
      case Inlined(length, bytes) =>
        Reshape(v, Inlined(length, Overwritten(bytes, at, data)));
        OverwrittenPart(bytes, 0, length, at, data);
        assert Content(v) == Overwritten(bytes, at, data)[0..length] && bytes[0..length] == bytes[..length];
      case Counted(_, _, _) => WriteBlock(v, at, data);
    }

    // `if (!s.Empty()) memcpy(buff, s.Buffer(), s.size())`.
    method FillFrom(v: nat, at: nat, from: nat)
      requires Valid() && v in slices && from in slices && v != from
      requires Exclusive(v) && at + |Content(from)| <= |Content(v)|
      modifies this`blocks, this`slices
      ensures Valid() && slices.Keys == old(slices).Keys && Exclusive(v)
      ensures Content(v) == Overwritten(old(Content(v)), at, old(Content(from)))
      ensures OthersKept(old(blocks), old(slices), blocks, slices, v)
    {
      if slices[from].length > 0 {
        Write(v, at, Content(from));
      }
    }

    // The two copies.
    method FillFromBoth(v: nat, s1: nat, s2: nat)
      requires Valid() && v in slices && s1 in slices && s2 in slices && v != s1 && v != s2
      requires Exclusive(v) && |Content(v)| == |Content(s1)| + |Content(s2)|
      modifies this`blocks, this`slices
      ensures Valid() && slices.Keys == old(slices).Keys && Exclusive(v)
      ensures Content(v) == old(Content(s1)) + old(Content(s2))
      ensures OthersKept(old(blocks), old(slices), blocks, slices, v)
    {
      ghost var all, a, b := Content(v), Content(s1), Content(s2);
      FillFrom(v, 0, s1);
      ghost var blocks1, slices1 := blocks, slices;
      assert Kept(old(blocks), old(slices), blocks, slices, s1) && Kept(old(blocks), old(slices), blocks, slices, s2);
      FillFrom(v, slices[s1].length, s2);
      KeptTwice(old(blocks), old(slices), blocks1, slices1, blocks, slices, v);
      OverwrittenTwice(all, a, b);
    }

    // operator+: a new slice, filled from both.
    method Concat(v: nat, s1: nat, s2: nat, junk: seq<byte>)
      requires Valid() && v !in slices && s1 in slices && s2 in slices
      requires |junk| == |Content(s1)| + |Content(s2)|
      modifies this`blocks, this`slices, this`nextBlock
      ensures Valid() && slices.Keys == old(slices).Keys + {v}
      ensures Content(v) == old(Content(s1)) + old(Content(s2))
      ensures Exclusive(v) && OthersKept(old(blocks), old(slices), blocks, slices, v)
    {
      if slices[s1].length == 0 && slices[s2].length == 0 {
        ConstructEmpty(v);
        return;
      }
      MakeSliceByLength(v, junk);
      ghost var blocks1, slices1 := blocks, slices;
      assert Kept(old(blocks), old(slices), blocks, slices, s1) && Kept(old(blocks), old(slices), blocks, slices, s2);
      FillFromBoth(v, s1, s2);
      KeptTwice(old(blocks), old(slices), blocks1, slices1, blocks, slices, v);
    }

    /** A block is live exactly while some slice refers to it, with as many references as
        slices; once freed it stays freed and nothing refers to it. */
    lemma BlocksLiveWhileOwned(b: nat)
      requires Valid() && b < nextBlock
      ensures b in blocks <==> Owners(slices, b) != {}
      ensures b in blocks ==> blocks[b].refs == |Owners(slices, b)|
      ensures b in freed <==> b !in blocks
      ensures multiset(freed)[b] <= 1
    {
      if b in blocks {
        assert BlockOk(blocks, slices, b);
      } else if v :| v in Owners(slices, b) {
        assert RepOk(blocks, slices[v]);
      }
      DistinctOnce(freed, b);
    }
  }
}
