/**
 What ParsingProtocol (src/linux/connection.cc, src/windows/connection.cc) should cut a
 byte stream into, what its loop does as written, and when the two agree.
 */
module Framing {
  import opened Bytes
  import opened Wrappers

  // OnCheckPackageLength: negative is an error, zero asks for more data, else the length.
  type Check = seq<byte> -> int

  const HEADER: nat := 1024

  predicate KeepsAnswer(check: Check, d: seq<byte>, e: seq<byte>) {
    check(d) != 0 ==> check(d + e) == check(d)
  }

  // Answers other than "more data" do not change when bytes are appended.
  ghost predicate Stable(check: Check) {
    forall d, e :: KeepsAnswer(check, d, e)
  }

  // The callback always decides when shown a full first read.
  ghost predicate DecidesOnHeader(check: Check) {
    forall d :: |d| == HEADER ==> check(d) != 0
  }

  datatype Parse = Parse(packages: seq<Slice>, rest: seq<byte>, broken: bool)

  // Greedy framing: the callback sees everything there is.
  function Frames(check: Check, buf: seq<byte>): Parse {
    if buf == [] then Parse([], [], false)
    else
      var n := check(buf);
      if n < 0 then Parse([], buf, true)
      else if n == 0 || n > |buf| then Parse([], buf, false)
      else
        var p := Frames(check, buf[n..]);
        Parse([buf[..n]] + p.packages, p.rest, p.broken)
  }

  /** Framing neither loses, invents nor reorders bytes. */
  lemma {:induction false} FramesConserveBytes(check: Check, buf: seq<byte>)
    ensures Flat(Frames(check, buf).packages) + Frames(check, buf).rest == buf
    decreases |buf|
  {
    var n := if buf == [] then 0 else check(buf);
    if 0 < n <= |buf| {
      FramesConserveBytes(check, buf[n..]);
      var p := Frames(check, buf);
      assert p.packages[0] == buf[..n] && p.packages[1..] == Frames(check, buf[n..]).packages;
      assert buf == buf[..n] + buf[n..];
    }
  }

  // Package i is as long as the callback answers for what stands from it on.
  ghost predicate CutAt(check: Check, packages: seq<Slice>, rest: seq<byte>, i: nat)
    requires i < |packages|
  {
    packages[i] != [] && check(Flat(packages[i..]) + rest) == |packages[i]|
  }

  // Framing said without the recursion.
  ghost predicate IsFraming(check: Check, buf: seq<byte>, p: Parse) {
    && Flat(p.packages) + p.rest == buf
    && (forall i: nat :: i < |p.packages| ==> CutAt(check, p.packages, p.rest, i))
    && (p.rest != [] ==> check(p.rest) <= 0 || check(p.rest) > |p.rest|)
    && (p.broken <==> p.rest != [] && check(p.rest) < 0)
  }

  lemma CutInTail(check: Check, packages: seq<Slice>, rest: seq<byte>, i: nat)
    requires i + 1 < |packages|
    ensures CutAt(check, packages, rest, i + 1) <==> CutAt(check, packages[1..], rest, i)
  {
    assert packages[1..][i..] == packages[i + 1..];
  }

  lemma {:induction false} FramesIsFraming(check: Check, buf: seq<byte>)
    ensures IsFraming(check, buf, Frames(check, buf))
    decreases |buf|
  {
    FramesConserveBytes(check, buf);
    var p, n := Frames(check, buf), if buf == [] then 0 else check(buf);
    if 0 < n <= |buf| {
      FramesIsFraming(check, buf[n..]);
      var q := Frames(check, buf[n..]);
      assert p.packages[1..] == q.packages;
      forall i: nat | i < |p.packages|
        ensures CutAt(check, p.packages, p.rest, i)
      {
        if i == 0 {
          assert p.packages[0..] == p.packages;
        } else {
          assert CutAt(check, q.packages, q.rest, i - 1);
          CutInTail(check, p.packages, p.rest, i - 1);
        }
      }
    }
  }

  lemma {:induction false} FramingUnique(check: Check, buf: seq<byte>, p: Parse)
    requires IsFraming(check, buf, p)
    ensures p == Frames(check, buf)
    decreases |p.packages|
  {
    if p.packages == [] {
      assert p.rest == buf;
    } else {
      var first, q := p.packages[0], p.(packages := p.packages[1..]);
      assert CutAt(check, p.packages, p.rest, 0) && p.packages[0..] == p.packages;
      assert buf == first + (Flat(q.packages) + q.rest);
      assert buf[|first|..] == Flat(q.packages) + q.rest && buf[..|first|] == first;
      forall i: nat | i < |q.packages|
        ensures CutAt(check, q.packages, q.rest, i)
      {
        assert CutAt(check, p.packages, p.rest, i + 1);
        CutInTail(check, p.packages, p.rest, i);
      }
      FramingUnique(check, buf[|first|..], q);
      assert p.packages == [first] + q.packages;
    }
  }

  /** Greedy framing, from its definition: packages and rest are the bytes; each package is as
      long as the callback answers on seeing it with all that follows; the rest is what it has
      no whole package for, and is broken exactly if the callback calls it an error. */
  lemma FramesExactly(check: Check, buf: seq<byte>, p: Parse)
    ensures IsFraming(check, buf, p) <==> p == Frames(check, buf)
  {
    FramesIsFraming(check, buf);
    if IsFraming(check, buf, p) { FramingUnique(check, buf, p); }
  }

  // Framing `a`, then its rest with `b` behind it.
  function Resumed(check: Check, p: Parse, b: seq<byte>): Parse {
    var q := Frames(check, p.rest + b);
    Parse(p.packages + q.packages, q.rest, q.broken)
  }

  // One package in front of both.
  lemma ResumeBehindPackage(check: Check, p: Parse, package: Slice, b: seq<byte>)
    ensures Resumed(check, p.(packages := [package] + p.packages), b)
         == Resumed(check, p, b).(packages := [package] + Resumed(check, p, b).packages)
  {
    var q := Frames(check, p.rest + b);
    assert [package] + p.packages + q.packages == [package] + (p.packages + q.packages);
  }

  lemma FramesDeliver(check: Check, buf: seq<byte>)
    requires 0 < check(buf) <= |buf|
    ensures var n, p := check(buf), Frames(check, buf[check(buf)..]);
            Frames(check, buf) == p.(packages := [buf[..n]] + p.packages)
  {
  }

  /** Framing a stream piece by piece, keeping the unfinished rest, is framing the whole; after
      an error no more packages come. */
  lemma {:induction false} FramesAppend(check: Check, a: seq<byte>, b: seq<byte>)
    requires Stable(check)
    ensures Frames(check, a + b) == Resumed(check, Frames(check, a), b)
    ensures Frames(check, a).broken ==>
              Frames(check, a + b) == Frames(check, a).(rest := Frames(check, a).rest + b)
    decreases |a|
  {
    var n := check(a);
    if a == [] || n == 0 || n > |a| {
      assert Frames(check, a).packages == [] && Frames(check, a).rest == a;
    } else if n < 0 {
      assert KeepsAnswer(check, a, b);
    } else {
      assert KeepsAnswer(check, a, b);
      assert (a + b)[n..] == a[n..] + b && (a + b)[..n] == a[..n];
      FramesAppend(check, a[n..], b);
      FramesDeliver(check, a);
      FramesDeliver(check, a + b);
      ResumeBehindPackage(check, Frames(check, a[n..]), a[..n], b);
    }
  }

  // What a connection has delivered and kept after receiving the chunks one after another.
  function Feed(check: Check, acc: Parse, chunks: seq<seq<byte>>): Parse
    decreases |chunks|
  {
    if chunks == [] then acc else Feed(check, Resumed(check, acc, chunks[0]), chunks[1..])
  }

  lemma FlatStep(seen: seq<byte>, chunks: seq<seq<byte>>)
    requires chunks != []
    ensures seen + Flat(chunks) == (seen + chunks[0]) + Flat(chunks[1..])
  {
  }

  lemma {:induction false} FeedFrom(check: Check, acc: Parse, seen: seq<byte>, chunks: seq<seq<byte>>)
    requires Stable(check) && acc == Frames(check, seen)
    ensures Feed(check, acc, chunks) == Frames(check, seen + Flat(chunks))
    decreases |chunks|
  {
    if chunks == [] {
      assert seen + Flat(chunks) == seen;
    } else {
      FramesAppend(check, seen, chunks[0]);
      FeedFrom(check, Resumed(check, acc, chunks[0]), seen + chunks[0], chunks[1..]);
      FlatStep(seen, chunks);
    }
  }

  /** Chunking independence: packages, leftover and error depend only on the bytes received,
      not on how the receives cut them up. */
  lemma ChunkingIndependence(check: Check, one: seq<seq<byte>>, other: seq<seq<byte>>)
    requires Stable(check) && Flat(one) == Flat(other)
    ensures Feed(check, Parse([], [], false), one) == Frames(check, Flat(one))
    ensures Feed(check, Parse([], [], false), one) == Feed(check, Parse([], [], false), other)
  {
    assert [] + Flat(one) == Flat(one) && [] + Flat(other) == Flat(other);
    FeedFrom(check, Parse([], [], false), [], one);
    FeedFrom(check, Parse([], [], false), [], other);
  }

  // -------------------------------------------------------------------------
  // The loop as written

  // What the first read shows the callback.
  function FirstRead(buf: seq<byte>): seq<byte> {
    if |buf| <= HEADER then buf else buf[..HEADER]
  }

  datatype Pass = Stop | Fail | Deliver(package: Slice)

  // One pass of the outer loop.  The retry is a `continue` in a `do ... while (false)`, so
  // it falls out with length 0: an empty package is delivered and no byte is consumed.
  function WrittenPass(check: Check, buf: seq<byte>): Pass {
    var n := check(FirstRead(buf));
    if n < 0 then Fail
    else if n == 0 then (if |buf| <= HEADER then Stop else Deliver([]))
    else if n <= |buf| then Deliver(buf[..n])
    else Stop
  }

  // The outer loop, given at most `fuel` passes; None when it has not left the loop by then.
  function WrittenLoop(check: Check, buf: seq<byte>, fuel: nat): (r: Option<Parse>)
    ensures r.Some? ==> |r.value.rest| <= |buf|
    decreases fuel
  {
    if buf == [] then Some(Parse([], [], false))
    else if fuel == 0 then None
    else
      match WrittenPass(check, buf)
      case Fail => Some(Parse([], buf, true))
      case Stop => Some(Parse([], buf, false))
      case Deliver(package) =>
        match WrittenLoop(check, buf[|package|..], fuel - 1)
        case None => None
        case Some(p) => Some(Parse([package] + p.packages, p.rest, p.broken))
  }

  ghost predicate WrittenLoopEnds(check: Check, buf: seq<byte>) {
    exists fuel: nat :: WrittenLoop(check, buf, fuel).Some?
  }

  // Framing comes to a point where more than 1024 bytes are left and the callback asks for
  // more on seeing the first 1024 of them.
  predicate Undecided(check: Check, buf: seq<byte>)
    decreases |buf|
  {
    || (|buf| > HEADER && check(FirstRead(buf)) == 0)
    || (buf != [] && 0 < check(buf) <= |buf| && Undecided(check, buf[check(buf)..]))
  }

  // A stream on which framing is undecided stays so when more bytes follow.
  lemma {:induction false} UndecidedExtends(check: Check, a: seq<byte>, b: seq<byte>)
    requires Stable(check) && Undecided(check, a)
    ensures Undecided(check, a + b)
    decreases |a|
  {
    if |a| > HEADER && check(FirstRead(a)) == 0 {
      assert FirstRead(a + b) == FirstRead(a);
    } else {
      var n := check(a);
      assert KeepsAnswer(check, a, b);
      UndecidedExtends(check, a[n..], b);
      assert (a + b)[n..] == a[n..] + b;
    }
  }

  // What framing has cut off already does not change whether the whole stream is undecided.
  lemma {:induction false} UndecidedResumes(check: Check, a: seq<byte>, b: seq<byte>)
    requires Stable(check) && Undecided(check, Frames(check, a).rest + b)
    ensures Undecided(check, a + b)
    decreases |a|
  {
    var n := check(a);
    if a != [] && 0 < n <= |a| {
      assert KeepsAnswer(check, a, b);
      FramesDeliver(check, a);
      UndecidedResumes(check, a[n..], b);
      assert (a + b)[n..] == a[n..] + b;
    }
  }

  lemma FirstReadDecides(check: Check, buf: seq<byte>)
    requires Stable(check) && (|buf| <= HEADER || check(FirstRead(buf)) != 0)
    ensures check(FirstRead(buf)) == check(buf)
  {
    if |buf| > HEADER {
      assert KeepsAnswer(check, FirstRead(buf), buf[HEADER..]);
      assert buf == FirstRead(buf) + buf[HEADER..];
    }
  }

  // Where the first read decides, a pass of the written loop is a step of greedy framing.
  lemma {:induction false} WrittenLoopFrames(check: Check, buf: seq<byte>, fuel: nat)
    requires Stable(check) && !Undecided(check, buf) && fuel >= |buf|
    ensures WrittenLoop(check, buf, fuel) == Some(Frames(check, buf))
    decreases |buf|
  {
    if buf != [] {
      FirstReadDecides(check, buf);
      var n := check(buf);
      if 0 < n <= |buf| {
        WrittenLoopFrames(check, buf[n..], fuel - 1);
      }
    }
  }

  // Where it does not, every further pass finds the same bytes.
  lemma {:induction false} WrittenLoopStuck(check: Check, buf: seq<byte>, fuel: nat)
    requires Stable(check) && Undecided(check, buf)
    ensures WrittenLoop(check, buf, fuel) == None
    decreases fuel
  {
    if fuel > 0 {
      if |buf| > HEADER && check(FirstRead(buf)) == 0 {
        assert buf[0..] == buf;
        WrittenLoopStuck(check, buf, fuel - 1);
      } else {
        FirstReadDecides(check, buf);
        WrittenLoopStuck(check, buf[check(buf)..], fuel - 1);
      }
    }
  }

  lemma {:induction false} MoreFuel(check: Check, buf: seq<byte>, fuel: nat, more: nat)
    requires fuel <= more && WrittenLoop(check, buf, fuel).Some?
    ensures WrittenLoop(check, buf, more) == WrittenLoop(check, buf, fuel)
    decreases fuel
  {
    if buf != [] && WrittenPass(check, buf).Deliver? {
      MoreFuel(check, buf[|WrittenPass(check, buf).package|..], fuel - 1, more - 1);
    }
  }

  /** The loop as written ends exactly when the first read always decides, and then its
      outcome is the greedy framing. */
  lemma WrittenLoopExact(check: Check, buf: seq<byte>)
    requires Stable(check)
    ensures WrittenLoopEnds(check, buf) <==> !Undecided(check, buf)
    ensures forall fuel: nat :: WrittenLoop(check, buf, fuel).Some? ==>
                                  WrittenLoop(check, buf, fuel).value == Frames(check, buf)
  {
    if Undecided(check, buf) {
      forall fuel: nat ensures WrittenLoop(check, buf, fuel) == None { WrittenLoopStuck(check, buf, fuel); }
    } else {
      WrittenLoopFrames(check, buf, |buf|);
      forall fuel: nat | WrittenLoop(check, buf, fuel).Some?
        ensures WrittenLoop(check, buf, fuel).value == Frames(check, buf)
      {
        MoreFuel(check, buf, fuel, fuel + |buf|);
        WrittenLoopFrames(check, buf, fuel + |buf|);
      }
    }
  }

  // A callback that asks for more on everything: 1025 bytes are enough to hang the loop.
  lemma WrittenLoopCanHang()
    ensures var check: Check := _ => 0;
            var buf := seq(1025, _ => 0 as byte);
            && Stable(check)
            && Frames(check, buf) == Parse([], buf, false)
            && forall fuel: nat :: WrittenLoop(check, buf, fuel) == None
  {
    var check: Check := _ => 0;
    var buf := seq(1025, _ => 0 as byte);
    assert Stable(check) && Undecided(check, buf);
    forall fuel: nat ensures WrittenLoop(check, buf, fuel) == None { WrittenLoopStuck(check, buf, fuel); }
  }

  // A first read the callback cannot decide on, with one byte behind it.
  lemma UndecidedWitness(check: Check, d: seq<byte>, x: byte)
    requires |d| == HEADER && check(d) == 0
    ensures Undecided(check, d + [x])
  {
    assert FirstRead(d + [x]) == d;
  }

  /** A callback that decides on 1024 bytes is never undecided, on any stream. */
  lemma {:induction false} DecidesNeverUndecided(check: Check, buf: seq<byte>)
    requires DecidesOnHeader(check)
    ensures !Undecided(check, buf)
    decreases |buf|
  {
    if buf != [] && 0 < check(buf) <= |buf| {
      DecidesNeverUndecided(check, buf[check(buf)..]);
    }
  }

  /** The loop as written ends on every buffer exactly when the callback decides on every
      1024 bytes. */
  lemma AlwaysEndsExact(check: Check)
    requires Stable(check)
    ensures (forall buf :: WrittenLoopEnds(check, buf)) <==> forall d :: |d| == 1024 ==> check(d) != 0
  {
    if DecidesOnHeader(check) {
      forall buf
        ensures WrittenLoopEnds(check, buf)
      {
        DecidesNeverUndecided(check, buf);
        WrittenLoopExact(check, buf);
      }
    } else {
      var d :| |d| == HEADER && check(d) == 0;
      var buf := d + [0];
      UndecidedWitness(check, d, 0);
      WrittenLoopExact(check, buf);
      assert !WrittenLoopEnds(check, buf);
    }
  }
}
