/**
 The receive side that src/linux/connection.cc and src/windows/connection.cc have in common:
 recv() into a buffer of 8192 bytes, and ParsingProtocol over what has accumulated.
 */
module Receiving {
  import opened Bytes
  import opened Framing
  import opened Wrappers
  import B = SliceBuffer

  const READ_SIZE: nat := 8192

  // What recv() may answer; EINTR, EWOULDBLOCK and EAGAIN are one case.
  datatype Received = Data(bytes: seq<byte>) | Closed | RecvAgain | RecvFailed

  // The bytes a list of recv answers carries.
  function Carried(rs: seq<Received>): seq<byte> {
    if rs == [] then [] else (if rs[0].Data? then rs[0].bytes else []) + Carried(rs[1..])
  }

  // How a pass of the receive loop went: the read filled its buffer, or did not, or nothing
  // was there, or the socket or the protocol failed.
  datatype Pass = Full | Short | Blocked | Broken

  // The loop reads on while a read fills its buffer: what it leaves unread, and how the
  // socket ends it.
  function Unread(rs: seq<Received>): seq<Received> {
    if rs == [] then []
    else if rs[0].Data? && |rs[0].bytes| == READ_SIZE then Unread(rs[1..])
    else rs[1..]
  }

  function Ending(rs: seq<Received>): (p: Pass)
    ensures !p.Full?
  {
    if rs == [] then Blocked
    else
      match rs[0]
      case Data(bytes) => if |bytes| == READ_SIZE then Ending(rs[1..]) else Short
      case RecvAgain => Blocked
      case _ => Broken
  }

  predicate FullRead(r: Received) {
    r.Data? && |r.bytes| == 8192
  }

  // Where the loop stops: the first answer that is not a full read, or the end.
  function FirstNotFull(rs: seq<Received>): (k: nat)
    ensures k <= |rs| && (k < |rs| ==> !FullRead(rs[k]))
    ensures forall i :: 0 <= i < k ==> FullRead(rs[i])
  {
    if rs != [] && FullRead(rs[0]) then 1 + FirstNotFull(rs[1..]) else 0
  }

  /** The loop leaves what follows the first answer that is not a full read, and ends as that
      answer says; answers that are all full reads end where the next would block. */
  lemma {:induction false} EndsAtFirst(rs: seq<Received>, k: nat)
    requires k <= |rs| && forall i :: 0 <= i < k ==> FullRead(rs[i])
    requires k < |rs| ==> !FullRead(rs[k])
    ensures k == FirstNotFull(rs)
    ensures Unread(rs) == if k < |rs| then rs[k + 1..] else []
    ensures Ending(rs).Broken? <==> k < |rs| && (rs[k].Closed? || rs[k].RecvFailed?)
    ensures Ending(rs).Blocked? <==> k == |rs| || rs[k].RecvAgain?
    ensures Ending(rs).Short? <==> k < |rs| && rs[k].Data?
  {
    if k > 0 {
      assert rs[0] in rs && FullRead(rs[0]);
      EndsAtFirst(rs[1..], k - 1);
    }
  }

  // What recv() answers for a burst of bytes before it would block.
  function Burst(bytes: seq<byte>): seq<Received> {
    if bytes == [] then []
    else if |bytes| <= READ_SIZE then [Data(bytes)]
    else [Data(bytes[..READ_SIZE])] + Burst(bytes[READ_SIZE..])
  }

  /** Reading a burst ends in a short read, or would block, according to its length. */
  lemma {:induction false} BurstEnding(bytes: seq<byte>)
    ensures Ending(Burst(bytes)) == if |bytes| % 8192 == 0 then Blocked else Short
    ensures Unread(Burst(bytes)) == [] && Carried(Burst(bytes)) == bytes
  {
    var rs := Burst(bytes);
    if |bytes| > READ_SIZE {
      BurstEnding(bytes[READ_SIZE..]);
      assert rs[1..] == Burst(bytes[READ_SIZE..]);
      assert bytes == bytes[..READ_SIZE] + bytes[READ_SIZE..];
    } else if bytes != [] {
      assert rs[1..] == [];
    }
  }

  // How a receive loop that was given `rs` stands after a pass.
  ghost predicate Outcome(rs: seq<Received>, left: seq<Received>, pass: Pass, healthy: bool) {
    if pass.Full? then healthy && Unread(left) == Unread(rs) && Ending(left) == Ending(rs)
    else if healthy then pass == Ending(rs) && left == Unread(rs)
    else pass.Broken?
  }

  // The kernel's side: the answers still to come.
  class Inbox {
    var incoming: seq<Received>

    ghost predicate Valid()
      reads this
    {
      forall i :: 0 <= i < |incoming| && incoming[i].Data? ==> 0 < |incoming[i].bytes| <= READ_SIZE
    }

    constructor (incoming: seq<Received>)
      requires forall i :: 0 <= i < |incoming| && incoming[i].Data? ==> 0 < |incoming[i].bytes| <= READ_SIZE
      ensures Valid() && this.incoming == incoming
    {
      this.incoming := incoming;
    }

    method Recv(online: bool) returns (r: Received)
      requires Valid()
      modifies this`incoming
      ensures Valid()
      ensures r.Data? ==> 0 < |r.bytes| <= READ_SIZE
      ensures !online ==> r == RecvFailed && incoming == old(incoming)
      ensures online ==> if old(incoming) == [] then r == RecvAgain && incoming == []
                         else r == old(incoming)[0] && incoming == old(incoming)[1..]
    {
      if !online { return RecvFailed; }
      if incoming == [] { return RecvAgain; }
      r := incoming[0];
      incoming := incoming[1..];
    }
  }

  // `done` packages have been cut off the front and `buf` is what is left.
  ghost predicate PartWay(check: Check, whole: Parse, done: seq<Slice>, buf: seq<byte>) {
    var p := Frames(check, buf);
    whole == Parse(done + p.packages, p.rest, p.broken)
  }

  lemma PartWayStart(check: Check, buf: seq<byte>)
    ensures PartWay(check, Frames(check, buf), [], buf)
  {
    var p := Frames(check, buf);
    assert [] + p.packages == p.packages;
  }

  lemma PartWayStep(check: Check, whole: Parse, done: seq<Slice>, buf: seq<byte>)
    requires PartWay(check, whole, done, buf) && 0 < check(buf) <= |buf|
    ensures PartWay(check, whole, done + [buf[..check(buf)]], buf[check(buf)..])
  {
    var n := check(buf);
    var p := Frames(check, buf[n..]);
    assert done + ([buf[..n]] + p.packages) == (done + [buf[..n]]) + p.packages;
  }

  lemma StaysDecided(check: Check, buf: seq<byte>)
    requires !Undecided(check, buf)
    ensures |buf| > HEADER ==> check(FirstRead(buf)) != 0
    ensures buf != [] && 0 < check(buf) <= |buf| ==> !Undecided(check, buf[check(buf)..])
  {
  }

  lemma PartWayEnd(check: Check, whole: Parse, done: seq<Slice>, buf: seq<byte>)
    requires PartWay(check, whole, done, buf)
    requires buf == [] || check(buf) <= 0 || check(buf) > |buf|
    ensures whole == Parse(done, buf, buf != [] && check(buf) < 0)
  {
    assert done + [] == done;
  }

  // What is never undecided in the end is not undecided before.
  lemma DecidedOnTheWay(check: Check, sofar: seq<byte>, later: seq<byte>)
    requires Stable(check) && !Undecided(check, sofar + later)
    ensures !Undecided(check, sofar)
  {
    if Undecided(check, sofar) { UndecidedExtends(check, sofar, later); }
  }

  class Receiver {
    const proto: Option<Check>
    const inbox: Inbox
    const rcvBuffer: B.SliceBuffer
    var delivered: seq<Slice>        // the slices handed to OnDataReceived, in order
    ghost var received: seq<byte>    // every byte recv() has returned
    ghost var chunks: seq<Slice>     // the same, read by read

    ghost predicate Valid()
      reads this, inbox, rcvBuffer
    {
      rcvBuffer.Valid() && inbox.Valid()
    }

    // What has been delivered is the framing of everything received; the buffer is the rest.
    ghost predicate Framed()
      reads this, rcvBuffer
    {
      match proto
      case None => delivered == chunks && Flat(chunks) == received && rcvBuffer.Content() == []
      case Some(check) =>
        && delivered == Frames(check, received).packages
        && rcvBuffer.Content() == Frames(check, received).rest
    }

    // No package length seen so far was an error.
    ghost predicate Healthy()
      reads this
    {
      proto.Some? ==> !Frames(proto.value, received).broken
    }

    // The received bytes together with those the socket still holds.
    ghost function Stream(): seq<byte>
      reads this, inbox
    {
      received + Carried(inbox.incoming)
    }

    // The receive loop as written ends on this stream (Framing.WrittenLoopExact).
    ghost predicate GoodProtocol()
      reads this, inbox
    {
      proto.Some? ==> Stable(proto.value) && !Undecided(proto.value, Stream())
    }

    constructor (proto: Option<Check>, inbox: Inbox)
      requires inbox.Valid()
      ensures Valid() && Framed() && Healthy() && this.proto == proto && this.inbox == inbox
      ensures delivered == [] && received == [] && fresh(rcvBuffer)
    {
      this.proto, this.inbox := proto, inbox;
      rcvBuffer := new B.SliceBuffer();
      delivered, received, chunks := [], [], [];
    }

    method ReadSliceFromRecvBuffer(readSize: nat) returns (reachTail: bool, s: Slice)
      requires rcvBuffer.Valid()
      ensures reachTail == (readSize >= |rcvBuffer.Content()|)
      ensures s == if reachTail then rcvBuffer.Content() else rcvBuffer.Content()[..readSize]
    {
      var cacheSize := rcvBuffer.length;
      if readSize >= cacheSize {
        s := rcvBuffer.Merge();
        return true, s;
      }
      s := rcvBuffer.GetHeader(readSize);
      return false, s;
    }

    // Deliver one package and take its bytes off the buffer.
    method DeliverPackage(read: Slice, packLen: nat)
      requires rcvBuffer.Valid() && 0 < packLen <= |rcvBuffer.Content()| && read <= rcvBuffer.Content()
      modifies this`delivered, rcvBuffer
      ensures rcvBuffer.Valid() && rcvBuffer.Content() == old(rcvBuffer.Content())[packLen..]
      ensures delivered == old(delivered) + [old(rcvBuffer.Content())[..packLen]]
    {
      var package := read;
      if |package| < packLen {
        package := rcvBuffer.GetHeader(packLen);
      } else {
        var n := |package| - packLen;
        package := package[..|package| - n];
        assert package == rcvBuffer.Content()[..packLen];
      }
      delivered := delivered + [package];
      var _ := rcvBuffer.MoveHeader(packLen);
    }

    // The inner `do ... while (false)`: whether the pass goes on to deliver, the length the
    // callback answered and the bytes it saw.
    method ReadLength(check: Check) returns (go: bool, packLen: int, package: Slice)
      requires rcvBuffer.Valid()
      ensures packLen == check(package) && package == FirstRead(rcvBuffer.Content())
      ensures go ==> 0 <= packLen <= |rcvBuffer.Content()|
      ensures WrittenPass(check, rcvBuffer.Content()) ==
                if go then Deliver(rcvBuffer.Content()[..packLen]) else if packLen < 0 then Fail else Stop
    {
      var cacheSize := rcvBuffer.length;
      var readSize := HEADER;
      label once: {
        var reachTail;
        reachTail, package := ReadSliceFromRecvBuffer(readSize);
        packLen := check(package);
        if packLen < 0 {
          return false, packLen, package;
        }
        if packLen == 0 {
          if reachTail {
            return false, packLen, package;
          }
          readSize := readSize * 2;
          break once;  // `continue` leaves a do ... while (false)
        }
        if cacheSize >= packLen {
          break once;
        }
        return false, packLen, package;
      }
      go := true;
    }

    /** The loop as written.  It returns on exactly the buffers on which the first read
        always decides (Framing.WrittenLoopExact). */
    method ParsingProtocol(check: Check) returns (count: int)
      requires rcvBuffer.Valid() && Stable(check) && !Undecided(check, rcvBuffer.Content())
      modifies this`delivered, rcvBuffer
      ensures rcvBuffer.Valid()
      ensures var p := Frames(check, old(rcvBuffer.Content()));
              && delivered == old(delivered) + p.packages
              && rcvBuffer.Content() == p.rest
              && count == if p.broken then -1 else |p.packages|
    {
      var cacheSize := rcvBuffer.length;
      count := 0;
      ghost var whole := Frames(check, rcvBuffer.Content());
      ghost var done: seq<Slice> := [];
      PartWayStart(check, rcvBuffer.Content());
      while cacheSize > 0
        invariant rcvBuffer.Valid() && cacheSize == rcvBuffer.length
        invariant !Undecided(check, rcvBuffer.Content())
        invariant delivered == old(delivered) + done && count == |done|
        invariant PartWay(check, whole, done, rcvBuffer.Content())
        decreases cacheSize
      {
        ghost var buf := rcvBuffer.Content();
        StaysDecided(check, buf);
        FirstReadDecides(check, buf);
        var go, packLen, package := ReadLength(check);
        if !go {
          PartWayEnd(check, whole, done, buf);
          return if packLen < 0 then -1 else count;
        }
        PartWayStep(check, whole, done, buf);
        DeliverPackage(package, packLen);
        done := done + [buf[..packLen]];
        cacheSize := rcvBuffer.length;
        count := count + 1;
      }
      PartWayEnd(check, whole, done, rcvBuffer.Content());
    }

    // The retry as it is meant: the header is read again with twice the size until the
    // callback decides or the whole buffer has been shown.
    method ReadLengthRetrying(check: Check) returns (go: bool, packLen: int, package: Slice)
      requires rcvBuffer.Valid() && Stable(check)
      ensures package <= rcvBuffer.Content()
      ensures go <==> 0 < check(rcvBuffer.Content()) <= |rcvBuffer.Content()|
      ensures go ==> packLen == check(rcvBuffer.Content())
      ensures packLen < 0 <==> check(rcvBuffer.Content()) < 0
    {
      var cacheSize := rcvBuffer.length;
      var readSize: nat := HEADER;
      while true
        invariant readSize > 0
        decreases cacheSize - readSize
      {
        var reachTail;
        reachTail, package := ReadSliceFromRecvBuffer(readSize);
        assert KeepsAnswer(check, package, rcvBuffer.Content()[|package|..]);
        assert rcvBuffer.Content() == package + rcvBuffer.Content()[|package|..];
        packLen := check(package);
        if packLen < 0 {
          return false, packLen, package;
        }
        if packLen == 0 {
          if reachTail {
            return false, packLen, package;
          }
          readSize := readSize * 2;
          continue;
        }
        return cacheSize >= packLen, packLen, package;
      }
    }

    /** The parsing loop with that retry.  No premise on the callback is needed beyond
        stability. */
    method ParsingProtocolRetrying(check: Check) returns (count: int)
      requires rcvBuffer.Valid() && Stable(check)
      modifies this`delivered, rcvBuffer
      ensures rcvBuffer.Valid()
      ensures var p := Frames(check, old(rcvBuffer.Content()));
              && delivered == old(delivered) + p.packages
              && rcvBuffer.Content() == p.rest
              && count == if p.broken then -1 else |p.packages|
    {
      var cacheSize := rcvBuffer.length;
      count := 0;
      ghost var whole := Frames(check, rcvBuffer.Content());
      ghost var done: seq<Slice> := [];
      PartWayStart(check, rcvBuffer.Content());
      while cacheSize > 0
        invariant rcvBuffer.Valid() && cacheSize == rcvBuffer.length
        invariant delivered == old(delivered) + done && count == |done|
        invariant PartWay(check, whole, done, rcvBuffer.Content())
        decreases cacheSize
      {
        ghost var buf := rcvBuffer.Content();
        var go, packLen, package := ReadLengthRetrying(check);
        if !go {
          PartWayEnd(check, whole, done, buf);
          return if packLen < 0 then -1 else count;
        }
        PartWayStep(check, whole, done, buf);
        DeliverPackage(package, packLen);
        done := done + [buf[..packLen]];
        cacheSize := rcvBuffer.length;
        count := count + 1;
      }
      PartWayEnd(check, whole, done, rcvBuffer.Content());
    }

    // What the receive loop does with the bytes of one recv().
    method TakeBytes(bytes: seq<byte>) returns (ok: bool)
      requires Valid() && Framed()
      requires proto.Some? ==> Stable(proto.value) && !Undecided(proto.value, received + bytes)
      modifies this`delivered, this`received, this`chunks, rcvBuffer
      ensures Valid() && Framed() && received == old(received) + bytes && chunks == old(chunks) + [bytes]
      ensures old(Healthy()) ==> (ok <==> Healthy())
    {
      ghost var before := received;
      received, chunks := received + bytes, chunks + [bytes];
      if proto.None? {
        FlatAppend(delivered, bytes);
        delivered := delivered + [bytes];
        return true;
      }
      var check := proto.value;
      rcvBuffer.AddSlice(bytes);
      FramesAppend(check, before, bytes);
      if Undecided(check, rcvBuffer.Content()) { UndecidedResumes(check, before, bytes); }
      var n := ParsingProtocol(check);
      return n != -1;
    }

    /** One pass of the receive loop: whatever recv() answers, the delivered packages stay the
        greedy framing of all bytes received and every byte taken from the socket is
        accounted for. */
    method ReceiveOnce(online: bool) returns (pass: Pass)
      requires Valid() && (online ==> Framed()) && GoodProtocol()
      modifies this`delivered, this`received, this`chunks, rcvBuffer, inbox`incoming
      ensures Valid() && (online ==> Framed()) && Stream() == old(Stream())
      ensures pass.Full? ==> |inbox.incoming| < |old(inbox.incoming)|
      ensures online && old(Healthy()) ==> Outcome(old(inbox.incoming), inbox.incoming, pass, Healthy())
      ensures !online ==> pass.Broken? && received == old(received)
      ensures !online ==> delivered == old(delivered) && rcvBuffer.vs == old(rcvBuffer.vs)
    {
      ghost var before := received;
      var r := inbox.Recv(online);
      match r
      case Closed | RecvFailed => return Broken;
      case RecvAgain => return Blocked;
      case Data(bytes) =>
        ghost var later := Carried(inbox.incoming);
        assert before + (bytes + later) == (before + bytes) + later;
        if proto.Some? { DecidedOnTheWay(proto.value, before + bytes, later); }
        var ok := TakeBytes(bytes);
        if !ok { return Broken; }
        return if |bytes| == READ_SIZE then Full else Short;
    }

    // The loop: read on while a read fills its buffer.
    method Receive(online: bool) returns (pass: Pass)
      requires Valid() && (online ==> Framed()) && GoodProtocol()
      modifies this`delivered, this`received, this`chunks, rcvBuffer, inbox`incoming
      ensures Valid() && (online ==> Framed()) && Stream() == old(Stream()) && !pass.Full?
      ensures online && old(Healthy()) ==> Outcome(old(inbox.incoming), inbox.incoming, pass, Healthy())
      ensures !online ==> pass.Broken? && received == old(received)
    {
      pass := ReceiveOnce(online);
      while pass.Full?
        invariant Valid() && (online ==> Framed()) && GoodProtocol() && Stream() == old(Stream())
        invariant online && old(Healthy()) ==> Outcome(old(inbox.incoming), inbox.incoming, pass, Healthy())
        invariant !online ==> pass.Broken? && received == old(received)
        decreases pass.Full?, |inbox.incoming|
      {
        pass := ReceiveOnce(online);
      }
    }
  }
}
