/**
 src/windows/connection.cc: overlapped sends of a bounded gather list, one at a time, and
 zero-byte overlapped receives whose completions start a receive loop; and the completions
 of both.
 */
module WindowsConnection {
  import opened Bytes
  import opened Events
  import opened Receiving
  import opened Wrappers
  import B = SliceBuffer

  const MAX_PACKAGE_SIZE: nat := 0xffff
  const MAX_WSABUF_COUNT: nat := 16

  // The kernel: overlapped calls it holds, completions not yet handled, bytes it has sent.
  class Kernel {
    var outstanding: seq<seq<Slice>>
    var reported: Option<nat>
    var sent: seq<byte>
    var receives: nat
    var readable: nat        // completions of receives
    var refusals: seq<bool>  // whether coming WSASend and WSARecv calls fail

    constructor (refusals: seq<bool>)
      ensures outstanding == [] && reported == None && sent == [] && this.refusals == refusals
      ensures receives == readable == 0
    {
      outstanding, reported, sent, this.refusals := [], None, [], refusals;
      receives, readable := 0, 0;
    }

    // Whether the next WSASend or WSARecv succeeds.
    predicate Accepting()
      reads this`refusals
    {
      refusals == [] || !refusals[0]
    }

    method WSARecv() returns (ok: bool)
      modifies this`receives, this`refusals
      ensures ok == old(Accepting())
      ensures receives == old(receives) + if ok then 1 else 0
    {
      ok := Accepting();
      if refusals != [] { refusals := refusals[1..]; }
      if ok { receives := receives + 1; }
    }

    // Bytes, or the end of the stream, have arrived.
    method Readable()
      requires receives > 0
      modifies this`receives, this`readable
      ensures receives == old(receives) - 1 && readable == old(readable) + 1
    {
      receives, readable := receives - 1, readable + 1;
    }

    method WSASend(buffers: seq<Slice>) returns (ok: bool)
      modifies this`outstanding, this`refusals
      ensures ok == old(Accepting())
      ensures outstanding == old(outstanding) + if ok then [buffers] else []
    {
      ok := Accepting();
      if refusals != [] { refusals := refusals[1..]; }
      if ok { outstanding := outstanding + [buffers]; }
    }

    // The oldest send completes with any number of its bytes.
    method Complete(size: nat)
      requires outstanding != [] && size <= |Flat(outstanding[0])|
      modifies this`outstanding, this`reported, this`sent
      ensures sent == old(sent) + Flat(old(outstanding)[0])[..size]
      ensures outstanding == old(outstanding)[1..] && reported == Some(size)
    {
      sent := sent + Flat(outstanding[0])[..size];
      outstanding := outstanding[1..];
      reported := Some(size);
    }
  }

  // The gather list takes fragments while there is room for one more of at most 64 KiB in all.
  ghost predicate IsGather(g: seq<Slice>, vs: seq<Slice>) {
    && g <= vs && |g| <= MAX_WSABUF_COUNT && |Flat(g)| <= MAX_PACKAGE_SIZE
  }

  ghost predicate IsFullGather(g: seq<Slice>, vs: seq<Slice>) {
    && IsGather(g, vs)
    && (|g| == |vs| || |g| == MAX_WSABUF_COUNT || |Flat(vs[..|g| + 1])| > MAX_PACKAGE_SIZE)
  }

  /** A full gather of a nonempty buffer takes something exactly when the front fragment
      is not oversized. */
  lemma GatherTakesFront(g: seq<Slice>, vs: seq<Slice>)
    requires IsFullGather(g, vs) && vs != []
    ensures g != [] <==> |vs[0]| <= MAX_PACKAGE_SIZE
  {
    assert vs[..0 + 1] == [vs[0]];
    FlatSingle(vs[0]);
    if g != [] { assert g[0] == vs[0] && Flat(g) == g[0] + Flat(g[1..]); }
  }

  // The first bytes of a prefix of the fragments are the first bytes of them all.
  lemma SentOfFront(sent: seq<byte>, g: seq<Slice>, vs: seq<Slice>, size: nat)
    requires g <= vs && size <= |Flat(g)|
    ensures size <= |Flat(vs)| && (sent + Flat(g)[..size]) + Flat(vs)[size..] == sent + Flat(vs)[0..]
  {
    assert vs[..|g|] == g;
    FlatSplit(vs, |g|);
    assert Flat(g)[..size] + Flat(vs)[size..] == Flat(vs);
  }

  // A gather never holds an oversized fragment.
  lemma OversizedIsLeft(g: seq<Slice>, vs: seq<Slice>)
    requires IsGather(g, vs) && vs != []
    ensures |vs[0]| > MAX_PACKAGE_SIZE ==> g == []
  {
    if g != [] { assert g[0] == vs[0] && Flat(g) == g[0] + Flat(g[1..]); }
  }

  class Connection {
    const kernel: Kernel
    const receiver: Receiver
    const sndBuffer: B.SliceBuffer
    const handleId: nat
    var sendPending: bool
    var online: bool
    var closed: seq<Event>         // the events handed to OnClosed
    ghost var accepted: seq<byte>  // every byte SendMsg() has taken
    ghost var failed: bool         // some call has reported failure
    ghost var starved: bool        // the latest receive loop read until it would block

    // At most one send is with the kernel or on its way back, and it is a prefix of the buffer.
    ghost predicate OneSend()
      reads this, kernel, sndBuffer
    {
      && |kernel.outstanding| + (if kernel.reported.Some? then 1 else 0) <= (if sendPending then 1 else 0)
      && (!failed && sendPending ==> kernel.outstanding != [] || kernel.reported.Some?)
      && (kernel.outstanding != [] ==> IsGather(kernel.outstanding[0], sndBuffer.vs))
      && (kernel.outstanding != [] ==> sndBuffer.vs != [])
      && (kernel.outstanding != [] && |sndBuffer.vs[0]| <= MAX_PACKAGE_SIZE ==> kernel.outstanding[0] != [])
      && (!failed && !sendPending ==> sndBuffer.vs == [])
    }

    ghost predicate Conserved()
      reads this, kernel, sndBuffer
    {
      var done := if kernel.reported.Some? then kernel.reported.value else 0;
      && done <= |sndBuffer.Content()|
      && kernel.sent + sndBuffer.Content()[done..] == accepted
    }

    // A receive is with the kernel or on its way back, unless the latest loop was starved or
    // some call has failed.
    ghost predicate OneReceive()
      reads this, kernel
    {
      && kernel.receives + kernel.readable <= 1
      && (!failed ==> kernel.receives + kernel.readable == if starved then 0 else 1)
    }

    ghost predicate Valid()
      reads this, kernel, receiver, receiver.inbox, receiver.rcvBuffer, sndBuffer
    {
      && receiver.rcvBuffer != sndBuffer
      && receiver.Valid() && sndBuffer.Valid() && AllNonEmpty(sndBuffer.vs)
      && (if online then OneSend() && Conserved() && OneReceive() && receiver.Framed() else sndBuffer.vs == [])
      && |closed| <= (if online then 0 else 1)
    }

    // The constructor and Init(), which starts the first receive.
    constructor (kernel: Kernel, receiver: Receiver, handleId: nat)
      requires kernel.outstanding == [] && kernel.reported == None && kernel.sent == []
      requires kernel.receives == kernel.readable == 0 && receiver.Valid() && receiver.Framed()
      modifies kernel`receives, kernel`refusals
      ensures Valid() && online && !starved && accepted == [] && closed == []
      ensures this.kernel == kernel && this.receiver == receiver && fresh(sndBuffer)
      ensures failed == !old(kernel.Accepting()) && kernel.receives == if failed then 0 else 1
    {
      this.kernel, this.receiver, this.handleId := kernel, receiver, handleId;
      sndBuffer := new B.SliceBuffer();
      sendPending, online, closed, accepted, starved := false, true, [], [], false;
      new;
      var ok := kernel.WSARecv();
      failed := !ok;
    }

    // The ForEachSlice callback of AsyncSend, filling the WSABUF array.
    method Gather() returns (buffers: seq<Slice>)
      requires sndBuffer.Valid()
      ensures IsFullGather(buffers, sndBuffer.vs)
      ensures buffers <= sndBuffer.vs && |buffers| <= 16 && |Flat(buffers)| <= 65535
      ensures |buffers| == |sndBuffer.vs| || |buffers| == 16 || |Flat(sndBuffer.vs[..|buffers| + 1])| > 65535
    {
      var vs := sndBuffer.vs;
      var wsabuf := new Slice[MAX_WSABUF_COUNT](_ => []);
      var prepareSendSize, counter: nat := 0, 0;
      for i := 0 to |vs|
        invariant counter == i <= MAX_WSABUF_COUNT
        invariant wsabuf[..counter] == vs[..i]
        invariant prepareSendSize == |Flat(vs[..i])| <= MAX_PACKAGE_SIZE
      {
        if counter >= MAX_WSABUF_COUNT { return wsabuf[..counter]; }
        FlatPrefix(vs, i);
        if prepareSendSize + |vs[i]| > MAX_PACKAGE_SIZE { return wsabuf[..counter]; }
        wsabuf[counter] := vs[i];
        assert wsabuf[..counter + 1] == vs[..i] + [vs[i]] == vs[..i + 1];
        prepareSendSize := prepareSendSize + |vs[i]|;
        counter := counter + 1;
      }
      return wsabuf[..counter];
    }

    // Start a send unless one is pending or nothing is buffered.
    method AsyncSend() returns (ok: bool)
      requires receiver.rcvBuffer != sndBuffer && receiver.Valid() && receiver.Framed() && OneReceive()
      requires sndBuffer.Valid() && AllNonEmpty(sndBuffer.vs)
      requires online && closed == [] && Conserved() && (sendPending ==> OneSend())
      requires !sendPending ==> kernel.outstanding == [] && kernel.reported == None
      modifies this`sendPending, this`failed, kernel`outstanding, kernel`refusals
      ensures Valid() && failed == (old(failed) || !ok)
      ensures old(sendPending) || sndBuffer.vs == [] ==>
                ok && sendPending == old(sendPending) && kernel.outstanding == old(kernel.outstanding)
      ensures !old(sendPending) && sndBuffer.vs != [] && ok ==>
                sendPending && |kernel.outstanding| == 1 && IsFullGather(kernel.outstanding[0], sndBuffer.vs)
      ensures !old(sendPending) && sndBuffer.vs != [] ==> ok == old(kernel.Accepting())
      ensures !ok ==> !sendPending && kernel.outstanding == []
    {
      if sndBuffer.Empty() || sendPending {
        return true;
      }
      sendPending := true;
      var buffers := Gather();
      GatherTakesFront(buffers, sndBuffer.vs);
      ok := kernel.WSASend(buffers);
      if !ok {
        sendPending := false;
        failed := true;
      }
    }

    // No caller passes an empty message: see Surface.
    method SendMsg(s: Slice) returns (ok: bool)
      requires Valid() && s != []
      modifies this`sendPending, this`failed, this`accepted, sndBuffer, kernel`outstanding, kernel`refusals
      ensures Valid()
      ensures accepted == old(accepted) + if online then s else []
      ensures sndBuffer.vs == old(sndBuffer.vs) + if online then [s] else []
      ensures online ==> failed == (old(failed) || !ok)
      ensures !online ==> !ok && kernel.outstanding == old(kernel.outstanding) && failed == old(failed)
      ensures old(sendPending) ==> kernel.outstanding == old(kernel.outstanding)
      ensures online ==> ok == (old(sendPending) || old(kernel.Accepting()))
      ensures online && !old(sendPending) && ok ==>
                sendPending && |kernel.outstanding| == 1 && IsFullGather(kernel.outstanding[0], sndBuffer.vs)
    {
      if !online { return false; }
      ghost var content, done := sndBuffer.Content(), if kernel.reported.Some? then kernel.reported.value else 0;
      sndBuffer.AddSlice(s);
      accepted := accepted + s;
      assert (content + s)[done..] == content[done..] + s;
      assert kernel.outstanding != [] ==> kernel.outstanding[0] <= old(sndBuffer.vs) + [s];
      ok := AsyncSend();
    }

    /** A completion of any size within the gather keeps (sent) ++ (buffer) the accepted bytes,
        and at once starts the next send when anything is left. */
    method OnSendEvent(size: nat, handle: nat) returns (ok: bool)
      requires Valid() && (online && handle == handleId ==> kernel.reported == Some(size))
      modifies this`sendPending, this`failed, sndBuffer, kernel`outstanding, kernel`reported, kernel`refusals
      ensures Valid()
      ensures handle != handleId ==> ok && sndBuffer.vs == old(sndBuffer.vs) && kernel.reported == old(kernel.reported)
      ensures handle != handleId ==> sendPending == old(sendPending) && kernel.outstanding == old(kernel.outstanding)
      ensures handle == handleId && size == 0 ==> !ok && sndBuffer.vs == old(sndBuffer.vs)
      ensures handle == handleId && size > 0 && online ==>
                && sndBuffer.Content() == old(sndBuffer.Content())[size..]
                && (sndBuffer.vs != [] ==> ok == old(kernel.Accepting()))
                && (sndBuffer.vs != [] && ok ==>
                      |kernel.outstanding| == 1 && IsFullGather(kernel.outstanding[0], sndBuffer.vs))
                && (sndBuffer.vs == [] ==> ok && !sendPending)
      ensures handle == handleId && size > 0 && !online ==> ok
      ensures online ==> failed == (old(failed) || !ok)
    {
      if handleId != handle { return true; }
      kernel.reported := None;
      if size == 0 {
        failed := true;
        return false;
      }
      sendPending := false;
      if online { B.DroppedFragments(sndBuffer.vs, size, 0); }
      var moved := sndBuffer.MoveHeader(size);
      if sndBuffer.Empty() {
        return true;
      }
      ok := AsyncSend();
    }

    // The completion arrives.
    method Completed(size: nat)
      requires Valid() && online && kernel.outstanding != [] && size <= |Flat(kernel.outstanding[0])|
      modifies kernel`outstanding, kernel`reported, kernel`sent
      ensures Valid() && kernel.reported == Some(size)
      ensures kernel.sent == old(kernel.sent) + Flat(old(kernel.outstanding)[0])[..size]
    {
      SentOfFront(kernel.sent, kernel.outstanding[0], sndBuffer.vs, size);
      assert kernel.reported == None && kernel.outstanding[1..] == [];
      kernel.Complete(size);
    }

    /** While no call has failed a nonempty buffer has a send with the kernel or a completion
        on its way; the send can complete with bytes exactly if the front fragment is at most
        65535 bytes. */
    lemma NeverStalls()
      requires Valid() && online && !failed && sndBuffer.vs != []
      ensures kernel.reported.Some? || |kernel.outstanding| == 1
      ensures kernel.outstanding != [] ==>
                (Flat(kernel.outstanding[0]) != [] <==> |sndBuffer.vs[0]| <= MAX_PACKAGE_SIZE)
    {
      if kernel.outstanding != [] {
        var g := kernel.outstanding[0];
        OversizedIsLeft(g, sndBuffer.vs);
        if g != [] { assert g[0] == sndBuffer.vs[0] && Flat(g) == g[0] + Flat(g[1..]); }
      }
    }

    // A send of nothing completes.
    method CompleteEmpty() returns (ok: bool)
      requires Valid() && online && kernel.outstanding != [] && Flat(kernel.outstanding[0]) == []
      modifies this`sendPending, this`failed, sndBuffer
      modifies kernel`outstanding, kernel`reported, kernel`sent, kernel`refusals
      ensures Valid() && !ok && failed
      ensures sndBuffer.vs == old(sndBuffer.vs) && kernel.sent == old(kernel.sent)
    {
      Completed(0);
      ok := OnSendEvent(0, handleId);
    }

    /** An oversized message at the front can only complete with nothing, which is a failure:
        the connection is given up with the message and all behind it unsent. */
    method CompleteOversized() returns (ok: bool)
      requires Valid() && online && kernel.outstanding != [] && |sndBuffer.vs[0]| > MAX_PACKAGE_SIZE
      modifies this`sendPending, this`failed, sndBuffer
      modifies kernel`outstanding, kernel`reported, kernel`sent, kernel`refusals
      ensures Valid() && !ok && failed
      ensures sndBuffer.vs == old(sndBuffer.vs) && kernel.sent == old(kernel.sent)
    {
      OversizedIsLeft(kernel.outstanding[0], sndBuffer.vs);
      ok := CompleteEmpty();
    }

    // A receive completes.
    method Readable()
      requires Valid() && online && kernel.receives > 0
      modifies kernel`receives, kernel`readable
      ensures Valid() && kernel.receives == 0 && kernel.readable == 1
    {
      kernel.Readable();
    }

    method AsyncRecv() returns (ok: bool)
      modifies this`failed, kernel`receives, kernel`refusals
      ensures ok == old(kernel.Accepting())
      ensures kernel.receives == old(kernel.receives) + if ok then 1 else 0
      ensures failed == (old(failed) || !ok)
    {
      ok := kernel.WSARecv();
      failed := failed || !ok;
    }

    // What OnRecvEvent does when its loop has ended.
    method FinishReceive(pass: Pass) returns (ok: bool)
      requires !pass.Full?
      modifies this`failed, this`starved, kernel`receives, kernel`refusals
      ensures starved == pass.Blocked? && failed == (old(failed) || !ok)
      ensures kernel.receives == old(kernel.receives) + if ok && pass.Short? then 1 else 0
      ensures ok == (pass.Blocked? || (pass.Short? && old(kernel.Accepting())))
    {
      starved := pass.Blocked?;
      if pass.Broken? {
        failed := true;
        return false;
      }
      if pass.Blocked? { return true; }
      ok := AsyncRecv();
    }

    // The loop and what follows it, for a completion of this connection.
    method HandleReadable() returns (ok: bool)
      requires Valid() && receiver.GoodProtocol() && (online ==> kernel.readable == 1)
      modifies this`failed, this`starved, kernel`receives, kernel`readable, kernel`refusals
      modifies receiver`delivered, receiver`received, receiver`chunks, receiver.rcvBuffer, receiver.inbox`incoming
      ensures Valid() && receiver.Stream() == old(receiver.Stream())
      ensures !online ==> !ok && receiver.received == old(receiver.received)
      ensures online && old(receiver.Healthy()) ==>
                var ending := Ending(old(receiver.inbox.incoming));
                && (receiver.Healthy() ==> receiver.inbox.incoming == Unread(old(receiver.inbox.incoming)))
                && ok == (receiver.Healthy() && (ending.Blocked? || (ending.Short? && old(kernel.Accepting()))))
                && (ok ==> kernel.readable == 0 && kernel.receives == if ending.Short? then 1 else 0)
      ensures online ==> failed == (old(failed) || !ok)
    {
      if online { kernel.readable := 0; }
      var pass := receiver.Receive(online);
      ok := FinishReceive(pass);
    }

    /** The receive loop of a completion.  It delivers what LinuxConnection's does.  After a
        short read it starts the next receive; when it read until it would block it reports
        success and starts none, and then no receive is with the kernel. */
    method OnRecvEvent(handle: nat) returns (ok: bool)
      requires Valid() && receiver.GoodProtocol() && (online && handle == handleId ==> kernel.readable == 1)
      modifies this`failed, this`starved, kernel`receives, kernel`readable, kernel`refusals
      modifies receiver`delivered, receiver`received, receiver`chunks, receiver.rcvBuffer, receiver.inbox`incoming
      ensures Valid() && receiver.Stream() == old(receiver.Stream())
      ensures handle != handleId ==>
                ok && kernel.receives == old(kernel.receives) && receiver.received == old(receiver.received)
      ensures handle == handleId && !online ==> !ok && receiver.received == old(receiver.received)
      ensures handle == handleId && online && old(receiver.Healthy()) ==>
                var rs, k := old(receiver.inbox.incoming), FirstNotFull(old(receiver.inbox.incoming));
                && (receiver.Healthy() ==> receiver.inbox.incoming == if k < |rs| then rs[k + 1..] else [])
                && (ok <==> receiver.Healthy() && (k == |rs| || rs[k].RecvAgain?
                                                   || (rs[k].Data? && old(kernel.Accepting()))))
                && (ok ==> kernel.readable == 0 && kernel.receives == if k < |rs| && rs[k].Data? then 1 else 0)
      ensures handle == handleId && online ==> failed == (old(failed) || !ok)
    {
      if handle != handleId { return true; }
      EndsAtFirst(receiver.inbox.incoming, FirstNotFull(receiver.inbox.incoming));
      ok := HandleReadable();
    }

    /** So a burst of bytes is followed by another receive exactly when its length is not a
        multiple of 8192; after any other burst the connection hears nothing more. */
    method OnRecvBurst(ghost bytes: seq<byte>) returns (ok: bool)
      requires Valid() && online && !failed && receiver.GoodProtocol() && receiver.Healthy() && kernel.readable == 1
      requires receiver.inbox.incoming == Burst(bytes)
      modifies this`failed, this`starved, kernel`receives, kernel`readable, kernel`refusals
      modifies receiver`delivered, receiver`received, receiver`chunks, receiver.rcvBuffer, receiver.inbox`incoming
      ensures Valid()
      ensures receiver.Healthy() ==> receiver.received == old(receiver.received) + bytes
      ensures receiver.Healthy() && |bytes| % 8192 == 0 ==> ok
      ensures ok ==> kernel.readable == 0 && (kernel.receives == 1 <==> |bytes| % 8192 != 0)
    {
      BurstEnding(bytes);
      EndsAtFirst(Burst(bytes), FirstNotFull(Burst(bytes)));
      ok := OnRecvEvent(handleId);
      assert receiver.Healthy() ==> receiver.Stream() == receiver.received + [];
    }

    // The first shutdown reports the event, if asked to; later ones do nothing (Valid: at
    // most one event is ever reported).
    method Shutdown(notify: bool, ev: Event)
      requires Valid()
      modifies this`online, this`sendPending, this`closed, receiver.rcvBuffer, sndBuffer
      ensures Valid() && !online
      ensures closed == old(closed) + if old(online) && notify then [ev] else []
      ensures !old(online) ==> sendPending == old(sendPending)
      ensures old(online) ==> sndBuffer.vs == [] && receiver.rcvBuffer.Content() == [] && !sendPending
    {
      if !online { return; }
      online := false;
      sendPending := false;
      if notify {
        closed := closed + [ev];
      }
      receiver.rcvBuffer.ClearBuffer();
      sndBuffer.ClearBuffer();
    }
  }
}
