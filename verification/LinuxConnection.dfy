/** src/linux/connection.cc: receiving into packages and sending through partial sends. */
module LinuxConnection {
  import opened Bytes
  import opened Events
  import opened Framing
  import opened Receiving
  import opened Wrappers
  import B = SliceBuffer

  // What send() may answer; EINTR, EWOULDBLOCK and EAGAIN are one case.
  datatype Sending = Accept(n: nat) | SendAgain | SendFailed

  predicate TookSome(r: Sending) {
    r.Accept? && r.n > 0
  }

  // The kernel takes something of every one of n sends.
  ghost predicate Takes(outcomes: seq<Sending>, n: nat) {
    |outcomes| >= n && forall i :: 0 <= i < |outcomes| ==> outcomes[i].Accept? && outcomes[i].n > 0
  }

  // The kernel's side of sending: answers to come and given, and the bytes it has taken.
  class Outbox {
    var outcomes: seq<Sending>
    var answered: seq<Sending>
    var sent: seq<byte>

    constructor (outcomes: seq<Sending>)
      ensures this.outcomes == outcomes && answered == [] && sent == []
    {
      this.outcomes, answered, sent := outcomes, [], [];
    }

    method Send(online: bool, s: Slice) returns (r: Sending)
      modifies this`outcomes, this`answered, this`sent
      ensures answered == old(answered) + [r]
      ensures r.Accept? ==> r.n <= |s| && sent == old(sent) + s[..r.n]
      ensures !r.Accept? ==> sent == old(sent)
      ensures !online ==> r == SendFailed && outcomes == old(outcomes)
      ensures online && old(outcomes) != [] ==>
                && outcomes == old(outcomes)[1..]
                && r == (match old(outcomes)[0]
                         case Accept(n) => Accept(if n <= |s| then n else |s|)
                         case other => other)
    {
      if !online {
        r := SendFailed;
      } else if outcomes == [] {
        r := SendAgain;
      } else {
        r := outcomes[0];
        outcomes := outcomes[1..];
        if r.Accept? {
          r := Accept(if r.n <= |s| then r.n else |s|);
          sent := sent + s[..r.n];
        }
      }
      answered := answered + [r];
    }
  }

  class Connection {
    const receiver: Receiver
    const outbox: Outbox
    const sndBuffer: B.SliceBuffer
    var online: bool
    var closed: seq<Event>         // the events handed to OnClosed
    ghost var accepted: seq<byte>  // every byte SendMsg() has taken

    ghost predicate Valid()
      reads this, receiver, receiver.inbox, receiver.rcvBuffer, outbox, sndBuffer
    {
      && receiver.rcvBuffer != sndBuffer
      && receiver.Valid() && sndBuffer.Valid() && AllNonEmpty(sndBuffer.vs)
      && (online ==> receiver.Framed() && outbox.sent + sndBuffer.Content() == accepted)
      && |closed| <= (if online then 0 else 1)
    }

    constructor (receiver: Receiver, outbox: Outbox)
      requires receiver.Valid() && receiver.Framed() && outbox.sent == []
      ensures Valid() && online && this.receiver == receiver && this.outbox == outbox
      ensures accepted == [] && closed == [] && fresh(sndBuffer)
    {
      this.receiver, this.outbox := receiver, outbox;
      sndBuffer := new B.SliceBuffer();
      online, closed, accepted := true, [], [];
    }

    /** Whatever recv() answers, the delivered packages stay the greedy framing of all bytes
        received (Valid) and every byte taken from the socket is accounted for.  It reads up
        to the first read that does not fill the buffer, and fails exactly on a socket error
        there or a framing error. */
    method OnRecv() returns (result: int)
      requires Valid() && receiver.GoodProtocol()
      modifies receiver`delivered, receiver`received, receiver`chunks, receiver.rcvBuffer, receiver.inbox`incoming
      ensures Valid() && receiver.Stream() == old(receiver.Stream())
      ensures result == 0 || result == -1
      ensures online && old(receiver.Healthy()) ==>
                var rs, k := old(receiver.inbox.incoming), FirstNotFull(old(receiver.inbox.incoming));
                && (result == 0 <==> receiver.Healthy() && (k == |rs| || rs[k].Data? || rs[k].RecvAgain?))
                && (receiver.Healthy() ==> receiver.inbox.incoming == if k < |rs| then rs[k + 1..] else [])
      ensures !online ==> result == -1 && receiver.received == old(receiver.received)
    {
      EndsAtFirst(receiver.inbox.incoming, FirstNotFull(receiver.inbox.incoming));
      var pass := receiver.Receive(online);
      return if pass.Broken? then -1 else 0;
    }

    // No caller passes an empty message: see Surface.
    method SendMsg(s: Slice) returns (ok: bool)
      requires Valid() && s != []
      modifies this`accepted, sndBuffer
      ensures Valid() && ok == online
      ensures accepted == old(accepted) + if ok then s else []
      ensures sndBuffer.Content() == old(sndBuffer.Content()) + if ok then s else []
    {
      if !online { return false; }
      sndBuffer.AddSlice(s);
      accepted := accepted + s;
      return true;
    }

    // The bytes sent together with those still buffered.
    ghost function Outgoing(): seq<byte>
      reads outbox, sndBuffer
    {
      outbox.sent + sndBuffer.Content()
    }

    // Bytes taken off the front fragment are the first bytes of the content.
    lemma SentFromFront(sentBefore: seq<byte>, vs: seq<Slice>, n: nat)
      requires vs != [] && n <= |vs[0]|
      ensures n <= |Flat(vs)| && (sentBefore + vs[0][..n]) + Flat(vs)[n..] == sentBefore + Flat(vs)
    {
      assert Flat(vs) == vs[0][..n] + Flat(vs)[n..];
    }

    // The kernel will take some of every fragment.
    ghost predicate Flowing()
      reads this, outbox, sndBuffer
    {
      online && Takes(outbox.outcomes, |sndBuffer.Content()|)
    }

    // One pass of the loop in OnSend: offer the front fragment, drop what was taken.
    method SendFront() returns (r: Sending)
      requires Valid() && sndBuffer.vs != []
      modifies sndBuffer, outbox`outcomes, outbox`answered, outbox`sent
      ensures Valid() && Outgoing() == old(Outgoing())
      ensures outbox.answered == old(outbox.answered) + [r]
      ensures if r.Accept? && r.n > 0 then |sndBuffer.Content()| < |old(sndBuffer.Content())|
              else sndBuffer.vs == old(sndBuffer.vs) && outbox.sent == old(outbox.sent)
      ensures old(Flowing()) ==> r.Accept? && r.n > 0 && Flowing()
    {
      ghost var sentBefore := outbox.sent;
      var slice := sndBuffer.vs[0];
      r := outbox.Send(online, slice);
      if r.Accept? && r.n > 0 {
        SentFromFront(sentBefore, sndBuffer.vs, r.n);
        B.DroppedFragments(sndBuffer.vs, r.n, 0);
        var _ := sndBuffer.MoveHeader(r.n);
      }
    }

    /** However the kernel cuts, delays or refuses the sends, bytes sent followed by bytes
        buffered stay the accepted bytes (Valid), and the loop ends: with the buffer empty,
        or at the first answer that takes nothing.  A hard error ends it like success.  A kernel
        that takes some of every fragment gets everything. */
    method OnSend() returns (result: int)
      requires Valid()
      modifies sndBuffer, outbox`outcomes, outbox`answered, outbox`sent
      ensures Valid() && Outgoing() == old(Outgoing())
      ensures |old(outbox.answered)| <= |outbox.answered|
      ensures old(sndBuffer.vs) == [] <==> outbox.answered == old(outbox.answered)
      ensures forall i :: |old(outbox.answered)| <= i < |outbox.answered| - 1 ==> TookSome(outbox.answered[i])
      ensures old(sndBuffer.vs) == [] ==> result == 0
      ensures old(sndBuffer.vs) != [] ==>
                var last := outbox.answered[|outbox.answered| - 1];
                && result == (if last.SendAgain? then -1 else 0)
                && (sndBuffer.vs == [] <==> TookSome(last))
      ensures old(Flowing()) ==> sndBuffer.vs == [] && result == 0
    {
      if sndBuffer.Empty() {
        return 0;
      }
      var count := 0;
      ghost var asked: seq<Sending> := [];
      while true
        invariant Valid() && sndBuffer.vs != [] && Outgoing() == old(Outgoing())
        invariant outbox.answered == old(outbox.answered) + asked
        invariant forall i :: 0 <= i < |asked| ==> TookSome(asked[i])
        invariant old(Flowing()) ==> Flowing()
        decreases |sndBuffer.Content()|
      {
        var r := SendFront();
        asked := asked + [r];
        if r == SendAgain { return -1; }
        if r == SendFailed || r == Accept(0) { break; }
        count := |sndBuffer.vs|;
        if count == 0 { break; }
      }
      return 0;
    }

    // The first shutdown reports the event, if asked to; later ones do nothing (Valid: at
    // most one event is ever reported).
    method Shutdown(notify: bool, ev: Event)
      requires Valid()
      modifies this`online, this`closed, receiver.rcvBuffer, sndBuffer
      ensures Valid() && !online
      ensures closed == old(closed) + if old(online) && notify then [ev] else []
      ensures !old(online) ==> receiver.rcvBuffer.vs == old(receiver.rcvBuffer.vs) && sndBuffer.vs == old(sndBuffer.vs)
      ensures old(online) ==> receiver.rcvBuffer.Content() == [] && sndBuffer.Content() == []
    {
      if !online { return; }
      online := false;
      if notify {
        closed := closed + [ev];
      }
      receiver.rcvBuffer.ClearBuffer();
      sndBuffer.ClearBuffer();
    }
  }
}
