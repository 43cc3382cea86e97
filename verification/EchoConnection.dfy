/** The echo server of example/echo_server.cc on a Linux connection, from socket to packages. */
module EchoConnection {
  import opened Bytes
  import opened EchoProtocol
  import opened Framing
  import opened LinuxConnection
  import opened Receiving
  import opened Wrappers

  // The receiver frames with the echo callback, and its stream, past and to come, is the
  // encoded messages as far as they have been sent.
  ghost predicate Carries(r: Receiver, ms: seq<Message>)
    reads r, r.inbox
  {
    r.proto == Some(EchoCheck) && AllSendable(ms) && r.Stream() <= Flat(Encodings(ms))
  }

  lemma PrefixTrans(a: seq<byte>, b: seq<byte>, c: seq<byte>)
    requires a + b <= c
    ensures a <= c
  {
  }

  // What such a receiver has delivered at any time.
  lemma DeliversMessages(r: Receiver, ms: seq<Message>)
    requires r.Valid() && r.Framed() && Carries(r, ms)
    ensures r.delivered <= Encodings(ms) && r.Healthy()
    ensures r.received == Flat(Encodings(ms)) ==> r.delivered == Encodings(ms) && r.rcvBuffer.Content() == []
  {
    PrefixTrans(r.received, Carried(r.inbox.incoming), Flat(Encodings(ms)));
    EchoPrefixFrames(ms, r.received);
    if r.received == Flat(Encodings(ms)) { EchoRoundTrip(ms); }
  }

  /** End to end: on a socket carrying any part of any encoded messages, in pieces of any size,
      the receive loop as written ends, fails only with the socket, and has delivered the first
      of the messages whole; once the whole stream is read, all of them. */
  method OnRecvEcho(c: Connection, ghost ms: seq<Message>) returns (result: int)
    requires c.Valid() && c.online && Carries(c.receiver, ms)
    modifies c.receiver`delivered, c.receiver`received, c.receiver`chunks, c.receiver.rcvBuffer, c.receiver.inbox`incoming
    ensures c.Valid() && Carries(c.receiver, ms) && c.receiver.Stream() == old(c.receiver.Stream())
    ensures var rs, k := old(c.receiver.inbox.incoming), FirstNotFull(old(c.receiver.inbox.incoming));
            && result == (if k < |rs| && (rs[k].Closed? || rs[k].RecvFailed?) then -1 else 0)
            && c.receiver.inbox.incoming == if k < |rs| then rs[k + 1..] else []
    ensures c.receiver.delivered <= Encodings(ms)
    ensures c.receiver.inbox.incoming == [] && c.receiver.Stream() == Flat(Encodings(ms)) ==>
              c.receiver.delivered == Encodings(ms)
  {
    EchoStable();
    EchoPrefixDecides(ms, c.receiver.Stream());
    DeliversMessages(c.receiver, ms);
    result := c.OnRecv();
    DeliversMessages(c.receiver, ms);
    if c.receiver.inbox.incoming == [] { assert c.receiver.Stream() == c.receiver.received; }
  }
}
