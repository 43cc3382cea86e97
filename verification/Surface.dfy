/**
 src/surface: the two ways a message reaches Connection::SendMsg.  Both refuse an empty one
 before it gets there.  The connection lookup in between is ContainerBook.CheckConnectionId
 and Container.Container.GetConnection.
 */
module Surface {
  import opened Bytes
  import opened LinuxConnection

  // Endpoint::SendMsg, in either form.
  method EndpointSendMsg(c: Connection, s: Slice) returns (ok: bool)
    requires c.Valid()
    modifies c`accepted, c.sndBuffer
    ensures c.Valid() && ok == (s != [] && c.online)
    ensures c.accepted == old(c.accepted) + if ok then s else []
    ensures c.sndBuffer.Content() == old(c.sndBuffer.Content()) + if ok then s else []
  {
    if s == [] { return false; }
    ok := c.SendMsg(s);
  }

  // ContainerAdaptor::SendMsg: an empty message counts as sent.
  method ContainerSendMsg(c: Connection, s: Slice) returns (ok: bool)
    requires c.Valid()
    modifies c`accepted, c.sndBuffer
    ensures c.Valid() && ok == (s == [] || c.online)
    ensures c.accepted == old(c.accepted) + if ok then s else []
    ensures c.sndBuffer.Content() == old(c.sndBuffer.Content()) + if ok then s else []
  {
    if s == [] { return true; }
    ok := c.SendMsg(s);
  }
}
