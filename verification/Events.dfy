/** Why a connection closed (include/raptor-lite/impl/event.h). */
module Events {
  datatype EventType = ManualShutdown | SocketError | ConnectionTimeout
  datatype Event = Event(kind: EventType, error: int)
}
