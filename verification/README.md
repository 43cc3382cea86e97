# Verification of raptor-lite's queues, container and byte pipelines

raptor-lite is an event-driven TCP library. This project models what lies beneath its
sockets and proves what the rest of the library relies on:

- **The multi-producer queue** (`MpscProtocol`, `MpscQueue`, `MessageCount`). `MpscProtocol` is a
  system of atomic steps: a push is three of them, a pop up to seven, and any number of pushes
  are in flight beside one consumer. Clients may overwrite the memory of any node the queue does
  not hold at any time, which covers deletion and reuse of addresses. `MpscQueue` is the same code
  on heap nodes with nobody else running, used by the drain loop. `MessageCount` adds the 32-bit
  message counter of the container and the drain at shutdown.
- **The connection container** (`Multimap`, `Container`, `ContainerBook`, `ContainerRuns`,
  `ConnectionId`). `Container` has the slot vector, the free list, the multimap of deadlines and the
  iterators from slots into it; its methods are the sections under `_conn_mtx` and are shown to
  implement the plain operations of `ContainerBook`. `ContainerRuns` proves what every interleaving of
  those operations keeps.
- **Framing, receiving and sending** (`Bytes`, `SliceBuffer`, `Framing`, `EchoProtocol`, `Receiving`,
  `LinuxConnection`, `WindowsConnection`, `EchoConnection`, `Surface`, `Events`). recv() and send()
  answer whatever a script says, so the results hold for every cutting of the bytes. `EchoConnection`
  puts the echo protocol on a connection, end to end; `Surface` has the guards in front of `SendMsg`.
- **Slice storage** (`SliceStorage`), **timers** (`Timer`), **heartbeats** (`Heartbeat`),
  **intrusive lists** (`ListEntry`) and **host:port text** (`HostPort`).

## How the parts fit

`SliceStorage` shows that a `Slice` behaves as the byte sequence it holds whatever shares its block, so
`SliceBuffer` and the connections take slices as values. `Container` methods state their whole new
state through `Container.Container.Book()`; the lemmas of `ContainerRuns` are about those same
functions. `Timer` and `Container` share `Multimap`.

Reading into the buffer and `ParsingProtocol` are the same text in the Linux and Windows connections
and are modelled once, in `Receiving.Receiver`, which both connections hold; what each does when its
receive loop ends is its own. Both buffer nonempty messages only, since every way to `SendMsg` refuses
an empty one first (src/surface/endpoint.cc:49-57, src/surface/container.cc:65-68).

In the step systems (`MpscProtocol`, `MessageCount`, `ContainerRuns`, `Heartbeat`) some components of a
state only record history (for instance the order of the exchanges, or when a slot was last
refreshed). They never decide what a step does to the modelled program state.

## Where the code differs from what it is meant to do

- `ParsingProtocol` means to read the header again with twice the size when the callback asks for
  more data, but its `continue` sits in a `do ... while (false)` and leaves that loop. An empty package
  is delivered, no byte is consumed and the outer loop starts over on the same bytes. The code is
  kept: `Framing.WrittenLoopExact` proves for every buffer that the loop ends if and only if framing
  never arrives at more than 1024 remaining bytes whose first 1024 the callback cannot decide on, and
  `Framing.WrittenLoopCanHang` gives a buffer on which it never ends. `ParsingProtocolRetrying` is
  the loop the retry is written for; it meets the same specification without any such premise.
- The length callback of the echo example narrows a `size_t` to `int`. A declared payload of
  2^32 - 8 bytes makes it answer 0 for ever, so the receive loop as written hangs on every buffer of
  more than 1024 bytes that begins with it (`EchoProtocol.EchoCanHang`). Any other declared payload of
  at least 2^31 - 8 bytes makes the answer negative or shorter than the header
  (`EchoProtocol.CheckedLength`, `EchoProtocol.EchoSingle`).
- On Windows a receive loop that reads until it would block reports success and starts no further
  receive. After a burst of bytes that is exactly when the length is a multiple of 8192
  (`WindowsConnection.Connection.OnRecvBurst`); the connection then hears nothing more
  until it is closed.
- On Windows a message of more than 65535 bytes is accepted, but a gather never takes it. Once it is
  in front its send can only complete with nothing, which is a failure that gives up the connection
  (`WindowsConnection.Connection.NeverStalls`, `WindowsConnection.Connection.CompleteOversized`).
- On Linux a hard error of `send()` ends `OnSend` with 0, like success, and the buffer keeps its bytes;
  only would-block is reported (`LinuxConnection.Connection.OnSend`).
- `CheckConnectionId` compares an id's slot with the configured maximum, not with the vector. While
  the vector is smaller than that, ids that were never issued pass the check and are looked up outside
  the vector (`ContainerRuns.AcceptedOutOfBounds`).
- A vector size of zero never grows (`ContainerRuns.ExpansionAddsSlots`), and then attach takes the
  front of an empty list. The model's attach answers `FrontOfEmptyList` exactly there.
- `SliceBuffer.Empty()` looks at the number of fragments. After all bytes are removed it is still
  false exactly when an empty fragment trails (`SliceBuffer.DroppedAll`). The connections never buffer
  an empty fragment for sending.
- `host_port.h` says host and port are cleared when a split fails. With views the host is, and the port
  unless the name is `[h]:p` with neither colon nor closing bracket in h (`HostPort.FailedViews`). With C
  strings nothing is cleared: both outputs stay as they were (`HostPort.CopiesKeepOldOutputs`).

## Model

| member | source | states |
|---|---|---|
| MpscProtocol.StepKeepsInv | src/utils/mpscq.cc:34-94 | every atomic step of a producer, the consumer or a client keeps the queue invariant |
| MpscProtocol.Fifo | src/utils/mpscq.cc:34-94 | in every interleaving, nodes returned so far followed by nodes still queued are the nodes in exchange order: FIFO, nothing lost or doubled |
| MpscProtocol.Chain | src/utils/mpscq.cc:34-40 | in every reachable state the nodes from oldest to newest are one duplicate-free order; each adjacent pair is linked and nobody's, or unlinked and owed by exactly one push in flight; nobody owes another link |
| MpscProtocol.ClientNodesAreUntouched | src/utils/mpscq.cc:47-94 | in every reachable state a node the queue does not hold is named by no queue pointer or push in flight, and no next step but a client's own touches it |
| MpscProtocol.WriteFrame | src/utils/mpscq.cc:34-94 | the memory a step does not touch is unchanged by it |
| MpscProtocol.ReadFrame | src/utils/mpscq.cc:34-94 | whatever is in memory the step does not touch, the step is enabled and does the same |
| MpscProtocol.StaysReleased | src/utils/mpscq.cc:34-94 | a node the queue does not hold stays so until a client pushes it |
| MpscProtocol.ReleasedForTheRun | src/utils/mpscq.cc:34-94 | over any run in which clients leave a released node alone it stays released, is not written, and any other content of it gives the same run |
| MpscProtocol.ReturnedNodeMayBeDeleted | src/utils/mpscq.cc:69-90 | from the pop that returns a node up to its next push, no step of any agent in any interleaving reads or writes it |
| MpscProtocol.ReturnedNodeIsReleased | src/utils/mpscq.cc:69-90 | the step in which a pop answers with a node is the step in which the queue stops holding it |
| MpscProtocol.QuiescentPop | src/utils/mpscq.cc:47-94 | with no push in flight a pop returns the first queued node and leaves the rest, or answers empty with both ends at the stub; it never asks to retry |
| MpscProtocol.PopAnswers | src/utils/mpscq.cc:47-94 | in any interleaving a pop answers empty exactly in front of an unlinked stub, when nothing is queued or the push behind it still owes the link; it asks for a retry only while a message is queued, and returns a node exactly when the oldest is a linked message |
| MpscQueue.Queue.constructor | src/utils/mpscq.cc:24-26 | a new queue is valid and empty |
| MpscQueue.Queue.Push | src/utils/mpscq.cc:34-40 | a push appends the node; the answer says whether the stub was the newest |
| MpscQueue.Queue.PopAndCheckEnd | src/utils/mpscq.cc:47-94 | run alone, a pop removes and returns the first message, or reports empty with both ends at the stub |
| MpscQueue.Drain | src/common/container_impl.cc:203-212 | the shutdown loop on the heap queue ends, deletes every remaining message once and in order, takes as many off the 32-bit count whatever it is, and leaves the queue as its destructor asserts |
| MessageCount.ActionKeepsOk | src/common/container_impl.cc:418-474 | every action keeps the 32-bit counter equal, modulo 2^32, to the messages added and not yet subtracted |
| MessageCount.CounterIsExact | src/common/container_impl.cc:453-474 | counter plus messages not yet added equals queued messages plus the one just popped, and the subtraction never wraps |
| MessageCount.StoppedCounter | src/common/container_impl.cc:185-212 | once threads have stopped, the counter is the number of queued messages modulo 2^32 and no link is missing |
| MessageCount.WaitingThreadServes | src/common/container_impl.cc:453-474 | with no push in flight and a message queued the counter is positive, and a thread that looks takes the first message and counts it off |
| MessageCount.ShutdownDeliversOrDeletes | src/common/container_impl.cc:173-215 | after any run of the threads, the drain ends with the queue empty, both ends at the stub and the counter at zero; messages handed out followed by messages deleted are all messages pushed, in order |
| Bytes.FlatConcat | src/utils/slice_buffer.cc:63-71 | appending fragments appends bytes |
| SliceBuffer.SliceBuffer.AddSlice | src/utils/slice_buffer.cc:63-71 | the slice goes behind the content and the length stays the sum of the sizes |
| SliceBuffer.SliceBuffer.Merge | src/utils/slice_buffer.cc:32-53 | the result is the whole content |
| SliceBuffer.SliceBuffer.GetHeader | src/utils/slice_buffer.cc:73-81 | the first n bytes, or nothing when there are fewer |
| SliceBuffer.SliceBuffer.CopyToBuffer | src/utils/slice_buffer.cc:110-130 | copies the first n bytes across fragment boundaries and writes nothing behind them |
| SliceBuffer.SliceBuffer.MoveHeader | src/utils/slice_buffer.cc:83-108 | the recursion ends and drops exactly n bytes, or changes nothing when there are fewer |
| SliceBuffer.SliceBuffer.PopFront | src/utils/slice_buffer.cc:153-159 | removes the first fragment and its bytes |
| SliceBuffer.SliceBuffer.PopBack | src/utils/slice_buffer.cc:161-169 | removes the last fragment and its bytes |
| SliceBuffer.DroppedFlat | src/utils/slice_buffer.cc:83-108 | dropping n bytes fragment by fragment is dropping n bytes of the flat string |
| SliceBuffer.DroppedFragments | src/utils/slice_buffer.cc:91-106 | dropping bytes leaves no new empty fragment and lengthens none |
| SliceBuffer.DroppedShape | src/utils/slice_buffer.cc:83-108 | dropping bytes drops whole fragments and cuts at most one; all behind it stay as they are |
| SliceBuffer.DroppedAll | src/utils/slice_buffer.cc:83-108 | after dropping every byte no fragment is left exactly when no empty one trailed |
| SliceBuffer.EmptyMeansNoBytes | src/utils/slice_buffer.cc:137-139 | with nonempty fragments, Empty() and length zero agree |
| Framing.FramesConserveBytes | src/linux/connection.cc:209-256 | packages followed by the rest are the bytes framed |
| Framing.FramesExactly | src/linux/connection.cc:209-256 | the framing is the only cutting whose packages are as long as the callback answers for what stands from each on, whose rest is no whole package, and which is broken exactly if the callback calls the rest an error |
| Framing.FramesAppend | src/linux/connection.cc:209-256 | framing a prefix and then its rest with what follows is framing the whole; an error is final |
| Framing.ChunkingIndependence | src/linux/connection.cc:134-168 | packages, leftover and error depend on the bytes received only, not on how receives cut them |
| Framing.WrittenLoopExact | src/linux/connection.cc:209-256 | the loop as written ends exactly when the first read always decides, and then yields the greedy framing |
| Framing.WrittenLoopCanHang | src/linux/connection.cc:226-240 | a buffer of 1025 bytes and a stable callback on which the loop never ends although framing is complete |
| Framing.DecidesNeverUndecided | src/linux/connection.cc:211-240 | a callback that decides on 1024 bytes satisfies the condition on every stream |
| Framing.AlwaysEndsExact | src/linux/connection.cc:211-240 | the loop as written ends on every buffer exactly for the stable callbacks that decide on 1024 bytes |
| Framing.UndecidedResumes | src/linux/connection.cc:209-256 | a stream on which the loop hangs after a leftover is one on which it hangs as a whole, so deciding on the whole stream is enough for every receive |
| EchoProtocol.DecodeEncode | example/echo_server.cc:39-57 | a message is read back out of its encoding |
| EchoProtocol.WordWeights | example/echo_server.cc:39-57 | header words are little-endian |
| EchoProtocol.EchoCheckExact | example/echo_server.cc:33-37 | on a full header the answer is header plus declared size as a 32-bit signed number, else 0 |
| EchoProtocol.EchoStable | example/echo_server.cc:33-37 | appending bytes never changes a nonzero answer of the callback |
| EchoProtocol.EchoUndecidedHeader | example/echo_server.cc:33-37 | on a full header the callback asks for more exactly when the declared size is 2^32 - 8 |
| EchoProtocol.EchoCanHang | example/echo_server.cc:33-37 | on every buffer over 1024 bytes whose first header declares 2^32 - 8 the loop as written never ends |
| EchoProtocol.EchoDoesNotAlwaysDecide | example/echo_server.cc:33-37 | so with this callback the loop as written does not end on every buffer |
| EchoProtocol.EchoRoundTrip | example/echo_server.cc:33-37 | messages sent one behind the other are cut back into exactly their encodings, nothing left, if and only if the length of each is a positive 32-bit int |
| EchoProtocol.EchoPrefixDecides | example/echo_server.cc:33-37 | on any received prefix of such a stream the receive loop as written ends |
| EchoProtocol.EchoPrefixFrames | example/echo_server.cc:33-37 | any received prefix of such a stream is cut into the first of the encodings, in order, without an error |
| EchoProtocol.EchoSingle | example/echo_server.cc:33-37 | a message comes back exactly when its length is a positive 32-bit int |
| Receiving.Receiver.ReadSliceFromRecvBuffer | src/linux/connection.cc:199-207 | the whole buffer and true, or its first bytes and false |
| Receiving.Receiver.ReadLength | src/linux/connection.cc:215-240 | the inner block, whose retry falls out of it, decides the pass as `Framing.WrittenPass` says |
| Receiving.Receiver.ParsingProtocol | src/linux/connection.cc:209-256 | where the loop as written ends, it delivers the greedy framing, keeps the rest, and returns the count or -1 |
| Receiving.Receiver.ParsingProtocolRetrying | src/windows/connection.cc:255-302 | the parsing loop with a retry that works delivers the greedy framing for every stable callback and every buffer |
| Receiving.Receiver.Receive | src/linux/connection.cc:134-168 | whatever recv() answers, delivered packages stay the framing of all bytes received, or the reads themselves without a protocol; the loop ends as the socket does or with a framing error |
| Receiving.EndsAtFirst | src/linux/connection.cc:141-166 | the loop stops at the first answer that is not a full read: broken exactly if that is the peer's close or an error, blocked exactly if it would block or none is left, short exactly if it is data |
| Receiving.BurstEnding | src/linux/connection.cc:141-166 | reading a burst ends in would-block exactly when its length is a multiple of 8192, else in a short read |
| LinuxConnection.Connection.OnRecv | src/linux/connection.cc:134-168 | for every stable callback on whose stream the loop as written ends, delivered packages stay the framing of all bytes received; it reads up to the first answer that is not a full read, and answers 0 exactly if that is data or would block and no framing error came before |
| EchoConnection.OnRecvEcho | src/linux/connection.cc:134-168 | a socket carrying any part of any echo messages, cut anywhere: the loop ends, fails only with the socket, and delivers the first messages whole, all of them once the stream is complete |
| LinuxConnection.Connection.SendMsg | src/linux/connection.cc:69-76 | an online connection takes the message behind the buffered ones, an offline one refuses it |
| Surface.EndpointSendMsg | src/surface/endpoint.cc:49-57 | an endpoint refuses an empty message and passes any other on |
| Surface.ContainerSendMsg | src/surface/container.cc:65-68 | the container counts an empty message as sent without buffering it |
| LinuxConnection.Connection.OnSend | src/linux/connection.cc:170-197 | bytes sent followed by bytes buffered stay the accepted bytes; it ends with an empty buffer exactly when every send took some, else at the first that took nothing, and reports would-block only; a kernel that takes some of every fragment gets everything |
| LinuxConnection.Connection.Shutdown | src/linux/connection.cc:78-109 | goes offline, clears both buffers and reports the event if asked; a second call does nothing, so at most one close is ever reported |
| WindowsConnection.Connection.Gather | src/windows/connection.cc:112-133 | the gather list is the longest prefix of the buffer within 16 fragments and 65535 bytes |
| WindowsConnection.GatherTakesFront | src/windows/connection.cc:118-133 | the gather takes something exactly when the front fragment is not oversized |
| WindowsConnection.Connection.AsyncSend | src/windows/connection.cc:107-147 | starts one send of a full gather unless one is pending or nothing is buffered, and fails exactly if the call does |
| WindowsConnection.Connection.SendMsg | src/windows/connection.cc:96-102 | takes the message behind the buffered ones and leaves a pending send alone |
| WindowsConnection.Connection.OnSendEvent | src/windows/connection.cc:194-205 | a completion of any size keeps sent bytes and buffer together the accepted bytes, drops what was sent and starts the next send; foreign completions change nothing |
| WindowsConnection.Connection.Completed | src/windows/connection.cc:183-191 | between the kernel's completion and its handling the accounting still holds |
| WindowsConnection.Connection.NeverStalls | src/windows/connection.cc:107-147 | while no call has failed, a nonempty buffer has a send outstanding or a completion on its way; the send has bytes exactly when the front message is at most 65535 bytes |
| WindowsConnection.Connection.CompleteOversized | src/windows/connection.cc:118-205 | with an oversized message in front the completion is a failure and nothing has been sent |
| WindowsConnection.Connection.constructor | src/windows/connection.cc:36-66 | a new connection has its first receive outstanding unless the call failed |
| WindowsConnection.Connection.OnRecvEvent | src/windows/connection.cc:207-245 | reads up to the first answer that is not a full read; succeeds exactly if no framing error came and that answer would block, or is data and the next receive starts; on success a receive is outstanding exactly if it is data; foreign completions change nothing |
| WindowsConnection.Connection.OnRecvBurst | src/windows/connection.cc:207-245 | a burst that is handled well is followed by another receive exactly when its length is not a multiple of 8192 |
| WindowsConnection.Connection.Shutdown | src/windows/connection.cc:72-94 | goes offline, clears the buffer and the pending flag and reports the event if asked; a second call does nothing, so at most one close is ever reported |
| ConnectionId.RoundTrip | src/common/cid.h:29-57 | magic, port and index come back out of the id; only the all-ones fields give the invalid id |
| ConnectionId.Rebuild | src/common/cid.h:44-57 | every 64-bit id is built from its fields |
| ConnectionId.WordRoundTrip | src/common/cid.h:31-57 | in machine words, shifts and masks take the three fields back out of the or-ed word |
| ConnectionId.FieldPlaces | src/common/cid.h:31-35 | the magic number stands in the 16 highest bits, then the port, then the slot |
| ConnectionId.PackedValue | src/common/cid.h:31-35 | the shifted and or-ed word, read byte by byte as a number, is the id the arithmetic gives for the fields' numbers |
| ConnectionId.FieldValues | src/common/cid.h:44-57 | for every 64-bit word, what its shifts and masks extract is what the arithmetic extracts from its number |
| Container.Container.constructor | src/common/container_impl.cc:135-144 | all slots empty and on the free list in order |
| Container.Container.Expand | src/common/container_impl.cc:258-269 | the vector grows to min(2n, max) and the new slots become the free list |
| Container.Container.AttachEndpointImpl | src/common/container_impl.cc:244-296 | fails exactly when full; takes the front of an empty list exactly when the vector has size zero below the maximum; else the first free slot gets the connection with the given handle and port, its id and its deadline |
| Container.Container.Occupy | src/common/container_impl.cc:271-288 | slot, record and iterator are set together for a connection of the given handle and port and this slot's id |
| Container.Container.DeleteConnection | src/common/container_impl.cc:497-506 | an occupied slot loses connection and record and goes to the end of the free list; an empty one is left alone; says when the index is outside the vector |
| Container.Container.RefreshTime | src/common/container_impl.cc:508-516 | only that slot's deadline changes, and its iterator designates the new record; says when the index is outside the vector |
| Container.Container.GetConnection | src/common/container_impl.cc:535-539 | the occupant's connection, or none; says when the index is outside the vector |
| Container.Container.OnTimeoutCheck | src/common/container_impl.cc:385-414 | within 3000 ms nothing; else exactly the slots due are freed, earliest first, their connections shut down in that order, although records are erased during the walk |
| Container.Container.CountsAddUp | src/common/container_impl.cc:271-288 | a slot is free exactly when no timeout record designates it, and free slots and timeout records together are as many as the slots |
| ContainerRuns.StepKeepsInv | src/common/container_impl.cc:244-516 | every section keeps slots, free list, deadlines, ids and sizes in agreement |
| ContainerRuns.SlotsAgree | src/common/container_impl.cc:497-506 | in every reachable state the free list holds exactly the empty slots, once each, and free plus occupied is the size |
| ContainerRuns.Capacity | src/common/container_impl.cc:247-269 | attach succeeds exactly when fewer than max slots are occupied; after k expansions the size is min(default * 2^k, max) and at most max(default, 2 * peak occupancy) |
| ContainerRuns.ExpansionAddsSlots | src/common/container_impl.cc:258-269 | expansion adds a slot exactly when the size is positive and below the maximum |
| ContainerRuns.IdsIdentify | src/common/container_impl.cc:271-278 | an occupant's id decodes to magic, port and its slot, is valid, is accepted and is no other occupant's |
| ContainerRuns.OccupantsAreTheirAttach | src/common/container_impl.cc:271-288 | in every reachable state an occupant has the handle and port of the attach that last took its slot |
| ContainerRuns.AttachedStays | src/common/container_impl.cc:271-288 | from an attach on, as long as its slot is not released, the slot holds the attached connection, whatever else is attached, refreshed, deleted or swept |
| ContainerRuns.BuiltIdAccepted | src/common/container_impl.cc:518-533 | an id built for a slot is accepted for it exactly when the slot is below the maximum and not the reserved index |
| ContainerRuns.AcceptedExactly | src/common/container_impl.cc:518-533 | the check accepts a 64-bit id with a slot exactly if it is built from the container's magic number, some port and that slot, the slot below the maximum and not the reserved index |
| ContainerRuns.IssuedIdsStayGood | src/common/container_impl.cc:518-533 | an id once issued passes the check with an index inside the vector in all later states |
| ContainerRuns.AcceptedOutOfBounds | src/common/container_impl.cc:518-539 | an accepted id lies outside the vector exactly when its slot is from the size up to the maximum; such ids exist exactly while the vector is below the maximum, and none was issued |
| ContainerRuns.SweepsOnTime | src/common/container_impl.cc:385-414 | a check removes a slot exactly when a sweep is due and the last attach or refresh plus the timeout has passed |
| ContainerRuns.OverdueBound | src/common/container_impl.cc:385-414 | with checks at most P ms apart no occupant is ever overdue by 3000 + P ms |
| ContainerRuns.FreeListIsFifo | src/common/container_impl.cc:271-272 | over any run the free list and what is added to it is what is handed out and the final free list |
| ContainerRuns.ReuseComesLast | src/common/container_impl.cc:271-272 | whatever follows a delete or sweep, slots are handed out in the order: those free before it, then those it released |
| Multimap.InsertValid | src/common/container_impl.cc:515 | insertion keeps entries sorted and identities unique |
| Multimap.EraseValid | src/common/container_impl.cc:410 | erasing by iterator keeps the other entries, their order and their identities |
| Timer.PackRoundTrip | src/utils/timer.cc:85-116 | the two ids come back unchanged |
| Timer.Timer.SetTimer | src/utils/timer.cc:81-87 | queues one request with deadline now + delay, none after shutdown |
| Timer.Timer.Accept | src/utils/timer.cc:92-98 | the popped request moves into the table, behind every request due no later |
| Timer.Timer.FireDue | src/utils/timer.cc:100-125 | fires a prefix of the table, at most three; goes on exactly while the next is due, fewer than three have fired and no call has left more than 300 ms behind |
| Timer.Timer.Pass | src/utils/timer.cc:89-125 | one pass fires the earliest entries in deadline order, none before its deadline, exactly as many as the limits of three and 300 ms allow, and every request stays in exactly one of queue, table, fired and discarded |
| Timer.Timer.Shutdown | src/utils/timer.cc:64-79 | every queued request is discarded once |
| Heartbeat.StepKeepsInv | src/common/container_impl.cc:541-554 | every step of the chain keeps the count of pending timers right |
| Heartbeat.OneHeartbeat | src/common/container_impl.cc:290-294 | with at most 2^32 connections ever, each (slot, handle) pair has at most one pending timer, and exactly one while it occupies its slot online |
| Heartbeat.LastOnSlotDecides | src/common/container_impl.cc:271-288 | the last attach or delete of a slot decides its occupant: the connection then created, or none |
| Heartbeat.OnlineSinceAttach | src/common/container_impl.cc:541-554 | a connection is online exactly if its endpoint was at the attach and has not gone offline since |
| Heartbeat.StaleTimerDies | src/common/container_impl.cc:541-554 | a timer whose pair has neither an event waiting for its timer to be set again, nor an online connection in its slot or already found by OnTimer, raises no event and is never set again |
| Heartbeat.StaleExactly | src/common/container_impl.cc:541-554 | and those are all: any other pair has a continuation in which an event is raised or the timer set |
| Heartbeat.EventsAreDeserved | src/common/container_impl.cc:541-554 | over any run each event answers a firing of its own; for an occupant online every decided firing raised one, and its timer was set once by the attach and once again after each event |
| Heartbeat.RefusedTimerEnds | src/common/container_impl.cc:541-554 | after a firing whose lookup or check fails no timer of the pair is left |
| SliceStorage.CountsStayExact | src/utils/slice.cc:40-53 | when one slice's reference changes and the counts follow it, every count equals its owners and other slices keep their content |
| SliceStorage.Memory.Construct | src/utils/slice.cc:65-97 | the content is the data, inline up to 23 bytes and in a new block above |
| SliceStorage.Memory.Copy | src/utils/slice.cc:110-116 | same content, block shared, nothing else changes |
| SliceStorage.Memory.Assign | src/utils/slice.cc:118-130 | takes over content and block, also when both already share one, and frees the old block exactly if this was its last slice |
| SliceStorage.Memory.MoveAssign | src/utils/slice.cc:140-152 | the same in the other order of counting |
| SliceStorage.Memory.Destroy | src/utils/slice.cc:104-108 | frees the block exactly when this was its last slice |
| SliceStorage.Memory.PopBack | src/utils/slice.cc:193-206 | drops min(n, size) bytes at the end in either form |
| SliceStorage.Memory.PopFront | src/utils/slice.cc:208-224 | drops min(n, size) bytes at the front in either form |
| SliceStorage.Memory.Concat | src/utils/slice.cc:251-266 | two copies into a fresh uninitialised slice leave the content of both and change no other slice |
| SliceStorage.Memory.Write | src/utils/slice.cc:257-264 | writing through a slice that owns its block alone replaces those bytes and changes no other slice |
| SliceStorage.Memory.BlocksLiveWhileOwned | src/utils/slice.cc:48-53 | a block is live exactly while a slice refers to it and is freed at most once |
| ListEntry.PushFront | src/utils/list_entry.cc:21-27 | the item comes right behind the head; entries away from the seam are not written |
| ListEntry.PushBack | src/utils/list_entry.cc:29-35 | the item comes last |
| ListEntry.PopFront | src/utils/list_entry.cc:37-49 | removes and returns the first, or nothing from an empty list |
| ListEntry.PopBack | src/utils/list_entry.cc:51-63 | removes and returns the last, or nothing from an empty list |
| ListEntry.RemoveEntry | src/utils/list_entry.cc:65-75 | takes any member out of its ring, refusing the only one |
| ListEntry.Rotation | src/utils/list_entry.cc:21-75 | a ring may be read from any of its entries |
| HostPort.SplitOfJoin | src/common/host_port.cc:24-80 | splitting a joined text gives host and port back exactly when the host is not bracketed and does not hold both a colon and a closing bracket |
| HostPort.JoinText | src/common/host_port.cc:24-37 | a host with a colon and no bracket in front is put in brackets, any other is joined as it is |
| HostPort.DecimalRead | src/common/host_port.cc:29-32 | the port's text reads back as the port, has a sign exactly if it is negative and no leading zero but in 0 |
| HostPort.SplitShapes | src/common/host_port.cc:39-80 | a name splits into host and port exactly when it is of one of four shapes |
| HostPort.FailedViews | src/common/host_port.cc:39-90 | a failed split into views clears the host, and the port unless the name is `[h]:p` with neither colon nor closing bracket in h |
| HostPort.CopiesKeepOldOutputs | src/common/host_port.cc:92-105 | into C strings a failed split leaves both outputs as they were, a split without port leaves the port, else they are the parts |

## Left out

- LinuxConnection.Connection.OnRecv: says nothing about streams on which the loop as written does not end; which those are is exact (`Framing.WrittenLoopExact`).
- Container.Container.AttachEndpointImpl: what the undefined front of an empty list does is not modelled beyond the answer.
- MpscQueue.Queue.Push: assumes no concurrent push; interleavings are in `MpscProtocol`.
- Timer.Timer.Pass: does not model how long the thread sleeps between passes.
- Heartbeat.OneHeartbeat: counts timers as a multiset and lets a table entry fire at any time; deadlines are in `Timer`.
- Receiving.Receiver.ParsingProtocol: says nothing about buffers on which the loop as written does not end; which those are is exact (`Framing.WrittenLoopExact`).
- Container.Container.GetConnection: does not model what reading outside the vector yields, nor do the two methods beside it.
- LinuxConnection.Connection.SendMsg: takes nonempty messages only, because its callers refuse empty ones first.
- WindowsConnection.Connection.SendMsg: the same.
- Sockets, epoll, completion ports, threads, mutexes and condition variables: replaced by scripted answers and atomic steps; that consumers are woken is not claimed.
- Weak memory orders: atomics are sequentially consistent steps.
- Clocks: the time is an argument of the operation that reads it.
- Rejecting ids of closed endpoints: an id has no generation, so a reused slot can have the same id.
- The answer "first element" of a push while others are in flight; and that a pop answering empty does so at a moment when nothing is queued, which is not so while the push behind the stub owes its link (`MpscProtocol.PopAnswers`).
- Connection contents inside the container: a connection is its handle id, port and id there; an endpoint attached twice is not modelled.
- Container use after Shutdown, and how the container passes attach, close and error events on.
- Logging, status texts, properties, address resolution, socket options, the rest of the surface adaptors and the example programs other than the echo length callback.
