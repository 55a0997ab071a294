# faith: delivery, wire and layout models

faith is an instant messenger: a C server and client library that exchange framed
envelopes over TLS, and a Rust user interface with its own text layout. This project
models the parts of it whose correctness spans more than one function, and proves
what they promise.

**Event delivery** (`EventInbox`, `ReorderWindow`, `WindowTheorem`, `Backlog`,
`Delivery`, `Protocol`, `Answers`, `Stalls`, `Oversized`, `WireBatches`, `Convergence`,
`Reaching`, `Shrinking`, `CatchUp`). The server numbers the events of each device, sends
them or stores them in an inbox while the device is offline, re-sends the inbox in batches
and deletes what a cumulative acknowledgement covers. The client puts events back in order
in a ring of 256 slots, drops duplicates and dispatches strictly in sequence.
`Protocol` joins both ends by a channel that loses, duplicates and reorders encoded
bodies, and `Protocol.Exec` is any run of it.

**The wire** (`BigEndian`, `Codec`, `Encoder`, `Decoder`, `Refusals`, `Batching`,
`Transport`, `Framing`, `Stream`, `Resent`, `Sending`). `Codec` says on values what every
encoder writes and what every decoder makes of any bytes; `Encoder` and `Decoder` are the
buffer and offset code, proved equal to it, and `Refusals` says which bodies are refused and
with what. `Transport` is the growable queue with partial writes, `Framing` the server's
reassembly of frames and `Stream` the client's blocking reader and the byte stream between
the two. `Resent` and `Sending` follow a re-send, an event for a device that is online, the
greeting and an acknowledgement through all of these to the messages the protocol delivers.

**Layout** (`Atlas`, `Ranges`, `Clusters`, `Lines`). The shelf allocator of the texture
atlas, font-fallback ranges, glyph clusters and line breaking, with widths as exact
numbers.

**The client list** (`ClientList`). The doubly linked list threaded through the
server's connections.

Code that updates state is a class with the source's fields or a method with its
loops; each such method is tied to a function on values (`Contents()` before and
after), and the theorems are about these functions and about runs of them. Where an
operation has one right answer, a lemma says what it is without naming the operation: the
lines, slices and batches are each the only ones with their properties, and the steps of a
run, the refusals of the decoders and the outcomes of reads and writes have conditions of
their own.

## What the proofs show about the code

- A re-send succeeds whole or brings nothing: a failure on the way closes the connection
  before anything queued is written (faith-server/src/server/client_io.c:99-112 and
  200-213, faith-server/src/server/server.c:98-115). Batches are cut to the 4 MiB a frame may
  carry, but the output queue is checked against the 1 MiB limit of an input queue, and one
  body above 65535 bytes fails the re-send of everything. `Delivery.ResendSucceedsIff` gives
  the exact condition, `Delivery.BacklogIsRefused` a backlog of 17 events that no connection
  takes.
- The one re-send there is follows the greeting on the same connection
  (faith-server/src/auth/handshake.c:262-266 and 333-338), so at least its 48 bytes are always
  queued first (`Backlog.GREETING`, `Delivery.WelcomeBack`). They count: there are 16 events
  that fill an empty queue to the last byte and so never arrive
  (`Delivery.BacklogIsRefusedBehindGreeting`, `Stalls.GreetingMakesTheDifference`).
- A re-send that succeeds reaches the client's reader: once everything is written, in
  whatever pieces, the reader hands on the batches of the inbox in order, behind what was
  queued before (`Resent.ResentIsDelivered`, `Resent.ResentIsInbox`).
- A message is acknowledged if and only if none of its events fails and one of them has a
  number no greater than the awaited one when its turn comes (`Answers.AcknowledgedIff`).
- Online events are numbered but not stored. The client never gets past an event that is
  neither on the wire nor in its ring when it was not stored, or when what is stored from
  it on is more than a re-send takes (`Stalls.LostStallsForever`;
  `Stalls.OnlineEventCanBeLost` and `Stalls.BacklogCanBeLost` are runs that get there).
- In every state the client can catch up if and only if its handlers accept every event it
  lacks; each of these that is neither on the wire nor in its ring was stored; and, if there
  are such, a re-send takes the backlog as it stands, or what an acknowledgement under way
  leaves of it, or what is stored from the first of them on, given a message on the wire
  with an event in front of it (`CatchUp.CatchesUpExactly`). With a backlog that a re-send
  takes as it stands this becomes a condition on each event by itself
  (`CatchUp.CatchesUpWithBacklog`).
- A stored event with a body above 65535 bytes is never delivered, and once it is stored no
  re-send brings any other event either (`Oversized.OversizedIsNeverDelivered`,
  `Oversized.OversizedTakesOthersAlong`).
- One re-send of a gap-free inbox that loses nothing on the way converges if and only if
  the handlers accept every awaited event and the output queue takes the backlog, or the
  client was up to date before (`Convergence.OneRoundConverges`).
- The server's frame decoder refuses a buffer that holds anything behind one frame.
  Frames a client sends back to back all arrive if and only if no single read brings
  bytes of two of them (`Framing.DeliveredIffNoReadSpans`).
- The batch encoder truncates an element size above 65535 without an error; decoding
  inverts encoding on exactly the valid batches (`Codec.DecodeOfBatchBytes`). The server
  checks the sizes before it builds a batch.
- The value that stands for "none yet" is never logged, dispatched or acknowledged, but
  it can reach the wire: the online path queues the envelope before it finds the
  numbers used up (`Protocol.SentinelStaysOut`).
- The first push into a fresh inbox is the only one whose number is not checked
  (`EventInbox.PushKeepsValid`, `EventInbox.FreshInboxTakesAnyNumber`); the delivery code
  always passes the next number.
- The ring accepts every event up to 256 past the next expected one, and 257 past can
  clash (`WindowTheorem.WindowDelivers`, `WindowTheorem.WindowIsTight`).
- The atlas refuses a request if and only if there are 32 layers and neither the open row
  nor one below it has room; then it refuses every later one whose height and padding
  together are no smaller (`Atlas.RefusedIffFull`, `Atlas.RefusedForEver`).
- The atlas places an image inside its layer if and only if the image is no larger than
  a layer: the allocator itself never refuses a wide one
  (`Atlas.AllocationsKeepApart`).
- Trailing whitespace makes no line only when it is a single token. A second such token
  joins the trimmed first one, and the line of whitespace stays
  (`Lines.LinesAreDetermined`, `Lines.WhitespaceCanMakeALine`).
- Flushing a connection with nothing allocated reports a transport error with status ok,
  and that is every connection that queued nothing since its last complete flush, which
  frees the buffer (`Transport.FlushErrorMeansNothingAllocated`).

## Model

| member | source | states |
|---|---|---|
| BigEndian.BEAt | faith-proto/src/codec/helpers.c:10-12 | each byte the writers' loop stores is the value shifted right past the bytes after it, cut to 8 bits |
| BigEndian.WriteBE | faith-proto/src/codec/helpers.c:5-39 | the loop writes exactly the big-endian bytes of the value and leaves the rest of the buffer alone |
| BigEndian.ReadBack16 | faith-proto/src/codec/helpers.c:41-45 | reading a written 16-bit number gives it back |
| BigEndian.ReadBack32 | faith-proto/src/codec/helpers.c:47-52 | the same for 32 bits |
| BigEndian.ReadBack64 | faith-proto/src/codec/helpers.c:54-61 | the same for 64 bits |
| BigEndian.WriteBack64 | faith-proto/src/codec/helpers.c:29-61 | writing a number that was read gives the bytes back |
| Codec.EventLayout | faith-proto/src/codec/codec.c:680-708 | where each field of an event stands and how it is coded |
| Codec.BatchLayout | faith-proto/src/codec/codec.c:801-846 | the same for a batch, with anything behind it |
| Codec.EnvelopeLayout | faith-proto/src/codec/codec.c:199-237 | the same for an envelope |
| Codec.DecodeOfEventBytes | faith-proto/src/codec/codec.c:680-740 | decoding an encoded event body gives the event back, for every event |
| Codec.EventBytesOfDecode | faith-proto/src/codec/codec.c:680-740 | any body that decodes is the encoding of what it decodes to |
| Codec.DecodeOfBatchBytes | faith-proto/src/codec/codec.c:801-950 | decoding inverts encoding if and only if the batch has at most 256 events, bodies of at most 65535 bytes and a true data size |
| Codec.BatchBytesOfDecode | faith-proto/src/codec/codec.c:848-950 | a body that decodes yields a valid batch, and encoding that batch yields the same bytes |
| Codec.BatchDecoderLanguage | faith-proto/src/codec/codec.c:848-950 | the decoder accepts exactly the encodings of valid batches |
| Codec.DecodeOfAckBytes | faith-proto/src/codec/codec.c:952-979 | decoding an encoded acknowledgement gives its number back |
| Codec.DecodeOfEnvelopeBytes | faith-proto/src/codec/codec.c:199-278 | decoding an encoded envelope gives it back |
| Codec.EnvelopeBytesOfDecode | faith-proto/src/codec/codec.c:239-278 | any payload that decodes is the encoding of its envelope |
| Encoder.Append | faith-proto/include/faith-proto/codec/helpers.h:17-75 | the append macro fails exactly when the rest of the buffer is too short, and otherwise extends what was written by its bytes |
| Encoder.EncodeEventBody | faith-proto/src/codec/codec.c:680-708 | writes the event's bytes, or refuses exactly when the capacity is too small and writes nothing |
| Encoder.EncodeEventBatchBody | faith-proto/src/codec/codec.c:801-846 | the exact status for every batch and capacity; on success the buffer starts with the batch's bytes; never writes past the capacity |
| Encoder.BatchStatusSays | faith-proto/src/codec/codec.c:801-846 | it overflows if and only if the declared or the real data does not fit, and is invalid if and only if both fit and differ |
| Encoder.EncodeEventAckBody | faith-proto/src/codec/codec.c:952-963 | writes the eight bytes of the number or refuses a short buffer untouched |
| Encoder.EncodeEnvelope | faith-proto/src/codec/codec.c:199-237 | writes the envelope's bytes or refuses a short buffer untouched |
| Encoder.EncodeFrame | faith-proto/src/codec/codec.c:11-39 | writes the frame's bytes or refuses a short buffer untouched |
| Decoder.Take | faith-proto/include/faith-proto/codec/helpers.h:77-137 | a read succeeds exactly when it lies within the payload, and returns that slice |
| Decoder.DecodeEventBody | faith-proto/src/codec/codec.c:710-740 | the offset code computes the value-level decoder on every input, errors included |
| Decoder.DecodeEventBatchBody | faith-proto/src/codec/codec.c:848-950 | the same for batches: count, size, element and trailing checks in the source's order |
| Decoder.DecodeEventAckBody | faith-proto/src/codec/codec.c:965-979 | the same for acknowledgements |
| Decoder.DecodeEnvelopeBytes | faith-proto/src/codec/codec.c:239-278 | the same for envelopes |
| Refusals.EventCutOrPadded | faith-proto/src/codec/codec.c:710-740 | an event cut anywhere or with anything behind it is a bad frame |
| Refusals.EnvelopeCutOrPadded | faith-proto/src/codec/codec.c:239-278 | so is an envelope |
| Refusals.BatchCutOrPadded | faith-proto/src/codec/codec.c:848-950 | a valid batch cut in its header is a bad frame, cut behind it an overflow, and with anything behind it a bad envelope |
| Refusals.BatchHeaderDecides | faith-proto/src/codec/codec.c:848-950 | a batch of more than 256 events or with a false data size is refused whatever its elements are |
| Refusals.RestDecides | faith-proto/src/codec/codec.c:848-950 | elements that are as they should be are read, and the rest decides |
| Refusals.ElementRefused | faith-proto/src/codec/codec.c:848-950 | which error the first element that is not leads to, and bytes left over |
| Batching.FitIsMaximal | faith-proto/src/codec/codec.c:742-799 | a successful fit is the longest prefix within the capacity, all of whose bodies fit an element |
| Batching.FitFails | faith-proto/src/codec/codec.c:766-774 | below 4 GiB the scan fails only at a body above 65535 bytes |
| Batching.EventBatchDataSizeFit | faith-proto/src/codec/codec.c:742-799 | the scanning loop returns the fit, its exact data size and the exact error |
| Batching.SplitKeepsEvents | faith-server/src/delivery/events.c:133-175 | the batches queued are sendable and concatenate to a prefix of the inbox; to all of it if and only if every body fits an element |
| Batching.SplitStopsAt | faith-proto/src/codec/codec.c:766-774 | which batches are queued in front of the first oversized body: those of the events before it, but for the last unless that has 256 events |
| Batching.GreedyIsLongest | faith-server/src/delivery/events.c:136-168 | the first batch cut is at least as long as any other sendable one |
| Batching.SplitIsOptimal | faith-server/src/delivery/events.c:133-175 | no order-preserving split into sendable batches uses fewer of them |
| Batching.SplitIsDetermined | faith-server/src/delivery/events.c:133-175 | it is the one split into sendable batches none of which could take the event behind it |
| Batching.BatchOfDecodes | faith-server/src/delivery/events.c:53-81 | every batch cut fits a frame payload beside the envelope and is decoded back unchanged |
| EventInbox.DeviceEventInbox.constructor | faith-server/src/delivery/event_inbox.c:8-16 | the fresh inbox |
| EventInbox.DeviceEventInbox.PushEvent | faith-server/src/delivery/event_inbox.c:18-56 | exact status; the event is appended and its number taken, or nothing changes |
| EventInbox.DeviceEventInbox.AdvanceSeq | faith-server/src/delivery/event_inbox.c:58-71 | takes a number without storing, or refuses once they have run out |
| EventInbox.DeviceEventInbox.RemoveEventsUntil | faith-server/src/delivery/event_inbox.c:73-106 | exact status; removes the acknowledged leading events and records the acknowledgement |
| EventInbox.PushKeepsValid | faith-server/src/delivery/event_inbox.c:18-56 | a push keeps the inbox invariant if and only if it is refused or carries the next number; only the first push can break it |
| EventInbox.PushStores | faith-server/src/delivery/event_inbox.c:18-56 | a push stores the event and takes the next number if and only if it carries a number, numbers are left, and it is the next one or the first ever; each refusal if and only if its own condition holds |
| EventInbox.FreshInboxTakesAnyNumber | faith-server/src/delivery/event_inbox.c:31-35 | a concrete push of number 5 into a fresh inbox that breaks the invariant |
| EventInbox.AdvanceKeepsValid | faith-server/src/delivery/event_inbox.c:58-71 | advancing keeps the invariant |
| EventInbox.AdvanceTakes | faith-server/src/delivery/event_inbox.c:58-71 | advancing takes the next number if and only if one is left, whatever was acknowledged |
| EventInbox.RemoveKeepsValid | faith-server/src/delivery/event_inbox.c:73-106 | removal keeps stored numbers increasing, above the last acknowledgement and below the next number |
| EventInbox.RemoveLeavesAbove | faith-server/src/delivery/event_inbox.c:73-106 | a number that was assigned is accepted, exactly the events above it stay, and the larger number counts as acknowledged; any other is refused |
| EventInbox.DropIsFilter | faith-server/src/delivery/event_inbox.c:89-101 | deleting the leading acknowledged events is filtering by number |
| EventInbox.DropMembers | faith-server/src/delivery/event_inbox.c:89-101 | exactly the events above the acknowledged number survive |
| EventInbox.AcksJoin | faith-server/src/delivery/event_inbox.c:78-105 | two accepted acknowledgements in either order act as the larger one; removal commutes even when one is refused |
| EventInbox.AcksCollapse | faith-server/src/delivery/event_inbox.c:73-106 | any list of acknowledgements in any order acts as the largest accepted one alone |
| ReorderWindow.Client.constructor | faith-client/src/client.c:2002-2015 | nothing dispatched, all slots empty |
| ReorderWindow.Client.DispatchEvent | faith-client/src/client.c:981-1014 | an accepted event becomes the last dispatched one; a refused one changes nothing |
| ReorderWindow.Client.BufferEvent | faith-client/src/client.c:1016-1054 | fills the slot of the number modulo 256, accepts the same number again, refuses another |
| ReorderWindow.Client.DrainReorderBuffer | faith-client/src/client.c:1056-1080 | the loop ends and computes the drained state |
| ReorderWindow.Client.ProcessEvent | faith-client/src/client.c:1082-1123 | exact status, state and flags for sentinel, duplicate, expected and early events |
| ReorderWindow.Client.ReceiveEvent | faith-client/src/client.c:1125-1148 | decoding, processing and the acknowledgement sent |
| ReorderWindow.Client.ReceiveEventBatch | faith-client/src/client.c:1150-1180 | the batch is processed in order up to the first failure; one acknowledgement if all succeed |
| ReorderWindow.DrainSettles | faith-client/src/client.c:1056-1080 | draining keeps the accepted set and dispatches one event for each slot freed; it stops on an event it cannot dispatch or on none; the overflow exit is unreachable |
| ReorderWindow.DispatchedIsFrontier | faith-client/src/client.c:1016-1123 | the dispatched events are the longest gap-free dispatchable prefix of the accepted set |
| ReorderWindow.StateIsAFunctionOfAccepted | faith-client/src/client.c:1016-1123 | two valid clients that accepted the same events are in the same state, slot by slot |
| ReorderWindow.WaitsInItsSlot | faith-client/src/client.c:1019-1053 | an event is accepted and undispatched if and only if it stands in the slot of its number modulo 256 |
| ReorderWindow.ProcessRefinesSet | faith-client/src/client.c:1082-1123 | on the accepted set, what an arrival adds, every status and both flags, each as an if-and-only-if |
| ReorderWindow.AwaitedEvent | faith-client/src/client.c:965-1014 | the awaited event is refused without effect if it creates a conversation and its identifier is not 16 bytes, and dispatched otherwise |
| ReorderWindow.FirstCopyIsKept | faith-client/src/client.c:1016-1054 | a second event with the number of an accepted one changes nothing, whatever its content, unless that number is awaited |
| WindowTheorem.StepInWindow | faith-client/src/client.c:1022-1032 | an arrival at most 256 past the next expected number is never refused and joins the accepted set |
| WindowTheorem.WindowDelivers | faith-client/src/client.c:1022-1080 | any order with any duplicates that stays in the window dispatches the whole log once and in order and leaves no slot occupied |
| WindowTheorem.WindowIsTight | faith-client/src/client.c:1022-1032 | 257 past the next expected number meets an occupied slot and is refused |
| Protocol.NextKeepsInv | faith-server/src/delivery/events.c:83-206 | every step of either side or the channel keeps the system invariant and only extends log, dispatched events and acknowledgements |
| Protocol.ProcessAllLogged | faith-client/src/client.c:1163-1171 | a batch of logged events leaves the client holding logged events only, with its dispatched prefix extended |
| Protocol.HandleLogged | faith-client/src/client.c:1125-1180 | an acknowledgement always names the last dispatched event |
| Protocol.PendingCarryInbox | faith-server/src/delivery/events.c:133-175 | every re-sent body decodes to the events cut from the inbox |
| Protocol.DispatchedIsPrefixOfLog | faith-client/src/client.c:1082-1123 | in every run the dispatched events are a prefix of the server's log, each once and in order, and stay so |
| Protocol.StoredUntilDispatched | faith-server/src/delivery/event_inbox.c:73-106 | in every run a stored event stays in the inbox until dispatched; no acknowledgement in flight or applied is ahead of the client; those sent never decrease |
| Protocol.SentinelStaysOut | faith-server/src/delivery/events.c:15-40 | in every run the sentinel is never logged, dispatched or acknowledged; it goes on the wire exactly for an online event after the last number |
| Answers.OfflineIsStored | faith-server/src/delivery/events.c:83-119 | in every run an event for a device that is offline gets the next number and is stored behind the others, as long as numbers are left; nothing else changes |
| Answers.OnlineIsSent | faith-server/src/delivery/events.c:13-40 | in every run an event for a device that is online gets the next number and is on the wire as its own message; the inbox keeps its events |
| Answers.AckIsApplied | faith-server/src/delivery/events.c:180-206 | in every run an acknowledgement that arrives is accepted and takes exactly the events up to its number away |
| Answers.BatchStopsAt | faith-client/src/client.c:1163-1171 | a batch is processed up to its first event that fails, whose effect and status stay |
| Answers.AcknowledgedIff | faith-client/src/client.c:1125-1180 | either kind of message is acknowledged if and only if none of its events fails and one has a number no greater than the awaited one in its turn; one that does not decode changes nothing |
| Answers.EventAcknowledgedIff | faith-client/src/client.c:1125-1148 | a single event is acknowledged if and only if it is numbered, did not fail and has a number no greater than the awaited one, repeats included |
| Answers.DeliveryIsAnswered | faith-client/src/client.c:1082-1180 | in every run a delivery leaves the server alone and sends exactly that acknowledgement |
| Stalls.NextKeepsLost | faith-server/src/delivery/events.c:83-206 | no step makes a lost event available again |
| Stalls.LostStallsForever | faith-server/src/delivery/events.c:13-40 | whatever follows, the client never gets past an event that is neither on the wire nor buffered and was not stored or is in a backlog that is not taken |
| Stalls.OnlineEventCanBeLost | faith-server/src/delivery/events.c:35 | a two-step run that loses an online event |
| Stalls.StoredBacklogIsLost | faith-server/src/transport/conn.c:155-157 | storing any backlog that a re-send behind the greeting does not take loses all of it |
| Stalls.BacklogCanBeLost | faith-server/src/transport/conn.c:155-157 | a run of 17 events stored offline after which none of them can reach the client |
| Stalls.GreetingMakesTheDifference | faith-server/src/auth/handshake.c:262-266 | a run of 16 events stored offline that an empty queue would take and that are lost behind the greeting |
| Oversized.OversizedIsLost | faith-server/src/delivery/event_inbox.c:37-53 | in every run a stored event with a body above 65535 bytes is lost from the moment it is stored |
| Oversized.OversizedIsNeverDelivered | faith-proto/src/codec/codec.c:766-774 | in every run it stays in the inbox, the client never gets past it, and no later re-send brings anything to the wire |
| Oversized.OversizedTakesOthersAlong | faith-proto/src/codec/codec.c:766-774 | a stored event before it that is not on its way already is lost too, although it fits |
| Oversized.OversizedCanBeStored | faith-server/src/delivery/event_inbox.c:37-53 | the inbox takes any such event |
| Convergence.BatchInOrder | faith-client/src/client.c:1150-1180 | a stretch of the log that starts no later than the next number brings the client past it, whatever it had buffered |
| Convergence.BatchesDelivered | faith-server/src/delivery/events.c:133-175 | all batches of a re-send delivered in order bring the client to the newest event, and the last acknowledgement names it |
| Convergence.AcksEmptyInbox | faith-server/src/delivery/event_inbox.c:73-106 | acknowledgements empty a gap-free inbox if and only if one of them names the newest event |
| Convergence.OneRoundConverges | faith-server/src/delivery/events.c:133-206 | after one re-send that loses nothing the client has the whole log if and only if it had it before, or every awaited event can be dispatched and the output queue takes the backlog; with the same condition on when the inbox is then emptied |
| Convergence.StopsBefore | faith-client/src/client.c:981-1014 | the client never gets past an event it cannot dispatch |
| WireBatches.ReachableBatches | faith-server/src/delivery/events.c:133-175 | in every run batches on the wire carry stored events only, in increasing order, and skip no stored number between two they carry |
| Reaching.MessageReaches | faith-client/src/client.c:1082-1180 | any message that carries the awaited event takes the client past it, even a batch that then fails |
| Reaching.ReachSteps | faith-client/src/client.c:1082-1180 | deliveries alone bring the client as far as events on the wire or in its ring reach without a gap |
| Shrinking.CanShrinkIff | faith-server/src/delivery/event_inbox.c:73-106 | with a stored event missing, some deliveries leave a backlog that a re-send takes if and only if it is taken as it stands, or with an acknowledgement under way, or from the first missing event on given a message on the wire with an event in front of it |
| CatchUp.CatchUpByResend | faith-server/src/delivery/events.c:121-178 | the steps, a re-send and deliveries, that bring the client the whole log when the backlog is taken and every missing event was stored |
| CatchUp.CatchesUpExactly | faith-server/src/delivery/events.c:83-206 | in every state: some continuation that queues nothing brings the client the whole log if and only if every event it lacks can be dispatched, those neither on the wire nor buffered were all stored, and from the first of these on the backlog can be brought down to what a re-send takes, as a condition on the inbox, the acknowledgements and the wire |
| CatchUp.CatchesUpWithBacklog | faith-server/src/delivery/events.c:83-206 | the same for a backlog that can be re-sent, event by event: stored, on the wire as its own message, or in the ring |
| Delivery.MakeWire | faith-server/src/server/client_io.c:14-97 | the two buffers end up holding the framed envelope |
| Delivery.Connection.QueueEnvelope | faith-server/src/server/client_io.c:65-112 | the framed envelope is appended whole, or nothing is and the connection is marked dead |
| Delivery.QueueEventOnline | faith-server/src/delivery/events.c:13-40 | the envelope is queued before the number is taken; the number is taken only if it was queued |
| Delivery.QueueEvent | faith-server/src/delivery/events.c:83-119 | offline stores, unauthorized refuses without effect, online queues; exact status and state |
| Delivery.HandleEventAcked | faith-server/src/delivery/events.c:180-206 | an envelope of another kind, an unauthorized client or a bad body is refused without effect; otherwise the inbox is told |
| Delivery.QueueBatch | faith-server/src/delivery/events.c:52-81 | a sendable batch is encoded without failure and queued whole or not at all |
| Delivery.QueuePendingEvents | faith-server/src/delivery/events.c:121-178 | the re-send loop queues the split batch by batch up to the first failure; a connection marked dead takes nothing, with the exact status |
| Backlog.CountCutsBatches | faith-server/src/delivery/events.c:133-168 | below the size limit of a batch the number of batches is the number of events over 256, rounded up |
| Backlog.ResendableIsSplitFits | faith-server/src/delivery/events.c:133-175 | the closed condition on the inbox holds if and only if the split succeeds and all its bytes fit the output queue |
| Delivery.ResendSucceedsIff | faith-server/src/transport/conn.c:155-157 | a re-send succeeds if and only if every body fits an element, and the backlog with 54 bytes for each 256 events fits 1 MiB behind what is queued; then exactly the framed batches are queued |
| Delivery.PendingQueuesWhatFits | faith-server/src/delivery/events.c:133-175 | whether it succeeds or not, a re-send queues the batches up to the first that does not fit, which makes it an overflow; when all fit the status is that of the split |
| Delivery.DeadTakesNothing | faith-server/src/server/client_io.c:65-68 | a connection marked dead takes nothing, with the exact status |
| Delivery.BacklogIsRefused | faith-server/src/transport/conn.c:155-157 | 17 events of 65519 bytes are refused by an empty queue |
| Delivery.BacklogIsRefusedBehindGreeting | faith-server/src/auth/handshake.c:262-266 | 16 events that an empty queue takes are refused by a queue that holds the greeting |
| Delivery.WelcomeBack | faith-server/src/auth/handshake.c:262-266 | the greeting and then the backlog are queued, exactly those bytes, if and only if the connection is not marked dead and the backlog can be re-sent 48 bytes behind what was queued |
| Transport.GrownCap | faith-server/src/transport/conn.c:159-182 | the grown capacity suffices, respects the limit and is at most twice what was needed |
| Transport.GrowsByDoubling | faith-server/src/transport/conn.c:161-182 | growing doubles the capacity, from 4096 on, as often as needed and no oftener, up to the limit |
| Transport.EnqueueAppends | faith-server/src/transport/conn.c:134-201 | an accepted enqueue appends exactly its bytes to those waiting; a refused one changes nothing |
| Transport.FlushConserves | faith-server/src/transport/conn.c:56-121 | bytes written then bytes still queued are the bytes that were queued, whatever each write does; complete if and only if none are left |
| Transport.FlushGoesOn | faith-server/src/transport/conn.c:56-121 | a flush writes as much as the attempts can move before one makes no progress, and reports what that one ran into |
| Transport.FlushErrorMeansNothingAllocated | faith-server/src/transport/conn.c:61-69 | a flush reports an error with status ok if and only if the queue has no buffer, as after every complete flush |
| Transport.TransportQueue.Reserve | faith-server/src/transport/conn.c:161-190 | the growth loop ends at the grown capacity and keeps the contents |
| Transport.TransportQueue.EnqueueBytes | faith-server/src/transport/conn.c:134-201 | exact status and contents of the growable array |
| Transport.TransportQueue.FlushOutput | faith-server/src/transport/conn.c:56-121 | the write loop computes the flush: status, result, bytes written and what is left |
| Transport.TransportQueue.Free | faith-server/src/transport/conn.c:203-211 | back to the empty queue without a buffer |
| Transport.TransportQueue.Shift | faith-server/src/transport/frame.c:32-38 | the consumed bytes go and the rest moves to the front |
| Transport.OutputEmptyMeansNothingQueued | faith-server/src/transport/conn.c:123-132 | the size test means that nothing is left to write, although written bytes are not removed |
| Framing.TryParseFromBuffer | faith-server/src/transport/frame.c:105-125 | the offset decoder computes the value-level one and reports the frame's full length as consumed |
| Framing.DecodesExactlyOneFrame | faith-proto/src/codec/codec.c:41-123 | a buffer decodes if and only if it is one valid frame and nothing else |
| Framing.PrefixAndExcess | faith-proto/src/codec/codec.c:41-123 | every proper prefix of a frame is incomplete; anything behind a frame makes it bad |
| Framing.IncompleteIffPrefix | faith-proto/src/codec/codec.c:41-123 | behind the header more bytes are asked for if and only if these are a proper prefix of some frame that is not too large, of whatever version |
| Framing.WholeFrameDecides | faith-proto/src/codec/codec.c:41-123 | a whole frame of another version is named as such; with anything behind it a frame is bad |
| Framing.HeaderDecides | faith-proto/src/codec/codec.c:41-123 | a frame that announces too much or too little is refused on its header, and no other is too large |
| Framing.TryFullRead | faith-server/src/transport/frame.c:8-104 | the parse-and-read loop computes the outcome, the queue left and the input left |
| Framing.ReadEndsWhere | faith-server/src/transport/frame.c:8-104 | a read goes on exactly as long as bytes arrive, fit and complete no frame; it ends with the frame, the refusal, or what the last attempt ran into |
| Framing.DeliveredIffNoReadSpans | faith-server/src/transport/frame.c:8-104 | frames sent back to back are all delivered in order with nothing left over if and only if no read spans two; otherwise reading fails |
| Framing.OneFrameInAnyPieces | faith-server/src/transport/frame.c:8-125 | one frame in any pieces over any calls is delivered once and leaves the queue empty |
| Stream.ReadBytes | faith-client/src/client.c:219-277 | reads exactly the size asked, in order, or reports how the stream ended: closed, a TLS error or an I/O error; nothing is dropped |
| Stream.ReadFrameSync | faith-client/src/client.c:279-345 | the outcome depends on the bytes before the stream ends and on how it ends, not on the pieces they arrive in |
| Stream.ReadsFirstFrame | faith-client/src/client.c:279-345 | the first of concatenated frames comes out once complete, and no part of it is refused before |
| Stream.GotIffFrame | faith-client/src/client.c:279-345 | a frame comes out if and only if the stream starts with a valid one, and it is that one |
| Stream.RefusedIffHopeless | faith-client/src/client.c:279-345 | behind the header the stream is refused if and only if no valid frame can start with these bytes |
| Stream.RefusedFor | faith-client/src/client.c:279-345 | which error a refusal is |
| Stream.Reader | faith-client/src/client.c:1423-1432 | the reader's loop hands on the frames the bytes that arrive hold, up to the first that is refused or incomplete, in whatever pieces they come |
| Stream.ReadsPrefix | faith-client/src/client.c:279-345 | of any first bytes of valid frames it makes the frames that are complete, in order, and all of them once all bytes are there |
| Stream.NextReadIsNextFrame | faith-client/src/client.c:279-345 | in a consistent link the next read gives the next frame sent or waits; it refuses nothing |
| Stream.StreamConservesFrames | faith-server/src/server/client_io.c:14-63 | in every interleaving of queued frames, partial writes and reads: written plus queued bytes are the accepted frames in order, the client read a prefix of them, and none is stuck |
| Resent.ResentIsRead | faith-server/src/delivery/events.c:121-178 | after a re-send that succeeds, behind any valid frames and with any partial writes, the frames read are the first of those queued and, once all is written, all of them |
| Resent.ResentIsDelivered | faith-client/src/client.c:1361-1421 | once all is written the reader hands on the messages of what was queued before, followed by exactly those the protocol puts on the wire |
| Resent.ResentIsInbox | faith-server/src/delivery/events.c:133-175 | these messages decode to batches that together are the inbox, in order |
| Sending.EnvelopeIsRead | faith-server/src/server/client_io.c:65-97 | an envelope of any kind that was taken is read behind what was queued before, once all is written, with its kind, both ids and its body |
| Sending.MessageIffAddressed | faith-client/src/client.c:1361-1421 | the reader hands on exactly the events and batches addressed to its account |
| Sending.OnlineIsDelivered | faith-server/src/delivery/events.c:13-40 | an event queued for a device that is online is read as exactly the message the protocol puts on the wire |
| Sending.WelcomeIsDelivered | faith-server/src/auth/handshake.c:262-266 | a client that comes back reads the greeting and then the whole backlog |
| Sending.AckIsDelivered | faith-client/src/client.c:940-963 | an acknowledgement in whatever pieces is read as one envelope that names its event |
| Atlas.ImageAtlas.AllocateImageRect | faith-ui/src/ui/renderer.rs:544-588 | the placement and all layers after it, row wrap, new layer and failure included |
| Atlas.ImageAtlas.CreateNewImageLayer | faith-ui/src/ui/renderer.rs:590-607 | a new empty layer, refused at 32 |
| Atlas.PlacementIsClear | faith-ui/src/ui/renderer.rs:564-585 | the new rectangle keeps its distance to any behind the cursor, and all stay behind it |
| Atlas.AllocationsKeepApart | faith-ui/src/ui/renderer.rs:544-607 | over any sequence of allocations rectangles on a layer keep the padding apart; one lies inside its layer if and only if it is no larger |
| Atlas.PlacedWhereRoomIs | faith-ui/src/ui/renderer.rs:544-607 | the outcome and all layers after it, by where there is room: in the open row, below it, on a new layer, or nowhere |
| Atlas.RefusedIffFull | faith-ui/src/ui/renderer.rs:570-607 | over any sequence a request is refused if and only if there are 32 layers and neither the open row nor one below it has room; a new layer is opened only then |
| Atlas.RefusedForEver | faith-ui/src/ui/renderer.rs:544-607 | once one is refused, every later one whose height and padding together are no smaller is |
| Atlas.SumsNeverWrap | faith-ui/src/ui/renderer.rs:561-586 | with the sizes the image loader admits no 32-bit sum of any allocation wraps |
| Ranges.MergeRanges | faith-ui/src/ui/text.rs:389-416 | non-empty, ordered, non-touching ranges that cover the same bytes |
| Ranges.CanonicalIsUnique | faith-ui/src/ui/text.rs:389-416 | there is only one such list, so merging depends on the bytes covered alone |
| Ranges.ClusterToGraphemeRange | faith-ui/src/ui/text.rs:376-387 | the grapheme that holds the cluster, or the empty range when none does |
| Ranges.MissingRanges | faith-ui/src/ui/text.rs:500-518 | exactly the graphemes with a glyph the font lacks |
| Ranges.CutAtRanges | faith-ui/src/ui/text.rs:532-599 | pieces that tile the text, alternate, and are marked exactly where bytes are missing |
| Ranges.RepairMissingGlyphsInRun | faith-ui/src/ui/text.rs:493-608 | the pieces, reversed for right-to-left, tile the run; a byte is repaired if and only if its grapheme lacks a glyph |
| Ranges.TilingIsUnique | faith-ui/src/ui/text.rs:532-599 | no other alternating tiling marks the same bytes |
| Clusters.GroupGlyphs | faith-ui/src/ui/text.rs:1162-1188 | groups cut the glyphs without gaps where the cluster changes, with their advance |
| Clusters.BuildClusterGroups | faith-ui/src/ui/text.rs:1155-1210 | as above, each group ending at the next cluster start or the end of the run |
| Clusters.GroupsTileRun | faith-ui/src/ui/text.rs:1155-1210 | for well-shaped glyphs in any byte order the groups tile the run's bytes and its glyphs |
| Clusters.RunSlicesForByteRange | faith-ui/src/ui/text.rs:1212-1263 | the loop with an open slice computes the slices |
| Clusters.SlicesSelectGroups | faith-ui/src/ui/text.rs:1212-1263 | the slices are maximal, in order, hold exactly the glyphs of the clusters in the range and advance as far |
| Clusters.SlicesAreDetermined | faith-ui/src/ui/text.rs:1212-1263 | no other slices keep apart, hold exactly these glyphs, name their run and advance each as far as its clusters |
| Clusters.BoundariesAreStarts | faith-ui/src/ui/text.rs:1190-1207 | the bytes where a cut splits no cluster are exactly the cluster starts and the end |
| Clusters.SlicingConservesAdvance | faith-ui/src/ui/text.rs:1212-1263 | the slices of all pieces of a cut at cluster starts together advance as far as all glyphs |
| Clusters.SlicingPartitionsGlyphs | faith-ui/src/ui/text.rs:1212-1263 | each glyph is in the slices of exactly one piece of the cut |
| Lines.WordWrapTokenRanges | faith-ui/src/ui/text.rs:1030-1054 | tokens tile the text and start exactly at the words that may start a line |
| Lines.TrimLineStartWhitespace | faith-ui/src/ui/text.rs:1056-1075 | the loop computes the trimmed start and stays on character boundaries |
| Lines.TrimSkipsWhitespace | faith-ui/src/ui/text.rs:1056-1075 | trimming skips whitespace only, and all of it |
| Lines.BuildLineRanges | faith-ui/src/ui/text.rs:1077-1153 | the loop with its open line computes the lines |
| Lines.ExtendedIsGood | faith-ui/src/ui/text.rs:1119-1149 | a token that does not wrap keeps the line's width the sum of its tokens |
| Lines.LinesAreSound | faith-ui/src/ui/text.rs:1077-1153 | lines are non-empty, ordered and disjoint; skipped bytes are whitespace; each starts trimmed and breaks exactly where it must; a line that reaches the maximum has just one token with width |
| Lines.LinesAreDetermined | faith-ui/src/ui/text.rs:1077-1153 | the lines are the only ones that start behind the leading whitespace of their first token, go on exactly as long as the width is 0 or stays below the maximum with the next token, and leave out at most a last token of whitespace |
| Lines.WhitespaceCanMakeALine | faith-ui/src/ui/text.rs:1144-1150 | a concrete paragraph with a last line of whitespace only |
| ClientList.Server.LinkClient | faith-server/src/server/server.c:361-372 | the client becomes the head of a well-formed list |
| ClientList.Server.UnlinkClient | faith-server/src/server/server.c:374-389 | exactly that client leaves, the order of the others stays, its links are cleared |
| ClientList.Server.AdoptClient | faith-server/src/server/client_lifecycle.c:11-50 | a fresh client heads the list, or is gone again when setting it up fails |
| ClientList.Server.CloseClient | faith-server/src/server/client_lifecycle.c:52-77 | the list effect of closing a connection |
| ClientList.Server.BeginShutdown | faith-server/src/server/server.c:204-214 | the walk tells every client once, in order, and changes no link |
| ClientList.Server.Destroy | faith-server/src/server/server.c:339-348 | the loop ends with an empty list and every client unlinked |
| ClientList.Server.Serve | faith-server/src/server/server.c:361-389 | after any sequence of connections, set up or not, and of hang-ups the links spell exactly the clients adopted and not closed since |
| ClientList.ListHoldsOpenClients | faith-server/src/server/server.c:361-389 | the list the recorded adoptions and closings make holds exactly the clients adopted and not closed since, each once |

## Left out

- Convergence.OneRoundConverges: supposes that nothing sent in the round is lost; losses are
  what `CatchUp.CatchesUpExactly` and `Stalls.LostStallsForever` are about.
- Clusters.RunSlicesForByteRange: takes groups that tile their glyphs, as the group builder
  makes them; the arm for a gap between two groups cannot be reached and is not modelled.
- Delivery.HandleEventAcked: looking up the device session is not modelled.
- Lines.BuildLineRanges: the width of a stretch of bytes is a parameter; measuring it over
  several shaped runs is not part of this model.
- Lines.LinesAreSound: widths are exact numbers, not 32-bit floats.
- Atlas.AllocationsKeepApart: sizes are unbounded numbers; `Atlas.SumsNeverWrap` shows that
  32 bits are enough for the sizes the image loader admits, not for larger ones.
- Transport.TransportQueue.Reserve: the branches the limit check before it rules out are
  not modelled, and neither is memory running out.
- Delivery.Connection.QueueEnvelope: the reactor registration that can fail after the bytes
  were queued is not modelled.
- ClientList.Server.CloseClient: device-link cancellation, session bookkeeping and freeing
  the connection are not modelled, only the list.
- Null-pointer arguments and allocation failures, in every function.
- Bodies so large that a header pushes their size past 32 bits.
- TLS, sockets, epoll, threads, heartbeats, reconnect timing and logging; a read or write
  moves some bytes or reports that it would block.
- The session registry and a client restarted with a lost position: one client process per
  device is modelled.
- What the client's handlers do with an event beyond accepting or refusing it.
- The handshake before its last two steps (`Delivery.WelcomeBack`), device linking and the
  pending-command map.
- The other bodies of the codec: hello, ping and pong, disconnect, commands, link requests.
  They are fixed layouts without the batch's difficulties.
- Font shaping, Unicode segmentation and the bidirectional algorithm, whose results are
  inputs; text caches; the choice of a fallback font.
- The Vulkan and OpenGL back ends, windowing and the database.
