/** Queueing events and re-sends on a connection of the server. */
module Delivery {
  import opened Core
  import opened Codec
  import opened Encoder
  import opened Decoder
  import opened Backlog
  import opened Batching
  import opened EventInbox
  import opened Transport

  const NOBODY: Id := [0, 0, 0, 0, 0, 0, 0, 0, 0, 0, 0, 0, 0, 0, 0, 0]

  /** The bytes an envelope takes on the wire: a frame around it. */
  function Wire(recipient: Id, kind: uint32, body: Body): (s: Bytes)
    ensures |s| == FRAME_HEADER + ENVELOPE_HEADER + |body|
  {
    FrameBytes(Frame(PROTO_VERSION, MSG_ENVELOPE, EnvelopeBytes(Envelope(kind, NOBODY, recipient, body))))
  }

  /** Encodes the envelope and the frame around it, each into a buffer of its size. */
  method MakeWire(recipient: Id, kind: uint32, body: Body) returns (bytes: Bytes)
    ensures bytes == Wire(recipient, kind, body)
  {
    var envelope := Envelope(kind, NOBODY, recipient, body);
    var payload := new uint8[ENVELOPE_HEADER + |body|];
    PutWhole(payload[..], EnvelopeBytes(envelope));
    var st, payloadSize := EncodeEnvelope(payload, payload.Length, envelope);
    var frame := Frame(PROTO_VERSION, MSG_ENVELOPE, payload[..payloadSize]);
    var wire := new uint8[FRAME_HEADER + payloadSize];
    PutWhole(wire[..], FrameBytes(frame));
    var wireSize;
    st, wireSize := EncodeFrame(wire, wire.Length, frame);
    bytes := wire[..];
  }

  class Connection {
    const out: TransportQueue
    const recipient: Id
    const authorized: bool
    var closing: bool

    constructor (recipient: Id, authorized: bool)
      ensures !closing && this.recipient == recipient && this.authorized == authorized
      ensures fresh(out) && out.Shaped() && out.Contents() == EMPTY
    {
      out := new TransportQueue();
      this.recipient := recipient;
      this.authorized := authorized;
      closing := false;
    }

    ghost predicate Ready()
      reads this, out, out.buf
    {
      out.Shaped() && Transport.Valid(out.Contents())
    }

    function QueueStatus(n: nat): Status
      requires out.size <= MAX_QUEUE
      reads this, out
    {
      if closing then Invalid else if out.size + n > MAX_QUEUE then Overflow else Ok
    }

    /** Encodes the envelope, frames it and puts it in the output queue; on failure the
        connection is marked dead and nothing was queued. */
    method QueueEnvelope(kind: uint32, body: Body) returns (st: Status)
      requires Ready()
      modifies this, out, out.buf
      ensures Ready() && (out.buf == old(out.buf) || fresh(out.buf))
      ensures st == old(QueueStatus(|Wire(recipient, kind, body)|))
      ensures out.Contents() == if st == Ok then Enqueue(old(out.Contents()), Wire(recipient, kind, body))
                                else old(out.Contents())
      ensures closing == (st != Ok)
    {
      if closing {
        return Invalid;
      }
      var wire := MakeWire(recipient, kind, body);
      EnqueueAppends(out.Contents(), wire);
      st := out.EnqueueBytes(wire);
      closing := st != Ok;
    }
  }

  // ------------------------------------------------------------------- new events

  method QueueEventOnline(conn: Connection, inbox: DeviceEventInbox, e: Event) returns (st: Status)
    requires conn.Ready()
    modifies inbox, conn, conn.out, conn.out.buf
    ensures conn.Ready()
    ensures var wire := Wire(conn.recipient, ENVELOPE_EVENT, EventBytes(e));
            var queued := old(conn.QueueStatus(|wire|));
            && conn.out.Contents() ==
               (if queued == Ok then Enqueue(old(conn.out.Contents()), wire) else old(conn.out.Contents()))
            && conn.closing == (queued != Ok)
            && inbox.Contents() == (if queued == Ok then Advance(old(inbox.Contents())) else old(inbox.Contents()))
            && st == (if queued == Ok then AdvanceStatus(old(inbox.Contents())) else queued)
  {
    var cap := EVENT_FIXED + |e.data|;
    var body := new uint8[cap];
    var size;
    st, size := EncodeEventBody(body, 0, cap, e);
    assert body[..size] == EventBytes(e);
    st := conn.QueueEnvelope(ENVELOPE_EVENT, body[..size]);
    if st == Ok {
      st := inbox.AdvanceSeq();
    }
  }

  /** The next event of a device: sent when a connection is there, stored otherwise. */
  method QueueEvent(conn: Connection?, inbox: DeviceEventInbox, kind: uint32, data: EventData) returns (st: Status)
    requires conn != null ==> conn.Ready()
    modifies inbox
    modifies if conn == null then {} else {conn, conn.out, conn.out.buf}
    ensures conn != null ==> conn.Ready()
    ensures var s := old(inbox.Contents());
            var e := Event(s.nextSeq, kind, data);
            if conn == null then st == PushStatus(s, e) && inbox.Contents() == Push(s, e)
            else if !conn.authorized then
              st == Unauthorized && inbox.Contents() == s && conn.out.Contents() == old(conn.out.Contents())
            else
              var wire := Wire(conn.recipient, ENVELOPE_EVENT, EventBytes(e));
              var queued := old(conn.QueueStatus(|wire|));
              && st == (if queued == Ok then AdvanceStatus(s) else queued)
              && inbox.Contents() == (if queued == Ok then Advance(s) else s)
              && conn.out.Contents() ==
                 (if queued == Ok then Enqueue(old(conn.out.Contents()), wire) else old(conn.out.Contents()))
  {
    var e := Event(inbox.nextSeq, kind, data);
    if conn != null {
      if !conn.authorized {
        return Unauthorized;
      }
      st := QueueEventOnline(conn, inbox, e);
    } else {
      st := inbox.PushEvent(e);
    }
  }

  // -------------------------------------------------------------- acknowledgements

  const ENVELOPE_EVENT_ACK: uint32 := 20

  method HandleEventAcked(conn: Connection, inbox: DeviceEventInbox, envelope: Envelope) returns (st: Status)
    modifies inbox
    ensures var n := DecodeAck(envelope.body);
            var s := old(inbox.Contents());
            if envelope.kind != ENVELOPE_EVENT_ACK then st == BadEnvelope && inbox.Contents() == s
            else if !conn.authorized then st == Unauthorized && inbox.Contents() == s
            else if n.Failure? then st == BadFrame && inbox.Contents() == s
            else st == RemoveStatus(s, n.value) && inbox.Contents() == RemoveUntil(s, n.value)
  {
    if envelope.kind != ENVELOPE_EVENT_ACK {
      return BadEnvelope;
    }
    if !conn.authorized {
      return Unauthorized;
    }
    var decoded := DecodeEventAckBody(envelope.body);
    if decoded.Failure? {
      return decoded.error;
    }
    st := inbox.RemoveEventsUntil(decoded.value);
  }

  // ---------------------------------------------------------------------- re-sends

  function BatchWire(recipient: Id, batch: seq<Event>): Bytes
    requires ElemsSize(batch) <= BATCH_DATA_CAP
  {
    Wire(recipient, ENVELOPE_EVENT_BATCH, BatchBytes(BatchOf(batch)))
  }

  /** A queue and the status of the last attempt to add to it. */
  datatype Filled = Filled(status: Status, queue: Queue)

  /** Batch by batch into the queue, up to the first that does not fit. */
  ghost function QueueBatches(q: Queue, recipient: Id, batches: seq<seq<Event>>): (f: Filled)
    requires Transport.Valid(q) && AllSendable(batches)
    ensures Transport.Valid(f.queue)
    decreases |batches|
  {
    if batches == [] then Filled(Ok, q)
    else
      assert Sendable(batches[0]);
      var wire := BatchWire(recipient, batches[0]);
      if EnqueueStatus(q, wire) != Ok then Filled(EnqueueStatus(q, wire), q)
      else
        EnqueueAppends(q, wire);
        QueueBatches(Enqueue(q, wire), recipient, batches[1..])
  }

  /** All pending events: the batches that can be formed, then the split's verdict. */
  ghost function QueuePending(q: Queue, recipient: Id, events: seq<Event>): (f: Filled)
    requires Transport.Valid(q)
    ensures Transport.Valid(f.queue)
  {
    SplitKeepsEvents(events);
    var s := SplitPending(events);
    var f := QueueBatches(q, recipient, s.batches);
    if f.status != Ok then f else Filled(s.status, f.queue)
  }

  method QueueBatch(conn: Connection, batch: seq<Event>) returns (st: Status)
    requires conn.Ready() && Sendable(batch)
    modifies conn, conn.out, conn.out.buf
    ensures conn.Ready() && (conn.out.buf == old(conn.out.buf) || fresh(conn.out.buf))
    ensures st == old(conn.QueueStatus(|BatchWire(conn.recipient, batch)|))
    ensures conn.closing == (st != Ok)
    ensures conn.out.Contents() == if st == Ok then Enqueue(old(conn.out.Contents()), BatchWire(conn.recipient, batch))
                                   else old(conn.out.Contents())
  {
    var envelope := BatchOf(batch);
    var cap := BATCH_FIXED + envelope.dataSize;
    var body := new uint8[cap];
    var size;
    st, size := EncodeEventBatchBody(body, cap, envelope);
    assert body[..size] == BatchBytes(envelope);
    st := conn.QueueEnvelope(ENVELOPE_EVENT_BATCH, body[..size]);
  }

  /** A connection marked dead takes nothing, but sizes are looked at first. */
  ghost function PendingOn(closing: bool, q: Queue, recipient: Id, events: seq<Event>): (f: Filled)
    requires Transport.Valid(q)
  {
    if !closing || events == [] then QueuePending(q, recipient, events)
    else
      match FitFrom(Window(events), 0, BATCH_DATA_CAP)
      case Failure(e) => Filled(e, q)
      case Success(_) => Filled(Invalid, q)
  }

  /** One round: the first batch is queued, and the rest follows if it fits. */
  lemma PendingStep(q: Queue, recipient: Id, events: seq<Event>)
    requires Transport.Valid(q) && events != []
    requires FitFrom(Window(events), 0, BATCH_DATA_CAP).Success?
    ensures var n := FitFrom(Window(events), 0, BATCH_DATA_CAP).value;
            && 0 < n <= |events| && Sendable(events[..n])
            && var wire := BatchWire(recipient, events[..n]);
               && Transport.Valid(Enqueue(q, wire))
               && QueuePending(q, recipient, events) ==
                  if EnqueueStatus(q, wire) != Ok then Filled(EnqueueStatus(q, wire), q)
                  else QueuePending(Enqueue(q, wire), recipient, events[n..])
  {
    FirstBatch(events);
    var n := FitFrom(Window(events), 0, BATCH_DATA_CAP).value;
    SplitKeepsEvents(events);
    SplitKeepsEvents(events[n..]);
    EnqueueAppends(q, BatchWire(recipient, events[..n]));
    var s := SplitPending(events);
    assert s.batches[0] == events[..n] && s.batches[1..] == SplitPending(events[n..]).batches;
  }

  /** The body of the re-send loop, at the events that remain. An event that fits an
      element fits an empty batch, so a fit that succeeds never holds none. */
  method QueueFirstBatch(conn: Connection, events: seq<Event>) returns (st: Status, nFitting: nat)
    requires conn.Ready() && events != []
    modifies conn, conn.out, conn.out.buf
    ensures conn.Ready() && (conn.out.buf == old(conn.out.buf) || fresh(conn.out.buf))
    ensures st == Ok ==>
              && 0 < nFitting <= |events|
              && PendingOn(old(conn.closing), old(conn.out.Contents()), conn.recipient, events) ==
                 PendingOn(conn.closing, conn.out.Contents(), conn.recipient, events[nFitting..])
    ensures st != Ok ==>
              PendingOn(old(conn.closing), old(conn.out.Contents()), conn.recipient, events) ==
              Filled(st, conn.out.Contents())
  {
    var nInBatch := if |events| < BATCH_MAX_EVENTS then |events| else BATCH_MAX_EVENTS;
    FirstBatch(events);
    var dataSize;
    st, dataSize, nFitting := EventBatchDataSizeFit(events[..nInBatch], BATCH_DATA_CAP);
    if st != Ok {
      return;
    }
    PendingStep(conn.out.Contents(), conn.recipient, events);
    st := QueueBatch(conn, events[..nFitting]);
  }

  method QueuePendingEvents(conn: Connection, inbox: DeviceEventInbox) returns (st: Status)
    requires conn.Ready()
    modifies conn, conn.out, conn.out.buf
    ensures conn.Ready()
    ensures Filled(st, conn.out.Contents()) ==
            PendingOn(old(conn.closing), old(conn.out.Contents()), conn.recipient, inbox.events)
  {
    var events := inbox.events;
    var offset, remaining := 0, events;
    ghost var goal := PendingOn(conn.closing, conn.out.Contents(), conn.recipient, events);
    while offset < |events|
      invariant offset <= |events| && remaining == events[offset..]
      invariant conn.Ready() && (conn.out.buf == old(conn.out.buf) || fresh(conn.out.buf))
      invariant goal == PendingOn(conn.closing, conn.out.Contents(), conn.recipient, remaining)
      decreases |events| - offset
    {
      var nFitting;
      st, nFitting := QueueFirstBatch(conn, remaining);
      if st != Ok {
        return;
      }
      offset, remaining := offset + nFitting, remaining[nFitting..];
    }
    assert remaining == [];
    return Ok;
  }

  // ------------------------------------------------- what fits the output queue

  lemma WireSize(recipient: Id, batch: seq<Event>)
    requires Sendable(batch)
    ensures |BatchWire(recipient, batch)| == BATCH_OVERHEAD + ElemsSize(batch)
  {
  }

  /** The bytes of a list of batches, one framed envelope after the other. */
  function WireBytes(recipient: Id, batches: seq<seq<Event>>): Bytes
    requires AllSendable(batches)
  {
    if batches == [] then []
    else
      assert Sendable(batches[0]);
      BatchWire(recipient, batches[0]) + WireBytes(recipient, batches[1..])
  }

  lemma {:induction false} BatchesFit(q: Queue, recipient: Id, batches: seq<seq<Event>>)
    requires Transport.Valid(q) && AllSendable(batches)
    ensures QueueBatches(q, recipient, batches).status ==
            if |q.data| + WireTotal(batches) <= MAX_QUEUE then Ok else Overflow
    decreases |batches|
  {
    if batches != [] {
      assert Sendable(batches[0]);
      var wire := BatchWire(recipient, batches[0]);
      WireSize(recipient, batches[0]);
      EnqueueAppends(q, wire);
      if EnqueueStatus(q, wire) == Ok {
        BatchesFit(Enqueue(q, wire), recipient, batches[1..]);
      }
    }
  }

  lemma {:induction false} BatchesQueued(q: Queue, recipient: Id, batches: seq<seq<Event>>)
    requires Transport.Valid(q) && AllSendable(batches)
    requires QueueBatches(q, recipient, batches).status == Ok
    ensures Queued(QueueBatches(q, recipient, batches).queue) ==
            Queued(q) + WireBytes(recipient, batches)
    decreases |batches|
  {
    if batches == [] {
      assert Queued(q) + [] == Queued(q);
    } else {
      assert Sendable(batches[0]);
      var wire := BatchWire(recipient, batches[0]);
      EnqueueAppends(q, wire);
      BatchesQueued(Enqueue(q, wire), recipient, batches[1..]);
      Reassociate(Queued(q), wire, WireBytes(recipient, batches[1..]));
    }
  }

  /** The batches are cut to the 4 MiB a frame may carry, but the output queue takes no
      more than 1 MiB. So a re-send succeeds if and only if every body fits an element
      and the whole backlog, with 54 bytes for each 256 events, fits behind what is
      queued; then exactly its batches are queued. */
  lemma ResendSucceedsIff(q: Queue, recipient: Id, events: seq<Event>)
    requires Transport.Valid(q)
    ensures var f := QueuePending(q, recipient, events);
            && (f.status == Ok <==> Resendable(|q.data|, events))
            && AllSendable(SplitPending(events).batches)
            && (f.status == Ok ==>
                  Queued(f.queue) == Queued(q) + WireBytes(recipient, SplitPending(events).batches))
  {
    SplitKeepsEvents(events);
    BatchesFit(q, recipient, SplitPending(events).batches);
    ResendableIsSplitFits(|q.data|, events);
    if QueuePending(q, recipient, events).status == Ok {
      BatchesQueued(q, recipient, SplitPending(events).batches);
    }
  }

  lemma WireOfPrefix(recipient: Id, batches: seq<seq<Event>>, k: nat)
    requires AllSendable(batches) && k < |batches|
    ensures Sendable(batches[0]) && AllSendable(batches[..k + 1]) && AllSendable(batches[1..][..k])
    ensures WireBytes(recipient, batches[..k + 1]) ==
            BatchWire(recipient, batches[0]) + WireBytes(recipient, batches[1..][..k])
    ensures WireTotal(batches[..k + 1]) == |BatchWire(recipient, batches[0])| + WireTotal(batches[1..][..k])
  {
    assert Sendable(batches[0]);
    WireSize(recipient, batches[0]);
    assert batches[..k + 1][1..] == batches[1..][..k];
  }

  /** What is queued when a re-send fails as well: the batches up to the first that does
      not fit the queue. The status is that of the split when all of them do. */
  lemma {:induction false} BatchesUpTo(q: Queue, recipient: Id, batches: seq<seq<Event>>) returns (n: nat)
    requires Transport.Valid(q) && AllSendable(batches)
    ensures n <= |batches| && AllSendable(batches[..n])
    ensures |q.data| + WireTotal(batches[..n]) <= MAX_QUEUE
    ensures Queued(QueueBatches(q, recipient, batches).queue) == Queued(q) + WireBytes(recipient, batches[..n])
    ensures n < |batches| ==> |q.data| + WireTotal(batches[..n + 1]) > MAX_QUEUE
    ensures QueueBatches(q, recipient, batches).status == if n < |batches| then Overflow else Ok
    decreases |batches|
  {
    n := 0;
    assert batches[..0] == [] && Queued(q) + [] == Queued(q);
    if batches != [] {
      WireOfPrefix(recipient, batches, 0);
      var wire := BatchWire(recipient, batches[0]);
      EnqueueAppends(q, wire);
      if EnqueueStatus(q, wire) == Ok {
        var k := BatchesUpTo(Enqueue(q, wire), recipient, batches[1..]);
        n := k + 1;
        WireOfPrefix(recipient, batches, k);
        Reassociate(Queued(q), wire, WireBytes(recipient, batches[1..][..k]));
        if n < |batches| { WireOfPrefix(recipient, batches, n); }
      } else {
        assert batches[1..][..0] == [];
      }
    }
  }

  lemma PendingQueuesWhatFits(q: Queue, recipient: Id, events: seq<Event>) returns (n: nat)
    requires Transport.Valid(q)
    ensures var s, f := SplitPending(events), QueuePending(q, recipient, events);
            && n <= |s.batches| && AllSendable(s.batches[..n])
            && Queued(f.queue) == Queued(q) + WireBytes(recipient, s.batches[..n])
            && |q.data| + WireTotal(s.batches[..n]) <= MAX_QUEUE
            && (n < |s.batches| ==> |q.data| + WireTotal(s.batches[..n + 1]) > MAX_QUEUE)
            && f.status == if n < |s.batches| then Overflow else s.status
  {
    SplitKeepsEvents(events);
    n := BatchesUpTo(q, recipient, SplitPending(events).batches);
  }

  /** A connection marked dead takes nothing, and says so unless there is nothing to send
      or the scan for the first batch meets an event that does not fit. */
  lemma DeadTakesNothing(q: Queue, recipient: Id, events: seq<Event>)
    requires Transport.Valid(q)
    ensures PendingOn(true, q, recipient, events).queue == q
    ensures var st := PendingOn(true, q, recipient, events).status;
            && (st == Ok <==> events == [])
            && (st == TooLarge <==> exists k: nat :: k < BATCH_MAX_EVENTS && Meets(events, 0, BATCH_DATA_CAP, k))
            && (st == Ok || st == TooLarge || st == Invalid)
  {
    if events != [] {
      var w := Window(events);
      FirstBatch(events);
      if FitFrom(w, 0, BATCH_DATA_CAP).Failure? {
        var k := FailingMeets(w, 0, BATCH_DATA_CAP);
        assert w[..k] == events[..k];
        assert Meets(events, 0, BATCH_DATA_CAP, k);
      }
      if k: nat :| k < BATCH_MAX_EVENTS && Meets(events, 0, BATCH_DATA_CAP, k) {
        assert w[..k] == events[..k];
        MeetingFails(w, 0, BATCH_DATA_CAP, k);
      }
    }
  }

  lemma PendingOverflows(q: Queue, recipient: Id, events: seq<Event>)
    requires Transport.Valid(q) && AllFit(events) && !Resendable(|q.data|, events)
    ensures QueuePending(q, recipient, events).status == Overflow
  {
    ResendSucceedsIff(q, recipient, events);
    SplitKeepsEvents(events);
    BatchesFit(q, recipient, SplitPending(events).batches);
  }

  /** Seventeen events of 65519 bytes are refused by an empty queue. */
  lemma BacklogIsRefused(recipient: Id, datas: seq<EventData>)
    requires |datas| == 17 && forall i :: 0 <= i < 17 ==> |datas[i]| == U16_MAX - EVENT_FIXED
    ensures QueuePending(EMPTY, recipient, EventsOf(datas)).status == Overflow
  {
    SeventeenAreRefused(datas);
    PendingOverflows(EMPTY, recipient, EventsOf(datas));
  }

  /** Sixteen events that an empty queue takes are refused behind the greeting. */
  lemma BacklogIsRefusedBehindGreeting(q: Queue, recipient: Id, datas: seq<EventData>)
    requires Transport.Valid(q) && |q.data| == GREETING
    requires |datas| == 16 && |datas[15]| == 65449
    requires forall i :: 0 <= i < 15 ==> |datas[i]| == U16_MAX - EVENT_FIXED
    ensures QueuePending(EMPTY, recipient, EventsOf(datas)).status == Ok
    ensures QueuePending(q, recipient, EventsOf(datas)).status == Overflow
  {
    SixteenAreRefused(datas);
    ResendSucceedsIff(EMPTY, recipient, EventsOf(datas));
    PendingOverflows(q, recipient, EventsOf(datas));
  }

  // -------------------------------------------------------------- a client returns

  const ENVELOPE_HELLO_OK: uint32 := 1

  /** The queue once the client is welcomed. */
  function Greeted(q: Queue, recipient: Id): (g: Queue)
    requires Transport.Valid(q)
  {
    Enqueue(q, Wire(recipient, ENVELOPE_HELLO_OK, []))
  }

  lemma GreetingQueued(q: Queue, recipient: Id, events: seq<Event>)
    requires Transport.Valid(q)
    ensures var wire, g := Wire(recipient, ENVELOPE_HELLO_OK, []), Greeted(q, recipient);
            && Transport.Valid(g)
            && (EnqueueStatus(q, wire) == Ok ==> |g.data| == |q.data| + GREETING && Queued(g) == Queued(q) + wire)
            && (EnqueueStatus(q, wire) != Ok ==> !Resendable(|q.data| + GREETING, events))
  {
    EnqueueAppends(q, Wire(recipient, ENVELOPE_HELLO_OK, []));
  }

  /** The end of a successful handshake: the client is welcomed, and behind that its
      pending events are queued. */
  method WelcomeBack(conn: Connection, inbox: DeviceEventInbox) returns (st: Status)
    requires conn.Ready()
    modifies conn, conn.out, conn.out.buf
    ensures conn.Ready()
    ensures st == Ok <==> !old(conn.closing) && Resendable(old(|conn.out.Contents().data|) + GREETING, inbox.events)
    ensures st == Ok ==>
              var batches := SplitPending(inbox.events).batches;
              && AllSendable(batches)
              && Queued(conn.out.Contents()) ==
                 old(Queued(conn.out.Contents()))
                 + Wire(conn.recipient, ENVELOPE_HELLO_OK, [])
                 + WireBytes(conn.recipient, batches)
  {
    GreetingQueued(conn.out.Contents(), conn.recipient, inbox.events);
    SplitKeepsEvents(inbox.events);
    st := conn.QueueEnvelope(ENVELOPE_HELLO_OK, []);
    if st != Ok {
      return;
    }
    ResendSucceedsIff(conn.out.Contents(), conn.recipient, inbox.events);
    st := QueuePendingEvents(conn, inbox);
  }
}
