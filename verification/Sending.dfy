/** From one envelope to the other side's reader: an event for a device that is online,
    the greeting, and the acknowledgement on its way back. */
module Sending {
  import opened Core
  import opened Codec
  import opened Backlog
  import opened EventInbox
  import opened Transport
  import opened Framing
  import opened Stream
  import opened Delivery
  import opened Protocol
  import opened Resent

  /** What the frame around an envelope says: its kind, nobody as the sender, and the
      recipient. */
  predicate Says(f: Frame, kind: uint32, recipient: Id, body: Body) {
    && f.protoVer == PROTO_VERSION && f.msgType == MSG_ENVELOPE
    && DecodeEnvelope(f.payload) == Success(Envelope(kind, NOBODY, recipient, body))
  }

  lemma FrameSays(recipient: Id, kind: uint32, body: Body)
    ensures Says(EnvelopeFrame(recipient, kind, body), kind, recipient, body)
    ensures FrameBytes(EnvelopeFrame(recipient, kind, body)) == Wire(recipient, kind, body)
  {
    DecodeOfEnvelopeBytes(Envelope(kind, NOBODY, recipient, body));
  }

  lemma OneMoreValid(before: seq<Frame>, f: Frame)
    requires forall i :: 0 <= i < |before| ==> ValidStc(before[i])
    requires ValidStc(f)
    ensures forall i :: 0 <= i < |before + [f]| ==> ValidStc((before + [f])[i])
  {
  }

  /** The queue once an envelope was taken holds its frame behind those of `before`. */
  lemma EnvelopeIsQueued(q: Queue, recipient: Id, kind: uint32, body: Body, before: seq<Frame>)
    requires Transport.Valid(q) && Queued(q) == FramesBytes(before)
    requires EnqueueStatus(q, Wire(recipient, kind, body)) == Ok
    ensures var f, e := EnvelopeFrame(recipient, kind, body), Enqueue(q, Wire(recipient, kind, body));
            && ValidStc(f) && Transport.Valid(e)
            && Queued(e) == FramesBytes(before + [f])
  {
    FrameSays(recipient, kind, body);
    EnqueueAppends(q, Wire(recipient, kind, body));
    FramesSnoc(before, EnvelopeFrame(recipient, kind, body));
  }

  /** An envelope of any kind that was taken, behind whatever valid frames and for any
      partial writes: the reader makes of the bytes written the first of the frames
      queued, all of them once everything is written, and the last one says what was
      sent. */
  lemma EnvelopeIsRead(
    q: Queue, recipient: Id, kind: uint32, body: Body, before: seq<Frame>, writes: seq<WriteResult>)
    returns (f: Frame)
    requires Transport.Valid(q) && Queued(q) == FramesBytes(before)
    requires forall i :: 0 <= i < |before| ==> ValidStc(before[i])
    requires EnqueueStatus(q, Wire(recipient, kind, body)) == Ok
    ensures Says(f, kind, recipient, body)
    ensures var sent := Enqueue(q, Wire(recipient, kind, body));
            && Transport.Valid(sent)
            && var flushed := Flush(sent, writes);
               && Transport.Valid(flushed.queue)
               && ReadFrames(flushed.wire) <= before + [f]
               && (Queued(flushed.queue) == [] ==> ReadFrames(flushed.wire) == before + [f])
  {
    f := EnvelopeFrame(recipient, kind, body);
    FrameSays(recipient, kind, body);
    EnvelopeIsQueued(q, recipient, kind, body, before);
    OneMoreValid(before, f);
    WrittenFramesAreRead(Enqueue(q, Wire(recipient, kind, body)), before + [f], writes);
  }

  /** The reader hands on one frame more. */
  lemma MessagesInSnoc(recipient: Id, fs: seq<Frame>, f: Frame)
    ensures MessagesIn(recipient, fs + [f]) ==
            MessagesIn(recipient, fs) + if MessageIn(recipient, f).Some? then [MessageIn(recipient, f).value] else []
  {
    MessagesInAppend(recipient, fs, [f]);
    MessagesInCons(recipient, f, []);
    assert [f] + [] == [f];
    assert MessagesIn(recipient, []) == [];
  }

  /** The frame is one around this envelope. */
  predicate Wraps(f: Frame, v: Envelope) {
    f.msgType == MSG_ENVELOPE && f.payload == EnvelopeBytes(v)
  }

  /** The envelope is addressed to the recipient and holds this message. */
  predicate Addresses(v: Envelope, recipient: Id, m: Message) {
    && v.recipient == recipient && m.body == v.body
    && v.kind == if m.EventMessage? then ENVELOPE_EVENT else ENVELOPE_EVENT_BATCH
  }

  lemma MessageOfWrapped(recipient: Id, f: Frame, v: Envelope, m: Message)
    requires Wraps(f, v)
    ensures MessageIn(recipient, f) == Some(m) <==> Addresses(v, recipient, m)
  {
    DecodeOfEnvelopeBytes(v);
  }

  /** The reader hands on exactly the events and batches addressed to this recipient. */
  lemma MessageIffAddressed(recipient: Id, f: Frame, m: Message)
    ensures MessageIn(recipient, f) == Some(m) <==> exists v :: Wraps(f, v) && Addresses(v, recipient, m)
  {
    if MessageIn(recipient, f) == Some(m) {
      var v := DecodeEnvelope(f.payload).value;
      EnvelopeBytesOfDecode(f.payload);
      assert Wraps(f, v);
      MessageOfWrapped(recipient, f, v, m);
    }
    if v :| Wraps(f, v) && Addresses(v, recipient, m) {
      MessageOfWrapped(recipient, f, v, m);
    }
  }

  lemma EventFrameIsMessage(recipient: Id, f: Frame, body: Body)
    requires Says(f, ENVELOPE_EVENT, recipient, body)
    ensures MessageIn(recipient, f) == Some(EventMessage(body))
  {
  }

  /** An event queued for a device that is online: once everything is written the reader
      has handed on what it would have anyway, followed by exactly the message that the
      protocol puts on the wire. */
  lemma OnlineIsDelivered(
    s: System, kind: uint32, data: EventData, q: Queue, recipient: Id, before: seq<Frame>, writes: seq<WriteResult>)
    requires Transport.Valid(q) && Queued(q) == FramesBytes(before)
    requires forall i :: 0 <= i < |before| ==> ValidStc(before[i])
    requires EnqueueStatus(q, Wire(recipient, ENVELOPE_EVENT, EventBytes(NextEvent(s, kind, data)))) == Ok
    ensures var e := Event(s.inbox.nextSeq, kind, data);
            var m := EventMessage(EventBytes(e));
            var sent := Enqueue(q, Wire(recipient, ENVELOPE_EVENT, EventBytes(e)));
            && QueueOnlineStep(s, kind, data).net == s.net + {m}
            && Transport.Valid(sent)
            && var flushed := Flush(sent, writes);
               && Transport.Valid(flushed.queue)
               && (Queued(flushed.queue) == [] ==>
                     MessagesIn(recipient, ReadFrames(flushed.wire)) == MessagesIn(recipient, before) + [m])
  {
    var body := EventBytes(NextEvent(s, kind, data));
    var f := EnvelopeIsRead(q, recipient, ENVELOPE_EVENT, body, before, writes);
    EventFrameIsMessage(recipient, f, body);
    MessagesInSnoc(recipient, before, f);
  }

  lemma GreetedQueue(q: Queue, recipient: Id, events: seq<Event>, before: seq<Frame>)
    requires Transport.Valid(q) && Queued(q) == FramesBytes(before)
    requires Resendable(|q.data| + GREETING, events)
    ensures var f, g := EnvelopeFrame(recipient, ENVELOPE_HELLO_OK, []), Greeted(q, recipient);
            && ValidStc(f) && Transport.Valid(g) && Resendable(|g.data|, events)
            && Queued(g) == FramesBytes(before + [f])
  {
    GreetingQueued(q, recipient, events);
    EnvelopeIsQueued(q, recipient, ENVELOPE_HELLO_OK, [], before);
  }

  lemma GreetingIsNoMessage(recipient: Id, fs: seq<Frame>, f: Frame)
    requires Says(f, ENVELOPE_HELLO_OK, recipient, [])
    ensures MessagesIn(recipient, fs + [f]) == MessagesIn(recipient, fs)
  {
    MessagesInSnoc(recipient, fs, f);
  }

  /** A client that comes back: once everything is written its reader has handed on what
      it would have anyway, the greeting, which is no event message, and the backlog. */
  lemma WelcomeIsDelivered(q: Queue, recipient: Id, inbox: Inbox, before: seq<Frame>, writes: seq<WriteResult>)
    returns (f: Frame)
    requires Transport.Valid(q) && Queued(q) == FramesBytes(before)
    requires forall i :: 0 <= i < |before| ==> ValidStc(before[i])
    requires Resendable(|q.data| + GREETING, inbox.events)
    ensures Says(f, ENVELOPE_HELLO_OK, recipient, [])
    ensures Transport.Valid(Greeted(q, recipient))
    ensures var flushed := Flush(QueuePending(Greeted(q, recipient), recipient, inbox.events).queue, writes);
            && Transport.Valid(flushed.queue)
            && (Queued(flushed.queue) == [] ==>
                  && before + [f] <= ReadFrames(flushed.wire)
                  && MessagesIn(recipient, ReadFrames(flushed.wire)) ==
                     MessagesIn(recipient, before) + PendingMessages(inbox))
  {
    f := EnvelopeFrame(recipient, ENVELOPE_HELLO_OK, []);
    FrameSays(recipient, ENVELOPE_HELLO_OK, []);
    GreetedQueue(q, recipient, inbox.events, before);
    OneMoreValid(before, f);
    ResentIsRead(Greeted(q, recipient), recipient, inbox, before + [f], writes);
    ResentIsDelivered(Greeted(q, recipient), recipient, inbox, before + [f], writes);
    GreetingIsNoMessage(recipient, before, f);
  }

  // ------------------------------------------------------------------- the way back

  /** The frame in which a client acknowledges event `n`. */
  function AckFrame(n: uint64): Frame {
    Frame(PROTO_VERSION, MSG_ENVELOPE, EnvelopeBytes(Envelope(ENVELOPE_EVENT_ACK, NOBODY, NOBODY, AckBytes(n))))
  }

  /** An acknowledgement sent on its own, in whatever pieces it arrives, is read as one
      envelope whose body names that event. */
  lemma AckIsDelivered(n: uint64, arrivals: seq<Arrival>)
    requires JustData(arrivals) && Arrived(arrivals) == FrameBytes(AckFrame(n))
    ensures var d := ReadAll([], arrivals);
            && !d.failed && d.data == [] && |d.frames| == 1
            && d.frames[0].msgType == MSG_ENVELOPE
            && var v := DecodeEnvelope(d.frames[0].payload);
               v.Success? && v.value.kind == ENVELOPE_EVENT_ACK && DecodeAck(v.value.body) == Success(n)
  {
    OneFrameInAnyPieces(AckFrame(n), arrivals);
    DecodeOfEnvelopeBytes(Envelope(ENVELOPE_EVENT_ACK, NOBODY, NOBODY, AckBytes(n)));
    DecodeOfAckBytes(n);
  }
}
