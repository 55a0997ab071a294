/** From the inbox to the client's reader: what a re-send puts on the stream is read
    and decoded as the batches the protocol delivers. */
module Resent {
  import opened Core
  import opened Codec
  import opened Backlog
  import opened Batching
  import opened EventInbox
  import opened Transport
  import opened Framing
  import opened Stream
  import opened Delivery
  import opened Protocol

  // ------------------------------------------------------- what the reader hands on

  /** The event message a frame for `recipient` holds, if it holds one. */
  function MessageIn(recipient: Id, f: Frame): Option<Message> {
    if f.msgType != MSG_ENVELOPE then None
    else
      match DecodeEnvelope(f.payload)
      case Failure(_) => None
      case Success(v) =>
        if v.recipient != recipient then None
        else if v.kind == ENVELOPE_EVENT then Some(EventMessage(v.body))
        else if v.kind == ENVELOPE_EVENT_BATCH then Some(BatchMessage(v.body))
        else None
  }

  function MessagesIn(recipient: Id, fs: seq<Frame>): seq<Message> {
    if fs == [] then []
    else
      var m := MessageIn(recipient, fs[0]);
      (if m.Some? then [m.value] else []) + MessagesIn(recipient, fs[1..])
  }

  lemma MessagesInCons(recipient: Id, f: Frame, fs: seq<Frame>)
    ensures MessagesIn(recipient, [f] + fs) ==
            (if MessageIn(recipient, f).Some? then [MessageIn(recipient, f).value] else []) + MessagesIn(recipient, fs)
  {
    assert ([f] + fs)[1..] == fs;
  }

  lemma {:induction false} MessagesInAppend(recipient: Id, a: seq<Frame>, b: seq<Frame>)
    ensures MessagesIn(recipient, a + b) == MessagesIn(recipient, a) + MessagesIn(recipient, b)
  {
    if a == [] {
      assert a + b == b;
    } else {
      var f, rest := a[0], a[1..];
      MessagesInAppend(recipient, rest, b);
      MessagesInCons(recipient, f, rest + b);
      assert a + b == [f] + (rest + b);
      var m := MessageIn(recipient, f);
      Reassociate(if m.Some? then [m.value] else [], MessagesIn(recipient, rest), MessagesIn(recipient, b));
    }
  }

  // ---------------------------------------------------------------- the frames sent

  function EnvelopeFrame(recipient: Id, kind: uint32, body: Body): Frame {
    Frame(PROTO_VERSION, MSG_ENVELOPE, EnvelopeBytes(Envelope(kind, NOBODY, recipient, body)))
  }

  function BatchFrames(recipient: Id, batches: seq<seq<Event>>): (fs: seq<Frame>)
    requires AllSendable(batches)
    ensures |fs| == |batches|
  {
    if batches == [] then []
    else
      assert Sendable(batches[0]);
      [EnvelopeFrame(recipient, ENVELOPE_EVENT_BATCH, BatchBytes(BatchOf(batches[0])))]
      + BatchFrames(recipient, batches[1..])
  }

  lemma {:induction false} BatchFramesAreValid(recipient: Id, batches: seq<seq<Event>>)
    requires AllSendable(batches)
    ensures forall i :: 0 <= i < |batches| ==> ValidStc(BatchFrames(recipient, batches)[i])
  {
    if batches != [] {
      assert Sendable(batches[0]);
      BatchFramesAreValid(recipient, batches[1..]);
    }
  }

  lemma {:induction false} BatchFramesBytes(recipient: Id, batches: seq<seq<Event>>)
    requires AllSendable(batches)
    ensures FramesBytes(BatchFrames(recipient, batches)) == WireBytes(recipient, batches)
  {
    if batches != [] {
      BatchFramesBytes(recipient, batches[1..]);
      var fs := BatchFrames(recipient, batches);
      assert fs[1..] == BatchFrames(recipient, batches[1..]);
    }
  }

  lemma FrameIsMessage(recipient: Id, batch: seq<Event>)
    requires Sendable(batch)
    ensures MessageIn(recipient, EnvelopeFrame(recipient, ENVELOPE_EVENT_BATCH, BatchBytes(BatchOf(batch)))) ==
            Some(MessageOf(batch))
  {
    DecodeOfEnvelopeBytes(Envelope(ENVELOPE_EVENT_BATCH, NOBODY, recipient, BatchBytes(BatchOf(batch))));
  }

  lemma MessagesOfCons(batch: seq<Event>, batches: seq<seq<Event>>)
    requires Sendable(batch) && AllSendable(batches) && AllSendable([batch] + batches)
    ensures MessagesOf([batch] + batches) == [MessageOf(batch)] + MessagesOf(batches)
  {
  }

  /** Each frame is handed on as the message of its batch. */
  lemma {:induction false} BatchFramesMessages(recipient: Id, batches: seq<seq<Event>>)
    requires AllSendable(batches)
    ensures MessagesIn(recipient, BatchFrames(recipient, batches)) == MessagesOf(batches)
  {
    if batches == [] {
      assert MessagesOf(batches) == [];
    } else {
      var batch, rest := batches[0], batches[1..];
      assert Sendable(batch) && batches == [batch] + rest;
      BatchFramesMessages(recipient, rest);
      FrameIsMessage(recipient, batch);
      var f := EnvelopeFrame(recipient, ENVELOPE_EVENT_BATCH, BatchBytes(BatchOf(batch)));
      MessagesInCons(recipient, f, BatchFrames(recipient, rest));
      MessagesOfCons(batch, rest);
    }
  }

  // ------------------------------------------------------------------- the whole way

  ghost function ResentBatches(inbox: Inbox): (batches: seq<seq<Event>>)
    ensures AllSendable(batches) && batches == SplitPending(inbox.events).batches
  {
    SplitKeepsEvents(inbox.events);
    SplitPending(inbox.events).batches
  }

  /** The frames queued by a re-send behind those of `before`. */
  lemma ResendQueuesFrames(q: Queue, recipient: Id, inbox: Inbox, before: seq<Frame>)
    requires Transport.Valid(q) && Queued(q) == FramesBytes(before)
    requires Resendable(|q.data|, inbox.events)
    ensures var batches := SplitPending(inbox.events).batches;
            && AllSendable(batches)
            && Queued(QueuePending(q, recipient, inbox.events).queue) ==
               FramesBytes(before + BatchFrames(recipient, batches))
  {
    var batches := SplitPending(inbox.events).batches;
    ResendSucceedsIff(q, recipient, inbox.events);
    BatchFramesAreValid(recipient, batches);
    BatchFramesBytes(recipient, batches);
    FramesAppend(before, BatchFrames(recipient, batches));
  }

  lemma AppendedAreValid(a: seq<Frame>, b: seq<Frame>)
    requires forall i :: 0 <= i < |a| ==> ValidStc(a[i])
    requires forall i :: 0 <= i < |b| ==> ValidStc(b[i])
    ensures forall i :: 0 <= i < |a + b| ==> ValidStc((a + b)[i])
  {
  }

  /** After a re-send that succeeds, behind whatever valid frames, and for any partial
      writes: what the client's reader makes of the bytes written are the first of the
      frames queued, and all of them once everything is written. */
  lemma ResentIsRead(q: Queue, recipient: Id, inbox: Inbox, before: seq<Frame>, writes: seq<WriteResult>)
    requires Transport.Valid(q) && Queued(q) == FramesBytes(before)
    requires forall i :: 0 <= i < |before| ==> ValidStc(before[i])
    requires Resendable(|q.data|, inbox.events)
    ensures AllSendable(SplitPending(inbox.events).batches)
    ensures var f := Flush(QueuePending(q, recipient, inbox.events).queue, writes);
            var frames := before + BatchFrames(recipient, SplitPending(inbox.events).batches);
            && Transport.Valid(f.queue)
            && ReadFrames(f.wire) <= frames
            && (Queued(f.queue) == [] ==> ReadFrames(f.wire) == frames)
  {
    var sent := BatchFrames(recipient, ResentBatches(inbox));
    ResendQueuesFrames(q, recipient, inbox, before);
    BatchFramesAreValid(recipient, SplitPending(inbox.events).batches);
    AppendedAreValid(before, sent);
    WrittenFramesAreRead(QueuePending(q, recipient, inbox.events).queue, before + sent, writes);
  }

  /** Once everything is written the reader has handed on what it would have anyway,
      followed by exactly the messages the protocol puts on the wire. */
  lemma ResentIsDelivered(q: Queue, recipient: Id, inbox: Inbox, before: seq<Frame>, writes: seq<WriteResult>)
    requires Transport.Valid(q) && Queued(q) == FramesBytes(before)
    requires forall i :: 0 <= i < |before| ==> ValidStc(before[i])
    requires Resendable(|q.data|, inbox.events)
    ensures var f := Flush(QueuePending(q, recipient, inbox.events).queue, writes);
            && Transport.Valid(f.queue)
            && (Queued(f.queue) == [] ==>
                  MessagesIn(recipient, ReadFrames(f.wire)) ==
                  MessagesIn(recipient, before) + PendingMessages(inbox))
  {
    ResentIsRead(q, recipient, inbox, before, writes);
    MessagesInAppend(recipient, before, BatchFrames(recipient, ResentBatches(inbox)));
    BatchFramesMessages(recipient, ResentBatches(inbox));
  }

  /** These messages decode to batches that together are the inbox, in order. */
  lemma ResentIsInbox(inbox: Inbox)
    requires AllFit(inbox.events)
    ensures |PendingMessages(inbox)| == |SplitPending(inbox.events).batches|
    ensures forall i :: 0 <= i < |PendingMessages(inbox)| ==>
              Carried(PendingMessages(inbox)[i]) == Success(SplitPending(inbox.events).batches[i])
    ensures Flatten(SplitPending(inbox.events).batches) == inbox.events
  {
    SplitKeepsEvents(inbox.events);
    forall i | 0 <= i < |PendingMessages(inbox)|
      ensures Carried(PendingMessages(inbox)[i]) == Success(SplitPending(inbox.events).batches[i])
    {
      PendingCarryInbox(inbox, i);
    }
  }
}
