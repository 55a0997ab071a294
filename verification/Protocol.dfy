/** Event delivery to one device: the server's inbox, the client's reorder window and
    a channel in both directions that loses, duplicates and reorders. The channel
    carries encoded bodies; what is in it may be delivered any number of times. */
module Protocol {
  import opened Core
  import opened Codec
  import opened Backlog
  import opened Batching
  import opened EventInbox
  import opened ReorderWindow

  datatype Message = EventMessage(body: Body) | BatchMessage(body: Body)

  /** `log` is the history of numbered events, `stored` the numbers that were put in
      the inbox, `acksSent` the history of acknowledgements. */
  datatype System = System(
    inbox: Inbox, log: seq<Event>, stored: set<nat>,
    net: set<Message>, acks: set<Body>,
    client: Receiver, acksSent: seq<uint64>)

  datatype Step =
    | QueueOnline(kind: uint32, data: EventData)
    | QueueOffline(kind: uint32, data: EventData)
    | Resend(beyond: nat)
    | DeliverMessage(msg: Message)
    | DeliverAck(ack: Body)
    | LoseMessage(msg: Message)
    | LoseAck(ack: Body)

  const INIT := System(EventInbox.FRESH, [], {}, {}, {}, ReorderWindow.FRESH, [])

  // ----------------------------------------------------------------- transitions

  function NextEvent(s: System, kind: uint32, data: EventData): Event {
    Event(s.inbox.nextSeq, kind, data)
  }

  /** The event is put on the wire before its number is taken: when the numbers have
      run out, it leaves with the sentinel as its number and is never logged. */
  function QueueOnlineStep(s: System, kind: uint32, data: EventData): System {
    var e := NextEvent(s, kind, data);
    var sent := s.(net := s.net + {EventMessage(EventBytes(e))});
    if AdvanceStatus(s.inbox) != Ok then sent
    else sent.(inbox := Advance(s.inbox), log := s.log + [e])
  }

  function QueueOfflineStep(s: System, kind: uint32, data: EventData): System {
    var e := NextEvent(s, kind, data);
    if PushStatus(s.inbox, e) != Ok then s
    else s.(inbox := Push(s.inbox, e), log := s.log + [e], stored := s.stored + {|s.log|})
  }

  ghost function MessageOf(batch: seq<Event>): Message
    requires Sendable(batch)
  {
    BatchMessage(BatchBytes(BatchOf(batch)))
  }

  ghost function MessagesOf(batches: seq<seq<Event>>): (msgs: seq<Message>)
    requires AllSendable(batches)
    ensures |msgs| == |batches|
  {
    seq(|batches|, i requires 0 <= i < |batches| => MessageOf(batches[i]))
  }

  ghost function PendingMessages(inbox: Inbox): seq<Message> {
    SplitKeepsEvents(inbox.events);
    MessagesOf(SplitPending(inbox.events).batches)
  }

  /** Behind the greeting, and what is queued `beyond` it, the output queue takes all
      batches, or the connection is closed before any of them is written. */
  ghost function SentMessages(inbox: Inbox, beyond: nat): seq<Message> {
    if Resendable(GREETING + beyond, inbox.events) then PendingMessages(inbox) else []
  }

  ghost function ResendStep(s: System, beyond: nat): System {
    s.(net := s.net + set m | m in SentMessages(s.inbox, beyond))
  }

  function Handle(r: Receiver, m: Message): Handled {
    match m
    case EventMessage(body) => HandleEventBody(r, body)
    case BatchMessage(body) => HandleBatchBody(r, body)
  }

  function DeliverMessageStep(s: System, m: Message): System {
    var h := Handle(s.client, m);
    match h.ack
    case None => s.(client := h.receiver)
    case Some(a) =>
      s.(client := h.receiver, acks := s.acks + {AckBytes(a)}, acksSent := s.acksSent + [a])
  }

  function DeliverAckStep(s: System, ack: Body): System {
    match DecodeAck(ack)
    case Failure(_) => s
    case Success(n) => s.(inbox := RemoveUntil(s.inbox, n))
  }

  ghost function Next(s: System, step: Step): System {
    match step
    case QueueOnline(kind, data) => QueueOnlineStep(s, kind, data)
    case QueueOffline(kind, data) => QueueOfflineStep(s, kind, data)
    case Resend(beyond) => ResendStep(s, beyond)
    case DeliverMessage(m) => if m in s.net then DeliverMessageStep(s, m) else s
    case DeliverAck(a) => if a in s.acks then DeliverAckStep(s, a) else s
    case LoseMessage(m) => s.(net := s.net - {m})
    case LoseAck(a) => s.(acks := s.acks - {a})
  }

  ghost function Exec(s: System, steps: seq<Step>): System
    decreases |steps|
  {
    if steps == [] then s else Exec(Next(s, steps[0]), steps[1..])
  }

  // ------------------------------------------------------------------- invariant

  predicate Logged(log: seq<Event>, e: Event) {
    e.seqNum < |log| && log[e.seqNum] == e
  }

  /** The events a message decodes to. */
  function Carried(m: Message): Result<seq<Event>> {
    match m
    case EventMessage(body) => (var e :- DecodeEvent(body); Success([e]))
    case BatchMessage(body) => (var b :- DecodeBatch(body); Success(b.events))
  }

  /** Decodable, and every event in it is the logged one of its number, if it has one. */
  ghost predicate GoodMessage(log: seq<Event>, m: Message) {
    && Carried(m).Success?
    && forall e :: e in Carried(m).value ==> e.seqNum == NO_SEQ || Logged(log, e)
  }

  ghost predicate ServerInv(s: System) {
    && EventInbox.Valid(s.inbox)
    && |s.log| == s.inbox.nextSeq
    && (forall i :: 0 <= i < |s.log| ==> s.log[i].seqNum == i)
    && (forall k :: k in s.stored ==> k < |s.log|)
    && (forall e :: e in s.inbox.events ==> Logged(s.log, e) && e.seqNum in s.stored)
    && (forall k :: k in s.stored ==> AtMost(k, s.inbox.lastAcked) || s.log[k] in s.inbox.events)
  }

  /** All the client took in are logged events. */
  ghost predicate Follows(r: Receiver, log: seq<Event>) {
    && ReorderWindow.Valid(r)
    && forall e :: e in Accepted(r) ==> Logged(log, e)
  }

  /** An acknowledgement never runs ahead of what the client dispatched. */
  ghost predicate AckInv(s: System) {
    && (forall a :: a in s.acks ==> DecodeAck(a).Success? && DecodeAck(a).value < |s.client.trace|)
    && (s.inbox.lastAcked != NO_SEQ ==> s.inbox.lastAcked < |s.client.trace|)
    && (forall i :: 0 <= i < |s.acksSent| ==> s.acksSent[i] < |s.client.trace|)
    && (forall i, j :: 0 <= i < j < |s.acksSent| ==> s.acksSent[i] <= s.acksSent[j])
  }

  ghost predicate Inv(s: System) {
    ServerInv(s) && Follows(s.client, s.log) && AckInv(s) && forall m :: m in s.net ==> GoodMessage(s.log, m)
  }

  lemma InitInv()
    ensures Inv(INIT)
  {
    EventInbox.FreshIsValid();
    ReorderWindow.FreshIsValid();
    assert INIT.client == ReorderWindow.FRESH;
  }

  // ------------------------------------------------------------------ server steps

  lemma GoodStaysGood(log: seq<Event>, longer: seq<Event>, m: Message)
    requires GoodMessage(log, m) && log <= longer
    ensures GoodMessage(longer, m)
  {
  }

  lemma EventMessageIsGood(log: seq<Event>, e: Event)
    requires e.seqNum == NO_SEQ || Logged(log, e)
    ensures GoodMessage(log, EventMessage(EventBytes(e)))
  {
    DecodeOfEventBytes(e);
    assert Carried(EventMessage(EventBytes(e))) == Success([e]);
  }

  lemma FollowsLonger(r: Receiver, log: seq<Event>, longer: seq<Event>)
    requires Follows(r, log) && log <= longer
    ensures Follows(r, longer)
  {
  }

  lemma OnlineKeepsServerInv(s: System, kind: uint32, data: EventData)
    requires ServerInv(s)
    ensures ServerInv(QueueOnlineStep(s, kind, data))
  {
    AdvanceKeepsValid(s.inbox);
  }

  lemma QueueOnlineKeepsInv(s: System, kind: uint32, data: EventData)
    requires Inv(s)
    ensures Inv(QueueOnlineStep(s, kind, data))
  {
    var e := NextEvent(s, kind, data);
    var t := QueueOnlineStep(s, kind, data);
    OnlineKeepsServerInv(s, kind, data);
    FollowsLonger(s.client, s.log, t.log);
    EventMessageIsGood(t.log, e);
    forall m | m in s.net ensures GoodMessage(t.log, m) {
      GoodStaysGood(s.log, t.log, m);
    }
  }

  lemma QueueOfflineKeepsInv(s: System, kind: uint32, data: EventData)
    requires Inv(s)
    ensures Inv(QueueOfflineStep(s, kind, data))
  {
    var e := NextEvent(s, kind, data);
    var t := QueueOfflineStep(s, kind, data);
    PushKeepsValid(s.inbox, e);
    if PushStatus(s.inbox, e) == Ok {
      assert t.inbox.events == s.inbox.events + [e];
      assert t.inbox.events[|s.inbox.events|] == e;
      forall m | m in t.net ensures GoodMessage(t.log, m) {
        GoodStaysGood(s.log, t.log, m);
      }
      forall k | k in t.stored ensures AtMost(k, t.inbox.lastAcked) || t.log[k] in t.inbox.events {
        if k in s.stored && !AtMost(k, s.inbox.lastAcked) { assert s.log[k] in s.inbox.events; }
      }
    }
  }

  lemma {:induction false} InFlatten<T>(parts: seq<seq<T>>, i: nat, x: T)
    requires i < |parts| && x in parts[i]
    ensures x in Flatten(parts)
  {
    if i > 0 {
      InFlatten(parts[1..], i - 1, x);
    }
  }

  /** A re-sent batch carries events of the inbox. */
  lemma PendingCarryInbox(inbox: Inbox, i: nat)
    requires i < |PendingMessages(inbox)|
    ensures Carried(PendingMessages(inbox)[i]) == Success(SplitPending(inbox.events).batches[i])
    ensures forall e :: e in SplitPending(inbox.events).batches[i] ==> e in inbox.events
  {
    SplitKeepsEvents(inbox.events);
    var batches := SplitPending(inbox.events).batches;
    assert Sendable(batches[i]);
    BatchOfDecodes(batches[i]);
    forall e | e in batches[i] ensures e in inbox.events {
      InFlatten(batches, i, e);
    }
  }

  lemma ResendKeepsInv(s: System, beyond: nat)
    requires Inv(s)
    ensures Inv(ResendStep(s, beyond))
  {
    var msgs := PendingMessages(s.inbox);
    var t := ResendStep(s, beyond);
    forall m | m in t.net ensures GoodMessage(t.log, m) {
      if m !in s.net {
        var i :| 0 <= i < |msgs| && msgs[i] == m;
        PendingCarryInbox(s.inbox, i);
      }
    }
  }

  lemma DeliverAckKeepsInv(s: System, ack: Body)
    requires Inv(s) && ack in s.acks
    ensures Inv(DeliverAckStep(s, ack))
  {
    var n := DecodeAck(ack).value;
    var t := DeliverAckStep(s, ack);
    RemoveKeepsValid(s.inbox, n);
    if t.inbox != s.inbox {
      forall e ensures e in t.inbox.events <==> e in s.inbox.events && e.seqNum > n {
        DropMembers(s.inbox.events, n, e);
      }
    }
  }

  // ------------------------------------------------------------------ client steps

  lemma AcceptedHasNumber(r: Receiver)
    requires ReorderWindow.Valid(r)
    ensures forall e :: e in Accepted(r) ==> e.seqNum != NO_SEQ
  {
    forall e: Event | Some(e) in r.slots ensures e.seqNum != NO_SEQ {
      var i :| 0 <= i < WINDOW && r.slots[i] == Some(e);
      assert BelongsIn(r, e, i);
    }
  }

  /** What the client holds of a logged number is the logged event. */
  lemma LoggedAgrees(r: Receiver, log: seq<Event>, e: Event)
    requires Follows(r, log)
    requires e.seqNum == NO_SEQ || Logged(log, e)
    ensures Agrees(r, e)
  {
    AcceptedHasNumber(r);
    AcceptedAgree(r, e);
  }

  /** What one arriving event of the log does to the client. */
  lemma ProcessLogged(r: Receiver, log: seq<Event>, e: Event)
    requires Follows(r, log)
    requires e.seqNum == NO_SEQ || Logged(log, e)
    ensures var o := Process(r, e);
            && Follows(o.receiver, log)
            && r.trace <= o.receiver.trace
            && (o.duplicate || o.progress ==> o.receiver.last != NO_SEQ)
  {
    LoggedAgrees(r, log, e);
    ProcessRefinesSet(r, e);
    if e.seqNum != NO_SEQ && e.seqNum == |r.trace| && Dispatchable(e) {
      ProcessInOrder(r, e);
    }
  }

  lemma {:induction false} ProcessAllLogged(r: Receiver, log: seq<Event>, events: seq<Event>)
    requires Follows(r, log)
    requires forall e :: e in events ==> e.seqNum == NO_SEQ || Logged(log, e)
    ensures var o := ProcessAll(r, events);
            && Follows(o.receiver, log)
            && r.trace <= o.receiver.trace
            && (o.duplicate || o.progress ==> o.receiver.last != NO_SEQ)
  {
    if events != [] {
      var init := events[..|events| - 1];
      ProcessAllLogged(r, log, init);
      var o := ProcessAll(r, init);
      if o.status == Ok {
        ProcessLogged(o.receiver, log, events[|events| - 1]);
      }
    }
  }

  /** An acknowledgement names the last event dispatched. */
  lemma HandleLogged(r: Receiver, log: seq<Event>, m: Message)
    requires Follows(r, log)
    requires GoodMessage(log, m)
    ensures var h := Handle(r, m);
            && Follows(h.receiver, log)
            && r.trace <= h.receiver.trace
            && (h.ack.Some? ==> h.ack.value == |h.receiver.trace| - 1)
  {
    match m
    case EventMessage(body) =>
      assert DecodeEvent(body).value in Carried(m).value;
      ProcessLogged(r, log, DecodeEvent(body).value);
    case BatchMessage(body) =>
      ProcessAllLogged(r, log, DecodeBatch(body).value.events);
  }

  lemma DeliverMessageKeepsInv(s: System, m: Message)
    requires Inv(s) && m in s.net
    ensures Inv(DeliverMessageStep(s, m))
    ensures s.client.trace <= DeliverMessageStep(s, m).client.trace
  {
    HandleLogged(s.client, s.log, m);
    var h := Handle(s.client, m);
    if h.ack.Some? {
      DecodeOfAckBytes(h.ack.value);
    }
  }

  // ----------------------------------------------------------------- whole runs

  lemma NextKeepsInv(s: System, step: Step)
    requires Inv(s)
    ensures Inv(Next(s, step))
    ensures s.log <= Next(s, step).log && s.stored <= Next(s, step).stored
    ensures s.client.trace <= Next(s, step).client.trace
    ensures s.acksSent <= Next(s, step).acksSent
  {
    match step
    case QueueOnline(kind, data) => QueueOnlineKeepsInv(s, kind, data);
    case QueueOffline(kind, data) => QueueOfflineKeepsInv(s, kind, data);
    case Resend(beyond) => ResendKeepsInv(s, beyond);
    case DeliverMessage(m) => if m in s.net { DeliverMessageKeepsInv(s, m); }
    case DeliverAck(a) => if a in s.acks { DeliverAckKeepsInv(s, a); }
    case LoseMessage(m) =>
    case LoseAck(a) =>
  }

  lemma {:induction false} ExecKeepsInv(s: System, steps: seq<Step>)
    requires Inv(s)
    ensures Inv(Exec(s, steps))
    ensures s.log <= Exec(s, steps).log && s.stored <= Exec(s, steps).stored
    ensures s.client.trace <= Exec(s, steps).client.trace
    ensures s.acksSent <= Exec(s, steps).acksSent
    decreases |steps|
  {
    if steps != [] {
      NextKeepsInv(s, steps[0]);
      ExecKeepsInv(Next(s, steps[0]), steps[1..]);
    }
  }

  lemma {:induction false} ExecAppend(s: System, a: seq<Step>, b: seq<Step>)
    ensures Exec(s, a + b) == Exec(Exec(s, a), b)
    decreases |a|
  {
    if a == [] {
      assert a + b == b;
    } else {
      assert (a + b)[0] == a[0] && (a + b)[1..] == a[1..] + b;
      ExecAppend(Next(s, a[0]), a[1..], b);
    }
  }

  lemma ExecOne(s: System, step: Step)
    ensures Exec(s, [step]) == Next(s, step)
  {
    assert Exec(s, [step]) == Exec(Next(s, step), [step][1..]);
  }

  lemma InvGivesPrefix(s: System)
    requires Inv(s)
    ensures s.client.trace <= s.log
  {
    var t := s.client.trace;
    forall i | 0 <= i < |t| ensures i < |s.log| && t[i] == s.log[i] {
      assert t[i] in Accepted(s.client);
    }
    if t != [] { assert t[|t| - 1] in Accepted(s.client); }
    assert t == s.log[..|t|];
  }

  lemma TraceWithinLog(s: System)
    requires Follows(s.client, s.log)
    ensures |s.client.trace| <= |s.log|
  {
    var n := |s.client.trace|;
    if n > 0 {
      assert s.client.trace[n - 1] in Accepted(s.client);
    }
  }

  lemma ExecTwo(s: System, first: Step, second: Step)
    ensures Exec(s, [first, second]) == Next(Next(s, first), second)
  {
    assert [first, second] == [first] + [second];
    ExecAppend(s, [first], [second]);
    ExecOne(s, first);
    ExecOne(Next(s, first), second);
  }

  /** In every run the client's dispatched events are a prefix of the server's log,
      each once and in order; later steps only extend it. */
  lemma DispatchedIsPrefixOfLog(steps: seq<Step>, more: seq<Step>)
    ensures var s := Exec(INIT, steps);
            && s.client.trace <= s.log
            && (forall i :: 0 <= i < |s.client.trace| ==> s.client.trace[i].seqNum == i)
            && s.client.trace <= Exec(s, more).client.trace
            && s.log <= Exec(s, more).log
  {
    InitInv();
    ExecKeepsInv(INIT, steps);
    var s := Exec(INIT, steps);
    ExecKeepsInv(s, more);
    InvGivesPrefix(s);
  }

  /** In every run an event that was stored is in the inbox until the client has
      dispatched it; no acknowledgement, in flight or applied, is ahead of the client;
      and acknowledgements are sent in increasing order. */
  lemma StoredUntilDispatched(steps: seq<Step>)
    ensures var s := Exec(INIT, steps);
            && (forall k :: k in s.stored ==>
                  && k < |s.log|
                  && (s.log[k] in s.inbox.events || (k < |s.client.trace| && s.client.trace[k] == s.log[k])))
            && (forall a :: a in s.acks ==> DecodeAck(a).Success? && DecodeAck(a).value < |s.client.trace|)
            && (s.inbox.lastAcked != NO_SEQ ==> s.inbox.lastAcked < |s.client.trace|)
            && (forall i, j :: 0 <= i < j < |s.acksSent| ==> s.acksSent[i] <= s.acksSent[j])
  {
    InitInv();
    ExecKeepsInv(INIT, steps);
    InvGivesPrefix(Exec(INIT, steps));
  }

  /** In every run the sentinel is neither numbered, dispatched nor acknowledged,
      though it can reach the wire: exactly when an event is queued online after the
      numbers ran out. */
  lemma SentinelStaysOut(steps: seq<Step>, kind: uint32, data: EventData)
    ensures var s := Exec(INIT, steps);
            && (forall e :: e in s.log ==> e.seqNum != NO_SEQ)
            && (forall e :: e in Accepted(s.client) ==> e.seqNum != NO_SEQ)
            && (forall i :: 0 <= i < |s.acksSent| ==> s.acksSent[i] != NO_SEQ)
            && (NextEvent(s, kind, data).seqNum == NO_SEQ <==> |s.log| == U64_MAX)
            && (|s.log| == U64_MAX ==>
                  var t := QueueOnlineStep(s, kind, data);
                  t.log == s.log && EventMessage(EventBytes(NextEvent(s, kind, data))) in t.net)
  {
    InitInv();
    ExecKeepsInv(INIT, steps);
    InvGivesPrefix(Exec(INIT, steps));
  }
}
