/** Events that no continuation of a run can bring to the client. */
module Stalls {
  import opened Core
  import opened Codec
  import opened Backlog
  import opened EventInbox
  import opened ReorderWindow
  import opened Protocol

  ghost function CarriedBy(m: Message): iset<Event> {
    iset e: Event | Carried(m).Success? && e in Carried(m).value
  }

  // ------------------------------------------------------- what the client takes in

  lemma ProcessTakes(r: Receiver, log: seq<Event>, e: Event)
    requires Follows(r, log)
    requires e.seqNum == NO_SEQ || Logged(log, e)
    ensures Accepted(r) <= Accepted(Process(r, e).receiver) <= Accepted(r) + iset{e}
  {
    LoggedAgrees(r, log, e);
    ProcessRefinesSet(r, e);
  }

  /** What the client accepts it had accepted before or was just sent. */
  lemma {:induction false} ProcessAllTakes(r: Receiver, log: seq<Event>, events: seq<Event>)
    requires Follows(r, log)
    requires forall e :: e in events ==> e.seqNum == NO_SEQ || Logged(log, e)
    ensures Accepted(r) <= Accepted(ProcessAll(r, events).receiver)
    ensures forall e :: e in Accepted(ProcessAll(r, events).receiver) ==> e in Accepted(r) || e in events
  {
    if events != [] {
      var init, last := events[..|events| - 1], events[|events| - 1];
      ProcessAllTakes(r, log, init);
      ProcessAllLogged(r, log, init);
      var o := ProcessAll(r, init);
      if o.status == Ok {
        ProcessTakes(o.receiver, log, last);
      }
    }
  }

  lemma HandleTakes(r: Receiver, log: seq<Event>, m: Message)
    requires Follows(r, log) && GoodMessage(log, m)
    ensures Accepted(r) <= Accepted(Handle(r, m).receiver) <= Accepted(r) + CarriedBy(m)
  {
    match m
    case EventMessage(body) =>
      var e := DecodeEvent(body).value;
      assert Carried(m).value == [e] && e in Carried(m).value;
      ProcessTakes(r, log, e);
    case BatchMessage(body) =>
      ProcessAllTakes(r, log, DecodeBatch(body).value.events);
  }

  // ------------------------------------------------------ the end of a stored backlog

  /** The events numbered `n` and above. */
  function From(events: seq<Event>, n: nat): seq<Event> {
    if events == [] then []
    else (if events[0].seqNum >= n then [events[0]] else []) + From(events[1..], n)
  }

  lemma FromCons(e: Event, events: seq<Event>, n: nat)
    ensures From([e] + events, n) == (if e.seqNum >= n then [e] else []) + From(events, n)
  {
    assert ([e] + events)[1..] == events;
  }

  lemma {:induction false} FromAppend(events: seq<Event>, e: Event, n: nat)
    ensures From(events + [e], n) == From(events, n) + (if e.seqNum >= n then [e] else [])
  {
    if events == [] {
      FromCons(e, [], n);
      assert events + [e] == [e] + [];
    } else {
      assert events + [e] == [events[0]] + (events[1..] + [e]);
      FromCons(events[0], events[1..] + [e], n);
      FromAppend(events[1..], e, n);
    }
  }

  /** Acknowledgements below `n` leave them alone. */
  lemma {:induction false} FromAcked(events: seq<Event>, until: uint64, n: nat)
    requires until < n
    ensures From(DropAcked(events, until), n) == From(events, n)
  {
    if events != [] && events[0].seqNum <= until {
      FromAcked(events[1..], until, n);
    }
  }

  lemma {:induction false} FromAll(events: seq<Event>, n: nat)
    requires forall i :: 0 <= i < |events| ==> events[i].seqNum >= n
    ensures From(events, n) == events
  {
    if events != [] {
      FromAll(events[1..], n);
    }
  }

  /** In an increasing backlog they are its end, so they are taken if all of it is. */
  lemma {:induction false} FromIsEnd(events: seq<Event>, n: nat) returns (pre: seq<Event>)
    requires Increasing(events)
    ensures events == pre + From(events, n)
  {
    if events == [] || events[0].seqNum >= n {
      FromAll(events, n);
      pre := [];
    } else {
      pre := FromIsEnd(events[1..], n);
      pre := [events[0]] + pre;
    }
  }

  lemma EndIsResendable(beyond: nat, events: seq<Event>, n: nat)
    requires Increasing(events) && Resendable(GREETING + beyond, events)
    ensures Resendable(GREETING, From(events, n))
  {
    var pre := FromIsEnd(events, n);
    ResendableParts(GREETING + beyond, pre, From(events, n));
  }

  lemma {:induction false} InFrom(events: seq<Event>, n: nat, e: Event)
    requires e in events && e.seqNum >= n
    ensures e in From(events, n)
  {
    if e != events[0] {
      InFrom(events[1..], n, e);
    }
  }

  // -------------------------------------------------------------------- lost events

  ghost predicate OnWire(s: System, n: nat) {
    exists m, e :: m in s.net && e in CarriedBy(m) && e.seqNum == n
  }

  ghost predicate Buffered(s: System, n: nat) {
    exists e :: e in Accepted(s.client) && e.seqNum == n
  }

  /** Event `n`, which the client lacks, is neither on the wire nor buffered, and it was
      never stored, or what is stored from it on is more than a re-send can carry. */
  ghost predicate Lost(s: System, n: nat) {
    && |s.client.trace| <= n < |s.log|
    && !OnWire(s, n) && !Buffered(s, n)
    && (n in s.stored ==> !Resendable(GREETING, From(s.inbox.events, n)))
  }

  lemma OnlineKeepsLost(s: System, kind: uint32, data: EventData, n: nat)
    requires Inv(s) && Lost(s, n)
    ensures Lost(QueueOnlineStep(s, kind, data), n)
  {
    var e := NextEvent(s, kind, data);
    DecodeOfEventBytes(e);
    assert Carried(EventMessage(EventBytes(e))) == Success([e]);
    assert forall m :: m in QueueOnlineStep(s, kind, data).net ==> m in s.net || m == EventMessage(EventBytes(e));
  }

  lemma OfflineKeepsLost(s: System, kind: uint32, data: EventData, n: nat)
    requires Inv(s) && Lost(s, n)
    ensures Lost(QueueOfflineStep(s, kind, data), n)
  {
    var e := NextEvent(s, kind, data);
    FromAppend(s.inbox.events, e, n);
    if n in s.stored && Resendable(GREETING, From(s.inbox.events + [e], n)) {
      ResendableParts(GREETING, From(s.inbox.events, n), if e.seqNum >= n then [e] else []);
    }
  }

  lemma ResendKeepsLost(s: System, beyond: nat, n: nat)
    requires Inv(s) && Lost(s, n)
    ensures Lost(ResendStep(s, beyond), n)
  {
    var msgs := SentMessages(s.inbox, beyond);
    var t := ResendStep(s, beyond);
    forall m, e | m in t.net && e in CarriedBy(m) ensures e.seqNum != n {
      if m !in s.net {
        var i :| 0 <= i < |msgs| && msgs[i] == m;
        EndIsResendable(beyond, s.inbox.events, n);
        PendingCarryInbox(s.inbox, i);
      }
    }
  }

  lemma DispatchedIsBuffered(s: System, n: nat)
    requires Inv(s) && n < |s.client.trace|
    ensures Buffered(s, n)
  {
    assert s.client.trace[n] in Accepted(s.client);
  }

  lemma StopsAtMissing(s: System, n: nat)
    requires Inv(s) && !Buffered(s, n)
    ensures |s.client.trace| <= n
  {
    if n < |s.client.trace| {
      DispatchedIsBuffered(s, n);
    }
  }

  lemma DeliveryBringsNone(s: System, m: Message, n: nat)
    requires Inv(s) && m in s.net && !OnWire(s, n) && !Buffered(s, n)
    ensures !Buffered(DeliverMessageStep(s, m), n)
  {
    HandleTakes(s.client, s.log, m);
    forall e | e in Accepted(DeliverMessageStep(s, m).client) ensures e.seqNum != n {
      assert e in Accepted(s.client) || e in CarriedBy(m);
    }
  }

  lemma DeliveryKeepsLost(s: System, m: Message, n: nat)
    requires Inv(s) && Lost(s, n) && m in s.net
    ensures Lost(DeliverMessageStep(s, m), n)
  {
    DeliverMessageKeepsInv(s, m);
    DeliveryBringsNone(s, m, n);
    StopsAtMissing(DeliverMessageStep(s, m), n);
  }

  lemma AckKeepsLost(s: System, ack: Body, n: nat)
    requires Inv(s) && Lost(s, n) && ack in s.acks
    ensures Lost(DeliverAckStep(s, ack), n)
  {
    FromAcked(s.inbox.events, DecodeAck(ack).value, n);
  }

  lemma NextKeepsLost(s: System, step: Step, n: nat)
    requires Inv(s) && Lost(s, n)
    ensures Lost(Next(s, step), n)
  {
    match step
    case QueueOnline(kind, data) => OnlineKeepsLost(s, kind, data, n);
    case QueueOffline(kind, data) => OfflineKeepsLost(s, kind, data, n);
    case Resend(beyond) => ResendKeepsLost(s, beyond, n);
    case DeliverMessage(m) => if m in s.net { DeliveryKeepsLost(s, m, n); }
    case DeliverAck(a) => if a in s.acks { AckKeepsLost(s, a, n); }
    case LoseMessage(m) =>
    case LoseAck(a) =>
  }

  /** Delivery never gets past a lost event, whatever is beyond, re-sent or delivered
      afterwards. */
  lemma {:induction false} LostStallsForever(s: System, steps: seq<Step>, n: nat)
    requires Inv(s) && Lost(s, n)
    ensures Lost(Exec(s, steps), n) && |Exec(s, steps).client.trace| <= n
    decreases |steps|
  {
    if steps != [] {
      NextKeepsInv(s, steps[0]);
      NextKeepsLost(s, steps[0], n);
      LostStallsForever(Next(s, steps[0]), steps[1..], n);
    }
  }

  /** Losing the message of the very first event sent online is enough. */
  lemma OnlineEventCanBeLost(kind: uint32, data: EventData)
    ensures var e := NextEvent(INIT, kind, data);
            Lost(Exec(INIT, [QueueOnline(kind, data), LoseMessage(EventMessage(EventBytes(e)))]), 0)
  {
    var e := NextEvent(INIT, kind, data);
    var a, b := QueueOnline(kind, data), LoseMessage(EventMessage(EventBytes(e)));
    ExecTwo(INIT, a, b);
    assert Next(Next(INIT, a), b).net == {};
    assert Next(Next(INIT, a), b).client == ReorderWindow.FRESH;
  }

  function Offline(datas: seq<EventData>): (steps: seq<Step>)
    ensures |steps| == |datas|
  {
    seq(|datas|, i requires 0 <= i < |datas| => QueueOffline(1, datas[i]))
  }

  lemma {:induction false} StoreAll(datas: seq<EventData>)
    requires |datas| <= U64_MAX
    ensures var s := Exec(INIT, Offline(datas));
            && s.inbox.events == EventsOf(datas) && s.inbox.nextSeq == |datas| && |s.log| == |datas|
            && s.net == {} && s.client == ReorderWindow.FRESH && (datas != [] ==> 0 in s.stored)
  {
    if datas != [] {
      var n := |datas| - 1;
      var init, last := datas[..n], QueueOffline(1, datas[n]);
      StoreAll(init);
      assert Offline(datas) == Offline(init) + [last];
      ExecAppend(INIT, Offline(init), [last]);
      ExecOne(Exec(INIT, Offline(init)), last);
      InitInv();
      ExecKeepsInv(INIT, Offline(init));
      assert EventsOf(datas) == EventsOf(init) + [Event(n, 1, datas[n])];
    }
  }

  /** Storing a backlog that is not taken loses all of it. */
  lemma StoredBacklogIsLost(datas: seq<EventData>)
    requires 0 < |datas| <= U64_MAX && !Resendable(GREETING, EventsOf(datas))
    ensures Lost(Exec(INIT, Offline(datas)), 0)
  {
    StoreAll(datas);
    FromAll(EventsOf(datas), 0);
  }

  /** Seventeen events of the greatest size that fits a batch are one ... */
  lemma BacklogCanBeLost(datas: seq<EventData>)
    requires |datas| == 17 && forall i :: 0 <= i < 17 ==> |datas[i]| == U16_MAX - EVENT_FIXED
    ensures Lost(Exec(INIT, Offline(datas)), 0)
  {
    SeventeenAreRefused(datas);
    StoredBacklogIsLost(datas);
  }

  /** ... and so are sixteen that would fill the queue exactly were it empty. */
  lemma GreetingMakesTheDifference(datas: seq<EventData>)
    requires |datas| == 16 && |datas[15]| == 65449
    requires forall i :: 0 <= i < 15 ==> |datas[i]| == U16_MAX - EVENT_FIXED
    ensures Resendable(0, EventsOf(datas))
    ensures Lost(Exec(INIT, Offline(datas)), 0)
  {
    SixteenAreRefused(datas);
    StoredBacklogIsLost(datas);
  }
}
