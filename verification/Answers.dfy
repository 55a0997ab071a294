/** What each side answers in a run: which events the server takes in, and which
    messages the client acknowledges. */
module Answers {
  import opened Core
  import opened Codec
  import opened EventInbox
  import opened ReorderWindow
  import opened Protocol

  // ------------------------------------------------------------------- the server

  lemma NumbersAreLogged(steps: seq<Step>)
    ensures var s := Exec(INIT, steps);
            && Inv(s) && |s.log| == s.inbox.nextSeq
            && (s.log == [] <==> s.inbox.lastSent == NO_SEQ)
  {
    InitInv();
    ExecKeepsInv(INIT, steps);
  }

  /** In every run, whatever was stored, sent, acknowledged or lost in it: an event for a
      device that is offline gets the next number and is stored behind the others, until
      the numbers run out and nothing happens any more. */
  lemma OfflineIsStored(steps: seq<Step>, kind: uint32, data: EventData)
    ensures var s, n := Exec(INIT, steps), |Exec(INIT, steps).log|;
            var t := Next(s, QueueOffline(kind, data));
            && n <= U64_MAX
            && (n == U64_MAX ==> t == s && PushStatus(s.inbox, NextEvent(s, kind, data)) == Overflow)
            && (n < U64_MAX ==>
                  var e := Event(n, kind, data);
                  && PushStatus(s.inbox, e) == Ok
                  && t == s.(inbox := Inbox(s.inbox.events + [e], s.inbox.lastAcked, n, n + 1),
                             log := s.log + [e], stored := s.stored + {n}))
  {
    NumbersAreLogged(steps);
    var s := Exec(INIT, steps);
    PushStores(s.inbox, NextEvent(s, kind, data));
  }

  /** An event for a device that is online gets the next number and goes on the wire as
      its own message; after the last number the sentinel does. */
  lemma OnlineIsSent(steps: seq<Step>, kind: uint32, data: EventData)
    ensures var s, n := Exec(INIT, steps), |Exec(INIT, steps).log|;
            var t := Next(s, QueueOnline(kind, data));
            && n <= U64_MAX
            && var e := Event(n, kind, data);
               && (n == U64_MAX <==> e.seqNum == NO_SEQ)
               && t == s.(net := s.net + {EventMessage(EventBytes(e))},
                          inbox := if n == U64_MAX then s.inbox else Inbox(s.inbox.events, s.inbox.lastAcked, n, n + 1),
                          log := if n == U64_MAX then s.log else s.log + [e])
  {
    NumbersAreLogged(steps);
    AdvanceTakes(Exec(INIT, steps).inbox);
  }

  /** An acknowledgement that arrives takes exactly the events up to its number away. */
  lemma AckIsApplied(steps: seq<Step>, ack: Body)
    ensures var s := Exec(INIT, steps);
            var t := Next(s, DeliverAck(ack));
            ack in s.acks ==>
              && DecodeAck(ack).Success?
              && var n := DecodeAck(ack).value;
                 && RemoveStatus(s.inbox, n) == Ok
                 && t == s.(inbox := t.inbox)
                 && t.inbox.events == Above(s.inbox.events, n)
                 && t.inbox.lastAcked == (if s.inbox.lastAcked == NO_SEQ then n else Max(s.inbox.lastAcked, n))
                 && t.inbox.lastSent == s.inbox.lastSent && t.inbox.nextSeq == s.inbox.nextSeq
  {
    NumbersAreLogged(steps);
    var s := Exec(INIT, steps);
    TraceWithinLog(s);
    if ack in s.acks {
      RemoveLeavesAbove(s.inbox, DecodeAck(ack).value);
    }
  }

  // ------------------------------------------------------------------- the client

  /** The client after all these events, failures or not. */
  function Reached(r: Receiver, events: seq<Event>): Receiver {
    if events == [] then r
    else Process(Reached(r, events[..|events| - 1]), events[|events| - 1]).receiver
  }

  predicate Fails(r: Receiver, events: seq<Event>, i: nat)
    requires i < |events|
  {
    Process(Reached(r, events[..i]), events[i]).status != Ok
  }

  ghost predicate NoneFails(r: Receiver, events: seq<Event>) {
    forall i :: 0 <= i < |events| ==> !Fails(r, events, i)
  }

  ghost predicate FailsFirst(r: Receiver, events: seq<Event>, k: nat)
    requires k < |events|
  {
    Fails(r, events, k) && forall i :: 0 <= i < k ==> !Fails(r, events, i)
  }

  lemma FailsBefore(r: Receiver, events: seq<Event>, k: nat)
    requires k < |events| - 1
    ensures Fails(r, events, k) <==> Fails(r, events[..|events| - 1], k)
  {
    assert events[..|events| - 1][..k] == events[..k];
  }

  lemma NoneFailsSnoc(r: Receiver, events: seq<Event>)
    requires events != []
    ensures var n := |events| - 1;
            NoneFails(r, events) <==> NoneFails(r, events[..n]) && !Fails(r, events, n)
  {
    var n := |events| - 1;
    if NoneFails(r, events[..n]) {
      forall i | 0 <= i < n ensures !Fails(r, events, i) { FailsBefore(r, events, i); }
    }
    if NoneFails(r, events) {
      forall i | 0 <= i < n ensures !Fails(r, events[..n], i) { FailsBefore(r, events, i); }
    }
  }

  lemma FailsFirstBefore(r: Receiver, events: seq<Event>, k: nat)
    requires k < |events| - 1
    ensures FailsFirst(r, events, k) <==> FailsFirst(r, events[..|events| - 1], k)
  {
    var init := events[..|events| - 1];
    FailsBefore(r, events, k);
    if FailsFirst(r, init, k) {
      forall i | 0 <= i < k ensures !Fails(r, events, i) { FailsBefore(r, events, i); }
    }
    if FailsFirst(r, events, k) {
      forall i | 0 <= i < k ensures !Fails(r, init, i) { FailsBefore(r, events, i); }
    }
  }

  /** Event `k` failed with this status and left this behind. */
  predicate LeftBy(r: Receiver, events: seq<Event>, k: nat, st: Status, after: Receiver)
    requires k < |events|
  {
    st == Process(Reached(r, events[..k]), events[k]).status && after == Reached(r, events[..k + 1])
  }

  /** These events were processed up to the first that fails, which takes its effect along. */
  ghost predicate StopsRight(r: Receiver, events: seq<Event>, st: Status, after: Receiver) {
    && (st == Ok <==> NoneFails(r, events))
    && (st == Ok ==> after == Reached(r, events))
    && forall k :: 0 <= k < |events| && FailsFirst(r, events, k) ==> LeftBy(r, events, k, st, after)
  }

  lemma LeftByBefore(r: Receiver, events: seq<Event>, k: nat, st: Status, after: Receiver)
    requires k < |events| - 1 && LeftBy(r, events[..|events| - 1], k, st, after)
    ensures LeftBy(r, events, k, st, after)
  {
    var init := events[..|events| - 1];
    assert init[..k] == events[..k] && init[..k + 1] == events[..k + 1];
  }

  lemma StoppedBefore(r: Receiver, events: seq<Event>, st: Status, after: Receiver)
    requires events != [] && st != Ok && StopsRight(r, events[..|events| - 1], st, after)
    ensures StopsRight(r, events, st, after)
  {
    var n := |events| - 1;
    NoneFailsSnoc(r, events);
    var i :| 0 <= i < n && Fails(r, events[..n], i);
    FailsBefore(r, events, i);
    forall k | 0 <= k < |events| && FailsFirst(r, events, k) ensures LeftBy(r, events, k, st, after) {
      FailsFirstBefore(r, events, k);
      LeftByBefore(r, events, k, st, after);
    }
  }

  lemma WentOn(r: Receiver, events: seq<Event>)
    requires events != [] && NoneFails(r, events[..|events| - 1])
    ensures var n := |events| - 1;
            var o := Process(Reached(r, events[..n]), events[n]);
            StopsRight(r, events, o.status, o.receiver)
  {
    var n := |events| - 1;
    NoneFailsSnoc(r, events);
    assert events[..n + 1] == events;
    forall k | 0 <= k < n ensures !FailsFirst(r, events, k) {
      FailsBefore(r, events, k);
    }
  }

  lemma {:induction false} BatchStopsAt(r: Receiver, events: seq<Event>)
    ensures var o := ProcessAll(r, events); StopsRight(r, events, o.status, o.receiver)
  {
    if events != [] {
      var init := events[..|events| - 1];
      BatchStopsAt(r, init);
      var o := ProcessAll(r, init);
      if o.status != Ok {
        StoppedBefore(r, events, o.status, o.receiver);
      } else {
        WentOn(r, events);
      }
    }
  }

  /** Event `i` has a number no greater than the one awaited when its turn comes. */
  predicate HeardAt(r: Receiver, events: seq<Event>, i: nat)
    requires i < |events|
  {
    events[i].seqNum <= |Reached(r, events[..i]).trace|
  }

  /** Some event of the message has. */
  ghost predicate Heard(r: Receiver, events: seq<Event>) {
    exists i :: 0 <= i < |events| && HeardAt(r, events, i)
  }

  lemma HeardBefore(r: Receiver, events: seq<Event>, k: nat)
    requires k < |events| - 1
    ensures HeardAt(r, events, k) <==> HeardAt(r, events[..|events| - 1], k)
  {
    assert events[..|events| - 1][..k] == events[..k];
  }

  lemma HeardSnoc(r: Receiver, events: seq<Event>)
    requires events != []
    ensures var n := |events| - 1;
            Heard(r, events) <==> Heard(r, events[..n]) || events[n].seqNum <= |Reached(r, events[..n]).trace|
  {
    var n := |events| - 1;
    if i :| 0 <= i < n && HeardAt(r, events, i) {
      HeardBefore(r, events, i);
    }
    if i :| 0 <= i < n && HeardAt(r, events[..n], i) {
      HeardBefore(r, events, i);
    }
    assert HeardAt(r, events, n) <==> events[n].seqNum <= |Reached(r, events[..n]).trace|;
  }

  /** One event moves or repeats exactly when it is heard and does not fail. */
  lemma FlagsOfEvent(r: Receiver, log: seq<Event>, e: Event)
    requires Follows(r, log)
    requires e.seqNum == NO_SEQ || Logged(log, e)
    ensures var o := Process(r, e);
            && Follows(o.receiver, log)
            && (e.seqNum == NO_SEQ ==> o.status == Invalid)
            && (o.status == Ok ==> (o.duplicate || o.progress <==> e.seqNum <= |r.trace|))
            && (o.duplicate || o.progress ==> o.receiver.last == |o.receiver.trace| - 1)
  {
    LoggedAgrees(r, log, e);
    ProcessRefinesSet(r, e);
    ProcessLogged(r, log, e);
  }

  lemma LastIsNewest(r: Receiver, log: seq<Event>)
    requires Follows(r, log) && r.last != NO_SEQ
    ensures r.last == |r.trace| - 1
  {
  }

  lemma {:induction false} FlagsOfBatch(r: Receiver, log: seq<Event>, events: seq<Event>)
    requires Follows(r, log)
    requires forall e :: e in events ==> e.seqNum == NO_SEQ || Logged(log, e)
    ensures var o := ProcessAll(r, events);
            o.status == Ok ==> (o.duplicate || o.progress <==> Heard(r, events))
  {
    if events != [] {
      var n := |events| - 1;
      var init := events[..n];
      FlagsOfBatch(r, log, init);
      ProcessAllLogged(r, log, init);
      BatchStopsAt(r, init);
      HeardSnoc(r, events);
      var o := ProcessAll(r, init);
      if o.status == Ok {
        FlagsOfEvent(o.receiver, log, events[n]);
      }
    }
  }

  /** What a message with these events leads to: up to its first event that fails they
      take effect, and it is acknowledged if and only if none fails and one is heard. */
  ghost predicate AnsweredRight(r: Receiver, events: seq<Event>, h: Handled) {
    && StopsRight(r, events, h.status, h.receiver)
    && h.ack == if h.status == Ok && Heard(r, events) then Some(|h.receiver.trace| - 1) else None
  }

  /** The two flags decide whether there is an acknowledgement. */
  lemma FlagsDecide(r: Receiver, log: seq<Event>, events: seq<Event>, o: Outcome, h: Handled)
    requires Follows(o.receiver, log) && (o.duplicate || o.progress ==> o.receiver.last != NO_SEQ)
    requires o.status == Ok ==> (o.duplicate || o.progress <==> Heard(r, events))
    requires StopsRight(r, events, o.status, o.receiver)
    requires h.status == o.status && h.receiver == o.receiver
    requires h.ack == if o.status == Ok && (o.duplicate || o.progress) then Some(o.receiver.last) else None
    ensures AnsweredRight(r, events, h)
  {
    if o.receiver.last != NO_SEQ {
      LastIsNewest(o.receiver, log);
    }
  }

  lemma SingleEvent(r: Receiver, e: Event)
    ensures ProcessAll(r, [e]) == Process(r, e)
  {
    assert [e][..0] == [];
  }

  lemma BatchIsAnswered(r: Receiver, log: seq<Event>, events: seq<Event>)
    requires Follows(r, log)
    requires forall e :: e in events ==> e.seqNum == NO_SEQ || Logged(log, e)
    ensures AnsweredRight(r, events, HandleBatch(r, events))
  {
    FlagsOfBatch(r, log, events);
    BatchStopsAt(r, events);
    ProcessAllLogged(r, log, events);
    FlagsDecide(r, log, events, ProcessAll(r, events), HandleBatch(r, events));
  }

  lemma EventIsAnswered(r: Receiver, log: seq<Event>, e: Event)
    requires Follows(r, log)
    requires e.seqNum == NO_SEQ || Logged(log, e)
    ensures AnsweredRight(r, [e], HandleEvent(r, e))
  {
    FlagsOfBatch(r, log, [e]);
    BatchStopsAt(r, [e]);
    SingleEvent(r, e);
    ProcessLogged(r, log, e);
    FlagsDecide(r, log, [e], Process(r, e), HandleEvent(r, e));
  }

  /** Messages of either kind are answered so; the acknowledgement names the last event
      dispatched. A message that does not decode is refused and changes nothing. */
  lemma AcknowledgedIff(r: Receiver, log: seq<Event>, m: Message)
    requires Follows(r, log)
    requires Carried(m).Success? ==> GoodMessage(log, m)
    ensures Carried(m).Failure? ==> Handle(r, m) == Handled(Carried(m).error, r, None)
    ensures Carried(m).Success? ==> AnsweredRight(r, Carried(m).value, Handle(r, m))
  {
    if Carried(m).Success? {
      var events := Carried(m).value;
      if m.EventMessage? {
        assert events == [DecodeEvent(m.body).value];
        EventIsAnswered(r, log, events[0]);
      } else {
        assert events == DecodeBatch(m.body).value.events;
        BatchIsAnswered(r, log, events);
      }
    }
  }

  /** For a single event: exactly one that is numbered, was taken without a failure and
      has a number no greater than the awaited one is acknowledged, a repeat as much as
      the awaited event itself. */
  lemma EventAcknowledgedIff(r: Receiver, log: seq<Event>, e: Event)
    requires Follows(r, log)
    requires e.seqNum == NO_SEQ || Logged(log, e)
    ensures var h := Handle(r, EventMessage(EventBytes(e)));
            && (h.ack.Some? <==> e.seqNum != NO_SEQ && h.status == Ok && e.seqNum <= |r.trace|)
            && (h.ack.Some? ==> h.ack == Some(|h.receiver.trace| - 1) && e.seqNum < |h.receiver.trace|)
            && h.status == Process(r, e).status && h.receiver == Process(r, e).receiver
  {
    DecodeOfEventBytes(e);
    FlagsOfEvent(r, log, e);
    if Process(r, e).status == Ok && e.seqNum <= |r.trace| {
      HeardIsDispatched(r, log, e);
    }
  }

  lemma HeardIsDispatched(r: Receiver, log: seq<Event>, e: Event)
    requires Follows(r, log) && Logged(log, e)
    requires Process(r, e).status == Ok && e.seqNum <= |r.trace| && e.seqNum != NO_SEQ
    ensures e.seqNum < |Process(r, e).receiver.trace|
  {
    if e.seqNum == |r.trace| {
      LoggedAgrees(r, log, e);
      ProcessInOrder(r, e);
    }
  }

  lemma DeliverySends(s: System, m: Message, n: uint64)
    requires m in s.net && Handle(s.client, m).ack == Some(n)
    ensures Next(s, DeliverMessage(m)) ==
            s.(client := Handle(s.client, m).receiver, acks := s.acks + {AckBytes(n)}, acksSent := s.acksSent + [n])
  {
  }

  lemma DeliverySendsNothing(s: System, m: Message)
    requires m in s.net && Handle(s.client, m).ack == None
    ensures Next(s, DeliverMessage(m)) == s.(client := Handle(s.client, m).receiver)
  {
  }

  lemma NetIsGood(steps: seq<Step>, m: Message)
    requires m in Exec(INIT, steps).net
    ensures var s := Exec(INIT, steps); Follows(s.client, s.log) && GoodMessage(s.log, m)
  {
    NumbersAreLogged(steps);
  }

  /** What the delivery of a message with these events does to the system. */
  ghost predicate AnsweredBy(s: System, events: seq<Event>, t: System) {
    var n := |t.client.trace| - 1;
    if NoneFails(s.client, events) && Heard(s.client, events) then
      && 0 <= n < U64_MAX
      && t == s.(client := t.client, acks := s.acks + {AckBytes(n)}, acksSent := s.acksSent + [n])
    else t == s.(client := t.client)
  }

  lemma AnswerOf(s: System, m: Message)
    requires Follows(s.client, s.log) && GoodMessage(s.log, m) && m in s.net
    ensures AnsweredBy(s, Carried(m).value, Next(s, DeliverMessage(m)))
    ensures StopsRight(s.client, Carried(m).value, Handle(s.client, m).status, Next(s, DeliverMessage(m)).client)
  {
    var h := Handle(s.client, m);
    AcknowledgedIff(s.client, s.log, m);
    if h.ack.Some? {
      HandleLogged(s.client, s.log, m);
      AcceptedHasNumber(h.receiver);
      DeliverySends(s, m, h.ack.value);
    } else {
      DeliverySendsNothing(s, m);
    }
  }

  /** In every run a delivery has this effect on the client, sends this acknowledgement,
      and leaves the server alone. */
  lemma DeliveryIsAnswered(steps: seq<Step>, m: Message)
    requires m in Exec(INIT, steps).net
    ensures Carried(m).Success?
    ensures var s, t := Exec(INIT, steps), Next(Exec(INIT, steps), DeliverMessage(m));
            && AnsweredBy(s, Carried(m).value, t)
            && StopsRight(s.client, Carried(m).value, Handle(s.client, m).status, t.client)
  {
    NetIsGood(steps, m);
    AnswerOf(Exec(INIT, steps), m);
  }
}
