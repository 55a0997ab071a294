/** When deliveries bring a backlog down to what a re-send takes. */
module Shrinking {
  import opened Core
  import opened Codec
  import opened Backlog
  import opened EventInbox
  import opened ReorderWindow
  import opened Protocol
  import opened Stalls
  import opened WireBatches
  import opened Convergence
  import opened Reaching

  /** Event `k`, which the client lacks, is neither on the wire nor in its ring. */
  ghost predicate Missing(s: System, k: nat) {
    |s.client.trace| <= k < |s.log| && !AtHand(s, k)
  }

  ghost predicate FirstMissing(s: System, n: nat) {
    Missing(s, n) && AllAtHand(s, n)
  }

  lemma {:induction false} FirstOf(s: System, k: nat) returns (n: nat)
    requires Missing(s, k)
    ensures FirstMissing(s, n)
    decreases k
  {
    if j: nat :| |s.client.trace| <= j < k && !AtHand(s, j) {
      n := FirstOf(s, j);
    } else {
      n := k;
    }
  }

  /** Delivering some of what is under way leaves a backlog that can be re-sent. */
  ghost predicate CanShrink(s: System) {
    exists steps :: OnlyDelivers(steps) && Resendable(GREETING, Exec(s, steps).inbox.events)
  }

  lemma MissingAfterMessage(s: System, m: Message, n: nat)
    requires Inv(s) && Missing(s, n) && m in s.net
    ensures Missing(DeliverMessageStep(s, m), n)
  {
    DeliverMessageKeepsInv(s, m);
    DeliveryBringsNone(s, m, n);
    StopsAtMissing(DeliverMessageStep(s, m), n);
  }

  /** A delivery brings no missing event and no acknowledgement of one. */
  lemma MissingAfter(s: System, step: Step, n: nat)
    requires Inv(s) && Missing(s, n) && (step.DeliverMessage? || step.DeliverAck?)
    ensures var t := Next(s, step);
            && Inv(t) && Missing(t, n)
            && From(t.inbox.events, n) == From(s.inbox.events, n)
  {
    NextKeepsInv(s, step);
    if step.DeliverMessage? && step.msg in s.net {
      MissingAfterMessage(s, step.msg, n);
    } else if step.DeliverAck? && step.ack in s.acks {
      FromAcked(s.inbox.events, DecodeAck(step.ack).value, n);
    }
  }

  lemma {:induction false} StaysMissing(s: System, steps: seq<Step>, n: nat)
    requires Inv(s) && OnlyDelivers(steps) && Missing(s, n)
    ensures var t := Exec(s, steps);
            && Inv(t) && Missing(t, n)
            && From(t.inbox.events, n) == From(s.inbox.events, n)
    decreases |steps|
  {
    if steps != [] {
      MissingAfter(s, steps[0], n);
      StaysMissing(Next(s, steps[0]), steps[1..], n);
    }
  }

  // -------------------------------------------------- what an acknowledgement leaves

  lemma {:induction false} DropIsFrom(events: seq<Event>, until: uint64)
    requires Increasing(events)
    ensures DropAcked(events, until) == From(events, until + 1)
  {
    if events != [] {
      if events[0].seqNum > until {
        FromAll(events, until + 1);
      } else {
        DropIsFrom(events[1..], until);
      }
    }
  }

  lemma {:induction false} FromFrom(events: seq<Event>, m: nat, n: nat)
    ensures From(From(events, m), n) == From(events, Max(m, n))
  {
    if events != [] {
      FromFrom(events[1..], m, n);
      if events[0].seqNum >= m {
        FromCons(events[0], From(events[1..], m), n);
      } else {
        assert From(events, m) == From(events[1..], m) && From(events, Max(m, n)) == From(events[1..], Max(m, n));
      }
    }
  }

  lemma RemoveLeavesFrom(inbox: Inbox, n: uint64)
    requires EventInbox.Valid(inbox) && RemoveStatus(inbox, n) == Ok
    ensures RemoveUntil(inbox, n).events == From(inbox.events, n + 1)
  {
    DropIsFrom(inbox.events, n);
    if inbox.lastAcked != NO_SEQ && n <= inbox.lastAcked {
      FromAll(inbox.events, n + 1);
    }
  }

  lemma AckLeavesFrom(s: System, a: Body)
    requires ServerInv(s) && AckInv(s) && |s.client.trace| <= |s.log| && a in s.acks
    ensures DeliverAckStep(s, a).inbox.events == From(s.inbox.events, DecodeAck(a).value + 1)
  {
    RemoveLeavesFrom(s.inbox, DecodeAck(a).value);
  }

  // ------------------------------------------------------------- nothing new comes back

  /** All that is on the wire is beyond the number the client waits for. */
  ghost predicate Quiet(s: System) {
    forall m, e :: m in s.net && e in CarriedBy(m) ==> e.seqNum > |s.client.trace|
  }

  lemma EarlyIsQuiet(r: Receiver, log: seq<Event>, e: Event)
    requires Follows(r, log) && e.seqNum > |r.trace|
    requires e.seqNum == NO_SEQ || Logged(log, e)
    ensures var o := Process(r, e);
            Follows(o.receiver, log) && o.receiver.trace == r.trace && !o.duplicate && !o.progress
  {
    ProcessLogged(r, log, e);
    LoggedAgrees(r, log, e);
    if e.seqNum != NO_SEQ {
      ProcessOutOfOrder(r, e);
    }
  }

  lemma {:induction false} EarlyBatchIsQuiet(r: Receiver, log: seq<Event>, events: seq<Event>)
    requires Follows(r, log)
    requires forall e :: e in events ==> e.seqNum > |r.trace| && (e.seqNum == NO_SEQ || Logged(log, e))
    ensures var o := ProcessAll(r, events);
            Follows(o.receiver, log) && o.receiver.trace == r.trace && !o.duplicate && !o.progress
  {
    if events != [] {
      var init, last := events[..|events| - 1], events[|events| - 1];
      EarlyBatchIsQuiet(r, log, init);
      var o := ProcessAll(r, init);
      if o.status == Ok {
        EarlyIsQuiet(o.receiver, log, last);
      }
    }
  }

  /** Such a message is answered by nothing. */
  lemma EarlyMessageIsQuiet(r: Receiver, log: seq<Event>, m: Message)
    requires Follows(r, log) && GoodMessage(log, m)
    requires forall e :: e in CarriedBy(m) ==> e.seqNum > |r.trace|
    ensures Handle(r, m).ack == None && Handle(r, m).receiver.trace == r.trace
  {
    match m
    case EventMessage(body) =>
      var e := DecodeEvent(body).value;
      assert Carried(m) == Success([e]);
      assert e in CarriedBy(m);
      EarlyIsQuiet(r, log, e);
    case BatchMessage(body) =>
      var events := DecodeBatch(body).value.events;
      assert Carried(m).value == events;
      forall e | e in events ensures e.seqNum > |r.trace| { assert e in CarriedBy(m); }
      EarlyBatchIsQuiet(r, log, events);
  }

  lemma QuietDelivery(s: System, m: Message)
    requires Inv(s) && Quiet(s) && m in s.net
    ensures var t := DeliverMessageStep(s, m);
            t.acks == s.acks && t.inbox == s.inbox && Quiet(t)
  {
    EarlyMessageIsQuiet(s.client, s.log, m);
  }

  /** Only the acknowledgements under way can take anything from the inbox then. */
  ghost predicate LeftByAck(s: System, events: seq<Event>) {
    || events == s.inbox.events
    || exists a :: a in s.acks && DecodeAck(a).Success? && events == From(s.inbox.events, DecodeAck(a).value + 1)
  }

  lemma LeftTwice(s: System, t: System, events: seq<Event>)
    requires t.acks == s.acks && LeftByAck(s, t.inbox.events) && LeftByAck(t, events)
    ensures LeftByAck(s, events)
  {
    if t.inbox.events != s.inbox.events && events != t.inbox.events {
      var a :| a in s.acks && DecodeAck(a).Success? && t.inbox.events == From(s.inbox.events, DecodeAck(a).value + 1);
      var b :| b in s.acks && DecodeAck(b).Success? && events == From(t.inbox.events, DecodeAck(b).value + 1);
      FromFrom(s.inbox.events, DecodeAck(a).value + 1, DecodeAck(b).value + 1);
    }
  }

  lemma QuietAck(s: System, a: Body)
    requires ServerInv(s) && AckInv(s) && |s.client.trace| <= |s.log| && Quiet(s) && a in s.acks
    ensures var t := DeliverAckStep(s, a);
            t.acks == s.acks && Quiet(t) && LeftByAck(s, t.inbox.events)
  {
    AckLeavesFrom(s, a);
  }

  lemma QuietNext(s: System, step: Step)
    requires Inv(s) && Quiet(s) && (step.DeliverMessage? || step.DeliverAck?)
    ensures var t := Next(s, step);
            t.acks == s.acks && Quiet(t) && LeftByAck(s, t.inbox.events)
  {
    if step.DeliverMessage? && step.msg in s.net {
      QuietDelivery(s, step.msg);
    } else if step.DeliverAck? && step.ack in s.acks {
      TraceWithinLog(s);
      QuietAck(s, step.ack);
    }
  }

  lemma {:induction false} QuietDeliveries(s: System, steps: seq<Step>)
    requires Inv(s) && Quiet(s) && OnlyDelivers(steps)
    ensures LeftByAck(s, Exec(s, steps).inbox.events)
    decreases |steps|
  {
    if steps != [] {
      var t := Next(s, steps[0]);
      NextKeepsInv(s, steps[0]);
      QuietNext(s, steps[0]);
      QuietDeliveries(t, steps[1..]);
      LeftTwice(s, t, Exec(t, steps[1..]).inbox.events);
    }
  }

  // ------------------------------------------------------------ what brings it down

  /** Some acknowledgement under way is enough. */
  ghost predicate AckShrinks(s: System) {
    exists a :: a in s.acks && DecodeAck(a).Success?
                && Resendable(GREETING, From(s.inbox.events, DecodeAck(a).value + 1))
  }

  /** A message on the wire carries an event numbered below `n`. */
  ghost predicate WireBelow(s: System, n: nat) {
    exists m, e :: m in s.net && e in CarriedBy(m) && e.seqNum < n
  }

  lemma NoneAbove(events: seq<Event>, stored: set<nat>, e: Event, n: nat)
    requires Increasing(events) && SkipsNone(events, stored) && n in stored && !Holds(events, n)
    requires e in events && e.seqNum < n
    ensures forall x :: x in events ==> x.seqNum < n
  {
    var i :| 0 <= i < |events| && events[i] == e;
    assert forall j :: 0 <= j < |events| ==> events[j].seqNum < n;
  }

  /** A message with an event below a missing stored number has no event above it. */
  lemma AllBelow(s: System, m: Message, e: Event, n: nat)
    requires Inv(s) && GoodBatches(s) && n < |s.log| && n in s.stored && !OnWire(s, n)
    requires m in s.net && e in CarriedBy(m) && e.seqNum < n
    ensures forall x :: x in CarriedBy(m) ==> x.seqNum < n
  {
    assert GoodMessage(s.log, m) && GoodBatch(m, s.stored);
    var events := Carried(m).value;
    forall i | 0 <= i < |events| ensures events[i].seqNum != n {
      assert events[i] in CarriedBy(m);
    }
    if m.EventMessage? {
      assert events == [DecodeEvent(m.body).value];
    } else {
      NoneAbove(events, s.stored, e, n);
    }
  }

  /** A message whose events were all dispatched is answered. */
  lemma RepeatIsAnswered(r: Receiver, log: seq<Event>, m: Message, e: Event)
    requires Follows(r, log) && GoodMessage(log, m) && e in CarriedBy(m)
    requires forall x :: x in CarriedBy(m) ==> x.seqNum < |r.trace|
    ensures Handle(r, m) == Handled(Ok, r, Some(|r.trace| - 1))
  {
    match m
    case EventMessage(body) =>
      assert Carried(m) == Success([DecodeEvent(body).value]);
    case BatchMessage(body) =>
      var events := DecodeBatch(body).value.events;
      assert Carried(m).value == events && events != [];
      forall x | x in events ensures x.seqNum < |r.trace| && x.seqNum != NO_SEQ { assert x in CarriedBy(m); }
      DuplicatesFirst(r, log, events);
  }

  /** The acknowledgement of `n` leaves what is stored behind it. */
  lemma NewestAckLeaves(s: System, n: uint64)
    requires ServerInv(s) && AckInv(s) && |s.client.trace| <= |s.log| && AckBytes(n) in s.acks
    ensures DeliverAckStep(s, AckBytes(n)).inbox.events == From(s.inbox.events, n + 1)
  {
    DecodeOfAckBytes(n);
    AckLeavesFrom(s, AckBytes(n));
  }

  lemma AnswerIsSent(s: System, m: Message, n: uint64)
    requires Handle(s.client, m) == Handled(Ok, s.client, Some(n))
    ensures AckBytes(n) in DeliverMessageStep(s, m).acks && DeliverMessageStep(s, m).client == s.client
  {
  }

  lemma TwoDeliveries(s: System, m: Message, a: Body)
    requires m in s.net && a in DeliverMessageStep(s, m).acks
    ensures OnlyDelivers([DeliverMessage(m), DeliverAck(a)])
    ensures Exec(s, [DeliverMessage(m), DeliverAck(a)]) == DeliverAckStep(DeliverMessageStep(s, m), a)
  {
    ExecTwo(s, DeliverMessage(m), DeliverAck(a));
  }

  lemma ShrinksAfter(s: System, reach: seq<Step>, more: seq<Step>)
    requires OnlyDelivers(reach) && OnlyDelivers(more)
    requires Resendable(GREETING, Exec(Exec(s, reach), more).inbox.events)
    ensures CanShrink(s)
  {
    ExecAppend(s, reach, more);
    assert OnlyDelivers(reach + more);
  }

  lemma ShrinksBehind(s: System, reach: seq<Step>, m: Message, a: Body)
    requires OnlyDelivers(reach)
    requires m in Exec(s, reach).net && a in DeliverMessageStep(Exec(s, reach), m).acks
    requires Resendable(GREETING, DeliverAckStep(DeliverMessageStep(Exec(s, reach), m), a).inbox.events)
    ensures CanShrink(s)
  {
    TwoDeliveries(Exec(s, reach), m, a);
    ShrinksAfter(s, reach, [DeliverMessage(m), DeliverAck(a)]);
  }

  /** The client right in front of a missing event. */
  lemma ReachMissing(s: System, n: nat) returns (reach: seq<Step>)
    requires Inv(s) && GoodBatches(s) && RestIsDispatchable(s.log, |s.client.trace|) && FirstMissing(s, n)
    ensures OnlyDelivers(reach)
    ensures var t := Exec(s, reach);
            && Inv(t) && t.net == s.net && |t.client.trace| == n <= |t.log|
            && From(t.inbox.events, n) == From(s.inbox.events, n)
  {
    reach := ReachSteps(s, n);
    DeliveriesLeave(s, reach);
    StaysMissing(s, reach, n);
  }

  /** Answering a repeat changes nothing else that matters. */
  lemma RepeatKeepsInv(t: System, m: Message)
    requires ServerInv(t) && AckInv(t) && 0 < |t.client.trace| <= |t.log|
    requires Handle(t.client, m) == Handled(Ok, t.client, Some(|t.client.trace| - 1))
    ensures var v := DeliverMessageStep(t, m);
            ServerInv(v) && AckInv(v) && v.client == t.client && v.log == t.log && v.inbox == t.inbox
  {
    DecodeOfAckBytes(|t.client.trace| - 1);
  }

  lemma AnswerShrinks(t: System, m: Message)
    requires ServerInv(t) && AckInv(t) && 0 < |t.client.trace| <= |t.log|
    requires Handle(t.client, m) == Handled(Ok, t.client, Some(|t.client.trace| - 1))
    ensures var v, a := DeliverMessageStep(t, m), AckBytes(|t.client.trace| - 1);
            a in v.acks && DeliverAckStep(v, a).inbox.events == From(t.inbox.events, |t.client.trace|)
  {
    AnswerIsSent(t, m, |t.client.trace| - 1);
    RepeatKeepsInv(t, m);
    NewestAckLeaves(DeliverMessageStep(t, m), |t.client.trace| - 1);
  }

  /** The repeat and the acknowledgement it brings leave what is stored from there on. */
  lemma RepeatShrinks(t: System, m: Message, e: Event) returns (a: Body)
    requires ServerInv(t) && AckInv(t) && Follows(t.client, t.log) && |t.client.trace| <= |t.log|
    requires GoodMessage(t.log, m) && e in CarriedBy(m)
    requires forall x :: x in CarriedBy(m) ==> x.seqNum < |t.client.trace|
    ensures a in DeliverMessageStep(t, m).acks
    ensures DeliverAckStep(DeliverMessageStep(t, m), a).inbox.events == From(t.inbox.events, |t.client.trace|)
  {
    RepeatIsAnswered(t.client, t.log, m, e);
    a := AckBytes(|t.client.trace| - 1);
    AnswerShrinks(t, m);
  }

  lemma WireShrinks(s: System, n: nat)
    requires Inv(s) && GoodBatches(s) && RestIsDispatchable(s.log, |s.client.trace|)
    requires FirstMissing(s, n) && n in s.stored
    requires Resendable(GREETING, From(s.inbox.events, n)) && WireBelow(s, n)
    ensures CanShrink(s)
  {
    var m, e :| m in s.net && e in CarriedBy(m) && e.seqNum < n;
    AllBelow(s, m, e, n);
    var reach := ReachMissing(s, n);
    var a := RepeatShrinks(Exec(s, reach), m, e);
    ShrinksBehind(s, reach, m, a);
  }

  /** A backlog that can be re-sent as it stands, with an acknowledgement under way, or
      from event `n` on, given a message whose repeat is answered. */
  ghost predicate Shrinks(s: System, n: nat) {
    || Resendable(GREETING, s.inbox.events)
    || AckShrinks(s)
    || (Resendable(GREETING, From(s.inbox.events, n)) && WireBelow(s, n))
  }

  lemma ShrinksIsEnough(s: System, n: nat)
    requires Inv(s) && GoodBatches(s) && RestIsDispatchable(s.log, |s.client.trace|)
    requires FirstMissing(s, n) && n in s.stored && Shrinks(s, n)
    ensures CanShrink(s)
  {
    if Resendable(GREETING, s.inbox.events) {
      assert Exec(s, []) == s && OnlyDelivers([]);
    } else if AckShrinks(s) {
      var a :| a in s.acks && DecodeAck(a).Success?
               && Resendable(GREETING, From(s.inbox.events, DecodeAck(a).value + 1));
      TraceWithinLog(s);
      AckLeavesFrom(s, a);
      ExecOne(s, DeliverAck(a));
      assert OnlyDelivers([DeliverAck(a)]);
    } else {
      WireShrinks(s, n);
    }
  }

  /** Without such a message the client waits for `n` itself. */
  lemma NothingBelowIsQuiet(s: System, n: nat)
    requires Inv(s) && RestIsDispatchable(s.log, |s.client.trace|)
    requires FirstMissing(s, n) && !WireBelow(s, n)
    ensures Quiet(s)
  {
    if |s.client.trace| < n {
      NextIsNotBuffered(s);
      assert AtHand(s, |s.client.trace|);
    }
  }

  lemma ShrinksIsNeeded(s: System, n: nat, steps: seq<Step>)
    requires Inv(s) && RestIsDispatchable(s.log, |s.client.trace|)
    requires FirstMissing(s, n)
    requires OnlyDelivers(steps) && Resendable(GREETING, Exec(s, steps).inbox.events)
    ensures Shrinks(s, n)
  {
    StaysMissing(s, steps, n);
    EndIsResendable(0, Exec(s, steps).inbox.events, n);
    if !WireBelow(s, n) {
      NothingBelowIsQuiet(s, n);
      QuietDeliveries(s, steps);
    }
  }

  /** Deliveries bring the backlog down to what a re-send takes if and only if the state
      says so: it is taken as it stands, an acknowledgement under way is enough, or what
      is stored from the first missing event on is taken and some message on the wire
      carries an event in front of it. */
  lemma CanShrinkIff(s: System, n: nat)
    requires Inv(s) && GoodBatches(s) && RestIsDispatchable(s.log, |s.client.trace|)
    requires FirstMissing(s, n) && n in s.stored
    ensures CanShrink(s) <==> Shrinks(s, n)
  {
    if Shrinks(s, n) {
      ShrinksIsEnough(s, n);
    }
    if CanShrink(s) {
      var steps :| OnlyDelivers(steps) && Resendable(GREETING, Exec(s, steps).inbox.events);
      ShrinksIsNeeded(s, n, steps);
    }
  }
}
