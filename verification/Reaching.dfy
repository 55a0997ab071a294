/** How far the messages on the wire can take the client. */
module Reaching {
  import opened Core
  import opened Codec
  import opened EventInbox
  import opened ReorderWindow
  import opened Protocol
  import opened Stalls
  import opened WireBatches
  import opened Convergence

  // ----------------------------------------------- one message with the awaited event

  /** In front of the awaited event a batch has duplicates only. */
  lemma {:induction false} DuplicatesFirst(r: Receiver, log: seq<Event>, events: seq<Event>)
    requires Follows(r, log)
    requires forall e :: e in events ==> e.seqNum != NO_SEQ && e.seqNum < |r.trace|
    ensures var o := ProcessAll(r, events);
            o.status == Ok && o.receiver == r && (events != [] ==> o.duplicate)
  {
    if events != [] {
      DuplicatesFirst(r, log, events[..|events| - 1]);
    }
  }

  lemma OneMoreReaches(r: Receiver, log: seq<Event>, init: seq<Event>, e: Event)
    requires Follows(r, log)
    requires forall x :: x in init + [e] ==> x.seqNum != NO_SEQ && Logged(log, x)
    ensures |ProcessAll(r, init + [e]).receiver.trace| >= |ProcessAll(r, init).receiver.trace|
  {
    assert (init + [e])[..|init|] == init;
    assert forall x :: x in init ==> x in init + [e];
    ProcessAllLogged(r, log, init);
    var o := ProcessAll(r, init);
    if o.status == Ok {
      ProcessLogged(o.receiver, log, e);
    }
  }

  /** An increasing batch that holds it takes the client past it. */
  lemma {:induction false} BatchReaches(r: Receiver, log: seq<Event>, events: seq<Event>, i: nat)
    requires Follows(r, log) && RestIsDispatchable(log, |r.trace|)
    requires forall e :: e in events ==> e.seqNum != NO_SEQ && Logged(log, e)
    requires Increasing(events) && i < |events| && events[i].seqNum == |r.trace|
    ensures |ProcessAll(r, events).receiver.trace| > |r.trace|
    decreases |events|
  {
    var n := |events| - 1;
    var init := events[..n];
    if i == n {
      DuplicatesFirst(r, log, init);
      EventInOrder(r, log, events[n]);
    } else {
      assert init[i] == events[i];
      BatchReaches(r, log, init, i);
      OneMoreReaches(r, log, init, events[n]);
      assert events == init + [events[n]];
    }
  }

  lemma MessageReaches(s: System, m: Message, e: Event)
    requires Inv(s) && GoodBatches(s) && RestIsDispatchable(s.log, |s.client.trace|)
    requires m in s.net && e in CarriedBy(m) && e.seqNum == |s.client.trace| < |s.log|
    ensures |DeliverMessageStep(s, m).client.trace| > |s.client.trace|
  {
    assert GoodMessage(s.log, m) && GoodBatch(m, s.stored);
    match m
    case EventMessage(body) =>
      assert Carried(m) == Success([DecodeEvent(body).value]);
      EventInOrder(s.client, s.log, e);
    case BatchMessage(body) =>
      var events := DecodeBatch(body).value.events;
      assert Carried(m).value == events;
      forall x | x in events ensures x.seqNum != NO_SEQ { assert x.seqNum in s.stored; }
      var i :| 0 <= i < |events| && events[i] == e;
      BatchReaches(s.client, s.log, events, i);
  }

  // ----------------------------------------------------------- nothing but deliveries

  predicate OnlyDelivers(steps: seq<Step>) {
    forall i :: 0 <= i < |steps| ==> steps[i].DeliverMessage? || steps[i].DeliverAck?
  }

  lemma DeliveryLeaves(s: System, step: Step)
    requires Inv(s) && GoodBatches(s) && (step.DeliverMessage? || step.DeliverAck?)
    ensures var t := Next(s, step);
            && Inv(t) && GoodBatches(t)
            && t.net == s.net && t.log == s.log && t.stored == s.stored
            && s.client.trace <= t.client.trace && Accepted(s.client) <= Accepted(t.client)
  {
    NextKeepsInv(s, step);
    NextKeepsBatches(s, step);
    if step.DeliverMessage? && step.msg in s.net {
      HandleTakes(s.client, s.log, step.msg);
    }
  }

  lemma {:induction false} DeliveriesLeave(s: System, steps: seq<Step>)
    requires Inv(s) && GoodBatches(s) && OnlyDelivers(steps)
    ensures var t := Exec(s, steps);
            && Inv(t) && GoodBatches(t)
            && t.net == s.net && t.log == s.log && t.stored == s.stored
            && s.client.trace <= t.client.trace && Accepted(s.client) <= Accepted(t.client)
    decreases |steps|
  {
    if steps != [] {
      DeliveryLeaves(s, steps[0]);
      DeliveriesLeave(Next(s, steps[0]), steps[1..]);
    }
  }

  /** The next event the client needs is not waiting in its ring. */
  lemma NextIsNotBuffered(s: System)
    requires Inv(s) && |s.client.trace| < |s.log| && Dispatchable(s.log[|s.client.trace|])
    ensures !Buffered(s, |s.client.trace|)
  {
    forall e | e in Accepted(s.client) ensures e.seqNum != |s.client.trace| {
      WaitsInItsSlot(s.client, e);
    }
  }

  /** On the wire or in the ring. */
  ghost predicate AtHand(s: System, k: nat) {
    OnWire(s, k) || Buffered(s, k)
  }

  lemma StaysAtHand(s: System, t: System, k: nat)
    requires AtHand(s, k) && t.net == s.net && Accepted(s.client) <= Accepted(t.client)
    ensures AtHand(t, k)
  {
    if OnWire(s, k) { assert OnWire(t, k); }
    if Buffered(s, k) { assert Buffered(t, k); }
  }

  /** Everything from the client's next number up to `to` is at hand. */
  ghost predicate AllAtHand(s: System, to: nat) {
    forall k :: |s.client.trace| <= k < to ==> AtHand(s, k)
  }

  lemma AllStayAtHand(s: System, t: System, to: nat)
    requires AllAtHand(s, to) && t.net == s.net
    requires s.client.trace <= t.client.trace && Accepted(s.client) <= Accepted(t.client)
    ensures AllAtHand(t, to)
  {
    forall k | |t.client.trace| <= k < to ensures AtHand(t, k) {
      StaysAtHand(s, t, k);
    }
  }

  /** One message brings the next event. */
  lemma NextDelivery(s: System) returns (m: Message)
    requires Inv(s) && GoodBatches(s) && RestIsDispatchable(s.log, |s.client.trace|)
    requires |s.client.trace| < |s.log| && AtHand(s, |s.client.trace|)
    ensures m in s.net && |s.client.trace| < |Next(s, DeliverMessage(m)).client.trace|
  {
    NextIsNotBuffered(s);
    var x, e :| x in s.net && e in CarriedBy(x) && e.seqNum == |s.client.trace|;
    m := x;
    MessageReaches(s, m, e);
  }

  lemma OnlyDeliversCons(m: Message, steps: seq<Step>)
    requires OnlyDelivers(steps)
    ensures OnlyDelivers([DeliverMessage(m)] + steps)
  {
  }

  /** Deliveries alone take the client as far as what is at hand reaches. */
  lemma {:induction false} ReachSteps(s: System, to: nat) returns (steps: seq<Step>)
    requires Inv(s) && GoodBatches(s) && RestIsDispatchable(s.log, |s.client.trace|)
    requires to <= |s.log| && AllAtHand(s, to)
    ensures OnlyDelivers(steps) && |Exec(s, steps).client.trace| >= to
    decreases |s.log| - |s.client.trace|
  {
    if |s.client.trace| >= to {
      steps := [];
    } else {
      var m := NextDelivery(s);
      var t := Next(s, DeliverMessage(m));
      DeliveryLeaves(s, DeliverMessage(m));
      AllStayAtHand(s, t, to);
      InvGivesPrefix(t);
      var rest := ReachSteps(t, to);
      steps := [DeliverMessage(m)] + rest;
      OnlyDeliversCons(m, rest);
      assert steps[1..] == rest;
    }
  }
}
