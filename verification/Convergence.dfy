/** What one re-send achieves, and what no number of them can. */
module Convergence {
  import opened Core
  import opened Codec
  import opened Backlog
  import opened Batching
  import opened EventInbox
  import opened ReorderWindow
  import opened Protocol

  /** No event the client still waits for is undispatchable. */
  ghost predicate RestIsDispatchable(log: seq<Event>, from: nat) {
    forall k :: from <= k < |log| ==> Dispatchable(log[k])
  }

  ghost function Deliveries(msgs: seq<Message>): (steps: seq<Step>)
    ensures |steps| == |msgs|
  {
    seq(|msgs|, i requires 0 <= i < |msgs| => DeliverMessage(msgs[i]))
  }

  ghost function AckDeliveries(acks: seq<Body>): (steps: seq<Step>)
    ensures |steps| == |acks|
  {
    seq(|acks|, i requires 0 <= i < |acks| => DeliverAck(acks[i]))
  }

  /** The inbox is re-sent behind the greeting and `beyond` bytes more, and every batch
      that goes out arrives once, in order. */
  ghost function Round(s: System, beyond: nat): System {
    Exec(ResendStep(s, beyond), Deliveries(SentMessages(s.inbox, beyond)))
  }

  // ------------------------------------------------------- the client in the round

  /** The newest acknowledgement carries `n` and is on its way. */
  ghost predicate LastAckIs(s: System, n: int) {
    && s.acksSent != []
    && s.acksSent[|s.acksSent| - 1] == n
    && AckBytes(s.acksSent[|s.acksSent| - 1]) in s.acks
  }

  ghost predicate InFlight(net: set<Message>, msgs: seq<Message>, batches: seq<seq<Event>>) {
    && |msgs| == |batches|
    && forall k :: 0 <= k < |msgs| ==>
         msgs[k] in net && msgs[k].BatchMessage? && Carried(msgs[k]) == Success(batches[k])
  }

  lemma InFlightTail(net: set<Message>, msgs: seq<Message>, batches: seq<seq<Event>>)
    requires InFlight(net, msgs, batches) && msgs != []
    ensures InFlight(net, msgs[1..], batches[1..])
  {
  }

  lemma EventInOrder(r: Receiver, log: seq<Event>, e: Event)
    requires Follows(r, log)
    requires RestIsDispatchable(log, |r.trace|)
    requires Logged(log, e) && e.seqNum != NO_SEQ && e.seqNum <= |r.trace|
    ensures var o := Process(r, e);
            o.status == Ok && (o.duplicate || o.progress) && |o.receiver.trace| > e.seqNum
  {
    ProcessLogged(r, log, e);
    if e.seqNum == |r.trace| {
      LoggedAgrees(r, log, e);
      ProcessInOrder(r, e);
      var t := Process(r, e).receiver;
      WaitingAtFrontier(t);
      forall b | b in Accepted(t) && b.seqNum == |t.trace| ensures false {
        WaitsInItsSlot(t, b);
      }
    }
  }

  lemma ProcessAllSnoc(r: Receiver, events: seq<Event>, e: Event)
    requires ProcessAll(r, events).status == Ok
    ensures var init := ProcessAll(r, events);
            var o := Process(init.receiver, e);
            ProcessAll(r, events + [e]) ==
            o.(duplicate := init.duplicate || o.duplicate, progress := init.progress || o.progress)
  {
    assert (events + [e])[..|events|] == events;
  }

  lemma NextInOrder(r: Receiver, log: seq<Event>, events: seq<Event>, e: Event)
    requires Follows(r, log) && RestIsDispatchable(log, |r.trace|)
    requires forall x :: x in events ==> x.seqNum == NO_SEQ || Logged(log, x)
    requires Logged(log, e) && e.seqNum != NO_SEQ
    requires ProcessAll(r, events).status == Ok && e.seqNum <= |ProcessAll(r, events).receiver.trace|
    ensures var o := ProcessAll(r, events + [e]);
            o.status == Ok && (o.duplicate || o.progress) && |o.receiver.trace| > e.seqNum
  {
    ProcessAllLogged(r, log, events);
    EventInOrder(ProcessAll(r, events).receiver, log, e);
    ProcessAllSnoc(r, events, e);
  }

  lemma SliceIsLogged(log: seq<Event>, i: nat, j: nat)
    requires i <= j <= |log| && forall k :: 0 <= k < |log| ==> log[k].seqNum == k
    ensures forall x :: x in log[i..j] ==> Logged(log, x)
  {
  }

  lemma {:induction false} BatchInOrder(r: Receiver, log: seq<Event>, i: nat, j: nat)
    requires Follows(r, log)
    requires |log| <= U64_MAX && forall k :: 0 <= k < |log| ==> log[k].seqNum == k
    requires RestIsDispatchable(log, |r.trace|)
    requires i <= |r.trace| && i <= j <= |log|
    ensures var o := ProcessAll(r, log[i..j]);
            && o.status == Ok
            && (i < j ==> o.duplicate || o.progress)
            && |o.receiver.trace| >= j
    decreases j
  {
    if i < j {
      BatchInOrder(r, log, i, j - 1);
      SliceIsLogged(log, i, j - 1);
      NextInOrder(r, log, log[i..j - 1], log[j - 1]);
      SliceGrows(log, i, j);
    }
  }

  /** A batch that continues the log no later than the client's next number brings the
      client past the batch and is acknowledged. */
  lemma {:induction false} BatchDelivered(s: System, m: Message, events: seq<Event>, i: nat, j: nat)
    requires Inv(s) && m in s.net
    requires RestIsDispatchable(s.log, |s.client.trace|)
    requires i <= |s.client.trace| && i < j <= |s.log|
    requires m.BatchMessage? && Carried(m) == Success(events) && events == s.log[i..j]
    ensures var t := Next(s, DeliverMessage(m));
            && Inv(t) && j <= |t.client.trace| <= |t.log|
            && t.inbox == s.inbox && t.log == s.log && t.stored == s.stored && t.net == s.net
            && LastAckIs(t, |t.client.trace| - 1)
  {
    DeliverMessageKeepsInv(s, m);
    HandleLogged(s.client, s.log, m);
    ProcessAllLogged(s.client, s.log, s.log[i..j]);
    BatchInOrder(s.client, s.log, i, j);
    InvGivesPrefix(Next(s, DeliverMessage(m)));
  }

  lemma FirstPart<T>(whole: seq<T>, i: nat, parts: seq<seq<T>>)
    requires i <= |whole| && parts != [] && Flatten(parts) == whole[i..]
    ensures var j := i + |parts[0]|;
            j <= |whole| && parts[0] == whole[i..j] && Flatten(parts[1..]) == whole[j..]
  {
    assert parts[0] == whole[i..][..|parts[0]|];
    assert Flatten(parts[1..]) == whole[i..][|parts[0]|..];
  }

  /** After the first batch the rest is in the same situation, further on in the log. */
  lemma {:induction false} FirstDelivered(s: System, batches: seq<seq<Event>>, msgs: seq<Message>, i: nat)
    requires Inv(s)
    requires RestIsDispatchable(s.log, |s.client.trace|)
    requires i <= |s.client.trace| <= |s.log|
    requires AllSendable(batches) && Flatten(batches) == s.log[i..]
    requires InFlight(s.net, msgs, batches) && msgs != []
    ensures var t := Next(s, DeliverMessage(msgs[0]));
            var j := i + |batches[0]|;
            && Inv(t) && LastAckIs(t, |t.client.trace| - 1)
            && t.inbox == s.inbox && t.log == s.log && t.stored == s.stored
            && RestIsDispatchable(t.log, |t.client.trace|)
            && j <= |t.client.trace| <= |t.log|
            && AllSendable(batches[1..]) && Flatten(batches[1..]) == t.log[j..]
            && InFlight(t.net, msgs[1..], batches[1..])
  {
    var j := i + |batches[0]|;
    assert Sendable(batches[0]);
    FirstPart(s.log, i, batches);
    InFlightTail(s.net, msgs, batches);
    assert msgs[0] in s.net && msgs[0].BatchMessage? && Carried(msgs[0]) == Success(batches[0]);
    BatchDelivered(s, msgs[0], batches[0], i, j);
    NextKeepsInv(s, DeliverMessage(msgs[0]));
  }

  lemma ExecDeliveries(s: System, msgs: seq<Message>)
    ensures Exec(s, Deliveries(msgs)) ==
            if msgs == [] then s else Exec(Next(s, DeliverMessage(msgs[0])), Deliveries(msgs[1..]))
  {
    if msgs != [] {
      assert Deliveries(msgs)[1..] == Deliveries(msgs[1..]);
    }
  }

  lemma {:induction false} BatchesDelivered(s: System, batches: seq<seq<Event>>, msgs: seq<Message>, i: nat)
    requires Inv(s)
    requires RestIsDispatchable(s.log, |s.client.trace|)
    requires i <= |s.client.trace| <= |s.log|
    requires AllSendable(batches) && Flatten(batches) == s.log[i..]
    requires InFlight(s.net, msgs, batches)
    ensures var t := Exec(s, Deliveries(msgs));
            && Inv(t) && t.inbox == s.inbox && t.log == s.log && t.stored == s.stored
            && t.client.trace == s.log
            && (msgs != [] ==> LastAckIs(t, |s.log| - 1))
    decreases |msgs|
  {
    ExecDeliveries(s, msgs);
    if msgs == [] {
      InvGivesPrefix(s);
      assert |s.log[i..]| == 0;
    } else {
      FirstDelivered(s, batches, msgs, i);
      var t := Next(s, DeliverMessage(msgs[0]));
      BatchesDelivered(t, batches[1..], msgs[1..], i + |batches[0]|);
      ExecDeliveries(t, msgs[1..]);
    }
  }

  // --------------------------------------------------------------------- the round

  lemma {:induction false} DeliveriesLeaveServer(s: System, msgs: seq<Message>)
    ensures var t := Exec(s, Deliveries(msgs));
            t.inbox == s.inbox && t.log == s.log && t.stored == s.stored
    decreases |msgs|
  {
    if msgs != [] {
      ExecDeliveries(s, msgs);
      DeliveriesLeaveServer(Next(s, DeliverMessage(msgs[0])), msgs[1..]);
    }
  }

  lemma RoundKeepsInv(s: System, beyond: nat)
    requires Inv(s)
    ensures var t := Round(s, beyond);
            && Inv(t) && t.log == s.log && t.inbox == s.inbox && t.stored == s.stored
            && s.client.trace <= t.client.trace
  {
    var msgs := SentMessages(s.inbox, beyond);
    ResendKeepsInv(s, beyond);
    ExecKeepsInv(ResendStep(s, beyond), Deliveries(msgs));
    DeliveriesLeaveServer(ResendStep(s, beyond), msgs);
  }

  lemma {:induction false} AcksDelivered(s: System, acks: seq<Body>, top: uint64)
    requires Inv(s)
    requires forall a :: a in acks ==> a in s.acks
    requires AckBytes(top) in acks || AtMost(top, s.inbox.lastAcked)
    requires top < |s.log|
    ensures Inv(Exec(s, AckDeliveries(acks))) && AtMost(top, Exec(s, AckDeliveries(acks)).inbox.lastAcked)
    decreases |acks|
  {
    if acks != [] {
      var t := Next(s, DeliverAck(acks[0]));
      DeliverAckKeepsInv(s, acks[0]);
      DecodeOfAckBytes(top);
      assert AckDeliveries(acks)[1..] == AckDeliveries(acks[1..]);
      AcksDelivered(t, acks[1..], top);
    }
  }

  lemma {:induction false} AcksLeaveClient(s: System, acks: seq<Body>)
    ensures var t := Exec(s, AckDeliveries(acks));
            && t.client == s.client && t.log == s.log && t.stored == s.stored
            && (s.inbox.events == [] ==> t.inbox.events == [])
    decreases |acks|
  {
    if acks != [] {
      assert AckDeliveries(acks)[1..] == AckDeliveries(acks[1..]);
      AcksLeaveClient(Next(s, DeliverAck(acks[0])), acks[1..]);
    }
  }

  lemma AckIsOlder(s: System, ack: Body)
    requires ServerInv(s) && Follows(s.client, s.log) && AckInv(s)
    requires s.log != [] && ack in s.acks && ack != AckBytes(|s.log| - 1)
    ensures DecodeAck(ack).value < |s.log| - 1
  {
    AckBytesOfDecode(ack);
    TraceWithinLog(s);
  }

  lemma NewestSurvivesOne(s: System, ack: Body)
    requires Inv(s) && s.log != [] && s.log[|s.log| - 1] in s.inbox.events
    requires ack in s.acks && ack != AckBytes(|s.log| - 1)
    ensures var t := Next(s, DeliverAck(ack));
            && Inv(t) && t.acks == s.acks && t.log == s.log
            && s.log[|s.log| - 1] in t.inbox.events
  {
    DeliverAckKeepsInv(s, ack);
    AckIsOlder(s, ack);
    DropMembers(s.inbox.events, DecodeAck(ack).value, s.log[|s.log| - 1]);
  }

  /** Only an acknowledgement of the newest event removes it. */
  lemma {:induction false} NewestSurvives(s: System, acks: seq<Body>)
    requires Inv(s) && s.log != [] && s.log[|s.log| - 1] in s.inbox.events
    requires forall a :: a in acks ==> a in s.acks && a != AckBytes(|s.log| - 1)
    ensures Exec(s, AckDeliveries(acks)).inbox.events != []
    decreases |acks|
  {
    if acks != [] {
      NewestSurvivesOne(s, acks[0]);
      assert forall a :: a in acks[1..] ==> a in acks;
      assert AckDeliveries(acks)[1..] == AckDeliveries(acks[1..]);
      NewestSurvives(Next(s, DeliverAck(acks[0])), acks[1..]);
    }
  }

  lemma AllAcknowledged(s: System)
    requires ServerInv(s) && |s.log| > 0 && AtMost(|s.log| - 1, s.inbox.lastAcked)
    ensures s.inbox.events == []
  {
    assert |s.inbox.events| > 0 ==> !AtMost(s.inbox.events[0].seqNum, s.inbox.lastAcked);
  }

  /** The inbox is a gap-free run up to the newest event and starts no later than the
      client's next number. */
  ghost predicate GapFree(s: System, lo: nat) {
    lo <= |s.client.trace| && lo <= |s.log| && s.inbox.events == s.log[lo..]
  }

  lemma NewestIsLast(s: System, lo: nat)
    requires ServerInv(s) && GapFree(s, lo) && lo < |s.log|
    ensures s.log[|s.log| - 1] in s.inbox.events
  {
    assert s.inbox.events[|s.log| - 1 - lo] == s.log[|s.log| - 1];
  }

  /** The client never gets past an event it cannot dispatch. */
  lemma StopsBefore(s: System, k: nat)
    requires Inv(s) && k < |s.log| && !Dispatchable(s.log[k])
    ensures |s.client.trace| <= k
  {
    InvGivesPrefix(s);
    assert forall i :: 0 <= i < |s.client.trace| ==> Dispatchable(s.log[i]);
  }

  lemma AckIsBehindClient(s: System, n: uint64)
    requires Inv(s) && AckBytes(n) in s.acks
    ensures n < |s.client.trace|
  {
    DecodeOfAckBytes(n);
  }

  /** The round brings the client up to date. */
  ghost predicate Deliverable(s: System, beyond: nat) {
    RestIsDispatchable(s.log, |s.client.trace|) && Resendable(GREETING + beyond, s.inbox.events)
  }

  lemma PendingAreSent(s: System, beyond: nat)
    requires Resendable(GREETING + beyond, s.inbox.events)
    ensures InFlight(ResendStep(s, beyond).net, PendingMessages(s.inbox), SplitPending(s.inbox.events).batches)
  {
    var msgs := PendingMessages(s.inbox);
    var batches := SplitPending(s.inbox.events).batches;
    forall k | 0 <= k < |msgs|
      ensures msgs[k] in ResendStep(s, beyond).net && msgs[k].BatchMessage? && Carried(msgs[k]) == Success(batches[k])
    {
      PendingCarryInbox(s.inbox, k);
    }
  }

  lemma RoundReachesNewest(s: System, beyond: nat, lo: nat)
    requires Inv(s) && GapFree(s, lo) && Deliverable(s, beyond)
    ensures var t := Round(s, beyond);
            && t.client.trace == s.log
            && (s.inbox.events != [] ==> LastAckIs(t, |s.log| - 1))
  {
    SplitKeepsEvents(s.inbox.events);
    ResendKeepsInv(s, beyond);
    InvGivesPrefix(s);
    PendingAreSent(s, beyond);
    BatchesDelivered(
      ResendStep(s, beyond), SplitPending(s.inbox.events).batches, PendingMessages(s.inbox), lo);
  }

  lemma AckedNewestEmpties(s: System, acks: seq<Body>)
    requires Inv(s) && s.log != [] && AckBytes(|s.log| - 1) in acks
    requires forall a :: a in acks ==> a in s.acks
    ensures Exec(s, AckDeliveries(acks)).inbox.events == []
  {
    AcksLeaveClient(s, acks);
    AcksDelivered(s, acks, |s.log| - 1);
    AllAcknowledged(Exec(s, AckDeliveries(acks)));
  }

  lemma UnackedNewestStays(s: System, lo: nat, acks: seq<Body>)
    requires Inv(s) && GapFree(s, lo) && lo < |s.log| && AckBytes(|s.log| - 1) !in acks
    requires forall a :: a in acks ==> a in s.acks
    ensures Exec(s, AckDeliveries(acks)).inbox.events != []
  {
    NewestIsLast(s, lo);
    NewestSurvives(s, acks);
  }

  /** An acknowledgement of the newest event empties a gap-free inbox, and no other does. */
  lemma AcksEmptyInbox(s: System, lo: nat, acks: seq<Body>)
    requires Inv(s) && GapFree(s, lo)
    requires forall a :: a in acks ==> a in s.acks
    ensures Exec(s, AckDeliveries(acks)).inbox.events == [] <==>
            s.inbox.events == [] || (s.log != [] && AckBytes(|s.log| - 1) in acks)
  {
    if s.inbox.events == [] {
      AcksLeaveClient(s, acks);
    } else if AckBytes(|s.log| - 1) in acks {
      AckedNewestEmpties(s, acks);
    } else {
      UnackedNewestStays(s, lo, acks);
    }
  }

  lemma RoundOfNothing(s: System, beyond: nat)
    requires !Resendable(GREETING + beyond, s.inbox.events)
    ensures Round(s, beyond) == s
  {
    assert ResendStep(s, beyond).net == s.net;
  }

  /** An event that cannot be dispatched ends the client's progress. */
  lemma RoundStopsShort(s: System, beyond: nat)
    requires Inv(s) && !RestIsDispatchable(s.log, |s.client.trace|)
    ensures |Round(s, beyond).client.trace| < |s.log| && |s.client.trace| < |s.log|
  {
    RoundKeepsInv(s, beyond);
    var k :| |s.client.trace| <= k < |s.log| && !Dispatchable(s.log[k]);
    StopsBefore(Round(s, beyond), k);
  }

  lemma NewestNotAcked(s: System, acks: seq<Body>)
    requires Inv(s) && |s.client.trace| < |s.log|
    requires forall a :: a in acks ==> a in s.acks
    ensures AckBytes(|s.log| - 1) !in acks
  {
    if AckBytes(|s.log| - 1) in acks {
      AckIsBehindClient(s, |s.log| - 1);
    }
  }

  lemma RoundOfRefused(s: System, beyond: nat, acks: seq<Body>)
    requires Inv(s) && !RestIsDispatchable(s.log, |s.client.trace|)
    requires forall a :: a in acks ==> a in Round(s, beyond).acks
    ensures AckBytes(|s.log| - 1) !in acks
  {
    RoundKeepsInv(s, beyond);
    RoundStopsShort(s, beyond);
    NewestNotAcked(Round(s, beyond), acks);
  }

  lemma RoundBringsLog(s: System, beyond: nat, lo: nat)
    requires Inv(s) && GapFree(s, lo)
    ensures Round(s, beyond).client.trace == s.log <==> Deliverable(s, beyond) || s.client.trace == s.log
  {
    if Deliverable(s, beyond) {
      RoundReachesNewest(s, beyond, lo);
    } else if RestIsDispatchable(s.log, |s.client.trace|) {
      RoundOfNothing(s, beyond);
    } else {
      RoundStopsShort(s, beyond);
    }
  }

  lemma RoundAcksNewest(s: System, beyond: nat, lo: nat, acks: seq<Body>)
    requires Inv(s) && GapFree(s, lo) && s.inbox.events != [] && Deliverable(s, beyond)
    requires forall n: uint64 :: LastAckIs(Round(s, beyond), n) ==> AckBytes(n) in acks
    ensures AckBytes(|s.log| - 1) in acks
  {
    RoundReachesNewest(s, beyond, lo);
  }

  lemma AcksOfNothing(s: System, beyond: nat, acks: seq<Body>)
    requires Inv(s) && s.log != [] && !Resendable(GREETING + beyond, s.inbox.events)
    requires forall a :: a in acks ==> a in Round(s, beyond).acks
    ensures AckBytes(|s.log| - 1) in acks ==> s.client.trace == s.log
  {
    RoundOfNothing(s, beyond);
    if AckBytes(|s.log| - 1) in acks {
      AckIsBehindClient(s, |s.log| - 1);
      InvGivesPrefix(s);
    }
  }

  /** What the acknowledgements at hand after the round must include. */
  lemma NewestIsAcknowledged(s: System, beyond: nat, lo: nat, acks: seq<Body>)
    requires Inv(s) && GapFree(s, lo) && s.inbox.events != []
    requires forall a :: a in acks ==> a in Round(s, beyond).acks
    requires forall n: uint64 :: LastAckIs(Round(s, beyond), n) ==> AckBytes(n) in acks
    ensures AckBytes(|s.log| - 1) in acks <==>
            Deliverable(s, beyond) || (s.client.trace == s.log && AckBytes(|s.log| - 1) in acks)
  {
    if Deliverable(s, beyond) {
      RoundAcksNewest(s, beyond, lo, acks);
    } else if RestIsDispatchable(s.log, |s.client.trace|) {
      AcksOfNothing(s, beyond, acks);
    } else {
      RoundOfRefused(s, beyond, acks);
    }
  }

  lemma RoundEmptiesInbox(s: System, beyond: nat, lo: nat, acks: seq<Body>)
    requires Inv(s) && GapFree(s, lo)
    requires forall a :: a in acks ==> a in Round(s, beyond).acks
    requires forall n: uint64 :: LastAckIs(Round(s, beyond), n) ==> AckBytes(n) in acks
    ensures Exec(Round(s, beyond), AckDeliveries(acks)).inbox.events == [] <==>
            || s.inbox.events == []
            || Deliverable(s, beyond)
            || (s.log != [] && s.client.trace == s.log && AckBytes(|s.log| - 1) in acks)
  {
    RoundKeepsInv(s, beyond);
    if s.inbox.events == [] {
      AcksLeaveClient(Round(s, beyond), acks);
    } else {
      NewestIsAcknowledged(s, beyond, lo, acks);
      AcksEmptyInbox(Round(s, beyond), lo, acks);
    }
  }

  /** One re-send of a gap-free inbox of which nothing is lost on the way. Whatever the
      client had buffered, it then has the whole log if and only if it had it before or
      every event it was waiting for can be dispatched and the output queue takes the
      backlog. Deliveries of acknowledgements that include the last one sent empty the
      inbox if and only if this holds or the newest event was acknowledged already. */
  lemma OneRoundConverges(s: System, beyond: nat, lo: nat, acks: seq<Body>)
    requires Inv(s) && GapFree(s, lo)
    requires forall a :: a in acks ==> a in Round(s, beyond).acks
    requires forall n: uint64 :: LastAckIs(Round(s, beyond), n) ==> AckBytes(n) in acks
    ensures Round(s, beyond).client.trace == s.log <==> Deliverable(s, beyond) || s.client.trace == s.log
    ensures Exec(Round(s, beyond), AckDeliveries(acks)).inbox.events == [] <==>
            || s.inbox.events == []
            || Deliverable(s, beyond)
            || (s.log != [] && s.client.trace == s.log && AckBytes(|s.log| - 1) in acks)
  {
    RoundBringsLog(s, beyond, lo);
    RoundEmptiesInbox(s, beyond, lo, acks);
  }
}
