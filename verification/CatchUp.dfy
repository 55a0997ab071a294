/** When a client can still catch up: some continuation in which nothing new is queued
    brings it the whole log. */
module CatchUp {
  import opened Core
  import opened Codec
  import opened Backlog
  import opened Batching
  import opened ReorderWindow
  import opened Protocol
  import opened Stalls
  import opened WireBatches
  import opened Convergence
  import opened Reaching
  import opened Shrinking

  predicate QueuesNothing(steps: seq<Step>) {
    forall i :: 0 <= i < |steps| ==> !steps[i].QueueOnline? && !steps[i].QueueOffline?
  }

  ghost predicate CanCatchUp(s: System) {
    exists steps :: QueuesNothing(steps) && Exec(s, steps).client.trace == s.log
  }

  lemma {:induction false} LogStays(s: System, steps: seq<Step>)
    requires QueuesNothing(steps)
    ensures Exec(s, steps).log == s.log
    decreases |steps|
  {
    if steps != [] {
      LogStays(Next(s, steps[0]), steps[1..]);
    }
  }

  lemma OnlyDispatchable(s: System, steps: seq<Step>)
    requires Inv(s) && QueuesNothing(steps) && Exec(s, steps).client.trace == s.log
    ensures RestIsDispatchable(s.log, |s.client.trace|)
  {
    LogStays(s, steps);
    ExecKeepsInv(s, steps);
    var t := Exec(s, steps);
    assert forall i :: 0 <= i < |t.client.trace| ==> Dispatchable(t.client.trace[i]);
  }

  // ------------------------------------------------------------------- catching up

  lemma {:induction false} PartHolding<T>(parts: seq<seq<T>>, x: T) returns (i: nat)
    requires x in Flatten(parts)
    ensures i < |parts| && x in parts[i]
  {
    if x in parts[0] {
      i := 0;
    } else {
      i := PartHolding(parts[1..], x);
      i := i + 1;
    }
  }

  lemma ResentIsOnWire(s: System, e: Event)
    requires e in s.inbox.events && Resendable(GREETING, s.inbox.events)
    ensures OnWire(ResendStep(s, 0), e.seqNum)
  {
    SplitKeepsEvents(s.inbox.events);
    var i := PartHolding(SplitPending(s.inbox.events).batches, e);
    PendingCarryInbox(s.inbox, i);
    var m := PendingMessages(s.inbox)[i];
    assert m in ResendStep(s, 0).net && e in CarriedBy(m);
  }

  lemma OnlyDeliversQueuesNothing(steps: seq<Step>)
    requires OnlyDelivers(steps)
    ensures QueuesNothing(steps) && QueuesNothing([Resend(0)] + steps)
  {
  }

  /** With everything at hand, deliveries are enough. */
  lemma CatchUpByDeliveries(s: System) returns (steps: seq<Step>)
    requires Inv(s) && GoodBatches(s) && RestIsDispatchable(s.log, |s.client.trace|)
    requires AllAtHand(s, |s.log|)
    ensures OnlyDelivers(steps) && Exec(s, steps).client.trace == s.log
  {
    steps := ReachSteps(s, |s.log|);
    DeliveriesLeave(s, steps);
    InvGivesPrefix(Exec(s, steps));
  }

  /** A re-send puts every stored event the client lacks at hand. */
  lemma ResendBringsAll(s: System)
    requires Inv(s) && GoodBatches(s) && Resendable(GREETING, s.inbox.events)
    requires forall k :: Missing(s, k) ==> k in s.stored
    ensures var t := Next(s, Resend(0));
            Inv(t) && GoodBatches(t) && t.client == s.client && t.log == s.log && AllAtHand(t, |s.log|)
  {
    var t := Next(s, Resend(0));
    NextKeepsInv(s, Resend(0));
    ResendKeepsBatches(s, 0);
    forall k | |s.client.trace| <= k < |s.log| ensures AtHand(t, k) {
      if OnWire(s, k) {
        assert OnWire(t, k);
      } else if !Buffered(s, k) {
        assert Missing(s, k);
        assert s.log[k] in s.inbox.events;
        ResentIsOnWire(s, s.log[k]);
      }
    }
  }

  /** With a backlog that can be re-sent, a re-send and deliveries are. */
  lemma CatchUpByResend(s: System) returns (steps: seq<Step>)
    requires Inv(s) && GoodBatches(s) && RestIsDispatchable(s.log, |s.client.trace|)
    requires Resendable(GREETING, s.inbox.events)
    requires forall k :: Missing(s, k) ==> k in s.stored
    ensures QueuesNothing(steps) && Exec(s, steps).client.trace == s.log
  {
    ResendBringsAll(s);
    var rest := CatchUpByDeliveries(Next(s, Resend(0)));
    OnlyDeliversQueuesNothing(rest);
    steps := [Resend(0)] + rest;
    assert steps[1..] == rest;
  }

  lemma MissingStaysStored(s: System, t: System)
    requires forall k :: Missing(s, k) ==> k in s.stored
    requires t.net == s.net && t.log == s.log && t.stored == s.stored
    requires s.client.trace <= t.client.trace && Accepted(s.client) <= Accepted(t.client)
    ensures forall k :: Missing(t, k) ==> k in t.stored
  {
    forall k | Missing(t, k) ensures k in t.stored {
      if AtHand(s, k) {
        StaysAtHand(s, t, k);
      } else {
        assert Missing(s, k);
      }
    }
  }

  lemma CatchesUpOnceShrunk(s: System)
    requires Inv(s) && GoodBatches(s) && RestIsDispatchable(s.log, |s.client.trace|)
    requires forall k :: Missing(s, k) ==> k in s.stored
    requires CanShrink(s)
    ensures CanCatchUp(s)
  {
    var deliveries :| OnlyDelivers(deliveries) && Resendable(GREETING, Exec(s, deliveries).inbox.events);
    var t := Exec(s, deliveries);
    DeliveriesLeave(s, deliveries);
    MissingStaysStored(s, t);
    var steps := CatchUpByResend(t);
    ExecAppend(s, deliveries, steps);
    OnlyDeliversQueuesNothing(deliveries);
    assert QueuesNothing(deliveries + steps);
  }

  // ------------------------------------------------------------- nothing less will do

  /** `u` is `s` with nothing lost. */
  ghost predicate Covers(u: System, s: System) {
    && u.client == s.client && u.inbox == s.inbox && u.log == s.log && u.stored == s.stored
    && s.net <= u.net && s.acks <= u.acks
  }

  /** A step that re-sends nothing, taken or skipped where nothing was lost. */
  lemma StepCovered(u: System, s: System, step: Step) returns (steps: seq<Step>)
    requires Covers(u, s) && !step.QueueOnline? && !step.QueueOffline?
    requires !Resendable(GREETING, s.inbox.events)
    ensures OnlyDelivers(steps) && Covers(Exec(u, steps), Next(s, step))
  {
    if (step.DeliverMessage? && step.msg in s.net) || (step.DeliverAck? && step.ack in s.acks) {
      ExecOne(u, step);
      steps := [step];
    } else {
      steps := [];
      if step.Resend? {
        assert ResendStep(s, step.beyond).net == s.net;
      }
    }
  }

  lemma MissingStays(s: System, step: Step, k: nat)
    requires Inv(s) && !OnWire(s, k) && !Buffered(s, k)
    requires !step.QueueOnline? && !step.QueueOffline? && !Resendable(GREETING, s.inbox.events)
    ensures !OnWire(Next(s, step), k) && !Buffered(Next(s, step), k)
  {
    if step.DeliverMessage? && step.msg in s.net {
      DeliveryBringsNone(s, step.msg, k);
    }
  }

  /** A run that catches up on a missing event re-sends at some point, and up to there
      only its deliveries matter. */
  lemma {:induction false} ShrinkSteps(u: System, s: System, steps: seq<Step>, k: nat) returns (deliveries: seq<Step>)
    requires Inv(s) && Covers(u, s) && QueuesNothing(steps)
    requires k < |s.log| && !OnWire(s, k) && !Buffered(s, k)
    requires |Exec(s, steps).client.trace| > k
    ensures OnlyDelivers(deliveries) && Resendable(GREETING, Exec(u, deliveries).inbox.events)
    decreases |steps|
  {
    if Resendable(GREETING, s.inbox.events) {
      deliveries := [];
    } else {
      StopsAtMissing(s, k);
      var step := steps[0];
      NextKeepsInv(s, step);
      MissingStays(s, step, k);
      var first := StepCovered(u, s, step);
      var rest := ShrinkSteps(Exec(u, first), Next(s, step), steps[1..], k);
      deliveries := first + rest;
      ExecAppend(u, first, rest);
    }
  }

  lemma CatchUpNeedsShrinking(s: System, k: nat)
    requires Inv(s) && CanCatchUp(s) && Missing(s, k)
    ensures k in s.stored && CanShrink(s)
  {
    var steps :| QueuesNothing(steps) && Exec(s, steps).client.trace == s.log;
    if k !in s.stored {
      LostStallsForever(s, steps, k);
    } else {
      var deliveries := ShrinkSteps(s, s, steps, k);
    }
  }

  // --------------------------------------------------------------- the exact condition

  /** What the state must say for the client to catch up: every event it lacks can be
      dispatched; those that are neither on the wire nor in its ring were all stored;
      and if there are any, the backlog is taken as it stands, or with an acknowledgement
      under way, or from the first of them on, given a message in front of it. */
  ghost predicate Supplied(s: System) {
    && RestIsDispatchable(s.log, |s.client.trace|)
    && (forall k :: Missing(s, k) ==> k in s.stored)
    && (forall n :: FirstMissing(s, n) ==> Shrinks(s, n))
  }

  lemma SuppliedIsEnough(s: System)
    requires Inv(s) && GoodBatches(s) && Supplied(s)
    ensures CanCatchUp(s)
  {
    if k :| Missing(s, k) {
      var n := FirstOf(s, k);
      CanShrinkIff(s, n);
      CatchesUpOnceShrunk(s);
    } else {
      forall k | |s.client.trace| <= k < |s.log| ensures AtHand(s, k) {
        assert !Missing(s, k);
      }
      var steps := CatchUpByDeliveries(s);
      OnlyDeliversQueuesNothing(steps);
    }
  }

  lemma SuppliedIsNeeded(s: System)
    requires Inv(s) && GoodBatches(s) && CanCatchUp(s)
    ensures Supplied(s)
  {
    var steps :| QueuesNothing(steps) && Exec(s, steps).client.trace == s.log;
    OnlyDispatchable(s, steps);
    forall k | Missing(s, k) ensures k in s.stored && CanShrink(s) {
      CatchUpNeedsShrinking(s, k);
    }
    forall n | FirstMissing(s, n) ensures Shrinks(s, n) {
      CanShrinkIff(s, n);
    }
  }

  /** In every state the client can catch up if and only if the state supplies it. */
  lemma CatchesUpExactly(s: System)
    requires Inv(s) && GoodBatches(s)
    ensures CanCatchUp(s) <==> Supplied(s)
  {
    if Supplied(s) {
      SuppliedIsEnough(s);
    }
    if CanCatchUp(s) {
      SuppliedIsNeeded(s);
    }
  }

  lemma BufferedIsLogged(s: System, k: nat)
    requires Inv(s) && k < |s.log|
    ensures Buffered(s, k) <==> s.log[k] in Accepted(s.client)
  {
  }

  /** With a backlog that can be re-sent: the client can catch up if and only if every
      event it lacks can be dispatched and was stored, or its message is on the wire, or
      it is in the ring. */
  lemma CatchesUpWithBacklog(s: System)
    requires Inv(s) && GoodBatches(s) && Resendable(GREETING, s.inbox.events)
    ensures CanCatchUp(s) <==>
            forall k :: |s.client.trace| <= k < |s.log| ==>
              && Dispatchable(s.log[k])
              && (|| k in s.stored
                  || EventMessage(EventBytes(s.log[k])) in s.net
                  || s.log[k] in Accepted(s.client))
  {
    CatchesUpExactly(s);
    forall k | |s.client.trace| <= k < |s.log|
      ensures AtHand(s, k) || k in s.stored <==>
              (|| k in s.stored
               || EventMessage(EventBytes(s.log[k])) in s.net
               || s.log[k] in Accepted(s.client))
    {
      BufferedIsLogged(s, k);
      if k !in s.stored {
        OnWireUnstored(s, k);
      }
    }
    assert forall k :: |s.client.trace| <= k < |s.log| ==> (Missing(s, k) <==> !AtHand(s, k));
  }
}
