/** Events too large for a batch element. The inbox stores them all the same, but
    stored events reach the wire in batches only. */
module Oversized {
  import opened Core
  import opened Codec
  import opened Backlog
  import opened Protocol
  import opened Stalls

  /** Event `k` was stored although it does not fit an element. */
  ghost predicate StoredOversized(s: System, k: nat) {
    k in s.stored && k < |s.log| && !FitsElement(s.log[k])
  }

  /** A new number is not that of any event on the wire or at the client. */
  lemma NumberIsNew(s: System)
    requires Inv(s) && s.inbox.nextSeq != NO_SEQ
    ensures !OnWire(s, |s.log|) && !Buffered(s, |s.log|)
  {
    forall m, e | m in s.net && e in CarriedBy(m) ensures e.seqNum != |s.log| {
      assert GoodMessage(s.log, m);
    }
  }

  lemma OversizedBlocksEnd(events: seq<Event>, n: nat, e: Event)
    requires e in events && e.seqNum >= n && !FitsElement(e)
    ensures !Resendable(GREETING, From(events, n)) && !AllFit(events)
  {
    InFrom(events, n, e);
    var i :| 0 <= i < |From(events, n)| && From(events, n)[i] == e;
    var j :| 0 <= j < |events| && events[j] == e;
  }

  /** The step that stores it has a number no message carries and no slot holds. */
  lemma NewOversizedIsLost(s: System, step: Step, k: nat)
    requires Inv(s) && k !in s.stored && StoredOversized(Next(s, step), k)
    ensures Lost(Next(s, step), k)
  {
    var t := Next(s, step);
    assert step.QueueOffline? && k == |s.log|;
    NextKeepsInv(s, step);
    InvGivesPrefix(s);
    NumberIsNew(s);
    assert t.inbox.events[|s.inbox.events|] == t.log[k];
    OversizedBlocksEnd(t.inbox.events, k, t.log[k]);
  }

  /** In every run such an event is lost from the start. */
  lemma {:induction false} OversizedIsLost(steps: seq<Step>, k: nat)
    requires StoredOversized(Exec(INIT, steps), k)
    ensures Lost(Exec(INIT, steps), k)
    decreases |steps|
  {
    var n := |steps| - 1;
    if steps != [] {
      var init, last := steps[..n], steps[n];
      assert steps == init + [last];
      ExecAppend(INIT, init, [last]);
      var s := Exec(INIT, init);
      ExecOne(s, last);
      InitInv();
      ExecKeepsInv(INIT, init);
      NextKeepsInv(s, last);
      if k in s.stored {
        OversizedIsLost(init, k);
        NextKeepsLost(s, last, k);
      } else {
        NewOversizedIsLost(s, last, k);
      }
    }
  }

  lemma NothingIsResent(t: System, beyond: nat, k: nat)
    requires Inv(t) && StoredOversized(t, k) && |t.client.trace| <= k
    ensures t.log[k] in t.inbox.events && ResendStep(t, beyond) == t
  {
    assert t.log[k] in t.inbox.events;
    OversizedBlocksEnd(t.inbox.events, 0, t.log[k]);
    assert ResendStep(t, beyond).net == t.net;
  }

  /** In every run: an event that was stored and does not fit a batch element stays in
      the inbox, the client never gets past it, and from then on no re-send brings
      anything to the wire, whatever else is stored. */
  lemma OversizedIsNeverDelivered(steps: seq<Step>, more: seq<Step>, beyond: nat, k: nat)
    requires StoredOversized(Exec(INIT, steps), k)
    ensures var t := Exec(Exec(INIT, steps), more);
            && k < |t.log| && t.log[k] in t.inbox.events
            && |t.client.trace| <= k
            && ResendStep(t, beyond) == t
  {
    var s := Exec(INIT, steps);
    InitInv();
    ExecKeepsInv(INIT, steps);
    ExecKeepsInv(s, more);
    OversizedIsLost(steps, k);
    LostStallsForever(s, more, k);
    NothingIsResent(Exec(s, more), beyond, k);
  }

  /** A stored event that fits is lost with it, unless it went out before. */
  lemma OversizedTakesOthersAlong(steps: seq<Step>, k: nat, j: nat)
    requires StoredOversized(Exec(INIT, steps), k)
    requires var s := Exec(INIT, steps); |s.client.trace| <= j < k && !OnWire(s, j) && !Buffered(s, j)
    ensures Lost(Exec(INIT, steps), j)
  {
    var s := Exec(INIT, steps);
    InitInv();
    ExecKeepsInv(INIT, steps);
    OversizedIsLost(steps, k);
    NothingIsResent(s, 0, k);
    OversizedBlocksEnd(s.inbox.events, j, s.log[k]);
  }

  /** Storing one such event is possible. */
  lemma OversizedCanBeStored(kind: uint32, data: EventData)
    requires |data| > U16_MAX - EVENT_FIXED
    ensures StoredOversized(Exec(INIT, [QueueOffline(kind, data)]), 0)
  {
    ExecOne(INIT, QueueOffline(kind, data));
  }
}
