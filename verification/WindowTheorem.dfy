/** Whole runs of the reorder window over a fixed log. */
module WindowTheorem {
  import opened Core
  import opened ReorderWindow

  /** Numbered from 0 without gaps, and every event can be dispatched. */
  ghost predicate IsLog(log: seq<Event>) {
    forall i :: 0 <= i < |log| ==> log[i].seqNum == i && log[i].seqNum != NO_SEQ && Dispatchable(log[i])
  }

  function Run(r: Receiver, arrivals: seq<Event>): Receiver
    decreases |arrivals|
  {
    if arrivals == [] then r else Run(Process(r, arrivals[0]).receiver, arrivals[1..])
  }

  ghost predicate NoneRefused(r: Receiver, arrivals: seq<Event>)
    decreases |arrivals|
  {
    arrivals != [] ==>
      var o := Process(r, arrivals[0]);
      o.status == Ok && NoneRefused(o.receiver, arrivals[1..])
  }

  /** No event arrives more than 256 past the next expected one. */
  ghost predicate InWindow(r: Receiver, arrivals: seq<Event>)
    decreases |arrivals|
  {
    arrivals != [] ==>
      && arrivals[0].seqNum <= |r.trace| + WINDOW
      && InWindow(Process(r, arrivals[0]).receiver, arrivals[1..])
  }

  ghost predicate TakenFrom(r: Receiver, log: seq<Event>) {
    forall e :: e in Accepted(r) ==> e in log
  }

  ghost predicate Near(r: Receiver) {
    forall e :: e in Accepted(r) ==> e.seqNum <= |r.trace| + WINDOW
  }

  lemma InLog(log: seq<Event>, e: Event)
    requires IsLog(log) && e in log
    ensures e.seqNum < |log| && log[e.seqNum] == e && Dispatchable(e) && e.seqNum != NO_SEQ
  {
  }

  lemma NoClashInWindow(r: Receiver, log: seq<Event>, e: Event)
    requires Valid(r) && IsLog(log) && TakenFrom(r, log) && Near(r)
    requires e in log && |r.trace| < e.seqNum <= |r.trace| + WINDOW
    ensures !Clashes(Accepted(r), |r.trace|, e)
  {
    var n := |r.trace|;
    forall b | b in Accepted(r) && b.seqNum >= n && b.seqNum % WINDOW == e.seqNum % WINDOW
      ensures b.seqNum == e.seqNum
    {
      WaitsInItsSlot(r, b);
      InLog(log, b);
      assert b.seqNum != n;
    }
  }

  lemma StepInWindow(r: Receiver, log: seq<Event>, e: Event)
    requires Valid(r) && IsLog(log) && TakenFrom(r, log) && Near(r)
    requires e in log && e.seqNum <= |r.trace| + WINDOW
    ensures var o := Process(r, e);
            && o.status == Ok
            && Valid(o.receiver) && TakenFrom(o.receiver, log) && Near(o.receiver)
            && Accepted(o.receiver) == Accepted(r) + iset{e}
  {
    InLog(log, e);
    AcceptedAgree(r, e);
    ProcessRefinesSet(r, e);
    var t := Process(r, e).receiver;
    if e.seqNum > |r.trace| {
      NoClashInWindow(r, log, e);
    } else if e.seqNum < |r.trace| {
      assert r.trace[e.seqNum] in Accepted(r);
      InLog(log, r.trace[e.seqNum]);
    }
    forall b | b in Accepted(t) && b.seqNum == |t.trace| ensures false {
      InLog(log, b);
      WaitsInItsSlot(t, b);
    }
  }

  lemma {:induction false} RunInWindow(r: Receiver, log: seq<Event>, arrivals: seq<Event>)
    requires Valid(r) && IsLog(log) && TakenFrom(r, log) && Near(r)
    requires forall e :: e in arrivals ==> e in log
    requires InWindow(r, arrivals)
    ensures NoneRefused(r, arrivals)
    ensures var t := Run(r, arrivals);
            && Valid(t) && TakenFrom(t, log)
            && (forall e :: e in Accepted(t) <==> e in Accepted(r) || e in arrivals)
    decreases |arrivals|
  {
    if arrivals != [] {
      StepInWindow(r, log, arrivals[0]);
      RunInWindow(Process(r, arrivals[0]).receiver, log, arrivals[1..]);
      assert arrivals == [arrivals[0]] + arrivals[1..];
    }
  }

  lemma BufferedIsAccepted(r: Receiver)
    requires Valid(r)
    ensures forall i :: 0 <= i < WINDOW && r.slots[i].Some? ==>
              r.slots[i].value in Accepted(r) && r.slots[i].value.seqNum >= |r.trace|
  {
    forall i | 0 <= i < WINDOW && r.slots[i].Some?
      ensures r.slots[i].value in Accepted(r) && r.slots[i].value.seqNum >= |r.trace|
    {
      assert BelongsIn(r, r.slots[i].value, i) && Some(r.slots[i].value) in r.slots;
    }
  }

  /** Any arrival order of the events of a log, with any duplicates, that stays in the
      window is accepted throughout, dispatches each event exactly once and in order,
      and leaves no slot occupied. */
  lemma WindowDelivers(log: seq<Event>, arrivals: seq<Event>)
    requires IsLog(log)
    requires forall e :: e in arrivals <==> e in log
    requires InWindow(FRESH, arrivals)
    ensures NoneRefused(FRESH, arrivals)
    ensures Run(FRESH, arrivals).trace == log
    ensures Run(FRESH, arrivals).slots == FRESH.slots
  {
    FreshIsValid();
    RunInWindow(FRESH, log, arrivals);
    var t := Run(FRESH, arrivals);
    assert forall e :: e in Accepted(t) <==> e in log;
    forall k: nat | k < |log| ensures HasDispatchable(Accepted(t), k) {
      assert log[k] in Accepted(t);
    }
    DispatchedIsFrontier(t);
    FrontierIsUnique(Accepted(t), |t.trace|, |log|);
    forall k | 0 <= k < |log| ensures t.trace[k] == log[k] {
      assert t.trace[k] in Accepted(t) && log[k] in Accepted(t);
    }
    BufferedIsAccepted(t);
    assert forall i :: 0 <= i < WINDOW && t.slots[i].Some? ==> t.slots[i].value in log;
    assert forall e :: e in log ==> e.seqNum < |t.trace|;
  }

  /** The bound is tight: 257 past the next expected number, an event of the same log
      meets an occupied slot and is refused. */
  lemma WindowIsTight()
    ensures var e, f := Event(1, 1, []), Event(257, 1, []);
            && Process(FRESH, e).status == Ok
            && f.seqNum == |FRESH.trace| + WINDOW + 1
            && Process(Process(FRESH, e).receiver, f).status == Invalid
            && Process(Process(FRESH, e).receiver, f).receiver == Process(FRESH, e).receiver
  {
    assert FRESH.slots[1] == None;
  }
}
