/** What the batches on the wire look like in every run. */
module WireBatches {
  import opened Core
  import opened Codec
  import opened Batching
  import opened EventInbox
  import opened ReorderWindow
  import opened Protocol
  import opened Stalls

  ghost predicate Holds(events: seq<Event>, k: nat) {
    exists i :: 0 <= i < |events| && events[i].seqNum == k
  }

  /** No stored number between two of theirs is left out. */
  ghost predicate SkipsNone(events: seq<Event>, stored: set<nat>) {
    forall i, j, k: nat :: 0 <= i < j < |events| && events[i].seqNum < k < events[j].seqNum && k in stored ==>
      Holds(events, k)
  }

  /** Batches carry stored events only, in increasing order and without leaving one out. */
  ghost predicate GoodBatch(m: Message, stored: set<nat>) {
    m.BatchMessage? && Carried(m).Success? ==>
      && Increasing(Carried(m).value)
      && (forall e :: e in Carried(m).value ==> e.seqNum in stored)
      && SkipsNone(Carried(m).value, stored)
  }

  ghost predicate GoodBatches(s: System) {
    forall m :: m in s.net ==> GoodBatch(m, s.stored)
  }

  lemma {:induction false} PartIsSlice<T>(parts: seq<seq<T>>, i: nat) returns (a: nat)
    requires i < |parts|
    ensures a + |parts[i]| <= |Flatten(parts)| && parts[i] == Flatten(parts)[a..a + |parts[i]|]
  {
    if i == 0 {
      a := 0;
    } else {
      var b := PartIsSlice(parts[1..], i - 1);
      a := |parts[0]| + b;
      assert Flatten(parts)[|parts[0]|..] == Flatten(parts[1..]);
    }
  }

  /** The inbox leaves out no stored number above one it holds. */
  lemma InboxSkipsNone(s: System, a: nat, b: nat)
    requires ServerInv(s) && a <= b <= |s.inbox.events|
    ensures SkipsNone(s.inbox.events[a..b], s.stored)
  {
    var all, events := s.inbox.events, s.inbox.events[a..b];
    forall i, j, k: nat | 0 <= i < j < |events| && events[i].seqNum < k < events[j].seqNum && k in s.stored
      ensures Holds(events, k)
    {
      assert all[a + i] == events[i] && all[a + j] == events[j];
      assert s.log[k] in all;
      var x :| 0 <= x < |all| && all[x] == s.log[k];
      assert events[x - a].seqNum == k;
    }
  }

  lemma InboxIsStored(s: System, a: nat, b: nat)
    requires ServerInv(s) && a <= b <= |s.inbox.events|
    ensures Increasing(s.inbox.events[a..b])
    ensures forall e :: e in s.inbox.events[a..b] ==> e.seqNum in s.stored
  {
    forall e | e in s.inbox.events[a..b] ensures e.seqNum in s.stored {
      assert e in s.inbox.events;
    }
  }

  lemma PrefixSlice<T>(prefix: seq<T>, all: seq<T>, a: nat, b: nat)
    requires prefix <= all && a <= b <= |prefix|
    ensures prefix[a..b] == all[a..b]
  {
  }

  /** A batch of the split is a slice of what is split. */
  lemma BatchIsSlice(events: seq<Event>, i: nat) returns (a: nat, b: nat)
    requires i < |SplitPending(events).batches|
    ensures a <= b <= |events| && SplitPending(events).batches[i] == events[a..b]
  {
    SplitKeepsEvents(events);
    var batches := SplitPending(events).batches;
    a := PartIsSlice(batches, i);
    b := a + |batches[i]|;
    PrefixSlice(Flatten(batches), events, a, b);
  }

  lemma PendingIsGood(s: System, i: nat)
    requires ServerInv(s) && i < |PendingMessages(s.inbox)|
    ensures GoodBatch(PendingMessages(s.inbox)[i], s.stored)
  {
    PendingCarryInbox(s.inbox, i);
    var a, b := BatchIsSlice(s.inbox.events, i);
    InboxSkipsNone(s, a, b);
    InboxIsStored(s, a, b);
  }

  lemma ResendKeepsBatches(s: System, beyond: nat)
    requires ServerInv(s) && GoodBatches(s)
    ensures GoodBatches(ResendStep(s, beyond))
  {
    var msgs := SentMessages(s.inbox, beyond);
    var t := ResendStep(s, beyond);
    forall m | m in t.net ensures GoodBatch(m, t.stored) {
      if m !in s.net {
        var i :| 0 <= i < |msgs| && msgs[i] == m;
        PendingIsGood(s, i);
      }
    }
  }

  /** A number stored later is above all of theirs. */
  lemma StoringKeepsBatch(s: System, m: Message)
    requires Inv(s) && m in s.net && GoodBatch(m, s.stored)
    ensures GoodBatch(m, s.stored + {|s.log|})
  {
    if m.BatchMessage? && Carried(m).Success? {
      var events := Carried(m).value;
      forall i, j, k: nat
        | 0 <= i < j < |events| && events[i].seqNum < k < events[j].seqNum && k in s.stored + {|s.log|}
        ensures Holds(events, k)
      {
        assert events[j].seqNum in s.stored;
      }
    }
  }

  lemma NextKeepsBatches(s: System, step: Step)
    requires Inv(s) && GoodBatches(s)
    ensures GoodBatches(Next(s, step))
  {
    match step
    case QueueOnline(kind, data) =>
    case QueueOffline(kind, data) =>
      forall m | m in s.net ensures GoodBatch(m, QueueOfflineStep(s, kind, data).stored) {
        StoringKeepsBatch(s, m);
      }
    case Resend(beyond) => ResendKeepsBatches(s, beyond);
    case DeliverMessage(m) =>
    case DeliverAck(a) =>
    case LoseMessage(m) =>
    case LoseAck(a) =>
  }

  lemma {:induction false} ExecKeepsBatches(s: System, steps: seq<Step>)
    requires Inv(s) && GoodBatches(s)
    ensures GoodBatches(Exec(s, steps))
    decreases |steps|
  {
    if steps != [] {
      NextKeepsInv(s, steps[0]);
      NextKeepsBatches(s, steps[0]);
      ExecKeepsBatches(Next(s, steps[0]), steps[1..]);
    }
  }

  /** In every run. */
  lemma ReachableBatches(steps: seq<Step>)
    ensures Inv(Exec(INIT, steps)) && GoodBatches(Exec(INIT, steps))
  {
    InitInv();
    ExecKeepsInv(INIT, steps);
    ExecKeepsBatches(INIT, steps);
  }

  /** What is on the wire but was never stored is there as its own message. */
  lemma OnWireUnstored(s: System, k: nat)
    requires Inv(s) && GoodBatches(s) && k < |s.log| && k !in s.stored
    ensures OnWire(s, k) <==> EventMessage(EventBytes(s.log[k])) in s.net
  {
    var own := EventMessage(EventBytes(s.log[k]));
    DecodeOfEventBytes(s.log[k]);
    assert Carried(own) == Success([s.log[k]]);
    assert s.log[k] in CarriedBy(own);
    forall m, e | m in s.net && e in CarriedBy(m) && e.seqNum == k ensures m == own {
      assert GoodMessage(s.log, m) && GoodBatch(m, s.stored);
      if m.EventMessage? {
        assert Carried(m) == Success([DecodeEvent(m.body).value]);
        EventBytesOfDecode(m.body);
      }
    }
  }
}
