/** What of a backlog the output queue of a connection takes. */
module Backlog {
  import opened Core
  import opened Codec
  import opened Batching
  import Transport

  const BATCH_OVERHEAD := FRAME_HEADER + ENVELOPE_HEADER + BATCH_FIXED

  /** The bytes always queued in front of a re-send: the framed envelope without a body
      that welcomes the client back. */
  const GREETING := FRAME_HEADER + ENVELOPE_HEADER

  /** The bytes a list of batches takes on the wire. */
  function WireTotal(batches: seq<seq<Event>>): nat {
    if batches == [] then 0 else BATCH_OVERHEAD + ElemsSize(batches[0]) + WireTotal(batches[1..])
  }

  lemma {:induction false} WireTotalIs(batches: seq<seq<Event>>)
    ensures WireTotal(batches) == BATCH_OVERHEAD * |batches| + ElemsSize(Flatten(batches))
  {
    if batches != [] {
      WireTotalIs(batches[1..]);
      ElemsAppend(batches[0], Flatten(batches[1..]));
      assert BATCH_OVERHEAD * |batches| == BATCH_OVERHEAD + BATCH_OVERHEAD * |batches[1..]|;
    }
  }

  /** Batches of at most 256 events. */
  function BatchCount(n: nat): nat { (n + BATCH_MAX_EVENTS - 1) / BATCH_MAX_EVENTS }

  lemma WholeWindowFits(events: seq<Event>)
    requires events != [] && AllFit(events) && ElemsSize(events) <= BATCH_DATA_CAP
    ensures FitFrom(Window(events), 0, BATCH_DATA_CAP) == Success(|Window(events)|)
  {
    var w := Window(events);
    AllFitSplit(events, |w|);
    FitSucceeds(w, 0, BATCH_DATA_CAP);
    FitIsMaximal(w, 0, BATCH_DATA_CAP);
    var n := FitFrom(w, 0, BATCH_DATA_CAP).value;
    if n < |w| {
      assert w[..n + 1] == events[..n + 1] && events[..|events|] == events;
      SizeOfPrefix(events, n + 1, |events|);
    }
  }

  /** Below the size limit of a batch only the count of events cuts. */
  lemma {:induction false} CountCutsBatches(events: seq<Event>)
    requires AllFit(events) && ElemsSize(events) <= BATCH_DATA_CAP
    ensures |SplitPending(events).batches| == BatchCount(|events|)
    decreases |events|
  {
    if events != [] {
      WholeWindowFits(events);
      var n := |Window(events)|;
      AllFitSplit(events, n);
      ElemsAppend(events[..n], events[n..]);
      assert events == events[..n] + events[n..];
      CountCutsBatches(events[n..]);
      SplitFirst(events, n);
    }
  }

  /** Every body fits an element, and behind `queued` bytes the whole backlog, with 54
      bytes for each batch of 256 events, stays within the output queue. */
  ghost predicate Resendable(queued: nat, events: seq<Event>) {
    && AllFit(events)
    && queued + BATCH_OVERHEAD * BatchCount(|events|) + ElemsSize(events) <= Transport.MAX_QUEUE
  }

  /** ... which is when the split succeeds and all of its batches are taken. */
  lemma ResendableIsSplitFits(queued: nat, events: seq<Event>)
    ensures var s := SplitPending(events);
            Resendable(queued, events) <==>
            s.status == Ok && queued + WireTotal(s.batches) <= Transport.MAX_QUEUE
  {
    var s := SplitPending(events);
    SplitKeepsEvents(events);
    WireTotalIs(s.batches);
    if AllFit(events) && ElemsSize(events) <= Transport.MAX_QUEUE {
      CountCutsBatches(events);
    }
  }

  lemma CountGrows(m: nat, n: nat)
    requires m <= n
    ensures BatchCount(m) <= BatchCount(n)
    ensures BATCH_OVERHEAD * BatchCount(m) <= BATCH_OVERHEAD * BatchCount(n)
  {
  }

  /** Any part of a backlog that is taken is taken. */
  lemma ResendableParts(queued: nat, a: seq<Event>, b: seq<Event>)
    requires Resendable(queued, a + b)
    ensures Resendable(queued, a) && Resendable(queued, b)
  {
    AllFitAppend(a, b);
    ElemsAppend(a, b);
    CountGrows(|a|, |a| + |b|);
    CountGrows(|b|, |a| + |b|);
  }

  lemma {:induction false} SizeOfAlike(events: seq<Event>, size: nat)
    requires forall i :: 0 <= i < |events| ==> ElemSize(events[i]) == size
    ensures ElemsSize(events) == size * |events|
  {
    if events != [] {
      SizeOfAlike(events[1..], size);
    }
  }

  /** Events of kind 1, numbered from 0. */
  function EventsOf(datas: seq<EventData>): (events: seq<Event>)
    requires |datas| <= U64_MAX
    ensures |events| == |datas|
  {
    seq(|datas|, i requires 0 <= i < |datas| => Event(i, 1, datas[i]))
  }

  lemma SizeOfEvents(datas: seq<EventData>, size: nat)
    requires |datas| <= U64_MAX && EVENT_FIXED + size <= U16_MAX
    requires forall i :: 0 <= i < |datas| ==> |datas[i]| == size
    ensures AllFit(EventsOf(datas))
    ensures ElemsSize(EventsOf(datas)) == (2 + EVENT_FIXED + size) * |datas|
  {
    SizeOfAlike(EventsOf(datas), 2 + EVENT_FIXED + size);
  }

  /** Seventeen events of the greatest size that fits an element are too much even for
      an empty queue. */
  lemma SeventeenAreRefused(datas: seq<EventData>)
    requires |datas| == 17 && forall i :: 0 <= i < 17 ==> |datas[i]| == U16_MAX - EVENT_FIXED
    ensures AllFit(EventsOf(datas)) && !Resendable(0, EventsOf(datas))
  {
    SizeOfEvents(datas, U16_MAX - EVENT_FIXED);
  }

  /** Fifteen of them and one of 65449 bytes fill an empty queue to the last byte, which
      is too much behind the greeting. */
  lemma SixteenAreRefused(datas: seq<EventData>)
    requires |datas| == 16 && |datas[15]| == 65449
    requires forall i :: 0 <= i < 15 ==> |datas[i]| == U16_MAX - EVENT_FIXED
    ensures AllFit(EventsOf(datas))
    ensures Resendable(0, EventsOf(datas)) && !Resendable(GREETING, EventsOf(datas))
    ensures !Resendable(1, EventsOf(datas))
  {
    var first, last := datas[..15], EventsOf(datas)[15];
    SizeOfEvents(first, U16_MAX - EVENT_FIXED);
    assert EventsOf(datas) == EventsOf(first) + [last];
    ElemsAppend(EventsOf(first), [last]);
    SizeOfAlike([last], 2 + EVENT_FIXED + 65449);
    AllFitAppend(EventsOf(first), [last]);
  }
}
