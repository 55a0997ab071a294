/** Splitting the pending events of a device into size-limited batches. */
module Batching {
  import opened Core
  import opened Codec

  /** Bytes of event data that fit one frame to the client beside the two headers. */
  const BATCH_DATA_CAP := MAX_STC_PAYLOAD - (BATCH_FIXED + ENVELOPE_HEADER)

  /** How many leading events still fit when `used` bytes are taken already. */
  function FitFrom(events: seq<Event>, used: nat, cap: nat): (r: Result<nat>)
    ensures r.Success? ==> r.value <= |events|
  {
    if events == [] then Success(0)
    else if !FitsElement(events[0]) then Failure(TooLarge)
    else if ElemSize(events[0]) > U32_MAX - used then Failure(TooLarge)
    else if used + ElemSize(events[0]) > cap then Success(0)
    else
      var n :- FitFrom(events[1..], used + ElemSize(events[0]), cap);
      Success(n + 1)
  }

  /** A prefix is its first event and a prefix of the others. */
  lemma PrefixFromFirst(events: seq<Event>, n: nat)
    requires 0 < n <= |events|
    ensures ElemsSize(events[..n]) == ElemSize(events[0]) + ElemsSize(events[1..][..n - 1])
    ensures AllFit(events[..n]) <==> FitsElement(events[0]) && AllFit(events[1..][..n - 1])
  {
    assert events[..n] == [events[0]] + events[1..][..n - 1];
    ElemsCons(events[0], events[1..][..n - 1]);
  }

  /** A successful fit is the longest prefix within the capacity. */
  lemma {:induction false} FitIsMaximal(events: seq<Event>, used: nat, cap: nat)
    requires FitFrom(events, used, cap).Success?
    ensures var n := FitFrom(events, used, cap).value;
            && AllFit(events[..n])
            && (used <= cap ==> used + ElemsSize(events[..n]) <= cap)
            && (n < |events| ==> used + ElemsSize(events[..n + 1]) > cap)
  {
    if events != [] {
      var n := FitFrom(events, used, cap).value;
      if used + ElemSize(events[0]) <= cap {
        FitIsMaximal(events[1..], used + ElemSize(events[0]), cap);
        PrefixFromFirst(events, n);
      }
      if n < |events| {
        PrefixFromFirst(events, n + 1);
      }
    }
  }

  lemma SizeOfPrefix(events: seq<Event>, m: nat, n: nat)
    requires m <= n <= |events|
    ensures ElemsSize(events[..m]) <= ElemsSize(events[..n])
  {
    assert events[..n] == events[..m] + events[m..n];
    ElemsAppend(events[..m], events[m..n]);
  }

  lemma AllFitAppend(a: seq<Event>, b: seq<Event>)
    ensures AllFit(a + b) <==> AllFit(a) && AllFit(b)
  {
    if AllFit(a + b) {
      forall i | 0 <= i < |a| ensures FitsElement(a[i]) { assert (a + b)[i] == a[i]; }
      forall i | 0 <= i < |b| ensures FitsElement(b[i]) { assert (a + b)[|a| + i] == b[i]; }
    }
  }

  lemma AllFitSplit(events: seq<Event>, n: nat)
    requires n <= |events|
    ensures AllFit(events) <==> AllFit(events[..n]) && AllFit(events[n..])
  {
    AllFitAppend(events[..n], events[n..]);
    assert events == events[..n] + events[n..];
  }

  /** When every body fits an element, a fit within 32 bits always succeeds. */
  lemma {:induction false} FitSucceeds(events: seq<Event>, used: nat, cap: nat)
    requires AllFit(events) && used <= cap <= U32_MAX - (2 + U16_MAX)
    ensures FitFrom(events, used, cap).Success?
  {
    if events != [] && used + ElemSize(events[0]) <= cap {
      FitSucceeds(events[1..], used + ElemSize(events[0]), cap);
    }
  }

  /** The scan stops with an error only at an oversized body. */
  lemma {:induction false} FitFails(events: seq<Event>, used: nat, cap: nat)
    requires used <= cap <= U32_MAX - (2 + U16_MAX)
    requires FitFrom(events, used, cap).Failure?
    ensures FitFrom(events, used, cap) == Failure(TooLarge) && !AllFit(events)
  {
    if AllFit(events) {
      FitSucceeds(events, used, cap);
    } else if FitsElement(events[0]) {
      FitFails(events[1..], used + ElemSize(events[0]), cap);
    }
  }

  /** Event `k` is the first that does not fit an element, and the scan gets there. */
  ghost predicate Meets(events: seq<Event>, used: nat, cap: nat, k: nat) {
    && k < |events| && AllFit(events[..k]) && !FitsElement(events[k])
    && used + ElemsSize(events[..k]) <= cap
  }

  lemma {:induction false} MeetingFails(events: seq<Event>, used: nat, cap: nat, k: nat)
    requires cap <= U32_MAX - (2 + U16_MAX) && Meets(events, used, cap, k)
    ensures FitFrom(events, used, cap) == Failure(TooLarge)
    decreases k
  {
    if k > 0 {
      PrefixFromFirst(events, k);
      MeetingFails(events[1..], used + ElemSize(events[0]), cap, k - 1);
    }
  }

  lemma {:induction false} FailingMeets(events: seq<Event>, used: nat, cap: nat) returns (k: nat)
    requires used <= cap <= U32_MAX - (2 + U16_MAX)
    requires FitFrom(events, used, cap).Failure?
    ensures Meets(events, used, cap, k)
  {
    if !FitsElement(events[0]) {
      k := 0;
    } else {
      var j := FailingMeets(events[1..], used + ElemSize(events[0]), cap);
      k := j + 1;
      PrefixFromFirst(events, k);
    }
  }

  /** A fit counted from `i` events further on. */
  function Shifted(r: Result<nat>, i: nat): Result<nat> {
    match r
    case Failure(e) => Failure(e)
    case Success(m) => Success(m + i)
  }

  lemma SizeSnoc(events: seq<Event>, i: nat)
    requires i < |events|
    ensures ElemsSize(events[..i + 1]) == ElemsSize(events[..i]) + ElemSize(events[i])
  {
    assert events[..i + 1] == events[..i] + [events[i]];
    ElemsAppend(events[..i], [events[i]]);
    ElemsCons(events[i], []);
    assert [events[i]] + [] == [events[i]];
  }

  /** One round of the scan, counted from the start. */
  lemma ScanStep(events: seq<Event>, i: nat, used: nat, cap: nat)
    requires i < |events|
    ensures var e := events[i];
            Shifted(FitFrom(events[i..], used, cap), i) ==
            if !FitsElement(e) || ElemSize(e) > U32_MAX - used then Failure(TooLarge)
            else if used + ElemSize(e) > cap then Success(i)
            else Shifted(FitFrom(events[i + 1..], used + ElemSize(e), cap), i + 1)
  {
    assert events[i..][0] == events[i] && events[i..][1..] == events[i + 1..];
  }

  /** The scan of one candidate batch, as the codec runs it. */
  method EventBatchDataSizeFit(events: seq<Event>, cap: nat)
    returns (st: Status, dataSize: uint32, nFitting: nat)
    ensures |events| > BATCH_MAX_EVENTS ==> st == Invalid && nFitting == 0
    ensures |events| <= BATCH_MAX_EVENTS ==>
              match FitFrom(events, 0, cap)
              case Failure(e) => st == e && nFitting == 0
              case Success(n) => st == Ok && nFitting == n && dataSize == ElemsSize(events[..n])
  {
    dataSize, nFitting := 0, 0;
    if |events| > BATCH_MAX_EVENTS {
      return Invalid, 0, 0;
    }
    var n := 0;
    assert events[0..] == events;
    for i := 0 to |events|
      invariant n == i
      invariant dataSize == ElemsSize(events[..i])
      invariant FitFrom(events, 0, cap) == Shifted(FitFrom(events[i..], dataSize, cap), i)
    {
      SizeSnoc(events, i);
      ScanStep(events, i, dataSize, cap);
      var bodySize := BodySize(events[i]);
      if bodySize > U16_MAX {
        return TooLarge, 0, 0;
      }
      var elemSize := 2 + bodySize;
      if elemSize > U32_MAX - dataSize {
        return TooLarge, 0, 0;
      }
      if dataSize + elemSize > cap {
        break;
      }
      dataSize := dataSize + elemSize;
      n := n + 1;
    }
    return Ok, dataSize, n;
  }

  lemma FitCons(e: Event, events: seq<Event>, used: nat, cap: nat)
    ensures FitFrom([e] + events, used, cap) ==
            if !FitsElement(e) || ElemSize(e) > U32_MAX - used then Failure(TooLarge)
            else if used + ElemSize(e) > cap then Success(0)
            else Shifted(FitFrom(events, used + ElemSize(e), cap), 1)
  {
    assert ([e] + events)[1..] == events;
  }

  /** A scan that stops within what it was given stops there whatever follows. */
  lemma {:induction false} FitStops(a: seq<Event>, b: seq<Event>, used: nat, cap: nat, n: nat)
    requires FitFrom(a, used, cap) == Success(n) && n < |a|
    ensures FitFrom(a + b, used, cap) == Success(n)
  {
    FitCons(a[0], a[1..] + b, used, cap);
    assert a + b == [a[0]] + (a[1..] + b);
    if used + ElemSize(a[0]) <= cap {
      FitStops(a[1..], b, used + ElemSize(a[0]), cap, n - 1);
    }
  }

  /** A scan that takes all of it takes the first event and then all of the others. */
  lemma FirstIsTaken(a: seq<Event>, used: nat, cap: nat)
    requires a != [] && FitFrom(a, used, cap) == Success(|a|)
    ensures FitsElement(a[0]) && ElemSize(a[0]) <= U32_MAX - used && used + ElemSize(a[0]) <= cap
    ensures FitFrom(a[1..], used + ElemSize(a[0]), cap) == Success(|a| - 1)
  {
  }

  lemma FitPassesCons(e: Event, a: seq<Event>, b: seq<Event>, used: nat, cap: nat)
    requires FitsElement(e) && ElemSize(e) <= U32_MAX - used && used + ElemSize(e) <= cap
    requires var u := used + ElemSize(e);
             FitFrom(a + b, u, cap) == Shifted(FitFrom(b, u + ElemsSize(a), cap), |a|)
    ensures FitFrom([e] + (a + b), used, cap) ==
            Shifted(FitFrom(b, used + ElemSize(e) + ElemsSize(a), cap), |a| + 1)
  {
    FitCons(e, a + b, used, cap);
  }

  /** One that takes all of it goes on into what follows. */
  lemma {:induction false} FitPasses(a: seq<Event>, b: seq<Event>, used: nat, cap: nat)
    requires FitFrom(a, used, cap) == Success(|a|)
    ensures FitFrom(a + b, used, cap) == Shifted(FitFrom(b, used + ElemsSize(a), cap), |a|)
  {
    if a == [] {
      assert a + b == b;
    } else {
      FirstIsTaken(a, used, cap);
      FitPasses(a[1..], b, used + ElemSize(a[0]), cap);
      FitPassesCons(a[0], a[1..], b, used, cap);
      AppendCons(a, b);
    }
  }

  // ------------------------------------------------------------- splitting

  datatype Split = Split(status: Status, batches: seq<seq<Event>>)

  function Window(events: seq<Event>): seq<Event> {
    events[..Min(|events|, BATCH_MAX_EVENTS)]
  }

  /** The batches queued for `events`, up to the first one that cannot be formed. */
  function SplitPending(events: seq<Event>): Split
    decreases |events|
  {
    if events == [] then Split(Ok, [])
    else
      match FitFrom(Window(events), 0, BATCH_DATA_CAP)
      case Failure(e) => Split(e, [])
      case Success(n) =>
        if n == 0 then Split(TooLarge, [])
        else
          var rest := SplitPending(events[n..]);
          Split(rest.status, [events[..n]] + rest.batches)
  }

  function Flatten<T>(parts: seq<seq<T>>): seq<T> {
    if parts == [] then [] else parts[0] + Flatten(parts[1..])
  }

  /** What the wire can carry as one batch. */
  ghost predicate Sendable(batch: seq<Event>) {
    && 1 <= |batch| <= BATCH_MAX_EVENTS
    && AllFit(batch)
    && ElemsSize(batch) <= BATCH_DATA_CAP
  }

  ghost predicate AllSendable(batches: seq<seq<Event>>) {
    forall i :: 0 <= i < |batches| ==> Sendable(batches[i])
  }

  lemma FirstBatch(events: seq<Event>)
    requires events != []
    ensures var r := FitFrom(Window(events), 0, BATCH_DATA_CAP);
            match r
            case Failure(e) => e == TooLarge && !AllFit(events)
            case Success(n) => n > 0 && n <= |events| && Sendable(events[..n])
  {
    var w := Window(events);
    if FitFrom(w, 0, BATCH_DATA_CAP).Success? {
      FitIsMaximal(w, 0, BATCH_DATA_CAP);
      assert w[..FitFrom(w, 0, BATCH_DATA_CAP).value] == events[..FitFrom(w, 0, BATCH_DATA_CAP).value];
    } else {
      FitFails(w, 0, BATCH_DATA_CAP);
    }
  }

  lemma FlattenCons<T>(part: seq<T>, parts: seq<seq<T>>)
    ensures Flatten([part] + parts) == part + Flatten(parts)
  {
    assert ([part] + parts)[1..] == parts;
  }

  /** The split at its first batch. */
  lemma SplitFirst(events: seq<Event>, n: nat)
    requires events != [] && FitFrom(Window(events), 0, BATCH_DATA_CAP) == Success(n)
    ensures 0 < n <= |events| && Sendable(events[..n])
    ensures var s, rest := SplitPending(events), SplitPending(events[n..]);
            && s.status == rest.status
            && s.batches == [events[..n]] + rest.batches
            && Flatten(s.batches) == events[..n] + Flatten(rest.batches)
  {
    FirstBatch(events);
    FlattenCons(events[..n], SplitPending(events[n..]).batches);
  }

  lemma PrefixJoins<T>(all: seq<T>, n: nat, rest: seq<T>)
    requires n <= |all| && rest <= all[n..]
    ensures all[..n] + rest <= all
    ensures rest == all[n..] ==> all[..n] + rest == all
  {
    assert all == all[..n] + all[n..];
  }

  lemma AllSendableCons(batch: seq<Event>, batches: seq<seq<Event>>)
    requires Sendable(batch) && AllSendable(batches)
    ensures AllSendable([batch] + batches)
  {
  }

  /** Whatever is queued is a sendable, order-preserving split of a prefix; it is the
      whole of the inbox if and only if every body fits an element. */
  lemma {:induction false} SplitKeepsEvents(events: seq<Event>)
    ensures var s := SplitPending(events);
            && AllSendable(s.batches)
            && Flatten(s.batches) <= events
            && (if AllFit(events) then s.status == Ok && Flatten(s.batches) == events
                else s.status == TooLarge && AllFit(Flatten(s.batches)))
    decreases |events|
  {
    if events != [] {
      FirstBatch(events);
      var r := FitFrom(Window(events), 0, BATCH_DATA_CAP);
      if r.Success? {
        var n := r.value;
        SplitFirst(events, n);
        SplitKeepsEvents(events[n..]);
        AllFitSplit(events, n);
        var rest := SplitPending(events[n..]).batches;
        AllFitAppend(events[..n], Flatten(rest));
        PrefixJoins(events, n, Flatten(rest));
        AllSendableCons(events[..n], rest);
      }
    }
  }

  /** The first of events that all fit an element: a batch that ends at the count or
      the size limit, or all of them. */
  lemma FirstOfFitting(events: seq<Event>)
    requires events != [] && AllFit(events)
    ensures var r := FitFrom(Window(events), 0, BATCH_DATA_CAP);
            && r.Success? && 0 < r.value <= |Window(events)|
            && (r.value == |events| ==> SplitPending(events) == Split(Ok, [events]))
            && (r.value < |events| ==> SplitPending(events[r.value..]).batches != [])
  {
    FirstBatch(events);
    var n := FitFrom(Window(events), 0, BATCH_DATA_CAP).value;
    if n == |events| {
      assert events[..n] == events && events[n..] == [];
    } else {
      AllFitSplit(events, n);
      FirstBatch(events[n..]);
    }
  }

  /** The batches in front of an oversized event: the last of them goes down with the
      scan that meets it, unless it is full already. */
  function QueuedBefore(batches: seq<seq<Event>>): seq<seq<Event>> {
    var last := |batches| - 1;
    if batches != [] && |batches[last]| < BATCH_MAX_EVENTS then batches[..last] else batches
  }

  lemma QueuedBeforeCons(batch: seq<Event>, batches: seq<seq<Event>>)
    requires batches != []
    ensures QueuedBefore([batch] + batches) == [batch] + QueuedBefore(batches)
  {
    assert ([batch] + batches)[..|batches|] == [batch] + batches[..|batches| - 1];
  }

  lemma WindowGrows(events: seq<Event>, k: nat)
    requires k <= |events|
    ensures var v, w := Window(events[..k]), Window(events);
            |v| <= |w| && w == v + w[|v|..]
  {
    var v, w := Window(events[..k]), Window(events);
    assert w[..|v|] == v;
  }

  /** The scan in front of an oversized event stops where it would without it, unless
      it gets there. */
  lemma ScanNearOversized(events: seq<Event>, k: nat, n: nat)
    requires 0 < k < |events| && AllFit(events[..k]) && !FitsElement(events[k])
    requires FitFrom(Window(events[..k]), 0, BATCH_DATA_CAP) == Success(n)
    ensures FitFrom(Window(events), 0, BATCH_DATA_CAP) ==
            if n < k || n == BATCH_MAX_EVENTS then Success(n) else Failure(TooLarge)
  {
    var v, w := Window(events[..k]), Window(events);
    WindowGrows(events, k);
    if n < |v| {
      FitStops(v, w[|v|..], 0, BATCH_DATA_CAP, n);
    } else {
      FitPasses(v, w[|v|..], 0, BATCH_DATA_CAP);
      if |v| < |w| {
        assert w[|v|..][0] == events[k];
      }
    }
  }

  /** What is in front of event `k`, behind the first `n` events. */
  lemma CutInFront(events: seq<Event>, k: nat, n: nat)
    requires n <= k <= |events| && AllFit(events[..k])
    ensures events[..n] == events[..k][..n] && events[n..][..k - n] == events[..k][n..]
    ensures AllFit(events[n..][..k - n])
    ensures n == k ==> events[..k][n..] == []
  {
    AllFitSplit(events[..k], n);
  }

  /** Which batches are queued when event `k` is the first that does not fit an element:
      those of the events before it, but for the last one if that has room left. An
      event that fits is not queued either when the scan that would take it gets as
      far as one that does not. */
  lemma {:induction false} SplitStopsAt(events: seq<Event>, k: nat)
    requires k < |events| && AllFit(events[..k]) && !FitsElement(events[k])
    ensures SplitPending(events) == Split(TooLarge, QueuedBefore(SplitPending(events[..k]).batches))
    decreases |events|
  {
    var pre := events[..k];
    if k > 0 {
      FirstOfFitting(pre);
      var n := FitFrom(Window(pre), 0, BATCH_DATA_CAP).value;
      ScanNearOversized(events, k, n);
      if n < k || n == BATCH_MAX_EVENTS {
        CutInFront(events, k, n);
        SplitStopsAt(events[n..], k - n);
        if n < k {
          QueuedBeforeCons(pre[..n], SplitPending(pre[n..]).batches);
        }
      }
    }
  }

  /** The greedy first batch is at least as long as any other sendable one. */
  lemma GreedyIsLongest(events: seq<Event>, m: nat)
    requires AllFit(events) && m <= |events| && Sendable(events[..m])
    ensures var r := FitFrom(Window(events), 0, BATCH_DATA_CAP);
            r.Success? && m <= r.value <= |events| && r.value > 0
  {
    var w := Window(events);
    AllFitSplit(events, |w|);
    FitSucceeds(w, 0, BATCH_DATA_CAP);
    FitIsMaximal(w, 0, BATCH_DATA_CAP);
    var n := FitFrom(w, 0, BATCH_DATA_CAP).value;
    if n < m {
      assert w[..n + 1] == events[..m][..n + 1] && events[..m][..m] == events[..m];
      SizeOfPrefix(events[..m], n + 1, m);
    }
  }

  lemma SuffixSendable(batch: seq<Event>, k: nat)
    requires Sendable(batch) && k < |batch|
    ensures Sendable(batch[k..])
  {
    assert batch == batch[..k] + batch[k..];
    ElemsAppend(batch[..k], batch[k..]);
    AllFitSplit(batch, k);
  }

  /** A scan that starts later in the first batch gets at least as far. */
  lemma LaterIsLonger(events: seq<Event>, k: nat, n: nat) returns (m: nat)
    requires k < n <= |events| && AllFit(events[k..]) && Sendable(events[..n])
    ensures FitFrom(Window(events[k..]), 0, BATCH_DATA_CAP) == Success(m)
    ensures m > 0 && n <= k + m <= |events| && events[k..][m..] == events[n..][k + m - n..]
  {
    var tail := events[k..];
    SuffixSendable(events[..n], k);
    assert events[..n][k..] == tail[..n - k];
    GreedyIsLongest(tail, n - k);
    m := FitFrom(Window(tail), 0, BATCH_DATA_CAP).value;
  }

  /** Dropping leading events never needs more batches. */
  lemma {:induction false} FewerForSuffix(events: seq<Event>, k: nat)
    requires AllFit(events) && k <= |events|
    ensures |SplitPending(events[k..]).batches| <= |SplitPending(events).batches|
    decreases |events|
  {
    if events != [] && k < |events| {
      FirstBatch(events);
      var n := FitFrom(Window(events), 0, BATCH_DATA_CAP).value;
      AllFitSplit(events, n);
      if k >= n {
        assert events[k..] == events[n..][k - n..];
        FewerForSuffix(events[n..], k - n);
      } else {
        AllFitSplit(events, k);
        var m := LaterIsLonger(events, k, n);
        FewerForSuffix(events[n..], k + m - n);
      }
    }
  }

  /** After the greedy first batch no more batches follow than after a shorter one. */
  lemma GreedyNeedsNoMore(events: seq<Event>, m: nat)
    requires AllFit(events) && m <= |events| && Sendable(events[..m])
    ensures |SplitPending(events).batches| <= 1 + |SplitPending(events[m..]).batches|
  {
    GreedyIsLongest(events, m);
    var n := FitFrom(Window(events), 0, BATCH_DATA_CAP).value;
    AllFitSplit(events, m);
    assert events[n..] == events[m..][n - m..];
    FewerForSuffix(events[m..], n - m);
  }

  /** No order-preserving split into sendable batches uses fewer of them. */
  lemma {:induction false} SplitIsOptimal(events: seq<Event>, other: seq<seq<Event>>)
    requires AllFit(events)
    requires AllSendable(other) && Flatten(other) == events
    ensures |SplitPending(events).batches| <= |other|
    decreases |other|
  {
    if events != [] {
      var m := |other[0]|;
      assert Sendable(other[0]) && events[..m] == other[0] && events[m..] == Flatten(other[1..]);
      AllFitSplit(events, m);
      SplitIsOptimal(events[m..], other[1..]);
      GreedyNeedsNoMore(events, m);
    }
  }

  lemma PrefixSendable(batch: seq<Event>, k: nat)
    requires Sendable(batch) && 0 < k <= |batch|
    ensures Sendable(batch[..k])
  {
    SizeOfPrefix(batch, k, |batch|);
    assert batch[..|batch|] == batch;
  }

  /** The batch could not take the event that follows it as well. */
  ghost predicate NoMoreFits(batches: seq<seq<Event>>, i: nat)
    requires i + 1 < |batches|
  {
    batches[i + 1] != [] && !Sendable(batches[i] + batches[i + 1][..1])
  }

  /** ... which is so of all but the last. */
  ghost predicate Greedy(batches: seq<seq<Event>>) {
    AllSendable(batches) && forall i :: 0 <= i < |batches| - 1 ==> NoMoreFits(batches, i)
  }

  lemma GreedyTail(batches: seq<seq<Event>>)
    requires Greedy(batches) && batches != []
    ensures Greedy(batches[1..])
  {
    var rest := batches[1..];
    forall i | 0 <= i < |rest| - 1 ensures NoMoreFits(rest, i) {
      assert NoMoreFits(batches, i + 1);
    }
  }

  lemma GreedyCons(batch: seq<Event>, rest: seq<seq<Event>>)
    requires Sendable(batch) && Greedy(rest)
    requires rest != [] ==> rest[0] != [] && !Sendable(batch + rest[0][..1])
    ensures Greedy([batch] + rest)
  {
    var batches := [batch] + rest;
    forall i | 0 <= i < |batches| - 1 ensures NoMoreFits(batches, i) {
      assert i > 0 ==> NoMoreFits(rest, i - 1);
    }
  }

  /** The event behind a stretch, taken from the batch that follows. */
  lemma OneMoreEvent(events: seq<Event>, n: nat, rest: seq<seq<Event>>)
    requires n <= |events| && Flatten(rest) == events[n..] && rest != [] && rest[0] != []
    ensures n < |events| && events[..n] + rest[0][..1] == events[..n + 1]
  {
    assert Flatten(rest)[0] == rest[0][0];
  }

  lemma {:induction false} SplitIsGreedy(events: seq<Event>)
    requires AllFit(events)
    ensures Greedy(SplitPending(events).batches)
    decreases |events|
  {
    if events != [] {
      FirstBatch(events);
      var n := FitFrom(Window(events), 0, BATCH_DATA_CAP).value;
      SplitFirst(events, n);
      AllFitSplit(events, n);
      var rest := SplitPending(events[n..]).batches;
      SplitKeepsEvents(events[n..]);
      SplitIsGreedy(events[n..]);
      if rest != [] {
        assert Sendable(rest[0]);
        OneMoreEvent(events, n, rest);
        if Sendable(events[..n + 1]) {
          GreedyIsLongest(events, n + 1);
        }
      }
      GreedyCons(events[..n], rest);
    }
  }

  /** The first batch of a greedy split ends where the scan does. */
  lemma GreedyStart(events: seq<Event>, other: seq<seq<Event>>)
    requires AllFit(events) && Greedy(other) && other != [] && Flatten(other) == events
    ensures FitFrom(Window(events), 0, BATCH_DATA_CAP) == Success(|other[0]|)
    ensures other[0] == events[..|other[0]|] && Flatten(other[1..]) == events[|other[0]|..]
  {
    var m := |other[0]|;
    assert Sendable(other[0]) && events[..m] == other[0] && events[m..] == Flatten(other[1..]);
    GreedyIsLongest(events, m);
    FirstBatch(events);
    var n := FitFrom(Window(events), 0, BATCH_DATA_CAP).value;
    if m < n {
      PrefixSendable(events[..n], m + 1);
      assert events[..n][..m + 1] == events[..m + 1];
      assert other[1..] != [];
      assert NoMoreFits(other, 0);
      OneMoreEvent(events, m, other[1..]);
    }
  }

  lemma {:induction false} GreedyIsSplit(events: seq<Event>, other: seq<seq<Event>>)
    requires AllFit(events) && Greedy(other) && Flatten(other) == events
    ensures other == SplitPending(events).batches
    decreases |other|
  {
    if other != [] {
      GreedyStart(events, other);
      GreedyTail(other);
      var n := |other[0]|;
      assert Sendable(other[0]);
      AllFitSplit(events, n);
      SplitFirst(events, n);
      GreedyIsSplit(events[n..], other[1..]);
      assert other == [other[0]] + other[1..];
    }
  }

  /** The split is determined: it is the one split into sendable batches none of which
      could take the event behind it. */
  lemma SplitIsDetermined(events: seq<Event>, other: seq<seq<Event>>)
    requires AllFit(events)
    ensures other == SplitPending(events).batches <==> Greedy(other) && Flatten(other) == events
  {
    SplitKeepsEvents(events);
    SplitIsGreedy(events);
    if Greedy(other) && Flatten(other) == events {
      GreedyIsSplit(events, other);
    }
  }

  /** The batch message built from a sendable group of events. */
  function BatchOf(events: seq<Event>): EventBatch
    requires ElemsSize(events) <= BATCH_DATA_CAP
  {
    EventBatch(ElemsSize(events), events)
  }

  lemma BatchOfDecodes(events: seq<Event>)
    requires Sendable(events)
    ensures |BatchBytes(BatchOf(events))| <= MAX_STC_PAYLOAD - ENVELOPE_HEADER
    ensures DecodeBatch(BatchBytes(BatchOf(events))) == Success(BatchOf(events))
  {
    DecodeOfBatchBytes(BatchOf(events));
  }
}
