/** The client side of event delivery: a ring of 256 slots that puts events back in
    order, drops duplicates and dispatches strictly in sequence. */
module ReorderWindow {
  import opened Core
  import opened Codec

  const WINDOW := 256

  type Slots = s: seq<Option<Event>> | |s| == WINDOW witness seq(WINDOW, _ => None)

  /** `trace` is the history of dispatched events. */
  datatype Receiver = Receiver(last: uint64, slots: Slots, trace: seq<Event>)

  const FRESH := Receiver(NO_SEQ, seq(WINDOW, _ => None), [])
  const CONVERSATION_CREATED: uint32 := 0
  const CONVERSATION_CREATED_SIZE := 16

  /** The client's handlers accept this event: the only one that decodes its data
      wants exactly a conversation identifier. */
  predicate Dispatchable(e: Event) {
    e.kind == CONVERSATION_CREATED ==> |e.data| == CONVERSATION_CREATED_SIZE
  }

  // --------------------------------------------- specification of the operations

  function Dispatch(r: Receiver, e: Event): Receiver {
    if Dispatchable(e) then r.(last := e.seqNum, trace := r.trace + [e]) else r
  }

  function Slot(r: Receiver, n: nat): Option<Event> { r.slots[n % WINDOW] }

  function WithSlot(r: Receiver, n: nat, s: Option<Event>): Receiver {
    r.(slots := r.slots[n % WINDOW := s])
  }

  ghost function Occupied(slots: seq<Option<Event>>): set<nat> {
    set i: nat | i < |slots| && slots[i].Some?
  }

  lemma ClearingShrinks(slots: seq<Option<Event>>, i: nat)
    requires i < |slots| && slots[i].Some?
    ensures |Occupied(slots[i := None])| == |Occupied(slots)| - 1
  {
    assert Occupied(slots[i := None]) == Occupied(slots) - {i};
  }

  /** The event the next round of the drain loop would dispatch. */
  function NextBuffered(r: Receiver): Option<Event>
    requires r.last != NO_SEQ
  {
    var s := Slot(r, r.last + 1);
    if s.Some? && s.value.seqNum == r.last + 1 then s else None
  }

  function Drain(r: Receiver): (o: (Status, Receiver))
    decreases |Occupied(r.slots)|
  {
    if r.last == NO_SEQ then (Overflow, r)
    else
      var next := NextBuffered(r);
      if next.None? then (Ok, r)
      else if !Dispatchable(next.value) then (BadFrame, r)
      else
        ClearingShrinks(r.slots, (r.last + 1) % WINDOW);
        Drain(WithSlot(Dispatch(r, next.value), r.last + 1, None))
  }

  datatype Outcome = Outcome(status: Status, receiver: Receiver, duplicate: bool, progress: bool)

  function Expected(r: Receiver): int {
    if r.last == NO_SEQ then 0 else r.last + 1
  }

  function Buffer(r: Receiver, e: Event): (Status, Receiver) {
    match Slot(r, e.seqNum)
    case None => (Ok, WithSlot(r, e.seqNum, Some(e)))
    case Some(b) => (if b.seqNum == e.seqNum then Ok else Invalid, r)
  }

  function Process(r: Receiver, e: Event): Outcome {
    if e.seqNum == NO_SEQ then Outcome(Invalid, r, false, false)
    else if r.last != NO_SEQ && e.seqNum <= r.last then Outcome(Ok, r, true, false)
    else if e.seqNum == Expected(r) then
      if !Dispatchable(e) then Outcome(BadFrame, r, false, false)
      else
        var d := Drain(Dispatch(r, e));
        Outcome(d.0, d.1, false, d.0 == Ok)
    else
      var b := Buffer(r, e);
      Outcome(b.0, b.1, false, false)
  }

  /** The state after a message, and the acknowledgement sent for it. */
  datatype Handled = Handled(status: Status, receiver: Receiver, ack: Option<uint64>)

  function HandleEvent(r: Receiver, e: Event): Handled {
    var o := Process(r, e);
    if o.status != Ok then Handled(o.status, o.receiver, None)
    else if !(o.duplicate || o.progress) then Handled(Ok, o.receiver, None)
    else if o.receiver.last == NO_SEQ then Handled(Invalid, o.receiver, None)
    else Handled(Ok, o.receiver, Some(o.receiver.last))
  }

  /** All events of a batch up to the first that fails. */
  function ProcessAll(r: Receiver, events: seq<Event>): Outcome {
    if events == [] then Outcome(Ok, r, false, false)
    else
      var init := ProcessAll(r, events[..|events| - 1]);
      if init.status != Ok then init
      else
        var o := Process(init.receiver, events[|events| - 1]);
        o.(duplicate := init.duplicate || o.duplicate, progress := init.progress || o.progress)
  }

  function HandleBatch(r: Receiver, events: seq<Event>): Handled {
    var o := ProcessAll(r, events);
    if o.status != Ok then Handled(o.status, o.receiver, None)
    else if (o.progress || o.duplicate) && o.receiver.last != NO_SEQ then
      Handled(Ok, o.receiver, Some(o.receiver.last))
    else Handled(Ok, o.receiver, None)
  }

  function HandleEventBody(r: Receiver, body: Body): Handled {
    match DecodeEvent(body)
    case Failure(e) => Handled(e, r, None)
    case Success(event) => HandleEvent(r, event)
  }

  function HandleBatchBody(r: Receiver, body: Body): Handled {
    match DecodeBatch(body)
    case Failure(e) => Handled(e, r, None)
    case Success(batch) => HandleBatch(r, batch.events)
  }

  // ------------------------------------------------------------------ the client

  lemma {:induction false} FailureStops(r: Receiver, events: seq<Event>, n: nat)
    requires n <= |events| && ProcessAll(r, events[..n]).status != Ok
    ensures ProcessAll(r, events) == ProcessAll(r, events[..n])
  {
    if n == |events| {
      assert events[..n] == events;
    } else {
      var init := events[..|events| - 1];
      assert init[..n] == events[..n];
      FailureStops(r, init, n);
    }
  }

  class Client {
    var lastDispatchedSeq: uint64
    const window: array<Option<Event>>
    ghost var trace: seq<Event>

    ghost predicate Sized() { window.Length == WINDOW }

    ghost function Contents(): Receiver
      requires Sized()
      reads this, window
    {
      Receiver(lastDispatchedSeq, window[..], trace)
    }

    constructor ()
      ensures Sized() && fresh(window)
      ensures Contents() == FRESH
    {
      lastDispatchedSeq := NO_SEQ;
      window := new Option<Event>[WINDOW](_ => None);
      trace := [];
      new;
      assert window[..] == FRESH.slots;
    }

    method DispatchEvent(e: Event) returns (st: Status)
      requires Sized()
      modifies this
      ensures st == if Dispatchable(e) then Ok else BadFrame
      ensures Contents() == Dispatch(old(Contents()), e)
    {
      if e.kind == CONVERSATION_CREATED && |e.data| != CONVERSATION_CREATED_SIZE {
        return BadFrame;
      }
      lastDispatchedSeq := e.seqNum;
      trace := trace + [e];
      return Ok;
    }

    method BufferEvent(e: Event) returns (st: Status)
      requires Sized()
      modifies window
      ensures (st, Contents()) == Buffer(old(Contents()), e)
    {
      var index := e.seqNum % WINDOW;
      if window[index].Some? {
        return if window[index].value.seqNum == e.seqNum then Ok else Invalid;
      }
      window[index] := Some(e);
      return Ok;
    }

    method DrainReorderBuffer() returns (st: Status)
      requires Sized()
      modifies this, window
      ensures (st, Contents()) == Drain(old(Contents()))
    {
      while true
        invariant Drain(Contents()) == Drain(old(Contents()))
        decreases |Occupied(window[..])|
      {
        if lastDispatchedSeq == NO_SEQ {
          return Overflow;
        }
        var nextSeq: uint64 := lastDispatchedSeq + 1;
        var index := nextSeq % WINDOW;
        if window[index].None? || window[index].value.seqNum != nextSeq {
          return Ok;
        }
        st := DispatchEvent(window[index].value);
        if st != Ok {
          return;
        }
        ClearingShrinks(window[..], index);
        window[index] := None;
      }
    }

    /** The two flags are only ever raised. */
    method ProcessEvent(e: Event, sawDuplicate: bool, madeProgress: bool)
      returns (st: Status, duplicate: bool, progress: bool)
      requires Sized()
      modifies this, window
      ensures var o := Process(old(Contents()), e);
              && (st, Contents()) == (o.status, o.receiver)
              && duplicate == (sawDuplicate || o.duplicate)
              && progress == (madeProgress || o.progress)
    {
      duplicate, progress := sawDuplicate, madeProgress;
      if e.seqNum == NO_SEQ {
        return Invalid, duplicate, progress;
      }
      if lastDispatchedSeq != NO_SEQ && e.seqNum <= lastDispatchedSeq {
        return Ok, true, progress;
      }
      var expected := if lastDispatchedSeq == NO_SEQ then 0 else lastDispatchedSeq + 1;
      if e.seqNum == expected {
        st := DispatchEvent(e);
        if st != Ok {
          return;
        }
        st := DrainReorderBuffer();
        if st != Ok {
          return;
        }
        return Ok, duplicate, true;
      }
      st := BufferEvent(e);
    }

    method ReceiveEvent(body: Body) returns (st: Status, ack: Option<uint64>)
      requires Sized()
      modifies this, window
      ensures Handled(st, Contents(), ack) == HandleEventBody(old(Contents()), body)
    {
      var decoded := DecodeEvent(body);
      if decoded.Failure? {
        return decoded.error, None;
      }
      var duplicate, progress;
      st, duplicate, progress := ProcessEvent(decoded.value, false, false);
      if st != Ok {
        return st, None;
      }
      if duplicate || progress {
        if lastDispatchedSeq == NO_SEQ {
          return Invalid, None;
        }
        return Ok, Some(lastDispatchedSeq);
      }
      return Ok, None;
    }

    method ReceiveEventBatch(body: Body) returns (st: Status, ack: Option<uint64>)
      requires Sized()
      modifies this, window
      ensures Handled(st, Contents(), ack) == HandleBatchBody(old(Contents()), body)
    {
      var decoded := DecodeBatch(body);
      if decoded.Failure? {
        return decoded.error, None;
      }
      var events := decoded.value.events;
      var duplicate, progress := false, false;
      for i := 0 to |events|
        invariant ProcessAll(old(Contents()), events[..i]) == Outcome(Ok, Contents(), duplicate, progress)
      {
        assert events[..i + 1][..i] == events[..i];
        st, duplicate, progress := ProcessEvent(events[i], duplicate, progress);
        assert ProcessAll(old(Contents()), events[..i + 1]) == Outcome(st, Contents(), duplicate, progress);
        if st != Ok {
          FailureStops(old(Contents()), events, i + 1);
          return st, None;
        }
      }
      assert events[..|events|] == events;
      if (progress || duplicate) && lastDispatchedSeq != NO_SEQ {
        return Ok, Some(lastDispatchedSeq);
      }
      return Ok, None;
    }
  }

  // ------------------------------------------------------------------- invariant

  ghost predicate BelongsIn(r: Receiver, e: Event, i: nat) {
    e.seqNum % WINDOW == i && e.seqNum != NO_SEQ && e.seqNum >= |r.trace|
  }

  /** Everything but the drain loop having come to rest. */
  ghost predicate Ordered(r: Receiver) {
    && |r.trace| == Expected(r)
    && (forall i :: 0 <= i < |r.trace| ==> r.trace[i].seqNum == i && Dispatchable(r.trace[i]))
    && (forall i :: 0 <= i < WINDOW && r.slots[i].Some? ==> BelongsIn(r, r.slots[i].value, i))
  }

  /** The next event is not waiting in the ring, unless it cannot be dispatched. */
  ghost predicate AtRest(r: Receiver) {
    var s := Slot(r, |r.trace|);
    s.Some? && s.value.seqNum == |r.trace| ==> !Dispatchable(s.value)
  }

  ghost predicate Valid(r: Receiver) {
    Ordered(r) && AtRest(r)
  }

  lemma FreshIsValid()
    ensures Valid(FRESH)
  {
  }

  /** Every event taken in so far: dispatched or waiting. */
  ghost function Accepted(r: Receiver): iset<Event> {
    iset e: Event | e in r.trace || Some(e) in r.slots
  }

  /** A buffered copy of a number carries the same content as any later copy. */
  ghost predicate Agrees(r: Receiver, e: Event) {
    forall i :: 0 <= i < WINDOW && r.slots[i].Some? && r.slots[i].value.seqNum == e.seqNum ==> r.slots[i].value == e
  }

  /** ... as it does when every accepted one does. */
  lemma AcceptedAgree(r: Receiver, e: Event)
    requires forall b :: b in Accepted(r) && b.seqNum == e.seqNum ==> b == e
    ensures Agrees(r, e)
  {
    forall i | 0 <= i < WINDOW && r.slots[i].Some? && r.slots[i].value.seqNum == e.seqNum
      ensures r.slots[i].value == e
    {
      assert Some(r.slots[i].value) in r.slots;
      assert r.slots[i].value in Accepted(r);
    }
  }

  lemma ClearedSlots(slots: Slots, k: nat, x: Event)
    requires k < WINDOW && slots[k].Some?
    ensures Some(x) in slots <==> Some(x) in slots[k := None] || slots[k] == Some(x)
  {
    if Some(x) in slots && slots[k] != Some(x) {
      var i :| 0 <= i < WINDOW && slots[i] == Some(x);
      assert slots[k := None][i] == Some(x);
    }
    if Some(x) in slots[k := None] {
      var i :| 0 <= i < WINDOW && slots[k := None][i] == Some(x);
      assert slots[i] == Some(x);
    }
  }

  lemma DispatchAndClear(r: Receiver)
    requires Ordered(r) && r.last != NO_SEQ
    requires NextBuffered(r).Some? && Dispatchable(NextBuffered(r).value)
    ensures var t := WithSlot(Dispatch(r, NextBuffered(r).value), r.last + 1, None);
            Ordered(t) && t.last != NO_SEQ && Accepted(t) == Accepted(r)
            && t.trace == r.trace + [NextBuffered(r).value]
  {
    var e := NextBuffered(r).value;
    var k := (r.last + 1) % WINDOW;
    var t := WithSlot(Dispatch(r, e), r.last + 1, None);
    assert r.slots[k] == Some(e) && BelongsIn(r, e, k);
    forall i | 0 <= i < WINDOW && t.slots[i].Some? ensures BelongsIn(t, t.slots[i].value, i) {
      assert i != k && BelongsIn(r, r.slots[i].value, i);
    }
    forall x: Event ensures x in Accepted(t) <==> x in Accepted(r) {
      ClearedSlots(r.slots, k, x);
    }
  }

  lemma FilledSlots(slots: Slots, k: nat, e: Event, x: Event)
    requires k < WINDOW && slots[k].None?
    ensures Some(x) in slots[k := Some(e)] <==> Some(x) in slots || x == e
  {
    assert slots[k := Some(e)][k := None] == slots;
    ClearedSlots(slots[k := Some(e)], k, x);
  }

  /** The drain loop keeps what was accepted, comes to rest, dispatches one event for
      each slot it frees and never reaches its overflow exit. */
  lemma {:induction false} DrainSettles(r: Receiver)
    requires Ordered(r) && r.last != NO_SEQ
    ensures var d := Drain(r);
            && Valid(d.1) && d.1.last != NO_SEQ
            && Accepted(d.1) == Accepted(r)
            && r.trace <= d.1.trace
            && |d.1.trace| - |r.trace| == |Occupied(r.slots)| - |Occupied(d.1.slots)|
            && d.0 == (if NextBuffered(d.1).Some? then BadFrame else Ok)
    decreases |Occupied(r.slots)|
  {
    var next := NextBuffered(r);
    if next.Some? && Dispatchable(next.value) {
      ClearingShrinks(r.slots, (r.last + 1) % WINDOW);
      DispatchAndClear(r);
      DrainSettles(WithSlot(Dispatch(r, next.value), r.last + 1, None));
    }
  }

  // ------------------------------------------------- refinement of a plain set

  ghost predicate HasDispatchable(a: iset<Event>, k: nat) {
    exists e :: e in a && e.seqNum == k && Dispatchable(e)
  }

  /** `n` ends the longest gap-free run of dispatchable numbers from 0 in `a`. */
  ghost predicate IsFrontier(a: iset<Event>, n: nat) {
    && (forall k: nat :: k < n ==> HasDispatchable(a, k))
    && !HasDispatchable(a, n)
  }

  lemma FrontierIsUnique(a: iset<Event>, m: nat, n: nat)
    requires IsFrontier(a, m) && IsFrontier(a, n)
    ensures m == n
  {
  }

  /** The number of dispatched events is a function of the set of accepted ones. */
  lemma DispatchedIsFrontier(r: Receiver)
    requires Valid(r)
    ensures IsFrontier(Accepted(r), |r.trace|)
    ensures forall e :: e in Accepted(r) ==> (e.seqNum < |r.trace| <==> e in r.trace)
    ensures forall e, f :: e in Accepted(r) && f in Accepted(r) && e.seqNum == f.seqNum ==> e == f
  {
    var a := Accepted(r);
    forall k: nat | k < |r.trace| ensures HasDispatchable(a, k) {
      assert r.trace[k] in a && r.trace[k].seqNum == k;
    }
    forall e: Event | Some(e) in r.slots ensures e.seqNum >= |r.trace| && Slot(r, e.seqNum) == Some(e) {
      var i :| 0 <= i < WINDOW && r.slots[i] == Some(e);
      assert BelongsIn(r, e, i);
    }
    forall e: Event | e in r.trace ensures e.seqNum < |r.trace| && r.trace[e.seqNum] == e {
    }
  }

  /** The occupied slots hold the accepted but undispatched events, each at its number
      modulo 256. */
  lemma WaitsInItsSlot(r: Receiver, e: Event)
    requires Valid(r)
    ensures e in Accepted(r) && e.seqNum >= |r.trace| <==> Slot(r, e.seqNum) == Some(e)
  {
    if Slot(r, e.seqNum) == Some(e) {
      assert BelongsIn(r, e, e.seqNum % WINDOW);
      assert Some(e) in r.slots;
    }
    if e in Accepted(r) && e.seqNum >= |r.trace| {
      assert e !in r.trace;
      var i :| 0 <= i < WINDOW && r.slots[i] == Some(e);
      assert BelongsIn(r, e, i);
    }
  }

  lemma SlotsAgree(r: Receiver, s: Receiver)
    requires Valid(r) && Valid(s) && Accepted(r) == Accepted(s) && r.trace == s.trace
    ensures forall i :: 0 <= i < WINDOW && r.slots[i].Some? ==> s.slots[i] == r.slots[i]
  {
    forall i | 0 <= i < WINDOW && r.slots[i].Some? ensures s.slots[i] == r.slots[i] {
      var e := r.slots[i].value;
      assert BelongsIn(r, e, i);
      WaitsInItsSlot(r, e);
      WaitsInItsSlot(s, e);
    }
  }

  /** The whole state is a function of the set of accepted events: the last number
      dispatched, the dispatched events and what stands in every slot. */
  lemma StateIsAFunctionOfAccepted(r: Receiver, s: Receiver)
    requires Valid(r) && Valid(s) && Accepted(r) == Accepted(s)
    ensures r == s
  {
    DispatchedIsFrontier(r);
    DispatchedIsFrontier(s);
    FrontierIsUnique(Accepted(r), |r.trace|, |s.trace|);
    forall k | 0 <= k < |r.trace| ensures r.trace[k] == s.trace[k] {
      assert r.trace[k] in Accepted(r) && s.trace[k] in Accepted(s);
    }
    SlotsAgree(r, s);
    SlotsAgree(s, r);
  }

  /** A different accepted, not yet dispatched number has the same residue. */
  ghost predicate Clashes(a: iset<Event>, n: nat, e: Event) {
    exists b :: b in a && b.seqNum >= n && b.seqNum != e.seqNum && b.seqNum % WINDOW == e.seqNum % WINDOW
  }

  /** Whether an arriving event joins the accepted ones, seen from the set alone. */
  ghost predicate Takes(a: iset<Event>, n: nat, e: Event) {
    && e.seqNum != NO_SEQ
    && e.seqNum >= n
    && (if e.seqNum == n then Dispatchable(e) else !Clashes(a, n, e))
  }

  lemma ProcessInOrder(r: Receiver, e: Event)
    requires Valid(r) && Agrees(r, e)
    requires e.seqNum != NO_SEQ && e.seqNum == |r.trace| && Dispatchable(e)
    ensures var o := Process(r, e);
            && Valid(o.receiver) && o.receiver.last != NO_SEQ
            && Accepted(o.receiver) == Accepted(r) + iset{e}
            && r.trace + [e] <= o.receiver.trace
            && o.status == (if NextBuffered(o.receiver).Some? then BadFrame else Ok)
            && o.progress == (o.status == Ok) && !o.duplicate
  {
    var t := Dispatch(r, e);
    forall i | 0 <= i < WINDOW && t.slots[i].Some? ensures BelongsIn(t, t.slots[i].value, i) {
      assert BelongsIn(r, r.slots[i].value, i);
      assert r.slots[i].value.seqNum != |r.trace|;
    }
    assert Accepted(t) == Accepted(r) + iset{e};
    DrainSettles(t);
  }

  /** What the handlers make of the awaited event: a conversation whose identifier is not
      16 bytes long is refused and changes nothing, and any other event is dispatched. */
  lemma AwaitedEvent(r: Receiver, e: Event)
    requires Valid(r) && Agrees(r, e)
    requires e.seqNum != NO_SEQ && e.seqNum == |r.trace|
    ensures if e.kind == 0 && |e.data| != 16 then Process(r, e) == Outcome(BadFrame, r, false, false)
            else r.trace + [e] <= Process(r, e).receiver.trace
  {
    if Dispatchable(e) {
      ProcessInOrder(r, e);
    }
  }

  lemma NoClash(r: Receiver, e: Event)
    requires Valid(r)
    requires var s := Slot(r, e.seqNum); s.Some? ==> s.value.seqNum == e.seqNum
    ensures !Clashes(Accepted(r), |r.trace|, e)
  {
    if b :| b in Accepted(r) && b.seqNum >= |r.trace|
            && b.seqNum != e.seqNum && b.seqNum % WINDOW == e.seqNum % WINDOW
    {
      WaitsInItsSlot(r, b);
    }
  }

  lemma ProcessOutOfOrder(r: Receiver, e: Event)
    requires Valid(r) && Agrees(r, e)
    requires e.seqNum != NO_SEQ && e.seqNum > |r.trace|
    ensures var o := Process(r, e);
            && Valid(o.receiver) && o.receiver.trace == r.trace && o.receiver.last == r.last
            && (o.status == Invalid <==> Clashes(Accepted(r), |r.trace|, e))
            && (o.status == Ok || o.status == Invalid)
            && Accepted(o.receiver) == (if o.status == Ok then Accepted(r) + iset{e} else Accepted(r))
            && !o.duplicate && !o.progress
  {
    var k := e.seqNum % WINDOW;
    var o := Process(r, e);
    var t := o.receiver;
    assert Expected(r) == |r.trace|;
    if Slot(r, e.seqNum).None? {
      assert t.slots == r.slots[k := Some(e)];
      forall i | 0 <= i < WINDOW && t.slots[i].Some? ensures BelongsIn(t, t.slots[i].value, i) {
        if i != k { assert BelongsIn(r, r.slots[i].value, i); }
      }
      forall x: Event ensures x in Accepted(t) <==> x in Accepted(r) || x == e {
        FilledSlots(r.slots, k, e, x);
      }
      NoClash(r, e);
    } else {
      var b := r.slots[k].value;
      assert BelongsIn(r, b, k) && Some(b) in r.slots;
      if b.seqNum == e.seqNum {
        assert b == e;
        NoClash(r, e);
      } else {
        assert b in Accepted(r);
      }
    }
  }

  /** A second event with the number of an accepted one changes nothing, whatever its
      content, unless the client waits for that very number. */
  lemma FirstCopyIsKept(r: Receiver, b: Event, e: Event)
    requires Valid(r) && b in Accepted(r) && b.seqNum == e.seqNum
    requires e.seqNum != NO_SEQ && e.seqNum != |r.trace|
    ensures Process(r, e) == Outcome(Ok, r, e.seqNum < |r.trace|, false)
  {
    WaitsInItsSlot(r, b);
  }

  lemma WaitingAtFrontier(r: Receiver)
    requires Valid(r) && r.last != NO_SEQ
    ensures NextBuffered(r).Some? <==> exists b :: b in Accepted(r) && b.seqNum == |r.trace|
  {
    if NextBuffered(r).Some? {
      assert Slot(r, |r.trace|) in r.slots;
      assert NextBuffered(r).value in Accepted(r);
    }
    if b :| b in Accepted(r) && b.seqNum == |r.trace| {
      WaitsInItsSlot(r, b);
    }
  }

  /** One arriving event, seen through the set of accepted ones: it is taken exactly
      when the set says so, the dispatched prefix only grows, and the status tells
      the sentinel, a clash and an undispatchable event apart. */
  lemma ProcessRefinesSet(r: Receiver, e: Event)
    requires Valid(r) && Agrees(r, e)
    ensures var o := Process(r, e);
            var a, n := Accepted(r), |r.trace|;
            && Valid(o.receiver)
            && Accepted(o.receiver) == (if Takes(a, n, e) then a + iset{e} else a)
            && r.trace <= o.receiver.trace
            && (o.status == Invalid <==> e.seqNum == NO_SEQ || (e.seqNum > n && Clashes(a, n, e)))
            && (o.status == BadFrame <==>
                e.seqNum == n && e.seqNum != NO_SEQ
                && (!Dispatchable(e) || exists b :: b in Accepted(o.receiver) && b.seqNum == |o.receiver.trace|))
            && (o.status == Ok || o.status == Invalid || o.status == BadFrame)
            && (o.duplicate <==> e.seqNum < n)
            && (o.progress <==> o.status == Ok && e.seqNum == n)
  {
    var o := Process(r, e);
    if e.seqNum == NO_SEQ || e.seqNum < |r.trace| {
      if e.seqNum != NO_SEQ { assert o == Outcome(Ok, r, true, false); }
    } else if e.seqNum > |r.trace| {
      ProcessOutOfOrder(r, e);
    } else if Dispatchable(e) {
      ProcessInOrder(r, e);
      WaitingAtFrontier(o.receiver);
      assert Takes(Accepted(r), |r.trace|, e);
    }
  }
}
