/** The per-device inbox of the server: numbering, storing and cumulative removal. */
module EventInbox {
  import opened Core

  datatype Inbox = Inbox(events: seq<Event>, lastAcked: uint64, lastSent: uint64, nextSeq: uint64)

  const FRESH := Inbox([], NO_SEQ, NO_SEQ, 0)

  // --------------------------------------------- specification of the operations

  function Numbered(s: Inbox): Inbox
    requires s.nextSeq != NO_SEQ
  {
    s.(lastSent := s.nextSeq, nextSeq := s.nextSeq + 1)
  }

  function PushStatus(s: Inbox, e: Event): Status {
    if e.seqNum == NO_SEQ || s.nextSeq == NO_SEQ then Overflow
    else if s.lastSent != NO_SEQ && e.seqNum != s.nextSeq then Invalid
    else Ok
  }

  function Push(s: Inbox, e: Event): Inbox {
    if PushStatus(s, e) == Ok then Numbered(s.(events := s.events + [e])) else s
  }

  function AdvanceStatus(s: Inbox): Status {
    if s.nextSeq == NO_SEQ then Overflow else Ok
  }

  function Advance(s: Inbox): Inbox {
    if AdvanceStatus(s) == Ok then Numbered(s) else s
  }

  function RemoveStatus(s: Inbox, until: uint64): Status {
    if s.lastSent == NO_SEQ || until > s.lastSent then BadEnvelope else Ok
  }

  /** The events left once the leading ones up to `until` are gone. */
  function DropAcked(events: seq<Event>, until: uint64): (r: seq<Event>) {
    if events == [] || events[0].seqNum > until then events else DropAcked(events[1..], until)
  }

  function RemoveUntil(s: Inbox, until: uint64): Inbox {
    if RemoveStatus(s, until) != Ok || (s.lastAcked != NO_SEQ && until <= s.lastAcked) then s
    else s.(events := DropAcked(s.events, until), lastAcked := until)
  }

  // ------------------------------------------------------------ the inbox itself

  class DeviceEventInbox {
    var events: seq<Event>
    var lastAckedSeq: uint64
    var lastSentSeq: uint64
    var nextSeq: uint64

    function Contents(): Inbox
      reads this
    {
      Inbox(events, lastAckedSeq, lastSentSeq, nextSeq)
    }

    constructor ()
      ensures Contents() == FRESH
    {
      events := [];
      lastAckedSeq := NO_SEQ;
      lastSentSeq := NO_SEQ;
      nextSeq := 0;
    }

    method PushEvent(e: Event) returns (st: Status)
      modifies this
      ensures st == PushStatus(old(Contents()), e)
      ensures Contents() == Push(old(Contents()), e)
    {
      if e.seqNum == NO_SEQ {
        return Overflow;
      }
      if nextSeq == NO_SEQ {
        return Overflow;
      }
      if lastSentSeq != NO_SEQ && e.seqNum != nextSeq {
        return Invalid;
      }
      events := events + [e];
      lastSentSeq := nextSeq;
      nextSeq := nextSeq + 1;
      return Ok;
    }

    method AdvanceSeq() returns (st: Status)
      modifies this
      ensures st == AdvanceStatus(old(Contents()))
      ensures Contents() == Advance(old(Contents()))
    {
      if nextSeq == NO_SEQ {
        return Overflow;
      }
      lastSentSeq := nextSeq;
      nextSeq := nextSeq + 1;
      return Ok;
    }

    method RemoveEventsUntil(until: uint64) returns (st: Status)
      modifies this
      ensures st == RemoveStatus(old(Contents()), until)
      ensures Contents() == RemoveUntil(old(Contents()), until)
    {
      if lastSentSeq == NO_SEQ {
        return BadEnvelope;
      }
      if until > lastSentSeq {
        return BadEnvelope;
      }
      if lastAckedSeq != NO_SEQ && until <= lastAckedSeq {
        return Ok;
      }
      var i := 0;
      while i < |events|
        invariant i <= |events|
        invariant events == old(events)
        invariant DropAcked(events, until) == DropAcked(events[i..], until)
      {
        assert events[i..][0] == events[i] && events[i..][1..] == events[i + 1..];
        if events[i].seqNum > until {
          break;
        }
        i := i + 1;
      }
      assert DropAcked(events, until) == events[i..];
      if i > 0 {
        events := events[i..];
      }
      lastAckedSeq := until;
      return Ok;
    }
  }

  // ------------------------------------------------------------------- invariant

  /** `a` was acknowledged before, where nothing is when `a` is the sentinel. */
  predicate AtMost(n: uint64, a: uint64) { a != NO_SEQ && n <= a }

  predicate Increasing(events: seq<Event>) {
    forall i, j :: 0 <= i < j < |events| ==> events[i].seqNum < events[j].seqNum
  }

  /** Stored numbers increase strictly, lie above the last acknowledged number and
      were all assigned; the last assigned number precedes the next one. */
  predicate Valid(s: Inbox) {
    && (s.nextSeq == 0 <==> s.lastSent == NO_SEQ)
    && (s.lastSent != NO_SEQ ==> s.nextSeq == s.lastSent + 1)
    && (s.lastAcked != NO_SEQ ==> s.lastSent != NO_SEQ && s.lastAcked <= s.lastSent)
    && Increasing(s.events)
    && forall i :: 0 <= i < |s.events| ==>
         s.events[i].seqNum < s.nextSeq && !AtMost(s.events[i].seqNum, s.lastAcked)
  }

  lemma FreshIsValid()
    ensures Valid(FRESH)
  {
  }

  /** A push keeps the invariant exactly when it is refused or carries the next
      number. The first push is the only one whose number is not checked. */
  lemma PushKeepsValid(s: Inbox, e: Event)
    requires Valid(s)
    ensures Valid(Push(s, e)) <==> PushStatus(s, e) != Ok || e.seqNum == s.nextSeq
    ensures PushStatus(s, e) == Ok && e.seqNum != s.nextSeq ==> s.nextSeq == 0
  {
    var t := Push(s, e);
    if PushStatus(s, e) == Ok {
      var n := |s.events|;
      assert t.events[n] == e;
      assert forall i :: 0 <= i < n ==> t.events[i] == s.events[i];
      if e.seqNum == s.nextSeq {
        forall i, j | 0 <= i < j < |t.events| ensures t.events[i].seqNum < t.events[j].seqNum {
          if j < n { assert s.events[i].seqNum < s.events[j].seqNum; }
        }
      }
    }
  }

  /** Every push, seen from the numbers alone. An event is stored, and takes the next
      number, if and only if it carries a number, numbers are left, and it carries the
      next one or is the first ever; whatever was acknowledged or removed before plays
      no part. */
  lemma PushStores(s: Inbox, e: Event)
    requires Valid(s)
    ensures var used := e.seqNum == NO_SEQ || s.nextSeq == NO_SEQ;
            var wrong := s.nextSeq != 0 && e.seqNum != s.nextSeq;
            && (PushStatus(s, e) == Overflow <==> used)
            && (PushStatus(s, e) == Invalid <==> !used && wrong)
            && (PushStatus(s, e) == Ok <==> !used && !wrong)
            && Push(s, e) == if used || wrong then s
                             else Inbox(s.events + [e], s.lastAcked, s.nextSeq, s.nextSeq + 1)
  {
  }

  /** Advancing takes the next number as long as there is one. */
  lemma AdvanceTakes(s: Inbox)
    requires Valid(s)
    ensures AdvanceStatus(s) == if s.nextSeq == NO_SEQ then Overflow else Ok
    ensures Advance(s) == if s.nextSeq == NO_SEQ then s else s.(lastSent := s.nextSeq, nextSeq := s.nextSeq + 1)
  {
  }

  /** The unchecked first push: an inbox that starts with number 5 holds a number it
      never assigned. */
  lemma FreshInboxTakesAnyNumber()
    ensures var e := Event(5, 0, []);
            && PushStatus(FRESH, e) == Ok
            && Push(FRESH, e) == Inbox([e], NO_SEQ, 0, 1)
            && !Valid(Push(FRESH, e))
  {
    PushKeepsValid(FRESH, Event(5, 0, []));
  }

  lemma AdvanceKeepsValid(s: Inbox)
    requires Valid(s)
    ensures Valid(Advance(s))
  {
  }

  /** The events numbered above `until`, in order. */
  function Above(events: seq<Event>, until: uint64): seq<Event> {
    if events == [] then []
    else (if events[0].seqNum > until then [events[0]] else []) + Above(events[1..], until)
  }

  lemma {:induction false} AboveAll(events: seq<Event>, until: uint64)
    requires forall i :: 0 <= i < |events| ==> events[i].seqNum > until
    ensures Above(events, until) == events
  {
    if events != [] {
      AboveAll(events[1..], until);
    }
  }

  /** Deleting the acknowledged prefix of an increasing inbox is filtering by number. */
  lemma {:induction false} DropIsFilter(events: seq<Event>, until: uint64)
    requires Increasing(events)
    ensures DropAcked(events, until) == Above(events, until)
    ensures Increasing(DropAcked(events, until))
    ensures forall i :: 0 <= i < |DropAcked(events, until)| ==> DropAcked(events, until)[i].seqNum > until
  {
    if events != [] {
      if events[0].seqNum > until {
        AboveAll(events, until);
      } else {
        DropIsFilter(events[1..], until);
      }
    }
  }

  /** Exactly the events above `until` survive. */
  lemma {:induction false} DropMembers(events: seq<Event>, until: uint64, e: Event)
    requires Increasing(events)
    ensures e in DropAcked(events, until) <==> e in events && e.seqNum > until
  {
    if events != [] {
      if events[0].seqNum <= until {
        DropMembers(events[1..], until, e);
        assert e in events <==> e == events[0] || e in events[1..];
      }
    }
  }

  lemma RemoveKeepsValid(s: Inbox, until: uint64)
    requires Valid(s)
    ensures Valid(RemoveUntil(s, until))
  {
    var t := RemoveUntil(s, until);
    if t != s {
      DropIsFilter(s.events, until);
      forall i | 0 <= i < |t.events| ensures t.events[i].seqNum < s.nextSeq {
        DropMembers(s.events, until, t.events[i]);
      }
    }
  }

  /** Every acknowledgement, seen from the numbers alone: it is refused if and only if
      its number was never assigned, and otherwise exactly the events above it stay and
      the last acknowledged number is the larger of the two. */
  lemma RemoveLeavesAbove(s: Inbox, until: uint64)
    requires Valid(s)
    ensures RemoveStatus(s, until) == if until < s.nextSeq then Ok else BadEnvelope
    ensures RemoveUntil(s, until) ==
            if until >= s.nextSeq then s
            else
              var acked := if s.lastAcked == NO_SEQ then until else Max(s.lastAcked, until);
              Inbox(Above(s.events, until), acked, s.lastSent, s.nextSeq)
  {
    DropIsFilter(s.events, until);
    if AtMost(until, s.lastAcked) {
      AboveAll(s.events, until);
    }
  }

  // -------------------------------------------------- acknowledgements in any order

  lemma {:induction false} DropDrop(events: seq<Event>, a: uint64, b: uint64)
    requires a <= b
    ensures DropAcked(DropAcked(events, a), b) == DropAcked(events, b)
  {
    if events != [] && events[0].seqNum <= a {
      DropDrop(events[1..], a, b);
    }
  }

  lemma RemoveThenRemove(s: Inbox, a: uint64, b: uint64)
    requires Valid(s)
    ensures RemoveUntil(RemoveUntil(s, a), b) ==
            if RemoveStatus(s, a) != Ok then RemoveUntil(s, b)
            else if RemoveStatus(s, b) != Ok then RemoveUntil(s, a)
            else RemoveUntil(s, Max(a, b))
  {
    if a <= b {
      DropDrop(s.events, a, b);
    }
  }

  /** Two acknowledgements the inbox accepts, in either order, act as the larger one;
      a refused one changes nothing. */
  lemma AcksJoin(s: Inbox, a: uint64, b: uint64)
    requires Valid(s)
    ensures RemoveStatus(s, a) == Ok && RemoveStatus(s, b) == Ok ==>
              RemoveUntil(RemoveUntil(s, a), b) == RemoveUntil(s, Max(a, b))
    ensures RemoveUntil(RemoveUntil(s, a), b) == RemoveUntil(RemoveUntil(s, b), a)
    ensures RemoveStatus(RemoveUntil(s, a), b) == RemoveStatus(s, b)
  {
    RemoveThenRemove(s, a, b);
    RemoveThenRemove(s, b, a);
  }

  function RemoveAll(s: Inbox, acks: seq<uint64>): Inbox
    decreases |acks|
  {
    if acks == [] then s else RemoveAll(RemoveUntil(s, acks[0]), acks[1..])
  }

  lemma {:induction false} NothingMore(s: Inbox, acks: seq<uint64>, top: uint64)
    requires s.lastAcked != NO_SEQ && top <= s.lastAcked
    requires forall i :: 0 <= i < |acks| && RemoveStatus(s, acks[i]) == Ok ==> acks[i] <= top
    ensures RemoveAll(s, acks) == s
    decreases |acks|
  {
    if acks != [] {
      assert RemoveUntil(s, acks[0]) == s;
      NothingMore(s, acks[1..], top);
    }
  }

  /** Any acknowledgements in any order leave what one of them alone would leave, and
      it is the largest of the accepted ones. */
  lemma {:induction false} AcksCollapse(s: Inbox, acks: seq<uint64>, top: uint64)
    requires Valid(s)
    requires top in acks && RemoveStatus(s, top) == Ok
    requires forall i :: 0 <= i < |acks| && RemoveStatus(s, acks[i]) == Ok ==> acks[i] <= top
    ensures RemoveAll(s, acks) == RemoveUntil(s, top)
    decreases |acks|
  {
    var a, rest := acks[0], acks[1..];
    var t := RemoveUntil(s, a);
    RemoveKeepsValid(s, a);
    assert t.lastSent == s.lastSent;
    if top in rest {
      AcksCollapse(t, rest, top);
      RemoveThenRemove(s, a, top);
    } else {
      assert a == top;
      NothingMore(t, rest, top);
    }
  }
}
