/** Which bodies the decoders refuse, and with what: bytes cut short, bytes with something
    behind them, and headers that do not tell the truth. */
module Refusals {
  import opened Core
  import opened BigEndian
  import opened Codec
  import opened Decoder

  /** An event body cut anywhere, or with anything behind it, is a bad frame. */
  lemma EventCutOrPadded(e: Event, n: nat, rest: Bytes)
    requires |EventBytes(e) + rest| <= 0xFFFF_FFD3
    ensures n < |EventBytes(e)| ==> DecodeEvent(EventBytes(e)[..n]) == Failure(BadFrame)
    ensures rest != [] ==> DecodeEvent(EventBytes(e) + rest) == Failure(BadFrame)
  {
    EventLayout(e);
    var s := EventBytes(e);
    if EVENT_FIXED <= n < |s| {
      assert s[..n][12..16] == s[12..16];
    }
    assert (s + rest)[12..16] == s[12..16];
  }

  /** So is an envelope. */
  lemma EnvelopeCutOrPadded(v: Envelope, n: nat, rest: Bytes)
    requires |EnvelopeBytes(v) + rest| <= 0xFFFF_FFFB
    ensures n < |EnvelopeBytes(v)| ==> DecodeEnvelope(EnvelopeBytes(v)[..n]) == Failure(BadFrame)
    ensures rest != [] ==> DecodeEnvelope(EnvelopeBytes(v) + rest) == Failure(BadFrame)
  {
    EnvelopeLayout(v);
    var s := EnvelopeBytes(v);
    if ENVELOPE_HEADER <= n < |s| {
      assert s[..n][36..40] == s[36..40];
    }
    assert (s + rest)[36..40] == s[36..40];
  }

  /** A batch tells where it was cut: in the header it is a bad frame, and behind it the
      announced data does not fit. With anything behind it the envelope is bad. */
  lemma BatchCutOrPadded(b: EventBatch, n: nat, rest: Bytes)
    requires ValidBatch(b) && |BatchBytes(b) + rest| <= 0xFFFF_FFD3
    ensures n < |BatchBytes(b)| ==>
              DecodeBatch(BatchBytes(b)[..n]) == Failure(if n < BATCH_FIXED then BadFrame else Overflow)
    ensures rest != [] ==> DecodeBatch(BatchBytes(b) + rest) == Failure(BadEnvelope)
  {
    BatchLayout(b, rest);
    var s := BatchBytes(b);
    assert (s + rest)[..2] == s[..2] && (s + rest)[2..6] == s[2..6];
    if BATCH_FIXED <= n < |s| {
      assert s[..n][..2] == s[..2] && s[..n][2..6] == s[2..6];
    }
  }

  /** More than 256 events, or another data size than that of its elements, make a batch
      that is refused whatever its elements are. */
  lemma BatchHeaderDecides(b: EventBatch)
    requires |b.events| <= U16_MAX && BATCH_FIXED + ElemsSize(b.events) <= 0xFFFF_FFD3
    ensures |b.events| > BATCH_MAX_EVENTS ==> DecodeBatch(BatchBytes(b)) == Failure(BadEnvelope)
    ensures |b.events| <= BATCH_MAX_EVENTS && b.dataSize != ElemsSize(b.events) ==>
              DecodeBatch(BatchBytes(b)) == Failure(if b.dataSize > ElemsSize(b.events) then Overflow else BadEnvelope)
  {
    BatchLayout(b, []);
    assert BatchBytes(b) + [] == BatchBytes(b);
  }

  lemma OneElement(e: Event, tail: Bytes, m: nat)
    requires FitsElement(e) && |ElemBytes(e) + tail| <= 0xFFFF_FFD3
    ensures DecodeElems(ElemBytes(e) + tail, 1 + m) == Prepend([e], DecodeElems(tail, m))
  {
    ElemSplits(e, tail);
    DecodeOfEventBytes(e);
  }

  lemma PrependTwice(a: seq<Event>, b: seq<Event>, r: Result<seq<Event>>)
    ensures Prepend(a, Prepend(b, r)) == Prepend(a + b, r)
  {
    if r.Success? {
      Reassociate(a, b, r.value);
    }
  }

  /** Elements that are as they should be are read, and the rest decides. */
  lemma {:induction false} RestDecides(es: seq<Event>, tail: Bytes, m: nat)
    requires AllFit(es) && |ElemsBytes(es) + tail| <= 0xFFFF_FFD3
    ensures DecodeElems(ElemsBytes(es) + tail, |es| + m) == Prepend(es, DecodeElems(tail, m))
  {
    if es == [] {
      assert [] + tail == tail;
      PrependNothing(DecodeElems(tail, m));
    } else {
      var e, rest := es[0], es[1..];
      assert es == [e] + rest;
      ElemsCons(e, rest);
      Reassociate(ElemBytes(e), ElemsBytes(rest), tail);
      OneElement(e, ElemsBytes(rest) + tail, |rest| + m);
      RestDecides(rest, tail, m);
      PrependTwice([e], rest, DecodeElems(tail, m));
    }
  }

  /** What is wrong with the first element that is not: nothing left or cut short is a bad
      frame, a size below that of an event's header makes a bad envelope, and bytes that
      are left when all elements were read are a bad frame. */
  lemma ElementRefused(p: Body, m: nat)
    ensures m == 0 && p != [] ==> DecodeElems(p, m) == Failure(BadFrame)
    ensures m > 0 && |p| < 2 ==> DecodeElems(p, m) == Failure(BadFrame)
    ensures m > 0 && |p| >= 2 ==>
              var size := ReadU16(p[..2]);
              && (size < EVENT_FIXED ==> DecodeElems(p, m) == Failure(BadEnvelope))
              && (EVENT_FIXED <= size && |p| < 2 + size ==> DecodeElems(p, m) == Failure(BadFrame))
              && (EVENT_FIXED <= size <= |p| - 2 && DecodeEvent(p[2..2 + size]).Failure? ==>
                    DecodeElems(p, m) == Failure(BadFrame))
  {
  }
}
