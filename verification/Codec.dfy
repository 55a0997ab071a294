/** What the encoders put on the wire and what the decoders make of any bytes. */
module Codec {
  import opened Core
  import opened BigEndian

  const EVENT_FIXED := 16

  const BATCH_FIXED := 6
  const BATCH_MAX_EVENTS := 256
  const ENVELOPE_HEADER := 40
  const FRAME_HEADER := 8
  const FRAME_METADATA := 4
  const MAX_CTS_PAYLOAD := 256
  const MAX_CTS_FRAME := 512
  const MAX_STC_PAYLOAD := 4 * 1024 * 1024
  const MAX_STC_FRAME := FRAME_HEADER + MAX_STC_PAYLOAD
  const PROTO_VERSION: uint16 := 1
  const MSG_ENVELOPE: uint16 := 2
  const ENVELOPE_EVENT: uint32 := 18
  const ENVELOPE_EVENT_BATCH: uint32 := 19

  // ---------------------------------------------------------------- events

  function BodySize(e: Event): nat { EVENT_FIXED + |e.data| }

  function EventBytes(e: Event): (s: Body)
    ensures |s| == BodySize(e)
  {
    BE(e.seqNum, 8) + BE(e.kind, 4) + BE(|e.data|, 4) + e.data
  }

  function DecodeEvent(p: Body): (r: Result<Event>) {
    if |p| < EVENT_FIXED then Failure(BadFrame)
    else
      var size := ReadU32(p[12..16]);
      if size != |p| - EVENT_FIXED then Failure(BadFrame)
      else Success(Event(ReadU64(p[..8]), ReadU32(p[8..12]), p[16..]))
  }

  /** Where the fields of an event stand. */
  lemma EventLayout(e: Event)
    ensures var s := EventBytes(e);
            && ReadU64(s[..8]) == e.seqNum && ReadU32(s[8..12]) == e.kind
            && ReadU32(s[12..16]) == |e.data| && s[16..] == e.data
  {
    var s := EventBytes(e);
    assert s[..8] == BE(e.seqNum, 8) && s[8..12] == BE(e.kind, 4);
    assert s[12..16] == BE(|e.data|, 4) && s[16..] == e.data;
    ReadBack64(e.seqNum);
    ReadBack32(e.kind);
    ReadBack32(|e.data|);
  }

  lemma DecodeOfEventBytes(e: Event)
    ensures DecodeEvent(EventBytes(e)) == Success(e)
  {
    EventLayout(e);
  }

  lemma EventBytesOfDecode(p: Body)
    requires DecodeEvent(p).Success?
    ensures EventBytes(DecodeEvent(p).value) == p
  {
    WriteBack64(p[..8]);
    WriteBack32(p[8..12]);
    WriteBack32(p[12..16]);
    assert p == p[..8] + p[8..12] + p[12..16] + p[16..];
  }

  // --------------------------------------------------------------- batches

  datatype EventBatch = EventBatch(dataSize: uint32, events: seq<Event>)

  function ElemSize(e: Event): nat { 2 + BodySize(e) }

  /** One element: a 16-bit body size, truncated when the body is larger, and the body. */
  function ElemBytes(e: Event): (s: Bytes)
    ensures |s| == ElemSize(e)
  {
    BE(BodySize(e) % 0x1_0000, 2) + EventBytes(e)
  }

  function ElemsSize(es: seq<Event>): nat {
    if es == [] then 0 else ElemSize(es[0]) + ElemsSize(es[1..])
  }

  function ElemsBytes(es: seq<Event>): (s: Bytes)
    ensures |s| == ElemsSize(es)
  {
    if es == [] then [] else ElemBytes(es[0]) + ElemsBytes(es[1..])
  }

  function BatchBytes(b: EventBatch): (s: Bytes)
    ensures |s| == BATCH_FIXED + ElemsSize(b.events)
  {
    BE(|b.events|, 2) + BE(b.dataSize, 4) + ElemsBytes(b.events)
  }

  predicate FitsElement(e: Event) { BodySize(e) <= U16_MAX }

  ghost predicate AllFit(es: seq<Event>) {
    forall i :: 0 <= i < |es| ==> FitsElement(es[i])
  }

  /** The batches the decoder hands out. */
  ghost predicate ValidBatch(b: EventBatch) {
    && |b.events| <= BATCH_MAX_EVENTS
    && b.dataSize == ElemsSize(b.events)
    && AllFit(b.events)
  }

  /** Reads `n` elements from `p` and wants nothing to be left over. */
  function DecodeElems(p: Body, n: nat): (r: Result<seq<Event>>)
    ensures r.Success? ==> |r.value| == n
    decreases n
  {
    if n == 0 then
      if p == [] then Success([]) else Failure(BadFrame)
    else if |p| < 2 then Failure(BadFrame)
    else
      var size := ReadU16(p[..2]);
      if size < EVENT_FIXED then Failure(BadEnvelope)
      else if |p| - 2 < size then Failure(BadFrame)
      else
        var e :- DecodeEvent(p[2..2 + size]);
        var rest :- DecodeElems(p[2 + size..], n - 1);
        Success([e] + rest)
  }

  function DecodeBatch(p: Body): (r: Result<EventBatch>) {
    if |p| < BATCH_FIXED then Failure(BadFrame)
    else
      var n, size := ReadU16(p[..2]), ReadU32(p[2..6]);
      if n > BATCH_MAX_EVENTS then Failure(BadEnvelope)
      else if |p| < BATCH_FIXED + size then Failure(Overflow)
      else if BATCH_FIXED + size != |p| then Failure(BadEnvelope)
      else
        var events :- DecodeElems(p[BATCH_FIXED..], n);
        Success(EventBatch(size, events))
  }

  lemma ElemSplits(e: Event, tail: Bytes)
    requires FitsElement(e)
    ensures var p, size := ElemBytes(e) + tail, BodySize(e);
            && ReadU16(p[..2]) == size
            && p[2..2 + size] == EventBytes(e)
            && p[2 + size..] == tail
  {
    var p, size := ElemBytes(e) + tail, BodySize(e);
    assert p[..2] == BE(size, 2);
    ReadBack16(size);
  }

  lemma {:induction false} DecodeOfElemsBytes(es: seq<Event>)
    requires ElemsSize(es) <= 0xFFFF_FFD3
    requires AllFit(es)
    ensures DecodeElems(ElemsBytes(es), |es|) == Success(es)
  {
    if es != [] {
      assert FitsElement(es[0]);
      ElemSplits(es[0], ElemsBytes(es[1..]));
      DecodeOfEventBytes(es[0]);
      DecodeOfElemsBytes(es[1..]);
      assert [es[0]] + es[1..] == es;
    }
  }

  /** What one successful step of `DecodeElems` found. */
  lemma DecodeElemsStep(p: Body, n: nat)
    requires n > 0 && DecodeElems(p, n).Success?
    ensures var size := ReadU16(p[..2]);
            && 2 + size <= |p|
            && DecodeEvent(p[2..2 + size]).Success?
            && DecodeElems(p[2 + size..], n - 1).Success?
            && DecodeElems(p, n).value == [DecodeEvent(p[2..2 + size]).value] + DecodeElems(p[2 + size..], n - 1).value
  {
  }

  lemma ElemBytesOfDecode(head: Bytes, body: Body)
    requires |head| == 2 && ReadU16(head) == |body| && DecodeEvent(body).Success?
    ensures ElemBytes(DecodeEvent(body).value) == head + body
    ensures FitsElement(DecodeEvent(body).value)
  {
    EventBytesOfDecode(body);
    WriteBack16(head);
  }

  lemma ElemsCons(e: Event, rest: seq<Event>)
    ensures ElemsBytes([e] + rest) == ElemBytes(e) + ElemsBytes(rest)
    ensures ElemsSize([e] + rest) == ElemSize(e) + ElemsSize(rest)
    ensures AllFit([e] + rest) <==> FitsElement(e) && AllFit(rest)
  {
    var es := [e] + rest;
    assert es[0] == e && es[1..] == rest;
    if FitsElement(e) && AllFit(rest) {
      forall i | 0 <= i < |es| ensures FitsElement(es[i]) {
        if i > 0 { assert es[i] == rest[i - 1]; }
      }
    }
    if AllFit(es) {
      forall i | 0 <= i < |rest| ensures FitsElement(rest[i]) {
        assert rest[i] == es[i + 1];
      }
    }
  }

  lemma JoinElem(p: Bytes, size: nat, e: Event, rest: seq<Event>)
    requires 2 + size <= |p|
    requires ElemBytes(e) == p[..2] + p[2..2 + size] && ElemsBytes(rest) == p[2 + size..]
    requires FitsElement(e) && AllFit(rest)
    ensures ElemsBytes([e] + rest) == p && AllFit([e] + rest)
  {
    ElemsCons(e, rest);
    CutInThree(p, 2, 2 + size);
  }

  lemma {:induction false} ElemsBytesOfDecode(p: Body, n: nat, es: seq<Event>)
    requires DecodeElems(p, n) == Success(es)
    ensures ElemsBytes(es) == p && AllFit(es)
    decreases n
  {
    if n > 0 {
      DecodeElemsStep(p, n);
      var size := ReadU16(p[..2]);
      var body, tail := p[2..2 + size], p[2 + size..];
      var e, rest := DecodeEvent(body).value, DecodeElems(tail, n - 1).value;
      ElemsBytesOfDecode(tail, n - 1, rest);
      ElemBytesOfDecode(p[..2], body);
      JoinElem(p, size, e, rest);
    }
  }

  lemma JoinBatch(p: Bytes, b: EventBatch)
    requires |p| >= 6
    requires ReadU16(p[..2]) == |b.events| && ReadU32(p[2..6]) == b.dataSize
    requires ElemsBytes(b.events) == p[6..]
    ensures BatchBytes(b) == p
  {
    WriteBack16(p[..2]);
    WriteBack32(p[2..6]);
    CutInThree(p, 2, 6);
  }

  /** Whatever decodes is the encoding of what it decodes to. */
  lemma BatchBytesOfDecode(p: Body)
    requires DecodeBatch(p).Success?
    ensures ValidBatch(DecodeBatch(p).value)
    ensures BatchBytes(DecodeBatch(p).value) == p
  {
    var b := DecodeBatch(p).value;
    ElemsBytesOfDecode(p[6..], ReadU16(p[..2]), b.events);
    JoinBatch(p, b);
  }

  /** Where the fields of a batch stand. */
  lemma BatchLayout(b: EventBatch, rest: Bytes)
    requires |b.events| <= U16_MAX
    ensures var s := BatchBytes(b) + rest;
            && ReadU16(s[..2]) == |b.events| && ReadU32(s[2..6]) == b.dataSize
            && s[6..] == ElemsBytes(b.events) + rest
  {
    var p := BatchBytes(b) + rest;
    assert p[..2] == BE(|b.events|, 2) && p[2..6] == BE(b.dataSize, 4) && p[6..] == ElemsBytes(b.events) + rest;
    ReadBack16(|b.events|);
    ReadBack32(b.dataSize);
  }

  /** The decoder inverts the encoder on exactly the valid batches. */
  lemma DecodeOfBatchBytes(b: EventBatch)
    requires |b.events| <= U16_MAX && BATCH_FIXED + ElemsSize(b.events) <= 0xFFFF_FFD3
    ensures DecodeBatch(BatchBytes(b)) == Success(b) <==> ValidBatch(b)
  {
    var p := BatchBytes(b);
    if ValidBatch(b) {
      BatchLayout(b, []);
      assert p + [] == p && ElemsBytes(b.events) + [] == ElemsBytes(b.events);
      DecodeOfElemsBytes(b.events);
    }
    if DecodeBatch(p) == Success(b) {
      BatchBytesOfDecode(p);
    }
  }

  /** The decoder accepts exactly the encodings of valid batches. */
  lemma BatchDecoderLanguage(p: Body)
    ensures DecodeBatch(p).Success? <==> exists b :: ValidBatch(b) && BatchBytes(b) == p
  {
    if DecodeBatch(p).Success? {
      BatchBytesOfDecode(p);
    }
    if b :| ValidBatch(b) && BatchBytes(b) == p {
      DecodeOfBatchBytes(b);
    }
  }

  lemma {:induction false} ElemsAppend(es: seq<Event>, fs: seq<Event>)
    ensures ElemsBytes(es + fs) == ElemsBytes(es) + ElemsBytes(fs)
    ensures ElemsSize(es + fs) == ElemsSize(es) + ElemsSize(fs)
  {
    if es == [] {
      assert es + fs == fs;
    } else {
      AppendCons(es, fs);
      ElemsCons(es[0], es[1..] + fs);
      ElemsAppend(es[1..], fs);
      Reassociate(ElemBytes(es[0]), ElemsBytes(es[1..]), ElemsBytes(fs));
    }
  }

  // ---------------------------------------------------------- acknowledgements

  function AckBytes(seqNum: uint64): (s: Body) { BE(seqNum, 8) }

  function DecodeAck(p: Body): (r: Result<uint64>) {
    if |p| != 8 then Failure(BadFrame) else Success(ReadU64(p))
  }

  lemma DecodeOfAckBytes(seqNum: uint64)
    ensures DecodeAck(AckBytes(seqNum)) == Success(seqNum)
  {
    ReadBack64(seqNum);
  }

  lemma AckBytesOfDecode(p: Body)
    requires DecodeAck(p).Success?
    ensures AckBytes(DecodeAck(p).value) == p
  {
    WriteBack64(p);
  }

  // ------------------------------------------------------------- envelopes

  datatype Envelope = Envelope(kind: uint32, sender: Id, recipient: Id, body: Body)

  function EnvelopeBytes(v: Envelope): (s: FramePayload)
    ensures |s| == ENVELOPE_HEADER + |v.body|
  {
    BE(v.kind, 4) + v.sender + v.recipient + BE(|v.body|, 4) + v.body
  }

  function DecodeEnvelope(p: FramePayload): (r: Result<Envelope>) {
    if |p| < ENVELOPE_HEADER then Failure(BadFrame)
    else if ReadU32(p[36..40]) != |p| - ENVELOPE_HEADER then Failure(BadFrame)
    else Success(Envelope(ReadU32(p[..4]), p[4..20], p[20..36], p[40..]))
  }

  /** Where the fields of an envelope stand. */
  lemma EnvelopeLayout(v: Envelope)
    ensures var s := EnvelopeBytes(v);
            && ReadU32(s[..4]) == v.kind && s[4..20] == v.sender && s[20..36] == v.recipient
            && ReadU32(s[36..40]) == |v.body| && s[40..] == v.body
  {
    var s := EnvelopeBytes(v);
    assert s[..4] == BE(v.kind, 4) && s[4..20] == v.sender && s[20..36] == v.recipient;
    assert s[36..40] == BE(|v.body|, 4) && s[40..] == v.body;
    ReadBack32(v.kind);
    ReadBack32(|v.body|);
  }

  lemma DecodeOfEnvelopeBytes(v: Envelope)
    ensures DecodeEnvelope(EnvelopeBytes(v)) == Success(v)
  {
    EnvelopeLayout(v);
  }

  lemma EnvelopeBytesOfDecode(p: FramePayload)
    requires DecodeEnvelope(p).Success?
    ensures EnvelopeBytes(DecodeEnvelope(p).value) == p
  {
    WriteBack32(p[..4]);
    WriteBack32(p[36..40]);
    assert p == p[..4] + p[4..20] + p[20..36] + p[36..40] + p[40..];
  }

  // ---------------------------------------------------------------- frames

  datatype Frame = Frame(protoVer: uint16, msgType: uint16, payload: FramePayload)

  function FrameBytes(f: Frame): (s: Bytes)
    ensures |s| == FRAME_HEADER + |f.payload|
  {
    BE(FRAME_METADATA + |f.payload|, 4) + BE(f.protoVer, 2) + BE(f.msgType, 2) + f.payload
  }

  lemma FrameHeader(f: Frame, rest: Bytes)
    ensures var s := FrameBytes(f) + rest;
            && ReadU32(s[..4]) == FRAME_METADATA + |f.payload|
            && ReadU16(s[4..6]) == f.protoVer
            && ReadU16(s[6..8]) == f.msgType
            && s[8..8 + |f.payload|] == f.payload
            && s[8 + |f.payload|..] == rest
  {
    var s := FrameBytes(f) + rest;
    var size := FRAME_METADATA + |f.payload|;
    assert s[..4] == BE(size, 4) && s[4..6] == BE(f.protoVer, 2) && s[6..8] == BE(f.msgType, 2);
    ReadBack32(size);
    ReadBack16(f.protoVer);
    ReadBack16(f.msgType);
  }

  lemma FrameBytesOfHeader(s: Bytes, f: Frame)
    requires |s| == 8 + |f.payload|
    requires ReadU32(s[..4]) == FRAME_METADATA + |f.payload|
    requires ReadU16(s[4..6]) == f.protoVer && ReadU16(s[6..8]) == f.msgType
    requires s[8..] == f.payload
    ensures FrameBytes(f) == s
  {
    WriteBack32(s[..4]);
    WriteBack16(s[4..6]);
    WriteBack16(s[6..8]);
    assert s == s[..4] + s[4..6] + s[6..8] + s[8..];
  }
}
