/** The decoders: each reads behind an advancing, bounds-checked offset. */
module Decoder {
  import opened Core
  import opened BigEndian
  import opened Codec

  /** The bounds check every read goes through. */
  function Take(p: Bytes, off: nat, len: nat): (r: Result<Bytes>)
    ensures r == if off + len <= |p| then Success(p[off..off + len]) else Failure(BadFrame)
  {
    if off > |p| || len > |p| - off then Failure(BadFrame) else Success(p[off..off + len])
  }

  method DecodeEventBody(p: Body) returns (r: Result<Event>)
    ensures r == DecodeEvent(p)
  {
    if |p| < EVENT_FIXED {
      return Failure(BadFrame);
    }
    // the fixed part is there, so these bounds checks pass
    var offset := 0;
    var seqBytes := Take(p, offset, 8).value;
    offset := offset + 8;
    var kindBytes := Take(p, offset, 4).value;
    offset := offset + 4;
    var sizeBytes := Take(p, offset, 4).value;
    offset := offset + 4;
    var dataSize := ReadU32(sizeBytes);
    var data := [];
    if dataSize > 0 {
      data :- Take(p, offset, dataSize);
      offset := offset + dataSize;
    }
    if offset != EVENT_FIXED + dataSize || offset != |p| {
      return Failure(BadFrame);
    }
    assert seqBytes == p[..8] && data == p[16..];
    return Success(Event(ReadU64(seqBytes), ReadU32(kindBytes), data));
  }

  /** The elements decoded so far in front of what the rest decodes to. */
  function Prepend(done: seq<Event>, r: Result<seq<Event>>): Result<seq<Event>> {
    match r
    case Failure(e) => Failure(e)
    case Success(rest) => Success(done + rest)
  }

  /** One element, read at its offset in the whole body. */
  lemma StepOfElems(p: Body, off: nat, n: nat)
    requires off <= |p| && n > 0
    ensures DecodeElems(p[off..], n) ==
            if |p| - off < 2 then Failure(BadFrame)
            else
              var size := ReadU16(p[off..off + 2]);
              if size < EVENT_FIXED then Failure(BadEnvelope)
              else if |p| - (off + 2) < size then Failure(BadFrame)
              else
                match DecodeEvent(p[off + 2..off + 2 + size])
                case Failure(e) => Failure(e)
                case Success(e) => Prepend([e], DecodeElems(p[off + 2 + size..], n - 1))
  {
    var q := p[off..];
    if |q| >= 2 {
      assert q[..2] == p[off..off + 2];
      var size := ReadU16(q[..2]);
      if |q| - 2 >= size {
        assert q[2..2 + size] == p[off + 2..off + 2 + size];
        assert q[2 + size..] == p[off + 2 + size..];
      }
    }
  }

  /** Reads the first of `n` elements at `off`. */
  method DecodeElement(p: Body, off: nat, ghost n: nat) returns (r: Result<Event>, next: nat)
    requires off <= |p| && n > 0
    ensures off <= next <= |p|
    ensures DecodeElems(p[off..], n) ==
            match r
            case Failure(e) => Failure(e)
            case Success(e) => Prepend([e], DecodeElems(p[next..], n - 1))
  {
    StepOfElems(p, off, n);
    if off > |p| || 2 > |p| - off {
      return Failure(BadFrame), off;
    }
    var elemSize := ReadU16(p[off..off + 2]);
    var offset := off + 2;
    if elemSize < EVENT_FIXED {
      return Failure(BadEnvelope), offset;
    }
    if offset > |p| || |p| - offset < elemSize {
      return Failure(BadFrame), offset;
    }
    r := DecodeEventBody(p[offset..offset + elemSize]);
    return r, offset + elemSize;
  }

  lemma PrependNothing(r: Result<seq<Event>>)
    ensures Prepend([], r) == r
  {
    if r.Success? {
      assert [] + r.value == r.value;
    }
  }

  lemma PrependOnce(done: seq<Event>, e: Event, rest: Result<seq<Event>>)
    ensures Prepend(done, Prepend([e], rest)) == Prepend(done + [e], rest)
  {
    if rest.Success? {
      assert done + ([e] + rest.value) == done + [e] + rest.value;
    }
  }

  /** The element loop and the check that it ends where the body ends. */
  method DecodeElements(p: Body, off: nat, n: nat) returns (r: Result<seq<Event>>)
    requires off <= |p|
    ensures r == DecodeElems(p[off..], n)
  {
    var offset, events := off, [];
    PrependNothing(DecodeElems(p[off..], n));
    for i := 0 to n
      invariant off <= offset <= |p| && |events| == i
      invariant DecodeElems(p[off..], n) == Prepend(events, DecodeElems(p[offset..], n - i))
    {
      var e;
      e, offset := DecodeElement(p, offset, n - i);
      if e.Failure? {
        return Failure(e.error);
      }
      PrependOnce(events, e.value, DecodeElems(p[offset..], n - i - 1));
      events := events + [e.value];
    }
    if offset != |p| {
      return Failure(BadFrame);
    }
    assert events + [] == events;
    return Success(events);
  }

  method DecodeEventBatchBody(p: Body) returns (r: Result<EventBatch>)
    ensures r == DecodeBatch(p)
  {
    if |p| < BATCH_FIXED {
      return Failure(BadFrame);
    }
    var offset := 0;
    var countBytes := Take(p, offset, 2).value;
    offset := offset + 2;
    var nEvents := ReadU16(countBytes);
    if nEvents > BATCH_MAX_EVENTS {
      return Failure(BadEnvelope);
    }
    var sizeBytes := Take(p, offset, 4).value;
    offset := offset + 4;
    var dataSize := ReadU32(sizeBytes);
    var decodedSize := BATCH_FIXED + dataSize;
    if |p| < decodedSize {
      return Failure(Overflow);
    }
    if offset + dataSize != |p| {
      return Failure(BadEnvelope);
    }
    var events :- DecodeElements(p, offset, nEvents);
    return Success(EventBatch(dataSize, events));
  }

  method DecodeEventAckBody(p: Body) returns (r: Result<uint64>)
    ensures r == DecodeAck(p)
  {
    if |p| != 8 {
      return Failure(BadFrame);
    }
    var seqBytes := Take(p, 0, 8).value;
    assert p[0..8] == p;
    return Success(ReadU64(seqBytes));
  }

  method DecodeEnvelopeBytes(p: FramePayload) returns (r: Result<Envelope>)
    ensures r == DecodeEnvelope(p)
  {
    if |p| < ENVELOPE_HEADER {
      return Failure(BadFrame);
    }
    var kindBytes := Take(p, 0, 4).value;
    var sender := Take(p, 4, 16).value;
    var recipient := Take(p, 20, 16).value;
    var sizeBytes := Take(p, 36, 4).value;
    var offset := 40;
    var bodySize := ReadU32(sizeBytes);
    if bodySize != |p| - offset {
      return Failure(BadFrame);
    }
    var body := [];
    if bodySize != 0 {
      body := Take(p, offset, bodySize).value;
    }
    assert kindBytes == p[..4] && body == p[40..];
    return Success(Envelope(ReadU32(kindBytes), sender, recipient, body));
  }
}
