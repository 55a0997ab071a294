/** The encoders: each writes into a caller's buffer behind an advancing offset. The
    buffer pointer is an array and a base index, so an encoder can be handed the rest
    of a larger buffer. */
module Encoder {
  import opened Core
  import opened BigEndian
  import opened Codec

  /** The buffer `s` once `t` was copied to `at`. */
  function Put(s: Bytes, at: nat, t: Bytes): (r: Bytes)
    requires at + |t| <= |s|
    ensures |r| == |s|
  {
    s[..at] + t + s[at + |t|..]
  }

  /** Two adjacent stretches written one after the other are one stretch. */
  lemma PutPut(s: Bytes, at: nat, t: Bytes, u: Bytes)
    requires at + |t| + |u| <= |s|
    ensures Put(Put(s, at, t), at + |t|, u) == Put(s, at, t + u)
  {
    var r := Put(s, at, t);
    assert r[..at + |t|] == s[..at] + t;
    assert r[at + |t| + |u|..] == s[at + |t| + |u|..];
  }

  lemma PutWhole(s: Bytes, t: Bytes)
    requires |s| == |t|
    ensures Put(s, 0, t) == t
  {
  }

  lemma PutKeepsRest(s: Bytes, at: nat, t: Bytes, cap: nat)
    requires at + |t| <= cap <= |s|
    ensures Put(s, at, t)[cap..] == s[cap..]
  {
  }

  function AppendStatus(cap: nat, off: nat, len: nat): Status {
    if off > cap || len > cap - off then Overflow else Ok
  }

  /** Continues what an encoder has `done` so far on a buffer that `was`. */
  method Append(buf: array<uint8>, base: nat, cap: nat, off: nat, src: Bytes, ghost was: Bytes, ghost done: Bytes)
    returns (st: Status)
    requires base + cap <= buf.Length == |was| && base + off <= buf.Length
    requires off == |done| && buf[..] == Put(was, base, done)
    modifies buf
    ensures st == AppendStatus(cap, off, |src|)
    ensures if st == Ok then |done + src| <= cap && buf[..] == Put(was, base, done + src)
            else buf[..] == Put(was, base, done)
  {
    if off > cap {
      return Overflow;
    }
    if |src| > cap - off {
      return Overflow;
    }
    ghost var s := buf[..];
    forall i | 0 <= i < |src| {
      buf[base + off + i] := src[i];
    }
    assert buf[..] == Put(s, base + off, src);
    PutPut(was, base, done, src);
    return Ok;
  }

  method AppendInt(
    buf: array<uint8>, base: nat, cap: nat, off: nat, v: nat, width: nat, ghost was: Bytes, ghost done: Bytes)
    returns (st: Status)
    requires base + cap <= buf.Length == |was| && base + off <= buf.Length
    requires off == |done| && buf[..] == Put(was, base, done)
    modifies buf
    ensures st == AppendStatus(cap, off, width)
    ensures if st == Ok then |done + BE(v, width)| <= cap && buf[..] == Put(was, base, done + BE(v, width))
            else buf[..] == Put(was, base, done)
  {
    if off > cap {
      return Overflow;
    }
    if width > cap - off {
      return Overflow;
    }
    ghost var s := buf[..];
    var at := base + off;
    WriteBE(buf, at, width, v);
    assert buf[..] == buf[..at] + buf[at..at + width] + buf[at + width..];
    assert buf[..] == Put(s, at, BE(v, width));
    PutPut(was, base, done, BE(v, width));
    return Ok;
  }

  lemma EventFromNothing(e: Event)
    ensures [] + BE(e.seqNum, 8) + BE(e.kind, 4) + BE(|e.data|, 4) + e.data == EventBytes(e)
    ensures |e.data| == 0 ==> [] + BE(e.seqNum, 8) + BE(e.kind, 4) + BE(|e.data|, 4) == EventBytes(e)
  {
    assert [] + BE(e.seqNum, 8) == BE(e.seqNum, 8);
  }

  method EncodeEventBody(buf: array<uint8>, base: nat, cap: nat, e: Event)
    returns (st: Status, size: nat)
    requires base + cap <= buf.Length
    modifies buf
    ensures st == if cap < BodySize(e) then Overflow else Ok
    ensures size == if st == Ok then BodySize(e) else 0
    ensures buf[..] == if st == Ok then Put(old(buf[..]), base, EventBytes(e)) else old(buf[..])
  {
    if cap < BodySize(e) {
      return Overflow, 0;
    }
    ghost var was, done: Bytes := buf[..], [];
    var offset := 0;
    st := AppendInt(buf, base, cap, offset, e.seqNum, 8, was, done);
    offset, done := offset + 8, done + BE(e.seqNum, 8);
    st := AppendInt(buf, base, cap, offset, e.kind, 4, was, done);
    offset, done := offset + 4, done + BE(e.kind, 4);
    st := AppendInt(buf, base, cap, offset, |e.data|, 4, was, done);
    offset, done := offset + 4, done + BE(|e.data|, 4);
    if |e.data| > 0 {
      st := Append(buf, base, cap, offset, e.data, was, done);
      offset := offset + |e.data|;
    }
    EventFromNothing(e);
    return Ok, offset;
  }

  function BatchStatus(b: EventBatch, cap: nat): Status {
    if cap < BATCH_FIXED + b.dataSize then Overflow
    else if cap < BATCH_FIXED + ElemsSize(b.events) then Overflow
    else if b.dataSize != ElemsSize(b.events) then Invalid
    else Ok
  }

  /** The buffer must hold the declared and the real data, and they must be the same. */
  lemma BatchStatusSays(b: EventBatch, cap: nat)
    ensures var need := BATCH_FIXED + Max(b.dataSize, ElemsSize(b.events));
            && (BatchStatus(b, cap) == Overflow <==> cap < need)
            && (BatchStatus(b, cap) == Invalid <==> cap >= need && b.dataSize != ElemsSize(b.events))
            && (BatchStatus(b, cap) == Ok <==> cap >= need && b.dataSize == ElemsSize(b.events))
  {
  }

  function BatchHead(b: EventBatch): Bytes { BE(|b.events|, 2) + BE(b.dataSize, 4) }

  /** The batch encoded up to its first `i` events. */
  function BatchPrefix(b: EventBatch, i: nat): Bytes
    requires i <= |b.events|
  {
    BatchHead(b) + ElemsBytes(b.events[..i])
  }

  lemma ElemsSnoc(es: seq<Event>, e: Event)
    ensures ElemsBytes(es + [e]) == ElemsBytes(es) + ElemBytes(e)
  {
    ElemsAppend(es, [e]);
    ElemsCons(e, []);
    assert [e] + [] == [e];
  }

  lemma SizeOfRest(es: seq<Event>, i: nat)
    requires i <= |es|
    ensures ElemsSize(es[..i]) <= ElemsSize(es)
  {
    assert es == es[..i] + es[i..];
    ElemsAppend(es[..i], es[i..]);
  }

  lemma NextElement(b: EventBatch, i: nat)
    requires i < |b.events|
    ensures BatchPrefix(b, i + 1) ==
            BatchPrefix(b, i) + (BE(BodySize(b.events[i]) % 0x1_0000, 2) + EventBytes(b.events[i]))
    ensures |BatchPrefix(b, i + 1)| <= |BatchBytes(b)|
  {
    var es, e := b.events, b.events[i];
    ElemsSnoc(es[..i], e);
    assert es[..i + 1] == es[..i] + [e];
    SizeOfRest(es, i + 1);
  }

  lemma ElementDone(was: Bytes, done: Bytes, head: Bytes, body: Bytes, cap: nat)
    requires |done| + |head| + |body| <= cap <= |was|
    ensures Put(Put(was, 0, done + head), |done + head|, body) == Put(was, 0, done + (head + body))
    ensures Put(was, 0, done + (head + body))[cap..] == was[cap..]
  {
    PutPut(was, 0, done + head, body);
    assert done + head + body == done + (head + body);
    PutKeepsRest(was, 0, done + head + body, cap);
  }

  /** Writes element `i` behind the first `i`. */
  method EncodeElement(buf: array<uint8>, cap: nat, b: EventBatch, i: nat, off: nat, ghost was: Bytes)
    returns (st: Status, next: nat)
    requires cap <= buf.Length == |was| && i < |b.events|
    requires off == |BatchPrefix(b, i)| <= cap && buf[..] == Put(was, 0, BatchPrefix(b, i))
    modifies buf
    ensures st == if |BatchPrefix(b, i + 1)| <= cap then Ok else Overflow
    ensures st == Ok ==> next == |BatchPrefix(b, i + 1)| && buf[..] == Put(was, 0, BatchPrefix(b, i + 1))
    ensures buf[cap..] == was[cap..]
  {
    NextElement(b, i);
    ghost var done, head := BatchPrefix(b, i), BE(BodySize(b.events[i]) % 0x1_0000, 2);
    PutKeepsRest(was, 0, done, cap);
    var offset := off;
    var bodySize := BodySize(b.events[i]);
    st := AppendInt(buf, 0, cap, offset, bodySize % 0x1_0000, 2, was, done);
    if st != Ok {
      return st, offset;
    }
    offset := offset + 2;
    PutKeepsRest(was, 0, done + head, cap);
    var returned;
    st, returned := EncodeEventBody(buf, offset, cap - offset, b.events[i]);
    if st != Ok {
      return st, offset;
    }
    ElementDone(was, done, head, EventBytes(b.events[i]), cap);
    return Ok, offset + returned;
  }

  /** Succeeds exactly when the declared data size is the real one and fits. */
  method EncodeEventBatchBody(buf: array<uint8>, cap: nat, b: EventBatch)
    returns (st: Status, size: nat)
    requires cap <= buf.Length && |b.events| <= U16_MAX
    modifies buf
    ensures st == BatchStatus(b, cap)
    ensures size == if st == Ok then |BatchBytes(b)| else 0
    ensures st == Ok ==> buf[..] == Put(old(buf[..]), 0, BatchBytes(b))
    ensures buf[cap..] == old(buf[cap..])
  {
    ghost var was := buf[..];
    var encodedSize := BATCH_FIXED + b.dataSize;
    if cap < encodedSize {
      return Overflow, 0;
    }
    var offset := 0;
    st := AppendInt(buf, 0, cap, offset, |b.events|, 2, was, []);
    offset := offset + 2;
    st := AppendInt(buf, 0, cap, offset, b.dataSize, 4, was, [] + BE(|b.events|, 2));
    offset := offset + 4;
    assert BatchPrefix(b, 0) == [] + BE(|b.events|, 2) + BE(b.dataSize, 4);
    PutKeepsRest(was, 0, BatchPrefix(b, 0), cap);
    for i := 0 to |b.events|
      invariant offset == |BatchPrefix(b, i)| <= cap
      invariant buf[..] == Put(was, 0, BatchPrefix(b, i))
      invariant buf[cap..] == was[cap..]
    {
      st, offset := EncodeElement(buf, cap, b, i, offset, was);
      if st != Ok {
        NextElement(b, i);
        return st, 0;
      }
    }
    assert b.events[..|b.events|] == b.events;
    if offset != encodedSize {
      return Invalid, 0;
    }
    return Ok, offset;
  }

  method EncodeEventAckBody(buf: array<uint8>, cap: nat, seqNum: uint64) returns (st: Status, size: nat)
    requires cap <= buf.Length
    modifies buf
    ensures st == if cap < 8 then Overflow else Ok
    ensures size == if st == Ok then 8 else 0
    ensures buf[..] == if st == Ok then Put(old(buf[..]), 0, AckBytes(seqNum)) else old(buf[..])
  {
    if cap < 8 {
      return Overflow, 0;
    }
    st := AppendInt(buf, 0, cap, 0, seqNum, 8, buf[..], []);
    assert [] + BE(seqNum, 8) == AckBytes(seqNum);
    return st, 8;
  }

  lemma EnvelopeFromNothing(v: Envelope)
    ensures [] + BE(v.kind, 4) + v.sender + v.recipient + BE(|v.body|, 4) + v.body == EnvelopeBytes(v)
    ensures |v.body| == 0 ==> [] + BE(v.kind, 4) + v.sender + v.recipient + BE(|v.body|, 4) == EnvelopeBytes(v)
  {
    assert [] + BE(v.kind, 4) == BE(v.kind, 4);
  }

  method EncodeEnvelope(buf: array<uint8>, cap: nat, v: Envelope) returns (st: Status, size: nat)
    requires cap <= buf.Length
    modifies buf
    ensures st == if cap < |EnvelopeBytes(v)| then Overflow else Ok
    ensures size == if st == Ok then |EnvelopeBytes(v)| else 0
    ensures buf[..] == if st == Ok then Put(old(buf[..]), 0, EnvelopeBytes(v)) else old(buf[..])
  {
    var inSize := ENVELOPE_HEADER + |v.body|;
    if cap < inSize {
      return Overflow, 0;
    }
    ghost var was, done: Bytes := buf[..], [];
    st := AppendInt(buf, 0, cap, 0, v.kind, 4, was, done);
    done := done + BE(v.kind, 4);
    st := Append(buf, 0, cap, 4, v.sender, was, done);
    done := done + v.sender;
    st := Append(buf, 0, cap, 20, v.recipient, was, done);
    done := done + v.recipient;
    st := AppendInt(buf, 0, cap, 36, |v.body|, 4, was, done);
    done := done + BE(|v.body|, 4);
    if |v.body| > 0 {
      st := Append(buf, 0, cap, 40, v.body, was, done);
    }
    EnvelopeFromNothing(v);
    return Ok, inSize;
  }

  lemma FrameFromNothing(f: Frame)
    ensures [] + BE(FRAME_METADATA + |f.payload|, 4) + BE(f.protoVer, 2) + BE(f.msgType, 2) + f.payload == FrameBytes(f)
    ensures |f.payload| == 0 ==>
              [] + BE(FRAME_METADATA + |f.payload|, 4) + BE(f.protoVer, 2) + BE(f.msgType, 2) == FrameBytes(f)
  {
    assert [] + BE(FRAME_METADATA + |f.payload|, 4) == BE(FRAME_METADATA + |f.payload|, 4);
  }

  method EncodeFrame(buf: array<uint8>, cap: nat, f: Frame) returns (st: Status, size: nat)
    requires cap <= buf.Length
    modifies buf
    ensures st == if cap < |FrameBytes(f)| then Overflow else Ok
    ensures size == if st == Ok then |FrameBytes(f)| else 0
    ensures buf[..] == if st == Ok then Put(old(buf[..]), 0, FrameBytes(f)) else old(buf[..])
  {
    var dataSize := FRAME_HEADER + |f.payload|;
    if cap < dataSize {
      return Overflow, 0;
    }
    ghost var was, done: Bytes := buf[..], [];
    var frameSize := FRAME_METADATA + |f.payload|;
    st := AppendInt(buf, 0, cap, 0, frameSize, 4, was, done);
    done := done + BE(frameSize, 4);
    st := AppendInt(buf, 0, cap, 4, f.protoVer, 2, was, done);
    done := done + BE(f.protoVer, 2);
    st := AppendInt(buf, 0, cap, 6, f.msgType, 2, was, done);
    done := done + BE(f.msgType, 2);
    if |f.payload| > 0 {
      st := Append(buf, 0, cap, 8, f.payload, was, done);
    }
    FrameFromNothing(f);
    return Ok, dataSize;
  }
}
