/** The server's side of reading: it reassembles frames from an input queue. */
module Framing {
  import opened Core
  import opened BigEndian
  import opened Codec
  import opened Transport

  // ------------------------------------------------------- one frame in a buffer

  function DecodeFrame(p: Bytes): Result<Frame> {
    if |p| < FRAME_HEADER then Failure(Incomplete)
    else
      var frameSize := ReadU32(p[..4]);
      if frameSize < FRAME_METADATA then Failure(BadFrame)
      else if frameSize - FRAME_METADATA > MAX_CTS_PAYLOAD then Failure(TooLarge)
      else if frameSize > MAX_CTS_FRAME then Failure(TooLarge)
      else if |p| < 4 + frameSize then Failure(Incomplete)
      else if ReadU16(p[4..6]) != PROTO_VERSION then Failure(UnsupportedVer)
      else if |p| > 4 + frameSize then Failure(BadFrame)
      else Success(Frame(ReadU16(p[4..6]), ReadU16(p[6..8]), p[8..]))
  }

  /** The server's decoder with its offsets, a copied payload and a final
      check that refuses an offset short of the payload or of the whole buffer. */
  method TryParseFromBuffer(p: Bytes) returns (r: Result<Frame>, consumed: nat)
    ensures r == DecodeFrame(p)
    ensures consumed == if r.Success? then |FrameBytes(r.value)| else 0
  {
    consumed := 0;
    if |p| < FRAME_HEADER {
      return Failure(Incomplete), consumed;
    }
    var frameSize := ReadU32(p[..4]);
    var offset := 4;
    if frameSize < FRAME_METADATA {
      return Failure(BadFrame), consumed;
    }
    var payloadSize := frameSize - FRAME_METADATA;
    if payloadSize > MAX_CTS_PAYLOAD {
      return Failure(TooLarge), consumed;
    }
    if frameSize > MAX_CTS_FRAME {
      return Failure(TooLarge), consumed;
    }
    if |p| < 4 + frameSize {
      return Failure(Incomplete), consumed;
    }
    var protoVer := ReadU16(p[offset..offset + 2]);
    offset := offset + 2;
    var msgType := ReadU16(p[offset..offset + 2]);
    offset := offset + 2;
    if protoVer != PROTO_VERSION {
      return Failure(UnsupportedVer), consumed;
    }
    var payload := [];
    if payloadSize > 0 {
      payload := p[offset..offset + payloadSize];
      offset := offset + payloadSize;
    }
    if offset < FRAME_HEADER + payloadSize || offset < |p| {
      return Failure(BadFrame), consumed;
    }
    assert payload == p[8..];
    return Success(Frame(protoVer, msgType, payload)), 4 + frameSize;
  }

  /** A frame the server is prepared to read. */
  predicate ValidCts(f: Frame) { f.protoVer == PROTO_VERSION && |f.payload| <= MAX_CTS_PAYLOAD }

  /** The decoder accepts a buffer exactly when it holds one valid frame and nothing
      else. */
  lemma DecodesExactlyOneFrame(p: Bytes, f: Frame)
    ensures DecodeFrame(p) == Success(f) <==> ValidCts(f) && p == FrameBytes(f)
  {
    if ValidCts(f) && p == FrameBytes(f) {
      assert p == FrameBytes(f) + [];
      FrameHeader(f, []);
      assert p[8..] == f.payload;
    }
    if DecodeFrame(p) == Success(f) {
      FrameBytesOfHeader(p, f);
    }
  }

  /** Every proper prefix of a valid frame is reported incomplete; anything behind it
      makes the whole buffer a bad frame. */
  lemma PrefixAndExcess(f: Frame, n: nat, rest: Bytes)
    requires ValidCts(f)
    ensures n < |FrameBytes(f)| ==> DecodeFrame(FrameBytes(f)[..n]) == Failure(Incomplete)
    ensures rest != [] ==> DecodeFrame(FrameBytes(f) + rest) == Failure(BadFrame)
  {
    var s := FrameBytes(f);
    FrameHeader(f, []);
    assert s + [] == s;
    if FRAME_HEADER <= n < |s| {
      assert s[..n][..4] == s[..4];
    }
    FrameHeader(f, rest);
  }

  function Zeros(n: nat): (s: Bytes)
    ensures |s| == n
  {
    seq(n, _ => 0)
  }

  /** A frame of the announced size that starts with these bytes. */
  lemma Completion(p: Bytes, size: nat) returns (f: Frame)
    requires FRAME_HEADER <= |p| <= 4 + size && FRAME_METADATA <= size <= U32_MAX && size == ReadU32(p[..4])
    ensures f.protoVer == ReadU16(p[4..6]) && |FrameBytes(f)| == 4 + size && p <= FrameBytes(f)
  {
    var s := p + Zeros(4 + size - |p|);
    f := Frame(ReadU16(p[4..6]), ReadU16(p[6..8]), s[8..]);
    assert s[..4] == p[..4] && s[4..6] == p[4..6] && s[6..8] == p[6..8];
    FrameBytesOfHeader(s, f);
  }

  lemma HeaderOfPrefix(p: Bytes, f: Frame)
    requires FRAME_HEADER <= |p| && p <= FrameBytes(f)
    ensures ReadU32(p[..4]) == FRAME_METADATA + |f.payload| && ReadU16(p[4..6]) == f.protoVer
  {
    FrameHeader(f, []);
    var s := FrameBytes(f) + [];
    assert p[..4] == s[..4] && p[4..6] == s[4..6];
  }

  /** Once the header is there, the decoder asks for more if and only if the bytes are a
      proper prefix of some frame that is not too large, of whatever version: the version
      is looked at when all bytes are there. */
  lemma IncompleteIffPrefix(p: Bytes)
    requires |p| >= FRAME_HEADER
    ensures DecodeFrame(p) == Failure(Incomplete) <==>
            exists f: Frame :: |f.payload| <= MAX_CTS_PAYLOAD && |p| < |FrameBytes(f)| && p <= FrameBytes(f)
  {
    if DecodeFrame(p) == Failure(Incomplete) {
      var f := Completion(p, ReadU32(p[..4]));
    }
    if f: Frame :| |f.payload| <= MAX_CTS_PAYLOAD && |p| < |FrameBytes(f)| && p <= FrameBytes(f) {
      HeaderOfPrefix(p, f);
    }
  }

  /** Bytes that start with a whole frame that is not too large: another version is named
      as such, and a frame with anything behind it is bad. */
  lemma WholeFrameDecides(f: Frame, rest: Bytes)
    requires |f.payload| <= MAX_CTS_PAYLOAD
    ensures DecodeFrame(FrameBytes(f) + rest) ==
            if f.protoVer != PROTO_VERSION then Failure(UnsupportedVer)
            else if rest != [] then Failure(BadFrame)
            else Success(f)
  {
    FrameHeader(f, rest);
    if rest == [] {
      assert (FrameBytes(f) + rest)[8..] == f.payload;
    }
  }

  /** A frame that announces too much or too little is refused on its header. */
  lemma HeaderDecides(p: Bytes)
    requires |p| >= FRAME_HEADER
    ensures DecodeFrame(p) == Failure(TooLarge) <==> ReadU32(p[..4]) > FRAME_METADATA + MAX_CTS_PAYLOAD
    ensures ReadU32(p[..4]) < FRAME_METADATA ==> DecodeFrame(p) == Failure(BadFrame)
  {
  }

  // ------------------------------------------------- reassembly on the server side

  /** What one attempt to read reports. */
  datatype Arrival = Chunk(bytes: Bytes) | NoneYet | NeedsWrite | PeerClosed | ReadFailed

  const READ_SIZE := 4096

  datatype ReadOutcome = ReadOutcome(result: TransportResult, frame: Option<Frame>, data: Bytes, rest: seq<Arrival>)

  /** Parse, read more while incomplete, parse again; with no attempt left the
      connection waits for data. */
  function TryRead(data: Bytes, arrivals: seq<Arrival>): ReadOutcome
    decreases |arrivals|
  {
    match DecodeFrame(data)
    case Success(f) => ReadOutcome(Complete, Some(f), data[Min(|FrameBytes(f)|, |data|)..], arrivals)
    case Failure(e) =>
      if e != Incomplete then ReadOutcome(Error, None, data, arrivals)
      else if arrivals == [] then ReadOutcome(WantRead, None, data, [])
      else
        var rest := arrivals[1..];
        match arrivals[0]
        case Chunk(bytes) =>
          if |data| + |bytes| > MAX_QUEUE then ReadOutcome(Error, None, data, rest)
          else TryRead(data + bytes, rest)
        case NoneYet => ReadOutcome(WantRead, None, data, rest)
        case NeedsWrite => ReadOutcome(WantWrite, None, data, rest)
        case PeerClosed => ReadOutcome(ClosedByPeer, None, data, rest)
        case ReadFailed => ReadOutcome(Error, None, data, rest)
  }

  lemma TryReadProgress(data: Bytes, arrivals: seq<Arrival>)
    ensures var o := TryRead(data, arrivals);
            && |o.rest| <= |arrivals|
            && (o.result == Complete ==> o.frame.Some? && (|o.rest| < |arrivals| || |o.data| < |data|))
            && ((o.result == WantRead || o.result == WantWrite) && arrivals != [] ==> |o.rest| < |arrivals|)
    decreases |arrivals|
  {
    var d := DecodeFrame(data);
    if d.Success? {
      DecodesExactlyOneFrame(data, d.value);
    } else if arrivals != [] && arrivals[0].Chunk? && |data| + |arrivals[0].bytes| <= MAX_QUEUE {
      TryReadProgress(data + arrivals[0].bytes, arrivals[1..]);
    }
  }

  /** The bytes of the first `k` arrivals. */
  function Until(data: Bytes, arrivals: seq<Arrival>, k: nat): Bytes
    requires k <= |arrivals|
  {
    data + Arrived(arrivals[..k])
  }

  /** Arrival `j` brings bytes, the queue takes them, and before it no frame was complete. */
  ghost predicate Passes(data: Bytes, arrivals: seq<Arrival>, j: nat)
    requires j < |arrivals|
  {
    && arrivals[j].Chunk?
    && DecodeFrame(Until(data, arrivals, j)) == Failure(Incomplete)
    && |Until(data, arrivals, j + 1)| <= MAX_QUEUE
  }

  /** The reading goes on past `k` arrivals. */
  ghost predicate GoesOn(data: Bytes, arrivals: seq<Arrival>, k: nat)
    requires k <= |arrivals|
  {
    forall j :: 0 <= j < k ==> Passes(data, arrivals, j)
  }

  /** The reading ends there with this outcome: a frame, alone in the queue; a refusal; or
      what the attempt to read more ran into. */
  ghost predicate EndsWith(o: ReadOutcome, data: Bytes, rest: seq<Arrival>) {
    match DecodeFrame(data)
    case Success(f) => o == ReadOutcome(Complete, Some(f), [], rest)
    case Failure(e) =>
      if e != Incomplete then o == ReadOutcome(Error, None, data, rest)
      else if rest == [] then o == ReadOutcome(WantRead, None, data, [])
      else
        && o.frame == None && o.data == data && o.rest == rest[1..]
        && match rest[0]
           case Chunk(bytes) => |data| + |bytes| > MAX_QUEUE && o.result == Error
           case NoneYet => o.result == WantRead
           case NeedsWrite => o.result == WantWrite
           case PeerClosed => o.result == ClosedByPeer
           case ReadFailed => o.result == Error
  }

  lemma UntilNext(data: Bytes, arrivals: seq<Arrival>, k: nat)
    requires k < |arrivals| && arrivals[0].Chunk?
    ensures Until(data, arrivals, k + 1) == Until(data + arrivals[0].bytes, arrivals[1..], k)
    ensures Until(data, arrivals, 0) == data
  {
    assert arrivals[..k + 1][1..] == arrivals[1..][..k];
    Reassociate(data, arrivals[0].bytes, Arrived(arrivals[1..][..k]));
  }

  lemma GoesOnNext(data: Bytes, arrivals: seq<Arrival>, k: nat)
    requires k < |arrivals| && arrivals[0].Chunk?
    requires DecodeFrame(data) == Failure(Incomplete) && |data| + |arrivals[0].bytes| <= MAX_QUEUE
    requires GoesOn(data + arrivals[0].bytes, arrivals[1..], k)
    ensures GoesOn(data, arrivals, k + 1)
  {
    forall j | 0 <= j < k + 1 ensures Passes(data, arrivals, j) {
      UntilNext(data, arrivals, j);
      if j > 0 {
        UntilNext(data, arrivals, j - 1);
        assert Passes(data + arrivals[0].bytes, arrivals[1..], j - 1);
      } else {
        assert Until(data + arrivals[0].bytes, arrivals[1..], 0) == data + arrivals[0].bytes;
      }
    }
  }

  /** Where a read ends, and with what: it goes on as long as there are bytes that the
      queue takes and that do not complete a frame. */
  lemma {:induction false} ReadEndsWhere(data: Bytes, arrivals: seq<Arrival>) returns (k: nat)
    ensures k <= |arrivals| && GoesOn(data, arrivals, k)
    ensures EndsWith(TryRead(data, arrivals), Until(data, arrivals, k), arrivals[k..])
    decreases |arrivals|
  {
    k := 0;
    assert Until(data, arrivals, 0) == data && arrivals[0..] == arrivals;
    var d := DecodeFrame(data);
    if d.Success? {
      DecodesExactlyOneFrame(data, d.value);
    } else if d == Failure(Incomplete) && arrivals != [] && arrivals[0].Chunk? {
      var bytes := arrivals[0].bytes;
      if |data| + |bytes| <= MAX_QUEUE {
        var j := ReadEndsWhere(data + bytes, arrivals[1..]);
        k := j + 1;
        GoesOnNext(data, arrivals, j);
        UntilNext(data, arrivals, j);
        assert arrivals[1..][j..] == arrivals[k..];
      }
    }
  }

  method TryFullRead(q: TransportQueue, arrivals: seq<Arrival>)
    returns (result: TransportResult, frame: Option<Frame>, rest: seq<Arrival>)
    requires q.Shaped() && Valid(q.Contents()) && q.off == 0
    requires forall i :: 0 <= i < |arrivals| && arrivals[i].Chunk? ==> 1 <= |arrivals[i].bytes| <= READ_SIZE
    modifies q, q.buf
    ensures q.Shaped() && Valid(q.Contents()) && q.off == 0
    ensures ReadOutcome(result, frame, q.Contents().data, rest) == TryRead(old(q.Contents()).data, arrivals)
  {
    rest := arrivals;
    while true
      invariant q.Shaped() && Valid(q.Contents()) && q.off == 0
      invariant q.buf == old(q.buf) || fresh(q.buf)
      invariant forall i :: 0 <= i < |rest| && rest[i].Chunk? ==> 1 <= |rest[i].bytes| <= READ_SIZE
      invariant TryRead(old(q.Contents()).data, arrivals) == TryRead(q.Contents().data, rest)
      decreases |rest|
    {
      var data := if q.buf == null then [] else q.buf[..q.size];
      var r, consumed := TryParseFromBuffer(data);
      match r
      case Success(f) =>
        DecodesExactlyOneFrame(data, f);
        q.Shift(consumed);
        return Complete, Some(f), rest;
      case Failure(e) =>
        if e != Incomplete {
          return Error, None, rest;
        }
        if rest == [] {
          return WantRead, None, rest;
        }
        var next := rest[0];
        rest := rest[1..];
        match next
        case Chunk(bytes) =>
          EnqueueAppends(q.Contents(), bytes);
          var st := q.EnqueueBytes(bytes);
          if st != Ok {
            return Error, None, rest;
          }
        case NoneYet =>
          return WantRead, None, rest;
        case NeedsWrite =>
          return WantWrite, None, rest;
        case PeerClosed =>
          return ClosedByPeer, None, rest;
        case ReadFailed =>
          return Error, None, rest;
    }
  }

  datatype Delivery = Delivery(frames: seq<Frame>, failed: bool, data: Bytes)

  /** Calls repeated until the input is used up or a call fails. */
  function ReadAll(data: Bytes, arrivals: seq<Arrival>): Delivery
    decreases |arrivals|, |data|
  {
    TryReadProgress(data, arrivals);
    var o := TryRead(data, arrivals);
    if o.result == Complete then
      var d := ReadAll(o.data, o.rest);
      d.(frames := [o.frame.value] + d.frames)
    else if o.result != WantRead && o.result != WantWrite then Delivery([], true, o.data)
    else if arrivals == [] then Delivery([], false, o.data)
    else ReadAll(o.data, o.rest)
  }

  function FramesBytes(fs: seq<Frame>): Bytes {
    if fs == [] then [] else FrameBytes(fs[0]) + FramesBytes(fs[1..])
  }

  function Arrived(arrivals: seq<Arrival>): Bytes {
    if arrivals == [] then []
    else (if arrivals[0].Chunk? then arrivals[0].bytes else []) + Arrived(arrivals[1..])
  }

  /** Data in pieces, with any pauses between them. */
  ghost predicate JustData(arrivals: seq<Arrival>) {
    forall i :: 0 <= i < |arrivals| ==>
      match arrivals[i]
      case Chunk(bytes) => 1 <= |bytes| <= READ_SIZE
      case NoneYet => true
      case NeedsWrite => true
      case _ => false
  }

  /** With `used` bytes of the first frame there, no single read brings bytes of two
      frames. */
  predicate NoReadSpansFrames(used: nat, arrivals: seq<Arrival>, fs: seq<Frame>)
    decreases |arrivals|
  {
    if arrivals == [] || fs == [] then true
    else if !arrivals[0].Chunk? then NoReadSpansFrames(used, arrivals[1..], fs)
    else
      var now := used + |arrivals[0].bytes|;
      if now < |FrameBytes(fs[0])| then NoReadSpansFrames(now, arrivals[1..], fs)
      else now == |FrameBytes(fs[0])| && NoReadSpansFrames(0, arrivals[1..], fs[1..])
  }

  /** The input queue holds a proper prefix of the next frame. */
  ghost predicate Waiting(data: Bytes, fs: seq<Frame>) {
    if fs == [] then data == []
    else ValidCts(fs[0]) && |data| < |FrameBytes(fs[0])| && data == FrameBytes(fs[0])[..|data|]
  }

  lemma WaitingIsIncomplete(data: Bytes, fs: seq<Frame>)
    requires Waiting(data, fs)
    ensures DecodeFrame(data) == Failure(Incomplete)
  {
    if fs != [] {
      PrefixAndExcess(fs[0], |data|, []);
    }
  }

  lemma ReadAllAfterChunk(data: Bytes, bytes: Bytes, rest: seq<Arrival>)
    requires DecodeFrame(data) == Failure(Incomplete) && |data| + |bytes| <= MAX_QUEUE
    ensures ReadAll(data, [Chunk(bytes)] + rest) == ReadAll(data + bytes, rest)
  {
    var arrivals := [Chunk(bytes)] + rest;
    assert arrivals[0] == Chunk(bytes) && arrivals[1..] == rest;
    assert TryRead(data, arrivals) == TryRead(data + bytes, rest);
    if rest == [] {
      var o := TryRead(data + bytes, []);
      if o.result == WantRead {
        assert TryRead(o.data, o.rest) == o;
      }
    }
  }

  lemma ReadAllAfterPause(data: Bytes, arrivals: seq<Arrival>)
    requires DecodeFrame(data) == Failure(Incomplete)
    requires arrivals != [] && (arrivals[0].NoneYet? || arrivals[0].NeedsWrite?)
    ensures ReadAll(data, arrivals) == ReadAll(data, arrivals[1..])
  {
  }

  lemma PauseBringsNothing(arrivals: seq<Arrival>)
    requires JustData(arrivals) && arrivals != [] && !arrivals[0].Chunk?
    ensures arrivals[0].NoneYet? || arrivals[0].NeedsWrite?
    ensures JustData(arrivals[1..]) && Arrived(arrivals) == Arrived(arrivals[1..])
  {
  }

  lemma ReadAllAtFrame(f: Frame, rest: seq<Arrival>)
    requires ValidCts(f)
    ensures ReadAll(FrameBytes(f), rest) ==
            var d := ReadAll([], rest); d.(frames := [f] + d.frames)
  {
    DecodesExactlyOneFrame(FrameBytes(f), f);
    assert FrameBytes(f)[|FrameBytes(f)|..] == [];
  }

  lemma ReadAllFails(data: Bytes, rest: seq<Arrival>)
    requires DecodeFrame(data).Failure? && DecodeFrame(data) != Failure(Incomplete)
    ensures ReadAll(data, rest).failed
  {
  }

  /** Where a frame's bytes stand after one more chunk. */
  lemma ChunkMeetsFrame(data: Bytes, bytes: Bytes, after: Bytes, f: Frame, tail: Bytes)
    requires |data| < |FrameBytes(f)| && data == FrameBytes(f)[..|data|]
    requires data + (bytes + after) == FrameBytes(f) + tail
    ensures var now := data + bytes;
            && now + after == FrameBytes(f) + tail
            && if |now| < |FrameBytes(f)| then now == FrameBytes(f)[..|now|]
            else now == FrameBytes(f) + now[|FrameBytes(f)|..] && now[|FrameBytes(f)|..] + after == tail
  {
    var now, s := data + bytes, FrameBytes(f);
    assert now + after == s + tail;
    if |now| < |s| {
      assert now == (now + after)[..|now|] == (s + tail)[..|now|];
    } else {
      assert now[..|s|] == (now + after)[..|s|] == (s + tail)[..|s|] == s;
      assert now[|s|..] + after == (now + after)[|s|..] == (s + tail)[|s|..] == tail;
    }
  }

  /** The first chunk either stays within the first frame or reaches its end. */
  lemma {:induction false} FirstChunk(data: Bytes, arrivals: seq<Arrival>, fs: seq<Frame>)
    requires JustData(arrivals) && arrivals != [] && arrivals[0].Chunk?
    requires Waiting(data, fs) && DecodeFrame(data) == Failure(Incomplete)
    requires data + Arrived(arrivals) == FramesBytes(fs)
    ensures fs != []
    ensures var now, rest := data + arrivals[0].bytes, arrivals[1..];
            && ReadAll(data, arrivals) == ReadAll(now, rest)
            && JustData(rest)
            && if |now| < |FrameBytes(fs[0])| then Waiting(now, fs) && now + Arrived(rest) == FramesBytes(fs)
               else now == FrameBytes(fs[0]) + now[|FrameBytes(fs[0])|..]
                    && now[|FrameBytes(fs[0])|..] + Arrived(rest) == FramesBytes(fs[1..])
  {
    var bytes, rest := arrivals[0].bytes, arrivals[1..];
    assert |Arrived(arrivals)| > 0;
    assert arrivals == [Chunk(bytes)] + rest;
    ReadAllAfterChunk(data, bytes, rest);
    ChunkMeetsFrame(data, bytes, Arrived(rest), fs[0], FramesBytes(fs[1..]));
  }

  /** Frames sent back to back are all delivered, in order and with nothing left over,
      if and only if no read brings bytes of two of them; otherwise reading fails. */
  lemma {:induction false} DeliveredIffNoReadSpans(data: Bytes, arrivals: seq<Arrival>, fs: seq<Frame>)
    requires forall i :: 0 <= i < |fs| ==> ValidCts(fs[i])
    requires JustData(arrivals) && Waiting(data, fs)
    requires data + Arrived(arrivals) == FramesBytes(fs)
    ensures ReadAll(data, arrivals) == Delivery(fs, false, []) <==> NoReadSpansFrames(|data|, arrivals, fs)
    ensures !NoReadSpansFrames(|data|, arrivals, fs) ==> ReadAll(data, arrivals).failed
    decreases |arrivals|, 0
  {
    WaitingIsIncomplete(data, fs);
    if arrivals == [] {
      assert data + [] == data;
    } else if !arrivals[0].Chunk? {
      PauseBringsNothing(arrivals);
      ReadAllAfterPause(data, arrivals);
      DeliveredIffNoReadSpans(data, arrivals[1..], fs);
    } else {
      var bytes, rest := arrivals[0].bytes, arrivals[1..];
      FirstChunk(data, arrivals, fs);
      if |data + bytes| < |FrameBytes(fs[0])| {
        DeliveredIffNoReadSpans(data + bytes, rest, fs);
      } else {
        AtFrameEnd(data + bytes, rest, fs);
      }
    }
  }

  /** The reading has reached or passed the end of the first frame. */
  lemma {:induction false} AtFrameEnd(now: Bytes, rest: seq<Arrival>, fs: seq<Frame>)
    requires forall i :: 0 <= i < |fs| ==> ValidCts(fs[i])
    requires JustData(rest) && fs != [] && |now| >= |FrameBytes(fs[0])|
    requires now == FrameBytes(fs[0]) + now[|FrameBytes(fs[0])|..]
    requires now[|FrameBytes(fs[0])|..] + Arrived(rest) == FramesBytes(fs[1..])
    ensures var ok := |now| == |FrameBytes(fs[0])| && NoReadSpansFrames(0, rest, fs[1..]);
            && (ReadAll(now, rest) == Delivery(fs, false, []) <==> ok)
            && (!ok ==> ReadAll(now, rest).failed)
    decreases |rest|, 1
  {
    var f := fs[0];
    if |now| == |FrameBytes(f)| {
      assert now[|FrameBytes(f)|..] == [];
      assert [] + Arrived(rest) == Arrived(rest);
      assert now == FrameBytes(f);
      ReadAllAtFrame(f, rest);
      DeliveredIffNoReadSpans([], rest, fs[1..]);
      assert fs == [f] + fs[1..];
      var d := ReadAll([], rest);
      assert ([f] + d.frames)[1..] == d.frames;
    } else {
      PrefixAndExcess(f, 0, now[|FrameBytes(f)|..]);
      ReadAllFails(now, rest);
    }
  }

  lemma {:induction false} OneFrameIsNeverSpanned(used: nat, arrivals: seq<Arrival>, f: Frame)
    requires JustData(arrivals)
    requires used < |FrameBytes(f)| && used + |Arrived(arrivals)| == |FrameBytes(f)|
    ensures NoReadSpansFrames(used, arrivals, [f])
    decreases |arrivals|
  {
    if arrivals != [] {
      if !arrivals[0].Chunk? {
        OneFrameIsNeverSpanned(used, arrivals[1..], f);
      } else if used + |arrivals[0].bytes| < |FrameBytes(f)| {
        OneFrameIsNeverSpanned(used + |arrivals[0].bytes|, arrivals[1..], f);
      }
    }
  }

  /** One frame sent on its own, in any pieces and over any number of calls, is
      delivered once and unchanged and leaves the input queue empty. */
  lemma OneFrameInAnyPieces(f: Frame, arrivals: seq<Arrival>)
    requires ValidCts(f) && JustData(arrivals) && Arrived(arrivals) == FrameBytes(f)
    ensures ReadAll([], arrivals) == Delivery([f], false, [])
  {
    assert [f][1..] == [];
    assert FramesBytes([f]) == FrameBytes(f);
    assert [] + Arrived(arrivals) == Arrived(arrivals);
    OneFrameIsNeverSpanned(0, arrivals, f);
    DeliveredIffNoReadSpans([], arrivals, [f]);
  }
}
