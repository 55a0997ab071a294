/** The byte stream from the server to one client: frames go into the output queue,
    partial writes move them to the wire, and the client reads whole frames. */
module Stream {
  import opened Core
  import opened BigEndian
  import opened Codec
  import opened Transport
  import opened Framing

  // ------------------------------------------------------------ the client's reader

  /** What one blocking read brings: bytes, nothing yet, or the end of the stream. */
  datatype Piece = Data(bytes: Bytes) | Blocked | EndOfStream | SslFailed | ReadFailed

  /** The bytes that can be read before the stream ends. */
  function Available(pieces: seq<Piece>): Bytes {
    if pieces == [] then []
    else
      match pieces[0]
      case Data(bytes) => bytes + Available(pieces[1..])
      case Blocked => Available(pieces[1..])
      case _ => []
  }

  /** How the stream ends; a peer that is gone counts as a closed stream. */
  function Ending(pieces: seq<Piece>): Status {
    if pieces == [] then Closed
    else
      match pieces[0]
      case Data(_) => Ending(pieces[1..])
      case Blocked => Ending(pieces[1..])
      case EndOfStream => Closed
      case SslFailed => Ssl
      case ReadFailed => Io
  }

  lemma TakeFrom(done: Bytes, pieces: seq<Piece>, m: nat)
    requires pieces != [] && pieces[0].Data? && m <= |pieces[0].bytes|
    ensures var chunk := pieces[0].bytes;
            var rest := if m == |chunk| then pieces[1..] else [Data(chunk[m..])] + pieces[1..];
            && done + chunk[..m] + Available(rest) == done + Available(pieces)
            && Ending(rest) == Ending(pieces)
  {
    var chunk := pieces[0].bytes;
    if m == |chunk| {
      assert chunk[..m] == chunk;
    } else {
      var rest := [Data(chunk[m..])] + pieces[1..];
      assert rest[1..] == pieces[1..];
      assert chunk == chunk[..m] + chunk[m..];
    }
    assert Available(pieces) == chunk + Available(pieces[1..]);
  }

  /** Reads exactly `size` bytes however they arrive, or reports how the stream ended. */
  method ReadBytes(pieces: seq<Piece>, size: nat) returns (st: Status, bytes: Bytes, rest: seq<Piece>)
    ensures st == if |Available(pieces)| >= size then Ok else Ending(pieces)
    ensures bytes + Available(rest) == Available(pieces) && Ending(rest) == Ending(pieces)
    ensures st == Ok ==>
              && |bytes| == size
              && bytes == Available(pieces)[..size] && Available(rest) == Available(pieces)[size..]
  {
    bytes, rest := [], pieces;
    while |bytes| < size
      invariant |bytes| <= size
      invariant bytes + Available(rest) == Available(pieces) && Ending(rest) == Ending(pieces)
      decreases size - |bytes|, |rest|
    {
      if rest == [] {
        return Closed, bytes, rest;
      }
      match rest[0]
      case Blocked =>
        assert Available(rest) == Available(rest[1..]);
        rest := rest[1..];
      case Data(chunk) =>
        var m := Min(|chunk|, size - |bytes|);
        TakeFrom(bytes, rest, m);
        bytes := bytes + chunk[..m];
        rest := if m == |chunk| then rest[1..] else [Data(chunk[m..])] + rest[1..];
      case EndOfStream =>
        return Closed, bytes, rest;
      case SslFailed =>
        return Ssl, bytes, rest;
      case ReadFailed =>
        return Io, bytes, rest;
    }
    return Ok, bytes, rest;
  }

  /** What a reader of frames makes of the bytes available to it. */
  datatype FrameRead = NeedMore | Rejected(status: Status) | Got(frame: Frame, rest: Bytes)

  function ReadFrame(s: Bytes): FrameRead {
    if |s| < 4 then NeedMore
    else
      var frameSize := ReadU32(s[..4]);
      if frameSize < FRAME_METADATA then Rejected(BadFrame)
      else if frameSize > MAX_STC_FRAME then Rejected(TooLarge)
      else if |s| < FRAME_HEADER then NeedMore
      else if ReadU16(s[4..6]) != PROTO_VERSION then Rejected(UnsupportedVer)
      else if frameSize - FRAME_METADATA > MAX_STC_PAYLOAD then Rejected(TooLarge)
      else if |s| < 4 + frameSize then NeedMore
      else Got(Frame(ReadU16(s[4..6]), ReadU16(s[6..8]), s[8..4 + frameSize]), s[4 + frameSize..])
  }

  lemma SliceOfRest(s: Bytes, i: nat, n: nat)
    requires i + n <= |s|
    ensures s[i..][..n] == s[i..i + n] && s[i..][n..] == s[i + n..]
  {
  }

  /** The outcome depends on the bytes alone, not on the pieces they arrive in. */
  method ReadFrameSync(pieces: seq<Piece>) returns (st: Status, frame: Option<Frame>, rest: seq<Piece>)
    ensures match ReadFrame(Available(pieces))
            case NeedMore => st == Ending(pieces) && frame == None
            case Rejected(e) => st == e && frame == None
            case Got(f, after) => st == Ok && frame == Some(f) && Available(rest) == after
  {
    ghost var s := Available(pieces);
    var lenBytes, header, payload;
    st, lenBytes, rest := ReadBytes(pieces, 4);
    if st != Ok {
      return st, None, rest;
    }
    var frameSize := ReadU32(lenBytes);
    if frameSize < FRAME_METADATA {
      return BadFrame, None, rest;
    }
    if frameSize > MAX_STC_FRAME {
      return TooLarge, None, rest;
    }
    st, header, rest := ReadBytes(rest, 4);
    if st != Ok {
      return st, None, rest;
    }
    SliceOfRest(s, 4, 4);
    assert header[..2] == s[4..6] && header[2..] == s[6..8];
    var protoVer, msgType := ReadU16(header[..2]), ReadU16(header[2..]);
    var payloadSize := frameSize - FRAME_METADATA;
    if protoVer != PROTO_VERSION {
      return UnsupportedVer, None, rest;
    }
    if payloadSize > MAX_STC_PAYLOAD {
      return TooLarge, None, rest;
    }
    if payloadSize == 0 {
      assert s[8..8] == [];
      return Ok, Some(Frame(protoVer, msgType, [])), rest;
    }
    st, payload, rest := ReadBytes(rest, payloadSize);
    if st != Ok {
      return st, None, rest;
    }
    SliceOfRest(s, 8, payloadSize);
    return Ok, Some(Frame(protoVer, msgType, payload)), rest;
  }

  /** A frame the client is prepared to read. */
  predicate ValidStc(f: Frame) { f.protoVer == PROTO_VERSION && |f.payload| <= MAX_STC_PAYLOAD }

  /** Reading the start of a valid frame followed by anything: the frame comes out once
      it is complete, and until then nothing is refused. */
  lemma ReadsFirstFrame(s: Bytes, f: Frame, tail: Bytes)
    requires ValidStc(f) && s <= FrameBytes(f) + tail
    ensures ReadFrame(s) == if |s| < |FrameBytes(f)| then NeedMore else Got(f, s[|FrameBytes(f)|..])
  {
    var whole := FrameBytes(f) + tail;
    FrameHeader(f, tail);
    if |s| >= 4 {
      assert s[..4] == whole[..4];
    }
    if |s| >= FRAME_HEADER {
      assert s[4..6] == whole[4..6] && s[6..8] == whole[6..8];
    }
    if |s| >= |FrameBytes(f)| {
      assert s[8..8 + |f.payload|] == whole[8..8 + |f.payload|];
    }
  }

  /** A frame comes out exactly when the stream starts with a valid one. */
  lemma GotIffFrame(s: Bytes, f: Frame, rest: Bytes)
    ensures ReadFrame(s) == Got(f, rest) <==> ValidStc(f) && s == FrameBytes(f) + rest
  {
    if ReadFrame(s) == Got(f, rest) {
      var n := |FrameBytes(f)|;
      assert s[..n][..4] == s[..4] && s[..n][4..6] == s[4..6] && s[..n][6..8] == s[6..8];
      assert s[..n][8..] == f.payload;
      FrameBytesOfHeader(s[..n], f);
      assert s == s[..n] + s[n..];
    }
    if ValidStc(f) && s == FrameBytes(f) + rest {
      ReadsFirstFrame(s, f, rest);
    }
  }

  /** Once the header is there, the stream is refused exactly when no valid frame can
      start with these bytes. */
  lemma RefusedIffHopeless(s: Bytes)
    requires |s| >= FRAME_HEADER
    ensures ReadFrame(s).Rejected? <==>
            !exists f: Frame, tail: Bytes :: ValidStc(f) && s <= FrameBytes(f) + tail
  {
    if f: Frame, tail: Bytes :| ValidStc(f) && s <= FrameBytes(f) + tail {
      ReadsFirstFrame(s, f, tail);
    }
    if ReadFrame(s) == NeedMore {
      var f := Completion(s, ReadU32(s[..4]));
      assert ValidStc(f) && s <= FrameBytes(f) + [];
    } else if ReadFrame(s).Got? {
      var r := ReadFrame(s);
      GotIffFrame(s, r.frame, r.rest);
      assert ValidStc(r.frame) && s <= FrameBytes(r.frame) + r.rest;
    }
  }

  /** Why it is refused: the announced size first, the version next. */
  lemma RefusedFor(s: Bytes, e: Status)
    requires ReadFrame(s) == Rejected(e)
    ensures |s| >= 4
    ensures e == BadFrame <==> ReadU32(s[..4]) < FRAME_METADATA
    ensures e == UnsupportedVer <==>
            && FRAME_METADATA <= ReadU32(s[..4]) <= MAX_STC_FRAME
            && |s| >= FRAME_HEADER && ReadU16(s[4..6]) != PROTO_VERSION
    ensures e == TooLarge <==>
            && ReadU32(s[..4]) > FRAME_METADATA + MAX_STC_PAYLOAD
            && (ReadU32(s[..4]) > MAX_STC_FRAME || (|s| >= FRAME_HEADER && ReadU16(s[4..6]) == PROTO_VERSION))
  {
  }

  /** All frames that can be read, up to the first that is refused or not complete. */
  function ReadFrames(s: Bytes): seq<Frame>
    decreases |s|
  {
    match ReadFrame(s)
    case Got(f, rest) => [f] + ReadFrames(rest)
    case _ => []
  }

  /** The reader takes frames off the stream until a read fails. */
  method Reader(pieces: seq<Piece>) returns (frames: seq<Frame>)
    ensures frames == ReadFrames(Available(pieces))
  {
    frames := [];
    var rest := pieces;
    while true
      invariant ReadFrames(Available(pieces)) == frames + ReadFrames(Available(rest))
      decreases |Available(rest)|
    {
      var st, frame;
      ghost var before := Available(rest);
      st, frame, rest := ReadFrameSync(rest);
      if st != Ok || frame.None? {
        assert ReadFrames(before) == [];
        return frames + [];
      }
      Reassociate(frames, [frame.value], ReadFrames(Available(rest)));
      frames := frames + [frame.value];
    }
  }

  lemma PrefixCons(f: Frame, a: seq<Frame>, b: seq<Frame>)
    requires a <= b
    ensures [f] + a <= [f] + b
  {
  }

  lemma RestOfPrefix(s: Bytes, head: Bytes, tail: Bytes)
    requires s <= head + tail && |s| >= |head|
    ensures s[|head|..] <= tail
    ensures s == head + tail ==> s[|head|..] == tail
  {
    assert s[|head|..] == (head + tail)[..|s|][|head|..] == tail[..|s| - |head|];
  }

  /** Of the bytes of valid frames, however many have arrived, the reader makes the
      frames that are complete, in order, and all of them once all bytes are there. */
  lemma {:induction false} ReadsPrefix(s: Bytes, fs: seq<Frame>)
    requires forall i :: 0 <= i < |fs| ==> ValidStc(fs[i])
    requires s <= FramesBytes(fs)
    ensures ReadFrames(s) <= fs
    ensures s == FramesBytes(fs) ==> ReadFrames(s) == fs
  {
    if fs != [] {
      var f, tail := fs[0], FramesBytes(fs[1..]);
      ReadsFirstFrame(s, f, tail);
      if |s| >= |FrameBytes(f)| {
        var rest := s[|FrameBytes(f)|..];
        RestOfPrefix(s, FrameBytes(f), tail);
        ReadsPrefix(rest, fs[1..]);
        PrefixCons(f, ReadFrames(rest), fs[1..]);
        assert fs == [f] + fs[1..];
      }
    }
  }

  /** The same for bytes on their way: whatever the writes do, what the reader makes of
      the bytes written are the first of the frames queued, and all of them at the end. */
  lemma WrittenFramesAreRead(q: Queue, fs: seq<Frame>, writes: seq<WriteResult>)
    requires Valid(q) && Queued(q) == FramesBytes(fs)
    requires forall i :: 0 <= i < |fs| ==> ValidStc(fs[i])
    ensures var f := Flush(q, writes);
            && Valid(f.queue)
            && ReadFrames(f.wire) <= fs
            && (Queued(f.queue) == [] ==> ReadFrames(f.wire) == fs)
  {
    FlushConserves(q, writes);
    var f := Flush(q, writes);
    assert f.wire <= FramesBytes(fs);
    assert Queued(f.queue) == [] ==> f.wire + [] == f.wire;
    ReadsPrefix(f.wire, fs);
  }

  // --------------------------------------------------------------------- the system

  /** `wire` is all that was ever written, `sent` the frames accepted into the queue,
      `got` those the client read, having consumed `pos` bytes. */
  datatype Link = Link(out: Queue, wire: Bytes, sent: seq<Frame>, pos: nat, got: seq<Frame>)

  datatype Step =
    | QueueFrame(msgType: uint16, payload: FramePayload)
    | FlushOut(writes: seq<WriteResult>)
    | Read

  const IDLE := Link(EMPTY, [], [], 0, [])

  /** The server builds every frame with its own protocol version. */
  function ServerFrame(msgType: uint16, payload: FramePayload): Frame {
    Frame(PROTO_VERSION, msgType, payload)
  }

  /** A read returns only once a whole frame is there; a refused frame would end the
      connection and is recorded by leaving the link as it is. */
  function Next(l: Link, step: Step): Link {
    match step
    case QueueFrame(msgType, payload) =>
      var f := ServerFrame(msgType, payload);
      if !Valid(l.out) || EnqueueStatus(l.out, FrameBytes(f)) != Ok then l
      else l.(out := Enqueue(l.out, FrameBytes(f)), sent := l.sent + [f])
    case FlushOut(writes) =>
      if !Valid(l.out) then l
      else
        var r := Flush(l.out, writes);
        l.(out := r.queue, wire := l.wire + r.wire)
    case Read =>
      match ReadFrame(l.wire[Min(l.pos, |l.wire|)..])
      case Got(f, rest) => l.(pos := |l.wire| - Min(|rest|, |l.wire|), got := l.got + [f])
      case _ => l
  }

  ghost predicate Inv(l: Link) {
    && Valid(l.out)
    && (forall i :: 0 <= i < |l.sent| ==> ValidStc(l.sent[i]))
    && l.wire + Queued(l.out) == FramesBytes(l.sent)
    && l.got <= l.sent
    && l.pos == |FramesBytes(l.got)| <= |l.wire|
  }

  lemma {:induction false} FramesAppend(fs: seq<Frame>, gs: seq<Frame>)
    ensures FramesBytes(fs + gs) == FramesBytes(fs) + FramesBytes(gs)
  {
    if fs == [] {
      assert fs + gs == gs;
    } else {
      assert (fs + gs)[1..] == fs[1..] + gs;
      FramesAppend(fs[1..], gs);
      assert FrameBytes(fs[0]) + (FramesBytes(fs[1..]) + FramesBytes(gs)) == FramesBytes(fs) + FramesBytes(gs);
    }
  }

  lemma FramesSnoc(fs: seq<Frame>, f: Frame)
    ensures FramesBytes(fs + [f]) == FramesBytes(fs) + FrameBytes(f)
  {
    FramesAppend(fs, [f]);
    assert FramesBytes([f]) == FrameBytes(f) + [];
  }

  /** The unread bytes are the start of the frames not read yet. */
  lemma UnreadBytes(l: Link)
    requires Inv(l)
    ensures l.wire[l.pos..] <= FramesBytes(l.sent[|l.got|..])
  {
    var rest := l.sent[|l.got|..];
    assert l.sent == l.got + rest;
    FramesAppend(l.got, rest);
    var all := FramesBytes(l.sent);
    assert l.wire == all[..|l.wire|];
    assert FramesBytes(rest) == all[l.pos..];
    assert l.wire[l.pos..] == FramesBytes(rest)[..|l.wire| - l.pos];
  }

  /** What the client's next read finds: never a frame it refuses, and a complete frame
      only if it is the next one sent. */
  lemma NextReadIsNextFrame(l: Link)
    requires Inv(l)
    ensures var r, n := ReadFrame(l.wire[l.pos..]), |l.got|;
            && !r.Rejected?
            && (r.Got? ==> n < |l.sent| && l.pos + |FrameBytes(l.sent[n])| <= |l.wire|
                           && r == Got(l.sent[n], l.wire[l.pos + |FrameBytes(l.sent[n])|..]))
  {
    UnreadBytes(l);
    var rest := l.sent[|l.got|..];
    if rest != [] {
      var f := rest[0];
      ReadsFirstFrame(l.wire[l.pos..], f, FramesBytes(rest[1..]));
      if |l.wire[l.pos..]| >= |FrameBytes(f)| {
        assert l.wire[l.pos..][|FrameBytes(f)|..] == l.wire[l.pos + |FrameBytes(f)|..];
      }
    }
  }

  lemma QueueKeepsInv(l: Link, msgType: uint16, payload: FramePayload)
    requires Inv(l)
    ensures Inv(Next(l, QueueFrame(msgType, payload)))
  {
    var f := ServerFrame(msgType, payload);
    EnqueueAppends(l.out, FrameBytes(f));
    FramesSnoc(l.sent, f);
    Reassociate(l.wire, Queued(l.out), FrameBytes(f));
  }

  lemma FlushKeepsInv(l: Link, writes: seq<WriteResult>)
    requires Inv(l)
    ensures Inv(Next(l, FlushOut(writes)))
  {
    FlushConserves(l.out, writes);
    var r := Flush(l.out, writes);
    Reassociate(l.wire, r.wire, Queued(r.queue));
  }

  lemma ReadKeepsInv(l: Link)
    requires Inv(l)
    ensures Inv(Next(l, Read))
  {
    NextReadIsNextFrame(l);
    if ReadFrame(l.wire[l.pos..]).Got? {
      FramesSnoc(l.got, l.sent[|l.got|]);
      assert l.got + [l.sent[|l.got|]] == l.sent[..|l.got| + 1];
    }
  }

  lemma NextKeepsInv(l: Link, step: Step)
    requires Inv(l)
    ensures Inv(Next(l, step))
  {
    match step
    case QueueFrame(msgType, payload) => QueueKeepsInv(l, msgType, payload);
    case FlushOut(writes) => FlushKeepsInv(l, writes);
    case Read => ReadKeepsInv(l);
  }

  function Exec(l: Link, steps: seq<Step>): Link
    decreases |steps|
  {
    if steps == [] then l else Exec(Next(l, steps[0]), steps[1..])
  }

  lemma {:induction false} ExecKeepsInv(l: Link, steps: seq<Step>)
    requires Inv(l)
    ensures Inv(Exec(l, steps))
    decreases |steps|
  {
    if steps != [] {
      NextKeepsInv(l, steps[0]);
      ExecKeepsInv(Next(l, steps[0]), steps[1..]);
    }
  }

  /** With everything written, a reader that waits has read everything. */
  lemma NothingLeftBehind(l: Link)
    requires Inv(l) && Queued(l.out) == [] && ReadFrame(l.wire[l.pos..]) == NeedMore
    ensures l.got == l.sent
  {
    var rest := l.sent[|l.got|..];
    assert l.sent == l.got + rest;
    FramesAppend(l.got, rest);
    assert l.wire == FramesBytes(l.sent);
    assert l.wire[l.pos..] == FramesBytes(rest);
    if rest != [] {
      ReadsFirstFrame(l.wire[l.pos..], rest[0], FramesBytes(rest[1..]));
    }
  }

  /** In every interleaving of queued frames, partial writes and reads: the bytes
      written followed by those queued are the accepted frames in order, the client has
      read a prefix of them, its next read refuses nothing, and a client left waiting
      with nothing queued has read them all. */
  lemma StreamConservesFrames(steps: seq<Step>)
    ensures var l := Exec(IDLE, steps);
            && Valid(l.out) && l.pos <= |l.wire|
            && l.wire + Queued(l.out) == FramesBytes(l.sent)
            && l.got <= l.sent
            && !ReadFrame(l.wire[l.pos..]).Rejected?
            && (Queued(l.out) == [] && ReadFrame(l.wire[l.pos..]) == NeedMore ==> l.got == l.sent)
  {
    ExecKeepsInv(IDLE, steps);
    var l := Exec(IDLE, steps);
    NextReadIsNextFrame(l);
    if Queued(l.out) == [] && ReadFrame(l.wire[l.pos..]) == NeedMore {
      NothingLeftBehind(l);
    }
  }
}
