/** The growable byte queue of a connection and its partial, non-blocking writes. */
module Transport {
  import opened Core

  const MAX_QUEUE := 1024 * 1024

  const FIRST_CAP := 4096
  const INT_MAX := 0x7FFF_FFFF

  datatype TransportResult = Complete | GotBytes | WantRead | WantWrite | ClosedByPeer | Error

  /** `data` are the bytes held, of which the first `off` were written already. */
  datatype Queue = Queue(data: Bytes, off: nat, cap: nat)

  const EMPTY := Queue([], 0, 0)

  /** Nothing stays in a queue once it has been written. */
  predicate Valid(q: Queue) {
    && |q.data| <= q.cap <= MAX_QUEUE
    && (if q.data == [] then q.off == 0 else q.off < |q.data|)
  }

  function Queued(q: Queue): Bytes
    requires q.off <= |q.data|
  {
    q.data[q.off..]
  }

  function EnqueueStatus(q: Queue, bytes: Bytes): Status {
    if bytes != [] && |q.data| + |bytes| > MAX_QUEUE then Overflow else Ok
  }

  /** Doubling from `cap`, never past the limit. */
  function Doubled(cap: nat, needed: nat): (c: nat)
    requires 0 < cap <= MAX_QUEUE && needed <= MAX_QUEUE
    ensures needed <= c <= MAX_QUEUE
    ensures c == cap || c < 2 * needed
    decreases MAX_QUEUE - cap
  {
    if cap >= needed then cap else Doubled(Min(2 * cap, MAX_QUEUE), needed)
  }

  function GrownCap(cap: nat, needed: nat): (c: nat)
    requires cap <= MAX_QUEUE && needed <= MAX_QUEUE
    ensures Max(cap, needed) <= c <= MAX_QUEUE
    ensures c <= Max(cap, Max(2 * needed, FIRST_CAP))
  {
    if needed <= cap then cap else Doubled(if cap == 0 then FIRST_CAP else cap, needed)
  }

  /** `n` doubled `k` times. */
  function Twice(n: nat, k: nat): nat {
    if k == 0 then n else 2 * Twice(n, k - 1)
  }

  lemma {:induction false} TwiceMore(n: nat, k: nat)
    ensures Twice(2 * n, k) == Twice(n, k + 1)
  {
    if k > 0 {
      TwiceMore(n, k - 1);
    }
  }

  lemma {:induction false} DoubledIsTwice(cap: nat, needed: nat) returns (k: nat)
    requires 0 < cap <= MAX_QUEUE && needed <= MAX_QUEUE
    ensures Doubled(cap, needed) == Min(Twice(cap, k), MAX_QUEUE)
    ensures k > 0 ==> Twice(cap, k - 1) < needed
    decreases MAX_QUEUE - cap
  {
    if cap >= needed {
      k := 0;
    } else if 2 * cap >= MAX_QUEUE {
      k := 1;
      assert Twice(cap, 1) == 2 * Twice(cap, 0);
    } else {
      var j := DoubledIsTwice(2 * cap, needed);
      k := j + 1;
      TwiceMore(cap, j);
      if j > 0 { TwiceMore(cap, j - 1); }
    }
  }

  /** Growing doubles the capacity, 4096 at first, as often as it takes and no oftener,
      and stops at the limit. */
  lemma GrowsByDoubling(cap: nat, needed: nat) returns (k: nat)
    requires cap < needed <= MAX_QUEUE
    ensures var base := if cap == 0 then FIRST_CAP else cap;
            && GrownCap(cap, needed) == Min(Twice(base, k), MAX_QUEUE)
            && (k > 0 ==> Twice(base, k - 1) < needed)
  {
    k := DoubledIsTwice(if cap == 0 then FIRST_CAP else cap, needed);
  }

  function Enqueue(q: Queue, bytes: Bytes): Queue
    requires Valid(q)
  {
    if bytes == [] || EnqueueStatus(q, bytes) != Ok then q
    else q.(data := q.data + bytes, cap := GrownCap(q.cap, |q.data| + |bytes|))
  }

  /** A rejected enqueue changes nothing; an accepted one appends exactly its bytes. */
  lemma EnqueueAppends(q: Queue, bytes: Bytes)
    requires Valid(q)
    ensures Valid(Enqueue(q, bytes))
    ensures Queued(Enqueue(q, bytes)) == Queued(q) + (if EnqueueStatus(q, bytes) == Ok then bytes else [])
  {
    if bytes != [] && EnqueueStatus(q, bytes) == Ok {
      assert (q.data + bytes)[q.off..] == q.data[q.off..] + bytes;
    }
  }

  /** What one attempt to write reports. A write moves at least one byte and at most
      what it was offered. */
  datatype WriteResult = Wrote(n: nat) | WouldBlockWrite | WouldBlockRead | ZeroReturn | WriteFailed

  datatype Flushed = Flushed(status: Status, result: TransportResult, queue: Queue, wire: Bytes)

  /** How far one write gets. */
  function Moved(n: nat, remaining: nat): (m: nat)
    requires remaining > 0
    ensures 1 <= m <= remaining
  {
    Min(Max(n, 1), Min(remaining, INT_MAX))
  }

  /** The queue after one write. */
  function Sent(q: Queue, n: nat): (r: Queue)
    requires q.off < |q.data|
    ensures q.off < r.off <= |r.data| && r.data == q.data
  {
    q.(off := q.off + Moved(n, |q.data| - q.off))
  }

  /** The write loop; with no attempt left the socket would block. */
  function FlushLoop(q: Queue, writes: seq<WriteResult>): Flushed
    requires q.off <= |q.data|
    decreases |writes|
  {
    if q.off == |q.data| then Flushed(Ok, Complete, EMPTY, [])
    else if writes == [] then Flushed(Ok, WantWrite, q, [])
    else
      match writes[0]
      case Wrote(n) =>
        var moved := Sent(q, n);
        var r := FlushLoop(moved, writes[1..]);
        r.(wire := q.data[q.off..moved.off] + r.wire)
      case WouldBlockWrite => Flushed(Ok, WantWrite, q, [])
      case WouldBlockRead => Flushed(Ok, WantRead, q, [])
      case ZeroReturn => Flushed(Ok, ClosedByPeer, q, [])
      case WriteFailed => Flushed(Io, Error, q, [])
  }

  /** Flushing a queue with nothing allocated reports an error. */
  function Flush(q: Queue, writes: seq<WriteResult>): Flushed
    requires q.off <= |q.data|
  {
    if q.cap == 0 then Flushed(Ok, Error, q, []) else FlushLoop(q, writes)
  }

  /** Whatever the writes do, the bytes written and the bytes still queued are the
      bytes that were queued, in order; and the flush completes exactly when none are
      left. */
  lemma {:induction false} FlushLoopConserves(q: Queue, writes: seq<WriteResult>)
    requires q.off <= |q.data| <= q.cap <= MAX_QUEUE
    ensures var f := FlushLoop(q, writes);
            && Valid(f.queue)
            && f.wire + Queued(f.queue) == Queued(q)
            && (f.result == Complete <==> Queued(f.queue) == [])
    decreases |writes|
  {
    if q.off < |q.data| && writes != [] && writes[0].Wrote? {
      var moved := Sent(q, writes[0].n);
      FlushLoopConserves(moved, writes[1..]);
      var f, done := FlushLoop(moved, writes[1..]), q.data[q.off..moved.off];
      assert Queued(q) == done + Queued(moved);
      assert (done + f.wire) + Queued(f.queue) == done + (f.wire + Queued(f.queue));
    }
  }

  lemma FlushConserves(q: Queue, writes: seq<WriteResult>)
    requires Valid(q)
    ensures var f := Flush(q, writes);
            && Valid(f.queue)
            && f.wire + Queued(f.queue) == Queued(q)
            && (q.cap > 0 ==> (f.result == Complete <==> Queued(f.queue) == []))
  {
    if q.cap > 0 {
      FlushLoopConserves(q, writes);
    }
  }

  lemma {:induction false} FlushLoopErrors(q: Queue, writes: seq<WriteResult>)
    requires q.off <= |q.data|
    ensures var f := FlushLoop(q, writes);
            && (f.result == Error ==> f.status == Io)
            && (f.result == Complete ==> f.queue == EMPTY)
    decreases |writes|
  {
    if q.off < |q.data| && writes != [] && writes[0].Wrote? {
      FlushLoopErrors(Sent(q, writes[0].n), writes[1..]);
    }
  }

  /** A connection with nothing allocated, which is every one that never queued a byte
      or flushed the last one, reports an error with status ok, and no other does. */
  lemma FlushErrorMeansNothingAllocated(q: Queue, writes: seq<WriteResult>)
    requires Valid(q)
    ensures Flush(q, writes).status == Ok && Flush(q, writes).result == Error <==> q.cap == 0
    ensures Flush(q, writes).result == Complete ==> Flush(q, writes).queue.cap == 0
  {
    if q.cap > 0 {
      FlushLoopErrors(q, writes);
    }
  }

  /** How many attempts make progress before one does not, and how much they can move. */
  function Leading(writes: seq<WriteResult>): (k: nat)
    ensures k <= |writes|
  {
    if writes == [] || !writes[0].Wrote? then 0 else 1 + Leading(writes[1..])
  }

  function Movable(writes: seq<WriteResult>): nat {
    if writes == [] || !writes[0].Wrote? then 0 else Max(writes[0].n, 1) + Movable(writes[1..])
  }

  /** What is reported for a flush that does not complete: what the first attempt that
      moves nothing ran into, and a socket that would block when none is left. */
  ghost predicate Reports(f: Flushed, writes: seq<WriteResult>) {
    if Leading(writes) == |writes| then f.status == Ok && f.result == WantWrite
    else
      match writes[Leading(writes)]
      case WouldBlockWrite => f.status == Ok && f.result == WantWrite
      case WouldBlockRead => f.status == Ok && f.result == WantRead
      case ZeroReturn => f.status == Ok && f.result == ClosedByPeer
      case WriteFailed => f.status == Io && f.result == Error
      case Wrote(_) => false
  }

  lemma MovedIsCapped(q: Queue, n: nat)
    requires q.off < |q.data| <= MAX_QUEUE
    ensures Sent(q, n).off == Min(|q.data|, q.off + Max(n, 1))
  {
  }

  lemma {:induction false} FlushLoopStops(q: Queue, writes: seq<WriteResult>)
    requires q.off <= |q.data| <= MAX_QUEUE
    ensures var f, left := FlushLoop(q, writes), |q.data| - q.off;
            if Movable(writes) >= left then f == Flushed(Ok, Complete, EMPTY, q.data[q.off..])
            else
              && f.queue == q.(off := q.off + Movable(writes))
              && f.wire == q.data[q.off..q.off + Movable(writes)]
              && Reports(f, writes)
    decreases |writes|
  {
    if q.off < |q.data| && writes != [] && writes[0].Wrote? {
      var moved := Sent(q, writes[0].n);
      MovedIsCapped(q, writes[0].n);
      FlushLoopStops(moved, writes[1..]);
    }
  }

  /** A flush writes as much as the attempts can move before one makes no progress, and
      reports what that one ran into; it completes exactly when this is everything. */
  lemma FlushGoesOn(q: Queue, writes: seq<WriteResult>)
    requires Valid(q) && q.cap > 0
    ensures var f, n := Flush(q, writes), Movable(writes);
            if n >= |Queued(q)| then f == Flushed(Ok, Complete, EMPTY, Queued(q))
            else f.queue == q.(off := q.off + n) && f.wire == Queued(q)[..n] && Reports(f, writes)
  {
    FlushLoopStops(q, writes);
    var n := Movable(writes);
    if n < |Queued(q)| {
      assert q.data[q.off..][..n] == q.data[q.off..q.off + n];
    }
  }

  /** A flush that goes on after `wire` was written. */
  function Continued(wire: Bytes, f: Flushed): Flushed { f.(wire := wire + f.wire) }

  lemma ContinuedNot(f: Flushed)
    ensures Continued([], f) == f
  {
    assert [] + f.wire == f.wire;
  }

  lemma ContinuedTwice(a: Bytes, b: Bytes, f: Flushed)
    ensures Continued(a, Continued(b, f)) == Continued(a + b, f)
  {
    assert a + (b + f.wire) == a + b + f.wire;
  }

  /** One round of the write loop. */
  lemma OneWrite(q: Queue, writes: seq<WriteResult>, wire: Bytes)
    requires q.off < |q.data| && writes != [] && writes[0].Wrote?
    ensures var r := Sent(q, writes[0].n);
            Continued(wire, FlushLoop(q, writes)) ==
            Continued(wire + q.data[q.off..r.off], FlushLoop(r, writes[1..]))
  {
    var r := Sent(q, writes[0].n);
    ContinuedTwice(wire, q.data[q.off..r.off], FlushLoop(r, writes[1..]));
  }

  /** What the write loop reports when an attempt moves nothing. */
  function Stopped(attempt: WriteResult): (Status, TransportResult)
    requires !attempt.Wrote?
  {
    match attempt
    case WouldBlockWrite => (Ok, WantWrite)
    case WouldBlockRead => (Ok, WantRead)
    case ZeroReturn => (Ok, ClosedByPeer)
    case WriteFailed => (Io, Error)
  }

  lemma LoopStops(q: Queue, writes: seq<WriteResult>, attempt: WriteResult, wire: Bytes)
    requires q.off < |q.data| && !attempt.Wrote?
    requires attempt == if writes == [] then WouldBlockWrite else writes[0]
    ensures Continued(wire, FlushLoop(q, writes)) == Flushed(Stopped(attempt).0, Stopped(attempt).1, q, wire)
  {
    assert wire + [] == wire;
  }

  lemma LoopEnds(q: Queue, writes: seq<WriteResult>, wire: Bytes)
    requires q.off == |q.data|
    ensures Continued(wire, FlushLoop(q, writes)) == Flushed(Ok, Complete, EMPTY, wire)
  {
    assert wire + [] == wire;
  }

  // --------------------------------------------------------------- the queue object

  class TransportQueue {
    var buf: array?<uint8>
    var size: nat
    var cap: nat
    var off: nat

    ghost predicate Shaped()
      reads this
    {
      && (if buf == null then cap == 0 else cap == buf.Length > 0)
      && size <= cap
    }

    ghost function Contents(): Queue
      requires Shaped()
      reads this, buf
    {
      Queue(if buf == null then [] else buf[..size], off, cap)
    }

    constructor ()
      ensures Shaped() && Contents() == EMPTY && buf == null
    {
      buf, size, cap, off := null, 0, 0, 0;
    }

    /** The growth loop; the limit was checked, so it ends at a sufficient capacity. */
    method Reserve(needed: nat)
      requires Shaped() && Valid(Contents()) && size <= needed <= MAX_QUEUE && needed > 0
      modifies this
      ensures Shaped() && buf != null && (buf == old(buf) || fresh(buf))
      ensures Contents() == old(Contents()).(cap := GrownCap(old(cap), needed))
    {
      if needed > cap {
        var newCap := if cap != 0 then cap else FIRST_CAP;
        while newCap < needed
          invariant 0 < newCap <= MAX_QUEUE
          invariant Doubled(newCap, needed) == GrownCap(cap, needed)
          decreases MAX_QUEUE - newCap
        {
          newCap := newCap * 2;
          if newCap > MAX_QUEUE {
            newCap := MAX_QUEUE;
          }
        }
        var grown := new uint8[newCap];
        if buf != null {
          forall i | 0 <= i < size {
            grown[i] := buf[i];
          }
          assert grown[..size] == buf[..size];
        }
        buf := grown;
        cap := newCap;
      }
    }

    method CopyBehind(bytes: Bytes)
      requires buf != null && size + |bytes| <= buf.Length
      modifies buf
      ensures buf[..size + |bytes|] == old(buf[..size]) + bytes
    {
      forall i | 0 <= i < |bytes| {
        buf[size + i] := bytes[i];
      }
    }

    method EnqueueBytes(bytes: Bytes) returns (st: Status)
      requires Shaped() && Valid(Contents())
      modifies this, buf
      ensures Shaped() && (buf == old(buf) || fresh(buf))
      ensures st == EnqueueStatus(old(Contents()), bytes)
      ensures Contents() == Enqueue(old(Contents()), bytes)
    {
      if bytes == [] {
        return Ok;
      }
      if size > MAX_QUEUE || |bytes| > MAX_QUEUE - size {
        return Overflow;
      }
      var needed := size + |bytes|;
      Reserve(needed);
      CopyBehind(bytes);
      size := needed;
      return Ok;
    }

    method Free()
      modifies this
      ensures Shaped() && Contents() == EMPTY && buf == null
    {
      buf, size, cap, off := null, 0, 0, 0;
    }

    /** Removes the first `n` bytes of an input queue. */
    method Shift(n: nat)
      requires Shaped() && off == 0 && n <= size && buf != null
      modifies this, buf
      ensures Shaped() && buf == old(buf)
      ensures Contents() == old(Contents()).(data := old(Contents()).data[n..])
    {
      var remaining := size - n;
      if remaining > 0 {
        forall i | 0 <= i < remaining {
          buf[i] := buf[n + i];
        }
      }
      size := remaining;
    }

    /** One write of the unsent bytes, at most what an `int` can count. */
    method WriteOnce(n: nat) returns (written: Bytes)
      requires Shaped() && buf != null && off < size
      modifies this`off
      ensures Shaped()
      ensures var q := old(Contents());
              && Contents() == Sent(q, n)
              && written == q.data[q.off..Sent(q, n).off]
    {
      var remaining := size - off;
      var clamped := if remaining > INT_MAX then INT_MAX else remaining;
      var m := Moved(n, clamped);
      assert m == Moved(n, remaining);
      written := buf[off..off + m];
      assert written == buf[..size][off..off + m];
      off := off + m;
    }

    method FlushOutput(writes: seq<WriteResult>)
      returns (st: Status, result: TransportResult, wire: Bytes)
      requires Shaped() && Valid(Contents())
      modifies this
      ensures Shaped() && (buf == old(buf) || buf == null)
      ensures Flushed(st, result, Contents(), wire) == Flush(old(Contents()), writes)
    {
      wire := [];
      if buf == null {
        return Ok, Error, wire;
      }
      ghost var q := Contents();
      ContinuedNot(FlushLoop(q, writes));
      var rest := writes;
      while off < size
        invariant Shaped() && buf == old(buf) && off <= size
        invariant FlushLoop(q, writes) == Continued(wire, FlushLoop(Contents(), rest))
        decreases |rest|
      {
        var attempt := if rest == [] then WouldBlockWrite else rest[0];
        if !attempt.Wrote? {
          LoopStops(Contents(), rest, attempt, wire);
        }
        match attempt
        case Wrote(n) =>
          ghost var moved := Sent(Contents(), n);
          OneWrite(Contents(), rest, wire);
          var written := WriteOnce(n);
          assert Contents() == moved;
          wire := wire + written;
          rest := rest[1..];
        case WouldBlockWrite =>
          return Ok, WantWrite, wire;
        case WouldBlockRead =>
          return Ok, WantRead, wire;
        case ZeroReturn =>
          return Ok, ClosedByPeer, wire;
        case WriteFailed =>
          return Io, Error, wire;
      }
      LoopEnds(Contents(), rest, wire);
      Free();
      return Ok, Complete, wire;
    }
  }

  /** The emptiness test of a connection, given what the TLS layer still holds back. */
  function OutputEmpty(q: Queue, pending: nat): bool { |q.data| == 0 && pending == 0 }

  lemma OutputEmptyMeansNothingQueued(q: Queue, pending: nat)
    requires Valid(q)
    ensures OutputEmpty(q, pending) <==> Queued(q) == [] && pending == 0
  {
  }
}
