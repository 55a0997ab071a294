/** Types shared by every module: fixed-width integers, status codes and the
    messages of the protocol. */
module Core {

  const U16_MAX: int := 0xFFFF
  const U32_MAX: int := 0xFFFF_FFFF
  const U64_MAX: int := 0xFFFF_FFFF_FFFF_FFFF

  newtype uint8 = x: int | 0 <= x < 0x100
  type uint16 = x: int | 0 <= x <= 0xFFFF
  type uint32 = x: int | 0 <= x <= 0xFFFF_FFFF
  type uint64 = x: int | 0 <= x <= 0xFFFF_FFFF_FFFF_FFFF

  /** The sequence number that stands for "none yet" on both sides. */
  const NO_SEQ: uint64 := 0xFFFF_FFFF_FFFF_FFFF

  type Bytes = seq<uint8>

  datatype Option<+T> = None | Some(value: T)

  /** The status codes this model produces. */
  datatype Status =
    | Ok
    | Invalid
    | Overflow
    | Io
    | TooLarge
    | BadFrame
    | Closed
    | Ssl
    | UnsupportedVer
    | Incomplete
    | Unauthorized
    | NotFound
    | BadEnvelope

  datatype Result<+T> = Success(value: T) | Failure(error: Status) {
    predicate IsFailure() { Failure? }

    function PropagateFailure<U>(): Result<U>
      requires Failure?
    {
      Failure(error)
    }

    function Extract(): T
      requires Success?
    {
      value
    }
  }

  // What each size field, 32 bits wide, can still count once the headers around
  // it are added: a frame counts 4 bytes more than its payload, an envelope has a
  // header of 40 bytes and an event body one of 16.
  type FramePayload = s: Bytes | |s| <= 0xFFFF_FFFB
  type Body = s: Bytes | |s| <= 0xFFFF_FFD3
  type EventData = s: Bytes | |s| <= 0xFFFF_FFC3

  /** An account identifier. */
  type Id = s: Bytes | |s| == 16 witness seq(16, _ => 0)

  /** An event addressed to one device. */
  datatype Event = Event(seqNum: uint64, kind: uint32, data: EventData)

  function Min(a: int, b: int): int { if a <= b then a else b }

  function Max(a: int, b: int): int { if a <= b then b else a }

  lemma SliceGrows<T>(s: seq<T>, i: nat, j: nat)
    requires i < j <= |s|
    ensures s[i..j - 1] + [s[j - 1]] == s[i..j]
  {
  }

  lemma Reassociate<T>(a: seq<T>, b: seq<T>, c: seq<T>)
    ensures a + b + c == a + (b + c)
  {
  }

  lemma AppendSnoc<T>(a: seq<T>, b: seq<T>)
    requires b != []
    ensures a + b == a + b[..|b| - 1] + [b[|b| - 1]]
  {
  }

  lemma AppendCons<T>(a: seq<T>, b: seq<T>)
    requires a != []
    ensures a + b == [a[0]] + (a[1..] + b)
  {
  }

  lemma SameHeadAndTail<T>(a: seq<T>, b: seq<T>)
    requires a != [] && b != [] && a[0] == b[0] && a[1..] == b[1..]
    ensures a == b
  {
    assert a == [a[0]] + a[1..] && b == [b[0]] + b[1..];
  }

  lemma CutInThree<T>(s: seq<T>, i: nat, j: nat)
    requires i <= j <= |s|
    ensures s == s[..i] + s[i..j] + s[j..]
  {
  }
}
