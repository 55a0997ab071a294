/** Big-endian integers on the wire. */
module BigEndian {
  import opened Core

  /** The `width` bytes of `v`, most significant first. */
  function BE(v: nat, width: nat): (s: Bytes)
    ensures |s| == width
  {
    if width == 0 then [] else BE(v / 256, width - 1) + [(v % 256) as uint8]
  }

  /** The number a big-endian byte string denotes. */
  function Value(s: Bytes): nat {
    if s == [] then 0 else Value(s[..|s| - 1]) * 256 + s[|s| - 1] as nat
  }

  function Pow256(n: nat): (p: nat)
    ensures p > 0
  {
    if n == 0 then 1 else 256 * Pow256(n - 1)
  }

  lemma {:induction false} ValueOfBE(v: nat, width: nat)
    requires v < Pow256(width)
    ensures Value(BE(v, width)) == v
  {
    if width > 0 {
      ValueOfBE(v / 256, width - 1);
      assert BE(v, width)[..width - 1] == BE(v / 256, width - 1);
    }
  }

  lemma {:induction false} BEOfValue(s: Bytes)
    ensures Value(s) < Pow256(|s|)
    ensures BE(Value(s), |s|) == s
  {
    if s != [] {
      var front, last := s[..|s| - 1], s[|s| - 1] as nat;
      BEOfValue(front);
      assert Value(s) / 256 == Value(front) && Value(s) % 256 == last;
      assert s == front + [s[|s| - 1]];
    }
  }

  /** `v >> 8 * n`. */
  function ShiftRight(v: nat, n: nat): nat {
    if n == 0 then v else ShiftRight(v / 256, n - 1)
  }

  /** Byte `i` of the encoding is the value shifted right past the bytes after it. */
  lemma {:induction false} BEAt(v: nat, width: nat, i: nat)
    requires i < width
    ensures BE(v, width)[i] as int == ShiftRight(v, width - (i + 1)) % 256
  {
    if i < width - 1 {
      BEAt(v / 256, width - 1, i);
    }
  }

  // The three readers, each a single expression over its bytes.

  function ReadU16(p: Bytes): (v: uint16)
    requires |p| == 2
  {
    p[0] as int * 0x100 + p[1] as int
  }

  function ReadU32(p: Bytes): (v: uint32)
    requires |p| == 4
  {
    p[0] as int * 0x100_0000 + p[1] as int * 0x1_0000 + p[2] as int * 0x100 + p[3] as int
  }

  function ReadU64(p: Bytes): (v: uint64)
    requires |p| == 8
  {
    p[0] as int * 0x100_0000_0000_0000 + p[1] as int * 0x1_0000_0000_0000
    + p[2] as int * 0x100_0000_0000 + p[3] as int * 0x1_0000_0000
    + p[4] as int * 0x100_0000 + p[5] as int * 0x1_0000 + p[6] as int * 0x100 + p[7] as int
  }

  lemma Value2(p: Bytes)
    requires |p| == 2
    ensures ReadU16(p) == Value(p)
  {
    assert Value(p[..1]) == p[0] as int by { assert p[..1][..0] == []; }
  }

  lemma Value4(p: Bytes)
    requires |p| == 4
    ensures ReadU32(p) == Value(p)
  {
    assert p[..3][..2] == p[..2];
    assert Value(p[..3]) == Value(p[..2]) * 256 + p[2] as int;
    Value2(p[..2]);
  }

  lemma Value8(p: Bytes)
    requires |p| == 8
    ensures ReadU64(p) == Value(p)
  {
    assert p[..7][..6] == p[..6] && p[..6][..5] == p[..5] && p[..5][..4] == p[..4];
    assert Value(p) == Value(p[..7]) * 256 + p[7] as int;
    assert Value(p[..7]) == Value(p[..6]) * 256 + p[6] as int;
    assert Value(p[..6]) == Value(p[..5]) * 256 + p[5] as int;
    assert Value(p[..5]) == Value(p[..4]) * 256 + p[4] as int;
    Value4(p[..4]);
  }

  lemma Powers()
    ensures Pow256(2) == U16_MAX + 1 && Pow256(4) == U32_MAX + 1 && Pow256(8) == U64_MAX + 1
  {
    assert Pow256(1) == 256;
    assert Pow256(3) == 0x100_0000 by { assert Pow256(2) == 0x1_0000; }
    assert Pow256(5) == 0x100_0000_0000 by { assert Pow256(4) == 0x1_0000_0000; }
    assert Pow256(7) == 0x100_0000_0000_0000 by { assert Pow256(6) == 0x1_0000_0000_0000; }
  }

  /** Reading what was written gives the number back. */
  lemma ReadBack16(v: uint16)
    ensures ReadU16(BE(v, 2)) == v
  {
    Powers();
    ValueOfBE(v, 2);
    Value2(BE(v, 2));
  }

  lemma ReadBack32(v: uint32)
    ensures ReadU32(BE(v, 4)) == v
  {
    Powers();
    ValueOfBE(v, 4);
    Value4(BE(v, 4));
  }

  lemma ReadBack64(v: uint64)
    ensures ReadU64(BE(v, 8)) == v
  {
    Powers();
    ValueOfBE(v, 8);
    Value8(BE(v, 8));
  }

  /** Writing what was read gives the bytes back. */
  lemma WriteBack16(p: Bytes)
    requires |p| == 2
    ensures BE(ReadU16(p), 2) == p
  {
    Value2(p);
    BEOfValue(p);
  }

  lemma WriteBack32(p: Bytes)
    requires |p| == 4
    ensures BE(ReadU32(p), 4) == p
  {
    Value4(p);
    BEOfValue(p);
  }

  lemma WriteBack64(p: Bytes)
    requires |p| == 8
    ensures BE(ReadU64(p), 8) == p
  {
    Value8(p);
    BEOfValue(p);
  }

  /** The three writers share this loop; only the width differs. */
  method WriteBE(buf: array<uint8>, at: nat, width: nat, v: nat)
    requires at + width <= buf.Length
    modifies buf
    ensures buf[at..at + width] == BE(v, width)
    ensures buf[..at] == old(buf[..at])
    ensures buf[at + width..] == old(buf[at + width..])
  {
    for i := 0 to width
      invariant forall k :: 0 <= k < i ==> buf[at + k] == BE(v, width)[k]
      invariant buf[..at] == old(buf[..at])
      invariant buf[at + width..] == old(buf[at + width..])
    {
      BEAt(v, width, i);
      buf[at + i] := (ShiftRight(v, width - (i + 1)) % 256) as uint8;
    }
  }
}
