/**
 Bytes, the little-endian 32-bit words that the on-disk records are made of, and writing one
 stretch of memory over another.
 */
module Bytes {

  type byte = b: int | 0 <= b < 256

  const U32 := 0x1_0000_0000

  datatype Option<+T> = None | Some(value: T)

  /** `part` written over `all` from position `at`. */
  function Splice<T>(all: seq<T>, at: nat, part: seq<T>): (r: seq<T>)
    requires at + |part| <= |all|
    ensures |r| == |all|
    ensures forall i {:trigger r[i]} :: 0 <= i < |all| ==>
      r[i] == if at <= i < at + |part| then part[i - at] else all[i]
  {
    all[..at] + part + all[at + |part|..]
  }

  /** The four bytes of a `uint32_t` as a little-endian CPU lays them out in memory. */
  function Le32(v: nat): (s: seq<byte>)
    requires v < U32
    ensures |s| == 4
  {
    [v % 256, v / 256 % 256, v / 65536 % 256, v / 16777216]
  }

  function FromLe32(s: seq<byte>): (v: nat)
    requires |s| == 4
    ensures v < U32
  {
    var b0: int, b1: int, b2: int, b3: int := s[0], s[1], s[2], s[3];
    b0 + 256 * b1 + 65536 * b2 + 16777216 * b3
  }

  lemma Le32RoundTrip(v: nat)
    requires v < U32
    ensures FromLe32(Le32(v)) == v
  {
    assert v / 65536 == v / 256 / 256;
    assert v / 16777216 == v / 65536 / 256;
  }
}
