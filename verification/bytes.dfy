/** Bytes and little-endian words. */
module Bytes {
  type Byte = x: int | 0 <= x < 256

  function Zeros(n: nat): (r: seq<Byte>)
    ensures |r| == n && forall i :: 0 <= i < n ==> r[i] == 0
  {
    if n == 0 then [] else Zeros(n - 1) + [0]
  }

  function U16(b: seq<Byte>, i: nat): (v: nat)
    requires i + 2 <= |b|
    ensures v < 0x1_0000
  {
    var low: int, high: int := b[i], b[i + 1];
    low + 256 * high
  }

  function U32(b: seq<Byte>, i: nat): (v: nat)
    requires i + 4 <= |b|
    ensures v < 0x1_0000_0000
  {
    U16(b, i) + 0x1_0000 * U16(b, i + 2)
  }

  function Put16(b: seq<Byte>, i: nat, v: nat): (r: seq<Byte>)
    requires i + 2 <= |b| && v < 0x1_0000
    ensures |r| == |b| && U16(r, i) == v
    ensures forall k :: 0 <= k < |b| && k != i && k != i + 1 ==> r[k] == b[k]
  {
    b[i := v % 256][i + 1 := v / 256]
  }

  function Put32(b: seq<Byte>, i: nat, v: nat): (r: seq<Byte>)
    requires i + 4 <= |b| && v < 0x1_0000_0000
    ensures |r| == |b| && U32(r, i) == v
    ensures forall k :: 0 <= k < |b| && !(i <= k < i + 4) ==> r[k] == b[k]
  {
    Put16(Put16(b, i, v % 0x1_0000), i + 2, v / 0x1_0000)
  }

  /** `c` with `buf` written at `off`, longer if need be. */
  function Overwrite(c: seq<Byte>, off: nat, buf: seq<Byte>): (r: seq<Byte>)
    requires off <= |c|
  {
    c[..off] + buf + (if off + |buf| <= |c| then c[off + |buf|..] else [])
  }
}
