/** Bytes, big-endian 16-bit words, and Python's slices. */
module Bytes {
  type byte = x: int | 0 <= x < 256
  type Word = x: int | 0 <= x < 0x1_0000

  /** An IPv4 address as a number. */
  type Ip = x: int | 0 <= x < 0x1_0000_0000

  function W16(hi: byte, lo: byte): Word {
    (hi as int) * 256 + lo
  }

  function WordAt(d: seq<byte>, i: nat): Word
    requires i + 1 < |d|
  {
    W16(d[i], d[i + 1])
  }

  /** `data[i] = v >> 8; data[i+1] = v & 0xFF` */
  function Put16(d: seq<byte>, i: nat, v: Word): (r: seq<byte>)
    requires i + 1 < |d|
    ensures |r| == |d| && WordAt(r, i) == v
    ensures forall j :: 0 <= j < |d| && j != i && j != i + 1 ==> r[j] == d[j]
  {
    d[i := v / 256][i + 1 := v % 256]
  }

  /** Python's `d[a:b]`, which clips its bounds. */
  function Slice(d: seq<byte>, a: nat, b: nat): seq<byte> {
    if a >= |d| || b <= a then [] else if b >= |d| then d[a..] else d[a..b]
  }

  /** `d[i:i+len(bs)] = bs` */
  function Splice(d: seq<byte>, i: nat, bs: seq<byte>): (r: seq<byte>)
    requires i + |bs| <= |d|
    ensures |r| == |d| && r[i..i + |bs|] == bs
    ensures forall j :: 0 <= j < |d| && !(i <= j < i + |bs|) ==> r[j] == d[j]
  {
    d[..i] + bs + d[i + |bs|..]
  }
}
