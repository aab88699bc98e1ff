/**
The Internet checksum of nat.py and dns_server.py (the two copies are the same code), against
the one's-complement sum of RFC 1071.
*/
module Checksum {
  import opened Bytes

  /** The sum of the big-endian 16-bit words, the last byte padded with a zero. */
  function WordSum(d: seq<byte>): nat {
    if |d| == 0 then 0
    else if |d| == 1 then W16(d[0], 0)
    else W16(d[0], d[1]) + WordSum(d[2..])
  }

  /** The two folds and the complement at the end of `_checksum`. */
  function Finish(s: nat): Word {
    var s1 := s / 0x1_0000 + s % 0x1_0000;
    var s2 := s1 + s1 / 0x1_0000;
    0xFFFF - s2 % 0x1_0000
  }

  function ChecksumOf(d: seq<byte>): Word {
    Finish(WordSum(d))
  }

  lemma WordSumStep(d: seq<byte>, i: nat)
    requires i + 1 < |d|
    ensures WordSum(d[i..]) == W16(d[i], d[i + 1]) + WordSum(d[i + 2..])
  {
  }

  /** The accumulating loop of `_checksum`. */
  method SumWords(data: seq<byte>) returns (s: nat)
    ensures s == WordSum(data)
  {
    hide WordSum;
    var padded := if |data| % 2 == 1 then data + [0] else data;
    PaddingIsFree(data);
    assert padded[0..] == padded;
    s := 0;
    var i := 0;
    while i < |padded|
      invariant 0 <= i <= |padded| && i % 2 == 0
      invariant s + WordSum(padded[i..]) == WordSum(padded)
    {
      WordSumStep(padded, i);
      s := s + W16(padded[i], padded[i + 1]);
      i := i + 2;
    }
    WordSumOfNothing(padded[i..]);
  }

  method ComputeChecksum(data: seq<byte>) returns (c: Word)
    ensures c == ChecksumOf(data)
  {
    var s := SumWords(data);
    s := s / 0x1_0000 + s % 0x1_0000;
    s := s + s / 0x1_0000;
    c := 0xFFFF - s % 0x1_0000;
  }

  lemma WordSumOfNothing(d: seq<byte>)
    requires |d| == 0
    ensures WordSum(d) == 0
  {
  }

  lemma {:induction false} PaddingIsFree(d: seq<byte>)
    ensures |d| % 2 == 1 ==> WordSum(d + [0]) == WordSum(d)
  {
    if |d| == 1 {
      assert (d + [0])[2..] == [];
    } else if |d| > 1 {
      PaddingIsFree(d[2..]);
      assert (d + [0])[2..] == d[2..] + [0];
    }
  }

  // ---------------------------------------------------------------- RFC 1071

  /** One's-complement addition: the carry out of bit 15 is added back in. */
  function OnesAdd(a: Word, b: Word): Word {
    (a + b) % 0x1_0000 + (a + b) / 0x1_0000
  }

  function OnesSum(d: seq<byte>): Word {
    if |d| == 0 then 0
    else if |d| == 1 then W16(d[0], 0)
    else OnesAdd(W16(d[0], d[1]), OnesSum(d[2..]))
  }

  /** The one's-complement value of an integer sum: 0 only for 0, otherwise in 1..0xFFFF. */
  function Residue(s: nat): Word {
    if s == 0 then 0 else (s - 1) % 0xFFFF + 1
  }

  lemma ResidueAdd(w: Word, s: nat)
    ensures OnesAdd(w, Residue(s)) == Residue(w + s)
  {
    if s != 0 {
      var q, r := (s - 1) / 0xFFFF, (s - 1) % 0xFFFF;
      assert s == q * 0xFFFF + r + 1;
      if w + r < 0xFFFF {
        ModUnique(w + s - 1, q, w + r);
      } else {
        ModUnique(w + s - 1, q + 1, w + r - 0xFFFF);
      }
    }
  }

  lemma ModUnique(x: nat, q: nat, r: nat)
    requires x == q * 0xFFFF + r && r < 0xFFFF
    ensures x % 0xFFFF == r
  {
  }

  lemma {:induction false} OnesSumIsResidue(d: seq<byte>)
    ensures OnesSum(d) == Residue(WordSum(d))
  {
    if |d| >= 2 {
      OnesSumIsResidue(d[2..]);
      ResidueAdd(W16(d[0], d[1]), WordSum(d[2..]));
    }
  }

  /** Two folds are enough for every sum below 2^32, and a little beyond. */
  lemma TwoFoldsSuffice(s: nat)
    requires s < 0x1_0000_FFFF
    ensures Finish(s) == 0xFFFF - Residue(s)
  {
  }

  /**
  A remark on the bound: it is sharp, since at 2^32 + 0xFFFF the second fold carries again. No frame is that long.
  */
  lemma ThirdFoldNeeded()
    ensures Finish(0x1_0000_FFFF) != 0xFFFF - Residue(0x1_0000_FFFF)
  {
  }

  /** Frames and their pseudo-headers stay far below that. */
  lemma {:induction false} WordSumBound(d: seq<byte>)
    ensures WordSum(d) <= 0xFFFF * ((|d| + 1) / 2)
    ensures |d| <= 0x2_0000 ==> WordSum(d) < 0x1_0000_0000
  {
    if |d| >= 2 {
      WordSumBound(d[2..]);
    }
  }

  /** `_checksum` is the complement of the RFC 1071 sum for all data whose word sum is below 2^32 + 0xFFFF. */
  lemma ChecksumIsRfc1071(d: seq<byte>)
    requires WordSum(d) < 0x1_0000_FFFF
    ensures ChecksumOf(d) == 0xFFFF - OnesSum(d)
  {
    OnesSumIsResidue(d);
    TwoFoldsSuffice(WordSum(d));
  }

  /** Adding the complement of a sum to it gives all ones, also when a zero checksum is sent as 0xFFFF. */
  lemma ComplementVerifies(s: nat)
    ensures Residue(s + (0xFFFF - Residue(s))) == 0xFFFF
    ensures Residue(s) == 0xFFFF ==> Residue(s + 0xFFFF) == 0xFFFF
  {
  }

  // ---------------------------------------------------------------- sums of patched data

  lemma {:induction false} WordSumAppend(a: seq<byte>, b: seq<byte>)
    requires |a| % 2 == 0
    ensures WordSum(a + b) == WordSum(a) + WordSum(b)
  {
    if |a| == 0 {
      assert a + b == b;
    } else {
      WordSumAppend(a[2..], b);
      assert (a + b)[2..] == a[2..] + b;
    }
  }

  /** b as it contributes to a sum in which n bytes stand before it. */
  function Aligned(n: nat, b: seq<byte>): seq<byte> {
    if n % 2 == 0 then b else [0] + b
  }

  lemma WordSumOddHead(x: byte, b: seq<byte>)
    ensures WordSum([x] + b) == WordSum([x]) + WordSum([0] + b)
  {
    if b == [] {
      assert [x] + b == [x] && [0] + b == [0];
    } else {
      assert ([x] + b)[2..] == b[1..] && ([0] + b)[2..] == b[1..];
    }
  }

  lemma WordSumTail(d: seq<byte>)
    requires |d| >= 2
    ensures WordSum(d) == W16(d[0], d[1]) + WordSum(d[2..])
  {
  }

  lemma {:induction false} WordSumSplit(a: seq<byte>, b: seq<byte>)
    ensures WordSum(a + b) == WordSum(a) + WordSum(Aligned(|a|, b))
  {
    hide WordSum;
    if |a| == 0 {
      assert a + b == b;
      WordSumOfNothing(a);
    } else if |a| == 1 {
      WordSumOddHead(a[0], b);
      assert a == [a[0]];
    } else {
      WordSumSplit(a[2..], b);
      WordSumTail(a);
      assert (a + b)[2..] == a[2..] + b;
      WordSumTail(a + b);
    }
  }

  lemma {:induction false} WordSumPatch(d: seq<byte>, i: nat, v: Word)
    requires i % 2 == 0 && i + 1 < |d|
    ensures WordSum(Put16(d, i, v)) == WordSum(d) - WordAt(d, i) + v
  {
    if i == 0 {
      assert Put16(d, i, v)[2..] == d[2..];
    } else {
      WordSumPatch(d[2..], i - 2, v);
      assert Put16(d, i, v)[2..] == Put16(d[2..], i - 2, v);
    }
  }

  /**
  Filling a zeroed checksum field with `_checksum` makes the whole verify under RFC 1071.
  `pre` is the pseudo-header (or nothing), i the field's offset in d.
  */
  lemma FilledChecksumVerifies(pre: seq<byte>, d: seq<byte>, i: nat, c: Word)
    requires |pre| % 2 == 0 && i % 2 == 0 && i + 1 < |d| && WordAt(d, i) == 0 && |pre| + |d| <= 0x2_0000
    requires c == ChecksumOf(pre + d) || (ChecksumOf(pre + d) == 0 && c == 0xFFFF)
    ensures OnesSum(pre + Put16(d, i, c)) == 0xFFFF
  {
    hide WordSum, OnesSum, ChecksumOf, Residue, Put16;
    WordSumBound(pre + d);
    ChecksumIsRfc1071(pre + d);
    WordSumAppend(pre, d);
    WordSumAppend(pre, Put16(d, i, c));
    WordSumPatch(d, i, c);
    OnesSumIsResidue(pre + d);
    OnesSumIsResidue(pre + Put16(d, i, c));
    ComplementVerifies(WordSum(pre + d));
  }

  lemma PatchInRegion(z: seq<byte>, a: nat, b: nat, f: nat, c: Word)
    requires a <= f && f + 2 <= b <= |z|
    ensures Put16(z, f, c)[a..b] == Put16(z[a..b], f - a, c)
    ensures WordAt(z[a..b], f - a) == WordAt(z, f)
  {
  }

  /** The same for a field at f inside the region z[a..b]. */
  lemma FilledRegionVerifies(pre: seq<byte>, z: seq<byte>, a: nat, b: nat, f: nat, c: Word)
    requires a <= f && f + 2 <= b <= |z| <= 0xFFFF && (f - a) % 2 == 0 && WordAt(z, f) == 0
    requires |pre| % 2 == 0 && |pre| <= 12
    requires c == ChecksumOf(pre + z[a..b]) || (ChecksumOf(pre + z[a..b]) == 0 && c == 0xFFFF)
    ensures OnesSum(pre + Put16(z, f, c)[a..b]) == 0xFFFF
  {
    PatchInRegion(z, a, b, f, c);
    hide ChecksumOf, OnesSum, Put16;
    FilledChecksumVerifies(pre, z[a..b], f - a, c);
  }
}
