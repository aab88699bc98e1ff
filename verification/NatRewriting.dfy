/** What the NAT rewriters guarantee: which bytes they touch, the fields they set, and that checksums verify. */
module NatRewriting {
  import opened Wrappers
  import opened Bytes
  import opened Checksum
  import opened NatPacket

  /** Where the IP packet ends; the frame may go on with Ethernet padding. */
  function End(info: Info): nat {
    14 + info.totalLen
  }

  /** The frame holds the whole IP packet, and the transport header is complete. */
  predicate WellFormed(raw: seq<byte>, info: Info) {
    && Indexable(info, |raw|) && info.L4() <= End(info) <= |raw|
    && (info.proto == PROTO_TCP ==>
          var hdr := (raw[info.L4() + 12] / 16) * 4;
          20 <= hdr && info.L4() + hdr <= End(info))
    && (info.proto == PROTO_UDP ==> 8 <= WordAt(raw, info.L4() + 4) <= End(info) - info.L4())
    && (info.proto == PROTO_ICMP ==> info.L4() + 4 <= End(info))
  }

  // ---------------------------------------------------------------- the receiver's checks

  predicate HeaderVerifies(p: seq<byte>, l4: nat)
    requires 14 <= l4 <= |p|
  {
    OnesSum(p[14..l4]) == 0xFFFF
  }

  /** RFC 793 section 3.1: the segment is everything the IP header's total length covers, up to `end`. */
  predicate TcpVerifies(p: seq<byte>, l4: nat, end: nat)
    requires 34 <= l4 <= end <= |p| <= 0xFFFF
  {
    OnesSum(Pseudo(p[26..30], p[30..34], PROTO_TCP, end - l4) + p[l4..end]) == 0xFFFF
  }

  /** RFC 768: the length is the one in the UDP header, and a zero checksum would mean there is none. */
  predicate UdpVerifies(p: seq<byte>, l4: nat)
    requires 34 <= l4 && l4 + 8 <= |p| && WordAt(p, l4 + 4) <= |p| - l4
  {
    var len := WordAt(p, l4 + 4);
    && WordAt(p, l4 + 6) != 0
    && OnesSum(Pseudo(p[26..30], p[30..34], PROTO_UDP, len) + p[l4..l4 + len]) == 0xFFFF
  }

  /** RFC 792: the message, like a segment, ends where the IP packet ends. */
  predicate IcmpVerifies(p: seq<byte>, l4: nat, end: nat)
    requires l4 <= end <= |p|
  {
    OnesSum(p[l4..end]) == 0xFFFF
  }

  predicate TransportVerifies(p: seq<byte>, info: Info)
    requires 34 <= info.L4() && WellFormed(p, info) && |p| <= 0xFFFF
  {
    && (info.proto == PROTO_TCP ==> TcpVerifies(p, info.L4(), End(info)))
    && (info.proto == PROTO_UDP ==> UdpVerifies(p, info.L4()))
    && (info.proto == PROTO_ICMP ==> IcmpVerifies(p, info.L4(), End(info)))
  }

  // ---------------------------------------------------------------- which rewritten frames verify

  /** What the padding after `end` adds to a sum that starts at l4. */
  function PadSum(d: seq<byte>, l4: nat, end: nat): nat
    requires l4 <= end <= |d|
  {
    WordSum(Aligned(end - l4, d[end..]))
  }

  predicate SumAlike(a: Ip4, b: Ip4) {
    WordSum(a) % 0xFFFF == WordSum(b) % 0xFFFF
  }

  /**
  The code sums TCP to the end of the frame, under the pseudo-header length of all it sums and the address `used`.
  */
  predicate TcpSumsAlike(raw: seq<byte>, info: Info, used: Ip4, actual: Ip4)
    requires info.L4() <= End(info) <= |raw|
  {
    (WordSum(used) + PadSum(raw, info.L4(), End(info)) + (|raw| - End(info))) % 0xFFFF == WordSum(actual) % 0xFFFF
  }

  /** It sums ICMP to the end of the frame, too; a message of zeros cannot be told from padding that sums to zero. */
  predicate IcmpPaddingHarmless(raw: seq<byte>, info: Info)
    requires info.L4() + 4 <= End(info) <= |raw|
  {
    var pad := PadSum(raw, info.L4(), End(info));
    pad == 0 || (pad % 0xFFFF == 0 && WordSum(Put16(raw, info.L4() + 2, 0)[info.L4()..End(info)]) > 0)
  }

  /**
  Whether the receiver accepts raw rewritten with the pseudo-header address `used` in place of its own source `actual`.
  */
  predicate Acceptable(raw: seq<byte>, info: Info, used: Ip4, actual: Ip4)
    requires WellFormed(raw, info)
  {
    && (info.proto == PROTO_TCP ==> TcpSumsAlike(raw, info, used, actual))
    && (info.proto == PROTO_UDP ==> SumAlike(used, actual))
    && (info.proto == PROTO_ICMP ==> IcmpPaddingHarmless(raw, info))
  }

  /** The padding, if any, does not disturb the checksums. */
  predicate PaddingHarmless(raw: seq<byte>, info: Info)
    requires WellFormed(raw, info)
  {
    && (info.proto == PROTO_TCP ==> (PadSum(raw, info.L4(), End(info)) + (|raw| - End(info))) % 0xFFFF == 0)
    && (info.proto == PROTO_ICMP ==> IcmpPaddingHarmless(raw, info))
  }

  lemma Shift(a: nat, k: nat)
    ensures (a + k) % 0xFFFF == a % 0xFFFF <==> k % 0xFFFF == 0
  {
  }

  /** When the addresses are the same, only the padding matters. */
  lemma AcceptableIffPaddingHarmless(raw: seq<byte>, info: Info, addr: Ip4)
    requires WellFormed(raw, info)
    ensures Acceptable(raw, info, addr, addr) <==> PaddingHarmless(raw, info)
  {
    hide WordSum, IcmpPaddingHarmless;
    Shift(WordSum(addr), PadSum(raw, info.L4(), End(info)) + (|raw| - End(info)));
  }

  lemma {:induction false} ZerosSumToZero(d: seq<byte>)
    requires forall j :: 0 <= j < |d| ==> d[j] == 0
    ensures WordSum(d) == 0
    decreases |d|
  {
    if |d| >= 2 {
      ZerosSumToZero(d[2..]);
    }
  }

  /** Zero padding disturbs exactly TCP; a frame without padding is never disturbed. */
  lemma ZeroPaddingHarmlessIff(raw: seq<byte>, info: Info)
    requires WellFormed(raw, info) && |raw| <= 0xFFFF && 34 <= info.L4()
    requires forall j :: End(info) <= j < |raw| ==> raw[j] == 0
    ensures PaddingHarmless(raw, info) <==> info.proto != PROTO_TCP || End(info) == |raw|
  {
    hide WordSum, Put16, WordAt;
    ZerosSumToZero(Aligned(End(info) - info.L4(), raw[End(info)..]));
    assert PadSum(raw, info.L4(), End(info)) == 0;
  }

  // ---------------------------------------------------------------- each field-filling step

  lemma FixIpVerifies(d: seq<byte>, l4: nat)
    requires 34 <= l4 <= |d| <= 0xFFFF
    ensures HeaderVerifies(FixIp(d, l4), l4)
    ensures forall j :: 0 <= j < |d| && j != 24 && j != 25 ==> FixIp(d, l4)[j] == d[j]
  {
    hide ChecksumOf, OnesSum, Put16;
    var z := Put16(d, 24, 0);
    var c := ChecksumOf(z[14..l4]);
    assert [] + z[14..l4] == z[14..l4];
    FilledRegionVerifies([], z, 14, l4, 24, c);
    assert [] + FixIp(d, l4)[14..l4] == FixIp(d, l4)[14..l4];
  }

  lemma PiecesAreSegment(seg: seq<byte>, pay: seq<byte>, src: Ip4, dst: Ip4)
    requires |seg| + |pay| <= 0xFFFF && 18 <= |seg| && seg[16] == 0 && seg[17] == 0
    ensures TcpPieces(seg, pay, src, dst) == Pseudo(src, dst, PROTO_TCP, |seg| + |pay|) + (seg + pay)
  {
    assert Slice(seg, 0, 16) == seg[..16] && Slice(seg, 18, |seg|) == seg[18..];
    hide Pseudo, Slice;
    assert seg == seg[..16] + [0, 0] + seg[18..];
  }

  lemma SlicesSplit(z: seq<byte>, a: nat, b: nat)
    requires a <= b <= |z|
    ensures Slice(z, a, b) == z[a..b] && Slice(z, b, |z|) == z[b..] && z[a..b] + z[b..] == z[a..]
  {
  }

  /** With a complete TCP header, the pieces reassemble to the whole segment with a zeroed checksum. */
  lemma TcpContentIsSegment(z: seq<byte>, l4: nat, src: Ip4, dst: Ip4)
    requires l4 + 20 <= |z| <= 0xFFFF && WordAt(z, l4 + 16) == 0
    requires var hdr := (z[l4 + 12] / 16) * 4; 20 <= hdr && l4 + hdr <= |z|
    ensures TcpContent(z, l4, src, dst) == Pseudo(src, dst, PROTO_TCP, |z| - l4) + z[l4..]
  {
    hide Pseudo, Slice, TcpPieces;
    var hdr := (z[l4 + 12] / 16) * 4;
    SlicesSplit(z, l4, l4 + hdr);
    PiecesAreSegment(z[l4..l4 + hdr], z[l4 + hdr..], src, dst);
  }

  /** The segment sums to all ones under the pseudo-header of the given addresses. */
  lemma FixTcpSums(d: seq<byte>, l4: nat, portOff: nat, port: Word, src: Ip4, dst: Ip4)
    requires 34 <= l4 && l4 + 20 <= |d| <= 0xFFFF && l4 <= portOff <= l4 + 2
    requires var hdr := (d[l4 + 12] / 16) * 4; 20 <= hdr && l4 + hdr <= |d|
    ensures var r := FixTcp(d, l4, portOff, port, src, dst);
            && OnesSum(Pseudo(src, dst, PROTO_TCP, |d| - l4) + r[l4..]) == 0xFFFF
            && r[26..30] == d[26..30] && r[30..34] == d[30..34]
  {
    hide ChecksumOf, OnesSum, Put16, Pseudo, TcpContent;
    var z := Put16(Put16(d, portOff, port), l4 + 16, 0);
    assert z[l4 + 12] == d[l4 + 12];
    TcpContentIsSegment(z, l4, src, dst);
    var r, n := FixTcp(d, l4, portOff, port, src, dst), |d|;
    var c := ChecksumOf(TcpContent(z, l4, src, dst));
    assert z[l4..n] == z[l4..] && r[l4..n] == r[l4..];
    FilledRegionVerifies(Pseudo(src, dst, PROTO_TCP, n - l4), z, l4, n, l4 + 16, c);
    assert r[26..30] == d[26..30] && r[30..34] == d[30..34];
  }

  lemma FixUdpSums(d: seq<byte>, l4: nat, portOff: nat, port: Word, src: Ip4, dst: Ip4)
    requires 34 <= l4 && l4 + 8 <= |d| <= 0xFFFF && l4 <= portOff <= l4 + 2
    requires 8 <= WordAt(d, l4 + 4) <= |d| - l4
    ensures var r, len := FixUdp(d, l4, portOff, port, src, dst), WordAt(d, l4 + 4);
            && WordAt(r, l4 + 4) == len && WordAt(r, l4 + 6) != 0
            && OnesSum(Pseudo(src, dst, PROTO_UDP, len) + r[l4..l4 + len]) == 0xFFFF
            && r[26..30] == d[26..30] && r[30..34] == d[30..34]
  {
    hide ChecksumOf, OnesSum, Put16, Pseudo;
    var z := Put16(Put16(d, portOff, port), l4 + 6, 0);
    var len, c := WordAt(z, l4 + 4), UdpChecksum(z, l4, src, dst);
    assert len == WordAt(d, l4 + 4);
    assert Slice(z, l4, l4 + len) == z[l4..l4 + len];
    var r := FixUdp(d, l4, portOff, port, src, dst);
    assert WordAt(r, l4 + 6) == c && c != 0;
    hide Slice;
    FilledRegionVerifies(Pseudo(src, dst, PROTO_UDP, len), z, l4, l4 + len, l4 + 6, c);
    assert r[26..30] == d[26..30] && r[30..34] == d[30..34];
  }

  lemma FixIcmpSums(d: seq<byte>, l4: nat)
    requires l4 + 4 <= |d| <= 0xFFFF
    ensures OnesSum(FixIcmp(d, l4)[l4..]) == 0xFFFF
  {
    hide ChecksumOf, OnesSum, Put16;
    var z, n := Put16(d, l4 + 2, 0), |d|;
    var c := ChecksumOf(z[l4..]);
    assert z[l4..] == z[l4..n] && [] + z[l4..n] == z[l4..n];
    FilledRegionVerifies([], z, l4, n, l4 + 2, c);
    var r := FixIcmp(d, l4);
    assert [] + r[l4..n] == r[l4..];
  }

  // ---------------------------------------------------------------- what FixL4 changes

  /** The two-byte checksum field of the transport header. */
  function ChecksumOffset(info: Info): nat {
    info.L4() + (if info.proto == PROTO_TCP then 16 else if info.proto == PROTO_UDP then 6 else 2)
  }

  predicate HasPorts(info: Info) {
    info.proto == PROTO_TCP || info.proto == PROTO_UDP
  }

  predicate Translated(info: Info) {
    HasPorts(info) || info.proto == PROTO_ICMP
  }

  /** Byte j lies in the port or checksum field that FixL4 writes. */
  predicate InTransportFields(info: Info, portOff: nat, j: nat) {
    || (HasPorts(info) && portOff <= j < portOff + 2)
    || (Translated(info) && ChecksumOffset(info) <= j < ChecksumOffset(info) + 2)
  }

  lemma FixL4Changes(d: seq<byte>, info: Info, portOff: nat, port: Word, src: Ip4, dst: Ip4)
    requires 34 <= info.L4() && Indexable(info, |d|) && |d| <= 0xFFFF && info.L4() <= portOff <= info.L4() + 2
    ensures forall j: nat :: j < |d| && !InTransportFields(info, portOff, j) ==>
              FixL4(d, info, portOff, port, src, dst)[j] == d[j]
    ensures HasPorts(info) ==> WordAt(FixL4(d, info, portOff, port, src, dst), portOff) == port
  {
    hide ChecksumOf, TcpContent, UdpChecksum;
  }

  lemma FixL4KeepsForm(d: seq<byte>, info: Info, portOff: nat, port: Word, src: Ip4, dst: Ip4)
    requires 34 <= info.L4() && WellFormed(d, info) && |d| <= 0xFFFF && info.L4() <= portOff <= info.L4() + 2
    ensures WellFormed(FixL4(d, info, portOff, port, src, dst), info)
  {
  }

  // ---------------------------------------------------------------- the receiver's verdict

  lemma CongruentIff(t: nat, a: nat, b: nat)
    requires (t + a) % 0xFFFF == 0
    ensures (t + b) % 0xFFFF == 0 <==> a % 0xFFFF == b % 0xFFFF
  {
  }

  lemma AllOnesIff(s: nat)
    ensures Residue(s) == 0xFFFF <==> s > 0 && s % 0xFFFF == 0
  {
  }

  lemma TailSum(proto: byte, len: Word)
    ensures WordSum([0, proto, len / 256, len % 256]) == proto + len
  {
    var hi: byte, lo: byte := len / 256, len % 256;
    var t := [hi, lo];
    assert [0, proto, hi, lo][2..] == t && t[2..] == [];
    assert WordSum(t) == W16(hi, lo) + WordSum(t[2..]);
  }

  lemma PseudoTotal(src: Ip4, dst: Ip4, proto: byte, len: Word, body: seq<byte>)
    ensures WordSum(Pseudo(src, dst, proto, len) + body) == WordSum(src) + WordSum(dst) + proto + len + WordSum(body)
  {
    TailSum(proto, len);
    hide WordSum;
    WordSumAppend(src, dst);
    WordSumAppend(src + dst, [0, proto, len / 256, len % 256]);
    WordSumAppend(Pseudo(src, dst, proto, len), body);
  }

  lemma SplitTail(p: seq<byte>, l4: nat, end: nat)
    requires l4 <= end <= |p|
    ensures WordSum(p[l4..]) == WordSum(p[l4..end]) + PadSum(p, l4, end)
  {
    hide WordSum;
    WordSumSplit(p[l4..end], p[end..]);
    assert p[l4..end] + p[end..] == p[l4..];
  }

  /** Two sums over the same segment, the one that was made to come out as all ones and the one the receiver takes. */
  lemma SumsDecide(src: Ip4, src': Ip4, dst: Ip4, proto: byte, len: Word, len': Word, body: seq<byte>, body': seq<byte>,
                   pad: nat)
    requires proto != 0 && len' <= len && WordSum(body) == WordSum(body') + pad
    requires OnesSum(Pseudo(src, dst, proto, len) + body) == 0xFFFF
    ensures OnesSum(Pseudo(src', dst, proto, len') + body') == 0xFFFF <==>
            (WordSum(src) + pad + (len - len')) % 0xFFFF == WordSum(src') % 0xFFFF
  {
    hide WordSum, OnesSum, Pseudo, Residue;
    PseudoTotal(src, dst, proto, len, body);
    PseudoTotal(src', dst, proto, len', body');
    OnesSumIsResidue(Pseudo(src, dst, proto, len) + body);
    OnesSumIsResidue(Pseudo(src', dst, proto, len') + body');
    AllOnesIff(WordSum(Pseudo(src, dst, proto, len) + body));
    AllOnesIff(WordSum(Pseudo(src', dst, proto, len') + body'));
    CongruentIff(WordSum(dst) + proto + len' + WordSum(body'), WordSum(src) + pad + (len - len'), WordSum(src'));
  }

  lemma FixTcpTail(d: seq<byte>, l4: nat, portOff: nat, port: Word, src: Ip4, dst: Ip4)
    requires 34 <= l4 && l4 + 20 <= |d| <= 0xFFFF && l4 <= portOff <= l4 + 2
    ensures FixTcp(d, l4, portOff, port, src, dst)[26..30] == d[26..30]
    ensures FixTcp(d, l4, portOff, port, src, dst)[30..34] == d[30..34]
    ensures FixTcp(d, l4, portOff, port, src, dst)[l4 + 18..] == d[l4 + 18..]
  {
  }

  lemma FixTcpShape(d: seq<byte>, info: Info, portOff: nat, port: Word, src: Ip4, dst: Ip4)
    requires 34 <= info.L4() && WellFormed(d, info) && |d| <= 0xFFFF && info.L4() <= portOff <= info.L4() + 2
    requires info.proto == PROTO_TCP
    ensures var r := FixTcp(d, info.L4(), portOff, port, src, dst);
            && OnesSum(Pseudo(src, dst, PROTO_TCP, |d| - info.L4()) + r[info.L4()..]) == 0xFFFF
            && r[26..30] == d[26..30] && r[30..34] == d[30..34] && r[End(info)..] == d[End(info)..]
  {
    var l4, end := info.L4(), End(info);
    FixTcpSums(d, l4, portOff, port, src, dst);
    FixTcpTail(d, l4, portOff, port, src, dst);
    hide FixTcp, OnesSum, Pseudo;
    var r := FixTcp(d, l4, portOff, port, src, dst);
    assert r[end..] == r[l4 + 18..][end - l4 - 18..] == d[l4 + 18..][end - l4 - 18..] == d[end..];
  }

  lemma FixTcpVerifiesIff(d: seq<byte>, info: Info, portOff: nat, port: Word, src: Ip4, dst: Ip4)
    requires 34 <= info.L4() && WellFormed(d, info) && |d| <= 0xFFFF && info.L4() <= portOff <= info.L4() + 2
    requires info.proto == PROTO_TCP && d[30..34] == dst
    ensures TcpVerifies(FixTcp(d, info.L4(), portOff, port, src, dst), info.L4(), End(info)) <==>
            TcpSumsAlike(d, info, src, d[26..30])
  {
    hide FixTcp, OnesSum, Pseudo, WordSum, Aligned;
    var l4, end := info.L4(), End(info);
    FixTcpShape(d, info, portOff, port, src, dst);
    var r := FixTcp(d, l4, portOff, port, src, dst);
    SplitTail(r, l4, end);
    SumsDecide(src, d[26..30], dst, PROTO_TCP, |d| - l4, end - l4, r[l4..], r[l4..end], PadSum(d, l4, end));
  }

  lemma FixUdpVerifiesIff(d: seq<byte>, info: Info, portOff: nat, port: Word, src: Ip4, dst: Ip4)
    requires 34 <= info.L4() && WellFormed(d, info) && |d| <= 0xFFFF && info.L4() <= portOff <= info.L4() + 2
    requires info.proto == PROTO_UDP && d[30..34] == dst
    ensures var r := FixUdp(d, info.L4(), portOff, port, src, dst);
            && WordAt(r, info.L4() + 4) == WordAt(d, info.L4() + 4) && WordAt(r, info.L4() + 6) != 0
            && (UdpVerifies(r, info.L4()) <==> SumAlike(src, d[26..30]))
  {
    var l4 := info.L4();
    hide FixUdp, OnesSum, Pseudo, WordSum, WordAt;
    FixUdpSums(d, l4, portOff, port, src, dst);
    var len, body := WordAt(d, l4 + 4), FixUdp(d, l4, portOff, port, src, dst)[l4..l4 + WordAt(d, l4 + 4)];
    SumsDecide(src, d[26..30], dst, PROTO_UDP, len, len, body, body, 0);
  }

  lemma IcmpArithmetic(t: nat, pad: nat, c: Word)
    requires c == 0xFFFF - Residue(t + pad) && Residue(t + c + pad) == 0xFFFF
    ensures Residue(t + c) == 0xFFFF <==> pad == 0 || (pad % 0xFFFF == 0 && t > 0)
  {
    AllOnesIff(t + c + pad);
    AllOnesIff(t + c);
    AllOnesIff(t + pad);
    hide Residue;
    CongruentIff(t + c, pad, 0);
  }

  lemma PatchTail(z: seq<byte>, f: nat, c: Word, end: nat)
    requires f + 2 <= end <= |z|
    ensures Put16(z, f, c)[end..] == z[end..]
  {
  }

  lemma FixIcmpIs(d: seq<byte>, l4: nat)
    requires l4 + 4 <= |d|
    ensures var z := Put16(d, l4 + 2, 0);
            FixIcmp(d, l4) == Put16(z, l4 + 2, ChecksumOf(z[l4..])) && WordAt(z, l4 + 2) == 0
  {
    hide ChecksumOf;
  }

  lemma ChecksumResidue(d: seq<byte>)
    requires |d| <= 0xFFFF
    ensures ChecksumOf(d) == 0xFFFF - Residue(WordSum(d))
  {
    hide ChecksumOf, WordSum, Residue, OnesSum;
    WordSumBound(d);
    ChecksumIsRfc1071(d);
    OnesSumIsResidue(d);
  }

  lemma FixIcmpVerifiesIff(d: seq<byte>, info: Info)
    requires 34 <= info.L4() && WellFormed(d, info) && |d| <= 0xFFFF && info.proto == PROTO_ICMP
    ensures IcmpVerifies(FixIcmp(d, info.L4()), info.L4(), End(info)) <==> IcmpPaddingHarmless(d, info)
  {
    hide FixIcmp, OnesSum, WordSum, ChecksumOf, Residue, Put16, WordAt, Aligned;
    var l4, end := info.L4(), End(info);
    var z, r := Put16(d, l4 + 2, 0), FixIcmp(d, l4);
    var c := ChecksumOf(z[l4..]);
    FixIcmpIs(d, l4);
    PatchInRegion(z, l4, end, l4 + 2, c);
    PatchTail(d, l4 + 2, 0, end);
    PatchTail(z, l4 + 2, c, end);
    FixIcmpSums(d, l4);
    SplitTail(z, l4, end);
    SplitTail(r, l4, end);
    WordSumPatch(z[l4..end], 2, c);
    ChecksumResidue(z[l4..]);
    OnesSumIsResidue(r[l4..]);
    OnesSumIsResidue(r[l4..end]);
    IcmpArithmetic(WordSum(z[l4..end]), PadSum(d, l4, end), c);
  }

  lemma FixL4VerifiesIff(d: seq<byte>, info: Info, portOff: nat, port: Word, src: Ip4, dst: Ip4)
    requires 34 <= info.L4() && WellFormed(d, info) && |d| <= 0xFFFF && info.L4() <= portOff <= info.L4() + 2
    requires 34 <= |d| && d[30..34] == dst
    ensures WellFormed(FixL4(d, info, portOff, port, src, dst), info)
    ensures TransportVerifies(FixL4(d, info, portOff, port, src, dst), info) <==> Acceptable(d, info, src, d[26..30])
  {
    hide FixTcp, FixUdp, FixIcmp, TcpVerifies, UdpVerifies, IcmpVerifies, WordAt, SumAlike, TcpSumsAlike,
         IcmpPaddingHarmless;
    FixL4KeepsForm(d, info, portOff, port, src, dst);
    if info.proto == PROTO_TCP {
      FixTcpVerifiesIff(d, info, portOff, port, src, dst);
    } else if info.proto == PROTO_UDP {
      FixUdpVerifiesIff(d, info, portOff, port, src, dst);
    } else if info.proto == PROTO_ICMP {
      FixIcmpVerifiesIff(d, info);
    }
  }
  // ---------------------------------------------------------------- the two rewriters

  /** The bytes a rewrite may touch: MAC addresses, IP checksum, one address, one port, transport checksum. */
  predicate Touchable(info: Info, addrOff: nat, portOff: nat, j: nat) {
    || j < 12 || j == 24 || j == 25 || addrOff <= j < addrOff + 4
    || InTransportFields(info, portOff, j)
  }

  ghost predicate SameOutside(raw: seq<byte>, out: seq<byte>, info: Info, addrOff: nat, portOff: nat) {
    |out| == |raw| && forall j: nat :: j < |raw| && !Touchable(info, addrOff, portOff, j) ==> out[j] == raw[j]
  }

  /** d is raw with the MAC addresses and the address at addrOff replaced. */
  ghost predicate Readdressed(raw: seq<byte>, d: seq<byte>, addrOff: nat, addr: Ip4) {
    && (addrOff == 26 || addrOff == 30) && 34 <= |d| == |raw|
    && d[addrOff..addrOff + 4] == addr
    && forall j :: 12 <= j < |raw| && !(addrOff <= j < addrOff + 4) ==> d[j] == raw[j]
  }

  lemma OutboundReaddresses(raw: seq<byte>, natIp: Ip4, ctrlMac: MacAddr, dstMac: Option<MacAddr>)
    requires 34 <= |raw|
    ensures Readdressed(raw, OutboundAddresses(raw, natIp, ctrlMac, dstMac), 26, natIp)
  {
  }

  lemma InboundReaddresses(raw: seq<byte>, srcMac: MacAddr, srcIp: Ip4)
    requires 34 <= |raw|
    ensures Readdressed(raw, InboundAddresses(raw, srcMac, srcIp), 30, srcIp)
  {
  }

  /** Both fixes after a readdressing change only checksum and port fields, and the header verifies. */
  lemma FixedFrame(raw: seq<byte>, d: seq<byte>, info: Info, addrOff: nat, addr: Ip4, portOff: nat, port: Word,
                   src: Ip4, dst: Ip4, out: seq<byte>)
    requires 34 <= info.L4() <= |raw| <= 0xFFFF && Indexable(info, |raw|) && Readdressed(raw, d, addrOff, addr)
    requires info.L4() <= portOff <= info.L4() + 2
    requires out == FixL4(FixIp(d, info.L4()), info, portOff, port, src, dst)
    ensures |out| == |raw| && SameOutside(raw, out, info, addrOff, portOff) && out[addrOff..addrOff + 4] == addr
    ensures HasPorts(info) ==> WordAt(out, portOff) == port
    ensures HeaderVerifies(out, info.L4())
  {
    var h := FixIp(d, info.L4());
    FixIpVerifies(d, info.L4());
    FixL4Changes(h, info, portOff, port, src, dst);
    hide FixIp, FixL4, OnesSum;
    assert out[14..info.L4()] == h[14..info.L4()];
  }

  lemma ReaddressedKeepsForm(raw: seq<byte>, d: seq<byte>, info: Info, addrOff: nat, addr: Ip4)
    requires 34 <= info.L4() <= |raw| <= 0xFFFF && Readdressed(raw, d, addrOff, addr) && WellFormed(raw, info)
    ensures WellFormed(FixIp(d, info.L4()), info)
  {
  }

  lemma SameTailSlice(raw: seq<byte>, h: seq<byte>, a: nat, b: nat)
    requires 34 <= a <= b <= |h| == |raw| && h[34..] == raw[34..]
    ensures raw[a..b] == h[a..b]
  {
    forall j | a <= j < b ensures raw[j] == h[j] {
      assert raw[j] == raw[34..][j - 34] && h[j] == h[34..][j - 34];
    }
  }

  lemma SameTailMessage(raw: seq<byte>, h: seq<byte>, l4: nat, end: nat)
    requires 34 <= l4 && l4 + 4 <= end <= |h| == |raw| && h[34..] == raw[34..]
    ensures Put16(raw, l4 + 2, 0)[l4..end] == Put16(h, l4 + 2, 0)[l4..end]
  {
    hide Put16, WordAt;
    SameTailSlice(raw, h, l4, end);
    PatchInRegion(raw, l4, end, l4 + 2, 0);
    PatchInRegion(h, l4, end, l4 + 2, 0);
  }

  lemma SameTailPad(raw: seq<byte>, h: seq<byte>, l4: nat, end: nat)
    requires 34 <= l4 <= end <= |h| == |raw| && h[34..] == raw[34..]
    ensures PadSum(raw, l4, end) == PadSum(h, l4, end)
  {
    hide WordSum, Aligned;
    assert raw[end..] == raw[34..][end - 34..] && h[end..] == h[34..][end - 34..];
  }

  /** Whether a frame is acceptable depends only on what follows the fixed IP header. */
  lemma SameTailAcceptable(raw: seq<byte>, h: seq<byte>, info: Info, used: Ip4, actual: Ip4)
    requires 34 <= info.L4() && WellFormed(raw, info) && WellFormed(h, info)
    requires |h| == |raw| >= 34 && h[34..] == raw[34..]
    ensures Acceptable(h, info, used, actual) <==> Acceptable(raw, info, used, actual)
  {
    hide WordSum, Put16, PadSum, WordAt;
    SameTailPad(raw, h, info.L4(), End(info));
    if info.proto == PROTO_ICMP {
      SameTailMessage(raw, h, info.L4(), End(info));
    }
  }

  lemma FixedHeader(raw: seq<byte>, d: seq<byte>, info: Info, addrOff: nat, addr: Ip4)
    requires 34 <= info.L4() <= |raw| <= 0xFFFF && Readdressed(raw, d, addrOff, addr) && WellFormed(raw, info)
    ensures var h := FixIp(d, info.L4());
            WellFormed(h, info) && h[26..30] == d[26..30] && h[30..34] == d[30..34] && h[34..] == raw[34..]
  {
    ReaddressedKeepsForm(raw, d, info, addrOff, addr);
    FixIpVerifies(d, info.L4());
    hide FixIp, WellFormed, HeaderVerifies;
    var h := FixIp(d, info.L4());
    assert h[26..30] == d[26..30] && h[30..34] == d[30..34];
  }

  /**
  The receiver accepts the rewritten frame exactly when the frame was acceptable for the pseudo-header address in use.
  */
  lemma FixedFrameVerifiesIff(raw: seq<byte>, d: seq<byte>, info: Info, addrOff: nat, addr: Ip4, portOff: nat,
                              port: Word, src: Ip4, dst: Ip4, actual: Ip4, out: seq<byte>)
    requires 34 <= info.L4() <= |raw| <= 0xFFFF && WellFormed(raw, info) && Readdressed(raw, d, addrOff, addr)
    requires info.L4() <= portOff <= info.L4() + 2 && d[26..30] == actual && d[30..34] == dst
    requires out == FixL4(FixIp(d, info.L4()), info, portOff, port, src, dst)
    ensures WellFormed(out, info) && (TransportVerifies(out, info) <==> Acceptable(raw, info, src, actual))
  {
    hide FixIp, FixL4, TransportVerifies, Acceptable;
    FixedHeader(raw, d, info, addrOff, addr);
    hide WellFormed;
    var h := FixIp(d, info.L4());
    FixL4VerifiesIff(h, info, portOff, port, src, dst);
    SameTailAcceptable(raw, h, info, src, actual);
  }

  /** What the parser reads from a rewritten frame. */
  lemma RewrittenParses(raw: seq<byte>, info: Info, out: seq<byte>, addrOff: nat, portOff: nat)
    requires ParseEthIp(raw) == Some(info) && info.L4() <= portOff && (addrOff == 26 || addrOff == 30)
    requires SameOutside(raw, out, info, addrOff, portOff)
    ensures var r := ParseEthIp(out);
            && r.Some? && r.value.proto == info.proto && r.value.ihl == info.ihl && r.value.totalLen == info.totalLen
            && r.value.srcIp == (if addrOff == 26 then out[26..30] else info.srcIp)
            && r.value.dstIp == (if addrOff == 30 then out[30..34] else info.dstIp)
  {
  }

  /** `_rewrite_outbound`: the source becomes the NAT address and port, nothing else but MACs and checksums changes. */
  lemma OutboundFields(raw: seq<byte>, info: Info, entry: Entry, ctrlMac: MacAddr, dstMac: Option<MacAddr>,
                       out: seq<byte>)
    requires ParseEthIp(raw) == Some(info) && |raw| <= 0xFFFF
    requires OutboundBytes(raw, info, entry, ctrlMac, dstMac) == Some(out)
    ensures |out| == |raw| && SameOutside(raw, out, info, 26, info.L4()) && out[26..30] == entry.natIp
    ensures HasPorts(info) ==> WordAt(out, info.L4()) == entry.natPort
    ensures HeaderVerifies(out, info.L4())
  {
    hide FixIp, FixL4, SameOutside, HeaderVerifies;
    OutboundReaddresses(raw, entry.natIp, ctrlMac, dstMac);
    FixedFrame(raw, OutboundAddresses(raw, entry.natIp, ctrlMac, dstMac), info, 26, entry.natIp, info.L4(),
               entry.natPort, entry.natIp, entry.dstIp, out);
  }

  /** The rewritten outbound frame passes the receiver's transport check exactly when its padding is harmless. */
  lemma OutboundVerifiesIff(raw: seq<byte>, info: Info, entry: Entry, ctrlMac: MacAddr, dstMac: Option<MacAddr>,
                            out: seq<byte>)
    requires ParseEthIp(raw) == Some(info) && |raw| <= 0xFFFF && WellFormed(raw, info) && entry.dstIp == info.dstIp
    requires OutboundBytes(raw, info, entry, ctrlMac, dstMac) == Some(out)
    ensures WellFormed(out, info) && (TransportVerifies(out, info) <==> PaddingHarmless(raw, info))
  {
    var d := OutboundAddresses(raw, entry.natIp, ctrlMac, dstMac);
    OutboundReaddresses(raw, entry.natIp, ctrlMac, dstMac);
    assert d[30..34] == raw[30..34] && d[26..30] == entry.natIp;
    hide FixIp, FixL4, WellFormed, TransportVerifies, OutboundAddresses, Readdressed, Acceptable, PaddingHarmless;
    FixedFrameVerifiesIff(raw, d, info, 26, entry.natIp, info.L4(), entry.natPort, entry.natIp, entry.dstIp,
                          entry.natIp, out);
    AcceptableIffPaddingHarmless(raw, info, entry.natIp);
  }

  /** `_rewrite_inbound`: the destination becomes the internal address and port. */
  lemma InboundFields(raw: seq<byte>, info: Info, entry: Entry, out: seq<byte>)
    requires ParseEthIp(raw) == Some(info) && |raw| <= 0xFFFF
    requires InboundBytes(raw, info, entry) == Some(out)
    ensures |out| == |raw| && SameOutside(raw, out, info, 30, info.L4() + 2) && out[30..34] == entry.srcIp
    ensures HasPorts(info) ==> WordAt(out, info.L4() + 2) == entry.srcPort
    ensures HeaderVerifies(out, info.L4())
  {
    hide FixIp, FixL4, SameOutside, HeaderVerifies;
    InboundReaddresses(raw, entry.srcMac, entry.srcIp);
    FixedFrame(raw, InboundAddresses(raw, entry.srcMac, entry.srcIp), info, 30, entry.srcIp, info.L4() + 2,
               entry.srcPort, entry.dstIp, entry.srcIp, out);
  }

  lemma InboundAddressed(raw: seq<byte>, info: Info, entry: Entry)
    requires ParseEthIp(raw) == Some(info)
    ensures var d := InboundAddresses(raw, entry.srcMac, entry.srcIp);
            Readdressed(raw, d, 30, entry.srcIp) && d[26..30] == info.srcIp && d[30..34] == entry.srcIp
  {
    InboundReaddresses(raw, entry.srcMac, entry.srcIp);
    hide InboundAddresses;
    assert InboundAddresses(raw, entry.srcMac, entry.srcIp)[26..30] == raw[26..30];
  }

  /**
  The inbound pseudo-header takes the peer's address from the entry, not from the frame: a frame from any address is
  rewritten, and the receiver accepts it exactly when its own address sums like the peer's and its padding is harmless.
  */
  lemma InboundVerifiesIff(raw: seq<byte>, info: Info, entry: Entry, out: seq<byte>)
    requires ParseEthIp(raw) == Some(info) && |raw| <= 0xFFFF && WellFormed(raw, info)
    requires InboundBytes(raw, info, entry) == Some(out)
    ensures WellFormed(out, info) && (TransportVerifies(out, info) <==> Acceptable(raw, info, entry.dstIp, info.srcIp))
  {
    hide FixIp, FixL4, WellFormed, TransportVerifies, InboundAddresses, Readdressed, Acceptable;
    var d := InboundAddresses(raw, entry.srcMac, entry.srcIp);
    InboundAddressed(raw, info, entry);
    FixedFrameVerifiesIff(raw, d, info, 30, entry.srcIp, info.L4() + 2, entry.srcPort, entry.dstIp, entry.srcIp,
                          info.srcIp, out);
  }

  /** A reply from the connection's peer verifies exactly when its padding is harmless. */
  lemma PeerReplyVerifiesIff(raw: seq<byte>, info: Info, entry: Entry, out: seq<byte>)
    requires ParseEthIp(raw) == Some(info) && |raw| <= 0xFFFF && WellFormed(raw, info) && entry.dstIp == info.srcIp
    requires InboundBytes(raw, info, entry) == Some(out)
    ensures WellFormed(out, info) && (TransportVerifies(out, info) <==> PaddingHarmless(raw, info))
  {
    hide WellFormed, TransportVerifies, Acceptable, PaddingHarmless, ParseEthIp, InboundBytes;
    InboundVerifiesIff(raw, info, entry, out);
    AcceptableIffPaddingHarmless(raw, info, info.srcIp);
  }

  lemma PatchAlike(a: seq<byte>, b: seq<byte>, f: nat, v: Word)
    requires f + 2 <= |a| == |b| && forall j :: 0 <= j < |a| && j != f && j != f + 1 ==> a[j] == b[j]
    ensures Put16(a, f, v) == Put16(b, f, v)
  {
  }

  lemma MessageBytesKept(raw: seq<byte>, out: seq<byte>, info: Info, addrOff: nat, portOff: nat)
    requires 34 <= info.L4() && info.proto == PROTO_ICMP && (addrOff == 26 || addrOff == 30)
    requires SameOutside(raw, out, info, addrOff, portOff)
    ensures |out| == |raw|
    ensures forall j: nat :: info.L4() <= j < |raw| && j != info.L4() + 2 && j != info.L4() + 3 ==> out[j] == raw[j]
  {
  }

  lemma MessageKept(raw: seq<byte>, out: seq<byte>, l4: nat, end: nat)
    requires l4 + 4 <= end <= |raw| == |out|
    requires forall j: nat :: l4 <= j < |raw| && j != l4 + 2 && j != l4 + 3 ==> out[j] == raw[j]
    ensures Put16(out, l4 + 2, 0)[l4..end] == Put16(raw, l4 + 2, 0)[l4..end]
  {
    hide Put16, WordAt;
    PatchAlike(out[l4..end], raw[l4..end], 2, 0);
    PatchInRegion(out, l4, end, l4 + 2, 0);
    PatchInRegion(raw, l4, end, l4 + 2, 0);
  }

  lemma PaddingBytesKept(raw: seq<byte>, out: seq<byte>, info: Info, addrOff: nat, portOff: nat)
    requires 34 <= info.L4() && WellFormed(raw, info) && (addrOff == 26 || addrOff == 30)
    requires info.L4() <= portOff <= info.L4() + 2 && SameOutside(raw, out, info, addrOff, portOff)
    ensures |out| == |raw| && out[End(info)..] == raw[End(info)..]
  {
    assert forall j: nat :: End(info) <= j < |raw| ==> !Touchable(info, addrOff, portOff, j);
  }

  /** Rewriting a frame keeps its padding as harmless as it was. */
  lemma PaddingKept(raw: seq<byte>, out: seq<byte>, info: Info, addrOff: nat, portOff: nat)
    requires 34 <= info.L4() && WellFormed(raw, info) && WellFormed(out, info) && (addrOff == 26 || addrOff == 30)
    requires info.L4() <= portOff <= info.L4() + 2 && SameOutside(raw, out, info, addrOff, portOff)
    ensures PaddingHarmless(out, info) <==> PaddingHarmless(raw, info)
  {
    hide WordSum, Put16, SameOutside, Aligned, Indexable, WordAt;
    PaddingBytesKept(raw, out, info, addrOff, portOff);
    if info.proto == PROTO_ICMP {
      MessageBytesKept(raw, out, info, addrOff, portOff);
      MessageKept(raw, out, info.L4(), End(info));
    }
  }

  // ---------------------------------------------------------------- link-layer addresses

  lemma OutboundHead(raw: seq<byte>, natIp: Ip4, ctrlMac: MacAddr, dstMac: Option<MacAddr>)
    requires 34 <= |raw|
    ensures var d := OutboundAddresses(raw, natIp, ctrlMac, dstMac);
            d[6..12] == ctrlMac && d[..6] == dstMac.UnwrapOr(raw[..6])
  {
    hide Splice;
    var d := Splice(raw, 6, ctrlMac);
    assert d[..6] == raw[..6];
    var e := if dstMac.Some? then Splice(d, 0, dstMac.value) else d;
    assert e[6..12] == d[6..12] == ctrlMac;
    assert e[..6] == e[0..6] == dstMac.UnwrapOr(raw[..6]);
    var f := Splice(e, 26, natIp);
    assert f[6..12] == e[6..12] && f[..6] == e[..6];
  }

  /**
  What goes out comes from the controller's address, and goes to the given address or, without one, where it was going.
  */
  lemma OutboundMacs(raw: seq<byte>, info: Info, entry: Entry, ctrlMac: MacAddr, dstMac: Option<MacAddr>,
                     out: seq<byte>)
    requires ParseEthIp(raw) == Some(info) && |raw| <= 0xFFFF
    requires OutboundBytes(raw, info, entry, ctrlMac, dstMac) == Some(out)
    ensures |out| == |raw| >= 34 && out[6..12] == ctrlMac && out[..6] == dstMac.UnwrapOr(raw[..6])
  {
    hide FixIp, FixL4, HeaderVerifies, OutboundAddresses, ParseEthIp;
    var d := OutboundAddresses(raw, entry.natIp, ctrlMac, dstMac);
    OutboundHead(raw, entry.natIp, ctrlMac, dstMac);
    HeadKept(d, info, info.L4(), entry.natPort, entry.natIp, entry.dstIp);
  }

  lemma HeadKept(d: seq<byte>, info: Info, portOff: nat, port: Word, src: Ip4, dst: Ip4)
    requires 34 <= info.L4() <= |d| <= 0xFFFF && Indexable(info, |d|) && info.L4() <= portOff <= info.L4() + 2
    ensures var out := FixL4(FixIp(d, info.L4()), info, portOff, port, src, dst);
            |out| == |d| && out[..6] == d[..6] && out[6..12] == d[6..12]
  {
    FixIpVerifies(d, info.L4());
    FixL4Changes(FixIp(d, info.L4()), info, portOff, port, src, dst);
    hide FixIp, FixL4, HeaderVerifies;
  }

  /** What comes in goes to the address kept with the connection, and keeps its sender. */
  lemma InboundMacs(raw: seq<byte>, info: Info, entry: Entry, out: seq<byte>)
    requires ParseEthIp(raw) == Some(info) && |raw| <= 0xFFFF
    requires InboundBytes(raw, info, entry) == Some(out)
    ensures |out| == |raw| >= 34 && out[..6] == entry.srcMac && out[6..12] == raw[6..12]
  {
    hide FixIp, FixL4, HeaderVerifies, ParseEthIp;
    var d := InboundAddresses(raw, entry.srcMac, entry.srcIp);
    assert d[..6] == entry.srcMac && d[6..12] == raw[6..12];
    hide InboundAddresses;
    HeadKept(d, info, info.L4() + 2, entry.srcPort, entry.dstIp, entry.srcIp);
  }

  /**
  A frame is rewritten exactly when it reaches to the end of the fields that are rewritten; Python raises otherwise.
  */
  lemma RewrittenIffLongEnough(raw: seq<byte>, info: Info, entry: Entry, ctrlMac: MacAddr, dstMac: Option<MacAddr>)
    requires ParseEthIp(raw) == Some(info) && |raw| <= 0xFFFF
    ensures OutboundBytes(raw, info, entry, ctrlMac, dstMac).Some? <==> InboundBytes(raw, info, entry).Some?
    ensures var l4 := raw[info.L4()..];
            OutboundBytes(raw, info, entry, ctrlMac, dstMac).Some? <==>
              if info.proto == PROTO_TCP then |l4| >= 18 else if info.proto == PROTO_UDP then |l4| >= 8
              else info.proto == PROTO_ICMP ==> |l4| >= 4
  {
  }
}
