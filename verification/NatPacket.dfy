/** Parsing and in-place rewriting of Ethernet/IPv4 frames in nat.py. */
module NatPacket {
  import opened Wrappers
  import opened Bytes
  import opened Checksum

  type Ip4 = s: seq<byte> | |s| == 4 witness [0, 0, 0, 0]
  type MacAddr = s: seq<byte> | |s| == 6 witness [0, 0, 0, 0, 0, 0]

  const PROTO_ICMP: byte := 1
  const PROTO_TCP: byte := 6
  const PROTO_UDP: byte := 17

  datatype TcpState = New | Established | Closing

  datatype Entry = Entry(srcIp: Ip4, srcPort: Word, dstIp: Ip4, dstPort: Word, proto: byte, natIp: Ip4, natPort: Word,
                         srcMac: MacAddr, state: TcpState, createdAt: real, lastSeen: real)

  datatype Info = Info(srcMac: MacAddr, srcIp: Ip4, dstIp: Ip4, proto: byte, ihl: nat, totalLen: Word)
  {
    function L4(): nat { 14 + ihl }
  }

  /** `_parse_eth_ip` at offset 0. */
  function ParseEthIp(raw: seq<byte>): (r: Option<Info>)
    ensures r.Some? ==> r.value.ihl % 4 == 0 && 20 <= r.value.ihl <= 60 && r.value.L4() <= |raw|
  {
    if |raw| < 34 || WordAt(raw, 12) != 0x0800 then None
    else
      var ihl := (raw[14] % 16) * 4;
      if ihl < 20 || |raw| < 14 + ihl then None
      else Some(Info(raw[0..6], raw[26..30], raw[30..34], raw[23], ihl, WordAt(raw, 16)))
  }

  /** An IPv4 frame, field by field as section 3.1 of RFC 791 lays them out. */
  function BuiltFrame(first: MacAddr, second: MacAddr, versionIhl: byte, tos: byte, totalLen: Word, ident: Word,
                      fragment: Word, ttl: byte, proto: byte, checksum: Word, src: Ip4, dst: Ip4,
                      rest: seq<byte>): seq<byte> {
    first + second + [0x08, 0x00] + [versionIhl, tos] + [totalLen / 256, totalLen % 256] + [ident / 256, ident % 256]
      + [fragment / 256, fragment % 256] + [ttl, proto] + [checksum / 256, checksum % 256] + src + dst + rest
  }

  /**
  The parser reads each field back from where the header has it, and refuses a header that is too short or cut off.
  */
  lemma ParseReadsFields(first: MacAddr, second: MacAddr, versionIhl: byte, tos: byte, totalLen: Word, ident: Word,
                         fragment: Word, ttl: byte, proto: byte, checksum: Word, src: Ip4, dst: Ip4, rest: seq<byte>)
    ensures var ihl := (versionIhl % 16) * 4;
            ParseEthIp(BuiltFrame(first, second, versionIhl, tos, totalLen, ident, fragment, ttl, proto, checksum, src,
                                  dst, rest))
              == if 20 <= ihl <= 20 + |rest| then Some(Info(first, src, dst, proto, ihl, totalLen)) else None
  {
    var raw := BuiltFrame(first, second, versionIhl, tos, totalLen, ident, fragment, ttl, proto, checksum, src, dst,
                          rest);
    assert raw[0..6] == first && raw[26..30] == src && raw[30..34] == dst;
    assert raw[12..18] == [0x08, 0x00, versionIhl, tos, totalLen / 256, totalLen % 256];
    assert raw[12] == raw[12..18][0] && raw[13] == raw[12..18][1] && raw[14] == raw[12..18][2];
    assert raw[16] == raw[12..18][4] && raw[17] == raw[12..18][5] && raw[23] == proto;
  }

  /** Frames that are not IPv4, or too short to hold an IPv4 header, are ignored. */
  lemma OnlyIpv4IsParsed(raw: seq<byte>)
    requires |raw| < 34 || raw[12..14] != [0x08, 0x00]
    ensures ParseEthIp(raw) == None
  {
    if |raw| >= 34 {
      assert raw[12..14] == [raw[12], raw[13]];
    }
  }

  function Pseudo(src: Ip4, dst: Ip4, proto: byte, len: Word): (r: seq<byte>)
    ensures |r| == 12
  {
    src + dst + [0, proto, len / 256, len % 256]
  }

  // ---------------------------------------------------------------- the rewritten bytes

  /** Zero the IP header checksum and fill it in again. */
  function FixIp(d: seq<byte>, l4: nat): (r: seq<byte>)
    requires 34 <= l4 <= |d|
    ensures |r| == |d|
  {
    var z := Put16(d, 24, 0);
    Put16(z, 24, ChecksumOf(z[14..l4]))
  }

  /** What the TCP checksum is computed over, assembled piecewise as the code does. */
  function TcpPieces(seg: seq<byte>, pay: seq<byte>, src: Ip4, dst: Ip4): seq<byte>
    requires |seg| + |pay| <= 0xFFFF
  {
    Pseudo(src, dst, PROTO_TCP, |seg| + |pay|) + Slice(seg, 0, 16) + [0, 0] + Slice(seg, 18, |seg|) + pay
  }

  function TcpContent(z: seq<byte>, l4: nat, src: Ip4, dst: Ip4): seq<byte>
    requires l4 + 18 <= |z| <= 0xFFFF
  {
    var hdr := (z[l4 + 12] / 16) * 4;
    TcpPieces(Slice(z, l4, l4 + hdr), Slice(z, l4 + hdr, |z|), src, dst)
  }

  function FixTcp(d: seq<byte>, l4: nat, portOff: nat, port: Word, src: Ip4, dst: Ip4): (r: seq<byte>)
    requires l4 + 18 <= |d| <= 0xFFFF && l4 <= portOff <= l4 + 2
    ensures |r| == |d|
  {
    var z := Put16(Put16(d, portOff, port), l4 + 16, 0);
    Put16(z, l4 + 16, ChecksumOf(TcpContent(z, l4, src, dst)))
  }

  function UdpChecksum(z: seq<byte>, l4: nat, src: Ip4, dst: Ip4): Word
    requires l4 + 8 <= |z|
  {
    var len := WordAt(z, l4 + 4);
    var c := ChecksumOf(Pseudo(src, dst, PROTO_UDP, len) + Slice(z, l4, l4 + len));
    if c == 0 then 0xFFFF else c
  }

  function FixUdp(d: seq<byte>, l4: nat, portOff: nat, port: Word, src: Ip4, dst: Ip4): (r: seq<byte>)
    requires l4 + 8 <= |d| && l4 <= portOff <= l4 + 2
    ensures |r| == |d|
  {
    var z := Put16(Put16(d, portOff, port), l4 + 6, 0);
    Put16(z, l4 + 6, UdpChecksum(z, l4, src, dst))
  }

  function FixIcmp(d: seq<byte>, l4: nat): (r: seq<byte>)
    requires l4 + 4 <= |d|
    ensures |r| == |d|
  {
    var z := Put16(d, l4 + 2, 0);
    Put16(z, l4 + 2, ChecksumOf(z[l4..]))
  }

  /** The transport header is long enough for the bytes the rewriters index; otherwise Python raises. */
  predicate Indexable(info: Info, n: nat) {
    && (info.proto == PROTO_TCP ==> info.L4() + 18 <= n)
    && (info.proto == PROTO_UDP ==> info.L4() + 8 <= n)
    && (info.proto == PROTO_ICMP ==> info.L4() + 4 <= n)
  }

  function FixL4(d: seq<byte>, info: Info, portOff: nat, port: Word, src: Ip4, dst: Ip4): (r: seq<byte>)
    requires Indexable(info, |d|) && |d| <= 0xFFFF && info.L4() <= portOff <= info.L4() + 2
    ensures |r| == |d|
  {
    if info.proto == PROTO_TCP then FixTcp(d, info.L4(), portOff, port, src, dst)
    else if info.proto == PROTO_UDP then FixUdp(d, info.L4(), portOff, port, src, dst)
    else if info.proto == PROTO_ICMP then FixIcmp(d, info.L4())
    else d
  }

  /** The frame after the MAC and address rewrites of `_rewrite_outbound`. */
  function OutboundAddresses(raw: seq<byte>, natIp: Ip4, ctrlMac: MacAddr, dstMac: Option<MacAddr>): (r: seq<byte>)
    requires 34 <= |raw|
    ensures |r| == |raw|
  {
    var d := Splice(raw, 6, ctrlMac);
    var e := if dstMac.Some? then Splice(d, 0, dstMac.value) else d;
    Splice(e, 26, natIp)
  }

  function OutboundBytes(raw: seq<byte>, info: Info, entry: Entry, ctrlMac: MacAddr,
                         dstMac: Option<MacAddr>): (r: Option<seq<byte>>)
    requires ParseEthIp(raw) == Some(info) && |raw| <= 0xFFFF
  {
    if !Indexable(info, |raw|) then None
    else Some(FixL4(FixIp(OutboundAddresses(raw, entry.natIp, ctrlMac, dstMac), info.L4()), info, info.L4(),
                    entry.natPort, entry.natIp, entry.dstIp))
  }

  /** The frame after the MAC and address rewrites of `_rewrite_inbound`. */
  function InboundAddresses(raw: seq<byte>, srcMac: MacAddr, srcIp: Ip4): (r: seq<byte>)
    requires 34 <= |raw|
    ensures |r| == |raw|
  {
    Splice(Splice(raw, 0, srcMac), 30, srcIp)
  }

  function InboundBytes(raw: seq<byte>, info: Info, entry: Entry): (r: Option<seq<byte>>)
    requires ParseEthIp(raw) == Some(info) && |raw| <= 0xFFFF
  {
    if !Indexable(info, |raw|) then None
    else Some(FixL4(FixIp(InboundAddresses(raw, entry.srcMac, entry.srcIp), info.L4()), info, info.L4() + 2,
                    entry.srcPort, entry.dstIp, entry.srcIp))
  }

  /** `_update_tcp_state` */
  function NextTcpState(proto: byte, state: TcpState, flags: byte): TcpState {
    var fin, syn, rst, ack := flags % 2 == 1, flags / 2 % 2 == 1, flags / 4 % 2 == 1, flags / 16 % 2 == 1;
    if proto != PROTO_TCP then state
    else if fin || rst then Closing
    else if syn && !ack && state == New then state
    else if syn && ack then Established
    else if ack && state == New then Established
    else state
  }

  function StateAfter(raw: seq<byte>, info: Info, entry: Entry): TcpState {
    if info.proto == PROTO_TCP && info.L4() + 18 <= |raw|
      then NextTcpState(entry.proto, entry.state, raw[info.L4() + 13] % 64)
    else entry.state
  }

  // ---------------------------------------------------------------- the same, in place on a bytearray

  method Store(a: array<byte>, i: nat, bs: seq<byte>)
    requires i + |bs| <= a.Length
    modifies a
    ensures a[..] == Splice(old(a[..]), i, bs)
  {
    for k := 0 to |bs|
      invariant a[..] == Splice(old(a[..]), i, bs[..k])
    {
      a[i + k] := bs[k];
      assert bs[..k + 1] == bs[..k] + [bs[k]];
    }
    assert bs[..|bs|] == bs;
  }

  method Store16(a: array<byte>, i: nat, v: Word)
    requires i + 1 < a.Length
    modifies a
    ensures a[..] == Put16(old(a[..]), i, v)
  {
    a[i] := v / 256;
    a[i + 1] := v % 256;
  }

  method FixIpInPlace(a: array<byte>, l4: nat)
    requires 34 <= l4 <= a.Length
    modifies a
    ensures a[..] == FixIp(old(a[..]), l4)
  {
    Store16(a, 24, 0);
    var c := ComputeChecksum(a[14..l4]);
    assert a[14..l4] == a[..][14..l4];
    Store16(a, 24, c);
  }

  method FixTcpInPlace(a: array<byte>, l4: nat, portOff: nat, port: Word, src: Ip4, dst: Ip4)
    requires l4 + 18 <= a.Length <= 0xFFFF && l4 <= portOff <= l4 + 2
    modifies a
    ensures a[..] == FixTcp(old(a[..]), l4, portOff, port, src, dst)
  {
    hide TcpContent, ChecksumOf;
    Store16(a, portOff, port);
    Store16(a, l4 + 16, 0);
    var c := ComputeChecksum(TcpContent(a[..], l4, src, dst));
    Store16(a, l4 + 16, c);
  }

  method ComputeUdpChecksum(z: seq<byte>, l4: nat, src: Ip4, dst: Ip4) returns (c: Word)
    requires l4 + 8 <= |z|
    ensures c == UdpChecksum(z, l4, src, dst)
  {
    hide ChecksumOf, Slice;
    var len := WordAt(z, l4 + 4);
    c := ComputeChecksum(Pseudo(src, dst, PROTO_UDP, len) + Slice(z, l4, l4 + len));
    if c == 0 {
      c := 0xFFFF;
    }
  }

  method FixUdpInPlace(a: array<byte>, l4: nat, portOff: nat, port: Word, src: Ip4, dst: Ip4)
    requires l4 + 8 <= a.Length && l4 <= portOff <= l4 + 2
    modifies a
    ensures a[..] == FixUdp(old(a[..]), l4, portOff, port, src, dst)
  {
    hide UdpChecksum;
    Store16(a, portOff, port);
    Store16(a, l4 + 6, 0);
    var c := ComputeUdpChecksum(a[..], l4, src, dst);
    Store16(a, l4 + 6, c);
  }

  method FixIcmpInPlace(a: array<byte>, l4: nat)
    requires l4 + 4 <= a.Length
    modifies a
    ensures a[..] == FixIcmp(old(a[..]), l4)
  {
    hide ChecksumOf;
    Store16(a, l4 + 2, 0);
    var c := ComputeChecksum(a[..][l4..]);
    Store16(a, l4 + 2, c);
  }

  method FixL4InPlace(a: array<byte>, info: Info, portOff: nat, port: Word, src: Ip4, dst: Ip4)
    requires Indexable(info, a.Length) && a.Length <= 0xFFFF && info.L4() <= portOff <= info.L4() + 2
    modifies a
    ensures a[..] == FixL4(old(a[..]), info, portOff, port, src, dst)
  {
    hide FixTcp, FixUdp, FixIcmp;
    if info.proto == PROTO_TCP {
      FixTcpInPlace(a, info.L4(), portOff, port, src, dst);
    } else if info.proto == PROTO_UDP {
      FixUdpInPlace(a, info.L4(), portOff, port, src, dst);
    } else if info.proto == PROTO_ICMP {
      FixIcmpInPlace(a, info.L4());
    }
  }

  method RewriteOutbound(raw: seq<byte>, info: Info, entry: Entry, ctrlMac: MacAddr, dstMac: Option<MacAddr>)
    returns (r: Option<seq<byte>>, state: TcpState)
    requires ParseEthIp(raw) == Some(info) && |raw| <= 0xFFFF
    ensures r == OutboundBytes(raw, info, entry, ctrlMac, dstMac) && state == StateAfter(raw, info, entry)
  {
    hide FixIp, FixL4, StateAfter, ParseEthIp;
    r, state := None, StateAfter(raw, info, entry);
    if Indexable(info, |raw|) {
      var data := new byte[|raw|](i requires 0 <= i < |raw| => raw[i]);
      assert data[..] == raw;
      Store(data, 6, ctrlMac);
      if dstMac.Some? {
        Store(data, 0, dstMac.value);
      }
      Store(data, 26, entry.natIp);
      FixIpInPlace(data, info.L4());
      FixL4InPlace(data, info, info.L4(), entry.natPort, entry.natIp, entry.dstIp);
      r := Some(data[..]);
    }
  }

  method RewriteInbound(raw: seq<byte>, info: Info, entry: Entry) returns (r: Option<seq<byte>>, state: TcpState)
    requires ParseEthIp(raw) == Some(info) && |raw| <= 0xFFFF
    ensures r == InboundBytes(raw, info, entry) && state == StateAfter(raw, info, entry)
  {
    hide FixIp, FixL4, StateAfter, ParseEthIp;
    r, state := None, StateAfter(raw, info, entry);
    if Indexable(info, |raw|) {
      var data := new byte[|raw|](i requires 0 <= i < |raw| => raw[i]);
      assert data[..] == raw;
      Store(data, 0, entry.srcMac);
      Store(data, 30, entry.srcIp);
      FixIpInPlace(data, info.L4());
      FixL4InPlace(data, info, info.L4() + 2, entry.srcPort, entry.dstIp, entry.srcIp);
      r := Some(data[..]);
    }
  }
}
