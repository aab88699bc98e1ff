/**
The round trip of a translated packet, for TCP, UDP and ICMP echo: the reply reaches the original sender, whatever the
NAT handles in between, unless an echo takes the connection's port.
*/
module NatExchange {
  import opened Wrappers
  import opened Bytes
  import opened Checksum
  import opened NatPacket
  import opened NatRewriting
  import opened NatTable
  import opened NatRuns
  import opened NatLifetimes

  // ---------------------------------------------------------------- having a port to oneself

  /** Looking up the connection's port finds it, and no other connection holds that port. */
  ghost predicate Owns(conns: Connections, index: PortIndex, key: Key) {
    && key in conns && conns[key].natPort in index && index[conns[key].natPort] == key
    && forall k :: k in conns && conns[k].natPort == conns[key].natPort ==> k == key
  }

  /** The event makes an ICMP connection whose identifier is `port`. */
  predicate Shadows(a: TableState, ev: Event, port: Word) {
    && ev.Outbound? && IsIcmp(ev.raw) && OutboundKey(ev.raw).Some? && OutboundKey(ev.raw).value !in a.conns
    && OutboundKey(ev.raw).value.Key? && OutboundKey(ev.raw).value.srcPort == port
  }

  lemma InverseOwns(conns: Connections, index: PortIndex, key: Key)
    requires Inverse(conns, index) && key in conns
    ensures Owns(conns, index, key)
  {
  }

  lemma OutboundKeepsOwnsIff(cfg: Config, a: TableState, raw: seq<byte>, dstMac: Option<MacAddr>, now: real,
                             b: TableState, out: Option<seq<byte>>, e: Entry, key: Key)
    requires |raw| <= 0xFFFF && OutboundKey(raw).Some? && Consistent(a.conns, a.index) && Owns(a.conns, a.index, key)
    requires SendsOn(cfg, a, raw, dstMac, now, b, out, e)
    ensures Owns(b.conns, b.index, key) <==> !Shadows(a, Outbound(raw, dstMac, now), a.conns[key].natPort)
  {
    hide ParseEthIp, OutboundPorts, OutboundBytes, StateAfter;
    var own := OutboundKey(raw).value;
    assert b.conns == a.conns[own := Settled(raw, e)];
    if own !in a.conns && e.natPort != a.conns[key].natPort {
      assert forall k :: k in b.conns && k != own ==> b.conns[k] == a.conns[k];
    }
  }

  /** A connection that is not timed out keeps its port to itself exactly when no ICMP connection takes the port. */
  lemma StepKeepsOwnsIff(cfg: Config, a: TableState, ev: Event, b: TableState, out: Option<seq<byte>>, key: Key)
    requires FitsFrame(ev) && Consistent(a.conns, a.index) && Owns(a.conns, a.index, key) && Steps(cfg, a, ev, b, out)
    requires !(ev.Sweep? && TimedOut(cfg, a.conns[key], ev.now))
    ensures Owns(b.conns, b.index, key) <==> !Shadows(a, ev, a.conns[key].natPort)
  {
    hide ParseEthIp, SendsOn, InboundKey, OutboundKey, IsIcmp, Delivery, StateAfter, Consistent;
    match ev
    case Outbound(raw, dstMac, now) =>
      if OutboundKey(raw).Some? {
        var e :| SendsOn(cfg, a, raw, dstMac, now, b, out, e);
        OutboundKeepsOwnsIff(cfg, a, raw, dstMac, now, b, out, e, key);
      }
    case Inbound(raw, now) =>
    case Sweep(now) =>
  }

  /** Then the port belongs to the echo, and what comes in for the port is not given to the connection any more. */
  lemma ShadowedIsLost(cfg: Config, a: TableState, ev: Event, b: TableState, out: Option<seq<byte>>, key: Key,
                       reply: seq<byte>)
    requires FitsFrame(ev) && Steps(cfg, a, ev, b, out) && key in a.conns && Shadows(a, ev, a.conns[key].natPort)
    requires ParseEthIp(reply).Some? && InboundPort(reply, ParseEthIp(reply).value) == Some(a.conns[key].natPort)
    ensures InboundKey(b.conns, b.index, reply) != Some(key)
  {
    hide OutboundBytes, StateAfter, FirstFree;
    var raw := ev.raw;
    var e :| SendsOn(cfg, a, raw, ev.dstMac, ev.now, b, out, e);
    assert b.index == a.index[e.natPort := OutboundKey(raw).value];
  }

  // ---------------------------------------------------------------- frames that are translated

  /** An ICMP echo request or reply; octets 4 and 5 hold its identifier. */
  predicate IsEcho(raw: seq<byte>, info: Info) {
    info.proto == PROTO_ICMP && info.L4() + 6 <= End(info) <= |raw| && (raw[info.L4()] == 8 || raw[info.L4()] == 0)
  }

  /** A complete TCP or UDP frame or ICMP echo with harmless padding: any at all for UDP, none for instance for TCP. */
  predicate Translatable(raw: seq<byte>) {
    var info := ParseEthIp(raw);
    && |raw| <= 0xFFFF && info.Some? && (HasPorts(info.value) || IsEcho(raw, info.value))
    && WellFormed(raw, info.value) && PaddingHarmless(raw, info.value)
  }

  predicate FrameVerifies(p: seq<byte>)
    requires Translatable(p)
  {
    HeaderVerifies(p, ParseEthIp(p).value.L4()) && TransportVerifies(p, ParseEthIp(p).value)
  }

  datatype Ends = Ends(srcIp: Ip4, srcPort: Word, dstIp: Ip4, dstPort: Word)
  {
    function Swapped(): Ends {
      Ends(dstIp, dstPort, srcIp, srcPort)
    }
  }

  /** The endpoints of a frame on its way out; an echo's identifier is its source port, its destination port is 0. */
  function SentEnds(p: seq<byte>): Ends
    requires Translatable(p)
  {
    var info := ParseEthIp(p).value;
    if HasPorts(info) then Ends(info.srcIp, WordAt(p, info.L4()), info.dstIp, WordAt(p, info.L4() + 2))
    else Ends(info.srcIp, WordAt(p, info.L4() + 4), info.dstIp, 0)
  }

  /** And on its way in: then the identifier is the destination port. */
  function ReceivedEnds(p: seq<byte>): Ends
    requires Translatable(p)
  {
    var info := ParseEthIp(p).value;
    if HasPorts(info) then Ends(info.srcIp, WordAt(p, info.L4()), info.dstIp, WordAt(p, info.L4() + 2))
    else Ends(info.srcIp, 0, info.dstIp, WordAt(p, info.L4() + 4))
  }

  /** r answers s: addresses and ports are swapped, or the echo's identifier is the same. */
  predicate IsReply(s: seq<byte>, r: seq<byte>)
    requires Translatable(s)
  {
    && Translatable(r) && ParseEthIp(r).value.proto == ParseEthIp(s).value.proto
    && ReceivedEnds(r) == SentEnds(s).Swapped()
  }

  /** The parsed header of a rewritten frame is the old one with the replaced address. */
  ghost predicate HeaderOf(out: seq<byte>, info: Info, srcIp: Ip4, dstIp: Ip4) {
    var r := ParseEthIp(out);
    && r.Some? && r.value.proto == info.proto && r.value.ihl == info.ihl && r.value.totalLen == info.totalLen
    && r.value.srcIp == srcIp && r.value.dstIp == dstIp
  }

  /** Two parsed headers with the same protocol and lengths put the same demands on a frame. */
  lemma SameDemands(out: seq<byte>, info: Info, info': Info)
    requires 34 <= info.L4() && |out| <= 0xFFFF
    requires WellFormed(out, info) && TransportVerifies(out, info) && PaddingHarmless(out, info)
    requires info'.proto == info.proto && info'.ihl == info.ihl && info'.totalLen == info.totalLen
    ensures WellFormed(out, info') && TransportVerifies(out, info') && PaddingHarmless(out, info')
    ensures IsEcho(out, info') <==> IsEcho(out, info)
  {
    hide TcpVerifies, UdpVerifies, IcmpVerifies, PadSum, WordSum, Put16;
  }

  /** The words that tell conversations apart: two ports, or an echo's identifier. */
  predicate SamePorts(raw: seq<byte>, out: seq<byte>, info: Info, srcPort: Option<Word>, dstPort: Option<Word>)
    requires WellFormed(raw, info) && |out| == |raw| && (HasPorts(info) || IsEcho(raw, info))
  {
    if HasPorts(info) then
      && WordAt(out, info.L4()) == srcPort.UnwrapOr(WordAt(raw, info.L4()))
      && WordAt(out, info.L4() + 2) == dstPort.UnwrapOr(WordAt(raw, info.L4() + 2))
    else out[info.L4()] == raw[info.L4()] && WordAt(out, info.L4() + 4) == WordAt(raw, info.L4() + 4)
  }

  /** Ports are replaced as told, an echo's identifier is not. */
  function NewPort(info: Info, port: Option<Word>, current: Word): Word {
    if HasPorts(info) then port.UnwrapOr(current) else current
  }

  lemma VerifiedFrame(raw: seq<byte>, out: seq<byte>, info: Info, srcIp: Ip4, dstIp: Ip4, srcPort: Option<Word>,
                      dstPort: Option<Word>)
    requires Translatable(raw) && ParseEthIp(raw) == Some(info) && |out| == |raw| && HeaderOf(out, info, srcIp, dstIp)
    requires WellFormed(out, info) && TransportVerifies(out, info) && HeaderVerifies(out, info.L4()) &&
             PaddingHarmless(out, info)
    requires SamePorts(raw, out, info, srcPort, dstPort)
    ensures Translatable(out) && FrameVerifies(out)
    ensures SentEnds(out) == Ends(srcIp, NewPort(info, srcPort, SentEnds(raw).srcPort),
                                  dstIp, NewPort(info, dstPort, SentEnds(raw).dstPort))
    ensures ReceivedEnds(out) == Ends(srcIp, NewPort(info, srcPort, ReceivedEnds(raw).srcPort),
                                      dstIp, NewPort(info, dstPort, ReceivedEnds(raw).dstPort))
  {
    hide ParseEthIp, HeaderVerifies, TransportVerifies, PaddingHarmless, WordAt;
    SameDemands(out, info, ParseEthIp(out).value);
    hide WellFormed;
  }

  /** Rewriting sets the one port it is told to and keeps the other, and keeps all of an echo but its checksum. */
  lemma PortsKept(raw: seq<byte>, out: seq<byte>, info: Info, addrOff: nat, portOff: nat)
    requires 34 <= info.L4() && WellFormed(raw, info) && (HasPorts(info) || IsEcho(raw, info))
    requires (addrOff == 26 || addrOff == 30) && (portOff == info.L4() || portOff == info.L4() + 2)
    requires SameOutside(raw, out, info, addrOff, portOff)
    ensures if HasPorts(info) then
              var other := if portOff == info.L4() then portOff + 2 else info.L4();
              WordAt(out, other) == WordAt(raw, other)
            else
              out[info.L4()] == raw[info.L4()] && WordAt(out, info.L4() + 4) == WordAt(raw, info.L4() + 4)
  {
  }

  /** The ports the handlers read, and that they can rewrite the frame. */
  lemma EndsOf(raw: seq<byte>, info: Info)
    requires Translatable(raw) && ParseEthIp(raw) == Some(info)
    ensures |raw| <= 0xFFFF && Indexable(info, |raw|) && (HasPorts(info) || info.proto == PROTO_ICMP)
    ensures OutboundPorts(raw, info) == Some((SentEnds(raw).srcPort, SentEnds(raw).dstPort))
    ensures InboundPort(raw, info) == Some(ReceivedEnds(raw).dstPort)
    ensures SentEnds(raw).srcIp == ReceivedEnds(raw).srcIp == info.srcIp &&
            SentEnds(raw).dstIp == ReceivedEnds(raw).dstIp == info.dstIp
  {
    hide ParseEthIp, PaddingHarmless, WordAt;
  }

  lemma PartsOf(raw: seq<byte>, info: Info)
    requires Translatable(raw) && ParseEthIp(raw) == Some(info)
    ensures |raw| <= 0xFFFF && 34 <= info.L4() && WellFormed(raw, info) && PaddingHarmless(raw, info)
    ensures HasPorts(info) || IsEcho(raw, info)
  {
  }

  /** Translated out, a frame keeps its destination and gets the NAT endpoint as its source. */
  lemma OutboundTranslates(raw: seq<byte>, info: Info, e: Entry, ctrlMac: MacAddr, dstMac: Option<MacAddr>,
                           out: seq<byte>)
    requires Translatable(raw) && ParseEthIp(raw) == Some(info) && e.dstIp == info.dstIp
    requires info.proto == PROTO_ICMP ==> e.natPort == SentEnds(raw).srcPort
    requires OutboundBytes(raw, info, e, ctrlMac, dstMac) == Some(out)
    ensures Translatable(out) && FrameVerifies(out) && |out| == |raw| && HeaderOf(out, info, e.natIp, info.dstIp)
    ensures SentEnds(out) == Ends(e.natIp, e.natPort, SentEnds(raw).dstIp, SentEnds(raw).dstPort)
  {
    hide ParseEthIp, PaddingHarmless, SameOutside, HeaderVerifies, TransportVerifies, OutboundBytes, FrameVerifies,
         WellFormed;
    PartsOf(raw, info);
    OutboundFields(raw, info, e, ctrlMac, dstMac, out);
    OutboundVerifiesIff(raw, info, e, ctrlMac, dstMac, out);
    PaddingKept(raw, out, info, 26, info.L4());
    RewrittenParses(raw, info, out, 26, info.L4());
    PortsKept(raw, out, info, 26, info.L4());
    VerifiedFrame(raw, out, info, e.natIp, info.dstIp, Some(e.natPort), None);
  }

  lemma InboundTranslates(raw: seq<byte>, info: Info, e: Entry, out: seq<byte>)
    requires Translatable(raw) && ParseEthIp(raw) == Some(info) && e.dstIp == info.srcIp
    requires info.proto == PROTO_ICMP ==> e.srcPort == ReceivedEnds(raw).dstPort
    requires InboundBytes(raw, info, e) == Some(out)
    ensures Translatable(out) && FrameVerifies(out) && |out| == |raw| && HeaderOf(out, info, info.srcIp, e.srcIp)
    ensures ReceivedEnds(out) == Ends(ReceivedEnds(raw).srcIp, ReceivedEnds(raw).srcPort, e.srcIp, e.srcPort)
  {
    hide ParseEthIp, PaddingHarmless, SameOutside, HeaderVerifies, TransportVerifies, InboundBytes, FrameVerifies,
         WellFormed;
    PartsOf(raw, info);
    InboundFields(raw, info, e, out);
    PeerReplyVerifiesIff(raw, info, e, out);
    PaddingKept(raw, out, info, 30, info.L4() + 2);
    RewrittenParses(raw, info, out, 30, info.L4() + 2);
    PortsKept(raw, out, info, 30, info.L4() + 2);
    VerifiedFrame(raw, out, info, info.srcIp, e.srcIp, None, Some(e.srcPort));
  }

  // ---------------------------------------------------------------- one frame out, one frame back

  /** key is a live connection between raw's endpoints, and `sent` is raw as seen from its NAT endpoint. */
  ghost predicate Serves(conns: Connections, key: Key, raw: seq<byte>, sent: seq<byte>)
    requires Translatable(raw) && Translatable(sent)
  {
    && key in conns && key.Key? && key.proto == ParseEthIp(sent).value.proto
    && SentEnds(raw) == Ends(conns[key].srcIp, conns[key].srcPort, conns[key].dstIp, conns[key].dstPort)
    && SentEnds(sent) == Ends(conns[key].natIp, conns[key].natPort, conns[key].dstIp, conns[key].dstPort)
    && (key.proto == PROTO_ICMP ==> conns[key].natPort == conns[key].srcPort)
  }

  method SendOut(table: NATTable, raw: seq<byte>, dstMac: Option<MacAddr>, now: real)
    returns (sent: Option<seq<byte>>, ghost key: Key)
    requires table.Valid() && Inverse(table.connections, table.portIndex) && KeepsIdentifiers(table.connections)
    requires !Stuck(table.connections, table.portIndex, raw) && TakesFreePort(table.State(), Outbound(raw, dstMac, now))
    requires Translatable(raw)
    modifies table
    ensures table.Valid() && Inverse(table.connections, table.portIndex)
    ensures sent.Some? && |sent.value| == |raw| && Translatable(sent.value) && FrameVerifies(sent.value)
    ensures Serves(table.connections, key, raw, sent.value) && table.connections[key].lastSeen == now
    ensures old(AtNatAddress(table.cfg, table.connections)) ==> SentEnds(sent.value).srcIp == table.cfg.externalIp
  {
    hide Consistent, Inverse, ParseEthIp, SentEnds, OutboundStep, OutboundBytes, OutboundKey, IsIcmp, FrameVerifies,
         Settled, Translatable, TakesFreePort, KeepsIdentifiers;
    KeyOfTranslatable(raw);
    key := OutboundKey(raw).value;
    ghost var before := table.State();
    ghost var entry;
    sent, entry := table.HandleOutbound(raw, dstMac, now);
    SentOnOwnConnection(table.cfg, raw, now, before.conns, before.index, before.next, entry.value, table.portIndex,
                        table.nextPort);
    OutboundTranslates(raw, ParseEthIp(raw).value, entry.value, table.cfg.controllerMac, dstMac, sent.value);
    SettledKeepsEnds(raw, entry.value);
    assert SendsOn(table.cfg, before, raw, dstMac, now, table.State(), sent, entry.value);
    if AtNatAddress(table.cfg, before.conns) {
      StepStaysAtNatAddress(table.cfg, before, Outbound(raw, dstMac, now), table.State(), sent);
    }
    OutboundKeepsInverseIff(table.cfg, before, raw, dstMac, now, table.State(), sent, entry.value);
  }

  /** The frame delivered for a reply on the connection `key`, seen at time now. */
  lemma ReplyComesBack(conns: Connections, index: PortIndex, key: Key, raw: seq<byte>, sent: seq<byte>,
                       reply: seq<byte>, now: real)
    returns (e: Entry)
    requires Owns(conns, index, key) && Translatable(raw) && Translatable(sent) && Serves(conns, key, raw, sent)
    requires IsReply(sent, reply)
    ensures key in conns && e == conns[key].(lastSeen := now)
    ensures |reply| <= 0xFFFF && InboundKey(conns, index, reply) == Some(key) && Translatable(reply)
    ensures Delivery(reply, e).Some? && Delivers(reply, raw, Delivery(reply, e).value.0)
  {
    e := conns[key].(lastSeen := now);
    ReplyFindsConnection(conns, index, key, sent, reply);
    DeliveryBytes(reply, e);
    hide Owns, ParseEthIp, InboundKey, InboundBytes, Delivery, FrameVerifies, Translatable, Lookup, SentEnds,
         ReceivedEnds;
    InboundTranslates(reply, ParseEthIp(reply).value, e, Delivery(reply, e).value.0);
  }

  /** `back` is the reply, verified, between the endpoints of raw with the directions exchanged. */
  predicate Delivers(reply: seq<byte>, raw: seq<byte>, back: seq<byte>)
    requires Translatable(raw)
  {
    Translatable(back) && FrameVerifies(back) && |back| == |reply| && ReceivedEnds(back) == SentEnds(raw).Swapped()
  }

  method ReceiveReply(table: NATTable, ghost key: Key, ghost raw: seq<byte>, ghost sent: seq<byte>, reply: seq<byte>,
                      now: real)
    returns (back: Option<(seq<byte>, Entry)>)
    requires table.Valid() && Owns(table.connections, table.portIndex, key)
    requires Translatable(raw) && Translatable(sent) && Serves(table.connections, key, raw, sent) &&
             IsReply(sent, reply)
    modifies table
    ensures back.Some? && Delivers(reply, raw, back.value.0)
  {
    hide *;
    ghost var e := ReplyComesBack(table.connections, table.portIndex, key, raw, sent, reply, now);
    back := table.HandleInbound(reply, now);
  }

  lemma CarriedServes(conns: Connections, conns': Connections, key: Key, raw: seq<byte>, sent: seq<byte>, now: real)
    requires Translatable(raw) && Translatable(sent) && Serves(conns, key, raw, sent)
    requires key in conns' && Carried(conns[key], conns'[key], now)
    ensures Serves(conns', key, raw, sent)
  {
    hide Translatable, SentEnds, ParseEthIp;
  }

  /** No connection times out within half a minute; the configured timeouts are 300, 30 and 60 seconds. */
  predicate Patient(cfg: Config) {
    cfg.tcpTimeout >= 30.0 && cfg.udpTimeout >= 30.0 && cfg.icmpTimeout >= 30.0
  }

  /** The clock does not run backwards, and at most half a minute passes. */
  predicate Soon(evs: seq<Event>, now: real) {
    forall ev :: ev in evs ==> now <= ev.now <= now + 30.0
  }

  predicate SeenSince(conns: Connections, key: Key, now: real) {
    key in conns && conns[key].lastSeen >= now
  }

  /** A connection seen within the shortest timeout survives any event. */
  lemma StepServes(cfg: Config, conns: Connections, conns': Connections, ev: Event, key: Key, raw: seq<byte>,
                   sent: seq<byte>, now: real)
    requires Translatable(raw) && Translatable(sent) && Serves(conns, key, raw, sent) && SeenSince(conns, key, now)
    requires CarriesConnections(cfg, conns, conns', ev) && now <= ev.now <= now + 30.0
    requires Patient(cfg)
    ensures Serves(conns', key, raw, sent) && SeenSince(conns', key, now) && conns'[key].natPort == conns[key].natPort
    ensures !TimedOut(cfg, conns[key], ev.now)
  {
    hide Translatable, SentEnds, ParseEthIp, Serves;
    assert !TimedOut(cfg, conns[key], ev.now);
    CarriedServes(conns, conns', key, raw, sent, ev.now);
  }

  /**
  A TCP or UDP packet or an ICMP echo goes out, other things happen, and its reply comes back: whatever traffic and
  sweeps the table handles in between, what the peer answers to the translated packet within the shortest timeout
  reaches the original sender's address and port, with every checksum verifying. Only an ICMP connection made in
  between whose identifier is the packet's NAT port prevents it, or an allocation that never returns.
  */
  method Exchange(table: NATTable, raw: seq<byte>, dstMac: Option<MacAddr>, now: real,
                  between: seq<Event>, peer: seq<byte> -> seq<byte>, later: real)
    returns (sent: Option<seq<byte>>, handled: nat, back: Option<(seq<byte>, Entry)>)
    requires table.Valid() && Inverse(table.connections, table.portIndex) && KeepsIdentifiers(table.connections)
    requires !Stuck(table.connections, table.portIndex, raw) && TakesFreePort(table.State(), Outbound(raw, dstMac, now))
    requires Translatable(raw) && forall s :: Translatable(s) ==> IsReply(s, peer(s))
    requires Soon(between, now) && forall ev :: ev in between ==> FitsFrame(ev)
    requires Patient(table.cfg)
    modifies table
    ensures sent.Some? && Translatable(sent.value) && FrameVerifies(sent.value) && |sent.value| == |raw|
    ensures SentEnds(sent.value).dstIp == SentEnds(raw).dstIp && SentEnds(sent.value).dstPort == SentEnds(raw).dstPort
    ensures old(AtNatAddress(table.cfg, table.connections)) ==> SentEnds(sent.value).srcIp == table.cfg.externalIp
    ensures handled <= |between|
    ensures handled < |between| ==>
      || (between[handled].Outbound? && Stuck(table.connections, table.portIndex, between[handled].raw))
      || Shadows(table.State(), between[handled], SentEnds(sent.value).srcPort)
    ensures handled == |between| ==> back.Some? && Delivers(peer(sent.value), raw, back.value.0)
  {
    hide Consistent, Inverse, Owns, ParseEthIp, SentEnds, FrameVerifies, IsReply, Translatable, Delivers, Stuck,
         Shadows, Steps, CarriesConnections, TakesFreePort, KeepsIdentifiers, Carried;
    ghost var key;
    sent, key := SendOut(table, raw, dstMac, now);
    InverseOwns(table.connections, table.portIndex, key);
    var port := SentEnds(sent.value).srcPort;
    handled, back := 0, None;
    while handled < |between| && !Shadows(table.State(), between[handled], port)
          && (between[handled].Outbound? ==> !Stuck(table.connections, table.portIndex, between[handled].raw))
      invariant handled <= |between| && table.Valid() && Owns(table.connections, table.portIndex, key)
      invariant Serves(table.connections, key, raw, sent.value) && SeenSince(table.connections, key, now)
      invariant table.connections[key].natPort == port
    {
      ghost var before := table.State();
      var out := Step(table, between[handled]);
      StepCarries(table.cfg, before, between[handled], table.State(), out);
      StepServes(table.cfg, before.conns, table.connections, between[handled], key, raw, sent.value, now);
      StepKeepsOwnsIff(table.cfg, before, between[handled], table.State(), out, key);
      handled := handled + 1;
    }
    if handled == |between| {
      back := ReceiveReply(table, key, raw, sent.value, peer(sent.value), later);
    }
  }

  lemma SettledKeepsEnds(raw: seq<byte>, e: Entry)
    requires ParseEthIp(raw).Some?
    ensures Settled(raw, e) == e.(state := Settled(raw, e).state)
  {
  }

  lemma DeliveryBytes(raw: seq<byte>, e: Entry)
    requires ParseEthIp(raw).Some? && |raw| <= 0xFFFF
    ensures Delivery(raw, e).Some? <==> InboundBytes(raw, ParseEthIp(raw).value, e).Some?
    ensures Delivery(raw, e).Some? ==> InboundBytes(raw, ParseEthIp(raw).value, e) == Some(Delivery(raw, e).value.0)
  {
  }

  /** Translatable frames always have a key. */
  lemma KeyOfTranslatable(raw: seq<byte>)
    requires Translatable(raw)
    ensures ParseEthIp(raw).Some? && |raw| <= 0xFFFF
    ensures var ends := SentEnds(raw);
            OutboundKey(raw) == Some(Key(ends.srcIp, ends.srcPort, ends.dstIp, ends.dstPort,
                                         ParseEthIp(raw).value.proto))
  {
    hide ParseEthIp, OutboundPorts, WellFormed, PaddingHarmless, IsEcho, SentEnds;
    EndsOf(raw, ParseEthIp(raw).value);
  }

  /** The entry a frame is sent on carries the frame's own endpoints, and the frame can be rewritten for it. */
  lemma SentOnOwnConnection(cfg: Config, raw: seq<byte>, now: real, conns: Connections, index: PortIndex, next: Word,
                            e: Entry, index': PortIndex, next': Word)
    requires Translatable(raw) && Consistent(conns, index) && KeepsIdentifiers(conns) && OutboundKey(raw).Some?
    requires OutboundStep(cfg, raw, now, conns, index, next, e, index', next')
    ensures SentEnds(raw) == Ends(e.srcIp, e.srcPort, e.dstIp, e.dstPort) && e.proto == ParseEthIp(raw).value.proto
    ensures e.dstIp == ParseEthIp(raw).value.dstIp && e.lastSeen == now
    ensures e.proto == PROTO_ICMP ==> e.natPort == e.srcPort
    ensures forall ctrlMac, dstMac :: OutboundBytes(raw, ParseEthIp(raw).value, e, ctrlMac, dstMac).Some?
  {
    hide ParseEthIp, OutboundPorts, WellFormed, PaddingHarmless, IsEcho, SentEnds, FirstFree;
    EndsOf(raw, ParseEthIp(raw).value);
    KeyOfTranslatable(raw);
  }

  /** A reply to a translated frame finds the connection that frame was sent on. */
  lemma ReplyFindsConnection(conns: Connections, index: PortIndex, key: Key, sent: seq<byte>, reply: seq<byte>)
    requires Owns(conns, index, key) && key.Key? && Translatable(sent) && IsReply(sent, reply)
    requires SentEnds(sent).srcIp == conns[key].natIp && SentEnds(sent).srcPort == conns[key].natPort
    requires ParseEthIp(sent).value.proto == key.proto
    ensures InboundKey(conns, index, reply) == Some(key) && Translatable(reply)
    ensures |reply| <= 0xFFFF && ParseEthIp(reply).Some?
    ensures ParseEthIp(reply).value.srcIp == ReceivedEnds(reply).srcIp && ParseEthIp(reply).value.proto == key.proto
    ensures forall e :: InboundBytes(reply, ParseEthIp(reply).value, e).Some?
  {
    hide ParseEthIp, OutboundPorts, InboundPort, WellFormed, PaddingHarmless, IsEcho, SentEnds, ReceivedEnds, Indexable,
         FixL4, FixIp;
    EndsOf(reply, ParseEthIp(reply).value);
    EndsOf(sent, ParseEthIp(sent).value);
  }
}
