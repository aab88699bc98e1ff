/** The connection table of nat.py: its two maps, the cyclic port allocator, the handlers and the collector. */
module NatTable {
  import opened Wrappers
  import opened Bytes
  import opened NatPacket
  import opened NatRewriting

  /** `_conn_key`; other protocols all share the key None. */
  datatype Key = NoKey | Key(srcIp: Ip4, srcPort: Word, dstIp: Ip4, dstPort: Word, proto: byte)

  function ConnKey(srcIp: Ip4, srcPort: Word, dstIp: Ip4, dstPort: Word, proto: byte): Key {
    if proto == PROTO_TCP || proto == PROTO_UDP || proto == PROTO_ICMP then Key(srcIp, srcPort, dstIp, dstPort, proto)
      else NoKey
  }

  type Connections = map<Key, Entry>
  type PortIndex = map<Word, Key>

  datatype Config = Config(externalIp: Ip4, controllerMac: MacAddr, tcpTimeout: real, udpTimeout: real,
                           icmpTimeout: real)

  const FIRST_PORT := 1024
  const LAST_PORT := 65534

  // ---------------------------------------------------------------- the invariants

  /** Each index entry points to a live connection that holds that port, and connections sit under their own key. */
  ghost predicate Consistent(conns: Connections, index: PortIndex) {
    && (forall p :: p in index ==> index[p] in conns && conns[index[p]].natPort == p)
    && (forall k :: k in conns && k.Key? ==>
          k == Key(conns[k].srcIp, conns[k].srcPort, conns[k].dstIp, conns[k].dstPort, conns[k].proto))
  }

  /** The port index and the connections' ports are inverse maps. */
  ghost predicate Inverse(conns: Connections, index: PortIndex) {
    && Consistent(conns, index)
    && forall k :: k in conns ==> conns[k].natPort in index && index[conns[k].natPort] == k
  }

  lemma CreateKeepsConsistent(conns: Connections, index: PortIndex, k: Key, e: Entry)
    requires Consistent(conns, index) && k !in conns
    requires k.Key? ==> k == Key(e.srcIp, e.srcPort, e.dstIp, e.dstPort, e.proto)
    ensures Consistent(conns[k := e], index[e.natPort := k])
  {
  }

  /** A new connection keeps the maps inverse exactly when its port was free; ICMP identifiers need not be. */
  lemma CreateKeepsInverseIffFresh(conns: Connections, index: PortIndex, k: Key, e: Entry)
    requires Inverse(conns, index) && k !in conns
    requires k.Key? ==> k == Key(e.srcIp, e.srcPort, e.dstIp, e.dstPort, e.proto)
    ensures Inverse(conns[k := e], index[e.natPort := k]) <==> e.natPort !in index
  {
    var conns', index' := conns[k := e], index[e.natPort := k];
    if e.natPort in index {
      var owner := index[e.natPort];
      assert owner in conns' && conns'[owner].natPort == e.natPort && index'[e.natPort] != owner;
    } else {
      CreateKeepsConsistent(conns, index, k, e);
    }
  }

  lemma TouchKeeps(conns: Connections, index: PortIndex, k: Key, e: Entry)
    requires Consistent(conns, index) && k in conns
    requires e == conns[k].(state := e.state, lastSeen := e.lastSeen)
    ensures Consistent(conns[k := e], index)
    ensures Inverse(conns, index) ==> Inverse(conns[k := e], index)
  {
  }

  // ---------------------------------------------------------------- the collector

  function Timeout(cfg: Config, e: Entry): real {
    if e.state == Closing then 30.0
    else if e.proto == PROTO_TCP then cfg.tcpTimeout
    else if e.proto == PROTO_UDP then cfg.udpTimeout
    else cfg.icmpTimeout
  }

  predicate TimedOut(cfg: Config, e: Entry, now: real) {
    now - e.lastSeen > Timeout(cfg, e)
  }

  /**
  Whether a connection is kept by a sweep at `now`: for half a minute after its last use once it is closing, else as
  configured.
  */
  predicate KeptInTime(cfg: Config, e: Entry, now: real, kept: bool) {
    && (e.state == Closing ==> (kept <==> now - e.lastSeen <= 30.0))
    && (e.state != Closing && e.proto == PROTO_TCP ==> (kept <==> now - e.lastSeen <= cfg.tcpTimeout))
    && (e.state != Closing && e.proto == PROTO_UDP ==> (kept <==> now - e.lastSeen <= cfg.udpTimeout))
    && (e.state != Closing && e.proto != PROTO_TCP && e.proto != PROTO_UDP ==>
        (kept <==> now - e.lastSeen <= cfg.icmpTimeout))
  }

  function Survivors(cfg: Config, conns: Connections, now: real): Connections {
    map k | k in conns && !TimedOut(cfg, conns[k], now) :: conns[k]
  }

  /** The ports of the removed connections leave the index, whoever held them. */
  function SurvivingPorts(cfg: Config, conns: Connections, index: PortIndex, now: real): PortIndex {
    map p | p in index && !(exists k :: k in conns && TimedOut(cfg, conns[k], now) && conns[k].natPort == p) :: index[p]
  }

  function PortsOf(conns: Connections, ks: set<Key>): set<Word> {
    set k | k in ks && k in conns :: conns[k].natPort
  }

  lemma CollectKeeps(cfg: Config, conns: Connections, index: PortIndex, now: real)
    requires Consistent(conns, index)
    ensures Consistent(Survivors(cfg, conns, now), SurvivingPorts(cfg, conns, index, now))
    ensures Inverse(conns, index) ==> Inverse(Survivors(cfg, conns, now), SurvivingPorts(cfg, conns, index, now))
  {
  }

  // ---------------------------------------------------------------- cyclic ports

  function Succ(p: Word): Word
    requires FIRST_PORT <= p <= LAST_PORT
  {
    if p + 1 < 65535 then p + 1 else FIRST_PORT
  }

  /** How many steps of the cycle lead from p to q. */
  function Distance(p: Word, q: Word): nat
    requires FIRST_PORT <= p <= LAST_PORT && FIRST_PORT <= q <= LAST_PORT
  {
    if p <= q then q - p else q - p + (LAST_PORT - FIRST_PORT + 1)
  }

  predicate SomePortFree(index: PortIndex) {
    exists p :: FIRST_PORT <= p <= LAST_PORT && p !in index
  }

  /** port is free, and every port before it in cyclic order from `from` is taken. */
  ghost predicate FirstFree(index: PortIndex, from: Word, port: Word) {
    && FIRST_PORT <= from <= LAST_PORT && FIRST_PORT <= port <= LAST_PORT && port !in index
    && forall q: Word :: FIRST_PORT <= q <= LAST_PORT && Distance(from, q) < Distance(from, port) ==> q in index
  }

  /** The port and address a frame offers to the inbound lookup, None when the code gives up on the frame. */
  function InboundPort(raw: seq<byte>, info: Info): Option<Word>
    requires info.L4() <= |raw|
  {
    if HasPorts(info) then
      if |raw| < info.L4() + 4 then None else Some(WordAt(raw, info.L4() + 2))
    else if info.proto == PROTO_ICMP then
      if |raw| < info.L4() + 6 then None
      else if raw[info.L4()] == 0 || raw[info.L4()] == 8 then Some(WordAt(raw, info.L4() + 4)) else Some(0)
    else Some(0)
  }

  /** Source and destination port of an outbound frame; echo identifiers stand in for ports. */
  function OutboundPorts(raw: seq<byte>, info: Info): Option<(Word, Word)>
    requires info.L4() <= |raw|
  {
    if HasPorts(info) then
      if |raw| < info.L4() + 4 then None else Some((WordAt(raw, info.L4()), WordAt(raw, info.L4() + 2)))
    else if info.proto == PROTO_ICMP then
      if |raw| < info.L4() + 4 then None
      else if raw[info.L4()] != 8 && raw[info.L4()] != 0 then Some((0, 0))
      else if |raw| < info.L4() + 6 then None
      else Some((WordAt(raw, info.L4() + 4), 0))
    else Some((0, 0))
  }

  /** The live connection an inbound frame belongs to. */
  function Lookup(conns: Connections, index: PortIndex, natIp: Ip4, natPort: Word, proto: byte): Option<Key> {
    if natPort !in index then None
    else
      var k := index[natPort];
      if k.Key? && k.proto == proto && k in conns && conns[k].natIp == natIp then Some(k) else None
  }

  /** The class dictionaries and the counter. */
  datatype TableState = TableState(conns: Connections, index: PortIndex, next: Word)

  class NATTable {
    var connections: Connections
    var portIndex: PortIndex
    var nextPort: Word
    const cfg: Config

    function State(): TableState
      reads this
    {
      TableState(connections, portIndex, nextPort)
    }

    ghost predicate Valid()
      reads this
    {
      Consistent(connections, portIndex) && FIRST_PORT <= nextPort <= LAST_PORT
    }

    constructor (cfg: Config)
      ensures Valid() && Inverse(connections, portIndex) && State() == TableState(map[], map[], FIRST_PORT) &&
              this.cfg == cfg
    {
      connections, portIndex, nextPort, this.cfg := map[], map[], FIRST_PORT, cfg;
    }

    /** Loops for ever when every port is taken, hence the precondition. */
    method AllocPort() returns (port: Word)
      requires FIRST_PORT <= nextPort <= LAST_PORT && SomePortFree(portIndex)
      modifies this`nextPort
      ensures FirstFree(portIndex, old(nextPort), port)
      ensures nextPort == Succ(port)
    {
      ghost var free :| FIRST_PORT <= free <= LAST_PORT && free !in portIndex;
      port := nextPort;
      nextPort := Succ(port);
      while port in portIndex
        invariant FIRST_PORT <= port <= LAST_PORT && nextPort == Succ(port)
        invariant forall q: Word ::
          FIRST_PORT <= q <= LAST_PORT && Distance(old(nextPort), q) < Distance(old(nextPort), port) ==> q in portIndex
        invariant Distance(old(nextPort), port) + Distance(port, free) == Distance(old(nextPort), free)
        decreases Distance(port, free)
      {
        port := nextPort;
        nextPort := Succ(port);
      }
    }

    /** `_create_entry`: allocate unless the caller fixed the port, then enter both maps. */
    method CreateEntry(key: Key, srcIp: Ip4, srcPort: Word, dstIp: Ip4, dstPort: Word, proto: byte, srcMac: MacAddr,
                       fixedPort: Option<Word>, now: real) returns (entry: Entry)
      requires Valid() && key == ConnKey(srcIp, srcPort, dstIp, dstPort, proto) && key !in connections
      requires fixedPort.None? ==> SomePortFree(portIndex)
      modifies this
      ensures Valid()
      ensures entry == Entry(srcIp, srcPort, dstIp, dstPort, proto, cfg.externalIp, entry.natPort, srcMac,
                             if proto != PROTO_TCP then Established else New, now, now)
      ensures connections == old(connections)[key := entry] && portIndex == old(portIndex)[entry.natPort := key]
      ensures if fixedPort.Some? then entry.natPort == fixedPort.value && nextPort == old(nextPort)
              else FirstFree(old(portIndex), old(nextPort), entry.natPort) && nextPort == Succ(entry.natPort)
      ensures old(Inverse(connections, portIndex)) ==>
                (Inverse(connections, portIndex) <==> entry.natPort !in old(portIndex))
    {
      var natPort: Word;
      if fixedPort.Some? {
        natPort := fixedPort.value;
      } else {
        natPort := AllocPort();
      }
      entry := Entry(srcIp, srcPort, dstIp, dstPort, proto, cfg.externalIp, natPort, srcMac,
                     if proto != PROTO_TCP then Established else New, now, now);
      CreateKeepsConsistent(connections, portIndex, key, entry);
      if old(Inverse(connections, portIndex)) {
        CreateKeepsInverseIffFresh(connections, portIndex, key, entry);
      }
      hide Consistent, Inverse;
      connections := connections[key := entry];
      portIndex := portIndex[natPort := key];
    }

    /** Update an entry the caller holds, as Python does through the shared dict. */
    method Touch(key: Key, entry: Entry)
      requires Valid() && key in connections &&
               entry == connections[key].(state := entry.state, lastSeen := entry.lastSeen)
      modifies this`connections
      ensures Valid() && connections == old(connections)[key := entry]
      ensures old(Inverse(connections, portIndex)) ==> Inverse(connections, portIndex)
    {
      TouchKeeps(connections, portIndex, key, entry);
      hide Consistent, Inverse;
      connections := connections[key := entry];
    }

    method LookupInbound(natIp: Ip4, natPort: Word, proto: byte, now: real) returns (key: Option<Key>)
      requires Valid()
      modifies this`connections
      ensures Valid() && key == Lookup(old(connections), portIndex, natIp, natPort, proto)
      ensures key.Some? ==>
        && key.value in old(connections)
        && connections == old(connections)[key.value := old(connections)[key.value].(lastSeen := now)]
        && connections[key.value].natPort == natPort && connections[key.value].proto == proto
        && connections[key.value].natIp == natIp
      ensures key.None? ==> connections == old(connections)
      ensures old(Inverse(connections, portIndex)) ==> Inverse(connections, portIndex)
    {
      key := Lookup(connections, portIndex, natIp, natPort, proto);
      if key.Some? {
        Touch(key.value, connections[key.value].(lastSeen := now));
      }
    }

    /** The entry for a key: looked up and touched, or created. */
    method FindOrCreate(key: Key, info: Info, srcPort: Word, dstPort: Word, now: real) returns (entry: Entry)
      requires Valid() && key == ConnKey(info.srcIp, srcPort, info.dstIp, dstPort, info.proto)
      requires key in connections || info.proto == PROTO_ICMP || SomePortFree(portIndex)
      modifies this
      ensures Valid() && connections == old(connections)[key := entry]
      ensures EntryStep(cfg, info, key, srcPort, dstPort, now, old(connections), old(portIndex), old(nextPort), entry,
                        portIndex, nextPort)
      ensures old(Inverse(connections, portIndex)) && info.proto != PROTO_ICMP ==> Inverse(connections, portIndex)
    {
      hide Consistent, Inverse;
      if key in connections {
        entry := connections[key].(lastSeen := now);
        Touch(key, entry);
      } else {
        var fixedPort := if info.proto == PROTO_ICMP then Some(srcPort) else None;
        entry := CreateEntry(key, info.srcIp, srcPort, info.dstIp, dstPort, info.proto, info.srcMac, fixedPort, now);
      }
    }

    /** Send a frame out on the connection of its key. */
    method Translate(raw: seq<byte>, info: Info, key: Key, srcPort: Word, dstPort: Word, dstMac: Option<MacAddr>,
                     now: real)
      returns (sent: Option<seq<byte>>, ghost entry: Entry)
      requires Valid() && |raw| <= 0xFFFF && (key in connections || info.proto == PROTO_ICMP || SomePortFree(portIndex))
      requires ParseEthIp(raw) == Some(info) && key == ConnKey(info.srcIp, srcPort, info.dstIp, dstPort, info.proto)
      modifies this
      ensures Valid() && connections == old(connections)[key := Settled(raw, entry)]
      ensures EntryStep(cfg, info, key, srcPort, dstPort, now, old(connections), old(portIndex), old(nextPort), entry,
                        portIndex, nextPort)
      ensures sent == OutboundBytes(raw, info, entry, cfg.controllerMac, dstMac)
      ensures old(Inverse(connections, portIndex)) && info.proto != PROTO_ICMP ==> Inverse(connections, portIndex)
    {
      hide Consistent, Inverse, ParseEthIp, OutboundBytes, StateAfter, EntryStep;
      var e := FindOrCreate(key, info, srcPort, dstPort, now);
      entry := e;
      var bytes, state := RewriteOutbound(raw, info, e, cfg.controllerMac, dstMac);
      Touch(key, e.(state := state));
      sent := bytes;
    }

    /** The translated frame that is sent out, None when nothing is sent; `entry` is the connection it was sent on. */
    method HandleOutbound(raw: seq<byte>, dstMac: Option<MacAddr>, now: real)
      returns (sent: Option<seq<byte>>, ghost entry: Option<Entry>)
      requires Valid() && |raw| <= 0xFFFF && !Stuck(connections, portIndex, raw)
      modifies this
      ensures Valid()
      ensures entry.Some? <==> OutboundKey(raw).Some?
      ensures entry.None? ==>
        sent == None && connections == old(connections) && portIndex == old(portIndex) && nextPort == old(nextPort)
      ensures entry.Some? ==>
        && OutboundStep(cfg, raw, now, old(connections), old(portIndex), old(nextPort), entry.value, portIndex,
                        nextPort)
        && connections == old(connections)[OutboundKey(raw).value := Settled(raw, entry.value)]
        && sent == OutboundBytes(raw, ParseEthIp(raw).value, entry.value, cfg.controllerMac, dstMac)
      ensures old(Inverse(connections, portIndex)) && !IsIcmp(raw) ==> Inverse(connections, portIndex)
    {
      hide Consistent, Inverse, ParseEthIp, OutboundPorts, OutboundBytes, Settled, EntryStep;
      sent, entry := None, None;
      var parsed := ParseEthIp(raw);
      if parsed.Some? {
        var info := parsed.value;
        var ports := OutboundPorts(raw, info);
        if ports.Some? {
          var (srcPort, dstPort) := ports.value;
          var key := ConnKey(info.srcIp, srcPort, info.dstIp, dstPort, info.proto);
          ghost var e;
          sent, e := Translate(raw, info, key, srcPort, dstPort, dstMac, now);
          entry := Some(e);
        }
      }
    }

    /** Rewrite an inbound frame for the connection it was found to belong to. */
    method Deliver(raw: seq<byte>, info: Info, key: Key) returns (delivered: Option<(seq<byte>, Entry)>)
      requires Valid() && |raw| <= 0xFFFF && ParseEthIp(raw) == Some(info) && key in connections
      modifies this`connections
      ensures Valid() && connections == old(connections)[key := Settled(raw, old(connections)[key])]
      ensures delivered == Delivery(raw, old(connections)[key])
      ensures old(Inverse(connections, portIndex)) ==> Inverse(connections, portIndex)
    {
      hide Consistent, Inverse, ParseEthIp, InboundBytes, StateAfter;
      var entry := connections[key];
      var rewritten, state := RewriteInbound(raw, info, entry);
      Touch(key, entry.(state := state));
      delivered := if rewritten.Some? then Some((rewritten.value, connections[key])) else None;
    }

    /** The frame for the internal host and its connection, None when there is nothing to deliver. */
    method HandleInbound(raw: seq<byte>, now: real) returns (delivered: Option<(seq<byte>, Entry)>)
      requires Valid() && |raw| <= 0xFFFF
      modifies this`connections
      ensures Valid()
      ensures var key := InboundKey(old(connections), portIndex, raw);
              if key.None? then delivered == None && connections == old(connections)
              else
                && key.value in old(connections)
                && var e := old(connections)[key.value].(lastSeen := now);
                   connections == old(connections)[key.value := Settled(raw, e)] && delivered == Delivery(raw, e)
      ensures old(Inverse(connections, portIndex)) ==> Inverse(connections, portIndex)
    {
      hide Consistent, Inverse, ParseEthIp, InboundPort, Lookup, Delivery, Settled;
      delivered := None;
      var parsed := ParseEthIp(raw);
      if parsed.Some? {
        var info := parsed.value;
        var natPort := InboundPort(raw, info);
        if natPort.Some? {
          var key := LookupInbound(info.dstIp, natPort.value, info.proto, now);
          if key.Some? {
            delivered := Deliver(raw, info, key.value);
          }
        }
      }
    }

    /** Pop each of the given keys, and its port. */
    method PopAll(gone: set<Key>)
      requires gone <= connections.Keys
      modifies this`connections, this`portIndex
      ensures connections == old(connections) - gone
      ensures portIndex == old(portIndex) - PortsOf(old(connections), gone)
    {
      var todo := gone;
      while todo != {}
        invariant todo <= gone
        invariant connections == old(connections) - (gone - todo)
        invariant portIndex == old(portIndex) - PortsOf(old(connections), gone - todo)
        decreases todo
      {
        var k :| k in todo;
        var port := connections[k].natPort;
        assert PortsOf(old(connections), gone - (todo - {k})) == PortsOf(old(connections), gone - todo) + {port};
        connections, portIndex := connections - {k}, portIndex - {port};
        todo := todo - {k};
      }
      assert gone - todo == gone;
    }

    /** One sweep of `_gc`: collect the timed-out keys, then pop each from both maps. */
    method Collect(now: real)
      requires Valid()
      modifies this`connections, this`portIndex
      ensures Valid()
      ensures connections == Survivors(cfg, old(connections), now)
      ensures portIndex == SurvivingPorts(cfg, old(connections), old(portIndex), now)
      ensures forall k :: k in old(connections) ==> KeptInTime(cfg, old(connections)[k], now, k in connections)
      ensures forall k :: k in connections ==> k in old(connections) && connections[k] == old(connections)[k]
      ensures forall p :: p in portIndex <==>
                p in old(portIndex) && forall k :: k in old(connections) && old(connections)[k].natPort == p ==>
                  k in connections
      ensures old(Inverse(connections, portIndex)) ==> Inverse(connections, portIndex)
    {
      CollectKeeps(cfg, connections, portIndex, now);
      PopAll(set k | k in connections && TimedOut(cfg, connections[k], now));
    }
  }

  // ---------------------------------------------------------------- what one frame does

  predicate IsIcmp(raw: seq<byte>) {
    ParseEthIp(raw).Some? && ParseEthIp(raw).value.proto == PROTO_ICMP
  }

  /** The connection key of an outbound frame, None when the frame is ignored. */
  function OutboundKey(raw: seq<byte>): Option<Key> {
    var info := ParseEthIp(raw);
    if info.None? then None
    else
      var ports := OutboundPorts(raw, info.value);
      if ports.None? then None
      else Some(ConnKey(info.value.srcIp, ports.value.0, info.value.dstIp, ports.value.1, info.value.proto))
  }

  /** The frame needs a new port and none is free: the allocator would not return. */
  predicate Stuck(conns: Connections, index: PortIndex, raw: seq<byte>) {
    OutboundKey(raw).Some? && OutboundKey(raw).value !in conns && !IsIcmp(raw) && !SomePortFree(index)
  }

  function InboundKey(conns: Connections, index: PortIndex, raw: seq<byte>): Option<Key> {
    var info := ParseEthIp(raw);
    if info.None? then None
    else
      var port := InboundPort(raw, info.value);
      if port.None? then None else Lookup(conns, index, info.value.dstIp, port.value, info.value.proto)
  }

  /** The entry chosen for an outbound frame, and what choosing it does to the index and the allocator. */
  ghost predicate EntryStep(cfg: Config, info: Info, key: Key, srcPort: Word, dstPort: Word, now: real,
                            conns: Connections, index: PortIndex, next: Word, e: Entry, index': PortIndex, next': Word)
  {
    if key in conns then
      index' == index && next' == next && e == conns[key].(lastSeen := now)
    else
      && e == Entry(info.srcIp, srcPort, info.dstIp, dstPort, info.proto, cfg.externalIp, e.natPort, info.srcMac,
                    if info.proto != PROTO_TCP then Established else New, now, now)
      && index' == index[e.natPort := key]
      && (if info.proto == PROTO_ICMP then e.natPort == srcPort && next' == next
          else FirstFree(index, next, e.natPort) && next' == Succ(e.natPort))
  }

  ghost predicate OutboundStep(cfg: Config, raw: seq<byte>, now: real, conns: Connections, index: PortIndex, next: Word,
                               e: Entry, index': PortIndex, next': Word)
    requires OutboundKey(raw).Some?
  {
    var info := ParseEthIp(raw).value;
    var ports := OutboundPorts(raw, info).value;
    EntryStep(cfg, info, OutboundKey(raw).value, ports.0, ports.1, now, conns, index, next, e, index', next')
  }

  /** The entry once the frame's TCP flags have been tracked. */
  function Settled(raw: seq<byte>, e: Entry): Entry
    requires ParseEthIp(raw).Some?
  {
    e.(state := StateAfter(raw, ParseEthIp(raw).value, e))
  }

  function Delivery(raw: seq<byte>, e: Entry): Option<(seq<byte>, Entry)>
    requires ParseEthIp(raw).Some? && |raw| <= 0xFFFF
  {
    var bytes := InboundBytes(raw, ParseEthIp(raw).value, e);
    if bytes.Some? then Some((bytes.value, Settled(raw, e))) else None
  }
}
