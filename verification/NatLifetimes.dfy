/**
How long connections live, over whole runs: until nothing has used them for the timeout of their protocol, or for half a
minute once a FIN or RST has passed; and how the tracked TCP state follows the flags that pass.
*/
module NatLifetimes {
  import opened Wrappers
  import opened Bytes
  import opened NatPacket
  import opened NatRewriting
  import opened NatTable
  import opened NatRuns

  // ---------------------------------------------------------------- last use

  /** The event sends or delivers a frame on connection k. */
  predicate Uses(a: TableState, ev: Event, k: Key) {
    || (ev.Outbound? && OutboundKey(ev.raw) == Some(k))
    || (ev.Inbound? && InboundKey(a.conns, a.index, ev.raw) == Some(k))
  }

  /** A use sets the time the connection was last seen; nothing else does. */
  lemma StepLastSeen(cfg: Config, a: TableState, ev: Event, b: TableState, out: Option<seq<byte>>, k: Key)
    requires FitsFrame(ev) && Steps(cfg, a, ev, b, out) && k in b.conns
    ensures if Uses(a, ev, k) then b.conns[k].lastSeen == ev.now
            else k in a.conns && b.conns[k] == a.conns[k]
  {
    hide ParseEthIp, OutboundBytes, Delivery, StateAfter, OutboundPorts, InboundPort, FirstFree;
    match ev
    case Outbound(raw, dstMac, now) =>
      if OutboundKey(raw).Some? {
        var e :| SendsOn(cfg, a, raw, dstMac, now, b, out, e);
      }
    case Inbound(raw, now) =>
    case Sweep(now) =>
  }

  /** When k was last used before the n-th state of a run. */
  function LastUse(events: seq<Event>, states: seq<TableState>, k: Key, n: nat): Option<real>
    requires n <= |events| && n <= |states|
  {
    if n == 0 then None
    else if Uses(states[n - 1], events[n - 1], k) then Some(events[n - 1].now)
    else LastUse(events, states, k, n - 1)
  }

  /** In every state of every run a connection was last seen when it was last used. */
  lemma {:induction false} RunLastSeen(cfg: Config, events: seq<Event>, states: seq<TableState>,
                                       frames: seq<Option<seq<byte>>>, k: Key, n: nat)
    requires IsRun(cfg, events, states, frames) && n < |states| && k in states[n].conns
    ensures LastUse(events, states, k, n) == Some(states[n].conns[k].lastSeen)
  {
    hide Steps, Uses;
    if n > 0 {
      StepLastSeen(cfg, states[n - 1], events[n - 1], states[n], frames[n - 1], k);
      if !Uses(states[n - 1], events[n - 1], k) {
        RunLastSeen(cfg, events, states, frames, k, n - 1);
      }
    }
  }

  // ---------------------------------------------------------------- TCP flags

  const FIN := 1
  const SYN := 2
  const RST := 4
  const ACK := 16

  /** The frame is TCP, with a header that can be rewritten, and has the flag (section 3.1 of RFC 793). */
  predicate HasFlag(raw: seq<byte>, flag: nat)
    requires flag in {FIN, SYN, RST, ACK}
  {
    var info := ParseEthIp(raw);
    info.Some? && info.value.proto == PROTO_TCP && info.value.L4() + 18 <= |raw| &&
      raw[info.value.L4() + 13] / flag % 2 == 1
  }

  predicate Finishes(raw: seq<byte>) {
    HasFlag(raw, FIN) || HasFlag(raw, RST)
  }

  predicate SynAcks(raw: seq<byte>) {
    HasFlag(raw, SYN) && HasFlag(raw, ACK) && !Finishes(raw)
  }

  lemma FlagBits(f: byte)
    ensures f % 64 % 2 == f / FIN % 2 && f % 64 / 2 % 2 == f / SYN % 2 && f % 64 / 4 % 2 == f / RST % 2 &&
            f % 64 / 16 % 2 == f / ACK % 2
  {
    Bit(f, 1, 32);
    Bit(f, 2, 16);
    Bit(f, 4, 8);
    Bit(f, 16, 2);
  }

  lemma Bit(f: byte, k: nat, m: nat)
    requires (k, m) in {(1, 32), (2, 16), (4, 8), (16, 2)}
    ensures f % 64 / k % 2 == f / k % 2
  {
    var q, r := f / 64, f % 64;
    assert f / k == 2 * (m * q) + r / k;
    Even(m * q, r / k);
  }

  lemma Even(a: nat, b: nat)
    ensures (2 * a + b) % 2 == b % 2
  {
  }

  /** How one frame moves the state of a TCP connection. */
  lemma FlagsDecide(raw: seq<byte>, e: Entry)
    requires ParseEthIp(raw).Some? && e.proto == PROTO_TCP
    ensures Finishes(raw) ==> Settled(raw, e).state == Closing
    ensures SynAcks(raw) ==> Settled(raw, e).state == Established
    ensures e.state == New && HasFlag(raw, ACK) && !Finishes(raw) ==> Settled(raw, e).state == Established
    ensures !Finishes(raw) && !SynAcks(raw) && (e.state != New || !HasFlag(raw, ACK)) ==>
            Settled(raw, e).state == e.state
  {
    hide ParseEthIp;
    var info := ParseEthIp(raw).value;
    if info.proto == PROTO_TCP && info.L4() + 18 <= |raw| {
      FlagBits(raw[info.L4() + 13]);
    }
  }

  /** SYN out, SYN and ACK in, ACK out: the connection is new after the first, and established from the second on. */
  lemma HandshakeEstablishes(syn: seq<byte>, synAck: seq<byte>, ack: seq<byte>, e: Entry, now: real, later: real)
    requires ParseEthIp(syn).Some? && ParseEthIp(synAck).Some? && ParseEthIp(ack).Some? && e.proto == PROTO_TCP &&
             e.state == New
    requires HasFlag(syn, SYN) && !HasFlag(syn, ACK) && !Finishes(syn) && SynAcks(synAck)
    requires HasFlag(ack, ACK) && !HasFlag(ack, SYN) && !Finishes(ack)
    ensures var e1 := Settled(syn, e);
            var e2 := Settled(synAck, e1.(lastSeen := now));
            e1.state == New && e2.state == Established && Settled(ack, e2.(lastSeen := later)).state == Established
  {
    hide Settled, ParseEthIp, HasFlag;
    var e1 := Settled(syn, e);
    FlagsDecide(syn, e);
    SettledKeepsProtocol(syn, e);
    FlagsDecide(synAck, e1.(lastSeen := now));
    var e2 := Settled(synAck, e1.(lastSeen := now));
    SettledKeepsProtocol(synAck, e1.(lastSeen := now));
    FlagsDecide(ack, e2.(lastSeen := later));
  }

  lemma SettledKeepsProtocol(raw: seq<byte>, e: Entry)
    requires ParseEthIp(raw).Some?
    ensures Settled(raw, e).proto == e.proto
  {
  }

  /** Whether k is closing in the n-th state: a FIN or RST has passed on it, and no SYN with ACK since. */
  function IsClosing(events: seq<Event>, states: seq<TableState>, k: Key, n: nat): bool
    requires n <= |events| && n <= |states|
  {
    if n == 0 || k !in states[n - 1].conns
      then n > 0 && Uses(states[n - 1], events[n - 1], k) && Finishes(events[n - 1].raw)
    else if !Uses(states[n - 1], events[n - 1], k) then IsClosing(events, states, k, n - 1)
    else if Finishes(events[n - 1].raw) then true
    else if SynAcks(events[n - 1].raw) then false
    else IsClosing(events, states, k, n - 1)
  }

  /** The entry a frame settles on: the connection's own, or a new one that is neither established nor closing. */
  lemma UsedEntry(cfg: Config, a: TableState, ev: Event, b: TableState, out: Option<seq<byte>>, k: Key)
    returns (e: Entry)
    requires FitsFrame(ev) && Steps(cfg, a, ev, b, out) && Consistent(a.conns, a.index)
    requires Uses(a, ev, k) && k.Key? && k.proto == PROTO_TCP
    ensures ParseEthIp(ev.raw).Some? && e.proto == PROTO_TCP && k in b.conns && b.conns[k] == Settled(ev.raw, e)
    ensures if k in a.conns then e == a.conns[k].(lastSeen := ev.now) else e.state == New
  {
    hide OutboundBytes, Delivery, StateAfter, FirstFree, Settled;
    match ev
    case Outbound(raw, dstMac, now) =>
      e :| SendsOn(cfg, a, raw, dstMac, now, b, out, e);
    case Inbound(raw, now) =>
      e := a.conns[k].(lastSeen := now);
  }

  lemma StepKeepsConsistent(cfg: Config, a: TableState, ev: Event, b: TableState, out: Option<seq<byte>>)
    requires FitsFrame(ev) && Consistent(a.conns, a.index) && Steps(cfg, a, ev, b, out)
    ensures Consistent(b.conns, b.index)
  {
    hide ParseEthIp, OutboundBytes, OutboundPorts, Delivery, StateAfter, FirstFree, InboundKey, Survivors,
         SurvivingPorts, Consistent;
    match ev
    case Outbound(raw, dstMac, now) =>
      if OutboundKey(raw).Some? {
        var e :| SendsOn(cfg, a, raw, dstMac, now, b, out, e);
        var own := OutboundKey(raw).value;
        if own in a.conns {
          TouchKeeps(a.conns, a.index, own, Settled(raw, e));
        } else {
          CreateKeepsConsistent(a.conns, a.index, own, Settled(raw, e));
        }
      }
    case Inbound(raw, now) =>
      var key := InboundKey(a.conns, a.index, raw);
      if key.Some? && key.value in a.conns {
        TouchKeeps(a.conns, a.index, key.value, b.conns[key.value]);
      }
    case Sweep(now) => CollectKeeps(cfg, a.conns, a.index, now);
  }

  lemma {:induction false} RunStaysConsistent(cfg: Config, events: seq<Event>, states: seq<TableState>,
                                              frames: seq<Option<seq<byte>>>, n: nat)
    requires IsRun(cfg, events, states, frames) && n < |states|
    ensures Consistent(states[n].conns, states[n].index)
  {
    hide Steps;
    if n > 0 {
      RunStaysConsistent(cfg, events, states, frames, n - 1);
      hide Consistent;
      StepKeepsConsistent(cfg, states[n - 1], events[n - 1], states[n], frames[n - 1]);
    }
  }

  /**
  In every state of every run a TCP connection is closing exactly when a FIN or RST has passed on it and no SYN with
  ACK since.
  */
  lemma {:induction false} RunClosingIff(cfg: Config, events: seq<Event>, states: seq<TableState>,
                                         frames: seq<Option<seq<byte>>>, k: Key, n: nat)
    requires IsRun(cfg, events, states, frames) && n < |states| && k in states[n].conns && k.Key? &&
             k.proto == PROTO_TCP
    ensures states[n].conns[k].state == Closing <==> IsClosing(events, states, k, n)
  {
    hide Steps, Settled, ParseEthIp, OutboundKey, InboundKey, Consistent, Finishes, SynAcks, HasFlag;
    if n > 0 {
      var a, ev, b, out := states[n - 1], events[n - 1], states[n], frames[n - 1];
      StepLastSeen(cfg, a, ev, b, out, k);
      if k in a.conns {
        RunClosingIff(cfg, events, states, frames, k, n - 1);
      }
      if Uses(a, ev, k) {
        RunStaysConsistent(cfg, events, states, frames, n - 1);
        var e := UsedEntry(cfg, a, ev, b, out, k);
        FlagsDecide(ev.raw, e);
      }
    }
  }

  // ---------------------------------------------------------------- sweeps

  /**
  Which connections a sweep of a run keeps: TCP connections that are closing for half a minute after their last use,
  others for the configured timeout of their protocol.
  */
  lemma SweepKeepsIff(cfg: Config, events: seq<Event>, states: seq<TableState>, frames: seq<Option<seq<byte>>>, n: nat,
                      k: Key)
    requires IsRun(cfg, events, states, frames) && n < |frames| && events[n].Sweep? && k in states[n].conns && k.Key?
    ensures LastUse(events, states, k, n).Some?
    ensures var idle, kept := events[n].now - LastUse(events, states, k, n).value, k in states[n + 1].conns;
            && (k.proto == PROTO_TCP && IsClosing(events, states, k, n) ==> (kept <==> idle <= 30.0))
            && (k.proto == PROTO_TCP && !IsClosing(events, states, k, n) ==> (kept <==> idle <= cfg.tcpTimeout))
            && (k.proto == PROTO_UDP ==> (kept <==> idle <= cfg.udpTimeout))
            && (k.proto == PROTO_ICMP ==> (kept <==> idle <= cfg.icmpTimeout))
  {
    RunLastSeen(cfg, events, states, frames, k, n);
    RunStaysConsistent(cfg, events, states, frames, n);
    if k.proto == PROTO_TCP {
      RunClosingIff(cfg, events, states, frames, k, n);
    } else {
      RunOthersNeverClose(cfg, events, states, frames, k, n);
    }
    hide IsClosing, LastUse;
    assert Steps(cfg, states[n], events[n], states[n + 1], frames[n]);
  }

  /** Only TCP connections close. */
  lemma {:induction false} RunOthersNeverClose(cfg: Config, events: seq<Event>, states: seq<TableState>,
                                               frames: seq<Option<seq<byte>>>, k: Key, n: nat)
    requires IsRun(cfg, events, states, frames) && n < |states| && k in states[n].conns && k.Key? &&
             k.proto != PROTO_TCP
    ensures states[n].conns[k].state == Established
  {
    hide Steps, Consistent;
    if n > 0 {
      RunStaysConsistent(cfg, events, states, frames, n - 1);
      if k in states[n - 1].conns {
        RunOthersNeverClose(cfg, events, states, frames, k, n - 1);
      }
      StepOthersNeverClose(cfg, states[n - 1], events[n - 1], states[n], frames[n - 1], k);
    }
  }

  lemma StepOthersNeverClose(cfg: Config, a: TableState, ev: Event, b: TableState, out: Option<seq<byte>>, k: Key)
    requires FitsFrame(ev) && Consistent(a.conns, a.index) && Steps(cfg, a, ev, b, out) && k in b.conns && k.Key? &&
             k.proto != PROTO_TCP
    requires k in a.conns ==> a.conns[k].state == Established
    ensures b.conns[k].state == Established
  {
    hide OutboundBytes, Delivery, FirstFree, ParseEthIp;
    match ev
    case Outbound(raw, dstMac, now) =>
      if OutboundKey(raw).Some? {
        var e :| SendsOn(cfg, a, raw, dstMac, now, b, out, e);
      }
    case Inbound(raw, now) =>
    case Sweep(now) =>
  }

  /** A FIN is not final: a late SYN with ACK makes the connection count as established again. */
  lemma SynAckReopens(raw: seq<byte>, e: Entry)
    requires ParseEthIp(raw).Some? && e.proto == PROTO_TCP && e.state == Closing && SynAcks(raw)
    ensures Settled(raw, e).state == Established
  {
    hide Settled, ParseEthIp, HasFlag;
    FlagsDecide(raw, e);
  }

  // ---------------------------------------------------------------- what a connection keeps

  /** Every connection is at the NAT address. */
  predicate AtNatAddress(cfg: Config, conns: Connections) {
    forall k :: k in conns ==> conns[k].natIp == cfg.externalIp
  }

  lemma StepStaysAtNatAddress(cfg: Config, a: TableState, ev: Event, b: TableState, out: Option<seq<byte>>)
    requires FitsFrame(ev) && AtNatAddress(cfg, a.conns) && Steps(cfg, a, ev, b, out)
    ensures AtNatAddress(cfg, b.conns)
  {
    hide ParseEthIp, OutboundBytes, Delivery, StateAfter, OutboundPorts, InboundPort, FirstFree;
    match ev
    case Outbound(raw, dstMac, now) =>
      if OutboundKey(raw).Some? {
        var e :| SendsOn(cfg, a, raw, dstMac, now, b, out, e);
      }
    case Inbound(raw, now) =>
    case Sweep(now) =>
  }

  lemma {:induction false} RunStaysAtNatAddress(cfg: Config, events: seq<Event>, states: seq<TableState>,
                                                frames: seq<Option<seq<byte>>>, n: nat)
    requires IsRun(cfg, events, states, frames) && n < |states|
    ensures AtNatAddress(cfg, states[n].conns)
  {
    hide Steps;
    if n > 0 {
      RunStaysAtNatAddress(cfg, events, states, frames, n - 1);
      hide AtNatAddress;
      StepStaysAtNatAddress(cfg, states[n - 1], events[n - 1], states[n], frames[n - 1]);
    }
  }

  /** The frame that made connection k, as it is in the n-th state. */
  function MadeBy(events: seq<Event>, states: seq<TableState>, k: Key, n: nat): seq<byte>
    requires n <= |events| && n <= |states|
  {
    if n == 0 then []
    else if k !in states[n - 1].conns && events[n - 1].Outbound? then events[n - 1].raw
    else MadeBy(events, states, k, n - 1)
  }

  lemma StepKeepsMac(cfg: Config, a: TableState, ev: Event, b: TableState, out: Option<seq<byte>>, k: Key)
    requires FitsFrame(ev) && Steps(cfg, a, ev, b, out) && k in b.conns
    ensures if k in a.conns then b.conns[k].srcMac == a.conns[k].srcMac
            else ev.Outbound? && |ev.raw| >= 34 && b.conns[k].srcMac == ev.raw[..6]
  {
    hide OutboundBytes, Delivery, StateAfter, OutboundPorts, InboundPort, FirstFree;
    match ev
    case Outbound(raw, dstMac, now) =>
      if OutboundKey(raw).Some? {
        var e :| SendsOn(cfg, a, raw, dstMac, now, b, out, e);
      }
    case Inbound(raw, now) =>
    case Sweep(now) =>
  }

  /** The address kept with a connection is the first of the frame that made it. */
  lemma {:induction false} RunKeepsMac(cfg: Config, events: seq<Event>, states: seq<TableState>,
                                       frames: seq<Option<seq<byte>>>, k: Key, n: nat)
    requires IsRun(cfg, events, states, frames) && n < |states| && k in states[n].conns
    ensures |MadeBy(events, states, k, n)| >= 34 && states[n].conns[k].srcMac == MadeBy(events, states, k, n)[..6]
  {
    hide Steps;
    if n > 0 {
      StepKeepsMac(cfg, states[n - 1], events[n - 1], states[n], frames[n - 1], k);
      if k in states[n - 1].conns {
        RunKeepsMac(cfg, events, states, frames, k, n - 1);
      }
    }
  }

  /**
  In Ethernet the first address of a frame is its destination, the second its sender. So what is delivered on a
  connection is addressed to the host that made it exactly when that host's frame was addressed to itself.
  */
  lemma DeliveredToSenderIff(cfg: Config, events: seq<Event>, states: seq<TableState>, frames: seq<Option<seq<byte>>>,
                             n: nat)
    requires IsRun(cfg, events, states, frames) && n < |frames| && events[n].Inbound? && frames[n].Some?
    ensures InboundKey(states[n].conns, states[n].index, events[n].raw).Some?
    ensures var first := MadeBy(events, states, InboundKey(states[n].conns, states[n].index, events[n].raw).value, n);
            && |frames[n].value| >= 12 && |first| >= 12 && frames[n].value[..6] == first[..6]
            && (frames[n].value[..6] == first[6..12] <==> first[..6] == first[6..12])
  {
    var a, raw := states[n], events[n].raw;
    assert Steps(cfg, a, events[n], states[n + 1], frames[n]);
    hide MadeBy, ParseEthIp, InboundPort, InboundBytes, StateAfter;
    var k := InboundKey(a.conns, a.index, raw).value;
    RunKeepsMac(cfg, events, states, frames, k, n);
    InboundMacs(raw, ParseEthIp(raw).value, a.conns[k].(lastSeen := events[n].now), frames[n].value);
  }

  // ---------------------------------------------------------------- other frames

  /** All other protocols share one connection, on which nothing ever comes back. */
  lemma OtherProtocols(raw: seq<byte>, conns: Connections, index: PortIndex)
    requires ParseEthIp(raw).Some? && ParseEthIp(raw).value.proto !in {PROTO_TCP, PROTO_UDP, PROTO_ICMP}
    ensures OutboundKey(raw) == Some(NoKey) && InboundKey(conns, index, raw) != Some(NoKey)
  {
    hide ParseEthIp;
  }

  /** ICMP messages other than echoes share the identifier 0. */
  lemma OtherIcmp(raw: seq<byte>, conns: Connections, index: PortIndex)
    requires ParseEthIp(raw).Some? && ParseEthIp(raw).value.proto == PROTO_ICMP &&
             ParseEthIp(raw).value.L4() + 6 <= |raw|
    requires raw[ParseEthIp(raw).value.L4()] !in {0, 8}
    ensures var info := ParseEthIp(raw).value;
            && OutboundKey(raw) == Some(Key(info.srcIp, 0, info.dstIp, 0, PROTO_ICMP))
            && (InboundKey(conns, index, raw).Some? ==> 0 in index && InboundKey(conns, index, raw) == Some(index[0]))
  {
    hide ParseEthIp;
  }
}
