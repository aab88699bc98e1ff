/** Whole runs of the NAT: what the tables keep over every run, and what a lookup in them returns. */
module NatRuns {
  import opened Wrappers
  import opened Bytes
  import opened NatPacket
  import opened NatTable

  // ---------------------------------------------------------------- runs

  datatype Event =
    | Outbound(raw: seq<byte>, dstMac: Option<MacAddr>, now: real)
    | Inbound(raw: seq<byte>, now: real)
    | Sweep(now: real)

  predicate FitsFrame(ev: Event) {
    ev.Sweep? || |ev.raw| <= 0xFFFF
  }

  /** An ICMP packet is translated by this event. */
  predicate TranslatesIcmp(ev: Event) {
    ev.Outbound? && IsIcmp(ev.raw)
  }

  /** What one event does to the tables, and the frame it sends or delivers. */
  ghost predicate Steps(cfg: Config, a: TableState, ev: Event, b: TableState, out: Option<seq<byte>>)
    requires FitsFrame(ev)
  {
    match ev
    case Outbound(raw, dstMac, now) =>
      if OutboundKey(raw).None? then b == a && out == None
      else exists e :: SendsOn(cfg, a, raw, dstMac, now, b, out, e)
    case Inbound(raw, now) =>
      var key := InboundKey(a.conns, a.index, raw);
      if key.None? || key.value !in a.conns then b == a && out == None
      else
        var e := a.conns[key.value].(lastSeen := now);
        b == a.(conns := a.conns[key.value := Settled(raw, e)]) && out == Frame(Delivery(raw, e))
    case Sweep(now) =>
      b == TableState(Survivors(cfg, a.conns, now), SurvivingPorts(cfg, a.conns, a.index, now), a.next) && out == None
  }

  function Frame(d: Option<(seq<byte>, Entry)>): Option<seq<byte>> {
    if d.Some? then Some(d.value.0) else None
  }

  /** An outbound frame is sent on connection e. */
  ghost predicate SendsOn(cfg: Config, a: TableState, raw: seq<byte>, dstMac: Option<MacAddr>, now: real, b: TableState,
                          out: Option<seq<byte>>, e: Entry)
    requires |raw| <= 0xFFFF && OutboundKey(raw).Some?
  {
    && OutboundStep(cfg, raw, now, a.conns, a.index, a.next, e, b.index, b.next)
    && b.conns == a.conns[OutboundKey(raw).value := Settled(raw, e)]
    && out == OutboundBytes(raw, ParseEthIp(raw).value, e, cfg.controllerMac, dstMac)
  }

  // ---------------------------------------------------------------- when the maps stay inverse

  /** A new ICMP connection takes a port that is free; other new connections always do. */
  predicate TakesFreePort(a: TableState, ev: Event) {
    ev.Outbound? && IsIcmp(ev.raw) && OutboundKey(ev.raw).Some? && OutboundKey(ev.raw).value !in a.conns ==>
      OutboundKey(ev.raw).value.Key? && OutboundKey(ev.raw).value.srcPort !in a.index
  }

  lemma OutboundKeepsInverseIff(cfg: Config, a: TableState, raw: seq<byte>, dstMac: Option<MacAddr>, now: real,
                                b: TableState, out: Option<seq<byte>>, e: Entry)
    requires |raw| <= 0xFFFF && OutboundKey(raw).Some? && Inverse(a.conns, a.index) &&
             SendsOn(cfg, a, raw, dstMac, now, b, out, e)
    ensures Inverse(b.conns, b.index) <==> TakesFreePort(a, Outbound(raw, dstMac, now))
  {
    hide ParseEthIp, OutboundPorts, OutboundBytes, Inverse, Consistent, StateAfter;
    var key := OutboundKey(raw).value;
    if key in a.conns {
      ConsistentOf(a.conns, a.index);
      TouchKeeps(a.conns, a.index, key, Settled(raw, e));
    } else {
      CreateKeepsInverseIffFresh(a.conns, a.index, key, Settled(raw, e));
    }
  }

  lemma ConsistentOf(conns: Connections, index: PortIndex)
    requires Inverse(conns, index)
    ensures Consistent(conns, index)
  {
  }

  /** One event keeps the maps inverse exactly when it makes no ICMP connection on a port that is taken. */
  lemma StepKeepsInverseIff(cfg: Config, a: TableState, ev: Event, b: TableState, out: Option<seq<byte>>)
    requires FitsFrame(ev) && Inverse(a.conns, a.index) && Steps(cfg, a, ev, b, out)
    ensures Inverse(b.conns, b.index) <==> TakesFreePort(a, ev)
  {
    hide ParseEthIp, Inverse, Consistent, SendsOn, InboundKey, IsIcmp, OutboundKey, Survivors, SurvivingPorts, Delivery,
         StateAfter;
    ConsistentOf(a.conns, a.index);
    match ev
    case Outbound(raw, dstMac, now) =>
      if OutboundKey(raw).Some? {
        var e :| SendsOn(cfg, a, raw, dstMac, now, b, out, e);
        OutboundKeepsInverseIff(cfg, a, raw, dstMac, now, b, out, e);
      }
    case Inbound(raw, now) =>
      var key := InboundKey(a.conns, a.index, raw);
      if key.Some? && key.value in a.conns {
        TouchKeeps(a.conns, a.index, key.value, b.conns[key.value]);
      }
    case Sweep(now) =>
      CollectKeeps(cfg, a.conns, a.index, now);
  }

  /** The states of a run and the frames it puts out: each follows from the one before by the next event. */
  ghost predicate IsRun(cfg: Config, events: seq<Event>, states: seq<TableState>, frames: seq<Option<seq<byte>>>) {
    && 1 <= |states| <= |events| + 1 && |frames| == |states| - 1 && states[0] == TableState(map[], map[], FIRST_PORT)
    && forall i :: 0 <= i < |frames| ==>
       FitsFrame(events[i]) && Steps(cfg, states[i], events[i], states[i + 1], frames[i])
  }

  /**
  A run has inverse maps in every state exactly when no event of it makes an ICMP connection on a port that is taken.
  */
  lemma {:induction false} RunStaysInverseIff(cfg: Config, events: seq<Event>, states: seq<TableState>,
                                              frames: seq<Option<seq<byte>>>, n: nat)
    requires IsRun(cfg, events, states, frames) && n < |states|
    ensures (forall i :: 0 <= i <= n ==> Inverse(states[i].conns, states[i].index)) <==>
            (forall i :: 0 <= i < n ==> TakesFreePort(states[i], events[i]))
  {
    hide Inverse, TakesFreePort, Steps;
    if n == 0 {
      EmptyIsInverse();
    } else {
      RunStaysInverseIff(cfg, events, states, frames, n - 1);
      if Inverse(states[n - 1].conns, states[n - 1].index) {
        StepKeepsInverseIff(cfg, states[n - 1], events[n - 1], states[n], frames[n - 1]);
      }
    }
  }

  /** An ICMP connection is filed under its echo identifier, which is never translated. */
  predicate KeepsIdentifiers(conns: Connections) {
    forall k :: k in conns && k.Key? && k.proto == PROTO_ICMP ==> conns[k].natPort == k.srcPort
  }

  lemma StepKeepsIdentifiers(cfg: Config, a: TableState, ev: Event, b: TableState, out: Option<seq<byte>>)
    requires FitsFrame(ev) && KeepsIdentifiers(a.conns) && Steps(cfg, a, ev, b, out)
    ensures KeepsIdentifiers(b.conns)
  {
    hide ParseEthIp, OutboundBytes, Delivery, StateAfter, OutboundPorts, InboundPort, FirstFree;
    match ev
    case Outbound(raw, dstMac, now) =>
      if OutboundKey(raw).Some? {
        var e :| SendsOn(cfg, a, raw, dstMac, now, b, out, e);
      }
    case Inbound(raw, now) =>
    case Sweep(now) =>
  }

  /** In every state of every run. */
  lemma {:induction false} RunKeepsIdentifiers(cfg: Config, events: seq<Event>, states: seq<TableState>,
                                               frames: seq<Option<seq<byte>>>, n: nat)
    requires IsRun(cfg, events, states, frames) && n < |states|
    ensures KeepsIdentifiers(states[n].conns)
  {
    hide KeepsIdentifiers, Steps;
    if n == 0 {
      NoIdentifiers();
    } else {
      RunKeepsIdentifiers(cfg, events, states, frames, n - 1);
      StepKeepsIdentifiers(cfg, states[n - 1], events[n - 1], states[n], frames[n - 1]);
    }
  }

  lemma NoIdentifiers()
    ensures KeepsIdentifiers(map[])
  {
  }

  lemma EmptyIsInverse()
    ensures Inverse(map[], map[])
  {
  }

  /**
  Any run takes one step per event and keeps the tables consistent in every state; as long as it translates no ICMP,
  they stay mutually inverse. It stops early only at an outbound frame that needs a new port when every port is taken.
  */
  method Run(cfg: Config, events: seq<Event>)
    returns (table: NATTable, handled: nat, frames: seq<Option<seq<byte>>>, ghost states: seq<TableState>)
    requires forall ev :: ev in events ==> FitsFrame(ev)
    ensures fresh(table) && table.Valid() && table.cfg == cfg && handled <= |events|
    ensures |frames| == handled && IsRun(cfg, events, states, frames) && states[handled] == table.State()
    ensures forall i :: 0 <= i <= handled ==> Consistent(states[i].conns, states[i].index)
    ensures (forall i :: 0 <= i < handled ==> !TranslatesIcmp(events[i])) ==>
            Inverse(table.connections, table.portIndex)
    ensures handled < |events| ==>
            events[handled].Outbound? && Stuck(table.connections, table.portIndex, events[handled].raw)
  {
    hide Consistent, Inverse, Steps, Stuck, TranslatesIcmp;
    table := new NATTable(cfg);
    handled, frames := 0, [];
    states := [table.State()];
    while handled < |events| && (events[handled].Outbound? ==>
                                 !Stuck(table.connections, table.portIndex, events[handled].raw))
      invariant handled <= |events| && fresh(table) && table.Valid() && table.cfg == cfg
      invariant |frames| == handled && IsRun(cfg, events, states, frames) && states[handled] == table.State()
      invariant forall i :: 0 <= i <= handled ==> Consistent(states[i].conns, states[i].index)
      invariant (forall i :: 0 <= i < handled ==> !TranslatesIcmp(events[i])) ==>
                Inverse(table.connections, table.portIndex)
    {
      var frame := Step(table, events[handled]);
      frames, states := frames + [frame], states + [table.State()];
      handled := handled + 1;
    }
  }

  /** The same connection later: only its state and the time it was last seen may differ. */
  predicate Carried(e: Entry, e': Entry, now: real) {
    e' == e.(state := e'.state, lastSeen := e'.lastSeen) && (e'.lastSeen == e.lastSeen || e'.lastSeen == now)
  }

  /** Every connection is carried over, except those that a sweep finds timed out. */
  ghost predicate CarriesConnections(cfg: Config, conns: Connections, conns': Connections, ev: Event) {
    forall k :: k in conns && !(ev.Sweep? && TimedOut(cfg, conns[k], ev.now)) ==>
      k in conns' && Carried(conns[k], conns'[k], ev.now)
  }

  lemma OutboundCarries(cfg: Config, raw: seq<byte>, dstMac: Option<MacAddr>, now: real, conns: Connections,
                        index: PortIndex, next: Word, e: Entry, index': PortIndex, next': Word)
    requires OutboundKey(raw).Some? && OutboundStep(cfg, raw, now, conns, index, next, e, index', next')
    ensures CarriesConnections(cfg, conns, conns[OutboundKey(raw).value := Settled(raw, e)], Outbound(raw, dstMac, now))
  {
    hide ParseEthIp, StateAfter, OutboundPorts, FirstFree;
  }

  lemma InboundCarries(cfg: Config, raw: seq<byte>, now: real, conns: Connections, index: PortIndex)
    requires InboundKey(conns, index, raw).Some?
    ensures var k := InboundKey(conns, index, raw).value;
            k in conns && CarriesConnections(cfg, conns, conns[k := Settled(raw, conns[k].(lastSeen := now))],
                                             Inbound(raw, now))
  {
    hide ParseEthIp, StateAfter, InboundPort;
  }

  lemma StepCarries(cfg: Config, a: TableState, ev: Event, b: TableState, out: Option<seq<byte>>)
    requires FitsFrame(ev) && Steps(cfg, a, ev, b, out)
    ensures CarriesConnections(cfg, a.conns, b.conns, ev)
  {
    hide ParseEthIp, OutboundStep, InboundKey, OutboundKey, OutboundBytes, Delivery, Settled;
    match ev
    case Outbound(raw, dstMac, now) =>
      if OutboundKey(raw).Some? {
        var e :| SendsOn(cfg, a, raw, dstMac, now, b, out, e);
        OutboundCarries(cfg, raw, dstMac, now, a.conns, a.index, a.next, e, b.index, b.next);
      }
    case Inbound(raw, now) =>
      if InboundKey(a.conns, a.index, raw).Some? {
        InboundCarries(cfg, raw, now, a.conns, a.index);
      }
    case Sweep(now) =>
  }

  /** The handlers and the sweep take the step of their event. */
  method Step(table: NATTable, ev: Event) returns (out: Option<seq<byte>>)
    requires table.Valid() && FitsFrame(ev) && (ev.Outbound? ==> !Stuck(table.connections, table.portIndex, ev.raw))
    modifies table
    ensures table.Valid() && Steps(table.cfg, old(table.State()), ev, table.State(), out)
    ensures old(Inverse(table.connections, table.portIndex)) && !TranslatesIcmp(ev) ==>
            Inverse(table.connections, table.portIndex)
  {
    hide Consistent, Inverse, OutboundStep, IsIcmp, OutboundBytes, OutboundKey, InboundKey, Settled, Delivery,
         ParseEthIp;
    out := None;
    match ev
    case Outbound(raw, dstMac, now) =>
      ghost var e;
      out, e := table.HandleOutbound(raw, dstMac, now);
      assert e.Some? ==> SendsOn(table.cfg, old(table.State()), raw, dstMac, now, table.State(), out, e.value);
    case Inbound(raw, now) =>
      var delivered := table.HandleInbound(raw, now);
      out := Frame(delivered);
    case Sweep(now) =>
      table.Collect(now);
  }

  // ---------------------------------------------------------------- what a lookup returns

  /** An inbound frame is only ever given a live connection with its port, protocol and address. */
  lemma InboundIsSound(conns: Connections, index: PortIndex, raw: seq<byte>)
    requires Consistent(conns, index) && InboundKey(conns, index, raw).Some?
    ensures var k, info := InboundKey(conns, index, raw).value, ParseEthIp(raw).value;
            && k in conns && InboundPort(raw, info) == Some(conns[k].natPort)
            && conns[k].proto == info.proto && conns[k].natIp == info.dstIp
  {
  }

  /** An echo whose identifier equals an allocated port makes the connection on that port unreachable. */
  lemma IcmpIdentifierShadowsPort(conns: Connections, index: PortIndex, k: Key, icmp: Key, e: Entry)
    requires Inverse(conns, index) && k in conns && k.Key? && k.proto != PROTO_ICMP
    requires icmp.Key? && icmp.proto == PROTO_ICMP && icmp !in conns && e.natPort == conns[k].natPort
    ensures Lookup(conns, index, conns[k].natIp, conns[k].natPort, k.proto) == Some(k)
    ensures Lookup(conns[icmp := e], index[e.natPort := icmp], conns[k].natIp, conns[k].natPort, k.proto) == None
  {
  }
}
