/**
Delivery in the whole flow table: the packets that no capture and no deny rule takes follow the host entries hop by
hop, past everything else the controller has added to the switches.
*/
module PacketDelivery {
  import opened Wrappers
  import opened Bytes
  import opened Graph
  import opened Paths
  import opened Topology
  import opened ControllerApp
  import opened Delivery
  import O = OpenFlow
  import W = Firewall
  import F = FlowTables

  /** What the controller has added to each switch, in order. */
  type Additions = map<Dpid, seq<F.FlowMod>>

  /** The host entries among the additions are those of the controller's tables. */
  ghost predicate HoldsTables(mods: Additions, tables: map<Dpid, Table>) {
    mods.Keys == tables.Keys && forall s :: s in mods ==> F.HostTable(mods[s]) == tables[s]
  }

  /** No capture and no installed deny rule is about p. */
  ghost predicate Exempt(mods: seq<F.FlowMod>, externalIp: Ip, p: O.Packet) {
    !F.IsDns(p) && !F.IsFor(p, externalIp) && forall r :: F.Deny(r) in mods ==> !O.Accepts(W.ControllerMatch(r), p)
  }

  function ArrivingAt(p: O.Packet, port: Port): O.Packet {
    p.(inPort := port)
  }

  /** No rule looks at the port a packet arrives on. */
  lemma ExemptAtAnyPort(mods: seq<F.FlowMod>, externalIp: Ip, p: O.Packet, port: Port)
    requires Exempt(mods, externalIp, p)
    ensures Exempt(mods, externalIp, ArrivingAt(p, port))
  {
    var q := ArrivingAt(p, port);
    forall r | F.Deny(r) in mods ensures !O.Accepts(W.ControllerMatch(r), q) {
      W.MatchMeans(r, W.ControllerCriteria(r), p);
      W.MatchMeans(r, W.ControllerCriteria(r), q);
      assert q.DlType() == p.DlType() && q.NwSrc() == p.NwSrc() && q.NwDst() == p.NwDst() &&
             q.NwProto() == p.NwProto() && q.Tp() == p.Tp();
    }
  }

  /**
  The port through which switch s sends p. A switch never sends a packet out of the port it came in by, because no
  entry names `OFPP_IN_PORT` (section 5.2.1 of the OpenFlow Switch Specification 1.0.0).
  */
  ghost function Egress(mods: Additions, externalIp: Ip, p: O.Packet, s: Dpid): Option<Port> {
    if s !in mods then None
    else
      match F.Verdict(mods[s], externalIp, p)
      case Some(Output(port)) => if port == p.inPort then None else Some(port)
      case _ => None
  }

  /** The switches a packet visits, and the port, not cabled to a switch, through which it leaves the last one. */
  datatype Journey = Journey(switches: seq<Dpid>, exit: Option<Port>)

  /** The journey of p from s, decided at each switch by its whole table, for at most `hops` hops. */
  ghost function Travel(mods: Additions, externalIp: Ip, cables: Cabling, p: O.Packet, s: Dpid, hops: nat): Journey
    decreases hops
  {
    var out := Egress(mods, externalIp, p, s);
    if out.None? then Journey([s], None)
    else if (s, out.value) !in cables then Journey([s], out)
    else if hops == 0 then Journey([s], None)
    else
      var (t, port) := cables[(s, out.value)];
      var rest := Travel(mods, externalIp, cables, ArrivingAt(p, port), t, hops - 1);
      Journey([s] + rest.switches, rest.exit)
  }

  /** Once the captures and the firewall are out of the question, the host entry decides, if there is one. */
  lemma HostEntryDecides(mods: seq<F.FlowMod>, externalIp: Ip, p: O.Packet)
    requires Exempt(mods, externalIp, p) && F.HostKeyOf(p).Some?
    ensures var key := F.HostKeyOf(p).value;
            if key in F.HostTable(mods) then F.Verdict(mods, externalIp, p) == Some(F.Output(F.HostTable(mods)[key]))
            else F.Verdict(mods, externalIp, p) in {None, Some(F.ToController)}
  {
  }

  /**
  What a journey rests on: sound entries, link records of real cables, a host to be served, an exempt packet for
  it.
  */
  ghost predicate Deliverable(app: ControllerApp, mods: Additions, cables: Cabling, p: O.Packet, m: Mac)
    reads app
  {
    && app.Valid() && ReflectsCables(app.links, cables) && HoldsTables(mods, app.tables)
    && m in app.hosts && Served(app.cfg, app.hosts, m) && (app.hosts[m].dpid, app.hosts[m].port) !in cables
    && p.dlDst == m && F.HostKeyOf(p).Some? && forall x :: x in mods ==> Exempt(mods[x], app.cfg.externalIp, p)
  }

  /** A switch from which the host can be reached. */
  ghost predicate Connects(app: ControllerApp, m: Mac, s: Dpid)
    requires m in app.hosts
    reads app
  {
    s in app.switches && app.hosts[m].dpid in app.switches && app.Net().Delta(s, app.hosts[m].dpid).Fin?
  }

  /** The port of the entry for p at switch s. */
  function EntryPort(app: ControllerApp, p: O.Packet, s: Dpid): Option<Port>
    requires F.HostKeyOf(p).Some?
    reads app
  {
    var key := F.HostKeyOf(p).value;
    if s in app.tables && key in app.tables[s] then Some(app.tables[s][key]) else None
  }

  lemma KeyOfPacket(p: O.Packet)
    requires F.HostKeyOf(p).Some?
    ensures F.HostKeyOf(p).value.dlDst == p.dlDst && forall port :: F.HostKeyOf(ArrivingAt(p, port)) == F.HostKeyOf(p)
  {
  }

  lemma StillDeliverable(app: ControllerApp, mods: Additions, cables: Cabling, p: O.Packet, m: Mac, port: Port)
    requires Deliverable(app, mods, cables, p, m)
    ensures Deliverable(app, mods, cables, ArrivingAt(p, port), m)
  {
    hide ControllerApp.Valid, ReflectsCables, HoldsTables, Served, Exempt, F.HostKeyOf;
    KeyOfPacket(p);
    forall x | x in mods ensures Exempt(mods[x], app.cfg.externalIp, ArrivingAt(p, port)) {
      ExemptAtAnyPort(mods[x], app.cfg.externalIp, p, port);
    }
  }

  /** The whole table of a switch sends p where its host entry says, unless that is where p came from. */
  lemma EgressIsEntry(app: ControllerApp, mods: Additions, cables: Cabling, p: O.Packet, m: Mac, s: Dpid)
    requires Deliverable(app, mods, cables, p, m) && EntryPort(app, p, s).Some?
    ensures Egress(mods, app.cfg.externalIp, p, s) ==
              if EntryPort(app, p, s).value == p.inPort then None else EntryPort(app, p, s)
  {
    hide ControllerApp.Valid, ReflectsCables, Served, Exempt, F.HostKeyOf, F.Verdict, F.HostTable;
    HostEntryDecides(mods[s], app.cfg.externalIp, p);
  }

  lemma EntryAtHost(app: ControllerApp, mods: Additions, cables: Cabling, p: O.Packet, m: Mac)
    requires Deliverable(app, mods, cables, p, m) && app.hosts[m].dpid in app.switches
    ensures EntryPort(app, p, app.hosts[m].dpid) == Some(app.hosts[m].port)
  {
    hide Exempt, Served, ReflectsCables, HoldsTables, IsNextHop, Net.Delta, F.HostKeyOf;
    KeyOfPacket(p);
    assert EntryCurrent(app.Net(), app.tables, app.hosts[m].dpid, m, app.hosts[m]);
    HeldEntry(app.tables, app.hosts[m].dpid, m, app.hosts[m].port, F.HostKeyOf(p).value);
  }

  /** The next switch of a host entry: strictly closer, over a cable that leads back. */
  lemma EntryHops(app: ControllerApp, mods: Additions, cables: Cabling, p: O.Packet, m: Mac, s: Dpid)
    returns (port: Port, v: Dpid)
    requires Deliverable(app, mods, cables, p, m) && Connects(app, m, s) && s != app.hosts[m].dpid
    ensures EntryPort(app, p, s) == Some(port) && (s, port) in cables && cables[(s, port)].0 == v
    ensures cables[(s, port)] in cables && cables[cables[(s, port)]] == (s, port)
    ensures NextSwitch(app.tables, cables, F.HostKeyOf(p).value, s) == Some(v)
    ensures Connects(app, m, v) && app.Net().Delta(v, app.hosts[m].dpid).n < app.Net().Delta(s, app.hosts[m].dpid).n
  {
    hide Exempt, Served, ReflectsCables, HoldsTables, HostCurrent, Net.Delta, F.HostKeyOf, Net.Edge, Net.Weight;
    KeyOfPacket(p);
    RebuiltNetIsValid(app.Net(), app.links);
    hide Net.Valid, LinksWithin;
    v := HopGetsCloser(app.Net(), app.links, cables, app.tables, m, app.hosts[m], F.HostKeyOf(p).value, s);
    port := EntryPort(app, p, s).value;
  }

  /** No switch on the way sends the packet back: the next entry does not lead out of the port the packet arrives on. */
  lemma NeverTurnsBack(app: ControllerApp, mods: Additions, cables: Cabling, p: O.Packet, m: Mac, s: Dpid, port: Port,
                       v: Dpid)
    requires Deliverable(app, mods, cables, p, m) && Connects(app, m, s) && Connects(app, m, v)
    requires (s, port) in cables && cables[(s, port)].0 == v && cables[(s, port)] in cables &&
             cables[cables[(s, port)]] == (s, port)
    requires app.Net().Delta(v, app.hosts[m].dpid).n < app.Net().Delta(s, app.hosts[m].dpid).n
    ensures EntryPort(app, p, v).Some? && EntryPort(app, p, v).value != cables[(s, port)].1
  {
    hide Net.Delta, EntryPort, ControllerApp.Net, ControllerApp.Valid, ReflectsCables, HoldsTables, Exempt, Served,
         F.HostKeyOf;
    if v == app.hosts[m].dpid {
      EntryAtHost(app, mods, cables, p, m);
    } else {
      var port', w := EntryHops(app, mods, cables, p, m, v);
    }
  }

  /**
  An exempt packet that is not to be sent back at once takes the route of the host entries, and leaves at the host's
  port.
  */
  lemma {:induction false} TravelsAsTraced(app: ControllerApp, mods: Additions, cables: Cabling, p: O.Packet, m: Mac,
                                           s: Dpid, hops: nat)
    requires Deliverable(app, mods, cables, p, m) && Connects(app, m, s) && EntryPort(app, p, s) != Some(p.inPort)
    ensures var j := Travel(mods, app.cfg.externalIp, cables, p, s, hops);
            && j.switches == Trace(app.tables, cables, F.HostKeyOf(p).value, s, hops)
            && j.exit == if j.switches[|j.switches| - 1] == app.hosts[m].dpid then Some(app.hosts[m].port) else None
    decreases hops
  {
    hide Net.Delta, EntryPort, ControllerApp.Net, ControllerApp.Valid, ReflectsCables, HoldsTables, Exempt, Served,
         F.HostKeyOf, Egress;
    if s == app.hosts[m].dpid {
      EntryAtHost(app, mods, cables, p, m);
      EgressIsEntry(app, mods, cables, p, m, s);
      TraceEnds(app, mods, cables, p, m, hops);
    } else {
      var port, v := EntryHops(app, mods, cables, p, m, s);
      EgressIsEntry(app, mods, cables, p, m, s);
      if hops > 0 {
        var q := cables[(s, port)].1;
        NeverTurnsBack(app, mods, cables, p, m, s, port, v);
        StillDeliverable(app, mods, cables, p, m, q);
        KeyOfPacket(p);
        SameEntryPort(app, p, q, v);
        TravelsAsTraced(app, mods, cables, ArrivingAt(p, q), m, v, hops - 1);
      }
    }
  }

  lemma SameEntryPort(app: ControllerApp, p: O.Packet, port: Port, s: Dpid)
    requires F.HostKeyOf(p).Some?
    ensures F.HostKeyOf(ArrivingAt(p, port)) == F.HostKeyOf(p) &&
            EntryPort(app, ArrivingAt(p, port), s) == EntryPort(app, p, s)
  {
  }

  lemma TraceEnds(app: ControllerApp, mods: Additions, cables: Cabling, p: O.Packet, m: Mac, hops: nat)
    requires Deliverable(app, mods, cables, p, m) && EntryPort(app, p, app.hosts[m].dpid) == Some(app.hosts[m].port)
    ensures Trace(app.tables, cables, F.HostKeyOf(p).value, app.hosts[m].dpid, hops) == [app.hosts[m].dpid]
    ensures (app.hosts[m].dpid, app.hosts[m].port) !in cables
  {
  }

  /** p visits exactly `path`, however many hops it is given, and leaves the last switch through the host's port. */
  ghost predicate PacketDelivers(mods: Additions, externalIp: Ip, cables: Cabling, p: O.Packet, s: Dpid, h: Host,
                                 path: seq<Dpid>) {
    && |path| >= 1 && path[|path| - 1] == h.dpid
    && forall hops: nat :: |path| <= hops ==>
       Travel(mods, externalIp, cables, p, s, hops) == Journey(path, Some(h.port))
  }

  lemma NotSentBack(app: ControllerApp, mods: Additions, cables: Cabling, p: O.Packet, m: Mac, s: Dpid, hops: nat)
    requires Deliverable(app, mods, cables, p, m) && EntryPort(app, p, s) == Some(p.inPort)
    ensures Travel(mods, app.cfg.externalIp, cables, p, s, hops) == Journey([s], None)
  {
    hide Deliverable, EntryPort, Egress;
    EgressIsEntry(app, mods, cables, p, m, s);
  }

  /**
  In every state between handlers, an IP or ARP packet for a host to be served, which is no DNS query, not for
  the NAT address and accepted by no installed deny rule, whatever else is in the tables: from every switch connected
  to the host's it leaves through the host's port, after a shortest path that repeats no switch, exactly when it did
  not come in by the very port through which the entry of its first switch sends it.
  */
  lemma PacketsReachHosts(app: ControllerApp, mods: Additions, cables: Cabling, p: O.Packet, m: Mac, s: Dpid)
    returns (path: seq<Dpid>)
    requires Deliverable(app, mods, cables, p, m) && s in app.switches && app.Net().Delta(s, app.hosts[m].dpid).Fin?
    ensures PacketDelivers(mods, app.cfg.externalIp, cables, p, s, app.hosts[m], path) <==>
            EntryPort(app, p, s) != Some(p.inPort)
    ensures app.Net().WalkBetween(s, app.hosts[m].dpid, path) && Distinct(path)
    ensures app.Net().Cost(path) == app.Net().Delta(s, app.hosts[m].dpid).n
  {
    var key, d := F.HostKeyOf(p).value, app.hosts[m].dpid;
    path := EntriesReachHosts(app, cables, m, key.etherType, s);
    KeyOfPacket(p);
    assert key == FlowKey(key.etherType, m);
    hide ReflectsCables, Served, Trace, Travel, Exempt, F.HostKeyOf, HoldsTables, EntryPort;
    WalkConnects(app, m, s, path);
    if EntryPort(app, p, s) == Some(p.inPort) {
      NotSentBack(app, mods, cables, p, m, s, |path|);
    } else {
      forall hops: nat | |path| <= hops
        ensures Travel(mods, app.cfg.externalIp, cables, p, s, hops) == Journey(path, Some(app.hosts[m].port))
      {
        TravelsAsTraced(app, mods, cables, p, m, s, hops);
      }
    }
  }

  lemma WalkConnects(app: ControllerApp, m: Mac, s: Dpid, path: seq<Dpid>)
    requires app.Valid() && m in app.hosts && s in app.switches && app.Net().Delta(s, app.hosts[m].dpid).Fin?
    requires app.Net().WalkBetween(s, app.hosts[m].dpid, path)
    ensures Connects(app, m, s)
  {
    RebuiltNetIsValid(app.Net(), app.links);
    WalkInSwitches(app.Net(), path);
  }

  /**
  So whatever comes in by a port that leads to no switch and is not the host's own, such as another host's, is
  delivered.
  */
  lemma PacketsFromHostsReachHosts(app: ControllerApp, mods: Additions, cables: Cabling, p: O.Packet, m: Mac, s: Dpid)
    returns (path: seq<Dpid>)
    requires Deliverable(app, mods, cables, p, m) && s in app.switches && app.Net().Delta(s, app.hosts[m].dpid).Fin?
    requires (s, p.inPort) !in cables && (s, p.inPort) != (app.hosts[m].dpid, app.hosts[m].port)
    ensures PacketDelivers(mods, app.cfg.externalIp, cables, p, s, app.hosts[m], path)
    ensures app.Net().WalkBetween(s, app.hosts[m].dpid, path) && Distinct(path)
    ensures app.Net().Cost(path) == app.Net().Delta(s, app.hosts[m].dpid).n
  {
    path := PacketsReachHosts(app, mods, cables, p, m, s);
    WalkConnects(app, m, s, path);
    hide Net.Delta, EntryPort, ControllerApp.Net, ControllerApp.Valid, ReflectsCables, HoldsTables, Exempt, Served,
         F.HostKeyOf;
    if s == app.hosts[m].dpid {
      EntryAtHost(app, mods, cables, p, m);
    } else {
      var port, v := EntryHops(app, mods, cables, p, m, s);
    }
  }
}
