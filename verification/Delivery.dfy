/**
End-to-end delivery: each switch's entry comes from its own shortest-path run, and still the
entries compose into one route.
*/
module Delivery {
  import opened Wrappers
  import opened Graph
  import opened Paths
  import opened Topology
  import opened TopologySteps
  import opened ControllerApp

  /** Which switch port each switch port is wired to. */
  type Cabling = map<(Dpid, Port), (Dpid, Port)>

  /** Every link record describes a real cable, in both directions. */
  ghost predicate ReflectsCables(links: seq<Link>, cables: Cabling) {
    forall l :: l in links ==>
      && (l.src, l.srcPort) in cables && cables[(l.src, l.srcPort)] == (l.dst, l.dstPort)
      && (l.dst, l.dstPort) in cables && cables[(l.dst, l.dstPort)] == (l.src, l.srcPort)
  }

  /** The switch a packet matching `key` is handed to by switch s, if its entry sends it to another switch. */
  function NextSwitch(tables: map<Dpid, Table>, cables: Cabling, key: FlowKey, s: Dpid): Option<Dpid> {
    if s in tables && key in tables[s] && (s, tables[s][key]) in cables
    then Some(cables[(s, tables[s][key])].0) else None
  }

  /** The switches a packet visits, following the entries for at most `hops` hops. */
  function Trace(tables: map<Dpid, Table>, cables: Cabling, key: FlowKey, s: Dpid, hops: nat): seq<Dpid>
    decreases hops
  {
    var next := NextSwitch(tables, cables, key, s);
    if hops == 0 || next == None then [s] else [s] + Trace(tables, cables, key, next.value, hops - 1)
  }

  /** A packet entering at s visits exactly `path`, however long it is given, and leaves through the host's port. */
  ghost predicate Delivers(tables: map<Dpid, Table>, cables: Cabling, key: FlowKey, s: Dpid, h: Host, path: seq<Dpid>) {
    && |path| >= 1 && path[|path| - 1] == h.dpid
    && (forall hops: nat :: |path| <= hops ==> Trace(tables, cables, key, s, hops) == path)
    && h.dpid in tables && key in tables[h.dpid] && tables[h.dpid][key] == h.port
  }

  /** The port in an adjacency entry is cabled to the neighbour it is filed under, and the cable leads back. */
  lemma AdjacencyIsWired(links: seq<Link>, cables: Cabling, u: Dpid, v: Dpid)
    requires ReflectsCables(links, cables) && PortIn(Rebuild(links), u, v).Some?
    ensures (u, PortIn(Rebuild(links), u, v).value) in cables
    ensures var far := cables[(u, PortIn(Rebuild(links), u, v).value)];
            far.0 == v && far in cables && cables[far] == (u, PortIn(Rebuild(links), u, v).value)
  {
  }

  lemma HeldEntry(tables: map<Dpid, Table>, s: Dpid, m: Mac, port: Port, key: FlowKey)
    requires Holds(tables, s, m, port) && key.dlDst == m
    ensures s in tables && key in tables[s] && tables[s][key] == port
  {
    match key.etherType
    case EtherIp => assert key == FlowKey(EtherIp, m);
    case EtherArp => assert key == FlowKey(EtherArp, m);
  }

  lemma NextHopIsWired(g: Net, links: seq<Link>, cables: Cabling, s: Dpid, t: Dpid, port: Port) returns (v: Dpid)
    requires g.Valid() && g.adjacency == Rebuild(links) && ReflectsCables(links, cables)
    requires IsNextHop(g, s, t, port)
    ensures (s, port) in cables && cables[(s, port)].0 == v && v in g.switches
    ensures cables[(s, port)] in cables && cables[cables[(s, port)]] == (s, port)
    ensures NextHopVia(g, s, t, port, v) && g.Weight(s, v) >= 1
  {
    v :| NextHopVia(g, s, t, port, v);
    assert g.Edge(s, v);
    AdjacencyIsWired(links, cables, s, v);
  }

  /** Each hop goes to a neighbour that is strictly closer to the host's switch. */
  lemma HopGetsCloser(g: Net, links: seq<Link>, cables: Cabling, tables: map<Dpid, Table>, m: Mac, h: Host,
                      key: FlowKey, s: Dpid) returns (v: Dpid)
    requires g.Valid() && g.adjacency == Rebuild(links) && ReflectsCables(links, cables)
    requires HostCurrent(g, tables, m, h) && key.dlDst == m
    requires s in g.switches && s != h.dpid && g.Delta(s, h.dpid).Fin?
    ensures NextSwitch(tables, cables, key, s) == Some(v) && v in g.switches && g.Edge(s, v)
    ensures var here := (s, tables[s][key]); cables[here] in cables && cables[cables[here]] == here
    ensures g.Delta(v, h.dpid).Fin? && g.Delta(s, h.dpid).n == g.Weight(s, v) + g.Delta(v, h.dpid).n
    ensures g.Weight(s, v) >= 1
  {
    assert EntryCurrent(g, tables, s, m, h);
    hide Holds, IsNextHop, ReflectsCables, Net.Valid;
    var port :| IsNextHop(g, s, h.dpid, port) && Holds(tables, s, m, port);
    v := NextHopIsWired(g, links, cables, s, h.dpid, port);
    HeldEntry(tables, s, m, port, key);
  }

  lemma TraceCons(tables: map<Dpid, Table>, cables: Cabling, key: FlowKey, s: Dpid, v: Dpid, h: Host, p: seq<Dpid>)
    requires NextSwitch(tables, cables, key, s) == Some(v) && Delivers(tables, cables, key, v, h, p)
    ensures Delivers(tables, cables, key, s, h, [s] + p)
  {
  }

  lemma DeliversHere(g: Net, cables: Cabling, tables: map<Dpid, Table>, m: Mac, h: Host, key: FlowKey)
    requires HostCurrent(g, tables, m, h) && key.dlDst == m && h.dpid in g.switches && (h.dpid, h.port) !in cables
    ensures Delivers(tables, cables, key, h.dpid, h, [h.dpid])
    ensures g.WalkBetween(h.dpid, h.dpid, [h.dpid]) && g.Cost([h.dpid]) == 0
  {
    assert EntryCurrent(g, tables, h.dpid, m, h);
    HeldEntry(tables, h.dpid, m, h.port, key);
  }

  /**
  From every switch connected to the host's switch, the installed entries lead to the host's port
  along a shortest path that visits no switch twice, whatever else the tables contain.
  */
  lemma {:induction false} EntriesDeliver(g: Net, links: seq<Link>, cables: Cabling, tables: map<Dpid, Table>, m: Mac,
                                          h: Host, key: FlowKey, s: Dpid) returns (path: seq<Dpid>)
    requires g.Valid() && g.adjacency == Rebuild(links) && ReflectsCables(links, cables)
    requires HostCurrent(g, tables, m, h) && key.dlDst == m && (h.dpid, h.port) !in cables
    requires s in g.switches && h.dpid in g.switches && g.Delta(s, h.dpid).Fin?
    ensures Delivers(tables, cables, key, s, h, path)
    ensures g.WalkBetween(s, h.dpid, path) && g.Cost(path) == g.Delta(s, h.dpid).n && Distinct(path)
    ensures forall x :: x in path ==> g.Delta(x, h.dpid).Fin? && g.Delta(x, h.dpid).n <= g.Delta(s, h.dpid).n
    decreases g.Delta(s, h.dpid).n
  {
    hide HostCurrent, ReflectsCables, Delivers, Net.IsWalk, Net.Cost, Net.Valid, Net.Edge, Net.Weight;
    DeltaSelf(g, h.dpid);
    if s == h.dpid {
      path := [s];
      DeliversHere(g, cables, tables, m, h, key);
    } else {
      var v := HopGetsCloser(g, links, cables, tables, m, h, key, s);
      var rest := EntriesDeliver(g, links, cables, tables, m, h, key, v);
      path := [s] + rest;
      WalkCons(g, s, v, h.dpid, rest);
      TraceCons(tables, cables, key, s, v, h, rest);
    }
  }

  /** In every state between handlers, the entries for every host to be served lead to it. */
  lemma EntriesReachHosts(app: ControllerApp, cables: Cabling, m: Mac, etherType: EtherType, s: Dpid)
    returns (path: seq<Dpid>)
    requires app.Valid() && ReflectsCables(app.links, cables)
    requires m in app.hosts && Served(app.cfg, app.hosts, m)
    requires (app.hosts[m].dpid, app.hosts[m].port) !in cables
    requires s in app.switches && app.Net().Delta(s, app.hosts[m].dpid).Fin?
    ensures Delivers(app.tables, cables, FlowKey(etherType, m), s, app.hosts[m], path)
    ensures app.Net().WalkBetween(s, app.hosts[m].dpid, path) && Distinct(path)
    ensures app.Net().Cost(path) == app.Net().Delta(s, app.hosts[m].dpid).n
  {
    RebuiltNetIsValid(app.Net(), app.links);
    var w :| app.Net().WalkBetween(s, app.hosts[m].dpid, w);
    WalkInSwitches(app.Net(), w);
    path := EntriesDeliver(app.Net(), app.links, cables, app.tables, m, app.hosts[m], FlowKey(etherType, m), s);
  }

  /**
  A probe that crossed a real cable leaves records of real cables only, even if its own pair's first record was stale.
  */
  lemma ProbeRepairsLinks(links: seq<Link>, cables: Cabling, local: Dpid, inPort: Port, src: Dpid, srcPort: Port)
    requires (src, srcPort) in cables && cables[(src, srcPort)] == (local, inPort)
    requires (local, inPort) in cables && cables[(local, inPort)] == (src, srcPort)
    requires var i := FirstBetween(links, local, src);
             forall j :: 0 <= j < |links| && j != i ==> ReflectsCables([links[j]], cables)
    ensures ReflectsCables(ProbedLinks(links, local, inPort, src, srcPort), cables)
  {
  }
}
