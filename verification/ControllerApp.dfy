/**
`ControllerApp` with its tables updated in place: every handler takes the step of its event and keeps the invariant.
*/
module ControllerApp {
  import opened Wrappers
  import opened Bytes
  import opened Graph
  import opened Routing
  import opened Paths
  import opened Topology
  import opened TopologySteps
  import opened LinkWeights

  class ControllerApp {
    var hosts: map<Mac, Host>
    var switches: set<Dpid>
    var ofctls: set<Dpid>
    var links: seq<Link>
    var adjacency: map<Dpid, map<Dpid, Port>>
    var ipToMac: map<Ip, Mac>
    var macToIp: map<Mac, Ip>
    var portToMac: map<(Dpid, Port), Mac>
    /** The host entries in the switches; a switch that left keeps its own. */
    var tables: map<Dpid, Table>
    const weights: map<(Dpid, Dpid), nat>
    const algorithm: Algorithm
    const cfg: Config

    function Net(): Net
      reads this`switches, this`adjacency
    {
      Graph.Net(switches, adjacency, weights)
    }

    function State(): Snapshot
      reads this`hosts, this`switches, this`links, this`ipToMac, this`portToMac, this`tables
    {
      Snapshot(hosts, switches, links, ipToMac, portToMac, tables)
    }

    /** The redundant tables agree with the others. */
    ghost predicate HostTables()
      reads this`hosts, this`switches, this`ofctls, this`macToIp
    {
      && (forall key :: key in weights ==> 1 <= weights[key])
      && ofctls == switches
      && macToIp.Keys == hosts.Keys
      && (forall m :: m in hosts ==> macToIp[m] == hosts[m].ip)
    }

    /** What holds between handlers: the adjacency is rebuilt from the links, and the flow entries are current. */
    ghost predicate Valid()
      reads this
    {
      HostTables() && adjacency == Rebuild(links) && State().Sound(cfg, weights)
    }

    /** The hosts that get entries. */
    ghost function Routed(): set<Mac>
      reads this`hosts
    {
      set m | m in hosts && Served(cfg, hosts, m)
    }

    /** `__init__`: only the gateway addresses are known. */
    constructor (entries: seq<WeightEntry>, algorithm: Algorithm, cfg: Config)
      requires forall e :: e in entries ==> 1 <= e.weight
      ensures Valid() && State() == Initial(cfg)
      ensures hosts == map[] && switches == {} && links == [] && tables == map[]
      ensures ipToMac.Keys == {cfg.controllerIp, cfg.externalIp} && ipToMac.Values == {cfg.controllerMac}
      ensures this.weights == Loaded(entries) && this.algorithm == algorithm && this.cfg == cfg
    {
      var weights := LoadWeights(entries);
      LoadedArePositive(entries);
      hosts, switches, ofctls, links, adjacency := map[], {}, {}, [], map[];
      macToIp, portToMac, tables := map[], map[], map[];
      ipToMac := map[cfg.controllerIp := cfg.controllerMac][cfg.externalIp := cfg.controllerMac];
      this.weights, this.algorithm, this.cfg := weights, algorithm, cfg;
    }

    method UpdateTopology()
      requires HostTables() && LinksWithin(links, switches)
      modifies this`adjacency
      ensures adjacency == Rebuild(links) && Net().Valid()
    {
      adjacency := map[];
      var i := 0;
      while i < |links|
        invariant 0 <= i <= |links| && adjacency == Rebuild(links[..i])
      {
        var l := links[i];
        adjacency := Put(Put(adjacency, l.src, l.dst, l.srcPort), l.dst, l.src, l.dstPort);
        i := i + 1;
        assert links[..i][..i - 1] == links[..i - 1];
      }
      assert links[..i] == links;
      RebuiltNetIsValid(Net(), links);
    }

    /** The inner loop of `_install_host_flows`: one host, every switch. */
    method InstallOneHost(m: Mac, ghost tables0: map<Dpid, Table>, ghost done: set<Mac>)
      requires Net().Valid() && ofctls == switches && m in Routed() && m !in done && done <= hosts.Keys
      requires OnlyChanges(tables0, tables, switches, Routed())
      requires forall m' :: m' in done ==> HostCurrent(Net(), tables, m', hosts[m'])
      modifies this`tables
      ensures OnlyChanges(tables0, tables, switches, Routed())
      ensures forall m' :: m' in done + {m} ==> HostCurrent(Net(), tables, m', hosts[m'])
    {
      hide OnlyChanges, EntryCurrent, Holds, IsTreeOf, HopOfTree, IsNextHop, SetHostFlows, Served, Graph.Net.Delta,
           Rebuild;
      var g, h := Net(), hosts[m];
      var order := CurrentOrder(g);
      var todo := switches;
      while todo != {}
        invariant todo <= switches
        invariant OnlyChanges(tables0, tables, switches, Routed())
        invariant forall m', s :: m' in done && s in switches ==> EntryCurrent(g, tables, s, m', hosts[m'])
        invariant forall s :: s in switches - todo ==> EntryCurrent(g, tables, s, m, h)
        decreases todo
      {
        var s :| s in todo;
        todo := todo - {s};
        var port := Some(h.port);
        if s != h.dpid {
          var hop, _, _ := GetNextHop(g, algorithm, order, s, h.dpid);
          port := hop;
        }
        if port.Some? && s in ofctls {
          forall m', s' | m' in hosts && s' in switches && EntryCurrent(g, tables, s', m', hosts[m']) &&
            (s' != s || m' != m)
            ensures EntryCurrent(g, SetHostFlows(tables, s, m, port.value), s', m', hosts[m'])
          {
            OthersStayCurrent(g, tables, s, m, port.value, s', m', hosts[m']);
          }
          SetHostFlowsEffect(tables, tables0, switches, Routed(), s, m, port.value);
          tables := SetHostFlows(tables, s, m, port.value);
        }
        EntryWritten(g, tables, s, m, h, port);
      }
    }

    method InstallHostFlows()
      requires Net().Valid() && ofctls == switches
      modifies this`tables
      ensures FlowsCurrent(Net(), hosts, tables, cfg)
      ensures OnlyChanges(old(tables), tables, switches, Routed())
      ensures forall m :: m in hosts && (Inside(cfg, hosts[m].ip) || hosts[m].ip == cfg.externalIp) ==>
                HostCurrent(Net(), tables, m, hosts[m])
      ensures (forall x :: x in hosts ==> !Inside(cfg, hosts[x].ip)) ==>
                forall m :: m in hosts ==> HostCurrent(Net(), tables, m, hosts[m])
      ensures (exists x :: x in hosts && Inside(cfg, hosts[x].ip)) ==>
                forall m, s, t :: m in hosts && !Inside(cfg, hosts[m].ip) && hosts[m].ip != cfg.externalIp ==>
                  SameEntry(old(tables), tables, s, FlowKey(t, m))
    {
      hide Inside;
      var todo := hosts.Keys;
      ghost var done := {};
      while todo != {}
        invariant todo <= hosts.Keys && done <= hosts.Keys && done !! todo
        invariant forall m :: m in hosts && m !in todo && m !in done ==> !Served(cfg, hosts, m)
        invariant OnlyChanges(old(tables), tables, switches, Routed())
        invariant forall m :: m in done ==> HostCurrent(Net(), tables, m, hosts[m])
        decreases todo
      {
        var m :| m in todo;
        todo := todo - {m};
        SkippedIffNotServed(cfg, hosts, m);
        if !Skipped(cfg, hosts, m) {
          InstallOneHost(m, old(tables), done);
          done := done + {m};
        }
      }
    }

    // -------------------------------------------------------------- parts that handlers share

    /** `_install_host_flows` when the adjacency is up to date. */
    method Reinstall()
      requires HostTables() && adjacency == Rebuild(links) && LinksWithin(links, switches)
      modifies this`tables
      ensures Valid() && Reinstalled(cfg, old(tables), State())
    {
      hide OnlyChanges, FlowsCurrent;
      RebuiltNetIsValid(Net(), links);
      InstallHostFlows();
      assert State().Routed(cfg) == Routed();
    }

    /** `links := ...; _update_topology(); _install_host_flows()`, the tail of every link handler. */
    method ReplaceLinks(links': seq<Link>)
      requires HostTables() && LinksWithin(links', switches)
      modifies this`links, this`adjacency, this`tables
      ensures Valid() && links == links' && Reinstalled(cfg, old(tables), State())
    {
      links := links';
      UpdateTopology();
      Reinstall();
    }

    /** Pop the given hosts and their address entries. */
    method RemoveHosts(ms: set<Mac>)
      requires ms <= hosts.Keys && hosts.Keys == macToIp.Keys
      modifies this`hosts, this`ipToMac, this`macToIp
      ensures hosts == old(hosts) - ms && macToIp == old(macToIp) - ms
      ensures ipToMac == old(ipToMac) - IpsOf(old(hosts), ms)
    {
      var todo := ms;
      while todo != {}
        invariant todo <= ms
        invariant hosts == old(hosts) - (ms - todo) && macToIp == old(macToIp) - (ms - todo)
        invariant ipToMac == old(ipToMac) - IpsOf(old(hosts), ms - todo)
        decreases todo
      {
        var m :| m in todo;
        assert IpsOf(old(hosts), ms - (todo - {m})) == IpsOf(old(hosts), ms - todo) + {hosts[m].ip};
        ipToMac := ipToMac - {hosts[m].ip};
        hosts, macToIp := hosts - {m}, macToIp - {m};
        todo := todo - {m};
      }
      assert ms - todo == ms;
    }

    /** The update shared by the host-add handler and ARP registration. */
    method RegisterHost(mac: Mac, ip: Ip, dpid: Dpid, port: Port)
      requires Valid()
      modifies this`hosts, this`ipToMac, this`macToIp, this`portToMac, this`tables
      ensures Valid() && State() == Registered(old(State()), mac, ip, (dpid, port)).(tables := tables)
      ensures Reinstalled(cfg, old(tables), State())
    {
      hosts := hosts[mac := Host(ip, dpid, port)];
      ipToMac, macToIp := ipToMac[ip := mac], macToIp[mac := ip];
      portToMac := portToMac[(dpid, port) := mac];
      Reinstall();
    }

    /** A port going away: `EventPortModify` with the port down, and `OFPPR_DELETE`. */
    method RemovePort(dpid: Dpid, port: Port)
      requires Valid()
      modifies this`hosts, this`links, this`adjacency, this`ipToMac, this`macToIp, this`portToMac, this`tables
      ensures Valid() && State() == PortGone(old(State()), dpid, port).(tables := tables)
      ensures Reinstalled(cfg, old(tables), State())
    {
      hide FlowsCurrent, Reinstalled, Keep;
      var kept := Keep(links, (l: Link) => UsesPort(l, dpid, port));
      var gone := set m | m in hosts && hosts[m].dpid == dpid && hosts[m].port == port;
      KeepWithin(links, (l: Link) => UsesPort(l, dpid, port), switches, switches);
      RemoveHosts(gone);
      if gone != {} {
        portToMac := portToMac - {(dpid, port)};
      }
      ReplaceLinks(kept);
    }

    // -------------------------------------------------------------- handlers

    /** `_install_table_miss` and the `EventSwitchEnter` handler; the switch arrives holding `table`. */
    method HandleSwitchAdd(dpid: Dpid, table: Table)
      requires Valid()
      modifies this`switches, this`ofctls, this`tables
      ensures Valid() && Steps(cfg, old(State()), SwitchEnter(dpid, table), State())
    {
      tables := tables[dpid := table];
      ofctls, switches := ofctls + {dpid}, switches + {dpid};
      Reinstall();
    }

    method HandleSwitchDelete(dpid: Dpid)
      requires Valid()
      modifies this`hosts, this`switches, this`ofctls, this`links, this`adjacency, this`ipToMac, this`macToIp,
               this`portToMac, this`tables
      ensures Valid() && Steps(cfg, old(State()), SwitchLeave(dpid), State())
    {
      hide Reinstalled, FlowsCurrent, Keep;
      KeepWithin(links, (l: Link) => l.src == dpid || l.dst == dpid, switches, switches - {dpid});
      switches, ofctls := switches - {dpid}, ofctls - {dpid};
      var gone := set m | m in hosts && hosts[m].dpid == dpid;
      RemoveHosts(gone);
      portToMac := map k | k in portToMac && portToMac[k] !in gone :: portToMac[k];
      ReplaceLinks(Keep(links, (l: Link) => l.src == dpid || l.dst == dpid));
    }

    method HandleHostAdd(mac: Option<Mac>, ip: Option<Ip>, at: Option<(Dpid, Port)>)
      requires Valid()
      modifies this`hosts, this`ipToMac, this`macToIp, this`portToMac, this`tables
      ensures Valid() && Steps(cfg, old(State()), HostAdd(mac, ip, at), State())
    {
      if mac.Some? && ip.Some? && ip != Some(0) && at.Some? {
        RegisterHost(mac.value, ip.value, at.value.0, at.value.1);
      }
    }

    method RegisterArpHost(mac: Option<Mac>, ip: Option<Ip>, dpid: Dpid, port: Port)
      requires Valid()
      modifies this`hosts, this`ipToMac, this`macToIp, this`portToMac, this`tables
      ensures Valid() && Steps(cfg, old(State()), ArpSeen(mac, ip, dpid, port), State())
    {
      if mac.None? || ip.None? || ip == Some(0) {
        return;
      }
      if mac.value == cfg.controllerMac {
        return;
      }
      if ip.value in ipToMac && mac.value in hosts && hosts[mac.value].dpid == dpid {
        return;
      }
      RegisterHost(mac.value, ip.value, dpid, port);
    }

    method HandleLinkAdd(link: Link)
      requires Valid() && Admissible(switches, LinkAdd(link))
      modifies this`links, this`adjacency, this`tables
      ensures Valid() && Steps(cfg, old(State()), LinkAdd(link), State())
    {
      ReplaceLinks(links + [link]);
    }

    method HandleLinkDelete(srcDpid: Dpid, dstDpid: Dpid)
      requires Valid()
      modifies this`links, this`adjacency, this`tables
      ensures Valid() && Steps(cfg, old(State()), LinkDelete(srcDpid, dstDpid), State())
    {
      hide Reinstalled, FlowsCurrent, Keep;
      KeepWithin(links, (l: Link) => l.src == srcDpid && l.dst == dstDpid, switches, switches);
      ReplaceLinks(Keep(links, (l: Link) => l.src == srcDpid && l.dst == dstDpid));
    }

    method HandlePortModify(dpid: Dpid, port: Port, down: bool)
      requires Valid()
      modifies this`hosts, this`links, this`adjacency, this`ipToMac, this`macToIp, this`portToMac, this`tables
      ensures Valid() && Steps(cfg, old(State()), PortModify(dpid, port, down), State())
    {
      if down {
        RemovePort(dpid, port);
      }
    }

    /** `EventOFPPortStatus`: a link-down report drops links only, a deleted port drops hosts too. */
    method HandlePortStatus(reason: PortReason, dpid: Dpid, port: Port, down: bool)
      requires Valid()
      modifies this`hosts, this`links, this`adjacency, this`ipToMac, this`macToIp, this`portToMac, this`tables
      ensures Valid() && Steps(cfg, old(State()), PortStatus(reason, dpid, port, down), State())
    {
      hide Reinstalled, FlowsCurrent, Keep;
      match reason
      case PortModified =>
        if down {
          KeepWithin(links, (l: Link) => UsesPort(l, dpid, port), switches, switches);
          ReplaceLinks(Keep(links, (l: Link) => UsesPort(l, dpid, port)));
        }
      case PortDeleted =>
        RemovePort(dpid, port);
      case PortAdded =>
    }

    /** The probe branch of `packet_in_handler`: a probe sent from (src, srcPort) arrived at (local, inPort). */
    method HandleProbe(local: Dpid, inPort: Port, src: Dpid, srcPort: Port)
      requires Valid() && Admissible(switches, TopologySteps.Probe(local, inPort, src, srcPort))
      modifies this`links, this`adjacency, this`tables
      ensures Valid() && Steps(cfg, old(State()), TopologySteps.Probe(local, inPort, src, srcPort), State())
    {
      hide Reinstalled, FlowsCurrent;
      var i := 0;
      while i < |links| && !SamePair(links[i], local, src)
        invariant 0 <= i <= |links| && FirstBetween(links, local, src) == i + FirstBetween(links[i..], local, src)
      {
        assert links[i..][1..] == links[i + 1..];
        i := i + 1;
      }
      assert i == FirstBetween(links, local, src);
      var probed := ProbedLinks(links, local, inPort, src, srcPort);
      if i == |links| {
        ReplaceLinks(probed);
      } else if probed[i] != links[i] {
        ReplaceLinks(probed);
      } else {
        assert probed == links;
        UpdateTopology();
      }
    }

    // -------------------------------------------------------------- runs

    method Dispatch(ev: Event)
      requires Valid() && Admissible(switches, ev)
      modifies this
      ensures Valid() && Steps(cfg, old(State()), ev, State())
    {
      hide Steps, State;
      match ev
      case SwitchEnter(dpid, table) => HandleSwitchAdd(dpid, table);
      case SwitchLeave(dpid) => HandleSwitchDelete(dpid);
      case HostAdd(mac, ip, at) => HandleHostAdd(mac, ip, at);
      case LinkAdd(link) => HandleLinkAdd(link);
      case LinkDelete(s, d) => HandleLinkDelete(s, d);
      case PortModify(dpid, port, down) => HandlePortModify(dpid, port, down);
      case PortStatus(reason, dpid, port, down) => HandlePortStatus(reason, dpid, port, down);
      case Probe(local, inPort, src, srcPort) => HandleProbe(local, inPort, src, srcPort);
      case ArpSeen(mac, ip, dpid, inPort) => RegisterArpHost(mac, ip, dpid, inPort);
    }
  }

  /**
  Any run of admissible events from a fresh controller takes one step per event, and every state on the way is sound:
  links join connected switches and the entries are current.
  */
  method Run(entries: seq<WeightEntry>, algorithm: Algorithm, cfg: Config, events: seq<Event>)
    returns (app: ControllerApp, handled: nat, ghost states: seq<Snapshot>)
    requires forall e :: e in entries ==> 1 <= e.weight
    ensures fresh(app) && app.Valid() && app.cfg == cfg && app.weights == Loaded(entries)
    ensures |states| == handled + 1 && IsRun(cfg, events, states) && states[handled] == app.State()
    ensures forall i :: 0 <= i <= handled ==> states[i].Sound(cfg, Loaded(entries))
    ensures handled <= |events| && (handled < |events| ==> !Admissible(app.switches, events[handled]))
  {
    hide Steps, Snapshot.Sound;
    app := new ControllerApp(entries, algorithm, cfg);
    handled, states := 0, [app.State()];
    while handled < |events| && Admissible(app.switches, events[handled])
      invariant handled <= |events| && fresh(app) && app.Valid() && app.cfg == cfg && app.weights == Loaded(entries)
      invariant |states| == handled + 1 && IsRun(cfg, events, states) && states[handled] == app.State()
      invariant forall i :: 0 <= i <= handled ==> states[i].Sound(cfg, Loaded(entries))
    {
      app.Dispatch(events[handled]);
      states := states + [app.State()];
      handled := handled + 1;
    }
  }
}
