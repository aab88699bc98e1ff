/**
The topology state machine of controller.py: the controller's tables, the handlers that
change them, and the flow entries they install in the switches.
*/
module Topology {
  import opened Wrappers
  import opened Bytes
  import opened Graph
  import opened Paths
  import OpenFlow

  type Mac = nat

  datatype Link = Link(src: Dpid, dst: Dpid, srcPort: Port, dstPort: Port)
  datatype Host = Host(ip: Ip, dpid: Dpid, port: Port)

  /** The match of a host entry: EtherType and destination address. Priority and cookie are the same for all. */
  datatype EtherType = EtherIp | EtherArp
  datatype FlowKey = FlowKey(etherType: EtherType, dlDst: Mac)
  type Table = map<FlowKey, Port>

  datatype Config = Config(startIp: Ip, netmask: Ip, externalIp: Ip, controllerIp: Ip, controllerMac: Mac)

  // ---------------------------------------------------------------- links and adjacency

  predicate Joins(l: Link, u: Dpid, v: Dpid) {
    (l.src == u && l.dst == v) || (l.dst == u && l.src == v)
  }

  /** The port of u that a link joining u and v occupies. */
  function PortTowards(l: Link, u: Dpid, v: Dpid): Port {
    if l.dst == u && l.src == v then l.dstPort else l.srcPort
  }

  function Put(adj: map<Dpid, map<Dpid, Port>>, u: Dpid, v: Dpid, p: Port): map<Dpid, map<Dpid, Port>> {
    adj[u := (if u in adj then adj[u] else map[])[v := p]]
  }

  function Rebuild(links: seq<Link>): map<Dpid, map<Dpid, Port>> {
    if links == [] then map[]
    else
      var l := links[|links| - 1];
      Put(Put(Rebuild(links[..|links| - 1]), l.src, l.dst, l.srcPort), l.dst, l.src, l.dstPort)
  }

  /** The port of u towards v according to the latest link joining them. */
  function LastPort(links: seq<Link>, u: Dpid, v: Dpid): Option<Port> {
    if links == [] then None
    else if Joins(links[|links| - 1], u, v) then Some(PortTowards(links[|links| - 1], u, v))
    else LastPort(links[..|links| - 1], u, v)
  }

  function PortIn(adj: map<Dpid, map<Dpid, Port>>, u: Dpid, v: Dpid): Option<Port> {
    if u in adj && v in adj[u] then Some(adj[u][v]) else None
  }

  /** The adjacency is the symmetric closure of the links, with the ports of the latest link of each pair. */
  lemma {:induction false} RebuildIsLastPort(links: seq<Link>, u: Dpid, v: Dpid)
    ensures PortIn(Rebuild(links), u, v) == LastPort(links, u, v)
  {
    if links != [] {
      RebuildIsLastPort(links[..|links| - 1], u, v);
    }
  }

  lemma {:induction false} LastPortComesFromLink(links: seq<Link>, u: Dpid, v: Dpid)
    ensures LastPort(links, u, v).Some? <==> exists l :: l in links && Joins(l, u, v)
    ensures LastPort(links, u, v).Some? ==>
      exists l :: l in links && Joins(l, u, v) && LastPort(links, u, v).value == PortTowards(l, u, v)
  {
    if links != [] {
      var l, rest := links[|links| - 1], links[..|links| - 1];
      LastPortComesFromLink(rest, u, v);
      assert l in links;
      assert forall x :: x in links <==> x == l || x in rest by { assert links == rest + [l]; }
    }
  }

  /** Adjacency is exactly the symmetric relation rebuilt from the links. */
  lemma AdjacencyIsSymmetricClosure(links: seq<Link>, u: Dpid, v: Dpid)
    ensures PortIn(Rebuild(links), u, v).Some? <==> exists l :: l in links && Joins(l, u, v)
    ensures PortIn(Rebuild(links), u, v).Some? <==> PortIn(Rebuild(links), v, u).Some?
  {
    RebuildIsLastPort(links, u, v);
    RebuildIsLastPort(links, v, u);
    LastPortComesFromLink(links, u, v);
    LastPortComesFromLink(links, v, u);
    assert forall l :: Joins(l, u, v) <==> Joins(l, v, u);
  }

  ghost predicate LinksWithin(links: seq<Link>, switches: set<Dpid>) {
    forall l :: l in links ==> l.src in switches && l.dst in switches
  }

  lemma RebuiltNetIsValid(g: Net, links: seq<Link>)
    requires g.adjacency == Rebuild(links) && LinksWithin(links, g.switches)
    requires forall key :: key in g.weights ==> 1 <= g.weights[key]
    ensures g.Valid()
  {
    forall u, v | g.Edge(u, v) ensures u in g.switches && v in g.switches {
      assert PortIn(g.adjacency, u, v).Some?;
      AdjacencyIsSymmetricClosure(links, u, v);
    }
  }

  // ---------------------------------------------------------------- which hosts get entries

  function Mask(prefix: nat): Ip {
    var zeros := if prefix >= 32 then 0 else 32 - prefix;
    OpenFlow.ThirtyTwoBits(zeros);
    0x1_0000_0000 - OpenFlow.Pow2(zeros)
  }

  /** `_ip_in_network` */
  predicate InNetwork(ip: Ip, net: Ip, prefix: nat) {
    OpenFlow.And(32, Mask(prefix), ip) == OpenFlow.And(32, Mask(prefix), net)
  }

  /** Masking compares the leading bits, however many the prefix says. */
  lemma InNetworkIff(ip: Ip, net: Ip, prefix: nat)
    requires prefix <= 32
    ensures InNetwork(ip, net, prefix) <==> OpenFlow.Agree(ip, net, 32 - prefix)
  {
    hide OpenFlow.And, OpenFlow.Pow2;
    var k := OpenFlow.Pow2(32 - prefix);
    OpenFlow.ThirtyTwoBits(32 - prefix);
    OpenFlow.AndMask(32, 32 - prefix, ip);
    OpenFlow.AndMask(32, 32 - prefix, net);
    hide *;
    SameMultiple(k, ip / k, net / k);
  }

  lemma SameMultiple(k: nat, a: nat, b: nat)
    requires k > 0
    ensures k * a == k * b <==> a == b
  {
    assert k * a - k * b == k * (a - b);
    OpenFlow.Spread(k, a - b);
  }

  /** `_dhcp_network`: the start address under the mask, and the number of ones in the mask. */
  function DhcpNetwork(cfg: Config): (Ip, nat) {
    OpenFlow.ThirtyTwoBits(0);
    (OpenFlow.And(32, cfg.netmask, cfg.startIp), OpenFlow.Ones(32, cfg.netmask))
  }

  predicate InDhcp(cfg: Config, ip: Ip) {
    InNetwork(ip, DhcpNetwork(cfg).0, DhcpNetwork(cfg).1)
  }

  predicate AnyInDhcp(cfg: Config, hosts: map<Mac, Host>) {
    exists m :: m in hosts && InDhcp(cfg, hosts[m].ip)
  }

  /** The test of `_install_host_flows`: external hosts are left to NAT. */
  predicate Skipped(cfg: Config, hosts: map<Mac, Host>, m: Mac)
    requires m in hosts
  {
    AnyInDhcp(cfg, hosts) && !InDhcp(cfg, hosts[m].ip) && hosts[m].ip != cfg.externalIp
  }

  /** The address has the leading bits of the DHCP network. */
  predicate Inside(cfg: Config, ip: Ip) {
    OpenFlow.Agree(ip, DhcpNetwork(cfg).0, 32 - DhcpNetwork(cfg).1)
  }

  /**
  Who is to get entries: hosts inside the DHCP network and the NAT address, and everybody as long as nobody is inside.
  */
  predicate Served(cfg: Config, hosts: map<Mac, Host>, m: Mac) {
    && m in hosts
    && (Inside(cfg, hosts[m].ip) || hosts[m].ip == cfg.externalIp || forall x :: x in hosts ==>
        !Inside(cfg, hosts[x].ip))
  }

  /** The test skips exactly the hosts that are not to be served. */
  lemma SkippedIffNotServed(cfg: Config, hosts: map<Mac, Host>, m: Mac)
    requires m in hosts
    ensures Skipped(cfg, hosts, m) <==> !Served(cfg, hosts, m)
  {
    forall x | x in hosts ensures InDhcp(cfg, hosts[x].ip) <==> Inside(cfg, hosts[x].ip) {
      InNetworkIff(hosts[x].ip, DhcpNetwork(cfg).0, DhcpNetwork(cfg).1);
    }
    hide InDhcp, Inside;
  }

  /** With an ordinary netmask of `prefix` ones, inside means to agree with the start address on `prefix` bits. */
  lemma InsideIffAgrees(cfg: Config, prefix: nat, ip: Ip)
    requires prefix <= 32 && cfg.netmask == Mask(prefix)
    ensures DhcpNetwork(cfg).1 == prefix && (Inside(cfg, ip) <==> OpenFlow.Agree(ip, cfg.startIp, 32 - prefix))
  {
    hide OpenFlow.And, OpenFlow.Pow2, OpenFlow.Ones, OpenFlow.Agree;
    var k := 32 - prefix;
    OpenFlow.ThirtyTwoBits(k);
    OpenFlow.OnesOfMask(32, k);
    OpenFlow.AndMask(32, k, cfg.startIp);
    OpenFlow.AgreeWithMasked(ip, cfg.startIp, DhcpNetwork(cfg).0, k);
  }

  // ---------------------------------------------------------------- what the tables must hold

  predicate Holds(tables: map<Dpid, Table>, s: Dpid, m: Mac, port: Port) {
    && s in tables
    && FlowKey(EtherIp, m) in tables[s] && tables[s][FlowKey(EtherIp, m)] == port
    && FlowKey(EtherArp, m) in tables[s] && tables[s][FlowKey(EtherArp, m)] == port
  }

  /** The entries of switch s for host m lead towards it along a shortest path of the current graph. */
  ghost predicate EntryCurrent(g: Net, tables: map<Dpid, Table>, s: Dpid, m: Mac, h: Host) {
    && (s == h.dpid ==> Holds(tables, s, m, h.port))
    && (s != h.dpid && g.Delta(s, h.dpid).Fin? ==>
          exists port :: IsNextHop(g, s, h.dpid, port) && Holds(tables, s, m, port))
  }

  ghost predicate HostCurrent(g: Net, tables: map<Dpid, Table>, m: Mac, h: Host) {
    forall s :: s in g.switches ==> EntryCurrent(g, tables, s, m, h)
  }

  /** Every reachable (switch, host) pair of a host to be served holds an entry computed from the current state. */
  ghost predicate FlowsCurrent(g: Net, hosts: map<Mac, Host>, tables: map<Dpid, Table>, cfg: Config) {
    forall m :: Served(cfg, hosts, m) ==> HostCurrent(g, tables, m, hosts[m])
  }

  predicate SameEntry(tables: map<Dpid, Table>, tables': map<Dpid, Table>, s: Dpid, key: FlowKey) {
    (s in tables && key in tables[s]) == (s in tables' && key in tables'[s]) &&
    (s in tables && key in tables[s] && s in tables' ==> key in tables'[s] && tables[s][key] == tables'[s][key])
  }

  /** Nothing is deleted, and only entries for the hosts in ms on the given switches may differ. */
  ghost predicate OnlyChanges(tables: map<Dpid, Table>, tables': map<Dpid, Table>, switches: set<Dpid>, ms: set<Mac>) {
    && (forall s: Dpid, key: FlowKey :: s !in switches || key.dlDst !in ms ==> SameEntry(tables, tables', s, key))
    && (forall s: Dpid, key: FlowKey :: s in tables && key in tables[s] ==> s in tables' && key in tables'[s])
  }

  function SetFlow(tables: map<Dpid, Table>, s: Dpid, key: FlowKey, port: Port): map<Dpid, Table> {
    tables[s := (if s in tables then tables[s] else map[])[key := port]]
  }

  /** The pair of entries `_install_host_flows` sends; `OFPFC_ADD` replaces an identical match. */
  function SetHostFlows(tables: map<Dpid, Table>, s: Dpid, m: Mac, port: Port): map<Dpid, Table> {
    SetFlow(SetFlow(tables, s, FlowKey(EtherIp, m), port), s, FlowKey(EtherArp, m), port)
  }

  lemma SetHostFlowsEffect(tables: map<Dpid, Table>, tables0: map<Dpid, Table>, switches: set<Dpid>, ms: set<Mac>,
                           s: Dpid, m: Mac, port: Port)
    requires OnlyChanges(tables0, tables, switches, ms) && s in switches && m in ms
    ensures Holds(SetHostFlows(tables, s, m, port), s, m, port)
    ensures OnlyChanges(tables0, SetHostFlows(tables, s, m, port), switches, ms)
  {
    var tables' := SetHostFlows(tables, s, m, port);
    forall s': Dpid, key: FlowKey | s' !in switches || key.dlDst !in ms
      ensures SameEntry(tables0, tables', s', key)
    {
      assert SameEntry(tables0, tables, s', key);
    }
  }

  /** Writing the entries of one (switch, host) pair leaves every other pair current. */
  lemma OthersStayCurrent(g: Net, tables: map<Dpid, Table>, s: Dpid, m: Mac, port: Port, s': Dpid, m': Mac, h': Host)
    requires EntryCurrent(g, tables, s', m', h') && (s' != s || m' != m)
    ensures EntryCurrent(g, SetHostFlows(tables, s, m, port), s', m', h')
  {
  }

  lemma EntryWritten(g: Net, tables: map<Dpid, Table>, s: Dpid, m: Mac, h: Host, port: Option<Port>)
    requires if s == h.dpid then port == Some(h.port) else
               (port.Some? <==> g.Delta(s, h.dpid).Fin?) && (port.Some? ==> IsNextHop(g, s, h.dpid, port.value))
    requires port.Some? ==> Holds(tables, s, m, port.value)
    ensures EntryCurrent(g, tables, s, m, h)
  {
  }
}
