/**
What each topology event does to the controller's tables and to the host entries in the switches, as a relation between
the state before and after its handler.
*/
module TopologySteps {
  import opened Wrappers
  import opened Bytes
  import opened Graph
  import opened Topology

  datatype PortReason = PortAdded | PortDeleted | PortModified

  /** What the environment can deliver. Switch features and `EventSwitchEnter` are one step. */
  datatype Event =
    | SwitchEnter(dpid: Dpid, table: Table)
    | SwitchLeave(dpid: Dpid)
    | HostAdd(mac: Option<Mac>, ip: Option<Ip>, at: Option<(Dpid, Port)>)
    | LinkAdd(link: Link)
    | LinkDelete(srcDpid: Dpid, dstDpid: Dpid)
    | PortModify(dpid: Dpid, port: Port, down: bool)
    | PortStatus(reason: PortReason, dpid: Dpid, port: Port, down: bool)
    | Probe(local: Dpid, inPort: Port, src: Dpid, srcPort: Port)
    | ArpSeen(mac: Option<Mac>, ip: Option<Ip>, dpid: Dpid, inPort: Port)

  /** l uses the given switch port at one of its ends. */
  predicate UsesPort(l: Link, d: Dpid, p: Port) {
    (l.src == d && l.srcPort == p) || (l.dst == d && l.dstPort == p)
  }

  /** The list comprehensions of the handlers: keep the links that do not satisfy a condition, in order. */
  function Keep(links: seq<Link>, drop: Link -> bool): (r: seq<Link>)
    ensures forall l :: l in r <==> l in links && !drop(l)
  {
    if links == [] then []
    else if drop(links[|links| - 1]) then Keep(links[..|links| - 1], drop)
    else Keep(links[..|links| - 1], drop) + [links[|links| - 1]]
  }

  /**
  `kept` is the subsequence of `links` at the positions `at`, which are exactly those that do not satisfy the
  condition.
  */
  ghost predicate Picks(links: seq<Link>, drop: Link -> bool, kept: seq<Link>, at: seq<nat>) {
    && |at| == |kept|
    && (forall k :: 0 <= k < |at| ==> at[k] < |links| && kept[k] == links[at[k]])
    && (forall j, k :: 0 <= j < k < |at| ==> at[j] < at[k])
    && (forall i: nat :: i < |links| ==> (i in at <==> !drop(links[i])))
  }

  lemma PicksDropped(links: seq<Link>, drop: Link -> bool, kept: seq<Link>, at: seq<nat>, l: Link)
    requires Picks(links, drop, kept, at) && drop(l)
    ensures Picks(links + [l], drop, kept, at)
  {
  }

  lemma PicksKept(links: seq<Link>, drop: Link -> bool, kept: seq<Link>, at: seq<nat>, l: Link)
    requires Picks(links, drop, kept, at) && !drop(l)
    ensures Picks(links + [l], drop, kept + [l], at + [|links|])
  {
    var n := |links|;
    forall i: nat | i < n + 1 ensures i in at + [n] <==> !drop((links + [l])[i]) {
      if i == n {
        assert (at + [n])[|at|] == n;
      } else {
        assert i in at + [n] <==> i in at;
      }
    }
  }

  lemma {:induction false} KeepPicks(links: seq<Link>, drop: Link -> bool) returns (at: seq<nat>)
    ensures Picks(links, drop, Keep(links, drop), at)
  {
    at := [];
    if links != [] {
      var l, rest := links[|links| - 1], links[..|links| - 1];
      at := KeepPicks(rest, drop);
      hide Picks;
      if drop(l) {
        PicksDropped(rest, drop, Keep(rest, drop), at, l);
      } else {
        PicksKept(rest, drop, Keep(rest, drop), at, l);
        at := at + [|rest|];
      }
      assert rest + [l] == links;
    }
  }

  lemma KeepWithin(links: seq<Link>, drop: Link -> bool, switches: set<Dpid>, remaining: set<Dpid>)
    requires LinksWithin(links, switches)
    requires forall l :: l in links && !drop(l) && l.src in switches && l.dst in switches ==>
             l.src in remaining && l.dst in remaining
    ensures LinksWithin(Keep(links, drop), remaining)
  {
  }

  predicate SamePair(l: Link, a: Dpid, b: Dpid) {
    (if l.src <= l.dst then (l.src, l.dst) else (l.dst, l.src)) == (if a <= b then (a, b) else (b, a))
  }

  /** The index of the first link between a and b, |links| if there is none. */
  function FirstBetween(links: seq<Link>, a: Dpid, b: Dpid): (i: nat)
    ensures i <= |links|
    ensures i < |links| ==> SamePair(links[i], a, b)
    ensures forall j :: 0 <= j < i ==> !SamePair(links[j], a, b)
  {
    if links == [] || SamePair(links[0], a, b) then 0 else 1 + FirstBetween(links[1..], a, b)
  }

  /** A probed link with the ports the probe observed. */
  function WithProbedPorts(l: Link, src: Dpid, srcPort: Port, localPort: Port): Link {
    if l.src == src then l.(srcPort := srcPort, dstPort := localPort)
    else l.(srcPort := localPort, dstPort := srcPort)
  }

  function ProbedLinks(links: seq<Link>, local: Dpid, inPort: Port, src: Dpid, srcPort: Port): seq<Link> {
    var i := FirstBetween(links, local, src);
    if i < |links| then links[i := WithProbedPorts(links[i], src, srcPort, inPort)]
    else links + [Link(src, local, srcPort, inPort)]
  }

  function IpsOf(hosts: map<Mac, Host>, ms: set<Mac>): set<Ip> {
    set m | m in ms && m in hosts :: hosts[m].ip
  }

  // ---------------------------------------------------------------- what each event does

  /** The part of the controller's state that events change, and the host entries in the switches. */
  datatype Snapshot = Snapshot(hosts: map<Mac, Host>, switches: set<Dpid>, links: seq<Link>, ipToMac: map<Ip, Mac>,
                               portToMac: map<(Dpid, Port), Mac>, tables: map<Dpid, Table>)
  {
    /** The hosts that get entries. */
    ghost function Routed(cfg: Config): set<Mac> {
      set m | m in hosts && Served(cfg, hosts, m)
    }

    function NetOf(weights: map<(Dpid, Dpid), nat>): Net {
      Net(switches, Rebuild(links), weights)
    }

    /** Links join connected switches, and every reachable host to be served has current entries everywhere. */
    ghost predicate Sound(cfg: Config, weights: map<(Dpid, Dpid), nat>) {
      LinksWithin(links, switches) && FlowsCurrent(NetOf(weights), hosts, tables, cfg)
    }

    /** No host is attached to a switch that is not connected. */
    ghost predicate Attached() {
      forall m :: m in hosts ==> hosts[m].dpid in switches
    }
  }

  function Initial(cfg: Config): Snapshot {
    Snapshot(map[], {}, [], map[cfg.controllerIp := cfg.controllerMac][cfg.externalIp := cfg.controllerMac], map[],
             map[])
  }

  /**
  The entries of b were recomputed from those in `tables`: only entries of its own hosts, on its own switches, differ.
  */
  ghost predicate Reinstalled(cfg: Config, tables: map<Dpid, Table>, b: Snapshot) {
    OnlyChanges(tables, b.tables, b.switches, b.Routed(cfg))
  }

  function WithoutHosts(a: Snapshot, gone: set<Mac>): Snapshot {
    a.(hosts := a.hosts - gone, ipToMac := a.ipToMac - IpsOf(a.hosts, gone))
  }

  function HostsOn(a: Snapshot, d: Dpid): set<Mac> {
    set m | m in a.hosts && a.hosts[m].dpid == d
  }

  function HostsAt(a: Snapshot, d: Dpid, p: Port): set<Mac> {
    set m | m in a.hosts && a.hosts[m].dpid == d && a.hosts[m].port == p
  }

  function SwitchGone(a: Snapshot, d: Dpid): Snapshot {
    var gone := HostsOn(a, d);
    WithoutHosts(a, gone).(
      switches := a.switches - {d},
      links := Keep(a.links, (l: Link) => l.src == d || l.dst == d),
      portToMac := map k | k in a.portToMac && a.portToMac[k] !in gone :: a.portToMac[k])
  }

  function WithoutPortLinks(a: Snapshot, d: Dpid, p: Port): Snapshot {
    a.(links := Keep(a.links, (l: Link) => UsesPort(l, d, p)))
  }

  function PortGone(a: Snapshot, d: Dpid, p: Port): Snapshot {
    var gone := HostsAt(a, d, p);
    WithoutPortLinks(WithoutHosts(a, gone), d, p).(
      portToMac := if gone == {} then a.portToMac else a.portToMac - {(d, p)})
  }

  function Registered(a: Snapshot, mac: Mac, ip: Ip, at: (Dpid, Port)): Snapshot {
    a.(hosts := a.hosts[mac := Host(ip, at.0, at.1)], ipToMac := a.ipToMac[ip := mac],
       portToMac := a.portToMac[at := mac])
  }

  /** The early returns of `_register_arp_host`. */
  predicate IgnoresArp(cfg: Config, a: Snapshot, mac: Option<Mac>, ip: Option<Ip>, dpid: Dpid) {
    || mac.None? || ip.None? || ip == Some(0) || mac.value == cfg.controllerMac
    || (ip.value in a.ipToMac && mac.value in a.hosts && a.hosts[mac.value].dpid == dpid)
  }

  /** The state after an event but for the entries, None when the handler returns without recomputing them. */
  function Changed(cfg: Config, a: Snapshot, ev: Event): Option<Snapshot> {
    match ev
    case SwitchEnter(d, table) => Some(a.(switches := a.switches + {d}, tables := a.tables[d := table]))
    case SwitchLeave(d) => Some(SwitchGone(a, d))
    case HostAdd(mac, ip, at) =>
      if mac.Some? && ip.Some? && ip != Some(0) && at.Some? then Some(Registered(a, mac.value, ip.value, at.value))
        else None
    case LinkAdd(link) => Some(a.(links := a.links + [link]))
    case LinkDelete(s, d) => Some(a.(links := Keep(a.links, (l: Link) => l.src == s && l.dst == d)))
    case PortModify(d, p, down) => if down then Some(PortGone(a, d, p)) else None
    case PortStatus(reason, d, p, down) =>
      if reason.PortDeleted? then Some(PortGone(a, d, p))
      else if reason.PortModified? && down then Some(WithoutPortLinks(a, d, p))
      else None
    case Probe(local, inPort, src, srcPort) =>
      var links := ProbedLinks(a.links, local, inPort, src, srcPort);
      if links == a.links then None else Some(a.(links := links))
    case ArpSeen(mac, ip, d, p) => if IgnoresArp(cfg, a, mac, ip, d) then None
      else Some(Registered(a, mac.value, ip.value, (d, p)))
  }

  /** One event: nothing happens, or the tables change as specified and the entries are recomputed. */
  ghost predicate Steps(cfg: Config, a: Snapshot, ev: Event, b: Snapshot) {
    match Changed(cfg, a, ev)
    case None => b == a
    case Some(c) => b == c.(tables := b.tables) && Reinstalled(cfg, c.tables, b)
  }

  /** Link and probe events name connected switches; with another name the recomputation raises in the source. */
  predicate Admissible(switches: set<Dpid>, ev: Event) {
    match ev
    case LinkAdd(l) => l.src in switches && l.dst in switches
    case Probe(local, _, src, _) => local in switches && src in switches
    case _ => true
  }

  /** The switch at which an event registers a host. */
  function RegistersAt(cfg: Config, a: Snapshot, ev: Event): Option<Dpid> {
    if Changed(cfg, a, ev).None? then None
    else
      match ev
      case HostAdd(_, _, at) => Some(at.value.0)
      case ArpSeen(_, _, d, _) => Some(d)
      case _ => None
  }

  /** The event registers no host, or one on a switch connected at that time. */
  predicate NamesSwitch(cfg: Config, a: Snapshot, ev: Event) {
    RegistersAt(cfg, a, ev).None? || RegistersAt(cfg, a, ev).value in a.switches
  }

  /** No host names a departed switch, exactly as long as no event registers one there. */
  lemma StepKeepsAttachedIff(cfg: Config, a: Snapshot, ev: Event, b: Snapshot)
    requires a.Attached() && Steps(cfg, a, ev, b)
    ensures b.Attached() <==> NamesSwitch(cfg, a, ev)
  {
    hide Reinstalled, Keep, ProbedLinks;
    match ev
    case HostAdd(mac, ip, at) =>
      if RegistersAt(cfg, a, ev).Some? {
        assert mac.value in b.hosts && b.hosts[mac.value].dpid == at.value.0;
      }
    case ArpSeen(mac, ip, d, p) =>
      if RegistersAt(cfg, a, ev).Some? {
        assert mac.value in b.hosts && b.hosts[mac.value].dpid == d;
      }
    case _ =>
  }

  // ---------------------------------------------------------------- runs

  /** The states of a run: each follows from the one before by the next event. */
  ghost predicate IsRun(cfg: Config, events: seq<Event>, states: seq<Snapshot>) {
    && 1 <= |states| <= |events| + 1 && states[0] == Initial(cfg)
    && forall i :: 0 <= i < |states| - 1 ==>
       Admissible(states[i].switches, events[i]) && Steps(cfg, states[i], events[i], states[i + 1])
  }

  /**
  Every state of a run has its hosts on connected switches exactly when every registration names a switch connected at
  that time.
  */
  lemma {:induction false} RunStaysAttachedIff(cfg: Config, events: seq<Event>, states: seq<Snapshot>, n: nat)
    requires IsRun(cfg, events, states) && n < |states|
    ensures (forall i :: 0 <= i <= n ==> states[i].Attached()) <==>
            (forall i :: 0 <= i < n ==> NamesSwitch(cfg, states[i], events[i]))
  {
    hide Snapshot.Attached, NamesSwitch, Steps;
    if n == 0 {
      NoneAttached(cfg);
    } else {
      RunStaysAttachedIff(cfg, events, states, n - 1);
      if states[n - 1].Attached() {
        StepKeepsAttachedIff(cfg, states[n - 1], events[n - 1], states[n]);
      }
    }
  }

  lemma NoneAttached(cfg: Config)
    ensures Initial(cfg).Attached()
  {
  }
}
