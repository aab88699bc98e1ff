/** What the steps of the topology state machine come to: who has entries, and what is known after each event. */
module TopologyEffects {
  import opened Wrappers
  import opened Bytes
  import opened Graph
  import opened Topology
  import opened TopologySteps

  // ---------------------------------------------------------------- who has entries

  /**
  In a sound state hosts inside the DHCP network and the NAT address have current entries, and all hosts if none is
  inside.
  */
  lemma SoundServes(cfg: Config, weights: map<(Dpid, Dpid), nat>, a: Snapshot, m: Mac)
    requires a.Sound(cfg, weights) && m in a.hosts
    requires || Inside(cfg, a.hosts[m].ip) || a.hosts[m].ip == cfg.externalIp
             || forall x :: x in a.hosts ==> !Inside(cfg, a.hosts[x].ip)
    ensures HostCurrent(a.NetOf(weights), a.tables, m, a.hosts[m])
  {
    hide Inside;
  }

  /**
  As long as some host is inside, no event touches the entries of an outside host, except that a switch arrives with
  its own.
  */
  lemma OutsidersKeepEntries(cfg: Config, a: Snapshot, ev: Event, b: Snapshot, m: Mac, s: Dpid, t: EtherType)
    requires Steps(cfg, a, ev, b) && m in b.hosts && !Inside(cfg, b.hosts[m].ip) && b.hosts[m].ip != cfg.externalIp
    requires exists x :: x in b.hosts && Inside(cfg, b.hosts[x].ip)
    ensures if ev.SwitchEnter? && ev.dpid == s then SameEntry(map[s := ev.table], b.tables, s, FlowKey(t, m))
            else SameEntry(a.tables, b.tables, s, FlowKey(t, m))
  {
    hide Inside, Keep, ProbedLinks;
    assert !Served(cfg, b.hosts, m);
    var c := Changed(cfg, a, ev);
    if c.Some? {
      assert SameEntry(c.value.tables, b.tables, s, FlowKey(t, m));
    }
  }

  // ---------------------------------------------------------------- what is known after each event

  /** A switch that enters is connected, and nothing else changes but entries. */
  lemma EnteredIsConnected(cfg: Config, a: Snapshot, ev: Event, b: Snapshot)
    requires ev.SwitchEnter? && Steps(cfg, a, ev, b)
    ensures b == a.(switches := a.switches + {ev.dpid}, tables := b.tables)
  {
  }

  /**
  Of a switch that left nothing is known: not itself, no link at either end, no host, no address or port of its hosts.
  */
  lemma LeftIsForgotten(cfg: Config, a: Snapshot, ev: Event, b: Snapshot)
    requires ev.SwitchLeave? && Steps(cfg, a, ev, b)
    ensures b.switches == a.switches - {ev.dpid}
    ensures forall l :: l in b.links <==> l in a.links && l.src != ev.dpid && l.dst != ev.dpid
    ensures forall m :: m in b.hosts <==> m in a.hosts && a.hosts[m].dpid != ev.dpid
    ensures forall m :: m in b.hosts ==> b.hosts[m] == a.hosts[m]
    ensures forall m :: m in a.hosts && a.hosts[m].dpid == ev.dpid ==>
              a.hosts[m].ip !in b.ipToMac && forall at :: at in b.portToMac ==> b.portToMac[at] != m
    ensures forall ip :: ip in a.ipToMac && ip !in b.ipToMac ==>
              exists m :: m in a.hosts && a.hosts[m].dpid == ev.dpid && a.hosts[m].ip == ip
  {
    hide Reinstalled;
  }

  /**
  After a host event, or an ARP that is not the controller's own, the host is known where it was seen, and no other
  host moved.
  */
  lemma SeenHostIsKnown(cfg: Config, a: Snapshot, ev: Event, b: Snapshot, mac: Mac, ip: Ip, d: Dpid, p: Port)
    requires Steps(cfg, a, ev, b) && ip != 0
    requires ev == HostAdd(Some(mac), Some(ip), Some((d, p))) ||
             (ev == ArpSeen(Some(mac), Some(ip), d, p) && mac != cfg.controllerMac)
    ensures mac in b.hosts && b.hosts[mac].dpid == d && ip in b.ipToMac
    ensures ev.HostAdd? || b != a ==>
              b.hosts[mac] == Host(ip, d, p) && b.ipToMac[ip] == mac && (d, p) in b.portToMac &&
                b.portToMac[(d, p)] == mac
    ensures b.switches == a.switches && b.links == a.links
    ensures forall m :: m != mac ==> (m in b.hosts <==> m in a.hosts) && (m in a.hosts ==> b.hosts[m] == a.hosts[m])
    ensures forall x :: x != ip ==>
            (x in b.ipToMac <==> x in a.ipToMac) && (x in a.ipToMac ==> b.ipToMac[x] == a.ipToMac[x])
  {
    hide Reinstalled;
  }

  /** A host event that lacks a part changes nothing. */
  lemma IncompleteHostChangesNothing(cfg: Config, a: Snapshot, ev: Event, b: Snapshot)
    requires ev.HostAdd? && Steps(cfg, a, ev, b)
    requires ev.mac.None? || ev.ip.None? || ev.ip.value == 0 || ev.at.None?
    ensures b == a
  {
  }

  /**
  An ARP changes nothing when it is incomplete, the controller's own, or from a known host on the switch it is known
  on.
  */
  lemma KnownArpChangesNothing(cfg: Config, a: Snapshot, ev: Event, b: Snapshot)
    requires ev.ArpSeen? && Steps(cfg, a, ev, b)
    requires || ev.mac.None? || ev.ip.None? || ev.ip.value == 0 || ev.mac.value == cfg.controllerMac
             || (ev.ip.value in a.ipToMac && ev.mac.value in a.hosts && a.hosts[ev.mac.value].dpid == ev.dpid)
    ensures b == a
  {
  }

  /** A link that was added is the current one between its switches, with the ports it came with. */
  lemma AddedLinkIsCurrent(cfg: Config, a: Snapshot, ev: Event, b: Snapshot)
    requires ev.LinkAdd? && Steps(cfg, a, ev, b) && ev.link.src != ev.link.dst
    ensures PortIn(Rebuild(b.links), ev.link.src, ev.link.dst) == Some(ev.link.srcPort)
    ensures PortIn(Rebuild(b.links), ev.link.dst, ev.link.src) == Some(ev.link.dstPort)
    ensures forall l :: l in b.links <==> l in a.links || l == ev.link
  {
    hide Reinstalled, Rebuild;
    RebuildIsLastPort(b.links, ev.link.src, ev.link.dst);
    RebuildIsLastPort(b.links, ev.link.dst, ev.link.src);
  }

  /** Of a deleted link no record in its direction is left; records in the other direction stay. */
  lemma DeletedLinkIsGone(cfg: Config, a: Snapshot, ev: Event, b: Snapshot)
    requires ev.LinkDelete? && Steps(cfg, a, ev, b)
    ensures forall l :: l in b.links <==> l in a.links && (l.src != ev.srcDpid || l.dst != ev.dstDpid)
    ensures b.hosts == a.hosts && b.switches == a.switches
  {
    hide Reinstalled;
  }

  /** The port goes down, or is deleted. */
  predicate TakesPortAway(ev: Event) {
    (ev.PortModify? && ev.down) || (ev.PortStatus? && (ev.reason.PortDeleted? || (ev.reason.PortModified? && ev.down)))
  }

  /**
  After a port is gone no link uses it at either end, and every other link is kept; unless it was only reported down,
  no host is attached to it, and every other host is kept. A port that comes up changes nothing.
  */
  lemma LostPortIsUnused(cfg: Config, a: Snapshot, ev: Event, b: Snapshot)
    requires (ev.PortModify? || ev.PortStatus?) && Steps(cfg, a, ev, b)
    ensures !TakesPortAway(ev) ==> b == a
    ensures TakesPortAway(ev) ==>
              forall l :: l in b.links <==>
                l in a.links && (l.src, l.srcPort) != (ev.dpid, ev.port) && (l.dst, l.dstPort) != (ev.dpid, ev.port)
    ensures TakesPortAway(ev) && !(ev.PortStatus? && ev.reason.PortModified?) ==>
              forall m :: m in b.hosts <==> m in a.hosts && (a.hosts[m].dpid, a.hosts[m].port) != (ev.dpid, ev.port)
    ensures TakesPortAway(ev) && !(ev.PortStatus? && ev.reason.PortModified?) ==>
              forall m :: m in a.hosts && m !in b.hosts ==>
                a.hosts[m].ip !in b.ipToMac && (ev.dpid, ev.port) !in b.portToMac
    ensures forall m :: m in b.hosts ==> m in a.hosts && b.hosts[m] == a.hosts[m]
  {
    hide Reinstalled;
  }

  /** After a probe some record joins its two switches, with the ports that the probe saw. */
  lemma ProbedPairIsRecorded(cfg: Config, a: Snapshot, ev: Event, b: Snapshot) returns (l: Link)
    requires ev.Probe? && Steps(cfg, a, ev, b)
    ensures l in b.links
    ensures || l == Link(ev.src, ev.local, ev.srcPort, ev.inPort)
            || (l == Link(ev.local, ev.src, ev.inPort, ev.srcPort) && ev.local != ev.src)
    ensures forall k :: k in a.links && k !in b.links ==> Joins(k, ev.local, ev.src)
    ensures if exists k :: k in a.links && Joins(k, ev.local, ev.src) then |b.links| == |a.links|
            else b.links == a.links + [Link(ev.src, ev.local, ev.srcPort, ev.inPort)]
  {
    hide Reinstalled;
    var i := FirstBetween(a.links, ev.local, ev.src);
    assert b.links == ProbedLinks(a.links, ev.local, ev.inPort, ev.src, ev.srcPort);
    l := b.links[i];
    assert i < |a.links| ==> a.links[i] in a.links && Joins(a.links[i], ev.local, ev.src);
    forall k | k in a.links ensures k in b.links || Joins(k, ev.local, ev.src) {
      var j :| 0 <= j < |a.links| && a.links[j] == k;
      if j != i {
        assert b.links[j] == k;
      }
    }
  }
}
