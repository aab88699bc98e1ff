/**
The DHCP server of dhcp.py as a state machine. Handlers run as greenlets that give up control only
inside the ARP probe, so a DISCOVER or REQUEST that probes an address is suspended there: `scans`
holds the suspended handlers, and `Resume` continues one of them.
*/
module Dhcp {
  import opened Wrappers
  import opened DnsRecords

  type Mac = nat
  type Ip = nat

  datatype LeaseState = Offered | Allocated | Released

  datatype Lease = Lease(ip: Ip, assignedAt: real, expiresAt: real, state: LeaseState)

  datatype Config = Config(startIp: Ip, endIp: Ip, leaseTime: real, conflictTtl: real)

  /** What a suspended handler does with the address once it is found free. */
  datatype Purpose = ForOffer | ForAck(now: real)

  /** A handler suspended while probing `ip`: its loop variables, and when the probe was sent. */
  datatype Scan = Scan(purpose: Purpose, used: set<Ip>, now: real, probedAt: real, ip: Ip)

  datatype Server = Server(
    leases: map<Mac, Lease>,
    ipToMac: map<Ip, Mac>,
    hostnames: map<Mac, Name>,
    probing: map<Ip, bool>,
    conflicts: map<Ip, real>,
    dns: Records<Ip>,
    scans: map<Mac, Scan>)

  const EMPTY := Server(map[], map[], map[], map[], map[], Records(map[], map[]), map[])

  datatype Message = Discover | Request(requested: Option<Ip>) | Release | Decline | Other

  datatype Event =
    | Receive(mac: Mac, msg: Message, hostname: Name, now: real)
    | Resume(mac: Mac, now: real)
    | ArpReply(ip: Ip)
    | Reap(now: real)

  datatype Reply = Offer(ip: Ip) | Ack(ip: Ip) | Nak | Silence

  datatype Outcome = Outcome(server: Server, reply: Reply)

  // ---------------------------------------------------------------- leases

  predicate Holds(s: Server, m: Mac, st: LeaseState) {
    m in s.leases && s.leases[m].state == st
  }

  predicate Expired(s: Server, m: Mac, now: real) {
    Holds(s, m, Allocated) && now >= s.leases[m].expiresAt
  }

  function ReleaseLease(s: Server, m: Mac): Server {
    if m !in s.leases then s
    else
      var ip := s.leases[m].ip;
      s.(leases := s.leases[m := s.leases[m].(state := Released, expiresAt := 0.0)],
         ipToMac := s.ipToMac - {ip},
         hostnames := s.hostnames - {m},
         dns := AddressRemoved(s.dns, ip))
  }

  /** Record an ALLOCATED lease and register the client's name. */
  function Allocate(cfg: Config, s: Server, m: Mac, ip: Ip, now: real): Server {
    s.(leases := s.leases[m := Lease(ip, now, now + cfg.leaseTime, Allocated)],
       ipToMac := s.ipToMac[ip := m],
       dns := if m in s.hostnames then Added(s.dns, s.hostnames[m], ip) else s.dns)
  }

  function Renew(cfg: Config, s: Server, m: Mac, now: real): Server
    requires m in s.leases
  {
    s.(leases := s.leases[m := s.leases[m].(expiresAt := now + cfg.leaseTime)],
       dns := if m in s.hostnames then Added(s.dns, s.hostnames[m], s.leases[m].ip) else s.dns)
  }

  // ---------------------------------------------------------------- the address scan

  /** Addresses of unexpired ALLOCATED leases; OFFERED ones are not counted. */
  function Used(s: Server, now: real): set<Ip> {
    set m | m in s.leases && s.leases[m].state == Allocated && now < s.leases[m].expiresAt :: s.leases[m].ip
  }

  function Recent(cfg: Config, conflicts: map<Ip, real>, now: real): map<Ip, real> {
    map ip | ip in conflicts && now - conflicts[ip] <= cfg.conflictTtl :: conflicts[ip]
  }

  /** The loop of `_find_free_ip` from address `ip` on, up to the next probe that waits, or to the end of the pool. */
  function ScanFrom(cfg: Config, s: Server, m: Mac, purpose: Purpose, used: set<Ip>, started: real, ip: Ip,
                    now: real): Outcome
    decreases cfg.endIp + 1 - ip
  {
    if ip > cfg.endIp then Outcome(s, Silence)
    else if ip in used then ScanFrom(cfg, s, m, purpose, used, started, ip + 1, now)
    else
      var s' := s.(conflicts := Recent(cfg, s.conflicts, now));
      if ip in s'.conflicts then ScanFrom(cfg, s', m, purpose, used, started, ip + 1, now)
      else
        Outcome(s'.(probing := s'.probing[ip := true], scans := s'.scans[m := Scan(purpose, used, started, now, ip)]),
                Silence)
  }

  /** `_find_free_ip` for a client without an ALLOCATED lease. */
  function StartScan(cfg: Config, s: Server, m: Mac, purpose: Purpose, now: real): Outcome {
    ScanFrom(cfg, s, m, purpose, Used(s, now), now, cfg.startIp, now)
  }

  // ---------------------------------------------------------------- the handlers

  function DiscoverStep(cfg: Config, s: Server, m: Mac, now: real): Outcome {
    if Holds(s, m, Allocated) then Outcome(s, Offer(s.leases[m].ip)) else StartScan(cfg, s, m, ForOffer, now)
  }

  function RequestStep(cfg: Config, s: Server, m: Mac, requested: Option<Ip>, now: real): Outcome {
    if Holds(s, m, Offered) then
      if requested.Some? && requested.value != s.leases[m].ip then Outcome(s, Nak)
      else Outcome(Allocate(cfg, s, m, s.leases[m].ip, now), Ack(s.leases[m].ip))
    else if Holds(s, m, Allocated) then
      if requested.Some? && requested.value != s.leases[m].ip then Outcome(s, Nak)
      else Outcome(Renew(cfg, s, m, now), Ack(s.leases[m].ip))
    else StartScan(cfg, s, m, ForAck(now), now)
  }

  function DeclineStep(s: Server, m: Mac, now: real): Server {
    if m !in s.leases then s
    else ReleaseLease(s.(conflicts := s.conflicts[s.leases[m].ip := now]), m)
  }

  function Remember(s: Server, m: Mac, hostname: Name): Server {
    if hostname == [] then s else s.(hostnames := s.hostnames[m := hostname])
  }

  /** `handle_dhcp` up to its first probe. */
  function ReceiveStep(cfg: Config, s0: Server, m: Mac, msg: Message, hostname: Name, now: real): Outcome {
    var s := Remember(s0, m, hostname);
    match msg
    case Discover => DiscoverStep(cfg, s, m, now)
    case Request(requested) => RequestStep(cfg, s, m, requested, now)
    case Release => Outcome(ReleaseLease(s, m), Silence)
    case Decline => Outcome(DeclineStep(s, m, now), Silence)
    case Other => Outcome(s, Silence)
  }

  /** A probe's sleep is over: no entry, or one flagged by an ARP reply, counts as a conflict. */
  function ResumeStep(cfg: Config, s0: Server, m: Mac, now: real): Outcome
    requires m in s0.scans
  {
    var scan := s0.scans[m];
    var clear := scan.ip in s0.probing && s0.probing[scan.ip];
    var s := s0.(probing := s0.probing - {scan.ip}, scans := s0.scans - {m});
    if !clear then
      ScanFrom(cfg, s.(conflicts := s.conflicts[scan.ip := scan.probedAt]), m, scan.purpose, scan.used, scan.now,
               scan.ip + 1, now)
    else
      match scan.purpose
      case ForOffer =>
        Outcome(s.(leases := s.leases[m := Lease(scan.ip, scan.now, scan.now + cfg.leaseTime, Offered)]),
                Offer(scan.ip))
      case ForAck(ackNow) => Outcome(Allocate(cfg, s, m, scan.ip, ackNow), Ack(scan.ip))
  }

  function ArpReplyStep(s: Server, ip: Ip): Server {
    if ip in s.probing then s.(probing := s.probing[ip := false]) else s
  }

  function IpsOf(s: Server, ms: set<Mac>): set<Ip> {
    set m | m in ms && m in s.leases :: s.leases[m].ip
  }

  /** Releasing several clients at once; the order in which the reaper takes them does not matter. */
  function ReleaseAll(s: Server, ms: set<Mac>): Server {
    var ips := IpsOf(s, ms);
    s.(leases := map m | m in s.leases :: if m in ms then s.leases[m].(state := Released, expiresAt := 0.0)
       else s.leases[m], ipToMac := s.ipToMac - ips,
       hostnames := s.hostnames - (set m | m in ms && m in s.leases),
       dns := AllRemoved(s.dns, ips))
  }

  lemma ReleaseOneMore(s: Server, ms: set<Mac>, m: Mac)
    requires Confirmed(s.dns) && m !in ms
    ensures ReleaseAll(s, ms + {m}) == ReleaseLease(ReleaseAll(s, ms), m)
    ensures Confirmed(ReleaseAll(s, ms).dns)
  {
    if m in s.leases {
      var ip := s.leases[m].ip;
      assert IpsOf(s, ms + {m}) == IpsOf(s, ms) + {ip};
      RemoveOneMore(s.dns, IpsOf(s, ms), ip);
    } else {
      assert IpsOf(s, ms + {m}) == IpsOf(s, ms);
      RemoveNone(s.dns, IpsOf(s, ms));
    }
    hide AllRemoved, AddressRemoved, IpsOf;
  }

  lemma RemoveNone(dns: Records<Ip>, ips: set<Ip>)
    requires Confirmed(dns)
    ensures Confirmed(AllRemoved(dns, ips))
  {
  }

  lemma ReleaseNone(s: Server)
    ensures ReleaseAll(s, {}) == s
  {
  }

  function ExpiredClients(s: Server, now: real): set<Mac> {
    set m | m in s.leases && Expired(s, m, now)
  }

  function ReapStep(s: Server, now: real): Server {
    ReleaseAll(s, ExpiredClients(s, now))
  }

  // ---------------------------------------------------------------- one event, and runs

  /** A client has at most one message in progress, and only suspended handlers are resumed. */
  predicate Possible(s: Server, ev: Event) {
    match ev
    case Receive(m, _, _, _) => m !in s.scans
    case Resume(m, _) => m in s.scans
    case _ => true
  }

  function Step(cfg: Config, s: Server, ev: Event): Outcome
    requires Possible(s, ev)
  {
    match ev
    case Receive(m, msg, hostname, now) => ReceiveStep(cfg, s, m, msg, hostname, now)
    case Resume(m, now) => ResumeStep(cfg, s, m, now)
    case ArpReply(ip) => Outcome(ArpReplyStep(s, ip), Silence)
    case Reap(now) => Outcome(ReapStep(s, now), Silence)
  }

  /** Every event of the run is possible when it happens. */
  predicate PossibleRun(cfg: Config, s: Server, evs: seq<Event>)
    decreases |evs|
  {
    evs == [] || (Possible(s, evs[0]) && PossibleRun(cfg, Step(cfg, s, evs[0]).server, evs[1..]))
  }

  function Run(cfg: Config, s: Server, evs: seq<Event>): Server
    requires PossibleRun(cfg, s, evs)
    decreases |evs|
  {
    if evs == [] then s else Run(cfg, Step(cfg, s, evs[0]).server, evs[1..])
  }
}
