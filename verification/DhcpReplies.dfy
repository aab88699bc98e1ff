/** What the server's answers are worth, and what it forgets when a client leaves. */
module DhcpReplies {
  import opened DnsRecords
  import opened Dhcp
  import opened DhcpRuns
  import opened DhcpSharing
  import opened DhcpProbing

  /** The client asks for an address other than the one it holds or was offered. */
  predicate AsksForAnother(s: Server, ev: Event) {
    && ev.Receive? && ev.msg.Request? && ev.msg.requested.Some? &&
       (Holds(s, ev.mac, Offered) || Holds(s, ev.mac, Allocated))
    && ev.msg.requested.value != s.leases[ev.mac].ip
  }

  /** An acknowledgement is sent exactly for what is granted, a refusal exactly for another address. */
  lemma AcksWhatIsGranted(cfg: Config, s: Server, ev: Event, ip: Ip)
    requires Possible(s, ev)
    ensures Step(cfg, s, ev).reply == Ack(ip) <==> Granted(cfg, s, ev).Some? && Granted(cfg, s, ev).value.ip == ip
    ensures Step(cfg, s, ev).reply == Nak <==> AsksForAnother(s, ev)
  {
    match ev
    case Receive(m, msg, hostname, now) =>
      var s0 := Remember(s, m, hostname);
      SilentScan(cfg, s0, m, ForOffer, Used(s0, now), now, cfg.startIp, now);
      SilentScan(cfg, s0, m, ForAck(now), Used(s0, now), now, cfg.startIp, now);
      hide ScanFrom, Used, Allocate, Renew, ReleaseLease;
    case Resume(m, now) =>
      hide ResumeStep, Unanswered;
      WakeUpHandsOutIff(cfg, s, m, now);
      WakeUpReply(cfg, s, m, now);
    case ArpReply(x) =>
    case Reap(now) =>
  }

  lemma WakeUpReply(cfg: Config, s: Server, m: Mac, now: real)
    requires m in s.scans
    ensures ResumeStep(cfg, s, m, now).reply in {Offer(s.scans[m].ip), Ack(s.scans[m].ip), Silence}
    ensures Unanswered(s, s.scans[m].ip) <==> s.scans[m].ip in s.probing && s.probing[s.scans[m].ip]
  {
    var scan, s1 := s.scans[m], Resumed(s, m);
    var s2 := s1.(conflicts := s1.conflicts[scan.ip := scan.probedAt]);
    SilentScan(cfg, s2, m, scan.purpose, scan.used, scan.now, scan.ip + 1, now);
    hide ScanFrom, Allocate;
  }

  /**
  What is offered is set aside for the client, or is its own; what is acknowledged it holds for a lease time from its
  request.
  */
  lemma RepliesAreKept(cfg: Config, s: Server, ev: Event)
    requires Sound(cfg, s) && Possible(s, ev)
    ensures var o := Step(cfg, s, ev);
            o.reply.Offer? ==>
              && (ev.Receive? || ev.Resume?) && (Holds(o.server, ev.mac, Offered) || Holds(o.server, ev.mac, Allocated))
              && o.server.leases[ev.mac].ip == o.reply.ip
    ensures var o := Step(cfg, s, ev);
            o.reply.Ack? ==>
              && (ev.Receive? || ev.Resume?) && Holds(o.server, ev.mac, Allocated) &&
                 o.server.leases[ev.mac].ip == o.reply.ip
              && (ev.Receive? ==> o.server.leases[ev.mac].expiresAt == ev.now + cfg.leaseTime)
  {
    match ev
    case Receive(m, msg, hostname, now) =>
      var s0 := Remember(s, m, hostname);
      SilentScan(cfg, s0, m, ForOffer, Used(s0, now), now, cfg.startIp, now);
      SilentScan(cfg, s0, m, ForAck(now), Used(s0, now), now, cfg.startIp, now);
      hide ScanFrom, Used, ReleaseLease, Added;
    case Resume(m, now) =>
      WakeUpKept(cfg, s, m, now);
      hide ResumeStep;
    case ArpReply(x) =>
    case Reap(now) =>
  }

  lemma WakeUpKept(cfg: Config, s: Server, m: Mac, now: real)
    requires m in s.scans
    ensures var o := ResumeStep(cfg, s, m, now);
            && (o.reply.Offer? ==>
                  && m in o.server.leases
                  && o.server.leases[m] == Lease(o.reply.ip, s.scans[m].now, s.scans[m].now + cfg.leaseTime, Offered))
            && (o.reply.Ack? ==> Holds(o.server, m, Allocated) && o.server.leases[m].ip == o.reply.ip)
            && !o.reply.Nak?
  {
    WakeUpReply(cfg, s, m, now);
    WakeUpHandsOutIff(cfg, s, m, now);
    hide ScanFrom, Added;
  }

  /**
  An offer goes to a client that asks and holds an address, which is that one, or ends a probe that nobody answered.
  */
  lemma OffersWhen(cfg: Config, s: Server, ev: Event, ip: Ip)
    requires Possible(s, ev)
    ensures Step(cfg, s, ev).reply == Offer(ip) <==>
            || (ev.Receive? && ev.msg.Discover? && Holds(s, ev.mac, Allocated) && s.leases[ev.mac].ip == ip)
            || (ev.Resume? && s.scans[ev.mac].ip == ip && s.scans[ev.mac].purpose.ForOffer? && Unanswered(s, ip))
  {
    match ev
    case Receive(m, msg, hostname, now) =>
      var s0 := Remember(s, m, hostname);
      SilentScan(cfg, s0, m, ForOffer, Used(s0, now), now, cfg.startIp, now);
      SilentScan(cfg, s0, m, ForAck(now), Used(s0, now), now, cfg.startIp, now);
      hide ScanFrom, Used, Allocate, Renew, ReleaseLease;
    case Resume(m, now) =>
      hide ResumeStep, Unanswered;
      WakeUpHandsOutIff(cfg, s, m, now);
      WakeUpReply(cfg, s, m, now);
    case ArpReply(x) =>
    case Reap(now) =>
  }

  // ---------------------------------------------------------------- what is remembered and forgotten

  /** The server keeps nothing of a client's lease on ip but a RELEASED lease. */
  predicate Forgotten(s: Server, m: Mac, ip: Ip) {
    Holds(s, m, Released) && m !in s.hostnames && ip !in s.ipToMac && ip !in s.dns.ptr
  }

  /** The name that the address had before is gone from the A records, too. */
  predicate NameGone(s: Server, s': Server, ip: Ip) {
    ip in s.dns.ptr ==> s.dns.ptr[ip] !in s'.dns.a
  }

  lemma LeaveForgets(s: Server, m: Mac, now: real)
    requires Confirmed(s.dns) && m in s.leases
    ensures Forgotten(ReleaseLease(s, m), m, s.leases[m].ip) && NameGone(s, ReleaseLease(s, m), s.leases[m].ip)
    ensures Forgotten(DeclineStep(s, m, now), m, s.leases[m].ip) && NameGone(s, DeclineStep(s, m, now), s.leases[m].ip)
  {
    AddressRemovedKeeps(s.dns, s.leases[m].ip);
    hide AddressRemoved;
  }

  /**
  After a RELEASE or DECLINE nothing is left of the lease, its address entry, the client's name or its DNS records.
  */
  lemma LeavingIsForgotten(cfg: Config, s: Server, ev: Event)
    requires Sound(cfg, s) && Possible(s, ev) && Leaving(s, ev).Some?
    ensures var m, s' := Leaving(s, ev).value, Step(cfg, s, ev).server;
            m in s.leases && Forgotten(s', m, s.leases[m].ip) && NameGone(s, s', s.leases[m].ip)
  {
    var s0 := Remember(s, ev.mac, ev.hostname);
    LeaveForgets(s0, ev.mac, ev.now);
    hide ReleaseLease, DeclineStep;
  }

  /** Reaping ends exactly the leases whose time is up, and leaves nothing of them. */
  lemma ReapedAreForgotten(cfg: Config, s: Server, now: real, m: Mac)
    requires Sound(cfg, s) && Holds(s, m, Allocated)
    ensures var s' := Step(cfg, s, Reap(now)).server;
            if s.leases[m].expiresAt <= now then Forgotten(s', m, s.leases[m].ip) && NameGone(s, s', s.leases[m].ip)
            else s'.leases[m] == s.leases[m]
  {
    var s' := Step(cfg, s, Reap(now)).server;
    if s.leases[m].expiresAt <= now {
      assert m in ExpiredClients(s, now) && s.leases[m].ip in IpsOf(s, ExpiredClients(s, now));
    }
  }

  /** A name that comes with a message other than RELEASE and DECLINE is remembered. */
  lemma NameIsRemembered(cfg: Config, s: Server, m: Mac, msg: Message, hostname: Name, now: real)
    requires Possible(s, Receive(m, msg, hostname, now)) && hostname != [] && !msg.Release? && !msg.Decline?
    ensures var s' := Step(cfg, s, Receive(m, msg, hostname, now)).server;
            m in s'.hostnames && s'.hostnames[m] == hostname
  {
    var s0 := Remember(s, m, hostname);
    ScanChangesOnly(cfg, s0, m, ForOffer, Used(s0, now), now, cfg.startIp, now);
    ScanChangesOnly(cfg, s0, m, ForAck(now), Used(s0, now), now, cfg.startIp, now);
    hide ScanFrom, Used, Added;
  }
}
