/** What every run of the DHCP server keeps. */
module DhcpRuns {
  import opened DnsRecords
  import opened Dhcp

  // ---------------------------------------------------------------- soundness in every interleaving

  /** Each `ip_to_mac` entry names a client whose lease is ALLOCATED on that address. */
  ghost predicate OwnersHold(s: Server) {
    forall ip :: ip in s.ipToMac ==> Holds(s, s.ipToMac[ip], Allocated) && s.leases[s.ipToMac[ip]].ip == ip
  }

  ghost predicate AllocatedOn(s: Server, ip: Ip) {
    exists m :: Holds(s, m, Allocated) && s.leases[m].ip == ip
  }

  /** The address of every PTR record has an ALLOCATED lease. */
  ghost predicate NamesHold(s: Server) {
    forall ip :: ip in s.dns.ptr ==> AllocatedOn(s, ip)
  }

  /** A suspended client has no ALLOCATED lease, and every address handled lies in the pool. */
  ghost predicate ScansHold(cfg: Config, s: Server) {
    && (forall m :: m in s.scans ==> !Holds(s, m, Allocated) && cfg.startIp <= s.scans[m].ip <= cfg.endIp)
    && (forall m :: m in s.leases ==> cfg.startIp <= s.leases[m].ip <= cfg.endIp)
  }

  ghost predicate Sound(cfg: Config, s: Server) {
    OwnersHold(s) && NamesHold(s) && Confirmed(s.dns) && ScansHold(cfg, s)
  }

  lemma ReleaseKeepsSound(cfg: Config, s: Server, m: Mac)
    requires Sound(cfg, s)
    ensures Sound(cfg, ReleaseLease(s, m))
  {
    if m in s.leases {
      var s', ip := ReleaseLease(s, m), s.leases[m].ip;
      AddressRemovedKeeps(s.dns, ip);
      forall x | x in s'.dns.ptr ensures AllocatedOn(s', x) {
        var owner :| Holds(s, owner, Allocated) && s.leases[owner].ip == x;
        assert Holds(s', owner, Allocated);
      }
    }
  }

  lemma AllocateKeepsSound(cfg: Config, s: Server, m: Mac, ip: Ip, now: real)
    requires Sound(cfg, s) && !Holds(s, m, Allocated) && cfg.startIp <= ip <= cfg.endIp && m !in s.scans
    ensures Sound(cfg, Allocate(cfg, s, m, ip, now))
  {
    var s' := Allocate(cfg, s, m, ip, now);
    if m in s.hostnames {
      AddedKeeps(s.dns, s.hostnames[m], ip);
    }
    assert Holds(s', m, Allocated);
    forall x | x in s'.dns.ptr ensures AllocatedOn(s', x) {
      if x != ip {
        var owner :| Holds(s, owner, Allocated) && s.leases[owner].ip == x;
        assert Holds(s', owner, Allocated);
      }
    }
  }

  lemma RenewKeepsSound(cfg: Config, s: Server, m: Mac, now: real)
    requires Sound(cfg, s) && Holds(s, m, Allocated)
    ensures Sound(cfg, Renew(cfg, s, m, now))
  {
    var s', ip := Renew(cfg, s, m, now), s.leases[m].ip;
    if m in s.hostnames {
      AddedKeeps(s.dns, s.hostnames[m], ip);
    }
    assert Holds(s', m, Allocated);
    forall x | x in s'.dns.ptr ensures AllocatedOn(s', x) {
      if x != ip {
        var owner :| Holds(s, owner, Allocated) && s.leases[owner].ip == x;
        assert Holds(s', owner, Allocated);
      }
    }
  }

  /** Changing only what the invariant does not look at. */
  lemma SameTablesSound(cfg: Config, s: Server, s': Server)
    requires Sound(cfg, s) && s'.leases == s.leases && s'.ipToMac == s.ipToMac && s'.dns == s.dns
    requires forall m :: m in s'.scans ==> !Holds(s, m, Allocated) && cfg.startIp <= s'.scans[m].ip <= cfg.endIp
    ensures Sound(cfg, s')
  {
  }

  /** A scan changes nothing but the conflict list, the probe flags, and the client's own suspended handler. */
  ghost predicate OnlyScans(cfg: Config, s: Server, s': Server, m: Mac, used: set<Ip>, ip: Ip) {
    && s' == s.(conflicts := s'.conflicts, probing := s'.probing, scans := s'.scans)
    && (s'.scans == s.scans ||
        (m in s'.scans && ip <= s'.scans[m].ip <= cfg.endIp && s'.scans[m].ip !in used && s'.scans[m].used == used
         && s'.scans == s.scans[m := s'.scans[m]]))
  }

  lemma {:induction false} ScanChangesOnly(cfg: Config, s: Server, m: Mac, purpose: Purpose, used: set<Ip>,
                                           started: real, ip: Ip, now: real)
    ensures OnlyScans(cfg, s, ScanFrom(cfg, s, m, purpose, used, started, ip, now).server, m, used, ip)
    decreases cfg.endIp + 1 - ip
  {
    hide Recent;
    if ip <= cfg.endIp {
      if ip in used {
        ScanChangesOnly(cfg, s, m, purpose, used, started, ip + 1, now);
      } else if ip in Recent(cfg, s.conflicts, now) {
        ScanChangesOnly(cfg, s.(conflicts := Recent(cfg, s.conflicts, now)), m, purpose, used, started, ip + 1, now);
      }
    }
  }

  lemma ScanKeepsSound(cfg: Config, s: Server, m: Mac, purpose: Purpose, used: set<Ip>, started: real, ip: Ip,
                       now: real)
    requires Sound(cfg, s) && !Holds(s, m, Allocated) && cfg.startIp <= ip
    ensures Sound(cfg, ScanFrom(cfg, s, m, purpose, used, started, ip, now).server)
  {
    ScanChangesOnly(cfg, s, m, purpose, used, started, ip, now);
    SameTablesSound(cfg, s, ScanFrom(cfg, s, m, purpose, used, started, ip, now).server);
  }

  lemma {:induction false} ReleaseAllKeepsSound(cfg: Config, s: Server, ms: set<Mac>)
    requires Sound(cfg, s)
    ensures Sound(cfg, ReleaseAll(s, ms))
    decreases ms
  {
    if ms == {} {
      ReleaseNone(s);
    } else {
      var m :| m in ms;
      ReleaseAllKeepsSound(cfg, s, ms - {m});
      ReleaseOneMore(s, ms - {m}, m);
      assert ms - {m} + {m} == ms;
      ReleaseKeepsSound(cfg, ReleaseAll(s, ms - {m}), m);
    }
  }

  lemma ReceiveKeepsSound(cfg: Config, s0: Server, m: Mac, msg: Message, hostname: Name, now: real)
    requires Sound(cfg, s0) && m !in s0.scans
    ensures Sound(cfg, ReceiveStep(cfg, s0, m, msg, hostname, now).server)
  {
    var s := Remember(s0, m, hostname);
    SameTablesSound(cfg, s0, s);
    hide Sound, ScanFrom, ReleaseLease, Allocate, Renew;
    assert ScansHold(cfg, s) by { SoundScans(cfg, s); }
    match msg
    case Discover =>
      if !Holds(s, m, Allocated) {
        ScanKeepsSound(cfg, s, m, ForOffer, Used(s, now), now, cfg.startIp, now);
      }
    case Request(requested) =>
      if Holds(s, m, Offered) {
        AllocateKeepsSound(cfg, s, m, s.leases[m].ip, now);
      } else if Holds(s, m, Allocated) {
        RenewKeepsSound(cfg, s, m, now);
      } else {
        ScanKeepsSound(cfg, s, m, ForAck(now), Used(s, now), now, cfg.startIp, now);
      }
    case Release =>
      ReleaseKeepsSound(cfg, s, m);
    case Decline =>
      if m in s.leases {
        SameTablesSound(cfg, s, s.(conflicts := s.conflicts[s.leases[m].ip := now]));
        ReleaseKeepsSound(cfg, s.(conflicts := s.conflicts[s.leases[m].ip := now]), m);
      }
    case Other =>
  }

  lemma SoundScans(cfg: Config, s: Server)
    requires Sound(cfg, s)
    ensures ScansHold(cfg, s)
  {
  }

  lemma OfferKeepsSound(cfg: Config, s: Server, m: Mac, l: Lease)
    requires Sound(cfg, s) && !Holds(s, m, Allocated) && l.state == Offered && cfg.startIp <= l.ip <= cfg.endIp
    ensures Sound(cfg, s.(leases := s.leases[m := l]))
  {
    var s' := s.(leases := s.leases[m := l]);
    forall x | x in s'.dns.ptr ensures AllocatedOn(s', x) {
      var owner :| Holds(s, owner, Allocated) && s.leases[owner].ip == x;
      assert Holds(s', owner, Allocated);
    }
  }

  /** The server once the probe of m's handler has been taken out. */
  function Resumed(s: Server, m: Mac): Server
    requires m in s.scans
  {
    s.(probing := s.probing - {s.scans[m].ip}, scans := s.scans - {m})
  }

  lemma ResumedSound(cfg: Config, s: Server, m: Mac)
    requires Sound(cfg, s) && m in s.scans
    ensures Sound(cfg, Resumed(s, m)) && !Holds(Resumed(s, m), m, Allocated)
    ensures cfg.startIp <= s.scans[m].ip <= cfg.endIp
    ensures var s1 := Resumed(s, m); Sound(cfg, s1.(conflicts := s1.conflicts[s.scans[m].ip := s.scans[m].probedAt]))
  {
  }

  lemma ResumeKeepsSound(cfg: Config, s0: Server, m: Mac, now: real)
    requires Sound(cfg, s0) && m in s0.scans
    ensures Sound(cfg, ResumeStep(cfg, s0, m, now).server)
  {
    hide Sound, ScanFrom, Allocate;
    var scan, s := s0.scans[m], Resumed(s0, m);
    ResumedSound(cfg, s0, m);
    if !(scan.ip in s0.probing && s0.probing[scan.ip]) {
      ScanKeepsSound(cfg, s.(conflicts := s.conflicts[scan.ip := scan.probedAt]), m, scan.purpose, scan.used, scan.now,
                     scan.ip + 1, now);
    } else if scan.purpose.ForOffer? {
      OfferKeepsSound(cfg, s, m, Lease(scan.ip, scan.now, scan.now + cfg.leaseTime, Offered));
    } else {
      AllocateKeepsSound(cfg, s, m, scan.ip, scan.purpose.now);
    }
  }

  lemma StepKeepsSound(cfg: Config, s: Server, ev: Event)
    requires Sound(cfg, s) && Possible(s, ev)
    ensures Sound(cfg, Step(cfg, s, ev).server)
  {
    match ev
    case Receive(m, msg, hostname, now) =>
      ReceiveKeepsSound(cfg, s, m, msg, hostname, now);
    case Resume(m, now) =>
      ResumeKeepsSound(cfg, s, m, now);
    case ArpReply(ip) =>
      SameTablesSound(cfg, s, ArpReplyStep(s, ip));
    case Reap(now) =>
      ReleaseAllKeepsSound(cfg, s, ExpiredClients(s, now));
  }

  /** Every state reached from the empty server, in every interleaving at the probes, is sound. */
  lemma {:induction false} RunKeepsSound(cfg: Config, s: Server, evs: seq<Event>)
    requires Sound(cfg, s) && PossibleRun(cfg, s, evs)
    ensures Sound(cfg, Run(cfg, s, evs))
    decreases |evs|
  {
    if evs != [] {
      StepKeepsSound(cfg, s, evs[0]);
      RunKeepsSound(cfg, Step(cfg, s, evs[0]).server, evs[1..]);
    }
  }

  /** What soundness says of any run: injective ownership, live names, confirmed names. */
  lemma EveryRunIsSound(cfg: Config, evs: seq<Event>)
    requires PossibleRun(cfg, EMPTY, evs)
    ensures var s := Run(cfg, EMPTY, evs);
            && (forall ip, ip' :: ip in s.ipToMac && ip' in s.ipToMac && s.ipToMac[ip] == s.ipToMac[ip'] ==> ip == ip')
            && OwnersHold(s) && NamesHold(s) && Confirmed(s.dns)
            && forall m :: m in s.leases ==> cfg.startIp <= s.leases[m].ip <= cfg.endIp
  {
    RunKeepsSound(cfg, EMPTY, evs);
  }
}
