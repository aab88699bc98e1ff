/**
`DHCPServer` with its tables updated in place, each handler proved to take the step of the state
machine. A suspended greenlet is an entry of `scans`; `ResumeProbe` is its wake-up after the sleep.
*/
module DhcpServer {
  import opened Wrappers
  import opened DnsRecords
  import opened Dhcp
  import opened DhcpRuns

  class DHCPServer {
    var macToLease: map<Mac, Lease>
    var ipToMac: map<Ip, Mac>
    var macToHostname: map<Mac, Name>
    var probing: map<Ip, bool>
    var conflictIps: map<Ip, real>
    var scans: map<Mac, Scan>
    const dns: DNSServer<Ip>
    const cfg: Config

    function Contents(): Server
      reads this, dns
    {
      Server(macToLease, ipToMac, macToHostname, probing, conflictIps, dns.Contents(), scans)
    }

    ghost predicate Valid()
      reads this, dns
    {
      Sound(cfg, Contents())
    }

    constructor (cfg: Config)
      ensures Valid() && Contents() == EMPTY && fresh(dns) && this.cfg == cfg
    {
      macToLease, ipToMac, macToHostname, probing, conflictIps, scans := map[], map[], map[], map[], map[], map[];
      this.cfg := cfg;
      dns := new DNSServer();
    }

    method ReleaseLease(m: Mac)
      requires Confirmed(Contents().dns)
      modifies this, dns
      ensures Contents() == Dhcp.ReleaseLease(old(Contents()), m)
      ensures Confirmed(Contents().dns)
    {
      hide Confirmed, AddressRemoved, HostRemoved;
      if m in macToLease {
        var ip := macToLease[m].ip;
        macToLease := macToLease[m := macToLease[m].(state := Released)];
        macToLease := macToLease[m := macToLease[m].(expiresAt := 0.0)];
        assert macToLease == old(macToLease)[m := old(macToLease)[m].(state := Released, expiresAt := 0.0)];
        if ip in ipToMac {
          ipToMac := ipToMac - {ip};
        }
        macToHostname := macToHostname - {m};
        dns.RemoveRecord(None, Some(ip));
      }
    }

    /** The part of `_arp_probe` before the sleep: false when the address is in the conflict list. */
    method StartProbe(m: Mac, purpose: Purpose, used: set<Ip>, started: real, ip: Ip, now: real) returns (waiting: bool)
      modifies this`conflictIps, this`probing, this`scans
      ensures conflictIps == Recent(cfg, old(conflictIps), now) && waiting == (ip !in conflictIps)
      ensures probing == if waiting then old(probing)[ip := true] else old(probing)
      ensures scans == if waiting then old(scans)[m := Scan(purpose, used, started, now, ip)] else old(scans)
    {
      conflictIps := Recent(cfg, conflictIps, now);
      waiting := ip !in conflictIps;
      if waiting {
        probing := probing[ip := true];
        scans := scans[m := Scan(purpose, used, started, now, ip)];
      }
    }

    /** The loop of `_find_free_ip`, entered at `first`; it is left when a probe has to wait. */
    method ScanPool(m: Mac, purpose: Purpose, used: set<Ip>, started: real, first: Ip, now: real)
      modifies this`conflictIps, this`probing, this`scans
      ensures Contents() == ScanFrom(cfg, old(Contents()), m, purpose, used, started, first, now).server
    {
      var ip := first;
      while ip <= cfg.endIp
        invariant ScanFrom(cfg, old(Contents()), m, purpose, used, started, first, now)
               == ScanFrom(cfg, Contents(), m, purpose, used, started, ip, now)
      {
        if ip !in used {
          var waiting := StartProbe(m, purpose, used, started, ip, now);
          if waiting {
            return;
          }
        }
        ip := ip + 1;
      }
    }

    method Grant(m: Mac, ip: Ip, now: real)
      requires Confirmed(Contents().dns)
      modifies this, dns
      ensures Contents() == Allocate(cfg, old(Contents()), m, ip, now)
    {
      macToLease := macToLease[m := Lease(ip, now, now + cfg.leaseTime, Allocated)];
      ipToMac := ipToMac[ip := m];
      if m in macToHostname {
        dns.AddRecord(macToHostname[m], ip);
      }
    }

    method Extend(m: Mac, now: real)
      requires Confirmed(Contents().dns) && m in macToLease
      modifies this, dns
      ensures Contents() == Renew(cfg, old(Contents()), m, now)
    {
      macToLease := macToLease[m := macToLease[m].(expiresAt := now + cfg.leaseTime)];
      if m in macToHostname {
        dns.AddRecord(macToHostname[m], macToLease[m].ip);
      }
    }

    /** `handle_dhcp` for a client with no message in progress. */
    method HandleDhcp(m: Mac, msg: Message, hostname: Name, now: real) returns (reply: Reply)
      requires Valid() && m !in scans
      modifies this, dns
      ensures Valid()
      ensures Outcome(Contents(), reply) == ReceiveStep(cfg, old(Contents()), m, msg, hostname, now)
    {
      hide Sound, ScanFrom, Confirmed;
      StepKeepsSound(cfg, Contents(), Receive(m, msg, hostname, now));
      SoundIsConfirmed(cfg, Contents());
      ScansAreSilent(cfg, Remember(Contents(), m, hostname), m, now);
      reply := Silence;
      if hostname != [] {
        macToHostname := macToHostname[m := hostname];
      }
      match msg
      case Discover => reply := HandleDiscover(m, now);
      case Request(requested) => reply := HandleRequest(m, requested, now);
      case Release => ReleaseLease(m);
      case Decline =>
        if m in macToLease {
          conflictIps := conflictIps[macToLease[m].ip := now];
          ReleaseLease(m);
        }
      case Other =>
    }

    method HandleDiscover(m: Mac, now: real) returns (reply: Reply)
      modifies this`conflictIps, this`probing, this`scans
      ensures Contents() == DiscoverStep(cfg, old(Contents()), m, now).server
      ensures reply == if Holds(old(Contents()), m, Allocated) then Offer(old(macToLease)[m].ip) else Silence
    {
      if m in macToLease && macToLease[m].state == Allocated {
        return Offer(macToLease[m].ip);
      }
      var used := set x | x in macToLease && macToLease[x].state == Allocated &&
        now < macToLease[x].expiresAt :: macToLease[x].ip;
      ScanPool(m, ForOffer, used, now, cfg.startIp, now);
      reply := Silence;
    }

    /** The decision part of `assemble_ack`. */
    method HandleRequest(m: Mac, requested: Option<Ip>, now: real) returns (reply: Reply)
      requires Confirmed(Contents().dns)
      modifies this, dns
      ensures Contents() == RequestStep(cfg, old(Contents()), m, requested, now).server
      ensures reply ==
        if Holds(old(Contents()), m, Offered) || Holds(old(Contents()), m, Allocated) then
          if requested.Some? && requested.value != old(macToLease)[m].ip then Nak else Ack(old(macToLease)[m].ip)
        else Silence
    {
      hide ScanFrom, Confirmed;
      reply := Silence;
      if m in macToLease && (macToLease[m].state == Offered || macToLease[m].state == Allocated) {
        var ip := macToLease[m].ip;
        if requested.Some? && requested.value != ip {
          return Nak;
        }
        if macToLease[m].state == Offered {
          Grant(m, ip, now);
        } else {
          Extend(m, now);
        }
        reply := Ack(ip);
      } else {
        var used := set x | x in macToLease && macToLease[x].state == Allocated &&
          now < macToLease[x].expiresAt :: macToLease[x].ip;
        ScanPool(m, ForAck(now), used, now, cfg.startIp, now);
      }
    }

    /** A suspended handler continues after its sleep. */
    method ResumeProbe(m: Mac, now: real) returns (reply: Reply)
      requires Valid() && m in scans
      modifies this, dns
      ensures Valid()
      ensures Outcome(Contents(), reply) == ResumeStep(cfg, old(Contents()), m, now)
    {
      hide Sound, ScanFrom, Confirmed;
      StepKeepsSound(cfg, Contents(), Resume(m, now));
      SoundIsConfirmed(cfg, Contents());
      ghost var s0 := Contents();
      var scan := scans[m];
      var clear := scan.ip in probing && probing[scan.ip];
      probing, scans := probing - {scan.ip}, scans - {m};
      reply := Silence;
      if !clear {
        conflictIps := conflictIps[scan.ip := scan.probedAt];
        ScanIsSilent(cfg, Contents(), m, scan.purpose, scan.used, scan.now, scan.ip + 1, now);
        ScanPool(m, scan.purpose, scan.used, scan.now, scan.ip + 1, now);
      } else {
        reply := Finish(m, scan);
      }
    }

    /** The probe was clear: the end of `_find_free_ip`, and of `assemble_ack` when it was called from there. */
    method Finish(m: Mac, scan: Scan) returns (reply: Reply)
      requires Confirmed(Contents().dns)
      modifies this, dns
      ensures reply == if scan.purpose.ForOffer? then Offer(scan.ip) else Ack(scan.ip)
      ensures Contents() ==
        match scan.purpose
        case ForOffer =>
          old(Contents()).(leases := old(macToLease)[m := Lease(scan.ip, scan.now, scan.now + cfg.leaseTime, Offered)])
        case ForAck(ackNow) => Allocate(cfg, old(Contents()), m, scan.ip, ackNow)
    {
      hide Confirmed;
      macToLease := macToLease[m := Lease(scan.ip, scan.now, scan.now + cfg.leaseTime, Offered)];
      match scan.purpose
      case ForOffer => reply := Offer(scan.ip);
      case ForAck(ackNow) =>
        Grant(m, scan.ip, ackNow);
        reply := Ack(scan.ip);
    }

    method MarkArpConflict(ip: Ip)
      requires Valid()
      modifies this`probing
      ensures Valid() && Contents() == ArpReplyStep(old(Contents()), ip)
    {
      StepKeepsSound(cfg, Contents(), ArpReply(ip));
      hide Sound;
      if ip in probing {
        probing := probing[ip := false];
      }
    }

    method ReleaseClients(ms: set<Mac>)
      requires Confirmed(Contents().dns)
      modifies this, dns
      ensures Contents() == ReleaseAll(old(Contents()), ms)
    {
      hide Confirmed, ReleaseAll, Dhcp.ReleaseLease;
      ReleaseNone(Contents());
      var todo := ms;
      assert ms - todo == {};
      while todo != {}
        invariant todo <= ms && Confirmed(Contents().dns)
        invariant Contents() == ReleaseAll(old(Contents()), ms - todo)
        decreases todo
      {
        var m :| m in todo;
        ReleaseOneMore(old(Contents()), ms - todo, m);
        assert ms - (todo - {m}) == ms - todo + {m};
        ReleaseLease(m);
        todo := todo - {m};
      }
      assert ms - todo == ms;
    }

    /** One pass of `_lease_reaper`. */
    method ReapLeases(now: real)
      requires Valid()
      modifies this, dns
      ensures Valid() && Contents() == ReapStep(old(Contents()), now)
    {
      hide Sound, Confirmed, ReleaseAll;
      StepKeepsSound(cfg, Contents(), Reap(now));
      SoundIsConfirmed(cfg, Contents());
      var expired := set m | m in macToLease && macToLease[m].state == Allocated && now >= macToLease[m].expiresAt;
      assert expired == ExpiredClients(Contents(), now);
      ReleaseClients(expired);
    }
  }

  lemma SoundIsConfirmed(cfg: Config, s: Server)
    requires Sound(cfg, s)
    ensures Confirmed(s.dns)
  {
  }

  /** A scan never replies: it either waits for a probe or finds nothing. */
  lemma {:induction false} ScanIsSilent(cfg: Config, s: Server, m: Mac, purpose: Purpose, used: set<Ip>, started: real,
                                        ip: Ip, now: real)
    ensures ScanFrom(cfg, s, m, purpose, used, started, ip, now).reply == Silence
    decreases cfg.endIp + 1 - ip
  {
    hide Recent;
    if ip <= cfg.endIp {
      if ip in used {
        ScanIsSilent(cfg, s, m, purpose, used, started, ip + 1, now);
      } else if ip in Recent(cfg, s.conflicts, now) {
        ScanIsSilent(cfg, s.(conflicts := Recent(cfg, s.conflicts, now)), m, purpose, used, started, ip + 1, now);
      }
    }
  }

  lemma ScansAreSilent(cfg: Config, s: Server, m: Mac, now: real)
    ensures StartScan(cfg, s, m, ForOffer, now).reply == Silence &&
            StartScan(cfg, s, m, ForAck(now), now).reply == Silence
  {
    ScanIsSilent(cfg, s, m, ForOffer, Used(s, now), now, cfg.startIp, now);
    ScanIsSilent(cfg, s, m, ForAck(now), Used(s, now), now, cfg.startIp, now);
  }
}
