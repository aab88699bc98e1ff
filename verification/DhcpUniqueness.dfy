/** Three guards on a run under which no two clients share an address. */
module DhcpUniqueness {
  import opened Wrappers
  import opened DnsRecords
  import opened Dhcp
  import opened DhcpRuns

  predicate Active(s: Server, m: Mac) {
    Holds(s, m, Allocated) || Holds(s, m, Offered)
  }

  /**
  No two active leases share an address, and a suspended scan (there is at most one) avoids every other active one.
  */
  ghost predicate Exclusive(s: Server) {
    && (forall m, x :: m != x && Active(s, m) && Active(s, x) ==> s.leases[m].ip != s.leases[x].ip)
    && (forall m, x :: m in s.scans && x in s.scans ==> m == x)
    && (forall m :: m in s.scans ==> s.scans[m].ip !in s.scans[m].used)
    && (forall m, x :: m in s.scans && x != m && Active(s, x) ==> s.leases[x].ip in s.scans[m].used)
  }

  ghost predicate NoOtherOffers(s: Server, m: Mac) {
    forall x :: x != m ==> !Holds(s, x, Offered)
  }

  ghost predicate NoneExpired(s: Server, now: real) {
    forall x :: !Expired(s, x, now)
  }

  ghost predicate Clear(s: Server, m: Mac, now: real) {
    s.scans == map[] && NoOtherOffers(s, m) && NoneExpired(s, now)
  }

  /**
  What one may ask of a run: that handlers run one at a time, probes included; that a DISCOVER or REQUEST comes only
  while no other client's lease is OFFERED; that it comes only when expired leases have been reaped.
  */
  datatype Guards = Guards(serial: bool, noOffers: bool, reaped: bool)

  const ALL_GUARDS := Guards(true, true, true)

  ghost predicate Meets(g: Guards, s: Server, ev: Event) {
    && Possible(s, ev)
    && (g.serial && (ev.Receive? || ev.Reap?) ==> s.scans == map[])
    && (ev.Receive? && (ev.msg.Discover? || ev.msg.Request?) ==>
          (g.noOffers ==> NoOtherOffers(s, ev.mac)) && (g.reaped ==> NoneExpired(s, ev.now)))
  }

  ghost predicate GuardedRun(cfg: Config, g: Guards, s: Server, evs: seq<Event>)
    decreases |evs|
  {
    evs == [] || (Meets(g, s, evs[0]) && GuardedRun(cfg, g, Step(cfg, s, evs[0]).server, evs[1..]))
  }

  lemma {:induction false} GuardedIsPossible(cfg: Config, g: Guards, s: Server, evs: seq<Event>)
    requires GuardedRun(cfg, g, s, evs)
    ensures PossibleRun(cfg, s, evs)
    decreases |evs|
  {
    if evs != [] {
      GuardedIsPossible(cfg, g, Step(cfg, s, evs[0]).server, evs[1..]);
    }
  }

  /** Dropping leases, or changing anything but leases and scans, keeps exclusivity. */
  lemma FewerActive(s: Server, s': Server)
    requires Exclusive(s) && s'.scans == s.scans
    requires forall m :: Active(s', m) ==> Active(s, m) && s'.leases[m].ip == s.leases[m].ip
    ensures Exclusive(s')
  {
  }

  lemma ScanKeepsExclusive(cfg: Config, s: Server, m: Mac, purpose: Purpose, used: set<Ip>, started: real, ip: Ip,
                           now: real)
    requires Exclusive(s) && s.scans == map[] && forall x :: x != m && Active(s, x) ==> s.leases[x].ip in used
    ensures Exclusive(ScanFrom(cfg, s, m, purpose, used, started, ip, now).server)
  {
    ScanChangesOnly(cfg, s, m, purpose, used, started, ip, now);
    var s' := ScanFrom(cfg, s, m, purpose, used, started, ip, now).server;
    hide ScanFrom;
    assert forall x :: Active(s', x) <==> Active(s, x);
  }

  /** Giving m a lease that no other active lease occupies. */
  lemma LeaseKeepsExclusive(s: Server, s': Server, m: Mac)
    requires Exclusive(s) && s.scans == map[] && s'.scans == map[] && m in s'.leases &&
             s'.leases == s.leases[m := s'.leases[m]]
    requires forall x :: x != m && Active(s, x) ==> s.leases[x].ip != s'.leases[m].ip
    ensures Exclusive(s')
  {
  }

  lemma DiscoverKeepsExclusive(cfg: Config, s: Server, m: Mac, now: real)
    requires Exclusive(s) && Clear(s, m, now)
    ensures Exclusive(DiscoverStep(cfg, s, m, now).server)
  {
    if !Holds(s, m, Allocated) {
      OthersAreUsed(s, m, now);
      hide ScanFrom, Exclusive;
      ScanKeepsExclusive(cfg, s, m, ForOffer, Used(s, now), now, cfg.startIp, now);
    }
  }

  lemma RequestKeepsExclusive(cfg: Config, s: Server, m: Mac, requested: Option<Ip>, now: real)
    requires Exclusive(s) && Clear(s, m, now)
    ensures Exclusive(RequestStep(cfg, s, m, requested, now).server)
  {
    if Active(s, m) {
      OwnAddressIsFree(s, m);
      hide Exclusive;
      if Holds(s, m, Offered) {
        LeaseKeepsExclusive(s, Allocate(cfg, s, m, s.leases[m].ip, now), m);
      } else {
        LeaseKeepsExclusive(s, Renew(cfg, s, m, now), m);
      }
    } else {
      OthersAreUsed(s, m, now);
      hide ScanFrom, Exclusive;
      ScanKeepsExclusive(cfg, s, m, ForAck(now), Used(s, now), now, cfg.startIp, now);
    }
  }

  lemma RememberKeeps(s0: Server, m: Mac, hostname: Name, now: real)
    requires Exclusive(s0)
    ensures Exclusive(Remember(s0, m, hostname)) && Remember(s0, m, hostname).scans == s0.scans
    ensures Clear(s0, m, now) ==> Clear(Remember(s0, m, hostname), m, now)
  {
    var s := Remember(s0, m, hostname);
    assert forall x :: Active(s, x) <==> Active(s0, x);
    assert forall x :: Expired(s, x, now) <==> Expired(s0, x, now);
    FewerActive(s0, s);
  }

  lemma LeavingKeepsExclusive(s: Server, m: Mac, now: real)
    requires Exclusive(s)
    ensures Exclusive(ReleaseLease(s, m)) && Exclusive(DeclineStep(s, m, now))
  {
    hide AddressRemoved, Exclusive;
    var noted := if m in s.leases then s.(conflicts := s.conflicts[s.leases[m].ip := now]) else s;
    FewerActive(s, ReleaseLease(s, m));
    assert DeclineStep(s, m, now) == ReleaseLease(noted, m);
    FewerActive(s, ReleaseLease(noted, m));
  }

  lemma ReceiveKeepsExclusive(cfg: Config, s0: Server, m: Mac, msg: Message, hostname: Name, now: real)
    requires Exclusive(s0) && Meets(ALL_GUARDS, s0, Receive(m, msg, hostname, now))
    ensures Exclusive(ReceiveStep(cfg, s0, m, msg, hostname, now).server)
  {
    var s := Remember(s0, m, hostname);
    RememberKeeps(s0, m, hostname, now);
    hide Exclusive, ReleaseLease, DeclineStep, DiscoverStep, RequestStep;
    match msg
    case Discover => DiscoverKeepsExclusive(cfg, s, m, now);
    case Request(requested) => RequestKeepsExclusive(cfg, s, m, requested, now);
    case Release => LeavingKeepsExclusive(s, m, now);
    case Decline => LeavingKeepsExclusive(s, m, now);
    case Other =>
  }

  lemma OwnAddressIsFree(s: Server, m: Mac)
    requires Exclusive(s) && Active(s, m)
    ensures forall x :: x != m && Active(s, x) ==> s.leases[x].ip != s.leases[m].ip
  {
  }

  lemma OthersAreUsed(s: Server, m: Mac, now: real)
    requires NoOtherOffers(s, m) && NoneExpired(s, now)
    ensures forall x :: x != m && Active(s, x) ==> s.leases[x].ip in Used(s, now)
  {
    forall x | x != m && Active(s, x) ensures s.leases[x].ip in Used(s, now) {
      assert !Expired(s, x, now);
    }
  }

  lemma ResumeKeepsExclusive(cfg: Config, s0: Server, m: Mac, now: real)
    requires Exclusive(s0) && m in s0.scans
    ensures Exclusive(ResumeStep(cfg, s0, m, now).server)
  {
    var scan, s := s0.scans[m], Resumed(s0, m);
    assert s.scans == map[];
    assert forall x :: Active(s, x) <==> Active(s0, x);
    assert Exclusive(s);
    assert forall x :: x != m && Active(s, x) ==> s.leases[x].ip in scan.used;
    hide ScanFrom, Exclusive;
    if !(scan.ip in s0.probing && s0.probing[scan.ip]) {
      var s1 := s.(conflicts := s.conflicts[scan.ip := scan.probedAt]);
      assert forall x :: Active(s1, x) <==> Active(s, x);
      FewerActive(s, s1);
      ScanKeepsExclusive(cfg, s1, m, scan.purpose, scan.used, scan.now, scan.ip + 1, now);
    } else if scan.purpose.ForOffer? {
      LeaseKeepsExclusive(s, ResumeStep(cfg, s0, m, now).server, m);
    } else {
      LeaseKeepsExclusive(s, Allocate(cfg, s, m, scan.ip, scan.purpose.now), m);
    }
  }

  lemma StepKeepsExclusive(cfg: Config, s: Server, ev: Event)
    requires Exclusive(s) && Meets(ALL_GUARDS, s, ev)
    ensures Exclusive(Step(cfg, s, ev).server)
  {
    match ev
    case Receive(m, msg, hostname, now) => ReceiveKeepsExclusive(cfg, s, m, msg, hostname, now);
    case Resume(m, now) => ResumeKeepsExclusive(cfg, s, m, now);
    case ArpReply(ip) => FewerActive(s, ArpReplyStep(s, ip));
    case Reap(now) => FewerActive(s, ReapStep(s, now));
  }

  lemma {:induction false} SerialRunKeeps(cfg: Config, s: Server, evs: seq<Event>)
    requires Exclusive(s) && GuardedRun(cfg, ALL_GUARDS, s, evs)
    ensures PossibleRun(cfg, s, evs) && Exclusive(Run(cfg, s, evs))
    decreases |evs|
  {
    if evs != [] {
      StepKeepsExclusive(cfg, s, evs[0]);
      SerialRunKeeps(cfg, Step(cfg, s, evs[0]).server, evs[1..]);
    }
  }

  /**
  In a run that meets all three guards no two ALLOCATED leases share an address, and every lease lies in the pool.
  */
  lemma SerialRunsNeverShare(cfg: Config, evs: seq<Event>)
    requires GuardedRun(cfg, ALL_GUARDS, EMPTY, evs)
    ensures PossibleRun(cfg, EMPTY, evs)
    ensures var s := Run(cfg, EMPTY, evs);
            && (forall m, x :: m != x && Holds(s, m, Allocated) && Holds(s, x, Allocated) ==>
                s.leases[m].ip != s.leases[x].ip)
            && (forall m :: m in s.leases ==> cfg.startIp <= s.leases[m].ip <= cfg.endIp)
  {
    SerialRunKeeps(cfg, EMPTY, evs);
    RunKeepsSound(cfg, EMPTY, evs);
  }
}
