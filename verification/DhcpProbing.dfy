/**
The ARP probe over runs: which address a scan probes, that an address which answered is not handed out, and how long a
conflict keeps an address from being probed again.
*/
module DhcpProbing {
  import opened Wrappers
  import opened DnsRecords
  import opened Dhcp
  import opened DhcpRuns
  import opened DhcpSharing

  // ---------------------------------------------------------------- which address is probed

  /** The address was in conflict less than `conflictTtl` ago. */
  predicate Conflicting(cfg: Config, conflicts: map<Ip, real>, ip: Ip, now: real) {
    ip in conflicts && now - conflicts[ip] <= cfg.conflictTtl
  }

  /** An address of the pool that is not in use and not in conflict. */
  predicate Free(cfg: Config, conflicts: map<Ip, real>, used: set<Ip>, ip: Ip, now: real) {
    cfg.startIp <= ip <= cfg.endIp && ip !in used && !Conflicting(cfg, conflicts, ip, now)
  }

  /** found is the first free address from `from` on. */
  ghost predicate FirstFree(cfg: Config, conflicts: map<Ip, real>, used: set<Ip>, from: Ip, found: Ip, now: real) {
    from <= found && Free(cfg, conflicts, used, found, now) &&
    forall x :: from <= x < found ==> !Free(cfg, conflicts, used, x, now)
  }

  /** No recent conflict is lost, and none is made up. */
  ghost predicate KeepsConflicts(cfg: Config, conflicts: map<Ip, real>, conflicts': map<Ip, real>, now: real) {
    && (forall x :: x in conflicts' ==> x in conflicts && conflicts'[x] == conflicts[x])
    && (forall x :: Conflicting(cfg, conflicts, x, now) ==> x in conflicts')
  }

  /** A scan probes the first free address, or nothing when there is none. */
  lemma {:induction false} ScanProbesFirstFree(cfg: Config, s: Server, m: Mac, purpose: Purpose, used: set<Ip>,
                                               started: real, ip: Ip, now: real)
    requires m !in s.scans && cfg.startIp <= ip
    ensures var r := ScanFrom(cfg, s, m, purpose, used, started, ip, now).server;
            && KeepsConflicts(cfg, s.conflicts, r.conflicts, now)
            && (if m in r.scans then
                  && r.scans == s.scans[m := Scan(purpose, used, started, now, r.scans[m].ip)]
                  && r.probing == s.probing[r.scans[m].ip := true]
                  && FirstFree(cfg, s.conflicts, used, ip, r.scans[m].ip, now)
                else
                  r.scans == s.scans && r.probing == s.probing && forall x :: ip <= x ==>
                    !Free(cfg, s.conflicts, used, x, now))
    decreases cfg.endIp + 1 - ip
  {
    if ip <= cfg.endIp {
      var s' := s.(conflicts := Recent(cfg, s.conflicts, now));
      RecentIsRecent(cfg, s.conflicts, used, now);
      hide Recent, KeepsConflicts, Conflicting;
      if ip in used {
        ScanProbesFirstFree(cfg, s, m, purpose, used, started, ip + 1, now);
      } else if ip in s'.conflicts {
        ScanProbesFirstFree(cfg, s', m, purpose, used, started, ip + 1, now);
        StillKept(cfg, s.conflicts, s'.conflicts,
                  ScanFrom(cfg, s', m, purpose, used, started, ip + 1, now).server.conflicts, now);
      }
    } else {
      NothingLost(cfg, s.conflicts, now);
    }
  }

  lemma RecentIsRecent(cfg: Config, conflicts: map<Ip, real>, used: set<Ip>, now: real)
    ensures KeepsConflicts(cfg, conflicts, Recent(cfg, conflicts, now), now)
    ensures forall x :: x in Recent(cfg, conflicts, now) <==> Conflicting(cfg, conflicts, x, now)
    ensures forall x :: Free(cfg, Recent(cfg, conflicts, now), used, x, now) <==> Free(cfg, conflicts, used, x, now)
  {
  }

  lemma StillKept(cfg: Config, a: map<Ip, real>, b: map<Ip, real>, c: map<Ip, real>, now: real)
    requires KeepsConflicts(cfg, a, b, now) && KeepsConflicts(cfg, b, c, now)
    ensures KeepsConflicts(cfg, a, c, now)
  {
  }

  lemma NothingLost(cfg: Config, conflicts: map<Ip, real>, now: real)
    ensures KeepsConflicts(cfg, conflicts, conflicts, now)
  {
  }

  /** An address that some client holds on an unexpired ALLOCATED lease. */
  ghost predicate Leased(s: Server, ip: Ip, now: real) {
    exists x :: Held(s, x, At(now)) == Some(ip)
  }

  lemma UsedIffLeased(s: Server, ip: Ip, now: real)
    ensures ip in Used(s, now) <==> Leased(s, ip, now)
  {
    if ip in Used(s, now) {
      var m :| m in s.leases && s.leases[m].state == Allocated && now < s.leases[m].expiresAt && s.leases[m].ip == ip;
      assert Held(s, m, At(now)) == Some(ip);
    }
  }

  /**
  What a DISCOVER, or a REQUEST by a client without a lease, probes first: the first address not leased and not in
  conflict.
  */
  lemma FirstProbeIsFree(cfg: Config, s: Server, m: Mac, purpose: Purpose, now: real)
    requires m !in s.scans
    ensures var r := StartScan(cfg, s, m, purpose, now).server;
            if m in r.scans then
              && cfg.startIp <= r.scans[m].ip <= cfg.endIp && !Leased(s, r.scans[m].ip, now)
              && !Conflicting(cfg, s.conflicts, r.scans[m].ip, now)
              && forall x :: cfg.startIp <= x < r.scans[m].ip ==>
                 Leased(s, x, now) || Conflicting(cfg, s.conflicts, x, now)
            else forall x :: cfg.startIp <= x <= cfg.endIp ==>
              Leased(s, x, now) || Conflicting(cfg, s.conflicts, x, now)
  {
    ScanProbesFirstFree(cfg, s, m, purpose, Used(s, now), now, cfg.startIp, now);
    hide ScanFrom;
    forall x ensures x in Used(s, now) <==> Leased(s, x, now) {
      UsedIffLeased(s, x, now);
    }
    hide Used, Leased, Conflicting;
    var r := StartScan(cfg, s, m, purpose, now).server;
    forall x | cfg.startIp <= x <= cfg.endIp && !Leased(s, x, now) && !Conflicting(cfg, s.conflicts, x, now)
      ensures Free(cfg, s.conflicts, Used(s, now), x, now)
    {
    }
  }

  // ---------------------------------------------------------------- the flag of a probe

  /** The address is being probed and nobody has answered. */
  predicate Unanswered(s: Server, ip: Ip) {
    ip in s.probing && s.probing[ip]
  }

  /** The event starts a probe of the address. */
  predicate Arms(cfg: Config, s: Server, ev: Event, ip: Ip)
    requires Possible(s, ev)
  {
    var s' := Step(cfg, s, ev).server;
    (ev.Receive? || ev.Resume?) && ev.mac in s'.scans && s'.scans[ev.mac].ip == ip
  }

  /** Somebody answers for the address, or a probe of it ends. */
  predicate Disarms(s: Server, ev: Event, ip: Ip)
    requires Possible(s, ev)
  {
    ev == ArpReply(ip) || (ev.Resume? && s.scans[ev.mac].ip == ip)
  }

  lemma ReceiveArms(cfg: Config, s: Server, m: Mac, msg: Message, hostname: Name, now: real, ip: Ip)
    requires Possible(s, Receive(m, msg, hostname, now))
    ensures var r := ReceiveStep(cfg, s, m, msg, hostname, now).server;
            Unanswered(r, ip) <==> (m in r.scans && r.scans[m].ip == ip) || Unanswered(s, ip)
  {
    hide ScanFrom, StartScan, ReleaseLease, Allocate, Renew;
    var s0 := Remember(s, m, hostname);
    StartArms(cfg, s0, m, ForOffer, now, ip);
    StartArms(cfg, s0, m, ForAck(now), now, ip);
    ReleaseKeepsProbes(s0, m, now);
    RenewalsKeepProbes(cfg, s0, m, now);
  }

  lemma StartArms(cfg: Config, s: Server, m: Mac, purpose: Purpose, now: real, ip: Ip)
    requires m !in s.scans
    ensures var r := StartScan(cfg, s, m, purpose, now).server;
            Unanswered(r, ip) <==> (m in r.scans && r.scans[m].ip == ip) || Unanswered(s, ip)
  {
    ScanProbesFirstFree(cfg, s, m, purpose, Used(s, now), now, cfg.startIp, now);
    hide ScanFrom, KeepsConflicts, FirstFree, Free;
  }

  lemma ReleaseKeepsProbes(s: Server, m: Mac, now: real)
    ensures ReleaseLease(s, m).probing == s.probing && ReleaseLease(s, m).scans == s.scans
    ensures DeclineStep(s, m, now).probing == s.probing && DeclineStep(s, m, now).scans == s.scans
  {
    hide AddressRemoved;
  }

  lemma RenewalsKeepProbes(cfg: Config, s: Server, m: Mac, now: real)
    ensures m in s.leases ==> Renew(cfg, s, m, now).probing == s.probing && Renew(cfg, s, m, now).scans == s.scans
    ensures forall ip :: Allocate(cfg, s, m, ip, now).probing == s.probing
    ensures forall ip :: Allocate(cfg, s, m, ip, now).scans == s.scans
  {
    hide Added;
  }

  lemma ResumeArms(cfg: Config, s: Server, m: Mac, now: real, ip: Ip)
    requires m in s.scans && cfg.startIp <= s.scans[m].ip
    ensures var r := ResumeStep(cfg, s, m, now).server;
            Unanswered(r, ip) <==> (m in r.scans && r.scans[m].ip == ip) || (Unanswered(s, ip) && s.scans[m].ip != ip)
  {
    hide ScanFrom, AddressRemoved, Added;
    var scan, s1 := s.scans[m], Resumed(s, m);
    var s2 := s1.(conflicts := s1.conflicts[scan.ip := scan.probedAt]);
    ScanProbesFirstFree(cfg, s2, m, scan.purpose, scan.used, scan.now, scan.ip + 1, now);
  }

  /** A probe is unanswered exactly if it was started after the last answer and the last end of a probe. */
  lemma StepUnansweredIff(cfg: Config, s: Server, ev: Event, ip: Ip)
    requires Sound(cfg, s) && Possible(s, ev)
    ensures Unanswered(Step(cfg, s, ev).server, ip) <==>
            Arms(cfg, s, ev, ip) || (Unanswered(s, ip) && !Disarms(s, ev, ip))
  {
    hide ReceiveStep, ResumeStep, ReapStep;
    match ev
    case Receive(m, msg, hostname, now) => ReceiveArms(cfg, s, m, msg, hostname, now, ip);
    case Resume(m, now) => ResumeArms(cfg, s, m, now, ip);
    case ArpReply(x) =>
    case Reap(now) => ReapKeepsProbes(cfg, s, now);
  }

  lemma ReapKeepsProbes(cfg: Config, s: Server, now: real)
    ensures ReapStep(s, now).probing == s.probing && ReapStep(s, now).scans == s.scans &&
            ReapStep(s, now).conflicts == s.conflicts
  {
  }

  // ---------------------------------------------------------------- an address that answers is not handed out

  /** A wake-up hands out the probed address exactly if nobody has answered for it. */
  lemma WakeUpHandsOutIff(cfg: Config, s: Server, m: Mac, now: real)
    requires m in s.scans
    ensures var ip, reply := s.scans[m].ip, ResumeStep(cfg, s, m, now).reply;
            && (reply == Offer(ip) || reply == Ack(ip) <==> Unanswered(s, ip))
            && (Unanswered(s, ip) <==> reply != Silence)
            && (Unanswered(s, ip) ==> (reply == Offer(ip) <==> s.scans[m].purpose.ForOffer?))
  {
    var scan, s1 := s.scans[m], Resumed(s, m);
    var s2 := s1.(conflicts := s1.conflicts[scan.ip := scan.probedAt]);
    SilentScan(cfg, s2, m, scan.purpose, scan.used, scan.now, scan.ip + 1, now);
    hide ScanFrom, Allocate;
  }

  lemma {:induction false} SilentScan(cfg: Config, s: Server, m: Mac, purpose: Purpose, used: set<Ip>, started: real,
                                      ip: Ip, now: real)
    ensures ScanFrom(cfg, s, m, purpose, used, started, ip, now).reply == Silence
    decreases cfg.endIp + 1 - ip
  {
    if ip <= cfg.endIp {
      SilentScan(cfg, s, m, purpose, used, started, ip + 1, now);
      SilentScan(cfg, s.(conflicts := Recent(cfg, s.conflicts, now)), m, purpose, used, started, ip + 1, now);
    }
  }

  /** No event of the run starts a probe of the address. */
  predicate NoneArms(cfg: Config, s: Server, evs: seq<Event>, ip: Ip)
    requires PossibleRun(cfg, s, evs)
    decreases |evs|
  {
    evs != [] ==> !Arms(cfg, s, evs[0], ip) && NoneArms(cfg, Step(cfg, s, evs[0]).server, evs[1..], ip)
  }

  /** Nobody answers for the address during the run, and no probe of it ends. */
  predicate NoneDisarms(cfg: Config, s: Server, evs: seq<Event>, ip: Ip)
    requires PossibleRun(cfg, s, evs)
    decreases |evs|
  {
    evs != [] ==> !Disarms(s, evs[0], ip) && NoneDisarms(cfg, Step(cfg, s, evs[0]).server, evs[1..], ip)
  }

  lemma {:induction false} RunStaysAnswered(cfg: Config, s: Server, evs: seq<Event>, ip: Ip)
    requires Sound(cfg, s) && PossibleRun(cfg, s, evs) && NoneArms(cfg, s, evs, ip) && !Unanswered(s, ip)
    ensures !Unanswered(Run(cfg, s, evs), ip)
    decreases |evs|
  {
    hide Sound, Step, Possible, Arms, Disarms, Unanswered;
    if evs != [] {
      StepUnansweredIff(cfg, s, evs[0], ip);
      StepKeepsSound(cfg, s, evs[0]);
      RunStaysAnswered(cfg, Step(cfg, s, evs[0]).server, evs[1..], ip);
    }
  }

  lemma {:induction false} RunStaysUnanswered(cfg: Config, s: Server, evs: seq<Event>, ip: Ip)
    requires Sound(cfg, s) && PossibleRun(cfg, s, evs) && NoneDisarms(cfg, s, evs, ip) && Unanswered(s, ip)
    ensures Unanswered(Run(cfg, s, evs), ip)
    decreases |evs|
  {
    hide Sound, Step, Possible, Arms, Disarms, Unanswered;
    if evs != [] {
      StepUnansweredIff(cfg, s, evs[0], ip);
      StepKeepsSound(cfg, s, evs[0]);
      RunStaysUnanswered(cfg, Step(cfg, s, evs[0]).server, evs[1..], ip);
    }
  }

  /**
  After an ARP reply for an address, whatever happens next, a handler that wakes up from probing it neither offers nor
  acknowledges it, unless a probe of it was started in between. Without an ARP reply or another wake-up it hands it out.
  */
  lemma AnsweredIsNotHandedOut(cfg: Config, s: Server, evs: seq<Event>, ip: Ip, m: Mac, now: real)
    requires Sound(cfg, s) && PossibleRun(cfg, ArpReplyStep(s, ip), evs) && NoneArms(cfg, ArpReplyStep(s, ip), evs, ip)
    requires var last := Run(cfg, ArpReplyStep(s, ip), evs); m in last.scans && last.scans[m].ip == ip
    ensures ResumeStep(cfg, Run(cfg, ArpReplyStep(s, ip), evs), m, now).reply == Silence
  {
    StepKeepsSound(cfg, s, ArpReply(ip));
    StepUnansweredIff(cfg, s, ArpReply(ip), ip);
    assert Step(cfg, s, ArpReply(ip)).server == ArpReplyStep(s, ip);
    RunStaysAnswered(cfg, ArpReplyStep(s, ip), evs, ip);
    hide Run, ResumeStep;
    WakeUpHandsOutIff(cfg, Run(cfg, ArpReplyStep(s, ip), evs), m, now);
  }

  lemma UnansweredIsHandedOut(cfg: Config, s: Server, ev: Event, evs: seq<Event>, m: Mac, now: real)
    requires Sound(cfg, s) && Possible(s, ev) && (ev.Receive? || ev.Resume?) && ev.mac == m &&
             m in Step(cfg, s, ev).server.scans
    requires var s1 := Step(cfg, s, ev).server; var ip := s1.scans[m].ip;
             PossibleRun(cfg, s1, evs) && NoneDisarms(cfg, s1, evs, ip) &&
             var last := Run(cfg, s1, evs); m in last.scans && last.scans[m].ip == ip
    ensures var ip := Step(cfg, s, ev).server.scans[m].ip;
            ResumeStep(cfg, Run(cfg, Step(cfg, s, ev).server, evs), m, now).reply in {Offer(ip), Ack(ip)}
  {
    hide Step, ResumeStep, Sound, Possible;
    var s1 := Step(cfg, s, ev).server;
    StepKeepsSound(cfg, s, ev);
    StepUnansweredIff(cfg, s, ev, s1.scans[m].ip);
    RunStaysUnanswered(cfg, s1, evs, s1.scans[m].ip);
    hide Run, Unanswered;
    WakeUpHandsOutIff(cfg, Run(cfg, s1, evs), m, now);
  }

  // ---------------------------------------------------------------- how long a conflict lasts

  /** The address was in conflict at time t or later, and nobody is probing it. */
  predicate Listed(s: Server, ip: Ip, t: real) {
    ip in s.conflicts && s.conflicts[ip] >= t && forall x :: x in s.scans ==> s.scans[x].ip != ip
  }

  /** The time of the event is between t and the end of a conflict that began then. */
  predicate Within(cfg: Config, ev: Event, t: real) {
    ev.ArpReply? || t <= ev.now <= t + cfg.conflictTtl
  }

  lemma ScanKeepsListed(cfg: Config, s: Server, m: Mac, purpose: Purpose, used: set<Ip>, started: real, from: Ip,
                        now: real, ip: Ip, t: real)
    requires Listed(s, ip, t) && m !in s.scans && cfg.startIp <= from && now <= t + cfg.conflictTtl
    ensures Listed(ScanFrom(cfg, s, m, purpose, used, started, from, now).server, ip, t)
  {
    ScanProbesFirstFree(cfg, s, m, purpose, used, started, from, now);
    hide ScanFrom;
    assert Conflicting(cfg, s.conflicts, ip, now);
  }

  lemma ReceiveKeepsListed(cfg: Config, s: Server, m: Mac, msg: Message, hostname: Name, now: real, ip: Ip, t: real)
    requires Listed(s, ip, t) && m !in s.scans && t <= now <= t + cfg.conflictTtl
    ensures Listed(ReceiveStep(cfg, s, m, msg, hostname, now).server, ip, t)
  {
    hide ScanFrom, AddressRemoved, Added;
    var s0 := Remember(s, m, hostname);
    ScanKeepsListed(cfg, s0, m, ForOffer, Used(s0, now), now, cfg.startIp, now, ip, t);
    match msg
    case Request(_) => ScanKeepsListed(cfg, s0, m, ForAck(now), Used(s0, now), now, cfg.startIp, now, ip, t);
    case _ =>
  }

  lemma ResumeKeepsListed(cfg: Config, s: Server, m: Mac, now: real, ip: Ip, t: real)
    requires Listed(s, ip, t) && m in s.scans && cfg.startIp <= s.scans[m].ip && t <= now <= t + cfg.conflictTtl
    ensures Listed(ResumeStep(cfg, s, m, now).server, ip, t)
  {
    hide ScanFrom, Added;
    var scan, s1 := s.scans[m], Resumed(s, m);
    var s2 := s1.(conflicts := s1.conflicts[scan.ip := scan.probedAt]);
    ScanKeepsListed(cfg, s2, m, scan.purpose, scan.used, scan.now, scan.ip + 1, now, ip, t);
  }

  /** Until the conflict is over every step keeps the address listed, so none starts a probe of it. */
  lemma StepKeepsListed(cfg: Config, s: Server, ev: Event, ip: Ip, t: real)
    requires Sound(cfg, s) && Possible(s, ev) && Listed(s, ip, t) && Within(cfg, ev, t)
    ensures Listed(Step(cfg, s, ev).server, ip, t) && !Arms(cfg, s, ev, ip)
  {
    hide ReceiveStep, ResumeStep, ReapStep;
    match ev
    case Receive(m, msg, hostname, now) => ReceiveKeepsListed(cfg, s, m, msg, hostname, now, ip, t);
    case Resume(m, now) => ResumeKeepsListed(cfg, s, m, now, ip, t);
    case ArpReply(x) =>
    case Reap(now) => ReapKeepsProbes(cfg, s, now);
  }

  /** Whatever happens until `conflictTtl` has passed, no scan probes the address. */
  lemma {:induction false} RunKeepsListed(cfg: Config, s: Server, evs: seq<Event>, ip: Ip, t: real)
    requires Sound(cfg, s) && PossibleRun(cfg, s, evs) && Listed(s, ip, t) && forall ev :: ev in evs ==>
             Within(cfg, ev, t)
    ensures Listed(Run(cfg, s, evs), ip, t) && NoneArms(cfg, s, evs, ip)
    decreases |evs|
  {
    hide Sound, Step, Possible, Arms, Listed, Within;
    if evs != [] {
      StepKeepsListed(cfg, s, evs[0], ip, t);
      StepKeepsSound(cfg, s, evs[0]);
      RunKeepsListed(cfg, Step(cfg, s, evs[0]).server, evs[1..], ip, t);
    }
  }

  /**
  A wake-up that finds an answer lists the address from the time its probe was sent, and goes on to the next free
  address.
  */
  lemma AnswerIsListed(cfg: Config, s: Server, m: Mac, now: real)
    requires m in s.scans && cfg.startIp <= s.scans[m].ip && !Unanswered(s, s.scans[m].ip)
    ensures var scan, s' := s.scans[m], ResumeStep(cfg, s, m, now).server;
            var conflicts := s.conflicts[scan.ip := scan.probedAt];
            && s'.leases == s.leases && s'.ipToMac == s.ipToMac && s'.scans - {m} == s.scans - {m}
            && (now - scan.probedAt <= cfg.conflictTtl ==>
                scan.ip in s'.conflicts && s'.conflicts[scan.ip] == scan.probedAt)
            && (m in s'.scans ==> FirstFree(cfg, conflicts, scan.used, scan.ip + 1, s'.scans[m].ip, now))
            && (m !in s'.scans ==> forall x :: scan.ip < x ==> !Free(cfg, conflicts, scan.used, x, now))
  {
    var scan, s1 := s.scans[m], Resumed(s, m);
    var s2 := s1.(conflicts := s1.conflicts[scan.ip := scan.probedAt]);
    ScanProbesFirstFree(cfg, s2, m, scan.purpose, scan.used, scan.now, scan.ip + 1, now);
    ScanChangesOnly(cfg, s2, m, scan.purpose, scan.used, scan.now, scan.ip + 1, now);
    hide ScanFrom;
    assert s2.scans == s.scans - {m};
  }

  /**
  The whole story of a conflict: somebody answers for a probed address; the handler that wakes up hands out nothing, and
  from then on, until `conflictTtl` after the probe was sent, no scan probes the address.
  */
  lemma AnsweredIsAvoided(cfg: Config, s: Server, evs: seq<Event>, ip: Ip, m: Mac, now: real, later: seq<Event>)
    requires Sound(cfg, s) && PossibleRun(cfg, ArpReplyStep(s, ip), evs) && NoneArms(cfg, ArpReplyStep(s, ip), evs, ip)
    requires var last := Run(cfg, ArpReplyStep(s, ip), evs);
             && m in last.scans && last.scans[m].ip == ip &&
                (forall x :: x in last.scans && x != m ==> last.scans[x].ip != ip)
             && now - last.scans[m].probedAt <= cfg.conflictTtl
             && PossibleRun(cfg, ResumeStep(cfg, last, m, now).server, later)
             && forall ev :: ev in later ==> Within(cfg, ev, last.scans[m].probedAt)
    ensures var last := Run(cfg, ArpReplyStep(s, ip), evs);
            && ResumeStep(cfg, last, m, now).reply == Silence
            && NoneArms(cfg, ResumeStep(cfg, last, m, now).server, later, ip)
  {
    hide Sound, ResumeStep, Run, ArpReplyStep, Unanswered, Listed;
    var last := Run(cfg, ArpReplyStep(s, ip), evs);
    AnsweredIsNotHandedOut(cfg, s, evs, ip, m, now);
    WakeUpHandsOutIff(cfg, last, m, now);
    AnsweredRunIsSound(cfg, s, evs, ip, m, now);
    AnswerMakesListed(cfg, last, m, now);
    RunKeepsListed(cfg, ResumeStep(cfg, last, m, now).server, later, ip, last.scans[m].probedAt);
  }

  lemma AnsweredRunIsSound(cfg: Config, s: Server, evs: seq<Event>, ip: Ip, m: Mac, now: real)
    requires Sound(cfg, s) && PossibleRun(cfg, ArpReplyStep(s, ip), evs) &&
             m in Run(cfg, ArpReplyStep(s, ip), evs).scans
    ensures var last := Run(cfg, ArpReplyStep(s, ip), evs);
            cfg.startIp <= last.scans[m].ip && Sound(cfg, ResumeStep(cfg, last, m, now).server)
  {
    var last := Run(cfg, ArpReplyStep(s, ip), evs);
    assert ArpReplyStep(s, ip) == Step(cfg, s, ArpReply(ip)).server;
    StepKeepsSound(cfg, s, ArpReply(ip));
    RunKeepsSound(cfg, ArpReplyStep(s, ip), evs);
    ResumeKeepsSound(cfg, last, m, now);
  }

  lemma AnswerMakesListed(cfg: Config, s: Server, m: Mac, now: real)
    requires m in s.scans && cfg.startIp <= s.scans[m].ip && !Unanswered(s, s.scans[m].ip)
    requires now - s.scans[m].probedAt <= cfg.conflictTtl && forall x :: x in s.scans && x != m ==>
             s.scans[x].ip != s.scans[m].ip
    ensures Listed(ResumeStep(cfg, s, m, now).server, s.scans[m].ip, s.scans[m].probedAt)
  {
    hide ResumeStep, Free;
    AnswerIsListed(cfg, s, m, now);
    var s' := ResumeStep(cfg, s, m, now).server;
    forall x | x in s'.scans ensures s'.scans[x].ip != s.scans[m].ip {
      if x != m {
        assert x in s'.scans - {m} && x in s.scans - {m} && (s'.scans - {m})[x] == (s.scans - {m})[x];
      }
    }
  }

  /**
  A declined address that nobody is probing is listed from then on; so no scan probes it until `conflictTtl` has
  passed.
  */
  lemma DeclinedIsAvoided(cfg: Config, s: Server, m: Mac, hostname: Name, now: real, later: seq<Event>)
    requires Sound(cfg, s) && m in s.leases && m !in s.scans && forall x :: x in s.scans ==>
             s.scans[x].ip != s.leases[m].ip
    requires var s' := Step(cfg, s, Receive(m, Decline, hostname, now)).server;
             PossibleRun(cfg, s', later) && forall ev :: ev in later ==> Within(cfg, ev, now)
    ensures var s' := Step(cfg, s, Receive(m, Decline, hostname, now)).server;
            && s.leases[m].ip in s'.conflicts && s'.conflicts[s.leases[m].ip] == now
            && NoneArms(cfg, s', later, s.leases[m].ip)
  {
    var ev := Receive(m, Decline, hostname, now);
    assert Listed(Step(cfg, s, ev).server, s.leases[m].ip, now);
    StepKeepsSound(cfg, s, ev);
    hide Step, Sound;
    RunKeepsListed(cfg, Step(cfg, s, ev).server, later, s.leases[m].ip, now);
  }

  /**
  Once the conflict is over the address is as good as any other: a scan that gets to it and finds it unleased probes
  it.
  */
  lemma ConflictsEnd(cfg: Config, s: Server, m: Mac, purpose: Purpose, now: real, ip: Ip)
    requires m !in s.scans && cfg.startIp <= ip <= cfg.endIp && !Leased(s, ip, now)
    requires ip in s.conflicts ==> now - s.conflicts[ip] > cfg.conflictTtl
    requires forall x :: cfg.startIp <= x < ip ==> Leased(s, x, now) || Conflicting(cfg, s.conflicts, x, now)
    ensures var r := StartScan(cfg, s, m, purpose, now).server; m in r.scans && r.scans[m].ip == ip
  {
    FirstProbeIsFree(cfg, s, m, purpose, now);
    hide StartScan, Leased;
    assert !Conflicting(cfg, s.conflicts, ip, now);
  }
}
