/** Exactly which steps, and which runs, leave an ALLOCATED lease without its entry in `ip_to_mac`. */
module DhcpCompleteness {
  import opened Wrappers
  import opened DnsRecords
  import opened Dhcp
  import opened DhcpRuns
  import opened DhcpGuards
  import opened DhcpSharing

  /** `ip_to_mac` names the holder of every ALLOCATED lease. */
  ghost predicate Complete(s: Server) {
    forall m :: Held(s, m, Ever).Some? ==> Names(s.ipToMac, Held(s, m, Ever).value, m)
  }

  predicate Names(entries: map<Ip, Mac>, ip: Ip, m: Mac) {
    ip in entries && entries[ip] == m
  }

  /** A complete map names one holder per address, so no address is shared. */
  lemma CompleteIsUnique(s: Server)
    requires Complete(s)
    ensures Unique(s, Ever)
  {
  }

  /** The client an event serves with a grant or a release, and the address whose entry it writes or deletes. */
  function Touched(cfg: Config, s: Server, ev: Event): Option<(Mac, Ip)>
    requires Possible(s, ev)
  {
    var g, r := Granted(cfg, s, ev), Leaving(s, ev);
    if g.Some? then Some((g.value.client, g.value.ip))
    else if r.Some? && r.value in s.leases then Some((r.value, s.leases[r.value].ip))
    else None
  }

  /** The entry that the event touches, if there is one, is the client's own. */
  predicate TouchesOwnEntry(cfg: Config, s: Server, ev: Event)
    requires Possible(s, ev)
  {
    var t := Touched(cfg, s, ev);
    t.None? || t.value.1 !in s.ipToMac || s.ipToMac[t.value.1] == t.value.0
  }

  function EntriesAfter(cfg: Config, s: Server, ev: Event): map<Ip, Mac>
    requires Possible(s, ev)
  {
    var g, r := Granted(cfg, s, ev), Leaving(s, ev);
    if g.Some? then
      if Holds(s, g.value.client, Allocated) then s.ipToMac else s.ipToMac[g.value.ip := g.value.client]
    else if r.Some? && r.value in s.leases then s.ipToMac - {s.leases[r.value].ip}
    else if ev.Reap? then s.ipToMac - IpsOf(s, ExpiredClients(s, ev.now))
    else s.ipToMac
  }

  lemma RequestEntries(cfg: Config, s: Server, m: Mac, requested: Option<Ip>, now: real)
    ensures RequestStep(cfg, s, m, requested, now).server.ipToMac ==
      if GrantedLease(cfg, s, m, requested, now).Some? && !Holds(s, m, Allocated) then s.ipToMac[s.leases[m].ip := m]
        else s.ipToMac
  {
    ScanKeepsLeases(cfg, s, m, ForAck(now), Used(s, now), now, cfg.startIp, now);
    hide ScanFrom, Added;
  }

  lemma ReceiveEntries(cfg: Config, s: Server, m: Mac, msg: Message, hostname: Name, now: real)
    requires Possible(s, Receive(m, msg, hostname, now))
    ensures ReceiveStep(cfg, s, m, msg, hostname, now).server.ipToMac ==
            EntriesAfter(cfg, s, Receive(m, msg, hostname, now))
  {
    var s0 := Remember(s, m, hostname);
    ScanKeepsLeases(cfg, s0, m, ForOffer, Used(s0, now), now, cfg.startIp, now);
    hide ScanFrom, AddressRemoved, RequestStep;
    match msg
    case Discover =>
    case Request(requested) => RequestEntries(cfg, s0, m, requested, now);
    case Release =>
    case Decline =>
    case Other =>
  }

  lemma ResumeEntries(cfg: Config, s: Server, m: Mac, now: real)
    requires m in s.scans && !Holds(s, m, Allocated)
    ensures ResumeStep(cfg, s, m, now).server.ipToMac == EntriesAfter(cfg, s, Resume(m, now))
  {
    var scan, s1 := s.scans[m], Resumed(s, m);
    var s2 := s1.(conflicts := s1.conflicts[scan.ip := scan.probedAt]);
    ScanKeepsLeases(cfg, s2, m, scan.purpose, scan.used, scan.now, scan.ip + 1, now);
    hide ScanFrom, Added;
    if !(scan.ip in s.probing && s.probing[scan.ip]) {
      assert ResumeStep(cfg, s, m, now) == ScanFrom(cfg, s2, m, scan.purpose, scan.used, scan.now, scan.ip + 1, now);
    }
  }

  lemma StepEntries(cfg: Config, s: Server, ev: Event)
    requires Sound(cfg, s) && Possible(s, ev)
    ensures Step(cfg, s, ev).server.ipToMac == EntriesAfter(cfg, s, ev)
  {
    match ev
    case Receive(m, msg, hostname, now) => ReceiveEntries(cfg, s, m, msg, hostname, now);
    case Resume(m, now) => ResumeEntries(cfg, s, m, now);
    case ArpReply(ip) =>
    case Reap(now) =>
  }

  /** Reaping deletes only entries of the expired clients themselves. */
  lemma ReapKeepsComplete(cfg: Config, s: Server, now: real)
    requires Sound(cfg, s) && Complete(s)
    ensures Complete(ReapStep(s, now))
  {
    var s' := ReapStep(s, now);
    forall x | Held(s', x, Ever).Some? ensures Names(s'.ipToMac, Held(s', x, Ever).value, x) {
      assert Held(s, x, Ever) == Held(s', x, Ever);
      forall e | e in ExpiredClients(s, now) ensures s.leases[e].ip != s.leases[x].ip {
        assert Held(s, e, Ever) == Some(s.leases[e].ip);
      }
    }
  }

  /** Any step keeps the map complete exactly when the entry it touches, if there is one, is the client's own. */
  lemma StepKeepsCompleteIff(cfg: Config, s: Server, ev: Event)
    requires Sound(cfg, s) && Complete(s) && Possible(s, ev)
    ensures Complete(Step(cfg, s, ev).server) <==> TouchesOwnEntry(cfg, s, ev)
  {
    if ev.Reap? {
      ReapKeepsComplete(cfg, s, ev.now);
    } else {
      var s' := Step(cfg, s, ev).server;
      StepEntries(cfg, s, ev);
      forall x ensures Held(s', x, Ever) == HeldAfter(cfg, s, ev, x, Ever) {
        StepHeld(cfg, s, ev, x, Ever);
      }
      GrantReleasesNothing(cfg, s, ev);
      OwnersAreHeld(cfg, s);
      RenewalIsOwn(cfg, s, ev);
      hide Step, Sound, Granted, Leaving, Possible;
      EntriesDecide(cfg, s, ev, s');
    }
  }

  lemma OwnersAreHeld(cfg: Config, s: Server)
    requires Sound(cfg, s)
    ensures forall ip :: ip in s.ipToMac ==> Held(s, s.ipToMac[ip], Ever) == Some(ip)
  {
  }

  /** A grant to a client that holds an ALLOCATED lease is of the address it holds. */
  ghost predicate RenewsOwn(cfg: Config, s: Server, ev: Event)
    requires Possible(s, ev)
  {
    var g := Granted(cfg, s, ev);
    g.Some? && Holds(s, g.value.client, Allocated) ==> Held(s, g.value.client, Ever) == Some(g.value.ip)
  }

  lemma RenewalIsOwn(cfg: Config, s: Server, ev: Event)
    requires Sound(cfg, s) && Possible(s, ev)
    ensures RenewsOwn(cfg, s, ev)
  {
  }

  lemma EntriesDecide(cfg: Config, s: Server, ev: Event, s': Server)
    requires Complete(s) && Possible(s, ev) && !ev.Reap?
    requires forall ip :: ip in s.ipToMac ==> Held(s, s.ipToMac[ip], Ever) == Some(ip)
    requires s'.ipToMac == EntriesAfter(cfg, s, ev) && forall x :: Held(s', x, Ever) == HeldAfter(cfg, s, ev, x, Ever)
    requires Granted(cfg, s, ev).Some? ==> Leaving(s, ev).None?
    requires RenewsOwn(cfg, s, ev)
    ensures Complete(s') <==> TouchesOwnEntry(cfg, s, ev)
  {
    hide Granted, Leaving, Possible;
    var t := Touched(cfg, s, ev);
    if t.Some? && !TouchesOwnEntry(cfg, s, ev) {
      var owner := s.ipToMac[t.value.1];
      assert Held(s, owner, Ever) == Some(t.value.1);
      assert Held(s', owner, Ever) == Some(t.value.1);
      assert !Names(s'.ipToMac, t.value.1, owner);
    }
  }

  // ---------------------------------------------------------------- runs

  ghost predicate StaysComplete(cfg: Config, s: Server, evs: seq<Event>)
    requires PossibleRun(cfg, s, evs)
    decreases |evs|
  {
    Complete(s) && (evs != [] ==> StaysComplete(cfg, Step(cfg, s, evs[0]).server, evs[1..]))
  }

  predicate RunTouchesOwnEntries(cfg: Config, s: Server, evs: seq<Event>)
    requires PossibleRun(cfg, s, evs)
    decreases |evs|
  {
    evs != [] ==> TouchesOwnEntry(cfg, s, evs[0]) && RunTouchesOwnEntries(cfg, Step(cfg, s, evs[0]).server, evs[1..])
  }

  /**
  A possible run keeps the map complete throughout exactly when every event in it touches only the client's own entry.
  */
  lemma {:induction false} RunStaysCompleteIff(cfg: Config, s: Server, evs: seq<Event>)
    requires Sound(cfg, s) && Complete(s) && PossibleRun(cfg, s, evs)
    ensures StaysComplete(cfg, s, evs) <==> RunTouchesOwnEntries(cfg, s, evs)
    decreases |evs|
  {
    hide Complete, TouchesOwnEntry, Sound, Step, Possible;
    if evs != [] {
      StepKeepsCompleteIff(cfg, s, evs[0]);
      StepKeepsSound(cfg, s, evs[0]);
      if TouchesOwnEntry(cfg, s, evs[0]) {
        RunStaysCompleteIff(cfg, Step(cfg, s, evs[0]).server, evs[1..]);
      }
    }
  }

  // ---------------------------------------------------------------- the two failing inputs

  /** One address is offered to both clients; x's REQUEST is granted, and m's RELEASE deletes x's entry. */
  lemma ReleaseDropsOthersEntry(cfg: Config, m: Mac, x: Mac, now: real)
    requires cfg.startIp <= cfg.endIp && m != x
    ensures exists evs, s :: Leads(cfg, OFFERS, EMPTY, evs, s) && m !in s.scans &&
              Complete(s) && !Complete(Step(cfg, s, Receive(m, Release, [], now)).server)
  {
    var two := TwoOffers(cfg, m, x, now);
    var s := Step(cfg, two, Receive(x, Request(None), [], now)).server;
    var s' := Step(cfg, s, Receive(m, Release, [], now)).server;
    assert Held(s', x, Ever) == Some(cfg.startIp) && !Names(s'.ipToMac, cfg.startIp, x);
    assert Complete(s);
    GrantOneOfTwo(cfg, m, x, x, now);
  }

  /** One address is offered to both clients; m's REQUEST is granted, and x's REQUEST overwrites m's entry. */
  lemma GrantOverwritesOthersEntry(cfg: Config, m: Mac, x: Mac, now: real)
    requires cfg.startIp <= cfg.endIp && m != x
    ensures exists evs, s :: Leads(cfg, OFFERS, EMPTY, evs, s) && x !in s.scans &&
              Complete(s) && !Complete(Step(cfg, s, Receive(x, Request(None), [], now)).server)
  {
    var two := TwoOffers(cfg, m, x, now);
    var s := Step(cfg, two, Receive(m, Request(None), [], now)).server;
    var s' := Step(cfg, s, Receive(x, Request(None), [], now)).server;
    assert Held(s', m, Ever) == Some(cfg.startIp) && !Names(s'.ipToMac, cfg.startIp, m);
    assert Complete(s);
    GrantOneOfTwo(cfg, m, x, m, now);
  }

  lemma GrantOneOfTwo(cfg: Config, m: Mac, x: Mac, first: Mac, now: real)
    requires cfg.startIp <= cfg.endIp && m != x && (first == m || first == x)
    ensures exists evs :: Leads(cfg, OFFERS, EMPTY, evs,
                                Step(cfg, TwoOffers(cfg, m, x, now), Receive(first, Request(None), [], now)).server)
  {
    var two := TwoOffers(cfg, m, x, now);
    var s := Step(cfg, two, Receive(first, Request(None), [], now)).server;
    assert Leads(cfg, OFFERS, s, [], s) && MayAsk(OFFERS, two, first, now);
    hide Leads, MayAsk, Step;
    GrantNext(cfg, OFFERS, two, first, [], now, [], s);
    var evs := BothOffered(cfg, m, x, now, [Receive(first, Request(None), [], now)] + [], s);
  }
}
