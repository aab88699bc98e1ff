/** Exactly which steps, and which runs, leave a client's A record without its PTR record. */
module DhcpNames {
  import opened Wrappers
  import opened DnsRecords
  import opened Dhcp
  import opened DhcpRuns
  import opened DhcpUniqueness
  import opened DhcpGuards
  import opened DhcpSharing

  /** The name under which a client is registered when it is granted an address: from its message, or remembered. */
  function NameOf(s: Server, m: Mac, hostname: Name): Name {
    if hostname != [] then hostname else if m in s.hostnames then s.hostnames[m] else []
  }

  /** The name and address that the event registers. */
  function Registered(cfg: Config, s: Server, ev: Event): Option<(Name, Ip)>
    requires Possible(s, ev)
  {
    var g := Granted(cfg, s, ev);
    if g.None? then None
    else
      var name := NameOf(s, g.value.client, if ev.Receive? then ev.hostname else []);
      if name == [] then None else Some((name, g.value.ip))
  }

  /** The address that the event registers, if there is one, had no other name. */
  predicate TakesFreeName(cfg: Config, s: Server, ev: Event)
    requires Possible(s, ev)
  {
    var t := Registered(cfg, s, ev);
    t.None? || t.value.1 !in s.dns.ptr || s.dns.ptr[t.value.1] == t.value.0
  }

  function RecordsAfter(cfg: Config, s: Server, ev: Event): Records<Ip>
    requires Possible(s, ev)
  {
    var t, r := Registered(cfg, s, ev), Leaving(s, ev);
    if t.Some? then Added(s.dns, t.value.0, t.value.1)
    else if r.Some? && r.value in s.leases then AddressRemoved(s.dns, s.leases[r.value].ip)
    else if ev.Reap? then AllRemoved(s.dns, IpsOf(s, ExpiredClients(s, ev.now)))
    else s.dns
  }

  lemma ScanKeepsRecords(cfg: Config, s: Server, m: Mac, purpose: Purpose, used: set<Ip>, started: real, ip: Ip,
                         now: real)
    ensures ScanFrom(cfg, s, m, purpose, used, started, ip, now).server.dns == s.dns
  {
    ScanChangesOnly(cfg, s, m, purpose, used, started, ip, now);
  }

  lemma RequestRecords(cfg: Config, s: Server, m: Mac, requested: Option<Ip>, now: real)
    ensures RequestStep(cfg, s, m, requested, now).server.dns ==
              if GrantedLease(cfg, s, m, requested, now).Some? then Added(s.dns, NameOf(s, m, []), s.leases[m].ip)
                else s.dns
  {
    ScanKeepsRecords(cfg, s, m, ForAck(now), Used(s, now), now, cfg.startIp, now);
    hide ScanFrom;
  }

  lemma ReceiveRecords(cfg: Config, s: Server, m: Mac, msg: Message, hostname: Name, now: real)
    requires Possible(s, Receive(m, msg, hostname, now))
    ensures ReceiveStep(cfg, s, m, msg, hostname, now).server.dns ==
            RecordsAfter(cfg, s, Receive(m, msg, hostname, now))
  {
    hide ScanFrom, AddressRemoved, RequestStep, DiscoverStep;
    var s0 := Remember(s, m, hostname);
    match msg
    case Discover => DiscoverRecords(cfg, s0, m, now);
    case Request(requested) => RequestRecords(cfg, s0, m, requested, now);
    case Release =>
    case Decline =>
    case Other =>
  }

  lemma DiscoverRecords(cfg: Config, s: Server, m: Mac, now: real)
    ensures DiscoverStep(cfg, s, m, now).server.dns == s.dns
  {
    ScanKeepsRecords(cfg, s, m, ForOffer, Used(s, now), now, cfg.startIp, now);
    hide ScanFrom;
  }

  lemma ResumeRecords(cfg: Config, s: Server, m: Mac, now: real)
    requires m in s.scans
    ensures ResumeStep(cfg, s, m, now).server.dns == RecordsAfter(cfg, s, Resume(m, now))
  {
    var scan, s1 := s.scans[m], Resumed(s, m);
    var s2 := s1.(conflicts := s1.conflicts[scan.ip := scan.probedAt]);
    ScanKeepsRecords(cfg, s2, m, scan.purpose, scan.used, scan.now, scan.ip + 1, now);
    hide ScanFrom;
    if !(scan.ip in s.probing && s.probing[scan.ip]) {
      assert ResumeStep(cfg, s, m, now) == ScanFrom(cfg, s2, m, scan.purpose, scan.used, scan.now, scan.ip + 1, now);
    }
  }

  /** Every event writes and deletes exactly the DNS records of its grant, its release or the leases it reaps. */
  lemma StepRecords(cfg: Config, s: Server, ev: Event)
    requires Possible(s, ev)
    ensures Step(cfg, s, ev).server.dns == RecordsAfter(cfg, s, ev)
  {
    hide ReceiveStep, ResumeStep, RecordsAfter;
    match ev
    case Receive(m, msg, hostname, now) => ReceiveRecords(cfg, s, m, msg, hostname, now);
    case Resume(m, now) => ResumeRecords(cfg, s, m, now);
    case ArpReply(ip) => QuietRecords(cfg, s, ev);
    case Reap(now) => QuietRecords(cfg, s, ev);
  }

  lemma QuietRecords(cfg: Config, s: Server, ev: Event)
    requires ev.ArpReply? || ev.Reap?
    ensures Step(cfg, s, ev).server.dns == RecordsAfter(cfg, s, ev)
  {
  }

  lemma AllRemovedKeepsNamed(r: Records<Ip>, ips: set<Ip>)
    requires Confirmed(r) && Named(r)
    ensures Named(AllRemoved(r, ips))
  {
  }

  /** Any step keeps a PTR record for every A record exactly when it registers no second name for an address. */
  lemma StepKeepsNamedIff(cfg: Config, s: Server, ev: Event)
    requires Sound(cfg, s) && Named(s.dns) && Possible(s, ev)
    ensures Named(Step(cfg, s, ev).server.dns) <==> TakesFreeName(cfg, s, ev)
  {
    hide Step, Granted, Leaving, AllRemoved, Added, AddressRemoved, Named, Confirmed;
    StepRecords(cfg, s, ev);
    var t, r := Registered(cfg, s, ev), Leaving(s, ev);
    if t.Some? {
      AddedKeepsNamedIff(s.dns, t.value.0, t.value.1);
    } else if r.Some? && r.value in s.leases {
      AddressRemovedKeepsNamed(s.dns, s.leases[r.value].ip);
    } else if ev.Reap? {
      AllRemovedKeepsNamed(s.dns, IpsOf(s, ExpiredClients(s, ev.now)));
    }
  }

  // ---------------------------------------------------------------- runs

  ghost predicate StaysNamed(cfg: Config, s: Server, evs: seq<Event>)
    requires PossibleRun(cfg, s, evs)
    decreases |evs|
  {
    Named(s.dns) && (evs != [] ==> StaysNamed(cfg, Step(cfg, s, evs[0]).server, evs[1..]))
  }

  predicate RunTakesFreeNames(cfg: Config, s: Server, evs: seq<Event>)
    requires PossibleRun(cfg, s, evs)
    decreases |evs|
  {
    evs != [] ==> TakesFreeName(cfg, s, evs[0]) && RunTakesFreeNames(cfg, Step(cfg, s, evs[0]).server, evs[1..])
  }

  /**
  A possible run has a PTR record for every A record throughout exactly when it registers no second name for an
  address.
  */
  lemma {:induction false} RunStaysNamedIff(cfg: Config, s: Server, evs: seq<Event>)
    requires Sound(cfg, s) && Named(s.dns) && PossibleRun(cfg, s, evs)
    ensures StaysNamed(cfg, s, evs) <==> RunTakesFreeNames(cfg, s, evs)
    decreases |evs|
  {
    hide Named, TakesFreeName, Sound, Step, Possible;
    if evs != [] {
      StepKeepsNamedIff(cfg, s, evs[0]);
      StepKeepsSound(cfg, s, evs[0]);
      if TakesFreeName(cfg, s, evs[0]) {
        RunStaysNamedIff(cfg, Step(cfg, s, evs[0]).server, evs[1..]);
      }
    }
  }

  // ---------------------------------------------------------------- a failing input

  /** The server after m's first address has been granted, and registered as `name`. */
  function GrantedAs(cfg: Config, m: Mac, name: Name, now: real): Server {
    EMPTY.(leases := map[m := Lease(cfg.startIp, now, now + cfg.leaseTime, Allocated)],
           ipToMac := map[cfg.startIp := m], hostnames := map[m := name],
           dns := Records(map[name := cfg.startIp], map[cfg.startIp := name]))
  }

  lemma GrantAs(cfg: Config, m: Mac, name: Name, now: real)
    requires name != [] && cfg.leaseTime > 0.0
    ensures Step(cfg, WithOffer(cfg, EMPTY, m, now), Receive(m, Request(None), name, now)).server ==
            GrantedAs(cfg, m, name, now)
    ensures MayAsk(ALL_GUARDS, WithOffer(cfg, EMPTY, m, now), m, now) &&
            MayAsk(ALL_GUARDS, GrantedAs(cfg, m, name, now), m, now)
  {
  }

  lemma RenewAs(cfg: Config, m: Mac, first: Name, second: Name, now: real)
    requires first != [] && second != [] && first != second
    ensures Step(cfg, GrantedAs(cfg, m, first, now), Receive(m, Request(None), second, now)).server.dns ==
              Records(map[first := cfg.startIp, second := cfg.startIp], map[cfg.startIp := second])
  {
  }

  /** A client granted an address under one name renews it under another: the first name keeps its A record only. */
  lemma RenamedClientKeepsOldName(cfg: Config, m: Mac, first: Name, second: Name, now: real)
    requires cfg.startIp <= cfg.endIp && cfg.leaseTime > 0.0 && first != [] && second != [] && first != second
    ensures exists evs, last :: Leads(cfg, ALL_GUARDS, EMPTY, evs, last) && !Named(last.dns) &&
              last.dns == Records(map[first := cfg.startIp, second := cfg.startIp], map[cfg.startIp := second])
  {
    hide Step, GrantedAs;
    var s, s1 := WithOffer(cfg, EMPTY, m, now), GrantedAs(cfg, m, first, now);
    GrantAs(cfg, m, first, now);
    var last := Step(cfg, s1, Receive(m, Request(None), second, now)).server;
    RenewAs(cfg, m, first, second, now);
    assert first in last.dns.a;
    assert Leads(cfg, ALL_GUARDS, last, [], last);
    assert MayAsk(ALL_GUARDS, EMPTY, m, now) && Used(EMPTY, now) == {};
    hide Leads, MayAsk, Named;
    GrantNext(cfg, ALL_GUARDS, s1, m, second, now, [], last);
    var rest := [Receive(m, Request(None), second, now)] + [];
    GrantNext(cfg, ALL_GUARDS, s, m, first, now, rest, last);
    OfferFirst(cfg, ALL_GUARDS, EMPTY, m, now, [Receive(m, Request(None), first, now)] + rest, last);
  }
}
