/** Exactly which steps, and which runs, let two clients share an address. */
module DhcpSharing {
  import opened Wrappers
  import opened DnsRecords
  import opened Dhcp
  import opened DhcpRuns
  import opened DhcpUniqueness

  /** Which leases are looked at: all ALLOCATED ones, or those that have not expired at a time. */
  datatype When = Ever | At(time: real)

  predicate Before(w: When, expiresAt: real) {
    w.Ever? || w.time < expiresAt
  }

  /** The address that x holds ALLOCATED. */
  function Held(s: Server, x: Mac, w: When): Option<Ip> {
    if Holds(s, x, Allocated) && Before(w, s.leases[x].expiresAt) then Some(s.leases[x].ip) else None
  }

  /** A lease that an event grants or renews. */
  datatype Grant = Grant(client: Mac, ip: Ip, expiresAt: real)

  function GrantedLease(cfg: Config, s: Server, m: Mac, requested: Option<Ip>, now: real): Option<Grant> {
    if (Holds(s, m, Offered) || Holds(s, m, Allocated)) && (requested.None? || requested.value == s.leases[m].ip)
    then Some(Grant(m, s.leases[m].ip, now + cfg.leaseTime)) else None
  }

  /** A REQUEST for an offered or held address is granted, and so is a clear probe on behalf of a REQUEST. */
  function Granted(cfg: Config, s: Server, ev: Event): Option<Grant>
    requires Possible(s, ev)
  {
    match ev
    case Receive(m, Request(requested), _, now) => GrantedLease(cfg, s, m, requested, now)
    case Resume(m, _) =>
      var scan := s.scans[m];
      if scan.ip in s.probing && s.probing[scan.ip] && scan.purpose.ForAck?
      then Some(Grant(m, scan.ip, scan.purpose.now + cfg.leaseTime)) else None
    case _ => None
  }

  /** The client whose lease this event releases on the client's own behalf. */
  function Leaving(s: Server, ev: Event): Option<Mac> {
    match ev
    case Receive(m, Release, _, _) => if m in s.leases then Some(m) else None
    case Receive(m, Decline, _, _) => if m in s.leases then Some(m) else None
    case _ => None
  }

  /**
  What x holds after the event: a granted address, nothing once its lease is released or reaped, otherwise what it
  held.
  */
  function HeldAfter(cfg: Config, s: Server, ev: Event, x: Mac, w: When): Option<Ip>
    requires Possible(s, ev)
  {
    var g := Granted(cfg, s, ev);
    if g.Some? && g.value.client == x then (if Before(w, g.value.expiresAt) then Some(g.value.ip) else None)
    else if Leaving(s, ev) == Some(x) || (ev.Reap? && Expired(s, x, ev.now)) then None
    else Held(s, x, w)
  }

  lemma ScanKeepsLeases(cfg: Config, s: Server, m: Mac, purpose: Purpose, used: set<Ip>, started: real, ip: Ip,
                        now: real)
    ensures ScanFrom(cfg, s, m, purpose, used, started, ip, now).server.leases == s.leases
    ensures ScanFrom(cfg, s, m, purpose, used, started, ip, now).server.ipToMac == s.ipToMac
  {
    ScanChangesOnly(cfg, s, m, purpose, used, started, ip, now);
  }

  lemma RequestHeld(cfg: Config, s: Server, m: Mac, requested: Option<Ip>, now: real, x: Mac, w: When)
    ensures var g := GrantedLease(cfg, s, m, requested, now);
            Held(RequestStep(cfg, s, m, requested, now).server, x, w) ==
              if g.Some? && x == m then (if Before(w, g.value.expiresAt) then Some(g.value.ip) else None)
                else Held(s, x, w)
  {
    ScanKeepsLeases(cfg, s, m, ForAck(now), Used(s, now), now, cfg.startIp, now);
    hide ScanFrom, Added;
  }

  lemma LeaveHeld(s: Server, m: Mac, now: real, x: Mac, w: When)
    ensures Held(ReleaseLease(s, m), x, w) == if x == m then None else Held(s, x, w)
    ensures Held(DeclineStep(s, m, now), x, w) == if x == m then None else Held(s, x, w)
  {
    hide AddressRemoved;
  }

  lemma DiscoverHeld(cfg: Config, s: Server, m: Mac, now: real, x: Mac, w: When)
    ensures Held(DiscoverStep(cfg, s, m, now).server, x, w) == Held(s, x, w)
  {
    ScanKeepsLeases(cfg, s, m, ForOffer, Used(s, now), now, cfg.startIp, now);
    hide ScanFrom;
  }

  lemma ReceiveHeld(cfg: Config, s: Server, m: Mac, msg: Message, hostname: Name, now: real, x: Mac, w: When)
    requires Possible(s, Receive(m, msg, hostname, now))
    ensures Held(ReceiveStep(cfg, s, m, msg, hostname, now).server, x, w) ==
            HeldAfter(cfg, s, Receive(m, msg, hostname, now), x, w)
  {
    hide RequestStep, ReleaseLease, DeclineStep, DiscoverStep;
    var s0 := Remember(s, m, hostname);
    match msg
    case Discover => DiscoverHeld(cfg, s0, m, now, x, w);
    case Request(requested) => RequestHeld(cfg, s0, m, requested, now, x, w);
    case Release => LeaveHeld(s0, m, now, x, w);
    case Decline => LeaveHeld(s0, m, now, x, w);
    case Other =>
  }

  lemma ResumeHeld(cfg: Config, s: Server, m: Mac, now: real, x: Mac, w: When)
    requires m in s.scans && !Holds(s, m, Allocated)
    ensures Held(ResumeStep(cfg, s, m, now).server, x, w) == HeldAfter(cfg, s, Resume(m, now), x, w)
  {
    var scan, s1 := s.scans[m], Resumed(s, m);
    var s2 := s1.(conflicts := s1.conflicts[scan.ip := scan.probedAt]);
    ScanKeepsLeases(cfg, s2, m, scan.purpose, scan.used, scan.now, scan.ip + 1, now);
    hide ScanFrom, Added;
    if !(scan.ip in s.probing && s.probing[scan.ip]) {
      assert ResumeStep(cfg, s, m, now) == ScanFrom(cfg, s2, m, scan.purpose, scan.used, scan.now, scan.ip + 1, now);
    }
  }

  /** Every step gives and takes exactly the leases that the event grants, releases or reaps. */
  lemma StepHeld(cfg: Config, s: Server, ev: Event, x: Mac, w: When)
    requires Sound(cfg, s) && Possible(s, ev)
    ensures Held(Step(cfg, s, ev).server, x, w) == HeldAfter(cfg, s, ev, x, w)
  {
    match ev
    case Receive(m, msg, hostname, now) => ReceiveHeld(cfg, s, m, msg, hostname, now, x, w);
    case Resume(m, now) => ResumeHeld(cfg, s, m, now, x, w);
    case ArpReply(ip) =>
    case Reap(now) =>
  }

  // ---------------------------------------------------------------- one step

  /** No two clients hold ALLOCATED leases on the same address. */
  ghost predicate Unique(s: Server, w: When) {
    forall m, x :: m != x && Held(s, m, w).Some? ==> Held(s, x, w) != Held(s, m, w)
  }

  /** The event grants no address that another client holds ALLOCATED. */
  ghost predicate GrantsUnheld(cfg: Config, s: Server, ev: Event, w: When)
    requires Possible(s, ev)
  {
    var g := Granted(cfg, s, ev);
    g.Some? && Before(w, g.value.expiresAt) ==> forall x :: x != g.value.client ==> Held(s, x, w) != Some(g.value.ip)
  }

  lemma GrantReleasesNothing(cfg: Config, s: Server, ev: Event)
    requires Possible(s, ev)
    ensures Granted(cfg, s, ev).Some? ==> Leaving(s, ev).None? && !ev.Reap?
  {
  }

  /** A step keeps addresses unshared exactly when it grants none that another client holds. */
  lemma StepKeepsUniqueIff(cfg: Config, s: Server, ev: Event, w: When)
    requires Sound(cfg, s) && Unique(s, w) && Possible(s, ev)
    ensures Unique(Step(cfg, s, ev).server, w) <==> GrantsUnheld(cfg, s, ev, w)
  {
    var s' := Step(cfg, s, ev).server;
    forall x ensures Held(s', x, w) == HeldAfter(cfg, s, ev, x, w) {
      StepHeld(cfg, s, ev, x, w);
    }
    GrantReleasesNothing(cfg, s, ev);
    hide Step, Sound, Granted, Leaving, Possible, Held;
    var g := Granted(cfg, s, ev);
    if g.Some? && Before(w, g.value.expiresAt) {
      assert Held(s', g.value.client, w) == Some(g.value.ip);
      assert forall x :: x != g.value.client ==> Held(s', x, w) == Held(s, x, w);
    }
  }

  // ---------------------------------------------------------------- runs

  /** The clock after an event. */
  function Tick(w: When, ev: Event): When {
    if w.Ever? || ev.ArpReply? then w else At(ev.now)
  }

  predicate Forward(w: When, evs: seq<Event>)
    decreases |evs|
  {
    evs == [] || (NotBefore(Tick(w, evs[0]), w) && Forward(Tick(w, evs[0]), evs[1..]))
  }

  predicate NotBefore(w': When, w: When) {
    w'.Ever? == w.Ever? && (w.At? ==> w'.time >= w.time)
  }

  /** In every state of the run, at its time, no address is shared. */
  ghost predicate NeverShares(cfg: Config, s: Server, evs: seq<Event>, w: When)
    requires PossibleRun(cfg, s, evs)
    decreases |evs|
  {
    Unique(s, w) && (evs != [] ==> NeverShares(cfg, Step(cfg, s, evs[0]).server, evs[1..], Tick(w, evs[0])))
  }

  /** Every event of the run, when it happens, grants only what no other client holds. */
  ghost predicate RunGrantsUnheld(cfg: Config, s: Server, evs: seq<Event>, w: When)
    requires PossibleRun(cfg, s, evs)
    decreases |evs|
  {
    evs != [] ==>
      && GrantsUnheld(cfg, s, evs[0], Tick(w, evs[0]))
      && RunGrantsUnheld(cfg, Step(cfg, s, evs[0]).server, evs[1..], Tick(w, evs[0]))
  }

  /** Leases only expire as time passes. */
  lemma UniqueLater(s: Server, w: When, w': When)
    requires Unique(s, w) && NotBefore(w', w)
    ensures Unique(s, w')
  {
    assert forall x :: Held(s, x, w').Some? ==> Held(s, x, w) == Held(s, x, w');
  }

  /** A possible run shares no address at any time exactly when every grant in it is of an address nobody else holds. */
  lemma {:induction false} RunNeverSharesIff(cfg: Config, s: Server, evs: seq<Event>, w: When)
    requires Sound(cfg, s) && Unique(s, w) && PossibleRun(cfg, s, evs) && Forward(w, evs)
    ensures NeverShares(cfg, s, evs, w) <==> RunGrantsUnheld(cfg, s, evs, w)
    decreases |evs|
  {
    hide Unique, GrantsUnheld, Sound, Step, Possible;
    if evs != [] {
      var w', s' := Tick(w, evs[0]), Step(cfg, s, evs[0]).server;
      UniqueLater(s, w, w');
      StepKeepsUniqueIff(cfg, s, evs[0], w');
      StepKeepsSound(cfg, s, evs[0]);
      if GrantsUnheld(cfg, s, evs[0], w') {
        RunNeverSharesIff(cfg, s', evs[1..], w');
      }
    }
  }

  /** From the empty server, over all leases or over the unexpired ones. */
  lemma EveryRunSharesIff(cfg: Config, evs: seq<Event>, w: When)
    requires PossibleRun(cfg, EMPTY, evs) && Forward(w, evs)
    ensures NeverShares(cfg, EMPTY, evs, w) <==> RunGrantsUnheld(cfg, EMPTY, evs, w)
  {
    RunNeverSharesIff(cfg, EMPTY, evs, w);
  }

  // ---------------------------------------------------------------- serial runs meet the condition

  lemma ExclusiveIsUnique(s: Server)
    requires Exclusive(s)
    ensures Unique(s, Ever)
  {
    assert forall x :: Held(s, x, Ever).Some? ==> Active(s, x);
  }

  /** Under the three guards every grant is of an unheld address, so no state of the run shares one. */
  lemma {:induction false} SerialRunsGrantUnheld(cfg: Config, s: Server, evs: seq<Event>)
    requires Sound(cfg, s) && Exclusive(s) && GuardedRun(cfg, ALL_GUARDS, s, evs)
    ensures PossibleRun(cfg, s, evs) && RunGrantsUnheld(cfg, s, evs, Ever) && NeverShares(cfg, s, evs, Ever)
    decreases |evs|
  {
    ExclusiveIsUnique(s);
    if evs != [] {
      var s' := Step(cfg, s, evs[0]).server;
      StepKeepsExclusive(cfg, s, evs[0]);
      StepKeepsSound(cfg, s, evs[0]);
      ExclusiveIsUnique(s');
      StepKeepsUniqueIff(cfg, s, evs[0], Ever);
      hide Exclusive, Sound, Unique, GrantsUnheld, Step;
      SerialRunsGrantUnheld(cfg, s', evs[1..]);
    }
  }
}
