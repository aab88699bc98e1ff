/**
Why each of the three guards is needed: under the two others alone, some run from the empty server ends with two clients
sharing an address. So a set of guards is safe exactly when it is all three.
*/
module DhcpGuards {
  import opened Wrappers
  import opened DnsRecords
  import opened Dhcp
  import opened DhcpUniqueness

  /** A guarded run from s to `last`. */
  ghost predicate Leads(cfg: Config, g: Guards, s: Server, evs: seq<Event>, last: Server) {
    GuardedRun(cfg, g, s, evs) && PossibleRun(cfg, s, evs) && Run(cfg, s, evs) == last
  }

  /** One event, then the rest of a run whose end is `last`. */
  lemma LeadsFirst(cfg: Config, g: Guards, s: Server, ev: Event, s': Server, rest: seq<Event>, last: Server)
    requires Meets(g, s, ev) && Step(cfg, s, ev).server == s' && Leads(cfg, g, s', rest, last)
    ensures Leads(cfg, g, s, [ev] + rest, last)
  {
    hide Step, NoOtherOffers, NoneExpired;
    assert ([ev] + rest)[1..] == rest;
  }

  /** Both clients hold an unexpired ALLOCATED lease on the same address. */
  predicate Share(s: Server, m: Mac, x: Mac, now: real) {
    && m != x && Holds(s, m, Allocated) && Holds(s, x, Allocated) && s.leases[m].ip == s.leases[x].ip
    && now < s.leases[m].expiresAt && now < s.leases[x].expiresAt
  }

  /** Both clients hold an offer of the pool's first address. */
  function TwoOffers(cfg: Config, m: Mac, x: Mac, now: real): Server {
    var offer := Lease(cfg.startIp, now, now + cfg.leaseTime, Offered);
    EMPTY.(leases := map[m := offer, x := offer])
  }

  /** A first probe by a client without a lease goes to the first address not in use. */
  lemma FirstProbe(cfg: Config, s: Server, m: Mac, purpose: Purpose, now: real)
    requires cfg.startIp <= cfg.endIp && cfg.startIp !in Used(s, now) && s.conflicts == map[]
    ensures StartScan(cfg, s, m, purpose, now) ==
      Outcome(s.(probing := s.probing[cfg.startIp := true],
                 scans := s.scans[m := Scan(purpose, Used(s, now), now, now, cfg.startIp)]), Silence)
  {
  }

  // ---------------------------------------------------------------- offers that are not looked at

  const OFFERS := ALL_GUARDS.(noOffers := false)

  ghost predicate MayAsk(g: Guards, s: Server, m: Mac, now: real) {
    s.scans == map[] && (g.noOffers ==> NoOtherOffers(s, m)) && (g.reaped ==> NoneExpired(s, now))
  }

  function WithOffer(cfg: Config, s: Server, m: Mac, now: real): Server {
    s.(leases := s.leases[m := Lease(cfg.startIp, now, now + cfg.leaseTime, Offered)])
  }

  /** A client is offered the pool's first address when it is free, and then holds it OFFERED. */
  lemma OfferFirst(cfg: Config, g: Guards, s: Server, m: Mac, now: real, rest: seq<Event>, last: Server)
    requires cfg.startIp <= cfg.endIp && cfg.startIp !in Used(s, now) && s.conflicts == map[] && s.probing == map[]
    requires MayAsk(g, s, m, now) && !Holds(s, m, Allocated) && Leads(cfg, g, WithOffer(cfg, s, m, now), rest, last)
    ensures Leads(cfg, g, s, [Receive(m, Discover, [], now)] + ([Resume(m, now)] + rest), last)
  {
    hide Leads, ScanFrom, StartScan, NoOtherOffers, NoneExpired;
    FirstProbe(cfg, s, m, ForOffer, now);
    var e0, e1 := Receive(m, Discover, [], now), Resume(m, now);
    var s1 := Step(cfg, s, e0).server;
    assert m in s1.scans && s1.scans - {m} == map[] && s1.probing - {cfg.startIp} == map[];
    assert Step(cfg, s1, e1).server == WithOffer(cfg, s, m, now);
    LeadsFirst(cfg, g, s1, e1, WithOffer(cfg, s, m, now), rest, last);
    LeadsFirst(cfg, g, s, e0, s1, [e1] + rest, last);
  }

  lemma GrantNext(cfg: Config, g: Guards, s: Server, m: Mac, hostname: Name, now: real, rest: seq<Event>, last: Server)
    requires MayAsk(g, s, m, now)
    requires Leads(cfg, g, Step(cfg, s, Receive(m, Request(None), hostname, now)).server, rest, last)
    ensures Leads(cfg, g, s, [Receive(m, Request(None), hostname, now)] + rest, last)
  {
    hide Leads, Step, NoOtherOffers, NoneExpired;
    var ev := Receive(m, Request(None), hostname, now);
    LeadsFirst(cfg, g, s, ev, Step(cfg, s, ev).server, rest, last);
  }

  /** A second DISCOVER before the first client's REQUEST is offered the same address. */
  lemma BothOffered(cfg: Config, m: Mac, x: Mac, now: real, rest: seq<Event>, last: Server) returns (evs: seq<Event>)
    requires cfg.startIp <= cfg.endIp && m != x && Leads(cfg, OFFERS, TwoOffers(cfg, m, x, now), rest, last)
    ensures Leads(cfg, OFFERS, EMPTY, evs, last)
  {
    hide Leads;
    var s1 := WithOffer(cfg, EMPTY, m, now);
    assert Used(EMPTY, now) == {} && Used(s1, now) == {};
    assert WithOffer(cfg, s1, x, now) == TwoOffers(cfg, m, x, now);
    OfferFirst(cfg, OFFERS, s1, x, now, rest, last);
    evs := [Receive(x, Discover, [], now)] + ([Resume(x, now)] + rest);
    OfferFirst(cfg, OFFERS, EMPTY, m, now, evs, last);
    evs := [Receive(m, Discover, [], now)] + ([Resume(m, now)] + evs);
  }

  /** Then both requests are granted. */
  lemma OfferedLeasesAreIgnored(cfg: Config, m: Mac, x: Mac, now: real)
    requires cfg.startIp <= cfg.endIp && cfg.leaseTime > 0.0 && m != x
    ensures exists evs, last :: Leads(cfg, OFFERS, EMPTY, evs, last) && Share(last, m, x, now)
  {
    var s := TwoOffers(cfg, m, x, now);
    var s1 := Step(cfg, s, Receive(m, Request(None), [], now)).server;
    var last := Step(cfg, s1, Receive(x, Request(None), [], now)).server;
    assert Share(last, m, x, now);
    assert Leads(cfg, OFFERS, last, [], last);
    assert MayAsk(OFFERS, s1, x, now) && MayAsk(OFFERS, s, m, now);
    hide Leads, Share, MayAsk, Step;
    GrantNext(cfg, OFFERS, s1, x, [], now, [], last);
    var rest := [Receive(x, Request(None), [], now)] + [];
    GrantNext(cfg, OFFERS, s, m, [], now, rest, last);
    var evs := BothOffered(cfg, m, x, now, [Receive(m, Request(None), [], now)] + rest, last);
  }

  // ---------------------------------------------------------------- expired leases that are renewed

  const UNREAPED := ALL_GUARDS.(reaped := false)

  /** m holds the first address ALLOCATED. */
  function OneGranted(cfg: Config, m: Mac, now: real): Server {
    EMPTY.(leases := map[m := Lease(cfg.startIp, now, now + cfg.leaseTime, Allocated)],
           ipToMac := map[cfg.startIp := m])
  }

  lemma GrantOne(cfg: Config, m: Mac, now: real, rest: seq<Event>, last: Server) returns (evs: seq<Event>)
    requires cfg.startIp <= cfg.endIp && Leads(cfg, UNREAPED, OneGranted(cfg, m, now), rest, last)
    ensures Leads(cfg, UNREAPED, EMPTY, evs, last)
  {
    hide Leads;
    var s := WithOffer(cfg, EMPTY, m, now);
    assert Used(EMPTY, now) == {};
    assert Step(cfg, s, Receive(m, Request(None), [], now)).server == OneGranted(cfg, m, now);
    GrantNext(cfg, UNREAPED, s, m, [], now, rest, last);
    evs := [Receive(m, Request(None), [], now)] + rest;
    OfferFirst(cfg, UNREAPED, EMPTY, m, now, evs, last);
    evs := [Receive(m, Discover, [], now)] + ([Resume(m, now)] + evs);
  }

  /**
  An expired lease that the reaper has not seen yet can be renewed, although its address has meanwhile been offered and
  granted to another client.
  */
  lemma ExpiredLeasesAreRenewed(cfg: Config, m: Mac, x: Mac, before: real, now: real)
    requires cfg.startIp <= cfg.endIp && cfg.leaseTime > 0.0 && m != x && now >= before + cfg.leaseTime
    ensures exists evs, last :: Leads(cfg, UNREAPED, EMPTY, evs, last) && Share(last, m, x, now)
  {
    var s := OneGranted(cfg, m, before);
    var s1 := WithOffer(cfg, s, x, now);
    var s2 := Step(cfg, s1, Receive(x, Request(None), [], now)).server;
    var last := Step(cfg, s2, Receive(m, Request(None), [], now)).server;
    assert Used(s, now) == {};
    assert Share(last, m, x, now);
    assert Leads(cfg, UNREAPED, last, [], last);
    assert MayAsk(UNREAPED, s, x, now) && MayAsk(UNREAPED, s1, x, now) && MayAsk(UNREAPED, s2, m, now);
    hide Leads, Share, MayAsk, Step;
    GrantNext(cfg, UNREAPED, s2, m, [], now, [], last);
    var rest := [Receive(m, Request(None), [], now)] + [];
    GrantNext(cfg, UNREAPED, s1, x, [], now, rest, last);
    rest := [Receive(x, Request(None), [], now)] + rest;
    OfferFirst(cfg, UNREAPED, s, x, now, rest, last);
    var evs := GrantOne(cfg, m, before, [Receive(x, Discover, [], now)] + ([Resume(x, now)] + rest), last);
  }

  // ---------------------------------------------------------------- handlers that overlap

  const OVERLAP := ALL_GUARDS.(serial := false)

  function Asleep(purpose: Purpose, now: real, ip: Ip): Scan {
    Scan(purpose, {}, now, now, ip)
  }

  /** a's REQUEST and b's DISCOVER both probe the first address. */
  function BothAsleep(cfg: Config, a: Mac, b: Mac, now: real): Server {
    EMPTY.(probing := map[cfg.startIp := true],
           scans := map[a := Asleep(ForAck(now), now, cfg.startIp), b := Asleep(ForOffer, now, cfg.startIp)])
  }

  /** a has been granted it. */
  function FirstGranted(cfg: Config, a: Mac, b: Mac, now: real): Server {
    EMPTY.(leases := map[a := Lease(cfg.startIp, now, now + cfg.leaseTime, Allocated)],
           ipToMac := map[cfg.startIp := a], scans := map[b := Asleep(ForOffer, now, cfg.startIp)])
  }

  /** c has been granted the second address; b still sleeps on `ip`. */
  function TwoGranted(cfg: Config, a: Mac, b: Mac, c: Mac, now: real, ip: Ip): Server {
    EMPTY.(leases := map[a := Lease(cfg.startIp, now, now + cfg.leaseTime, Allocated),
                         c := Lease(cfg.startIp + 1, now, now + cfg.leaseTime, Allocated)],
           ipToMac := map[cfg.startIp := a, cfg.startIp + 1 := c], scans := map[b := Asleep(ForOffer, now, ip)])
  }

  /** b's first probe came back as a conflict, and it has gone on to the second address. */
  function GoneOn(cfg: Config, a: Mac, b: Mac, c: Mac, now: real): Server {
    TwoGranted(cfg, a, b, c, now, cfg.startIp + 1).(
      conflicts := Recent(cfg, map[cfg.startIp := now], now), probing := map[cfg.startIp + 1 := true])
  }

  function SecondOffered(cfg: Config, a: Mac, b: Mac, c: Mac, now: real): Server {
    var s := GoneOn(cfg, a, b, c, now);
    s.(probing := map[], scans := map[],
       leases := s.leases[b := Lease(cfg.startIp + 1, now, now + cfg.leaseTime, Offered)])
  }

  predicate Racing(cfg: Config, a: Mac, b: Mac, c: Mac) {
    cfg.startIp < cfg.endIp && cfg.leaseTime > 0.0 && a != b && b != c && a != c
  }

  lemma FallAsleep(cfg: Config, a: Mac, b: Mac, now: real, rest: seq<Event>, last: Server)
    requires cfg.startIp <= cfg.endIp && a != b && Leads(cfg, OVERLAP, BothAsleep(cfg, a, b, now), rest, last)
    ensures Leads(cfg, OVERLAP, EMPTY, [Receive(a, Request(None), [], now)] + ([Receive(b, Discover, [], now)] + rest),
                  last)
  {
    hide Leads, ScanFrom, StartScan;
    FirstProbe(cfg, EMPTY, a, ForAck(now), now);
    var s1 := EMPTY.(probing := map[cfg.startIp := true], scans := map[a := Asleep(ForAck(now), now, cfg.startIp)]);
    assert Used(EMPTY, now) == {} && Used(s1, now) == {};
    assert Step(cfg, EMPTY, Receive(a, Request(None), [], now)).server == s1;
    FirstProbe(cfg, s1, b, ForOffer, now);
    assert Step(cfg, s1, Receive(b, Discover, [], now)).server == BothAsleep(cfg, a, b, now);
    LeadsFirst(cfg, OVERLAP, s1, Receive(b, Discover, [], now), BothAsleep(cfg, a, b, now), rest, last);
    LeadsFirst(cfg, OVERLAP, EMPTY, Receive(a, Request(None), [], now), s1, [Receive(b, Discover, [], now)] + rest,
               last);
  }

  lemma GrantFirst(cfg: Config, a: Mac, b: Mac, now: real, rest: seq<Event>, last: Server)
    requires a != b && Leads(cfg, OVERLAP, FirstGranted(cfg, a, b, now), rest, last)
    ensures Leads(cfg, OVERLAP, BothAsleep(cfg, a, b, now), [Resume(a, now)] + rest, last)
  {
    hide Leads, ScanFrom;
    var s := BothAsleep(cfg, a, b, now);
    assert s.probing - {cfg.startIp} == map[] && s.scans - {a} == map[b := Asleep(ForOffer, now, cfg.startIp)];
    assert Step(cfg, s, Resume(a, now)).server == FirstGranted(cfg, a, b, now);
    LeadsFirst(cfg, OVERLAP, s, Resume(a, now), FirstGranted(cfg, a, b, now), rest, last);
  }

  /** A scan passes over the first address when that is the only one in use. */
  lemma SecondProbe(cfg: Config, s: Server, m: Mac, purpose: Purpose, now: real)
    requires cfg.startIp < cfg.endIp && Used(s, now) == {cfg.startIp} && s.conflicts == map[]
    ensures StartScan(cfg, s, m, purpose, now) ==
      Outcome(s.(probing := s.probing[cfg.startIp + 1 := true],
                 scans := s.scans[m := Scan(purpose, {cfg.startIp}, now, now, cfg.startIp + 1)]), Silence)
  {
    var used := Used(s, now);
    assert Recent(cfg, map[], now) == map[];
    assert s.(conflicts := map[]) == s;
    assert ScanFrom(cfg, s, m, purpose, used, now, cfg.startIp, now) ==
           ScanFrom(cfg, s, m, purpose, used, now, cfg.startIp + 1, now);
  }

  lemma GrantSecond(cfg: Config, a: Mac, b: Mac, c: Mac, now: real, rest: seq<Event>, last: Server)
    requires Racing(cfg, a, b, c) && Leads(cfg, OVERLAP, TwoGranted(cfg, a, b, c, now, cfg.startIp), rest, last)
    ensures Leads(cfg, OVERLAP, FirstGranted(cfg, a, b, now),
                  [Receive(c, Request(None), [], now)] + ([Resume(c, now)] + rest), last)
  {
    hide Leads, ScanFrom, StartScan;
    var s := FirstGranted(cfg, a, b, now);
    assert a in s.leases && s.leases[a].ip in Used(s, now);
    assert Used(s, now) == {cfg.startIp};
    SecondProbe(cfg, s, c, ForAck(now), now);
    var scan := Scan(ForAck(now), {cfg.startIp}, now, now, cfg.startIp + 1);
    var s1 := s.(probing := map[cfg.startIp + 1 := true], scans := s.scans[c := scan]);
    assert Step(cfg, s, Receive(c, Request(None), [], now)).server == s1;
    assert s1.probing - {cfg.startIp + 1} == map[] && s1.scans - {c} == s.scans;
    var s2 := TwoGranted(cfg, a, b, c, now, cfg.startIp);
    assert Step(cfg, s1, Resume(c, now)).server == s2;
    LeadsFirst(cfg, OVERLAP, s1, Resume(c, now), s2, rest, last);
    LeadsFirst(cfg, OVERLAP, s, Receive(c, Request(None), [], now), s1, [Resume(c, now)] + rest, last);
  }

  lemma GoOn(cfg: Config, a: Mac, b: Mac, c: Mac, now: real, rest: seq<Event>, last: Server)
    requires Racing(cfg, a, b, c) && Leads(cfg, OVERLAP, GoneOn(cfg, a, b, c, now), rest, last)
    ensures Leads(cfg, OVERLAP, TwoGranted(cfg, a, b, c, now, cfg.startIp), [Resume(b, now)] + rest, last)
  {
    hide Leads;
    var s := TwoGranted(cfg, a, b, c, now, cfg.startIp);
    var s1 := s.(scans := map[], conflicts := map[cfg.startIp := now]);
    assert s.scans - {b} == map[] && s.probing - {cfg.startIp} == map[] &&
           s.conflicts[cfg.startIp := now] == map[cfg.startIp := now];
    assert Step(cfg, s, Resume(b, now)) == ScanFrom(cfg, s1, b, ForOffer, {}, now, cfg.startIp + 1, now);
    assert Step(cfg, s, Resume(b, now)).server == GoneOn(cfg, a, b, c, now);
    LeadsFirst(cfg, OVERLAP, s, Resume(b, now), GoneOn(cfg, a, b, c, now), rest, last);
  }

  lemma OfferTaken(cfg: Config, a: Mac, b: Mac, c: Mac, now: real, rest: seq<Event>, last: Server)
    requires Racing(cfg, a, b, c) && Leads(cfg, OVERLAP, SecondOffered(cfg, a, b, c, now), rest, last)
    ensures Leads(cfg, OVERLAP, GoneOn(cfg, a, b, c, now), [Resume(b, now)] + rest, last)
  {
    hide Leads, Recent;
    var s := GoneOn(cfg, a, b, c, now);
    assert s.scans - {b} == map[] && s.probing - {cfg.startIp + 1} == map[];
    assert Step(cfg, s, Resume(b, now)).server == SecondOffered(cfg, a, b, c, now);
    LeadsFirst(cfg, OVERLAP, s, Resume(b, now), SecondOffered(cfg, a, b, c, now), rest, last);
  }

  lemma TakeGranted(cfg: Config, a: Mac, b: Mac, c: Mac, now: real)
    requires Racing(cfg, a, b, c)
    ensures var s := SecondOffered(cfg, a, b, c, now);
            var last := Allocate(cfg, s, b, cfg.startIp + 1, now);
            Leads(cfg, OVERLAP, s, [Receive(b, Request(None), [], now)] + [], last) && Share(last, b, c, now)
  {
    hide Recent;
    var s := SecondOffered(cfg, a, b, c, now);
    var last := Allocate(cfg, s, b, cfg.startIp + 1, now);
    assert Step(cfg, s, Receive(b, Request(None), [], now)).server == last;
    assert Leads(cfg, OVERLAP, last, [], last);
    LeadsFirst(cfg, OVERLAP, s, Receive(b, Request(None), [], now), last, [], last);
  }

  /**
  A DISCOVER that sleeps in its probe keeps the set of used addresses it started with, and takes an address that was
  granted meanwhile. From the empty server, any three clients and any pool of two addresses or more: b ends up sharing
  with c.
  */
  lemma OverlappingHandlersShare(cfg: Config, a: Mac, b: Mac, c: Mac, now: real)
    requires Racing(cfg, a, b, c)
    ensures exists evs, last :: Leads(cfg, OVERLAP, EMPTY, evs, last) && Share(last, b, c, now)
  {
    hide Leads, Share;
    var last := Allocate(cfg, SecondOffered(cfg, a, b, c, now), b, cfg.startIp + 1, now);
    TakeGranted(cfg, a, b, c, now);
    var e1 := [Receive(b, Request(None), [], now)] + [];
    OfferTaken(cfg, a, b, c, now, e1, last);
    var e2 := [Resume(b, now)] + e1;
    GoOn(cfg, a, b, c, now, e2, last);
    var e3 := [Resume(b, now)] + e2;
    GrantSecond(cfg, a, b, c, now, e3, last);
    var e5 := [Receive(c, Request(None), [], now)] + ([Resume(c, now)] + e3);
    GrantFirst(cfg, a, b, now, e5, last);
    var e6 := [Resume(a, now)] + e5;
    FallAsleep(cfg, a, b, now, e6, last);
  }

  // ---------------------------------------------------------------- safe exactly under all three

  lemma {:induction false} FewerGuards(cfg: Config, g: Guards, h: Guards, s: Server, evs: seq<Event>)
    requires GuardedRun(cfg, g, s, evs)
    requires (h.serial ==> g.serial) && (h.noOffers ==> g.noOffers) && (h.reaped ==> g.reaped)
    ensures GuardedRun(cfg, h, s, evs)
    decreases |evs|
  {
    hide Step, NoOtherOffers, NoneExpired;
    if evs != [] {
      FewerGuards(cfg, g, h, Step(cfg, s, evs[0]).server, evs[1..]);
    }
  }

  /** No guarded run from the empty server ever lets two clients share an address. */
  ghost predicate Safe(cfg: Config, g: Guards) {
    forall evs, last, m, x, now :: Leads(cfg, g, EMPTY, evs, last) ==> !Share(last, m, x, now)
  }

  lemma NotSafe(cfg: Config, g: Guards, h: Guards, m: Mac, x: Mac, now: real)
    requires exists evs, last :: Leads(cfg, g, EMPTY, evs, last) && Share(last, m, x, now)
    requires (h.serial ==> g.serial) && (h.noOffers ==> g.noOffers) && (h.reaped ==> g.reaped)
    ensures !Safe(cfg, h)
  {
    hide GuardedRun, Share, PossibleRun, Run;
    var evs, last :| Leads(cfg, g, EMPTY, evs, last) && Share(last, m, x, now);
    FewerGuards(cfg, g, h, EMPTY, evs);
    assert Leads(cfg, h, EMPTY, evs, last);
  }

  /** For any pool of two addresses or more, asking for some of the guards is enough exactly when it is all three. */
  lemma SafeIffAllGuards(cfg: Config, g: Guards)
    requires cfg.startIp < cfg.endIp && cfg.leaseTime > 0.0
    ensures Safe(cfg, g) <==> g == ALL_GUARDS
  {
    hide Safe, Leads, Share;
    if !g.noOffers {
      OfferedLeasesAreIgnored(cfg, 0, 1, 0.0);
      NotSafe(cfg, OFFERS, g, 0, 1, 0.0);
    } else if !g.reaped {
      ExpiredLeasesAreRenewed(cfg, 0, 1, 0.0, cfg.leaseTime);
      NotSafe(cfg, UNREAPED, g, 0, 1, cfg.leaseTime);
    } else if !g.serial {
      OverlappingHandlersShare(cfg, 0, 1, 2, 0.0);
      NotSafe(cfg, OVERLAP, g, 1, 2, 0.0);
    } else {
      AllGuardsAreSafe(cfg);
    }
  }

  lemma AllGuardsAreSafe(cfg: Config)
    ensures Safe(cfg, ALL_GUARDS)
  {
    hide Leads, Share;
    forall evs, last, m, x, now | Leads(cfg, ALL_GUARDS, EMPTY, evs, last) ensures !Share(last, m, x, now) {
      GuardedEndsApart(cfg, evs, last, m, x, now);
    }
  }

  lemma GuardedEndsApart(cfg: Config, evs: seq<Event>, last: Server, m: Mac, x: Mac, now: real)
    requires Leads(cfg, ALL_GUARDS, EMPTY, evs, last)
    ensures !Share(last, m, x, now)
  {
    SerialRunsNeverShare(cfg, evs);
    assert last == Run(cfg, EMPTY, evs);
  }
}
