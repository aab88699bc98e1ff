/** Filling the pool: clients that arrive one after another get the addresses in order, until there are none left. */
module DhcpPool {
  import opened Wrappers
  import opened DnsRecords
  import opened Dhcp

  /** A client's exchange: the times of its DISCOVER, of the end of the probe, and of its REQUEST. */
  datatype Visit = Visit(mac: Mac, discover: real, probed: real, request: real, hostname: Name, namesAddress: bool)

  predicate Within(v: Visit, from: real, until: real) {
    from <= v.discover && from <= v.probed && from <= v.request && v.discover < until && v.probed < until &&
      v.request < until
  }

  /**
  The first k addresses of the pool, and nothing else, are leased: to the first k visitors, at least until `until`.
  */
  ghost predicate Filled(cfg: Config, s: Server, visits: seq<Visit>, k: nat, until: real)
    requires k <= |visits|
  {
    && s.scans == map[] && s.probing == map[] && s.conflicts == map[]
    && (forall i :: 0 <= i < k ==> visits[i].mac in s.leases)
    && (forall i :: 0 <= i < k ==> s.leases[visits[i].mac].ip == cfg.startIp + i)
    && (forall i :: 0 <= i < k ==>
        s.leases[visits[i].mac].state == Allocated && until <= s.leases[visits[i].mac].expiresAt)
    && (forall m :: m in s.leases ==> exists i :: 0 <= i < k && visits[i].mac == m)
  }

  ghost predicate DistinctClients(visits: seq<Visit>) {
    forall i, j :: 0 <= i < j < |visits| ==> visits[i].mac != visits[j].mac
  }

  lemma UsedIsPrefix(cfg: Config, s: Server, visits: seq<Visit>, k: nat, until: real, now: real)
    requires k <= |visits| && Filled(cfg, s, visits, k, until) && now < until
    ensures forall ip :: ip in Used(s, now) <==> cfg.startIp <= ip < cfg.startIp + k
  {
    forall ip | cfg.startIp <= ip < cfg.startIp + k
      ensures ip in Used(s, now)
    {
      var m := visits[ip - cfg.startIp].mac;
      assert s.leases[m].ip == ip && s.leases[m].state == Allocated;
    }
  }

  /** A scan passes over the used prefix of the pool to its first free address, or off its end. */
  lemma {:induction false} ScanSkipsPrefix(cfg: Config, s: Server, m: Mac, purpose: Purpose, used: set<Ip>, now: real,
                                           k: nat, ip: Ip)
    requires forall x :: x in used <==> cfg.startIp <= x < cfg.startIp + k
    requires cfg.startIp <= ip <= cfg.startIp + k && s.conflicts == map[]
    ensures ScanFrom(cfg, s, m, purpose, used, now, ip, now) ==
      if cfg.startIp + k <= cfg.endIp then
        Outcome(s.(probing := s.probing[cfg.startIp + k := true],
                   scans := s.scans[m := Scan(purpose, used, now, now, cfg.startIp + k)]), Silence)
      else Outcome(s, Silence)
    decreases cfg.startIp + k - ip
  {
    if ip < cfg.startIp + k {
      if ip <= cfg.endIp {
        ScanSkipsPrefix(cfg, s, m, purpose, used, now, k, ip + 1);
      }
    } else {
      assert Recent(cfg, map[], now) == map[];
    }
  }

  /** The option 50 a client puts in its REQUEST: the address it was offered, or nothing. */
  function Wanted(v: Visit, ip: Ip): Option<Ip> {
    if v.namesAddress then Some(ip) else None
  }

  /** What the server does with a visit: the state after it, and the address granted. */
  function Serve(cfg: Config, s: Server, v: Visit): (Server, Option<Ip>)
    requires s.scans == map[]
  {
    var s1 := Step(cfg, s, Receive(v.mac, Discover, v.hostname, v.discover)).server;
    var r2 := if v.mac in s1.scans then Step(cfg, s1, Resume(v.mac, v.probed)) else Outcome(s1, Silence);
    if v.mac in r2.server.scans then (r2.server, None)
    else
      var ip := if r2.reply.Offer? then r2.reply.ip else 0;
      var r3 := Step(cfg, r2.server, Receive(v.mac, Request(Wanted(v, ip)), [], v.request));
      (r3.server, if r2.reply.Offer? && r3.reply == Ack(ip) then Some(ip) else None)
  }

  /** A client whose first scan stops at `ip` is offered that address, and then holds it. */
  lemma ServedAt(cfg: Config, s: Server, v: Visit, used: set<Ip>, ip: Ip)
    requires s.scans == map[] && s.probing == map[] && v.mac !in s.leases
    requires var s0 := Remember(s, v.mac, v.hostname);
             StartScan(cfg, s0, v.mac, ForOffer, v.discover) ==
               Outcome(s0.(probing := s0.probing[ip := true],
                           scans := s0.scans[v.mac := Scan(ForOffer, used, v.discover, v.discover, ip)]), Silence)
    ensures var s0 := Remember(s, v.mac, v.hostname);
            var s2 := s0.(leases := s0.leases[v.mac := Lease(ip, v.discover, v.discover + cfg.leaseTime, Offered)]);
            Serve(cfg, s, v) == (Allocate(cfg, s2, v.mac, ip, v.request), Some(ip))
  {
    hide StartScan, Allocate;
    var s0 := Remember(s, v.mac, v.hostname);
    var r1 := Step(cfg, s, Receive(v.mac, Discover, v.hostname, v.discover));
    var s1 := r1.server;
    assert s1.scans - {v.mac} == map[] && s1.probing - {ip} == map[];
    assert s1.(probing := s1.probing - {ip}, scans := s1.scans - {v.mac}) == s0;
    var r2 := Step(cfg, s1, Resume(v.mac, v.probed));
    assert r2 == Outcome(s0.(leases := s0.leases[v.mac := Lease(ip, v.discover, v.discover + cfg.leaseTime, Offered)]),
                         Offer(ip));
  }

  lemma FilledGrows(cfg: Config, s: Server, s': Server, visits: seq<Visit>, k: nat, until: real, now: real)
    requires k < |visits| && DistinctClients(visits) && Filled(cfg, s, visits, k, until) && until <= now + cfg.leaseTime
    requires s'.scans == map[] && s'.probing == map[] && s'.conflicts == map[]
    requires s'.leases == s.leases[visits[k].mac := Lease(cfg.startIp + k, now, now + cfg.leaseTime, Allocated)]
    ensures Filled(cfg, s', visits, k + 1, until)
  {
  }

  lemma AllocateAfterOffer(cfg: Config, s0: Server, m: Mac, ip: Ip, offered: real, now: real)
    ensures var s' := Allocate(cfg, s0.(leases := s0.leases[m := Lease(ip, offered, offered + cfg.leaseTime, Offered)]),
                               m, ip, now);
            && s'.leases == s0.leases[m := Lease(ip, now, now + cfg.leaseTime, Allocated)]
            && s'.scans == s0.scans && s'.probing == s0.probing && s'.conflicts == s0.conflicts
  {
  }

  /** A visitor that has not been served yet has no lease, and remembering its name changes nothing else. */
  lemma NewClient(cfg: Config, s: Server, visits: seq<Visit>, k: nat, j: nat, until: real)
    requires k <= j < |visits| && DistinctClients(visits) && Filled(cfg, s, visits, k, until)
    ensures visits[j].mac !in s.leases && s.scans == map[] && s.probing == map[] && s.conflicts == map[]
    ensures Filled(cfg, Remember(s, visits[j].mac, visits[j].hostname), visits, k, until)
    ensures var s0 := Remember(s, visits[j].mac, visits[j].hostname);
            s0.leases == s.leases && s0.scans == map[] && s0.probing == map[] && s0.conflicts == map[]
  {
  }

  lemma ServeNext(cfg: Config, s: Server, visits: seq<Visit>, k: nat, from: real, until: real)
    requires k < |visits| && DistinctClients(visits) && Filled(cfg, s, visits, k, until) && cfg.startIp + k <= cfg.endIp
    requires s.scans == map[]
    requires Within(visits[k], from, until) && until <= from + cfg.leaseTime
    ensures Serve(cfg, s, visits[k]).1 == Some(cfg.startIp + k)
    ensures Filled(cfg, Serve(cfg, s, visits[k]).0, visits, k + 1, until) && Serve(cfg, s, visits[k]).0.scans == map[]
  {
    hide ScanFrom, Used, Filled, Serve, Allocate;
    var v, ip := visits[k], cfg.startIp + k;
    var s0 := Remember(s, v.mac, v.hostname);
    NewClient(cfg, s, visits, k, k, until);
    var used := Used(s0, v.discover);
    UsedIsPrefix(cfg, s0, visits, k, until, v.discover);
    ScanSkipsPrefix(cfg, s0, v.mac, ForOffer, used, v.discover, k, cfg.startIp);
    ServedAt(cfg, s, v, used, ip);
    AllocateAfterOffer(cfg, s0, v.mac, ip, v.discover, v.request);
    FilledGrows(cfg, s, Serve(cfg, s, v).0, visits, k, until, v.request);
  }

  /** A client whose scans all run off the pool gets nothing and leaves only its name behind. */
  lemma RefusedAt(cfg: Config, s: Server, v: Visit)
    requires s.scans == map[] && v.mac !in s.leases
    requires var s0 := Remember(s, v.mac, v.hostname);
             && StartScan(cfg, s0, v.mac, ForOffer, v.discover) == Outcome(s0, Silence)
             && StartScan(cfg, s0, v.mac, ForAck(v.request), v.request) == Outcome(s0, Silence)
    ensures Serve(cfg, s, v) == (Remember(s, v.mac, v.hostname), None)
  {
  }

  lemma ServeNone(cfg: Config, s: Server, visits: seq<Visit>, k: nat, n: nat, from: real, until: real)
    requires n <= k < |visits| && DistinctClients(visits) && Filled(cfg, s, visits, n, until) &&
             cfg.startIp + n == cfg.endIp + 1
    requires s.scans == map[]
    requires Within(visits[k], from, until)
    ensures Serve(cfg, s, visits[k]).1 == None
    ensures Filled(cfg, Serve(cfg, s, visits[k]).0, visits, n, until) && Serve(cfg, s, visits[k]).0.scans == map[]
  {
    hide ScanFrom, Used, Filled, Serve;
    var v := visits[k];
    var s0 := Remember(s, v.mac, v.hostname);
    NewClient(cfg, s, visits, n, k, until);
    UsedIsPrefix(cfg, s0, visits, n, until, v.discover);
    UsedIsPrefix(cfg, s0, visits, n, until, v.request);
    ScanSkipsPrefix(cfg, s0, v.mac, ForOffer, Used(s0, v.discover), v.discover, n, cfg.startIp);
    ScanSkipsPrefix(cfg, s0, v.mac, ForAck(v.request), Used(s0, v.request), v.request, n, cfg.startIp);
    RefusedAt(cfg, s, v);
  }

  /** The first k visits in order. */
  function ServeAll(cfg: Config, s: Server, visits: seq<Visit>, k: nat): (Server, seq<Option<Ip>>)
    requires k <= |visits|
  {
    if k == 0 then (s, [])
    else
      var (before, granted) := ServeAll(cfg, s, visits, k - 1);
      if before.scans != map[] then (before, granted + [None])
      else
        var (after, ip) := Serve(cfg, before, visits[k - 1]);
        (after, granted + [ip])
  }

  /**
  With n addresses in the pool, the i-th of any number of distinct clients that complete their exchange
  within one lease time, with clear probes, gets the i-th address, and every client after the n-th gets none.
  */
  lemma {:induction false} PoolFillsInOrder(cfg: Config, visits: seq<Visit>, n: nat, k: nat, from: real, until: real)
    requires cfg.endIp + 1 == cfg.startIp + n && DistinctClients(visits) && until <= from + cfg.leaseTime
    requires k <= |visits| && forall v :: v in visits ==> Within(v, from, until)
    ensures var (s, granted) := ServeAll(cfg, EMPTY, visits, k);
            && |granted| == k && s.scans == map[]
            && (forall i :: 0 <= i < k ==> granted[i] == if i < n then Some(cfg.startIp + i) else None)
            && Filled(cfg, s, visits, if k <= n then k else n, until)
    decreases k
  {
    hide Filled, Serve;
    if k == 0 {
      EmptyFilled(cfg, visits, until);
    } else {
      var (before, granted) := ServeAll(cfg, EMPTY, visits, k - 1);
      PoolFillsInOrder(cfg, visits, n, k - 1, from, until);
      if k - 1 < n {
        ServeNext(cfg, before, visits, k - 1, from, until);
      } else {
        ServeNone(cfg, before, visits, k - 1, n, from, until);
      }
    }
  }

  lemma EmptyFilled(cfg: Config, visits: seq<Visit>, until: real)
    ensures Filled(cfg, EMPTY, visits, 0, until)
  {
  }
}
