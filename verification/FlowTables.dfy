/**
The flow table of one switch under everything the controller adds to it: the table-miss entry, host entries, the NAT
and DNS captures, firewall entries and the probe capture. Entries are only ever added (`OFPFC_ADD`), and an entry with
the same match and priority is replaced (section 4.6 of the OpenFlow Switch Specification 1.0.0).
*/
module FlowTables {
  import opened Wrappers
  import opened Bytes
  import opened OpenFlow
  import opened Firewall
  import T = Topology

  const NAT_PRIORITY: nat := 50000
  const DNS_PRIORITY: nat := 55000
  const FIREWALL_PRIORITY: nat := 60000
  const PROBE_PRIORITY: nat := 65000
  const PROBE_ETH_TYPE: Word := 0x9999
  const DNS_PORT: Word := 53

  datatype Action = Drop | ToController | Output(port: nat)

  datatype FlowMod =
    | TableMiss
    | HostFlow(key: T.FlowKey, port: nat)
    | NatCapture
    | DnsCapture
    | Deny(rule: Rule)
    | ProbeCapture

  datatype EntryKey = EntryKey(priority: nat, flowMatch: Match)
  type FlowTable = map<EntryKey, Action>

  function EtherTypeOf(t: T.EtherType): Word {
    if t.EtherIp? then ETH_TYPE_IP else ETH_TYPE_ARP
  }

  function NoCriteria(): Criteria {
    Criteria(0, None, 0, None, 32, None, 32, 0, 0, 0)
  }

  function CriteriaOf(mod: FlowMod, externalIp: Ip): (c: Criteria)
    ensures MasksInRange(c)
  {
    match mod
    case TableMiss => NoCriteria()
    case HostFlow(key, _) => NoCriteria().(dlType := EtherTypeOf(key.etherType), dlDst := Some(key.dlDst))
    case NatCapture => NoCriteria().(dlType := ETH_TYPE_IP, nwDst := Some(externalIp))
    case DnsCapture => NoCriteria().(dlType := ETH_TYPE_IP, nwProto := IPPROTO_UDP, tpDst := DNS_PORT)
    case Deny(rule) => ControllerCriteria(rule)
    case ProbeCapture => NoCriteria().(dlType := PROBE_ETH_TYPE)
  }

  function PriorityOf(mod: FlowMod): nat {
    match mod
    case TableMiss => 0
    case HostFlow(_, _) => 10
    case NatCapture => NAT_PRIORITY
    case DnsCapture => DNS_PRIORITY
    case Deny(_) => FIREWALL_PRIORITY
    case ProbeCapture => PROBE_PRIORITY
  }

  function ActionOf(mod: FlowMod): Action {
    match mod
    case HostFlow(_, port) => Output(port)
    case Deny(_) => Drop
    case _ => ToController
  }

  function KeyOfMod(mod: FlowMod, externalIp: Ip): EntryKey {
    EntryKey(PriorityOf(mod), FlowMatch(CriteriaOf(mod, externalIp)))
  }

  /** The table after a sequence of additions. */
  function Applied(mods: seq<FlowMod>, externalIp: Ip): FlowTable {
    if mods == [] then map[]
    else
      var mod := mods[|mods| - 1];
      Applied(mods[..|mods| - 1], externalIp)[KeyOfMod(mod, externalIp) := ActionOf(mod)]
  }

  /** An entry that may decide over p: none that accepts p has a higher priority. */
  ghost predicate Decides(t: FlowTable, p: Packet, key: EntryKey) {
    && key in t && Accepts(key.flowMatch, p)
    && forall k :: k in t && Accepts(k.flowMatch, p) ==> k.priority <= key.priority
  }

  /** The switch drops p, whichever of the deciding entries it picks. */
  ghost predicate Blocked(t: FlowTable, p: Packet) {
    (exists key :: Decides(t, p, key)) && forall key :: Decides(t, p, key) ==> t[key] == Drop
  }

  // ---------------------------------------------------------------- which additions a table remembers

  lemma {:induction false} EntryHasMod(mods: seq<FlowMod>, externalIp: Ip, key: EntryKey)
    requires key in Applied(mods, externalIp)
    ensures exists mod ::
              mod in mods && KeyOfMod(mod, externalIp) == key && ActionOf(mod) == Applied(mods, externalIp)[key]
  {
    hide KeyOfMod, ActionOf;
    var last, rest := mods[|mods| - 1], mods[..|mods| - 1];
    assert last in mods;
    if key != KeyOfMod(last, externalIp) {
      EntryHasMod(rest, externalIp, key);
      var mod :| mod in rest && KeyOfMod(mod, externalIp) == key && ActionOf(mod) == Applied(rest, externalIp)[key];
      assert mod in mods;
    }
  }

  lemma {:induction false} ModHasEntry(mods: seq<FlowMod>, externalIp: Ip, mod: FlowMod)
    requires mod in mods
    ensures KeyOfMod(mod, externalIp) in Applied(mods, externalIp)
  {
    hide KeyOfMod, ActionOf;
    var last, rest := mods[|mods| - 1], mods[..|mods| - 1];
    if mod != last {
      assert mods == rest + [last];
      ModHasEntry(rest, externalIp, mod);
    }
  }

  // ---------------------------------------------------------------- host entries

  /** The host entries that a sequence of additions leaves, keyed as `Topology` keys them. */
  function HostTable(mods: seq<FlowMod>): T.Table {
    if mods == [] then map[]
    else
      var mod, rest := mods[|mods| - 1], HostTable(mods[..|mods| - 1]);
      if mod.HostFlow? then rest[mod.key := mod.port] else rest
  }

  function HostKey(key: T.FlowKey): EntryKey {
    EntryKey(10, FlowMatch(NoCriteria().(dlType := EtherTypeOf(key.etherType), dlDst := Some(key.dlDst))))
  }

  /** Host entries collide exactly when EtherType and destination are the same. */
  lemma HostKeysDiffer(key: T.FlowKey, key': T.FlowKey)
    ensures HostKey(key) == HostKey(key') <==> key == key'
  {
  }

  /** The entry for a host is the last one added for it; no other addition touches it. */
  lemma {:induction false} HostEntriesAgree(mods: seq<FlowMod>, externalIp: Ip, key: T.FlowKey)
    ensures HostKey(key) in Applied(mods, externalIp) <==> key in HostTable(mods)
    ensures key in HostTable(mods) ==> Applied(mods, externalIp)[HostKey(key)] == Output(HostTable(mods)[key])
  {
    hide FlowMatch;
    if mods != [] {
      var mod := mods[|mods| - 1];
      HostEntriesAgree(mods[..|mods| - 1], externalIp, key);
      if mod.HostFlow? {
        HostKeysDiffer(key, mod.key);
        assert KeyOfMod(mod, externalIp) == HostKey(mod.key);
      }
    }
  }

  /** Sending a host's two entries is the table update of the topology handlers. */
  lemma HostFlowsAreSetHostFlows(mods: seq<FlowMod>, tables: map<nat, T.Table>, s: nat, m: nat, port: nat)
    requires s in tables && tables[s] == HostTable(mods)
    ensures var sent := [HostFlow(T.FlowKey(T.EtherIp, m), port), HostFlow(T.FlowKey(T.EtherArp, m), port)];
            HostTable(mods + sent) == T.SetHostFlows(tables, s, m, port)[s]
  {
    var ip, arp := HostFlow(T.FlowKey(T.EtherIp, m), port), HostFlow(T.FlowKey(T.EtherArp, m), port);
    assert (mods + [ip, arp])[..|mods| + 1] == mods + [ip] && (mods + [ip])[..|mods|] == mods;
    assert HostTable(mods + [ip]) == HostTable(mods)[ip.key := port];
  }

  // ---------------------------------------------------------------- what happens to a packet

  function HostKeyOf(p: Packet): Option<T.FlowKey> {
    match p.payload
    case Ipv4(_, _, _, _) => Some(T.FlowKey(T.EtherIp, p.dlDst))
    case Arp(_, _, _) => Some(T.FlowKey(T.EtherArp, p.dlDst))
    case OtherType(_) => None
  }

  predicate IsDns(p: Packet) {
    p.payload.Ipv4? && p.payload.transport.Udp? && p.payload.transport.dstPort == DNS_PORT
  }

  predicate IsFor(p: Packet, ip: Ip) {
    p.payload.Ipv4? && p.payload.dst == ip
  }

  predicate AcceptsMod(mod: FlowMod, externalIp: Ip, p: Packet) {
    match mod
    case TableMiss => true
    case HostFlow(key, _) => HostKeyOf(p) == Some(key)
    case NatCapture => IsFor(p, externalIp)
    case DnsCapture => IsDns(p)
    case Deny(rule) => Accepts(ControllerMatch(rule), p)
    case ProbeCapture => p.DlType() == PROBE_ETH_TYPE
  }

  lemma ModAccepts(mod: FlowMod, externalIp: Ip, p: Packet)
    requires p.Wf()
    ensures Accepts(KeyOfMod(mod, externalIp).flowMatch, p) <==> AcceptsMod(mod, externalIp, p)
  {
  }

  /** The fate of a packet, by what was added so far; None when no entry takes it. */
  ghost function Verdict(mods: seq<FlowMod>, externalIp: Ip, p: Packet): Option<Action> {
    if ProbeCapture in mods && p.DlType() == PROBE_ETH_TYPE then Some(ToController)
    else if exists r :: Deny(r) in mods && Accepts(ControllerMatch(r), p) then Some(Drop)
    else if DnsCapture in mods && IsDns(p) then Some(ToController)
    else if NatCapture in mods && IsFor(p, externalIp) then Some(ToController)
    else if HostKeyOf(p).Some? && HostKeyOf(p).value in HostTable(mods)
      then Some(Output(HostTable(mods)[HostKeyOf(p).value]))
    else if TableMiss in mods then Some(ToController)
    else None
  }

  ghost predicate Top(mods: seq<FlowMod>, externalIp: Ip, p: Packet, mod: FlowMod) {
    && mod in mods && AcceptsMod(mod, externalIp, p)
    && forall m :: m in mods && AcceptsMod(m, externalIp, p) ==> PriorityOf(m) <= PriorityOf(mod)
  }

  lemma TopDecides(mods: seq<FlowMod>, externalIp: Ip, p: Packet, mod: FlowMod)
    requires p.Wf() && Top(mods, externalIp, p, mod)
    ensures Decides(Applied(mods, externalIp), p, KeyOfMod(mod, externalIp))
  {
    hide Applied, Accepts, AcceptsMod, FlowMatch, CriteriaOf, PriorityOf;
    var t := Applied(mods, externalIp);
    ModHasEntry(mods, externalIp, mod);
    ModAccepts(mod, externalIp, p);
    forall k | k in t && Accepts(k.flowMatch, p) ensures k.priority <= PriorityOf(mod) {
      EntryHasMod(mods, externalIp, k);
      var m :| m in mods && KeyOfMod(m, externalIp) == k;
      ModAccepts(m, externalIp, p);
    }
  }

  lemma {:induction false} LastHostMod(mods: seq<FlowMod>, key: T.FlowKey)
    ensures key in HostTable(mods) <==> exists port :: HostFlow(key, port) in mods
  {
    if mods != [] {
      var last, rest := mods[|mods| - 1], mods[..|mods| - 1];
      LastHostMod(rest, key);
      assert mods == rest + [last];
      forall port ensures HostFlow(key, port) in mods <==> HostFlow(key, port) in rest || HostFlow(key, port) == last {
      }
      if last.HostFlow? && last.key == key {
        assert HostFlow(key, last.port) in mods;
      }
    }
  }

  /** Any two deciding entries agree, and their action is the verdict. */
  lemma DecidingEntryIsVerdict(mods: seq<FlowMod>, externalIp: Ip, p: Packet, key: EntryKey)
    requires p.Wf() && Decides(Applied(mods, externalIp), p, key)
    ensures Verdict(mods, externalIp, p) == Some(Applied(mods, externalIp)[key])
  {
    hide Applied, Accepts, FlowMatch, CriteriaOf, ControllerMatch, HostTable, IsDns, IsFor, HostKeyOf;
    var t := Applied(mods, externalIp);
    EntryHasMod(mods, externalIp, key);
    var mod :| mod in mods && KeyOfMod(mod, externalIp) == key && ActionOf(mod) == t[key];
    ModAccepts(mod, externalIp, p);
    forall m | m in mods && AcceptsMod(m, externalIp, p) ensures PriorityOf(m) <= key.priority {
      ModAccepts(m, externalIp, p);
      ModHasEntry(mods, externalIp, m);
    }
    if HostKeyOf(p).Some? {
      var hostKey := HostKeyOf(p).value;
      LastHostMod(mods, hostKey);
      HostEntriesAgree(mods, externalIp, hostKey);
      forall port | HostFlow(hostKey, port) in mods
        ensures KeyOfMod(HostFlow(hostKey, port), externalIp) == HostKey(hostKey) {
        HostModKey(hostKey, port, externalIp);
      }
    }
  }

  lemma HostModKey(key: T.FlowKey, port: nat, externalIp: Ip)
    ensures KeyOfMod(HostFlow(key, port), externalIp) == HostKey(key)
  {
  }

  /** The addition behind a verdict. */
  lemma TopMod(mods: seq<FlowMod>, externalIp: Ip, p: Packet) returns (mod: FlowMod)
    requires Verdict(mods, externalIp, p).Some?
    ensures Top(mods, externalIp, p, mod)
  {
    hide Accepts, FlowMatch, CriteriaOf, ControllerMatch, HostTable, IsDns, IsFor, HostKeyOf;
    if HostKeyOf(p).Some? {
      LastHostMod(mods, HostKeyOf(p).value);
    }
    if ProbeCapture in mods && p.DlType() == PROBE_ETH_TYPE {
      return ProbeCapture;
    } else if r :| Deny(r) in mods && Accepts(ControllerMatch(r), p) {
      return Deny(r);
    } else if DnsCapture in mods && IsDns(p) {
      return DnsCapture;
    } else if NatCapture in mods && IsFor(p, externalIp) {
      return NatCapture;
    } else if HostKeyOf(p).Some? && HostKeyOf(p).value in HostTable(mods) {
      var port :| HostFlow(HostKeyOf(p).value, port) in mods;
      return HostFlow(HostKeyOf(p).value, port);
    } else {
      return TableMiss;
    }
  }

  /**
  In every state of the table the deciding entries agree on the verdict, and there is none exactly when there is no
  verdict.
  */
  lemma TableGivesVerdict(mods: seq<FlowMod>, externalIp: Ip, p: Packet)
    requires p.Wf()
    ensures forall key :: Decides(Applied(mods, externalIp), p, key) ==>
            Verdict(mods, externalIp, p) == Some(Applied(mods, externalIp)[key])
    ensures Verdict(mods, externalIp, p).None? <==> forall key :: !Decides(Applied(mods, externalIp), p, key)
  {
    hide Applied, Verdict, Accepts;
    forall key | Decides(Applied(mods, externalIp), p, key)
      ensures Verdict(mods, externalIp, p) == Some(Applied(mods, externalIp)[key])
    {
      DecidingEntryIsVerdict(mods, externalIp, p, key);
    }
    if Verdict(mods, externalIp, p).Some? {
      var mod := TopMod(mods, externalIp, p);
      TopDecides(mods, externalIp, p, mod);
    }
  }

  // ---------------------------------------------------------------- the firewall

  /** What `_install_firewall_rules` adds: the deny rules, in order. */
  function Denials(rules: seq<Rule>): seq<FlowMod> {
    if rules == [] then []
    else Denials(rules[..|rules| - 1]) + (if rules[|rules| - 1].deny then [Deny(rules[|rules| - 1])] else [])
  }

  lemma {:induction false} DenialsAreDenyRules(rules: seq<Rule>, mod: FlowMod)
    ensures mod in Denials(rules) <==> mod.Deny? && DenyRule(rules, mod.rule)
  {
    if rules != [] {
      DenialsAreDenyRules(rules[..|rules| - 1], mod);
      assert rules == rules[..|rules| - 1] + [rules[|rules| - 1]];
    }
  }

  lemma DenialsSnoc(rules: seq<Rule>, i: nat)
    requires i < |rules|
    ensures Denials(rules[..i + 1]) == if rules[i].deny then Denials(rules[..i]) + [Deny(rules[i])]
      else Denials(rules[..i])
  {
    assert rules[..i + 1][..i] == rules[..i];
  }

  lemma AppliedSnoc(mods: seq<FlowMod>, mod: FlowMod, externalIp: Ip)
    ensures Applied(mods + [mod], externalIp) == Applied(mods, externalIp)[KeyOfMod(mod, externalIp) := ActionOf(mod)]
  {
  }

  /** `_install_firewall_rules` on a switch that has received `mods` before. */
  method InstallFirewallRules(rules: seq<Rule>, table: FlowTable, ghost mods: seq<FlowMod>, externalIp: Ip)
    returns (t: FlowTable)
    requires table == Applied(mods, externalIp)
    ensures t == Applied(mods + Denials(rules), externalIp)
    ensures forall r, p: Packet :: p.Wf() && DenyRule(rules, r) && ControllerCompilesWell(r) && Describes(r, p) ==>
            Blocked(t, p)
  {
    hide Applied, FlowMatch, Blocked, Describes, ControllerCompilesWell;
    t := table;
    var i := 0;
    assert mods + Denials(rules[..0]) == mods;
    while i < |rules|
      invariant 0 <= i <= |rules| && t == Applied(mods + Denials(rules[..i]), externalIp)
    {
      var r := rules[i];
      DenialsSnoc(rules, i);
      if r.deny {
        var m := CompileRule(r);
        AppliedSnoc(mods + Denials(rules[..i]), Deny(r), externalIp);
        assert mods + Denials(rules[..i]) + [Deny(r)] == mods + Denials(rules[..i + 1]);
        t := t[EntryKey(FIREWALL_PRIORITY, m) := Drop];
      }
      i := i + 1;
    }
    assert rules[..i] == rules;
    forall r, p: Packet | p.Wf() && DenyRule(rules, r) && ControllerCompilesWell(r) && Describes(r, p)
      ensures Blocked(t, p) {
      DenialsAreDenyRules(rules, Deny(r));
      DescribedPacketsBlocked(mods + Denials(rules), r, externalIp, p);
    }
  }

  /**
  Whatever else the controller added before or after: a packet that is not a probe is dropped exactly when the match of
  some installed deny rule accepts it.
  */
  lemma FirewallDecides(mods: seq<FlowMod>, externalIp: Ip, p: Packet)
    requires p.Wf() && p.DlType() != PROBE_ETH_TYPE
    ensures Blocked(Applied(mods, externalIp), p) <==> exists r :: Deny(r) in mods && Accepts(ControllerMatch(r), p)
  {
    hide Applied, Accepts, ControllerMatch, HostTable;
    TableGivesVerdict(mods, externalIp, p);
  }

  /** Once added, a rule that compiles well keeps every packet it describes out, in every later state of the table. */
  lemma DescribedPacketsBlocked(mods: seq<FlowMod>, r: Rule, externalIp: Ip, p: Packet)
    requires p.Wf() && Deny(r) in mods && ControllerCompilesWell(r) && Describes(r, p)
    ensures Blocked(Applied(mods, externalIp), p)
  {
    hide Accepts, ControllerMatch, Applied, Blocked, ControllerCompilesWell;
    ControllerAcceptsWhatIsDescribed(r, p);
    FirewallDecides(mods, externalIp, p);
  }

  /** And if every installed rule compiles well, nothing else is kept out. */
  lemma OnlyDescribedPacketsBlocked(mods: seq<FlowMod>, externalIp: Ip, p: Packet)
    requires p.Wf() && p.DlType() != PROBE_ETH_TYPE
    requires forall r :: Deny(r) in mods ==> ControllerCompilesWell(r)
    ensures Blocked(Applied(mods, externalIp), p) <==> exists r :: Deny(r) in mods && Describes(r, p)
  {
    hide Accepts, ControllerMatch, Applied, Blocked, ControllerCompilesWell, Describes;
    FirewallDecides(mods, externalIp, p);
    forall r | Deny(r) in mods ensures Accepts(ControllerMatch(r), p) <==> Describes(r, p) {
      ControllerAcceptsWhatIsDescribed(r, p);
    }
  }
}
