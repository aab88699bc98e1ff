/**
Deny rules and the two compilers that turn them into OpenFlow matches: the controller's own
`_install_firewall_rules` and `Firewall.install_rules` of firewall.py.
*/
module Firewall {
  import opened Wrappers
  import opened Bytes
  import opened OpenFlow

  type Dpid = nat

  const IPPROTO_ICMP: byte := 1
  const IPPROTO_TCP: byte := 6
  const IPPROTO_UDP: byte := 17

  /** A rule as `_load_rules` leaves it: None where the file had nothing, "", "*" or "any". */
  datatype Rule = Rule(srcIp: Option<Ip>, dstIp: Option<Ip>, proto: Option<string>, srcPort: Option<Word>,
                       dstPort: Option<Word>, deny: bool)

  // ---------------------------------------------------------------- normalisation

  /** `str.isspace`, for characters below U+0100. */
  predicate IsSpace(c: char) {
    '\t' <= c <= '\r' || 0x1C <= c as int <= 0x20 || c as int == 0x85 || c as int == 0xA0
  }

  /** Blank, tab, new line and carriage return are among them, letters and digits are not. */
  lemma SpacesAre(c: char)
    ensures c in {' ', '\t', '\n', '\r'} ==> IsSpace(c)
    ensures '!' <= c <= '~' ==> !IsSpace(c)
  {
  }

  function Strip(s: string): string {
    if s != "" && IsSpace(s[0]) then Strip(s[1..])
    else if s != "" && IsSpace(s[|s| - 1]) then Strip(s[..|s| - 1])
    else s
  }

  function LowerChar(c: char): char {
    if 'A' <= c <= 'Z' then c + ('a' - 'A') else c
  }

  function Lower(s: string): (r: string)
    ensures |r| == |s| && forall i :: 0 <= i < |s| ==> r[i] == LowerChar(s[i])
  {
    seq(|s|, i requires 0 <= i < |s| => LowerChar(s[i]))
  }

  function NormalizeAny(value: Option<string>): Option<string> {
    if value.Some? && Lower(Strip(value.value)) in {"", "*", "any"} then None else value
  }

  function NormalizeProto(proto: Option<string>): Option<string> {
    var p := NormalizeAny(proto);
    if p.None? then None else Some(Lower(p.value))
  }

  /** `_proto_to_number`: names outside `PROTO_MAP` count as no protocol. */
  function ProtoNumber(proto: Option<string>): byte {
    match NormalizeProto(proto)
    case None => 0
    case Some(name) =>
      if name == "icmp" then IPPROTO_ICMP else if name == "tcp" then IPPROTO_TCP else if name == "udp" then IPPROTO_UDP
        else 0
  }

  lemma {:induction false} StripLower(s: string)
    ensures Strip(Lower(s)) == Lower(Strip(s))
  {
    var t := Lower(s);
    if s != "" && IsSpace(s[0]) {
      StripLower(s[1..]);
      assert t[1..] == Lower(s[1..]);
    } else if s != "" && IsSpace(s[|s| - 1]) {
      StripLower(s[..|s| - 1]);
      assert t[..|s| - 1] == Lower(s[..|s| - 1]);
    }
  }

  /** The compilers normalise again what loading normalised already; nothing changes. */
  lemma NormalizingTwice(proto: Option<string>)
    ensures NormalizeProto(NormalizeProto(proto)) == NormalizeProto(proto)
    ensures ProtoNumber(NormalizeProto(proto)) == ProtoNumber(proto)
  {
    if NormalizeProto(proto).Some? {
      var s := proto.value;
      StripLower(s);
      assert Lower(Lower(Strip(s))) == Lower(Strip(s));
      assert Lower(Lower(s)) == Lower(s);
    }
  }

  lemma {:induction false} StripTwice(s: string)
    ensures Strip(Strip(s)) == Strip(s)
  {
    if s != "" && IsSpace(s[0]) {
      StripTwice(s[1..]);
    } else if s != "" && IsSpace(s[|s| - 1]) {
      StripTwice(s[..|s| - 1]);
    }
  }

  /** A name with a blank at an end is none of the three known names. */
  lemma UnstrippedIsUnknown(s: string)
    requires Strip(s) != s
    ensures Lower(s) !in {"icmp", "tcp", "udp"}
  {
    var i := if IsSpace(s[0]) then 0 else |s| - 1;
    assert IsSpace(s[i]) && Lower(s)[i] == s[i];
  }

  /**
  The protocol name is not stripped, unlike the wildcards: for every name, padding it makes no difference exactly when
  there is no padding or the name is not known anyway.
  */
  lemma PaddingMattersIff(s: string)
    ensures ProtoNumber(Some(s)) == ProtoNumber(Some(Strip(s))) <==> Strip(s) == s || ProtoNumber(Some(Strip(s))) == 0
  {
    StripTwice(s);
    if Strip(s) != s {
      UnstrippedIsUnknown(s);
    }
  }

  /** So a trailing blank turns a TCP rule into one for every protocol. */
  lemma PaddedNameMeansAnyProtocol()
    ensures ProtoNumber(Some("TCP")) == IPPROTO_TCP && ProtoNumber(Some("TCP ")) == 0
  {
    assert Strip("TCP ") == "TCP";
    assert Lower("TCP") == "tcp";
    PaddingMattersIff("TCP ");
  }

  /** The same letters, in any case; `name` is written in small letters. */
  predicate SameLetters(s: string, name: string) {
    |s| == |name| && forall i :: 0 <= i < |s| ==>
      s[i] == name[i] || ('a' <= name[i] <= 'z' && s[i] as int == name[i] as int - 32)
  }

  lemma LowerIffSameLetters(s: string, name: string)
    requires forall i :: 0 <= i < |name| ==> 'a' <= name[i] <= 'z'
    ensures Lower(s) == name <==> SameLetters(s, name)
  {
    if Lower(s) == name {
      forall i | 0 <= i < |s| ensures s[i] == name[i] || s[i] as int == name[i] as int - 32 {
        assert Lower(s)[i] == name[i];
      }
    }
  }

  /** A name stands for a protocol exactly when it spells icmp, tcp or udp, in any case and without blanks. */
  lemma NamedProtocolIff(s: string)
    ensures ProtoNumber(Some(s)) == 1 <==> SameLetters(s, "icmp")
    ensures ProtoNumber(Some(s)) == 6 <==> SameLetters(s, "tcp")
    ensures ProtoNumber(Some(s)) == 17 <==> SameLetters(s, "udp")
    ensures ProtoNumber(Some(s)) in {0, 1, 6, 17}
  {
    LowerIffSameLetters(s, "icmp");
    LowerIffSameLetters(s, "tcp");
    LowerIffSameLetters(s, "udp");
    if Lower(s) in {"icmp", "tcp", "udp"} && Strip(s) != s {
      UnstrippedIsUnknown(s);
    }
    hide Lower, Strip, SameLetters;
  }

  predicate AllBlank(s: string) {
    forall i :: 0 <= i < |s| ==> IsSpace(s[i])
  }

  /** Blanks around a text that has none at its ends are stripped. */
  lemma {:induction false} StripsBlanks(pre: string, word: string, post: string)
    requires AllBlank(pre) && AllBlank(post) && (word != "" ==> !IsSpace(word[0]) && !IsSpace(word[|word| - 1]))
    ensures Strip(pre + word + post) == word
    decreases |pre| + |post|
  {
    var s := pre + word + post;
    if pre != "" {
      assert s[1..] == pre[1..] + word + post;
      StripsBlanks(pre[1..], word, post);
    } else if post != "" {
      assert s[..|s| - 1] == pre + word + post[..|post| - 1];
      StripsBlanks(pre, word, post[..|post| - 1]);
      if word == "" {
        assert s == post && s[1..] == pre + word + post[1..];
        StripsBlanks(pre, word, post[1..]);
      }
    } else {
      assert s == word;
    }
  }

  /** Nothing, "*" and "any", with blanks around them and in any case, stand for every value. */
  lemma WildcardsMeanAny(pre: string, word: string, post: string)
    requires AllBlank(pre) && AllBlank(post) && (word == "" || word == "*" || SameLetters(word, "any"))
    ensures NormalizeAny(Some(pre + word + post)) == None && ProtoNumber(Some(pre + word + post)) == 0
  {
    if word != "" && word != "*" {
      LowerIffSameLetters(word, "any");
    }
    StripsBlanks(pre, word, post);
    assert Lower("") == "" && Lower("*") == "*";
    hide Strip;
  }

  // ---------------------------------------------------------------- what a rule describes

  predicate HasPorts(t: Transport) {
    t.Tcp? || t.Udp?
  }

  /** The IPv4 packets a rule is about. Port 0 is how a missing port is written. */
  predicate Describes(r: Rule, p: Packet) {
    && p.payload.Ipv4?
    && (r.srcIp.Some? ==> p.payload.src == r.srcIp.value)
    && (r.dstIp.Some? ==> p.payload.dst == r.dstIp.value)
    && (ProtoNumber(r.proto) != 0 ==> p.NwProto() == ProtoNumber(r.proto))
    && (r.srcPort.UnwrapOr(0) != 0 ==> HasPorts(p.payload.transport) && p.payload.transport.srcPort == r.srcPort.value)
    && (r.dstPort.UnwrapOr(0) != 0 ==> HasPorts(p.payload.transport) && p.payload.transport.dstPort == r.dstPort.value)
  }

  predicate NoPorts(r: Rule) {
    r.srcPort.UnwrapOr(0) == 0 && r.dstPort.UnwrapOr(0) == 0
  }

  predicate HasAddress(r: Rule) {
    r.srcIp.Some? || r.dstIp.Some?
  }

  predicate TcpOrUdp(r: Rule) {
    ProtoNumber(r.proto) in {IPPROTO_TCP, IPPROTO_UDP}
  }

  // ---------------------------------------------------------------- the two compilers

  /** The match of `_install_firewall_rules`, as arguments of `set_flow`. */
  function ControllerCriteria(r: Rule): Criteria {
    Criteria(if ProtoNumber(r.proto) != 0 || HasAddress(r) then ETH_TYPE_IP else 0, None, 0, r.srcIp, 32, r.dstIp, 32,
             ProtoNumber(r.proto), r.srcPort.UnwrapOr(0), r.dstPort.UnwrapOr(0))
  }

  function ControllerMatch(r: Rule): Match {
    FlowMatch(ControllerCriteria(r))
  }

  /** One turn of the loop of `_install_firewall_rules`, which narrows the wildcards itself, in its own order. */
  method CompileRule(r: Rule) returns (m: Match)
    ensures m == ControllerMatch(r)
  {
    hide Narrowed;
    NarrowingAllOnes(0);
    var proto := ProtoNumber(r.proto);
    var open := EVERYTHING.open;
    var src: SixBits, dst: SixBits := EVERYTHING.nwSrc, EVERYTHING.nwDst;
    var dlType: Word := if proto != 0 || r.srcIp.Some? || r.dstIp.Some? then ETH_TYPE_IP else 0;
    if dlType != 0 {
      open := open - {DlType};
    }
    if proto != 0 {
      open := open - {NwProto};
    }
    if r.srcIp.Some? {
      src := Narrowed(src, 32 - 32);
    }
    if r.dstIp.Some? {
      dst := Narrowed(dst, 32 - 32);
    }
    var tpSrc: Word, tpDst: Word := 0, 0;
    if r.srcPort.UnwrapOr(0) != 0 {
      tpSrc := r.srcPort.value;
      open := open - {TpSrc};
    }
    if r.dstPort.UnwrapOr(0) != 0 {
      tpDst := r.dstPort.value;
      open := open - {TpDst};
    }
    assert open == WildcardsOf(ControllerCriteria(r)).open;
    m := Match(Wildcards(open, src, dst), 0, 0, 0, 0, 0, dlType, 0, proto, r.srcIp.UnwrapOr(0), r.dstIp.UnwrapOr(0),
               tpSrc, tpDst);
  }

  /** The arguments `install_rules` passes to `set_flow`, branch by branch. */
  function FirewallCriteria(r: Rule): Criteria {
    var srcMask := if r.srcIp.Some? then 32 else 0;
    var dstMask := if r.dstIp.Some? then 32 else 0;
    var proto := ProtoNumber(r.proto);
    if proto == IPPROTO_ICMP || (proto != 0 && NoPorts(r)) then
      Criteria(ETH_TYPE_IP, None, 0, r.srcIp, srcMask, r.dstIp, dstMask, proto, 0, 0)
    else if proto == 0 then
      Criteria(ETH_TYPE_IP, None, 0, r.srcIp, srcMask, r.dstIp, dstMask, 0, 0, 0)
    else
      Criteria(ETH_TYPE_IP, None, 0, r.srcIp, srcMask, r.dstIp, dstMask, proto, r.srcPort.UnwrapOr(0),
               r.dstPort.UnwrapOr(0))
  }

  function FirewallMatch(r: Rule): Match {
    FlowMatch(FirewallCriteria(r))
  }

  /** The two compilers agree exactly when no port is given to a protocol that has none, and something is given. */
  lemma CompilersAgreeIff(r: Rule)
    ensures ControllerMatch(r) == FirewallMatch(r) <==>
            TcpOrUdp(r) || (NoPorts(r) && (ProtoNumber(r.proto) != 0 || HasAddress(r)))
  {
  }

  // ---------------------------------------------------------------- named protocols

  /** The packet belongs to the protocol; an opaque one carries its number. */
  predicate SpeaksOf(name: string, t: Transport) {
    || (name == "icmp" && (t.Icmp? || t == Opaque(1)))
    || (name == "tcp" && (t.Tcp? || t == Opaque(6)))
    || (name == "udp" && (t.Udp? || t == Opaque(17)))
  }

  predicate Between(r: Rule, p: Packet)
    requires p.payload.Ipv4?
  {
    (r.srcIp.Some? ==> p.payload.src == r.srcIp.value) && (r.dstIp.Some? ==> p.payload.dst == r.dstIp.value)
  }

  /**
  Without ports, a rule that names a protocol accepts exactly the packets of that protocol between its addresses, and
  no other packets.
  */
  lemma NamedRuleAccepts(r: Rule, name: string, p: Packet)
    requires r.proto.Some? && name in {"icmp", "tcp", "udp"} && SameLetters(r.proto.value, name) && NoPorts(r) && p.Wf()
    ensures Accepts(ControllerMatch(r), p) <==> p.payload.Ipv4? && Between(r, p) && SpeaksOf(name, p.payload.transport)
    ensures Accepts(FirewallMatch(r), p) <==> p.payload.Ipv4? && Between(r, p) && SpeaksOf(name, p.payload.transport)
  {
    NamedProtocolIff(r.proto.value);
    hide SameLetters, ProtoNumber, FlowMatch, Accepts;
    MatchMeans(r, ControllerCriteria(r), p);
    MatchMeans(r, FirewallCriteria(r), p);
  }

  // ---------------------------------------------------------------- exactness

  /** A match under which no header field is looked at that the rule does not name. */
  lemma MatchMeans(r: Rule, c: Criteria, p: Packet)
    requires c in {ControllerCriteria(r), FirewallCriteria(r)}
    ensures Accepts(FlowMatch(c), p) <==>
      && (c.dlType != 0 ==> p.DlType() == c.dlType)
      && (r.srcIp.Some? ==> p.NwSrc() == r.srcIp.value)
      && (r.dstIp.Some? ==> p.NwDst() == r.dstIp.value)
      && (c.nwProto != 0 ==> p.NwProto() == c.nwProto)
      && (c.tpSrc != 0 ==> p.Tp().0 == c.tpSrc)
      && (c.tpDst != 0 ==> p.Tp().1 == c.tpDst)
  {
  }

  ghost predicate ControllerExact(r: Rule) {
    forall p: Packet :: p.Wf() ==> (Accepts(ControllerMatch(r), p) <==> Describes(r, p))
  }

  ghost predicate FirewallExact(r: Rule) {
    forall p: Packet :: p.Wf() ==> (Accepts(FirewallMatch(r), p) <==> Describes(r, p))
  }

  function Ports(r: Rule): (Word, Word) {
    (r.srcPort.UnwrapOr(0), r.dstPort.UnwrapOr(0))
  }

  predicate FitsIcmp(r: Rule) {
    Ports(r).0 < 256 && Ports(r).1 < 256
  }

  /** A packet between the rule's addresses. */
  function Sample(r: Rule, t: Transport): Packet {
    Packet(1, 1, 2, 0, 0, Ipv4(r.srcIp.UnwrapOr(0), r.dstIp.UnwrapOr(0), 0, t))
  }

  predicate ControllerCompilesWell(r: Rule) {
    TcpOrUdp(r) || !FitsIcmp(r) || (NoPorts(r) && (ProtoNumber(r.proto) != 0 || HasAddress(r)))
  }

  lemma ControllerAcceptsWhatIsDescribed(r: Rule, p: Packet)
    requires p.Wf() && ControllerCompilesWell(r)
    ensures Accepts(ControllerMatch(r), p) <==> Describes(r, p)
  {
  }

  /**
  The controller's match accepts exactly the packets the rule describes, except for rules that name ports but not TCP
  or UDP (OpenFlow matches the ports of an ICMP packet against its type and code, each one byte) and for rules that
  name nothing.
  */
  lemma ControllerExactIff(r: Rule)
    ensures ControllerExact(r) <==> ControllerCompilesWell(r)
  {
    hide Accepts, FlowMatch, ProtoNumber, ControllerMatch;
    if ControllerCompilesWell(r) {
      forall p: Packet | p.Wf() ensures Accepts(ControllerMatch(r), p) <==> Describes(r, p) {
        ControllerAcceptsWhatIsDescribed(r, p);
      }
    } else {
      ControllerCounterexample(r);
    }
  }

  lemma ControllerCounterexample(r: Rule)
    requires !ControllerCompilesWell(r)
    ensures exists p: Packet :: p.Wf() && Accepts(ControllerMatch(r), p) && !Describes(r, p)
  {
    hide Accepts, FlowMatch;
    if NoPorts(r) {
      // Nothing is named: an ARP packet is dropped too.
      var p := Packet(1, 1, 2, 0, 0, Arp(1, 0, 0));
      MatchMeans(r, ControllerCriteria(r), p);
      assert p.Wf() && Accepts(ControllerMatch(r), p) && !Describes(r, p);
    } else {
      var p := Sample(r, Icmp(Ports(r).0, Ports(r).1));
      MatchMeans(r, ControllerCriteria(r), p);
      assert p.Wf() && Accepts(ControllerMatch(r), p) && !Describes(r, p);
    }
  }

  /**
  `install_rules` ignores ports without TCP or UDP, so there it drops more than the rule describes, and only there.
  */
  lemma FirewallExactIff(r: Rule)
    ensures FirewallExact(r) <==> TcpOrUdp(r) || NoPorts(r)
  {
    hide Accepts, FlowMatch, ProtoNumber, FirewallMatch;
    if TcpOrUdp(r) || NoPorts(r) {
      forall p: Packet | p.Wf() ensures Accepts(FirewallMatch(r), p) <==> Describes(r, p) {
        FirewallAcceptsWhatIsDescribed(r, p);
      }
    } else {
      FirewallCounterexample(r);
    }
  }

  lemma FirewallAcceptsWhatIsDescribed(r: Rule, p: Packet)
    requires p.Wf() && (TcpOrUdp(r) || NoPorts(r))
    ensures Accepts(FirewallMatch(r), p) <==> Describes(r, p)
  {
  }

  lemma FirewallCounterexample(r: Rule)
    requires !TcpOrUdp(r) && !NoPorts(r)
    ensures exists p: Packet :: p.Wf() && Accepts(FirewallMatch(r), p) && !Describes(r, p)
  {
    hide Accepts, FlowMatch;
    var p := Sample(r, Icmp(0, 0));
    MatchMeans(r, FirewallCriteria(r), p);
    assert p.Wf() && Accepts(FirewallMatch(r), p) && !Describes(r, p);
  }

  // ---------------------------------------------------------------- install_rules

  /** The key under which `installed` remembers a rule on a switch. */
  datatype RuleKey = RuleKey(srcIp: Option<Ip>, dstIp: Option<Ip>, proto: byte, srcPort: Word, dstPort: Word,
                             dpid: Dpid)

  function KeyOf(r: Rule, d: Dpid): RuleKey {
    RuleKey(r.srcIp, r.dstIp, ProtoNumber(r.proto), Ports(r).0, Ports(r).1, d)
  }

  /** Leaving out a rule whose key is taken loses nothing. */
  lemma SameKeySameMatch(r: Rule, r': Rule, d: Dpid)
    requires KeyOf(r, d) == KeyOf(r', d)
    ensures FirewallMatch(r) == FirewallMatch(r')
  {
  }

  predicate DenyRule(rules: seq<Rule>, r: Rule) {
    r in rules && r.deny
  }

  function KeysAt(keys: set<RuleKey>, d: Dpid): set<RuleKey> {
    set k | k in keys && k.dpid == d
  }

  function KeysFor(rules: seq<Rule>, ds: set<Dpid>): set<RuleKey> {
    set d, r | d in ds && r in rules && r.deny :: KeyOf(r, d)
  }

  lemma NoKeys(rules: seq<Rule>)
    ensures KeysFor(rules, {}) == {}
  {
  }

  lemma NoRules(d: Dpid)
    ensures KeysFor([], {d}) == {}
  {
  }

  lemma KeyIsFor(rules: seq<Rule>, ds: set<Dpid>, r: Rule, d: Dpid)
    requires DenyRule(rules, r) && d in ds
    ensures KeyOf(r, d) in KeysFor(rules, ds)
  {
  }

  lemma MoreKeys(rules: seq<Rule>, r: Rule, d: Dpid)
    ensures KeysFor(rules + [r], {d}) == KeysFor(rules, {d}) + (if r.deny then {KeyOf(r, d)} else {})
  {
  }

  lemma AllKeys(rules: seq<Rule>, ds: set<Dpid>, es: set<Dpid>)
    ensures KeysFor(rules, ds + es) == KeysFor(rules, ds) + KeysFor(rules, es)
  {
  }

  lemma KeyIsAt(r: Rule, d: Dpid)
    ensures KeyOf(r, d).dpid == d
  {
  }

  type Sent = map<Dpid, seq<Match>>

  function SentTo(sent: Sent, d: Dpid): seq<Match> {
    if d in sent then sent[d] else []
  }

  ghost predicate Covered(rules: seq<Rule>, installed: set<RuleKey>, sent: Sent) {
    forall r, d :: DenyRule(rules, r) && KeyOf(r, d) in installed ==> FirewallMatch(r) in SentTo(sent, d)
  }

  ghost predicate Justified(rules: seq<Rule>, installed: set<RuleKey>, sent: Sent) {
    forall d, m :: m in SentTo(sent, d) ==>
      exists r :: DenyRule(rules, r) && KeyOf(r, d) in installed && m == FirewallMatch(r)
  }

  ghost predicate Counted(installed: set<RuleKey>, sent: Sent) {
    forall d :: |SentTo(sent, d)| == |KeysAt(installed, d)|
  }

  /** Each remembered key stands for one message; together they are the matches of deny rules and of nothing else. */
  ghost predicate Consistent(rules: seq<Rule>, installed: set<RuleKey>, sent: Sent) {
    Covered(rules, installed, sent) && Justified(rules, installed, sent) && Counted(installed, sent)
  }

  lemma ConsistentCovers(rules: seq<Rule>, installed: set<RuleKey>, sent: Sent, r: Rule, d: Dpid)
    requires Consistent(rules, installed, sent) && DenyRule(rules, r) && KeyOf(r, d) in installed
    ensures FirewallMatch(r) in SentTo(sent, d)
  {
  }

  lemma SendingKeepsCovered(rules: seq<Rule>, installed: set<RuleKey>, sent: Sent, r: Rule, d: Dpid)
    requires Covered(rules, installed, sent)
    ensures Covered(rules, installed + {KeyOf(r, d)}, sent[d := SentTo(sent, d) + [FirewallMatch(r)]])
  {
  }

  lemma SendingKeepsJustified(rules: seq<Rule>, installed: set<RuleKey>, sent: Sent, r: Rule, d: Dpid)
    requires Justified(rules, installed, sent) && DenyRule(rules, r)
    ensures Justified(rules, installed + {KeyOf(r, d)}, sent[d := SentTo(sent, d) + [FirewallMatch(r)]])
  {
    hide FirewallMatch, KeyOf;
    var sent' := sent[d := SentTo(sent, d) + [FirewallMatch(r)]];
    forall d', m | m in SentTo(sent', d')
      ensures exists r' :: DenyRule(rules, r') && KeyOf(r', d') in installed + {KeyOf(r, d)} && m == FirewallMatch(r')
    {
      if m in SentTo(sent, d') {
        var r' :| DenyRule(rules, r') && KeyOf(r', d') in installed && m == FirewallMatch(r');
        assert KeyOf(r', d') in installed + {KeyOf(r, d)};
      } else {
        assert d' == d && m == FirewallMatch(r) && KeyOf(r, d') in installed + {KeyOf(r, d)};
      }
    }
  }

  lemma SendingKeepsCounted(installed: set<RuleKey>, sent: Sent, r: Rule, d: Dpid)
    requires Counted(installed, sent) && KeyOf(r, d) !in installed
    ensures Counted(installed + {KeyOf(r, d)}, sent[d := SentTo(sent, d) + [FirewallMatch(r)]])
  {
    hide FirewallMatch, KeyOf;
    KeyIsAt(r, d);
    forall d' ensures |SentTo(sent[d := SentTo(sent, d) + [FirewallMatch(r)]], d')| ==
      |KeysAt(installed + {KeyOf(r, d)}, d')| {
      assert KeysAt(installed + {KeyOf(r, d)}, d')
          == if d' == d then KeysAt(installed, d') + {KeyOf(r, d)} else KeysAt(installed, d');
    }
  }

  class Firewall {
    const rules: seq<Rule>
    var installed: set<RuleKey>
    /** The firewall entries sent to each switch, in order; all have the same priority and no action. */
    var sent: Sent

    ghost predicate Valid()
      reads this
    {
      Consistent(rules, installed, sent)
    }

    constructor (rules: seq<Rule>)
      ensures Valid() && this.rules == rules && installed == {} && sent == map[]
    {
      this.rules, installed, sent := rules, {}, map[];
      new;
      assert forall d :: KeysAt(installed, d) == {};
    }

    /** One turn of the inner loop: nothing is sent for a key that is already there. */
    method InstallOne(r: Rule, d: Dpid)
      requires Valid() && DenyRule(rules, r)
      modifies this
      ensures Valid() && installed == old(installed) + {KeyOf(r, d)}
      ensures sent == if KeyOf(r, d) in old(installed) then old(sent)
        else old(sent)[d := old(SentTo(sent, d)) + [FirewallMatch(r)]]
    {
      hide KeyOf, Covered, Justified, Counted, FlowMatch;
      if KeyOf(r, d) !in installed {
        SendingKeepsCovered(rules, installed, sent, r, d);
        SendingKeepsJustified(rules, installed, sent, r, d);
        SendingKeepsCounted(installed, sent, r, d);
        installed := installed + {KeyOf(r, d)};
        var m := SetFlow(FirewallCriteria(r));
        sent := sent[d := SentTo(sent, d) + [m]];
      }
    }

    /** `install_rules`: afterwards every deny rule has been sent to every switch, and never twice under one key. */
    method InstallRules(ofctls: set<Dpid>)
      requires Valid()
      modifies this
      ensures Valid() && installed == old(installed) + KeysFor(rules, ofctls)
      ensures forall d, r :: d in ofctls && DenyRule(rules, r) ==> FirewallMatch(r) in SentTo(sent, d)
      ensures forall d :: d !in ofctls ==> SentTo(sent, d) == old(SentTo(sent, d))
      ensures installed == old(installed) ==> sent == old(sent)
    {
      hide FirewallMatch, KeyOf, KeysFor, Consistent;
      NoKeys(rules);
      var todo := ofctls;
      assert ofctls - todo == {};
      while todo != {}
        invariant todo <= ofctls && Valid()
        invariant installed == old(installed) + KeysFor(rules, ofctls - todo)
        invariant forall d :: d !in ofctls ==> SentTo(sent, d) == old(SentTo(sent, d))
        invariant installed == old(installed) ==> sent == old(sent)
        decreases todo
      {
        var d :| d in todo;
        AllKeys(rules, ofctls - todo, {d});
        assert ofctls - (todo - {d}) == ofctls - todo + {d};
        InstallOn(d);
        todo := todo - {d};
      }
      assert ofctls - todo == ofctls;
      forall d, r | d in ofctls && DenyRule(rules, r) ensures FirewallMatch(r) in SentTo(sent, d) {
        KeyIsFor(rules, ofctls, r, d);
        ConsistentCovers(rules, installed, sent, r, d);
      }
    }

    /** The inner loop of `install_rules`: every rule, one switch. */
    method InstallOn(d: Dpid)
      requires Valid()
      modifies this
      ensures Valid() && installed == old(installed) + KeysFor(rules, {d})
      ensures forall d' :: d' != d ==> SentTo(sent, d') == old(SentTo(sent, d'))
      ensures installed == old(installed) ==> sent == old(sent)
    {
      hide FirewallMatch, KeyOf, KeysFor, Consistent;
      NoRules(d);
      var i := 0;
      while i < |rules|
        invariant 0 <= i <= |rules| && Valid()
        invariant installed == old(installed) + KeysFor(rules[..i], {d})
        invariant forall d' :: d' != d ==> SentTo(sent, d') == old(SentTo(sent, d'))
        invariant installed == old(installed) ==> sent == old(sent)
      {
        MoreKeys(rules[..i], rules[i], d);
        assert rules[..i + 1] == rules[..i] + [rules[i]];
        if rules[i].deny {
          InstallOne(rules[i], d);
        }
        i := i + 1;
      }
      assert rules[..i] == rules;
    }
  }
}
