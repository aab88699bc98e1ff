/**
OpenFlow 1.0.0 matching (sections 3.4 and 5.2.3 of the switch specification), and how
`OfCtl_v1_0.set_flow` of ofctl_utilis.py builds a match from its arguments.
*/
module OpenFlow {
  import opened Wrappers
  import opened Bytes

  type MacAddr = nat
  type SixBits = n: nat | n < 64

  const ETH_TYPE_IP: Word := 0x0800
  const ETH_TYPE_ARP: Word := 0x0806

  // ---------------------------------------------------------------- packets and their header fields

  datatype Transport =
    | Tcp(srcPort: Word, dstPort: Word)
    | Udp(srcPort: Word, dstPort: Word)
    | Icmp(icmpType: byte, icmpCode: byte)
    | Opaque(proto: byte)   // another protocol, or a fragment: no transport fields

  datatype Payload =
    | Ipv4(src: Ip, dst: Ip, tos: byte, transport: Transport)
    | Arp(opcode: byte, senderIp: Ip, targetIp: Ip)
    | OtherType(etherType: Word)

  datatype Packet = Packet(inPort: nat, dlSrc: MacAddr, dlDst: MacAddr, vlan: Word, pcp: byte, payload: Payload)
  {
    predicate Wf() {
      payload.OtherType? ==> payload.etherType != ETH_TYPE_IP && payload.etherType != ETH_TYPE_ARP
    }

    function DlType(): Word {
      match payload
      case Ipv4(_, _, _, _) => ETH_TYPE_IP
      case Arp(_, _, _) => ETH_TYPE_ARP
      case OtherType(t) => t
    }

    function NwProto(): byte {
      match payload
      case Ipv4(_, _, _, t) =>
        (match t
         case Tcp(_, _) => 6
         case Udp(_, _) => 17
         case Icmp(_, _) => 1
         case Opaque(p) => p)
      case Arp(op, _, _) => op
      case OtherType(_) => 0
    }

    function NwTos(): byte {
      if payload.Ipv4? then payload.tos else 0
    }

    function NwSrc(): Ip {
      match payload
      case Ipv4(s, _, _, _) => s
      case Arp(_, s, _) => s
      case OtherType(_) => 0
    }

    function NwDst(): Ip {
      match payload
      case Ipv4(_, d, _, _) => d
      case Arp(_, _, d) => d
      case OtherType(_) => 0
    }

    /** Source and destination port, or ICMP type and code, or zeros. */
    function Tp(): (Word, Word) {
      if !payload.Ipv4? then (0, 0)
      else
        match payload.transport
        case Tcp(s, d) => (s, d)
        case Udp(s, d) => (s, d)
        case Icmp(t, c) => (t, c)
        case Opaque(_) => (0, 0)
    }
  }

  // ---------------------------------------------------------------- matching

  datatype Field = InPort | DlVlan | DlSrc | DlDst | DlType | NwProto | TpSrc | TpDst | DlVlanPcp | NwTos

  /**
  The wildcard word of a match, by its bit fields (`ofp_flow_wildcards`, section 5.2.3): the fields whose flag is set
  and which the match therefore leaves out, and how many low bits of each address it leaves out.
  */
  datatype Wildcards = Wildcards(open: set<Field>, nwSrc: SixBits, nwDst: SixBits)

  /** `OFPFW_ALL`. */
  const EVERYTHING := Wildcards({InPort, DlVlan, DlSrc, DlDst, DlType, NwProto, TpSrc, TpDst, DlVlanPcp, NwTos}, 63, 63)

  datatype Match = Match(wildcards: Wildcards, inPort: Word, dlSrc: MacAddr, dlDst: MacAddr, dlVlan: Word,
                         dlVlanPcp: byte, dlType: Word, nwTos: byte, nwProto: byte, nwSrc: Ip, nwDst: Ip, tpSrc: Word,
                         tpDst: Word)

  function Pow2(n: nat): (r: nat)
    ensures r >= 1
  {
    if n == 0 then 1 else 2 * Pow2(n - 1)
  }

  /** The addresses agree on all but their low n bits; from 32 on, every two addresses do. */
  predicate Agree(a: Ip, b: Ip, n: nat) {
    n >= 32 || a / Pow2(n) == b / Pow2(n)
  }

  predicate Accepts(m: Match, p: Packet) {
    && (InPort in m.wildcards.open || m.inPort == p.inPort)
    && (DlSrc in m.wildcards.open || m.dlSrc == p.dlSrc)
    && (DlDst in m.wildcards.open || m.dlDst == p.dlDst)
    && (DlVlan in m.wildcards.open || m.dlVlan == p.vlan)
    && (DlVlanPcp in m.wildcards.open || m.dlVlanPcp == p.pcp)
    && (DlType in m.wildcards.open || m.dlType == p.DlType())
    && (NwTos in m.wildcards.open || m.nwTos == p.NwTos())
    && (NwProto in m.wildcards.open || m.nwProto == p.NwProto())
    && Agree(m.nwSrc, p.NwSrc(), m.wildcards.nwSrc)
    && Agree(m.nwDst, p.NwDst(), m.wildcards.nwDst)
    && (TpSrc in m.wildcards.open || m.tpSrc == p.Tp().0)
    && (TpDst in m.wildcards.open || m.tpDst == p.Tp().1)
  }

  // ---------------------------------------------------------------- set_flow

  /** The match arguments of `set_flow`. A zero, or None for an address, leaves the field out. */
  datatype Criteria = Criteria(dlType: Word, dlDst: Option<MacAddr>, dlVlan: Word, nwSrc: Option<Ip>, srcMask: nat,
                               nwDst: Option<Ip>, dstMask: nat, nwProto: byte, tpSrc: Word, tpDst: Word)

  predicate MasksInRange(c: Criteria) {
    c.srcMask <= 32 && c.dstMask <= 32
  }

  /** The arguments restrict the field; input port, source and two more are never restricted. */
  predicate Restricts(c: Criteria, f: Field) {
    match f
    case DlType => c.dlType != 0
    case DlDst => c.dlDst.Some?
    case DlVlan => c.dlVlan != 0
    case NwProto => c.nwProto != 0
    case TpSrc => c.tpSrc != 0
    case TpDst => c.tpDst != 0
    case _ => false
  }

  function WildcardsOf(c: Criteria): Wildcards
    requires MasksInRange(c)
  {
    Wildcards(set f | f in EVERYTHING.open && !Restricts(c, f),
              if c.nwSrc.Some? then 32 - c.srcMask else 63,
              if c.nwDst.Some? then 32 - c.dstMask else 63)
  }

  function FlowMatch(c: Criteria): Match
    requires MasksInRange(c)
  {
    Match(WildcardsOf(c), 0, 0, c.dlDst.UnwrapOr(0), c.dlVlan, 0, c.dlType, 0, c.nwProto, c.nwSrc.UnwrapOr(0),
          c.nwDst.UnwrapOr(0), c.tpSrc, c.tpDst)
  }

  /** What a packet must look like to meet the arguments. */
  predicate Meets(c: Criteria, p: Packet)
    requires MasksInRange(c)
  {
    && (c.dlType != 0 ==> p.DlType() == c.dlType)
    && (c.dlDst.Some? ==> p.dlDst == c.dlDst.value)
    && (c.dlVlan != 0 ==> p.vlan == c.dlVlan)
    && (c.nwSrc.Some? ==> Agree(c.nwSrc.value, p.NwSrc(), 32 - c.srcMask))
    && (c.nwDst.Some? ==> Agree(c.nwDst.value, p.NwDst(), 32 - c.dstMask))
    && (c.nwProto != 0 ==> p.NwProto() == c.nwProto)
    && (c.tpSrc != 0 ==> p.Tp().0 == c.tpSrc)
    && (c.tpDst != 0 ==> p.Tp().1 == c.tpDst)
  }

  /** The bitwise and of the low n bits. */
  function And(n: nat, a: nat, b: nat): (r: nat)
    ensures r < Pow2(n)
  {
    if n == 0 then 0 else 2 * And(n - 1, a / 2, b / 2) + (if a % 2 == 1 && b % 2 == 1 then 1 else 0)
  }

  lemma {:induction false} AndAllOnes(n: nat, b: nat)
    requires b < Pow2(n)
    ensures And(n, Pow2(n) - 1, b) == b
  {
    if n > 0 {
      assert (Pow2(n) - 1) / 2 == Pow2(n - 1) - 1;
      AndAllOnes(n - 1, b / 2);
    }
  }

  /** A mask of all ones but k zeros at the end clears the low k bits. */
  lemma {:induction false} AndMask(n: nat, k: nat, b: nat)
    requires k <= n && Pow2(k) <= Pow2(n) && b < Pow2(n)
    ensures And(n, Pow2(n) - Pow2(k), b) == Pow2(k) * (b / Pow2(k))
  {
    hide And, Pow2;
    if k == 0 {
      AndAllOnes(n, b);
      Power(k);
    } else {
      Power(n);
      Power(k);
      PowersGrow(k - 1, n - 1);
      AndMask(n - 1, k - 1, b / 2);
      AndEven(n, Pow2(n - 1) - Pow2(k - 1), b);
      DivideTwice(Pow2(k - 1), b);
      assert 2 * (Pow2(n - 1) - Pow2(k - 1)) == Pow2(n) - Pow2(k);
    }
  }

  lemma Power(n: nat)
    ensures Pow2(n) == if n == 0 then 1 else 2 * Pow2(n - 1)
  {
  }

  lemma AndEven(n: nat, a: nat, b: nat)
    requires n > 0
    ensures And(n, 2 * a, b) == 2 * And(n - 1, a, b / 2)
  {
  }

  lemma DivideTwice(q: nat, b: nat)
    requires q > 0
    ensures 2 * (q * (b / 2 / q)) == 2 * q * (b / (2 * q))
  {
    var d, r := b / 2 / q, b / 2 % q;
    assert b == 2 * (q * d + r) + b % 2;
    assert 2 * (q * d + r) + b % 2 == 2 * q * d + (2 * r + b % 2) && 2 * r + b % 2 < 2 * q;
    QuotientIs(b, 2 * q, d, 2 * r + b % 2);
  }

  lemma QuotientIs(b: nat, m: nat, d: nat, r: nat)
    requires r < m && b == m * d + r
    ensures b / m == d
  {
    Spread(m, d - b / m);
    assert m * (d - b / m) == b % m - r;
  }

  lemma Spread(m: nat, x: int)
    ensures x >= 1 ==> m * x >= m
    ensures x <= -1 ==> m * x + m <= 0
  {
  }

  /** How many of the low n bits are ones: `bin(a).count('1')`. */
  function Ones(n: nat, a: nat): (k: nat)
    ensures k <= n
  {
    if n == 0 then 0 else a % 2 + Ones(n - 1, a / 2)
  }

  lemma {:induction false} OnesOfAll(n: nat)
    ensures Ones(n, Pow2(n) - 1) == n
  {
    if n > 0 {
      assert (Pow2(n) - 1) / 2 == Pow2(n - 1) - 1;
      OnesOfAll(n - 1);
    }
  }

  lemma {:induction false} OnesOfMask(n: nat, k: nat)
    requires k <= n && Pow2(k) <= Pow2(n)
    ensures Ones(n, Pow2(n) - Pow2(k)) == n - k
  {
    if k == 0 {
      OnesOfAll(n);
    } else {
      PowersGrow(k - 1, n - 1);
      assert (Pow2(n) - Pow2(k)) / 2 == Pow2(n - 1) - Pow2(k - 1) && (Pow2(n) - Pow2(k)) % 2 == 0;
      OnesOfMask(n - 1, k - 1);
    }
  }

  /** An address agrees with another exactly when it agrees with it after masking. */
  lemma AgreeWithMasked(a: Ip, b: Ip, masked: Ip, k: nat)
    requires masked == Pow2(k) * (b / Pow2(k))
    ensures Agree(a, masked, k) <==> Agree(a, b, k)
  {
    hide Pow2;
    QuotientIs(masked, Pow2(k), b / Pow2(k), 0);
  }

  lemma ThirtyTwoBits(k: nat)
    requires k <= 32
    ensures Pow2(32) == 0x1_0000_0000 && 1 <= Pow2(k) <= Pow2(32)
  {
    assert Pow2(8) == 256 by { assert Pow2(4) == 16; }
    assert Pow2(16) == 0x1_0000 by { assert Pow2(12) == 4096; }
    assert Pow2(24) == 0x100_0000 by { assert Pow2(20) == 0x10_0000; }
    assert Pow2(28) == 0x1000_0000;
    if k < 32 {
      PowersGrow(k, 32);
    }
  }

  lemma {:induction false} PowersGrow(k: nat, n: nat)
    requires k <= n
    ensures Pow2(k) <= Pow2(n)
  {
    if k < n {
      PowersGrow(k, n - 1);
    }
  }

  lemma SixBitsFit()
    ensures Pow2(6) == 64
  {
    assert Pow2(3) == 8;
  }

  /** `wildcards &= ignored << SHIFT | ~MASK`, on the six bits of one address field. */
  function Narrowed(bits: SixBits, ignored: SixBits): SixBits {
    SixBitsFit();
    And(6, bits, ignored)
  }

  lemma NarrowingAllOnes(ignored: SixBits)
    ensures Narrowed(63, ignored) == ignored
  {
    SixBitsFit();
    AndAllOnes(6, ignored);
  }

  /** The flags of the wildcard word: start from all and clear field by field. */
  method NarrowFields(c: Criteria) returns (open: set<Field>)
    requires MasksInRange(c)
    ensures open == WildcardsOf(c).open
  {
    open := EVERYTHING.open;
    if c.dlType != 0 {
      open := open - {DlType};
    }
    if c.dlDst.Some? {
      open := open - {DlDst};
    }
    if c.dlVlan != 0 {
      open := open - {DlVlan};
    }
    if c.nwProto != 0 {
      open := open - {NwProto};
    }
    if c.tpSrc != 0 {
      open := open - {TpSrc};
    }
    if c.tpDst != 0 {
      open := open - {TpDst};
    }
    assert open == set f | f in EVERYTHING.open && !Restricts(c, f);
  }

  /** `set_flow`: the match accepts exactly the packets that meet the arguments. */
  method SetFlow(c: Criteria) returns (m: Match)
    requires MasksInRange(c)
    ensures m == FlowMatch(c)
    ensures forall p :: Accepts(m, p) <==> Meets(c, p)
  {
    hide Narrowed, Accepts, Meets, Restricts;
    NarrowingAllOnes(32 - c.srcMask);
    NarrowingAllOnes(32 - c.dstMask);
    var open := NarrowFields(c);
    var src: SixBits, dst: SixBits := EVERYTHING.nwSrc, EVERYTHING.nwDst;
    if c.nwSrc.Some? {
      src := Narrowed(src, 32 - c.srcMask);
    }
    if c.nwDst.Some? {
      dst := Narrowed(dst, 32 - c.dstMask);
    }
    m := Match(Wildcards(open, src, dst), 0, 0, c.dlDst.UnwrapOr(0), c.dlVlan, 0, c.dlType, 0, c.nwProto,
               c.nwSrc.UnwrapOr(0), c.nwDst.UnwrapOr(0), c.tpSrc, c.tpDst);
    forall p ensures Accepts(m, p) <==> Meets(c, p) {
      FlowMatchMeansCriteria(c, p);
    }
  }

  /** The match that `set_flow` sends accepts exactly the packets its arguments describe. */
  lemma FlowMatchMeansCriteria(c: Criteria, p: Packet)
    requires MasksInRange(c)
    ensures Accepts(FlowMatch(c), p) <==> Meets(c, p)
  {
  }
}
