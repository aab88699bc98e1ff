/** Domain names on the wire: `_encode_domain` and `_decode_domain` of dns_server.py against RFC 1035 section 4.1.4. */
module DnsWire {
  import opened Wrappers
  import opened Bytes
  import opened DnsRecords

  /** A label, and any text, is the UTF-8 form of a Python string, or what should be one on the wire. */
  type Label = seq<byte>

  const DOT: byte := 0x2E

  // ---------------------------------------------------------------- characters

  predicate Continues(b: byte) {
    0x80 <= b < 0xC0
  }

  /** `len(text)`: every byte but a continuation byte starts a character. */
  function Chars(l: Label): (n: nat)
    ensures n <= |l|
  {
    if l == [] then 0 else (if Continues(l[0]) then 0 else 1) + Chars(l[1..])
  }

  /** How many bytes the character at the start of l has, by section 4 of RFC 3629; 0 if there is none. */
  function CharSize(l: Label): (n: nat)
    requires l != []
    ensures n <= |l|
  {
    var b := l[0];
    if b < 0x80 then 1
    else if |l| < 2 || !Continues(l[1]) then 0
    else if 0xC2 <= b < 0xE0 then 2
    else if |l| < 3 || !Continues(l[2]) || (b == 0xE0 && l[1] < 0xA0) || (b == 0xED && l[1] >= 0xA0) then 0
    else if 0xE0 <= b < 0xF0 then 3
    else if |l| < 4 || !Continues(l[3]) || (b == 0xF0 && l[1] < 0x90) || (b == 0xF4 && l[1] >= 0x90) then 0
    else if 0xF0 <= b < 0xF5 then 4
    else 0
  }

  /** `bytes.decode()` succeeds. */
  predicate Decodable(l: Label) {
    l == [] || (CharSize(l) > 0 && Decodable(l[CharSize(l)..]))
  }

  predicate AllDecodable(ls: seq<Label>) {
    forall l :: l in ls ==> Decodable(l)
  }

  predicate Ascii(l: Label) {
    forall i :: 0 <= i < |l| ==> l[i] < 0x80
  }

  lemma {:induction false} AsciiIsPlain(l: Label)
    requires Ascii(l)
    ensures Chars(l) == |l| && Decodable(l)
  {
    if l != [] {
      AsciiIsPlain(l[1..]);
    }
  }

  /** A string has as many characters as bytes only if it is ASCII. */
  lemma {:induction false} CharsCountAscii(l: Label)
    requires Decodable(l)
    ensures (Chars(l) == |l| <==> Ascii(l)) && (l != [] ==> Chars(l) > 0)
  {
    if l != [] && CharSize(l) == 1 {
      CharsCountAscii(l[1..]);
      assert Ascii(l) <==> Ascii(l[1..]);
    } else if l != [] {
      assert Continues(l[1]) && !Ascii(l);
      assert l[1..][1..] == l[2..] && Chars(l) == 1 + Chars(l[1..]) && Chars(l[1..]) == Chars(l[2..]);
    }
  }

  /** Section 3 of RFC 3629: the characters of Unicode, without the surrogates. */
  predicate IsScalar(c: nat) {
    c < 0xD800 || 0xE000 <= c < 0x11_0000
  }

  function Utf8(c: nat): seq<byte>
    requires IsScalar(c)
  {
    if c < 0x80 then [c]
    else if c < 0x800 then [0xC0 + c / 64, 0x80 + c % 64]
    else if c < 0x1_0000 then [0xE0 + c / 4096, 0x80 + c / 64 % 64, 0x80 + c % 64]
    else [0xF0 + c / 262144, 0x80 + c / 4096 % 64, 0x80 + c / 64 % 64, 0x80 + c % 64]
  }

  /** Every encoded character is accepted, whatever follows it. */
  lemma EncodedIsAccepted(c: nat, rest: Label)
    requires IsScalar(c)
    ensures CharSize(Utf8(c) + rest) == |Utf8(c)|
  {
    if 0x800 <= c < 0x1_0000 {
      assert c / 64 % 64 == c / 64 - 64 * (c / 4096);
    } else if c >= 0x1_0000 {
      assert c / 4096 % 64 == c / 4096 - 64 * (c / 262144);
    }
  }

  lemma TwoBytes(l: Label)
    requires |l| >= 2 && 0xC2 <= l[0] < 0xE0 && Continues(l[1])
    ensures var c := 64 * (l[0] as int - 0xC0) + (l[1] as int - 0x80); IsScalar(c) && l[..2] == Utf8(c)
  {
  }

  lemma ThreeBytes(l: Label)
    requires |l| >= 3 && 0xE0 <= l[0] < 0xF0 && Continues(l[1]) && Continues(l[2])
    requires (l[0] == 0xE0 ==> l[1] >= 0xA0) && (l[0] == 0xED ==> l[1] < 0xA0)
    ensures var c := 4096 * (l[0] as int - 0xE0) + 64 * (l[1] as int - 0x80) + (l[2] as int - 0x80);
            IsScalar(c) && l[..3] == Utf8(c)
  {
    var x, y, z := l[0] as int - 0xE0, l[1] as int - 0x80, l[2] as int - 0x80;
    Digits64(x, y, z);
    assert 4096 * x + 64 * y + z >= 0x800;
  }

  lemma FourBytes(l: Label)
    requires |l| >= 4 && 0xF0 <= l[0] < 0xF5 && Continues(l[1]) && Continues(l[2]) && Continues(l[3])
    requires (l[0] == 0xF0 ==> l[1] >= 0x90) && (l[0] == 0xF4 ==> l[1] < 0x90)
    ensures var c := 262144 * (l[0] as int - 0xF0) + 4096 * (l[1] as int - 0x80) + 64 * (l[2] as int - 0x80) +
            (l[3] as int - 0x80);
            IsScalar(c) && l[..4] == Utf8(c)
  {
    var w, x, y, z := l[0] as int - 0xF0, l[1] as int - 0x80, l[2] as int - 0x80, l[3] as int - 0x80;
    var c := 262144 * w + 4096 * x + 64 * y + z;
    Digits64(64 * w + x, y, z);
    assert c / 262144 == w && c / 4096 % 64 == x && c >= 0x1_0000;
  }

  /** And nothing else is. */
  lemma AcceptedIsEncoded(l: Label) returns (c: nat)
    requires l != [] && CharSize(l) > 0
    ensures IsScalar(c) && l[..CharSize(l)] == Utf8(c)
  {
    var n := CharSize(l);
    hide Utf8, IsScalar;
    if n == 1 {
      c := l[0];
      OneByte(l);
    } else if n == 2 {
      c := 64 * (l[0] as int - 0xC0) + (l[1] as int - 0x80);
      TwoBytes(l);
    } else if n == 3 {
      c := 4096 * (l[0] as int - 0xE0) + 64 * (l[1] as int - 0x80) + (l[2] as int - 0x80);
      ThreeBytes(l);
    } else {
      c := 262144 * (l[0] as int - 0xF0) + 4096 * (l[1] as int - 0x80) + 64 * (l[2] as int - 0x80) +
        (l[3] as int - 0x80);
      FourBytes(l);
    }
  }

  lemma OneByte(l: Label)
    requires l != [] && l[0] < 0x80
    ensures IsScalar(l[0]) && l[..1] == Utf8(l[0])
  {
  }

  lemma Digits64(x: nat, y: nat, z: nat)
    requires y < 64 && z < 64
    ensures var c := 4096 * x + 64 * y + z; c / 4096 == x && c / 64 % 64 == y && c % 64 == z
  {
    var c := 4096 * x + 64 * y + z;
    assert c / 64 == 64 * x + y;
  }

  // ---------------------------------------------------------------- dotted text

  /** `'.'.join(labels)` */
  function Join(ls: seq<Label>): Name {
    if |ls| == 0 then [] else if |ls| == 1 then ls[0] else ls[0] + [DOT] + Join(ls[1..])
  }

  function FirstDot(n: Name): (i: nat)
    ensures i <= |n| && (i < |n| ==> n[i] == DOT) && forall j :: 0 <= j < i ==> n[j] != DOT
  {
    if n == [] || n[0] == DOT then 0 else 1 + FirstDot(n[1..])
  }

  /** `name.split('.')` */
  function Split(n: Name): (ls: seq<Label>)
    ensures |ls| >= 1
    decreases |n|
  {
    var i := FirstDot(n);
    if i == |n| then [n] else [n[..i]] + Split(n[i + 1..])
  }

  predicate DotFree(l: Label) {
    DOT !in l
  }

  predicate AllDotFree(ls: seq<Label>) {
    forall l :: l in ls ==> DotFree(l)
  }

  lemma FirstDotAfter(l: Label, rest: Name)
    requires DotFree(l)
    ensures FirstDot(l) == |l| && FirstDot(l + [DOT] + rest) == |l|
  {
    var n := l + [DOT] + rest;
    forall j | 0 <= j < |l| ensures n[j] != DOT {
      assert n[j] == l[j] && l[j] in l;
    }
    assert n[|l|] == DOT;
  }

  lemma SplitCons(l: Label, rest: Name)
    requires DotFree(l)
    ensures Split(l) == [l] && Split(l + [DOT] + rest) == [l] + Split(rest)
  {
    FirstDotAfter(l, rest);
    hide FirstDot;
    var n := l + [DOT] + rest;
    assert n[..|l|] == l && n[|l| + 1..] == rest;
  }

  lemma {:induction false} SplitJoin(ls: seq<Label>)
    requires |ls| >= 1 && AllDotFree(ls)
    ensures Split(Join(ls)) == ls
  {
    hide Split, FirstDot, DotFree;
    if |ls| == 1 {
      SplitCons(ls[0], []);
    } else {
      SplitJoin(ls[1..]);
      SplitCons(ls[0], Join(ls[1..]));
    }
  }

  lemma NoDotBeforeFirst(n: Name)
    ensures DotFree(n[..FirstDot(n)])
  {
    var i := FirstDot(n);
    hide FirstDot;
    forall c | c in n[..i] ensures c != DOT {
      var j :| 0 <= j < i && n[..i][j] == c;
    }
  }

  lemma Reassembles(n: Name, i: nat)
    requires i < |n| && n[i] == DOT
    ensures n == n[..i] + [DOT] + n[i + 1..]
  {
  }

  lemma {:induction false} JoinSplit(n: Name)
    ensures Join(Split(n)) == n && AllDotFree(Split(n))
    decreases |n|
  {
    var i := FirstDot(n);
    NoDotBeforeFirst(n);
    if i == |n| {
      assert n[..i] == n && Split(n) == [n];
    } else {
      var rest := Split(n[i + 1..]);
      JoinSplit(n[i + 1..]);
      assert Split(n) == [n[..i]] + rest;
      hide Split, FirstDot, DotFree;
      Reassembles(n, i);
      assert ([n[..i]] + rest)[1..] == rest;
    }
  }

  /** The text tells its labels apart exactly when none of them contains a dot, and there is one at all. */
  lemma JoinedTextIsUnambiguousIff(ls: seq<Label>)
    ensures Split(Join(ls)) == ls <==> |ls| >= 1 && AllDotFree(ls)
  {
    JoinSplit(Join(ls));
    hide Split, FirstDot, DotFree;
    if |ls| >= 1 && AllDotFree(ls) {
      SplitJoin(ls);
    }
  }

  // ---------------------------------------------------------------- encoding

  /** Labels whose length in characters fits an octet; `struct.pack('B', ...)` raises otherwise. */
  predicate Encodable(ls: seq<Label>) {
    forall l :: l in ls ==> Chars(l) < 256
  }

  /** The length octet counts characters, what follows are bytes. */
  function EncodeLabels(ls: seq<Label>): seq<byte>
    requires Encodable(ls)
  {
    if ls == [] then [] else [Chars(ls[0]) as byte] + ls[0] + EncodeLabels(ls[1..])
  }

  function EncodeDomain(name: Name): seq<byte>
    requires Encodable(Split(name))
  {
    EncodeLabels(Split(name)) + [0]
  }

  lemma {:induction false} EncodeLabelsSnoc(ls: seq<Label>, l: Label)
    requires Encodable(ls) && Chars(l) < 256
    ensures Encodable(ls + [l]) && EncodeLabels(ls + [l]) == EncodeLabels(ls) + ([Chars(l) as byte] + l)
  {
    if ls != [] {
      EncodeLabelsSnoc(ls[1..], l);
      assert (ls + [l])[1..] == ls[1..] + [l];
    }
  }

  method ComputeEncoding(name: Name) returns (result: seq<byte>)
    requires Encodable(Split(name))
    ensures result == EncodeDomain(name)
  {
    var parts := Split(name);
    result := [];
    var i := 0;
    while i < |parts|
      invariant 0 <= i <= |parts| && Encodable(parts[..i]) && result == EncodeLabels(parts[..i])
    {
      EncodeLabelsSnoc(parts[..i], parts[i]);
      assert parts[..i + 1] == parts[..i] + [parts[i]];
      result := result + ([Chars(parts[i]) as byte] + parts[i]);
      i := i + 1;
    }
    assert parts[..i] == parts;
    result := result + [0];
  }

  // ---------------------------------------------------------------- decoding

  /** A run of labels: up to a terminator or the end of the data, up to a pointer, or up to where Python raises:
      a cut-off pointer, or a label that is not UTF-8. */
  datatype Run = Stop(labels: seq<Label>, next: nat) | Jump(labels: seq<Label>, target: nat, next: nat) | Cut

  function Prepend(l: Label, r: Run): Run {
    match r
    case Stop(ls, next) => Stop([l] + ls, next)
    case Jump(ls, target, next) => Jump([l] + ls, target, next)
    case Cut => Cut
  }

  function RunAt(data: seq<byte>, off: nat): Run
    decreases |data| - off
  {
    if off >= |data| then Stop([], off)
    else if data[off] == 0 then Stop([], off + 1)
    else if data[off] >= 192 then
      if off + 1 >= |data| then Cut else Jump([], WordAt(data, off) % 0x4000, off + 2)
    else
      var part := Slice(data, off + 1, off + 1 + data[off]);
      if Decodable(part) then Prepend(part, RunAt(data, off + 1 + data[off])) else Cut
  }

  /** The labels and the offset after the name; `Raises` where Python does, `Unfinished` when more jumps are needed. */
  datatype Decoded = Name(labels: seq<Label>, next: nat) | Raises | Unfinished

  function Decode(data: seq<byte>, off: nat, jumps: nat): Decoded
    decreases jumps
  {
    match RunAt(data, off)
    case Stop(ls, next) => Name(ls, next)
    case Cut => Raises
    case Jump(ls, target, next) =>
      if jumps == 0 then Unfinished
      else
        match Decode(data, target, jumps - 1)
        case Name(more, _) => Name(ls + more, next)
        case other => other
  }

  /** The loop ends: the chain of pointers from here is followed to its end within some number of jumps. */
  ghost predicate Ends(data: seq<byte>, off: nat) {
    exists jumps: nat :: !Decode(data, off, jumps).Unfinished?
  }

  lemma {:induction false} MoreJumpsAgree(data: seq<byte>, off: nat, jumps: nat, more: nat)
    requires !Decode(data, off, jumps).Unfinished? && jumps <= more
    ensures Decode(data, off, more) == Decode(data, off, jumps)
    decreases jumps
  {
    hide RunAt;
    match RunAt(data, off)
    case Jump(_, target, _) => MoreJumpsAgree(data, target, jumps - 1, more - 1);
    case _ =>
  }

  /** Every pointer on the way targets a position before the start of the label run that contains it. */
  predicate PointsBackward(data: seq<byte>, start: nat)
    decreases start
  {
    match RunAt(data, start)
    case Jump(_, target, _) => target < start && PointsBackward(data, target)
    case _ => true
  }

  /** Backward pointers always end, after at most as many jumps as the first run's offset. */
  lemma {:induction false} BackwardEnds(data: seq<byte>, start: nat)
    requires PointsBackward(data, start)
    ensures !Decode(data, start, start).Unfinished? && Ends(data, start)
    decreases start
  {
    hide RunAt;
    match RunAt(data, start)
    case Jump(_, target, _) =>
      BackwardEnds(data, target);
      MoreJumpsAgree(data, target, target, start - 1);
    case _ =>
  }

  /** The position a chain of pointers has reached after k jumps. */
  function Hop(data: seq<byte>, off: nat, k: nat): Option<nat>
    decreases k
  {
    if k == 0 then Some(off)
    else
      match RunAt(data, off)
      case Jump(_, target, _) => Hop(data, target, k - 1)
      case _ => None
  }

  /** The decoder asks for more jumps exactly when the chain of pointers goes on. */
  lemma {:induction false} UnfinishedIffHops(data: seq<byte>, off: nat, jumps: nat)
    ensures Decode(data, off, jumps).Unfinished? <==> Hop(data, off, jumps + 1).Some?
    decreases jumps
  {
    hide RunAt;
    match RunAt(data, off)
    case Jump(_, target, _) =>
      if jumps > 0 {
        UnfinishedIffHops(data, target, jumps - 1);
      }
    case _ =>
  }

  lemma {:induction false} HopAdd(data: seq<byte>, off: nat, i: nat, k: nat)
    ensures Hop(data, off, i + k) == if Hop(data, off, i).None? then None else Hop(data, Hop(data, off, i).value, k)
    decreases i
  {
    hide RunAt;
    if i > 0 {
      match RunAt(data, off)
      case Jump(_, target, _) => HopAdd(data, target, i - 1, k);
      case _ =>
    }
  }

  /** The chain of pointers comes back to a position it has left before. */
  ghost predicate Revisits(data: seq<byte>, off: nat) {
    exists i: nat, j: nat :: i < j && Hop(data, off, i).Some? && Hop(data, off, i) == Hop(data, off, j)
  }

  lemma {:induction false} CycleGoesOn(data: seq<byte>, off: nat, k: nat, n: nat)
    requires k > 0 && Hop(data, off, k) == Some(off)
    ensures Hop(data, off, n).Some?
    decreases n
  {
    if n < k {
      HopAdd(data, off, n, k - n);
    } else {
      CycleGoesOn(data, off, k, n - k);
      HopAdd(data, off, k, n - k);
    }
  }

  lemma {:induction false} TargetsFit(data: seq<byte>, off: nat)
    ensures RunAt(data, off).Jump? ==> RunAt(data, off).target < 0x4000
    decreases |data| - off
  {
    if off < |data| && 0 < data[off] < 192 {
      TargetsFit(data, off + 1 + data[off]);
    }
  }

  lemma HopFits(data: seq<byte>, off: nat, k: nat)
    requires k > 0 && Hop(data, off, k).Some?
    ensures Hop(data, off, k).value < 0x4000
  {
    hide RunAt;
    HopAdd(data, off, k - 1, 1);
    var before := Hop(data, off, k - 1).value;
    TargetsFit(data, before);
    var target := RunAt(data, before).target;
    assert Hop(data, target, 0) == Some(target) && Hop(data, before, 1) == Hop(data, target, 0);
  }

  function UpTo(n: nat): (r: set<nat>)
    ensures |r| == n && forall x :: x in r <==> 0 <= x < n
  {
    if n == 0 then {} else UpTo(n - 1) + {n - 1}
  }

  /** Pointers have 14 bits, so a chain of more than 2^14 jumps passes some position twice. */
  lemma LongChainsRevisit(data: seq<byte>, off: nat)
    requires Hop(data, off, 0x4001).Some?
    ensures Revisits(data, off)
  {
    hide Hop, UpTo;
    HopAdd(data, off, 1, 0x4000);
    var p := Hop(data, off, 1).value;
    forall k: nat | k < 0x4001
      ensures Hop(data, p, k).Some? && Hop(data, p, k).value < 0x4000 && Hop(data, p, k) == Hop(data, off, k + 1)
    {
      HopAdd(data, p, k, 0x4000 - k);
      HopAdd(data, off, 1, k);
      HopFits(data, off, k + 1);
    }
    var hops := seq(0x4001, k requires 0 <= k < 0x4001 => Hop(data, p, k).value);
    if Distinct(hops) {
      DistinctFits(hops, UpTo(0x4000));
    } else {
      var i, j :| 0 <= i < j < |hops| && hops[i] == hops[j];
      assert Hop(data, off, i + 1) == Hop(data, off, j + 1);
    }
  }

  /** The decoder's loop ends exactly when the chain of pointers never comes back to a position it has left. */
  lemma DecoderEndsIff(data: seq<byte>, off: nat)
    ensures Ends(data, off) <==> !Revisits(data, off)
  {
    hide Hop, Decode;
    if Revisits(data, off) {
      var i: nat, j: nat :| i < j && Hop(data, off, i).Some? && Hop(data, off, i) == Hop(data, off, j);
      var p := Hop(data, off, i).value;
      HopAdd(data, off, i, j - i);
      forall jumps: nat ensures Decode(data, off, jumps).Unfinished? {
        CycleGoesOn(data, p, j - i, jumps + 1);
        HopAdd(data, off, i, jumps + 1);
        HopAdd(data, off, jumps + 1, i);
        UnfinishedIffHops(data, off, jumps);
      }
    } else if !Ends(data, off) {
      UnfinishedIffHops(data, off, 0x4000);
      LongChainsRevisit(data, off);
    }
  }

  /** A name that is a pointer to itself makes the decoder loop for ever. */
  lemma SelfPointerNeverEnds(data: seq<byte>, off: nat)
    requires RunAt(data, off).Jump? && RunAt(data, off).target == off
    ensures !Ends(data, off)
  {
    assert Hop(data, off, 0) == Some(off) && Hop(data, off, 1) == Some(off);
    DecoderEndsIff(data, off);
  }

  /** What the loop still has to add to the labels it has collected. */
  function Resume(labels: seq<Label>, jumped: Option<nat>, d: Decoded): Decoded {
    match d
    case Name(more, next) => Name(labels + more, if jumped.Some? then jumped.value else next)
    case _ => d
  }

  lemma StopStep(data: seq<byte>, off: nat, jumps: nat)
    requires off >= |data| || data[off] == 0
    ensures Decode(data, off, jumps) == Name([], if off >= |data| then off else off + 1)
  {
  }

  lemma PointerStep(data: seq<byte>, off: nat, jumps: nat, labels: seq<Label>, jumped: Option<nat>)
    requires off < |data| && data[off] >= 192
    ensures off + 1 >= |data| ==> Decode(data, off, jumps) == Raises
    ensures off + 1 < |data| && jumps == 0 ==> Decode(data, off, jumps) == Unfinished
    ensures off + 1 < |data| && jumps > 0 ==>
      Resume(labels, jumped, Decode(data, off, jumps)) ==
      Resume(labels, Some(jumped.UnwrapOr(off + 2)), Decode(data, WordAt(data, off) % 0x4000, jumps - 1))
  {
    hide RunAt, WordAt;
    PointerRun(data, off);
    if off + 1 < |data| && jumps > 0 {
      NoLabelsYet(Decode(data, WordAt(data, off) % 0x4000, jumps - 1), off + 2);
    }
  }

  lemma NoLabelsYet(d: Decoded, next: nat)
    ensures d.Name? ==> Name([] + d.labels, next) == Name(d.labels, next)
  {
    assert d.Name? ==> [] + d.labels == d.labels;
  }

  lemma PointerRun(data: seq<byte>, off: nat)
    requires off < |data| && data[off] >= 192
    ensures RunAt(data, off) == if off + 1 >= |data| then Cut else Jump([], WordAt(data, off) % 0x4000, off + 2)
  {
    hide Decodable, WordAt, Slice;
  }

  lemma LabelStep(data: seq<byte>, off: nat, jumps: nat)
    requires off < |data| && 0 < data[off] < 192
    ensures var part := Slice(data, off + 1, off + 1 + data[off]);
            Decode(data, off, jumps) ==
              if Decodable(part) then Resume([part], None, Decode(data, off + 1 + data[off], jumps)) else Raises
  {
    hide Decodable, WordAt, Slice;
    LabelRun(data, off);
    hide RunAt;
  }

  lemma LabelRun(data: seq<byte>, off: nat)
    requires off < |data| && 0 < data[off] < 192
    ensures var part := Slice(data, off + 1, off + 1 + data[off]);
            RunAt(data, off) == if Decodable(part) then Prepend(part, RunAt(data, off + 1 + data[off])) else Cut
  {
  }

  lemma ResumeTwice(labels: seq<Label>, jumped: Option<nat>, l: Label, d: Decoded)
    ensures Resume(labels, jumped, Resume([l], None, d)) == Resume(labels + [l], jumped, d)
  {
  }

  /** `jumps` only bounds the loop; None is Python's struct.error or UnicodeDecodeError. */
  method DecodeDomain(data: seq<byte>, start: nat, ghost jumps: nat) returns (r: Option<(Name, nat)>)
    requires !Decode(data, start, jumps).Unfinished?
    ensures match Decode(data, start, jumps)
            case Name(labels, next) => r == Some((Join(labels), next))
            case _ => r == None
  {
    hide Decode, WordAt, Join, Decodable, Slice;
    var offset: nat, labels: seq<Label>, jumped: Option<nat> := start, [], None;
    ghost var left: nat := jumps;
    while offset < |data| && data[offset] != 0
      invariant Decode(data, start, jumps) == Resume(labels, jumped, Decode(data, offset, left))
      decreases left, |data| - offset
    {
      var length := data[offset];
      if length >= 192 {
        PointerStep(data, offset, left, labels, jumped);
        if offset + 1 >= |data| {
          return None;
        }
        var pointer := WordAt(data, offset) % 0x4000;
        if jumped.None? {
          jumped := Some(offset + 2);
        }
        offset, left := pointer, left - 1;
      } else {
        LabelStep(data, offset, left);
        var part := Slice(data, offset + 1, offset + 1 + length);
        if !Decodable(part) {
          return None;
        }
        ResumeTwice(labels, jumped, part, Decode(data, offset + 1 + length, left));
        labels := labels + [part];
        offset := offset + 1 + length;
      }
    }
    StopStep(data, offset, left);
    if offset < |data| {
      offset := offset + 1;
    }
    assert labels + [] == labels;
    r := Some((Join(labels), if jumped.Some? then jumped.value else offset));
  }

  // ---------------------------------------------------------------- RFC 1035 section 4.1.4

  /**
  The data at `off` represents the name `ls`, its in-place encoding ending at `next`: labels of 1 to 63
  octets ending with a zero octet, with a pointer, or just a pointer. `ends` says, pointer by pointer,
  where the encoding pointed to ends.
  */
  ghost predicate Represents(data: seq<byte>, off: nat, ls: seq<Label>, next: nat, ends: seq<nat>)
    decreases |ends|, |ls|
  {
    off < |data| &&
    if data[off] == 0 then ls == [] && next == off + 1
    else if data[off] >= 192 then
      && off + 1 < |data| && next == off + 2 && ends != []
      && Represents(data, WordAt(data, off) % 0x4000, ls, ends[0], ends[1..])
    else
      && data[off] <= 63 && off + 1 + data[off] <= |data| && ls != []
      && ls[0] == data[off + 1..off + 1 + data[off]]
      && Represents(data, off + 1 + data[off], ls[1..], next, ends)
  }

  /**
  The decoder reads a name the RFC allows, and finds the end of its in-place encoding, exactly when its
  labels are UTF-8; otherwise it raises.
  */
  lemma {:induction false} DecoderMeetsRfc(data: seq<byte>, off: nat, ls: seq<Label>, next: nat, ends: seq<nat>)
    requires Represents(data, off, ls, next, ends)
    ensures Decode(data, off, |ends|) == if AllDecodable(ls) then Name(ls, next) else Raises
    decreases |ends|, |ls|
  {
    hide RunAt, Decode, Decodable, WordAt, AllDecodable;
    if data[off] == 0 {
      StopStep(data, off, |ends|);
      DecodableCons(ls);
    } else if data[off] >= 192 {
      DecoderMeetsRfc(data, WordAt(data, off) % 0x4000, ls, ends[0], ends[1..]);
      PointerStep(data, off, |ends|, [], None);
      NoLabelsYet(Decode(data, off, |ends|), off + 2);
      NoLabelsYet(Name(ls, ends[0]), off + 2);
    } else {
      DecoderMeetsRfc(data, off + 1 + data[off], ls[1..], next, ends);
      LabelStep(data, off, |ends|);
      assert Slice(data, off + 1, off + 1 + data[off]) == ls[0];
      assert [ls[0]] + ls[1..] == ls;
      DecodableCons(ls);
    }
  }

  lemma DecodableCons(ls: seq<Label>)
    ensures AllDecodable(ls) <==> ls == [] || (Decodable(ls[0]) && AllDecodable(ls[1..]))
  {
  }

  /**
  What the decoder returns, the joined text, leads back to the labels on the wire exactly when none of them contains a
  dot.
  */
  lemma DecodedTextIffDotFree(data: seq<byte>, off: nat, ls: seq<Label>, next: nat, ends: seq<nat>)
    requires Represents(data, off, ls, next, ends) && AllDecodable(ls)
    ensures var d := Decode(data, off, |ends|);
            d.Name? && (Split(Join(d.labels)) == ls <==> ls != [] && AllDotFree(ls))
  {
    hide Represents, AllDecodable, Decode, Split, Join, AllDotFree;
    DecoderMeetsRfc(data, off, ls, next, ends);
    JoinedTextIsUnambiguousIff(ls);
  }

  predicate Sized(ls: seq<Label>) {
    forall l :: l in ls ==> 1 <= |l| <= 63
  }

  predicate AllAscii(ls: seq<Label>) {
    forall l :: l in ls ==> Ascii(l)
  }

  /** A name as DNS wants it: at least one label, each of 1 to 63 ASCII octets. */
  predicate Proper(ls: seq<Label>) {
    |ls| >= 1 && Sized(ls) && AllAscii(ls)
  }

  /** bs occurs in data at off. */
  predicate OccursAt(data: seq<byte>, off: nat, bs: seq<byte>) {
    off + |bs| <= |data| && data[off..off + |bs|] == bs
  }

  lemma OccursSplit(data: seq<byte>, off: nat, c: byte, l: seq<byte>, rest: seq<byte>)
    requires OccursAt(data, off, [c] + l + rest)
    ensures off < |data| && data[off] == c && OccursAt(data, off + 1, l) && OccursAt(data, off + 1 + |l|, rest)
  {
    var enc := [c] + l + rest;
    var n := |l|;
    forall j | 0 <= j < |enc| ensures data[off + j] == enc[j] {
      assert data[off..off + |enc|][j] == enc[j];
    }
    assert data[off] == enc[0];
    forall j | 0 <= j < n ensures data[off + 1 + j] == l[j] {
      assert data[off + (1 + j)] == enc[1 + j];
    }
    forall j | 0 <= j < |rest| ensures data[off + 1 + n + j] == rest[j] {
      assert data[off + (1 + n + j)] == enc[1 + n + j];
    }
  }

  lemma RepresentsLabel(data: seq<byte>, off: nat, ls: seq<Label>, next: nat)
    requires ls != [] && 1 <= |ls[0]| <= 63 && off < |data| && data[off] == |ls[0]| && OccursAt(data, off + 1, ls[0])
    requires Represents(data, off + 1 + |ls[0]|, ls[1..], next, [])
    ensures Represents(data, off, ls, next, [])
  {
  }

  lemma EncodeCons(ls: seq<Label>)
    requires ls != [] && Encodable(ls)
    ensures Encodable(ls[1..]) && |EncodeLabels(ls)| == 1 + |ls[0]| + |EncodeLabels(ls[1..])|
    ensures EncodeLabels(ls) + [0] == [Chars(ls[0]) as byte] + ls[0] + (EncodeLabels(ls[1..]) + [0])
  {
  }

  lemma TerminatorRepresents(data: seq<byte>, off: nat)
    requires OccursAt(data, off, EncodeLabels([]) + [0])
    ensures Represents(data, off, [], off + 1, [])
  {
  }

  lemma {:induction false} EncodedRepresents(data: seq<byte>, off: nat, ls: seq<Label>)
    requires Sized(ls) && AllAscii(ls) && Encodable(ls) && OccursAt(data, off, EncodeLabels(ls) + [0])
    ensures Represents(data, off, ls, off + |EncodeLabels(ls)| + 1, [])
    decreases |ls|
  {
    hide EncodeLabels, OccursAt, Represents, Encodable, Chars, Decodable;
    if ls == [] {
      TerminatorRepresents(data, off);
      NoLabels();
    } else {
      EncodeCons(ls);
      AsciiIsPlain(ls[0]);
      OccursSplit(data, off, |ls[0]|, ls[0], EncodeLabels(ls[1..]) + [0]);
      EncodedRepresents(data, off + 1 + |ls[0]|, ls[1..]);
      RepresentsLabel(data, off, ls, off + |EncodeLabels(ls)| + 1);
    }
  }

  lemma NoLabels()
    ensures Encodable([]) && EncodeLabels([]) == []
  {
  }

  lemma LabelsDecode(data: seq<byte>, off: nat, ls: seq<Label>, jumps: nat)
    requires Proper(ls) && Encodable(ls) && OccursAt(data, off, EncodeLabels(ls) + [0])
    ensures Decode(data, off, jumps) == Name(ls, off + |EncodeLabels(ls)| + 1)
  {
    hide Decode, Represents, Chars, Decodable, OccursAt, EncodeLabels, Encodable;
    ProperIsPlain(ls);
    EncodedRepresents(data, off, ls);
    DecoderMeetsRfc(data, off, ls, off + |EncodeLabels(ls)| + 1, []);
    MoreJumpsAgree(data, off, 0, jumps);
  }

  /** Printing a name anywhere in a message and reading it back gives its labels and the offset just after it. */
  lemma EncodeDecode(data: seq<byte>, off: nat, name: Name, jumps: nat)
    requires Proper(Split(name)) && OccursAt(data, off, EncodeDomain(name))
    ensures Decode(data, off, jumps) == Name(Split(name), off + |EncodeDomain(name)|)
    ensures Join(Split(name)) == name
  {
    hide Decode, Split, Chars, Decodable, OccursAt, EncodeLabels;
    LabelsDecode(data, off, Split(name), jumps);
    JoinSplit(name);
  }

  lemma ProperIsPlain(ls: seq<Label>)
    requires AllAscii(ls)
    ensures AllDecodable(ls) && forall l :: l in ls ==> Chars(l) == |l|
  {
    forall l | l in ls ensures Decodable(l) && Chars(l) == |l| {
      AsciiIsPlain(l);
    }
  }

  /** What is read of the first label is shorter than the label when that is not ASCII. */
  lemma {:induction false} NonAsciiGarbles(data: seq<byte>, off: nat, ls: seq<Label>, jumps: nat)
    requires Sized(ls) && AllDecodable(ls) && !AllAscii(ls)
    requires Encodable(ls) && OccursAt(data, off, EncodeLabels(ls) + [0])
    ensures !(Decode(data, off, jumps).Name? && Decode(data, off, jumps).labels == ls)
    decreases |ls|
  {
    hide EncodeLabels, OccursAt, Encodable, Chars, Decodable, Decode;
    EncodeCons(ls);
    var l, rest := ls[0], EncodeLabels(ls[1..]) + [0];
    CharsCountAscii(l);
    OccursSplit(data, off, Chars(l), l, rest);
    LabelStep(data, off, jumps);
    if Ascii(l) {
      NonAsciiGarbles(data, off + 1 + |l|, ls[1..], jumps);
    }
  }

  /** A string printed as a name reads back as itself exactly when it is ASCII. */
  lemma EncodeDecodeIff(data: seq<byte>, off: nat, name: Name, jumps: nat)
    requires Sized(Split(name)) && AllDecodable(Split(name))
    requires OccursAt(data, off, EncodeDomain(name))
    ensures Decode(data, off, jumps).Name? && Decode(data, off, jumps).labels == Split(name) <==> AllAscii(Split(name))
  {
    hide Decode, Split;
    if AllAscii(Split(name)) {
      EncodeDecode(data, off, name, jumps);
    } else {
      NonAsciiGarbles(data, off, Split(name), jumps);
    }
  }

  lemma JumpStep(data: seq<byte>, off: nat, target: nat, jumps: nat)
    requires target < 0x4000 && off + 1 < |data| && WordAt(data, off) == 0xC000 + target
    ensures RunAt(data, off) == Jump([], target, off + 2)
  {
  }

  /** A two-octet pointer to an earlier name reads as that name, and ends right after itself. */
  lemma PointerDecode(data: seq<byte>, off: nat, target: nat, name: Name, jumps: nat)
    requires target < 0x4000 && off + 1 < |data| && WordAt(data, off) == 0xC000 + target && jumps > 0
    requires Proper(Split(name)) && OccursAt(data, target, EncodeDomain(name))
    ensures Decode(data, off, jumps) == Name(Split(name), off + 2)
  {
    hide RunAt, Split, EncodeDomain, WordAt, OccursAt, Proper;
    EncodeDecode(data, target, name, jumps - 1);
    JumpStep(data, off, target, jumps);
    assert [] + Split(name) == Split(name);
  }

  // ---------------------------------------------------------------- reverse names

  lemma {:induction false} ReversedElement(ls: seq<Label>, i: nat)
    requires i < |ls|
    ensures Reverse(ls)[i] == ls[|ls| - 1 - i]
  {
    if i < |ls| - 1 {
      ReversedElement(ls[1..], i);
    }
  }

  lemma ReversedTwice(ls: seq<Label>)
    ensures Reverse(Reverse(ls)) == ls
    ensures AllDotFree(ls) ==> AllDotFree(Reverse(ls))
  {
    forall i | 0 <= i < |ls| ensures Reverse(Reverse(ls))[i] == ls[i] {
      ReversedElement(Reverse(ls), i);
      ReversedElement(ls, |ls| - 1 - i);
    }
    forall l | l in Reverse(ls) ensures l in ls {
      var i :| 0 <= i < |ls| && Reverse(ls)[i] == l;
      ReversedElement(ls, i);
    }
  }

  /** ".in-addr.arpa" */
  const SUFFIX: Name := [0x2E, 0x69, 0x6E, 0x2D, 0x61, 0x64, 0x64, 0x72, 0x2E, 0x61, 0x72, 0x70, 0x61]

  function IpToPtrName(ip: Name): Name {
    Join(Reverse(Split(ip))) + SUFFIX
  }

  function PtrNameToIp(name: Name): Name {
    var stem := if |name| >= |SUFFIX| && name[|name| - |SUFFIX|..] == SUFFIX then name[..|name| - |SUFFIX|] else name;
    Join(Reverse(Split(stem)))
  }

  /** The reverse name of an address leads back to the address. */
  lemma PtrNameRoundTrip(ip: Name)
    ensures PtrNameToIp(IpToPtrName(ip)) == ip
  {
    var ls := Split(ip);
    var stem := Join(Reverse(ls));
    assert (stem + SUFFIX)[|stem|..] == SUFFIX && (stem + SUFFIX)[..|stem|] == stem;
    JoinSplit(ip);
    ReversedTwice(ls);
    SplitJoin(Reverse(ls));
  }
}
