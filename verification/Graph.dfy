/**
The switch graph seen by the routing functions of controller.py, and what "shortest"
means on it, independently of any algorithm: walks, their cost, and the least cost.
*/
module Graph {
  import opened Wrappers

  type Dpid = nat
  type Port = nat

  /** A tentative distance; `Inf` is Python's `float('inf')`. */
  datatype Dist = Fin(n: nat) | Inf

  predicate Less(a: nat, d: Dist) {
    d.Inf? || a < d.n
  }

  predicate AtMost(d: Dist, e: Dist) {
    e.Inf? || (d.Fin? && d.n <= e.n)
  }

  /** The part of the controller's state that routing reads. `adjacency[u][v]` is the port of u towards v. */
  datatype Net = Net(switches: set<Dpid>, adjacency: map<Dpid, map<Dpid, Port>>, weights: map<(Dpid, Dpid), nat>)
  {
    function Neighbours(u: Dpid): map<Dpid, Port> {
      if u in adjacency then adjacency[u] else map[]
    }

    predicate Edge(u: Dpid, v: Dpid) {
      v in Neighbours(u)
    }

    /** `_edge_weight`: looked up under the ordered pair, 1 when not configured. */
    function Weight(u: Dpid, v: Dpid): nat {
      var key := if u <= v then (u, v) else (v, u);
      if key in weights then weights[key] else 1
    }

    /** Weights are at least 1 and links join known switches. */
    ghost predicate Valid() {
      && (forall key :: key in weights ==> 1 <= weights[key])
      && (forall u, v :: Edge(u, v) ==> u in switches && v in switches)
    }

    ghost predicate IsWalk(w: seq<Dpid>)
      decreases |w|
    {
      |w| >= 1 && (|w| == 1 || (IsWalk(w[..|w| - 1]) && Edge(w[|w| - 2], w[|w| - 1])))
    }

    ghost function Cost(w: seq<Dpid>): nat
      decreases |w|
    {
      if |w| <= 1 then 0 else Cost(w[..|w| - 1]) + Weight(w[|w| - 2], w[|w| - 1])
    }

    ghost predicate WalkBetween(s: Dpid, t: Dpid, w: seq<Dpid>) {
      IsWalk(w) && w[0] == s && w[|w| - 1] == t
    }

    /** Some walk from s to t has cost n. */
    ghost predicate Reaches(s: Dpid, t: Dpid, n: nat) {
      exists w :: WalkBetween(s, t, w) && Cost(w) == n
    }

    /** d is the least cost of a walk from s to t, `Inf` when there is none. */
    ghost predicate IsDist(s: Dpid, t: Dpid, d: Dist) {
      match d
      case Inf => forall w :: !WalkBetween(s, t, w)
      case Fin(n) => Reaches(s, t, n) && forall w :: WalkBetween(s, t, w) ==> n <= Cost(w)
    }

    ghost function Delta(s: Dpid, t: Dpid): (d: Dist)
      ensures IsDist(s, t, d)
    {
      DistExists(this, s, t);
      var d :| IsDist(s, t, d);
      d
    }
  }

  /** The insertion order of Python's dictionaries: of `switches`, and of each inner dictionary of `adjacency`. */
  datatype Order = Order(switches: seq<Dpid>, neighbours: map<Dpid, seq<Dpid>>)
  {
    ghost predicate Enumerates(g: Net) {
      && Lists(switches, g.switches)
      && forall u :: u in g.switches ==> u in neighbours && Lists(neighbours[u], g.Neighbours(u).Keys)
    }
  }

  ghost predicate Lists<T(!new)>(order: seq<T>, elements: set<T>) {
    Distinct(order) && forall x :: x in order <==> x in elements
  }

  /** The keys of a dictionary, in the order it has. */
  method ListKeys(keys: set<Dpid>) returns (order: seq<Dpid>)
    ensures Lists(order, keys)
  {
    order := [];
    var todo := keys;
    while todo != {}
      invariant Distinct(order) && (forall x :: x in order <==> x in keys - todo) && todo <= keys
      decreases todo
    {
      var x :| x in todo;
      DistinctSnoc(order, x);
      order, todo := order + [x], todo - {x};
    }
  }

  /** The order the dictionaries of this state happen to have. */
  method CurrentOrder(g: Net) returns (o: Order)
    ensures o.Enumerates(g)
  {
    var switches := ListKeys(g.switches);
    var neighbours: map<Dpid, seq<Dpid>> := map[];
    var i := 0;
    while i < |switches|
      invariant 0 <= i <= |switches|
      invariant forall u :: u in switches[..i] ==> u in neighbours && Lists(neighbours[u], g.Neighbours(u).Keys)
    {
      var keys := ListKeys(g.Neighbours(switches[i]).Keys);
      neighbours := neighbours[switches[i] := keys];
      i := i + 1;
    }
    assert switches[..i] == switches;
    o := Order(switches, neighbours);
  }

  // ---------------------------------------------------------------- distances exist and are unique

  lemma DistExists(g: Net, s: Dpid, t: Dpid)
    ensures exists d :: g.IsDist(s, t, d)
  {
    if exists w :: g.WalkBetween(s, t, w) {
      var w :| g.WalkBetween(s, t, w);
      assert g.Reaches(s, t, g.Cost(w));
      LeastReached(g, s, t, g.Cost(w));
    } else {
      assert g.IsDist(s, t, Inf);
    }
  }

  lemma {:induction false} LeastReached(g: Net, s: Dpid, t: Dpid, n: nat)
    requires g.Reaches(s, t, n)
    ensures exists d :: g.IsDist(s, t, d)
    decreases n
  {
    if w :| g.WalkBetween(s, t, w) && g.Cost(w) < n {
      assert g.Reaches(s, t, g.Cost(w));
      LeastReached(g, s, t, g.Cost(w));
    } else {
      assert g.IsDist(s, t, Fin(n));
    }
  }

  lemma DistUnique(g: Net, s: Dpid, t: Dpid, d: Dist, e: Dist)
    requires g.IsDist(s, t, d) && g.IsDist(s, t, e)
    ensures d == e
  {
  }

  // ---------------------------------------------------------------- walks

  lemma WalkSnoc(g: Net, s: Dpid, u: Dpid, w: seq<Dpid>, v: Dpid)
    requires g.WalkBetween(s, u, w) && g.Edge(u, v)
    ensures g.WalkBetween(s, v, w + [v])
    ensures g.Cost(w + [v]) == g.Cost(w) + g.Weight(u, v)
  {
  }

  lemma ReachesStep(g: Net, s: Dpid, u: Dpid, n: nat, v: Dpid)
    requires g.Reaches(s, u, n) && g.Edge(u, v)
    ensures g.Reaches(s, v, n + g.Weight(u, v))
  {
    var w :| g.WalkBetween(s, u, w) && g.Cost(w) == n;
    WalkSnoc(g, s, u, w, v);
  }

  /** Two walks that meet join into one; b repeats the meeting switch. */
  lemma {:induction false} WalkJoin(g: Net, s: Dpid, m: Dpid, t: Dpid, a: seq<Dpid>, b: seq<Dpid>)
    requires g.WalkBetween(s, m, a) && g.WalkBetween(m, t, b)
    ensures g.WalkBetween(s, t, a + b[1..])
    ensures g.Cost(a + b[1..]) == g.Cost(a) + g.Cost(b)
    decreases |b|
  {
    if |b| == 1 {
      assert a + b[1..] == a;
    } else {
      var b' := b[..|b| - 1];
      WalkJoin(g, s, m, b'[|b'| - 1], a, b');
      WalkSnoc(g, s, b'[|b'| - 1], a + b'[1..], t);
      assert a + b[1..] == a + b'[1..] + [t];
    }
  }

  /** Every prefix and every suffix of a walk is a walk, and the costs add up. */
  lemma {:induction false} WalkSplit(g: Net, w: seq<Dpid>, i: nat)
    requires g.IsWalk(w) && i < |w|
    ensures g.IsWalk(w[..i + 1]) && g.IsWalk(w[i..])
    ensures g.Cost(w) == g.Cost(w[..i + 1]) + g.Cost(w[i..])
    decreases |w|
  {
    if i == |w| - 1 {
      assert w[..i + 1] == w;
    } else {
      var w' := w[..|w| - 1];
      WalkSplit(g, w', i);
      assert w'[..i + 1] == w[..i + 1];
      assert w[i..][..|w[i..]| - 1] == w'[i..];
    }
  }

  lemma WalkCons(g: Net, s: Dpid, v: Dpid, t: Dpid, p: seq<Dpid>)
    requires g.Edge(s, v) && g.WalkBetween(v, t, p)
    ensures g.WalkBetween(s, t, [s] + p) && g.Cost([s] + p) == g.Weight(s, v) + g.Cost(p)
  {
    assert g.WalkBetween(s, s, [s]);
    WalkSnoc(g, s, s, [s], v);
    WalkJoin(g, s, v, t, [s] + [v], p);
    assert [s] + [v] + p[1..] == [s] + p;
  }

  lemma {:induction false} WalkInSwitches(g: Net, w: seq<Dpid>)
    requires g.Valid() && g.IsWalk(w)
    ensures forall x :: x in w ==> x in g.switches + {w[0]}
    ensures |w| > 1 ==> w[0] in g.switches
    decreases |w|
  {
    if |w| > 1 {
      var w' := w[..|w| - 1];
      WalkInSwitches(g, w');
      assert w == w' + [w[|w| - 1]];
    }
  }

  lemma DeltaStep(g: Net, s: Dpid, u: Dpid, v: Dpid)
    requires g.Edge(u, v) && g.Delta(s, u).Fin?
    ensures g.Delta(s, v).Fin? && g.Delta(s, v).n <= g.Delta(s, u).n + g.Weight(u, v)
  {
    ReachesStep(g, s, u, g.Delta(s, u).n, v);
    var w :| g.WalkBetween(s, v, w) && g.Cost(w) == g.Delta(s, u).n + g.Weight(u, v);
  }

  lemma DeltaFirstStep(g: Net, u: Dpid, v: Dpid, t: Dpid)
    requires g.Edge(u, v) && g.Delta(v, t).Fin?
    ensures g.Delta(u, t).Fin? && g.Delta(u, t).n <= g.Weight(u, v) + g.Delta(v, t).n
  {
    var b :| g.WalkBetween(v, t, b) && g.Cost(b) == g.Delta(v, t).n;
    assert g.WalkBetween(u, u, [u]);
    WalkSnoc(g, u, u, [u], v);
    WalkJoin(g, u, v, t, [u] + [v], b);
  }

  lemma DeltaSelf(g: Net, s: Dpid)
    ensures g.Delta(s, s) == Fin(0)
  {
    assert g.WalkBetween(s, s, [s]) && g.Cost([s]) == 0;
    assert g.Reaches(s, s, 0);
  }

  // ---------------------------------------------------------------- simple walks suffice

  lemma PrefixIsCheaper(g: Net, w: seq<Dpid>, i: nat, j: nat)
    requires g.IsWalk(w) && i <= j < |w|
    ensures g.IsWalk(w[..i + 1]) && g.Cost(w[..i + 1]) <= g.Cost(w[..j + 1])
  {
    WalkSplit(g, w, j);
    WalkSplit(g, w[..j + 1], i);
    assert w[..j + 1][..i + 1] == w[..i + 1];
  }

  /** Cutting out the cycle between two visits of the same switch. */
  lemma CutCycle(g: Net, s: Dpid, t: Dpid, w: seq<Dpid>, i: nat, j: nat)
    requires |w| > 0 && g.WalkBetween(s, t, w) && i < j < |w| && w[i] == w[j]
    ensures g.WalkBetween(s, t, w[..i + 1] + w[j + 1..])
    ensures g.Cost(w[..i + 1] + w[j + 1..]) <= g.Cost(w)
  {
    hide Net.IsWalk, Net.Cost;
    PrefixIsCheaper(g, w, i, j);
    WalkSplit(g, w, j);
    var a, b := w[..i + 1], w[j..];
    assert b[1..] == w[j + 1..];
    WalkJoin(g, s, w[i], t, a, b);
  }

  /** Cutting all cycles of a walk leaves a repetition-free walk that costs no more. */
  lemma {:induction false} CutCycles(g: Net, s: Dpid, t: Dpid, w: seq<Dpid>) returns (p: seq<Dpid>)
    requires g.WalkBetween(s, t, w)
    ensures g.WalkBetween(s, t, p) && Distinct(p) && g.Cost(p) <= g.Cost(w)
    decreases |w|
  {
    if Distinct(w) {
      p := w;
    } else {
      var i, j :| 0 <= i < j < |w| && w[i] == w[j];
      CutCycle(g, s, t, w, i, j);
      p := CutCycles(g, s, t, w[..i + 1] + w[j + 1..]);
    }
  }

  // ---------------------------------------------------------------- certificates of optimality

  /** No edge can be relaxed any further. */
  ghost predicate Feasible(g: Net, dist: map<Dpid, Dist>) {
    forall u, v :: u in dist && g.Edge(u, v) && dist[u].Fin? ==>
      v in dist && dist[v].Fin? && dist[v].n <= dist[u].n + g.Weight(u, v)
  }

  lemma {:induction false} FeasibleIsLowerBound(g: Net, src: Dpid, dist: map<Dpid, Dist>, w: seq<Dpid>)
    requires Feasible(g, dist) && src in dist && dist[src] == Fin(0)
    requires g.IsWalk(w) && w[0] == src
    ensures w[|w| - 1] in dist && AtMost(dist[w[|w| - 1]], Fin(g.Cost(w)))
    decreases |w|
  {
    if |w| > 1 {
      FeasibleIsLowerBound(g, src, dist, w[..|w| - 1]);
    }
  }

  /** Every finite entry is the cost of an actual walk. */
  ghost predicate Witnessed(g: Net, src: Dpid, dist: map<Dpid, Dist>) {
    forall v :: v in dist && dist[v].Fin? ==> g.Reaches(src, v, dist[v].n)
  }

  lemma CertificateIsShortest(g: Net, src: Dpid, dist: map<Dpid, Dist>, v: Dpid)
    requires Feasible(g, dist) && Witnessed(g, src, dist)
    requires src in dist && dist[src] == Fin(0) && v in dist
    ensures dist[v] == g.Delta(src, v)
  {
    forall w | g.WalkBetween(src, v, w)
      ensures AtMost(dist[v], Fin(g.Cost(w)))
    {
      FeasibleIsLowerBound(g, src, dist, w);
    }
    assert g.IsDist(src, v, dist[v]);
    DistUnique(g, src, v, dist[v], g.Delta(src, v));
  }
}
