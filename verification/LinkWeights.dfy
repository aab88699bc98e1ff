/**
The configured link weights of controller.py: what loading them and looking them up comes to, whichever way a link is
named.
*/
module LinkWeights {
  import opened Wrappers
  import opened Graph
  import opened Topology

  /** An entry of link_weights.json: a pair of switches, in either order, and its weight. */
  datatype WeightEntry = WeightEntry(a: Dpid, b: Dpid, weight: nat)

  // ---------------------------------------------------------------- loading

  function SortedPair(a: Dpid, b: Dpid): (Dpid, Dpid) {
    if b < a then (b, a) else (a, b)
  }

  function Loaded(entries: seq<WeightEntry>): map<(Dpid, Dpid), nat> {
    if entries == [] then map[]
    else
      var last := entries[|entries| - 1];
      Loaded(entries[..|entries| - 1])[SortedPair(last.a, last.b) := last.weight]
  }

  /** `_load_weights` */
  method LoadWeights(entries: seq<WeightEntry>) returns (weights: map<(Dpid, Dpid), nat>)
    ensures weights == Loaded(entries)
  {
    weights := map[];
    var i := 0;
    while i < |entries|
      invariant 0 <= i <= |entries| && weights == Loaded(entries[..i])
    {
      weights := weights[SortedPair(entries[i].a, entries[i].b) := entries[i].weight];
      assert entries[..i + 1][..i] == entries[..i];
      i := i + 1;
    }
    assert entries[..i] == entries;
  }

  predicate IsAbout(e: WeightEntry, u: Dpid, v: Dpid) {
    {e.a, e.b} == {u, v}
  }

  /** The weight of a link is that of the last entry about its two switches. */
  lemma {:induction false} WeightIsConfigured(g: Net, entries: seq<WeightEntry>, u: Dpid, v: Dpid, i: nat)
    requires g.weights == Loaded(entries) && i < |entries| && IsAbout(entries[i], u, v)
    requires forall j :: i < j < |entries| ==> !IsAbout(entries[j], u, v)
    ensures g.Weight(u, v) == entries[i].weight
    decreases |entries|
  {
    hide IsAbout;
    var last, rest := entries[|entries| - 1], entries[..|entries| - 1];
    PairsMatch(last, u, v);
    if i < |rest| {
      WeightIsConfigured(g.(weights := Loaded(rest)), rest, u, v, i);
    }
  }

  /** A link that no entry is about weighs 1. */
  lemma {:induction false} UnconfiguredWeighsOne(g: Net, entries: seq<WeightEntry>, u: Dpid, v: Dpid)
    requires g.weights == Loaded(entries) && forall e :: e in entries ==> !IsAbout(e, u, v)
    ensures g.Weight(u, v) == 1
    decreases |entries|
  {
    hide IsAbout;
    if entries != [] {
      var last, rest := entries[|entries| - 1], entries[..|entries| - 1];
      PairsMatch(last, u, v);
      UnconfiguredWeighsOne(g.(weights := Loaded(rest)), rest, u, v);
    }
  }

  lemma PairsMatch(e: WeightEntry, u: Dpid, v: Dpid)
    ensures IsAbout(e, u, v) <==> SortedPair(e.a, e.b) == if u <= v then (u, v) else (v, u)
  {
    assert IsAbout(e, u, v) ==> e.a in {u, v} && e.b in {u, v} && u in {e.a, e.b} && v in {e.a, e.b};
  }

  /** Weights of at least 1 stay so in the table. */
  lemma {:induction false} LoadedArePositive(entries: seq<WeightEntry>)
    requires forall e :: e in entries ==> 1 <= e.weight
    ensures forall key :: key in Loaded(entries) ==> 1 <= Loaded(entries)[key]
  {
    if entries != [] {
      LoadedArePositive(entries[..|entries| - 1]);
    }
  }

  // ---------------------------------------------------------------- both directions cost the same

  lemma WeightIsSymmetric(g: Net, u: Dpid, v: Dpid)
    ensures g.Weight(u, v) == g.Weight(v, u)
  {
  }

  /** The walk of one link costs its weight, either way. */
  lemma LinkCosts(g: Net, u: Dpid, v: Dpid)
    requires Symmetric(g) && g.Edge(u, v)
    ensures g.WalkBetween(u, v, [u, v]) && g.WalkBetween(v, u, [v, u])
    ensures g.Cost([u, v]) == g.Cost([v, u]) == g.Weight(u, v)
  {
    assert [u, v][..1] == [u] && [v, u][..1] == [v];
    assert g.Edge(v, u);
    WeightIsSymmetric(g, u, v);
  }

  ghost predicate Symmetric(g: Net) {
    forall u, v :: g.Edge(u, v) ==> g.Edge(v, u)
  }

  lemma RebuiltIsSymmetric(g: Net, links: seq<Link>)
    requires g.adjacency == Rebuild(links)
    ensures Symmetric(g)
  {
    forall u, v | g.Edge(u, v) ensures g.Edge(v, u) {
      assert PortIn(g.adjacency, u, v).Some?;
      AdjacencyIsSymmetricClosure(links, u, v);
      AdjacencyIsSymmetricClosure(links, v, u);
      assert PortIn(g.adjacency, v, u).Some?;
    }
  }

  /** Walked backwards, a walk costs the same. */
  lemma {:induction false} ReversedWalk(g: Net, s: Dpid, t: Dpid, w: seq<Dpid>)
    requires Symmetric(g) && g.WalkBetween(s, t, w)
    ensures g.WalkBetween(t, s, Reverse(w)) && g.Cost(Reverse(w)) == g.Cost(w)
    decreases |w|
  {
    var rest := w[..|w| - 1];
    assert w == rest + [t];
    ReverseSnoc(rest, t);
    if |w| == 1 {
      assert Reverse(rest) == [] && Reverse(w) == [t] == w;
    } else {
      var u := w[|w| - 2];
      ReversedWalk(g, s, u, rest);
      WalkCons(g, t, u, s, Reverse(rest));
      WeightIsSymmetric(g, u, t);
    }
  }

  lemma DistanceNoLonger(g: Net, s: Dpid, t: Dpid)
    requires Symmetric(g)
    ensures AtMost(g.Delta(s, t), g.Delta(t, s))
  {
    if g.Delta(t, s).Fin? {
      var w :| g.WalkBetween(t, s, w) && g.Cost(w) == g.Delta(t, s).n;
      ReversedWalk(g, t, s, w);
    }
  }

  /** Over rebuilt adjacencies the distance there is the distance back. */
  lemma DistanceIsSymmetric(g: Net, links: seq<Link>, s: Dpid, t: Dpid)
    requires g.adjacency == Rebuild(links)
    ensures g.Delta(s, t) == g.Delta(t, s)
  {
    RebuiltIsSymmetric(g, links);
    hide Symmetric, Net.Delta;
    DistanceNoLonger(g, s, t);
    DistanceNoLonger(g, t, s);
  }
}
