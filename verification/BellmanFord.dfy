/** `_bellman_ford` of controller.py: in-place relaxation, at most n-1 rounds, stopping after a quiet round. */
module BellmanFord {
  import opened Wrappers
  import opened Graph
  import opened Routing
  import opened RoutingAll

  /** A `prev` pointer was tight when it was set; its head may have improved since. */
  ghost predicate SlackTree(g: Net, src: Dpid, dist: map<Dpid, Dist>, prev: map<Dpid, Option<Dpid>>) {
    && prev.Keys == g.switches
    && forall v :: v in prev && v in dist ==>
         match prev[v]
         case None => v == src || dist[v] == Inf
         case Some(u) =>
           && v != src && u in dist && g.Edge(u, v) && dist[u].Fin? && dist[v].Fin?
           && dist[u].n + g.Weight(u, v) <= dist[v].n
  }

  ghost predicate BFInv(g: Net, src: Dpid, dist: map<Dpid, Dist>, prev: map<Dpid, Option<Dpid>>) {
    Shape(g, src, dist) && SlackTree(g, src, dist, prev) && Witnessed(g, src, dist)
  }

  /** After k rounds no walk of at most k edges is cheaper than its entry. */
  ghost predicate Bounded(g: Net, src: Dpid, dist: map<Dpid, Dist>, k: nat) {
    forall w :: g.IsWalk(w) && w[0] == src && |w| <= k + 1 ==>
      w[|w| - 1] in dist && AtMost(dist[w[|w| - 1]], Fin(g.Cost(w)))
  }

  /** No entry is above the one the round started with. */
  ghost predicate Lower(dist: map<Dpid, Dist>, dist0: map<Dpid, Dist>) {
    dist.Keys == dist0.Keys && forall v :: v in dist ==> AtMost(dist[v], dist0[v])
  }

  /** The edges out of the switches in `us` have been relaxed since the round started from dist0. */
  ghost predicate RelaxedFrom(g: Net, dist: map<Dpid, Dist>, dist0: map<Dpid, Dist>, us: set<Dpid>) {
    forall u, v :: u in us && u in dist0 && dist0[u].Fin? && g.Edge(u, v) ==>
      v in dist && AtMost(dist[v], Fin(dist0[u].n + g.Weight(u, v)))
  }

  /** The edges from u to the switches in `vs` have been relaxed since the round started. */
  ghost predicate RelaxedTo(g: Net, dist: map<Dpid, Dist>, dist0: map<Dpid, Dist>, u: Dpid, vs: set<Dpid>) {
    forall v :: u in dist0 && dist0[u].Fin? && v in vs ==>
      v in dist && AtMost(dist[v], Fin(dist0[u].n + g.Weight(u, v)))
  }

  // ---------------------------------------------------------------- one relaxation, one round

  lemma RelaxKeeps(g: Net, src: Dpid, dist: map<Dpid, Dist>, prev: map<Dpid, Option<Dpid>>, u: Dpid, v: Dpid)
    requires g.Valid() && BFInv(g, src, dist, prev)
    requires u in dist && dist[u].Fin? && g.Edge(u, v) && v in dist && Less(dist[u].n + g.Weight(u, v), dist[v])
    ensures BFInv(g, src, dist[v := Fin(dist[u].n + g.Weight(u, v))], prev[v := Some(u)])
  {
    RelaxKeepsWitness(g, src, dist, u, v);
  }

  lemma LowerKeeps(g: Net, dist: map<Dpid, Dist>, dist0: map<Dpid, Dist>, us: set<Dpid>, u: Dpid, vs: set<Dpid>,
                   v: Dpid, n: nat)
    requires Lower(dist, dist0) && RelaxedFrom(g, dist, dist0, us) && RelaxedTo(g, dist, dist0, u, vs)
    requires v in dist && Less(n, dist[v])
    ensures Lower(dist[v := Fin(n)], dist0) && RelaxedFrom(g, dist[v := Fin(n)], dist0, us)
    ensures RelaxedTo(g, dist[v := Fin(n)], dist0, u, vs)
  {
  }

  lemma EdgeDone(g: Net, dist: map<Dpid, Dist>, dist0: map<Dpid, Dist>, u: Dpid, vs: set<Dpid>, v: Dpid)
    requires Lower(dist, dist0) && RelaxedTo(g, dist, dist0, u, vs)
    requires u in dist && dist[u].Fin? && v in dist && AtMost(dist[v], Fin(dist[u].n + g.Weight(u, v)))
    ensures RelaxedTo(g, dist, dist0, u, vs + {v})
  {
  }

  lemma SwitchDone(g: Net, dist: map<Dpid, Dist>, dist0: map<Dpid, Dist>, us: set<Dpid>, u: Dpid)
    requires Lower(dist, dist0) && RelaxedFrom(g, dist, dist0, us)
    requires u in dist && (dist[u].Inf? || RelaxedTo(g, dist, dist0, u, g.Neighbours(u).Keys))
    ensures RelaxedFrom(g, dist, dist0, us + {u})
  {
  }

  // ---------------------------------------------------------------- the same, as functions of the iteration order

  /** Distances and predecessors while the algorithm runs. */
  datatype Labels = Labels(dist: map<Dpid, Dist>, prev: map<Dpid, Option<Dpid>>)

  function RelaxEdge(g: Net, u: Dpid, v: Dpid, t: Labels): Labels {
    if u in t.dist && v in t.dist && t.dist[u].Fin? && Less(t.dist[u].n + g.Weight(u, v), t.dist[v])
    then Labels(t.dist[v := Fin(t.dist[u].n + g.Weight(u, v))], t.prev[v := Some(u)]) else t
  }

  function RelaxOut(g: Net, u: Dpid, vs: seq<Dpid>, t: Labels): Labels {
    if vs == [] then t else RelaxEdge(g, u, vs[|vs| - 1], RelaxOut(g, u, vs[..|vs| - 1], t))
  }

  /** The switches of `us`, in order; one round is `RelaxRound(g, o, o.switches, t)`. */
  function RelaxRound(g: Net, o: Order, us: seq<Dpid>, t: Labels): Labels {
    if us == [] then t
    else
      var u := us[|us| - 1];
      RelaxOut(g, u, if u in o.neighbours then o.neighbours[u] else [], RelaxRound(g, o, us[..|us| - 1], t))
  }

  function RelaxRounds(g: Net, o: Order, k: nat, t: Labels): Labels {
    if k == 0 then t else RelaxRound(g, o, o.switches, RelaxRounds(g, o, k - 1, t))
  }

  function StartLabels(g: Net, src: Dpid): Labels {
    Labels((map d | d in g.switches :: Inf)[src := Fin(0)], map d | d in g.switches :: None)
  }

  /** The algorithm without its early exit: one round less than there are switches. */
  function AllRounds(g: Net, o: Order, src: Dpid): Labels {
    RelaxRounds(g, o, if |g.switches| == 0 then 0 else |g.switches| - 1, StartLabels(g, src))
  }

  lemma {:induction false} UnreachedRelaxesNothing(g: Net, u: Dpid, vs: seq<Dpid>, t: Labels)
    requires u in t.dist && t.dist[u] == Inf
    ensures RelaxOut(g, u, vs, t) == t
  {
    if vs != [] {
      UnreachedRelaxesNothing(g, u, vs[..|vs| - 1], t);
    }
  }

  /** After a quiet round further rounds change nothing, so leaving early gives the result of all rounds. */
  lemma {:induction false} QuietStays(g: Net, o: Order, k: nat, n: nat, t: Labels)
    requires k <= n && RelaxRound(g, o, o.switches, RelaxRounds(g, o, k, t)) == RelaxRounds(g, o, k, t)
    ensures RelaxRounds(g, o, n, t) == RelaxRounds(g, o, k, t)
    decreases n
  {
    if k < n {
      QuietStays(g, o, k, n - 1, t);
    }
  }

  ghost function Among(us: seq<Dpid>): set<Dpid> {
    set v | v in us
  }

  method RelaxSwitch(g: Net, src: Dpid, u: Dpid, vs: seq<Dpid>, dist0: map<Dpid, Dist>, prev0: map<Dpid, Option<Dpid>>,
                     updated0: bool, ghost start: Labels, ghost us: set<Dpid>)
    returns (dist: map<Dpid, Dist>, prev: map<Dpid, Option<Dpid>>, updated: bool)
    requires g.Valid() && u in g.switches && Lists(vs, g.Neighbours(u).Keys) && Shape(g, src, dist0) &&
             BFInv(g, src, dist0, prev0)
    requires Lower(dist0, start.dist) && RelaxedFrom(g, dist0, start.dist, us) &&
             (!updated0 ==> Labels(dist0, prev0) == start)
    ensures Labels(dist, prev) == RelaxOut(g, u, vs, Labels(dist0, prev0))
    ensures Shape(g, src, dist) && BFInv(g, src, dist, prev)
    ensures Lower(dist, start.dist) && RelaxedFrom(g, dist, start.dist, us + {u}) &&
            (!updated ==> Labels(dist, prev) == start)
  {
    hide BFInv, Lower, RelaxedFrom, RelaxedTo, RelaxOut, Shape, Lists, Among, Net.Valid, Net.Weight;
    dist, prev, updated := dist0, prev0, updated0;
    Shaped(g, src, dist);
    if dist[u] == Inf {
      UnreachedRelaxesNothing(g, u, vs, Labels(dist0, prev0));
    } else {
      var j := 0;
      NothingToRelax(g, dist, start.dist, u, vs, Labels(dist0, prev0));
      while j < |vs|
        invariant 0 <= j <= |vs|
        invariant Shape(g, src, dist) && BFInv(g, src, dist, prev) && u in dist && dist[u] != Inf
        invariant Lower(dist, start.dist) && RelaxedFrom(g, dist, start.dist, us) &&
                  RelaxedTo(g, dist, start.dist, u, Among(vs[..j]))
        invariant Labels(dist, prev) == RelaxOut(g, u, vs[..j], Labels(dist0, prev0))
        invariant !updated ==> Labels(dist, prev) == start
      {
        var v := vs[j];
        NextEdge(g, u, vs, j, Labels(dist0, prev0));
        Shaped(g, src, dist);
        var alt := dist[u].n + g.Weight(u, v);
        if Less(alt, dist[v]) {
          RelaxKeeps(g, src, dist, prev, u, v);
          LowerKeeps(g, dist, start.dist, us, u, Among(vs[..j]), v, alt);
          dist, prev, updated := dist[v := Fin(alt)], prev[v := Some(u)], true;
        }
        EdgeDone(g, dist, start.dist, u, Among(vs[..j]), v);
        j := j + 1;
      }
      AllNeighbours(g, u, vs);
    }
    SwitchDone(g, dist, start.dist, us, u);
  }

  /** The i-th switch of a round, its neighbours, and what relaxing it adds to the round. */
  lemma NextSwitch(g: Net, o: Order, i: nat, t: Labels)
    requires o.Enumerates(g) && i < |o.switches|
    ensures var u := o.switches[i];
            && u in g.switches && u in o.neighbours && Lists(o.neighbours[u], g.Neighbours(u).Keys)
            && RelaxRound(g, o, o.switches[..i + 1], t) ==
               RelaxOut(g, u, o.neighbours[u], RelaxRound(g, o, o.switches[..i], t))
            && Among(o.switches[..i + 1]) == Among(o.switches[..i]) + {u}
  {
    assert o.switches[..i + 1][..i] == o.switches[..i] && o.switches[..i + 1] == o.switches[..i] + [o.switches[i]];
  }

  lemma RoundStarts(g: Net, o: Order, t: Labels)
    ensures o.switches[..0] == [] && Among([]) == {} && RelaxRound(g, o, [], t) == t
  {
  }

  lemma AllSwitches(g: Net, o: Order)
    requires o.Enumerates(g)
    ensures o.switches[..|o.switches|] == o.switches && Among(o.switches) == g.switches
  {
    assert o.switches[..|o.switches|] == o.switches;
  }

  lemma NothingToRelax(g: Net, dist: map<Dpid, Dist>, dist0: map<Dpid, Dist>, u: Dpid, vs: seq<Dpid>, t: Labels)
    ensures RelaxedTo(g, dist, dist0, u, Among(vs[..0])) && RelaxOut(g, u, vs[..0], t) == t
  {
  }

  /** The j-th neighbour of a scan, and what relaxing the edge to it adds. */
  lemma NextEdge(g: Net, u: Dpid, vs: seq<Dpid>, j: nat, t: Labels)
    requires g.Valid() && Lists(vs, g.Neighbours(u).Keys) && j < |vs|
    ensures g.Edge(u, vs[j]) && vs[j] in g.switches
    ensures RelaxOut(g, u, vs[..j + 1], t) == RelaxEdge(g, u, vs[j], RelaxOut(g, u, vs[..j], t))
    ensures Among(vs[..j + 1]) == Among(vs[..j]) + {vs[j]}
  {
    assert g.Edge(u, vs[j]);
    assert vs[..j + 1][..j] == vs[..j] && vs[..j + 1] == vs[..j] + [vs[j]];
  }

  lemma AllNeighbours(g: Net, u: Dpid, vs: seq<Dpid>)
    requires Lists(vs, g.Neighbours(u).Keys)
    ensures vs[..|vs|] == vs && Among(vs) == g.Neighbours(u).Keys
  {
    assert vs[..|vs|] == vs;
  }

  /** A full round extends the bound to walks one edge longer. */
  lemma RoundBounds(g: Net, src: Dpid, dist: map<Dpid, Dist>, dist0: map<Dpid, Dist>, k: nat)
    requires g.Valid() && Bounded(g, src, dist0, k) && Lower(dist, dist0)
    requires RelaxedFrom(g, dist, dist0, g.switches) && dist0.Keys == g.switches + {src}
    ensures Bounded(g, src, dist, k + 1)
  {
  }

  /** A round that changes nothing leaves nothing to relax. */
  lemma QuietIsFeasible(g: Net, src: Dpid, dist: map<Dpid, Dist>)
    requires g.Valid() && RelaxedFrom(g, dist, dist, g.switches)
    ensures Feasible(g, dist)
  {
  }

  /** Walks of at most n-1 edges decide all distances, because a cheapest walk repeats no switch. */
  lemma EnoughRounds(g: Net, src: Dpid, dist: map<Dpid, Dist>, k: nat)
    requires g.Valid() && Shape(g, src, dist) && Witnessed(g, src, dist) && Bounded(g, src, dist, k)
    requires |g.switches| <= k + 1
    ensures forall v :: v in dist ==> dist[v] == g.Delta(src, v)
  {
    forall v | v in dist
      ensures dist[v] == g.Delta(src, v)
    {
      forall w | g.WalkBetween(src, v, w)
        ensures AtMost(dist[v], Fin(g.Cost(w)))
      {
        var p := CutCycles(g, src, v, w);
        WalkInSwitches(g, p);
        if |p| > 1 {
          DistinctFits(p, g.switches);
        }
        assert AtMost(dist[p[|p| - 1]], Fin(g.Cost(p)));
      }
      assert g.IsDist(src, v, dist[v]);
      DistUnique(g, src, v, dist[v], g.Delta(src, v));
    }
  }

  lemma QuietIsShortest(g: Net, src: Dpid, dist: map<Dpid, Dist>)
    requires g.Valid() && Shape(g, src, dist) && Witnessed(g, src, dist)
    requires RelaxedFrom(g, dist, dist, g.switches)
    ensures forall v :: v in dist ==> dist[v] == g.Delta(src, v)
  {
    QuietIsFeasible(g, src, dist);
    forall v | v in dist ensures dist[v] == g.Delta(src, v) {
      CertificateIsShortest(g, src, dist, v);
    }
  }

  /** Once the distances are exact, the slack in every `prev` pointer is gone. */
  lemma SlackVanishes(g: Net, src: Dpid, dist: map<Dpid, Dist>, prev: map<Dpid, Option<Dpid>>)
    requires BFInv(g, src, dist, prev) && forall v :: v in dist ==> dist[v] == g.Delta(src, v)
    ensures ShortestTree(g, src, dist, prev)
  {
    forall v | v in prev && v in dist && prev[v].Some?
      ensures dist[v] == Fin(dist[prev[v].value].n + g.Weight(prev[v].value, v))
    {
      DeltaStep(g, src, prev[v].value, v);
    }
  }

  method Round(g: Net, o: Order, src: Dpid, dist0: map<Dpid, Dist>, prev0: map<Dpid, Option<Dpid>>)
    returns (dist: map<Dpid, Dist>, prev: map<Dpid, Option<Dpid>>, updated: bool)
    requires g.Valid() && o.Enumerates(g) && Shape(g, src, dist0) && BFInv(g, src, dist0, prev0)
    ensures Labels(dist, prev) == RelaxRound(g, o, o.switches, Labels(dist0, prev0))
    ensures Shape(g, src, dist) && BFInv(g, src, dist, prev)
    ensures Lower(dist, dist0) && RelaxedFrom(g, dist, dist0, g.switches) &&
            (!updated ==> dist == dist0 && prev == prev0)
  {
    dist, prev, updated := dist0, prev0, false;
    assert Lower(dist, dist0) && RelaxedFrom(g, dist, dist0, {});
    hide BFInv, Lower, RelaxedFrom, RelaxRound, RelaxOut, Order.Enumerates, Lists, Among, Shape, Net.Valid;
    var i := 0;
    RoundStarts(g, o, Labels(dist0, prev0));
    while i < |o.switches|
      invariant 0 <= i <= |o.switches|
      invariant Shape(g, src, dist) && BFInv(g, src, dist, prev)
      invariant Lower(dist, dist0) && RelaxedFrom(g, dist, dist0, Among(o.switches[..i]))
      invariant Labels(dist, prev) == RelaxRound(g, o, o.switches[..i], Labels(dist0, prev0))
      invariant !updated ==> dist == dist0 && prev == prev0
    {
      NextSwitch(g, o, i, Labels(dist0, prev0));
      var u := o.switches[i];
      dist, prev, updated := RelaxSwitch(g, src, u, o.neighbours[u], dist, prev, updated, Labels(dist0, prev0),
                                         Among(o.switches[..i]));
      i := i + 1;
    }
    AllSwitches(g, o);
  }

  method BellmanFord(g: Net, o: Order, src: Dpid) returns (dist: map<Dpid, Dist>, prev: map<Dpid, Option<Dpid>>)
    requires g.Valid() && o.Enumerates(g)
    ensures ShortestTree(g, src, dist, prev) && Labels(dist, prev) == AllRounds(g, o, src)
  {
    hide *;
    var start := StartLabels(g, src);
    dist, prev := start.dist, start.prev;
    StartBounded(g, src);
    ghost var last := if |g.switches| == 0 then 0 else |g.switches| - 1;
    RoundsUnfold(g, o, 0, start);
    var k := 0;
    var updated := true;
    while k < |g.switches| - 1 && updated
      invariant k <= last
      invariant Shape(g, src, dist) && BFInv(g, src, dist, prev) && Bounded(g, src, dist, k)
      invariant Labels(dist, prev) == RelaxRounds(g, o, k, start)
      invariant !updated ==> RelaxedFrom(g, dist, dist, g.switches)
      invariant !updated ==> RelaxRound(g, o, o.switches, Labels(dist, prev)) == Labels(dist, prev)
    {
      var before := dist;
      dist, prev, updated := Round(g, o, src, before, prev);
      Shaped(g, src, before);
      RoundBounds(g, src, dist, before, k);
      RoundsUnfold(g, o, k + 1, start);
      k := k + 1;
    }
    WitnessedOf(g, src, dist, prev);
    if updated {
      EnoughRounds(g, src, dist, k);
    } else {
      QuietIsShortest(g, src, dist);
      QuietStays(g, o, k, last, start);
    }
    SlackVanishes(g, src, dist, prev);
    AllRoundsAre(g, o, src);
  }

  lemma Shaped(g: Net, src: Dpid, dist: map<Dpid, Dist>)
    requires Shape(g, src, dist)
    ensures dist.Keys == g.switches + {src}
  {
  }

  lemma AllRoundsAre(g: Net, o: Order, src: Dpid)
    ensures AllRounds(g, o, src) ==
            RelaxRounds(g, o, if |g.switches| == 0 then 0 else |g.switches| - 1, StartLabels(g, src))
  {
  }

  lemma RoundsUnfold(g: Net, o: Order, k: nat, t: Labels)
    ensures RelaxRounds(g, o, k, t) == if k == 0 then t else RelaxRound(g, o, o.switches, RelaxRounds(g, o, k - 1, t))
  {
  }

  lemma WitnessedOf(g: Net, src: Dpid, dist: map<Dpid, Dist>, prev: map<Dpid, Option<Dpid>>)
    requires BFInv(g, src, dist, prev)
    ensures Witnessed(g, src, dist)
  {
  }

  lemma StartBounded(g: Net, src: Dpid)
    ensures var t := StartLabels(g, src);
            Shape(g, src, t.dist) && BFInv(g, src, t.dist, t.prev) && Bounded(g, src, t.dist, 0)
  {
    StartWitnessed(g, src, StartLabels(g, src).dist);
  }

  /** Both algorithms return the same distances, and their trees are tight and acyclic. */
  lemma AlgorithmsAgree(g: Net, src: Dpid, dist1: map<Dpid, Dist>, prev1: map<Dpid, Option<Dpid>>,
                        dist2: map<Dpid, Dist>, prev2: map<Dpid, Option<Dpid>>)
    requires g.Valid() && ShortestTree(g, src, dist1, prev1) && ShortestTree(g, src, dist2, prev2)
    ensures dist1 == dist2
    ensures forall v :: v in dist1 && dist1[v].Fin? ==>
      var p, q := TreePath(g, src, dist1, prev1, v), TreePath(g, src, dist2, prev2, v);
      Distinct(p) && Distinct(q) && g.Cost(p) == g.Cost(q) == dist1[v].n
  {
    forall v | v in dist1 && dist1[v].Fin?
      ensures var p, q := TreePath(g, src, dist1, prev1, v), TreePath(g, src, dist2, prev2, v);
              Distinct(p) && Distinct(q) && g.Cost(p) == g.Cost(q) == dist1[v].n
    {
      TreePathIsWalk(g, src, dist1, prev1, v);
      TreePathIsSimple(g, src, dist1, prev1, v);
      TreePathIsWalk(g, src, dist2, prev2, v);
      TreePathIsSimple(g, src, dist2, prev2, v);
    }
  }
}
