/** `_dijkstra_all` of controller.py: Dijkstra's algorithm keeping every tight predecessor. */
module RoutingAll {
  import opened Wrappers
  import opened Graph
  import opened Routing

  /** `prev[v]` lists, each once, the tight predecessors among those scanned so far. */
  ghost predicate ScannedLists(g: Net, dist: map<Dpid, Dist>, prev: map<Dpid, seq<Dpid>>,
                               settled: set<Dpid>, u: Dpid, todo: set<Dpid>)
  {
    && prev.Keys == g.switches
    && (forall v :: v in prev ==> Distinct(prev[v]))
    && (forall v, x :: v in prev ==>
          (x in prev[v] <==> Scanned(g, settled, u, todo, x, v) && TightEdge(g, dist, x, v)))
  }

  /** What `_dijkstra_all` returns: the distances, and for each switch exactly its tight predecessors, each once. */
  ghost predicate AllPredecessors(g: Net, src: Dpid, dist: map<Dpid, Dist>, prev: map<Dpid, seq<Dpid>>) {
    && Shape(g, src, dist)
    && (forall v :: v in dist ==> dist[v] == g.Delta(src, v))
    && prev.Keys == g.switches
    && (forall v :: v in prev ==> Distinct(prev[v]))
    && (forall v, x :: v in prev ==> (x in prev[v] <==> TightEdge(g, dist, x, v)))
  }

  // ---------------------------------------------------------------- witnesses

  lemma RelaxKeepsWitness(g: Net, src: Dpid, dist: map<Dpid, Dist>, u: Dpid, v: Dpid)
    requires Witnessed(g, src, dist) && u in dist && dist[u].Fin? && g.Edge(u, v)
    ensures Witnessed(g, src, dist[v := Fin(dist[u].n + g.Weight(u, v))])
  {
    ReachesStep(g, src, u, dist[u].n, v);
  }

  lemma StartWitnessed(g: Net, src: Dpid, dist: map<Dpid, Dist>)
    requires dist == (map d | d in g.switches :: Inf)[src := Fin(0)]
    ensures Witnessed(g, src, dist)
  {
    assert g.WalkBetween(src, src, [src]);
  }

  // ---------------------------------------------------------------- one edge

  lemma ListBetter(g: Net, src: Dpid, dist: map<Dpid, Dist>, prev: map<Dpid, seq<Dpid>>, pq: multiset<Entry>,
                   settled: set<Dpid>, u: Dpid, todo: set<Dpid>, v: Dpid)
    requires g.Valid() && u in settled && u in dist && dist[u].Fin? && v !in settled
    requires QueueInv(g, src, dist, pq, settled, u, todo, dist[u].n)
    requires ScannedLists(g, dist, prev, settled, u, todo)
    requires v in todo && g.Edge(u, v) && v in dist && Less(dist[u].n + g.Weight(u, v), dist[v])
    ensures ScannedLists(g, dist[v := Fin(dist[u].n + g.Weight(u, v))], prev[v := [u]], settled, u, todo - {v})
  {
  }

  lemma ListTie(g: Net, src: Dpid, dist: map<Dpid, Dist>, prev: map<Dpid, seq<Dpid>>,
                settled: set<Dpid>, u: Dpid, todo: set<Dpid>, v: Dpid)
    requires g.Valid() && u in settled && u in dist && dist[u].Fin?
    requires ScannedLists(g, dist, prev, settled, u, todo)
    requires v in todo && g.Edge(u, v) && v in dist && dist[v] == Fin(dist[u].n + g.Weight(u, v))
    ensures ScannedLists(g, dist, prev[v := prev[v] + [u]], settled, u, todo - {v})
  {
    var prev' := prev[v := prev[v] + [u]];
    assert u !in prev[v];
    forall y, x | y in prev'
      ensures x in prev'[y] <==> Scanned(g, settled, u, todo - {v}, x, y) && TightEdge(g, dist, x, y)
    {
      assert x in prev[y] <==> Scanned(g, settled, u, todo, x, y) && TightEdge(g, dist, x, y);
    }
  }

  lemma ListWorse(g: Net, dist: map<Dpid, Dist>, prev: map<Dpid, seq<Dpid>>,
                  settled: set<Dpid>, u: Dpid, todo: set<Dpid>, v: Dpid)
    requires ScannedLists(g, dist, prev, settled, u, todo)
    requires u in dist && dist[u].Fin? && v in dist && dist[v].Fin? && dist[v].n < dist[u].n + g.Weight(u, v)
    ensures ScannedLists(g, dist, prev, settled, u, todo - {v})
  {
  }

  // ---------------------------------------------------------------- the algorithm

  method ScanAllNeighbours(g: Net, src: Dpid, u: Dpid, d: nat, dist0: map<Dpid, Dist>, prev0: map<Dpid, seq<Dpid>>,
                           pq0: multiset<Entry>, ghost settled: set<Dpid>)
    returns (dist: map<Dpid, Dist>, prev: map<Dpid, seq<Dpid>>, pq: multiset<Entry>)
    requires g.Valid() && u in settled && Shape(g, src, dist0) && u in dist0 && dist0[u] == Fin(d)
    requires prev0.Keys == g.switches
    requires QueueInv(g, src, dist0, pq0, settled, u, g.Neighbours(u).Keys, d)
    requires ScannedLists(g, dist0, prev0, settled, u, g.Neighbours(u).Keys)
    requires Witnessed(g, src, dist0)
    ensures QueueInv(g, src, dist, pq, settled, u, {}, d)
    ensures ScannedLists(g, dist, prev, settled, u, {})
    ensures Witnessed(g, src, dist)
  {
    hide QueueInv, ScannedLists, Witnessed;
    dist, prev, pq := dist0, prev0, pq0;
    var todo := g.Neighbours(u).Keys;
    while todo != {}
      invariant todo <= g.Neighbours(u).Keys
      invariant Shape(g, src, dist) && prev.Keys == g.switches && u in dist && dist[u] == Fin(d)
      invariant QueueInv(g, src, dist, pq, settled, u, todo, d)
      invariant ScannedLists(g, dist, prev, settled, u, todo)
      invariant Witnessed(g, src, dist)
      decreases todo
    {
      var v :| v in todo;
      assert g.Edge(u, v);
      var alt := d + g.Weight(u, v);
      if Less(alt, dist[v]) {
        RelaxBetter(g, src, dist, pq, settled, u, todo, v);
        ListBetter(g, src, dist, prev, pq, settled, u, todo, v);
        RelaxKeepsWitness(g, src, dist, u, v);
        dist, prev, pq := dist[v := Fin(alt)], prev[v := [u]], pq + multiset{(alt, v)};
      } else {
        RelaxNoBetter(g, src, dist, pq, settled, u, todo, v);
        if Fin(alt) == dist[v] {
          ListTie(g, src, dist, prev, settled, u, todo, v);
          prev := prev[v := prev[v] + [u]];
        } else {
          ListWorse(g, dist, prev, settled, u, todo, v);
        }
      }
      todo := todo - {v};
    }
  }

  lemma ListsAtPop(g: Net, dist: map<Dpid, Dist>, prev: map<Dpid, seq<Dpid>>, settled: set<Dpid>, u: Dpid, t: Dpid)
    requires ScannedLists(g, dist, prev, settled, u, {}) && t !in settled
    ensures ScannedLists(g, dist, prev, settled + {t}, t, g.Neighbours(t).Keys)
  {
  }

  method DijkstraAll(g: Net, src: Dpid) returns (dist: map<Dpid, Dist>, prev: map<Dpid, seq<Dpid>>)
    requires g.Valid()
    ensures AllPredecessors(g, src, dist, prev)
  {
    hide QueueInv, ScannedLists, Witnessed;
    dist := map d | d in g.switches :: Inf;
    prev := map d | d in g.switches :: [];
    dist := dist[src := Fin(0)];
    var pq: multiset<Entry> := multiset{(0, src)};
    ghost var settled, last := {}, src;
    ghost var key: nat := 0;
    ListsAtStart(g, src, dist, prev);
    while pq != multiset{}
      invariant QueueInv(g, src, dist, pq, settled, last, {}, key)
      invariant ScannedLists(g, dist, prev, settled, last, {})
      invariant Witnessed(g, src, dist)
      decreases (g.switches + {src}) - settled, |pq|
    {
      var top, rest := HeapPop(pq);
      QueueDomains(g, src, dist, prev, pq, settled, last, key, top);
      if Fin(top.0) != dist[top.1] {
        PopStale(g, src, dist, pq, settled, last, key, top);
        pq := rest;
      } else {
        PopCurrent(g, src, dist, pq, settled, last, key, top);
        ListsAtPop(g, dist, prev, settled, last, top.1);
        settled, last, key := settled + {top.1}, top.1, top.0;
        dist, prev, pq := ScanAllNeighbours(g, src, top.1, top.0, dist, prev, rest, settled);
      }
    }
    ListsComplete(g, src, dist, prev, settled, last, key);
  }

  lemma ListsAtStart(g: Net, src: Dpid, dist: map<Dpid, Dist>, prev: map<Dpid, seq<Dpid>>)
    requires dist == (map d | d in g.switches :: Inf)[src := Fin(0)] && prev == map d | d in g.switches :: []
    ensures QueueInv(g, src, dist, multiset{(0, src)}, {}, src, {}, 0)
    ensures ScannedLists(g, dist, prev, {}, src, {}) && Witnessed(g, src, dist)
  {
    QueueStart(g, src, dist);
    StartWitnessed(g, src, dist);
  }

  lemma QueueDomains(g: Net, src: Dpid, dist: map<Dpid, Dist>, prev: map<Dpid, seq<Dpid>>, pq: multiset<Entry>,
                     settled: set<Dpid>, u: Dpid, d: nat, top: Entry)
    requires QueueInv(g, src, dist, pq, settled, u, {}, d) && ScannedLists(g, dist, prev, settled, u, {}) && top in pq
    ensures Shape(g, src, dist) && prev.Keys == g.switches && top.1 in dist && settled <= dist.Keys
  {
  }

  lemma ListsComplete(g: Net, src: Dpid, dist: map<Dpid, Dist>, prev: map<Dpid, seq<Dpid>>,
                      settled: set<Dpid>, u: Dpid, d: nat)
    requires g.Valid() && QueueInv(g, src, dist, multiset{}, settled, u, {}, d)
    requires ScannedLists(g, dist, prev, settled, u, {}) && Witnessed(g, src, dist)
    ensures AllPredecessors(g, src, dist, prev)
  {
    EmptyHeapIsFeasible(g, src, dist, settled, u, d);
    forall v | v in dist ensures dist[v] == g.Delta(src, v) {
      CertificateIsShortest(g, src, dist, v);
    }
    forall v, x | v in prev
      ensures x in prev[v] <==> TightEdge(g, dist, x, v)
    {
      assert x in prev[v] <==> Scanned(g, settled, u, {}, x, v) && TightEdge(g, dist, x, v);
    }
  }

  // ---------------------------------------------------------------- prev enumerates all shortest paths

  /** p leads from the source to its last switch by steps that `prev` allows, read backwards. */
  ghost predicate BackwardWalk(prev: map<Dpid, seq<Dpid>>, src: Dpid, p: seq<Dpid>)
    decreases |p|
  {
    && |p| >= 1
    && (|p| == 1 ==> p[0] == src)
    && (|p| > 1 ==> p[|p| - 1] in prev && p[|p| - 2] in prev[p[|p| - 1]] && BackwardWalk(prev, src, p[..|p| - 1]))
  }

  ghost predicate IsShortestWalk(g: Net, src: Dpid, p: seq<Dpid>) {
    |p| >= 1 && g.WalkBetween(src, p[|p| - 1], p) && g.Delta(src, p[|p| - 1]) == Fin(g.Cost(p))
  }

  /** Every prefix of a shortest walk is shortest. */
  lemma ShortestPrefix(g: Net, src: Dpid, p: seq<Dpid>)
    requires |p| > 1 && IsShortestWalk(g, src, p)
    ensures IsShortestWalk(g, src, p[..|p| - 1])
  {
    var q := p[..|p| - 1];
    var u := q[|q| - 1];
    assert g.WalkBetween(src, u, q);
    DeltaStep(g, src, u, p[|p| - 1]);
  }

  lemma LastEdgeListed(g: Net, src: Dpid, dist: map<Dpid, Dist>, prev: map<Dpid, seq<Dpid>>, p: seq<Dpid>)
    requires g.Valid() && AllPredecessors(g, src, dist, prev) && |p| > 1
    requires IsShortestWalk(g, src, p) && IsShortestWalk(g, src, p[..|p| - 1])
    ensures p[|p| - 1] in prev && p[|p| - 2] in prev[p[|p| - 1]]
  {
    var u, v := p[|p| - 2], p[|p| - 1];
    assert p[..|p| - 1][|p| - 2] == u;
    WalkInSwitches(g, p[..|p| - 1]);
    assert u in dist && v in dist && dist[u] == g.Delta(src, u) && dist[v] == g.Delta(src, v);
    assert TightEdge(g, dist, u, v);
  }

  lemma {:induction false} ShortestIsBackward(g: Net, src: Dpid, dist: map<Dpid, Dist>, prev: map<Dpid, seq<Dpid>>,
                                              p: seq<Dpid>)
    requires g.Valid() && AllPredecessors(g, src, dist, prev) && IsShortestWalk(g, src, p)
    ensures BackwardWalk(prev, src, p)
    decreases |p|
  {
    assert |p| >= 1 && p[0] == src;
    hide AllPredecessors, IsShortestWalk;
    if |p| > 1 {
      ShortestPrefix(g, src, p);
      LastEdgeListed(g, src, dist, prev, p);
      ShortestIsBackward(g, src, dist, prev, p[..|p| - 1]);
    }
  }

  lemma ListedEdgeIsTight(g: Net, src: Dpid, dist: map<Dpid, Dist>, prev: map<Dpid, seq<Dpid>>, u: Dpid, v: Dpid)
    requires AllPredecessors(g, src, dist, prev) && v in prev && u in prev[v]
    ensures g.Edge(u, v) && g.Delta(src, u).Fin? && g.Delta(src, v) == Fin(g.Delta(src, u).n + g.Weight(u, v))
  {
    assert TightEdge(g, dist, u, v);
  }

  /** A listed predecessor extends a shortest walk to a shortest walk. */
  lemma ListedEdgeExtends(g: Net, src: Dpid, dist: map<Dpid, Dist>, prev: map<Dpid, seq<Dpid>>, p: seq<Dpid>)
    requires AllPredecessors(g, src, dist, prev) && |p| > 1 && IsShortestWalk(g, src, p[..|p| - 1])
    requires p[|p| - 1] in prev && p[|p| - 2] in prev[p[|p| - 1]]
    ensures IsShortestWalk(g, src, p)
  {
    hide AllPredecessors, Net.Weight, Net.Edge;
    ListedEdgeIsTight(g, src, dist, prev, p[|p| - 2], p[|p| - 1]);
  }

  lemma {:induction false} BackwardIsShortest(g: Net, src: Dpid, dist: map<Dpid, Dist>, prev: map<Dpid, seq<Dpid>>,
                                              p: seq<Dpid>)
    requires g.Valid() && AllPredecessors(g, src, dist, prev) && BackwardWalk(prev, src, p)
    ensures IsShortestWalk(g, src, p)
    decreases |p|
  {
    hide AllPredecessors;
    if |p| == 1 {
      DeltaSelf(g, src);
    } else {
      var q := p[..|p| - 1];
      BackwardIsShortest(g, src, dist, prev, q);
      ListedEdgeExtends(g, src, dist, prev, p);
    }
  }

  /** The backward walks through `prev` are exactly the shortest walks from the source. */
  lemma BackwardWalksAreShortest(g: Net, src: Dpid, dist: map<Dpid, Dist>, prev: map<Dpid, seq<Dpid>>, p: seq<Dpid>)
    requires g.Valid() && AllPredecessors(g, src, dist, prev)
    ensures BackwardWalk(prev, src, p) <==> IsShortestWalk(g, src, p)
  {
    if BackwardWalk(prev, src, p) {
      BackwardIsShortest(g, src, dist, prev, p);
    }
    if IsShortestWalk(g, src, p) {
      ShortestIsBackward(g, src, dist, prev, p);
    }
  }
}
