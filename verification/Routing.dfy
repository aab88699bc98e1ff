/**
The shortest-path computations of controller.py. A Python dict is iterated in an arbitrary
order here, so every result holds whatever the insertion order was. The heap is a multiset
from which the least pair is popped.
*/
module Routing {
  import opened Wrappers
  import opened Graph

  type Entry = (nat, Dpid)

  /** Python's order on the pairs kept in the heap. */
  predicate EntryLe(a: Entry, b: Entry) {
    a.0 < b.0 || (a.0 == b.0 && a.1 <= b.1)
  }

  datatype Algorithm = AlgDijkstra | AlgBellmanFord

  // ---------------------------------------------------------------- the result both algorithms promise

  /** Every `prev` pointer is a tight edge, and only the source and unreachable switches have none. */
  ghost predicate TightTree(g: Net, src: Dpid, dist: map<Dpid, Dist>, prev: map<Dpid, Option<Dpid>>) {
    forall v :: v in prev && v in dist ==>
      match prev[v]
      case None => v == src || dist[v] == Inf
      case Some(u) =>
        && v != src && u in dist && g.Edge(u, v) && dist[u].Fin?
        && dist[v] == Fin(dist[u].n + g.Weight(u, v))
  }

  ghost predicate Shape(g: Net, src: Dpid, dist: map<Dpid, Dist>) {
    dist.Keys == g.switches + {src} && dist[src] == Fin(0)
  }

  ghost predicate ShortestTree(g: Net, src: Dpid, dist: map<Dpid, Dist>, prev: map<Dpid, Option<Dpid>>) {
    && Shape(g, src, dist)
    && prev.Keys == g.switches
    && (forall v :: v in dist ==> dist[v] == g.Delta(src, v))
    && TightTree(g, src, dist, prev)
  }

  /** The path from the source to v that the `prev` pointers spell. */
  ghost function TreePath(g: Net, src: Dpid, dist: map<Dpid, Dist>, prev: map<Dpid, Option<Dpid>>, v: Dpid): seq<Dpid>
    requires g.Valid() && Shape(g, src, dist) && prev.Keys == g.switches && TightTree(g, src, dist, prev)
    requires v in dist && dist[v].Fin?
    decreases dist[v].n
  {
    if v == src then [src] else TreePath(g, src, dist, prev, prev[v].value) + [v]
  }

  lemma TreePathUnfolds(g: Net, src: Dpid, dist: map<Dpid, Dist>, prev: map<Dpid, Option<Dpid>>, v: Dpid)
    requires g.Valid() && Shape(g, src, dist) && prev.Keys == g.switches && TightTree(g, src, dist, prev)
    requires v in dist && v != src && dist[v].Fin?
    ensures v in prev && prev[v].Some?
    ensures var u := prev[v].value;
            && u in dist && dist[u].Fin? && g.Edge(u, v) && dist[v].n == dist[u].n + g.Weight(u, v) &&
               dist[u].n < dist[v].n
            && TreePath(g, src, dist, prev, v) == TreePath(g, src, dist, prev, u) + [v]
  {
  }

  /** That path is a walk whose cost is the recorded distance. */
  lemma {:induction false} TreePathIsWalk(g: Net, src: Dpid, dist: map<Dpid, Dist>, prev: map<Dpid, Option<Dpid>>,
                                          v: Dpid)
    requires g.Valid() && Shape(g, src, dist) && prev.Keys == g.switches && TightTree(g, src, dist, prev)
    requires v in dist && dist[v].Fin?
    ensures g.WalkBetween(src, v, TreePath(g, src, dist, prev, v))
    ensures g.Cost(TreePath(g, src, dist, prev, v)) == dist[v].n
    decreases dist[v].n
  {
    if v != src {
      var u := prev[v].value;
      TreePathIsWalk(g, src, dist, prev, u);
      WalkSnoc(g, src, u, TreePath(g, src, dist, prev, u), v);
    }
  }

  /** Distances increase strictly along it, so it visits no switch twice. */
  lemma {:induction false} TreePathIsSimple(g: Net, src: Dpid, dist: map<Dpid, Dist>, prev: map<Dpid, Option<Dpid>>,
                                            v: Dpid)
    requires g.Valid() && Shape(g, src, dist) && prev.Keys == g.switches && TightTree(g, src, dist, prev)
    requires v in dist && dist[v].Fin?
    ensures forall x :: x in TreePath(g, src, dist, prev, v) ==> x in dist && AtMost(dist[x], dist[v]) && dist[x].Fin?
    ensures Distinct(TreePath(g, src, dist, prev, v))
    decreases dist[v].n
  {
    if v != src {
      TreePathUnfolds(g, src, dist, prev, v);
      hide TightTree, TreePath, Shape, Distinct, Net.Valid, Net.Edge, Net.Weight;
      var u := prev[v].value;
      TreePathIsSimple(g, src, dist, prev, u);
      DistinctSnoc(TreePath(g, src, dist, prev, u), v);
    }
  }

  lemma TightTreeIsWitnessed(g: Net, src: Dpid, dist: map<Dpid, Dist>, prev: map<Dpid, Option<Dpid>>)
    requires g.Valid() && Shape(g, src, dist) && prev.Keys == g.switches && TightTree(g, src, dist, prev)
    ensures Witnessed(g, src, dist)
  {
    forall v | v in dist && dist[v].Fin?
      ensures g.Reaches(src, v, dist[v].n)
    {
      TreePathIsWalk(g, src, dist, prev, v);
    }
  }

  // ---------------------------------------------------------------- heapq.heappop

  lemma {:induction false} LeastEntryExists(pq: multiset<Entry>) returns (top: Entry)
    requires pq != multiset{}
    ensures top in pq && forall e :: e in pq ==> EntryLe(top, e)
    decreases |pq|
  {
    var x :| x in pq;
    var rest := pq - multiset{x};
    top := x;
    if rest != multiset{} {
      var y := LeastEntryExists(rest);
      top := if EntryLe(x, y) then x else y;
    }
    forall e | e in pq ensures EntryLe(top, e) {
      if e != x { assert e in rest; }
    }
  }

  method HeapPop(pq: multiset<Entry>) returns (top: Entry, rest: multiset<Entry>)
    requires pq != multiset{}
    ensures top in pq && rest == pq - multiset{top}
    ensures forall e :: e in pq ==> EntryLe(top, e)
  {
    ghost var least := LeastEntryExists(pq);
    top :| top in pq && forall e :: e in pq ==> EntryLe(top, e);
    rest := pq - multiset{top};
  }

  // ---------------------------------------------------------------- Dijkstra with lazy deletion

  /** u's edge to v has been relaxed: u was settled earlier, or is being scanned and has passed v. */
  ghost predicate Scanned(g: Net, settled: set<Dpid>, u: Dpid, todo: set<Dpid>, x: Dpid, v: Dpid) {
    g.Edge(x, v) && x in settled && (x == u ==> v !in todo)
  }

  /**
  The heap and the distances. `settled` holds the switches already popped at their distance;
  `todo` the neighbours of u not yet relaxed (empty between pops), `d` the last key popped.
  */
  ghost predicate QueueInv(g: Net, src: Dpid, dist: map<Dpid, Dist>, pq: multiset<Entry>,
                           settled: set<Dpid>, u: Dpid, todo: set<Dpid>, d: nat)
  {
    && Shape(g, src, dist) && settled <= dist.Keys
    && (forall e :: e in pq ==> e.1 in dist && dist[e.1].Fin? && dist[e.1].n <= e.0 && d <= e.0)
    && (forall v :: v in settled ==> dist[v].Fin? && dist[v].n <= d && (dist[v].n, v) !in pq)
    && (forall v :: v in dist && dist[v].Fin? && v !in settled ==> pq[(dist[v].n, v)] == 1)
    && (forall x, v :: Scanned(g, settled, u, todo, x, v) ==>
          v in dist && dist[v].Fin? && dist[v].n <= dist[x].n + g.Weight(x, v))
  }

  ghost predicate SettledTree(g: Net, src: Dpid, dist: map<Dpid, Dist>, prev: map<Dpid, Option<Dpid>>,
                              settled: set<Dpid>) {
    && prev.Keys == g.switches
    && TightTree(g, src, dist, prev)
    && forall v :: v in prev && prev[v].Some? ==> prev[v].value in settled
  }

  lemma QueueStart(g: Net, src: Dpid, dist: map<Dpid, Dist>)
    requires dist == (map d | d in g.switches :: Inf)[src := Fin(0)]
    ensures QueueInv(g, src, dist, multiset{(0, src)}, {}, src, {}, 0)
  {
  }

  /** Popping a stale pair changes nothing but the heap. */
  lemma PopStale(g: Net, src: Dpid, dist: map<Dpid, Dist>, pq: multiset<Entry>, settled: set<Dpid>,
                 u: Dpid, d: nat, top: Entry)
    requires QueueInv(g, src, dist, pq, settled, u, {}, d)
    requires top in pq && (forall e :: e in pq ==> EntryLe(top, e)) && dist[top.1] != Fin(top.0)
    ensures QueueInv(g, src, dist, pq - multiset{top}, settled, u, {}, d)
  {
  }

  /** Popping a pair at its distance settles a new switch. */
  lemma PopCurrent(g: Net, src: Dpid, dist: map<Dpid, Dist>, pq: multiset<Entry>, settled: set<Dpid>,
                   u: Dpid, d: nat, top: Entry)
    requires QueueInv(g, src, dist, pq, settled, u, {}, d)
    requires top in pq && (forall e :: e in pq ==> EntryLe(top, e)) && dist[top.1] == Fin(top.0)
    ensures top.1 !in settled
    ensures QueueInv(g, src, dist, pq - multiset{top}, settled + {top.1}, top.1, g.Neighbours(top.1).Keys, top.0)
  {
  }

  /** Lowering v leaves every edge relaxed that was, and relaxes u -> v. */
  lemma RelaxedEdges(g: Net, dist: map<Dpid, Dist>, settled: set<Dpid>, u: Dpid, todo: set<Dpid>, v: Dpid)
    requires settled <= dist.Keys && (forall x :: x in settled ==> dist[x].Fin?) && u in settled && v in dist &&
             v !in settled
    requires forall x, y :: Scanned(g, settled, u, todo, x, y) ==>
             y in dist && dist[y].Fin? && dist[y].n <= dist[x].n + g.Weight(x, y)
    requires Less(dist[u].n + g.Weight(u, v), dist[v])
    ensures var dist' := dist[v := Fin(dist[u].n + g.Weight(u, v))];
            forall x, y :: Scanned(g, settled, u, todo - {v}, x, y) ==>
              y in dist' && dist'[y].Fin? && dist'[y].n <= dist'[x].n + g.Weight(x, y)
  {
    hide Net.Weight;
    var dist' := dist[v := Fin(dist[u].n + g.Weight(u, v))];
    forall x, y | Scanned(g, settled, u, todo - {v}, x, y)
      ensures y in dist' && dist'[y].Fin? && dist'[y].n <= dist'[x].n + g.Weight(x, y)
    {
      assert y != v || x != u ==> Scanned(g, settled, u, todo, x, y);
    }
  }

  /** Relaxing the edge u -> v when it does improve v. */
  lemma RelaxBetter(g: Net, src: Dpid, dist: map<Dpid, Dist>, pq: multiset<Entry>, settled: set<Dpid>,
                    u: Dpid, todo: set<Dpid>, v: Dpid)
    requires g.Valid() && u in settled && u in dist && dist[u].Fin?
    requires QueueInv(g, src, dist, pq, settled, u, todo, dist[u].n)
    requires v in todo && g.Edge(u, v) && v in dist && Less(dist[u].n + g.Weight(u, v), dist[v])
    ensures var alt := dist[u].n + g.Weight(u, v);
            QueueInv(g, src, dist[v := Fin(alt)], pq + multiset{(alt, v)}, settled, u, todo - {v}, dist[u].n)
    ensures v !in settled
  {
    PositiveWeight(g, u, v);
    hide Net.Weight, Net.Edge, Net.Valid;
    RelaxedEdges(g, dist, settled, u, todo, v);
    hide Scanned;
    assert (dist[u].n + g.Weight(u, v), v) !in pq;
  }

  lemma PositiveWeight(g: Net, u: Dpid, v: Dpid)
    requires g.Valid()
    ensures g.Weight(u, v) >= 1
  {
  }

  lemma RelaxNoBetter(g: Net, src: Dpid, dist: map<Dpid, Dist>, pq: multiset<Entry>, settled: set<Dpid>,
                      u: Dpid, todo: set<Dpid>, v: Dpid)
    requires g.Valid() && u in settled && u in dist && dist[u].Fin?
    requires QueueInv(g, src, dist, pq, settled, u, todo, dist[u].n)
    requires v in todo && g.Edge(u, v) && v in dist && !Less(dist[u].n + g.Weight(u, v), dist[v])
    ensures QueueInv(g, src, dist, pq, settled, u, todo - {v}, dist[u].n)
  {
  }

  /** An empty heap means that every reached switch was settled and no edge can be relaxed. */
  lemma EmptyHeapIsFeasible(g: Net, src: Dpid, dist: map<Dpid, Dist>, settled: set<Dpid>, u: Dpid, d: nat)
    requires g.Valid() && QueueInv(g, src, dist, multiset{}, settled, u, {}, d)
    ensures Feasible(g, dist)
    ensures forall v :: v in dist && dist[v].Fin? ==> v in settled
  {
  }

  lemma TightRelaxed(g: Net, src: Dpid, dist: map<Dpid, Dist>, prev: map<Dpid, Option<Dpid>>, u: Dpid, v: Dpid,
                     alt: nat)
    requires TightTree(g, src, dist, prev) && u in dist && dist[u].Fin? && u != v && v != src
    requires g.Edge(u, v) && alt == dist[u].n + g.Weight(u, v) && forall y :: y in prev && prev[y].Some? ==>
             prev[y].value != v
    ensures TightTree(g, src, dist[v := Fin(alt)], prev[v := Some(u)])
  {
    hide Net.Weight, Net.Edge;
  }

  lemma TreeRelax(g: Net, src: Dpid, dist: map<Dpid, Dist>, prev: map<Dpid, Option<Dpid>>, settled: set<Dpid>,
                  u: Dpid, v: Dpid)
    requires g.Valid() && Shape(g, src, dist) && SettledTree(g, src, dist, prev, settled)
    requires u in settled && u in dist && dist[u].Fin? && v !in settled
    requires g.Edge(u, v) && v in dist && Less(dist[u].n + g.Weight(u, v), dist[v])
    ensures SettledTree(g, src, dist[v := Fin(dist[u].n + g.Weight(u, v))], prev[v := Some(u)], settled)
  {
    hide Net.Weight, Net.Edge, Net.Valid, TightTree;
    EdgeEnds(g, u, v);
    forall y | y in prev && prev[y].Some? ensures prev[y].value != v {
      assert prev[y].value in settled;
    }
    TightRelaxed(g, src, dist, prev, u, v, dist[u].n + g.Weight(u, v));
  }

  lemma EdgeEnds(g: Net, u: Dpid, v: Dpid)
    requires g.Valid() && g.Edge(u, v)
    ensures u in g.switches && v in g.switches
  {
  }

  // ---------------------------------------------------------------- which predecessor is kept

  /** The last edge of some shortest walk to v is x -> v. */
  ghost predicate TightEdge(g: Net, dist: map<Dpid, Dist>, x: Dpid, v: Dpid) {
    x in dist && v in dist && g.Edge(x, v) && dist[x].Fin? && dist[v] == Fin(dist[x].n + g.Weight(x, v))
  }

  /** u comes no later than x in the order in which the heap gives switches up. */
  predicate NoLater(dist: map<Dpid, Dist>, u: Dpid, x: Dpid) {
    && u in dist && x in dist && dist[u].Fin? && dist[x].Fin?
    && (dist[u].n < dist[x].n || (dist[u].n == dist[x].n && u <= x))
  }

  /** Switches are settled in the heap's order. */
  ghost predicate SettledInOrder(dist: map<Dpid, Dist>, pq: multiset<Entry>, settled: set<Dpid>, u: Dpid) {
    && (forall x, e :: x in settled && e in pq ==> x in dist && dist[x].Fin? && EntryLe((dist[x].n, x), e))
    && (forall x :: x in settled && u in settled ==> NoLater(dist, x, u))
  }

  /** Each `prev` pointer is the first tight predecessor among those scanned so far. */
  ghost predicate FirstScanned(g: Net, dist: map<Dpid, Dist>, prev: map<Dpid, Option<Dpid>>, settled: set<Dpid>,
                               u: Dpid, todo: set<Dpid>) {
    forall v, x :: v in prev && prev[v].Some? && Scanned(g, settled, u, todo, x, v) && TightEdge(g, dist, x, v) ==>
      NoLater(dist, prev[v].value, x)
  }

  ghost predicate FirstSoFar(g: Net, dist: map<Dpid, Dist>, prev: map<Dpid, Option<Dpid>>, pq: multiset<Entry>,
                             settled: set<Dpid>, u: Dpid, todo: set<Dpid>)
  {
    SettledInOrder(dist, pq, settled, u) && FirstScanned(g, dist, prev, settled, u, todo)
  }

  /** Every `prev` pointer is the least tight predecessor, by distance and then by switch number. */
  ghost predicate FirstPredecessors(g: Net, dist: map<Dpid, Dist>, prev: map<Dpid, Option<Dpid>>) {
    forall v, x :: v in prev && prev[v].Some? && TightEdge(g, dist, x, v) ==> NoLater(dist, prev[v].value, x)
  }

  lemma FirstPopStale(g: Net, dist: map<Dpid, Dist>, prev: map<Dpid, Option<Dpid>>, pq: multiset<Entry>,
                      settled: set<Dpid>, u: Dpid, top: Entry)
    requires FirstSoFar(g, dist, prev, pq, settled, u, {})
    ensures FirstSoFar(g, dist, prev, pq - multiset{top}, settled, u, {})
  {
  }

  lemma FirstPopCurrent(g: Net, dist: map<Dpid, Dist>, prev: map<Dpid, Option<Dpid>>, pq: multiset<Entry>,
                        settled: set<Dpid>, u: Dpid, top: Entry)
    requires FirstSoFar(g, dist, prev, pq, settled, u, {}) && top.1 !in settled
    requires top in pq && (forall e :: e in pq ==> EntryLe(top, e)) && top.1 in dist && dist[top.1] == Fin(top.0)
    ensures FirstSoFar(g, dist, prev, pq - multiset{top}, settled + {top.1}, top.1, g.Neighbours(top.1).Keys)
  {
    forall v, x | v in prev && prev[v].Some? && Scanned(g, settled + {top.1}, top.1, g.Neighbours(top.1).Keys, x, v) &&
      TightEdge(g, dist, x, v)
      ensures NoLater(dist, prev[v].value, x)
    {
      assert Scanned(g, settled, u, {}, x, v);
    }
  }

  /** What a relaxation needs to know about the queue and the tree. */
  ghost predicate RelaxReady(g: Net, dist: map<Dpid, Dist>, prev: map<Dpid, Option<Dpid>>, settled: set<Dpid>, u: Dpid,
                             todo: set<Dpid>) {
    && u in dist && dist[u].Fin? && settled <= dist.Keys
    && (forall x :: x in settled ==> dist[x].Fin? && dist[x].n <= dist[u].n)
    && (forall x, y :: Scanned(g, settled, u, todo, x, y) ==>
        y in dist && dist[y].Fin? && dist[y].n <= dist[x].n + g.Weight(x, y))
    && (forall y :: y in prev && prev[y].Some? ==> prev[y].value in settled)
  }

  lemma ReadyToRelax(g: Net, src: Dpid, dist: map<Dpid, Dist>, prev: map<Dpid, Option<Dpid>>, pq: multiset<Entry>,
                     settled: set<Dpid>, u: Dpid, todo: set<Dpid>)
    requires u in dist && dist[u].Fin? && QueueInv(g, src, dist, pq, settled, u, todo, dist[u].n) &&
             SettledTree(g, src, dist, prev, settled)
    ensures RelaxReady(g, dist, prev, settled, u, todo)
  {
    hide TightTree, Scanned;
  }

  lemma OrderRelaxed(dist: map<Dpid, Dist>, pq: multiset<Entry>, settled: set<Dpid>, u: Dpid, v: Dpid, alt: nat)
    requires SettledInOrder(dist, pq, settled, u) && u in settled && v !in settled && u in dist && dist[u].Fin? &&
             dist[u].n < alt
    ensures SettledInOrder(dist[v := Fin(alt)], pq + multiset{(alt, v)}, settled, u)
  {
    forall x | x in settled ensures EntryLe((dist[x].n, x), (alt, v)) {
      assert NoLater(dist, x, u);
    }
  }

  lemma FirstRelaxed(g: Net, dist: map<Dpid, Dist>, prev: map<Dpid, Option<Dpid>>, settled: set<Dpid>, u: Dpid,
                     todo: set<Dpid>, v: Dpid)
    requires RelaxReady(g, dist, prev, settled, u, todo) && FirstScanned(g, dist, prev, settled, u, todo)
    requires u in settled && v !in settled && v in dist && Less(dist[u].n + g.Weight(u, v), dist[v])
    ensures FirstScanned(g, dist[v := Fin(dist[u].n + g.Weight(u, v))], prev[v := Some(u)], settled, u, todo - {v})
  {
    hide Net.Weight;
    var dist', prev' := dist[v := Fin(dist[u].n + g.Weight(u, v))], prev[v := Some(u)];
    forall y, x | y in prev' && prev'[y].Some? && Scanned(g, settled, u, todo - {v}, x, y) && TightEdge(g, dist', x, y)
      ensures NoLater(dist', prev'[y].value, x)
    {
      if y != v {
        assert Scanned(g, settled, u, todo, x, y) && TightEdge(g, dist, x, y);
      }
    }
  }

  lemma FirstRelaxBetter(g: Net, src: Dpid, dist: map<Dpid, Dist>, prev: map<Dpid, Option<Dpid>>, pq: multiset<Entry>,
                         settled: set<Dpid>, u: Dpid, todo: set<Dpid>, v: Dpid)
    requires g.Valid() && u in settled && u in dist && dist[u].Fin? && v !in settled
    requires QueueInv(g, src, dist, pq, settled, u, todo, dist[u].n) && FirstSoFar(g, dist, prev, pq, settled, u, todo)
    requires SettledTree(g, src, dist, prev, settled)
    requires v in dist && Less(dist[u].n + g.Weight(u, v), dist[v])
    ensures var alt := dist[u].n + g.Weight(u, v);
            FirstSoFar(g, dist[v := Fin(alt)], prev[v := Some(u)], pq + multiset{(alt, v)}, settled, u, todo - {v})
  {
    hide QueueInv, SettledTree, SettledInOrder, FirstScanned, RelaxReady, Net.Weight, Net.Valid;
    PositiveWeight(g, u, v);
    ReadyToRelax(g, src, dist, prev, pq, settled, u, todo);
    OrderRelaxed(dist, pq, settled, u, v, dist[u].n + g.Weight(u, v));
    FirstRelaxed(g, dist, prev, settled, u, todo, v);
  }

  lemma FirstRelaxNoBetter(g: Net, src: Dpid, dist: map<Dpid, Dist>, prev: map<Dpid, Option<Dpid>>, pq: multiset<Entry>,
                           settled: set<Dpid>, u: Dpid, todo: set<Dpid>, v: Dpid)
    requires u in settled && SettledTree(g, src, dist, prev, settled) && FirstSoFar(g, dist, prev, pq, settled, u, todo)
    ensures FirstSoFar(g, dist, prev, pq, settled, u, todo - {v})
  {
    forall y, x | y in prev && prev[y].Some? && Scanned(g, settled, u, todo - {v}, x, y) && TightEdge(g, dist, x, y)
      ensures NoLater(dist, prev[y].value, x)
    {
      if x != u {
        assert Scanned(g, settled, u, todo, x, y);
      }
    }
  }

  lemma FirstAtEnd(g: Net, src: Dpid, dist: map<Dpid, Dist>, prev: map<Dpid, Option<Dpid>>, settled: set<Dpid>, u: Dpid,
                   d: nat)
    requires g.Valid() && QueueInv(g, src, dist, multiset{}, settled, u, {}, d)
    requires FirstSoFar(g, dist, prev, multiset{}, settled, u, {})
    ensures FirstPredecessors(g, dist, prev)
  {
    EmptyHeapIsFeasible(g, src, dist, settled, u, d);
    forall v, x | v in prev && prev[v].Some? && TightEdge(g, dist, x, v) ensures NoLater(dist, prev[v].value, x) {
      assert Scanned(g, settled, u, {}, x, v);
    }
  }

  /** The distances and the rule for choosing among tight predecessors leave one result only. */
  lemma FirstTreeIsUnique(g: Net, src: Dpid, dist: map<Dpid, Dist>, prev: map<Dpid, Option<Dpid>>,
                          dist': map<Dpid, Dist>, prev': map<Dpid, Option<Dpid>>)
    requires ShortestTree(g, src, dist, prev) && FirstPredecessors(g, dist, prev)
    requires ShortestTree(g, src, dist', prev') && FirstPredecessors(g, dist', prev')
    ensures dist == dist' && prev == prev'
  {
    assert dist == dist';
    hide FirstPredecessors, Net.Delta;
    forall v | v in prev ensures prev[v] == prev'[v] {
      SamePredecessor(g, src, dist, prev, prev', v);
    }
  }

  lemma SamePredecessor(g: Net, src: Dpid, dist: map<Dpid, Dist>, prev: map<Dpid, Option<Dpid>>,
                        prev': map<Dpid, Option<Dpid>>, v: Dpid)
    requires TightTree(g, src, dist, prev) && FirstPredecessors(g, dist, prev) && v in prev && v in dist
    requires TightTree(g, src, dist, prev') && FirstPredecessors(g, dist, prev') && v in prev'
    ensures prev[v] == prev'[v]
  {
    hide TightTree, FirstPredecessors, TightEdge;
    PointerIsTight(g, src, dist, prev, v);
    PointerIsTight(g, src, dist, prev', v);
    if prev[v].Some? {
      PointerIsFirst(g, dist, prev, v, prev'[v].value);
      PointerIsFirst(g, dist, prev', v, prev[v].value);
    }
  }

  lemma PointerIsTight(g: Net, src: Dpid, dist: map<Dpid, Dist>, prev: map<Dpid, Option<Dpid>>, v: Dpid)
    requires TightTree(g, src, dist, prev) && v in prev && v in dist
    ensures prev[v].Some? <==> v != src && dist[v].Fin?
    ensures prev[v].Some? ==> TightEdge(g, dist, prev[v].value, v)
  {
    hide Net.Weight, Net.Edge;
  }

  lemma PointerIsFirst(g: Net, dist: map<Dpid, Dist>, prev: map<Dpid, Option<Dpid>>, v: Dpid, x: Dpid)
    requires FirstPredecessors(g, dist, prev) && v in prev && prev[v].Some? && TightEdge(g, dist, x, v)
    ensures NoLater(dist, prev[v].value, x)
  {
    hide TightEdge;
  }

  lemma DomainsOf(g: Net, src: Dpid, dist: map<Dpid, Dist>, prev: map<Dpid, Option<Dpid>>, pq: multiset<Entry>,
                  settled: set<Dpid>, u: Dpid, todo: set<Dpid>, d: nat)
    requires QueueInv(g, src, dist, pq, settled, u, todo, d) && SettledTree(g, src, dist, prev, settled)
    ensures Shape(g, src, dist)
  {
  }

  /** The inner loop of `_dijkstra`: relax every edge out of the switch u just settled at distance d. */
  method ScanNeighbours(g: Net, src: Dpid, u: Dpid, d: nat, dist0: map<Dpid, Dist>, prev0: map<Dpid, Option<Dpid>>,
                        pq0: multiset<Entry>, ghost settled: set<Dpid>)
    returns (dist: map<Dpid, Dist>, prev: map<Dpid, Option<Dpid>>, pq: multiset<Entry>)
    requires g.Valid() && u in settled && u in dist0 && dist0[u] == Fin(d)
    requires QueueInv(g, src, dist0, pq0, settled, u, g.Neighbours(u).Keys, d)
    requires SettledTree(g, src, dist0, prev0, settled) &&
             FirstSoFar(g, dist0, prev0, pq0, settled, u, g.Neighbours(u).Keys)
    ensures QueueInv(g, src, dist, pq, settled, u, {}, d)
    ensures SettledTree(g, src, dist, prev, settled) && FirstSoFar(g, dist, prev, pq, settled, u, {})
  {
    hide QueueInv, SettledTree, FirstSoFar;
    dist, prev, pq := dist0, prev0, pq0;
    var todo := g.Neighbours(u).Keys;
    DomainsOf(g, src, dist, prev, pq, settled, u, todo, d);
    while todo != {}
      invariant todo <= g.Neighbours(u).Keys
      invariant Shape(g, src, dist) && u in dist && dist[u] == Fin(d)
      invariant QueueInv(g, src, dist, pq, settled, u, todo, d)
      invariant SettledTree(g, src, dist, prev, settled) && FirstSoFar(g, dist, prev, pq, settled, u, todo)
      decreases todo
    {
      var v :| v in todo;
      assert g.Edge(u, v);
      var alt := d + g.Weight(u, v);
      if Less(alt, dist[v]) {
        RelaxBetter(g, src, dist, pq, settled, u, todo, v);
        FirstRelaxBetter(g, src, dist, prev, pq, settled, u, todo, v);
        TreeRelax(g, src, dist, prev, settled, u, v);
        dist, prev, pq := dist[v := Fin(alt)], prev[v := Some(u)], pq + multiset{(alt, v)};
      } else {
        RelaxNoBetter(g, src, dist, pq, settled, u, todo, v);
        FirstRelaxNoBetter(g, src, dist, prev, pq, settled, u, todo, v);
      }
      todo := todo - {v};
    }
  }

  /**
  Whatever order the neighbours are visited in, the result is the same: the first predecessors in the heap's order.
  */
  method Dijkstra(g: Net, src: Dpid) returns (dist: map<Dpid, Dist>, prev: map<Dpid, Option<Dpid>>)
    requires g.Valid()
    ensures ShortestTree(g, src, dist, prev) && FirstPredecessors(g, dist, prev)
  {
    hide QueueInv, SettledTree, FirstSoFar;
    dist := map d | d in g.switches :: Inf;
    prev := map d | d in g.switches :: None;
    dist := dist[src := Fin(0)];
    var pq: multiset<Entry> := multiset{(0, src)};
    ghost var settled, last := {}, src;
    ghost var key: nat := 0;
    Start(g, src, dist, prev);
    while pq != multiset{}
      invariant QueueInv(g, src, dist, pq, settled, last, {}, key)
      invariant SettledTree(g, src, dist, prev, settled) && FirstSoFar(g, dist, prev, pq, settled, last, {})
      decreases (g.switches + {src}) - settled, |pq|
    {
      var top, rest := HeapPop(pq);
      EntryKnown(g, src, dist, pq, settled, last, key, top);
      if Fin(top.0) != dist[top.1] {
        PopStale(g, src, dist, pq, settled, last, key, top);
        FirstPopStale(g, dist, prev, pq, settled, last, top);
        pq := rest;
      } else {
        PopCurrent(g, src, dist, pq, settled, last, key, top);
        FirstPopCurrent(g, dist, prev, pq, settled, last, top);
        MoreSettled(g, src, dist, prev, settled, top.1);
        settled, last, key := settled + {top.1}, top.1, top.0;
        dist, prev, pq := ScanNeighbours(g, src, top.1, top.0, dist, prev, rest, settled);
      }
    }
    FirstAtEnd(g, src, dist, prev, settled, last, key);
    FinishTree(g, src, dist, prev, settled, last, key);
  }

  lemma Start(g: Net, src: Dpid, dist: map<Dpid, Dist>, prev: map<Dpid, Option<Dpid>>)
    requires dist == (map d | d in g.switches :: Inf)[src := Fin(0)] && prev == map d | d in g.switches :: None
    ensures QueueInv(g, src, dist, multiset{(0, src)}, {}, src, {}, 0)
    ensures SettledTree(g, src, dist, prev, {}) && FirstSoFar(g, dist, prev, multiset{(0, src)}, {}, src, {})
  {
    QueueStart(g, src, dist);
  }

  lemma EntryKnown(g: Net, src: Dpid, dist: map<Dpid, Dist>, pq: multiset<Entry>, settled: set<Dpid>, u: Dpid, d: nat,
                   top: Entry)
    requires QueueInv(g, src, dist, pq, settled, u, {}, d) && top in pq
    ensures top.1 in dist && dist.Keys == g.switches + {src} && settled <= dist.Keys
  {
  }

  lemma MoreSettled(g: Net, src: Dpid, dist: map<Dpid, Dist>, prev: map<Dpid, Option<Dpid>>, settled: set<Dpid>,
                    u: Dpid)
    requires SettledTree(g, src, dist, prev, settled)
    ensures SettledTree(g, src, dist, prev, settled + {u})
  {
  }

  lemma FinishTree(g: Net, src: Dpid, dist: map<Dpid, Dist>, prev: map<Dpid, Option<Dpid>>,
                   settled: set<Dpid>, u: Dpid, d: nat)
    requires g.Valid() && QueueInv(g, src, dist, multiset{}, settled, u, {}, d)
    requires SettledTree(g, src, dist, prev, settled)
    ensures ShortestTree(g, src, dist, prev)
  {
    EmptyHeapIsFeasible(g, src, dist, settled, u, d);
    TightTreeIsWitnessed(g, src, dist, prev);
    forall v | v in dist ensures dist[v] == g.Delta(src, v) {
      CertificateIsShortest(g, src, dist, v);
    }
  }
}
