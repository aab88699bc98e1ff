/** `_get_next_hop` and `_build_path` of controller.py: reading a route out of the `prev` pointers. */
module Paths {
  import opened Wrappers
  import opened Graph
  import opened Routing
  import opened BellmanFord

  function Get(prev: map<Dpid, Option<Dpid>>, v: Dpid): Option<Dpid> {
    if v in prev then prev[v] else None
  }

  /** The port is one towards a neighbour that lies on a shortest path from u to t. */
  ghost predicate IsNextHop(g: Net, u: Dpid, t: Dpid, port: Port) {
    exists v :: NextHopVia(g, u, t, port, v)
  }

  ghost predicate NextHopVia(g: Net, u: Dpid, t: Dpid, port: Port, v: Dpid) {
    && g.Edge(u, v) && g.Neighbours(u)[v] == port
    && g.Delta(v, t).Fin?
    && g.Delta(u, t) == Fin(g.Weight(u, v) + g.Delta(v, t).n)
  }

  /** What the configured algorithm returns: a shortest tree, fixed by the graph and the order of the dictionaries. */
  ghost predicate IsTreeOf(g: Net, alg: Algorithm, o: Order, src: Dpid, dist: map<Dpid, Dist>,
                           prev: map<Dpid, Option<Dpid>>) {
    && ShortestTree(g, src, dist, prev)
    && if alg == AlgBellmanFord then BellmanFord.Labels(dist, prev) == BellmanFord.AllRounds(g, o, src)
      else FirstPredecessors(g, dist, prev)
  }

  lemma TreeOfIsShortest(g: Net, alg: Algorithm, o: Order, src: Dpid, dist: map<Dpid, Dist>,
                         prev: map<Dpid, Option<Dpid>>)
    requires IsTreeOf(g, alg, o, src, dist, prev)
    ensures ShortestTree(g, src, dist, prev)
  {
  }

  /** Running it again on the same state gives the same result. */
  lemma TreeOfIsUnique(g: Net, alg: Algorithm, o: Order, src: Dpid, dist: map<Dpid, Dist>,
                       prev: map<Dpid, Option<Dpid>>, dist': map<Dpid, Dist>, prev': map<Dpid, Option<Dpid>>)
    requires IsTreeOf(g, alg, o, src, dist, prev) && IsTreeOf(g, alg, o, src, dist', prev')
    ensures dist == dist' && prev == prev'
  {
    if alg == AlgDijkstra {
      FirstTreeIsUnique(g, src, dist, prev, dist', prev');
    }
  }

  method RunAlgorithm(g: Net, alg: Algorithm, o: Order, src: Dpid)
    returns (dist: map<Dpid, Dist>, prev: map<Dpid, Option<Dpid>>)
    requires g.Valid() && o.Enumerates(g)
    ensures IsTreeOf(g, alg, o, src, dist, prev)
  {
    hide ShortestTree, FirstPredecessors;
    if alg == AlgBellmanFord {
      dist, prev := BellmanFord.BellmanFord(g, o, src);
    } else {
      dist, prev := Dijkstra(g, src);
    }
  }

  /** A destination has a predecessor exactly when it is reachable and not the source. */
  lemma PredecessorIffReachable(g: Net, src: Dpid, dist: map<Dpid, Dist>, prev: map<Dpid, Option<Dpid>>, t: Dpid)
    requires g.Valid() && ShortestTree(g, src, dist, prev) && t != src
    ensures Get(prev, t).Some? <==> g.Delta(src, t).Fin?
    ensures g.Delta(src, t).Fin? ==> t in dist && dist[t] == g.Delta(src, t)
  {
  }

  /** The second switch of a shortest walk is a next hop, and its remaining distance is what is left of the cost. */
  lemma ShortestWalkStartsWithNextHop(g: Net, src: Dpid, t: Dpid, p: seq<Dpid>)
    requires |p| >= 2 && g.WalkBetween(src, t, p) && g.Delta(src, t) == Fin(g.Cost(p))
    ensures g.Edge(src, p[1]) && NextHopVia(g, src, t, g.Neighbours(src)[p[1]], p[1])
  {
    var v := p[1];
    WalkSplit(g, p, 1);
    assert p[..2] == [src, v] && [src, v][..1] == [src];
    assert g.Cost([src, v]) == g.Weight(src, v);
    assert g.WalkBetween(v, t, p[1..]);
    DeltaFirstStep(g, src, v, t);
  }

  lemma TreePathStartsWithNextHop(g: Net, src: Dpid, dist: map<Dpid, Dist>, prev: map<Dpid, Option<Dpid>>, t: Dpid)
    requires g.Valid() && ShortestTree(g, src, dist, prev) && t in dist && t != src && dist[t].Fin?
    ensures var p := TreePath(g, src, dist, prev, t);
            |p| >= 2 && g.Edge(src, p[1]) && NextHopVia(g, src, t, g.Neighbours(src)[p[1]], p[1])
  {
    TreePathIsWalk(g, src, dist, prev, t);
    ShortestWalkStartsWithNextHop(g, src, t, TreePath(g, src, dist, prev, t));
  }

  /** port leads from the source to the second switch of the tree path to t. */
  ghost predicate HopOfTree(g: Net, src: Dpid, dist: map<Dpid, Dist>, prev: map<Dpid, Option<Dpid>>, t: Dpid,
                            port: Port) {
    && g.Valid() && ShortestTree(g, src, dist, prev) && t in dist && dist[t].Fin?
    && var p := TreePath(g, src, dist, prev, t);
       |p| >= 2 && g.Edge(src, p[1]) && port == g.Neighbours(src)[p[1]]
  }

  /** path is the tree path to t without its two ends. */
  ghost predicate PathOfTree(g: Net, src: Dpid, dist: map<Dpid, Dist>, prev: map<Dpid, Option<Dpid>>, t: Dpid,
                             path: seq<Dpid>) {
    && g.Valid() && ShortestTree(g, src, dist, prev) && t in dist && dist[t].Fin?
    && [src] + path + [t] == TreePath(g, src, dist, prev, t)
  }

  lemma ShortestTreeUnfolds(g: Net, src: Dpid, dist: map<Dpid, Dist>, prev: map<Dpid, Option<Dpid>>, t: Dpid)
    requires g.Valid() && ShortestTree(g, src, dist, prev) && t in dist && t != src && dist[t].Fin?
    ensures t in prev && prev[t].Some?
    ensures var u := prev[t].value;
            && u in dist && dist[u].Fin? && dist[u].n < dist[t].n
            && TreePath(g, src, dist, prev, t) == TreePath(g, src, dist, prev, u) + [t]
  {
    TreePathUnfolds(g, src, dist, prev, t);
  }

  lemma NodesAreThePath(g: Net, src: Dpid, dst: Dpid, dist: map<Dpid, Dist>, prev: map<Dpid, Option<Dpid>>,
                        r: seq<Dpid>)
    requires g.Valid() && ShortestTree(g, src, dist, prev) && src != dst && dst in dist && dist[dst].Fin?
    requires [src] + r == TreePath(g, src, dist, prev, dst) && |r| > 0 && r[|r| - 1] == dst
    ensures PathOfTree(g, src, dist, prev, dst, r[..|r| - 1])
    ensures IsShortestInterior(g, src, dst, r[..|r| - 1])
  {
    assert [src] + r[..|r| - 1] + [dst] == [src] + r;
    TreePathIsWalk(g, src, dist, prev, dst);
    TreePathIsSimple(g, src, dist, prev, dst);
  }

  method GetNextHop(g: Net, alg: Algorithm, o: Order, src: Dpid, dst: Dpid)
    returns (port: Option<Port>, ghost dist: map<Dpid, Dist>, ghost prev: map<Dpid, Option<Dpid>>)
    requires g.Valid() && o.Enumerates(g)
    ensures src == dst ==> port == None
    ensures src != dst ==> IsTreeOf(g, alg, o, src, dist, prev)
    ensures src != dst ==> (port.Some? <==> g.Delta(src, dst).Fin?)
    ensures src != dst && port.Some? ==> IsNextHop(g, src, dst, port.value)
    ensures src != dst && port.Some? ==> HopOfTree(g, src, dist, prev, dst, port.value)
  {
    hide IsTreeOf, TightTree, Order.Enumerates, Net.Valid, Net.IsDist;
    port, dist, prev := None, map[], map[];
    if src == dst {
      return;
    }
    var distances, tree := RunAlgorithm(g, alg, o, src);
    dist, prev := distances, tree;
    TreeOfIsShortest(g, alg, o, src, dist, prev);
    PredecessorIffReachable(g, src, dist, prev, dst);
    var curr := dst;
    if Get(tree, curr) == None {
      return;
    }
    while Get(tree, curr).Some? && tree[curr] != Some(src)
      invariant curr != src && curr in dist && dist[curr].Fin? && Get(tree, curr).Some?
      invariant TreePath(g, src, dist, prev, curr) <= TreePath(g, src, dist, prev, dst)
      decreases dist[curr].n
    {
      ShortestTreeUnfolds(g, src, dist, prev, curr);
      curr := tree[curr].value;
      PredecessorIffReachable(g, src, dist, prev, curr);
    }
    assert TreePath(g, src, dist, prev, curr) == [src, curr];
    TreePathStartsWithNextHop(g, src, dist, prev, dst);
    if Get(tree, curr).Some? && curr in g.Neighbours(src) {
      port := Some(g.Neighbours(src)[curr]);
    }
  }

  /** `path` is the interior of a repetition-free walk from src to dst of least cost, with |path| + 1 edges. */
  ghost predicate IsShortestInterior(g: Net, src: Dpid, dst: Dpid, path: seq<Dpid>) {
    var walk := [src] + path + [dst];
    g.WalkBetween(src, dst, walk) && Distinct(walk) && g.Delta(src, dst) == Fin(g.Cost(walk))
  }

  method BuildPath(g: Net, alg: Algorithm, o: Order, src: Dpid, dst: Dpid)
    returns (path: Option<seq<Dpid>>, ghost dist: map<Dpid, Dist>, ghost prev: map<Dpid, Option<Dpid>>)
    requires g.Valid() && o.Enumerates(g)
    ensures src == dst ==> path == Some([])
    ensures src != dst ==> IsTreeOf(g, alg, o, src, dist, prev)
    ensures src != dst ==> (path.Some? <==> g.Delta(src, dst).Fin?)
    ensures src != dst && path.Some? ==> IsShortestInterior(g, src, dst, path.value)
    ensures src != dst && path.Some? ==> PathOfTree(g, src, dist, prev, dst, path.value)
  {
    hide IsTreeOf, IsShortestInterior, PathOfTree, TightTree, Net.Valid, Net.IsDist, Order.Enumerates;
    path, dist, prev := None, map[], map[];
    if src == dst {
      return Some([]), dist, prev;
    }
    var distances, tree := RunAlgorithm(g, alg, o, src);
    dist, prev := distances, tree;
    TreeOfIsShortest(g, alg, o, src, dist, prev);
    PredecessorIffReachable(g, src, dist, prev, dst);
    if Get(tree, dst) == None {
      return;
    }
    var nodes := [];
    var curr := dst;
    assert dist[dst].Fin?;
    while curr != src
      invariant curr in dist && dist[curr].Fin?
      invariant TreePath(g, src, dist, prev, curr) + Reverse(nodes) == TreePath(g, src, dist, prev, dst)
      invariant if nodes == [] then curr == dst else Reverse(nodes)[|nodes| - 1] == dst
      decreases dist[curr].n
    {
      ReverseSnoc(nodes, curr);
      ShortestTreeUnfolds(g, src, dist, prev, curr);
      nodes := nodes + [curr];
      curr := tree[curr].value;
    }
    var r := Reverse(nodes);
    NodesAreThePath(g, src, dst, dist, prev, r);
    path := Some(r[..|r| - 1]);
  }

  /**
  Each call runs the algorithm anew, and still the next hop is the port towards the first switch of the built path.
  */
  lemma NextHopFollowsPath(g: Net, alg: Algorithm, o: Order, src: Dpid, dst: Dpid,
                           dist: map<Dpid, Dist>, prev: map<Dpid, Option<Dpid>>, port: Port,
                           dist': map<Dpid, Dist>, prev': map<Dpid, Option<Dpid>>, path: seq<Dpid>)
    requires src != dst && IsTreeOf(g, alg, o, src, dist, prev) && IsTreeOf(g, alg, o, src, dist', prev')
    requires HopOfTree(g, src, dist, prev, dst, port) && PathOfTree(g, src, dist', prev', dst, path)
    ensures g.Edge(src, (path + [dst])[0]) && port == g.Neighbours(src)[(path + [dst])[0]]
    ensures NextHopVia(g, src, dst, port, (path + [dst])[0])
  {
    TreeOfIsUnique(g, alg, o, src, dist, prev, dist', prev');
    TreePathStartsWithNextHop(g, src, dist, prev, dst);
  }

  /** Asked for the same pair in the same state, the two routines agree about the first step. */
  method HopAndPath(g: Net, alg: Algorithm, o: Order, src: Dpid, dst: Dpid)
    returns (port: Option<Port>, path: Option<seq<Dpid>>)
    requires g.Valid() && o.Enumerates(g) && src != dst
    ensures port.Some? <==> path.Some?
    ensures port.Some? ==>
      g.Edge(src, (path.value + [dst])[0]) && port.value == g.Neighbours(src)[(path.value + [dst])[0]]
  {
    hide IsTreeOf, HopOfTree, PathOfTree, IsShortestInterior, IsNextHop, NextHopVia, Net.Neighbours;
    ghost var dist, prev, dist', prev';
    port, dist, prev := GetNextHop(g, alg, o, src, dst);
    path, dist', prev' := BuildPath(g, alg, o, src, dst);
    if port.Some? {
      NextHopFollowsPath(g, alg, o, src, dst, dist, prev, port.value, dist', prev', path.value);
    }
  }
}
