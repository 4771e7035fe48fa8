/**
 * Shortest paths in the controllers' directed graph, standing in for
 * nx.shortest_path (unit weights, so fewest hops), and the next-hop lookup
 * `path[path.index(dpid) + 1]` the handlers do on its result.
 */
module Paths {
  import opened Wrappers
  import opened Graphs

  /** p walks from s to t along edges of g (a single node when s == t). */
  ghost predicate IsPath(g: Graph, p: seq<Node>, s: Node, t: Node) {
    && |p| > 0 && p[0] == s && p[|p| - 1] == t && s in g.nodes
    && forall i :: 0 <= i < |p| - 1 ==> (p[i], p[i + 1]) in g.edges
  }

  /** p is a path from s to t and no path from s to t has fewer nodes. */
  ghost predicate IsShortestPath(g: Graph, p: seq<Node>, s: Node, t: Node) {
    IsPath(g, p, s, t) && forall q :: IsPath(g, q, s, t) ==> |p| <= |q|
  }

  /** Every edge out of u leads to a node with a distance at most one more than u's. */
  ghost predicate Settled(g: Graph, dist: map<Node, nat>, u: Node)
    requires u in dist
  {
    forall w :: (u, w) in g.edges ==> w in dist && dist[w] <= dist[u] + 1
  }

  /** v (not the source) was reached from parent[v] along an edge, one step further out. */
  ghost predicate Linked(g: Graph, dist: map<Node, nat>, parent: map<Node, Node>, v: Node)
    requires v in dist
  {
    v in parent && parent[v] in dist && dist[parent[v]] + 1 == dist[v] && (parent[v], v) in g.edges
  }

  /** When every reached node is settled, no path from s is shorter than the distance it reaches. */
  lemma {:induction false} DistanceIsLowerBound(g: Graph, dist: map<Node, nat>, s: Node, q: seq<Node>, t: Node)
    requires s in dist && dist[s] == 0
    requires forall u :: u in dist ==> Settled(g, dist, u)
    requires IsPath(g, q, s, t)
    ensures t in dist && dist[t] <= |q| - 1
    decreases |q|
  {
    if |q| > 1 {
      var q' := q[..|q| - 1];
      DistanceIsLowerBound(g, dist, s, q', q'[|q'| - 1]);
      assert (q[|q| - 2], q[|q| - 1]) in g.edges;
      assert Settled(g, dist, q[|q| - 2]);
    }
  }

  /** d extends d0: every node d0 reached keeps its distance. */
  ghost predicate Extends(d0: map<Node, nat>, d: map<Node, nat>) {
    forall v :: v in d0 ==> v in d && d[v] == d0[v]
  }

  /** Every reached node except the source hangs off a parent. */
  ghost predicate ParentsLinked(g: Graph, dist: map<Node, nat>, parent: map<Node, Node>, s: Node) {
    forall v :: v in dist && v != s ==> Linked(g, dist, parent, v)
  }

  lemma SettledStays(g: Graph, d0: map<Node, nat>, d: map<Node, nat>, u: Node)
    requires Extends(d0, d) && u in d0 && Settled(g, d0, u)
    ensures u in d && Settled(g, d, u)
  {
  }

  /**
   * One step of the search: every successor of u that has no distance yet
   * gets distance k + 1 and parent u.
   */
  method Expand(g: Graph, dist: map<Node, nat>, parent: map<Node, Node>, s: Node, u: Node, k: nat)
    returns (dist': map<Node, nat>, parent': map<Node, Node>, found: set<Node>)
    requires WellFormed(g) && dist.Keys <= g.nodes.Keys
    requires u in dist && dist[u] == k
    requires forall v :: v in dist ==> dist[v] <= k + 1
    requires ParentsLinked(g, dist, parent, s)
    ensures dist'.Keys == dist.Keys + found && dist'.Keys <= g.nodes.Keys
    ensures found !! dist.Keys
    ensures Extends(dist, dist')
    ensures forall v :: v in found ==> dist'[v] == k + 1
    ensures ParentsLinked(g, dist', parent', s)
    ensures Settled(g, dist', u)
  {
    found := set w | w in g.nodes && (u, w) in g.edges && w !in dist;
    dist' := dist + map w | w in found :: k + 1;
    parent' := parent + map w | w in found :: u;
    forall v | v in dist' && v != s ensures Linked(g, dist', parent', v) {
      if v !in found {
        assert Linked(g, dist, parent, v);
      }
    }
  }

  /** Follows the parents back from t to s. */
  method Reconstruct(g: Graph, dist: map<Node, nat>, parent: map<Node, Node>, s: Node, t: Node)
    returns (path: seq<Node>)
    requires s in dist && dist[s] == 0 && s in g.nodes && t in dist
    requires ParentsLinked(g, dist, parent, s)
    ensures IsPath(g, path, s, t) && |path| == dist[t] + 1
  {
    path := [t];
    var v := t;
    while v != s
      invariant v in dist
      invariant |path| == dist[t] - dist[v] + 1
      invariant path[0] == v && path[|path| - 1] == t
      invariant forall i :: 0 <= i < |path| - 1 ==> (path[i], path[i + 1]) in g.edges
      decreases dist[v]
    {
      assert Linked(g, dist, parent, v);
      v := parent[v];
      path := [v] + path;
    }
  }

  /**
   * Breadth-first search, layer by layer: after layer k every node within k
   * hops of s has its distance and a parent one layer closer to s.
   */
  method ShortestPath(g: Graph, s: Node, t: Node) returns (r: Option<seq<Node>>)
    requires WellFormed(g)
    ensures r.Some? ==> IsShortestPath(g, r.value, s, t)
    ensures r.None? ==> forall q :: !IsPath(g, q, s, t)
  {
    if s !in g.nodes {
      return None;
    }
    var dist: map<Node, nat> := map[s := 0];
    var parent: map<Node, Node> := map[];
    var frontier := {s};
    var k: nat := 0;
    while frontier != {}
      invariant dist.Keys <= g.nodes.Keys
      invariant s in dist && dist[s] == 0
      invariant forall v :: v in dist ==> dist[v] <= k
      invariant forall v :: v in frontier <==> v in dist && dist[v] == k
      invariant ParentsLinked(g, dist, parent, s)
      invariant forall u :: u in dist && dist[u] < k ==> Settled(g, dist, u)
      decreases g.nodes.Keys - dist.Keys, frontier
    {
      var next: set<Node> := {};
      var todo := frontier;
      ghost var dist0 := dist;
      while todo != {}
        invariant todo <= frontier
        invariant dist.Keys <= g.nodes.Keys
        invariant Extends(dist0, dist)
        invariant forall v :: v in dist ==> v in dist0 || dist[v] == k + 1
        invariant forall v :: v in next <==> v in dist && v !in dist0
        invariant ParentsLinked(g, dist, parent, s)
        invariant forall u :: u in dist0 && (dist0[u] < k || (u in frontier && u !in todo)) ==> Settled(g, dist, u)
        decreases todo
      {
        var u :| u in todo;
        todo := todo - {u};
        ghost var before := dist;
        var found;
        dist, parent, found := Expand(g, dist, parent, s, u, k);
        next := next + found;
        forall w | w in dist0 && (dist0[w] < k || (w in frontier && w !in todo)) ensures Settled(g, dist, w) {
          if w != u {
            SettledStays(g, before, dist, w);
          }
        }
      }
      frontier := next;
      k := k + 1;
    }
    if t !in dist {
      forall q | IsPath(g, q, s, t) ensures false {
        DistanceIsLowerBound(g, dist, s, q, t);
      }
      return None;
    }
    var path := Reconstruct(g, dist, parent, s, t);
    forall q | IsPath(g, q, s, t) ensures |path| <= |q| {
      DistanceIsLowerBound(g, dist, s, q, t);
    }
    return Some(path);
  }

  /** A shortest path never visits a node twice: cutting out the loop would shorten it. */
  lemma ShortestPathIsSimple(g: Graph, p: seq<Node>, s: Node, t: Node)
    requires IsShortestPath(g, p, s, t)
    ensures forall i, j :: 0 <= i < j < |p| ==> p[i] != p[j]
  {
    forall i, j | 0 <= i < j < |p| ensures p[i] != p[j] {
      if p[i] == p[j] {
        var q := p[..i] + p[j..];
        assert |q| == |p| - (j - i);
        forall n | 0 <= n < |q| - 1 ensures (q[n], q[n + 1]) in g.edges {
          if n < i - 1 {
            assert q[n] == p[n] && q[n + 1] == p[n + 1];
          } else if n == i - 1 {
            assert q[n] == p[i - 1] && q[n + 1] == p[j];
          } else {
            assert q[n] == p[n + j - i] && q[n + 1] == p[n + 1 + j - i];
          }
        }
        assert q[0] == s && q[|q| - 1] == t;
        assert IsPath(g, q, s, t);
      }
    }
  }

  /** list.index(x): the first position of x, or None where Python raises ValueError. */
  function IndexOf(p: seq<Node>, x: Node): (r: Option<nat>)
    ensures r.None? <==> x !in p
    ensures r.Some? ==> r.value < |p| && p[r.value] == x && x !in p[..r.value]
    decreases |p|
  {
    if p == [] then None
    else if p[0] == x then Some(0)
    else match IndexOf(p[1..], x)
      case None => None
      case Some(i) => Some(i + 1)
  }

  /**
   * path[path.index(here) + 1]: the node after the first occurrence of here.
   * The handlers only ask for a switch on a path that ends at a host, so the
   * index never falls off the end.
   */
  function NextHop(p: seq<Node>, here: Node): (r: Option<Node>)
    requires |p| > 0 && p[|p| - 1] != here
    ensures r.None? <==> here !in p
    ensures r.Some? ==> exists i :: 0 <= i < |p| - 1 && p[i] == here && here !in p[..i] && p[i + 1] == r.value
  {
    match IndexOf(p, here)
    case None => None
    case Some(i) => Some(p[i + 1])
  }

  /** The next hop on a path is reached from here by an edge of the graph. */
  lemma NextHopIsEdge(g: Graph, p: seq<Node>, s: Node, t: Node, here: Node)
    requires IsPath(g, p, s, t) && t != here && NextHop(p, here).Some?
    ensures (here, NextHop(p, here).value) in g.edges
  {
    var i :| 0 <= i < |p| - 1 && p[i] == here && here !in p[..i] && p[i + 1] == NextHop(p, here).value;
  }
}
