/**
 * The spanning tree that bounds flooding: nx.minimum_spanning_tree of
 * G.to_undirected(). Every edge weighs 1, so a minimum spanning tree is any
 * spanning forest (one tree per connected component); this module builds one
 * and states what makes it one.
 */
module SpanningTrees {
  import opened Graphs

  /** u and v are joined in the undirected view of g: an edge in either direction. */
  predicate Adjacent(g: Graph, u: Node, v: Node) {
    (u, v) in g.edges || (v, u) in g.edges
  }

  /** The tree holds the link between u and v, in either orientation (the test `(s, d) in mst.edges()`). */
  predicate InTree(tree: set<(Node, Node)>, u: Node, v: Node) {
    (u, v) in tree || (v, u) in tree
  }

  /**
   * The witness that tree is a spanning forest of g. Each non-root node w has
   * one parent par[w], adjacent to it and of smaller rank (so following
   * parents never cycles), and the tree is exactly the links {par[w], w}.
   * comp names the root of each node's tree: roots name themselves, a child
   * has its parent's label, and the two ends of every edge of g share a
   * label, so every connected part of g lies within one tree.
   */
  ghost predicate ForestWitness(g: Graph, tree: set<(Node, Node)>,
                                par: map<Node, Node>, rank: map<Node, nat>, comp: map<Node, Node>)
  {
    && WellFormed(g)
    && rank.Keys == g.nodes.Keys && comp.Keys == g.nodes.Keys && par.Keys <= g.nodes.Keys
    && (forall w :: w in par ==>
          par[w] in g.nodes && rank[par[w]] < rank[w] && Adjacent(g, w, par[w]) && comp[par[w]] == comp[w])
    && (forall x :: x in g.nodes && x !in par ==> comp[x] == x)
    && tree == (set w | w in par :: (par[w], w))
    && (forall u, v :: (u, v) in g.edges ==> comp[u] == comp[v])
  }

  ghost predicate IsSpanningForest(g: Graph, tree: set<(Node, Node)>) {
    exists par, rank, comp :: ForestWitness(g, tree, par, rank, comp)
  }

  /** The part of a witness that holds while the forest is being grown over the visited nodes. */
  ghost predicate Growing(g: Graph, par: map<Node, Node>,
                          rank: map<Node, nat>, comp: map<Node, Node>, unseen: set<Node>)
  {
    && WellFormed(g)
    && unseen <= g.nodes.Keys
    && rank.Keys == g.nodes.Keys - unseen && comp.Keys == rank.Keys && par.Keys <= rank.Keys
    && (forall w :: w in par ==>
          par[w] in rank && rank[par[w]] < rank[w] && Adjacent(g, w, par[w]) && comp[par[w]] == comp[w])
    && (forall x :: x in rank && x !in par ==> comp[x] == x)
  }

  /** Every neighbour of x has been visited and lies in x's tree. */
  ghost predicate Closed(g: Graph, comp: map<Node, Node>, x: Node)
    requires x in comp
  {
    forall y :: Adjacent(g, x, y) ==> y in comp && comp[y] == comp[x]
  }

  /**
   * Grows the tree of the current root r from u: every unvisited neighbour of
   * u becomes a child of u.
   */
  method Grow(g: Graph, par: map<Node, Node>, rank: map<Node, nat>,
              comp: map<Node, Node>, unseen: set<Node>, u: Node, r: Node)
    returns (par': map<Node, Node>, rank': map<Node, nat>, comp': map<Node, Node>, found: set<Node>)
    requires Growing(g, par, rank, comp, unseen)
    requires u in rank && comp[u] == r
    requires forall y :: y in comp && comp[y] != r ==> Closed(g, comp, y)
    ensures Growing(g, par', rank', comp', unseen - found)
    ensures Closed(g, comp', u)
    ensures found <= unseen
    ensures forall x :: x in comp ==> x in comp' && comp'[x] == comp[x]
    ensures forall x :: x in found ==> comp'[x] == r
    ensures forall y :: Adjacent(g, u, y) && y in unseen ==> y in found
  {
    found := set w | w in unseen && Adjacent(g, u, w);
    par' := par + map w | w in found :: u;
    rank' := rank + map w | w in found :: rank[u] + 1;
    comp' := comp + map w | w in found :: r;
    GrowKeepsShape(g, par, rank, comp, unseen, u, r, found, par', rank', comp');
    GrowClosesU(g, comp, unseen, u, r, found, comp');
  }

  lemma GrowKeepsShape(g: Graph, par: map<Node, Node>, rank: map<Node, nat>, comp: map<Node, Node>,
                       unseen: set<Node>, u: Node, r: Node, found: set<Node>,
                       par': map<Node, Node>, rank': map<Node, nat>, comp': map<Node, Node>)
    requires Growing(g, par, rank, comp, unseen)
    requires u in rank && comp[u] == r
    requires found == set w | w in unseen && Adjacent(g, u, w)
    requires par' == par + map w | w in found :: u
    requires rank' == rank + map w | w in found :: rank[u] + 1
    requires comp' == comp + map w | w in found :: r
    ensures Growing(g, par', rank', comp', unseen - found)
  {
    assert u !in found;
    assert rank'.Keys == g.nodes.Keys - (unseen - found);
    forall w | w in par'
      ensures par'[w] in rank' && rank'[par'[w]] < rank'[w] && Adjacent(g, w, par'[w]) && comp'[par'[w]] == comp'[w]
    {
      if w in found {
        assert par'[w] == u && rank'[w] == rank[u] + 1 && comp'[w] == r;
      } else {
        assert par'[w] == par[w] && par[w] !in found && rank'[w] == rank[w] && comp'[w] == comp[w];
      }
    }
    forall x | x in rank' && x !in par' ensures comp'[x] == x {
      assert x !in found;
    }
  }

  lemma GrowClosesU(g: Graph, comp: map<Node, Node>, unseen: set<Node>, u: Node, r: Node,
                    found: set<Node>, comp': map<Node, Node>)
    requires WellFormed(g) && unseen <= g.nodes.Keys && comp.Keys == g.nodes.Keys - unseen
    requires u in comp && comp[u] == r
    requires forall y :: y in comp && comp[y] != r ==> Closed(g, comp, y)
    requires found == set w | w in unseen && Adjacent(g, u, w)
    requires comp' == comp + map w | w in found :: r
    ensures Closed(g, comp', u)
  {
    forall y | Adjacent(g, u, y) ensures y in comp' && comp'[y] == comp'[u] {
      if y in comp && comp[y] != r {
        assert Closed(g, comp, y) && Adjacent(g, y, u);
      } else if y !in comp {
        assert y in g.nodes;
        assert y in found;
      }
    }
  }

  lemma ClosedStays(g: Graph, comp: map<Node, Node>, comp': map<Node, Node>, x: Node)
    requires x in comp && Closed(g, comp, x)
    requires forall y :: y in comp ==> y in comp' && comp'[y] == comp[y]
    ensures x in comp' && Closed(g, comp', x)
  {
  }

  /**
   * Breadth-first search from the new root r: on return every node of r's
   * tree is closed, and so is every node visited before.
   */
  method GrowTree(g: Graph, par: map<Node, Node>, rank: map<Node, nat>, comp: map<Node, Node>,
                  unseen: set<Node>, r: Node)
    returns (par': map<Node, Node>, rank': map<Node, nat>, comp': map<Node, Node>, unseen': set<Node>)
    requires Growing(g, par, rank, comp, unseen)
    requires r in comp && r !in par && comp[r] == r
    requires forall x :: x in comp && x != r ==> Closed(g, comp, x)
    ensures Growing(g, par', rank', comp', unseen') && unseen' <= unseen
    ensures forall x :: x in comp' ==> Closed(g, comp', x)
  {
    par', rank', comp', unseen' := par, rank, comp, unseen;
    var frontier := {r};
    while frontier != {}
      invariant Growing(g, par', rank', comp', unseen') && unseen' <= unseen
      invariant frontier <= comp'.Keys
      invariant forall x :: x in frontier ==> comp'[x] == r
      invariant forall x :: x in comp' && (x !in frontier || comp'[x] != r) ==> Closed(g, comp', x)
      decreases unseen', frontier
    {
      var u :| u in frontier;
      ghost var comp0 := comp';
      ghost var frontier0 := frontier;
      var found;
      par', rank', comp', found := Grow(g, par', rank', comp', unseen', u, r);
      unseen' := unseen' - found;
      frontier := frontier - {u} + found;
      forall x | x in comp' && (x !in frontier || comp'[x] != r) ensures Closed(g, comp', x) {
        if x != u {
          ClosedStays(g, comp0, comp', x);
        }
      }
    }
  }

  /** Once every node is visited and closed, the parents form a spanning forest. */
  lemma Finished(g: Graph, par: map<Node, Node>, rank: map<Node, nat>, comp: map<Node, Node>)
    requires Growing(g, par, rank, comp, {})
    requires forall x :: x in comp ==> Closed(g, comp, x)
    ensures ForestWitness(g, set w | w in par :: (par[w], w), par, rank, comp)
  {
    forall u, v | (u, v) in g.edges ensures comp[u] == comp[v] {
      assert Closed(g, comp, u) && Adjacent(g, u, v);
    }
  }

  /** Builds a spanning forest by breadth-first search from each not yet visited node. */
  method SpanningForest(g: Graph) returns (tree: set<(Node, Node)>)
    requires WellFormed(g)
    ensures IsSpanningForest(g, tree)
    ensures forall e :: e in tree ==> Adjacent(g, e.0, e.1)
  {
    var par: map<Node, Node> := map[];
    var rank: map<Node, nat> := map[];
    var comp: map<Node, Node> := map[];
    var unseen := g.nodes.Keys;
    while unseen != {}
      invariant Growing(g, par, rank, comp, unseen)
      invariant forall x :: x in comp ==> Closed(g, comp, x)
      decreases unseen
    {
      var r :| r in unseen;
      ghost var comp0 := comp;
      rank := rank[r := 0];
      comp := comp[r := r];
      unseen := unseen - {r};
      forall x | x in comp && x != r ensures Closed(g, comp, x) {
        assert Closed(g, comp0, x);
      }
      par, rank, comp, unseen := GrowTree(g, par, rank, comp, unseen, r);
    }
    Finished(g, par, rank, comp);
    tree := set w | w in par :: (par[w], w);
  }

  /** The forest's links, read off the parent map. */
  lemma TreeLinks(tree: set<(Node, Node)>, par: map<Node, Node>, u: Node, v: Node)
    requires tree == (set w | w in par :: (par[w], w))
    ensures (u, v) in tree <==> v in par && par[v] == u
  {
    if (u, v) in tree {
      var w :| w in par && (u, v) == (par[w], w);
    }
  }

  /** A 3-cycle rooted at r, with children x and y: exactly one of its links is left out. */
  lemma TriangleRootedAt(g: Graph, tree: set<(Node, Node)>, par: map<Node, Node>, rank: map<Node, nat>,
                         comp: map<Node, Node>, r: Node, x: Node, y: Node)
    requires ForestWitness(g, tree, par, rank, comp)
    requires r != x && r != y && x != y
    requires r !in par && x in par && y in par
    requires (par[x] == r || par[x] == y) && (par[y] == r || par[y] == x)
    ensures (if InTree(tree, r, x) then 0 else 1) + (if InTree(tree, r, y) then 0 else 1)
            + (if InTree(tree, x, y) then 0 else 1) == 1
  {
    TreeLinks(tree, par, r, x);
    TreeLinks(tree, par, x, r);
    TreeLinks(tree, par, r, y);
    TreeLinks(tree, par, y, r);
    TreeLinks(tree, par, x, y);
    TreeLinks(tree, par, y, x);
    assert par[x] == y ==> rank[y] < rank[x];
    assert par[y] == x ==> rank[x] < rank[y];
  }

  /**
   * On a cycle of three nodes with no other links, a spanning forest keeps
   * exactly two of the three links: flooding is cut on exactly one.
   */
  lemma TriangleLeavesOneLinkOut(g: Graph, tree: set<(Node, Node)>, a: Node, b: Node, c: Node)
    requires IsSpanningForest(g, tree)
    requires a != b && b != c && a != c
    requires Adjacent(g, a, b) && Adjacent(g, b, c) && Adjacent(g, c, a)
    requires forall u, v :: Adjacent(g, u, v) && u in {a, b, c} ==> v in {a, b, c} && v != u
    ensures (if InTree(tree, a, b) then 0 else 1) + (if InTree(tree, b, c) then 0 else 1)
            + (if InTree(tree, c, a) then 0 else 1) == 1
  {
    var par, rank, comp :| ForestWitness(g, tree, par, rank, comp);
    assert a in par ==> par[a] in {b, c} by {
      if a in par { assert Adjacent(g, a, par[a]); }
    }
    assert b in par ==> par[b] in {a, c} by {
      if b in par { assert Adjacent(g, b, par[b]); }
    }
    assert c in par ==> par[c] in {a, b} by {
      if c in par { assert Adjacent(g, c, par[c]); }
    }
    // Some node of the cycle is a root: the one of least rank cannot have a parent.
    assert a in par ==> rank[par[a]] < rank[a];
    assert b in par ==> rank[par[b]] < rank[b];
    assert c in par ==> rank[par[c]] < rank[c];
    // No two are roots: linked nodes share their root's label.
    assert comp[a] == comp[b] && comp[b] == comp[c];
    assert a !in par ==> comp[a] == a;
    assert b !in par ==> comp[b] == b;
    assert c !in par ==> comp[c] == c;
    if a !in par {
      TriangleRootedAt(g, tree, par, rank, comp, a, b, c);
    } else if b !in par {
      TriangleRootedAt(g, tree, par, rank, comp, b, c, a);
    } else {
      TriangleRootedAt(g, tree, par, rank, comp, c, a, b);
    }
  }

  /** Following parents from any node of the tree rooted at h reaches a child of h. */
  lemma {:induction false} ChildOfRoot(g: Graph, tree: set<(Node, Node)>, par: map<Node, Node>,
                                       rank: map<Node, nat>, comp: map<Node, Node>, h: Node, x: Node)
    requires ForestWitness(g, tree, par, rank, comp)
    requires h in g.nodes && h !in par && x in par && comp[x] == h && x != h
    ensures exists w :: w in par && par[w] == h
    decreases rank[x]
  {
    var p := par[x];
    assert p !in par ==> comp[p] == p;
    if p != h && p in par {
      ChildOfRoot(g, tree, par, rank, comp, h, p);
    }
  }

  /**
   * A node h whose only neighbour is s (a host attached by a single port)
   * keeps its link to s in every spanning forest: its port is never cut.
   */
  lemma HostLinkInTree(g: Graph, tree: set<(Node, Node)>, s: Node, h: Node)
    requires IsSpanningForest(g, tree)
    requires (s, h) in g.edges && s != h
    requires forall v :: Adjacent(g, h, v) ==> v == s
    ensures InTree(tree, s, h)
  {
    var par, rank, comp :| ForestWitness(g, tree, par, rank, comp);
    TreeLinks(tree, par, s, h);
    TreeLinks(tree, par, h, s);
    assert comp[s] == comp[h];
    if h in par {
      assert Adjacent(g, h, par[h]);
    } else {
      assert comp[h] == h;
      assert s in par;
      ChildOfRoot(g, tree, par, rank, comp, h, s);
      var w :| w in par && par[w] == h;
      assert Adjacent(g, h, w);
    }
  }
}
