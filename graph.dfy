/**
 * The directed graph the controllers keep in `self.net` (a networkx DiGraph),
 * as a value. Node keys are what the controllers hand to networkx: an integer
 * datapath id or a string (a MAC address, or the '0' that add_switch uses for
 * datapath 0). Every node carries an attribute dictionary; the only edge
 * attribute the controllers use is 'port', which an edge may lack.
 */
module Graphs {
  import opened Wrappers

  datatype Node = Dpid(id: int) | Name(text: string)

  type Attrs = map<string, string>

  datatype Graph = Graph(nodes: map<Node, Attrs>, edges: map<(Node, Node), Option<int>>)

  /** Every edge joins two nodes of the graph. */
  predicate WellFormed(g: Graph) {
    forall e :: e in g.edges ==> e.0 in g.nodes && e.1 in g.nodes
  }

  function Empty(): (g: Graph)
    ensures WellFormed(g) && g.nodes == map[] && g.edges == map[]
  {
    Graph(map[], map[])
  }

  /** G.add_node(n, **attrs): creates n if absent and merges attrs into its dictionary. */
  function AddNode(g: Graph, n: Node, attrs: Attrs): (r: Graph)
    ensures r.nodes.Keys == g.nodes.Keys + {n}
    ensures forall k :: k in attrs ==> k in r.nodes[n] && r.nodes[n][k] == attrs[k]
    ensures n in g.nodes ==> forall k :: k in g.nodes[n] && k !in attrs ==> k in r.nodes[n] && r.nodes[n][k] == g.nodes[n][k]
    ensures n !in g.nodes ==> r.nodes[n].Keys == attrs.Keys
    ensures forall m :: m in g.nodes && m != n ==> r.nodes[m] == g.nodes[m]
    ensures r.edges == g.edges
    ensures WellFormed(g) ==> WellFormed(r)
  {
    var old_attrs := if n in g.nodes then g.nodes[n] else map[];
    Graph(g.nodes[n := old_attrs + attrs], g.edges)
  }

  /** G.node[n][key] = value, on a node that exists. */
  function SetNodeAttr(g: Graph, n: Node, key: string, value: string): (r: Graph)
    requires n in g.nodes
    ensures r.nodes.Keys == g.nodes.Keys
    ensures r.nodes[n] == g.nodes[n][key := value]
    ensures forall m :: m in g.nodes && m != n ==> r.nodes[m] == g.nodes[m]
    ensures r.edges == g.edges
    ensures WellFormed(g) ==> WellFormed(r)
  {
    Graph(g.nodes[n := g.nodes[n][key := value]], g.edges)
  }

  /** The node set extended by the keys of ns, new nodes with no attributes. */
  function WithNodes(nodes: map<Node, Attrs>, ns: set<Node>): (r: map<Node, Attrs>)
    ensures r.Keys == nodes.Keys + ns
    ensures forall m :: m in nodes ==> r[m] == nodes[m]
    ensures forall m :: m in ns && m !in nodes ==> r[m] == map[]
  {
    nodes + map m | m in ns && m !in nodes :: map[]
  }

  /**
   * G.add_edge(u, v, attr_dict): creates the missing endpoints, then merges
   * the attributes into the edge's dictionary (a DiGraph holds one edge per
   * ordered pair). `port` is None when add_edge is given no 'port'.
   */
  function AddEdge(g: Graph, u: Node, v: Node, port: Option<int>): (r: Graph)
    ensures r.nodes == WithNodes(g.nodes, {u, v})
    ensures (u, v) in r.edges
    ensures r.edges[(u, v)] == if port.Some? || (u, v) !in g.edges then port else g.edges[(u, v)]
    ensures forall e :: e in g.edges && e != (u, v) ==> e in r.edges && r.edges[e] == g.edges[e]
    ensures r.edges.Keys == g.edges.Keys + {(u, v)}
    ensures WellFormed(g) ==> WellFormed(r)
  {
    var p := if port.None? && (u, v) in g.edges then g.edges[(u, v)] else port;
    Graph(WithNodes(g.nodes, {u, v}), g.edges[(u, v) := p])
  }

  /** G.remove_node(n): the node and every edge that touches it. */
  function RemoveNode(g: Graph, n: Node): (r: Graph)
    ensures r.nodes.Keys == g.nodes.Keys - {n}
    ensures forall m :: m in r.nodes ==> r.nodes[m] == g.nodes[m]
    ensures forall e :: e in r.edges <==> e in g.edges && e.0 != n && e.1 != n
    ensures forall e :: e in r.edges ==> r.edges[e] == g.edges[e]
    ensures WellFormed(g) ==> WellFormed(r)
  {
    Graph(map m | m in g.nodes && m != n :: g.nodes[m],
          map e | e in g.edges && e.0 != n && e.1 != n :: g.edges[e])
  }

  /** Adding an edge that is already there with the same attribute changes nothing. */
  lemma AddEdgeIdempotent(g: Graph, u: Node, v: Node, port: Option<int>)
    ensures AddEdge(AddEdge(g, u, v, port), u, v, port) == AddEdge(g, u, v, port)
  {
    var g1 := AddEdge(g, u, v, port);
    var g2 := AddEdge(g1, u, v, port);
    assert g2.nodes == g1.nodes;
    assert g2.edges == g1.edges;
  }

  /** G.add_nodes_from(ns): adds the missing nodes; existing nodes keep their attributes. */
  function AddNodesFrom(g: Graph, ns: seq<Node>): (r: Graph)
    ensures forall n :: n in ns ==> n in r.nodes
    ensures r.nodes.Keys == g.nodes.Keys + (set n | n in ns)
    ensures forall m :: m in g.nodes ==> r.nodes[m] == g.nodes[m]
    ensures r.edges == g.edges
    ensures WellFormed(g) ==> WellFormed(r)
  {
    Graph(WithNodes(g.nodes, set n | n in ns), g.edges)
  }

  /** A link triple as G.add_edges_from receives it: (u, v, {'port': p}). */
  type EdgeSpec = (Node, Node, int)

  /** G.add_edges_from(es): add_edge on each triple, in order. */
  function AddEdgesFrom(g: Graph, es: seq<EdgeSpec>): (r: Graph)
    ensures g.nodes.Keys <= r.nodes.Keys && g.edges.Keys <= r.edges.Keys
    ensures WellFormed(g) ==> WellFormed(r)
    decreases |es|
  {
    if es == [] then g else AddEdgesFrom(AddEdge(g, es[0].0, es[0].1, Some(es[0].2)), es[1..])
  }

  /** The endpoints named by a list of triples. */
  function Ends(es: seq<EdgeSpec>): set<Node>
    decreases |es|
  {
    if es == [] then {} else {es[0].0, es[0].1} + Ends(es[1..])
  }

  /** For every ordered pair a list of triples names, the port of its last occurrence. */
  function LastPorts(es: seq<EdgeSpec>): map<(Node, Node), Option<int>>
    decreases |es|
  {
    if es == [] then map[] else map[(es[0].0, es[0].1) := Some(es[0].2)] + LastPorts(es[1..])
  }

  lemma WithNodesTwice(nodes: map<Node, Attrs>, a: set<Node>, b: set<Node>)
    ensures WithNodes(WithNodes(nodes, a), b) == WithNodes(nodes, a + b)
  {
    var l := WithNodes(WithNodes(nodes, a), b);
    var r := WithNodes(nodes, a + b);
    assert l.Keys == r.Keys;
    forall m | m in l ensures l[m] == r[m] {
    }
  }

  /** Adding nodes that are all present changes nothing. */
  lemma WithNodesKeeps(nodes: map<Node, Attrs>, ns: set<Node>)
    requires ns <= nodes.Keys
    ensures WithNodes(nodes, ns) == nodes
  {
  }

  /**
   * add_edges_from in closed form: the endpoints become nodes and every named
   * pair gets the port of its last occurrence in the list; other edges stay.
   */
  lemma {:induction false} AddEdgesFromClosedForm(g: Graph, es: seq<EdgeSpec>)
    ensures AddEdgesFrom(g, es) == Graph(WithNodes(g.nodes, Ends(es)), g.edges + LastPorts(es))
    decreases |es|
  {
    if es == [] {
      assert WithNodes(g.nodes, {}) == g.nodes;
      assert g.edges + map[] == g.edges;
    } else {
      var e := es[0];
      var g1 := AddEdge(g, e.0, e.1, Some(e.2));
      AddEdgesFromClosedForm(g1, es[1..]);
      assert AddEdgesFrom(g, es) == AddEdgesFrom(g1, es[1..]);
      WithNodesTwice(g.nodes, {e.0, e.1}, Ends(es[1..]));
      assert Ends(es) == {e.0, e.1} + Ends(es[1..]);
      MergeAssoc(g.edges, (e.0, e.1), Some(e.2), LastPorts(es[1..]));
      assert LastPorts(es) == map[(e.0, e.1) := Some(e.2)] + LastPorts(es[1..]);
    }
  }

  lemma MergeAssoc(m: map<(Node, Node), Option<int>>, k: (Node, Node), v: Option<int>, rest: map<(Node, Node), Option<int>>)
    ensures m[k := v] + rest == m + (map[k := v] + rest)
  {
  }

  /** Every triple of the list names an edge of LastPorts, and every such edge has a port and named endpoints. */
  lemma {:induction false} LastPortsCover(es: seq<EdgeSpec>)
    ensures forall i :: 0 <= i < |es| ==> (es[i].0, es[i].1) in LastPorts(es)
    ensures forall e :: e in LastPorts(es) ==> e.0 in Ends(es) && e.1 in Ends(es) && LastPorts(es)[e].Some?
    decreases |es|
  {
    if es != [] {
      LastPortsCover(es[1..]);
      forall i | 1 <= i < |es| ensures (es[i].0, es[i].1) in LastPorts(es) {
        assert es[i] == es[1..][i - 1];
      }
    }
  }

  /** The port LastPorts gives a pair is the one of the pair's last triple in the list. */
  lemma {:induction false} LastPortsIsLast(es: seq<EdgeSpec>)
    ensures forall e :: e in LastPorts(es) ==>
              exists i :: 0 <= i < |es| && (es[i].0, es[i].1) == e && LastPorts(es)[e] == Some(es[i].2)
                          && forall k :: i < k < |es| ==> (es[k].0, es[k].1) != e
    decreases |es|
  {
    if es != [] {
      var rest := es[1..];
      LastPortsIsLast(rest);
      LastPortsCover(rest);
      forall e | e in LastPorts(es)
        ensures exists i :: 0 <= i < |es| && (es[i].0, es[i].1) == e && LastPorts(es)[e] == Some(es[i].2)
                            && forall k :: i < k < |es| ==> (es[k].0, es[k].1) != e
      {
        if e in LastPorts(rest) {
          var j :| 0 <= j < |rest| && (rest[j].0, rest[j].1) == e && LastPorts(rest)[e] == Some(rest[j].2)
                   && forall k :: j < k < |rest| ==> (rest[k].0, rest[k].1) != e;
          forall k | j + 1 < k < |es| ensures (es[k].0, es[k].1) != e {
            assert es[k] == rest[k - 1];
          }
          assert es[j + 1] == rest[j];
        } else {
          forall k | 0 < k < |es| ensures (es[k].0, es[k].1) != e {
            assert es[k] == rest[k - 1];
          }
        }
      }
    }
  }
}
