/**
 * The graph controller of mob-controller.py: the topology is rebuilt from
 * the full switch and link lists on every switch-enter event, hosts are
 * added on their first packet-in, and a frame goes to the next hop of a
 * shortest path towards a known destination or is flooded.
 */
module MobilitySwitch {
  import opened Wrappers
  import opened Graphs
  import opened OpenFlow
  import opened Paths

  /** Every edge leaving a switch carries a 'port' attribute; host-to-switch edges carry none. */
  predicate SwitchEdgesPorted(g: Graph)
  {
    forall e :: e in g.edges && e.0.Dpid? ==> g.edges[e].Some?
  }

  /**
   * The graph after the learning step of a packet-in: an unknown source MAC
   * becomes a node with an edge from the switch on the ingress port and an
   * edge back without a port. A known source leaves the graph as it was.
   */
  function LearnSource(g: Graph, dpid: int, inPort: int, src: Mac): (r: Graph)
    ensures Name(src) in g.nodes ==> r == g
    ensures Name(src) !in g.nodes ==>
              && r.nodes.Keys == g.nodes.Keys + {Name(src), Dpid(dpid)}
              && r.nodes[Name(src)] == map[]
    ensures Name(src) !in g.nodes && Dpid(dpid) !in g.nodes ==> r.nodes[Dpid(dpid)] == map[]
    ensures forall m :: m in g.nodes ==> r.nodes[m] == g.nodes[m]
    ensures Name(src) !in g.nodes && WellFormed(g) ==>
              r.edges == g.edges[(Dpid(dpid), Name(src)) := Some(inPort)][(Name(src), Dpid(dpid)) := None]
    ensures WellFormed(g) ==> WellFormed(r)
    ensures SwitchEdgesPorted(g) ==> SwitchEdgesPorted(r)
  {
    if Name(src) in g.nodes then g
    else
      var g1 := AddNode(g, Name(src), map[]);
      assert g1.edges == g.edges && g1.nodes[Name(src)] == map[];
      var g2 := AddEdge(g1, Dpid(dpid), Name(src), Some(inPort));
      assert g2.nodes[Name(src)] == map[];
      var g3 := AddEdge(g2, Name(src), Dpid(dpid), None);
      assert WellFormed(g) ==> (Name(src), Dpid(dpid)) !in g2.edges;
      assert g3.nodes[Name(src)] == map[];
      g3
  }

  /** A known source is never moved: a later packet-in from it, on any switch and port, keeps the graph. */
  lemma SourceNeverRelocated(g: Graph, d1: int, p1: int, d2: int, p2: int, src: Mac)
    ensures LearnSource(LearnSource(g, d1, p1, src), d2, p2, src) == LearnSource(g, d1, p1, src)
  {
  }

  /** A link as the topology service reports it. */
  datatype Link = Link(srcDpid: int, srcPort: int, dstDpid: int, dstPort: int)

  /** The link triples of get_topology_data: source switch, destination switch, source port. */
  function LinkTriples(links: seq<Link>): (es: seq<EdgeSpec>)
    ensures |es| == |links|
    ensures forall i :: 0 <= i < |links| ==> es[i] == (Dpid(links[i].srcDpid), Dpid(links[i].dstDpid), links[i].srcPort)
  {
    seq(|links|, i requires 0 <= i < |links| => (Dpid(links[i].srcDpid), Dpid(links[i].dstDpid), links[i].srcPort))
  }

  /** The switch node list of get_topology_data: one integer node per reported datapath id. */
  function SwitchNodes(ids: seq<int>): (ns: seq<Node>)
    ensures |ns| == |ids| && forall i :: 0 <= i < |ids| ==> ns[i] == Dpid(ids[i])
  {
    seq(|ids|, i requires 0 <= i < |ids| => Dpid(ids[i]))
  }

  /** The graph after get_topology_data: add_nodes_from the switches, then add_edges_from the links. */
  function WithTopology(g: Graph, ids: seq<int>, links: seq<Link>): (r: Graph)
    ensures g.nodes.Keys <= r.nodes.Keys && g.edges.Keys <= r.edges.Keys
  {
    AddEdgesFrom(AddNodesFrom(g, SwitchNodes(ids)), LinkTriples(links))
  }

  /** get_topology_data in closed form: the switches and link ends become nodes, each link pair gets its last port. */
  lemma TopologyClosedForm(g: Graph, ids: seq<int>, links: seq<Link>)
    ensures WithTopology(g, ids, links)
            == Graph(WithNodes(WithNodes(g.nodes, set n | n in SwitchNodes(ids)), Ends(LinkTriples(links))),
                     g.edges + LastPorts(LinkTriples(links)))
  {
    AddEdgesFromClosedForm(AddNodesFrom(g, SwitchNodes(ids)), LinkTriples(links));
  }

  /** Every reported switch is a node after a rebuild. */
  lemma TopologyHasSwitches(g: Graph, ids: seq<int>, links: seq<Link>)
    ensures forall i :: 0 <= i < |ids| ==> Dpid(ids[i]) in WithTopology(g, ids, links).nodes
  {
    TopologyClosedForm(g, ids, links);
    forall i | 0 <= i < |ids| ensures Dpid(ids[i]) in WithTopology(g, ids, links).nodes {
      assert SwitchNodes(ids)[i] == Dpid(ids[i]);
    }
  }

  /**
   * The i-th reported link is an edge of r, carrying the source port of the
   * last report of the same switch pair.
   */
  ghost predicate LinkRecorded(r: Graph, links: seq<Link>, i: int)
    requires 0 <= i < |links|
  {
    exists j :: i <= j < |links| && links[j].srcDpid == links[i].srcDpid && links[j].dstDpid == links[i].dstDpid
                && (Dpid(links[i].srcDpid), Dpid(links[i].dstDpid)) in r.edges
                && r.edges[(Dpid(links[i].srcDpid), Dpid(links[i].dstDpid))] == Some(links[j].srcPort)
                && forall k :: j < k < |links| ==> (links[k].srcDpid, links[k].dstDpid) != (links[i].srcDpid, links[i].dstDpid)
  }

  /** The i-th reported link is an edge after a rebuild, with the source port of the last report of its pair. */
  lemma TopologyHasLink(g: Graph, ids: seq<int>, links: seq<Link>, i: int)
    requires 0 <= i < |links|
    ensures LinkRecorded(WithTopology(g, ids, links), links, i)
  {
    var es := LinkTriples(links);
    var l := LastPorts(es);
    TopologyClosedForm(g, ids, links);
    LastPortsCover(es);
    LastPortsIsLast(es);
    var e := (es[i].0, es[i].1);
    assert e in l;
    var j :| 0 <= j < |es| && (es[j].0, es[j].1) == e && l[e] == Some(es[j].2)
             && forall k :: j < k < |es| ==> (es[k].0, es[k].1) != e;
    assert j >= i;
    assert WithTopology(g, ids, links).edges[e] == Some(links[j].srcPort);
    forall k | j < k < |links| ensures (links[k].srcDpid, links[k].dstDpid) != (links[i].srcDpid, links[i].dstDpid) {
      assert (es[k].0, es[k].1) != e;
    }
  }

  /**
   * Every reported link is an edge after a rebuild, with the source port of
   * the last report of the same switch pair; edges that were there stay.
   */
  lemma TopologyHasLinks(g: Graph, ids: seq<int>, links: seq<Link>)
    ensures forall e :: e in g.edges ==> e in WithTopology(g, ids, links).edges
    ensures forall i :: 0 <= i < |links| ==> LinkRecorded(WithTopology(g, ids, links), links, i)
  {
    forall i | 0 <= i < |links| ensures LinkRecorded(WithTopology(g, ids, links), links, i) {
      TopologyHasLink(g, ids, links, i);
    }
  }

  /** A rebuild keeps every edge inside the graph and every switch edge ported. */
  lemma TopologyKeepsShape(g: Graph, ids: seq<int>, links: seq<Link>)
    requires WellFormed(g) && SwitchEdgesPorted(g)
    ensures WellFormed(WithTopology(g, ids, links)) && SwitchEdgesPorted(WithTopology(g, ids, links))
  {
    var es := LinkTriples(links);
    TopologyClosedForm(g, ids, links);
    LastPortsCover(es);
  }

  /** Rebuilding the topology twice from the same lists is the same as rebuilding it once. */
  lemma TopologyIdempotent(g: Graph, ids: seq<int>, links: seq<Link>)
    ensures WithTopology(WithTopology(g, ids, links), ids, links) == WithTopology(g, ids, links)
  {
    var ns := set n | n in SwitchNodes(ids);
    var es := LinkTriples(links);
    var r1 := WithTopology(g, ids, links);
    TopologyClosedForm(g, ids, links);
    TopologyClosedForm(r1, ids, links);
    WithNodesKeeps(r1.nodes, ns);
    WithNodesKeeps(r1.nodes, Ends(es));
    var l := LastPorts(es);
    var e0 := g.edges;
    assert (e0 + l) + l == e0 + l;
  }

  /** add_flow: an (in_port, eth_dst) rule at the default priority that never expires. */
  function Rule(dpid: int, inPort: int, dst: Mac, out: int): (c: Command)
    ensures c.FlowAdd? && c.priority == OFP_DEFAULT_PRIORITY && c.idleTimeout == 0 && c.hardTimeout == 0
    ensures c.flowMatch == MatchInPortDst(inPort, dst) && c.output == out && c.dpid == dpid && c.releases.None?
  {
    FlowAdd(dpid, OFP_DEFAULT_PRIORITY, MatchInPortDst(inPort, dst), out, None, 0, 0)
  }

  /**
   * The packet-out as written: it names the buffer but never carries the
   * frame, so a packet the switch did not buffer is not forwarded.
   */
  function PacketOutAsWritten(dpid: int, inPort: int, bufferId: int, out: int): (c: Command)
    ensures c.PacketOut? && c.outputs == [out]
    ensures bufferId != OFP_NO_BUFFER <==> Delivers(c, dpid, bufferId, out)
  {
    PacketOut(dpid, inPort, bufferId, [out], false)
  }

  /** The packet-out carrying the frame whenever the switch did not buffer it. */
  function PacketOutFor(dpid: int, inPort: int, bufferId: int, out: int): (c: Command)
    ensures c.PacketOut? && c.outputs == [out]
    ensures Delivers(c, dpid, bufferId, out)
    ensures bufferId != OFP_NO_BUFFER ==> c == PacketOutAsWritten(dpid, inPort, bufferId, out)
  {
    PacketOut(dpid, inPort, bufferId, [out], bufferId == OFP_NO_BUFFER)
  }

  /**
   * What a packet-in that does not raise sends: a rule unless the output is
   * FLOOD, then exactly one packet-out that forwards the frame.
   */
  function Sends(dpid: int, inPort: int, bufferId: int, dst: Mac, out: int): (cmds: seq<Command>)
    ensures |cmds| == if out != OFPP_FLOOD then 2 else 1
    ensures cmds[|cmds| - 1] == PacketOutFor(dpid, inPort, bufferId, out)
    ensures forall i :: 0 <= i < |cmds| - 1 ==> !cmds[i].PacketOut?
    ensures out != OFPP_FLOOD <==> Rule(dpid, inPort, dst, out) in cmds
    ensures forall c :: c in cmds && c.FlowAdd? ==> c == Rule(dpid, inPort, dst, out)
    ensures bufferId != OFP_NO_BUFFER ==> cmds[|cmds| - 1] == PacketOutAsWritten(dpid, inPort, bufferId, out)
  {
    (if out != OFPP_FLOOD then [Rule(dpid, inPort, dst, out)] else []) + [PacketOutFor(dpid, inPort, bufferId, out)]
  }

  /**
   * The output port along path p: the port of the edge from this switch to the
   * hop after it; a switch not on p raises ValueError (list.index).
   */
  ghost predicate OutAlong(g: Graph, p: seq<Node>, dpid: int, dst: Mac, exit: Exit, out: int)
  {
    && |p| > 0 && p[|p| - 1] == Name(dst)
    && var hop := NextHop(p, Dpid(dpid));
    && (hop.None? ==> exit == Raised(ValueError))
    && (hop.Some? ==>
          && (Dpid(dpid), hop.value) in g.edges && g.edges[(Dpid(dpid), hop.value)].Some?
          && exit == Returned && out == g.edges[(Dpid(dpid), hop.value)].value)
  }

  /**
   * What choosing the output port may yield: FLOOD for a destination outside
   * the graph; NetworkXNoPath (uncaught) when no path reaches it; otherwise
   * the output along some shortest path from the source.
   */
  ghost predicate Chosen(g: Graph, dpid: int, f: Frame, exit: Exit, out: int)
  {
    && (Name(f.dst) !in g.nodes ==> exit == Returned && out == OFPP_FLOOD)
    && (Name(f.dst) in g.nodes && (forall q :: !IsPath(g, q, Name(f.src), Name(f.dst))) ==>
          exit == Raised(NetworkXNoPath))
    && (Name(f.dst) in g.nodes && (exists q :: IsPath(g, q, Name(f.src), Name(f.dst))) ==>
          exists p :: IsShortestPath(g, p, Name(f.src), Name(f.dst)) && OutAlong(g, p, dpid, f.dst, exit, out))
  }

  /** A packet-in that does not raise outputs to FLOOD or to a port of an edge leaving this switch. */
  lemma ChosenPortIsLocal(g: Graph, dpid: int, f: Frame, exit: Exit, out: int)
    requires Chosen(g, dpid, f, exit, out) && exit == Returned
    ensures out == OFPP_FLOOD || exists v :: (Dpid(dpid), v) in g.edges && g.edges[(Dpid(dpid), v)] == Some(out)
  {
    if Name(f.dst) in g.nodes {
      if forall q :: !IsPath(g, q, Name(f.src), Name(f.dst)) {
        assert false;
      }
      var p :| IsShortestPath(g, p, Name(f.src), Name(f.dst)) && OutAlong(g, p, dpid, f.dst, exit, out);
      var hop := NextHop(p, Dpid(dpid));
      assert hop.Some?;
      assert (Dpid(dpid), hop.value) in g.edges && g.edges[(Dpid(dpid), hop.value)] == Some(out);
    }
  }

  /** Choosing the output port of a packet-in, on the graph after learning. */
  method ChooseOut(g: Graph, dpid: int, f: Frame) returns (exit: Exit, out: int)
    requires WellFormed(g) && SwitchEdgesPorted(g) && Name(f.src) in g.nodes
    ensures Chosen(g, dpid, f, exit, out)
    ensures exit == Returned || exit == Raised(NetworkXNoPath) || exit == Raised(ValueError)
  {
    if Name(f.dst) !in g.nodes {
      return Returned, OFPP_FLOOD;
    }
    var path := ShortestPath(g, Name(f.src), Name(f.dst));
    if path.None? {
      return Raised(NetworkXNoPath), 0;
    }
    var p := path.value;
    var hop := NextHop(p, Dpid(dpid));
    if hop.None? {
      assert OutAlong(g, p, dpid, f.dst, Raised(ValueError), 0);
      return Raised(ValueError), 0;
    }
    NextHopIsEdge(g, p, Name(f.src), Name(f.dst), Dpid(dpid));
    out := g.edges[(Dpid(dpid), hop.value)].value;
    assert OutAlong(g, p, dpid, f.dst, Returned, out);
    exit := Returned;
  }

  class SimpleSwitch13 {
    /** Created per switch on packet-in; learning into it is disabled, so every row stays empty. */
    var macToPort: map<int, map<Mac, int>>
    var net: Graph
    /** Every message sent to a switch, oldest first. */
    var sent: seq<Command>

    ghost predicate Valid()
      reads this
    {
      WellFormed(net) && SwitchEdgesPorted(net) && forall d :: d in macToPort ==> macToPort[d] == map[]
    }

    constructor()
      ensures Valid() && macToPort == map[] && net == Empty() && sent == []
    {
      macToPort := map[];
      net := Empty();
      sent := [];
    }

    /** The table-miss FlowMod of _switch_features_handler. */
    method SwitchFeatures(dpid: int)
      modifies this
      ensures sent == old(sent) + [TableMiss(dpid)]
      ensures macToPort == old(macToPort) && net == old(net)
    {
      sent := sent + [TableMiss(dpid)];
    }

    /** add_flow. */
    method AddFlow(dpid: int, inPort: int, dst: Mac, out: int)
      modifies this
      ensures sent == old(sent) + [Rule(dpid, inPort, dst, out)]
      ensures macToPort == old(macToPort) && net == old(net)
    {
      sent := sent + [FlowAdd(dpid, OFP_DEFAULT_PRIORITY, MatchInPortDst(inPort, dst), out, None, 0, 0)];
    }

    /**
     * delete_flow: one delete per MAC of the switch's row, KeyError without a
     * row. The rows are always empty, so nothing is ever sent.
     */
    method DeleteFlow(dpid: int) returns (exit: Exit)
      requires Valid()
      modifies this
      ensures exit == Raised(KeyError) <==> dpid !in macToPort
      ensures exit == Returned || exit == Raised(KeyError)
      ensures sent == old(sent)
      ensures macToPort == old(macToPort) && net == old(net)
    {
      if dpid !in macToPort {
        return Raised(KeyError);
      }
      var cmds := DeleteEach(dpid, macToPort[dpid].Keys);
      sent := sent + cmds;
      return Returned;
    }

    /** get_topology_data, given the switch ids and links the topology service reports. */
    method GetTopologyData(ids: seq<int>, links: seq<Link>)
      requires Valid()
      modifies this
      ensures Valid()
      ensures net == WithTopology(old(net), ids, links)
      ensures macToPort == old(macToPort) && sent == old(sent)
    {
      TopologyKeepsShape(net, ids, links);
      net := AddNodesFrom(net, SwitchNodes(ids));
      net := AddEdgesFrom(net, LinkTriples(links));
    }

    /** The messages of a packet-in that did not raise: the rule unless flooding, then the packet-out. */
    method Send(dpid: int, inPort: int, bufferId: int, dst: Mac, out: int)
      modifies this
      ensures sent == old(sent) + Sends(dpid, inPort, bufferId, dst, out)
      ensures macToPort == old(macToPort) && net == old(net)
    {
      if out != OFPP_FLOOD {
        AddFlow(dpid, inPort, dst, out);
      }
      sent := sent + [PacketOutFor(dpid, inPort, bufferId, out)];
    }

    /**
     * _packet_in_handler: make the switch's MAC row exist, ignore LLDP, learn
     * an unknown source, choose the output port, then send the rule (unless
     * flooding) and one packet-out.
     */
    method PacketIn(dpid: int, inPort: int, bufferId: int, f: Frame) returns (exit: Exit)
      requires Valid()
      modifies this
      ensures Valid()
      ensures macToPort == if dpid in old(macToPort) then old(macToPort) else old(macToPort)[dpid := map[]]
      ensures f.ethertype == ETH_TYPE_LLDP ==> exit == Returned && net == old(net) && sent == old(sent)
      ensures f.ethertype != ETH_TYPE_LLDP ==>
                && net == LearnSource(old(net), dpid, inPort, f.src)
                && exists out :: Chosen(net, dpid, f, exit, out)
                                 && sent == old(sent) + (if exit == Returned then Sends(dpid, inPort, bufferId, f.dst, out) else [])
    {
      if dpid !in macToPort {
        macToPort := macToPort[dpid := map[]];
      }
      if f.ethertype == ETH_TYPE_LLDP {
        return Returned;
      }
      net := LearnSource(net, dpid, inPort, f.src);
      var out;
      exit, out := ChooseOut(net, dpid, f);
      if exit == Returned {
        Send(dpid, inPort, bufferId, f.dst, out);
      }
    }
  }
}
