/**
 * The graph-based controller of wifi/controller.py: a directed graph of
 * switches and hosts whose edges carry the egress port, built from
 * switch-enter and link-add events and from host traffic; known destinations
 * are reached along a shortest path, unknown ones are flooded on the ports a
 * spanning tree of the undirected graph allows.
 */
module TopologySwitch {
  import opened Wrappers
  import opened Graphs
  import opened OpenFlow
  import opened Paths
  import opened SpanningTrees

  /** Every edge carries a 'port' attribute (every add_edge call of this controller gives one). */
  predicate AllPorted(g: Graph)
  {
    forall e :: e in g.edges ==> g.edges[e].Some?
  }

  /** The node add_switch uses for a datapath: the integer id, except that 0 is stored as '0'. */
  function SwitchNode(dpid: int): (n: Node)
    ensures dpid != 0 ==> n == Dpid(dpid)
    ensures dpid == 0 ==> n == Name("0") && n != Dpid(dpid)
  {
    if dpid == 0 then Name("0") else Dpid(dpid)
  }

  /** Python's `sub in s` on strings. */
  predicate Contains(s: string, sub: string)
    decreases |s|
  {
    sub <= s || (s != [] && Contains(s[1..], sub))
  }

  /** Whether a substring occurs at some offset: the independent reading of Contains. */
  lemma {:induction false} ContainsAt(s: string, sub: string)
    ensures Contains(s, sub) <==> exists i :: 0 <= i <= |s| - |sub| && sub <= s[i..]
    decreases |s|
  {
    if sub <= s {
      assert s[0..] == s;
    } else if s != [] {
      ContainsAt(s[1..], sub);
      if Contains(s[1..], sub) {
        var i :| 0 <= i <= |s[1..]| - |sub| && sub <= s[1..][i..];
        assert s[1..][i..] == s[i + 1..];
      }
      if exists i :: 0 <= i <= |s| - |sub| && sub <= s[i..] {
        var i :| 0 <= i <= |s| - |sub| && sub <= s[i..];
        assert i != 0;
        assert s[1..][i - 1..] == s[i..];
      }
    }
  }

  /** The host test of the packet-in handler: the MAC contains "00:00:00". */
  predicate IsHostMac(src: Mac)
  {
    Contains(src, "00:00:00")
  }

  /**
   * The graph after the learning step of a packet-in: an unknown host MAC
   * becomes a host node linked both ways to the switch on the ingress port,
   * and the switch is marked as having a host. A known source stays put.
   */
  function LearnHost(g: Graph, dpid: int, inPort: int, src: Mac): (r: Graph)
    ensures Name(src) in g.nodes || !IsHostMac(src) ==> r == g
    ensures Name(src) !in g.nodes && IsHostMac(src) ==> r == AttachHost(g, dpid, inPort, src)
    ensures WellFormed(g) ==> WellFormed(r)
    ensures AllPorted(g) ==> AllPorted(r)
  {
    if Name(src) in g.nodes || !IsHostMac(src) then g else AttachHost(g, dpid, inPort, src)
  }

  /**
   * add_node(src, n_type='host'), the two add_edge calls with port in_port,
   * and has_host='true' on the switch: what they add and what they keep.
   */
  function AttachHost(g: Graph, dpid: int, inPort: int, src: Mac): (r: Graph)
    requires Name(src) !in g.nodes
    ensures r.nodes.Keys == g.nodes.Keys + {Name(src), Dpid(dpid)}
    ensures r.nodes[Name(src)] == map["n_type" := "host"]
    ensures "has_host" in r.nodes[Dpid(dpid)] && r.nodes[Dpid(dpid)]["has_host"] == "true"
    ensures Dpid(dpid) in g.nodes ==> r.nodes[Dpid(dpid)] == g.nodes[Dpid(dpid)]["has_host" := "true"]
    ensures Dpid(dpid) !in g.nodes ==> r.nodes[Dpid(dpid)] == map["has_host" := "true"]
    ensures forall m :: m in g.nodes && m != Dpid(dpid) ==> r.nodes[m] == g.nodes[m]
    ensures r.edges == g.edges[(Name(src), Dpid(dpid)) := Some(inPort)][(Dpid(dpid), Name(src)) := Some(inPort)]
    ensures WellFormed(g) ==> WellFormed(r)
    ensures AllPorted(g) ==> AllPorted(r)
  {
    var g3 := LinkHost(g, dpid, inPort, src);
    SetNodeAttr(g3, Dpid(dpid), "has_host", "true")
  }

  /** The host node and its two edges, before the switch is marked. */
  function LinkHost(g: Graph, dpid: int, inPort: int, src: Mac): (r: Graph)
    requires Name(src) !in g.nodes
    ensures r.nodes.Keys == g.nodes.Keys + {Name(src), Dpid(dpid)}
    ensures r.nodes[Name(src)] == map["n_type" := "host"]
    ensures Dpid(dpid) !in g.nodes ==> r.nodes[Dpid(dpid)] == map[]
    ensures forall m :: m in g.nodes ==> r.nodes[m] == g.nodes[m]
    ensures r.edges == g.edges[(Name(src), Dpid(dpid)) := Some(inPort)][(Dpid(dpid), Name(src)) := Some(inPort)]
    ensures WellFormed(g) ==> WellFormed(r)
    ensures AllPorted(g) ==> AllPorted(r)
  {
    var attrs := map["n_type" := "host"];
    var g1 := AddNode(g, Name(src), attrs);
    assert g1 == Graph(g.nodes[Name(src) := attrs], g.edges) by {
      assert map[] + attrs == attrs;
    }
    var g2 := AddEdge(g1, Name(src), Dpid(dpid), Some(inPort));
    var g3 := AddEdge(g2, Dpid(dpid), Name(src), Some(inPort));
    assert g3.nodes == WithNodes(g1.nodes, {Name(src), Dpid(dpid)}) by {
      WithNodesKeeps(g2.nodes, {Dpid(dpid), Name(src)});
    }
    g3
  }

  /** A learned host is never relocated: a later packet-in from it, on any switch and port, keeps the graph. */
  lemma HostNeverRelocated(g: Graph, d1: int, p1: int, d2: int, p2: int, src: Mac)
    ensures LearnHost(LearnHost(g, d1, p1, src), d2, p2, src) == LearnHost(g, d1, p1, src)
  {
  }

  /** The graph after link_add_handler: an uplink with the source port and a downlink with the destination port. */
  function WithLink(g: Graph, srcDpid: int, dstDpid: int, srcPort: int, dstPort: int): (r: Graph)
    ensures (Dpid(dstDpid), Dpid(srcDpid)) in r.edges && r.edges[(Dpid(dstDpid), Dpid(srcDpid))] == Some(dstPort)
    ensures srcDpid != dstDpid ==> (Dpid(srcDpid), Dpid(dstDpid)) in r.edges && r.edges[(Dpid(srcDpid), Dpid(dstDpid))] == Some(srcPort)
    ensures r.nodes.Keys == g.nodes.Keys + {Dpid(srcDpid), Dpid(dstDpid)}
    ensures forall n :: n in g.nodes ==> r.nodes[n] == g.nodes[n]
    ensures r.edges.Keys == g.edges.Keys + {(Dpid(srcDpid), Dpid(dstDpid)), (Dpid(dstDpid), Dpid(srcDpid))}
    ensures forall e :: e in g.edges && e != (Dpid(srcDpid), Dpid(dstDpid)) && e != (Dpid(dstDpid), Dpid(srcDpid)) ==> r.edges[e] == g.edges[e]
    ensures WellFormed(g) ==> WellFormed(r)
    ensures AllPorted(g) ==> AllPorted(r)
  {
    AddEdge(AddEdge(g, Dpid(srcDpid), Dpid(dstDpid), Some(srcPort)), Dpid(dstDpid), Dpid(srcDpid), Some(dstPort))
  }

  /** A DiGraph holds one edge per ordered pair: repeating a link-add event changes nothing. */
  lemma {:induction false} WithLinkIdempotent(g: Graph, s: int, d: int, sp: int, dp: int)
    ensures WithLink(WithLink(g, s, d, sp, dp), s, d, sp, dp) == WithLink(g, s, d, sp, dp)
  {
    var g1 := WithLink(g, s, d, sp, dp);
    var g2 := WithLink(g1, s, d, sp, dp);
    WithLinkSameEdges(g, s, d, sp, dp);
    WithLinkSameNodes(g1, s, d, sp, dp);
    assert g2 == Graph(g2.nodes, g2.edges);
  }

  lemma WithLinkSameEdges(g: Graph, s: int, d: int, sp: int, dp: int)
    ensures WithLink(WithLink(g, s, d, sp, dp), s, d, sp, dp).edges == WithLink(g, s, d, sp, dp).edges
  {
    var up, down := (Dpid(s), Dpid(d)), (Dpid(d), Dpid(s));
    var g1 := WithLink(g, s, d, sp, dp);
    WithLinkEdges(g, s, d, sp, dp);
    WithLinkEdges(g1, s, d, sp, dp);
    UpdateTwice(g.edges, up, Some(sp), down, Some(dp));
  }

  lemma WithLinkEdges(g: Graph, s: int, d: int, sp: int, dp: int)
    ensures WithLink(g, s, d, sp, dp).edges == g.edges[(Dpid(s), Dpid(d)) := Some(sp)][(Dpid(d), Dpid(s)) := Some(dp)]
  {
  }

  lemma WithLinkSameNodes(g1: Graph, s: int, d: int, sp: int, dp: int)
    requires Dpid(s) in g1.nodes && Dpid(d) in g1.nodes
    ensures WithLink(g1, s, d, sp, dp).nodes == g1.nodes
  {
    var a := AddEdge(g1, Dpid(s), Dpid(d), Some(sp));
    WithNodesKeeps(g1.nodes, {Dpid(s), Dpid(d)});
    assert a.nodes == g1.nodes;
    WithNodesKeeps(a.nodes, {Dpid(d), Dpid(s)});
  }

  lemma UpdateTwice<K, V>(m: map<K, V>, k1: K, v1: V, k2: K, v2: V)
    ensures m[k1 := v1][k2 := v2][k1 := v1][k2 := v2] == m[k1 := v1][k2 := v2]
  {
  }

  /** Both endpoints of the frame are nodes of the graph. */
  predicate Known(g: Graph, f: Frame)
  {
    Name(f.dst) in g.nodes && Name(f.src) in g.nodes
  }

  /** A logical port number, as opposed to a reserved one (the handler keeps ports below 1000000000). */
  function IsPhysicalPort(p: int): bool
  {
    p < 1000000000
  }

  function NotIn(forbidden: set<int>): int -> bool
  {
    p => p !in forbidden
  }

  /**
   * The ports of here's outgoing edges whose undirected link is not in the
   * tree: flooding out of them could close a loop.
   */
  function ForbiddenPorts(g: Graph, tree: set<(Node, Node)>, here: Node): (r: set<int>)
    requires AllPorted(g)
    ensures forall p :: p in r <==> exists e :: e in g.edges && e.0 == here && !InTree(tree, e.0, e.1) && g.edges[e] == Some(p)
  {
    set e | e in g.edges && e.0 == here && !InTree(tree, e.0, e.1) :: g.edges[e].value
  }

  /**
   * The flood set: the switch's logical ports (below 1000000000) that are not
   * forbidden, and only those, in the switch's order.
   */
  function FloodPorts(dpPorts: seq<int>, forbidden: set<int>): (r: seq<int>)
    ensures forall p :: p in r <==> p in dpPorts && IsPhysicalPort(p) && p !in forbidden
    ensures |r| <= |dpPorts|
  {
    FilterMembers(dpPorts, IsPhysicalPort);
    FilterMembers(Filter(dpPorts, IsPhysicalPort), NotIn(forbidden));
    Filter(Filter(dpPorts, IsPhysicalPort), NotIn(forbidden))
  }

  /**
   * The port of a host link is never forbidden when every edge out of the
   * switch on that port leads to a single-attached host, as the stations
   * behind one access point's wireless port do.
   */
  lemma HostPortAllowed(g: Graph, tree: set<(Node, Node)>, s: Node, h: Node)
    requires AllPorted(g) && IsSpanningForest(g, tree)
    requires (s, h) in g.edges && s != h
    requires forall e :: e in g.edges && e.0 == s && g.edges[e] == g.edges[(s, h)] ==>
               e.1 != s && forall v :: Adjacent(g, e.1, v) ==> v == s
    ensures g.edges[(s, h)].value !in ForbiddenPorts(g, tree, s)
  {
    forall e | e in g.edges && e.0 == s && g.edges[e] == g.edges[(s, h)] ensures InTree(tree, e.0, e.1) {
      HostLinkInTree(g, tree, s, e.1);
    }
  }

  /** A flood is one packet-out on all allowed ports, or nothing when none is allowed. */
  function FloodCommands(dpid: int, inPort: int, bufferId: int, ports: seq<int>): seq<Command>
  {
    if ports == [] then [] else [PacketOut(dpid, inPort, bufferId, ports, bufferId == OFP_NO_BUFFER)]
  }

  /** The rule and the packet-out that send a frame for dst out of port out. */
  function PathCommands(dpid: int, inPort: int, bufferId: int, dst: Mac, out: int): seq<Command>
  {
    [FlowAdd(dpid, 1, MatchInPortDst(inPort, dst), out, None, 0, 0),
     PacketOut(dpid, inPort, bufferId, [out], bufferId == OFP_NO_BUFFER)]
  }

  /**
   * Forwarding along path p: the hop after this switch on p gives the rule's
   * output port, the port of the edge to that hop; a switch not on p raises
   * ValueError (list.index) and sends nothing.
   */
  ghost predicate RoutedAlong(g: Graph, p: seq<Node>, dpid: int, inPort: int, bufferId: int, dst: Mac,
                              exit: Exit, before: seq<Command>, after: seq<Command>)
  {
    && |p| > 0 && p[|p| - 1] == Name(dst)
    && var hop := NextHop(p, Dpid(dpid));
    && (hop.None? ==> exit == Raised(ValueError) && after == before)
    && (hop.Some? ==>
          && (Dpid(dpid), hop.value) in g.edges && g.edges[(Dpid(dpid), hop.value)].Some?
          && exit == Returned
          && after == before + PathCommands(dpid, inPort, bufferId, dst, g.edges[(Dpid(dpid), hop.value)].value))
  }

  /**
   * The outcome for a frame whose endpoints are both known: nothing when no
   * path joins them, otherwise forwarding along some shortest path.
   */
  ghost predicate RouteOutcome(g: Graph, dpid: int, inPort: int, bufferId: int, f: Frame,
                               exit: Exit, before: seq<Command>, after: seq<Command>)
  {
    && ((forall q :: !IsPath(g, q, Name(f.src), Name(f.dst))) ==> exit == Returned && after == before)
    && ((exists q :: IsPath(g, q, Name(f.src), Name(f.dst))) ==>
          exists p :: IsShortestPath(g, p, Name(f.src), Name(f.dst))
                      && RoutedAlong(g, p, dpid, inPort, bufferId, f.dst, exit, before, after))
  }

  /** The outcome for an unknown destination: a flood limited by some spanning forest of the graph. */
  ghost predicate FloodOutcome(g: Graph, dpid: int, inPort: int, bufferId: int, dpPorts: seq<int>,
                               before: seq<Command>, after: seq<Command>)
    requires AllPorted(g)
  {
    exists tree :: IsSpanningForest(g, tree)
                   && after == before + FloodCommands(dpid, inPort, bufferId, FloodPorts(dpPorts, ForbiddenPorts(g, tree, Dpid(dpid))))
  }

  /** after extends before by one delete of target on each registered switch, in order. */
  ghost predicate DeletesOnEach(before: seq<Command>, after: seq<Command>, switches: seq<int>, target: Node)
  {
    |after| == |before| + |switches| && after[..|before|] == before
    && forall j :: 0 <= j < |switches| ==> after[|before| + j] == FlowDelete(switches[j], target)
  }

  /** Python truthiness of a node key: a non-zero id or a non-empty name. */
  predicate Truthy(n: Node)
  {
    match n
    case Dpid(i) => i != 0
    case Name(s) => s != ""
  }

  /** The ports_to_send loop over the available ports, keeping those not forbidden. */
  method PortsToSend(available: seq<int>, forbidden: set<int>) returns (ports: seq<int>)
    ensures ports == Filter(available, NotIn(forbidden))
    ensures forall p :: p in ports <==> p in available && p !in forbidden
  {
    ports := [];
    var i := 0;
    while i < |available|
      invariant 0 <= i <= |available|
      invariant ports == Filter(available[..i], NotIn(forbidden))
    {
      FilterSnoc(available[..i], available[i], NotIn(forbidden));
      assert available[..i + 1] == available[..i] + [available[i]];
      if available[i] !in forbidden {
        ports := ports + [available[i]];
      }
      i := i + 1;
    }
    assert available[..i] == available;
    FilterMembers(available, NotIn(forbidden));
  }

  class SimpleSwitch13 {
    var net: Graph
    /** The registered datapaths, in order of arrival; a datapath may be listed twice. */
    var switches: seq<int>
    /** Every message sent to a switch, oldest first. */
    var sent: seq<Command>

    ghost predicate Valid()
      reads this
    {
      WellFormed(net) && AllPorted(net)
    }

    constructor()
      ensures Valid() && net == Empty() && switches == [] && sent == []
    {
      net := Empty();
      switches := [];
      sent := [];
    }

    /** add_switch: list the datapath and make it a switch node without hosts. */
    method AddSwitch(dpid: int)
      requires Valid()
      modifies this
      ensures Valid()
      ensures switches == old(switches) + [dpid]
      ensures net == AddNode(old(net), SwitchNode(dpid), map["n_type" := "switch", "has_host" := "false"])
      ensures net.nodes[SwitchNode(dpid)]["n_type"] == "switch" && net.nodes[SwitchNode(dpid)]["has_host"] == "false"
      ensures sent == old(sent)
    {
      switches := switches + [dpid];
      net := AddNode(net, SwitchNode(dpid), map["n_type" := "switch", "has_host" := "false"]);
    }

    /** link_add_handler. */
    method LinkAdd(srcDpid: int, dstDpid: int, srcPort: int, dstPort: int)
      requires Valid()
      modifies this
      ensures Valid()
      ensures net == WithLink(old(net), srcDpid, dstDpid, srcPort, dstPort)
      ensures switches == old(switches) && sent == old(sent)
    {
      net := AddEdge(net, Dpid(srcDpid), Dpid(dstDpid), Some(srcPort));
      net := AddEdge(net, Dpid(dstDpid), Dpid(srcDpid), Some(dstPort));
    }

    /** switch_features_handler: the table-miss entry. */
    method SwitchFeatures(dpid: int)
      modifies this
      ensures sent == old(sent) + [TableMiss(dpid)]
      ensures net == old(net) && switches == old(switches)
    {
      sent := sent + [TableMiss(dpid)];
    }

    /** delete_flow: remove the rules for eth_dst on one switch. */
    method DeleteFlow(dpid: int, ethDst: Node)
      modifies this
      ensures sent == old(sent) + [FlowDelete(dpid, ethDst)]
      ensures net == old(net) && switches == old(switches)
    {
      sent := sent + [FlowDelete(dpid, ethDst)];
    }

    /** The loop of port_status_handler over the registered switches. */
    method DeleteEverywhere(target: Node)
      modifies this
      ensures DeletesOnEach(old(sent), sent, switches, target)
      ensures net == old(net) && switches == old(switches)
    {
      var i := 0;
      while i < |switches|
        invariant 0 <= i <= |switches|
        invariant net == old(net) && switches == old(switches)
        invariant |sent| == |old(sent)| + i && sent[..|old(sent)|] == old(sent)
        invariant forall j :: 0 <= j < i ==> sent[|old(sent)| + j] == FlowDelete(switches[j], target)
      {
        DeleteFlow(switches[i], target);
        i := i + 1;
      }
    }

    /**
     * port_status_handler: on a port deletion, the node some edge of the
     * switch reaches through that port (if any) loses its rules on every
     * switch and leaves the graph with all its edges. The result is the node
     * the port led to.
     */
    method PortStatus(dpid: int, reason: int, port: int) returns (target: Option<Node>)
      requires Valid()
      modifies this
      ensures Valid()
      ensures switches == old(switches)
      ensures reason != OFPPR_DELETE ==> target.None?
      ensures reason == OFPPR_DELETE ==>
                (target.None? <==> forall e :: e in old(net).edges && e.0 == Dpid(dpid) ==> old(net).edges[e] != Some(port))
      ensures target.Some? ==> (Dpid(dpid), target.value) in old(net).edges && old(net).edges[(Dpid(dpid), target.value)] == Some(port)
      ensures target.Some? && Truthy(target.value) ==>
                net == RemoveNode(old(net), target.value) && DeletesOnEach(old(sent), sent, switches, target.value)
      ensures target.None? || !Truthy(target.value) ==> net == old(net) && sent == old(sent)
    {
      if reason != OFPPR_DELETE {
        return None;
      }
      var candidates := set e | e in net.edges && e.0 == Dpid(dpid) && net.edges[e] == Some(port) :: e.1;
      assert forall e :: e in net.edges && e.0 == Dpid(dpid) && net.edges[e] == Some(port) ==> e.1 in candidates;
      if candidates == {} {
        return None;
      }
      var n :| n in candidates;
      target := Some(n);
      if Truthy(n) {
        DeleteEverywhere(n);
        net := RemoveNode(net, n);
      }
    }

    /**
     * packet_in_handler: ignore LLDP; learn a new host; forward along a
     * shortest path when both endpoints are known, flood along the spanning
     * tree otherwise. A switch missing from the path raises ValueError.
     */
    method PacketIn(dpid: int, inPort: int, bufferId: int, f: Frame, dpPorts: seq<int>) returns (exit: Exit)
      requires Valid()
      modifies this
      ensures Valid()
      ensures switches == old(switches)
      ensures f.ethertype == ETH_TYPE_LLDP ==> exit == Returned && net == old(net) && sent == old(sent)
      ensures f.ethertype != ETH_TYPE_LLDP ==> net == LearnHost(old(net), dpid, inPort, f.src)
      ensures f.ethertype != ETH_TYPE_LLDP && Known(net, f) ==>
                RouteOutcome(net, dpid, inPort, bufferId, f, exit, old(sent), sent)
      ensures f.ethertype != ETH_TYPE_LLDP && !Known(net, f) ==>
                exit == Returned && FloodOutcome(net, dpid, inPort, bufferId, dpPorts, old(sent), sent)
    {
      if f.ethertype == ETH_TYPE_LLDP {
        return Returned;
      }
      net := LearnHost(net, dpid, inPort, f.src);
      if Known(net, f) {
        exit := Route(dpid, inPort, bufferId, f);
      } else {
        Flood(dpid, inPort, bufferId, dpPorts);
        exit := Returned;
      }
    }

    /** The shortest-path branch of packet_in_handler. */
    method Route(dpid: int, inPort: int, bufferId: int, f: Frame) returns (exit: Exit)
      requires Valid() && Known(net, f)
      modifies this
      ensures net == old(net) && switches == old(switches)
      ensures RouteOutcome(net, dpid, inPort, bufferId, f, exit, old(sent), sent)
    {
      var s, t := Name(f.src), Name(f.dst);
      var path := ShortestPath(net, s, t);
      if path.None? {
        return Returned;
      }
      var p := path.value;
      var hop := NextHop(p, Dpid(dpid));
      if hop.None? {
        assert RoutedAlong(net, p, dpid, inPort, bufferId, f.dst, Raised(ValueError), sent, sent);
        return Raised(ValueError);
      }
      NextHopIsEdge(net, p, s, t, Dpid(dpid));
      var out := net.edges[(Dpid(dpid), hop.value)].value;
      sent := sent + PathCommands(dpid, inPort, bufferId, f.dst, out);
      assert RoutedAlong(net, p, dpid, inPort, bufferId, f.dst, Returned, old(sent), sent);
      return Returned;
    }

    /** The flooding branch of packet_in_handler. */
    method Flood(dpid: int, inPort: int, bufferId: int, dpPorts: seq<int>)
      requires Valid()
      modifies this
      ensures net == old(net) && switches == old(switches)
      ensures FloodOutcome(net, dpid, inPort, bufferId, dpPorts, old(sent), sent)
    {
      var available := Filter(dpPorts, IsPhysicalPort);
      var tree := SpanningForest(net);
      var forbidden := ForbiddenPorts(net, tree, Dpid(dpid));
      var ports := PortsToSend(available, forbidden);
      if ports != [] {
        sent := sent + [PacketOut(dpid, inPort, bufferId, ports, bufferId == OFP_NO_BUFFER)];
      }
      assert sent == old(sent) + FloodCommands(dpid, inPort, bufferId, FloodPorts(dpPorts, ForbiddenPorts(net, tree, Dpid(dpid))));
    }
  }
}
