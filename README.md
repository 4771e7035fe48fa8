# Ryu OpenFlow 1.3 controllers, modelled in Dafny

This project models the forwarding core of three Ryu controller applications
from the mininet-wifi experiments and proves properties of the model:

- `controller.py`, a learning switch (`LearningSwitch`, learning_switch.dfy).
  It keeps a per-switch MAC-to-port table, a global IP-to-MAC ARP table and
  a broadcast-suppression table keyed by (dpid, requester MAC, requested IP).
  It answers ARP requests from its table and installs priority-1
  (in_port, eth_dst) rules for known destinations.
- `wifi/controller.py`, topology-graph forwarding (`TopologySwitch`,
  topology_switch.dfy). It keeps a directed graph whose edges carry the
  egress port. The graph is built from switch-enter and link-add events and
  from host traffic. Known destinations are reached along a shortest path.
  Unknown ones are flooded only on the ports that a minimum spanning tree of
  the undirected graph allows. A deleted port removes the host behind it,
  together with its rules.
- `mob-controller.py`, the earlier graph variant (`MobilitySwitch`,
  mobility_switch.dfy). It sends to the shortest-path next hop or floods, and
  rebuilds the topology from the full switch and link lists.

Each controller is a class whose fields are the controller's tables. Every
handler is a method that updates them and appends the OpenFlow messages it
sends to a command log. The shared modules are:

- `Graphs` (graph.dfy): the networkx DiGraph as a value. Nodes carry
  attribute dictionaries; an edge may or may not carry a 'port'.
- `OpenFlow` (openflow.dfy): protocol constants, decoded frames, the
  command log, and the exceptions a handler may end with.
- `Paths` (paths.dfy): a breadth-first search proved to return a shortest
  path, or none only when no path exists. It stands in for
  `nx.shortest_path`, together with the `path[path.index(dpid) + 1]` lookup.
- `SpanningTrees` (spanning.dfy): a breadth-first spanning forest, with the
  witness that it is one. Every edge weighs 1, so this is what
  `nx.minimum_spanning_tree` of the undirected graph returns, up to
  tie-breaking.

A handler that raises in Python returns an `Exit` value, `Raised(e)`. State
changed before the raise stays changed, as it does in Python.

## Model

| member | source | states |
|---|---|---|
| Graphs.AddNode | wifi/controller.py:84 | add_node creates the node if absent and merges the given attributes into its dictionary; other nodes and all edges are kept |
| Graphs.AddEdge | wifi/controller.py:103-105 | add_edge creates missing endpoints; the pair's port becomes the given one, or keeps an old one when none is given; other edges are kept |
| Graphs.AddEdgeIdempotent | wifi/controller.py:103-105 | a DiGraph holds one edge per ordered pair: adding the same edge twice is adding it once |
| Graphs.RemoveNode | wifi/controller.py:152 | remove_node drops the node and exactly the edges that touch it; everything else is kept |
| Graphs.SetNodeAttr | wifi/controller.py:197 | setting one attribute of an existing node changes that key only; other nodes and all edges are kept |
| Graphs.AddNodesFrom | mob-controller.py:170 | every listed node is present afterwards, and existing nodes keep their attributes |
| Graphs.AddEdgesFrom | mob-controller.py:171 | add_edges_from keeps every node and edge already there, and keeps every edge between nodes |
| Graphs.AddEdgesFromClosedForm | mob-controller.py:171 | add_edges_from equals adding every endpoint as a node and giving each named pair the port of its last triple; other edges stay |
| Graphs.LastPortsCover | mob-controller.py:164-171 | every triple's pair receives a port, and every pair that receives one is named by the list with both ends |
| Graphs.LastPortsIsLast | mob-controller.py:164-171 | the port a pair receives is the one of the last triple naming that pair |
| OpenFlow.DeleteEach | controller.py:78-84 | the delete loop sends exactly one FlowDelete on the switch for each MAC key of its row, and nothing else |
| OpenFlow.FilterMembers | wifi/controller.py:234-235 | the filtered ports are exactly the listed ports the test accepts, and there are no more of them than listed ports |
| Paths.ShortestPath | wifi/controller.py:203-211 | a result is a path of graph edges from src to dst with no shorter path; None only when no path exists at all |
| Paths.ShortestPathIsSimple | wifi/controller.py:205 | a shortest path visits no node twice, so `path.index` names the switch's only position |
| Paths.IndexOf | wifi/controller.py:213 | list.index gives the first position holding the element, and None (ValueError) exactly when it is absent |
| Paths.NextHop | wifi/controller.py:213 | the next hop is the element after the switch's first position; None exactly when the switch is not on the path |
| Paths.NextHopIsEdge | wifi/controller.py:213-215 | on a path ending at another node, the next hop is the head of an edge from the switch, so its port lookup succeeds |
| SpanningTrees.SpanningForest | wifi/controller.py:237 | the result is a spanning forest of the undirected graph: acyclic parent links along graph edges, one tree per connected part |
| SpanningTrees.TriangleLeavesOneLinkOut | wifi/controller.py:237-244 | on an isolated 3-cycle of switches, exactly one of the three undirected links is outside the tree, so exactly one is forbidden |
| SpanningTrees.HostLinkInTree | wifi/controller.py:237-244 | the link to a node whose only neighbour is its switch (a single-attached host) is always in the tree |
| LearningSwitch.LearnArp | controller.py:200-202 | after an ARP frame, its sender IP maps to the frame's source MAC, overwriting any old entry; no other entry changes; without ARP the table is unchanged |
| LearningSwitch.LearnMac | controller.py:205-209 | the switch's row exists afterwards; the source is bound to the ingress port only if it was unbound; no existing binding changes |
| LearningSwitch.LearnMacFirstSightingWins | controller.py:205-209 | a later packet-in from the same source on the same switch, on any port, changes nothing |
| LearningSwitch.RecordBroadcast | controller.py:102-116 | the first broadcast ARP for a key records its ingress port; recorded entries never change; other frames leave the table alone |
| LearningSwitch.ProxyReply | controller.py:122-143 | the reply satisfies RFC 826 "Packet Reception" (opcode reply, owner as sender, requester as target) exactly when the request's Ethernet source equals its ARP sender MAC |
| LearningSwitch.ProxyReplyKeepsArpTable | controller.py:122-145 | learning from the proxy reply itself would leave the ARP table as it was |
| LearningSwitch.Verdict | controller.py:102-146 | a frame is dropped exactly when it repeats a recorded broadcast from another port; it is answered exactly when it is not dropped and asks for a known IP; a repeat on the recorded port is never dropped |
| LearningSwitch.VerdictCommands | controller.py:109-145 | a drop sends one empty packet-out; an answer sends the reply out of the ingress port; a pass sends nothing |
| LearningSwitch.Unicast | controller.py:229-244 | a priority-1 (in_port, dst) rule to the learned port that never times out comes first and names the buffer exactly when the switch holds the packet; some message delivers the packet; a packet-out follows exactly when the switch did not buffer the packet, and nothing else is sent (one message, or two) |
| LearningSwitch.UnicastAsWritten | controller.py:56-63 | as written, agrees with Unicast for every buffer id except 0, for which no message delivers the packet |
| LearningSwitch.Forward | controller.py:227-244 | some message delivers the packet; no rule is installed exactly when the output is FLOOD, which is a single packet-out; for every buffer id but 0 it sends exactly what the code as written sends |
| LearningSwitch.SimpleSwitch13.constructor | controller.py:38-44 | all tables and the switch list start empty, and nothing is sent |
| LearningSwitch.SimpleSwitch13.SwitchFeatures | controller.py:155-176 | the switch is appended only if absent, so the list keeps no duplicates; the table-miss entry is sent |
| LearningSwitch.SimpleSwitch13.ArpHandler | controller.py:86-146 | the suppression table becomes RecordBroadcast's; the frame is consumed exactly when its Verdict is not Pass; what is sent is VerdictCommands of that Verdict |
| LearningSwitch.SimpleSwitch13.PacketIn | controller.py:178-244 | ARP and MAC tables are learned as LearnArp and LearnMac say; a known destination is sent by Forward to its learned port; otherwise the ARP handler consumes the frame or it is flooded with no rule |
| LearningSwitch.SimpleSwitch13.Learn | controller.py:200-209 | the learning half of the packet-in: exactly LearnArp and LearnMac, nothing sent |
| LearningSwitch.SimpleSwitch13.Send | controller.py:227-244 | the sending half of the packet-in: appends exactly Forward's messages |
| LearningSwitch.SimpleSwitch13.MacByPort | controller.py:148-153 | KeyError exactly when the switch has no row; otherwise a MAC bound to the port, and None exactly when no MAC of the row is bound to it |
| LearningSwitch.SimpleSwitch13.PortStatus | controller.py:247-267 | a port deletion looks up the MAC (KeyError exactly when the switch has no row) and changes no table and sends nothing |
| LearningSwitch.SimpleSwitch13.DeleteFlowAsWritten | controller.py:65-84 | as written: with a truthy eth_dst nothing is sent; otherwise one delete per MAC of the switch's row, or KeyError without a row |
| LearningSwitch.SimpleSwitch13.DeleteFlow | controller.py:65-84 | corrected: a truthy eth_dst sends its one delete; otherwise one delete per MAC of the row, or KeyError without a row |
| LearningSwitch.SimpleSwitch13.DeleteRow | controller.py:78-84 | the per-row loop: exactly one delete per MAC of the row, or KeyError without a row |
| TopologySwitch.SwitchNode | wifi/controller.py:81-82 | datapath 0 is stored as the string '0', which is a different node from the integer 0; other ids are kept |
| TopologySwitch.ContainsAt | wifi/controller.py:193 | Python's substring test holds exactly when the substring occurs at some offset |
| TopologySwitch.LearnHost | wifi/controller.py:191-197 | a known source, or one without "00:00:00", leaves the graph unchanged; otherwise the host is attached as AttachHost says; edges stay inside the graph and ported |
| TopologySwitch.AttachHost | wifi/controller.py:193-197 | the host node gets n_type 'host'; src→dpid and dpid→src both get port in_port; the switch gets has_host 'true' and keeps its other attributes; every other node keeps its attributes; no other edge changes |
| TopologySwitch.LinkHost | wifi/controller.py:194-196 | the host node and its two edges with port in_port, before the switch is marked; every existing node keeps its attributes, and a new switch node has none |
| TopologySwitch.HostNeverRelocated | wifi/controller.py:191 | a learned host is never moved: a later packet-in from it, on any switch and port, leaves the graph unchanged |
| TopologySwitch.WithLink | wifi/controller.py:95-105 | after a link-add, dst→src has the destination port, and src→dst has the source port unless it is a self-link; other edges and node attributes are kept |
| TopologySwitch.WithLinkIdempotent | wifi/controller.py:95-105 | repeating the same link-add event leaves the graph unchanged |
| TopologySwitch.ForbiddenPorts | wifi/controller.py:237-244 | a port is forbidden exactly when it is the port of an edge out of this switch whose undirected link is not in the tree |
| TopologySwitch.FloodPorts | wifi/controller.py:234-248 | the flood ports are exactly the available ports below 1000000000 that are not forbidden, and there are no more of them than available ports |
| TopologySwitch.HostPortAllowed | wifi/controller.py:237-248 | the port of a host link is not forbidden when every edge out of the switch on that port leads to a single-attached host, so several stations behind one access point's wireless port are covered |
| TopologySwitch.PortsToSend | wifi/controller.py:246-248 | the loop keeps the available ports that are not forbidden, in order, and only those |
| TopologySwitch.SimpleSwitch13.constructor | wifi/controller.py:35-40 | an empty graph and switch list, and nothing is sent |
| TopologySwitch.SimpleSwitch13.AddSwitch | wifi/controller.py:76-92 | the datapath is appended with no duplicate check; its node has n_type 'switch' and has_host 'false' |
| TopologySwitch.SimpleSwitch13.LinkAdd | wifi/controller.py:94-105 | the graph becomes WithLink's, and every edge keeps its port |
| TopologySwitch.SimpleSwitch13.SwitchFeatures | wifi/controller.py:108-124 | the table-miss entry is sent; the graph is kept |
| TopologySwitch.SimpleSwitch13.DeleteFlow | wifi/controller.py:62-73 | exactly one delete of eth_dst on the switch |
| TopologySwitch.SimpleSwitch13.DeleteEverywhere | wifi/controller.py:147-150 | one delete of the node on each registered switch, in list order |
| TopologySwitch.SimpleSwitch13.PortStatus | wifi/controller.py:126-154 | on a port deletion, the target is the head of some edge out of the switch on that port; if there is one and it is truthy (a non-zero id or non-empty name), its rules are deleted on every switch and it leaves the graph with all its edges; otherwise nothing changes |
| TopologySwitch.SimpleSwitch13.PacketIn | wifi/controller.py:158-264 | LLDP changes and sends nothing; otherwise the source is learned as LearnHost says; with both ends known the frame is routed, else flooded |
| TopologySwitch.SimpleSwitch13.Route | wifi/controller.py:203-229 | with no path nothing is sent; otherwise along some shortest path: ValueError if the switch is not on it, else a priority-1 (in_port, dst) rule to the next hop's port and a packet-out |
| TopologySwitch.SimpleSwitch13.Flood | wifi/controller.py:230-264 | for some spanning forest of the undirected graph, one packet-out on the allowed flood ports, and nothing when there are none |
| MobilitySwitch.LearnSource | mob-controller.py:105-109 | a known source leaves the graph unchanged; an unknown one becomes a node with no attributes, with dpid→src on in_port and src→dpid without a port; every existing node keeps its attributes, and a new switch node has none |
| MobilitySwitch.SourceNeverRelocated | mob-controller.py:105 | a later packet-in from a known source, on any switch and port, leaves the graph unchanged |
| MobilitySwitch.SwitchNodes | mob-controller.py:162 | one integer node per reported datapath id, in order |
| MobilitySwitch.LinkTriples | mob-controller.py:164-165 | one (source switch, destination switch, source port) triple per reported link, in order |
| MobilitySwitch.WithTopology | mob-controller.py:170-171 | the rebuilt graph keeps every node and edge already there |
| MobilitySwitch.TopologyClosedForm | mob-controller.py:170-171 | the rebuilt graph is the switches and link ends added as nodes, and the links' last ports merged into the edges |
| MobilitySwitch.TopologyHasSwitches | mob-controller.py:161-170 | every reported switch is a node after a rebuild |
| MobilitySwitch.TopologyHasLink | mob-controller.py:163-171 | one reported link is a directed src→dst edge carrying the source port of the last report of that pair: no later report names the same pair |
| MobilitySwitch.TopologyHasLinks | mob-controller.py:163-171 | every reported link is a directed src→dst edge carrying the source port of the last report of that pair: no later report names the same pair; old edges stay |
| MobilitySwitch.TopologyKeepsShape | mob-controller.py:170-171 | a rebuild keeps every edge between nodes and every edge out of a switch ported |
| MobilitySwitch.TopologyIdempotent | mob-controller.py:157-171 | rebuilding twice from the same lists is the same as rebuilding once |
| MobilitySwitch.Rule | mob-controller.py:31-41 | add_flow's rule matches (in_port, dst) at the default priority with zero idle and hard timeouts and outputs to the given port |
| MobilitySwitch.PacketOutAsWritten | mob-controller.py:133-136 | as written, the packet-out carries no data, so it delivers the packet exactly when the switch buffered it |
| MobilitySwitch.PacketOutFor | mob-controller.py:133-136 | corrected: the packet-out delivers the packet, and is the written one whenever the switch buffered it |
| MobilitySwitch.Sends | mob-controller.py:125-155 | two messages when the output is not FLOOD and one otherwise: exactly one packet-out, last, delivering the packet; a rule is installed exactly when the output is not FLOOD, and no other rule; when the switch buffered the packet, the packet-out is the one the code as written sends |
| MobilitySwitch.ChosenPortIsLocal | mob-controller.py:114-123 | a chosen output is FLOOD or the port of an edge out of this switch |
| MobilitySwitch.ChooseOut | mob-controller.py:111-123 | FLOOD for a destination outside the graph; NetworkXNoPath when no path exists; otherwise the next-hop port on some shortest path, or ValueError |
| MobilitySwitch.SimpleSwitch13.constructor | mob-controller.py:24-29 | empty MAC table and graph, and nothing is sent |
| MobilitySwitch.SimpleSwitch13.SwitchFeatures | mob-controller.py:55-75 | the table-miss entry is sent |
| MobilitySwitch.SimpleSwitch13.AddFlow | mob-controller.py:31-41 | exactly one Rule is sent |
| MobilitySwitch.SimpleSwitch13.DeleteFlow | mob-controller.py:43-53 | KeyError exactly when the switch has no row; as rows stay empty, nothing is ever sent |
| MobilitySwitch.SimpleSwitch13.GetTopologyData | mob-controller.py:157-171 | the graph becomes the rebuilt one, and stays well formed with ported switch edges |
| MobilitySwitch.SimpleSwitch13.Send | mob-controller.py:125-155 | appends exactly the messages Sends gives |
| MobilitySwitch.SimpleSwitch13.PacketIn | mob-controller.py:78-155 | the switch's row exists before the LLDP check; LLDP changes nothing else; otherwise LearnSource, then an outcome ChooseOut allows, then Sends if nothing was raised |

## Left out

- Ryu's transport and message encoding are left out. OFPFlowMod, OFPPacketOut and send_msg become entries of an abstract command log. Cookies, instruction lists and out_port/out_group wildcards are not modelled.
- Packet decoding by ryu.lib.packet is left out. Frames arrive already decoded: Ethernet source, destination and type, plus the ARP fields.
- Logging, pprint, print and the truncated-packet warnings are left out, because they have no effect on state or messages.
- The unused fields are left out: the learning switch's `net` graph (created at controller.py:44 and never read), dst_paths, stp, hw_addr, ip_addr, ARP_MSG_DROP/ARP_MSG_FLOOD, and the `ls` debug helper.
- wifi/controller_bandwith.py is not part of this model. It holds a background thread with floating-point bandwidth arithmetic and plotting.
- wifi/parse_logs.py is not part of this model. It is offline file I/O.
- The Mininet scenario scripts are not part of this model. They are emulation fixtures.
- Paths.ShortestPath: returns some shortest path, not the one networkx's bidirectional search picks when several exist.
- TopologySwitch.SimpleSwitch13.Route: guarantees only "along some shortest path", because of the previous line.
- MobilitySwitch.ChooseOut: guarantees only "along some shortest path", because of the previous line.
- SpanningTrees.SpanningForest: returns some spanning forest, not the one networkx's Kruskal tie-breaking picks. With unit weights every spanning forest is a minimum one.
- TopologySwitch.SimpleSwitch13.Flood: guarantees only "for some spanning forest", because of the previous line.
- SpanningTrees.HostLinkInTree: proves the bridge property only for a node with a single neighbour. It does not prove that every bridge of the graph is in the tree.
- SpanningTrees.TriangleLeavesOneLinkOut: covers a 3-cycle with no other links, not a 3-cycle inside a larger graph.
- Dictionary iteration order is a nondeterministic choice. This covers the MAC found by `_get_mac_by_datapath_port`, the order of per-MAC deletes, and the first matching edge in the wifi port-status handler. Contracts state what holds for every order.
- MobilitySwitch.SimpleSwitch13.SwitchFeatures: the second call at mob-controller.py:76 is left out. It is `add_flow(datapath, 0, match, actions)`, which passes an OFPMatch object where a destination MAC is expected, and its effect depends on Ryu's encoder.
- LearningSwitch.SimpleSwitch13.SwitchFeatures: the switch list holds datapath ids, not datapath objects. controller.py:162 compares objects, so a switch that reconnects with a new object and the same id is listed again; the model lists each id once.
- LearningSwitch.Forward: uses the corrected Unicast of the buffer-0 finding below. For a known destination whose packet is held in buffer 0, the code as written releases nothing and sends no packet-out; the model delivers the packet.
- LearningSwitch.SimpleSwitch13.Send: appends Forward's messages, so it carries the same buffer-0 correction.
- LearningSwitch.SimpleSwitch13.PacketIn: forwards through Send, so it carries the same buffer-0 correction.
- MobilitySwitch.Sends: ends with the corrected packet-out of the finding below. For a packet the switch did not buffer, the code as written sends a packet-out without data, and the model's packet-out carries the frame.
- MobilitySwitch.SimpleSwitch13.Send: appends Sends, so it carries the same packet-out correction.
- MobilitySwitch.SimpleSwitch13.PacketIn: sends through Send, so it carries the same packet-out correction. Under the table-miss entry of mob-controller.py:63-64, every packet-in is unbuffered and is affected.
- The switch list of the wifi controller holds datapath ids. The wifi controller's `datapath.ports` is passed in as a list of port numbers.

Behaviours a reader might expect that the code does not have, and that the model therefore does not have either:
- Excluding the ingress port from the wifi flood.
- Computing the spanning tree over the switch subgraph only; the code uses the whole graph, hosts included.
- Relocating a known host that shows up on another switch or port.
- An idle timeout on installed rules.
- Dropping the frame when mob-controller.py finds no path; the code raises NetworkXNoPath.

## Findings

| source | as written | input that shows it | evidently intended | confidence | as-written member | corrected member |
|---|---|---|---|---|---|---|
| controller.py:70-76 | with a truthy eth_dst, the FlowMod delete is built but send_msg is only reached in the else branch, so nothing is sent | delete_flow(dp, eth_dst='00:00:00:00:00:01') sends no message | send the one delete for eth_dst | high, not executed | LearningSwitch.SimpleSwitch13.DeleteFlowAsWritten | LearningSwitch.SimpleSwitch13.DeleteFlow |
| controller.py:56 | `if buffer_id:` treats buffer id 0 as absent, so the rule names no buffer, and the handler then returns at line 235 without a packet-out | a packet-in for a learned destination whose packet the switch holds in buffer 0 | pass any buffer id other than OFP_NO_BUFFER to the FlowMod, so the buffered packet is released | medium (whether a switch hands out buffer 0 depends on the switch), not executed | LearningSwitch.UnicastAsWritten | LearningSwitch.Unicast |
| mob-controller.py:133-136 | the packet-out names msg.buffer_id but never carries msg.data. The table-miss entry asks for OFPCML_NO_BUFFER (lines 63-64), so packet-ins arrive unbuffered and the forwarded frame is lost | any packet-in with buffer_id == OFP_NO_BUFFER (0xffffffff) | attach the frame when the switch did not buffer it, as the other two controllers do | high, not executed | MobilitySwitch.PacketOutAsWritten | MobilitySwitch.PacketOutFor |
