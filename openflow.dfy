/**
 * What the controllers see of OpenFlow 1.3 and of the frames they receive:
 * the protocol constants they compare against, already-decoded Ethernet/ARP
 * headers, and the messages they send, kept as an abstract command log.
 */
module OpenFlow {
  import opened Wrappers
  import opened Graphs

  // Reserved ports and special values of the OpenFlow Switch Specification 1.3.
  const OFPP_FLOOD: int := 0xffff_fffb
  const OFPP_CONTROLLER: int := 0xffff_fffd
  const OFP_NO_BUFFER: int := 0xffff_ffff
  const OFP_DEFAULT_PRIORITY: int := 0x8000
  // Reasons of a port-status message.
  const OFPPR_ADD: int := 0
  const OFPPR_DELETE: int := 1
  const OFPPR_MODIFY: int := 2

  const ETH_TYPE_ARP: int := 0x0806
  const ETH_TYPE_LLDP: int := 0x88cc
  const BROADCAST_STR: string := "ff:ff:ff:ff:ff:ff"
  // ARP operation codes (RFC 826).
  const ARP_REQUEST: int := 1
  const ARP_REPLY: int := 2

  type Mac = string
  type Ip = string

  datatype Arp = Arp(opcode: int, srcMac: Mac, srcIp: Ip, dstMac: Mac, dstIp: Ip)

  /** An Ethernet frame as decoded by the packet library, with its ARP payload if any. */
  datatype Frame = Frame(src: Mac, dst: Mac, ethertype: int, arp: Option<Arp>)

  datatype Match = MatchAll | MatchInPortDst(inPort: int, ethDst: Mac)

  /** The messages a controller sends to a switch. */
  datatype Command =
      /** OFPFlowMod(ADD) with one output action; releases is the buffer it applies to, if any. */
    | FlowAdd(dpid: int, priority: int, flowMatch: Match, output: int, releases: Option<int>,
              idleTimeout: nat, hardTimeout: nat)
      /** OFPFlowMod(DELETE) matching eth_dst, on any out port and group. */
    | FlowDelete(dpid: int, ethDst: Node)
      /** OFPPacketOut of the frame that caused a packet-in, with its output ports. */
    | PacketOut(dpid: int, inPort: int, bufferId: int, outputs: seq<int>, carriesData: bool)
      /** OFPPacketOut of a frame the controller built, from OFPP_CONTROLLER out of outPort. */
    | SendFrame(dpid: int, outPort: int, frame: Frame)

  /** The Python exceptions a handler can end with. */
  datatype Exception = KeyError | ValueError | NetworkXNoPath

  /** How a handler ended: normally, or by an exception that Ryu logs. */
  datatype Exit = Returned | Raised(error: Exception)

  /**
   * Command c makes switch dpid send the packet of a packet-in (held in
   * bufferId, or carried as data) out of port out: a rule that names the
   * buffer, or a packet-out that names it or carries the frame.
   */
  predicate Delivers(c: Command, dpid: int, bufferId: int, out: int)
  {
    || (c.FlowAdd? && c.dpid == dpid && c.output == out && c.releases == Some(bufferId) && bufferId != OFP_NO_BUFFER)
    || (c.PacketOut? && c.dpid == dpid && c.outputs == [out] && c.bufferId == bufferId
        && (c.carriesData || bufferId != OFP_NO_BUFFER))
  }

  /** The table-miss entry: priority 0, match everything, send to the controller. */
  function TableMiss(dpid: int): Command
  {
    FlowAdd(dpid, 0, MatchAll, OFPP_CONTROLLER, None, 0, 0)
  }

  /**
   * The body of delete_flow's loop: one FlowDelete(eth_dst = k) per key of a
   * MAC table, in the table's (unspecified) iteration order.
   */
  method DeleteEach(dpid: int, keys: set<Mac>) returns (cmds: seq<Command>)
    ensures |cmds| == |keys|
    ensures forall i :: 0 <= i < |cmds| ==>
              cmds[i].FlowDelete? && cmds[i].dpid == dpid && cmds[i].ethDst.Name? && cmds[i].ethDst.text in keys
    ensures forall k :: k in keys ==> FlowDelete(dpid, Name(k)) in cmds
  {
    cmds := [];
    var rest := keys;
    while rest != {}
      invariant rest <= keys
      invariant |cmds| + |rest| == |keys|
      invariant forall i :: 0 <= i < |cmds| ==>
                  cmds[i].FlowDelete? && cmds[i].dpid == dpid && cmds[i].ethDst.Name? && cmds[i].ethDst.text in keys - rest
      invariant forall k :: k in keys - rest ==> FlowDelete(dpid, Name(k)) in cmds
      decreases rest
    {
      var k :| k in rest;
      cmds := cmds + [FlowDelete(dpid, Name(k))];
      rest := rest - {k};
    }
  }

  /** The elements of xs that keep accepts, in order (a list comprehension with a filter). */
  function Filter<T>(xs: seq<T>, keep: T -> bool): seq<T>
    decreases |xs|
  {
    if xs == [] then [] else (if keep(xs[0]) then [xs[0]] else []) + Filter(xs[1..], keep)
  }

  lemma {:induction false} FilterMembers<T>(xs: seq<T>, keep: T -> bool)
    ensures forall x :: x in Filter(xs, keep) <==> x in xs && keep(x)
    ensures |Filter(xs, keep)| <= |xs|
    decreases |xs|
  {
    if xs != [] {
      FilterMembers(xs[1..], keep);
      assert xs == [xs[0]] + xs[1..];
    }
  }

  lemma {:induction false} FilterSnoc<T>(xs: seq<T>, x: T, keep: T -> bool)
    ensures Filter(xs + [x], keep) == Filter(xs, keep) + (if keep(x) then [x] else [])
    decreases |xs|
  {
    if xs == [] {
      assert [x] + [] == [x];
    } else {
      assert (xs + [x])[1..] == xs[1..] + [x];
      FilterSnoc(xs[1..], x, keep);
    }
  }
}
