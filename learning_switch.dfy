/**
 * The learning switch of controller.py: a per-switch MAC-to-port table, a
 * global IP-to-MAC table filled from ARP traffic, a table that suppresses
 * copies of one broadcast ARP request arriving on other ports, proxy ARP
 * replies, and priority-1 (in_port, eth_dst) rules for known destinations.
 */
module LearningSwitch {
  import opened Wrappers
  import opened Graphs
  import opened OpenFlow

  /** A broadcast-suppression key: (dpid, requester MAC, requested IP). */
  type BcastKey = (int, Mac, Ip)

  // ---------------------------------------------------------------------
  // Address learning

  /** The ARP table after a packet-in: the sender IP of an ARP payload maps to the frame's source MAC. */
  function LearnArp(table: map<Ip, Mac>, f: Frame): (r: map<Ip, Mac>)
    ensures f.arp.Some? ==> f.arp.value.srcIp in r && r[f.arp.value.srcIp] == f.src
    ensures f.arp.None? ==> r == table
    ensures forall ip :: ip in table && (f.arp.None? || ip != f.arp.value.srcIp) ==> ip in r && r[ip] == table[ip]
    ensures forall ip :: ip in r ==> ip in table || (f.arp.Some? && ip == f.arp.value.srcIp)
  {
    if f.arp.Some? then table[f.arp.value.srcIp := f.src] else table
  }

  /**
   * The MAC table after a packet-in: the switch's row exists, and the source
   * MAC is bound to the ingress port unless it was already bound (first
   * sighting wins; no binding is ever overwritten).
   */
  function LearnMac(table: map<int, map<Mac, int>>, dpid: int, src: Mac, inPort: int): (r: map<int, map<Mac, int>>)
    ensures r.Keys == table.Keys + {dpid}
    ensures forall d :: d in table && d != dpid ==> r[d] == table[d]
    ensures dpid !in table ==> r[dpid] == map[src := inPort]
    ensures dpid in table ==> r[dpid].Keys == table[dpid].Keys + {src}
    ensures dpid in table ==> forall m :: m in table[dpid] ==> r[dpid][m] == table[dpid][m]
    ensures (dpid !in table || src !in table[dpid]) ==> r[dpid][src] == inPort
  {
    var row := if dpid in table then table[dpid] else map[];
    table[dpid := if src in row then row else row[src := inPort]]
  }

  /** A second packet-in from the same source on the same switch changes nothing, whatever its port. */
  lemma LearnMacFirstSightingWins(table: map<int, map<Mac, int>>, dpid: int, src: Mac, p: int, q: int)
    ensures LearnMac(LearnMac(table, dpid, src, p), dpid, src, q) == LearnMac(table, dpid, src, p)
    ensures LearnMac(LearnMac(table, dpid, src, p), dpid, src, q)[dpid][src] == LearnMac(table, dpid, src, p)[dpid][src]
  {
  }

  // ---------------------------------------------------------------------
  // Broadcast suppression and proxy ARP (_arp_handler)

  /** An ARP frame sent to the Ethernet broadcast address. */
  predicate IsBroadcastArp(f: Frame)
  {
    f.dst == BROADCAST_STR && f.arp.Some?
  }

  function KeyOf(dpid: int, f: Frame): BcastKey
    requires f.arp.Some?
  {
    (dpid, f.src, f.arp.value.dstIp)
  }

  /** A copy of a broadcast ARP already seen on this switch, arriving on another port. */
  predicate IsRepeat(bcast: map<BcastKey, int>, dpid: int, inPort: int, f: Frame)
  {
    IsBroadcastArp(f) && KeyOf(dpid, f) in bcast && bcast[KeyOf(dpid, f)] != inPort
  }

  /**
   * The suppression table after a frame: the first sighting of a broadcast
   * ARP records its ingress port; recorded entries never change.
   */
  function RecordBroadcast(bcast: map<BcastKey, int>, dpid: int, inPort: int, f: Frame): (r: map<BcastKey, int>)
    ensures forall k :: k in bcast ==> k in r && r[k] == bcast[k]
    ensures IsBroadcastArp(f) ==> KeyOf(dpid, f) in r && r.Keys == bcast.Keys + {KeyOf(dpid, f)}
    ensures IsBroadcastArp(f) && KeyOf(dpid, f) !in bcast ==> r[KeyOf(dpid, f)] == inPort
    ensures !IsBroadcastArp(f) ==> r == bcast
  {
    if IsBroadcastArp(f) && KeyOf(dpid, f) !in bcast then bcast[KeyOf(dpid, f) := inPort] else bcast
  }

  /** An ARP request for an address the ARP table knows. */
  predicate IsProxyable(arpTable: map<Ip, Mac>, f: Frame)
  {
    f.arp.Some? && f.arp.value.opcode == ARP_REQUEST && f.arp.value.dstIp in arpTable
  }

  /**
   * The reply section "Packet Reception" of RFC 826 prescribes for a request:
   * the opcode becomes reply, the requested protocol address becomes the
   * sender's with the hardware address that owns it, and the requester's
   * addresses become the target's. The Ethernet header goes from that
   * hardware address back to the requester.
   */
  predicate AnswersRequest(reply: Frame, request: Frame, owner: Mac)
    requires request.arp.Some?
  {
    reply.arp.Some?
    && reply.arp.value.opcode == ARP_REPLY
    && reply.arp.value.srcMac == owner && reply.arp.value.srcIp == request.arp.value.dstIp
    && reply.arp.value.dstMac == request.arp.value.srcMac && reply.arp.value.dstIp == request.arp.value.srcIp
    && reply.src == owner && reply.dst == request.src
  }

  /**
   * The proxy reply built for a request. The target hardware address is taken
   * from the request's Ethernet source, so it answers the request exactly when
   * that agrees with the ARP sender hardware address.
   */
  function ProxyReply(request: Frame, owner: Mac): (r: Frame)
    requires request.arp.Some?
    ensures request.src == request.arp.value.srcMac <==> AnswersRequest(r, request, owner)
    ensures r.ethertype == request.ethertype && r.arp.Some? && r.arp.value.dstMac == request.src
  {
    var a := request.arp.value;
    Frame(owner, request.src, request.ethertype, Some(Arp(ARP_REPLY, owner, a.dstIp, request.src, a.srcIp)))
  }

  /**
   * A proxy reply teaches nothing new: learning from it, as a packet-in of
   * that frame would, leaves the ARP table as it was.
   */
  lemma ProxyReplyKeepsArpTable(arpTable: map<Ip, Mac>, request: Frame)
    requires IsProxyable(arpTable, request)
    ensures LearnArp(arpTable, ProxyReply(request, arpTable[request.arp.value.dstIp])) == arpTable
  {
  }

  /** What _arp_handler decides for a frame. */
  datatype ArpVerdict = Drop | Reply(frame: Frame) | Pass

  /**
   * A repeated broadcast from another port is dropped; otherwise a request for a
   * known address is answered; anything else passes on to flooding.
   */
  function Verdict(bcast: map<BcastKey, int>, arpTable: map<Ip, Mac>, dpid: int, inPort: int, f: Frame): (v: ArpVerdict)
    ensures v.Drop? <==> IsRepeat(bcast, dpid, inPort, f)
    ensures v.Reply? <==> !IsRepeat(bcast, dpid, inPort, f) && IsProxyable(arpTable, f)
    ensures v.Reply? ==> f.arp.Some? && v.frame == ProxyReply(f, arpTable[f.arp.value.dstIp])
    ensures IsBroadcastArp(f) && KeyOf(dpid, f) in bcast && bcast[KeyOf(dpid, f)] == inPort ==> !v.Drop?
  {
    if IsRepeat(bcast, dpid, inPort, f) then Drop
    else if IsProxyable(arpTable, f) then Reply(ProxyReply(f, arpTable[f.arp.value.dstIp]))
    else Pass
  }

  /** The messages a verdict sends: an empty packet-out for a drop, the reply out of the ingress port. */
  function VerdictCommands(dpid: int, inPort: int, v: ArpVerdict): (cmds: seq<Command>)
    ensures v.Pass? <==> cmds == []
    ensures v.Drop? ==> cmds == [PacketOut(dpid, inPort, OFP_NO_BUFFER, [], false)]
    ensures v.Reply? ==> cmds == [SendFrame(dpid, inPort, v.frame)]
  {
    match v
    case Drop => [PacketOut(dpid, inPort, OFP_NO_BUFFER, [], false)]
    case Reply(fr) => [SendFrame(dpid, inPort, fr)]
    case Pass => []
  }

  // ---------------------------------------------------------------------
  // Forwarding

  /**
   * The messages for a known destination, with add_flow handing a valid buffer
   * id to the FlowMod: the rule alone when the switch holds the packet, the
   * rule and a packet-out with the data otherwise.
   */
  function Unicast(dpid: int, inPort: int, bufferId: int, dst: Mac, out: int): (cmds: seq<Command>)
    ensures |cmds| > 0 && cmds[0].FlowAdd? && cmds[0].dpid == dpid && cmds[0].priority == 1
    ensures cmds[0].flowMatch == MatchInPortDst(inPort, dst) && cmds[0].output == out
    ensures cmds[0].idleTimeout == 0 && cmds[0].hardTimeout == 0
    ensures cmds[0].releases.Some? <==> bufferId != OFP_NO_BUFFER
    ensures exists c :: c in cmds && Delivers(c, dpid, bufferId, out)
    ensures bufferId != OFP_NO_BUFFER <==> forall c :: c in cmds ==> !c.PacketOut?
    ensures |cmds| == if bufferId != OFP_NO_BUFFER then 1 else 2
  {
    var releases := if bufferId != OFP_NO_BUFFER then Some(bufferId) else None;
    var rule := FlowAdd(dpid, 1, MatchInPortDst(inPort, dst), out, releases, 0, 0);
    if bufferId != OFP_NO_BUFFER then
      assert Delivers(rule, dpid, bufferId, out);
      [rule]
    else
      var packetOut := PacketOut(dpid, inPort, bufferId, [out], true);
      assert Delivers(packetOut, dpid, bufferId, out);
      [rule, packetOut]
  }

  /**
   * The same messages with add_flow as written: `if buffer_id:` treats buffer
   * id 0 as absent, so for a packet held in buffer 0 the FlowMod releases
   * nothing and no packet-out follows; the packet is never forwarded.
   */
  function UnicastAsWritten(dpid: int, inPort: int, bufferId: int, dst: Mac, out: int): (cmds: seq<Command>)
    ensures bufferId != 0 ==> cmds == Unicast(dpid, inPort, bufferId, dst, out)
    ensures bufferId == 0 ==> forall c :: c in cmds ==> !Delivers(c, dpid, bufferId, out)
  {
    var releases := if bufferId != OFP_NO_BUFFER && bufferId != 0 then Some(bufferId) else None;
    var rule := FlowAdd(dpid, 1, MatchInPortDst(inPort, dst), out, releases, 0, 0);
    if bufferId != OFP_NO_BUFFER then [rule]
    else [rule, PacketOut(dpid, inPort, bufferId, [out], true)]
  }

  /** The messages that send a packet out of port out: a rule first unless out is FLOOD. */
  function Forward(dpid: int, inPort: int, bufferId: int, dst: Mac, out: int): (cmds: seq<Command>)
    ensures exists c :: c in cmds && Delivers(c, dpid, bufferId, out)
    ensures out == OFPP_FLOOD <==> forall c :: c in cmds ==> !c.FlowAdd?
    ensures out == OFPP_FLOOD ==> cmds == [PacketOut(dpid, inPort, bufferId, [OFPP_FLOOD], bufferId == OFP_NO_BUFFER)]
    ensures out != OFPP_FLOOD ==> cmds == Unicast(dpid, inPort, bufferId, dst, out)
    ensures out != OFPP_FLOOD && bufferId != 0 ==> cmds == UnicastAsWritten(dpid, inPort, bufferId, dst, out)
  {
    if out != OFPP_FLOOD then Unicast(dpid, inPort, bufferId, dst, out)
    else
      var packetOut := PacketOut(dpid, inPort, bufferId, [out], bufferId == OFP_NO_BUFFER);
      assert Delivers(packetOut, dpid, bufferId, out);
      [packetOut]
  }

  /** No datapath is listed twice. */
  predicate NoDuplicates(s: seq<int>)
  {
    forall i, j :: 0 <= i < j < |s| ==> s[i] != s[j]
  }

  /** A truthy eth_dst argument: given and not the empty string. */
  predicate Truthy(ethDst: Option<Mac>)
  {
    ethDst.Some? && ethDst.value != ""
  }

  class SimpleSwitch13 {
    var macToPort: map<int, map<Mac, int>>
    var switches: seq<int>
    var arpTable: map<Ip, Mac>
    var swBcast: map<BcastKey, int>
    /** Every message sent to a switch, oldest first. */
    var sent: seq<Command>

    ghost predicate Valid()
      reads this
    {
      NoDuplicates(switches)
    }

    constructor()
      ensures Valid()
      ensures macToPort == map[] && switches == [] && arpTable == map[] && swBcast == map[] && sent == []
    {
      macToPort := map[];
      switches := [];
      arpTable := map[];
      swBcast := map[];
      sent := [];
    }

    /** _switch_features_handler: register the switch once, install its table-miss entry. */
    method SwitchFeatures(dpid: int)
      requires Valid()
      modifies this
      ensures Valid()
      ensures dpid in switches
      ensures switches == if dpid in old(switches) then old(switches) else old(switches) + [dpid]
      ensures sent == old(sent) + [TableMiss(dpid)]
      ensures macToPort == old(macToPort) && arpTable == old(arpTable) && swBcast == old(swBcast)
    {
      if dpid !in switches {
        switches := switches + [dpid];
      }
      sent := sent + [TableMiss(dpid)];
    }

    /**
     * _arp_handler: suppress repeated broadcasts, answer requests from the ARP
     * table; the result says whether the frame was consumed.
     */
    method ArpHandler(dpid: int, inPort: int, f: Frame) returns (consumed: bool)
      modifies this
      ensures swBcast == RecordBroadcast(old(swBcast), dpid, inPort, f)
      ensures consumed <==> !Verdict(old(swBcast), arpTable, dpid, inPort, f).Pass?
      ensures sent == old(sent) + VerdictCommands(dpid, inPort, Verdict(old(swBcast), arpTable, dpid, inPort, f))
      ensures macToPort == old(macToPort) && switches == old(switches) && arpTable == old(arpTable)
    {
      if f.dst == BROADCAST_STR && f.arp.Some? {
        var key := (dpid, f.src, f.arp.value.dstIp);
        if key in swBcast {
          if swBcast[key] != inPort {
            sent := sent + [PacketOut(dpid, inPort, OFP_NO_BUFFER, [], false)];
            return true;
          }
        } else {
          swBcast := swBcast[key := inPort];
        }
      }
      if f.arp.Some? {
        var a := f.arp.value;
        if a.opcode == ARP_REQUEST && a.dstIp in arpTable {
          var reply := Frame(arpTable[a.dstIp], f.src, f.ethertype,
                             Some(Arp(ARP_REPLY, arpTable[a.dstIp], a.dstIp, f.src, a.srcIp)));
          sent := sent + [SendFrame(dpid, inPort, reply)];
          return true;
        }
      }
      return false;
    }

    /**
     * _packet_in_handler: learn the ARP sender and the source port, then
     * forward to a known destination, or let the ARP handler consume the
     * frame, or flood it.
     */
    method PacketIn(dpid: int, inPort: int, bufferId: int, f: Frame)
      requires Valid()
      modifies this
      ensures Valid()
      ensures arpTable == LearnArp(old(arpTable), f)
      ensures macToPort == LearnMac(old(macToPort), dpid, f.src, inPort)
      ensures switches == old(switches)
      ensures f.dst in macToPort[dpid] ==>
                swBcast == old(swBcast)
                && sent == old(sent) + Forward(dpid, inPort, bufferId, f.dst, macToPort[dpid][f.dst])
      ensures f.dst !in macToPort[dpid] ==>
                var v := Verdict(old(swBcast), arpTable, dpid, inPort, f);
                swBcast == RecordBroadcast(old(swBcast), dpid, inPort, f)
                && sent == old(sent) + VerdictCommands(dpid, inPort, v)
                           + (if v.Pass? then Forward(dpid, inPort, bufferId, f.dst, OFPP_FLOOD) else [])
    {
      Learn(dpid, inPort, f);
      var out;
      if f.dst in macToPort[dpid] {
        out := macToPort[dpid][f.dst];
      } else {
        var consumed := ArpHandler(dpid, inPort, f);
        if consumed {
          return;
        }
        out := OFPP_FLOOD;
      }
      Send(dpid, inPort, bufferId, f.dst, out);
    }

    /** The learning half of _packet_in_handler. */
    method Learn(dpid: int, inPort: int, f: Frame)
      modifies this
      ensures arpTable == LearnArp(old(arpTable), f)
      ensures macToPort == LearnMac(old(macToPort), dpid, f.src, inPort)
      ensures switches == old(switches) && swBcast == old(swBcast) && sent == old(sent)
    {
      if f.arp.Some? {
        arpTable := arpTable[f.arp.value.srcIp := f.src];
      }
      if dpid !in macToPort {
        macToPort := macToPort[dpid := map[]];
      }
      if f.src !in macToPort[dpid] {
        macToPort := macToPort[dpid := macToPort[dpid][f.src := inPort]];
      }
    }

    /** The sending half of _packet_in_handler, once the output port is chosen. */
    method Send(dpid: int, inPort: int, bufferId: int, dst: Mac, out: int)
      modifies this
      ensures sent == old(sent) + Forward(dpid, inPort, bufferId, dst, out)
      ensures macToPort == old(macToPort) && switches == old(switches)
      ensures arpTable == old(arpTable) && swBcast == old(swBcast)
    {
      if out != OFPP_FLOOD {
        var rule := FlowAdd(dpid, 1, MatchInPortDst(inPort, dst), out,
                            if bufferId != OFP_NO_BUFFER then Some(bufferId) else None, 0, 0);
        sent := sent + [rule];
        if bufferId != OFP_NO_BUFFER {
          return;
        }
      }
      sent := sent + [PacketOut(dpid, inPort, bufferId, [out], bufferId == OFP_NO_BUFFER)];
    }

    /**
     * _get_mac_by_datapath_port: some MAC of the switch's row bound to port, or
     * None when there is none; KeyError when the switch has no row.
     */
    method MacByPort(dpid: int, port: int) returns (r: Result<Option<Mac>, Exception>)
      ensures r.Err? <==> dpid !in macToPort
      ensures r.Err? ==> r.error == KeyError
      ensures r.Ok? && r.value.Some? ==> r.value.value in macToPort[dpid] && macToPort[dpid][r.value.value] == port
      ensures r.Ok? ==> (r.value.None? <==> forall m :: m in macToPort[dpid] ==> macToPort[dpid][m] != port)
    {
      if dpid !in macToPort {
        return Err(KeyError);
      }
      var row := macToPort[dpid];
      var rest := row.Keys;
      while rest != {}
        invariant rest <= row.Keys
        invariant forall m :: m in row && m !in rest ==> row[m] != port
        decreases rest
      {
        var m :| m in rest;
        if row[m] == port {
          return Ok(Some(m));
        }
        rest := rest - {m};
      }
      return Ok(None);
    }

    /**
     * _port_status_handler: on a port deletion, look up the MAC behind the
     * port and change nothing (the removal is left unwritten in the handler).
     */
    method PortStatus(dpid: int, reason: int, port: int) returns (exit: Exit)
      ensures exit == Raised(KeyError) <==> reason == OFPPR_DELETE && dpid !in macToPort
      ensures exit == Returned || exit == Raised(KeyError)
    {
      if reason == OFPPR_DELETE {
        var mac := MacByPort(dpid, port);
        if mac.Err? {
          return Raised(mac.error);
        }
      }
      return Returned;
    }

    /**
     * delete_flow as written: with a truthy eth_dst the FlowMod is built but
     * never sent; otherwise one delete per MAC of the switch's row.
     */
    method DeleteFlowAsWritten(dpid: int, ethDst: Option<Mac>) returns (exit: Exit)
      modifies this
      ensures Truthy(ethDst) ==> exit == Returned && sent == old(sent)
      ensures !Truthy(ethDst) && dpid !in macToPort ==> exit == Raised(KeyError) && sent == old(sent)
      ensures !Truthy(ethDst) && dpid in macToPort ==> exit == Returned && DeletesEvery(old(sent), sent, dpid, macToPort[dpid].Keys)
      ensures macToPort == old(macToPort) && switches == old(switches) && arpTable == old(arpTable) && swBcast == old(swBcast)
    {
      if Truthy(ethDst) {
        return Returned;
      }
      exit := DeleteRow(dpid);
    }

    /** delete_flow as intended: a truthy eth_dst sends its one delete. */
    method DeleteFlow(dpid: int, ethDst: Option<Mac>) returns (exit: Exit)
      modifies this
      ensures Truthy(ethDst) ==> exit == Returned && sent == old(sent) + [FlowDelete(dpid, Name(ethDst.value))]
      ensures !Truthy(ethDst) && dpid !in macToPort ==> exit == Raised(KeyError) && sent == old(sent)
      ensures !Truthy(ethDst) && dpid in macToPort ==> exit == Returned && DeletesEvery(old(sent), sent, dpid, macToPort[dpid].Keys)
      ensures macToPort == old(macToPort) && switches == old(switches) && arpTable == old(arpTable) && swBcast == old(swBcast)
    {
      if Truthy(ethDst) {
        sent := sent + [FlowDelete(dpid, Name(ethDst.value))];
        return Returned;
      }
      exit := DeleteRow(dpid);
    }

    /** The loop of delete_flow over the switch's row. */
    method DeleteRow(dpid: int) returns (exit: Exit)
      modifies this
      ensures dpid !in macToPort ==> exit == Raised(KeyError) && sent == old(sent)
      ensures dpid in macToPort ==> exit == Returned && DeletesEvery(old(sent), sent, dpid, macToPort[dpid].Keys)
      ensures macToPort == old(macToPort) && switches == old(switches) && arpTable == old(arpTable) && swBcast == old(swBcast)
    {
      if dpid !in macToPort {
        return Raised(KeyError);
      }
      var cmds := DeleteEach(dpid, macToPort[dpid].Keys);
      sent := sent + cmds;
      return Returned;
    }
  }

  /** after extends before by exactly one delete on dpid per MAC of keys. */
  ghost predicate DeletesEvery(before: seq<Command>, after: seq<Command>, dpid: int, keys: set<Mac>)
  {
    |after| == |before| + |keys| && after[..|before|] == before
    && (forall i :: |before| <= i < |after| ==>
          after[i].FlowDelete? && after[i].dpid == dpid && after[i].ethDst.Name? && after[i].ethDst.text in keys)
    && (forall k :: k in keys ==> FlowDelete(dpid, Name(k)) in after[|before|..])
  }
}
