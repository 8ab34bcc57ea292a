/** The respond collector's decision logic (respond/collector.go): which
    interface address a socket binds, which sockets send the multicast
    request, which nodes get a unicast request on which sockets, and which
    decoded responses reach the node registry. Sockets are records, sends
    are appended to a log, and the registry's merge is a parameter. */
module RespondCollector {
  import opened Wrappers
  import opened Data
  import opened RuntimeNode
  import opened RespondConfig

  /** The request every send writes. */
  const RequestCommand := "GET nodeinfo statistics neighbours"

  /** Ten minutes in nanoseconds: how far back the unicast phase looks. */
  const UnicastWindow := 10 * 60 * 1_000_000_000

  /** An open socket: its local address (whose zone is the interface name),
      whether it sends requests, and its multicast group. */
  datatype MulticastConn = MulticastConn(local: UdpAddr, sendRequest: bool, multicastAddress: IP)

  /** One request written to `destination` on the socket `conn` (an index
      into the collector's connections); the destination's zone is the
      socket's own. */
  datatype Packet = Packet(conn: nat, destination: IP, zone: string, payload: string)

  /** An address an interface reports: an IP network, or some other kind of
      address, which the selection skips. */
  datatype IfAddr = IPNet(ip: IP) | OtherAddr

  // ---------------------------------------------------------------------
  // Bind address and multicast group

  /** Whether an interface address is the kind of unicast address asked
      for; `isGlobal` and `isLinkLocal` are the address classifications of
      the standard library. */
  predicate Wanted(a: IfAddr, linklocal: bool, isGlobal: IP -> bool, isLinkLocal: IP -> bool)
  {
    a.IPNet? && ((!linklocal && isGlobal(a.ip)) || (linklocal && isLinkLocal(a.ip)))
  }

  /** The last wanted address among addrs[..upTo], if any. */
  function LastWanted(addrs: seq<IfAddr>, upTo: nat, linklocal: bool,
                      isGlobal: IP -> bool, isLinkLocal: IP -> bool): Option<IP>
    requires upTo <= |addrs|
  {
    if upTo == 0 then None
    else if Wanted(addrs[upTo - 1], linklocal, isGlobal, isLinkLocal) then Some(addrs[upTo - 1].ip)
    else LastWanted(addrs, upTo - 1, linklocal, isGlobal, isLinkLocal)
  }

  /** The unicast address of an interface: `lookup` is what the system
      reports for the interface (its addresses, or the error of looking the
      interface or its addresses up). */
  function UnicastAddr(ifname: string, linklocal: bool, lookup: Result<seq<IfAddr>, string>,
                       isGlobal: IP -> bool, isLinkLocal: IP -> bool): Result<IP, string>
  {
    match lookup
    case Err(e) => Err(e)
    case Ok(addrs) =>
      match LastWanted(addrs, |addrs|, linklocal, isGlobal, isLinkLocal)
      case Some(ip) => Ok(ip)
      case None => Err("unable to find a unicast address for " + ifname)
  }

  /** The selection returns the LAST wanted address, and fails exactly when
      no address is wanted. */
  lemma {:induction false} LastWantedIsLast(addrs: seq<IfAddr>, upTo: nat, linklocal: bool,
                                            isGlobal: IP -> bool, isLinkLocal: IP -> bool)
    requires upTo <= |addrs|
    ensures var r := LastWanted(addrs, upTo, linklocal, isGlobal, isLinkLocal);
      && (r.None? <==> forall k :: 0 <= k < upTo ==> !Wanted(addrs[k], linklocal, isGlobal, isLinkLocal))
      && (r.Some? ==> exists k :: 0 <= k < upTo && Wanted(addrs[k], linklocal, isGlobal, isLinkLocal)
                         && r.value == addrs[k].ip
                         && forall j :: k < j < upTo ==> !Wanted(addrs[j], linklocal, isGlobal, isLinkLocal))
    decreases upTo
  {
    if upTo > 0 && !Wanted(addrs[upTo - 1], linklocal, isGlobal, isLinkLocal) {
      LastWantedIsLast(addrs, upTo - 1, linklocal, isGlobal, isLinkLocal);
    }
  }

  /** Scans the interface's addresses, remembering each wanted one, so that
      the last wanted address wins. */
  method GetUnicastAddr(ifname: string, linklocal: bool, lookup: Result<seq<IfAddr>, string>,
                        isGlobal: IP -> bool, isLinkLocal: IP -> bool) returns (r: Result<IP, string>)
    ensures r == UnicastAddr(ifname, linklocal, lookup, isGlobal, isLinkLocal)
  {
    if lookup.Err? {
      return Err(lookup.error);
    }
    var addresses := lookup.value;
    var ip: Option<IP> := None;
    for k := 0 to |addresses|
      invariant ip == LastWanted(addresses, k, linklocal, isGlobal, isLinkLocal)
    {
      var addr := addresses[k];
      if !addr.IPNet? {
        continue;
      }
      if (!linklocal && isGlobal(addr.ip)) || (linklocal && isLinkLocal(addr.ip)) {
        ip := Some(addr.ip);
      }
    }
    if ip.Some? {
      return Ok(ip.value);
    }
    return Err("unable to find a unicast address for " + ifname);
  }

  /** The address a socket binds: the explicit address when one is given;
      otherwise the interface's link-local address when no multicast group
      is configured, its global unicast address when one is. `parseIp` is
      the standard library's parser, which yields [] for a malformed
      address. */
  function BindAddress(iface: InterfaceConfig, lookup: Result<seq<IfAddr>, string>,
                       parseIp: string -> IP, isGlobal: IP -> bool, isLinkLocal: IP -> bool): (r: Result<IP, string>)
    ensures iface.ipAddress != "" ==> r == Ok(parseIp(iface.ipAddress))
    ensures iface.ipAddress == "" ==>
      r == UnicastAddr(iface.interfaceName, iface.multicastAddress == "", lookup, isGlobal, isLinkLocal)
  {
    if iface.ipAddress != "" then Ok(parseIp(iface.ipAddress))
    else UnicastAddr(iface.interfaceName, iface.multicastAddress == "", lookup, isGlobal, isLinkLocal)
  }

  /** Without an explicit address and without a multicast group, binding
      picks the last link-local address of the interface, and fails when
      there is none. */
  lemma BindAddressLinkLocal(iface: InterfaceConfig, addrs: seq<IfAddr>,
                             parseIp: string -> IP, isGlobal: IP -> bool, isLinkLocal: IP -> bool)
    requires iface.ipAddress == "" && iface.multicastAddress == ""
    ensures var r := BindAddress(iface, Ok(addrs), parseIp, isGlobal, isLinkLocal);
      && (r.Err? <==> forall k :: 0 <= k < |addrs| ==> !(addrs[k].IPNet? && isLinkLocal(addrs[k].ip)))
      && (r.Ok? ==> exists k :: 0 <= k < |addrs| && addrs[k] == IPNet(r.value) && isLinkLocal(r.value)
                     && forall j :: k < j < |addrs| ==> !(addrs[j].IPNet? && isLinkLocal(addrs[j].ip)))
  {
    LastWantedIsLast(addrs, |addrs|, true, isGlobal, isLinkLocal);
  }

  /** The multicast group of a socket: the configured one, else the
      default. */
  function GroupAddress(iface: InterfaceConfig, defaultGroup: string): (g: string)
    ensures iface.multicastAddress != "" ==> g == iface.multicastAddress
    ensures iface.multicastAddress == "" ==> g == defaultGroup
  {
    if iface.multicastAddress != "" then iface.multicastAddress else defaultGroup
  }

  // ---------------------------------------------------------------------
  // Which sockets send, and to whom

  /** The multicast requests of the sockets connections[..upTo], in order:
      one per socket that sends requests, to its group. */
  function MulticastPackets(conns: seq<MulticastConn>, upTo: nat): seq<Packet>
    requires upTo <= |conns|
  {
    if upTo == 0 then []
    else
      var c := conns[upTo - 1];
      MulticastPackets(conns, upTo - 1) +
        (if c.sendRequest then [Packet(upTo - 1, c.multicastAddress, c.local.zone, RequestCommand)] else [])
  }

  /** The multicast phase sends a request exactly on the sockets that send
      requests, to that socket's group, once each: socket indices increase
      strictly along the log. */
  lemma {:induction false} MulticastPacketsExact(conns: seq<MulticastConn>, upTo: nat)
    requires upTo <= |conns|
    ensures forall p :: p in MulticastPackets(conns, upTo) <==>
      exists j :: 0 <= j < upTo && conns[j].sendRequest &&
        p == Packet(j, conns[j].multicastAddress, conns[j].local.zone, RequestCommand)
    ensures forall a, b :: 0 <= a < b < |MulticastPackets(conns, upTo)| ==>
      MulticastPackets(conns, upTo)[a].conn < MulticastPackets(conns, upTo)[b].conn
    ensures forall a :: 0 <= a < |MulticastPackets(conns, upTo)| ==> MulticastPackets(conns, upTo)[a].conn < upTo
    decreases upTo
  {
    if upTo > 0 {
      MulticastPacketsExact(conns, upTo - 1);
    }
  }

  /** A node is asked by unicast when it was seen in the ten minutes before
      `seenBefore` (both bounds strict) and its address is known. */
  predicate UnicastCandidate(n: Node, seenBefore: int)
  {
    seenBefore - UnicastWindow < n.lastseen < seenBefore && n.address.Some?
  }

  /** `order` is an iteration order of the registry: every ID in it is a
      key and every key occurs in it exactly once. */
  ghost predicate IterationOrder(nodes: map<string, Node>, order: seq<string>)
  {
    && (forall k :: 0 <= k < |order| ==> order[k] in nodes)
    && (forall id :: id in nodes ==> id in order)
    && (forall a, b :: 0 <= a < b < |order| ==> order[a] != order[b])
  }

  /** The registry's nodes that `Select` returns for the unicast phase, in
      the registry's iteration order `order`. */
  function Selected(nodes: map<string, Node>, order: seq<string>, seenBefore: int): seq<Node>
    requires forall k :: 0 <= k < |order| ==> order[k] in nodes
    decreases |order|
  {
    if order == [] then []
    else
      var n := nodes[order[|order| - 1]];
      Selected(nodes, order[..|order| - 1], seenBefore) + (if UnicastCandidate(n, seenBefore) then [n] else [])
  }

  /** Selection returns exactly the registry's candidates. */
  lemma {:induction false} SelectedExact(nodes: map<string, Node>, order: seq<string>, seenBefore: int)
    requires forall k :: 0 <= k < |order| ==> order[k] in nodes
    ensures forall n :: n in Selected(nodes, order, seenBefore) <==>
      UnicastCandidate(n, seenBefore) && exists k :: 0 <= k < |order| && nodes[order[k]] == n
    decreases |order|
  {
    if order != [] {
      var init := order[..|order| - 1];
      SelectedExact(nodes, init, seenBefore);
      assert forall k :: 0 <= k < |init| ==> init[k] == order[k];
      forall n | UnicastCandidate(n, seenBefore) && exists k :: 0 <= k < |order| && nodes[order[k]] == n
        ensures n in Selected(nodes, order, seenBefore)
      {
        var k :| 0 <= k < |order| && nodes[order[k]] == n;
        if k < |init| {
          assert n in Selected(nodes, init, seenBefore);
        }
      }
    }
  }

  /** A socket may carry a unicast to an address when the address has no
      zone or the socket's zone is the address's zone. */
  predicate ZoneMatches(addr: UdpAddr, c: MulticastConn)
  {
    addr.zone == "" || c.local.zone == addr.zone
  }

  /** The unicast requests for one address over connections[..upTo]. */
  function NodePackets(addr: UdpAddr, conns: seq<MulticastConn>, upTo: nat): seq<Packet>
    requires upTo <= |conns|
  {
    if upTo == 0 then []
    else
      NodePackets(addr, conns, upTo - 1) +
        (if ZoneMatches(addr, conns[upTo - 1]) then [Packet(upTo - 1, addr.ip, conns[upTo - 1].local.zone, RequestCommand)] else [])
  }

  /** A node's address gets one request on every socket whose zone matches
      it, and none on the others. */
  lemma {:induction false} NodePacketsExact(addr: UdpAddr, conns: seq<MulticastConn>, upTo: nat)
    requires upTo <= |conns|
    ensures forall p :: p in NodePackets(addr, conns, upTo) <==>
      exists j :: 0 <= j < upTo && ZoneMatches(addr, conns[j]) &&
        p == Packet(j, addr.ip, conns[j].local.zone, RequestCommand)
    ensures forall a, b :: 0 <= a < b < |NodePackets(addr, conns, upTo)| ==>
      NodePackets(addr, conns, upTo)[a].conn < NodePackets(addr, conns, upTo)[b].conn
    ensures forall a :: 0 <= a < |NodePackets(addr, conns, upTo)| ==> NodePackets(addr, conns, upTo)[a].conn < upTo
    decreases upTo
  {
    if upTo > 0 {
      NodePacketsExact(addr, conns, upTo - 1);
    }
  }

  /** An address without a zone is asked on every socket. */
  lemma {:induction false} NoZoneAllSockets(addr: UdpAddr, conns: seq<MulticastConn>, upTo: nat)
    requires upTo <= |conns| && addr.zone == ""
    ensures |NodePackets(addr, conns, upTo)| == upTo
    decreases upTo
  {
    if upTo > 0 {
      NoZoneAllSockets(addr, conns, upTo - 1);
    }
  }

  /** The unicast requests for the selected nodes, node after node. */
  function UnicastPackets(ns: seq<Node>, conns: seq<MulticastConn>): seq<Packet>
    requires forall k :: 0 <= k < |ns| ==> ns[k].address.Some?
    decreases |ns|
  {
    if ns == [] then []
    else UnicastPackets(ns[..|ns| - 1], conns) + NodePackets(ns[|ns| - 1].address.value, conns, |conns|)
  }

  /** Every unicast request goes to some selected node's address on a
      socket whose zone matches it, and every such pair is sent. */
  lemma {:induction false} UnicastPacketsExact(ns: seq<Node>, conns: seq<MulticastConn>)
    requires forall k :: 0 <= k < |ns| ==> ns[k].address.Some?
    ensures forall p :: p in UnicastPackets(ns, conns) <==>
      exists k, j :: 0 <= k < |ns| && 0 <= j < |conns| && ZoneMatches(ns[k].address.value, conns[j]) &&
        p == Packet(j, ns[k].address.value.ip, conns[j].local.zone, RequestCommand)
    decreases |ns|
  {
    if ns != [] {
      var init := ns[..|ns| - 1];
      var last := ns[|ns| - 1].address.value;
      UnicastPacketsExact(init, conns);
      NodePacketsExact(last, conns, |conns|);
      assert forall k :: 0 <= k < |init| ==> init[k] == ns[k];
      forall p ensures p in UnicastPackets(ns, conns) <==>
        exists k, j :: 0 <= k < |ns| && 0 <= j < |conns| && ZoneMatches(ns[k].address.value, conns[j]) &&
          p == Packet(j, ns[k].address.value.ip, conns[j].local.zone, RequestCommand)
      {
        if exists k, j :: 0 <= k < |ns| && 0 <= j < |conns| && ZoneMatches(ns[k].address.value, conns[j]) &&
             p == Packet(j, ns[k].address.value.ip, conns[j].local.zone, RequestCommand)
        {
          var k, j :| 0 <= k < |ns| && 0 <= j < |conns| && ZoneMatches(ns[k].address.value, conns[j]) &&
            p == Packet(j, ns[k].address.value.ip, conns[j].local.zone, RequestCommand);
          if k < |init| {
            assert p in UnicastPackets(init, conns);
          } else {
            assert p in NodePackets(last, conns, |conns|);
          }
        }
      }
    }
  }

  /** A node seen five minutes before the multicast phase, with a known
      address and one socket of its zone, gets exactly one unicast request
      on that socket; a node seen fifteen minutes before gets none. */
  lemma UnicastScenario(recent: Node, stale: Node, addr: UdpAddr, c: MulticastConn, now: int)
    requires recent.address == Some(addr) && stale.address == Some(addr)
    requires addr.zone != "" && c.local.zone == addr.zone
    requires recent.lastseen == now - 5 * 60 * 1_000_000_000
    requires stale.lastseen == now - 15 * 60 * 1_000_000_000
    ensures UnicastPackets(Selected(map["id" := recent], ["id"], now), [c]) == [Packet(0, addr.ip, addr.zone, RequestCommand)]
    ensures UnicastPackets(Selected(map["id" := stale], ["id"], now), [c]) == []
  {
    var ids: seq<string> := ["id"];
    assert ids[..0] == [];
    var m1 := map["id" := recent];
    assert UnicastCandidate(recent, now);
    assert Selected(m1, ids, now) == Selected(m1, [], now) + [recent];
    var ns := [recent];
    assert ns[..0] == [];
    assert NodePackets(addr, [c], 0) == [];
    assert NodePackets(addr, [c], 1) == [Packet(0, addr.ip, addr.zone, RequestCommand)];
    assert UnicastPackets(ns, [c]) == UnicastPackets([], [c]) + NodePackets(addr, [c], 1);
    var m2 := map["id" := stale];
    assert !UnicastCandidate(stale, now);
    assert Selected(m2, ids, now) == Selected(m2, [], now) + [];
  }

  // ---------------------------------------------------------------------
  // Which responses reach the registry

  /** The number of bytes a character takes in UTF-8, the encoding of Go
      strings. */
  function Utf8Width(c: char): (w: nat)
    ensures 1 <= w <= 4
    ensures (c as int) < 0x80 <==> w == 1
  {
    if (c as int) < 0x80 then 1
    else if (c as int) < 0x800 then 2
    else if (c as int) < 0x1_0000 then 3
    else 4
  }

  /** The length of a string in bytes, as Go's `len` counts it. */
  function Utf8Len(s: string): nat
    decreases |s|
  {
    if s == [] then 0 else Utf8Len(s[..|s| - 1]) + Utf8Width(s[|s| - 1])
  }

  /** A string of ASCII characters is as long in bytes as in characters;
      any other string is longer in bytes. */
  lemma {:induction false} Utf8LenAscii(s: string)
    ensures Utf8Len(s) >= |s|
    ensures Utf8Len(s) == |s| <==> forall k :: 0 <= k < |s| ==> (s[k] as int) < 0x80
    decreases |s|
  {
    if s != [] {
      var init := s[..|s| - 1];
      Utf8LenAscii(init);
      assert forall k :: 0 <= k < |init| ==> init[k] == s[k];
    }
  }

  /** Node IDs are accepted only when exactly 12 bytes long. */
  predicate ValidNodeId(id: string)
  {
    Utf8Len(id) == 12
  }

  /** Bytes, not characters, are counted: six two-byte characters make a
      valid ID, and twelve characters of which one takes two bytes do not. */
  lemma ValidNodeIdCountsBytes()
    ensures ValidNodeId("\U{e4}\U{e4}\U{e4}\U{e4}\U{e4}\U{e4}")
    ensures !ValidNodeId("\U{e4}aaaaaaaaaaa")
    ensures ValidNodeId("aabbccddeeff")
  {
    var umlauts := "\U{e4}\U{e4}\U{e4}\U{e4}\U{e4}\U{e4}";
    Utf8LenUniform(umlauts, 2);
    var tail := "aaaaaaaaaaa";
    Utf8LenUniform(tail, 1);
    Utf8LenUniform("\U{e4}", 2);
    Utf8LenAppend("\U{e4}", tail);
    assert "\U{e4}" + tail == "\U{e4}aaaaaaaaaaa";
    Utf8LenUniform("aabbccddeeff", 1);
  }

  /** Byte lengths add up under concatenation. */
  lemma {:induction false} Utf8LenAppend(s: string, t: string)
    ensures Utf8Len(s + t) == Utf8Len(s) + Utf8Len(t)
    decreases |t|
  {
    if t == [] {
      assert s + t == s;
    } else {
      var init := t[..|t| - 1];
      Utf8LenAppend(s, init);
      assert (s + t)[..|s + t| - 1] == s + init;
      assert (s + t)[|s + t| - 1] == t[|t| - 1];
    }
  }

  /** A string whose characters all take w bytes is w times as long in
      bytes. */
  lemma {:induction false} Utf8LenUniform(s: string, w: nat)
    requires forall k :: 0 <= k < |s| ==> Utf8Width(s[k]) == w
    ensures Utf8Len(s) == w * |s|
    decreases |s|
  {
    if s != [] {
      var init := s[..|s| - 1];
      assert forall k :: 0 <= k < |init| ==> init[k] == s[k];
      Utf8LenUniform(init, w);
    }
  }

  /** The candidate node ID of a response: that of its node information if
      present, else of its neighbours, else of its statistics, else "". */
  function CandidateId(res: ResponseData): (id: string)
    ensures res.nodeInfo.Some? ==> id == res.nodeInfo.value.nodeId
    ensures res.nodeInfo.None? && res.neighbours.Some? ==> id == res.neighbours.value.nodeId
    ensures res.nodeInfo.None? && res.neighbours.None? && res.statistics.Some? ==> id == res.statistics.value.nodeId
    ensures res.nodeInfo.None? && res.neighbours.None? && res.statistics.None? ==> id == ""
  {
    if res.nodeInfo.Some? then res.nodeInfo.value.nodeId
    else if res.neighbours.Some? then res.neighbours.value.nodeId
    else if res.statistics.Some? then res.statistics.value.nodeId
    else ""
  }

  /** The response with every fragment whose own node ID disagrees with
      `id` removed; agreeing fragments are kept untouched and nothing is
      added. */
  function Sanitize(res: ResponseData, id: string): (r: ResponseData)
    ensures r.nodeInfo.Some? <==> res.nodeInfo.Some? && res.nodeInfo.value.nodeId == id
    ensures r.statistics.Some? <==> res.statistics.Some? && res.statistics.value.nodeId == id
    ensures r.neighbours.Some? <==> res.neighbours.Some? && res.neighbours.value.nodeId == id
    ensures r.nodeInfo.Some? ==> r.nodeInfo == res.nodeInfo
    ensures r.statistics.Some? ==> r.statistics == res.statistics
    ensures r.neighbours.Some? ==> r.neighbours == res.neighbours
  {
    ResponseData(
      if res.nodeInfo.Some? && res.nodeInfo.value.nodeId != id then None else res.nodeInfo,
      if res.statistics.Some? && res.statistics.value.nodeId != id then None else res.statistics,
      if res.neighbours.Some? && res.neighbours.value.nodeId != id then None else res.neighbours)
  }

  /** The fragment an accepted ID was read from survives the clean-up, so a
      record handed to the registry is never empty. */
  lemma SanitizeKeepsSource(res: ResponseData)
    requires ValidNodeId(CandidateId(res))
    ensures var r := Sanitize(res, CandidateId(res));
      r.nodeInfo.Some? || r.neighbours.Some? || r.statistics.Some?
  {
  }

  /** Priority decides before validity: an invalid node information ID
      rejects the response even when a lower-priority fragment carries a
      valid ID. */
  lemma HigherPriorityDecides(res: ResponseData)
    requires res.nodeInfo.Some? && !ValidNodeId(res.nodeInfo.value.nodeId)
    ensures !ValidNodeId(CandidateId(res))
  {
  }

  /** Cleaning up twice with the same ID is cleaning up once. */
  lemma SanitizeIdempotent(res: ResponseData, id: string)
    ensures Sanitize(Sanitize(res, id), id) == Sanitize(res, id)
  {
  }

  /** The registry after one accepted response: `update` is the registry's
      merge, given the node stored under the ID (None for a new node) and
      the cleaned-up record; the merged node, with the sender as its
      address, is stored under the ID. */
  function Merged(nodes: map<string, Node>, id: string, rec: ResponseData, addr: UdpAddr,
                  update: (Option<Node>, ResponseData) -> Node): map<string, Node>
  {
    nodes[id := update(if id in nodes then Some(nodes[id]) else None, rec).(address := Some(addr))]
  }

  /** Only the accepted ID's entry changes, and it records the sender. */
  lemma MergedChangesOneEntry(nodes: map<string, Node>, id: string, rec: ResponseData, addr: UdpAddr,
                              update: (Option<Node>, ResponseData) -> Node)
    ensures var m := Merged(nodes, id, rec, addr, update);
      && m.Keys == nodes.Keys + {id}
      && m[id].address == Some(addr)
      && forall other :: other in nodes && other != id ==> m[other] == nodes[other]
  {
  }

  // ---------------------------------------------------------------------
  // The collector

  class Collector {
    /** The open sockets, in the order they were opened. */
    var connections: seq<MulticastConn>
    /** The collection interval in nanoseconds; 0 until started. */
    var interval: int
    /** The node registry, keyed by node ID. */
    var nodes: map<string, Node>
    /** Every request written, in order. */
    var sent: seq<Packet>
    /** Every call of the registry's update: the ID and the record. */
    var updates: seq<(string, ResponseData)>

    constructor (registry: map<string, Node>)
      ensures connections == [] && interval == 0 && nodes == registry && sent == [] && updates == []
    {
      connections := [];
      interval := 0;
      nodes := registry;
      sent := [];
      updates := [];
    }

    /** Opens the socket of one interface. Fails (the source panics) when no
        bind address can be found or when the socket cannot be opened.
        `socket` is what opening the socket gives: the zone its local
        address reports (which requests on it are later scoped to; empty
        for an IPv4 bind, whatever zone was asked for) or the error. */
    method ListenUdp(iface: InterfaceConfig, lookup: Result<seq<IfAddr>, string>, parseIp: string -> IP,
                     defaultGroup: string, isGlobal: IP -> bool, isLinkLocal: IP -> bool,
                     socket: Result<string, string>) returns (r: Outcome<string>)
      modifies this`connections
      ensures var bind := BindAddress(iface, lookup, parseIp, isGlobal, isLinkLocal);
        && (bind.Err? ==> r == Fail(bind.error) && connections == old(connections))
        && (bind.Ok? && socket.Err? ==> r == Fail(socket.error) && connections == old(connections))
        && (bind.Ok? && socket.Ok? ==>
              r == Pass &&
              connections == old(connections) +
                [MulticastConn(UdpAddr(bind.value, iface.port, socket.value),
                               !iface.sendNoRequest, parseIp(GroupAddress(iface, defaultGroup)))])
    {
      var addr: IP;
      if iface.ipAddress != "" {
        addr := parseIp(iface.ipAddress);
      } else {
        var found := GetUnicastAddr(iface.interfaceName, iface.multicastAddress == "", lookup, isGlobal, isLinkLocal);
        if found.Err? {
          return Fail(found.error);
        }
        addr := found.value;
      }
      var multicastAddress := defaultGroup;
      if iface.multicastAddress != "" {
        multicastAddress := iface.multicastAddress;
      }
      if socket.Err? {
        return Fail(socket.error);
      }
      connections := connections + [MulticastConn(UdpAddr(addr, iface.port, socket.value),
                                                  !iface.sendNoRequest, parseIp(multicastAddress))];
      return Pass;
    }

    /** Starts collecting every `newInterval` nanoseconds. Fails (the source
        panics) when already started or when the interval is not positive. */
    method Start(newInterval: int) returns (r: Outcome<string>)
      modifies this`interval
      ensures old(interval) != 0 ==> r == Fail("already started") && interval == old(interval)
      ensures old(interval) == 0 && newInterval <= 0 ==> r == Fail("invalid collector interval") && interval == 0
      ensures old(interval) == 0 && newInterval > 0 ==> r == Pass && interval == newInterval
    {
      if interval != 0 {
        return Fail("already started");
      }
      if newInterval <= 0 {
        return Fail("invalid collector interval");
      }
      interval := newInterval;
      return Pass;
    }

    /** Writes one request to `destination` on socket `conn`. */
    method SendPacketOn(conn: nat, destination: IP)
      requires conn < |connections|
      modifies this`sent
      ensures sent == old(sent) + [Packet(conn, destination, connections[conn].local.zone, RequestCommand)]
    {
      sent := sent + [Packet(conn, destination, connections[conn].local.zone, RequestCommand)];
    }

    /** Writes one request to `destination` on the first socket. The source
        indexes the socket list without checking it, so with no socket it
        panics; that panic is the failure here, and nothing is sent. */
    method SendPacket(destination: IP) returns (r: Outcome<string>)
      modifies this`sent
      ensures |connections| == 0 ==>
        r == Fail("runtime error: index out of range [0] with length 0") && sent == old(sent)
      ensures |connections| > 0 ==>
        r == Pass && sent == old(sent) + [Packet(0, destination, connections[0].local.zone, RequestCommand)]
    {
      if |connections| == 0 {
        return Fail("runtime error: index out of range [0] with length 0");
      }
      SendPacketOn(0, destination);
      return Pass;
    }

    /** Sends the multicast request on every socket that sends requests. */
    method SendMulticast()
      modifies this`sent
      ensures sent == old(sent) + MulticastPackets(connections, |connections|)
    {
      for k := 0 to |connections|
        invariant sent == old(sent) + MulticastPackets(connections, k)
      {
        if connections[k].sendRequest {
          SendPacketOn(k, connections[k].multicastAddress);
        }
      }
    }

    /** Sends unicast requests to the nodes seen in the ten minutes before
        `seenBefore`, on every socket whose zone matches each node's
        address; `order` is the registry's iteration order. Returns the
        number of requests sent. */
    method SendUnicasts(seenBefore: int, order: seq<string>) returns (count: nat)
      requires IterationOrder(nodes, order)
      modifies this`sent
      ensures var selected := Selected(nodes, order, seenBefore);
        (forall k :: 0 <= k < |selected| ==> selected[k].address.Some?) &&
        sent == old(sent) + UnicastPackets(selected, connections) &&
        count == |UnicastPackets(selected, connections)|
    {
      var selected := SelectUnicast(seenBefore, order);
      count := SendToNodes(selected);
    }

    /** Sends one unicast request per zone-matching socket to each of
        `selected`, in order, and returns how many were sent. */
    method SendToNodes(selected: seq<Node>) returns (count: nat)
      requires forall k :: 0 <= k < |selected| ==> selected[k].address.Some?
      modifies this`sent
      ensures sent == old(sent) + UnicastPackets(selected, connections)
      ensures count == |UnicastPackets(selected, connections)|
    {
      count := 0;
      for k := 0 to |selected|
        invariant sent == old(sent) + UnicastPackets(selected[..k], connections)
        invariant count == |UnicastPackets(selected[..k], connections)|
      {
        assert selected[..k + 1][..k] == selected[..k];
        var node := selected[k];
        var send := 0;
        for j := 0 to |connections|
          invariant sent == old(sent) + UnicastPackets(selected[..k], connections)
                            + NodePackets(node.address.value, connections, j)
          invariant send == |NodePackets(node.address.value, connections, j)|
        {
          if node.address.value.zone != "" && connections[j].local.zone != node.address.value.zone {
            continue;
          }
          SendPacketOn(j, node.address.value.ip);
          send := send + 1;
        }
        count := count + send;
      }
      assert selected[..|selected|] == selected;
    }

    /** The registry's `Select` for the unicast phase. */
    method SelectUnicast(seenBefore: int, order: seq<string>) returns (selected: seq<Node>)
      requires IterationOrder(nodes, order)
      ensures selected == Selected(nodes, order, seenBefore)
      ensures forall k :: 0 <= k < |selected| ==> selected[k].address.Some?
      ensures forall n :: n in selected <==> n in nodes.Values && UnicastCandidate(n, seenBefore)
    {
      selected := [];
      for k := 0 to |order|
        invariant selected == Selected(nodes, order[..k], seenBefore)
        invariant forall i :: 0 <= i < |selected| ==> selected[i].address.Some?
      {
        assert order[..k + 1][..k] == order[..k];
        var n := nodes[order[k]];
        if UnicastCandidate(n, seenBefore) {
          selected := selected + [n];
        }
      }
      assert order[..|order|] == order;
      SelectedExact(nodes, order, seenBefore);
      forall n | n in nodes.Values
        ensures exists k :: 0 <= k < |order| && nodes[order[k]] == n
      {
        var id :| id in nodes && nodes[id] == n;
        assert id in order;
        var k :| 0 <= k < |order| && order[k] == id;
      }
    }

    /** Hands a decoded response to the registry: rejects it unless its
        candidate ID is 12 bytes long, removes the fragments whose ID
        disagrees, merges the rest and records the sender's address. */
    method SaveResponse(addr: UdpAddr, res: ResponseData, update: (Option<Node>, ResponseData) -> Node)
      modifies this`nodes, this`updates
      ensures var id := CandidateId(res);
        && (!ValidNodeId(id) ==> nodes == old(nodes) && updates == old(updates))
        && (ValidNodeId(id) ==>
              updates == old(updates) + [(id, Sanitize(res, id))] &&
              nodes == Merged(old(nodes), id, Sanitize(res, id), addr, update))
    {
      var nodeId := "";
      if res.nodeInfo.Some? {
        nodeId := res.nodeInfo.value.nodeId;
      } else if res.neighbours.Some? {
        nodeId := res.neighbours.value.nodeId;
      } else if res.statistics.Some? {
        nodeId := res.statistics.value.nodeId;
      }
      if Utf8Len(nodeId) != 12 {
        return;
      }
      var rec := res;
      if rec.statistics.Some? && rec.statistics.value.nodeId != nodeId {
        rec := rec.(statistics := None);
      }
      if rec.neighbours.Some? && rec.neighbours.value.nodeId != nodeId {
        rec := rec.(neighbours := None);
      }
      if rec.nodeInfo.Some? && rec.nodeInfo.value.nodeId != nodeId {
        rec := rec.(nodeInfo := None);
      }
      updates := updates + [(nodeId, rec)];
      var node := update(if nodeId in nodes then Some(nodes[nodeId]) else None, rec);
      nodes := nodes[nodeId := node.(address := Some(addr))];
    }

    /** Processes one received datagram: `parse` stands for decompressing
        and decoding it; a datagram that does not decode is dropped. */
    method HandleDatagram(addr: UdpAddr, raw: seq<bv8>, parse: seq<bv8> -> Result<ResponseData, string>,
                          update: (Option<Node>, ResponseData) -> Node)
      modifies this`nodes, this`updates
      ensures parse(raw).Err? ==> nodes == old(nodes) && updates == old(updates)
      ensures parse(raw).Ok? ==> var res := parse(raw).value; var id := CandidateId(res);
        && (!ValidNodeId(id) ==> nodes == old(nodes) && updates == old(updates))
        && (ValidNodeId(id) ==>
              updates == old(updates) + [(id, Sanitize(res, id))] &&
              nodes == Merged(old(nodes), id, Sanitize(res, id), addr, update))
    {
      var data := parse(raw);
      if data.Ok? {
        SaveResponse(addr, data.value, update);
      }
    }
  }

  /** A started collector cannot be started again. */
  method StartOnce(c: Collector, first: int, second: int) returns (r1: Outcome<string>, r2: Outcome<string>)
    requires c.interval == 0 && first > 0
    modifies c
    ensures r1 == Pass && r2 == Fail("already started") && c.interval == first
  {
    r1 := c.Start(first);
    r2 := c.Start(second);
  }
}
