/** The registry's aggregate node record (runtime/node.go). */
module RuntimeNode {
  import opened Wrappers
  import opened Data

  /** An IP address as Go's `net.IP` byte slice; the nil address is []. */
  type IP = seq<bv8>

  /** A `net.UDPAddr`: address, port and IPv6 zone (interface name). */
  datatype UdpAddr = UdpAddr(ip: IP, port: int, zone: string)

  /** Timestamps (`Firstseen`, `Lastseen`) are nanoseconds since an epoch. */
  datatype Node = Node(
    address: Option<UdpAddr>,
    firstseen: int,
    lastseen: int,
    online: bool,
    statistics: Option<Statistics>,
    nodeinfo: Option<NodeInfo>,
    neighbours: Option<Neighbours>)

  /** Whether the node reports itself as a VPN gateway. */
  function IsGateway(node: Node): (r: bool)
    ensures node.nodeinfo.None? ==> !r
    ensures node.nodeinfo.Some? ==> r == node.nodeinfo.value.vpn
  {
    if node.nodeinfo.Some? then node.nodeinfo.value.vpn else false
  }

  /** Only the node information decides: address, timestamps, online flag,
      statistics and neighbours play no part. */
  lemma IsGatewayDependsOnNodeinfoOnly(n: Node, m: Node)
    requires n.nodeinfo == m.nodeinfo
    ensures IsGateway(n) == IsGateway(m)
  {
  }
}
