/** The node-list export format (output/nodelist/nodelist.go): one entry
    per node that has node information. */
module Nodelist {
  import opened Wrappers
  import opened Data
  import opened RuntimeNode

  datatype Position = Position(lat: real, long: real)

  datatype Status = Status(online: bool, lastContact: int, clients: uint32)

  datatype ListNode = ListNode(id: string, name: string, position: Option<Position>, status: Status)

  datatype NodeList = NodeList(version: string, timestamp: int, list: seq<ListNode>)

  const Version := "1.0.1"

  /** The exported entry of a node, nil when the node has no node
      information. Clients are only reported for online nodes with
      statistics. */
  function NewNode(n: Node): (r: Option<ListNode>)
    ensures r.Some? <==> n.nodeinfo.Some?
    ensures r.Some? ==>
      && r.value.id == n.nodeinfo.value.nodeId
      && r.value.name == n.nodeinfo.value.hostname
      && (r.value.position.Some? <==> n.nodeinfo.value.location.Some?)
      && (r.value.position.Some? ==>
            r.value.position.value.lat == n.nodeinfo.value.location.value.latitude &&
            r.value.position.value.long == n.nodeinfo.value.location.value.longitude)
      && r.value.status.online == n.online
      && r.value.status.lastContact == n.lastseen
      && r.value.status.clients ==
           (if n.statistics.Some? && n.online then n.statistics.value.clients.total else 0)
  {
    match n.nodeinfo
    case None => None
    case Some(info) =>
      var position := match info.location
        case Some(loc) => Some(Position(loc.latitude, loc.longitude))
        case None => None;
      var clients := if n.statistics.Some? && n.online then n.statistics.value.clients.total else 0;
      Some(ListNode(info.nodeId, info.hostname, position, Status(n.online, n.lastseen, clients)))
  }

  /** The entries of the given nodes, in the given order. */
  function Entries(nodes: seq<Node>): seq<ListNode>
    decreases |nodes|
  {
    if nodes == [] then []
    else
      var last := NewNode(nodes[|nodes| - 1]);
      Entries(nodes[..|nodes| - 1]) + (if last.Some? then [last.value] else [])
  }

  /** The number of nodes that have node information. */
  function WithNodeinfo(nodes: seq<Node>): nat
    decreases |nodes|
  {
    if nodes == [] then 0
    else WithNodeinfo(nodes[..|nodes| - 1]) + (if nodes[|nodes| - 1].nodeinfo.Some? then 1 else 0)
  }

  /** Exactly one entry for each node with node information, none for the
      others. */
  lemma {:induction false} EntriesExact(nodes: seq<Node>)
    ensures |Entries(nodes)| == WithNodeinfo(nodes)
    ensures forall e :: e in Entries(nodes) <==> exists k :: 0 <= k < |nodes| && NewNode(nodes[k]) == Some(e)
    decreases |nodes|
  {
    if nodes != [] {
      var init := nodes[..|nodes| - 1];
      EntriesExact(init);
      assert forall k :: 0 <= k < |init| ==> init[k] == nodes[k];
      forall e ensures e in Entries(nodes) <==> exists k :: 0 <= k < |nodes| && NewNode(nodes[k]) == Some(e) {
        if e in Entries(nodes) && e !in Entries(init) {
          assert NewNode(nodes[|nodes| - 1]) == Some(e);
        }
        if exists k :: 0 <= k < |nodes| && NewNode(nodes[k]) == Some(e) {
          var k :| 0 <= k < |nodes| && NewNode(nodes[k]) == Some(e);
          if k < |init| {
            assert e in Entries(init);
          }
        }
      }
    }
  }

  /** Builds the node list from the registry's nodes (in the registry's
      iteration order), stamped with the time `now`. */
  method Transform(nodes: seq<Node>, now: int) returns (nodelist: NodeList)
    ensures nodelist.version == Version && nodelist.timestamp == now
    ensures nodelist.list == Entries(nodes)
  {
    nodelist := NodeList(Version, now, []);
    var k := 0;
    while k < |nodes|
      invariant 0 <= k <= |nodes|
      invariant nodelist.version == Version && nodelist.timestamp == now
      invariant nodelist.list == Entries(nodes[..k])
    {
      assert nodes[..k + 1][..k] == nodes[..k];
      var node := NewNode(nodes[k]);
      if node.Some? {
        nodelist := nodelist.(list := nodelist.list + [node.value]);
      }
      k := k + 1;
    }
    assert nodes[..k] == nodes;
  }
}
