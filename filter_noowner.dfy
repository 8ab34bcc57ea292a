/** The `no_owner` output filter (output/filter/noowner/noowner.go): when
    enabled, hides the owner contact of every node. */
module NoOwner {
  import opened Wrappers
  import opened Values
  import opened RuntimeNode

  datatype NoOwner = NoOwner(has: bool)

  /** Accepts exactly a boolean configuration. */
  function Build(config: Value): (r: Result<NoOwner, string>)
    ensures r.Ok? <==> config.Bool?
    ensures r.Ok? ==> r.value.has == config.b
    ensures r.Err? ==> r.error == "invalid configuration, boolean expected"
  {
    if config.Bool? then Ok(NoOwner(config.b))
    else Err("invalid configuration, boolean expected")
  }

  /** Never drops a node. With `has` set, a node with node information comes
      back as a fresh copy whose owner is nil and whose every other field,
      of the node and of its node information, equals the input's; any
      other node comes back unchanged. */
  function Apply(no: NoOwner, node: Node): (r: Option<Node>)
    ensures r.Some?
    ensures r.value.(nodeinfo := node.nodeinfo) == node
    ensures r.value.nodeinfo.Some? <==> node.nodeinfo.Some?
    ensures node.nodeinfo.Some? ==>
      r.value.nodeinfo.value.(owner := node.nodeinfo.value.owner) == node.nodeinfo.value
    ensures no.has && node.nodeinfo.Some? ==> r.value.nodeinfo.value.owner.None?
    ensures !no.has ==> r == Some(node)
    ensures node.nodeinfo.None? ==> r == Some(node)
  {
    match node.nodeinfo
    case Some(info) =>
      if no.has then
        Some(Node(
          address := node.address,
          firstseen := node.firstseen,
          lastseen := node.lastseen,
          online := node.online,
          statistics := node.statistics,
          nodeinfo := Some(Data.NodeInfo(
            nodeId := info.nodeId,
            network := info.network,
            system := info.system,
            owner := None,
            hostname := info.hostname,
            location := info.location,
            software := info.software,
            hardware := info.hardware,
            vpn := info.vpn,
            wireless := info.wireless)),
          neighbours := node.neighbours))
      else Some(node)
    case None => Some(node)
  }

  /** Removing the owner a second time changes nothing. */
  lemma ApplyIdempotent(no: NoOwner, node: Node)
    ensures Apply(no, Apply(no, node).value) == Apply(no, node)
  {
  }

  /** The cases the package's test asserts: a non-boolean configuration is
      refused, `true` removes an owner and `false` keeps it. */
  lemma TestCases(owner: Data.Owner, info: Data.NodeInfo, node: Node)
    requires info.owner == Some(owner) && node.nodeinfo == Some(info)
    ensures Build(Str("nope")).Err?
    ensures Apply(Build(Bool(true)).value, node).value.nodeinfo.value.owner.None?
    ensures Apply(Build(Bool(false)).value, node).value.nodeinfo.value.owner == Some(owner)
  {
  }
}
