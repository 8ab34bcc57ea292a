/** The `blacklist` output filter: drops the nodes whose ID is listed. Its
    implementation file is not part of this model; the behaviour is the one
    output/filter/blacklist/blacklist_test.go asserts. */
module Blacklist {
  import opened Wrappers
  import opened Values
  import opened RuntimeNode
  import StringList

  datatype Blacklist = Blacklist(ids: set<string>)

  /** The configuration was not a list of strings. */
  datatype ConfigError = InvalidConfig

  /** Accepts exactly a list of strings (the empty list included). */
  function Build(config: Value): (r: Result<Blacklist, ConfigError>)
    ensures r.Ok? <==> config.List? && forall k :: 0 <= k < |config.items| ==> config.items[k].Str?
    ensures r.Ok? ==> forall id :: id in r.value.ids <==> Str(id) in config.items
  {
    StringList.StringsExact(if config.List? then config.items else []);
    if !config.List? then Err(InvalidConfig)
    else match StringList.Strings(config.items)
      case None => Err(InvalidConfig)
      case Some(ids) =>
        assert forall id :: id in ids <==> Str(id) in config.items by {
          forall id ensures id in ids <==> Str(id) in config.items {
            if id in ids {
              var k :| 0 <= k < |ids| && ids[k] == id;
              assert config.items[k] == Str(id);
            }
            if Str(id) in config.items {
              var k :| 0 <= k < |config.items| && config.items[k] == Str(id);
              assert ids[k] == id;
            }
          }
        }
        Ok(Blacklist(set id | id in ids))
  }

  /** Drops a node exactly when it has node information whose ID is listed;
      every other node is returned as it is. */
  function Apply(b: Blacklist, node: Node): (r: Option<Node>)
    ensures r.None? || r == Some(node)
    ensures r.None? <==> node.nodeinfo.Some? && node.nodeinfo.value.nodeId in b.ids
  {
    if node.nodeinfo.Some? && node.nodeinfo.value.nodeId in b.ids then None else Some(node)
  }

  /** The cases the package's test asserts. */
  lemma TestCases(info: Data.NodeInfo, node: Node)
    requires info.nodeId == "" && node.nodeinfo == Some(info)
    ensures Build(Int(3)).Err?
    ensures Build(List([Int(2), Str("a")])).Err?
    ensures Build(List([])).Ok? && Apply(Build(List([])).value, node).Some?
    ensures Build(List([Str("a"), Str("c")])).Ok?
    ensures Apply(Build(List([Str("a"), Str("c")])).value, node.(nodeinfo := Some(info.(nodeId := "a")))).None?
    ensures Apply(Build(List([Str("a"), Str("c")])).value, node).Some?
    ensures Apply(Build(List([Str("a"), Str("c")])).value, node.(nodeinfo := None)).Some?
  {
  }
}
