/** The `site` output filter: keeps only the nodes of the listed sites. Its
    implementation file is not part of this model; the behaviour is the one
    output/filter/site/site_test.go asserts. */
module Site {
  import opened Wrappers
  import opened Values
  import opened RuntimeNode
  import StringList

  datatype Sites = Sites(codes: set<string>)

  /** The configuration was not a list of strings. */
  datatype ConfigError = InvalidConfig

  /** Accepts exactly a list of strings. */
  function Build(config: Value): (r: Result<Sites, ConfigError>)
    ensures r.Ok? <==> config.List? && forall k :: 0 <= k < |config.items| ==> config.items[k].Str?
    ensures r.Ok? ==> forall code :: code in r.value.codes <==> Str(code) in config.items
  {
    StringList.StringsExact(if config.List? then config.items else []);
    if !config.List? then Err(InvalidConfig)
    else match StringList.Strings(config.items)
      case None => Err(InvalidConfig)
      case Some(codes) =>
        assert forall c :: c in codes <==> Str(c) in config.items by {
          forall c ensures c in codes <==> Str(c) in config.items {
            if c in codes {
              var k :| 0 <= k < |codes| && codes[k] == c;
              assert config.items[k] == Str(c);
            }
            if Str(c) in config.items {
              var k :| 0 <= k < |config.items| && config.items[k] == Str(c);
              assert codes[k] == c;
            }
          }
        }
        Ok(Sites(set c | c in codes))
  }

  /** Keeps a node exactly when it has node information whose site code is
      listed, and then returns it as it is; a node without node information
      is dropped. */
  function Apply(s: Sites, node: Node): (r: Option<Node>)
    ensures r.None? || r == Some(node)
    ensures r.Some? <==> node.nodeinfo.Some? && node.nodeinfo.value.system.siteCode in s.codes
  {
    if node.nodeinfo.Some? && node.nodeinfo.value.system.siteCode in s.codes then Some(node) else None
  }

  /** The cases the package's test asserts. */
  lemma TestCases(info: Data.NodeInfo, node: Node)
    requires node.nodeinfo == Some(info) && info.system.siteCode == "ffhb"
    ensures Build(Str("ffhb")).Err?
    ensures Build(List([Int(3), Str("ffhb")])).Err?
    ensures Build(List([Str("ffhb")])).Ok?
    ensures Apply(Build(List([Str("ffhb")])).value,
                  node.(nodeinfo := Some(info.(system := info.system.(siteCode := "ffxx"))))).None?
    ensures Apply(Build(List([Str("ffhb")])).value, node).Some?
    ensures Apply(Build(List([Str("ffhb")])).value, node.(nodeinfo := None)).None?
  {
  }
}
