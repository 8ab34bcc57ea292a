/** The `in_area` output filter (output/filter/inarea/inarea.go): drops nodes
    whose reported position lies outside a latitude/longitude box. */
module InArea {
  import opened Wrappers
  import opened Values
  import opened RuntimeNode

  datatype Area = Area(latitudeMin: real, latitudeMax: real, longitudeMin: real, longitudeMax: real)

  const BoundKeys: seq<string> := ["latitude_min", "latitude_max", "longitude_min", "longitude_max"]

  /** The source asserts each bound it finds to be a float and panics
      otherwise; callers must therefore only pass float bounds. */
  predicate BoundsAreFloats(config: Value)
  {
    config.Object? ==>
      forall k :: k in BoundKeys && k in config.fields ==> config.fields[k].Float?
  }

  /** The configured bound, 0 when the key is absent. */
  function Bound(values: map<string, Value>, key: string): real
  {
    if key in values && values[key].Float? then values[key].f else 0.0
  }

  /** The box a valid configuration describes. */
  function ConfiguredArea(values: map<string, Value>): Area
  {
    Area(Bound(values, "latitude_min"), Bound(values, "latitude_max"),
         Bound(values, "longitude_min"), Bound(values, "longitude_max"))
  }

  /** Builds the filter: the configuration must be a map, missing bounds are
      0, and each minimum must be strictly below its maximum. */
  method Build(config: Value) returns (r: Result<Area, string>)
    requires BoundsAreFloats(config)
    ensures !config.Object? ==> r == Err("invalid configuration, map expected")
    ensures config.Object? ==>
      var a := ConfiguredArea(config.fields);
      && (a.latitudeMin >= a.latitudeMax ==> r == Err("invalid latitude: max is bigger then min"))
      && (a.latitudeMin < a.latitudeMax && a.longitudeMin >= a.longitudeMax ==>
            r == Err("invalid longitude: max is bigger then min"))
      && (r.Ok? <==> a.latitudeMin < a.latitudeMax && a.longitudeMin < a.longitudeMax)
      && (r.Ok? ==> r.value == a)
  {
    if !config.Object? {
      return Err("invalid configuration, map expected");
    }
    var values := config.fields;
    var a := Area(0.0, 0.0, 0.0, 0.0);
    if "latitude_min" in values {
      a := a.(latitudeMin := values["latitude_min"].f);
    }
    if "latitude_max" in values {
      a := a.(latitudeMax := values["latitude_max"].f);
    }
    if "longitude_min" in values {
      a := a.(longitudeMin := values["longitude_min"].f);
    }
    if "longitude_max" in values {
      a := a.(longitudeMax := values["longitude_max"].f);
    }
    if a.latitudeMin >= a.latitudeMax {
      return Err("invalid latitude: max is bigger then min");
    }
    if a.longitudeMin >= a.longitudeMax {
      return Err("invalid longitude: max is bigger then min");
    }
    return Ok(a);
  }

  /** Whether a position lies in the box, bounds included. */
  predicate Contains(a: Area, lat: real, long: real)
  {
    a.latitudeMin <= lat <= a.latitudeMax && a.longitudeMin <= long <= a.longitudeMax
  }

  /** Keeps nodes without node information or without a location; keeps a
      located node exactly when its position lies in the box. A kept node is
      returned as it is. */
  function Apply(a: Area, node: Node): (r: Option<Node>)
    ensures r.None? || r == Some(node)
    ensures node.nodeinfo.None? ==> r == Some(node)
    ensures node.nodeinfo.Some? && node.nodeinfo.value.location.None? ==> r == Some(node)
    ensures node.nodeinfo.Some? && node.nodeinfo.value.location.Some? ==>
      (r.Some? <==> Contains(a, node.nodeinfo.value.location.value.latitude,
                                node.nodeinfo.value.location.value.longitude))
  {
    match node.nodeinfo
    case None => Some(node)
    case Some(info) =>
      match info.location
      case None => Some(node)
      case Some(loc) =>
        if loc.latitude >= a.latitudeMin && loc.latitude <= a.latitudeMax
           && loc.longitude >= a.longitudeMin && loc.longitude <= a.longitudeMax
        then Some(node)
        else None
  }

  /** Filtering twice with the same box is filtering once. */
  lemma ApplyIdempotent(a: Area, node: Node)
    ensures Apply(a, node).Some? ==> Apply(a, Apply(a, node).value) == Apply(a, node)
  {
  }

  /** A node located exactly on a corner of the box is kept (the bounds are
      inclusive), and one just outside a valid box is dropped. */
  lemma BoundsInclusive(a: Area, node: Node, info: Data.NodeInfo)
    requires node.nodeinfo == Some(info)
    requires info.location == Some(Data.Location(a.latitudeMax, a.longitudeMin))
    requires a.latitudeMin < a.latitudeMax && a.longitudeMin < a.longitudeMax
    ensures Apply(a, node) == Some(node)
    ensures Apply(a, node.(nodeinfo := Some(info.(location := Some(Data.Location(a.latitudeMax + 1.0, a.longitudeMin)))))).None?
  {
  }
}
