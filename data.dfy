/** The response fragments a node reports about itself. The package that
    declares them (data/) is not part of this model: the fields are the ones
    the modelled code reads or copies, and the descriptors it only copies
    are kept opaque. */
module Data {
  import opened Wrappers

  /** A descriptor the modelled code never looks into (network, software,
      hardware, wireless, neighbour entries), kept as its raw text. */
  datatype Opaque = Opaque(raw: string)

  datatype Owner = Owner(contact: string)

  datatype Location = Location(latitude: real, longitude: real)

  datatype System = System(siteCode: string, domainCode: string)

  type uint32 = x: int | 0 <= x < 0x1_0000_0000

  datatype NodeInfo = NodeInfo(
    nodeId: string,
    network: Opaque,
    system: System,
    owner: Option<Owner>,
    hostname: string,
    location: Option<Location>,
    software: Opaque,
    hardware: Opaque,
    vpn: bool,
    wireless: Option<Opaque>)

  datatype Clients = Clients(total: uint32)

  datatype Statistics = Statistics(nodeId: string, clients: Clients)

  datatype Neighbours = Neighbours(nodeId: string, entries: Opaque)

  /** A decoded response: up to three fragments, each with its own node ID. */
  datatype ResponseData = ResponseData(
    nodeInfo: Option<NodeInfo>,
    statistics: Option<Statistics>,
    neighbours: Option<Neighbours>)
}
