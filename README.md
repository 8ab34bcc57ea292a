# yanic respond collector and output layer, modelled in Dafny

This project models the deterministic decision logic of yanic, a collector of
telemetry for community mesh networks. It covers:

- The respond collector, which asks mesh nodes for their `nodeinfo`,
  `statistics` and `neighbours` over UDP and feeds their replies into the
  node registry. The model covers which address each interface socket binds
  and which multicast group it uses. It covers which sockets send the
  periodic multicast request, and which recently seen nodes get a unicast
  request on which sockets. It covers how a decoded response is accepted or
  rejected and cleaned up before the registry merges it, and the guards of
  `Start`.
- The output layer. It covers how the combined output registers the
  configured output adapters and their filter sets, and how it hands every
  output its filtered nodes. It covers the node-list export, the `path`
  configuration of the `nodelist` and `meshviewer-ffrgb` adapters, and the
  `in_area`, `no_owner`, `blacklist` and `site` node filters.
- `Config.SitesDomains` and `Node.IsGateway`.

The stateful parts are imperative Dafny. The collector is a class whose
fields are the connections, the interval, the registry map, a log of the
requests sent and a log of the registry-update calls. Its methods append to
these and say exactly what the new state is. `Register`, `Transform`,
`GetUnicastAddr` and the unicast selection are loops proved against a
specification function, and lemmas state what those functions promise.
`Save` and `SitesDomains` are loops whose contracts state their results
directly. The filters, `NewNode`, `IsGateway` and the `Path`/`Register`
adapters are functions whose contracts state the rules.

Things that are outside the model become parameters:
- The system's view of an interface.
- `net.ParseIP` and the standard library's address classification.
- The default multicast group.
- The registry's merge (`Update`).
- Decoding a datagram.
- The filter factory and the application of a filter set.
- The adapters and the iteration order of Go maps and of `Select`.

Timestamps and durations are integers of nanoseconds.

Four details of the collector that the model keeps:
- A unicast request goes to EVERY socket whose zone equals the node's address
  zone, and a node whose address has no zone gets a request on every socket
  (respond/collector.go:184-190).
- Only nodes whose `Lastseen` lies strictly inside the ten-minute window and
  whose address is known are asked (respond/collector.go:177).
- Whether a multicast group is configured decides between a link-local and a
  global bind address only when no explicit address is given
  (respond/collector.go:65-68).
- A socket's zone is the one its local address reports once it is open, not
  the configured interface name (respond/collector.go:185, 211).

## Model

| member | source | states |
|---|---|---|
| `Values.Get` | output/all/output.go:24-25 | looking up an absent configuration key yields nil; a present key yields its value |
| `RuntimeNode.IsGateway` | runtime/node.go:31-36 | a node without node information is no gateway; otherwise it is a gateway exactly when its node information reports VPN |
| `RuntimeNode.IsGatewayDependsOnNodeinfoOnly` | runtime/node.go:31-36 | two nodes with the same node information agree on being a gateway, whatever their address, timestamps, online flag, statistics or neighbours |
| `InArea.Build` | output/filter/inarea/inarea.go:21-51 | a non-map configuration is refused; missing bounds are 0; a latitude minimum not below its maximum is refused first, then the same for longitude; otherwise the result is exactly the configured box |
| `InArea.Apply` | output/filter/inarea/inarea.go:53-65 | the result is the node itself or nil; nodes without node information or without a location are kept; a located node is kept exactly when its latitude and longitude lie within the bounds, bounds included |
| `InArea.ApplyIdempotent` | output/filter/inarea/inarea.go:53-65 | filtering a kept node again keeps it unchanged |
| `InArea.BoundsInclusive` | output/filter/inarea/inarea.go:59-62 | a node exactly on a corner of the box is kept; one just past the maximum latitude is dropped |
| `NoOwner.Build` | output/filter/noowner/noowner.go:17-22 | accepts exactly a boolean configuration, keeping its value, and errors otherwise |
| `NoOwner.Apply` | output/filter/noowner/noowner.go:24-48 | never drops a node; with the filter on, a node with node information loses its owner and keeps every other node and node-information field; otherwise the node is returned unchanged |
| `NoOwner.ApplyIdempotent` | output/filter/noowner/noowner.go:24-48 | removing the owner twice is removing it once |
| `NoOwner.TestCases` | output/filter/noowner/noowner_test.go:11-39 | a string configuration is refused; `true` removes an owner; `false` keeps it |
| `StringList.StringsExact` | output/filter/blacklist/blacklist_test.go:14-23 | a configuration list is read successfully exactly when all its elements are strings, and then yields those strings in order |
| `Blacklist.Build` | output/filter/blacklist/blacklist_test.go:14-23 | accepts exactly a list of strings, the empty list included; the blacklist holds exactly the listed strings |
| `Blacklist.Apply` | output/filter/blacklist/blacklist_test.go:25-42 | the result is the node itself or nil; it is nil exactly when the node has node information whose ID is listed, so nodes without node information and unlisted IDs (the empty ID included) are kept |
| `Blacklist.TestCases` | output/filter/blacklist/blacklist_test.go:11-43 | the test's cases: `3` and `[2, "a"]` are refused, `[]` keeps an ID-less node, `["a", "c"]` drops "a" and keeps an ID-less node and a node without node information |
| `Site.Build` | output/filter/site/site_test.go:14-22 | accepts exactly a list of strings; the filter holds exactly the listed site codes |
| `Site.Apply` | output/filter/site/site_test.go:24-34 | the result is the node itself or nil; a node is kept exactly when it has node information whose site code is listed, so nodes without node information are dropped |
| `Site.TestCases` | output/filter/site/site_test.go:11-35 | the test's cases: `"ffhb"` and `[3, "ffhb"]` are refused, `["ffhb"]` keeps site ffhb and drops site ffxx and a node without node information |
| `RespondConfig.SitesDomains` | respond/config.go:13-19 | the result has exactly the configured sites as keys, and each maps to that site's domain list; an empty configuration gives an empty map |
| `Nodelist.NewNode` | output/nodelist/nodelist.go:31-48 | no entry exactly when the node has no node information; otherwise ID and name come from the node information, the position is present exactly when a location is and copies it, online and last contact copy the node's, and clients is the statistics' total only for an online node with statistics, else 0 |
| `Nodelist.EntriesExact` | output/nodelist/nodelist.go:56-61 | the list has one entry per node with node information and none for other nodes; its entries are exactly the entries of those nodes |
| `Nodelist.Transform` | output/nodelist/nodelist.go:50-63 | the node list has version "1.0.1", the given timestamp, and the entries of the nodes in registry order |
| `NodelistOutput.Path` | output/nodelist/output.go:17-22 | the configured "path" string when the key is present, "" when it is absent |
| `NodelistOutput.Register` | output/nodelist/output.go:28-39 | succeeds exactly when a non-empty path is configured, with an output holding exactly that path; otherwise the error "no path given" and no output |
| `MeshviewerFfrgbOutput.Path` | output/meshviewer-ffrgb/output.go:17-22 | the configured "path" string when the key is present, "" when it is absent |
| `MeshviewerFfrgbOutput.Register` | output/meshviewer-ffrgb/output.go:28-39 | succeeds exactly when a non-empty path is configured, with an output holding exactly that path; otherwise the error "no path given" and no output |
| `OutputAll.ElementEntry` | output/all/output.go:33-60 | a non-map element is a format error; only an explicit `enable = false` skips; an adapter error is passed on unchanged; an adapter's nil output is skipped; a map filter with errors aborts, without errors it records the built set; a non-map filter records the nil set; no filter entry records nothing |
| `OutputAll.AdapterEntries` | output/all/output.go:24-32 | an adapter without configuration contributes nothing and no error; a configuration that is not a list is a format error |
| `OutputAll.AtMostOnePerElement` | output/all/output.go:33-61 | each configuration element registers at most one output |
| `OutputAll.ElementEntriesErrorStays` | output/all/output.go:33-56 | the first failing element decides the error of the whole adapter |
| `OutputAll.EntriesErrorStays` | output/all/output.go:23-56 | the first failing adapter decides the error of the whole registration |
| `OutputAll.NumberedAppend` | output/all/output.go:57-60 | recording one more output under the next index keeps outputs numbered from 1 and filter entries only where a filter is configured |
| `OutputAll.RegisterElement` | output/all/output.go:34-60 | one element either fails with the element's error, is skipped without using an index, or is recorded under the next index |
| `OutputAll.Register` | output/all/output.go:18-64 | fails with exactly the first error of the walk; otherwise the registered outputs carry the indices 1..n in registration order, and a filter entry exists under an index exactly when that output's configuration has a filter |
| `OutputAll.Save` | output/all/output.go:66-70 | every output is called, in the map's iteration order, with the result of its own index's filter set (the nil set when none is recorded) applied to the nodes |
| `OutputAll.SaveCallsEachOnce` | output/all/output.go:66-70 | when the iteration visits each index once, each registered output is called exactly once, with its own filter set |
| `RespondCollector.LastWantedIsLast` | respond/collector.go:111-125 | the selection yields an address exactly when some interface address is of the wanted kind, and then the last such one |
| `RespondCollector.GetUnicastAddr` | respond/collector.go:101-126 | passes on lookup errors; otherwise returns the last address of the wanted kind (link-local or global unicast), or the error "unable to find a unicast address for <ifname>" |
| `RespondCollector.BindAddress` | respond/collector.go:62-72 | an explicit address is parsed and used; otherwise the interface's unicast address is looked up, a link-local one exactly when no multicast group is configured |
| `RespondCollector.BindAddressLinkLocal` | respond/collector.go:65-71 | without an explicit address or multicast group, the bind address is the last link-local address of the interface, and binding fails when there is none |
| `RespondCollector.GroupAddress` | respond/collector.go:74-77 | the configured multicast group when set, the default otherwise |
| `RespondCollector.MulticastPacketsExact` | respond/collector.go:162-169 | the multicast phase sends exactly one request on each socket that sends requests, to that socket's group, and none on the others |
| `RespondCollector.SelectedExact` | respond/collector.go:172-178 | the unicast phase selects exactly the registry's nodes seen strictly within the ten minutes before the phase's time and having a known address |
| `RespondCollector.NodePacketsExact` | respond/collector.go:184-190 | a selected node gets one request to its IP on every socket whose zone equals its address zone (any socket when that zone is empty) and none on the others |
| `RespondCollector.NoZoneAllSockets` | respond/collector.go:185-189 | a node address without zone is asked on every socket |
| `RespondCollector.UnicastPacketsExact` | respond/collector.go:180-197 | the unicast requests are exactly the (socket, node IP) pairs of selected nodes and zone-matching sockets |
| `RespondCollector.UnicastScenario` | respond/collector.go:172-197 | a node seen five minutes ago with one socket of its zone gets exactly one request; one seen fifteen minutes ago gets none |
| `RespondCollector.CandidateId` | respond/collector.go:257-265 | the candidate ID is the node information's if present, else the neighbours', else the statistics', else "" |
| `RespondCollector.Utf8LenAscii` | respond/collector.go:268 | the byte length of a string is at least its number of characters, and equal to it exactly when every character is ASCII |
| `RespondCollector.Utf8LenAppend` | respond/collector.go:268 | byte lengths add up under concatenation |
| `RespondCollector.Utf8LenUniform` | respond/collector.go:268 | a string whose characters all take w bytes is w times its length in bytes |
| `RespondCollector.ValidNodeIdCountsBytes` | respond/collector.go:268 | the length test counts bytes: six two-byte characters pass, one two-byte character followed by eleven ASCII ones fails, and a 12-character ASCII ID passes |
| `RespondCollector.Sanitize` | respond/collector.go:273-282 | a fragment survives exactly when it is present and its own ID equals the candidate, and survivors are untouched |
| `RespondCollector.SanitizeKeepsSource` | respond/collector.go:258-282 | the fragment that supplied an accepted ID always survives, so the registry never gets an empty record |
| `RespondCollector.HigherPriorityDecides` | respond/collector.go:258-271 | an invalid node information ID rejects the response even if a lower-priority fragment has a valid ID |
| `RespondCollector.SanitizeIdempotent` | respond/collector.go:273-282 | cleaning up twice with the same ID is cleaning up once |
| `RespondCollector.MergedChangesOneEntry` | respond/collector.go:284-286 | after a merge only the accepted ID's registry entry changes, and its address is the sender's |
| `RespondCollector.Collector.constructor` | respond/collector.go:37-45 | a new collector has no connections, interval 0, the given registry and empty logs |
| `RespondCollector.Collector.ListenUdp` | respond/collector.go:60-98 | when no bind address is found, or the socket cannot be opened, it fails with that error and adds no connection; otherwise it appends one connection bound to that address and port, with the zone the open socket reports, sending requests exactly when requests are not suppressed, with the parsed group address |
| `RespondCollector.Collector.Start` | respond/collector.go:129-136 | fails with "already started" if the interval is set, else with "invalid collector interval" if the argument is not positive, leaving the interval unchanged; otherwise sets the interval |
| `RespondCollector.StartOnce` | respond/collector.go:129-136 | a second start after a successful one fails and keeps the first interval |
| `RespondCollector.Collector.SendPacketOn` | respond/collector.go:207-217 | appends one request with the fixed command to the destination, with the socket's zone |
| `RespondCollector.Collector.SendPacket` | respond/collector.go:202-204 | with no socket it fails as the source's index panic does and sends nothing; otherwise it sends one request on the first socket |
| `RespondCollector.Collector.SendMulticast` | respond/collector.go:162-169 | appends exactly the multicast requests of the sending sockets, in socket order |
| `RespondCollector.Collector.SelectUnicast` | respond/collector.go:176-178 | for an iteration order visiting each registry key once, returns the selected nodes in that order, each with an address, and a node is returned exactly when it is in the registry, seen strictly within the window and has an address |
| `RespondCollector.Collector.SendUnicasts` | respond/collector.go:172-199 | for an iteration order visiting each registry key once, appends exactly the unicast requests of the selected nodes and returns their number |
| `RespondCollector.Collector.SendToNodes` | respond/collector.go:180-196 | appends, node by node, one request to the node's IP on each zone-matching socket, and returns how many were sent |
| `RespondCollector.Collector.SaveResponse` | respond/collector.go:256-286 | a candidate ID whose UTF-8 encoding is not exactly 12 bytes long changes nothing; otherwise the registry update is called once with that ID and the cleaned-up record, and the merged node is stored under the ID with the sender as its address |
| `RespondCollector.Collector.HandleDatagram` | respond/collector.go:234-242 | a datagram that does not decode changes nothing; a decoded one is saved as by SaveResponse |

## Left out

- Decompression and JSON decoding of a datagram (`Response.parse`) are a `parse` parameter, because they are library calls.
- Socket I/O is left out: opening, read buffers, receiving, writing and interface lookup. Sends are a log. A failing `ListenUDP` is the `socket` parameter of `ListenUdp`; write errors, which the source only logs, are not modelled. The UDP port constant, the maximum datagram size and the default multicast group are declared in a file that is not part of this model; the group is a parameter.
- Concurrency and timing are left out because they are scheduling, not decisions: goroutines, the 400-entry queue, tickers, the half-interval sleep, the 10 ms spacing between unicasts, `sender`, `sendOnce`, `Close`, the save worker of output/all/internal.go, the registry's locks and the `TestCollector` test.
- The registry internals (`Update`, `Select`, `NodeLinks`, global statistics) are not part of this model. `Update` is a parameter from the stored node and the record to the merged node; its merge semantics, `Firstseen`/`Lastseen`/`Online` handling and the clock are not modelled.
- Database inserts of nodes, links and global statistics, and `runtime.SaveJSON`, are left out because they are output I/O. The adapters' `Save` is left out for the same reason, and so is the meshviewer-ffrgb transform, which is not part of this model.
- The CLI and configuration file loading (cmd/) are left out.
- Wall-clock reads are left out; the timestamp is a parameter.
- `net.ParseIP` and the standard library's `IsGlobalUnicast`/`IsLinkLocalUnicast` are parameters. A malformed address parses to the empty (nil) IP.
- RespondCollector.Collector.SaveResponse: it cleans up a copy of the record rather than nulling the fields of a shared pointer in place. The record is owned by the caller's loop, so no other reader sees the difference.
- RespondCollector.GetUnicastAddr: the source's final `ip != nil` test is modelled as "some address matched". The two differ only if the classification accepted a nil IP, which the standard library's classification never does.
- InArea.Build: bounds are mathematical reals, so NaN and the infinities are not modelled. In the source a NaN bound passes both `>=` checks (output/filter/inarea/inarea.go:41-46) and is accepted.
- InArea.Apply: with a NaN bound every comparison is false, so the source drops every located node (output/filter/inarea/inarea.go:59); the model has no such value.
- Logging is left out because it changes no modelled state: respond/collector.go:163, 192, 198, 215, 237, 269 and output/all/output.go:26.
- Type assertions that panic on a wrongly typed configuration value become preconditions: the `in_area` bounds must be floats, and the adapters' `path` must be a string.
- The `blacklist` and `site` implementation files are not part of this model. Their contracts are the behaviour their tests assert. Their error values carry no message, because the tests check only that an error occurs.
- The data/ package declaring the response fragments is not part of this model. Descriptors that the modelled code only copies are opaque.
- Go's distinction between a nil and an empty slice or map is not modelled, for example an empty node list or an empty domain list.
