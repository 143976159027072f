# Cherry controller: verified model

This project models the parts of the Cherry OpenFlow controller whose correctness is not visible from any
single function, and proves what they promise:

- **The loop-free topology** (`Forests`, `Chains`, `Kruskal`, `Search`, `Graph`, `Links`, `Topology`). The graph
  keeps four cross-linked indices and runs Kruskal's algorithm after every change. In every reachable state the
  indices agree and the enabled edges are a minimum-weight spanning forest, whatever order ties and map iteration
  take. A path query answers the one simple chain of enabled edges, exactly when one exists.
- **Forwarding and flooding** (`Forwarding`, `Flooding`, `Ingress`). Next hops that are computed for each device
  alone compose to the whole path, so a packet is delivered in fewer hops than there are devices. A broadcast
  ends, is handled at most once by each device and, if nothing is denied, is handled by exactly the connected
  devices.
- **The storm limiter** (`Storm`): a bounded list of timestamps decides just as the unbounded history would.
- **Master election** (`Election`): the exact time for which a master is exclusive, over all interleavings.
- **Wire formats** (`Bytes`, `Text`, `Ethernet`, `Lldp`, `Match`, `Framing`, `Checksum`): round trips with the exact
  inputs for which they hold, stream framing across chunks and timeouts, and the Internet checksum.
- **Address allocation** (`Tables`, `Database`): what the triggers and keys keep in every sequence of transactions.
  Registered networks are pairwise disjoint although no code compares ranges (`Databases.AllocationIsSound`).

Objects that the program updates in place are classes; their methods are proved against functions of the old
state, and the lemmas are about those functions. `range` over a Go map is a loop that takes an arbitrary element
of a set. Identifiers, clock readings, the connection's deliveries and the outcomes of database attempts are
parameters. Each method that holds a lock throughout is one step.

Where the code does less than one might expect, the code is kept and the exact condition is proved:

- The 5 second lease makes a master exclusive only for renewals up to 4 seconds and 1 nanosecond old, because
  the `datetime` column keeps whole seconds (`Election.ExclusiveExactly`, with a run that shows the takeover).
  A master is sure to stay master exactly if it renews within that time (`Election.LastingExactly`).
- `Elect` can report an election that was never committed: the verdict of an attempt whose commit met a deadlock
  is not reset before the retry (`Election.ElectWithRetry`, `Election.VerdictCanLeak`).
- An edge added on a point already in use takes over that point, so the older edge is no longer found by it. The
  point index stays complete exactly if neither point was in use (`Graphs.Graph.AddEdge`).
- An OpenFlow message reads back as it was written exactly up to 65527 bytes of payload
  (`Framing.MessageRoundTrip`), and an Ethernet frame exactly if its type is not 0x8100 (`Ethernets.RoundTrip`).
  An IPv4 packet does so only with a header length of 20 bytes, since options are not written but are skipped
  when reading (`Checksums.IPv4RoundTrip`).
- Match fields of one byte (`VLAN_PCP`, `IP_PROTO`) cannot be written at all: the code indexes past its buffer
  and panics (`Matches.Match.MarshalBinary`).

## Model

| member | source | states |
|---|---|---|
| `Forests.Split` | graph/graph.go:343-352 | adding an edge connects exactly what was connected before and what the edge bridges |
| `Forests.AcyclicAdd` | graph/graph.go:343-352 | an edge whose ends are not yet connected can be taken without closing a loop |
| `Forests.CutEdge` | graph/graph.go:316-357 | a forest that connects two vertices which a given set of edges does not has a cut edge outside that set |
| `Forests.Exchange` | graph/graph.go:316-357 | swapping a cut edge for an edge that rejoins the two sides gives a spanning forest again |
| `Forests.PullTowards` | graph/graph.go:265-280 | any spanning forest can be turned, at no extra weight, into one that agrees with the greedy choice on a prefix of the sorted edges |
| `Forests.GreedyIsMinimum` | graph/graph.go:316-357 | the greedy choice over any weight-sorted order is no heavier than any other spanning forest |
| `Kruskal.ChosenConnects` | graph/graph.go:318-357 | the chosen edges connect exactly what the examined edges connect |
| `Kruskal.StopEarly` | graph/graph.go:326-330 | once all edges have connected ends, the edges not examined may be ignored: the early stop loses nothing |
| `Kruskal.Completed` | graph/graph.go:318-357 | a completed run leaves a minimum-weight spanning forest |
| `Graphs.MergeCluster` | graph/graph.go:305-314 | all vertices of the two clusters, and no others, move to one new cluster object |
| `Graphs.MergeFollows` | graph/graph.go:343-352 | merging keeps cluster identity equivalent to connectivity by the enabled edges |
| `Graphs.MergedPartition` | graph/graph.go:305-314 | each vertex stays listed in exactly one cluster |
| `Graphs.Examine` | graph/graph.go:331-355 | one round of the loop keeps the whole loop invariant and enables the edge exactly if it is chosen; both lookups of a cluster succeed |
| `Graphs.Grow` | graph/graph.go:324-356 | the loop with its early stop enables exactly the edges of a minimum-weight spanning forest |
| `Graphs.SortEdges` | graph/graph.go:239-275 | a permutation sorted by weight, equal weights in any order |
| `Graphs.Graph.ResetEdges` | graph/graph.go:265-280 | disables every edge and lists each stored edge once, by weight |
| `Graphs.Graph.MakeClusters` | graph/graph.go:294-303 | a fresh cluster of its own for each vertex |
| `Graphs.Graph.CalculateMST` | graph/graph.go:316-357 | afterwards the enabled edges are a minimum-weight spanning forest of the stored ones |
| `Graphs.EnlistBoth` | graph/graph.go:175-182 | entering an edge at both its vertices keeps each vertex listing exactly the edges at it, self-loops included |
| `Graphs.AgreeWithEdge` | graph/graph.go:175-183 | a new edge entered in all four indices leaves them in agreement |
| `Graphs.AgreeAfterRemoval` | graph/graph.go:118-131 | an edge struck from all four indices leaves them in agreement, whether or not its points were shared |
| `Graphs.AdditionKeepsComplete` | graph/graph.go:175-183 | every edge stays reachable by its points exactly if neither point of the new edge was in use |
| `Graphs.RemovalKeepsComplete` | graph/graph.go:118-131 | removing edges keeps the remaining edges reachable by their points |
| `Graphs.Graph.AddVertex` | graph/graph.go:98-116 | keeps the invariant; a known vertex changes nothing |
| `Graphs.Graph.RemoveEntry` | graph/graph.go:118-131 | drops one edge from all four indices and keeps them in agreement |
| `Graphs.Graph.RemoveVertex` | graph/graph.go:133-150 | removes the vertex and exactly the edges at it, and keeps the invariant |
| `Graphs.Graph.AddEdge` | graph/graph.go:152-188 | adds exactly new edges between known vertices, refreshes only the timestamp of a known one, reports unknown vertices, and keeps the invariant |
| `Graphs.Graph.RemoveEdge` | graph/graph.go:190-201 | removes exactly the edge found at the point, if any, and keeps the invariant |
| `Graphs.Graph.RemoveStaleEdges` | graph/graph.go:462-479 | removes exactly the edges whose age has reached the limit, reports whether there were any, and changes nothing otherwise |
| `Graphs.Graph.PointQueries` | graph/graph.go:203-233 | the two point queries say exactly whether the point is on a stored edge and on an enabled one |
| `Graphs.Expand` | graph/graph.go:413-433 | exploring a vertex reaches every vertex one enabled edge away and queues the new ones |
| `Graphs.Explore` | graph/graph.go:396-434 | the search ends with everything connected to the source reached; it stops early exactly for an unknown source |
| `Graphs.WalkBack` | graph/graph.go:436-446 | following predecessors ends and gives a simple chain from source to destination |
| `Graphs.Reverse` | graph/graph.go:448-460 | the same hops back to front |
| `Graphs.Graph.FindPath` | graph/graph.go:388-446 | the one simple chain of enabled edges; not empty exactly for distinct known vertices that any edges connect |
| `Chains.UniqueChain` | graph/graph.go:388-446 | in a forest two simple chains between the same vertices are equal, so search order cannot matter |
| `Chains.TreePathExists` | graph/graph.go:388-446 | there is a path between distinct vertices exactly if they are connected |
| `Chains.TreePathTail` | graph/graph.go:388-446 | the path from the next vertex is the rest of the path |
| `Chains.ChainLength` | graph/graph.go:388-446 | a simple chain has fewer hops than there are vertices |
| `Search.Enter` | graph/graph.go:413-433 | reaching a new vertex keeps the search invariant |
| `Search.ExploredAll` | graph/graph.go:396-434 | when the queue runs empty all connected vertices have been reached |
| `Text.DecimalRoundTrip` | network/session.go:399-412 | printing a number and parsing it back succeeds exactly within the limit |
| `Text.ParsesNumerals` | network/session.go:399-412 | exactly the non-empty strings of digits up to the limit are parsed, each to its positional value |
| `Links.PortIdInjective` | network/link.go:41-46 | different ports have different identifiers |
| `Links.LinkIdSymmetric` | network/link.go:41-46 | a link is named alike from either end |
| `Links.SameLink` | network/link.go:35-50 | two reports name the same link exactly if they join the same two ports, in either order |
| `Topologies.Topology.DeviceAdded` | network/topology.go:124-136 | registers the device, keeps the invariant and always notifies |
| `Topologies.Topology.DeviceRemoved` | network/topology.go:138-156 | drops the device and exactly the edges at it, keeps the invariant and always notifies |
| `Topologies.Topology.DeviceLinked` | network/topology.go:158-182 | stores exactly new links between known devices and notifies for them; a known link only gets its time refreshed, and without a notice nothing a listener can ask about has changed |
| `Topologies.Topology.PortRemoved` | network/topology.go:210-229 | notifies exactly if the port was on an edge, and then that edge and its two points are gone; without a notice nothing has changed |
| `Topologies.Topology.RemoveStale` | network/topology.go:273-297 | keeps exactly the edges reported within three minutes and notifies exactly if one went; without a notice nothing has changed |
| `Topologies.Topology.SameAnswers` | network/topology.go:124-182 | with the same devices, indices and enabled edges, every path query has the same answer |
| `Topologies.Topology.Path` | network/topology.go:231-262 | the ports of the unique path, empty for unknown devices |
| `Topologies.PortsRoute` | network/topology.go:246-262 | the ports along a path lead from port to port and from device to device, over edges of the forest, none twice |
| `Topologies.Topology.PathIsRoute` | network/topology.go:231-262 | a path exists exactly for distinct known devices that any edges connect, and is such a route of enabled edges |
| `Topologies.Topology.OneEdgePerCable` | network/link.go:41-46 | however a cable is reported, the graph stores it once |
| `Forwarding.NextHopIs` | northbound/app/l2switch/switch.go:321-349 | the computed hop meets the definition of a next hop, which speaks of connections and not of paths |
| `Forwarding.NextHopIsUnique` | northbound/app/l2switch/switch.go:321-349 | in a forest there is only one next hop, so the definition leaves no choice |
| `Forwarding.L2Switch.Egress` | northbound/app/l2switch/switch.go:324-340 | an egress port exactly if the device is the host's own or any edges connect the two; it is the host port there, and elsewhere the end of the enabled edge that leads on to the host |
| `Forwarding.L2Switch.Switching` | northbound/app/l2switch/switch.go:179-217 | sends to the one next hop, and drops the packet if there is none or if it is the port the packet came in at |
| `Forwarding.L2Switch.ProcessPacket` | northbound/app/l2switch/switch.go:143-217 | the verdict in every case of broadcast, location and next hop, and the one rule it installs |
| `Forwarding.L2Switch.ModifyFlows` | northbound/app/l2switch/switch.go:302-350 | exactly the devices that have a way to the destination and accept get their next hop; every other rule stays as it was |
| `Forwarding.UpdateProgramsAll` | northbound/app/l2switch/switch.go:321-349 | if all devices accept, the network is programmed for the address |
| `Forwarding.WiringExists` | network/link.go:48-50 | cables that share no port can be wired up, so the delivery theorem is about real networks |
| `Forwarding.FollowsPath` | northbound/app/l2switch/switch.go:321-349 | rules computed for each device alone take a packet along the whole path |
| `Forwarding.DeliveryOnTree` | northbound/app/l2switch/switch.go:321-349 | delivery along the spanning forest without revisiting a device |
| `Forwarding.Delivery` | northbound/app/l2switch/switch.go:302-350 | from any connected device the packet reaches the destination device in fewer hops than there are devices, revisits none, and leaves by the host port |
| `Forwarding.NeverSentBack` | northbound/app/l2switch/switch.go:196-202 | on the path, the rule against sending a packet back out of its ingress port never applies |
| `Forwarding.HopPortsMatch` | network/topology.go:246-262 | each egress port is on its own device and each ingress port on the next |
| `Flooding.DropKeeps` | network/session.go:478-482 | a copy that the filter drops leaves the invariant intact |
| `Flooding.TakeKeeps` | northbound/app/l2switch/switch.go:63-68 | a device that handles a copy, flooding or not, keeps the invariant |
| `Flooding.OnwardIsNew` | network/device.go:522-550 | a flooded copy travels over a cable not used before to a device no copy has reached |
| `Flooding.RunKeeps` | network/device.go:522-550 | the invariant holds in every state of every run |
| `Flooding.AtMostOnce` | network/session.go:478-489 | in every run each device handles a broadcast at most once, and only connected devices do |
| `Flooding.ExactlyOnce` | northbound/app/l2switch/switch.go:151-155 | a finished run that denies nothing was handled by exactly the connected devices |
| `Flooding.WorkDecreases` | network/device.go:522-550 | every step uses up a bounded amount of work |
| `Flooding.RunIsBounded` | network/device.go:522-550 | no run is longer than a bound given by the size of the network: every flood ends |
| `Ingress.OnPacketIn` | network/session.go:449-490 | probes pass before the spanning-tree filter; other packets are delivered exactly if they do not come in at a disabled edge |
| `Ingress.FitForFlooding` | graph/graph.go:152-233 | a valid graph in which every edge is found by its points is a network in which floods are safe |
| `Ingress.FilterAgrees` | network/session.go:478-482 | the controller's filter is the filter of the flooding model |
| `Ingress.BroadcastOverTopology` | network/session.go:449-490 | the three flooding theorems for the graph that a topology holds |
| `Storm.StoredEntriesDecide` | northbound/app/l2switch/storm_controller.go:62-76 | the stored timestamps alone tell whether fewer than the limit of all earlier floods lie in the last second |
| `Storm.LastOfAppend` | northbound/app/l2switch/storm_controller.go:62-73 | the bounded list stays the last entries of the whole history |
| `Storm.FloodsAreSpaced` | northbound/app/l2switch/storm_controller.go:58-79 | in every run, floods the limit apart are more than a second apart |
| `Storm.RateIsLimited` | northbound/app/l2switch/storm_controller.go:42-79 | no closed second holds more floods than the limit |
| `Storm.DeniedOnlyWhenFull` | northbound/app/l2switch/storm_controller.go:58-79 | a call is denied exactly if the limit is already reached in the second before it |
| `Storm.StormController.Broadcast` | northbound/app/l2switch/storm_controller.go:58-79 | floods exactly if fewer than the limit of earlier floods lie in the closed last second, while storing at most that many |
| `Election.ElectOnce` | database/mysql.go:1421-1463 | elected exactly if there is no row, the row is one's own or it is older than the expiration; then the row is one's own at the whole second of the write, and otherwise unchanged |
| `Election.ApplyKeeps` | database/mysql.go:1421-1463 | each step keeps the link between the row, the lease and the renewals |
| `Election.RunKeeps` | database/mysql.go:1421-1463 | the link holds in every state of every run |
| `Election.SafeWindow` | election/election.go:72-107 | two controllers that show the master flag and renewed at most 4 s + 1 ns ago are the same |
| `Election.TakeoverRun` | database/mysql_schema.sql:24-31 | a run in which two masters renewed within any longer window |
| `Election.ExclusiveExactly` | election/election.go:72-107 | masters are exclusive for a window exactly if it is at most 4 s + 1 ns |
| `Election.OwnerIsElected` | database/mysql.go:1444-1452 | in every run the owner of the lease is elected again whenever it asks, and starts a new lease |
| `Election.StaysMaster` | election/election.go:72-107 | in every run a master that renews at most 4 s + 1 ns before anyone else asks keeps the lease and the flag |
| `Election.LastingExactly` | database/mysql_schema.sql:24-31 | renewing within a window is always enough to stay master exactly if the window is at most 4 s + 1 ns |
| `Election.FlagShowsVerdict` | election/election.go:82-94 | in every run the flag shown after an answer is the verdict of that transaction, so a refused controller is no master |
| `Election.ElectWithRetry` | database/mysql.go:151-185 | the answer is the committed verdict or a leaked one, with errors and the retry limit |
| `Election.VerdictCanLeak` | database/mysql.go:1421-1463 | a concrete answer "elected" although the committed attempt found for another controller |
| `Election.Observer.Run` | election/election.go:72-96 | the flag is the last answer before the first error, after which it stays |
| `Ethernets.Layout` | protocol/ethernet.go:36-53 | the frame byte by byte, with the type in network byte order |
| `Ethernets.Reads` | protocol/ethernet.go:55-73 | what is read from any bytes, tagged or not, and when reading fails |
| `Ethernets.RoundTrip` | protocol/ethernet.go:36-73 | a frame reads back as written exactly if its type is not the VLAN tag |
| `Ethernets.TagIsSkipped` | protocol/ethernet.go:64-70 | a frame with a VLAN tag put in reads as the frame without it |
| `Lldps.Layout` | protocol/lldp.go:45-122 | the unit byte by byte: type and length of each TLV, subtype and data, and the end mark |
| `Lldps.IdReads` | protocol/lldp.go:124-168 | what is read from any identifier TLV, and when reading fails or panics |
| `Lldps.TtlReads` | protocol/lldp.go:170-188 | what is read from any TTL TLV, and when reading fails |
| `Lldps.HeaderRoundTrip` | protocol/lldp.go:45-63 | the 7-bit type and 9-bit length unpack to what was packed |
| `Lldps.IdRoundTrip` | protocol/lldp.go:124-145 | an identifier TLV reads back, whatever follows it |
| `Lldps.RoundTrip` | protocol/lldp.go:97-225 | writing succeeds exactly for identifiers of at most 255 bytes, and reading gives the unit back, whatever padding follows |
| `Lldps.ProbeLayout` | network/session.go:215-246 | the probe byte by byte: multicast address, port address, LLDP type, and the unit with device and port |
| `Lldps.OnlyProbesAreRead` | network/session.go:382-412 | a unit is taken for a probe exactly if its subtypes and its port text fit, and what is then learned from it |
| `Lldps.ProbeRoundTrip` | network/session.go:215-246 | a probe can be built exactly for device identifiers of at most 255 bytes, and the receiver reads the device and port it was sent from, with or without padding |
| `Checksums.AroundCarry` | protocol/checksum.go:28-40 | ends with the residue modulo 65535, zero only for zero |
| `Checksums.SumWords` | protocol/checksum.go:42-52 | the running sum is the word sum modulo 2^32 |
| `Checksums.CalculateChecksum` | protocol/checksum.go:42-55 | the checksum of section 1 of RFC 1071 up to 131074 bytes, and the wrapped sum beyond |
| `Checksums.NoWrapExactly` | protocol/checksum.go:42-52 | the 32-bit sum is wide enough for all inputs of a length exactly up to 131074 bytes |
| `Checksums.InsertedChecksumVerifies` | protocol/checksum.go:42-55 | a message with its checksum inserted sums to zero |
| `Checksums.HeaderLayout` | protocol/ipv4.go:85-104 | every field of the header by its place in section 3.1 of RFC 791 |
| `Checksums.MarshalIPv4` | protocol/ipv4.go:80-112 | fails exactly for addresses that are not IPv4; otherwise the header carries the checksum of section 3.1 of RFC 791 and verifies |
| `Checksums.IPv4RoundTrip` | protocol/ipv4.go:80-140 | a packet reads back exactly if its fields fit their bits and its header length is 20 bytes, or more without a payload |
| `Checksums.EchoLayout` | protocol/icmp.go:61-70 | every field of the echo by its place |
| `Checksums.MarshalEcho` | protocol/icmp.go:61-76 | the echo carries its checksum and verifies, for payloads of even and odd length |
| `Checksums.EchoRoundTrip` | protocol/icmp.go:61-96 | an echo reads back exactly if its type is 8 or 0 |
| `Framing.Layout` | openflow/message.go:72-97 | the message byte by byte for every payload length, with the wrapped length and the panic below 8 |
| `Framing.Decodes` | openflow/message.go:99-114 | what is read from any bytes, and exactly when they are refused |
| `Framing.MessageRoundTrip` | openflow/message.go:72-114 | a message reads back as written exactly up to 65527 bytes of payload |
| `Framing.Message.SetPayload` | openflow/message.go:72-79 | sets the payload and the wrapped 16-bit length |
| `Framing.Message.MarshalBinary` | openflow/message.go:81-97 | the wire form, or the panic when the wrapped length is below 8 |
| `Framing.Message.UnmarshalBinary` | openflow/message.go:99-114 | the message of a well-formed packet; on an error exactly the fields read before it have changed |
| `Framing.Stream.Peek` | openflow/transceiver/stream.go:76-86 | buffers without consuming; a timeout consumes nothing |
| `Framing.Stream.ReadN` | openflow/transceiver/stream.go:88-112 | takes exactly the bytes asked for or nothing; the panic about a short read cannot happen |
| `Framing.Stream.ReadPacket` | openflow/transceiver/transceiver.go:284-300 | the next whole packet, never one larger than the buffer; on any problem nothing is consumed, and a buffer of 65535 bytes is never too small |
| `Framing.Stream.ReadAll` | openflow/transceiver/transceiver.go:226-262 | a stream of message frames in any chunks and with any timeouts yields exactly those packets, in order |
| `Framing.SplitsIntoFrames` | openflow/transceiver/transceiver.go:284-300 | bytes split into whole packets in only one way |
| `Matches.TlvLayout` | openflow/of13/match.go:466-514 | the bytes of each kind of field: class, field, mask bit, length, big-endian numbers, and the address before its mask |
| `Matches.NextTlv` | openflow/of13/match.go:654-731 | one round of the reading loop by the bytes of the header, with all its failures |
| `Matches.FieldBytes` | openflow/of13/match.go:590-652 | the value of each kind of field by its bytes, its shortest length, and the fields that are skipped |
| `Matches.Match.WriteFields` | openflow/of13/match.go:570-577 | the TLVs of all fields in some order, or a failure exactly if a field cannot be written |
| `Matches.Match.MarshalBinary` | openflow/of13/match.go:562-588 | succeeds exactly without a setter error and with writable fields only, and writes length and padding |
| `Matches.Match.UnmarshalTlvs` | openflow/of13/match.go:739-747 | the loop consumes its input, keeps the fields read before an error, and reads what the specification reads |
| `Matches.Match.UnmarshalBinary` | openflow/of13/match.go:734-750 | the header errors, the panic on a length below 4, and the fields read |
| `Matches.ReadsFirst` | openflow/of13/match.go:654-732 | a TLV is understood as what it was written from, and reading goes on right after it |
| `Matches.WireLayout` | openflow/of13/match.go:562-588 | in whatever order fields are written: type 1, a length that excludes padding, the fields, and zeros to a multiple of 8 bytes |
| `Matches.RoundTrip` | openflow/of13/match.go:562-750 | in whatever order the fields are written, reading into an empty match gives every field back |
| `Matches.CanonicalIsSame` | openflow/of13/match.go:619-652 | with 6-byte addresses, 4-byte masks and 16-byte IP addresses the map read back is the very same |
| `Tables.SizeIsPower` | database/mysql.go:523-525 | a network has 2^(32 - mask) addresses |
| `Tables.DisjointWhenUsableAre` | network/controller.go:317-326 | aligned networks share no address exactly if they share no usable one |
| `Tables.BlockFits` | database/mysql.go:517-533 | an aligned block ends within the IPv4 address space |
| `Tables.NetworksAreDisjoint` | database/mysql_schema.sql:104-113 | in every consistent state the registered networks are pairwise disjoint |
| `Tables.UpdateTriggerIsNeutral` | database/mysql_schema.sql:163-166 | an update that keeps the address leaves its mark as it was |
| `Tables.InsertHostKeeps` | database/mysql_schema.sql:148-148 | a host on an unused address keeps the tables consistent |
| `Tables.InsertVipKeeps` | database/mysql_schema.sql:217-217 | a virtual address on an unused address keeps the tables consistent |
| `Tables.InsertVipSucceeds` | database/mysql_schema.sql:195-207 | a virtual address is accepted exactly if its address and hosts exist and its address has no other |
| `Tables.DeleteHostKeeps` | database/mysql_schema.sql:182-182 | removing a host clears the mark of exactly its address |
| `Tables.DeleteVipKeeps` | database/mysql_schema.sql:251-251 | removing a virtual address clears the mark of exactly its address |
| `Tables.UpdateHostKeeps` | database/mysql.go:1355-1375 | a new location changes no address row |
| `Tables.UpdateVipKeeps` | database/mysql.go:1027-1036 | swapping hosts changes no address row |
| `Tables.DeleteNetworkWhenUnused` | database/mysql.go:561-585 | a network can be deleted exactly if none of its addresses is marked used |
| `Tables.DeleteNetworkKeeps` | database/mysql_schema.sql:104-113 | deleting a network and its addresses keeps the tables consistent |
| `Databases.AddressCountIsPower` | database/mysql.go:523-525 | all addresses but two are usable |
| `Databases.InsertAllExtends` | database/mysql.go:517-533 | the insertion loop succeeds exactly if no address of the range is taken, and then adds exactly the range |
| `Databases.StoredWhenDisjoint` | database/mysql.go:483-533 | a network is stored exactly if it is disjoint from every registered one |
| `Databases.StoreNetworkKeeps` | database/mysql.go:483-533 | a stored network brings rows for exactly its usable addresses and keeps the tables consistent |
| `Databases.ExecKeeps` | database/mysql.go:483-1375 | each transaction, committed or rolled back, keeps the tables consistent |
| `Databases.AllocationIsSound` | database/mysql_schema.sql:104-251 | after any sequence of transactions an address is marked used exactly if a host or a virtual address refers to it, never both do, and the registered networks are pairwise disjoint |
| `Databases.Masked` | network/controller.go:367-372 | clearing the bits that the mask drops gives the aligned block that holds the address |
| `Databases.BlockOfPower` | network/controller.go:362-370 | the block starts at a multiple of 2^(32 - mask), has that many addresses, and holds the address |
| `Databases.SameNetwork` | network/controller.go:362-370 | two addresses are in one network exactly if they agree on the bits that the mask keeps |
| `Databases.Database.AddIpAddrs` | database/mysql.go:517-533 | the loop inserts a row for each of the 2^(32 - mask) - 2 usable addresses, or nothing once a row is refused |
| `Databases.Database.AddNetwork` | database/mysql.go:483-533 | commits exactly if the network is disjoint from every registered one, with rows for exactly its 2^(32 - mask) - 2 usable addresses, and otherwise leaves no trace |
| `Databases.Database.HandleAddNetwork` | network/controller.go:349-392 | a bad mask is refused and a registered address answered with a conflict; the network is created exactly if it is disjoint from every registered one |
| `Databases.Database.RemoveNetwork` | database/mysql.go:561-585 | refused exactly if an address of the network is in use |
| `Databases.Database.IsAvailable` | database/mysql.go:768-785 | an error for an unknown address, otherwise whether it is unused |
| `Databases.Database.AddHost` | database/mysql.go:731-766 | succeeds exactly if the address is known and neither a host nor a virtual address refers to it |
| `Databases.Database.RemoveHost` | database/mysql.go:792-816 | refused exactly if a virtual address refers to the host |
| `Databases.Database.AddVip` | database/mysql.go:1168-1207 | succeeds exactly for two different known hosts and a known address that nothing refers to |
| `Databases.Database.RemoveVip` | database/mysql.go:1231-1252 | removes the row if it is there and frees its address |
| `Databases.Database.ToggleVip` | database/mysql.go:818-841 | swaps the two hosts and changes nothing else |
| `Databases.Database.UpdateLocation` | database/mysql.go:1355-1375 | stores the location, tells whether it is new, and changes no address row |

## Left out

- REST handlers beyond the checks above, configuration, logging, e-mail, TCP listening, goroutines and tickers: input and output without a hard property.
- The MySQL driver and the text of the statements: tables are maps of rows, and a violated key aborts the transaction. Identifiers of all tables come from one counter here; only their freshness matters.
- Data races and partial interleavings inside a locked method: each locked method is one step. The check for a device that is already connected and its later registration are not one step, so nothing is claimed about one session per device.
- nil arguments, which the graph answers with a panic, and weights that are not numbers: weights are real numbers here.
- The whole device object: a device is known by its identifier, and the ports it has are a parameter of the flooding model.
- Failures to install a flow or to send a packet while processing one packet; `ModifyFlows` does model refused rules.
- Flow removal on topology changes and port failures, the flow cache and its library.
- The device lookup in `topology.Node`: the location of a destination is a parameter.
- Host updates that reset locations, virtual address toggles for a whole port or device, and the port table that a location refers to.
- Addresses that are not IPv4 in a network request, which the database refuses.
- Retries of the address transactions after a deadlock: each is one atomic step. `Election.ElectWithRetry` models the retry loop.
- Echo requests and replies in the reader loop: they are packets like any others in `Framing.Stream.ReadAll`.
- The setters and getters of a match: a match starts from any map of well-typed fields, with or without a setter error.
- TCP, UDP and ARP formats, OpenFlow 1.0 and the fixed-layout messages: field copies without a hard property.
- What the LLDP parser does with a whole malformed unit; each TLV is covered for all bytes by `Lldps.IdReads` and `Lldps.TtlReads`. A slice that ends at its capacity is taken to panic where its length is exceeded.
- Matches.CanonicalIsSame: does not cover 4-byte IP addresses, because they come back in 16-byte form; `Matches.RoundTrip` says what they come back as.
- Election.SafeWindow: assumes one clock for all controllers and the database, and a committed transaction as one step.
- Forwarding.Delivery: assumes a fixed graph and that every device with a way to the destination holds the rule computed for it.
- Ingress.BroadcastOverTopology: assumes that every cable between switches is stored, that no two edges share a port, and that the graph does not change during the flood.
