# Verification model of the SDN controller

This project models the decision logic of an OpenFlow 1.0 controller written in Python and proves what it keeps over whole
runs. `dafny verify dfyconfig.toml` checks everything. Four parts, each with its own modules:

* **Shortest-path switching** (`Graph`, `Routing`, `RoutingAll`, `BellmanFord`, `Paths`, `LinkWeights`, `Topology`,
  `TopologySteps`, `TopologyEffects`, `ControllerApp`, `Delivery`, `PacketDelivery`): the lazy-deletion Dijkstra, the
  all-predecessors Dijkstra and the Bellman-Ford against distances defined over walks; path and next-hop extraction; the
  topology state machine; and the theorem that the separately computed next hops of all switches compose into one
  shortest, loop-free route, also through the firewall and capture entries of the same tables.
* **NAT** (`Checksum`, `NatPacket`, `NatRewriting`, `NatTable`, `NatRuns`, `NatLifetimes`, `NatExchange`): the two
  connection maps, the port allocator, the TCP states and the lifetimes of connections over every run, the in-place
  rewriting of frames, checksums against RFC 1071, RFC 768 and RFC 793, and the round trip of a translated TCP or UDP
  packet or ICMP echo.
* **DHCP with DNS registration** (`DnsRecords`, `Dhcp`, `DhcpRuns`, `DhcpProbing`, `DhcpReplies`, `DhcpSharing`,
  `DhcpCompleteness`, `DhcpNames`, `DhcpUniqueness`, `DhcpGuards`, `DhcpPool`, `DhcpServer`): leases as a state machine
  whose handlers are suspended inside the ARP probe, in every interleaving, and exactly which runs let two clients share
  an address.
* **Wire formats and compilation** (`DnsWire`, `DnsResponse`, `DnsFrames`, `OpenFlow`, `Firewall`, `FlowTables`): domain
  names against section 4.1.4 of RFC 1035, the response round trip, the two firewall compilers, and the fate of a packet
  in the whole flow table (sections 3.4, 4.6, 5.2.1 and 5.2.3 of the OpenFlow Switch Specification 1.0.0).

`Wrappers` and `Bytes` hold what the parts share.

How the source's state is rendered: a class whose methods update its fields is a Dafny class (`ControllerApp`, `NATTable`,
`DHCPServer`, `DNSServer`, `Firewall`), its dictionaries and lists fields of type `map`, `set` or `seq`; a `bytearray` is an
array; a Python loop is a loop. A method is proved equal to a step or specification function or relation, and the theorems are
about that. A dictionary is visited in an arbitrary order, and only Bellman-Ford's choice among equal routes depends on it:
there the order is a parameter (`Order`), the same for calls in the same state. The heap is a multiset whose least pair is
popped. Text is its UTF-8 form. The clock is a parameter of every step. Assumptions are preconditions: link weights are
integers of at least 1, link and probe events name connected switches (host events need not), switch features and
`EventSwitchEnter` are one step, frames are at most 65535 bytes, addresses compare as numbers.

Where a promised property is false of the code, the code is kept, and the project states exactly when it holds, with inputs
for which it fails:

| property | holds exactly when | fails for instance |
|---|---|---|
| no two clients share an address | `StepKeepsUniqueIff`, `RunNeverSharesIff`; among the guards of `SerialRunsNeverShare`, `SafeIffAllGuards` | `OfferedLeasesAreIgnored`, `ExpiredLeasesAreRenewed`, `OverlappingHandlersShare`: for each guard a run from the empty server that meets the two others |
| `ip_to_mac` names every lease's holder | `StepKeepsCompleteIff`, `RunStaysCompleteIff` | `ReleaseDropsOthersEntry`, `GrantOverwritesOthersEntry` |
| the NAT maps are mutually inverse, and a connection is found by its port | `StepKeepsInverseIff`, `RunStaysInverseIff`, `StepKeepsOwnsIff` | `IcmpIdentifierShadowsPort`, `ShadowedIsLost` |
| rewritten frames have valid checksums | `OutboundVerifiesIff`, `InboundVerifiesIff` | `ZeroPaddingHarmlessIff`: TCP padded with zeros |
| the name decoder ends | `DecoderEndsIff` | `SelfPointerNeverEnds` |
| names are read back | `DecoderMeetsRfc`, `EncodeDecodeIff`, `DecodedTextIffDotFree` | any name that is not ASCII, any label with a dot |
| a TCP connection that has closed stays closing | `RunClosingIff` | `SynAckReopens` |
| replies are addressed to the host that sent the packet | `DeliveredToSenderIff` | any frame addressed to the gateway |
| answers are owned by the name they answer | `AnswersAreOwnedByFirst` | two questions with different names |
| every A record has its PTR record | `AddedKeepsNamedIff`, `StepKeepsNamedIff`, `RunStaysNamedIff` | `RenamedClientKeepsOldName` |
| firewall matches mean their rule | `ControllerExactIff`, `FirewallExactIff`, `CompilersAgreeIff`, `PaddingMattersIff` | `ControllerCounterexample`, `FirewallCounterexample`, `PaddedNameMeansAnyProtocol` |
| hosts are attached to connected switches | `StepKeepsAttachedIff`, `RunStaysAttachedIff` | any host event that names an unconnected switch |

## Model

| member | source | states |
|---|---|---|
| Graph.Net.Delta | controller.py:133-149 | the reference distance: the least cost over all walks, infinite exactly when there is none |
| Graph.DistUnique | controller.py:133-149 | that distance is unique, so any two correct algorithms agree |
| Graph.CutCycles | controller.py:171-190 | every walk can be cut to one that repeats no switch and costs no more |
| Graph.CertificateIsShortest | controller.py:133-190 | distances that no edge can improve and that actual walks attain are the shortest distances |
| LinkWeights.LoadWeights | controller.py:62-73 | the loop enters each configured weight under its sorted pair of switches |
| LinkWeights.WeightIsConfigured | controller.py:70-131 | a link weighs what the last entry about its two switches says, whichever way either names them |
| LinkWeights.UnconfiguredWeighsOne | controller.py:128-131 | a link that no entry is about weighs 1 |
| LinkWeights.WeightIsSymmetric | controller.py:128-131 | a link weighs the same in both directions |
| LinkWeights.LinkCosts | controller.py:128-131 | the walk of one link costs its weight, either way |
| LinkWeights.ReversedWalk | controller.py:128-131 | a walk costs the same backwards |
| LinkWeights.DistanceIsSymmetric | controller.py:128-190 | over the rebuilt adjacency the distance there is the distance back |
| Routing.HeapPop | controller.py:138-139 | the heap gives up a least pair and nothing else |
| Routing.PopCurrent | controller.py:139-141 | a pair popped at its recorded distance belongs to a switch not settled before, and settling it keeps the queue invariant |
| Routing.PopStale | controller.py:140-141 | skipping a stale pair keeps the queue invariant |
| Routing.RelaxBetter | controller.py:142-148 | an improving relaxation keeps the queue invariant and never touches a settled switch |
| Routing.ScanNeighbours | controller.py:142-148 | relaxing all edges of the popped switch leaves all its edges relaxed and the predecessor tree tight |
| Routing.Dijkstra | controller.py:133-149 | terminates; every distance is the shortest, every predecessor edge is tight, only the source and unreachable switches have no predecessor, and among the tight predecessors of a switch the first in (distance, number) order is recorded |
| Routing.FirstTreeIsUnique | controller.py:139-148 | that choice leaves one result, so neither the order of the dictionaries nor the heap matters |
| Routing.TreePathIsWalk | controller.py:133-149 | the path the predecessors spell is a walk from the source whose cost is the distance |
| Routing.TreePathIsSimple | controller.py:133-149 | that path visits no switch twice and distances never exceed the end's |
| RoutingAll.ScanAllNeighbours | controller.py:160-168 | one scan lists, each once, exactly the tight predecessors among the edges scanned so far |
| RoutingAll.DijkstraAll | controller.py:151-169 | distances are shortest, and each switch lists exactly the switches u with dist[u] + w(u,v) = dist[v], each once |
| RoutingAll.ShortestIsBackward | controller.py:151-169 | every shortest walk can be read backwards through the lists |
| RoutingAll.BackwardIsShortest | controller.py:151-169 | every backward walk through the lists is a shortest walk |
| RoutingAll.BackwardWalksAreShortest | controller.py:151-169 | a walk read backwards through the lists is possible if and only if it is a shortest walk from the source |
| BellmanFord.RelaxSwitch | controller.py:178-187 | in-place relaxation of one switch, neighbour by neighbour in dictionary order, keeps attained distances attained and only lowers them |
| BellmanFord.Round | controller.py:176-187 | one round relaxes every edge at least as far as the distances it started from, and reports no update only if nothing changed |
| BellmanFord.RoundBounds | controller.py:176-187 | each round extends the bound to walks one edge longer |
| BellmanFord.EnoughRounds | controller.py:175-176 | n-1 rounds decide every distance |
| BellmanFord.QuietIsShortest | controller.py:188-189 | stopping after a round without updates is sound |
| BellmanFord.QuietStays | controller.py:188-189 | after a quiet round further rounds change nothing, so leaving early gives the result of all n-1 rounds |
| BellmanFord.SlackVanishes | controller.py:184-186 | predecessors set along the way end up tight, so they form a tree |
| BellmanFord.BellmanFord | controller.py:171-190 | same promise as Dijkstra on every graph with positive weights; the result is that of all n-1 rounds in dictionary order |
| BellmanFord.AlgorithmsAgree | controller.py:133-190 | both algorithms return the same distances, and both trees spell repetition-free paths of that cost |
| Paths.PredecessorIffReachable | controller.py:200-201 | a destination has a predecessor if and only if it can be reached |
| Paths.RunAlgorithm | controller.py:195-198 | the configured algorithm, either of them, returns a shortest tree |
| Paths.TreeOfIsUnique | controller.py:195-198 | running it again on the same state gives the same distances and predecessors |
| Paths.GetNextHop | controller.py:192-208 | a port if and only if the destination is reachable, and then the port towards the second switch of the tree path, on a shortest route |
| Paths.BuildPath | controller.py:325-343 | None if and only if unreachable, otherwise the interior of a repetition-free walk of least cost |
| Paths.NextHopFollowsPath | controller.py:192-208 | although each call runs the algorithm anew, the next hop is the port towards the first switch of the built path |
| Paths.HopAndPath | controller.py:192-343 | asked for the same pair in the same state, both routines find a route or neither does, and they agree about its first step |
| Paths.ShortestWalkStartsWithNextHop | controller.py:192-208 | the first step of any shortest walk is a valid next hop |
| Topology.RebuildIsLastPort | controller.py:460-468 | the rebuilt adjacency holds, for each pair, the port of the last link record that joins it |
| Topology.LastPortComesFromLink | controller.py:460-468 | such a port exists if and only if some link joins the pair, and is that link's port |
| Topology.AdjacencyIsSymmetricClosure | controller.py:460-468 | the adjacency is symmetric and relates exactly the pairs that a link joins |
| Topology.RebuiltNetIsValid | controller.py:460-468 | after a rebuild every edge joins connected switches |
| Topology.InNetworkIff | nat.py:50-54 | the mask test compares exactly the leading bits that the prefix counts |
| Topology.SkippedIffNotServed | controller.py:361-375 | the test skips a host if and only if it is not inside the DHCP network, not the NAT address, and some other host is inside |
| Topology.InsideIffAgrees | controller.py:346-352 | with an ordinary netmask, inside means to agree with the start address on as many leading bits as the mask has ones |
| Topology.SetHostFlowsEffect | controller.py:384-411 | the two entries sent for a host are held afterwards, and nothing else changes or disappears |
| Topology.OthersStayCurrent | controller.py:384-411 | writing one (switch, host) pair leaves every other pair's entries current |
| TopologySteps.KeepPicks | controller.py:648-650 | the list comprehensions keep exactly the records that do not satisfy the condition, each occurrence once and in order |
| TopologySteps.FirstBetween | controller.py:775-790 | the probe branch updates the first link between the two switches, in either direction |
| TopologySteps.StepKeepsAttachedIff | controller.py:583-713 | an event keeps every host on a connected switch if and only if it registers no host on an unconnected one |
| TopologySteps.RunStaysAttachedIff | controller.py:583-713 | every state of a run has its hosts on connected switches if and only if every registration in it names a switch connected at that time |
| ControllerApp.ControllerApp.constructor | controller.py:41-60 | a fresh controller satisfies the invariant, has the configured weights, and knows no switch, link or host, only the two gateway addresses |
| ControllerApp.ControllerApp.UpdateTopology | controller.py:460-468 | the loop computes the adjacency specified by the links |
| ControllerApp.ControllerApp.InstallOneHost | controller.py:374-413 | every switch gets the current entry for one host, other hosts' entries stay as they were |
| ControllerApp.ControllerApp.InstallHostFlows | controller.py:354-413 | afterwards every host inside the DHCP network and the NAT address, and every host if none is inside, has a current entry on each switch it can be reached from, on a shortest route; as long as some host is inside, the entries of all other hosts are as before |
| ControllerApp.ControllerApp.Reinstall | controller.py:354-413 | recomputing the entries makes those of the hosts to be served current and restores the invariant; only such entries, on connected switches, differ |
| ControllerApp.ControllerApp.HandleSwitchAdd | controller.py:583-588 | the switch is connected, holding its table; nothing else changes but entries, which are current again |
| ControllerApp.ControllerApp.RemoveHosts | controller.py:598-607 | exactly the given hosts and their address entries go |
| ControllerApp.ControllerApp.HandleSwitchDelete | controller.py:591-610 | exactly the switch, its links, its hosts, their addresses and ports go, and the entries are current again |
| ControllerApp.ControllerApp.HandleHostAdd | controller.py:612-631 | a complete host event, from any switch, enters the host tables; an incomplete one changes nothing |
| ControllerApp.ControllerApp.RegisterArpHost | controller.py:511-524 | a new or moved host, on any switch, is registered; the early returns change nothing |
| ControllerApp.ControllerApp.RegisterHost | controller.py:620-631 | the host tables take the new entry, flow entries are current again |
| ControllerApp.ControllerApp.ReplaceLinks | controller.py:641-643 | replacing the links, rebuilding and reinstalling restores the invariant |
| ControllerApp.ControllerApp.HandleLinkAdd | controller.py:633-643 | the link is appended, nothing else changes but entries, which are current again |
| ControllerApp.ControllerApp.HandleLinkDelete | controller.py:645-652 | exactly the records in that direction go, order kept |
| ControllerApp.ControllerApp.RemovePort | controller.py:663-674 | exactly the links and hosts on that port go, with their addresses and the port |
| ControllerApp.ControllerApp.HandlePortModify | controller.py:654-677 | a port that goes down is removed; one that comes up changes nothing at all |
| ControllerApp.ControllerApp.HandlePortStatus | controller.py:679-713 | a link-down report drops links only, a deleted port drops its hosts too, anything else changes nothing at all |
| ControllerApp.ControllerApp.HandleProbe | controller.py:765-809 | the first matching record takes the observed ports or a record is appended; entries are recomputed only if something changed |
| ControllerApp.ControllerApp.Dispatch | controller.py:583-713 | every handler takes exactly the step of its event and keeps the invariant: adjacency rebuilt from links, links between connected switches, entries current |
| ControllerApp.Run | controller.py:583-809 | any run takes one step per event from the initial state, and every state on the way is sound; it stops only at a link or probe that names an unconnected switch |
| TopologyEffects.SoundServes | controller.py:361-413 | in every state of every run hosts inside the DHCP network and the NAT address have current entries, and all hosts if none is inside |
| TopologyEffects.OutsidersKeepEntries | controller.py:370-382 | as long as some host is inside, no event touches the entries of an outside host, except that a switch arrives with its own |
| TopologyEffects.EnteredIsConnected | controller.py:583-589 | a switch that enters is connected, and nothing else changes but entries |
| TopologyEffects.LeftIsForgotten | controller.py:591-610 | of a switch that left no link, host, address or port is known, and everything else is kept |
| TopologyEffects.SeenHostIsKnown | controller.py:511-524 | after a complete host event, or an ARP that is not the controller's own, the host is known on the switch where it was seen, and no other host or address changed |
| TopologyEffects.IncompleteHostChangesNothing | controller.py:612-631 | a host event that lacks a part changes nothing |
| TopologyEffects.KnownArpChangesNothing | controller.py:511-519 | an ARP that is incomplete, the controller's own, or from a host known on that switch changes nothing |
| TopologyEffects.AddedLinkIsCurrent | controller.py:633-643 | an added link is the current one between its switches, with the ports it came with |
| TopologyEffects.DeletedLinkIsGone | controller.py:645-652 | no record in the direction of a deleted link is left, and all others are |
| TopologyEffects.LostPortIsUnused | controller.py:654-713 | after a port is gone no link uses it at either end and, unless it was only reported down, no host is attached to it; every other link and host is kept; a port that comes up changes nothing |
| TopologyEffects.ProbedPairIsRecorded | controller.py:775-805 | after a probe some record joins its two switches with the ports it saw; a record is added if and only if the pair had none |
| Delivery.AdjacencyIsWired | controller.py:460-468 | when link records reflect real cables, the recorded port leads to the recorded neighbour, and the cable leads back |
| Delivery.HopGetsCloser | controller.py:192-208 | an installed entry hands the packet to a neighbour that is strictly closer to the host |
| Delivery.EntriesDeliver | controller.py:354-413 | following the entries from any connected switch reaches the host's port along a shortest path that repeats no switch, whatever stale entries remain |
| Delivery.EntriesReachHosts | controller.py:354-413 | the same in every state between handlers, for every host to be served, for IP and ARP |
| PacketDelivery.ExemptAtAnyPort | controller.py:415-458 | neither captures nor deny rules look at the port a packet arrives on |
| PacketDelivery.HostEntryDecides | controller.py:388-411 | a packet that no capture and no deny rule accepts is handled by its host entry if there is one, otherwise it goes to the controller at most |
| PacketDelivery.NeverTurnsBack | controller.py:384-411 | no switch on the way sends a packet out of the port it came in by, which a switch would not do: the next entry leads elsewhere |
| PacketDelivery.TravelsAsTraced | controller.py:384-573 | over the whole tables an exempt packet that its first switch need not send back takes exactly the route of the host entries, and leaves at the host's port |
| PacketDelivery.PacketsReachHosts | controller.py:354-573 | in every state between handlers, whatever probe, firewall, DNS and NAT entries the switches hold: an IP or ARP packet for a host to be served, which is no DNS, not for the NAT address and accepted by no installed deny rule, leaves through the host's port after a shortest path that repeats no switch, if and only if it did not come in by the port its first switch would send it out of |
| PacketDelivery.PacketsFromHostsReachHosts | controller.py:354-573 | so every such packet that comes in by another host's port is delivered |
| Delivery.ProbeRepairsLinks | controller.py:775-800 | a probe that crossed a real cable leaves records of real cables only, even if its pair's first record was stale |
| Checksum.SumWords | nat.py:57-62 | the loop computes the sum of the big-endian words, odd data padded with zero |
| Checksum.ComputeChecksum | nat.py:57-65 | the result is the complement of the twice-folded sum |
| Checksum.OnesSumIsResidue | nat.py:57-65 | the one's-complement sum of RFC 1071, defined with end-around carry, depends only on the word sum |
| Checksum.TwoFoldsSuffice | nat.py:63-65 | two folds are enough for every sum below 2^32 + 0xFFFF, so for every sum below 2^32 |
| Checksum.ThirdFoldNeeded | nat.py:63-65 | a remark on that bound: at exactly 2^32 + 0xFFFF two folds are not enough; no frame is that long |
| Checksum.ChecksumIsRfc1071 | dns_server.py:194-203 | the checksum is the complement of the RFC 1071 sum for all data whose word sum is below 2^32 + 0xFFFF |
| Checksum.WordSumBound | nat.py:57-62 | data of up to 128 KiB, so every frame with its pseudo-header, is far below that |
| Checksum.FilledChecksumVerifies | nat.py:199-205 | zeroing a checksum field and filling in the checksum makes the whole, with its pseudo-header, sum to 0xFFFF |
| Checksum.FilledRegionVerifies | nat.py:199-205 | the same for a field inside a region of a frame |
| NatPacket.ParseEthIp | nat.py:68-93 | a parsed header lies inside the frame and has 20 to 60 bytes |
| NatPacket.ParseReadsFields | nat.py:68-93 | a frame laid out as section 3.1 of RFC 791 says is parsed to exactly its fields, or refused if its header is too short or cut off |
| NatPacket.OnlyIpv4IsParsed | nat.py:70-74 | a frame that is not IPv4, or too short for its header, is ignored |
| NatPacket.FixIpInPlace | nat.py:199-205 | the in-place IP checksum update equals its byte-level specification |
| NatPacket.FixTcpInPlace | nat.py:209-228 | the in-place TCP update equals its byte-level specification |
| NatPacket.FixUdpInPlace | nat.py:230-245 | the in-place UDP update equals its byte-level specification |
| NatPacket.FixIcmpInPlace | nat.py:246-253 | the in-place ICMP update equals its byte-level specification |
| NatPacket.RewriteOutbound | nat.py:178-253 | the bytearray updates equal the specified outbound frame, None where Python raises, and the tracked TCP state |
| NatPacket.RewriteInbound | nat.py:255-328 | the same for the inbound frame |
| NatRewriting.FixIpVerifies | nat.py:199-205 | the rewritten IP header sums to 0xFFFF and only its checksum changed |
| NatRewriting.FixTcpSums | nat.py:217-224 | whatever the frame holds, all that follows the IP header, padding included, sums to 0xFFFF under the pseudo-header addresses that were used |
| NatRewriting.FixUdpSums | nat.py:234-245 | the datagram, without padding, sums to 0xFFFF under the pseudo-header addresses that were used |
| NatRewriting.FixIcmpSums | nat.py:246-253 | all that follows the IP header, padding included, sums to 0xFFFF |
| NatRewriting.FixTcpVerifiesIff | nat.py:209-228 | the receiver, who leaves the padding out, accepts the segment if and only if the address used, the padding and its length sum like the address carried |
| NatRewriting.FixUdpVerifiesIff | nat.py:230-245 | the datagram keeps its length, its checksum is never 0, and it verifies, whatever the padding, if and only if the address used sums like the one carried |
| NatRewriting.FixIcmpVerifiesIff | nat.py:246-253 | the message verifies if and only if the padding sums to 0, or to a multiple of 0xFFFF under a message that is not all zero |
| NatRewriting.FixL4Changes | nat.py:207-253 | only the port and checksum fields change, and the port is the given one |
| NatRewriting.OutboundFields | nat.py:178-253 | same length; every byte outside MACs, source address, source port and checksums is kept; the source is the NAT endpoint; the IP header verifies |
| NatRewriting.OutboundVerifiesIff | nat.py:178-253 | the receiver of a rewritten frame accepts its transport checksum if and only if the padding is harmless: for TCP its sum and length add up to 0 modulo 0xFFFF, for UDP always, for ICMP as above |
| NatRewriting.ZeroPaddingHarmlessIff | nat.py:217-222 | padding of zeros, as Ethernet adds it to short frames, is harmless if and only if the frame is not TCP or has none |
| NatRewriting.InboundFields | nat.py:255-328 | same length; every byte outside MACs, destination address, destination port and checksums is kept; the destination is the internal endpoint |
| NatRewriting.OutboundMacs | nat.py:186-193 | what goes out comes from the controller's address and goes to the given one or, without one, where it was going |
| NatRewriting.InboundMacs | nat.py:263-269 | what comes in goes to the address kept with its connection, and keeps its sender |
| NatRewriting.RewrittenIffLongEnough | nat.py:207-253 | a frame is rewritten, in either direction, if and only if it reaches to the end of the fields that are rewritten |
| NatRewriting.InboundVerifiesIff | nat.py:287-318 | a frame from any address, padded in any way, is accepted if and only if its source address sums like the peer's modulo 0xFFFF (TCP and UDP) and its padding is harmless (TCP and ICMP) |
| NatRewriting.PeerReplyVerifiesIff | nat.py:255-328 | a reply from the connection's peer is accepted if and only if its padding is harmless |
| NatRewriting.PaddingKept | nat.py:178-328 | rewriting a TCP or UDP frame leaves its padding as harmless as it was |
| NatRewriting.RewrittenParses | nat.py:68-93 | a rewritten frame parses to the old header with the one address replaced |
| NatTable.CreateKeepsInverseIffFresh | nat.py:117-140 | a new connection keeps the two maps mutually inverse if and only if its port was free |
| NatTable.CreateKeepsConsistent | nat.py:117-140 | a new connection, whatever its port, keeps every indexed port on a live connection with that port |
| NatTable.NATTable.constructor | nat.py:96-99 | empty maps, first port 1024 |
| NatTable.CollectKeeps | nat.py:541-561 | collecting keeps both the consistency and the inverse property |
| NatTable.NATTable.AllocPort | nat.py:101-108 | terminates when some port is free; returns the first free one in cyclic order and stays in 1024..65534 |
| NatTable.NATTable.CreateEntry | nat.py:117-140 | the entry enters both maps under its key and port, with the allocated or given port |
| NatTable.NATTable.LookupInbound | nat.py:150-158 | returns and touches the live connection with that port, protocol and NAT address, or changes nothing |
| NatTable.NATTable.FindOrCreate | nat.py:355-367 | an existing connection is touched; a new one gets a fresh port, or its ICMP identifier |
| NatTable.NATTable.Translate | nat.py:355-370 | the frame is rewritten for its own connection, whose TCP state is updated |
| NatTable.NATTable.HandleOutbound | nat.py:333-370 | ignored frames change nothing; others are sent as specified on the connection of their key; without ICMP the maps stay inverse |
| NatTable.NATTable.HandleInbound | nat.py:372-402 | delivers the rewritten frame of the connection found, or changes nothing |
| NatTable.NATTable.Deliver | nat.py:396-402 | the frame is rewritten for the connection found, whose TCP state is updated |
| NatTable.NATTable.PopAll | nat.py:554-557 | each key and its port are popped |
| NatTable.NATTable.Collect | nat.py:541-561 | a connection survives a sweep if and only if it was last seen at most 30 s before when it is closing, and otherwise at most the TCP, UDP or ICMP timeout of its protocol; what survives is unchanged, exactly the ports of the others go, and the invariants hold |
| NatRuns.StepKeepsInverseIff | nat.py:333-402 | an event keeps the two maps mutually inverse if and only if it makes no ICMP connection on a port that is taken |
| NatRuns.RunStaysInverseIff | nat.py:333-402 | the maps are mutually inverse in every state of a run if and only if no event of the run makes an ICMP connection on a port that is taken |
| NatRuns.RunKeepsIdentifiers | nat.py:363-367 | in every state of every run an ICMP connection holds its echo identifier as its port |
| NatRuns.Run | nat.py:333-402 | any run takes one step per event from empty tables; every state keeps each indexed port on a live connection with that port; without ICMP the maps stay mutually inverse; a run stops early only when a new port is needed and none is free |
| NatRuns.InboundIsSound | nat.py:150-158 | an inbound frame is only given a live connection with its port, protocol and address, ICMP included |
| NatRuns.IcmpIdentifierShadowsPort | nat.py:363-367 | an echo identifier equal to an allocated port makes that port's connection unreachable |
| NatRuns.Step | nat.py:333-402 | one outbound frame, inbound frame or sweep takes the step of its event, keeps the invariants, and without ICMP keeps the maps inverse |
| NatRuns.StepCarries | nat.py:333-561 | every connection is carried over by any event, except those a sweep finds timed out |
| NatLifetimes.RunLastSeen | nat.py:143-158 | in every state of every run a connection was last seen when a frame last used it, in either direction |
| NatLifetimes.FlagsDecide | nat.py:161-176 | how the flags of a frame move the state: FIN or RST closes, SYN with ACK establishes, ACK establishes a new connection, anything else keeps it |
| NatLifetimes.HandshakeEstablishes | nat.py:161-176 | SYN, SYN with ACK, ACK: new after the first, established from the second on |
| NatLifetimes.RunClosingIff | nat.py:161-176 | in every state of every run a TCP connection is closing if and only if a FIN or RST has passed on it and no SYN with ACK since |
| NatLifetimes.SynAckReopens | nat.py:172-173 | so closing is not for good: a late SYN with ACK makes the connection count as established again |
| NatLifetimes.SweepKeepsIff | nat.py:541-561 | a sweep of any run keeps a connection if and only if its last use is at most 30 s ago when it is closing, and otherwise at most the timeout of its protocol |
| NatLifetimes.RunStaysAtNatAddress | nat.py:363-367 | in every state of every run every connection is at the external address |
| NatLifetimes.RunKeepsMac | nat.py:84-93 | the hardware address kept with a connection is the first one of the frame that made it |
| NatLifetimes.DeliveredToSenderIff | nat.py:84-269 | in Ethernet that is the destination: what is delivered is addressed to the host that made the connection if and only if that host's frame was addressed to itself |
| NatLifetimes.OtherProtocols | nat.py:111-115 | all other protocols share one connection, on which nothing comes back |
| NatLifetimes.OtherIcmp | nat.py:345-353 | ICMP messages other than echoes share the identifier 0 |
| NatExchange.StepKeepsOwnsIff | nat.py:333-561 | a connection that has its port to itself, and is not timed out, keeps it so through any event if and only if the event makes no ICMP connection with that port as identifier |
| NatExchange.ShadowedIsLost | nat.py:150-158 | after such an ICMP connection, what comes in for the port is not given to the old one |
| NatExchange.OutboundTranslates | nat.py:178-253 | a translated TCP or UDP frame or ICMP echo goes from the NAT endpoint to the same destination and passes every check; an echo keeps its identifier |
| NatExchange.InboundTranslates | nat.py:255-328 | a delivered frame or echo goes from the same source to the internal endpoint and passes every check |
| NatExchange.SendOut | nat.py:333-370 | a complete TCP, UDP or ICMP echo frame with harmless padding, any at all for UDP, is always sent, verified, on a live connection between its own endpoints, from the external address |
| NatExchange.ReceiveReply | nat.py:372-402 | a reply on a live connection that has its port to itself is always delivered to the original sender, verified |
| NatExchange.ReplyComesBack | nat.py:372-402 | a reply to the allocated endpoint, or with the echo's identifier, finds the connection and is rewritten to the original source |
| NatExchange.StepServes | nat.py:541-561 | a connection used within the last half minute still serves its endpoints after any event |
| NatExchange.Exchange | nat.py:333-402 | round trip over a run, for TCP, UDP and ICMP echo frames with harmless padding: whatever traffic and sweeps happen within half a minute in between, the peer's reply to the translated packet reaches the original address and port, checksums valid; only an ICMP connection with the packet's NAT port as identifier prevents it, or an allocation that never returns because no port is free |
| DnsRecords.AddedKeeps | dns_server.py:38-46 | registering keeps every PTR record confirmed by its A record and sets both for the new pair |
| DnsRecords.AddressRemovedKeeps | dns_server.py:48-57 | removing an address removes its name and keeps the rest confirmed |
| DnsRecords.HostRemovedKeeps | dns_server.py:48-52 | removing a name keeps the rest confirmed |
| DnsRecords.AddThenRemove | dns_server.py:38-57 | removing a freshly registered address restores both tables |
| DnsRecords.AddedKeepsNamedIff | dns_server.py:42-46 | one registration keeps a PTR record for every A record if and only if the address had no other name |
| DnsRecords.AddressRemovedKeepsNamed | dns_server.py:53-57 | removing an address keeps a PTR record for every remaining A record |
| DnsRecords.DNSServer.AddRecord | dns_server.py:38-46 | the in-place update equals the specified tables |
| DnsRecords.DNSServer.RemoveRecord | dns_server.py:48-57 | removal by name if it is known, otherwise by address, equals the specified tables |
| Dhcp.ReleaseOneMore | dhcp.py:521-522 | releasing several clients one after another equals releasing them at once, in any order |
| DhcpRuns.ScanChangesOnly | dhcp.py:198-209 | a scan changes only the conflict list, the probe flags and the client's own suspension, and probes no used address |
| DhcpRuns.ReleaseKeepsSound | dhcp.py:85-96 | a release keeps the invariant |
| DhcpRuns.AllocateKeepsSound | dhcp.py:364-371 | an allocation with its DNS registration keeps the invariant |
| DhcpRuns.RenewKeepsSound | dhcp.py:377-386 | a renewal with its DNS registration keeps the invariant |
| DhcpRuns.OfferKeepsSound | dhcp.py:202-208 | an offer keeps the invariant |
| DhcpRuns.ReleaseAllKeepsSound | dhcp.py:512-522 | reaping any set of clients keeps the invariant |
| DhcpRuns.ReceiveKeepsSound | dhcp.py:453-507 | every message, up to its first probe, keeps the invariant |
| DhcpRuns.ResumeKeepsSound | dhcp.py:162-170 | every wake-up from a probe keeps the invariant |
| DhcpRuns.StepKeepsSound | dhcp.py:453-522 | every step keeps it: messages, wake-ups, ARP replies, reaping |
| DhcpRuns.EveryRunIsSound | dhcp.py:85-209 | in every interleaving, with at most one message in progress per client, the address map is injective and names ALLOCATED leases, each PTR record's address has an ALLOCATED lease and a confirming A record, and leases lie in the pool |
| DhcpProbing.ScanProbesFirstFree | dhcp.py:198-209 | a scan probes the first address of the pool from where it starts that is neither in use nor in a recent conflict, or nothing when there is none; no recent conflict is lost |
| DhcpProbing.FirstProbeIsFree | dhcp.py:183-209 | what a client without a lease is probed first is the first address of the pool on which nobody has an unexpired ALLOCATED lease and which is not in a recent conflict |
| DhcpProbing.StepUnansweredIff | dhcp.py:140-177 | a probed address is unanswered if and only if a probe of it was started after the last ARP reply for it and the last end of a probe of it |
| DhcpProbing.WakeUpHandsOutIff | dhcp.py:162-209 | a handler that wakes up hands out the address it probed if and only if nobody answered for it |
| DhcpProbing.AnsweredIsNotHandedOut | dhcp.py:162-177 | over runs: after an ARP reply a handler that wakes up from probing the address hands out nothing, unless a probe of it was started in between |
| DhcpProbing.UnansweredIsHandedOut | dhcp.py:140-209 | over runs: without an ARP reply or another wake-up from the same address it is offered or acknowledged |
| DhcpProbing.AnswerIsListed | dhcp.py:164-168 | a wake-up that finds an answer lists the address from the time its probe was sent, changes no lease, and goes on to the next free address |
| DhcpProbing.RunKeepsListed | dhcp.py:146-158 | over runs: until `conflictTtl` has passed no scan probes a listed address |
| DhcpProbing.AnsweredIsAvoided | dhcp.py:140-177 | the whole story over runs: somebody answers, the handler hands out nothing, and until `conflictTtl` after its probe no scan probes the address |
| DhcpProbing.DeclinedIsAvoided | dhcp.py:487-495 | over runs: a declined address that nobody is probing is probed for nobody until `conflictTtl` has passed |
| DhcpProbing.ConflictsEnd | dhcp.py:146-158 | afterwards a scan that gets to the address and finds it unleased probes it |
| DhcpReplies.AcksWhatIsGranted | dhcp.py:349-405 | an acknowledgement is sent if and only if that address is granted, a refusal if and only if a client with a lease or offer asks for another address |
| DhcpReplies.OffersWhen | dhcp.py:182-209 | an offer is sent if and only if the client discovers and holds that address, or an unanswered probe of it ends |
| DhcpReplies.RepliesAreKept | dhcp.py:202-405 | what is offered is set aside for the client or its own; what is acknowledged it holds ALLOCATED, for a lease time from its request |
| DhcpReplies.LeavingIsForgotten | dhcp.py:85-96 | after a RELEASE or DECLINE nothing is left of the lease, its address entry, the client's name and its DNS records |
| DhcpReplies.ReapedAreForgotten | dhcp.py:512-522 | reaping ends exactly the ALLOCATED leases whose time is up, and leaves nothing of them |
| DhcpReplies.NameIsRemembered | dhcp.py:453-507 | a name that comes with any other message is remembered |
| DhcpSharing.StepHeld | dhcp.py:85-209 | every event gives and takes exactly the ALLOCATED leases it grants, releases or reaps |
| DhcpSharing.StepKeepsUniqueIff | dhcp.py:85-209 | from any sound state in which no address is shared, over all ALLOCATED leases or the unexpired ones, any event leaves none shared if and only if it grants no address that another client holds |
| DhcpSharing.RunNeverSharesIff | dhcp.py:85-209 | a possible run, in any interleaving, shares no address at any time if and only if every grant in it is of an address that nobody else then holds |
| DhcpSharing.EveryRunSharesIff | dhcp.py:60-209 | in particular every run from the empty server |
| DhcpUniqueness.StepKeepsExclusive | dhcp.py:453-522 | a step that meets all three guards keeps active leases on different addresses |
| DhcpUniqueness.SerialRunsNeverShare | dhcp.py:183-400 | a run that meets three guards never shares an ALLOCATED address: handlers run one at a time, only while no other lease is OFFERED, and with expired leases reaped |
| DhcpSharing.SerialRunsGrantUnheld | dhcp.py:183-400 | such a run grants only unheld addresses, the exact condition, in every state on the way |
| DhcpGuards.OfferedLeasesAreIgnored | dhcp.py:190-193 | a run from the empty server that meets the two other guards, but not the one on OFFERED leases: two clients are granted the same address |
| DhcpGuards.ExpiredLeasesAreRenewed | dhcp.py:377-386 | the same without the guard on expired leases: a lease is renewed on an address that was granted to another client after it expired |
| DhcpGuards.OverlappingHandlersShare | dhcp.py:183-209 | the same without the guard on overlapping handlers, for any three clients and any pool of two addresses or more: a suspended scan takes an address granted meanwhile |
| DhcpGuards.SafeIffAllGuards | dhcp.py:183-400 | so, for any such pool, asking for some of the guards keeps every run from the empty server from sharing an address if and only if it is all three |
| DhcpCompleteness.StepEntries | dhcp.py:85-209 | every event writes and deletes exactly the address entries of its grant, its release or the leases it reaps |
| DhcpCompleteness.CompleteIsUnique | dhcp.py:364-371 | an address map that names the holder of every ALLOCATED lease leaves no address shared |
| DhcpCompleteness.StepKeepsCompleteIff | dhcp.py:85-209 | from any sound state with a complete address map, any event keeps it complete if and only if the entry it writes or deletes, if there is one, is the client's own |
| DhcpCompleteness.RunStaysCompleteIff | dhcp.py:85-209 | a possible run keeps the map complete throughout if and only if every event of it touches only the client's own entry |
| DhcpCompleteness.ReleaseDropsOthersEntry | dhcp.py:92-93 | a run from the empty server: two clients are offered one address, one is granted it, the other's RELEASE deletes the entry |
| DhcpCompleteness.GrantOverwritesOthersEntry | dhcp.py:364-371 | a run from the empty server: two clients are offered one address, and the second grant overwrites the first one's entry |
| DhcpNames.StepRecords | dhcp.py:85-209 | every event writes and deletes exactly the DNS records of its grant, its release or the leases it reaps |
| DhcpNames.StepKeepsNamedIff | dhcp.py:85-209 | from any sound state in which every A record has its PTR record, any event keeps it so if and only if it registers no second name for an address |
| DhcpNames.RunStaysNamedIff | dhcp.py:85-209 | a possible run keeps it so throughout if and only if no event of it registers a second name for an address |
| DhcpNames.RenamedClientKeepsOldName | dhcp.py:377-386 | a run from the empty server: a client renews its lease under another name, and the first name keeps its A record without the PTR record |
| DhcpPool.ScanSkipsPrefix | dhcp.py:198-209 | the scan passes the used prefix of the pool to the first free address, or off its end |
| DhcpPool.ServeNext | dhcp.py:183-400 | the next client gets the next address |
| DhcpPool.ServeNone | dhcp.py:389-393 | once the pool is full a new client gets none and the leases stay |
| DhcpPool.PoolFillsInOrder | dhcp.py:183-400 | with n addresses, client i < n of any number of distinct clients served in turn within a lease time with clear probes gets start + i, and every later one none |
| DhcpServer.DHCPServer.ReleaseLease | dhcp.py:85-96 | the in-place release is the release of the state machine |
| DhcpServer.DHCPServer.constructor | dhcp.py:60-71 | all tables start empty |
| DhcpServer.DHCPServer.StartProbe | dhcp.py:140-161 | stale conflicts go, a listed address is refused, otherwise the probe is armed |
| DhcpServer.DHCPServer.ScanPool | dhcp.py:195-209 | the loop is the specified scan |
| DhcpServer.DHCPServer.HandleDhcp | dhcp.py:453-507 | state and reply are those of the state machine, up to the first probe |
| DhcpServer.DHCPServer.HandleRequest | dhcp.py:349-405 | NAK, ACK, renewal or a scan, as specified |
| DhcpServer.DHCPServer.HandleDiscover | dhcp.py:182-209 | an ALLOCATED client is offered its address again, any other starts a scan |
| DhcpServer.DHCPServer.Grant | dhcp.py:364-373 | lease, address map and DNS records of an allocation |
| DhcpServer.DHCPServer.Extend | dhcp.py:383-386 | lease and DNS records of a renewal |
| DhcpServer.DHCPServer.Finish | dhcp.py:202-208 | a clear probe ends in an offer, or in an allocation when a REQUEST was waiting |
| DhcpServer.ScanIsSilent | dhcp.py:198-209 | a scan either waits for a probe or finds nothing; it never replies |
| DhcpServer.DHCPServer.ResumeProbe | dhcp.py:162-209 | the continuation after the sleep is the resume step |
| DhcpServer.DHCPServer.MarkArpConflict | dhcp.py:172-177 | only an armed probe is flagged |
| DhcpServer.DHCPServer.ReapLeases | dhcp.py:512-522 | exactly the expired ALLOCATED leases are released |
| DnsWire.SplitJoin | dns_server.py:94 | joining labels without dots and splitting again gives the labels |
| DnsWire.JoinSplit | dns_server.py:67 | splitting a name and joining again gives the name |
| DnsWire.JoinedTextIsUnambiguousIff | dns_server.py:94 | joining labels and splitting again gives the labels if and only if there are some and none contains a dot |
| DnsWire.ComputeEncoding | dns_server.py:62-70 | the loop writes labels, each after its length in characters, and the terminator |
| DnsWire.DecodeDomain | dns_server.py:72-95 | the loop returns the decoded name and the offset after its in-place encoding, or raises at a cut-off pointer or a label that is not UTF-8 |
| DnsWire.EncodedIsAccepted | dns_server.py:92 | every Unicode character in the encoding of section 3 of RFC 3629 is accepted |
| DnsWire.AcceptedIsEncoded | dns_server.py:92 | and nothing else is |
| DnsWire.BackwardEnds | dns_server.py:72-95 | if every pointer targets a position before the start of its label run, the loop ends |
| DnsWire.DecoderEndsIff | dns_server.py:72-95 | the loop ends if and only if the chain of pointers never returns to a position it has left |
| DnsWire.UnfinishedIffHops | dns_server.py:83-89 | the decoder needs one more jump exactly when the chain of pointers goes on |
| DnsWire.EncodedRepresents | dns_server.py:62-70 | what the encoder prints for ASCII labels is a name in the sense of RFC 1035 |
| DnsWire.LongChainsRevisit | dns_server.py:83-89 | a chain of more than 2^14 pointers must return |
| DnsWire.SelfPointerNeverEnds | dns_server.py:83-89 | a pointer to itself makes the loop run for ever |
| DnsWire.DecoderMeetsRfc | dns_server.py:72-95 | a name that section 4.1.4 of RFC 1035 allows is read as its labels, with the right end offset, if its labels are UTF-8, and raises otherwise |
| DnsWire.DecodedTextIffDotFree | dns_server.py:72-95 | the joined text it returns leads back to the labels on the wire if and only if there are labels and none of them contains a dot |
| DnsWire.CharsCountAscii | dns_server.py:68 | a string has as many characters as bytes if and only if it is ASCII |
| DnsWire.EncodeDecode | dns_server.py:62-95 | a printed ASCII name, anywhere in a message, reads back as its labels with the offset after it |
| DnsWire.EncodeDecodeIff | dns_server.py:62-95 | the length octet counts characters, so a string with labels of 1 to 63 bytes, printed anywhere in a message, reads back as itself if and only if it is ASCII |
| DnsWire.PointerDecode | dns_server.py:83-89 | a two-octet pointer to a printed name reads as that name and ends after itself |
| DnsWire.PtrNameRoundTrip | dns_server.py:97-105 | the reverse name of an address leads back to the address |
| DnsFrames.PtrNameIsReversed | dns_server.py:97-105 | the reverse name of an address is its octets in reverse order, under in-addr.arpa, and leads back |
| DnsFrames.PlainNameIsReversed | dns_server.py:101-105 | a name that is not under in-addr.arpa is reversed as it is |
| DnsResponse.AddressRoundTrip | dns_server.py:128 | an address survives printing as a dotted quad and parsing |
| DnsResponse.InetAton | dns_server.py:128 | a parsed dotted quad has four octets |
| DnsResponse.InetAtonIff | dns_server.py:128 | parsing accepts exactly the printed addresses, and inverts printing |
| DnsFrames.AddressIsWritten | dns_server.py:128 | two addresses, written out |
| DnsResponse.BuildResponse | dns_server.py:110-134 | header, questions and answers are laid out as specified, None where Python raises |
| DnsResponse.ReadQuestions | dns_server.py:158-170 | the parsing loop reads the specified questions |
| DnsResponse.HandleDns | dns_server.py:139-189 | the response is that to the payload of the frame, None for anything but a standard query |
| DnsResponse.ResponseReadsQuestion | dns_server.py:110-122 | the question section of any response reads back as the question |
| DnsResponse.ResponseReadsAnswer | dns_server.py:123-133 | the answer's 0xC00C owner resolves to the question name, its data to the stored record |
| DnsResponse.ResponseRoundTrip | dns_server.py:139-189 | every single-question A or PTR query for an ASCII name gets a response that reads back as its id, question and stored record, or NXDOMAIN without answers |
| DnsFrames.PayloadFollowsHeaders | dns_server.py:142-146 | the payload is what follows the Ethernet header, an IPv4 header of any length and the UDP header, if it can hold a DNS header |
| DnsFrames.StandardQueryIff | dns_server.py:152-155 | a message is answered only if its QR bit and operation code are zero |
| DnsFrames.FrameRoundTrip | dns_server.py:139-189 | the round trip for whole frames: what is sent in answer to a frame with such a query reads back so |
| DnsFrames.QuestionsAreRead | dns_server.py:157-170 | questions printed one after the other are read one after the other |
| DnsFrames.StrayPointerRaises | dns_server.py:159-162 | reading stops at the end of the data, not before: a lone pointer octet at the end makes it raise |
| DnsFrames.AnswersIff | dns_server.py:172-185 | the answers are exactly the stored records of the A and PTR questions of the Internet class |
| DnsFrames.RespondsWithFirst | dns_server.py:186-187 | of several questions only the first is repeated, and the header counts the answers to all |
| DnsFrames.AnswersAreOwnedByFirst | dns_server.py:123-124 | every answer is read as owned by the name of the first question, rightly if and only if that is the name it answers |
| OpenFlow.NarrowingAllOnes | ofctl_utilis.py:337-347 | masking an all-ones address field leaves exactly the number of ignored bits |
| OpenFlow.NarrowFields | ofctl_utilis.py:326-357 | clearing flags one by one leaves exactly the fields the arguments do not restrict |
| OpenFlow.SetFlow | ofctl_utilis.py:317-372 | the match sent accepts exactly the packets that meet the arguments |
| OpenFlow.FlowMatchMeansCriteria | ofctl_utilis.py:317-372 | the same for the match as a value |
| Firewall.NormalizingTwice | firewall.py:39-54 | normalising an already normalised protocol changes nothing |
| Firewall.PaddingMattersIff | firewall.py:39-54 | the protocol name is not stripped: for every name, its padding makes no difference if and only if there is none or the stripped name is unknown |
| Firewall.PaddedNameMeansAnyProtocol | firewall.py:46-54 | so "TCP " compiles like no protocol |
| Firewall.NamedProtocolIff | firewall.py:28-54 | a protocol name stands for 1, 6 or 17 if and only if it spells icmp, tcp or udp in any case, without blanks; any other name for 0 |
| Firewall.WildcardsMeanAny | firewall.py:39-54 | nothing, "*" and "any", with blanks around them and in any case, stand for every value |
| Firewall.NamedRuleAccepts | firewall.py:80-153 | without ports, a rule that names a protocol in any case accepts, under both compilers, exactly the packets of that protocol between its addresses |
| Firewall.CompileRule | controller.py:415-451 | the controller's own narrowing builds the specified match |
| Firewall.CompilersAgreeIff | firewall.py:80-153 | the two compilers build the same match if and only if the rule is TCP or UDP, or names no port but a protocol or an address |
| Firewall.ControllerExactIff | controller.py:415-451 | the controller's match accepts exactly the described packets if and only if the rule is TCP or UDP, or a port exceeds a byte, or it names no port but a protocol or an address |
| Firewall.FirewallExactIff | firewall.py:80-153 | the other compiler's match does so if and only if the rule is TCP or UDP or names no port |
| Firewall.ControllerCounterexample | controller.py:435-443 | otherwise an ICMP or ARP packet that is not described is accepted |
| Firewall.FirewallCounterexample | firewall.py:117-128 | a port rule without TCP or UDP drops an ICMP packet it does not describe |
| Firewall.SameKeySameMatch | firewall.py:90-95 | rules with the same key compile to the same match, so leaving the second out loses nothing |
| Firewall.Firewall.InstallOne | firewall.py:85-153 | a rule is sent unless its key is known, and then its key is known |
| Firewall.Firewall.InstallOn | firewall.py:83-153 | all deny rules on one switch |
| Firewall.Firewall.InstallRules | firewall.py:80-153 | afterwards every deny rule's match is on every given switch, once per key; a second call sends nothing |
| FlowTables.HostKeysDiffer | controller.py:388-395 | two host entries replace each other if and only if EtherType and destination are the same |
| FlowTables.HostEntriesAgree | controller.py:388-411 | the entry for a host is the last one added for it, untouched by every other addition |
| FlowTables.HostFlowsAreSetHostFlows | controller.py:388-395 | the two entries sent for a host are the table update of the topology handlers |
| FlowTables.ModAccepts | controller.py:541-573 | what each kind of entry matches: probe, DNS and NAT captures, host entries, table miss |
| FlowTables.TableGivesVerdict | controller.py:499-573 | after any additions in any order, all deciding entries agree on the packet's fate, computed in priority order, and there is none exactly when nothing matches |
| FlowTables.InstallFirewallRules | controller.py:415-458 | the loop adds the deny rules in order, and every packet a well-compiled rule describes is then blocked |
| FlowTables.DenialsAreDenyRules | controller.py:418-420 | the entries added are exactly those of the deny rules |
| FlowTables.FirewallDecides | controller.py:415-458 | whatever else is added, a packet that is no probe is dropped if and only if some installed rule's match accepts it |
| FlowTables.DescribedPacketsBlocked | controller.py:415-458 | an installed rule keeps every packet it describes out in every later state of the table |
| FlowTables.OnlyDescribedPacketsBlocked | controller.py:415-458 | if all installed rules compile well, a packet is dropped if and only if some rule describes it |

## Left out

- ControllerApp.ControllerApp.HandleLinkAdd: for a link that names an unconnected switch, the recomputation raises a `KeyError` half way in the source; what it leaves behind is not modelled.
- ControllerApp.ControllerApp.HandleProbe: the same for a probe from an unconnected switch; the parsing of a probe's payload and the sending of probes are not modelled, the handler gets the four numbers.
- Routing.Dijkstra: the adjacency is a plain map; that reading an absent key of Python's `defaultdict` inserts an empty entry is not modelled.
- DhcpServer.DHCPServer.HandleDhcp: packet building, options and the choice of reply fields are not modelled; the reply is its kind and address.
- DnsWire.ComputeEncoding: a name that is already given as bytes, which the source returns as it is, is not modelled.
- DnsResponse.InetAton: accepts dotted quads as `inet_ntoa` prints them; the other spellings of the C library (octal and hexadecimal octets, fewer than four parts) are refused here.
- OpenFlow.SetFlow: the wildcard word is the record of its bit fields, not a 32-bit number; cookies and timeouts are not modelled.
- Firewall.SpacesAre: white space beyond U+00FF is not modelled.
- Firewall.NormalizingTwice: ports given as text, and the rule file itself, are not modelled; a rule holds parsed addresses and ports.
- Firewall.FirewallExactIff: a port of 0 counts as no port, as in the code.
- Link weights that are zero, negative or fractional, and the loading of weights and configuration files.
- The deletion of flow entries, idle timeouts, `_install_bidirectional_flows`, `install_capture_flows`, the network-mask helpers and the classes for OpenFlow 1.2 and later: not reached by this controller.
- The rest of `packet_in_handler` (ARP proxying, NAT and DNS dispatch), its messages to switches, and all os-ken packet parsing and building: library input and output.
- Logging, the printed topology and paths, and the networkx output: no property beyond formatting.
- NAT of protocols other than TCP, UDP and ICMP: they share one key and are only covered by the run invariants.
