# A verified model of the SCONE router, the OpenNIC rings and the AXI text tools

This project models the parts of the repository that keep state, and proves what they promise:

- **Link-state routing** (`HopGraph`, `Labels`, `ShortestPaths`, `Dijkstra`, `HopByHop`, `RouteWrappers`, `RouteBuilder`,
  `RouteEntries`, `Delivery`, `ActiveFlags`, `FlagOrder`): shortest paths over the router list with predecessor pointers that outlive a run, one route per prefix, and the table made of them.
- **LSU handling** (`Reconcile`, `LinkStateDb`, `Flooding`, `FloodContents`): the database of one router, and a network of such
  routers flooding LSUs (compare section 13 of RFC 2328).
- **Routing table and TCAM** (`RouteOrder`, `LongestPrefix`, `RoutingTable`): the sorted table, its copy in 32 hardware
  rows, and why first match over the rows is longest-prefix match (section 5.2.4.3 of RFC 1812).
- **ARP queue** (`ArpPlaces`, `ArpQueue`, `ArpTimeout`): where every packet handed to `send_ip` is, through
  replies, retries and the drain of entries that are given up.
- **Checksums and NAT** (`WordSums`, `IpHeader`, `NatSums`, `NatPackets`, `Nat`, `NatTrips`): ones' complement sums (RFC 1071) and their incremental update
  (section 3 of RFC 1624, section 4.2 of RFC 3022), which words of a packet change, and where answers go.
- **NIC rings** (`NicRings`): driver steps and device steps on shared descriptor rings.
- **AXI text** (`HexText`, `AxiText`, `AxiClock`): a printer and a parser that undo each other, and what becomes of the times.
- **Numbers** (`Numbers`): field widths, powers of two and masks, used throughout.

Code that updates records in place is modelled by classes and methods with loops. Each is tied to values (labels, books of
packets, lists), and the theorems are about those. `dafny verify dfyconfig.toml` checks everything.

## Findings

Where the code departs from what one would expect, the model follows the code and says exactly when (file names are those
of the SCONE router unless a path is given):

- `verify_checksum` (or_ip.c:273) misjudges exactly one input of up to 65537 words: 65537 times 0xFFFF
  (`IpHeader.OneFoldIsExact`).
- NAT adjusts the IP header sum with the port still in it (or_nat.c:117, 189), so it survives only for port 0 or 65535
  (`NatPackets.HeaderStaysCorrect`). Forwarding recomputes it (or_ip.c:161-163), so forwarded packets are valid all the
  same (`Nat.ForwardPacket`).
- A UDP packet without checksum, field 0, leaves NAT with a field that claims to be one (or_nat.c:88;
  `NatPackets.UdpWithoutChecksum`).
- A correct ICMP echo can leave NAT incorrect, or an incorrect one correct, if all its other words are zero
  (or_nat.c:100, 173; `NatPackets.EchoStaysCorrect`, `NatPackets.EchoReplyZeroed`).
- The checksum of a translated ICMP error leaves out the last byte of an odd length (or_icmp.c:152), so a correct one becomes
  incorrect unless that byte is 0 (`NatPackets.ErrorChecksum`, `NatPackets.OddErrorBroken`).
- The address replaced in the packet an ICMP error quotes is never compared with the entry's (or_nat.c:324-350), so a
  correct quoted header stays correct only if both have the same sum (`NatPackets.QuoteStaysCorrect`).
- Whether a drawn external port is in use is decided by comparing it with ports stored in network byte order
  (or_nat.c:205, 221, 431). On a little-endian host two senders can get the same external port, and the answer to the second
  goes to the first (`NatTrips.PortDrawnTwice`); `NatTrips.StaysDistinct` and `NatTrips.AnswerComesBack` are the exact
  conditions. On a big-endian host every answer comes home (`NatTrips.AnswersComeHome`).
- A packet to the WAN that is neither TCP, UDP nor ICMP makes NAT follow a null pointer (or_nat.c:147;
  `Nat.ProcessNatIntPacket`, `Nat.ForwardPacket`).
- Forwarding a packet of TTL 0 sends it on with TTL 255 (or_ip.c:149-158; `IpHeader.ForwardHeader`), an LSU of TTL 0 with
  65535 (or_pwospf.c:397; `Flooding.ZeroTtlWraps`); the latter cannot happen among routers that run this code.
- LSU numbers wrap at 16 bits (or_pwospf.c:883), and one that has wrapped is dropped by everyone who still has a record of its
  router (`FloodContents.TakenExactly`, `FloodContents.WrappedIsDropped`).
- An unmasked advertisement that is new to a nonempty list is added and removed again (or_pwospf.c:706;
  `Reconcile.UnmaskedIsLost`). `Reconcile.AgreementCondition` says exactly when the stored set is the advertised one.
- Wrapper distances are 16 bits wide (or_dijkstra.c:60). The route for a prefix goes to a farther advertiser exactly if
  neither the first advertiser in the list is a nearest one nor a later one is below the low 16 bits of its hop count
  (`RouteBuilder.RouteIsNearest`, `RouteWrappers.FarAdvertiserHeld`).
- `compute_rtable` asserts that a gateway exists (or_dijkstra.c:142). Taking down our only link once its
  neighbour has timed out makes that fail (`RouteEntries.LinkDownFails`); `RouteEntries.FailsIff` is the exact
  condition on database and interfaces, `RouteEntries.FailsIffStranded` the one for an interface list that knows our neighbours.
- With two links to one neighbour, the prefix of the second link is routed to the first (or_dijkstra.c:124;
  `RouteEntries.SecondLinkMisrouted`). `RouteEntries.ReachablePrefixIsRouted` says which interface a prefix of our own gets.
- Which adjacencies are active can depend on the order of the lists (or_pwospf.c:801): exactly if an interface is claimed by another
  router and not confirmed by the one it names (`FlagOrder.FlagsAgreeExactly`, `FlagOrder.SharedDisagrees`).
- Hardware and software pick different entries exactly where some active match has more mask bits than the first match
  that has a row (or_rtable.c:76-80, 240, 267; `LongestPrefix.HardwareAgrees`): with masks that are not contiguous
  (`LongestPrefix.NoncontiguousDisagrees`), or past 32 active routes (`LongestPrefix.ContiguousAgrees`).
- The reply drain hands packets to `send_ip` again (or_arp.c:212). Without a cache entry two or more are requeued for
  ever, and a single one is lost with its entry (`ArpQueue.UncachedDrain`, `ArpQueue.LostWithEntry`); `ArpQueue.DrainEnds`
  is the exact condition.
- A poll with a budget below 1 delivers one packet (sw/driver/open-nic-driver/onic_netdev.c:308; `NicRings.RxQueue.RxPoll`).
- A packet the stack refuses is handed to it again by the next poll (sw/driver/open-nic-driver/onic_netdev.c:273-277;
  `NicRings.HandedTwice`).
- `axis_dump` writes no line for a packet without bytes (tools/scripts/axitools.py:122), so loading cannot return it
  (`AxiText.DumpIsRead`), and a length of 65536 or more does not fit its field (tools/scripts/axitools.py:113;
  `AxiText.ExpectedFields`).
- The first delay is written in nanoseconds and read in seconds (tools/scripts/axitools.py:97, 197), and a packet that begins
  before the one before it has ended is read back late, with all packets after it (`AxiClock.TimesRead`, `AxiClock.TimesKept`).

## Model

| member | source | states |
|---|---|---|
| Dijkstra.RouterDb.ComputeDistances | hw/projects/reference_router/sw/scone/or_dijkstra.c:75-106 | for every database with distinct nonzero ids that holds our own record, the main loop ends, every record holds its least hop count over active adjacencies, and 0xFFFFFFFF exactly if it is unreachable; leftover predecessor pointers stay sound |
| Dijkstra.RouterDb.ResetRecord | hw/projects/reference_router/sw/scone/or_dijkstra.c:83-89 | one record goes to distance 0 if it is ours and to the largest distance otherwise, its predecessor untouched, no other record changed |
| Dijkstra.RouterDb.ResetDistances | hw/projects/reference_router/sw/scone/or_dijkstra.c:77-92 | all records take their starting labels and keep the predecessors of earlier runs |
| Dijkstra.RouterDb.GrowFound | hw/projects/reference_router/sw/scone/or_dijkstra.c:94-106 | the loop that grows N' terminates (N' gains a router each round and ids fit 32 bits) and stops with nothing reachable left outside |
| Dijkstra.RouterDb.Advance | hw/projects/reference_router/sw/scone/or_dijkstra.c:97-106 | one round moves a nearest router into N', relaxes it, and picks the next, N' being larger by one |
| Dijkstra.RouterDb.GetRouterByRid | hw/projects/reference_router/sw/scone/or_dijkstra.c:173-184 | finds the record with an id, and null exactly says there is none |
| Dijkstra.RouterDb.GetShortest | hw/projects/reference_router/sw/scone/or_dijkstra.c:186-201 | returns a reached router outside N' that no other such router undercuts, null exactly if none is reached |
| Dijkstra.RouterDb.RelaxAdjacency | hw/projects/reference_router/sw/scone/or_dijkstra.c:214-221 | a neighbour's distance and predecessor change only if that makes it nearer; the 32-bit sum never wraps; all invariants of the loop are kept |
| Dijkstra.RouterDb.RelaxInterface | hw/projects/reference_router/sw/scone/or_dijkstra.c:210-222 | an inactive interface, one naming no router, or an unknown router leaves every label as it was; otherwise the adjacency is relaxed |
| Dijkstra.RouterDb.UpdateNeighborDistance | hw/projects/reference_router/sw/scone/or_dijkstra.c:206-226 | after it every active adjacency of the router is relaxed and N' is unchanged |
| Dijkstra.RouterDb.NextRid | hw/projects/reference_router/sw/scone/or_dijkstra.c:258-268 | the predecessor walk meets no null pointer and ends at the router next to ours, also from routers that this run did not reach and whose pointers are from earlier runs |
| Dijkstra.RouterDb.Learn | hw/projects/reference_router/sw/scone/or_pwospf.c:371-393 | an LSU's advertisements replace those of a known router or add a new one; every cross-run fact about predecessors is kept |
| Labels.StartExplores | hw/projects/reference_router/sw/scone/or_dijkstra.c:81-95 | starting a run over labels left by earlier runs re-establishes the invariants of the main loop |
| Labels.ViaKeepsRelaxing | hw/projects/reference_router/sw/scone/or_dijkstra.c:218-221 | reaching a router through another keeps the loop's invariants, among them that predecessors were reached in a later run, or in the same run nearer to us |
| Labels.EnterStartsRelaxing | hw/projects/reference_router/sw/scone/or_dijkstra.c:97-105 | taking a nearest router into N' keeps the invariants |
| Labels.RoomToGrow | hw/projects/reference_router/sw/scone/or_dijkstra.c:214-219 | while a router is outside N' the hop count plus one stays below 0xFFFFFFFF, so the addition does not wrap |
| HopGraph.EdgeMeans | hw/projects/reference_router/sw/scone/or_dijkstra.c:207-214 | one hop: an active interface of the one router names the other, and id 0 names nobody |
| ShortestPaths.WalkBound | hw/projects/reference_router/sw/scone/or_dijkstra.c:97-106 | when the loop has stopped, no walk of any length reaches a router in fewer hops than its label says |
| ShortestPaths.SettledIsShortest | hw/projects/reference_router/sw/scone/or_dijkstra.c:97-108 | labels are least hop counts, the largest distance means unreachable, and only we are at distance 0 |
| ShortestPaths.RouteIsShortest | hw/projects/reference_router/sw/scone/or_dijkstra.c:258-268 | the predecessor chain of a reachable router is a shortest path from us, its first hop is at distance 1 and named by one of our active interfaces |
| RouteWrappers.GetRouteWrapper | hw/projects/reference_router/sw/scone/or_dijkstra.c:314-327 | finds the wrapper of a masked prefix, -1 exactly if there is none |
| RouteWrappers.PrefixBits | hw/projects/reference_router/sw/scone/or_dijkstra.c:314-327 | a prefix has the mask of its advertisement, and of its subnet exactly the bits under the mask |
| RouteWrappers.AddRouteWrapper | hw/projects/reference_router/sw/scone/or_dijkstra.c:242-312 | what one advertisement does to the wrapper list, 16-bit distance included |
| RouteWrappers.TruncationKeepsOrder | hw/projects/reference_router/sw/scone/or_dijkstra.c:60-60 | below 65535 hops truncation to 16 bits keeps the order of distances, unreachable staying last |
| RouteWrappers.KeptOrder | hw/projects/reference_router/sw/scone/or_dijkstra.c:252-257 | under the same bound the mixed comparison of a 32-bit with a 16-bit distance decides as a 32-bit one would |
| RouteWrappers.SummaryNearest | hw/projects/reference_router/sw/scone/or_dijkstra.c:246-278 | no offer for a prefix is nearer than the one its wrapper holds, and our own offer wins |
| RouteWrappers.TakenAllSummary | hw/projects/reference_router/sw/scone/or_dijkstra.c:228-312 | the finished list has one wrapper per prefix, each holding a nearest offer in full: distance, next router and directly-connected flag |
| RouteWrappers.TakenAllExact | hw/projects/reference_router/sw/scone/or_dijkstra.c:242-312 | for any distances at all, one wrapper per offered prefix and no other, each with the 16-bit distance, next router and directly-connected flag of the offer that `HeldAt` picks |
| RouteWrappers.KeptIsLeast | hw/projects/reference_router/sw/scone/or_dijkstra.c:252-282 | the number stored in a wrapper is the least distance if and only if its first advertiser fits 16 bits or a later one is at most the low 16 bits of the first; whether the route is a nearest one is `HeldIsNearest` |
| RouteWrappers.HeldBeatsEarlier | hw/projects/reference_router/sw/scone/or_dijkstra.c:252-257 | the advertiser held is nearer than every one met before it |
| RouteWrappers.HeldIsNearest | hw/projects/reference_router/sw/scone/or_dijkstra.c:252-282 | for any list of advertisers, the one held is a nearest if and only if a later one is nearer than the low 16 bits of the first, or the first is itself a nearest |
| RouteWrappers.FarAdvertiserHeld | hw/projects/reference_router/sw/scone/or_dijkstra.c:257-257 | at 65541 hops the first advertiser is held although the second is 7 hops away |
| RouteBuilder.OffersAreSane | hw/projects/reference_router/sw/scone/or_dijkstra.c:228-312 | with fewer than 65535 routers every hop count fits the 16-bit field, and only our own offers are at distance 0 |
| RouteBuilder.WrappersAreRoutes | hw/projects/reference_router/sw/scone/or_dijkstra.c:228-312 | with fewer than 65535 routers: exactly one entry per distinct masked prefix, through a nearest advertiser, directly connected exactly if we advertise the prefix |
| RouteBuilder.WrapperIsLeast | hw/projects/reference_router/sw/scone/or_dijkstra.c:228-312 | with any number of routers, the exact condition for the stored number to be the least hop count |
| RouteBuilder.AdvertisersListed | hw/projects/reference_router/sw/scone/or_dijkstra.c:228-250 | the advertisements of a prefix in list order: all of them and no other |
| RouteBuilder.WrapperIsChosen | hw/projects/reference_router/sw/scone/or_dijkstra.c:228-312 | with any number of routers, each wrapper is exactly what the chosen advertisement of its prefix offers |
| RouteBuilder.RouteIsNearest | hw/projects/reference_router/sw/scone/or_dijkstra.c:252-282 | with any number of routers, the route for a prefix goes to a nearest advertiser if and only if some advertiser after the first is nearer than the low 16 bits of the first one's hop count, or the first is a nearest |
| RouteBuilder.AddInterface | hw/projects/reference_router/sw/scone/or_dijkstra.c:245-308 | one interface of one router is taken into the list, with the next router read off the predecessors |
| RouteBuilder.AddRouteWrappers | hw/projects/reference_router/sw/scone/or_dijkstra.c:242-312 | all interfaces of a router are, in list order |
| RouteBuilder.BuildRouteWrapperList | hw/projects/reference_router/sw/scone/or_dijkstra.c:228-240 | all routers are, in list order, and the result is the route list above |
| RouteBuilder.Happen | hw/projects/reference_router/sw/scone/or_dijkstra.c:75-110 | one LSU or one recomputation, starting from any state an earlier history left |
| RouteBuilder.Replay | hw/projects/reference_router/sw/scone/or_dijkstra.c:75-110 | over any history of learned and changed routers and recomputations, all of this holds after every recomputation, for the topology made of each router's last advertisements |
| RouteEntries.Resolve | hw/projects/reference_router/sw/scone/or_dijkstra.c:118-146 | the interface and gateway found for a wrapper: by next router first, by subnet otherwise |
| RouteEntries.ResolveAll | hw/projects/reference_router/sw/scone/or_dijkstra.c:112-160 | the entries of the whole list in order; an assertion fails exactly if some wrapper makes it fail |
| RouteEntries.ReachableBecomes | hw/projects/reference_router/sw/scone/or_dijkstra.c:124-149 | a route through any reachable router other than us becomes an active dynamic entry whose gateway is the first router of a shortest path to it |
| RouteEntries.AbandonedIsChosen | hw/projects/reference_router/sw/scone/or_dijkstra.c:252-282 | a route leads to an unreachable advertiser if and only if the first advertiser is unreachable and none is within 65534 hops, and then it is the first one's |
| RouteEntries.FarIsUnreachable | hw/projects/reference_router/sw/scone/or_dijkstra.c:60-60 | with fewer than 65535 routers, not within 65534 hops means unreachable |
| RouteEntries.FailsIff | hw/projects/reference_router/sw/scone/or_dijkstra.c:124-144 | for every database and interface list, the assertion on the neighbour fails if and only if some prefix is a subnet of one of our interfaces, the advertiser chosen for it is not ourselves, and the next router towards that one is seen neither by any interface nor on the one with that subnet |
| RouteEntries.FailsIffStranded | hw/projects/reference_router/sw/scone/or_dijkstra.c:124-144 | if our interface list knows the neighbours our record names, that is so if and only if such a prefix is abandoned: its first advertiser is unreachable and none is within 65534 hops |
| RouteEntries.LinkDownFails | hw/projects/reference_router/sw/scone/or_iface.c:363-408 | a database and interface list on which it fails: what taking down our only link leaves once its neighbour has timed out |
| RouteEntries.OnlyEntry | hw/projects/reference_router/sw/scone/or_dijkstra.c:112-160 | a prefix has no entry but the one its chosen advertisement becomes |
| RouteEntries.ChosenIsNearest | hw/projects/reference_router/sw/scone/or_dijkstra.c:242-312 | with fewer than 65535 routers the chosen advertiser is the first of the nearest in list order |
| RouteEntries.FirstOwnChosen | hw/projects/reference_router/sw/scone/or_dijkstra.c:242-312 | our first advertisement of a prefix is the one chosen for it |
| RouteEntries.OwnIsRouted | hw/projects/reference_router/sw/scone/or_dijkstra.c:124-140 | where a prefix of our own is routed |
| RouteEntries.SecondLinkMisrouted | hw/projects/reference_router/sw/scone/or_dijkstra.c:124-140 | two links to one neighbour, on which the second link's own prefix is routed to the first |
| RouteEntries.ReachablePrefixIsRouted | hw/projects/reference_router/sw/scone/or_dijkstra.c:75-171 | every prefix that a reachable router advertises: not ours, it is in the table towards a nearest advertiser through the first router of a shortest path; ours, it is there without gateway, on the interface that sees the neighbour of our first advertisement of it or else the one with the subnet, and on one with the subnet if and only if no interface sees that neighbour or the first that does has the subnet |
| RouteEntries.ComputeRtable | hw/projects/reference_router/sw/scone/or_dijkstra.c:75-171 | the computation as one call, from the database to the dynamic table |
| RouteEntries.Recompute | hw/projects/reference_router/sw/scone/or_dijkstra.c:428-459 | the routing table then is the stable sort of the static and the computed routes, and the hardware rows agree with it |
| HopByHop.NextHopIsNearer | hw/projects/reference_router/sw/scone/or_dijkstra.c:258-268 | when every router has settled routes over its own database, and the databases say the same in whatever order, each one's first hop is an active neighbour that by its own computation over its own list is exactly one hop nearer |
| HopByHop.TripArrives | hw/projects/reference_router/sw/scone/or_dijkstra.c:258-268 | so a packet sent from first hop to first hop arrives in the least number of hops and passes no router twice |
| Delivery.AdvertisedEverywhere | hw/projects/reference_router/sw/scone/or_dijkstra.c:228-240 | a prefix that one of the databases advertises is advertised in all |
| Delivery.NextIsNearer | hw/projects/reference_router/sw/scone/or_dijkstra.c:242-312 | for a prefix: the next router on the way is by its own choice among its own list of advertisers, which may be another, exactly one hop nearer to a nearest one |
| Delivery.NextIsRouted | hw/projects/reference_router/sw/scone/or_dijkstra.c:112-160 | and every router on the way has exactly one entry for the prefix in the table it computed from its own list, active and with the next router as gateway |
| Delivery.PrefixTripArrives | hw/projects/reference_router/sw/scone/or_dijkstra.c:75-171 | so a packet for a prefix in reach passes from table to table to a router that advertises it, the distance to a nearest advertiser falling by one at every hop |
| Delivery.TwoConverge | hw/projects/reference_router/sw/scone/or_dijkstra.c:75-106 | any two routers that have learned of each other and recomputed are such a network, each with itself first in its list |
| ActiveFlags.HandleInterface | hw/projects/reference_router/sw/scone/or_pwospf.c:783-810 | one interface: its flag says whether the router it names answers on the same subnet, and whatever answers is marked as well |
| ActiveFlags.DetermineActiveInterfaces | hw/projects/reference_router/sw/scone/or_pwospf.c:780-812 | the interfaces of one router, in list order |
| ActiveFlags.PropagateFlags | hw/projects/reference_router/sw/scone/or_pwospf.c:762-770 | the pass over all routers: afterwards an interface is active if and only if it is answered or claimed by one later in the lists |
| FlagOrder.FlagsAgreeExactly | hw/projects/reference_router/sw/scone/or_pwospf.c:783-810 | the flags of every ordering of a database agree if and only if no interface is disputed: whatever another router claims of it, the router it names confirms |
| FlagOrder.FlaggedAgree | hw/projects/reference_router/sw/scone/or_pwospf.c:783-810 | databases that advertise the same sets, without disputes, agree flags included |
| FlagOrder.SharedDisagrees | hw/projects/reference_router/sw/scone/or_pwospf.c:801-801 | three routers on one subnet for which the flags depend on the order |
| FlagOrder.SameAdvertsConverge | hw/projects/reference_router/sw/scone/or_pwospf.c:762-776 | so routers whose databases say the same, without disputes, form a network in which packets are delivered as above |
| Reconcile.Matches | hw/projects/reference_router/sw/scone/or_pwospf.c:677-696 | whether a masked advertisement is in the stored list |
| Reconcile.MaskedBits | hw/projects/reference_router/sw/scone/or_pwospf.c:677-696 | masking keeps mask and router, and of the subnet exactly the bits under the mask |
| Reconcile.AddMissing | hw/projects/reference_router/sw/scone/or_pwospf.c:673-721 | what is appended behind the old list: advertisements not held, stored as they arrived and not active |
| Reconcile.RemoveStale | hw/projects/reference_router/sw/scone/or_pwospf.c:723-754 | exactly the interfaces whose key is no masked advertisement go, the others stay as often as they were there |
| Reconcile.PopulateInterfaceList | hw/projects/reference_router/sw/scone/or_pwospf.c:629-759 | the new list as a set in terms of old list and advertisements; old interfaces stay as they were and new ones are not active; a change is reported exactly if the old list was empty or said something else |
| Reconcile.AgreementCondition | hw/projects/reference_router/sw/scone/or_pwospf.c:673-754 | the new list equals the advertised set if and only if each advertisement was known before or also arrives masked; for masked advertisements that is always |
| Reconcile.UnmaskedIsLost | hw/projects/reference_router/sw/scone/or_pwospf.c:706-706 | a concrete unmasked advertisement that is added and at once removed again |
| Reconcile.ReconciliationMasked | hw/projects/reference_router/sw/scone/or_pwospf.c:629-759 | masked advertisements replace whatever was stored |
| LinkStateDb.LiveMembers | hw/projects/reference_router/sw/scone/or_pwospf.c:1217-1253 | exactly our own and the recently refreshed records survive a timeout |
| LinkStateDb.LiveKeeps | hw/projects/reference_router/sw/scone/or_pwospf.c:1217-1253 | surviving records keep their sequence numbers |
| LinkStateDb.RemoveTimedOut | hw/projects/reference_router/sw/scone/or_pwospf.c:1212-1253 | the surviving list, and whether anything timed out |
| LinkStateDb.ReconciledKeys | hw/projects/reference_router/sw/scone/or_pwospf.c:629-759 | what a record says after reconciliation depends on the LSU and on what it said before only: the step by which `FloodContents` changes records |
| LinkStateDb.Database.Refresh | hw/projects/reference_router/sw/scone/or_pwospf.c:374-384 | a newer LSU replaces the stored number and reconciles the interfaces of that record, and of no other |
| LinkStateDb.Database.AddNewRouter | hw/projects/reference_router/sw/scone/or_pwospf.c:438-468 | an unknown router's record is appended with masked interfaces |
| LinkStateDb.Database.ProcessLsu | hw/projects/reference_router/sw/scone/or_pwospf.c:340-434 | ids stay distinct and our record stays; an LSU of our own, or not above the stored number, changes nothing and is not sent on; any other is stored, and sent on exactly if its decremented 16-bit TTL is positive |
| LinkStateDb.Database.ConstructLsu | hw/projects/reference_router/sw/scone/or_pwospf.c:843-919 | our LSU carries our interfaces, TTL 64 and the stored number; our record's number then moves on in 16 bits and its time is now; nothing else changes |
| LinkStateDb.Database.Expire | hw/projects/reference_router/sw/scone/or_pwospf.c:1212-1253 | only timed-out records of others go; the rest keep number and order |
| Flooding.BroadcastLsu | hw/projects/reference_router/sw/scone/or_pwospf.c:481-553 | a copy is queued exactly if it goes, with our address there, to a neighbour on an active interface other than the one the original came from, and as often as there are such neighbours |
| Flooding.BroadcastOnIface | hw/projects/reference_router/sw/scone/or_pwospf.c:497-546 | the same for the neighbours of one interface |
| Flooding.ForwardedMembers | hw/projects/reference_router/sw/scone/or_pwospf.c:340-418 | a received LSU is sent on exactly if it is another router's, unknown or above the stored number, and its TTL is not 1: with TTL one lower in 16 bits, to each neighbour but the one it came from |
| Flooding.DeliveredNumbers | hw/projects/reference_router/sw/scone/or_pwospf.c:371-393 | a delivery stores the larger of the two numbers for another router's LSU, and changes no other number anywhere |
| Flooding.OriginatedCopies | hw/projects/reference_router/sw/scone/or_pwospf.c:843-919 | an LSU of its own goes once to every neighbour, with the stored number and TTL 64, and the number moves on in 16 bits |
| Flooding.StepKeepsInv | hw/projects/reference_router/sw/scone/or_pwospf.c:396-418 | in a network of routers every step keeps all TTLs in flight within 1..64, so the decrement never wraps |
| Flooding.RunKeepsInv | hw/projects/reference_router/sw/scone/or_pwospf.c:340-434 | the same for whole runs, whatever is lost, reordered, relinked or timed out |
| Flooding.StepLoad | hw/projects/reference_router/sw/scone/or_pwospf.c:396-418 | each delivery uses up part of a flood's load, and only its start adds to it |
| Flooding.FloodDiesOut | hw/projects/reference_router/sw/scone/or_pwospf.c:371-418 | over any run a flood is delivered at most a fixed number of times, even if records time out and are learned again |
| Flooding.StaleCopyIgnored | hw/projects/reference_router/sw/scone/or_pwospf.c:371-377 | a copy not newer than the stored number changes no database and is not sent on |
| Flooding.SeqnoNeverDecreases | hw/projects/reference_router/sw/scone/or_pwospf.c:371-377 | over any run, another router's stored number never decreases while its record lives |
| Flooding.ZeroTtlWraps | hw/projects/reference_router/sw/scone/or_pwospf.c:397-407 | outside that invariant, a copy arriving with TTL 0 is sent on with 65535 |
| FloodContents.ActKeepsInv | hw/projects/reference_router/sw/scone/or_pwospf.c:340-434 | every step of a network with contents keeps: copies say what their flood began with, own numbers count originations in 16 bits, and every record holds an LSU its router originated with the stored number |
| FloodContents.StoredIsOriginated | hw/projects/reference_router/sw/scone/or_pwospf.c:371-393 | over any run from a fresh start, what a router has stored for another at number s is what that one originated with number s; while it has originated at most 65536 LSUs there is just one such LSU and the record says exactly what it said |
| FloodContents.SameNumberSameContents | hw/projects/reference_router/sw/scone/or_pwospf.c:371-393 | two routers that have stored the same number for a third hold the same advertisements for it |
| FloodContents.DeliveryUpdates | hw/projects/reference_router/sw/scone/or_pwospf.c:371-393 | a delivery of a router's last LSU brings the receiver's record up to date, whether it is taken or there already |
| FloodContents.Settles | hw/projects/reference_router/sw/scone/or_pwospf.c:371-393 | once the last LSU of a router has been delivered to another, what that one has stored for it is that LSU for good, while numbers have not wrapped; only if the record times out with older copies still in flight may an older one come back |
| FloodContents.NumbersDistinct | hw/projects/reference_router/sw/scone/or_pwospf.c:883-883 | up to 65536 LSUs of a router have different numbers |
| FloodContents.TakenExactly | hw/projects/reference_router/sw/scone/or_pwospf.c:374-374 | LSU number m of a router is taken by one that has stored its LSU number j if and only if m modulo 65536 exceeds j modulo 65536 |
| FloodContents.WrappedIsDropped | hw/projects/reference_router/sw/scone/or_pwospf.c:883-883 | an LSU whose number has wrapped to 0 is dropped by every router that has a record of its router |
| RouteOrder.OutOfOrderIsRank | hw/projects/reference_router/sw/scone/or_rtable.c:240-242 | the three-part exchange test is comparison of one number |
| RouteOrder.OrderedFields | hw/projects/reference_router/sw/scone/or_rtable.c:240-242 | a table in order: larger masks first, then larger addresses, then static routes |
| RouteOrder.StaticFirst | hw/projects/reference_router/sw/scone/or_rtable.c:242-242 | of a static and a dynamic route for one prefix the static one comes first |
| RouteOrder.SwapInversions | hw/projects/reference_router/sw/scone/or_rtable.c:240-246 | each exchange of the bubble sort removes exactly one inversion |
| RouteOrder.SwapKeepsBuckets | hw/projects/reference_router/sw/scone/or_rtable.c:240-246 | an exchange never reorders entries that tie |
| RouteOrder.StableSortUnique | hw/projects/reference_router/sw/scone/or_rtable.c:230-255 | there is only one stable sort, so the contracts below fix the table completely |
| RouteOrder.StableSortIsPermutation | hw/projects/reference_router/sw/scone/or_rtable.c:230-255 | a stable sort holds the same entries as often |
| RoutingTable.BubblePass | hw/projects/reference_router/sw/scone/or_rtable.c:235-249 | a pass keeps all entries, and has fewer inversions if it exchanged anything; if not, the table is in order |
| RoutingTable.BubbleSort | hw/projects/reference_router/sw/scone/or_rtable.c:233-250 | the loop terminates with the stable sort |
| RoutingTable.NextRow | hw/projects/reference_router/sw/scone/or_rtable.c:269-301 | the row for the next active entry, or the empty row once there are no more |
| RoutingTable.RouterState.WriteRtableToHw | hw/projects/reference_router/sw/scone/or_rtable.c:257-303 | the 32 rows are the first 32 active entries, then empty rows |
| RoutingTable.RouterState.TriggerRtableModified | hw/projects/reference_router/sw/scone/or_rtable.c:230-255 | the table is sorted stably and the rows rewritten |
| RoutingTable.RouterState.AddRoute | hw/projects/reference_router/sw/scone/or_rtable.c:112-140 | the table is the stable sort of the old one with the new static entry |
| RoutingTable.RouterState.DelRoute | hw/projects/reference_router/sw/scone/or_rtable.c:146-168 | every entry for the prefix goes, and how many is returned |
| RoutingTable.RouterState.DeactivateRoutes | hw/projects/reference_router/sw/scone/or_rtable.c:174-199 | matching static entries become inactive, matching dynamic ones go |
| RoutingTable.RouterState.ActivateRoutes | hw/projects/reference_router/sw/scone/or_rtable.c:205-225 | matching entries become active |
| RoutingTable.RouterState.Rebuild | hw/projects/reference_router/sw/scone/or_dijkstra.c:428-459 | static routes stay, all dynamic ones are replaced |
| RoutingTable.WithoutCounts | hw/projects/reference_router/sw/scone/or_rtable.c:146-168 | how often each entry is in the table after a deletion |
| RoutingTable.DeactivatedCounts | hw/projects/reference_router/sw/scone/or_rtable.c:174-199 | how often each entry is in the table after a deactivation |
| RoutingTable.ActivatedCounts | hw/projects/reference_router/sw/scone/or_rtable.c:205-225 | how often each entry is in the table after an activation |
| RoutingTable.StaticOnlyCounts | hw/projects/reference_router/sw/scone/or_dijkstra.c:428-440 | how often each entry is left once the dynamic routes are gone |
| RoutingTable.RouterState.HardwareRefinesSoftware | hw/projects/reference_router/sw/scone/or_rtable.c:59-105 | in every valid state with contiguous masks and at most 32 active routes, first match over the rows gives the gateway and port of the software lookup, for every destination |
| RoutingTable.RouterState.HardwareAnswer | hw/projects/reference_router/sw/scone/or_rtable.c:257-303 | the same in the table's own terms: a miss exactly if no active entry agrees with the destination under its mask; else gateway and port number of the first of those with most mask bits |
| RoutingTable.RouterState.HardwareAgreesExactly | hw/projects/reference_router/sw/scone/or_rtable.c:59-105 | in every valid state, whatever its masks, the exact condition of `HardwareAgrees` for the rows actually written |
| LongestPrefix.CountBits | hw/projects/reference_router/sw/scone/or_rtable.c:75-80 | the shifting loop counts the ones of a mask |
| LongestPrefix.BitsAreOnes | hw/projects/reference_router/sw/scone/or_rtable.c:75-80 | the count of a mask is the number of positions that hold a one |
| LongestPrefix.MatchesBits | hw/projects/reference_router/sw/scone/or_rtable.c:69-73 | for any mask, an entry matches if and only if its address and the destination have the same bit wherever the mask has a one |
| LongestPrefix.MatchesPrefix | hw/projects/reference_router/sw/scone/or_rtable.c:69-73 | for a mask of ones over k zeros, an entry matches if and only if the two addresses are equal once divided by two to the power of k |
| LongestPrefix.NextHopIsLongest | hw/projects/reference_router/sw/scone/or_rtable.c:59-105 | the answer of the scan in the terms of `GetNextHop`, over all tables and destinations |
| LongestPrefix.StaticPreferred | hw/projects/reference_router/sw/scone/or_rtable.c:242-242 | while a static route for a prefix is active in a sorted table, no dynamic route for that prefix is looked up |
| LongestPrefix.GetNextHop | hw/projects/reference_router/sw/scone/or_rtable.c:59-105 | no route exactly if no active entry has the destination's bit wherever its mask has a one; otherwise, of those that have, the gateway and interface of the first with most mask bits, gateway 0 standing for the destination |
| LongestPrefix.ScanIsLongest | hw/projects/reference_router/sw/scone/or_rtable.c:62-89 | the scan finds the first of the active matches with most mask bits, and nothing exactly if nothing matches |
| LongestPrefix.MaskOrder | hw/projects/reference_router/sw/scone/or_rtable.c:240-240 | for contiguous masks, order as numbers and order by bits agree |
| LongestPrefix.FirstIsLongest | hw/projects/reference_router/sw/scone/or_rtable.c:230-255 | in a sorted table with contiguous masks the first active match is what the scan finds |
| LongestPrefix.ScanIsFirst | hw/projects/reference_router/sw/scone/or_rtable.c:62-89 | for any masks and any order of the table, the scan ends at the first active match if and only if no active match has more mask bits |
| LongestPrefix.LookupFirst | hw/lib/std/router_output_port_lookup_v1_0_0/hdl/ip_lpm.v:126-150 | the lowest matching row is the first match, and empty rows answer nothing |
| LongestPrefix.LookupIsFirst | hw/lib/std/router_output_port_lookup_v1_0_0/hdl/ip_lpm.v:126-150 | the first row that has the destination's bit wherever its mask has a one answers with its next hop and port, unless its port is 0 |
| LongestPrefix.AnswerNames | hw/projects/reference_router/sw/scone/or_netfpga.c:65-77 | port 1 is eth0, 2 cpu0, 4 eth1, 8 cpu1 |
| LongestPrefix.HardwareAgrees | hw/projects/reference_router/sw/scone/or_rtable.c:257-303 | for every table, whatever its masks, order and length: the hardware answers with the entry the software picks if and only if no active match has more mask bits than the first match among the 32 entries with a row; the answers agree if and only if that holds or two different entries name the same gateway and interface |
| LongestPrefix.ContiguousAgrees | hw/projects/reference_router/sw/scone/or_rtable.c:230-303 | in a sorted table with contiguous masks they agree on a destination if and only if one of the first 32 active routes matches it or none does |
| LongestPrefix.NoncontiguousDisagrees | hw/projects/reference_router/sw/scone/or_rtable.c:76-80 | for every destination, a sorted table of two masks that are not contiguous on which hardware and software pick different entries |
| ArpQueue.Arp.GetFromArpCache | hw/projects/reference_router/sw/scone/or_arp.c:243-261 | the first entry for an address, -1 exactly if there is none |
| ArpQueue.Arp.GetFromArpQueue | hw/projects/reference_router/sw/scone/or_arp.c:481-495 | the entry for a next hop, -1 exactly if there is none |
| ArpQueue.Arp.ArpQueueAdd | hw/projects/reference_router/sw/scone/or_arp.c:437-475 | the packet joins the entry of its next hop at the end, or starts one with its first request |
| ArpPlaces.EnqueuedIs | hw/projects/reference_router/sw/scone/or_arp.c:437-475 | the packet is last in the entry of its next hop, or alone in a new one asked for once, and no other entry changes |
| ArpPlaces.ParcelsCount | hw/projects/reference_router/sw/scone/or_arp.c:437-475 | an entry holds each of its packets as often as its list, for its own next hop only |
| ArpQueue.SentOrQueuedIs | hw/projects/reference_router/sw/scone/or_main.c:788-810 | one packet more is handed over, and it is sent to the first cached address of its next hop or put in the queue |
| ArpQueue.FramesAt | hw/projects/reference_router/sw/scone/or_arp.c:206-216 | the frames of a drained entry are its packets in order, all to the one address |
| ArpQueue.Arp.SendIp | hw/projects/reference_router/sw/scone/or_main.c:788-810 | a packet is transmitted on a cache hit and queued on a miss; every packet handed over is still in exactly one place |
| ArpPlaces.ExactlyOnePlace | hw/projects/reference_router/sw/scone/or_main.c:788-810 | a packet handed over once is on the wire, waiting or dropped, and only one of these |
| ArpPlaces.WaitsAtItsHop | hw/projects/reference_router/sw/scone/or_arp.c:437-475 | a waiting packet is in the entry of its next hop |
| ArpPlaces.QueuedBalanced | hw/projects/reference_router/sw/scone/or_arp.c:437-475 | queueing keeps the books: distinct next hops, one to five requests, every packet in one place |
| ArpPlaces.HeadSentBalanced | hw/projects/reference_router/sw/scone/or_arp.c:206-216 | sending the first packet of an entry keeps them |
| ArpPlaces.HeadDroppedBalanced | hw/projects/reference_router/sw/scone/or_arp.c:594-633 | giving it up keeps them |
| ArpQueue.StoredIsFound | hw/projects/reference_router/sw/scone/or_arp.c:268-316 | a stored address is the one found afterwards |
| ArpQueue.StoredKeepsOthers | hw/projects/reference_router/sw/scone/or_arp.c:268-316 | all other addresses are found as before |
| ArpQueue.Arp.UpdateArpCache | hw/projects/reference_router/sw/scone/or_arp.c:268-316 | the address is stored or refreshed in place |
| ArpQueue.Arp.ExpireArpCache | hw/projects/reference_router/sw/scone/or_arp.c:533-565 | the entries left, in order |
| ArpQueue.RecentCounts | hw/projects/reference_router/sw/scone/or_arp.c:544-560 | exactly the static and the recent entries are left |
| ArpQueue.Arp.DrainReplied | hw/projects/reference_router/sw/scone/or_arp.c:203-216 | wherever the drain loop terminates at all, its result: the packets leave in arrival order through `send_ip`, or the single packet stays |
| ArpQueue.Arp.Resend | hw/projects/reference_router/sw/scone/or_arp.c:207-215 | one turn of the drain: the oldest packet goes through `send_ip` again and its node is removed |
| ArpQueue.ResentCached | hw/projects/reference_router/sw/scone/or_arp.c:207-215 | with the next hop cached that turn sends the packet |
| ArpQueue.ResentUncached | hw/projects/reference_router/sw/scone/or_arp.c:207-215 | without, it moves the packet to the end of the same entry |
| ArpQueue.UncachedDrain | hw/projects/reference_router/sw/scone/or_arp.c:206-216 | after any number of turns without a cache entry the packets have only turned round; two or more keep the loop going for ever, a single one ends it and is still there |
| ArpQueue.DrainTerminatesExactly | hw/projects/reference_router/sw/scone/or_arp.c:206-216 | the loop terminates if and only if the next hop is cached or at most one packet waits |
| ArpQueue.DrainEnds | hw/projects/reference_router/sw/scone/or_arp.c:206-219 | it ends with the entry empty and no packet lost if and only if the next hop is cached or nothing waits |
| ArpQueue.LostWithEntry | hw/projects/reference_router/sw/scone/or_arp.c:219-219 | a packet still in its entry when that is removed is in no place any more |
| ArpQueue.Arp.SendQueuedPackets | hw/projects/reference_router/sw/scone/or_arp.c:192-224 | only the entry of that address is drained and removed, wherever its drain terminates |
| ArpQueue.AllRepliedInOrder | hw/projects/reference_router/sw/scone/or_arp.c:192-224 | what waited is on the wire in arrival order, and nothing else moved |
| ArpQueue.Arp.ProcessArpReply | hw/projects/reference_router/sw/scone/or_arp.c:164-185 | a reply stores the address and sends what waited for it; no packet is lost or doubled |
| ArpTimeout.HeadWork | hw/projects/reference_router/sw/scone/or_arp.c:594-632 | why emptying an entry ends: the error that may join it never causes another |
| ArpTimeout.SendError | hw/projects/reference_router/sw/scone/or_icmp.c:71-142 | which packets cause an error, with the result that `WithErrorIs` and `WithErrorGiven` spell out |
| ArpTimeout.WithErrorGiven | hw/projects/reference_router/sw/scone/or_arp.c:603-626 | one parcel is handed over if the packet is no ICMP error, its source is not ours and has a route: an ICMP message of type 3 from our address on that route to the packet's source by that route; none otherwise |
| ArpTimeout.WithErrorIs | hw/projects/reference_router/sw/scone/or_icmp.c:87-142 | that error goes to the address cached for the next hop of the route, or into its entry on the route's interface |
| ArpTimeout.EmptyEntry | hw/projects/reference_router/sw/scone/or_arp.c:594-633 | the re-entrant drain loop terminates with the entry empty |
| ArpTimeout.EmptiedBalanced | hw/projects/reference_router/sw/scone/or_arp.c:594-633 | it keeps the books, and drops packets of that next hop only |
| ArpTimeout.EmptiedDropsAll | hw/projects/reference_router/sw/scone/or_arp.c:594-633 | everything that waited there is dropped, wherever the errors go |
| ArpTimeout.EmptiedKeeps | hw/projects/reference_router/sw/scone/or_arp.c:594-633 | other entries lose nothing |
| ArpTimeout.Visit | hw/projects/reference_router/sw/scone/or_arp.c:581-637 | one entry is left alone, asked for again, or given up after its fifth request |
| ArpTimeout.PassedFate | hw/projects/reference_router/sw/scone/or_arp.c:570-643 | in one pass every entry is visited once, in turn: given up with all its packets if due after five requests, asked for once more if due, otherwise unchanged but for packets that join it |
| ArpTimeout.PassedErrors | hw/projects/reference_router/sw/scone/or_arp.c:594-632 | over a pass: for each packet dropped, in order, exactly the error due about it is handed over and nothing else; every parcel handed over is on the wire, waiting or dropped |
| ArpTimeout.PassedDrops | hw/projects/reference_router/sw/scone/or_arp.c:570-643 | only packets whose next hop had used up its five requests are dropped |
| ArpTimeout.ProcessArpQueue | hw/projects/reference_router/sw/scone/or_arp.c:570-643 | the pass terminates and does exactly this, errors included, every packet still in one place |
| WordSums.OneFold | hw/projects/reference_router/sw/scone/or_ip.c:262-278 | the single truncated fold accepts a 32-bit sum exactly if it is a nonzero multiple of 65535 other than 0xFFFFFFFF |
| WordSums.FoldedValue | hw/projects/reference_router/sw/scone/or_ip.c:251-253 | two folds keep a sum modulo 65535 and give 0 only for 0 |
| WordSums.NtohsBytes | hw/projects/reference_router/sw/scone/or_ip.c:243-249 | on either kind of host a word read from the wire has the value of its two bytes, the high one first |
| IpHeader.VerifyChecksum | hw/projects/reference_router/sw/scone/or_ip.c:262-278 | the verdict on up to 65537 words, in either byte order |
| IpHeader.OneFoldIsExact | hw/projects/reference_router/sw/scone/or_ip.c:262-278 | it is right if and only if the input is not 65537 words of 0xFFFF |
| IpHeader.IsPacketValid | hw/projects/reference_router/sw/scone/or_ip.c:196-223 | accepts exactly IPv4 without options or fragmentation with a correct header sum |
| IpHeader.FieldsOfBits | hw/projects/reference_router/sw/scone/or_ip.c:196-223 | version, header length, more-fragments bit, offset, TTL and protocol by their bits; the check accepts exactly version 4, length 5, no further fragments and offset 0 |
| IpHeader.ComputeIpChecksum | hw/projects/reference_router/sw/scone/or_ip.c:235-260 | clears the field and returns the complement of the header's sum, for any header length |
| IpHeader.FilledIsCorrect | hw/projects/reference_router/sw/scone/or_ip.c:235-260 | a header filled with it has a correct sum |
| IpHeader.ForwardHeader | hw/projects/reference_router/sw/scone/or_ip.c:146-163 | a forwarded header passes the validity check again whatever its sum was; TTL one lower in 8 bits, so 0 becomes 255; TTL 1 stops the packet |
| NatSums.NatChecksum | hw/projects/reference_router/sw/scone/or_nat.c:509-521 | old plus pos minus neg modulo 65535 on all 16-bit inputs, through the underflow branch |
| NatSums.AdjustedOnHost | hw/projects/reference_router/sw/scone/or_nat.c:509-521 | the same for the values the words stand for, in either byte order |
| NatSums.ComputeNatChecksums | hw/projects/reference_router/sw/scone/or_nat.c:471-505 | the three cached sums are the negatives of address plus port, of address, and of port, in either byte order |
| NatSums.CachedPort | hw/projects/reference_router/sw/scone/or_nat.c:499-503 | the port's sum, formed without regard to byte order, is its negative on either host all the same |
| Nat.GetNatTableEntry | hw/projects/reference_router/sw/scone/or_nat.c:249-275 | the first entry whose side matches, -1 exactly if none does |
| Nat.Rewrite | hw/projects/reference_router/sw/scone/or_utils.c:213-298 | how every kind of packet is rewritten in place: TCP, UDP, echo, ICMP error, other ICMP, other protocols |
| Nat.RewriteQuote | hw/projects/reference_router/sw/scone/or_utils.c:243-290 | the packet quoted in an ICMP error is rewritten in place at its other end |
| Nat.FillIcmpChecksum | hw/projects/reference_router/sw/scone/or_icmp.c:147-170 | the ICMP checksum of the words the IP length names is cleared and formed anew |
| NatPackets.TransportStaysCorrect | hw/projects/reference_router/sw/scone/or_nat.c:52-92 | the rewritten packet has a correct TCP or UDP checksum if and only if the packet had, in both directions and byte orders |
| NatPackets.EchoStaysCorrect | hw/projects/reference_router/sw/scone/or_nat.c:99-103 | an echo's checksum is correct afterwards if and only if it was, unless all its other words are zero and checksum and identifier are or become zero |
| NatPackets.EchoReplyZeroed | hw/projects/reference_router/sw/scone/or_nat.c:99-103 | a correct echo reply with nothing but an identifier in it that is translated to one that is zero throughout and not correct |
| NatPackets.RefilledIsCorrect | hw/projects/reference_router/sw/scone/or_icmp.c:147-170 | the whole words of a translated ICMP error have a correct sum whatever it was |
| NatPackets.ErrorChecksum | hw/projects/reference_router/sw/scone/or_icmp.c:147-170 | the checksum of a translated ICMP error, over all its bytes, is correct if and only if its length is even or the last byte of the rewritten quote is 0; that byte is the message's own if the message holds the quoted words that are rewritten |
| NatPackets.OddErrorBroken | hw/projects/reference_router/sw/scone/or_icmp.c:152-152 | an ICMP error of 35 bytes with a correct checksum that every translation makes incorrect |
| NatPackets.QuotedHeaderStaysCorrect | hw/projects/reference_router/sw/scone/or_utils.c:249-258 | a header quoted in an error that had a correct sum has one afterwards if and only if the address replaced in it, which the lookup does not compare, has the same sum modulo 65535 as the entry's |
| NatPackets.QuoteStaysCorrect | hw/projects/reference_router/sw/scone/or_utils.c:243-262 | the same for the packet quoted in a message, as it is rewritten |
| NatPackets.RewrittenPreserves | hw/projects/reference_router/sw/scone/or_nat.c:52-194 | for every kind of packet, what a rewrite keeps of its kind, of the header words that decide its validity, and of its transport checksum, for ICMP errors with the condition of `ErrorChecksum` |
| NatPackets.HeaderStaysCorrect | hw/projects/reference_router/sw/scone/or_nat.c:117-117 | the IP header sum survives if and only if the replaced port is 0 or 65535, for every header whose first word is not zero |
| NatPackets.UdpWithoutChecksum | hw/projects/reference_router/sw/scone/or_nat.c:84-90 | a UDP checksum field of 0 stays 0 only for equal cached sums, or 0 against 65535 |
| Nat.ProcessNatExtPacket | hw/projects/reference_router/sw/scone/or_nat.c:52-121 | a packet of any protocol whose destination the table knows is rewritten to the inside pair of the first entry that has it, by `NatTrips` word for word; any other is left as it is |
| Nat.ProcessNatIntPacket | hw/projects/reference_router/sw/scone/or_nat.c:125-194 | a TCP, UDP or ICMP packet is rewritten to the external pair, through a new entry if need be, by `NatTrips` word for word; any other protocol dereferences a missing entry |
| NatTrips.InwardTransport | hw/projects/reference_router/sw/scone/or_nat.c:52-92 | a TCP or UDP packet from outside: words 8 and 9 of the header and the destination port become the inside pair of the first entry whose external pair they were, and no other word but the two checksums changes; without such an entry none does |
| NatTrips.InwardEcho | hw/projects/reference_router/sw/scone/or_nat.c:94-103 | the same for an echo or its reply, by the identifier |
| NatTrips.InwardError | hw/projects/reference_router/sw/scone/or_utils.c:243-290 | the same for an ICMP error, by the port or identifier of the packet it quotes, whose source becomes the inside pair too; of the quote only address, port or echo identifier, and checksums change |
| NatTrips.InwardOther | hw/projects/reference_router/sw/scone/or_utils.c:213-298 | the same for any other ICMP message, of which only address and header checksum change |
| NatTrips.OutwardTransport | hw/projects/reference_router/sw/scone/or_nat.c:125-194 | a TCP or UDP packet to outside: words 6 and 7 and the source port become the external pair of the first entry whose inside pair they were, or the drawn pair, then stored beside them at the end of the table; no other word but the two checksums changes |
| NatTrips.OutwardEcho | hw/projects/reference_router/sw/scone/or_nat.c:166-176 | the same for an echo or its reply |
| NatTrips.OutwardError | hw/projects/reference_router/sw/scone/or_utils.c:243-290 | the same for an ICMP error, the destination of its quote becoming the external pair; a new entry stores the first port of the quote |
| NatTrips.OutwardOther | hw/projects/reference_router/sw/scone/or_utils.c:213-298 | the same for any other ICMP message |
| NatTrips.AnswerComesBack | hw/projects/reference_router/sw/scone/or_nat.c:52-194 | a TCP or UDP packet sent out and answered with its ends exchanged, the table having grown in between: the answer comes to the pair it was sent from if and only if no earlier entry has its external pair, and from the pair it was sent to |
| NatTrips.EchoComesBack | hw/projects/reference_router/sw/scone/or_nat.c:52-194 | the same for an echo and its reply |
| NatTrips.IsUniqueNatExtPort | hw/projects/reference_router/sw/scone/or_nat.c:426-437 | whether a number is the stored port of no entry |
| NatTrips.DrawPort | hw/projects/reference_router/sw/scone/or_nat.c:201-210 | the first number drawn that is above 1024 and unique in that sense |
| NatTrips.StaysDistinct | hw/projects/reference_router/sw/scone/or_nat.c:201-223 | stored external ports stay different if and only if none was the drawn port in network byte order |
| NatTrips.AnswersComeHome | hw/projects/reference_router/sw/scone/or_nat.c:198-246 | on a big-endian host, over any run of packets to outside whose ports were drawn this way, the answer to every TCP or UDP packet of the run comes to where that was sent from |
| NatTrips.PortDrawnTwice | hw/projects/reference_router/sw/scone/or_nat.c:205-221 | on a little-endian host the same port is accepted for two senders, unless its two bytes are equal, and the answer to the second goes to the first |
| Nat.ForwardPacket | hw/projects/reference_router/sw/scone/or_ip.c:55-181 | for every protocol, with or without translation: it crashes if and only if the packet goes to the WAN and is neither TCP, UDP nor ICMP; otherwise a forwarded packet is the translated one with the TTL one lower, and passes the validity check; a TCP or UDP checksum is correct if and only if it was, that of an echo with a nonzero body too, and that of a translated ICMP error if and only if its length is even or its last byte 0 |
| Nat.TranslatedWays | hw/projects/reference_router/sw/scone/or_ip.c:70-144 | what comes from the WAN is translated inward, and what then goes to the WAN outward |
| NicRings.SlotsDiffer | sw/driver/open-nic-driver/onic_netdev.c:119-141 | distinct offsets in a ring are distinct slots |
| NicRings.TxQueue.RingFull | sw/driver/open-nic-driver/onic_netdev.c:125-129 | full exactly if all usable slots but one hold buffers |
| NicRings.TxQueue.FreeTail | sw/driver/open-nic-driver/onic_netdev.c:164-174 | frees the oldest buffer not freed yet |
| NicRings.TxQueue.TxClean | sw/driver/open-nic-driver/onic_netdev.c:143-176 | frees what the device has consumed, in order, and nothing else |
| NicRings.TxQueue.FillHead | sw/driver/open-nic-driver/onic_netdev.c:740-753 | the slot written holds no buffer in flight |
| NicRings.TxQueue.XmitFrame | sw/driver/open-nic-driver/onic_netdev.c:700-765 | when a buffer is accepted, that it joins the ring last, and when the device is told |
| NicRings.RunTx | sw/driver/open-nic-driver/onic_netdev.c:700-765 | over any interleaving of sends, cleans from the receive poll and writebacks, what is accepted, freed, published and consumed is a function of the steps; the ring holds exactly the buffers in flight, in order, and each is freed at most once, in order |
| NicRings.TxRunGrows | sw/driver/open-nic-driver/onic_netdev.c:143-176 | no accepted buffer is lost and no freed one comes back |
| NicRings.RxQueue.HighWatermark | sw/driver/open-nic-driver/onic_netdev.c:178-188 | fewer than 128 descriptors are posted |
| NicRings.RxQueue.Refill | sw/driver/open-nic-driver/onic_netdev.c:190-199 | 256 more are posted and the head stays behind the tail |
| NicRings.RxQueue.Oldest | sw/driver/open-nic-driver/onic_netdev.c:256-273 | the packet handed over is the oldest completed one, with its own length |
| NicRings.RxQueue.DeliverOne | sw/driver/open-nic-driver/onic_netdev.c:281-306 | both rings move past the oldest completed packet together, 128 to 383 descriptors staying posted |
| NicRings.RxQueue.RxPoll | sw/driver/open-nic-driver/onic_netdev.c:201-339 | what a poll does for every budget, number of completed packets, allocations and answers of the stack: it hands over the oldest packets in order until the budget is used, none is left or one fails, and says which; a refused one has been handed over and stays in the ring; a budget below 1 still delivers one |
| NicRings.ServedAll | sw/driver/open-nic-driver/onic_netdev.c:255-318 | where nothing fails, a poll delivers the smaller of budget and completed packets, one for a budget below 1, and refuses none |
| NicRings.RxQueue.PollLoop | sw/driver/open-nic-driver/onic_netdev.c:255-318 | the loop of a poll and how it came to an end |
| NicRings.RunRx | sw/driver/open-nic-driver/onic_netdev.c:201-339 | over any interleaving of completions and polls, the log of hand-overs, with each answer of the stack, is a function of the steps; what the device completed is handed over in order, each packet after the one before it was taken, and those not taken are still in the ring |
| NicRings.LoggedFlags | sw/driver/open-nic-driver/onic_netdev.c:273-277 | in the log of a poll all hand-overs were taken but the one it refused |
| NicRings.HandedTwice | sw/driver/open-nic-driver/onic_netdev.c:273-277 | a packet is handed to the stack again if and only if it was refused and anything is handed over after that |
| HexText.HexRoundTrip | tools/scripts/axitools.py:138-140 | a number written in hexadecimal with any padding reads back as itself |
| HexText.DecimalRoundTrip | tools/scripts/axitools.py:95-97 | a time written in decimal reads back as itself, without leading zeros |
| AxiText.FirstWordFields | tools/scripts/axitools.py:112-117 | for fewer than 65536 bytes the first TUSER word has that length, the ports given, for a port not given that of the supplied word, and the supplied word in all higher bits; the length reads back if and only if it is below 65536 |
| AxiText.LengthBits | tools/scripts/axitools.py:113-113 | for any length: bits 0 to 15 are its own, and a higher bit is set if it is set in the supplied word or in the length |
| AxiText.StrbRoundTrip | tools/scripts/axitools.py:139-139 | TSTRB reads back as the number of bytes in use |
| AxiText.DataRoundTrip | tools/scripts/axitools.py:138-138 | TDATA reads back as the bytes of the word, in packet order |
| AxiText.DataTextAt | tools/scripts/axitools.py:131-138 | byte k of a bus word is printed at place k from the right, as two hexadecimal digits |
| AxiText.FieldText | tools/scripts/axitools.py:139-140 | TSTRB has a one for each byte in use and TUSER is the word given, in hexadecimal, padded with zeros to their widths |
| AxiText.LineText | tools/scripts/axitools.py:137-141 | the three fields with comma and space between, and a full stop behind the last word of a packet, a comma behind any other |
| AxiText.ShortFieldIsTaken | tools/scripts/axitools.py:219-219 | a TDATA field shorter than the bus is read as if its leading zeros were there |
| AxiText.DelayIsRead | tools/scripts/axitools.py:193-201 | a delay line reads back as its mark and number |
| AxiText.FieldsRoundTrip | tools/scripts/axitools.py:193-212 | a line of three fields splits back into them |
| AxiText.WordIsRead | tools/scripts/axitools.py:199-231 | a written word is read into the packet it belongs to, padding dropped |
| AxiText.WordsAreRead | tools/scripts/axitools.py:158-237 | all words of a packet read back as that packet |
| AxiText.DumpIsRead | tools/scripts/axitools.py:158-237 | reading what was written gives all packets with bytes in them back, in order; packets without bytes leave no trace |
| AxiText.ExpectedFields | tools/scripts/axitools.py:221-227 | a packet read back has the same bytes, for fewer than 65536 of them the same length and all fields of the supplied first TUSER word that are not overridden, the ports given, and as further TUSER words those written, padded with zeros to the word count |
| AxiText.DumpWords | tools/scripts/axitools.py:119-144 | the loop over bus words |
| AxiText.DumpAll | tools/scripts/axitools.py:91-145 | the loop over packets, delay lines included |
| AxiText.AxisDump | tools/scripts/axitools.py:64-145 | the text written, which the rows on words, lines and delays spell out; nothing for a width that is not a whole number of bytes |
| AxiText.AxisLoad | tools/scripts/axitools.py:158-237 | the packets read and the time of each, or nothing for a malformed file |
| AxiText.RoundTrip | tools/scripts/axitools.py:64-237 | for any nonempty packets and any whole-byte width, loading what was dumped returns them |
| AxiClock.EndedIs | tools/scripts/axitools.py:122-144 | the writer's clock after a packet: its time and one period for every bus word or part of one |
| AxiClock.WordsClocked | tools/scripts/axitools.py:203-236 | the reader stamps a packet with the time of its first word and moves on one period for each word |
| AxiClock.DelayClocked | tools/scripts/axitools.py:92-97 | what the delay before a packet does to the reader's clock |
| AxiClock.TimesRead | tools/scripts/axitools.py:64-237 | the times that a file reads back with at its own period: each packet's own, later by all that packets up to it overlapped, and shifted because the first delay is written in nanoseconds and read in seconds |
| AxiClock.TimesKept | tools/scripts/axitools.py:64-237 | all times read back as given if and only if the first is 0 and no packet begins before the one before it has ended |

## Left out

- Sockets, registers, locks and thread loops, the command line, the web server and the hello protocol: each
  lock-protected section is one step, and clocks, drawn ports and allocation results are inputs.
- Router records removed while others still point at them: `Dijkstra.RouterDb` only grows, since after a removal the
  predecessor walk reads freed memory. Removal itself is modelled in `LinkStateDb`.
- Records with router id 0 or with duplicate ids in the shortest-path computation: the code does not reset
  the former, and LSU handling keeps ids distinct.
- Dijkstra.RouterDb.Learn: takes the reconciled interface list with its active flags as an input; the flags are
  computed in ActiveFlags.PropagateFlags, and the sequence-number test is in LinkStateDb.Database.ProcessLsu.
- Flooding.FloodDiesOut: the bound depends on a limit on the number of neighbours. An LSU of the receiver's own that a
  delivery triggers counts as a flood of its own.
- HopByHop.TripArrives: databases agree on routers, interface sets and active flags, in any order. FloodContents.Settles and
  FlagOrder.FlaggedAgree say when they come to; time is not part of that.
- Delivery.PrefixTripArrives: speaks of the entries for one prefix; a longer prefix that also matches a destination has a
  trip of its own. Interface lists are taken to know the neighbours that the records name.
- FloodContents.StoredIsOriginated: routers do not restart, and what they originate is masked, as their own records are.
- RouteEntries.LinkDownFails: begins with an interface without neighbours, because taking down one that has any reuses a freed
  node (or_iface.c:384-389).
- RoutingTable.RouterState.WriteRtableToHw: requires interface names that have a port number; for other names the
  source fails an assertion. The list surgery of the sort is an exchange in a sequence.
- ArpQueue.Arp.SendIp: on the wire means handed to the interface; that `send_packet` can fail there is not modelled.
- ArpQueue.Arp.DrainReplied: requires that the loop ends, because a method must; for all other inputs
  ArpQueue.DrainTerminatesExactly proves that the source never returns.
- ArpQueue.Arp.SendQueuedPackets: requires the same of the entry it drains.
- ArpTimeout.SendError: the TTL repair of the packet quoted in an error is not modelled.
- ArpTimeout.ProcessArpQueue: routes and our own addresses do not change during a pass.
- The ARP cache in hardware: it would only repeat the shape of the TCAM rows.
- Nat.ForwardPacket: requires the words that translation reads to be there, which the source does not check.
- NatTrips.AnswersComeHome: entries that time out or are set by hand are not part of a run.
- NatPackets.ErrorChecksum: requires an ICMP message of at least four bytes, which is as long as the fields in question.
- NicRings.RxQueue.RxPoll: completion colours, DMA mapping and NAPI bookkeeping are not modelled, and the device writes into
  the two arrays directly; the transmit cleans at its start are the `Clean` steps of NicRings.RunTx.
- AxiText.AxisLoad: number syntax beyond plain digits, and a sign on delays, is refused; times are exact instead of
  floating-point, and the logarithm is the exact integer one.
- AxiText.AxisDump: the caller's TUSER list is not consumed as the source does in place; times and period are whole nanoseconds, and
  ports have one byte.
- Other hardware, drivers, test harnesses and build scripts of the repository.
