# MeshDesk protocol cores: models and proofs

MeshDesk is a coordinator-free mesh VPN written in Go. This project models its protocol and algorithm
cores and proves what their code and documentation promise, over all inputs, all runs and all
interleavings. Code that updates state in place is modelled by classes and loops, each method proved
equal to a specification function of the old state; the theorems are then about those functions and
about runs of them.

Conventions. Clock readings, random bytes, probe results, session tables and the answers of other
nodes are parameters, run events or arbitrary choices. SHA-256, Ed25519, HMAC, AES-GCM, JSON and
white-space trimming are function parameters, with the assumed laws named in predicates (`Correct`,
`NoForgery`, `Faithful`, `Collisionless`). Go's unordered map iteration is an arbitrary choice of
the next key. 64-bit wrap-around is written out where the code can reach it. A mutex-protected
operation is one step of a run.

## Where code and documentation differ

- `QueryPath` is documented to return the lowest-latency path, and nil only for unreachable targets. It
  does neither once a node on the way is settled at hop 4 (`PathGuarantees.ChainIsCutOff`).
  - It does both on at most five nodes (`SmallGraphOptimal`).
  - Unless lowest-RTT walks both within and beyond four edges exist, its answer is one of them if and only
    if they are within four edges (`OptimalIffWithinCap`).
  - If both kinds exist, their lengths decide nothing: on one graph the answer is always nil, on another
    always optimal, whatever the iteration order (`MixedRoutes.LateIsCutOff`, `MixedRoutes.ApartIsFound`).
    It is optimal as soon as one lowest-RTT walk leaves no node that a lowest-RTT path reaches with exactly
    four edges (`ClearRouteOptimal`).
  - A target more than four edges away on every walk gets nil (`FarMeansNoPath`). Nil for a reachable target
    means that every walk to it leaves a node that a four-edge path reaches at no more cost (`NoPathNeedsCap`).
- A blacked-out transport is meant to stay failed. Closing a displaced current transport marks it
  active, even if it was blacked out (internal/mesh/peer_manager.go:786-793 and 1113-1120). A reachable
  run shows it (`BlackoutLoss.BlackoutCanBeLost`); `PeerHistory.BlackoutKeptIff` says exactly which
  events keep the property.
- The base cooldown is documented as the initial quarantine duration (internal/mesh/peer_manager.go:122-124).
  The counter is raised before the cooldown is computed, so the k-th quarantine in a row lasts
  min(base * 2^k, max) (`PeerCooldowns.KthQuarantine`). That is the documented min(base * 2^(k-1), max) if
  and only if the base is zero or the maximum is already reached (`DocumentedIff`). With the defaults the
  first quarantine lasts 60 s instead of 30 s (`FirstQuarantineDoubled`, `PeerQuarantine.FirstLastsSixty`).
- A /65 IPv6 subnet (63 host bits) is refused as too small, because `1 << 63` is negative
  (`Ipam.NewAllocator`).
- `AllocateAll` is documented as the assignment that every node converges on. It uses the number of keys as
  host count, while running nodes use the host count of the subnet (internal/mesh/tun_integration.go:359).
  Nodes converge on the canonical assignment for their own host count (`Ipam.NodesConverge`). It is that of
  `AllocateAll` if and only if no running node would move away from the latter (`LiveAgreesIff`), that is, if
  and only if every key's hashes lead to the same free slot with both counts, next to the slots of the smaller
  keys (`HostSlots.LiveSlotsAgreeIff`). In general it is not (`LiveCanDiffer`).
- The host count of running nodes is documented as the usable hosts of the subnet. It is that if and only if
  there are two host bits or more (`Ipam.LiveHostCount`): on a /31 it is 254, the allocator has two hosts, and
  every allocation is refused.
- The relay cooldown is documented to double with each failure. The clean-up of a table with more than 1024
  paths also drops failure counts, and it happens just before a retry. `RelayBackoffs.CleaningShortensIff`
  says exactly when it changes a decision, `RelayRuns.SecondWindowCanStaySame` is a run in which the window
  does not grow, and `RelayRuns.ClosedExactly` gives the window in every run.
- The META caches are documented to be capped. The dedup cache is; the sequence cache outgrows its cap by
  duplicates from new neighbours (`MetaFlood.CachesBounded`, `PeerSeqKeptIff`, `PeerSeqCanOverflow`).
- A join nonce can be accepted a second time with another signed token, once it is forgotten
  (`JoinRuns.NonceAcceptedAgainIff`, `NonceAcceptedTwice`); the same nonce and expiry never are
  (`TokenAcceptedOnce`).
- An issued join token is documented as single-use (docs/JOIN_GUIDE.md:216-217). The signed material joins nonce
  and server fingerprint without a separator, and a token without a fingerprint is accepted. So the material of
  a token issued for this server has exactly two readings that the server takes (`JoinTokens.TwoReadings`).
  Each reading is single-use (`AcceptedTwice`), every issued token gives at most two bundles (`AtMostTwice`,
  `BundlesPerIssuedToken`), and two are reached (`BothReadingsAccepted`).
- `VerifyHashChain` is documented to verify a log file. A file left by the logger passes if and only if it is
  empty or holds the first line ever logged (`AuditRetention.RunVerifiesIff`). Until the backups are full the
  oldest file passes (`OldestVerifies`), and so does a log that was never rotated (`NeverRotatedVerifies`). A file
  that continues the chain is rejected, although nothing in it was changed (`SecondLineRejected`).
- A punch request whose key has fewer than four bytes loses the key and also its ports and flags, so one
  without a key is restored only if those are all zero. A request with an empty endpoint is not restored
  either (`PunchCodec.RequestRoundTripIff`).

## Files

| files | component |
|---|---|
| Graphs, NodeHeap, PathSearch, LatencyGraph, PathGuarantees, GraphSync | latency graph and path server |
| KeyOrder, AddressClaims, Ipam, HostSlots | deterministic address allocation and its convergence |
| PeerState, PeerManager, PeerInvariants, PeerChoices, PeerHistory, PeerBudget, PeerCooldown, PeerQuarantine | per-peer connection manager |
| SecureConn | encrypted record stream |
| AuditChain, AuditLogger | audit hash chain, rotation, restart |
| RelayBackoff, RelayForwarding | relay cooldowns and multi-hop relaying |
| MetaFlood, MetaHistory | META gossip flood |
| JoinServer, JoinAnswers, JoinTokens | join tokens and challenges |
| StreamGuard | UDP stream-creation guard |
| PunchCodec | hole-punch coordination frames |
| Arithmetic, Bytes, Collections, Options | shared vocabulary |

## Model

| member | source | states |
|---|---|---|
| `NodeHeaps.NodeHeap.Push` | internal/mesh/path_server.go:230-239 | the queue stays heap-ordered and gains exactly the pushed item |
| `NodeHeaps.NodeHeap.Pop` | internal/mesh/path_server.go:241-247 | the removed item is a nearest one, the rest stays heap-ordered and nothing else is lost |
| `NodeHeaps.NodeHeap.SiftDown` | internal/mesh/path_server.go:230-247 | restores heap order below the root without losing an item or touching the tail |
| `NodeHeaps.RootIsLeast` | internal/mesh/path_server.go:235-239 | in a heap-ordered queue no item is nearer than the root |
| `LatencyGraphs.LatencyGraph.QueryPath` | internal/mesh/path_server.go:149-214 | every answer is a repetition-free walk of at most four stored edges from source to target, no dearer than any walk that leaves no node settled at hop 4; no answer means no such walk; what is left behind is a shortest-path tree cut at the cap, in which ties go to the nearest parent; the search and the walk back terminate |
| `LatencyGraphs.LatencyGraph.RelaxNeighbours` | internal/mesh/path_server.go:196-210 | relaxing the edges of a settled node, in any order, keeps the whole search invariant; nothing is relaxed at the hop cap |
| `LatencyGraphs.LatencyGraph.Reconstruct` | internal/mesh/path_server.go:185-192 | following the prev links backwards yields exactly the labelled walk |
| `PathSearch.PoppedIsNearest` | internal/mesh/path_server.go:172-183 | with stale entries left in the queue, the first unvisited popped node is still a nearest unsettled one |
| `PathSearch.SettleKeepsInv` | internal/mesh/path_server.go:176-183 | settling the popped node keeps labels, queue and relaxation invariants |
| `PathSearch.ImproveKeepsInv` | internal/mesh/path_server.go:202-209 | a better label keeps every label a cheapest-known repetition-free walk with the right hop count |
| `PathSearch.SkipKeepsInv` | internal/mesh/path_server.go:199-206 | passing over settled, capped or no-better neighbours loses nothing |
| `PathSearch.NearestIsCheapest` | internal/mesh/path_server.go:149-214 | the label of a nearest unsettled node is the cheapest among all walks that leave no capped node |
| `PathSearch.CappedWitness` | internal/mesh/path_server.go:199-201 | every capped node was reached by its own cheapest four-edge walk that misses the target |
| `PathSearch.FoundAnswers` | internal/mesh/path_server.go:180-194 | popping the target finishes the query with a correct answer |
| `PathSearch.ExhaustedAnswers` | internal/mesh/path_server.go:212-214 | an empty queue means no walk to the target leaves only uncapped nodes |
| `PathGuarantees.SmallGraphOptimal` | internal/mesh/path_server.go:140-214 | on at most five nodes the answer is a global optimum and no answer means unreachable |
| `PathGuarantees.DirectEdgeBound` | internal/mesh/path_server.go:149-214 | on every graph a stored direct edge guarantees an answer that costs no more |
| `PathGuarantees.DirectEdgePreferred` | internal/mesh/path_server.go:145-214 | with positive RTTs a stored direct edge is itself the answer, unless the answer is strictly cheaper |
| `PathGuarantees.ShortRoutesOptimal` | internal/mesh/path_server.go:199-201 | if every lowest-RTT walk has at most four edges, the answer is one of them |
| `PathGuarantees.OptimalIffWithinCap` | internal/mesh/path_server.go:199-201 | unless lowest-RTT walks both within and beyond the cap exist, the answer is a global optimum if and only if they are within it |
| `PathGuarantees.ClearRouteOptimal` | internal/mesh/path_server.go:199-201 | the answer is optimal as soon as one lowest-RTT walk leaves only nodes that no lowest-RTT path reaches with exactly four edges |
| `PathGuarantees.FarMeansNoPath` | internal/mesh/path_server.go:199-214 | a target more than four edges away on every walk gets no answer |
| `PathGuarantees.NoPathNeedsCap` | internal/mesh/path_server.go:199-214 | no answer means that every walk to the target leaves a node that a repetition-free four-edge path avoiding the target reaches at no more cost |
| `PathSearch.ParentEdge` | internal/mesh/path_server.go:202-208 | every label extends that of its parent by one stored edge, in RTT and in hops |
| `MixedRoutes.LateIsCutOff` | internal/mesh/path_server.go:195-209 | a graph with lowest-RTT walks of four and five edges on which the answer is nil in every iteration order |
| `MixedRoutes.ApartIsFound` | internal/mesh/path_server.go:195-209 | a graph with lowest-RTT walks of four and five edges on which the answer is optimal in every iteration order |
| `PathGuarantees.ChainIsCutOff` | internal/mesh/path_server.go:199-201 | on a chain of six nodes the reachable far end gets no answer |
| `LatencyGraphs.LatencyGraph.UpdateFromReport` | internal/mesh/path_server.go:36-54 | afterwards the source has exactly the edges that the report names with a positive RTT, measured now, and every other edge is as before; an empty report, or one without a source, changes nothing |
| `LatencyGraphs.LatencyGraph.MergeFromSync` | internal/mesh/path_server.go:58-72 | in whatever order maps are visited, the result is the newest-wins merge |
| `LatencyGraphs.LatencyGraph.PruneStaleEdges` | internal/mesh/path_server.go:77-94 | deleting while iterating removes exactly the stale edges and the sources left without any |
| `LatencyGraphs.LatencyGraph.ExportForSync` | internal/mesh/path_server.go:100-111 | the export holds every stored edge and nothing else |
| `GraphSync.MergeEdge` | internal/mesh/path_server.go:58-72 | each edge of a merge is the newest of the two measurements, local on a tie |
| `GraphSync.ReportEdge` | internal/mesh/path_server.go:36-54 | the same edge by edge, for the value of the graph |
| `GraphSync.PruneEdge` | internal/mesh/path_server.go:77-94 | pruning keeps exactly the edges measured at the cutoff or later |
| `GraphSync.MergeIdempotent` | internal/mesh/path_server.go:58-72 | merging the same graph again changes nothing |
| `GraphSync.MergeAssociative` | internal/mesh/path_server.go:58-72 | the grouping of merges never matters, ties included |
| `GraphSync.MergeCommutesIff` | internal/mesh/path_server.go:58-72 | two merges commute if and only if equal timestamps carry equal entries |
| `GraphSync.SyncConverges` | internal/mesh/path_server.go:58-111 | two nodes that saw the same graphs, in any order and any number of times, hold the same edges |
| `GraphSync.PruneCommutesWithMerge` | internal/mesh/path_server.go:58-94 | pruning before or after a merge gives the same graph |
| `GraphSync.OperationsKeepPositive` | internal/mesh/path_server.go:36-94 | reports, merges and pruning keep all stored RTTs positive |
| `Ipam.NewAllocator` | internal/ipam/ipam.go:57-92 | accepts exactly the subnets with 1 to 62 host bits, and what it builds is a valid allocator |
| `Ipam.LiveHostCount` | internal/mesh/tun_integration.go:765-783 | for every accepted subnet the host count of running nodes is the allocator's if and only if there are two host bits or more, and otherwise it is out of range |
| `Ipam.SubnetRoom` | internal/ipam/ipam.go:107-136 | an aligned subnet ends within the address space, so no carry runs off the front |
| `Ipam.HostAddress` | internal/ipam/ipam.go:107-136 | every host number denotes an address inside the subnet, never the network or broadcast address when there are two host bits or more |
| `Ipam.CarryStep` | internal/ipam/ipam.go:127-133 | one byte of the carry loop conserves address value plus carry |
| `Ipam.AddOffset` | internal/ipam/ipam.go:127-133 | the in-place loop adds the offset to the big-endian value; only a carry out of the first byte can be lost |
| `Ipam.HostNumberToIP` | internal/ipam/ipam.go:107-136 | defined exactly for usable host numbers, and equal to network value plus offset |
| `Ipam.HashToSlot` | internal/ipam/ipam.go:145-158 | the slot lies within the host count |
| `Ipam.AllocateWithPeers` | internal/ipam/ipam.go:201-282 | the result is the first address over the salts that no peer claims whose key is smaller in the order of characters; an error exactly when smaller keys claim the addresses of all 1001 salts, or the host count is out of range |
| `Ipam.AllocateAll` | internal/ipam/ipam.go:297-326 | computes the canonical assignment in key order, or fails exactly when that assignment does not exist |
| `Ipam.AllocateWithClaimed` | internal/ipam/ipam.go:332-345 | the first salted candidate that is not claimed |
| `Ipam.AllocationSound` | internal/ipam/ipam.go:297-345 | all keys served, no two share an address, every address is a usable host address |
| `Ipam.AllocationOrderFree` | internal/ipam/ipam.go:297-326 | the result does not depend on the order in which keys are given |
| `Ipam.AllocationIsTheStableOne` | internal/ipam/ipam.go:186-345 | with the number of keys as host count, AllocateAll's result is the one set of claims that no node would change by re-running AllocateWithPeers |
| `Ipam.LiveClaimsStableIff` | internal/ipam/ipam.go:186-282 | for every host count, the claims that no node would change are exactly the canonical assignment for that count |
| `Ipam.SmallerKeyWins` | internal/ipam/ipam.go:186-345 | of two keys that hash to the same slot first, the one with the smaller character at their first difference has it, if no smaller key claims it, and the other one has not; for every host count |
| `Ipam.LiveAssignmentSound` | internal/ipam/ipam.go:201-345 | for every host count the canonical assignment serves all keys with different usable host addresses |
| `Ipam.NodesConverge` | internal/mesh/tun_integration.go:342-380 | running nodes, which all use one host count, converge from any claims and beliefs, with claims up to d rounds late, on the canonical assignment for that count, with different usable host addresses |
| `Ipam.LiveAgreesIff` | internal/ipam/ipam.go:283-326 | the running nodes' assignment is AllocateAll's if and only if no running node would move away from the latter |
| `HostSlots.FreeSlotIff` | internal/ipam/ipam.go:332-345 | a slot is found if and only if the first salt that hashes to a free slot hashes to it |
| `HostSlots.PickIsSlot` | internal/ipam/ipam.go:332-345 | the search among addresses is the search among slots |
| `HostSlots.AssignHouses` | internal/ipam/ipam.go:297-345 | the canonical assignment exists if and only if the slots do, and gives every key the address of its slot |
| `HostSlots.LiveSlotsAgreeIff` | internal/ipam/ipam.go:283-345 | the running nodes' assignment is AllocateAll's if and only if every key finds the same slot with both host counts, next to the slots of the smaller keys; so it is when the counts are equal |
| `Ipam.LiveCanDiffer` | internal/ipam/ipam.go:283-326 | a subnet and a key for which the two assignments differ |
| `AddressClaims.StableIffAssigned` | internal/ipam/ipam.go:186-282 | for any deterministic pick, claims are stable if and only if they are the canonical assignment |
| `AddressClaims.SettledInjective` | internal/ipam/ipam.go:297-345 | settled claims never collide |
| `AddressClaims.LowerClaimsIff` | internal/ipam/ipam.go:253-264 | an address is off limits if and only if a key that is smaller in the order of characters claims it |
| `Convergence.FinalStays` | internal/mesh/tun_integration.go:342-380 | no re-allocation of any node and no claim on its way, delivered in any order, repeatedly or late, disturbs the keys that are already final |
| `Convergence.RoundProgress` | internal/mesh/tun_integration.go:342-380 | once only final claims of the final keys are on their way, one fair round makes the next smallest key final |
| `Convergence.PhaseProgress` | internal/mesh/tun_integration.go:342-380 | d + 1 fair rounds outlast every claim sent before, and make the next smallest key final |
| `Convergence.RoundsMakeFinal` | internal/ipam/ipam.go:186-282 | with claims up to d rounds late, after i * (d + 1) fair rounds the i smallest keys have their final address, from arbitrary claims, beliefs and messages |
| `Convergence.Converges` | internal/ipam/ipam.go:186-282 | with claims up to d rounds late, n * (d + 1) fair asynchronous rounds reach the canonical assignment from any start, and nothing changes it afterwards |
| `KeyOrder.LessIff` | internal/ipam/ipam.go:259-310 | a key comes first if and only if at the first difference it ends or has the smaller character |
| `KeyOrder.SortOrderFree` | internal/ipam/ipam.go:307-310 | sorting forgets the input order |
| `PeerManagers.StartPeer` | internal/mesh/peer_manager.go:396-492 | refused exactly without transports; otherwise connecting with the first cycle begun |
| `PeerManagers.PeerManager.constructor` | internal/mesh/peer_manager.go:396-492 | the initial state of every run |
| `PeerManagers.PeerManager.Dispatch` | internal/mesh/peer_manager.go:624-675 | one turn of the loop does exactly the step of the event picked and keeps the one-connection invariant of the object |
| `PeerManagers.PeerManager.Serve` | internal/mesh/peer_manager.go:624-675 | so does the loop over any feasible sequence of events |
| `PeerManagers.PeerManager.StartConnectCycle` | internal/mesh/peer_manager.go:682-721 | dials the first usable transport under a new generation and arms the hedge timer exactly when another is usable; with none usable the longest-quarantined one, with all failed nothing |
| `PeerManagers.PeerManager.StartFallbackDial` | internal/mesh/peer_manager.go:724-732 | dials the first usable transport that is not in flight, in the same generation, and nothing exactly when there is none |
| `PeerManagers.PeerManager.HandleDialResult` | internal/mesh/peer_manager.go:763-835 | a result of an older generation changes nothing but the list of pending results; a success is promoted, a failure is counted |
| `PeerManagers.PeerManager.Promote` | internal/mesh/peer_manager.go:778-805 | the winner is current, holds the connection and has a clean record, the transport it displaced holds none, no other transport changes, and no dial or timer is left |
| `PeerManagers.PeerManager.RecordFailure` | internal/mesh/peer_manager.go:807-828 | below the threshold the transport stays available; at it, one more quarantine, failed exactly at the blackout threshold, ending min(base * 2^k, max) later |
| `PeerManagers.PeerManager.OnAllDialsFailed` | internal/mesh/peer_manager.go:838-852 | the retry timer exactly when some transport is usable, else an expiry check |
| `PeerManagers.PeerManager.OnProbeTick` | internal/mesh/peer_manager.go:858-875 | per phase: nothing, expiry check and possibly a new cycle, or probing and switching |
| `PeerManagers.PeerManager.CheckQuarantineExpiry` | internal/mesh/peer_manager.go:880-898 | exactly the quarantines whose cooldown is over recover, with their failures forgotten; without any nothing changes; a new cycle starts only when connecting and idle |
| `PeerManagers.PeerManager.RecoverExpired` | internal/mesh/peer_manager.go:880-893 | every quarantined transport whose cooldown has passed becomes active with no failures, every other one is untouched |
| `PeerManagers.PeerManager.ProbeTransports` | internal/mesh/peer_manager.go:902-972 | quarantined and failed transports are left untouched, except a quarantined reality; any other fails for good, or becomes active, exactly as its probe says |
| `PeerManagers.PeerManager.SwitchTo` | internal/mesh/peer_manager.go:1113-1129 | nothing is current any more, the old connection is closed, the target is first choice and, if usable, dialled |
| `PeerManagers.PeerManager.HandleReconnect` | internal/mesh/peer_manager.go:1134-1159 | no connection, failure, quarantine or blackout is left, and one dial of a new generation has started |
| `PeerManagers.PeerManager.ShutDown` | internal/mesh/peer_manager.go:1164-1180 | the peer is disconnected and no transport holds a connection |
| `PeerManagers.PeerManager.CandidateTransports` | internal/mesh/peer_manager.go:1186-1202 | the available transports in priority order |
| `PeerManagers.PeerManager.BlackoutEscapeCandidates` | internal/mesh/peer_manager.go:1208-1232 | at most one transport, the result of the escape scan |
| `PeerManagers.PeerManager.ReorderTransports` | internal/mesh/peer_manager.go:1235-1244 | target first, the others in their old order |
| `PeerManagers.PeerManager.CooldownDuration` | internal/mesh/peer_manager.go:1281-1293 | the doubling loop yields min(base * 2^n, max) |
| `PeerState.CooldownFormula` | internal/mesh/peer_manager.go:1281-1293 | stopping the doubling early at the maximum does not change the result |
| `PeerCooldowns.StepCounts` | internal/mesh/peer_manager.go:763-828 | every event clears, raises or keeps a transport's quarantine count, and a raise fixes the end of the cooldown |
| `PeerCooldowns.KthQuarantine` | internal/mesh/peer_manager.go:807-823 | in every run from Start the k-th quarantine in a row lasts min(base * 2^k, max) |
| `PeerCooldowns.DocumentedIff` | internal/mesh/peer_manager.go:122-127 | this is the documented min(base * 2^(k-1), max) if and only if the base is zero or the documented value is already the maximum |
| `PeerCooldowns.FirstQuarantineDoubled` | internal/mesh/peer_manager.go:205-206 | with the defaults every first quarantine lasts 60 s |
| `PeerCooldowns.FirstQuarantineAfter` | internal/mesh/peer_manager.go:1262-1276 | the first quarantine comes with the configured number of failures in a row, else with the second for websocket and reality and the third for all others, and not before |
| `PeerQuarantine.QuarantineEndsIff` | internal/mesh/peer_manager.go:624-1159 | an event leaves a quarantine as it is if and only if it is no Reconnect, dial or dial result of the transport, deciding probe of reality or loss of its own connection, and no expiry check after its cooldown |
| `PeerQuarantine.QuarantineLasts` | internal/mesh/peer_manager.go:807-893 | in every run from Start a transport quarantined for the k-th time in a row stays so, failures included, for min(base * 2^k, max) on the clock, unless such an event ends it early |
| `PeerQuarantine.QuarantineIsOver` | internal/mesh/peer_manager.go:880-898 | the first expiry check after that time makes it available again, with no failure counted |
| `PeerQuarantine.FirstLastsSixty` | internal/mesh/peer_manager.go:205-206 | with the defaults a first quarantine lasts 60 s |
| `PeerInvariants.CandidatesExact` | internal/mesh/peer_manager.go:1186-1202 | candidates are exactly the configured transports neither quarantined nor failed |
| `PeerInvariants.EscapeIsOldest` | internal/mesh/peer_manager.go:1208-1232 | the escape picks a longest-quarantined transport, and none exactly when nothing is quarantined |
| `PeerInvariants.PrimaryChoice` | internal/mesh/peer_manager.go:682-721 | a cycle never dials a failed transport and starts nothing exactly when all are failed |
| `PeerChoices.CandidatesInOrder` | internal/mesh/peer_manager.go:1186-1202 | candidates are exactly the usable transports, in priority order |
| `PeerChoices.ReorderInOrder` | internal/mesh/peer_manager.go:1235-1244 | reordering puts the target first and keeps the order of the others |
| `PeerChoices.CycleExact` | internal/mesh/peer_manager.go:682-721 | what a cycle dials and arms, from the transports' states alone |
| `PeerChoices.FallbackExact` | internal/mesh/peer_manager.go:724-732 | what the hedge dials, from the transports' states alone |
| `PeerChoices.StartDials` | internal/mesh/peer_manager.go:396-492 | Start dials the first transport and arms the hedge timer exactly when there are others |
| `PeerChoices.SwitchDialsTarget` | internal/mesh/peer_manager.go:1113-1129 | a switch dials its target under a new generation |
| `PeerChoices.TickDialsIff` | internal/mesh/peer_manager.go:858-898 | a tick while connecting dials one transport if and only if nothing is in flight, and a cooldown is over or some transport is usable with no retry due |
| `PeerInvariants.StepKeepsInv` | internal/mesh/peer_manager.go:624-675 | every event keeps: connected exactly when there is a current transport, which holds a connection and no other does |
| `PeerInvariants.ReachableInv` | internal/mesh/peer_manager.go:624-835 | the same in every state reachable from Start under every interleaving |
| `PeerHistory.ReconnectForgetsOldDials` | internal/mesh/peer_manager.go:763-775 | no dial started before a Reconnect is ever promoted after it, whenever its result arrives |
| `PeerHistory.BlackoutKeptIff` | internal/mesh/peer_manager.go:786-793 | an event keeps every blacked-out transport failed if and only if it does not displace a blacked-out current transport |
| `PeerHistory.ReachableBlackout` | internal/mesh/peer_manager.go:763-1159 | from Start, every run without such a displacement keeps blacked-out transports failed |
| `BlackoutLoss.BlackoutCanBeLost` | internal/mesh/peer_manager.go:786-793 | a run from Start that ends with a blacked-out transport active again |
| `PeerBudget.RunSpendsBudget` | internal/mesh/peer_manager.go:763-898 | failures counted plus budget left never exceed the budget before, over every run without promotion, Reconnect or shutdown |
| `PeerBudget.FailureBudget` | internal/mesh/peer_manager.go:763-898 | such a run from Start counts at most the sum of threshold times blackout threshold |
| `PeerBudget.SpentForGood` | internal/mesh/peer_manager.go:838-898 | once the budget is counted every transport is failed and no later such run starts a dial |
| `SecureConns.NewSecureConn` | internal/crypto/secure_conn.go:121-145 | refused exactly for wrong key sizes; counters start at zero |
| `SecureConns.SecureConn.Read` | internal/crypto/secure_conn.go:160-219 | length, nonce and tag checks in this order, the exact bytes consumed, the receive counter after each outcome, and what of the caller's buffer is written |
| `SecureConns.SecureConn.Write` | internal/crypto/secure_conn.go:228-265 | one frame under the current counter, which advances even if the connection takes only part of it |
| `SecureConns.SecureConn.SetKeys` | internal/crypto/secure_conn.go:315-338 | both keys or neither, counters carry on |
| `SecureConns.CloseThenUse` | internal/crypto/secure_conn.go:267-277 | after Close every read and write is refused, however the connection is used and rekeyed, and neither byte streams nor counters move |
| `SecureConns.NonceRoundTrip` | internal/crypto/secure_conn.go:347-355 | the counter is recovered from its nonce |
| `SecureConns.FrameLayout` | internal/crypto/secure_conn.go:228-265 | where the length, the four zero bytes, every byte of the counter and the ciphertext are in a record |
| `SecureConns.ReceiveOutcomes` | internal/crypto/secure_conn.go:160-219 | exactly when a read ends the stream, refuses a replay, fails to authenticate or succeeds, by position on the wire, with the counter and the bytes left after each |
| `SecureStream.AcceptedInOrder` | internal/crypto/secure_conn.go:160-219 | whatever bytes arrive, if none of the records read is forged, accepted plaintexts are written ones at strictly increasing positions |
| `SecureStream.AcceptedIsPrefix` | internal/crypto/secure_conn.go:160-219 | under the same assumption a reader that stops at the first error holds a prefix of what was written |
| `SecureStream.HonestDelivery` | internal/crypto/secure_conn.go:160-265 | on an honest wire with large enough buffers the reader gets exactly what was written |
| `SecureStream.HonestWire` | internal/crypto/secure_conn.go:228-265 | the writer's own frames meet the no-forgery assumption, so it is consistent with a correct cipher |
| `SecureStream.CountersUniqueIff` | internal/crypto/secure_conn.go:228-338 | across any SetKeys sequence no counter repeats if and only if at most 2^64 messages are sealed |
| `AuditChain.SplitRender` | internal/auth/audit_helpers.go:20-27 | splitting a file of complete lines gives back those lines |
| `AuditChain.VerifyHashChain` | internal/auth/audit.go:331-360 | accepts a file if and only if its non-blank lines form an unbroken chain from sequence 1 |
| `AuditChain.ChainedIff` | internal/auth/audit.go:331-360 | an unbroken chain spelled out: every record parses, counts on from 1 modulo 2^64 and names the hash of the one before |
| `AuditChain.RecordsSplit` | internal/auth/audit.go:336-342 | records are taken line by line |
| `AuditChain.RecordsOne` | internal/auth/audit.go:336-342 | a blank line gives no record, any other its trimmed text |
| `AuditChain.LastRecordDetermines` | internal/auth/audit.go:331-360 | with a collision-free hash, the last record of an accepted file determines all its records |
| `AuditChain.ScanChain` | internal/auth/audit.go:243-272 | sequence number and hash of the last line that parses |
| `AuditChain.ScanIsLast` | internal/auth/audit.go:243-272 | the last line that parses decides, and there is no result exactly when none does |
| `AuditLoggers.ShiftEffect` | internal/auth/audit.go:94-106 | shifting backups from the oldest down overwrites none before it has moved |
| `AuditLoggers.RotateEffect` | internal/auth/audit.go:80-119 | rotation empties the current file, makes it backup 1 and keeps the newest backups in order |
| `AuditLoggers.AuditLogger.constructor` | internal/auth/audit.go:158-209 | the chain state is that of the newest file with a parsable line |
| `AuditLoggers.AuditLogger.RecoverChain` | internal/auth/audit.go:215-238 | current file first, then backups 1 to 5, stopping at the first with a parsable line |
| `AuditLoggers.RecoversNewest` | internal/auth/audit.go:215-238 | the first of the current file and backups 1 to 5 with a parsable line decides; without one the chain starts anew |
| `AuditLoggers.AuditLogger.Log` | internal/auth/audit.go:275-306 | one line with the next sequence number and the previous hash, then rotation if due |
| `AuditLoggers.AuditLogger.MaybeRotate` | internal/auth/audit.go:80-119 | the shifting loop does exactly the specified rotation, and only at the size limit |
| `AuditRetention.LogKeeps` | internal/auth/audit.go:275-306 | logging keeps the retained files a contiguous suffix of the chained history |
| `AuditRetention.RestartKeeps` | internal/auth/audit.go:215-238 | a restart changes nothing: sequence number and hash continue |
| `AuditRetention.RunRetains` | internal/auth/audit.go:80-306 | after any run of logs, rotations and restarts the files, oldest to newest, are a contiguous suffix of a history in which each line names the hash of the one before, and all of it until the backups are full; the logger's state matches the last line |
| `AuditRetention.LinesExact` | internal/auth/audit.go:275-306 | line i of every run encodes the fields of log i, its number and the hash of the line before, and there are no others |
| `AuditRetention.UnlimitedKeepsAll` | internal/auth/audit.go:80-86 | without a size limit nothing ever rotates: the one file holds every line |
| `AuditRetention.RunSized` | internal/auth/audit.go:80-119 | with a limit, in every run the current file is below it and every backup has reached it |
| `AuditRetention.PartChainedIff` | internal/auth/audit.go:331-360 | a stretch of the history passes on its own if and only if it is empty or starts with the first line |
| `AuditRetention.FileVerifiesIff` | internal/auth/audit.go:80-360 | a retained file passes verification if and only if it is empty or it and the newer files hold all that was ever logged |
| `AuditRetention.RunVerifiesIff` | internal/auth/audit.go:80-360 | the same for every file left by any run of logs, rotations and restarts |
| `AuditRetention.OldestVerifies` | internal/auth/audit.go:80-360 | until the backups are full the oldest file passes |
| `AuditRetention.SecondLineRejected` | internal/auth/audit.go:80-360 | a run of two logs after which the file with the second line, the current one or backup 1, is rejected |
| `AuditRetention.NeverRotatedVerifies` | internal/auth/audit.go:275-360 | a log that was never rotated passes verification, however often the logger was restarted |
| `RelayBackoffs.CooldownExact` | internal/mesh/relay_dialer.go:106-123 | for every failure count the cooldown is exactly min(30 s * 2^(n-1), 10 min), even where the 64-bit shift wraps |
| `RelayBackoffs.SharedEntryIff` | internal/mesh/relay_dialer.go:71-73 | two paths share an entry if and only if the first 16 characters of target and relay agree, or run together at a bar; with targets of 16 characters and more only the former |
| `RelayBackoffs.LongShift` | internal/mesh/relay_dialer.go:106-123 | a wrapped shift is never mistaken for a value between base and cap |
| `RelayBackoffs.CleaningKeepsNextDecision` | internal/mesh/relay_dialer.go:83-101 | dropping expired entries does not change whether the next attempt may be made, now or later |
| `RelayBackoffs.CleaningShortensIff` | internal/mesh/relay_dialer.go:90-123 | it changes the decision after the next failure if and only if the path had failed before, its cooldown was over, and the question falls between the first window and the one that was due |
| `RelayRuns.CountsSinceForgotten` | internal/mesh/relay_dialer.go:83-136 | over every run the failure count of a path is the number of its failures since its last success or the last clean-up that found its cooldown over |
| `RelayRuns.ClosedExactly` | internal/mesh/relay_dialer.go:83-136 | over every run a path whose last outcome is a failure may be tried again exactly when the promised window for that count is over |
| `RelayRuns.SecondWindowCanStaySame` | internal/mesh/relay_dialer.go:90-98 | a run in which two failures in a row close the path for 30 s each |
| `RelayBackoffs.RelayBackoff.Allowed` | internal/mesh/relay_dialer.go:83-101 | the answer ignores the clean-up done on the way |
| `RelayBackoffs.RelayBackoff.MarkFailed` | internal/mesh/relay_dialer.go:106-123 | one more failure and the next try time, for this path only |
| `RelayBackoffs.RelayBackoff.MarkSuccess` | internal/mesh/relay_dialer.go:127-136 | the path is open at any time and its next failure counts as its first; decisions and counts of all other paths are as before |
| `RelayForwarding.HandleRequest` | internal/mesh/relay_handler.go:177-440 | forwarding terminates for every request and all surroundings; a loop-free request leads only to loop-free requests that extend its path |
| `RelayForwarding.DialViaRelay` | internal/mesh/relay_dialer.go:386-451 | the outcome of trying the candidates in order; the relay used is a candidate, not this node and not on the path |
| `RelayForwarding.TryRelayFallback` | internal/mesh/relay_dialer.go:484-671 | whichever of the three stages succeeds, the serving relays are distinct and each was told exactly those before it |
| `RelayForwarding.DialTarget` | internal/mesh/relay_dialer.go:386-671 | the relays serving a dial are one to three, pairwise distinct, and each received exactly the relays before it as Path |
| `RelayForwarding.FirstServes` | internal/mesh/relay_dialer.go:411-440 | a dial through candidates succeeds with a chain if and only if it is that of the first candidate that is allowed, off the path, reached and serves when its turn comes |
| `RelayForwarding.StagesInOrder` | internal/mesh/relay_dialer.go:484-529 | a guided relay that serves is preferred to all others, then the last working relay to the candidates |
| `RelayForwarding.RouteFound` | internal/mesh/relay_handler.go:387-440 | if a loop-free route of at most three willing relays exists throughout, the dial succeeds |
| `MetaNodes.DedupInjective` | internal/mesh/meta_exchange.go:475-482 | different (key, sequence) pairs have different dedup keys, bars in keys included |
| `MetaNodes.MetaExchanger.Apply` | internal/mesh/meta_exchange.go:167-298 | both caches, the raised TTL, and the recipients: exactly the session peers other than forwarder and originator, each as often as listed, if and only if the TTL is below 4 and the message is neither stale nor a duplicate |
| `MetaFlood.DeliveryFloods` | internal/mesh/meta_exchange.go:280-297 | a delivery takes one packet out of flight and, if the message is accepted with a TTL below 4, puts in one with TTL + 1 per such peer, and nothing else |
| `MetaHistory.AppliedExactly` | internal/mesh/meta_exchange.go:167-187 | while the caches are not full, a message is applied if and only if it is newer than everything its neighbour sent before, and no such message with the same originator and number came earlier |
| `MetaFlood.CachesBounded` | internal/mesh/meta_exchange.go:300-310 | over every run the dedup cache stays within its cap, and the sequence cache exceeds its cap by at most the arrivals since a message was last applied |
| `MetaFlood.PeerSeqKeptIff` | internal/mesh/meta_exchange.go:172-187 | one arrival keeps the sequence cache within its cap if and only if it is not a duplicate from a new neighbour at a full cache |
| `MetaFlood.PeerSeqCanOverflow` | internal/mesh/meta_exchange.go:172-187 | a run in which the sequence cache outgrows its cap |
| `MetaFlood.StepDecreases` | internal/mesh/meta_exchange.go:280-297 | every delivery or loss strictly decreases the TTL-weighted measure of messages in flight |
| `MetaFlood.FloodDiesOut` | internal/mesh/meta_exchange.go:280-297 | no run has more steps than the measure it starts with |
| `MetaFlood.BroadcastBound` | internal/mesh/meta_exchange.go:347-378 | one broadcast among nodes of degree d causes at most d + d^2 + d^3 + d^4 + d^5 deliveries |
| `MetaFlood.AppliedOnce` | internal/mesh/meta_exchange.go:167-187 | between resets of the dedup cache a node applies and forwards a given message at most once |
| `MetaFlood.DuplicateMeansApplied` | internal/mesh/meta_exchange.go:178-187 | only an earlier application of the very same message makes one a duplicate |
| `JoinProtocol.ReplayCache.CheckAndMark` | internal/join/token.go:172-197 | collects exactly the expired nonces, accepts exactly the unknown ones and keeps them until the later of expiry and cache lifetime |
| `JoinProtocol.JoinServer.HandleJoin` | internal/join/server.go:286-370 | signature, expiry and fingerprint checks in order, then the step chosen by the presence of a response |
| `JoinProtocol.JoinServer.HandleChallengeStep` | internal/join/server.go:374-409 | one new open challenge for the joiner, expired ones dropped |
| `JoinProtocol.JoinServer.HandleChallengeResponseStep` | internal/join/server.go:413-476 | the challenge is consumed whatever the outcome; a bundle needs an open challenge, the same key and a valid signature |
| `JoinRuns.NonceReuse` | internal/join/token.go:172-197 | a nonce is accepted again only after it is forgotten, whatever token carries it |
| `JoinRuns.NonceAcceptedAgainIff` | internal/join/token.go:172-197 | a valid token with an already used nonce is accepted exactly when the nonce is forgotten |
| `JoinRuns.NonceAcceptedTwice` | internal/join/token.go:172-197 | a run of two requests in which two tokens with one nonce are accepted |
| `JoinRuns.TokenAcceptedOnce` | internal/join/token.go:118-197 | no nonce and expiry are accepted twice: garbage collection never frees a nonce while its token is valid |
| `JoinRuns.AcceptedTokensDistinct` | internal/join/token.go:118-197 | over every run the accepted tokens are pairwise different, as tokens presented |
| `JoinRuns.IssueAccounting` | internal/join/server.go:345-476 | bundles issued plus open challenges never exceed challenges issued, which never exceed accepted tokens |
| `JoinRuns.BundleFollowsChallenge` | internal/join/server.go:374-476 | every bundle answers a valid step 2 with a good signature, and goes to the key named when its challenge was issued, at most 60 s earlier |
| `JoinRuns.BundlesFollowDifferent` | internal/join/server.go:374-476 | different bundles follow different challenge issues |
| `JoinAnswers.AcceptedIff` | internal/join/token.go:172-197 | over every run the replay cache, which forgets, accepts a token exactly as if it knew every earlier use of its nonce |
| `JoinAnswers.ChallengedExactly` | internal/join/server.go:345-409 | a request is answered with a challenge if and only if it is a genuine step 1, every earlier use of its nonce is forgotten, and the random source yields that challenge |
| `JoinAnswers.BundledExactly` | internal/join/server.go:333-476 | a request is answered with a bundle if and only if it is a genuine step 2 with a good signature by the joiner who was answered with this challenge at most 60 s earlier, and no genuine request presented it and none was answered with it since |
| `JoinTokens.MaterialIff` | internal/join/token.go:125-139 | two tokens have the same signed material if and only if they agree on the expiry and on nonce and fingerprint put together |
| `JoinTokens.TwoReadings` | internal/join/server.go:333-343 | the material of a token issued for this server has exactly two readings that the server takes for its own |
| `JoinTokens.AcceptedTwice` | internal/join/token.go:125-197 | one signed token is accepted twice only in different readings: one names the server, the other does not |
| `JoinTokens.AtMostTwice` | docs/JOIN_GUIDE.md:216-217 | over every run one signed token is accepted at most twice |
| `JoinTokens.BundlesPerIssuedToken` | internal/join/server.go:286-476 | over every run in which signatures are not forged, bundles and challenges are at most twice the tokens issued |
| `JoinTokens.BothReadingsAccepted` | internal/join/server.go:333-370 | a run in which one issued token gets two bundles, so the bound is reached |
| `StreamGuards.UdpMeshManager.RouteMeshPacket` | internal/mesh/mux_udp.go:108-130 | a stream is created exactly when none exists and the source is not blocked |
| `StreamGuards.UdpMeshManager.RecordMeshCreate` | internal/mesh/mux_udp.go:511-535 | window, count and block of the source; above 1024 guards, exactly those that are over are dropped |
| `StreamRate.GuardTracksCreations` | internal/mesh/mux_udp.go:511-535 | clean-up never changes a later decision: the stored guard always decides like the one its creations alone would leave |
| `StreamRate.CreatesExactly` | internal/mesh/mux_udp.go:114-128 | over every run a packet creates a stream if and only if the source has none, and its last creation was not the fifth of its ten-second window or was 60 s ago |
| `StreamRate.OpenIff` | internal/mesh/mux_udp.go:108-130 | a source has a stream if and only if one was created and not closed since |
| `StreamRate.NineTakeLonger` | internal/mesh/mux_udp.go:511-535 | any nine creations of one source take more than ten seconds |
| `StreamRate.AtMostEight` | internal/mesh/mux_udp.go:114-128 | however packets interleave, no ten-second span holds more than eight new streams of one source |
| `StreamRate.ScheduleRealised` | internal/mesh/mux_udp.go:114-128 | every schedule of creations that the guard admits is that of some run |
| `StreamRate.EightIsReached` | internal/mesh/mux_udp.go:511-535 | some run creates eight streams of one source within ten seconds, so the bound is tight |
| `PunchCodec.RequestRoundTripIff` | internal/holepunch/punch_udp.go:366-519 | a request is restored in full if and only if its endpoint is not empty and its key has four bytes or more, or nothing follows the endpoint |
| `PunchCodec.LegacyRoundTripIff` | internal/holepunch/punch_udp.go:457-519 | a key-less request of the old format is understood if and only if its endpoint is not empty and no longer than the value of its first byte, or that byte is zero |
| `PunchCodec.ResponseRoundTrip` | internal/holepunch/punch_udp.go:396-417 | every response is restored in full |
| `PunchCodec.FrameRoundTrip` | internal/holepunch/punch_udp.go:383-403 | the length prefix delimits exactly the body; a body over the limit is dropped |
| `PunchCodec.RequestDelivered` | internal/holepunch/punch_udp.go:366-519 | whatever follows on the stream, exactly the sent parameters arrive and exactly the rest remains, if and only if the frame is within the limit and unambiguous |
| `PunchCodec.BuildRequest` | internal/holepunch/punch_udp.go:361-387 | the bytes written into the buffer are the specified frame; an endpoint over 255 bytes is not sent |
| `PunchCodec.BuildResponse` | internal/holepunch/punch_udp.go:643-661 | the bytes written are the specified frame, with a placeholder for an endpoint over 255 bytes |
| `PunchCodec.TailRoundTrip` | internal/holepunch/punch_udp.go:370-378 | ports, flag and signed direction survive their eight bytes |
| `PunchCodec.RequestLayout` | internal/holepunch/punch_udp.go:355-387 | where every field of a request is on the wire, byte by byte |
| `PunchCodec.TailLayout` | internal/holepunch/punch_udp.go:370-378 | where ports, flag, direction and observed port are in the eight bytes of the tail |

## Left out

- Sockets, TLS and REALITY handshakes, STUN, the TUN device, DNS, the web UI, configuration loading, SOCKS5 and file servers: I/O around libraries that are not part of this model.
- The ARQ of UDP streams, smux and the key exchange are not part of this model.
- Cryptographic strength: hash, signature, HMAC and AEAD are abstract functions with stated laws.
- Path scoring and latency averages in floating point: which alternative is picked, and when, is an arbitrary choice among available transports.
- The connection overwritten when a retry cycle re-dials the current transport is not tracked after it is replaced.
- META reaching every node: the stale check is keyed by the forwarding neighbour, so messages may be dropped; only termination and duplicate suppression are stated.
- The learning of peer metadata inside META application, and the relay tunnels map with its eviction: they do not influence the properties stated.
- The initiator of a relayed dial may reappear as a later relay, because the Path excludes it; only relays are proved distinct.
- The nested dial that queries a shared node for a guided path is an arbitrary list of relays here.
- The join server's rate limiter, bundle contents and signature: the limiter's verdict is an input.
- The authentication throttle of TUN packets: the same guard shape as the one modelled.
- ACLs, the routing table, capability checks: they would only add easy members.
- LatencyGraphs.LatencyGraph.QueryPath: RTT sums are unbounded integers, because they would have to exceed 2^63 milliseconds to wrap.
- PeerManagers.PeerManager.CooldownDuration: durations are unbounded integers; with the defaults the loop stops long before 64 bits, and base and maximum are configuration.
- PeerQuarantine.QuarantineLasts: asks for cooldowns that are not negative; a k-th quarantine that reaches the blackout threshold is a blackout, which does not end by itself.
- MetaHistory.AppliedExactly: asks that no more than 512 neighbours and 4096 messages were seen; fuller caches are dropped whole, and then only `AppliedOnce` holds.
- PeerManagers.PeerManager.constructor: asks for at least one transport; without one Start fails, which `StartPeer` states.
- SecureConns.SecureConn.constructor: asks for keys of the right size; other sizes are refused by `NewSecureConn`.
- SecureConns.SecureConn.Write: the frame length assumes an AEAD that adds exactly its tag, as AES-GCM does.
- AuditRetention.RunRetains: assumes no I/O error, the same limits across restarts and at least one backup; the fallback for an entry that cannot be encoded is unreachable and not modelled.
- JoinRuns.TokenAcceptedOnce: assumes that the expiry in nanoseconds fits 64 bits, as AcceptedTokensDistinct, the bounds of JoinTokens and AcceptedIff and ChallengedExactly of JoinAnswers do.
- Convergence.Converges: asks that the canonical assignment exists, that nodes hear only of members of the mesh, and that some number of rounds bounds the delay of a claim.
- PunchCodec.RequestRoundTripIff: port and nonce values are those that fit their fields; larger ones are truncated by the encoder.
- RelayForwarding.RouteFound: a route that is open throughout suffices; which dials succeed while the surroundings change is what `FirstServes` and `StagesInOrder` say stage by stage.
- RelayForwarding.TryRelayFallback: asks for a path of at most two relays, which both callers guarantee.
