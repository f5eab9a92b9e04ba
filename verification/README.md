# Bandwidth decisions of a network emulator, in Dafny

This project models the code that decides bandwidth in a distributed network emulator: where applications are placed,
what is known about the speed between cluster nodes, which route traffic takes, how flows share links, and how the
hosts agree on a common begin time. It proves what that code keeps over whole runs. All files are checked together:
`dafny verify dfyconfig.toml`.

Code that changes things in place is modelled by classes and loops (`Orchestrator`, `CGraph`, `SymMatrix`, `Network`,
`EmulCore`, `Controller`, `Synchronizer`), each method proved against functions on values; the results are lemmas about
those functions. The two protocols are state machines over their steps. Iteration over hash sets and hash maps is an
arbitrary choice, `u32`/`usize` are `nat`, `f64` is `real`.

## The parts

- `SymMatrix.dfy`: the packed triangle behind every symmetric matrix. The two index computations are inverse to each
  other; growing and removing a row are exact.
- `HeapPermutations.dfy`, `Combinations.dfy`, `Placement.dfy`, `Orchestrator.dfy`, `SearchLimits.dfy`: the placement
  search, and the exact sizes for which it misses nothing. The exchanges of Heap's algorithm are followed through closed forms for the vector at the start and the end of
  a block, so that an ended enumeration has been at every permutation. Pruning by canonical sets loses nothing. The whole
  search finds a placement exactly when one exists that uses no host more often than `CopyLimit`, and prefers fewer clones.
- `Bookkeeping.dfy`, `Sums.dfy`, `NewOrchestrator.dfy` and again `Orchestrator.dfy`: loads, listings and the ledger of
  bandwidth over runs of deployments, stops and host removals, from the speeds of a cluster graph on.
- `SpeedClosure.dfy`, `CGraph.dfy`, `CompleteGraph.dfy`, `NetworkSpeeds.dfy`: the cluster graph. One in-place pass in the
  order i, j, k yields exactly the max-min closure after one entry was raised. Against a real bandwidth table every stored
  speed stays at most the real one, and the entries the code trusts are equal to it.
- `Routing.dfy`, `Walks.dfy`, `Network.dfy`: both path searches are one label-correcting machine, although
  `widest_path` takes the smallest value first. Results are optimal over all paths, and the parents never form a cycle.
- `WaterFilling.dfy`, `StrictestWins.dfy`, `BwSync.dfy`, `FlowLoop.dfy`, `OffPath.dfy`: the sharing of bandwidth between
  flows, from one link up to the event loop.
- `RingSync.dfy`: the start synchronisation ring. `JoinLock.dfy`: the lock around joining a cluster.

## Where the code does less than one might expect

Each of these is a lemma or an exact condition in the contracts.

- The placement search gives up after five levels of clones, and after one level when that level has a single
  combination. For k applications and n hosts it misses no placement, whatever the bandwidths, loads and graph, if and
  only if k or the maximum load is at most `CopyLimit(k, n)`, which is max(k - n, 0) plus 5, or plus 1 with a single
  combination (`SearchLimits.SearchIsCompleteIff`);
  `SearchLimits.MissedWhenLarge` gives the inputs otherwise, at any uniform speed of the cluster.
  With as many applications as hosts, or a single host, a failing search panics in `next_comb`, whose index underflows.
- `stop_emulation` also credits pairs of applications on one host, which `new_emulation` skipped. The entry of a host with
  itself is `u32::MAX` from the start (`NewOrchestrators.Speeds`), so the addition overflows: a checked build panics, a
  release build wraps around. This happens if and only if two applications of the emulation that share a host exchange
  bandwidth (`Bookkeeping.StopOverflowsIff`); otherwise a stop gives the matrix back unchanged
  (`Bookkeeping.StopUndoesReservation`). `stop_app_emulation_on` overflows likewise (`Bookkeeping.AppStopOverflows`), and
  credits each pair once for each of its ends (`Placements.StoppingAppsCreditsTwice`).
- An update of a flow guards the links on its own path only. A flow that was reduced before is raised if and only if every
  link it shares with the path has room for it (`BwSync.RaisedIff`), and other links of that flow can be overloaded by it.
  `BwSync.UpdateOverloadsIff` gives the exact condition, from what is known before the update; three updates from no flows
  meet it (`OffPath.UpdateCanOverload`). The next bandwidth graph then underflows.
- `remove_flow` puts a flow back when it is given with usage. `remove_all_flows_from` (emulation/src/emulcore.rs:513-535)
  hands it the active flow with its usage, so the flow stays (`BwSync.RemoveGuarantees`).
- A grant to join that finds no taker is never released: from then on every request is told to wait
  (`JoinLock.StuckForever`, `JoinLock.GrantCanBeLost`). In every other state the lock can still be released
  (`JoinLock.LockReleasesIff`). A node that fails while another one joins comes back with the adopted graph
  (`JoinLock.AdoptedGraph`).
- The ring confirms a begin time only when a round takes less than the leader allowed for. It proposes anew while rounds
  keep growing (`RingSync.ConfirmsIff`, `RingSync.ProposingTakesGrowingRounds`).
- The comment on `next_comb` promises all combinations; it leaves out the lexicographically last one of its range. The
  model follows the code.

## Model

| member | source | states |
|---|---|---|
| SymMatrices.SeriesSumIsRowStart | matrix/src/lib.rs:120-133 | the floating-point series sum, cut to an integer, is the number of cells in the rows before |
| SymMatrices.OutToInIndex | matrix/src/lib.rs:100-136 | a pair in either order goes to its cell in the packed triangle |
| SymMatrices.PackInjective | matrix/src/lib.rs:100-136 | two pairs share a cell only when they are the same unordered pair |
| SymMatrices.InToOutIndex | matrix/src/lib.rs:137-163 | the row search ends and yields the one pair with row <= col < n that belongs to the index |
| SymMatrices.AtSymmetric | matrix/src/lib.rs:71-78 | reading is symmetric |
| SymMatrices.Sym.PutAt | matrix/src/lib.rs:64-69 | a write changes the cell of its unordered pair and no other |
| SymMatrices.Extensional | matrix/src/lib.rs:58-62 | a matrix is determined by its entries: the packing holds nothing else |
| SymMatrices.SymMatrix.NewFn | matrix/src/lib.rs:81-96 | every cell holds the function's value for its pair |
| SymMatrices.SymMatrix.Set | matrix/src/lib.rs:64-69 | the in-place write is the update of one unordered pair |
| SymMatrices.SymMatrix.GrowFn | matrix/src/lib.rs:164-176 | old entries are kept and new cells hold the function's values |
| SymMatrices.SymMatrix.RemoveId | matrix/src/lib.rs:178-184 | exactly one row and column is deleted |
| SymMatrices.GrowThenRemoveLast | matrix/src/lib.rs:164-184 | growing by one and removing the last id gives the matrix back |
| HeapPermutations.ExchangeStartsNextRound | emulation/src/orchestrator.rs:346-357 | an exchange takes the end of one sub-block of arrangements to the start of the next |
| HeapPermutations.LastRoundEndsBlock | emulation/src/orchestrator.rs:346-362 | the last sub-block of a level ends where the block of the level ends |
| HeapPermutations.EveryElementReachesTop | emulation/src/orchestrator.rs:346-357 | over its sub-blocks a level puts every element at its position |
| HeapPermutations.RunStep | emulation/src/orchestrator.rs:346-362 | an exchange adds one check and a carry none; checks are bounded by n!, the factorial-base measure of the counters |
| HeapPermutations.EndedRunRejectsAll | emulation/src/orchestrator.rs:346-364 | when the loop has ended and rejected all it was at, every permutation is rejected |
| HeapPermutations.EnumerationComplete | emulation/src/orchestrator.rs:342-364 | for every size, an ended run was at every permutation |
| HeapPermutations.FirstAcceptedIsUnique | emulation/src/orchestrator.rs:329-364 | the accepted permutation that the loop is at first, with none accepted before, is determined |
| Combinations.NextComb | emulation/src/orchestrator.rs:439-455 | the immediate lexicographic successor among increasing k-sequences over 0..=n, or None when every later one starts above n-k |
| Combinations.FirstIsLeast | emulation/src/orchestrator.rs:268 | the search starts at the least combination |
| Combinations.LessIsTotal | emulation/src/orchestrator.rs:439-455 | the order of the enumeration is total, so no combination falls between two |
| Combinations.RankGrows | emulation/src/orchestrator.rs:269-324 | a later combination has a greater bounded rank: the search loop ends |
| Combinations.OnlyCombination | emulation/src/orchestrator.rs:439-449 | a range of exactly k values has one combination, the case in which next_comb underflows |
| Placements.CanonicalDeterminesHosts | emulation/src/orchestrator.rs:271-279 | equal sets of smallest modulo classes come from equal multisets of hosts |
| Placements.Rearrangement | emulation/src/orchestrator.rs:329-364 | lists of hosts with one multiset are permutations of each other |
| Placements.PruningIsLossless | emulation/src/orchestrator.rs:280-306 | when no order of one combination is accepted, no placement with the same canonical set is |
| Placements.CombinationOf | emulation/src/orchestrator.rs:262-279 | every placement is stood for by a combination of bounded clones that starts among the first n |
| Placements.PlacedWithinCopies | emulation/src/orchestrator.rs:262-279 | a level of the search uses no host more often than it has clones |
| Placements.FeasibleFitsResidual | emulation/src/orchestrator.rs:366-414 | an accepted placement asks no pair of distinct hosts for more than is left between them |
| Placements.OutgoingIsReserved | emulation/src/orchestrator.rs:389-402 | the bandwidth that leaves a host is the sum of what the placement reserves between it and every other host |
| Placements.FeasibleIff | emulation/src/orchestrator.rs:366-414 | a placement is accepted if and only if every host used has room for its applications, and what is reserved between it and all others is at most what is left to each other host used |
| Placements.ReservedOfTwo | emulation/src/orchestrator.rs:84-92 | two applications alone on their hosts reserve exactly what they ask of each other |
| Placements.StoppingAppsCreditsTwice | emulation/src/orchestrator.rs:129-136 | stopping all applications one by one credits every pair of hosts twice what was reserved |
| Orchestrators.Orchestrator.GetActualLoad | emulation/src/orchestrator.rs:416-424 | the sum of the host's load entries, whatever the order of the map |
| Orchestrators.Orchestrator.HostAccepts | emulation/src/orchestrator.rs:377-411 | one host is accepted exactly when its load and its applications stay within the maximum, and what the placement reserves between it and all others is at most what is left to each other host used |
| Orchestrators.Orchestrator.VerifyPermutation | emulation/src/orchestrator.rs:366-414 | true exactly when the placement is feasible on all hosts used |
| Orchestrators.Orchestrator.GraphIsomorphism | emulation/src/orchestrator.rs:329-364 | the first accepted permutation of the enumeration, or None and then no permutation at all is accepted; at most n! checks |
| Orchestrators.Orchestrator.CanonicalSet | emulation/src/orchestrator.rs:271-279 | the loop yields the canonical set of the hosts' multiset |
| Orchestrators.Orchestrator.Remaining | emulation/src/orchestrator.rs:283-290 | true exactly when every host of the set has room for one more |
| Orchestrators.Orchestrator.SubGraph | emulation/src/orchestrator.rs:293-299 | the residual bandwidths between the hosts of the entries |
| Orchestrators.Orchestrator.TryCombination | emulation/src/orchestrator.rs:271-317 | a pass finds an accepted placement or rejects the combination; skipped sets were rejected before |
| Orchestrators.Orchestrator.SearchLevel | emulation/src/orchestrator.rs:262-324 | one level finds the first order of its first combination that has one, rejects all its combinations, or panics when it has only one |
| Orchestrators.Orchestrator.FindIsoInternal | emulation/src/orchestrator.rs:256-327 | found placements are the first from the given clones on; NotFound means none exists within the clones of all levels |
| Orchestrators.Orchestrator.FindIsomorphism | emulation/src/orchestrator.rs:250-254 | finds a placement if and only if one exists within CopyLimit uses of a host, and then the first one: fewest clones, then least combination, then earliest order; panics in exactly the stated cases |
| Orchestrators.Orchestrator.FewerClonesFirst | emulation/src/orchestrator.rs:256-326 | when the placement found uses a host more than c + 1 times, every combination that level c enumerates was rejected |
| Orchestrators.Orchestrator.FoundIsSparing | emulation/src/orchestrator.rs:256-326 | so it uses no host more often than an accepted placement with c + 1 uses at most does, for every c with room for all applications in c uses of each host |
| Orchestrators.Orchestrator.FirstInSearchIsUnique | emulation/src/orchestrator.rs:250-326 | the placement found is determined by the matrix, the loads and the residual bandwidths |
| SearchLimits.PlaceableIsReach | emulation/src/orchestrator.rs:250-258 | what `FindIsomorphism` decides is whether an accepted placement within the reach of the search exists |
| SearchLimits.ReachedWhenSmall | emulation/src/orchestrator.rs:250-258 | when the applications, or the maximum load, are at most `CopyLimit`, every accepted placement is within reach |
| SearchLimits.MissedWhenLarge | emulation/src/orchestrator.rs:250-258 | otherwise, at any uniform speed, applications on empty hosts for which a placement is accepted and none within reach is |
| SearchLimits.SearchIsCompleteIff | emulation/src/orchestrator.rs:250-258 | for every number of applications and hosts and every maximum load: an accepted placement always comes with one within reach, if and only if the applications or the maximum load are at most `CopyLimit` |
| NewOrchestrators.Speeds | cgraph/src/lib.rs:244-251 | speeds within 32 bits are taken over unchanged and others cut, with the nodes by index; in a closed graph the entry of a host with itself is u32::MAX |
| NewOrchestrators.Build | emulation/src/orchestrator.rs:24-36 | from a cluster graph: its speeds, hosts in the order of their indices with the managers' port, empty books, a balanced ledger |
| Orchestrators.Orchestrator.constructor | emulation/src/orchestrator.rs:24-36 | a new orchestrator has empty books, balanced against the speeds of the cluster |
| Orchestrators.Orchestrator.PlaceApps | emulation/src/orchestrator.rs:51-82 | every application adds one to the load of its host, which lists the emulation |
| Orchestrators.Orchestrator.Reserve | emulation/src/orchestrator.rs:84-92 | distinct-host pairs lose what is reserved; no subtraction goes below zero |
| Orchestrators.Orchestrator.GiveBack | emulation/src/orchestrator.rs:105-110 | every pair is credited, also on one host; fails exactly when an addition overflows, and entries stay within u32 |
| Orchestrators.Orchestrator.NewEmulation | emulation/src/orchestrator.rs:38-99 | deploys exactly when a placement is in reach, on the first one of the search, and keeps the books and the ledger; otherwise nothing changes, with the panics stated exactly |
| Orchestrators.Orchestrator.StopEmulation | emulation/src/orchestrator.rs:101-127 | keeps the books and the ledger; no change for an unknown id; overflows exactly when two applications on one host exchange bandwidth |
| Orchestrators.Orchestrator.StopAppEmulationOn | emulation/src/orchestrator.rs:129-161 | keeps the load books; the last application takes the record with it; overflows exactly when a credit exceeds u32 |
| Orchestrators.Orchestrator.RemoveClusterNode | emulation/src/orchestrator.rs:216-244 | stops every listed emulation, deletes exactly the host, keeps indices valid, the books and the ledger; overflows exactly when a listed emulation does on stopping |
| Bookkeeping.RecordIffListed | emulation/src/orchestrator.rs:141-159 | an emulation with applications is on record exactly when some host lists it |
| Bookkeeping.LoadIsRunningApps | emulation/src/orchestrator.rs:56-67 | the load of a host is the number of applications that run on it |
| Bookkeeping.StartKeepsBooks | emulation/src/orchestrator.rs:51-95 | a deployment keeps the relation of loads, listings and records |
| Bookkeeping.StopKeepsBooks | emulation/src/orchestrator.rs:112-125 | a stop keeps it and lowers every load by the emulation's share |
| Bookkeeping.StopUndoesStart | emulation/src/orchestrator.rs:51-127 | stopping gives back every load entry, listing and record that starting changed |
| Bookkeeping.StopAppKeepsBooks | emulation/src/orchestrator.rs:141-159 | stopping an application once, on its own host, keeps the relation |
| Bookkeeping.StopAppTotals | emulation/src/orchestrator.rs:141-153 | the load of that host drops by one, and no other |
| Bookkeeping.RemoveHostKeepsBooks | emulation/src/orchestrator.rs:237-241 | removing a host keeps the relation once nothing runs |
| Bookkeeping.StartKeepsBalance | emulation/src/orchestrator.rs:83-95 | residual plus live reservations stays the base speed between distinct hosts |
| Bookkeeping.StopKeepsBalance | emulation/src/orchestrator.rs:103-125 | the same for a stop |
| Bookkeeping.RemoveHostKeepsBalance | emulation/src/orchestrator.rs:231-241 | the same for a removed host |
| Bookkeeping.StopOverflowsIff | emulation/src/orchestrator.rs:101-110 | on a balanced ledger, giving an emulation's bandwidth back overflows exactly when it reserved some between a host and itself |
| Bookkeeping.AppStopOverflows | emulation/src/orchestrator.rs:129-136 | stopping an application overflows when it exchanges bandwidth with another one on its host |
| Bookkeeping.StopUndoesReservation | emulation/src/orchestrator.rs:83-110 | a stop without overflow gives back the matrix from before the start |
| SpeedClosure.Isosceles | cgraph/src/lib.rs:296-303 | in a closed table the third side of an unequal triangle is the smaller of the other two |
| SpeedClosure.RaisedIsClosure | cgraph/src/lib.rs:341-369 | the closed form of the raised table is its least closed bound |
| SpeedClosure.BestReachesRaised | cgraph/src/lib.rs:347-366 | the inner loop over k reaches the closure in one visit of a cell |
| SpeedClosure.PassYieldsClosure | cgraph/src/lib.rs:344-369 | after the single in-place pass every entry is the closure's |
| CGraphs.CGraph.RelaxCell | cgraph/src/lib.rs:347-366 | the loop over k leaves the best detour in the cell; flags fall only at the slower node's speed |
| CGraphs.CGraph.UpdateSpeeds | cgraph/src/lib.rs:344-369 | from a closed table with one raised entry, exactly the closure |
| CGraphs.CGraph.AddNode | cgraph/src/lib.rs:134-160 | adds the next index or returns the known node; keeps closure and exactness |
| CGraphs.CGraph.RemoveOneBy | cgraph/src/lib.rs:162-191 | removes one matching node and renumbers the rest; keeps closure and exactness; error exactly when none matches |
| CGraphs.CGraph.AddLinkDirectTest | cgraph/src/lib.rs:194-234 | its errors, usefulness, the closure of the new entry, and exactness after a true measurement |
| CGraphs.CGraph.TriangleRule | cgraph/src/lib.rs:284-309 | when the rule applies it writes what some k tells, otherwise nothing changes and no k tells |
| CGraphs.CGraph.FindMissingFromMe | cgraph/src/lib.rs:254-330 | on the cells: the fastest node whose entry is untested, below the threshold and below both link speeds, with no third node that tells it; None when no entry is so; only such entries are changed |
| CGraphs.TestKeepsFaithful | cgraph/src/lib.rs:194-234 | after a test no speed exceeds the real one, and tested or unlimited entries equal it |
| CGraphs.RuleKeepsSpeeds | cgraph/src/lib.rs:296-307 | in a closed graph the triangle rule changes no speed |
| CGraphs.RuleKeepsFaithful | cgraph/src/lib.rs:284-309 | what the triangle rule fills in is the real bandwidth |
| CGraphs.AddRowKeepsFaithful | cgraph/src/lib.rs:143-157 | a new row keeps exactness |
| CGraphs.RemoveRowKeepsFaithful | cgraph/src/lib.rs:174-182 | removing a row and renumbering keeps exactness |
| CompleteGraphs.Measure | cmanager/src/controller.rs:496-513 | the first successful attempt, or failure of exactly retries + 1 attempts |
| CompleteGraphs.NothingMissing | cmanager/src/controller.rs:492 | no node left to test means every speed from me is exact or sufficient |
| CompleteGraphs.TestNext | cmanager/src/controller.rs:492-519 | a test leaves one untested entry less and keeps what was exact; none is made when my row is settled, and it fails only when all attempts at a node do |
| CompleteGraphs.TestLoop | cmanager/src/controller.rs:492-519 | fewer tests than nodes; none while every entry of my row is tested, sufficient, or at the slower link's speed |
| CompleteGraphs.CompleteGraph | cmanager/src/controller.rs:488-522 | at most n-1 tests, and none when my row is settled; on success every speed from me is exact or at least sufficient; failure only when all attempts at some node fail |
| CompleteGraphs.JoinAll | cmanager/src/controller.rs:471-478 | with an unreachable threshold, nodes that join one by one leave all pairs exact, unless all attempts at some node fail |
| NetworkSpeeds.WidthsAreMetric | netgraph/src/lib.rs:649-691 | real networks of widest paths meet the assumptions of the cluster graph |
| Routing.FirstExists | netgraph/src/lib.rs:737-745 | the order of pairs has a first one in every heap |
| Routing.StepProgresses | netgraph/src/lib.rs:610-628 | every pass improves labels or shrinks the heap: both searches end |
| Routing.WalkAvoids | netgraph/src/lib.rs:619-625 | a vertex that is improved is not on the walk of its new parent: parents form no cycle |
| Routing.StepKeeps | netgraph/src/lib.rs:658-689 | the loop keeps: labels are those of paths, outdated pairs may be skipped, all other edges are settled |
| Routing.SearchIsBest | netgraph/src/lib.rs:596-691 | both searches return the best value over all paths, and nothing exactly when there is no path |
| Routing.BestIsUnique | netgraph/src/lib.rs:596-691 | that value is unique |
| Routing.ParentIsExact | netgraph/src/lib.rs:619-625 | a label is its parent's label extended by the link between them |
| Routing.ParentIffReached | netgraph/src/lib.rs:596-629 | exactly the reached vertices other than the source have parents |
| Routing.ParentsReachSource | netgraph/src/lib.rs:596-691 | from every reached vertex the parents lead to the source |
| Routing.ParentIsSmallest | netgraph/src/lib.rs:596-629 | of several shortest paths: every vertex has the smallest-numbered neighbour one hop nearer to the source as its parent |
| Routing.WidthIsMinimum | netgraph/src/lib.rs:673-680 | the width of a path is the smallest bandwidth on it |
| Routing.WidthSymmetric | netgraph/src/lib.rs:649-691 | reported widths are symmetric |
| Routing.WidthTriangle | netgraph/src/lib.rs:649-691 | reported widths satisfy the max-min triangle inequality |
| Routing.ShortestPathsFollowLinks | netgraph/src/lib.rs:596-629 | changing bandwidths changes no shortest path |
| Walks.WalkIsSimple | netgraph/src/lib.rs:550-559 | following parents passes no vertex twice |
| Walks.LinksDistinct | netgraph/src/lib.rs:555-556 | and takes no link twice |
| Walks.NarrowestIsMinimum | netgraph/src/lib.rs:488-493 | the walked bandwidth is at least b exactly when every link walked is |
| Walks.WalkedWidth | netgraph/src/lib.rs:475-493 | for widest paths the walked bandwidth equals the reported width |
| Walks.WalkedHops | netgraph/src/lib.rs:596-629 | the walk of a shortest path has as many links as reported |
| Networks.SameLinkIffEnds | netgraph/src/lib.rs:92-114 | links are equal exactly when they join the same two vertices, as their hash assumes |
| Networks.Network.New | netgraph/src/lib.rs:325-337 | vertices numbered in order and no links |
| Networks.Network.AddEdge | netgraph/src/lib.rs:437-443 | puts the link between known vertices and nothing else |
| Networks.Network.UpdateBandwidthInter | netgraph/src/lib.rs:461-466 | changes the bandwidth of a link that exists and nothing else |
| Networks.Network.Neighbours | netgraph/src/lib.rs:632-642 | the vertices with a link, in increasing order, without the vertex itself |
| Networks.Network.ShortestPaths | netgraph/src/lib.rs:596-629 | the loop computes the search with hop counts |
| Networks.Network.WidestPaths | netgraph/src/lib.rs:649-691 | the loop computes the search with widths |
| Networks.Network.BandwidthBetween | netgraph/src/lib.rs:475-498 | the width, or the smallest bandwidth on the shortest path, or None |
| Networks.Network.PropertiesBetween | netgraph/src/lib.rs:502-525 | its bandwidth: the smallest on the path, and None from a vertex to itself |
| Networks.Network.GetPathBetween | netgraph/src/lib.rs:542-565 | the links of the path in order; the assertion on newly added links never fails |
| Networks.Network.UpdateEdgesAlongPathBy | netgraph/src/lib.rs:529-539 | every link of the path is changed once, all others kept; failure exactly when the function fails on a link |
| Networks.PathTakesLinksOnce | netgraph/src/lib.rs:550-559 | no two links of a path are equal |
| Networks.PathLinksAreCrossed | netgraph/src/lib.rs:550-559 | the links of a path are those of the cells its walk crosses |
| Networks.WalkedBandwidthIsMinimum | netgraph/src/lib.rs:502-525 | the reported bandwidth of a path is the smallest of its links |
| Networks.PathIsBestRoute | netgraph/src/lib.rs:542-565 | the links of a path, in order, join the vertices of an optimal path from the one end to the other |
| Networks.BetweenIsWalked | netgraph/src/lib.rs:475-498 | under both strategies the reported bandwidth is the walked one, and None exactly when there is no path or, for shortest paths, no step |
| WaterFilling.LevelUnique | emulation/src/bwsync.rs:137-190 | all levels that fill a link give every flow the same: the result does not depend on the order of the set |
| WaterFilling.RoundKeepsSharing | emulation/src/bwsync.rs:154-187 | a round keeps satisfied usage plus partition times remaining flows equal to the capacity |
| WaterFilling.LastRoundIsLevel | emulation/src/bwsync.rs:162-172 | the last partition is a level, and it reduces exactly the remaining flows |
| WaterFilling.SpareBandwidth | emulation/src/bwsync.rs:184-185 | the fold over the satisfied flows, in any order |
| WaterFilling.DistributeBandwidthAcrossFlow | emulation/src/bwsync.rs:137-190 | the loop ends and gives every flow its share at the level of the link |
| WaterFilling.ShareFits | emulation/src/bwsync.rs:137-190 | the shares of a link never use more than the link |
| WaterFilling.ShareOfFlow | emulation/src/bwsync.rs:137-190 | a flow keeps its usage when it was not reduced and uses no more than the level; otherwise it gets the level cut to an integer, or its maximum |
| WaterFilling.ShareUsesUp | emulation/src/bwsync.rs:137-190 | when flows are reduced, and none of them is held at a maximum below the capacity, less than one unit per reduced flow is left of the link |
| WaterFilling.RoomForAll | emulation/src/bwsync.rs:137-190 | a link with room for all that is asked reduces nobody |
| StrictestWins.StricterUsesLess | emulation/src/bwsync.rs:196-211 | less authorized is less used, and equally much is the same share |
| StrictestWins.MergeKeepsStrictest | emulation/src/bwsync.rs:196-211 | merging by authorized bandwidth keeps the pointwise minimum of usage too |
| StrictestWins.StrictestIsUnique | emulation/src/bwsync.rs:61-67 | the order in which links are merged does not matter |
| StrictestWins.StrictestFits | emulation/src/bwsync.rs:57-67 | strictest shares fit on every link that shared out |
| BwSync.GetFlowsBySharedLinks | emulation/src/bwsync.rs:70-100 | for each link of the path, the active flows on it with the updated one put in or left out |
| BwSync.UpdateActiveFlows | emulation/src/bwsync.rs:45-68 | the strictest share of every flow that shares a link with the updated one |
| BwSync.RedistributedKey | emulation/src/bwsync.rs:70-100 | exactly those flows get a new share |
| BwSync.UpdateFits | emulation/src/bwsync.rs:7-35 | no link on the updated path carries more than it can |
| BwSync.UpdateFlows | emulation/src/bwsync.rs:7-21 | the flows after an update, in which a flow that had been reduced stays so, and what is left of the network; unchanged when there is no path |
| BwSync.RemoveFlow | emulation/src/bwsync.rs:23-35 | the flows after a removal and what is left of the network |
| BwSync.UpdateGuarantees | emulation/src/bwsync.rs:7-21 | fits on the path, within maximum, the flow is active, flows without a shared link are as they were |
| BwSync.RemoveGuarantees | emulation/src/bwsync.rs:23-35 | the flow is gone if and only if it is given as using nothing or has no links |
| BwSync.ServedIsUnique | emulation/src/bwsync.rs:7-35 | the outcome does not depend on the order of sets |
| BwSync.CalculateBandwidthGraph | emulation/src/bwsync.rs:37-43 | on shortest paths: capacity minus usage on every link in any order of flows, and underflow if and only if a link is overloaded |
| BwSync.DeductOne | emulation/src/bwsync.rs:39-41 | one flow takes its usage off exactly the links of its original path |
| BwSync.RaisedIff | emulation/src/bwsync.rs:45-68 | a flow that shares a link with the updated one is raised exactly when it had been reduced and every shared link has room for it |
| BwSync.UpdateForeseen | emulation/src/bwsync.rs:196-211 | every flow uses after an update the least of its parts on the links of the path it takes, each computed from the flows before it; the updated flow included |
| BwSync.UpdatedFlow | emulation/src/bwsync.rs:45-68 | the updated flow never gets more than it asks for unless it had been reduced, and exactly that when all links of its path have room |
| BwSync.OffPathOverloadsIff | emulation/src/bwsync.rs:45-68 | a link off the path is overloaded after an update exactly when the usages foreseen for its flows exceed it |
| BwSync.UpdateOverloadsIff | emulation/src/bwsync.rs:7-43 | an update leaves some link overloaded exactly when one off the path is foreseen to be |
| BwSync.OffPathLoad | emulation/src/bwsync.rs:196-211 | a special case: when no touched flow had been reduced, no link off the path gets more load |
| OffPath.UpdateCanOverload | emulation/src/bwsync.rs:45-68 | from no flows, two updates lead to a state without overload and a third overloads a link off its path |
| FlowLoop.EmulCore.constructor | emulation/src/emulcore.rs:233-238 | the loop starts without flows and with the whole network left |
| FlowLoop.EmulCore.FlowUpdate | emulation/src/emulcore.rs:243-279 | over all events: known flows within their maximum, path links fit, and the bandwidth graph is what the flows leave; the flow gets at most the smaller of throughput and path bandwidth unless it had been reduced, and exactly that when there is room; error exactly without a connection |
| FlowLoop.LeftConnects | emulation/src/bwsync.rs:8 | what is left of a network connects what the network connects |
| RingSync.Synchronizer.Turn | emulation/src/emulcore.rs:435-507 | one message in the loop of a node: it keeps the stages of the ring, passes at most one message on, accepts only the leader's proposal and before its time, the leader after all others, and fails only after it and beyond what was allowed for |
| RingSync.StepKeeps | emulation/src/emulcore.rs:392-511 | every step of every node keeps the stages of the protocol, for any size of ring and any number of proposals |
| RingSync.OneToken | emulation/src/emulcore.rs:426-507 | there is at most one message in the ring |
| RingSync.AcceptedAgree | emulation/src/emulcore.rs:455-501 | who has accepted holds the leader's last proposal and accepted before that time |
| RingSync.LeaderIsLast | emulation/src/emulcore.rs:455-467 | the leader succeeds only after every other node has accepted |
| RingSync.ProposalIsFinal | emulation/src/emulcore.rs:446-452 | after the first acceptance the proposal does not change |
| RingSync.RunAgrees | emulation/src/emulcore.rs:392-511 | over a whole run all who ever accept agree on one begin time |
| RingSync.FailureIsLate | emulation/src/emulcore.rs:438-464 | a node fails only when the confirmation comes later than the leader had allowed for |
| RingSync.ConfirmsIff | emulation/src/emulcore.rs:437-452 | a proposal made anew is confirmed exactly when twice its round, plus the delay between two clock readings, is less than twice the round before plus a second; else another proposal follows |
| RingSync.ProposingTakesGrowingRounds | emulation/src/emulcore.rs:437-452 | every further proposal needs half a second more of round time or delay than the one before |
| RingSync.BoundedRoundsEnd | emulation/src/emulcore.rs:426-452 | from the leader's first proposal on: with bounded rounds and delays the proposals end, and how many there can be |
| RingSync.NoStall | emulation/src/emulcore.rs:435-507 | unless all have accepted or one has failed, some node can go on |
| JoinLock.Controller.Serve | cmanager/src/controller.rs:150-231 | an event at the leader keeps the lock and the graphs of the cluster; a grant is sent exactly on a request that took the free lock, while no earlier grant or outcome is open; outcomes free the lock; a lost node, and no other, leaves the graph |
| JoinLock.StepKeeps | cmanager/src/controller.rs:150-242 | every event, with loss, repetition and reordering of datagrams, keeps the lock and what copies of the graph hold |
| JoinLock.OneGrant | cmanager/src/controller.rs:202-231 | at most one granted join has not ended, and then the lock is taken |
| JoinLock.AdoptedGraph | cmanager/src/controller.rs:150-165 | an adopted graph is the leader's nodes, the joiner, and the nodes lost since the copy |
| JoinLock.NothingLost | cmanager/src/controller.rs:445-486 | without failures an adopted graph keeps all nodes and adds at most the joiner |
| JoinLock.LockReleasesIff | cmanager/src/controller.rs:202-231 | from a reachable state some run frees the lock if and only if it is not held for a grant without taker |
| JoinLock.StuckForever | cmanager/src/controller.rs:202-231 | no event ends that state or grants anything in it |
| JoinLock.GrantCanBeLost | cmanager/src/controller.rs:423-428 | a run that gets there: the request times out before its grant |

## Left out

- Orchestrators.Orchestrator.constructor: hosts have distinct addresses. Two nodes with one address and different ports, which
  become equal when both get the managers' port, are not covered.
- NewOrchestrators.Build: the same.
- Orchestrators.Orchestrator.NewEmulation: takes the bandwidth matrix of the applications as given; the network that is
  returned with the hosts written into its vertices is not modelled. An id that is already on record, which the source
  overwrites, is not covered.
- Orchestrators.Orchestrator.StopEmulation: an overflow ends the call and nothing is said about the matrix after it; a release
  build would wrap around and go on.
- Orchestrators.Orchestrator.RemoveClusterNode: the same.
- Orchestrators.Orchestrator.StopAppEmulationOn: keeps no ledger, because every pair is credited twice; it assumes that an
  application stops at most once and on its own host. The path on which a node no longer holds the emulation is not modelled.
- Networks.Network.PropertiesBetween: bandwidth only; drop, latency and jitter are floating-point sums along the same walk.
- Networks.Network.UpdateEdgesAlongPathBy: after a failure nothing is said about the bandwidths, since the program panics.
- BwSync.CalculateBandwidthGraph: exact for networks of shortest paths, the only ones that emulations are built with; on
  widest paths the routes move while bandwidth is deducted, so the result depends on the order of the flows.
- BwSync.UpdateFlows: an unsigned underflow is an outcome of its own; a release build would wrap around instead.
- BwSync.RemoveFlow: the same.
- BwSync.UpdateOverloadsIff: an update to no usage of a flow that stays active is not covered; the loop removes such a flow
  first (emulation/src/emulcore.rs:271-274).
- WaterFilling.DistributeBandwidthAcrossFlow: the division by zero when no flow remains has no value here; the source
  gets an infinity that nothing reads. Rounding of `f64` is not modelled.
- CGraphs.CGraph.AddLinkDirectTest: nothing is claimed about the speeds after a test that lowers an entry or is not a true
  measurement.
- CompleteGraphs.CompleteGraph: assumes that a test that succeeds measures the real bandwidth.
- CompleteGraphs.JoinAll: assumes the same, and that real bandwidths behave like widths of widest paths.
- FlowLoop.EmulCore.FlowUpdate: what the flows get is stated on networks of shortest paths. The arm for flow updates only; traffic-control messages, the lookup of addresses and the arms
  for events and containers are not modelled.
- RingSync.StepKeeps: one clock for all hosts and reliable connections in order; a single host, which skips the protocol, and
  messages of the wrong kind are not modelled.
- JoinLock.StepKeeps: nodes of the cluster graph only; the speeds in it are the matter of `CompleteGraph.dfy`. The number of
  retries of a joining node is not bounded.
- `Orchestrator::update_with_cgraph`: its closure compares a row of the matrix with an index of the cluster graph
  (emulation/src/orchestrator.rs:201), which agree only when hosts are in the graph's order.
- Overflow of `u32` and `usize` other than the stated ones; `Duplex`, which nothing sets to half duplex; path caches,
  which are commented out; `edit_vertex` and `bandwidth_matrix` beyond what `WidthTriangle` says of its entries.
- `find_leader`, `map_nodes`, random networks, printing, serialisation and sockets, container life cycle, traffic control,
  heartbeat timing, and the dispatch of messages between emulations.
