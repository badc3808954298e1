# ActiveRMT: memory allocation, mutants, isolation and the switch cache

ActiveRMT runs small programs of its clients on a switch pipeline of 20 stages and shares each stage's memory among
them. This project models, in Dafny, the parts that have to agree for that to be safe and useful, and proves how
they fit together.

**The stage allocator.** Each stage is a column of blocks. Inelastic programs are pinned below the stage's elastic
offset; elastic ones share the blocks above it by progressive filling. `AllocatorModel` states this as a state
machine over the matrix, the tenant maps, the offsets and the hole lists; `Allocator.dfy` holds the class with its
matrix, and every method is proved to take the machine's step. `Sharing`, `Columns` (modules `Columns` and `Holes`),
`Layout`, `StageLayout`, `Costs`, `Ranking` and `ChangeReport` carry the filling, the hole scan, one stage's layout,
its loops, the cost functions, the search and the change report; `CostOrder` says how the costs rank stages and
placements. `Admission` relates the cost functions' verdict to what can be laid out, `TrailingHoles` is a run to a
state in which they differ, and `Simulation` drives the allocator through a workload.

**The controller.** `Controller.dfy` is the controller with its queue, drain queue, versions and installed match
entries; handlers are atomic. `DrainLog` says what history of notes the drain protocol allows, `ControllerModel`
what the books keep between handlers, `Reactions` the one admissible answer to every signal, `SwitchTables` what the
match entries let a program do, and `Isolation` why rewriting only the reported programs keeps every installed range
inside its program's blocks. Together: whatever requests, digests and timeouts arrive, no address of any stage is
shared by two programs.

**Placements and mutants.** `ActiveFunction.dfy` computes a program's constraints, runs the odometer over all
placements of its memory accesses (`Odometer`, `Combinations`, `Placements`) and prunes those that change which
accesses share a stage (`Aliases`). The client learns only the set of allocated stages; `Mutation` rebuilds the
NOP-padded mutant from it and `RoundTrip` proves that it is the one the allocator meant.

**The instruction machine.** `Machine` gives the meaning of the instructions: the table's decision (run, skip,
rejoin, miss), the register actions, the memory actions on a stage's heap, and a program's run through the stages.
`Words` and `Instructions` say what the operations are for, by laws over bits, sums, memory and jumps.
`Pipeline.dfy` is the machine as in-place assignments, `Lookup.dfy` derives the decisions from the entries the
controller installs, and `Protection` concludes that no program can change another one's memory. `Mutants` proves
that a mutant means what its program means, and `DoneFlag` when its done flag differs; `Loads` and `Optimizer` say
exactly when dropping loads, as the client compiler does, keeps the meaning; `Mnemonics` is what the compiler reads
off an instruction's name.

**Programs on the switch.** `Cache` counts a client's requests and builds the image of its most frequent keys;
`KvStore` runs the key-value program and its mutants on the machine and proves that they answer exactly for the
stored keys. `HeavyHitter` runs the monitor: a count-min sketch that never underestimates, and slots that hold their
heaviest key. `LoadBalancer` sends new flows to the servers in turn and finds a flow's server again from its cookie.

Every proof about a class is a contract of its methods; what the contracts mean over whole runs is stated as lemmas
about the specification functions and predicates they use.

Some of what the code promises holds only under a condition, and is proved with it:

- A free block just below the elastic offset is advertised by the hole list, but the rescan never closes it. An
  accepted arrival can then be impossible to lay out, and the allocator gets into such a state
  (`TrailingHoles.ReachesTrailingHole`). It can be laid out if and only if every stage gives it room, and always when
  no stage has such a hole (`Admission.AdmissionIsExact`). When it fails, the handler's error kills the monitor
  thread; tables and current allocation stay as they were (`Controllers.Controller.Allocate`).
- The guards refuse some arrivals that could be laid out. Elastic ones never (`Admission.ElasticAdmitted`), inelastic
  ones exactly if they need a hole and the list is not headed by a hole that holds them and is longer than the region
  above the offset (`Admission.RefusedExactly`), as in the stage of `Admission.FittingRefused`.
- The hole scan never resets its end marker. A closed free run is recorded with its length if and only if it has two
  blocks or more or is the first (`Holes.RescanRecords`); any other gets a negative length (`Holes.ScanStale`), as the
  second hole does in the stage of `Holes.SecondHoleLost`.
- The enumeration's resets stay within the upper bounds if and only if the slack never decreases from one access to
  the next (`Odometer.BoundsHoldIffRising`). An ingress limit breaks this exactly if it lies between the accesses and
  the room before it exceeds the spare length (`Placements.BoundsKept`), as for the program of
  `Placements.DraggedTooFar`. What is enumerated is characterised without that hypothesis, and `Placements.LengthKept`
  says when a mutant keeps its length.
- The move-cost formula works on the blocks no inelastic program holds, while the elastic ones divide the blocks above
  the offset. It covers the programs that move if and only if it spares no more of them than are in place already
  (`Costs.MovingCostCounts`). For the largest FID, in a stage that is laid out and has no hole, it always does and
  overestimates in exactly one case (`Costs.MovingCostTiled`); a hole below the offset or an elastic departure can
  make it too low (`Costs.HoleUndercounts`, `Costs.DepartureUndercounts`). A comment in the source gives another
  formula than the code; the code is modelled.
- Load elimination overlooks that memory instructions, salts and second operands change registers
  (`Optimizer.OverlookedAre`). It is right, in any program whose other instructions may move and for any packet, if
  and only if each dropped load has nothing to do when the packet gets to it (`Optimizer.OptimizedAgreesIff`).
- The early return marks a packet as done on ingress stages only. A mutant differs from its program in that flag if
  and only if the return crosses to the egress side and no EOF is run (`DoneFlag.DoneDiffers`,
  `DoneFlag.ReturnCrosses`). It never does for a fresh packet and a program that ends with EOF, as every compiled one
  does (include/python/ap4common.py:118).
- The client's request table looks a key up by its lower word. The slot of every requested key holds a key requested
  at least as often, for every region and hash, if and only if no two requested keys share that word
  (`Cache.RightExactly`). A key that does not come first with its lower word is never stored (`Cache.ListedExactly`),
  however often it is requested (`Cache.SharedWordNotStored`).

## Model

| member | source | states |
|---|---|---|
| Sharing.FillingIsMaxMinFair | activermt/controlplane/allocator.py:766-790 | progressive filling divides the region, and in any other division whoever gains over it takes from a tenant that ends up strictly poorer: integer max-min fairness |
| Sharing.WorstOffIsBest | activermt/controlplane/allocator.py:766-790 | no division of the region gives its worst-off tenant more than the filling gives its own |
| Sharing.MoveCostBounds | activermt/controlplane/allocator.py:325-339 | where the formula's N is the region the tenants divide, it is never less than the number of tenants whose block interval changes, and exact if and only if the old division was not an even one that is a block deeper |
| Sharing.MovedFrom | activermt/controlplane/allocator.py:766-790 | of the tenants of an (x-1)-way division, exactly the first few keep their interval in the x-way one: region % x of them when the floors agree or the old division was even and a block deeper, and none otherwise |
| Sharing.MoveCostCovers | activermt/controlplane/allocator.py:325-339 | for the formula's own N, which may be larger than the divided region: it covers the tenants that move if and only if a floor drops in N or N % x is at most the number that stay, and counts them exactly if and only if the two numbers of staying tenants agree |
| Holes.RescanOk | activermt/controlplane/allocator.py:684-702 | the rescan lists pairwise disjoint ranges; every entry of positive length is a maximal free run strictly below the offset that an occupied block follows |
| Holes.ScanSound | activermt/controlplane/allocator.py:684-702 | every scanned entry starts at a closed free run, in ascending order; its length is that of the run, or negative for a single block |
| Holes.ScanComplete | activermt/controlplane/allocator.py:684-702 | every closed free run below the offset has an entry, with its length if it has two blocks or more or comes first |
| Holes.ScanStale | activermt/controlplane/allocator.py:684-702 | the entry of a single free block that comes after another hole has a negative length: the end marker is stale |
| Holes.RescanRecords | activermt/controlplane/allocator.py:684-702 | a closed free run is recorded with its length if and only if it has two blocks or more or no hole before it |
| Holes.SecondHoleLost | activermt/controlplane/allocator.py:684-702 | three inelastic programs of two blocks, each followed by one free block but the last: the second hole is recorded with length -2 |
| Holes.RescanFits | activermt/controlplane/allocator.py:743-752 | for a demand of at least two blocks the rescan offers a hole exactly if some closed free run is long enough |
| Holes.TakeFromOk | activermt/controlplane/allocator.py:758-764 | taking blocks from the front of an entry leaves a list of disjoint free ranges |
| Holes.TakeFromExactly | activermt/controlplane/allocator.py:758-764 | the blocks on the list afterwards are exactly those on it before, minus the blocks taken: the rest of the hole stays listed |
| Holes.FreeRangeInClosedRun | activermt/controlplane/allocator.py:684-702 | without a trailing hole every free range below the offset lies inside a run the rescan can close |
| Layout.StageStepOk | activermt/controlplane/allocator.py:672-868 | laying out a stage keeps it well formed: inelastic tenants hold exactly their demand in one run below the offset, elastic ones a non-empty run above it; inelastic blocks do not move and the new hole list describes free runs |
| Layout.HolesKept | activermt/controlplane/allocator.py:743-868 | after a layout the listed blocks are exactly those the rescan found free, minus the ones the arrival got |
| Layout.RecordedKept | activermt/controlplane/allocator.py:684-764 | every block of a hole the rescan records right is the arrival's or still listed after the layout |
| Layout.AdmissionSound | activermt/controlplane/allocator.py:366-409 | in a stage without a trailing hole, passing the guards of the cost functions means the stage can be laid out |
| Layout.AdmissionExact | activermt/controlplane/allocator.py:366-409 | in any well-formed stage, an arrival that passes the guards can be laid out exactly if it is elastic, or a closed free run holds it, or the region above the offset does |
| Layout.StageDepartOk | activermt/controlplane/allocator.py:1031-1066 | a departure keeps the stage well formed and everybody else's blocks, whether the offset drops or a hole is listed |
| Layout.DepartHolesKept | activermt/controlplane/allocator.py:1052-1057 | a departure keeps all listed holes, in order, and adds exactly the run of an inelastic program that leaves a gap below the offset; the offset drops exactly if the program held the block below it |
| StageLayout.CopyInelastic | activermt/controlplane/allocator.py:684-702 | copies the blocks below the offset, returns the rescan of the column and the tenants found there |
| StageLayout.FindHole | activermt/controlplane/allocator.py:743-752 | finds the first of the largest entries that can hold the demand, and none exactly if none can |
| StageLayout.PlaceInelastic | activermt/controlplane/allocator.py:733-765 | gives an inelastic arrival the front of the chosen hole, or the blocks at the offset, which then moves up; fails exactly if the blocks do not exist |
| StageLayout.FillElastic | activermt/controlplane/allocator.py:766-790 | the round-robin loop terminates and hands every elastic tenant, in order, its share of the closed form |
| StageLayout.MakeClusters | activermt/controlplane/allocator.py:791-826 | all clusters fit in the region, one per tenant in order |
| StageLayout.Pack | activermt/controlplane/allocator.py:831-844 | the clusters tile the region from the offset to the end of the column without gaps |
| StageLayout.LayoutColumn | activermt/controlplane/allocator.py:672-844 | the loops for one stage compute the stage's layout, and fail exactly if none exists |
| StageLayout.ClearBlocks | activermt/controlplane/allocator.py:1038-1050 | frees exactly the tenant's blocks, and reports how many, the last one, and whether the column is empty then |
| Costs.StageCostFit | activermt/controlplane/allocator.py:366-409 | one stage's fit cost: negative exactly if a guard fails |
| Costs.StageCostMoving | activermt/controlplane/allocator.py:289-364 | one stage's move cost: negative exactly if a guard fails |
| Costs.ArrivalMovesRest | activermt/controlplane/allocator.py:766-844 | when an elastic program arrives in any well-formed stage, the tenants whose blocks change are all elastic ones but those that already hold what the new division gives them |
| Costs.ArrivalMoves | activermt/controlplane/allocator.py:766-844 | in a stage the filling has laid out, and for an arrival with the largest FID, they are those whose interval differs between the two divisions |
| Costs.InelasticRegionIs | activermt/controlplane/allocator.py:325-334 | the inelastic demands the formula subtracts add up to the occupied blocks below the offset: to the offset exactly if no block below it is free |
| Costs.MovingCostCounts | activermt/controlplane/allocator.py:325-339 | in any stage that takes an elastic arrival: the move cost covers the tenants whose blocks change if and only if the formula spares no more tenants than are in place already, and counts them exactly if and only if it spares as many |
| Costs.MovingCostTiled | activermt/controlplane/allocator.py:325-339 | the same in numbers for a stage the filling has laid out and the largest FID; without a hole below the offset the cost covers the tenants that move, and is exact unless the old division was even and a block deeper |
| Costs.HoleUndercounts | activermt/controlplane/allocator.py:325-339 | an accepted arrival in a stage with a hole below the offset: the cost is 3 and five tenants move |
| Costs.DepartureUndercounts | activermt/controlplane/allocator.py:325-339 | an accepted arrival after an elastic departure: the cost is 4 and five tenants move |
| Ranking.CandidateFeasible | activermt/controlplane/allocator.py:366-409 | a candidate's cost is non-negative exactly if every one of its stages passes the guards |
| CostOrder.FitPrefersRoom | activermt/controlplane/allocator.py:366-409 | with as many elastic tenants, the stage with the smaller elastic region costs more |
| CostOrder.FitPrefersFew | activermt/controlplane/allocator.py:366-409 | with the same region, the stage with more elastic tenants costs more |
| CostOrder.FitRatio | activermt/controlplane/allocator.py:393-394 | the fit cost is to the elastic tenancy as the column is to its elastic region |
| CostOrder.FitIsTenancy | activermt/controlplane/allocator.py:393-394 | the fit cost is the elastic tenancy itself exactly in a stage without inelastic region or without elastic tenants |
| CostOrder.FitInelastic | activermt/controlplane/allocator.py:396-408 | for an inelastic demand the fit cost and the blocks no minimum demand claims make up the column |
| CostOrder.MovesRanked | activermt/controlplane/allocator.py:289-339 | ranked by moves, a stage's cost covers the tenants whose blocks change if and only if the formula spares no more than are in place |
| CostOrder.InelasticMoves | activermt/controlplane/allocator.py:336-345 | an inelastic arrival is charged every elastic tenant of the stage, never less than move |
| CostOrder.CostsAdd | activermt/controlplane/allocator.py:366-409 | a feasible placement on two lists of stages costs the sum of what it costs on each; an infeasible list makes the whole infeasible |
| CostOrder.OrderIndifferent | activermt/controlplane/allocator.py:366-409 | a placement's cost does not depend on the order of its stages |
| Admission.AdmissionIsExact | activermt/controlplane/allocator.py:672-868 | an accepted placement can be laid out if and only if every stage gives it room; without trailing holes it always can |
| Admission.AcceptedIsHosted | activermt/controlplane/allocator.py:856-868 | laying out an accepted placement loses no tenant and hosts the arrival on every chosen stage |
| TrailingHoles.ReachesTrailingHole | activermt/controlplane/allocator.py:1052-1057 | admission is not sound in general: a run of two arrivals and two departures ends in a state with a trailing hole, which is advertised but never closed, and in which an accepted arrival cannot be laid out |
| Admission.SearchAdmits | activermt/controlplane/allocator.py:575-595 | a program is refused exactly when no candidate is accepted, and the one chosen is accepted |
| Admission.ElasticAdmitted | activermt/controlplane/allocator.py:387-392 | an elastic arrival is accepted on a stage exactly if it can be laid out there |
| Admission.RefusedExactly | activermt/controlplane/allocator.py:393-406 | an inelastic arrival that can be laid out is refused exactly if the region above the offset has no room for it beside the elastic tenants and the list is not headed by a hole that holds it and is longer than that region |
| Admission.FittingRefused | activermt/controlplane/allocator.py:393-406 | a stage with a hole of two blocks and four elastic programs on four blocks: an arrival of two blocks fits the hole and is refused |
| AllocatorModel.EnqueuesOk | activermt/controlplane/allocator.py:870-970 | queuing an allocation keeps the invariant, pending allocation included |
| AllocatorModel.DepartsOk | activermt/controlplane/allocator.py:1031-1066 | a departure keeps the invariant: matrix, tenant maps, their inverse, stages in use, offsets and hole lists agree |
| AllocatorModel.RunOk | activermt/controlplane/allocator.py:672-1066 | every state of every run of arrivals, commits and departures is well formed |
| AllocatorModel.PinnedForTenancy | activermt/controlplane/allocator.py:688-765 | until its own departure an inelastic tenant has the same blocks in every stage, in every state of every run |
| AllocatorModel.UnlistedKeep | activermt/controlplane/allocator.py:883-950 | whoever the change report does not list on a stage keeps all its blocks there; inelastic programs are never listed |
| AllocatorSteps.InvertMap | activermt/controlplane/allocator.py:953-959 | the tenant-to-stages map is the inverse of the stage-to-tenants map, stages in ascending order |
| ChangeReport.Compare | activermt/controlplane/allocator.py:873-950 | the comparison lists a program and a stage exactly if the program is elastic there and loses a block, with the old and the new block list |
| ChangeReport.CompareIsExact | activermt/controlplane/allocator.py:873-950 | between two tables that agree with their tenants the comparison is the exact change report |
| Allocators.Allocator.constructor | activermt/controlplane/allocator.py:178-204 | a new allocator is the initial state of the model |
| Allocators.Allocator.GetCost | activermt/controlplane/allocator.py:452-465 | the loop over a candidate's stages computes the sum of their costs, or -1 as soon as one cannot take its demand |
| Allocators.Allocator.Search | activermt/controlplane/allocator.py:575-595 | the search settles on the first feasible candidate, or on the first with the least or greatest cost |
| Allocators.Allocator.ComputeAllocation | activermt/controlplane/allocator.py:558-670 | records the chosen stages of the new program, or forgets it when every candidate is infeasible |
| Allocators.Allocator.ComputeAllocationMatrix | activermt/controlplane/allocator.py:672-868 | lays out all stages with tenants, and fails exactly if one of them cannot be laid out |
| Allocators.Allocator.EnqueueAllocation | activermt/controlplane/allocator.py:870-970 | takes the model's step that queues an allocation, with the exact change report, and fails exactly if some stage cannot be laid out, leaving the current allocation untouched |
| Allocators.Allocator.ApplyQueuedAllocation | activermt/controlplane/allocator.py:972-980 | takes the model's step that makes the queued allocation current; does nothing when none is queued |
| Allocators.Allocator.Deallocate | activermt/controlplane/allocator.py:1031-1066 | takes the model's departure step for a known program, and changes nothing for an unknown one |
| Allocators.Allocator.GetAllocationBlocks | activermt/controlplane/allocator.py:1012-1021 | the ascending block list of a program on exactly the stages where it has blocks |
| Allocators.Allocator.GetAllocationBlocksRange | activermt/controlplane/allocator.py:1023-1029 | first and last block on each stage of a program, between which it holds every block |
| Simulations.Simulation.Run | malloc/memory_allocation.py:138-184 | serves a workload event by event, each as the model's steps for the placement the search settles on, and stops only at an arrival whose settled placement cannot be laid out |
| Simulations.SimulationOk | malloc/memory_allocation.py:138-184 | between any two events of a simulation the allocator is well formed and nothing is pending |
| Isolation.CommitContained | activermt/controlplane/controller.py:689-728 | rewriting only reported programs keeps every installed range within its program's blocks, and the admitted program and the reported ones get ranges that cover exactly theirs |
| Isolation.RunCovers | activermt/controlplane/controller.py:689-728 | in every state of every run each installed range covers exactly the blocks its program had at some commit, and has been among its blocks ever since |
| Isolation.DepartContained | activermt/controlplane/controller.py:844-884 | removing a departing program's ranges keeps the others within their programs' blocks |
| Isolation.RunIsolated | activermt/controlplane/controller.py:561-577 | in every state of every run the ranges installed for two programs on the same stage are disjoint and inside the column |
| SwitchTables.RangeEntriesOk | activermt/controlplane/controller.py:323-419 | the entries for a range belong to its program alone, and those that run an instruction cover exactly the range |
| SwitchTables.RemovedRange | activermt/controlplane/controller.py:268-284 | removing a program's memory entries removes its range and nobody else's |
| SwitchTables.InstalledRange | activermt/controlplane/controller.py:571-577 | installing a program's memory entries adds its range and changes nobody else's |
| SwitchTables.PerformsInRange | activermt/controlplane/controller.py:323-419 | the switch runs a program's memory instruction only at addresses of the range installed for it on that stage |
| SwitchTables.NoSharedAddress | activermt/controlplane/controller.py:561-577 | with isolated ranges and a block size that divides the memory, no address of a stage is used by two programs and none lies outside the memory |
| SwitchTables.StartupOk | activermt/controlplane/controller.py:422-436 | the entries shared by everybody give nobody access to memory |
| DrainLog.CommitEarned | activermt/controlplane/controller.py:1086-1110 | no commit without its queued allocation, and none before every queued peer has acknowledged since then, or the wait has timed out |
| DrainLog.CommittedOnce | activermt/controlplane/controller.py:638-671 | once nothing is waiting, every queued allocation has been committed exactly once |
| DrainLog.MarksPaired | activermt/controlplane/controller.py:1071-1147 | the history queues and commits in pairs for the same program, the last pair open exactly while peers are awaited |
| DrainLog.VersionRises | activermt/controlplane/controller.py:782-786 | between two moments of a history a program's version never falls, and rises if and only if a commit in between admitted or remapped it |
| ControllerModel.CommitBooks | activermt/controlplane/controller.py:638-671 | committing leaves the queue empty, the new tenants active, and every version equal to the number of commits that wrote the program's ranges |
| Controllers.Controller.constructor | activermt/controlplane/controller.py:77-162 | a new controller shares the memory out evenly and grants nobody access |
| Controllers.Controller.RemoveMemoryAccessEntries | activermt/controlplane/controller.py:268-284 | removes exactly the entries that let the program use a memory instruction, keeping the order of the others |
| Controllers.Controller.InstallInstructionTableEntry | activermt/controlplane/controller.py:323-419 | appends the entries of one instruction, in order |
| Controllers.Controller.GetMemoryRange | activermt/controlplane/controller.py:561-569 | from the address of the first block to the end of the last; zero for no blocks |
| Controllers.Controller.InstallMemoryAccessEntries | activermt/controlplane/controller.py:571-577 | appends the entries of every memory instruction for the range |
| Controllers.Controller.ReinstallPeers | activermt/controlplane/controller.py:705-728 | replaces the ranges of exactly the remapped programs on exactly the reported stages |
| Controllers.Controller.RaiseVersions | activermt/controlplane/controller.py:782-786 | raises the versions of exactly the remapped programs by one |
| Controllers.Controller.UpdateAllocation | activermt/controlplane/controller.py:689-836 | the tables then hold exactly the old ranges, with those of the listed programs replaced by the span of their new blocks and the admitted program's span added on each of its stages |
| Controllers.Controller.ResumeAllocation | activermt/controlplane/controller.py:638-671 | commits the pending allocation in allocator, ranges, books and history at once, refreshed ranges covering exactly their program's blocks; does nothing when none is being drained |
| Controllers.Controller.Allocate | activermt/controlplane/controller.py:886-989 | ignores an active program and refuses exactly when no candidate is accepted, changing nothing; otherwise queues the allocation for the placement the search settles on and drains the remapped peers, committing at once if there are none; dies exactly if a stage cannot be laid out, with tables, ranges and current allocation as they were |
| Controllers.Controller.OnRemapAck | activermt/controlplane/controller.py:1071-1111 | only an acknowledgement of a peer still owed moves the drain on; the last one commits the allocation, every other digest changes no table |
| Controllers.Controller.GiveUp | activermt/controlplane/controller.py:1131-1147 | after the timeout the peers still owed are forgotten and the allocation is committed |
| Controllers.Controller.Deallocate | activermt/controlplane/controller.py:844-884 | an active program leaves allocator, tables and active list, and nobody else does; for any other nothing changes |
| Controllers.Controller.Handle | activermt/controlplane/controller.py:1119-1153 | gives each signal its answer: an idle, live monitor admits, refuses or releases; acknowledgements owed and timeouts move the drain on; everything else changes nothing |
| Controllers.Controller.HandleAll | activermt/controlplane/controller.py:1119-1153 | answers every signal of the list in order, one step each, and no address of any stage is then shared by two programs or lies outside the memory |
| Controllers.Controller.History | activermt/controlplane/controller.py:1071-1147 | a non-empty drain queue implies a pending initiator and names exactly the peers still owed; queue and active are disjoint; versions count commits; the allocator went through a run of the model, whose arrivals and commits are those of the history, in order and for the same programs, each arrival committed before the next |
| Controllers.Controller.ProgramsIsolated | activermt/controlplane/controller.py:561-577 | in every reachable state the programs' accesses never meet |
| Odometer.TurnedIsNext | activermt/controlplane/allocator.py:114-126 | no reachable vector lies between a vector and the one after the rightmost possible turn |
| Odometer.StuckIsLast | activermt/controlplane/allocator.py:119-123 | when no access can move, no reachable vector is greater |
| Odometer.RisingReachable | activermt/controlplane/allocator.py:97-126 | with slack that never decreases, the vectors of shifts are exactly the non-decreasing ones within the slack |
| Odometer.BoundsHoldIffRising | activermt/controlplane/allocator.py:71-74 | all enumerated shifts stay within their bounds if and only if the slack never decreases |
| Placements.BoundsKept | activermt/controlplane/allocator.py:71-74 | all enumerated placements of a program stay within its bounds if and only if there is no ingress limit, or it lies before or behind all accesses, or the room before it does not exceed the spare length |
| Placements.DraggedTooFar | activermt/controlplane/allocator.py:114-126 | a program of 18 instructions with accesses at 0 and 5 and the limit at 1: its second access is enumerated eight positions on where it may move one |
| Combinations.UniformCount | activermt/controlplane/allocator.py:97-126 | with the same slack K on all n accesses the odometer runs through C(K + n, n) vectors |
| Aliases.Pigeonhole | activermt/controlplane/allocator.py:101-113 | keeping every group together without losing a stage is the same as changing no alias |
| Aliases.GroupsKept | activermt/controlplane/allocator.py:127-140 | comparing neighbours in each group of accesses is enough to keep all of it together |
| Aliases.StageRepeats | activermt/controlplane/allocator.py:101-101 | ingress stages come once; egress positions ten apart share a stage, neighbours do not |
| Placements.LimitedStaysOnIngress | activermt/controlplane/allocator.py:71-75 | in every placement the ingress-only instruction, if it is no access itself, lands on an ingress stage |
| Placements.LengthKept | activermt/controlplane/allocator.py:61-75 | every mutant stays shorter than the maximum if and only if there is no ingress limit after the first access, or the room before the limit does not exceed the spare length |
| Placements.MaxLengthIsGreatest | activermt/controlplane/allocator.py:61-65 | the maximum length is the greatest that takes no more passes through the pipeline than the program itself, or one more if filling is allowed |
| ActiveFunctions.VariantWellFormed | activermt/controlplane/allocator.py:144-160 | the stages offered to the allocator are a well-formed request |
| ActiveFunctions.ActiveFunction.ComputeConstraints | activermt/controlplane/allocator.py:61-75 | lowest and highest position of every access, and the longest mutant that needs no further recirculation |
| ActiveFunctions.ActiveFunction.Turn | activermt/controlplane/allocator.py:114-126 | the odometer terminates and lists the placement of every reachable vector of shifts, in strict lexicographic order, each once |
| ActiveFunctions.ActiveFunction.Prune | activermt/controlplane/allocator.py:127-140 | keeps exactly the placements under which the same accesses share a stage as in the program, in order |
| ActiveFunctions.ActiveFunction.EnumeratedIs | activermt/controlplane/allocator.py:97-140 | a placement is enumerated if and only if it shifts the accesses within the constraints and keeps the program's aliases |
| ActiveFunctions.ActiveFunction.EnumeratedInOrder | activermt/controlplane/allocator.py:97-140 | placements come in strict lexicographic order, so each of them once |
| ActiveFunctions.ActiveFunction.EnumeratedKeepsLimit | activermt/controlplane/allocator.py:71-75 | in every enumerated placement the ingress-only instruction stays on an ingress stage |
| ActiveFunctions.ActiveFunction.UnlimitedCount | activermt/controlplane/allocator.py:97-126 | without an ingress limit there are C(K + n, n) placements before pruning, K being the spare length, and one for a program as long as its longest mutant |
| ActiveFunctions.ActiveFunction.OriginalEnumerated | activermt/controlplane/allocator.py:97-140 | the placement the program was written for always comes through |
| ActiveFunctions.ActiveFunction.GetEnumeration | activermt/controlplane/allocator.py:152-160 | offers the stages of every placement, each a request the controller may be given |
| ActiveFunctions.ActiveFunction.GetVariant | activermt/controlplane/allocator.py:144-150 | the placement with a number, as positions or as its set of stages in ascending order |
| Lookups.LookupDecides | activermt/controlplane/controller.py:323-419 | looking a packet up in the entries installed for its instruction, longest mbr prefix first, gives the machine's decision to run, skip or rejoin |
| Lookups.MatchedIsLongest | activermt/dataplane/templates/instruction.p4:15-24 | the entry found matches, and no matching entry has a longer prefix |
| Machine.XorZero | activermt/dataplane/templates/actions.common.p4:54-56 | the equality instruction leaves zero exactly if the two words are equal |
| Instructions.RunsWhen | activermt/opcode_action_mapping.csv:1-50 | a running packet has an instruction run exactly if its address is in range and its test holds: a word in mbr for CRET, CJUMP, CRTS and MEM_WRITE_CONDZERO, none for CRETI and CJUMPI |
| Instructions.OnlyWrites | activermt/dataplane/templates/actions.common.p4:23-146 | an instruction writes only what its mnemonic says, and never argument word 0 |
| Instructions.MbrSums | activermt/dataplane/templates/actions.common.p4:85-107 | adding and subtracting undo each other on 32-bit words |
| Instructions.MarSums | activermt/dataplane/templates/actions.common.p4:77-91 | the address sums give back one operand when the other is taken away |
| Instructions.AndOr | activermt/dataplane/templates/actions.common.p4:73-103 | the bitwise instructions, bit by bit |
| Words.AndMask | activermt/dataplane/templates/actions.common.p4:73-75 | and with k low bits is the remainder modulo 2^k |
| Instructions.Orders | activermt/dataplane/templates/actions.common.p4:41-118 | MIN, MAX and REVMIN leave the lesser or the greater of the two words |
| Instructions.JumpSkips | activermt/controlplane/controller.py:323-419 | a taken jump goes on behind the next label with the packet and the heaps as they were |
| Instructions.WriteThenRead | activermt/dataplane/templates/memory.p4:48-59 | whoever reads an address gets what was written there last |
| Instructions.IncrementsCount | activermt/dataplane/templates/memory.p4:64-70 | packets that increment a cell count up in it modulo 2^32 and each gets its own number |
| Instructions.MinReads | activermt/dataplane/templates/actions.p4:55-63 | the minimum reads leave the word read in mbr and the lesser of it and the old mbr2 in mbr2 |
| Instructions.ConditionalWrite | activermt/dataplane/templates/memory.p4:84-101 | the conditional write takes an empty cell and keeps a full one, and leaves zero exactly if the cell then holds mbr2 |
| Pipelines.Pipeline.constructor | activermt/dataplane/templates/control.ingress.p4:201-206 | a packet enters with its argument words, in the registers too if it asks for preload |
| Pipelines.Pipeline.RunAction | activermt/dataplane/templates/actions.common.p4:23-146 | the register actions, as assignments, do what the machine says and touch no heap |
| Pipelines.Pipeline.RunMemory | activermt/dataplane/templates/actions.p4:35-63 | the memory actions read and overwrite exactly the addressed cell of the stage's heap |
| Pipelines.Pipeline.ApplyStage | activermt/dataplane/templates/instruction.p4:15-38 | one stage decides and acts as the machine says |
| Pipelines.Pipeline.Run | activermt/dataplane/templates/control.ingress.p4:201-222 | running a program stage by stage in place gives the machine's packet and heaps |
| Lookups.TableDecides | activermt/controlplane/controller.py:323-419 | in a stage whose whole table is in order, looking a packet up gives the decision the machine takes with the range installed for its program |
| Protection.SwitchDecides | activermt/dataplane/templates/instruction.p4:15-38 | in every state the controller can reach, the table of every stage decides for every packet as the machine does with the program's installed range |
| Protection.RunStaysInRange | activermt/dataplane/templates/memory.p4:49-101 | a program's run leaves every cell outside its ranges alone, on every stage |
| Protection.ProgramsProtected | activermt/controlplane/controller.py:561-577 | in every state the controller can reach, running any program with any packet changes no cell of another program |
| Mutants.SameInstructions | include/c/common/activep4.h:572-586 | erasing the NOPs of the mutant and of the program leaves the same instructions and goto bits in the same order |
| Mutants.MutantMeansProgram | include/c/common/activep4.h:543-586 | run on its allocated stages, with the heaps and ranges of the program's own stages renamed, a mutant leaves the same registers, argument words, flags and forwarding decisions, and the same heaps renamed; the done flag alone may differ, after an early return in a program that does not end with EOF |
| DoneFlag.DoneDiffers | activermt/dataplane/templates/control.egress.p4:44-50 | the done flags of a program and its mutant differ if and only if an unmarked packet returns on an ingress stage that becomes an egress one, and no EOF is run |
| DoneFlag.ReturnCrosses | activermt/dataplane/templates/control.egress.p4:44-50 | a program of an access and an early return, and its mutant with ten NOPs in front, which differ in the flag |
| Mutation.Client.FitsAsIs | include/c/common/activep4.h:448-457 | whether the stages of all accesses are among the allocated ones |
| Mutation.Client.Increase | include/c/common/activep4.h:549-564 | the mutant's extra length is the shift of the last access, unless some access would have to move less than the one before it |
| Mutation.Client.Assemble | include/c/common/activep4.h:566-586 | NOPs everywhere and the program copied block by block from the end make the mutant |
| Mutation.Client.MutateActiveProgram | include/c/common/activep4.h:445-594 | leaves the program alone if it fits as it is; otherwise builds the mutant, or stops when the number of stages or the length is wrong |
| RoundTrip.StagesTellPlacement | include/c/common/activep4.h:468-473 | the set of allocated stages determines a placement that does not wrap around |
| RoundTrip.Rebuild | include/c/common/activep4.h:445-594 | given only the stages of a placement, a client that starts from its program ends up with exactly the mutant of that placement, unless it is too long |
| RoundTrip.EnumeratedMeansProgram | activermt/controlplane/allocator.py:97-140 | every mutant of an enumerated placement means what the program means |
| Loads.LoadIsNeutral | activermt/dataplane/templates/actions.common.p4:136-146 | a load does nothing exactly if the packet is complete, or is jumping and the load carries no label, or the register holds the word already |
| Loads.ApplyKeeps | activermt/dataplane/templates/actions.common.p4:23-146 | an instruction that does not interfere keeps the register loaded |
| Loads.ThinnedAgreesIff | include/python/ap4common.py:120-134 | for any dropped loads and any packet, where the other instructions may move: the shorter program agrees with the program after every instruction if and only if every dropped load has nothing to do when the packet gets to it |
| Loads.ThinnedMeansProgram | include/python/ap4common.py:120-134 | dropping unlabelled loads with which nothing interferes changes no register, argument word, forwarding decision or heap, and no flag, the done flag excepted in programs that do not end with EOF |
| Optimizer.Track | include/python/ap4common.py:69-86 | records for each register its first instruction that says LOAD, and whether the register was mentioned before |
| Mnemonics.TrackedIsNamed | include/python/ap4common.py:51-86 | the register an instruction mentions is the one its mnemonic names first, or the one a few mnemonics without a name are listed for; memory instructions mention none |
| Optimizer.Optimize | include/python/ap4common.py:120-136 | drops exactly the first load of each register whose first LOAD was not preceded by a mention, and finds the memory accesses of what is left |
| Optimizer.MemidxNamesAccesses | include/python/ap4common.py:131-134 | the recomputed memory indices name the same accesses, in order |
| Optimizer.OptimizedMeansProgram | include/python/ap4common.py:120-134 | load elimination preserves meaning for every preloaded packet when the dropped loads are unlabelled, nothing before them interferes, and a dropped address load has a 20-bit word |
| Optimizer.OptimizedAgreesIff | include/python/ap4common.py:120-136 | for every packet, and every program whose kept instructions may move, the optimized program agrees with the program after every instruction if and only if each load the compiler drops is idle when the packet gets to it |
| Optimizer.OverlookedAre | include/python/ap4common.py:69-88 | the writes the bookkeeping does not associate with their register are exactly those of memory instructions, LOAD_SALT, LOAD_PKTCOUNT, the second operand of SWAP_MBR_MBR2, and the argument word of MBR_STORE_ALT2 |
| Optimizer.OverlookedLoadDropped | include/python/ap4common.py:69-136 | behind any of these the load is dropped, which is right exactly if it is idle |
| Optimizer.SaltedLoadDropped | include/python/ap4common.py:69-88 | without that condition it is wrong: LOAD_SALT; MBR_LOAD loses its load and ends with another register value |
| Optimizer.ReadLoadDropped | include/python/ap4common.py:69-88 | so does MEM_READ; MBR_LOAD: the packet ends with the cell instead of its argument word |
| Optimizer.AddressLoadDropped | include/python/ap4common.py:120-134 | dropping an address load is right exactly for argument words of at most 20 bits |
| Cache.CacheContext.TxUpdateArgs | examples/kv_store/app/dpdk/client/cache.h:236-265 | the arguments are the slot and the two words of the next key, and the request is counted for the first key requested with the same lower word; nothing is sent while there are fewer than two slots |
| Cache.HalvesMakeKey | examples/kv_store/app/dpdk/client/cache.h:245-247 | the two words sent make up the 64-bit key |
| Cache.CacheContext.StoreItems | examples/kv_store/app/dpdk/client/cache.h:135-189 | each slot of the image holds the first item that maps to it and is zero exactly if none does; stopping once all slots are stored loses nothing |
| Cache.CacheContext.TimerCache | examples/kv_store/app/dpdk/client/cache.h:123-189 | sorts the requested items by falling count and writes their image, or with a monitor that of the items it has found; it fails only on key 0 |
| Cache.RightExactly | examples/kv_store/app/dpdk/client/cache.h:133-159 | whatever the region and the hash, the slot of every requested key holds a key requested at least as often, if and only if no two requested keys share their lower word |
| Cache.StoredIsMostRequested | examples/kv_store/app/dpdk/client/cache.h:133-159 | for one slot: no requested key that maps to it was requested more often than the key stored there, if neither shares its lower word with another requested key |
| Cache.SlotUsed | examples/kv_store/app/dpdk/client/cache.h:142-159 | for the hash at hand a slot has a value if and only if some requested key that is the first with its lower word maps to it |
| Cache.ListedExactly | examples/kv_store/app/dpdk/client/cache.h:256-264 | a key is among the items, and so can be stored at all, if and only if it is the first requested one with its lower word |
| Cache.CountIsLow | examples/kv_store/app/dpdk/client/cache.h:256-264 | an entry counts at least its key's own requests, and exactly those if and only if the key shares its lower word with no other requested key |
| Cache.SharedWordNotStored | examples/kv_store/app/dpdk/client/cache.h:256-264 | key 1 requested once and key 2^32 + 1 any number of times: the latter is never stored and its requests count for the former |
| Cache.SlotTellsStored | examples/kv_store/app/dpdk/client/cache.h:147-159 | a slot reads as a key with a value exactly if that key is stored there |
| KvStore.KvStoreAnswers | examples/kv_store/activesrc/kvstore.ap4:1-13 | the program answers with the value and sends the packet back exactly if both words of the key are at its address; otherwise it returns nothing |
| KvStore.MutantAnswersStored | examples/kv_store/activesrc/kvstore.ap4:1-13 | the same for any mutant of the program, on whatever stages it was allocated |
| KvStore.CacheAnswersStored | examples/kv_store/activesrc/kvstore.ap4:1-13 | asked for any key at its slot, the program returns a non-zero value exactly if the client stored that key |
| HeavyHitter.MonitorCounts | examples/kv_store/activesrc/hh.ap4:1-28 | one request counts its key in both rows; if the lesser count exceeds the slot's threshold it becomes the threshold and the key takes the slot; no other cell of the switch changes |
| HeavyHitter.NeverUnderestimates | examples/kv_store/activesrc/hh.ap4:1-14 | after any requests the estimate of a key is at least the number of its requests, and exact if and only if in one of the two rows no other key has gone to its address |
| HeavyHitter.SlotHoldsHeaviest | examples/kv_store/activesrc/hh.ap4:15-28 | after any requests each slot asked for holds the key of a request for it whose estimate no other request for the slot has exceeded |
| LoadBalancer.FollowsCookie | examples/load_balancer/activesrc/cheetahlb-default.ap4:1-9 | a packet whose cookie was made for a server by the hash of its flow goes to that server's port |
| LoadBalancer.AssignsInTurn | examples/load_balancer/activesrc/cheetahlb-syn.ap4:1-19 | a new flow is counted and goes to the server its count falls to; no other cell changes |
| LoadBalancer.RoundRobin | examples/load_balancer/activesrc/cheetahlb-syn.ap4:1-19 | two new flows go to the same of 2^k servers if and only if 2^k divides their distance, also when the counter wraps round |

## Left out

- Handlers run one after the other: thread interleavings inside a handler, locks, timing and logging are not modelled; the registration of all peers is one step.
- `Controllers.Controller.Deallocate`: the early return on an empty dump of the allocation reply table does not occur here, because that table is not modelled.
- `Controllers.Controller.constructor`: the block size is the memory size divided by the number of blocks per stage, and the division is taken to be exact, as with the default of 368 blocks.
- `Allocators.Allocator.ComputeAllocation`: costs above the overflow weight of one million are not refused, the randomised global search is not modelled, and stages are enumerated by the caller.
- `Allocators.Allocator.GetCost`: the metrics for utility, utilization and feasibility are not modelled; they only rank or need fewer guards.
- `Allocators.Allocator.ApplyQueuedAllocation`: the queue holds the computed tables as values, so deep copies and aliasing between the queue and the current tables are not captured.
- `StageLayout.LayoutColumn`: the assertions that re-check pinning and lost tenants at run time are proved to hold instead of being executed, and the iteration order of Python sets is taken as ascending, which the code enforces by sorting.
- `reallocate`, `commitAugmentedAllocation`, `buildAllocationMatrix`, `getCostReallocations` and `getBenefitUtilization`: unfinished or randomised.
- FID 0 marks free blocks and FID 255 resets the switch; neither is a program here, and demands are at least one block, as the malloc digest handler guarantees.
- Resets, quotas, coredumps, mirroring and forwarding set-up, and the allocation reply tables the clients read: a partial remap can blank the other side's range there, so nothing is claimed about the client's view of its ranges.
- Virtual-address instructions: their entries are never installed, so they miss; renaming them by memory index and resolving labels to goto bits are not modelled.
- `ActiveFunctions.ActiveFunction.ComputeConstraints`: positions are unbounded integers; the 32-bit wrap of an upper bound below zero is excluded by asking that a program as long as its longest mutant does not start with an access that no ingress limit bounds.
- `Mutation.Client.MutateActiveProgram`: a set of stages that sends an access round the egress stages again is reported and not built; the disabled block for recirculated accesses is not modelled.
- `Mutants.MutantMeansProgram`: instructions that depend on their stage (`HASH`, `LOAD_TCP_5TUPLE`, `LOAD_QDELAY`, `LOAD_QUEUE`) must stay on their stage; forwarding decisions are compared as decisions, though ingress and egress carry them out differently; a completed packet on the ingress side is taken to match nothing but the end of the program.
- `Pipelines.Pipeline.RunMemory`: cells of a stage are numbered without end, so what the hardware does with an address beyond the 20 bits the tables match on is not modelled; the unset result of a conditional write to an empty cell reads as zero; the increment register is carried along unused.
- Hardware: hash polynomials are a function per stage, queue depth and delay are parameters; checksums, digests, resubmission and recirculation limits are left out.
- `Cache.CacheContext.TimerCache`: how the monitor reads its items from the switch, the order of items requested equally often, the wrap of 32-bit counts and the byte order of the argument words are not modelled.
- `Cache.CacheContext.TxUpdateArgs`: statistics, timers and packet rates are left out.
- `LoadBalancer.AssignsInTurn`: the second half of the program, which hands out the cookie, uses mnemonics without an opcode; instructions on virtual addresses miss, so addresses are used as sent.
- DPDK, sockets, packet construction, Redis parsing, plotting and the Wireshark dissector.
