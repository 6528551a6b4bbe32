# Dataflow scheduler model

A model in Dafny of the parts of `DataflowScheduler` that decide how data moves on a dataflow
accelerator: how a pipeline of stages is made to fit the datapaths of a device, how FIFO relays are
folded, how gathers through a bounded address buffer are turned into loops, how operation trees
are edited and repaired, how memory addresses are handed out, and how FIFO slots, operands and
grids are put into the order or form the hardware wants. Each part is modelled with its branches,
error cases and constants, and what it is for is proved for every input.

The modules follow the components:

| component | modules |
|---|---|
| routing and path expansion | `RoutingGraph`, `StageOrder`, `StageSides`, `FlowRouting`, `HopCutting`, `StagePlacement`, `FlowExpansion`, `Rewiring`, `PathPlanner` |
| folding of FIFO relay stages | `RelayStages`, `RelayFolding`, `RelayOrder`, `RelayMoves`, `RelayPass` |
| indirect accesses through the address buffer | `AffineMaps`, `IndirectAccess`, `RowReferences`, `IndirectLoops`, `BufferFill`, `GatherNest` |
| operation trees and the pipeline legalizer | `OperationTree`, `TreeWalks`, `WalkOrder`, `PipelineRules`, `PipelineChanges`, `NodeMoves`, `StageWrapping`, `StageNesting`, `PipelineLegalizer` |
| memory addresses | `Divisors`, `MemoryTracker`, `AddressAssignment`, `ProgramAddresses` |
| order of FIFO slots | `BlockMotion`, `BlockReordering`, `FifoChannel`, `FifoOrdering`, `UseOrder`, `FifoProtocol` |
| operand slices and launch grids | `StridedSlices`, `SlicedOperands`, `RowMajor` |
| shared | `Wrappers`, `Sequences`, `Digraph` |

Objects that the source changes in place are classes here: the routing graph, the planner's
pipeline, the pipeline being folded, the loop nest, tree nodes with their parent, first-child and
next-sibling pointers, the memory tracker, and blocks of operations. Their methods are proved
against functions on values, and the results are proved about those functions. A tree on the heap
is tied to a forest of child lists by `TreeNode.IsIn` and `Linked`; every method that edits the
pointers says which forest it leaves.

The results that the others build up to are `PathPlanner.Plan`, `RelayPipeline.FoldAll`,
`GatherThroughBuffer`, `FindAndFixViolations`, `RunOnDevice`, `InStepIffReadsMove`,
`StridedSlicingKeepsMeaning` and `CoordsNumber`.

`dafny verify dfyconfig.toml` verifies all modules together.

## Model

| member | source | states |
|---|---|---|
| RoutingGraph.RoutingGraph.AddNode | lib/Analysis/ArchViews/RoutingGraph.cpp:237-245 | a new node gets an identifier no node has and is listed last under its resource; nothing else changes |
| RoutingGraph.RoutingGraph.AddEdge | lib/Analysis/ArchViews/RoutingGraph.cpp:247-252 | the target becomes the last neighbour of the source; no other neighbour list changes |
| RoutingGraph.TracePath | lib/Analysis/ArchViews/RoutingGraph.cpp:287-332 | following the predecessors back from the target yields a shortest path from the source |
| RoutingGraph.RoutingGraph.FindShortestPath | lib/Analysis/ArchViews/RoutingGraph.cpp:287-332 | a path is found exactly if both nodes exist and the target is the source or reachable from it; it has real links, no node twice, the right ends, and no path has fewer links |
| RoutingGraph.ShortestHasNoChord | lib/Analysis/ArchViews/RoutingGraph.cpp:287-332 | no link skips over a node of a shortest path |
| StageOrder.TopologicalSortStages | lib/Analysis/PipelineTree.cpp:283-333 | the worklist sort succeeds exactly if the dependencies, duplicates counted, have no cycle, and then lists every stage once, each before the stages that depend on it |
| StageOrder.OrderByDependencies | lib/Transforms/PathExpansion/Planner.cpp:1246-1265 | succeeds exactly if the dependencies have no cycle; the order is topological and takes at each step the first stage, in the old order, that is ready |
| StageOrder.TopologicalMeansAcyclic | lib/Transforms/PathExpansion/Planner.cpp:1246-1265 | dependencies that have a topological order have no cycle |
| StageOrder.NoneReadyMeansCycle | lib/Transforms/PathExpansion/Planner.cpp:1254-1259 | if some stages are left and none of them is ready, the dependencies have a cycle |
| StageOrder.FirstReadyIsLeast | lib/Transforms/PathExpansion/Planner.cpp:1236-1259 | of all topological orders the one taken is the least: where another one first differs, it has a stage that stood further behind |
| StageOrder.OrderedStaysPut | lib/Transforms/PathExpansion/Planner.cpp:1265-1265 | stages that already stand in a topological order are not moved at all |
| StageSides.MarkAfter | lib/Transforms/PathExpansion/Planner.cpp:415-464 | one forward pass over the sorted stages marks exactly those that some compute stage reaches |
| StageSides.MarkBefore | lib/Transforms/PathExpansion/Planner.cpp:415-464 | one backward pass marks exactly those that reach some compute stage |
| StageSides.ClassifyStageSides | lib/Transforms/PathExpansion/Planner.cpp:415-464 | succeeds exactly if there is a compute stage and every other stage is before or after compute stages but not both; then load stages are those before, store stages those after |
| StageSides.SidesAreMonotone | lib/Transforms/PathExpansion/Planner.cpp:392-413 | along a dependency path the side never goes back: load, compute, store |
| FlowRouting.RouteDataFlow | lib/Transforms/PathExpansion/Planner.cpp:947-990 | a flow is routed exactly if a path joins the resources of its two stages; the route is a shortest one, and which of its nodes the two stages own is told from the path: a load-side producer the load unit behind its memory, a store-side consumer the store unit before its memory, if the producer has not got that one |
| FlowRouting.RoutedEndsOwnTheirs | lib/Transforms/PathExpansion/Planner.cpp:960-990 | the consumer's unit is u if and only if it is a store-side stage, its path ends in a memory, the node before is a load/store unit with resource u, and that node is none of the producer's; likewise for the producer; the middle is what is left |
| FlowRouting.RouteDataFlows | lib/Transforms/PathExpansion/Planner.cpp:947-990 | all flows are routed, in order, exactly if each of them can be |
| FlowRouting.NeedsExpansion | lib/Transforms/PathExpansion/Planner.cpp:996-1010 | true exactly if some route's middle has a memory or a compute unit, which no stage owns |
| FlowRouting.MiddleNeedsStagesIff | lib/Transforms/PathExpansion/Planner.cpp:996-1010 | for a routed flow that is so exactly if there is a memory or a compute unit anywhere between the two ends of its path |
| FlowRouting.AssignOriginalStageUnits | lib/Transforms/PathExpansion/Planner.cpp:1018-1063 | succeeds exactly if no stage is asked for two units and no unit by two stages, and then every stage has the unit that it or a flow asks for |
| FlowRouting.RecordedStagesRun | lib/Transforms/PathExpansion/Planner.cpp:1018-1063 | a stage then runs on its own resource if that is a unit, on the unit its transfers name, and on the units its flows give it, and on no other |
| FlowRouting.AgreementIsDistinctness | lib/Transforms/PathExpansion/Planner.cpp:1048-1062 | once every demand is recorded, no unit has two owners exactly if the demands agree |
| HopCutting.GreedyCutIsComplete | lib/Transforms/PathExpansion/Planner.cpp:1182-1227 | if a middle can be cut into hops in any way, the left-to-right cut finds a way |
| HopCutting.CutSucceedsExactlyWhenPossible | lib/Transforms/PathExpansion/Planner.cpp:1182-1227 | the left-to-right cut fails exactly on middles that have no cut |
| HopCutting.CutTakesMemories | lib/Transforms/PathExpansion/Planner.cpp:1182-1227 | the cut is, of all cuts, the one in which no unit stands alone in front of a memory |
| HopCutting.PartitionIsContiguous | lib/Transforms/PathExpansion/Planner.cpp:1182-1227 | the boundaries of a cut rise strictly from the begin of the middle to its end, and each hop lies between two of them |
| HopCutting.HopTransferIsLegal | lib/Transforms/PathExpansion/Planner.cpp:1316-1326 | on a shortest path a hop's unit can always load what holds the data before the hop, and can store to what holds it behind the hop exactly if no memory meets a memory at the boundary behind it |
| HopCutting.RouteEndsAreLegal | lib/Transforms/PathExpansion/Planner.cpp:1316-1326 | where no memory meets a memory, the sender can store to the place at a boundary or is that memory, and the receiver can load from it or is it |
| HopCutting.MemoryDatapathStrandsAHop | lib/Transforms/PathExpansion/Planner.cpp:1182-1326 | a device with a datapath between two memories has a shortest path whose cut leaves a hop unit that no link joins to the memory it must store to |
| FlowExpansion.AddHop | lib/Transforms/PathExpansion/Planner.cpp:1146-1180 | a hop is taken on exactly if its unit has no owner, or one that has the hop's memory and is no end of the flow and not yet in its chain; a stage is created only for a unit without owner |
| FlowExpansion.CreateIsConsistent | lib/Transforms/PathExpansion/Planner.cpp:1149-1162 | creating a stage keeps one owner for each unit, the original stages, their order, and a use for each added stage |
| StagePlacement.InsertInBlock | lib/Transforms/PathExpansion/Planner.cpp:1138-1162 | inserting stages one behind the other after the last one that a producer was given makes the row behind that producer longer and moves nothing else |
| FlowExpansion.ExpandFlow | lib/Transforms/PathExpansion/Planner.cpp:1138-1230 | succeeds exactly if the middle can be cut and each hop fits what stages and earlier flows use; then the chain takes on the hops one by one, the boundaries are those of the cut, and the stages created stand in a row behind the last one that was inserted for the producer |
| FlowExpansion.ExpandDataFlows | lib/Transforms/PathExpansion/Planner.cpp:1123-1231 | succeeds exactly if the flows' hops fit the stages and one another, said without the planner's state; each flow then has its chain and boundaries, original stages are unchanged, every added stage is some flow's hop, and the pipeline is the old one with the added stages of each producer's flows in a row behind it |
| FlowExpansion.FitsInTurn | lib/Transforms/PathExpansion/Planner.cpp:1123-1231 | hops fit all together exactly if each flow's fit given the flows before it, so the outcome does not hang on what the loop has built so far |
| FlowExpansion.ExpandedFlowPartition | lib/Transforms/PathExpansion/Planner.cpp:1182-1230 | the boundaries of an expanded flow cover its middle, and stage k of the chain has the memory and the unit of the hop between boundaries k and k + 1 |
| FlowExpansion.RowsGrow | lib/Transforms/PathExpansion/Planner.cpp:1138-1162 | expanding one flow more makes the row behind its producer longer by exactly the stages created for it |
| Rewiring.RewirePair | lib/Transforms/PathExpansion/Planner.cpp:1079-1095 | every dependency stays as one or as a path, every hand-over of the pair's chains becomes one, no others appear; the direct one is listed one time less if all flows of the pair have hops, and as often as before otherwise |
| Rewiring.WireChain | lib/Transforms/PathExpansion/Planner.cpp:1089-1094 | adds exactly the hand-overs along the chain |
| Rewiring.RewireDependencies | lib/Transforms/PathExpansion/Planner.cpp:1069-1096 | one stage reaches another exactly if it did through the old dependencies and the routes together; a direct dependency is listed one time less where all flows of the pair have hops, and off the routes every other one as often as it was |
| PathPlanner.ExpandedHopsAreLegal | lib/Transforms/PathExpansion/Planner.cpp:1107-1326 | on a device without memory-to-memory datapaths, each hop of an expanded flow has a stage on a load/store unit of the path that can reach the places at both ends of the hop, and the flow's own two ends can too |
| PathPlanner.ExpandedEndsAreRight | lib/Transforms/PathExpansion/Planner.cpp:1123-1231 | after expansion the ends of each flow still run on the units its path gives them, and the hops of its chain cover the middle and no node that an end owns |
| PathPlanner.PlanRoutesInOrder | lib/Transforms/PathExpansion/Planner.cpp:1949-1992 | the order found puts producer, hop stages and consumer of each flow one behind the other |
| PathPlanner.PlanIsSound | lib/Transforms/PathExpansion/Planner.cpp:1949-1992 | what sort, expansion and rewiring promise separately adds up to a sound plan: legal hops, an order for all dependencies and routes, one stage for each unit, original stages untouched |
| PathPlanner.Prepare | lib/Transforms/PathExpansion/Planner.cpp:1949-1980 | gives up exactly on a cycle, on sides that cannot be told, or on a flow without a route, in this order of precedence |
| PathPlanner.ExpandAndRewire | lib/Transforms/PathExpansion/Planner.cpp:1123-1231 | succeeds exactly if the hops fit, and then reachability is that of the old dependencies and the routes together |
| PathPlanner.ExpandAndOrder | lib/Transforms/PathExpansion/Planner.cpp:1123-1265 | ends with a conflict of hops exactly if they do not fit, and then with an expanded pipeline exactly if old dependencies and routes together have no cycle |
| PathPlanner.PathPlanner.Plan | lib/Transforms/PathExpansion/Planner.cpp:1949-2026 | each of the eight outcomes comes with its exact condition; an expanded pipeline is sound, one stage reaches another exactly if it does through the old dependencies and the routes together, and direct dependencies of expanded flows are gone; the ends of each flow run on the units its path gives them; the one failure after expansion is that dependencies and routes have a cycle; hop stages stand in rows behind their producers, and the new order takes at each step the first ready stage of that |
| RelayFolding.FindAnchors | lib/Transforms/FoldFifoRelayStages.cpp:136-170 | a stage has no anchor exactly if its transfers share neither their sources nor their destinations |
| RelayFolding.AnchorIs | lib/Transforms/FoldFifoRelayStages.cpp:119-180 | a stage is anchored exactly on memories that all its transfers share at either end, and on a FIFO end that they share if they share no memory at the other: the slot's destination for a stage that reads it, its source for one that writes it |
| RelayPass.FindRelay | lib/Transforms/FoldFifoRelayStages.cpp:246-273 | finds the relay that starts at a transfer, or shows that no relay starts there |
| RelayStages.RelayHasOwnSlot | lib/Transforms/FoldFifoRelayStages.cpp:246-273 | two transfers are a relay exactly if they go from memory into a slot and out of it into memory, and no other op has the slot in any use |
| RelayStages.ComposableIff | lib/Transforms/FoldFifoRelayStages.cpp:190-218 | two transfers compose exactly if their memories differ, the slot's sizes meet, one of them is a plain copy and they ask for no different throttles; the composed one has the ends, the other mode, and the throttle of either |
| RelayPass.CheckCycles | lib/Transforms/FoldFifoRelayStages.cpp:360-366 | true exactly if no stage the donor awaits, other than the target, depends on the target |
| RelayPass.DecideFold | lib/Transforms/FoldFifoRelayStages.cpp:330-420 | true exactly if tokens, cycles, anchors and units all allow the fold |
| RelayPass.FoldRelay | lib/Transforms/FoldFifoRelayStages.cpp:425-480 | the in-place edits build exactly the folded pipeline: composed transfer, merged tokens and units, an empty donor erased and its awaiters given its tokens |
| RelayFolding.OtherOpsStay | lib/Transforms/FoldFifoRelayStages.cpp:425-446 | the composed transfer takes the place of the target's half of the relay, the donor loses its half, and every other op stays with its stage and in its order |
| RelayFolding.MergedAllows | lib/Transforms/FoldFifoRelayStages.cpp:220-241 | the merged list of units allows a unit exactly if both lists do, an unset list allowing all; there is none exactly if both are set and have no unit in common |
| RelayFolding.FoldNeedsUnit | lib/Transforms/FoldFifoRelayStages.cpp:411-414 | a fold is permitted only if the two stages have a unit in common or one of them is free to run anywhere |
| RelayFolding.UnitsAfterFold | lib/Transforms/FoldFifoRelayStages.cpp:454-462 | after a fold the target allows exactly the units that target and donor allowed, and every other stage those it did |
| RelayPass.TryFold | lib/Transforms/FoldFifoRelayStages.cpp:485-514 | folds in the preferred direction if that is allowed, in the other one if only that is, and otherwise leaves the relay because neither is |
| RelayPass.FirstChoiceErases | lib/Transforms/FoldFifoRelayStages.cpp:481-512 | a fold into the consumer is tried first exactly if only that leaves nothing of the other stage |
| RelayPass.FoldFirstRelay | lib/Transforms/FoldFifoRelayStages.cpp:485-514 | folds the first relay that can fold, or changes nothing because none can |
| RelayOrder.AwaitsAfterFold | lib/Transforms/FoldFifoRelayStages.cpp:447-476 | one stage awaits another after a fold exactly if it did before, or is the target and takes over a token of the donor's, or awaited an erased donor that awaited the other |
| RelayOrder.FoldStaysAcyclic | lib/Transforms/FoldFifoRelayStages.cpp:360-366 | a permitted fold of an acyclic pipeline leaves it acyclic |
| RelayOrder.AcyclicAfterIff | lib/Transforms/FoldFifoRelayStages.cpp:360-366 | any fold leaves the pipeline acyclic exactly if no stage whose token the target takes over depends on the target |
| RelayOrder.CyclesAllowIff | lib/Transforms/FoldFifoRelayStages.cpp:360-366 | the check for cycles lets none through, and stops nothing else if the tokens the donor awaits from the target come from it alone |
| RelayOrder.SurvivorsKeepOrder | lib/Transforms/FoldFifoRelayStages.cpp:447-476 | stages that remain keep every order they had, erased donor or not |
| RelayOrder.AfterDonorAfterTarget | lib/Transforms/FoldFifoRelayStages.cpp:330-366 | what had to run after the donor runs after the target |
| RelayOrder.BeforeDonorBeforeTarget | lib/Transforms/FoldFifoRelayStages.cpp:448-453 | if the donor awaits no token that the target also puts out, what had to run before the donor runs before the target |
| RelayOrder.AheadOfTarget | lib/Transforms/FoldFifoRelayStages.cpp:448-476 | a stage runs before the target after the fold exactly if it did before or comes before a stage whose token the target takes over from the donor |
| RelayOrder.KeepsBeforeDonorIff | lib/Transforms/FoldFifoRelayStages.cpp:448-453 | the fold keeps the donor's whole past before the target exactly if each stage the donor awaits is ahead of the target in that sense |
| RelayOrder.SharedTokenLosesOrder | lib/Transforms/FoldFifoRelayStages.cpp:342-476 | with a token two stages put out, a permitted fold leaves a stage the donor awaited unordered with the target |
| RelayMoves.FoldKeepsMoves | lib/Transforms/FoldFifoRelayStages.cpp:425-445 | what is delivered from memory to memory, through however many FIFO slots, with sizes, modes and throttles, is the same before and after a fold |
| RelayMoves.FoldAddsNoneWithin | lib/Transforms/FoldFifoRelayStages.cpp:275-291 | no fold makes a transfer from a memory to itself, whose ends could overlap |
| RelayMoves.FoldKeepsAnchorsDisjoint | lib/Transforms/FoldFifoRelayStages.cpp:369-413 | if no two stages share an anchor, none do after a permitted fold |
| RelayMoves.FoldKeepsAnchored | lib/Transforms/FoldFifoRelayStages.cpp:368-388 | if the transfers of every stage share an end, they do after a permitted fold |
| RelayMoves.AnchorsAllowIff | lib/Transforms/FoldFifoRelayStages.cpp:368-409 | of stages that each have an anchor and share none, the check of anchors lets a fold through exactly if that is so afterwards |
| RelayPass.FoldDropsOneOp | lib/Transforms/FoldFifoRelayStages.cpp:425-445 | each fold takes away exactly one transfer of the pipeline |
| RelayPass.FoldRepresents | lib/Transforms/FoldFifoRelayStages.cpp:425-476 | if each token has one producer, an erased donor can be stood in for by the target without losing an order |
| RelayPass.FoldOnlyNarrows | lib/Transforms/FoldFifoRelayStages.cpp:454-462 | the stand-in of an erased donor allows no unit that the donor did not |
| RelayPass.OneFold | lib/Transforms/FoldFifoRelayStages.cpp:565-568 | one round of the pass keeps everything promised of the whole run |
| RelayPass.RelayPipeline.FoldAll | lib/Transforms/FoldFifoRelayStages.cpp:556-571 | for every acyclic pipeline the run ends with no relay left that could fold, acyclic, with all orders among remaining stages, the same deliveries, disjoint anchors and shared ends if there were, and no new transfer within one memory; no stage allows a unit that it, or a stage it stands for, did not allow at the start; the counter is the number of transfers gone; if each token has one producer, the stand-ins of all original stages keep all orders |
| AffineMaps.ReplaceMeaning | lib/Transforms/Utils/IndirectAccessTileNarrowing.cpp:59-61 | replacing dimensions by expressions evaluates to the same as the old expression at the values of the replacements |
| AffineMaps.DropDimMeaning | lib/Transforms/Utils/IndirectAccessTileNarrowing.cpp:39-65 | the set without a dimension contains exactly the points the old set contains with 0 put there |
| AffineMaps.BoxMinusDim | lib/Transforms/Utils/IndirectAccessTileNarrowing.cpp:39-65 | for a box the dropped dimension and the remaining set together say exactly what the old set said |
| AffineMaps.PinDimMeaning | lib/Transforms/Utils/IndirectAccessTileNarrowing.cpp:67-72 | the pinned set contains exactly the old points with 0 in that dimension |
| AffineMaps.PinnedTilesCover | lib/Transforms/Utils/IndirectAccessTileNarrowing.cpp:125-166 | the pinned tiles of all iterations touch exactly the old tile's elements if and only if the tile starts at 0 in the pinned and all later dimensions |
| AffineMaps.MakeLeadingFoldReassociation | lib/Transforms/Utils/IndirectAccessTileNarrowing.cpp:113-123 | builds one leading group and singles behind it |
| AffineMaps.FoldPartitions | lib/Transforms/Utils/IndirectAccessTileNarrowing.cpp:113-123 | the groups are a partition of the dimensions, in order, if and only if fewer dimensions are folded than there are |
| AffineMaps.FoldDropsPinned | lib/Transforms/Utils/IndirectAccessTileNarrowing.cpp:113-123 | folding leading dimensions of extent 1 leaves exactly the other extents |
| IndirectAccess.WindowStep | lib/Transforms/IndirectAddrBufLegalization.cpp:405-456 | absorbing a row variable into a window loop keeps every subscript, and the loop variable followed by the narrowed buffer index is the old buffer index |
| IndirectAccess.WindowSubscripts | lib/Transforms/IndirectAddrBufLegalization.cpp:435-466 | whatever variable a window loop absorbs, the subscripts become those with 0 for it |
| IndirectAccess.WindowKeepsIff | lib/Transforms/IndirectAddrBufLegalization.cpp:420-466 | in an iteration of a window loop the subscripts are kept if and only if they have the same values with 0 for the variable, and the buffer is read where it was if and only if no other dimension of it is subscripted by that variable, or the variable that takes its place has the loop's value |
| IndirectAccess.WindowIsWellFormed | lib/Transforms/IndirectAddrBufLegalization.cpp:381-470 | the narrowed access is well formed again, one loop further in |
| IndirectAccess.EntryStep | lib/Transforms/IndirectAddrBufLegalization.cpp:958-1010 | absorbing the last row variable keeps every subscript, and the buffer is read at the entry loop's variable |
| IndirectAccess.EntrySubscripts | lib/Transforms/IndirectAddrBufLegalization.cpp:958-1010 | whatever variable the entry loop absorbs, the subscripts become those with 0 for it, and the buffer is read at the loop's variable |
| IndirectAccess.EntryKeepsIff | lib/Transforms/IndirectAddrBufLegalization.cpp:979-1010 | in an iteration of the entry loop the subscripts are kept if and only if they have the same values with 0 for the variable |
| IndirectAccess.EntryIsWellFormed | lib/Transforms/IndirectAddrBufLegalization.cpp:963-1030 | the access stays well formed and its buffer subscript is settled from there on |
| IndirectAccess.PlainReferenceIsLost | lib/Transforms/IndirectAddrBufLegalization.cpp:435-466 | a subscript that is the absorbed variable itself is kept, by a window loop or the entry loop, in iteration 0 and in no other |
| IndirectAccess.DirectStep | lib/Transforms/IndirectAccessLoopMaterialization.cpp:569-597 | absorbing a direct variable keeps every subscript and the buffer index |
| IndirectAccess.DirectIsWellFormed | lib/Transforms/IndirectAccessLoopMaterialization.cpp:569-612 | the access stays well formed with its buffer subscript settled |
| IndirectAccess.ReferenceToRowIsLost | lib/Transforms/IndirectAddrBufLegalization.cpp:979-1010 | an input the passes take and change: the subscript of the second row becomes that of the first |
| IndirectAccess.DroppedOrderIsPlain | lib/Transforms/Utils/IndirectAccessTileNarrowing.cpp:74-93 | after a result is dropped all others are still plain dimensions if and only if no other result was the dropped dimension |
| IndirectAccess.OtherExtentsStay | lib/Transforms/IndirectAddrBufLegalization.cpp:474-481 | the shape loses the extent of the absorbed variable's tile dimension and keeps all others in order |
| IndirectAccess.DimensionIsKept | lib/Transforms/IndirectAddrBufLegalization.cpp:405-481 | another variable is still told its tile dimension if and only if that was not number c, c the absorbed variable, and stood on the same side of number c as of the dimension that goes |
| IndirectAccess.DimensionsAreKept | lib/Transforms/IndirectAddrBufLegalization.cpp:405-481 | all other variables are if and only if the absorbed variable c was tile dimension c |
| IndirectAccess.NarrowedMatchesTile | lib/Transforms/IndirectAddrBufLegalization.cpp:405-481 | a tile with one dimension for each variable, in order, stays one |
| RowReferences.BlankedSubscripts | lib/Transforms/IndirectAddrBufLegalization.cpp:435-466 | an access with its references to row variables replaced by 0 has at a point the subscripts the access has at the point with 0 in the rows, and reads the buffer where the access does |
| RowReferences.WindowBlanks | lib/Transforms/IndirectAddrBufLegalization.cpp:405-466 | a window loop makes of an access without references to rows what it makes of the access, without references to rows |
| RowReferences.EntryBlanks | lib/Transforms/IndirectAddrBufLegalization.cpp:958-1010 | after the entry loop there is no difference between the two |
| IndirectLoops.WindowRepresents | lib/Transforms/IndirectAddrBufLegalization.cpp:381-470 | an access that stands for the original one under its loops still does with one window loop more |
| IndirectLoops.EntryRepresents | lib/Transforms/IndirectAddrBufLegalization.cpp:958-1030 | so it does with the entry loop |
| IndirectLoops.DirectRepresents | lib/Transforms/IndirectAccessLoopMaterialization.cpp:569-625 | so it does with one direct loop more |
| IndirectLoops.FindReferencedDim | lib/Transforms/IndirectAccessLoopMaterialization.cpp:94-108 | finds the one variable a subscript depends on, or fails because it depends on none or several |
| IndirectLoops.DirectTurnTracks | lib/Transforms/IndirectAccessLoopMaterialization.cpp:442-483 | a remaining variable is the only one a subscript depends on, with a plain tile dimension, exactly if that is so of the original access with the variables gone so far left aside |
| IndirectLoops.LoopNest.MaterializeWindowLoops | lib/Transforms/IndirectAddrBufLegalization.cpp:271-720 | succeeds exactly if the innermost extent is the buffer's size and each row variable still has a plain tile dimension in its turn, told of the original access; the nest then stands for it, up to references to rows, with one row left |
| IndirectLoops.LoopNest.MaterializeEntryLoop | lib/Transforms/IndirectAddrBufLegalization.cpp:736-1060 | succeeds exactly if all rows have plain tile dimensions in turn and the last has the buffer's trip count; the nest then reads the buffer at the entry loop and has absorbed the row variables in order |
| IndirectLoops.LoopNest.MaterializeDirectAccessLoops | lib/Transforms/IndirectAccessLoopMaterialization.cpp:356-660 | succeeds exactly if there are variables, one for each listed subscript in turn, such that the original access's subscript depends on that one and on no other that is left, and its tile dimension is not the place of one that is gone; one loop is added for each, in this order, and the meaning stays |
| GatherNest.EnumerateIs | lib/Transforms/IndirectAddrBufLegalization.cpp:352-371 | the loops go over exactly the points of their trip counts |
| GatherNest.EnumerateOnce | lib/Transforms/IndirectAddrBufLegalization.cpp:352-371 | and over each of them once |
| GatherNest.EnumerateInOrder | lib/Transforms/IndirectAddrBufLegalization.cpp:352-371 | in the order in which loops in loops run |
| BufferFill.PinnedAt | lib/Transforms/Utils/IndirectAccessTileNarrowing.cpp:125-166 | pinned at every window in turn, the tile starts at the windows' values and at 0 in the last dimension, where only the extent is left; without windows it starts where it did |
| BufferFill.CollapsedRow | lib/Transforms/IndirectAddrBufLegalization.cpp:580-612 | collapsing all dimensions into one puts an element at its index in the last one if the others have extent 1 |
| BufferFill.FilledIsRow | lib/Transforms/IndirectAddrBufLegalization.cpp:554-614 | every element of the pinned tile is stored where the collapse puts it if and only if the entries are what is loaded, in order |
| BufferFill.RowOfWindows | lib/Transforms/IndirectAddrBufLegalization.cpp:554-614 | so the fill leaves the row of the address tensor that the windows select |
| BufferFill.Fill | lib/Transforms/IndirectAddrBufLegalization.cpp:554-614 | the buffer holds the collapsed load of the pinned tile, which is that row |
| BufferFill.FillsReadTileIff | lib/Transforms/Utils/IndirectAccessTileNarrowing.cpp:151-160 | the fills read what the buffer as a whole held if and only if it has one dimension or the tile of the addresses starts at 0 |
| BufferFill.PinsInTurnIff | lib/Transforms/Utils/IndirectAccessTileNarrowing.cpp:271-277 | the loops pin one dimension of a source or destination tile after the other if and only if each has more than one element |
| BufferFill.PinnedFoldPartitions | lib/Transforms/Utils/IndirectAccessTileNarrowing.cpp:271-287 | the groups for a pinned tile are a partition of its dimensions if and only if some dimension comes behind the pinned one |
| GatherNest.Run | lib/Transforms/IndirectAddrBufLegalization.cpp:736-910 | running the nest with one buffer, filled from the pinned tile where the entry loop starts, delivers for each iteration the element of the whole address tensor as the fills read it; a refill never loses an entry still to be read |
| GatherNest.NestIsGather | lib/Transforms/IndirectAddrBufLegalization.cpp:736-1060 | the elements delivered are exactly those of the access the nest stands for: each has its point, with address and subscripts, and each point has one element |
| GatherNest.IsGatherIff | lib/Transforms/IndirectAddrBufLegalization.cpp:271-1060 | what is delivered is the gather asked for if and only if at every point the subscripts are the same with 0 in the rows and the fills read the address the whole buffer would hold |
| GatherNest.PlainGatherIsSame | lib/Transforms/IndirectAddrBufLegalization.cpp:271-1060 | both hold if no subscript refers to a row and the tile of the addresses starts at 0 or has one dimension |
| GatherNest.PlainReferenceMakesDifference | lib/Transforms/IndirectAddrBufLegalization.cpp:979-1010 | a subscript that is the variable of a row makes a difference unless there is one row only |
| GatherNest.GatherThroughBuffer | lib/Transforms/IndirectAddrBufLegalization.cpp:271-1060 | succeeds exactly if sizes, trip counts and tile dimensions of rows and listed subscripts fit, all told of the original access; the run is then the gather without references to rows, and the gather asked for exactly if these and the starts of the address tile make no difference |
| OperationTree.AttachIsForest | lib/Analysis/OperationTree.cpp:68-93 | attaching a loose node keeps a forest |
| OperationTree.DetachIsForest | include/dataflow-scheduler/Analysis/OperationTree.h:169-177 | detaching a subtree keeps a forest |
| OperationTree.DissolveIsForest | lib/Analysis/OperationTree.cpp:108-150 | giving a node's children to its parent keeps a forest |
| OperationTree.AttachedBehind | lib/Analysis/OperationTree.cpp:68-93 | an attached node comes right behind the given child, or last, and nothing else changes |
| OperationTree.DetachedIsLoose | include/dataflow-scheduler/Analysis/OperationTree.h:169-177 | a detached node is loose with its children, and the others stay in their order |
| OperationTree.DissolvedInPlace | lib/Analysis/OperationTree.cpp:108-150 | the children of a dissolved node stand where it stood, in their order, and it is loose |
| OperationTree.AttachMatches | lib/Analysis/OperationTree.cpp:68-93 | the changed pointers are those of the forest with the node attached |
| OperationTree.DetachMatches | include/dataflow-scheduler/Analysis/OperationTree.h:169-177 | the changed pointers are those of the forest with the node detached |
| OperationTree.DissolveMatches | lib/Analysis/OperationTree.cpp:108-150 | the changed pointers are those of the forest with the children in the node's place |
| OperationTree.TreeNode.GetNumberOfChildren | lib/Analysis/OperationTree.cpp:38-46 | the length of the child list |
| OperationTree.TreeNode.GetLastChild | lib/Analysis/OperationTree.cpp:48-55 | the last of the child list, or none |
| OperationTree.TreeNode.GetPrevSibling | lib/Analysis/OperationTree.cpp:57-66 | the child in front in the parent's list, or none |
| OperationTree.TreeNode.InsertChildNode | lib/Analysis/OperationTree.cpp:68-83 | the child comes behind the given sibling, or last; all other lists and parents stay |
| OperationTree.TreeNode.InsertAsFirstChild | lib/Analysis/OperationTree.cpp:85-93 | the child comes first; all other lists and parents stay |
| OperationTree.TreeNode.Unlink | include/dataflow-scheduler/Analysis/OperationTree.h:169-177 | the node with its subtree is out of its parent's list and loose |
| OperationTree.TreeNode.UnlinkNode | lib/Analysis/OperationTree.cpp:108-150 | the children stand in the parent's list where the node stood, in order, and have the parent as theirs; a node without parent is left alone |
| TreeWalks.BreadthFirstWalk | lib/Analysis/OperationTree.cpp:206-222 | visits level after level, each from left to right |
| TreeWalks.ReverseBreadthFirstWalk | lib/Analysis/OperationTree.cpp:224-261 | visits the levels from the deepest up, each from left to right if the order is to be kept and from right to left otherwise |
| TreeWalks.MirroredLevels | lib/Analysis/OperationTree.cpp:224-261 | queueing children from right to left gives the levels mirrored, at every depth |
| TreeWalks.ReverseMirrored | lib/Analysis/OperationTree.cpp:224-261 | popping mirrored levels gives the levels upside down with each in order |
| TreeWalks.PreOrderWalk | lib/Analysis/OperationTree.cpp:156-165 | visits each node before its children's subtrees, in order |
| TreeWalks.LevelsHaveAll | lib/Analysis/OperationTree.cpp:206-222 | a walk by levels from the root misses no node |
| TreeWalks.PreOrderHasAll | lib/Analysis/OperationTree.cpp:156-165 | neither does the pre-order walk |
| WalkOrder.BreadthFirst | lib/Analysis/OperationTree.cpp:206-222 | breadth first told node by node: the start comes first, each node once and before its children, the children of a node in order, and those of a node visited earlier before those of a later one |
| WalkOrder.LevelBelow | lib/Analysis/OperationTree.cpp:206-261 | each level has the children of the level above, and the walk by levels stops where there are none |
| WalkOrder.DepthFirst | lib/Analysis/OperationTree.cpp:156-165 | pre-order told node by node: each node once and before everything below it, and one child with everything below it before the next child |
| PipelineRules.ScanEndsUnlessBlocked | lib/Transforms/Utils/PipelineTreeLegalizer.cpp:209-232 | the scan of the private rule ends if and only if no child that is neither stage nor private stands before the first stage with dependencies; when it ends it answers whether there is such a stage |
| PipelineRules.IllegalFirstChildHangs | lib/Transforms/Utils/PipelineTreeLegalizer.cpp:209-232 | it never ends on a pipeline whose first child is neither stage nor private |
| PipelineRules.AdoptIsTree | lib/Transforms/Utils/PipelineTreeLegalizer.cpp:56-116 | a new node that takes over a group of children leaves a tree with the same root |
| PipelineChanges.WrapLeavesFewer | lib/Transforms/Utils/PipelineTreeLegalizer.cpp:56-116 | wrapping a group takes exactly that group out of the misplaced children |
| PipelineChanges.NestLeavesFewer | lib/Transforms/Utils/PipelineTreeLegalizer.cpp:134-203 | nesting takes exactly the group out of the stray stages and adds no misplaced child |
| PipelineChanges.PrivateLeavesFewer | lib/Transforms/Utils/PipelineTreeLegalizer.cpp:234-250 | adding a private leaves fewer pipelines without one and no other violation more |
| PipelineChanges.WrapKeepsCheck | lib/Transforms/Utils/PipelineTreeLegalizer.cpp:56-116 | wrapping cannot make the private rule's scan hang |
| PipelineChanges.AdoptKeepsNesting | lib/Transforms/Utils/PipelineTreeLegalizer.cpp:56-250 | the nearest enclosing original node of every node is the same after a fix |
| PipelineChanges.KeepsMeansParentsEnclose | lib/Transforms/Utils/PipelineTreeLegalizer.cpp:268-337 | keeping the nearest enclosing original nodes means that every old node stands, among the old ones, right below its old parent |
| NodeMoves.MoveUnder | lib/Transforms/Utils/PipelineTreeLegalizer.cpp:97-110 | moving a group node by node leaves the group, in order, at the end of the new parent and the others as they were |
| StageWrapping.CollectGroups | lib/Transforms/Utils/PipelineTreeLegalizer.cpp:64-88 | the groups are the longest runs of misplaced children, in order |
| StageWrapping.WrapGroup | lib/Transforms/Utils/PipelineTreeLegalizer.cpp:89-112 | the new stage stands where the group stood and holds exactly the group |
| StageWrapping.FixPipelineChildren | lib/Transforms/Utils/PipelineTreeLegalizer.cpp:56-116 | no misplaced child is left below the pipeline; each new stage holds one longest run of them; putting the groups back where their stages stand gives the old children |
| StageNesting.CollectStages | lib/Transforms/Utils/PipelineTreeLegalizer.cpp:150-165 | the stages among the children, in order |
| StageNesting.StagesInOrder | lib/Transforms/Utils/PipelineTreeLegalizer.cpp:150-165 | the stages collected stand in the order in which they stood |
| StageNesting.NestStages | lib/Transforms/Utils/PipelineTreeLegalizer.cpp:134-203 | the new pipeline holds all stages of the parent, in order, and stands among the other children where the pointers put it |
| StageNesting.NestsInPlace | lib/Transforms/Utils/PipelineTreeLegalizer.cpp:166-196 | the new pipeline stands where the first stage stood if and only if the first child was no stage or all children are stages |
| StageNesting.FixStageParent | lib/Transforms/Utils/PipelineTreeLegalizer.cpp:134-203 | all stages of a parent that is no pipeline are nested at once, and fewer stray stages are left |
| StageNesting.FixPrivate | lib/Transforms/Utils/PipelineTreeLegalizer.cpp:234-250 | the private is the pipeline's first child and nothing else moves |
| PipelineLegalizer.PipelineChildrenViolated | lib/Transforms/Utils/PipelineTreeLegalizer.cpp:39-54 | true exactly if a pipeline has a child that is neither stage nor private |
| PipelineLegalizer.StageParentViolated | lib/Transforms/Utils/PipelineTreeLegalizer.cpp:122-132 | true exactly if a stage's parent is no pipeline |
| PipelineLegalizer.PrivateMissing | lib/Transforms/Utils/PipelineTreeLegalizer.cpp:209-232 | true exactly if a pipeline with a dependent stage does not start with a private |
| PipelineLegalizer.CollectViolations | lib/Transforms/Utils/PipelineTreeLegalizer.cpp:339-377 | the list is empty exactly if every node keeps every rule, and everything on it is a violation |
| PipelineLegalizer.ViolationsAre | lib/Transforms/Utils/PipelineTreeLegalizer.cpp:339-377 | the same for any list of nodes |
| PipelineLegalizer.NextStageId | lib/Transforms/Utils/PipelineTreeLegalizer.cpp:268-285 | one more than the largest stage identifier, or 0 |
| PipelineLegalizer.FixViolation | lib/Transforms/Utils/PipelineTreeLegalizer.cpp:268-337 | a fix leaves fewer misplaced children, or as many and fewer stray stages, or as many of both and fewer missing privates |
| PipelineLegalizer.FindAndFixViolations | lib/Transforms/Utils/PipelineTreeLegalizer.cpp:268-337 | unless some scan hangs at the start, the loop ends; then every node is legal, every old node stands below its old parent with only new nodes between, new stages have identifiers no old stage has and differ, and nothing changed if nothing was wrong |
| Divisors.GcdDivides | lib/Transforms/AddressAssignment.cpp:403-404 | the greatest common divisor divides both numbers |
| Divisors.GcdGreatest | lib/Transforms/AddressAssignment.cpp:403-404 | and is divided by every common divisor |
| Divisors.LcmIsMultiple | lib/Transforms/AddressAssignment.cpp:403-404 | the alignment asked for is a multiple of both the element's and the allocation's |
| Divisors.LcmIsLeast | lib/Transforms/AddressAssignment.cpp:403-404 | and no common multiple is less |
| MemoryTracker.AlignUpIsLeast | lib/Analysis/MemoryTracker.cpp:52-60 | the aligned address is the least multiple not below the address |
| MemoryTracker.TrackedIs | lib/Analysis/MemoryTracker.cpp:29-39 | a new tracker starts each memory with a capacity behind its reserved part, as the last node that carries it says, and knows no other |
| MemoryTracker.Tracker.Allocate | lib/Analysis/MemoryTracker.cpp:62-108 | in 64-bit arithmetic: no address without capacity or room; otherwise the aligned address, and the next one behind the block; other memories stay |
| MemoryTracker.AllocatedIsInside | lib/Analysis/MemoryTracker.cpp:62-108 | a block is handed out and lies inside its memory if and only if its end, computed without wrapping, is within the capacity; a block handed out lies inside if and only if that end is below 2 to the 64 |
| MemoryTracker.WrappedEndIsAccepted | lib/Analysis/MemoryTracker.cpp:71-86 | a block whose end wraps is handed out although it leaves its memory, and the next address falls back into the reserved part |
| MemoryTracker.Tracker.Reset | lib/Analysis/MemoryTracker.cpp:125-133 | the next address of a tracked memory that is named is its reserved part, that of every other memory is what it was |
| MemoryTracker.RestartedStartsOver | lib/Analysis/MemoryTracker.cpp:125-133 | told memory by memory: named ones have everything behind their reserved part free again, the others stay |
| AddressAssignment.GetUpperOffsetBound | lib/Transforms/AddressAssignment.cpp:153-179 | yields the largest position, or gives up on unknown bounds, negative offsets or strides, and overflow of any step |
| AddressAssignment.BoundIsTight | lib/Transforms/AddressAssignment.cpp:153-179 | no element lies beyond the bound, and if there are elements one lies at it |
| AddressAssignment.NoBoundIff | lib/Transforms/AddressAssignment.cpp:153-179 | a layout of known sizes, none empty, and no negative stride has no bound exactly if some element's position is no 64-bit number |
| AddressAssignment.GetSize | lib/Transforms/AddressAssignment.cpp:182-206 | the size in bytes of the elements up to the bound, counted in 64 bits, or none if the product overflows |
| AddressAssignment.SizeIsThatOfAll | lib/Transforms/AddressAssignment.cpp:198-201 | the size is that of all elements if and only if their number fits 64 bits; otherwise it is 0 |
| AddressAssignment.NoSizeIff | lib/Transforms/AddressAssignment.cpp:182-206 | there is no size exactly if elements have none, have no bound, or need more bytes than 64 bits count |
| AddressAssignment.SizeCanBeLost | lib/Transforms/AddressAssignment.cpp:198-201 | a layout with a last element at position 2 to the 64 minus 1 gets size 0 |
| ProgramAddresses.ProcessAllocation | lib/Transforms/AddressAssignment.cpp:379-430 | a failed size or a full memory leaves no address; otherwise the address counts elements and is exact |
| ProgramAddresses.PlaceProgram | lib/Transforms/AddressAssignment.cpp:353-358 | allocations are placed in order and failures counted |
| ProgramAddresses.CollectReusable | lib/Transforms/AddressAssignment.cpp:344-352 | the memories of the program that are not global |
| ProgramAddresses.AssignAddresses | lib/Transforms/AddressAssignment.cpp:336-363 | programs are placed in order, each with its own memories restarted; the count of failures is the number of allocations without an address |
| ProgramAddresses.PlaceHolds | lib/Transforms/AddressAssignment.cpp:379-430 | a placed allocation starts at the next aligned address, its block is taken, and no taken block is given back |
| ProgramAddresses.PlacedIffFits | lib/Transforms/AddressAssignment.cpp:379-430 | an allocation that does not wrap gets an address exactly if it fits behind what is taken; no other memory has anything taken, and none if it fails |
| ProgramAddresses.PlacedIsLowest | lib/Transforms/AddressAssignment.cpp:400-410 | the address is the lowest one left that is a multiple of the alignment and of the element size |
| ProgramAddresses.LocalIsAlone | lib/Transforms/AddressAssignment.cpp:336-363 | an allocation in memory that is not global has the address it would have if its program were the only one run |
| ProgramAddresses.GlobalIsShared | lib/Transforms/AddressAssignment.cpp:336-363 | one in global memory has the address it would have if its program and all earlier ones were one |
| ProgramAddresses.LaterIsBehind | lib/Transforms/AddressAssignment.cpp:353-358 | within a program a later allocation in the same memory starts behind the end of an earlier one |
| ProgramAddresses.GlobalsStayTaken | lib/Transforms/AddressAssignment.cpp:341-352 | what is taken of a global memory stays taken through all later programs |
| ProgramAddresses.NoSharedByte | lib/Transforms/AddressAssignment.cpp:336-363 | elements of two allocations that live at once, in one program or in a global memory, share no byte |
| ProgramAddresses.ElementsAreInside | lib/Transforms/AddressAssignment.cpp:336-363 | every element lies in its memory and behind its reserved part |
| ProgramAddresses.RoomIsEnough | lib/Transforms/AddressAssignment.cpp:336-363 | if behind each memory there is room for one allocation more before addresses wrap, none wraps in the whole run |
| ProgramAddresses.AddressesAreSound | lib/Transforms/AddressAssignment.cpp:336-430 | under that condition the addresses of the whole run share no byte and lie inside |
| ProgramAddresses.RunOnDevice | lib/Transforms/AddressAssignment.cpp:306-363 | end to end from the device's memories: one address or none for each allocation, as many failures as are missing; local addresses are those of the program run alone, global ones those of all programs up to it in a row; and with room enough no shared byte and all inside |
| BlockMotion.ReorderedIsPermutation | lib/Transforms/OrderFifoSlotsByUse.cpp:166-181 | the moved block has the same operations, and the ones asked for stand together in the given order |
| BlockMotion.OthersStay | lib/Transforms/OrderFifoSlotsByUse.cpp:166-181 | the other operations keep their sequence |
| BlockMotion.FirstMoves | lib/Transforms/OrderFifoSlotsByUse.cpp:169-174 | moving the first one before the earliest puts it where the earliest was |
| BlockMotion.MoveNext | lib/Transforms/OrderFifoSlotsByUse.cpp:175-178 | each further move puts the next one behind the one before it, whatever was there |
| BlockReordering.Block.MoveIntoOrder | lib/Transforms/OrderFifoSlotsByUse.cpp:145-182 | moves exactly if no operand would be passed and, if asked, no memory operation lies between; otherwise nothing changes |
| BlockReordering.OthersStayInOrder | lib/Transforms/OrderFifoSlotsByUse.cpp:166-181 | two operations that are not moved keep their order |
| BlockReordering.DefsStayFirst | lib/Transforms/OrderFifoSlotsByUse.cpp:158-164 | with operands defined above the earliest, every definition still precedes its uses; for operations that do not feed one another the guard is also necessary |
| BlockReordering.MemoryOrderStays | lib/Transforms/OrderFifoSlotsByUse.cpp:152-157 | no moved operation passes one that touches memory if and only if none stands between the earliest and the latest |
| FifoOrdering.GetConsumptionKey | lib/Transforms/OrderFifoSlotsByUse.cpp:101-138 | a transfer's key is its own place; otherwise it is the first use's, and there is none if the value is used outside the block or nowhere |
| FifoOrdering.FirstUseIsFirst | lib/Transforms/OrderFifoSlotsByUse.cpp:109-137 | no use has a smaller key, and some use has this one |
| FifoOrdering.SortIsStable | lib/Transforms/OrderFifoSlotsByUse.cpp:352-354 | the result is sorted, a permutation, and keeps the order among equal keys |
| FifoOrdering.OrderHasAll | lib/Transforms/OrderFifoSlotsByUse.cpp:339-354 | the order of use has every access as often as it was given |
| UseOrder.KnownIffUsed | lib/Transforms/OrderFifoSlotsByUse.cpp:101-138 | the order is known exactly if each access is a transfer or takes what is used in the block and nowhere else, told by a place in the block and one in the using operation |
| UseOrder.LessIsSooner | lib/Transforms/OrderFifoSlotsByUse.cpp:101-138 | a key is less exactly if the place of the using operation is, or is the same and the place in its body is less |
| UseOrder.OrderIsByUse | lib/Transforms/OrderFifoSlotsByUse.cpp:339-354 | of two accesses the one in front in the order is used sooner, or neither is and it was given first |
| UseOrder.InOrderIffByUse | lib/Transforms/OrderFifoSlotsByUse.cpp:356-368 | a block needs no change exactly if its writes, or reads, already stand that way |
| FifoChannel.RunIsInOrder | lib/Transforms/OrderFifoSlotsByUse.cpp:281-291 | in every run of a bounded queue that writes a fixed list over and over, what has been taken is the front of what was written |
| FifoChannel.InStepIffSameOrder | lib/Transforms/OrderFifoSlotsByUse.cpp:281-291 | reads get the slots they ask for in every run of every capacity above 0 if and only if they ask in the order of the writes |
| FifoProtocol.HasKnownProtocol | lib/Transforms/OrderFifoSlotsByUse.cpp:292-321 | true exactly if one block writes all slots, one block of another stage reads them all, and nothing else touches the FIFO |
| FifoProtocol.OnlyOwn | lib/Transforms/OrderFifoSlotsByUse.cpp:292-321 | then the channel's operations in each block are exactly the accesses' own |
| FifoProtocol.KnownBlocksDiffer | lib/Transforms/OrderFifoSlotsByUse.cpp:292-321 | no block has writes and reads of the FIFO, all its writes are in one block and all its reads in one |
| FifoProtocol.OrderFifo | lib/Transforms/OrderFifoSlotsByUse.cpp:332-392 | gives up exactly if what some access takes is used outside the block or not at all; nothing changes if both blocks already follow the order of use; otherwise, unless the writes are refused, the writes stand in the order in which what is read is used, and so do the reads unless they are refused |
| FifoProtocol.OutcomeByUse | lib/Transforms/OrderFifoSlotsByUse.cpp:356-391 | told of the blocks: if the writes can move they stand in the order of use afterwards, and the reads too if they can |
| FifoProtocol.BlocksStaySafe | lib/Transforms/OrderFifoSlotsByUse.cpp:374-391 | both blocks keep their operations and their definitions before uses; no write passes a memory operation, and a read passes one if and only if the reads are moved and one lies between them |
| FifoProtocol.InStepIffReadsMove | lib/Transforms/OrderFifoSlotsByUse.cpp:371-390 | once the writes follow the order of use, the FIFO is in step afterwards, in every run, if and only if the reads are in that order or can be moved into it |
| FifoProtocol.ReadsThatOnlyTakeMove | lib/Transforms/OrderFifoSlotsByUse.cpp:378-390 | reads that use nothing from their block always can be moved, as the source expects |
| FifoProtocol.TransferBreaksStep | lib/Transforms/OrderFifoSlotsByUse.cpp:378-390 | a FIFO of known protocol and in step, whose one read is a transfer with an operand from the block, is not in step afterwards |
| FifoProtocol.TransferPassesMemory | lib/Transforms/OrderFifoSlotsByUse.cpp:386-390 | a FIFO of known protocol on which the pass succeeds, moving a transfer that reads a slot from behind a store to its front |
| StridedSlices.CoefficientGcdIs | lib/Transforms/SimplifyLinalg.cpp:313-316 | the stride divides every coefficient, and is 0 exactly for none but zeros |
| StridedSlices.CoefficientGcdIsGreatest | lib/Transforms/SimplifyLinalg.cpp:313-316 | every common divisor divides the stride |
| StridedSlices.StridedDimIff | lib/Transforms/SimplifyLinalg.cpp:302-326 | there is a strided slice exactly if the coefficients have a greatest common divisor above 1, the extent is known and the constant's remainder lies inside it; it takes exactly the indices with that remainder |
| StridedSlices.SliceStridedDim | lib/Transforms/SimplifyLinalg.cpp:302-326 | slices exactly dimensions of known extent and form with a stride above 1 and an offset inside |
| StridedSlices.StridedDimFits | lib/Transforms/SimplifyLinalg.cpp:321-326 | the slice stays inside the dimension and one step more would leave it |
| StridedSlices.StridedDimHolds | lib/Transforms/SimplifyLinalg.cpp:283-326 | every index inside the extent that the expression can take is in the slice |
| StridedSlices.AccessedDimHolds | lib/Transforms/SimplifyLinalg.cpp:272-283 | an index is in the slice of a shrunk dimension exactly if it lies between the bounds |
| StridedSlices.SlicedUnless | lib/Transforms/SimplifyLinalg.cpp:204-223 | a slice on offer is dropped exactly if it is the whole dimension or the rebased index is a loop variable whose range is not the slice's size |
| StridedSlices.SliceDims | lib/Transforms/SimplifyLinalg.cpp:189-229 | every slice on offer is taken that is not the whole dimension and does not make the index a loop variable of another range, and no other; fails exactly if there is none |
| StridedSlices.ComputeStridedSlice | lib/Transforms/SimplifyLinalg.cpp:294-328 | a dimension is sliced exactly if its coefficients have a common divisor above 1, its extent is known, the offset lies inside, and no loop gets another range; the slice takes exactly the indices with the constant's remainder |
| StridedSlices.AccessStays | lib/Transforms/SimplifyLinalg.cpp:189-229 | the rebased index lies in the slice, and what the slice has there is what the operand had at the old index |
| StridedSlices.StridedAccessStays | lib/Transforms/SimplifyLinalg.cpp:285-328 | for indices inside the operand a strided slice always meets that condition |
| StridedSlices.LoopRangesStay | lib/Transforms/SimplifyLinalg.cpp:216-221 | if plain dimensions gave the loops their ranges, they still give the same |
| StridedSlices.PlainDimensionStays | lib/Transforms/SimplifyLinalg.cpp:285-328 | a plain dimension is never sliced, so each loop keeps the dimensions that give its range |
| SlicedOperands.RunRelates | lib/Transforms/SimplifyLinalg.cpp:340-411 | running with one operand replaced by its slice keeps all other operands and the slice's content equal to the operand's, and nothing outside the slice changes |
| SlicedOperands.Restored | lib/Transforms/SimplifyLinalg.cpp:396-403 | putting the slice back gives the operand as it would have become |
| SlicedOperands.SliceOperands | lib/Transforms/SimplifyLinalg.cpp:369-411 | slices operand by operand, each in exactly the dimensions that have a stride, and reports a change exactly if some operand was sliced |
| SlicedOperands.SlicingKeepsMeaning | lib/Transforms/SimplifyLinalg.cpp:340-411 | for every body, and slices that hold what is accessed, running on slices and inserting the results back gives the original results |
| SlicedOperands.StridedHoldAll | lib/Transforms/SimplifyLinalg.cpp:285-411 | the strided slices hold what is accessed in every run that stays inside its operands |
| SlicedOperands.StridedSlicingKeepsMeaning | lib/Transforms/SimplifyLinalg.cpp:340-435 | so normalizing strides keeps the results of every such run |
| RowMajor.DelinearizeRowMajor | lib/Transforms/NormalizeGridTo1D.cpp:66-90 | the coordinates that suffix products, division and remainder give, computed in one pass each |
| RowMajor.CoordsNumber | lib/Transforms/NormalizeGridTo1D.cpp:60-90 | the coordinates number the flat index again, for every index, and lie in the grid if and only if it is below the grid's size |
| RowMajor.NumberIsUnique | lib/Transforms/NormalizeGridTo1D.cpp:60-90 | no two coordinates in the grid have one number |
| RowMajor.RoundTrip | lib/Transforms/NormalizeGridTo1D.cpp:60-90 | coordinates in the grid come back from their number |
| RowMajor.FlatSize | lib/Transforms/NormalizeGridTo1D.cpp:107-132 | fails exactly on an empty grid or one with a size that is not positive; otherwise the product |

## Findings

Where the code does not do what its comments or its purpose promise, the code is modelled as it
is, a lemma gives an input, and another says exactly when the promise is kept.

| source | input | what happens | proved in |
|---|---|---|---|
| lib/Transforms/PathExpansion/Planner.cpp:1182-1326 | a chain of two compute units at the ends and, between them, a load/store unit, memory L0, memory L1 joined to it directly, and another load/store unit | the cut succeeds, and the data behind the first hop is to be in L1, to which the hop's unit has no link | `MemoryDatapathStrandsAHop`; a hop can store if and only if no memory meets a memory behind it: `HopTransferIsLegal` |
| lib/Transforms/FoldFifoRelayStages.cpp:342-360, 448-453 | a token put out by two stages, the fold's target one of them; the donor awaits it | the fold is permitted and the other stage, which the donor awaited, is no longer ordered with the transfer | `SharedTokenLosesOrder`; kept if and only if each stage the donor awaits is ahead of the target: `KeepsBeforeDonorIff`, stage by stage `AheadOfTarget` |
| lib/Transforms/Utils/PipelineTreeLegalizer.cpp:222-224 | a pipeline whose first child is neither a stage nor a private | the scan of the private rule does not advance past the child and never ends | `IllegalFirstChildHangs`; it ends if and only if no such child stands before the first stage with dependencies: `ScanEndsUnlessBlocked` |
| lib/Transforms/Utils/PipelineTreeLegalizer.cpp:189-193 | a parent that is no pipeline and has a stage as its first child and other children behind | the new pipeline is appended at the end, behind nodes that the stages stood in front of | `NestsInPlace`, an if-and-only-if on the first child |
| lib/Analysis/MemoryTracker.cpp:71-86 | a memory of 1024 bytes of which 64 are reserved, a block of 2^64 - 32 bytes aligned to 32 | the sum of address and size wraps, the block is handed out, and the next address is 32, in the reserved part | `WrappedEndIsAccepted`; inside if and only if the unwrapped end is below 2^64: `AllocatedIsInside` |
| lib/Transforms/AddressAssignment.cpp:198-201 | a layout of size 4 and stride 0x5555555555555555 | the largest position is 2^64 - 1, one more is 0, and the allocation has size 0 | `SizeCanBeLost`; right if and only if the number of elements is below 2^64: `SizeIsThatOfAll` |
| lib/Transforms/OrderFifoSlotsByUse.cpp:378-390 | a FIFO in step with two slots, of which the second is read by a transfer into memory that uses a value defined behind the first read | the writes have moved, the reads are refused, and reads no longer take the slots they ask for; the comment says that reads always move | `TransferBreaksStep`; in step if and only if the reads follow the order of use or can be moved into it: `InStepIffReadsMove`; `ReadsThatOnlyTakeMove` is the case the comment has in mind |
| lib/Transforms/OrderFifoSlotsByUse.cpp:386-390 | a read, a store, a transfer that reads the slot used first, and the use of what was read | the pass succeeds and moves the transfer over the store, as memory order is not asked for when reads move | `TransferPassesMemory`; a read passes a memory operation if and only if the reads are moved and one lies between: `BlocksStaySafe` |
| lib/Transforms/Utils/IndirectAccessTileNarrowing.cpp:151-160 | an access tile that starts at 1 in the pinned dimension or a later one | the pinned tiles start at 0 there, so together they touch other elements than the tile did; the fills of the buffer read other addresses | `PinnedTilesCover` and, for the fills, `FillsReadTileIff`, if-and-only-ifs on the starts; through a whole run `IsGatherIff` |
| lib/Transforms/Utils/IndirectAccessTileNarrowing.cpp:74-93 | an order of tile dimensions that is not the identity, with another variable in the place of the dropped one | that variable's tile dimension becomes the constant 0, and absorbing it later fails | `DroppedOrderIsPlain`, an if-and-only-if on the order; carried through a whole run by `MaterializeWindowLoops` and `MaterializeEntryLoop` |
| lib/Transforms/Utils/IndirectAccessTileNarrowing.cpp:113-123, 271-287 | a source or destination tile of which the last dimension is pinned | `pinAndFoldAccessTile` folds as many dimensions as there are, and the leading group names one that does not exist; the window loops' own call (IndirectAddrBufLegalization.cpp:599-602) leaves a dimension and is not affected | `PinnedFoldPartitions`, an if-and-only-if on the shape; on the number folded, `FoldPartitions` |
| lib/Transforms/Utils/IndirectAccessTileNarrowing.cpp:271-273 | a source or destination tile of which the dimension of some loop has one element | that dimension counts as pinned already, and the loop pins the next one | `PinsInTurnIff`, an if-and-only-if on the extents |
| lib/Transforms/IndirectAddrBufLegalization.cpp:435-466, 979-1008 | a direct subscript that refers to a variable which subscripts the buffer, in a window loop or the entry loop; a comment (982-984) says there is none, but neither the operation's description (include/dataflow-scheduler/Dialect/KTDPLowering/KTDPLowering.td:66-101) nor its verifier (lib/Dialect/KTDPLowering/KTDPLoweringOps.cpp:322-372) excludes it | the reference is evaluated as 0 | `ReferenceToRowIsLost`; in one iteration kept if and only if the subscripts do not tell the loop's value from 0: `WindowKeepsIff`, `EntryKeepsIff`; in a whole run if and only if they do not at any point: `IsGatherIff`; a subscript that is the variable itself is kept in iteration 0 only: `PlainReferenceIsLost` |
| lib/Transforms/IndirectAddrBufLegalization.cpp:420-433 | two dimensions of the buffer subscripted by one variable, which the verifier does not exclude either | once the variable is absorbed the second dimension is read at the variable that takes its place, if there is one | `WindowKeepsIff`, an if-and-only-if on that variable's value |
| lib/Transforms/IndirectAddrBufLegalization.cpp:409-413, 474-481 | an order of tile dimensions in which the absorbed variable c is not dimension c | the order loses dimension number c and the shape the one that c had, so variables whose dimensions lie between are told the wrong extents | `DimensionIsKept`, an if-and-only-if for each variable; for all variables `DimensionsAreKept` |

## Left out

- Stages are numbers and dependencies a map from each stage to its list; nullifying a dependency and removing nullified ones is one step that removes the first match.
- The resource of each stage is an input: collecting transfer ends and the memory of a unit (Planner.cpp:302-676) are not modelled, nor is finding the flows of a pipeline (679-940); `Plan` starts with the flows.
- After a plan is found, adapting flow ends, retyping FIFOs between original stages (`BoundaryFifos`), choosing transfer modes (`assignTransferMode`), and materializing the plan are not modelled; they rewrite operations one by one and add no decision about the route.
- The check of minimum transfer sizes and `classifyDirectVariables` are left out; the list of direct subscripts to be absorbed is an input, for which `MaterializeDirectAccessLoops` gives the exact condition of success.
- Index sets are boxes with lower bound 0, given with their trip counts; the solver that finds trip counts, affine symbols, and the canonicalization of sets are not modelled.
- Rewriting of the loop body (`propagateNarrowing`, splicing, hoisting the memory view) is not modelled; the nest is given by its loops, the fill at entry 0 from the pinned tile, and the rebuilt access. The tiles of sources and destinations are only modelled as far as their pins and folds go.
- `computeAccessedSlice` gets its bounds from a solver that is not modelled; `AccessedDimHolds` is about whatever bounds it finds. The linear forms of expressions and the expression simplifier of `sliceDims` enter as inputs with their contracts (`IsFlatOf`, `Simplifies`).
- The body of a generic operation is any function of the point and the values read; points are visited one after the other in any given order.
- StageGraph.h is not part of this model; that a stage awaits another is defined by the tokens they share. Of a transfer's attributes only one that may conflict is modelled, and affine maps and indices are one value each.
- Shrinking FIFO allocations, ordering the stages again and normalizing tokens after the folds (FoldFifoRelayStages.cpp:518-549, 575-590) are left out.
- What a slot is written and read by, and grouping slots by FIFO (OrderFifoSlotsByUse.cpp:64-95, 185-212, 230-268), are inputs of the FIFO order; that a stage is on no cycle is taken for granted as in the source.
- The 64-bit arithmetic of the memory tracker and of allocation sizes is modelled with its wrap-around; products of grid sizes and identifiers of stages are unbounded, and that the least common multiple of alignment and element size fits 64 bits is assumed.
- GatherNest.GatherThroughBuffer: requires that every dimension of the buffer is subscripted by an intermediate variable of its own. What a window loop does to two dimensions with one variable is in `WindowKeepsIff`; for a captured variable the source computes the index of an intermediate one that does not exist, which is not modelled.
- PathPlanner.PathPlanner.Plan: ends where the new order is found; that planning can fail after it, on transfer sizes or shapes and on transfer modes (Planner.cpp:1469-1910), is not modelled.
- PipelineLegalizer.FindAndFixViolations: requires that the private rule's scan hangs nowhere at the start, as the source does not end otherwise (see Findings).
- The operations of template stages that fixes create, printing, post-order and guided walks, depth queries and clearing of trees are left out; so are diagnostics throughout.
- `FoldFill`, `DemoteInitToInput`, `DropUnitDims`, and the passes not named above (tiling, double buffering, hoisting, parallelizing, register materialization) are left out.
