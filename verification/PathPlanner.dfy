/** The path expansion planner: from the stages of a pipeline and the data they pass on, to
    a pipeline in which every route runs through stages the hardware can carry out. */
module PathPlanner {
  import opened Wrappers
  import opened Digraph
  import RoutingGraph
  import opened StageOrder
  import opened StageSides
  import opened HopCutting
  import opened Rewiring
  import opened FlowRouting
  import opened StagePlacement
  import opened FlowExpansion
  import opened Sequences

  /** Why planning stopped, or how it ended. */
  datatype Outcome =
    | Cyclic            // the stage dependencies form a cycle
    | Unclassifiable    // some stage is not clearly before or after the compute stages
    | Unroutable        // some flow has no path
    | UnitConflict      // stages and flows disagree on units
    | AlreadyLegal      // no path needs another stage
    | HopConflict       // a path cannot be cut, or its units are taken
    | OrderConflict     // hops given to existing stages made a cycle
    | Expanded

  /** No datapath joins two memories. */
  ghost predicate NoMemoryDatapaths(dev: Device) {
    forall a, b :: Edge(dev.links, a, b) && a in dev.nodes && b in dev.nodes ==>
      !(dev.nodes[a].kind.Memory? && dev.nodes[b].kind.Memory?)
  }

  /** The stage that took on hop k of the flow runs on a load/store unit of the path from
      which it can reach what holds the data before and after it. */
  ghost predicate HopIsLegal(dev: Device, info: Infos, f: DataFlow, k: nat)
    requires KnownPath(dev.nodes, f.path) && k < |f.chain| && |f.boundaries| == |f.chain| + 1
  {
    && 0 < f.boundaries[k] < f.boundaries[k + 1] < |f.path|
    && f.chain[k] in info
    && exists u :: f.boundaries[k] <= u < f.boundaries[k + 1]
                   && dev.nodes[f.path[u]].kind.LoadStoreUnit?
                      && info[f.chain[k]].unit == Some(dev.nodes[f.path[u]].resource)
                   && CanLoad(dev.links, PlaceAt(dev.nodes, f.path, f.boundaries[k]), f.path[u])
                   && CanStore(dev.links, PlaceAt(dev.nodes, f.path, f.boundaries[k + 1]), f.path[u])
  }

  /** The producer's resource can store to what holds the data before the first hop, or is that
      memory itself, and the consumer's can load what holds it after the last hop, or is it. */
  predicate EndsAreLegal(dev: Device, f: DataFlow)
    requires KnownPath(dev.nodes, f.path) && |f.boundaries| == |f.chain| + 1
  {
    var b, e := f.boundaries[0], f.boundaries[|f.chain|];
    && 0 < b < |f.path| && 0 < e < |f.path|
    && (PlaceAt(dev.nodes, f.path, b) == Buffer(dev.nodes[f.path[b - 1]])
        || CanStore(dev.links, PlaceAt(dev.nodes, f.path, b), f.path[b - 1]))
    && (PlaceAt(dev.nodes, f.path, e) == Buffer(dev.nodes[f.path[e]])
        || CanLoad(dev.links, PlaceAt(dev.nodes, f.path, e), f.path[e]))
  }

  /** Everything on the route that the hops bring about can be carried out. */
  ghost predicate HopsAreLegal(dev: Device, info: Infos, f: DataFlow) {
    && KnownPath(dev.nodes, f.path) && (f.chain != [] ==> |f.boundaries| == |f.chain| + 1 && EndsAreLegal(dev, f))
    && forall k :: 0 <= k < |f.chain| ==> HopIsLegal(dev, info, f, k)
  }

  /** End to end: the search, the cut and the choice of places together give every hop
      stage transfers that the device can carry out. */
  lemma ExpandedHopsAreLegal(dev: Device, sides: map<StageId, StageSide>, info0: Infos, st: PlanState, f0: DataFlow,
                             f: DataFlow)
    requires NoMemoryDatapaths(dev)
    requires IsRouted(dev, sides, info0, f0) && f == f0.(chain := f.chain, boundaries := f.boundaries)
    requires IsExpanded(dev.nodes, st, f)
    ensures HopsAreLegal(dev, st.info, f)
  {
    hide RoutingGraph.IsShortest;
    forall k | 0 <= k < |f.chain| ensures HopIsLegal(dev, st.info, f, k) {
      LegalHop(dev, sides, info0, st, f0, f, k);
    }
    if f.chain != [] {
      LegalEnds(dev, sides, info0, st, f0, f);
    }
  }

  lemma LegalEnds(dev: Device, sides: map<StageId, StageSide>, info0: Infos, st: PlanState, f0: DataFlow, f: DataFlow)
    requires NoMemoryDatapaths(dev)
    requires IsRouted(dev, sides, info0, f0) && f == f0.(chain := f.chain, boundaries := f.boundaries)
    requires IsExpanded(dev.nodes, st, f) && f.chain != []
    ensures KnownPath(dev.nodes, f.path) && |f.boundaries| == |f.chain| + 1 && EndsAreLegal(dev, f)
  {
    hide HasHome, Home, RoutingGraph.IsShortest;
    var last := |f.chain| - 1;
    ExpandedFlowPartition(dev.nodes, st, f, 0);
    ExpandedFlowPartition(dev.nodes, st, f, last);
    BoundaryInside(dev, sides, info0, f0);
    FirstBoundary(dev.nodes, st, f, 0);
    hide IsExpanded;
    var a, z := Home(dev, info0, f.producer), Home(dev, info0, f.consumer);
    ShortestIsPath(dev.links, f.path, a, z);
    NoMemoriesMeet(dev, f.path, f.boundaries[0], a, z);
    NoMemoriesMeet(dev, f.path, f.boundaries[last + 1], a, z);
    RouteEndsAreLegal(dev.links, dev.nodes, f.path, f.boundaries[0]);
    RouteEndsAreLegal(dev.links, dev.nodes, f.path, f.boundaries[last + 1]);
  }

  lemma ShortestIsPath(links: Graph, path: seq<NodeId>, a: NodeId, z: NodeId)
    requires RoutingGraph.IsShortest(links, path, a, z)
    ensures IsPath(links, path)
  {
  }

  lemma LegalHop(dev: Device, sides: map<StageId, StageSide>, info0: Infos, st: PlanState, f0: DataFlow, f: DataFlow,
                 k: nat)
    requires NoMemoryDatapaths(dev)
    requires IsRouted(dev, sides, info0, f0) && f == f0.(chain := f.chain, boundaries := f.boundaries)
    requires IsExpanded(dev.nodes, st, f) && k < |f.chain| == |f.boundaries| - 1
    ensures KnownPath(dev.nodes, f.path) && HopIsLegal(dev, st.info, f, k)
  {
    hide IsExpanded, HasHome, Home, RoutingGraph.IsShortest;
    ExpandedFlowPartition(dev.nodes, st, f, k);
    BoundaryInside(dev, sides, info0, f0);
    var h :| IsHop(dev.nodes, f.path, h) && h.begin == f.boundaries[k] && h.End() == f.boundaries[k + 1]
             && f.chain[k] in st.info && st.info[f.chain[k]] == StageInfo(h.memory, Some(h.unit));
    FirstBoundary(dev.nodes, st, f, k);
    HopTransferIsLegal(dev.links, dev.nodes, f.path, Home(dev, info0, f.producer), Home(dev, info0, f.consumer), h);
    NoMemoriesMeet(dev, f.path, h.End(), Home(dev, info0, f.producer), Home(dev, info0, f.consumer));
    var u := UnitIndex(dev.nodes, f.path, h);
    assert dev.nodes[f.path[u]] == PathNode(dev.nodes, f.path, u);
  }

  lemma FirstBoundary(nodes: Nodes, st: PlanState, f: DataFlow, k: nat)
    requires IsExpanded(nodes, st, f) && k < |f.chain|
    ensures |f.boundaries| == |f.chain| + 1 && f.boundaries[k] >= f.MiddleBegin()
  {
    var hops := FlowHops(nodes, f).value;
    PartitionIsContiguous(nodes, f.path, hops, f.MiddleBegin(), f.MiddleEnd(), k);
  }

  lemma BoundaryInside(dev: Device, sides: map<StageId, StageSide>, info0: Infos, f: DataFlow)
    requires IsRouted(dev, sides, info0, f)
    ensures f.MiddleEnd() < |f.path| && HasMiddle(dev.nodes, f)
  {
  }

  lemma NoMemoriesMeet(dev: Device, path: seq<NodeId>, i: nat, a: NodeId, b: NodeId)
    requires NoMemoryDatapaths(dev) && KnownPath(dev.nodes, path) && 0 < i < |path|
    requires RoutingGraph.IsShortest(dev.links, path, a, b)
    ensures !MemoryMeetsMemory(dev.nodes, path, i)
  {
    assert Edge(dev.links, path[i - 1], path[i - 1 + 1]);
  }

  // ----- Before any stage is added

  /** The pipeline as the planner gets it: every stage has a resource, and every flow
      follows a dependency between two of the stages. */
  ghost predicate WellFormed(dev: Device, orig: Original, flows: seq<DataFlow>) {
    && OverStages(orig.deps, orig.order) && orig.info.Keys == Elems(orig.order)
    && (forall s :: s in orig.order ==> HasHome(dev, orig.info, s))
    && (forall f :: f in flows ==>
                      f.producer in orig.order && f.consumer in orig.order && Edge(orig.deps, f.producer, f.consumer))
    && (forall f :: f in flows ==> f.chain == [] && f.boundaries == [])
  }

  ghost predicate Prepared(dev: Device, orig: Original, flows: seq<DataFlow>, pinned: set<StageId>,
                           sides: map<StageId, StageSide>, routed: seq<DataFlow>)
  {
    && Acyclic(orig.deps) && Classifiable(orig.deps, orig.order, pinned)
    && IsClassification(orig.deps, orig.order, pinned, sides)
    && AllRouted(dev, sides, orig.info, flows, routed)
  }

  ghost predicate AllRoutable(dev: Device, info: Infos, flows: seq<DataFlow>) {
    forall i :: 0 <= i < |flows| ==> Routable(dev, info, flows[i])
  }

  lemma FlowsReady(dev: Device, orig: Original, flows: seq<DataFlow>, sides: map<StageId, StageSide>)
    requires WellFormed(dev, orig, flows) && sides.Keys == Elems(orig.order)
    ensures forall i :: 0 <= i < |flows| ==> ReadyToRoute(dev, sides, orig.info, flows[i])
  {
    hide HasHome;
    forall i | 0 <= i < |flows| ensures ReadyToRoute(dev, sides, orig.info, flows[i]) {
      assert flows[i] in flows;
    }
  }

  lemma RoutedEnds(dev: Device, orig: Original, flows: seq<DataFlow>, sides: map<StageId, StageSide>,
                   routed: seq<DataFlow>)
    requires WellFormed(dev, orig, flows) && AllRouted(dev, sides, orig.info, flows, routed)
    ensures forall f :: f in routed ==> f.producer in orig.order && f.consumer in orig.order
                                        && Edge(orig.deps, f.producer, f.consumer) && HasMiddle(dev.nodes, f)
                                        && IsRouted(dev, sides, orig.info, f) && f.chain == [] && f.boundaries == []
  {
    hide IsRouted, HasHome, OverStages, HasMiddle;
    forall f | f in routed
      ensures f.producer in orig.order && f.consumer in orig.order && Edge(orig.deps, f.producer, f.consumer)
              && HasMiddle(dev.nodes, f) && IsRouted(dev, sides, orig.info, f) && f.chain == [] && f.boundaries == []
    {
      var i :| 0 <= i < |routed| && routed[i] == f;
      assert RoutedFrom(dev, sides, orig.info, flows[i], f) && flows[i] in flows;
      BoundaryInside(dev, sides, orig.info, f);
    }
  }

  /** Sorts and classifies the stages and routes the flows. */
  method Prepare(arch: RoutingGraph.RoutingGraph, ghost dev: Device, ghost orig: Original,
                 deps: Graph, order: seq<StageId>, info: Infos, flows: seq<DataFlow>, pinnedToCompute: set<StageId>)
    returns (outcome: Outcome, sides: map<StageId, StageSide>, routed: seq<DataFlow>)
    requires arch.Valid() && dev == Device(arch.Links(), arch.nodes, arch.resourceIndex)
    requires orig == Original(info, deps, order) && WellFormed(dev, orig, flows) && pinnedToCompute <= Elems(order)
    ensures outcome in {Cyclic, Unclassifiable, Unroutable, AlreadyLegal}
    ensures outcome.Cyclic? <==> !Acyclic(deps)
    ensures outcome.Unclassifiable? <==> Acyclic(deps) && !Classifiable(deps, order, pinnedToCompute)
    ensures outcome.Unroutable? <==>
              Acyclic(deps) && Classifiable(deps, order, pinnedToCompute) && !AllRoutable(dev, info, flows)
    ensures outcome.AlreadyLegal? ==> Prepared(dev, orig, flows, pinnedToCompute, sides, routed)
  {
    hide RoutingGraph.RoutingGraph.Valid, IsRouted, Routable, Acyclic, Classifiable, AllRouted, ReadyToRoute;
    sides, routed := map[], [];
    var sorted := TopologicalSortStages(deps, order);
    if sorted.None? {
      return Cyclic, sides, routed;
    }
    var classified := ClassifyStageSides(deps, order, sorted.value, pinnedToCompute);
    if classified.None? {
      return Unclassifiable, sides, routed;
    }
    sides := classified.value;
    FlowsReady(dev, orig, flows, sides);
    var r := RouteDataFlows(arch, dev, flows, sides, info);
    if r.None? {
      return Unroutable, sides, routed;
    }
    routed := r.value;
    outcome := AlreadyLegal;
  }

  // ----- The planner

  /** Each stage of the route comes before the ones behind it. */
  predicate InRouteOrder(order: seq<StageId>, route: seq<StageId>) {
    forall i, j :: 0 <= i < j < |route| ==>
      route[i] in order && route[j] in order && IndexOf(order, route[i]) < IndexOf(order, route[j])
  }

  /** What planning promises about the expanded pipeline. */
  ghost predicate IsSound(dev: Device, orig: Original, info1: Infos, deps: Graph, order: seq<StageId>, info: Infos,
                          routed: seq<DataFlow>, flows: seq<DataFlow>)
  {
    // Every hop of every flow can be carried out.
    && (NoMemoryDatapaths(dev) ==> forall f :: f in flows ==> HopsAreLegal(dev, info, f))
    // The stages are in an order that respects every route and every original dependency.
    && OverStages(deps, order) && RespectsEdges(deps, order)
    && (forall f :: f in flows ==> InRouteOrder(order, [f.producer] + f.chain + [f.consumer]))
    && (forall a, b :: Edge(orig.deps, a, b) ==> a in order && b in order && IndexOf(order, a) < IndexOf(order, b))
    // No unit runs two stages, and the original stages are as they were.
    && UnitsDistinct(info) && info.Keys == Elems(order)
    && (forall s :: s in info1 ==> s in info && info[s] == info1[s])
    // The flows are the routed ones, with stages for their hops.
    && |flows| == |routed|
    && (forall i :: 0 <= i < |flows| ==>
          flows[i] == routed[i].(chain := flows[i].chain, boundaries := flows[i].boundaries)
          && TakesOnItsHops(dev.nodes, info, flows[i]))
  }

  /** The flow's middle is cut, and each of its hops has a stage of its own that works on
      the hop's memory through the hop's unit. */
  ghost predicate TakesOnItsHops(nodes: Nodes, info: Infos, f: DataFlow) {
    && HasMiddle(nodes, f) && FlowHops(nodes, f).Some?
    && var hops := FlowHops(nodes, f).value;
    && |f.chain| == |hops| && Distinct(f.chain) && f.producer !in f.chain && f.consumer !in f.chain
    && (forall k :: 0 <= k < |hops| ==>
          f.chain[k] in info && info[f.chain[k]] == StageInfo(hops[k].memory, Some(hops[k].unit)))
    && f.boundaries == if hops == [] then [] else Boundaries(hops, f.MiddleEnd())
  }

  /** The original dependencies and the routes of the expanded flows together. */
  ghost predicate IsIntended(orig: Original, flows: seq<DataFlow>, intended: Graph) {
    forall a, b :: Edge(intended, a, b) <==> Edge(orig.deps, a, b) || OnSomeRoute(flows, a, b)
  }

  method OwnersOf(info: Infos, order: seq<StageId>) returns (unitOwner: map<Resource, StageId>)
    requires Distinct(order) && info.Keys == Elems(order) && UnitsDistinct(info)
    ensures forall u :: u in unitOwner ==> unitOwner[u] in info && info[unitOwner[u]].unit == Some(u)
    ensures forall s :: s in info && info[s].unit.Some? ==>
                          info[s].unit.value in unitOwner && unitOwner[info[s].unit.value] == s
  {
    unitOwner := map[];
    for i := 0 to |order|
      invariant forall u :: u in unitOwner ==> unitOwner[u] in info && info[unitOwner[u]].unit == Some(u)
      invariant forall k :: 0 <= k < i && info[order[k]].unit.Some? ==>
                  info[order[k]].unit.value in unitOwner && unitOwner[info[order[k]].unit.value] == order[k]
    {
      var unit := info[order[i]].unit;
      assert order[i] in Elems(order);
      if unit.Some? {
        unitOwner := unitOwner[unit.value := order[i]];
      }
    }
    forall s | s in info && info[s].unit.Some?
      ensures info[s].unit.value in unitOwner && unitOwner[info[s].unit.value] == s
    {
      assert s in Elems(order);
      assert order[IndexOf(order, s)] == s;
    }
  }

  lemma StartIsConsistent(orig: Original, st: PlanState)
    requires OverStages(orig.deps, orig.order) && orig.info.Keys == Elems(orig.order)
    requires OwnersMatch(st) && st.info == orig.info && st.deps == orig.deps && st.order == orig.order
    requires forall s :: s in orig.order ==> s < st.nextStage
    ensures Consistent(orig, st, {})
  {
    RestrictAll(orig.order, orig.info.Keys);
  }

  lemma ExpandedStagesKnown(nodes: Nodes, orig: Original, st: PlanState, used: set<Hop>, flows0: seq<DataFlow>,
                            flows: seq<DataFlow>)
    requires Consistent(orig, st, used) && AllExpanded(nodes, st, flows0, flows)
    requires forall f :: f in flows0 ==> f.producer in orig.info && f.consumer in orig.info
    ensures forall f :: f in flows ==> StagesKnown(st.deps, f)
  {
    forall f, s | f in flows && s in f.Route() ensures s in st.deps {
      var i :| 0 <= i < |flows| && flows[i] == f;
      assert IsExpanded(nodes, st, f) && flows0[i] in flows0;
      if s in f.chain {
        var k :| 0 <= k < |f.chain| && f.chain[k] == s;
        assert OwnedFor(st, FlowHops(nodes, f).value[k]);
      }
    }
  }

  lemma RewiredOverStages(orig: Original, st: PlanState, used: set<Hop>, flows: seq<DataFlow>, deps: Graph)
    requires Consistent(orig, st, used) && OverStages(orig.deps, orig.order)
    requires forall f :: f in flows ==> StagesKnown(st.deps, f)
    requires deps.Keys == st.deps.Keys
    requires forall a, b :: Edge(deps, a, b) ==> Edge(st.deps, a, b) || OnSomeRoute(flows, a, b)
    ensures OverStages(deps, st.order)
    ensures forall a, b :: Edge(st.deps, a, b) <==> Edge(orig.deps, a, b)
  {
    forall a, b ensures Edge(st.deps, a, b) <==> Edge(orig.deps, a, b) {}
    forall a, b | Edge(deps, a, b) ensures b in st.order {
      if Edge(st.deps, a, b) {
        assert b in Elems(orig.order);
      } else {
        var f :| f in flows && OnRoute(f, a, b);
        assert StagesKnown(st.deps, f) && b in f.Route();
      }
      assert b in Elems(st.order);
    }
  }

  lemma {:induction false} RouteReaches(deps: Graph, route: seq<StageId>, i: nat, j: nat)
    requires i < j < |route|
    requires forall a, b :: Adjacent(route, a, b) ==> Reaches(deps, a, b)
    ensures Reaches(deps, route[i], route[j])
    decreases j - i
  {
    assert Adjacent(route, route[j - 1], route[j]) by {
      assert route[j - 1 + 1] == route[j];
    }
    if i < j - 1 {
      RouteReaches(deps, route, i, j - 1);
      ReachTrans(deps, route[i], route[j - 1], route[j]);
    }
  }

  lemma ReachMeansEarlier(deps: Graph, stages: seq<StageId>, order: seq<StageId>, a: StageId, b: StageId)
    requires OverStages(deps, stages) && IsTopological(deps, stages, order)
    requires a in order && b in order && Reaches(deps, a, b)
    ensures IndexOf(order, a) < IndexOf(order, b)
  {
    OrderedReach(deps, stages, order, IndexOf(order, a), IndexOf(order, b));
  }

  /** A topological order of the rewired dependencies has every route in order. */
  lemma RouteIsInOrder(deps: Graph, stages: seq<StageId>, order: seq<StageId>, f: DataFlow)
    requires OverStages(deps, stages) && IsTopological(deps, stages, order)
    requires forall s :: s in f.Route() ==> s in order
    requires forall a, b :: Adjacent(f.Route(), a, b) ==> Reaches(deps, a, b)
    ensures InRouteOrder(order, f.Route())
  {
    hide OverStages, IsTopological, Reaches, Adjacent;
    var route := f.Route();
    forall i, j | 0 <= i < j < |route|
      ensures route[i] in order && route[j] in order && IndexOf(order, route[i]) < IndexOf(order, route[j])
    {
      RouteReaches(deps, route, i, j);
      ReachMeansEarlier(deps, stages, order, route[i], route[j]);
    }
  }

  // ----- Expanding

  /** What is known once hops are given out and the dependencies are rewired. */
  ghost predicate Rewired(dev: Device, orig: Original, st: PlanState, deps: Graph, routed: seq<DataFlow>,
                          flows: seq<DataFlow>,
                          intended: Graph)
  {
    && AllExpanded(dev.nodes, st, routed, flows)
    && OwnersMatch(st) && st.info.Keys == Elems(st.order)
    && (forall s :: s in orig.info ==> s in st.info && st.info[s] == orig.info[s])
    && (forall f :: f in flows ==> StagesKnown(st.deps, f))
    && st.deps.Keys == st.info.Keys && Restrict(st.order, orig.info.Keys) == orig.order
    && OverStages(deps, st.order)
    && (forall a, b :: Edge(st.deps, a, b) <==> Edge(orig.deps, a, b))
    && (forall a, b :: Reaches(deps, a, b) <==> Reaches(intended, a, b))
    && IsIntended(orig, flows, intended)
  }

  /** Where all flows from a to b have hops and no hop stage hands over from a to b, that dependency is
      gone; off the routes all others are there as they were. */
  ghost predicate DirectsAreGone(deps0: Graph, deps: Graph, flows: seq<DataFlow>) {
    forall a: StageId, b: StageId :: !OnSomeRoute(flows, a, b) ==>
      Listed(deps, a, b) == if AllHaveHops(flows, a, b) && Listed(deps0, a, b) > 0 then Listed(deps0, a, b) - 1
                            else Listed(deps0, a, b)
  }

  lemma MakeDirectsGone(orig: Original, st: PlanState, used: set<Hop>, deps: Graph, flows: seq<DataFlow>)
    requires Consistent(orig, st, used)
    requires forall a: StageId, b: StageId :: !OnSomeRoute(flows, a, b) ==>
               Listed(deps, a, b) == LeftOf(Listed(st.deps, a, b), AllHaveHops(flows, a, b))
    ensures DirectsAreGone(orig.deps, deps, flows)
  {
    hide OnSomeRoute, AllHaveHops;
    forall a: StageId, b: StageId ensures Listed(st.deps, a, b) == Listed(orig.deps, a, b) {
    }
  }

  /** Step 1: adds the hop stages and rewires the dependencies through them. */
  method ExpandAndRewire(nodes: Nodes, ghost dev: Device, ghost orig: Original, st0: PlanState, routed: seq<DataFlow>)
    returns (ok: bool, st: PlanState, flows: seq<DataFlow>, deps: Graph, ghost intended: Graph,
             ghost added: map<StageId, seq<StageId>>)
    requires nodes == dev.nodes && Consistent(orig, st0, {}) && OverStages(orig.deps, orig.order)
    requires forall f :: f in routed ==> HasMiddle(nodes, f) && f.producer in orig.info && f.consumer in orig.info
    ensures ok <==> Expandable(nodes, orig.info, routed)
    ensures ok ==> Rewired(dev, orig, st, deps, routed, flows, intended)
    ensures ok ==> StandsBehind(orig.order, added, st.order, flows) && DirectsAreGone(orig.deps, deps, flows)
  {
    hide AllExpanded, Reaches, HasMiddle, OverStages, Expandable, Consistent, Rewired, StagesKnown, StandsBehind,
        DirectsAreGone;
    deps, intended := st0.deps, st0.deps;
    ok, st, flows, added := ExpandDataFlows(nodes, st0, routed, orig);
    if !ok {
      return;
    }
    ghost var used := AllHops(nodes, routed);
    ExpandedStagesKnown(nodes, orig, st, used, routed, flows);
    deps := RewireDependencies(st.deps, flows);
    MakeDirectsGone(orig, st, used, deps, flows);
    intended := WithRoutes(st.deps, flows);
    RewiredHolds(dev, orig, st, used, deps, routed, flows, intended);
  }

  lemma RewiredHolds(dev: Device, orig: Original, st: PlanState, used: set<Hop>, deps: Graph, routed: seq<DataFlow>,
                     flows: seq<DataFlow>, intended: Graph)
    requires Consistent(orig, st, used) && OverStages(orig.deps, orig.order)
             && AllExpanded(dev.nodes, st, routed, flows)
    requires forall f :: f in flows ==> StagesKnown(st.deps, f)
    requires deps.Keys == st.deps.Keys && intended == WithRoutes(st.deps, flows)
    requires forall a, b :: Edge(deps, a, b) ==> Edge(st.deps, a, b) || OnSomeRoute(flows, a, b)
    requires forall a, b :: Reaches(deps, a, b) <==> Reaches(intended, a, b)
    ensures Rewired(dev, orig, st, deps, routed, flows, intended)
  {
    hide AllExpanded, Reaches, Consistent, StagesKnown, OnSomeRoute, OverStages, OwnersMatch;
    RewiredOverStages(orig, st, used, flows, deps);
    ConsistentFacts(orig, st, used);
  }

  lemma ConsistentFacts(orig: Original, st: PlanState, used: set<Hop>)
    requires Consistent(orig, st, used)
    ensures OwnersMatch(st) && st.info.Keys == Elems(st.order) == st.deps.Keys
    ensures Restrict(st.order, orig.info.Keys) == orig.order
    ensures forall s :: s in orig.info ==> s in st.info && st.info[s] == orig.info[s]
  {
  }

  lemma SameReachSameCycles(g: Graph, h: Graph)
    requires forall a, b :: Reaches(g, a, b) <==> Reaches(h, a, b)
    ensures Acyclic(g) <==> Acyclic(h)
  {
  }

  lemma PlanIsSound(dev: Device, orig: Original, sides: map<StageId, StageSide>, info0: Infos, st: PlanState,
                    deps: Graph,
                    routed: seq<DataFlow>, flows: seq<DataFlow>, intended: Graph, order: seq<StageId>)
    requires Rewired(dev, orig, st, deps, routed, flows, intended)
    requires IsTopological(deps, st.order, order)
    requires OverStages(orig.deps, orig.order)
    requires forall f :: f in routed ==> IsRouted(dev, sides, info0, f) && Edge(orig.deps, f.producer, f.consumer)
    ensures IsSound(dev, orig, orig.info, deps, order, st.info, routed, flows)
  {
    PlanHopsAreLegal(dev, orig, sides, info0, st, routed, flows);
    PlanRoutesInOrder(dev, orig, st, deps, routed, flows, intended, order);
    PlanKeepsDependencies(dev, orig, st, deps, routed, flows, intended, order);
    PlanFlowsExpanded(dev, st, routed, flows);
    assert UnitsDistinct(st.info);
    assert OverStages(deps, order) by {
      assert forall s :: s in st.order <==> s in Elems(st.order);
      assert forall s :: s in order <==> s in Elems(order);
    }
  }

  lemma PlanHopsAreLegal(dev: Device, orig: Original, sides: map<StageId, StageSide>, info0: Infos, st: PlanState,
                         routed: seq<DataFlow>, flows: seq<DataFlow>)
    requires AllExpanded(dev.nodes, st, routed, flows)
    requires forall f :: f in routed ==> IsRouted(dev, sides, info0, f)
    ensures NoMemoryDatapaths(dev) ==> forall f :: f in flows ==> HopsAreLegal(dev, st.info, f)
  {
    hide IsRouted, IsExpanded, HopsAreLegal, NoMemoryDatapaths;
    if NoMemoryDatapaths(dev) {
      forall f | f in flows ensures HopsAreLegal(dev, st.info, f) {
        var i :| 0 <= i < |flows| && flows[i] == f;
        ExpandedHopsAreLegal(dev, sides, info0, st, routed[i], f);
      }
    }
  }

  lemma PlanFlowsExpanded(dev: Device, st: PlanState, routed: seq<DataFlow>, flows: seq<DataFlow>)
    requires AllExpanded(dev.nodes, st, routed, flows)
    ensures |flows| == |routed|
    ensures forall i :: 0 <= i < |flows| ==>
              flows[i] == routed[i].(chain := flows[i].chain, boundaries := flows[i].boundaries)
              && TakesOnItsHops(dev.nodes, st.info, flows[i])
  {
    hide CutHops, KnownPath;
    forall i | 0 <= i < |flows| ensures TakesOnItsHops(dev.nodes, st.info, flows[i]) {
      var f := flows[i];
      assert IsExpanded(dev.nodes, st, f);
      forall k | 0 <= k < |f.chain| ensures OwnedFor(st, FlowHops(dev.nodes, f).value[k]) {}
    }
  }

  lemma PlanRoutesInOrder(dev: Device, orig: Original, st: PlanState, deps: Graph, routed: seq<DataFlow>,
                          flows: seq<DataFlow>,
                          intended: Graph, order: seq<StageId>)
    requires Rewired(dev, orig, st, deps, routed, flows, intended) && IsTopological(deps, st.order, order)
    requires forall f :: f in routed ==> Edge(orig.deps, f.producer, f.consumer)
    ensures forall f :: f in flows ==> InRouteOrder(order, f.Route())
  {
    hide IsExpanded, OverStages, OwnersMatch, InRouteOrder, RespectsEdges, Distinct, Reaches;
    assert forall s :: s in order <==> s in Elems(order);
    forall f | f in flows ensures InRouteOrder(order, f.Route()) {
      var i :| 0 <= i < |flows| && flows[i] == f;
      assert routed[i] in routed && StagesKnown(st.deps, f);
      forall a, b | Adjacent(f.Route(), a, b) ensures Reaches(deps, a, b) {
        if f.chain != [] {
          assert OnRoute(f, a, b);
        }
        EdgeReaches(intended, a, b);
      }
      RouteIsInOrder(deps, st.order, order, f);
    }
  }

  lemma PlanKeepsDependencies(dev: Device, orig: Original, st: PlanState, deps: Graph, routed: seq<DataFlow>,
                              flows: seq<DataFlow>,
                              intended: Graph, order: seq<StageId>)
    requires Rewired(dev, orig, st, deps, routed, flows, intended) && IsTopological(deps, st.order, order)
    requires OverStages(orig.deps, orig.order)
    ensures forall a, b :: Edge(orig.deps, a, b) ==> a in order && b in order && IndexOf(order, a) < IndexOf(order, b)
  {
    hide AllExpanded, OwnersMatch, RespectsEdges, Distinct, Reaches, StagesKnown;
    assert forall s :: s in order <==> s in Elems(order);
    forall a, b | Edge(orig.deps, a, b) ensures a in order && b in order && IndexOf(order, a) < IndexOf(order, b) {
      EdgeReaches(intended, a, b);
      StagesOfReach(deps, st.order, a, b);
      ReachMeansEarlier(deps, st.order, order, a, b);
    }
  }

  lemma StagesOfReach(deps: Graph, stages: seq<StageId>, a: StageId, b: StageId)
    requires OverStages(deps, stages) && Reaches(deps, a, b)
    ensures a in Elems(stages) && b in Elems(stages)
  {
    var x := FirstEdge(deps, a, b);
    var y := LastEdge(deps, a, b);
  }

  lemma PreparedEnds(dev: Device, orig: Original, flows: seq<DataFlow>, pinned: set<StageId>,
                     sides: map<StageId, StageSide>, routed: seq<DataFlow>)
    requires WellFormed(dev, orig, flows) && Prepared(dev, orig, flows, pinned, sides, routed)
    ensures Distinct(orig.order) && orig.info.Keys == Elems(orig.order) && OverStages(orig.deps, orig.order)
    ensures forall s :: s in orig.order ==> HasHome(dev, orig.info, s)
    ensures forall f :: f in routed ==> f.producer in orig.order && f.consumer in orig.order
                                        && f.producer in orig.info && f.consumer in orig.info
                                        && Edge(orig.deps, f.producer, f.consumer) && HasMiddle(dev.nodes, f)
                                        && IsRouted(dev, sides, orig.info, f) && f.chain == []
  {
    hide HasHome, IsRouted, HasMiddle, AllRouted, Acyclic, Classifiable;
    RoutedEnds(dev, orig, flows, sides, routed);
    assert forall s :: s in orig.order <==> s in Elems(orig.order);
  }

  lemma UnitsAreDistinct(dev: Device, orig: Original, info: Infos, routed: seq<DataFlow>)
    requires forall s :: s in orig.order ==> HasHome(dev, orig.info, s)
    requires RecordsDemands(dev, orig.info, info, routed, orig.order) && UnitsAgree(dev, orig.info, routed, orig.order)
    ensures UnitsDistinct(info) && info.Keys == orig.info.Keys == Elems(orig.order)
  {
    AgreementIsDistinctness(dev, orig.info, info, routed, orig.order);
  }

  lemma RewiredFacts(dev: Device, orig: Original, orig1: Original, st: PlanState, deps: Graph, routed: seq<DataFlow>,
                     flows: seq<DataFlow>, intended: Graph)
    requires orig1 == orig.(info := orig1.info) && Rewired(dev, orig1, st, deps, routed, flows, intended)
    ensures OverStages(deps, st.order) && IsIntended(orig, flows, intended)
    ensures Restrict(st.order, orig1.info.Keys) == orig.order
    ensures Acyclic(deps) <==> Acyclic(intended)
    ensures forall a, b :: Reaches(deps, a, b) <==> Reaches(intended, a, b)
  {
    hide AllExpanded, OwnersMatch, StagesKnown;
    SameReachSameCycles(deps, intended);
  }

  lemma SoundForOriginal(dev: Device, orig: Original, orig1: Original, deps: Graph, order: seq<StageId>, info: Infos,
                         routed: seq<DataFlow>, flows: seq<DataFlow>)
    requires orig1 == orig.(info := orig1.info) && IsSound(dev, orig1, orig1.info, deps, order, info, routed, flows)
    ensures IsSound(dev, orig, orig1.info, deps, order, info, routed, flows)
  {
    hide HopsAreLegal, NoMemoryDatapaths, OverStages, RespectsEdges, InRouteOrder, UnitsDistinct, TakesOnItsHops;
  }

  /** The stages of one pipeline, as the planner changes them. */
  /** Step 1 and the new order: what planning does once the flows are known to need stages. */
  method ExpandAndOrder(nodes: Nodes, ghost dev: Device, ghost orig: Original, ghost orig1: Original,
                        ghost sides: map<StageId, StageSide>, st0: PlanState, routed: seq<DataFlow>)
    returns (outcome: Outcome, st: PlanState, flows: seq<DataFlow>, deps: Graph, order: seq<StageId>,
             ghost intended: Graph, ghost added: map<StageId, seq<StageId>>)
    requires nodes == dev.nodes && orig1 == orig.(info := orig1.info) && OverStages(orig.deps, orig.order)
    requires Consistent(orig1, st0, {})
    requires forall f :: f in routed ==> HasMiddle(nodes, f) && f.producer in orig1.info && f.consumer in orig1.info
                                         && IsRouted(dev, sides, orig.info, f)
                                         && Edge(orig.deps, f.producer, f.consumer)
    ensures outcome in {HopConflict, OrderConflict, Expanded}
    ensures outcome.HopConflict? <==> !Expandable(nodes, orig1.info, routed)
    ensures !outcome.HopConflict? ==>
              IsIntended(orig, flows, intended) && (outcome.Expanded? <==> Acyclic(intended))
    ensures outcome.Expanded? ==> IsSound(dev, orig, orig1.info, deps, order, st.info, routed, flows)
                                  && (forall a, b :: Reaches(deps, a, b) <==> Reaches(intended, a, b))
                                  && FirstReadyInTurn(deps, st.order, order)
                                  && Restrict(st.order, orig1.info.Keys) == orig.order
                                  && StandsBehind(orig.order, added, st.order, flows)
                                  && DirectsAreGone(orig.deps, deps, flows)
  {
    hide *;
    order := [];
    var ok;
    ok, st, flows, deps, intended, added := ExpandAndRewire(nodes, dev, orig1, st0, routed);
    if !ok {
      return HopConflict, st, flows, deps, order, intended, added;
    }
    RewiredFacts(dev, orig, orig1, st, deps, routed, flows, intended);
    var ordered := OrderByDependencies(deps, st.order);
    if ordered.None? {
      return OrderConflict, st, flows, deps, order, intended, added;
    }
    order := ordered.value;
    PlanIsSound(dev, orig1, sides, orig.info, st, deps, routed, flows, intended, order);
    SoundForOriginal(dev, orig, orig1, deps, order, st.info, routed, flows);
    outcome := Expanded;
  }

  // ----- Ends and middles

  /** The hops of the flow cover its middle, one after the other, and nothing but that. */
  predicate CoversMiddle(f: DataFlow) {
    f.chain != [] ==>
      && |f.boundaries| == |f.chain| + 1
      && f.boundaries[0] == f.MiddleBegin() && f.boundaries[|f.chain|] == f.MiddleEnd()
      && forall k :: 0 <= k < |f.chain| ==> f.boundaries[k] < f.boundaries[k + 1]
  }

  /** The two stages of every flow own the units that their sides and the path give them and run on
      these; the hops have what is left in the middle. */
  ghost predicate EndsAreRight(dev: Device, sides: map<StageId, StageSide>, info: Infos, flows: seq<DataFlow>) {
    forall f :: f in flows ==> EndsOwnTheirs(dev.nodes, sides, f) && RunsOnItsUnits(info, f) && CoversMiddle(f)
  }

  lemma RoutedEndsAreRight(dev: Device, sides: map<StageId, StageSide>, info0: Infos, info: Infos,
                           routed: seq<DataFlow>, stages: seq<StageId>)
    requires forall s :: s in stages ==> HasHome(dev, info0, s)
    requires RecordsDemands(dev, info0, info, routed, stages)
    requires forall f :: f in routed ==> IsRouted(dev, sides, info0, f) && f.producer in stages && f.consumer in stages
                                         && f.chain == []
    ensures EndsAreRight(dev, sides, info, routed)
  {
    hide IsRouted, RecordsDemands, HasHome, EndsOwnTheirs, RunsOnItsUnits;
    forall f | f in routed ensures EndsOwnTheirs(dev.nodes, sides, f) && RunsOnItsUnits(info, f) && CoversMiddle(f) {
      RoutedEndsOwnTheirs(dev, sides, info0, f);
      RecordedFlowRuns(dev, info0, info, routed, stages, f);
    }
  }

  /** Expansion leaves the ends of flows as they are. */
  lemma ExpandedEndsAreRight(dev: Device, sides: map<StageId, StageSide>, orig: Original, info1: Infos, deps: Graph,
                             order: seq<StageId>, info: Infos, routed: seq<DataFlow>, flows: seq<DataFlow>)
    requires EndsAreRight(dev, sides, info1, routed)
    requires IsSound(dev, orig, info1, deps, order, info, routed, flows)
    ensures EndsAreRight(dev, sides, info, flows)
  {
    SoundFlows(dev, orig, info1, deps, order, info, routed, flows);
    hide IsSound, TakesOnItsHops, EndsOwnTheirs;
    forall f | f in flows ensures EndsOwnTheirs(dev.nodes, sides, f) && RunsOnItsUnits(info, f) && CoversMiddle(f) {
      var i :| 0 <= i < |flows| && flows[i] == f;
      assert routed[i] in routed;
      SameEndsOwnTheirs(dev.nodes, sides, routed[i], f);
      TakenOnCovers(dev.nodes, info, f);
    }
  }

  lemma SoundFlows(dev: Device, orig: Original, info1: Infos, deps: Graph, order: seq<StageId>, info: Infos,
                   routed: seq<DataFlow>, flows: seq<DataFlow>)
    requires IsSound(dev, orig, info1, deps, order, info, routed, flows)
    ensures |flows| == |routed| && forall s :: s in info1 ==> s in info && info[s] == info1[s]
    ensures forall i :: 0 <= i < |flows| ==>
              flows[i] == routed[i].(chain := flows[i].chain, boundaries := flows[i].boundaries)
              && TakesOnItsHops(dev.nodes, info, flows[i])
  {
  }

  lemma SameEndsOwnTheirs(nodes: Nodes, sides: map<StageId, StageSide>, f0: DataFlow, f: DataFlow)
    requires EndsOwnTheirs(nodes, sides, f0) && f == f0.(chain := f.chain, boundaries := f.boundaries)
    ensures EndsOwnTheirs(nodes, sides, f)
  {
  }

  lemma TakenOnCovers(nodes: Nodes, info: Infos, f: DataFlow)
    requires TakesOnItsHops(nodes, info, f)
    ensures CoversMiddle(f)
  {
    if f.chain != [] {
      var hops, b, e := FlowHops(nodes, f).value, f.MiddleBegin(), f.MiddleEnd();
      PartitionIsContiguous(nodes, f.path, hops, b, e, 0);
      forall k | 0 <= k < |hops| ensures f.boundaries[k] < f.boundaries[k + 1] {
        PartitionIsContiguous(nodes, f.path, hops, b, e, k);
      }
    }
  }

  class PathPlanner {
    var deps: Graph
    var order: seq<StageId>
    var info: Infos
    var flows: seq<DataFlow>
    var nextStage: StageId

    constructor (deps: Graph, order: seq<StageId>, info: Infos, flows: seq<DataFlow>, nextStage: StageId)
      ensures this.deps == deps && this.order == order && this.info == info && this.flows == flows
      ensures this.nextStage == nextStage
    {
      this.deps, this.order, this.info, this.flows, this.nextStage := deps, order, info, flows, nextStage;
    }

    ghost function AsGiven(): Original
      reads this
    {
      Original(info, deps, order)
    }

    /** Plans the expansion of the pipeline. Each outcome is tied to its condition, so that
        planning succeeds exactly when none of the failures applies. */
    method Plan(arch: RoutingGraph.RoutingGraph, ghost dev: Device, pinnedToCompute: set<StageId>)
      returns (outcome: Outcome, ghost sides: map<StageId, StageSide>, ghost routed: seq<DataFlow>, ghost info1: Infos,
               ghost intended: Graph, ghost placed: seq<StageId>, ghost added: map<StageId, seq<StageId>>)
      requires arch.Valid() && dev == Device(arch.Links(), arch.nodes, arch.resourceIndex)
      requires WellFormed(dev, AsGiven(), flows) && pinnedToCompute <= Elems(order)
      requires forall s :: s in order ==> s < nextStage
      modifies this
      ensures outcome.Cyclic? <==> !Acyclic(old(deps))
      ensures outcome.Unclassifiable? <==> Acyclic(old(deps)) && !Classifiable(old(deps), old(order), pinnedToCompute)
      ensures outcome.Unroutable? <==> Acyclic(old(deps)) && Classifiable(old(deps), old(order), pinnedToCompute)
                                       && !AllRoutable(dev, old(info), old(flows))
      ensures !outcome.Cyclic? && !outcome.Unclassifiable? && !outcome.Unroutable? ==>
                && Prepared(dev, old(AsGiven()), old(flows), pinnedToCompute, sides, routed)
                && (forall f :: f in routed ==> HasMiddle(dev.nodes, f))
                && (outcome.UnitConflict? <==> !UnitsAgree(dev, old(info), routed, old(order)))
                && (!outcome.UnitConflict? ==> RecordsDemands(dev, old(info), info1, routed, old(order)))
                && (outcome.AlreadyLegal? <==>
                      !outcome.UnitConflict? && forall f :: f in routed ==> !MiddleNeedsStages(dev.nodes, f))
                && (outcome.HopConflict? <==>
                      !outcome.UnitConflict? && !outcome.AlreadyLegal? && !Expandable(dev.nodes, info1, routed))
      ensures outcome.AlreadyLegal? ==> deps == old(deps) && order == old(order) && info == info1 && flows == routed
      ensures outcome.OrderConflict? ==> IsIntended(old(AsGiven()), flows, intended) && !Acyclic(intended)
      ensures outcome.Expanded? ==> IsIntended(old(AsGiven()), flows, intended) && Acyclic(intended)
      ensures outcome.Expanded? ==> IsSound(dev, old(AsGiven()), info1, deps, order, info, routed, flows)
      ensures outcome.Expanded? ==> forall a, b :: Reaches(deps, a, b) <==> Reaches(intended, a, b)
      ensures outcome.Expanded? ==> FirstReadyInTurn(deps, placed, order)
                                    && Restrict(placed, old(info).Keys) == old(order)
                                    && StandsBehind(old(order), added, placed, flows)
                                    && DirectsAreGone(old(deps), deps, flows)
      ensures outcome.AlreadyLegal? || outcome.HopConflict? || outcome.OrderConflict? || outcome.Expanded? ==>
                StagesRunOnTheirs(dev, old(info), info1, routed, old(order))
      ensures outcome.AlreadyLegal? || outcome.Expanded? ==> EndsAreRight(dev, sides, info, flows)
    {
      hide RoutingGraph.RoutingGraph.Valid, RoutingGraph.RoutingGraph.Links, Prepared, AllRoutable, Acyclic,
          Classifiable, UnitsAgree, IsRouted, HasMiddle, IsSound, Expandable, Reaches, OverStages, HasHome,
          RecordsDemands, IsIntended, Consistent, FirstReadyInTurn, Restrict, MiddleNeedsStages, UnitsDistinct,
          OwnersMatch, Elems, WellFormed, StandsBehind, DirectsAreGone, StagesRunOnTheirs, EndsAreRight;
      ghost var orig := AsGiven();
      info1, intended, placed, added := info, deps, order, map[];
      var prepared, sides', routed' := Prepare(arch, dev, orig, deps, order, info, flows, pinnedToCompute);
      outcome, sides, routed := prepared, sides', routed';
      if !prepared.AlreadyLegal? {
        return;
      }
      PreparedEnds(dev, orig, flows, pinnedToCompute, sides, routed');
      var d := Device(arch.Links(), arch.nodes, arch.resourceIndex);
      var units := AssignOriginalStageUnits(d, info, routed', order);
      if units.None? {
        outcome := UnitConflict;
        return;
      }
      UnitsAreDistinct(dev, orig, units.value, routed');
      RecordedStagesRun(dev, info, units.value, routed', order);
      RoutedEndsAreRight(dev, sides, info, units.value, routed', order);
      info1, info, flows := units.value, units.value, routed';
      var needed := NeedsExpansion(d.nodes, flows);
      if !needed {
        return;
      }
      var unitOwner := OwnersOf(info, order);
      var st0 := PlanState(info, unitOwner, deps, order, nextStage);
      ghost var orig1 := orig.(info := info);
      StartIsConsistent(orig1, st0);
      ghost var intended', added';
      var end, st, flows', deps', order';
      end, st, flows', deps', order', intended', added' :=
        ExpandAndOrder(d.nodes, dev, orig, orig1, sides, st0, routed');
      outcome := end;
      if end.HopConflict? {
        return;
      }
      flows, deps, info, order, nextStage, intended := flows', deps', st.info, st.order, st.nextStage, intended';
      if end.Expanded? {
        placed, order, added := st.order, order', added';
        ExpandedEndsAreRight(dev, sides, orig, info1, deps, order, info, routed, flows);
      }
    }
  }
}
