/** Routing the flows of a pipeline over the device, and giving every original stage its unit. */
module FlowRouting {
  import opened Wrappers
  import opened Digraph
  import opened StageOrder
  import opened StageSides
  import opened HopCutting
  import opened Rewiring

  type NodeId = RoutingGraph.NodeId
  type Resource = RoutingGraph.Resource

  /** What the plan records for a stage: the memory it works on, or the unit it is pinned
      to, and the unit it runs on. */
  datatype StageInfo = StageInfo(stageResource: Option<Resource>, unit: Option<Resource>)

  type Infos = map<StageId, StageInfo>

  /** What the planner reads of the routing graph. */
  datatype Device = Device(links: Graph, nodes: Nodes, index: map<Resource, seq<NodeId>>)

  /** The stage's resource is carried by exactly one node. */
  predicate HasHome(dev: Device, info: Infos, s: StageId) {
    && s in info && info[s].stageResource.Some?
    && info[s].stageResource.value in dev.index && |dev.index[info[s].stageResource.value]| == 1
    && dev.index[info[s].stageResource.value][0] in dev.nodes
  }

  function Home(dev: Device, info: Infos, s: StageId): NodeId
    requires HasHome(dev, info, s)
  {
    dev.index[info[s].stageResource.value][0]
  }

  /** The load unit right behind a load-side producer's memory belongs to the producer,
      unless the path ends there. */
  function ProducerEnd(nodes: Nodes, path: seq<NodeId>, side: StageSide): (r: nat)
    requires KnownPath(nodes, path) && |path| > 0
    ensures r == 1 <==> side.Load? && |path| > 2 && PathNode(nodes, path, 0).kind.Memory?
                        && PathNode(nodes, path, 1).kind.LoadStoreUnit?
    ensures r <= 1 && (|path| > 1 ==> r < |path| - 1)
  {
    if side.Load? && |path| - 1 > 1 && PathNode(nodes, path, 0).kind.Memory?
       && PathNode(nodes, path, 1).kind.LoadStoreUnit? then 1 else 0
  }

  /** The store unit right before a store-side consumer's memory belongs to the consumer,
      unless the producer already has it. */
  function ConsumerBegin(nodes: Nodes, path: seq<NodeId>, side: StageSide, producerEnd: nat): (r: nat)
    requires KnownPath(nodes, path) && |path| > 0
    ensures r == |path| - 1 || (r == |path| - 2 && r > producerEnd)
  {
    var last := |path| - 1;
    if side.Store? && last > producerEnd + 1 && PathNode(nodes, path, last).kind.Memory?
       && PathNode(nodes, path, last - 1).kind.LoadStoreUnit? then last - 1 else last
  }

  /** The flow has a shortest route between its stages' resources, and its two ends own
      what ProducerEnd and ConsumerBegin give them. */
  ghost predicate IsRouted(dev: Device, sides: map<StageId, StageSide>,
                           info: Infos, f: DataFlow)
  {
    && HasHome(dev, info, f.producer) && HasHome(dev, info, f.consumer)
    && f.producer in sides && f.consumer in sides
    && RoutingGraph.IsShortest(dev.links, f.path, Home(dev, info, f.producer), Home(dev, info, f.consumer))
    && KnownPath(dev.nodes, f.path)
    && f.producerEnd == ProducerEnd(dev.nodes, f.path, sides[f.producer])
    && f.consumerBegin == ConsumerBegin(dev.nodes, f.path, sides[f.consumer], f.producerEnd)
    && f.producerUnit == (if f.producerEnd == 1 then Some(PathNode(dev.nodes, f.path, 1).resource) else None)
    && f.consumerUnit == (if f.consumerBegin < |f.path| - 1
                          then Some(PathNode(dev.nodes, f.path, f.consumerBegin).resource) else None)
  }

  ghost predicate SameEnds(f: DataFlow, f': DataFlow) {
    f.producer == f'.producer && f.consumer == f'.consumer && f'.chain == [] && f'.boundaries == []
  }

  /** The producer has the load unit behind its memory: it is on the load side, and the path goes on
      from that unit. */
  predicate HasLoadUnit(nodes: Nodes, side: StageSide, path: seq<NodeId>)
    requires KnownPath(nodes, path)
  {
    && side.Load? && |path| > 2 && PathNode(nodes, path, 0).kind.Memory?
    && PathNode(nodes, path, 1).kind.LoadStoreUnit?
  }

  /** The consumer has the store unit before its memory: it is on the store side, and the unit is
      none of the producer's nodes, which are the first one and, if it has it, its load unit. */
  predicate HasStoreUnit(nodes: Nodes, from: StageSide, to: StageSide, path: seq<NodeId>)
    requires KnownPath(nodes, path)
  {
    && to.Store? && |path| > 2 && PathNode(nodes, path, |path| - 1).kind.Memory?
    && PathNode(nodes, path, |path| - 2).kind.LoadStoreUnit?
    && (|path| == 3 ==> !HasLoadUnit(nodes, from, path))
  }

  /** Which units the two stages of a flow get from its path, and what that leaves in the middle. */
  ghost predicate EndsOwnTheirs(nodes: Nodes, sides: map<StageId, StageSide>, f: DataFlow) {
    && KnownPath(nodes, f.path) && |f.path| > 0 && f.producer in sides && f.consumer in sides
    && var n, from, to := |f.path|, sides[f.producer], sides[f.consumer];
    && (forall u :: f.producerUnit == Some(u) <==>
          HasLoadUnit(nodes, from, f.path) && PathNode(nodes, f.path, 1).resource == u)
    && (forall u :: f.consumerUnit == Some(u) <==>
          HasStoreUnit(nodes, from, to, f.path) && PathNode(nodes, f.path, n - 2).resource == u)
    && f.MiddleBegin() == (if HasLoadUnit(nodes, from, f.path) then 2 else 1)
    && f.MiddleEnd() == if HasStoreUnit(nodes, from, to, f.path) then n - 2 else n - 1
  }

  lemma RoutedEndsOwnTheirs(dev: Device, sides: map<StageId, StageSide>, info: Infos, f: DataFlow)
    requires IsRouted(dev, sides, info, f)
    ensures EndsOwnTheirs(dev.nodes, sides, f)
  {
    hide HasHome, Home;
    assert |f.path| > 0;
    hide RoutingGraph.IsShortest;
  }

  /** There is a path from the producer's resource to the consumer's. */
  ghost predicate Routable(dev: Device, info: Infos, f: DataFlow) {
    && HasHome(dev, info, f.producer) && HasHome(dev, info, f.consumer)
    && var a, b := Home(dev, info, f.producer), Home(dev, info, f.consumer);
       a == b || Reaches(dev.links, a, b)
  }

  lemma PathsAreKnown(arch: RoutingGraph.RoutingGraph, path: seq<NodeId>, a: NodeId, b: NodeId)
    requires arch.Valid() && a in arch.nodes && RoutingGraph.PathBetween(arch.Links(), path, a, b)
    ensures KnownPath(arch.nodes, path)
  {
    arch.LinksStayInside();
    forall i | 0 <= i < |path| ensures path[i] in arch.nodes {
      if i > 0 {
        assert Edge(arch.Links(), path[i - 1], path[i - 1 + 1]);
      }
    }
  }

  /** The flow has not been expanded, and both of its stages are known. */
  predicate ReadyToRoute(dev: Device, sides: map<StageId, StageSide>, info: Infos, f: DataFlow) {
    && f.producer in sides && f.consumer in sides && f.chain == [] && f.boundaries == []
    && HasHome(dev, info, f.producer) && HasHome(dev, info, f.consumer)
  }

  method RouteDataFlow(arch: RoutingGraph.RoutingGraph, ghost dev: Device, flow: DataFlow, sides: map<StageId,
                       StageSide>,
                       info: Infos)
    returns (r: Option<DataFlow>)
    requires arch.Valid() && dev == Device(arch.Links(), arch.nodes, arch.resourceIndex)
    requires ReadyToRoute(dev, sides, info, flow)
    ensures r.Some? <==> Routable(dev, info, flow)
    ensures r.Some? ==> SameEnds(flow, r.value) && IsRouted(dev, sides, info, r.value)
                        && EndsOwnTheirs(dev.nodes, sides, r.value)
  {
    var d := Device(arch.Links(), arch.nodes, arch.resourceIndex);
    var from, to := Home(d, info, flow.producer), Home(d, info, flow.consumer);
    var found := arch.FindShortestPath(from, to);
    if found.None? {
      return None;
    }
    var path := found.value;
    PathsAreKnown(arch, path, from, to);
    var last := |path| - 1;
    var producerEnd := ProducerEnd(d.nodes, path, sides[flow.producer]);
    var consumerBegin := ConsumerBegin(d.nodes, path, sides[flow.consumer], producerEnd);
    r := Some(flow.(
      path := path, producerEnd := producerEnd, consumerBegin := consumerBegin,
      producerUnit := if producerEnd == 1 then Some(PathNode(d.nodes, path, 1).resource) else None,
      consumerUnit := if consumerBegin < last then Some(PathNode(d.nodes, path, consumerBegin).resource) else None));
    RoutedEndsOwnTheirs(dev, sides, info, r.value);
  }

  ghost predicate RoutedFrom(dev: Device, sides: map<StageId, StageSide>, info: Infos, f: DataFlow, f': DataFlow) {
    SameEnds(f, f') && IsRouted(dev, sides, info, f')
  }

  ghost predicate AllRouted(dev: Device, sides: map<StageId, StageSide>, info: Infos, flows: seq<DataFlow>,
                            routed: seq<DataFlow>)
  {
    |routed| == |flows| && forall k :: 0 <= k < |flows| ==> RoutedFrom(dev, sides, info, flows[k], routed[k])
  }

  lemma OneMoreRouted(dev: Device, sides: map<StageId, StageSide>, info: Infos, flows: seq<DataFlow>,
                      routed: seq<DataFlow>,
                      f: DataFlow, f': DataFlow)
    requires AllRouted(dev, sides, info, flows, routed) && RoutedFrom(dev, sides, info, f, f')
    ensures AllRouted(dev, sides, info, flows + [f], routed + [f'])
  {
    var fs, rs := flows + [f], routed + [f'];
    forall k | 0 <= k < |fs| ensures RoutedFrom(dev, sides, info, fs[k], rs[k]) {
      if k < |flows| {
        assert fs[k] == flows[k] && rs[k] == routed[k];
      }
    }
  }

  /** Finds the path of every flow and works out what of it belongs to its two stages. */
  method RouteDataFlows(arch: RoutingGraph.RoutingGraph, ghost dev: Device, flows: seq<DataFlow>,
                        sides: map<StageId, StageSide>, info: Infos)
    returns (r: Option<seq<DataFlow>>)
    requires arch.Valid() && dev == Device(arch.Links(), arch.nodes, arch.resourceIndex)
    requires forall i :: 0 <= i < |flows| ==> ReadyToRoute(dev, sides, info, flows[i])
    ensures r.Some? <==> forall i :: 0 <= i < |flows| ==> Routable(dev, info, flows[i])
    ensures r.Some? ==> AllRouted(dev, sides, info, flows, r.value)
  {
    hide RoutingGraph.RoutingGraph.Valid, IsRouted, Routable;
    var routed: seq<DataFlow> := [];
    for i := 0 to |flows|
      invariant forall k :: 0 <= k < i ==> Routable(dev, info, flows[k])
      invariant AllRouted(dev, sides, info, flows[..i], routed)
    {
      var flow := RouteDataFlow(arch, dev, flows[i], sides, info);
      if flow.None? {
        return None;
      }
      OneMoreRouted(dev, sides, info, flows[..i], routed, flows[i], flow.value);
      assert flows[..i + 1] == flows[..i] + [flows[i]];
      routed := routed + [flow.value];
    }
    assert flows[..|flows|] == flows;
    r := Some(routed);
  }

  predicate HasMiddle(nodes: Nodes, f: DataFlow) {
    KnownPath(nodes, f.path) && f.MiddleEnd() <= |f.path|
  }

  /** Some node in the middle of the path is a memory or compute unit that neither end owns. */
  predicate MiddleNeedsStages(nodes: Nodes, f: DataFlow)
    requires HasMiddle(nodes, f)
  {
    exists i :: f.MiddleBegin() <= i < f.MiddleEnd() && !PathNode(nodes, f.path, i).kind.LoadStoreUnit?
  }

  /** For a routed flow: between its ends the path has a memory or a compute unit. */
  lemma MiddleNeedsStagesIff(dev: Device, sides: map<StageId, StageSide>, info: Infos, f: DataFlow)
    requires IsRouted(dev, sides, info, f)
    ensures HasMiddle(dev.nodes, f)
    ensures MiddleNeedsStages(dev.nodes, f) <==>
            exists i :: 0 < i < |f.path| - 1 && (PathNode(dev.nodes, f.path, i).kind.Memory?
                                                 || PathNode(dev.nodes, f.path, i).kind.Compute?)
  {
    RoutedEndsOwnTheirs(dev, sides, info, f);
    hide IsRouted;
    var n := |f.path|;
    forall i | 0 < i < n - 1 && !(f.MiddleBegin() <= i < f.MiddleEnd())
      ensures PathNode(dev.nodes, f.path, i).kind.LoadStoreUnit?
    {
      assert i == 1 || i == n - 2;
    }
  }

  method NeedsExpansion(nodes: Nodes, flows: seq<DataFlow>) returns (needed: bool)
    requires forall f :: f in flows ==> HasMiddle(nodes, f)
    ensures needed <==> exists f :: f in flows && MiddleNeedsStages(nodes, f)
  {
    for n := 0 to |flows|
      invariant forall k :: 0 <= k < n ==> !MiddleNeedsStages(nodes, flows[k])
    {
      var flow := flows[n];
      assert flow in flows;
      var i := flow.MiddleBegin();
      while i < flow.MiddleEnd()
        invariant flow.MiddleBegin() <= i
        invariant forall k :: flow.MiddleBegin() <= k < i && k < flow.MiddleEnd() ==>
                    PathNode(nodes, flow.path, k).kind.LoadStoreUnit?
      {
        if !PathNode(nodes, flow.path, i).kind.LoadStoreUnit? {
          return true;
        }
        i := i + 1;
      }
    }
    return false;
  }

  // ----- Units of the original stages

  /** The unit a stage has before flows are looked at: the resource itself if that is a
      unit, else the unit its transfers name, if any. */
  function OwnUnit(dev: Device, info: Infos, s: StageId): Option<Resource>
    requires HasHome(dev, info, s)
  {
    if dev.nodes[Home(dev, info, s)].kind.Memory? then info[s].unit else info[s].stageResource
  }

  /** The flow's path runs stage s on unit u. */
  predicate FlowPuts(f: DataFlow, s: StageId, u: Resource) {
    (f.producer == s && f.producerUnit == Some(u)) || (f.consumer == s && f.consumerUnit == Some(u))
  }

  predicate SomeFlowPuts(flows: seq<DataFlow>, s: StageId, u: Resource) {
    exists f :: f in flows && FlowPuts(f, s, u)
  }

  /** Something puts stage s on unit u: its own resource, its transfers, or a flow. */
  predicate Demands(dev: Device, info: Infos, flows: seq<DataFlow>, s: StageId, u: Resource)
    requires HasHome(dev, info, s)
  {
    OwnUnit(dev, info, s) == Some(u) || SomeFlowPuts(flows, s, u)
  }

  /** Every stage is put on one unit at most, and no two on the same. */
  ghost predicate UnitsAgree(dev: Device, info: Infos, flows: seq<DataFlow>, stages: seq<StageId>)
    requires forall s :: s in stages ==> HasHome(dev, info, s)
  {
    forall s, t, u, v :: s in stages && t in stages && Demands(dev, info, flows, s, u)
                         && Demands(dev, info, flows, t, v) ==>
      (s == t <==> u == v)
  }

  /** A stage whose resource is a compute or load/store unit runs on it. */
  method OwnUnits(dev: Device, info0: Infos, stages: seq<StageId>) returns (info: Infos)
    requires Distinct(stages) && info0.Keys == Elems(stages)
    requires forall s :: s in stages ==> HasHome(dev, info0, s)
    ensures info.Keys == info0.Keys
    ensures forall s :: s in stages ==> info[s] == info0[s].(unit := OwnUnit(dev, info0, s))
  {
    info := info0;
    for i := 0 to |stages|
      invariant info.Keys == info0.Keys
      invariant forall k :: 0 <= k < |stages| ==>
                  info[stages[k]] == if k < i then info0[stages[k]].(unit := OwnUnit(dev, info0, stages[k]))
                                     else info0[stages[k]]
    {
      var stage := stages[i];
      if !dev.nodes[Home(dev, info0, stage)].kind.Memory? {
        info := info[stage := info[stage].(unit := info[stage].stageResource)];
      }
    }
  }

  /** Puts a stage on a unit, if one is given; fails if it already runs on another. */
  function SetUnit(info: Infos, stage: StageId, unit: Option<Resource>): Option<Infos>
    requires stage in info
  {
    if unit.None? then Some(info)
    else if info[stage].unit.Some? && info[stage].unit != unit then None
    else Some(info[stage := info[stage].(unit := unit)])
  }

  predicate UnitsDistinct(info: Infos) {
    forall s, t :: s in info && t in info && info[s].unit.Some? && info[s].unit == info[t].unit ==> s == t
  }

  method CheckUnitsDistinct(info: Infos, stages: seq<StageId>) returns (ok: bool)
    requires Distinct(stages) && info.Keys == Elems(stages)
    ensures ok <==> UnitsDistinct(info)
  {
    var unitOwner: map<Resource, StageId> := map[];
    for i := 0 to |stages|
      invariant forall k :: 0 <= k < i && info[stages[k]].unit.Some? ==>
                  info[stages[k]].unit.value in unitOwner && unitOwner[info[stages[k]].unit.value] == stages[k]
      invariant forall u :: u in unitOwner ==> unitOwner[u] in stages[..i] && info[unitOwner[u]].unit == Some(u)
    {
      var unit := info[stages[i]].unit;
      assert stages[..i + 1] == stages[..i] + [stages[i]];
      if unit.Some? {
        if unit.value in unitOwner {
          assert unitOwner[unit.value] != stages[i];
          return false;
        }
        unitOwner := unitOwner[unit.value := stages[i]];
      }
    }
    ok := true;
  }

  lemma MoreFlowsDemandMore(dev: Device, info: Infos, flows: seq<DataFlow>, n: nat, s: StageId, u: Resource)
    requires n <= |flows| && HasHome(dev, info, s) && Demands(dev, info, flows[..n], s, u)
    ensures Demands(dev, info, flows, s, u)
  {
    if SomeFlowPuts(flows[..n], s, u) {
      var f :| f in flows[..n] && FlowPuts(f, s, u);
      assert f in flows;
    }
  }

  /** The two stages of the flow run on the units that they get from its path. */
  predicate RunsOnItsUnits(info: Infos, f: DataFlow) {
    && f.producer in info && (f.producerUnit.Some? ==> info[f.producer].unit == f.producerUnit)
    && f.consumer in info && (f.consumerUnit.Some? ==> info[f.consumer].unit == f.consumerUnit)
  }

  lemma RecordedFlowRuns(dev: Device, info0: Infos, info: Infos, flows: seq<DataFlow>, stages: seq<StageId>,
                         f: DataFlow)
    requires forall s :: s in stages ==> HasHome(dev, info0, s)
    requires RecordsDemands(dev, info0, info, flows, stages)
    requires f in flows && f.producer in stages && f.consumer in stages
    ensures RunsOnItsUnits(info, f)
  {
    hide HasHome, OwnUnit;
    if f.producerUnit.Some? {
      assert FlowPuts(f, f.producer, f.producerUnit.value);
      assert Demands(dev, info0, flows, f.producer, f.producerUnit.value);
    }
    if f.consumerUnit.Some? {
      assert FlowPuts(f, f.consumer, f.consumerUnit.value);
      assert Demands(dev, info0, flows, f.consumer, f.consumerUnit.value);
    }
  }

  /** info is info0 with the units filled in that its stages and the flows demand. */
  ghost predicate RecordsDemands(dev: Device, info0: Infos, info: Infos, flows: seq<DataFlow>, stages: seq<StageId>)
    requires forall s :: s in stages ==> HasHome(dev, info0, s)
  {
    && info.Keys == info0.Keys == Elems(stages)
    && (forall s :: s in info0 ==> info[s].stageResource == info0[s].stageResource)
    && (forall s, u :: s in stages ==> (info[s].unit == Some(u) <==> Demands(dev, info0, flows, s, u)))
  }

  /** A stage that is pinned to a unit runs on it; one that works on a memory runs on the unit it had,
      if any, or on one that a flow gives it. */
  ghost predicate StagesRunOnTheirs(dev: Device, info0: Infos, info: Infos, flows: seq<DataFlow>,
                                    stages: seq<StageId>)
  {
    forall s :: s in stages ==>
      && HasHome(dev, info0, s) && s in info && info[s].stageResource == info0[s].stageResource
      && if !dev.nodes[Home(dev, info0, s)].kind.Memory? then info[s].unit == info0[s].stageResource
         else if info0[s].unit.Some? then info[s].unit == info0[s].unit
         else info[s].unit.Some? ==>
              exists f :: f in flows && ((f.producer == s && f.producerUnit == info[s].unit)
                                         || (f.consumer == s && f.consumerUnit == info[s].unit))
  }

  lemma RecordedStagesRun(dev: Device, info0: Infos, info: Infos, flows: seq<DataFlow>, stages: seq<StageId>)
    requires forall s :: s in stages ==> HasHome(dev, info0, s)
    requires RecordsDemands(dev, info0, info, flows, stages)
    ensures StagesRunOnTheirs(dev, info0, info, flows, stages)
  {
    forall s | s in stages
      ensures s in info && info[s].stageResource == info0[s].stageResource
      ensures if !dev.nodes[Home(dev, info0, s)].kind.Memory? then info[s].unit == info0[s].stageResource
              else if info0[s].unit.Some? then info[s].unit == info0[s].unit
              else info[s].unit.Some? ==>
                exists f :: f in flows && ((f.producer == s && f.producerUnit == info[s].unit)
                                           || (f.consumer == s && f.consumerUnit == info[s].unit))
    {
      assert s in info0 && info[s].stageResource == info0[s].stageResource;
      if OwnUnit(dev, info0, s).Some? {
        assert Demands(dev, info0, flows, s, OwnUnit(dev, info0, s).value);
      } else if info[s].unit.Some? {
        assert Demands(dev, info0, flows, s, info[s].unit.value);
      }
    }
  }

  /** One more flow: both of its units are recorded, or a stage is demanded twice. */
  method SetFlowUnits(dev: Device, ghost info0: Infos, info: Infos, ghost flows: seq<DataFlow>, flow: DataFlow,
                      ghost stages: seq<StageId>)
    returns (r: Option<Infos>)
    requires forall s :: s in stages ==> HasHome(dev, info0, s)
    requires RecordsDemands(dev, info0, info, flows, stages)
    requires flow.producer in stages && flow.consumer in stages
    ensures r.Some? ==> RecordsDemands(dev, info0, r.value, flows + [flow], stages)
    ensures r.None? ==> exists s, u, v :: s in stages && u != v
                          && Demands(dev, info0, flows + [flow], s, u) && Demands(dev, info0, flows + [flow], s, v)
  {
    ghost var more := flows + [flow];
    forall s, u ensures SomeFlowPuts(more, s, u) <==> SomeFlowPuts(flows, s, u) || FlowPuts(flow, s, u) {
      assert flow in more;
    }
    var withProducer := SetUnit(info, flow.producer, flow.producerUnit);
    if withProducer.None? {
      assert Demands(dev, info0, more, flow.producer, info[flow.producer].unit.value);
      assert Demands(dev, info0, more, flow.producer, flow.producerUnit.value);
      return None;
    }
    r := SetUnit(withProducer.value, flow.consumer, flow.consumerUnit);
    if r.None? {
      assert Demands(dev, info0, more, flow.consumer, withProducer.value[flow.consumer].unit.value);
      assert Demands(dev, info0, more, flow.consumer, flow.consumerUnit.value);
    } else {
      forall s, u | s in stages ensures r.value[s].unit == Some(u) <==> Demands(dev, info0, more, s, u) {
        if Demands(dev, info0, flows, s, u) {
          assert info[s].unit == Some(u);
        }
      }
    }
  }

  /** Fills in the units of all stages, failing exactly when two demands clash. */
  method AssignOriginalStageUnits(dev: Device, info0: Infos, flows: seq<DataFlow>, stages: seq<StageId>)
    returns (r: Option<Infos>)
    requires Distinct(stages) && info0.Keys == Elems(stages)
    requires forall s :: s in stages ==> HasHome(dev, info0, s)
    requires forall f :: f in flows ==> f.producer in stages && f.consumer in stages
    ensures r.Some? <==> UnitsAgree(dev, info0, flows, stages)
    ensures r.Some? ==> RecordsDemands(dev, info0, r.value, flows, stages)
  {
    var info := OwnUnits(dev, info0, stages);
    for i := 0 to |flows|
      invariant RecordsDemands(dev, info0, info, flows[..i], stages)
    {
      assert flows[..i + 1] == flows[..i] + [flows[i]] && flows[i] in flows;
      var more := SetFlowUnits(dev, info0, info, flows[..i], flows[i], stages);
      if more.None? {
        ghost var s, u, v :| s in stages && u != v && Demands(dev, info0, flows[..i + 1], s, u)
                             && Demands(dev, info0, flows[..i + 1], s, v);
        MoreFlowsDemandMore(dev, info0, flows, i + 1, s, u);
        MoreFlowsDemandMore(dev, info0, flows, i + 1, s, v);
        return None;
      }
      info := more.value;
    }
    assert flows[..|flows|] == flows;
    var distinct := CheckUnitsDistinct(info, stages);
    AgreementIsDistinctness(dev, info0, info, flows, stages);
    r := if distinct then Some(info) else None;
  }

  lemma AgreementIsDistinctness(dev: Device, info0: Infos, info: Infos, flows: seq<DataFlow>, stages: seq<StageId>)
    requires forall s :: s in stages ==> HasHome(dev, info0, s)
    requires RecordsDemands(dev, info0, info, flows, stages)
    ensures UnitsDistinct(info) <==> UnitsAgree(dev, info0, flows, stages)
  {
    assert forall s :: s in info <==> s in stages;
    if UnitsDistinct(info) {
      forall s, t, u, v | s in stages && t in stages && Demands(dev, info0, flows, s, u)
             && Demands(dev, info0, flows, t, v)
        ensures s == t <==> u == v
      {
        assert info[s].unit == Some(u) && info[t].unit == Some(v);
      }
    }
    if UnitsAgree(dev, info0, flows, stages) {
      forall s, t | s in info && t in info && info[s].unit.Some? && info[s].unit == info[t].unit ensures s == t {
        assert Demands(dev, info0, flows, s, info[s].unit.value) && Demands(dev, info0, flows, t, info[s].unit.value);
      }
    }
  }
}
