/** Data flows between stages, and making each flow that got hop stages pass through them. */
module Rewiring {
  import opened Wrappers
  import opened Digraph
  import opened RoutingGraph
  import opened StageOrder

  datatype DataFlow = DataFlow(
    producer: StageId,
    consumer: StageId,
    path: seq<NodeId>,
    producerEnd: nat,
    consumerBegin: nat,
    producerUnit: Option<Resource>,
    consumerUnit: Option<Resource>,
    chain: seq<StageId>,
    boundaries: seq<nat>)
  {
    function MiddleBegin(): nat { producerEnd + 1 }

    function MiddleEnd(): nat { consumerBegin }

    /** The stages the data passes through, ends included. */
    function Route(): seq<StageId> { [producer] + chain + [consumer] }
  }

  /** a hands the data over to b on the route of a flow that has hop stages. */
  predicate OnRoute(flow: DataFlow, a: StageId, b: StageId) {
    flow.chain != [] && Adjacent([flow.producer] + flow.chain + [flow.consumer], a, b)
  }

  predicate Adjacent(route: seq<StageId>, a: StageId, b: StageId) {
    exists k :: 0 <= k < |route| - 1 && route[k] == a && route[k + 1] == b
  }

  predicate OnSomeRoute(flows: seq<DataFlow>, a: StageId, b: StageId) {
    exists f :: f in flows && OnRoute(f, a, b)
  }

  /** How often a lists the dependency on it of b. */
  function Listed(deps: Graph, a: StageId, b: StageId): nat {
    if a in deps then multiset(deps[a])[b] else 0
  }

  function AddDependency(deps: Graph, a: StageId, b: StageId): (r: Graph)
    requires a in deps
    ensures r.Keys == deps.Keys
    ensures forall x, y :: Edge(r, x, y) <==> Edge(deps, x, y) || (x == a && y == b)
  {
    if b in deps[a] then deps else deps[a := deps[a] + [b]]
  }

  /** Nullifying a dependency and then dropping the null takes out its first entry only. */
  function RemoveFirst(s: seq<StageId>, x: StageId): (r: seq<StageId>)
    ensures multiset(r) == multiset(s) - multiset{x}
  {
    if s == [] then []
    else
      assert s == [s[0]] + s[1..];
      if s[0] == x then s[1..] else [s[0]] + RemoveFirst(s[1..], x)
  }

  function RemoveDependency(deps: Graph, a: StageId, b: StageId): (r: Graph)
    requires a in deps
    ensures r.Keys == deps.Keys
    ensures forall x, y :: (x != a || y != b) ==> (Edge(r, x, y) <==> Edge(deps, x, y))
    ensures Edge(r, a, b) <==> multiset(deps[a])[b] > 1
  {
    var left := RemoveFirst(deps[a], b);
    assert forall y :: y in left <==> multiset(left)[y] > 0;
    assert forall y :: y in deps[a] <==> multiset(deps[a])[y] > 0;
    deps[a := left]
  }

  /** The dependencies together with every hand-over on a route: the ordering that the
      expanded pipeline is meant to have. */
  function WithRoutes(deps: Graph, flows: seq<DataFlow>): (r: Graph)
    requires forall f :: f in flows ==> StagesKnown(deps, f)
    ensures r.Keys == deps.Keys
    ensures forall x, y :: Edge(r, x, y) <==> Edge(deps, x, y) || OnSomeRoute(flows, x, y)
  {
    if flows == [] then deps
    else
      var rest := WithRoutes(deps, flows[1..]);
      assert forall f :: f in flows <==> f == flows[0] || f in flows[1..];
      assert StagesKnown(deps, flows[0]);
      assert forall x, y :: OnSomeRoute(flows, x, y) <==> OnRoute(flows[0], x, y) || OnSomeRoute(flows[1..], x, y);
      if flows[0].chain == [] then rest else AddHandOvers(rest, flows[0].Route())
  }

  function AddHandOvers(deps: Graph, route: seq<StageId>): (r: Graph)
    requires forall s :: s in route ==> s in deps
    ensures r.Keys == deps.Keys
    ensures forall x, y :: Edge(r, x, y) <==> Edge(deps, x, y) || Adjacent(route, x, y)
  {
    if |route| < 2 then deps
    else
      var r := AddDependency(AddHandOvers(deps, route[1..]), route[0], route[1]);
      assert forall x, y :: Adjacent(route, x, y) <==>
                              (x == route[0] && y == route[1]) || Adjacent(route[1..], x, y) by {
        forall x, y ensures Adjacent(route, x, y) <==> (x == route[0] && y == route[1]) || Adjacent(route[1..], x, y) {
          AdjacentFromSecond(route, x, y);
        }
      }
      r
  }

  lemma AdjacentFromSecond(route: seq<StageId>, x: StageId, y: StageId)
    requires |route| >= 2
    ensures Adjacent(route, x, y) <==> (x == route[0] && y == route[1]) || Adjacent(route[1..], x, y)
  {
    if Adjacent(route, x, y) {
      var k :| 0 <= k < |route| - 1 && route[k] == x && route[k + 1] == y;
      if k > 0 {
        assert route[1..][k - 1] == x && route[1..][k - 1 + 1] == y;
      }
    }
    if Adjacent(route[1..], x, y) {
      var k :| 0 <= k < |route[1..]| - 1 && route[1..][k] == x && route[1..][k + 1] == y;
      assert route[k + 1] == x && route[k + 1 + 1] == y;
    }
    if x == route[0] && y == route[1] {
      assert route[0] == x && route[0 + 1] == y;
    }
  }

  predicate StagesKnown(deps: Graph, flow: DataFlow) {
    forall s :: s in flow.Route() ==> s in deps
  }

  predicate Between(flow: DataFlow, p: StageId, c: StageId) {
    flow.producer == p && flow.consumer == c
  }

  /** Some flow goes from p to c, and all that do have hop stages. */
  predicate AllHaveHops(flows: seq<DataFlow>, p: StageId, c: StageId) {
    && (exists f :: f in flows && Between(f, p, c))
    && forall f :: f in flows && Between(f, p, c) ==> f.chain != []
  }

  function FlowsBetween(flows: seq<DataFlow>, p: StageId, c: StageId): (r: seq<DataFlow>)
    ensures forall f :: f in r <==> f in flows && Between(f, p, c)
  {
    if flows == [] then []
    else
      assert forall f :: f in flows <==> f == flows[0] || f in flows[1..];
      (if Between(flows[0], p, c) then [flows[0]] else []) + FlowsBetween(flows[1..], p, c)
  }

  /** A route that is fully wired connects its ends. */
  lemma {:induction false} HandOversConnect(deps: Graph, route: seq<StageId>)
    requires |route| >= 2
    requires forall x, y :: Adjacent(route, x, y) ==> Edge(deps, x, y)
    ensures Reaches(deps, route[0], route[|route| - 1])
  {
    forall i | 0 <= i < |route| - 1 ensures Edge(deps, route[i], route[i + 1]) {
      assert Adjacent(route, route[i], route[i + 1]);
    }
    assert Connects(deps, route, route[0], route[|route| - 1]);
  }

  /** What is left of so many entries of a dependency, one of which may go. */
  function LeftOf(n: nat, one: bool): nat {
    if one && n > 0 then n - 1 else n
  }

  /** Off the route nothing is listed more or less often. */
  ghost predicate AlikeOff(deps0: Graph, deps: Graph, route: seq<StageId>) {
    forall x: StageId, y: StageId :: !Adjacent(route, x, y) ==> Listed(deps, x, y) == Listed(deps0, x, y)
  }

  ghost predicate AlikeOffRoutes(deps0: Graph, deps: Graph, flows: seq<DataFlow>) {
    forall x: StageId, y: StageId :: !OnSomeRoute(flows, x, y) ==> Listed(deps, x, y) == Listed(deps0, x, y)
  }

  /** Off the routes, the direct dependency of the pair has lost an entry if all its flows have hops,
      and every other one is listed as often as it was. */
  ghost predicate GivesUp(deps0: Graph, deps: Graph, p: StageId, c: StageId, group: seq<DataFlow>) {
    forall x: StageId, y: StageId :: !OnSomeRoute(group, x, y) ==>
      Listed(deps, x, y) == LeftOf(Listed(deps0, x, y), x == p && y == c && AllHaveHops(group, p, c))
  }

  lemma AlikeStep(deps0: Graph, deps: Graph, route: seq<StageId>, n: nat)
    requires 0 < n < |route| && route[n - 1] in deps && AlikeOff(deps0, deps, route[..n])
    ensures AlikeOff(deps0, AddDependency(deps, route[n - 1], route[n]), route[..n + 1])
  {
    var a, b := route[n - 1], route[n];
    var more := AddDependency(deps, a, b);
    forall x: StageId, y: StageId | !Adjacent(route[..n + 1], x, y) ensures Listed(more, x, y) == Listed(deps0, x, y) {
      AdjacentUpTo(route, n);
      assert Listed(more, x, y) == Listed(deps, x, y);
    }
  }

  lemma AlikeOnOne(deps0: Graph, deps: Graph, a: StageId)
    requires deps == deps0
    ensures AlikeOff(deps0, deps, [a])
  {
  }

  lemma OneMoreRoute(deps0: Graph, deps: Graph, deps': Graph, flows: seq<DataFlow>, f: DataFlow)
    requires AlikeOffRoutes(deps0, deps, flows)
    requires if f.chain == [] then deps' == deps else AlikeOff(deps, deps', f.Route())
    ensures AlikeOffRoutes(deps0, deps', flows + [f])
  {
    forall x: StageId, y: StageId | !OnSomeRoute(flows + [f], x, y) ensures Listed(deps', x, y) == Listed(deps0, x, y) {
      assert f in flows + [f] && !OnRoute(f, x, y);
      assert forall g :: g in flows ==> g in flows + [f];
    }
  }

  lemma NoRoutes(deps: Graph)
    ensures AlikeOffRoutes(deps, deps, [])
  {
  }

  lemma NoneGivesUp(deps: Graph, p: StageId, c: StageId, group: seq<DataFlow>)
    requires forall f :: f in group ==> f.chain == []
    ensures GivesUp(deps, deps, p, c, group)
  {
  }

  lemma RemovedListed(deps: Graph, a: StageId, b: StageId, x: StageId, y: StageId)
    requires a in deps
    ensures Listed(RemoveDependency(deps, a, b), x, y) == LeftOf(Listed(deps, x, y), x == a && y == b)
  {
  }

  lemma PairGivesUp(deps0: Graph, kept: Graph, deps: Graph, p: StageId, c: StageId, group: seq<DataFlow>)
    requires p in deps0 && AlikeOffRoutes(kept, deps, group)
    requires forall f :: f in group ==> Between(f, p, c)
    requires group != [] && kept == if forall f :: f in group ==> f.chain != [] then RemoveDependency(deps0, p, c)
                                    else deps0
    ensures GivesUp(deps0, deps, p, c, group)
  {
    assert group[0] in group;
    assert AllHaveHops(group, p, c) <==> forall f :: f in group ==> f.chain != [];
    forall x: StageId, y: StageId | !OnSomeRoute(group, x, y)
      ensures Listed(deps, x, y) == LeftOf(Listed(deps0, x, y), x == p && y == c && AllHaveHops(group, p, c))
    {
      RemovedListed(deps0, p, c, x, y);
    }
  }

  /** Rewires the flows of one pair of stages. */
  method RewirePair(deps0: Graph, p: StageId, c: StageId, group: seq<DataFlow>) returns (deps: Graph)
    requires p in deps0 && c in deps0
    requires forall f :: f in group ==> Between(f, p, c) && StagesKnown(deps0, f)
    ensures deps.Keys == deps0.Keys
    ensures forall x, y :: Edge(deps0, x, y) ==> Reaches(deps, x, y)
    ensures forall x, y :: OnSomeRoute(group, x, y) ==> Edge(deps, x, y)
    ensures forall x, y :: Edge(deps, x, y) ==> Edge(deps0, x, y) || OnSomeRoute(group, x, y)
    ensures forall x, y :: Edge(deps0, x, y) && !(x == p && y == c && AllHaveHops(group, p, c)) ==> Edge(deps, x, y)
    ensures AllHaveHops(group, p, c) && multiset(deps0[p])[c] <= 1 && !OnSomeRoute(group, p, c) ==> !Edge(deps, p, c)
    ensures GivesUp(deps0, deps, p, c, group)
  {
    hide GivesUp, AlikeOff, AlikeOffRoutes;
    deps := deps0;
    if forall f :: f in group ==> f.chain == [] {
      NoneGivesUp(deps0, p, c, group);
      forall x, y | Edge(deps0, x, y) ensures Reaches(deps, x, y) {
        EdgeReaches(deps, x, y);
      }
      return;
    }
    var allHaveHops := forall f :: f in group ==> f.chain != [];
    if allHaveHops {
      deps := RemoveDependency(deps, p, c);
    }
    ghost var kept := deps;
    NoRoutes(kept);
    assert group[..0] == [];
    for i := 0 to |group|
      invariant deps.Keys == deps0.Keys
      invariant forall x, y :: Edge(deps, x, y) <==> Edge(kept, x, y) || OnSomeRoute(group[..i], x, y)
      invariant AlikeOffRoutes(kept, deps, group[..i])
    {
      assert forall f :: f in group[..i + 1] <==> f in group[..i] || f == group[i];
      assert group[..i + 1] == group[..i] + [group[i]];
      ghost var before := deps;
      if group[i].chain == [] {
        OneMoreRoute(kept, before, deps, group[..i], group[i]);
        continue;
      }
      assert StagesKnown(deps0, group[i]);
      deps := WireChain(deps, group[i]);
      OneMoreRoute(kept, before, deps, group[..i], group[i]);
    }
    assert group[..|group|] == group;
    PairGivesUp(deps0, kept, deps, p, c, group);
    forall x, y | Edge(deps0, x, y) ensures Reaches(deps, x, y) {
      if Edge(deps, x, y) {
        EdgeReaches(deps, x, y);
      } else {
        assert x == p && y == c && allHaveHops;
        var f :| f in group && f.chain != [];
        assert forall u, v :: Adjacent(f.Route(), u, v) ==> OnRoute(f, u, v);
        HandOversConnect(deps, f.Route());
      }
    }
  }

  /** The hand-overs of the route have been added, and nothing else has changed. */
  ghost predicate Wired(deps0: Graph, deps: Graph, route: seq<StageId>) {
    && deps.Keys == deps0.Keys && AlikeOff(deps0, deps, route)
    && forall x, y :: Edge(deps, x, y) <==> Edge(deps0, x, y) || Adjacent(route, x, y)
  }

  lemma WireStep(deps0: Graph, deps: Graph, route: seq<StageId>, n: nat)
    requires 0 < n < |route| && route[n - 1] in deps && Wired(deps0, deps, route[..n])
    ensures Wired(deps0, AddDependency(deps, route[n - 1], route[n]), route[..n + 1])
  {
    AdjacentUpTo(route, n);
    AlikeStep(deps0, deps, route, n);
    hide AlikeOff, Adjacent, AddDependency;
  }

  lemma NothingWired(deps: Graph, a: StageId)
    ensures Wired(deps, deps, [a])
  {
    AlikeOnOne(deps, deps, a);
  }

  /** producer -> first hop stage -> ... -> last hop stage -> consumer. */
  method WireChain(deps0: Graph, flow: DataFlow) returns (deps: Graph)
    requires flow.chain != [] && StagesKnown(deps0, flow)
    ensures deps.Keys == deps0.Keys
    ensures forall x, y :: Edge(deps, x, y) <==> Edge(deps0, x, y) || OnRoute(flow, x, y)
    ensures AlikeOff(deps0, deps, flow.Route())
  {
    ghost var route := flow.Route();
    var last := |flow.chain| - 1;
    assert forall k :: 0 <= k < |route| ==> route[k] in route;
    assert forall k :: 0 <= k <= last ==> route[k + 1] == flow.chain[k];
    assert route[..1] == [flow.producer] && route[..last + 3] == route;
    NothingWired(deps0, flow.producer);
    hide AlikeOff, Adjacent, AddDependency;
    WireStep(deps0, deps0, route, 1);
    deps := AddDependency(deps0, flow.producer, flow.chain[0]);
    for k := 0 to last
      invariant deps.Keys == deps0.Keys && Wired(deps0, deps, route[..k + 2])
    {
      WireStep(deps0, deps, route, k + 2);
      deps := AddDependency(deps, flow.chain[k], flow.chain[k + 1]);
    }
    WireStep(deps0, deps, route, last + 2);
    deps := AddDependency(deps, flow.chain[last], flow.consumer);
  }

  lemma AdjacentUpTo(route: seq<StageId>, n: nat)
    requires 0 < n < |route|
    ensures forall x, y :: Adjacent(route[..n + 1], x, y) <==>
              Adjacent(route[..n], x, y) || (x == route[n - 1] && y == route[n])
  {
    forall x, y ensures Adjacent(route[..n + 1], x, y) <==>
        Adjacent(route[..n], x, y) || (x == route[n - 1] && y == route[n])
    {
      var longer, shorter := route[..n + 1], route[..n];
      if Adjacent(longer, x, y) {
        var k :| 0 <= k < |longer| - 1 && longer[k] == x && longer[k + 1] == y;
        if k < n - 1 {
          assert shorter[k] == x && shorter[k + 1] == y;
        }
      }
      if Adjacent(shorter, x, y) {
        var k :| 0 <= k < |shorter| - 1 && shorter[k] == x && shorter[k + 1] == y;
        assert longer[k] == x && longer[k + 1] == y;
      }
      if x == route[n - 1] && y == route[n] {
        assert longer[n - 1] == x && longer[n - 1 + 1] == y;
      }
    }
  }

  /** The pairs of stages that have flows between them, in order of their first flow. */
  method PairsOf(flows: seq<DataFlow>) returns (pairs: seq<(StageId, StageId)>)
    ensures Distinct(pairs)
    ensures forall p: StageId, c: StageId :: (p, c) in pairs <==> exists f :: f in flows && Between(f, p, c)
  {
    pairs := [];
    for i := 0 to |flows|
      invariant Distinct(pairs)
      invariant forall p: StageId, c: StageId :: (p, c) in pairs <==> exists f :: f in flows[..i] && Between(f, p, c)
    {
      assert forall f :: f in flows[..i + 1] <==> f in flows[..i] || f == flows[i];
      var pair := (flows[i].producer, flows[i].consumer);
      assert Between(flows[i], pair.0, pair.1);
      if pair !in pairs {
        pairs := pairs + [pair];
      }
    }
    assert flows[..|flows|] == flows;
  }

  /** What holds once the flows of the first n pairs are rewired. */
  ghost predicate RewiredSoFar(deps0: Graph, deps: Graph, flows: seq<DataFlow>, pairs: seq<(StageId, StageId)>, n: nat)
    requires n <= |pairs|
  {
    && deps.Keys == deps0.Keys
    && (forall x, y :: Reaches(deps0, x, y) ==> Reaches(deps, x, y))
    && (forall f, x, y :: f in flows && (f.producer, f.consumer) in pairs[..n] && OnRoute(f, x, y) ==>
                            Reaches(deps, x, y))
    && (forall x, y :: Edge(deps, x, y) ==> Edge(deps0, x, y) || OnSomeRoute(flows, x, y))
    && (forall x, y :: Edge(deps0, x, y) && !AllHaveHops(flows, x, y) ==> Edge(deps, x, y))
  }

  /** Off the routes, only the direct dependencies of pairs that need none any more have lost an
      entry. */
  ghost predicate ListedSoFar(deps0: Graph, deps: Graph, flows: seq<DataFlow>, pairs: seq<(StageId, StageId)>, n: nat)
    requires n <= |pairs|
  {
    forall a: StageId, b: StageId :: !OnSomeRoute(flows, a, b) ==>
      Listed(deps, a, b) == LeftOf(Listed(deps0, a, b), (a, b) in pairs[..n] && AllHaveHops(flows, a, b))
  }

  lemma ListedStep(deps0: Graph, deps: Graph, deps': Graph, flows: seq<DataFlow>, pairs: seq<(StageId, StageId)>,
                   n: nat, group: seq<DataFlow>)
    requires n < |pairs| && Distinct(pairs) && ListedSoFar(deps0, deps, flows, pairs, n)
    requires forall f :: f in group <==> f in flows && Between(f, pairs[n].0, pairs[n].1)
    requires GivesUp(deps, deps', pairs[n].0, pairs[n].1, group)
    ensures ListedSoFar(deps0, deps', flows, pairs, n + 1)
  {
    var (p, c) := pairs[n];
    assert pairs[..n + 1] == pairs[..n] + [pairs[n]] && (p, c) !in pairs[..n];
    SameHops(flows, group, p, c);
    forall a: StageId, b: StageId | !OnSomeRoute(flows, a, b)
      ensures Listed(deps', a, b) == LeftOf(Listed(deps0, a, b), (a, b) in pairs[..n + 1] && AllHaveHops(flows, a, b))
    {
      assert !OnSomeRoute(group, a, b);
      assert (a, b) in pairs[..n + 1] <==> (a, b) in pairs[..n] || (a == p && b == c);
    }
  }

  lemma SameHops(flows: seq<DataFlow>, group: seq<DataFlow>, p: StageId, c: StageId)
    requires forall f :: f in group <==> f in flows && Between(f, p, c)
    ensures AllHaveHops(group, p, c) <==> AllHaveHops(flows, p, c)
  {
    if f :| f in flows && Between(f, p, c) {
      assert f in group;
    }
  }

  lemma RewireStep(deps0: Graph, deps: Graph, deps': Graph, flows: seq<DataFlow>, pairs: seq<(StageId, StageId)>,
                   n: nat,
                   group: seq<DataFlow>)
    requires n < |pairs| && RewiredSoFar(deps0, deps, flows, pairs, n)
    requires forall f :: f in group <==> f in flows && Between(f, pairs[n].0, pairs[n].1)
    requires deps'.Keys == deps.Keys
    requires forall x, y :: Edge(deps, x, y) ==> Reaches(deps', x, y)
    requires forall x, y :: OnSomeRoute(group, x, y) ==> Edge(deps', x, y)
    requires forall x, y :: Edge(deps', x, y) ==> Edge(deps, x, y) || OnSomeRoute(group, x, y)
    requires forall x, y :: Edge(deps, x, y) && !(x == pairs[n].0 && y == pairs[n].1 && AllHaveHops(group, x, y)) ==>
               Edge(deps', x, y)
    ensures RewiredSoFar(deps0, deps', flows, pairs, n + 1)
  {
    ReachSimulate(deps, deps');
    forall f, x, y | f in flows && (f.producer, f.consumer) in pairs[..n + 1] && OnRoute(f, x, y)
      ensures Reaches(deps', x, y)
    {
      if (f.producer, f.consumer) == pairs[n] {
        assert f in group && OnSomeRoute(group, x, y);
        EdgeReaches(deps', x, y);
      } else {
        assert pairs[..n + 1] == pairs[..n] + [pairs[n]];
      }
    }
    forall x, y | Edge(deps', x, y) ensures Edge(deps0, x, y) || OnSomeRoute(flows, x, y) {
      if !Edge(deps, x, y) {
        var f :| f in group && OnRoute(f, x, y);
        assert f in flows;
      }
    }
    forall x, y | Edge(deps0, x, y) && !AllHaveHops(flows, x, y) ensures Edge(deps', x, y) {
      if x == pairs[n].0 && y == pairs[n].1 && AllHaveHops(group, x, y) {
        assert forall f :: f in flows && Between(f, x, y) ==> f in group;
      }
    }
  }

  /** Makes every flow that has hop stages pass through them. No ordering is lost and none
      is added beyond the routes: one stage comes before another afterwards exactly if it
      does by the original dependencies and the routes together, even though an edge that
      one pair of stages gives up may have been added for the route of another. */
  method RewireDependencies(deps0: Graph, flows: seq<DataFlow>) returns (deps: Graph)
    requires forall f :: f in flows ==> StagesKnown(deps0, f)
    ensures deps.Keys == deps0.Keys
    ensures forall a, b :: Reaches(deps, a, b) <==> Reaches(WithRoutes(deps0, flows), a, b)
    ensures forall a, b :: Edge(deps, a, b) ==> Edge(deps0, a, b) || OnSomeRoute(flows, a, b)
    ensures forall a, b :: Edge(deps0, a, b) && !AllHaveHops(flows, a, b) ==> Edge(deps, a, b)
    ensures forall a: StageId, b: StageId :: !OnSomeRoute(flows, a, b) ==>
              Listed(deps, a, b) == LeftOf(Listed(deps0, a, b), AllHaveHops(flows, a, b))
  {
    var pairs := PairsOf(flows);
    deps := deps0;
    for n := 0 to |pairs|
      invariant RewiredSoFar(deps0, deps, flows, pairs, n) && ListedSoFar(deps0, deps, flows, pairs, n)
    {
      var (p, c) := pairs[n];
      assert (p, c) in pairs;
      ghost var f :| f in flows && Between(f, p, c);
      assert f.Route()[0] == p && f.Route()[|f.Route()| - 1] == c && StagesKnown(deps0, f);
      var group := FlowsBetween(flows, p, c);
      assert forall g :: g in group ==> StagesKnown(deps, g) by {
        forall g | g in group ensures StagesKnown(deps, g) {
          assert StagesKnown(deps0, g);
        }
      }
      var deps' := RewirePair(deps, p, c, group);
      RewireStep(deps0, deps, deps', flows, pairs, n, group);
      ListedStep(deps0, deps, deps', flows, pairs, n, group);
      deps := deps';
    }
    SameReach(deps0, deps, flows, pairs);
    assert pairs[..|pairs|] == pairs;
    forall a: StageId, b: StageId | AllHaveHops(flows, a, b) ensures (a, b) in pairs {
    }
  }

  lemma SameReach(deps0: Graph, deps: Graph, flows: seq<DataFlow>, pairs: seq<(StageId, StageId)>)
    requires RewiredSoFar(deps0, deps, flows, pairs, |pairs|)
    requires forall f :: f in flows ==> StagesKnown(deps0, f) && (f.producer, f.consumer) in pairs
    ensures forall a, b :: Reaches(deps, a, b) <==> Reaches(WithRoutes(deps0, flows), a, b)
  {
    var intended := WithRoutes(deps0, flows);
    ReachSubgraph(deps, intended);
    assert pairs[..|pairs|] == pairs;
    forall x, y | Edge(intended, x, y) ensures Reaches(deps, x, y) {
      if Edge(deps0, x, y) {
        EdgeReaches(deps0, x, y);
      } else {
        var f :| f in flows && OnRoute(f, x, y);
        assert (f.producer, f.consumer) in pairs[..|pairs|];
      }
    }
    ReachSimulate(intended, deps);
  }
}
