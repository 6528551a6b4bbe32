/** Putting the stages of a pipeline in an order their dependencies allow: the queue-based
    sort of the pipeline tree, and the planner's re-sort that keeps to the current order
    as far as it can. */
module StageOrder {
  import opened Wrappers
  import opened Digraph
  import opened Sequences

  type StageId = Node

  /** deps lists, for every stage, the stages it unblocks; a stage may be listed twice. */
  ghost predicate OverStages(deps: Graph, stages: seq<StageId>) {
    && Distinct(stages)
    && deps.Keys == Elems(stages)
    && forall a, b :: Edge(deps, a, b) ==> b in stages
  }

  ghost predicate IsPermutation(stages: seq<StageId>, r: seq<StageId>) {
    Distinct(r) && |r| == |stages| && Elems(r) == Elems(stages)
  }

  ghost predicate RespectsEdges(deps: Graph, r: seq<StageId>) {
    forall i, j :: 0 <= i < |r| && 0 <= j < |r| && Edge(deps, r[i], r[j]) ==> i < j
  }

  ghost predicate IsTopological(deps: Graph, stages: seq<StageId>, r: seq<StageId>) {
    IsPermutation(stages, r) && RespectsEdges(deps, r)
  }

  /** v is not placed, and every stage that unblocks it is. */
  ghost predicate Ready(deps: Graph, stages: seq<StageId>, placed: set<StageId>, v: StageId) {
    && v in stages && v !in placed
    && forall u :: u in stages && u !in placed ==> !Edge(deps, u, v)
  }

  /** Every stage of r was ready when the ones before it had been placed. */
  ghost predicate ReadyInTurn(deps: Graph, stages: seq<StageId>, r: seq<StageId>) {
    Distinct(r) && forall i :: 0 <= i < |r| ==> Ready(deps, stages, Elems(r[..i]), r[i])
  }

  /** v is ready, and no stage that comes before it in the current order is. */
  ghost predicate IsFirstReady(deps: Graph, stages: seq<StageId>, placed: set<StageId>, v: StageId) {
    && Ready(deps, stages, placed, v)
    && forall u :: Ready(deps, stages, placed, u) ==> IndexOf(stages, v) <= IndexOf(stages, u)
  }

  /** Every stage of r was the first ready one when those before it had been placed. */
  ghost predicate FirstReadyInTurn(deps: Graph, stages: seq<StageId>, r: seq<StageId>) {
    forall i :: 0 <= i < |r| ==> IsFirstReady(deps, stages, Elems(r[..i]), r[i])
  }

  // ----- Consequences of a topological order

  lemma OrderedPath(deps: Graph, stages: seq<StageId>, r: seq<StageId>, p: seq<StageId>, i: nat, j: nat)
    requires OverStages(deps, stages) && IsTopological(deps, stages, r)
    requires i < |r| && j < |r| && Connects(deps, p, r[i], r[j])
    ensures i < j
    decreases |p|
  {
    assert Edge(deps, p[0], p[0 + 1]);
    assert p[1] in Elems(r);
    var m :| 0 <= m < |r| && r[m] == p[1];
    assert Edge(deps, r[i], r[m]);
    if |p| > 2 {
      var q := p[1..];
      forall k | 0 <= k < |q| - 1 ensures Edge(deps, q[k], q[k + 1]) {
        assert q[k] == p[k + 1] && q[k + 1] == p[k + 1 + 1];
      }
      OrderedPath(deps, stages, r, q, m, j);
    } else {
      assert r[m] == r[j];
    }
  }

  /** A topological order puts a stage after every stage it depends on, directly or not. */
  lemma OrderedReach(deps: Graph, stages: seq<StageId>, r: seq<StageId>, i: nat, j: nat)
    requires OverStages(deps, stages) && IsTopological(deps, stages, r)
    requires i < |r| && j < |r| && Reaches(deps, r[i], r[j])
    ensures i < j
  {
    var p :| Connects(deps, p, r[i], r[j]);
    OrderedPath(deps, stages, r, p, i, j);
  }

  lemma TopologicalMeansAcyclic(deps: Graph, stages: seq<StageId>, r: seq<StageId>)
    requires OverStages(deps, stages) && IsTopological(deps, stages, r)
    ensures Acyclic(deps)
  {
    forall a | Reaches(deps, a, a) ensures false {
      var p :| Connects(deps, p, a, a);
      assert Edge(deps, p[0], p[0 + 1]);
      assert a in Elems(r);
      var i :| 0 <= i < |r| && r[i] == a;
      OrderedReach(deps, stages, r, i, i);
    }
  }

  lemma ReadyInTurnIsTopological(deps: Graph, stages: seq<StageId>, r: seq<StageId>)
    requires OverStages(deps, stages) && ReadyInTurn(deps, stages, r) && |r| == |stages|
    ensures IsTopological(deps, stages, r)
  {
    forall x | x in r ensures x in stages {
      var i :| 0 <= i < |r| && r[i] == x;
      assert Ready(deps, stages, Elems(r[..i]), r[i]);
    }
    DistinctCardinality(r);
    DistinctCardinality(stages);
    SubsetCardinality(Elems(r), Elems(stages));
    forall i, j | 0 <= i < |r| && 0 <= j < |r| && Edge(deps, r[i], r[j]) ensures i < j {
      assert Ready(deps, stages, Elems(r[..j]), r[j]);
      assert r[i] in Elems(stages);
      assert r[i] in r[..j];
      var k :| 0 <= k < j && r[..j][k] == r[i];
      assert r[k] == r[i];
    }
  }

  /** When stages are left but none is ready, the dependencies form a cycle. */
  lemma NoneReadyMeansCycle(deps: Graph, stages: seq<StageId>, r: seq<StageId>)
    requires OverStages(deps, stages) && Distinct(r) && Elems(r) <= Elems(stages) && |r| < |stages|
    requires forall v :: !Ready(deps, stages, Elems(r), v)
    ensures !Acyclic(deps)
  {
    var left := Elems(stages) - Elems(r);
    DistinctCardinality(stages);
    DistinctCardinality(r);
    if left == {} {
      forall x | x in Elems(stages) ensures x in Elems(r) {
        assert x !in left;
      }
      SubsetCardinality(Elems(stages), Elems(r));
      assert false;
    }
    forall v | v in left ensures HasPredIn(deps, left, v) {
      assert !Ready(deps, stages, Elems(r), v);
      var u :| u in stages && u !in Elems(r) && Edge(deps, u, v);
      assert u in left;
    }
    StuckMeansCycle(deps, left);
  }

  /** Of all topological orders, picking the first ready stage yields the one that is
      lexicographically least by current position: where another order first differs,
      it has a stage from further down. */
  lemma FirstReadyIsLeast(deps: Graph, stages: seq<StageId>, r: seq<StageId>, other: seq<StageId>, k: nat)
    requires OverStages(deps, stages) && IsPermutation(stages, r) && IsTopological(deps, stages, other)
    requires FirstReadyInTurn(deps, stages, r)
    requires k < |stages| && r[..k] == other[..k] && r[k] != other[k]
    ensures r[k] in stages && other[k] in stages && IndexOf(stages, r[k]) < IndexOf(stages, other[k])
  {
    hide Ready, RespectsEdges, Distinct, OverStages;
    NextIsReady(deps, stages, other, k);
    assert IsFirstReady(deps, stages, Elems(r[..k]), r[k]);
  }

  lemma NextIsReady(deps: Graph, stages: seq<StageId>, r: seq<StageId>, k: nat)
    requires OverStages(deps, stages) && IsTopological(deps, stages, r) && k < |r|
    ensures Ready(deps, stages, Elems(r[..k]), r[k])
  {
    assert r[k] in Elems(r) && r[k] !in r[..k];
    forall u | u in stages && u !in Elems(r[..k]) ensures !Edge(deps, u, r[k]) {
      assert u in Elems(r);
      var i :| 0 <= i < |r| && r[i] == u;
      assert i >= k;
    }
  }

  lemma SameNext(deps: Graph, stages: seq<StageId>, r: seq<StageId>, k: nat)
    requires OverStages(deps, stages) && IsPermutation(stages, r) && FirstReadyInTurn(deps, stages, r)
    requires RespectsEdges(deps, stages) && k < |r| && r[..k] == stages[..k]
    ensures r[k] == stages[k]
  {
    NextIsReady(deps, stages, stages, k);
    assert IsFirstReady(deps, stages, Elems(r[..k]), r[k]);
    assert IndexOf(stages, stages[k]) == k;
  }

  /** A pipeline that is already in order stays as it is. */
  lemma OrderedStaysPut(deps: Graph, stages: seq<StageId>, r: seq<StageId>)
    requires OverStages(deps, stages) && IsPermutation(stages, r) && FirstReadyInTurn(deps, stages, r)
    requires RespectsEdges(deps, stages)
    ensures r == stages
  {
    for k := 0 to |r|
      invariant forall i :: 0 <= i < k ==> r[i] == stages[i]
    {
      assert r[..k] == stages[..k];
      SameNext(deps, stages, r, k);
    }
  }

  // ----- Counting the predecessors that are not placed yet

  function Count(s: seq<StageId>, v: StageId): nat {
    multiset(s)[v]
  }

  /** The number of edges into v from the stages of ss that are not placed. */
  function Unplaced(deps: Graph, ss: seq<StageId>, placed: set<StageId>, v: StageId): nat
    requires forall s :: s in ss ==> s in deps
  {
    if ss == [] then 0
    else
      Unplaced(deps, ss[..|ss| - 1], placed, v) +
      if ss[|ss| - 1] in placed then 0 else Count(deps[ss[|ss| - 1]], v)
  }

  lemma {:induction false} UnplacedZero(deps: Graph, ss: seq<StageId>, placed: set<StageId>, v: StageId)
    requires forall s :: s in ss ==> s in deps
    ensures Unplaced(deps, ss, placed, v) == 0 <==> forall u :: u in ss && u !in placed ==> !Edge(deps, u, v)
  {
    if ss != [] {
      var last := ss[|ss| - 1];
      assert ss == ss[..|ss| - 1] + [last];
      UnplacedZero(deps, ss[..|ss| - 1], placed, v);
      assert Count(deps[last], v) > 0 <==> v in deps[last];
      assert forall u :: u in ss <==> u in ss[..|ss| - 1] || u == last;
    }
  }

  lemma {:induction false} PlaceOne(deps: Graph, ss: seq<StageId>, placed: set<StageId>, u: StageId, v: StageId)
    requires Distinct(ss) && (forall s :: s in ss ==> s in deps) && u !in placed && u in deps
    ensures Unplaced(deps, ss, placed, v) ==
            Unplaced(deps, ss, placed + {u}, v) + if u in ss then Count(deps[u], v) else 0
  {
    if ss != [] {
      var front, last := ss[..|ss| - 1], ss[|ss| - 1];
      assert ss == front + [last];
      PlaceOne(deps, front, placed, u, v);
      if u in front {
        var k :| 0 <= k < |front| && front[k] == u;
        assert ss[k] == u;
      }
    }
  }

  function Lookup(m: map<StageId, nat>, v: StageId): nat {
    if v in m then m[v] else 0
  }

  /** The counters hold the edges from unplaced stages, plus those listed in extra. */
  ghost predicate Counts(m: map<StageId, nat>, deps: Graph, ss: seq<StageId>, placed: set<StageId>, extra: seq<StageId>)
    requires forall s :: s in ss ==> s in deps
  {
    forall v :: Lookup(m, v) == Unplaced(deps, ss, placed, v) + Count(extra, v)
  }

  method CountPredecessors(deps: Graph, stages: seq<StageId>) returns (m: map<StageId, nat>)
    requires OverStages(deps, stages)
    ensures Counts(m, deps, stages, {}, [])
  {
    m := map[];
    for i := 0 to |stages|
      invariant Counts(m, deps, stages[..i], {}, [])
    {
      var succs := deps[stages[i]];
      for j := 0 to |succs|
        invariant Counts(m, deps, stages[..i], {}, succs[..j])
      {
        assert succs[..j + 1] == succs[..j] + [succs[j]];
        m := m[succs[j] := Lookup(m, succs[j]) + 1];
      }
      assert succs[..|succs|] == succs;
      assert stages[..i + 1][..i] == stages[..i];
    }
    assert stages[..|stages|] == stages;
  }

  lemma CountsAfterPlacing(m: map<StageId, nat>, deps: Graph, stages: seq<StageId>, placed: set<StageId>, u: StageId)
    requires OverStages(deps, stages) && u in stages && u !in placed
    requires Counts(m, deps, stages, placed, [])
    ensures Counts(m, deps, stages, placed + {u}, deps[u])
  {
    forall v ensures Lookup(m, v) == Unplaced(deps, stages, placed + {u}, v) + Count(deps[u], v) {
      PlaceOne(deps, stages, placed, u, v);
    }
  }

  lemma ReadyIsCountZero(m: map<StageId, nat>, deps: Graph, stages: seq<StageId>, placed: set<StageId>, v: StageId)
    requires OverStages(deps, stages) && Counts(m, deps, stages, placed, [])
    ensures Ready(deps, stages, placed, v) <==> v in stages && v !in placed && Lookup(m, v) == 0
  {
    UnplacedZero(deps, stages, placed, v);
  }

  lemma PlaceReady(deps: Graph, stages: seq<StageId>, r: seq<StageId>, v: StageId)
    requires ReadyInTurn(deps, stages, r) && Ready(deps, stages, Elems(r), v)
    ensures ReadyInTurn(deps, stages, r + [v]) && Elems(r + [v]) == Elems(r) + {v}
  {
    var r' := r + [v];
    forall i | 0 <= i < |r'| ensures Ready(deps, stages, Elems(r'[..i]), r'[i]) {
      assert r'[..i] == r[..i];
      if i == |r| { assert r[..i] == r; }
    }
    forall i, j | 0 <= i < j < |r'| ensures r'[i] != r'[j] {
      if j == |r| { assert r[i] in Elems(r); }
    }
  }

  /** A placed stage is never unblocked again. */
  lemma PlacedNotUnblocked(deps: Graph, stages: seq<StageId>, r: seq<StageId>, u: StageId)
    requires OverStages(deps, stages) && ReadyInTurn(deps, stages, r) && |r| > 0 && u == r[|r| - 1]
    ensures forall w :: w in deps[u] ==> w !in r
    ensures u in deps
  {
    assert Ready(deps, stages, Elems(r[..|r| - 1]), u);
    forall w, i | w in deps[u] && 0 <= i < |r| ensures r[i] != w {
      assert Ready(deps, stages, Elems(r[..i]), r[i]);
    }
  }

  // ----- The two sorts

  /** Kahn's algorithm over a worklist of stages with no unplaced predecessor. */
  method TopologicalSortStages(deps: Graph, stages: seq<StageId>) returns (r: Option<seq<StageId>>)
    requires OverStages(deps, stages)
    ensures r.Some? <==> Acyclic(deps)
    ensures r.Some? ==> IsTopological(deps, stages, r.value)
  {
    var inDegree := CountPredecessors(deps, stages);
    var worklist := SourceStages(stages, inDegree);
    var sorted: seq<StageId> := [];
    assert Elems(sorted) == {};
    while |worklist| > 0
      invariant ReadyInTurn(deps, stages, sorted) && Elems(sorted) <= Elems(stages)
      invariant Counts(inDegree, deps, stages, Elems(sorted), [])
      invariant Distinct(worklist)
      invariant Waiting(inDegree, stages, sorted, worklist)
      decreases Elems(stages) - Elems(sorted), |worklist|
    {
      var current := worklist[0];
      assert current in worklist;
      ReadyIsCountZero(inDegree, deps, stages, Elems(sorted), current);
      CountsAfterPlacing(inDegree, deps, stages, Elems(sorted), current);
      PlaceReady(deps, stages, sorted, current);
      ghost var before := sorted;
      sorted := sorted + [current];
      worklist := worklist[1..];
      PlacedNotUnblocked(deps, stages, sorted, current);
      assert forall w :: w in deps[current] ==> Edge(deps, current, w);
      inDegree, worklist := ReleaseAndQueue(inDegree, deps, stages, sorted, worklist, deps[current]);
    }
    if |sorted| != |stages| {
      NothingWaiting(inDegree, deps, stages, sorted);
      return None;
    }
    ReadyInTurnIsTopological(deps, stages, sorted);
    TopologicalMeansAcyclic(deps, stages, sorted);
    r := Some(sorted);
  }

  lemma NothingWaiting(m: map<StageId, nat>, deps: Graph, stages: seq<StageId>, sorted: seq<StageId>)
    requires OverStages(deps, stages) && Counts(m, deps, stages, Elems(sorted), [])
    requires ReadyInTurn(deps, stages, sorted) && Elems(sorted) <= Elems(stages) && |sorted| != |stages|
    requires Waiting(m, stages, sorted, [])
    ensures !Acyclic(deps)
  {
    forall v ensures !Ready(deps, stages, Elems(sorted), v) {
      ReadyIsCountZero(m, deps, stages, Elems(sorted), v);
    }
    DistinctCardinality(sorted);
    DistinctCardinality(stages);
    SubsetCardinality(Elems(sorted), Elems(stages));
    NoneReadyMeansCycle(deps, stages, sorted);
  }

  method SourceStages(stages: seq<StageId>, inDegree: map<StageId, nat>) returns (worklist: seq<StageId>)
    requires Distinct(stages)
    ensures Distinct(worklist)
    ensures Waiting(inDegree, stages, [], worklist)
  {
    worklist := [];
    for i := 0 to |stages|
      invariant Distinct(worklist)
      invariant forall v :: v in worklist <==> v in stages[..i] && Lookup(inDegree, v) == 0
    {
      assert stages[..i + 1] == stages[..i] + [stages[i]];
      if Lookup(inDegree, stages[i]) == 0 {
        assert forall k :: 0 <= k < i ==> stages[..i][k] != stages[i];
        worklist := worklist + [stages[i]];
      }
    }
    assert stages[..|stages|] == stages;
  }

  /** The worklist holds exactly the unsorted stages whose counter is zero. */
  ghost predicate Waiting(m: map<StageId, nat>, stages: seq<StageId>, sorted: seq<StageId>, worklist: seq<StageId>) {
    forall v :: v in worklist <==> v in stages && v !in sorted && Lookup(m, v) == 0
  }

  /** Takes the edges of the stage just sorted off the counters, queueing every stage
      whose counter drops to zero. */
  method ReleaseAndQueue(m0: map<StageId, nat>, ghost deps: Graph, ghost stages: seq<StageId>,
                         ghost sorted: seq<StageId>,
                         worklist0: seq<StageId>, succs: seq<StageId>)
    returns (m: map<StageId, nat>, worklist: seq<StageId>)
    requires OverStages(deps, stages) && Counts(m0, deps, stages, Elems(sorted), succs)
    requires Distinct(worklist0) && Waiting(m0, stages, sorted, worklist0)
    requires forall w :: w in succs ==> w in stages && w !in sorted
    ensures Counts(m, deps, stages, Elems(sorted), [])
    ensures Distinct(worklist) && Waiting(m, stages, sorted, worklist)
  {
    m, worklist := m0, worklist0;
    for j := 0 to |succs|
      invariant Counts(m, deps, stages, Elems(sorted), succs[j..])
      invariant Distinct(worklist) && Waiting(m, stages, sorted, worklist)
    {
      var d := succs[j];
      assert succs[j..] == [d] + succs[j + 1..];
      assert Lookup(m, d) == Unplaced(deps, stages, Elems(sorted), d) + Count(succs[j..], d);
      m := m[d := Lookup(m, d) - 1];
      if m[d] == 0 {
        worklist := worklist + [d];
      }
    }
  }

  /** Repeatedly takes the first stage, in the current order, whose predecessors have
      all been placed. */
  method OrderByDependencies(deps: Graph, stages: seq<StageId>) returns (r: Option<seq<StageId>>)
    requires OverStages(deps, stages)
    ensures r.Some? <==> Acyclic(deps)
    ensures r.Some? ==> IsTopological(deps, stages, r.value) && FirstReadyInTurn(deps, stages, r.value)
  {
    var unplacedPreds := CountPredecessors(deps, stages);
    var ordered: seq<StageId> := [];
    assert Elems(ordered) == {};
    while |ordered| < |stages|
      invariant |ordered| <= |stages| && Elems(ordered) <= Elems(stages)
      invariant ReadyInTurn(deps, stages, ordered) && FirstReadyInTurn(deps, stages, ordered)
      invariant Counts(unplacedPreds, deps, stages, Elems(ordered), [])
    {
      var k := FindReady(deps, stages, ordered, unplacedPreds);
      if k == |stages| {
        forall v ensures !Ready(deps, stages, Elems(ordered), v) {
          if v in stages {
            assert stages[IndexOf(stages, v)] == v;
          }
        }
        NoneReadyMeansCycle(deps, stages, ordered);
        return None;
      }
      var next := stages[k];
      CountsAfterPlacing(unplacedPreds, deps, stages, Elems(ordered), next);
      PlaceReady(deps, stages, ordered, next);
      PlaceFirstReady(deps, stages, ordered, k);
      ordered := ordered + [next];
      DistinctCardinality(ordered);
      DistinctCardinality(stages);
      SubsetCardinality(Elems(ordered), Elems(stages));
      unplacedPreds := Release(unplacedPreds, deps, stages, Elems(ordered), deps[next]);
    }
    ReadyInTurnIsTopological(deps, stages, ordered);
    TopologicalMeansAcyclic(deps, stages, ordered);
    r := Some(ordered);
  }

  /** The position of the first ready stage, or |stages| if there is none. */
  method FindReady(ghost deps: Graph, stages: seq<StageId>, ordered: seq<StageId>, unplacedPreds: map<StageId, nat>)
    returns (k: nat)
    requires OverStages(deps, stages) && Counts(unplacedPreds, deps, stages, Elems(ordered), [])
    ensures k <= |stages| && (k < |stages| ==> Ready(deps, stages, Elems(ordered), stages[k]))
    ensures forall i :: 0 <= i < k ==> !Ready(deps, stages, Elems(ordered), stages[i])
  {
    k := 0;
    while k < |stages|
      invariant k <= |stages|
      invariant forall i :: 0 <= i < k ==> !Ready(deps, stages, Elems(ordered), stages[i])
    {
      ReadyIsCountZero(unplacedPreds, deps, stages, Elems(ordered), stages[k]);
      if stages[k] !in ordered && Lookup(unplacedPreds, stages[k]) == 0 {
        return;
      }
      k := k + 1;
    }
  }

  lemma PlaceFirstReady(deps: Graph, stages: seq<StageId>, r: seq<StageId>, k: nat)
    requires Distinct(stages) && FirstReadyInTurn(deps, stages, r) && k < |stages|
    requires Ready(deps, stages, Elems(r), stages[k])
    requires forall i :: 0 <= i < k ==> !Ready(deps, stages, Elems(r), stages[i])
    ensures FirstReadyInTurn(deps, stages, r + [stages[k]])
  {
    var r' := r + [stages[k]];
    assert IndexOf(stages, stages[k]) == k;
    forall i | 0 <= i < |r'| ensures IsFirstReady(deps, stages, Elems(r'[..i]), r'[i]) {
      assert r'[..i] == r[..i];
      if i == |r| {
        assert r[..i] == r;
        forall u | Ready(deps, stages, Elems(r), u) ensures k <= IndexOf(stages, u) {
          assert stages[IndexOf(stages, u)] == u;
        }
      }
    }
  }

  method Release(m0: map<StageId, nat>, ghost deps: Graph, ghost stages: seq<StageId>, ghost placed: set<StageId>,
                 succs: seq<StageId>)
    returns (m: map<StageId, nat>)
    requires OverStages(deps, stages) && Counts(m0, deps, stages, placed, succs)
    ensures Counts(m, deps, stages, placed, [])
  {
    m := m0;
    for j := 0 to |succs|
      invariant Counts(m, deps, stages, placed, succs[j..])
    {
      var d := succs[j];
      assert succs[j..] == [d] + succs[j + 1..];
      assert Lookup(m, d) == Unplaced(deps, stages, placed, d) + Count(succs[j..], d);
      m := m[d := Lookup(m, d) - 1];
    }
  }
}
