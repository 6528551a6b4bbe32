/** Deciding for every stage whether it is before, on, or after the compute stages. */
module StageSides {
  import opened Wrappers
  import opened Digraph
  import opened StageOrder

  datatype StageSide = Load | Compute | Store

  function Rank(side: StageSide): nat {
    match side case Load => 0 case Compute => 1 case Store => 2
  }

  /** Some compute stage feeds s, directly or through other stages. */
  ghost predicate AfterCompute(deps: Graph, compute: set<StageId>, s: StageId) {
    exists c :: c in compute && Reaches(deps, c, s)
  }

  ghost predicate FromCompute(deps: Graph, compute: set<StageId>, s: StageId) {
    s in compute || AfterCompute(deps, compute, s)
  }

  ghost predicate BeforeCompute(deps: Graph, compute: set<StageId>, s: StageId) {
    exists c :: c in compute && Reaches(deps, s, c)
  }

  /** There is a compute stage, and each of the others is before one or after one, not both. */
  ghost predicate Classifiable(deps: Graph, stages: seq<StageId>, compute: set<StageId>) {
    && (exists c :: c in compute)
    && forall s :: s in stages && s !in compute ==>
         (BeforeCompute(deps, compute, s) <==> !AfterCompute(deps, compute, s))
  }

  ghost predicate IsClassification(deps: Graph, stages: seq<StageId>, compute: set<StageId>, sides: map<StageId,
                                   StageSide>)
  {
    && sides.Keys == Elems(stages)
    && forall s :: s in stages ==>
         && (sides[s].Compute? <==> s in compute)
         && (sides[s].Load? ==> BeforeCompute(deps, compute, s) && !AfterCompute(deps, compute, s))
         && (sides[s].Store? ==> AfterCompute(deps, compute, s) && !BeforeCompute(deps, compute, s))
  }

  /** Along a dependency path the side never goes back: load, then compute, then store. */
  lemma SidesAreMonotone(deps: Graph, stages: seq<StageId>, compute: set<StageId>, sides: map<StageId, StageSide>,
                         a: StageId, b: StageId)
    requires IsClassification(deps, stages, compute, sides)
    requires a in stages && b in stages && Reaches(deps, a, b)
    ensures Rank(sides[a]) <= Rank(sides[b])
  {
    if a in compute {
      assert AfterCompute(deps, compute, b);
    } else if AfterCompute(deps, compute, a) {
      var c :| c in compute && Reaches(deps, c, a);
      ReachTrans(deps, c, a, b);
      assert AfterCompute(deps, compute, b);
      assert b in compute ==> BeforeCompute(deps, compute, a);
    }
  }

  lemma AfterStep(deps: Graph, compute: set<StageId>, s: StageId)
    ensures AfterCompute(deps, compute, s) <==>
            exists u :: Edge(deps, u, s) && (u in compute || AfterCompute(deps, compute, u))
  {
    if AfterCompute(deps, compute, s) {
      var c :| c in compute && Reaches(deps, c, s);
      var u := LastEdge(deps, c, s);
    }
    if u :| Edge(deps, u, s) && (u in compute || AfterCompute(deps, compute, u)) {
      EdgeReaches(deps, u, s);
      if u !in compute {
        var c :| c in compute && Reaches(deps, c, u);
        ReachTrans(deps, c, u, s);
      }
    }
  }

  lemma BeforeStep(deps: Graph, compute: set<StageId>, s: StageId)
    ensures BeforeCompute(deps, compute, s) <==>
            exists u :: Edge(deps, s, u) && (u in compute || BeforeCompute(deps, compute, u))
  {
    if BeforeCompute(deps, compute, s) {
      var c :| c in compute && Reaches(deps, s, c);
      var u := FirstEdge(deps, s, c);
    }
    if u :| Edge(deps, s, u) && (u in compute || BeforeCompute(deps, compute, u)) {
      EdgeReaches(deps, s, u);
      if u !in compute {
        var c :| c in compute && Reaches(deps, u, c);
        ReachTrans(deps, s, u, c);
      }
    }
  }

  /** In topological order, everything fed by a stage handled so far has been marked, and
      nothing wrongly. */
  ghost predicate MarkedAfter(deps: Graph, sorted: seq<StageId>, compute: set<StageId>, marked: set<StageId>, i: nat) {
    && (forall s :: s in marked ==> AfterCompute(deps, compute, s))
    && (forall j, s :: 0 <= j < i <= |sorted| && Edge(deps, sorted[j], s) && FromCompute(deps, compute, sorted[j]) ==>
                         s in marked)
  }

  /** A stage whose predecessors have all been handled is marked exactly if it should be. */
  lemma MarkIsExact(deps: Graph, stages: seq<StageId>, sorted: seq<StageId>, compute: set<StageId>,
                    marked: set<StageId>,
                    i: nat, k: nat)
    requires OverStages(deps, stages) && IsTopological(deps, stages, sorted)
    requires MarkedAfter(deps, sorted, compute, marked, i) && k <= i <= |sorted| && k < |sorted|
    ensures sorted[k] in marked <==> AfterCompute(deps, compute, sorted[k])
  {
    AfterStep(deps, compute, sorted[k]);
    if u :| Edge(deps, u, sorted[k]) && (u in compute || AfterCompute(deps, compute, u)) {
      assert u in Elems(sorted);
      var j :| 0 <= j < |sorted| && sorted[j] == u;
      assert Edge(deps, sorted[j], sorted[k]);
    }
  }

  method MarkAfter(deps: Graph, ghost stages: seq<StageId>, sorted: seq<StageId>, anchors: set<StageId>)
    returns (marked: set<StageId>)
    requires OverStages(deps, stages) && IsTopological(deps, stages, sorted)
    ensures forall s :: s in stages ==> (s in marked <==> AfterCompute(deps, anchors, s))
  {
    marked := {};
    for i := 0 to |sorted|
      invariant MarkedAfter(deps, sorted, anchors, marked, i)
    {
      var stage := sorted[i];
      assert stage in Elems(sorted);
      MarkIsExact(deps, stages, sorted, anchors, marked, i, i);
      if stage !in anchors && stage !in marked {
        continue;
      }
      forall s | s in deps[stage] ensures AfterCompute(deps, anchors, s) {
        AfterStep(deps, anchors, s);
        assert Edge(deps, stage, s);
      }
      marked := marked + Elems(deps[stage]);
    }
    forall s | s in stages ensures s in marked <==> AfterCompute(deps, anchors, s) {
      assert s in Elems(sorted);
      var k :| 0 <= k < |sorted| && sorted[k] == s;
      MarkIsExact(deps, stages, sorted, anchors, marked, |sorted|, k);
    }
  }

  method MarkBefore(deps: Graph, ghost stages: seq<StageId>, sorted: seq<StageId>, anchors: set<StageId>)
    returns (marked: set<StageId>)
    requires OverStages(deps, stages) && IsTopological(deps, stages, sorted)
    ensures forall s :: s in stages ==> (s in marked <==> BeforeCompute(deps, anchors, s))
  {
    marked := {};
    for i := |sorted| downto 0
      invariant forall s :: s in marked ==> BeforeCompute(deps, anchors, s)
      invariant forall j :: i <= j < |sorted| ==> (sorted[j] in marked <==> BeforeCompute(deps, anchors, sorted[j]))
    {
      var stage := sorted[i];
      assert stage in Elems(sorted);
      BeforeStep(deps, anchors, stage);
      forall u | u in deps[stage] ensures u in marked <==> BeforeCompute(deps, anchors, u) {
        assert Edge(deps, stage, u) && u in Elems(sorted);
        var j :| 0 <= j < |sorted| && sorted[j] == u;
        assert Edge(deps, sorted[i], sorted[j]);
      }
      if exists u :: u in deps[stage] && (u in anchors || u in marked) {
        marked := marked + {stage};
      }
    }
    forall s | s in stages ensures s in marked <==> BeforeCompute(deps, anchors, s) {
      assert s in Elems(sorted);
    }
  }

  /** One side per stage from the two marks, failing if a stage off the compute units has
      both or neither. */
  method AssignSides(sorted: seq<StageId>, anchors: set<StageId>, before: set<StageId>, after: set<StageId>)
    returns (r: Option<map<StageId, StageSide>>)
    ensures r.Some? <==> forall s :: s in sorted && s !in anchors ==> (s in before <==> s !in after)
    ensures r.Some? ==> r.value.Keys == Elems(sorted)
    ensures r.Some? ==> forall s :: s in sorted ==>
              r.value[s] == if s in anchors then Compute else if s in before then Load else Store
  {
    var sides: map<StageId, StageSide> := map[];
    for i := 0 to |sorted|
      invariant sides.Keys == Elems(sorted[..i])
      invariant forall s :: s in sorted[..i] ==>
                  sides[s] == if s in anchors then Compute else if s in before then Load else Store
      invariant forall s :: s in sorted[..i] && s !in anchors ==> (s in before <==> s !in after)
    {
      var stage := sorted[i];
      assert sorted[..i + 1] == sorted[..i] + [stage];
      if stage in anchors {
        sides := sides[stage := Compute];
        continue;
      }
      if (stage in before) == (stage in after) {
        assert stage in sorted;
        return None;
      }
      sides := sides[stage := if stage in before then Load else Store];
    }
    assert sorted[..|sorted|] == sorted;
    r := Some(sides);
  }

  /** Sides of all stages, from their topological order and the set of stages pinned to a
      compute unit. Fails exactly when the stage graph has another shape. */
  method ClassifyStageSides(deps: Graph, ghost stages: seq<StageId>, sorted: seq<StageId>,
                            pinnedToCompute: set<StageId>)
    returns (r: Option<map<StageId, StageSide>>)
    requires OverStages(deps, stages) && IsTopological(deps, stages, sorted) && pinnedToCompute <= Elems(stages)
    ensures r.Some? <==> Classifiable(deps, stages, pinnedToCompute)
    ensures r.Some? ==> IsClassification(deps, stages, pinnedToCompute, r.value)
  {
    assert forall s :: s in stages <==> s in Elems(stages);
    assert forall s :: s in stages <==> s in Elems(sorted);
    var anchors := set s | s in sorted && s in pinnedToCompute;
    assert anchors == pinnedToCompute;
    if anchors == {} {
      return None;
    }
    assert exists c :: c in anchors;
    var after := MarkAfter(deps, stages, sorted, anchors);
    var before := MarkBefore(deps, stages, sorted, anchors);
    r := AssignSides(sorted, anchors, before, after);
  }
}
