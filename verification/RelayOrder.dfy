/** What a permitted fold does to the order of the stages. */
module RelayOrder {
  import opened Wrappers
  import opened Digraph
  import opened RelayStages
  import opened RelayFolding

  /** Adding edges into one node keeps a graph acyclic if none of them starts at a node
      that the node reaches; other edges may shortcut what was connected before. */
  lemma EdgesIntoTarget(g: Graph, h: Graph, target: Node)
    requires Acyclic(g)
    requires forall x, y :: Edge(h, x, y) ==> Reaches(g, x, y) || (y == target && x != target && !Reaches(g, target, x))
    ensures Acyclic(h)
  {
    forall a | Reaches(h, a, a) ensures false {
      var p :| Connects(h, p, a, a);
      if target in p {
        var k :| 0 <= k < |p| && p[k] == target;
        if 0 < k < |p| - 1 {
          SubpathReaches(h, p, 0, k);
          SubpathReaches(h, p, k, |p| - 1);
          ReachTrans(h, target, a, target);
        }
        var q :| Connects(h, q, target, target);
        FromTarget(g, h, target, q, |q| - 1);
      } else {
        AvoidsTarget(g, h, target, p, |p| - 1);
      }
    }
  }

  lemma {:induction false} FromTarget(g: Graph, h: Graph, target: Node, p: seq<Node>, i: nat)
    requires forall x, y :: Edge(h, x, y) ==> Reaches(g, x, y) || (y == target && x != target && !Reaches(g, target, x))
    requires IsPath(h, p) && p[0] == target && 0 < i < |p|
    ensures Reaches(g, target, p[i])
  {
    assert Edge(h, p[i - 1], p[i - 1 + 1]);
    if i > 1 {
      FromTarget(g, h, target, p, i - 1);
      ReachTrans(g, target, p[i - 1], p[i]);
    }
  }

  lemma {:induction false} AvoidsTarget(g: Graph, h: Graph, target: Node, p: seq<Node>, i: nat)
    requires forall x, y :: Edge(h, x, y) ==> Reaches(g, x, y) || (y == target && x != target && !Reaches(g, target, x))
    requires IsPath(h, p) && target !in p && 0 < i < |p|
    ensures Reaches(g, p[0], p[i])
  {
    assert Edge(h, p[i - 1], p[i - 1 + 1]);
    if i > 1 {
      AvoidsTarget(g, h, target, p, i - 1);
      ReachTrans(g, p[0], p[i - 1], p[i]);
    }
  }

  // ----- Edges before and after a fold

  /** The fold is permitted, and the stages have an order to keep. */
  ghost predicate Permitted(stages: seq<Stage>, r: Relay, intoProducer: bool) {
    && DistinctIds(stages) && Passes(stages, r) && CanFold(stages, r, intoProducer)
    && Acyclic(GraphOf(stages))
  }

  /** The two transfers of the relay compose, units allow the fold, and the stages have an order. */
  ghost predicate MayFold(stages: seq<Stage>, r: Relay, intoProducer: bool) {
    DistinctIds(stages) && Mergeable(stages, r, intoProducer) && Acyclic(GraphOf(stages))
  }

  /** A token the donor awaits from the target comes from no other stage. */
  predicate OwnTokens(stages: seq<Stage>, r: Relay, intoProducer: bool)
    requires Passes(stages, r)
  {
    var target, donor := stages[Target(r, intoProducer)], stages[Donor(r, intoProducer)];
    forall k, t :: 0 <= k < |stages| && k != Target(r, intoProducer) && t in donor.dependsIn
                   && t in target.dependsOut ==>
      t !in stages[k].dependsOut
  }

  lemma NoSelfAwait(stages: seq<Stage>, k: nat)
    requires DistinctIds(stages) && Acyclic(GraphOf(stages)) && k < |stages|
    ensures !Awaits(stages[k], stages[k])
  {
    if Awaits(stages[k], stages[k]) {
      EdgeBetween(stages, stages[k], stages[k]);
      EdgeReaches(GraphOf(stages), stages[k].id, stages[k].id);
    }
  }

  lemma AwaitsReaches(stages: seq<Stage>, i: nat, j: nat)
    requires DistinctIds(stages) && i < |stages| && j < |stages| && Awaits(stages[j], stages[i])
    ensures Reaches(GraphOf(stages), stages[i].id, stages[j].id)
  {
    EdgeBetween(stages, stages[i], stages[j]);
    EdgeReaches(GraphOf(stages), stages[i].id, stages[j].id);
  }

  /** Exactly when one stage awaits another after the fold. */
  lemma AwaitsAfterFold(stages: seq<Stage>, r: Relay, intoProducer: bool, i: nat, j: nat)
    requires MayFold(stages, r, intoProducer) && i < |stages| && j < |stages|
    ensures var t, d := Target(r, intoProducer), Donor(r, intoProducer);
            Awaits(AfterFold(stages, r, intoProducer, j), AfterFold(stages, r, intoProducer, i)) <==>
            || Awaits(stages[j], stages[i])
            || (j == t && exists k :: k in stages[i].dependsOut && k in stages[d].dependsIn
                                      && k !in stages[t].dependsOut)
            || (ErasesDonor(stages, r, intoProducer) && Awaits(stages[j], stages[d]) && Awaits(stages[d], stages[i]))
  {
    var t, d := Target(r, intoProducer), Donor(r, intoProducer);
    KeepsId(stages, r, intoProducer, i);
    NoSelfAwait(stages, d);
    hide Passes, Acyclic, GraphOf, DistinctIds, CyclesAllow, AnchorsAllow, TokensAllow, TargetBody, DonorBody,
        MergeUnits, ErasesDonor;
    var before, half, after := stages[j], Halfway(stages, r, intoProducer, j), AfterFold(stages, r, intoProducer, j);
    var donor := stages[d];
    if j == t {
      assert half.dependsIn == before.dependsIn + Foreign(donor.dependsIn, before.dependsOut);
    } else {
      assert half.dependsIn == before.dependsIn;
    }
    assert Awaits(half, donor) <==> Awaits(before, donor);
    if ErasesDonor(stages, r, intoProducer) && Awaits(half, donor) {
      assert after.dependsIn == half.dependsIn + donor.dependsIn;
    } else {
      assert after.dependsIn == half.dependsIn;
    }
  }

  // ----- Whole paths

  function Before(stages: seq<Stage>): Graph
    requires DistinctIds(stages)
  {
    GraphOf(stages)
  }

  function After(stages: seq<Stage>, r: Relay, intoProducer: bool): Graph
    requires DistinctIds(stages) && Mergeable(stages, r, intoProducer)
  {
    FoldedStages(stages, r, intoProducer);
    GraphOf(Fold(stages, r, intoProducer))
  }

  lemma EdgeIndices(stages: seq<Stage>, x: StageId, y: StageId) returns (i: nat, j: nat)
    requires DistinctIds(stages) && Edge(GraphOf(stages), x, y)
    ensures i < |stages| && j < |stages| && stages[i].id == x && stages[j].id == y && Awaits(stages[j], stages[i])
  {
    EdgeMeansAwaits(stages, x, y);
    var a, b :| a in stages && b in stages && a.id == x && b.id == y && Awaits(b, a);
    i :| 0 <= i < |stages| && stages[i] == a;
    j :| 0 <= j < |stages| && stages[j] == b;
  }

  lemma SurvivorEdge(stages: seq<Stage>, r: Relay, intoProducer: bool, i: nat, j: nat)
    requires DistinctIds(stages) && Mergeable(stages, r, intoProducer)
    requires Survives(stages, r, intoProducer, i) && Survives(stages, r, intoProducer, j)
    ensures Edge(After(stages, r, intoProducer), stages[i].id, stages[j].id) <==>
            Awaits(AfterFold(stages, r, intoProducer, j), AfterFold(stages, r, intoProducer, i))
  {
    hide Mergeable, ErasesDonor, Fold, AfterFold, Awaits;
    FoldedStages(stages, r, intoProducer);
    KeepsId(stages, r, intoProducer, i);
    KeepsId(stages, r, intoProducer, j);
    EdgeBetween(Fold(stages, r, intoProducer), AfterFold(stages, r, intoProducer, i),
                AfterFold(stages, r, intoProducer, j));
  }

  lemma EdgeOfSurvivors(stages: seq<Stage>, r: Relay, intoProducer: bool, x: StageId, y: StageId)
    returns (i: nat, j: nat)
    requires DistinctIds(stages) && Mergeable(stages, r, intoProducer) && Edge(After(stages, r, intoProducer), x, y)
    ensures Survives(stages, r, intoProducer, i) && Survives(stages, r, intoProducer, j)
    ensures stages[i].id == x && stages[j].id == y
    ensures Awaits(AfterFold(stages, r, intoProducer, j), AfterFold(stages, r, intoProducer, i))
  {
    hide Passes, MergeUnits, ErasesDonor, Fold, AfterFold, Awaits, DistinctIds, GraphOf;
    FoldedStages(stages, r, intoProducer);
    var folded := Fold(stages, r, intoProducer);
    EdgeMeansAwaits(folded, x, y);
    var a, b :| a in folded && b in folded && a.id == x && b.id == y && Awaits(b, a);
    i :| Survives(stages, r, intoProducer, i) && a == AfterFold(stages, r, intoProducer, i);
    j :| Survives(stages, r, intoProducer, j) && b == AfterFold(stages, r, intoProducer, j);
    KeepsId(stages, r, intoProducer, i);
    KeepsId(stages, r, intoProducer, j);
  }

  lemma Basics(stages: seq<Stage>, r: Relay, intoProducer: bool)
    requires Permitted(stages, r, intoProducer)
    ensures DistinctIds(stages) && Mergeable(stages, r, intoProducer) && Passes(stages, r) && Acyclic(GraphOf(stages))
    ensures Target(r, intoProducer) < |stages| && Donor(r, intoProducer) < |stages|
    ensures Target(r, intoProducer) != Donor(r, intoProducer)
  {
  }

  lemma MayFoldBasics(stages: seq<Stage>, r: Relay, intoProducer: bool)
    requires MayFold(stages, r, intoProducer)
    ensures DistinctIds(stages) && Mergeable(stages, r, intoProducer) && Passes(stages, r) && Acyclic(GraphOf(stages))
    ensures Target(r, intoProducer) < |stages| && Donor(r, intoProducer) < |stages|
    ensures Target(r, intoProducer) != Donor(r, intoProducer)
  {
  }

  /** A fold leaves the stage graph acyclic exactly if no stage whose token the target takes over depends
      on the target. */
  lemma AcyclicAfterIff(stages: seq<Stage>, r: Relay, intoProducer: bool)
    requires MayFold(stages, r, intoProducer)
    ensures Passes(stages, r) && Target(r, intoProducer) < |stages|
    ensures Acyclic(After(stages, r, intoProducer)) <==>
            forall k :: 0 <= k < |stages| && k != Target(r, intoProducer)
                        && GivesForeign(stages, r, intoProducer, k) ==>
              !Reaches(GraphOf(stages), stages[Target(r, intoProducer)].id, stages[k].id)
  {
    MayFoldBasics(stages, r, intoProducer);
    var t := Target(r, intoProducer);
    hide MayFold, Mergeable, Passes, After, GraphOf, Acyclic, DistinctIds, Reaches, GivesForeign;
    forall k: nat | Acyclic(After(stages, r, intoProducer)) && k < |stages| && k != t
                    && GivesForeign(stages, r, intoProducer, k)
      ensures !Reaches(GraphOf(stages), stages[t].id, stages[k].id)
    {
      if Reaches(GraphOf(stages), stages[t].id, stages[k].id) {
        TakenOverMakesCycle(stages, r, intoProducer, k);
      }
    }
    if forall k :: 0 <= k < |stages| && k != t && GivesForeign(stages, r, intoProducer, k) ==>
                     !Reaches(GraphOf(stages), stages[t].id, stages[k].id) {
      NoneMakesCycle(stages, r, intoProducer);
    }
  }

  lemma TakenOverMakesCycle(stages: seq<Stage>, r: Relay, intoProducer: bool, k: nat)
    requires MayFold(stages, r, intoProducer) && Passes(stages, r) && k < |stages| && k != Target(r, intoProducer)
    requires Target(r, intoProducer) < |stages| && GivesForeign(stages, r, intoProducer, k)
    requires Reaches(GraphOf(stages), stages[Target(r, intoProducer)].id, stages[k].id)
    ensures !Acyclic(After(stages, r, intoProducer))
  {
    MayFoldBasics(stages, r, intoProducer);
    var t, d := Target(r, intoProducer), Donor(r, intoProducer);
    var h := After(stages, r, intoProducer);
    hide MayFold, Mergeable, Passes, After, GraphOf, AfterFold, ErasesDonor, Reaches, DistinctIds;
    assert Awaits(stages[d], stages[k]);
    NoSelfAwait(stages, d);
    assert k != d;
    AwaitsAfterFold(stages, r, intoProducer, k, t);
    SurvivorEdge(stages, r, intoProducer, k, t);
    EdgeReaches(h, stages[k].id, stages[t].id);
    SurvivorsKeepOrder(stages, r, intoProducer, t, k);
    ReachTrans(h, stages[t].id, stages[k].id, stages[t].id);
  }

  lemma NoneMakesCycle(stages: seq<Stage>, r: Relay, intoProducer: bool)
    requires MayFold(stages, r, intoProducer) && Passes(stages, r) && Target(r, intoProducer) < |stages|
    requires forall k :: 0 <= k < |stages| && k != Target(r, intoProducer)
                         && GivesForeign(stages, r, intoProducer, k) ==>
               !Reaches(GraphOf(stages), stages[Target(r, intoProducer)].id, stages[k].id)
    ensures Acyclic(After(stages, r, intoProducer))
  {
    MayFoldBasics(stages, r, intoProducer);
    hide MayFold, Mergeable, Passes, After, GraphOf, AfterFold, ErasesDonor, Acyclic, DistinctIds, Reaches,
        GivesForeign;
    var t := Target(r, intoProducer);
    var g, h := GraphOf(stages), After(stages, r, intoProducer);
    var target := stages[t].id;
    forall x, y | Edge(h, x, y)
      ensures Reaches(g, x, y) || (y == target && x != target && !Reaches(g, target, x))
    {
      var i, j := EdgeOfSurvivors(stages, r, intoProducer, x, y);
      SurvivorIndex(stages, r, intoProducer, i);
      SurvivorIndex(stages, r, intoProducer, j);
      EdgeOrigin(stages, r, intoProducer, i, j);
    }
    EdgesIntoTarget(g, h, target);
  }

  /** A permitted fold keeps the stage graph acyclic. */
  lemma FoldStaysAcyclic(stages: seq<Stage>, r: Relay, intoProducer: bool)
    requires Permitted(stages, r, intoProducer)
    ensures Acyclic(After(stages, r, intoProducer))
  {
    Basics(stages, r, intoProducer);
    CyclesAllowIff(stages, r, intoProducer);
    hide Mergeable, Passes, AnchorsAllow, TokensAllow, CyclesAllow, After, GraphOf, Acyclic, DistinctIds;
  }

  /** The check for cycles never lets one through, and if a token that the donor awaits from the target
      comes from no other stage, it stops nothing else. */
  lemma CyclesAllowIff(stages: seq<Stage>, r: Relay, intoProducer: bool)
    requires MayFold(stages, r, intoProducer)
    ensures Passes(stages, r)
    ensures CyclesAllow(stages, r, intoProducer) ==> Acyclic(After(stages, r, intoProducer))
    ensures OwnTokens(stages, r, intoProducer) ==>
              (CyclesAllow(stages, r, intoProducer) <==> Acyclic(After(stages, r, intoProducer)))
  {
    MayFoldBasics(stages, r, intoProducer);
    AcyclicAfterIff(stages, r, intoProducer);
    hide MayFold, Mergeable, Passes, After, GraphOf, Acyclic, DistinctIds, Reaches;
  }

  lemma EdgeOrigin(stages: seq<Stage>, r: Relay, intoProducer: bool, i: nat, j: nat)
    requires MayFold(stages, r, intoProducer) && i < |stages| && j < |stages| && Passes(stages, r)
    requires Target(r, intoProducer) < |stages|
    requires Awaits(AfterFold(stages, r, intoProducer, j), AfterFold(stages, r, intoProducer, i))
    ensures var g, t := GraphOf(stages), Target(r, intoProducer);
            || Reaches(g, stages[i].id, stages[j].id)
            || (stages[j].id == stages[t].id && stages[i].id != stages[t].id && i != t
                && GivesForeign(stages, r, intoProducer, i))
  {
    AwaitsAfterFold(stages, r, intoProducer, i, j);
    MayFoldBasics(stages, r, intoProducer);
    hide Passes, GraphOf, AfterFold, MergeUnits, Acyclic, Reaches;
    var t, d := Target(r, intoProducer), Donor(r, intoProducer);
    var g := GraphOf(stages);
    if Awaits(stages[j], stages[i]) {
      AwaitsReaches(stages, i, j);
    } else if Awaits(stages[j], stages[d]) && Awaits(stages[d], stages[i]) {
      AwaitsReaches(stages, i, d);
      AwaitsReaches(stages, d, j);
      ReachTrans(g, stages[i].id, stages[d].id, stages[j].id);
    } else {
      assert j == t && i != t && GivesForeign(stages, r, intoProducer, i);
    }
  }

  /** Orderings among the surviving stages are kept. */
  lemma SurvivorsKeepOrder(stages: seq<Stage>, r: Relay, intoProducer: bool, i: nat, j: nat)
    requires MayFold(stages, r, intoProducer)
    requires Survives(stages, r, intoProducer, i) && Survives(stages, r, intoProducer, j)
    requires Reaches(GraphOf(stages), stages[i].id, stages[j].id)
    ensures Reaches(After(stages, r, intoProducer), stages[i].id, stages[j].id)
  {
    MayFoldBasics(stages, r, intoProducer);
    hide MayFold, ErasesDonor, After, GraphOf;
    var p :| Connects(GraphOf(stages), p, stages[i].id, stages[j].id);
    PathSurvives(stages, r, intoProducer, i, j, p);
  }

  lemma {:induction false} PathSurvives(stages: seq<Stage>, r: Relay, intoProducer: bool, i: nat, j: nat,
                                        p: seq<StageId>)
    requires MayFold(stages, r, intoProducer)
    requires Survives(stages, r, intoProducer, i) && Survives(stages, r, intoProducer, j)
    requires Connects(GraphOf(stages), p, stages[i].id, stages[j].id)
    ensures Reaches(After(stages, r, intoProducer), stages[i].id, stages[j].id)
    decreases |p|
  {
    MayFoldBasics(stages, r, intoProducer);
    hide MayFold, Mergeable, After, GraphOf, AfterFold, Acyclic, Awaits, ErasesDonor;
    var h, d := After(stages, r, intoProducer), Donor(r, intoProducer);
    assert Edge(GraphOf(stages), p[0], p[0 + 1]);
    var i', k := EdgeIndices(stages, p[0], p[1]);
    assert i' == i;
    AwaitsAfterFold(stages, r, intoProducer, i, k);
    if Survives(stages, r, intoProducer, k) {
      SurvivorEdge(stages, r, intoProducer, i, k);
      StepThen(stages, r, intoProducer, i, k, j, p, 1);
    } else {
      assert k == d && |p| > 2;
      assert Edge(GraphOf(stages), p[1], p[1 + 1]);
      var d', m := EdgeIndices(stages, p[1], p[2]);
      assert d' == d;
      NoSelfAwait(stages, d);
      assert m != d;
      AwaitsAfterFold(stages, r, intoProducer, i, m);
      SurvivorEdge(stages, r, intoProducer, i, m);
      StepThen(stages, r, intoProducer, i, m, j, p, 2);
    }
  }

  lemma {:induction false} StepThen(stages: seq<Stage>, r: Relay, intoProducer: bool, i: nat, k: nat, j: nat,
                                    p: seq<StageId>, n: nat)
    requires MayFold(stages, r, intoProducer) && 0 < n < |p|
    requires Survives(stages, r, intoProducer, i) && Survives(stages, r, intoProducer, k)
             && Survives(stages, r, intoProducer, j)
    requires Connects(GraphOf(stages), p, stages[i].id, stages[j].id) && p[n] == stages[k].id
    requires Edge(After(stages, r, intoProducer), stages[i].id, stages[k].id)
    ensures Reaches(After(stages, r, intoProducer), stages[i].id, stages[j].id)
    decreases |p|, 0
  {
    MayFoldBasics(stages, r, intoProducer);
    hide MayFold, Mergeable, ErasesDonor, After, GraphOf, DistinctIds, IsPath;
    var h := After(stages, r, intoProducer);
    EdgeReaches(h, stages[i].id, stages[k].id);
    if n < |p| - 1 {
      SuffixConnects(GraphOf(stages), p, stages[i].id, stages[j].id, n);
      PathSurvives(stages, r, intoProducer, k, j, p[n..]);
      ReachTrans(h, stages[i].id, stages[k].id, stages[j].id);
    }
  }

  /** What was ordered before the donor is ordered before the target. */
  lemma BeforeDonorBeforeTarget(stages: seq<Stage>, r: Relay, intoProducer: bool, i: nat)
    requires Permitted(stages, r, intoProducer) && OwnTokens(stages, r, intoProducer)
    requires i < |stages| && i != Target(r, intoProducer)
    requires Reaches(GraphOf(stages), stages[i].id, stages[Donor(r, intoProducer)].id)
    ensures Reaches(After(stages, r, intoProducer), stages[i].id, stages[Target(r, intoProducer)].id)
  {
    var t, d := Target(r, intoProducer), Donor(r, intoProducer);
    Basics(stages, r, intoProducer);
    hide Permitted, Mergeable, After, GraphOf, Acyclic, AfterFold, ErasesDonor;
    var g, h := GraphOf(stages), After(stages, r, intoProducer);
    NoSelfReach(g, stages[d].id);
    assert i != d;
    var u := LastEdge(g, stages[i].id, stages[d].id);
    var k, d' := EdgeIndices(stages, u, stages[d].id);
    assert d' == d;
    NoSelfAwait(stages, d);
    assert k != d;
    if k == t {
      SurvivorsKeepOrder(stages, r, intoProducer, i, t);
    } else {
      AwaitsAfterFold(stages, r, intoProducer, k, t);
      SurvivorEdge(stages, r, intoProducer, k, t);
      EdgeReaches(h, stages[k].id, stages[t].id);
      if k != i {
        SurvivorsKeepOrder(stages, r, intoProducer, i, k);
        ReachTrans(h, stages[i].id, stages[k].id, stages[t].id);
      }
    }
  }

  lemma NoSelfReach(g: Graph, a: Node)
    requires Acyclic(g)
    ensures !Reaches(g, a, a)
  {
  }

  /** What was ordered after the donor is ordered after the target. */
  lemma AfterDonorAfterTarget(stages: seq<Stage>, r: Relay, intoProducer: bool, j: nat)
    requires Permitted(stages, r, intoProducer)
    requires j < |stages| && j != Target(r, intoProducer)
    requires Reaches(GraphOf(stages), stages[Donor(r, intoProducer)].id, stages[j].id)
    ensures Reaches(After(stages, r, intoProducer), stages[Target(r, intoProducer)].id, stages[j].id)
  {
    var t, d := Target(r, intoProducer), Donor(r, intoProducer);
    Basics(stages, r, intoProducer);
    hide Mergeable, CyclesAllow, AnchorsAllow, After, GraphOf, Acyclic, AfterFold, ErasesDonor, Reaches;
    var g, h := GraphOf(stages), After(stages, r, intoProducer);
    NoSelfReach(g, stages[d].id);
    assert j != d;
    var w := FirstEdge(g, stages[d].id, stages[j].id);
    var d', k := EdgeIndices(stages, stages[d].id, w);
    assert d' == d;
    NoSelfAwait(stages, d);
    assert k != d;
    if intoProducer {
      assert stages[k] in stages && Awaits(stages[d], stages[t]);
      AwaitsReaches(stages, t, d);
      AwaitsReaches(stages, d, k);
      ReachTrans(g, stages[t].id, stages[d].id, stages[k].id);
      if k != j {
        ReachTrans(g, stages[t].id, stages[k].id, stages[j].id);
      }
    } else {
      assert k == t;
    }
    SurvivorsKeepOrder(stages, r, intoProducer, t, j);
  }

  // ----- What comes before the target, exactly

  /** Stage x gives the donor a token that the target does not put out itself. */
  predicate GivesForeign(stages: seq<Stage>, r: Relay, intoProducer: bool, x: nat)
    requires Passes(stages, r) && x < |stages|
  {
    var target, donor := stages[Target(r, intoProducer)], stages[Donor(r, intoProducer)];
    exists k :: k in stages[x].dependsOut && k in donor.dependsIn && k !in target.dependsOut
  }

  /** Stage i was before the target already, or it is, or comes before, a stage from which
      the target takes a token over. */
  ghost predicate IsAhead(stages: seq<Stage>, r: Relay, intoProducer: bool, i: nat)
    requires Passes(stages, r) && DistinctIds(stages) && i < |stages|
  {
    var g, t := GraphOf(stages), Target(r, intoProducer);
    || Reaches(g, stages[i].id, stages[t].id)
    || exists x: nat :: x < |stages| && x != t && GivesForeign(stages, r, intoProducer, x)
                        && (x == i || Reaches(g, stages[i].id, stages[x].id))
  }

  /** The stages before the target after the fold are those, and no others. */
  lemma AheadOfTarget(stages: seq<Stage>, r: Relay, intoProducer: bool, i: nat)
    requires Permitted(stages, r, intoProducer)
    requires Survives(stages, r, intoProducer, i) && i != Target(r, intoProducer)
    ensures Reaches(After(stages, r, intoProducer), stages[i].id, stages[Target(r, intoProducer)].id)
            <==> IsAhead(stages, r, intoProducer, i)
  {
    var t := Target(r, intoProducer);
    Basics(stages, r, intoProducer);
    SurvivorIndex(stages, r, intoProducer, i);
    var h := After(stages, r, intoProducer);
    hide Permitted, Mergeable, Passes, After, GraphOf, Acyclic, AfterFold, ErasesDonor, IsAhead, Survives;
    if Reaches(h, stages[i].id, stages[t].id) {
      var p :| Connects(h, p, stages[i].id, stages[t].id);
      PathToTarget(stages, r, intoProducer, i, p);
    }
    if IsAhead(stages, r, intoProducer, i) {
      AheadStaysAhead(stages, r, intoProducer, i);
    }
  }

  /** Every stage that was before the donor is before the target. */
  ghost predicate KeepsBeforeDonor(stages: seq<Stage>, r: Relay, intoProducer: bool)
    requires DistinctIds(stages) && Mergeable(stages, r, intoProducer)
  {
    var t, d := Target(r, intoProducer), Donor(r, intoProducer);
    t < |stages| && d < |stages|
    && forall i :: 0 <= i < |stages| && i != t && Reaches(GraphOf(stages), stages[i].id, stages[d].id) ==>
         Reaches(After(stages, r, intoProducer), stages[i].id, stages[t].id)
  }

  /** Which is so exactly if each stage that the donor itself awaits is ahead of the target. */
  lemma KeepsBeforeDonorIff(stages: seq<Stage>, r: Relay, intoProducer: bool)
    requires Permitted(stages, r, intoProducer)
    ensures Mergeable(stages, r, intoProducer) && Passes(stages, r)
    ensures KeepsBeforeDonor(stages, r, intoProducer) <==>
            forall k :: 0 <= k < |stages| && k != Target(r, intoProducer)
                        && Awaits(stages[Donor(r, intoProducer)], stages[k]) ==>
              IsAhead(stages, r, intoProducer, k)
  {
    Basics(stages, r, intoProducer);
    var t, d := Target(r, intoProducer), Donor(r, intoProducer);
    hide Permitted, Mergeable, Passes, After, GraphOf, Acyclic, AfterFold, ErasesDonor, IsAhead, Awaits, Reaches,
        DistinctIds;
    forall k | KeepsBeforeDonor(stages, r, intoProducer) && 0 <= k < |stages| && k != t && Awaits(stages[d], stages[k])
      ensures IsAhead(stages, r, intoProducer, k)
    {
      AwaitsReaches(stages, k, d);
      BeforeDonorSurvives(stages, r, intoProducer, k);
      AheadOfTarget(stages, r, intoProducer, k);
    }
    forall i | 0 <= i < |stages| && i != t && Reaches(GraphOf(stages), stages[i].id, stages[d].id)
               && forall k :: 0 <= k < |stages| && k != t && Awaits(stages[d], stages[k]) ==>
                                IsAhead(stages, r, intoProducer, k)
      ensures Reaches(After(stages, r, intoProducer), stages[i].id, stages[t].id)
    {
      ThroughAwaited(stages, r, intoProducer, i);
      BeforeDonorSurvives(stages, r, intoProducer, i);
      AheadOfTarget(stages, r, intoProducer, i);
    }
  }

  lemma BeforeDonorSurvives(stages: seq<Stage>, r: Relay, intoProducer: bool, i: nat)
    requires Permitted(stages, r, intoProducer) && i < |stages|
    requires Reaches(GraphOf(stages), stages[i].id, stages[Donor(r, intoProducer)].id)
    ensures Survives(stages, r, intoProducer, i)
  {
    Basics(stages, r, intoProducer);
    NoSelfReach(GraphOf(stages), stages[Donor(r, intoProducer)].id);
    hide Permitted, Mergeable, Passes, GraphOf, Acyclic, Reaches;
  }

  /** What is before the donor is ahead if what the donor awaits is. */
  lemma ThroughAwaited(stages: seq<Stage>, r: Relay, intoProducer: bool, i: nat)
    requires Permitted(stages, r, intoProducer) && i < |stages| && Passes(stages, r)
    requires Reaches(GraphOf(stages), stages[i].id, stages[Donor(r, intoProducer)].id) && i != Target(r, intoProducer)
    requires forall k :: 0 <= k < |stages| && k != Target(r, intoProducer)
                         && Awaits(stages[Donor(r, intoProducer)], stages[k]) ==>
               IsAhead(stages, r, intoProducer, k)
    ensures IsAhead(stages, r, intoProducer, i)
  {
    var t, d := Target(r, intoProducer), Donor(r, intoProducer);
    Basics(stages, r, intoProducer);
    hide Permitted, Mergeable, Passes, GraphOf, Acyclic, DistinctIds, Awaits, GivesForeign;
    var g := GraphOf(stages);
    var u := LastEdge(g, stages[i].id, stages[d].id);
    var k, d' := EdgeIndices(stages, u, stages[d].id);
    SameIndex(stages, d', d);
    if k == t {
      if k != i {
        assert Reaches(g, stages[i].id, stages[t].id);
      }
    } else if k != i {
      hide IsAhead, Reaches;
      AheadOfAhead(stages, r, intoProducer, i, k);
    } else {
      SameIndex(stages, k, i);
    }
  }

  lemma SameIndex(stages: seq<Stage>, i: nat, j: nat)
    requires DistinctIds(stages) && i < |stages| && j < |stages| && stages[i].id == stages[j].id
    ensures i == j
  {
  }

  lemma AheadStaysAhead(stages: seq<Stage>, r: Relay, intoProducer: bool, i: nat)
    requires Permitted(stages, r, intoProducer)
    requires Survives(stages, r, intoProducer, i) && i != Target(r, intoProducer) && IsAhead(stages, r, intoProducer, i)
    ensures Reaches(After(stages, r, intoProducer), stages[i].id, stages[Target(r, intoProducer)].id)
  {
    var t, d := Target(r, intoProducer), Donor(r, intoProducer);
    Basics(stages, r, intoProducer);
    var g, h := GraphOf(stages), After(stages, r, intoProducer);
    hide Permitted, Mergeable, Passes, After, GraphOf, Acyclic, AfterFold, Reaches, ErasesDonor;
    if Reaches(g, stages[i].id, stages[t].id) {
      SurvivorsKeepOrder(stages, r, intoProducer, i, t);
    } else {
      var x: nat :| x < |stages| && x != t && GivesForeign(stages, r, intoProducer, x)
                    && (x == i || Reaches(g, stages[i].id, stages[x].id));
      NoSelfAwait(stages, d);
      assert Awaits(stages[d], stages[x]);
      assert x != d;
      AwaitsAfterFold(stages, r, intoProducer, x, t);
      SurvivorEdge(stages, r, intoProducer, x, t);
      EdgeReaches(h, stages[x].id, stages[t].id);
      if x != i {
        SurvivorsKeepOrder(stages, r, intoProducer, i, x);
        ReachTrans(h, stages[i].id, stages[x].id, stages[t].id);
      }
    }
  }

  lemma {:induction false} PathToTarget(stages: seq<Stage>, r: Relay, intoProducer: bool, i: nat, p: seq<StageId>)
    requires Permitted(stages, r, intoProducer)
    requires Survives(stages, r, intoProducer, i) && i != Target(r, intoProducer)
    requires Connects(After(stages, r, intoProducer), p, stages[i].id, stages[Target(r, intoProducer)].id)
    ensures IsAhead(stages, r, intoProducer, i)
    decreases |p|
  {
    var t := Target(r, intoProducer);
    Basics(stages, r, intoProducer);
    SurvivorIndex(stages, r, intoProducer, i);
    var h, g := After(stages, r, intoProducer), GraphOf(stages);
    hide Permitted, Mergeable, Passes, After, GraphOf, Acyclic, AfterFold, ErasesDonor, Survives, Reaches, Awaits,
        GivesForeign;
    assert Edge(h, p[0], p[0 + 1]);
    var i', k := EdgeOfSurvivors(stages, r, intoProducer, p[0], p[1]);
    SurvivorIndex(stages, r, intoProducer, i');
    SurvivorIndex(stages, r, intoProducer, k);
    assert i' == i;
    if k == t {
      StepToTarget(stages, r, intoProducer, i);
    } else {
      EdgeOrigin(stages, r, intoProducer, i, k);
      assert stages[k].id != stages[t].id;
      assert |p| > 2;
      SuffixConnects(h, p, stages[i].id, stages[t].id, 1);
      PathToTarget(stages, r, intoProducer, k, p[1..]);
      AheadOfAhead(stages, r, intoProducer, i, k);
    }
  }

  lemma StepToTarget(stages: seq<Stage>, r: Relay, intoProducer: bool, i: nat)
    requires Permitted(stages, r, intoProducer) && i < |stages| && i != Target(r, intoProducer)
    requires Awaits(AfterFold(stages, r, intoProducer, Target(r, intoProducer)), AfterFold(stages, r, intoProducer, i))
    ensures IsAhead(stages, r, intoProducer, i)
  {
    var t, d := Target(r, intoProducer), Donor(r, intoProducer);
    Basics(stages, r, intoProducer);
    AwaitsAfterFold(stages, r, intoProducer, i, t);
    hide Permitted, Mergeable, Passes, GraphOf, Acyclic, AfterFold, ErasesDonor, Reaches, Awaits;
    var g := GraphOf(stages);
    if Awaits(stages[t], stages[i]) {
      AwaitsReaches(stages, i, t);
    } else if Awaits(stages[t], stages[d]) && Awaits(stages[d], stages[i]) {
      AwaitsReaches(stages, i, d);
      AwaitsReaches(stages, d, t);
      ReachTrans(g, stages[i].id, stages[d].id, stages[t].id);
    } else {
      assert GivesForeign(stages, r, intoProducer, i);
    }
  }

  lemma AheadOfAhead(stages: seq<Stage>, r: Relay, intoProducer: bool, i: nat, k: nat)
    requires Passes(stages, r) && DistinctIds(stages) && i < |stages| && k < |stages|
    requires Reaches(GraphOf(stages), stages[i].id, stages[k].id) && IsAhead(stages, r, intoProducer, k)
    ensures IsAhead(stages, r, intoProducer, i)
  {
    var g, t := GraphOf(stages), Target(r, intoProducer);
    SurvivorIndex(stages, r, intoProducer, t);
    hide Passes, GraphOf, GivesForeign, Reaches;
    if Reaches(g, stages[k].id, stages[t].id) {
      ReachTrans(g, stages[i].id, stages[k].id, stages[t].id);
    } else {
      var x: nat :| x < |stages| && x != t && GivesForeign(stages, r, intoProducer, x)
                    && (x == k || Reaches(g, stages[k].id, stages[x].id));
      if x != k {
        ReachTrans(g, stages[i].id, stages[k].id, stages[x].id);
      }
    }
  }

  // ----- Shared tokens

  /** A slot from one memory to another, passed by stage 0 to stage 2; token 7 is put out by
      stage 0 and by stage 1, and stage 2 awaits it. */
  function SharedToken(): seq<Stage> {
    var slot := Slot(0, "A", "B");
    [Stage(0, [Move(Transfer(InMemory("L", 0, 0), [1], InSlot(slot), [1], Copy, None))], [], [7], None),
     Stage(1, [Other([])], [], [7], None),
     Stage(2, [Move(Transfer(InSlot(slot), [1], InMemory("M", 0, 0), [1], Copy, None))], [7], [], None)]
  }

  lemma SharedTokenEdges(x: StageId, y: StageId)
    ensures DistinctIds(SharedToken())
    ensures Edge(GraphOf(SharedToken()), x, y) <==> (x == 0 || x == 1) && y == 2
  {
    var stages := SharedToken();
    assert stages[0] in stages && stages[1] in stages && stages[2] in stages;
    SharedTokenIds();
    SharedTokenAwaits();
    EdgeMeansAwaits(stages, x, y);
    hide GraphOf, Edge, Awaits, DistinctIds;
    assert forall a :: a in stages ==> a == stages[0] || a == stages[1] || a == stages[2];
  }

  lemma SharedTokenIds()
    ensures DistinctIds(SharedToken())
  {
  }

  lemma SharedTokenAwaits()
    ensures forall i, j :: 0 <= i < 3 && 0 <= j < 3 ==>
              (Awaits(SharedToken()[j], SharedToken()[i]) <==> (i == 0 || i == 1) && j == 2)
  {
    var stages := SharedToken();
    assert 7 in stages[0].dependsOut && 7 in stages[1].dependsOut && 7 in stages[2].dependsIn;
  }

  lemma SharedTokenReach(x: StageId, y: StageId)
    requires Reaches(GraphOf(SharedToken()), x, y)
    ensures x != 2 && y == 2
  {
    var g := GraphOf(SharedToken());
    var p :| Connects(g, p, x, y);
    assert Edge(g, p[0], p[0 + 1]) && Edge(g, p[|p| - 2], p[|p| - 2 + 1]);
    SharedTokenEdges(p[0], p[1]);
    SharedTokenEdges(p[|p| - 2], p[|p| - 1]);
  }

  /** Three stages use the slot as often as their bodies do, together. */
  lemma UsesOfThree(a: Stage, b: Stage, c: Stage, slot: Slot)
    ensures Uses([a, b, c], slot) == BodyUses(a.body, slot) + BodyUses(b.body, slot) + BodyUses(c.body, slot)
  {
    hide BodyUses;
    assert Uses([], slot) == 0;
    assert [c][1..] == [] && Uses([c], slot) == BodyUses(c.body, slot);
    assert [b, c][1..] == [c] && Uses([b, c], slot) == BodyUses(b.body, slot) + Uses([c], slot);
    assert [a, b, c][1..] == [b, c];
  }

  lemma BodyUsesOfOne(op: Op, slot: Slot)
    ensures BodyUses([op], slot) == OpUses(op, slot)
  {
    assert [op][1..] == [] && BodyUses([], slot) == 0;
  }

  lemma SharedTokenUses()
    ensures Uses(SharedToken(), Slot(0, "A", "B")) == 2
  {
    var stages, slot := SharedToken(), Slot(0, "A", "B");
    BodyUsesOfOne(stages[0].body[0], slot);
    BodyUsesOfOne(stages[1].body[0], slot);
    BodyUsesOfOne(stages[2].body[0], slot);
    hide Uses, BodyUses;
    assert stages[0].body == [stages[0].body[0]] && stages[1].body == [stages[1].body[0]]
           && stages[2].body == [stages[2].body[0]];
    UsesOfThree(stages[0], stages[1], stages[2], slot);
    assert stages == [stages[0], stages[1], stages[2]];
  }

  lemma SharedTokenPasses()
    ensures Passes(SharedToken(), Relay(0, 0, 2, 0))
  {
    SharedTokenUses();
    hide Uses, BodyUses;
  }

  lemma SharedTokenFolds()
    requires Passes(SharedToken(), Relay(0, 0, 2, 0)) && DistinctIds(SharedToken())
    ensures CanFold(SharedToken(), Relay(0, 0, 2, 0), true)
  {
    SharedTokenAnchors();
    hide Passes, IsRelay, GraphOf, Reaches, AnchorsAllow;
    var stages, r := SharedToken(), Relay(0, 0, 2, 0);
    if Reaches(GraphOf(stages), 0, 1) {
      SharedTokenReach(0, 1);
    }
    forall k | 0 <= k < |stages| && k != 0 && Awaits(stages[2], stages[k])
      ensures !Reaches(GraphOf(stages), 0, stages[k].id)
    {
      assert k != 2;
    }
    assert TokensAllow(stages, r, true) && CyclesAllow(stages, r, true);
  }

  /** What the two stages hold after the fold. */
  lemma SharedTokenBodies()
    requires Passes(SharedToken(), Relay(0, 0, 2, 0))
    ensures DonorBody(SharedToken(), Relay(0, 0, 2, 0), true) == []
    ensures TargetBody(SharedToken(), Relay(0, 0, 2, 0), true)
              == [Move(Transfer(InMemory("L", 0, 0), [1], InMemory("M", 0, 0), [1], Copy, None))]
  {
    hide Uses;
  }

  lemma SharedTokenAnchorsAre()
    ensures var stages := SharedToken();
            && AnchorsOf(stages[0]) == [Anchor("L", true)] && AnchorsOf(stages[1]) == []
               && AnchorsOf(stages[2]) == [Anchor("M", false)]
            && AnchorsOf(stages[2].(body := [])) == []
  {
  }

  lemma SharedTokenFoldedAnchors()
    ensures var folded := [Move(Transfer(InMemory("L", 0, 0), [1], InMemory("M", 0, 0), [1], Copy, None))];
            AnchorsOf(SharedToken()[0].(body := folded)) == [Anchor("L", true), Anchor("M", false)]
  {
  }

  lemma SharedTokenAnchors()
    requires Passes(SharedToken(), Relay(0, 0, 2, 0))
    ensures AnchorsAllow(SharedToken(), Relay(0, 0, 2, 0), true)
  {
    SharedTokenBodies();
    SharedTokenAnchorsAre();
    SharedTokenFoldedAnchors();
    hide Passes, TargetBody, DonorBody, AnchorsOf, Uses;
  }

  /** A fold that is permitted loses an order: stage 1 comes before the donor and not before
      the target, which puts out the token that stage 1 was awaited for. */
  lemma SharedTokenLosesOrder()
    ensures var stages, r := SharedToken(), Relay(0, 0, 2, 0);
            && Permitted(stages, r, true) && !OwnTokens(stages, r, true)
            && Reaches(GraphOf(stages), 1, 2) && !Reaches(After(stages, r, true), 1, 0)
  {
    hide Uses, GraphOf, Reaches, After, CanFold, Fold, Acyclic;
    var stages, r := SharedToken(), Relay(0, 0, 2, 0);
    SharedTokenEdges(1, 2);
    EdgeReaches(GraphOf(stages), 1, 2);
    SharedTokenPasses();
    SharedTokenFolds();
    SharedTokenIsAcyclic();
    assert 7 in stages[1].dependsOut && 7 in stages[2].dependsIn && 7 in stages[0].dependsOut;
    AheadOfTarget(stages, r, true, 1);
    if Reaches(GraphOf(stages), 1, 0) {
      SharedTokenReach(1, 0);
    }
    assert !IsAhead(stages, r, true, 1);
  }

  lemma SharedTokenIsAcyclic()
    ensures DistinctIds(SharedToken()) && Acyclic(GraphOf(SharedToken()))
  {
    hide GraphOf;
    forall x | Reaches(GraphOf(SharedToken()), x, x) ensures false {
      SharedTokenReach(x, x);
    }
  }
}
