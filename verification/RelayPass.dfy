/** The pass that folds FIFO relays: finding the first relay that can fold, folding it, and
    doing so until none is left. */
module RelayPass {
  import opened Wrappers
  import opened Digraph
  import RoutingGraph
  import opened RelayStages
  import opened RelayFolding
  import opened RelayOrder
  import opened RelayMoves
  import opened Sequences

  // ----- Every fold takes away one op

  function TotalOps(stages: seq<Stage>): nat {
    if stages == [] then 0 else |stages[0].body| + TotalOps(stages[1..])
  }

  lemma {:induction false} TotalOpsConcat(a: seq<Stage>, b: seq<Stage>)
    ensures TotalOps(a + b) == TotalOps(a) + TotalOps(b)
  {
    if a == [] {
      assert a + b == b;
    } else {
      assert (a + b)[1..] == a[1..] + b;
      TotalOpsConcat(a[1..], b);
    }
  }

  lemma TotalOpsAt(stages: seq<Stage>, i: nat)
    requires i < |stages|
    ensures TotalOps(stages) == TotalOps(stages[..i]) + |stages[i].body| + TotalOps(stages[i + 1..])
  {
    assert stages == stages[..i] + ([stages[i]] + stages[i + 1..]);
    TotalOpsConcat(stages[..i], [stages[i]] + stages[i + 1..]);
    assert ([stages[i]] + stages[i + 1..])[1..] == stages[i + 1..];
  }

  lemma TotalOpsAfterUpdate(stages: seq<Stage>, i: nat, s: Stage)
    requires i < |stages|
    ensures TotalOps(stages[i := s]) == TotalOps(stages) - |stages[i].body| + |s.body|
  {
    TotalOpsAt(stages, i);
    TotalOpsAt(stages[i := s], i);
    assert stages[i := s][..i] == stages[..i] && stages[i := s][i + 1..] == stages[i + 1..];
  }

  lemma {:induction false} TotalOpsDependOnBodies(a: seq<Stage>, b: seq<Stage>)
    requires |a| == |b| && forall i :: 0 <= i < |a| ==> a[i].body == b[i].body
    ensures TotalOps(a) == TotalOps(b)
  {
    if a != [] {
      TotalOpsDependOnBodies(a[1..], b[1..]);
    }
  }

  lemma FoldDropsOneOp(stages: seq<Stage>, r: Relay, intoProducer: bool)
    requires Mergeable(stages, r, intoProducer)
    ensures TotalOps(Fold(stages, r, intoProducer)) == TotalOps(stages) - 1
  {
    OpsOfNewBodies(stages, r, intoProducer);
    AllHaveNewBodies(stages, r, intoProducer);
    var d := Donor(r, intoProducer);
    assert ErasesDonor(stages, r, intoProducer) ==> NewBodies(stages, r, intoProducer)[d].body == [];
    hide Passes, AllAfter, NewBodies, MergeUnits, ErasesDonor, TotalOps, AfterFold, TargetBody, DonorBody, Donor,
        Target;
    var all := AllAfter(stages, r, intoProducer);
    TotalOpsDependOnBodies(all, NewBodies(stages, r, intoProducer));
    hide Without;
    if ErasesDonor(stages, r, intoProducer) {
      OpsWithoutEmpty(all, d);
    }
  }

  lemma OpsWithoutEmpty(stages: seq<Stage>, d: nat)
    requires d < |stages| && stages[d].body == []
    ensures TotalOps(Without(stages, d)) == TotalOps(stages)
  {
    TotalOpsAt(stages, d);
    TotalOpsConcat(stages[..d], stages[d + 1..]);
  }

  lemma OpsOfNewBodies(stages: seq<Stage>, r: Relay, intoProducer: bool)
    requires Passes(stages, r)
    ensures TotalOps(NewBodies(stages, r, intoProducer)) == TotalOps(stages) - 1
  {
    hide Uses, TotalOps;
    var t, d := Target(r, intoProducer), Donor(r, intoProducer);
    var target := stages[t].(body := TargetBody(stages, r, intoProducer));
    var donor := stages[d].(body := DonorBody(stages, r, intoProducer));
    TotalOpsAfterUpdate(stages, t, target);
    TotalOpsAfterUpdate(stages[t := target], d, donor);
  }

  // ----- Deciding

  /** Whether stage k depends on stage t, directly or not. */
  method DependsOn(stages: seq<Stage>, k: nat, t: nat) returns (b: bool)
    requires DistinctIds(stages) && k < |stages| && t < |stages| && k != t
    ensures b <==> Reaches(GraphOf(stages), stages[t].id, stages[k].id)
  {
    var g := GraphOf(stages);
    var known := set s | s in stages :: s.id;
    forall x, y | Edge(g, x, y) ensures y in known {
      EdgeMeansAwaits(stages, x, y);
    }
    assert stages[t] in stages;
    var source, target := stages[t].id, stages[k].id;
    var visited, predecessor, f := RoutingGraph.Search(g, known, source, target);
    RoutingGraph.ReachesIsPath(g, source, target);
    if target in visited {
      var path := RoutingGraph.TracePath(g, source, target, predecessor, f);
      return true;
    }
    forall q | RoutingGraph.PathBetween(g, q, source, target) ensures false {
      RoutingGraph.PathStaysVisited(g, source, f, |q|, q, |q| - 1);
    }
    return false;
  }

  method CheckCycles(stages: seq<Stage>, r: Relay, intoProducer: bool) returns (ok: bool)
    requires DistinctIds(stages) && IsRelay(stages, r)
    ensures ok <==> CyclesAllow(stages, r, intoProducer)
  {
    hide IsRelay, GraphOf, Reaches, Awaits, DistinctIds;
    RelayIndices(stages, r);
    var t, d := Target(r, intoProducer), Donor(r, intoProducer);
    for k := 0 to |stages|
      invariant forall m :: 0 <= m < k && m != t && Awaits(stages[d], stages[m]) ==>
                  !Reaches(GraphOf(stages), stages[t].id, stages[m].id)
    {
      if k != t && Awaits(stages[d], stages[k]) {
        var depends := DependsOn(stages, k, t);
        if depends {
          return false;
        }
      }
    }
    return true;
  }

  lemma RelayIndices(stages: seq<Stage>, r: Relay)
    requires IsRelay(stages, r)
    ensures r.p < |stages| && r.c < |stages| && r.p != r.c
  {
  }

  method DecideFold(stages: seq<Stage>, r: Relay, intoProducer: bool) returns (ok: bool)
    requires DistinctIds(stages) && Passes(stages, r)
    ensures ok <==> CanFold(stages, r, intoProducer)
    ensures ok ==> Mergeable(stages, r, intoProducer)
  {
    hide TokensAllow, CyclesAllow, AnchorsAllow, Mergeable, DistinctIds;
    if !TokensAllow(stages, r, intoProducer) {
      return false;
    }
    var cycles := CheckCycles(stages, r, intoProducer);
    if !cycles {
      return false;
    }
    return AnchorsAllow(stages, r, intoProducer) && Mergeable(stages, r, intoProducer);
  }

  /** The relay that starts at op i of stage p, if it is one. */
  method FindRelay(stages: seq<Stage>, p: nat, i: nat) returns (r: Option<Relay>)
    requires At(stages, p, i) && OnlyTransfers(stages[p])
    ensures r.Some? ==> r.value.p == p && r.value.i == i && IsRelay(stages, r.value)
    ensures r.None? ==> forall c, j :: !IsRelay(stages, Relay(p, i, c, j))
  {
    var incoming := stages[p].body[i].transfer;
    if !incoming.source.InMemory? || !incoming.dest.InSlot? {
      return None;
    }
    var slot := incoming.dest.slot;
    if Uses(stages, slot) != 2 {
      return None;
    }
    var found, c, j := FindOtherUser(stages, p, i, slot);
    if !found {
      return None;
    }
    forall c', j' | IsRelay(stages, Relay(p, i, c', j')) ensures c' == c && j' == j {
      if (c', j') != (c, j) {
        ThreeOpsUse(stages, p, i, c, j, c', j', slot);
      }
    }
    var candidate := Relay(p, i, c, j);
    r := if IsRelay(stages, candidate) then Some(candidate) else None;
  }

  /** An op other than op i of stage p that uses the slot. */
  method FindOtherUser(stages: seq<Stage>, p: nat, i: nat, slot: Slot) returns (found: bool, c: nat, j: nat)
    requires At(stages, p, i)
    ensures found ==> At(stages, c, j) && (c, j) != (p, i) && OpUses(stages[c].body[j], slot) > 0
    ensures !found ==> forall q: nat, m: nat ::
                         At(stages, q, m) && (q, m) != (p, i) ==> OpUses(stages[q].body[m], slot) == 0
  {
    found, c, j := false, 0, 0;
    for q := 0 to |stages|
      invariant forall q': nat, m: nat ::
                  At(stages, q', m) && q' < q && (q', m) != (p, i) ==> OpUses(stages[q'].body[m], slot) == 0
    {
      for m := 0 to |stages[q].body|
        invariant forall m' :: 0 <= m' < m && (q, m') != (p, i) ==> OpUses(stages[q].body[m'], slot) == 0
      {
        if (q, m) != (p, i) && OpUses(stages[q].body[m], slot) > 0 {
          return true, q, m;
        }
      }
    }
  }

  // ----- Folding

  /** Carries out a fold step by step. */
  method FoldRelay(stages0: seq<Stage>, r: Relay, intoProducer: bool) returns (stages: seq<Stage>)
    requires Mergeable(stages0, r, intoProducer)
    ensures stages == Fold(stages0, r, intoProducer)
  {
    var t, d := Target(r, intoProducer), Donor(r, intoProducer);
    var donor := stages0[d];
    stages := stages0[t := FoldedTarget(stages0, r, intoProducer)];
    stages := stages[d := donor.(body := DonorBody(stages0, r, intoProducer))];
    assert forall k :: 0 <= k < |stages| ==> stages[k] == Halfway(stages0, r, intoProducer, k);
    if stages[d].body != [] {
      assert stages == AllAfter(stages0, r, intoProducer);
      return;
    }
    hide Mergeable, Halfway, DonorBody, Awaits;
    for k := 0 to |stages|
      invariant |stages| == |stages0|
      invariant forall m :: 0 <= m < |stages| ==>
                  stages[m] == if m < k then AfterFold(stages0, r, intoProducer, m)
                    else Halfway(stages0, r, intoProducer, m)
    {
      if Awaits(stages[k], donor) {
        stages := stages[k := stages[k].(dependsIn := stages[k].dependsIn + donor.dependsIn)];
      }
    }
    assert stages == AllAfter(stages0, r, intoProducer);
    stages := stages[..d] + stages[d + 1..];
  }

  /** The fold into the consumer is tried first if only that empties the other stage. */
  predicate ConsumerFirst(stages: seq<Stage>, r: Relay)
    requires IsRelay(stages, r)
  {
    |stages[r.p].body| == 1 && |stages[r.c].body| != 1
  }

  /** The consumer is tried first exactly if only a fold into it leaves nothing of the other stage. */
  lemma FirstChoiceErases(stages: seq<Stage>, r: Relay)
    requires Passes(stages, r)
    ensures ConsumerFirst(stages, r) <==> ErasesDonor(stages, r, false) && !ErasesDonor(stages, r, true)
  {
    hide Uses, OnlyTransfers, IsComposable;
    assert |DonorBody(stages, r, true)| == |stages[r.c].body| - 1;
    assert |DonorBody(stages, r, false)| == |stages[r.p].body| - 1;
  }

  /** The relay cannot fold either way. */
  ghost predicate Stuck(stages: seq<Stage>, r: Relay)
    requires DistinctIds(stages)
  {
    Passes(stages, r) ==> !CanFold(stages, r, true) && !CanFold(stages, r, false)
  }

  ghost predicate StartsBefore(r: Relay, p: nat, i: nat) {
    r.p < p || (r.p == p && r.i < i)
  }

  /** What folding the first relay does. */
  ghost predicate FoldsFirst(stages: seq<Stage>, r: Relay, intoProducer: bool, stages': seq<Stage>)
    requires DistinctIds(stages)
  {
    && Passes(stages, r) && CanFold(stages, r, intoProducer) && stages' == Fold(stages, r, intoProducer)
    && (intoProducer == ConsumerFirst(stages, r) ==> !CanFold(stages, r, !intoProducer))
    && forall r' :: StartsBefore(r', r.p, r.i) ==> Stuck(stages, r')
  }

  /** Tries the relay that starts at op i of stage p in both directions. */
  method TryFold(stages: seq<Stage>, p: nat, i: nat)
    returns (folded: bool, stages': seq<Stage>, ghost r: Relay, ghost intoProducer: bool)
    requires DistinctIds(stages) && At(stages, p, i) && OnlyTransfers(stages[p])
    ensures folded ==> r.p == p && r.i == i && Passes(stages, r) && CanFold(stages, r, intoProducer)
                       && stages' == Fold(stages, r, intoProducer)
                       && (intoProducer == ConsumerFirst(stages, r) ==> !CanFold(stages, r, !intoProducer))
    ensures !folded ==> stages' == stages && forall c, j :: Stuck(stages, Relay(p, i, c, j))
  {
    hide CanFold, Fold, Uses, DistinctIds;
    folded, stages', r, intoProducer := false, stages, Relay(p, i, p, i), true;
    var found := FindRelay(stages, p, i);
    if found.None? {
      return;
    }
    var relay := found.value;
    forall c, j | IsRelay(stages, Relay(p, i, c, j)) ensures Relay(p, i, c, j) == relay {
      SameRelay(stages, relay, Relay(p, i, c, j));
    }
    if !IsComposable(In(stages, relay), Out(stages, relay)) {
      return;
    }
    r := relay;
    var consumerFirst := ConsumerFirst(stages, relay);
    var ok := DecideFold(stages, relay, !consumerFirst);
    if ok {
      intoProducer := !consumerFirst;
      stages' := FoldRelay(stages, relay, !consumerFirst);
      folded := true;
      return;
    }
    ok := DecideFold(stages, relay, consumerFirst);
    if ok {
      intoProducer := consumerFirst;
      stages' := FoldRelay(stages, relay, consumerFirst);
      folded := true;
    }
  }

  lemma SameRelay(stages: seq<Stage>, a: Relay, b: Relay)
    requires IsRelay(stages, a) && IsRelay(stages, b) && a.p == b.p && a.i == b.i
    ensures a == b
  {
    if (a.c, a.j) != (b.c, b.j) {
      ThreeOpsUse(stages, a.p, a.i, a.c, a.j, b.c, b.j, In(stages, a).dest.slot);
    }
  }

  /** Folds the first relay that can fold, in stage order. */
  method FoldFirstRelay(stages: seq<Stage>)
    returns (folded: bool, stages': seq<Stage>, ghost r: Relay, ghost intoProducer: bool)
    requires DistinctIds(stages)
    ensures folded ==> FoldsFirst(stages, r, intoProducer, stages')
    ensures !folded ==> stages' == stages && forall r' :: Stuck(stages, r')
  {
    hide CanFold, Fold, DistinctIds;
    folded, stages', r, intoProducer := false, stages, Relay(0, 0, 0, 0), true;
    for p := 0 to |stages|
      invariant !folded && stages' == stages
      invariant forall r' :: StartsBefore(r', p, 0) ==> Stuck(stages, r')
    {
      if !OnlyTransfers(stages[p]) {
        continue;
      }
      for i := 0 to |stages[p].body|
        invariant !folded && stages' == stages
        invariant forall r' :: StartsBefore(r', p, i) ==> Stuck(stages, r')
      {
        folded, stages', r, intoProducer := TryFold(stages, p, i);
        if folded {
          return;
        }
        assert forall r': Relay :: r' == Relay(r'.p, r'.i, r'.c, r'.j);
      }
    }
  }

  // ----- The whole pass

  /** Every token is put out by one stage at most. */
  predicate SoleProducers(stages: seq<Stage>) {
    forall i, j, t :: 0 <= i < |stages| && 0 <= j < |stages| && i != j && t in stages[i].dependsOut ==>
      t !in stages[j].dependsOut
  }

  /** The stages have an order. */
  ghost predicate InOrder(stages: seq<Stage>) {
    DistinctIds(stages) && Acyclic(GraphOf(stages))
  }

  predicate HasId(stages: seq<Stage>, x: StageId) {
    exists k :: 0 <= k < |stages| && stages[k].id == x
  }

  /** Stages that are still there are ordered as they were, or more. */
  ghost predicate KeepsOrder(stages: seq<Stage>, stages': seq<Stage>)
    requires DistinctIds(stages) && DistinctIds(stages')
  {
    && (forall x :: HasId(stages', x) ==> HasId(stages, x))
    && (forall x, y :: HasId(stages', x) && HasId(stages', y) && Reaches(GraphOf(stages), x, y) ==>
                         Reaches(GraphOf(stages'), x, y))
  }

  ghost predicate SameMoves(stages: seq<Stage>, stages': seq<Stage>) {
    forall e :: Delivers(stages, e) <==> Delivers(stages', e)
  }

  lemma SurvivorAt(stages: seq<Stage>, r: Relay, intoProducer: bool, n: nat) returns (k: nat)
    requires Mergeable(stages, r, intoProducer) && DistinctIds(stages) && n < |Fold(stages, r, intoProducer)|
    ensures Passes(stages, r) && Survives(stages, r, intoProducer, k)
    ensures Fold(stages, r, intoProducer)[n].id == stages[k].id
    ensures Fold(stages, r, intoProducer)[n].dependsOut == stages[k].dependsOut
  {
    hide MergeUnits, Passes, Fold, AfterFold, ErasesDonor;
    FoldedStages(stages, r, intoProducer);
    var s := Fold(stages, r, intoProducer)[n];
    assert s in Fold(stages, r, intoProducer);
    k :| Survives(stages, r, intoProducer, k) && s == AfterFold(stages, r, intoProducer, k);
    KeepsId(stages, r, intoProducer, k);
  }

  lemma FoldKeepsProducersSole(stages: seq<Stage>, r: Relay, intoProducer: bool)
    requires Mergeable(stages, r, intoProducer) && DistinctIds(stages) && SoleProducers(stages)
    ensures SoleProducers(Fold(stages, r, intoProducer))
  {
    hide Mergeable, Fold, ErasesDonor;
    FoldedStages(stages, r, intoProducer);
    var folded := Fold(stages, r, intoProducer);
    forall i, j, t | 0 <= i < |folded| && 0 <= j < |folded| && i != j && t in folded[i].dependsOut
      ensures t !in folded[j].dependsOut
    {
      var k := SurvivorAt(stages, r, intoProducer, i);
      var m := SurvivorAt(stages, r, intoProducer, j);
      assert folded[i].id != folded[j].id;
    }
  }

  lemma FoldKeepsOrder(stages: seq<Stage>, r: Relay, intoProducer: bool)
    requires Permitted(stages, r, intoProducer)
    ensures DistinctIds(Fold(stages, r, intoProducer)) && KeepsOrder(stages, Fold(stages, r, intoProducer))
  {
    Basics(stages, r, intoProducer);
    hide Permitted, Mergeable, Fold, ErasesDonor, GraphOf, Reaches, DistinctIds;
    FoldedStages(stages, r, intoProducer);
    var folded := Fold(stages, r, intoProducer);
    forall x | HasId(folded, x) ensures HasId(stages, x) {
      var n :| 0 <= n < |folded| && folded[n].id == x;
      var k := SurvivorAt(stages, r, intoProducer, n);
    }
    forall x, y | HasId(folded, x) && HasId(folded, y) && Reaches(GraphOf(stages), x, y)
      ensures Reaches(GraphOf(folded), x, y)
    {
      var m :| 0 <= m < |folded| && folded[m].id == x;
      var n :| 0 <= n < |folded| && folded[n].id == y;
      var i := SurvivorAt(stages, r, intoProducer, m);
      var j := SurvivorAt(stages, r, intoProducer, n);
      SurvivorsKeepOrder(stages, r, intoProducer, i, j);
    }
  }

  // ----- What stands for the stages that are gone

  /** For every stage there is one that is still there. */
  ghost predicate AllStand(stages: seq<Stage>, stages': seq<Stage>, rep: map<StageId, StageId>) {
    forall x :: HasId(stages, x) ==> x in rep && HasId(stages', rep[x])
  }

  ghost predicate StandForThemselves(stages': seq<Stage>, rep: map<StageId, StageId>) {
    forall x :: HasId(stages', x) && x in rep ==> rep[x] == x
  }

  ghost predicate StandInOrder(stages: seq<Stage>, stages': seq<Stage>, rep: map<StageId, StageId>)
    requires DistinctIds(stages) && DistinctIds(stages')
  {
    forall x, y :: HasId(stages, x) && HasId(stages, y) && Reaches(GraphOf(stages), x, y) ==>
      x in rep && y in rep && (rep[x] == rep[y] || Reaches(GraphOf(stages'), rep[x], rep[y]))
  }

  /** Every stage is still there or one of the others stands for it, and what came before it comes
      before that one, or is the same. */
  ghost predicate Represents(stages: seq<Stage>, stages': seq<Stage>, rep: map<StageId, StageId>)
    requires DistinctIds(stages) && DistinctIds(stages')
  {
    AllStand(stages, stages', rep) && StandForThemselves(stages', rep) && StandInOrder(stages, stages', rep)
  }

  function Themselves(stages: seq<Stage>): map<StageId, StageId> {
    map k | 0 <= k < |stages| :: stages[k].id := stages[k].id
  }

  /** The target stands for a donor that is erased. */
  function StandIns(stages: seq<Stage>, r: Relay, intoProducer: bool): map<StageId, StageId>
    requires DistinctIds(stages) && Passes(stages, r)
  {
    map k | 0 <= k < |stages| ::
      stages[k].id := if Survives(stages, r, intoProducer, k) then stages[k].id else stages[Target(r, intoProducer)].id
  }

  lemma StandInOf(stages: seq<Stage>, r: Relay, intoProducer: bool, k: nat)
    requires Permitted(stages, r, intoProducer) && k < |stages|
    ensures var t, d := Target(r, intoProducer), Donor(r, intoProducer);
            && DistinctIds(stages) && Passes(stages, r) && Mergeable(stages, r, intoProducer)
            && (!Survives(stages, r, intoProducer, k) ==> k == d) && Survives(stages, r, intoProducer, t)
               && t < |stages|
            && stages[k].id in StandIns(stages, r, intoProducer)
            && StandIns(stages, r, intoProducer)[stages[k].id]
                 == if Survives(stages, r, intoProducer, k) then stages[k].id else stages[t].id
  {
    Basics(stages, r, intoProducer);
    hide Permitted, Mergeable, Passes, Acyclic, GraphOf, ErasesDonor;
    assert stages[k].id == stages[k].id;
  }

  lemma SurvivorHasId(stages: seq<Stage>, r: Relay, intoProducer: bool, k: nat)
    requires Mergeable(stages, r, intoProducer) && DistinctIds(stages) && Passes(stages, r)
             && Survives(stages, r, intoProducer, k)
    ensures HasId(Fold(stages, r, intoProducer), stages[k].id)
  {
    hide MergeUnits, Passes, Fold, AfterFold, ErasesDonor;
    FoldedStages(stages, r, intoProducer);
    KeepsId(stages, r, intoProducer, k);
    var s := AfterFold(stages, r, intoProducer, k);
    assert s in Fold(stages, r, intoProducer);
    var n :| 0 <= n < |Fold(stages, r, intoProducer)| && Fold(stages, r, intoProducer)[n] == s;
  }

  lemma SolesAreOwn(stages: seq<Stage>, r: Relay, intoProducer: bool)
    requires Passes(stages, r) && SoleProducers(stages)
    ensures OwnTokens(stages, r, intoProducer)
  {
  }

  lemma AfterIsGraph(stages: seq<Stage>, r: Relay, intoProducer: bool)
    requires Permitted(stages, r, intoProducer)
    ensures DistinctIds(stages) && Mergeable(stages, r, intoProducer) && DistinctIds(Fold(stages, r, intoProducer))
    ensures After(stages, r, intoProducer) == GraphOf(Fold(stages, r, intoProducer))
  {
    Basics(stages, r, intoProducer);
    FoldedStages(stages, r, intoProducer);
    hide GraphOf, Fold, Mergeable, Passes, Permitted, DistinctIds;
  }

  /** The stand-in of a stage that comes before another comes before the other's, or is the same. */
  ghost predicate StandsBefore(stages: seq<Stage>, r: Relay, intoProducer: bool, i: nat, j: nat)
    requires DistinctIds(stages) && Mergeable(stages, r, intoProducer) && Passes(stages, r) && i < |stages|
             && j < |stages|
  {
    var rep := StandIns(stages, r, intoProducer);
    && stages[i].id in rep && stages[j].id in rep
    && (rep[stages[i].id] == rep[stages[j].id]
        || Reaches(After(stages, r, intoProducer), rep[stages[i].id], rep[stages[j].id]))
  }

  lemma StandInsKeepOrder(stages: seq<Stage>, r: Relay, intoProducer: bool, i: nat, j: nat)
    requires Permitted(stages, r, intoProducer) && SoleProducers(stages) && i < |stages| && j < |stages|
    requires Reaches(GraphOf(stages), stages[i].id, stages[j].id)
    ensures DistinctIds(stages) && Mergeable(stages, r, intoProducer) && Passes(stages, r)
    ensures StandsBefore(stages, r, intoProducer, i, j)
  {
    Basics(stages, r, intoProducer);
    StandInOf(stages, r, intoProducer, i);
    StandInOf(stages, r, intoProducer, j);
    NoSelfReach(GraphOf(stages), stages[i].id);
    SolesAreOwn(stages, r, intoProducer);
    var t := Target(r, intoProducer);
    hide Permitted, Mergeable, Passes, Acyclic, GraphOf, ErasesDonor, StandIns, Survives, Reaches, OwnTokens,
        SoleProducers, After,
         Fold, DistinctIds;
    if Survives(stages, r, intoProducer, i) && Survives(stages, r, intoProducer, j) {
      SurvivorsKeepOrder(stages, r, intoProducer, i, j);
    } else if Survives(stages, r, intoProducer, j) {
      if j != t {
        AfterDonorAfterTarget(stages, r, intoProducer, j);
      }
    } else if i != t {
      assert i != j;
      BeforeDonorBeforeTarget(stages, r, intoProducer, i);
    }
  }

  lemma StandInsAreThere(stages: seq<Stage>, r: Relay, intoProducer: bool, x: StageId)
    requires Permitted(stages, r, intoProducer) && HasId(stages, x)
    ensures DistinctIds(stages) && Mergeable(stages, r, intoProducer) && Passes(stages, r)
    ensures var rep := StandIns(stages, r, intoProducer); x in rep && HasId(Fold(stages, r, intoProducer), rep[x])
  {
    Basics(stages, r, intoProducer);
    var k :| 0 <= k < |stages| && stages[k].id == x;
    hide *;
    StandInOf(stages, r, intoProducer, k);
    SurvivorHasId(stages, r, intoProducer, if Survives(stages, r, intoProducer, k) then k else Target(r, intoProducer));
  }

  lemma SurvivorsStandForThemselves(stages: seq<Stage>, r: Relay, intoProducer: bool, x: StageId)
    requires Permitted(stages, r, intoProducer)
    ensures DistinctIds(stages) && Mergeable(stages, r, intoProducer) && Passes(stages, r)
    ensures var rep := StandIns(stages, r, intoProducer);
            HasId(Fold(stages, r, intoProducer), x) && x in rep ==> rep[x] == x
  {
    Basics(stages, r, intoProducer);
    hide Permitted, Mergeable, Passes, Acyclic, GraphOf, ErasesDonor, StandIns, Survives, Reaches, Fold, DistinctIds;
    var folded := Fold(stages, r, intoProducer);
    if n :| 0 <= n < |folded| && folded[n].id == x {
      var k := SurvivorAt(stages, r, intoProducer, n);
      SurvivorInRange(stages, r, intoProducer, k);
      StandInOf(stages, r, intoProducer, k);
    }
  }

  lemma SurvivorInRange(stages: seq<Stage>, r: Relay, intoProducer: bool, k: nat)
    requires Passes(stages, r) && Survives(stages, r, intoProducer, k)
    ensures k < |stages|
  {
  }

  lemma FoldRepresents(stages: seq<Stage>, r: Relay, intoProducer: bool)
    requires Permitted(stages, r, intoProducer) && SoleProducers(stages)
    ensures DistinctIds(stages) && Mergeable(stages, r, intoProducer) && DistinctIds(Fold(stages, r, intoProducer))
            && Passes(stages, r)
    ensures Represents(stages, Fold(stages, r, intoProducer), StandIns(stages, r, intoProducer))
  {
    AfterIsGraph(stages, r, intoProducer);
    Basics(stages, r, intoProducer);
    hide *;
    FoldAllStand(stages, r, intoProducer);
    FoldStandsInOrder(stages, r, intoProducer);
    MakeRepresents(stages, Fold(stages, r, intoProducer), StandIns(stages, r, intoProducer));
  }

  lemma MakeRepresents(stages: seq<Stage>, stages': seq<Stage>, rep: map<StageId, StageId>)
    requires DistinctIds(stages) && DistinctIds(stages')
    requires AllStand(stages, stages', rep) && StandForThemselves(stages', rep) && StandInOrder(stages, stages', rep)
    ensures Represents(stages, stages', rep)
  {
    hide DistinctIds, AllStand, StandForThemselves, StandInOrder;
  }

  lemma FoldAllStand(stages: seq<Stage>, r: Relay, intoProducer: bool)
    requires Permitted(stages, r, intoProducer)
    ensures DistinctIds(stages) && Mergeable(stages, r, intoProducer) && Passes(stages, r)
    ensures AllStand(stages, Fold(stages, r, intoProducer), StandIns(stages, r, intoProducer))
    ensures StandForThemselves(Fold(stages, r, intoProducer), StandIns(stages, r, intoProducer))
  {
    Basics(stages, r, intoProducer);
    var folded, rep := Fold(stages, r, intoProducer), StandIns(stages, r, intoProducer);
    hide Permitted, Mergeable, Passes, StandIns, Fold, DistinctIds, HasId, GraphOf, Acyclic;
    forall x | HasId(stages, x) ensures x in rep && HasId(folded, rep[x]) {
      StandInsAreThere(stages, r, intoProducer, x);
    }
    forall x | HasId(folded, x) && x in rep ensures rep[x] == x {
      SurvivorsStandForThemselves(stages, r, intoProducer, x);
    }
  }

  lemma FoldStandsInOrder(stages: seq<Stage>, r: Relay, intoProducer: bool)
    requires Permitted(stages, r, intoProducer) && SoleProducers(stages)
    ensures DistinctIds(stages) && Mergeable(stages, r, intoProducer) && DistinctIds(Fold(stages, r, intoProducer))
            && Passes(stages, r)
    ensures StandInOrder(stages, Fold(stages, r, intoProducer), StandIns(stages, r, intoProducer))
  {
    Basics(stages, r, intoProducer);
    AfterIsGraph(stages, r, intoProducer);
    var folded, rep := Fold(stages, r, intoProducer), StandIns(stages, r, intoProducer);
    hide Permitted, Mergeable, Passes, StandIns, Fold, DistinctIds, HasId, GraphOf, Acyclic, SoleProducers, After,
        Reaches;
    forall x, y | HasId(stages, x) && HasId(stages, y) && Reaches(GraphOf(stages), x, y)
      ensures x in rep && y in rep && (rep[x] == rep[y] || Reaches(GraphOf(folded), rep[x], rep[y]))
    {
      StandsBeforeById(stages, r, intoProducer, x, y);
    }
  }

  lemma StandsBeforeById(stages: seq<Stage>, r: Relay, intoProducer: bool, x: StageId, y: StageId)
    requires Permitted(stages, r, intoProducer) && SoleProducers(stages)
    requires HasId(stages, x) && HasId(stages, y) && DistinctIds(stages) && Reaches(GraphOf(stages), x, y)
    ensures Mergeable(stages, r, intoProducer) && Passes(stages, r)
    ensures var rep := StandIns(stages, r, intoProducer);
            x in rep && y in rep && (rep[x] == rep[y] || Reaches(After(stages, r, intoProducer), rep[x], rep[y]))
  {
    var i :| 0 <= i < |stages| && stages[i].id == x;
    var j :| 0 <= j < |stages| && stages[j].id == y;
    hide Permitted, Mergeable, Passes, Acyclic, GraphOf, StandIns, Reaches, SoleProducers, DistinctIds, After;
    StandInsKeepOrder(stages, r, intoProducer, i, j);
  }

  /** A stage allows no unit that a stage it stands for did not allow, itself included. */
  ghost predicate OnlyNarrows(stages: seq<Stage>, stages': seq<Stage>, rep: map<StageId, StageId>) {
    forall a, b, u :: a in stages && b in stages' && a.id in rep && rep[a.id] == b.id && Allows(b.units, u) ==>
      Allows(a.units, u)
  }

  lemma StandInNarrows(stages: seq<Stage>, r: Relay, intoProducer: bool, k: nat, m: nat, u: Resource)
    requires Permitted(stages, r, intoProducer) && k < |stages|
    requires DistinctIds(stages) && Mergeable(stages, r, intoProducer) && Passes(stages, r)
    requires Survives(stages, r, intoProducer, m) && Allows(AfterFold(stages, r, intoProducer, m).units, u)
    requires var rep := StandIns(stages, r, intoProducer);
             stages[k].id in rep && rep[stages[k].id] == AfterFold(stages, r, intoProducer, m).id
    ensures Allows(stages[k].units, u)
  {
    hide *;
    SurvivorIndex(stages, r, intoProducer, m);
    KeepsId(stages, r, intoProducer, m);
    StandInOf(stages, r, intoProducer, k);
    SameIndex(stages, m, if Survives(stages, r, intoProducer, k) then k else Target(r, intoProducer));
    UnitsAfterFold(stages, r, intoProducer, m, u);
  }

  lemma FoldOnlyNarrows(stages: seq<Stage>, r: Relay, intoProducer: bool)
    requires Permitted(stages, r, intoProducer)
    ensures DistinctIds(stages) && Mergeable(stages, r, intoProducer) && Passes(stages, r)
    ensures OnlyNarrows(stages, Fold(stages, r, intoProducer), StandIns(stages, r, intoProducer))
  {
    Basics(stages, r, intoProducer);
    var folded, rep := Fold(stages, r, intoProducer), StandIns(stages, r, intoProducer);
    hide Permitted, Mergeable, Passes, StandIns, Fold, GraphOf, Acyclic, Survives, AfterFold, Allows, DistinctIds,
        Target, Donor, Halfway;
    FoldedStages(stages, r, intoProducer);
    forall a, b, u | a in stages && b in folded && a.id in rep && rep[a.id] == b.id && Allows(b.units, u)
      ensures Allows(a.units, u)
    {
      var k :| 0 <= k < |stages| && stages[k] == a;
      var m :| Survives(stages, r, intoProducer, m) && b == AfterFold(stages, r, intoProducer, m);
      StandInNarrows(stages, r, intoProducer, k, m, u);
    }
  }

  lemma OnlyNarrowsComposes(a: seq<Stage>, b: seq<Stage>, c: seq<Stage>, f: map<StageId, StageId>, g: map<StageId,
                            StageId>)
    requires AllStand(a, b, f) && StandForThemselves(b, f) && OnlyNarrows(a, b, f)
    requires AllStand(b, c, g) && StandForThemselves(c, g) && OnlyNarrows(b, c, g)
    requires forall x :: HasId(c, x) ==> HasId(b, x)
    ensures var h := Composition(f, g); AllStand(a, c, h) && StandForThemselves(c, h) && OnlyNarrows(a, c, h)
  {
    hide Allows;
    var h := Composition(f, g);
    forall x, z, u | x in a && z in c && x.id in h && h[x.id] == z.id && Allows(z.units, u)
      ensures Allows(x.units, u)
    {
      HasOwnId(a, x);
      var n :| 0 <= n < |b| && b[n].id == f[x.id];
      assert b[n] in b;
    }
  }

  lemma HasOwnId(stages: seq<Stage>, s: Stage)
    requires s in stages
    ensures HasId(stages, s.id)
  {
  }

  lemma OnlyNarrowsSelf(stages: seq<Stage>)
    requires DistinctIds(stages)
    ensures var rep := Themselves(stages);
            AllStand(stages, stages, rep) && StandForThemselves(stages, rep) && OnlyNarrows(stages, stages, rep)
  {
    hide Allows;
  }

  function Composition(a: map<StageId, StageId>, b: map<StageId, StageId>): map<StageId, StageId> {
    map x | x in a && a[x] in b :: b[a[x]]
  }

  lemma RepresentsComposes(a: seq<Stage>, b: seq<Stage>, c: seq<Stage>, f: map<StageId, StageId>, g: map<StageId,
                           StageId>)
    requires DistinctIds(a) && DistinctIds(b) && DistinctIds(c) && Represents(a, b, f) && Represents(b, c, g)
    requires forall x :: HasId(c, x) ==> HasId(b, x)
    ensures Represents(a, c, Composition(f, g))
  {
    hide DistinctIds, GraphOf, Reaches, HasId;
    var h := Composition(f, g);
    forall x, y | HasId(a, x) && HasId(a, y) && Reaches(GraphOf(a), x, y)
      ensures x in h && y in h && (h[x] == h[y] || Reaches(GraphOf(c), h[x], h[y]))
    {
      assert HasId(b, f[x]) && HasId(b, f[y]);
    }
  }

  lemma RepresentsSelf(stages: seq<Stage>)
    requires DistinctIds(stages)
    ensures Represents(stages, stages, Themselves(stages))
  {
    hide GraphOf, Reaches;
  }

  /** The stages of a pipeline, as the pass changes them. */
  class RelayPipeline {
    var stages: seq<Stage>
    var numFolded: nat

    constructor (stages: seq<Stage>)
      ensures this.stages == stages && numFolded == 0
    {
      this.stages, numFolded := stages, 0;
    }

    /** Folds relays until none can fold. The data moved between memories is exactly what
        it was, stages keep their order and their own anchors, and the run ends because
        every fold takes away one op. If no two stages put out the same token, the stages
        that are gone have others that stand for them in this order. */
    method FoldAll() returns (ghost rep: map<StageId, StageId>)
      requires InOrder(stages)
      modifies this
      ensures InOrder(stages) && KeepsOrder(old(stages), stages)
      ensures SoleProducers(old(stages)) ==> SoleProducers(stages) && Represents(old(stages), stages, rep)
      ensures SameMoves(old(stages), stages)
      ensures AnchorsDisjoint(old(stages)) ==> AnchorsDisjoint(stages)
      ensures AllAnchored(old(stages)) ==> AllAnchored(stages)
      ensures NoneWithin(old(stages), stages)
      ensures AllStand(old(stages), stages, rep) && StandForThemselves(stages, rep)
      ensures OnlyNarrows(old(stages), stages, rep)
      ensures forall a, b, u :: a in old(stages) && b in stages && a.id == b.id && Allows(b.units, u) ==>
                Allows(a.units, u)
      ensures forall r :: Stuck(stages, r)
      ensures numFolded - old(numFolded) == TotalOps(old(stages)) - TotalOps(stages)
    {
      var folded := true;
      rep := Themselves(stages);
      RunStarts(stages);
      hide *;
      while folded
        invariant IsRunOf(old(stages), stages, rep)
        invariant !folded ==> forall r :: Stuck(stages, r)
        invariant numFolded - old(numFolded) == TotalOps(old(stages)) - TotalOps(stages)
        decreases TotalOps(stages), folded
      {
        ghost var before := stages;
        ghost var r, intoProducer;
        RunIsInOrder(old(stages), stages, rep);
        folded, stages, r, intoProducer := FoldFirstRelay(stages);
        if folded {
          rep := OneFold(before, r, intoProducer, stages, old(stages), rep);
          numFolded := numFolded + 1;
        }
      }
      RunIsOver(old(stages), stages, rep);
      RemainingNarrow(old(stages), stages, rep);
    }
  }

  /** What holds all through the run. */
  ghost predicate IsRunOf(first: seq<Stage>, stages: seq<Stage>, rep: map<StageId, StageId>) {
    && InOrder(first) && InOrder(stages) && KeepsOrder(first, stages) && SameMoves(first, stages)
    && (AnchorsDisjoint(first) ==> AnchorsDisjoint(stages))
    && (AllAnchored(first) ==> AllAnchored(stages)) && NoneWithin(first, stages)
    && AllStand(first, stages, rep) && StandForThemselves(stages, rep) && OnlyNarrows(first, stages, rep)
    && (SoleProducers(first) ==> SoleProducers(stages) && Represents(first, stages, rep))
  }

  lemma RunStarts(stages: seq<Stage>)
    requires InOrder(stages)
    ensures IsRunOf(stages, stages, Themselves(stages))
  {
    RepresentsSelf(stages);
    KeepsSelf(stages);
    OnlyNarrowsSelf(stages);
    hide AllAnchored, NoneWithin, KeepsOrder, AllStand, StandForThemselves, OnlyNarrows, SameMoves, AnchorsDisjoint,
        SoleProducers, Represents, GraphOf, Acyclic, DistinctIds;
  }

  lemma KeepsSelf(stages: seq<Stage>)
    requires DistinctIds(stages)
    ensures KeepsOrder(stages, stages) && SameMoves(stages, stages)
  {
    hide GraphOf, Reaches, HasId, Delivers, DistinctIds;
  }

  lemma RunIsInOrder(first: seq<Stage>, stages: seq<Stage>, rep: map<StageId, StageId>)
    requires IsRunOf(first, stages, rep)
    ensures DistinctIds(stages)
  {
  }

  lemma RunIsOver(first: seq<Stage>, stages: seq<Stage>, rep: map<StageId, StageId>)
    requires IsRunOf(first, stages, rep)
    ensures DistinctIds(first) && InOrder(stages) && DistinctIds(stages) && KeepsOrder(first, stages)
            && SameMoves(first, stages)
    ensures AnchorsDisjoint(first) ==> AnchorsDisjoint(stages)
    ensures AllAnchored(first) ==> AllAnchored(stages)
    ensures NoneWithin(first, stages)
    ensures AllStand(first, stages, rep) && StandForThemselves(stages, rep) && OnlyNarrows(first, stages, rep)
    ensures SoleProducers(first) ==> SoleProducers(stages) && Represents(first, stages, rep)
  {
  }

  /** A stage that remains stands for itself. */
  lemma RemainingNarrow(first: seq<Stage>, stages: seq<Stage>, rep: map<StageId, StageId>)
    requires AllStand(first, stages, rep) && StandForThemselves(stages, rep) && OnlyNarrows(first, stages, rep)
    ensures forall a, b, u :: a in first && b in stages && a.id == b.id && Allows(b.units, u) ==> Allows(a.units, u)
  {
    hide Allows, HasId;
    forall a, b, u | a in first && b in stages && a.id == b.id && Allows(b.units, u) ensures Allows(a.units, u) {
      HasOwnId(first, a);
      HasOwnId(stages, b);
    }
  }

  lemma KeepsOrderComposes(a: seq<Stage>, b: seq<Stage>, c: seq<Stage>)
    requires DistinctIds(a) && DistinctIds(b) && DistinctIds(c) && KeepsOrder(a, b) && KeepsOrder(b, c)
    ensures KeepsOrder(a, c)
  {
    hide DistinctIds, GraphOf, Reaches, HasId;
  }

  lemma SameMovesAfterFold(first: seq<Stage>, stages: seq<Stage>, r: Relay, intoProducer: bool)
    requires Permitted(stages, r, intoProducer) && SameMoves(first, stages)
    ensures Mergeable(stages, r, intoProducer) && SameMoves(first, Fold(stages, r, intoProducer))
  {
    Basics(stages, r, intoProducer);
    hide Permitted, Mergeable, Fold, Delivers, Passes;
    forall e ensures Delivers(first, e) <==> Delivers(Fold(stages, r, intoProducer), e) {
      FoldKeepsMoves(stages, r, intoProducer, e);
    }
  }

  lemma IsPermitted(first: seq<Stage>, stages: seq<Stage>, rep: map<StageId, StageId>, r: Relay, intoProducer: bool,
                    stages': seq<Stage>)
    requires IsRunOf(first, stages, rep) && DistinctIds(stages) && FoldsFirst(stages, r, intoProducer, stages')
    ensures Permitted(stages, r, intoProducer) && Mergeable(stages, r, intoProducer)
            && stages' == Fold(stages, r, intoProducer)
  {
    hide GraphOf, Acyclic, Passes, Fold, TokensAllow, CyclesAllow, AnchorsAllow, DistinctIds, Stuck, ConsumerFirst;
  }

  lemma OneFold(stages: seq<Stage>, r: Relay, intoProducer: bool, stages': seq<Stage>, first: seq<Stage>,
                rep: map<StageId, StageId>)
    returns (rep': map<StageId, StageId>)
    requires IsRunOf(first, stages, rep) && DistinctIds(stages) && FoldsFirst(stages, r, intoProducer, stages')
    ensures IsRunOf(first, stages', rep') && TotalOps(stages') == TotalOps(stages) - 1
  {
    RunIsOver(first, stages, rep);
    IsPermitted(first, stages, rep, r, intoProducer, stages');
    hide *;
    FoldIsInOrder(stages, r, intoProducer);
    FoldDropsOneOp(stages, r, intoProducer);
    FoldKeepsOrder(stages, r, intoProducer);
    KeepsOrderComposes(first, stages, stages');
    SameMovesAfterFold(first, stages, r, intoProducer);
    if AnchorsDisjoint(first) {
      AnchorsAreAllowed(stages, r, intoProducer);
      FoldKeepsAnchorsDisjoint(stages, r, intoProducer);
    }
    if AllAnchored(first) {
      AnchorsAreAllowed(stages, r, intoProducer);
      FoldKeepsAnchored(stages, r, intoProducer);
    }
    FoldAddsNoneWithin(stages, r, intoProducer);
    NoneWithinComposes(first, stages, stages');
    rep' := OneFoldRepresents(stages, r, intoProducer, first, rep);
    MakeRun(first, stages, rep, stages', rep');
  }

  lemma NoneWithinComposes(a: seq<Stage>, b: seq<Stage>, c: seq<Stage>)
    requires NoneWithin(a, b) && NoneWithin(b, c)
    ensures NoneWithin(a, c)
  {
    hide HasMove, StaysWithin;
  }

  lemma AnchorsAreAllowed(stages: seq<Stage>, r: Relay, intoProducer: bool)
    requires Permitted(stages, r, intoProducer)
    ensures DistinctIds(stages) && Mergeable(stages, r, intoProducer) && AnchorsAllow(stages, r, intoProducer)
  {
    hide AnchorsAllow, Mergeable;
  }

  lemma FoldIsInOrder(stages: seq<Stage>, r: Relay, intoProducer: bool)
    requires Permitted(stages, r, intoProducer)
    ensures Mergeable(stages, r, intoProducer) && InOrder(Fold(stages, r, intoProducer))
  {
    AfterIsGraph(stages, r, intoProducer);
    FoldStaysAcyclic(stages, r, intoProducer);
    hide GraphOf, Fold, Mergeable, Permitted, DistinctIds, After, Acyclic;
  }

  lemma MakeRun(first: seq<Stage>, stages: seq<Stage>, rep: map<StageId, StageId>, stages': seq<Stage>,
                rep': map<StageId, StageId>)
    requires IsRunOf(first, stages, rep) && InOrder(stages') && DistinctIds(first) && DistinctIds(stages')
    requires KeepsOrder(first, stages') && SameMoves(first, stages')
             && (AnchorsDisjoint(first) ==> AnchorsDisjoint(stages'))
    requires (AllAnchored(first) ==> AllAnchored(stages')) && NoneWithin(first, stages')
    requires AllStand(first, stages', rep') && StandForThemselves(stages', rep') && OnlyNarrows(first, stages', rep')
    requires SoleProducers(first) ==> SoleProducers(stages') && Represents(first, stages', rep')
    ensures IsRunOf(first, stages', rep')
  {
    hide AllAnchored, NoneWithin, AllStand, StandForThemselves, OnlyNarrows, KeepsOrder, SameMoves, AnchorsDisjoint,
        SoleProducers, Represents, GraphOf, Acyclic, DistinctIds;
  }

  lemma OneFoldRepresents(stages: seq<Stage>, r: Relay, intoProducer: bool, first: seq<Stage>, rep: map<StageId,
                          StageId>)
    returns (rep': map<StageId, StageId>)
    requires Permitted(stages, r, intoProducer) && DistinctIds(first)
    requires AllStand(first, stages, rep) && StandForThemselves(stages, rep) && OnlyNarrows(first, stages, rep)
    requires SoleProducers(first) ==> SoleProducers(stages) && Represents(first, stages, rep)
    ensures Mergeable(stages, r, intoProducer) && DistinctIds(Fold(stages, r, intoProducer))
    ensures var folded := Fold(stages, r, intoProducer);
            AllStand(first, folded, rep') && StandForThemselves(folded, rep') && OnlyNarrows(first, folded, rep')
    ensures SoleProducers(first) ==>
      SoleProducers(Fold(stages, r, intoProducer)) && Represents(first, Fold(stages, r, intoProducer), rep')
  {
    Basics(stages, r, intoProducer);
    hide GraphOf, Acyclic, SoleProducers, Fold, CanFold, Passes, Reaches, Mergeable, Permitted, DistinctIds, StandIns,
        Represents, Composition, AllStand, StandForThemselves, OnlyNarrows;
    rep' := Composition(rep, StandIns(stages, r, intoProducer));
    FoldKeepsOrder(stages, r, intoProducer);
    FoldAllStand(stages, r, intoProducer);
    FoldOnlyNarrows(stages, r, intoProducer);
    OnlyNarrowsComposes(first, stages, Fold(stages, r, intoProducer), rep, StandIns(stages, r, intoProducer));
    if SoleProducers(first) {
      FoldKeepsProducersSole(stages, r, intoProducer);
      FoldRepresents(stages, r, intoProducer);
      RepresentsComposes(first, stages, Fold(stages, r, intoProducer), rep, StandIns(stages, r, intoProducer));
    }
  }
}
