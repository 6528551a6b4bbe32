/** What a fold keeps apart from the order: the data that ends up moved from memory to
    memory, and the anchors of the stages. */
module RelayMoves {
  import opened Wrappers
  import opened RelayStages
  import opened RelayFolding

  predicate IsAt(stages: seq<Stage>, p: nat, i: nat, t: Transfer) {
    At(stages, p, i) && stages[p].body[i] == Move(t)
  }

  /** Some stage does the transfer. */
  ghost predicate HasMove(stages: seq<Stage>, t: Transfer) {
    exists p: nat, i: nat :: IsAt(stages, p, i, t)
  }

  /** A move from memory to memory, told by its ends alone: through how many slots it went
      does not matter, what was done to the data on the way does, and how fast it may be. */
  datatype EndToEnd = EndToEnd(source: Side, sourceSizes: seq<int>, dest: Side, destSizes: seq<int>,
                               modes: seq<TransferMode>, lossless: bool, throttles: set<int>)

  /** The transfers follow each other through slots that nothing else uses. */
  ghost predicate IsChain(stages: seq<Stage>, c: seq<Transfer>) {
    && |c| > 0 && c[0].source.InMemory? && c[|c| - 1].dest.InMemory?
    && (forall k :: 0 <= k < |c| ==> HasMove(stages, c[k]))
    && (forall k :: 0 <= k < |c| - 1 ==> Follows(stages, c[k], c[k + 1]))
  }

  predicate Follows(stages: seq<Stage>, a: Transfer, b: Transfer) {
    a.dest.InSlot? && b.source == a.dest && Uses(stages, a.dest.slot) == 2
  }

  function Modes(c: seq<Transfer>): seq<TransferMode> {
    if c == [] then [] else (if c[0].mode.Copy? then [] else [c[0].mode]) + Modes(c[1..])
  }

  function Throttles(c: seq<Transfer>): set<int> {
    set t | t in c && t.throttle.Some? :: t.throttle.value
  }

  function Summary(c: seq<Transfer>): EndToEnd
    requires |c| > 0
  {
    EndToEnd(c[0].source, c[0].sourceSizes, c[|c| - 1].dest, c[|c| - 1].destSizes, Modes(c),
             forall k :: 0 <= k < |c| - 1 ==> c[k].destSizes == c[k + 1].sourceSizes, Throttles(c))
  }

  ghost predicate Delivers(stages: seq<Stage>, e: EndToEnd) {
    exists c :: IsChain(stages, c) && Summary(c) == e
  }

  // ----- Slots and transfers after a fold

  lemma UsesAfterFold(stages: seq<Stage>, r: Relay, intoProducer: bool, slot: Slot)
    requires Mergeable(stages, r, intoProducer)
    ensures Uses(Fold(stages, r, intoProducer), slot)
            == if slot == In(stages, r).dest.slot then 0 else Uses(stages, slot)
  {
    UsesOfNewBodies(stages, r, intoProducer, slot);
    AllHaveNewBodies(stages, r, intoProducer);
    var d := Donor(r, intoProducer);
    assert ErasesDonor(stages, r, intoProducer) ==> NewBodies(stages, r, intoProducer)[d].body == [];
    hide Passes, AllAfter, NewBodies, MergeUnits, ErasesDonor, Uses;
    var all := AllAfter(stages, r, intoProducer);
    UsesDependOnBodies(all, NewBodies(stages, r, intoProducer), slot);
    if ErasesDonor(stages, r, intoProducer) {
      UsesWithoutEmpty(all, d, slot);
    }
  }

  lemma UsesOfNewBodies(stages: seq<Stage>, r: Relay, intoProducer: bool, slot: Slot)
    requires Passes(stages, r)
    ensures Uses(NewBodies(stages, r, intoProducer), slot)
            == if slot == In(stages, r).dest.slot then 0 else Uses(stages, slot)
  {
    var t, d := Target(r, intoProducer), Donor(r, intoProducer);
    var target := stages[t].(body := TargetBody(stages, r, intoProducer));
    var donor := stages[d].(body := DonorBody(stages, r, intoProducer));
    BodiesAfterFold(stages, r, intoProducer, slot);
    UsesAfterUpdate(stages, t, target, slot);
    UsesAfterUpdate(stages[t := target], d, donor, slot);
  }

  /** The two bodies together lose the two uses of the relay's slot, and nothing else. */
  lemma BodiesAfterFold(stages: seq<Stage>, r: Relay, intoProducer: bool, slot: Slot)
    requires Passes(stages, r)
    ensures BodyUses(TargetBody(stages, r, intoProducer), slot) + BodyUses(DonorBody(stages, r, intoProducer), slot)
            + (if slot == In(stages, r).dest.slot then 2 else 0)
            == BodyUses(stages[r.p].body, slot) + BodyUses(stages[r.c].body, slot)
  {
    hide Uses;
    var (tb, ti, db, di) := if intoProducer then (stages[r.p].body, r.i, stages[r.c].body, r.j)
                            else (stages[r.c].body, r.j, stages[r.p].body, r.i);
    var folded := TargetBody(stages, r, intoProducer);
    BodyUsesAt(tb, ti, slot);
    BodyUsesAt(folded, ti, slot);
    assert folded[..ti] == tb[..ti] && folded[ti + 1..] == tb[ti + 1..];
    BodyUsesAt(db, di, slot);
    BodyUsesConcat(db[..di], db[di + 1..], slot);
  }

  /** The transfer is done by an op that is not one of the relay's two. */
  ghost predicate IsElsewhere(stages: seq<Stage>, r: Relay, t: Transfer) {
    exists p: nat, i: nat :: IsAt(stages, p, i, t) && (p, i) != (r.p, r.i) && (p, i) != (r.c, r.j)
  }

  /** After the fold there is the composed transfer, and every other transfer there was. */
  lemma MovesAfterFold(stages: seq<Stage>, r: Relay, intoProducer: bool, t: Transfer)
    requires Mergeable(stages, r, intoProducer) && DistinctIds(stages)
    ensures HasMove(Fold(stages, r, intoProducer), t) <==>
            t == Composed(stages, r) || IsElsewhere(stages, r, t)
  {
    hide Fold, Composed, IsElsewhere, Passes, MergeUnits;
    if HasMove(Fold(stages, r, intoProducer), t) {
      MoveAfterWasBefore(stages, r, intoProducer, t);
    }
    if t == Composed(stages, r) {
      ComposedIsThere(stages, r, intoProducer);
    } else if IsElsewhere(stages, r, t) {
      ElsewhereStays(stages, r, intoProducer, t);
    }
  }

  lemma MoveAfterWasBefore(stages: seq<Stage>, r: Relay, intoProducer: bool, t: Transfer)
    requires Mergeable(stages, r, intoProducer) && DistinctIds(stages)
    requires HasMove(Fold(stages, r, intoProducer), t)
    ensures t == Composed(stages, r) || IsElsewhere(stages, r, t)
  {
    FoldedStages(stages, r, intoProducer);
    hide Fold, Composed, Uses, AfterFold, Passes, MergeUnits, Halfway, IsElsewhere, Survives;
    var folded := Fold(stages, r, intoProducer);
    var n: nat, m: nat :| IsAt(folded, n, m, t);
    assert folded[n] in folded;
    var k: nat :| Survives(stages, r, intoProducer, k) && folded[n] == AfterFold(stages, r, intoProducer, k);
    SurvivorIndex(stages, r, intoProducer, k);
    KeepsId(stages, r, intoProducer, k);
    MoveComesFrom(stages, r, intoProducer, k, m, t);
  }

  lemma ElsewhereStays(stages: seq<Stage>, r: Relay, intoProducer: bool, t: Transfer)
    requires Mergeable(stages, r, intoProducer) && DistinctIds(stages) && IsElsewhere(stages, r, t)
    ensures HasMove(Fold(stages, r, intoProducer), t)
  {
    var p: nat, i: nat :| IsAt(stages, p, i, t) && (p, i) != (r.p, r.i) && (p, i) != (r.c, r.j);
    MoveStays(stages, r, intoProducer, p, i, t);
  }

  lemma MoveComesFrom(stages: seq<Stage>, r: Relay, intoProducer: bool, k: nat, m: nat, t: Transfer)
    requires Mergeable(stages, r, intoProducer) && k < |stages|
    requires m < |Halfway(stages, r, intoProducer, k).body| && Halfway(stages, r, intoProducer, k).body[m] == Move(t)
    ensures t == Composed(stages, r) || IsElsewhere(stages, r, t)
  {
    var d := Donor(r, intoProducer);
    var half := if intoProducer then r.j else r.i;
    var source := if k == d && m >= half then m + 1 else m;
    if t != Composed(stages, r) {
      assert IsAt(stages, k, source, t);
    }
  }

  lemma ComposedIsThere(stages: seq<Stage>, r: Relay, intoProducer: bool)
    requires Mergeable(stages, r, intoProducer) && DistinctIds(stages)
    ensures HasMove(Fold(stages, r, intoProducer), Composed(stages, r))
  {
    var t := Target(r, intoProducer);
    var i := if intoProducer then r.i else r.j;
    assert Halfway(stages, r, intoProducer, t).body[i] == Move(Composed(stages, r));
    assert Survives(stages, r, intoProducer, t);
    FoldedBody(stages, r, intoProducer, t, i);
  }

  /** An op of a surviving stage's new body is in the folded stages. */
  lemma FoldedBody(stages: seq<Stage>, r: Relay, intoProducer: bool, k: nat, m: nat)
    requires Mergeable(stages, r, intoProducer) && DistinctIds(stages) && Survives(stages, r, intoProducer, k)
    requires m < |Halfway(stages, r, intoProducer, k).body| && Halfway(stages, r, intoProducer, k).body[m].Move?
    ensures HasMove(Fold(stages, r, intoProducer), Halfway(stages, r, intoProducer, k).body[m].transfer)
  {
    hide Fold, Mergeable, ErasesDonor, Halfway, AfterFold;
    FoldedStages(stages, r, intoProducer);
    KeepsId(stages, r, intoProducer, k);
    var folded := Fold(stages, r, intoProducer);
    var n :| 0 <= n < |folded| && folded[n] == AfterFold(stages, r, intoProducer, k);
    assert IsAt(folded, n, m, Halfway(stages, r, intoProducer, k).body[m].transfer);
  }

  lemma MoveStays(stages: seq<Stage>, r: Relay, intoProducer: bool, p: nat, i: nat, t: Transfer)
    requires Mergeable(stages, r, intoProducer) && DistinctIds(stages)
    requires IsAt(stages, p, i, t) && (p, i) != (r.p, r.i) && (p, i) != (r.c, r.j)
    ensures HasMove(Fold(stages, r, intoProducer), t)
  {
    var d := Donor(r, intoProducer);
    var half := if intoProducer then r.j else r.i;
    var m := if p == d && i > half then i - 1 else i;
    assert Halfway(stages, r, intoProducer, p).body[m] == Move(t);
    assert Survives(stages, r, intoProducer, p);
    FoldedBody(stages, r, intoProducer, p, m);
  }

  // ----- Chains

  lemma ElsewhereAvoidsSlot(stages: seq<Stage>, r: Relay, t: Transfer)
    requires IsRelay(stages, r) && HasMove(stages, t)
    ensures t == In(stages, r) || t == Out(stages, r) || IsElsewhere(stages, r, t)
    ensures t.source == In(stages, r).dest ==> t == Out(stages, r)
    ensures t.dest == In(stages, r).dest ==> t == In(stages, r)
    ensures IsElsewhere(stages, r, t) ==> t != In(stages, r) && t != Out(stages, r)
  {
    hide Uses, OnlyTransfers;
    forall p: nat, i: nat | IsAt(stages, p, i, t) && (p, i) != (r.p, r.i) && (p, i) != (r.c, r.j)
      ensures t.source != In(stages, r).dest && t.dest != In(stages, r).dest
    {
      OnlyRelayUses(stages, r, p, i);
    }
    var p: nat, i: nat :| IsAt(stages, p, i, t);
  }

  /** A chain that uses either half of a relay is just the relay. */
  lemma ChainThroughRelay(stages: seq<Stage>, r: Relay, c: seq<Transfer>, k: nat)
    requires IsRelay(stages, r) && IsChain(stages, c) && k < |c|
    requires c[k] == In(stages, r) || c[k] == Out(stages, r)
    ensures c == [In(stages, r), Out(stages, r)]
  {
    hide HasMove, Uses, OnlyTransfers;
    var incoming, outgoing := In(stages, r), Out(stages, r);
    if c[k] == outgoing {
      assert k > 0 && Follows(stages, c[k - 1], c[k - 1 + 1]);
      ElsewhereAvoidsSlot(stages, r, c[k - 1]);
      InStartsChain(stages, r, c, k - 1);
    } else {
      InStartsChain(stages, r, c, k);
    }
  }

  lemma InStartsChain(stages: seq<Stage>, r: Relay, c: seq<Transfer>, k: nat)
    requires IsRelay(stages, r) && IsChain(stages, c) && k < |c| && c[k] == In(stages, r)
    ensures c == [In(stages, r), Out(stages, r)]
  {
    hide HasMove, Uses, OnlyTransfers;
    assert k == 0 by {
      assert k > 0 ==> Follows(stages, c[k - 1], c[k - 1 + 1]);
    }
    assert |c| > 1 && Follows(stages, c[0], c[0 + 1]);
    ElsewhereAvoidsSlot(stages, r, c[1]);
    assert |c| > 2 ==> Follows(stages, c[1], c[1 + 1]);
  }

  lemma RelayIsChain(stages: seq<Stage>, r: Relay)
    requires Passes(stages, r)
    ensures IsChain(stages, [In(stages, r), Out(stages, r)])
    ensures Summary([In(stages, r), Out(stages, r)]) == Summary([Composed(stages, r)])
  {
    hide Uses;
    assert IsAt(stages, r.p, r.i, In(stages, r)) && IsAt(stages, r.c, r.j, Out(stages, r));
    ComposedSummary(In(stages, r), Out(stages, r));
  }

  lemma ComposedSummary(a: Transfer, b: Transfer)
    requires a.source.InMemory? && b.dest.InMemory? && IsComposable(a, b)
    ensures Summary([a, b]) == Summary([Compose(a, b)])
  {
    assert [a, b][1..] == [b];
    assert Modes([b]) == if b.mode.Copy? then [] else [b.mode];
    assert Modes([a, b]) == (if a.mode.Copy? then [] else [a.mode]) + Modes([b]);
    assert Modes([Compose(a, b)]) == if Compose(a, b).mode.Copy? then [] else [Compose(a, b).mode];
    ComposedThrottles(a, b);
  }

  lemma ComposedThrottles(a: Transfer, b: Transfer)
    requires a.source.InMemory? && b.dest.InMemory? && IsComposable(a, b)
    ensures Throttles([a, b]) == Throttles([Compose(a, b)])
  {
    var c := Compose(a, b);
    hide Compose;
    assert a in [a, b] && b in [a, b] && c in [c];
    assert forall v :: v in Throttles([a, b]) <==> a.throttle == Some(v) || b.throttle == Some(v);
    assert forall v :: v in Throttles([c]) <==> c.throttle == Some(v);
  }

  /** Exactly the same moves from memory to memory are delivered after a fold as before. */
  lemma FoldKeepsMoves(stages: seq<Stage>, r: Relay, intoProducer: bool, e: EndToEnd)
    requires Mergeable(stages, r, intoProducer) && DistinctIds(stages)
    ensures Delivers(stages, e) <==> Delivers(Fold(stages, r, intoProducer), e)
  {
    if Delivers(stages, e) {
      var c :| IsChain(stages, c) && Summary(c) == e;
      ChainStays(stages, r, intoProducer, c);
    }
    if Delivers(Fold(stages, r, intoProducer), e) {
      var c :| IsChain(Fold(stages, r, intoProducer), c) && Summary(c) == e;
      ChainWasThere(stages, r, intoProducer, c);
    }
  }

  lemma ChainStays(stages: seq<Stage>, r: Relay, intoProducer: bool, c: seq<Transfer>)
    requires Mergeable(stages, r, intoProducer) && DistinctIds(stages) && IsChain(stages, c)
    ensures Delivers(Fold(stages, r, intoProducer), Summary(c))
  {
    hide Fold, MergeUnits, Uses, Composed, HasMove, IsComposable, IsRelay, DistinctIds;
    var folded, composed := Fold(stages, r, intoProducer), Composed(stages, r);
    if k :| 0 <= k < |c| && (c[k] == In(stages, r) || c[k] == Out(stages, r)) {
      ChainThroughRelay(stages, r, c, k);
      RelayIsChain(stages, r);
      MovesAfterFold(stages, r, intoProducer, composed);
      assert IsChain(folded, [composed]);
    } else {
      forall k | 0 <= k < |c| ensures HasMove(folded, c[k]) {
        ElsewhereAvoidsSlot(stages, r, c[k]);
        MovesAfterFold(stages, r, intoProducer, c[k]);
      }
      forall k | 0 <= k < |c| - 1 ensures Follows(folded, c[k], c[k + 1]) {
        assert Follows(stages, c[k], c[k + 1]);
        ElsewhereAvoidsSlot(stages, r, c[k]);
        RelaySlot(stages, r);
        UsesAfterFold(stages, r, intoProducer, c[k].dest.slot);
      }
      assert IsChain(folded, c);
    }
  }

  lemma RelaySlot(stages: seq<Stage>, r: Relay)
    requires IsRelay(stages, r)
    ensures In(stages, r).dest.InSlot?
  {
  }

  lemma ChainWasThere(stages: seq<Stage>, r: Relay, intoProducer: bool, c: seq<Transfer>)
    requires Mergeable(stages, r, intoProducer) && DistinctIds(stages) && IsChain(Fold(stages, r, intoProducer), c)
    ensures Delivers(stages, Summary(c))
  {
    hide Fold, MergeUnits, Uses, Composed, IsComposable, IsRelay, DistinctIds;
    var folded, composed := Fold(stages, r, intoProducer), Composed(stages, r);
    if k :| 0 <= k < |c| && c[k] == composed {
      assert k > 0 ==> Follows(folded, c[k - 1], c[k - 1 + 1]);
      assert |c| > 1 ==> Follows(folded, c[0], c[0 + 1]);
      assert c == [composed];
      RelayIsChain(stages, r);
    } else {
      forall k | 0 <= k < |c| ensures HasMove(stages, c[k]) {
        MovesAfterFold(stages, r, intoProducer, c[k]);
      }
      forall k | 0 <= k < |c| - 1 ensures Follows(stages, c[k], c[k + 1]) {
        assert Follows(folded, c[k], c[k + 1]);
        UsesAfterFold(stages, r, intoProducer, c[k].dest.slot);
        RelaySlot(stages, r);
      }
      assert IsChain(stages, c);
    }
  }

  // ----- Transfers within one memory

  predicate StaysWithin(t: Transfer) {
    t.source.InMemory? && t.dest.InMemory? && t.source.space == t.dest.space
  }

  /** No transfer from a memory to itself that was not there before, as its two ends could overlap. */
  ghost predicate NoneWithin(stages: seq<Stage>, stages': seq<Stage>) {
    forall t :: HasMove(stages', t) && StaysWithin(t) ==> HasMove(stages, t)
  }

  lemma FoldAddsNoneWithin(stages: seq<Stage>, r: Relay, intoProducer: bool)
    requires Mergeable(stages, r, intoProducer) && DistinctIds(stages)
    ensures NoneWithin(stages, Fold(stages, r, intoProducer))
  {
    hide Fold, Uses, MergeUnits;
    forall t | HasMove(Fold(stages, r, intoProducer), t) && StaysWithin(t) ensures HasMove(stages, t) {
      MovesAfterFold(stages, r, intoProducer, t);
    }
  }

  // ----- Anchors

  /** The transfers of every stage that only transfers share an end, on which the stage can be placed. */
  predicate AllAnchored(stages: seq<Stage>) {
    forall s :: s in stages && OnlyTransfers(s) ==> AnchorsOf(s) != []
  }

  lemma FoldKeepsAnchored(stages: seq<Stage>, r: Relay, intoProducer: bool)
    requires DistinctIds(stages) && Mergeable(stages, r, intoProducer) && AnchorsAllow(stages, r, intoProducer)
             && AllAnchored(stages)
    ensures AllAnchored(Fold(stages, r, intoProducer))
  {
    hide Fold, MergeUnits, Passes, TargetBody, DonorBody;
    FoldedStages(stages, r, intoProducer);
    forall s | s in Fold(stages, r, intoProducer) && OnlyTransfers(s) ensures AnchorsOf(s) != [] {
      var k :| Survives(stages, r, intoProducer, k) && s == AfterFold(stages, r, intoProducer, k);
      KeepsAnchored(stages, r, intoProducer, k);
    }
  }

  lemma KeepsAnchored(stages: seq<Stage>, r: Relay, intoProducer: bool, k: nat)
    requires Mergeable(stages, r, intoProducer) && DistinctIds(stages) && AnchorsAllow(stages, r, intoProducer)
             && AllAnchored(stages)
    requires k < |stages| && OnlyTransfers(AfterFold(stages, r, intoProducer, k))
    ensures AnchorsOf(AfterFold(stages, r, intoProducer, k)) != []
  {
    KeepsId(stages, r, intoProducer, k);
    var t, d := Target(r, intoProducer), Donor(r, intoProducer);
    AnchorsFollowBody(AfterFold(stages, r, intoProducer, k),
                      if k == t then stages[t].(body := TargetBody(stages, r, intoProducer))
                      else if k == d then stages[d].(body := DonorBody(stages, r, intoProducer)) else stages[k]);
    hide AfterFold, MergeUnits, Passes, TargetBody, DonorBody, AnchorsOf;
    assert stages[k] in stages;
  }

  /** A permitted fold never makes two stages share an anchor. */
  lemma FoldKeepsAnchorsDisjoint(stages: seq<Stage>, r: Relay, intoProducer: bool)
    requires DistinctIds(stages) && Mergeable(stages, r, intoProducer) && AnchorsAllow(stages, r, intoProducer)
             && AnchorsDisjoint(stages)
    ensures AnchorsDisjoint(Fold(stages, r, intoProducer))
  {
    hide Fold, MergeUnits, Passes;
    FoldedStages(stages, r, intoProducer);
    var folded := Fold(stages, r, intoProducer);
    forall a, b | a in folded && b in folded && a.id != b.id ensures !Share(AnchorsOf(a), AnchorsOf(b)) {
      var i :| Survives(stages, r, intoProducer, i) && a == AfterFold(stages, r, intoProducer, i);
      var j :| Survives(stages, r, intoProducer, j) && b == AfterFold(stages, r, intoProducer, j);
      NewAnchors(stages, r, intoProducer, i, j);
    }
  }

  lemma NewAnchors(stages: seq<Stage>, r: Relay, intoProducer: bool, i: nat, j: nat)
    requires DistinctIds(stages) && Mergeable(stages, r, intoProducer) && AnchorsAllow(stages, r, intoProducer)
             && AnchorsDisjoint(stages)
    requires i < |stages| && j < |stages| && i != j
    ensures !Share(AnchorsOf(AfterFold(stages, r, intoProducer, i)), AnchorsOf(AfterFold(stages, r, intoProducer, j)))
  {
    KeepsId(stages, r, intoProducer, i);
    KeepsId(stages, r, intoProducer, j);
    var t, d := Target(r, intoProducer), Donor(r, intoProducer);
    var target := stages[t].(body := TargetBody(stages, r, intoProducer));
    var donor := stages[d].(body := DonorBody(stages, r, intoProducer));
    assert t != d && t < |stages| && d < |stages|;
    AnchorsFollowBody(AfterFold(stages, r, intoProducer, i), if i == t then target
                      else if i == d then donor else stages[i]);
    AnchorsFollowBody(AfterFold(stages, r, intoProducer, j), if j == t then target
                      else if j == d then donor else stages[j]);
    hide AfterFold, MergeUnits, Passes, TargetBody, DonorBody, AnchorsOf;
    assert !Share(AnchorsOf(stages[i]), AnchorsOf(stages[j])) by {
      assert stages[i].id != stages[j].id;
    }
    assert !Share(AnchorsOf(stages[j]), AnchorsOf(stages[i])) by {
      assert stages[i].id != stages[j].id;
    }
  }

  lemma AnchorsFollowBody(a: Stage, b: Stage)
    requires a.body == b.body
    ensures AnchorsOf(a) == AnchorsOf(b)
  {
  }

  // ----- The check of anchors is exact

  lemma ShareAfterFold(stages: seq<Stage>, r: Relay, intoProducer: bool, i: nat, j: nat, x: Anchor)
    requires Mergeable(stages, r, intoProducer) && DistinctIds(stages) && i != j
    requires Survives(stages, r, intoProducer, i) && Survives(stages, r, intoProducer, j)
    requires x in AnchorsOf(AfterFold(stages, r, intoProducer, i))
             && x in AnchorsOf(AfterFold(stages, r, intoProducer, j))
    ensures !AnchorsDisjoint(Fold(stages, r, intoProducer))
  {
    KeepsId(stages, r, intoProducer, i);
    KeepsId(stages, r, intoProducer, j);
    SurvivorIndex(stages, r, intoProducer, i);
    SurvivorIndex(stages, r, intoProducer, j);
    assert stages[i].id != stages[j].id;
    FoldedStages(stages, r, intoProducer);
    hide Mergeable, Fold, AfterFold, AnchorsOf, DistinctIds, Survives;
    var a, b := AfterFold(stages, r, intoProducer, i), AfterFold(stages, r, intoProducer, j);
    assert Share(AnchorsOf(a), AnchorsOf(b));
  }

  /** The anchors that the two stages, and the others, have after the fold. */
  lemma AnchorsAfterFold(stages: seq<Stage>, r: Relay, intoProducer: bool, k: nat)
    requires Mergeable(stages, r, intoProducer) && k < |stages|
    ensures var t, d := Target(r, intoProducer), Donor(r, intoProducer);
            AnchorsOf(AfterFold(stages, r, intoProducer, k))
              == AnchorsOf(if k == t then stages[t].(body := TargetBody(stages, r, intoProducer))
                           else if k == d then stages[d].(body := DonorBody(stages, r, intoProducer)) else stages[k])
  {
    KeepsId(stages, r, intoProducer, k);
    var t, d := Target(r, intoProducer), Donor(r, intoProducer);
    AnchorsFollowBody(AfterFold(stages, r, intoProducer, k),
                      if k == t then stages[t].(body := TargetBody(stages, r, intoProducer))
                      else if k == d then stages[d].(body := DonorBody(stages, r, intoProducer)) else stages[k]);
  }

  /** What is no stage's anchor twice after the fold is no anchor that a stage gains and another has. */
  lemma NoneTaken(stages: seq<Stage>, r: Relay, intoProducer: bool, s: nat, o: nat, before: seq<Anchor>)
    requires Mergeable(stages, r, intoProducer) && DistinctIds(stages) && AnchorsDisjoint(Fold(stages, r, intoProducer))
    requires (s == r.p && o == r.c) || (s == r.c && o == r.p)
    requires s < |stages| && o < |stages| && Passes(stages, r)
    ensures !GainsTaken(stages, r, before, AnchorsOf(AfterFold(stages, r, intoProducer, s)),
                        AnchorsOf(AfterFold(stages, r, intoProducer, o)))
  {
    GoneHasNone(stages, r, intoProducer, s);
    GoneHasNone(stages, r, intoProducer, o);
    hide Mergeable, Passes, AfterFold, AnchorsOf, Survives, Fold, DistinctIds, AnchorsDisjoint;
    var after := AnchorsOf(AfterFold(stages, r, intoProducer, s));
    forall x | x in after ensures x !in AnchorsOf(AfterFold(stages, r, intoProducer, o)) {
      if x in AnchorsOf(AfterFold(stages, r, intoProducer, o)) {
        ShareAfterFold(stages, r, intoProducer, s, o, x);
      }
    }
    forall x, k | x in after && 0 <= k < |stages| && k != r.p && k != r.c ensures x !in AnchorsOf(stages[k]) {
      AnchorsAfterFold(stages, r, intoProducer, k);
      OtherSurvives(stages, r, intoProducer, k);
      if x in AnchorsOf(stages[k]) {
        ShareAfterFold(stages, r, intoProducer, s, k, x);
      }
    }
  }

  lemma GoneHasNone(stages: seq<Stage>, r: Relay, intoProducer: bool, k: nat)
    requires Mergeable(stages, r, intoProducer) && k < |stages|
    ensures Passes(stages, r)
    ensures AnchorsOf(AfterFold(stages, r, intoProducer, k)) != [] ==> Survives(stages, r, intoProducer, k)
  {
    AnchorsAfterFold(stages, r, intoProducer, k);
    OtherSurvives(stages, r, intoProducer, k);
    hide AfterFold, Mergeable, DonorBody, TargetBody, Survives;
  }

  lemma OtherSurvives(stages: seq<Stage>, r: Relay, intoProducer: bool, k: nat)
    requires Mergeable(stages, r, intoProducer) && k < |stages|
    ensures Passes(stages, r)
    ensures Survives(stages, r, intoProducer, k) <==>
            k == Donor(r, intoProducer) ==> DonorBody(stages, r, intoProducer) != []
  {
  }

  lemma StageIsAnchored(stages: seq<Stage>, r: Relay, intoProducer: bool, k: nat)
    requires Mergeable(stages, r, intoProducer) && DistinctIds(stages) && AllAnchored(Fold(stages, r, intoProducer))
    requires Survives(stages, r, intoProducer, k) && (k == r.p || k == r.c)
    ensures AnchorsOf(AfterFold(stages, r, intoProducer, k)) != []
  {
    KeepsId(stages, r, intoProducer, k);
    assert OnlyTransfers(AfterFold(stages, r, intoProducer, k)) by {
      hide Uses, IsComposable, MergeUnits, AfterFold;
    }
    FoldedStages(stages, r, intoProducer);
    hide Mergeable, AfterFold, AnchorsOf, Fold, OnlyTransfers, Survives;
  }

  /** Given stages that share no anchor, and each have one, the check lets a fold through exactly if that
      is so afterwards. */
  lemma AnchorsAllowIff(stages: seq<Stage>, r: Relay, intoProducer: bool)
    requires Mergeable(stages, r, intoProducer) && DistinctIds(stages) && AnchorsDisjoint(stages) && AllAnchored(stages)
    ensures Passes(stages, r)
    ensures AnchorsAllow(stages, r, intoProducer) <==>
            AnchorsDisjoint(Fold(stages, r, intoProducer)) && AllAnchored(Fold(stages, r, intoProducer))
  {
    if AnchorsAllow(stages, r, intoProducer) {
      FoldKeepsAnchorsDisjoint(stages, r, intoProducer);
      FoldKeepsAnchored(stages, r, intoProducer);
    }
    if AnchorsDisjoint(Fold(stages, r, intoProducer)) && AllAnchored(Fold(stages, r, intoProducer)) {
      AnchoredAfterMeansAllowed(stages, r, intoProducer);
    }
  }

  lemma AnchoredAfterMeansAllowed(stages: seq<Stage>, r: Relay, intoProducer: bool)
    requires Mergeable(stages, r, intoProducer) && DistinctIds(stages) && Passes(stages, r)
    requires AnchorsDisjoint(Fold(stages, r, intoProducer)) && AllAnchored(Fold(stages, r, intoProducer))
    ensures AnchorsAllow(stages, r, intoProducer)
  {
    var t, d := Target(r, intoProducer), Donor(r, intoProducer);
    assert t < |stages| && d < |stages| && t != d;
    OtherSurvives(stages, r, intoProducer, t);
    OtherSurvives(stages, r, intoProducer, d);
    AnchorsAfterFold(stages, r, intoProducer, t);
    AnchorsAfterFold(stages, r, intoProducer, d);
    NoneTaken(stages, r, intoProducer, t, d, AnchorsOf(stages[t]));
    NoneTaken(stages, r, intoProducer, d, t, AnchorsOf(stages[d]));
    hide Mergeable, Passes, AfterFold, AnchorsOf, Fold, Survives, TargetBody, DonorBody, AnchorsDisjoint, AllAnchored,
        GainsTaken, DistinctIds;
    StageIsAnchored(stages, r, intoProducer, t);
    if Survives(stages, r, intoProducer, d) {
      StageIsAnchored(stages, r, intoProducer, d);
    }
  }
}
