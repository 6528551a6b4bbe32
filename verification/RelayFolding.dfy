/** Folding a relay into one of its stages: when it is allowed, what it does to the stages,
    and what it does to their order. */
module RelayFolding {
  import opened Wrappers
  import opened Digraph
  import opened RelayStages
  import opened Sequences

  // ----- Anchors

  datatype Place = Place(resource: Resource, isMemory: bool)
  datatype TransferEnds = TransferEnds(source: Place, dest: Place)
  datatype Anchor = Anchor(resource: Resource, isSource: bool)

  /** The memory of a memref, or the resource that a slot names at the stage's end of it. */
  function PlaceOf(side: Side, stageReads: bool): Place {
    match side
    case InMemory(space, _, _) => Place(space, true)
    case InSlot(slot) => Place(if stageReads then slot.dest else slot.src, false)
  }

  function EndsOf(t: Transfer): TransferEnds {
    TransferEnds(PlaceOf(t.source, true), PlaceOf(t.dest, false))
  }

  function BodyEnds(body: seq<Op>): (r: seq<TransferEnds>)
    requires forall i :: 0 <= i < |body| ==> body[i].Move?
    ensures |r| == |body| && forall i :: 0 <= i < |r| ==> r[i] == EndsOf(body[i].transfer)
  {
    seq(|body|, i requires 0 <= i < |body| => EndsOf(body[i].transfer))
  }

  function SharedSource(ends: seq<TransferEnds>): Option<Place>
    requires ends != []
  {
    if forall i :: 0 <= i < |ends| ==> ends[i].source == ends[0].source then Some(ends[0].source) else None
  }

  function SharedDest(ends: seq<TransferEnds>): Option<Place>
    requires ends != []
  {
    if forall i :: 0 <= i < |ends| ==> ends[i].dest == ends[0].dest then Some(ends[0].dest) else None
  }

  /** The ends that all transfers share; if both are, a memory wins over a FIFO. */
  function FindAnchors(ends: seq<TransferEnds>): (r: seq<Anchor>)
    requires ends != []
    ensures r == [] <==> SharedSource(ends).None? && SharedDest(ends).None?
  {
    var source, dest := SharedSource(ends), SharedDest(ends);
    (if source.Some? && (dest.None? || source.value.isMemory || !dest.value.isMemory)
     then [Anchor(source.value.resource, true)] else []) +
    (if dest.Some? && (source.None? || dest.value.isMemory || !source.value.isMemory)
     then [Anchor(dest.value.resource, false)] else [])
  }

  function AnchorsOf(s: Stage): seq<Anchor> {
    if OnlyTransfers(s) then FindAnchors(BodyEnds(s.body)) else []
  }

  /** The transfer's source or destination is a memory, or a slot that names the resource at the
      stage's end: the slot's destination for a stage that reads it, its source for one that writes. */
  predicate EndIs(t: Transfer, isSource: bool, resource: Resource, isMemory: bool) {
    var side := if isSource then t.source else t.dest;
    if isMemory then side.InMemory? && side.space == resource
    else side.InSlot? && resource == if isSource then side.slot.dest else side.slot.src
  }

  predicate AllEndsAre(s: Stage, isSource: bool, resource: Resource, isMemory: bool) {
    forall i :: 0 <= i < |s.body| ==> s.body[i].Move? && EndIs(s.body[i].transfer, isSource, resource, isMemory)
  }

  /** A stage is anchored exactly on the memories that all its transfers share, at either end, and on
      the FIFO end they share if they share no memory at the other. */
  lemma AnchorIs(s: Stage, x: Anchor)
    requires OnlyTransfers(s)
    ensures var otherEnd := !x.isSource;
            x in AnchorsOf(s) <==>
            || AllEndsAre(s, x.isSource, x.resource, true)
            || (AllEndsAre(s, x.isSource, x.resource, false)
                && forall resource :: !AllEndsAre(s, otherEnd, resource, true))
  {
    SharedIs(s, true);
    SharedIs(s, false);
    hide AllEndsAre, OnlyTransfers;
  }

  /** The end that all transfers share, if there is one. */
  lemma SharedIs(s: Stage, isSource: bool)
    requires OnlyTransfers(s)
    ensures var shared := if isSource then SharedSource(BodyEnds(s.body)) else SharedDest(BodyEnds(s.body));
            forall resource, isMemory ::
              AllEndsAre(s, isSource, resource, isMemory) <==> shared == Some(Place(resource, isMemory))
  {
    forall i, resource, isMemory | 0 <= i < |s.body|
      ensures EndIs(s.body[i].transfer, isSource, resource, isMemory) <==>
              Place(resource, isMemory) == if isSource then EndsOf(s.body[i].transfer).source
              else EndsOf(s.body[i].transfer).dest
    {
      EndIsPlace(s.body[i].transfer, isSource, resource, isMemory);
    }
    hide EndIs, EndsOf;
    forall resource, isMemory | AllEndsAre(s, isSource, resource, isMemory)
      ensures (if isSource then SharedSource(BodyEnds(s.body)) else SharedDest(BodyEnds(s.body)))
                == Some(Place(resource, isMemory))
    {
      assert EndIs(s.body[0].transfer, isSource, resource, isMemory);
    }
  }

  lemma EndIsPlace(t: Transfer, isSource: bool, resource: Resource, isMemory: bool)
    ensures EndIs(t, isSource, resource, isMemory) <==>
            Place(resource, isMemory) == if isSource then EndsOf(t).source else EndsOf(t).dest
  {
  }

  predicate Share(a: seq<Anchor>, b: seq<Anchor>) {
    exists x :: x in a && x in b
  }

  /** No two stages share an anchor: path expansion gives each stage a unit of its own. */
  predicate AnchorsDisjoint(stages: seq<Stage>) {
    forall a, b :: a in stages && b in stages && a.id != b.id ==> !Share(AnchorsOf(a), AnchorsOf(b))
  }

  // ----- The two stages after a fold

  function Target(r: Relay, intoProducer: bool): nat { if intoProducer then r.p else r.c }

  function Donor(r: Relay, intoProducer: bool): nat { if intoProducer then r.c else r.p }

  function TargetBody(stages: seq<Stage>, r: Relay, intoProducer: bool): seq<Op>
    requires Passes(stages, r)
  {
    var folded := Move(Composed(stages, r));
    if intoProducer then stages[r.p].body[r.i := folded] else stages[r.c].body[r.j := folded]
  }

  function DonorBody(stages: seq<Stage>, r: Relay, intoProducer: bool): seq<Op>
    requires Passes(stages, r)
  {
    if intoProducer then stages[r.c].body[..r.j] + stages[r.c].body[r.j + 1..]
    else stages[r.p].body[..r.i] + stages[r.p].body[r.i + 1..]
  }

  /** The tokens of ins that are not in outs, in order. */
  function Foreign(ins: seq<Token>, outs: seq<Token>): (r: seq<Token>)
    ensures forall t :: t in r <==> t in ins && t !in outs
  {
    if ins == [] then [] else (if ins[0] in outs then [] else [ins[0]]) + Foreign(ins[1..], outs)
  }

  function CommonUnits(a: seq<Resource>, b: seq<Resource>): (r: seq<Resource>)
    ensures forall u :: u in r <==> u in a && u in b
  {
    if a == [] then [] else (if a[0] in b then [a[0]] else []) + CommonUnits(a[1..], b)
  }

  /** The units both stages may run on; an unset list allows all. None if there are none. */
  function MergeUnits(target: Option<seq<Resource>>, donor: Option<seq<Resource>>): Option<Option<seq<Resource>>> {
    if target.None? || donor.None? then Some(if target.Some? then target else donor)
    else
      var common := CommonUnits(target.value, donor.value);
      if common == [] then None else Some(Some(common))
  }

  /** The list of units allows a unit: it is not set, or has it. */
  predicate Allows(units: Option<seq<Resource>>, u: Resource) {
    units.None? || u in units.value
  }

  /** The merged list allows what both lists allow; there is none if both are set and have nothing in
      common. */
  lemma MergedAllows(target: Option<seq<Resource>>, donor: Option<seq<Resource>>)
    ensures MergeUnits(target, donor).None? <==>
            target.Some? && donor.Some? && forall u :: u in target.value ==> u !in donor.value
    ensures MergeUnits(target, donor).Some? ==>
              forall u :: Allows(MergeUnits(target, donor).value, u) <==> Allows(target, u) && Allows(donor, u)
  {
    if target.Some? && donor.Some? {
      var common := CommonUnits(target.value, donor.value);
      if common != [] {
        assert common[0] in common;
      }
    }
  }

  /** The relay composes, and its stages may run on a common unit. */
  predicate Mergeable(stages: seq<Stage>, r: Relay, intoProducer: bool) {
    Passes(stages, r) && MergeUnits(stages[Target(r, intoProducer)].units, stages[Donor(r, intoProducer)].units).Some?
  }

  // ----- When a fold is allowed

  /** Stages that await the donor can rely on what they awaited it for. */
  predicate TokensAllow(stages: seq<Stage>, r: Relay, intoProducer: bool)
    requires IsRelay(stages, r)
  {
    if intoProducer then
      (exists w :: w in stages && Awaits(w, stages[r.c])) ==> Awaits(stages[r.c], stages[r.p])
    else
      forall k :: 0 <= k < |stages| && k != r.c ==> !Awaits(stages[k], stages[r.p])
  }

  /** Nothing the donor awaits, other than the target, depends on the target. */
  ghost predicate CyclesAllow(stages: seq<Stage>, r: Relay, intoProducer: bool)
    requires IsRelay(stages, r) && DistinctIds(stages)
  {
    var t, d := Target(r, intoProducer), Donor(r, intoProducer);
    forall k :: 0 <= k < |stages| && k != t && Awaits(stages[d], stages[k]) ==>
      !Reaches(GraphOf(stages), stages[t].id, stages[k].id)
  }

  /** A stage gains an anchor that another one has. */
  predicate GainsTaken(stages: seq<Stage>, r: Relay, before: seq<Anchor>, after: seq<Anchor>, peer: seq<Anchor>)
    requires IsRelay(stages, r)
  {
    exists x :: x in after && x !in before
                && (x in peer || exists k :: 0 <= k < |stages| && k != r.p && k != r.c && x in AnchorsOf(stages[k]))
  }

  predicate AnchorsAllow(stages: seq<Stage>, r: Relay, intoProducer: bool)
    requires Passes(stages, r)
  {
    var target := stages[Target(r, intoProducer)].(body := TargetBody(stages, r, intoProducer));
    var donor := stages[Donor(r, intoProducer)].(body := DonorBody(stages, r, intoProducer));
    && AnchorsOf(target) != []
    && (donor.body != [] ==> AnchorsOf(donor) != [])
    && !GainsTaken(stages, r, AnchorsOf(stages[Target(r, intoProducer)]), AnchorsOf(target), AnchorsOf(donor))
    && !GainsTaken(stages, r, AnchorsOf(stages[Donor(r, intoProducer)]), AnchorsOf(donor), AnchorsOf(target))
  }

  ghost predicate CanFold(stages: seq<Stage>, r: Relay, intoProducer: bool)
    requires Passes(stages, r) && DistinctIds(stages)
  {
    && TokensAllow(stages, r, intoProducer)
    && CyclesAllow(stages, r, intoProducer)
    && AnchorsAllow(stages, r, intoProducer)
    && Mergeable(stages, r, intoProducer)
  }

  /** A fold is only permitted if the two stages can run on a unit of both. */
  lemma FoldNeedsUnit(stages: seq<Stage>, r: Relay, intoProducer: bool)
    requires Passes(stages, r) && DistinctIds(stages) && CanFold(stages, r, intoProducer)
    ensures var a, b := stages[r.p].units, stages[r.c].units;
            a.Some? && b.Some? ==> exists u :: u in a.value && u in b.value
  {
    MergedAllows(stages[Target(r, intoProducer)].units, stages[Donor(r, intoProducer)].units);
    hide MergeUnits;
  }

  // ----- The fold

  function FoldedTarget(stages: seq<Stage>, r: Relay, intoProducer: bool): Stage
    requires Mergeable(stages, r, intoProducer)
  {
    var target, donor := stages[Target(r, intoProducer)], stages[Donor(r, intoProducer)];
    Stage(target.id, TargetBody(stages, r, intoProducer),
          target.dependsIn + Foreign(donor.dependsIn, target.dependsOut),
          target.dependsOut, MergeUnits(target.units, donor.units).value)
  }

  /** Stage k once the transfer is folded, the donor still in place. */
  function Halfway(stages: seq<Stage>, r: Relay, intoProducer: bool, k: nat): Stage
    requires Mergeable(stages, r, intoProducer) && k < |stages|
  {
    if k == Target(r, intoProducer) then FoldedTarget(stages, r, intoProducer)
    else if k == Donor(r, intoProducer) then stages[k].(body := DonorBody(stages, r, intoProducer))
    else stages[k]
  }

  /** Stage k after the fold. If the donor is erased, the stages that awaited it await what
      it awaited instead. */
  function AfterFold(stages: seq<Stage>, r: Relay, intoProducer: bool, k: nat): Stage
    requires Mergeable(stages, r, intoProducer) && k < |stages|
  {
    var donor := stages[Donor(r, intoProducer)];
    var s := Halfway(stages, r, intoProducer, k);
    if ErasesDonor(stages, r, intoProducer) && Awaits(s, donor) then s.(dependsIn := s.dependsIn + donor.dependsIn)
        else s
  }

  /** The donor is left with nothing and goes away. */
  predicate ErasesDonor(stages: seq<Stage>, r: Relay, intoProducer: bool)
    requires Passes(stages, r)
  {
    DonorBody(stages, r, intoProducer) == []
  }

  function AllAfter(stages: seq<Stage>, r: Relay, intoProducer: bool): (all: seq<Stage>)
    requires Mergeable(stages, r, intoProducer)
    ensures |all| == |stages| && forall k :: 0 <= k < |stages| ==> all[k] == AfterFold(stages, r, intoProducer, k)
  {
    seq(|stages|, k requires 0 <= k < |stages| => AfterFold(stages, r, intoProducer, k))
  }

  function Fold(stages: seq<Stage>, r: Relay, intoProducer: bool): seq<Stage>
    requires Mergeable(stages, r, intoProducer)
  {
    var all := AllAfter(stages, r, intoProducer);
    if ErasesDonor(stages, r, intoProducer) then Without(all, Donor(r, intoProducer)) else all
  }

  predicate Survives(stages: seq<Stage>, r: Relay, intoProducer: bool, k: nat)
    requires Passes(stages, r)
  {
    k < |stages| && (k == Donor(r, intoProducer) ==> !ErasesDonor(stages, r, intoProducer))
  }

  lemma SurvivorIndex(stages: seq<Stage>, r: Relay, intoProducer: bool, k: nat)
    requires Passes(stages, r) && Survives(stages, r, intoProducer, k)
    ensures k < |stages|
    ensures Target(r, intoProducer) < |stages| && Donor(r, intoProducer) < |stages|
            && Target(r, intoProducer) != Donor(r, intoProducer)
  {
  }

  lemma WithoutHas<T>(s: seq<T>, d: nat)
    requires d < |s|
    ensures forall k :: 0 <= k < |s| && k != d ==> s[k] in Without(s, d)
    ensures forall x :: x in Without(s, d) ==> exists k :: 0 <= k < |s| && k != d && s[k] == x
  {
    var w := Without(s, d);
    forall k | 0 <= k < |s| && k != d ensures s[k] in w {
      assert w[if k < d then k else k - 1] == s[k];
    }
    forall x | x in w ensures exists k :: 0 <= k < |s| && k != d && s[k] == x {
      var n :| 0 <= n < |w| && w[n] == x;
      assert s[if n < d then n else n + 1] == x;
    }
  }

  lemma WithoutIsDistinct(stages: seq<Stage>, d: nat)
    requires d < |stages| && DistinctIds(stages)
    ensures DistinctIds(Without(stages, d))
  {
    var w := Without(stages, d);
    forall i, j | 0 <= i < j < |w| ensures w[i].id != w[j].id {
      assert w[i] == stages[if i < d then i else i + 1] && w[j] == stages[if j < d then j else j + 1];
    }
  }

  /** The stages after the fold are the survivors, each changed as AfterFold says. */
  lemma FoldedStages(stages: seq<Stage>, r: Relay, intoProducer: bool)
    requires Mergeable(stages, r, intoProducer) && DistinctIds(stages)
    ensures DistinctIds(Fold(stages, r, intoProducer))
    ensures forall k :: Survives(stages, r, intoProducer, k) ==>
                          AfterFold(stages, r, intoProducer, k) in Fold(stages, r, intoProducer)
    ensures forall s :: s in Fold(stages, r, intoProducer) ==>
              exists k :: Survives(stages, r, intoProducer, k) && s == AfterFold(stages, r, intoProducer, k)
  {
    FoldIsDistinct(stages, r, intoProducer);
    var d := Donor(r, intoProducer);
    assert d < |stages|;
    hide Passes, MergeUnits, AfterFold, ErasesDonor, AllAfter, Without, DistinctIds, Donor;
    WithoutHas(AllAfter(stages, r, intoProducer), d);
  }

  lemma FoldIsDistinct(stages: seq<Stage>, r: Relay, intoProducer: bool)
    requires Mergeable(stages, r, intoProducer) && DistinctIds(stages)
    ensures DistinctIds(Fold(stages, r, intoProducer))
  {
    var d := Donor(r, intoProducer);
    assert d < |stages|;
    hide Passes, MergeUnits, AfterFold, ErasesDonor, AllAfter, Without, Donor;
    var all := AllAfter(stages, r, intoProducer);
    forall k | 0 <= k < |stages| ensures all[k].id == stages[k].id {
      KeepsId(stages, r, intoProducer, k);
    }
    WithoutIsDistinct(all, d);
  }

  lemma KeepsId(stages: seq<Stage>, r: Relay, intoProducer: bool, k: nat)
    requires Mergeable(stages, r, intoProducer) && k < |stages|
    ensures AfterFold(stages, r, intoProducer, k).id == stages[k].id
    ensures AfterFold(stages, r, intoProducer, k).dependsOut == stages[k].dependsOut
    ensures AfterFold(stages, r, intoProducer, k).body == Halfway(stages, r, intoProducer, k).body
  {
    hide Mergeable, DonorBody, TargetBody, Awaits;
  }

  /** After a fold the target allows the units that both stages allowed; every other stage, the donor
      included, allows what it did. */
  lemma UnitsAfterFold(stages: seq<Stage>, r: Relay, intoProducer: bool, k: nat, u: Resource)
    requires Mergeable(stages, r, intoProducer) && k < |stages|
    ensures var t, d := Target(r, intoProducer), Donor(r, intoProducer);
            Allows(AfterFold(stages, r, intoProducer, k).units, u) <==>
            Allows(stages[k].units, u) && (k == t ==> Allows(stages[d].units, u))
  {
    MergedAllows(stages[Target(r, intoProducer)].units, stages[Donor(r, intoProducer)].units);
    hide MergeUnits, TargetBody, DonorBody, Awaits, Passes;
  }

  /** The composed transfer takes the place of the target's half of the relay, the donor loses its half,
      and all other ops stay with their stage and in their order. */
  lemma OtherOpsStay(stages: seq<Stage>, r: Relay, intoProducer: bool, k: nat)
    requires Mergeable(stages, r, intoProducer) && k < |stages|
    ensures var before, after := stages[k].body, AfterFold(stages, r, intoProducer, k).body;
            var (t, d) := if intoProducer then (r.p, r.c) else (r.c, r.p);
            var half := if k == r.p then r.i else r.j;
            if k == t then
              |after| == |before| && half < |after| && after[half] == Move(Composed(stages, r))
              && forall m :: 0 <= m < |after| && m != half ==> after[m] == before[m]
            else if k == d then
              |after| == |before| - 1
              && forall m :: 0 <= m < |after| ==> after[m] == before[if m < half then m else m + 1]
            else after == before
  {
    KeepsId(stages, r, intoProducer, k);
    hide MergeUnits, Awaits, AfterFold;
  }

  /** The stages with only the two bodies changed. */
  function NewBodies(stages: seq<Stage>, r: Relay, intoProducer: bool): seq<Stage>
    requires Passes(stages, r)
  {
    var t, d := Target(r, intoProducer), Donor(r, intoProducer);
    stages[t := stages[t].(body :=
                             TargetBody(stages, r, intoProducer))][d :=
                                                                     stages[d].(body :=
                                                                                  DonorBody(stages, r, intoProducer))]
  }

  lemma AllHaveNewBodies(stages: seq<Stage>, r: Relay, intoProducer: bool)
    requires Mergeable(stages, r, intoProducer)
    ensures var all, both := AllAfter(stages, r, intoProducer), NewBodies(stages, r, intoProducer);
            |all| == |both| && forall k :: 0 <= k < |all| ==> all[k].body == both[k].body
  {
    hide MergeUnits, DonorBody, TargetBody, AfterFold;
    var all, both := AllAfter(stages, r, intoProducer), NewBodies(stages, r, intoProducer);
    forall k | 0 <= k < |all| ensures all[k].body == both[k].body {
      KeepsId(stages, r, intoProducer, k);
    }
  }
}
