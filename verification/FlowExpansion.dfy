/** Giving the hops of all flows to stages: to the stage that already runs on the hop's
    unit, or to a new one. */
module FlowExpansion {
  import opened Wrappers
  import opened Digraph
  import opened StageOrder
  import opened HopCutting
  import opened Rewiring
  import opened FlowRouting
  import opened StagePlacement
  import opened Sequences

  /** What the expansion updates. */
  datatype PlanState = PlanState(
    info: Infos,
    unitOwner: map<Resource, StageId>,
    deps: Graph,
    order: seq<StageId>,
    nextStage: StageId)

  function FlowHops(nodes: Nodes, f: DataFlow): Option<seq<Hop>>
    requires HasMiddle(nodes, f)
  {
    CutHops(nodes, f.path, f.MiddleBegin(), f.MiddleEnd())
  }

  // ----- When a flow can be expanded

  /** The hop's unit is not that of s, or s works on the memory the hop needs. */
  predicate Suits(info0: Infos, s: StageId, h: Hop) {
    s in info0 && info0[s].unit == Some(h.unit) ==> info0[s].stageResource == h.memory
  }

  predicate RunsOn(info0: Infos, s: StageId, unit: Resource) {
    s in info0 && info0[s].unit == Some(unit)
  }

  /** The hop agrees with the original stages and with the other hops on what its unit is
      used for, and its unit is that of neither end of the flow. */
  ghost predicate HopFits(info0: Infos, f: DataFlow, h: Hop, others: set<Hop>) {
    && !RunsOn(info0, f.producer, h.unit) && !RunsOn(info0, f.consumer, h.unit)
    && (forall s :: s in info0 ==> Suits(info0, s, h))
    && (forall o :: o in others && o.unit == h.unit ==> o.memory == h.memory)
  }

  predicate UnitsOnce(hops: seq<Hop>) {
    forall k, l :: 0 <= k < l < |hops| ==> hops[k].unit != hops[l].unit
  }

  ghost predicate HopsFit(info0: Infos, f: DataFlow, hops: seq<Hop>, others: set<Hop>) {
    UnitsOnce(hops) && forall h :: h in hops ==> HopFits(info0, f, h, others)
  }

  /** The flow's middle can be cut, and its hops fit. */
  ghost predicate FlowFits(nodes: Nodes, info0: Infos, f: DataFlow, others: set<Hop>) {
    HasMiddle(nodes, f) && FlowHops(nodes, f).Some? && HopsFit(info0, f, FlowHops(nodes, f).value, others)
  }

  /** All hops of the flows that can be cut. */
  function AllHops(nodes: Nodes, flows: seq<DataFlow>): (r: set<Hop>)
    requires forall f :: f in flows ==> HasMiddle(nodes, f)
    ensures forall h :: h in r <==> exists f :: f in flows && FlowHops(nodes, f).Some? && h in FlowHops(nodes, f).value
  {
    set f, h | f in flows && FlowHops(nodes, f).Some? && h in FlowHops(nodes, f).value :: h
  }

  /** Every flow fits with all the hops of all flows: no order among the flows matters. */
  ghost predicate Expandable(nodes: Nodes, info0: Infos, flows: seq<DataFlow>)
    requires forall f :: f in flows ==> HasMiddle(nodes, f)
  {
    forall f :: f in flows ==> FlowFits(nodes, info0, f, AllHops(nodes, flows))
  }

  /** Fitting each flow with those before it is enough. */
  lemma FitsInTurn(nodes: Nodes, info0: Infos, flows: seq<DataFlow>)
    requires forall f :: f in flows ==> HasMiddle(nodes, f)
    ensures Expandable(nodes, info0, flows) <==>
            forall i :: 0 <= i < |flows| ==> FlowFits(nodes, info0, flows[i], AllHops(nodes, flows[..i]))
  {
    if forall i :: 0 <= i < |flows| ==> FlowFits(nodes, info0, flows[i], AllHops(nodes, flows[..i])) {
      forall i, h, o | 0 <= i < |flows| && h in FlowHops(nodes, flows[i]).value && o in AllHops(nodes, flows)
             && o.unit == h.unit
        ensures o.memory == h.memory
      {
        var g :| g in flows && FlowHops(nodes, g).Some? && o in FlowHops(nodes, g).value;
        var j :| 0 <= j < |flows| && flows[j] == g;
        HopsAgree(nodes, info0, flows, i, j, h, o);
      }
    }
    if Expandable(nodes, info0, flows) {
      forall i | 0 <= i < |flows| ensures FlowFits(nodes, info0, flows[i], AllHops(nodes, flows[..i])) {
        assert FlowFits(nodes, info0, flows[i], AllHops(nodes, flows));
        assert AllHops(nodes, flows[..i]) <= AllHops(nodes, flows);
      }
    }
  }

  lemma HopsAgree(nodes: Nodes, info0: Infos, flows: seq<DataFlow>, i: nat, j: nat, h: Hop, o: Hop)
    requires forall f :: f in flows ==> HasMiddle(nodes, f)
    requires forall k :: 0 <= k < |flows| ==> FlowFits(nodes, info0, flows[k], AllHops(nodes, flows[..k]))
    requires i < |flows| && j < |flows| && o.unit == h.unit
    requires FlowHops(nodes, flows[i]).Some? && h in FlowHops(nodes, flows[i]).value
    requires FlowHops(nodes, flows[j]).Some? && o in FlowHops(nodes, flows[j]).value
    ensures o.memory == h.memory
  {
    if j < i {
      assert flows[j] in flows[..i] && o in AllHops(nodes, flows[..i]);
      assert HopFits(info0, flows[i], h, AllHops(nodes, flows[..i]));
    } else if i < j {
      assert flows[i] in flows[..j] && h in AllHops(nodes, flows[..j]);
      assert HopFits(info0, flows[j], o, AllHops(nodes, flows[..j]));
    }
  }

  // ----- The state between two hops

  /** The input of the expansion, against which everything is measured. */
  datatype Original = Original(info: Infos, deps: Graph, order: seq<StageId>)

  /** Units and the stages that run on them are one to one. */
  ghost predicate OwnersMatch(st: PlanState) {
    && (forall u :: u in st.unitOwner ==> st.unitOwner[u] in st.info && st.info[st.unitOwner[u]].unit == Some(u))
    && (forall s :: s in st.info && st.info[s].unit.Some? ==>
          st.info[s].unit.value in st.unitOwner && st.unitOwner[st.info[s].unit.value] == s)
  }

  /** Original stages are as they were, and each of the others was made for a hop. */
  ghost predicate StagesAccountedFor(orig: Original, st: PlanState, used: set<Hop>) {
    && (forall s :: s in orig.info ==> s in st.info && st.info[s] == orig.info[s])
    && (forall s :: s in st.info ==>
                      s in orig.info || exists h :: h in used && st.info[s] == StageInfo(h.memory, Some(h.unit)))
  }

  predicate OwnedFor(st: PlanState, h: Hop) {
    && h.unit in st.unitOwner && st.unitOwner[h.unit] in st.info
    && st.info[st.unitOwner[h.unit]] == StageInfo(h.memory, Some(h.unit))
  }

  /** The pipeline lists every stage once, the original ones in their original order, and
      only original stages have dependencies. */
  ghost predicate InPipeline(orig: Original, st: PlanState) {
    && Distinct(st.order) && Elems(st.order) == st.info.Keys == st.deps.Keys
    && (forall s :: s in st.info ==> s < st.nextStage)
    && Restrict(st.order, orig.info.Keys) == orig.order
    && orig.info.Keys == orig.deps.Keys
    && (forall s :: s in st.deps ==> st.deps[s] == if s in orig.deps then orig.deps[s] else [])
  }

  ghost predicate Consistent(orig: Original, st: PlanState, used: set<Hop>) {
    && OwnersMatch(st)
    && StagesAccountedFor(orig, st, used)
    && (forall h :: h in used ==> OwnedFor(st, h))
    && InPipeline(orig, st)
  }

  /** Nothing that was decided earlier is taken back. */
  ghost predicate Grows(st: PlanState, st': PlanState) {
    && (forall s :: s in st.info ==> s in st'.info && st'.info[s] == st.info[s])
    && (forall u :: u in st.unitOwner ==> u in st'.unitOwner && st'.unitOwner[u] == st.unitOwner[u])
  }

  /** A new stage for hop h, placed in the pipeline right after pos. */
  function CreateStage(st: PlanState, memory: Option<Resource>, unit: Resource, pos: StageId): PlanState
    requires pos in st.order
  {
    var synth := st.nextStage;
    PlanState(st.info[synth := StageInfo(memory, Some(unit))], st.unitOwner[unit := synth], st.deps[synth := []],
              InsertAfter(st.order, synth, pos), synth + 1)
  }

  lemma CreateIsConsistent(orig: Original, st: PlanState, used: set<Hop>, h: Hop, pos: StageId)
    requires Consistent(orig, st, used) && pos in st.order && h.unit !in st.unitOwner
    ensures Consistent(orig, CreateStage(st, h.memory, h.unit, pos), used + {h})
    ensures Grows(st, CreateStage(st, h.memory, h.unit, pos))
    ensures OwnedFor(CreateStage(st, h.memory, h.unit, pos), h)
  {
    hide Distinct, IndexOf, Restrict, InsertAfter, StagesAccountedFor, InPipeline;
    NextIsFresh(orig, st, used);
    CreateAccountsForStages(orig, st, used, h, pos);
    CreateKeepsPipeline(orig, st, h, pos);
    CreateKeepsOwners(orig, st, h, pos);
    forall o | o in used + {h} ensures OwnedFor(CreateStage(st, h.memory, h.unit, pos), o) {
      assert o in used ==> OwnedFor(st, o);
    }
  }

  lemma NextIsFresh(orig: Original, st: PlanState, used: set<Hop>)
    requires Consistent(orig, st, used)
    ensures st.nextStage !in st.info && st.nextStage !in st.order && st.nextStage !in orig.info
  {
    assert st.nextStage !in Elems(st.order);
  }

  lemma CreateKeepsOwners(orig: Original, st: PlanState, h: Hop, pos: StageId)
    requires OwnersMatch(st) && pos in st.order && h.unit !in st.unitOwner && st.nextStage !in st.info
    ensures OwnersMatch(CreateStage(st, h.memory, h.unit, pos))
  {
    hide InsertAfter;
  }

  lemma CreateAccountsForStages(orig: Original, st: PlanState, used: set<Hop>, h: Hop, pos: StageId)
    requires StagesAccountedFor(orig, st, used) && pos in st.order && st.nextStage !in st.info
    ensures StagesAccountedFor(orig, CreateStage(st, h.memory, h.unit, pos), used + {h})
  {
    hide InsertAfter;
    var st' := CreateStage(st, h.memory, h.unit, pos);
    forall s | s in st'.info && s !in orig.info
      ensures exists o :: o in used + {h} && st'.info[s] == StageInfo(o.memory, Some(o.unit))
    {
      if s == st.nextStage {
        assert h in used + {h};
      } else {
        var o :| o in used && st.info[s] == StageInfo(o.memory, Some(o.unit));
        assert o in used + {h};
      }
    }
  }

  lemma CreateKeepsPipeline(orig: Original, st: PlanState, h: Hop, pos: StageId)
    requires InPipeline(orig, st) && pos in st.order && st.nextStage !in st.info && st.nextStage !in orig.info
    ensures InPipeline(orig, CreateStage(st, h.memory, h.unit, pos))
  {
    hide Distinct, IndexOf, Restrict, InsertAfter;
    assert st.nextStage !in Elems(st.order);
    InsertedOnce(st.order, st.nextStage, pos);
    InsertedOutside(st.order, st.nextStage, pos, orig.info.Keys);
  }

  lemma ReuseIsConsistent(orig: Original, st: PlanState, used: set<Hop>, h: Hop)
    requires Consistent(orig, st, used) && OwnedFor(st, h)
    ensures Consistent(orig, st, used + {h})
  {
    forall s | s in st.info && s !in orig.info
      ensures exists o :: o in used + {h} && st.info[s] == StageInfo(o.memory, Some(o.unit))
    {
      var o :| o in used && st.info[s] == StageInfo(o.memory, Some(o.unit));
      assert o in used + {h};
    }
  }

  // ----- One hop

  /** Nothing is inserted, or the stage that ends the chain, right behind the last one. */
  predicate StepsBehind(order: seq<StageId>, last: StageId, order': seq<StageId>, last': StageId,
                        chain: seq<StageId>, chain': seq<StageId>)
  {
    || (order' == order && last' == last && |chain'| == |chain| + 1 && chain' == chain + [chain'[|chain|]])
    || (last in order && order' == InsertAfter(order, last', last) && chain' == chain + [last'])
  }

  /** The hops given out so far, in order. */
  ghost predicate ChainMatches(st: PlanState, f: DataFlow, hops: seq<Hop>, chain: seq<StageId>) {
    && |chain| == |hops| && Distinct(chain) && f.producer !in chain && f.consumer !in chain
    && forall k :: 0 <= k < |hops| ==> OwnedFor(st, hops[k]) && chain[k] == st.unitOwner[hops[k].unit]
  }

  /** No stage runs on the hop's unit yet, or the one that does can take the hop on. */
  predicate CanTakeOn(st: PlanState, f: DataFlow, chain: seq<StageId>, h: Hop) {
    h.unit in st.unitOwner ==>
      var owner := st.unitOwner[h.unit];
      && owner != f.producer && owner != f.consumer && owner !in chain
      && owner in st.info && st.info[owner].stageResource == h.memory
  }

  ghost predicate NewUnit(hops: seq<Hop>, h: Hop) {
    forall o :: o in hops ==> o.unit != h.unit
  }

  /** The stages decide on a hop exactly as the hops and the original stages would. */
  lemma HopVerdict(orig: Original, st: PlanState, f: DataFlow, hops: seq<Hop>, chain: seq<StageId>, used: set<Hop>,
                   h: Hop)
    requires Consistent(orig, st, used + Elems(hops)) && ChainMatches(st, f, hops, chain)
    requires f.producer in orig.info && f.consumer in orig.info
    ensures CanTakeOn(st, f, chain, h) <==> HopFits(orig.info, f, h, used) && NewUnit(hops, h)
  {
    hide InPipeline, Distinct;
    if h.unit !in st.unitOwner {
      forall o | o in used || o in hops ensures o.unit != h.unit {
        assert o in used + Elems(hops);
      }
    } else if CanTakeOn(st, f, chain, h) {
      TakenOnFits(orig, st, f, hops, chain, used, h);
    } else {
      NotTakenOn(orig, st, f, hops, chain, used, h);
    }
  }

  lemma TakenOnFits(orig: Original, st: PlanState, f: DataFlow, hops: seq<Hop>, chain: seq<StageId>, used: set<Hop>,
                    h: Hop)
    requires Consistent(orig, st, used + Elems(hops)) && ChainMatches(st, f, hops, chain)
    requires h.unit in st.unitOwner && CanTakeOn(st, f, chain, h)
    ensures HopFits(orig.info, f, h, used) && NewUnit(hops, h)
  {
    hide InPipeline, Distinct;
    forall o | o in used && o.unit == h.unit ensures o.memory == h.memory {
      assert o in used + Elems(hops);
    }
    forall o | o in hops ensures o.unit != h.unit {
      var k :| 0 <= k < |hops| && hops[k] == o;
      assert chain[k] in chain;
    }
  }

  lemma NotTakenOn(orig: Original, st: PlanState, f: DataFlow, hops: seq<Hop>, chain: seq<StageId>, used: set<Hop>,
                   h: Hop)
    requires Consistent(orig, st, used + Elems(hops)) && ChainMatches(st, f, hops, chain)
    requires f.producer in orig.info && f.consumer in orig.info
    requires !CanTakeOn(st, f, chain, h)
    ensures !(HopFits(orig.info, f, h, used) && NewUnit(hops, h))
  {
    hide InPipeline, Distinct;
    var owner := st.unitOwner[h.unit];
    if owner in chain {
      var k :| 0 <= k < |chain| && chain[k] == owner;
      assert hops[k] in hops && hops[k].unit == h.unit;
    } else if owner != f.producer && owner != f.consumer && owner !in orig.info {
      var o :| o in used + Elems(hops) && st.info[owner] == StageInfo(o.memory, Some(o.unit));
      assert o in used || o in hops;
    }
  }

  /** Finds or creates the stage for a hop. */
  method AddHop(st: PlanState, f: DataFlow, chain: seq<StageId>, lastInserted: StageId, h: Hop,
                ghost orig: Original, ghost used: set<Hop>, ghost hops: seq<Hop>)
    returns (ok: bool, st': PlanState, chain': seq<StageId>, last': StageId)
    requires Consistent(orig, st, used + Elems(hops)) && ChainMatches(st, f, hops, chain)
    requires f.producer in orig.info && f.consumer in orig.info && lastInserted in st.order
    ensures ok <==> HopFits(orig.info, f, h, used) && NewUnit(hops, h)
    ensures ok ==> Consistent(orig, st', used + Elems(hops + [h])) && ChainMatches(st', f, hops + [h], chain')
    ensures ok ==> |chain'| == |chain| + 1
    ensures ok ==> Grows(st, st') && last' in st'.order
    ensures ok ==> StepsBehind(st.order, lastInserted, st'.order, last', chain, chain')
  {
    hide HopFits, NewUnit, InPipeline, ChainMatches, Grows, StagesAccountedFor, InsertAfter;
    HopVerdict(orig, st, f, hops, chain, used, h);
    ghost var all := used + Elems(hops);
    assert used + Elems(hops + [h]) == all + {h};
    st', chain', last' := st, chain, lastInserted;
    if h.unit !in st.unitOwner {
      st' := CreateStage(st, h.memory, h.unit, lastInserted);
      CreateIsConsistent(orig, st, all, h, lastInserted);
      NextIsFresh(orig, st, all);
      NewStageIsListed(orig, st, all, h, lastInserted);
      last' := st.nextStage;
      ExtendChain(st, st', f, hops, chain, h, last');
      chain' := chain + [last'];
      ok := true;
      return;
    }
    var owner := st.unitOwner[h.unit];
    if owner == f.producer || owner == f.consumer || owner in chain {
      ok := false;
      return;
    }
    if st.info[owner].stageResource != h.memory {
      ok := false;
      return;
    }
    ReuseIsConsistent(orig, st, all, h);
    GrowsReflexive(st);
    ExtendChain(st, st, f, hops, chain, h, owner);
    chain' := chain + [owner];
    ok := true;
  }

  lemma GrowsReflexive(st: PlanState)
    ensures Grows(st, st)
  {
  }

  lemma NewStageIsListed(orig: Original, st: PlanState, used: set<Hop>, h: Hop, pos: StageId)
    requires Consistent(orig, st, used) && pos in st.order
    ensures st.nextStage in CreateStage(st, h.memory, h.unit, pos).order
  {
    NextIsFresh(orig, st, used);
    InsertedOnce(st.order, st.nextStage, pos);
    assert st.nextStage in Elems(InsertAfter(st.order, st.nextStage, pos));
  }

  lemma ExtendChain(st: PlanState, st': PlanState, f: DataFlow, hops: seq<Hop>, chain: seq<StageId>, h: Hop, s: StageId)
    requires ChainMatches(st, f, hops, chain) && Grows(st, st')
    requires OwnedFor(st', h) && st'.unitOwner[h.unit] == s
    requires s != f.producer && s != f.consumer && (s !in st.info || s !in chain)
    ensures ChainMatches(st', f, hops + [h], chain + [s])
  {
    forall k | 0 <= k < |hops|
      ensures OwnedFor(st', hops[k]) && chain[k] == st'.unitOwner[hops[k].unit] && chain[k] != s
    {
      assert OwnedFor(st, hops[k]);
      assert chain[k] in chain;
    }
  }

  // ----- One flow

  /** The stages that were inserted stand in a row behind the first place, and are in the chain. */
  predicate InARow(order0: seq<StageId>, last0: StageId, order: seq<StageId>, last: StageId, news: seq<StageId>,
                   chain: seq<StageId>)
  {
    && last0 in order0 && order == InsertAll(order0, news, last0) && last == LastOf(news, last0)
    && forall s :: s in news ==> s in chain
  }

  lemma NoneInARow(order: seq<StageId>, last: StageId)
    requires last in order
    ensures InARow(order, last, order, last, [], [])
  {
    var i := IndexOf(order, last);
    assert order[..i + 1] + [] + order[i + 1..] == order;
  }

  lemma OrderIsDistinct(orig: Original, st: PlanState, used: set<Hop>)
    requires Consistent(orig, st, used)
    ensures Distinct(st.order)
  {
  }

  lemma RowGrows(order0: seq<StageId>, last0: StageId, order: seq<StageId>, last: StageId, news: seq<StageId>,
                 chain: seq<StageId>, order': seq<StageId>, last': StageId, chain': seq<StageId>)
    returns (news': seq<StageId>)
    requires InARow(order0, last0, order, last, news, chain) && Distinct(order)
    requires StepsBehind(order, last, order', last', chain, chain')
    ensures InARow(order0, last0, order', last', news', chain')
  {
    if order' == order && last' == last {
      news' := news;
    } else {
      InsertOneMore(order0, news, last0, last');
      news' := news + [last'];
    }
  }

  /** hops is what the cut has found between the start of the middle and path index i. */
  ghost predicate CutSoFar(nodes: Nodes, f: DataFlow, hops: seq<Hop>, i: nat)
    requires HasMiddle(nodes, f)
  {
    && (if hops == [] then i == f.MiddleBegin() else i == hops[|hops| - 1].End() <= f.MiddleEnd())
    && var rest := CutHops(nodes, f.path, i, f.MiddleEnd());
       FlowHops(nodes, f) == if rest.None? then None else Some(hops + rest.value)
  }

  lemma CutOneMore(nodes: Nodes, f: DataFlow, hops: seq<Hop>, i: nat)
    requires HasMiddle(nodes, f) && CutSoFar(nodes, f, hops, i) && i < f.MiddleEnd()
    ensures var h := HopAt(nodes, f.path, i, f.MiddleEnd());
            if h.None? then FlowHops(nodes, f).None?
            else CutSoFar(nodes, f, hops + [h.value], h.value.End())
  {
    var h := HopAt(nodes, f.path, i, f.MiddleEnd());
    if h.Some? {
      var rest := CutHops(nodes, f.path, h.value.End(), f.MiddleEnd());
      if rest.Some? {
        assert hops + ([h.value] + rest.value) == (hops + [h.value]) + rest.value;
      }
    }
  }

  lemma BoundariesGrow(hops: seq<Hop>, h: Hop)
    ensures Boundaries(hops + [h], h.End()) == Boundaries(hops, h.begin) + [h.End()]
  {
    if hops != [] {
      assert (hops + [h])[1..] == hops[1..] + [h];
      BoundariesGrow(hops[1..], h);
    } else {
      assert hops + [h] == [h];
    }
  }

  /** f has been given a stage for each of its hops. */
  ghost predicate IsExpanded(nodes: Nodes, st: PlanState, f: DataFlow) {
    && HasMiddle(nodes, f) && FlowHops(nodes, f).Some?
    && ChainMatches(st, f, FlowHops(nodes, f).value, f.chain)
    && f.boundaries == if f.chain == [] then [] else Boundaries(FlowHops(nodes, f).value, f.MiddleEnd())
  }

  lemma ExpandedStays(nodes: Nodes, st: PlanState, st': PlanState, f: DataFlow)
    requires IsExpanded(nodes, st, f) && Grows(st, st')
    ensures IsExpanded(nodes, st', f)
  {
    var hops := FlowHops(nodes, f).value;
    forall k | 0 <= k < |hops| ensures OwnedFor(st', hops[k]) && f.chain[k] == st'.unitOwner[hops[k].unit] {
      assert OwnedFor(st, hops[k]);
    }
  }

  lemma UnfitHop(nodes: Nodes, info0: Infos, f: DataFlow, used: set<Hop>, hops: seq<Hop>, h: Hop, i: nat)
    requires HasMiddle(nodes, f) && CutSoFar(nodes, f, hops + [h], i)
    requires !(HopFits(info0, f, h, used) && NewUnit(hops, h))
    ensures !FlowFits(nodes, info0, f, used)
  {
    if FlowHops(nodes, f).Some? {
      var all := FlowHops(nodes, f).value;
      assert all[|hops|] == h && h in all;
      assert forall k :: 0 <= k < |hops| ==> all[k] == hops[k];
    }
  }

  /** Splits the middle of one flow's path into hops and gives each to a stage. */
  method ExpandFlow(nodes: Nodes, st0: PlanState, f0: DataFlow, lastInserted0: StageId, ghost orig: Original,
                    ghost used: set<Hop>)
    returns (ok: bool, st: PlanState, f: DataFlow, lastInserted: StageId, ghost news: seq<StageId>)
    requires Consistent(orig, st0, used) && HasMiddle(nodes, f0)
    requires f0.producer in orig.info && f0.consumer in orig.info && lastInserted0 in st0.order
    ensures ok <==> FlowFits(nodes, orig.info, f0, used)
    ensures ok ==> f == f0.(chain := f.chain, boundaries := f.boundaries) && IsExpanded(nodes, st, f)
    ensures ok ==> Consistent(orig, st, used + Elems(FlowHops(nodes, f0).value)) && Grows(st0, st)
                   && lastInserted in st.order
    ensures ok ==> InARow(st0.order, lastInserted0, st.order, lastInserted, news, f.chain)
  {
    hide Consistent, Grows, CutHops, HopAt, IsPartition, IsExpanded, HopsFit, HopFits, NewUnit, ChainMatches, CutSoFar,
        InARow, StepsBehind;
    st, lastInserted, f, ok, news := st0, lastInserted0, f0, false, [];
    NoneInARow(st0.order, lastInserted0);
    var chain: seq<StageId> := [];
    var end := f0.MiddleEnd();
    var boundaries := [f0.MiddleBegin()];
    ghost var hops: seq<Hop> := [];
    assert used + Elems(hops) == used;
    StartOfCut(nodes, orig.info, st, f0, used);
    GrowsReflexive(st0);
    var i := f0.MiddleBegin();
    while i < end
      invariant CutSoFar(nodes, f0, hops, i) && HopsFit(orig.info, f0, hops, used)
      invariant Consistent(orig, st, used + Elems(hops)) && ChainMatches(st, f0, hops, chain)
      invariant Grows(st0, st) && lastInserted in st.order
      invariant boundaries == Boundaries(hops, i) && |chain| == |hops|
      invariant InARow(st0.order, lastInserted0, st.order, lastInserted, news, chain)
      decreases if i < end then end - i else 0
    {
      CutOneMore(nodes, f0, hops, i);
      var found := HopAt(nodes, f0.path, i, end);
      if found.None? {
        return;
      }
      var h := found.value;
      var more, st', chain', last' := AddHop(st, f0, chain, lastInserted, h, orig, used, hops);
      if !more {
        UnfitHop(nodes, orig.info, f0, used, hops, h, h.End());
        return;
      }
      GrowsTransitive(st0, st, st');
      OrderIsDistinct(orig, st, used + Elems(hops));
      news := RowGrows(st0.order, lastInserted0, st.order, lastInserted, news, chain, st'.order, last', chain');
      BoundariesGrow(hops, h);
      OneMoreFits(orig.info, f0, hops, used, h);
      st, chain, lastInserted, i := st', chain', last', h.End();
      boundaries := boundaries + [i];
      hops := hops + [h];
    }
    EndOfCut(nodes, f0, hops, i);
    if chain == [] {
      boundaries := [];
    }
    FinishFlow(nodes, st, f0, hops, chain, boundaries);
    f := f0.(chain := chain, boundaries := boundaries);
    ok := true;
  }

  lemma OneMoreFits(info0: Infos, f: DataFlow, hops: seq<Hop>, used: set<Hop>, h: Hop)
    requires HopsFit(info0, f, hops, used) && HopFits(info0, f, h, used) && NewUnit(hops, h)
    ensures HopsFit(info0, f, hops + [h], used)
  {
    hide HopFits;
  }

  lemma FinishFlow(nodes: Nodes, st: PlanState, f: DataFlow, hops: seq<Hop>, chain: seq<StageId>, boundaries: seq<nat>)
    requires HasMiddle(nodes, f) && FlowHops(nodes, f) == Some(hops) && ChainMatches(st, f, hops, chain)
    requires boundaries == if chain == [] then [] else Boundaries(hops, f.MiddleEnd())
    ensures IsExpanded(nodes, st, f.(chain := chain, boundaries := boundaries))
  {
    hide CutHops, Boundaries, OwnedFor;
  }

  lemma StartOfCut(nodes: Nodes, info0: Infos, st: PlanState, f: DataFlow, used: set<Hop>)
    requires HasMiddle(nodes, f)
    ensures CutSoFar(nodes, f, [], f.MiddleBegin()) && HopsFit(info0, f, [], used) && ChainMatches(st, f, [], [])
  {
    assert FlowHops(nodes, f).Some? ==> [] + FlowHops(nodes, f).value == FlowHops(nodes, f).value;
  }

  lemma EndOfCut(nodes: Nodes, f: DataFlow, hops: seq<Hop>, i: nat)
    requires HasMiddle(nodes, f) && CutSoFar(nodes, f, hops, i) && i >= f.MiddleEnd()
    ensures FlowHops(nodes, f) == Some(hops)
    ensures hops != [] ==> Boundaries(hops, i) == Boundaries(hops, f.MiddleEnd())
  {
    assert hops + [] == hops;
  }

  lemma GrowsTransitive(a: PlanState, b: PlanState, c: PlanState)
    requires Grows(a, b) && Grows(b, c)
    ensures Grows(a, c)
  {
  }

  // ----- All flows

  /** Each stage that was added behind p is in the chain of a flow that p produces. */
  predicate AddedForFlows(added: map<StageId, seq<StageId>>, flows: seq<DataFlow>) {
    forall p, s :: p in added && s in added[p] ==> exists f :: f in flows && f.producer == p && s in f.chain
  }

  /** flows is flows0 with stages given to all hops. */
  ghost predicate AllExpanded(nodes: Nodes, st: PlanState, flows0: seq<DataFlow>, flows: seq<DataFlow>) {
    && |flows| == |flows0|
    && forall i :: 0 <= i < |flows| ==>
         flows[i] == flows0[i].(chain := flows[i].chain, boundaries := flows[i].boundaries)
           && IsExpanded(nodes, st, flows[i])
  }

  lemma OneMoreExpanded(nodes: Nodes, st: PlanState, st': PlanState, flows0: seq<DataFlow>, flows: seq<DataFlow>,
                        f0: DataFlow, f: DataFlow)
    requires AllExpanded(nodes, st, flows0, flows) && Grows(st, st')
    requires f == f0.(chain := f.chain, boundaries := f.boundaries) && IsExpanded(nodes, st', f)
    ensures AllExpanded(nodes, st', flows0 + [f0], flows + [f])
  {
    hide IsExpanded, Grows;
    forall i | 0 <= i < |flows| ensures IsExpanded(nodes, st', flows[i]) {
      ExpandedStays(nodes, st, st', flows[i]);
    }
  }

  lemma OneMoreFlowHops(nodes: Nodes, flows: seq<DataFlow>, f: DataFlow)
    requires (forall g :: g in flows ==> HasMiddle(nodes, g)) && HasMiddle(nodes, f) && FlowHops(nodes, f).Some?
    ensures (forall g :: g in flows + [f] ==> HasMiddle(nodes, g))
    ensures AllHops(nodes, flows + [f]) == AllHops(nodes, flows) + Elems(FlowHops(nodes, f).value)
  {
    hide HasMiddle, CutHops;
    assert forall g :: g in flows + [f] <==> g in flows || g == f;
  }

  lemma ListedExactly(orig: Original, st: PlanState, used: set<Hop>)
    requires Consistent(orig, st, used)
    ensures forall s :: s in st.order <==> s in st.info
    ensures forall s :: s in orig.info ==> s in st.info
  {
    assert forall s :: s in st.order <==> s in Elems(st.order);
  }

  /** In the order every new stage is in the row behind the producer of a flow it was made for, and
      nothing else has moved. */
  predicate StandsBehind(order0: seq<StageId>, added: map<StageId, seq<StageId>>, order: seq<StageId>,
                         flows: seq<DataFlow>)
  {
    order == Blocks(order0, added) && AddedForFlows(added, flows)
  }

  /** For every producer so far, the place where its next stage goes is the end of its row. */
  predicate EndsOfRows(insertAfter: map<StageId, StageId>, added: map<StageId, seq<StageId>>) {
    insertAfter.Keys == added.Keys && forall p :: p in added ==> insertAfter[p] == LastOf(added[p], p)
  }

  lemma LastIsEndOfRow(insertAfter: map<StageId, StageId>, added: map<StageId, seq<StageId>>, p: StageId)
    requires EndsOfRows(insertAfter, added)
    ensures (if p in insertAfter then insertAfter[p] else p) == LastOf(AddedBehind(added, p), p)
  {
  }

  lemma OriginalStages(orig: Original, st: PlanState)
    requires Consistent(orig, st, {}) && OverStages(orig.deps, orig.order)
    ensures Distinct(orig.order) && forall s :: s in orig.info ==> s in orig.order
    ensures StandsBehind(orig.order, map[], st.order, []) && EndsOfRows(map[], map[])
  {
    assert forall s :: s in st.order ==> s in Elems(st.order);
    RestrictAll(st.order, orig.info.Keys);
    NoBlocks(orig.order);
  }

  lemma RowsGrow(order0: seq<StageId>, added: map<StageId, seq<StageId>>, order: seq<StageId>, flows: seq<DataFlow>,
                 insertAfter: map<StageId, StageId>, f: DataFlow, order': seq<StageId>, last': StageId,
                 news: seq<StageId>)
    requires Distinct(order0) && Distinct(order) && f.producer in order0
    requires StandsBehind(order0, added, order, flows) && EndsOfRows(insertAfter, added)
    requires InARow(order, LastOf(AddedBehind(added, f.producer), f.producer), order', last', news, f.chain)
    ensures var now := added[f.producer := AddedBehind(added, f.producer) + news];
            StandsBehind(order0, now, order', flows + [f]) && EndsOfRows(insertAfter[f.producer := last'], now)
  {
    var p := f.producer;
    var now := added[p := AddedBehind(added, p) + news];
    InsertInBlock(order0, added, p, news);
    RowsEnd(insertAfter, added, p, last', news);
    hide Blocks, InsertAll, Distinct, EndsOfRows, LastOf;
    AddedForMore(added, flows, f, news);
  }

  lemma RowsEnd(insertAfter: map<StageId, StageId>, added: map<StageId, seq<StageId>>, p: StageId, last: StageId,
                news: seq<StageId>)
    requires EndsOfRows(insertAfter, added) && last == LastOf(news, LastOf(AddedBehind(added, p), p))
    ensures EndsOfRows(insertAfter[p := last], added[p := AddedBehind(added, p) + news])
  {
    if news == [] {
      EmptyBehind(AddedBehind(added, p));
    }
  }

  lemma AddedForMore(added: map<StageId, seq<StageId>>, flows: seq<DataFlow>, f: DataFlow, news: seq<StageId>)
    requires AddedForFlows(added, flows) && forall s :: s in news ==> s in f.chain
    ensures AddedForFlows(added[f.producer := AddedBehind(added, f.producer) + news], flows + [f])
  {
    var now := added[f.producer := AddedBehind(added, f.producer) + news];
    forall q, s | q in now && s in now[q] ensures exists g :: g in flows + [f] && g.producer == q && s in g.chain {
      if q in added && s in added[q] {
        var g :| g in flows && g.producer == q && s in g.chain;
        assert g in flows + [f];
      } else {
        assert s in news && f in flows + [f];
      }
    }
  }

  /** Adds the stages that move data through memories and units that have no stage of
      their own on a path. It succeeds exactly when all flows are expandable together. */
  method ExpandDataFlows(nodes: Nodes, st0: PlanState, flows0: seq<DataFlow>, ghost orig: Original)
    returns (ok: bool, st: PlanState, flows: seq<DataFlow>, ghost added: map<StageId, seq<StageId>>)
    requires Consistent(orig, st0, {}) && OverStages(orig.deps, orig.order)
    requires forall f :: f in flows0 ==> HasMiddle(nodes, f)
    requires forall f :: f in flows0 ==> f.producer in orig.info && f.consumer in orig.info
    ensures ok <==> Expandable(nodes, orig.info, flows0)
    ensures ok ==> AllExpanded(nodes, st, flows0, flows) && Consistent(orig, st, AllHops(nodes, flows0))
    ensures ok ==> StandsBehind(orig.order, added, st.order, flows)
  {
    hide Consistent, IsExpanded, AllExpanded, FlowFits, HasMiddle, CutHops, Grows, Expandable, AllHops, StandsBehind,
        InARow, OverStages, EndsOfRows;
    FitsInTurn(nodes, orig.info, flows0);
    ok, st, flows, added := false, st0, [], map[];
    OriginalStages(orig, st0);
    var insertAfter: map<StageId, StageId> := map[];
    NoneExpandedYet(nodes, st);
    for n := 0 to |flows0|
      invariant AllExpanded(nodes, st, flows0[..n], flows)
      invariant forall f :: f in flows0[..n] ==> HasMiddle(nodes, f)
      invariant Consistent(orig, st, AllHops(nodes, flows0[..n]))
      invariant forall p :: p in insertAfter ==> insertAfter[p] in st.order
      invariant StandsBehind(orig.order, added, st.order, flows) && EndsOfRows(insertAfter, added)
      invariant forall i :: 0 <= i < n ==> FlowFits(nodes, orig.info, flows0[i], AllHops(nodes, flows0[..i]))
    {
      var f0 := flows0[n];
      assert f0 in flows0 && flows0[..n + 1] == flows0[..n] + [f0];
      ListedExactly(orig, st, AllHops(nodes, flows0[..n]));
      var last := if f0.producer in insertAfter then insertAfter[f0.producer] else f0.producer;
      LastIsEndOfRow(insertAfter, added, f0.producer);
      ghost var news;
      var more, st', f, last';
      more, st', f, last', news := ExpandFlow(nodes, st, f0, last, orig, AllHops(nodes, flows0[..n]));
      if !more {
        return;
      }
      FitsCut(nodes, orig.info, f0, AllHops(nodes, flows0[..n]));
      OneMoreFlowHops(nodes, flows0[..n], f0);
      OneMoreExpanded(nodes, st, st', flows0[..n], flows, f0, f);
      ListedExactly(orig, st', AllHops(nodes, flows0[..n + 1]));
      StillListed(orig, st, st', AllHops(nodes, flows0[..n]), AllHops(nodes, flows0[..n + 1]));
      OrderIsDistinct(orig, st, AllHops(nodes, flows0[..n]));
      RowsGrow(orig.order, added, st.order, flows, insertAfter, f, st'.order, last', news);
      added := added[f0.producer := AddedBehind(added, f0.producer) + news];
      st, flows, insertAfter := st', flows + [f], insertAfter[f0.producer := last'];
    }
    assert flows0[..|flows0|] == flows0;
    ok := true;
  }

  lemma NoneExpandedYet(nodes: Nodes, st: PlanState)
    ensures AllExpanded(nodes, st, [], [])
    ensures AllHops(nodes, []) == {}
  {
  }

  lemma FitsCut(nodes: Nodes, info0: Infos, f: DataFlow, used: set<Hop>)
    requires FlowFits(nodes, info0, f, used)
    ensures HasMiddle(nodes, f) && FlowHops(nodes, f).Some?
  {
  }

  lemma StillListed(orig: Original, st: PlanState, st': PlanState, used: set<Hop>, used': set<Hop>)
    requires Consistent(orig, st, used) && Consistent(orig, st', used') && Grows(st, st')
    ensures forall s :: s in st.order ==> s in st'.order
  {
    ListedExactly(orig, st, used);
    ListedExactly(orig, st', used');
  }

  // ----- What an expanded flow has

  /** The hops of an expanded flow partition the middle of its path, each on the unit of
      the stage that took it on, and the boundaries increase strictly, one more of them
      than there are hops. */
  lemma ExpandedFlowPartition(nodes: Nodes, st: PlanState, f: DataFlow, k: nat)
    requires IsExpanded(nodes, st, f) && k < |f.chain|
    ensures |f.boundaries| == |f.chain| + 1
    ensures f.boundaries[0] == f.MiddleBegin() && f.boundaries[|f.chain|] == f.MiddleEnd()
    ensures f.boundaries[k] < f.boundaries[k + 1] <= f.MiddleEnd()
    ensures exists h :: IsHop(nodes, f.path, h) && h.begin == f.boundaries[k] && h.End() == f.boundaries[k + 1]
                        && f.chain[k] in st.info && st.info[f.chain[k]] == StageInfo(h.memory, Some(h.unit))
  {
    var hops := FlowHops(nodes, f).value;
    PartitionIsContiguous(nodes, f.path, hops, f.MiddleBegin(), f.MiddleEnd(), k);
    assert OwnedFor(st, hops[k]);
  }
}
