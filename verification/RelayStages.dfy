/** Stages that only transfer data, the tokens that order them, and the relays between them:
    a transfer from memory into a FIFO slot and one out of it into memory. */
module RelayStages {
  import opened Wrappers
  import opened Digraph

  type StageId = Node
  type Token = nat
  type Resource = string

  datatype Slot = Slot(id: nat, src: Resource, dest: Resource)

  /** One side of a transfer: a part of a memref in some memory, or a FIFO slot. */
  datatype Side = InMemory(space: Resource, buffer: nat, offset: int) | InSlot(slot: Slot)

  datatype TransferMode = Copy | Splat | Pad

  datatype Transfer = Transfer(source: Side, sourceSizes: seq<int>, dest: Side, destSizes: seq<int>,
                               mode: TransferMode, throttle: Option<int>)

  /** An op in a stage: a transfer, or anything else, of which only the slots matter. */
  datatype Op = Move(transfer: Transfer) | Other(slots: seq<Slot>)

  datatype Stage = Stage(id: StageId, body: seq<Op>, dependsIn: seq<Token>, dependsOut: seq<Token>,
                         units: Option<seq<Resource>>)

  predicate DistinctIds(stages: seq<Stage>) {
    forall i, j :: 0 <= i < j < |stages| ==> stages[i].id != stages[j].id
  }

  /** The stage holds transfers and nothing else. */
  predicate OnlyTransfers(s: Stage) {
    s.body != [] && forall i :: 0 <= i < |s.body| ==> s.body[i].Move?
  }

  // ----- Tokens

  /** b awaits a: it takes in a token that a puts out. */
  predicate Awaits(b: Stage, a: Stage) {
    exists t :: t in a.dependsOut && t in b.dependsIn
  }

  function ConsumerIds(stages: seq<Stage>, a: Stage): (r: seq<StageId>)
    ensures forall x :: x in r <==> exists b :: b in stages && b.id == x && Awaits(b, a)
  {
    if stages == [] then []
    else
      assert forall b :: b in stages <==> b == stages[0] || b in stages[1..];
      (if Awaits(stages[0], a) then [stages[0].id] else []) + ConsumerIds(stages[1..], a)
  }

  /** The stage graph: an edge from each stage to those that await it. */
  function GraphOf(stages: seq<Stage>): (g: Graph)
    requires DistinctIds(stages)
  {
    map i | 0 <= i < |stages| :: stages[i].id := ConsumerIds(stages, stages[i])
  }

  lemma EdgeMeansAwaits(stages: seq<Stage>, x: StageId, y: StageId)
    requires DistinctIds(stages)
    ensures Edge(GraphOf(stages), x, y) <==>
            exists a, b :: a in stages && b in stages && a.id == x && b.id == y && Awaits(b, a)
  {
    if Edge(GraphOf(stages), x, y) {
      var i :| 0 <= i < |stages| && stages[i].id == x;
      var b :| b in stages && b.id == y && Awaits(b, stages[i]);
    }
  }

  /** The same for two stages at hand. */
  lemma EdgeBetween(stages: seq<Stage>, a: Stage, b: Stage)
    requires DistinctIds(stages) && a in stages && b in stages
    ensures Edge(GraphOf(stages), a.id, b.id) <==> Awaits(b, a)
  {
    EdgeMeansAwaits(stages, a.id, b.id);
    if Edge(GraphOf(stages), a.id, b.id) {
      var a', b' :| a' in stages && b' in stages && a'.id == a.id && b'.id == b.id && Awaits(b', a');
      SameIdSameStage(stages, a, a');
      SameIdSameStage(stages, b, b');
    }
  }

  lemma SameIdSameStage(stages: seq<Stage>, a: Stage, b: Stage)
    requires DistinctIds(stages) && a in stages && b in stages && a.id == b.id
    ensures a == b
  {
  }

  // ----- Slots

  function SideUses(side: Side, slot: Slot): nat {
    if side == InSlot(slot) then 1 else 0
  }

  function OpUses(op: Op, slot: Slot): nat {
    match op
    case Move(t) => SideUses(t.source, slot) + SideUses(t.dest, slot)
    case Other(slots) => multiset(slots)[slot]
  }

  function BodyUses(body: seq<Op>, slot: Slot): nat {
    if body == [] then 0 else OpUses(body[0], slot) + BodyUses(body[1..], slot)
  }

  function Uses(stages: seq<Stage>, slot: Slot): nat {
    if stages == [] then 0 else BodyUses(stages[0].body, slot) + Uses(stages[1..], slot)
  }

  lemma {:induction false} BodyUsesAt(body: seq<Op>, i: nat, slot: Slot)
    requires i < |body|
    ensures BodyUses(body, slot) == BodyUses(body[..i], slot) + OpUses(body[i], slot) + BodyUses(body[i + 1..], slot)
  {
    if i > 0 {
      BodyUsesAt(body[1..], i - 1, slot);
      assert body[1..][..i - 1] == body[..i][1..] && body[1..][i..] == body[i + 1..];
    }
  }

  lemma {:induction false} BodyUsesConcat(a: seq<Op>, b: seq<Op>, slot: Slot)
    ensures BodyUses(a + b, slot) == BodyUses(a, slot) + BodyUses(b, slot)
  {
    if a == [] {
      assert a + b == b;
    } else {
      assert (a + b)[1..] == a[1..] + b;
      BodyUsesConcat(a[1..], b, slot);
    }
  }

  lemma {:induction false} UsesAt(stages: seq<Stage>, i: nat, slot: Slot)
    requires i < |stages|
    ensures Uses(stages, slot) == Uses(stages[..i], slot) + BodyUses(stages[i].body, slot) + Uses(stages[i + 1..], slot)
  {
    if i > 0 {
      UsesAt(stages[1..], i - 1, slot);
      assert stages[1..][..i - 1] == stages[..i][1..] && stages[1..][i..] == stages[i + 1..];
    }
  }

  /** Changing the body of one stage changes the uses by the difference. */
  lemma {:induction false} UsesAfterUpdate(stages: seq<Stage>, i: nat, s: Stage, slot: Slot)
    requires i < |stages|
    ensures Uses(stages[i := s], slot) == Uses(stages, slot) - BodyUses(stages[i].body, slot) + BodyUses(s.body, slot)
  {
    UsesAt(stages, i, slot);
    UsesAt(stages[i := s], i, slot);
    assert stages[i := s][..i] == stages[..i] && stages[i := s][i + 1..] == stages[i + 1..];
  }

  lemma {:induction false} UsesDependOnBodies(a: seq<Stage>, b: seq<Stage>, slot: Slot)
    requires |a| == |b| && forall i :: 0 <= i < |a| ==> a[i].body == b[i].body
    ensures Uses(a, slot) == Uses(b, slot)
  {
    if a != [] {
      UsesDependOnBodies(a[1..], b[1..], slot);
    }
  }

  lemma {:induction false} UsesWithoutEmpty(stages: seq<Stage>, d: nat, slot: Slot)
    requires d < |stages| && stages[d].body == []
    ensures Uses(stages[..d] + stages[d + 1..], slot) == Uses(stages, slot)
  {
    if d == 0 {
      assert stages[..d] + stages[d + 1..] == stages[1..];
    } else {
      UsesWithoutEmpty(stages[1..], d - 1, slot);
      assert (stages[..d] + stages[d + 1..])[1..] == stages[1..][..d - 1] + stages[1..][d..];
    }
  }

  /** Op i of stage p. */
  predicate At(stages: seq<Stage>, p: nat, i: nat) {
    p < |stages| && i < |stages[p].body|
  }

  /** Two different ops use a slot no more often than all together. */
  lemma TwoOpsUse(stages: seq<Stage>, p: nat, i: nat, c: nat, j: nat, slot: Slot)
    requires At(stages, p, i) && At(stages, c, j) && (p != c || i != j)
    ensures OpUses(stages[p].body[i], slot) + OpUses(stages[c].body[j], slot) <= Uses(stages, slot)
  {
    var s, t := stages[p], stages[c];
    BodyUsesAt(s.body, i, slot);
    if p == c {
      UsesAt(stages, p, slot);
      var k := if j < i then j else j - i - 1;
      var part := if j < i then s.body[..i] else s.body[i + 1..];
      BodyUsesAt(part, k, slot);
    } else {
      BodyUsesAt(t.body, j, slot);
      var without := stages[p := s.(body := [])];
      UsesAfterUpdate(stages, p, s.(body := []), slot);
      UsesAt(without, c, slot);
    }
  }

  lemma ThreeOpsUse(stages: seq<Stage>, p: nat, i: nat, c: nat, j: nat, q: nat, k: nat, slot: Slot)
    requires At(stages, p, i) && At(stages, c, j) && At(stages, q, k)
    requires (p, i) != (c, j) && (p, i) != (q, k) && (c, j) != (q, k)
    ensures OpUses(stages[p].body[i], slot) + OpUses(stages[c].body[j],
                                                     slot) + OpUses(stages[q].body[k], slot) <= Uses(stages, slot)
  {
    var s := stages[p];
    var body := s.body[i := Other([])];
    var without := stages[p := s.(body := body)];
    BodyUsesAt(s.body, i, slot);
    BodyUsesAt(body, i, slot);
    assert body[..i] == s.body[..i] && body[i + 1..] == s.body[i + 1..];
    UsesAfterUpdate(stages, p, s.(body := body), slot);
    TwoOpsUse(without, c, j, q, k, slot);
  }

  // ----- Relays

  /** Where a relay is: op i of stage p writes the slot, op j of stage c reads it. */
  datatype Relay = Relay(p: nat, i: nat, c: nat, j: nat)

  /** A transfer from memory into a slot with no other users than one transfer, in another
      stage, out of it into memory; both stages hold nothing but transfers. */
  predicate IsRelay(stages: seq<Stage>, r: Relay) {
    && At(stages, r.p, r.i) && At(stages, r.c, r.j) && r.p != r.c
    && OnlyTransfers(stages[r.p]) && OnlyTransfers(stages[r.c])
    && var (incoming, outgoing) := (stages[r.p].body[r.i].transfer, stages[r.c].body[r.j].transfer);
    && incoming.source.InMemory? && incoming.dest.InSlot? && outgoing.source == incoming.dest && outgoing.dest.InMemory?
    && Uses(stages, incoming.dest.slot) == 2
  }

  function In(stages: seq<Stage>, r: Relay): Transfer
    requires IsRelay(stages, r)
  {
    stages[r.p].body[r.i].transfer
  }

  function Out(stages: seq<Stage>, r: Relay): Transfer
    requires IsRelay(stages, r)
  {
    stages[r.c].body[r.j].transfer
  }

  /** Nothing but the two transfers of a relay uses its slot. */
  lemma OnlyRelayUses(stages: seq<Stage>, r: Relay, q: nat, k: nat)
    requires IsRelay(stages, r) && At(stages, q, k) && (q, k) != (r.p, r.i) && (q, k) != (r.c, r.j)
    ensures OpUses(stages[q].body[k], In(stages, r).dest.slot) == 0
  {
    ThreeOpsUse(stages, r.p, r.i, r.c, r.j, q, k, In(stages, r).dest.slot);
  }

  /** The op reads or writes the slot, or has it in some other use. */
  predicate Mentions(op: Op, slot: Slot) {
    match op
    case Move(t) => t.source == InSlot(slot) || t.dest == InSlot(slot)
    case Other(slots) => slot in slots
  }

  lemma MentionsMeansUses(op: Op, slot: Slot)
    ensures Mentions(op, slot) <==> OpUses(op, slot) > 0
  {
  }

  /** The relay's two transfers have a slot of their own: no other op uses it for anything. */
  lemma RelayHasOwnSlot(stages: seq<Stage>, r: Relay)
    requires At(stages, r.p, r.i) && At(stages, r.c, r.j) && r.p != r.c
    requires OnlyTransfers(stages[r.p]) && OnlyTransfers(stages[r.c])
    ensures var (incoming, outgoing) := (stages[r.p].body[r.i].transfer, stages[r.c].body[r.j].transfer);
            IsRelay(stages, r) <==>
            && incoming.source.InMemory? && incoming.dest.InSlot? && outgoing.source == incoming.dest
            && outgoing.dest.InMemory?
            && forall q: nat, k: nat :: At(stages, q, k) && (q, k) != (r.p, r.i) && (q, k) != (r.c, r.j) ==>
                 !Mentions(stages[q].body[k], incoming.dest.slot)
  {
    var (incoming, outgoing) := (stages[r.p].body[r.i].transfer, stages[r.c].body[r.j].transfer);
    if incoming.source.InMemory? && incoming.dest.InSlot? && outgoing.source == incoming.dest
       && outgoing.dest.InMemory? {
      var slot := incoming.dest.slot;
      forall q: nat, k: nat | At(stages, q, k)
        ensures Mentions(stages[q].body[k], slot) <==> OpUses(stages[q].body[k], slot) > 0
      {
        MentionsMeansUses(stages[q].body[k], slot);
      }
      hide Uses, BodyUses, Mentions;
      TwoUsesIff(stages, r, slot);
    }
  }

  lemma TwoUsesIff(stages: seq<Stage>, r: Relay, slot: Slot)
    requires At(stages, r.p, r.i) && At(stages, r.c, r.j) && r.p != r.c
    requires OpUses(stages[r.p].body[r.i], slot) == 1 && OpUses(stages[r.c].body[r.j], slot) == 1
    ensures Uses(stages, slot) == 2 <==>
            forall q: nat, k: nat :: At(stages, q, k) && (q, k) != (r.p, r.i) && (q, k) != (r.c, r.j) ==>
                             OpUses(stages[q].body[k], slot) == 0
  {
    forall q: nat, k: nat | Uses(stages, slot) == 2 && At(stages, q, k) && (q, k) != (r.p, r.i) && (q, k) != (r.c, r.j)
      ensures OpUses(stages[q].body[k], slot) == 0
    {
      ThreeOpsUse(stages, r.p, r.i, r.c, r.j, q, k, slot);
    }
    if forall q: nat, k: nat :: At(stages, q, k) && (q, k) != (r.p, r.i) && (q, k) != (r.c, r.j) ==>
                        OpUses(stages[q].body[k], slot) == 0 {
      hide Uses, OpUses;
      BodyUsesOne(stages[r.p].body, r.i, slot);
      BodyUsesOne(stages[r.c].body, r.j, slot);
      UsesOfTwo(stages, r.p, r.c, slot);
    }
  }

  lemma {:induction false} NoBodyUses(body: seq<Op>, slot: Slot)
    requires forall k :: 0 <= k < |body| ==> OpUses(body[k], slot) == 0
    ensures BodyUses(body, slot) == 0
  {
    if body != [] {
      NoBodyUses(body[1..], slot);
    }
  }

  lemma BodyUsesOne(body: seq<Op>, i: nat, slot: Slot)
    requires i < |body| && forall k :: 0 <= k < |body| && k != i ==> OpUses(body[k], slot) == 0
    ensures BodyUses(body, slot) == OpUses(body[i], slot)
  {
    BodyUsesAt(body, i, slot);
    NoBodyUses(body[..i], slot);
    NoBodyUses(body[i + 1..], slot);
  }

  lemma {:induction false} NoUses(stages: seq<Stage>, slot: Slot)
    requires forall q: nat, k: nat :: At(stages, q, k) ==> OpUses(stages[q].body[k], slot) == 0
    ensures Uses(stages, slot) == 0
  {
    if stages != [] {
      assert forall k :: 0 <= k < |stages[0].body| ==> At(stages, 0, k);
      NoBodyUses(stages[0].body, slot);
      forall q: nat, k: nat | At(stages[1..], q, k) ensures OpUses(stages[1..][q].body[k], slot) == 0 {
        assert At(stages, q + 1, k);
      }
      NoUses(stages[1..], slot);
    }
  }

  /** Only two stages use the slot. */
  lemma UsesOfTwo(stages: seq<Stage>, p: nat, c: nat, slot: Slot)
    requires p < |stages| && c < |stages| && p != c
    requires forall q: nat, k: nat :: At(stages, q, k) && q != p && q != c ==> OpUses(stages[q].body[k], slot) == 0
    ensures Uses(stages, slot) == BodyUses(stages[p].body, slot) + BodyUses(stages[c].body, slot)
  {
    var s, t := stages[p].(body := []), stages[c].(body := []);
    var without := stages[p := s];
    UsesAfterUpdate(stages, p, s, slot);
    UsesAfterUpdate(without, c, t, slot);
    var left := without[c := t];
    forall q: nat, k: nat | At(left, q, k) ensures OpUses(left[q].body[k], slot) == 0 {
      assert At(stages, q, k);
    }
    NoUses(left, slot);
  }

  /** The mode of the transfer that does both, unless both change sizes. */
  function MergeMode(a: TransferMode, b: TransferMode): Option<TransferMode> {
    if a.Copy? then Some(b) else if b.Copy? then Some(a) else None
  }

  /** The attribute that may be on both, unless they carry it with different values. */
  function MergeThrottle(a: Option<int>, b: Option<int>): Option<Option<int>> {
    if a.Some? && b.Some? && a != b then None else Some(if a.Some? then a else b)
  }

  /** The memories differ, what goes into the slot is what comes out of it, and the two
      transfers can be told as one. */
  predicate IsComposable(incoming: Transfer, outgoing: Transfer)
    requires incoming.source.InMemory? && outgoing.dest.InMemory?
  {
    && incoming.source.space != outgoing.dest.space
    && incoming.destSizes == outgoing.sourceSizes
    && MergeMode(incoming.mode, outgoing.mode).Some?
    && MergeThrottle(incoming.throttle, outgoing.throttle).Some?
  }

  function Compose(incoming: Transfer, outgoing: Transfer): Transfer
    requires incoming.source.InMemory? && outgoing.dest.InMemory? && IsComposable(incoming, outgoing)
  {
    Transfer(incoming.source, incoming.sourceSizes, outgoing.dest, outgoing.destSizes,
             MergeMode(incoming.mode, outgoing.mode).value, MergeThrottle(incoming.throttle, outgoing.throttle).value)
  }

  /** Two transfers can be told as one exactly if the memories differ, the sizes meet, one of them is a
      plain copy and they do not ask for different throttles; the one transfer then has the mode of the
      other. */
  lemma ComposableIff(a: Transfer, b: Transfer)
    requires a.source.InMemory? && b.dest.InMemory?
    ensures IsComposable(a, b) <==>
            && a.source.space != b.dest.space && a.destSizes == b.sourceSizes && (a.mode.Copy? || b.mode.Copy?)
            && (a.throttle.Some? && b.throttle.Some? ==> a.throttle.value == b.throttle.value)
    ensures IsComposable(a, b) ==>
              var c := Compose(a, b);
              && c.source == a.source && c.sourceSizes == a.sourceSizes
              && c.dest == b.dest && c.destSizes == b.destSizes
              && (a.mode.Copy? ==> c.mode == b.mode) && (b.mode.Copy? ==> c.mode == a.mode)
              && forall v :: c.throttle == Some(v) <==> a.throttle == Some(v) || b.throttle == Some(v)
  {
  }

  predicate Passes(stages: seq<Stage>, r: Relay) {
    IsRelay(stages, r) && IsComposable(In(stages, r), Out(stages, r))
  }

  /** The one transfer that does what the relay does. */
  function Composed(stages: seq<Stage>, r: Relay): (t: Transfer)
    requires Passes(stages, r)
    ensures t.source.InMemory? && t.dest.InMemory?
  {
    Compose(In(stages, r), Out(stages, r))
  }
}
