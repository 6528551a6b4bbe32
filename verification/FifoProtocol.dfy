/** One FIFO between two blocks: when its protocol is known, its writes and its reads are brought
    into one order, and every read keeps getting what its own slot's write pushed. */
module FifoProtocol {
  import opened Wrappers
  import opened Digraph
  import opened BlockMotion
  import opened BlockReordering
  import opened FifoChannel
  import opened FifoOrdering
  import opened Sequences
  import opened UseOrder

  // ----- The known protocol

  function OwnOps(accesses: seq<Access>): set<Op> {
    Elems(WritersOf(accesses)) + Elems(ReadersOf(accesses))
  }

  /** One block of one stage writes all slots, one of another stage reads them all, and the FIFO,
      which the operations of the channel access, has no other access. */
  predicate IsKnown(accesses: seq<Access>, channel: set<Op>)
    requires accesses != []
  {
    && (forall a :: a in accesses ==>
                      a.writer.block == accesses[0].writer.block && a.reader.block == accesses[0].reader.block)
    && channel == OwnOps(accesses)
    && accesses[0].writer.stage != accesses[0].reader.stage
  }

  /** So no block both writes and reads it, if all operations of a block are in one stage. */
  lemma KnownBlocksDiffer(accesses: seq<Access>, channel: set<Op>)
    requires accesses != [] && IsKnown(accesses, channel)
    requires forall x, y :: x in channel && y in channel && x.block == y.block ==> x.stage == y.stage
    ensures forall x, y :: x in channel && y in channel ==>
              (x.block == y.block <==>
               (x in WritersOf(accesses) && y in WritersOf(accesses))
               || (x in ReadersOf(accesses) && y in ReadersOf(accesses)))
  {
    var ws, rs := WritersOf(accesses), ReadersOf(accesses);
    forall x | x in channel
      ensures x in ws || x in rs
      ensures x in ws ==> x.block == accesses[0].writer.block
      ensures x in rs ==> x.block == accesses[0].reader.block
    {
      if x in ws {
        var i :| 0 <= i < |ws| && ws[i] == x;
        assert accesses[i] in accesses;
      }
      if x in rs {
        var i :| 0 <= i < |rs| && rs[i] == x;
        assert accesses[i] in accesses;
      }
    }
    assert ws[0] in channel && rs[0] in channel;
  }

  lemma SameSize(a: set<Op>, b: set<Op>)
    requires a <= b
    ensures |a| == |b| <==> a == b
  {
    assert b == a + (b - a);
    if a != b {
      assert |b - a| > 0;
    }
  }

  method HasKnownProtocol(accesses: seq<Access>, channel: set<Op>) returns (known: bool)
    requires accesses != [] && OwnOps(accesses) <= channel
    ensures known == IsKnown(accesses, channel)
  {
    var own: set<Op> := {};
    assert OwnOps(accesses[..0]) == {};
    hide OwnOps;
    for i := 0 to |accesses|
      invariant forall j :: 0 <= j < i ==>
        accesses[j].writer.block == accesses[0].writer.block && accesses[j].reader.block == accesses[0].reader.block
      invariant own == OwnOps(accesses[..i])
    {
      var a := accesses[i];
      assert a in accesses;
      if a.writer.block != accesses[0].writer.block || a.reader.block != accesses[0].reader.block {
        return false;
      }
      OwnStep(accesses, i);
      own := own + {a.writer, a.reader};
    }
    assert accesses[..|accesses|] == accesses;
    SameSize(own, channel);
    return |own| == |channel| && accesses[0].writer.stage != accesses[0].reader.stage;
  }

  lemma OwnStep(accesses: seq<Access>, i: nat)
    requires i < |accesses|
    ensures OwnOps(accesses[..i + 1]) == OwnOps(accesses[..i]) + {accesses[i].writer, accesses[i].reader}
  {
    var before, after := accesses[..i], accesses[..i + 1];
    assert WritersOf(after) == WritersOf(before) + [accesses[i].writer];
    assert ReadersOf(after) == ReadersOf(before) + [accesses[i].reader];
  }

  // ----- Ordering

  datatype Outcome = Unknown | AlreadyInOrder | WritesStay | ReadsStay | Ordered

  function Decide(w: seq<Op>, r: seq<Op>, order: seq<Access>): Outcome
    requires AreIn(WritersOf(order), w) && AreIn(ReadersOf(order), r)
  {
    var writers, readers := WritersOf(order), ReadersOf(order);
    if InOrder(w, writers) && InOrder(r, readers) then AlreadyInOrder
    else if !InOrder(w, writers) && !CanMove(w, writers, true) then WritesStay
    else if !InOrder(r, readers) && !CanMove(r, readers, false) then ReadsStay
    else Ordered
  }

  /** The block with the operations in order. */
  function Brought(b: seq<Op>, ops: seq<Op>): seq<Op>
    requires AreIn(ops, b)
  {
    if InOrder(b, ops) then b else Reordered(b, EarliestPlace(b, ops), ops)
  }

  predicate WritesMove(w: seq<Op>, order: seq<Access>)
    requires AreIn(WritersOf(order), w)
  {
    InOrder(w, WritersOf(order)) || CanMove(w, WritersOf(order), true)
  }

  predicate ReadsMove(r: seq<Op>, order: seq<Access>)
    requires AreIn(ReadersOf(order), r)
  {
    InOrder(r, ReadersOf(order)) || CanMove(r, ReadersOf(order), false)
  }

  /** The two blocks once the FIFO is ordered. */
  function BlocksAfter(w: seq<Op>, r: seq<Op>, order: seq<Access>): (seq<Op>, seq<Op>)
    requires AreIn(WritersOf(order), w) && AreIn(ReadersOf(order), r)
  {
    if !WritesMove(w, order) then (w, r)
    else (Brought(w, WritersOf(order)), if ReadsMove(r, order) then Brought(r, ReadersOf(order)) else r)
  }

  method CollectKeys(accesses: seq<Access>, r: seq<Op>) returns (keyed: Option<seq<Keyed<Access>>>)
    requires forall a :: a in accesses ==> UsesAreIn(a, r)
    ensures keyed.Some? <==> AllKnown(accesses, r)
    ensures keyed.Some? ==> AllKnown(accesses, r) && keyed.value == WithKeys(accesses, r)
  {
    var all: seq<Keyed<Access>> := [];
    for i := 0 to |accesses|
      invariant |all| == i
      invariant forall j :: 0 <= j < i ==>
                              KeyOf(accesses[j], r).Some? && all[j] == Keyed(KeyOf(accesses[j], r).value, accesses[j])
    {
      assert accesses[i] in accesses;
      var key := GetConsumptionKey(accesses[i], r);
      if key.None? {
        return None;
      }
      all := all + [Keyed(key.value, accesses[i])];
    }
    assert AllKnown(accesses, r);
    assert all == WithKeys(accesses, r);
    return Some(all);
  }

  /** Brings the writes and then the reads into the order of use. The writes can be refused, which
      leaves both blocks as they are. */
  method OrderFifo(writers: Block, readers: Block, accesses: seq<Access>) returns (outcome: Outcome)
    requires writers != readers && AreAccessesOf(accesses, writers.ops, readers.ops)
    modifies writers, readers
    ensures outcome == Unknown <==> !AllKnown(accesses, old(readers.ops))
    ensures outcome != Unknown ==>
      var order := OrderOfUse(accesses, old(readers.ops));
      && AreIn(WritersOf(order), old(writers.ops)) && AreIn(ReadersOf(order), old(readers.ops))
      && outcome == Decide(old(writers.ops), old(readers.ops), order)
      && (writers.ops, readers.ops) == BlocksAfter(old(writers.ops), old(readers.ops), order)
    ensures outcome in {Unknown, AlreadyInOrder, WritesStay} ==>
              writers.ops == old(writers.ops) && readers.ops == old(readers.ops)
    ensures outcome == Unknown <==>
            exists a :: a in accesses && forall place: nat, inBody: nat :: !UsedAt(a, old(readers.ops), place, inBody)
    ensures outcome == AlreadyInOrder <==>
            && outcome != Unknown && StandByUse(old(writers.ops), accesses, old(readers.ops), true)
            && StandByUse(old(readers.ops), accesses, old(readers.ops), false)
    ensures outcome in {ReadsStay, Ordered} ==> StandByUse(writers.ops, accesses, old(readers.ops), true)
    ensures outcome == Ordered ==> StandByUse(readers.ops, accesses, old(readers.ops), false)
  {
    KnownIffUsed(accesses, readers.ops);
    var keyed := CollectKeys(accesses, readers.ops);
    if keyed.None? {
      return Unknown;
    }
    var order := ItemsOf(StableSort(keyed.value));
    OrderHasAll(accesses, readers.ops);
    OrderIsAccesses(accesses, order, writers.ops, readers.ops);
    var ws, rs := WritersOf(order), ReadersOf(order);
    OutcomeByUse(writers.ops, readers.ops, accesses);
    hide OrderOfUse, AreIn, InOrder, CanMove, Reordered, AllKnown, UsedAt, StandByUse;
    if InOrder(writers.ops, ws) && InOrder(readers.ops, rs) {
      return AlreadyInOrder;
    }
    if !InOrder(writers.ops, ws) {
      var moved := writers.MoveIntoOrder(ws, true);
      if !moved {
        return WritesStay;
      }
    }
    if !InOrder(readers.ops, rs) {
      var moved := readers.MoveIntoOrder(rs, false);
      if !moved {
        return ReadsStay;
      }
    }
    return Ordered;
  }

  /** If the writes can move, both blocks follow the order of use as far as they can, and neither
      changes if it already did. */
  lemma OutcomeByUse(w: seq<Op>, r: seq<Op>, accesses: seq<Access>)
    requires AreAccessesOf(accesses, w, r) && AllKnown(accesses, r)
    ensures var order := OrderOfUse(accesses, r);
            && AreIn(WritersOf(order), w) && AreIn(ReadersOf(order), r)
            && (InOrder(w, WritersOf(order)) <==> StandByUse(w, accesses, r, true))
            && (InOrder(r, ReadersOf(order)) <==> StandByUse(r, accesses, r, false))
            && var (w', r') := BlocksAfter(w, r, order);
            && (WritesMove(w, order) ==> StandByUse(w', accesses, r, true))
            && (WritesMove(w, order) && ReadsMove(r, order) ==> StandByUse(r', accesses, r, false))
  {
    var order := OrderOfUse(accesses, r);
    OrderHasAll(accesses, r);
    OrderIsAccesses(accesses, order, w, r);
    BroughtIs(w, WritersOf(order));
    BroughtIs(r, ReadersOf(order));
    hide OrderOfUse, InOrder, CanMove, Brought, AllKnown, UsesAreIn, StandByUse, Those;
    ThoseAreInOrder(Brought(w, WritersOf(order)), WritersOf(order));
    ThoseAreInOrder(Brought(r, ReadersOf(order)), ReadersOf(order));
    InOrderIffByUse(w, accesses, r, true);
    InOrderIffByUse(r, accesses, r, false);
    InOrderIffByUse(Brought(w, WritersOf(order)), accesses, r, true);
    InOrderIffByUse(Brought(r, ReadersOf(order)), accesses, r, false);
  }

  // ----- What the blocks keep

  /** Ordering keeps definitions before uses in both blocks, passes no memory operation with a write,
      and passes one with a read exactly if the reads are moved and one lies between them. */
  lemma BlocksStaySafe(w: seq<Op>, r: seq<Op>, order: seq<Access>)
    requires AreIn(WritersOf(order), w) && AreIn(ReadersOf(order), r)
    ensures var (w', r') := BlocksAfter(w, r, order);
            && multiset(w') == multiset(w) && multiset(r') == multiset(r)
            && (DefsFirst(w) ==> DefsFirst(w')) && (DefsFirst(r) ==> DefsFirst(r'))
            && PassesNoMemory(w, w', WritersOf(order))
            && var rs := ReadersOf(order);
               (PassesNoMemory(r, r', rs) <==> r' == r || MemoryStays(r, rs, EarliestPlace(r, rs), LatestPlace(r, rs)))
  {
    hide AreIn, InOrder, CanMove, Reordered, DefsFirst, PassesNoMemory, MemoryStays;
    NothingPassed(w, WritersOf(order));
    NothingPassed(r, ReadersOf(order));
    MovedStaysSafe(w, WritersOf(order), true);
    MovedStaysSafe(r, ReadersOf(order), false);
  }

  lemma NothingPassed(b: seq<Op>, ops: seq<Op>)
    ensures PassesNoMemory(b, b, ops)
  {
  }

  lemma MovedStaysSafe(b: seq<Op>, ops: seq<Op>, keepMemoryOrder: bool)
    requires AreIn(ops, b)
    ensures var f := EarliestPlace(b, ops);
            var now := Reordered(b, f, ops);
            && (CanMove(b, ops, keepMemoryOrder) ==> multiset(now) == multiset(b) && (DefsFirst(b) ==> DefsFirst(now)))
            && (CanMove(b, ops, true) ==> PassesNoMemory(b, now, ops))
            && (PassesNoMemory(b, now, ops) <==> MemoryStays(b, ops, f, LatestPlace(b, ops)))
  {
    var f, l := EarliestPlace(b, ops), LatestPlace(b, ops);
    if DefsFirst(b) {
      DefsStayFirst(b, f, ops);
    }
    MemoryOrderStays(b, f, l, ops);
    ReorderedIsPermutation(b, f, ops);
  }

  // ----- What the FIFO carries

  /** The slot the operation writes, or reads. */
  function SlotOf(accesses: seq<Access>, op: Op, write: bool): nat {
    if accesses == [] then 0
    else if (if write then accesses[0].writer else accesses[0].reader) == op then accesses[0].slot
    else SlotOf(accesses[1..], op, write)
  }

  /** The slots in the order in which the block's operations of the channel take them. */
  function SlotOrder(b: seq<Op>, channel: set<Op>, accesses: seq<Access>, write: bool): (slots: seq<nat>)
    ensures |slots| == |Those(b, channel)|
  {
    var ops := Those(b, channel);
    seq(|ops|, i requires 0 <= i < |ops| => SlotOf(accesses, ops[i], write))
  }

  /** The blocks are where their operations say, and a block is in one stage. */
  predicate BlocksAre(w: seq<Op>, r: seq<Op>, accesses: seq<Access>)
    requires accesses != []
  {
    && (forall op :: op in w ==> op.block == accesses[0].writer.block && op.stage == accesses[0].writer.stage)
    && (forall op :: op in r ==> op.block == accesses[0].reader.block && op.stage == accesses[0].reader.stage)
  }

  lemma {:induction false} SlotOfAccess(accesses: seq<Access>, a: Access)
    requires AreAccesses(accesses) && a in accesses
    ensures SlotOf(accesses, a.writer, true) == a.slot && SlotOf(accesses, a.reader, false) == a.slot
    decreases |accesses|
  {
    if accesses[0] != a {
      assert accesses[0] in accesses;
      var rest := accesses[1..];
      assert a in rest;
      assert forall x :: x in rest ==> x in accesses;
      SlotOfAccess(rest, a);
    }
  }

  function SlotsOf(order: seq<Access>): (slots: seq<nat>)
    ensures |slots| == |order|
  {
    seq(|order|, i requires 0 <= i < |order| => order[i].slot)
  }

  /** With the known protocol only the writers of the slots take from the FIFO in the one block,
      and only the readers in the other. */
  lemma OnlyOwn(w: seq<Op>, r: seq<Op>, accesses: seq<Access>, channel: set<Op>)
    requires AreAccessesOf(accesses, w, r) && IsKnown(accesses, channel) && BlocksAre(w, r, accesses)
    ensures Those(w, channel) == Those(w, Elems(WritersOf(accesses)))
            && Those(r, channel) == Those(r, Elems(ReadersOf(accesses)))
  {
    var ws, rs := WritersOf(accesses), ReadersOf(accesses);
    forall op | op in Elems(ws) ensures op.stage == accesses[0].writer.stage {
      var i :| 0 <= i < |ws| && ws[i] == op;
      assert accesses[i] in accesses;
    }
    forall op | op in Elems(rs) ensures op.stage == accesses[0].reader.stage {
      var i :| 0 <= i < |rs| && rs[i] == op;
      assert accesses[i] in accesses;
    }
    ThoseSame(w, channel, Elems(ws));
    ThoseSame(r, channel, Elems(rs));
  }

  lemma BroughtIs(b: seq<Op>, ops: seq<Op>)
    requires AreIn(ops, b)
    ensures Those(Brought(b, ops), Elems(ops)) == ops
    ensures Distinct(Brought(b, ops)) && forall x :: x in Brought(b, ops) <==> x in b
  {
    if InOrder(b, ops) {
      InOrderThose(b, ops);
    } else {
      var f := EarliestPlace(b, ops);
      ReorderedThose(b, f, ops);
      ReorderedIsPermutation(b, f, ops);
      forall x ensures x in Reordered(b, f, ops) <==> x in b {
        SameOps(b, f, ops, x);
      }
    }
  }

  /** The slots of the order's accesses, one after the other, are those of its operations. */
  lemma SlotsInOrder(accesses: seq<Access>, order: seq<Access>, b: seq<Op>, channel: set<Op>, write: bool)
    requires AreAccesses(accesses) && forall a :: a in order ==> a in accesses
    requires Those(b, channel) == if write then WritersOf(order) else ReadersOf(order)
    ensures SlotOrder(b, channel, accesses, write) == SlotsOf(order)
  {
    forall i | 0 <= i < |order| ensures SlotOrder(b, channel, accesses, write)[i] == order[i].slot {
      assert order[i] in order;
      SlotOfAccess(accesses, order[i]);
    }
  }

  lemma SameOwn(accesses: seq<Access>, order: seq<Access>)
    requires forall a :: a in order <==> a in accesses
    ensures Elems(WritersOf(order)) == Elems(WritersOf(accesses))
            && Elems(ReadersOf(order)) == Elems(ReadersOf(accesses))
  {
    SomeWriters(order, accesses);
    SomeWriters(accesses, order);
  }

  lemma SomeWriters(a: seq<Access>, b: seq<Access>)
    requires forall x :: x in a ==> x in b
    ensures Elems(WritersOf(a)) <= Elems(WritersOf(b)) && Elems(ReadersOf(a)) <= Elems(ReadersOf(b))
  {
    forall i | 0 <= i < |a| ensures a[i].writer in WritersOf(b) && a[i].reader in ReadersOf(b) {
      assert a[i] in a;
      var j :| 0 <= j < |b| && b[j] == a[i];
      assert WritersOf(b)[j] == a[i].writer && ReadersOf(b)[j] == a[i].reader;
    }
  }

  /** Reads that are in another order take the slots in another order. */
  lemma OtherOrder(accesses: seq<Access>, order: seq<Access>, r: seq<Op>, channel: set<Op>)
    requires AreAccesses(accesses) && AreAccesses(order) && (forall a :: a in order <==> a in accesses)
             && AreIn(ReadersOf(order), r)
    requires Those(r, channel) == Those(r, Elems(ReadersOf(order))) && !InOrder(r, ReadersOf(order))
    ensures |SlotOrder(r, channel, accesses, false)| == |order|
            && SlotOrder(r, channel, accesses, false) != SlotsOf(order)
  {
    var rs, t := ReadersOf(order), Those(r, channel);
    ThoseIffInOrder(r, rs);
    var i :| 0 <= i < |rs| && t[i] != rs[i];
    ThoseHas(r, Elems(rs));
    assert t[i] in t;
    var j :| 0 <= j < |rs| && rs[j] == t[i];
    assert order[i] in order && order[j] in order;
    SlotOfAccess(accesses, order[i]);
    SlotOfAccess(accesses, order[j]);
    assert SlotOrder(r, channel, accesses, false)[i] == order[j].slot != order[i].slot;
  }

  /** If the writes are in order or can be brought into it, the FIFO is in step afterwards exactly
      if the reads are, or can be, too. */
  lemma InStepIffReadsMove(w: seq<Op>, r: seq<Op>, accesses: seq<Access>, channel: set<Op>, capacity: nat)
    requires AreAccessesOf(accesses, w, r) && IsKnown(accesses, channel) && BlocksAre(w, r, accesses)
    requires AllKnown(accesses, r) && capacity > 0
    ensures var order := OrderOfUse(accesses, r);
            && AreIn(WritersOf(order), w) && AreIn(ReadersOf(order), r)
            && (WritesMove(w, order) ==>
                  var (w', r') := BlocksAfter(w, r, order);
                  var writes, taken := SlotOrder(w', channel, accesses, true), SlotOrder(r', channel, accesses, false);
                  && writes == SlotsOf(order) && |taken| == |writes| > 0
                  && (AlwaysInStep(writes, taken, capacity) <==> ReadsMove(r, order)))
  {
    var order := OrderOfUse(accesses, r);
    OrderHasAll(accesses, r);
    OrderIsAccesses(accesses, order, w, r);
    if WritesMove(w, order) {
      InStepAfter(w, r, accesses, channel, capacity, order);
    }
  }

  lemma InStepAfter(w: seq<Op>, r: seq<Op>, accesses: seq<Access>, channel: set<Op>, capacity: nat, order: seq<Access>)
    requires AreAccessesOf(accesses, w, r) && IsKnown(accesses, channel) && BlocksAre(w, r, accesses) && capacity > 0
    requires AreAccessesOf(order, w, r) && AreIn(WritersOf(order), w) && AreIn(ReadersOf(order), r)
    requires (forall a :: a in order <==> a in accesses) && WritesMove(w, order)
    ensures var (w', r') := BlocksAfter(w, r, order);
            var writes, taken := SlotOrder(w', channel, accesses, true), SlotOrder(r', channel, accesses, false);
            && writes == SlotsOf(order) && |taken| == |writes| > 0
            && (AlwaysInStep(writes, taken, capacity) <==> ReadsMove(r, order))
  {
    var ws, rs := WritersOf(order), ReadersOf(order);
    var (w', r') := BlocksAfter(w, r, order);
    BroughtIs(w, ws);
    BroughtIs(r, rs);
    SameOwn(accesses, order);
    OnlyOwn(w', r', accesses, channel);
    SlotsInOrder(accesses, order, w', channel, true);
    if ReadsMove(r, order) {
      SlotsInOrder(accesses, order, r', channel, false);
    } else {
      OtherOrder(accesses, order, r, channel);
    }
    hide *;
    InStepIffSameOrder(SlotOrder(w', channel, accesses, true), SlotOrder(r', channel, accesses, false), capacity);
  }

  // ----- Whether the reads can be refused

  /** Reads that only take their slot, which is defined above the stages, are never refused. */
  lemma ReadsThatOnlyTakeMove(r: seq<Op>, order: seq<Access>)
    requires AreIn(ReadersOf(order), r) && forall x, y :: x in r && y in ReadersOf(order) ==> !Feeds(x, y)
    ensures CanMove(r, ReadersOf(order), false) && ReadsMove(r, order)
  {
    var f := EarliestPlace(r, ReadersOf(order));
    forall i, op | f <= i < |r| && op in ReadersOf(order) ensures !Feeds(r[i], op) {
      assert r[i] in r;
    }
  }

  const WRITE1 := Op(1, 0, 0, {101}, {}, true)
  const WRITE2 := Op(2, 0, 0, {102}, {}, true)
  const READ1 := Op(3, 1, 1, {101}, {201}, true)
  const DESTINATION := Op(4, 1, 1, {}, {202}, true)
  const TRANSFER2 := Op(5, 1, 1, {102, 202}, {}, true)
  const USER := Op(6, 1, 1, {201}, {}, true)

  const STORE := Op(7, 1, 1, {}, {}, true)

  const ACCESS1 := Access(101, WRITE1, READ1, false, [Use(Some(USER), 0)])
  const ACCESS2 := Access(102, WRITE2, TRANSFER2, true, [])

  const WRITING := [WRITE1, WRITE2]
  const READING := [READ1, DESTINATION, TRANSFER2, USER]
  const STORING := [READ1, STORE, TRANSFER2, USER]
  const ACCESSES := [ACCESS1, ACCESS2]
  const CHANNEL := {WRITE1, WRITE2, READ1, TRANSFER2}

  /** A transfer into memory takes its destination, too. If that is defined in the block, the
      writes are moved and the reads are not: a FIFO that was in step no longer is, whatever its
      capacity. */
  lemma TransferBreaksStep(capacity: nat)
    requires capacity > 0
    ensures AreAccessesOf(ACCESSES, WRITING, READING) && IsKnown(ACCESSES, CHANNEL)
            && BlocksAre(WRITING, READING, ACCESSES)
    ensures AllKnown(ACCESSES, READING) && OrderOfUse(ACCESSES, READING) == [ACCESS2, ACCESS1]
    ensures var writes, taken :=
              SlotOrder(WRITING, CHANNEL, ACCESSES, true), SlotOrder(READING, CHANNEL, ACCESSES, false);
            writes != [] && taken != [] && AlwaysInStep(writes, taken, capacity)
    ensures AreIn(WritersOf([ACCESS2, ACCESS1]), WRITING) && AreIn(ReadersOf([ACCESS2, ACCESS1]), READING)
    ensures var (w, r) := BlocksAfter(WRITING, READING, [ACCESS2, ACCESS1]);
            var writes, taken := SlotOrder(w, CHANNEL, ACCESSES, true), SlotOrder(r, CHANNEL, ACCESSES, false);
            writes != [] && taken != [] && !AlwaysInStep(writes, taken, capacity)
  {
    IsProtocol(READING, DESTINATION);
    IsOrderOfUse(READING, DESTINATION);
    BeforeInStep();
    TheWritesMove();
    TheReadsStay();
    assert WritersOf([ACCESS2, ACCESS1]) == [WRITE2, WRITE1] && ReadersOf([ACCESS2, ACCESS1]) == [TRANSFER2, READ1];
    assert WritesMove(WRITING, [ACCESS2, ACCESS1]) && !ReadsMove(READING, [ACCESS2, ACCESS1]);
    hide *;
    InStepIffSameOrder([101, 102], [101, 102], capacity);
    InStepIffReadsMove(WRITING, READING, ACCESSES, CHANNEL, capacity);
  }

  /** The protocol is known. */
  lemma IsProtocol(r: seq<Op>, x: Op)
    requires x in {DESTINATION, STORE} && r == [READ1, x, TRANSFER2, USER]
    ensures AreAccessesOf(ACCESSES, WRITING, r) && IsKnown(ACCESSES, CHANNEL) && BlocksAre(WRITING, r, ACCESSES)
  {
    hide *;
    AccessesAreIn(r, x);
    ProtocolIsKnown();
    BlocksAreThose(r, x);
  }

  lemma ProtocolIsKnown()
    ensures IsKnown(ACCESSES, CHANNEL)
  {
    OwnOpsAre();
    hide OwnOps;
    assert forall a :: a in ACCESSES ==> a == ACCESS1 || a == ACCESS2;
  }

  lemma BlocksAreThose(r: seq<Op>, x: Op)
    requires x in {DESTINATION, STORE} && r == [READ1, x, TRANSFER2, USER]
    ensures BlocksAre(WRITING, r, ACCESSES)
  {
    assert forall op :: op in r ==> op == READ1 || op == x || op == TRANSFER2 || op == USER;
  }

  lemma OwnOpsAre()
    ensures OwnOps(ACCESSES) == CHANNEL
  {
    assert WritersOf(ACCESSES) == [WRITE1, WRITE2] && ReadersOf(ACCESSES) == [READ1, TRANSFER2];
  }

  lemma AccessesAreIn(r: seq<Op>, x: Op)
    requires x in {DESTINATION, STORE} && r == [READ1, x, TRANSFER2, USER]
    ensures AreAccessesOf(ACCESSES, WRITING, r)
  {
    assert WRITING[0] == WRITE1 && WRITING[1] == WRITE2 && r[0] == READ1 && r[2] == TRANSFER2 && r[3] == USER;
  }

  lemma IsOrderOfUse(r: seq<Op>, x: Op)
    requires x in {DESTINATION, STORE} && r == [READ1, x, TRANSFER2, USER]
    ensures AreAccessesOf(ACCESSES, WRITING, r)
    ensures AllKnown(ACCESSES, r) && OrderOfUse(ACCESSES, r) == [ACCESS2, ACCESS1]
  {
    IsProtocol(r, x);
    KeysAre(r, x);
    hide KeyOf, UsesAreIn, AreAccesses, IsKnown, BlocksAre;
    var a, b := Keyed(Key(3, 0), ACCESS1), Keyed(Key(2, 0), ACCESS2);
    assert WithKeys(ACCESSES, r) == [a, b];
    assert [a, b][1..] == [b] && [b][1..] == [];
    assert StableSort([b]) == [b] by {
      assert StableSort<Access>([]) == [] && Insert(b, []) == [b];
    }
    assert Insert(a, [b]) == [b] + Insert(a, []) == [b, a];
    assert ItemsOf([b, a]) == [ACCESS2, ACCESS1];
  }

  lemma BeforeInStep()
    ensures SlotOrder(WRITING, CHANNEL, ACCESSES, true) == [101, 102]
            && SlotOrder(READING, CHANNEL, ACCESSES, false) == [101, 102]
  {
    assert WRITING[1..] == [WRITE2] && [WRITE2][1..] == [];
    assert Those([WRITE2], CHANNEL) == [WRITE2] && Those(WRITING, CHANNEL) == [WRITE1, WRITE2];
    assert READING[1..] == [DESTINATION, TRANSFER2, USER] && [DESTINATION, TRANSFER2, USER][1..] == [TRANSFER2, USER];
    assert [TRANSFER2, USER][1..] == [USER] && [USER][1..] == [];
    assert Those([USER], CHANNEL) == [] && Those([TRANSFER2, USER], CHANNEL) == [TRANSFER2];
    assert Those([DESTINATION, TRANSFER2, USER], CHANNEL) == [TRANSFER2]
           && Those(READING, CHANNEL) == [READ1, TRANSFER2];
    assert ACCESSES[1..] == [ACCESS2];
    hide Those;
    assert SlotOf(ACCESSES, WRITE2, true) == SlotOf([ACCESS2], WRITE2, true);
    assert SlotOf(ACCESSES, TRANSFER2, false) == SlotOf([ACCESS2], TRANSFER2, false);
  }

  lemma KeysAre(r: seq<Op>, x: Op)
    requires x in {DESTINATION, STORE} && r == [READ1, x, TRANSFER2, USER]
    ensures UsesAreIn(ACCESS1, r) && UsesAreIn(ACCESS2, r)
    ensures KeyOf(ACCESS1, r) == Some(Key(3, 0)) && KeyOf(ACCESS2, r) == Some(Key(2, 0))
  {
    Places(r);
    assert r[0] == READ1 && r[3] == USER && r[2] == TRANSFER2;
    hide IndexOf;
    assert FirstUse([Use(Some(USER), 0)], r) == Some(Key(3, 0)) by {
      assert [Use(Some(USER), 0)][..0] == [];
    }
  }

  lemma TheWritesMove()
    ensures AreIn([WRITE2, WRITE1], WRITING) && CanMove(WRITING, [WRITE2, WRITE1], true)
  {
    var w, ws := WRITING, [WRITE2, WRITE1];
    assert w[0] == ws[1] && w[1] == ws[0] && AreIn(ws, w);
    OnePlace(w, ws, 0, 1);
    assert MemoryStays(w, ws, 0, 1) && OperandsAbove(w, ws, 0);
  }

  lemma TheReadsStay()
    ensures AreIn([TRANSFER2, READ1], READING) && !InOrder(READING, [TRANSFER2, READ1])
            && !CanMove(READING, [TRANSFER2, READ1], false)
  {
    var r, rs := READING, [TRANSFER2, READ1];
    Places(r);
    assert r[0] == rs[1] && r[2] == rs[0] && IsBefore(r, rs[1], rs[0]);
    OnePlace(r, rs, 0, 2);
    assert r[1] == DESTINATION && 202 in DESTINATION.results * TRANSFER2.operands;
    assert rs[0] in rs && !OperandsAbove(r, rs, 0);
  }

  /** Where four different operations are, or two. */
  lemma Places(b: seq<Op>)
    requires Distinct(b) && 2 <= |b| <= 4
    ensures forall i :: 0 <= i < |b| ==> b[i] in b && IndexOf(b, b[i]) == i
  {
    forall i | 0 <= i < |b| ensures b[i] in b && IndexOf(b, b[i]) == i {
      IndexIs(b, i);
    }
  }

  /** And a transfer that can move does, over an operation that touches memory. */
  lemma TransferPassesMemory()
    ensures AreAccessesOf(ACCESSES, WRITING, STORING) && IsKnown(ACCESSES, CHANNEL)
            && BlocksAre(WRITING, STORING, ACCESSES)
    ensures AllKnown(ACCESSES, STORING) && OrderOfUse(ACCESSES, STORING) == [ACCESS2, ACCESS1]
    ensures AreIn(WritersOf([ACCESS2, ACCESS1]), WRITING) && AreIn(ReadersOf([ACCESS2, ACCESS1]), STORING)
    ensures Decide(WRITING, STORING, [ACCESS2, ACCESS1]) == Ordered
    ensures STORE.touchesMemory && IsBefore(STORING, STORE, TRANSFER2)
            && IsBefore(BlocksAfter(WRITING, STORING, [ACCESS2, ACCESS1]).1, TRANSFER2, STORE)
    ensures !PassesNoMemory(STORING, BlocksAfter(WRITING, STORING, [ACCESS2, ACCESS1]).1, [TRANSFER2, READ1])
  {
    IsProtocol(STORING, STORE);
    IsOrderOfUse(STORING, STORE);
    OrderedOps();
    hide *;
    TheWritesMove();
    TheReadsMove();
    MovesAre(WRITING, STORING, [ACCESS2, ACCESS1]);
  }

  lemma OrderedOps()
    ensures WritersOf([ACCESS2, ACCESS1]) == [WRITE2, WRITE1] && ReadersOf([ACCESS2, ACCESS1]) == [TRANSFER2, READ1]
    ensures STORE.touchesMemory
  {
  }

  lemma MovesAre(w: seq<Op>, r: seq<Op>, order: seq<Access>)
    requires AreIn(WritersOf(order), w) && AreIn(ReadersOf(order), r)
    requires !InOrder(w, WritersOf(order)) && CanMove(w, WritersOf(order), true)
    requires !InOrder(r, ReadersOf(order)) && CanMove(r, ReadersOf(order), false)
    ensures Decide(w, r, order) == Ordered
    ensures BlocksAfter(w, r, order).1 == Reordered(r, EarliestPlace(r, ReadersOf(order)), ReadersOf(order))
  {
    hide CanMove, InOrder, AreIn, Reordered;
  }

  lemma TheReadsMove()
    ensures AreIn([TRANSFER2, READ1], STORING) && !InOrder(STORING, [TRANSFER2, READ1])
            && CanMove(STORING, [TRANSFER2, READ1], false)
    ensures !InOrder(WRITING, [WRITE2, WRITE1])
    ensures var ops := [TRANSFER2, READ1];
            var now := Reordered(STORING, EarliestPlace(STORING, ops), ops);
            IsBefore(STORING, STORE, TRANSFER2) && IsBefore(now, TRANSFER2, STORE) && !PassesNoMemory(STORING, now, ops)
  {
    TheReadsAreMovable();
    TheWritesAreNotInOrder();
    var b, ops := STORING, [TRANSFER2, READ1];
    hide *;
    OnePlace(b, ops, 0, 2);
    MemoryOrderStays(b, 0, 2, ops);
    Landed(b, 0, ops, STORE);
    Landed(b, 0, ops, TRANSFER2);
    MakeMovable(b, ops);
    ComesBehind(b, ops, TRANSFER2, STORE);
  }

  lemma MakeMovable(b: seq<Op>, ops: seq<Op>)
    requires AreIn(ops, b) && EarliestPlace(b, ops) == 0 && OperandsAbove(b, ops, 0)
    ensures CanMove(b, ops, false)
  {
  }

  lemma ComesBehind(b: seq<Op>, ops: seq<Op>, x: Op, y: Op)
    requires var now := Reordered(b, 0, ops); x in now && y in now && IndexOf(now, x) < |ops| <= IndexOf(now, y)
    ensures IsBefore(Reordered(b, 0, ops), x, y)
  {
  }

  lemma TheWritesAreNotInOrder()
    ensures !InOrder(WRITING, [WRITE2, WRITE1])
  {
    Places(WRITING);
    var ws := [WRITE2, WRITE1];
    assert WRITING[0] == ws[1] && WRITING[1] == ws[0] && IsBefore(WRITING, ws[1], ws[0]);
  }

  lemma TheReadsAreMovable()
    ensures var b, ops := STORING, [TRANSFER2, READ1];
            && AreIn(ops, b) && IsEarliest(b, ops, 0) && IsLatest(b, ops, 2) && !InOrder(b, ops)
               && !MemoryStays(b, ops, 0, 2)
            && OperandsAbove(b, ops, 0) && IsBefore(b, STORE, TRANSFER2) && STORE in b && TRANSFER2 in b
            && b[..0] == [] && STORE !in ops && TRANSFER2 in ops && |ops| == 2 && Distinct(ops) && AllIn(ops, b)
  {
    var b, ops := STORING, [TRANSFER2, READ1];
    Places(b);
    assert b[0] == ops[1] && b[2] == ops[0] && b[1] == STORE && IsBefore(b, ops[1], ops[0]);
  }
}
