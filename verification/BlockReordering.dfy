/** Operations of a block are brought into a given order, if that is plainly safe. */
module BlockReordering {
  import opened Digraph
  import opened BlockMotion
  import opened Sequences

  type Value = nat

  /** An operation, where it is, what it uses and defines, and whether it reads or writes memory
      or a FIFO. */
  datatype Op = Op(id: nat, block: nat, stage: nat, operands: set<Value>, results: set<Value>, touchesMemory: bool)

  predicate Feeds(def: Op, use: Op) {
    def.results * use.operands != {}
  }

  /** Within the block every value is defined before it is used. */
  predicate DefsFirst(b: seq<Op>) {
    forall x, y :: x in b && y in b && Feeds(x, y) ==> IsBefore(b, x, y)
  }

  // ----- When it is safe

  /** No other operation from the earliest to the latest touches memory. */
  predicate MemoryStays(b: seq<Op>, ops: seq<Op>, f: nat, l: nat)
    requires l < |b|
  {
    forall i :: f <= i < l && b[i] !in ops ==> !b[i].touchesMemory
  }

  /** What the operations use is defined before the earliest of them. */
  predicate OperandsAbove(b: seq<Op>, ops: seq<Op>, f: nat) {
    forall i, op :: f <= i < |b| && op in ops ==> !Feeds(b[i], op)
  }

  predicate AreIn(ops: seq<Op>, b: seq<Op>) {
    Distinct(b) && Distinct(ops) && ops != [] && AllIn(ops, b)
  }

  predicate CanMove(b: seq<Op>, ops: seq<Op>, keepMemoryOrder: bool)
    requires AreIn(ops, b)
  {
    var f, l := EarliestPlace(b, ops), LatestPlace(b, ops);
    (keepMemoryOrder ==> MemoryStays(b, ops, f, l)) && OperandsAbove(b, ops, f)
  }

  // ----- What it keeps

  predicate NoneFeeds(ops: seq<Op>) {
    forall x, y :: x in ops && y in ops ==> !Feeds(x, y)
  }

  lemma OthersStayInOrder(b: seq<Op>, f: nat, ops: seq<Op>, x: Op, y: Op)
    requires AreIn(ops, b) && IsEarliest(b, ops, f) && x in b && y in b && x !in ops && y !in ops
    ensures IsBefore(Reordered(b, f, ops), x, y) <==> IsBefore(b, x, y)
  {
    Landed(b, f, ops, x);
    Landed(b, f, ops, y);
    OthersStay(b, f, ops);
    OthersInOrder(b, ops, x, y);
    OthersInOrder(Reordered(b, f, ops), ops, x, y);
  }

  lemma SameOps(b: seq<Op>, f: nat, ops: seq<Op>, x: Op)
    requires AreIn(ops, b) && IsEarliest(b, ops, f)
    ensures x in Reordered(b, f, ops) <==> x in b
  {
    ReorderedIsPermutation(b, f, ops);
    assert x in multiset(b) <==> x in b;
    assert x in multiset(Reordered(b, f, ops)) <==> x in Reordered(b, f, ops);
  }

  /** A definition stays in front of a use, if the use is not moved above it. */
  lemma UseStaysBehind(b: seq<Op>, f: nat, ops: seq<Op>, x: Op, y: Op)
    requires AreIn(ops, b) && IsEarliest(b, ops, f) && OperandsAbove(b, ops, f) && IsBefore(b, x, y) && Feeds(x, y)
    ensures IsBefore(Reordered(b, f, ops), x, y)
  {
    Landed(b, f, ops, x);
    Landed(b, f, ops, y);
    var i := IndexOf(b, x);
    assert b[i] == x;
    if x !in ops && y !in ops {
      OthersStayInOrder(b, f, ops, x, y);
    } else if y in ops {
      assert i < f && b[..f][i] == x;
    }
  }

  /** Moving keeps definitions before uses if what is used is defined above, and only then, as
      long as the operations do not use each other's results. */
  lemma DefsStayFirst(b: seq<Op>, f: nat, ops: seq<Op>)
    requires AreIn(ops, b) && IsEarliest(b, ops, f) && DefsFirst(b)
    ensures OperandsAbove(b, ops, f) ==> DefsFirst(Reordered(b, f, ops))
    ensures NoneFeeds(ops) && DefsFirst(Reordered(b, f, ops)) ==> OperandsAbove(b, ops, f)
  {
    var now := Reordered(b, f, ops);
    hide Reordered;
    forall x, y | OperandsAbove(b, ops, f) && x in now && y in now && Feeds(x, y) ensures IsBefore(now, x, y) {
      SameOps(b, f, ops, x);
      SameOps(b, f, ops, y);
      UseStaysBehind(b, f, ops, x, y);
    }
    forall i, op | NoneFeeds(ops) && DefsFirst(now) && f <= i < |b| && op in ops ensures !Feeds(b[i], op) {
      NotFromBehind(b, f, ops, i, op);
    }
  }

  lemma NotFromBehind(b: seq<Op>, f: nat, ops: seq<Op>, i: nat, op: Op)
    requires AreIn(ops, b) && IsEarliest(b, ops, f) && NoneFeeds(ops) && DefsFirst(Reordered(b, f, ops))
    requires f <= i < |b| && op in ops
    ensures !Feeds(b[i], op)
  {
    Landed(b, f, ops, b[i]);
    Landed(b, f, ops, op);
    assert b[i] !in b[..f];
    hide Reordered;
  }

  /** The operations pass no other one that touches memory. */
  predicate PassesNoMemory(b: seq<Op>, now: seq<Op>, ops: seq<Op>) {
    forall x, y :: x in ops && y in b && y !in ops && y.touchesMemory ==> (IsBefore(b, x, y) <==> IsBefore(now, x, y))
  }

  /** Which is the case exactly if there is none from the earliest to the latest. */
  lemma MemoryOrderStays(b: seq<Op>, f: nat, l: nat, ops: seq<Op>)
    requires AreIn(ops, b) && IsEarliest(b, ops, f) && IsLatest(b, ops, l)
    ensures PassesNoMemory(b, Reordered(b, f, ops), ops) <==> MemoryStays(b, ops, f, l)
  {
    var now := Reordered(b, f, ops);
    forall x, y | MemoryStays(b, ops, f, l) && x in ops && y in b && y !in ops && y.touchesMemory
      ensures IsBefore(b, x, y) <==> IsBefore(now, x, y)
    {
      Landed(b, f, ops, x);
      Landed(b, f, ops, y);
      var i, j := IndexOf(b, x), IndexOf(b, y);
      assert b[i] == x && b[j] == y;
      if j < f {
        assert b[..f][j] == y;
      } else if j < l {
        assert false;
      }
    }
    forall i | PassesNoMemory(b, now, ops) && f <= i < l && b[i] !in ops ensures !b[i].touchesMemory {
      Landed(b, f, ops, b[i]);
      Landed(b, f, ops, b[l]);
      IndexIs(b, i);
      IndexIs(b, l);
      assert IsBefore(now, b[l], b[i]) && !IsBefore(b, b[l], b[i]);
    }
  }

  // ----- The block

  class Block {
    var ops: seq<Op>

    constructor (ops: seq<Op>)
      ensures this.ops == ops
    {
      this.ops := ops;
    }

    method MoveBefore(op: Op, other: Op)
      requires other in Others(ops, [op])
      modifies this
      ensures ops == MovedBefore(old(ops), op, other)
    {
      var rest := Others(ops, [op]);
      var k := IndexOf(rest, other);
      ops := rest[..k] + [op] + rest[k..];
    }

    method MoveAfter(op: Op, other: Op)
      requires other in Others(ops, [op])
      modifies this
      ensures ops == MovedAfter(old(ops), op, other)
    {
      var rest := Others(ops, [op]);
      var k := IndexOf(rest, other) + 1;
      ops := rest[..k] + [op] + rest[k..];
    }

    /** The earliest and the latest of the operations. */
    method EarliestAndLatest(moved: seq<Op>) returns (first: Op, last: Op)
      requires AreIn(moved, ops)
      ensures first in ops && last in ops
      ensures IndexOf(ops, first) == EarliestPlace(ops, moved) && IndexOf(ops, last) == LatestPlace(ops, moved)
    {
      first, last := moved[0], moved[0];
      for k := 1 to |moved|
        invariant first in moved && last in moved
        invariant forall j :: 0 <= j < k ==>
                                moved[j] in ops && IndexOf(ops, first) <= IndexOf(ops, moved[j]) <= IndexOf(ops, last)
      {
        assert moved[k] in moved;
        if IndexOf(ops, moved[k]) < IndexOf(ops, first) {
          first := moved[k];
        }
        if IndexOf(ops, last) < IndexOf(ops, moved[k]) {
          last := moved[k];
        }
      }
      AreOutermost(ops, moved, first, last);
    }

    /** Checks whether the move is safe, given the earliest and the latest operation. */
    method IsSafe(moved: seq<Op>, first: Op, last: Op, keepMemoryOrder: bool) returns (safe: bool)
      requires AreIn(moved, ops) && first in ops && last in ops
      requires IndexOf(ops, first) == EarliestPlace(ops, moved) && IndexOf(ops, last) == LatestPlace(ops, moved)
      ensures safe == CanMove(ops, moved, keepMemoryOrder)
    {
      var f, l := IndexOf(ops, first), IndexOf(ops, last);
      var i := f;
      while keepMemoryOrder && i != l
        invariant f <= i && (f <= l ==> i <= l)
        invariant keepMemoryOrder ==> forall k :: f <= k < i && ops[k] !in moved ==> !ops[k].touchesMemory
        decreases l - i
      {
        OnePlace(ops, moved, f, l);
        if ops[i] !in moved && ops[i].touchesMemory {
          return false;
        }
        i := i + 1;
      }
      for k := 0 to |moved|
        invariant forall j, i :: 0 <= j < k && f <= i < |ops| ==> !Feeds(ops[i], moved[j])
      {
        assert moved[k] in moved;
        var above := DefinedAbove(moved[k], f);
        if !above {
          return false;
        }
      }
      return true;
    }

    /** The operands are defined in front of the place. */
    method DefinedAbove(op: Op, f: nat) returns (above: bool)
      requires f <= |ops|
      ensures above == forall i :: f <= i < |ops| ==> !Feeds(ops[i], op)
    {
      for i := f to |ops|
        invariant forall k :: f <= k < i ==> !Feeds(ops[k], op)
      {
        if Feeds(ops[i], op) {
          return false;
        }
      }
      return true;
    }

    /** Moves the operations to the earliest of them, in the given order, or leaves the block as it
        is if that is not plainly safe. */
    method MoveIntoOrder(moved: seq<Op>, keepMemoryOrder: bool) returns (done: bool)
      requires AreIn(moved, ops)
      modifies this
      ensures done == CanMove(old(ops), moved, keepMemoryOrder)
      ensures ops == if done then Reordered(old(ops), EarliestPlace(old(ops), moved), moved) else old(ops)
    {
      var first, last := EarliestAndLatest(moved);
      done := IsSafe(moved, first, last, keepMemoryOrder);
      if !done {
        return;
      }
      assert ops[IndexOf(ops, first)] == first;
      hide CanMove, Reordered;
      MoveEach(moved, first, EarliestPlace(ops, moved));
    }

    /** The first takes the place of the earliest, and each of the others follows the one before. */
    method MoveEach(moved: seq<Op>, first: Op, ghost f: nat)
      requires Distinct(ops) && Distinct(moved) && moved != [] && IsEarliest(ops, moved, f) && first == ops[f]
      modifies this
      ensures ops == Reordered(old(ops), f, moved)
    {
      ghost var b := ops;
      assert moved[..|moved|] == moved;
      hide *;
      if moved[0] != first {
        FirstMoves(b, f, moved);
        MoveBefore(moved[0], first);
      } else {
        FirstStays(b, f, moved);
      }
      for k := 1 to |moved|
        invariant ops == Reordered(b, f, moved[..k])
      {
        PreviousIsThere(b, f, moved, k);
        MoveNext(b, f, moved, k);
        MoveAfter(moved[k], moved[k - 1]);
      }
    }
  }

  lemma AreOutermost(b: seq<Op>, ops: seq<Op>, first: Op, last: Op)
    requires AreIn(ops, b) && first in ops && last in ops
    requires forall j :: 0 <= j < |ops| ==> ops[j] in b && IndexOf(b, first) <= IndexOf(b, ops[j]) <= IndexOf(b, last)
    ensures IndexOf(b, first) == EarliestPlace(b, ops) && IndexOf(b, last) == LatestPlace(b, ops)
  {
    var f, l := IndexOf(b, first), IndexOf(b, last);
    forall i | 0 <= i < |b| && (i < f || l < i) ensures b[i] !in ops {
      IndexIs(b, i);
    }
    assert IsEarliest(b, ops, f) && IsLatest(b, ops, l);
    OnePlace(b, ops, f, l);
  }
}
