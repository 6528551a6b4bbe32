/** Moving elements of a list one by one until they follow each other in a given order. */
module BlockMotion {
  import opened Digraph
  import opened Sequences

  /** The elements that are not among the given ones, in order. */
  function Others<T(==)>(b: seq<T>, ops: seq<T>): seq<T> {
    if b == [] then [] else (if b[0] in ops then [] else [b[0]]) + Others(b[1..], ops)
  }

  function MovedBefore<T(==)>(b: seq<T>, op: T, other: T): seq<T>
    requires other in Others(b, [op])
  {
    var rest := Others(b, [op]);
    var k := IndexOf(rest, other);
    rest[..k] + [op] + rest[k..]
  }

  function MovedAfter<T(==)>(b: seq<T>, op: T, other: T): seq<T>
    requires other in Others(b, [op])
  {
    var rest := Others(b, [op]);
    var k := IndexOf(rest, other) + 1;
    rest[..k] + [op] + rest[k..]
  }

  /** From place f on the block has the operations in the given order and then all others. */
  function Reordered<T(==)>(b: seq<T>, f: nat, ops: seq<T>): seq<T>
    requires f <= |b|
  {
    (b[..f] + ops) + Others(b[f..], ops)
  }

  // ----- Lists

  lemma {:induction false} OthersHas<T>(b: seq<T>, ops: seq<T>)
    ensures forall x :: x in Others(b, ops) <==> x in b && x !in ops
  {
    if b != [] {
      OthersHas(b[1..], ops);
      assert forall x :: x in b <==> x == b[0] || x in b[1..];
    }
  }

  lemma {:induction false} OthersConcat<T>(a: seq<T>, b: seq<T>, ops: seq<T>)
    ensures Others(a + b, ops) == Others(a, ops) + Others(b, ops)
  {
    if a == [] {
      assert a + b == b;
    } else {
      assert (a + b)[1..] == a[1..] + b;
      OthersConcat(a[1..], b, ops);
      Reassociate(if a[0] in ops then [] else [a[0]], Others(a[1..], ops), Others(b, ops));
    }
  }

  lemma {:induction false} OthersAll<T>(b: seq<T>, ops: seq<T>)
    requires forall x :: x in b ==> x !in ops
    ensures Others(b, ops) == b
  {
    if b != [] {
      OthersAll(b[1..], ops);
    }
  }

  lemma {:induction false} OthersNone<T>(b: seq<T>, ops: seq<T>)
    requires forall x :: x in b ==> x in ops
    ensures Others(b, ops) == []
  {
    if b != [] {
      OthersNone(b[1..], ops);
    }
  }

  lemma {:induction false} OthersTwice<T>(b: seq<T>, x: seq<T>, y: seq<T>)
    ensures Others(Others(b, x), y) == Others(b, x + y)
  {
    if b != [] {
      OthersTwice(b[1..], x, y);
      OthersConcat(if b[0] in x then [] else [b[0]], Others(b[1..], x), y);
    }
  }

  lemma {:induction false} IndexBehind<T>(x: seq<T>, op: T, z: seq<T>)
    requires op !in x
    ensures op in (x + [op]) + z && IndexOf((x + [op]) + z, op) == |x|
  {
    var s := (x + [op]) + z;
    assert s[|x|] == op;
    if x != [] {
      assert s[0] == x[0] && s[1..] == (x[1..] + [op]) + z;
      IndexBehind(x[1..], op, z);
    }
  }

  lemma {:induction false} IndexIs<T>(b: seq<T>, k: nat)
    requires Distinct(b) && k < |b|
    ensures b[k] in b && IndexOf(b, b[k]) == k
  {
    if k > 0 {
      IndexIs(b[1..], k - 1);
    }
  }

  // ----- The moves

  predicate AllIn<T(==)>(ops: seq<T>, b: seq<T>) {
    forall x :: x in ops ==> x in b
  }

  /** f is the place of the earliest of the operations. */
  predicate IsEarliest<T(==)>(b: seq<T>, ops: seq<T>, f: nat) {
    f < |b| && b[f] in ops && forall i :: 0 <= i < f ==> b[i] !in ops
  }

  lemma FrontIsOther<T>(b: seq<T>, ops: seq<T>, f: nat)
    requires IsEarliest(b, ops, f) && AllIn(ops, b)
    ensures AllIn(ops, b[f..])
  {
    assert b == b[..f] + b[f..];
  }

  lemma NothingMoved<T>(b: seq<T>, f: nat)
    requires f <= |b|
    ensures Reordered(b, f, []) == b
  {
    OthersAll(b[f..], []);
    assert b[..f] + [] + b[f..] == b;
  }

  lemma OthersOne<T>(b: seq<T>, op: T)
    requires op !in b
    ensures Others(b, [op]) == b
  {
    OthersAll(b, [op]);
  }

  lemma NotInFront<T>(b: seq<T>, f: nat, ops: seq<T>, k: nat)
    requires Distinct(ops) && IsEarliest(b, ops, f) && k < |ops|
    ensures ops[k] !in b[..f] + ops[..k]
  {
    assert ops[k] in ops;
  }

  /** Taking the next operation out of the block in which the ones before it are moved. */
  lemma TakeOut<T>(b: seq<T>, f: nat, ops: seq<T>, k: nat)
    requires Distinct(ops) && IsEarliest(b, ops, f) && k < |ops|
    ensures Others(Reordered(b, f, ops[..k]), [ops[k]]) == (b[..f] + ops[..k]) + Others(b[f..], ops[..k + 1])
  {
    var front, op := b[..f] + ops[..k], ops[k];
    NotInFront(b, f, ops, k);
    OneMore(ops, k);
    hide IsEarliest, Distinct, Others;
    OthersConcat(front, Others(b[f..], ops[..k]), [op]);
    OthersOne(front, op);
    OthersTwice(b[f..], ops[..k], [op]);
  }

  /** The first operation takes the place of the earliest, if it is not that one itself. */
  lemma FirstStays<T>(b: seq<T>, f: nat, ops: seq<T>)
    requires Distinct(b) && IsEarliest(b, ops, f) && ops != [] && ops[0] == b[f]
    ensures Reordered(b, f, ops[..1]) == b
  {
    var op, rest := b[f], b[f + 1..];
    assert op !in rest;
    hide Distinct, IsEarliest;
    WithoutFirst(op, rest);
    hide Others;
    assert b[f..] == [op] + rest && ops[..1] == [op];
    assert (b[..f] + [op]) + rest == b;
  }

  lemma WithoutFirst<T>(op: T, rest: seq<T>)
    requires op !in rest
    ensures Others([op] + rest, [op]) == rest
  {
    assert ([op] + rest)[1..] == rest && [] + rest == rest;
    OthersAll(rest, [op]);
  }

  lemma FirstMoves<T>(b: seq<T>, f: nat, ops: seq<T>)
    requires Distinct(ops) && IsEarliest(b, ops, f) && ops != [] && ops[0] != b[f]
    ensures b[f] in Others(b, [ops[0]]) && MovedBefore(b, ops[0], b[f]) == Reordered(b, f, ops[..1])
  {
    var op, first, rest := ops[0], b[f], b[f + 1..];
    TakeOut(b, f, ops, 0);
    NothingMoved(b, f);
    assert ops[..0] == [] && ops[..1] == [op] && b[..f] + [] == b[..f];
    var there, more := Others(b[f..], [op]), Others(rest, [op]);
    assert there == [first] + more by {
      assert b[f..][0] == first && b[f..][1..] == rest;
    }
    assert first !in b[..f];
    hide Others, Distinct, IsEarliest, Reordered;
    FirstMovesTo(b[..f], first, more, op, Others(b, [op]));
  }

  lemma FirstMovesTo<T>(x: seq<T>, first: T, more: seq<T>, op: T, all: seq<T>)
    requires first !in x && all == x + ([first] + more)
    ensures first in all && IndexOf(all, first) == |x|
            && all[..|x|] + [op] + all[|x|..] == (x + [op]) + ([first] + more)
  {
    IndexBehind(x, first, more);
    assert all == (x + [first]) + more;
    hide IndexOf;
    InsertThere(x, op, [first] + more);
  }

  lemma InsertThere<T>(x: seq<T>, op: T, z: seq<T>)
    ensures (x + z)[..|x|] + [op] + (x + z)[|x|..] == (x + [op]) + z
  {
  }

  lemma PreviousIsThere<T>(b: seq<T>, f: nat, ops: seq<T>, k: nat)
    requires Distinct(ops) && IsEarliest(b, ops, f) && 0 < k < |ops|
    ensures ops[k - 1] in Others(Reordered(b, f, ops[..k]), [ops[k]])
  {
    OthersHas(Reordered(b, f, ops[..k]), [ops[k]]);
    assert ops[..k][k - 1] == ops[k - 1];
  }

  /** Every other operation follows the one before it. */
  lemma MoveNext<T>(b: seq<T>, f: nat, ops: seq<T>, k: nat)
    requires Distinct(ops) && IsEarliest(b, ops, f) && 0 < k < |ops|
    requires ops[k - 1] in Others(Reordered(b, f, ops[..k]), [ops[k]])
    ensures MovedAfter(Reordered(b, f, ops[..k]), ops[k], ops[k - 1]) == Reordered(b, f, ops[..k + 1])
  {
    var now, prev, z := Reordered(b, f, ops[..k]), ops[k - 1], Others(b[f..], ops[..k + 1]);
    var x := b[..f] + ops[..k - 1];
    TakeOut(b, f, ops, k);
    NotInFront(b, f, ops, k - 1);
    hide Others, IndexOf, Distinct, IsEarliest, Reordered;
    FrontsAre(b[..f], ops, k);
    NextMovesTo(x, prev, z, ops[k], Others(now, [ops[k]]));
    ReorderedIs(b, f, ops, k, x + [prev]);
  }

  lemma FrontsAre<T>(front: seq<T>, ops: seq<T>, k: nat)
    requires 0 < k < |ops|
    ensures var x := front + ops[..k - 1];
            front + ops[..k] == x + [ops[k - 1]] && front + ops[..k + 1] == (x + [ops[k - 1]]) + [ops[k]]
  {
  }

  lemma ReorderedIs<T>(b: seq<T>, f: nat, ops: seq<T>, k: nat, front: seq<T>)
    requires f <= |b| && k < |ops| && b[..f] + ops[..k + 1] == front + [ops[k]]
    ensures Reordered(b, f, ops[..k + 1]) == (front + [ops[k]]) + Others(b[f..], ops[..k + 1])
  {
  }

  lemma NextMovesTo<T>(x: seq<T>, prev: T, z: seq<T>, op: T, all: seq<T>)
    requires prev !in x && all == (x + [prev]) + z
    ensures prev in all
    ensures var k := IndexOf(all, prev) + 1; all[..k] + [op] + all[k..] == ((x + [prev]) + [op]) + z
  {
    IndexBehind(x, prev, z);
    hide IndexOf;
    InsertThere(x + [prev], op, z);
  }

  // ----- Where the operations are afterwards

  lemma InRest<T>(b: seq<T>, ops: seq<T>)
    requires b != [] && AllIn(ops, b)
    ensures b[0] !in ops ==> AllIn(ops, b[1..])
    ensures b[|b| - 1] !in ops ==> AllIn(ops, b[..|b| - 1])
  {
    assert b == [b[0]] + b[1..] == b[..|b| - 1] + [b[|b| - 1]];
  }

  function EarliestPlace<T(==)>(b: seq<T>, ops: seq<T>): (f: nat)
    requires ops != [] && AllIn(ops, b)
    ensures IsEarliest(b, ops, f)
  {
    assert ops[0] in ops;
    if b[0] in ops then 0
    else
      InRest(b, ops);
      1 + EarliestPlace(b[1..], ops)
  }

  predicate IsLatest<T(==)>(b: seq<T>, ops: seq<T>, l: nat) {
    l < |b| && b[l] in ops && forall i :: l < i < |b| ==> b[i] !in ops
  }

  function LatestPlace<T(==)>(b: seq<T>, ops: seq<T>): (l: nat)
    requires ops != [] && AllIn(ops, b)
    ensures IsLatest(b, ops, l)
    decreases |b|
  {
    assert ops[0] in ops;
    var n := |b| - 1;
    if b[n] in ops then n
    else
      InRest(b, ops);
      LatestPlace(b[..n], ops)
  }

  lemma OnePlace<T>(b: seq<T>, ops: seq<T>, f: nat, l: nat)
    requires ops != [] && AllIn(ops, b) && IsEarliest(b, ops, f) && IsLatest(b, ops, l)
    ensures f == EarliestPlace(b, ops) && l == LatestPlace(b, ops) && f <= l
  {
    assert IsEarliest(b, ops, EarliestPlace(b, ops)) && IsLatest(b, ops, LatestPlace(b, ops));
  }

  predicate IsBefore<T(==)>(b: seq<T>, x: T, y: T) {
    x in b && y in b && IndexOf(b, x) < IndexOf(b, y)
  }

  lemma {:induction false} IndexInFront<T>(a: seq<T>, b: seq<T>, x: T)
    requires x in a
    ensures x in a + b && IndexOf(a + b, x) == IndexOf(a, x)
  {
    if a[0] != x {
      assert (a + b)[1..] == a[1..] + b;
      IndexInFront(a[1..], b, x);
    }
  }

  lemma {:induction false} IndexInBack<T>(a: seq<T>, b: seq<T>, x: T)
    requires x !in a && x in b
    ensures x in a + b && IndexOf(a + b, x) == |a| + IndexOf(b, x)
  {
    if a == [] {
      assert a + b == b;
    } else {
      assert (a + b)[1..] == a[1..] + b;
      IndexInBack(a[1..], b, x);
    }
  }

  /** The others keep their order. */
  lemma {:induction false} OthersInOrder<T>(b: seq<T>, ops: seq<T>, x: T, y: T)
    requires x in b && x !in ops && y in b && y !in ops
    ensures IsBefore(Others(b, ops), x, y) <==> IsBefore(b, x, y)
  {
    OthersHas(b, ops);
    if b[0] in ops {
      OthersInOrder(b[1..], ops, x, y);
      assert Others(b, ops) == Others(b[1..], ops);
    } else if b[0] != x && b[0] != y {
      OthersHas(b[1..], ops);
      OthersInOrder(b[1..], ops, x, y);
      var rest := Others(b[1..], ops);
      assert Others(b, ops) == [b[0]] + rest;
      IndexInBack([b[0]], rest, x);
      IndexInBack([b[0]], rest, y);
    } else {
      assert Others(b, ops)[0] == b[0];
    }
  }

  /** Three parts: what was in front of the earliest stays there, then come the operations that
      are moved, then all others. */
  lemma Landed<T>(b: seq<T>, f: nat, ops: seq<T>, x: T)
    requires Distinct(ops) && IsEarliest(b, ops, f) && AllIn(ops, b) && x in b
    ensures var now := Reordered(b, f, ops);
            && x in now
            && (x in b[..f] ==> IndexOf(now, x) == IndexOf(b, x) < f)
            && (x in ops ==> f <= IndexOf(now, x) < f + |ops| && x !in b[..f])
            && (x !in b[..f] && x !in ops ==> IndexOf(now, x) >= f + |ops|)
            && (x !in b[..f] ==> IndexOf(b, x) >= f)
  {
    var front, back := b[..f], Others(b[f..], ops);
    assert b == front + b[f..];
    if x in front {
      IndexInFront(front, b[f..], x);
      IndexInFront(front, ops, x);
      IndexInFront(front + ops, back, x);
    } else {
      IndexInBack(front, b[f..], x);
      OthersHas(b[f..], ops);
      if x in ops {
        IndexInBack(front, ops, x);
        IndexInFront(front + ops, back, x);
      } else {
        IndexInBack(front + ops, back, x);
      }
    }
  }

  /** The operations that are not moved are left in the order they were in. */
  lemma OthersStay<T>(b: seq<T>, f: nat, ops: seq<T>)
    requires IsEarliest(b, ops, f) && AllIn(ops, b)
    ensures Others(Reordered(b, f, ops), ops) == Others(b, ops)
  {
    var front, back := b[..f], Others(b[f..], ops);
    assert b == front + b[f..];
    OthersConcat(front, b[f..], ops);
    OthersConcat(front + ops, back, ops);
    OthersConcat(front, ops, ops);
    OthersNone(ops, ops);
    OthersTwice(b[f..], ops, ops);
    OthersSame(b[f..], ops + ops, ops);
    hide Others;
    assert Others(front, ops) + [] == Others(front, ops);
  }

  lemma {:induction false} OthersSame<T>(b: seq<T>, x: seq<T>, y: seq<T>)
    requires forall v :: v in x <==> v in y
    ensures Others(b, x) == Others(b, y)
  {
    if b != [] {
      OthersSame(b[1..], x, y);
    }
  }

  lemma {:induction false} OthersAndThose<T(!new)>(b: seq<T>, ops: seq<T>)
    requires Distinct(b) && Distinct(ops) && AllIn(ops, b)
    ensures multiset(Others(b, ops)) + multiset(ops) == multiset(b)
  {
    OthersHas(b, ops);
    OthersDistinct(b, ops);
    hide Others, Distinct;
    forall x ensures (multiset(Others(b, ops)) + multiset(ops))[x] == multiset(b)[x] {
      DistinctOnce(b, x);
      DistinctOnce(ops, x);
      DistinctOnce(Others(b, ops), x);
    }
    assert multiset(Others(b, ops)) + multiset(ops) == multiset(b);
  }

  lemma {:induction false} DistinctOnce<T>(s: seq<T>, x: T)
    requires Distinct(s)
    ensures multiset(s)[x] == if x in s then 1 else 0
  {
    if s != [] {
      assert s == [s[0]] + s[1..];
      DistinctOnce(s[1..], x);
    }
  }

  lemma {:induction false} OthersDistinct<T>(b: seq<T>, ops: seq<T>)
    requires Distinct(b)
    ensures Distinct(Others(b, ops))
  {
    if b != [] {
      OthersDistinct(b[1..], ops);
      OthersHas(b[1..], ops);
    }
  }

  /** No operation is lost or doubled. */
  lemma ReorderedIsPermutation<T(!new)>(b: seq<T>, f: nat, ops: seq<T>)
    requires Distinct(b) && Distinct(ops) && IsEarliest(b, ops, f) && AllIn(ops, b)
    ensures multiset(Reordered(b, f, ops)) == multiset(b) && Distinct(Reordered(b, f, ops))
    ensures Reordered(b, f, ops)[f..f + |ops|] == ops
  {
    FrontIsOther(b, ops, f);
    assert b == b[..f] + b[f..];
    OthersAndThose(b[f..], ops);
    ReorderedIsDistinct(b, f, ops);
  }

  lemma ReorderedIsDistinct<T>(b: seq<T>, f: nat, ops: seq<T>)
    requires Distinct(b) && Distinct(ops) && IsEarliest(b, ops, f) && AllIn(ops, b)
    ensures Distinct(Reordered(b, f, ops))
  {
    var front, rest := b[..f], b[f..];
    OthersHas(rest, ops);
    OthersDistinct(rest, ops);
    assert forall x :: x in front ==> x !in rest;
    hide Others;
    JoinDistinct(front, ops);
    JoinDistinct(front + ops, Others(rest, ops));
  }

  lemma JoinDistinct<T>(a: seq<T>, b: seq<T>)
    requires Distinct(a) && Distinct(b) && forall x :: x in a ==> x !in b
    ensures Distinct(a + b)
  {
    var s := a + b;
    forall i, j | 0 <= i < j < |s| ensures s[i] != s[j] {
      if i < |a| <= j {
        assert s[i] in a && s[j] == b[j - |a|] && s[j] in b;
      }
    }
  }

  // ----- Elements that are in order already

  predicate InOrder<T(==)>(b: seq<T>, ops: seq<T>) {
    forall i :: 0 < i < |ops| ==> !IsBefore(b, ops[i], ops[i - 1])
  }

  /** Those of the block's operations that are in the set, in order. */
  function Those<T(==)>(b: seq<T>, ops: set<T>): seq<T> {
    if b == [] then [] else (if b[0] in ops then [b[0]] else []) + Those(b[1..], ops)
  }

  lemma {:induction false} ThoseConcat<T>(a: seq<T>, b: seq<T>, ops: set<T>)
    ensures Those(a + b, ops) == Those(a, ops) + Those(b, ops)
  {
    if a == [] {
      assert a + b == b;
    } else {
      assert (a + b)[1..] == a[1..] + b;
      ThoseConcat(a[1..], b, ops);
      Reassociate(if a[0] in ops then [a[0]] else [], Those(a[1..], ops), Those(b, ops));
    }
  }

  lemma {:induction false} ThoseAll<T>(b: seq<T>, ops: set<T>)
    requires forall x :: x in b ==> x in ops
    ensures Those(b, ops) == b
  {
    if b != [] {
      ThoseAll(b[1..], ops);
    }
  }

  lemma {:induction false} ThoseNone<T>(b: seq<T>, ops: set<T>)
    requires forall x :: x in b ==> x !in ops
    ensures Those(b, ops) == []
  {
    if b != [] {
      ThoseNone(b[1..], ops);
    }
  }

  lemma {:induction false} ThoseSame<T>(b: seq<T>, x: set<T>, y: set<T>)
    requires forall v :: v in b ==> (v in x <==> v in y)
    ensures Those(b, x) == Those(b, y)
  {
    if b != [] {
      ThoseSame(b[1..], x, y);
    }
  }

  lemma {:induction false} ThoseHas<T(!new)>(b: seq<T>, ops: set<T>)
    ensures forall x :: x in Those(b, ops) <==> x in b && x in ops
  {
    if b != [] {
      ThoseHas(b[1..], ops);
      assert forall x :: x in b <==> x == b[0] || x in b[1..];
    }
  }

  /** Operations that are in order are found in this order. */
  lemma {:induction false} InOrderThose<T>(b: seq<T>, ops: seq<T>)
    requires Distinct(b) && Distinct(ops) && AllIn(ops, b) && InOrder(b, ops)
    ensures Those(b, Elems(ops)) == ops
    decreases |ops|
  {
    if ops == [] {
      ThoseNone(b, Elems(ops));
    } else {
      var k := IndexOf(b, ops[0]);
      forall i | 0 < i < |ops| ensures ops[i] in b && IndexOf(b, ops[i]) > k {
        Increasing(b, ops, i);
      }
      RestInOrder(b, ops, k);
      ThoseSplit(b, ops, k);
      hide Those, Elems, IndexOf, Distinct, InOrder, AllIn;
      InOrderThose(b[k + 1..], ops[1..]);
    }
  }

  lemma {:induction false} Increasing<T>(b: seq<T>, ops: seq<T>, i: nat)
    requires Distinct(ops) && AllIn(ops, b) && InOrder(b, ops) && 0 < i < |ops|
    ensures ops[0] in b && ops[i] in b && IndexOf(b, ops[0]) < IndexOf(b, ops[i])
    decreases i
  {
    assert ops[i] in ops && ops[i - 1] in ops;
    assert b[IndexOf(b, ops[i])] == ops[i] && b[IndexOf(b, ops[i - 1])] == ops[i - 1];
    assert !IsBefore(b, ops[i], ops[i - 1]);
    if i > 1 {
      Increasing(b, ops, i - 1);
    }
  }

  lemma RestInOrder<T>(b: seq<T>, ops: seq<T>, k: nat)
    requires Distinct(b) && Distinct(ops) && AllIn(ops, b) && InOrder(b, ops) && ops != [] && k == IndexOf(b, ops[0])
    requires forall i :: 0 < i < |ops| ==> IndexOf(b, ops[i]) > k
    ensures AllIn(ops[1..], b[k + 1..]) && InOrder(b[k + 1..], ops[1..]) && Distinct(b[k + 1..]) && Distinct(ops[1..])
  {
    var front, rest, less := b[..k + 1], b[k + 1..], ops[1..];
    assert b == front + rest;
    forall i | 0 < i < |ops| ensures ops[i] !in front && ops[i] in rest
        && IndexOf(b, ops[i]) == k + 1 + IndexOf(rest, ops[i])
    {
      BehindFront(b, k, ops[i]);
    }
    forall i | 0 < i < |less| ensures !IsBefore(rest, less[i], less[i - 1]) {
      assert less[i] == ops[i + 1] && less[i - 1] == ops[i];
      assert !IsBefore(b, ops[i + 1], ops[i]);
    }
  }

  lemma BehindFront<T>(b: seq<T>, k: nat, op: T)
    requires Distinct(b) && op in b && k < IndexOf(b, op)
    ensures op !in b[..k + 1] && op in b[k + 1..] && IndexOf(b, op) == k + 1 + IndexOf(b[k + 1..], op)
  {
    var i := IndexOf(b, op);
    assert b[i] == op && b[k + 1..][i - k - 1] == op && b == b[..k + 1] + b[k + 1..];
    IndexInBack(b[..k + 1], b[k + 1..], op);
  }

  lemma ThoseSplit<T>(b: seq<T>, ops: seq<T>, k: nat)
    requires Distinct(b) && Distinct(ops) && ops != [] && ops[0] in b && k == IndexOf(b, ops[0])
    requires forall i :: 0 < i < |ops| ==> ops[i] in b && IndexOf(b, ops[i]) > k
    ensures Those(b, Elems(ops)) == [ops[0]] + Those(b[k + 1..], Elems(ops[1..]))
  {
    var front, first, rest := b[..k], ops[0], b[k + 1..];
    assert b == front + ([first] + rest);
    NoneInFront(b, ops, k);
    SameBehind(b, ops, k);
    assert first in Elems(ops);
    hide Elems, Distinct, IndexOf;
    ThoseConcat(front, [first] + rest, Elems(ops));
    ThoseConcat([first], rest, Elems(ops));
    ThoseNone(front, Elems(ops));
    ThoseSame(rest, Elems(ops), Elems(ops[1..]));
    ThoseAll([first], Elems(ops));
    hide Those;
    EmptyFront([first] + Those(rest, Elems(ops)));
  }

  lemma NoneInFront<T>(b: seq<T>, ops: seq<T>, k: nat)
    requires Distinct(b) && ops != [] && ops[0] in b && k == IndexOf(b, ops[0])
    requires forall i :: 0 < i < |ops| ==> ops[i] in b && IndexOf(b, ops[i]) > k
    ensures forall x :: x in b[..k] ==> x !in Elems(ops)
  {
    forall x | x in b[..k] ensures x !in Elems(ops) {
      var j :| 0 <= j < k && b[j] == x;
      IndexIs(b, j);
    }
  }

  lemma SameBehind<T>(b: seq<T>, ops: seq<T>, k: nat)
    requires Distinct(b) && ops != [] && ops[0] in b && k == IndexOf(b, ops[0])
    ensures forall x :: x in b[k + 1..] ==> (x in Elems(ops) <==> x in Elems(ops[1..]))
  {
    forall x | x in b[k + 1..] ensures x in Elems(ops) <==> x in Elems(ops[1..]) {
      assert ops == [ops[0]] + ops[1..];
      assert b[k] == ops[0];
    }
  }

  lemma ReorderedThose<T>(b: seq<T>, f: nat, ops: seq<T>)
    requires IsEarliest(b, ops, f)
    ensures Those(Reordered(b, f, ops), Elems(ops)) == ops
  {
    var front, back := b[..f], Others(b[f..], ops);
    OthersHas(b[f..], ops);
    ThoseConcat(front + ops, back, Elems(ops));
    ThoseConcat(front, ops, Elems(ops));
    ThoseNone(front, Elems(ops));
    ThoseAll(ops, Elems(ops));
    ThoseNone(back, Elems(ops));
    hide Those;
    assert ([] + ops) + [] == ops;
  }

  lemma {:induction false} ThoseDistinct<T(!new)>(b: seq<T>, ops: set<T>)
    requires Distinct(b)
    ensures Distinct(Those(b, ops))
  {
    if b != [] {
      ThoseDistinct(b[1..], ops);
      ThoseHas(b[1..], ops);
    }
  }

  lemma InTail<T>(b: seq<T>, x: T)
    requires Distinct(b) && b != [] && x in b[1..]
    ensures x in b && IndexOf(b, x) == 1 + IndexOf(b[1..], x)
  {
    var k :| 0 <= k < |b[1..]| && b[1..][k] == x;
    assert b[k + 1] != b[0];
  }

  /** Two of those stand as they do in the list. */
  lemma {:induction false} ThoseBefore<T(!new)>(b: seq<T>, ops: set<T>, i: nat, j: nat)
    requires Distinct(b) && i < j < |Those(b, ops)|
    ensures var t := Those(b, ops); t[i] in b && t[j] in b && IndexOf(b, t[i]) < IndexOf(b, t[j])
  {
    var t, rest := Those(b, ops), Those(b[1..], ops);
    ThoseHas(b[1..], ops);
    assert t == (if b[0] in ops then [b[0]] else []) + rest;
    var d := if b[0] in ops then 1 else 0;
    assert t[j] == rest[j - d] && rest[j - d] in rest;
    if i >= d {
      assert t[i] == rest[i - d] && rest[i - d] in rest;
    }
    hide Those;
    InTail(b, t[j]);
    if i >= d {
      InTail(b, t[i]);
      hide IndexOf, Distinct;
      ThoseBefore(b[1..], ops, i - d, j - d);
    }
  }

  /** They are found in this order exactly if they are in order. */
  lemma ThoseIffInOrder<T(!new)>(b: seq<T>, ops: seq<T>)
    requires Distinct(b) && Distinct(ops) && AllIn(ops, b)
    ensures Those(b, Elems(ops)) == ops <==> InOrder(b, ops)
    ensures |Those(b, Elems(ops))| == |ops|
  {
    hide *;
    AllAreThose(b, ops);
    if InOrder(b, ops) {
      InOrderThose(b, ops);
    }
    if Those(b, Elems(ops)) == ops {
      ThoseAreInOrder(b, ops);
    }
  }

  lemma ThoseAreInOrder<T(!new)>(b: seq<T>, ops: seq<T>)
    requires Distinct(b) && Those(b, Elems(ops)) == ops
    ensures InOrder(b, ops)
  {
    hide Those, Elems, IndexOf;
    forall i | 0 < i < |ops| ensures !IsBefore(b, ops[i], ops[i - 1]) {
      ThoseBefore(b, Elems(ops), i - 1, i);
    }
  }

  lemma AllAreThose<T(!new)>(b: seq<T>, ops: seq<T>)
    requires Distinct(b) && Distinct(ops) && AllIn(ops, b)
    ensures |Those(b, Elems(ops))| == |ops|
  {
    ThoseHas(b, Elems(ops));
    ThoseDistinct(b, Elems(ops));
    DistinctCardinality(ops);
    DistinctCardinality(Those(b, Elems(ops)));
    assert Elems(Those(b, Elems(ops))) == Elems(ops);
  }
}
