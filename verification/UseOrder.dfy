/** What the order of use is, told by the places in the reading block alone: which of two slots is
    used first, that the accesses are brought into this order, and that it is the order in which
    both blocks access the slots afterwards. */
module UseOrder {
  import opened Wrappers
  import opened Digraph
  import opened BlockMotion
  import opened BlockReordering
  import opened FifoOrdering
  import opened Sequences

  /** What the access takes is used first at this place of the block, inside that operation at the
      place inBody, and it is used nowhere but in the block. A transfer uses it where it is. */
  predicate UsedAt(a: Access, r: seq<Op>, place: nat, inBody: nat) {
    && place < |r|
    && if a.transfers then r[place] == a.reader && inBody == 0
       else
         && (forall u :: u in a.uses ==> u.at.Some? && u.at.value in r)
         && (exists u :: u in a.uses && u.at == Some(r[place]) && u.inBody == inBody)
         && forall u, k :: u in a.uses && 0 <= k < |r| && u.at == Some(r[k]) ==>
              place < k || (place == k && inBody <= u.inBody)
  }

  /** What the one access takes is used in an earlier operation, or earlier in the same one. */
  ghost predicate UsedSooner(a: Access, b: Access, r: seq<Op>) {
    exists p: nat, m: nat, q: nat, n: nat ::
      UsedAt(a, r, p, m) && UsedAt(b, r, q, n) && (p < q || (p == q && m < n))
  }

  /** Of two accesses the one used sooner goes first, and of two used at one place the one that was
      given first. */
  ghost predicate GoesFirst(accesses: seq<Access>, r: seq<Op>, a: Access, b: Access) {
    UsedSooner(a, b, r) || (!UsedSooner(b, a, r) && IsBefore(accesses, a, b))
  }

  // ----- The keys are the places of the first uses

  lemma KeyIsUse(a: Access, r: seq<Op>, place: nat, inBody: nat)
    requires UsesAreIn(a, r) && Distinct(r)
    ensures UsedAt(a, r, place, inBody) <==> KeyOf(a, r) == Some(Key(place, inBody))
  {
    if a.transfers {
      if place < |r| {
        IndexIs(r, place);
      }
    } else if AllInBlock(a.uses, r) {
      FirstUseIsFirst(a.uses, r);
      PlacesOfUses(a.uses, r);
      hide FirstUse, IndexOf, Distinct;
      if UsedAt(a, r, place, inBody) {
        FirstPlaceIsKey(a, r, place, inBody);
      }
      if KeyOf(a, r) == Some(Key(place, inBody)) {
        KeyIsFirstPlace(a, r, place, inBody);
      }
    }
  }

  lemma PlacesOfUses(uses: seq<Use>, r: seq<Op>)
    requires AllInBlock(uses, r) && Distinct(r)
    ensures forall u, k: nat :: u in uses && k < |r| ==> (u.at == Some(r[k]) <==> KeyOfUse(u, r).position == k)
  {
    forall u, k: nat | u in uses && k < |r| ensures u.at == Some(r[k]) <==> KeyOfUse(u, r).position == k {
      IndexIs(r, k);
    }
  }

  lemma FirstPlaceIsKey(a: Access, r: seq<Op>, place: nat, inBody: nat)
    requires !a.transfers && UsesAreIn(a, r) && AllInBlock(a.uses, r) && UsedAt(a, r, place, inBody)
    requires forall u, k: nat :: u in a.uses && k < |r| ==> (u.at == Some(r[k]) <==> KeyOfUse(u, r).position == k)
    requires forall u :: u in a.uses ==>
               FirstUse(a.uses, r).Some? && !Less(KeyOfUse(u, r), FirstUse(a.uses, r).value)
    requires FirstUse(a.uses, r).Some? ==> exists u :: u in a.uses && KeyOfUse(u, r) == FirstUse(a.uses, r).value
    ensures KeyOf(a, r) == Some(Key(place, inBody))
  {
    hide FirstUse, IndexOf;
    var u :| u in a.uses && u.at == Some(r[place]) && u.inBody == inBody;
    assert KeyOfUse(u, r) == Key(place, inBody);
    var v :| v in a.uses && KeyOfUse(v, r) == FirstUse(a.uses, r).value;
    var k := KeyOfUse(v, r).position;
    assert v.at == Some(r[k]);
  }

  lemma KeyIsFirstPlace(a: Access, r: seq<Op>, place: nat, inBody: nat)
    requires !a.transfers && UsesAreIn(a, r) && AllInBlock(a.uses, r) && KeyOf(a, r) == Some(Key(place, inBody))
    requires forall u, k: nat :: u in a.uses && k < |r| ==> (u.at == Some(r[k]) <==> KeyOfUse(u, r).position == k)
    requires forall u :: u in a.uses ==>
               FirstUse(a.uses, r).Some? && !Less(KeyOfUse(u, r), FirstUse(a.uses, r).value)
    requires FirstUse(a.uses, r).Some? ==> exists u :: u in a.uses && KeyOfUse(u, r) == FirstUse(a.uses, r).value
    ensures UsedAt(a, r, place, inBody)
  {
    hide FirstUse, IndexOf;
    var v :| v in a.uses && KeyOfUse(v, r) == Key(place, inBody);
    assert v.at == Some(r[place]);
    forall u, k | u in a.uses && 0 <= k < |r| && u.at == Some(r[k])
      ensures place < k || (place == k && inBody <= u.inBody)
    {
      assert KeyOfUse(u, r) == Key(k, u.inBody);
    }
  }

  /** The order of use is known exactly if every access takes what is used in the block, and only
      there, or is a transfer. */
  lemma KnownIffUsed(accesses: seq<Access>, r: seq<Op>)
    requires Distinct(r) && forall a :: a in accesses ==> UsesAreIn(a, r)
    ensures AllKnown(accesses, r) <==>
            forall a :: a in accesses ==> exists place: nat, inBody: nat :: UsedAt(a, r, place, inBody)
  {
    forall a | a in accesses
      ensures KeyOf(a, r).Some? <==> exists place: nat, inBody: nat :: UsedAt(a, r, place, inBody)
    {
      forall place: nat, inBody: nat ensures UsedAt(a, r, place, inBody) <==> KeyOf(a, r) == Some(Key(place, inBody)) {
        KeyIsUse(a, r, place, inBody);
      }
      hide UsedAt, KeyOf, UsesAreIn;
      if KeyOf(a, r).Some? {
        var key := KeyOf(a, r).value;
        assert UsedAt(a, r, key.position, key.inBody);
      }
    }
  }

  lemma LessIsSooner(a: Access, b: Access, r: seq<Op>)
    requires UsesAreIn(a, r) && UsesAreIn(b, r) && Distinct(r) && KeyOf(a, r).Some? && KeyOf(b, r).Some?
    ensures UsedSooner(a, b, r) <==> Less(KeyOf(a, r).value, KeyOf(b, r).value)
  {
    var x, y := KeyOf(a, r).value, KeyOf(b, r).value;
    KeyIsUse(a, r, x.position, x.inBody);
    KeyIsUse(b, r, y.position, y.inBody);
    hide UsedAt, KeyOf, UsesAreIn, Distinct;
    if UsedSooner(a, b, r) {
      var p: nat, m: nat, q: nat, n: nat :|
        UsedAt(a, r, p, m) && UsedAt(b, r, q, n) && (p < q || (p == q && m < n));
      KeyIsUse(a, r, p, m);
      KeyIsUse(b, r, q, n);
    }
  }

  // ----- Sorting keeps the order of what has the same key

  /** Two elements with the key are in the same order among those with the key. */
  lemma {:induction false} AmongThoseWithKey<A>(s: seq<Keyed<A>>, key: Key, i: nat, j: nat) returns (p: nat, q: nat)
    requires i < j < |s| && s[i].key == key && s[j].key == key
    ensures p < q < |WithKey(s, key)| && WithKey(s, key)[p] == s[i] && WithKey(s, key)[q] == s[j]
  {
    if i == 0 {
      q := PlaceWithKey(s[1..], key, j - 1);
      p, q := 0, q + 1;
    } else {
      p, q := AmongThoseWithKey(s[1..], key, i - 1, j - 1);
      if s[0].key == key {
        p, q := p + 1, q + 1;
      }
    }
  }

  lemma {:induction false} PlaceWithKey<A>(s: seq<Keyed<A>>, key: Key, j: nat) returns (q: nat)
    requires j < |s| && s[j].key == key
    ensures q < |WithKey(s, key)| && WithKey(s, key)[q] == s[j]
  {
    if j == 0 {
      q := 0;
    } else {
      q := PlaceWithKey(s[1..], key, j - 1);
      if s[0].key == key {
        q := q + 1;
      }
    }
  }

  lemma {:induction false} OriginWithKey<A>(s: seq<Keyed<A>>, key: Key, p: nat) returns (i: nat)
    requires p < |WithKey(s, key)|
    ensures i < |s| && s[i] == WithKey(s, key)[p]
  {
    if s[0].key != key {
      i := OriginWithKey(s[1..], key, p);
      i := i + 1;
    } else if p == 0 {
      i := 0;
    } else {
      i := OriginWithKey(s[1..], key, p - 1);
      i := i + 1;
    }
  }

  lemma {:induction false} OriginsWithKey<A>(s: seq<Keyed<A>>, key: Key, p: nat, q: nat) returns (i: nat, j: nat)
    requires p < q < |WithKey(s, key)|
    ensures i < j < |s| && s[i] == WithKey(s, key)[p] && s[j] == WithKey(s, key)[q]
  {
    if s[0].key != key {
      i, j := OriginsWithKey(s[1..], key, p, q);
      i, j := i + 1, j + 1;
    } else if p == 0 {
      j := OriginWithKey(s[1..], key, q - 1);
      i, j := 0, j + 1;
    } else {
      i, j := OriginsWithKey(s[1..], key, p - 1, q - 1);
      i, j := i + 1, j + 1;
    }
  }

  lemma SortedAlike<A>(s: seq<Keyed<A>>, i: nat, j: nat) returns (k: nat, m: nat)
    requires i < j < |StableSort(s)| && StableSort(s)[i].key == StableSort(s)[j].key
    ensures k < m < |s| && s[k] == StableSort(s)[i] && s[m] == StableSort(s)[j]
  {
    var t := StableSort(s);
    SortIsStable(s);
    hide StableSort, WithKey;
    var p, q := AmongThoseWithKey(t, t[i].key, i, j);
    k, m := OriginsWithKey(s, t[i].key, p, q);
  }

  // ----- The order of the accesses

  /** In the order of use an access that stands in front of another goes first. */
  lemma OrderIsByUse(accesses: seq<Access>, r: seq<Op>, i: nat, j: nat)
    requires Distinct(accesses) && Distinct(r) && (forall a :: a in accesses ==> UsesAreIn(a, r))
    requires AllKnown(accesses, r) && i < j < |OrderOfUse(accesses, r)|
    ensures var order := OrderOfUse(accesses, r);
            GoesFirst(accesses, r, order[i], order[j]) && !GoesFirst(accesses, r, order[j], order[i])
  {
    var order, keyed := OrderOfUse(accesses, r), WithKeys(accesses, r);
    var t := StableSort(keyed);
    SortIsStable(keyed);
    SortedIsKeyed(accesses, r, i);
    SortedIsKeyed(accesses, r, j);
    hide StableSort, UsesAreIn, KeyOf, WithKey, IndexOf, UsedSooner;
    LessIsSooner(order[i], order[j], r);
    LessIsSooner(order[j], order[i], r);
    if t[i].key == t[j].key {
      var k, m := SortedAlike(keyed, i, j);
      IndexIs(accesses, k);
      IndexIs(accesses, m);
    }
  }

  lemma SortedIsKeyed(accesses: seq<Access>, r: seq<Op>, i: nat)
    requires (forall a :: a in accesses ==> UsesAreIn(a, r)) && AllKnown(accesses, r)
    requires i < |OrderOfUse(accesses, r)|
    ensures var a := OrderOfUse(accesses, r)[i];
            var t := StableSort(WithKeys(accesses, r));
            i < |t| && a in accesses && KeyOf(a, r).Some? && t[i] == Keyed(KeyOf(a, r).value, a)
  {
    var keyed := WithKeys(accesses, r);
    var t := StableSort(keyed);
    SortIsStable(keyed);
    hide StableSort, UsesAreIn, KeyOf;
    assert t[i] in multiset(t);
    var k :| 0 <= k < |keyed| && keyed[k] == t[i];
  }

  /** Of two accesses in the order of use the one in front is the one that goes first. */
  lemma InFrontIffFirst(accesses: seq<Access>, r: seq<Op>, i: nat, j: nat)
    requires Distinct(accesses) && Distinct(r) && (forall a :: a in accesses ==> UsesAreIn(a, r))
    requires AllKnown(accesses, r) && i < |OrderOfUse(accesses, r)| && j < |OrderOfUse(accesses, r)|
    ensures GoesFirst(accesses, r, OrderOfUse(accesses, r)[i], OrderOfUse(accesses, r)[j]) <==> i < j
  {
    if i < j {
      OrderIsByUse(accesses, r, i, j);
    } else if j < i {
      OrderIsByUse(accesses, r, j, i);
    } else {
      SortedIsKeyed(accesses, r, i);
      hide StableSort, UsesAreIn, KeyOf, UsedSooner;
      LessIsSooner(OrderOfUse(accesses, r)[i], OrderOfUse(accesses, r)[i], r);
    }
  }

  /** The block has the writes, or the reads, of what is used first in front. */
  ghost predicate StandByUse(b: seq<Op>, accesses: seq<Access>, r: seq<Op>, write: bool) {
    forall x, y :: x in accesses && y in accesses && GoesFirst(accesses, r, x, y) ==>
      if write then IsBefore(b, x.writer, y.writer) else IsBefore(b, x.reader, y.reader)
  }

  function OpsOf(order: seq<Access>, write: bool): seq<Op> {
    if write then WritersOf(order) else ReadersOf(order)
  }

  /** Which is what it means that they are in order. */
  lemma InOrderIffByUse(b: seq<Op>, accesses: seq<Access>, r: seq<Op>, write: bool)
    requires Distinct(accesses) && Distinct(r) && (forall a :: a in accesses ==> UsesAreIn(a, r))
    requires AllKnown(accesses, r) && AreIn(OpsOf(OrderOfUse(accesses, r), write), b)
    ensures InOrder(b, OpsOf(OrderOfUse(accesses, r), write)) <==> StandByUse(b, accesses, r, write)
  {
    var order := OrderOfUse(accesses, r);
    OrderHasAll(accesses, r);
    SameElements(order, accesses);
    hide *;
    if InOrder(b, OpsOf(order, write)) {
      InOrderStandsByUse(b, accesses, r, write, order);
    }
    if StandByUse(b, accesses, r, write) {
      ByUseIsInOrder(b, accesses, r, write, order);
    }
  }

  lemma InOrderStandsByUse(b: seq<Op>, accesses: seq<Access>, r: seq<Op>, write: bool, order: seq<Access>)
    requires Distinct(accesses) && Distinct(r) && (forall a :: a in accesses ==> UsesAreIn(a, r))
    requires AllKnown(accesses, r) && order == OrderOfUse(accesses, r) && forall a :: a in order <==> a in accesses
    requires AreIn(OpsOf(order, write), b) && InOrder(b, OpsOf(order, write))
    ensures StandByUse(b, accesses, r, write)
  {
    var ops := OpsOf(order, write);
    InOrderThose(b, ops);
    hide OrderOfUse, KeyOf, UsesAreIn, AllKnown, GoesFirst, IndexOf, Those;
    forall x, y | x in accesses && y in accesses && GoesFirst(accesses, r, x, y)
      ensures if write then IsBefore(b, x.writer, y.writer) else IsBefore(b, x.reader, y.reader)
    {
      var i :| 0 <= i < |order| && order[i] == x;
      var j :| 0 <= j < |order| && order[j] == y;
      InFrontIffFirst(accesses, r, i, j);
      ThoseBefore(b, Elems(ops), i, j);
    }
  }

  lemma ByUseIsInOrder(b: seq<Op>, accesses: seq<Access>, r: seq<Op>, write: bool, order: seq<Access>)
    requires Distinct(accesses) && Distinct(r) && (forall a :: a in accesses ==> UsesAreIn(a, r))
    requires AllKnown(accesses, r) && order == OrderOfUse(accesses, r) && forall a :: a in order <==> a in accesses
    requires StandByUse(b, accesses, r, write)
    ensures InOrder(b, OpsOf(order, write))
  {
    var ops := OpsOf(order, write);
    hide OrderOfUse, KeyOf, UsesAreIn, AllKnown, GoesFirst, IndexOf;
    forall i | 0 < i < |ops| ensures !IsBefore(b, ops[i], ops[i - 1]) {
      InFrontIffFirst(accesses, r, i - 1, i);
      assert order[i - 1] in accesses && order[i] in accesses;
    }
  }

  lemma SameElements<A>(s: seq<A>, t: seq<A>)
    requires multiset(s) == multiset(t)
    ensures forall x :: x in s <==> x in t
  {
    assert forall x :: x in s <==> x in multiset(s);
    assert forall x :: x in t <==> x in multiset(t);
  }
}
