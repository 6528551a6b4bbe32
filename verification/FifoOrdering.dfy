/** Writing and reading the slots of a FIFO in the order in which what is read is used. */
module FifoOrdering {
  import opened Wrappers
  import opened Digraph
  import opened BlockMotion
  import opened BlockReordering
  import opened Sequences

  /** A use of the value that is read: the operation of the block it is in, if it is in the block,
      and where in that operation's body the value is used first. */
  datatype Use = Use(at: Option<Op>, inBody: nat)

  /** A slot with the operation that writes it and the one that reads it, which transfers it into
      memory or has uses. */
  datatype Access = Access(slot: nat, writer: Op, reader: Op, transfers: bool, uses: seq<Use>)

  // ----- The order of use

  datatype Key = Key(position: nat, inBody: nat)

  predicate Less(a: Key, b: Key) {
    a.position < b.position || (a.position == b.position && a.inBody < b.inBody)
  }

  predicate UsesAreIn(a: Access, b: seq<Op>) {
    a.reader in b && forall u :: u in a.uses && u.at.Some? ==> u.at.value in b
  }

  predicate AllInBlock(uses: seq<Use>, b: seq<Op>) {
    forall u :: u in uses ==> u.at.Some? && u.at.value in b
  }

  function KeyOfUse(u: Use, b: seq<Op>): Key
    requires u.at.Some? && u.at.value in b
  {
    Key(IndexOf(b, u.at.value), u.inBody)
  }

  function FirstUse(uses: seq<Use>, b: seq<Op>): Option<Key>
    requires AllInBlock(uses, b)
    decreases |uses|
  {
    if uses == [] then None
    else
      var n := |uses| - 1;
      assert uses[n] in uses;
      var before, key := FirstUse(uses[..n], b), KeyOfUse(uses[n], b);
      if before.None? || Less(key, before.value) then Some(key) else before
  }

  /** Where the value is used first; unknown if it is used outside the block or not at all. */
  function KeyOf(a: Access, b: seq<Op>): Option<Key>
    requires UsesAreIn(a, b)
  {
    if a.transfers then Some(Key(IndexOf(b, a.reader), 0))
    else if AllInBlock(a.uses, b) then FirstUse(a.uses, b)
    else None
  }

  lemma {:induction false} FirstUseIsFirst(uses: seq<Use>, b: seq<Op>)
    requires AllInBlock(uses, b)
    ensures FirstUse(uses, b).None? <==> uses == []
    ensures forall u :: u in uses ==> FirstUse(uses, b).Some? && !Less(KeyOfUse(u, b), FirstUse(uses, b).value)
    ensures FirstUse(uses, b).Some? ==> exists u :: u in uses && KeyOfUse(u, b) == FirstUse(uses, b).value
    decreases |uses|
  {
    if uses != [] {
      var n := |uses| - 1;
      FirstUseIsFirst(uses[..n], b);
      assert uses == uses[..n] + [uses[n]];
      assert uses[n] in uses;
    }
  }

  method GetConsumptionKey(a: Access, b: seq<Op>) returns (key: Option<Key>)
    requires UsesAreIn(a, b)
    ensures key == KeyOf(a, b)
  {
    if a.transfers {
      return Some(Key(IndexOf(b, a.reader), 0));
    }
    key := None;
    for i := 0 to |a.uses|
      invariant AllInBlock(a.uses[..i], b) && key == FirstUse(a.uses[..i], b)
    {
      var u := a.uses[i];
      assert u in a.uses;
      if u.at.None? {
        return None;
      }
      assert a.uses[..i + 1][..i] == a.uses[..i];
      var candidate := KeyOfUse(u, b);
      if key.None? || Less(candidate, key.value) {
        key := Some(candidate);
      }
    }
    assert a.uses[..|a.uses|] == a.uses;
  }

  // ----- Stable sort

  datatype Keyed<A> = Keyed(key: Key, item: A)

  function Insert<A>(x: Keyed<A>, s: seq<Keyed<A>>): seq<Keyed<A>> {
    if s == [] || !Less(s[0].key, x.key) then [x] + s else [s[0]] + Insert(x, s[1..])
  }

  function StableSort<A>(s: seq<Keyed<A>>): seq<Keyed<A>> {
    if s == [] then [] else Insert(s[0], StableSort(s[1..]))
  }

  predicate IsSorted<A>(s: seq<Keyed<A>>) {
    forall i, j :: 0 <= i < j < |s| ==> !Less(s[j].key, s[i].key)
  }

  function WithKey<A>(s: seq<Keyed<A>>, key: Key): seq<Keyed<A>> {
    if s == [] then [] else (if s[0].key == key then [s[0]] else []) + WithKey(s[1..], key)
  }

  lemma {:induction false} InsertIsPermutation<A>(x: Keyed<A>, s: seq<Keyed<A>>)
    ensures multiset(Insert(x, s)) == multiset{x} + multiset(s)
  {
    if s != [] && Less(s[0].key, x.key) {
      assert s == [s[0]] + s[1..];
      InsertIsPermutation(x, s[1..]);
    }
  }

  lemma {:induction false} InsertIsStable<A>(x: Keyed<A>, s: seq<Keyed<A>>, key: Key)
    requires IsSorted(s)
    ensures WithKey(Insert(x, s), key) == WithKey([x] + s, key)
  {
    assert ([x] + s)[1..] == s;
    if s != [] && Less(s[0].key, x.key) {
      InsertIsStable(x, s[1..], key);
      var t := Insert(x, s[1..]);
      assert ([s[0]] + t)[1..] == t && ([x] + s[1..])[1..] == s[1..];
      assert WithKey(Insert(x, s), key) == (if s[0].key == key then [s[0]] else []) + WithKey(t, key);
    }
  }

  lemma {:induction false} InsertIsSorted<A>(x: Keyed<A>, s: seq<Keyed<A>>)
    requires IsSorted(s)
    ensures IsSorted(Insert(x, s)) && forall y :: y in Insert(x, s) ==> y == x || y in s
  {
    if s != [] && Less(s[0].key, x.key) {
      InsertIsSorted(x, s[1..]);
      var t := Insert(x, s[1..]);
      hide Insert;
      forall k | 0 <= k < |t| ensures !Less(t[k].key, s[0].key) {
        assert t[k] in t;
        assert t[k] in s[1..] ==> exists j :: 0 < j < |s| && s[j] == t[k];
      }
    }
  }

  /** The same elements in the order of their keys, those with the same key as they were. */
  lemma {:induction false} SortIsStable<A>(s: seq<Keyed<A>>)
    ensures IsSorted(StableSort(s)) && multiset(StableSort(s)) == multiset(s)
    ensures forall key :: WithKey(StableSort(s), key) == WithKey(s, key)
  {
    if s != [] {
      var rest := StableSort(s[1..]);
      SortIsStable(s[1..]);
      InsertIsSorted(s[0], rest);
      InsertIsPermutation(s[0], rest);
      assert s == [s[0]] + s[1..];
      forall key ensures WithKey(StableSort(s), key) == WithKey(s, key) {
        InsertIsStable(s[0], rest, key);
        assert ([s[0]] + rest)[1..] == rest;
      }
    }
  }

  // ----- The order of the accesses

  /** One operation writes and one reads each slot, and each of them no other slot of the FIFO. */
  predicate AreAccesses(accesses: seq<Access>) {
    && Distinct(accesses) && accesses != []
    && (forall x, y :: x in accesses && y in accesses && x.writer == y.writer ==> x == y)
    && (forall x, y :: x in accesses && y in accesses && x.reader == y.reader ==> x == y)
    && (forall x, y :: x in accesses && y in accesses && x.slot == y.slot ==> x == y)
  }

  predicate AreAccessesOf(accesses: seq<Access>, w: seq<Op>, r: seq<Op>) {
    && AreAccesses(accesses) && Distinct(w) && Distinct(r)
    && forall a :: a in accesses ==> a.writer in w && UsesAreIn(a, r)
  }

  function WritersOf(accesses: seq<Access>): (ops: seq<Op>)
    ensures |ops| == |accesses| && forall i :: 0 <= i < |ops| ==> ops[i] == accesses[i].writer
  {
    seq(|accesses|, i requires 0 <= i < |accesses| => accesses[i].writer)
  }

  function ReadersOf(accesses: seq<Access>): (ops: seq<Op>)
    ensures |ops| == |accesses| && forall i :: 0 <= i < |ops| ==> ops[i] == accesses[i].reader
  {
    seq(|accesses|, i requires 0 <= i < |accesses| => accesses[i].reader)
  }

  function ItemsOf<A>(s: seq<Keyed<A>>): (items: seq<A>)
    ensures |items| == |s| && forall i :: 0 <= i < |s| ==> items[i] == s[i].item
  {
    seq(|s|, i requires 0 <= i < |s| => s[i].item)
  }

  predicate AllKnown(accesses: seq<Access>, r: seq<Op>)
    requires forall a :: a in accesses ==> UsesAreIn(a, r)
  {
    forall a :: a in accesses ==> KeyOf(a, r).Some?
  }

  function WithKeys(accesses: seq<Access>, r: seq<Op>): (s: seq<Keyed<Access>>)
    requires (forall a :: a in accesses ==> UsesAreIn(a, r)) && AllKnown(accesses, r)
    ensures |s| == |accesses| && forall i :: 0 <= i < |s| ==> s[i] == Keyed(KeyOf(accesses[i], r).value, accesses[i])
  {
    seq(|accesses|, i requires 0 <= i < |accesses| => Keyed(KeyOf(accesses[i], r).value, accesses[i]))
  }

  /** The accesses in the order in which what they read is used first. */
  function OrderOfUse(accesses: seq<Access>, r: seq<Op>): seq<Access>
    requires (forall a :: a in accesses ==> UsesAreIn(a, r)) && AllKnown(accesses, r)
  {
    ItemsOf(StableSort(WithKeys(accesses, r)))
  }

  lemma ItemsWithout<A>(t: seq<Keyed<A>>, i: nat)
    requires i < |t|
    ensures multiset(t) == multiset{t[i]} + multiset(t[..i] + t[i + 1..])
    ensures multiset(ItemsOf(t)) == multiset{t[i].item} + multiset(ItemsOf(t[..i] + t[i + 1..]))
  {
    var a, x, b := t[..i], t[i], t[i + 1..];
    assert t == (a + [x]) + b;
    ItemsConcat(a + [x], b);
    ItemsConcat(a, [x]);
    ItemsConcat(a, b);
    OneTakenOut(a, x, b);
    OneTakenOut(ItemsOf(a), x.item, ItemsOf(b));
    assert ItemsOf([x]) == [x.item];
    hide ItemsOf;
  }

  lemma ItemsConcat<A>(a: seq<Keyed<A>>, b: seq<Keyed<A>>)
    ensures ItemsOf(a + b) == ItemsOf(a) + ItemsOf(b)
  {
  }

  lemma OneTakenOut<A>(a: seq<A>, x: A, b: seq<A>)
    ensures multiset((a + [x]) + b) == multiset{x} + multiset(a + b)
  {
  }

  lemma Cancel<A>(x: A, a: multiset<A>, b: multiset<A>)
    requires multiset{x} + a == multiset{x} + b
    ensures a == b
  {
    assert a == (multiset{x} + a) - multiset{x} && b == (multiset{x} + b) - multiset{x};
  }

  lemma {:induction false} SameItems<A>(s: seq<Keyed<A>>, t: seq<Keyed<A>>)
    requires multiset(s) == multiset(t)
    ensures multiset(ItemsOf(s)) == multiset(ItemsOf(t))
    decreases |s|
  {
    assert |s| == |multiset(s)| == |t|;
    if s != [] {
      assert s[0] in multiset(t);
      var i :| 0 <= i < |t| && t[i] == s[0];
      ItemsWithout(s, 0);
      ItemsWithout(t, i);
      assert s[..0] + s[1..] == s[1..];
      Cancel(s[0], multiset(s[1..]), multiset(t[..i] + t[i + 1..]));
      hide ItemsOf;
      SameItems(s[1..], t[..i] + t[i + 1..]);
    }
  }

  lemma OrderHasAll(accesses: seq<Access>, r: seq<Op>)
    requires (forall a :: a in accesses ==> UsesAreIn(a, r)) && AllKnown(accesses, r)
    ensures multiset(OrderOfUse(accesses, r)) == multiset(accesses)
  {
    var keyed := WithKeys(accesses, r);
    SortIsStable(keyed);
    SameItems(StableSort(keyed), keyed);
    assert ItemsOf(keyed) == accesses;
  }

  lemma OrderIsAccesses(accesses: seq<Access>, order: seq<Access>, w: seq<Op>, r: seq<Op>)
    requires AreAccessesOf(accesses, w, r) && multiset(order) == multiset(accesses)
    ensures AreAccessesOf(order, w, r) && AreIn(WritersOf(order), w) && AreIn(ReadersOf(order), r)
    ensures |order| == |accesses| && forall a :: a in order <==> a in accesses
  {
    assert |order| == |multiset(order)| == |accesses|;
    assert forall a :: a in order <==> a in multiset(order);
    assert forall a :: a in accesses <==> a in multiset(accesses);
    SameDistinct(accesses, order);
    forall i, j | 0 <= i < j < |order|
      ensures order[i].writer != order[j].writer && order[i].reader != order[j].reader
    {
      assert order[i] in order && order[j] in order;
    }
  }

  lemma SameDistinct<A>(s: seq<A>, t: seq<A>)
    requires Distinct(s) && multiset(s) == multiset(t)
    ensures Distinct(t)
  {
    forall i, j | 0 <= i < j < |t| ensures t[i] != t[j] {
      DistinctOnce(s, t[i]);
      assert t == t[..i] + [t[i]] + t[i + 1..j] + [t[j]] + t[j + 1..];
    }
  }
}
