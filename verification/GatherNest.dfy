/** Running a legalized gather: nested loops over a small buffer that is refilled when the
    entry loop starts over. It delivers what the gather over the whole address tensor does. */
module GatherNest {
  import opened Digraph
  import opened AffineMaps
  import opened IndirectAccess
  import opened RowReferences
  import opened IndirectLoops
  import opened BufferFill
  import opened Sequences

  /** One element of an access: the values of all loops and remaining variables, the address
      read from the buffer, and the direct subscripts. */
  datatype Element = Element(q: seq<int>, address: int, subscripts: seq<int>)

  // ----- The order of iterations

  /** All ways to go on from the first indices, in order. */
  function Enumerate(dims: seq<nat>, prefix: seq<int>): seq<seq<int>>
    requires |prefix| <= |dims|
    decreases |dims| - |prefix|, 1, 0
  {
    if |prefix| == |dims| then [prefix] else EnumerateTo(dims, prefix, dims[|prefix|])
  }

  /** Those of them where the next index is less than n. */
  function EnumerateTo(dims: seq<nat>, prefix: seq<int>, n: nat): seq<seq<int>>
    requires |prefix| < |dims|
    decreases |dims| - |prefix|, 0, n
  {
    if n == 0 then [] else EnumerateTo(dims, prefix, n - 1) + Enumerate(dims, prefix + [n - 1])
  }

  predicate Extends(q: seq<int>, prefix: seq<int>, dims: seq<nat>) {
    && |q| == |dims| && |prefix| <= |q| && q[..|prefix|] == prefix
    && forall d :: |prefix| <= d < |q| ==> 0 <= q[d] < dims[d]
  }

  lemma {:induction false} EnumerateIs(dims: seq<nat>, prefix: seq<int>, q: seq<int>)
    requires |prefix| <= |dims|
    ensures q in Enumerate(dims, prefix) <==> Extends(q, prefix, dims)
    decreases |dims| - |prefix|, 1, 0
  {
    if |prefix| == |dims| {
      assert q == q[..|q|];
    } else {
      EnumerateToIs(dims, prefix, dims[|prefix|], q);
    }
  }

  lemma {:induction false} EnumerateToIs(dims: seq<nat>, prefix: seq<int>, n: nat, q: seq<int>)
    requires |prefix| < |dims| && n <= dims[|prefix|]
    ensures q in EnumerateTo(dims, prefix, n) <==> Extends(q, prefix, dims) && q[|prefix|] < n
    decreases |dims| - |prefix|, 0, n
  {
    if n > 0 {
      EnumerateToIs(dims, prefix, n - 1, q);
      EnumerateIs(dims, prefix + [n - 1], q);
      if Extends(q, prefix, dims) && q[|prefix|] == n - 1 {
        assert q[..|prefix| + 1] == prefix + [n - 1];
      }
      if Extends(q, prefix + [n - 1], dims) {
        assert q[..|prefix|] == q[..|prefix| + 1][..|prefix|] && q[|prefix|] == q[..|prefix| + 1][|prefix|];
      }
    }
  }

  /** Every iteration happens once. */
  lemma {:induction false} EnumerateOnce(dims: seq<nat>, prefix: seq<int>)
    requires |prefix| <= |dims|
    ensures Distinct(Enumerate(dims, prefix))
    decreases |dims| - |prefix|, 1, 0
  {
    if |prefix| < |dims| {
      EnumerateToOnce(dims, prefix, dims[|prefix|]);
    }
  }

  lemma {:induction false} EnumerateToOnce(dims: seq<nat>, prefix: seq<int>, n: nat)
    requires |prefix| < |dims| && n <= dims[|prefix|]
    ensures Distinct(EnumerateTo(dims, prefix, n))
    decreases |dims| - |prefix|, 0, n
  {
    if n > 0 {
      EnumerateToOnce(dims, prefix, n - 1);
      EnumerateOnce(dims, prefix + [n - 1]);
      var a, b := EnumerateTo(dims, prefix, n - 1), Enumerate(dims, prefix + [n - 1]);
      forall i, j | 0 <= i < |a| && 0 <= j < |b| ensures a[i] != b[j] {
        EnumerateToIs(dims, prefix, n - 1, a[i]);
        EnumerateIs(dims, prefix + [n - 1], b[j]);
        assert b[j][..|prefix| + 1][|prefix|] == n - 1;
      }
    }
  }

  /** In the first loop in which the two iterations differ, the one is at an earlier index. */
  predicate RunsEarlier(a: seq<int>, b: seq<int>) {
    exists d :: 0 <= d < |a| && d < |b| && a[..d] == b[..d] && a[d] < b[d]
  }

  predicate AreInOrder(qs: seq<seq<int>>) {
    forall i, j :: 0 <= i < j < |qs| ==> RunsEarlier(qs[i], qs[j])
  }

  /** And the iterations follow each other as loops in loops run. */
  lemma {:induction false} EnumerateInOrder(dims: seq<nat>, prefix: seq<int>)
    requires |prefix| <= |dims|
    ensures AreInOrder(Enumerate(dims, prefix))
    decreases |dims| - |prefix|, 1, 0
  {
    if |prefix| < |dims| {
      EnumerateToInOrder(dims, prefix, dims[|prefix|]);
      hide AreInOrder;
    }
  }

  lemma {:induction false} EnumerateToInOrder(dims: seq<nat>, prefix: seq<int>, n: nat)
    requires |prefix| < |dims| && n <= dims[|prefix|]
    ensures AreInOrder(EnumerateTo(dims, prefix, n))
    decreases |dims| - |prefix|, 0, n
  {
    if n > 0 {
      var a, b := EnumerateTo(dims, prefix, n - 1), Enumerate(dims, prefix + [n - 1]);
      assert EnumerateTo(dims, prefix, n) == a + b;
      hide AreInOrder, RunsEarlier;
      EnumerateToInOrder(dims, prefix, n - 1);
      EnumerateInOrder(dims, prefix + [n - 1]);
      forall i, j | 0 <= i < |a| && 0 <= j < |b| ensures RunsEarlier(a[i], b[j]) {
        NextIndexIsLater(dims, prefix, n - 1, a[i], b[j]);
      }
      InOrderTogether(a, b);
    }
  }

  lemma NextIndexIsLater(dims: seq<nat>, prefix: seq<int>, n: nat, p: seq<int>, q: seq<int>)
    requires |prefix| < |dims| && n < dims[|prefix|]
    requires p in EnumerateTo(dims, prefix, n) && q in Enumerate(dims, prefix + [n])
    ensures RunsEarlier(p, q)
  {
    EnumerateToIs(dims, prefix, n, p);
    EnumerateIs(dims, prefix + [n], q);
    hide Enumerate, EnumerateTo;
    assert q[..|prefix| + 1][|prefix|] == n;
    assert q[..|prefix|] == q[..|prefix| + 1][..|prefix|] == prefix;
  }

  lemma InOrderTogether(a: seq<seq<int>>, b: seq<seq<int>>)
    requires AreInOrder(a) && AreInOrder(b)
    requires forall i, j :: 0 <= i < |a| && 0 <= j < |b| ==> RunsEarlier(a[i], b[j])
    ensures AreInOrder(a + b)
  {
    hide RunsEarlier;
    var qs := a + b;
    forall i, j | 0 <= i < j < |qs| ensures RunsEarlier(qs[i], qs[j]) {
      assert i >= |a| ==> qs[i] == b[i - |a|];
      assert j >= |a| ==> qs[j] == b[j - |a|];
    }
  }

  // ----- Elements

  predicate AllLong(qs: seq<seq<int>>, n: nat) {
    forall i :: 0 <= i < |qs| ==> |qs[i]| >= n
  }

  /** What the access yields for the iterations, the buffer holding the row of the first rows loops. */
  function Delivered(op: Access, loops: nat, rows: nat, addr: AddressTensor, qs: seq<seq<int>>): (out: seq<Element>)
    requires rows < loops && AllLong(qs, loops)
    ensures |out| == |qs|
  {
    seq(|qs|, i requires 0 <= i < |qs| =>
      Element(qs[i], addr(qs[i][..rows + 1]), Subscripts(op, qs[i][..loops], qs[i][loops..])))
  }

  function ReadOne(op: Access, loops: nat, contents: seq<int>, q: seq<int>): Element
    requires loops <= |q| && CanRead(op, loops, |contents|, q)
  {
    Element(q, contents[BufferIndex(op, q[..loops], q[loops..])[0]], Subscripts(op, q[..loops], q[loops..]))
  }

  /** What the access yields for the iterations with what is in the buffer. */
  function Read(op: Access, loops: nat, contents: seq<int>, qs: seq<seq<int>>): (out: seq<Element>)
    requires AllLong(qs, loops) && forall i :: 0 <= i < |qs| ==> CanRead(op, loops, |contents|, qs[i])
    ensures |out| == |qs|
  {
    seq(|qs|, i requires 0 <= i < |qs| => ReadOne(op, loops, contents, qs[i]))
  }

  predicate CanRead(op: Access, loops: nat, size: nat, q: seq<int>)
    requires loops <= |q|
  {
    var index := BufferIndex(op, q[..loops], q[loops..]);
    |index| > 0 && 0 <= index[0] < size
  }

  lemma ReadsAtEntry(op: Access, rows: nat, ivs: seq<int>, v: seq<int>)
    requires ReadsEntry(op, rows) && rows < |ivs|
    ensures BufferIndex(op, ivs, v) == [ivs[rows]]
  {
  }

  /** The nest the passes leave: the entry loop goes over the whole buffer. */
  predicate IsNest(trips: seq<nat>, op: Access, rows: nat, bufferSize: nat) {
    && rows < |trips| && trips[rows] == bufferSize && ReadsEntry(op, rows)
    && forall k :: 0 <= k < |trips| ==> trips[k] > 0
  }

  lemma ReadIsDelivered(trips: seq<nat>, op: Access, rows: nat, addr: AddressTensor, contents: seq<int>, ivs: seq<int>)
    requires IsNest(trips, op, rows, |contents|) && |ivs| == |trips| && IsRow(contents, addr, ivs[..rows])
    requires 0 <= ivs[rows] < |contents|
    ensures var qs := Enumerate(trips + op.sizes, ivs);
            && AllLong(qs, |trips|) && (forall i :: 0 <= i < |qs| ==> CanRead(op, |trips|, |contents|, qs[i]))
            && Read(op, |trips|, contents, qs) == Delivered(op, |trips|, rows, addr, qs)
  {
    var qs, loops := Enumerate(trips + op.sizes, ivs), |trips|;
    AllLongEnough(trips + op.sizes, ivs);
    forall i | 0 <= i < |qs|
      ensures CanRead(op, loops, |contents|, qs[i])
      ensures ReadOne(op, loops, contents, qs[i]).address == addr(qs[i][..rows + 1])
    {
      EnumerateIs(trips + op.sizes, ivs, qs[i]);
      ReadsAtEntry(op, rows, ivs, qs[i][loops..]);
      assert qs[i][..loops] == ivs;
      assert qs[i][..rows + 1] == ivs[..rows + 1] == ivs[..rows] + [ivs[rows]];
    }
  }

  lemma DeliveredConcat(op: Access, loops: nat, rows: nat, addr: AddressTensor, a: seq<seq<int>>, b: seq<seq<int>>)
    requires rows < loops && AllLong(a, loops) && AllLong(b, loops)
    ensures AllLong(a + b, loops)
    ensures Delivered(op, loops, rows, addr, a + b)
              == Delivered(op, loops, rows, addr, a) + Delivered(op, loops, rows, addr, b)
  {
  }

  lemma AllLongEnough(dims: seq<nat>, prefix: seq<int>)
    requires |prefix| <= |dims|
    ensures AllLong(Enumerate(dims, prefix), |dims|)
  {
    forall q | q in Enumerate(dims, prefix) ensures |q| == |dims| {
      EnumerateIs(dims, prefix, q);
    }
  }

  // ----- Running the nest

  /** The addresses come from the tile, which has as many dimensions as the buffer had; the last one
      is left to the buffer. */
  ghost predicate Fits(t: Tile, rows: nat, bufferSize: nat) {
    |t.indices| == rows + 1 && IsTile(t) && t.shape[rows] == bufferSize
  }

  /** The loops from number |ivs| on. The buffer is only filled when the entry loop is at 0, under a
      guard in the innermost loop; what it holds in the other iterations it has from there. */
  method Run(trips: seq<nat>, op: Access, rows: nat, addr: AddressTensor, t: Tile, buffer: array<int>, ivs: seq<int>)
    returns (out: seq<Element>)
    requires IsNest(trips, op, rows, buffer.Length) && |ivs| <= |trips| && Fits(t, rows, buffer.Length)
    requires forall d :: 0 <= d < |ivs| ==> 0 <= ivs[d] < trips[d]
    requires |ivs| > rows && ivs[rows] > 0 ==> IsRow(buffer[..], AsFilled(addr, t), ivs[..rows])
    modifies buffer
    ensures var qs := Enumerate(trips + op.sizes, ivs);
            && AllLong(qs, |trips|)
            && out == Delivered(op, |trips|, rows, AsFilled(addr, t), qs)
    ensures |ivs| > rows ==> IsRow(buffer[..], AsFilled(addr, t), ivs[..rows])
    decreases |trips| - |ivs|
  {
    ghost var dims, loops, filled := trips + op.sizes, |trips|, AsFilled(addr, t);
    hide IsTile, AsFilled;
    if |ivs| == |trips| {
      if ivs[rows] == 0 {
        Fill(buffer, addr, t, ivs[..rows]);
      }
      ReadIsDelivered(trips, op, rows, filled, buffer[..], ivs);
      out := Read(op, |trips|, buffer[..], Enumerate(trips + op.sizes, ivs));
      return;
    }
    out := [];
    for n := 0 to trips[|ivs|]
      invariant AllLong(EnumerateTo(dims, ivs, n), loops)
      invariant out == Delivered(op, loops, rows, filled, EnumerateTo(dims, ivs, n))
      invariant |ivs| > rows && (n > 0 || ivs[rows] > 0) ==> IsRow(buffer[..], filled, ivs[..rows])
      invariant |ivs| == rows && n > 0 ==> IsRow(buffer[..], filled, ivs)
    {
      assert |ivs| >= rows ==> (ivs + [n])[..rows] == ivs[..rows];
      assert |ivs| == rows ==> ivs[..rows] == ivs;
      var part := Run(trips, op, rows, addr, t, buffer, ivs + [n]);
      DeliveredConcat(op, loops, rows, filled, EnumerateTo(dims, ivs, n), Enumerate(dims, ivs + [n]));
      out := out + part;
    }
  }

  // ----- Against the gather from the whole tensor

  /** The element is what the original access yields at point p. */
  ghost predicate IsElementAt(orig: Access, addr: AddressTensor, absorbed: seq<nat>, remaining: seq<nat>, e: Element,
                              p: seq<int>)
  {
    && |e.q| == |absorbed| + |remaining|
    && PointIs(p, absorbed, remaining, e.q[..|absorbed|], e.q[|absorbed|..])
    && e.address == addr(BufferIndex(orig, [], p)) && e.subscripts == Subscripts(orig, [], p)
  }

  predicate IsPointOf(orig: Access, p: seq<int>) {
    |p| == |orig.sizes| && Contains(orig.space, p)
  }

  /** Every element is the one of some point of the original access, with its address and its
      subscripts, and every point has exactly one element. */
  ghost predicate IsGatherOf(orig: Access, addr: AddressTensor, absorbed: seq<nat>, remaining: seq<nat>,
                             out: seq<Element>)
  {
    && (forall n :: 0 <= n < |out| ==> HasPoint(orig, addr, absorbed, remaining, out[n]))
    && forall p :: IsPointOf(orig, p) ==> HasOneElement(orig, addr, absorbed, remaining, out, p)
  }

  ghost predicate HasPoint(orig: Access, addr: AddressTensor, absorbed: seq<nat>, remaining: seq<nat>, e: Element) {
    exists p :: IsPointOf(orig, p) && IsElementAt(orig, addr, absorbed, remaining, e, p)
  }

  ghost predicate HasOneElement(orig: Access, addr: AddressTensor, absorbed: seq<nat>, remaining: seq<nat>,
                                out: seq<Element>, p: seq<int>)
  {
    exists n: nat :: n < |out| && IsElementAt(orig, addr, absorbed, remaining, out[n], p)
                     && forall m: nat :: m < |out| && IsElementAt(orig, addr, absorbed, remaining, out[m], p) ==> m == n
  }

  /** The point of the original access that an iteration is for. */
  lemma PointFor(absorbed: seq<nat>, remaining: seq<nat>, n: nat, q: seq<int>) returns (p: seq<int>)
    requires IsArrangement(absorbed + remaining, n) && |q| == n
    ensures |p| == n && PointIs(p, absorbed, remaining, q[..|absorbed|], q[|absorbed|..])
  {
    var full := absorbed + remaining;
    forall x: nat | x < n ensures x in full {
      ArrangementCovers(full, n, x);
    }
    p := seq(n, x requires 0 <= x < n => q[IndexOf(full, x)]);
    forall j | 0 <= j < n ensures full[j] < n && p[full[j]] == q[j] {
      assert full[IndexOf(full, full[j])] == full[j];
    }
    assert forall k :: 0 <= k < |absorbed| ==> full[k] == absorbed[k];
    assert forall c :: 0 <= c < |remaining| ==> full[|absorbed| + c] == remaining[c];
  }

  /** The iteration that is for a point. */
  function IterationFor(absorbed: seq<nat>, remaining: seq<nat>, p: seq<int>): (q: seq<int>)
    requires (forall k :: 0 <= k < |absorbed| ==> absorbed[k] < |p|)
             && forall c :: 0 <= c < |remaining| ==> remaining[c] < |p|
    ensures |q| == |absorbed| + |remaining|
  {
    seq(|absorbed|, k requires 0 <= k < |absorbed| => p[absorbed[k]]) +
    seq(|remaining|, c requires 0 <= c < |remaining| => p[remaining[c]])
  }

  /** Iterations within the loops are for points in the space, and the other way round. */
  lemma BoxesMatch(orig: Access, op: Access, trips: seq<nat>, absorbed: seq<nat>, remaining: seq<nat>, q: seq<int>,
                   p: seq<int>)
    requires IsBox(orig.space, orig.sizes) && SizesTrack(orig, op, trips, absorbed, remaining)
    requires IsArrangement(absorbed + remaining, |orig.sizes|) && |q| == |orig.sizes|
    requires PointIs(p, absorbed, remaining, q[..|absorbed|], q[|absorbed|..])
    ensures IsPointOf(orig, p) <==> Extends(q, [], trips + op.sizes)
  {
    var dims, full := trips + op.sizes, absorbed + remaining;
    assert q[..0] == [];
    forall j | 0 <= j < |q| ensures full[j] < |p| && p[full[j]] == q[j] && dims[j] == orig.sizes[full[j]] {
      if j < |absorbed| {
        assert q[..|absorbed|][j] == q[j];
      } else {
        assert q[|absorbed|..][j - |absorbed|] == q[j];
      }
    }
    if Extends(q, [], dims) {
      forall x: nat | x < |p| ensures 0 <= p[x] < orig.sizes[x] {
        ArrangementCovers(full, |orig.sizes|, x);
        var j :| 0 <= j < |full| && full[j] == x;
        assert 0 <= q[j] < dims[j];
      }
    }
    if InBox(p, orig.sizes) {
      forall j | 0 <= j < |q| ensures 0 <= q[j] < dims[j] {
        assert 0 <= p[full[j]] < orig.sizes[full[j]];
      }
    }
  }

  lemma ElementFor(orig: Access, op: Access, trips: seq<nat>, absorbed: seq<nat>, remaining: seq<nat>, rows: nat,
                   bufferSize: nat,
                   addr: AddressTensor, q: seq<int>, p: seq<int>)
    requires HasEntryLoop(orig, op, trips, absorbed, remaining, rows, bufferSize) && |q| == |orig.sizes|
    requires PointIs(p, absorbed, remaining, q[..|absorbed|], q[|absorbed|..])
    ensures rows < |trips| == |absorbed|
            && IsElementAt(orig, addr, absorbed, remaining, Delivered(op, |trips|, rows, addr, [q])[0], p)
  {
    TripsMatch(orig, op, trips, absorbed, remaining, rows);
    var ivs, v := q[..|absorbed|], q[|absorbed|..];
    assert SameMeaning(orig, op, absorbed, remaining, rows);
    hide Represents, PointIs, Subscripts;
    ReadsAtEntry(op, rows, ivs, v);
    assert ivs[..rows] + [ivs[rows]] == q[..rows + 1];
  }

  lemma PointIsUnique(absorbed: seq<nat>, remaining: seq<nat>, n: nat, q: seq<int>, r: seq<int>, p: seq<int>)
    requires |q| == n && |r| == n && n == |absorbed| + |remaining|
    requires PointIs(p, absorbed, remaining, q[..|absorbed|], q[|absorbed|..])
    requires PointIs(p, absorbed, remaining, r[..|absorbed|], r[|absorbed|..])
    ensures q == r
  {
    assert q == q[..|absorbed|] + q[|absorbed|..] && r == r[..|absorbed|] + r[|absorbed|..];
    assert q[..|absorbed|] == r[..|absorbed|] && q[|absorbed|..] == r[|absorbed|..];
  }

  lemma ElementHasPoint(orig: Access, op: Access, trips: seq<nat>, absorbed: seq<nat>, remaining: seq<nat>, rows: nat,
                        bufferSize: nat,
                        addr: AddressTensor, q: seq<int>)
    requires IsBox(orig.space, orig.sizes) && HasEntryLoop(orig, op, trips, absorbed, remaining, rows, bufferSize)
    requires q in Enumerate(trips + op.sizes, [])
    ensures rows < |trips| <= |q|
            && HasPoint(orig, addr, absorbed, remaining, Delivered(op, |trips|, rows, addr, [q])[0])
  {
    TripsMatch(orig, op, trips, absorbed, remaining, rows);
    EnumerateIs(trips + op.sizes, [], q);
    assert SizesTrack(orig, op, trips, absorbed, remaining) && IsArrangement(absorbed + remaining, |orig.sizes|);
    hide Represents, IsBox, IsArrangement, IsElementAt, PointIs, SizesTrack;
    var p := PointFor(absorbed, remaining, |orig.sizes|, q);
    BoxesMatch(orig, op, trips, absorbed, remaining, q, p);
    ElementFor(orig, op, trips, absorbed, remaining, rows, bufferSize, addr, q, p);
  }

  lemma IterationOfPoint(orig: Access, op: Access, trips: seq<nat>, absorbed: seq<nat>, remaining: seq<nat>,
                         p: seq<int>) returns (q: seq<int>)
    requires IsBox(orig.space, orig.sizes) && SizesTrack(orig, op, trips, absorbed, remaining)
    requires IsArrangement(absorbed + remaining, |orig.sizes|) && IsPointOf(orig, p)
    ensures |q| == |orig.sizes| && PointIs(p, absorbed, remaining, q[..|absorbed|], q[|absorbed|..])
    ensures q in Enumerate(trips + op.sizes, [])
  {
    q := IterationFor(absorbed, remaining, p);
    assert PointIs(p, absorbed, remaining, q[..|absorbed|], q[|absorbed|..]);
    hide IterationFor, PointIs, IsBox, SizesTrack, Contains, Enumerate;
    BoxesMatch(orig, op, trips, absorbed, remaining, q, p);
    EnumerateIs(trips + op.sizes, [], q);
  }

  lemma PointHasElement(orig: Access, op: Access, trips: seq<nat>, absorbed: seq<nat>, remaining: seq<nat>, rows: nat,
                        bufferSize: nat,
                        addr: AddressTensor, qs: seq<seq<int>>, p: seq<int>)
    requires IsBox(orig.space, orig.sizes) && HasEntryLoop(orig, op, trips, absorbed, remaining, rows, bufferSize)
    requires qs == Enumerate(trips + op.sizes, []) && AllLong(qs, |trips|) && IsPointOf(orig, p)
    ensures HasOneElement(orig, addr, absorbed, remaining, Delivered(op, |trips|, rows, addr, qs), p)
  {
    TripsMatch(orig, op, trips, absorbed, remaining, rows);
    EnumerateOnce(trips + op.sizes, []);
    assert SizesTrack(orig, op, trips, absorbed, remaining) && IsArrangement(absorbed + remaining, |orig.sizes|);
    hide Represents, IsBox, IsArrangement, SizesTrack, PointIs, Enumerate, Contains, IsPointOf, Subscripts, BufferIndex;
    var q := IterationOfPoint(orig, op, trips, absorbed, remaining, p);
    ElementFor(orig, op, trips, absorbed, remaining, rows, bufferSize, addr, q, p);
    var out := Delivered(op, |trips|, rows, addr, qs);
    var n: nat :| n < |qs| && qs[n] == q;
    assert out[n] == Delivered(op, |trips|, rows, addr, [q])[0];
    forall m: nat | m < |out| && IsElementAt(orig, addr, absorbed, remaining, out[m], p) ensures m == n {
      PointIsUnique(absorbed, remaining, |q|, qs[m], q, p);
    }
  }

  /** The loops over the small buffer deliver what the gather over the whole tensor does. */
  lemma NestIsGather(orig: Access, op: Access, trips: seq<nat>, absorbed: seq<nat>, remaining: seq<nat>, rows: nat,
                     bufferSize: nat,
                     addr: AddressTensor)
    requires IsBox(orig.space, orig.sizes) && HasEntryLoop(orig, op, trips, absorbed, remaining, rows, bufferSize)
    ensures var qs := Enumerate(trips + op.sizes, []);
            && rows < |trips| && AllLong(qs, |trips|)
            && IsGatherOf(orig, addr, absorbed, remaining, Delivered(op, |trips|, rows, addr, qs))
  {
    var qs := Enumerate(trips + op.sizes, []);
    AllLongEnough(trips + op.sizes, []);
    assert rows < |trips|;
    hide HasEntryLoop, IsBox, HasPoint, IsPointOf, Enumerate, HasOneElement, Delivered;
    forall n: nat | n < |qs|
      ensures HasPoint(orig, addr, absorbed, remaining, Delivered(op, |trips|, rows, addr, qs)[n])
    {
      DeliveredAt(op, |trips|, rows, addr, qs, n);
      ElementHasPoint(orig, op, trips, absorbed, remaining, rows, bufferSize, addr, qs[n]);
    }
    forall p | IsPointOf(orig, p)
      ensures HasOneElement(orig, addr, absorbed, remaining, Delivered(op, |trips|, rows, addr, qs), p)
    {
      PointHasElement(orig, op, trips, absorbed, remaining, rows, bufferSize, addr, qs, p);
    }
  }

  lemma DeliveredAt(op: Access, loops: nat, rows: nat, addr: AddressTensor, qs: seq<seq<int>>, n: nat)
    requires rows < loops && AllLong(qs, loops) && n < |qs|
    ensures AllLong([qs[n]], loops)
            && Delivered(op, loops, rows, addr, qs)[n] == Delivered(op, loops, rows, addr, [qs[n]])[0]
  {
  }

  // ----- Whether it is the gather that was asked for

  /** At point p the subscripts do not depend on the variables of the rows, and the fills read the
      address the buffer as a whole would hold. */
  predicate IsSameAt(orig: Access, addr: AddressTensor, t: Tile, p: seq<int>) {
    && Subscripts(orig, [], AtNoRow(orig, p)) == Subscripts(orig, [], p)
    && AsFilled(addr, t)(BufferIndex(orig, [], p)) == InTile(addr, t)(BufferIndex(orig, [], p))
  }

  /** The point of an element is one. */
  lemma PointOfElement(absorbed: seq<nat>, remaining: seq<nat>, n: nat, ivs: seq<int>, v: seq<int>, p: seq<int>,
                       p': seq<int>)
    requires IsArrangement(absorbed + remaining, n)
    requires PointIs(p, absorbed, remaining, ivs, v) && PointIs(p', absorbed, remaining, ivs, v)
    ensures p == p'
  {
    var full := absorbed + remaining;
    forall x: nat | x < n ensures p[x] == p'[x] {
      ArrangementCovers(full, n, x);
      assert x in absorbed || x in remaining;
    }
  }

  lemma ElementIff(orig: Access, addr: AddressTensor, t: Tile, absorbed: seq<nat>, remaining: seq<nat>, e: Element,
                   p: seq<int>)
    requires IsIndirect(orig) && IsPointOf(orig, p)
    requires IsElementAt(Blanked(orig), AsFilled(addr, t), absorbed, remaining, e, p)
    ensures IsElementAt(orig, InTile(addr, t), absorbed, remaining, e, p) <==> IsSameAt(orig, addr, t, p)
  {
    BlankedSubscripts(orig, p);
  }

  /** Being the element of the blanked access is not a matter of address and subscripts. */
  lemma ElementOfPoint(orig: Access, addr: AddressTensor, absorbed: seq<nat>, remaining: seq<nat>, e: Element,
                       p: seq<int>)
    requires IsArrangement(absorbed + remaining, |orig.sizes|) && HasPoint(orig, addr, absorbed, remaining, e)
    requires |e.q| == |absorbed| + |remaining|
             && PointIs(p, absorbed, remaining, e.q[..|absorbed|], e.q[|absorbed|..])
    ensures IsElementAt(orig, addr, absorbed, remaining, e, p)
  {
    var p' :| IsPointOf(orig, p') && IsElementAt(orig, addr, absorbed, remaining, e, p');
    PointOfElement(absorbed, remaining, |orig.sizes|, e.q[..|absorbed|], e.q[|absorbed|..], p, p');
  }

  /** What is delivered without references to rows and as the fills read is the gather that was
      asked for exactly if that makes no difference at any point. */
  lemma IsGatherIff(orig: Access, addr: AddressTensor, t: Tile, absorbed: seq<nat>, remaining: seq<nat>,
                    out: seq<Element>)
    requires IsIndirect(orig) && IsArrangement(absorbed + remaining, |orig.sizes|)
    requires IsGatherOf(Blanked(orig), AsFilled(addr, t), absorbed, remaining, out)
    ensures IsGatherOf(orig, InTile(addr, t), absorbed, remaining, out) <==>
            forall p :: IsPointOf(orig, p) ==> IsSameAt(orig, addr, t, p)
  {
    if IsGatherOf(orig, InTile(addr, t), absorbed, remaining, out) {
      forall p | IsPointOf(orig, p) ensures IsSameAt(orig, addr, t, p) {
        GatherIsSameAt(orig, addr, t, absorbed, remaining, out, p);
      }
    }
    if forall p :: IsPointOf(orig, p) ==> IsSameAt(orig, addr, t, p) {
      SameIsGather(orig, addr, t, absorbed, remaining, out);
    }
  }

  lemma GatherIsSameAt(orig: Access, addr: AddressTensor, t: Tile, absorbed: seq<nat>, remaining: seq<nat>,
                       out: seq<Element>, p: seq<int>)
    requires IsIndirect(orig) && IsArrangement(absorbed + remaining, |orig.sizes|) && IsPointOf(orig, p)
    requires IsGatherOf(Blanked(orig), AsFilled(addr, t), absorbed, remaining, out)
    requires IsGatherOf(orig, InTile(addr, t), absorbed, remaining, out)
    ensures IsSameAt(orig, addr, t, p)
  {
    hide IsArrangement, IsIndirect, PointIs, Contains, Subscripts, BufferIndex, AsFilled, InTile, Blanked, IsSameAt;
    assert HasOneElement(orig, InTile(addr, t), absorbed, remaining, out, p);
    var n: nat :| n < |out| && IsElementAt(orig, InTile(addr, t), absorbed, remaining, out[n], p);
    assert HasPoint(Blanked(orig), AsFilled(addr, t), absorbed, remaining, out[n]);
    BlankedSizes(orig);
    hide HasPoint;
    ElementOfPoint(Blanked(orig), AsFilled(addr, t), absorbed, remaining, out[n], p);
    ElementIff(orig, addr, t, absorbed, remaining, out[n], p);
  }

  lemma BlankedSizes(orig: Access)
    ensures Blanked(orig).sizes == orig.sizes && Blanked(orig).space == orig.space
    ensures forall p :: IsPointOf(Blanked(orig), p) <==> IsPointOf(orig, p)
  {
  }

  lemma SameIsGather(orig: Access, addr: AddressTensor, t: Tile, absorbed: seq<nat>, remaining: seq<nat>,
                     out: seq<Element>)
    requires IsIndirect(orig) && IsArrangement(absorbed + remaining, |orig.sizes|)
    requires IsGatherOf(Blanked(orig), AsFilled(addr, t), absorbed, remaining, out)
    requires forall p :: IsPointOf(orig, p) ==> IsSameAt(orig, addr, t, p)
    ensures IsGatherOf(orig, InTile(addr, t), absorbed, remaining, out)
  {
    var blank, filled, tile := Blanked(orig), AsFilled(addr, t), InTile(addr, t);
    BlankedSizes(orig);
    hide IsArrangement, IsIndirect, Contains, Blanked, IsSameAt, IsPointOf, AsFilled, InTile, IsElementAt, PointIs;
    forall n | 0 <= n < |out| ensures HasPoint(orig, tile, absorbed, remaining, out[n]) {
      assert HasPoint(blank, filled, absorbed, remaining, out[n]);
      var p :| IsPointOf(blank, p) && IsElementAt(blank, filled, absorbed, remaining, out[n], p);
      ElementIff(orig, addr, t, absorbed, remaining, out[n], p);
    }
    forall p | IsPointOf(orig, p) ensures HasOneElement(orig, tile, absorbed, remaining, out, p) {
      assert HasOneElement(blank, filled, absorbed, remaining, out, p);
      OneElementStays(orig, addr, t, absorbed, remaining, out, p);
    }
  }

  lemma OneElementStays(orig: Access, addr: AddressTensor, t: Tile, absorbed: seq<nat>, remaining: seq<nat>,
                        out: seq<Element>, p: seq<int>)
    requires IsIndirect(orig) && IsArrangement(absorbed + remaining, |orig.sizes|) && IsPointOf(orig, p)
    requires IsGatherOf(Blanked(orig), AsFilled(addr, t), absorbed, remaining, out)
    requires IsSameAt(orig, addr, t, p)
    ensures HasOneElement(orig, InTile(addr, t), absorbed, remaining, out, p)
  {
    var blank, filled, tile := Blanked(orig), AsFilled(addr, t), InTile(addr, t);
    BlankedSizes(orig);
    hide IsArrangement, IsIndirect, Contains, Blanked, IsSameAt, IsPointOf, AsFilled, InTile, PointIs, Subscripts,
        BufferIndex;
    assert HasOneElement(blank, filled, absorbed, remaining, out, p);
    var n: nat :| n < |out| && IsElementAt(blank, filled, absorbed, remaining, out[n], p)
                  && forall m: nat ::
                       m < |out| && IsElementAt(blank, filled, absorbed, remaining, out[m], p) ==> m == n;
    ElementIff(orig, addr, t, absorbed, remaining, out[n], p);
    forall m: nat | m < |out| && IsElementAt(orig, tile, absorbed, remaining, out[m], p) ensures m == n {
      assert HasPoint(blank, filled, absorbed, remaining, out[m]);
      ElementOfPoint(blank, filled, absorbed, remaining, out[m], p);
    }
  }

  /** There is no difference if no subscript refers to a row and there are no windows or the tile of
      the addresses starts at 0. */
  lemma PlainGatherIsSame(orig: Access, addr: AddressTensor, t: Tile, p: seq<int>)
    requires IsGather(orig) && IsPointOf(orig, p) && |t.indices| == |orig.positions|
    requires |t.indices| == 1 || forall d :: 0 <= d < |t.indices| ==> t.indices[d] == 0
    ensures IsSameAt(orig, addr, t, p)
  {
    NoRowIsSame(orig, p);
    FillsReadTileIff(t);
    assert PlaceFilled(t, BufferIndex(orig, [], p)) == PlaceInTile(t, BufferIndex(orig, [], p));
    hide *;
    SameAt(orig, addr, t, p);
  }

  lemma NoRowIsSame(orig: Access, p: seq<int>)
    requires IsGather(orig) && |p| == |orig.sizes|
    ensures Subscripts(orig, [], AtNoRow(orig, p)) == Subscripts(orig, [], p)
  {
    var u, z := Unified(orig, [], p), Unified(orig, [], AtNoRow(orig, p));
    assert forall d :: 0 <= d < |u| && d !in orig.positions ==> u[d] == z[d];
    hide WellFormed, Unified, AtNoRow;
    forall r | 0 <= r < |orig.maps| ensures Eval(orig.maps[r], z) == Eval(orig.maps[r], u) {
      EvalDepends(orig.maps[r], z, u);
    }
  }

  lemma SameAt(orig: Access, addr: AddressTensor, t: Tile, p: seq<int>)
    requires Subscripts(orig, [], AtNoRow(orig, p)) == Subscripts(orig, [], p)
    requires PlaceFilled(t, BufferIndex(orig, [], p)) == PlaceInTile(t, BufferIndex(orig, [], p))
    ensures IsSameAt(orig, addr, t, p)
  {
    hide Subscripts, BufferIndex, PlaceFilled, PlaceInTile;
  }

  /** A subscript that is the variable of a row makes a difference unless there is only one row. */
  lemma PlainReferenceMakesDifference(orig: Access, addr: AddressTensor, t: Tile, r: nat, k: nat)
    requires IsIndirect(orig) && r < |orig.maps| && k < |orig.positions| && orig.maps[r] == Dim(orig.positions[k])
    ensures RowVariable(orig, k) < |orig.sizes|
    ensures (forall p :: IsPointOf(orig, p) ==> IsSameAt(orig, addr, t, p)) ==> orig.sizes[RowVariable(orig, k)] == 1
  {
    var x, n := RowVariable(orig, k), |orig.sizes|;
    if orig.sizes[x] > 1 {
      var p: seq<int> := seq(n, y => 0)[x := 1];
      assert InBox(p, orig.sizes);
      assert Subscripts(orig, [], p)[r] == 1 && Subscripts(orig, [], AtNoRow(orig, p))[r] == 0;
      assert IsPointOf(orig, p) && !IsSameAt(orig, addr, t, p);
    }
  }

  /** Legalizing a gather for the hardware's buffer and running it. It succeeds exactly if the sizes
      and the tile dimensions fit; then the run delivers every point of the gather once, with 0 for
      the variables of rows in its subscripts and its address from where the fills read it. That is
      the gather that was asked for exactly if neither makes a difference. */
  method GatherThroughBuffer(orig: Access, bufferShape: seq<nat>, buffer: array<int>, dims: seq<nat>,
                             addr: AddressTensor, t: Tile)
    returns (out: seq<Element>, ok: bool, ghost absorbed: seq<nat>, ghost remaining: seq<nat>)
    requires IsIndirect(orig) && |bufferShape| == |orig.positions|
             && forall m :: 0 <= m < |dims| ==> dims[m] < |orig.maps|
    requires |t.indices| == |bufferShape| && IsTile(t) && t.shape == bufferShape
    modifies buffer
    ensures ok <==> bufferShape[|bufferShape| - 1] == buffer.Length && EntryFits(orig, buffer.Length)
                    && DirectsArePlain(orig, RowVariables(orig), dims)
    ensures ok ==> IsArrangement(absorbed + remaining, |orig.sizes|)
                   && IsGatherOf(Blanked(orig), AsFilled(addr, t), absorbed, remaining, out)
    ensures ok ==> (IsGatherOf(orig, InTile(addr, t), absorbed, remaining, out) <==>
                    forall p :: IsPointOf(orig, p) ==> IsSameAt(orig, addr, t, p))
  {
    hide IsIndirect, EntryFits, RowsArePlain, IsWindowed, HasEntryLoop, IsNest, IsGatherOf, IsArrangement, Delivered,
        Enumerate, Blanked, DirectsArePlain, RowsAreGone, RowVariables, IsTile, AsFilled, InTile, IsSameAt;
    out, ok, absorbed, remaining := [], false, [], [];
    var nest := new LoopNest(orig);
    LastRow(orig, bufferShape, buffer.Length);
    var windows := nest.MaterializeWindowLoops(orig, bufferShape, buffer.Length);
    if !windows {
      return;
    }
    WindowedFacts(Blanked(orig), Blanked(nest.op), nest.trips, nest.absorbed, nest.remaining, |bufferShape| - 1);
    var row := |nest.trips|;
    var entry := nest.MaterializeEntryLoop(orig, buffer.Length);
    if !entry {
      return;
    }
    EntryFacts(orig, nest.op, nest.trips, nest.absorbed, nest.remaining, row, buffer.Length);
    RowsTakenAreGone(orig);
    var direct := nest.MaterializeDirectAccessLoops(orig, row, buffer.Length, dims);
    if !direct {
      return;
    }
    EntryFacts(orig, nest.op, nest.trips, nest.absorbed, nest.remaining, row, buffer.Length);
    ok, absorbed, remaining := true, nest.absorbed, nest.remaining;
    out := Run(nest.trips, nest.op, row, addr, t, buffer, []);
    NestIsGather(Blanked(orig), nest.op, nest.trips, absorbed, remaining, row, buffer.Length, AsFilled(addr, t));
    IsGatherIff(orig, addr, t, absorbed, remaining, out);
  }

  lemma LastRow(orig: Access, bufferShape: seq<nat>, bufferSize: nat)
    requires IsIndirect(orig) && |bufferShape| == |orig.positions|
    ensures |bufferShape| > 0 && IsBox(Blanked(orig).space, Blanked(orig).sizes)
    ensures forall k :: 0 <= k < |orig.positions| ==> orig.positions[k] >= |orig.captured|
    ensures EntryFits(orig, bufferSize) ==> RowsArePlain(orig, |bufferShape| - 1)
  {
  }

  lemma RowsTakenAreGone(orig: Access)
    requires forall k :: 0 <= k < |orig.positions| ==> orig.positions[k] >= |orig.captured|
    ensures RowsAreGone(orig, RowVariables(orig))
  {
    forall k | 0 <= k < |orig.positions| ensures RowVariable(orig, k) in RowVariables(orig) {
      assert RowVariables(orig)[k] == RowVariable(orig, k);
    }
  }

  lemma EntryFacts(orig: Access, op: Access, trips: seq<nat>, absorbed: seq<nat>, remaining: seq<nat>, rows: nat,
                   bufferSize: nat)
    requires IsIndirect(orig) && HasEntryLoop(Blanked(orig), op, trips, absorbed, remaining, rows, bufferSize)
    ensures IsNest(trips, op, rows, bufferSize) && |op.order| == |op.sizes| && |op.maps| == |orig.maps|
    ensures IsArrangement(absorbed + remaining, |orig.sizes|)
  {
    hide SameMeaning, OrderTracks, AllOver, Blanking, IsArrangement;
    TripsArePositive(orig, trips, absorbed, remaining, op);
  }

  lemma TripsArePositive(orig: Access, trips: seq<nat>, absorbed: seq<nat>, remaining: seq<nat>, op: Access)
    requires IsIndirect(orig) && SizesTrack(Blanked(orig), op, trips, absorbed, remaining)
    ensures forall k :: 0 <= k < |trips| ==> trips[k] > 0
  {
    hide AllOver;
  }
}
