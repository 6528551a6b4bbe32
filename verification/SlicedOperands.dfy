/** An operation on tensors that gets slices of its operands instead of the whole computes the
    same, once its results are inserted back. */
module SlicedOperands {
  import opened Wrappers
  import Divisors
  import opened AffineMaps
  import opened StridedSlices

  /** The elements by their indices. */
  type Tensor = imap<seq<int>, int>

  type Dims = seq<Option<DimSlice>>

  // ----- Taking a slice and putting it back

  predicate IsInSlice(dims: Dims, index: seq<int>) {
    |index| == |dims| && forall i :: 0 <= i < |dims| && dims[i].Some? ==> Takes(dims[i].value, index[i])
  }

  /** The index counts elements of the slice. */
  predicate InSizes(dims: Dims, r: seq<int>) {
    |r| == |dims| && forall i ::
        0 <= i < |dims| && dims[i].Some? ==> dims[i].value.stride > 0 && 0 <= r[i] < dims[i].value.size
  }

  function PlaceAll(dims: Dims, r: seq<int>): (index: seq<int>)
    requires |r| == |dims|
    ensures |index| == |dims| && forall i :: 0 <= i < |dims| ==> index[i] == PlaceIn(dims[i], r[i])
  {
    seq(|dims|, i requires 0 <= i < |dims| => PlaceIn(dims[i], r[i]))
  }

  function RebaseAll(dims: Dims, index: seq<int>): (r: seq<int>)
    requires IsInSlice(dims, index)
    ensures |r| == |dims| && forall i ::
              0 <= i < |dims| ==> r[i] == if dims[i].None? then index[i] else Rebase(dims[i].value, index[i])
  {
    seq(|dims|, i requires 0 <= i < |dims| => if dims[i].None? then index[i] else Rebase(dims[i].value, index[i]))
  }

  lemma RebasePlace(d: DimSlice, r: int)
    requires d.stride > 0
    ensures Rebase(d, Place(d, r)) == r
  {
    Divisors.MultipleMod(r, d.stride);
    assert d.stride * r == r * d.stride;
  }

  /** The indices of the slice and the indices that are in it are the same, one by one. */
  lemma PlaceAndRebase(dims: Dims, r: seq<int>, index: seq<int>)
    ensures InSizes(dims, r) ==> IsInSlice(dims, PlaceAll(dims, r)) && RebaseAll(dims, PlaceAll(dims, r)) == r
    ensures IsInSlice(dims, index) ==>
              InSizes(dims, RebaseAll(dims, index)) && PlaceAll(dims, RebaseAll(dims, index)) == index
  {
    if InSizes(dims, r) {
      forall i | 0 <= i < |dims| && dims[i].Some?
        ensures Takes(dims[i].value, PlaceAll(dims, r)[i]) && Rebase(dims[i].value, PlaceAll(dims, r)[i]) == r[i]
      {
        RebasePlace(dims[i].value, r[i]);
      }
    }
    if IsInSlice(dims, index) {
      forall i | 0 <= i < |dims| && dims[i].Some? ensures 0 <= RebaseAll(dims, index)[i] < dims[i].value.size {
        assert Takes(dims[i].value, index[i]);
      }
      assert PlaceAll(dims, RebaseAll(dims, index)) == index;
    }
  }

  ghost function Extract(t: Tensor, dims: Dims): Tensor {
    imap r: seq<int> | InSizes(dims, r) && PlaceAll(dims, r) in t :: t[PlaceAll(dims, r)]
  }

  ghost function InsertBack(part: Tensor, old': Tensor, dims: Dims): Tensor {
    imap index: seq<int> | index in old' ::
      if IsInSlice(dims, index) && RebaseAll(dims, index) in part then part[RebaseAll(dims, index)] else old'[index]
  }

  lemma ExtractAt(t: Tensor, dims: Dims, index: seq<int>)
    requires index in t && IsInSlice(dims, index)
    ensures RebaseAll(dims, index) in Extract(t, dims) && Extract(t, dims)[RebaseAll(dims, index)] == t[index]
  {
    PlaceAndRebase(dims, [], index);
  }

  /** An element of the slice is changed as it is in the whole. */
  lemma ExtractChanged(t: Tensor, dims: Dims, index: seq<int>, v: int)
    requires index in t && IsInSlice(dims, index)
    ensures Extract(t, dims)[RebaseAll(dims, index) := v] == Extract(t[index := v], dims)
  {
    ExtractAt(t, dims, index);
    var a, b := Extract(t, dims)[RebaseAll(dims, index) := v], Extract(t[index := v], dims);
    hide Extract, IsInSlice, InSizes;
    forall r: seq<int> ensures SameAt(a, b, r) {
      ChangedAt(t, dims, index, v, r);
    }
    hide *;
    AllSame(a, b);
  }

  ghost predicate SameAt(a: Tensor, b: Tensor, r: seq<int>) {
    (r in a <==> r in b) && (r in a ==> a[r] == b[r])
  }

  lemma AllSame(a: Tensor, b: Tensor)
    requires forall r: seq<int> :: SameAt(a, b, r)
    ensures a == b
  {
    forall r: seq<int> ensures (r in a <==> r in b) && (r in a ==> a[r] == b[r]) {
      assert SameAt(a, b, r);
    }
  }

  lemma ChangedAt(t: Tensor, dims: Dims, index: seq<int>, v: int, r: seq<int>)
    requires index in t && IsInSlice(dims, index)
    ensures SameAt(Extract(t, dims)[RebaseAll(dims, index) := v], Extract(t[index := v], dims), r)
  {
    ExtractAt(t, dims, index);
    PlaceAndRebase(dims, r, index);
    hide IsInSlice, InSizes;
  }

  // ----- The operation

  /** What the operation computes at a point from the values of all operands: their new values. */
  type Body = (seq<int>, seq<int>) -> seq<int>

  ghost predicate KeepsLength(body: Body) {
    forall x: seq<int>, values: seq<int> :: |body(x, values)| == |values|
  }

  ghost predicate CanAccess(maps: seq<seq<Expr>>, state: seq<Tensor>, x: seq<int>) {
    |maps| == |state| && forall k :: 0 <= k < |maps| ==> IndexAt(maps[k], x) in state[k]
  }

  ghost function Values(maps: seq<seq<Expr>>, state: seq<Tensor>, x: seq<int>): (values: seq<int>)
    requires CanAccess(maps, state, x)
    ensures |values| == |state| && forall k :: 0 <= k < |state| ==> values[k] == state[k][IndexAt(maps[k], x)]
  {
    seq(|state|, k requires 0 <= k < |state| => state[k][IndexAt(maps[k], x)])
  }

  ghost function Step(maps: seq<seq<Expr>>, state: seq<Tensor>, x: seq<int>, body: Body): (after: seq<Tensor>)
    requires CanAccess(maps, state, x) && KeepsLength(body)
    ensures |after| == |state|
    ensures forall k :: 0 <= k < |state| ==>
                          after[k] == state[k][IndexAt(maps[k], x) := body(x, Values(maps, state, x))[k]]
  {
    var values := body(x, Values(maps, state, x));
    seq(|state|, k requires 0 <= k < |state| => state[k][IndexAt(maps[k], x) := values[k]])
  }

  predicate HasPoint(points: seq<seq<int>>, x: seq<int>) {
    x in points
  }

  ghost predicate CanRun(maps: seq<seq<Expr>>, state: seq<Tensor>, points: seq<seq<int>>) {
    |maps| == |state| && forall x :: HasPoint(points, x) ==> CanAccess(maps, state, x)
  }

  lemma LastPoint(points: seq<seq<int>>)
    requires points != []
    ensures HasPoint(points, points[|points| - 1])
    ensures forall x :: HasPoint(points[..|points| - 1], x) ==> HasPoint(points, x)
  {
  }

  /** The operation at one point after the other. */
  ghost function Run(maps: seq<seq<Expr>>, state: seq<Tensor>, points: seq<seq<int>>, body: Body): (after: seq<Tensor>)
    requires CanRun(maps, state, points) && KeepsLength(body)
    ensures |after| == |state| && forall k :: 0 <= k < |state| ==> after[k].Keys == state[k].Keys
    decreases |points|
  {
    if points == [] then state
    else
      var n := |points| - 1;
      LastPoint(points);
      var before := Run(maps, state, points[..n], body);
      assert CanAccess(maps, state, points[n]);
      Step(maps, before, points[n], body)
  }

  // ----- One operand is sliced

  /** The slice is what is in the whole, which is as it was everywhere else. */
  ghost predicate Relates(whole: seq<Tensor>, part: seq<Tensor>, k: nat, dims: Dims, old': Tensor) {
    && k < |whole| == |part| && (forall j :: 0 <= j < |whole| && j != k ==> whole[j] == part[j])
    && part[k] == Extract(whole[k], dims) && whole[k].Keys == old'.Keys
    && forall index :: index in old' && !IsInSlice(dims, index) ==> whole[k][index] == old'[index]
  }

  /** The access through the one map is in the slice, where it is the access through the other. */
  predicate Accesses(exprs: seq<Expr>, s: OperandSlice, x: seq<int>) {
    IsInSlice(s.dims, IndexAt(exprs, x)) && IndexAt(s.exprs, x) == RebaseAll(s.dims, IndexAt(exprs, x))
  }

  lemma StepRelates(maps: seq<seq<Expr>>, whole: seq<Tensor>, part: seq<Tensor>, k: nat, s: OperandSlice,
                    old': Tensor, x: seq<int>, body: Body)
    requires Relates(whole, part, k, s.dims, old') && CanAccess(maps, whole, x) && KeepsLength(body)
             && Accesses(maps[k], s, x)
    ensures CanAccess(maps[k := s.exprs], part, x)
    ensures Relates(Step(maps, whole, x, body), Step(maps[k := s.exprs], part, x, body), k, s.dims, old')
  {
    var index := IndexAt(maps[k], x);
    ExtractAt(whole[k], s.dims, index);
    var maps' := maps[k := s.exprs];
    assert Values(maps, whole, x) == Values(maps', part, x);
    var v := body(x, Values(maps, whole, x))[k];
    ExtractChanged(whole[k], s.dims, index, v);
    hide Extract, IsInSlice;
  }

  lemma {:induction false} RunRelates(maps: seq<seq<Expr>>, state: seq<Tensor>, points: seq<seq<int>>, body: Body,
                                      k: nat, s: OperandSlice)
    requires CanRun(maps, state, points) && KeepsLength(body) && k < |state|
    requires forall x :: HasPoint(points, x) ==> Accesses(maps[k], s, x)
    ensures CanRun(maps[k := s.exprs], state[k := Extract(state[k], s.dims)], points)
    ensures Relates(Run(maps, state, points, body),
                    Run(maps[k := s.exprs], state[k := Extract(state[k], s.dims)], points, body), k, s.dims, state[k])
    decreases |points|
  {
    var maps', state' := maps[k := s.exprs], state[k := Extract(state[k], s.dims)];
    forall x | HasPoint(points, x) ensures CanAccess(maps', state', x) {
      assert CanAccess(maps, state, x);
      ExtractAt(state[k], s.dims, IndexAt(maps[k], x));
    }
    if points != [] {
      var n := |points| - 1;
      LastPoint(points);
      RunRelates(maps, state, points[..n], body, k, s);
      var whole, part := Run(maps, state, points[..n], body), Run(maps', state', points[..n], body);
      assert CanAccess(maps, state, points[n]);
      hide Extract, Accesses, IsInSlice;
      StepRelates(maps, whole, part, k, s, state[k], points[n], body);
    }
  }

  lemma Restored(whole: seq<Tensor>, part: seq<Tensor>, k: nat, dims: Dims, old': Tensor)
    requires Relates(whole, part, k, dims, old')
    ensures InsertBack(part[k], old', dims) == whole[k]
  {
    forall index | index in old' && IsInSlice(dims, index)
      ensures RebaseAll(dims, index) in part[k] && part[k][RebaseAll(dims, index)] == whole[k][index]
    {
      ExtractAt(whole[k], dims, index);
    }
    hide Extract, IsInSlice;
  }

  // ----- All operands are sliced

  /** The maps, and the operands, with the slices of the first m operands. */
  function SlicedMaps(maps: seq<seq<Expr>>, slices: seq<Option<OperandSlice>>, m: nat): (r: seq<seq<Expr>>)
    requires m <= |maps| == |slices|
    ensures |r| == |maps|
  {
    seq(|maps|, j requires 0 <= j < |maps| => if j < m && slices[j].Some? then slices[j].value.exprs else maps[j])
  }

  ghost function SlicedState(state: seq<Tensor>, slices: seq<Option<OperandSlice>>, m: nat): (r: seq<Tensor>)
    requires m <= |state| == |slices|
    ensures |r| == |state|
  {
    seq(|state|, j requires 0 <= j < |state| => if j < m
        && slices[j].Some? then Extract(state[j], slices[j].value.dims) else state[j])
  }

  /** A result is inserted into the old operand if that was sliced. */
  ghost function Restore(result: Tensor, old': Tensor, slice: Option<OperandSlice>): Tensor {
    if slice.None? then result else InsertBack(result, old', slice.value.dims)
  }

  predicate AllAccess(maps: seq<seq<Expr>>, slices: seq<Option<OperandSlice>>, x: seq<int>) {
    |maps| == |slices| && forall j :: 0 <= j < |maps| && slices[j].Some? ==> Accesses(maps[j], slices[j].value, x)
  }

  /** The slices hold everything that is accessed at the points. */
  ghost predicate HoldAll(maps: seq<seq<Expr>>, slices: seq<Option<OperandSlice>>, points: seq<seq<int>>) {
    |maps| == |slices| && forall x :: HasPoint(points, x) ==> AllAccess(maps, slices, x)
  }

  /** With the first m operands sliced and their results inserted back, the results are these. */
  ghost predicate HasResults(maps: seq<seq<Expr>>, state: seq<Tensor>, points: seq<seq<int>>, body: Body,
                             slices: seq<Option<OperandSlice>>, m: nat, results: seq<Tensor>)
    requires KeepsLength(body) && m <= |maps| == |slices| && |state| == |maps|
  {
    && CanRun(SlicedMaps(maps, slices, m), SlicedState(state, slices, m), points) && |results| == |state|
    && var now := Run(SlicedMaps(maps, slices, m), SlicedState(state, slices, m), points, body);
       forall j :: 0 <= j < |state| ==> (if j < m then Restore(now[j], state[j], slices[j]) else now[j]) == results[j]
  }

  lemma {:induction false} SlicingKeepsFirst(maps: seq<seq<Expr>>, state: seq<Tensor>, points: seq<seq<int>>,
                                             body: Body,
                                             slices: seq<Option<OperandSlice>>, m: nat, results: seq<Tensor>)
    requires KeepsLength(body) && m <= |maps| == |slices| == |state| && HoldAll(maps, slices, points)
    requires HasResults(maps, state, points, body, slices, 0, results)
    ensures HasResults(maps, state, points, body, slices, m, results)
    decreases m
  {
    hide *;
    if m > 0 {
      SlicingKeepsFirst(maps, state, points, body, slices, m - 1, results);
      OneMoreSliced(maps, state, points, body, slices, m - 1, results);
    }
  }

  lemma SameLength(maps: seq<seq<Expr>>, state: seq<Tensor>, points: seq<seq<int>>)
    requires CanRun(maps, state, points)
    ensures |maps| == |state|
  {
  }

  lemma NoneSliced(maps: seq<seq<Expr>>, state: seq<Tensor>, points: seq<seq<int>>, body: Body,
                   slices: seq<Option<OperandSlice>>)
    requires CanRun(maps, state, points) && KeepsLength(body) && |maps| == |slices| == |state|
    ensures HasResults(maps, state, points, body, slices, 0, Run(maps, state, points, body))
  {
    hide CanRun, Run, Extract, InsertBack, Accesses, CanAccess, KeepsLength, HasResults;
    NoneReplaced(maps, state, slices);
    hide SlicedMaps, SlicedState;
    ResultsOf(maps, state, points, body, slices);
  }

  lemma NoneReplaced(maps: seq<seq<Expr>>, state: seq<Tensor>, slices: seq<Option<OperandSlice>>)
    requires |maps| == |slices| == |state|
    ensures SlicedMaps(maps, slices, 0) == maps && SlicedState(state, slices, 0) == state
  {
  }

  lemma ResultsOf(maps: seq<seq<Expr>>, state: seq<Tensor>, points: seq<seq<int>>, body: Body,
                  slices: seq<Option<OperandSlice>>)
    requires CanRun(maps, state, points) && KeepsLength(body) && |maps| == |slices| == |state|
    requires SlicedMaps(maps, slices, 0) == maps && SlicedState(state, slices, 0) == state
    ensures HasResults(maps, state, points, body, slices, 0, Run(maps, state, points, body))
  {
    hide CanRun, Run, Extract, InsertBack, Accesses, CanAccess, KeepsLength, SlicedMaps, SlicedState, Restore;
  }

  lemma AccessesOne(maps: seq<seq<Expr>>, slices: seq<Option<OperandSlice>>, points: seq<seq<int>>, k: nat)
    requires HoldAll(maps, slices, points) && k < |maps| && slices[k].Some?
    ensures forall x :: HasPoint(points, x) ==> Accesses(maps[k], slices[k].value, x)
  {
    forall x | HasPoint(points, x) ensures Accesses(maps[k], slices[k].value, x) {
      assert AllAccess(maps, slices, x);
    }
  }

  lemma OneMoreSliced(maps: seq<seq<Expr>>, state: seq<Tensor>, points: seq<seq<int>>, body: Body,
                      slices: seq<Option<OperandSlice>>, k: nat, results: seq<Tensor>)
    requires KeepsLength(body) && k < |maps| == |slices| == |state|
             && HasResults(maps, state, points, body, slices, k, results)
    requires HoldAll(maps, slices, points)
    ensures HasResults(maps, state, points, body, slices, k + 1, results)
  {
    var maps0, state0 := SlicedMaps(maps, slices, k), SlicedState(state, slices, k);
    hide Run, Extract, Accesses, InsertBack, CanRun, HoldAll;
    if slices[k].None? {
      assert SlicedMaps(maps, slices, k + 1) == maps0 && SlicedState(state, slices, k + 1) == state0;
    } else {
      var s := slices[k].value;
      assert SlicedMaps(maps, slices, k + 1) == maps0[k := s.exprs]
             && SlicedState(state, slices, k + 1) == state0[k := Extract(state0[k], s.dims)];
      AccessesOne(maps, slices, points, k);
      assert maps0[k] == maps[k];
      RunRelates(maps0, state0, points, body, k, s);
      Restored(Run(maps0, state0, points, body),
               Run(maps0[k := s.exprs], state0[k := Extract(state0[k], s.dims)], points, body), k, s.dims, state0[k]);
    }
  }

  /** An operation on slices that hold everything it accesses computes what it did before. */
  lemma SlicingKeepsMeaning(maps: seq<seq<Expr>>, state: seq<Tensor>, points: seq<seq<int>>, body: Body,
                            slices: seq<Option<OperandSlice>>)
    requires CanRun(maps, state, points) && KeepsLength(body) && HoldAll(maps, slices, points)
    ensures |maps| == |slices| == |state|
    ensures CanRun(SlicedMaps(maps, slices, |maps|), SlicedState(state, slices, |maps|), points)
    ensures var now := Run(SlicedMaps(maps, slices, |maps|), SlicedState(state, slices, |maps|), points, body);
            forall j :: 0 <= j < |state| ==> Restore(now[j], state[j], slices[j]) == Run(maps, state, points, body)[j]
  {
    SameLength(maps, state, points);
    NoneSliced(maps, state, points, body, slices);
    SlicingKeepsFirst(maps, state, points, body, slices, |maps|, Run(maps, state, points, body));
    hide Run, Restore, CanRun, SlicedMaps, SlicedState;
  }

  // ----- Strided slices of all operands

  /** Operand j is replaced by its strided slice, or it has none. */
  predicate IsStrided(slice: Option<OperandSlice>, exprs: seq<Expr>, flats: seq<Option<Flat>>,
                      extents: seq<Option<int>>,
                      ranges: seq<Option<int>>, simplify: Expr -> Expr)
  {
    && |exprs| == |flats| == |extents|
    && (slice.Some? ==> IsSliceOf(slice.value, exprs, StridedDims(flats, extents), extents, ranges, simplify))
    && (slice.None? ==> forall i :: 0 <= i < |exprs| ==>
          SliceDim(exprs[i], StridedDims(flats, extents)[i], extents[i], ranges, simplify).0.None?)
  }

  predicate HaveRanks(maps: seq<seq<Expr>>, flats: seq<seq<Option<Flat>>>, extents: seq<seq<Option<int>>>) {
    |maps| == |flats| == |extents| && forall j :: 0 <= j < |maps| ==> |maps[j]| == |flats[j]| == |extents[j]|
  }

  predicate AreStrided(slices: seq<Option<OperandSlice>>, maps: seq<seq<Expr>>, flats: seq<seq<Option<Flat>>>,
                       extents: seq<seq<Option<int>>>, ranges: seq<Option<int>>, simplify: Expr -> Expr)
  {
    && HaveRanks(maps, flats, extents) && |slices| == |maps|
    && forall j :: 0 <= j < |maps| ==> IsStrided(slices[j], maps[j], flats[j], extents[j], ranges, simplify)
  }

  /** Slices one operand after the other. */
  method SliceOperands(maps: seq<seq<Expr>>, flats: seq<seq<Option<Flat>>>, extents: seq<seq<Option<int>>>,
                       ranges: seq<Option<int>>, simplify: Expr -> Expr)
    returns (slices: seq<Option<OperandSlice>>, changed: bool)
    requires HaveRanks(maps, flats, extents)
    ensures AreStrided(slices, maps, flats, extents, ranges, simplify)
    ensures forall j :: 0 <= j < |maps| ==>
              SlicedByStrides(slices[j], maps[j], flats[j], extents[j], ranges, simplify)
    ensures changed <==> exists j :: 0 <= j < |slices| && slices[j].Some?
  {
    slices, changed := [], false;
    hide SlicedByStrides;
    for j := 0 to |maps|
      invariant |slices| == j
      invariant forall k :: 0 <= k < j ==> IsStrided(slices[k], maps[k], flats[k], extents[k], ranges, simplify)
      invariant forall k :: 0 <= k < j ==>
                              SlicedByStrides(slices[k], maps[k], flats[k], extents[k], ranges, simplify)
      invariant changed <==> exists k :: 0 <= k < j && slices[k].Some?
    {
      var slice := ComputeStridedSlice(maps[j], flats[j], extents[j], ranges, simplify);
      slices, changed := slices + [slice], changed || slice.Some?;
    }
  }

  /** The flat forms are right, and the tensors have only elements within their extents. */
  ghost predicate AreOperands(maps: seq<seq<Expr>>, flats: seq<seq<Option<Flat>>>, extents: seq<seq<Option<int>>>,
                              state: seq<Tensor>, n: nat)
  {
    && HaveRanks(maps, flats, extents) && |state| == |maps|
    && (forall j, i :: 0 <= j < |maps| && 0 <= i < |maps[j]| && flats[j][i].Some? ==>
                         IsFlatOf(flats[j][i].value, maps[j][i], n))
    && forall j, index :: 0 <= j < |state| && index in state[j] ==> InExtents(index, extents[j])
  }

  lemma StridedAccesses(s: OperandSlice, exprs: seq<Expr>, flats: seq<Option<Flat>>, extents: seq<Option<int>>,
                        ranges: seq<Option<int>>, simplify: Expr -> Expr, n: nat, x: seq<int>)
    requires |exprs| == |flats| == |extents|
             && IsSliceOf(s, exprs, StridedDims(flats, extents), extents, ranges, simplify)
    requires Simplifies(simplify, n) && |x| == n && InExtents(IndexAt(exprs, x), extents)
    requires forall i :: 0 <= i < |exprs| && flats[i].Some? ==> IsFlatOf(flats[i].value, exprs[i], n)
    ensures Accesses(exprs, s, x)
  {
    hide IsFlatOf, Simplifies, Takes, StridedDims, InExtents, SliceDim;
    forall i | 0 <= i < |exprs|
      ensures s.dims[i].Some? ==> Takes(s.dims[i].value, IndexAt(exprs, x)[i])
      ensures s.dims[i].Some? ==> s.dims[i].value.stride > 0
                                  && IndexAt(s.exprs, x)[i] == Rebase(s.dims[i].value, IndexAt(exprs, x)[i])
      ensures s.dims[i].None? ==> IndexAt(s.exprs, x)[i] == IndexAt(exprs, x)[i]
    {
      StridedAt(s, exprs, flats, extents, ranges, simplify, n, x, i);
    }
    assert IndexAt(s.exprs, x) == RebaseAll(s.dims, IndexAt(exprs, x));
  }

  lemma StridedAt(s: OperandSlice, exprs: seq<Expr>, flats: seq<Option<Flat>>, extents: seq<Option<int>>,
                  ranges: seq<Option<int>>, simplify: Expr -> Expr, n: nat, x: seq<int>, i: nat)
    requires |exprs| == |flats| == |extents|
             && IsSliceOf(s, exprs, StridedDims(flats, extents), extents, ranges, simplify)
    requires Simplifies(simplify, n) && |x| == n && InExtents(IndexAt(exprs, x), extents) && i < |exprs|
    requires flats[i].Some? ==> IsFlatOf(flats[i].value, exprs[i], n)
    ensures s.dims[i].Some? ==> Takes(s.dims[i].value, Eval(exprs[i], x)) && s.dims[i].value.stride > 0
    ensures s.dims[i].Some? ==> Eval(s.exprs[i], x) == Rebase(s.dims[i].value, Eval(exprs[i], x))
    ensures s.dims[i].None? ==> Eval(s.exprs[i], x) == Eval(exprs[i], x)
  {
    StridedAccessStays(s, exprs, flats, extents, ranges, simplify, n, x, i);
    hide IsFlatOf, Simplifies;
  }

  /** The strided slices hold everything that is accessed. */
  lemma StridedHoldAll(slices: seq<Option<OperandSlice>>, maps: seq<seq<Expr>>, flats: seq<seq<Option<Flat>>>,
                       extents: seq<seq<Option<int>>>, ranges: seq<Option<int>>, simplify: Expr -> Expr,
                       state: seq<Tensor>, points: seq<seq<int>>, n: nat)
    requires AreStrided(slices, maps, flats, extents, ranges, simplify) && Simplifies(simplify, n)
    requires AreOperands(maps, flats, extents, state, n) && CanRun(maps, state, points)
    requires forall x :: HasPoint(points, x) ==> |x| == n
    ensures HoldAll(maps, slices, points)
  {
    hide IsFlatOf, Simplifies, IsSliceOf, Accesses, InExtents;
    forall x, j | HasPoint(points, x) && 0 <= j < |maps| && slices[j].Some?
      ensures Accesses(maps[j], slices[j].value, x)
    {
      assert CanAccess(maps, state, x) && IsStrided(slices[j], maps[j], flats[j], extents[j], ranges, simplify);
      StridedAccesses(slices[j].value, maps[j], flats[j], extents[j], ranges, simplify, n, x);
    }
  }

  /** Putting strided slices in the place of all operands that have one, and inserting the results
      back, keeps what the operation computes. */
  lemma StridedSlicingKeepsMeaning(slices: seq<Option<OperandSlice>>, maps: seq<seq<Expr>>,
                                   flats: seq<seq<Option<Flat>>>,
                                   extents: seq<seq<Option<int>>>, ranges: seq<Option<int>>, simplify: Expr -> Expr,
                                   state: seq<Tensor>, points: seq<seq<int>>, body: Body, n: nat)
    requires AreStrided(slices, maps, flats, extents, ranges, simplify) && Simplifies(simplify, n)
    requires AreOperands(maps, flats, extents, state, n) && CanRun(maps, state, points) && KeepsLength(body)
    requires forall x :: HasPoint(points, x) ==> |x| == n
    ensures |maps| == |slices| == |state|
    ensures CanRun(SlicedMaps(maps, slices, |maps|), SlicedState(state, slices, |maps|), points)
    ensures var now := Run(SlicedMaps(maps, slices, |maps|), SlicedState(state, slices, |maps|), points, body);
            forall j :: 0 <= j < |state| ==> Restore(now[j], state[j], slices[j]) == Run(maps, state, points, body)[j]
  {
    StridedHoldAll(slices, maps, flats, extents, ranges, simplify, state, points, n);
    hide Run, Restore, AreStrided, AreOperands, SlicedMaps, SlicedState, Simplifies, HoldAll;
    SlicingKeepsMeaning(maps, state, points, body, slices);
  }
}
