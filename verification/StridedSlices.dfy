/** Which part of an operand an operation can access, dimension by dimension, and how the part
    is accessed instead of the whole. */
module StridedSlices {
  import opened Wrappers
  import opened Divisors
  import opened AffineMaps

  // ----- Flat expressions

  /** A sum of multiples and a constant; the multiples are of the loop variables and of quotients
      in the expression. */
  datatype Flat = Flat(coefficients: seq<int>, constant: int)

  function Sum(coefficients: seq<int>, values: seq<int>): int
    requires |coefficients| == |values|
    decreases |values|
  {
    var n := |values|;
    if n == 0 then 0 else Sum(coefficients[..n - 1], values[..n - 1]) + coefficients[n - 1] * values[n - 1]
  }

  /** The flat form has the expression's value, for some quotients. */
  ghost predicate HasValue(flat: Flat, v: int) {
    exists values: seq<int> :: |values| == |flat.coefficients| && v == Sum(flat.coefficients, values) + flat.constant
  }

  ghost predicate IsFlatOf(flat: Flat, e: Expr, n: nat) {
    forall x: seq<int> :: |x| == n ==> HasValue(flat, Eval(e, x))
  }

  function Abs(a: int): nat {
    if a < 0 then -a else a
  }

  function CoefficientGcd(s: seq<int>): nat
    decreases |s|
  {
    var n := |s|;
    if n == 0 then 0 else Gcd(CoefficientGcd(s[..n - 1]), Abs(s[n - 1]))
  }

  lemma NegativeDivides(a: int, d: int)
    requires d > 0
    ensures (-a) % d == 0 <==> a % d == 0
  {
    if a % d == 0 {
      Quotient(a, d);
      MultipleMod(-(a / d), d);
      assert -a == -(a / d) * d;
    }
    if (-a) % d == 0 {
      Quotient(-a, d);
      MultipleMod(-((-a) / d), d);
      assert a == -((-a) / d) * d;
    }
  }

  lemma ZeroGcd(a: nat, b: nat)
    ensures Gcd(a, b) == 0 <==> a == 0 && b == 0
  {
  }

  /** It divides every coefficient, and every other number that does divides it. */
  lemma {:induction false} CoefficientGcdIs(s: seq<int>)
    ensures CoefficientGcd(s) > 0 ==> forall i :: 0 <= i < |s| ==> s[i] % CoefficientGcd(s) == 0
    ensures CoefficientGcd(s) == 0 ==> forall i :: 0 <= i < |s| ==> s[i] == 0
    decreases |s|
  {
    var n := |s| - 1;
    if n >= 0 {
      var before, last, g := CoefficientGcd(s[..n]), Abs(s[n]), CoefficientGcd(s);
      CoefficientGcdIs(s[..n]);
      ZeroGcd(before, last);
      if g > 0 {
        GcdDivides(before, last);
        NegativeDivides(s[n], g);
        forall i | 0 <= i < n ensures s[i] % g == 0 {
          FactorDivides(before, s[..n], g, i);
        }
      }
    }
  }

  lemma FactorDivides(before: nat, s: seq<int>, g: nat, i: nat)
    requires i < |s| && g > 0 && before % g == 0
    requires before > 0 ==> s[i] % before == 0
    requires before == 0 ==> s[i] == 0
    ensures s[i] % g == 0
  {
    if before > 0 {
      DividesOn(g, before, s[i]);
    } else {
      MultipleMod(0, g);
    }
  }

  lemma {:induction false} CoefficientGcdIsGreatest(s: seq<int>, d: nat)
    requires d > 0 && forall i :: 0 <= i < |s| ==> s[i] % d == 0
    ensures CoefficientGcd(s) % d == 0
    decreases |s|
  {
    var n := |s| - 1;
    if n >= 0 {
      CoefficientGcdIsGreatest(s[..n], d);
      NegativeDivides(s[n], d);
      GcdGreatest(CoefficientGcd(s[..n]), Abs(s[n]), d);
    } else {
      MultipleMod(0, d);
    }
  }

  lemma {:induction false} SumDivisible(coefficients: seq<int>, values: seq<int>, d: nat)
    requires |coefficients| == |values| && d > 0 && forall i :: 0 <= i < |coefficients| ==> coefficients[i] % d == 0
    ensures Sum(coefficients, values) % d == 0
    decreases |values|
  {
    var n := |values| - 1;
    if n >= 0 {
      SumDivisible(coefficients[..n], values[..n], d);
      DividesProduct(coefficients[n], values[n], d);
      DividesSum(Sum(coefficients[..n], values[..n]), coefficients[n] * values[n], d);
    } else {
      MultipleMod(0, d);
    }
  }

  // ----- The slice of one dimension

  /** Elements offset, offset + stride and so on, size of them. */
  datatype DimSlice = DimSlice(offset: int, size: int, stride: int)

  function Place(d: DimSlice, r: int): int {
    d.offset + d.stride * r
  }

  function Rebase(d: DimSlice, v: int): int
    requires d.stride > 0
  {
    (v - d.offset) / d.stride
  }

  /** Index v is in the slice. */
  predicate Takes(d: DimSlice, v: int) {
    d.stride > 0 && 0 <= Rebase(d, v) < d.size && Place(d, Rebase(d, v)) == v
  }

  /** The slice takes at least one element, and only ones there are. */
  predicate FitsIn(d: DimSlice, extent: int) {
    d.stride > 0 && d.offset >= 0 && d.size >= 1 && Place(d, d.size - 1) < extent
  }

  function CeilDivide(a: nat, b: nat): (q: nat)
    requires b > 0
    ensures q == (a + b - 1) / b
  {
    (a + b - 1) / b
  }

  /** The greatest stride all accessed indices have; None if it is no more than 1, or the sizes
      are not known. */
  function StridedDim(flat: Option<Flat>, extent: Option<int>): Option<DimSlice> {
    if extent.None? || flat.None? then None
    else
      var stride := CoefficientGcd(flat.value.coefficients);
      if stride <= 1 then None
      else
        var offset := flat.value.constant % stride;
        if offset >= extent.value then None
        else Some(DimSlice(offset, CeilDivide(extent.value - offset, stride), stride))
  }

  lemma CeilIs(a: nat, b: nat)
    requires a > 0 && b > 0
    ensures var q := CeilDivide(a, b); q >= 1 && b * (q - 1) < a <= b * q
  {
    var n := a + b - 1;
    var q, r := n / b, n % b;
    assert n == q * b + r;
    assert b * (q - 1) == q * b - b && b * q == q * b;
    if q < 1 {
      Scaled(q, 0, b);
    }
  }

  /** The slice lies in the dimension, and another element would not. */
  lemma StridedDimFits(flat: Option<Flat>, extent: Option<int>)
    requires StridedDim(flat, extent).Some?
    ensures var d := StridedDim(flat, extent).value;
            FitsIn(d, extent.value) && Place(d, d.size) >= extent.value && d.stride > 1
  {
    var d := StridedDim(flat, extent).value;
    CeilIs(extent.value - d.offset, d.stride);
  }

  /** Every index within the dimension that the expression can have is in the slice. */
  lemma StridedDimHolds(flat: Flat, extent: int, v: int)
    requires StridedDim(Some(flat), Some(extent)).Some? && HasValue(flat, v) && 0 <= v < extent
    ensures Takes(StridedDim(Some(flat), Some(extent)).value, v)
  {
    var d := StridedDim(Some(flat), Some(extent)).value;
    var values: seq<int> :| |values| == |flat.coefficients| && v == Sum(flat.coefficients, values) + flat.constant;
    CoefficientGcdIs(flat.coefficients);
    SumDivisible(flat.coefficients, values, d.stride);
    Congruent(Sum(flat.coefficients, values), flat.constant, d.stride);
    StridedDimFits(Some(flat), Some(extent));
    HoldsCongruent(d, v);
  }

  lemma Congruent(a: int, c: int, m: nat)
    requires m > 0 && a % m == 0
    ensures (a + c) % m == c % m
  {
    Quotient(a, m);
    var q, r := c / m, c % m;
    assert c == q * m + r && a + c == (a / m + q) * m + r;
    DivModUnique(a + c, m, a / m + q, r);
  }

  lemma HoldsCongruent(d: DimSlice, v: int)
    requires d.stride > 0 && 0 <= d.offset < d.stride && v % d.stride == d.offset && 0 <= v < Place(d, d.size)
    ensures Takes(d, v)
  {
    var q := v / d.stride;
    assert v - d.offset == q * d.stride;
    MultipleMod(q, d.stride);
    assert Rebase(d, v) == q && Place(d, q) == v && d.stride * d.size == d.size * d.stride;
    if q < 0 {
      Scaled(q, -1, d.stride);
    }
    if q >= d.size {
      Scaled(d.size, q, d.stride);
    }
  }

  // ----- What the stride is, told by the coefficients

  predicate DividesAll(coefficients: seq<int>, d: nat) {
    d > 0 && forall i :: 0 <= i < |coefficients| ==> coefficients[i] % d == 0
  }

  /** More than 1, and the greatest of the numbers that divide all coefficients. */
  ghost predicate IsStrideOf(coefficients: seq<int>, g: nat) {
    g > 1 && DividesAll(coefficients, g) && forall d: nat :: DividesAll(coefficients, d) ==> d <= g
  }

  /** There is at most one such number, and it is found. */
  lemma StrideIsGcd(coefficients: seq<int>, g: nat)
    ensures IsStrideOf(coefficients, g) <==> g > 1 && g == CoefficientGcd(coefficients)
  {
    var h := CoefficientGcd(coefficients);
    CoefficientGcdIs(coefficients);
    forall d: nat | h > 0 && DividesAll(coefficients, d) ensures d <= h {
      CoefficientGcdIsGreatest(coefficients, d);
      FactorIsLess(h, d);
    }
    assert h > 0 ==> DividesAll(coefficients, h);
    if h == 0 && g > 1 {
      forall i | 0 <= i < |coefficients| ensures coefficients[i] % (g + 1) == 0 {
        MultipleMod(0, g + 1);
      }
      assert DividesAll(coefficients, g + 1);
    }
  }

  lemma FactorIsLess(n: nat, d: nat)
    requires n > 0 && d > 0 && n % d == 0
    ensures d <= n
  {
  }

  /** The slice takes exactly the indices that leave the same remainder as c. */
  predicate TakesResidue(d: DimSlice, g: nat, c: int, extent: int) {
    && g > 0 && d.stride == g && FitsIn(d, extent)
    && forall v :: 0 <= v < extent ==> (Takes(d, v) <==> v % g == c % g)
  }

  /** There is a strided slice exactly if all coefficients have a common divisor above 1, the extent
      is known and the offset lies inside it; it takes the indices the expression can have. */
  lemma StridedDimIff(flat: Option<Flat>, extent: Option<int>)
    ensures StridedDim(flat, extent).Some? <==>
            && flat.Some? && extent.Some?
            && exists g: nat :: IsStrideOf(flat.value.coefficients, g) && flat.value.constant % g < extent.value
    ensures StridedDim(flat, extent).Some? ==>
              var d := StridedDim(flat, extent).value;
              IsStrideOf(flat.value.coefficients, d.stride)
              && TakesResidue(d, d.stride, flat.value.constant, extent.value)
  {
    if flat.Some? && extent.Some? {
      var g := CoefficientGcd(flat.value.coefficients);
      StrideIsGcd(flat.value.coefficients, g);
      if h: nat :| IsStrideOf(flat.value.coefficients, h) && flat.value.constant % h < extent.value {
        StrideIsGcd(flat.value.coefficients, h);
      }
      if StridedDim(flat, extent).Some? {
        var d := StridedDim(flat, extent).value;
        StridedDimFits(flat, extent);
        hide IsStrideOf, CoefficientGcd, CeilDivide;
        forall v | 0 <= v < extent.value ensures Takes(d, v) <==> v % d.stride == flat.value.constant % d.stride {
          TakenIffCongruent(d, v);
        }
      }
    }
  }

  lemma TakenIffCongruent(d: DimSlice, v: int)
    requires d.stride > 0 && 0 <= d.offset < d.stride && 0 <= v < Place(d, d.size)
    ensures Takes(d, v) <==> v % d.stride == d.offset
  {
    if v % d.stride == d.offset {
      HoldsCongruent(d, v);
    }
    if Takes(d, v) {
      DivModUnique(v, d.stride, Rebase(d, v), d.offset);
    }
  }

  /** The elements from lb to ub, which other reasoning gives as bounds of the index. */
  function AccessedDim(lb: Option<int>, ub: Option<int>): Option<DimSlice> {
    if lb.None? || ub.None? then None else Some(DimSlice(lb.value, ub.value - lb.value + 1, 1))
  }

  lemma AccessedDimHolds(lb: int, ub: int, v: int)
    ensures Takes(AccessedDim(Some(lb), Some(ub)).value, v) <==> lb <= v <= ub
  {
    MultipleMod(v - lb, 1);
  }

  // ----- All dimensions of an operand

  datatype OperandSlice = OperandSlice(dims: seq<Option<DimSlice>>, exprs: seq<Expr>)

  /** What is known of the affine simplifier: the value stays, and so do the dimensions used. */
  ghost predicate Simplifies(simplify: Expr -> Expr, n: nat) {
    && (forall e: Expr, x: seq<int> :: |x| == n ==> Eval(simplify(e), x) == Eval(e, x))
    && forall e: Expr :: Over(e, n) ==> Over(simplify(e), n)
  }

  function Rebased(e: Expr, d: DimSlice, simplify: Expr -> Expr): Expr {
    simplify(Binary(FloorDiv, Binary(Add, e, Const(-d.offset)), Const(d.stride)))
  }

  /** A slice is dropped if it is the whole dimension, or if it would change the range of a loop
      that is inferred from the size of the dimension. */
  function SliceDim(e: Expr, d: Option<DimSlice>, extent: Option<int>, ranges: seq<Option<int>>,
                    simplify: Expr -> Expr): (Option<DimSlice>, Expr)
  {
    if d.None? then (None, e)
    else if d.value.offset == 0 && d.value.stride == 1 && extent == Some(d.value.size) then (None, e)
    else
      var rebased := Rebased(e, d.value, simplify);
      if rebased.Dim? && rebased.i < |ranges| && ranges[rebased.i] != Some(d.value.size) then (None, e)
      else (d, rebased)
  }

  /** The slice is the whole dimension. */
  predicate IsWhole(d: DimSlice, extent: Option<int>) {
    d.offset == 0 && d.stride == 1 && extent == Some(d.size)
  }

  lemma WholeTakesAll(d: DimSlice, extent: int, v: int)
    requires IsWhole(d, Some(extent))
    ensures Takes(d, v) <==> 0 <= v < extent
  {
    assert v / 1 == v;
  }

  /** In the slice the index would be a loop variable, whose range is not the slice's size. */
  predicate ChangesRange(e: Expr, d: DimSlice, ranges: seq<Option<int>>, simplify: Expr -> Expr) {
    exists k: nat :: k < |ranges| && Rebased(e, d, simplify) == Dim(k) && ranges[k] != Some(d.size)
  }

  /** A slice on offer is dropped for no other reason than these two, and then nothing changes. */
  lemma SlicedUnless(e: Expr, d: DimSlice, extent: Option<int>, ranges: seq<Option<int>>, simplify: Expr -> Expr)
    ensures var (kept, expr) := SliceDim(e, Some(d), extent, ranges, simplify);
            if IsWhole(d, extent) || ChangesRange(e, d, ranges, simplify) then kept.None? && expr == e
            else kept == Some(d)
  {
  }

  /** Dimension i is sliced, and this is the slice. */
  predicate IsSliced(slice: Option<OperandSlice>, i: nat, d: DimSlice) {
    slice.Some? && i < |slice.value.dims| && slice.value.dims[i] == Some(d)
  }

  /** The slices of all dimensions and the map into them. */
  predicate IsSliceOf(s: OperandSlice, exprs: seq<Expr>, dims: seq<Option<DimSlice>>, extents: seq<Option<int>>,
                      ranges: seq<Option<int>>,
                      simplify: Expr -> Expr)
  {
    && |s.dims| == |s.exprs| == |exprs| == |dims| == |extents|
    && forall i :: 0 <= i < |exprs| ==>
                     (s.dims[i], s.exprs[i]) == SliceDim(exprs[i], dims[i], extents[i], ranges, simplify)
  }

  /** Goes through the dimensions; None if no slice is left. */
  method SliceDims(exprs: seq<Expr>, dims: seq<Option<DimSlice>>, extents: seq<Option<int>>, ranges: seq<Option<int>>,
                   simplify: Expr -> Expr)
    returns (slice: Option<OperandSlice>)
    requires |exprs| == |dims| == |extents|
    ensures slice.Some? ==> IsSliceOf(slice.value, exprs, dims, extents, ranges, simplify)
                            && exists i :: 0 <= i < |exprs| && slice.value.dims[i].Some?
    ensures slice.None? ==> forall i ::
                              0 <= i < |exprs| ==> SliceDim(exprs[i], dims[i], extents[i], ranges, simplify).0.None?
    ensures forall i, d :: 0 <= i < |exprs| ==>
              (IsSliced(slice, i, d) <==>
               dims[i] == Some(d) && !IsWhole(d, extents[i]) && !ChangesRange(exprs[i], d, ranges, simplify))
  {
    forall i | 0 <= i < |exprs| && dims[i].Some?
      ensures var (kept, expr) := SliceDim(exprs[i], dims[i], extents[i], ranges, simplify);
              if IsWhole(dims[i].value, extents[i]) || ChangesRange(exprs[i], dims[i].value, ranges, simplify)
              then kept.None? && expr == exprs[i] else kept == dims[i]
    {
      SlicedUnless(exprs[i], dims[i].value, extents[i], ranges, simplify);
    }
    hide ChangesRange, Rebased;
    var kept: seq<Option<DimSlice>>, rebased: seq<Expr>, sliced := [], [], false;
    for i := 0 to |exprs|
      invariant |kept| == |rebased| == i
      invariant forall j :: 0 <= j < i ==>
                              (kept[j], rebased[j]) == SliceDim(exprs[j], dims[j], extents[j], ranges, simplify)
      invariant sliced <==> exists j :: 0 <= j < i && kept[j].Some?
    {
      var (dim, expr) := SliceDim(exprs[i], dims[i], extents[i], ranges, simplify);
      kept, rebased, sliced := kept + [dim], rebased + [expr], sliced || dim.Some?;
    }
    return if sliced then Some(OperandSlice(kept, rebased)) else None;
  }

  /** Where an index of the slice is in the operand, in one dimension. */
  function PlaceIn(d: Option<DimSlice>, r: int): int {
    if d.None? then r else Place(d.value, r)
  }

  /** The access in one dimension is the same: the index into the slice stands for the old one. */
  lemma AccessStays(s: OperandSlice, exprs: seq<Expr>, dims: seq<Option<DimSlice>>, extents: seq<Option<int>>,
                    ranges: seq<Option<int>>,
                    simplify: Expr -> Expr, n: nat, x: seq<int>, i: nat)
    requires IsSliceOf(s, exprs, dims, extents, ranges, simplify) && i < |exprs| && Simplifies(simplify, n) && |x| == n
    requires dims[i].Some? ==> Takes(dims[i].value, Eval(exprs[i], x))
    ensures PlaceIn(s.dims[i], Eval(s.exprs[i], x)) == Eval(exprs[i], x)
    ensures s.dims[i].Some? ==>
      var d, v := s.dims[i].value, Eval(exprs[i], x);
      Takes(d, v) && 0 <= Eval(s.exprs[i], x) < d.size && Eval(s.exprs[i], x) == Rebase(d, v)
  {
    assert (s.dims[i], s.exprs[i]) == SliceDim(exprs[i], dims[i], extents[i], ranges, simplify);
    if s.dims[i].Some? {
      var d, e := s.dims[i].value, exprs[i];
      var moved := Binary(Add, e, Const(-d.offset));
      assert Eval(moved, x) == Eval(e, x) - d.offset && Eval(Const(d.stride), x) == d.stride;
      assert Eval(Binary(FloorDiv, moved, Const(d.stride)), x) == Rebase(d, Eval(e, x));
    }
  }

  /** The size of a dimension of the slice. */
  function SizeIn(d: Option<DimSlice>, extent: Option<int>): Option<int> {
    if d.None? then extent else Some(d.value.size)
  }

  /** The loop ranges that are inferred from plain dimensions of the map stay. */
  lemma LoopRangesStay(s: OperandSlice, exprs: seq<Expr>, dims: seq<Option<DimSlice>>, extents: seq<Option<int>>,
                       ranges: seq<Option<int>>,
                       simplify: Expr -> Expr)
    requires IsSliceOf(s, exprs, dims, extents, ranges, simplify)
    requires forall i :: 0 <= i < |exprs| && exprs[i].Dim? && exprs[i].i < |ranges| ==> ranges[exprs[i].i] == extents[i]
    ensures forall i :: 0 <= i < |exprs| && s.exprs[i].Dim? && s.exprs[i].i < |ranges| ==>
                          ranges[s.exprs[i].i] == SizeIn(s.dims[i], extents[i])
  {
    forall i | 0 <= i < |exprs| && s.exprs[i].Dim? && s.exprs[i].i < |ranges|
      ensures ranges[s.exprs[i].i] == SizeIn(s.dims[i], extents[i])
    {
      assert (s.dims[i], s.exprs[i]) == SliceDim(exprs[i], dims[i], extents[i], ranges, simplify);
    }
  }

  // ----- The strided slice of an operand

  /** The gcd, one coefficient after the other. */
  method GetStride(flat: Flat) returns (stride: nat)
    ensures stride == CoefficientGcd(flat.coefficients)
  {
    stride := 0;
    for i := 0 to |flat.coefficients|
      invariant stride == CoefficientGcd(flat.coefficients[..i])
    {
      assert flat.coefficients[..i + 1][..i] == flat.coefficients[..i];
      stride := Gcd(stride, Abs(flat.coefficients[i]));
    }
    assert flat.coefficients[..|flat.coefficients|] == flat.coefficients;
  }

  method SliceStridedDim(flat: Option<Flat>, extent: Option<int>) returns (d: Option<DimSlice>)
    ensures d == StridedDim(flat, extent)
  {
    if extent.None? || flat.None? {
      return None;
    }
    var stride := GetStride(flat.value);
    if stride <= 1 {
      return None;
    }
    var offset := flat.value.constant % stride;
    if offset >= extent.value {
      return None;
    }
    return Some(DimSlice(offset, CeilDivide(extent.value - offset, stride), stride));
  }

  /** An operand is sliced in a dimension exactly if the index has a stride, the extent is known, the
      offset lies inside it, and no loop gets another range by that. The slice takes exactly the
      indices of the dimension that leave the remainder of the constant. */
  ghost predicate SlicedByStrides(slice: Option<OperandSlice>, exprs: seq<Expr>, flats: seq<Option<Flat>>,
                                  extents: seq<Option<int>>, ranges: seq<Option<int>>, simplify: Expr -> Expr)
    requires |exprs| == |flats| == |extents|
  {
    && (forall i, d :: 0 <= i < |exprs| && IsSliced(slice, i, d) ==> HasStride(flats[i], extents[i], d.stride))
    && forall i, g: nat :: 0 <= i < |exprs| && HasStride(flats[i], extents[i], g) ==>
         exists d :: TakesResidue(d, g, flats[i].value.constant, extents[i].value)
                     && (IsSliced(slice, i, d) <==> !ChangesRange(exprs[i], d, ranges, simplify))
  }

  ghost predicate HasStride(flat: Option<Flat>, extent: Option<int>, g: int) {
    && flat.Some? && extent.Some? && g > 0 && IsStrideOf(flat.value.coefficients, g)
    && flat.value.constant % g < extent.value
  }

  lemma StridedAreSliced(slice: Option<OperandSlice>, exprs: seq<Expr>, flats: seq<Option<Flat>>,
                         extents: seq<Option<int>>, ranges: seq<Option<int>>, simplify: Expr -> Expr)
    requires |exprs| == |flats| == |extents|
    requires forall i, d :: 0 <= i < |exprs| ==>
               (IsSliced(slice, i, d) <==>
                StridedDim(flats[i], extents[i]) == Some(d) && !IsWhole(d, extents[i])
                && !ChangesRange(exprs[i], d, ranges, simplify))
    ensures SlicedByStrides(slice, exprs, flats, extents, ranges, simplify)
  {
    hide IsSliced, ChangesRange, TakesResidue, StridedDim, IsStrideOf;
    forall i, d | 0 <= i < |exprs| && IsSliced(slice, i, d) ensures HasStride(flats[i], extents[i], d.stride) {
      StrideOfSlice(flats[i], extents[i], d);
    }
    forall i, g: nat | 0 <= i < |exprs| && HasStride(flats[i], extents[i], g)
      ensures exists d :: TakesResidue(d, g, flats[i].value.constant, extents[i].value)
                          && (IsSliced(slice, i, d) <==> !ChangesRange(exprs[i], d, ranges, simplify))
    {
      SliceOfStride(flats[i], extents[i], g);
      var d := StridedDim(flats[i], extents[i]).value;
      assert IsSliced(slice, i, d) <==> !ChangesRange(exprs[i], d, ranges, simplify);
    }
  }

  lemma StrideOfSlice(flat: Option<Flat>, extent: Option<int>, d: DimSlice)
    requires StridedDim(flat, extent) == Some(d)
    ensures HasStride(flat, extent, d.stride)
  {
    StridedDimIff(flat, extent);
    StrideIsGcd(flat.value.coefficients, d.stride);
    hide IsStrideOf, TakesResidue, CoefficientGcd;
  }

  lemma SliceOfStride(flat: Option<Flat>, extent: Option<int>, g: nat)
    requires HasStride(flat, extent, g)
    ensures StridedDim(flat, extent).Some?
    ensures var d := StridedDim(flat, extent).value;
            TakesResidue(d, g, flat.value.constant, extent.value) && !IsWhole(d, extent)
  {
    StridedDimIff(flat, extent);
    StrideIsGcd(flat.value.coefficients, g);
    hide IsStrideOf, TakesResidue, CoefficientGcd;
  }

  /** The strided slice of an operand, from the flat forms of its map. */
  method ComputeStridedSlice(exprs: seq<Expr>, flats: seq<Option<Flat>>, extents: seq<Option<int>>,
                             ranges: seq<Option<int>>,
                             simplify: Expr -> Expr)
    returns (slice: Option<OperandSlice>)
    requires |exprs| == |flats| == |extents|
    ensures slice.Some? ==> IsSliceOf(slice.value, exprs, StridedDims(flats, extents), extents, ranges, simplify)
                            && exists i :: 0 <= i < |exprs| && slice.value.dims[i].Some?
    ensures slice.None? ==> forall i ::
                              0 <= i < |exprs| ==>
                                  SliceDim(exprs[i], StridedDims(flats, extents)[i], extents[i], ranges,
                                           simplify).0.None?
    ensures SlicedByStrides(slice, exprs, flats, extents, ranges, simplify)
  {
    var dims: seq<Option<DimSlice>> := [];
    for i := 0 to |exprs|
      invariant |dims| == i && forall j :: 0 <= j < i ==> dims[j] == StridedDim(flats[j], extents[j])
    {
      var d := SliceStridedDim(flats[i], extents[i]);
      dims := dims + [d];
    }
    assert dims == StridedDims(flats, extents);
    slice := SliceDims(exprs, dims, extents, ranges, simplify);
    hide SliceDim, IsSliced, ChangesRange, StridedDim;
    StridedAreSliced(slice, exprs, flats, extents, ranges, simplify);
  }

  function StridedDims(flats: seq<Option<Flat>>, extents: seq<Option<int>>): (dims: seq<Option<DimSlice>>)
    requires |flats| == |extents|
    ensures |dims| == |flats| && forall i :: 0 <= i < |dims| ==> dims[i] == StridedDim(flats[i], extents[i])
  {
    seq(|flats|, i requires 0 <= i < |flats| => StridedDim(flats[i], extents[i]))
  }

  /** The index is within the operand. */
  predicate InExtents(index: seq<int>, extents: seq<Option<int>>) {
    |index| == |extents| && forall i ::
        0 <= i < |index| ==> 0 <= index[i] && (extents[i].Some? ==> index[i] < extents[i].value)
  }

  function IndexAt(exprs: seq<Expr>, x: seq<int>): (index: seq<int>)
    ensures |index| == |exprs| && forall i :: 0 <= i < |exprs| ==> index[i] == Eval(exprs[i], x)
  {
    seq(|exprs|, i requires 0 <= i < |exprs| => Eval(exprs[i], x))
  }

  /** In every dimension, an iteration that accesses the operand accesses the strided slice at
      the index that stands for the old one. */
  lemma StridedAccessStays(s: OperandSlice, exprs: seq<Expr>, flats: seq<Option<Flat>>, extents: seq<Option<int>>,
                           ranges: seq<Option<int>>,
                           simplify: Expr -> Expr, n: nat, x: seq<int>, i: nat)
    requires |exprs| == |flats| == |extents|
             && IsSliceOf(s, exprs, StridedDims(flats, extents), extents, ranges, simplify)
    requires Simplifies(simplify, n) && |x| == n && i < |exprs| && InExtents(IndexAt(exprs, x), extents)
    requires flats[i].Some? ==> IsFlatOf(flats[i].value, exprs[i], n)
    ensures PlaceIn(s.dims[i], Eval(s.exprs[i], x)) == Eval(exprs[i], x)
    ensures s.dims[i].Some? ==>
      var d, v := s.dims[i].value, Eval(exprs[i], x);
      Takes(d, v) && 0 <= Eval(s.exprs[i], x) < d.size && Eval(s.exprs[i], x) == Rebase(d, v)
  {
    var dims, v := StridedDims(flats, extents), Eval(exprs[i], x);
    if dims[i].Some? {
      assert HasValue(flats[i].value, v) && 0 <= IndexAt(exprs, x)[i] < extents[i].value;
      StridedDimHolds(flats[i].value, extents[i].value, v);
    }
    AccessStays(s, exprs, dims, extents, ranges, simplify, n, x, i);
  }

  /** Indices of an expression differ by multiples of the stride. */
  lemma StrideDividesDifference(flat: Flat, v: int, w: int)
    requires HasValue(flat, v) && HasValue(flat, w) && CoefficientGcd(flat.coefficients) > 0
    ensures (v - w) % CoefficientGcd(flat.coefficients) == 0
  {
    var g := CoefficientGcd(flat.coefficients);
    var a: seq<int> :| |a| == |flat.coefficients| && v == Sum(flat.coefficients, a) + flat.constant;
    var b: seq<int> :| |b| == |flat.coefficients| && w == Sum(flat.coefficients, b) + flat.constant;
    CoefficientGcdIs(flat.coefficients);
    SumDivisible(flat.coefficients, a, g);
    SumDivisible(flat.coefficients, b, g);
    DividesSum(Sum(flat.coefficients, a), Sum(flat.coefficients, b), g);
  }

  /** A plain dimension is never sliced, so a loop whose range it defined still has it. */
  lemma PlainDimensionStays(s: OperandSlice, exprs: seq<Expr>, flats: seq<Option<Flat>>, extents: seq<Option<int>>,
                            ranges: seq<Option<int>>, simplify: Expr -> Expr, n: nat, i: nat)
    requires |exprs| == |flats| == |extents|
             && IsSliceOf(s, exprs, StridedDims(flats, extents), extents, ranges, simplify)
    requires i < |exprs| && exprs[i].Dim? && exprs[i].i < n
             && (flats[i].Some? ==> IsFlatOf(flats[i].value, exprs[i], n))
    ensures s.exprs[i] == exprs[i] && s.dims[i].None?
  {
    assert (s.dims[i], s.exprs[i]) == SliceDim(exprs[i], StridedDims(flats, extents)[i], extents[i], ranges, simplify);
    if StridedDim(flats[i], extents[i]).Some? {
      var x := seq(n, _ => 0);
      var y := x[exprs[i].i := 1];
      assert Eval(exprs[i], x) == 0 && Eval(exprs[i], y) == 1;
      assert HasValue(flats[i].value, 0) && HasValue(flats[i].value, 1);
      StrideDividesDifference(flats[i].value, 1, 0);
    }
  }
}
