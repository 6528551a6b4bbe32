/** Assigning addresses to the allocations of programs that run one after the other: every
    program has the local memories to itself, and all share the global ones. */
module AddressAssignment {
  import opened Wrappers
  import opened Divisors
  import opened MemoryTracker

  /** How the elements are laid out: the largest sizes of the dimensions, as far as they are
      known, how far apart neighbours in each dimension are, and where the first element is. */
  datatype Layout = Layout(sizes: Option<seq<int>>, strides: seq<int>, offset: int)

  /** An allocation in a memory. The layout is None if it has no strides, and elementBytes if
      the element type has no size. */
  datatype Allocation = Allocation(space: Resource, layout: Option<Layout>, elementBytes: Option<Word>,
                                   alignment: Option<Word>)

  // ----- The largest offset of an element

  predicate HasRank(l: Layout) {
    l.sizes.Some? ==> |l.sizes.value| == |l.strides|
  }

  /** How far the last element is from the first. */
  function Reach(sizes: seq<int>, strides: seq<int>): int
    requires |sizes| == |strides|
    decreases |sizes|
  {
    var n := |sizes|;
    if n == 0 then 0 else Reach(sizes[..n - 1], strides[..n - 1]) + (sizes[n - 1] - 1) * strides[n - 1]
  }

  predicate NoneNegative(s: seq<int>) {
    forall k :: 0 <= k < |s| ==> s[k] >= 0
  }

  /** A dimension without elements counts only if it has no stride. */
  predicate NoneEmpty(sizes: seq<int>, strides: seq<int>)
    requires |sizes| == |strides|
  {
    forall k :: 0 <= k < |sizes| ==> sizes[k] >= 1 || strides[k] == 0
  }

  predicate HasBound(l: Layout)
    requires HasRank(l)
  {
    && l.sizes.Some? && l.offset >= 0 && NoneNegative(l.strides) && NoneEmpty(l.sizes.value, l.strides)
    && l.offset + Reach(l.sizes.value, l.strides) < WORD
  }

  function UpperOffset(l: Layout): (bound: Option<Word>)
    requires HasRank(l)
  {
    if HasBound(l) then
      ReachGrows(l.sizes.value, l.strides, 0);
      Some(l.offset + Reach(l.sizes.value, l.strides))
    else None
  }

  lemma Product(a: int, b: int)
    requires a >= 0 && b >= 0
    ensures a * b >= 0
  {
  }

  lemma NegativeProduct(a: int, b: int)
    requires a < 0 && b > 0
    ensures a * b < 0
  {
  }

  /** Every dimension adds to it. */
  lemma {:induction false} ReachGrows(sizes: seq<int>, strides: seq<int>, i: nat)
    requires |sizes| == |strides| && i <= |sizes| && NoneNegative(strides) && NoneEmpty(sizes, strides)
    ensures 0 <= Reach(sizes[..i], strides[..i]) <= Reach(sizes, strides)
    decreases |sizes|
  {
    var n := |sizes|;
    if i == n {
      assert sizes[..n] == sizes && strides[..n] == strides;
    }
    if n > 0 {
      if strides[n - 1] > 0 {
        Product(sizes[n - 1] - 1, strides[n - 1]);
      }
      if i < n {
        ReachGrows(sizes[..n - 1], strides[..n - 1], i);
        assert sizes[..n - 1][..i] == sizes[..i] && strides[..n - 1][..i] == strides[..i];
      } else {
        ReachGrows(sizes[..n - 1], strides[..n - 1], n - 1);
        assert sizes[..n - 1][..n - 1] == sizes[..n - 1] && strides[..n - 1][..n - 1] == strides[..n - 1];
      }
    }
  }

  lemma ReachStep(sizes: seq<int>, strides: seq<int>, i: nat)
    requires |sizes| == |strides| && i < |sizes|
    ensures Reach(sizes[..i + 1], strides[..i + 1]) == Reach(sizes[..i], strides[..i]) + (sizes[i] - 1) * strides[i]
  {
    assert sizes[..i + 1][..i] == sizes[..i] && strides[..i + 1][..i] == strides[..i];
  }

  /** Adds up the dimensions and gives up when a product or the sum is no word. */
  method GetUpperOffsetBound(l: Layout) returns (bound: Option<Word>)
    requires HasRank(l)
    ensures bound == UpperOffset(l)
  {
    if l.sizes.None? || l.offset < 0 {
      return None;
    }
    var sizes, strides := l.sizes.value, l.strides;
    for k := 0 to |strides|
      invariant NoneNegative(strides[..k])
    {
      if strides[k] < 0 {
        assert !NoneNegative(strides);
        return None;
      }
      assert strides[..k + 1] == strides[..k] + [strides[k]];
    }
    assert strides[..|strides|] == strides;
    if l.offset >= WORD {
      if NoneEmpty(sizes, strides) {
        ReachGrows(sizes, strides, 0);
      }
      return None;
    }
    var result: Word := l.offset;
    for i := 0 to |sizes|
      invariant result == l.offset + Reach(sizes[..i], strides[..i])
      invariant forall k :: 0 <= k < i ==> sizes[k] >= 1 || strides[k] == 0
    {
      var product := (sizes[i] - 1) * strides[i];
      ReachStep(sizes, strides, i);
      if product < 0 || product >= WORD || result + product >= WORD {
        GivesUp(l, i);
        return None;
      }
      if sizes[i] < 1 && strides[i] > 0 {
        NegativeProduct(sizes[i] - 1, strides[i]);
      }
      result := result + product;
    }
    assert sizes[..|sizes|] == sizes && strides[..|sizes|] == strides;
    return Some(result);
  }

  lemma GivesUp(l: Layout, i: nat)
    requires HasRank(l) && l.sizes.Some? && i < |l.strides| && l.offset >= 0
    requires var sizes, strides := l.sizes.value, l.strides;
             var product := (sizes[i] - 1) * strides[i];
             product < 0 || product >= WORD || l.offset + Reach(sizes[..i], strides[..i]) + product >= WORD
    ensures !HasBound(l)
  {
    var sizes, strides := l.sizes.value, l.strides;
    if NoneNegative(strides) && NoneEmpty(sizes, strides) {
      ReachGrows(sizes, strides, i);
      ReachGrows(sizes, strides, i + 1);
      ReachStep(sizes, strides, i);
      if strides[i] > 0 {
        Product(sizes[i] - 1, strides[i]);
      }
    }
  }

  // ----- Elements

  predicate InBounds(x: seq<int>, sizes: seq<int>) {
    |x| == |sizes| && forall k :: 0 <= k < |x| ==> 0 <= x[k] < sizes[k]
  }

  function Dot(x: seq<int>, strides: seq<int>): int
    requires |x| == |strides|
    decreases |x|
  {
    var n := |x|;
    if n == 0 then 0 else Dot(x[..n - 1], strides[..n - 1]) + x[n - 1] * strides[n - 1]
  }

  /** Where an element is, counted in elements from the assigned address. */
  function Position(l: Layout, x: seq<int>): int
    requires |x| == |l.strides|
  {
    l.offset + Dot(x, l.strides)
  }

  lemma {:induction false} DotWithinReach(x: seq<int>, sizes: seq<int>, strides: seq<int>)
    requires |sizes| == |strides| && InBounds(x, sizes) && NoneNegative(strides)
    ensures 0 <= Dot(x, strides) <= Reach(sizes, strides)
    decreases |x|
  {
    var n := |x|;
    if n > 0 {
      DotWithinReach(x[..n - 1], sizes[..n - 1], strides[..n - 1]);
      Product(x[n - 1], strides[n - 1]);
      Scaled(x[n - 1], sizes[n - 1] - 1, strides[n - 1]);
    }
  }

  /** The last element in every dimension. */
  function LastElement(sizes: seq<int>): (x: seq<int>)
    ensures |x| == |sizes| && forall k :: 0 <= k < |x| ==> x[k] == sizes[k] - 1
  {
    seq(|sizes|, k requires 0 <= k < |sizes| => sizes[k] - 1)
  }

  lemma {:induction false} LastIsAtReach(x: seq<int>, sizes: seq<int>, strides: seq<int>)
    requires |x| == |sizes| == |strides| && forall k :: 0 <= k < |x| ==> x[k] == sizes[k] - 1
    ensures Dot(x, strides) == Reach(sizes, strides)
    decreases |x|
  {
    if |x| > 0 {
      var n := |x| - 1;
      LastIsAtReach(x[..n], sizes[..n], strides[..n]);
    }
  }

  /** No element is behind the bound, and one is at it unless there are no elements. */
  lemma BoundIsTight(l: Layout)
    requires HasRank(l) && UpperOffset(l).Some?
    ensures forall x :: InBounds(x, l.sizes.value) ==> 0 <= Position(l, x) <= UpperOffset(l).value
    ensures (exists x :: InBounds(x, l.sizes.value)) ==>
              exists x :: InBounds(x, l.sizes.value) && Position(l, x) == UpperOffset(l).value
  {
    var sizes := l.sizes.value;
    forall x | InBounds(x, sizes) ensures 0 <= Position(l, x) <= UpperOffset(l).value {
      DotWithinReach(x, sizes, l.strides);
    }
    if x :| InBounds(x, sizes) {
      var last := LastElement(sizes);
      forall k | 0 <= k < |last| ensures 0 <= last[k] < sizes[k] {
        assert 0 <= x[k] < sizes[k];
      }
      LastIsAtReach(last, sizes, l.strides);
      assert InBounds(last, sizes) && Position(l, last) == UpperOffset(l).value;
    }
  }

  /** A layout of known sizes, none of them empty, that does not go down has no bound only if it has
      an element that no word can count. */
  lemma NoBoundIff(l: Layout)
    requires HasRank(l) && l.sizes.Some? && l.offset >= 0 && NoneNegative(l.strides)
    requires forall k :: 0 <= k < |l.strides| ==> l.sizes.value[k] >= 1
    ensures UpperOffset(l).None? <==> exists x :: InBounds(x, l.sizes.value) && Position(l, x) >= WORD
  {
    var sizes := l.sizes.value;
    var last := LastElement(sizes);
    assert InBounds(last, sizes);
    LastIsAtReach(last, sizes, l.strides);
    forall x | InBounds(x, sizes) ensures Position(l, x) <= l.offset + Reach(sizes, l.strides) {
      DotWithinReach(x, sizes, l.strides);
    }
  }

  // ----- The size in bytes

  /** What an allocation always comes with. */
  predicate IsAllocation(a: Allocation) {
    && (a.layout.Some? ==> HasRank(a.layout.value))
    && (a.elementBytes.Some? ==> a.elementBytes.value > 0 && AlignmentOf(a) < WORD)
    && (a.alignment.Some? ==> a.alignment.value > 0)
  }

  function AlignmentOf(a: Allocation): (m: nat)
    requires a.elementBytes.Some? && a.elementBytes.value > 0
  {
    if a.alignment.Some? && a.alignment.value > 0 then Lcm(a.alignment.value, a.elementBytes.value)
        else Lcm(1, a.elementBytes.value)
  }

  function SizeOf(a: Allocation): Option<Word>
    requires IsAllocation(a)
  {
    if a.layout.None? || UpperOffset(a.layout.value).None? || a.elementBytes.None? then None
    else
      var elements := Wrap(UpperOffset(a.layout.value).value + 1);
      if elements * a.elementBytes.value >= WORD then None
      else
        Product(elements, a.elementBytes.value);
        Some(elements * a.elementBytes.value)
  }

  /** The size is that of all elements up to the bound, exactly if their number is a word:
      one more makes it 0. */
  lemma SizeIsThatOfAll(a: Allocation)
    requires IsAllocation(a) && SizeOf(a).Some?
    ensures var elements := UpperOffset(a.layout.value).value + 1;
            && (SizeOf(a).value == elements * a.elementBytes.value <==> elements < WORD)
            && (elements >= WORD ==> SizeOf(a).value == 0)
  {
    var elements := UpperOffset(a.layout.value).value + 1;
    WrapOnce(elements);
    if elements >= WORD {
      Scaled(1, elements, a.elementBytes.value);
      assert Wrap(elements) == 0;
    }
  }

  /** An allocation has no size exactly if its elements have none, have no bound, or need more bytes
      than a word counts. */
  lemma NoSizeIff(a: Allocation)
    requires IsAllocation(a)
    ensures SizeOf(a).None? <==>
            || a.elementBytes.None? || a.layout.None? || UpperOffset(a.layout.value).None?
            || var elements := UpperOffset(a.layout.value).value + 1;
               elements < WORD && elements * a.elementBytes.value >= WORD
  {
    if a.layout.Some? && UpperOffset(a.layout.value).Some? && a.elementBytes.Some? {
      var elements := UpperOffset(a.layout.value).value + 1;
      WrapOnce(elements);
      hide UpperOffset;
      if elements >= WORD {
        assert Wrap(elements) == 0 && 0 * a.elementBytes.value == 0;
      }
    }
  }

  lemma SizeCanBeLost()
    ensures var l := Layout(Some([4]), [0x5555_5555_5555_5555], 0);
            var a := Allocation(0, Some(l), Some(1), None);
            IsAllocation(a) && SizeOf(a) == Some(0) && InBounds([3], [4]) && Position(l, [3]) == WORD - 1
  {
    var sizes, strides := [4], [0x5555_5555_5555_5555];
    assert sizes[..0] == [] && strides[..0] == [];
    assert Reach([], []) == 0 && Reach(sizes, strides) == 3 * 0x5555_5555_5555_5555;
    var x := [3];
    assert x[..0] == [];
    assert Dot([], []) == 0 && Dot(x, strides) == 3 * 0x5555_5555_5555_5555;
    LcmIsMultiple(1, 1);
    assert Lcm(1, 1) == 1;
    var l := Layout(Some(sizes), strides, 0);
    assert UpperOffset(l) == Some(WORD - 1);
    assert Wrap(WORD) == 0;
  }

  method GetSize(a: Allocation) returns (size: Option<Word>)
    requires IsAllocation(a)
    ensures size == SizeOf(a)
  {
    if a.layout.None? {
      return None;
    }
    var offset := GetUpperOffsetBound(a.layout.value);
    if offset.None? || a.elementBytes.None? {
      return None;
    }
    var bound: nat := offset.value;
    var elements: int := Wrap(bound + 1);
    var total := elements * a.elementBytes.value;
    if total >= WORD {
      return None;
    }
    Product(elements, a.elementBytes.value);
    return Some(total);
  }
}
