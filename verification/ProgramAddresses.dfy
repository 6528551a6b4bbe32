/** The addresses of all allocations of a run of programs, and why no two allocations that live
    at the same time share a byte. */
module ProgramAddresses {
  import opened Wrappers
  import opened Divisors
  import opened MemoryTracker
  import opened AddressAssignment

  function Elements(bytes: nat, elementBytes: nat): (n: nat)
    requires elementBytes > 0
  {
    bytes / elementBytes
  }

  /** The address counts elements; None if the allocation failed. */
  function Place(t: Levels, a: Allocation): (Levels, Option<nat>)
    requires IsAllocation(a)
  {
    if SizeOf(a).None? then (t, None)
    else
      var (after, start) := Allocated(t, a.space, SizeOf(a).value, AlignmentOf(a));
      (after, if start.None? then None else Some(Elements(start.value, a.elementBytes.value)))
  }

  predicate AreAllocations(allocs: seq<Allocation>) {
    forall k :: 0 <= k < |allocs| ==> IsAllocation(allocs[k])
  }

  function PlaceAll(t: Levels, allocs: seq<Allocation>): (r: (Levels, seq<Option<nat>>))
    requires AreAllocations(allocs)
    ensures |r.1| == |allocs|
    decreases |allocs|
  {
    if allocs == [] then (t, [])
    else
      var n := |allocs| - 1;
      var (before, at) := PlaceAll(t, allocs[..n]);
      var (after, last) := Place(before, allocs[n]);
      (after, at + [last])
  }

  /** The memories a program has to itself. */
  function OwnMemories(allocs: seq<Allocation>, globals: set<Resource>): set<Resource> {
    set a | a in allocs && a.space !in globals :: a.space
  }

  predicate ArePrograms(programs: seq<seq<Allocation>>) {
    forall i :: 0 <= i < |programs| ==> AreAllocations(programs[i])
  }

  function RunAll(t: Levels, programs: seq<seq<Allocation>>, globals: set<Resource>): (r: (Levels,
                  seq<seq<Option<nat>>>))
    requires ArePrograms(programs)
    ensures |r.1| == |programs| && forall i :: 0 <= i < |programs| ==> |r.1[i]| == |programs[i]|
    decreases |programs|
  {
    if programs == [] then (t, [])
    else
      var n := |programs| - 1;
      var (before, at) := RunAll(t, programs[..n], globals);
      var (after, last) := PlaceAll(Restarted(before, OwnMemories(programs[n], globals)), programs[n]);
      (after, at + [last])
  }

  // ----- Where the bytes are

  function StartOf(a: Allocation, at: nat): nat
    requires a.elementBytes.Some?
  {
    Product(at, a.elementBytes.value);
    at * a.elementBytes.value
  }

  /** The end of the allocation would be behind the largest address. */
  predicate Overruns(t: Levels, a: Allocation)
    requires IsAllocation(a)
  {
    SizeOf(a).Some? && a.space in t.capacities && EndOf(t, a.space, SizeOf(a).value, AlignmentOf(a)) >= WORD
  }

  /** The allocation has bytes from lo to hi. */
  predicate Holds(a: Allocation, at: nat, lo: nat, hi: nat)
    requires IsAllocation(a)
  {
    SizeOf(a).Some? && lo <= StartOf(a, at) && StartOf(a, at) + SizeOf(a).value <= hi
  }

  /** The bytes are taken after t, and before after, inside the memory. */
  predicate IsTaken(t: Levels, after: Levels, a: Allocation, at: nat)
    requires IsAllocation(a)
  {
    && Holds(a, at, NextOf(t, a.space), NextOf(after, a.space))
    && a.space in t.capacities && StartOf(a, at) + SizeOf(a).value <= t.capacities[a.space]
  }

  /** Only the next address of the allocation's memory changes, and only upwards. */
  ghost predicate Grows(t: Levels, after: Levels) {
    && after.capacities == t.capacities && after.reserved == t.reserved && t.next.Keys <= after.next.Keys
    && forall r: Resource :: NextOf(t, r) <= NextOf(after, r)
  }

  /** The allocation fits into what is left of a memory of known capacity. */
  predicate Fits(t: Levels, a: Allocation)
    requires IsAllocation(a)
  {
    SizeOf(a).Some? && a.space in t.capacities
    && EndOf(t, a.space, SizeOf(a).value, AlignmentOf(a)) <= t.capacities[a.space]
  }

  /** An allocation gets an address exactly if it fits. If it does not, nothing is taken, and no other
      memory has anything taken from it if it does. */
  lemma PlacedIffFits(t: Levels, a: Allocation)
    requires IsAllocation(a) && !Overruns(t, a)
    ensures var (after, at) := Place(t, a);
            && (at.Some? <==> Fits(t, a))
            && forall r: Resource :: at.None? || r != a.space ==> NextOf(after, r) == NextOf(t, r)
  {
    if SizeOf(a).Some? {
      AllocatedIsInside(t, a.space, SizeOf(a).value, AlignmentOf(a));
      hide AlignUp, AlignAddress, Wrap, SizeOf, AlignmentOf, Elements;
    }
  }

  /** One allocation: its bytes come after all earlier ones of the memory and before all later
      ones, and the address in elements stands for exactly the byte that was found. */
  lemma PlaceHolds(t: Levels, a: Allocation)
    requires IsAllocation(a) && !Overruns(t, a)
    ensures var (after, at) := Place(t, a);
            && Grows(t, after)
            && (at.Some? ==> IsTaken(t, after, a, at.value))
            && (at.Some? ==> StartOf(a, at.value) == AlignUp(NextOf(t, a.space), AlignmentOf(a)))
  {
    if SizeOf(a).Some? {
      var size, m, eb := SizeOf(a).value, AlignmentOf(a), a.elementBytes.value;
      AllocatedIsInside(t, a.space, size, m);
      AlignUpIsLeast(NextOf(t, a.space), m, 0) by {
        AlignmentIsMultiple(a);
      }
      AlignmentIsMultiple(a);
      DividesOn(eb, m, AlignUp(NextOf(t, a.space), m));
      Quotient(AlignUp(NextOf(t, a.space), m), eb);
      hide AlignUp, AlignAddress, Wrap, SizeOf, AlignmentOf;
    }
  }

  /** The first byte can be counted in elements and is aligned as the allocation asks for. */
  predicate IsAligned(a: Allocation, byte: nat) {
    && a.elementBytes.Some? && a.elementBytes.value > 0 && byte % a.elementBytes.value == 0
    && (a.alignment.Some? && a.alignment.value > 0 ==> byte % a.alignment.value == 0)
  }

  /** The address is the lowest such one that is left. */
  lemma PlacedIsLowest(t: Levels, a: Allocation, other: nat)
    requires IsAllocation(a) && !Overruns(t, a) && Place(t, a).1.Some?
    ensures SizeOf(a).Some? && a.elementBytes.Some?
    ensures var start := StartOf(a, Place(t, a).1.value);
            && NextOf(t, a.space) <= start && IsAligned(a, start)
            && (other >= NextOf(t, a.space) && IsAligned(a, other) ==> other >= start)
  {
    PlaceHolds(t, a);
    AlignmentIsMultiple(a);
    var next, m := NextOf(t, a.space), AlignmentOf(a);
    AlignUpIsLeast(next, m, other);
    AlignedIff(a, AlignUp(next, m));
    AlignedIff(a, other);
    hide Place, AlignUp, AlignmentOf, IsAligned, SizeOf;
  }

  lemma AlignedIff(a: Allocation, byte: nat)
    requires a.elementBytes.Some? && a.elementBytes.value > 0
    ensures AlignmentOf(a) > 0 && (IsAligned(a, byte) <==> byte % AlignmentOf(a) == 0)
  {
    var alignment := if a.alignment.Some? && a.alignment.value > 0 then a.alignment.value else 1;
    CommonMultiple(alignment, a.elementBytes.value, byte);
    hide Lcm;
    assert byte % 1 == 0;
  }

  /** No allocation overruns, each after the ones before it. */
  predicate NoneOverruns(t: Levels, allocs: seq<Allocation>)
    requires AreAllocations(allocs)
    decreases |allocs|
  {
    allocs == [] || var n := |allocs| - 1;
      NoneOverruns(t, allocs[..n]) && !Overruns(PlaceAll(t, allocs[..n]).0, allocs[n])
  }

  lemma {:induction false} AllTaken(t: Levels, allocs: seq<Allocation>)
    requires AreAllocations(allocs) && NoneOverruns(t, allocs)
    ensures var (after, at) := PlaceAll(t, allocs);
            && Grows(t, after)
            && forall k :: 0 <= k < |allocs| && at[k].Some? ==> IsTaken(t, after, allocs[k], at[k].value)
    decreases |allocs|
  {
    if allocs != [] {
      var n := |allocs| - 1;
      AllTaken(t, allocs[..n]);
      PlaceHolds(PlaceAll(t, allocs[..n]).0, allocs[n]);
      hide Place, Overruns;
    }
  }

  /** In one program later allocations come behind earlier ones. */
  lemma {:induction false} LaterIsBehind(t: Levels, allocs: seq<Allocation>, j: nat, k: nat)
    requires AreAllocations(allocs) && NoneOverruns(t, allocs) && j < k < |allocs| && allocs[j].space == allocs[k].space
    requires var at := PlaceAll(t, allocs).1; at[j].Some? && at[k].Some?
    ensures var at := PlaceAll(t, allocs).1;
            SizeOf(allocs[j]).Some? && SizeOf(allocs[k]).Some?
              && StartOf(allocs[j], at[j].value) + SizeOf(allocs[j]).value <= StartOf(allocs[k], at[k].value)
    decreases |allocs|
  {
    var n := |allocs| - 1;
    if k < n {
      LaterIsBehind(t, allocs[..n], j, k);
    } else {
      AllTaken(t, allocs[..n]);
      PlaceHolds(PlaceAll(t, allocs[..n]).0, allocs[n]);
      hide Place, Overruns;
    }
  }

  // ----- Programs one after the other

  predicate NoneOverrunsIn(t: Levels, programs: seq<seq<Allocation>>, globals: set<Resource>)
    requires ArePrograms(programs)
    decreases |programs|
  {
    programs == [] ||
    var n := |programs| - 1;
    && NoneOverrunsIn(t, programs[..n], globals)
    && NoneOverruns(StateFor(t, programs, globals, n), programs[n])
  }

  /** What program i starts with. */
  function StateFor(t: Levels, programs: seq<seq<Allocation>>, globals: set<Resource>, i: nat): Levels
    requires ArePrograms(programs) && i < |programs|
  {
    Restarted(RunAll(t, programs[..i], globals).0, OwnMemories(programs[i], globals))
  }

  lemma {:induction false} ProgramIsPlaced(t: Levels, programs: seq<seq<Allocation>>, globals: set<Resource>, i: nat)
    requires ArePrograms(programs) && i < |programs|
    ensures RunAll(t, programs, globals).1[i] == PlaceAll(StateFor(t, programs, globals, i), programs[i]).1
    ensures RunAll(t, programs[..i + 1], globals).0 == PlaceAll(StateFor(t, programs, globals, i), programs[i]).0
    ensures NoneOverrunsIn(t, programs, globals) ==> NoneOverruns(StateFor(t, programs, globals, i), programs[i])
    decreases |programs|
  {
    var n := |programs| - 1;
    if i < n {
      ProgramIsPlaced(t, programs[..n], globals, i);
      assert programs[..n][..i] == programs[..i] && programs[..n][..i + 1] == programs[..i + 1];
    } else {
      assert programs[..n + 1] == programs;
    }
  }

  /** What every run keeps: the sizes of the memories, and that the reserved part stays free. */
  predicate IsAboveReserved(t: Levels) {
    forall r :: r in t.reserved ==> t.reserved[r] <= NextOf(t, r)
  }

  lemma {:induction false} RunKeeps(t: Levels, programs: seq<seq<Allocation>>, globals: set<Resource>)
    requires ArePrograms(programs) && NoneOverrunsIn(t, programs, globals) && IsAboveReserved(t)
             && t.reserved.Keys <= t.next.Keys
    ensures var after := RunAll(t, programs, globals).0;
            && after.capacities == t.capacities && after.reserved == t.reserved && IsAboveReserved(after)
               && t.reserved.Keys <= after.next.Keys
            && forall m :: m in globals ==> NextOf(t, m) <= NextOf(after, m)
    decreases |programs|
  {
    if programs != [] {
      var n := |programs| - 1;
      RunKeeps(t, programs[..n], globals);
      AllTaken(StateFor(t, programs, globals, n), programs[n]);
    }
  }

  lemma {:induction false} FrontIsClean(t: Levels, programs: seq<seq<Allocation>>, globals: set<Resource>, i: nat)
    requires ArePrograms(programs) && NoneOverrunsIn(t, programs, globals) && i <= |programs|
    ensures NoneOverrunsIn(t, programs[..i], globals)
    decreases |programs|
  {
    var n := |programs|;
    if i == n {
      assert programs[..i] == programs;
    } else {
      FrontIsClean(t, programs[..n - 1], globals, i);
      assert programs[..n - 1][..i] == programs[..i];
    }
  }

  lemma RestartKeepsGlobals(t: Levels, allocs: seq<Allocation>, globals: set<Resource>, m: Resource)
    requires m in globals
    ensures NextOf(Restarted(t, OwnMemories(allocs, globals)), m) == NextOf(t, m)
  {
  }

  /** What programs put in global memory stays taken. */
  lemma {:induction false} GlobalsStayTaken(t: Levels, programs: seq<seq<Allocation>>, globals: set<Resource>, i: nat,
                                            m: Resource)
    requires ArePrograms(programs) && NoneOverrunsIn(t, programs, globals) && i <= |programs| && m in globals
    ensures NextOf(RunAll(t, programs[..i], globals).0, m) <= NextOf(RunAll(t, programs, globals).0, m)
    decreases |programs|
  {
    var n := |programs|;
    if i == n {
      assert programs[..i] == programs;
    } else {
      var s := StateFor(t, programs, globals, n - 1);
      GlobalsStayTaken(t, programs[..n - 1], globals, i, m);
      assert programs[..n - 1][..i] == programs[..i];
      AllTaken(s, programs[n - 1]);
      RestartKeepsGlobals(RunAll(t, programs[..n - 1], globals).0, programs[n - 1], globals, m);
      assert RunAll(t, programs, globals).0 == PlaceAll(s, programs[n - 1]).0;
      assert Grows(s, PlaceAll(s, programs[n - 1]).0);
      hide *;
      assert NextOf(s, m) <= NextOf(PlaceAll(s, programs[n - 1]).0, m);
    }
  }

  // ----- The main results

  /** Allocation j of program i has got an address, and all its elements have room. */
  predicate IsPlaced(t: Levels, programs: seq<seq<Allocation>>, globals: set<Resource>, i: nat, j: nat)
    requires ArePrograms(programs)
  {
    && i < |programs| && j < |programs[i]| && RunAll(t, programs, globals).1[i][j].Some?
    && SizeOf(programs[i][j]).Some? && UpperOffset(programs[i][j].layout.value).value + 1 < WORD
  }

  function AddressOf(t: Levels, programs: seq<seq<Allocation>>, globals: set<Resource>, i: nat, j: nat): nat
    requires ArePrograms(programs) && IsPlaced(t, programs, globals, i, j)
  {
    RunAll(t, programs, globals).1[i][j].value
  }

  /** The first byte of an element, from the assigned address in elements. */
  function ByteOf(a: Allocation, at: nat, x: seq<int>): int
    requires a.layout.Some? && HasRank(a.layout.value) && |x| == |a.layout.value.strides| && a.elementBytes.Some?
  {
    (at + Position(a.layout.value, x)) * a.elementBytes.value
  }

  predicate IsElement(a: Allocation, x: seq<int>)
    requires IsAllocation(a)
  {
    a.layout.Some? && a.layout.value.sizes.Some? && InBounds(x, a.layout.value.sizes.value)
  }

  /** Every element is within the bytes of its allocation. */
  lemma ElementWithin(a: Allocation, at: nat, x: seq<int>)
    requires IsAllocation(a) && SizeOf(a).Some? && UpperOffset(a.layout.value).value + 1 < WORD && IsElement(a, x)
    ensures StartOf(a, at) <= ByteOf(a, at, x)
            && ByteOf(a, at, x) + a.elementBytes.value <= StartOf(a, at) + SizeOf(a).value
  {
    var l, eb := a.layout.value, a.elementBytes.value;
    BoundIsTight(l);
    SizeIsThatOfAll(a);
    var pos, bound := Position(l, x), UpperOffset(l).value;
    assert 0 <= pos <= bound;
    hide Position, UpperOffset, SizeOf;
    Scaled(at, at + pos, eb);
    Scaled(at + pos + 1, at + bound + 1, eb);
    assert (at + pos + 1) * eb == (at + pos) * eb + eb && (at + bound + 1) * eb == at * eb + (bound + 1) * eb;
  }

  /** Between what state and what state the allocation's bytes are taken. */
  lemma PlacedBytes(t: Levels, programs: seq<seq<Allocation>>, globals: set<Resource>, i: nat, j: nat)
    requires ArePrograms(programs) && NoneOverrunsIn(t, programs, globals) && IsPlaced(t, programs, globals, i, j)
    ensures IsTaken(StateFor(t, programs, globals, i), RunAll(t, programs[..i + 1], globals).0, programs[i][j],
                    AddressOf(t, programs, globals, i, j))
  {
    ProgramIsPlaced(t, programs, globals, i);
    AllTaken(StateFor(t, programs, globals, i), programs[i]);
    hide PlaceAll, NoneOverruns, RunAll, NoneOverrunsIn, SizeOf, IsTaken;
  }

  /** All bytes of all elements are behind the reserved part and inside the memory. */
  lemma ElementsAreInside(t: Levels, programs: seq<seq<Allocation>>, globals: set<Resource>, i: nat, j: nat,
                          x: seq<int>)
    requires ArePrograms(programs) && NoneOverrunsIn(t, programs, globals) && IsPlaced(t, programs, globals, i, j)
    requires IsAboveReserved(t) && t.capacities.Keys <= t.reserved.Keys <= t.next.Keys && IsElement(programs[i][j], x)
    ensures var a := programs[i][j];
            var byte := ByteOf(a, AddressOf(t, programs, globals, i, j), x);
            a.space in t.capacities && t.reserved[a.space] <= byte
              && byte + a.elementBytes.value <= t.capacities[a.space]
  {
    PlacedBytes(t, programs, globals, i, j);
    ElementWithin(programs[i][j], AddressOf(t, programs, globals, i, j), x);
    StateKeeps(t, programs, globals, i);
    hide RunAll, ByteOf, SizeOf, NoneOverrunsIn, StateFor, StartOf;
  }

  lemma StateKeeps(t: Levels, programs: seq<seq<Allocation>>, globals: set<Resource>, i: nat)
    requires ArePrograms(programs) && NoneOverrunsIn(t, programs, globals) && i < |programs|
    requires IsAboveReserved(t) && t.reserved.Keys <= t.next.Keys
    ensures var s := StateFor(t, programs, globals, i);
            s.capacities == t.capacities && s.reserved == t.reserved && IsAboveReserved(s)
  {
    FrontIsClean(t, programs, globals, i);
    RunKeeps(t, programs[..i], globals);
    hide RunAll, NoneOverrunsIn;
  }

  /** No two allocations that live at the same time share a byte: two of one program, or two of
      different programs in global memory. */
  lemma NoSharedByte(t: Levels, programs: seq<seq<Allocation>>, globals: set<Resource>, i: nat, j: nat, i': nat,
                     j': nat, x: seq<int>, y: seq<int>)
    requires ArePrograms(programs) && NoneOverrunsIn(t, programs, globals)
    requires IsPlaced(t, programs, globals, i, j) && IsPlaced(t, programs, globals, i', j')
    requires programs[i][j].space == programs[i'][j'].space
    requires if i == i' then j < j' else i < i' && programs[i][j].space in globals
    requires IsElement(programs[i][j], x) && IsElement(programs[i'][j'], y)
    ensures ByteOf(programs[i][j], AddressOf(t, programs, globals, i, j), x) + programs[i][j].elementBytes.value
              <= ByteOf(programs[i'][j'], AddressOf(t, programs, globals, i', j'), y)
  {
    ElementWithin(programs[i][j], AddressOf(t, programs, globals, i, j), x);
    ElementWithin(programs[i'][j'], AddressOf(t, programs, globals, i', j'), y);
    hide ByteOf, SizeOf, NoneOverruns, PlaceAll, StartOf;
    if i == i' {
      ProgramIsPlaced(t, programs, globals, i);
      LaterIsBehind(StateFor(t, programs, globals, i), programs[i], j, j');
    } else {
      AcrossPrograms(t, programs, globals, i, j, i', j');
    }
  }

  lemma AcrossPrograms(t: Levels, programs: seq<seq<Allocation>>, globals: set<Resource>, i: nat, j: nat, i': nat,
                       j': nat)
    requires ArePrograms(programs) && NoneOverrunsIn(t, programs, globals) && i < i'
    requires IsPlaced(t, programs, globals, i, j) && IsPlaced(t, programs, globals, i', j')
    requires programs[i][j].space == programs[i'][j'].space && programs[i][j].space in globals
    ensures StartOf(programs[i][j], AddressOf(t, programs, globals, i, j)) + SizeOf(programs[i][j]).value
              <= StartOf(programs[i'][j'], AddressOf(t, programs, globals, i', j'))
  {
    var m := programs[i][j].space;
    PlacedBytes(t, programs, globals, i, j);
    PlacedBytes(t, programs, globals, i', j');
    FrontIsClean(t, programs, globals, i');
    GlobalsStayTaken(t, programs[..i'], globals, i + 1, m);
    assert programs[..i'][..i + 1] == programs[..i + 1];
    assert NextOf(StateFor(t, programs, globals, i'), m) == NextOf(RunAll(t, programs[..i'], globals).0, m);
    hide RunAll, SizeOf, NoneOverrunsIn, StateFor, StartOf;
  }

  // ----- What an address depends on

  /** The two states say the same of memory m. */
  predicate AlikeFor(s: Levels, t: Levels, m: Resource) {
    s.capacities == t.capacities && s.reserved == t.reserved && NextOf(s, m) == NextOf(t, m)
  }

  lemma PlaceDepends(s: Levels, t: Levels, a: Allocation, m: Resource)
    requires IsAllocation(a) && AlikeFor(s, t, m)
    ensures AlikeFor(Place(s, a).0, Place(t, a).0, m)
    ensures a.space == m ==> Place(s, a).1 == Place(t, a).1
  {
    hide AlignAddress, Wrap, SizeOf, AlignmentOf, Elements;
  }

  /** What is placed in a memory depends on nothing but that memory. */
  lemma {:induction false} PlaceAllDepends(s: Levels, t: Levels, allocs: seq<Allocation>, m: Resource)
    requires AreAllocations(allocs) && AlikeFor(s, t, m)
    ensures AlikeFor(PlaceAll(s, allocs).0, PlaceAll(t, allocs).0, m)
    ensures forall k :: 0 <= k < |allocs| && allocs[k].space == m ==>
              PlaceAll(s, allocs).1[k] == PlaceAll(t, allocs).1[k]
    decreases |allocs|
  {
    if allocs != [] {
      var n := |allocs| - 1;
      PlaceAllDepends(s, t, allocs[..n], m);
      PlaceDepends(PlaceAll(s, allocs[..n]).0, PlaceAll(t, allocs[..n]).0, allocs[n], m);
      hide Place;
    }
  }

  /** What no placing changes. */
  predicate KeepsMemories(t: Levels, after: Levels) {
    after.capacities == t.capacities && after.reserved == t.reserved && t.next.Keys <= after.next.Keys
  }

  lemma {:induction false} PlaceAllKeeps(t: Levels, allocs: seq<Allocation>)
    requires AreAllocations(allocs)
    ensures KeepsMemories(t, PlaceAll(t, allocs).0)
    decreases |allocs|
  {
    if allocs != [] {
      PlaceAllKeeps(t, allocs[..|allocs| - 1]);
      hide AlignAddress, Wrap, SizeOf, AlignmentOf, Elements;
    }
  }

  lemma {:induction false} RunKeepsMemories(t: Levels, programs: seq<seq<Allocation>>, globals: set<Resource>)
    requires ArePrograms(programs)
    ensures KeepsMemories(t, RunAll(t, programs, globals).0)
    decreases |programs|
  {
    if programs != [] {
      var n := |programs| - 1;
      RunKeepsMemories(t, programs[..n], globals);
      RestartedStartsOver(RunAll(t, programs[..n], globals).0, OwnMemories(programs[n], globals));
      PlaceAllKeeps(StateFor(t, programs, globals, n), programs[n]);
    }
  }

  /** Everything behind the reserved parts is free. */
  predicate IsUnused(t: Levels) {
    t.next == t.reserved
  }

  /** A program finds its own memories as they were before any program ran. */
  lemma FindsOwnUnused(t: Levels, programs: seq<seq<Allocation>>, globals: set<Resource>, i: nat, m: Resource)
    requires ArePrograms(programs) && i < |programs| && IsUnused(t) && m in OwnMemories(programs[i], globals)
    ensures AlikeFor(StateFor(t, programs, globals, i), t, m)
  {
    RunKeepsMemories(t, programs[..i], globals);
    RestartedStartsOver(RunAll(t, programs[..i], globals).0, OwnMemories(programs[i], globals));
    hide RunAll;
  }

  /** An allocation in local memory has the address it would have if its program ran alone. */
  lemma LocalIsAlone(t: Levels, programs: seq<seq<Allocation>>, globals: set<Resource>, i: nat, j: nat)
    requires ArePrograms(programs) && IsUnused(t) && i < |programs| && j < |programs[i]|
             && programs[i][j].space !in globals
    ensures ArePrograms([programs[i]])
    ensures RunAll(t, programs, globals).1[i][j] == PlaceAll(t, programs[i]).1[j]
    ensures RunAll(t, programs, globals).1[i][j] == RunAll(t, [programs[i]], globals).1[0][j]
  {
    var m := programs[i][j].space;
    var alone := [programs[i]];
    assert programs[i][j] in programs[i];
    assert m in OwnMemories(programs[i], globals);
    FindsOwnUnused(t, programs, globals, i, m);
    FindsOwnUnused(t, alone, globals, 0, m);
    ProgramIsPlaced(t, programs, globals, i);
    ProgramIsPlaced(t, alone, globals, 0);
    hide PlaceAll, RunAll, StateFor, OwnMemories;
    PlaceAllDepends(StateFor(t, programs, globals, i), t, programs[i], m);
    PlaceAllDepends(StateFor(t, alone, globals, 0), t, programs[i], m);
  }

  /** The allocations of all programs, one program after the other. */
  function InARow(programs: seq<seq<Allocation>>): (r: seq<Allocation>)
    requires ArePrograms(programs)
    ensures AreAllocations(r)
    decreases |programs|
  {
    if programs == [] then [] else InARow(programs[..|programs| - 1]) + programs[|programs| - 1]
  }

  lemma {:induction false} PlaceAllInTwo(t: Levels, a: seq<Allocation>, b: seq<Allocation>)
    requires AreAllocations(a) && AreAllocations(b)
    ensures var (half, at) := PlaceAll(t, a);
            var (after, at') := PlaceAll(half, b);
            PlaceAll(t, a + b) == (after, at + at')
    decreases |b|
  {
    if b == [] {
      assert a + b == a && PlaceAll(t, a).1 + [] == PlaceAll(t, a).1;
    } else {
      var n := |b| - 1;
      PlaceAllInTwo(t, a, b[..n]);
      assert (a + b)[..|a| + n] == a + b[..n] && (a + b)[|a| + n] == b[n];
      hide Place;
      var (half, at) := PlaceAll(t, a);
      var (before, at') := PlaceAll(half, b[..n]);
      var (after, last) := Place(before, b[n]);
      assert PlaceAll(half, b) == (after, at' + [last]);
      assert PlaceAll(t, a + b) == (after, (at + at') + [last]);
      assert (at + at') + [last] == at + (at' + [last]);
    }
  }

  /** Global memory is filled as if all programs were one. */
  lemma {:induction false} GlobalsAreFilled(t: Levels, programs: seq<seq<Allocation>>, globals: set<Resource>,
                                            m: Resource)
    requires ArePrograms(programs) && m in globals
    ensures AlikeFor(RunAll(t, programs, globals).0, PlaceAll(t, InARow(programs)).0, m)
    decreases |programs|
  {
    if programs != [] {
      var n := |programs| - 1;
      GlobalsAreFilled(t, programs[..n], globals, m);
      var before := RunAll(t, programs[..n], globals).0;
      RestartedStartsOver(before, OwnMemories(programs[n], globals));
      RestartKeepsGlobals(before, programs[n], globals, m);
      PlaceAllDepends(StateFor(t, programs, globals, n), PlaceAll(t, InARow(programs[..n])).0, programs[n], m);
      PlaceAllInTwo(t, InARow(programs[..n]), programs[n]);
      hide PlaceAll, Restarted;
    }
  }

  /** An allocation in global memory has the address it would have if its program and all those
      before it were one. */
  lemma GlobalIsShared(t: Levels, programs: seq<seq<Allocation>>, globals: set<Resource>, i: nat, j: nat)
    requires ArePrograms(programs) && i < |programs| && j < |programs[i]| && programs[i][j].space in globals
    ensures var before := InARow(programs[..i]);
            AreAllocations(before + programs[i])
            && RunAll(t, programs, globals).1[i][j] == PlaceAll(t, before + programs[i]).1[|before| + j]
  {
    var m := programs[i][j].space;
    var before := InARow(programs[..i]);
    GlobalsAreFilled(t, programs[..i], globals, m);
    RestartKeepsGlobals(RunAll(t, programs[..i], globals).0, programs[i], globals, m);
    ProgramIsPlaced(t, programs, globals, i);
    hide PlaceAll, RunAll, InARow;
    PlaceAllDepends(StateFor(t, programs, globals, i), PlaceAll(t, before).0, programs[i], m);
    PlaceAllInTwo(t, before, programs[i]);
  }

  /** One address, or none, for each allocation. */
  predicate AreAddresses(programs: seq<seq<Allocation>>, at: seq<seq<Option<nat>>>) {
    |at| == |programs| && forall i :: 0 <= i < |at| ==> |at[i]| == |programs[i]|
  }

  /** What an address depends on: in local memory nothing outside its program, in global memory
      nothing in the programs behind it. */
  ghost predicate ArePlacedApart(t: Levels, programs: seq<seq<Allocation>>, globals: set<Resource>,
                                 at: seq<seq<Option<nat>>>)
    requires ArePrograms(programs) && AreAddresses(programs, at)
  {
    forall i, j :: 0 <= i < |programs| && 0 <= j < |programs[i]| ==>
      at[i][j] == if programs[i][j].space in globals
        then PlaceAll(t, InARow(programs[..i]) + programs[i]).1[|InARow(programs[..i])| + j]
        else PlaceAll(t, programs[i]).1[j]
  }

  lemma RunsArePlacedApart(t: Levels, programs: seq<seq<Allocation>>, globals: set<Resource>)
    requires ArePrograms(programs) && IsUnused(t)
    ensures ArePlacedApart(t, programs, globals, RunAll(t, programs, globals).1)
  {
    forall i, j | 0 <= i < |programs| && 0 <= j < |programs[i]|
      ensures RunAll(t, programs, globals).1[i][j] == if programs[i][j].space in globals
        then PlaceAll(t, InARow(programs[..i]) + programs[i]).1[|InARow(programs[..i])| + j]
        else PlaceAll(t, programs[i]).1[j]
    {
      if programs[i][j].space in globals {
        GlobalIsShared(t, programs, globals, i, j);
      } else {
        LocalIsAlone(t, programs, globals, i, j);
      }
    }
  }

  // ----- When nothing overruns

  function Top(t: Levels, r: Resource): nat
    requires r in t.capacities
  {
    if r in t.reserved && t.reserved[r] > t.capacities[r] then t.reserved[r] else t.capacities[r]
  }

  /** Behind the memory there is room for the allocation before addresses end. */
  predicate HasRoom(t: Levels, a: Allocation)
    requires IsAllocation(a)
  {
    SizeOf(a).Some? && a.space in t.capacities ==> Top(t, a.space) + AlignmentOf(a) + SizeOf(a).value <= WORD
  }

  predicate IsBelowTop(t: Levels) {
    forall r :: r in t.capacities ==> NextOf(t, r) <= Top(t, r)
  }

  /** A new tracker has what the results above ask for. */
  lemma TrackerStarts(nodes: seq<MemoryNode>)
    ensures var t := Tracked(nodes);
            IsAboveReserved(t) && IsBelowTop(t) && t.capacities.Keys <= t.reserved.Keys <= t.next.Keys
  {
    TrackedIs(nodes);
  }

  lemma NoOverrun(t: Levels, a: Allocation)
    requires IsAllocation(a) && HasRoom(t, a) && IsBelowTop(t)
    ensures !Overruns(t, a) && IsBelowTop(Place(t, a).0)
    ensures var s := Place(t, a).0; s.capacities == t.capacities && s.reserved == t.reserved
  {
    if SizeOf(a).Some? {
      AlignmentIsMultiple(a);
      hide AlignAddress, Wrap, SizeOf, AlignmentOf, Elements;
    }
  }

  lemma {:induction false} NoneOverrun(t: Levels, allocs: seq<Allocation>)
    requires AreAllocations(allocs) && IsBelowTop(t) && forall k :: 0 <= k < |allocs| ==> HasRoom(t, allocs[k])
    ensures NoneOverruns(t, allocs) && IsBelowTop(PlaceAll(t, allocs).0)
    ensures var s := PlaceAll(t, allocs).0; s.capacities == t.capacities && s.reserved == t.reserved
    decreases |allocs|
  {
    if allocs != [] {
      var n := |allocs| - 1;
      NoneOverrun(t, allocs[..n]);
      var s := PlaceAll(t, allocs[..n]).0;
      assert HasRoom(t, allocs[n]) && HasRoom(s, allocs[n]);
      NoOverrun(s, allocs[n]);
      hide Place, Overruns, HasRoom;
    }
  }

  /** If there is room behind every memory, no allocation of any program overruns. */
  lemma {:induction false} RoomIsEnough(t: Levels, programs: seq<seq<Allocation>>, globals: set<Resource>)
    requires ArePrograms(programs) && IsBelowTop(t)
    requires forall i, k :: 0 <= i < |programs| && 0 <= k < |programs[i]| ==> HasRoom(t, programs[i][k])
    ensures NoneOverrunsIn(t, programs, globals) && IsBelowTop(RunAll(t, programs, globals).0)
    ensures var s := RunAll(t, programs, globals).0; s.capacities == t.capacities && s.reserved == t.reserved
    decreases |programs|
  {
    if programs != [] {
      var n := |programs| - 1;
      RoomIsEnough(t, programs[..n], globals);
      var s := StateFor(t, programs, globals, n);
      assert IsBelowTop(s);
      assert forall k :: 0 <= k < |programs[n]| ==> HasRoom(t, programs[n][k]);
      forall k | 0 <= k < |programs[n]| ensures HasRoom(s, programs[n][k]) {
        assert HasRoom(t, programs[n][k]);
      }
      NoneOverrun(s, programs[n]);
      hide HasRoom, NoneOverruns, PlaceAll;
    }
  }

  lemma AlignmentIsMultiple(a: Allocation)
    requires a.elementBytes.Some? && a.elementBytes.value > 0
    ensures AlignmentOf(a) > 0 && AlignmentOf(a) % a.elementBytes.value == 0
    ensures a.alignment.Some? && a.alignment.value > 0 ==> AlignmentOf(a) % a.alignment.value == 0
  {
    LcmIsMultiple(if a.alignment.Some? && a.alignment.value > 0 then a.alignment.value else 1, a.elementBytes.value);
  }

  // ----- The pass

  /** The allocations without an address, by program and place. */
  ghost function Missing(at: seq<seq<Option<nat>>>): set<(nat, nat)> {
    set i: nat, j: nat | i < |at| && j < |at[i]| && at[i][j].None? :: (i, j)
  }

  function Failures(at: seq<Option<nat>>): nat {
    if at == [] then 0 else Failures(at[..|at| - 1]) + if at[|at| - 1].None? then 1 else 0
  }

  /** Gives one allocation an address in elements. */
  method ProcessAllocation(tracker: Tracker, a: Allocation) returns (at: Option<nat>)
    requires IsAllocation(a)
    modifies tracker
    ensures (tracker.State(), at) == Place(old(tracker.State()), a)
  {
    var size := GetSize(a);
    if size.None? {
      return None;
    }
    var start := tracker.Allocate(a.space, size.value, AlignmentOf(a));
    return if start.None? then None else Some(Elements(start.value, a.elementBytes.value));
  }

  method PlaceProgram(tracker: Tracker, allocs: seq<Allocation>) returns (at: seq<Option<nat>>, failed: nat)
    requires AreAllocations(allocs)
    modifies tracker
    ensures (tracker.State(), at) == PlaceAll(old(tracker.State()), allocs) && failed == Failures(at)
  {
    at, failed := [], 0;
    hide Place;
    for k := 0 to |allocs|
      invariant (tracker.State(), at) == PlaceAll(old(tracker.State()), allocs[..k]) && failed == Failures(at)
    {
      assert allocs[..k + 1][..k] == allocs[..k];
      var one := ProcessAllocation(tracker, allocs[k]);
      if one.None? {
        failed := failed + 1;
      }
      assert (at + [one])[..|at|] == at;
      at := at + [one];
    }
    assert allocs[..|allocs|] == allocs;
  }

  method CollectReusable(allocs: seq<Allocation>, globals: set<Resource>) returns (reusable: seq<Resource>)
    ensures Members(reusable) == OwnMemories(allocs, globals)
  {
    reusable := [];
    for k := 0 to |allocs|
      invariant Members(reusable) == OwnMemories(allocs[..k], globals)
    {
      assert allocs[..k + 1] == allocs[..k] + [allocs[k]];
      OneMoreMemory(allocs[..k], allocs[k], globals);
      var space := allocs[k].space;
      if space !in globals && space !in reusable {
        reusable := reusable + [space];
      }
    }
    assert allocs[..|allocs|] == allocs;
  }

  lemma OneMoreMemory(allocs: seq<Allocation>, a: Allocation, globals: set<Resource>)
    ensures OwnMemories(allocs + [a], globals) == OwnMemories(allocs, globals) + if a.space in globals then {}
            else {a.space}
  {
    forall r | r in OwnMemories(allocs, globals) || (a.space !in globals && r == a.space)
      ensures r in OwnMemories(allocs + [a], globals)
    {
      if r in OwnMemories(allocs, globals) {
        var b :| b in allocs && b.space !in globals && b.space == r;
        assert b in allocs + [a];
      } else {
        assert a in allocs + [a];
      }
    }
  }

  lemma RunStep(t: Levels, programs: seq<seq<Allocation>>, globals: set<Resource>, i: nat)
    requires ArePrograms(programs) && i < |programs|
    ensures var (before, at) := RunAll(t, programs[..i], globals);
            var (after, last) := PlaceAll(Restarted(before, OwnMemories(programs[i], globals)), programs[i]);
            RunAll(t, programs[..i + 1], globals) == (after, at + [last])
  {
    assert programs[..i + 1][..i] == programs[..i];
  }

  method RunProgram(tracker: Tracker, allocs: seq<Allocation>, globals: set<Resource>)
    returns (at: seq<Option<nat>>, failed: nat)
    requires AreAllocations(allocs)
    modifies tracker
    ensures (tracker.State(), at) == PlaceAll(Restarted(old(tracker.State()), OwnMemories(allocs, globals)), allocs)
            && failed == Failures(at)
  {
    hide *;
    var reusable := CollectReusable(allocs, globals);
    tracker.Reset(reusable);
    at, failed := PlaceProgram(tracker, allocs);
  }

  /** Goes through the programs; each starts over in the local memories it uses. */
  method AssignAddresses(tracker: Tracker, programs: seq<seq<Allocation>>, globals: set<Resource>)
    returns (at: seq<seq<Option<nat>>>, failed: nat)
    requires ArePrograms(programs)
    modifies tracker
    ensures (tracker.State(), at) == RunAll(old(tracker.State()), programs, globals)
    ensures failed == |Missing(at)|
  {
    at, failed := [], 0;
    assert programs[..0] == [] && (tracker.State(), at) == RunAll(tracker.State(), [], globals);
    hide PlaceAll, RunAll, Restarted, OwnMemories, Failures;
    for i := 0 to |programs|
      invariant (tracker.State(), at) == RunAll(old(tracker.State()), programs[..i], globals)
      invariant failed == |Missing(at)|
    {
      RunStep(old(tracker.State()), programs, globals, i);
      var here, failedHere := RunProgram(tracker, programs[i], globals);
      MissingGrows(at, here);
      at, failed := at + [here], failed + failedHere;
    }
    assert programs[..|programs|] == programs;
  }

  /** One more program adds its failures. */
  lemma {:induction false} MissingGrows(at: seq<seq<Option<nat>>>, here: seq<Option<nat>>)
    ensures |Missing(at + [here])| == |Missing(at)| + Failures(here)
    decreases |here|
  {
    var n := |at|;
    if here == [] {
      assert Missing(at + [here]) == Missing(at);
    } else {
      var k := |here| - 1;
      MissingGrows(at, here[..k]);
      var more := if here[k].None? then {(n, k)} else {};
      assert Missing(at + [here]) == Missing(at + [here[..k]]) + more;
    }
  }

  // ----- From the device to the addresses

  /** All allocations have room behind their memories, and their elements can be counted. */
  predicate RoomForAll(t: Levels, programs: seq<seq<Allocation>>)
    requires ArePrograms(programs)
  {
    forall i, k :: 0 <= i < |programs| && 0 <= k < |programs[i]| ==>
      && HasRoom(t, programs[i][k])
      && (SizeOf(programs[i][k]).Some? ==> UpperOffset(programs[i][k].layout.value).value + 1 < WORD)
  }

  predicate HasAddress(programs: seq<seq<Allocation>>, at: seq<seq<Option<nat>>>, i: nat, j: nat)
    requires ArePrograms(programs) && AreAddresses(programs, at)
  {
    i < |programs| && j < |programs[i]| && at[i][j].Some?
  }

  /** Element x of the one allocation ends before element y of the other begins. */
  predicate EndsBefore(a: Allocation, p: nat, x: seq<int>, b: Allocation, q: nat, y: seq<int>)
    requires IsAllocation(a) && IsAllocation(b) && IsElement(a, x) && IsElement(b, y)
  {
    a.elementBytes.Some? && b.elementBytes.Some? && ByteOf(a, p, x) + a.elementBytes.value <= ByteOf(b, q, y)
  }

  /** Allocations that live at the same time have no byte in common. */
  ghost predicate NoneShare(programs: seq<seq<Allocation>>, globals: set<Resource>, at: seq<seq<Option<nat>>>)
    requires ArePrograms(programs) && AreAddresses(programs, at)
  {
    forall i: nat, j: nat, i': nat, j': nat :: HasAddress(programs, at, i, j) && HasAddress(programs, at, i', j') ==>
      programs[i][j].space == programs[i'][j'].space ==>
      (if i == i' then j < j' else i < i' && programs[i][j].space in globals) ==>
      forall x, y :: IsElement(programs[i][j], x) && IsElement(programs[i'][j'], y) ==>
        EndsBefore(programs[i][j], at[i][j].value, x, programs[i'][j'], at[i'][j'].value, y)
  }

  /** The element's bytes are in its memory, behind the reserved part. */
  predicate IsWithin(t: Levels, a: Allocation, p: nat, x: seq<int>)
    requires IsAllocation(a) && IsElement(a, x)
  {
    && a.space in t.capacities && a.space in t.reserved && a.elementBytes.Some?
    && t.reserved[a.space] <= ByteOf(a, p, x) && ByteOf(a, p, x) + a.elementBytes.value <= t.capacities[a.space]
  }

  ghost predicate AllWithin(t: Levels, programs: seq<seq<Allocation>>, at: seq<seq<Option<nat>>>)
    requires ArePrograms(programs) && AreAddresses(programs, at)
  {
    forall i: nat, j: nat :: HasAddress(programs, at, i, j) ==>
      forall x :: IsElement(programs[i][j], x) ==> IsWithin(t, programs[i][j], at[i][j].value, x)
  }

  lemma {:induction false} PlacedHasSize(t: Levels, allocs: seq<Allocation>, k: nat)
    requires AreAllocations(allocs) && k < |allocs| && PlaceAll(t, allocs).1[k].Some?
    ensures SizeOf(allocs[k]).Some?
    decreases |allocs|
  {
    var n := |allocs| - 1;
    if k < n {
      PlacedHasSize(t, allocs[..n], k);
    }
  }

  lemma AddressIsPlaced(t: Levels, programs: seq<seq<Allocation>>, globals: set<Resource>, i: nat, j: nat)
    requires ArePrograms(programs) && RoomForAll(t, programs)
    requires AreAddresses(programs, RunAll(t, programs, globals).1)
             && HasAddress(programs, RunAll(t, programs, globals).1, i, j)
    ensures IsPlaced(t, programs, globals, i, j)
            && AddressOf(t, programs, globals, i, j) == RunAll(t, programs, globals).1[i][j].value
  {
    ProgramIsPlaced(t, programs, globals, i);
    PlacedHasSize(StateFor(t, programs, globals, i), programs[i], j);
    hide RunAll, HasRoom, SizeOf, UpperOffset, PlaceAll;
  }

  lemma SizeNeedsElementBytes(a: Allocation)
    requires IsAllocation(a) && SizeOf(a).Some?
    ensures a.elementBytes.Some?
  {
  }

  /** If there is room behind the memories of a device, the addresses that programs get on it keep
      all elements within their memories and apart. */
  lemma AddressesAreSound(nodes: seq<MemoryNode>, programs: seq<seq<Allocation>>, globals: set<Resource>)
    requires ArePrograms(programs) && RoomForAll(Tracked(nodes), programs)
    ensures var at := RunAll(Tracked(nodes), programs, globals).1;
            AreAddresses(programs, at) && NoneShare(programs, globals, at) && AllWithin(Tracked(nodes), programs, at)
  {
    var t := Tracked(nodes);
    var at := RunAll(t, programs, globals).1;
    TrackerStarts(nodes);
    RoomIsEnough(t, programs, globals);
    hide RunAll, HasRoom, SizeOf, UpperOffset, Tracked, ByteOf, NoneOverrunsIn, AddressOf;
    forall i: nat, j: nat, i': nat, j': nat, x, y | HasAddress(programs, at, i, j) && HasAddress(programs, at, i', j')
                                && programs[i][j].space == programs[i'][j'].space
                                && (if i == i' then j < j' else i < i' && programs[i][j].space in globals)
                                && IsElement(programs[i][j], x) && IsElement(programs[i'][j'], y)
      ensures EndsBefore(programs[i][j], at[i][j].value, x, programs[i'][j'], at[i'][j'].value, y)
    {
      AddressIsPlaced(t, programs, globals, i, j);
      AddressIsPlaced(t, programs, globals, i', j');
      SizeNeedsElementBytes(programs[i][j]);
      SizeNeedsElementBytes(programs[i'][j']);
      NoSharedByte(t, programs, globals, i, j, i', j', x, y);
    }
    forall i: nat, j: nat, x | HasAddress(programs, at, i, j) && IsElement(programs[i][j], x)
      ensures IsWithin(t, programs[i][j], at[i][j].value, x)
    {
      AddressIsPlaced(t, programs, globals, i, j);
      SizeNeedsElementBytes(programs[i][j]);
      ElementsAreInside(t, programs, globals, i, j, x);
    }
  }

  /** The whole pass: a new tracker for the device, and all programs after one another. */
  method RunOnDevice(nodes: seq<MemoryNode>, programs: seq<seq<Allocation>>, globals: set<Resource>)
    returns (at: seq<seq<Option<nat>>>, failed: nat)
    requires ArePrograms(programs)
    ensures AreAddresses(programs, at)
    ensures failed == |Missing(at)|
    ensures ArePlacedApart(Tracked(nodes), programs, globals, at)
    ensures RoomForAll(Tracked(nodes), programs) ==>
              NoneShare(programs, globals, at) && AllWithin(Tracked(nodes), programs, at)
  {
    var tracker := new Tracker(nodes);
    ghost var t := tracker.State();
    at, failed := AssignAddresses(tracker, programs, globals);
    TrackedIs(nodes);
    assert IsUnused(t);
    RunsArePlacedApart(t, programs, globals);
    hide *;
    if RoomForAll(t, programs) {
      AddressesAreSound(nodes, programs, globals);
    }
  }
}
