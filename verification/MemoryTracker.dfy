/** Handing out addresses in memories of limited capacity, upwards from a reserved part.
    Sizes and addresses are 64-bit words, which wrap around. */
module MemoryTracker {
  import opened Wrappers
  import opened Divisors

  const WORD: nat := 0x1_0000_0000_0000_0000

  type Word = n: nat | n < 0x1_0000_0000_0000_0000

  type Resource = nat

  /** A memory of the device; only one with a capacity is tracked. */
  datatype MemoryNode = MemoryNode(resource: Resource, capacity: Option<Word>, reserved: Option<Word>)

  /** What is known of every memory: its size, where the first address is, and the next one. */
  datatype Levels = Levels(capacities: map<Resource, Word>, reserved: map<Resource, Word>, next: map<Resource, Word>)

  function Wrap(n: nat): Word {
    n % WORD
  }

  /** The next multiple of the alignment, as a number without a limit. */
  function AlignUp(address: nat, alignment: nat): (r: nat)
    ensures r >= address && (alignment > 0 ==> r < address + alignment)
  {
    if alignment <= 1 || address % alignment == 0 then address else address + (alignment - address % alignment)
  }

  function AlignAddress(address: Word, alignment: Word): Word {
    if alignment <= 1 then address
    else
      var remainder := address % alignment;
      if remainder == 0 then address else Wrap(address + (alignment - remainder))
  }

  /** The address is the least multiple that is large enough. */
  lemma AlignUpIsLeast(address: nat, alignment: nat, other: nat)
    requires alignment > 0
    ensures AlignUp(address, alignment) % alignment == 0
    ensures other >= address && other % alignment == 0 ==> other >= AlignUp(address, alignment)
  {
    var q, r := address / alignment, address % alignment;
    assert address == q * alignment + r;
    MultipleMod(q + 1, alignment);
    assert (q + 1) * alignment == address + (alignment - r);
    if other >= address && other % alignment == 0 && r > 0 {
      Quotient(other, alignment);
      if other / alignment <= q {
        Scaled(other / alignment, q, alignment);
      } else {
        Scaled(q + 1, other / alignment, alignment);
      }
    }
  }

  function NextOf(t: Levels, r: Resource): Word {
    if r in t.next then t.next[r] else 0
  }

  /** Where an allocation would end if words had no limit. */
  function EndOf(t: Levels, r: Resource, size: Word, alignment: Word): nat {
    AlignUp(NextOf(t, r), alignment) + size
  }

  /** A memory that was never heard of gets an entry before it is found to have no capacity. */
  function Allocated(t: Levels, r: Resource, size: Word, alignment: Word): (Levels, Option<Word>) {
    var start := AlignAddress(NextOf(t, r), alignment);
    var end := Wrap(start + size);
    if r !in t.capacities then (t.(next := t.next[r := NextOf(t, r)]), None)
    else if end > t.capacities[r] then (t.(next := t.next[r := NextOf(t, r)]), None)
    else (t.(next := t.next[r := end]), Some(start))
  }

  /** The bytes come after all earlier ones and are within the memory. */
  predicate IsInside(t: Levels, r: Resource, start: nat, size: nat) {
    r in t.capacities && NextOf(t, r) <= start && start + size <= t.capacities[r]
  }

  /** An allocation is accepted with bytes of its own inside the memory exactly if it fits and
      its end is a word: if the end wraps around, the bytes are not inside, accepted or not. */
  lemma AllocatedIsInside(t: Levels, r: Resource, size: Word, alignment: Word)
    ensures var (after, address) := Allocated(t, r, size, alignment);
            && (address.Some? && IsInside(t, r, address.value, size) <==>
                r in t.capacities && EndOf(t, r, size, alignment) <= t.capacities[r])
            && (address.Some? ==> (IsInside(t, r, address.value, size) <==> EndOf(t, r, size, alignment) < WORD))
            && (address.Some? && EndOf(t, r, size, alignment) < WORD ==>
                address.value == AlignUp(NextOf(t, r), alignment) && NextOf(after, r) == address.value + size)
  {
    StartOrWrap(NextOf(t, r), alignment);
    WrapOnce(AlignAddress(NextOf(t, r), alignment) + size);
    hide AlignUp, AlignAddress, Wrap;
  }

  lemma StartOrWrap(next: Word, alignment: Word)
    ensures var up := AlignUp(next, alignment);
            if up < WORD then AlignAddress(next, alignment) == up else AlignAddress(next, alignment) == up - WORD < next
  {
    WrapOnce(AlignUp(next, alignment));
  }

  lemma WrapOnce(n: nat)
    requires n < 2 * WORD
    ensures Wrap(n) == if n < WORD then n else n - WORD
  {
  }

  /** An allocation whose end wraps around is accepted: it starts inside a memory of 1024 bytes
      and goes on behind it, and what comes next starts in the reserved part. */
  lemma WrappedEndIsAccepted()
    ensures var t := Levels(map[0 := 1024], map[0 := 64], map[0 := 64]);
            var (after, address) := Allocated(t, 0, WORD - 32, 32);
            address == Some(64) && !IsInside(t, 0, 64, WORD - 32) && NextOf(after, 0) == 32
  {
  }

  /** The memories go back to their first address, those of them that are tracked. */
  function Restarted(t: Levels, memories: set<Resource>): Levels {
    t.(next := map r | r in t.next ::
         if r !in memories then t.next[r] else if r in t.reserved then t.reserved[r] else 0)
  }

  /** A memory that starts over has everything behind its reserved part free again; a memory without
      one starts at 0, and every other memory stays as it is. */
  predicate StartsOver(t: Levels, after: Levels, memories: set<Resource>) {
    && after.capacities == t.capacities && after.reserved == t.reserved && after.next.Keys == t.next.Keys
    && forall r: Resource :: r in t.next ==>
         NextOf(after, r) == if r !in memories then NextOf(t, r) else if r in t.reserved then t.reserved[r] else 0
  }

  lemma RestartedStartsOver(t: Levels, memories: set<Resource>)
    ensures StartsOver(t, Restarted(t, memories), memories)
  {
    assert forall r :: r in t.next <==> r in Restarted(t, memories).next;
  }

  function Members(memories: seq<Resource>): set<Resource> {
    set r | r in memories
  }

  function Tracked(nodes: seq<MemoryNode>): Levels {
    if nodes == [] then Levels(map[], map[], map[])
    else
      var t, node := Tracked(nodes[..|nodes| - 1]), nodes[|nodes| - 1];
      if node.capacity.None? then t
      else
        var reserved := if node.reserved.Some? then node.reserved.value else 0;
        Levels(t.capacities[node.resource :=
                              node.capacity.value], t.reserved[node.resource :=
                                                                 reserved], t.next[node.resource := reserved])
  }

  /** The node gives the memory its capacity and its reserved part. */
  predicate Describes(node: MemoryNode, t: Levels, r: Resource)
    requires r in t.capacities && r in t.reserved
  {
    && node.resource == r && node.capacity == Some(t.capacities[r])
    && t.reserved[r] == if node.reserved.Some? then node.reserved.value else 0
  }

  /** The last node with a capacity that carries the memory is the one that counts. */
  predicate LastDescribes(nodes: seq<MemoryNode>, i: nat, t: Levels, r: Resource)
    requires r in t.capacities && r in t.reserved
  {
    && i < |nodes| && Describes(nodes[i], t, r)
    && forall j :: i < j < |nodes| && nodes[j].resource == r ==> nodes[j].capacity.None?
  }

  /** The memories with a capacity are tracked, and at first everything behind the reserved part
      is free. */
  lemma {:induction false} TrackedIs(nodes: seq<MemoryNode>)
    ensures var t := Tracked(nodes);
            && t.capacities.Keys == t.reserved.Keys && t.next == t.reserved
            && (forall n :: n in nodes && n.capacity.Some? ==> n.resource in t.capacities)
            && forall r :: r in t.capacities ==> exists i: nat :: LastDescribes(nodes, i, t, r)
  {
    if nodes != [] {
      var init, last := nodes[..|nodes| - 1], nodes[|nodes| - 1];
      TrackedIs(init);
      assert nodes == init + [last];
      var before, t := Tracked(init), Tracked(nodes);
      forall r | r in t.capacities ensures exists i: nat :: LastDescribes(nodes, i, t, r) {
        if last.capacity.Some? && last.resource == r {
          assert LastDescribes(nodes, |init|, t, r);
        } else {
          var i: nat :| LastDescribes(init, i, before, r);
          assert LastDescribes(nodes, i, t, r);
        }
      }
    }
  }

  lemma UpdatedTwice<K, V>(m: map<K, V>, k: K, v: V, w: V)
    ensures m[k := v][k := w] == m[k := w]
  {
  }

  class Tracker {
    var capacities: map<Resource, Word>
    var reserved: map<Resource, Word>
    var nextAddress: map<Resource, Word>

    ghost function State(): Levels
      reads this
    {
      Levels(capacities, reserved, nextAddress)
    }

    constructor (nodes: seq<MemoryNode>)
      ensures State() == Tracked(nodes)
    {
      capacities, reserved, nextAddress := map[], map[], map[];
      new;
      for i := 0 to |nodes|
        invariant State() == Tracked(nodes[..i])
      {
        assert nodes[..i + 1][..i] == nodes[..i];
        var node := nodes[i];
        if node.capacity.Some? {
          var first := if node.reserved.Some? then node.reserved.value else 0;
          capacities := capacities[node.resource := node.capacity.value];
          reserved := reserved[node.resource := first];
          nextAddress := nextAddress[node.resource := first];
        }
      }
      assert nodes[..|nodes|] == nodes;
    }

    method Allocate(r: Resource, size: Word, alignment: Word) returns (address: Option<Word>)
      modifies this
      ensures (State(), address) == Allocated(old(State()), r, size, alignment)
    {
      if r !in nextAddress {
        nextAddress := nextAddress[r := 0];
      }
      var current := nextAddress[r];
      var aligned := AlignAddress(current, alignment);
      var newNext := Wrap(aligned + size);
      assert NextOf(old(State()), r) == current && nextAddress == old(nextAddress)[r := current];
      if r !in capacities {
        return None;
      }
      if newNext > capacities[r] {
        return None;
      }
      nextAddress := nextAddress[r := newNext];
      UpdatedTwice(old(nextAddress), r, current, newNext);
      return Some(aligned);
    }

    method Reset(memories: seq<Resource>)
      modifies this
      ensures State() == Restarted(old(State()), Members(memories))
      ensures StartsOver(old(State()), State(), Members(memories))
    {
      ghost var was := nextAddress;
      for i := 0 to |memories|
        invariant capacities == old(capacities) && reserved == old(reserved)
        invariant nextAddress == Restarted(old(State()), Members(memories[..i])).next
      {
        var r := memories[i];
        assert memories[..i + 1] == memories[..i] + [r];
        if r in nextAddress {
          nextAddress := nextAddress[r := if r in reserved then reserved[r] else 0];
        }
      }
      assert memories[..|memories|] == memories;
      RestartedStartsOver(old(State()), Members(memories));
    }
  }
}
