/** A FIFO between a block that writes its slots over and over and one that reads them. */
module FifoChannel {
  /** The value put into a slot in an iteration of the writing block. */
  datatype Item = Item(slot: nat, iteration: nat)

  /** How many values were pushed, those on their way, and those the reads got, in order. */
  datatype Channel = Channel(pushed: nat, queue: seq<Item>, got: seq<Item>)

  /** Write or read number j of blocks that take the slots in this order. */
  function ItemAt(slots: seq<nat>, j: nat): Item
    requires slots != []
  {
    Quotients(j, |slots|);
    Item(slots[j % |slots|], j / |slots|)
  }

  lemma Quotients(j: nat, m: nat)
    requires m > 0
    ensures j / m >= 0
    ensures j < m ==> j / m == 0 && j % m == j
  {
  }

  predicate Push(c: Channel, after: Channel, writes: seq<nat>, capacity: nat)
    requires writes != []
  {
    |c.queue| < capacity && after == Channel(c.pushed + 1, c.queue + [ItemAt(writes, c.pushed)], c.got)
  }

  predicate Pop(c: Channel, after: Channel) {
    c.queue != [] && after == Channel(c.pushed, c.queue[1..], c.got + [c.queue[0]])
  }

  /** The blocks run side by side, for any time: the next thing is a write or a read. */
  predicate IsRun(trace: seq<Channel>, writes: seq<nat>, capacity: nat)
    requires writes != []
  {
    && trace != [] && trace[0] == Channel(0, [], [])
    && forall i :: 0 < i < |trace| ==> Push(trace[i - 1], trace[i], writes, capacity) || Pop(trace[i - 1], trace[i])
  }

  /** The values on their way are the ones written after those that were read. */
  predicate IsInOrder(c: Channel, writes: seq<nat>)
    requires writes != []
  {
    && |c.got| + |c.queue| == c.pushed
    && (forall j :: 0 <= j < |c.got| ==> c.got[j] == ItemAt(writes, j))
    && forall j :: 0 <= j < |c.queue| ==> c.queue[j] == ItemAt(writes, |c.got| + j)
  }

  lemma {:induction false} RunIsInOrder(trace: seq<Channel>, writes: seq<nat>, capacity: nat, i: nat)
    requires writes != [] && IsRun(trace, writes, capacity) && i < |trace|
    ensures IsInOrder(trace[i], writes)
  {
    if i > 0 {
      RunIsInOrder(trace, writes, capacity, i - 1);
      hide ItemAt;
      assert Push(trace[i - 1], trace[i], writes, capacity) || Pop(trace[i - 1], trace[i]);
    }
  }

  /** Every read so far got what the write of its own slot pushed in the same iteration. */
  predicate InStep(got: seq<Item>, taken: seq<nat>)
    requires taken != []
  {
    forall j :: 0 <= j < |got| ==> got[j] == ItemAt(taken, j)
  }

  /** Rounds of one write and one read. */
  function Alternating(writes: seq<nat>, rounds: nat): (trace: seq<Channel>)
    requires writes != []
    ensures trace != []
  {
    if rounds == 0 then [Channel(0, [], [])]
    else
      var before := Alternating(writes, rounds - 1);
      var got := before[|before| - 1].got;
      before + [Channel(rounds, [ItemAt(writes, rounds - 1)], got),
                Channel(rounds, [], got + [ItemAt(writes, rounds - 1)])]
  }

  lemma {:induction false} AlternatingIsRun(writes: seq<nat>, rounds: nat, capacity: nat)
    requires writes != [] && capacity > 0
    ensures var trace := Alternating(writes, rounds);
            && IsRun(trace, writes, capacity)
            && trace[|trace| - 1].pushed == rounds && trace[|trace| - 1].queue == []
               && |trace[|trace| - 1].got| == rounds
            && forall j :: 0 <= j < rounds ==> trace[|trace| - 1].got[j] == ItemAt(writes, j)
  {
    if rounds > 0 {
      AlternatingIsRun(writes, rounds - 1, capacity);
      var before, trace := Alternating(writes, rounds - 1), Alternating(writes, rounds);
      hide ItemAt, Alternating;
      var n := |before|;
      assert trace[n - 1] == before[n - 1];
      assert Push(trace[n - 1], trace[n], writes, capacity) by {
        assert [] + [ItemAt(writes, rounds - 1)] == [ItemAt(writes, rounds - 1)];
      }
      assert Pop(trace[n], trace[n + 1]);
      forall i | 0 < i < |trace| ensures Push(trace[i - 1], trace[i], writes, capacity) || Pop(trace[i - 1], trace[i]) {
        if i < n {
          assert trace[i] == before[i] && trace[i - 1] == before[i - 1];
        }
      }
    }
  }

  /** In every run every read gets what its own slot's write pushed in the same iteration. */
  ghost predicate AlwaysInStep(writes: seq<nat>, taken: seq<nat>, capacity: nat)
    requires writes != [] && taken != []
  {
    forall trace: seq<Channel>, i :: IsRun(trace, writes, capacity) && 0 <= i < |trace| ==> InStep(trace[i].got, taken)
  }

  /** Which is so, whatever the capacity, exactly if the slots are read in the order they are
      written in. */
  lemma InStepIffSameOrder(writes: seq<nat>, taken: seq<nat>, capacity: nat)
    requires |writes| == |taken| > 0 && capacity > 0
    ensures AlwaysInStep(writes, taken, capacity) <==> writes == taken
  {
    forall trace: seq<Channel>, i | writes == taken && IsRun(trace, writes, capacity) && 0 <= i < |trace|
      ensures InStep(trace[i].got, taken)
    {
      RunIsInOrder(trace, writes, capacity, i);
    }
    if k :| 0 <= k < |writes| && writes[k] != taken[k] {
      var trace := Alternating(writes, k + 1);
      AlternatingIsRun(writes, k + 1, capacity);
      var last := trace[|trace| - 1];
      Quotients(k, |writes|);
      assert last.got[k] == ItemAt(writes, k) && ItemAt(writes, k) != ItemAt(taken, k);
      assert !InStep(last.got, taken);
    }
  }
}
