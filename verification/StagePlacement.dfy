/** Where the planner puts new stages in the order of a pipeline: in rows, right behind the stages
    that they are made for. */
module StagePlacement {
  import opened Digraph
  import opened StageOrder
  import opened Sequences

  /** The stages of s that are keys of m, in the order of s. */
  function Restrict(s: seq<StageId>, keep: set<StageId>): seq<StageId> {
    if s == [] then [] else (if s[0] in keep then [s[0]] else []) + Restrict(s[1..], keep)
  }

  lemma {:induction false} RestrictConcat(a: seq<StageId>, b: seq<StageId>, keep: set<StageId>)
    ensures Restrict(a + b, keep) == Restrict(a, keep) + Restrict(b, keep)
  {
    if a == [] {
      assert a + b == b;
    } else {
      RestrictConcat(a[1..], b, keep);
      var head := if a[0] in keep then [a[0]] else [];
      assert (a + b)[0] == a[0] && (a + b)[1..] == a[1..] + b;
      assert Restrict(a + b, keep) == head + (Restrict(a[1..], keep) + Restrict(b, keep));
    }
  }

  lemma {:induction false} RestrictAll(s: seq<StageId>, keep: set<StageId>)
    requires forall x :: x in s ==> x in keep
    ensures Restrict(s, keep) == s
  {
    if s != [] {
      RestrictAll(s[1..], keep);
    }
  }

  // ----- Inserting

  function InsertAfter(order: seq<StageId>, x: StageId, pos: StageId): seq<StageId>
    requires pos in order
  {
    var i := IndexOf(order, pos);
    order[..i + 1] + [x] + order[i + 1..]
  }

  lemma InsertedOnce(order: seq<StageId>, x: StageId, pos: StageId)
    requires pos in order && Distinct(order) && x !in order
    ensures Distinct(InsertAfter(order, x, pos))
    ensures Elems(InsertAfter(order, x, pos)) == Elems(order) + {x}
  {
    var i := IndexOf(order, pos);
    var longer := InsertAfter(order, x, pos);
    assert forall k :: 0 <= k < |longer| ==>
        longer[k] == if k <= i then order[k] else if k == i + 1 then x else order[k - 1];
    forall y | y in order ensures y in longer {
      var k := IndexOf(order, y);
      assert y == longer[if k <= i then k else k + 1];
    }
    assert longer[i + 1] == x;
  }

  lemma InsertedOutside(order: seq<StageId>, x: StageId, pos: StageId, keep: set<StageId>)
    requires pos in order && x !in keep
    ensures Restrict(InsertAfter(order, x, pos), keep) == Restrict(order, keep)
  {
    var i := IndexOf(order, pos);
    var front, back := order[..i + 1], order[i + 1..];
    assert order == front + back;
    RestrictConcat(front, back, keep);
    RestrictConcat(front + [x], back, keep);
    RestrictConcat(front, [x], keep);
  }

  /** The new stages in a row, right behind pos. */
  function InsertAll(order: seq<StageId>, news: seq<StageId>, pos: StageId): seq<StageId>
    requires pos in order
  {
    var i := IndexOf(order, pos);
    order[..i + 1] + news + order[i + 1..]
  }

  function LastOf(news: seq<StageId>, pos: StageId): StageId {
    if news == [] then pos else news[|news| - 1]
  }

  lemma {:induction false} IndexOfSplit(a: seq<StageId>, x: StageId, b: seq<StageId>)
    requires x !in a
    ensures x in (a + [x]) + b && IndexOf((a + [x]) + b, x) == |a|
  {
    var all := (a + [x]) + b;
    assert all[|a|] == x;
    if a != [] {
      assert all[1..] == (a[1..] + [x]) + b;
      IndexOfSplit(a[1..], x, b);
    }
  }

  /** One more behind the last of those in a row is one more in the row. */
  lemma InsertOneMore(order: seq<StageId>, news: seq<StageId>, pos: StageId, x: StageId)
    requires pos in order && Distinct(InsertAll(order, news, pos))
    ensures LastOf(news, pos) in InsertAll(order, news, pos)
    ensures InsertAfter(InsertAll(order, news, pos), x, LastOf(news, pos)) == InsertAll(order, news + [x], pos)
  {
    var i, all, last := IndexOf(order, pos), InsertAll(order, news, pos), LastOf(news, pos);
    var k := i + |news|;
    assert all[k] == last && k < |all|;
    DistinctIndex(all, k);
    assert all[..k + 1] == order[..i + 1] + news && all[k + 1..] == order[i + 1..];
  }

  lemma DistinctIndex(s: seq<StageId>, k: nat)
    requires Distinct(s) && k < |s|
    ensures s[k] in s && IndexOf(s, s[k]) == k
  {
    assert s == (s[..k] + [s[k]]) + s[k + 1..];
    IndexOfSplit(s[..k], s[k], s[k + 1..]);
  }

  /** Every stage of the order, with the ones added for it right behind. */
  function Blocks(order: seq<StageId>, added: map<StageId, seq<StageId>>): seq<StageId> {
    if order == [] then []
    else [order[0]] + AddedBehind(added, order[0]) + Blocks(order[1..], added)
  }

  function AddedBehind(added: map<StageId, seq<StageId>>, p: StageId): seq<StageId> {
    if p in added then added[p] else []
  }

  lemma {:induction false} BlocksConcat(a: seq<StageId>, b: seq<StageId>, added: map<StageId, seq<StageId>>)
    ensures Blocks(a + b, added) == Blocks(a, added) + Blocks(b, added)
  {
    if a == [] {
      assert a + b == b;
    } else {
      assert (a + b)[1..] == a[1..] + b;
      BlocksConcat(a[1..], b, added);
    }
  }

  lemma {:induction false} BlocksElsewhere(order: seq<StageId>, added: map<StageId, seq<StageId>>, p: StageId,
                                           more: seq<StageId>)
    requires p !in order
    ensures Blocks(order, added[p := more]) == Blocks(order, added)
  {
    if order != [] {
      BlocksElsewhere(order[1..], added, p, more);
    }
  }

  lemma {:induction false} NoBlocks(order: seq<StageId>)
    ensures Blocks(order, map[]) == order
  {
    if order != [] {
      NoBlocks(order[1..]);
    }
  }

  lemma BlocksAt(order: seq<StageId>, added: map<StageId, seq<StageId>>, k: nat)
    requires k < |order|
    ensures Blocks(order, added)
              == (Blocks(order[..k], added) + ([order[k]] + AddedBehind(added, order[k])))
                 + Blocks(order[k + 1..], added)
  {
    var a, p, b := order[..k], order[k], order[k + 1..];
    assert order == a + ([p] + b);
    BlocksConcat(a, [p] + b, added);
    assert ([p] + b)[1..] == b;
    hide Blocks;
    Reassociate(Blocks(a, added), [p] + AddedBehind(added, p), Blocks(b, added));
    assert Blocks([p] + b, added) == [p] + AddedBehind(added, p) + Blocks(b, added) by {
      FirstBlock(p, b, added);
    }
  }

  lemma FirstBlock(p: StageId, b: seq<StageId>, added: map<StageId, seq<StageId>>)
    ensures Blocks([p] + b, added) == [p] + AddedBehind(added, p) + Blocks(b, added)
  {
    assert ([p] + b)[1..] == b;
  }

  lemma InsertAtEnd(front: seq<StageId>, back: seq<StageId>, news: seq<StageId>)
    requires front != [] && Distinct(front + back)
    ensures var last := front[|front| - 1];
            last in front + back && InsertAll(front + back, news, last) == (front + news) + back
  {
    var all, k := front + back, |front| - 1;
    assert all[k] == front[k];
    DistinctIndex(all, k);
    assert all[..k + 1] == front && all[k + 1..] == back;
  }

  /** Inserting behind the last stage of a block makes the block longer. */
  lemma InsertInBlock(order: seq<StageId>, added: map<StageId, seq<StageId>>, p: StageId, news: seq<StageId>)
    requires p in order && Distinct(order) && Distinct(Blocks(order, added))
    ensures var last := LastOf(AddedBehind(added, p), p);
            last in Blocks(order, added)
            && InsertAll(Blocks(order, added), news, last)
               == Blocks(order, added[p := AddedBehind(added, p) + news])
  {
    var k, row := IndexOf(order, p), AddedBehind(added, p);
    var a, b, now := order[..k], order[k + 1..], added[p := row + news];
    assert p !in a && p !in b;
    BlocksAt(order, added, k);
    BlocksAt(order, now, k);
    BlocksElsewhere(a, added, p, row + news);
    BlocksElsewhere(b, added, p, row + news);
    var front := Blocks(a, added) + ([p] + row);
    assert front[|front| - 1] == LastOf(row, p);
    assert AddedBehind(now, p) == row + news;
    hide Blocks, InsertAll, IndexOf, Distinct;
    InsertAtEnd(front, Blocks(b, added), news);
    RowsJoin(Blocks(a, added), p, row, news);
  }

  lemma RowsJoin(a: seq<StageId>, p: StageId, row: seq<StageId>, news: seq<StageId>)
    ensures (a + ([p] + row)) + news == a + ([p] + (row + news))
  {
  }
}
