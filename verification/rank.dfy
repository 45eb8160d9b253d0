/** Ranks and range counts in a packed tree (btree.c:2086-2126, 1644-1685, 3308-3352). */
module Rank {
  import opened DataConfig
  import opened PackSpec

  /* ---- What a search for a target sees ---- */

  ghost function TuplesOf(children: seq<Child>): seq<Tuple> {
    Tuples(LeavesOf(children))
  }

  lemma TuplesOfLast(children: seq<Child>)
    requires children != []
    ensures TuplesOf(children) == TuplesOf(children[..|children| - 1]) + Tuples(Leaves(children[|children| - 1].tree))
  {
    var n := |children| - 1;
    LeavesOfConcat(children[..n], children[n]);
    assert children == children[..n] + [children[n]];
    TuplesConcat(LeavesOf(children[..n]), Leaves(children[n].tree));
  }

  lemma {:induction false} LeavesOfSplit(children: seq<Child>, i: nat)
    requires i <= |children|
    ensures LeavesOf(children) == LeavesOf(children[..i]) + LeavesOf(children[i..])
    decreases |children|
  {
    hide LeavesOf, Leaves;
    var n := |children| - 1;
    if i == |children| {
      NoLeaves();
      assert children[..i] == children && children[i..] == [];
    } else {
      LeavesOfSplit(children[..n], i);
      assert children[..n][..i] == children[..i];
      LeavesOfConcat(children[..n], children[n]);
      LeavesOfConcat(children[..n][i..], children[n]);
      assert children == children[..n] + [children[n]] && children[i..] == children[..n][i..] + [children[n]];
    }
  }

  lemma NoLeaves()
    ensures LeavesOf([]) == []
  {
  }

  /** The tuples left of child i, in it, and right of it. */
  lemma ThreeParts(children: seq<Child>, i: nat)
    requires i < |children|
    ensures TuplesOf(children)
      == TuplesOf(children[..i]) + Tuples(Leaves(children[i].tree)) + TuplesOf(children[i + 1..])
  {
    hide LeavesOf, Leaves, Tuples;
    LeavesOfSplit(children, i + 1);
    TuplesConcat(LeavesOf(children[..i + 1]), LeavesOf(children[i + 1..]));
    TuplesOfLast(children[..i + 1]);
    assert children[..i + 1][..i] == children[..i] && children[..i + 1][i] == children[i];
  }

  ghost predicate AllLess(s: seq<Tuple>, target: Target) {
    forall i | 0 <= i < |s| :: Less(s[i].key, target)
  }

  ghost predicate NoneLess(s: seq<Tuple>, target: Target) {
    forall i | 0 <= i < |s| :: !Less(s[i].key, target)
  }

  /** In sorted tuples a + b + c, what precedes b lies below its first key, what follows above its keys. */
  lemma PartsOrdered(a: seq<Tuple>, b: seq<Tuple>, c: seq<Tuple>)
    requires Increasing(a + b + c) && b != []
    ensures Increasing(b) && forall i | 0 <= i < |a| :: a[i].key < b[0].key
    ensures forall i, j | 0 <= i < |b| && 0 <= j < |c| :: b[i].key < c[j].key
    ensures Increasing(c)
  {
    var s := a + b + c;
    assert forall i | 0 <= i < |a| :: s[i] == a[i];
    assert forall i | 0 <= i < |b| :: s[|a| + i] == b[i];
    assert forall i | 0 <= i < |c| :: s[|a| + |b| + i] == c[i];
  }

  /** The child a search goes down to decides: all before it is smaller, nothing behind it is. */
  lemma OnlyChildMatters(children: seq<Child>, i: nat, h: nat, target: Target)
    requires h > 0 && Packed(Index(children), h) && Increasing(TuplesOf(children)) && i < |children|
    requires i > 0 ==> Less(children[i].pivot, target) || Same(children[i].pivot, target)
    requires i + 1 < |children| ==> !Less(children[i + 1].pivot, target)
    ensures Under(TuplesOf(children), target)
         == TuplesOf(children[..i]) + Under(Tuples(Leaves(children[i].tree)), target)
    ensures Increasing(Tuples(Leaves(children[i].tree)))
  {
    hide LeavesOf, Leaves, Tuples, Totals;
    var a, b, c := TuplesOf(children[..i]), Tuples(Leaves(children[i].tree)), TuplesOf(children[i + 1..]);
    ThreeParts(children, i);
    assert ChildOk(children[i]);
    PartsOrdered(a, b, c);
    NoneLeft();
    assert AllLess(a, target) by {
      if i == 0 {
        assert children[..0] == [];
      }
    }
    AllUnder(a, target);
    if i + 1 < |children| {
      FirstOf(children[i + 1..]);
      assert children[i + 1..][0] == children[i + 1];
      assert ChildOk(children[i + 1]);
      assert NoneLess(c, target);
    } else {
      assert children[i + 1..] == [];
    }
    AllUnder(c, target);
    UnderConcat(a + b, c, target);
    UnderConcat(a, b, target);
  }

  lemma NoneLeft()
    ensures TuplesOf([]) == []
  {
  }

  lemma FirstOf(children: seq<Child>)
    requires children != [] && ChildOk(children[0])
    ensures TuplesOf(children) != [] && TuplesOf(children)[0].key == children[0].pivot
  {
    hide LeavesOf, Leaves, Tuples, Totals;
    ThreeParts(children, 0);
    NoneLeft();
    assert children[..0] == [];
    assert [] + Tuples(Leaves(children[0].tree)) == Tuples(Leaves(children[0].tree));
  }

  /** Pivots increase with the tuples. */
  lemma PivotsIncrease(children: seq<Child>, h: nat, i: nat, j: nat)
    requires h > 0 && Packed(Index(children), h) && Increasing(TuplesOf(children)) && i < j < |children|
    ensures children[i].pivot < children[j].pivot
  {
    hide LeavesOf, Leaves, Tuples, Totals;
    ThreeParts(children, i);
    var a, b, c := TuplesOf(children[..i]), Tuples(Leaves(children[i].tree)), TuplesOf(children[i + 1..]);
    assert ChildOk(children[i]) && ChildOk(children[j]);
    PartsOrdered(a, b, c);
    ThreeParts(children[i + 1..], j - i - 1);
    assert children[i + 1..][j - i - 1] == children[j];
    var d := TuplesOf(children[i + 1..][..j - i - 1]);
    assert c[|d|] == Tuples(Leaves(children[j].tree))[0];
  }

  /* ---- The methods ---- */

  /** `btree_lookup_node`'s choice of a child. */
  method ChildFor(children: seq<Child>, ghost h: nat, target: Target) returns (i: nat)
    requires h > 0 && Packed(Index(children), h) && Increasing(TuplesOf(children))
    ensures i < |children|
    ensures i > 0 ==> Less(children[i].pivot, target) || Same(children[i].pivot, target)
    ensures i + 1 < |children| ==> !Less(children[i + 1].pivot, target)
  {
    hide TuplesOf, ChildOk;
    if target.PositiveInfinity? {
      return |children| - 1;
    }
    var lo, hi := 0, |children|;
    while lo < hi
      invariant 0 <= lo <= hi <= |children|
      invariant lo > 0 ==> Less(children[lo - 1].pivot, target)
      invariant hi < |children| ==> !Less(children[hi].pivot, target)
    {
      var mid := (lo + hi) / 2;
      if Same(children[mid].pivot, target) {
        if mid + 1 < |children| {
          PivotsIncrease(children, h, mid, mid + 1);
        }
        return mid;
      } else if Less(children[mid].pivot, target) {
        lo := mid + 1;
      } else {
        hi := mid;
      }
    }
    i := if lo == 0 then 0 else lo - 1;
    if lo == 0 && 1 < |children| {
      PivotsIncrease(children, h, 0, 1);
    }
  }

  /** `accumulate_node_ranks` on an index. */
  method AccumulateChildren(children: seq<Child>, to: nat, stats: Stats, ghost h: nat, ghost before: seq<Tuple>)
    returns (stats': Stats)
    requires h > 0 && Packed(Index(children), h) && to <= |children| && stats == Totals(before)
    requires Countable(before + TuplesOf(children[..to]))
    ensures stats' == Totals(before + TuplesOf(children[..to]))
  {
    hide Totals, TuplesOf, Countable;
    stats' := stats;
    assert children[..0] == [];
    NoneLeft();
    assert before + [] == before;
    for i := 0 to to
      invariant stats' == Totals(before + TuplesOf(children[..i]))
    {
      assert ChildOk(children[i]);
      OneMoreChild(children, i, to, before);
      stats' := Accumulated(stats', children[i].stats);
    }
  }

  lemma OneMoreChild(children: seq<Child>, i: nat, to: nat, before: seq<Tuple>)
    requires i < to <= |children| && ChildOk(children[i]) && Countable(before + TuplesOf(children[..to]))
    ensures Accumulated(Totals(before + TuplesOf(children[..i])), children[i].stats)
         == Totals(before + TuplesOf(children[..i + 1]))
  {
    hide Totals, Countable, Leaves, Tuples, LeavesOf, Accumulated;
    var upto := children[..i + 1];
    TuplesOfLast(upto);
    assert upto[..i] == children[..i] && upto[i] == children[i];
    LeavesOfSplit(children[..to], i + 1);
    assert children[..to][..i + 1] == upto;
    TuplesConcat(LeavesOf(upto), LeavesOf(children[..to][i + 1..]));
    var front := before + TuplesOf(upto);
    assert before + TuplesOf(children[..to]) == front + TuplesOf(children[..to][i + 1..]);
    CountableParts(front, TuplesOf(children[..to][i + 1..]));
    assert front == (before + TuplesOf(children[..i])) + Tuples(Leaves(children[i].tree));
    CountableParts(before + TuplesOf(children[..i]), Tuples(Leaves(children[i].tree)));
  }

  /** `btree_find_tuple`, turned into the number of tuples below the target. */
  method RankInLeaf(s: seq<Tuple>, target: Target) returns (rank: nat)
    requires Increasing(s)
    ensures rank <= |s| && AllLess(s[..rank], target) && NoneLess(s[rank..], target)
  {
    var lo, hi := 0, |s|;
    while lo < hi
      invariant 0 <= lo <= hi <= |s|
      invariant forall i | 0 <= i < lo :: Less(s[i].key, target)
      invariant forall i | hi <= i < |s| :: !Less(s[i].key, target)
    {
      var mid := (lo + hi) / 2;
      if Same(s[mid].key, target) {
        return mid;
      } else if Less(s[mid].key, target) {
        lo := mid + 1;
      } else {
        hi := mid;
      }
    }
    rank := lo;
  }

  lemma SplitUnder(s: seq<Tuple>, rank: nat, target: Target)
    requires rank <= |s| && AllLess(s[..rank], target) && NoneLess(s[rank..], target)
    ensures Under(s, target) == s[..rank]
  {
    AllUnder(s[..rank], target);
    AllUnder(s[rank..], target);
    UnderConcat(s[..rank], s[rank..], target);
    assert s == s[..rank] + s[rank..];
  }

  /** `accumulate_node_ranks` on a leaf. */
  method AccumulateTuples(s: seq<Tuple>, to: nat, stats: Stats, ghost before: seq<Tuple>) returns (stats': Stats)
    requires to <= |s| && stats == Totals(before) && Countable(before + s[..to])
    ensures stats' == Totals(before + s[..to])
  {
    hide Totals, Countable;
    var keyBytes, messageBytes := stats.keyBytes, stats.messageBytes;
    assert before + s[..0] == before;
    for i := 0 to to
      invariant Totals(before + s[..i]) == Stats(stats.numKvs + i, keyBytes, messageBytes)
    {
      OneMoreTuple(s, i, to, before);
      keyBytes := AddUnknown(keyBytes, s[i].keyBytes);
      messageBytes := AddUnknown(messageBytes, |s[i].msg.data|);
    }
    stats' := Stats(stats.numKvs + to, keyBytes, messageBytes);
  }

  lemma OneMoreTuple(s: seq<Tuple>, i: nat, to: nat, before: seq<Tuple>)
    requires i < to <= |s| && Countable(before + s[..to])
    ensures var t := Totals(before + s[..i]);
      Totals(before + s[..i + 1])
      == Stats(t.numKvs + 1, AddUnknown(t.keyBytes, s[i].keyBytes), AddUnknown(t.messageBytes, |s[i].msg.data|))
  {
    hide Totals;
    assert before + s[..to] == before + s[..i + 1] + s[i + 1..to];
    CountableParts(before + s[..i + 1], s[i + 1..to]);
    assert before + s[..i + 1] == before + s[..i] + [s[i]];
    TotalsNext(before + s[..i], s[i]);
  }

  /** `btree_get_rank`: the number and sizes of the tuples below the target. */
  method GetRank(tree: Tree, ghost height: nat, target: Target) returns (stats: Stats)
    requires Packed(tree, height) && Increasing(Tuples(Leaves(tree))) && Countable(Tuples(Leaves(tree)))
    ensures stats == Totals(Under(Tuples(Leaves(tree)), target))
  {
    hide Totals, Countable, Tuples, TuplesOf, Under, LeavesOf, ChildOk, Increasing;
    var node := tree;
    stats := ZERO;
    ghost var h, before := height, [];
    ghost var all := Tuples(Leaves(tree));
    TotalsNone();
    RankStarts(all, target);
    while node.Index?
      invariant Packed(node, h) && Increasing(Tuples(Leaves(node))) && stats == Totals(before)
      invariant Under(all, target) == before + Under(Tuples(Leaves(node)), target)
      invariant Countable(all)
      decreases node
    {
      var children := node.children;
      assert Tuples(Leaves(node)) == TuplesOf(children) by { LeavesOfIndex(children); }
      var i := ChildFor(children, h, target);
      OnlyChildMatters(children, i, h, target);
      ghost var left := TuplesOf(children[..i]);
      RankCountable(all, target, before, left, Under(Tuples(Leaves(children[i].tree)), target));
      stats := AccumulateChildren(children, i, stats, h, before);
      before := before + left;
      h := h - 1;
      var child := children[i];
      assert child.tree < child;
      node := child.tree;
    }
    var s := node.leaf.entries;
    TuplesOfLeaf(node.leaf);
    var rank := RankInLeaf(s, target);
    SplitUnder(s, rank, target);
    RankCountable(all, target, before, s[..rank], []);
    stats := AccumulateTuples(s, rank, stats, before);
  }

  lemma LeavesOfIndex(children: seq<Child>)
    ensures Tuples(Leaves(Index(children))) == TuplesOf(children)
  {
  }

  lemma RankStarts(all: seq<Tuple>, target: Target)
    ensures Under(all, target) == [] + Under(all, target)
  {
  }

  /** Partial ranks stay below the sentinel with the whole. */
  lemma RankCountable(all: seq<Tuple>, target: Target, before: seq<Tuple>, left: seq<Tuple>, rest: seq<Tuple>)
    requires Countable(all) && Under(all, target) == before + (left + rest)
    ensures Countable(before + left) && Under(all, target) == before + left + rest
  {
    hide Totals, Under;
    assert before + (left + rest) == before + left + rest;
    UnderCountable(all, target);
    CountableParts(before + left, rest);
  }

  lemma {:induction false} UnderCountable(s: seq<Tuple>, target: Target)
    requires Countable(s)
    ensures Countable(Under(s, target))
    ensures Totals(Under(s, target)).numKvs <= Totals(s).numKvs
    ensures Totals(Under(s, target)).keyBytes <= Totals(s).keyBytes
    ensures Totals(Under(s, target)).messageBytes <= Totals(s).messageBytes
    decreases |s|
  {
    hide Totals, Less;
    if |s| == 0 {
      assert Under(s, target) == s;
    } else {
      var n := |s| - 1;
      assert s == s[..n] + [s[n]];
      CountableParts(s[..n], [s[n]]);
      TotalsNext(s[..n], s[n]);
      UnderCountable(s[..n], target);
      TotalsNextIf(Under(s[..n], target), s[n], Less(s[n].key, target));
    }
  }

  /** `btree_count_in_range`: exactly the tuples from min (inclusive) to max (exclusive). */
  method CountInRange(tree: Tree, ghost height: nat, min: Target, max: Target) returns (stats: Stats)
    requires Packed(tree, height) && Increasing(Tuples(Leaves(tree))) && Countable(Tuples(Leaves(tree)))
    ensures stats == Totals(InRange(Tuples(Leaves(tree)), min, max))
  {
    hide Packed, Totals, Countable, Tuples, Under, InRange, Leaves, Increasing, AtMost;
    ghost var all := Tuples(Leaves(tree));
    var minStats := GetRank(tree, height, min);
    stats := GetRank(tree, height, max);
    TargetsOrdered(min, max);
    TotalsCount(Under(all, min));
    TotalsCount(Under(all, max));
    TotalsCount(InRange(all, min, max));
    TotalsNone();
    if AtMost(min, max) {
      RangeIsDifference(all, min, max);
      if minStats.numKvs == stats.numKvs {
        NothingCounted(InRange(all, min, max));
      }
    } else {
      NothingInRange(all, min, max);
    }
    if minStats.numKvs < stats.numKvs {
      stats := Stats(stats.numKvs - minStats.numKvs, stats.keyBytes - minStats.keyBytes,
                     stats.messageBytes - minStats.messageBytes);
    } else {
      stats := ZERO;
    }
  }

  lemma NothingCounted(s: seq<Tuple>)
    requires |s| == 0
    ensures Totals(s) == ZERO
  {
    assert s == [];
  }
}
