/** Packed B-trees: the tuples in the leaves and the statistics beside the pivots. */
module PackSpec {
  import opened DataConfig

  type Addr = nat

  const NO_ADDR: Addr := 0
  const MAX_HEIGHT := 8
  const UNKNOWN_COUNTER := 0x7fff_ffff

  datatype Tuple = Tuple(key: Key, keyBytes: nat, msg: Message)

  datatype Stats = Stats(numKvs: nat, keyBytes: nat, messageBytes: nat)

  const ZERO := Stats(0, 0, 0)

  datatype LeafNode = LeafNode(addr: Addr, prev: Addr, next: Addr, entries: seq<Tuple>)

  /** A pivot with the subtree below it and the statistics stored for that subtree. */
  datatype Child = Child(pivot: Key, stats: Stats, tree: Tree)

  datatype Tree = Leaf(leaf: LeafNode) | Index(children: seq<Child>)

  /** `add_unknown`. */
  function AddUnknown(a: nat, b: nat): nat {
    if a != UNKNOWN_COUNTER && b != UNKNOWN_COUNTER then a + b else UNKNOWN_COUNTER
  }

  /** `btree_accumulate_pivot_stats`. */
  function Accumulated(dest: Stats, src: Stats): Stats {
    Stats(AddUnknown(dest.numKvs, src.numKvs), AddUnknown(dest.keyBytes, src.keyBytes),
          AddUnknown(dest.messageBytes, src.messageBytes))
  }

  function Plus(a: Stats, b: Stats): Stats {
    Stats(a.numKvs + b.numKvs, a.keyBytes + b.keyBytes, a.messageBytes + b.messageBytes)
  }

  function Of(t: Tuple): Stats {
    Stats(1, t.keyBytes, |t.msg.data|)
  }

  /** The true counts of a run of tuples. */
  function Totals(s: seq<Tuple>): Stats {
    if s == [] then ZERO else Plus(Totals(s[..|s| - 1]), Of(s[|s| - 1]))
  }

  /** No counter reaches the value that stands for an unknown one. */
  predicate Countable(s: seq<Tuple>) {
    var t := Totals(s);
    t.numKvs < UNKNOWN_COUNTER && t.keyBytes < UNKNOWN_COUNTER && t.messageBytes < UNKNOWN_COUNTER
  }

  lemma TotalsNone()
    ensures Totals([]) == ZERO
  {
  }

  lemma TotalsNext(s: seq<Tuple>, t: Tuple)
    ensures Totals(s + [t]) == Plus(Totals(s), Of(t))
  {
    assert (s + [t])[..|s|] == s;
  }

  lemma {:induction false} TotalsConcat(s: seq<Tuple>, t: seq<Tuple>)
    ensures Totals(s + t) == Plus(Totals(s), Totals(t))
  {
    hide Totals;
    if t == [] {
      TotalsNone();
      assert s + t == s;
    } else {
      var n := |t| - 1;
      TotalsConcat(s, t[..n]);
      TotalsNext(s + t[..n], t[n]);
      TotalsNext(t[..n], t[n]);
      assert s + t == s + t[..n] + [t[n]] && t == t[..n] + [t[n]];
    }
  }

  lemma CountableParts(s: seq<Tuple>, t: seq<Tuple>)
    requires Countable(s + t)
    ensures Countable(s) && Countable(t) && Accumulated(Totals(s), Totals(t)) == Totals(s + t)
  {
    TotalsConcat(s, t);
  }

  lemma {:induction false} TotalsCount(s: seq<Tuple>)
    ensures Totals(s).numKvs == |s|
  {
    if s != [] {
      TotalsCount(s[..|s| - 1]);
    }
  }

  /* ---- Leaves and tuples of a tree ---- */

  function Leaves(t: Tree): seq<LeafNode>
    decreases t
  {
    match t
    case Leaf(leaf) => [leaf]
    case Index(children) => LeavesOf(children)
  }

  function LeavesOf(children: seq<Child>): seq<LeafNode>
    decreases children
  {
    if children == [] then []
    else
      var last := children[|children| - 1];
      assert last.tree < last;
      LeavesOf(children[..|children| - 1]) + Leaves(last.tree)
  }

  function Tuples(leaves: seq<LeafNode>): seq<Tuple> {
    if leaves == [] then [] else Tuples(leaves[..|leaves| - 1]) + leaves[|leaves| - 1].entries
  }

  lemma {:induction false} TuplesConcat(a: seq<LeafNode>, b: seq<LeafNode>)
    ensures Tuples(a + b) == Tuples(a) + Tuples(b)
  {
    if b == [] {
      assert a + b == a;
    } else {
      var n := |b| - 1;
      TuplesConcat(a, b[..n]);
      assert (a + b)[..|a + b| - 1] == a + b[..n];
      assert Tuples(a) + (Tuples(b[..n]) + b[n].entries) == Tuples(a) + Tuples(b[..n]) + b[n].entries;
    }
  }

  /** What is stored for a subtree is true of it. */
  ghost predicate ChildOk(c: Child) {
    && Tuples(Leaves(c.tree)) != [] && c.pivot == Tuples(Leaves(c.tree))[0].key
    && c.stats == Totals(Tuples(Leaves(c.tree)))
  }

  /** All leaves lie `height` levels down, and every pivot and its statistics are exact. */
  ghost predicate Packed(t: Tree, height: nat)
    decreases height
  {
    match t
    case Leaf(leaf) => height == 0 && leaf.entries != []
    case Index(children) =>
      && height > 0 && children != []
      && forall i | 0 <= i < |children| :: ChildOk(children[i]) && Packed(children[i].tree, height - 1)
  }

  lemma {:induction false} LeavesOfConcat(a: seq<Child>, c: Child)
    ensures LeavesOf(a + [c]) == LeavesOf(a) + Leaves(c.tree)
  {
    assert (a + [c])[..|a|] == a;
  }

  lemma TuplesOfLeaf(leaf: LeafNode)
    ensures Tuples([leaf]) == leaf.entries
  {
    assert [leaf][..0] == [];
    assert Tuples([]) + leaf.entries == leaf.entries;
  }

  lemma {:induction false} PackedNonEmpty(t: Tree, height: nat)
    requires Packed(t, height)
    ensures Tuples(Leaves(t)) != [] && Leaves(t) != []
    decreases height
  {
    match t
    case Leaf(leaf) =>
      TuplesOfLeaf(leaf);
    case Index(children) =>
      var n := |children| - 1;
      assert children[n] in children && ChildOk(children[n]);
      PackedNonEmpty(children[n].tree, height - 1);
      TuplesConcat(LeavesOf(children[..n]), Leaves(children[n].tree));
  }

  /** The first tuple of a packed node has the key a parent would use as its pivot. */
  function FirstKey(t: Tree): Key
    requires match t case Leaf(leaf) => leaf.entries != [] case Index(children) => children != []
  {
    match t
    case Leaf(leaf) => leaf.entries[0].key
    case Index(children) => children[0].pivot
  }

  lemma {:induction false} LeavesOfFirst(children: seq<Child>)
    requires children != []
    ensures LeavesOf(children) == Leaves(children[0].tree) + LeavesOf(children[1..])
  {
    hide LeavesOf, Leaves;
    var n := |children| - 1;
    if n == 0 {
      LeavesOfOne(children[0]);
      assert children == [children[0]];
    } else {
      var first, rest := children[..n], children[1..n];
      LeavesOfFirst(first);
      LeavesOfConcat(first, children[n]);
      LeavesOfConcat(rest, children[n]);
      assert children == first + [children[n]] && children[1..] == rest + [children[n]] && first[1..] == rest;
    }
  }

  lemma LeavesOfOne(c: Child)
    ensures LeavesOf([c]) == Leaves(c.tree) + LeavesOf([][..]) && [c][1..] == []
  {
    LeavesOfConcat([], c);
    assert [] + [c] == [c];
  }

  lemma FirstKeyIsFirst(t: Tree, height: nat)
    requires Packed(t, height)
    ensures Tuples(Leaves(t)) != [] && FirstKey(t) == Tuples(Leaves(t))[0].key
  {
    match t
    case Leaf(leaf) =>
      TuplesOfLeaf(leaf);
    case Index(children) =>
      LeavesOfFirst(children);
      TuplesConcat(Leaves(children[0].tree), LeavesOf(children[1..]));
      assert ChildOk(children[0]);
  }

  ghost predicate Chained(leaves: seq<LeafNode>) {
    forall i | 0 <= i < |leaves| - 1 :: leaves[i].next == leaves[i + 1].addr && leaves[i + 1].prev == leaves[i].addr
  }

  ghost predicate Increasing(s: seq<Tuple>) {
    forall i, j | 0 <= i < j < |s| :: s[i].key < s[j].key
  }

  /* ---- Rank and range count ---- */

  /** The key is smaller than the target. */
  predicate Less(k: Key, target: Target) {
    match target
    case NegativeInfinity => false
    case User(key) => k < key
    case PositiveInfinity => true
  }

  /** The key equals the target, for a user target. */
  predicate Same(k: Key, target: Target) {
    target == User(k)
  }

  /** The tuples below the target. */
  function Under(s: seq<Tuple>, target: Target): seq<Tuple> {
    if s == [] then []
    else
      var n := |s| - 1;
      Under(s[..n], target) + if Less(s[n].key, target) then [s[n]] else []
  }

  /** The tuples from `min` on and below `max`. */
  function InRange(s: seq<Tuple>, min: Target, max: Target): seq<Tuple> {
    if s == [] then []
    else
      var n := |s| - 1;
      InRange(s[..n], min, max) + if !Less(s[n].key, min) && Less(s[n].key, max) then [s[n]] else []
  }

  lemma {:induction false} UnderConcat(s: seq<Tuple>, t: seq<Tuple>, target: Target)
    ensures Under(s + t, target) == Under(s, target) + Under(t, target)
  {
    if t == [] {
      assert s + t == s;
    } else {
      var n := |t| - 1;
      UnderConcat(s, t[..n], target);
      assert (s + t)[..|s + t| - 1] == s + t[..n];
    }
  }

  lemma {:induction false} AllUnder(s: seq<Tuple>, target: Target)
    ensures (forall i | 0 <= i < |s| :: Less(s[i].key, target)) ==> Under(s, target) == s
    ensures (forall i | 0 <= i < |s| :: !Less(s[i].key, target)) ==> Under(s, target) == []
  {
    if s != [] {
      AllUnder(s[..|s| - 1], target);
    }
  }

  lemma TotalsNextIf(s: seq<Tuple>, t: Tuple, take: bool)
    ensures Totals(s + if take then [t] else []) == if take then Plus(Totals(s), Of(t)) else Totals(s)
  {
    if take {
      TotalsNext(s, t);
    } else {
      assert s + [] == s;
    }
  }

  /** What one more tuple adds. */
  lemma OneMore(s: seq<Tuple>, min: Target, max: Target)
    requires s != []
    ensures var n := |s| - 1; var belowMin, belowMax := Less(s[n].key, min), Less(s[n].key, max);
      && Totals(Under(s, min))
         == (if belowMin then Plus(Totals(Under(s[..n], min)), Of(s[n])) else Totals(Under(s[..n], min)))
      && Totals(InRange(s, min, max))
         == (if !belowMin && belowMax then Plus(Totals(InRange(s[..n], min, max)), Of(s[n]))
             else Totals(InRange(s[..n], min, max)))
  {
    hide Totals, Less;
    var n := |s| - 1;
    TotalsNextIf(Under(s[..n], min), s[n], Less(s[n].key, min));
    TotalsNextIf(InRange(s[..n], min, max), s[n], !Less(s[n].key, min) && Less(s[n].key, max));
  }

  ghost predicate AtMost(min: Target, max: Target) {
    forall k | Less(k, min) :: Less(k, max)
  }

  lemma AtMostAt(min: Target, max: Target, k: Key)
    requires AtMost(min, max) && Less(k, min)
    ensures Less(k, max)
  {
  }

  /** With ordered targets the ranks differ by exactly what lies between them. */
  lemma {:induction false} RangeIsDifference(s: seq<Tuple>, min: Target, max: Target)
    requires AtMost(min, max)
    ensures Totals(Under(s, max)) == Plus(Totals(Under(s, min)), Totals(InRange(s, min, max)))
    decreases |s|
  {
    hide Totals, Less, Under, InRange, AtMost, Plus;
    if |s| == 0 {
      NoneInRange(s, min, max);
    } else {
      var n := |s| - 1;
      if Less(s[n].key, min) {
        AtMostAt(min, max, s[n].key);
      }
      OneMore(s, min, max);
      OneMore(s, max, max);
      RangeIsDifference(s[..n], min, max);
      PlusCommutes(Totals(Under(s[..n], min)), Totals(InRange(s[..n], min, max)), Of(s[n]));
    }
  }

  lemma PlusCommutes(a: Stats, b: Stats, c: Stats)
    ensures Plus(Plus(a, b), c) == Plus(Plus(a, c), b) == Plus(a, Plus(b, c))
  {
  }

  lemma NoneInRange(s: seq<Tuple>, min: Target, max: Target)
    requires |s| == 0
    ensures Totals(Under(s, max)) == Plus(Totals(Under(s, min)), Totals(InRange(s, min, max)))
  {
    hide Totals, Plus;
    assert |Under(s, max)| == 0 && |Under(s, min)| == 0 && |InRange(s, min, max)| == 0;
    NothingTotals(Under(s, max), Under(s, min), InRange(s, min, max));
  }

  lemma NothingTotals(a: seq<Tuple>, b: seq<Tuple>, c: seq<Tuple>)
    requires |a| == |b| == |c| == 0
    ensures Totals(a) == Plus(Totals(b), Totals(c))
  {
    hide Totals, Plus;
    TotalsConcat(b, c);
    assert b + c == a;
  }

  lemma {:induction false} NothingInRange(s: seq<Tuple>, min: Target, max: Target)
    requires AtMost(max, min)
    ensures InRange(s, min, max) == [] && |Under(s, max)| <= |Under(s, min)|
    decreases |s|
  {
    hide Less, AtMost;
    if s != [] {
      var n := |s| - 1;
      if Less(s[n].key, max) {
        AtMostAt(max, min, s[n].key);
      }
      NothingInRange(s[..n], min, max);
    }
  }

  lemma TargetsOrdered(min: Target, max: Target)
    ensures AtMost(min, max) || AtMost(max, min)
  {
  }
}
