/**
  How full packing leaves its nodes, and what that says about the height: a node is only
  closed when its page has no room, and a level is only begun when there is more than one
  closed node's worth of tuples below it.
 */
module PackFill {
  import opened PackSpec
  import PL = PageLayout
  import IP = IndexPage

  /** Every page takes this many tuples or pivots; 0 and 0 suit any pages. */
  datatype Fill = Fill(leaf: nat, fanout: nat)

  /** Whether an entry still fits a page is up to the page. */
  ghost predicate Suits(f: Fill, leafTakes: (seq<Tuple>, Tuple) -> bool, indexTakes: (seq<Child>, Child) -> bool) {
    && (forall s, t :: |s| < f.leaf ==> leafTakes(s, t))
    && (forall s, c :: |s| < f.fanout ==> indexTakes(s, c))
  }

  /** The tuples that fill a node at this height at least. */
  function Capacity(f: Fill, height: nat): nat {
    if height == 0 then f.leaf else f.fanout * Capacity(f, height - 1)
  }

  /** No node of the subtree could take more when it was closed. */
  ghost predicate Filled(f: Fill, t: Tree, height: nat)
    decreases height, 0
  {
    match t
    case Leaf(leaf) => height == 0 && f.leaf <= |leaf.entries|
    case Index(children) => height > 0 && f.fanout <= |children| && ChildrenFilled(f, children, height - 1)
  }

  ghost predicate ChildrenFilled(f: Fill, children: seq<Child>, height: nat)
    decreases height, 1
  {
    forall i | 0 <= i < |children| :: Filled(f, children[i].tree, height)
  }

  /** The node may still take entries, but nothing below it may. */
  ghost predicate Open(f: Fill, t: Tree, height: nat) {
    t.Index? ==> height > 0 && ChildrenFilled(f, t.children, height - 1)
  }

  lemma {:induction false} FilledHolds(f: Fill, t: Tree, height: nat)
    requires Filled(f, t, height)
    ensures Capacity(f, height) <= |Tuples(Leaves(t))|
    decreases height, 0
  {
    match t
    case Leaf(leaf) =>
      TuplesOfLeaf(leaf);
    case Index(children) =>
      ChildrenHold(f, children, height - 1);
      Product(f.fanout, |children|, Capacity(f, height - 1));
  }

  lemma {:induction false} ChildrenHold(f: Fill, children: seq<Child>, height: nat)
    requires ChildrenFilled(f, children, height)
    ensures |children| * Capacity(f, height) <= |Tuples(LeavesOf(children))|
    decreases height, 1, |children|
  {
    hide Capacity, Tuples;
    if children != [] {
      var n := |children| - 1;
      ChildrenHold(f, children[..n], height);
      FilledHolds(f, children[n].tree, height);
      TuplesConcat(LeavesOf(children[..n]), Leaves(children[n].tree));
      assert |children| * Capacity(f, height) == n * Capacity(f, height) + Capacity(f, height);
    }
  }

  lemma Product(a: nat, b: nat, c: nat)
    requires a <= b
    ensures a * c <= b * c
  {
  }

  /** There are more than enough tuples for one node at this height. */
  ghost predicate Deep(f: Fill, height: nat, n: nat) {
    Capacity(f, height) < n
  }

  /** With this many levels every level but the highest has had to start a second node. */
  ghost predicate Needed(f: Fill, levels: nat, n: nat) {
    forall k: nat | k + 1 < levels :: Deep(f, k, n)
  }

  lemma NeededMore(f: Fill, levels: nat, n: nat, m: nat)
    requires Needed(f, levels, n) && n <= m
    ensures Needed(f, levels, m)
  {
    forall k: nat | k + 1 < levels ensures Deep(f, k, m) {
      assert Deep(f, k, n);
    }
  }

  /** An index page that is filled from the back without gaps takes seven pivots at least. */
  lemma SevenPivotsFit(e: seq<IP.IndexEntry>, pageSize: nat, length: nat)
    requires PL.PageSizeOk(pageSize) && |e| < 7 && IP.PivotsWithin(e, pageSize / 8) && length <= pageSize / 8
    ensures IP.Space(e) <= pageSize && IP.Accepts(|e|, pageSize - IP.Space(e), length)
  {
    SpaceAtMost(e, pageSize / 8);
    Product(|e|, 6, PL.INDEX_ENTRY_SIZE + pageSize / 8);
  }

  lemma {:induction false} SpaceAtMost(e: seq<IP.IndexEntry>, longest: nat)
    requires IP.PivotsWithin(e, longest)
    ensures IP.Space(e) <= |e| * (PL.INDEX_ENTRY_SIZE + longest)
  {
    if e != [] {
      SpaceAtMost(e[..|e| - 1], longest);
    }
  }
}
