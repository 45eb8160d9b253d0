/**
  Bulk packing of a sorted stream into a B-tree (btree.c:3069-3301) and counting by rank
  in the result (btree.c:2086-2126, 3308-3352).

  Whether an entry still fits a page, and whether two pages share an extent, is an input.
 */
module Pack {
  import opened DataConfig
  import opened PackSpec
  import opened PackFill

  /** A node under construction with the statistics gathered for its parent. */
  datatype Edge = Edge(addr: Addr, node: Tree, stats: Stats)

  type Edges = seq<seq<Edge>>

  ghost predicate EdgeOk(e: Edge, height: nat) {
    Packed(e.node, height) && e.stats == Totals(Tuples(Leaves(e.node)))
  }

  ghost predicate LevelOk(level: seq<Edge>, height: nat) {
    forall i | 0 <= i < |level| :: EdgeOk(level[i], height)
  }

  /** All levels from h on are in order. */
  ghost predicate LevelsOk(edges: Edges, h: nat) {
    forall k: nat | h <= k < |edges| :: LevelOk(edges[k], k)
  }

  ghost function LevelLeaves(level: seq<Edge>): seq<LeafNode> {
    if level == [] then [] else LevelLeaves(level[..|level| - 1]) + Leaves(level[|level| - 1].node)
  }

  /** The leaves held at level h and above, in key order: higher levels come first. */
  ghost function LeavesFrom(edges: Edges, h: nat): seq<LeafNode>
    decreases |edges| - h
  {
    if h >= |edges| then [] else LeavesFrom(edges, h + 1) + LevelLeaves(edges[h])
  }

  lemma {:induction false} LevelLeavesConcat(a: seq<Edge>, b: seq<Edge>)
    ensures LevelLeaves(a + b) == LevelLeaves(a) + LevelLeaves(b)
  {
    if b == [] {
      assert a + b == a;
    } else {
      var n := |b| - 1;
      LevelLeavesConcat(a, b[..n]);
      assert (a + b)[..|a + b| - 1] == a + b[..n];
      assert LevelLeaves(a) + (LevelLeaves(b[..n]) + Leaves(b[n].node))
          == LevelLeaves(a) + LevelLeaves(b[..n]) + Leaves(b[n].node);
    }
  }

  lemma LevelLeavesOne(e: Edge)
    ensures LevelLeaves([e]) == Leaves(e.node)
  {
    assert [e][..0] == [];
    assert LevelLeaves([]) + Leaves(e.node) == Leaves(e.node);
  }

  /** Levels below h do not matter. */
  lemma {:induction false} LeavesFromSame(edges: Edges, edges': Edges, h: nat)
    requires |edges'| == |edges| && forall k: nat | h <= k < |edges| :: edges'[k] == edges[k]
    ensures LeavesFrom(edges', h) == LeavesFrom(edges, h)
    decreases |edges| - h
  {
    if h < |edges| {
      LeavesFromSame(edges, edges', h + 1);
    }
  }

  /** The first n nodes of a level are closed. */
  ghost predicate ClosedUpTo(f: Fill, level: seq<Edge>, height: nat, n: nat) {
    forall i | 0 <= i < n && i < |level| :: Filled(f, level[i].node, height)
  }

  /** All nodes of a level are closed, but for the last one, which takes closed nodes only. */
  ghost predicate LevelTight(f: Fill, level: seq<Edge>, height: nat) {
    level != [] ==>
      ClosedUpTo(f, level, height, |level| - 1) && Open(f, level[|level| - 1].node, height)
  }

  ghost predicate Tight(f: Fill, edges: Edges, h: nat) {
    forall k: nat | h <= k < |edges| :: LevelTight(f, edges[k], k)
  }

  /** As Tight, but what was linked to level h last may have been an open node. */
  ghost predicate TightAbove(f: Fill, edges: Edges, h: nat, loose: bool)
    requires h < |edges|
  {
    && Tight(f, edges, h + 1) && edges[h] != [] && ClosedUpTo(f, edges[h], h, |edges[h]| - 1)
    && (!loose ==> LevelTight(f, edges[h], h))
  }

  /** `btree_pack_req`, as far as the tree is concerned. */
  class PackReq {
    const leafTakes: (seq<Tuple>, Tuple) -> bool
    const indexTakes: (seq<Child>, Child) -> bool
    const sharesExtent: (Addr, Addr) -> bool
    ghost const fill: Fill
    var edges: Edges
    var nextAddr: Addr

    constructor (leafTakes: (seq<Tuple>, Tuple) -> bool, indexTakes: (seq<Child>, Child) -> bool,
        sharesExtent: (Addr, Addr) -> bool, ghost fill: Fill)
      ensures edges == [] && nextAddr == 1 && this.fill == fill
      ensures this.leafTakes == leafTakes && this.indexTakes == indexTakes && this.sharesExtent == sharesExtent
    {
      this.leafTakes, this.indexTakes, this.sharesExtent, this.fill := leafTakes, indexTakes, sharesExtent, fill;
      edges, nextAddr := [], 1;
    }

    /** Of n tuples, s and what else is on its way, the levels up to now have been needed. */
    ghost predicate Justified(s: seq<Tuple>, n: nat)
      reads this`edges
    {
      Suits(fill, leafTakes, indexTakes) && Countable(s) && |s| <= n && Needed(fill, |edges|, n)
    }

    /** The pack has run out of levels, and n tuples were too many for fewer. */
    ghost predicate OutOfLevels(n: nat)
      reads this`edges
    {
      |edges| == MAX_HEIGHT && Deep(fill, MAX_HEIGHT - 1, n)
    }

    /**
      `btree_pack_link_node`: the edge becomes the last child of the current parent, or of a new
      one when that has no room. `n` is the number of tuples so far, `loose` says that the edge
      may be one that could still take entries.
     */
    method LinkNode(h: nat, i: nat, ghost n: nat, ghost loose: bool) returns (ok: bool)
      requires h < |edges| <= MAX_HEIGHT && i < |edges[h]| && EdgeOk(edges[h][i], h) && LevelsOk(edges, h + 1)
      requires Justified(Tuples(LeavesFrom(edges, h + 1) + Leaves(edges[h][i].node)), n) && Deep(fill, h, n)
      requires Tight(fill, edges, h + 1) && (loose || Filled(fill, edges[h][i].node, h))
      modifies this`edges, this`nextAddr
      ensures ok ==>
        && |old(edges)| <= |edges| <= MAX_HEIGHT && edges[..h + 1] == old(edges)[..h + 1] && LevelsOk(edges, h + 1)
        && LeavesFrom(edges, h + 1) == old(LeavesFrom(edges, h + 1) + Leaves(edges[h][i].node))
        && h + 1 < |edges| && TightAbove(fill, edges, h + 1, loose) && Needed(fill, |edges|, n)
      ensures !ok ==> OutOfLevels(n)
      decreases MAX_HEIGHT - h, 0
    {
      hide Packed, LevelsOk, LeavesFrom, Totals, Tuples, Leaves, Countable, Suits, Deep, Needed, Filled, Open,
        ClosedUpTo, LevelTight, Tight, TightAbove;
      var edge := edges[h][i];
      FirstKeyIsFirst(edge.node, h);
      PackedHasFirst(edge.node, h);
      var child := Child(FirstKey(edge.node), edge.stats, edge.node);
      var fits := false;
      if h + 1 < |edges| && edges[h + 1] != [] {
        LastIsIndex(edges, h + 1);
        fits := indexTakes(edges[h + 1][|edges[h + 1]| - 1].node.children, child);
      }
      if fits {
        var last := |edges[h + 1]| - 1;
        var parent := edges[h + 1][last];
        AppendChild(edges, h + 1, child);
        ChildTight(fill, edges, h + 1, child, loose);
        edges := edges[h + 1 := edges[h + 1][last := WithChild(parent, child)]];
        ok := true;
      } else {
        if h + 1 < |edges| && edges[h + 1] != [] {
          ParentClosed(fill, leafTakes, indexTakes, edges, h + 1, child);
        } else {
          NoneClosed(fill, h + 1);
        }
        ok := CreateIndexNode(h + 1, child, n, loose);
      }
    }

    /** `btree_pack_create_next_node` for an index, with its first entry. */
    method CreateIndexNode(h: nat, child: Child, ghost n: nat, ghost loose: bool) returns (ok: bool)
      requires 0 < h <= |edges| <= MAX_HEIGHT && ChildOk(child) && Packed(child.tree, h - 1) && LevelsOk(edges, h)
      requires Justified(Tuples(LeavesFrom(edges, h) + Leaves(child.tree)), n) && Deep(fill, h - 1, n)
      requires Tight(fill, edges, h) && (loose || Filled(fill, child.tree, h - 1))
      requires h < |edges| ==> ClosedUpTo(fill, edges[h], h, |edges[h]|)
      modifies this`edges, this`nextAddr
      ensures ok ==>
        && |old(edges)| <= |edges| <= MAX_HEIGHT && edges[..h] == old(edges)[..h] && LevelsOk(edges, h)
        && LeavesFrom(edges, h) == old(LeavesFrom(edges, h)) + Leaves(child.tree)
        && h < |edges| && TightAbove(fill, edges, h, loose) && Needed(fill, |edges|, n)
      ensures !ok ==> OutOfLevels(n)
      decreases MAX_HEIGHT - h, 2
    {
      hide Packed, LevelsOk, LeavesFrom, Totals, Tuples, Leaves, Countable, Suits, Deep, Needed, Filled, Open,
        ClosedUpTo, LevelTight, Tight, TightAbove;
      if h >= MAX_HEIGHT {
        return false;
      }
      var addr := nextAddr;
      nextAddr := nextAddr + 1;
      ghost var before := LeavesFrom(edges, h);
      CountableTuples(before, Leaves(child.tree));
      if h < |edges| && edges[h] != [] {
        if !sharesExtent(edges[h][|edges[h]| - 1].addr, addr) {
          ClosedIsDeep(fill, edges, h, child, n);
          TightFrom(fill, edges, h);
          ok := LinkExtent(h, n, false);
          if !ok {
            return;
          }
          TightBelow(fill, edges, h);
        }
      } else if h == |edges| {
        NewLevel(edges);
        NewTight(fill, edges, n);
        edges := edges + [[]];
      }
      assert LeavesFrom(edges, h) == before;
      AppendIndex(edges, h, addr, child);
      IndexTight(fill, edges, h, addr, child, loose);
      edges := edges[h := edges[h] + [WithChild(Edge(addr, Index([]), ZERO), child)]];
      ok := true;
    }

    /** `btree_pack_link_extent`. */
    method LinkExtent(h: nat, ghost n: nat, ghost loose: bool) returns (ok: bool)
      requires h < |edges| <= MAX_HEIGHT && edges[h] != [] && LevelsOk(edges, h)
      requires Justified(Tuples(LeavesFrom(edges, h)), n) && Deep(fill, h, n) && Tight(fill, edges, h + 1)
      requires ClosedUpTo(fill, edges[h], h, if loose then |edges[h]| - 1 else |edges[h]|)
      modifies this`edges, this`nextAddr
      ensures ok ==>
        && |old(edges)| <= |edges| <= MAX_HEIGHT && edges[..h] == old(edges)[..h] && h + 1 < |edges| && edges[h] == []
        && edges[h + 1] != [] && LevelsOk(edges, h) && LeavesFrom(edges, h) == old(LeavesFrom(edges, h))
        && TightAbove(fill, edges, h + 1, loose) && Needed(fill, |edges|, n)
      ensures !ok ==> OutOfLevels(n)
      decreases MAX_HEIGHT - h, 1
    {
      hide Packed, LevelsOk, LeavesFrom, Totals, Tuples, Leaves, Countable, LevelLeaves, EdgeOk, Suits, Deep, Needed,
        Filled, Open, ClosedUpTo, LevelTight, Tight, TightAbove;
      ghost var was, level := edges, edges[h];
      LevelsFrom(edges, h);
      ghost var upper := LeavesFrom(edges, h + 1);
      LevelLeavesNone();
      for i := 0 to |edges[h]|
        invariant |was| <= |edges| <= MAX_HEIGHT && edges[..h + 1] == was[..h + 1] && LevelsOk(edges, h + 1)
        invariant LeavesFrom(edges, h + 1) == upper + LevelLeaves(level[..i])
        invariant Needed(fill, |edges|, n) && (i < |level| ==> Tight(fill, edges, h + 1))
        invariant i > 0 ==> h + 1 < |edges| && TightAbove(fill, edges, h + 1, loose && i == |level|)
      {
        assert edges[h] == edges[..h + 1][h] == level;
        LinkStep(upper, level, i, h);
        ClosedAt(fill, level, h, if loose then |level| - 1 else |level|, i);
        ok := LinkNode(h, i, n, loose && i == |level| - 1);
        if !ok {
          return;
        }
        TightAgain(fill, edges, h + 1);
      }
      assert edges[h] == edges[..h + 1][h] == level;
      assert level[..|level|] == level;
      ExtentLinked(edges, h);
      AboveOnly(fill, edges, h, loose);
      assert edges[..h] == edges[..h + 1][..h];
      edges := edges[h := []];
      ok := true;
    }

    /** Between two tuples: all levels in order and needed, level 0 holding the last leaf. */
    ghost predicate Valid()
      reads this`edges
    {
      && |edges| <= MAX_HEIGHT && LevelsOk(edges, 0) && (edges != [] ==> edges[0] != [])
      && Whole(LeavesFrom(edges, 0)) && Tight(fill, edges, 0) && Suits(fill, leafTakes, indexTakes)
      && Needed(fill, |edges|, |Tuples(LeavesFrom(edges, 0))|)
    }

    /** `btree_pack_loop`: the tuple goes to the current leaf, or to a new one. */
    method PackLoop(t: Tuple) returns (ok: bool)
      requires Valid() && Countable(Tuples(LeavesFrom(edges, 0)) + [t])
      modifies this`edges, this`nextAddr
      ensures ok ==> Valid() && Tuples(LeavesFrom(edges, 0)) == old(Tuples(LeavesFrom(edges, 0))) + [t] && edges != []
      ensures !ok ==> OutOfLevels(old(|Tuples(LeavesFrom(edges, 0))|) + 1)
    {
      hide LevelsOk, LeavesFrom, Totals, Tuples, Leaves, Countable, Whole, LevelLeaves, EdgeOk, Suits, Deep, Needed,
        Filled, Open, ClosedUpTo, LevelTight, Tight, TightAbove;
      var fits := false;
      if edges != [] {
        LastIsLeaf(edges);
        fits := leafTakes(edges[0][|edges[0]| - 1].node.leaf.entries, t);
      }
      if fits {
        var last := |edges[0]| - 1;
        var e := edges[0][last];
        AppendTuple(edges, t);
        TupleTight(fill, edges, WithTuple(e, t));
        NeededMore(fill, |edges|, |Tuples(LeavesFrom(edges, 0))|, |Tuples(LeavesFrom(edges, 0))| + 1);
        edges := edges[0 := edges[0][last := WithTuple(e, t)]];
        ok := true;
      } else {
        ok := CreateLeaf(t);
      }
    }

    /** `btree_pack_create_next_node` for a leaf, with its first tuple. */
    method CreateLeaf(t: Tuple) returns (ok: bool)
      requires Valid() && Countable(Tuples(LeavesFrom(edges, 0)) + [t])
      requires edges != [] ==>
        edges[0][|edges[0]| - 1].node.Leaf? && !leafTakes(edges[0][|edges[0]| - 1].node.leaf.entries, t)
      modifies this`edges, this`nextAddr
      ensures ok ==> Valid() && Tuples(LeavesFrom(edges, 0)) == old(Tuples(LeavesFrom(edges, 0))) + [t] && edges != []
      ensures !ok ==> OutOfLevels(old(|Tuples(LeavesFrom(edges, 0))|) + 1)
    {
      hide LevelsOk, LeavesFrom, Totals, Tuples, Leaves, Countable, Whole, LevelLeaves, EdgeOk, Suits, Deep, Needed,
        Filled, Open, ClosedUpTo, LevelTight, Tight, TightAbove;
      var addr := nextAddr;
      nextAddr := nextAddr + 1;
      ghost var was := LeavesFrom(edges, 0);
      ghost var n := |Tuples(was)| + 1;
      NeededMore(fill, |edges|, n - 1, n);
      CountableParts(Tuples(was), [t]);
      var prev := NO_ADDR;
      if edges != [] {
        var last := |edges[0]| - 1;
        LastIsLeaf(edges);
        prev := edges[0][last].node.leaf.addr;
        LeavesClosed(fill, leafTakes, indexTakes, edges, t, addr);
        LinkNext(edges, addr);
        edges := edges[0 := edges[0][last := Linked(edges[0][last], addr)]];
        SameTuples(was, addr);
        if !sharesExtent(edges[0][last].addr, addr) {
          ClosedLeafIsDeep(fill, edges, n);
          ok := LinkExtent(0, n, false);
          if !ok {
            return;
          }
          TightBelow(fill, edges, 0);
        }
        AppendLeaf(edges, LeafNode(addr, prev, NO_ADDR, [t]));
        WholeAppended(was, LeafNode(addr, prev, NO_ADDR, [t]));
      } else {
        NewLevel(edges);
        NewTight(fill, edges, n);
        edges := [[]];
        assert edges == [] + [[]];
        AppendLeaf(edges, LeafNode(addr, prev, NO_ADDR, [t]));
        FirstLeaf(LeafNode(addr, prev, NO_ADDR, [t]));
      }
      LeafTight(fill, edges, LeafNode(addr, prev, NO_ADDR, [t]));
      edges := edges[0 := edges[0] + [Edge(addr, Leaf(LeafNode(addr, prev, NO_ADDR, [t])), Of(t))]];
      ok := true;
    }

    /** The levels of `btree_pack_post_loop`: link what is left, level by level, up to one node. */
    method PostLoop() returns (ok: bool, root: Tree, height: nat)
      requires Valid() && edges != [] && Countable(Tuples(LeavesFrom(edges, 0)))
      modifies this`edges, this`nextAddr
      ensures ok ==> Packed(root, height) && height < MAX_HEIGHT && Leaves(root) == old(LeavesFrom(edges, 0))
      ensures ok ==> Needed(fill, height + 1, old(|Tuples(LeavesFrom(edges, 0))|))
      ensures !ok ==> OutOfLevels(old(|Tuples(LeavesFrom(edges, 0))|))
    {
      hide LevelsOk, LeavesFrom, Totals, Tuples, Leaves, Countable, Whole, LevelLeaves, Packed, Suits, Deep, Needed,
        Filled, Open, ClosedUpTo, LevelTight, Tight, TightAbove;
      ghost var all := LeavesFrom(edges, 0);
      ghost var n := |Tuples(all)|;
      TightLoosely(fill, edges);
      root := edges[0][0].node;
      height := 0;
      while height < |edges| - 1 || 1 < |edges[height]|
        invariant height < |edges| <= MAX_HEIGHT && LevelsOk(edges, height) && edges[height] != []
        invariant LeavesFrom(edges, height) == all
        invariant TightAbove(fill, edges, height, true) && Needed(fill, |edges|, n)
        decreases MAX_HEIGHT - height
      {
        LinkIsNeeded(fill, edges, height, n);
        ok := LinkExtent(height, n, true);
        if !ok {
          return;
        }
        EmptyLevel(edges, height);
        height := height + 1;
      }
      root := edges[height][0].node;
      TopLevel(edges, height);
      ok := true;
    }
  }

  /** `TooHigh` comes with the number of levels in use. */
  datatype Result = LimitExceeded | TooHigh(levels: nat) | Empty | Done(tree: Tree, height: nat)

  /**
    `btree_pack`: the leaves of the result hold exactly the input, in order and chained both
    ways, and every pivot's statistics are the true counts of its subtree. The tree is no
    higher than it has to be: with pages of which every one takes fill.leaf tuples or
    fill.fanout pivots, a node at height h is the only one at its height unless there are more
    than fill.leaf * fill.fanout^h tuples, and only more than that for the highest of the eight
    levels are too many.
   */
  method PackTree(input: seq<Tuple>, maxTuples: nat, leafTakes: (seq<Tuple>, Tuple) -> bool,
      indexTakes: (seq<Child>, Child) -> bool, sharesExtent: (Addr, Addr) -> bool, ghost fill: Fill)
    returns (r: Result)
    requires Countable(input) && Suits(fill, leafTakes, indexTakes)
    ensures r.LimitExceeded? ==> |input| > maxTuples
    ensures r.Empty? || r.Done? ==> |input| <= maxTuples && (r.Empty? <==> input == [])
    ensures r.Done? ==>
      && Packed(r.tree, r.height) && r.height < MAX_HEIGHT
      && Tuples(Leaves(r.tree)) == input && Whole(Leaves(r.tree))
    ensures r.Done? && r.height > 0 ==> Capacity(fill, r.height - 1) < |input|
    ensures r.TooHigh? ==> r.levels == MAX_HEIGHT && Capacity(fill, MAX_HEIGHT - 1) < |input|
  {
    hide Packed, Totals, Tuples, Leaves, Countable, Whole, LevelsOk, LeavesFrom, Suits, Tight, Capacity;
    var req := new PackReq(leafTakes, indexTakes, sharesExtent, fill);
    StartsEmpty();
    StartsTight(fill);
    for i := 0 to |input|
      invariant i <= maxTuples && req.Valid() && Tuples(LeavesFrom(req.edges, 0)) == input[..i]
      invariant i > 0 ==> req.edges != []
    {
      if i >= maxTuples {
        return LimitExceeded;
      }
      PrefixCountable(input, i);
      assert input[..i] + [input[i]] == input[..i + 1];
      var ok := req.PackLoop(input[i]);
      if !ok {
        return TooHigh(|req.edges|);
      }
    }
    assert input[..|input|] == input;
    if input == [] {
      return Empty;
    }
    var ok, root, height := req.PostLoop();
    assert ok && height > 0 ==> Deep(fill, height - 1, |input|);
    return if ok then Done(root, height) else TooHigh(|req.edges|);
  }

  lemma StartsTight(f: Fill)
    ensures Tight(f, [], 0) && Needed(f, 0, 0)
  {
  }

  /* ---- Closed and open nodes ---- */

  lemma ClosedAt(f: Fill, level: seq<Edge>, h: nat, n: nat, i: nat)
    requires ClosedUpTo(f, level, h, n) && i < |level|
    ensures i < n ==> Filled(f, level[i].node, h)
  {
  }

  lemma LastIsIndex(edges: Edges, h: nat)
    requires 0 < h < |edges| && edges[h] != [] && LevelsOk(edges, h)
    ensures edges[h][|edges[h]| - 1].node.Index?
  {
    LevelsFrom(edges, h);
    assert EdgeOk(edges[h][|edges[h]| - 1], h);
  }

  lemma ChildTight(f: Fill, edges: Edges, h: nat, c: Child, loose: bool)
    requires 0 < h < |edges| && edges[h] != [] && edges[h][|edges[h]| - 1].node.Index? && Tight(f, edges, h)
    requires loose || Filled(f, c.tree, h - 1)
    ensures var last := |edges[h]| - 1;
      TightAbove(f, edges[h := edges[h][last := WithChild(edges[h][last], c)]], h, loose)
  {
    hide Filled;
    assert LevelTight(f, edges[h], h);
  }

  lemma ParentClosed(f: Fill, leafTakes: (seq<Tuple>, Tuple) -> bool, indexTakes: (seq<Child>, Child) -> bool,
      edges: Edges, h: nat, c: Child)
    requires 0 < h < |edges| && edges[h] != [] && edges[h][|edges[h]| - 1].node.Index? && Tight(f, edges, h)
    requires Suits(f, leafTakes, indexTakes) && !indexTakes(edges[h][|edges[h]| - 1].node.children, c)
    ensures ClosedUpTo(f, edges[h], h, |edges[h]|)
  {
    assert LevelTight(f, edges[h], h);
  }

  lemma LeavesClosed(f: Fill, leafTakes: (seq<Tuple>, Tuple) -> bool, indexTakes: (seq<Child>, Child) -> bool,
      edges: Edges, t: Tuple, addr: Addr)
    requires edges != [] && edges[0] != [] && edges[0][|edges[0]| - 1].node.Leaf? && Tight(f, edges, 0)
    requires Suits(f, leafTakes, indexTakes) && !leafTakes(edges[0][|edges[0]| - 1].node.leaf.entries, t)
    ensures var last := |edges[0]| - 1; var edges' := edges[0 := edges[0][last := Linked(edges[0][last], addr)]];
      Tight(f, edges', 0) && Tight(f, edges', 1) && ClosedUpTo(f, edges'[0], 0, |edges[0]|)
  {
    assert LevelTight(f, edges[0], 0);
  }

  lemma TupleTight(f: Fill, edges: Edges, e: Edge)
    requires edges != [] && edges[0] != [] && e.node.Leaf? && Tight(f, edges, 0)
    ensures Tight(f, edges[0 := edges[0][|edges[0]| - 1 := e]], 0)
  {
    assert LevelTight(f, edges[0], 0);
  }

  lemma LeafTight(f: Fill, edges: Edges, leaf: LeafNode)
    requires edges != [] && Tight(f, edges, 0) && ClosedUpTo(f, edges[0], 0, |edges[0]|)
    ensures forall e: Edge | e.node == Leaf(leaf) :: Tight(f, edges[0 := edges[0] + [e]], 0)
  {
  }

  lemma NewTight(f: Fill, edges: Edges, n: nat)
    requires Tight(f, edges, |edges|) && Needed(f, |edges|, n) && (edges != [] ==> Deep(f, |edges| - 1, n))
    ensures Tight(f, edges + [[]], |edges|) && Needed(f, |edges| + 1, n)
    ensures ClosedUpTo(f, (edges + [[]])[|edges|], |edges|, 0)
  {
  }

  lemma IndexTight(f: Fill, edges: Edges, h: nat, addr: Addr, c: Child, loose: bool)
    requires 0 < h < |edges| && Tight(f, edges, h) && ClosedUpTo(f, edges[h], h, |edges[h]|)
    requires loose || Filled(f, c.tree, h - 1)
    ensures TightAbove(f, edges[h := edges[h] + [WithChild(Edge(addr, Index([]), ZERO), c)]], h, loose)
  {
    hide Filled;
  }

  lemma TightAgain(f: Fill, edges: Edges, h: nat)
    requires h < |edges|
    ensures TightAbove(f, edges, h, false) ==> Tight(f, edges, h)
  {
  }

  lemma TightLoosely(f: Fill, edges: Edges)
    requires edges != [] && edges[0] != [] && Tight(f, edges, 0)
    ensures TightAbove(f, edges, 0, true)
  {
    assert LevelTight(f, edges[0], 0);
  }

  lemma AboveOnly(f: Fill, edges: Edges, h: nat, loose: bool)
    requires h + 1 < |edges| && TightAbove(f, edges, h + 1, loose)
    ensures TightAbove(f, edges[h := []], h + 1, loose) && edges[h + 1] != []
  {
  }

  lemma TightBelow(f: Fill, edges: Edges, h: nat)
    requires h + 1 < |edges| && edges[h] == [] && TightAbove(f, edges, h + 1, false)
    ensures Tight(f, edges, h) && ClosedUpTo(f, edges[h], h, 0)
  {
  }

  lemma TightFrom(f: Fill, edges: Edges, h: nat)
    requires Tight(f, edges, h)
    ensures Tight(f, edges, h + 1)
  {
  }

  lemma NoneClosed(f: Fill, h: nat)
    ensures ClosedUpTo(f, [], h, 0)
  {
  }

  /* ---- Levels are needed ---- */

  /** What the first node of a level holds, and what the others hold. */
  lemma FirstOfLevel(edges: Edges, h: nat)
    requires h < |edges| && edges[h] != [] && LevelsOk(edges, h)
    ensures |Tuples(Leaves(edges[h][0].node))| + (|edges[h]| - 1) <= |Tuples(LeavesFrom(edges, h))|
  {
    hide LeavesFrom, Leaves, Tuples;
    LevelsFrom(edges, h);
    FirstOf(edges[h], h);
    TuplesConcat(LeavesFrom(edges, h + 1), LevelLeaves(edges[h]));
  }

  lemma {:induction false} FirstOf(level: seq<Edge>, h: nat)
    requires level != [] && LevelOk(level, h)
    ensures |Tuples(Leaves(level[0].node))| + (|level| - 1) <= |Tuples(LevelLeaves(level))|
  {
    hide Leaves, Tuples, Packed;
    var n := |level| - 1;
    if n == 0 {
      LevelLeavesOne(level[0]);
      assert level == [level[0]];
    } else {
      FirstOf(level[..n], h);
      assert EdgeOk(level[n], h);
      FirstKeyIsFirst(level[n].node, h);
      TuplesConcat(LevelLeaves(level[..n]), Leaves(level[n].node));
    }
  }

  lemma ClosedIsDeep(f: Fill, edges: Edges, h: nat, c: Child, n: nat)
    requires h < |edges| && edges[h] != [] && LevelsOk(edges, h) && ClosedUpTo(f, edges[h], h, |edges[h]|)
    requires ChildOk(c) && |Tuples(LeavesFrom(edges, h) + Leaves(c.tree))| <= n
    ensures Deep(f, h, n) && |Tuples(LeavesFrom(edges, h))| <= n
  {
    hide LeavesFrom, Leaves, Tuples, Capacity;
    ClosedAt(f, edges[h], h, |edges[h]|, 0);
    FilledHolds(f, edges[h][0].node, h);
    FirstOfLevel(edges, h);
    TuplesConcat(LeavesFrom(edges, h), Leaves(c.tree));
  }

  lemma ClosedLeafIsDeep(f: Fill, edges: Edges, n: nat)
    requires edges != [] && edges[0] != [] && LevelsOk(edges, 0) && ClosedUpTo(f, edges[0], 0, |edges[0]|)
    requires |Tuples(LeavesFrom(edges, 0))| < n
    ensures Deep(f, 0, n)
  {
    hide LeavesFrom, Leaves, Tuples, Capacity;
    ClosedAt(f, edges[0], 0, |edges[0]|, 0);
    FilledHolds(f, edges[0][0].node, 0);
    FirstOfLevel(edges, 0);
  }

  lemma LinkIsNeeded(f: Fill, edges: Edges, h: nat, n: nat)
    requires h < |edges| && LevelsOk(edges, h) && TightAbove(f, edges, h, true) && Needed(f, |edges|, n)
    requires |Tuples(LeavesFrom(edges, h))| == n && (h < |edges| - 1 || 1 < |edges[h]|)
    ensures Deep(f, h, n) && Tight(f, edges, h + 1) && ClosedUpTo(f, edges[h], h, |edges[h]| - 1)
  {
    hide LeavesFrom, Leaves, Tuples, Capacity, Filled;
    if h == |edges| - 1 {
      ClosedAt(f, edges[h], h, |edges[h]| - 1, 0);
      FilledHolds(f, edges[h][0].node, h);
      FirstOfLevel(edges, h);
    }
  }

  lemma StartsEmpty()
    ensures LeavesFrom([], 0) == [] && Tuples([]) == [] && LevelsOk([], 0) && Whole([])
  {
  }

  lemma PrefixCountable(s: seq<Tuple>, i: nat)
    requires Countable(s) && i < |s|
    ensures Countable(s[..i] + [s[i]])
  {
    hide Countable;
    assert s == s[..i + 1] + s[i + 1..] && s[..i + 1] == s[..i] + [s[i]];
    CountableParts(s[..i + 1], s[i + 1..]);
  }

  /** The leaves form one chain that starts and ends nowhere else. */
  ghost predicate Whole(leaves: seq<LeafNode>) {
    Chained(leaves) && (leaves != [] ==> leaves[0].prev == NO_ADDR && leaves[|leaves| - 1].next == NO_ADDR)
  }

  function WithTuple(e: Edge, t: Tuple): Edge
    requires e.node.Leaf?
  {
    Edge(e.addr, Leaf(e.node.leaf.(entries := e.node.leaf.entries + [t])),
         Stats(e.stats.numKvs + 1, e.stats.keyBytes + t.keyBytes, e.stats.messageBytes + |t.msg.data|))
  }

  function Linked(e: Edge, next: Addr): Edge
    requires e.node.Leaf?
  {
    Edge(e.addr, Leaf(e.node.leaf.(next := next)), e.stats)
  }

  lemma LastIsLeaf(edges: Edges)
    requires edges != [] && edges[0] != [] && LevelsOk(edges, 0)
    ensures var e := edges[0][|edges[0]| - 1]; e.node.Leaf? && EdgeOk(e, 0)
    ensures LeavesFrom(edges, 0) != []
    ensures LeavesFrom(edges, 0) == LeavesFrom(edges, 1) + LevelLeaves(edges[0][..|edges[0]| - 1])
                                    + [edges[0][|edges[0]| - 1].node.leaf]
  {
    hide LeavesFrom;
    LevelsFrom(edges, 0);
    var last := |edges[0]| - 1;
    var e := edges[0][last];
    assert EdgeOk(e, 0);
    LevelLeavesLast(edges[0]);
    assert LeavesFrom(edges, 1) + (LevelLeaves(edges[0][..last]) + [e.node.leaf])
        == LeavesFrom(edges, 1) + LevelLeaves(edges[0][..last]) + [e.node.leaf];
  }

  /** The last leaf of level 0 replaced by another. */
  lemma LastLeafReplaced(edges: Edges, e': Edge)
    requires edges != [] && edges[0] != [] && LevelsOk(edges, 0) && e'.node.Leaf? && EdgeOk(e', 0)
    ensures var last := |edges[0]| - 1; var edges' := edges[0 := edges[0][last := e']];
      LevelsOk(edges', 0) && LeavesFrom(edges', 0)
                             == LeavesFrom(edges, 0)[..|LeavesFrom(edges, 0)| - 1] + [e'.node.leaf]
    ensures LeavesFrom(edges, 0) != []
  {
    hide LeavesFrom, LevelLeaves, EdgeOk;
    var last := |edges[0]| - 1;
    var edges' := edges[0 := edges[0][last := e']];
    LastIsLeaf(edges);
    LevelsFrom(edges, 0);
    LevelReplaced(edges, edges', 0);
    LastIsLeaf(edges');
    assert edges'[0][..last] == edges[0][..last];
    LeavesFromSame(edges, edges', 1);
  }

  lemma AppendTuple(edges: Edges, t: Tuple)
    requires edges != [] && edges[0] != [] && LevelsOk(edges, 0) && Whole(LeavesFrom(edges, 0))
    ensures edges[0][|edges[0]| - 1].node.Leaf?
    ensures var last := |edges[0]| - 1; var edges' := edges[0 := edges[0][last := WithTuple(edges[0][last], t)]];
      && LevelsOk(edges', 0) && Whole(LeavesFrom(edges', 0))
      && Tuples(LeavesFrom(edges', 0)) == Tuples(LeavesFrom(edges, 0)) + [t]
  {
    hide LeavesFrom, LevelsOk, Tuples, Totals, LevelLeaves;
    var last := |edges[0]| - 1;
    LastIsLeaf(edges);
    var e := edges[0][last];
    var s := e.node.leaf.entries;
    TuplesOfLeaf(e.node.leaf);
    TuplesOfLeaf(WithTuple(e, t).node.leaf);
    TotalsNext(s, t);
    LastLeafReplaced(edges, WithTuple(e, t));
    var all := LeavesFrom(edges, 0);
    var before := all[..|all| - 1];
    assert all == before + [e.node.leaf];
    TuplesConcat(before, [e.node.leaf]);
    TuplesConcat(before, [WithTuple(e, t).node.leaf]);
    assert Tuples(before) + (s + [t]) == (Tuples(before) + s) + [t];
  }

  lemma LinkNext(edges: Edges, addr: Addr)
    requires edges != [] && edges[0] != [] && LevelsOk(edges, 0)
    ensures edges[0][|edges[0]| - 1].node.Leaf? && LeavesFrom(edges, 0) != []
    ensures var last := |edges[0]| - 1; var edges' := edges[0 := edges[0][last := Linked(edges[0][last], addr)]];
      LevelsOk(edges', 0) && LeavesFrom(edges', 0) == LastLinked(LeavesFrom(edges, 0), addr)
    ensures var all := LeavesFrom(edges, 0); all[|all| - 1] == edges[0][|edges[0]| - 1].node.leaf
  {
    hide LeavesFrom, LevelsOk, Tuples, Totals, LevelLeaves;
    LastIsLeaf(edges);
    var e := edges[0][|edges[0]| - 1];
    TuplesOfLeaf(e.node.leaf);
    TuplesOfLeaf(Linked(e, addr).node.leaf);
    LastLeafReplaced(edges, Linked(e, addr));
  }

  function LastLinked(leaves: seq<LeafNode>, addr: Addr): seq<LeafNode>
    requires leaves != []
  {
    leaves[..|leaves| - 1] + [leaves[|leaves| - 1].(next := addr)]
  }

  lemma SameTuples(leaves: seq<LeafNode>, addr: Addr)
    requires leaves != []
    ensures Tuples(LastLinked(leaves, addr)) == Tuples(leaves)
  {
    var n := |leaves| - 1;
    assert LastLinked(leaves, addr)[..n] == leaves[..n];
  }

  lemma AppendLeaf(edges: Edges, leaf: LeafNode)
    requires edges != [] && LevelsOk(edges, 0) && |leaf.entries| == 1
    ensures var edges' := edges[0 := edges[0] + [Edge(leaf.addr, Leaf(leaf), Of(leaf.entries[0]))]];
      && LevelsOk(edges', 0) && LeavesFrom(edges', 0) == LeavesFrom(edges, 0) + [leaf]
      && Tuples(LeavesFrom(edges', 0)) == Tuples(LeavesFrom(edges, 0)) + leaf.entries
  {
    hide LeavesFrom, LevelLeaves, Tuples, Totals;
    var e := Edge(leaf.addr, Leaf(leaf), Of(leaf.entries[0]));
    var edges' := edges[0 := edges[0] + [e]];
    TuplesOfLeaf(leaf);
    TotalsNone();
    TotalsNext([], leaf.entries[0]);
    assert [] + [leaf.entries[0]] == leaf.entries;
    LevelsFrom(edges, 0);
    LevelReplaced(edges, edges', 0);
    LevelLeavesConcat(edges[0], [e]);
    LevelLeavesOne(e);
    assert LeavesFrom(edges, 1) + (LevelLeaves(edges[0]) + [leaf])
      == LeavesFrom(edges, 1) + LevelLeaves(edges[0]) + [leaf];
    TuplesConcat(LeavesFrom(edges, 0), [leaf]);
  }

  lemma WholeAppended(leaves: seq<LeafNode>, leaf: LeafNode)
    requires leaves != [] && Whole(leaves) && leaf.prev == leaves[|leaves| - 1].addr && leaf.next == NO_ADDR
    ensures Whole(LastLinked(leaves, leaf.addr) + [leaf])
  {
  }

  lemma FirstLeaf(leaf: LeafNode)
    requires leaf.prev == NO_ADDR && leaf.next == NO_ADDR
    ensures Whole([] + [leaf]) && Tuples([]) == []
  {
  }

  lemma EmptyLevel(edges: Edges, h: nat)
    requires h + 1 < |edges| && LevelsOk(edges, h) && edges[h] == []
    ensures LevelsOk(edges, h + 1) && LeavesFrom(edges, h + 1) == LeavesFrom(edges, h)
  {
    LevelLeavesNone();
    assert LeavesFrom(edges, h) == LeavesFrom(edges, h + 1) + [];
  }

  lemma TopLevel(edges: Edges, h: nat)
    requires h == |edges| - 1 && |edges[h]| == 1 && LevelsOk(edges, h)
    ensures Packed(edges[h][0].node, h) && Leaves(edges[h][0].node) == LeavesFrom(edges, h)
  {
    assert LeavesFrom(edges, h + 1) == [];
    LevelLeavesOne(edges[h][0]);
    assert edges[h] == [edges[h][0]];
    assert EdgeOk(edges[h][0], h);
  }

  function WithChild(e: Edge, c: Child): Edge
    requires e.node.Index?
  {
    Edge(e.addr, Index(e.node.children + [c]), Accumulated(e.stats, c.stats))
  }

  lemma PackedHasFirst(t: Tree, height: nat)
    requires Packed(t, height)
    ensures match t case Leaf(leaf) => leaf.entries != [] case Index(children) => children != []
    ensures ChildOk(Child(FirstKey(t), Totals(Tuples(Leaves(t))), t))
  {
    FirstKeyIsFirst(t, height);
  }

  lemma LevelsFrom(edges: Edges, h: nat)
    requires LevelsOk(edges, h) && h < |edges|
    ensures LevelsOk(edges, h + 1) && LevelOk(edges[h], h)
    ensures LeavesFrom(edges, h) == LeavesFrom(edges, h + 1) + LevelLeaves(edges[h])
  {
  }

  lemma LevelLeavesNone()
    ensures LevelLeaves([]) == []
  {
  }

  lemma NewLevel(edges: Edges)
    ensures LevelsOk(edges + [[]], |edges|) && LeavesFrom(edges + [[]], |edges|) == LeavesFrom(edges, |edges|) == []
  {
    var e := edges + [[]];
    assert LeavesFrom(e, |edges| + 1) == [];
    LevelLeavesNone();
    assert e[|edges|] == [];
  }

  lemma CountableTuples(a: seq<LeafNode>, b: seq<LeafNode>)
    requires Countable(Tuples(a + b))
    ensures Countable(Tuples(a)) && Countable(Tuples(b)) && Tuples(a + b) == Tuples(a) + Tuples(b)
    ensures Accumulated(Totals(Tuples(a)), Totals(Tuples(b))) == Totals(Tuples(a + b))
  {
    TuplesConcat(a, b);
    CountableParts(Tuples(a), Tuples(b));
  }

  /** An index with one more packed child, and the statistics to match. */
  lemma GrownIndex(e: Edge, c: Child, h: nat)
    requires h > 0 && e.node.Index? && (e.node.children != [] ==> Packed(e.node, h))
    requires e.stats == Totals(Tuples(Leaves(e.node))) && ChildOk(c) && Packed(c.tree, h - 1)
    requires Countable(Tuples(Leaves(e.node) + Leaves(c.tree)))
    ensures EdgeOk(WithChild(e, c), h) && Leaves(WithChild(e, c).node) == Leaves(e.node) + Leaves(c.tree)
  {
    hide Totals, Tuples, Countable;
    LeavesOfConcat(e.node.children, c);
    CountableTuples(Leaves(e.node), Leaves(c.tree));
  }

  lemma {:induction false} CountableSuffix(a: seq<LeafNode>, b: seq<LeafNode>, c: seq<LeafNode>)
    requires Countable(Tuples(a + b + c))
    ensures Countable(Tuples(b + c))
  {
    assert a + b + c == a + (b + c);
    CountableTuples(a, b + c);
  }

  lemma AppendChild(edges: Edges, h: nat, c: Child)
    requires 0 < h < |edges| && edges[h] != [] && LevelsOk(edges, h) && ChildOk(c) && Packed(c.tree, h - 1)
    requires Countable(Tuples(LeavesFrom(edges, h) + Leaves(c.tree)))
    ensures edges[h][|edges[h]| - 1].node.Index?
    ensures var last := |edges[h]| - 1;
      var edges' := edges[h := edges[h][last := WithChild(edges[h][last], c)]];
      LevelsOk(edges', h) && LeavesFrom(edges', h) == LeavesFrom(edges, h) + Leaves(c.tree)
  {
    hide Totals, Tuples, Countable, Leaves, Packed, LeavesFrom, LevelLeaves;
    var last := |edges[h]| - 1;
    var e := edges[h][last];
    LevelsFrom(edges, h);
    assert EdgeOk(e, h);
    PackedIsIndex(e.node, h);
    LevelLeavesLast(edges[h]);
    var upper, before := LeavesFrom(edges, h + 1), LevelLeaves(edges[h][..last]);
    assert LeavesFrom(edges, h) + Leaves(c.tree) == (upper + before) + Leaves(e.node) + Leaves(c.tree);
    CountableSuffix(upper + before, Leaves(e.node), Leaves(c.tree));
    GrownIndex(e, c, h);
    var edges' := edges[h := edges[h][last := WithChild(e, c)]];
    LeavesFromSame(edges, edges', h + 1);
    LevelReplaced(edges, edges', h);
    LevelLeavesLast(edges'[h]);
    assert edges'[h][..last] == edges[h][..last];
  }

  lemma PackedIsIndex(t: Tree, h: nat)
    requires Packed(t, h) && h > 0
    ensures t.Index? && t.children != []
  {
  }

  lemma LevelLeavesLast(level: seq<Edge>)
    requires level != []
    ensures LevelLeaves(level) == LevelLeaves(level[..|level| - 1]) + Leaves(level[|level| - 1].node)
  {
  }

  lemma LevelReplaced(edges: Edges, edges': Edges, h: nat)
    requires LevelsOk(edges, h) && h < |edges| == |edges'| && LevelOk(edges'[h], h)
    requires forall k: nat | h < k < |edges| :: edges'[k] == edges[k]
    ensures LevelsOk(edges', h) && LeavesFrom(edges', h) == LeavesFrom(edges, h + 1) + LevelLeaves(edges'[h])
  {
    hide EdgeOk, LevelLeaves;
    LeavesFromSame(edges, edges', h + 1);
  }

  lemma AppendIndex(edges: Edges, h: nat, addr: Addr, c: Child)
    requires 0 < h < |edges| && LevelsOk(edges, h) && ChildOk(c) && Packed(c.tree, h - 1)
    requires Countable(Tuples(Leaves(c.tree)))
    ensures var edges' := edges[h := edges[h] + [WithChild(Edge(addr, Index([]), ZERO), c)]];
      LevelsOk(edges', h) && LeavesFrom(edges', h) == LeavesFrom(edges, h) + Leaves(c.tree)
  {
    hide Totals, Tuples, Countable, Leaves, Packed, LeavesFrom, LevelLeaves;
    var blank := Edge(addr, Index([]), ZERO);
    EmptyIndex();
    assert Leaves(Index([])) + Leaves(c.tree) == Leaves(c.tree);
    GrownIndex(blank, c, h);
    var edges' := edges[h := edges[h] + [WithChild(blank, c)]];
    LevelsFrom(edges, h);
    LevelReplaced(edges, edges', h);
    LevelLeavesConcat(edges[h], [WithChild(blank, c)]);
    LevelLeavesOne(WithChild(blank, c));
  }

  lemma EmptyIndex()
    ensures Leaves(Index([])) == [] && Totals(Tuples([])) == ZERO
  {
  }

  lemma LinkStep(upper: seq<LeafNode>, level: seq<Edge>, i: nat, h: nat)
    requires i < |level| && LevelOk(level, h) && Countable(Tuples(upper + LevelLeaves(level)))
    ensures EdgeOk(level[i], h)
    ensures Countable(Tuples(upper + LevelLeaves(level[..i]) + Leaves(level[i].node)))
    ensures |Tuples(upper + LevelLeaves(level[..i]) + Leaves(level[i].node))| <= |Tuples(upper + LevelLeaves(level))|
    ensures upper + LevelLeaves(level[..i + 1]) == upper + LevelLeaves(level[..i]) + Leaves(level[i].node)
  {
    hide Totals, Tuples, Countable, Leaves, Packed;
    hide LevelLeaves, EdgeOk;
    LevelLeavesLast(level[..i + 1]);
    assert level[..i + 1][..i] == level[..i] && level[..i + 1][i] == level[i];
    LevelLeavesConcat(level[..i + 1], level[i + 1..]);
    assert level == level[..i + 1] + level[i + 1..];
    assert upper + (LevelLeaves(level[..i]) + Leaves(level[i].node))
        == upper + LevelLeaves(level[..i]) + Leaves(level[i].node);
    var front := upper + LevelLeaves(level[..i + 1]);
    assert upper + LevelLeaves(level) == front + LevelLeaves(level[i + 1..]);
    CountableTuples(front, LevelLeaves(level[i + 1..]));
  }

  lemma ExtentLinked(edges: Edges, h: nat)
    requires h + 1 < |edges| && LevelsOk(edges, h + 1)
    ensures LevelsOk(edges[h := []], h) && LeavesFrom(edges[h := []], h) == LeavesFrom(edges, h + 1)
  {
    var edges' := edges[h := []];
    LeavesFromSame(edges, edges', h + 1);
    LevelLeavesNone();
    assert LeavesFrom(edges', h) == LeavesFrom(edges', h + 1) + [];
  }
}
