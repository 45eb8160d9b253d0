/**
  The memtable tree: `btree_insert` from the root down (btree.c:1744-2053) and
  `btree_lookup_node` (btree.c:2072-2160), against one map from keys to messages.

  This is the tree of decoded nodes with what each operation does to it. When an operation
  is due is decided by the bytes of the pages, in BTreeInsert.
 */
module BTree {
  import opened Wrappers
  import opened DataConfig
  import opened MergeSpec
  import opened BTreeShape
  import opened BTreeUpdates

  /** `btree_find_pivot`. */
  method FindPivot(pivots: seq<Key>, target: Key) returns (idx: int, found: bool)
    requires Increasing(pivots)
    ensures -1 <= idx < |pivots|
    ensures forall i | 0 <= i <= idx :: pivots[i] <= target
    ensures forall i | idx < i < |pivots| :: target < pivots[i]
    ensures found <==> 0 <= idx && pivots[idx] == target
  {
    var lo, hi := 0, |pivots|;
    while lo < hi
      invariant 0 <= lo <= hi <= |pivots|
      invariant forall i | 0 <= i < lo :: pivots[i] < target
      invariant forall i | hi <= i < |pivots| :: target < pivots[i]
    {
      var mid := (lo + hi) / 2;
      if pivots[mid] == target {
        return mid, true;
      } else if pivots[mid] < target {
        lo := mid + 1;
      } else {
        hi := mid;
      }
    }
    return lo - 1, false;
  }

  /** `btree_find_pivot` for a target that may be negative infinity, which is below all pivots. */
  method FindTarget(pivots: seq<Key>, target: Target) returns (idx: int, found: bool)
    requires Increasing(pivots) && !target.PositiveInfinity?
    ensures -1 <= idx < |pivots|
    ensures target == NegativeInfinity ==> idx == -1 && !found
    ensures target.User? ==> forall i | 0 <= i <= idx :: pivots[i] <= target.key
    ensures target.User? ==> forall i | idx < i < |pivots| :: target.key < pivots[i]
  {
    if target == NegativeInfinity {
      return -1, false;
    }
    idx, found := FindPivot(pivots, target.key);
  }

  /** The node with these bounds is where a search for the target arrives. */
  predicate Covers(b: Bounds, target: Target) {
    match target
    case NegativeInfinity => b.lo.None?
    case User(k) => In(b, k)
    case PositiveInfinity => b.hi.None?
  }

  /** `btree_find_tuple`. */
  method FindTuple(entries: seq<Pair>, target: Key) returns (idx: int, found: bool)
    requires StrictlySorted(entries)
    ensures -1 <= idx < |entries|
    ensures forall i | 0 <= i <= idx :: entries[i].key <= target
    ensures forall i | idx < i < |entries| :: target < entries[i].key
    ensures found <==> 0 <= idx && entries[idx].key == target
    ensures Lookup(entries, target) == if found then Some(entries[idx].msg) else None
  {
    var lo, hi := 0, |entries|;
    while lo < hi
      invariant 0 <= lo <= hi <= |entries|
      invariant forall i | 0 <= i < lo :: entries[i].key < target
      invariant forall i | hi <= i < |entries| :: target < entries[i].key
    {
      var mid := (lo + hi) / 2;
      if entries[mid].key == target {
        LookupAt(entries, mid);
        return mid, true;
      } else if entries[mid].key < target {
        lo := mid + 1;
      } else {
        hi := mid;
      }
    }
    LookupMissing(entries, target);
    return lo - 1, false;
  }

  /** What a key maps to after one more message for it. */
  function Merge(cfg: Config, k: Key, older: Option<Message>, msg: Message): Message {
    match older case None => msg case Some(o) => MergeTuples(cfg, k, o, msg)
  }

  function Inserted(cfg: Config, m: map<Key, Message>, k: Key, msg: Message): map<Key, Message> {
    m[k := Merge(cfg, k, Get(m, k), msg)]
  }

  class Tree {
    const root: Addr
    var nodes: Nodes
    var nextFree: Addr
    ghost var bounds: map<Addr, Bounds>
    ghost var contents: map<Key, Message>

    ghost predicate Valid()
      reads this
    {
      && TreeOk(nodes, bounds, root) && Represents(nodes, bounds, contents)
      && nextFree != NO_ADDR && Unused(nodes, nextFree)
    }

    /** `btree_create`: the root is an empty leaf. */
    constructor ()
      ensures Valid() && contents == map[] && nodes == map[root := Leaf([], NO_ADDR, NO_ADDR)]
    {
      root := 1;
      nextFree := 2;
      nodes := map[1 := Leaf([], NO_ADDR, NO_ADDR)];
      bounds := map[1 := EVERYTHING];
      contents := map[];
    }

    /** `btree_alloc`: the address of a page no node uses. */
    method Alloc() returns (a: Addr)
      requires Valid()
      modifies this`nextFree
      ensures Valid() && a !in nodes && a != NO_ADDR && a < nextFree
    {
      hide TreeOk, Represents;
      a := nextFree;
      nextFree := nextFree + 1;
    }

    /** The node at `stopAtHeight` that is responsible for the target (`btree_lookup_node`). */
    method LookupNode(target: Target, stopAtHeight: nat) returns (a: Addr)
      requires Valid() && stopAtHeight <= Height(nodes[root])
      ensures a in nodes && Height(nodes[a]) == stopAtHeight && a in bounds && Covers(bounds[a], target)
    {
      hide Separate, Linked, Represents, In, NonEmpty, MinAtLeast, ChildOk, IndexOk;
      a := root;
      RootIn(nodes, bounds, root);
      RootCoversTarget(nodes, bounds, root, target);
      while Height(nodes[a]) > stopAtHeight
        invariant a in nodes && a in bounds && Covers(bounds[a], target) && stopAtHeight <= Height(nodes[a])
        decreases Height(nodes[a])
      {
        OkAt(nodes, bounds, a);
        PivotsIncrease(nodes, bounds, a);
        var n := nodes[a];
        var childIdx := |n.pivots| - 1;
        if !target.PositiveInfinity? {
          var idx, found := FindTarget(n.pivots, target);
          childIdx := if idx < 0 then 0 else idx;
        }
        ChildCoversTarget(nodes, bounds, a, childIdx, target);
        a := n.children[childIdx];
      }
    }

    /** `btree_lookup`. */
    method LookupMessage(target: Key) returns (result: Option<Message>)
      requires Valid()
      ensures result == Get(contents, target)
    {
      hide Separate, Linked, In, NonEmpty, Lookup;
      var a := LookupNode(User(target), 0);
      OkAt(nodes, bounds, a);
      var idx, found := FindTuple(nodes[a].entries, target);
      result := if found then Some(nodes[a].entries[idx].msg) else None;
    }

    /** `btree_grow_root`. */
    method GrowRoot() returns (c: Addr)
      requires Valid() && HasMinKey(nodes[root])
      modifies this`nodes, this`nextFree, this`bounds
      ensures Valid() && c !in old(nodes) && nodes == Grown(old(nodes), root, c)
    {
      hide TreeOk, Represents, Unused;
      c := Alloc();
      RootIn(nodes, bounds, root);
      GrowRootOk(nodes, bounds, root, contents, c);
      UnusedGrown(nodes, root, c, nextFree);
      bounds := bounds[c := EVERYTHING];
      nodes := Grown(nodes, root, c);
    }

    /** `btree_set_index_entry` on entry 0 of a leftmost index. */
    method SetMinPivot(a: Addr, k: Key)
      requires Valid() && a in nodes && nodes[a].Index? && a in bounds && In(bounds[a], k)
      requires nodes[a].pivots != [] && k < nodes[a].pivots[0] && ParentBelow(nodes, a, k)
      modifies this`nodes
      ensures Valid() && nodes == old(nodes)[a := WithMinPivot(old(nodes)[a], k)]
    {
      hide RootOk, Separate, Linked, Represents, ParentBelow;
      OkAt(nodes, bounds, a);
      SetMinPivotOk(nodes, bounds, root, contents, a, k);
      nodes := nodes[a := WithMinPivot(nodes[a], k)];
    }

    /** The logical part of `btree_split_child_index`. */
    method SplitChildIndex(p: Addr, ci: nat, t: nat, r: Addr)
      requires Valid() && r !in nodes && r != NO_ADDR && r < nextFree
      requires p in nodes && p in bounds && nodes[p].Index? && ci < |nodes[p].children| == |nodes[p].pivots|
      requires var a := nodes[p].children[ci];
        a in nodes && a in bounds && nodes[a].Index? && 0 < t < |nodes[a].pivots| == |nodes[a].children|
      modifies this`nodes, this`bounds
      ensures Valid()
      ensures var a := old(nodes)[p].children[ci]; var n := old(nodes)[a];
        && nodes == AfterSplit(old(nodes), p, ci, LeftIndex(n, t), RightIndex(n, t), n.pivots[t], r)
        && bounds == BoundsAfterSplit(old(bounds), a, n.pivots[t], r)
    {
      hide TreeOk, Represents, Unused;
      var a := nodes[p].children[ci];
      var n := nodes[a];
      SplitIndexOk(nodes, bounds, root, contents, p, ci, t, r);
      UnusedSplit(nodes, p, ci, LeftIndex(n, t), RightIndex(n, t), n.pivots[t], r, nextFree);
      bounds := BoundsAfterSplit(bounds, a, n.pivots[t], r);
      nodes := AfterSplit(nodes, p, ci, LeftIndex(n, t), RightIndex(n, t), n.pivots[t], r);
    }

    /** A leaf whose update fits, after defragmenting it or not. */
    method UpdateLeaf(a: Addr, ghost k: Key, ghost v: Message, entries': seq<Pair>)
      requires Valid() && a in nodes && nodes[a].Leaf? && a in bounds && In(bounds[a], k) && ParentBelow(nodes, a, k)
      requires PutResult(nodes[a].entries, entries', k, v)
      modifies this`nodes, this`contents
      ensures Valid() && contents == old(contents)[k := v]
      ensures nodes == old(nodes)[a := old(nodes)[a].(entries := entries')]
    {
      hide TreeOk, Represents, ParentBelow, PutResult, In, Unused;
      UpdateLeafOk(nodes, bounds, root, contents, a, entries', k, v);
      UnusedUpdated(nodes, a, nodes[a].(entries := entries'), nextFree);
      nodes := nodes[a := nodes[a].(entries := entries')];
      contents := contents[k := v];
    }

    /** The logical part of `btree_split_child_leaf`: update, cut at t, relink. */
    method SplitChildLeaf(p: Addr, ci: nat, ghost k: Key, ghost v: Message, entries': seq<Pair>, t: nat, r: Addr)
      requires Valid() && r !in nodes && r != NO_ADDR && r < nextFree
      requires p in nodes && p in bounds && nodes[p].Index? && ci < |nodes[p].children| == |nodes[p].pivots|
      requires var a := nodes[p].children[ci];
        && a in nodes && nodes[a].Leaf? && a in bounds && In(bounds[a], k) && ParentBelow(nodes, a, k)
        && PutResult(nodes[a].entries, entries', k, v) && 0 < t < |entries'|
      modifies this`nodes, this`bounds, this`contents
      ensures Valid() && contents == old(contents)[k := v]
      ensures var a := old(nodes)[p].children[ci]; var n := old(nodes)[a].(entries := entries');
        var split := AfterSplit(old(nodes), p, ci, LeftLeaf(n, t, r), RightLeaf(n, t, a), entries'[t].key, r);
        nodes == Relinked(split, n.next, r)
    {
      hide TreeOk, Represents, ParentBelow, PutResult, In, Unused;
      var a := nodes[p].children[ci];
      UpdateLeafOk(nodes, bounds, root, contents, a, entries', k, v);
      ghost var updated := nodes[a := nodes[a].(entries := entries')];
      UnusedUpdated(nodes, a, updated[a], nextFree);
      SplitLeafOk(updated, bounds, root, contents[k := v], p, ci, t, r);
      var n := nodes[a].(entries := entries');
      var pivot := entries'[t].key;
      var left, right := LeftLeaf(n, t, r), RightLeaf(n, t, a);
      UnusedSplit(updated, p, ci, left, right, pivot, r, nextFree);
      UnusedRelinked(AfterSplit(updated, p, ci, left, right, pivot, r), n.next, r, nextFree);
      assert AfterSplit(updated, p, ci, left, right, pivot, r) == AfterSplit(nodes, p, ci, left, right, pivot, r);
      nodes := Relinked(AfterSplit(nodes, p, ci, left, right, pivot, r), n.next, r);
      bounds := BoundsAfterSplit(bounds, a, pivot, r);
      contents := contents[k := v];
    }

    /** Where the search for k goes on from the index p. */
    ghost predicate Leads(p: Addr, ci: nat, k: Key)
      reads this
    {
      && p in nodes && p in bounds && nodes[p].Index? && In(bounds[p], k)
      && ci < |nodes[p].pivots| == |nodes[p].children|
      && nodes[p].pivots[0] <= k && nodes[p].pivots[ci] <= k
      && (ci + 1 < |nodes[p].pivots| ==> k < nodes[p].pivots[ci + 1])
    }

    /** `btree_split_child_index`, with the half the search goes on in. */
    method SplitAndChoose(parent: Addr, childIdx: nat, t: nat, nextIdx: nat, k: Key, r: Addr)
      returns (newChild: Addr, newIdx: nat)
      requires Valid() && r !in nodes && r != NO_ADDR && r < nextFree
      requires Leads(parent, childIdx, k) && nodes[parent].height > 1
      requires Leads(nodes[parent].children[childIdx], nextIdx, k)
      requires 0 < t < |nodes[nodes[parent].children[childIdx]].pivots|
      modifies this`nodes, this`bounds
      ensures Valid() && Leads(newChild, newIdx, k)
      ensures Height(nodes[newChild]) + 1 == old(Height(nodes[parent]))
      ensures var a := old(nodes[parent].children[childIdx]); var n := old(nodes)[a];
        && nodes == AfterSplit(old(nodes), parent, childIdx, LeftIndex(n, t), RightIndex(n, t), n.pivots[t], r)
        && newChild == if nextIdx < t then a else r
    {
      hide TreeOk, Represents, In, ParentBelow, Unused, AfterSplit, BoundsAfterSplit;
      LeadsAt(nodes, bounds, root, parent, childIdx, k);
      var child := nodes[parent].children[childIdx];
      PivotsIncrease(nodes, bounds, child);
      ghost var n, was, wasBounds := nodes[child], nodes, bounds;
      SplitChildIndex(parent, childIdx, t, r);
      SplitViews(was, wasBounds, parent, childIdx, t, r);
      HalvesIn(wasBounds[child], n.pivots[t], k);
      if nextIdx < t {
        newChild, newIdx := child, nextIdx;
      } else {
        newChild, newIdx := r, nextIdx - t;
      }
    }
  }

  /** All nodes lie below the next address the allocator hands out. */
  ghost predicate Unused(nodes: Nodes, nextFree: Addr) {
    forall a | a in nodes :: a < nextFree
  }

  lemma UnusedGrown(nodes: Nodes, root: Addr, c: Addr, nextFree: Addr)
    requires Unused(nodes, nextFree) && c < nextFree && root in nodes && HasMinKey(nodes[root])
    ensures Unused(Grown(nodes, root, c), nextFree)
  {
  }

  lemma UnusedUpdated(nodes: Nodes, a: Addr, n: Node, nextFree: Addr)
    requires Unused(nodes, nextFree) && a in nodes
    ensures Unused(nodes[a := n], nextFree)
  {
  }

  lemma UnusedSplit(nodes: Nodes, p: Addr, ci: nat, left: Node, right: Node, x: Key, r: Addr, nextFree: Addr)
    requires Unused(nodes, nextFree) && p in nodes && nodes[p].Index? && ci < |nodes[p].children| == |nodes[p].pivots|
    requires nodes[p].children[ci] in nodes && r < nextFree
    ensures Unused(AfterSplit(nodes, p, ci, left, right, x, r), nextFree)
  {
  }

  lemma UnusedRelinked(nodes: Nodes, next: Addr, r: Addr, nextFree: Addr)
    requires Unused(nodes, nextFree)
    ensures Unused(Relinked(nodes, next, r), nextFree)
  {
  }

  lemma RootIn(nodes: Nodes, bounds: map<Addr, Bounds>, root: Addr)
    requires TreeOk(nodes, bounds, root)
    ensures root in nodes && root in bounds && NodeOk(nodes, bounds, root)
  {
  }

  lemma RootCovers(nodes: Nodes, bounds: map<Addr, Bounds>, root: Addr, k: Key)
    requires TreeOk(nodes, bounds, root)
    ensures root in nodes && root in bounds && In(bounds[root], k)
  {
  }

  lemma RootCoversTarget(nodes: Nodes, bounds: map<Addr, Bounds>, root: Addr, target: Target)
    requires TreeOk(nodes, bounds, root)
    ensures root in bounds && Covers(bounds[root], target)
  {
  }

  /** The child a search picks covers the target. */
  lemma ChildCoversTarget(nodes: Nodes, bounds: map<Addr, Bounds>, a: Addr, i: nat, target: Target)
    requires NodeOk(nodes, bounds, a) && nodes[a].Index? && i < |nodes[a].pivots| && Covers(bounds[a], target)
    requires target.PositiveInfinity? ==> i == |nodes[a].pivots| - 1
    requires target.NegativeInfinity? ==> i == 0
    requires target.User? && i > 0 ==> nodes[a].pivots[i] <= target.key
    requires target.User? && i + 1 < |nodes[a].pivots| ==> target.key < nodes[a].pivots[i + 1]
    ensures |nodes[a].pivots| == |nodes[a].children|
    ensures var c := nodes[a].children[i];
      c in nodes && c in bounds && Height(nodes[c]) + 1 == Height(nodes[a]) && Covers(bounds[c], target)
  {
    assert ChildOk(nodes, bounds, nodes[a], bounds[a], i);
  }

  /** The child a search picks is responsible for the key. */
  lemma ChildCovers(nodes: Nodes, bounds: map<Addr, Bounds>, a: Addr, i: nat, k: Key)
    requires NodeOk(nodes, bounds, a) && nodes[a].Index? && i < |nodes[a].pivots| && In(bounds[a], k)
    requires i > 0 ==> nodes[a].pivots[i] <= k
    requires i + 1 < |nodes[a].pivots| ==> k < nodes[a].pivots[i + 1]
    ensures |nodes[a].pivots| == |nodes[a].children|
    ensures var c := nodes[a].children[i];
      c in nodes && c in bounds && Height(nodes[c]) + 1 == Height(nodes[a]) && In(bounds[c], k)
  {
    assert ChildOk(nodes, bounds, nodes[a], bounds[a], i);
  }

  /** What a split does to the three nodes it touches. */
  lemma SplitViews(nodes: Nodes, bounds: map<Addr, Bounds>, p: Addr, ci: nat, t: nat, r: Addr)
    requires SplitsIndex(nodes, bounds, p, ci, t, r) && nodes[p].children[ci] != p
    ensures var a := nodes[p].children[ci]; var n := nodes[a]; var x := n.pivots[t];
      var nodes', bounds' := AfterSplit(nodes, p, ci, LeftIndex(n, t), RightIndex(n, t), x, r),
        BoundsAfterSplit(bounds, a, x, r);
      && p in nodes' && nodes'[p].Index? && |nodes'[p].children| == |nodes[p].children| + 1 == |nodes'[p].pivots|
      && nodes'[p].pivots[0] == nodes[p].pivots[0]
      && nodes'[p].children[ci] == a && nodes'[p].children[ci + 1] == r
      && a in nodes' && a in bounds' && nodes'[a] == LeftIndex(n, t) && bounds'[a] == bounds[a].(hi := Some(x))
      && r in nodes' && r in bounds' && nodes'[r] == RightIndex(n, t) && bounds'[r] == bounds[a].(lo := Some(x))
  {
  }

  lemma HalvesIn(b: Bounds, x: Key, k: Key)
    requires In(b, k)
    ensures if k < x then In(b.(hi := Some(x)), k) else In(b.(lo := Some(x)), k)
  {
  }

  lemma RootBelow(nodes: Nodes, bounds: map<Addr, Bounds>, root: Addr, k: Key)
    requires TreeOk(nodes, bounds, root)
    ensures ParentBelow(nodes, root, k)
  {
    RootParentBelow(nodes, bounds, root, k);
  }

  lemma PivotsIncrease(nodes: Nodes, bounds: map<Addr, Bounds>, a: Addr)
    requires NodeOk(nodes, bounds, a) && nodes[a].Index?
    ensures Increasing(nodes[a].pivots) && 0 < |nodes[a].pivots| == |nodes[a].children|
  {
  }

  /** The leaf responsible for k knows all there is to know about it. */
  lemma LeafHolds(nodes: Nodes, bounds: map<Addr, Bounds>, root: Addr, m: map<Key, Message>, a: Addr, k: Key)
    requires TreeOk(nodes, bounds, root) && Represents(nodes, bounds, m)
    requires a in nodes && nodes[a].Leaf? && a in bounds && In(bounds[a], k)
    ensures StrictlySorted(nodes[a].entries) && Lookup(nodes[a].entries, k) == Get(m, k)
  {
    OkAt(nodes, bounds, a);
  }

  lemma LeadsAt(nodes: Nodes, bounds: map<Addr, Bounds>, root: Addr, p: Addr, ci: nat, k: Key)
    requires TreeOk(nodes, bounds, root) && p in nodes && p in bounds && nodes[p].Index? && In(bounds[p], k)
    requires ci < |nodes[p].pivots| == |nodes[p].children| && nodes[p].pivots[0] <= k && nodes[p].pivots[ci] <= k
    requires ci + 1 < |nodes[p].pivots| ==> k < nodes[p].pivots[ci + 1]
    ensures nodes[p].height >= 1
    ensures var c := nodes[p].children[ci];
      && c in nodes && c in bounds && Height(nodes[c]) + 1 == nodes[p].height && In(bounds[c], k)
      && ParentBelow(nodes, c, k) && NodeOk(nodes, bounds, c)
  {
    hide In, ParentBelow, Linked, Separate;
    OkAt(nodes, bounds, p);
    ChildCovers(nodes, bounds, p, ci, k);
    ParentIsBelow(nodes, bounds, p, ci, k);
    OkAt(nodes, bounds, nodes[p].children[ci]);
  }
}
