/** The changes `btree_insert` makes to a tree, one by one, and that each keeps the invariant. */
module BTreeUpdates {
  import opened Wrappers
  import opened DataConfig
  import opened MergeSpec
  import opened BTreeShape

  /** Every parent that has this node as its child 0 has a smallest pivot of at most k. */
  ghost predicate ParentBelow(nodes: Nodes, a: Addr, k: Key) {
    forall p | p in nodes && nodes[p].Index? && nodes[p].children != [] && nodes[p].children[0] == a ::
      nodes[p].pivots != [] && nodes[p].pivots[0] <= k
  }

  /** One known parent settles it, because there is no other. */
  lemma ParentIsBelow(nodes: Nodes, bounds: map<Addr, Bounds>, p: Addr, i: nat, k: Key)
    requires AllNodesOk(nodes, bounds) && Separate(nodes, bounds) && p in nodes && nodes[p].Index?
    requires i < |nodes[p].children| && nodes[p].pivots != [] && nodes[p].pivots[0] <= k
    ensures ParentBelow(nodes, nodes[p].children[i], k)
  {
    hide AllNodesOk, Separate;
    forall q | q in nodes && nodes[q].Index? && nodes[q].children != [] && nodes[q].children[0] == nodes[p].children[i]
      ensures nodes[q].pivots != [] && nodes[q].pivots[0] <= k
    {
      UniqueParent(nodes, bounds, p, i, q, 0);
    }
  }

  lemma RootParentBelow(nodes: Nodes, bounds: map<Addr, Bounds>, root: Addr, k: Key)
    requires RootOk(nodes, bounds, root) && AllNodesOk(nodes, bounds)
    ensures ParentBelow(nodes, root, k)
  {
    hide AllNodesOk, RootOk;
    forall q | q in nodes && nodes[q].Index? && nodes[q].children != [] ensures nodes[q].children[0] != root {
      RootHasNoParent(nodes, bounds, root, q, 0);
    }
  }

  /* ---- Replacing one node by another of the same level ---- */

  /** Parents that held node a can hold n in its place. */
  ghost predicate StillHeld(nodes: Nodes, bounds: map<Addr, Bounds>, a: Addr, n: Node) {
    && a in nodes && Height(n) == Height(nodes[a]) && n.Leaf? == nodes[a].Leaf?
    && forall p | p in nodes && nodes[p].Index? && nodes[p].children != [] && nodes[p].children[0] == a
                  && nodes[p].pivots != [] && MinAtLeast(nodes[a], nodes[p].pivots[0]) ::
         MinAtLeast(n, nodes[p].pivots[0])
  }

  lemma ReplacedChildOk(nodes: Nodes, bounds: map<Addr, Bounds>, a: Addr, n: Node, b: Addr, i: nat)
    requires StillHeld(nodes, bounds, a, n) && b in nodes && b in bounds && nodes[b].Index?
    requires i < |nodes[b].children| == |nodes[b].pivots| && ChildOk(nodes, bounds, nodes[b], bounds[b], i)
    ensures ChildOk(nodes[a := n], bounds, nodes[b], bounds[b], i)
  {
    hide ChildBounds, MinAtLeast;
    if i == 0 && nodes[b].children[0] == a {
      assert MinAtLeast(n, nodes[b].pivots[0]);
    }
  }

  lemma ReplacedAllOk(nodes: Nodes, bounds: map<Addr, Bounds>, a: Addr, n: Node)
    requires AllNodesOk(nodes, bounds) && StillHeld(nodes, bounds, a, n) && NodeOk(nodes[a := n], bounds, a)
    ensures AllNodesOk(nodes[a := n], bounds)
  {
    hide ChildOk, StillHeld, LeafOk, IndexOk, NonEmpty;
    var nodes' := nodes[a := n];
    forall b | b in nodes' ensures NodeOk(nodes', bounds, b) {
      if b != a {
        OkAt(nodes, bounds, b);
        if nodes[b].Index? {
          var nb := nodes[b];
          IndexSizes(nb.height, nb.pivots, nb.children, bounds[b]);
          forall i: nat | i < |nb.children| ensures ChildOk(nodes', bounds, nb, bounds[b], i) {
            ReplacedChildOk(nodes, bounds, a, n, b, i);
          }
        }
      }
    }
  }

  lemma ReplacedRest(nodes: Nodes, bounds: map<Addr, Bounds>, root: Addr, a: Addr, n: Node)
    requires RootOk(nodes, bounds, root) && Separate(nodes, bounds) && StillHeld(nodes, bounds, a, n)
    ensures RootOk(nodes[a := n], bounds, root) && Separate(nodes[a := n], bounds)
  {
    hide Apart, MinAtLeast;
  }

  /* ---- Lowering the smallest pivot of a leftmost index ---- */

  function WithMinPivot(n: Node, k: Key): Node
    requires n.Index? && n.pivots != []
  {
    n.(pivots := n.pivots[0 := k])
  }

  lemma MinPivotNodeOk(nodes: Nodes, bounds: map<Addr, Bounds>, a: Addr, k: Key)
    requires NodeOk(nodes, bounds, a) && nodes[a].Index? && nodes[a].pivots != []
    requires bounds[a].lo.None? && In(bounds[a], k) && k <= nodes[a].pivots[0]
    requires forall i: nat | i < |nodes[a].children| :: nodes[a].children[i] != a
    ensures NodeOk(nodes[a := WithMinPivot(nodes[a], k)], bounds, a)
  {
    hide NonEmpty;
    var n, n' := nodes[a], WithMinPivot(nodes[a], k);
    var nodes' := nodes[a := n'];
    forall i: nat | i < |n.children| ensures ChildOk(nodes', bounds, n', bounds[a], i) {
      assert ChildOk(nodes, bounds, n, bounds[a], i);
    }
  }

  lemma NotOwnChild(nodes: Nodes, bounds: map<Addr, Bounds>, a: Addr)
    requires NodeOk(nodes, bounds, a)
    ensures nodes[a].Index? ==> forall i: nat | i < |nodes[a].children| :: nodes[a].children[i] != a
  {
    if nodes[a].Index? {
      forall i: nat | i < |nodes[a].children| ensures nodes[a].children[i] != a {
        assert ChildOk(nodes, bounds, nodes[a], bounds[a], i);
      }
    }
  }

  lemma SameLeaves(nodes: Nodes, bounds: map<Addr, Bounds>, m: map<Key, Message>, a: Addr, n: Node)
    requires Linked(nodes, bounds) && Represents(nodes, bounds, m) && a in nodes && nodes[a].Index? && n.Index?
    ensures Linked(nodes[a := n], bounds) && Represents(nodes[a := n], bounds, m)
  {
    hide In;
    var nodes' := nodes[a := n];
    forall b | b in nodes' && nodes'[b].Leaf? ensures NextOk(nodes', bounds, b) && PrevOk(nodes', bounds, b) {
      assert NextOk(nodes, bounds, b) && PrevOk(nodes, bounds, b);
    }
  }

  lemma SetMinPivotOk(nodes: Nodes, bounds: map<Addr, Bounds>, root: Addr, m: map<Key, Message>, a: Addr, k: Key)
    requires TreeOk(nodes, bounds, root) && Represents(nodes, bounds, m) && a in nodes && nodes[a].Index?
    requires nodes[a].pivots != [] && bounds[a].lo.None? && In(bounds[a], k) && k <= nodes[a].pivots[0]
    requires ParentBelow(nodes, a, k)
    ensures TreeOk(nodes[a := WithMinPivot(nodes[a], k)], bounds, root)
    ensures Represents(nodes[a := WithMinPivot(nodes[a], k)], bounds, m)
  {
    hide RootOk, AllNodesOk, Separate, Linked, Represents, NodeOk, In;
    var n := WithMinPivot(nodes[a], k);
    OkAt(nodes, bounds, a);
    NotOwnChild(nodes, bounds, a);
    MinPivotNodeOk(nodes, bounds, a, k);
    ReplacedAllOk(nodes, bounds, a, n);
    ReplacedRest(nodes, bounds, root, a, n);
    SameLeaves(nodes, bounds, m, a, n);
  }

  /* ---- Updating a leaf ---- */

  /** The entries with key k set to v. */
  ghost predicate PutResult(s: seq<Pair>, s': seq<Pair>, k: Key, v: Message) {
    && StrictlySorted(s') && s' != []
    && (forall j :: Lookup(s', j) == if j == k then Some(v) else Lookup(s, j))
    && (forall i | 0 <= i < |s'| :: s'[i].key == k || exists j :: 0 <= j < |s| && s[j].key == s'[i].key)
    && (s != [] ==> s'[0].key == if k < s[0].key then k else s[0].key)
  }

  lemma PutLeafOk(s: seq<Pair>, s': seq<Pair>, k: Key, v: Message, b: Bounds)
    requires LeafOk(s, b) && PutResult(s, s', k, v) && In(b, k)
    ensures LeafOk(s', b)
  {
  }

  lemma UpdatedLinked(nodes: Nodes, bounds: map<Addr, Bounds>, a: Addr, s': seq<Pair>)
    requires Linked(nodes, bounds) && a in nodes && nodes[a].Leaf?
    ensures Linked(nodes[a := nodes[a].(entries := s')], bounds)
  {
    var nodes' := nodes[a := nodes[a].(entries := s')];
    forall b | b in nodes' && nodes'[b].Leaf? ensures NextOk(nodes', bounds, b) && PrevOk(nodes', bounds, b) {
      assert NextOk(nodes, bounds, b) && PrevOk(nodes, bounds, b);
    }
  }

  lemma InOnlyOne(a: Bounds, b: Bounds, k: Key)
    requires Apart(a, b) && In(a, k)
    ensures !In(b, k)
  {
  }

  lemma UpdatedRepresents(nodes: Nodes, bounds: map<Addr, Bounds>, m: map<Key, Message>, a: Addr,
      s': seq<Pair>, k: Key, v: Message)
    requires Represents(nodes, bounds, m) && Separate(nodes, bounds) && a in nodes && nodes[a].Leaf?
    requires In(bounds[a], k) && PutResult(nodes[a].entries, s', k, v)
    ensures Represents(nodes[a := nodes[a].(entries := s')], bounds, m[k := v])
  {
    hide In, Apart, Lookup, StrictlySorted;
    var nodes' := nodes[a := nodes[a].(entries := s')];
    forall b, j | b in nodes' && nodes'[b].Leaf? && In(bounds[b], j)
      ensures Lookup(nodes'[b].entries, j) == Get(m[k := v], j)
    {
      assert Lookup(nodes[b].entries, j) == Get(m, j);
      if b != a && j == k {
        ApartAt(nodes, bounds, a, b);
        InOnlyOne(bounds[a], bounds[b], k);
      }
    }
  }

  lemma UpdateLeafOk(nodes: Nodes, bounds: map<Addr, Bounds>, root: Addr, m: map<Key, Message>, a: Addr,
      s': seq<Pair>, k: Key, v: Message)
    requires TreeOk(nodes, bounds, root) && Represents(nodes, bounds, m) && a in nodes && nodes[a].Leaf?
    requires In(bounds[a], k) && PutResult(nodes[a].entries, s', k, v) && ParentBelow(nodes, a, k)
    ensures TreeOk(nodes[a := nodes[a].(entries := s')], bounds, root)
    ensures Represents(nodes[a := nodes[a].(entries := s')], bounds, m[k := v])
  {
    hide RootOk, AllNodesOk, Separate, Linked, Represents, LeafOk, In;
    var n := nodes[a].(entries := s');
    OkAt(nodes, bounds, a);
    PutLeafOk(nodes[a].entries, s', k, v, bounds[a]);
    UpdatedHeld(nodes, bounds, a, s', k, v);
    ReplacedAllOk(nodes, bounds, a, n);
    ReplacedRest(nodes, bounds, root, a, n);
    UpdatedLinked(nodes, bounds, a, s');
    UpdatedRepresents(nodes, bounds, m, a, s', k, v);
  }

  lemma UpdatedHeld(nodes: Nodes, bounds: map<Addr, Bounds>, a: Addr, s': seq<Pair>, k: Key, v: Message)
    requires a in nodes && nodes[a].Leaf? && ParentBelow(nodes, a, k) && PutResult(nodes[a].entries, s', k, v)
    ensures StillHeld(nodes, bounds, a, nodes[a].(entries := s'))
  {
    hide Lookup, StrictlySorted;
    var s := nodes[a].entries;
    if s == [] {
      assert s'[0].key == k;
    }
  }

  /* ---- Growing the root ---- */

  function MinKey(n: Node): Key
    requires if n.Leaf? then n.entries != [] else n.pivots != []
  {
    if n.Leaf? then n.entries[0].key else n.pivots[0]
  }

  predicate HasMinKey(n: Node) {
    if n.Leaf? then n.entries != [] else n.pivots != []
  }

  /** `btree_grow_root`: the old root moves to c, the root becomes an index with one child. */
  function Grown(nodes: Nodes, root: Addr, c: Addr): Nodes
    requires root in nodes && HasMinKey(nodes[root])
  {
    nodes[c := nodes[root]][root := Index(Height(nodes[root]) + 1, [MinKey(nodes[root])], [c])]
  }

  lemma GrowRootOk(nodes: Nodes, bounds: map<Addr, Bounds>, root: Addr, m: map<Key, Message>, c: Addr)
    requires TreeOk(nodes, bounds, root) && Represents(nodes, bounds, m) && HasMinKey(nodes[root])
    requires c !in nodes && c != NO_ADDR
    ensures TreeOk(Grown(nodes, root, c), bounds[c := EVERYTHING], root)
    ensures Represents(Grown(nodes, root, c), bounds[c := EVERYTHING], m)
  {
    hide AllNodesOk, Linked, Represents, NodeOk, Separate;
    var nodes', bounds' := Grown(nodes, root, c), bounds[c := EVERYTHING];
    forall b | b in nodes' ensures NodeOk(nodes', bounds', b) {
      GrownNodeOk(nodes, bounds, root, c, b);
    }
    assert AllNodesOk(nodes', bounds') by { AllOkIntro(nodes', bounds'); }
    GrownSeparate(nodes, bounds, root, c);
    GrownLinked(nodes, bounds, root, c);
    GrownRepresents(nodes, bounds, root, c, m);
    GrownRoot(nodes, bounds, root, c);
  }

  lemma AllOkIntro(nodes: Nodes, bounds: map<Addr, Bounds>)
    requires forall b | b in nodes :: NodeOk(nodes, bounds, b)
    ensures AllNodesOk(nodes, bounds)
  {
  }

  lemma GrownRoot(nodes: Nodes, bounds: map<Addr, Bounds>, root: Addr, c: Addr)
    requires RootOk(nodes, bounds, root) && HasMinKey(nodes[root]) && c !in nodes && c != NO_ADDR
    ensures RootOk(Grown(nodes, root, c), bounds[c := EVERYTHING], root)
  {
  }

  lemma GrownNodeOk(nodes: Nodes, bounds: map<Addr, Bounds>, root: Addr, c: Addr, b: Addr)
    requires RootOk(nodes, bounds, root) && AllNodesOk(nodes, bounds) && HasMinKey(nodes[root])
    requires c !in nodes && b in Grown(nodes, root, c)
    ensures NodeOk(Grown(nodes, root, c), bounds[c := EVERYTHING], b)
  {
    hide AllNodesOk;
    var nodes', bounds' := Grown(nodes, root, c), bounds[c := EVERYTHING];
    OkAt(nodes, bounds, root);
    if b == root {
      assert ChildOk(nodes', bounds', nodes'[root], bounds'[root], 0);
    } else {
      var was := if b == c then root else b;
      OkAt(nodes, bounds, was);
      if nodes[was].Index? {
        forall i: nat | i < |nodes[was].children| ensures ChildOk(nodes', bounds', nodes[was], bounds[was], i) {
          RootHasNoParent(nodes, bounds, root, was, i);
          assert ChildOk(nodes, bounds, nodes[was], bounds[was], i);
        }
      }
    }
  }

  lemma GrownSeparate(nodes: Nodes, bounds: map<Addr, Bounds>, root: Addr, c: Addr)
    requires RootOk(nodes, bounds, root) && Separate(nodes, bounds) && HasMinKey(nodes[root]) && c !in nodes
    ensures Separate(Grown(nodes, root, c), bounds[c := EVERYTHING])
  {
    var nodes', bounds' := Grown(nodes, root, c), bounds[c := EVERYTHING];
    forall a, b | a in nodes' && b in nodes' && a != b && Height(nodes'[a]) == Height(nodes'[b])
      ensures Apart(bounds'[a], bounds'[b])
    {
      if a == c || b == c {
        ApartAt(nodes, bounds, root, if a == c then b else a);
      } else if a != root && b != root {
        ApartAt(nodes, bounds, a, b);
      }
    }
  }

  lemma GrownLinked(nodes: Nodes, bounds: map<Addr, Bounds>, root: Addr, c: Addr)
    requires RootOk(nodes, bounds, root) && Separate(nodes, bounds) && Linked(nodes, bounds)
    requires HasMinKey(nodes[root]) && c !in nodes
    ensures Linked(Grown(nodes, root, c), bounds[c := EVERYTHING])
  {
    hide Separate;
    var nodes', bounds' := Grown(nodes, root, c), bounds[c := EVERYTHING];
    forall b | b in nodes' && nodes'[b].Leaf?
      ensures NextOk(nodes', bounds', b) && PrevOk(nodes', bounds', b)
    {
      var was := if b == c then root else b;
      LinksAt(nodes, bounds, was);
      if nodes[root].Leaf? && was != root {
        ApartAt(nodes, bounds, root, was);
      }
    }
  }

  lemma LinksAt(nodes: Nodes, bounds: map<Addr, Bounds>, a: Addr)
    requires Linked(nodes, bounds) && a in nodes && nodes[a].Leaf?
    ensures a in bounds && NextOk(nodes, bounds, a) && PrevOk(nodes, bounds, a) && nodes.Keys == bounds.Keys
  {
  }

  lemma GrownRepresents(nodes: Nodes, bounds: map<Addr, Bounds>, root: Addr, c: Addr, m: map<Key, Message>)
    requires RootOk(nodes, bounds, root) && Represents(nodes, bounds, m) && HasMinKey(nodes[root]) && c !in nodes
    ensures Represents(Grown(nodes, root, c), bounds[c := EVERYTHING], m)
  {
    hide Lookup, MinKey;
    var nodes', bounds' := Grown(nodes, root, c), bounds[c := EVERYTHING];
    assert nodes'.Keys == nodes.Keys + {c};
    forall b, j | b in nodes' && nodes'[b].Leaf? && In(bounds'[b], j)
      ensures Lookup(nodes'[b].entries, j) == Get(m, j)
    {
      assert Lookup(nodes[if b == c then root else b].entries, j) == Get(m, j);
    }
  }

  /* ---- Splitting a child ---- */

  function InsertedAt<T>(s: seq<T>, at: nat, x: T): (r: seq<T>)
    requires at <= |s|
    ensures |r| == |s| + 1
    ensures forall i | 0 <= i < |r| :: r[i] == if i < at then s[i] else if i == at then x else s[i - 1]
  {
    s[..at] + [x] + s[at..]
  }

  /** `btree_insert_index_entry` on a decoded node. */
  function WithChild(n: Node, at: nat, pivot: Key, c: Addr): Node
    requires n.Index? && at <= |n.pivots| == |n.children|
  {
    n.(pivots := InsertedAt(n.pivots, at, pivot), children := InsertedAt(n.children, at, c))
  }

  /** x falls strictly inside the keys of child i, above the pivot of that child. */
  predicate CutsChild(pivots: seq<Key>, b: Bounds, i: nat, x: Key)
    requires i < |pivots|
  {
    pivots[i] < x && In(ChildBounds(pivots, b, i), x)
  }

  lemma InsertedBounds(pivots: seq<Key>, b: Bounds, ci: nat, x: Key, i: nat)
    requires ci < |pivots| && i <= |pivots|
    ensures ChildBounds(InsertedAt(pivots, ci + 1, x), b, i)
         == if i < ci then ChildBounds(pivots, b, i)
            else if i == ci then ChildBounds(pivots, b, ci).(hi := Some(x))
            else if i == ci + 1 then ChildBounds(pivots, b, ci).(lo := Some(x))
            else ChildBounds(pivots, b, i - 1)
  {
  }

  lemma InsertedIndexOk(height: nat, pivots: seq<Key>, children: seq<Addr>, b: Bounds, ci: nat, x: Key, r: Addr)
    requires IndexOk(height, pivots, children, b) && ci < |pivots| && CutsChild(pivots, b, ci, x)
    ensures IndexOk(height, InsertedAt(pivots, ci + 1, x), InsertedAt(children, ci + 1, r), b)
  {
    assert forall i | 0 <= i < |pivots| :: In(b, pivots[i]);
  }

  /** The two halves of child ci of p, before the neighbours are told. */
  ghost predicate SplitAt(nodes: Nodes, bounds: map<Addr, Bounds>, p: Addr, ci: nat, left: Node, right: Node,
      x: Key, r: Addr)
  {
    && p in nodes && p in bounds && nodes[p].Index? && ci < |nodes[p].children| == |nodes[p].pivots|
    && r !in nodes && r != NO_ADDR && CutsChild(nodes[p].pivots, bounds[p], ci, x)
    && var a := nodes[p].children[ci];
       && a in nodes && a in bounds && a != p && left.Leaf? == right.Leaf? == nodes[a].Leaf?
       && Height(left) == Height(right) == Height(nodes[a])
       && (ci == 0 && MinAtLeast(nodes[a], nodes[p].pivots[0]) ==> MinAtLeast(left, nodes[p].pivots[0]))
  }

  function AfterSplit(nodes: Nodes, p: Addr, ci: nat, left: Node, right: Node, x: Key, r: Addr): Nodes
    requires p in nodes && nodes[p].Index? && ci < |nodes[p].children| == |nodes[p].pivots|
  {
    nodes[p := WithChild(nodes[p], ci + 1, x, r)][nodes[p].children[ci] := left][r := right]
  }

  function BoundsAfterSplit(bounds: map<Addr, Bounds>, a: Addr, x: Key, r: Addr): map<Addr, Bounds>
    requires a in bounds
  {
    bounds[a := bounds[a].(hi := Some(x))][r := bounds[a].(lo := Some(x))]
  }

  /** Child i of b is neither the split child, nor its new sibling, nor is it changed otherwise. */
  lemma OtherChild(nodes: Nodes, bounds: map<Addr, Bounds>, p: Addr, ci: nat, left: Node, right: Node, x: Key, r: Addr,
      b: Addr, i: nat)
    requires AllNodesOk(nodes, bounds) && Separate(nodes, bounds) && SplitAt(nodes, bounds, p, ci, left, right, x, r)
    requires b in nodes && nodes[b].Index? && i < |nodes[b].children| && (b != p || i != ci)
    ensures SameFace(nodes, bounds, AfterSplit(nodes, p, ci, left, right, x, r),
                     BoundsAfterSplit(bounds, nodes[p].children[ci], x, r), nodes[b].children[i])
  {
    hide AllNodesOk, Separate, IndexOk, ChildBounds, CutsChild;
    OkAt(nodes, bounds, b);
    IndexSizes(nodes[b].height, nodes[b].pivots, nodes[b].children, bounds[b]);
    assert ChildOk(nodes, bounds, nodes[b], bounds[b], i);
    if nodes[b].children[i] == nodes[p].children[ci] {
      UniqueParent(nodes, bounds, b, i, p, ci);
    }
    if nodes[b].children[i] == p {
      OkAt(nodes, bounds, p);
      InsertedFirst(nodes[p], ci, x, r);
    }
  }

  lemma InsertedFirst(n: Node, ci: nat, x: Key, r: Addr)
    requires n.Index? && ci < |n.pivots| == |n.children|
    ensures WithChild(n, ci + 1, x, r).pivots[0] == n.pivots[0] && Height(WithChild(n, ci + 1, x, r)) == Height(n)
  {
  }

  lemma SplitParentOk(nodes: Nodes, bounds: map<Addr, Bounds>, p: Addr, ci: nat, left: Node, right: Node, x: Key,
      r: Addr)
    requires AllNodesOk(nodes, bounds) && Separate(nodes, bounds) && SplitAt(nodes, bounds, p, ci, left, right, x, r)
    ensures NodeOk(AfterSplit(nodes, p, ci, left, right, x, r),
      BoundsAfterSplit(bounds, nodes[p].children[ci], x, r), p)
  {
    hide AllNodesOk, Separate, IndexOk, MinAtLeast, CutsChild, NonEmpty;
    OkAt(nodes, bounds, p);
    var n, a := nodes[p], nodes[p].children[ci];
    var nodes', bounds' := AfterSplit(nodes, p, ci, left, right, x, r), BoundsAfterSplit(bounds, a, x, r);
    var n' := WithChild(n, ci + 1, x, r);
    InsertedIndexOk(n.height, n.pivots, n.children, bounds[p], ci, x, r);
    assert nodes'[p] == n';
    assert ChildOk(nodes, bounds, n, bounds[p], ci);
    forall i: nat | i < |n'.children| ensures ChildOk(nodes', bounds', n', bounds[p], i) {
      hide ChildBounds;
      InsertedBounds(n.pivots, bounds[p], ci, x, i);
      InsertedFirst(n, ci, x, r);
      if i != ci && i != ci + 1 {
        var was := if i < ci then i else i - 1;
        OtherChild(nodes, bounds, p, ci, left, right, x, r, p, was);
        assert ChildOk(nodes, bounds, n, bounds[p], was);
      }
    }
  }

  lemma SplitAllOk(nodes: Nodes, bounds: map<Addr, Bounds>, p: Addr, ci: nat, left: Node, right: Node, x: Key, r: Addr)
    requires AllNodesOk(nodes, bounds) && Separate(nodes, bounds) && SplitAt(nodes, bounds, p, ci, left, right, x, r)
    requires var a := nodes[p].children[ci];
      var nodes', bounds' := AfterSplit(nodes, p, ci, left, right, x, r), BoundsAfterSplit(bounds, a, x, r);
      NodeOk(nodes', bounds', a) && NodeOk(nodes', bounds', r)
    ensures AllNodesOk(AfterSplit(nodes, p, ci, left, right, x, r),
      BoundsAfterSplit(bounds, nodes[p].children[ci], x, r))
  {
    hide AllNodesOk, Separate, NodeOk, SameFace, CutsChild, MinAtLeast;
    var a := nodes[p].children[ci];
    var nodes', bounds' := AfterSplit(nodes, p, ci, left, right, x, r), BoundsAfterSplit(bounds, a, x, r);
    SplitParentOk(nodes, bounds, p, ci, left, right, x, r);
    forall b | b in nodes' ensures NodeOk(nodes', bounds', b) {
      if b != p && b != a && b != r {
        OkAt(nodes, bounds, b);
        InBoundsToo(nodes, bounds, b);
        if nodes[b].Index? {
          forall i | 0 <= i < |nodes[b].children|
            ensures SameFace(nodes, bounds, nodes', bounds', nodes[b].children[i])
          {
            OtherChild(nodes, bounds, p, ci, left, right, x, r, b, i);
          }
        }
        NodeFrame(nodes, bounds, nodes', bounds', b);
      }
    }
    AllOkIntro(nodes', bounds');
  }

  lemma InBoundsToo(nodes: Nodes, bounds: map<Addr, Bounds>, b: Addr)
    requires NodeOk(nodes, bounds, b)
    ensures b in bounds
  {
  }

  lemma CutInside(nodes: Nodes, bounds: map<Addr, Bounds>, p: Addr, ci: nat, left: Node, right: Node, x: Key, r: Addr)
    requires AllNodesOk(nodes, bounds) && SplitAt(nodes, bounds, p, ci, left, right, x, r)
    ensures bounds[nodes[p].children[ci]] == ChildBounds(nodes[p].pivots, bounds[p], ci)
    ensures In(bounds[nodes[p].children[ci]], x)
  {
    hide AllNodesOk, ChildBounds, MinAtLeast, IndexOk;
    OkAt(nodes, bounds, p);
    assert ChildOk(nodes, bounds, nodes[p], bounds[p], ci);
  }

  lemma SplitSeparate(nodes: Nodes, bounds: map<Addr, Bounds>, p: Addr, ci: nat, left: Node, right: Node, x: Key,
      r: Addr)
    requires AllNodesOk(nodes, bounds) && Separate(nodes, bounds) && SplitAt(nodes, bounds, p, ci, left, right, x, r)
    ensures Separate(AfterSplit(nodes, p, ci, left, right, x, r), BoundsAfterSplit(bounds, nodes[p].children[ci], x, r))
  {
    hide AllNodesOk, MinAtLeast, CutsChild, ChildBounds;
    var a := nodes[p].children[ci];
    var nodes', bounds' := AfterSplit(nodes, p, ci, left, right, x, r), BoundsAfterSplit(bounds, a, x, r);
    CutInside(nodes, bounds, p, ci, left, right, x, r);
    forall b, c | b in nodes' && c in nodes' && b != c && Height(nodes'[b]) == Height(nodes'[c])
      ensures Apart(bounds'[b], bounds'[c])
    {
      var wasB, wasC := if b == r then a else b, if c == r then a else c;
      if wasB != wasC {
        ApartAt(nodes, bounds, wasB, wasC);
      }
    }
  }

  lemma SplitRootOk(nodes: Nodes, bounds: map<Addr, Bounds>, root: Addr, p: Addr, ci: nat, left: Node, right: Node,
      x: Key, r: Addr)
    requires RootOk(nodes, bounds, root) && AllNodesOk(nodes, bounds)
    requires SplitAt(nodes, bounds, p, ci, left, right, x, r)
    ensures RootOk(AfterSplit(nodes, p, ci, left, right, x, r),
      BoundsAfterSplit(bounds, nodes[p].children[ci], x, r), root)
  {
    hide AllNodesOk, MinAtLeast, CutsChild, ChildBounds;
    RootHasNoParent(nodes, bounds, root, p, ci);
  }

  /* Index nodes. */

  function LeftIndex(n: Node, t: nat): Node
    requires n.Index? && t <= |n.pivots| == |n.children|
  {
    n.(pivots := n.pivots[..t], children := n.children[..t])
  }

  function RightIndex(n: Node, t: nat): Node
    requires n.Index? && t <= |n.pivots| == |n.children|
  {
    n.(pivots := n.pivots[t..], children := n.children[t..])
  }

  lemma HalfBounds(pivots: seq<Key>, b: Bounds, t: nat, i: nat)
    requires 0 < t < |pivots|
    ensures i < t ==> ChildBounds(pivots[..t], b.(hi := Some(pivots[t])), i) == ChildBounds(pivots, b, i)
    ensures t + i < |pivots| ==> ChildBounds(pivots[t..], b.(lo := Some(pivots[t])), i) == ChildBounds(pivots, b, t + i)
  {
  }

  lemma LeftIndexOk(height: nat, pivots: seq<Key>, children: seq<Addr>, b: Bounds, t: nat)
    requires IndexOk(height, pivots, children, b) && 0 < t < |pivots| && NonEmpty(b)
    ensures IndexOk(height, pivots[..t], children[..t], b.(hi := Some(pivots[t])))
    ensures NonEmpty(b.(hi := Some(pivots[t])))
  {
  }

  lemma RightIndexOk(height: nat, pivots: seq<Key>, children: seq<Addr>, b: Bounds, t: nat)
    requires IndexOk(height, pivots, children, b) && 0 < t < |pivots| && NonEmpty(b)
    ensures IndexOk(height, pivots[t..], children[t..], b.(lo := Some(pivots[t])))
    ensures NonEmpty(b.(lo := Some(pivots[t])))
  {
  }

  /** A node that is not at the left edge of the tree starts with its lower bound. */
  lemma StartsAtBound(nodes: Nodes, bounds: map<Addr, Bounds>, c: Addr)
    requires NodeOk(nodes, bounds, c) && bounds[c].lo.Some?
    ensures MinAtLeast(nodes[c], bounds[c].lo.value)
  {
  }

  ghost predicate SplitsIndex(nodes: Nodes, bounds: map<Addr, Bounds>, p: Addr, ci: nat, t: nat, r: Addr) {
    && p in nodes && p in bounds && nodes[p].Index? && ci < |nodes[p].children| == |nodes[p].pivots|
    && r !in nodes && r != NO_ADDR
    && var a := nodes[p].children[ci];
       a in nodes && a in bounds && nodes[a].Index? && 0 < t < |nodes[a].pivots| == |nodes[a].children|
  }

  lemma IndexSplitAt(nodes: Nodes, bounds: map<Addr, Bounds>, p: Addr, ci: nat, t: nat, r: Addr)
    requires AllNodesOk(nodes, bounds) && SplitsIndex(nodes, bounds, p, ci, t, r)
    ensures var n := nodes[nodes[p].children[ci]];
      SplitAt(nodes, bounds, p, ci, LeftIndex(n, t), RightIndex(n, t), n.pivots[t], r)
  {
    hide AllNodesOk;
    var a := nodes[p].children[ci];
    OkAt(nodes, bounds, p);
    OkAt(nodes, bounds, a);
    assert ChildOk(nodes, bounds, nodes[p], bounds[p], ci);
    assert nodes[a].pivots[0] < nodes[a].pivots[t];
    assert In(bounds[a], nodes[a].pivots[t]);
  }

  lemma IndexHalvesOk(nodes: Nodes, bounds: map<Addr, Bounds>, p: Addr, ci: nat, t: nat, r: Addr)
    requires AllNodesOk(nodes, bounds) && Separate(nodes, bounds) && SplitsIndex(nodes, bounds, p, ci, t, r)
    ensures var a := nodes[p].children[ci]; var n := nodes[a]; var x := n.pivots[t];
      var nodes' := AfterSplit(nodes, p, ci, LeftIndex(n, t), RightIndex(n, t), x, r);
      NodeOk(nodes', BoundsAfterSplit(bounds, a, x, r), a) && NodeOk(nodes', BoundsAfterSplit(bounds, a, x, r), r)
  {
    hide AllNodesOk, Separate, IndexOk, ChildBounds, NonEmpty, MinAtLeast;
    var a := nodes[p].children[ci];
    var n, b := nodes[a], bounds[a];
    var x, left, right := n.pivots[t], LeftIndex(n, t), RightIndex(n, t);
    IndexSplitAt(nodes, bounds, p, ci, t, r);
    var nodes', bounds' := AfterSplit(nodes, p, ci, left, right, x, r), BoundsAfterSplit(bounds, a, x, r);
    OkAt(nodes, bounds, a);
    LeftIndexOk(n.height, n.pivots, n.children, b, t);
    RightIndexOk(n.height, n.pivots, n.children, b, t);
    forall i: nat | i < t ensures ChildOk(nodes', bounds', left, bounds'[a], i) {
      HalfBounds(n.pivots, b, t, i);
      assert ChildOk(nodes, bounds, n, b, i);
      OtherChild(nodes, bounds, p, ci, left, right, x, r, a, i);
    }
    forall i: nat | i < |n.children| - t ensures ChildOk(nodes', bounds', right, bounds'[r], i) {
      HalfBounds(n.pivots, b, t, i);
      assert ChildOk(nodes, bounds, n, b, t + i);
      OtherChild(nodes, bounds, p, ci, left, right, x, r, a, t + i);
      if i == 0 {
        ChildStarts(nodes, bounds, a, t);
      }
    }
  }

  lemma ChildStarts(nodes: Nodes, bounds: map<Addr, Bounds>, a: Addr, t: nat)
    requires AllNodesOk(nodes, bounds) && a in nodes && nodes[a].Index?
    requires 0 < t < |nodes[a].pivots| == |nodes[a].children|
    ensures nodes[a].children[t] in nodes && MinAtLeast(nodes[nodes[a].children[t]], nodes[a].pivots[t])
  {
    hide AllNodesOk, MinAtLeast;
    OkAt(nodes, bounds, a);
    assert ChildOk(nodes, bounds, nodes[a], bounds[a], t);
    OkAt(nodes, bounds, nodes[a].children[t]);
    StartsAtBound(nodes, bounds, nodes[a].children[t]);
  }

  /** Trees with the same leaves, in the same places, represent the same map. */
  ghost predicate SameLeafLevel(nodes: Nodes, bounds: map<Addr, Bounds>, nodes': Nodes, bounds': map<Addr, Bounds>) {
    && nodes'.Keys == bounds'.Keys
    && (forall b | b in nodes' && nodes'[b].Leaf? ::
          b in nodes && b in bounds && b in bounds' && nodes[b] == nodes'[b] && bounds[b] == bounds'[b])
    && (forall b | b in nodes && nodes[b].Leaf? :: b in nodes' && nodes'[b].Leaf?)
  }

  lemma SameLeafLevelKeeps(nodes: Nodes, bounds: map<Addr, Bounds>, nodes': Nodes, bounds': map<Addr, Bounds>,
      m: map<Key, Message>)
    requires SameLeafLevel(nodes, bounds, nodes', bounds') && Linked(nodes, bounds) && Represents(nodes, bounds, m)
    ensures Linked(nodes', bounds') && Represents(nodes', bounds', m)
  {
    hide In, Lookup;
    forall b | b in nodes' && nodes'[b].Leaf? ensures NextOk(nodes', bounds', b) && PrevOk(nodes', bounds', b) {
      assert NextOk(nodes, bounds, b) && PrevOk(nodes, bounds, b);
    }
  }

  lemma IndexSplitSameLeaves(nodes: Nodes, bounds: map<Addr, Bounds>, p: Addr, ci: nat, t: nat, r: Addr)
    requires nodes.Keys == bounds.Keys && SplitsIndex(nodes, bounds, p, ci, t, r)
    ensures var a := nodes[p].children[ci]; var n := nodes[a]; var x := n.pivots[t];
      var nodes' := AfterSplit(nodes, p, ci, LeftIndex(n, t), RightIndex(n, t), x, r);
      SameLeafLevel(nodes, bounds, nodes', BoundsAfterSplit(bounds, a, x, r))
  {
    var a := nodes[p].children[ci];
    var n := nodes[a];
    var x := n.pivots[t];
    var nodes' := AfterSplit(nodes, p, ci, LeftIndex(n, t), RightIndex(n, t), x, r);
    assert nodes'.Keys == nodes.Keys + {r};
    assert BoundsAfterSplit(bounds, a, x, r).Keys == bounds.Keys + {r};
  }

  lemma SameKeys(nodes: Nodes, bounds: map<Addr, Bounds>)
    requires Separate(nodes, bounds)
    ensures nodes.Keys == bounds.Keys
  {
  }

  lemma SplitIndexOk(nodes: Nodes, bounds: map<Addr, Bounds>, root: Addr, m: map<Key, Message>, p: Addr, ci: nat,
      t: nat, r: Addr)
    requires TreeOk(nodes, bounds, root) && Represents(nodes, bounds, m) && SplitsIndex(nodes, bounds, p, ci, t, r)
    ensures var a := nodes[p].children[ci]; var n := nodes[a]; var x := n.pivots[t];
      var nodes' := AfterSplit(nodes, p, ci, LeftIndex(n, t), RightIndex(n, t), x, r);
      TreeOk(nodes', BoundsAfterSplit(bounds, a, x, r), root)
        && Represents(nodes', BoundsAfterSplit(bounds, a, x, r), m)
  {
    hide RootOk, AllNodesOk, Linked, Represents, NodeOk, SplitAt, Separate, SameLeafLevel;
    var a := nodes[p].children[ci];
    var n := nodes[a];
    var x, left, right := n.pivots[t], LeftIndex(n, t), RightIndex(n, t);
    IndexSplitAt(nodes, bounds, p, ci, t, r);
    IndexHalvesOk(nodes, bounds, p, ci, t, r);
    SplitAllOk(nodes, bounds, p, ci, left, right, x, r);
    SplitSeparate(nodes, bounds, p, ci, left, right, x, r);
    SplitRootOk(nodes, bounds, root, p, ci, left, right, x, r);
    var nodes', bounds' := AfterSplit(nodes, p, ci, left, right, x, r), BoundsAfterSplit(bounds, a, x, r);
    SameKeys(nodes, bounds);
    IndexSplitSameLeaves(nodes, bounds, p, ci, t, r);
    SameLeafLevelKeeps(nodes, bounds, nodes', bounds', m);
  }

  /* Leaves. */

  function LeftLeaf(n: Node, t: nat, r: Addr): Node
    requires n.Leaf? && t <= |n.entries|
  {
    n.(entries := n.entries[..t], next := r)
  }

  function RightLeaf(n: Node, t: nat, a: Addr): Node
    requires n.Leaf? && t <= |n.entries|
  {
    n.(entries := n.entries[t..], prev := a)
  }

  ghost predicate SplitsLeaf(nodes: Nodes, bounds: map<Addr, Bounds>, p: Addr, ci: nat, t: nat, r: Addr) {
    && p in nodes && p in bounds && nodes[p].Index? && ci < |nodes[p].children| == |nodes[p].pivots|
    && r !in nodes && r != NO_ADDR
    && var a := nodes[p].children[ci];
       a in nodes && a in bounds && nodes[a].Leaf? && 0 < t < |nodes[a].entries|
  }

  /** The leaf after the split point has learnt about its new left neighbour. */
  function Relinked(nodes: Nodes, next: Addr, r: Addr): Nodes {
    if next in nodes && nodes[next].Leaf? then nodes[next := nodes[next].(prev := r)] else nodes
  }

  lemma LeafSplitAt(nodes: Nodes, bounds: map<Addr, Bounds>, p: Addr, ci: nat, t: nat, r: Addr)
    requires AllNodesOk(nodes, bounds) && SplitsLeaf(nodes, bounds, p, ci, t, r)
    ensures var a := nodes[p].children[ci]; var n := nodes[a];
      SplitAt(nodes, bounds, p, ci, LeftLeaf(n, t, r), RightLeaf(n, t, a), n.entries[t].key, r)
  {
    hide AllNodesOk;
    var a := nodes[p].children[ci];
    OkAt(nodes, bounds, p);
    OkAt(nodes, bounds, a);
    assert ChildOk(nodes, bounds, nodes[p], bounds[p], ci);
    assert nodes[a].entries[0].key < nodes[a].entries[t].key;
    assert In(bounds[a], nodes[a].entries[t].key);
  }

  lemma LeafHalvesOk(s: seq<Pair>, b: Bounds, t: nat)
    requires LeafOk(s, b) && 0 < t < |s| && NonEmpty(b)
    ensures LeafOk(s[..t], b.(hi := Some(s[t].key))) && LeafOk(s[t..], b.(lo := Some(s[t].key)))
    ensures NonEmpty(b.(hi := Some(s[t].key))) && NonEmpty(b.(lo := Some(s[t].key)))
  {
  }

  lemma RelinkedOk(nodes: Nodes, bounds: map<Addr, Bounds>, root: Addr, next: Addr, r: Addr)
    requires RootOk(nodes, bounds, root) && AllNodesOk(nodes, bounds) && Separate(nodes, bounds)
    ensures RootOk(Relinked(nodes, next, r), bounds, root) && AllNodesOk(Relinked(nodes, next, r), bounds)
    ensures Separate(Relinked(nodes, next, r), bounds)
  {
    hide RootOk, AllNodesOk, Separate, LeafOk;
    if next in nodes && nodes[next].Leaf? {
      var n := nodes[next].(prev := r);
      OkAt(nodes, bounds, next);
      ReplacedAllOk(nodes, bounds, next, n);
      ReplacedRest(nodes, bounds, root, next, n);
    }
  }

  lemma {:induction false} HalvesLookup(s: seq<Pair>, t: nat, k: Key)
    requires StrictlySorted(s) && t < |s|
    ensures k < s[t].key ==> Lookup(s[..t], k) == Lookup(s, k)
    ensures s[t].key <= k ==> Lookup(s[t..], k) == Lookup(s, k)
  {
    LookupConcat(s[..t], s[t..], k);
    assert s == s[..t] + s[t..];
    if k < s[t].key {
      LookupMissing(s[t..], k);
    } else {
      LookupMissing(s[..t], k);
    }
  }

  lemma LeafSplitRepresents(nodes: Nodes, bounds: map<Addr, Bounds>, m: map<Key, Message>, p: Addr, ci: nat,
      t: nat, r: Addr)
    requires AllNodesOk(nodes, bounds) && Represents(nodes, bounds, m) && SplitsLeaf(nodes, bounds, p, ci, t, r)
    ensures var a := nodes[p].children[ci]; var n := nodes[a]; var x := n.entries[t].key;
      var nodes' := Relinked(AfterSplit(nodes, p, ci, LeftLeaf(n, t, r), RightLeaf(n, t, a), x, r), n.next, r);
      Represents(nodes', BoundsAfterSplit(bounds, a, x, r), m)
  {
    hide AllNodesOk, Lookup, ChildOk;
    var a := nodes[p].children[ci];
    var n, x := nodes[a], nodes[a].entries[t].key;
    var split := AfterSplit(nodes, p, ci, LeftLeaf(n, t, r), RightLeaf(n, t, a), x, r);
    var nodes', bounds' := Relinked(split, n.next, r), BoundsAfterSplit(bounds, a, x, r);
    OkAt(nodes, bounds, a);
    assert In(bounds[a], x);
    forall b, k | b in nodes' && nodes'[b].Leaf? && In(bounds'[b], k)
      ensures Lookup(nodes'[b].entries, k) == Get(m, k)
    {
      var was := if b == r then a else b;
      assert nodes'[b].entries == split[b].entries;
      assert In(bounds[was], k);
      assert Lookup(nodes[was].entries, k) == Get(m, k);
      if was == a {
        HalvesLookup(n.entries, t, k);
      }
    }
  }

  lemma LeafSplitLinked(nodes: Nodes, bounds: map<Addr, Bounds>, p: Addr, ci: nat, t: nat, r: Addr)
    requires AllNodesOk(nodes, bounds) && Separate(nodes, bounds) && Linked(nodes, bounds)
    requires NO_ADDR !in nodes && SplitsLeaf(nodes, bounds, p, ci, t, r)
    ensures var a := nodes[p].children[ci]; var n := nodes[a]; var x := n.entries[t].key;
      var nodes' := Relinked(AfterSplit(nodes, p, ci, LeftLeaf(n, t, r), RightLeaf(n, t, a), x, r), n.next, r);
      Linked(nodes', BoundsAfterSplit(bounds, a, x, r))
  {
    hide AllNodesOk, Separate, Linked, ChildOk;
    var a := nodes[p].children[ci];
    var n, x := nodes[a], nodes[a].entries[t].key;
    var split := AfterSplit(nodes, p, ci, LeftLeaf(n, t, r), RightLeaf(n, t, a), x, r);
    var nodes', bounds' := Relinked(split, n.next, r), BoundsAfterSplit(bounds, a, x, r);
    LinksAt(nodes, bounds, a);
    OkAt(nodes, bounds, a);
    forall b | b in nodes' && nodes'[b].Leaf?
      ensures b in bounds' && NextOk(nodes', bounds', b) && PrevOk(nodes', bounds', b)
    {
      if b != r {
        LinksAt(nodes, bounds, b);
        OkAt(nodes, bounds, b);
      }
    }
    KeysAfterLeafSplit(nodes, bounds, p, ci, t, r);
    LinkedFrom(nodes', bounds');
  }

  lemma LinkedFrom(nodes: Nodes, bounds: map<Addr, Bounds>)
    requires nodes.Keys == bounds.Keys
    requires forall b | b in nodes && nodes[b].Leaf? :: NextOk(nodes, bounds, b) && PrevOk(nodes, bounds, b)
    ensures Linked(nodes, bounds)
  {
  }

  lemma KeysAfterLeafSplit(nodes: Nodes, bounds: map<Addr, Bounds>, p: Addr, ci: nat, t: nat, r: Addr)
    requires Linked(nodes, bounds) && SplitsLeaf(nodes, bounds, p, ci, t, r)
    ensures var a := nodes[p].children[ci]; var n := nodes[a]; var x := n.entries[t].key;
      var nodes' := Relinked(AfterSplit(nodes, p, ci, LeftLeaf(n, t, r), RightLeaf(n, t, a), x, r), n.next, r);
      nodes'.Keys == BoundsAfterSplit(bounds, a, x, r).Keys
  {
    var a := nodes[p].children[ci];
    var n := nodes[a];
    var x := n.entries[t].key;
    var nodes' := Relinked(AfterSplit(nodes, p, ci, LeftLeaf(n, t, r), RightLeaf(n, t, a), x, r), n.next, r);
    assert nodes'.Keys == nodes.Keys + {r};
    assert BoundsAfterSplit(bounds, a, x, r).Keys == bounds.Keys + {r};
  }

  lemma SplitLeafOk(nodes: Nodes, bounds: map<Addr, Bounds>, root: Addr, m: map<Key, Message>, p: Addr, ci: nat,
      t: nat, r: Addr)
    requires TreeOk(nodes, bounds, root) && Represents(nodes, bounds, m) && SplitsLeaf(nodes, bounds, p, ci, t, r)
    ensures var a := nodes[p].children[ci]; var n := nodes[a]; var x := n.entries[t].key;
      var nodes' := Relinked(AfterSplit(nodes, p, ci, LeftLeaf(n, t, r), RightLeaf(n, t, a), x, r), n.next, r);
      TreeOk(nodes', BoundsAfterSplit(bounds, a, x, r), root)
        && Represents(nodes', BoundsAfterSplit(bounds, a, x, r), m)
  {
    hide AllNodesOk, Linked, Represents, Separate, SplitAt, LeafOk, NonEmpty;
    var a := nodes[p].children[ci];
    var n := nodes[a];
    var x, left, right := n.entries[t].key, LeftLeaf(n, t, r), RightLeaf(n, t, a);
    LeafSplitAt(nodes, bounds, p, ci, t, r);
    var nodes', bounds' := AfterSplit(nodes, p, ci, left, right, x, r), BoundsAfterSplit(bounds, a, x, r);
    OkAt(nodes, bounds, a);
    LeafHalvesOk(n.entries, bounds[a], t);
    assert NodeOk(nodes', bounds', a) && NodeOk(nodes', bounds', r);
    SplitAllOk(nodes, bounds, p, ci, left, right, x, r);
    SplitSeparate(nodes, bounds, p, ci, left, right, x, r);
    SplitRootOk(nodes, bounds, root, p, ci, left, right, x, r);
    RelinkedOk(nodes', bounds', root, n.next, r);
    LeafSplitLinked(nodes, bounds, p, ci, t, r);
    LeafSplitRepresents(nodes, bounds, m, p, ci, t, r);
  }
}
