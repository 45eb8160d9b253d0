/**
  The tree layer of btree.c: decoded nodes, the interval of keys each node is
  responsible for, and the invariant that ties the nodes to one map of messages.
 */
module BTreeShape {
  import opened Wrappers
  import opened DataConfig
  import opened MergeSpec

  type Addr = nat

  /** No node lives at address 0; a neighbour pointer of 0 means there is none. */
  const NO_ADDR: Addr := 0

  datatype Node =
    | Leaf(entries: seq<Pair>, prev: Addr, next: Addr)
    | Index(height: nat, pivots: seq<Key>, children: seq<Addr>)

  type Nodes = map<Addr, Node>

  function Height(n: Node): nat {
    if n.Leaf? then 0 else n.height
  }

  /** Keys k with lo <= k < hi; None stands for an infinite end. */
  datatype Bounds = Bounds(lo: Option<Key>, hi: Option<Key>)

  const EVERYTHING := Bounds(None, None)

  predicate In(b: Bounds, k: Key) {
    (b.lo.Some? ==> b.lo.value <= k) && (b.hi.Some? ==> k < b.hi.value)
  }

  predicate NonEmpty(b: Bounds) {
    b.lo.Some? && b.hi.Some? ==> b.lo.value < b.hi.value
  }

  predicate Apart(a: Bounds, b: Bounds) {
    || (a.hi.Some? && b.lo.Some? && a.hi.value <= b.lo.value)
    || (b.hi.Some? && a.lo.Some? && b.hi.value <= a.lo.value)
  }

  ghost predicate Increasing(s: seq<Key>) {
    forall i, j | 0 <= i < j < |s| :: s[i] < s[j]
  }

  /** The keys child i is responsible for. */
  function ChildBounds(pivots: seq<Key>, b: Bounds, i: nat): Bounds
    requires i < |pivots|
  {
    Bounds(if i == 0 then b.lo else Some(pivots[i]), if i + 1 < |pivots| then Some(pivots[i + 1]) else b.hi)
  }

  /** The smallest key or pivot of the node is at least k. */
  predicate MinAtLeast(n: Node, k: Key) {
    match n
    case Leaf(entries, _, _) => entries != [] ==> k <= entries[0].key
    case Index(_, pivots, _) => pivots != [] ==> k <= pivots[0]
  }

  /** Only the leftmost leaf of all may be empty, and other leaves start with their lower bound. */
  ghost predicate LeafOk(entries: seq<Pair>, b: Bounds) {
    && StrictlySorted(entries) && (forall i | 0 <= i < |entries| :: In(b, entries[i].key))
    && (b.lo.Some? ==> entries != [] && entries[0].key == b.lo.value)
  }

  ghost predicate IndexOk(height: nat, pivots: seq<Key>, children: seq<Addr>, b: Bounds) {
    && height >= 1 && 0 < |pivots| == |children| && Increasing(pivots)
    && (forall i | 0 <= i < |pivots| :: In(b, pivots[i]))
    && (b.lo.Some? ==> pivots[0] == b.lo.value)
  }

  ghost predicate ChildOk(nodes: Nodes, bounds: map<Addr, Bounds>, n: Node, b: Bounds, i: nat)
    requires n.Index? && i < |n.children| == |n.pivots|
  {
    var c := n.children[i];
    && c in nodes && c in bounds && Height(nodes[c]) + 1 == n.height && bounds[c] == ChildBounds(n.pivots, b, i)
    && (i == 0 ==> MinAtLeast(nodes[c], n.pivots[0]))
  }

  ghost predicate NodeOk(nodes: Nodes, bounds: map<Addr, Bounds>, a: Addr) {
    && a in nodes && a in bounds && NonEmpty(bounds[a])
    && match nodes[a]
       case Leaf(entries, _, _) => LeafOk(entries, bounds[a])
       case Index(height, pivots, children) =>
         && IndexOk(height, pivots, children, bounds[a])
         && forall i: nat | i < |children| :: ChildOk(nodes, bounds, nodes[a], bounds[a], i)
  }

  /** Nodes of one level share no key. */
  ghost predicate Separate(nodes: Nodes, bounds: map<Addr, Bounds>) {
    && nodes.Keys == bounds.Keys
    && forall a, b | a in nodes && b in nodes && a != b && Height(nodes[a]) == Height(nodes[b]) ::
         Apart(bounds[a], bounds[b])
  }

  ghost predicate RootOk(nodes: Nodes, bounds: map<Addr, Bounds>, root: Addr) {
    && NO_ADDR !in nodes && root in nodes && root in bounds && bounds[root] == EVERYTHING
    && forall a | a in nodes :: Height(nodes[a]) <= Height(nodes[root])
  }

  /** The neighbour to the right takes over exactly where this leaf ends, and points back. */
  ghost predicate NextOk(nodes: Nodes, bounds: map<Addr, Bounds>, a: Addr)
    requires a in nodes && nodes[a].Leaf? && a in bounds
  {
    var next := nodes[a].next;
    if bounds[a].hi.None? then next == NO_ADDR
    else
      next in nodes && nodes[next].Leaf? && next in bounds && bounds[next].lo == bounds[a].hi && nodes[next].prev == a
  }

  ghost predicate PrevOk(nodes: Nodes, bounds: map<Addr, Bounds>, a: Addr)
    requires a in nodes && nodes[a].Leaf? && a in bounds
  {
    var prev := nodes[a].prev;
    if bounds[a].lo.None? then prev == NO_ADDR
    else
      prev in nodes && nodes[prev].Leaf? && prev in bounds && bounds[prev].hi == bounds[a].lo && nodes[prev].next == a
  }

  ghost predicate Linked(nodes: Nodes, bounds: map<Addr, Bounds>) {
    && nodes.Keys == bounds.Keys
    && forall a | a in nodes && nodes[a].Leaf? :: NextOk(nodes, bounds, a) && PrevOk(nodes, bounds, a)
  }

  ghost predicate AllNodesOk(nodes: Nodes, bounds: map<Addr, Bounds>) {
    forall a | a in nodes :: NodeOk(nodes, bounds, a)
  }

  function Get(m: map<Key, Message>, k: Key): Option<Message> {
    if k in m then Some(m[k]) else None
  }

  /** The leaf responsible for a key stores it exactly as the map has it. */
  ghost predicate Represents(nodes: Nodes, bounds: map<Addr, Bounds>, m: map<Key, Message>) {
    && nodes.Keys == bounds.Keys
    && forall a, k | a in nodes && nodes[a].Leaf? && In(bounds[a], k) :: Lookup(nodes[a].entries, k) == Get(m, k)
  }

  ghost predicate TreeOk(nodes: Nodes, bounds: map<Addr, Bounds>, root: Addr) {
    RootOk(nodes, bounds, root) && AllNodesOk(nodes, bounds) && Separate(nodes, bounds) && Linked(nodes, bounds)
  }

  /* ---- Leaves as sorted runs ---- */

  lemma {:induction false} LookupAt(s: seq<Pair>, i: nat)
    requires StrictlySorted(s) && i < |s|
    ensures Lookup(s, s[i].key) == Some(s[i].msg)
  {
    if i > 0 {
      LookupAt(s[1..], i - 1);
    }
  }

  lemma {:induction false} LookupMissing(s: seq<Pair>, k: Key)
    requires forall i | 0 <= i < |s| :: s[i].key != k
    ensures Lookup(s, k) == None
  {
    if s != [] {
      LookupMissing(s[1..], k);
    }
  }

  lemma {:induction false} LookupConcat(s: seq<Pair>, t: seq<Pair>, k: Key)
    ensures Lookup(s + t, k) == if Lookup(s, k).Some? then Lookup(s, k) else Lookup(t, k)
  {
    if s == [] {
      assert s + t == t;
    } else {
      LookupConcat(s[1..], t, k);
      assert (s + t)[1..] == s[1..] + t;
    }
  }

  /* ---- Uniqueness ---- */

  lemma OkAt(nodes: Nodes, bounds: map<Addr, Bounds>, a: Addr)
    requires AllNodesOk(nodes, bounds) && a in nodes
    ensures NodeOk(nodes, bounds, a)
  {
  }

  lemma ApartAt(nodes: Nodes, bounds: map<Addr, Bounds>, a: Addr, b: Addr)
    requires Separate(nodes, bounds) && a in nodes && b in nodes && a != b && Height(nodes[a]) == Height(nodes[b])
    ensures a in bounds && b in bounds && Apart(bounds[a], bounds[b])
  {
  }

  /** A child's interval is a part of its parent's, and not empty. */
  lemma ChildWithin(height: nat, pivots: seq<Key>, children: seq<Addr>, b: Bounds, i: nat)
    requires IndexOk(height, pivots, children, b) && i < |pivots| && NonEmpty(b)
    ensures NonEmpty(ChildBounds(pivots, b, i))
    ensures forall k | In(ChildBounds(pivots, b, i), k) :: In(b, k)
    ensures forall x: Bounds | Apart(b, x) && NonEmpty(b) && NonEmpty(x) :: Apart(ChildBounds(pivots, b, i), x)
  {
  }

  lemma SiblingsApart(height: nat, pivots: seq<Key>, children: seq<Addr>, b: Bounds, i: nat, j: nat)
    requires IndexOk(height, pivots, children, b) && i < j < |pivots|
    ensures Apart(ChildBounds(pivots, b, i), ChildBounds(pivots, b, j))
  {
  }

  lemma NotApartFromItself(b: Bounds)
    requires NonEmpty(b)
    ensures !Apart(b, b)
  {
  }

  /** A node has one parent and one place in it. */
  lemma UniqueParent(nodes: Nodes, bounds: map<Addr, Bounds>, p: Addr, i: nat, p': Addr, i': nat)
    requires AllNodesOk(nodes, bounds) && Separate(nodes, bounds) && p in nodes && p' in nodes
    requires nodes[p].Index? && i < |nodes[p].children| && nodes[p'].Index? && i' < |nodes[p'].children|
    requires nodes[p].children[i] == nodes[p'].children[i']
    ensures p == p' && i == i'
  {
    hide ChildBounds, Apart, NonEmpty, Separate, IndexOk, AllNodesOk, MinAtLeast;
    OkAt(nodes, bounds, p);
    OkAt(nodes, bounds, p');
    var n, n' := nodes[p], nodes[p'];
    IndexSizes(n.height, n.pivots, n.children, bounds[p]);
    IndexSizes(n'.height, n'.pivots, n'.children, bounds[p']);
    assert ChildOk(nodes, bounds, n, bounds[p], i) && ChildOk(nodes, bounds, n', bounds[p'], i');
    ChildWithin(n.height, n.pivots, n.children, bounds[p], i);
    ChildWithin(n'.height, n'.pivots, n'.children, bounds[p'], i');
    var c := ChildBounds(n.pivots, bounds[p], i);
    ParentsOverlap(c, bounds[p], bounds[p']);
    if p != p' {
      ApartAt(nodes, bounds, p, p');
    } else if i < i' {
      SiblingsApart(n.height, n.pivots, n.children, bounds[p], i, i');
    } else if i' < i {
      SiblingsApart(n.height, n.pivots, n.children, bounds[p], i', i);
    }
  }

  /** Two parents of one child share keys. */
  lemma ParentsOverlap(c: Bounds, b: Bounds, b': Bounds)
    requires NonEmpty(c) && NonEmpty(b) && NonEmpty(b')
    requires forall x: Bounds | Apart(b, x) && NonEmpty(b) && NonEmpty(x) :: Apart(c, x)
    requires forall x: Bounds | Apart(b', x) && NonEmpty(b') && NonEmpty(x) :: Apart(c, x)
    ensures !Apart(b, b')
  {
    hide Apart, NonEmpty;
    NotApartFromItself(c);
    ApartSymmetric(c, b');
    ApartSymmetric(b, b');
    ApartSymmetric(c, b);
  }

  lemma IndexSizes(height: nat, pivots: seq<Key>, children: seq<Addr>, b: Bounds)
    requires IndexOk(height, pivots, children, b)
    ensures 0 < |pivots| == |children| && height >= 1
  {
  }

  lemma ApartSymmetric(a: Bounds, b: Bounds)
    ensures Apart(a, b) == Apart(b, a)
  {
  }

  /** The root is nobody's child. */
  lemma RootHasNoParent(nodes: Nodes, bounds: map<Addr, Bounds>, root: Addr, p: Addr, i: nat)
    requires RootOk(nodes, bounds, root) && AllNodesOk(nodes, bounds)
    requires p in nodes && nodes[p].Index? && i < |nodes[p].children|
    ensures nodes[p].children[i] != root
  {
    OkAt(nodes, bounds, p);
    assert ChildOk(nodes, bounds, nodes[p], bounds[p], i);
  }

  /* ---- Frames ---- */

  /** Whatever a parent relies on is the same for c. */
  ghost predicate SameFace(nodes: Nodes, bounds: map<Addr, Bounds>, nodes': Nodes, bounds': map<Addr, Bounds>,
      c: Addr)
  {
    && c in nodes && c in bounds && c in nodes' && c in bounds'
    && bounds'[c] == bounds[c] && Height(nodes'[c]) == Height(nodes[c])
    && forall k | MinAtLeast(nodes[c], k) :: MinAtLeast(nodes'[c], k)
  }

  lemma NodeFrame(nodes: Nodes, bounds: map<Addr, Bounds>, nodes': Nodes, bounds': map<Addr, Bounds>, a: Addr)
    requires NodeOk(nodes, bounds, a) && a in nodes' && a in bounds'
    requires nodes'[a] == nodes[a] && bounds'[a] == bounds[a]
    requires nodes[a].Index? ==> forall i | 0 <= i < |nodes[a].children| ::
      SameFace(nodes, bounds, nodes', bounds', nodes[a].children[i])
    ensures NodeOk(nodes', bounds', a)
  {
    hide LeafOk, IndexOk, MinAtLeast, ChildBounds, NonEmpty;
    if nodes[a].Index? {
      var n := nodes[a];
      IndexSizes(n.height, n.pivots, n.children, bounds[a]);
      forall i: nat | i < |n.children| ensures ChildOk(nodes', bounds', n, bounds[a], i) {
        assert ChildOk(nodes, bounds, n, bounds[a], i);
        assert SameFace(nodes, bounds, nodes', bounds', n.children[i]);
      }
    }
  }
}
