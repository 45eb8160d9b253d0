/**
  A forward range scan of the leaves (btree.c:2492-2507, 2585-2763, 2788-2863) while
  other threads insert and split whenever it holds no lock on a leaf.
 */
module BTreeScan {
  import opened Wrappers
  import opened DataConfig
  import opened MergeSpec
  import opened BTreeShape
  import opened BTreeUpdates

  /** The tree with the generation counter of every leaf. */
  datatype World = World(nodes: Nodes, bounds: map<Addr, Bounds>, contents: map<Key, Message>,
    generations: map<Addr, nat>)

  ghost predicate WorldOk(w: World, root: Addr) {
    TreeOk(w.nodes, w.bounds, root) && Represents(w.nodes, w.bounds, w.contents) && w.nodes.Keys <= w.generations.Keys
  }

  predicate IsLeaf(w: World, a: Addr) {
    a in w.nodes && w.nodes[a].Leaf? && a in w.bounds && a in w.generations
  }

  /* ---- What other threads may do ---- */

  /** A leaf keeps its lower bound for ever, and whatever changes in it shows in its generation. */
  predicate LeafEvolves(w: World, w': World, a: Addr) {
    && IsLeaf(w, a) && IsLeaf(w', a) && w'.bounds[a].lo == w.bounds[a].lo
    && w.generations[a] <= w'.generations[a]
    && (w.generations[a] == w'.generations[a] ==>
          w'.nodes[a].entries == w.nodes[a].entries && w'.bounds[a] == w.bounds[a])
  }

  predicate SameLeaf(w: World, w': World, a: Addr) {
    IsLeaf(w, a) && IsLeaf(w', a) && w'.nodes[a] == w.nodes[a] && w'.bounds[a] == w.bounds[a]
    && w'.generations[a] == w.generations[a]
  }

  /** Inserts by others while this thread holds a lock on at most one leaf. */
  ghost predicate Interferes(w: World, w': World, root: Addr, held: Option<Addr>) {
    && WorldOk(w', root)
    && (forall k | k in w.contents :: k in w'.contents)
    && (forall a | IsLeaf(w, a) && a != root :: LeafEvolves(w, w', a))
    && (held.Some? ==> SameLeaf(w, w', held.value))
  }

  /* The updates of btree_insert are such interference, as long as they do not write the held leaf. */

  lemma UpdateLeafInterferes(w: World, root: Addr, held: Option<Addr>, a: Addr, s': seq<Pair>, k: Key, v: Message)
    requires WorldOk(w, root) && IsLeaf(w, a) && In(w.bounds[a], k) && held != Some(a)
    requires PutResult(w.nodes[a].entries, s', k, v) && ParentBelow(w.nodes, a, k)
    requires held.Some? ==> IsLeaf(w, held.value)
    ensures Interferes(w, World(w.nodes[a := w.nodes[a].(entries := s')], w.bounds, w.contents[k := v],
                                w.generations[a := w.generations[a] + 1]), root, held)
  {
    hide TreeOk, Represents, PutResult, ParentBelow, In;
    UpdateLeafOk(w.nodes, w.bounds, root, w.contents, a, s', k, v);
  }

  /** A leaf split: the left half steps its generation, the right half starts past the old one. */
  ghost function LeafSplitWorld(w: World, p: Addr, ci: nat, t: nat, r: Addr, step: nat): World
    requires SplitsLeaf(w.nodes, w.bounds, p, ci, t, r) && w.nodes[p].children[ci] in w.generations
  {
    var a := w.nodes[p].children[ci];
    var n := w.nodes[a];
    var x, g := n.entries[t].key, w.generations[a];
    World(Relinked(AfterSplit(w.nodes, p, ci, LeftLeaf(n, t, r), RightLeaf(n, t, a), x, r), n.next, r),
          BoundsAfterSplit(w.bounds, a, x, r), w.contents, w.generations[a := g + step][r := g + 1])
  }

  lemma SplitLeafInterferes(w: World, root: Addr, held: Option<Addr>, p: Addr, ci: nat, t: nat, r: Addr, step: nat)
    requires SplitsLeaf(w.nodes, w.bounds, p, ci, t, r) && w.nodes[p].children[ci] in w.generations
    requires WorldOk(w, root) && 0 < step
    requires held.Some? ==>
      IsLeaf(w, held.value) && held.value != w.nodes[p].children[ci]
      && held.value != w.nodes[w.nodes[p].children[ci]].next
    ensures Interferes(w, LeafSplitWorld(w, p, ci, t, r, step), root, held)
  {
    hide TreeOk, Represents;
    SplitLeafOk(w.nodes, w.bounds, root, w.contents, p, ci, t, r);
    SameKeysOf(w, root);
  }

  lemma SameKeysOf(w: World, root: Addr)
    requires WorldOk(w, root)
    ensures w.nodes.Keys == w.bounds.Keys && root in w.nodes
  {
  }

  lemma GrowRootInterferes(w: World, root: Addr, held: Option<Addr>, c: Addr, g: nat)
    requires WorldOk(w, root) && HasMinKey(w.nodes[root]) && c !in w.nodes && c != NO_ADDR
    requires held.Some? ==> IsLeaf(w, held.value) && held.value != root
    ensures Interferes(w, World(Grown(w.nodes, root, c), w.bounds[c := EVERYTHING], w.contents, w.generations[c := g]),
                       root, held)
  {
    hide TreeOk, Represents, HasMinKey, MinKey;
    SameKeysOf(w, root);
    GrowRootOk(w.nodes, w.bounds, root, w.contents, c);
    assert Grown(w.nodes, root, c).Keys == w.nodes.Keys + {c};
  }

  lemma SplitIndexInterferes(w: World, root: Addr, held: Option<Addr>, p: Addr, ci: nat, t: nat, r: Addr, g: nat)
    requires WorldOk(w, root) && SplitsIndex(w.nodes, w.bounds, p, ci, t, r)
    requires held.Some? ==> IsLeaf(w, held.value)
    ensures var a := w.nodes[p].children[ci]; var n := w.nodes[a]; var x := n.pivots[t];
      Interferes(w, World(AfterSplit(w.nodes, p, ci, LeftIndex(n, t), RightIndex(n, t), x, r),
                          BoundsAfterSplit(w.bounds, a, x, r), w.contents, w.generations[r := g]), root, held)
  {
    hide TreeOk, Represents;
    SplitIndexOk(w.nodes, w.bounds, root, w.contents, p, ci, t, r);
    SameKeysOf(w, root);
  }

  lemma MinPivotInterferes(w: World, root: Addr, held: Option<Addr>, a: Addr, k: Key)
    requires WorldOk(w, root) && a in w.nodes && w.nodes[a].Index? && w.nodes[a].pivots != [] && a in w.bounds
    requires w.bounds[a].lo.None? && In(w.bounds[a], k) && k <= w.nodes[a].pivots[0] && ParentBelow(w.nodes, a, k)
    requires held.Some? ==> IsLeaf(w, held.value)
    ensures Interferes(w, w.(nodes := w.nodes[a := WithMinPivot(w.nodes[a], k)]), root, held)
  {
    hide TreeOk, Represents, ParentBelow, In;
    SetMinPivotOk(w.nodes, w.bounds, root, w.contents, a, k);
  }

  /* ---- The iterator ---- */

  /** Claimed: curr found and locked, end not yet known. Moving, Refinding: no lock held. */
  datatype Phase = Claimed | Holding | Moving | Refinding

  /** maxKey None stands for positive infinity. */
  datatype Scan = Scan(phase: Phase, curr: Addr, idx: nat, currMinIdx: int,
                       endAddr: Addr, endGeneration: nat, endIdx: nat,
                       minKey: Key, maxKey: Option<Key>, emitted: seq<Pair>)

  function KeysOf(s: seq<Pair>): (r: seq<Key>)
    ensures |r| == |s| && forall i | 0 <= i < |s| :: r[i] == s[i].key
  {
    seq(|s|, i requires 0 <= i < |s| => s[i].key)
  }

  lemma KeysOfMore(s: seq<Pair>, p: Pair)
    ensures KeysOf(s + [p]) == KeysOf(s) + [p.key]
  {
  }

  function Held(scan: Scan): Option<Addr> {
    if scan.phase == Claimed || scan.phase == Holding then Some(scan.curr) else None
  }

  /** `find_key_in_node` with greater_than_or_equal: the number of keys below k. */
  function Below(s: seq<Pair>, k: Key): (n: nat)
    ensures n <= |s|
  {
    if s == [] || k <= s[0].key then 0 else 1 + Below(s[1..], k)
  }

  lemma {:induction false} BelowMeaning(s: seq<Pair>, k: Key)
    requires StrictlySorted(s)
    ensures forall i | 0 <= i < Below(s, k) :: s[i].key < k
    ensures forall i | Below(s, k) <= i < |s| :: k <= s[i].key
  {
    if s != [] && s[0].key < k {
      BelowMeaning(s[1..], k);
      assert forall i | 0 < i < |s| :: s[i] == s[1..][i - 1];
    }
  }

  function EndIndex(s: seq<Pair>, maxKey: Option<Key>): nat {
    if maxKey.None? then |s| else Below(s, maxKey.value)
  }

  predicate InTarget(b: Bounds, maxKey: Option<Key>) {
    if maxKey.None? then b.hi.None? else In(b, maxKey.value)
  }

  predicate CanNext(scan: Scan) {
    scan.curr != scan.endAddr || (scan.idx < scan.endIdx && scan.currMinIdx != scan.endIdx)
  }

  /** `btree_iterator_init` up to the claim on the leaf of the start key. */
  function Begin(curr: Addr, minKey: Key, maxKey: Option<Key>): Scan {
    var max := if maxKey.Some? && maxKey.value < minKey then Some(minKey) else maxKey;
    Scan(Claimed, curr, 0, 0, NO_ADDR, 0, 0, minKey, max, [])
  }

  /** `btree_iterator_find_end`, given the leaf its lookup ends at. */
  function WithEnd(w: World, scan: Scan, end: Addr): Scan
    requires IsLeaf(w, end)
  {
    scan.(endAddr := end, endGeneration := w.generations[end], endIdx := EndIndex(w.nodes[end].entries, scan.maxKey))
  }

  /** The rest of `find_btree_node_and_get_idx_bounds`. */
  function Positioned(w: World, scan: Scan): Scan
    requires IsLeaf(w, scan.curr)
  {
    var leaf := w.nodes[scan.curr];
    var idx := Below(leaf.entries, scan.minKey);
    var found := idx < |leaf.entries| && leaf.entries[idx].key == scan.minKey;
    var minIdx := if !found && idx == 0 && leaf.prev != NO_ADDR then -1 else idx;
    if scan.curr != scan.endAddr && idx == |leaf.entries|
    then scan.(phase := Moving, curr := leaf.next, idx := 0, currMinIdx := 0)
    else scan.(phase := Holding, idx := idx, currMinIdx := minIdx)
  }

  /** `btree_iterator_curr` and `btree_iterator_next`. */
  function Advanced(w: World, scan: Scan): Scan
    requires IsLeaf(w, scan.curr) && scan.idx < |w.nodes[scan.curr].entries|
  {
    var leaf := w.nodes[scan.curr];
    var next := scan.(emitted := scan.emitted + [leaf.entries[scan.idx]], idx := scan.idx + 1);
    if next.idx == |leaf.entries| && CanNext(next)
    then next.(phase := Moving, curr := leaf.next, idx := 0, currMinIdx := -1) else next
  }

  /** The leaf is locked again, and the generation of the end leaf is checked. */
  function Acquired(w: World, scan: Scan): Scan
    requires IsLeaf(w, scan.curr)
  {
    if scan.curr == scan.endAddr && w.generations[scan.curr] != scan.endGeneration
    then scan.(phase := Refinding) else scan.(phase := Holding)
  }

  /* ---- The invariant ---- */

  /** The scan has dealt with exactly the keys of the initial tree that lie below k. */
  ghost predicate DoneBelow(emitted: seq<Key>, minKey: Key, initial: map<Key, Message>, k: Key) {
    && minKey <= k
    && (forall j | j in initial && minKey <= j < k :: j in emitted)
    && (forall j | j in emitted :: j < k)
  }

  ghost predicate EmittedOk(emitted: seq<Key>, minKey: Key, maxKey: Option<Key>) {
    && (forall i, j | 0 <= i < j < |emitted| :: emitted[i] < emitted[j])
    && (forall k | k in emitted :: minKey <= k && (maxKey.Some? ==> k < maxKey.value))
  }

  /** curr is the end leaf, or lies wholly before it. */
  predicate BeforeEnd(w: World, scan: Scan) {
    && IsLeaf(w, scan.curr) && IsLeaf(w, scan.endAddr)
    && (scan.maxKey.Some? && w.bounds[scan.endAddr].lo.Some? ==> w.bounds[scan.endAddr].lo.value <= scan.maxKey.value)
    && (scan.curr != scan.endAddr ==>
          && w.bounds[scan.endAddr].lo.Some? && w.bounds[scan.curr].hi.Some?
          && w.bounds[scan.curr].hi.value <= w.bounds[scan.endAddr].lo.value)
  }

  /** While its generation stands, the end leaf is still the end. */
  predicate EndAccurate(w: World, scan: Scan)
    requires IsLeaf(w, scan.endAddr)
  {
    && scan.endGeneration <= w.generations[scan.endAddr]
    && (w.generations[scan.endAddr] == scan.endGeneration ==>
          && InTarget(w.bounds[scan.endAddr], scan.maxKey)
          && scan.endIdx == EndIndex(w.nodes[scan.endAddr].entries, scan.maxKey))
  }

  /** Where the scan stands in a leaf: before entry idx, or at the leaf's upper end. */
  ghost predicate Standing(w: World, scan: Scan, initial: map<Key, Message>)
    requires IsLeaf(w, scan.curr)
  {
    var s := w.nodes[scan.curr].entries;
    && scan.idx <= |s|
    && (scan.idx < |s| ==> DoneBelow(KeysOf(scan.emitted), scan.minKey, initial, s[scan.idx].key))
    && (scan.idx == |s| && w.bounds[scan.curr].hi.Some? ==>
      DoneBelow(KeysOf(scan.emitted), scan.minKey, initial, w.bounds[scan.curr].hi.value))
    && (scan.idx == |s| && w.bounds[scan.curr].hi.None? ==>
          forall j | j in initial && scan.minKey <= j ::
            j in KeysOf(scan.emitted))
  }

  ghost predicate ScanOk(w: World, root: Addr, scan: Scan, initial: map<Key, Message>) {
    && EmittedOk(KeysOf(scan.emitted), scan.minKey, scan.maxKey) && IsLeaf(w, scan.curr)
    && (scan.maxKey.Some? ==> scan.minKey <= scan.maxKey.value)
    && (forall k | k in initial :: k in w.contents)
    && match scan.phase
       case Claimed => scan.emitted == [] && In(w.bounds[scan.curr], scan.minKey)
       case Holding =>
         && BeforeEnd(w, scan) && EndAccurate(w, scan) && Standing(w, scan, initial)
         && (scan.curr != scan.endAddr ==> scan.idx < |w.nodes[scan.curr].entries|)
         && (scan.curr == scan.endAddr ==> w.generations[scan.endAddr] == scan.endGeneration)
         && scan.currMinIdx <= scan.idx
       case Moving =>
         && IsLeaf(w, scan.endAddr) && EndAccurate(w, scan) && scan.idx == 0 && scan.currMinIdx <= 0
         && w.bounds[scan.curr].lo.Some? && w.bounds[scan.endAddr].lo.Some?
         && w.bounds[scan.curr].lo.value <= w.bounds[scan.endAddr].lo.value
         && (scan.maxKey.Some? ==> w.bounds[scan.endAddr].lo.value <= scan.maxKey.value)
         && DoneBelow(KeysOf(scan.emitted), scan.minKey, initial, w.bounds[scan.curr].lo.value)
       case Refinding =>
         && scan.idx == 0 && scan.currMinIdx <= 0 && w.bounds[scan.curr].lo.Some?
         && (scan.maxKey.Some? ==> w.bounds[scan.curr].lo.value <= scan.maxKey.value)
         && DoneBelow(KeysOf(scan.emitted), scan.minKey, initial, w.bounds[scan.curr].lo.value)
  }

  /* ---- Leaves in order ---- */

  lemma LeavesApart(w: World, root: Addr, a: Addr, b: Addr)
    requires WorldOk(w, root) && IsLeaf(w, a) && IsLeaf(w, b) && a != b
    ensures Apart(w.bounds[a], w.bounds[b]) && NonEmpty(w.bounds[a]) && NonEmpty(w.bounds[b])
  {
    hide RootOk, Linked, Represents, LeafOk;
    OkAt(w.nodes, w.bounds, a);
    OkAt(w.nodes, w.bounds, b);
  }

  lemma LeafFacts(w: World, root: Addr, a: Addr)
    requires WorldOk(w, root) && IsLeaf(w, a)
    ensures LeafOk(w.nodes[a].entries, w.bounds[a]) && NonEmpty(w.bounds[a])
    ensures NextOk(w.nodes, w.bounds, a) && PrevOk(w.nodes, w.bounds, a)
    ensures a == root ==> w.bounds[a] == EVERYTHING
    ensures w.nodes[a].next in w.nodes && w.nodes[w.nodes[a].next].Leaf? ==> IsLeaf(w, w.nodes[a].next)
  {
    hide Represents;
    OkAt(w.nodes, w.bounds, a);
  }

  /** A key of the tree that lies in a leaf's interval is one of its entries. */
  lemma InLeaf(w: World, root: Addr, a: Addr, k: Key) returns (i: nat)
    requires WorldOk(w, root) && IsLeaf(w, a) && In(w.bounds[a], k) && k in w.contents
    ensures i < |w.nodes[a].entries| && w.nodes[a].entries[i].key == k
  {
    hide RootOk, AllNodesOk, Linked, Separate;
    assert Lookup(w.nodes[a].entries, k) == Get(w.contents, k);
    i := LookupFinds(w.nodes[a].entries, k);
  }

  lemma {:induction false} LookupFinds(s: seq<Pair>, k: Key) returns (i: nat)
    requires Lookup(s, k).Some?
    ensures i < |s| && s[i].key == k
  {
    if s[0].key == k {
      i := 0;
    } else {
      i := LookupFinds(s[1..], k);
      i := i + 1;
    }
  }

  /* ---- Every step keeps the invariant ---- */

  lemma BeginOk(w: World, root: Addr, curr: Addr, minKey: Key, maxKey: Option<Key>)
    requires WorldOk(w, root) && IsLeaf(w, curr) && In(w.bounds[curr], minKey)
    ensures ScanOk(w, root, Begin(curr, minKey, maxKey), w.contents)
  {
  }

  lemma InterferenceOk(w: World, w': World, root: Addr, scan: Scan, initial: map<Key, Message>)
    requires WorldOk(w, root) && ScanOk(w, root, scan, initial) && Interferes(w, w', root, Held(scan))
    ensures ScanOk(w', root, scan, initial)
  {
    hide WorldOk, EmittedOk, DoneBelow, In, Below, EndIndex, InTarget;
    if scan.phase == Holding || scan.phase == Moving {
      LeafFactsRoot(w, root, scan.endAddr);
    }
    LeafFactsRoot(w, root, scan.curr);
    if scan.curr != root {
      assert LeafEvolves(w, w', scan.curr);
    }
    if scan.endAddr != root && IsLeaf(w, scan.endAddr) {
      assert LeafEvolves(w, w', scan.endAddr);
    }
  }

  lemma LeafFactsRoot(w: World, root: Addr, a: Addr)
    requires WorldOk(w, root) && IsLeaf(w, a)
    ensures a == root ==> w.bounds[a] == EVERYTHING
  {
  }

  /** The leaf responsible for the upper end does not come before curr. */
  lemma EndIsBehind(w: World, root: Addr, curr: Addr, end: Addr, maxKey: Option<Key>)
    requires WorldOk(w, root) && IsLeaf(w, curr) && IsLeaf(w, end) && InTarget(w.bounds[end], maxKey) && curr != end
    requires maxKey.Some? && w.bounds[curr].lo.Some? ==> w.bounds[curr].lo.value <= maxKey.value
    ensures w.bounds[curr].hi.Some? && w.bounds[end].lo.Some?
    ensures w.bounds[curr].hi.value <= w.bounds[end].lo.value
  {
    hide WorldOk;
    LeavesApart(w, root, curr, end);
  }

  lemma FindEndWhileClaimed(w: World, root: Addr, scan: Scan, initial: map<Key, Message>, end: Addr)
    requires WorldOk(w, root) && ScanOk(w, root, scan, initial) && scan.phase == Claimed
    requires IsLeaf(w, end) && InTarget(w.bounds[end], scan.maxKey)
    ensures ScanOk(w, root, Positioned(w, WithEnd(w, scan, end)), initial)
  {
    hide WorldOk, EndIndex;
    LeafFacts(w, root, scan.curr);
    LeafFacts(w, root, end);
    var s := w.nodes[scan.curr].entries;
    BelowMeaning(s, scan.minKey);
    if scan.curr != end {
      EndIsBehind(w, root, scan.curr, end, scan.maxKey);
    }
    var idx := Below(s, scan.minKey);
    forall j | j in initial && scan.minKey <= j && (if idx < |s| then j < s[idx].key else In(w.bounds[scan.curr], j))
      ensures false
    {
      var i := InLeaf(w, root, scan.curr, j);
      assert false;
    }
  }

  lemma FindEndAgain(w: World, root: Addr, scan: Scan, initial: map<Key, Message>, end: Addr)
    requires WorldOk(w, root) && ScanOk(w, root, scan, initial) && scan.phase == Refinding
    requires IsLeaf(w, end) && InTarget(w.bounds[end], scan.maxKey)
    ensures ScanOk(w, root, WithEnd(w, scan, end).(phase := Moving), initial)
  {
    hide WorldOk, EndIndex, EmittedOk;
    if scan.curr != end {
      EndIsBehind(w, root, scan.curr, end, scan.maxKey);
      LeavesApart(w, root, scan.curr, end);
    }
  }

  lemma AcquireOk(w: World, root: Addr, scan: Scan, initial: map<Key, Message>)
    requires WorldOk(w, root) && ScanOk(w, root, scan, initial) && scan.phase == Moving
    ensures ScanOk(w, root, Acquired(w, scan), initial)
  {
    hide WorldOk, EndIndex, EmittedOk, InTarget;
    LeafFacts(w, root, scan.curr);
    if scan.curr != scan.endAddr {
      LeavesApart(w, root, scan.curr, scan.endAddr);
    }
  }

  lemma AdvanceOk(w: World, root: Addr, scan: Scan, initial: map<Key, Message>)
    requires WorldOk(w, root) && ScanOk(w, root, scan, initial) && scan.phase == Holding && CanNext(scan)
    ensures scan.idx < |w.nodes[scan.curr].entries|
    ensures ScanOk(w, root, Advanced(w, scan), initial)
  {
    hide WorldOk, EmittedOk, EndIndex, DoneBelow;
    LeafFacts(w, root, scan.curr);
    var s := w.nodes[scan.curr].entries;
    EndIndexMeaning(s, scan.maxKey);
    EmitInRange(w, root, scan);
    EmitSorted(scan, initial, s[scan.idx].key);
    KeysOfMore(scan.emitted, s[scan.idx]);
    AdvanceStands(w, root, scan, initial);
  }

  lemma EndIndexMeaning(s: seq<Pair>, maxKey: Option<Key>)
    requires StrictlySorted(s)
    ensures EndIndex(s, maxKey) <= |s|
    ensures forall i | 0 <= i < EndIndex(s, maxKey) :: maxKey.Some? ==> s[i].key < maxKey.value
    ensures forall i | EndIndex(s, maxKey) <= i < |s| :: maxKey.Some? && maxKey.value <= s[i].key
  {
    if maxKey.Some? {
      BelowMeaning(s, maxKey.value);
    }
  }

  lemma EmitInRange(w: World, root: Addr, scan: Scan)
    requires WorldOk(w, root) && IsLeaf(w, scan.curr) && BeforeEnd(w, scan) && EndAccurate(w, scan) && CanNext(scan)
    requires scan.curr == scan.endAddr ==> w.generations[scan.endAddr] == scan.endGeneration
    requires scan.curr != scan.endAddr ==> scan.idx < |w.nodes[scan.curr].entries|
    ensures scan.idx < |w.nodes[scan.curr].entries|
    ensures scan.maxKey.Some? ==> w.nodes[scan.curr].entries[scan.idx].key < scan.maxKey.value
  {
    hide WorldOk, EndIndex;
    LeafFacts(w, root, scan.curr);
    EndIndexMeaning(w.nodes[scan.curr].entries, scan.maxKey);
  }

  lemma EmitSorted(scan: Scan, initial: map<Key, Message>, k: Key)
    requires EmittedOk(KeysOf(scan.emitted), scan.minKey, scan.maxKey)
    requires DoneBelow(KeysOf(scan.emitted), scan.minKey, initial, k)
    requires scan.maxKey.Some? ==> k < scan.maxKey.value
    ensures EmittedOk(KeysOf(scan.emitted) + [k], scan.minKey, scan.maxKey)
  {
    assert forall j | 0 <= j < |scan.emitted| :: KeysOf(scan.emitted)[j] in KeysOf(scan.emitted);
  }

  /** Between two neighbouring entries there is no key to miss. */
  lemma AdvanceStands(w: World, root: Addr, scan: Scan, initial: map<Key, Message>)
    requires WorldOk(w, root) && IsLeaf(w, scan.curr) && Standing(w, scan, initial)
    requires scan.idx < |w.nodes[scan.curr].entries| && forall k | k in initial :: k in w.contents
    ensures var p := w.nodes[scan.curr].entries[scan.idx];
      Standing(w, scan.(emitted := scan.emitted + [p], idx := scan.idx + 1), initial)
  {
    hide WorldOk;
    LeafFacts(w, root, scan.curr);
    var s := w.nodes[scan.curr].entries;
    KeysOfMore(scan.emitted, s[scan.idx]);
    var emitted' := KeysOf(scan.emitted) + [s[scan.idx].key];
    var n := scan.idx + 1;
    forall j | j in initial && s[scan.idx].key <= j && (if n < |s| then j < s[n].key else In(w.bounds[scan.curr], j))
      ensures j in emitted'
    {
      var i := InLeaf(w, root, scan.curr, j);
      assert i == scan.idx;
    }
  }

  /* ---- Whole runs ---- */

  datatype Event = Others(after: World) | FindEnd(end: Addr) | Acquire | Next

  ghost predicate CanStep(w: World, root: Addr, scan: Scan, ev: Event) {
    match ev
    case Others(w') => Interferes(w, w', root, Held(scan))
    case FindEnd(end) =>
      (scan.phase == Claimed || scan.phase == Refinding) && IsLeaf(w, end) && InTarget(w.bounds[end], scan.maxKey)
      && IsLeaf(w, scan.curr)
    case Acquire => scan.phase == Moving && IsLeaf(w, scan.curr)
    case Next =>
      scan.phase == Holding && CanNext(scan) && IsLeaf(w, scan.curr) && scan.idx < |w.nodes[scan.curr].entries|
  }

  function Stepped(w: World, scan: Scan, ev: Event): Scan
    requires ev.FindEnd? ==> IsLeaf(w, ev.end)
    requires !ev.Others? ==> IsLeaf(w, scan.curr)
    requires ev.Next? ==> scan.idx < |w.nodes[scan.curr].entries|
  {
    match ev
    case Others(_) => scan
    case FindEnd(end) =>
      if scan.phase == Claimed then Positioned(w, WithEnd(w, scan, end)) else WithEnd(w, scan, end).(phase := Moving)
    case Acquire => Acquired(w, scan)
    case Next => Advanced(w, scan)
  }

  function WorldAfter(w: World, ev: Event): World {
    if ev.Others? then ev.after else w
  }

  ghost predicate CanScan(w: World, root: Addr, scan: Scan, run: seq<Event>)
    decreases |run|
  {
    run != [] ==>
      CanStep(w, root, scan, run[0]) && CanScan(WorldAfter(w, run[0]), root, Stepped(w, scan, run[0]), run[1..])
  }

  ghost function FinalScan(w: World, root: Addr, scan: Scan, run: seq<Event>): Scan
    requires CanScan(w, root, scan, run)
    decreases |run|
  {
    if run == [] then scan else FinalScan(WorldAfter(w, run[0]), root, Stepped(w, scan, run[0]), run[1..])
  }

  ghost function FinalWorld(w: World, root: Addr, scan: Scan, run: seq<Event>): World
    requires CanScan(w, root, scan, run)
    decreases |run|
  {
    if run == [] then w else FinalWorld(WorldAfter(w, run[0]), root, Stepped(w, scan, run[0]), run[1..])
  }

  lemma StepOk(w: World, root: Addr, scan: Scan, initial: map<Key, Message>, ev: Event)
    requires WorldOk(w, root) && ScanOk(w, root, scan, initial) && CanStep(w, root, scan, ev)
    ensures WorldOk(WorldAfter(w, ev), root) && ScanOk(WorldAfter(w, ev), root, Stepped(w, scan, ev), initial)
  {
    hide WorldOk, ScanOk, Positioned, WithEnd, Acquired, Advanced, InTarget;
    match ev
    case Others(w') =>
      InterferenceOk(w, w', root, scan, initial);
    case FindEnd(end) =>
      if scan.phase == Claimed {
        FindEndWhileClaimed(w, root, scan, initial, end);
      } else {
        FindEndAgain(w, root, scan, initial, end);
      }
    case Acquire =>
      AcquireOk(w, root, scan, initial);
    case Next =>
      AdvanceOk(w, root, scan, initial);
  }

  lemma {:induction false} RunOk(w: World, root: Addr, scan: Scan, initial: map<Key, Message>, run: seq<Event>)
    requires WorldOk(w, root) && ScanOk(w, root, scan, initial) && CanScan(w, root, scan, run)
    ensures WorldOk(FinalWorld(w, root, scan, run), root)
    ensures ScanOk(FinalWorld(w, root, scan, run), root, FinalScan(w, root, scan, run), initial)
    decreases |run|
  {
    hide WorldOk, ScanOk, Stepped;
    if run != [] {
      StepOk(w, root, scan, initial, run[0]);
      RunOk(WorldAfter(w, run[0]), root, Stepped(w, scan, run[0]), initial, run[1..]);
    }
  }

  lemma FinishedMeans(w: World, root: Addr, scan: Scan, initial: map<Key, Message>)
    requires WorldOk(w, root) && ScanOk(w, root, scan, initial) && scan.phase == Holding && !CanNext(scan)
    ensures forall k | k in initial && scan.minKey <= k && (scan.maxKey.Some? ==> k < scan.maxKey.value) ::
      k in KeysOf(scan.emitted)
  {
    hide WorldOk, EndIndex;
    LeafFacts(w, root, scan.curr);
    EndIndexMeaning(w.nodes[scan.curr].entries, scan.maxKey);
  }

  /* ---- What is emitted is in the tree ---- */

  /** A tuple of a leaf is what the tree holds for its key. */
  lemma EntryIsHeld(w: World, root: Addr, a: Addr, i: nat)
    requires WorldOk(w, root) && IsLeaf(w, a) && i < |w.nodes[a].entries|
    ensures Get(w.contents, w.nodes[a].entries[i].key) == Some(w.nodes[a].entries[i].msg)
  {
    hide RootOk, Separate, Linked;
    OkAt(w.nodes, w.bounds, a);
    LookupAt(w.nodes[a].entries, i);
    assert In(w.bounds[a], w.nodes[a].entries[i].key);
    assert Lookup(w.nodes[a].entries, w.nodes[a].entries[i].key) == Get(w.contents, w.nodes[a].entries[i].key);
  }

  /** A step emits one pair of the tree, if it is Next, and nothing otherwise. */
  lemma StepEmits(w: World, root: Addr, scan: Scan, ev: Event)
    requires WorldOk(w, root) && CanStep(w, root, scan, ev)
    ensures !ev.Next? ==> Stepped(w, scan, ev).emitted == scan.emitted
    ensures ev.Next? ==>
      && |Stepped(w, scan, ev).emitted| == |scan.emitted| + 1 && scan.emitted <= Stepped(w, scan, ev).emitted
      && var p := Stepped(w, scan, ev).emitted[|scan.emitted|]; Get(w.contents, p.key) == Some(p.msg)
  {
    hide WorldOk, In, InTarget, Below, EndIndex;
    if ev.Next? {
      EntryIsHeld(w, root, scan.curr, scan.idx);
    }
  }

  lemma StepWorldOk(w: World, root: Addr, scan: Scan, ev: Event)
    requires WorldOk(w, root) && CanStep(w, root, scan, ev)
    ensures WorldOk(WorldAfter(w, ev), root)
  {
    hide WorldOk;
  }

  lemma {:induction false} EmittedGrows(w: World, root: Addr, scan: Scan, run: seq<Event>)
    requires WorldOk(w, root) && CanScan(w, root, scan, run)
    ensures scan.emitted <= FinalScan(w, root, scan, run).emitted
    decreases |run|
  {
    hide WorldOk, In, InTarget, Below, EndIndex, KeysOf, Interferes, Positioned, Acquired, Advanced, CanNext;
    if run != [] {
      StepEmits(w, root, scan, run[0]);
      StepWorldOk(w, root, scan, run[0]);
      EmittedGrows(WorldAfter(w, run[0]), root, Stepped(w, scan, run[0]), run[1..]);
    }
  }

  /** Emission n of a run happened at event i: a Next, in a world that mapped the key to the message. */
  ghost predicate EmittedAt(w: World, root: Addr, scan: Scan, run: seq<Event>, n: nat, i: nat)
    requires CanScan(w, root, scan, run) && n < |FinalScan(w, root, scan, run).emitted|
  {
    && i < |run| && run[i].Next? && CanScan(w, root, scan, run[..i])
    && |FinalScan(w, root, scan, run[..i]).emitted| == n
    && var p := FinalScan(w, root, scan, run).emitted[n];
       Get(FinalWorld(w, root, scan, run[..i]).contents, p.key) == Some(p.msg)
  }

  /** Emission n of a run was a pair of the tree at the moment it was emitted. */
  ghost predicate WasHeld(w: World, root: Addr, scan: Scan, run: seq<Event>, n: nat)
    requires CanScan(w, root, scan, run) && n < |FinalScan(w, root, scan, run).emitted|
  {
    exists i: nat :: EmittedAt(w, root, scan, run, n, i)
  }

  lemma {:induction false} EmittedWasHeld(w: World, root: Addr, scan: Scan, run: seq<Event>, n: nat) returns (i: nat)
    requires WorldOk(w, root) && CanScan(w, root, scan, run)
    requires |scan.emitted| <= n < |FinalScan(w, root, scan, run).emitted|
    ensures EmittedAt(w, root, scan, run, n, i)
    decreases |run|
  {
    hide WorldOk, In, InTarget, Below, EndIndex, KeysOf, Interferes, Positioned, Acquired, Advanced, CanNext, Get;
    var w', scan' := WorldAfter(w, run[0]), Stepped(w, scan, run[0]);
    StepEmits(w, root, scan, run[0]);
    StepWorldOk(w, root, scan, run[0]);
    EmittedGrows(w', root, scan', run[1..]);
    if run[0].Next? && n == |scan.emitted| {
      i := 0;
      assert run[..0] == [];
    } else {
      var j := EmittedWasHeld(w', root, scan', run[1..], n);
      i := j + 1;
      assert run[..i][1..] == run[1..][..j] && run[1..][j] == run[i];
    }
  }

  /**
    Any scan, with any inserts and splits in between: what it has emitted so far is strictly
    increasing and within the bounds, each pair was in the tree when it was emitted, and when
    the scan stops it has missed no key that was present at the start.
   */
  lemma ScanMissesNothing(w: World, root: Addr, curr: Addr, minKey: Key, maxKey: Option<Key>, run: seq<Event>)
    requires WorldOk(w, root) && IsLeaf(w, curr) && In(w.bounds[curr], minKey)
    requires CanScan(w, root, Begin(curr, minKey, maxKey), run)
    ensures var t := FinalScan(w, root, Begin(curr, minKey, maxKey), run); var keys := KeysOf(t.emitted);
      && (forall i, j | 0 <= i < j < |keys| :: keys[i] < keys[j])
      && (forall k | k in keys :: minKey <= k && (maxKey.Some? ==> k < maxKey.value))
      && (t.phase == Holding && !CanNext(t) ==>
            forall k | k in w.contents && minKey <= k && (maxKey.Some? ==> k < maxKey.value) :: k in keys)
    ensures forall n: nat | n < |FinalScan(w, root, Begin(curr, minKey, maxKey), run).emitted| ::
      WasHeld(w, root, Begin(curr, minKey, maxKey), run, n)
  {
    hide WorldOk, ScanOk, CanScan, FinalScan, FinalWorld, In, EmittedAt;
    var scan := Begin(curr, minKey, maxKey);
    BeginOk(w, root, curr, minKey, maxKey);
    RunOk(w, root, scan, w.contents, run);
    var v, t := FinalWorld(w, root, scan, run), FinalScan(w, root, scan, run);
    KeepsKeys(w, root, scan, run);
    EmittedMeans(v, root, t, w.contents);
    if t.phase == Holding && !CanNext(t) {
      FinishedMeans(v, root, t, w.contents);
    }
    forall n: nat | n < |t.emitted| ensures WasHeld(w, root, scan, run, n) {
      var i := EmittedWasHeld(w, root, scan, run, n);
    }
  }

  /* ---- Left alone, a scan comes to its end ---- */

  /** The keys still to come at most. */
  function Unseen(w: World, scan: Scan): set<Key> {
    set k | k in w.contents && k !in KeysOf(scan.emitted)
  }

  /** Steps to the next key or the end, at most. */
  function Delay(w: World, scan: Scan): nat {
    match scan.phase
    case Holding => 0
    case Moving => if scan.endAddr in w.generations && w.generations[scan.endAddr] == scan.endGeneration then 1 else 3
    case _ => 2
  }

  /** What a scan does next. */
  function Due(scan: Scan, end: Addr): Event {
    match scan.phase
    case Holding => Next
    case Moving => Acquire
    case _ => FindEnd(end)
  }

  predicate Ended(scan: Scan) {
    scan.phase == Holding && !CanNext(scan)
  }

  lemma DueAdvances(w: World, root: Addr, scan: Scan, initial: map<Key, Message>, end: Addr)
    requires WorldOk(w, root) && ScanOk(w, root, scan, initial) && !Ended(scan)
    requires IsLeaf(w, end) && InTarget(w.bounds[end], scan.maxKey)
    ensures CanStep(w, root, scan, Due(scan, end))
    ensures var scan' := Stepped(w, scan, Due(scan, end));
      && scan'.maxKey == scan.maxKey
      && if scan.phase == Holding then Unseen(w, scan') < Unseen(w, scan)
         else Unseen(w, scan') == Unseen(w, scan) && Delay(w, scan') < Delay(w, scan)
  {
    hide WorldOk, In, InTarget, Below, EndIndex, DoneBelow, Standing;
    if scan.phase == Holding {
      AdvanceOk(w, root, scan, initial);
      EntryIsHeld(w, root, scan.curr, scan.idx);
      OneLess(w, scan, Stepped(w, scan, Next), w.nodes[scan.curr].entries[scan.idx]);
    }
  }

  lemma OneLess(w: World, scan: Scan, scan': Scan, p: Pair)
    requires scan'.emitted == scan.emitted + [p] && p.key in w.contents
    requires EmittedOk(KeysOf(scan'.emitted), scan.minKey, scan.maxKey)
    ensures Unseen(w, scan') < Unseen(w, scan)
  {
    KeysOfMore(scan.emitted, p);
    var keys, keys' := KeysOf(scan.emitted), KeysOf(scan'.emitted);
    assert keys'[|keys|] == p.key;
    forall i | 0 <= i < |keys| ensures keys[i] < p.key {
      assert keys'[i] == keys[i];
    }
    assert p.key in Unseen(w, scan) && p.key !in Unseen(w, scan');
  }

  /** Wherever interference has brought it: left alone with an end to find, a scan ends. */
  lemma {:induction false} LeftAloneEnds(w: World, root: Addr, scan: Scan, initial: map<Key, Message>, end: Addr)
    returns (run: seq<Event>)
    requires WorldOk(w, root) && ScanOk(w, root, scan, initial)
    requires IsLeaf(w, end) && InTarget(w.bounds[end], scan.maxKey)
    ensures CanScan(w, root, scan, run) && Ended(FinalScan(w, root, scan, run))
    ensures forall i | 0 <= i < |run| :: !run[i].Others?
    decreases Unseen(w, scan), Delay(w, scan)
  {
    hide WorldOk, ScanOk, InTarget, Unseen, Delay, Positioned, WithEnd, Acquired, Advanced, CanNext, KeysOf;
    run := [];
    if !Ended(scan) {
      var ev := Due(scan, end);
      DueAdvances(w, root, scan, initial, end);
      StepOk(w, root, scan, initial, ev);
      var rest := LeftAloneEnds(w, root, Stepped(w, scan, ev), initial, end);
      run := [ev] + rest;
      assert run[1..] == rest;
    }
  }

  /** On a tree that stands still the scan yields exactly the tuples within its bounds. */
  lemma StillTreeScanned(w: World, root: Addr, curr: Addr, minKey: Key, maxKey: Option<Key>, end: Addr)
    returns (run: seq<Event>)
    requires WorldOk(w, root) && IsLeaf(w, curr) && In(w.bounds[curr], minKey)
    requires IsLeaf(w, end) && InTarget(w.bounds[end], Begin(curr, minKey, maxKey).maxKey)
    ensures var scan := Begin(curr, minKey, maxKey);
      && CanScan(w, root, scan, run) && Ended(FinalScan(w, root, scan, run))
      && var s := FinalScan(w, root, scan, run).emitted;
         && StrictlySorted(s)
         && forall k :: Lookup(s, k)
              == if minKey <= k && (maxKey.Some? ==> k < maxKey.value) then Get(w.contents, k) else None
  {
    hide WorldOk, CanScan, FinalScan, In, InTarget, CanNext;
    var scan := Begin(curr, minKey, maxKey);
    BeginOk(w, root, curr, minKey, maxKey);
    run := LeftAloneEnds(w, root, scan, w.contents, end);
    ScanMissesNothing(w, root, curr, minKey, maxKey, run);
    var s := FinalScan(w, root, scan, run).emitted;
    forall n: nat | n < |s| ensures Get(w.contents, s[n].key) == Some(s[n].msg) {
      StillEmits(w, root, scan, run, n);
    }
    forall k ensures Lookup(s, k)
      == if minKey <= k && (maxKey.Some? ==> k < maxKey.value) then Get(w.contents, k) else None
    {
      if k in KeysOf(s) {
        var i :| 0 <= i < |s| && KeysOf(s)[i] == k;
        LookupAt(s, i);
      } else if Lookup(s, k).Some? {
        var i := LookupFinds(s, k);
        assert false;
      }
    }
  }

  lemma StillEmits(w: World, root: Addr, scan: Scan, run: seq<Event>, n: nat)
    requires CanScan(w, root, scan, run) && n < |FinalScan(w, root, scan, run).emitted|
    requires WasHeld(w, root, scan, run, n) && forall i | 0 <= i < |run| :: !run[i].Others?
    ensures var p := FinalScan(w, root, scan, run).emitted[n]; Get(w.contents, p.key) == Some(p.msg)
  {
    hide CanScan, FinalScan, FinalWorld, Get;
    var i: nat :| EmittedAt(w, root, scan, run, n, i);
    StillWorld(w, root, scan, run[..i]);
  }

  lemma {:induction false} StillWorld(w: World, root: Addr, scan: Scan, run: seq<Event>)
    requires CanScan(w, root, scan, run) && forall i | 0 <= i < |run| :: !run[i].Others?
    ensures FinalWorld(w, root, scan, run) == w
    decreases |run|
  {
    hide Positioned, WithEnd, Acquired, Advanced, CanNext, KeysOf, InTarget;
    if run != [] {
      assert !run[0].Others?;
      StillWorld(WorldAfter(w, run[0]), root, Stepped(w, scan, run[0]), run[1..]);
    }
  }

  lemma EmittedMeans(w: World, root: Addr, scan: Scan, initial: map<Key, Message>)
    requires ScanOk(w, root, scan, initial)
    ensures EmittedOk(KeysOf(scan.emitted), scan.minKey, scan.maxKey)
  {
  }

  lemma {:induction false} KeepsKeys(w: World, root: Addr, scan: Scan, run: seq<Event>)
    requires CanScan(w, root, scan, run)
    ensures FinalScan(w, root, scan, run).minKey == scan.minKey && FinalScan(w, root, scan, run).maxKey == scan.maxKey
    decreases |run|
  {
    hide Below, EndIndex, Stepped;
    if run != [] {
      assert CanStep(w, root, scan, run[0]);
      StepKeepsKeys(w, root, scan, run[0]);
      KeepsKeys(WorldAfter(w, run[0]), root, Stepped(w, scan, run[0]), run[1..]);
    }
  }

  lemma StepKeepsKeys(w: World, root: Addr, scan: Scan, ev: Event)
    requires CanStep(w, root, scan, ev)
    ensures Stepped(w, scan, ev).minKey == scan.minKey && Stepped(w, scan, ev).maxKey == scan.maxKey
  {
  }
}
