/**
  Pages and the nodes they hold: an index page spells out the pivots and children of a
  node, a leaf page its tuples, byte by byte. What splitting, growing and updating do to the
  pages is what they do to the nodes.
 */
module PagedNodes {
  import opened Wrappers
  import opened DataConfig
  import opened MergeSpec
  import opened PageLayout
  import opened IndexPage
  import opened LeafRefinement
  import opened BTreeShape
  import opened BTreeUpdates
  import opened BTree
  import L = LeafSearch
  import LP = LeafPage
  import LU = LeafUpdate
  import LI = LeafInsert
  import LS = LeafSplit

  /** What a tree is configured with: its page size, the longest key that is inserted, and the callbacks on bytes. */
  datatype Format = Format(
    pageSize: nat,
    keyLimit: nat,
    rank: Image -> Key,
    merge: (Image, L.Value, L.Value) -> L.Value,
    cfg: Config,
    read: Reading)

  ghost predicate FormatOk(f: Format) {
    && PageSizeOk(f.pageSize) && f.keyLimit <= f.pageSize / 8
    && LI.MergeStaysInline(f.merge, f.pageSize) && MergesAlike(f.cfg, f.rank, f.read, f.merge)
  }

  /** Short keys leave room for a pivot behind every pivot 0 that is lowered late. */
  predicate ShortKeys(f: Format) {
    f.keyLimit <= f.pageSize / 16
  }

  /** A page as it is stored. */
  datatype PageImage = IndexImage(layout: Layout) | LeafImage(bytes: Image)

  ghost predicate Decodes(e: seq<IndexEntry>, n: Node, rank: Image -> Key)
    requires n.Index?
  {
    && |e| == |n.pivots| == |n.children|
    && forall i | 0 <= i < |e| :: rank(e[i].pivot) == n.pivots[i] && e[i].childAddr == n.children[i]
  }

  ghost predicate HoldsIndex(f: Format, page: Layout, n: Node)
    requires n.Index?
  {
    && Arranged(page.slots, page.nextEntry, f.pageSize)
    && Decodes(Pivots(page.slots), n, f.rank) && PivotsWithin(Pivots(page.slots), f.keyLimit)
  }

  ghost predicate KeysWithin(s: seq<Tuple>, limit: nat) {
    forall i | 0 <= i < |s| :: |s[i].key| <= limit
  }

  /** A leaf without tuples has never had any. */
  ghost predicate HoldsLeaf(f: Format, p: Image, n: Node)
    requires n.Leaf?
  {
    && |p| == f.pageSize && WellFormed(p) && L.Sorted(Entries(p), f.rank) && LU.AllInline(Entries(p), |p|)
    && KeysWithin(Entries(p), f.keyLimit) && Decoded(Entries(p), f.rank, f.read) == n.entries
    && (n.entries == [] ==> LP.Compact(p))
  }

  ghost predicate Holds(f: Format, page: PageImage, n: Node) {
    match n
    case Index(_, _, _) => page.IndexImage? && HoldsIndex(f, page.layout, n)
    case Leaf(_, _, _) => page.LeafImage? && HoldsLeaf(f, page.bytes, n)
  }

  ghost predicate PagesHold(f: Format, nodes: Nodes, pages: map<Addr, PageImage>) {
    forall a | a in nodes :: a in pages && Holds(f, pages[a], nodes[a])
  }

  ghost predicate PagesHoldExcept(f: Format, nodes: Nodes, pages: map<Addr, PageImage>, a: Addr) {
    forall b | b in nodes && b != a :: b in pages && Holds(f, pages[b], nodes[b])
  }

  lemma IndexAt(f: Format, nodes: Nodes, pages: map<Addr, PageImage>, a: Addr)
    requires PagesHold(f, nodes, pages) && a in nodes && nodes[a].Index?
    ensures a in pages && pages[a].IndexImage? && HoldsIndex(f, pages[a].layout, nodes[a])
    ensures |pages[a].layout.slots| == |Pivots(pages[a].layout.slots)| == |nodes[a].pivots| == |nodes[a].children|
  {
  }

  lemma LeafAt(f: Format, nodes: Nodes, pages: map<Addr, PageImage>, a: Addr)
    requires PagesHold(f, nodes, pages) && a in nodes && nodes[a].Leaf?
    ensures a in pages && pages[a].LeafImage? && HoldsLeaf(f, pages[a].bytes, nodes[a])
  {
  }

  /** Bytes of a key that is short enough. */
  predicate IsForm(f: Format, k: Key, b: Image) {
    f.rank(b) == k && |b| <= f.keyLimit
  }

  /** The page has room for another pivot, provided keys are short. */
  predicate Ready(f: Format, page: Layout) {
    ShortKeys(f) ==> Accepts(|page.slots|, page.nextEntry, f.keyLimit)
  }

  predicate PageFull(f: Format, page: Layout) {
    IndexPage.Full(|page.slots|, page.nextEntry, f.pageSize)
  }

  lemma NotFullIsReady(f: Format, page: Layout)
    requires FormatOk(f) && !PageFull(f, page)
    ensures Ready(f, page)
  {
  }

  lemma MinKeyHolds(f: Format, e: seq<IndexEntry>, n: Node, key: Image)
    requires n.Index? && n.pivots != [] && Decodes(e, n, f.rank) && PivotsWithin(e, f.keyLimit) && |key| <= f.keyLimit
    ensures e != [] && Decodes(WithMinKey(e, true, key), WithMinPivot(n, f.rank(key)), f.rank)
    ensures PivotsWithin(WithMinKey(e, true, key), f.keyLimit)
  {
  }

  lemma HalvesHold(f: Format, e: seq<IndexEntry>, n: Node, t: nat)
    requires n.Index? && Decodes(e, n, f.rank) && PivotsWithin(e, f.keyLimit) && 0 < t < |e|
    ensures Decodes(e[..t], LeftIndex(n, t), f.rank) && PivotsWithin(e[..t], f.keyLimit)
    ensures Decodes(e[t..], RightIndex(n, t), f.rank) && PivotsWithin(e[t..], f.keyLimit)
    ensures f.rank(e[t].pivot) == n.pivots[t] && |e[t].pivot| <= f.keyLimit
  {
  }

  lemma ChildHolds(f: Format, e: seq<IndexEntry>, n: Node, at: nat, x: IndexEntry)
    requires n.Index? && Decodes(e, n, f.rank) && PivotsWithin(e, f.keyLimit) && at <= |e| && |x.pivot| <= f.keyLimit
    ensures Decodes(e[..at] + [x] + e[at..], WithChild(n, at, f.rank(x.pivot), x.childAddr), f.rank)
    ensures PivotsWithin(e[..at] + [x] + e[at..], f.keyLimit)
  {
  }

  /** One node and its page change. */
  lemma StoredHolds(f: Format, nodes: Nodes, was: Nodes, pages: map<Addr, PageImage>, a: Addr, page: PageImage)
    requires PagesHold(f, was, pages) && a in nodes && nodes == was[a := nodes[a]] && Holds(f, page, nodes[a])
    ensures PagesHold(f, nodes, pages[a := page])
  {
    hide Holds;
  }

  lemma ChildStored(f: Format, was: Nodes, pages: map<Addr, PageImage>, a: Addr, n: Node)
    requires PagesHold(f, was, pages)
    ensures PagesHoldExcept(f, was[a := n], pages, a)
  {
    hide Holds;
  }

  /** Pages after a split. */
  lemma SplitHolds(f: Format, nodes: Nodes, pages: map<Addr, PageImage>, p: Addr, ci: nat, x: Key, r: Addr,
      left: Node, right: Node, parentPage: PageImage, leftPage: PageImage, rightPage: PageImage)
    requires p in nodes && nodes[p].Index? && ci < |nodes[p].children| == |nodes[p].pivots|
    requires PagesHoldExcept(f, nodes, pages, nodes[p].children[ci])
    requires var a := nodes[p].children[ci]; a in nodes && a != p && a != r && p != r
    requires Holds(f, parentPage, WithChild(nodes[p], ci + 1, x, r))
    requires Holds(f, leftPage, left) && Holds(f, rightPage, right)
    ensures PagesHold(f, AfterSplit(nodes, p, ci, left, right, x, r),
                      pages[p := parentPage][nodes[p].children[ci] := leftPage][r := rightPage])
  {
    hide Holds;
  }

  lemma IndexSplitHolds(f: Format, nodes: Nodes, pages: map<Addr, PageImage>, p: Addr, ci: nat, t: nat, x: Key, r: Addr,
      parent: Layout, left: Layout, right: Layout)
    requires p in nodes && nodes[p].Index? && ci < |nodes[p].children| == |nodes[p].pivots|
    requires PagesHoldExcept(f, nodes, pages, nodes[p].children[ci])
    requires var a := nodes[p].children[ci];
      && a in nodes && a != p && a != r && p != r && nodes[a].Index? && t <= |nodes[a].pivots| == |nodes[a].children|
      && HoldsIndex(f, parent, WithChild(nodes[p], ci + 1, x, r))
      && HoldsIndex(f, left, LeftIndex(nodes[a], t)) && HoldsIndex(f, right, RightIndex(nodes[a], t))
    ensures var a := nodes[p].children[ci];
      PagesHold(f, AfterSplit(nodes, p, ci, LeftIndex(nodes[a], t), RightIndex(nodes[a], t), x, r),
                pages[p := IndexImage(parent)][a := IndexImage(left)][r := IndexImage(right)])
  {
    hide HoldsIndex, HoldsLeaf, AfterSplit, PagesHold, PagesHoldExcept;
    var n := nodes[nodes[p].children[ci]];
    SplitHolds(f, nodes, pages, p, ci, x, r, LeftIndex(n, t), RightIndex(n, t), IndexImage(parent), IndexImage(left),
      IndexImage(right));
  }

  lemma LeafSplitHolds(f: Format, nodes: Nodes, pages: map<Addr, PageImage>, p: Addr, ci: nat, n: Node, t: nat, x: Key,
      r: Addr, parent: Layout, left: Image, right: Image)
    requires PagesHold(f, nodes, pages) && p in nodes && nodes[p].Index?
    requires ci < |nodes[p].children| == |nodes[p].pivots|
    requires var a := nodes[p].children[ci];
      && a in nodes && a != p && a != r && p != r && n.Leaf? && t <= |n.entries|
      && HoldsIndex(f, parent, WithChild(nodes[p], ci + 1, x, r))
      && HoldsLeaf(f, left, LeftLeaf(n, t, r)) && HoldsLeaf(f, right, RightLeaf(n, t, a))
    ensures var a := nodes[p].children[ci];
      PagesHold(f, Relinked(AfterSplit(nodes, p, ci, LeftLeaf(n, t, r), RightLeaf(n, t, a), x, r), n.next, r),
                pages[p := IndexImage(parent)][a := LeafImage(left)][r := LeafImage(right)])
  {
    hide HoldsIndex, HoldsLeaf, AfterSplit, PagesHold, PagesHoldExcept, Relinked;
    var a := nodes[p].children[ci];
    HoldExcept(f, nodes, pages, a);
    SplitHolds(f, nodes, pages, p, ci, x, r, LeftLeaf(n, t, r), RightLeaf(n, t, a), IndexImage(parent), LeafImage(left),
      LeafImage(right));
    RelinkedHolds(f, AfterSplit(nodes, p, ci, LeftLeaf(n, t, r), RightLeaf(n, t, a), x, r),
      pages[p := IndexImage(parent)][a := LeafImage(left)][r := LeafImage(right)], n.next, r);
  }

  lemma HoldExcept(f: Format, nodes: Nodes, pages: map<Addr, PageImage>, a: Addr)
    requires PagesHold(f, nodes, pages)
    ensures PagesHoldExcept(f, nodes, pages, a)
  {
    hide Holds;
  }

  /** A leaf page does not change when its node learns about a new left neighbour. */
  lemma RelinkedHolds(f: Format, nodes: Nodes, pages: map<Addr, PageImage>, next: Addr, r: Addr)
    requires PagesHold(f, nodes, pages)
    ensures PagesHold(f, Relinked(nodes, next, r), pages)
  {
    if next in nodes && nodes[next].Leaf? {
      LeafAt(f, nodes, pages, next);
      assert HoldsLeaf(f, pages[next].bytes, nodes[next].(prev := r)) by {
        hide WellFormed, Entries, Decoded;
      }
      hide HoldsLeaf, HoldsIndex;
      assert Holds(f, pages[next], nodes[next].(prev := r));
    }
  }

  lemma GrownHolds(f: Format, nodes: Nodes, pages: map<Addr, PageImage>, root: Addr, c: Addr, page: PageImage)
    requires PagesHold(f, nodes, pages) && root in nodes && HasMinKey(nodes[root]) && c != root
    requires Holds(f, page, Index(Height(nodes[root]) + 1, [MinKey(nodes[root])], [c]))
    ensures root in pages && PagesHold(f, Grown(nodes, root, c), pages[c := pages[root]][root := page])
  {
    hide Holds;
  }

  /** The page `btree_grow_root` leaves for the root. */
  lemma SinglePivotHolds(f: Format, page: Layout, e: IndexEntry, height: nat)
    requires FormatOk(f) && |e.pivot| <= f.keyLimit && Arranged(page.slots, page.nextEntry, f.pageSize)
    requires Pivots(page.slots) == [e]
    ensures HoldsIndex(f, page, Index(height, [f.rank(e.pivot)], [e.childAddr]))
  {
  }

  /** A page with one pivot and no gaps. */
  predicate SinglePivot(f: Format, page: Layout) {
    |page.slots| == 1 && |page.slots[0].entry.pivot| <= f.keyLimit
    && page.nextEntry + RequiredSpace(page.slots[0].entry) == f.pageSize && page.nextEntry == page.slots[0].offset
  }

  lemma EmptyPageTakes(f: Format, page: Layout, e: IndexEntry)
    requires FormatOk(f) && page.slots == [] && page.nextEntry == f.pageSize && |e.pivot| <= f.keyLimit
    ensures CanSetIndexEntry(page.slots, page.nextEntry, 0, e)
    ensures NextAfterSet(page.slots, page.nextEntry, 0, e) == f.pageSize - RequiredSpace(e)
  {
  }

  lemma SinglePivotIs(f: Format, page: Layout, e: IndexEntry)
    requires |e.pivot| <= f.keyLimit && page.slots == [] + [Slot(page.nextEntry, e)]
    requires page.nextEntry == f.pageSize - RequiredSpace(e)
    ensures SinglePivot(f, page)
  {
  }

  /** A fresh root page is not full, takes any smallest pivot, and is not full then. */
  lemma SinglePivotTakes(f: Format, page: Layout, key: Image)
    requires FormatOk(f) && SinglePivot(f, page) && |key| <= f.keyLimit
    ensures !PageFull(f, page)
    ensures var first := MinEntry(page.slots, key);
      && CanSetIndexEntry(page.slots, page.nextEntry, 0, first)
      && !IndexPage.Full(1, NextAfterSet(page.slots, page.nextEntry, 0, first), f.pageSize)
  {
  }

  lemma FirstPivotHeld(f: Format, page: Layout, n: Node)
    requires n.Index? && n.pivots != [] && HoldsIndex(f, page, n)
    ensures page.slots != [] && IsForm(f, n.pivots[0], page.slots[0].entry.pivot)
  {
    PivotsLength(page.slots);
  }

  /** The node once pivot 0 has taken a key below all pivots. */
  function Lowered(n: Node, below: bool, k: Key): Node {
    if below && n.Index? && n.pivots != [] then WithMinPivot(n, k) else n
  }

  /** Where a search for k goes on in the node. */
  predicate SearchAt(n: Node, idx: nat, below: bool, k: Key) {
    && n.Index? && idx < |n.pivots| == |n.children|
    && (if below then idx == 0 && k < n.pivots[0] else n.pivots[idx] <= k && n.pivots[0] <= k)
    && (idx + 1 < |n.pivots| ==> k < n.pivots[idx + 1])
  }

  /** The two pages of a node that has been cut at t. */
  ghost predicate Halved(f: Format, n: Node, t: nat, left: Layout, right: Layout) {
    && n.Index? && 0 < t < |n.pivots| == |n.children|
    && HoldsIndex(f, left, LeftIndex(n, t)) && HoldsIndex(f, right, RightIndex(n, t))
    && Ready(f, left) && !PageFull(f, right)
  }

  lemma MadeReady(f: Format, was: Layout, n: Node, below: bool, key: Image, split: bool, t: nat, left: Layout,
      right: Layout)
    requires n.Index? && n.pivots != [] && HoldsIndex(f, was, n) && |key| <= f.keyLimit && Pivots(was.slots) != []
    requires Arranged(left.slots, left.nextEntry, f.pageSize) && Ready(f, left)
    requires var e := WithMinKey(Pivots(was.slots), below, key);
      if split then
        && Arranged(right.slots, right.nextEntry, f.pageSize) && !PageFull(f, right) && 0 < t < |e|
        && Pivots(left.slots) == e[..t] && Pivots(right.slots) == e[t..]
      else Pivots(left.slots) == e
    ensures split ==> Halved(f, Lowered(n, below, f.rank(key)), t, left, right)
    ensures !split ==> HoldsIndex(f, left, Lowered(n, below, f.rank(key)))
  {
    hide Arranged, Ready, PivotsWithin, Decodes;
    var e := Pivots(was.slots);
    if below {
      MinKeyHolds(f, e, n, key);
    }
    if split {
      HalvesHold(f, WithMinKey(e, below, key), Lowered(n, below, f.rank(key)), t);
      Sizes(f, WithMinKey(e, below, key), Lowered(n, below, f.rank(key)));
    }
  }

  lemma Sizes(f: Format, e: seq<IndexEntry>, n: Node)
    requires n.Index? && Decodes(e, n, f.rank)
    ensures |e| == |n.pivots| == |n.children|
  {
  }

  lemma PageFits(f: Format, page: Layout, n: Node)
    requires FormatOk(f) && n.Index? && n.pivots != [] && HoldsIndex(f, page, n)
    ensures page.slots != [] && PivotsWithin(Pivots(page.slots), f.pageSize / 8)
  {
    PivotsLength(page.slots);
  }

  lemma ReadyAgain(f: Format, page: Layout, was: Layout, below: bool, key: Image)
    requires FormatOk(f) && Arranged(was.slots, was.nextEntry, f.pageSize) && was.slots != [] && |key| <= f.keyLimit
    requires AcceptsUnlessCramped(|page.slots|, page.nextEntry, was.slots, was.nextEntry, f.pageSize, below, key)
    ensures Ready(f, page)
  {
    hide Arranged, Cramped, Accepts;
    if ShortKeys(f) {
      ShortKeysFit(was.slots, was.nextEntry, f.pageSize, key, f.keyLimit);
    }
  }

  /** The pivot of the new page is the first one behind the cut. */
  lemma RightStarts(f: Format, right: Layout, n: Node, t: nat)
    requires n.Index? && 0 < t < |n.pivots| == |n.children| && HoldsIndex(f, right, RightIndex(n, t))
    ensures right.slots != [] && IsForm(f, n.pivots[t], right.slots[0].entry.pivot)
  {
    FirstPivotHeld(f, right, RightIndex(n, t));
  }

  lemma ParentHolds(f: Format, page: Layout, n: Node, at: nat, x: IndexEntry)
    requires n.Index? && at <= |n.pivots| == |n.children| && Arranged(page.slots, page.nextEntry, f.pageSize)
    requires var e := Pivots(page.slots);
      Decodes(e, WithChild(n, at, f.rank(x.pivot), x.childAddr), f.rank) && PivotsWithin(e, f.keyLimit)
    ensures HoldsIndex(f, page, WithChild(n, at, f.rank(x.pivot), x.childAddr))
  {
  }

  lemma ParentTakes(f: Format, page: Layout, n: Node, at: nat, x: IndexEntry)
    requires n.Index? && HoldsIndex(f, page, n) && Ready(f, page) && at <= |n.pivots| && |x.pivot| <= f.keyLimit
    ensures ShortKeys(f) ==> Accepts(|page.slots|, page.nextEntry, |x.pivot|)
    ensures var e := Pivots(page.slots);
      && at <= |e| && Decodes(e[..at] + [x] + e[at..], WithChild(n, at, f.rank(x.pivot), x.childAddr), f.rank)
      && PivotsWithin(e[..at] + [x] + e[at..], f.keyLimit)
  {
    ChildHolds(f, Pivots(page.slots), n, at, x);
  }

  lemma MinKeyIs(slots: seq<Slot>, key: Image)
    requires slots != []
    ensures |Pivots(slots)| == |slots|
    ensures Pivots(slots)[0 := MinEntry(slots, key)] == WithMinKey(Pivots(slots), true, key)
  {
  }


  /* ---- Leaves ---- */

  /** A leaf page that took the tuple holds the node that took the message. */
  lemma LeafTook(f: Format, e: seq<Tuple>, n: Node, p: Image, key: Image, v: L.Value)
    requires FormatOk(f) && n.Leaf? && L.Sorted(e, f.rank) && Decoded(e, f.rank, f.read) == n.entries
    requires KeysWithin(e, f.keyLimit) && |key| <= f.keyLimit
    requires |p| == f.pageSize && WellFormed(p) && L.Sorted(Entries(p), f.rank) && LU.AllInline(Entries(p), |p|)
    requires LI.KeysFrom(Entries(p), e, key) && Entries(p) != []
    requires L.Contents(Entries(p), f.rank) == L.Updated(L.Contents(e, f.rank), key, v, f.rank, f.merge)
    ensures var d, k := Decoded(Entries(p), f.rank, f.read), f.rank(key);
      && PutResult(n.entries, d, k, Merge(f.cfg, k, Lookup(n.entries, k), f.read(v)))
      && HoldsLeaf(f, p, n.(entries := d))
  {
    hide WellFormed, Entries, L.Sorted, L.Contents, LU.AllInline, PutResult, MergesAlike, LI.MergeStaysInline, Lookup;
    UpdateRefines(f.cfg, e, Entries(p), key, v, f.rank, f.read, f.merge);
    StillWithin(f, e, Entries(p), key);
  }

  lemma StillWithin(f: Format, e: seq<Tuple>, s: seq<Tuple>, key: Image)
    requires KeysWithin(e, f.keyLimit) && |key| <= f.keyLimit && LI.KeysFrom(s, e, key)
    ensures KeysWithin(s, f.keyLimit)
  {
    forall i | 0 <= i < |s| ensures |s[i].key| <= f.keyLimit {
      assert LU.KeyFrom(s[i].key, e, key);
    }
  }

  /** Two leaf pages that share the updated tuples hold the halves of the node. */
  lemma LeafHalvesTook(f: Format, e: seq<Tuple>, n: Node, left: Image, right: Image, pivot: Image, key: Image,
      v: L.Value, a: Addr, r: Addr)
    requires FormatOk(f) && n.Leaf? && L.Sorted(e, f.rank) && Decoded(e, f.rank, f.read) == n.entries
    requires KeysWithin(e, f.keyLimit) && |key| <= f.keyLimit
    requires |left| == f.pageSize && WellFormed(left) && L.Sorted(Entries(left), f.rank)
    requires |right| == f.pageSize && WellFormed(right) && L.Sorted(Entries(right), f.rank)
    requires LU.AllInline(Entries(left), |left|) && LU.AllInline(Entries(right), |right|)
    requires LI.KeysFrom(Entries(left), e, key) && LI.KeysFrom(Entries(right), e, key) && Entries(left) != []
    requires LU.KeyFrom(pivot, e, key) && LU.IsFirstKey(pivot, Entries(right), f.rank)
    requires var s := Entries(left) + Entries(right);
      L.Sorted(s, f.rank)
      && L.Contents(s, f.rank) == L.Updated(L.Contents(e, f.rank), key, v, f.rank, f.merge)
    ensures var d := Decoded(Entries(left), f.rank, f.read) + Decoded(Entries(right), f.rank, f.read);
      var t, k, n' := |Entries(left)|, f.rank(key), n.(entries := d);
      && PutResult(n.entries, d, k, Merge(f.cfg, k, Lookup(n.entries, k), f.read(v)))
      && 0 < t < |d| && IsForm(f, d[t].key, pivot)
      && HoldsLeaf(f, left, LeftLeaf(n', t, r)) && HoldsLeaf(f, right, RightLeaf(n', t, a))
  {
    hide WellFormed, Entries, L.Sorted, L.Contents, LU.AllInline, PutResult, MergesAlike, LI.MergeStaysInline, Lookup;
    var d := Decoded(Entries(left), f.rank, f.read) + Decoded(Entries(right), f.rank, f.read);
    SplitRefines(f.cfg, e, Entries(left), Entries(right), pivot, key, v, f.rank, f.read, f.merge);
    assert Decoded(Entries(left) + Entries(right), f.rank, f.read) == d;
    StillWithin(f, e, Entries(left), key);
    StillWithin(f, e, Entries(right), key);
    PivotWithin(f, e, pivot, key);
  }

  lemma PivotWithin(f: Format, e: seq<Tuple>, pivot: Image, key: Image)
    requires KeysWithin(e, f.keyLimit) && |key| <= f.keyLimit && LU.KeyFrom(pivot, e, key)
    ensures |pivot| <= f.keyLimit
  {
  }

  /** The page misses the key exactly when the node does. */
  lemma MissesAlike(f: Format, e: seq<Tuple>, n: Node, key: Image)
    requires n.Leaf? && L.Sorted(e, f.rank) && Decoded(e, f.rank, f.read) == n.entries
    ensures f.rank(key) in L.Contents(e, f.rank) <==> Lookup(n.entries, f.rank(key)) != None
  {
    hide Lookup, L.Contents, L.Sorted;
    DecodedLookup(e, f.rank, f.read, f.rank(key));
  }

  /** What the search of a page finds is what the node has. */
  lemma FoundAlike(f: Format, e: seq<Tuple>, n: Node, key: Image, idx: int, found: bool)
    requires n.Leaf? && L.Sorted(e, f.rank) && Decoded(e, f.rank, f.read) == n.entries && -1 <= idx < |e|
    requires forall i | 0 <= i <= idx :: f.rank(e[i].key) <= f.rank(key)
    requires forall i | idx < i < |e| :: f.rank(key) < f.rank(e[i].key)
    requires found <==> 0 <= idx && f.rank(e[idx].key) == f.rank(key)
    ensures Lookup(n.entries, f.rank(key)) == if found then Some(f.read(L.ValueOf(e[idx]))) else None
  {
    DecodedSorted(e, f.rank, f.read);
    hide Lookup;
    if found {
      LookupAt(n.entries, idx);
    } else {
      LookupMissing(n.entries, f.rank(key));
    }
  }

  /** A leaf that holds nothing has room for any inline tuple. */
  lemma EmptyLeafTakes(f: Format, p: Image, n: Node, spec: LP.IncorporateSpec)
    requires n.Leaf? && n.entries == [] && HoldsLeaf(f, p, n) && LP.SpecFits(spec, NumEntries(p))
    requires LS.Inline(spec.tuple, |p|)
    ensures LP.MayPerform(p, spec)
  {
    hide WellFormed;
    assert |Decoded(Entries(p), f.rank, f.read)| == 0;
    LP.EntriesLength(p);
    LP.PageBounds(p);
    LU.InlineCost(spec.tuple, |p|);
    LU.RoomToPerform(p, spec);
  }

  lemma FirstTupleHeld(f: Format, p: Image, n: Node)
    requires n.Leaf? && n.entries != [] && HoldsLeaf(f, p, n)
    ensures 0 < NumEntries(p) && TableEnd(1) <= |p| && EntryInside(p, Offset(p, 0))
    ensures IsForm(f, n.entries[0].key, EntryAt(p, Offset(p, 0)).key)
  {
    assert |Entries(p)| == |n.entries|;
    EntryIsOk(p, 0);
    LP.TupleIs(p, 0);
  }
}
