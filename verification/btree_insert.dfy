/**
  `btree_insert` (btree.c:1744-2053) on pages: the bytes of the leaves and the offsets and
  entries of the index pages decide whether an update fits, whether a page is defragmented or
  split and where, whether pivot 0 can be lowered, and whether a parent has room for one more
  pivot. The tree of nodes beside the pages says what it all amounts to.

  What the cache answers to the claims, in the order they are tried, is an input. A descent is
  given up where `btree_insert` starts over: when a claim is refused, and for the right neighbour
  of a leaf to be split when it is refused 101 times in a row.
 */
module BTreeInsert {
  import opened Wrappers
  import opened DataConfig
  import opened MergeSpec
  import opened PageLayout
  import opened IndexPage
  import opened LeafRefinement
  import opened BTreeShape
  import opened BTreeUpdates
  import opened BTree
  import opened PagedNodes
  import L = LeafSearch
  import LP = LeafPage
  import LU = LeafUpdate
  import LI = LeafInsert
  import LS = LeafSplit

  /**
    How a descent ends. `NoRoom`: a parent had no room for the pivot of a new page, on which
    `btree_split_child_leaf` asserts and which `btree_split_child_index` does not notice.
   */
  datatype Outcome = Stored(wasUnique: bool) | StartOver | NoRoom | BadParam

  datatype StepResult = Ok | GivenUp | Refused

  /** How often the claim on the right neighbour of a split leaf is tried. */
  const NEXT_TRIES := 101

  /** The answers from `from` up to `to` are all grants. */
  ghost predicate Granted(claims: nat -> bool, from: nat, end: nat) {
    from <= end && forall i: nat | from <= i < end :: claims(i)
  }

  /** One claim tried until it is granted or given up: at the first refusal, or at the last of the tries. */
  ghost predicate LastClaim(claims: nat -> bool, from: nat, end: nat, gaveUp: bool) {
    && from < end <= from + NEXT_TRIES && (forall i: nat | from <= i < end - 1 :: !claims(i))
    && (claims(end - 1) <==> !gaveUp) && (gaveUp ==> end == from + 1 || end == from + NEXT_TRIES)
  }

  /** The claims of a descent: all granted but the last, which decides whether it is given up. */
  ghost predicate Claimed(claims: nat -> bool, from: nat, end: nat, gaveUp: bool) {
    exists mid: nat :: Granted(claims, from, mid) && LastClaim(claims, mid, end, gaveUp)
  }

  lemma GrantedBefore(claims: nat -> bool, from: nat, mid: nat, end: nat, gaveUp: bool)
    requires Granted(claims, from, mid) && Claimed(claims, mid, end, gaveUp)
    ensures Claimed(claims, from, end, gaveUp)
  {
    var m: nat :| Granted(claims, mid, m) && LastClaim(claims, m, end, gaveUp);
    assert Granted(claims, from, m) && LastClaim(claims, m, end, gaveUp);
  }

  lemma FirstClaim(claims: nat -> bool, from: nat)
    ensures LastClaim(claims, from, from + 1, !claims(from)) && Claimed(claims, from, from + 1, !claims(from))
    ensures claims(from) ==> Granted(claims, from, from + 1)
  {
    assert Granted(claims, from, from);
  }

  lemma NoneTried(claims: nat -> bool, from: nat)
    ensures Granted(claims, from, from)
  {
  }

  lemma OneMoreGranted(claims: nat -> bool, from: nat, mid: nat)
    requires Granted(claims, from, mid)
    ensures claims(mid) ==> Granted(claims, from, mid + 1)
  {
  }

  lemma LastOf(claims: nat -> bool, from: nat, mid: nat, end: nat, gaveUp: bool)
    requires Granted(claims, from, mid) && LastClaim(claims, mid, end, gaveUp)
    ensures Claimed(claims, from, end, gaveUp)
  {
  }

  /** What a descent's claims came to is the answer to the last of them. */
  lemma LastDecides(claims: nat -> bool, from: nat, end: nat, gaveUp: bool)
    requires Claimed(claims, from, end, gaveUp)
    ensures from < end && (gaveUp <==> !claims(end - 1))
  {
  }

  /** The refusals among the answers from `from` up to `end`. */
  ghost function Refusals(claims: nat -> bool, from: nat, end: nat): nat
    decreases end
  {
    if end <= from then 0 else Refusals(claims, from, end - 1) + if claims(end - 1) then 0 else 1
  }

  lemma {:induction false} MoreRefusals(claims: nat -> bool, from: nat, mid: nat, end: nat)
    requires from <= mid <= end
    ensures Refusals(claims, from, mid) <= Refusals(claims, from, end)
    decreases end
  {
    if mid != end {
      MoreRefusals(claims, from, mid, end - 1);
    }
  }

  /** BTREE_PIVOT_STATS_UNKNOWN */
  const STATS_UNKNOWN: seq<nat> := [0x7fff_ffff, 0x7fff_ffff, 0x7fff_ffff]

  /** What `btree_insert` refuses to store: too long a key or message, or a message of no valid type. */
  predicate Refuses(f: Format, key: Image, v: L.Value) {
    |key| > LS.MaxInlineKeySize(f.pageSize) || |v.data| > LS.MaxInlineMessageSize(f.pageSize) || !(1 <= v.cls <= 3)
  }

  /** Keys the code admits are no longer than the format says. */
  predicate WithinLimit(f: Format, key: Image, v: L.Value) {
    Refuses(f, key, v) || |key| <= f.keyLimit
  }

  /**
    What a descent has done to the map: the message is merged in exactly when it says so, it
    knows whether the key was there, and short keys never want room.
   */
  ghost predicate Ends(f: Format, was: map<Key, Message>, key: Image, v: L.Value, outcome: Outcome,
      now: map<Key, Message>)
  {
    && now == (if outcome.Stored? then Inserted(f.cfg, was, f.rank(key), f.read(v)) else was)
    && (outcome.Stored? ==> (outcome.wasUnique <==> f.rank(key) !in was))
    && (outcome == BadParam <==> Refuses(f, key, v))
    && (ShortKeys(f) ==> outcome != NoRoom)
  }

  /**
    How an insert of up to `attempts` descents fared with its claims: it has started over for
    good exactly when the last claim was refused, and then each descent has met a refusal.
   */
  ghost predicate Served(f: Format, claims: nat -> bool, from: nat, end: nat, attempts: nat, outcome: Outcome) {
    && from <= end
    && (outcome != BadParam && attempts > 0 ==> from < end && (outcome == StartOver <==> !claims(end - 1)))
    && (outcome == StartOver ==> attempts <= Refusals(claims, from, end))
    && (attempts > 0 && Granted(claims, from, end) ==>
          outcome != StartOver && (ShortKeys(f) ==> outcome.Stored? || outcome == BadParam))
  }

  class PagedTree {
    const format: Format
    const tree: Tree
    var pages: map<Addr, PageImage>
    /** What the cache answers to the claims, and how many have been tried. */
    const claims: nat -> bool
    var asked: nat

    ghost predicate Valid()
      reads this`pages, tree
    {
      FormatOk(format) && tree.Valid() && PagesHold(format, tree.nodes, pages)
    }

    /** `btree_create`: the root is a leaf page without entries. */
    constructor (format: Format, claims: nat -> bool)
      requires FormatOk(format)
      ensures Valid() && fresh(tree) && this.format == format && tree.contents == map[]
      ensures this.claims == claims && asked == 0
    {
      this.format, this.claims, asked := format, claims, 0;
      var nodes := new Tree();
      var page := new LP.Page(format.pageSize);
      page.ResetNodeEntries();
      EmptyLeafHolds(format, page.data[..], nodes.nodes[nodes.root]);
      tree := nodes;
      pages := map[nodes.root := LeafImage(page.data[..])];
    }

    /** `btree_node_claim`. */
    method Claim() returns (granted: bool)
      modifies this`asked
      ensures asked == old(asked) + 1 && granted == claims(old(asked))
    {
      granted := claims(asked);
      asked := asked + 1;
    }

    /** The claims on a parent and its child. */
    method ClaimBoth() returns (granted: bool)
      modifies this`asked
      ensures Claimed(claims, old(asked), asked, !granted)
      ensures granted ==> Granted(claims, old(asked), asked) && asked == old(asked) + 2
    {
      granted := Claim();
      if granted {
        granted := Claim();
      }
      LastOf(claims, old(asked), asked - 1, asked, !granted);
    }

    /** The claim on the right neighbour of a leaf that is being split (btree.c:1372-1397). */
    method ClaimNext() returns (granted: bool)
      modifies this`asked
      ensures LastClaim(claims, old(asked), asked, !granted)
    {
      granted := Claim();
      var retries := 0;
      while !granted
        invariant retries == asked - old(asked) - 1 < NEXT_TRIES
        invariant forall i: nat | old(asked) <= i < asked - 1 :: !claims(i)
        invariant claims(asked - 1) == granted
        decreases NEXT_TRIES - retries
      {
        retries := retries + 1;
        if 100 < retries {
          return;
        }
        granted := Claim();
      }
    }

    method LoadIndex(a: Addr) returns (page: Page)
      requires Valid() && a in tree.nodes && tree.nodes[a].Index?
      ensures fresh(page) && page.pageSize == format.pageSize && page.Valid()
      ensures a in pages && pages[a] == IndexImage(page.Saved()) && HoldsIndex(format, page.Saved(), tree.nodes[a])
      ensures |page.slots| == |tree.nodes[a].pivots| == |tree.nodes[a].children|
    {
      hide Tree.Valid, PagesHold, Arranged, Decodes, PivotsWithin;
      IndexAt(format, tree.nodes, pages, a);
      page := new Page.Load(format.pageSize, pages[a].layout);
    }

    method LoadLeaf(a: Addr) returns (page: LP.Page)
      requires Valid() && a in tree.nodes && tree.nodes[a].Leaf?
      ensures fresh(page.data) && a in pages && pages[a] == LeafImage(page.data[..])
      ensures HoldsLeaf(format, page.data[..], tree.nodes[a])
    {
      hide Tree.Valid, PagesHold, HoldsLeaf;
      LeafAt(format, tree.nodes, pages, a);
      page := new LP.Page.Load(pages[a].bytes);
    }

    /** The tuples of a leaf page, as its node has them: the step from bytes to nodes, not one of the source. */
    method Decode(page: LP.Page) returns (s: seq<Pair>)
      requires page.Valid()
      ensures s == Decoded(Entries(page.data[..]), format.rank, format.read)
    {
      hide WellFormed, U16, Entries, EntryAt;
      ghost var p := page.data[..];
      LP.EntriesLength(p);
      LP.PageBounds(p);
      var n := page.GetU16(NUM_ENTRIES_POS);
      s := [];
      for i := 0 to n
        invariant page.data[..] == p && |s| == i
        invariant forall j | 0 <= j < i :: s[j] == Decoded(Entries(p), format.rank, format.read)[j]
      {
        EntryIsOk(p, i);
        LP.TupleIs(p, i);
        var o := page.GetU16(TableEnd(i));
        var t := EntryAt(page.data[..], o);
        s := s + [Pair(format.rank(t.key), format.read(L.ValueOf(t)))];
      }
    }

    /** Lowers pivot 0 if the page can take the key. */
    method TrySetMinKey(a: Addr, key: Image) returns (success: bool)
      requires Valid() && a in tree.nodes && tree.nodes[a].Index? && a in tree.bounds
      requires var k := format.rank(key);
        In(tree.bounds[a], k) && tree.nodes[a].pivots != [] && k < tree.nodes[a].pivots[0]
          && ParentBelow(tree.nodes, a, k)
      requires |key| <= format.keyLimit
      modifies this`pages, tree`nodes
      ensures Valid() && a in old(pages) && old(pages[a]).IndexImage? && old(pages[a]).layout.slots != []
      ensures var was := old(pages[a]).layout; var first := MinEntry(was.slots, key);
        && success == CanSetIndexEntry(was.slots, was.nextEntry, 0, first)
        && if success then
             && tree.nodes == old(tree.nodes)[a := WithMinPivot(old(tree.nodes)[a], format.rank(key))]
             && a in pages && pages[a].IndexImage? && |pages[a].layout.slots| == |was.slots|
             && pages[a].layout.nextEntry == NextAfterSet(was.slots, was.nextEntry, 0, first)
           else tree.nodes == old(tree.nodes) && pages == old(pages)
    {
      hide Tree.Valid, PagesHold, Arranged, Decodes, PivotsWithin, CanSetIndexEntry, NextAfterSet,
        ParentBelow, In, Pivots;
      var page := LoadIndex(a);
      ghost var n := tree.nodes[a];
      PivotsLength(page.slots);
      MinKeyHolds(format, page.Entries(), n, key);
      success := page.SetIndexEntry(0, MinEntry(page.slots, key));
      if success {
        PivotsLength(page.slots);
        MinKeyIs(pages[a].layout.slots, key);
        tree.SetMinPivot(a, format.rank(key));
        StoredHolds(format, tree.nodes, old(tree.nodes), pages, a, IndexImage(page.Saved()));
        pages := pages[a := IndexImage(page.Saved())];
      }
    }

    /** `btree_grow_root`: the old page moves, the root gets a page with one pivot. */
    method GrowRoot()
      requires Valid() && HasMinKey(tree.nodes[tree.root])
      modifies this`pages, tree`nodes, tree`nextFree, tree`bounds
      ensures Valid() && tree.root in pages && tree.root in tree.nodes && tree.nodes[tree.root].Index?
      ensures tree.nodes[tree.root].height == old(Height(tree.nodes[tree.root])) + 1
      ensures tree.nodes[tree.root].pivots == [old(MinKey(tree.nodes[tree.root]))]
      ensures pages[tree.root].IndexImage? && SinglePivot(format, pages[tree.root].layout)
    {
      hide Tree.Valid, PagesHold, Arranged, Decodes, PivotsWithin, Pivots, CanSetIndexEntry, NextAfterSet, HoldsLeaf;
      ghost var was, root := tree.nodes, tree.root;
      RootOf(tree);
      var newPivot := FirstKey(tree.root);
      var c := tree.GrowRoot();
      var page := new Page(format.pageSize);
      var e := IndexEntry(newPivot, c, STATS_UNKNOWN);
      EmptyPageTakes(format, page.Saved(), e);
      var succeeded := page.SetIndexEntry(0, e);
      assert succeeded;
      SinglePivotHolds(format, page.Saved(), e, Height(was[root]) + 1);
      GrownHolds(format, was, pages, root, c, IndexImage(page.Saved()));
      SinglePivotIs(format, page.Saved(), e);
      pages := pages[c := pages[tree.root]][tree.root := IndexImage(page.Saved())];
    }

    /** The bytes of the first key or pivot on a page. */
    method FirstKey(a: Addr) returns (b: Image)
      requires Valid() && a in tree.nodes && HasMinKey(tree.nodes[a])
      ensures IsForm(format, MinKey(tree.nodes[a]), b)
    {
      hide Tree.Valid, PagesHold, Arranged, Decodes, PivotsWithin, Pivots, HoldsLeaf;
      if tree.nodes[a].Leaf? {
        var page := LoadLeaf(a);
        FirstTupleHeld(format, page.data[..], tree.nodes[a]);
        var o := page.GetU16(TableEnd(0));
        var t := EntryAt(page.data[..], o);
        b := t.key;
      } else {
        var page := LoadIndex(a);
        FirstPivotHeld(format, page.Saved(), tree.nodes[a]);
        b := page.slots[0].entry.pivot;
      }
    }

    /** The search for k has come to a parent with no room for a pivot of the longest key. */
    ghost predicate PathCrowded(k: Key)
      reads this`pages, tree
    {
      exists p: Addr, ci: nat :: tree.Leads(p, ci, k) && Crowded(p)
    }

    predicate Crowded(a: Addr)
      reads this`pages
    {
      && a in pages && pages[a].IndexImage?
      && !Accepts(|pages[a].layout.slots|, pages[a].layout.nextEntry, format.keyLimit)
    }

    /** The search for k cannot pass this index as it is: its pivot 0 is above k, or its page is full. */
    predicate NeedsWork(a: Addr, k: Key)
      reads this`pages, tree`nodes
    {
      a in tree.nodes && a in pages && tree.nodes[a].Index? && pages[a].IndexImage? && tree.nodes[a].pivots != []
      && (k < tree.nodes[a].pivots[0] || PageFull(format, pages[a].layout))
    }

    /** The index page has room for another pivot, provided keys are short. */
    predicate IsReady(a: Addr)
      reads this`pages
      requires a in pages
    {
      pages[a].IndexImage? && Ready(format, pages[a].layout)
    }

    /** The root's smallest pivot and its fullness (btree.c:1810-1846). */
    method PrepareRoot(key: Image) returns (claimed: bool, childIdx: nat)
      requires Valid() && tree.nodes[tree.root].Index? && |key| <= format.keyLimit
      modifies this`pages, this`asked, tree`nodes, tree`nextFree, tree`bounds
      ensures Valid()
      ensures asked == old(asked) + if old(NeedsWork(tree.root, format.rank(key))) then 1 else 0
      ensures claimed == (old(NeedsWork(tree.root, format.rank(key))) ==> claims(old(asked)))
      ensures claimed ==>
        tree.Leads(tree.root, childIdx, format.rank(key)) && tree.root in pages && IsReady(tree.root)
    {
      hide Tree.Valid, PagesHold, HoldsIndex, CanSetIndexEntry, NextAfterSet, ParentBelow, In,
        IndexPage.Full, Ready, SinglePivot;
      var root, k := tree.root, format.rank(key);
      RootOf(tree);
      RootSearch(tree, k);
      IndexAt(format, tree.nodes, pages, root);
      var idx, _ := FindPivot(tree.nodes[root].pivots, k);
      claimed := true;
      childIdx := if idx < 0 then 0 else idx;
      if idx < 0 || PageFull(format, pages[root].layout) {
        claimed := Claim();
        if !claimed {
          return;
        }
        var needToSetMinKey := false;
        if idx < 0 {
          var success := TrySetMinKey(root, key);
          needToSetMinKey := !success;
        }
        if needToSetMinKey {
          FullWhenRefused(pages[root].layout.slots, pages[root].layout.nextEntry, format.pageSize, key);
        }
        RootOf(tree);
        if PageFull(format, pages[root].layout) {
          GrowRoot();
          childIdx := 0;
          RootSearch(tree, k);
          IndexAt(format, tree.nodes, pages, root);
          SinglePivotTakes(format, pages[root].layout, key);
        }
        if needToSetMinKey {
          var success := TrySetMinKey(root, key);
          assert success;
        }
        RootSearch(tree, k);
      }
      NotFullIsReady(format, pages[root].layout);
    }

    /**
      One pass of the loop over the index levels (btree.c:1866-1949). Ok: the child it goes on
      in has the key's pivot and room for another one. The page decides when pivot 0 is
      lowered; the node has its new smallest pivot either way.
     */
    method StepDown(parent: Addr, childIdx: nat, key: Image) returns (step: StepResult, newParent: Addr, nextIdx: nat)
      requires Valid() && |key| <= format.keyLimit
      requires tree.Leads(parent, childIdx, format.rank(key)) && tree.nodes[parent].height > 1
      requires parent in pages && IsReady(parent)
      modifies this`pages, this`asked, tree`nodes, tree`nextFree, tree`bounds
      ensures Valid() && (ShortKeys(format) ==> step != Refused)
      ensures step == Refused ==> PathCrowded(format.rank(key))
      ensures step == GivenUp ==> Claimed(claims, old(asked), asked, true)
      ensures step == Refused ==> Claimed(claims, old(asked), asked, false)
      ensures step == Ok ==> Granted(claims, old(asked), asked)
      ensures step != GivenUp ==>
        asked == old(asked) + if old(NeedsWork(tree.nodes[parent].children[childIdx], format.rank(key))) then 2 else 0
      ensures step == Ok ==>
        && tree.Leads(newParent, nextIdx, format.rank(key)) && newParent in pages && IsReady(newParent)
        && Height(tree.nodes[newParent]) + 1 == old(Height(tree.nodes[parent]))
    {
      hide Tree.Valid, PagesHold, HoldsIndex, ParentBelow, In, IndexPage.Full, Ready, Arranged, PivotsWithin,
        Decodes, Pivots, Accepts, FormatOk, PathCrowded, Granted, LastClaim, Claimed;
      var k := format.rank(key);
      Leading(tree, parent, childIdx, k);
      var child := tree.nodes[parent].children[childIdx];
      IndexAt(format, tree.nodes, pages, child);
      NoneTried(claims, asked);
      var idx, _ := FindPivot(tree.nodes[child].pivots, k);
      step, newParent, nextIdx := Ok, child, if idx < 0 then 0 else idx;
      if idx >= 0 && !PageFull(format, pages[child].layout) {
        NotFullIsReady(format, pages[child].layout);
        return;
      }
      var granted := ClaimBoth();
      if !granted {
        return GivenUp, child, 0;
      }
      step, newParent, nextIdx := Rework(parent, childIdx, nextIdx, idx < 0, key);
    }

    /** The child gets the key as its smallest pivot if need be, and is defragmented or split if it is full. */
    method Rework(parent: Addr, childIdx: nat, idx: nat, below: bool, key: Image)
      returns (step: StepResult, newParent: Addr, nextIdx: nat)
      requires Valid() && |key| <= format.keyLimit
      requires tree.Leads(parent, childIdx, format.rank(key)) && tree.nodes[parent].height > 1
      requires parent in pages && IsReady(parent)
      requires var c := tree.nodes[parent].children[childIdx];
        && c in tree.nodes && SearchAt(tree.nodes[c], idx, below, format.rank(key)) && c in pages
        && NeedsWork(c, format.rank(key)) && (below <==> format.rank(key) < tree.nodes[c].pivots[0])
      modifies this`pages, tree`nodes, tree`nextFree, tree`bounds
      ensures Valid() && (step == Ok || (step == Refused && !ShortKeys(format) && PathCrowded(format.rank(key))))
      ensures step == Ok ==>
        && tree.Leads(newParent, nextIdx, format.rank(key)) && newParent in pages && IsReady(newParent)
        && Height(tree.nodes[newParent]) + 1 == old(Height(tree.nodes[parent]))
    {
      hide Tree.Valid, PagesHold, HoldsIndex, ParentBelow, In, IndexPage.Full, Ready, Arranged, PivotsWithin,
        Decodes, AcceptsUnlessCramped, SplitsAsTested, Pivots, Accepts, PathCrowded;
      Leading(tree, parent, childIdx, format.rank(key));
      var child := tree.nodes[parent].children[childIdx];
      IndexAt(format, tree.nodes, pages, child);
      step, newParent, nextIdx := Ok, child, idx;
      var page := LoadIndex(child);
      var right := new Page(format.pageSize);
      ghost var n := tree.nodes[child];
      PageFits(format, pages[child].layout, n);
      var split, t := page.MakeReady(right, below, key);
      ReadyAgain(format, page.Saved(), pages[child].layout, below, key);
      MadeReady(format, pages[child].layout, n, below, key, split, t, page.Saved(), right.Saved());
      if split {
        step, newParent, nextIdx := StoreHalves(parent, childIdx, nextIdx, below, key, t, page.Saved(), right.Saved());
      } else {
        StoreChild(parent, childIdx, nextIdx, below, key, page.Saved());
      }
    }

    method StoreChild(parent: Addr, childIdx: nat, nextIdx: nat, below: bool, key: Image, page: Layout)
      requires Valid() && tree.Leads(parent, childIdx, format.rank(key)) && tree.nodes[parent].height > 1
      requires var c := tree.nodes[parent].children[childIdx];
        && c in tree.nodes && SearchAt(tree.nodes[c], nextIdx, below, format.rank(key))
        && HoldsIndex(format, page, Lowered(tree.nodes[c], below, format.rank(key)))
      modifies this`pages, tree`nodes
      ensures Valid() && pages == old(pages)[old(tree.nodes)[parent].children[childIdx] := IndexImage(page)]
      ensures tree.Leads(old(tree.nodes)[parent].children[childIdx], nextIdx, format.rank(key))
      ensures var c := old(tree.nodes)[parent].children[childIdx];
        tree.nodes == old(tree.nodes)[c := Lowered(old(tree.nodes)[c], below, format.rank(key))]
    {
      hide Tree.Valid, PagesHold, HoldsIndex, ParentBelow, In;
      var k := format.rank(key);
      Leading(tree, parent, childIdx, k);
      var child := tree.nodes[parent].children[childIdx];
      if below {
        tree.SetMinPivot(child, k);
      }
      StoredHolds(format, tree.nodes, old(tree.nodes), pages, child, IndexImage(page));
      pages := pages[child := IndexImage(page)];
    }

    /** `btree_split_child_index`, once it is known what the two pages hold. */
    method StoreHalves(parent: Addr, childIdx: nat, idx: nat, below: bool, key: Image, t: nat, left: Layout,
        right: Layout)
      returns (step: StepResult, newParent: Addr, nextIdx: nat)
      requires Valid() && tree.Leads(parent, childIdx, format.rank(key)) && tree.nodes[parent].height > 1
      requires parent in pages && IsReady(parent)
      requires var c := tree.nodes[parent].children[childIdx];
        && c in tree.nodes && SearchAt(tree.nodes[c], idx, below, format.rank(key))
        && Halved(format, Lowered(tree.nodes[c], below, format.rank(key)), t, left, right)
      modifies this`pages, tree`nodes, tree`nextFree, tree`bounds
      ensures Valid() && (step == Ok || (step == Refused && !ShortKeys(format) && PathCrowded(format.rank(key))))
      ensures step == Ok ==>
        && tree.Leads(newParent, nextIdx, format.rank(key)) && newParent in pages && IsReady(newParent)
        && Height(tree.nodes[newParent]) + 1 == old(Height(tree.nodes[parent]))
    {
      hide Tree.Valid, PagesHold, HoldsIndex, ParentBelow, In, Ready, Accepts, Arranged, Decodes, PivotsWithin,
        AfterSplit, BoundsAfterSplit, LeftIndex, RightIndex, WithChild, PageFull, Pivots, PagesHoldExcept;
      var k := format.rank(key);
      Leading(tree, parent, childIdx, k);
      var child := tree.nodes[parent].children[childIdx];
      ghost var n := Lowered(tree.nodes[child], below, k);
      var r := tree.Alloc();
      RightStarts(format, right, n, t);
      var parentPage := LoadIndex(parent);
      var x := IndexEntry(right.slots[0].entry.pivot, r, STATS_UNKNOWN);
      ParentTakes(format, parentPage.Saved(), tree.nodes[parent], childIdx + 1, x);
      var success := parentPage.InsertIndexEntry(childIdx + 1, x);
      if !success {
        LongerRefused(format, pages[parent].layout, x);
        assert tree.Leads(parent, childIdx, k) && Crowded(parent);
        return Refused, child, 0;
      }
      ParentHolds(format, parentPage.Saved(), tree.nodes[parent], childIdx + 1, x);
      ghost var was := tree.nodes;
      ChildStored(format, was, pages, child, n);
      if below {
        tree.SetMinPivot(child, k);
      }
      ghost var nodes := tree.nodes;
      assert nodes == was[child := n];
      step := Ok;
      newParent, nextIdx := tree.SplitAndChoose(parent, childIdx, t, idx, k, r);
      IndexSplitHolds(format, nodes, pages, parent, childIdx, t, n.pivots[t], r, parentPage.Saved(), left, right);
      NotFullIsReady(format, right);
      pages := pages[parent := IndexImage(parentPage.Saved())][child := IndexImage(left)][r := IndexImage(right)];
    }

    /** `btree_lookup`: what the page of the responsible leaf has for the key. */
    method LookupMessage(key: Image) returns (result: Option<L.Value>)
      requires Valid()
      ensures Get(tree.contents, format.rank(key)) == if result.Some? then Some(format.read(result.value)) else None
    {
      hide Tree.Valid, PagesHold, WellFormed, Entries, EntryAt, L.Sorted, L.Contents, Lookup, KeysWithin, Decoded,
        LU.AllInline, LP.Compact, In, U16;
      var k := format.rank(key);
      var a := tree.LookupNode(User(k), 0);
      LeafReached(tree, a, k);
      var page := LoadLeaf(a);
      ghost var p := page.data[..];
      var idx, found := L.FindTuple(page, key, format.rank);
      result := None;
      if found {
        EntryIsOk(p, idx);
        LP.TupleIs(p, idx);
        var o := page.GetU16(TableEnd(idx));
        var t := EntryAt(page.data[..], o);
        result := Some(L.ValueOf(t));
      }
      FoundAlike(format, Entries(p), tree.nodes[a], key, idx, found);
    }

    /** The copy of leaf page a takes the update: in place, defragmented, or together with a new page r. */
    method UpdateLeafPage(a: Addr, r: Addr, key: Image, v: L.Value)
      returns (split: bool, pivot: Image, wasUnique: bool, before: seq<Pair>, behind: seq<Pair>, left: Image,
        right: Image)
      requires Valid() && a in tree.nodes && tree.nodes[a].Leaf? && !Refuses(format, key, v)
      requires |key| <= format.keyLimit
      ensures wasUnique <==> Lookup(tree.nodes[a].entries, format.rank(key)) == None
      ensures !split ==>
        Took(tree.nodes[a], before, key, v) && HoldsLeaf(format, left, tree.nodes[a].(entries := before))
      ensures split ==>
        && Took(tree.nodes[a], before + behind, key, v) && before != [] && behind != []
        && IsForm(format, behind[0].key, pivot)
        && HoldsLeaf(format, left, LeftLeaf(tree.nodes[a].(entries := before + behind), |before|, r))
        && HoldsLeaf(format, right, RightLeaf(tree.nodes[a].(entries := before + behind), |before|, a))
    {
      hide Tree.Valid, PagesHold, PutResult, Merge, WellFormed, Entries, L.Sorted, L.Contents, LU.AllInline,
        MergesAlike, LI.MergeStaysInline, Lookup, KeysWithin, Decoded, LP.Compact;
      ghost var n := tree.nodes[a];
      var leftPage := LoadLeaf(a);
      var rightPage := new LP.Page(format.pageSize);
      ghost var e := Entries(leftPage.data[..]);
      MissesAlike(format, e, n, key);
      split, pivot, wasUnique := LI.InsertIntoLeaf(leftPage, rightPage, a % LP.TWO_64, r % LP.TWO_64, key, v,
        format.rank, format.merge);
      before := Decode(leftPage);
      behind, left, right := [], leftPage.data[..], rightPage.data[..];
      if split {
        LeafHalvesTook(format, e, n, left, right, pivot, key, v, a, r);
        behind := Decode(rightPage);
      } else {
        LeafTook(format, e, n, left, key, v);
      }
    }

    /** The end of the descent (btree.c:1951-2052). */
    method FinishAtLeaf(key: Image, v: L.Value, parent: Addr, childIdx: nat) returns (outcome: Outcome)
      requires Valid() && !Refuses(format, key, v) && |key| <= format.keyLimit
      requires tree.Leads(parent, childIdx, format.rank(key)) && tree.nodes[parent].height == 1
      requires parent in pages && IsReady(parent)
      modifies this`pages, this`asked, tree
      ensures Valid() && Ends(format, old(tree.contents), key, v, outcome, tree.contents)
      ensures Claimed(claims, old(asked), asked, outcome == StartOver)
      ensures outcome == NoRoom ==> PathCrowded(format.rank(key))
    {
      hide Tree.Valid, PagesHold, In, ParentBelow, HoldsIndex, HoldsLeaf, Ready, FormatOk, Lookup, Merge, PutResult,
        LastClaim, Granted, Claimed, Refuses;
      LeadingToLeaf(tree, parent, childIdx, format.rank(key));
      var child := tree.nodes[parent].children[childIdx];
      var granted := Claim();
      FirstClaim(claims, old(asked));
      if !granted {
        return StartOver;
      }
      var r := tree.Alloc();  // for a split, if it comes to one
      var split, pivot, unique, before, behind, left, right := UpdateLeafPage(child, r, key, v);
      var success := true;
      if split {
        if tree.nodes[child].next != NO_ADDR {
          granted := ClaimNext();
          LastOf(claims, old(asked), old(asked) + 1, asked, !granted);
          if !granted {
            return StartOver;
          }
        }
        success := StoreLeafHalves(parent, childIdx, key, v, before, behind, pivot, r, left, right);
      } else {
        StoreLeaf(child, key, v, before, left);
      }
      return if success then Stored(unique) else NoRoom;
    }

    method StoreLeaf(a: Addr, key: Image, v: L.Value, entries': seq<Pair>, bytes: Image)
      requires Valid() && a in tree.nodes && tree.nodes[a].Leaf? && a in tree.bounds
      requires var k := format.rank(key);
        && In(tree.bounds[a], k) && ParentBelow(tree.nodes, a, k) && Took(tree.nodes[a], entries', key, v)
        && Lookup(tree.nodes[a].entries, k) == Get(tree.contents, k)
      requires HoldsLeaf(format, bytes, tree.nodes[a].(entries := entries'))
      modifies this`pages, tree`nodes, tree`contents
      ensures Valid()
      ensures tree.contents == Inserted(format.cfg, old(tree.contents), format.rank(key), format.read(v))
    {
      hide Tree.Valid, PagesHold, In, ParentBelow, PutResult, Merge, HoldsLeaf, Lookup;
      ghost var was, k := tree.nodes, format.rank(key);
      tree.UpdateLeaf(a, k, Merge(format.cfg, k, Lookup(tree.nodes[a].entries, k), format.read(v)), entries');
      StoredHolds(format, tree.nodes, was, pages, a, LeafImage(bytes));
      pages := pages[a := LeafImage(bytes)];
    }

    /** The node's tuples with the message merged in. */
    ghost predicate Took(n: Node, entries': seq<Pair>, key: Image, v: L.Value)
      requires n.Leaf?
    {
      var k := format.rank(key);
      PutResult(n.entries, entries', k, Merge(format.cfg, k, Lookup(n.entries, k), format.read(v)))
    }

    /** `btree_split_child_leaf`, once it is known what the two pages hold. */
    method StoreLeafHalves(parent: Addr, childIdx: nat, key: Image, v: L.Value, before: seq<Pair>, behind: seq<Pair>,
        pivot: Image, r: Addr, left: Image, right: Image)
      returns (success: bool)
      requires Valid() && r !in tree.nodes && r != NO_ADDR && r < tree.nextFree
      requires tree.Leads(parent, childIdx, format.rank(key)) && tree.nodes[parent].height == 1
      requires parent in pages && IsReady(parent)
      requires var c, k := tree.nodes[parent].children[childIdx], format.rank(key);
        && c in tree.nodes && tree.nodes[c].Leaf? && c in tree.bounds && In(tree.bounds[c], k)
        && ParentBelow(tree.nodes, c, k) && Took(tree.nodes[c], before + behind, key, v)
        && Lookup(tree.nodes[c].entries, k) == Get(tree.contents, k)
        && before != [] && behind != [] && IsForm(format, behind[0].key, pivot)
        && HoldsLeaf(format, left, LeftLeaf(tree.nodes[c].(entries := before + behind), |before|, r))
        && HoldsLeaf(format, right, RightLeaf(tree.nodes[c].(entries := before + behind), |before|, c))
      modifies this`pages, tree`nodes, tree`bounds, tree`contents
      ensures Valid() && (ShortKeys(format) ==> success) && (!success ==> PathCrowded(format.rank(key)))
      ensures tree.contents
           == if success then Inserted(format.cfg, old(tree.contents), format.rank(key), format.read(v))
              else old(tree.contents)
    {
      hide Tree.Valid, PagesHold, HoldsIndex, HoldsLeaf, ParentBelow, In, Ready, Accepts, Arranged, Decodes,
        PivotsWithin, AfterSplit, BoundsAfterSplit, WithChild, Relinked, Pivots, PutResult, Merge, Lookup;
      ghost var was := tree.nodes;
      var k, t, entries' := format.rank(key), |before|, before + behind;
      var a := tree.nodes[parent].children[childIdx];
      ghost var n := tree.nodes[a].(entries := entries');
      assert entries'[t] == behind[0];
      var parentPage := LoadIndex(parent);
      var x := IndexEntry(pivot, r, STATS_UNKNOWN);
      ParentTakes(format, parentPage.Saved(), tree.nodes[parent], childIdx + 1, x);
      success := parentPage.InsertIndexEntry(childIdx + 1, x);
      if !success {
        LongerRefused(format, pages[parent].layout, x);
        assert tree.Leads(parent, childIdx, k) && Crowded(parent);
        return;
      }
      ParentHolds(format, parentPage.Saved(), was[parent], childIdx + 1, x);
      tree.SplitChildLeaf(parent, childIdx, k, Merge(format.cfg, k, Lookup(tree.nodes[a].entries, k), format.read(v)),
        entries', t, r);
      LeafSplitHolds(format, was, pages, parent, childIdx, n, t, entries'[t].key, r, parentPage.Saved(), left, right);
      pages := pages[parent := IndexImage(parentPage.Saved())][a := LeafImage(left)][r := LeafImage(right)];
    }

    /** The index levels, and the leaf at their end (btree.c:1848-2052). */
    method Descend(key: Image, v: L.Value, startIdx: nat) returns (outcome: Outcome)
      requires Valid() && !Refuses(format, key, v) && |key| <= format.keyLimit
      requires tree.Leads(tree.root, startIdx, format.rank(key)) && tree.root in pages && IsReady(tree.root)
      modifies this`pages, this`asked, tree
      ensures Valid() && Ends(format, old(tree.contents), key, v, outcome, tree.contents)
      ensures Claimed(claims, old(asked), asked, outcome == StartOver)
      ensures outcome == NoRoom ==> PathCrowded(format.rank(key))
    {
      hide Tree.Valid, PagesHold, FormatOk, In, Ready, Inserted, Refuses;
      ghost var k := format.rank(key);
      var parent, childIdx := tree.root, startIdx;
      LeadsHigh(tree, parent, childIdx, k);
      var height := tree.nodes[parent].height;
      while height > 1
        invariant Valid() && tree.contents == old(tree.contents) && tree.Leads(parent, childIdx, k)
        invariant parent in pages && IsReady(parent)
        invariant tree.nodes[parent].height == height >= 1
        invariant Granted(claims, old(asked), asked)
        decreases height
      {
        ghost var mid := asked;
        var step, child, nextIdx := StepDown(parent, childIdx, key);
        if step != Ok {
          GrantedBefore(claims, old(asked), mid, asked, step == GivenUp);
        }
        if step == GivenUp {
          return StartOver;
        } else if step == Refused {
          return NoRoom;
        }
        parent, childIdx := child, nextIdx;
        height := height - 1;
      }
      ghost var mid := asked;
      outcome := FinishAtLeaf(key, v, parent, childIdx);
      GrantedBefore(claims, old(asked), mid, asked, outcome == StartOver);
    }

    /** A root that is a leaf takes the update as it is, or not at all (btree.c:1783-1808). */
    method InsertIntoRoot(key: Image, v: L.Value) returns (claimed: bool, done: bool, wasUnique: bool)
      requires Valid() && !Refuses(format, key, v) && |key| <= format.keyLimit && Height(tree.nodes[tree.root]) == 0
      modifies this`pages, this`asked, tree`nodes, tree`contents
      ensures Valid() && (done ==> claimed) && asked == old(asked) + 1 && claimed == claims(old(asked))
      ensures done ==>
        && Inserted(format.cfg, old(tree.contents), format.rank(key), format.read(v)) == tree.contents
        && (wasUnique <==> format.rank(key) !in old(tree.contents))
      ensures !done ==> tree.contents == old(tree.contents) && tree.nodes == old(tree.nodes)
      ensures claimed && !done ==> tree.root in tree.nodes && HasMinKey(tree.nodes[tree.root])
    {
      hide Tree.Valid, PagesHold, In, ParentBelow, PutResult, Merge, WellFormed, Entries, L.Sorted, L.Contents,
        LU.AllInline, MergesAlike, LI.MergeStaysInline, Lookup, KeysWithin, Decoded, LP.Compact, HoldsLeaf;
      claimed, done, wasUnique := true, false, false;
      var root := tree.root;
      RootOf(tree);
      RootLeaf(tree, format.rank(key));
      var page := LoadLeaf(root);
      ghost var p, n := page.data[..], tree.nodes[root];
      LeafParts(format, p, n);
      var spec := L.CreateLeafIncorporateSpec(page, key, v, format.rank, format.merge);
      LeafTakes(format, p, n, key, v, spec);
      claimed := Claim();
      if !claimed {
        return;
      }
      var performed, _ := page.TryPerform(spec);
      done := performed;
      if done {
        LeafTaken(format, p, page.data[..], n, key, v, spec);
        wasUnique := spec.oldEntry == LP.DidNotExist;
        var entries' := Decode(page);
        StoreLeaf(root, key, v, entries', page.data[..]);
      }
    }

    /**
      One descent of `btree_insert`. It either stores the message or ends early, and then it
      may have grown or split nodes but has not changed what the tree holds. It starts over
      exactly when the last claim it tried was refused.
     */
    method InsertAttempt(key: Image, v: L.Value) returns (outcome: Outcome)
      requires Valid() && WithinLimit(format, key, v)
      modifies this`pages, this`asked, tree
      ensures Valid() && Ends(format, old(tree.contents), key, v, outcome, tree.contents)
      ensures if outcome == BadParam then asked == old(asked)
              else Claimed(claims, old(asked), asked, outcome == StartOver)
      ensures outcome == NoRoom ==> PathCrowded(format.rank(key))
    {
      hide Tree.Valid, PagesHold, FormatOk, In, ParentBelow, HasMinKey, MinKey, Ready, Inserted, SinglePivot, Refuses,
        Granted, LastClaim, Claimed;
      if Refuses(format, key, v) {
        return BadParam;
      }
      RootOf(tree);
      NoneTried(claims, asked);
      if Height(tree.nodes[tree.root]) == 0 {
        FirstClaim(claims, asked);
        var claimed, done, wasUnique := InsertIntoRoot(key, v);
        if !claimed {
          return StartOver;
        }
        if done {
          return Stored(wasUnique);
        }
        GrowRoot();
      }
      RootIndex(tree);
      ghost var mid := asked;
      FirstClaim(claims, mid);
      OneMoreGranted(claims, old(asked), mid);
      var claimed, childIdx := PrepareRoot(key);
      if !claimed {
        GrantedBefore(claims, old(asked), mid, asked, true);
        return StartOver;
      }
      mid := asked;
      outcome := Descend(key, v, childIdx);
      GrantedBefore(claims, old(asked), mid, asked, outcome == StartOver);
    }

    /**
      `btree_insert`, given up after `attempts` descents. It is given up only when a claim has
      been refused in every one of them; with every claim granted and short keys the first
      descent stores the message.
     */
    method InsertMessage(key: Image, v: L.Value, attempts: nat) returns (outcome: Outcome)
      requires Valid() && WithinLimit(format, key, v)
      modifies this`pages, this`asked, tree
      ensures Valid() && Ends(format, old(tree.contents), key, v, outcome, tree.contents)
      ensures Served(format, claims, old(asked), asked, attempts, outcome)
      ensures outcome == NoRoom ==> PathCrowded(format.rank(key))
    {
      hide Tree.Valid, PagesHold, FormatOk, Refuses, Claimed, LastClaim, WithinLimit, Inserted;
      if Refuses(format, key, v) {
        return BadParam;
      }
      outcome := StartOver;
      for i := 0 to attempts
        invariant Valid() && outcome == StartOver && tree.contents == old(tree.contents)
        invariant old(asked) <= asked && i <= Refusals(claims, old(asked), asked)
        invariant i > 0 ==> old(asked) < asked && !claims(asked - 1)
      {
        ghost var mid := asked;
        outcome := InsertAttempt(key, v);
        LastDecides(claims, mid, asked, outcome == StartOver);
        MoreRefusals(claims, old(asked), mid, asked - 1);
        assert outcome == StartOver ==> Refusals(claims, old(asked), asked)
                                        == Refusals(claims, old(asked), asked - 1) + 1;
        if outcome != StartOver {
          return;
        }
      }
    }
  }

  lemma LongerRefused(f: Format, page: Layout, x: IndexEntry)
    requires |x.pivot| <= f.keyLimit
    ensures !Accepts(|page.slots|, page.nextEntry, |x.pivot|) ==> !Accepts(|page.slots|, page.nextEntry, f.keyLimit)
  {
  }

  lemma LeafReached(tree: Tree, a: Addr, k: Key)
    requires tree.Valid() && a in tree.nodes && Height(tree.nodes[a]) == 0 && a in tree.bounds
    requires Covers(tree.bounds[a], User(k))
    ensures tree.nodes[a].Leaf? && Lookup(tree.nodes[a].entries, k) == Get(tree.contents, k)
  {
    LeafLow(tree, a);
    LeafHolds(tree.nodes, tree.bounds, tree.root, tree.contents, a, k);
  }

  lemma EmptyLeafHolds(f: Format, p: Image, n: Node)
    requires |p| == f.pageSize && LP.Compact(p) && Entries(p) == [] && n.Leaf? && n.entries == []
    ensures HoldsLeaf(f, p, n)
  {
  }

  lemma LeafParts(f: Format, p: Image, n: Node)
    requires n.Leaf? && HoldsLeaf(f, p, n)
    ensures |p| == f.pageSize && WellFormed(p) && L.Sorted(Entries(p), f.rank)
  {
  }

  /** The update a root leaf calls for is inline, and finds room at least in an empty one. */
  lemma LeafTakes(f: Format, p: Image, n: Node, key: Image, v: L.Value, spec: LP.IncorporateSpec)
    requires FormatOk(f) && n.Leaf? && HoldsLeaf(f, p, n) && !Refuses(f, key, v)
    requires var e := Entries(p);
      && LP.SpecFits(spec, |e|) && spec.tuple.key == key && L.Sorted(LP.Incorporated(e, spec), f.rank)
      && L.Contents(LP.Incorporated(e, spec), f.rank) == L.Updated(L.Contents(e, f.rank), key, v, f.rank, f.merge)
    ensures spec.tuple.cls < 4 && LU.AllInline(LP.Incorporated(Entries(p), spec), |p|)
    ensures LP.SpecFits(spec, NumEntries(p)) && (n.entries == [] ==> LP.MayPerform(p, spec))
  {
    hide WellFormed, L.Sorted, L.Contents, LI.MergeStaysInline, MergesAlike;
    LP.EntriesLength(p);
    LI.StaysInline(Entries(p), spec, key, v, f.rank, f.merge, |p|);
    LU.InlineCost(spec.tuple, |p|);
    if n.entries == [] {
      EmptyLeafTakes(f, p, n, spec);
    }
  }

  lemma LeafTaken(f: Format, p: Image, p': Image, n: Node, key: Image, v: L.Value, spec: LP.IncorporateSpec)
    requires FormatOk(f) && n.Leaf? && HoldsLeaf(f, p, n) && |key| <= f.keyLimit
    requires var e := Entries(p);
      && LP.SpecFits(spec, |e|) && spec.tuple.key == key && L.Sorted(LP.Incorporated(e, spec), f.rank)
      && L.Contents(LP.Incorporated(e, spec), f.rank) == L.Updated(L.Contents(e, f.rank), key, v, f.rank, f.merge)
      && LU.AllInline(LP.Incorporated(e, spec), |p|)
      && (spec.oldEntry == LP.DidNotExist <==> f.rank(key) !in L.Contents(e, f.rank))
      && |p'| == |p| && WellFormed(p') && Entries(p') == LP.Incorporated(e, spec)
    ensures var d, k := Decoded(Entries(p'), f.rank, f.read), f.rank(key);
      && PutResult(n.entries, d, k, Merge(f.cfg, k, Lookup(n.entries, k), f.read(v)))
      && HoldsLeaf(f, p', n.(entries := d))
      && (spec.oldEntry == LP.DidNotExist <==> Lookup(n.entries, k) == None)
  {
    hide WellFormed, Entries, L.Sorted, L.Contents, LU.AllInline, PutResult, Merge, Lookup, MergesAlike, LI.KeysFrom;
    LI.UpdatedKeysFrom(Entries(p), spec, Entries(p'), []);
    MissesAlike(f, Entries(p), n, key);
    LeafTook(f, Entries(p), n, p', key, v);
  }

  lemma LeadingToLeaf(tree: Tree, p: Addr, ci: nat, k: Key)
    requires tree.Valid() && tree.Leads(p, ci, k) && tree.nodes[p].height == 1
    ensures var c := tree.nodes[p].children[ci];
      && c in tree.nodes && c in tree.bounds && tree.nodes[c].Leaf? && In(tree.bounds[c], k)
      && ParentBelow(tree.nodes, c, k)
      && StrictlySorted(tree.nodes[c].entries) && Lookup(tree.nodes[c].entries, k) == Get(tree.contents, k)
  {
    LeadsAt(tree.nodes, tree.bounds, tree.root, p, ci, k);
    LeafLow(tree, tree.nodes[p].children[ci]);
    LeafHolds(tree.nodes, tree.bounds, tree.root, tree.contents, tree.nodes[p].children[ci], k);
  }

  lemma LeafLow(tree: Tree, a: Addr)
    requires tree.Valid() && a in tree.nodes && Height(tree.nodes[a]) == 0
    ensures tree.nodes[a].Leaf?
  {
    OkAt(tree.nodes, tree.bounds, a);
  }

  lemma LeadsHigh(tree: Tree, p: Addr, ci: nat, k: Key)
    requires tree.Valid() && tree.Leads(p, ci, k)
    ensures tree.nodes[p].height >= 1
  {
    LeadsAt(tree.nodes, tree.bounds, tree.root, p, ci, k);
  }

  lemma RootLeaf(tree: Tree, k: Key)
    requires tree.Valid() && tree.root in tree.nodes && Height(tree.nodes[tree.root]) == 0
    ensures tree.nodes[tree.root].Leaf? && tree.root in tree.bounds && In(tree.bounds[tree.root], k)
    ensures ParentBelow(tree.nodes, tree.root, k) && StrictlySorted(tree.nodes[tree.root].entries)
    ensures Lookup(tree.nodes[tree.root].entries, k) == Get(tree.contents, k)
  {
    LeafLow(tree, tree.root);
    RootCovers(tree.nodes, tree.bounds, tree.root, k);
    RootBelow(tree.nodes, tree.bounds, tree.root, k);
    LeafHolds(tree.nodes, tree.bounds, tree.root, tree.contents, tree.root, k);
  }

  lemma RootIndex(tree: Tree)
    requires tree.Valid() && tree.root in tree.nodes && Height(tree.nodes[tree.root]) > 0
    ensures tree.nodes[tree.root].Index?
  {
  }

  /** The search for k has reached this child. */
  lemma Leading(tree: Tree, p: Addr, ci: nat, k: Key)
    requires tree.Valid() && tree.Leads(p, ci, k) && tree.nodes[p].height > 1
    ensures var c := tree.nodes[p].children[ci];
      && c in tree.nodes && c in tree.bounds && tree.nodes[c].Index? && c != p
      && Height(tree.nodes[c]) + 1 == tree.nodes[p].height && In(tree.bounds[c], k) && ParentBelow(tree.nodes, c, k)
      && Increasing(tree.nodes[c].pivots) && 0 < |tree.nodes[c].pivots| == |tree.nodes[c].children|
  {
    LeadsAt(tree.nodes, tree.bounds, tree.root, p, ci, k);
    PivotsIncrease(tree.nodes, tree.bounds, tree.nodes[p].children[ci]);
  }

  lemma RootOf(tree: Tree)
    requires tree.Valid()
    ensures tree.root in tree.nodes && tree.root in tree.bounds
    ensures tree.nodes[tree.root].Index? ==> HasMinKey(tree.nodes[tree.root])
  {
    RootIn(tree.nodes, tree.bounds, tree.root);
  }

  lemma RootSearch(tree: Tree, k: Key)
    requires tree.Valid() && tree.root in tree.nodes && tree.nodes[tree.root].Index?
    ensures tree.root in tree.bounds && In(tree.bounds[tree.root], k) && ParentBelow(tree.nodes, tree.root, k)
    ensures var n := tree.nodes[tree.root]; Increasing(n.pivots) && 0 < |n.pivots| == |n.children|
  {
    RootIn(tree.nodes, tree.bounds, tree.root);
    RootCovers(tree.nodes, tree.bounds, tree.root, k);
    RootBelow(tree.nodes, tree.bounds, tree.root, k);
    PivotsIncrease(tree.nodes, tree.bounds, tree.root);
  }
}
