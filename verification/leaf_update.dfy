/**
  Performing an update on a leaf that has no room for it: defragment the page, or build a
  right sibling and cut the left page down (btree.c:893-934, 1303-1510).
 */
module LeafUpdate {
  import opened PageLayout
  import opened LeafPage
  import opened LeafSplit

  ghost predicate AllInline(s: seq<Tuple>, pageSize: nat) {
    forall t | t in s :: Inline(t, pageSize)
  }

  /** The check of `btree_config_init`: an inline entry takes less than half the free page. */
  lemma InlineCost(t: Tuple, pageSize: nat)
    requires PageSizeOk(pageSize) && Inline(t, pageSize)
    ensures Cost(t) < (pageSize - HDR_SIZE) / 2 && Cost(t) + INDEX_ENTRY_SIZE < pageSize / 2 && t.cls < 4
  {
  }

  /* ---- Where the halves come from ---- */

  /** The part of the spec that concerns the entries from splitIdx on. */
  function RightSpec(spec: IncorporateSpec, plan: LeafSplittingPlan): IncorporateSpec {
    if plan.insertionGoesLeft || spec.idx < plan.splitIdx then IncorporateSpec(0, DidNotExist, spec.tuple)
    else spec.(idx := spec.idx - plan.splitIdx)
  }

  function Cut(e: seq<Tuple>, spec: IncorporateSpec, plan: LeafSplittingPlan): (m: nat)
    requires SpecFits(spec, |e|) && PlanFits(plan, spec, |e|)
    ensures m <= |Incorporated(e, spec)|
  {
    LeftCount(plan, spec)
  }

  lemma RightHalf(e: seq<Tuple>, spec: IncorporateSpec, plan: LeafSplittingPlan)
    requires SpecFits(spec, |e|) && PlanFits(plan, spec, |e|) && spec.oldEntry != HasBeenRemoved
    ensures SpecFits(RightSpec(spec, plan), |e[plan.splitIdx..]|)
    ensures Incorporated(e, spec)[Cut(e, spec, plan)..]
         == if plan.insertionGoesLeft then e[plan.splitIdx..]
           else Incorporated(e[plan.splitIdx..], RightSpec(spec, plan))
  {
  }

  lemma LeftHalf(e: seq<Tuple>, spec: IncorporateSpec, plan: LeafSplittingPlan)
    requires SpecFits(spec, |e|) && PlanFits(plan, spec, |e|) && spec.oldEntry != HasBeenRemoved
    ensures plan.insertionGoesLeft ==> SpecFits(spec, plan.splitIdx)
    ensures Incorporated(e, spec)[..Cut(e, spec, plan)]
         == if plan.insertionGoesLeft then Incorporated(e[..plan.splitIdx], spec) else e[..plan.splitIdx]
  {
  }

  /** Removing the old entry first and incorporating then comes to the same. */
  lemma RemovedThenIncorporated(e: seq<Tuple>, spec: IncorporateSpec)
    requires SpecFits(spec, |e|)
    ensures SpecFits(SpecAfterRemoval(spec), |Others(e, spec)|)
    ensures Incorporated(Others(e, spec), SpecAfterRemoval(spec)) == Incorporated(e, spec)
  {
  }

  /** A page without dead space takes the tuple if the result fits a page at all. */
  lemma RoomToPerform(p: Image, spec: IncorporateSpec)
    requires Compact(p) && SpecFits(spec, NumEntries(p)) && spec.oldEntry != StillExists
    requires HDR_SIZE + Weight(Incorporated(Entries(p), spec)) <= |p|
    ensures MayPerform(p, spec)
  {
    hide WellFormed;
    EntriesLength(p);
    IncorporatedWeight(Entries(p), spec);
  }

  /** The entries copied so far fit behind what is copied next. */
  lemma RightKeptFits(p: Image, q: Image, splitIdx: nat, rspec: IncorporateSpec, i: nat)
    requires WellFormed(p) && splitIdx <= i < NumEntries(p) && |p| == |q|
    requires Compact(q) && Entries(q) == Kept(Entries(p)[splitIdx..], rspec, i - splitIdx)
    ensures CanSet(q, NumEntries(q), Entries(p)[i])
  {
    hide WellFormed, Kept, Entries, Bytes;
    EntriesLength(p);
    EntriesLength(q);
    EntriesFit(p);
    var e, k := Entries(p), i - splitIdx;
    KeptBytes(e[splitIdx..], rspec, k);
    BytesPrefix(e[splitIdx..], k);
    BytesConcat(e[..splitIdx], e[splitIdx..]);
    assert e == e[..splitIdx] + e[splitIdx..];
  }

  ghost predicate Halves(e: seq<Tuple>, spec: IncorporateSpec, plan: LeafSplittingPlan, pageSize: nat)
  {
    && SpecFits(spec, |e|) && PlanFits(plan, spec, |e|) && spec.oldEntry != HasBeenRemoved && spec.tuple.cls < 4
    && HDR_SIZE + Weight(Incorporated(e, spec)[..Cut(e, spec, plan)]) <= pageSize
    && HDR_SIZE + Weight(Incorporated(e, spec)[Cut(e, spec, plan)..]) <= pageSize
  }

  /** The copy loop of `btree_split_leaf_build_right_node`. */
  method CopyRightEntries(left: Page, right: Page, spec: IncorporateSpec, plan: LeafSplittingPlan)
    returns (newSpec: IncorporateSpec)
    requires left.Valid() && left.data != right.data && left.data.Length == right.data.Length
    requires Compact(right.data[..]) && Entries(right.data[..]) == []
    requires SpecFits(spec, NumEntries(left.data[..])) && PlanFits(plan, spec, NumEntries(left.data[..]))
    requires spec.oldEntry != HasBeenRemoved
    modifies right.data
    ensures Compact(right.data[..]) && SameLinks(old(right.data[..]), right.data[..])
    ensures Entries(right.data[..]) == Others(Entries(left.data[..])[plan.splitIdx..], RightSpec(spec, plan))
    ensures newSpec == if plan.insertionGoesLeft then spec else SpecAfterRemoval(spec)
  {
    hide WellFormed, U16, Entries, EntryAt, Kept, Bytes, Others, RequiredCapacity;
    ghost var p, was := left.data[..], right.data[..];
    PageBounds(p);
    EntriesLength(p);
    EntriesLength(was);
    ghost var e, rspec := Entries(p), RightSpec(spec, plan);
    var n := left.GetU16(NUM_ENTRIES_POS);
    newSpec := spec;
    var dst := 0;
    KeptNothing(e[plan.splitIdx..], rspec);
    for i := plan.splitIdx to n
      invariant left.data[..] == p && Compact(right.data[..])
      invariant Entries(right.data[..]) == Kept(e[plan.splitIdx..], rspec, i - plan.splitIdx)
      invariant dst == NumEntries(right.data[..]) && SameLinks(was, right.data[..])
      invariant newSpec == if !plan.insertionGoesLeft && i > spec.idx then SpecAfterRemoval(spec) else spec
    {
      KeptNext(e[plan.splitIdx..], rspec, i - plan.splitIdx);
      if newSpec.oldEntry == StillExists && i == newSpec.idx {
        newSpec := newSpec.(oldEntry := HasBeenRemoved);
      } else {
        EntryIsOk(p, i);
        TupleIs(p, i);
        var o := left.GetU16(TableEnd(i));
        var t := EntryAt(left.data[..], o);
        ghost var before := right.data[..];
        RightKeptFits(p, before, plan.splitIdx, rspec, i);
        var success := right.SetLeafEntry(dst, t);
        EntriesLength(before);
        EntriesLength(right.data[..]);
        CompactAppend(before, right.data[..], t);
        dst := dst + 1;
      }
    }
    RightHalf(e, spec, plan);
    KeptAll(e[plan.splitIdx..], rspec);
  }

  lemma KeptNothing(s: seq<Tuple>, spec: IncorporateSpec)
    ensures Kept(s, spec, 0) == []
  {
  }

  lemma KeptNext(s: seq<Tuple>, spec: IncorporateSpec, i: nat)
    requires i < |s|
    ensures Kept(s, spec, i + 1)
         == if spec.oldEntry == StillExists && spec.idx == i then Kept(s, spec, i) else Kept(s, spec, i) + [s[i]]
  {
  }

  /** `btree_split_leaf_build_right_node`. */
  method BuildRightNode(left: Page, right: Page, leftAddr: nat, spec: IncorporateSpec, plan: LeafSplittingPlan)
    requires left.Valid() && left.data != right.data && left.data.Length == right.data.Length && leftAddr < TWO_64
    requires Halves(Entries(left.data[..]), spec, plan, left.data.Length)
    modifies right.data
    ensures right.Valid()
    ensures var e := Entries(left.data[..]); Entries(right.data[..]) == Incorporated(e, spec)[Cut(e, spec, plan)..]
    ensures PrevAddr(right.data[..]) == leftAddr && NextAddr(right.data[..]) == NextAddr(left.data[..])
  {
    hide WellFormed, U16, Entries, EntryAt, Weight;
    ghost var p := left.data[..];
    ghost var e, s := Entries(p), Incorporated(Entries(p), spec);
    PageBounds(p);
    EntriesLength(p);
    right.CopyHeader(left);
    ghost var q0 := right.data[..];
    var _ := right.BumpGeneration();
    ghost var q1 := right.data[..];
    right.PutU64(PREV_ADDR_POS, leftAddr);
    ghost var q2 := right.data[..];
    right.ResetNodeEntries();
    ghost var q3 := right.data[..];
    assert left.data[..] == p;
    var newSpec := CopyRightEntries(left, right, spec, plan);
    RightHalf(e, spec, plan);
    if !plan.insertionGoesLeft {
      newSpec := newSpec.(idx := newSpec.idx - plan.splitIdx);
      ghost var rspec := RightSpec(spec, plan);
      assert newSpec == SpecAfterRemoval(rspec);
      RemovedThenIncorporated(e[plan.splitIdx..], rspec);
      EntriesLength(right.data[..]);
      RoomToPerform(right.data[..], newSpec);
      var incorporated, _ := right.TryPerform(newSpec);
      assert incorporated;
    }
    SameNeighbours(p, q0, q1, q2, q3, right.data[..]);
  }

  lemma SameNeighbours(p: Image, q0: Image, q1: Image, q2: Image, q3: Image, q4: Image)
    requires |p| == |q0| && HDR_SIZE <= |p| && SameRange(p, q0, 0, HDR_SIZE)
    requires SameOutside(q0, q1, GENERATION_POS, GENERATION_POS + 8)
    requires SameOutside(q1, q2, PREV_ADDR_POS, PREV_ADDR_POS + 8)
    requires SameLinks(q2, q3) && SameRange(q3, q4, 0, GENERATION_POS)
    ensures NextAddr(q4) == NextAddr(p) && PrevAddr(q4) == PrevAddr(q2)
  {
  }

  /** `btree_split_leaf_cleanup_left_node`, with the incorporation that follows it. */
  method FinishLeftNode(left: Page, rightAddr: nat, spec: IncorporateSpec, plan: LeafSplittingPlan)
    requires left.Valid() && rightAddr < TWO_64
    requires Halves(Entries(left.data[..]), spec, plan, left.data.Length)
    modifies left.data
    ensures left.Valid()
    ensures var e := old(Entries(left.data[..])); Entries(left.data[..]) == Incorporated(e, spec)[..Cut(e, spec, plan)]
    ensures PrevAddr(left.data[..]) == old(PrevAddr(left.data[..])) && NextAddr(left.data[..]) == rightAddr
    ensures GenerationMoved(old(Generation(left.data[..])), Generation(left.data[..]))
  {
    hide WellFormed, U16, U64, Entries, EntryAt, Weight, SameRange, SameOutside, GenerationMoved;
    ghost var p := left.data[..];
    ghost var e := Entries(p);
    PageBounds(p);
    EntriesLength(p);
    left.PutU64(NEXT_ADDR_POS, rightAddr);
    ghost var p1 := left.data[..];
    LinkWritten(p, p1);
    left.TruncateLeaf(plan.splitIdx);
    ghost var p2 := left.data[..];
    var _ := left.BumpGeneration();
    ghost var p3 := left.data[..];
    GenerationWritten(p2, p3);
    EntriesLength(p3);
    LeftHalf(e, spec, plan);
    var newSpec := spec;
    if plan.insertionGoesLeft {
      SpecEntryInside(p3, spec);
      if !CanPerform(left.data[..], spec) {
        newSpec := left.DefragmentLeaf(spec);
        RemovedThenIncorporated(e[..plan.splitIdx], spec);
        EntriesLength(left.data[..]);
        RoomToPerform(left.data[..], newSpec);
      } else {
        SameLinksReflexive(p3);
      }
      ghost var p4 := left.data[..];
      var incorporated, _ := left.TryPerform(newSpec);
      assert incorporated;
      LinksAfter(p, p1, p2, p3, p4, left.data[..]);
    } else {
      LinksAfterTruncation(p, p1, p2, p3);
    }
  }

  /** One or two increments of the 64-bit counter. */
  ghost predicate GenerationMoved(g: nat, g': nat) {
    g' == (g + 1) % TWO_64 || g' == (g + 2) % TWO_64
  }

  lemma LinkWritten(p: Image, q: Image)
    requires WellFormed(p) && SameOutside(p, q, NEXT_ADDR_POS, NEXT_ADDR_POS + 8)
    ensures WellFormed(q) && Entries(q) == Entries(p) && NumEntries(q) == NumEntries(p)
  {
    SameBody(p, q);
  }

  lemma GenerationWritten(p: Image, q: Image)
    requires WellFormed(p) && SameOutside(p, q, GENERATION_POS, GENERATION_POS + 8)
    ensures WellFormed(q) && Entries(q) == Entries(p)
  {
    SameBody(p, q);
  }

  lemma SameLinksReflexive(p: Image)
    requires HDR_SIZE <= |p|
    ensures SameLinks(p, p)
  {
  }

  lemma SpecEntryInside(p: Image, spec: IncorporateSpec)
    requires WellFormed(p) && SpecFits(spec, NumEntries(p))
    ensures spec.oldEntry == StillExists ==> TableEnd(spec.idx + 1) <= |p| && EntryOk(p, spec.idx)
  {
  }

  lemma LinksAfterTruncation(p: Image, p1: Image, p2: Image, p3: Image)
    requires HDR_SIZE <= |p| && SameOutside(p, p1, NEXT_ADDR_POS, NEXT_ADDR_POS + 8) && SameLinks(p1, p2)
    requires SameOutside(p2, p3, GENERATION_POS, GENERATION_POS + 8)
    requires Generation(p3) == (Generation(p2) + 1) % TWO_64
    ensures PrevAddr(p3) == PrevAddr(p) && NextAddr(p3) == NextAddr(p1)
    ensures Generation(p3) == (Generation(p) + 1) % TWO_64 && GenerationMoved(Generation(p), Generation(p3))
  {
  }

  lemma LinksAfter(p: Image, p1: Image, p2: Image, p3: Image, p4: Image, p5: Image)
    requires HDR_SIZE <= |p| && SameOutside(p, p1, NEXT_ADDR_POS, NEXT_ADDR_POS + 8) && SameLinks(p1, p2)
    requires SameOutside(p2, p3, GENERATION_POS, GENERATION_POS + 8)
    requires Generation(p3) == (Generation(p2) + 1) % TWO_64
    requires SameLinks(p3, p4) && SameRange(p4, p5, 0, GENERATION_POS)
    requires Generation(p5) == (Generation(p4) + 1) % TWO_64
    ensures PrevAddr(p5) == PrevAddr(p) && NextAddr(p5) == NextAddr(p1)
    ensures GenerationMoved(Generation(p), Generation(p5))
  {
    hide U64, U16, GenerationMoved;
    LinksAfterTruncation(p, p1, p2, p3);
    SameGeneration(p3, p4);
    SameNeighbourWords(p3, p4);
    SameNeighbourWords(p4, p5);
    MovedTwice(Generation(p), Generation(p3), Generation(p5));
  }

  lemma SameNeighbourWords(p: Image, q: Image)
    requires HDR_SIZE <= |p| && SameRange(p, q, 0, GENERATION_POS)
    ensures PrevAddr(q) == PrevAddr(p) && NextAddr(q) == NextAddr(p)
  {
  }

  lemma MovedTwice(g: nat, g': nat, g'': nat)
    requires g' == (g + 1) % TWO_64 && g'' == (g' + 1) % TWO_64
    ensures GenerationMoved(g, g'')
  {
  }

  /** `btree_splitting_pivot`. */
  method SplittingPivot(page: Page, spec: IncorporateSpec, plan: LeafSplittingPlan) returns (pivot: Image)
    requires page.Valid() && SpecFits(spec, NumEntries(page.data[..])) && spec.oldEntry != HasBeenRemoved
    requires PlanFits(plan, spec, NumEntries(page.data[..]))
    requires var e := Entries(page.data[..]); Cut(e, spec, plan) < |Incorporated(e, spec)|
    ensures var e := Entries(page.data[..]);
      pivot == if plan.splitIdx == spec.idx && spec.oldEntry == StillExists then e[spec.idx].key
               else Incorporated(e, spec)[Cut(e, spec, plan)].key
  {
    hide WellFormed, U16, EntryAt, Entries;
    ghost var p := page.data[..];
    EntriesLength(p);
    if plan.splitIdx == spec.idx && spec.oldEntry != StillExists && !plan.insertionGoesLeft {
      pivot := spec.tuple.key;
    } else {
      TupleIs(p, plan.splitIdx);
      PageBounds(p);
      EntryIsOk(p, plan.splitIdx);
      var o := page.GetU16(TableEnd(plan.splitIdx));
      var t := EntryAt(page.data[..], o);
      pivot := t.key;
    }
  }

  /** The leaf after the update is cut in two pages that hold everything, in order. */
  ghost predicate SplitResult(s: seq<Tuple>, left: seq<Tuple>, right: seq<Tuple>) {
    left + right == s && left != [] && right != []
  }

  /** Bytes that are a key of the leaf, or the incoming one. */
  ghost predicate KeyFrom(k: Image, e: seq<Tuple>, key: Image) {
    k == key || exists i :: 0 <= i < |e| && e[i].key == k
  }

  lemma UpdatedKeyFrom(e: seq<Tuple>, spec: IncorporateSpec, i: nat)
    requires SpecFits(spec, |e|) && i < |Incorporated(e, spec)|
    ensures KeyFrom(Incorporated(e, spec)[i].key, e, spec.tuple.key)
  {
    if i != spec.idx {
      var j := if spec.oldEntry == StillExists || i < spec.idx then i else i - 1;
      assert Incorporated(e, spec)[i] == e[j];
    }
  }

  /** How the pivot relates to the right page: it is its first key, up to the comparator. */
  ghost predicate IsFirstKey(pivot: Image, right: seq<Tuple>, rank: Image -> int) {
    right != [] && rank(pivot) == rank(right[0].key)
  }

  /** Every page that fits its entries leaves the balanced halves room. */
  lemma BalancedHalves(p: Image, spec: IncorporateSpec, plan: LeafSplittingPlan)
    requires WellFormed(p) && SpecFits(spec, NumEntries(p)) && spec.oldEntry != HasBeenRemoved
    requires AllInline(Entries(p), |p|) && Inline(spec.tuple, |p|) && PlanFits(plan, spec, NumEntries(p))
    requires BalancedCut(Incorporated(Entries(p), spec), LeftCount(plan, spec))
    ensures Halves(Entries(p), spec, plan, |p|)
  {
    hide WellFormed, Entries, Bytes, Inline, BalancedCut;
    var e := Entries(p);
    EntriesLength(p);
    EntriesFit(p);
    PageBounds(p);
    IncorporatedWeight(e, spec);
    OthersWeigh(e, spec);
    InlineCost(spec.tuple, |p|);
    var s := Incorporated(e, spec);
    forall t | t in s ensures Cost(t) < (|p| - HDR_SIZE) / 2 {
      assert t == spec.tuple || t in e;
      InlineCost(t, |p|);
    }
    HalvesFit(s, LeftCount(plan, spec), |p| - HDR_SIZE, Cost(spec.tuple));
  }

  lemma OthersWeigh(e: seq<Tuple>, spec: IncorporateSpec)
    requires SpecFits(spec, |e|)
    ensures Weight(Others(e, spec)) <= Weight(e) && |Others(e, spec)| <= |e|
  {
    KeptBytes(e, spec, |e|);
    KeptAll(e, spec);
    assert e[..|e|] == e;
  }

  /** `btree_split_child_leaf` on the two leaves: nothing is lost and no incorporation fails. */
  method SplitChildLeaf(left: Page, right: Page, leftAddr: nat, rightAddr: nat, spec: IncorporateSpec,
      ghost rank: Image -> int)
    returns (pivot: Image)
    requires left.Valid() && left.data != right.data && left.data.Length == right.data.Length
    requires leftAddr < TWO_64 && rightAddr < TWO_64
    requires SpecFits(spec, NumEntries(left.data[..])) && spec.oldEntry != HasBeenRemoved
    requires AllInline(Entries(left.data[..]), left.data.Length) && Inline(spec.tuple, left.data.Length)
    requires |Incorporated(Entries(left.data[..]), spec)| >= 2
    requires SameKey(Entries(left.data[..]), spec, rank)
    modifies left.data, right.data
    ensures left.Valid() && right.Valid()
    ensures SplitResult(Incorporated(old(Entries(left.data[..])), spec), Entries(left.data[..]),
      Entries(right.data[..]))
    ensures IsFirstKey(pivot, Entries(right.data[..]), rank)
    ensures KeyFrom(pivot, old(Entries(left.data[..])), spec.tuple.key)
    ensures PrevAddr(left.data[..]) == old(PrevAddr(left.data[..])) && NextAddr(left.data[..]) == rightAddr
    ensures PrevAddr(right.data[..]) == leftAddr && NextAddr(right.data[..]) == old(NextAddr(left.data[..]))
    ensures GenerationMoved(old(Generation(left.data[..])), Generation(left.data[..]))
  {
    hide WellFormed, U16, U64, Entries, Weight, Bytes, BalancedCut, Halves, Inline, GenerationMoved;
    ghost var p := left.data[..];
    ghost var e, s := Entries(p), Incorporated(Entries(p), spec);
    PageBounds(p);
    EntriesLength(p);
    var plan := BuildLeafSplittingPlan(left, spec);
    ghost var m := LeftCount(plan, spec);
    CutInside(s, m);
    BalancedHalves(p, spec, plan);
    pivot := SplittingPivot(left, spec, plan);
    UpdatedKeyFrom(e, spec, m);
    BuildRightNode(left, right, leftAddr, spec, plan);
    FinishLeftNode(left, rightAddr, spec, plan);
    assert s == s[..m] + s[m..];
  }

  lemma CutInside(s: seq<Tuple>, m: nat)
    requires BalancedCut(s, m) && |s| >= 2
    ensures 0 < m < |s|
  {
    CutIsInside(s, m);
  }

  /** When the spec replaces an entry, it is the entry with its key. */
  ghost predicate SameKey(e: seq<Tuple>, spec: IncorporateSpec, rank: Image -> int) {
    spec.oldEntry == StillExists ==> spec.idx < |e| && rank(e[spec.idx].key) == rank(spec.tuple.key)
  }

  /* ---- Defragment or split ---- */

  /**
    The total of `btree_defragment_or_split_child_leaf`, as C groups it: the conditional
    tests whether nentries + old_entry_state is 1, where the state is 0 or 1.
   */
  function TotalSpaceRequired(liveBytes: nat, n: nat, spec: IncorporateSpec): nat {
    var state := if spec.oldEntry == DidNotExist then 0 else if spec.oldEntry == StillExists then 1 else 2;
    liveBytes + RequiredCapacity(spec.tuple) + (if n + state == 1 then 0 else 1) * INDEX_ENTRY_SIZE
  }

  lemma {:induction false} ManyEntriesManyBytes(s: seq<Tuple>)
    ensures LEAF_ENTRY_SIZE * |s| <= Bytes(s)
  {
    if s != [] {
      ManyEntriesManyBytes(s[..|s| - 1]);
    }
  }

  /** Below half a page, the update fits a defragmented page. */
  lemma DefragmentedHasRoom(s: seq<Tuple>, pageSize: nat)
    requires PageSizeOk(pageSize) && Bytes(s) < pageSize / 2
    ensures HDR_SIZE + Weight(s) <= pageSize
  {
    ManyEntriesManyBytes(s);
  }

  /** From half a page on there are two tuples to tell apart. */
  lemma SplitsAtLeastTwo(e: seq<Tuple>, spec: IncorporateSpec, pageSize: nat)
    requires PageSizeOk(pageSize) && SpecFits(spec, |e|) && Inline(spec.tuple, pageSize)
    requires TotalSpaceRequired(Bytes(Others(e, spec)), |e|, spec) >= pageSize / 2
    ensures |Incorporated(e, spec)| >= 2
  {
    if |Incorporated(e, spec)| < 2 {
      assert Others(e, spec) == [];
      InlineCost(spec.tuple, pageSize);
      assert false;
    }
  }

  /** `btree_defragment_or_split_child_leaf`. */
  method DefragmentOrSplitChildLeaf(left: Page, right: Page, leftAddr: nat, rightAddr: nat, spec: IncorporateSpec,
      ghost rank: Image -> int)
    returns (split: bool, pivot: Image)
    requires left.Valid() && left.data != right.data && left.data.Length == right.data.Length
    requires leftAddr < TWO_64 && rightAddr < TWO_64
    requires SpecFits(spec, NumEntries(left.data[..])) && spec.oldEntry != HasBeenRemoved
    requires AllInline(Entries(left.data[..]), left.data.Length) && Inline(spec.tuple, left.data.Length)
    requires SameKey(Entries(left.data[..]), spec, rank)
    modifies left.data, right.data
    ensures left.Valid()
    ensures var e := old(Entries(left.data[..]));
      && (!split ==> Entries(left.data[..]) == Incorporated(e, spec) && right.data[..] == old(right.data[..]))
      && (split ==>
        right.Valid() && SplitResult(Incorporated(e, spec), Entries(left.data[..]), Entries(right.data[..])))
    ensures split ==> IsFirstKey(pivot, Entries(right.data[..]), rank)
    ensures split ==> KeyFrom(pivot, old(Entries(left.data[..])), spec.tuple.key)
    ensures !split ==> SameRange(old(left.data[..]), left.data[..], 0, GENERATION_POS)
    ensures split ==>
      && PrevAddr(left.data[..]) == old(PrevAddr(left.data[..])) && NextAddr(left.data[..]) == rightAddr
      && PrevAddr(right.data[..]) == leftAddr && NextAddr(right.data[..]) == old(NextAddr(left.data[..]))
    ensures GenerationMoved(old(Generation(left.data[..])), Generation(left.data[..]))
  {
    hide WellFormed, U16, U64, Entries, Weight, Bytes, Inline, EntryAt, CanPerform;
    ghost var p := left.data[..];
    ghost var e := Entries(p);
    PageBounds(p);
    EntriesLength(p);
    var n := left.GetU16(NUM_ENTRIES_POS);
    var liveBytes := CountLiveBytes(left, spec);
    IncorporatedWeight(e, spec);
    split := TotalSpaceRequired(liveBytes, n, spec) >= left.data.Length / 2;
    if split {
      SplitsAtLeastTwo(e, spec, left.data.Length);
      pivot := SplitChildLeaf(left, right, leftAddr, rightAddr, spec, rank);
    } else {
      pivot := [];
      InlineCost(spec.tuple, left.data.Length);
      DefragmentedHasRoom(Incorporated(e, spec), left.data.Length);
      var newSpec := left.DefragmentLeaf(spec);
      ghost var q := left.data[..];
      RemovedThenIncorporated(e, spec);
      EntriesLength(q);
      RoomToPerform(q, newSpec);
      var incorporated, _ := left.TryPerform(newSpec);
      assert incorporated;
      SameGeneration(p, q);
    }
  }
}
