/**
  Index pages (btree.c:222-313, 946-1053, 1604-1638): the offset table with the pivot each
  slot points to, the space the entries take, and when a page counts as full.
 */
module IndexPage {
  import opened PageLayout
  import opened Spans

  datatype IndexEntry = IndexEntry(pivot: Image, childAddr: nat, stats: seq<nat>)

  /** `index_entry_required_capacity`, and `sizeof_index_entry` of a stored entry. */
  function RequiredSpace(e: IndexEntry): nat { INDEX_ENTRY_SIZE + |e.pivot| }

  /** A table slot: where its entry starts and what is stored there. */
  datatype Slot = Slot(offset: nat, entry: IndexEntry)

  function SlotEnd(s: Slot): nat { s.offset + RequiredSpace(s.entry) }

  ghost predicate SlotsApart(slots: seq<Slot>) {
    forall i, j | 0 <= i < j < |slots| ::
      SlotEnd(slots[i]) <= slots[j].offset || SlotEnd(slots[j]) <= slots[i].offset
  }

  ghost predicate SlotsInside(slots: seq<Slot>, nextEntry: nat, pageSize: nat) {
    forall i | 0 <= i < |slots| :: nextEntry <= slots[i].offset && SlotEnd(slots[i]) <= pageSize
  }

  ghost predicate Arranged(slots: seq<Slot>, nextEntry: nat, pageSize: nat) {
    && TableEnd(|slots|) <= nextEntry <= pageSize
    && SlotsInside(slots, nextEntry, pageSize) && SlotsApart(slots)
  }

  function Pivots(slots: seq<Slot>): (e: seq<IndexEntry>)
    ensures |e| == |slots|
  {
    seq(|slots|, i requires 0 <= i < |slots| => slots[i].entry)
  }

  function Space(e: seq<IndexEntry>): nat {
    if e == [] then 0 else Space(e[..|e| - 1]) + RequiredSpace(e[|e| - 1])
  }

  lemma {:induction false} SpaceConcat(s: seq<IndexEntry>, t: seq<IndexEntry>)
    ensures Space(s + t) == Space(s) + Space(t)
  {
    if t == [] {
      assert s + t == s;
    } else {
      var n := |t| - 1;
      SpaceConcat(s, t[..n]);
      assert (s + t)[..|s + t| - 1] == s + t[..n];
    }
  }

  lemma SpaceOfNone()
    ensures Space([]) == 0
  {
  }

  lemma SpaceOfOne(s: seq<IndexEntry>, e: IndexEntry)
    ensures Space(s + [e]) == Space(s) + RequiredSpace(e)
  {
    assert (s + [e])[..|s|] == s;
  }

  lemma SpaceNext(s: seq<IndexEntry>, i: nat)
    requires i < |s|
    ensures Space(s[..i + 1]) == Space(s[..i]) + RequiredSpace(s[i])
    ensures Space(s[..i + 1]) <= Space(s) && Space(s[i..]) == Space(s) - Space(s[..i])
  {
    hide Space;
    SpaceOfOne(s[..i], s[i]);
    assert s[..i] + [s[i]] == s[..i + 1];
    SpaceCut(s, i + 1);
    SpaceCut(s, i);
  }

  lemma SpaceCut(s: seq<IndexEntry>, i: nat)
    requires i <= |s|
    ensures Space(s) == Space(s[..i]) + Space(s[i..])
  {
    hide Space;
    var a, b := s[..i], s[i..];
    SpaceConcat(a, b);
    assert a + b == s;
  }

  lemma {:induction false} ManyPivotsMuchSpace(s: seq<IndexEntry>)
    ensures INDEX_ENTRY_SIZE * |s| <= Space(s)
  {
    if s != [] {
      ManyPivotsMuchSpace(s[..|s| - 1]);
    }
  }

  function SlotSpans(slots: seq<Slot>): (s: seq<Span>)
    ensures |s| == |slots|
  {
    seq(|slots|, i requires 0 <= i < |slots| => Span(slots[i].offset, SlotEnd(slots[i])))
  }

  lemma {:induction false} SpansAreSpace(slots: seq<Slot>)
    ensures TotalLength(SlotSpans(slots)) == Space(Pivots(slots))
  {
    if slots != [] {
      var n := |slots| - 1;
      SpansAreSpace(slots[..n]);
      assert SlotSpans(slots)[..n] == SlotSpans(slots[..n]);
      assert Pivots(slots)[..n] == Pivots(slots[..n]);
    }
  }

  /** Live entries, free middle and table share the page. */
  lemma PivotsFit(slots: seq<Slot>, nextEntry: nat, pageSize: nat)
    requires Arranged(slots, nextEntry, pageSize)
    ensures TableEnd(|slots|) + Space(Pivots(slots)) <= nextEntry + Space(Pivots(slots)) <= pageSize
  {
    SpansAreSpace(slots);
    DisjointSpansFit(SlotSpans(slots), nextEntry, pageSize);
  }

  /* ---- Setting an entry ---- */

  /** The old entry is the physically first one and the new one fits its space plus the gap before it. */
  predicate Reclaims(slots: seq<Slot>, nextEntry: nat, k: nat, e: IndexEntry)
    requires k < |slots|
  {
    && nextEntry == slots[k].offset
    && TableEnd(|slots|) + RequiredSpace(e) <= nextEntry + RequiredSpace(slots[k].entry)
  }

  predicate CanSetIndexEntry(slots: seq<Slot>, nextEntry: nat, k: nat, e: IndexEntry)
    requires k <= |slots|
  {
    || (k < |slots| && (Reclaims(slots, nextEntry, k, e) || RequiredSpace(e) <= RequiredSpace(slots[k].entry)))
    || TableEnd(if k < |slots| then |slots| else k + 1) + RequiredSpace(e) <= nextEntry
  }

  /** Where the entries begin once `btree_set_index_entry` has put e into slot k. */
  function NextAfterSet(slots: seq<Slot>, nextEntry: nat, k: nat, e: IndexEntry): int
    requires k <= |slots|
  {
    if k < |slots| && Reclaims(slots, nextEntry, k, e)
    then nextEntry + RequiredSpace(slots[k].entry) - RequiredSpace(e)
    else if k < |slots| && RequiredSpace(e) <= RequiredSpace(slots[k].entry) then nextEntry
    else nextEntry - RequiredSpace(e)
  }

  lemma InPlace(slots: seq<Slot>, nextEntry: nat, pageSize: nat, k: nat, e: IndexEntry)
    requires Arranged(slots, nextEntry, pageSize) && k < |slots|
    requires RequiredSpace(e) <= RequiredSpace(slots[k].entry)
    ensures Arranged(slots[k := Slot(slots[k].offset, e)], nextEntry, pageSize)
    ensures Pivots(slots[k := Slot(slots[k].offset, e)]) == Pivots(slots)[k := e]
  {
  }

  /** Slot k is set to point to a new entry just below the ones that stay. */
  lemma Below(slots: seq<Slot>, floor: nat, nextEntry: nat, pageSize: nat, k: nat, e: IndexEntry)
    requires Arranged(slots, nextEntry, pageSize) && k < |slots| && nextEntry <= floor <= pageSize
    requires forall i | 0 <= i < |slots| && i != k :: floor <= slots[i].offset
    requires TableEnd(|slots|) + RequiredSpace(e) <= floor
    ensures Arranged(slots[k := Slot(floor - RequiredSpace(e), e)], floor - RequiredSpace(e), pageSize)
    ensures Pivots(slots[k := Slot(floor - RequiredSpace(e), e)]) == Pivots(slots)[k := e]
  {
  }

  lemma Appended(slots: seq<Slot>, nextEntry: nat, pageSize: nat, e: IndexEntry)
    requires Arranged(slots, nextEntry, pageSize) && TableEnd(|slots| + 1) + RequiredSpace(e) <= nextEntry
    ensures Arranged(slots + [Slot(nextEntry - RequiredSpace(e), e)], nextEntry - RequiredSpace(e), pageSize)
    ensures Pivots(slots + [Slot(nextEntry - RequiredSpace(e), e)]) == Pivots(slots) + [e]
  {
  }

  /** Reclaiming the physically first entry leaves all others behind the new floor. */
  lemma OthersBehind(slots: seq<Slot>, nextEntry: nat, pageSize: nat, k: nat)
    requires Arranged(slots, nextEntry, pageSize) && k < |slots| && nextEntry == slots[k].offset
    ensures forall i | 0 <= i < |slots| && i != k :: SlotEnd(slots[k]) <= slots[i].offset
  {
  }

  /** The table with its last slot moved to k. */
  function MovedTo<T>(s: seq<T>, k: nat): (r: seq<T>)
    requires k < |s|
    ensures |r| == |s|
  {
    s[..k] + [s[|s| - 1]] + s[k..|s| - 1]
  }

  lemma MovedAt<T>(s: seq<T>, k: nat, i: nat)
    requires k < |s| && i < |s|
    ensures MovedTo(s, k)[i] == s[if i < k then i else if i == k then |s| - 1 else i - 1]
  {
  }

  lemma Moved(slots: seq<Slot>, nextEntry: nat, pageSize: nat, k: nat)
    requires Arranged(slots, nextEntry, pageSize) && k < |slots|
    ensures Arranged(MovedTo(slots, k), nextEntry, pageSize) && Pivots(MovedTo(slots, k)) == MovedTo(Pivots(slots), k)
  {
    hide MovedTo;
    var moved := MovedTo(slots, k);
    forall i | 0 <= i < |moved|
      ensures nextEntry <= moved[i].offset && SlotEnd(moved[i]) <= pageSize
      ensures Pivots(moved)[i] == MovedTo(Pivots(slots), k)[i]
    {
      MovedAt(slots, k, i);
      MovedAt(Pivots(slots), k, i);
    }
    forall i, j | 0 <= i < j < |moved|
      ensures SlotEnd(moved[i]) <= moved[j].offset || SlotEnd(moved[j]) <= moved[i].offset
    {
      MovedAt(slots, k, i);
      MovedAt(slots, k, j);
    }
  }

  /** Where the entries of the first t slots begin. */
  function LowestOffset(slots: seq<Slot>, t: nat, pageSize: nat): nat
    requires t <= |slots|
  {
    if t == 0 then pageSize
    else
      var low := LowestOffset(slots, t - 1, pageSize);
      if slots[t - 1].offset < low then slots[t - 1].offset else low
  }

  lemma Taken(slots: seq<Slot>, nextEntry: nat, newNext: nat, pageSize: nat, t: nat)
    requires Arranged(slots, nextEntry, pageSize) && t <= |slots| && nextEntry <= newNext <= pageSize
    requires forall i | 0 <= i < t :: newNext <= slots[i].offset
    ensures Arranged(slots[..t], newNext, pageSize) && Pivots(slots[..t]) == Pivots(slots)[..t]
  {
  }

  /* ---- Fullness ---- */

  /** Room for one more entry whose pivot has `length` bytes. */
  predicate Accepts(n: nat, nextEntry: nat, length: nat) {
    TableEnd(n + 1) + INDEX_ENTRY_SIZE + length <= nextEntry
  }

  /** `btree_index_is_full`: the entries of a full page begin below this. */
  function FullBelow(n: nat, pageSize: nat): nat {
    TableEnd(n + 2) + INDEX_ENTRY_SIZE + pageSize / 8
  }

  predicate Full(n: nat, nextEntry: nat, pageSize: nat) {
    nextEntry < FullBelow(n, pageSize)
  }

  /** A page that is not full takes any inline pivot, in any slot. */
  lemma NotFullAccepts(slots: seq<Slot>, nextEntry: nat, pageSize: nat, k: nat, e: IndexEntry)
    requires !Full(|slots|, nextEntry, pageSize) && k <= |slots| && |e.pivot| <= pageSize / 8
    ensures Accepts(|slots|, nextEntry, |e.pivot|) && CanSetIndexEntry(slots, nextEntry, k, e)
  {
  }

  /* ---- Where an index is cut ---- */

  /** What `btree_choose_index_split` looks for: the first point with half of the bytes before it. */
  ghost predicate HalfwayPoint(e: seq<IndexEntry>, t: nat) {
    t <= |e| && Space(e) / 2 <= Space(e[..t]) && (t > 0 ==> Space(e[..t - 1]) < Space(e) / 2)
  }

  lemma NotYetAll(e: seq<IndexEntry>, t: nat)
    requires t <= |e| && Space(e[..t]) < Space(e) / 2
    ensures t < |e|
  {
    assert e[..|e|] == e;
  }

  ghost predicate PivotsWithin(e: seq<IndexEntry>, length: nat) {
    forall i | 0 <= i < |e| :: |e[i].pivot| <= length
  }

  /** Total of `btree_defragment_or_split_child_index`. */
  function IndexSpaceRequired(e: seq<IndexEntry>): nat {
    Space(e) + |e| * INDEX_ENTRY_SIZE
  }

  lemma CutStrictlyInside(e: seq<IndexEntry>, t: nat, pageSize: nat)
    requires PageSizeOk(pageSize) && PivotsWithin(e, pageSize / 8) && HalfwayPoint(e, t)
    requires IndexSpaceRequired(e) >= pageSize / 2
    ensures 0 < t < |e|
  {
    hide Space;
    ManyPivotsMuchSpace(e);
    SpaceOfNone();
    var u := t - 1;
    SpaceNext(e, u);
    ManyPivotsMuchSpace(e[..u]);
    assert e[..|e|] == e;
  }

  /** The right half, written without gaps, is not full. */
  lemma RightHalfNotFull(e: seq<IndexEntry>, t: nat, pageSize: nat)
    requires PageSizeOk(pageSize) && HalfwayPoint(e, t) && HDR_SIZE + Space(e) + TABLE_ENTRY_SIZE * |e| <= pageSize
    ensures Space(e[t..]) <= pageSize && !Full(|e| - t, pageSize - Space(e[t..]), pageSize)
  {
    hide Space;
    SpaceCut(e, t);
    ManyPivotsMuchSpace(e[t..]);
  }

  /** The left half is not full once a quarter of the page is free before its entries. */
  lemma LeftHalfNotFull(e: seq<IndexEntry>, t: nat, nextEntry: nat, pageSize: nat)
    requires PageSizeOk(pageSize) && t <= |e|
    requires Space(e[..t]) + nextEntry <= pageSize && pageSize / 4 <= nextEntry
    ensures !Full(t, nextEntry, pageSize)
  {
    ManyPivotsMuchSpace(e[..t]);
  }

  /** Rewritten without gaps, the left half leaves more than that quarter. */
  lemma LeftHalfLeavesQuarter(e: seq<IndexEntry>, t: nat, pageSize: nat)
    requires PageSizeOk(pageSize) && HalfwayPoint(e, t) && 0 < t && PivotsWithin(e, pageSize / 8)
    requires HDR_SIZE + Space(e) + TABLE_ENTRY_SIZE * |e| <= pageSize
    ensures pageSize / 4 <= pageSize - Space(e[..t])
  {
    SpaceNext(e, t - 1);
  }

  /** Below half a page, a page rewritten without gaps is not full. */
  lemma DefragmentedNotFull(e: seq<IndexEntry>, pageSize: nat)
    requires PageSizeOk(pageSize) && IndexSpaceRequired(e) < pageSize / 2
    ensures !Full(|e|, pageSize - Space(e), pageSize)
  {
    ManyPivotsMuchSpace(e);
  }

  /** What `btree_truncate_index` leaves of a page cut halfway: its first t slots as they are, or without gaps. */
  ghost predicate CutAt(was: seq<Slot>, t: nat, pageSize: nat, slots: seq<Slot>, nextEntry: nat) {
    && t <= |was| && HalfwayPoint(Pivots(was), t)
    && if LowestOffset(was, t, pageSize) < pageSize / 4
       then nextEntry + Space(Pivots(was)[..t]) == pageSize
       else slots == was[..t] && nextEntry == LowestOffset(was, t, pageSize)
  }

  /* ---- Room for the smallest pivot ---- */

  function MinEntry(slots: seq<Slot>, key: Image): IndexEntry
    requires slots != []
  {
    slots[0].entry.(pivot := key)
  }

  /** Pivot 0 takes the key if the key is below all pivots. */
  function WithMinKey(e: seq<IndexEntry>, below: bool, key: Image): seq<IndexEntry>
    requires e != []
  {
    if below then e[0 := e[0].(pivot := key)] else e
  }

  /**
    A page whose pivot 0 takes the key only after the split, in front of a half that was cut
    off as it was, where a further pivot of `length` bytes does not fit beside it.
   */
  ghost predicate Cramped(slots: seq<Slot>, nextEntry: nat, pageSize: nat, key: Image, length: nat)
    requires slots != []
  {
    && !CanSetIndexEntry(slots, nextEntry, 0, MinEntry(slots, key))
    && IndexSpaceRequired(Pivots(slots)) >= pageSize / 2
    && exists t: nat :: 0 < t <= |slots| && HalfwayPoint(Pivots(slots), t) && CrampedAt(slots, pageSize, t, key, length)
  }

  predicate CrampedAt(slots: seq<Slot>, pageSize: nat, t: nat, key: Image, length: nat)
    requires 0 < t <= |slots|
  {
    var low := LowestOffset(slots, t, pageSize);
    && pageSize / 4 <= low
    && low + (if slots[0].offset == low then RequiredSpace(slots[0].entry) else 0)
         < TableEnd(t + 1) + 2 * INDEX_ENTRY_SIZE + |key| + length
  }

  /** The page is tested once pivot 0 has taken the key or refused it; it is split when full and half used. */
  ghost predicate SplitsAsTested(was: seq<Slot>, wasNext: nat, pageSize: nat, below: bool, key: Image,
      split: bool, t: nat)
    requires was != []
  {
    var taken := below && CanSetIndexEntry(was, wasNext, 0, MinEntry(was, key));
    var e := WithMinKey(Pivots(was), taken, key);
    var next := if taken then NextAfterSet(was, wasNext, 0, MinEntry(was, key)) else wasNext;
    && (split <==> next < FullBelow(|was|, pageSize) && IndexSpaceRequired(e) >= pageSize / 2)
    && (split ==> HalfwayPoint(e, t))
  }

  /** A page with n slots has room for any further inline pivot, unless it was cramped before. */
  ghost predicate AcceptsUnlessCramped(n: nat, next: nat, was: seq<Slot>, wasNext: nat, pageSize: nat, below: bool,
      key: Image)
    requires was != []
  {
    forall length: nat | length <= pageSize / 8 ::
      Accepts(n, next, length) <==> !(below && Cramped(was, wasNext, pageSize, key, length))
  }

  /** A page that refuses to take the smallest pivot is full. */
  lemma FullWhenRefused(was: seq<Slot>, wasNext: nat, pageSize: nat, key: Image)
    requires was != [] && |key| <= pageSize / 8 && !CanSetIndexEntry(was, wasNext, 0, MinEntry(was, key))
    ensures Full(|was|, wasNext, pageSize)
  {
  }

  lemma NotRefused(n: nat, next: nat, was: seq<Slot>, wasNext: nat, pageSize: nat, below: bool, key: Image)
    requires was != [] && (below ==> CanSetIndexEntry(was, wasNext, 0, MinEntry(was, key)))
    ensures !Full(n, next, pageSize) ==> AcceptsUnlessCramped(n, next, was, wasNext, pageSize, below, key)
  {
  }

  lemma MinKeyWithin(slots: seq<Slot>, key: Image, pageSize: nat)
    requires slots != [] && PivotsWithin(Pivots(slots), pageSize / 8) && |key| <= pageSize / 8
    ensures |Pivots(slots)| == |slots| && PivotsWithin(WithMinKey(Pivots(slots), true, key), pageSize / 8)
    ensures WithMinKey(Pivots(slots), true, key) == Pivots(slots)[0 := MinEntry(slots, key)]
  {
  }

  lemma Tested(was: seq<Slot>, wasNext: nat, pageSize: nat, below: bool, key: Image, tested: seq<Slot>, testedNext: nat,
      split: bool, t: nat)
    requires was != [] && |tested| == |was|
    requires var taken := below && CanSetIndexEntry(was, wasNext, 0, MinEntry(was, key));
      && Pivots(tested) == WithMinKey(Pivots(was), taken, key)
      && testedNext == if taken then NextAfterSet(was, wasNext, 0, MinEntry(was, key)) else wasNext
    requires split <==> Full(|tested|, testedNext, pageSize) && IndexSpaceRequired(Pivots(tested)) >= pageSize / 2
    requires split ==> HalfwayPoint(Pivots(tested), t)
    ensures SplitsAsTested(was, wasNext, pageSize, below, key, split, t)
  {
  }

  lemma CutHalfway(was: seq<Slot>, t: nat, pageSize: nat, slots: seq<Slot>, nextEntry: nat)
    requires CutAt(was, t, pageSize, slots, nextEntry)
    ensures HalfwayPoint(Pivots(was), t)
  {
  }

  lemma FirstPivot(was: seq<Slot>, slots: seq<Slot>, key: Image)
    requires was != [] && slots != [] && Pivots(slots)[0] == Pivots(was)[0]
    ensures MinEntry(slots, key) == MinEntry(was, key)
  {
  }

  lemma RefusedThenDefragmented(was: seq<Slot>, wasNext: nat, ready: seq<Slot>, readyNext: nat, pageSize: nat,
      key: Image, next: nat)
    requires PageSizeOk(pageSize) && was != [] && |key| <= pageSize / 8
    requires IndexSpaceRequired(Pivots(was)) < pageSize / 2
    requires |ready| == |was| && readyNext + Space(Pivots(was)) == pageSize
    requires next == NextAfterSet(ready, readyNext, 0, MinEntry(ready, key))
    ensures AcceptsUnlessCramped(|ready|, next, was, wasNext, pageSize, true, key)
  {
    hide Space, Pivots, Accepts;
    PivotsLength(was);
    forall length: nat | length <= pageSize / 8 ensures Accepts(|ready|, next, length) {
      DefragmentedAccepts(Pivots(was), pageSize, next, key, length);
    }
  }

  lemma RefusedThenSplit(was: seq<Slot>, wasNext: nat, ready: seq<Slot>, readyNext: nat, t: nat, pageSize: nat,
      key: Image, next: nat)
    requires PageSizeOk(pageSize) && was != [] && |key| <= pageSize / 8 && Arranged(was, wasNext, pageSize)
    requires PivotsWithin(Pivots(was), pageSize / 8) && IndexSpaceRequired(Pivots(was)) >= pageSize / 2
    requires !CanSetIndexEntry(was, wasNext, 0, MinEntry(was, key))
    requires 0 < t <= |was| && CutAt(was, t, pageSize, ready, readyNext) && |ready| == t
    requires !Full(t, readyNext, pageSize)
    requires MinEntry(ready, key) == MinEntry(was, key) && next == NextAfterSet(ready, readyNext, 0, MinEntry(was, key))
    ensures AcceptsUnlessCramped(t, next, was, wasNext, pageSize, true, key)
  {
    RefusedIsLonger(was, wasNext, MinEntry(was, key));
    hide Space, Pivots, Accepts, Arranged, LowestOffset, HalfwayPoint, Cramped, CanSetIndexEntry, Full;
    PivotsFit(was, wasNext, pageSize);
    PivotsLength(was);
    forall length: nat | length <= pageSize / 8
      ensures Accepts(t, next, length) <==> !Cramped(was, wasNext, pageSize, key, length)
    {
      CrampedThere(was, wasNext, pageSize, t, key, length);
      if LowestOffset(was, t, pageSize) < pageSize / 4 {
        CompactHalfAccepts(Pivots(was), t, pageSize, next, key, length);
      } else {
        CutAsItWas(was, ready, t, pageSize, key, length, next);
      }
    }
  }

  lemma RefusedIsLonger(slots: seq<Slot>, nextEntry: nat, e: IndexEntry)
    requires slots != [] && !CanSetIndexEntry(slots, nextEntry, 0, e)
    ensures RequiredSpace(e) > RequiredSpace(slots[0].entry)
  {
  }

  lemma CrampedThere(was: seq<Slot>, wasNext: nat, pageSize: nat, t: nat, key: Image, length: nat)
    requires was != [] && IndexSpaceRequired(Pivots(was)) >= pageSize / 2
    requires !CanSetIndexEntry(was, wasNext, 0, MinEntry(was, key))
    requires 0 < t <= |was| && HalfwayPoint(Pivots(was), t)
    ensures Cramped(was, wasNext, pageSize, key, length) <==> CrampedAt(was, pageSize, t, key, length)
  {
    hide Space, Pivots, HalfwayPoint, CrampedAt, CanSetIndexEntry, IndexSpaceRequired;
    forall u: nat | 0 < u <= |was| && HalfwayPoint(Pivots(was), u) ensures u == t {
      HalfwayUnique(Pivots(was), t, u);
    }
  }

  /** In a half that was cut off as it was, the smallest pivot goes in front or over the first entry. */
  lemma CutAsItWas(was: seq<Slot>, ready: seq<Slot>, t: nat, pageSize: nat, key: Image, length: nat, next: nat)
    requires PageSizeOk(pageSize) && 0 < t <= |was| && |key| <= pageSize / 8 && ready == was[..t]
    requires RequiredSpace(MinEntry(was, key)) > RequiredSpace(was[0].entry)
    requires var low := LowestOffset(was, t, pageSize);
      pageSize / 4 <= low && next == NextAfterSet(ready, low, 0, MinEntry(was, key))
      && !Full(t, low, pageSize)
    ensures Accepts(t, next, length) <==> !CrampedAt(was, pageSize, t, key, length)
  {
    hide LowestOffset;
  }

  lemma HalfwayUnique(e: seq<IndexEntry>, t: nat, u: nat)
    requires HalfwayPoint(e, t) && HalfwayPoint(e, u)
    ensures t == u
  {
    HalfwayOrder(e, t, u);
    HalfwayOrder(e, u, t);
  }

  lemma HalfwayOrder(e: seq<IndexEntry>, t: nat, u: nat)
    requires HalfwayPoint(e, t) && HalfwayPoint(e, u)
    ensures t >= u
  {
    hide Space;
    if t < u {
      SpaceMonotone(e, t, u - 1);
    }
  }

  lemma SpaceMonotone(e: seq<IndexEntry>, i: nat, j: nat)
    requires i <= j <= |e|
    ensures Space(e[..i]) <= Space(e[..j])
  {
    hide Space;
    SpaceCut(e[..j], i);
    ManyPivotsMuchSpace(e[..j][i..]);
    assert e[..j][..i] == e[..i];
  }

  /** A half cut at halfway and written without gaps has room for two more pivots. */
  lemma CompactHalfAccepts(e: seq<IndexEntry>, t: nat, pageSize: nat, next: int, key: Image, length: nat)
    requires PageSizeOk(pageSize) && HalfwayPoint(e, t) && 0 < t && PivotsWithin(e, pageSize / 8)
    requires HDR_SIZE + Space(e) + TABLE_ENTRY_SIZE * |e| <= pageSize
    requires |key| <= pageSize / 8 && length <= pageSize / 8
    requires next >= pageSize - Space(e[..t]) - INDEX_ENTRY_SIZE - |key|
    ensures next >= 0 && Accepts(t, next, length)
  {
    hide Space;
    SpaceNext(e, t - 1);
    ManyPivotsMuchSpace(e);
  }

  lemma DefragmentedAccepts(e: seq<IndexEntry>, pageSize: nat, next: int, key: Image, length: nat)
    requires PageSizeOk(pageSize) && IndexSpaceRequired(e) < pageSize / 2
    requires |key| <= pageSize / 8 && length <= pageSize / 8
    requires next >= pageSize - Space(e) - INDEX_ENTRY_SIZE - |key|
    ensures next >= 0 && Accepts(|e|, next, length)
  {
  }

  /** Keys that together take no more than an eighth of the page never cramp it. */
  lemma ShortKeysFit(slots: seq<Slot>, nextEntry: nat, pageSize: nat, key: Image, length: nat)
    requires PageSizeOk(pageSize) && Arranged(slots, nextEntry, pageSize) && slots != []
    requires |key| + length <= pageSize / 8
    ensures !Cramped(slots, nextEntry, pageSize, key, length)
  {
    hide Space, Pivots;
    forall t: nat | 0 < t <= |slots| ensures !CrampedAt(slots, pageSize, t, key, length) {
      HalfBehind(slots, nextEntry, pageSize, t);
    }
  }

  /** The first t slots, and what lies in front of them, fit the page. */
  lemma HalfBehind(slots: seq<Slot>, nextEntry: nat, pageSize: nat, t: nat)
    requires Arranged(slots, nextEntry, pageSize) && t <= |slots|
    ensures INDEX_ENTRY_SIZE * t + LowestOffset(slots, t, pageSize) <= pageSize
  {
    LowestIsLowest(slots, nextEntry, pageSize, t);
    var low := LowestOffset(slots, t, pageSize);
    Cut(slots, low, pageSize, t);
    SpansAreSpace(slots[..t]);
    DisjointSpansFit(SlotSpans(slots[..t]), low, pageSize);
    ManyPivotsMuchSpace(Pivots(slots[..t]));
  }

  lemma Cut(slots: seq<Slot>, low: nat, pageSize: nat, t: nat)
    requires SlotsApart(slots) && t <= |slots|
    requires forall i | 0 <= i < t :: low <= slots[i].offset && SlotEnd(slots[i]) <= pageSize
    ensures Disjoint(SlotSpans(slots[..t])) && Inside(SlotSpans(slots[..t]), low, pageSize)
  {
  }

  lemma {:induction false} LowestIsLowest(slots: seq<Slot>, nextEntry: nat, pageSize: nat, t: nat)
    requires Arranged(slots, nextEntry, pageSize) && t <= |slots|
    ensures nextEntry <= LowestOffset(slots, t, pageSize) <= pageSize
    ensures forall i | 0 <= i < t :: LowestOffset(slots, t, pageSize) <= slots[i].offset
  {
    if t > 0 {
      LowestIsLowest(slots, nextEntry, pageSize, t - 1);
    }
  }

  /* ---- The page ---- */

  /** An index page as it lies in the store. */
  datatype Layout = Layout(slots: seq<Slot>, nextEntry: nat)

  class Page {
    const pageSize: nat
    var slots: seq<Slot>
    var nextEntry: nat
    var generation: nat

    ghost predicate Valid()
      reads this
    {
      PageSizeOk(pageSize) && Arranged(slots, nextEntry, pageSize)
    }

    /** The pivots in table order. */
    ghost function Entries(): seq<IndexEntry>
      reads this
    {
      Pivots(slots)
    }

    /** No gaps: the entries fill the page from its end. */
    ghost predicate Compact()
      reads this
    {
      Valid() && nextEntry + Space(Entries()) == pageSize
    }

    constructor (pageSize: nat)
      requires PageSizeOk(pageSize)
      ensures this.pageSize == pageSize && Compact() && Entries() == []
    {
      this.pageSize := pageSize;
      slots, nextEntry, generation := [], pageSize, 0;
    }

    /** A page that is brought in to be changed. */
    constructor Load(pageSize: nat, stored: Layout)
      requires PageSizeOk(pageSize) && Arranged(stored.slots, stored.nextEntry, pageSize)
      ensures this.pageSize == pageSize && Valid() && slots == stored.slots && nextEntry == stored.nextEntry
    {
      this.pageSize := pageSize;
      slots, nextEntry, generation := stored.slots, stored.nextEntry, 0;
    }

    /** What is written back. */
    function Saved(): Layout
      reads this
    {
      Layout(slots, nextEntry)
    }

    /** `btree_set_index_entry`. */
    method SetIndexEntry(k: nat, e: IndexEntry) returns (success: bool)
      requires Valid() && k <= |slots|
      modifies this`slots, this`nextEntry
      ensures Valid() && success == old(CanSetIndexEntry(slots, nextEntry, k, e))
      ensures !success ==> slots == old(slots) && nextEntry == old(nextEntry)
      ensures success && k < old(|slots|) ==> Entries() == old(Entries())[k := e]
      ensures success && k == old(|slots|) ==>
        Entries() == old(Entries()) + [e] && slots == old(slots) + [Slot(nextEntry, e)]
      ensures success ==> nextEntry == NextAfterSet(old(slots), old(nextEntry), k, e)
    {
      hide SlotsApart, SlotsInside, Pivots;
      var newN := if k < |slots| then |slots| else k + 1;
      ghost var was, wasNext := slots, nextEntry;
      if k < |slots| {
        var oldEntry := slots[k];
        if nextEntry == oldEntry.offset
          && TableEnd(newN) + RequiredSpace(e) <= nextEntry + RequiredSpace(oldEntry.entry)
        {
          OthersBehind(slots, nextEntry, pageSize, k);
          SlotInside(slots, nextEntry, pageSize, k);
          nextEntry := nextEntry + RequiredSpace(oldEntry.entry);
        } else if RequiredSpace(e) <= RequiredSpace(oldEntry.entry) {
          InPlace(slots, nextEntry, pageSize, k, e);
          slots := slots[k := Slot(oldEntry.offset, e)];
          return true;
        } else {
          AllBehind(slots, nextEntry, pageSize);
        }
      }
      if nextEntry < TableEnd(newN) + RequiredSpace(e) {
        return false;
      }
      var offset := nextEntry - RequiredSpace(e);
      if k < |slots| {
        Below(slots, nextEntry, wasNext, pageSize, k, e);
        slots := slots[k := Slot(offset, e)];
      } else {
        Appended(slots, nextEntry, pageSize, e);
        slots := slots + [Slot(offset, e)];
      }
      nextEntry := offset;
      return true;
    }

    /** `btree_insert_index_entry`. */
    method InsertIndexEntry(k: nat, e: IndexEntry) returns (success: bool)
      requires Valid() && k <= |slots|
      modifies this`slots, this`nextEntry
      ensures Valid() && (success <==> old(Accepts(|slots|, nextEntry, |e.pivot|)))
      ensures !success ==> slots == old(slots) && nextEntry == old(nextEntry)
      ensures success ==> Entries() == old(Entries())[..k] + [e] + old(Entries())[k..]
      ensures success ==> nextEntry == old(nextEntry) - RequiredSpace(e)
      ensures success ==> slots == old(slots)[..k] + [Slot(nextEntry, e)] + old(slots)[k..]
    {
      hide SlotsApart, SlotsInside, Arranged;
      var n := |slots|;
      ghost var was := Entries();
      success := SetIndexEntry(n, e);
      if success {
        Moved(slots, nextEntry, pageSize, k);
        MovedSplits(was, e, k);
        slots := slots[..k] + [slots[|slots| - 1]] + slots[k..|slots| - 1];
      }
    }

    /** `btree_reset_node_entries`. */
    method ResetNodeEntries()
      requires PageSizeOk(pageSize)
      modifies this`slots, this`nextEntry
      ensures Compact() && Entries() == [] && nextEntry == pageSize
    {
      slots, nextEntry := [], pageSize;
    }

    /** The copy loops of `btree_defragment_index` and `btree_split_index_build_right_node`. */
    method CopyEntries(source: seq<Slot>, start: nat, ghost next: nat)
      requires Compact() && Entries() == [] && start <= |source| && Arranged(source, next, pageSize)
      modifies this`slots, this`nextEntry
      ensures Compact() && Entries() == Pivots(source)[start..]
    {
      hide Arranged, CanSetIndexEntry, Space;
      SpaceOfNone();
      ghost var e := Pivots(source);
      PivotsFit(source, next, pageSize);
      for i := 0 to |source| - start
        invariant Compact() && Entries() == e[start..start + i] && |slots| == i
      {
        RoomForNext(e, start, i, pageSize, slots, nextEntry);
        SpaceOfOne(e[start..start + i], e[start + i]);
        assert e[start..start + i] + [e[start + i]] == e[start..start + i + 1];
        var succeeded := SetIndexEntry(i, source[start + i].entry);
        assert succeeded;
      }
    }

    /** `btree_defragment_index`. */
    method DefragmentIndex()
      requires Valid()
      modifies this`slots, this`nextEntry
      ensures Compact() && Entries() == old(Entries())
    {
      hide Arranged, Pivots;
      var scratch := slots;
      ghost var next := nextEntry;
      ResetNodeEntries();
      CopyEntries(scratch, 0, next);
    }

    predicate IsFull()
      reads this
    {
      Full(|slots|, nextEntry, pageSize)
    }

    /** `btree_truncate_index`. */
    method TruncateIndex(target: nat)
      requires Valid() && target <= |slots|
      modifies this
      ensures Valid() && Entries() == old(Entries())[..target] && generation == old(generation) + 1
      ensures if LowestOffset(old(slots), target, pageSize) < pageSize / 4 then Compact()
              else slots == old(slots)[..target] && nextEntry == LowestOffset(old(slots), target, pageSize)
    {
      hide Pivots, SlotsApart;
      var newNextEntry := pageSize;
      for i := 0 to target
        invariant unchanged(this) && nextEntry <= newNextEntry <= pageSize
        invariant newNextEntry == LowestOffset(slots, i, pageSize)
        invariant forall j | 0 <= j < i :: newNextEntry <= slots[j].offset
      {
        if slots[i].offset < newNextEntry {
          newNextEntry := slots[i].offset;
        }
      }
      Taken(slots, nextEntry, newNextEntry, pageSize, target);
      slots, nextEntry, generation := slots[..target], newNextEntry, generation + 1;
      if newNextEntry < pageSize / 4 {
        DefragmentIndex();
      }
    }

    /** `btree_choose_index_split`. */
    method ChooseIndexSplit() returns (t: nat)
      requires Valid()
      ensures HalfwayPoint(Entries(), t)
    {
      hide Arranged;
      ghost var e := Entries();
      var total := 0;
      for i := 0 to |slots|
        invariant total == Space(e[..i])
      {
        SpaceNext(e, i);
        total := total + RequiredSpace(slots[i].entry);
      }
      assert e[..|slots|] == e;
      t := 0;
      var leftBytes := 0;
      while leftBytes < total / 2
        invariant t <= |e| && leftBytes == Space(e[..t]) && total == Space(e)
        invariant t > 0 ==> Space(e[..t - 1]) < total / 2
        decreases |e| - t
      {
        NotYetAll(e, t);
        SpaceNext(e, t);
        leftBytes := leftBytes + RequiredSpace(slots[t].entry);
        t := t + 1;
      }
    }

    /**
      `btree_split_child_index`, seen from the two halves: together they hold the old
      pivots, neither is empty and neither is full.
     */
    method SplitIndex(right: Page) returns (t: nat)
      requires Valid() && right != this && right.pageSize == pageSize && PivotsWithin(Entries(), pageSize / 8)
      requires IndexSpaceRequired(Entries()) >= pageSize / 2
      modifies this, right
      ensures Valid() && right.Valid() && 0 < t < |old(Entries())|
      ensures Entries() == old(Entries())[..t] && right.Entries() == old(Entries())[t..]
      ensures !Full(|slots|, nextEntry, pageSize) && !Full(|right.slots|, right.nextEntry, pageSize)
      ensures CutAt(old(slots), t, pageSize, slots, nextEntry)
    {
      hide Arranged, Pivots, Full, HalfwayPoint, PivotsWithin, LowestOffset;
      ghost var e := Entries();
      PivotsFit(slots, nextEntry, pageSize);
      PivotsLength(slots);
      t := ChooseIndexSplit();
      CutStrictlyInside(e, t, pageSize);
      right.generation := generation + 1;
      right.ResetNodeEntries();
      right.CopyEntries(slots, t, nextEntry);
      PivotsLength(right.slots);
      RightHalfNotFull(e, t, pageSize);
      TruncateIndex(t);
      PivotsLength(slots);
      PivotsFit(slots, nextEntry, pageSize);
      LeftHalfLeavesQuarter(e, t, pageSize);
      LeftHalfNotFull(e, t, nextEntry, pageSize);
    }

    /** `btree_defragment_or_split_child_index`. */
    method DefragmentOrSplitIndex(right: Page) returns (split: bool, t: nat)
      requires Valid() && right != this && right.pageSize == pageSize && PivotsWithin(Entries(), pageSize / 8)
      modifies this, right
      ensures Valid() && split == (old(IndexSpaceRequired(Entries())) >= pageSize / 2)
      ensures !Full(|slots|, nextEntry, pageSize)
      ensures !split ==> Compact() && Entries() == old(Entries()) && unchanged(right)
      ensures split ==>
        && right.Valid() && 0 < t < |old(Entries())| && !Full(|right.slots|, right.nextEntry, pageSize)
        && Entries() == old(Entries())[..t] && right.Entries() == old(Entries())[t..]
        && CutAt(old(slots), t, pageSize, slots, nextEntry)
    {
      hide Arranged, Pivots, Full, CutAt;
      ghost var e := Entries();
      var liveBytes := CountLiveBytes();
      PivotsLength(slots);
      t := 0;
      split := liveBytes + |slots| * INDEX_ENTRY_SIZE >= pageSize / 2;
      if split {
        t := SplitIndex(right);
      } else {
        DefragmentIndex();
        PivotsLength(slots);
        DefragmentedNotFull(e, pageSize);
      }
    }

    /**
      What `btree_insert` does to a page below the root (btree.c:1887-1949): pivot 0 takes a
      key below all others if there is room, a full page is defragmented or split, and pivot
      0 takes the key now if it did not before. That last step never fails. Afterwards the
      page the search goes on in accepts any inline pivot, unless it was cramped.
     */
    method MakeReady(right: Page, below: bool, key: Image) returns (split: bool, t: nat)
      requires Valid() && slots != [] && right != this && right.pageSize == pageSize
      requires PivotsWithin(Entries(), pageSize / 8) && |key| <= pageSize / 8
      modifies this, right
      ensures Valid() && slots != []
      ensures !split ==> unchanged(right) && Entries() == WithMinKey(old(Entries()), below, key)
      ensures split ==>
        && right.Valid() && !Full(|right.slots|, right.nextEntry, pageSize) && 0 < t < |old(Entries())|
        && Entries() == WithMinKey(old(Entries()), below, key)[..t]
        && right.Entries() == WithMinKey(old(Entries()), below, key)[t..]
      ensures SplitsAsTested(old(slots), old(nextEntry), pageSize, below, key, split, t)
      ensures AcceptsUnlessCramped(|slots|, nextEntry, old(slots), old(nextEntry), pageSize, below, key)
    {
      hide Arranged, Pivots, Full, CanSetIndexEntry, Cramped, CutAt, PivotsWithin, NextAfterSet, AcceptsUnlessCramped,
        SplitsAsTested, IndexSpaceRequired;
      ghost var was, wasNext := slots, nextEntry;
      PivotsLength(was);
      split, t := false, 0;
      var needToSetMinKey := false;
      if below {
        var success := SetIndexEntry(0, MinEntry(slots, key));
        needToSetMinKey := !success;
        PivotsLength(slots);
        MinKeyWithin(was, key, pageSize);
      }
      ghost var tested, testedNext := slots, nextEntry;
      if needToSetMinKey {
        FullWhenRefused(was, wasNext, pageSize, key);
      } else {
        NotRefused(|slots|, nextEntry, was, wasNext, pageSize, below, key);
      }
      if IsFull() {
        split, t := DefragmentOrSplitIndex(right);
        if split {
          CutHalfway(tested, t, pageSize, slots, nextEntry);
        }
        PivotsLength(slots);
        if !needToSetMinKey {
          NotRefused(|slots|, nextEntry, was, wasNext, pageSize, below, key);
        }
      }
      Tested(was, wasNext, pageSize, below, key, tested, testedNext, split, t);
      if needToSetMinKey {
        ghost var ready, readyNext := slots, nextEntry;
        NotFullAccepts(ready, readyNext, pageSize, 0, MinEntry(ready, key));
        FirstPivot(was, ready, key);
        var success := SetIndexEntry(0, MinEntry(slots, key));
        assert success;
        PivotsLength(slots);
        if split {
          RefusedThenSplit(was, wasNext, ready, readyNext, t, pageSize, key, nextEntry);
        } else {
          RefusedThenDefragmented(was, wasNext, ready, readyNext, pageSize, key, nextEntry);
        }
      }
    }

    method CountLiveBytes() returns (liveBytes: nat)
      requires Valid()
      ensures liveBytes == Space(Entries())
    {
      hide Arranged;
      ghost var e := Entries();
      liveBytes := 0;
      for i := 0 to |slots|
        invariant liveBytes == Space(e[..i])
      {
        SpaceNext(e, i);
        liveBytes := liveBytes + RequiredSpace(slots[i].entry);
      }
      assert e[..|slots|] == e;
    }
  }

  /* ---- A page that is cramped ---- */

  /** A key of n bytes that starts with b. */
  function KeyOf(b: byte, n: nat): (k: Image)
    requires n > 0
    ensures |k| == n
  {
    [b] + seq(n - 1, _ => 0 as byte)
  }

  function PivotOf(b: byte, n: nat): IndexEntry
    requires n > 0
  {
    IndexEntry(KeyOf(b, n), b as int, [])
  }

  /** Eight increasing pivots on a page of 4096 bytes, without gaps, the fourth one inserted next to last. */
  function CrampedSlots(): seq<Slot> {
    [Slot(4072, PivotOf(1, 1)), Slot(3572, PivotOf(2, 477)), Slot(3072, PivotOf(3, 477)), Slot(1030, PivotOf(4, 512)),
     Slot(2572, PivotOf(5, 477)), Slot(2072, PivotOf(6, 477)), Slot(1565, PivotOf(7, 484)), Slot(530, PivotOf(8, 477))]
  }

  /** Eight insertions make that page, each into a page that is not full. */
  method BuildCrampedPage() returns (page: Page)
    ensures fresh(page) && page.pageSize == 4096 && page.Valid()
    ensures page.slots == CrampedSlots() && page.nextEntry == 530
  {
    hide Arranged, Pivots, KeyOf;
    page := new Page(4096);
    var s := CrampedSlots();
    var success := page.InsertIndexEntry(0, s[0].entry);
    assert page.slots == s[..1];
    assert !page.IsFull();
    success := page.InsertIndexEntry(1, s[1].entry);
    assert page.slots == s[..2];
    assert !page.IsFull();
    success := page.InsertIndexEntry(2, s[2].entry);
    assert page.slots == s[..3];
    assert !page.IsFull();
    success := page.InsertIndexEntry(3, s[4].entry);
    assert page.slots == s[..3] + s[4..5];
    assert !page.IsFull();
    success := page.InsertIndexEntry(4, s[5].entry);
    assert page.slots == s[..3] + s[4..6];
    assert !page.IsFull();
    success := page.InsertIndexEntry(5, s[6].entry);
    assert page.slots == s[..3] + s[4..7];
    assert !page.IsFull();
    success := page.InsertIndexEntry(3, s[3].entry);
    assert page.slots == s[..7];
    assert !page.IsFull();
    success := page.InsertIndexEntry(7, s[7].entry);
    assert page.slots == s;
  }

  lemma CrampedPageSpace()
    ensures var e := Pivots(CrampedSlots());
      |e| == 8 && Space(e[..4]) == 1559 && Space(e[..5]) == 2059 && Space(e) == 3566
  {
    hide Space, KeyOf;
    var e := Pivots(CrampedSlots());
    SpaceOfNone();
    assert e[..0] == [] && e[..8] == e;
    SpaceNext(e, 0);
    SpaceNext(e, 1);
    SpaceNext(e, 2);
    SpaceNext(e, 3);
    SpaceNext(e, 4);
    SpaceNext(e, 5);
    SpaceNext(e, 6);
    SpaceNext(e, 7);
  }

  lemma CrampedPageIs(key: Image)
    requires |key| == 512
    ensures Full(8, 530, 4096) && Cramped(CrampedSlots(), 530, 4096, key, 512)
  {
    CrampedPageSpace();
    hide Space, Pivots;
    assert HalfwayPoint(Pivots(CrampedSlots()), 5);
    assert CrampedAt(CrampedSlots(), 4096, 5, key, 512);
  }

  /**
    On that page a smallest key of 512 bytes, an eighth of the page, goes in only after the
    split, and the next pivot of 512 bytes is refused. Below a leaf split the source asserts
    that it is not (btree.c:1408); below an index split it does not look (btree.c:1547-1552).
   */
  method PivotRefused(key: Image, e: IndexEntry) returns (page: Page, inserted: bool)
    requires |key| == 512 == |e.pivot|
    ensures page.Valid() && page.Entries() == WithMinKey(Pivots(CrampedSlots()), true, key)[..5] && !inserted
  {
    hide Arranged, Pivots, Cramped, SplitsAsTested, PivotsWithin, CrampedSlots;
    page := BuildCrampedPage();
    var right := new Page(4096);
    CrampedPageWithin();
    CrampedPageIs(key);
    CrampedPageSpace();
    var split, t := page.MakeReady(right, true, key);
    CrampedPageCut(key, split, t);
    inserted := page.InsertIndexEntry(1, e);
  }

  lemma CrampedPageCut(key: Image, split: bool, t: nat)
    requires |key| == 512 && SplitsAsTested(CrampedSlots(), 530, 4096, true, key, split, t)
    ensures split && t == 5
  {
    CrampedPageSpace();
    hide Space, Pivots;
    var e := Pivots(CrampedSlots());
    assert HalfwayPoint(e, 5);
    HalfwayUnique(e, 5, t);
  }

  lemma CrampedPageWithin()
    ensures PivotsWithin(Pivots(CrampedSlots()), 4096 / 8)
  {
  }

  lemma PivotsLength(slots: seq<Slot>)
    ensures |Pivots(slots)| == |slots|
  {
  }

  lemma SlotInside(slots: seq<Slot>, nextEntry: nat, pageSize: nat, k: nat)
    requires Arranged(slots, nextEntry, pageSize) && k < |slots|
    ensures SlotEnd(slots[k]) <= pageSize
  {
  }

  lemma AllBehind(slots: seq<Slot>, nextEntry: nat, pageSize: nat)
    requires Arranged(slots, nextEntry, pageSize)
    ensures forall i | 0 <= i < |slots| :: nextEntry <= slots[i].offset
  {
  }

  lemma MovedSplits(e: seq<IndexEntry>, x: IndexEntry, k: nat)
    requires k <= |e|
    ensures MovedTo(e + [x], k) == e[..k] + [x] + e[k..]
  {
  }

  lemma RoomForNext(e: seq<IndexEntry>, start: nat, i: nat, pageSize: nat, slots: seq<Slot>, nextEntry: nat)
    requires start + i < |e| && HDR_SIZE + TABLE_ENTRY_SIZE * |e| + Space(e) <= pageSize
    requires |slots| == i && nextEntry + Space(e[start..start + i]) == pageSize
    ensures CanSetIndexEntry(slots, nextEntry, i, e[start + i])
  {
    hide Space;
    SpaceConcat(e[..start], e[start..]);
    assert e == e[..start] + e[start..];
    SpaceNext(e[start..], i);
    assert e[start..][..i] == e[start..start + i];
  }
}
