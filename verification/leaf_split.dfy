/**
  Splitting a leaf by bytes (btree.c:749-934, 1240-1331, 1401-1431): the plan, the two
  halves, and the choice between defragmenting and splitting.
 */
module LeafSplit {
  import opened PageLayout
  import opened LeafPage

  function MaxInlineKeySize(pageSize: nat): nat { pageSize / 8 }
  function MaxInlineMessageSize(pageSize: nat): nat { 35 * pageSize / 100 }

  predicate Inline(t: Tuple, pageSize: nat) {
    |t.key| <= MaxInlineKeySize(pageSize) && |t.msg| <= MaxInlineMessageSize(pageSize) && t.cls < 4
  }

  /* ---- The plan ---- */

  /** Bytes a tuple takes with its table slot. */
  function Cost(t: Tuple): nat { TABLE_ENTRY_SIZE + RequiredCapacity(t) }

  function Weight(s: seq<Tuple>): nat { Bytes(s) + TABLE_ENTRY_SIZE * |s| }

  lemma WeightConcat(s: seq<Tuple>, t: seq<Tuple>)
    ensures Weight(s + t) == Weight(s) + Weight(t)
  {
    BytesConcat(s, t);
  }

  lemma WeightNext(s: seq<Tuple>, i: nat)
    requires i < |s|
    ensures Weight(s[..i + 1]) == Weight(s[..i]) + Cost(s[i])
    ensures Weight(s[..i + 1]) <= Weight(s)
  {
    assert s[..i + 1][..i] == s[..i];
    assert s == s[..i + 1] + s[i + 1..];
    WeightConcat(s[..i + 1], s[i + 1..]);
  }

  /** `most_of_entry_is_on_left_side`. */
  predicate MostOfEntryIsOnLeftSide(totalBytes: nat, leftBytes: nat, entrySize: nat) {
    leftBytes + TABLE_ENTRY_SIZE + entrySize < (totalBytes + TABLE_ENTRY_SIZE + entrySize) / 2
  }

  /** More than half of tuple i lies in the first half of the bytes of s. */
  predicate GoesLeft(s: seq<Tuple>, i: nat)
    requires i < |s|
  {
    MostOfEntryIsOnLeftSide(Weight(s), Weight(s[..i]), RequiredCapacity(s[i]))
  }

  /** m is where s is to be cut: everything before it goes left, it does not. */
  ghost predicate BalancedCut(s: seq<Tuple>, m: nat) {
    m < |s| && !GoesLeft(s, m) && forall i: nat | i < m :: GoesLeft(s, i)
  }

  lemma LastStaysRight(s: seq<Tuple>)
    requires s != []
    ensures !GoesLeft(s, |s| - 1)
  {
    WeightNext(s, |s| - 1);
    assert s[..|s|] == s;
  }

  lemma FirstGoesLeft(s: seq<Tuple>)
    requires |s| >= 2
    ensures GoesLeft(s, 0)
  {
    WeightNext(s, 0);
    WeightNext(s, 1);
  }

  /** With two tuples or more a balanced cut leaves something on either side. */
  lemma CutIsInside(s: seq<Tuple>, m: nat)
    requires BalancedCut(s, m)
    ensures m > 0 <==> |s| >= 2
  {
    if |s| >= 2 {
      FirstGoesLeft(s);
    }
  }

  /** A page that fitted before the new tuple yields two halves that fit. */
  lemma HalvesFit(s: seq<Tuple>, m: nat, room: nat, added: nat)
    requires BalancedCut(s, m) && Weight(s) <= room + added && added < room / 2
    requires forall t | t in s :: Cost(t) < room / 2
    ensures Weight(s[..m]) <= room && Weight(s[m..]) <= room
  {
    assert s == s[..m] + s[m..];
    WeightConcat(s[..m], s[m..]);
    assert Cost(s[m]) < room / 2;
    if m > 0 {
      WeightNext(s, m - 1);
      assert GoesLeft(s, m - 1) && Cost(s[m - 1]) < room / 2;
    }
  }

  datatype LeafSplittingPlan = LeafSplittingPlan(splitIdx: nat, insertionGoesLeft: bool)

  /** How many tuples of the leaf with the update applied go to the left page. */
  function LeftCount(plan: LeafSplittingPlan, spec: IncorporateSpec): nat {
    if plan.insertionGoesLeft && spec.oldEntry != StillExists then plan.splitIdx + 1 else plan.splitIdx
  }

  /** The plan names a place among the n entries on the side of the update it claims. */
  predicate PlanFits(plan: LeafSplittingPlan, spec: IncorporateSpec, n: nat) {
    && plan.splitIdx <= n
    && if plan.insertionGoesLeft then SpecFits(spec, plan.splitIdx) else plan.splitIdx <= spec.idx
  }

  /** `e[i]` sits at i + shift once the update has been applied. */
  ghost predicate Aligned(e: seq<Tuple>, s: seq<Tuple>, lo: nat, hi: nat, shift: nat) {
    hi <= |e| && hi + shift <= |s| && forall i | lo <= i < hi :: e[i] == s[i + shift]
  }

  lemma CapacityOf(p: Image, i: nat)
    requires WellFormed(p) && i < NumEntries(p)
    ensures EntryOk(p, i) && EntrySize(p, Offset(p, i)) == RequiredCapacity(Entries(p)[i])
  {
    TupleIs(p, i);
  }

  /** `plan_move_more_entries_to_left`. */
  method PlanMoveMoreEntriesToLeft(page: Page, maxEntries: nat, totalBytes: nat, leftBytes: nat, splitIdx: nat,
      ghost s: seq<Tuple>, ghost shift: nat)
    returns (newLeftBytes: nat, newSplitIdx: nat)
    requires page.Valid() && splitIdx <= maxEntries
    requires Aligned(Entries(page.data[..]), s, splitIdx, maxEntries, shift)
    requires totalBytes == Weight(s) && leftBytes == Weight(s[..splitIdx + shift])
    ensures splitIdx <= newSplitIdx <= maxEntries && newLeftBytes == Weight(s[..newSplitIdx + shift])
    ensures forall i: nat | splitIdx + shift <= i < newSplitIdx + shift :: GoesLeft(s, i)
    ensures newSplitIdx < maxEntries ==> !GoesLeft(s, newSplitIdx + shift)
  {
    hide WellFormed, U16, Entries, Bytes, EntryAt;
    ghost var p := page.data[..];
    ghost var e := Entries(p);
    EntriesLength(p);
    newLeftBytes, newSplitIdx := leftBytes, splitIdx;
    while newSplitIdx < maxEntries
      invariant splitIdx <= newSplitIdx <= maxEntries && newLeftBytes == Weight(s[..newSplitIdx + shift])
      invariant forall i: nat | splitIdx + shift <= i < newSplitIdx + shift :: GoesLeft(s, i)
    {
      PageBounds(p);
      CapacityOf(p, newSplitIdx);
      assert e[newSplitIdx] == s[newSplitIdx + shift];
      var entrySize := page.SizeOfLeafEntry(newSplitIdx);
      if !MostOfEntryIsOnLeftSide(totalBytes, newLeftBytes, entrySize) {
        return;
      }
      WeightNext(s, newSplitIdx + shift);
      newLeftBytes := newLeftBytes + TABLE_ENTRY_SIZE + entrySize;
      newSplitIdx := newSplitIdx + 1;
    }
  }

  /** The bytes a loop over the entries counts up to i, leaving out the one to be replaced. */
  method CountLiveBytes(page: Page, spec: IncorporateSpec) returns (liveBytes: nat)
    requires page.Valid() && SpecFits(spec, NumEntries(page.data[..]))
    ensures liveBytes == Bytes(Others(Entries(page.data[..]), spec))
  {
    hide WellFormed, U16, Entries, EntryAt, Bytes, Kept;
    ghost var p := page.data[..];
    ghost var e := Entries(p);
    EntriesLength(p);
    PageBounds(p);
    var n := page.GetU16(NUM_ENTRIES_POS);
    liveBytes := 0;
    KeptStart(e, spec);
    for i := 0 to n
      invariant page.data[..] == p && liveBytes == Bytes(Kept(e, spec, i))
    {
      KeptStep(e, spec, i);
      if i != spec.idx || spec.oldEntry != StillExists {
        CapacityOf(p, i);
        var entrySize := page.SizeOfLeafEntry(i);
        liveBytes := liveBytes + entrySize;
      }
    }
    KeptAll(e, spec);
  }

  lemma KeptStart(e: seq<Tuple>, spec: IncorporateSpec)
    ensures Bytes(Kept(e, spec, 0)) == 0
  {
  }

  lemma KeptStep(e: seq<Tuple>, spec: IncorporateSpec, i: nat)
    requires i < |e|
    ensures Bytes(Kept(e, spec, i + 1))
         == Bytes(Kept(e, spec, i)) + if spec.oldEntry == StillExists && spec.idx == i then 0
           else RequiredCapacity(e[i])
  {
    BytesConcat(Kept(e, spec, i), if spec.oldEntry == StillExists && spec.idx == i then [] else [e[i]]);
    assert Bytes([e[i]]) == RequiredCapacity(e[i]) by { assert [e[i]][..0] == []; }
  }

  lemma IncorporatedWeight(e: seq<Tuple>, spec: IncorporateSpec)
    requires SpecFits(spec, |e|)
    ensures |Incorporated(e, spec)| == |Others(e, spec)| + 1
    ensures Bytes(Incorporated(e, spec)) == Bytes(Others(e, spec)) + RequiredCapacity(spec.tuple)
  {
    var after := if spec.oldEntry == StillExists then e[spec.idx + 1..] else e[spec.idx..];
    var before := e[..spec.idx];
    assert Incorporated(e, spec) == before + [spec.tuple] + after;
    assert Others(e, spec) == before + after;
    BytesConcat(before, after);
    BytesConcat(before + [spec.tuple], after);
    BytesConcat(before, [spec.tuple]);
    assert [spec.tuple][..0] == [];
  }

  /** `btree_build_leaf_splitting_plan`. */
  method BuildLeafSplittingPlan(page: Page, spec: IncorporateSpec) returns (plan: LeafSplittingPlan)
    requires page.Valid() && SpecFits(spec, NumEntries(page.data[..])) && spec.oldEntry != HasBeenRemoved
    ensures PlanFits(plan, spec, NumEntries(page.data[..]))
    ensures BalancedCut(Incorporated(Entries(page.data[..]), spec), LeftCount(plan, spec))
  {
    hide WellFormed, U16, Entries, EntryAt, Bytes, GoesLeft;
    ghost var p := page.data[..];
    ghost var e := Entries(p);
    EntriesLength(p);
    PageBounds(p);
    ghost var s := Incorporated(e, spec);
    var n := page.GetU16(NUM_ENTRIES_POS);
    var entrySize := RequiredCapacity(spec.tuple);
    var liveBytes := CountLiveBytes(page, spec);
    IncorporatedWeight(e, spec);
    var newN := n + if spec.oldEntry == StillExists then 0 else 1;
    var totalBytes := entrySize + liveBytes + newN * TABLE_ENTRY_SIZE;
    assert |s| == newN && totalBytes == Weight(s);
    EmptyWeight(s);
    var leftBytes, splitIdx := PlanMoveMoreEntriesToLeft(page, spec.idx, totalBytes, 0, 0, s, 0);
    assert s[spec.idx] == spec.tuple;
    if splitIdx != spec.idx || !MostOfEntryIsOnLeftSide(totalBytes, leftBytes, entrySize) {
      StopHere(s, splitIdx, spec, leftBytes);
      return LeafSplittingPlan(splitIdx, false);
    }
    StartOn(s, spec, leftBytes);
    leftBytes := leftBytes + TABLE_ENTRY_SIZE + entrySize;
    ghost var shift := if spec.oldEntry == StillExists then 0 else 1;
    if spec.oldEntry == StillExists {
      splitIdx := splitIdx + 1;
    }
    leftBytes, splitIdx := PlanMoveMoreEntriesToLeft(page, n, totalBytes, leftBytes, splitIdx, s, shift);
    LastStaysRight(s);
    return LeafSplittingPlan(splitIdx, true);
  }

  lemma EmptyWeight(s: seq<Tuple>)
    ensures Weight(s[..0]) == 0
  {
  }

  lemma StopHere(s: seq<Tuple>, splitIdx: nat, spec: IncorporateSpec, leftBytes: nat)
    requires splitIdx <= spec.idx < |s| && s[spec.idx] == spec.tuple && leftBytes == Weight(s[..splitIdx])
    requires splitIdx < spec.idx ==> !GoesLeft(s, splitIdx)
    requires splitIdx != spec.idx || !MostOfEntryIsOnLeftSide(Weight(s), leftBytes, RequiredCapacity(spec.tuple))
    ensures !GoesLeft(s, splitIdx)
  {
  }

  lemma StartOn(s: seq<Tuple>, spec: IncorporateSpec, leftBytes: nat)
    requires spec.idx < |s| && s[spec.idx] == spec.tuple && leftBytes == Weight(s[..spec.idx])
    requires MostOfEntryIsOnLeftSide(Weight(s), leftBytes, RequiredCapacity(spec.tuple))
    ensures GoesLeft(s, spec.idx) && Weight(s[..spec.idx + 1]) == leftBytes + Cost(spec.tuple)
  {
    WeightNext(s, spec.idx);
  }
}
