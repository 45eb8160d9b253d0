/**
  The bytes of a B-tree page (btree_private.h, data_internal.h): a packed
  header, the offset table growing up, and the entries growing down from the end.
 */
module PageLayout {
  import opened Spans

  type byte = x: int | 0 <= x < 256
  type Image = seq<byte>

  const HDR_SIZE := 37
  const LEAF_ENTRY_SIZE := 6
  const INDEX_ENTRY_SIZE := 23
  const TABLE_ENTRY_SIZE := 2
  const PREV_ADDR_POS := 0
  const NEXT_ADDR_POS := 8
  const GENERATION_POS := 24
  const NEXT_ENTRY_POS := 33
  const NUM_ENTRIES_POS := 35

  function U16(p: Image, pos: nat): (v: nat)
    requires pos + 2 <= |p|
    ensures v < 0x1_0000
  {
    (p[pos] as int) + 256 * (p[pos + 1] as int)
  }

  /** Page sizes a 16-bit node_offset can express; rc_allocator.c asks for multiples of 4096. */
  predicate PageSizeOk(n: nat) {
    4096 <= n < 0x1_0000
  }

  function NumEntries(p: Image): nat
    requires HDR_SIZE <= |p|
  {
    U16(p, NUM_ENTRIES_POS)
  }

  function NextEntry(p: Image): nat
    requires HDR_SIZE <= |p|
  {
    U16(p, NEXT_ENTRY_POS)
  }

  /** Where the offset table ends when it has n entries. */
  function TableEnd(n: nat): nat {
    HDR_SIZE + TABLE_ENTRY_SIZE * n
  }

  function Offset(p: Image, k: nat): nat
    requires TableEnd(k + 1) <= |p|
  {
    U16(p, TableEnd(k))
  }

  /** A tuple as leaf_entry stores it. */
  datatype Tuple = Tuple(key: Image, cls: nat, msg: Image)

  function RequiredCapacity(t: Tuple): nat {
    LEAF_ENTRY_SIZE + |t.key| + |t.msg|
  }

  /** `sizeof_leaf_entry` of the entry at offset o. */
  function EntrySize(p: Image, o: nat): nat
    requires o + LEAF_ENTRY_SIZE <= |p|
  {
    LEAF_ENTRY_SIZE + U16(p, o) + U16(p, o + 3)
  }

  predicate EntryInside(p: Image, o: nat) {
    o + LEAF_ENTRY_SIZE <= |p| && o + EntrySize(p, o) <= |p|
  }

  function EntryAt(p: Image, o: nat): Tuple
    requires EntryInside(p, o)
  {
    var keyEnd := o + LEAF_ENTRY_SIZE + U16(p, o);
    Tuple(p[o + LEAF_ENTRY_SIZE..keyEnd], p[o + 5] % 4, p[keyEnd..o + EntrySize(p, o)])
  }

  /** Entry k lies in the page, at or after next_entry. */
  ghost predicate EntryOk(p: Image, k: nat)
    requires HDR_SIZE <= |p| && TableEnd(k + 1) <= |p|
  {
    NextEntry(p) <= Offset(p, k) && EntryInside(p, Offset(p, k))
  }

  function EntryEnd(p: Image, k: nat): nat
    requires TableEnd(k + 1) <= |p| && EntryInside(p, Offset(p, k))
  {
    Offset(p, k) + EntrySize(p, Offset(p, k))
  }

  ghost predicate Apart(p: Image, i: nat, j: nat)
    requires TableEnd(i + 1) <= |p| && TableEnd(j + 1) <= |p|
  {
    && EntryInside(p, Offset(p, i)) && EntryInside(p, Offset(p, j))
    && (EntryEnd(p, i) <= Offset(p, j) || EntryEnd(p, j) <= Offset(p, i))
  }

  /** The slotted-page invariant of a leaf. */
  ghost predicate WellFormed(p: Image) {
    && PageSizeOk(|p|)
    && TableEnd(NumEntries(p)) <= NextEntry(p) <= |p|
    && (forall k: nat | k < NumEntries(p) :: EntryOk(p, k))
    && (forall i: nat, j: nat | i < j < NumEntries(p) :: Apart(p, i, j))
  }

  lemma EntryIsOk(p: Image, k: nat)
    requires WellFormed(p) && k < NumEntries(p)
    ensures TableEnd(k + 1) <= |p| && EntryOk(p, k)
  {
  }

  lemma EntriesApart(p: Image, i: nat, j: nat)
    requires WellFormed(p) && i < j < NumEntries(p)
    ensures TableEnd(j + 1) <= |p| && Apart(p, i, j)
  {
  }

  /** The tuples of a leaf in table order. */
  ghost function Entries(p: Image): (s: seq<Tuple>)
    requires WellFormed(p)
    ensures |s| == NumEntries(p)
  {
    seq(NumEntries(p), k requires 0 <= k < NumEntries(p) => TupleAt(p, k))
  }

  ghost function TupleAt(p: Image, k: nat): Tuple
    requires WellFormed(p) && k < NumEntries(p)
  {
    assert EntryOk(p, k);
    EntryAt(p, Offset(p, k))
  }

  /** The bytes [lo, hi) are the same in both images. */
  ghost predicate SameRange(p: Image, q: Image, lo: nat, hi: nat) {
    |p| == |q| && hi <= |p| && forall x | lo <= x < hi :: p[x] == q[x]
  }

  /** Everything of the header but next_entry and num_entries. */
  ghost predicate SameLinks(p: Image, q: Image) {
    SameRange(p, q, 0, NEXT_ENTRY_POS)
  }

  lemma SameEntry(p: Image, q: Image, o: nat)
    requires EntryInside(p, o) && SameRange(p, q, o, o + EntrySize(p, o))
    ensures EntryInside(q, o) && EntrySize(q, o) == EntrySize(p, o) && EntryAt(q, o) == EntryAt(p, o)
  {
    var keyEnd := o + LEAF_ENTRY_SIZE + U16(p, o);
    assert p[o + LEAF_ENTRY_SIZE..keyEnd] == q[o + LEAF_ENTRY_SIZE..keyEnd];
    assert p[keyEnd..o + EntrySize(p, o)] == q[keyEnd..o + EntrySize(p, o)];
  }

  /* ---- Space ---- */

  /** The bytes entry k occupies. */
  ghost function EntrySpan(p: Image, k: nat): Span
    requires WellFormed(p) && k < NumEntries(p)
  {
    assert EntryOk(p, k);
    Span(Offset(p, k), EntryEnd(p, k))
  }

  ghost function EntrySpans(p: Image): (s: seq<Span>)
    requires WellFormed(p)
    ensures |s| == NumEntries(p)
  {
    seq(NumEntries(p), k requires 0 <= k < NumEntries(p) => EntrySpan(p, k))
  }

  /** Entries never overlap, so together they fit behind next_entry. */
  lemma SpansFit(p: Image)
    requires WellFormed(p)
    ensures TotalLength(EntrySpans(p)) <= |p| - NextEntry(p)
  {
    hide U16;
    var s := EntrySpans(p);
    forall i, j | 0 <= i < j < |s| ensures s[i].hi <= s[j].lo || s[j].hi <= s[i].lo {
      EntriesApart(p, i, j);
      assert s[i] == EntrySpan(p, i) && s[j] == EntrySpan(p, j);
    }
    forall i | 0 <= i < |s| ensures NextEntry(p) <= s[i].lo <= s[i].hi <= |p| {
      EntryIsOk(p, i);
    }
    DisjointSpansFit(s, NextEntry(p), |p|);
  }

  /** Bytes of a run of tuples, without the table. */
  function Bytes(s: seq<Tuple>): nat {
    if s == [] then 0 else Bytes(s[..|s| - 1]) + RequiredCapacity(s[|s| - 1])
  }

  lemma {:induction false} BytesConcat(s: seq<Tuple>, t: seq<Tuple>)
    ensures Bytes(s + t) == Bytes(s) + Bytes(t)
  {
    if t == [] {
      assert s + t == s;
    } else {
      var n := |t| - 1;
      BytesConcat(s, t[..n]);
      assert (s + t)[..|s + t| - 1] == s + t[..n];
    }
  }

  lemma {:induction false} SpansAreBytes(p: Image, n: nat)
    requires WellFormed(p) && n <= NumEntries(p)
    ensures TotalLength(EntrySpans(p)[..n]) == Bytes(Entries(p)[..n])
  {
    hide WellFormed, U16, NextEntry;
    if n > 0 {
      SpansAreBytes(p, n - 1);
      EntryIsOk(p, n - 1);
      assert Entries(p)[..n][..n - 1] == Entries(p)[..n - 1];
      assert EntrySpans(p)[..n][..n - 1] == EntrySpans(p)[..n - 1];
      assert Entries(p)[n - 1] == TupleAt(p, n - 1) && EntrySpans(p)[n - 1] == EntrySpan(p, n - 1);
    }
  }

  /** What a page holds fits in it, table included. */
  lemma EntriesFit(p: Image)
    requires WellFormed(p)
    ensures TableEnd(NumEntries(p)) + Bytes(Entries(p)) <= NextEntry(p) + Bytes(Entries(p)) <= |p|
  {
    SpansFit(p);
    SpansAreBytes(p, NumEntries(p));
    assert Entries(p)[..NumEntries(p)] == Entries(p);
    assert EntrySpans(p)[..NumEntries(p)] == EntrySpans(p);
  }
}
