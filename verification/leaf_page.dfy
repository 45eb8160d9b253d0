/**
  A leaf page as btree.c keeps it: one buffer that holds the header, the offset
  table and the entries, all updated in place.
 */
module LeafPage {
  import opened PageLayout

  ghost predicate SameOutside(p: Image, q: Image, lo: nat, hi: nat) {
    |p| == |q| && forall x | 0 <= x < |p| && !(lo <= x < hi) :: p[x] == q[x]
  }

  const TWO_16 := 0x1_0000
  const TWO_64 := 0x1_0000_0000_0000_0000

  function Combined(g0: nat, g1: nat, g2: nat, g3: nat): nat {
    g0 + TWO_16 * (g1 + TWO_16 * (g2 + TWO_16 * g3))
  }

  /** The i-th 16-bit word of g, lowest first. */
  function Word(g: nat, i: nat): (w: nat)
    ensures w < TWO_16
  {
    if i == 0 then g % TWO_16 else Word(g / TWO_16, i - 1)
  }

  lemma WordsCombine(g: nat)
    requires g < TWO_64
    ensures Combined(Word(g, 0), Word(g, 1), Word(g, 2), Word(g, 3)) == g
  {
    var h1 := g / TWO_16;
    var h2 := h1 / TWO_16;
    var h3 := h2 / TWO_16;
    assert Word(g, 1) == Word(h1, 0);
    assert Word(g, 2) == Word(h1, 1) == Word(h2, 0);
    assert Word(g, 3) == Word(h1, 2) == Word(h2, 1) == Word(h3, 0) == h3;
  }

  function U64(p: Image, pos: nat): nat
    requires pos + 8 <= |p|
  {
    Combined(U16(p, pos), U16(p, pos + 2), U16(p, pos + 4), U16(p, pos + 6))
  }

  function Generation(p: Image): nat
    requires HDR_SIZE <= |p|
  {
    U64(p, GENERATION_POS)
  }

  /** Addresses of the neighbouring leaves. */
  function PrevAddr(p: Image): nat
    requires HDR_SIZE <= |p|
  {
    U64(p, PREV_ADDR_POS)
  }

  function NextAddr(p: Image): nat
    requires HDR_SIZE <= |p|
  {
    U64(p, NEXT_ADDR_POS)
  }

  /* ---- Images before and after each update ---- */

  /** q is p after a tuple has been written over entry k, in place. */
  ghost predicate FilledAt(p: Image, q: Image, o: nat, t: Tuple) {
    && SameOutside(p, q, o, o + RequiredCapacity(t))
    && EntryInside(q, o) && EntrySize(q, o) == RequiredCapacity(t) && EntryAt(q, o) == t
  }

  lemma SameTable(p: Image, q: Image, n: nat)
    requires HDR_SIZE <= |p| && TableEnd(n) <= |p| && SameRange(p, q, NEXT_ENTRY_POS, TableEnd(n))
    ensures NumEntries(q) == NumEntries(p) && NextEntry(q) == NextEntry(p)
    ensures forall k: nat | k < n :: Offset(q, k) == Offset(p, k)
  {
  }

  ghost predicate RewrittenAt(p: Image, q: Image, k: nat, t: Tuple) {
    && WellFormed(p) && k < NumEntries(p) && EntryOk(p, k)
    && RequiredCapacity(t) <= EntrySize(p, Offset(p, k)) && FilledAt(p, q, Offset(p, k), t)
  }

  lemma RewrittenEntry(p: Image, q: Image, k: nat, t: Tuple, i: nat)
    requires RewrittenAt(p, q, k, t) && i < NumEntries(p)
    ensures NumEntries(q) == NumEntries(p) && NextEntry(q) == NextEntry(p)
    ensures EntryOk(p, i) && EntryOk(q, i) && Offset(q, i) == Offset(p, i) && EntryEnd(q, i) <= EntryEnd(p, i)
    ensures EntryAt(q, Offset(q, i)) == if i == k then t else TupleAt(p, i)
  {
    EntryIsOk(p, i);
    SameTable(p, q, NumEntries(p));
    if i < k {
      EntriesApart(p, i, k);
    } else if k < i {
      EntriesApart(p, k, i);
    }
    if i != k {
      SameEntry(p, q, Offset(p, i));
    }
  }

  lemma Rewritten(p: Image, q: Image, k: nat, t: Tuple)
    requires RewrittenAt(p, q, k, t)
    ensures WellFormed(q) && NumEntries(q) == NumEntries(p) && NextEntry(q) == NextEntry(p)
    ensures Entries(q) == Entries(p)[k := t]
  {
    SameTable(p, q, NumEntries(p));
    forall i: nat | i < NumEntries(q) ensures EntryOk(q, i) {
      RewrittenEntry(p, q, k, t, i);
    }
    forall i: nat, j: nat | i < j < NumEntries(q) ensures Apart(q, i, j) {
      EntriesApart(p, i, j);
      RewrittenEntry(p, q, k, t, i);
      RewrittenEntry(p, q, k, t, j);
    }
    forall i: nat | i < NumEntries(q) ensures TupleAt(q, i) == Entries(p)[k := t][i] {
      RewrittenEntry(p, q, k, t, i);
    }
  }

  /** q is p after a tuple has been placed just below next_entry and table slot k points to it. */
  ghost predicate PlacedAt(p: Image, q: Image, k: nat, t: Tuple) {
    && HDR_SIZE <= |p| == |q| && k <= NumEntries(p)
    && var n := if k < NumEntries(p) then NumEntries(p) else k + 1;
       && TableEnd(n) + RequiredCapacity(t) <= NextEntry(p) <= |p|
       && var o := NextEntry(p) - RequiredCapacity(t);
          && NumEntries(q) == n && NextEntry(q) == o && Offset(q, k) == o
          && EntryInside(q, o) && EntrySize(q, o) == RequiredCapacity(t) && EntryAt(q, o) == t
          && SameRange(p, q, 0, NEXT_ENTRY_POS)
          && SameRange(p, q, HDR_SIZE, TableEnd(k)) && SameRange(p, q, TableEnd(k + 1), o)
          && SameRange(p, q, NextEntry(p), |p|)
  }

  lemma SameOffset(p: Image, q: Image, k: nat, t: Tuple, i: nat)
    requires PlacedAt(p, q, k, t) && i < NumEntries(p) && i != k && TableEnd(NumEntries(p)) <= NextEntry(p)
    ensures TableEnd(i + 1) <= |p| && Offset(q, i) == Offset(p, i)
  {
    if i < k {
      assert TableEnd(i + 1) <= TableEnd(k);
    } else {
      assert TableEnd(k + 1) <= TableEnd(i) && TableEnd(i + 1) <= TableEnd(NumEntries(p));
    }
  }

  lemma PlacedEntry(p: Image, q: Image, k: nat, t: Tuple, i: nat)
    requires WellFormed(p) && PlacedAt(p, q, k, t) && i < NumEntries(q)
    ensures TableEnd(i + 1) <= |q| && EntryOk(q, i)
    ensures i == k ==> EntryEnd(q, i) == NextEntry(p)
    ensures i != k ==>
      && i < NumEntries(p) && EntryOk(p, i)
      && NextEntry(p) <= Offset(q, i) == Offset(p, i) && EntryEnd(q, i) == EntryEnd(p, i)
    ensures EntryAt(q, Offset(q, i)) == if i == k then t else TupleAt(p, i)
  {
    if i != k {
      EntryIsOk(p, i);
      SameOffset(p, q, k, t, i);
      SameEntry(p, q, Offset(p, i));
    }
  }

  lemma Placed(p: Image, q: Image, k: nat, t: Tuple)
    requires WellFormed(p) && PlacedAt(p, q, k, t)
    ensures WellFormed(q)
    ensures Entries(q) == if k < NumEntries(p) then Entries(p)[k := t] else Entries(p) + [t]
  {
    forall i: nat | i < NumEntries(q) ensures EntryOk(q, i) {
      PlacedEntry(p, q, k, t, i);
    }
    forall i: nat, j: nat | i < j < NumEntries(q) ensures Apart(q, i, j) {
      PlacedEntry(p, q, k, t, i);
      PlacedEntry(p, q, k, t, j);
      if i != k && j != k {
        EntriesApart(p, i, j);
      }
    }
    forall i: nat | i < NumEntries(q)
      ensures TupleAt(q, i) == (if k < NumEntries(p) then Entries(p)[k := t] else Entries(p) + [t])[i]
    {
      PlacedEntry(p, q, k, t, i);
    }
  }

  /** q is p after the last table slot has been moved to k. */
  ghost predicate ShiftedAt(p: Image, q: Image, k: nat) {
    && WellFormed(p) && k < NumEntries(p)
    && SameRange(p, q, 0, HDR_SIZE) && SameRange(p, q, TableEnd(NumEntries(p)), |p|)
    && (forall i: nat | i < NumEntries(p) :: Offset(q, i) == Offset(p, ShiftSource(k, NumEntries(p), i)))
  }

  function ShiftSource(k: nat, n: nat, i: nat): (j: nat)
    requires k < n && i < n
    ensures j < n
  {
    if i < k then i else if i == k then n - 1 else i - 1
  }

  lemma ShiftedEntry(p: Image, q: Image, k: nat, i: nat)
    requires ShiftedAt(p, q, k) && i < NumEntries(p)
    ensures NumEntries(q) == NumEntries(p) && NextEntry(q) == NextEntry(p)
    ensures var j := ShiftSource(k, NumEntries(p), i);
      && EntryOk(p, j) && EntryOk(q, i) && Offset(q, i) == Offset(p, j) && EntryEnd(q, i) == EntryEnd(p, j)
      && EntryAt(q, Offset(q, i)) == TupleAt(p, j)
  {
    var j := ShiftSource(k, NumEntries(p), i);
    EntryIsOk(p, j);
    SameEntry(p, q, Offset(p, j));
  }

  lemma ShiftedApart(p: Image, q: Image, k: nat, i: nat, j: nat)
    requires ShiftedAt(p, q, k) && i < j < NumEntries(p)
    ensures Apart(q, i, j)
  {
    hide WellFormed, U16;
    var n := NumEntries(p);
    var i', j' := ShiftSource(k, n, i), ShiftSource(k, n, j);
    ShiftedEntry(p, q, k, i);
    ShiftedEntry(p, q, k, j);
    if i' < j' {
      EntriesApart(p, i', j');
    } else {
      EntriesApart(p, j', i');
    }
  }

  lemma Shifted(p: Image, q: Image, k: nat)
    requires ShiftedAt(p, q, k)
    ensures WellFormed(q) && NumEntries(q) == NumEntries(p) && NextEntry(q) == NextEntry(p)
    ensures var e, n := Entries(p), NumEntries(p) - 1; Entries(q) == e[..k] + [e[n]] + e[k..n]
  {
    hide WellFormed, ShiftedAt, EntryOk, Apart;
    ShiftedWellFormed(p, q, k);
    var n, e := NumEntries(p), Entries(p);
    forall i: nat | i < n ensures Entries(q)[i] == (e[..k] + [e[n - 1]] + e[k..n - 1])[i] {
      ShiftedEntry(p, q, k, i);
      assert Entries(q)[i] == TupleAt(q, i) == e[ShiftSource(k, n, i)];
    }
  }

  lemma ShiftedWellFormed(p: Image, q: Image, k: nat)
    requires ShiftedAt(p, q, k)
    ensures HDR_SIZE <= |p| && WellFormed(p) && k < NumEntries(p)
    ensures WellFormed(q) && NumEntries(q) == NumEntries(p) && NextEntry(q) == NextEntry(p)
  {
    hide EntryOk, Apart;
    ShiftedEntry(p, q, k, k);
    var n := NumEntries(p);
    forall i: nat | i < n ensures EntryOk(q, i) {
      ShiftedEntry(p, q, k, i);
    }
    forall i: nat, j: nat | i < j < n ensures Apart(q, i, j) {
      ShiftedApart(p, q, k, i, j);
    }
  }

  /** q is p after the entries from target on have been dropped. */
  lemma Truncated(p: Image, q: Image, target: nat)
    requires WellFormed(p) && target <= NumEntries(p) && SameOutside(p, q, NEXT_ENTRY_POS, HDR_SIZE)
    requires NumEntries(q) == target && NextEntry(p) <= NextEntry(q) <= |p|
    requires forall i: nat | i < target :: NextEntry(q) <= Offset(p, i)
    ensures WellFormed(q) && Entries(q) == Entries(p)[..target]
  {
    forall i: nat | i < target
      ensures EntryOk(q, i) && EntryEnd(q, i) == EntryEnd(p, i) && Offset(q, i) == Offset(p, i)
      ensures EntryAt(q, Offset(q, i)) == TupleAt(p, i)
    {
      EntryIsOk(p, i);
      SameEntry(p, q, Offset(p, i));
    }
    forall i: nat, j: nat | i < j < target ensures Apart(q, i, j) {
      assert Apart(p, i, j);
    }
    forall i: nat | i < target ensures Entries(q)[i] == Entries(p)[..target][i] {
      assert Entries(q)[i] == TupleAt(q, i);
    }
  }

  /* ---- Incorporating a tuple ---- */

  datatype OldEntry = DidNotExist | StillExists | HasBeenRemoved

  /** `leaf_incorporate_spec`: the tuple to store, where, and what becomes of the old entry. */
  datatype IncorporateSpec = IncorporateSpec(idx: nat, oldEntry: OldEntry, tuple: Tuple)

  predicate SpecFits(spec: IncorporateSpec, n: nat) {
    if spec.oldEntry == StillExists then spec.idx < n else spec.idx <= n
  }

  /** The tuples of a leaf once the spec has been performed. */
  function Incorporated(s: seq<Tuple>, spec: IncorporateSpec): seq<Tuple>
    requires SpecFits(spec, |s|)
  {
    if spec.oldEntry == StillExists then s[spec.idx := spec.tuple]
    else s[..spec.idx] + [spec.tuple] + s[spec.idx..]
  }

  /** The tuples that stay when the old entry, if any, goes. */
  function Others(s: seq<Tuple>, spec: IncorporateSpec): seq<Tuple>
    requires SpecFits(spec, |s|)
  {
    if spec.oldEntry == StillExists then s[..spec.idx] + s[spec.idx + 1..] else s
  }

  function SpecAfterRemoval(spec: IncorporateSpec): IncorporateSpec {
    if spec.oldEntry == StillExists then spec.(oldEntry := HasBeenRemoved) else spec
  }

  /** `btree_can_set_leaf_entry`. */
  predicate CanSet(p: Image, k: nat, t: Tuple)
    requires HDR_SIZE <= |p|
    requires k < NumEntries(p) ==> TableEnd(k + 1) <= |p| && Offset(p, k) + LEAF_ENTRY_SIZE <= |p|
  {
    && k <= NumEntries(p)
    && ((k < NumEntries(p) && RequiredCapacity(t) <= EntrySize(p, Offset(p, k)))
        || TableEnd(if k < NumEntries(p) then NumEntries(p) else k + 1) + RequiredCapacity(t) <= NextEntry(p))
  }

  /** `btree_can_perform_leaf_incorporate_spec`. */
  predicate CanPerform(p: Image, spec: IncorporateSpec)
    requires HDR_SIZE <= |p|
    requires spec.oldEntry == StillExists && spec.idx < NumEntries(p) ==>
      TableEnd(spec.idx + 1) <= |p| && Offset(p, spec.idx) + LEAF_ENTRY_SIZE <= |p|
  {
    CanSet(p, if spec.oldEntry == StillExists then spec.idx else NumEntries(p), spec.tuple)
  }

  /** No dead space: the entries fill the page from its end. */
  ghost predicate Compact(p: Image) {
    WellFormed(p) && NextEntry(p) + Bytes(Entries(p)) == |p|
  }

  class Page {
    const data: array<byte>

    constructor (pageSize: nat)
      requires PageSizeOk(pageSize)
      ensures data.Length == pageSize && fresh(data)
    {
      data := new byte[pageSize](_ => 0);
    }

    /** A page that is brought in to be changed. */
    constructor Load(image: Image)
      ensures data[..] == image && fresh(data)
    {
      data := new byte[|image|](i requires 0 <= i < |image| => image[i]);
    }

    ghost predicate Valid()
      reads data
    {
      WellFormed(data[..])
    }

    method PutU16(pos: nat, v: nat)
      requires v < 0x1_0000 && pos + 2 <= data.Length
      modifies data
      ensures U16(data[..], pos) == v && SameOutside(old(data[..]), data[..], pos, pos + 2)
    {
      data[pos], data[pos + 1] := v % 256, v / 256;
    }

    method PutBytes(pos: nat, s: Image)
      requires pos + |s| <= data.Length
      modifies data
      ensures data[pos..pos + |s|] == s && SameOutside(old(data[..]), data[..], pos, pos + |s|)
    {
      for i := 0 to |s|
        invariant forall x | 0 <= x < i :: data[pos + x] == s[x]
        invariant forall x | 0 <= x < data.Length && !(pos <= x < pos + i) :: data[x] == old(data[x])
      {
        data[pos + i] := s[i];
      }
    }

    method GetU16(pos: nat) returns (v: nat)
      requires pos + 2 <= data.Length
      ensures v == U16(data[..], pos)
    {
      v := (data[pos] as int) + 256 * (data[pos + 1] as int);
    }

    /** `sizeof_leaf_entry` of table entry k. */
    method SizeOfLeafEntry(k: nat) returns (size: nat)
      requires TableEnd(k + 1) <= data.Length && Offset(data[..], k) + LEAF_ENTRY_SIZE <= data.Length
      ensures size == EntrySize(data[..], Offset(data[..], k))
    {
      var o := GetU16(TableEnd(k));
      var keyLength := GetU16(o);
      var msgLength := GetU16(o + 3);
      size := LEAF_ENTRY_SIZE + keyLength + msgLength;
    }

    /** `btree_fill_leaf_entry`. */
    method FillLeafEntry(o: nat, t: Tuple)
      requires o + RequiredCapacity(t) <= data.Length < 0x1_0000 && t.cls < 4
      modifies data
      ensures FilledAt(old(data[..]), data[..], o, t)
    {
      hide U16, EntryAt, EntrySize;
      var keyPos, msgPos := o + LEAF_ENTRY_SIZE, o + LEAF_ENTRY_SIZE + |t.key|;
      PutU16(o, |t.key|);
      ghost var p1 := data[..];
      data[o + 5] := 0;
      PutBytes(keyPos, t.key);
      ghost var p2 := data[..];
      assert p2[keyPos..msgPos] == t.key;
      PutU16(o + 3, |t.msg|);
      ghost var p3 := data[..];
      data[o + 5] := t.cls;
      PutBytes(msgPos, t.msg);
      SameU16(p1, data[..], o);
      SameU16(p3, data[..], o + 3);
      assert data[keyPos..msgPos] == p2[keyPos..msgPos];
      FilledParts(data[..], o, t);
    }

    /** `btree_set_leaf_entry`: succeeds exactly when `btree_can_set_leaf_entry` says so. */
    method SetLeafEntry(k: nat, t: Tuple) returns (success: bool)
      requires Valid() && k <= NumEntries(data[..]) && t.cls < 4
      requires k < NumEntries(data[..]) ==> EntryOk(data[..], k)
      modifies data
      ensures Valid() && success == old(CanSet(data[..], k, t)) && SameLinks(old(data[..]), data[..])
      ensures !success ==> data[..] == old(data[..])
      ensures success ==>
        Entries(data[..]) == if k < old(NumEntries(data[..])) then old(Entries(data[..]))[k := t]
                             else old(Entries(data[..])) + [t]
      ensures success && k == old(NumEntries(data[..])) ==>
        NextEntry(data[..]) == old(NextEntry(data[..])) - RequiredCapacity(t)
    {
      hide WellFormed, U16, Entries, EntryAt;
      ghost var p := data[..];
      PageBounds(p);
      var n := GetU16(NUM_ENTRIES_POS);
      if k < n {
        var o := GetU16(TableEnd(k));
        var oldSize := SizeOfLeafEntry(k);
        if RequiredCapacity(t) <= oldSize {
          EntryIsOk(p, k);
          FillLeafEntry(o, t);
          Rewritten(p, data[..], k, t);
          return true;
        }
      }
      var newN := if k < n then n else k + 1;
      var next := GetU16(NEXT_ENTRY_POS);
      if next < TableEnd(newN) + RequiredCapacity(t) {
        return false;
      }
      var o := next - RequiredCapacity(t);
      PlaceLeafEntry(k, newN, o, t);
      Placed(p, data[..], k, t);
      return true;
    }

    /** The last assignments of `btree_set_leaf_entry`. */
    method PlaceLeafEntry(k: nat, newN: nat, o: nat, t: Tuple)
      requires PageSizeOk(data.Length) && t.cls < 4 && k <= NumEntries(data[..])
      requires newN == if k < NumEntries(data[..]) then NumEntries(data[..]) else k + 1
      requires TableEnd(newN) <= o && o + RequiredCapacity(t) == NextEntry(data[..]) <= data.Length
      modifies data
      ensures PlacedAt(old(data[..]), data[..], k, t)
    {
      hide U16, EntryAt, EntrySize;
      ghost var p := data[..];
      FillLeafEntry(o, t);
      ghost var filled := data[..];
      PutU16(TableEnd(k), o);
      ghost var linked := data[..];
      PutU16(NUM_ENTRIES_POS, newN);
      ghost var counted := data[..];
      PutU16(NEXT_ENTRY_POS, o);
      SameEntry(filled, data[..], o);
      SameU16(counted, data[..], NUM_ENTRIES_POS);
      SameU16(linked, data[..], TableEnd(k));
    }

    /** The memmove of the table in `btree_insert_leaf_entry`: slot n goes to k. */
    method ShiftTable(k: nat, n: nat)
      requires Valid() && NumEntries(data[..]) == n + 1 && k <= n
      modifies data
      ensures ShiftedAt(old(data[..]), data[..], k)
    {
      hide WellFormed, U16, Offset, SameRange, SameOutside, Shifting;
      ghost var p := data[..];
      PageBounds(p);
      var thisOffset := GetU16(TableEnd(n));
      var i := n;
      ShiftingStarts(p, n);
      while i > k
        invariant k <= i <= n && Shifting(p, data[..], i, n)
      {
        ghost var q := data[..];
        var previous := GetU16(TableEnd(i - 1));
        PutU16(TableEnd(i), previous);
        ShiftingStep(p, q, data[..], i, n);
        i := i - 1;
      }
      ghost var q := data[..];
      PutU16(TableEnd(k), thisOffset);
      ShiftingEnds(p, q, data[..], k, n);
    }

    /** `btree_insert_leaf_entry`. */
    method InsertLeafEntry(k: nat, t: Tuple) returns (success: bool)
      requires Valid() && k <= NumEntries(data[..]) && t.cls < 4
      modifies data
      ensures Valid() && success == old(CanSet(data[..], NumEntries(data[..]), t))
      ensures SameLinks(old(data[..]), data[..])
      ensures !success ==> data[..] == old(data[..])
      ensures success ==> Entries(data[..]) == old(Entries(data[..]))[..k] + [t] + old(Entries(data[..]))[k..]
    {
      hide WellFormed, U16, Entries, EntryAt;
      ghost var p := data[..];
      PageBounds(p);
      var n := GetU16(NUM_ENTRIES_POS);
      success := SetLeafEntry(n, t);
      if success {
        ghost var q := data[..];
        ghost var e, e' := Entries(p), Entries(q);
        EntriesLength(p);
        EntriesLength(q);
        ShiftTable(k, n);
        Shifted(q, data[..], k);
        assert e' == e + [t];
        assert e'[..k] == e[..k] && e'[k..n] == e[k..];
      }
    }

    /** `hdr->generation++` on a 64-bit counter. */
    method BumpGeneration() returns (generation: nat)
      requires PageSizeOk(data.Length)
      modifies data
      ensures generation == old(Generation(data[..])) && Generation(data[..]) == (generation + 1) % TWO_64
      ensures SameOutside(old(data[..]), data[..], GENERATION_POS, GENERATION_POS + 8)
    {
      hide U16;
      generation := GetU64(GENERATION_POS);
      PutU64(GENERATION_POS, (generation + 1) % TWO_64);
    }

    method GetU64(pos: nat) returns (g: nat)
      requires pos + 8 <= data.Length
      ensures g == U64(data[..], pos)
    {
      hide U16;
      var g0 := GetU16(pos);
      var g1 := GetU16(pos + 2);
      var g2 := GetU16(pos + 4);
      var g3 := GetU16(pos + 6);
      g := Combined(g0, g1, g2, g3);
    }

    method PutU64(pos: nat, g: nat)
      requires g < TWO_64 && pos + 8 <= data.Length
      modifies data
      ensures U64(data[..], pos) == g
      ensures SameOutside(old(data[..]), data[..], pos, pos + 8)
    {
      hide U16, Word, Combined;
      PutU16(pos, Word(g, 0));
      ghost var p1 := data[..];
      PutU16(pos + 2, Word(g, 1));
      ghost var p2 := data[..];
      PutU16(pos + 4, Word(g, 2));
      ghost var p3 := data[..];
      PutU16(pos + 6, Word(g, 3));
      SameU16(p1, data[..], pos);
      SameU16(p2, data[..], pos + 2);
      SameU16(p3, data[..], pos + 4);
      WordsCombine(g);
    }

    /** `btree_try_perform_leaf_incorporate_spec`. */
    method TryPerform(spec: IncorporateSpec) returns (success: bool, generation: nat)
      requires Valid() && SpecFits(spec, NumEntries(data[..])) && spec.tuple.cls < 4
      modifies data
      ensures Valid() && success == old(MayPerform(data[..], spec))
      ensures !success ==> data[..] == old(data[..])
      ensures success ==> Entries(data[..]) == Incorporated(old(Entries(data[..])), spec)
      ensures success ==> generation == old(Generation(data[..]))
      ensures success ==> Generation(data[..]) == (generation + 1) % TWO_64
      ensures SameRange(old(data[..]), data[..], 0, GENERATION_POS)
    {
      hide WellFormed, U16, Entries, Generation, U64;
      ghost var p := data[..];
      PageBounds(p);
      EntriesLength(p);
      generation := 0;
      if spec.oldEntry == StillExists {
        EntryIsOk(p, spec.idx);
        success := SetLeafEntry(spec.idx, spec.tuple);
      } else {
        success := InsertLeafEntry(spec.idx, spec.tuple);
      }
      if success {
        SameGeneration(p, data[..]);
        ghost var q := data[..];
        generation := BumpGeneration();
        SameBody(q, data[..]);
      }
    }

    /** The memmove of the header when a new right node is built. */
    method CopyHeader(other: Page)
      requires other.data != data && HDR_SIZE <= data.Length == other.data.Length
      modifies data
      ensures SameRange(other.data[..], data[..], 0, HDR_SIZE)
    {
      for i := 0 to HDR_SIZE
        invariant other.data[..] == old(other.data[..])
        invariant forall x | 0 <= x < i :: data[x] == other.data[x]
      {
        data[i] := other.data[i];
      }
    }

    /** `btree_reset_node_entries`. */
    method ResetNodeEntries()
      requires PageSizeOk(data.Length)
      modifies data
      ensures Compact(data[..]) && Entries(data[..]) == [] && NextEntry(data[..]) == data.Length
      ensures SameLinks(old(data[..]), data[..])
    {
      PutU16(NUM_ENTRIES_POS, 0);
      PutU16(NEXT_ENTRY_POS, data.Length);
    }

    /** `btree_truncate_leaf`. */
    method TruncateLeaf(target: nat)
      requires Valid() && target <= NumEntries(data[..])
      modifies data
      ensures Valid() && Entries(data[..]) == old(Entries(data[..]))[..target]
      ensures SameLinks(old(data[..]), data[..])
    {
      hide WellFormed, U16, Entries;
      ghost var p := data[..];
      PageBounds(p);
      var newNextEntry := data.Length;
      for i := 0 to target
        invariant data[..] == p && NextEntry(p) <= newNextEntry <= data.Length
        invariant forall j: nat | j < i :: newNextEntry <= Offset(p, j)
      {
        EntryIsOk(p, i);
        var o := GetU16(TableEnd(i));
        if o < newNextEntry {
          newNextEntry := o;
        }
      }
      PutU16(NUM_ENTRIES_POS, target);
      ghost var q := data[..];
      PutU16(NEXT_ENTRY_POS, newNextEntry);
      SameU16(q, data[..], NUM_ENTRIES_POS);
      Truncated(p, data[..], target);
    }

    /** `btree_defragment_leaf`: rewrite the page without dead space and without the old entry. */
    method DefragmentLeaf(spec: IncorporateSpec) returns (newSpec: IncorporateSpec)
      requires Valid() && SpecFits(spec, NumEntries(data[..]))
      modifies data
      ensures Compact(data[..]) && Entries(data[..]) == Others(old(Entries(data[..])), spec)
      ensures newSpec == SpecAfterRemoval(spec) && SameLinks(old(data[..]), data[..])
    {
      hide WellFormed, U16, Entries, EntryAt;
      var scratch := data[..];
      PageBounds(scratch);
      EntriesLength(scratch);
      ghost var e := Entries(scratch);
      var n := GetU16(NUM_ENTRIES_POS);
      ResetNodeEntries();
      newSpec := spec;
      var dst := 0;
      for i := 0 to n
        invariant Compact(data[..]) && Entries(data[..]) == Kept(e, spec, i)
        invariant dst == NumEntries(data[..]) && SameLinks(scratch, data[..])
        invariant newSpec == if i > spec.idx then SpecAfterRemoval(spec) else spec
      {
        if newSpec.oldEntry == StillExists && newSpec.idx == i {
          newSpec := newSpec.(oldEntry := HasBeenRemoved);
        } else {
          EntryIsOk(scratch, i);
          TupleIs(scratch, i);
          var t := EntryAt(scratch, U16(scratch, TableEnd(i)));
          KeptFits(scratch, data[..], spec, i);
          ghost var before := data[..];
          var success := SetLeafEntry(dst, t);
          CompactAppend(before, data[..], t);
          dst := dst + 1;
        }
      }
      KeptAll(e, spec);
    }
  }

  lemma EntriesLength(p: Image)
    requires WellFormed(p)
    ensures |Entries(p)| == NumEntries(p)
  {
  }

  lemma SlotWritten(p: Image, q: Image, k: nat, n: nat)
    requires k < n && TableEnd(n) <= |p| && SameOutside(p, q, TableEnd(k), TableEnd(k) + 2)
    ensures forall j: nat | j < n && j != k :: Offset(q, j) == Offset(p, j)
    ensures SameRange(p, q, 0, HDR_SIZE) && SameRange(p, q, TableEnd(n), |p|)
  {
    forall j: nat | j < n && j != k ensures Offset(q, j) == Offset(p, j) {
      SameU16(p, q, TableEnd(j));
    }
  }

  /** The table while its slots above i have been moved up by one. */
  ghost predicate Shifting(p: Image, q: Image, i: nat, n: nat) {
    && TableEnd(n + 1) <= |p| == |q| && i <= n
    && SameRange(p, q, 0, HDR_SIZE) && SameRange(p, q, TableEnd(n + 1), |p|)
    && (forall j: nat | j <= n :: Offset(q, j) == Offset(p, if j > i then j - 1 else j))
  }

  lemma ShiftingStarts(p: Image, n: nat)
    requires TableEnd(n + 1) <= |p|
    ensures Shifting(p, p, n, n)
  {
  }

  lemma ShiftingStep(p: Image, q: Image, r: Image, i: nat, n: nat)
    requires 0 < i <= n && Shifting(p, q, i, n) && SameOutside(q, r, TableEnd(i), TableEnd(i) + 2)
    requires U16(r, TableEnd(i)) == U16(q, TableEnd(i - 1))
    ensures Shifting(p, r, i - 1, n)
  {
    hide U16;
    SlotWritten(q, r, i, n + 1);
    forall j: nat | j <= n ensures Offset(r, j) == Offset(p, if j > i - 1 then j - 1 else j) {
      assert Offset(q, j) == Offset(p, if j > i then j - 1 else j);
      assert Offset(q, i - 1) == Offset(p, i - 1);
    }
  }

  lemma ShiftingEnds(p: Image, q: Image, r: Image, k: nat, n: nat)
    requires WellFormed(p) && NumEntries(p) == n + 1
    requires k <= n && Shifting(p, q, k, n) && SameOutside(q, r, TableEnd(k), TableEnd(k) + 2)
    requires U16(r, TableEnd(k)) == U16(p, TableEnd(n))
    ensures ShiftedAt(p, r, k)
  {
    hide U16, WellFormed;
    SlotWritten(q, r, k, n + 1);
    forall j: nat | j <= n ensures Offset(r, j) == Offset(p, ShiftSource(k, n + 1, j)) {
    }
  }

  /** Nothing but the links changed. */
  lemma SameBody(p: Image, q: Image)
    requires WellFormed(p) && SameOutside(p, q, 0, NEXT_ENTRY_POS)
    ensures WellFormed(q) && Entries(q) == Entries(p) && NextEntry(q) == NextEntry(p)
  {
    var n := NumEntries(p);
    SameTable(p, q, n);
    forall i: nat | i < n
      ensures EntryOk(q, i) && EntryEnd(q, i) == EntryEnd(p, i) && EntryAt(q, Offset(q, i)) == TupleAt(p, i)
    {
      EntryIsOk(p, i);
      SameEntry(p, q, Offset(p, i));
    }
    forall i: nat, j: nat | i < j < n ensures Apart(q, i, j) {
      EntriesApart(p, i, j);
    }
    forall i: nat | i < n ensures Entries(q)[i] == Entries(p)[i] {
      assert Entries(q)[i] == TupleAt(q, i);
    }
  }

  lemma SameGeneration(p: Image, q: Image)
    requires HDR_SIZE <= |p| && SameLinks(p, q)
    ensures Generation(q) == Generation(p)
  {
  }

  ghost predicate MayPerform(p: Image, spec: IncorporateSpec)
    requires WellFormed(p) && SpecFits(spec, NumEntries(p))
  {
    assert spec.oldEntry == StillExists ==> EntryOk(p, spec.idx);
    CanPerform(p, spec)
  }

  /** What a defragmentation has copied after i entries. */
  ghost function Kept(s: seq<Tuple>, spec: IncorporateSpec, i: nat): (r: seq<Tuple>)
    requires i <= |s|
    ensures |r| <= i
  {
    if i == 0 then []
    else Kept(s, spec, i - 1) + (if spec.oldEntry == StillExists && spec.idx == i - 1 then [] else [s[i - 1]])
  }

  lemma {:induction false} KeptBytes(s: seq<Tuple>, spec: IncorporateSpec, i: nat)
    requires i <= |s|
    ensures Bytes(Kept(s, spec, i)) <= Bytes(s[..i])
  {
    if i > 0 {
      KeptBytes(s, spec, i - 1);
      hide Bytes;
      BytesAppend(s[..i - 1], s[i - 1]);
      assert s[..i - 1] + [s[i - 1]] == s[..i];
      var k := Kept(s, spec, i - 1);
      BytesAppend(k, s[i - 1]);
      assert k + [] == k;
    }
  }

  lemma BytesAppend(s: seq<Tuple>, t: Tuple)
    ensures Bytes(s + [t]) == Bytes(s) + RequiredCapacity(t)
  {
    assert (s + [t])[..|s|] == s;
  }

  lemma {:induction false} BytesPrefix(s: seq<Tuple>, i: nat)
    requires i < |s|
    ensures Bytes(s[..i]) + RequiredCapacity(s[i]) <= Bytes(s)
  {
    BytesConcat(s[..i + 1], s[i + 1..]);
    assert s[..i + 1] + s[i + 1..] == s;
    assert s[..i + 1][..i] == s[..i];
  }

  lemma {:induction false} KeptPrefix(s: seq<Tuple>, spec: IncorporateSpec, i: nat)
    requires i <= |s| && SpecFits(spec, |s|)
    ensures Kept(s, spec, i)
         == if spec.oldEntry == StillExists && spec.idx < i then s[..spec.idx] + s[spec.idx + 1..i] else s[..i]
  {
    if i > 0 {
      KeptPrefix(s, spec, i - 1);
    }
  }

  lemma KeptAll(s: seq<Tuple>, spec: IncorporateSpec)
    requires SpecFits(spec, |s|)
    ensures Kept(s, spec, |s|) == Others(s, spec)
  {
    KeptPrefix(s, spec, |s|);
  }

  lemma TupleIs(p: Image, i: nat)
    requires WellFormed(p) && i < NumEntries(p)
    ensures EntryOk(p, i) && Entries(p)[i] == EntryAt(p, Offset(p, i)) && EntryAt(p, Offset(p, i)).cls < 4
  {
    assert EntryOk(p, i);
    assert Entries(p)[i] == TupleAt(p, i);
  }

  /** A page being rewritten has room for the next entry of the old page. */
  lemma KeptFits(scratch: Image, p: Image, spec: IncorporateSpec, i: nat)
    requires WellFormed(scratch) && i < NumEntries(scratch) && |p| == |scratch|
    requires Compact(p) && Entries(p) == Kept(Entries(scratch), spec, i)
    ensures CanSet(p, NumEntries(p), Entries(scratch)[i])
  {
    EntriesFit(scratch);
    KeptBytes(Entries(scratch), spec, i);
    BytesPrefix(Entries(scratch), i);
  }

  lemma CompactAppend(p: Image, q: Image, t: Tuple)
    requires Compact(p) && WellFormed(q) && |q| == |p| && Entries(q) == Entries(p) + [t]
    requires NextEntry(q) == NextEntry(p) - RequiredCapacity(t)
    ensures Compact(q)
  {
    assert Entries(q)[..|Entries(q)| - 1] == Entries(p);
  }

  lemma FilledParts(q: Image, o: nat, t: Tuple)
    requires o + RequiredCapacity(t) <= |q| && t.cls < 4
    requires U16(q, o) == |t.key| && U16(q, o + 3) == |t.msg| && q[o + 5] == t.cls
    requires q[o + LEAF_ENTRY_SIZE..o + LEAF_ENTRY_SIZE + |t.key|] == t.key
    requires q[o + LEAF_ENTRY_SIZE + |t.key|..o + RequiredCapacity(t)] == t.msg
    ensures EntryInside(q, o) && EntrySize(q, o) == RequiredCapacity(t) && EntryAt(q, o) == t
  {
  }

  lemma PageBounds(p: Image)
    requires WellFormed(p)
    ensures PageSizeOk(|p|) && TableEnd(NumEntries(p)) <= NextEntry(p) <= |p|
  {
  }

  lemma SameU16(p: Image, q: Image, pos: nat)
    requires pos + 2 <= |p| && SameRange(p, q, pos, pos + 2)
    ensures U16(q, pos) == U16(p, pos)
  {
  }
}
