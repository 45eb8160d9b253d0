/**
  The leaf end of `btree_insert` (btree.c:1975-2052): compute the update, perform it in
  place when there is room, defragment or split when there is not.
 */
module LeafInsert {
  import opened PageLayout
  import opened LeafPage
  import opened LeafSplit
  import opened LeafUpdate
  import opened LeafSearch

  predicate InlineValue(v: Value, pageSize: nat) {
    v.cls < 4 && |v.data| <= MaxInlineMessageSize(pageSize)
  }

  /** Merging keeps messages within the inline bound; btree_insert checks only the incoming one. */
  ghost predicate MergeStaysInline(merge: (Image, Value, Value) -> Value, pageSize: nat) {
    forall key, old', new' | InlineValue(old', pageSize) && InlineValue(new', pageSize) ::
      InlineValue(merge(key, old', new'), pageSize)
  }

  ghost predicate LeafState(page: Page, rank: Image -> int)
    reads page.data
  {
    page.Valid() && Sorted(Entries(page.data[..]), rank) && AllInline(Entries(page.data[..]), page.data.Length)
  }

  /** No key is stored with bytes that are neither old nor the incoming ones. */
  ghost predicate KeysFrom(s: seq<Tuple>, e: seq<Tuple>, key: Image) {
    forall i | 0 <= i < |s| :: KeyFrom(s[i].key, e, key)
  }

  lemma UpdatedKeysFrom(e: seq<Tuple>, spec: IncorporateSpec, left: seq<Tuple>, right: seq<Tuple>)
    requires SpecFits(spec, |e|) && left + right == Incorporated(e, spec)
    ensures KeysFrom(left, e, spec.tuple.key) && KeysFrom(right, e, spec.tuple.key)
    ensures |left| + |right| > 0
  {
    hide KeyFrom;
    var s := left + right;
    forall i | 0 <= i < |s| ensures KeyFrom(s[i].key, e, spec.tuple.key) {
      UpdatedKeyFrom(e, spec, i);
    }
    assert forall i | 0 <= i < |left| :: left[i] == s[i];
    assert forall i | 0 <= i < |right| :: right[i] == s[|left| + i];
  }

  method InsertIntoLeaf(left: Page, right: Page, leftAddr: nat, rightAddr: nat, key: Image, v: Value,
      rank: Image -> int, merge: (Image, Value, Value) -> Value)
    returns (split: bool, pivot: Image, wasUnique: bool)
    requires LeafState(left, rank) && left.data != right.data && left.data.Length == right.data.Length
    requires leftAddr < TWO_64 && rightAddr < TWO_64
    requires Inline(Tuple(key, v.cls, v.data), left.data.Length) && MergeStaysInline(merge, left.data.Length)
    modifies left.data, right.data
    ensures LeafState(left, rank)
    ensures !split ==>
      Contents(Entries(left.data[..]), rank)
        == Updated(old(Contents(Entries(left.data[..]), rank)), key, v, rank, merge)
    ensures split ==>
      && LeafState(right, rank) && Entries(left.data[..]) != [] && IsFirstKey(pivot, Entries(right.data[..]), rank)
      && Sorted(Entries(left.data[..]) + Entries(right.data[..]), rank)
      && Contents(Entries(left.data[..]) + Entries(right.data[..]), rank)
         == Updated(old(Contents(Entries(left.data[..]), rank)), key, v, rank, merge)
    ensures KeysFrom(Entries(left.data[..]), old(Entries(left.data[..])), key) && Entries(left.data[..]) != []
    ensures split ==>
      KeysFrom(Entries(right.data[..]), old(Entries(left.data[..])), key)
      && KeyFrom(pivot, old(Entries(left.data[..])), key)
    ensures wasUnique <==> rank(key) !in old(Contents(Entries(left.data[..]), rank))
    ensures split ==>
      && PrevAddr(left.data[..]) == old(PrevAddr(left.data[..])) && NextAddr(left.data[..]) == rightAddr
      && PrevAddr(right.data[..]) == leftAddr && NextAddr(right.data[..]) == old(NextAddr(left.data[..]))
    ensures GenerationMoved(old(Generation(left.data[..])), Generation(left.data[..]))
  {
    hide WellFormed, U16, U64, Entries, EntryAt, Contents, Inline, Sorted, AllInline, CanPerform, MergeStaysInline,
      KeysFrom, KeyFrom;
    ghost var p := left.data[..];
    ghost var e := Entries(p);
    EntriesLength(p);
    PageBounds(p);
    var spec := CreateLeafIncorporateSpec(left, key, v, rank, merge);
    StaysInline(e, spec, key, v, rank, merge, |p|);
    InlineCost(spec.tuple, |p|);
    wasUnique := spec.oldEntry == DidNotExist;
    split, pivot := false, [];
    SpecEntryInside(p, spec);
    if CanPerform(left.data[..], spec) {
      var incorporated, _ := left.TryPerform(spec);
      assert incorporated;
      UpdatedKeysFrom(e, spec, Entries(left.data[..]), []);
    } else {
      split, pivot := DefragmentOrSplitChildLeaf(left, right, leftAddr, rightAddr, spec, rank);
      if split {
        HalvesState(Entries(left.data[..]), Entries(right.data[..]), rank, |p|);
        UpdatedKeysFrom(e, spec, Entries(left.data[..]), Entries(right.data[..]));
      } else {
        UpdatedKeysFrom(e, spec, Entries(left.data[..]), []);
      }
    }
  }

  /** The spec's tuple is inline, and so is every tuple of the updated leaf. */
  lemma StaysInline(e: seq<Tuple>, spec: IncorporateSpec, key: Image, v: Value, rank: Image -> int,
      merge: (Image, Value, Value) -> Value, pageSize: nat)
    requires SpecFits(spec, |e|) && spec.tuple.key == key && Sorted(Incorporated(e, spec), rank)
    requires Contents(Incorporated(e, spec), rank) == Updated(Contents(e, rank), key, v, rank, merge)
    requires AllInline(e, pageSize) && Inline(Tuple(key, v.cls, v.data), pageSize) && MergeStaysInline(merge, pageSize)
    ensures Inline(spec.tuple, pageSize) && AllInline(Incorporated(e, spec), pageSize)
  {
    hide Contents, Sorted;
    var s := Incorporated(e, spec);
    assert s[spec.idx] == spec.tuple;
    ContentsAt(s, rank, spec.idx);
    StoredInline(e, rank(key), rank, pageSize);
    forall t | t in s ensures Inline(t, pageSize) {
      assert t == spec.tuple || t in e;
    }
  }

  /** A value a leaf of inline tuples maps a key to is inline. */
  lemma {:induction false} StoredInline(e: seq<Tuple>, r: int, rank: Image -> int, pageSize: nat)
    requires AllInline(e, pageSize)
    ensures r in Contents(e, rank) ==> InlineValue(Contents(e, rank)[r], pageSize)
  {
    if e != [] {
      assert e[|e| - 1] in e;
      StoredInline(e[..|e| - 1], r, rank, pageSize);
    }
  }

  lemma HalvesState(a: seq<Tuple>, b: seq<Tuple>, rank: Image -> int, pageSize: nat)
    requires Sorted(a + b, rank) && AllInline(a + b, pageSize)
    ensures Sorted(a, rank) && Sorted(b, rank) && AllInline(a, pageSize) && AllInline(b, pageSize)
  {
    var s := a + b;
    assert forall i | 0 <= i < |a| :: a[i] == s[i];
    assert forall i | 0 <= i < |b| :: b[i] == s[|a| + i];
  }
}
