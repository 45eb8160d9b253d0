/**
  Finding a key in a leaf and computing the update that a tuple calls for
  (btree.c:492-519, 559-596), against the leaf seen as a map.
 */
module LeafSearch {
  import opened PageLayout
  import opened LeafPage

  datatype Value = Value(cls: nat, data: Image)

  function ValueOf(t: Tuple): Value { Value(t.cls, t.msg) }

  /** Strictly increasing in the order of the key comparator, given as a rank. */
  ghost predicate Sorted(s: seq<Tuple>, rank: Image -> int) {
    forall i, j | 0 <= i < j < |s| :: rank(s[i].key) < rank(s[j].key)
  }

  ghost function Contents(s: seq<Tuple>, rank: Image -> int): map<int, Value> {
    if s == [] then map[]
    else Contents(s[..|s| - 1], rank)[rank(s[|s| - 1].key) := ValueOf(s[|s| - 1])]
  }

  lemma {:induction false} ContentsKeys(s: seq<Tuple>, rank: Image -> int, r: int)
    ensures r in Contents(s, rank) <==> exists i :: 0 <= i < |s| && rank(s[i].key) == r
  {
    if s != [] {
      var n := |s| - 1;
      ContentsKeys(s[..n], rank, r);
      assert forall i | 0 <= i < n :: s[..n][i] == s[i];
      if r in Contents(s, rank) {
        if r == rank(s[n].key) {
        } else {
          var i :| 0 <= i < n && rank(s[..n][i].key) == r;
          assert rank(s[i].key) == r;
        }
      }
      if i :| 0 <= i < |s| && rank(s[i].key) == r {
        if i < n {
          assert rank(s[..n][i].key) == r;
        }
      }
    }
  }

  lemma {:induction false} ContentsAt(s: seq<Tuple>, rank: Image -> int, i: nat)
    requires Sorted(s, rank) && i < |s|
    ensures rank(s[i].key) in Contents(s, rank) && Contents(s, rank)[rank(s[i].key)] == ValueOf(s[i])
  {
    if i < |s| - 1 {
      ContentsAt(s[..|s| - 1], rank, i);
    }
  }

  /** `btree_find_tuple`. */
  method FindTuple(page: Page, target: Image, rank: Image -> int) returns (idx: int, found: bool)
    requires page.Valid() && Sorted(Entries(page.data[..]), rank)
    ensures var e := Entries(page.data[..]);
      && -1 <= idx < |e|
      && (forall i | 0 <= i <= idx :: rank(e[i].key) <= rank(target))
      && (forall i | idx < i < |e| :: rank(target) < rank(e[i].key))
      && (found <==> 0 <= idx && rank(e[idx].key) == rank(target))
  {
    hide WellFormed, U16, Entries, EntryAt;
    ghost var p := page.data[..];
    ghost var e := Entries(p);
    EntriesLength(p);
    PageBounds(p);
    var lo := 0;
    var hi := page.GetU16(NUM_ENTRIES_POS);
    while lo < hi
      invariant page.data[..] == p && 0 <= lo <= hi <= |e|
      invariant forall i | 0 <= i < lo :: rank(e[i].key) < rank(target)
      invariant forall i | hi <= i < |e| :: rank(target) < rank(e[i].key)
    {
      var mid := (lo + hi) / 2;
      EntryIsOk(p, mid);
      TupleIs(p, mid);
      var o := page.GetU16(TableEnd(mid));
      var t := EntryAt(page.data[..], o);
      if rank(t.key) == rank(target) {
        return mid, true;
      } else if rank(t.key) < rank(target) {
        lo := mid + 1;
      } else {
        hi := mid;
      }
    }
    return lo - 1, false;
  }

  /** What a leaf holds after the tuple has been merged into it. */
  ghost function Updated(m: map<int, Value>, key: Image, v: Value, rank: Image -> int,
      merge: (Image, Value, Value) -> Value): map<int, Value>
  {
    m[rank(key) := if rank(key) in m then merge(key, m[rank(key)], v) else v]
  }

  /** `btree_create_leaf_incorporate_spec`, with `merge(key, old, new)` for the message merge. */
  method CreateLeafIncorporateSpec(page: Page, key: Image, v: Value, rank: Image -> int,
      merge: (Image, Value, Value) -> Value)
    returns (spec: IncorporateSpec)
    requires page.Valid() && Sorted(Entries(page.data[..]), rank)
    ensures var e := Entries(page.data[..]);
      && SpecFits(spec, |e|) && spec.tuple.key == key && spec.oldEntry != HasBeenRemoved
      && Sorted(Incorporated(e, spec), rank)
      && Contents(Incorporated(e, spec), rank) == Updated(Contents(e, rank), key, v, rank, merge)
      && (spec.oldEntry == DidNotExist <==> rank(key) !in Contents(e, rank))
      && (spec.oldEntry == StillExists ==> rank(e[spec.idx].key) == rank(key))
  {
    hide WellFormed, U16, Entries, EntryAt, Contents;
    ghost var p := page.data[..];
    ghost var e := Entries(p);
    EntriesLength(p);
    PageBounds(p);
    var idx, found := FindTuple(page, key, rank);
    ContentsKeys(e, rank, rank(key));
    if !found {
      spec := IncorporateSpec(idx + 1, DidNotExist, Tuple(key, v.cls, v.data));
      InsertedContents(e, spec, rank);
    } else {
      EntryIsOk(p, idx);
      TupleIs(p, idx);
      var o := page.GetU16(TableEnd(idx));
      var t := EntryAt(page.data[..], o);
      var merged := merge(key, ValueOf(t), v);
      spec := IncorporateSpec(idx, StillExists, Tuple(key, merged.cls, merged.data));
      ContentsAt(e, rank, idx);
      ReplacedContents(e, spec, rank);
    }
  }

  /** Keys before the new tuple's place are smaller than its key, those from there on larger. */
  ghost predicate InPlace(e: seq<Tuple>, spec: IncorporateSpec, rank: Image -> int) {
    && SpecFits(spec, |e|) && spec.oldEntry == DidNotExist
    && (forall i | 0 <= i < spec.idx :: rank(e[i].key) < rank(spec.tuple.key))
    && (forall i | spec.idx <= i < |e| :: rank(spec.tuple.key) < rank(e[i].key))
  }

  lemma InsertedContents(e: seq<Tuple>, spec: IncorporateSpec, rank: Image -> int)
    requires Sorted(e, rank) && InPlace(e, spec, rank)
    ensures Sorted(Incorporated(e, spec), rank)
    ensures Contents(Incorporated(e, spec), rank) == Contents(e, rank)[rank(spec.tuple.key) := ValueOf(spec.tuple)]
  {
    hide Contents, Incorporated, Sorted;
    InsertedSorted(e, spec, rank);
    InsertedMembers(e, spec);
    SameContents(Incorporated(e, spec), e, rank, spec.tuple, spec.idx);
  }

  lemma InsertedSorted(e: seq<Tuple>, spec: IncorporateSpec, rank: Image -> int)
    requires Sorted(e, rank) && InPlace(e, spec, rank)
    ensures Sorted(Incorporated(e, spec), rank)
  {
    hide Incorporated;
    InsertedAt(e, spec, spec.idx);
    forall i, j | 0 <= i < j < |Incorporated(e, spec)|
      ensures rank(Incorporated(e, spec)[i].key) < rank(Incorporated(e, spec)[j].key)
    {
      InsertedAt(e, spec, i);
      InsertedAt(e, spec, j);
    }
  }

  lemma InsertedMembers(e: seq<Tuple>, spec: IncorporateSpec)
    requires SpecFits(spec, |e|) && spec.oldEntry == DidNotExist
    ensures var s := Incorporated(e, spec);
      && spec.idx < |s| && s[spec.idx] == spec.tuple
      && (forall i | 0 <= i < |s| && i != spec.idx :: s[i] in e) && (forall i | 0 <= i < |e| :: e[i] in s)
  {
    hide Incorporated;
    InsertedAt(e, spec, spec.idx);
    forall i | 0 <= i < |e| + 1 && i != spec.idx ensures Incorporated(e, spec)[i] in e {
      InsertedAt(e, spec, i);
    }
    forall i | 0 <= i < |e| ensures e[i] in Incorporated(e, spec) {
      InsertedAt(e, spec, if i < spec.idx then i else i + 1);
    }
  }

  lemma InsertedAt(e: seq<Tuple>, spec: IncorporateSpec, i: nat)
    requires SpecFits(spec, |e|) && spec.oldEntry == DidNotExist && i <= |e|
    ensures |Incorporated(e, spec)| == |e| + 1
    ensures Incorporated(e, spec)[i] == if i < spec.idx then e[i] else if i == spec.idx then spec.tuple else e[i - 1]
  {
  }

  lemma ReplacedContents(e: seq<Tuple>, spec: IncorporateSpec, rank: Image -> int)
    requires Sorted(e, rank) && SpecFits(spec, |e|) && spec.oldEntry == StillExists
    requires rank(e[spec.idx].key) == rank(spec.tuple.key)
    ensures Sorted(Incorporated(e, spec), rank)
    ensures Contents(Incorporated(e, spec), rank) == Contents(e, rank)[rank(spec.tuple.key) := ValueOf(spec.tuple)]
  {
    hide Contents, Incorporated, Sorted;
    var s, k := Incorporated(e, spec), spec.idx;
    ReplacedSorted(e, spec, rank);
    ReplacedAt(e, spec, k);
    forall i | 0 <= i < |s| && i != k ensures s[i] in e {
      ReplacedAt(e, spec, i);
    }
    forall i | 0 <= i < |e| ensures rank(e[i].key) == rank(spec.tuple.key) || e[i] in s {
      ReplacedAt(e, spec, i);
      assert i != k ==> s[i] == e[i];
    }
    SameContents(s, e, rank, spec.tuple, k);
  }

  lemma ReplacedAt(e: seq<Tuple>, spec: IncorporateSpec, i: nat)
    requires SpecFits(spec, |e|) && spec.oldEntry == StillExists && i < |e|
    ensures |Incorporated(e, spec)| == |e|
    ensures Incorporated(e, spec)[i] == if i == spec.idx then spec.tuple else e[i]
  {
  }

  lemma ReplacedSorted(e: seq<Tuple>, spec: IncorporateSpec, rank: Image -> int)
    requires Sorted(e, rank) && SpecFits(spec, |e|) && spec.oldEntry == StillExists
    requires rank(e[spec.idx].key) == rank(spec.tuple.key)
    ensures Sorted(Incorporated(e, spec), rank)
  {
    hide Incorporated;
    ReplacedAt(e, spec, spec.idx);
    forall i, j | 0 <= i < j < |Incorporated(e, spec)|
      ensures rank(Incorporated(e, spec)[i].key) < rank(Incorporated(e, spec)[j].key)
    {
      ReplacedAt(e, spec, i);
      ReplacedAt(e, spec, j);
    }
  }

  /** Two sorted runs that differ by one tuple denote maps that differ at its key. */
  lemma SameContents(s: seq<Tuple>, e: seq<Tuple>, rank: Image -> int, t: Tuple, k: nat)
    requires Sorted(s, rank) && Sorted(e, rank) && k < |s| && s[k] == t
    requires forall i | 0 <= i < |s| && i != k :: s[i] in e
    requires forall i | 0 <= i < |e| :: rank(e[i].key) == rank(t.key) || e[i] in s
    ensures Contents(s, rank) == Contents(e, rank)[rank(t.key) := ValueOf(t)]
  {
    hide Contents;
    var a, b := Contents(s, rank), Contents(e, rank)[rank(t.key) := ValueOf(t)];
    forall r ensures r in a <==> r in b {
      ContentsKeys(s, rank, r);
      ContentsKeys(e, rank, r);
      if i :| 0 <= i < |s| && rank(s[i].key) == r {
        if i != k {
          var j :| 0 <= j < |e| && e[j] == s[i];
          assert rank(e[j].key) == r;
        }
      }
      if i :| 0 <= i < |e| && rank(e[i].key) == r {
        if r != rank(t.key) {
          var j :| 0 <= j < |s| && s[j] == e[i];
          assert rank(s[j].key) == r;
        }
      }
      assert rank(s[k].key) == rank(t.key);
    }
    forall r | r in a ensures a[r] == b[r] {
      ContentsKeys(s, rank, r);
      var i :| 0 <= i < |s| && rank(s[i].key) == r;
      ContentsAt(s, rank, i);
      if i != k {
        var j :| 0 <= j < |e| && e[j] == s[i];
        ContentsAt(e, rank, j);
        assert r != rank(t.key);
      }
    }
  }
}
