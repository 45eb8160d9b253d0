/**
  The k-way merge iterator of merge.c, for a forward run: an array of input
  iterators kept in order by binary insertion, each with a bit that says whether
  the next iterator in the array is at the same key.
 */
module MergeIterator {
  import opened Wrappers
  import opened DataConfig
  import opened MergeSpec

  /**
    `ordered_iterator`. `itor` is what the input iterator has not passed yet, so
    `iterator_can_curr` is `itor != []`. `curr` is the cached key and data, None
    for NULL_KEY and NULL_MESSAGE.
   */
  datatype Ordered = Ordered(seqNo: int, itor: seq<Pair>, curr: Option<Pair>, nextKeyEqual: bool)

  ghost predicate Positioned(o: Ordered) {
    o.seqNo >= 0 && o.itor != [] && o.curr == Some(o.itor[0])
  }

  ghost predicate InOrder(a: Ordered, b: Ordered)
    requires Positioned(a) && Positioned(b)
  {
    Before(a.itor[0].key, a.seqNo, b.itor[0].key, b.seqNo)
  }

  ghost predicate SameKey(a: Ordered, b: Ordered)
    requires Positioned(a) && Positioned(b)
  {
    a.itor[0].key == b.itor[0].key
  }

  ghost predicate SortedRange(o: seq<Ordered>) {
    && (forall i | 0 <= i < |o| :: Positioned(o[i]))
    && (forall i, j | 0 <= i < j < |o| :: InOrder(o[i], o[j]))
  }

  ghost predicate Holds(o: seq<Ordered>, t: nat) {
    exists i | 0 <= i < |o| :: o[i].seqNo == t
  }

  /** Every input is in the array once; the first n are live, the others are exhausted. */
  ghost predicate Tied(o: seq<Ordered>, n: nat, rems: seq<seq<Pair>>) {
    && |o| == |rems| && n <= |o|
    && (forall i | 0 <= i < |o| :: 0 <= o[i].seqNo < |rems| && o[i].itor == rems[o[i].seqNo])
    && (forall i, j | 0 <= i < j < |o| :: o[i].seqNo != o[j].seqNo)
    && (forall t | 0 <= t < |rems| :: Holds(o, t))
    && (forall i | n <= i < |o| :: o[i].itor == [])
  }

  ghost predicate Flagged(o: seq<Ordered>)
    requires SortedRange(o)
  {
    && (forall i, j | 0 <= i && j == i + 1 < |o| :: o[i].nextKeyEqual == SameKey(o[i], o[j]))
    && (o != [] ==> !o[|o| - 1].nextKeyEqual)
  }

  /** `bsearch_comp`, forwards. */
  function BsearchComp(one: Ordered, two: Ordered): (r: (int, bool))
    requires one.curr.Some? && two.curr.Some?
    ensures Positioned(one) && Positioned(two) && one.seqNo != two.seqNo ==>
      && (r.0 < 0 <==> InOrder(one, two)) && (r.0 > 0 <==> InOrder(two, one)) && r.1 == SameKey(one, two)
  {
    var cmp := one.curr.value.key - two.curr.value.key;
    if cmp == 0 then (two.seqNo - one.seqNo, true) else (cmp, false)
  }

  lemma AllBefore(s: seq<Ordered>, p: nat, o: Ordered)
    requires SortedRange(s) && p < |s| && Positioned(o) && InOrder(s[p], o)
    ensures forall i | 0 <= i <= p :: InOrder(s[i], o)
    ensures forall i | 0 <= i <= p && SameKey(s[i], o) :: SameKey(s[p], o)
  {
    forall i | 0 <= i < p ensures InOrder(s[i], o) && (SameKey(s[i], o) ==> SameKey(s[p], o)) {
      assert InOrder(s[i], s[p]);
    }
  }

  lemma AllAfter(s: seq<Ordered>, p: nat, o: Ordered)
    requires SortedRange(s) && p < |s| && Positioned(o) && InOrder(o, s[p])
    ensures forall i | p <= i < |s| :: InOrder(o, s[i])
    ensures forall i | p <= i < |s| && SameKey(s[i], o) :: SameKey(s[p], o)
  {
    forall i | p < i < |s| ensures InOrder(o, s[i]) && (SameKey(s[i], o) ==> SameKey(s[p], o)) {
      assert InOrder(s[p], s[i]);
    }
  }

  /**
    `bsearch_insert` into the array elements `s`: the last of them that is
    before `o`, and whether its neighbours on either side hold the same key.
   */
  method BsearchInsert(o: Ordered, s: seq<Ordered>)
    returns (index: int, prevEqual: bool, nextEqual: bool)
    requires s != [] && Positioned(o) && SortedRange(s)
    requires forall i | 0 <= i < |s| :: s[i].seqNo != o.seqNo
    ensures -1 <= index < |s|
    ensures forall i | 0 <= i <= index :: InOrder(s[i], o)
    ensures forall i | index < i < |s| :: InOrder(o, s[i])
    ensures prevEqual == (0 <= index && SameKey(s[index], o))
    ensures nextEqual == (index + 1 < |s| && SameKey(s[index + 1], o))
  {
    var base, lim := 0, |s|;
    var p, cmp := 0, 0;
    prevEqual, nextEqual := false, false;
    while lim != 0
      invariant 0 <= base && 0 <= lim && base + lim <= |s|
      invariant forall i | 0 <= i < base :: InOrder(s[i], o)
      invariant forall i | base + lim <= i < |s| :: InOrder(o, s[i])
      invariant prevEqual == (0 < base && SameKey(s[base - 1], o))
      invariant nextEqual == (base + lim < |s| && SameKey(s[base + lim], o))
      invariant lim == 0 ==> cmp != 0 && p == if cmp < 0 then base else base - 1
    {
      p := base + lim / 2;
      var (c, keysEqual) := BsearchComp(o, s[p]);
      cmp := c;
      ghost var end := base + lim;
      assert InOrder(s[p], o) || InOrder(o, s[p]);
      if cmp > 0 {
        AllBefore(s, p, o);
        base := p + 1;
        lim := lim - 1;
        prevEqual := prevEqual || keysEqual;
      } else {
        AllAfter(s, p, o);
      }
      nextEqual := nextEqual || (cmp < 0 && keysEqual);
      lim := lim / 2;
      assert base + lim == if cmp < 0 then p else end;
    }
    if cmp < 0 {
      p := p - 1;
    }
    return p, prevEqual, nextEqual;
  }

  /* ---- The array after the first iterator has advanced ---- */

  /** The first iterator moves behind the next `index` ones. */
  function Rotated(o: seq<Ordered>, index: nat, moved: Ordered): seq<Ordered>
    requires index < |o|
  {
    o[1..index + 1] + [moved] + o[index + 1..]
  }

  lemma FirstItem(o: seq<Ordered>, n: nat, rems: seq<seq<Pair>>)
    requires 0 < n && Tied(o, n, rems) && SortedRange(o[..n])
    ensures 0 <= o[0].seqNo < |rems| && rems[o[0].seqNo] == o[0].itor && Positioned(o[0])
    ensures var w := o[0].seqNo;
      Items(rems) == [Item(o[0].itor[0].key, w, o[0].itor[0].msg)] + Items(rems[w := rems[w][1..]])
  {
    var w := o[0].seqNo;
    assert o[..n][0] == o[0];
    forall t | 0 <= t < |rems| && t != w && rems[t] != []
      ensures Before(rems[w][0].key, w, rems[t][0].key, t)
    {
      assert Holds(o, t);
      var i :| 0 <= i < |o| && o[i].seqNo == t;
      assert o[..n][i] == o[i];
      assert InOrder(o[..n][0], o[..n][i]);
    }
    WinnerUnique(rems, w);
  }

  lemma NoItems(o: seq<Ordered>, rems: seq<seq<Pair>>)
    requires Tied(o, 0, rems)
    ensures Items(rems) == []
  {
    forall t | 0 <= t < |rems| ensures rems[t] == [] {
      assert Holds(o, t);
    }
  }

  /** When the two first iterators hold one key, they hold the two first items. */
  lemma SecondItem(o: seq<Ordered>, n: nat, rems: seq<seq<Pair>>)
    requires 2 <= n && Tied(o, n, rems) && SortedRange(o[..n]) && AllSorted(rems)
    requires Positioned(o[0]) && Positioned(o[1]) && SameKey(o[0], o[1])
    ensures 2 <= |Items(rems)|
    ensures Items(rems)[1] == Item(o[1].itor[0].key, o[1].seqNo, o[1].itor[0].msg)
  {
    FirstItem(o, n, rems);
    var w, v := o[0].seqNo, o[1].seqNo;
    var next: seq<seq<Pair>> := rems[w := rems[w][1..]];
    forall t | 0 <= t < |next| && t != v && next[t] != []
      ensures Before(next[v][0].key, v, next[t][0].key, t)
    {
      if t != w {
        assert Holds(o, t);
        var i :| 0 <= i < |o| && o[i].seqNo == t;
        assert o[..n][i] == o[i] && o[..n][1] == o[1];
        assert InOrder(o[..n][1], o[..n][i]);
      }
    }
    WinnerUnique(next, v);
  }

  lemma HoldsRotated(o: seq<Ordered>, index: nat, moved: Ordered, t: nat)
    requires index < |o| && Holds(o, t) && moved.seqNo == o[0].seqNo
    ensures Holds(Rotated(o, index, moved), t)
  {
    var i :| 0 <= i < |o| && o[i].seqNo == t;
    var j := if i == 0 then index else if i <= index then i - 1 else i;
    assert Rotated(o, index, moved)[j].seqNo == t;
  }

  /** Where the element at position i of the rotated array comes from. */
  function Source(index: nat, i: nat): nat {
    if i < index then i + 1 else if i == index then 0 else i
  }

  lemma RotatedAt(o: seq<Ordered>, index: nat, moved: Ordered, i: nat)
    requires index < |o| && i < |o|
    ensures Rotated(o, index, moved)[i] == if i == index then moved else o[Source(index, i)]
    ensures Source(index, i) < |o|
  {
  }

  lemma TiedRotated(o: seq<Ordered>, n: nat, rems: seq<seq<Pair>>, index: nat, moved: Ordered, n': nat)
    requires 0 < n && Tied(o, n, rems) && index < n && o[0].itor != []
    requires moved.seqNo == o[0].seqNo && moved.itor == o[0].itor[1..]
    requires n' == if moved.itor == [] then n - 1 else n
    requires moved.itor == [] ==> index == n - 1
    ensures Tied(Rotated(o, index, moved), n', rems[o[0].seqNo := moved.itor])
  {
    var r, next := Rotated(o, index, moved), rems[o[0].seqNo := moved.itor];
    forall i | 0 <= i < |r|
      ensures 0 <= r[i].seqNo < |rems| && r[i].itor == next[r[i].seqNo]
    {
      RotatedAt(o, index, moved, i);
      var i' := Source(index, i);
      assert 0 < i' ==> o[0].seqNo != o[i'].seqNo;
    }
    forall i, j | 0 <= i < j < |r| ensures r[i].seqNo != r[j].seqNo {
      RotatedAt(o, index, moved, i);
      RotatedAt(o, index, moved, j);
      var i', j' := Source(index, i), Source(index, j);
      assert i' < j' ==> o[i'].seqNo != o[j'].seqNo;
      assert j' < i' ==> o[j'].seqNo != o[i'].seqNo;
    }
    forall i | n' <= i < |r| ensures r[i].itor == [] {
      RotatedAt(o, index, moved, i);
    }
    forall t | 0 <= t < |rems| ensures Holds(r, t) {
      assert Holds(o, t);
      HoldsRotated(o, index, moved, t);
    }
  }

  /** The neighbours' flags change; nothing else about an iterator does. */
  ghost predicate SameButFlags(o: seq<Ordered>, r: seq<Ordered>) {
    |o| == |r| && forall i | 0 <= i < |o| :: r[i] == o[i].(nextKeyEqual := r[i].nextKeyEqual)
  }

  lemma TiedFlags(o: seq<Ordered>, r: seq<Ordered>, n: nat, rems: seq<seq<Pair>>)
    requires Tied(o, n, rems) && SameButFlags(o, r)
    ensures Tied(r, n, rems)
  {
    forall t | 0 <= t < |rems| ensures Holds(r, t) {
      assert Holds(o, t);
      var i :| 0 <= i < |o| && o[i].seqNo == t;
      assert r[i].seqNo == t;
    }
  }

  /** Element i once `moved` is behind its `index` predecessors and the two flags are set. */
  function ReinsertedAt(o: seq<Ordered>, index: nat, moved: Ordered, prevEqual: bool, nextEqual: bool, i: nat): Ordered
    requires index < |o| && i < |o|
  {
    if i + 1 < index then o[i + 1]
    else if i + 1 == index then o[index].(nextKeyEqual := prevEqual)
    else if i == index then moved.(nextKeyEqual := nextEqual)
    else o[i]
  }

  ghost predicate Fits(o: seq<Ordered>, index: nat, moved: Ordered, prevEqual: bool, nextEqual: bool) {
    && index < |o| && SortedRange(o) && Flagged(o) && Positioned(moved)
    && (forall i | 1 <= i <= index :: InOrder(o[i], moved))
    && (forall i | index < i < |o| :: InOrder(moved, o[i]))
    && prevEqual == (1 <= index && SameKey(o[index], moved))
    && nextEqual == (index + 1 < |o| && SameKey(o[index + 1], moved))
  }

  ghost predicate IsReinserted(o: seq<Ordered>, index: nat, moved: Ordered, prevEqual: bool, nextEqual: bool,
                               r: seq<Ordered>)
    requires index < |o|
  {
    |r| == |o| && forall i | 0 <= i < |o| :: r[i] == ReinsertedAt(o, index, moved, prevEqual, nextEqual, i)
  }

  lemma ReinsertSorted(o: seq<Ordered>, index: nat, moved: Ordered, prevEqual: bool, nextEqual: bool, r: seq<Ordered>)
    requires Fits(o, index, moved, prevEqual, nextEqual) && IsReinserted(o, index, moved, prevEqual, nextEqual, r)
    ensures SortedRange(r)
  {
    forall i | 0 <= i < |r| ensures Positioned(r[i]) {
      assert r[i] == ReinsertedAt(o, index, moved, prevEqual, nextEqual, i);
    }
    forall i, j | 0 <= i < j < |r| ensures InOrder(r[i], r[j]) {
      assert r[i] == ReinsertedAt(o, index, moved, prevEqual, nextEqual, i);
      assert r[j] == ReinsertedAt(o, index, moved, prevEqual, nextEqual, j);
      var i', j' := if i < index then i + 1 else i, if j < index then j + 1 else j;
      if i != index && j != index {
        assert InOrder(o[i'], o[j']);
      }
    }
  }

  lemma ReinsertFlagged(o: seq<Ordered>, index: nat, moved: Ordered, prevEqual: bool, nextEqual: bool, r: seq<Ordered>)
    requires Fits(o, index, moved, prevEqual, nextEqual) && IsReinserted(o, index, moved, prevEqual, nextEqual, r)
    requires SortedRange(r)
    ensures Flagged(r)
  {
    forall i, j | 0 <= i && j == i + 1 < |r| ensures r[i].nextKeyEqual == SameKey(r[i], r[j]) {
      assert r[i] == ReinsertedAt(o, index, moved, prevEqual, nextEqual, i);
      assert r[j] == ReinsertedAt(o, index, moved, prevEqual, nextEqual, j);
      if j < index {
        assert o[i + 1].nextKeyEqual == SameKey(o[i + 1], o[j + 1]);
      } else if index < i {
        assert o[i].nextKeyEqual == SameKey(o[i], o[j]);
      }
    }
  }

  lemma ReinsertTied(o: seq<Ordered>, n: nat, rems: seq<seq<Pair>>, index: nat, moved: Ordered,
                     prevEqual: bool, nextEqual: bool, r: seq<Ordered>)
    requires 0 < n && Tied(o, n, rems) && index < n && o[0].itor != [] && moved.itor != []
    requires moved.seqNo == o[0].seqNo && moved.itor == o[0].itor[1..]
    requires IsReinserted(o, index, moved, prevEqual, nextEqual, r)
    ensures Tied(r, n, rems[o[0].seqNo := moved.itor])
  {
    var u := Rotated(o, index, moved);
    TiedRotated(o, n, rems, index, moved, n);
    forall i | 0 <= i < |r| ensures r[i] == u[i].(nextKeyEqual := r[i].nextKeyEqual) {
      assert r[i] == ReinsertedAt(o, index, moved, prevEqual, nextEqual, i);
    }
    TiedFlags(u, r, n, rems[o[0].seqNo := moved.itor]);
  }

  /** Merge class: ordered_iterators with its pad element, and the output position. */
  class Iterator {
    const slots: array<Ordered>
    const cfg: Config
    const mergeMessages: bool
    const finalizeUpdates: bool
    const emitDeletes: bool
    var numRemaining: nat
    var canNext: bool
    var currKey: Option<Key>
    var currData: Option<Message>
    var currInBuffer: bool  // currData points into mergeBuffer
    var mergeBuffer: Message
    var discardedDeletes: nat
    ghost var rems: seq<seq<Pair>>
    ghost const mode: Mode

    /** ordered_iterators[0..num_trees]; slots[0] is the padding at index -1. */
    ghost function Trees(): seq<Ordered>
      reads slots
      requires slots.Length >= 1
    {
      slots[1..]
    }

    ghost predicate Valid()
      reads this`numRemaining, this`rems, slots
    {
      && slots.Length >= 1
      && mergeMessages == (mode != Raw) && finalizeUpdates == (mode == Full) && emitDeletes == (mode != Full)
      && Arranged(Trees(), numRemaining, rems)
      && AllSorted(rems)
    }

    /** Move ordered_iterators[0] to `index`, shifting those between down. */
    method MoveFirst(index: nat)
      requires index + 1 < slots.Length
      modifies slots
      ensures slots[0] == old(slots[0])
      ensures Trees() == Rotated(old(Trees()), index, old(slots[1]))
    {
      var first := slots[1];
      ghost var s := slots[..];
      for i := 0 to index
        invariant slots[0] == s[0]
        invariant forall j | 1 <= j <= i :: slots[j] == s[j + 1]
        invariant forall j | i < j < slots.Length :: slots[j] == s[j]
      {
        slots[i + 1] := slots[i + 2];
      }
      slots[index + 1] := first;
      ghost var o, r := s[1..], Rotated(s[1..], index, first);
      forall j | 0 <= j < |r| ensures slots[1..][j] == r[j] {
        assert slots[1..][j] == slots[j + 1];
        assert r[j] == if j < index then o[j + 1] else if j == index then first else o[j];
      }
      assert slots[1..] == r;
    }

    method SetFlags(index: nat, prevEqual: bool, nextEqual: bool)
      requires index + 1 < slots.Length
      modifies slots
      ensures |Trees()| == |old(Trees())|
      ensures forall i | 0 <= i < |Trees()| :: Trees()[i] == WithFlags(old(Trees()), index, prevEqual, nextEqual, i)
    {
      slots[index] := slots[index].(nextKeyEqual := prevEqual);
      slots[index + 1] := slots[index + 1].(nextKeyEqual := nextEqual);
    }

    /** The tail of `advance_and_resort_min_ritor`: the first iterator finds its place among the others. */
    method ResortFirst(ghost o: seq<Ordered>, ghost before: seq<seq<Pair>>)
      requires 2 <= numRemaining && Arranged(o, numRemaining, before) && slots.Length == |o| + 1
      requires Positioned(slots[1]) && Trees() == o[0 := slots[1]]
      requires slots[1].seqNo == o[0].seqNo && slots[1].itor == o[0].itor[1..]
      modifies slots
      ensures Arranged(Trees(), numRemaining, before[o[0].seqNo := o[0].itor[1..]])
    {
      ghost var moved := slots[1];
      DropFirst(o[..numRemaining], o[..numRemaining][1..]);
      assert slots[2..numRemaining + 1] == o[..numRemaining][1..];
      OthersDiffer(o, numRemaining, before);
      var p, prevEqual, nextEqual := BsearchInsert(slots[1], slots[2..numRemaining + 1]);
      var index := 1 + p;
      MoveFirst(index);
      SetFlags(index, prevEqual, nextEqual);
      RotatedFlags(o, index, moved, prevEqual, nextEqual, Trees());
      Reinserted(o, numRemaining, before, index, moved, prevEqual, nextEqual, Trees());
    }

    /** `advance_and_resort_min_ritor`: the first of the remaining items is consumed. */
    method AdvanceAndResortMinRitor()
      requires Valid() && 0 < numRemaining
      modifies this`numRemaining, this`rems, slots
      ensures Valid()
      ensures old(Items(rems)) != [] && Items(rems) == old(Items(rems))[1..]
      ensures TotalLength(rems) < old(TotalLength(rems))
    {
      hide Items;
      ghost var o, n, before := Trees(), numRemaining, rems;
      ConsumeFirst(o, n, rems);
      rems := rems[slots[1].seqNo := slots[1].itor[1..]];
      slots[1] := slots[1].(nextKeyEqual := false, curr := None);
      slots[1] := slots[1].(itor := slots[1].itor[1..]);
      if slots[1].itor == [] {
        numRemaining := numRemaining - 1;
        MoveFirst(numRemaining);
        ExhaustFirst(o, n, before, Trees());
      } else {
        slots[1] := slots[1].(curr := Some(slots[1].itor[0]));
        if numRemaining == 1 {
          ReplaceOnly(o, before, Trees());
        } else {
          ResortFirst(o, before);
        }
      }
    }

    /** What the iterator still produces, the current pair included. */
    ghost function Pending(): seq<Pair>
      reads this
    {
      if !canNext || currKey.None? || currData.None? then []
      else
        var items := Items(rems);
        [Pair(currKey.value, currData.value)] + Output(cfg, mode, if items == [] then [] else items[1..])
    }

    ghost predicate AtPair()
      reads this, slots
    {
      Valid() && (canNext ==> 0 < numRemaining && currKey.Some? && currData.Some?)
    }

    /** One round of `merge_resolve_equal_keys`: merge the next older message and move on to it. */
    method MergeOlder()
      requires Valid() && 0 < numRemaining && Trees()[0].nextKeyEqual
      requires Items(rems) != [] && currKey == Some(Items(rems)[0].key)
      modifies this`numRemaining, this`rems, this`currKey, this`mergeBuffer, slots
      ensures Valid() && 0 < numRemaining < slots.Length && currKey == old(currKey)
      ensures 2 <= |old(Items(rems))| && Items(rems) == old(Items(rems))[1..]
      ensures var next := old(Items(rems))[1];
        next.key == currKey.value && mergeBuffer == MergeTuples(cfg, next.key, next.msg, old(mergeBuffer))
    {
      NextIsEqual(Trees(), numRemaining, rems);
      FirstItem(Trees(), numRemaining, rems);
      SecondItem(Trees(), numRemaining, rems);
      assert slots[2] == Trees()[1];
      mergeBuffer := MergeTuples(cfg, currKey.value, slots[2].curr.value.msg, mergeBuffer);
      currKey := Some(slots[2].curr.value.key);
      AdvanceAndResortMinRitor();
      StillLive(Trees(), numRemaining, rems);
    }

    /** `merge_resolve_equal_keys`: fold the whole first group and stop at its last item. */
    method MergeResolveEqualKeys()
      requires Valid() && 0 < numRemaining && Trees()[0].nextKeyEqual
      requires Items(rems) != [] && currKey == Some(Items(rems)[0].key) && currData == Some(Items(rems)[0].msg)
      modifies this`numRemaining, this`rems, this`currKey, this`currData, this`mergeBuffer, this`currInBuffer, slots
      ensures Valid() && 0 < numRemaining
      ensures currKey == old(currKey) && currInBuffer && currData == Some(mergeBuffer)
      ensures GroupFolded(cfg, old(Items(rems)), Items(rems), mergeBuffer)
    {
      hide Arranged, Items;
      ghost var items, j := Items(rems), 0;
      mergeBuffer := currData.value;
      FoldedStart(cfg, items);
      MergeOlder();
      FoldedStep(cfg, items, j, items, items[0].msg, Items(rems), mergeBuffer);
      j := 1;
      while slots[1].nextKeyEqual
        invariant Valid() && 0 < numRemaining < slots.Length && currKey == Some(items[0].key)
        invariant Folded(cfg, items, j, Items(rems), mergeBuffer)
        decreases |items| - j
      {
        ghost var rest, buffer := Items(rems), mergeBuffer;
        MergeOlder();
        FoldedStep(cfg, items, j, rest, buffer, Items(rems), mergeBuffer);
        j := j + 1;
      }
      FoldedEnd(cfg, Trees(), numRemaining, rems, items, j, mergeBuffer);
      currData := Some(mergeBuffer);
      currInBuffer := true;
    }

    /** `merge_finalize_updates_and_discard_deletes`. */
    method MergeFinalizeUpdatesAndDiscardDeletes() returns (discarded: bool)
      requires currKey.Some? && currData.Some? && (currInBuffer ==> currData == Some(mergeBuffer))
      modifies this`currData, this`currInBuffer, this`mergeBuffer, this`discardedDeletes
      ensures currData == Some(if finalizeUpdates && old(currData.value).cls == Update
                               then cfg.mergeTuplesFinal(currKey.value, old(currData.value))
                               else old(currData.value))
      ensures discarded == (currData.value.cls == Delete && !emitDeletes)
      ensures discardedDeletes == old(discardedDeletes) + (if discarded then 1 else 0)
      ensures currInBuffer ==> currData == Some(mergeBuffer)
    {
      var cls := currData.value.cls;
      if cls != Insert && finalizeUpdates {
        if !currInBuffer {
          mergeBuffer := currData.value;
        }
        mergeBuffer := MergeTuplesFinal(cfg, currKey.value, mergeBuffer);
        currData := Some(mergeBuffer);
        currInBuffer := true;
        cls := currData.value.cls;
      }
      if cls == Delete && !emitDeletes {
        discardedDeletes := discardedDeletes + 1;
        discarded := true;
      } else {
        discarded := false;
      }
    }

    /** `advance_one_loop`: what it makes current, and what is left, is what the remaining items stand for. */
    method AdvanceOneLoop() returns (retry: bool)
      requires Valid()
      modifies this, slots
      ensures Valid()
      ensures canNext == (old(canNext) && old(numRemaining) != 0)
      ensures old(numRemaining) == 0 ==> !retry && Items(rems) == old(Items(rems)) == []
      ensures old(numRemaining) != 0 ==>
        && 0 < numRemaining && currKey.Some? && currData.Some? && Items(rems) != []
        && |Items(rems)| <= |old(Items(rems))|
        && Output(cfg, mode, old(Items(rems)))
           == (if retry then [] else [Pair(currKey.value, currData.value)]) + Output(cfg, mode, Items(rems)[1..])
    {
      hide Output, Arranged, AllSorted, Items, GroupFolded;
      retry := false;
      if numRemaining == 0 {
        NothingRemains(Trees(), rems);
        canNext := false;
        return;
      }
      ghost var items := Items(rems);
      FirstCurrent(Trees(), numRemaining, rems);
      assert Trees()[0] == slots[1];
      currKey := Some(slots[1].curr.value.key);
      currData := Some(slots[1].curr.value.msg);
      currInBuffer := false;
      if !mergeMessages {
        RawStep(cfg, items);
        return;
      }
      if slots[1].nextKeyEqual {
        MergeResolveEqualKeys();
      } else {
        SingleItem(cfg, Trees(), numRemaining, rems);
      }
      ghost var folded := currData.value;
      assert GroupFolded(cfg, items, Items(rems), folded);
      var discarded := MergeFinalizeUpdatesAndDiscardDeletes();
      GroupStep(cfg, mode, items, Items(rems), folded);
      retry := discarded;
    }

    /** `merge_next`: on to the next pair that is not discarded. */
    method MergeNext()
      requires AtPair() && canNext
      modifies this, slots
      ensures AtPair()
      ensures old(Pending()) != [] && Pending() == old(Pending())[1..]
    {
      hide Arranged, Output, GroupFold, FinalizeAll;
      StillItems(Trees(), numRemaining, rems);
      ghost var rest := Output(cfg, mode, Items(rems)[1..]);
      assert old(Pending())[1..] == rest;
      var retry := true;
      while retry
        invariant Valid() && canNext == (retry || canNext)
        invariant retry ==> 0 < numRemaining && Items(rems) != [] && Output(cfg, mode, Items(rems)[1..]) == rest
        invariant !retry ==> AtPair() && Pending() == rest
        decreases if retry then |Items(rems)| + 1 else 0
      {
        currKey, currData := None, None;
        AdvanceAndResortMinRitor();
        ghost var items, n := Items(rems), numRemaining;
        retry := AdvanceOneLoop();
        if n == 0 {
          NothingLeft(cfg, mode);
        } else if !retry {
          assert Pending() == [Pair(currKey.value, currData.value)] + Output(cfg, mode, Items(rems)[1..]);
        }
      }
    }

    /** Every pair the iterator produces, from the beginning to `!merge_can_next`. */
    method Drain() returns (out: seq<Pair>)
      requires AtPair()
      modifies this, slots
      ensures out == old(Pending())
    {
      hide Arranged, Output, Items;
      out := [];
      ghost var all := Pending();
      assert out + Pending() == all;
      while canNext
        invariant AtPair() && out + Pending() == all
        decreases |Pending()|
      {
        ghost var pending := Pending();
        var pair := Pair(currKey.value, currData.value);
        assert pending == [pair] + pending[1..];
        MergeNext();
        assert out + pending == (out + [pair]) + pending[1..];
        out := out + [pair];
      }
    }

    /** Swap two array elements; the array still holds the same inputs. */
    method SwapTrees(i: nat, j: nat)
      requires i < slots.Length - 1 && j < slots.Length - 1
      modifies slots
      ensures Trees() == Swapped(old(Trees()), i, j)
    {
      var tmp := slots[j + 1];
      slots[j + 1] := slots[i + 1];
      slots[i + 1] := tmp;
    }

    /** `setup_ordered_iterators`, first loop: exhausted inputs go to the end. */
    method PartitionLive()
      requires slots.Length >= 1 && Prepared(Trees(), |Trees()|, 0, rems)
      modifies this`numRemaining, this`canNext, slots
      ensures Prepared(Trees(), numRemaining, numRemaining, rems)
      ensures canNext == (0 < numRemaining)
    {
      hide Prepared;
      canNext := false;
      numRemaining := slots.Length - 1;
      var i := 0;
      while i < numRemaining
        invariant 0 <= i <= numRemaining <= slots.Length - 1
        invariant Prepared(Trees(), numRemaining, i, rems)
        invariant canNext == (0 < i)
        decreases numRemaining - i
      {
        ghost var o := Trees();
        if slots[i + 1].itor != [] {
          canNext := true;
        }
        if slots[i + 1].itor == [] {
          SwapTrees(i, numRemaining - 1);
          numRemaining := numRemaining - 1;
          PreparedDead(o, numRemaining + 1, i, rems);
        } else {
          slots[i + 1] := slots[i + 1].(curr := Some(slots[i + 1].itor[0]));
          PreparedLive(o, Trees(), numRemaining, i, rems);
          i := i + 1;
        }
      }
    }

    /** In place of `platform_sort_slow`, whose body is not part of this model. */
    method SortLive()
      requires slots.Length >= 1 && Prepared(Trees(), numRemaining, numRemaining, rems)
      modifies slots
      ensures Sorting(Trees(), numRemaining, numRemaining, numRemaining, rems)
    {
      hide Prepared, Sorting;
      SortingStart(Trees(), numRemaining, rems);
      for i := 0 to numRemaining
        invariant numRemaining < slots.Length && Sorting(Trees(), numRemaining, i, i, rems)
      {
        SortingOne(Trees(), numRemaining, i, rems);
        for m := i + 1 to numRemaining
          invariant Sorting(Trees(), numRemaining, i, m, rems)
        {
          ghost var o := Trees();
          SortingPair(o, numRemaining, i, m, rems);
          var (cmp, keysEqual) := BsearchComp(slots[m + 1], slots[i + 1]);
          if cmp < 0 {
            SwapTrees(i, m);
            SortingSwap(o, numRemaining, i, m, rems);
          } else {
            SortingKeep(o, numRemaining, i, m, rems);
          }
        }
        SortingNext(Trees(), numRemaining, i, rems);
      }
    }

    /** `setup_ordered_iterators`, third loop: mark the neighbours that hold the same key. */
    method MarkEqualKeys()
      requires slots.Length >= 1 && Sorting(Trees(), numRemaining, numRemaining, numRemaining, rems)
      modifies slots
      ensures Arranged(Trees(), numRemaining, rems)
    {
      hide Sorting, Arranged, Marking;
      MarkingStart(Trees(), numRemaining, rems);
      var i := 0;
      while i + 1 < numRemaining
        invariant 0 <= i && numRemaining < slots.Length && (i < numRemaining || i == 0)
        invariant Marking(Trees(), numRemaining, i, rems)
      {
        ghost var o := Trees();
        MarkingPair(o, numRemaining, i, rems);
        var cmp := slots[i + 1].curr.value.key - slots[i + 2].curr.value.key;
        slots[i + 1] := slots[i + 1].(nextKeyEqual := cmp == 0);
        MarkingStep(o, Trees(), numRemaining, i, rems);
        i := i + 1;
      }
      MarkingEnd(Trees(), numRemaining, i, rems);
    }

    /** `setup_ordered_iterators`. */
    method SetupOrderedIterators()
      requires slots.Length >= 1 && Prepared(Trees(), |Trees()|, 0, rems) && AllSorted(rems)
      requires mergeMessages == (mode != Raw) && finalizeUpdates == (mode == Full) && emitDeletes == (mode != Full)
      modifies this, slots
      ensures AtPair() && Pending() == old(Merged(cfg, mode, rems))
    {
      hide Prepared, Sorting, Arranged, Output, Items;
      PartitionLive();
      SortLive();
      MarkEqualKeys();
      NothingLeft(cfg, mode);
      var retry := AdvanceOneLoop();
      if retry {
        MergeNext();
      }
    }

    /** `merge_iterator_create` once its arguments have been accepted. */
    constructor (cfg: Config, inputs: seq<seq<Pair>>, mode: Mode)
      requires AllSorted(inputs)
      ensures AtPair() && fresh(slots) && this.cfg == cfg
      ensures Pending() == Merged(cfg, mode, inputs)
    {
      this.cfg := cfg;
      mergeMessages := mode != Raw;
      finalizeUpdates := mode == Full;
      emitDeletes := mode != Full;
      this.mode := mode;
      numRemaining, canNext, currInBuffer, discardedDeletes := 0, false, false, 0;
      currKey, currData, mergeBuffer := None, None, Message(Insert, "");
      slots := new Ordered[|inputs| + 1](i requires 0 <= i <= |inputs| =>
        Ordered(i - 1, if i == 0 then [] else inputs[i - 1], None, false));
      rems := inputs;
      new;
      hide Prepared, Arranged, Output, Items;
      assert forall i | 0 <= i < |inputs| :: Trees()[i] == Ordered(i, inputs[i], None, false);
      PreparedStart(Trees(), rems);
      SetupOrderedIterators();
    }
  }

  /** The items up to and including j have one key, and m is their fold. */
  ghost predicate Folded(cfg: Config, items: seq<Item>, j: nat, rest: seq<Item>, m: Message) {
    && j < |items| && rest == items[j..]
    && (forall i | 0 <= i <= j :: items[i].key == items[0].key)
    && m == Fold(cfg, items[0].key, items[..j + 1])
  }

  /** The first group has been consumed up to its last item, and m is its fold. */
  ghost predicate GroupFolded(cfg: Config, items: seq<Item>, rest: seq<Item>, m: Message) {
    items != [] && var g := GroupLength(items); rest == items[g - 1..] && m == Fold(cfg, items[0].key, items[..g])
  }

  lemma FoldedStart(cfg: Config, items: seq<Item>)
    requires items != []
    ensures Folded(cfg, items, 0, items, items[0].msg)
  {
    assert items[..1] == [items[0]];
  }

  lemma FoldedStep(cfg: Config, items: seq<Item>, j: nat, rest: seq<Item>, m: Message, rest': seq<Item>, m': Message)
    requires Folded(cfg, items, j, rest, m) && 2 <= |rest| && rest' == rest[1..]
    requires rest[1].key == items[0].key && m' == MergeTuples(cfg, items[0].key, rest[1].msg, m)
    ensures Folded(cfg, items, j + 1, rest', m')
  {
    assert items[j + 1] == rest[1];
    assert items[..j + 2][..j + 1] == items[..j + 1];
  }

  lemma NextIsEqual(o: seq<Ordered>, n: nat, rems: seq<seq<Pair>>)
    requires 0 < n && Arranged(o, n, rems) && o[0].nextKeyEqual
    ensures 2 <= n && Positioned(o[0]) && Positioned(o[1]) && SameKey(o[0], o[1])
  {
    assert o[..n][0] == o[0];
    assert n >= 2;
    assert o[..n][1] == o[1] && o[..n][0].nextKeyEqual == SameKey(o[..n][0], o[..n][1]);
  }

  lemma StillLive(o: seq<Ordered>, n: nat, rems: seq<seq<Pair>>)
    requires Arranged(o, n, rems) && Items(rems) != []
    ensures 0 < n && Positioned(o[0])
  {
    if n == 0 {
      NoItems(o, rems);
      assert false;
    }
    assert o[..n][0] == o[0];
  }

  /** When the first iterator's flag is clear, its item is the last of its key. */
  lemma GroupEnds(o: seq<Ordered>, n: nat, rems: seq<seq<Pair>>, items: seq<Item>, j: nat)
    requires 0 < n && Arranged(o, n, rems) && AllSorted(rems) && !o[0].nextKeyEqual
    requires j < |items| && Items(rems) == items[j..]
    requires forall i | 0 <= i <= j :: items[i].key == items[0].key
    ensures GroupLength(items) == j + 1
  {
    ConsumeFirst(o, n, rems);
    FirstItem(o, n, rems);
    var w := o[0].seqNo;
    var next: seq<seq<Pair>> := rems[w := rems[w][1..]];
    var k := items[j].key;
    forall t | 0 <= t < |next| && next[t] != [] ensures k + 1 <= next[t][0].key {
      assert Holds(o, t);
      var i :| 0 <= i < |o| && o[i].seqNo == t;
      assert o[..n][0] == o[0];
      if t != w {
        assert o[..n][i] == o[i] && InOrder(o[..n][0], o[..n][i]);
        assert o[..n][0].nextKeyEqual == SameKey(o[..n][0], o[..n][1]);
        if i > 1 {
          assert InOrder(o[..n][1], o[..n][i]);
        }
      }
    }
    ItemsAbove(next, k + 1);
    assert items[j + 1..] == items[j..][1..];
    GroupBoundary(items, j + 1);
  }

  lemma FoldedEnd(cfg: Config, o: seq<Ordered>, n: nat, rems: seq<seq<Pair>>, items: seq<Item>, j: nat, m: Message)
    requires 0 < n && Arranged(o, n, rems) && AllSorted(rems) && !o[0].nextKeyEqual
    requires Folded(cfg, items, j, Items(rems), m)
    ensures GroupFolded(cfg, items, Items(rems), m)
  {
    GroupEnds(o, n, rems, items, j);
  }

  lemma {:induction false} GroupBoundary(items: seq<Item>, n: nat)
    requires 0 < n <= |items|
    requires forall i | 0 <= i < n :: items[i].key == items[0].key
    requires n < |items| ==> items[n].key != items[0].key
    ensures GroupLength(items) == n
  {
  }

  lemma SingleItem(cfg: Config, o: seq<Ordered>, n: nat, rems: seq<seq<Pair>>)
    requires 0 < n && Arranged(o, n, rems) && AllSorted(rems) && !o[0].nextKeyEqual && Items(rems) != []
    ensures GroupFolded(cfg, Items(rems), Items(rems), Items(rems)[0].msg)
  {
    FoldedStart(cfg, Items(rems));
    FoldedEnd(cfg, o, n, rems, Items(rems), 0, Items(rems)[0].msg);
  }

  lemma NothingRemains(o: seq<Ordered>, rems: seq<seq<Pair>>)
    requires Arranged(o, 0, rems)
    ensures Items(rems) == []
  {
    NoItems(o, rems);
  }

  /** The first iterator stands at the first of the remaining items. */
  lemma FirstCurrent(o: seq<Ordered>, n: nat, rems: seq<seq<Pair>>)
    requires 0 < n && Arranged(o, n, rems) && AllSorted(rems)
    ensures o != [] && Items(rems) != [] && o[0].curr.Some?
    ensures o[0].curr.value == Pair(Items(rems)[0].key, Items(rems)[0].msg)
  {
    FirstItem(o, n, rems);
  }

  lemma RawStep(cfg: Config, items: seq<Item>)
    requires items != []
    ensures Output(cfg, Raw, items) == [Pair(items[0].key, items[0].msg)] + Output(cfg, Raw, items[1..])
  {
  }

  /** The first group contributes its fold, resolved and possibly dropped in a FULL merge. */
  lemma GroupStep(cfg: Config, mode: Mode, items: seq<Item>, rest: seq<Item>, m: Message)
    requires mode != Raw && GroupFolded(cfg, items, rest, m)
    ensures rest != [] && |rest| <= |items|
    ensures var k := items[0].key;
      var final := if mode == Full then MergeTuplesFinal(cfg, k, m) else m;
      Output(cfg, mode, items)
      == (if mode == Full && final.cls == Delete then [] else [Pair(k, final)]) + Output(cfg, mode, rest[1..])
  {
    var g := GroupLength(items);
    assert rest[1..] == items[g..];
    var folded := GroupFold(cfg, items);
    assert folded == [Pair(items[0].key, m)] + GroupFold(cfg, items[g..]);
    assert folded[1..] == GroupFold(cfg, items[g..]);
  }

  function Swapped(o: seq<Ordered>, i: nat, j: nat): seq<Ordered>
    requires i < |o| && j < |o|
  {
    o[j := o[i]][i := o[j]]
  }

  lemma TiedSwapped(o: seq<Ordered>, n: nat, rems: seq<seq<Pair>>, i: nat, j: nat, n': nat)
    requires Tied(o, n, rems) && i < n && j < n && n' <= n
    requires n' == n || (n' == n - 1 == j && o[i].itor == [])
    ensures Tied(Swapped(o, i, j), n', rems)
  {
    var r := Swapped(o, i, j);
    forall t | 0 <= t < |rems| ensures Holds(r, t) {
      assert Holds(o, t);
      var p :| 0 <= p < |o| && o[p].seqNo == t;
      assert r[if p == i then j else if p == j then i else p].seqNo == t;
    }
  }

  lemma TiedSame(o: seq<Ordered>, r: seq<Ordered>, n: nat, rems: seq<seq<Pair>>)
    requires Tied(o, n, rems) && |r| == |o|
    requires forall i | 0 <= i < |o| :: r[i].seqNo == o[i].seqNo && r[i].itor == o[i].itor
    ensures Tied(r, n, rems)
  {
    forall t | 0 <= t < |rems| ensures Holds(r, t) {
      assert Holds(o, t);
      var p :| 0 <= p < |o| && o[p].seqNo == t;
      assert r[p].seqNo == t;
    }
  }

  /** The array while exhausted inputs are moved to the end: the first i of the first n are positioned. */
  ghost predicate Prepared(o: seq<Ordered>, n: nat, i: nat, rems: seq<seq<Pair>>) {
    && Tied(o, n, rems) && i <= n
    && (forall j | 0 <= j < i :: Positioned(o[j]))
    && (forall j | 0 <= j < |o| :: !o[j].nextKeyEqual)
  }

  lemma PreparedStart(o: seq<Ordered>, inputs: seq<seq<Pair>>)
    requires |o| == |inputs| && forall i | 0 <= i < |o| :: o[i] == Ordered(i, inputs[i], None, false)
    ensures Prepared(o, |o|, 0, inputs)
  {
    forall t | 0 <= t < |inputs| ensures Holds(o, t) {
      assert o[t].seqNo == t;
    }
  }

  lemma PreparedDead(o: seq<Ordered>, n: nat, i: nat, rems: seq<seq<Pair>>)
    requires Prepared(o, n, i, rems) && i < n && o[i].itor == []
    ensures Prepared(Swapped(o, i, n - 1), n - 1, i, rems)
  {
    TiedSwapped(o, n, rems, i, n - 1, n - 1);
  }

  lemma PreparedLive(o: seq<Ordered>, r: seq<Ordered>, n: nat, i: nat, rems: seq<seq<Pair>>)
    requires Prepared(o, n, i, rems) && i < n && o[i].itor != []
    requires r == o[i := o[i].(curr := Some(o[i].itor[0]))]
    ensures Prepared(r, n, i + 1, rems)
  {
    TiedSame(o, r, n, rems);
  }

  /** The exchange sort has placed the first i elements, and element i is least among those before m. */
  ghost predicate Sorting(o: seq<Ordered>, n: nat, i: nat, m: nat, rems: seq<seq<Pair>>) {
    && Prepared(o, n, n, rems) && i <= m <= n
    && (forall j, k | 0 <= j < i && j < k < n :: InOrder(o[j], o[k]))
    && (forall k | i < k < m :: InOrder(o[i], o[k]))
  }

  lemma SortingStart(o: seq<Ordered>, n: nat, rems: seq<seq<Pair>>)
    requires Prepared(o, n, n, rems)
    ensures Sorting(o, n, 0, 0, rems) && n <= |o|
  {
  }

  lemma SortingOne(o: seq<Ordered>, n: nat, i: nat, rems: seq<seq<Pair>>)
    requires Sorting(o, n, i, i, rems) && i < n
    ensures Sorting(o, n, i, i + 1, rems)
  {
  }

  lemma SortingNext(o: seq<Ordered>, n: nat, i: nat, rems: seq<seq<Pair>>)
    requires Sorting(o, n, i, n, rems) && i < n
    ensures Sorting(o, n, i + 1, i + 1, rems)
  {
  }

  lemma SortingPair(o: seq<Ordered>, n: nat, i: nat, m: nat, rems: seq<seq<Pair>>)
    requires Sorting(o, n, i, m, rems) && i < m < n
    ensures Positioned(o[i]) && Positioned(o[m]) && o[i].seqNo != o[m].seqNo
  {
  }

  lemma SortingKeep(o: seq<Ordered>, n: nat, i: nat, m: nat, rems: seq<seq<Pair>>)
    requires Sorting(o, n, i, m, rems) && i < m < n && Positioned(o[i]) && Positioned(o[m]) && InOrder(o[i], o[m])
    ensures Sorting(o, n, i, m + 1, rems)
  {
  }

  lemma SortingSwap(o: seq<Ordered>, n: nat, i: nat, m: nat, rems: seq<seq<Pair>>)
    requires Sorting(o, n, i, m, rems) && i < m < n && Positioned(o[i]) && Positioned(o[m]) && InOrder(o[m], o[i])
    ensures Sorting(Swapped(o, i, m), n, i, m + 1, rems)
  {
    TiedSwapped(o, n, rems, i, m, n);
    SwapKeepsOrder(o, n, i, m);
  }

  /** The flags before i are set, the others are still clear. */
  ghost predicate Marking(o: seq<Ordered>, n: nat, i: nat, rems: seq<seq<Pair>>) {
    && Tied(o, n, rems) && SortedRange(o[..n])
    && (forall j, k | 0 <= j && k == j + 1 < n && j < i :: o[j].nextKeyEqual == SameKey(o[..n][j], o[..n][k]))
    && (forall j | i <= j < |o| :: !o[j].nextKeyEqual)
  }

  lemma MarkingStart(o: seq<Ordered>, n: nat, rems: seq<seq<Pair>>)
    requires Sorting(o, n, n, n, rems)
    ensures Marking(o, n, 0, rems) && n <= |o|
  {
    forall j, k | 0 <= j < k < n
      ensures Positioned(o[..n][j]) && Positioned(o[..n][k]) && InOrder(o[..n][j], o[..n][k])
    {
      assert InOrder(o[j], o[k]);
    }
    forall j | 0 <= j < n ensures Positioned(o[..n][j]) {
      assert Positioned(o[j]);
    }
  }

  lemma MarkingPair(o: seq<Ordered>, n: nat, i: nat, rems: seq<seq<Pair>>)
    requires Marking(o, n, i, rems) && i + 1 < n
    ensures n <= |o| && Positioned(o[i]) && Positioned(o[i + 1])
  {
    assert o[..n][i] == o[i] && o[..n][i + 1] == o[i + 1];
  }

  lemma MarkingStep(o: seq<Ordered>, r: seq<Ordered>, n: nat, i: nat, rems: seq<seq<Pair>>)
    requires Marking(o, n, i, rems) && i + 1 < n && Positioned(o[i]) && Positioned(o[i + 1])
    requires r == o[i := o[i].(nextKeyEqual := SameKey(o[i], o[i + 1]))]
    ensures Marking(r, n, i + 1, rems)
  {
    TiedSame(o, r, n, rems);
    forall j | 0 <= j < n ensures Positioned(r[..n][j]) {
      assert Positioned(o[..n][j]);
    }
    forall j, k | 0 <= j < k < n ensures InOrder(r[..n][j], r[..n][k]) {
      assert InOrder(o[..n][j], o[..n][k]);
    }
    forall j, k | 0 <= j && k == j + 1 < n && j < i + 1
      ensures r[j].nextKeyEqual == SameKey(r[..n][j], r[..n][k])
    {
      assert j < i ==> o[j].nextKeyEqual == SameKey(o[..n][j], o[..n][k]);
    }
  }

  lemma MarkingEnd(o: seq<Ordered>, n: nat, i: nat, rems: seq<seq<Pair>>)
    requires Marking(o, n, i, rems) && i + 1 >= n && (i < n || i == 0)
    ensures Arranged(o, n, rems)
  {
  }

  lemma SwapKeepsOrder(o: seq<Ordered>, n: nat, i: nat, m: nat)
    requires i < m < n <= |o|
    requires forall j | 0 <= j < n :: Positioned(o[j])
    requires forall j, k | 0 <= j < i && j < k < n :: InOrder(o[j], o[k])
    requires forall k | i < k < m :: InOrder(o[i], o[k])
    requires InOrder(o[m], o[i])
    ensures var r := Swapped(o, i, m);
      && (forall j | 0 <= j < n :: Positioned(r[j]))
      && (forall j, k | 0 <= j < i && j < k < n :: InOrder(r[j], r[k]))
      && (forall k | i < k <= m :: InOrder(r[i], r[k]))
  {
  }

  lemma StillItems(o: seq<Ordered>, n: nat, rems: seq<seq<Pair>>)
    requires 0 < n && Arranged(o, n, rems) && AllSorted(rems)
    ensures Items(rems) != []
  {
    ConsumeFirst(o, n, rems);
  }

  lemma NothingLeft(cfg: Config, mode: Mode)
    ensures Output(cfg, mode, []) == []
  {
  }

  function WithFlags(o: seq<Ordered>, index: nat, prevEqual: bool, nextEqual: bool, i: nat): Ordered
    requires i < |o|
  {
    if i + 1 == index then o[i].(nextKeyEqual := prevEqual)
    else if i == index then o[i].(nextKeyEqual := nextEqual)
    else o[i]
  }

  lemma RotatedFlags(o: seq<Ordered>, index: nat, moved: Ordered, prevEqual: bool, nextEqual: bool, r: seq<Ordered>)
    requires index < |o| == |r|
    requires forall i | 0 <= i < |r| :: r[i] == WithFlags(Rotated(o, index, moved), index, prevEqual, nextEqual, i)
    ensures IsReinserted(o, index, moved, prevEqual, nextEqual, r)
  {
    var u := Rotated(o, index, moved);
    forall i | 0 <= i < |r| ensures r[i] == ReinsertedAt(o, index, moved, prevEqual, nextEqual, i) {
      assert u[i] == if i < index then o[i + 1] else if i == index then moved else o[i];
    }
  }

  lemma OthersDiffer(o: seq<Ordered>, n: nat, rems: seq<seq<Pair>>)
    requires 0 < n && Tied(o, n, rems)
    ensures forall i | 0 <= i < n - 1 :: o[..n][1..][i].seqNo != o[0].seqNo
  {
    forall i | 0 <= i < n - 1 ensures o[..n][1..][i].seqNo != o[0].seqNo {
      assert o[..n][1..][i] == o[i + 1];
    }
  }

  ghost predicate Arranged(o: seq<Ordered>, n: nat, rems: seq<seq<Pair>>) {
    Tied(o, n, rems) && SortedRange(o[..n]) && Flagged(o[..n])
  }

  lemma ConsumeFirst(o: seq<Ordered>, n: nat, rems: seq<seq<Pair>>)
    requires 0 < n && Arranged(o, n, rems) && AllSorted(rems)
    ensures 0 <= o[0].seqNo < |rems| && o[0].itor != [] && Positioned(o[0])
    ensures var next := rems[o[0].seqNo := o[0].itor[1..]];
      && Items(rems) != [] && Items(next) == Items(rems)[1..]
      && TotalLength(next) < TotalLength(rems) && AllSorted(next)
  {
    FirstItem(o, n, rems);
    TotalLengthDrop(rems, o[0].seqNo);
    SortedTail(rems, o[0].seqNo);
  }

  lemma ExhaustFirst(o: seq<Ordered>, n: nat, rems: seq<seq<Pair>>, r: seq<Ordered>)
    requires 0 < n && Arranged(o, n, rems) && |o[0].itor| == 1
    requires r == Rotated(o, n - 1, Ordered(o[0].seqNo, [], None, false))
    ensures Arranged(r, n - 1, rems[o[0].seqNo := []])
  {
    TiedRotated(o, n, rems, n - 1, Ordered(o[0].seqNo, [], None, false), n - 1);
    assert r[..n - 1] == o[..n][1..];
    DropFirst(o[..n], r[..n - 1]);
  }

  lemma ReplaceOnly(o: seq<Ordered>, rems: seq<seq<Pair>>, r: seq<Ordered>)
    requires Arranged(o, 1, rems) && |o[0].itor| > 1
    requires r == o[0 := Ordered(o[0].seqNo, o[0].itor[1..], Some(o[0].itor[1]), false)]
    ensures Arranged(r, 1, rems[o[0].seqNo := o[0].itor[1..]])
  {
    assert o[..1][0] == o[0] && Positioned(o[..1][0]);
    assert IsReinserted(o, 0, r[0], false, false, r);
    ReinsertTied(o, 1, rems, 0, r[0], false, false, r);
  }

  lemma DropFirst(o: seq<Ordered>, r: seq<Ordered>)
    requires o != [] && SortedRange(o) && Flagged(o) && r == o[1..]
    ensures SortedRange(r) && Flagged(r)
  {
    forall i, j | 0 <= i < j < |r| ensures Positioned(r[i]) && Positioned(r[j]) && InOrder(r[i], r[j]) {
      assert InOrder(o[i + 1], o[j + 1]);
    }
    forall i | 0 <= i < |r| ensures Positioned(r[i]) {
      assert Positioned(o[i + 1]);
    }
    forall i, j | 0 <= i && j == i + 1 < |r| ensures r[i].nextKeyEqual == SameKey(r[i], r[j]) {
      assert o[i + 1].nextKeyEqual == SameKey(o[i + 1], o[j + 1]);
    }
  }

  lemma Reinserted(o: seq<Ordered>, n: nat, rems: seq<seq<Pair>>, index: nat, moved: Ordered,
                   prevEqual: bool, nextEqual: bool, r: seq<Ordered>)
    requires index < n && Tied(o, n, rems) && o[0].itor != [] && moved.itor != []
    requires moved.seqNo == o[0].seqNo && moved.itor == o[0].itor[1..]
    requires IsReinserted(o, index, moved, prevEqual, nextEqual, r)
    requires Positioned(moved) && SortedRange(o[..n]) && Flagged(o[..n]) && SortedRange(o[..n][1..])
    requires forall i | 0 <= i < index :: InOrder(o[..n][1..][i], moved)
    requires forall i | index <= i < n - 1 :: InOrder(moved, o[..n][1..][i])
    requires prevEqual == (1 <= index && SameKey(o[..n][1..][index - 1], moved))
    requires nextEqual == (index + 1 < n && SameKey(o[..n][1..][index], moved))
    ensures Tied(r, n, rems[o[0].seqNo := moved.itor])
    ensures SortedRange(r[..n]) && Flagged(r[..n])
  {
    var live := o[..n];
    forall i | 1 <= i <= index ensures Positioned(live[i]) && InOrder(live[i], moved) {
      assert live[1..][i - 1] == live[i];
    }
    forall i | index < i < n ensures Positioned(live[i]) && InOrder(moved, live[i]) {
      assert live[1..][i - 1] == live[i];
    }
    assert Fits(live, index, moved, prevEqual, nextEqual);
    forall i | 0 <= i < n ensures r[..n][i] == ReinsertedAt(live, index, moved, prevEqual, nextEqual, i) {
      assert r[i] == ReinsertedAt(o, index, moved, prevEqual, nextEqual, i);
    }
    ReinsertSorted(live, index, moved, prevEqual, nextEqual, r[..n]);
    ReinsertFlagged(live, index, moved, prevEqual, nextEqual, r[..n]);
    ReinsertTied(o, n, rems, index, moved, prevEqual, nextEqual, r);
  }

  const MAX_MERGE_ARITY := 1024

  /**
    A whole forward run: `merge_iterator_create`, then `merge_curr` and
    `merge_next` while `merge_can_next`. Too many inputs are refused.
   */
  method MergeAll(cfg: Config, inputs: seq<seq<Pair>>, mode: Mode) returns (out: Option<seq<Pair>>)
    requires AllSorted(inputs)
    ensures out == if |inputs| >= MAX_MERGE_ARITY then None else Some(Merged(cfg, mode, inputs))
    ensures out.Some? && mode == Full ==>
      && StrictlySorted(out.value)
      && forall k :: Lookup(out.value, k) == Resolved(cfg, k, FoldMessages(cfg, k, Messages(inputs, k)))
  {
    hide Merged, Resolved, FoldMessages, Messages, Lookup;
    if |inputs| >= MAX_MERGE_ARITY {
      return None;
    }
    var itor := new Iterator(cfg, inputs, mode);
    var pairs := itor.Drain();
    FullMeaning(cfg, inputs);
    return Some(pairs);
  }
}
