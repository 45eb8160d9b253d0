/**
  The byte layer of leaves refines the tree layer: what an insert does to the pages is the
  update, and the cut, that the tree layer reasons about.
 */
module LeafRefinement {
  import opened Wrappers
  import opened DataConfig
  import opened MergeSpec
  import opened PageLayout
  import L = LeafSearch
  import opened LeafUpdate
  import BTreeShape
  import BTreeScan
  import opened BTreeUpdates
  import opened BTree

  /** How messages on a page are read: `ValueOf` a tuple as a message of the data layer. */
  type Reading = L.Value -> Message

  function Decoded(s: seq<Tuple>, rank: Image -> int, read: Reading): (r: seq<Pair>)
    ensures |r| == |s|
    ensures forall i | 0 <= i < |s| :: r[i] == Pair(rank(s[i].key), read(L.ValueOf(s[i])))
  {
    seq(|s|, i requires 0 <= i < |s| => Pair(rank(s[i].key), read(L.ValueOf(s[i]))))
  }

  /** The merge of stored messages is the merge of the data layer. */
  ghost predicate MergesAlike(cfg: Config, rank: Image -> int, read: Reading,
      merge: (Image, L.Value, L.Value) -> L.Value)
  {
    forall key, old', new' ::
      read(merge(key, old', new')) == MergeTuples(cfg, rank(key), read(old'), read(new'))
  }

  lemma DecodedSorted(s: seq<Tuple>, rank: Image -> int, read: Reading)
    requires L.Sorted(s, rank)
    ensures StrictlySorted(Decoded(s, rank, read))
  {
  }

  /** Looking up a decoded leaf is looking up the leaf as a map. */
  lemma DecodedLookup(s: seq<Tuple>, rank: Image -> int, read: Reading, k: Key)
    requires L.Sorted(s, rank)
    ensures var m := L.Contents(s, rank);
      Lookup(Decoded(s, rank, read), k) == if k in m then Some(read(m[k])) else None
  {
    hide L.Contents, Lookup, L.Sorted;
    var d := Decoded(s, rank, read);
    DecodedSorted(s, rank, read);
    L.ContentsKeys(s, rank, k);
    if i :| 0 <= i < |s| && rank(s[i].key) == k {
      L.ContentsAt(s, rank, i);
      BTreeShape.LookupAt(d, i);
    } else {
      BTreeShape.LookupMissing(d, k);
    }
  }

  /** A leaf whose contents were updated for one key is the tree layer's updated leaf. */
  lemma UpdateRefines(cfg: Config, s: seq<Tuple>, s': seq<Tuple>, key: Image, v: L.Value, rank: Image -> int,
      read: Reading, merge: (Image, L.Value, L.Value) -> L.Value)
    requires L.Sorted(s, rank) && L.Sorted(s', rank) && MergesAlike(cfg, rank, read, merge)
    requires L.Contents(s', rank) == L.Updated(L.Contents(s, rank), key, v, rank, merge)
    ensures var d, k := Decoded(s, rank, read), rank(key);
      PutResult(d, Decoded(s', rank, read), k, Merge(cfg, k, Lookup(d, k), read(v)))
  {
    hide L.Contents, Lookup, L.Sorted;
    var d, d', k := Decoded(s, rank, read), Decoded(s', rank, read), rank(key);
    DecodedSorted(s, rank, read);
    DecodedSorted(s', rank, read);
    forall j ensures Lookup(d', j) == if j == k then Some(Merge(cfg, k, Lookup(d, k), read(v))) else Lookup(d, j) {
      DecodedLookup(s, rank, read, j);
      DecodedLookup(s', rank, read, j);
    }
    SameKeysButOne(d, d', k, Merge(cfg, k, Lookup(d, k), read(v)));
  }

  /** Sorted runs that agree on all lookups but one make a `PutResult`. */
  lemma SameKeysButOne(d: seq<Pair>, d': seq<Pair>, k: Key, v: Message)
    requires StrictlySorted(d) && StrictlySorted(d')
    requires forall j :: Lookup(d', j) == if j == k then Some(v) else Lookup(d, j)
    ensures PutResult(d, d', k, v)
  {
    hide Lookup;
    assert Lookup(d', k) == Some(v);
    var at := BTreeScan.LookupFinds(d', k);
    forall i | 0 <= i < |d'| ensures d'[i].key == k || exists j :: 0 <= j < |d| && d[j].key == d'[i].key {
      BTreeShape.LookupAt(d', i);
      if d'[i].key != k {
        assert Lookup(d', d'[i].key) == Lookup(d, d'[i].key);
        var j := BTreeScan.LookupFinds(d, d'[i].key);
      }
    }
    if d != [] {
      BTreeShape.LookupAt(d, 0);
      if d[0].key != k {
        assert Lookup(d', d[0].key) == Lookup(d, d[0].key);
        var first := BTreeScan.LookupFinds(d', d[0].key);
      }
    }
  }

  /** A leaf split on the pages is a cut of the updated leaf at a key that becomes the pivot. */
  lemma SplitRefines(cfg: Config, s: seq<Tuple>, left: seq<Tuple>, right: seq<Tuple>, pivot: Image, key: Image,
      v: L.Value, rank: Image -> int, read: Reading, merge: (Image, L.Value, L.Value) -> L.Value)
    requires L.Sorted(s, rank) && L.Sorted(left + right, rank) && MergesAlike(cfg, rank, read, merge)
    requires L.Contents(left + right, rank) == L.Updated(L.Contents(s, rank), key, v, rank, merge)
    requires left != [] && IsFirstKey(pivot, right, rank)
    ensures var d, d', k, t := Decoded(s, rank, read), Decoded(left + right, rank, read), rank(key), |left|;
      && PutResult(d, d', k, Merge(cfg, k, Lookup(d, k), read(v)))
      && 0 < t < |d'| && d'[t].key == rank(pivot)
      && d'[..t] == Decoded(left, rank, read) && d'[t..] == Decoded(right, rank, read)
  {
    hide L.Contents, Lookup, L.Sorted, PutResult;
    UpdateRefines(cfg, s, left + right, key, v, rank, read, merge);
  }
}
