/**
  What a merge of sorted inputs means. Inputs are numbered by age: input
  |inputs| - 1 is the newest.
 */
module MergeSpec {
  import opened Wrappers
  import opened DataConfig

  datatype Mode = Raw | Intermediate | Full

  /** A pair together with the number of the input it comes from. */
  datatype Item = Item(key: Key, seqNo: nat, msg: Message)

  ghost predicate StrictlySorted(s: seq<Pair>) {
    forall i, j | 0 <= i < j < |s| :: s[i].key < s[j].key
  }

  ghost predicate AllSorted(inputs: seq<seq<Pair>>) {
    forall t | 0 <= t < |inputs| :: StrictlySorted(inputs[t])
  }

  /** `bsearch_comp`, forwards: by key, and the newer input first. */
  predicate Before(k1: Key, t1: nat, k2: Key, t2: nat) {
    k1 < k2 || (k1 == k2 && t1 > t2)
  }

  function TotalLength(rems: seq<seq<Pair>>): nat {
    if rems == [] then 0 else |rems[0]| + TotalLength(rems[1..])
  }

  predicate Exhausted(rems: seq<seq<Pair>>) {
    forall t | 0 <= t < |rems| :: rems[t] == []
  }

  /** The input whose head comes first among the heads of all inputs. */
  function Winner(rems: seq<seq<Pair>>): (w: nat)
    requires !Exhausted(rems)
    ensures w < |rems| && rems[w] != []
    ensures forall t | 0 <= t < |rems| && t != w && rems[t] != [] ::
      Before(rems[w][0].key, w, rems[t][0].key, t)
  {
    var n := |rems| - 1;
    if Exhausted(rems[..n]) then
      assert forall t | 0 <= t < n :: rems[t] == rems[..n][t];
      n
    else
      var w := Winner(rems[..n]);
      assert forall t | 0 <= t < n :: rems[t] == rems[..n][t];
      if rems[n] != [] && rems[n][0].key <= rems[w][0].key then n else w
  }

  lemma TotalLengthDrop(rems: seq<seq<Pair>>, t: nat)
    requires t < |rems| && rems[t] != []
    ensures TotalLength(rems[t := rems[t][1..]]) == TotalLength(rems) - 1
  {
    if t > 0 {
      assert rems[t := rems[t][1..]][1..] == rems[1..][t - 1 := rems[t][1..]];
      TotalLengthDrop(rems[1..], t - 1);
    } else {
      assert rems[0 := rems[0][1..]][1..] == rems[1..];
    }
  }

  /** All pairs of all inputs, by key and then newest first. */
  function Items(rems: seq<seq<Pair>>): seq<Item>
    decreases TotalLength(rems)
  {
    if Exhausted(rems) then []
    else
      var w := Winner(rems);
      TotalLengthDrop(rems, w);
      [Item(rems[w][0].key, w, rems[w][0].msg)] + Items(rems[w := rems[w][1..]])
  }

  /** Length of the run of equal keys at the front. */
  function GroupLength(items: seq<Item>): (n: nat)
    requires items != []
    ensures 1 <= n <= |items|
    ensures forall i | 0 <= i < n :: items[i].key == items[0].key
    ensures n < |items| ==> items[n].key != items[0].key
  {
    if |items| == 1 || items[1].key != items[0].key then 1
    else 1 + GroupLength(items[1..])
  }

  /** Newest first: merge each older message into what has been accumulated. */
  function Fold(cfg: Config, k: Key, items: seq<Item>): Message
    requires items != []
  {
    var n := |items| - 1;
    if n == 0 then items[0].msg
    else MergeTuples(cfg, k, items[n].msg, Fold(cfg, k, items[..n]))
  }

  function RawPairs(items: seq<Item>): seq<Pair> {
    if items == [] then [] else [Pair(items[0].key, items[0].msg)] + RawPairs(items[1..])
  }

  function GroupFold(cfg: Config, items: seq<Item>): seq<Pair>
    decreases |items|
  {
    if items == [] then []
    else
      var n := GroupLength(items);
      [Pair(items[0].key, Fold(cfg, items[0].key, items[..n]))] + GroupFold(cfg, items[n..])
  }

  /** Resolve every remaining UPDATE and drop the deleted keys. */
  function FinalizeAll(cfg: Config, pairs: seq<Pair>): seq<Pair> {
    if pairs == [] then []
    else
      var m := MergeTuplesFinal(cfg, pairs[0].key, pairs[0].msg);
      (if m.cls == Delete then [] else [Pair(pairs[0].key, m)]) + FinalizeAll(cfg, pairs[1..])
  }

  function Output(cfg: Config, mode: Mode, items: seq<Item>): seq<Pair> {
    match mode
    case Raw => RawPairs(items)
    case Intermediate => GroupFold(cfg, items)
    case Full => FinalizeAll(cfg, GroupFold(cfg, items))
  }

  function Merged(cfg: Config, mode: Mode, inputs: seq<seq<Pair>>): seq<Pair> {
    Output(cfg, mode, Items(inputs))
  }

  /* ---- One step of the merge ---- */

  lemma WinnerUnique(rems: seq<seq<Pair>>, w: nat)
    requires w < |rems| && rems[w] != []
    requires forall t | 0 <= t < |rems| && t != w && rems[t] != [] ::
      Before(rems[w][0].key, w, rems[t][0].key, t)
    ensures !Exhausted(rems) && Winner(rems) == w
  {
    assert !Exhausted(rems);
  }

  lemma SortedTail(rems: seq<seq<Pair>>, t: nat)
    requires AllSorted(rems) && t < |rems| && rems[t] != []
    ensures AllSorted(rems[t := rems[t][1..]])
  {
  }

  /** Every remaining head is at or after the first item. */
  lemma {:induction false} ItemsAbove(rems: seq<seq<Pair>>, k: Key)
    requires AllSorted(rems)
    requires forall t | 0 <= t < |rems| && rems[t] != [] :: k <= rems[t][0].key
    ensures forall i | 0 <= i < |Items(rems)| :: k <= Items(rems)[i].key
    decreases TotalLength(rems)
  {
    if !Exhausted(rems) {
      var w := Winner(rems);
      var next := rems[w := rems[w][1..]];
      TotalLengthDrop(rems, w);
      SortedTail(rems, w);
      ItemsAbove(next, k);
    }
  }

  ghost predicate ItemsSorted(items: seq<Item>) {
    forall i, j | 0 <= i < j < |items| :: Before(items[i].key, items[i].seqNo, items[j].key, items[j].seqNo)
  }

  /** After `k` the input `w` has only larger keys, so nothing up to and including (k, w) remains. */
  lemma {:induction false} ItemsAfter(rems: seq<seq<Pair>>, k: Key, w: nat)
    requires AllSorted(rems)
    requires forall t | 0 <= t < |rems| && rems[t] != [] :: Before(k, w, rems[t][0].key, t)
    ensures forall i | 0 <= i < |Items(rems)| :: Before(k, w, Items(rems)[i].key, Items(rems)[i].seqNo)
    decreases TotalLength(rems)
  {
    if !Exhausted(rems) {
      var v := Winner(rems);
      var next := rems[v := rems[v][1..]];
      TotalLengthDrop(rems, v);
      SortedTail(rems, v);
      ItemsAfter(next, k, w);
    }
  }

  lemma {:induction false} ItemsAreSorted(rems: seq<seq<Pair>>)
    requires AllSorted(rems)
    ensures ItemsSorted(Items(rems))
    decreases TotalLength(rems)
  {
    if !Exhausted(rems) {
      var w := Winner(rems);
      var next := rems[w := rems[w][1..]];
      TotalLengthDrop(rems, w);
      SortedTail(rems, w);
      ItemsAreSorted(next);
      ItemsAfter(next, rems[w][0].key, w);
    }
  }

  lemma SortedSuffix(items: seq<Item>, n: nat)
    requires ItemsSorted(items) && n <= |items|
    ensures ItemsSorted(items[n..]) && ItemsSorted(items[..n])
  {
  }

  /* ---- What the output contains, key by key ---- */

  function Lookup(s: seq<Pair>, k: Key): Option<Message> {
    if s == [] then None
    else if s[0].key == k then Some(s[0].msg)
    else Lookup(s[1..], k)
  }

  /** The messages the inputs hold for `k`, newest input first. */
  function Messages(inputs: seq<seq<Pair>>, k: Key): seq<Message> {
    if inputs == [] then []
    else
      var n := |inputs| - 1;
      (match Lookup(inputs[n], k) case None => [] case Some(m) => [m]) + Messages(inputs[..n], k)
  }

  function FoldMessages(cfg: Config, k: Key, ms: seq<Message>): Option<Message> {
    if ms == [] then None
    else
      var n := |ms| - 1;
      match FoldMessages(cfg, k, ms[..n])
      case None => Some(ms[n])
      case Some(newer) => Some(MergeTuples(cfg, k, ms[n], newer))
  }

  function AtKey(items: seq<Item>, k: Key): seq<Message> {
    if items == [] then []
    else (if items[0].key == k then [items[0].msg] else []) + AtKey(items[1..], k)
  }

  lemma LookupSmaller(s: seq<Pair>, k: Key)
    requires StrictlySorted(s) && (s == [] || k < s[0].key)
    ensures Lookup(s, k) == None
  {
    if s != [] {
      assert s[1..] == [] || k < s[1..][0].key;
      LookupSmaller(s[1..], k);
    }
  }

  /** Advancing an input past a head with another key leaves the messages of `k` alone. */
  lemma {:induction false} MessagesSkip(rems: seq<seq<Pair>>, w: nat, k: Key)
    requires w < |rems| && rems[w] != [] && rems[w][0].key != k
    ensures Messages(rems[w := rems[w][1..]], k) == Messages(rems, k)
  {
    var n := |rems| - 1;
    var next := rems[w := rems[w][1..]];
    if w == n {
      assert next[..n] == rems[..n];
    } else {
      assert next[..n] == rems[..n][w := rems[w][1..]];
      MessagesSkip(rems[..n], w, k);
    }
  }

  /** Consuming the newest head for `k` removes the first of its messages. */
  lemma {:induction false} MessagesTake(rems: seq<seq<Pair>>, w: nat, k: Key)
    requires AllSorted(rems) && w < |rems| && rems[w] != [] && rems[w][0].key == k
    requires forall t | w < t < |rems| && rems[t] != [] :: k < rems[t][0].key
    ensures Messages(rems, k) == [rems[w][0].msg] + Messages(rems[w := rems[w][1..]], k)
  {
    var n := |rems| - 1;
    var next := rems[w := rems[w][1..]];
    if w == n {
      assert next[..n] == rems[..n];
      LookupSmaller(rems[w][1..], k);
    } else {
      assert next[..n] == rems[..n][w := rems[w][1..]];
      assert forall t | 0 <= t < n :: rems[..n][t] == rems[t];
      MessagesTake(rems[..n], w, k);
      LookupSmaller(rems[n], k);
    }
  }

  lemma {:induction false} NoMessages(rems: seq<seq<Pair>>, k: Key)
    requires Exhausted(rems)
    ensures Messages(rems, k) == []
  {
    if rems != [] {
      NoMessages(rems[..|rems| - 1], k);
    }
  }

  /** The items of one key are exactly what the inputs hold for it, newest first. */
  lemma {:induction false} ItemsAtKey(rems: seq<seq<Pair>>, k: Key)
    requires AllSorted(rems)
    ensures AtKey(Items(rems), k) == Messages(rems, k)
    decreases TotalLength(rems)
  {
    if Exhausted(rems) {
      NoMessages(rems, k);
    } else {
      var w := Winner(rems);
      var next := rems[w := rems[w][1..]];
      TotalLengthDrop(rems, w);
      SortedTail(rems, w);
      ItemsAtKey(next, k);
      if rems[w][0].key == k {
        MessagesTake(rems, w, k);
      } else {
        MessagesSkip(rems, w, k);
      }
    }
  }

  function ItemMessages(items: seq<Item>): (ms: seq<Message>)
    ensures |ms| == |items|
  {
    seq(|items|, i requires 0 <= i < |items| => items[i].msg)
  }

  lemma {:induction false} FoldIsFoldMessages(cfg: Config, k: Key, items: seq<Item>)
    requires items != []
    ensures FoldMessages(cfg, k, ItemMessages(items)) == Some(Fold(cfg, k, items))
  {
    var n := |items| - 1;
    var ms := ItemMessages(items);
    if n > 0 {
      assert ms[..n] == ItemMessages(items[..n]);
      FoldIsFoldMessages(cfg, k, items[..n]);
    } else {
      assert ms[..0] == [];
    }
  }

  lemma {:induction false} AtKeyNone(items: seq<Item>, k: Key)
    requires forall i | 0 <= i < |items| :: items[i].key != k
    ensures AtKey(items, k) == []
  {
    if items != [] {
      AtKeyNone(items[1..], k);
    }
  }

  lemma {:induction false} AtKeySplit(items: seq<Item>, n: nat, k: Key)
    requires n <= |items|
    ensures AtKey(items, k) == AtKey(items[..n], k) + AtKey(items[n..], k)
  {
    if n == 0 {
      assert items[n..] == items;
    } else {
      AtKeySplit(items[1..], n - 1, k);
      assert items[1..][..n - 1] == items[..n][1..];
      assert items[1..][n - 1..] == items[n..];
    }
  }

  lemma {:induction false} AtKeyAll(items: seq<Item>, k: Key)
    requires forall i | 0 <= i < |items| :: items[i].key == k
    ensures AtKey(items, k) == ItemMessages(items)
  {
    if items != [] {
      AtKeyAll(items[1..], k);
      assert ItemMessages(items) == [items[0].msg] + ItemMessages(items[1..]);
    }
  }

  /** The items of the first key are the first group, and they end there. */
  lemma {:induction false} GroupIsAtKey(items: seq<Item>, k: Key)
    requires ItemsSorted(items) && items != []
    ensures var n := GroupLength(items);
      && (k == items[0].key ==> AtKey(items, k) == ItemMessages(items[..n]))
      && (k != items[0].key ==> AtKey(items, k) == AtKey(items[n..], k))
      && (forall i | n <= i < |items| :: items[0].key < items[i].key)
  {
    var n := GroupLength(items);
    AtKeySplit(items, n, k);
    forall i | n <= i < |items| ensures items[0].key < items[i].key {
      assert Before(items[0].key, items[0].seqNo, items[n].key, items[n].seqNo);
      if i > n {
        assert Before(items[n].key, items[n].seqNo, items[i].key, items[i].seqNo);
      }
    }
    if k == items[0].key {
      AtKeyAll(items[..n], k);
      AtKeyNone(items[n..], k);
    } else {
      AtKeyNone(items[..n], k);
    }
  }

  /** One output pair per key, in key order, holding the newest-to-oldest fold. */
  lemma {:induction false} GroupFoldMeaning(cfg: Config, items: seq<Item>)
    requires ItemsSorted(items)
    ensures StrictlySorted(GroupFold(cfg, items))
    ensures forall k :: Lookup(GroupFold(cfg, items), k) == FoldMessages(cfg, k, AtKey(items, k))
    ensures items != [] ==> forall i | 0 <= i < |GroupFold(cfg, items)| :: items[0].key <= GroupFold(cfg, items)[i].key
    decreases |items|
  {
    if items != [] {
      var n := GroupLength(items);
      SortedSuffix(items, n);
      GroupFoldMeaning(cfg, items[n..]);
      GroupIsAtKey(items, items[0].key);
      FoldIsFoldMessages(cfg, items[0].key, items[..n]);
      var rest := GroupFold(cfg, items[n..]);
      assert GroupFold(cfg, items)[1..] == rest;
      forall k ensures Lookup(GroupFold(cfg, items), k) == FoldMessages(cfg, k, AtKey(items, k)) {
        GroupIsAtKey(items, k);
      }
    }
  }

  /**
    What a FULL merge makes of the fold of a key's messages: an INSERT stays, a DELETE goes,
    and an UPDATE is handed to the application's callback, which may delete the key.
   */
  function Resolved(cfg: Config, k: Key, m: Option<Message>): Option<Message> {
    match m
    case None => None
    case Some(v) =>
      match v.cls
      case Insert => Some(v)
      case Delete => None
      case Update =>
        var r := cfg.mergeTuplesFinal(k, v);
        if r.cls == Delete then None else Some(r)
  }

  lemma {:induction false} FinalizedKeys(cfg: Config, pairs: seq<Pair>, low: Key)
    requires forall i | 0 <= i < |pairs| :: low < pairs[i].key
    ensures forall i | 0 <= i < |FinalizeAll(cfg, pairs)| :: low < FinalizeAll(cfg, pairs)[i].key
  {
    if pairs != [] {
      FinalizedKeys(cfg, pairs[1..], low);
    }
  }

  lemma {:induction false} FinalizedSorted(cfg: Config, pairs: seq<Pair>)
    requires StrictlySorted(pairs)
    ensures StrictlySorted(FinalizeAll(cfg, pairs))
  {
    if pairs != [] {
      FinalizedSorted(cfg, pairs[1..]);
      FinalizedKeys(cfg, pairs[1..], pairs[0].key);
    }
  }

  lemma {:induction false} FinalizedLookup(cfg: Config, pairs: seq<Pair>, k: Key)
    requires StrictlySorted(pairs)
    ensures Lookup(FinalizeAll(cfg, pairs), k) == Resolved(cfg, k, Lookup(pairs, k))
  {
    if pairs != [] {
      var rest := FinalizeAll(cfg, pairs[1..]);
      FinalizedLookup(cfg, pairs[1..], k);
      LookupSmaller(pairs[1..], pairs[0].key);
      var m := MergeTuplesFinal(cfg, pairs[0].key, pairs[0].msg);
      if m.cls == Delete {
        assert [] + rest == rest;
      } else {
        assert ([Pair(pairs[0].key, m)] + rest)[1..] == rest;
      }
    }
  }

  lemma FinalizeMeaning(cfg: Config, pairs: seq<Pair>)
    requires StrictlySorted(pairs)
    ensures StrictlySorted(FinalizeAll(cfg, pairs))
    ensures forall k :: Lookup(FinalizeAll(cfg, pairs), k) == Resolved(cfg, k, Lookup(pairs, k))
  {
    hide Lookup, FinalizeAll, StrictlySorted;
    FinalizedSorted(cfg, pairs);
    forall k ensures Lookup(FinalizeAll(cfg, pairs), k) == Resolved(cfg, k, Lookup(pairs, k)) {
      FinalizedLookup(cfg, pairs, k);
    }
  }

  /**
    The INTERMEDIATE merge of sorted inputs is sorted, and holds for each key
    the fold of the messages the inputs hold for it, newest first.
   */
  lemma IntermediateMeaning(cfg: Config, inputs: seq<seq<Pair>>)
    requires AllSorted(inputs)
    ensures StrictlySorted(Merged(cfg, Intermediate, inputs))
    ensures forall k :: Lookup(Merged(cfg, Intermediate, inputs), k) == FoldMessages(cfg, k, Messages(inputs, k))
  {
    ItemsAreSorted(inputs);
    GroupFoldMeaning(cfg, Items(inputs));
    forall k ensures Lookup(Merged(cfg, Intermediate, inputs), k) == FoldMessages(cfg, k, Messages(inputs, k)) {
      ItemsAtKey(inputs, k);
    }
  }

  /** The FULL merge holds the same folds, resolved, without the deleted keys. */
  lemma FullMeaning(cfg: Config, inputs: seq<seq<Pair>>)
    requires AllSorted(inputs)
    ensures StrictlySorted(Merged(cfg, Full, inputs))
    ensures forall k :: Lookup(Merged(cfg, Full, inputs), k)
                        == Resolved(cfg, k, FoldMessages(cfg, k, Messages(inputs, k)))
    ensures FinalResolves(cfg) ==> forall i | 0 <= i < |Merged(cfg, Full, inputs)| ::
      Merged(cfg, Full, inputs)[i].msg.cls == Insert
  {
    hide Resolved;
    IntermediateMeaning(cfg, inputs);
    FinalizeMeaning(cfg, Merged(cfg, Intermediate, inputs));
    if FinalResolves(cfg) {
      FinalizeLeavesInserts(cfg, Merged(cfg, Intermediate, inputs));
    }
  }

  lemma {:induction false} FinalizeLeavesInserts(cfg: Config, pairs: seq<Pair>)
    requires FinalResolves(cfg)
    ensures forall i | 0 <= i < |FinalizeAll(cfg, pairs)| :: FinalizeAll(cfg, pairs)[i].msg.cls == Insert
  {
    if pairs != [] {
      FinalizeLeavesInserts(cfg, pairs[1..]);
      assert Definitive(MergeTuplesFinal(cfg, pairs[0].key, pairs[0].msg));
    }
  }

  /** The messages a run of pairs has for one key, in order. */
  function MessagesAt(pairs: seq<Pair>, k: Key): seq<Message> {
    if pairs == [] then []
    else (if pairs[0].key == k then [pairs[0].msg] else []) + MessagesAt(pairs[1..], k)
  }

  lemma {:induction false} RawPairsAt(items: seq<Item>, k: Key)
    ensures MessagesAt(RawPairs(items), k) == AtKey(items, k)
    ensures |RawPairs(items)| == |items|
    ensures forall i | 0 <= i < |items| :: RawPairs(items)[i] == Pair(items[i].key, items[i].msg)
  {
    if items != [] {
      RawPairsAt(items[1..], k);
      assert RawPairs(items)[1..] == RawPairs(items[1..]);
    }
  }

  /** The RAW merge emits every pair of every input once: by key, then newest first. */
  lemma {:induction false} RawMeaning(cfg: Config, inputs: seq<seq<Pair>>)
    requires AllSorted(inputs)
    ensures var merged := Merged(cfg, Raw, inputs);
      && |merged| == TotalLength(inputs)
      && (forall i, j | 0 <= i < j < |merged| :: merged[i].key <= merged[j].key)
      && (forall k :: MessagesAt(merged, k) == Messages(inputs, k))
  {
    hide Items;
    ItemsAreSorted(inputs);
    ItemsCount(inputs);
    RawPairsAt(Items(inputs), 0);
    forall k ensures MessagesAt(Merged(cfg, Raw, inputs), k) == Messages(inputs, k) {
      ItemsAtKey(inputs, k);
      RawPairsAt(Items(inputs), k);
    }
  }

  lemma {:induction false} ItemsCount(rems: seq<seq<Pair>>)
    ensures |Items(rems)| == TotalLength(rems)
    decreases TotalLength(rems)
  {
    if Exhausted(rems) {
      ExhaustedLength(rems);
    } else {
      var w := Winner(rems);
      TotalLengthDrop(rems, w);
      ItemsCount(rems[w := rems[w][1..]]);
    }
  }

  lemma ExhaustedLength(rems: seq<seq<Pair>>)
    requires Exhausted(rems)
    ensures TotalLength(rems) == 0
  {
    if rems != [] {
      ExhaustedLength(rems[1..]);
    }
  }
}
