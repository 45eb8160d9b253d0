/**
  Why compaction is sound: replacing a contiguous run of inputs by their
  INTERMEDIATE merge does not change any later merge. merge.h promises that the
  result is semantically equivalent to the input sequence of messages.
 */
module Compaction {
  import opened Wrappers
  import opened DataConfig
  import opened MergeSpec

  /** Replace the inputs lo, ..., hi - 1 by their INTERMEDIATE merge. */
  function Compacted(cfg: Config, inputs: seq<seq<Pair>>, lo: nat, hi: nat): seq<seq<Pair>>
    requires lo <= hi <= |inputs|
  {
    inputs[..lo] + [Merged(cfg, Intermediate, inputs[lo..hi])] + inputs[hi..]
  }

  function Combine(cfg: Config, k: Key, newer: Option<Message>, older: Option<Message>): Option<Message> {
    if newer == None then older
    else if older == None then newer
    else Some(MergeTuples(cfg, k, older.value, newer.value))
  }

  lemma {:induction false} FoldConcat(cfg: Config, k: Key, newer: seq<Message>, older: seq<Message>)
    requires MergeAssociative(cfg)
    ensures FoldMessages(cfg, k, newer + older)
         == Combine(cfg, k, FoldMessages(cfg, k, newer), FoldMessages(cfg, k, older))
  {
    if older == [] {
      assert newer + older == newer;
    } else {
      var n := |older| - 1;
      FoldConcat(cfg, k, newer, older[..n]);
      assert (newer + older)[..|newer + older| - 1] == newer + older[..n];
      assert (newer + older)[|newer + older| - 1] == older[n];
      var fn, fo := FoldMessages(cfg, k, newer), FoldMessages(cfg, k, older[..n]);
      if fn.Some? && fo.Some? {
        assert AssociativeAt(cfg, k, older[n], fo.value, fn.value);
      }
    }
  }

  lemma {:induction false} MessagesConcat(older: seq<seq<Pair>>, newer: seq<seq<Pair>>, k: Key)
    ensures Messages(older + newer, k) == Messages(newer, k) + Messages(older, k)
  {
    if newer == [] {
      assert older + newer == older;
    } else {
      var n := |newer| - 1;
      var all := older + newer;
      MessagesConcat(older, newer[..n], k);
      var last := match Lookup(newer[n], k) case None => [] case Some(m) => [m];
      calc {
        Messages(all, k);
        { assert all[|all| - 1] == newer[n] && all[..|all| - 1] == older + newer[..n]; }
        last + Messages(older + newer[..n], k);
        last + (Messages(newer[..n], k) + Messages(older, k));
        (last + Messages(newer[..n], k)) + Messages(older, k);
        Messages(newer, k) + Messages(older, k);
      }
    }
  }

  /** The messages that remain for `k` after a compaction, newest first. */
  lemma MessagesCompacted(cfg: Config, inputs: seq<seq<Pair>>, lo: nat, hi: nat, k: Key)
    requires lo <= hi <= |inputs| && AllSorted(inputs)
    ensures var mid := FoldMessages(cfg, k, Messages(inputs[lo..hi], k));
      Messages(Compacted(cfg, inputs, lo, hi), k)
      == Messages(inputs[hi..], k) + (if mid.Some? then [mid.value] else []) + Messages(inputs[..lo], k)
  {
    var run := Merged(cfg, Intermediate, inputs[lo..hi]);
    IntermediateMeaning(cfg, inputs[lo..hi]);
    MessagesConcat(inputs[..lo] + [run], inputs[hi..], k);
    MessagesConcat(inputs[..lo], [run], k);
    assert Messages([run][..0], k) == [];
  }

  lemma MessagesParts(inputs: seq<seq<Pair>>, lo: nat, hi: nat, k: Key)
    requires lo <= hi <= |inputs|
    ensures Messages(inputs, k)
         == Messages(inputs[hi..], k) + Messages(inputs[lo..hi], k) + Messages(inputs[..lo], k)
  {
    assert inputs == inputs[..lo] + inputs[lo..hi] + inputs[hi..];
    MessagesConcat(inputs[..lo] + inputs[lo..hi], inputs[hi..], k);
    MessagesConcat(inputs[..lo], inputs[lo..hi], k);
  }

  lemma FoldCompacted(cfg: Config, inputs: seq<seq<Pair>>, lo: nat, hi: nat, k: Key)
    requires lo <= hi <= |inputs| && AllSorted(inputs) && MergeAssociative(cfg)
    ensures FoldMessages(cfg, k, Messages(Compacted(cfg, inputs, lo, hi), k))
         == FoldMessages(cfg, k, Messages(inputs, k))
  {
    var a, b, c := Messages(inputs[hi..], k), Messages(inputs[lo..hi], k), Messages(inputs[..lo], k);
    var mid := FoldMessages(cfg, k, b);
    var single := if mid.Some? then [mid.value] else [];
    MessagesCompacted(cfg, inputs, lo, hi, k);
    MessagesParts(inputs, lo, hi, k);
    FoldConcat(cfg, k, a + single, c);
    FoldConcat(cfg, k, a, single);
    FoldConcat(cfg, k, a + b, c);
    FoldConcat(cfg, k, a, b);
    assert single != [] ==> single[..0] == [];
    assert FoldMessages(cfg, k, single) == mid;
  }

  lemma HeadAtMost(s: seq<Pair>, k: Key)
    requires StrictlySorted(s) && Lookup(s, k) != None
    ensures s != [] && s[0].key <= k
  {
    if s != [] && k < s[0].key {
      LookupSmaller(s, k);
      assert false;
    }
  }

  /** A sorted run of pairs is determined by what it holds for each key. */
  lemma {:induction false} SortedEquality(s: seq<Pair>, t: seq<Pair>)
    requires StrictlySorted(s) && StrictlySorted(t)
    requires forall k :: Lookup(s, k) == Lookup(t, k)
    ensures s == t
  {
    if s != [] {
      assert Lookup(t, s[0].key) == Lookup(s, s[0].key);
      HeadAtMost(t, s[0].key);
    }
    if t != [] {
      assert Lookup(s, t[0].key) == Lookup(t, t[0].key);
      HeadAtMost(s, t[0].key);
      forall k ensures Lookup(s[1..], k) == Lookup(t[1..], k) {
        if k == s[0].key {
          LookupSmaller(s[1..], k);
          LookupSmaller(t[1..], k);
        } else {
          assert Lookup(s, k) == Lookup(t, k);
        }
      }
      SortedEquality(s[1..], t[1..]);
      assert s == [s[0]] + s[1..] && t == [t[0]] + t[1..];
    }
  }

  lemma CompactedSorted(cfg: Config, inputs: seq<seq<Pair>>, lo: nat, hi: nat)
    requires lo <= hi <= |inputs| && AllSorted(inputs)
    ensures AllSorted(Compacted(cfg, inputs, lo, hi))
  {
    IntermediateMeaning(cfg, inputs[lo..hi]);
  }

  /**
    Compacting any contiguous run of inputs first does not change the merge of
    them all, neither the INTERMEDIATE one nor the FULL one.
   */
  lemma CompactionPreservesMerge(cfg: Config, mode: Mode, inputs: seq<seq<Pair>>, lo: nat, hi: nat)
    requires mode != Raw && lo <= hi <= |inputs| && AllSorted(inputs)
    requires FinalResolves(cfg) && CallbackLaws(cfg)
    ensures Merged(cfg, mode, Compacted(cfg, inputs, lo, hi)) == Merged(cfg, mode, inputs)
  {
    AssociativeIffCallbackLaws(cfg);
    var compacted := Compacted(cfg, inputs, lo, hi);
    CompactedSorted(cfg, inputs, lo, hi);
    IntermediateMeaning(cfg, compacted);
    IntermediateMeaning(cfg, inputs);
    forall k ensures Lookup(Merged(cfg, Intermediate, compacted), k) == Lookup(Merged(cfg, Intermediate, inputs), k) {
      FoldCompacted(cfg, inputs, lo, hi, k);
    }
    SortedEquality(Merged(cfg, Intermediate, compacted), Merged(cfg, Intermediate, inputs));
  }

  ghost predicate CompactionSound(cfg: Config) {
    forall inputs, lo: nat, hi: nat | lo <= hi <= |inputs| && AllSorted(inputs) ::
      Merged(cfg, Intermediate, Compacted(cfg, inputs, lo, hi)) == Merged(cfg, Intermediate, inputs)
  }

  /** Three inputs that hold one message each for the same key. */
  lemma ThreeInputs(cfg: Config, k: Key, a: Message, b: Message, c: Message)
    requires CompactionSound(cfg)
    ensures AssociativeAt(cfg, k, a, b, c)
  {
    hide Messages, FoldMessages, Merged, Lookup;
    var inputs := [[Pair(k, a)], [Pair(k, b)], [Pair(k, c)]];
    var older := Compacted(cfg, inputs, 0, 2);
    assert Merged(cfg, Intermediate, older) == Merged(cfg, Intermediate, inputs);
    IntermediateMeaning(cfg, inputs);
    CompactedSorted(cfg, inputs, 0, 2);
    IntermediateMeaning(cfg, older);
    MessagesCompacted(cfg, inputs, 0, 2, k);
    SingleMessages(k, a, b, c);
    assert inputs[..0] == [] && inputs[2..] == [[Pair(k, c)]] && inputs[0..2] == [[Pair(k, a)], [Pair(k, b)]];
    FoldOf([c, b, a], cfg, k);
    FoldOf([b, a], cfg, k);
    var ba := MergeTuples(cfg, k, a, b);
    assert Messages(older, k) == [c] + [ba] + [];
    assert [c] + [ba] + [] == [c, ba];
    FoldOf([c, ba], cfg, k);
    assert Lookup(Merged(cfg, Intermediate, older), k) == Lookup(Merged(cfg, Intermediate, inputs), k);
  }

  lemma SingleMessages(k: Key, a: Message, b: Message, c: Message)
    ensures Messages([], k) == [] && Messages([[Pair(k, c)]], k) == [c]
    ensures Messages([[Pair(k, a)], [Pair(k, b)]], k) == [b, a]
    ensures Messages([[Pair(k, a)], [Pair(k, b)], [Pair(k, c)]], k) == [c, b, a]
  {
    var none: seq<seq<Pair>> := [];
    MessagesNext(none, Pair(k, c), k);
    MessagesNext(none, Pair(k, a), k);
    assert none + [[Pair(k, a)]] == [[Pair(k, a)]] && none + [[Pair(k, c)]] == [[Pair(k, c)]];
    MessagesNext([[Pair(k, a)]], Pair(k, b), k);
    assert [[Pair(k, a)]] + [[Pair(k, b)]] == [[Pair(k, a)], [Pair(k, b)]];
    MessagesNext([[Pair(k, a)], [Pair(k, b)]], Pair(k, c), k);
    assert [[Pair(k, a)], [Pair(k, b)]] + [[Pair(k, c)]] == [[Pair(k, a)], [Pair(k, b)], [Pair(k, c)]];
  }

  lemma MessagesNext(inputs: seq<seq<Pair>>, p: Pair, k: Key)
    requires p.key == k
    ensures Messages(inputs + [[p]], k) == [p.msg] + Messages(inputs, k)
  {
    assert (inputs + [[p]])[..|inputs|] == inputs;
  }

  lemma FoldOf(ms: seq<Message>, cfg: Config, k: Key)
    requires 2 <= |ms| <= 3
    ensures var two := MergeTuples(cfg, k, ms[1], ms[0]);
      FoldMessages(cfg, k, ms) == Some(if |ms| == 2 then two else MergeTuples(cfg, k, ms[2], two))
  {
    assert ms[..1] == [ms[0]] && ms[..1][..0] == [];
    assert FoldMessages(cfg, k, ms[..1]) == Some(ms[0]);
    assert ms[..2][..1] == ms[..1];
    assert FoldMessages(cfg, k, ms[..2]) == Some(MergeTuples(cfg, k, ms[1], ms[0]));
    assert |ms| == 2 ==> ms[..2] == ms;
  }

  /** The callback laws are exactly what compaction needs. */
  lemma CompactionSoundIffLaws(cfg: Config)
    requires FinalResolves(cfg)
    ensures CompactionSound(cfg) <==> CallbackLaws(cfg)
  {
    AssociativeIffCallbackLaws(cfg);
    if CompactionSound(cfg) {
      forall k, a: Message, b: Message, c: Message ensures AssociativeAt(cfg, k, a, b, c) {
        ThreeInputs(cfg, k, a, b, c);
      }
    }
    if CallbackLaws(cfg) {
      forall inputs, lo: nat, hi: nat | lo <= hi <= |inputs| && AllSorted(inputs)
        ensures Merged(cfg, Intermediate, Compacted(cfg, inputs, lo, hi)) == Merged(cfg, Intermediate, inputs)
      {
        CompactionPreservesMerge(cfg, Intermediate, inputs, lo, hi);
      }
    }
  }
}
