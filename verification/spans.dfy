/** Stretches of bytes that do not overlap take no more room than what holds them. */
module Spans {
  datatype Span = Span(lo: nat, hi: nat)

  ghost predicate Disjoint(s: seq<Span>) {
    forall i, j | 0 <= i < j < |s| :: s[i].hi <= s[j].lo || s[j].hi <= s[i].lo
  }

  ghost predicate Inside(s: seq<Span>, lo: nat, hi: nat) {
    forall i | 0 <= i < |s| :: lo <= s[i].lo <= s[i].hi <= hi
  }

  function TotalLength(s: seq<Span>): int {
    if s == [] then 0 else TotalLength(s[..|s| - 1]) + s[|s| - 1].hi - s[|s| - 1].lo
  }

  ghost function Interval(lo: int, hi: int): (r: set<int>)
    requires lo <= hi
    ensures forall x :: x in r <==> lo <= x < hi
    ensures |r| == hi - lo
    decreases hi - lo
  {
    if lo == hi then {} else Interval(lo, hi - 1) + {hi - 1}
  }

  lemma SubsetSize(a: set<int>, b: set<int>)
    requires a <= b
    ensures |a| <= |b|
  {
    assert b == a + (b - a);
  }

  ghost predicate InSome(s: seq<Span>, x: int) {
    exists i :: 0 <= i < |s| && s[i].lo <= x < s[i].hi
  }

  /** The positions the spans cover, each once. */
  ghost function Covered(s: seq<Span>): (r: set<int>)
    requires forall i | 0 <= i < |s| :: s[i].lo <= s[i].hi
  {
    if s == [] then {} else Covered(s[..|s| - 1]) + Interval(s[|s| - 1].lo, s[|s| - 1].hi)
  }

  lemma {:induction false} CoveredInSome(s: seq<Span>, x: int)
    requires forall i | 0 <= i < |s| :: s[i].lo <= s[i].hi
    requires x in Covered(s)
    ensures InSome(s, x)
  {
    var n := |s| - 1;
    if x in Covered(s[..n]) {
      CoveredInSome(s[..n], x);
      var i :| 0 <= i < n && s[..n][i].lo <= x < s[..n][i].hi;
      assert s[i] == s[..n][i];
    }
  }

  lemma LastApart(s: seq<Span>, x: int)
    requires Disjoint(s) && s != [] && InSome(s[..|s| - 1], x)
    ensures !(s[|s| - 1].lo <= x < s[|s| - 1].hi)
  {
    var n := |s| - 1;
    var i :| 0 <= i < n && s[..n][i].lo <= x < s[..n][i].hi;
    assert s[i] == s[..n][i];
  }

  lemma {:induction false} CoveredSize(s: seq<Span>)
    requires Disjoint(s) && forall i | 0 <= i < |s| :: s[i].lo <= s[i].hi
    ensures |Covered(s)| == TotalLength(s)
  {
    if s != [] {
      var n := |s| - 1;
      var rest, last := Covered(s[..n]), Interval(s[n].lo, s[n].hi);
      assert |rest| == TotalLength(s[..n]) by {
        CoveredSize(s[..n]);
      }
      forall x | x in rest ensures x !in last {
        CoveredInSome(s[..n], x);
        LastApart(s, x);
      }
      assert rest !! last;
      hide Disjoint;
      assert Covered(s) == rest + last;
    }
  }

  lemma DisjointSpansFit(s: seq<Span>, lo: nat, hi: nat)
    requires Inside(s, lo, hi) && Disjoint(s) && lo <= hi
    ensures TotalLength(s) <= hi - lo
  {
    CoveredSize(s);
    forall x | x in Covered(s) ensures x in Interval(lo, hi) {
      CoveredInSome(s, x);
    }
    SubsetSize(Covered(s), Interval(lo, hi));
  }
}
