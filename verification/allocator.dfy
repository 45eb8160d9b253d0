/**
  The extent allocator (rc_allocator.c:500-551, 694-738): one 8-bit reference count per
  extent, a hand that goes round, and counters that follow in steps of their own.
 */
module Allocator {
  import Modulo

  /** A live extent starts with two references; the count reaches 1 when only the allocator's is left. */
  const FIRST_REFS: nat := 2
  const REF_LIMIT := 256

  function InUse(refs: seq<nat>): nat {
    if refs == [] then 0 else InUse(refs[..|refs| - 1]) + if refs[|refs| - 1] != 0 then 1 else 0
  }

  lemma {:induction false} InUseUpdated(refs: seq<nat>, i: nat, v: nat)
    requires i < |refs|
    ensures InUse(refs[i := v]) == InUse(refs) - (if refs[i] != 0 then 1 else 0) + (if v != 0 then 1 else 0)
  {
    var n := |refs| - 1;
    if i < n {
      InUseUpdated(refs[..n], i, v);
      assert refs[i := v][..n] == refs[..n][i := v];
    } else {
      assert refs[i := v][..n] == refs[..n];
    }
  }

  lemma {:induction false} InUseAll(refs: seq<nat>)
    ensures InUse(refs) <= |refs|
    ensures InUse(refs) == |refs| <==> forall i | 0 <= i < |refs| :: refs[i] != 0
  {
    if refs != [] {
      var n := |refs| - 1;
      InUseAll(refs[..n]);
      assert forall i | 0 <= i < n :: refs[..n][i] == refs[i];
    }
  }

  /* ---- One caller at a time ---- */

  class Extents {
    const refs: array<nat>
    var hand: nat
    var currAllocated: int
    var allocs: nat
    var deallocs: nat

    ghost predicate Valid()
      reads this, refs
    {
      && 0 < refs.Length && (forall i | 0 <= i < refs.Length :: refs[i] < REF_LIMIT)
      && currAllocated == InUse(refs[..]) && allocs == deallocs + InUse(refs[..])
    }

    constructor (capacity: nat)
      requires capacity > 0
      ensures Valid() && refs.Length == capacity && fresh(refs) && forall i | 0 <= i < capacity :: refs[i] == 0
    {
      refs := new nat[capacity](_ => 0);
      hand, currAllocated, allocs, deallocs := 0, 0, 0, 0;
      new;
      NoneInUse(refs[..]);
    }

    /** The scan of `rc_allocator_alloc`: once round from the hand, taking the first free extent. */
    method Scan() returns (ok: bool, extent: nat)
      requires 0 < refs.Length
      modifies this`hand, refs
      ensures extent < refs.Length
      ensures ok ==> old(refs[extent]) == 0 && refs[..] == old(refs[..])[extent := FIRST_REFS]
      ensures ok ==> forall i: nat | i < refs.Length && Passed(old(hand) % refs.Length, extent, i) :: old(refs[i]) != 0
      ensures ok ==> hand % refs.Length == (extent + 1) % refs.Length
      ensures !ok ==> refs[..] == old(refs[..]) && forall i | 0 <= i < refs.Length :: refs[i] != 0
    {
      ghost var was := refs[..];
      var n := refs.Length;
      var firstHand := hand % n;
      extent, ok := firstHand, false;
      var first := true;
      while first || (extent + 1) % n != firstHand
        invariant extent < n && refs[..] == was && !ok && (first ==> extent == firstHand)
        invariant hand % n == if first then firstHand else (extent + 1) % n
        invariant forall i | 0 <= i < n && Seen(first, firstHand, extent, i) :: refs[i] != 0
        decreases n - Distance(first, firstHand, extent, n)
      {
        NextInRing(extent, n);
        NextOfHand(hand, n);
        ghost var before, wasFirst := extent, first;
        extent := hand % n;
        hand := hand + 1;
        first := false;
        NextInRing(extent, n);
        SeenNext(wasFirst, firstHand, before, extent, n);
        if refs[extent] == 0 {
          refs[extent] := FIRST_REFS;
          assert refs[..] == was[extent := FIRST_REFS];
          return true, extent;
        }
      }
      NextInRing(extent, n);
    }

    /** `rc_allocator_alloc`: fails only when every extent is in use. */
    method Alloc() returns (ok: bool, extent: nat)
      requires Valid()
      modifies this`hand, this`currAllocated, this`allocs, refs
      ensures Valid()
      ensures ok <==> exists i :: 0 <= i < refs.Length && old(refs[i]) == 0
      ensures ok ==> extent < refs.Length && old(refs[extent]) == 0 && refs[..] == old(refs[..])[extent := FIRST_REFS]
      ensures ok ==> forall i: nat | i < refs.Length && Passed(old(hand) % refs.Length, extent, i) :: old(refs[i]) != 0
      ensures ok ==> hand % refs.Length == (extent + 1) % refs.Length
      ensures !ok ==> refs[..] == old(refs[..]) && currAllocated == refs.Length
    {
      ghost var was := refs[..];
      ok, extent := Scan();
      if !ok {
        InUseAll(was);
        assert forall i | 0 <= i < refs.Length :: was[i] == refs[i];
        return;
      }
      assert was[extent] == 0;
      InUseUpdated(was, extent, FIRST_REFS);
      currAllocated := currAllocated + 1;
      allocs := allocs + 1;
    }

    /** `rc_allocator_inc_ref`; the caller holds a reference, and the count does not overflow. */
    method IncRef(extent: nat) returns (refCount: nat)
      requires Valid() && extent < refs.Length && 0 < refs[extent] < REF_LIMIT - 1
      modifies refs
      ensures Valid() && refCount == old(refs[extent]) + 1 && refs[..] == old(refs[..])[extent := refCount]
    {
      ghost var was := refs[..];
      refCount := refs[extent] + 1;
      refs[extent] := refCount;
      InUseUpdated(was, extent, refCount);
      assert refs[..] == was[extent := refCount];
    }

    /** `rc_allocator_dec_ref`: the extent is free again exactly when its count reaches 0. */
    method DecRef(extent: nat) returns (refCount: nat)
      requires Valid() && extent < refs.Length && 0 < refs[extent]
      modifies this`currAllocated, this`deallocs, refs
      ensures Valid() && refCount == old(refs[extent]) - 1 && refs[..] == old(refs[..])[extent := refCount]
      ensures currAllocated == old(currAllocated) - if refCount == 0 then 1 else 0
    {
      ghost var was := refs[..];
      refCount := refs[extent] - 1;
      refs[extent] := refCount;
      InUseUpdated(was, extent, refCount);
      assert refs[..] == was[extent := refCount];
      if refCount == 0 {
        currAllocated := currAllocated - 1;
        deallocs := deallocs + 1;
      }
    }
  }

  lemma {:induction false} NoneInUse(refs: seq<nat>)
    requires forall i | 0 <= i < |refs| :: refs[i] == 0
    ensures InUse(refs) == 0
  {
    if refs != [] {
      NoneInUse(refs[..|refs| - 1]);
    }
  }

  /** Extents the scan has behind it: from firstHand to extent, round the end if need be. */
  predicate Seen(first: bool, firstHand: nat, extent: nat, i: nat) {
    !first && if firstHand <= extent then firstHand <= i <= extent else firstHand <= i || i <= extent
  }

  /** Extents from firstHand up to extent, round the end if need be, but for extent itself. */
  predicate Passed(firstHand: nat, extent: nat, i: nat) {
    if firstHand <= extent then firstHand <= i < extent else firstHand <= i || i < extent
  }

  function Distance(first: bool, firstHand: nat, extent: nat, n: nat): int {
    if first then 0 else if firstHand <= extent then extent - firstHand + 1 else extent + n - firstHand + 1
  }

  lemma NextInRing(e: nat, n: nat)
    requires e < n
    ensures (e + 1) % n == if e + 1 == n then 0 else e + 1
  {
    if e + 1 == n {
      Modulo.Remainder(n, 1, 0);
    } else {
      Modulo.Remainder(n, 0, e + 1);
    }
  }

  lemma NextOfHand(hand: nat, n: nat)
    requires n > 0
    ensures hand % n < n && (hand + 1) % n == if hand % n + 1 == n then 0 else hand % n + 1
  {
    var q, r := hand / n, hand % n;
    assert hand == n * q + r;
    if r + 1 < n {
      Modulo.Remainder(n, q, r + 1);
    } else {
      assert n * (q + 1) == n * q + n;
      Modulo.Remainder(n, q + 1, 0);
    }
  }

  lemma SeenNext(first: bool, firstHand: nat, before: nat, extent: nat, n: nat)
    requires firstHand < n && before < n && extent < n
    requires if first then extent == firstHand else
      extent == (if before + 1 == n then 0 else before + 1) && extent != firstHand
    ensures forall i: nat | i < n && Seen(false, firstHand, extent, i) ::
      i == extent || Seen(first, firstHand, before, i)
    ensures forall i: nat | i < n && Passed(firstHand, extent, i) :: Seen(first, firstHand, before, i)
    ensures Distance(false, firstHand, extent, n) == Distance(first, firstHand, before, n) + 1 <= n
  {
  }

  /* ---- Many callers ---- */

  /** A caller between the step on the reference count and those on the counters. */
  datatype Pc = Outside | Taken(extent: nat) | Counted | Dropped | Uncounted

  datatype Shared = Shared(refs: seq<nat>, currAllocated: int, allocs: int, deallocs: int, pcs: seq<Pc>)

  datatype Step =
    | Take(extent: nat) | CountUp | CountAlloc
    | Inc(extent: nat)
    | Dec(extent: nat) | CountDown | CountDealloc

  predicate CanStep(s: Shared, t: nat, step: Step) {
    && t < |s.pcs|
    && match step
       case Take(e) => s.pcs[t].Outside? && e < |s.refs| && s.refs[e] == 0
       case CountUp => s.pcs[t].Taken?
       case CountAlloc => s.pcs[t].Counted?
       case Inc(e) => s.pcs[t].Outside? && e < |s.refs| && s.refs[e] > 0
       case Dec(e) => s.pcs[t].Outside? && e < |s.refs| && s.refs[e] > 0
       case CountDown => s.pcs[t].Dropped?
       case CountDealloc => s.pcs[t].Uncounted?
  }

  function Stepped(s: Shared, t: nat, step: Step): Shared
    requires CanStep(s, t, step)
  {
    match step
    case Take(e) => s.(refs := s.refs[e := FIRST_REFS], pcs := s.pcs[t := Taken(e)])
    case CountUp => s.(currAllocated := s.currAllocated + 1, pcs := s.pcs[t := Counted])
    case CountAlloc => s.(allocs := s.allocs + 1, pcs := s.pcs[t := Outside])
    case Inc(e) => s.(refs := s.refs[e := s.refs[e] + 1])
    case Dec(e) =>
      s.(refs := s.refs[e := s.refs[e] - 1], pcs := s.pcs[t := if s.refs[e] == 1 then Dropped else Outside])
    case CountDown => s.(currAllocated := s.currAllocated - 1, pcs := s.pcs[t := Uncounted])
    case CountDealloc => s.(deallocs := s.deallocs + 1, pcs := s.pcs[t := Outside])
  }

  /** What a caller still owes to `currAllocated`, and to allocations minus deallocations. */
  function Owed(pc: Pc): int { if pc.Taken? then 1 else if pc.Dropped? then -1 else 0 }
  function OwedTotals(pc: Pc): int {
    if pc.Taken? || pc.Counted? then 1 else if pc.Dropped? || pc.Uncounted? then -1 else 0
  }

  function Debt(pcs: seq<Pc>): (int, int) {
    if pcs == [] then (0, 0)
    else
      var d, last := Debt(pcs[..|pcs| - 1]), pcs[|pcs| - 1];
      (d.0 + Owed(last), d.1 + OwedTotals(last))
  }

  lemma {:induction false} DebtUpdated(pcs: seq<Pc>, t: nat, pc: Pc)
    requires t < |pcs|
    ensures Debt(pcs[t := pc]).0 == Debt(pcs).0 - Owed(pcs[t]) + Owed(pc)
    ensures Debt(pcs[t := pc]).1 == Debt(pcs).1 - OwedTotals(pcs[t]) + OwedTotals(pc)
  {
    var n := |pcs| - 1;
    if t < n {
      DebtUpdated(pcs[..n], t, pc);
      assert pcs[t := pc][..n] == pcs[..n][t := pc];
    } else {
      assert pcs[t := pc][..n] == pcs[..n];
    }
  }

  /** The counters plus what is owed to them are the extents in use. */
  ghost predicate Balanced(s: Shared) {
    && s.currAllocated + Debt(s.pcs).0 == InUse(s.refs)
    && s.allocs - s.deallocs + Debt(s.pcs).1 == InUse(s.refs)
  }

  lemma StepBalances(s: Shared, t: nat, step: Step)
    requires Balanced(s) && CanStep(s, t, step)
    ensures Balanced(Stepped(s, t, step))
  {
    hide Debt, InUse;
    var s' := Stepped(s, t, step);
    DebtUpdated(s.pcs, t, s'.pcs[t]);
    assert s.pcs[t := s'.pcs[t]] == s'.pcs;
    if step.Take? || step.Inc? || step.Dec? {
      InUseUpdated(s.refs, step.extent, s'.refs[step.extent]);
    }
  }

  datatype Event = Event(thread: nat, step: Step)

  ghost predicate CanRun(s: Shared, run: seq<Event>)
    decreases |run|
  {
    run != [] ==> CanStep(s, run[0].thread, run[0].step) && CanRun(Stepped(s, run[0].thread, run[0].step), run[1..])
  }

  ghost function Final(s: Shared, run: seq<Event>): Shared
    requires CanRun(s, run)
    decreases |run|
  {
    if run == [] then s else Final(Stepped(s, run[0].thread, run[0].step), run[1..])
  }

  lemma {:induction false} RunBalances(s: Shared, run: seq<Event>)
    requires Balanced(s) && CanRun(s, run)
    ensures Balanced(Final(s, run))
    decreases |run|
  {
    hide Balanced, CanStep, Stepped;
    if run != [] {
      StepBalances(s, run[0].thread, run[0].step);
      RunBalances(Stepped(s, run[0].thread, run[0].step), run[1..]);
    }
  }

  lemma {:induction false} NoDebt(pcs: seq<Pc>)
    requires forall t | 0 <= t < |pcs| :: pcs[t].Outside?
    ensures Debt(pcs) == (0, 0)
  {
    if pcs != [] {
      NoDebt(pcs[..|pcs| - 1]);
    }
  }

  /** Whenever no call is under way the counters are exact. */
  lemma QuiescentCounters(s: Shared, run: seq<Event>)
    requires s.currAllocated == InUse(s.refs) && s.allocs - s.deallocs == InUse(s.refs)
    requires (forall t | 0 <= t < |s.pcs| :: s.pcs[t].Outside?) && CanRun(s, run)
    requires forall t | 0 <= t < |Final(s, run).pcs| :: Final(s, run).pcs[t].Outside?
    ensures var f := Final(s, run);
      f.currAllocated == InUse(f.refs) && f.allocs - f.deallocs == InUse(f.refs)
  {
    hide Debt, InUse, CanRun, Final;
    NoDebt(s.pcs);
    RunBalances(s, run);
    NoDebt(Final(s, run).pcs);
  }

  /* ---- References of one extent over a run ---- */

  /** How often a run hands extent e out, and how often it takes and drops a reference to it. */
  function Takes(run: seq<Event>, e: nat): nat {
    if run == [] then 0 else (if run[0].step == Take(e) then 1 else 0) + Takes(run[1..], e)
  }

  function Incs(run: seq<Event>, e: nat): nat {
    if run == [] then 0 else (if run[0].step == Inc(e) then 1 else 0) + Incs(run[1..], e)
  }

  function Decs(run: seq<Event>, e: nat): nat {
    if run == [] then 0 else (if run[0].step == Dec(e) then 1 else 0) + Decs(run[1..], e)
  }

  /** Nothing else moves a reference count. */
  lemma {:induction false} RefsAccounted(s: Shared, run: seq<Event>, e: nat)
    requires e < |s.refs| && CanRun(s, run)
    ensures |Final(s, run).refs| == |s.refs|
    ensures Final(s, run).refs[e] == s.refs[e] + FIRST_REFS * Takes(run, e) + Incs(run, e) - Decs(run, e)
    decreases |run|
  {
    if run != [] {
      RefsAccounted(Stepped(s, run[0].thread, run[0].step), run[1..], e);
    }
  }

  lemma {:induction false} CanRunPrefix(s: Shared, run: seq<Event>, i: nat)
    requires CanRun(s, run) && i <= |run|
    ensures CanRun(s, run[..i]) && CanRun(Final(s, run[..i]), run[i..])
    decreases i
  {
    if i > 0 {
      CanRunPrefix(Stepped(s, run[0].thread, run[0].step), run[1..], i - 1);
      assert run[..i][1..] == run[1..][..i - 1] && run[1..][i - 1..] == run[i..];
    } else {
      assert run[..i] == [] && run[i..] == run;
    }
  }

  lemma ZeroWhenHandedOut(s: Shared, run: seq<Event>, e: nat, i: nat)
    requires e < |s.refs| && CanRun(s, run) && i < |run| && run[i].step == Take(e)
    ensures CanRun(s, run[..i]) && |Final(s, run[..i]).refs| == |s.refs| && Final(s, run[..i]).refs[e] == 0
    ensures CanRun(Final(s, run[..i]), run[i..])
  {
    hide Stepped, Final;
    CanRunPrefix(s, run, i);
    RefsAccounted(s, run[..i], e);
    assert run[i..][0] == run[i];
  }

  /** An extent is handed out only when every reference it ever had has been dropped. */
  lemma HandedOutAtZero(s: Shared, run: seq<Event>, e: nat, i: nat)
    requires e < |s.refs| && CanRun(s, run) && i < |run| && run[i].step == Take(e)
    ensures s.refs[e] + FIRST_REFS * Takes(run[..i], e) + Incs(run[..i], e) == Decs(run[..i], e)
  {
    hide CanStep, Stepped, CanRun, Final, Takes, Incs, Decs;
    ZeroWhenHandedOut(s, run, e, i);
    RefsAccounted(s, run[..i], e);
  }

  /**
    Between two times an extent is handed out, the references of the first hand-out and all
    that were added since have been dropped, one by one.
   */
  lemma NotHandedOutTwice(s: Shared, run: seq<Event>, e: nat, i: nat, j: nat)
    requires e < |s.refs| && CanRun(s, run) && i < j < |run| && run[i].step == run[j].step == Take(e)
    ensures FIRST_REFS * Takes(run[i..j], e) + Incs(run[i..j], e) == Decs(run[i..j], e)
    ensures Decs(run[i..j], e) >= FIRST_REFS
  {
    hide CanStep, Stepped, CanRun, Final, Incs, Decs;
    ZeroWhenHandedOut(s, run, e, i);
    var t, rest := Final(s, run[..i]), run[i..];
    assert rest[j - i] == run[j];
    HandedOutAtZero(t, rest, e, j - i);
    assert rest[..j - i] == run[i..j];
    assert Takes(run[i..j], e) >= 1 by {
      assert run[i..j][0] == run[i];
    }
  }
}
