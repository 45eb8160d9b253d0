/**
  What a session achieves when nobody is in its way: a page is read in, found, locked and
  written, written back, and evicted. Each lemma gives the session's own steps and the whole
  state they lead to.
 */
module ClockCacheProgress {
  import opened Wrappers
  import opened ClockCache
  import opened ClockCacheSteps
  import opened ClockCacheSafety

  /** Session i stands at pc, and entry e is x. */
  function With(s: State, i: nat, pc: Pc, e: nat, x: Entry): State
    requires i < |s.pcs| && e < |s.entries|
  {
    s.(entries := s.entries[e := x], pcs := s.pcs[i := pc])
  }

  ghost predicate Alone(run: seq<Event>, i: nat) {
    forall j | 0 <= j < |run| :: run[j].session == i
  }

  /** A run of session i from s that leaves session i at pc, entry e as x and all else as in t. */
  ghost predicate Leads(s: State, run: seq<Event>, t: State, i: nat, pc: Pc, e: nat, x: Entry) {
    && i < |t.pcs| && e < |t.entries| && CanRun(s, run) && Alone(run, i) && Final(s, run) == With(t, i, pc, e, x)
  }

  /** Steps that concern the session and its entry only. */
  predicate Local(act: Action) {
    !act.Lookup? && !act.Miss? && !act.Unmap? && !act.WriteDisk?
  }

  lemma LocalStep(t: State, i: nat, pc: Pc, e: nat, x: Entry, act: Action)
    requires i < |t.pcs| && e < |t.entries| && Local(act)
    requires var w := With(t, i, pc, e, x); Enabled(w, i, act) && Target(pc, act) == e
    ensures var w := With(t, i, pc, e, x); Apply(w, i, act) == With(t, i, NewPc(w, i, act), e, NewEntry(w, i, act))
  {
    hide NewPc, NewEntry, Enabled;
    var w := With(t, i, pc, e, x);
    assert w.entries[e := NewEntry(w, i, act)] == t.entries[e := NewEntry(w, i, act)];
  }

  /** One more local step. */
  lemma Go(s: State, before: seq<Event>, t: State, i: nat, pc: Pc, e: nat, x: Entry, act: Action)
    returns (run: seq<Event>)
    requires Leads(s, before, t, i, pc, e, x) && Local(act)
    requires var w := With(t, i, pc, e, x); Enabled(w, i, act) && Target(pc, act) == e
    ensures var w := With(t, i, pc, e, x); Leads(s, run, t, i, NewPc(w, i, act), e, NewEntry(w, i, act))
  {
    hide NewPc, NewEntry, Enabled, CanRun, Final, Apply;
    LocalStep(t, i, pc, e, x, act);
    run := Then(s, before, i, act);
  }

  /** Nobody but session i has a reference on entry e. */
  ghost predicate OnlyUser(s: State, i: nat, e: nat) {
    forall j | 0 <= j < |s.pcs| && j != i :: !HoldsRef(s.pcs[j], e)
  }

  lemma {:induction false} NoneHolds(pcs: seq<Pc>, tids: seq<nat>, e: nat, stripe: nat)
    requires |pcs| == |tids| && forall j | 0 <= j < |pcs| :: !HoldsRef(pcs[j], e)
    ensures CountRefs(pcs, tids, e, stripe) == 0
  {
    if pcs != [] {
      NoneHolds(pcs[..|pcs| - 1], tids[..|pcs| - 1], e, stripe);
    }
  }

  lemma Unreferenced(s: State, i: nat, e: nat)
    requires Inv(s) && i < |s.pcs| && s.pcs[i] == Idle && e < |s.entries| && OnlyUser(s, i, e)
    ensures |s.pcs| == |s.tids| && s.entries[e].refs == [0, 0, 0, 0]
  {
    forall stripe: nat | stripe < RC_WIDTH ensures s.entries[e].refs[stripe] == 0 {
      NoneHolds(s.pcs, s.tids, e, stripe);
    }
  }

  /** The parts of the invariant that a session which finds entry e relies on. */
  lemma Mapped(s: State, a: Addr)
    requires Inv(s) && a in s.lookup && !s.entries[s.lookup[a]].status.loading
    ensures |s.pcs| == |s.tids| && a in s.disk
    ensures var e := s.lookup[a];
      && e < |s.entries| && |s.entries[e].refs| == RC_WIDTH
      && !s.entries[e].status.free && s.entries[e].diskAddr == Some(a)
  {
    InvAddr(s, a);
  }

  lemma Begin(s: State, i: nat, e: nat)
    requires i < |s.pcs| && e < |s.entries|
    ensures Leads(s, [], s, i, s.pcs[i], e, s.entries[e])
  {
    assert s.entries[e := s.entries[e]] == s.entries && s.pcs[i := s.pcs[i]] == s.pcs;
  }

  /** The entry with one more reference of session i's thread, and marked as accessed. */
  function Held(x: Entry, stripe: nat): Entry
    requires stripe < |x.refs|
  {
    WithRef(x.(status := x.status.(accessed := true)), stripe, x.refs[stripe] + 1)
  }

  /** A page in the cache that nobody is writing or loading is locked for reading. */
  lemma GetAlone(s: State, i: nat, a: Addr) returns (run: seq<Event>)
    requires Inv(s) && i < |s.pcs| && s.pcs[i] == Idle && a in s.lookup && s.lookup[a] < |s.entries|
    requires var st := s.entries[s.lookup[a]].status; !st.writeLocked && !st.loading
    ensures var e := s.lookup[a];
      && i < |s.tids| && |s.entries[e].refs| == RC_WIDTH
      && Leads(s, run, s, i, Reading(a, e), e, Held(s.entries[e], Stripe(s, i)))
  {
    hide Leads, Inv;
    Mapped(s, a);
    var e, who := s.lookup[a], Get(a);
    var x := s.entries[e];
    var counted := WithRef(x, Stripe(s, i), x.refs[Stripe(s, i)] + 1);
    run := Find(s, i, a);
    run := Go(s, run, s, i, Looked(who, e), e, x, TestWriting);
    run := Go(s, run, s, i, Tested(who, e), e, x, CountRef);
    run := Go(s, run, s, i, Counted(who, e), e, counted, TestFree);
    run := Go(s, run, s, i, FreeTested(who, e, false), e, counted, TestWritingAgain);
    run := Go(s, run, s, i, Passed(who, e), e, counted, Touch);
    var held := Held(x, Stripe(s, i));
    run := Go(s, run, s, i, Passed(who, e), e, held, CheckAddr);
    run := Go(s, run, s, i, Validated(a, e), e, held, WaitLoaded);
  }

  lemma Find(s: State, i: nat, a: Addr) returns (run: seq<Event>)
    requires i < |s.pcs| == |s.tids| && s.pcs[i] == Idle && a in s.lookup && s.lookup[a] < |s.entries| && a in s.disk
    ensures Leads(s, run, s, i, Looked(Get(a), s.lookup[a]), s.lookup[a], s.entries[s.lookup[a]])
  {
    var e := s.lookup[a];
    run := Then(s, [], i, Lookup(a));
    assert s.entries[e := s.entries[e]] == s.entries;
  }

  /** With no other references on it, a page nobody has claimed is locked for writing. */
  lemma LockAlone(s: State, i: nat, a: Addr) returns (run: seq<Event>)
    requires Inv(s) && i < |s.pcs| && s.pcs[i] == Idle && a in s.lookup && s.lookup[a] < |s.entries|
    requires var st := s.entries[s.lookup[a]].status; !st.writeLocked && !st.loading && !st.claimed && !st.writeback
    requires OnlyUser(s, i, s.lookup[a])
    ensures var e := s.lookup[a];
      && i < |s.tids| && s.entries[e].refs == [0, 0, 0, 0]
      && Leads(s, run, s, i, Locked(Get(a), e, false), e, LockedBy(s, i, e))
  {
    hide Leads, Inv;
    var e, who := s.lookup[a], Get(a);
    Unreferenced(s, i, e);
    run := GetAlone(s, i, a);
    var x := Held(s.entries[e], Stripe(s, i));
    run := Go(s, run, s, i, Reading(a, e), e, x, TryClaim);
    var claimed := x.(status := x.status.(claimed := true));
    run := Go(s, run, s, i, Claimed(who, e), e, claimed, SetWriteLocked);
    run := Drain(s, run, s, i, who, e, LockedBy(s, i, e));
  }

  function LockedBy(s: State, i: nat, e: nat): Entry
    requires i < |s.tids| && e < |s.entries| && |s.entries[e].refs| == RC_WIDTH
  {
    var x := Held(s.entries[e], Stripe(s, i));
    x.(status := x.status.(claimed := true, writeLocked := true))
  }

  /** The write lock proper, once the flag is set. */
  lemma Drain(s: State, before: seq<Event>, t: State, i: nat, who: Who, e: nat, x: Entry) returns (run: seq<Event>)
    requires Leads(s, before, t, i, Flagged(who, e), e, x) && i < |t.tids| == |t.pcs| && !x.status.writeback
    requires x.refs == [0, 0, 0, 0][Stripe(t, i) := 1]
    ensures Leads(s, run, t, i, Locked(who, e, false), e, x)
  {
    hide Leads;
    Shape(s, before, t, i, Flagged(who, e), e, x);
    run := Go(s, before, t, i, Flagged(who, e), e, x, WaitWriteback);
    run := Go(s, run, t, i, Draining(who, e, 0), e, x, DrainStripe);
    run := Go(s, run, t, i, Draining(who, e, 1), e, x, DrainStripe);
    run := Go(s, run, t, i, Draining(who, e, 2), e, x, DrainStripe);
    run := Go(s, run, t, i, Draining(who, e, 3), e, x, DrainStripe);
  }

  lemma Shape(s: State, run: seq<Event>, t: State, i: nat, pc: Pc, e: nat, x: Entry)
    requires Leads(s, run, t, i, pc, e, x)
    ensures i < |t.pcs| && e < |t.entries|
  {
  }

  /** A write: the page is left dirty with the new value, and with no lock on it. */
  lemma WriteAlone(s: State, i: nat, a: Addr, v: Value) returns (run: seq<Event>)
    requires Inv(s) && i < |s.pcs| && s.pcs[i] == Idle && a in s.lookup && s.lookup[a] < |s.entries|
    requires var st := s.entries[s.lookup[a]].status; !st.writeLocked && !st.loading && !st.claimed && !st.writeback
    requires OnlyUser(s, i, s.lookup[a])
    ensures var e := s.lookup[a]; var x := s.entries[e];
      Leads(s, run, s, i, Idle, e, x.(status := x.status.(accessed := true, clean := false), data := v))
  {
    hide Leads, Inv, OnlyUser;
    var e := s.lookup[a];
    Mapped(s, a);
    run := LockAlone(s, i, a);
    var x := LockedBy(s, i, e);
    run := WriteLocked(s, run, i, a, e, x, v);
    var written := x.(status := x.status.(clean := false), data := v);
    run := Release(s, run, i, a, e, written);
    assert s.entries[e].refs == x.refs[Stripe(s, i) := 0];
  }

  /** Under the write lock the page is marked dirty before it is written. */
  lemma WriteLocked(s: State, before: seq<Event>, i: nat, a: Addr, e: nat, x: Entry, v: Value) returns (run: seq<Event>)
    requires Leads(s, before, s, i, Locked(Get(a), e, false), e, x) && |x.refs| == RC_WIDTH && |s.pcs| == |s.tids|
    ensures Leads(s, run, s, i, Locked(Get(a), e, true), e, x.(status := x.status.(clean := false), data := v))
  {
    hide Leads;
    Shape(s, before, s, i, Locked(Get(a), e, false), e, x);
    run := Go(s, before, s, i, Locked(Get(a), e, false), e, x, MarkDirty);
    run := Go(s, run, s, i, Locked(Get(a), e, true), e, x.(status := x.status.(clean := false)), Write(v));
  }

  /** Unlock, unclaim, unget. */
  lemma Release(s: State, before: seq<Event>, i: nat, a: Addr, e: nat, x: Entry) returns (run: seq<Event>)
    requires Leads(s, before, s, i, Locked(Get(a), e, true), e, x) && |x.refs| == RC_WIDTH && i < |s.pcs| == |s.tids|
    ensures var st := x.status.(writeLocked := false, claimed := false);
      Leads(s, run, s, i, Idle, e, WithRef(x.(status := st), Stripe(s, i), x.refs[Stripe(s, i)] - 1))
  {
    hide Leads;
    Shape(s, before, s, i, Locked(Get(a), e, true), e, x);
    run := Go(s, before, s, i, Locked(Get(a), e, true), e, x, Unlock);
    var unlocked := x.(status := x.status.(writeLocked := false));
    run := Go(s, run, s, i, Claimed(Get(a), e), e, unlocked, Unclaim);
    run := Go(s, run, s, i, Reading(a, e), e, unlocked.(status := x.status.(writeLocked := false, claimed := false)),
      Unget);
  }

  /** A step that changes more than the session and its entry. */
  lemma GoFar(s: State, before: seq<Event>, t: State, t': State, i: nat, pc: Pc, e: nat, x: Entry, act: Action)
    returns (run: seq<Event>)
    requires Leads(s, before, t, i, pc, e, x) && Enabled(With(t, i, pc, e, x), i, act) && !act.Lookup?
    requires i < |t'.pcs| && e < |t'.entries|
    requires var w := With(t, i, pc, e, x); Apply(w, i, act) == With(t', i, NewPc(w, i, act), e, NewEntry(w, i, act))
    ensures var w := With(t, i, pc, e, x); Leads(s, run, t', i, NewPc(w, i, act), e, NewEntry(w, i, act))
  {
    hide NewPc, NewEntry, Enabled, CanRun, Final, Apply;
    run := Then(s, before, i, act);
  }

  /** An unpinned clean page that nobody uses is evicted; if it was marked as accessed it takes a second pass. */
  lemma EvictAlone(s: State, i: nat, e: nat) returns (run: seq<Event>, a: Addr)
    requires Inv(s) && i < |s.pcs| && s.pcs[i] == Idle && e < |s.entries| && OnlyUser(s, i, e)
    requires var x := s.entries[e]; x.status.(accessed := false) == EVICTABLE_STATUS && x.pins == 0
    ensures s.entries[e].diskAddr == Some(a) && a in s.lookup && s.lookup[a] == e
    ensures var x := s.entries[e].(status := FREE_STATUS, diskAddr := None);
      Leads(s, run, s.(lookup := s.lookup - {a}), i, Idle, e, x)
  {
    hide Leads, Inv, OnlyUser;
    a := EvictableMapped(s, i, e);
    Unreferenced(s, i, e);
    Begin(s, i, e);
    run := [];
    var x := s.entries[e];
    if x.status.accessed {
      run := Go(s, run, s, i, Idle, e, x, PickVictim(e));
    }
    run := TakeVictim(s, run, i, e, x.(status := EVICTABLE_STATUS));
    var locked := Referenced(x.(status := LOCKED_EVICTABLE_STATUS), Stripe(s, i));
    run := GoUnmap(s, run, i, e, locked, a);
    run := FreeEntry(s, run, s.(lookup := s.lookup - {a}), i, e, locked);
    assert x.refs == locked.refs[Stripe(s, i) := 0];
  }

  lemma FreeEntry(s: State, before: seq<Event>, t: State, i: nat, e: nat, x: Entry) returns (run: seq<Event>)
    requires Leads(s, before, t, i, Unmapped(e), e, x) && |x.refs| == RC_WIDTH && i < |t.pcs| == |t.tids|
    ensures var me := Stripe(t, i);
      Leads(s, run, t, i, Idle, e, WithRef(x.(status := FREE_STATUS, diskAddr := None), me, x.refs[me] - 1))
  {
    hide Leads;
    Shape(s, before, t, i, Unmapped(e), e, x);
    run := Go(s, before, t, i, Unmapped(e), e, x, ClearAddr);
    var cleared := x.(diskAddr := None);
    run := Go(s, run, t, i, Cleared(e), e, cleared, SetFree);
    run := Go(s, run, t, i, Backing(Evict, e, true), e, cleared.(status := FREE_STATUS), DropRef(false));
  }

  function Referenced(x: Entry, stripe: nat): Entry
    requires stripe < |x.refs|
  {
    WithRef(x, stripe, x.refs[stripe] + 1)
  }

  lemma EvictableMapped(s: State, i: nat, e: nat) returns (a: Addr)
    requires Inv(s) && i < |s.pcs| && s.pcs[i] == Idle && e < |s.entries|
    requires s.entries[e].status.(accessed := false) == EVICTABLE_STATUS
    ensures s.entries[e].diskAddr == Some(a) && a in s.lookup && s.lookup[a] == e
  {
    hide Inv;
    InvEntry(s, e);
    NobodyElseTakesOut(s, i, e);
    a := s.entries[e].diskAddr.value;
  }

  lemma GoUnmap(s: State, before: seq<Event>, i: nat, e: nat, x: Entry, a: Addr) returns (run: seq<Event>)
    requires Leads(s, before, s, i, Verified(e), e, x) && x.diskAddr == Some(a) && |x.refs| == RC_WIDTH
    requires |s.pcs| == |s.tids|
    ensures Leads(s, run, s.(lookup := s.lookup - {a}), i, Unmapped(e), e, x)
  {
    hide CanRun, Final;
    var t := s.(lookup := s.lookup - {a});
    assert s.entries[e := x][e := x] == t.entries[e := x];
    assert s.pcs[i := Verified(e)][i := Unmapped(e)] == t.pcs[i := Unmapped(e)];
    run := GoFar(s, before, s, t, i, Verified(e), e, x, Unmap);
  }

  /** From the fast tests to the last one. */
  lemma TakeVictim(s: State, before: seq<Event>, i: nat, e: nat, x: Entry) returns (run: seq<Event>)
    requires Leads(s, before, s, i, Idle, e, x) && i < |s.pcs| == |s.tids|
    requires x.status == EVICTABLE_STATUS && x.pins == 0 && x.refs == [0, 0, 0, 0]
    ensures Leads(s, run, s, i, Verified(e), e, Referenced(x.(status := LOCKED_EVICTABLE_STATUS), Stripe(s, i)))
  {
    hide Leads;
    Shape(s, before, s, i, Idle, e, x);
    var counted := Referenced(x, Stripe(s, i));
    run := ReferVictim(s, before, i, e, x);
    run := ClaimVictim(s, run, i, e, counted);
    var locked := counted.(status := LOCKED_EVICTABLE_STATUS);
    run := Drain(s, run, s, i, Evict, e, locked);
    run := Go(s, run, s, i, Locked(Evict, e, false), e, locked, Verify);
  }

  lemma ReferVictim(s: State, before: seq<Event>, i: nat, e: nat, x: Entry) returns (run: seq<Event>)
    requires Leads(s, before, s, i, Idle, e, x) && i < |s.pcs| == |s.tids|
    requires x.status == EVICTABLE_STATUS && x.pins == 0 && x.refs == [0, 0, 0, 0]
    ensures Leads(s, run, s, i, Counted(Evict, e), e, Referenced(x, Stripe(s, i)))
  {
    hide Leads;
    Shape(s, before, s, i, Idle, e, x);
    run := Go(s, before, s, i, Idle, e, x, PickVictim(e));
    run := Go(s, run, s, i, Looked(Evict, e), e, x, TestWriting);
    run := Go(s, run, s, i, Tested(Evict, e), e, x, CountRef);
  }

  lemma ClaimVictim(s: State, before: seq<Event>, i: nat, e: nat, x: Entry) returns (run: seq<Event>)
    requires Leads(s, before, s, i, Counted(Evict, e), e, x) && i < |s.pcs| == |s.tids|
    requires x.status == EVICTABLE_STATUS && |x.refs| == RC_WIDTH
    ensures Leads(s, run, s, i, Flagged(Evict, e), e, x.(status := LOCKED_EVICTABLE_STATUS))
  {
    hide Leads;
    Shape(s, before, s, i, Counted(Evict, e), e, x);
    run := Go(s, before, s, i, Counted(Evict, e), e, x, TestFree);
    run := Go(s, run, s, i, FreeTested(Evict, e, false), e, x, TestWritingAgain);
    run := Go(s, run, s, i, Passed(Evict, e), e, x, TryClaim);
    run := FlagVictim(s, run, i, e, x.(status := x.status.(claimed := true)));
  }

  lemma FlagVictim(s: State, before: seq<Event>, i: nat, e: nat, claimed: Entry) returns (run: seq<Event>)
    requires Leads(s, before, s, i, Claimed(Evict, e), e, claimed) && i < |s.pcs| == |s.tids|
    requires !claimed.status.loading && |claimed.refs| == RC_WIDTH
    ensures Leads(s, run, s, i, Flagged(Evict, e), e, claimed.(status := claimed.status.(writeLocked := true)))
  {
    hide Leads;
    Shape(s, before, s, i, Claimed(Evict, e), e, claimed);
    run := Go(s, before, s, i, Claimed(Evict, e), e, claimed, TestLoading);
    run := Go(s, run, s, i, NotLoading(e), e, claimed, SetWriteLocked);
  }

  /** A page that is not in the cache is read into a free entry, and locked for reading. */
  lemma LoadAlone(s: State, i: nat, a: Addr, e: nat) returns (run: seq<Event>)
    requires i < |s.pcs| == |s.tids| && s.pcs[i] == Idle && a in s.disk && a !in s.lookup
    requires e < |s.entries| && s.entries[e].status == FREE_STATUS && |s.entries[e].refs| == RC_WIDTH
    ensures var x := s.entries[e].(status := EVICTABLE_STATUS, diskAddr := Some(a), data := s.disk[a]);
      Leads(s, run, s.(lookup := s.lookup[a := e]), i, Reading(a, e), e, Held(x, Stripe(s, i)))
  {
    hide Leads, CanRun, Final;
    var x, t := s.entries[e], s.(lookup := s.lookup[a := e]);
    var loading := Referenced(x.(status := READ_LOADING_STATUS), Stripe(s, i));
    Begin(s, i, e);
    Identity(s, i, e);
    run := GoFar(s, [], s, t, i, Idle, e, x, Miss(a, e));
    run := ReadIn(s, run, t, i, a, e, loading);
  }

  lemma ReadIn(s: State, before: seq<Event>, t: State, i: nat, a: Addr, e: nat, x: Entry) returns (run: seq<Event>)
    requires Leads(s, before, t, i, Loading(a, e), e, x) && |x.refs| == RC_WIDTH && |t.pcs| == |t.tids| && a in t.disk
    ensures var st := x.status.(loading := false);
      Leads(s, run, t, i, Reading(a, e), e, x.(status := st, diskAddr := Some(a), data := t.disk[a]))
  {
    hide Leads;
    Shape(s, before, t, i, Loading(a, e), e, x);
    run := Go(s, before, t, i, Loading(a, e), e, x, SetAddr);
    var addressed := x.(diskAddr := Some(a));
    run := Go(s, run, t, i, Addressed(a, e), e, addressed, ReadDisk);
    run := Go(s, run, t, i, Filled(a, e), e, addressed.(data := t.disk[a]), ClearLoading);
  }

  lemma Identity(s: State, i: nat, e: nat)
    requires i < |s.pcs| && e < |s.entries|
    ensures With(s, i, s.pcs[i], e, s.entries[e]) == s
  {
    assert s.entries[e := s.entries[e]] == s.entries && s.pcs[i := s.pcs[i]] == s.pcs;
  }

  /** A dirty page that nobody has claimed is written to disk and clean. */
  lemma CleanAlone(s: State, i: nat, e: nat, a: Addr) returns (run: seq<Event>)
    requires i < |s.pcs| == |s.tids| && s.pcs[i] == Idle && e < |s.entries| && s.entries[e].diskAddr == Some(a)
    requires s.entries[e].status == CLEANABLE1_STATUS || s.entries[e].status == CLEANABLE2_STATUS
    requires |s.entries[e].refs| == RC_WIDTH
    ensures var x := s.entries[e];
      Leads(s, run, s.(disk := s.disk[a := x.data]), i, Idle, e, x.(status := x.status.(clean := true)))
  {
    hide Leads, CanRun, Final;
    var x, t := s.entries[e], s.(disk := s.disk[a := s.entries[e].data]);
    Begin(s, i, e);
    run := Go(s, [], s, i, Idle, e, x, StartWriteback(e));
    var started := x.(status := x.status.(writeback := true));
    run := GoWrite(s, run, i, e, started, a);
    run := EndWriteback(s, run, t, i, e, started, a);
  }

  lemma GoWrite(s: State, before: seq<Event>, i: nat, e: nat, x: Entry, a: Addr) returns (run: seq<Event>)
    requires Leads(s, before, s, i, WbStarted(a, e), e, x) && |x.refs| == RC_WIDTH && |s.pcs| == |s.tids|
    ensures Leads(s, run, s.(disk := s.disk[a := x.data]), i, WbWritten(a, e), e, x)
  {
    hide CanRun, Final;
    var t := s.(disk := s.disk[a := x.data]);
    assert s.entries[e := x][e := x] == t.entries[e := x];
    assert s.pcs[i := WbStarted(a, e)][i := WbWritten(a, e)] == t.pcs[i := WbWritten(a, e)];
    run := GoFar(s, before, s, t, i, WbStarted(a, e), e, x, WriteDisk);
  }

  lemma EndWriteback(s: State, before: seq<Event>, t: State, i: nat, e: nat, x: Entry, a: Addr)
    returns (run: seq<Event>)
    requires Leads(s, before, t, i, WbWritten(a, e), e, x) && |x.refs| == RC_WIDTH && |t.pcs| == |t.tids|
    ensures Leads(s, run, t, i, Idle, e, x.(status := x.status.(clean := true, writeback := false)))
  {
    hide Leads;
    Shape(s, before, t, i, WbWritten(a, e), e, x);
    run := Go(s, before, t, i, WbWritten(a, e), e, x, SetClean);
    run := Go(s, run, t, i, WbCleaned(a, e), e, x.(status := x.status.(clean := true)), ClearWriteback);
  }
}
