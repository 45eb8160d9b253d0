/** Every step of the cache protocol keeps its invariant. */
module ClockCacheSteps {
  import opened Wrappers
  import opened ClockCache

  /* ---- Sessions ---- */

  /** Unmap removes an address that leads to the entry taken out. */
  ghost predicate UnmapsOwn(s: State, i: nat, act: Action)
    requires Enabled(s, i, act)
  {
    act.Unmap? ==> s.entries[s.pcs[i].e].diskAddr.Some? && MapsTo(s, s.entries[s.pcs[i].e].diskAddr.value, s.pcs[i].e)
  }

  predicate Enters(act: Action) {
    act.PickVictim? || act.TestWriting? || act.GiveUp? || act.CountRef? || act.TestFree? || act.TestWritingAgain?
    || act.DropRef? || act.Touch? || act.CheckAddr? || act.WaitLoaded? || act.Unget? || act.Unpin?
  }

  predicate Locks(act: Action) {
    act.TryClaim? || act.Unclaim? || act.SetWriteLocked? || act.WaitWriteback? || act.DrainStripe? || act.MarkDirty?
    || act.Write? || act.Pin? || act.Unlock? || act.TestLoading? || act.BailOut? || act.ReleaseClaim? || act.Verify?
  }

  /** Steps that write neither the lookup array nor the disk. */
  lemma StaysInEntry(s: State, i: nat, act: Action)
    requires Enabled(s, i, act) && (Enters(act) || Locks(act))
    ensures !act.Lookup?
    ensures var s' := Apply(s, i, act);
      s'.lookup == s.lookup && s'.disk == s.disk && s'.pcs[i] == NewPc(s, i, act)
      && s'.entries == s.entries[TargetOf(s, i, act) := NewEntry(s, i, act)]
  {
    hide NewPc, NewEntry;
  }

  /** A session of the same entry. */
  ghost predicate AtSameEntry(s: State, i: nat, act: Action, j: nat) {
    && Enabled(s, i, act) && !act.Lookup? && j < |s.pcs| && j != i
    && SessionOk(s, i) && SessionOk(s, j) && PairOk(s, i, j) && PairOk(s, j, i)
    && EntryOk(s, TargetOf(s, i, act)) && UnmapsOwn(s, i, act)
    && !s.pcs[j].Idle? && s.pcs[j].e == TargetOf(s, i, act)
  }

  /** s' differs from s at most in one entry and in another session than j. */
  predicate OnlyEntry(s: State, s': State, j: nat, x': Entry) {
    && j < |s.pcs| == |s'.pcs| && s'.pcs[j] == s.pcs[j] && s'.lookup == s.lookup && s'.disk == s.disk
    && !s.pcs[j].Idle? && s.pcs[j].e < |s.entries| && s'.entries == s.entries[s.pcs[j].e := x']
  }

  /** What a session may do to an entry that others rely on. */
  predicate Lightly(x: Entry, x': Entry) {
    && x'.data == x.data && x'.diskAddr == x.diskAddr && x'.pins <= x.pins
    && x'.status == x.status.(accessed := x'.status.accessed)
  }

  /** What the owner of the claim may do besides. */
  predicate ByClaim(x: Entry, x': Entry) {
    && x'.diskAddr == x.diskAddr && x'.status.free == x.status.free && x'.status.loading == x.status.loading
    && x'.status.writeback == x.status.writeback && (x'.status.clean ==> x.status.clean)
    && (x'.data == x.data || (!x.status.writeback && !x.status.loading))
  }

  lemma KeptLightly(s: State, s': State, j: nat, x': Entry)
    requires OnlyEntry(s, s', j, x') && Lightly(s.entries[s.pcs[j].e], x') && SessionOk(s, j)
    ensures SessionOk(s', j)
  {
  }

  lemma KeptByClaim(s: State, s': State, j: nat, x': Entry)
    requires OnlyEntry(s, s', j, x') && ByClaim(s.entries[s.pcs[j].e], x') && SessionOk(s, j)
    requires !OwnsClaim(s.pcs[j], s.pcs[j].e)
    ensures SessionOk(s', j)
  {
  }

  lemma SessionKeptOtherEntering(s: State, i: nat, act: Action, j: nat)
    requires AtSameEntry(s, i, act, j) && Enters(act)
    ensures SessionOk(Apply(s, i, act), j)
  {
    hide NobodyTakesOut, RefsOk, Apply, NewPc, NewEntry, Enabled, Enters, PairOk, EntryOk, UnmapsOwn, SessionOk;
    StaysInEntry(s, i, act);
    StepShape(s, i, act);
    EntersLightly(s, i, act);
    KeptLightly(s, Apply(s, i, act), j, NewEntry(s, i, act));
  }

  /** A session that has not got the page yet changes what no other session relies on. */
  lemma EntersLightly(s: State, i: nat, act: Action)
    requires Enabled(s, i, act) && Enters(act)
    ensures !act.Lookup?
    ensures Lightly(s.entries[TargetOf(s, i, act)], NewEntry(s, i, act))
  {
  }

  lemma SessionKeptOtherLocking(s: State, i: nat, act: Action, j: nat)
    requires AtSameEntry(s, i, act, j) && Locks(act)
    ensures SessionOk(Apply(s, i, act), j)
  {
    hide NobodyTakesOut, RefsOk, Apply, NewPc, NewEntry, Enabled, Locks, EntryOk, UnmapsOwn;
    StaysInEntry(s, i, act);
    StepShape(s, i, act);
    LocksByClaim(s, i, act);
    ClaimOrSame(s, i, act, j);
    hide PairOk, SessionOk;
    if NewEntry(s, i, act) == s.entries[s.pcs[j].e] {
      KeptLightly(s, Apply(s, i, act), j, NewEntry(s, i, act));
    } else {
      KeptByClaim(s, Apply(s, i, act), j, NewEntry(s, i, act));
    }
  }

  /** Only one session owns the claim, so an owner sees no other one change the entry. */
  lemma ClaimOrSame(s: State, i: nat, act: Action, j: nat)
    requires AtSameEntry(s, i, act, j) && Locks(act)
    ensures s.pcs[j].e < |s.entries|
    ensures NewEntry(s, i, act) == s.entries[s.pcs[j].e] || !OwnsClaim(s.pcs[j], s.pcs[j].e)
  {
    hide NobodyTakesOut, RefsOk, NewEntry, EntryOk, UnmapsOwn;
    LocksByClaim(s, i, act);
  }

  /** Past the claim a session changes the entry only if nobody else can have it claimed, written back or loaded. */
  lemma LocksByClaim(s: State, i: nat, act: Action)
    requires Enabled(s, i, act) && Locks(act) && SessionOk(s, i)
    ensures !act.Lookup?
    ensures var e := TargetOf(s, i, act);
      var x, x' := s.entries[e], NewEntry(s, i, act);
      ByClaim(x, x') && (x' == x || OwnsClaim(s.pcs[i], e) || !x.status.claimed)
  {
    hide RefsOk, MapsTo;
  }

  lemma SessionKeptOtherMovingPages(s: State, i: nat, act: Action, j: nat)
    requires AtSameEntry(s, i, act, j) && !Enters(act) && !Locks(act)
    ensures SessionOk(Apply(s, i, act), j)
  {
    hide NobodyTakesOut, RefsOk, NewPc;
  }

  /** Entry e, the addresses that lead to it and their pages on disk are the same. */
  ghost predicate SameAt(s: State, s': State, e: nat) {
    && e < |s.entries| == |s'.entries| && s'.entries[e] == s.entries[e]
    && (forall a | a in s.lookup && s.lookup[a] == e :: a in s'.lookup && s'.lookup[a] == e)
    && (forall a | a in s'.lookup && s'.lookup[a] == e :: a in s.lookup && s.lookup[a] == e)
    && (forall a | a in s.lookup && s.lookup[a] == e && a in s.disk :: a in s'.disk && s'.disk[a] == s.disk[a])
  }

  lemma KeptWhereSame(s: State, s': State, j: nat)
    requires j < |s.pcs| == |s'.pcs| && s'.pcs[j] == s.pcs[j] && SessionOk(s, j)
    requires !s.pcs[j].Idle? ==> SameAt(s, s', s.pcs[j].e)
    ensures SessionOk(s', j)
  {
  }

  lemma SameElsewhere(s: State, i: nat, act: Action, e: nat)
    requires Enabled(s, i, act) && !act.Lookup? && e < |s.entries| && e != Target(s.pcs[i], act)
    requires UnmapsOwn(s, i, act) && SessionOk(s, i)
    ensures SameAt(s, Apply(s, i, act), e)
  {
    hide NewPc, NewEntry;
  }

  /** A session of another entry. */
  lemma SessionKeptElsewhere(s: State, i: nat, act: Action, j: nat)
    requires Enabled(s, i, act) && !act.Lookup? && j < |s.pcs| && j != i
    requires !s.pcs[j].Idle? && s.pcs[j].e < |s.entries| && s.pcs[j].e != Target(s.pcs[i], act)
    requires UnmapsOwn(s, i, act) && SessionOk(s, i) && SessionOk(s, j)
    ensures SessionOk(Apply(s, i, act), j)
  {
    hide SessionOk, UnmapsOwn, Apply, SameAt, Enabled, NewPc;
    StepShape(s, i, act);
    SameElsewhere(s, i, act, s.pcs[j].e);
    KeptWhereSame(s, Apply(s, i, act), j);
  }

  /* The session that moves, by the part of the protocol it is in. */

  lemma SessionKeptEntering(s: State, i: nat, act: Action)
    requires Enabled(s, i, act) && Enters(act) && SessionOk(s, i) && EntryOk(s, Target(s.pcs[i], act))
    requires act.CheckAddr? ==> NobodyTakesOut(s, Target(s.pcs[i], act))
    ensures SessionOk(Apply(s, i, act), i)
  {
    hide RefsOk, NobodyTakesOut, Apply;
    StaysInEntry(s, i, act);
  }

  lemma SessionKeptLocking(s: State, i: nat, act: Action)
    requires Enabled(s, i, act) && Locks(act) && SessionOk(s, i) && EntryOk(s, Target(s.pcs[i], act))
    ensures SessionOk(Apply(s, i, act), i)
  {
    hide RefsOk, NobodyTakesOut, Apply;
    StaysInEntry(s, i, act);
  }

  lemma SessionKeptMovingPages(s: State, i: nat, act: Action)
    requires Enabled(s, i, act) && !act.Lookup? && !Enters(act) && !Locks(act) && SessionOk(s, i)
    requires EntryOk(s, Target(s.pcs[i], act)) && UnmapsOwn(s, i, act)
    requires act.Miss? ==> forall a | a in s.lookup :: s.lookup[a] != act.victim
    requires act.StartWriteback? ==> NobodyTakesOut(s, Target(s.pcs[i], act))
    requires act.Unmap? ==> forall a, b | a in s.lookup && b in s.lookup && s.lookup[a] == s.lookup[b] :: a == b
    ensures SessionOk(Apply(s, i, act), i)
  {
    hide RefsOk, NobodyTakesOut;
  }

  lemma SessionKeptSelf(s: State, i: nat, act: Action)
    requires Enabled(s, i, act) && !act.Lookup? && SessionOk(s, i)
    requires EntryOk(s, Target(s.pcs[i], act)) && UnmapsOwn(s, i, act)
    requires act.Miss? ==> forall a | a in s.lookup :: s.lookup[a] != act.victim
    requires act.CheckAddr? || act.StartWriteback? ==> NobodyTakesOut(s, Target(s.pcs[i], act))
    requires act.Unmap? ==> forall a, b | a in s.lookup && b in s.lookup && s.lookup[a] == s.lookup[b] :: a == b
    ensures SessionOk(Apply(s, i, act), i)
  {
    hide RefsOk, NobodyTakesOut, SessionOk, EntryOk, UnmapsOwn, Apply, Enters, Locks;
    if Enters(act) {
      SessionKeptEntering(s, i, act);
    } else if Locks(act) {
      SessionKeptLocking(s, i, act);
    } else {
      SessionKeptMovingPages(s, i, act);
    }
  }

  lemma PairKeptOthers(s: State, i: nat, act: Action, j: nat, k: nat)
    requires Enabled(s, i, act) && j < |s.pcs| && k < |s.pcs| && j != i && k != i && PairOk(s, j, k)
    ensures PairOk(Apply(s, i, act), j, k)
  {
    hide NewEntry, NewPc, OwnsClaim, WritesBack, LoadsInto, HasDrained, Admitted;
  }

  /** The stripe that i has just drained holds no reference of j. */
  ghost predicate NoOtherRef(s: State, i: nat, act: Action, j: nat)
    requires Enabled(s, i, act) && j < |s.pcs|
  {
    act.DrainStripe? && Stripe(s, j) == s.pcs[i].stripe ==> !HoldsRef(s.pcs[j], s.pcs[i].e)
  }

  /* The session that moves, against one that stays. */

  ghost predicate PairPremises(s: State, i: nat, act: Action, j: nat) {
    && Enabled(s, i, act) && !act.Lookup? && j < |s.pcs| && j != i
    && SessionOk(s, j) && PairOk(s, i, j) && PairOk(s, j, i)
    && NoOtherRef(s, i, act, j) && EntryOk(s, TargetOf(s, i, act))
  }

  lemma ClaimsApart(s: State, i: nat, act: Action, j: nat, e: nat)
    requires PairPremises(s, i, act, j)
    ensures !(OwnsClaim(NewPc(s, i, act), e) && OwnsClaim(s.pcs[j], e))
  {
    hide RefsOk, NewEntry, MapsTo, NobodyTakesOut, HasDrained, Admitted, WritesBack, LoadsInto, NoOtherRef;
  }

  lemma WritebacksApart(s: State, i: nat, act: Action, j: nat, e: nat)
    requires PairPremises(s, i, act, j)
    ensures !(WritesBack(NewPc(s, i, act), e) && WritesBack(s.pcs[j], e))
  {
    hide RefsOk, NewEntry, MapsTo, NobodyTakesOut, HasDrained, Admitted, OwnsClaim, LoadsInto, NoOtherRef;
  }

  lemma LoadersApart(s: State, i: nat, act: Action, j: nat, e: nat)
    requires PairPremises(s, i, act, j)
    ensures !(LoadsInto(NewPc(s, i, act), e) && LoadsInto(s.pcs[j], e))
  {
    hide RefsOk, NewEntry, MapsTo, NobodyTakesOut, HasDrained, Admitted, OwnsClaim, WritesBack, NoOtherRef;
  }

  lemma DrainedBy(s: State, i: nat, act: Action, j: nat, e: nat)
    requires PairPremises(s, i, act, j)
    ensures !(HasDrained(NewPc(s, i, act), e, Stripe(s, j)) && Admitted(s.pcs[j], e))
  {
    hide RefsOk, NewEntry, MapsTo, NobodyTakesOut, OwnsClaim, WritesBack, LoadsInto, SessionOk;
  }

  lemma DrainedFor(s: State, i: nat, act: Action, j: nat, e: nat)
    requires PairPremises(s, i, act, j)
    ensures !(HasDrained(s.pcs[j], e, Stripe(s, i)) && Admitted(NewPc(s, i, act), e))
  {
    hide RefsOk, NewEntry, MapsTo, NobodyTakesOut, WritesBack, LoadsInto, NoOtherRef;
  }

  lemma PairKept(s: State, i: nat, act: Action, j: nat)
    requires PairPremises(s, i, act, j)
    ensures PairOk(Apply(s, i, act), i, j) && PairOk(Apply(s, i, act), j, i)
  {
    hide PairPremises, NewPc, NewEntry, Enabled, OwnsClaim, WritesBack, LoadsInto, HasDrained, Admitted, Apply;
    PairShape(s, i, act, j);
    var q := s.pcs[j];
    if !q.Idle? {
      ClaimsApart(s, i, act, j, q.e);
      WritebacksApart(s, i, act, j, q.e);
      LoadersApart(s, i, act, j, q.e);
      DrainedBy(s, i, act, j, q.e);
      DrainedFor(s, i, act, j, q.e);
    }
  }

  lemma PairShape(s: State, i: nat, act: Action, j: nat)
    requires PairPremises(s, i, act, j)
    ensures Enabled(s, i, act)
    ensures var s' := Apply(s, i, act);
      i < |s.pcs| == |s.tids| && j < |s.pcs| && |s'.pcs| == |s.pcs| && s'.tids == s.tids
      && s'.pcs[i] == NewPc(s, i, act) && s'.pcs[j] == s.pcs[j]
  {
    hide SessionOk, EntryOk, PairOk, NoOtherRef, NewPc, NewEntry;
  }

  /* ---- Entries and addresses ---- */

  /** A session that takes an entry out is at it until the entry is free. */
  lemma StillTakesOut(s: State, i: nat, act: Action, f: nat)
    requires Enabled(s, i, act) && !act.Lookup? && NobodyTakesOut(Apply(s, i, act), f)
    ensures NobodyTakesOut(s, f) || (act.SetFree? && s.pcs[i].e == f)
  {
    var s' := Apply(s, i, act);
    forall j | 0 <= j < |s.pcs| && !(act.SetFree? && s.pcs[i].e == f) ensures !TakesOut(s.pcs[j], f) {
      assert !TakesOut(s'.pcs[j], f);
    }
  }

  lemma EntryKept(s: State, i: nat, act: Action)
    requires Enabled(s, i, act) && !act.Lookup? && SessionOk(s, i) && EntryOk(s, Target(s.pcs[i], act))
    requires act.Miss? ==> forall a | a in s.lookup :: s.lookup[a] != act.victim
    ensures EntryOk(Apply(s, i, act), Target(s.pcs[i], act))
  {
    hide RefsOk, NobodyTakesOut;
    if NobodyTakesOut(Apply(s, i, act), Target(s.pcs[i], act)) {
      StillTakesOut(s, i, act, Target(s.pcs[i], act));
    }
    if act.Unmap? {
      NowTakesOut(s, i, act);
    }
  }

  lemma NowTakesOut(s: State, i: nat, act: Action)
    requires Enabled(s, i, act) && act.Unmap?
    ensures !NobodyTakesOut(Apply(s, i, act), s.pcs[i].e)
  {
    assert TakesOut(Apply(s, i, act).pcs[i], s.pcs[i].e);
  }

  lemma EntryKeptElsewhere(s: State, i: nat, act: Action, f: nat)
    requires Enabled(s, i, act) && !act.Lookup? && f < |s.entries| && f != Target(s.pcs[i], act)
    requires SessionOk(s, i) && EntryOk(s, f) && UnmapsOwn(s, i, act)
    ensures EntryOk(Apply(s, i, act), f)
  {
    hide RefsOk, NobodyTakesOut;
    if NobodyTakesOut(Apply(s, i, act), f) {
      StillTakesOut(s, i, act, f);
    }
  }

  /** An address of another entry. */
  lemma AddrKeptElsewhere(s: State, i: nat, act: Action, a: Addr)
    requires Enabled(s, i, act) && !act.Lookup? && SessionOk(s, i) && a in Apply(s, i, act).lookup
    requires a in s.lookup && AddrOk(s, a) && s.lookup[a] != Target(s.pcs[i], act)
    ensures AddrOk(Apply(s, i, act), a)
  {
    hide RefsOk, NewPc, NewEntry;
  }

  /** An address of the entry itself. */
  ghost predicate AddrHere(s: State, i: nat, act: Action, a: Addr) {
    && Enabled(s, i, act) && !act.Lookup? && SessionOk(s, i) && UnmapsOwn(s, i, act)
    && EntryOk(s, TargetOf(s, i, act)) && a in Apply(s, i, act).lookup
    && (a in s.lookup ==> AddrOk(s, a) && s.lookup[a] == TargetOf(s, i, act))
    && (forall b | b in s.lookup :: s.lookup[b] < |s.entries| && !s.entries[s.lookup[b]].status.free)
  }

  lemma AddrKeptQuiet(s: State, i: nat, act: Action, a: Addr)
    requires AddrHere(s, i, act, a) && (Enters(act) || Locks(act))
    ensures AddrOk(Apply(s, i, act), a)
  {
    StaysInEntry(s, i, act);
    QuietEntry(s, i, act);
    hide RefsOk, NobodyTakesOut, NewPc, NewEntry, Apply, SessionOk, EntryOk, UnmapsOwn, Enters, Locks, Enabled;
  }

  lemma QuietEntry(s: State, i: nat, act: Action)
    requires Enabled(s, i, act) && (Enters(act) || Locks(act)) && SessionOk(s, i)
    ensures !act.Lookup?
    ensures var x, x' := s.entries[TargetOf(s, i, act)], NewEntry(s, i, act);
      x'.diskAddr == x.diskAddr && x'.status.free == x.status.free && x'.status.loading == x.status.loading
      && (x'.status.clean ==> x.status.clean && x'.data == x.data)
  {
    hide RefsOk, MapsTo;
  }

  lemma AddrKeptMovingPages(s: State, i: nat, act: Action, a: Addr)
    requires AddrHere(s, i, act, a) && !Enters(act) && !Locks(act)
    ensures AddrOk(Apply(s, i, act), a)
  {
    hide RefsOk, NobodyTakesOut, NewPc;
  }

  lemma AddrKept(s: State, i: nat, act: Action, a: Addr)
    requires Enabled(s, i, act) && !act.Lookup? && SessionOk(s, i) && UnmapsOwn(s, i, act)
    requires EntryOk(s, Target(s.pcs[i], act)) && a in Apply(s, i, act).lookup
    requires a in s.lookup ==> AddrOk(s, a)
    requires forall b | b in s.lookup :: s.lookup[b] < |s.entries| && !s.entries[s.lookup[b]].status.free
    ensures AddrOk(Apply(s, i, act), a)
  {
    hide SessionOk, EntryOk, AddrOk, UnmapsOwn, Apply, Enters, Locks, Enabled;
    if a in s.lookup && s.lookup[a] != TargetOf(s, i, act) {
      AddrKeptElsewhere(s, i, act, a);
    } else if Enters(act) || Locks(act) {
      AddrKeptQuiet(s, i, act, a);
    } else {
      AddrKeptMovingPages(s, i, act, a);
    }
  }

  /* ---- Reference counts ---- */

  lemma {:induction false} CountUpdated(pcs: seq<Pc>, tids: seq<nat>, i: nat, pc: Pc, e: nat, stripe: nat)
    requires |pcs| == |tids| && i < |pcs|
    ensures CountRefs(pcs[i := pc], tids, e, stripe) == CountRefs(pcs, tids, e, stripe)
      - (if HoldsRef(pcs[i], e) && tids[i] % RC_WIDTH == stripe then 1 else 0)
      + (if HoldsRef(pc, e) && tids[i] % RC_WIDTH == stripe then 1 else 0)
  {
    hide HoldsRef;
    var n := |pcs| - 1;
    if i < n {
      CountUpdated(pcs[..n], tids[..n], i, pc, e, stripe);
      assert pcs[i := pc][..n] == pcs[..n][i := pc];
    } else {
      assert pcs[i := pc][..n] == pcs[..n];
    }
  }

  /** A count of one that is accounted for leaves nobody else. */
  lemma CountedHolders(s: State, i: nat, j: nat, e: nat, stripe: nat)
    requires |s.pcs| == |s.tids| && i < |s.pcs| && j < |s.pcs| && i != j && stripe == Stripe(s, j)
    requires HoldsRef(s.pcs[j], e)
    ensures CountRefs(s.pcs, s.tids, e, stripe)
         >= if HoldsRef(s.pcs[i], e) && Stripe(s, i) == stripe then 2 else 1
  {
    CountUpdated(s.pcs, s.tids, j, Idle, e, stripe);
    CountUpdated(s.pcs[j := Idle], s.tids, i, Idle, e, stripe);
  }

  lemma DrainedMeansNone(s: State, i: nat, act: Action, j: nat)
    requires Enabled(s, i, act) && j < |s.pcs| && j != i && RefsOk(s)
    ensures NoOtherRef(s, i, act, j)
  {
    if act.DrainStripe? && Stripe(s, j) == s.pcs[i].stripe && HoldsRef(s.pcs[j], s.pcs[i].e) {
      CountedHolders(s, i, j, s.pcs[i].e, s.pcs[i].stripe);
    }
  }

  /** References a step takes. */
  function Gain(act: Action): int {
    if act.Miss? || act.CountRef? then 1 else if act.DropRef? || act.Unget? then -1 else 0
  }

  function Held(pc: Pc, e: nat): int {
    if HoldsRef(pc, e) then 1 else 0
  }

  lemma GainInRefs(s: State, i: nat, act: Action)
    requires Enabled(s, i, act) && !act.Lookup? && |s.entries[Target(s.pcs[i], act)].refs| == RC_WIDTH
    ensures var x, me := s.entries[Target(s.pcs[i], act)], Stripe(s, i);
      NewEntry(s, i, act).refs == if Gain(act) == 0 then x.refs else x.refs[me := x.refs[me] + Gain(act)]
  {
  }

  lemma GainInHolding(s: State, i: nat, act: Action)
    requires Enabled(s, i, act) && !act.Lookup?
    ensures Held(NewPc(s, i, act), Target(s.pcs[i], act)) == Held(s.pcs[i], Target(s.pcs[i], act)) + Gain(act)
    ensures forall e | e != Target(s.pcs[i], act) :: Held(s.pcs[i], e) == Held(NewPc(s, i, act), e) == 0
  {
  }

  /** The step's change to the count of one stripe is what the session gains or gives up. */
  lemma RefChange(s: State, i: nat, act: Action, e: nat, stripe: nat)
    requires Enabled(s, i, act) && !act.Lookup? && e < |s.entries| && stripe < RC_WIDTH
    requires |s.entries[e].refs| == RC_WIDTH
    requires Target(s.pcs[i], act) < |s.entries| && |s.entries[Target(s.pcs[i], act)].refs| == RC_WIDTH
    ensures var s' := Apply(s, i, act);
      && |s'.entries[e].refs| == RC_WIDTH
      && s'.entries[e].refs[stripe] == s.entries[e].refs[stripe]
           + if Stripe(s, i) == stripe then Held(NewPc(s, i, act), e) - Held(s.pcs[i], e) else 0
  {
    hide NewEntry, NewPc, Held;
    var target := Target(s.pcs[i], act);
    GainInRefs(s, i, act);
    GainInHolding(s, i, act);
    if e == target {
      assert Apply(s, i, act).entries[e] == NewEntry(s, i, act);
    } else {
      assert Apply(s, i, act).entries[e] == s.entries[e];
      assert Held(s.pcs[i], e) == 0;
    }
  }

  lemma RefKeptAt(s: State, i: nat, act: Action, e: nat, stripe: nat)
    requires Enabled(s, i, act) && RefsOk(s) && e < |s.entries| && stripe < RC_WIDTH
    ensures var s' := Apply(s, i, act);
      && |s'.pcs| == |s'.tids| && |s'.entries| == |s.entries| && |s'.entries[e].refs| == RC_WIDTH
      && s'.entries[e].refs[stripe] == CountRefs(s'.pcs, s'.tids, e, stripe)
  {
    hide NewPc, NewEntry, HoldsRef, CountRefs, Apply;
    StepShape(s, i, act);
    FourStripes(s, e);
    CountUpdated(s.pcs, s.tids, i, NewPc(s, i, act), e, stripe);
    if act.Lookup? {
      LookupHoldsNothing(s, i, act, e);
    } else {
      FourStripes(s, TargetOf(s, i, act));
      RefChange(s, i, act, e, stripe);
    }
  }

  lemma RefsKept(s: State, i: nat, act: Action)
    requires Enabled(s, i, act) && RefsOk(s)
    ensures RefsOk(Apply(s, i, act))
  {
    hide NewPc, NewEntry, HoldsRef, CountRefs, Apply;
    var s' := Apply(s, i, act);
    StepShape(s, i, act);
    forall e, stripe: nat | 0 <= e < |s'.entries| && stripe < RC_WIDTH
      ensures |s'.entries[e].refs| == RC_WIDTH && s'.entries[e].refs[stripe] == CountRefs(s'.pcs, s'.tids, e, stripe)
    {
      RefKeptAt(s, i, act, e, stripe);
    }
    forall e | 0 <= e < |s'.entries| ensures |s'.entries[e].refs| == RC_WIDTH {
      RefKeptAt(s, i, act, e, 0);
    }
  }

  lemma StepShape(s: State, i: nat, act: Action)
    requires Enabled(s, i, act)
    ensures var s' := Apply(s, i, act);
      && s'.pcs == s.pcs[i := NewPc(s, i, act)] && s'.tids == s.tids && |s'.entries| == |s.entries|
      && (act.Lookup? ==> s'.entries == s.entries)
  {
    hide NewPc, NewEntry;
  }

  lemma FourStripes(s: State, e: nat)
    requires RefsOk(s) && e < |s.entries|
    ensures |s.entries[e].refs| == RC_WIDTH
  {
  }

  lemma LookupHoldsNothing(s: State, i: nat, act: Action, e: nat)
    requires Enabled(s, i, act) && act.Lookup?
    ensures !HoldsRef(s.pcs[i], e) && !HoldsRef(NewPc(s, i, act), e)
  {
  }

  /* ---- All of it ---- */

  lemma InvAt(s: State, i: nat)
    requires Inv(s) && i < |s.pcs|
    ensures SessionOk(s, i) && RefsOk(s) && |s.pcs| == |s.tids|
  {
  }

  lemma InvPair(s: State, i: nat, j: nat)
    requires Inv(s) && i < |s.pcs| && j < |s.pcs| && i != j
    ensures |s.pcs| == |s.tids| && PairOk(s, i, j)
  {
  }

  lemma InvEntry(s: State, e: nat)
    requires Inv(s) && e < |s.entries|
    ensures EntryOk(s, e)
  {
  }

  lemma InvAddr(s: State, a: Addr)
    requires Inv(s) && a in s.lookup
    ensures AddrOk(s, a)
  {
  }

  /** Nobody can be taking out an entry somebody else holds the claim of, or is admitted to. */
  lemma NobodyElseTakesOut(s: State, i: nat, e: nat)
    requires Inv(s) && i < |s.pcs| && !TakesOut(s.pcs[i], e)
    requires OwnsClaim(s.pcs[i], e) || Admitted(s.pcs[i], e) || (e < |s.entries| && !s.entries[e].status.claimed)
    ensures NobodyTakesOut(s, e)
  {
    hide Inv, EntryOk, AddrOk, RefsOk, MapsTo;
    forall j | 0 <= j < |s.pcs| ensures !TakesOut(s.pcs[j], e) {
      if TakesOut(s.pcs[j], e) && j != i {
        InvPair(s, i, j);
        InvPair(s, j, i);
        InvAt(s, j);
        InvAt(s, i);
      }
    }
  }

  lemma UnmapIsOwn(s: State, i: nat, act: Action)
    requires Inv(s) && Enabled(s, i, act)
    ensures UnmapsOwn(s, i, act)
  {
    hide Inv, AddrOk, RefsOk, MapsTo, NobodyTakesOut;
    if act.Unmap? {
      InvAt(s, i);
      InvEntry(s, s.pcs[i].e);
      NobodyElseTakesOut(s, i, s.pcs[i].e);
    }
  }

  lemma FreeIsUnmapped(s: State, e: nat)
    requires Inv(s) && e < |s.entries| && s.entries[e].status.free
    ensures forall a | a in s.lookup :: s.lookup[a] != e
  {
    hide Inv, EntryOk, RefsOk;
    forall a | a in s.lookup ensures s.lookup[a] != e {
      InvAddr(s, a);
    }
  }

  lemma LookupsInjective(s: State)
    requires Inv(s)
    ensures forall a, b | a in s.lookup && b in s.lookup && s.lookup[a] == s.lookup[b] :: a == b
    ensures forall b | b in s.lookup :: s.lookup[b] < |s.entries| && !s.entries[s.lookup[b]].status.free
  {
    hide Inv, EntryOk, RefsOk;
    forall a | a in s.lookup
      ensures s.lookup[a] < |s.entries| && !s.entries[s.lookup[a]].status.free
      ensures forall b | b in s.lookup && s.lookup[a] == s.lookup[b] :: a == b
    {
      InvAddr(s, a);
    }
  }

  lemma SessionsKept(s: State, i: nat, act: Action, j: nat)
    requires Inv(s) && Enabled(s, i, act) && !act.Lookup? && j < |s.pcs|
    ensures SessionOk(Apply(s, i, act), j)
  {
    hide Inv, EntryOk, AddrOk, RefsOk, SessionOk, PairOk, MapsTo, UnmapsOwn, NobodyTakesOut, NewEntry, NewPc,
      Enters, Locks;
    var e := TargetOf(s, i, act);
    InvAt(s, i);
    InvAt(s, j);
    InvEntry(s, e);
    UnmapIsOwn(s, i, act);
    LookupsInjective(s);
    if j == i {
      SelfFacts(s, i, act);
      SessionKeptSelf(s, i, act);
    } else if s.pcs[j].Idle? {
      IdleStays(s, i, act, j);
    } else if s.pcs[j].e == e {
      InvPair(s, i, j);
      InvPair(s, j, i);
      if Enters(act) {
        SessionKeptOtherEntering(s, i, act, j);
      } else if Locks(act) {
        SessionKeptOtherLocking(s, i, act, j);
      } else {
        SessionKeptOtherMovingPages(s, i, act, j);
      }
    } else {
      EntryInRange(s, j);
      SessionKeptElsewhere(s, i, act, j);
    }
  }

  lemma EntryInRange(s: State, j: nat)
    requires j < |s.pcs| && SessionOk(s, j) && !s.pcs[j].Idle?
    ensures s.pcs[j].e < |s.entries|
  {
  }

  ghost function TargetOf(s: State, i: nat, act: Action): (e: nat)
    requires Enabled(s, i, act) && !act.Lookup?
    ensures e == Target(s.pcs[i], act) && e < |s.entries|
  {
    Target(s.pcs[i], act)
  }

  lemma SelfFacts(s: State, i: nat, act: Action)
    requires Inv(s) && Enabled(s, i, act) && !act.Lookup?
    ensures act.Miss? ==> forall a | a in s.lookup :: s.lookup[a] != act.victim
    ensures act.CheckAddr? || act.StartWriteback? ==> NobodyTakesOut(s, Target(s.pcs[i], act))
  {
    hide Inv, NobodyTakesOut;
    if act.Miss? {
      FreeIsUnmapped(s, act.victim);
    } else if act.CheckAddr? || act.StartWriteback? {
      NobodyElseTakesOut(s, i, Target(s.pcs[i], act));
    }
  }

  lemma IdleStays(s: State, i: nat, act: Action, j: nat)
    requires Enabled(s, i, act) && j < |s.pcs| && j != i && s.pcs[j].Idle?
    ensures j < |Apply(s, i, act).pcs| && SessionOk(Apply(s, i, act), j)
  {
  }

  lemma PairsKept(s: State, i: nat, act: Action, j: nat, k: nat)
    requires Inv(s) && Enabled(s, i, act) && !act.Lookup? && j < |s.pcs| && k < |s.pcs| && j != k
    ensures PairOk(Apply(s, i, act), j, k)
  {
    hide Inv, EntryOk, AddrOk, RefsOk, SessionOk, PairOk, MapsTo, NewEntry, NewPc, NoOtherRef;
    InvPair(s, j, k);
    InvPair(s, k, j);
    InvAt(s, i);
    InvEntry(s, TargetOf(s, i, act));
    if j == i {
      InvAt(s, k);
      DrainedMeansNone(s, i, act, k);
      PairKept(s, i, act, k);
    } else if k == i {
      InvAt(s, j);
      DrainedMeansNone(s, i, act, j);
      PairKept(s, i, act, j);
    } else {
      PairKeptOthers(s, i, act, j, k);
    }
  }

  /** A lookup changes nothing but the session. */
  lemma LookupKeeps(s: State, i: nat, act: Action)
    requires Inv(s) && Enabled(s, i, act) && act.Lookup?
    ensures Inv(Apply(s, i, act))
  {
    var s' := Apply(s, i, act);
    RefsKept(s, i, act);
    forall e | 0 <= e < |s'.entries| ensures EntryOk(s', e) {
      InvEntry(s, e);
      if NobodyTakesOut(s', e) {
        forall j | 0 <= j < |s.pcs| ensures !TakesOut(s.pcs[j], e) {
          assert !TakesOut(s'.pcs[j], e);
        }
      }
    }
    forall a | a in s'.lookup ensures AddrOk(s', a) {
      InvAddr(s, a);
    }
    forall j | 0 <= j < |s'.pcs| ensures SessionOk(s', j) {
      InvAt(s, j);
    }
    forall j, k | 0 <= j < |s'.pcs| && 0 <= k < |s'.pcs| && j != k ensures PairOk(s', j, k) {
      InvPair(s, j, k);
    }
  }

  lemma EntriesKept(s: State, i: nat, act: Action, f: nat)
    requires Inv(s) && Enabled(s, i, act) && !act.Lookup? && f < |s.entries|
    ensures EntryOk(Apply(s, i, act), f)
  {
    hide Inv, AddrOk, RefsOk, MapsTo, NewEntry, NewPc, UnmapsOwn, NobodyTakesOut, EntryOk, SessionOk;
    InvAt(s, i);
    InvEntry(s, f);
    UnmapIsOwn(s, i, act);
    SelfFacts(s, i, act);
    if f == TargetOf(s, i, act) {
      EntryKept(s, i, act);
    } else {
      EntryKeptElsewhere(s, i, act, f);
    }
  }

  lemma AddrsKept(s: State, i: nat, act: Action, a: Addr)
    requires Inv(s) && Enabled(s, i, act) && !act.Lookup? && a in Apply(s, i, act).lookup
    ensures AddrOk(Apply(s, i, act), a)
  {
    hide Inv, AddrOk, RefsOk, MapsTo, NewEntry, NewPc, UnmapsOwn, NobodyTakesOut, EntryOk, SessionOk, Apply;
    InvAt(s, i);
    InvEntry(s, TargetOf(s, i, act));
    UnmapIsOwn(s, i, act);
    LookupsInjective(s);
    if a in s.lookup {
      InvAddr(s, a);
    }
    AddrKept(s, i, act, a);
  }

  /** Every step, by any session, keeps the invariant. */
  lemma StepKeeps(s: State, i: nat, act: Action)
    requires Inv(s) && Enabled(s, i, act)
    ensures Inv(Apply(s, i, act))
  {
    hide EntryOk, AddrOk, RefsOk, SessionOk, PairOk, NewEntry, NewPc, MapsTo;
    if act.Lookup? {
      LookupKeeps(s, i, act);
    } else {
      var s' := Apply(s, i, act);
      RefsKept(s, i, act);
      forall e | 0 <= e < |s'.entries| ensures EntryOk(s', e) {
        EntriesKept(s, i, act, e);
      }
      forall a | a in s'.lookup ensures AddrOk(s', a) {
        AddrsKept(s, i, act, a);
      }
      forall j | 0 <= j < |s'.pcs| ensures SessionOk(s', j) {
        SessionsKept(s, i, act, j);
      }
      forall j, k | 0 <= j < |s'.pcs| && 0 <= k < |s'.pcs| && j != k ensures PairOk(s', j, k) {
        PairsKept(s, i, act, j, k);
      }
    }
  }
}
