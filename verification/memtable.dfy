/**
  The ring of memtables (memtable.c, memtable.h): inserting threads, rotation and forced
  finalization under the distributed read-write lock, the background life of a finalized
  memtable, and its recycling.
 */
module MemtableRing {
  import opened Wrappers
  import opened Modulo

  datatype MemtableState =
    Ready | Finalized | Compacting | Compacted | IncorporationAssigned | Incorporating | Incorporated

  /** `recycling`: the last reference is gone, the generation has been moved on, the state not yet. */
  datatype Memtable = Memtable(state: MemtableState, generation: nat, recycling: bool)

  /** What a thread holds of the insert lock and how far it has got. */
  datatype Pc =
    | Outside
    | Inside                // read lock
    | Looked(gen: nat)        // read lock; the current memtable was READY
    | Admitted(gen: nat)      // read lock; memtable_maybe_rotate_and_begin_insert has returned
    | Claimed(gen: nat, forced: bool)   // read lock and claim
    | Locked(gen: nat, forced: bool)    // write lock
    | Retired(gen: nat)       // write lock; the memtable has been finalized
    | Bumped(gen: nat)        // write lock; the generation has been incremented

  datatype Ring = Ring(maxMemtables: nat, generation: nat, mts: seq<Memtable>, pcs: seq<Pc>, finalizer: Option<nat>)

  predicate HoldsRead(pc: Pc) { pc != Outside }
  predicate HoldsClaim(pc: Pc) { pc.Claimed? || HoldsWrite(pc) }
  predicate HoldsWrite(pc: Pc) { pc.Locked? || pc.Retired? || pc.Bumped? }

  datatype Step =
    | BeginInsert | EndInsert | Look | Admit | TryClaim | ForceClaim | Lock | Finalize | Bump | Unlock
    | Background(slot: nat) | Recycle(slot: nat) | MakeReady(slot: nat)

  ghost predicate NobodyElse(r: Ring, t: nat, p: Pc -> bool) {
    forall u | 0 <= u < |r.pcs| && u != t :: !p(r.pcs[u])
  }

  function SlotOf(r: Ring, gen: nat): nat
    requires r.maxMemtables > 0
  {
    gen % r.maxMemtables
  }

  /** The next state in the background life of a memtable (memtable.h:39-100). */
  function NextState(s: MemtableState): MemtableState {
    match s
    case Finalized => Compacting
    case Compacting => Compacted
    case Compacted => IncorporationAssigned
    case IncorporationAssigned => Incorporating
    case Incorporating => Incorporated
    case _ => s
  }

  ghost predicate Sized(r: Ring) {
    0 < r.maxMemtables == |r.mts|
  }

  ghost predicate CanStep(r: Ring, t: nat, step: Step) {
    && Sized(r) && t < |r.pcs|
    && var pc := r.pcs[t];
       match step
       case BeginInsert => pc.Outside? && NobodyElse(r, t, HoldsWrite)
       case EndInsert => pc.Inside? || pc.Looked? || pc.Admitted?
       case Look => pc.Inside? && r.mts[SlotOf(r, r.generation)].state == Ready
       // not full
       case Admit => pc.Looked?
       // full, and the next memtable is READY
       case TryClaim => pc.Looked? && r.mts[SlotOf(r, pc.gen + 1)].state == Ready && NobodyElse(r, t, HoldsClaim)
       case ForceClaim => pc.Inside? && NobodyElse(r, t, HoldsClaim)
       case Lock => pc.Claimed? && NobodyElse(r, t, HoldsRead)
       // memtable_transition asserts that the state is READY
       case Finalize => pc.Locked? && r.mts[SlotOf(r, pc.gen)].state == Ready
       case Bump => pc.Retired?
       case Unlock => pc.Bumped?
       // process is called once the generation has been incremented
       case Background(i) =>
         i < |r.mts| && NextState(r.mts[i].state) != r.mts[i].state && r.mts[i].generation < r.generation
       case Recycle(i) => i < |r.mts| && r.mts[i].state == Incorporated && !r.mts[i].recycling
       case MakeReady(i) => i < |r.mts| && r.mts[i].state == Incorporated && r.mts[i].recycling
  }

  function WithPc(r: Ring, t: nat, pc: Pc): Ring
    requires t < |r.pcs|
  {
    r.(pcs := r.pcs[t := pc])
  }

  function WithMt(r: Ring, i: nat, m: Memtable): Ring
    requires i < |r.mts|
  {
    r.(mts := r.mts[i := m])
  }

  ghost function Stepped(r: Ring, t: nat, step: Step): Ring
    requires CanStep(r, t, step)
  {
    var pc := r.pcs[t];
    match step
    case BeginInsert => WithPc(r, t, Inside)
    case EndInsert => WithPc(r, t, Outside)
    case Look => WithPc(r, t, Looked(r.generation))
    case Admit => WithPc(r, t, Admitted(pc.gen))
    case TryClaim => WithPc(r, t, Claimed(pc.gen, false))
    case ForceClaim => WithPc(r, t, Claimed(r.generation, true))
    case Lock => WithPc(r, t, Locked(r.generation, pc.forced))
    case Finalize =>
      var i := SlotOf(r, pc.gen);
      WithPc(WithMt(r, i, r.mts[i].(state := Finalized)), t, Retired(pc.gen)).(finalizer := Some(t))
    case Bump => WithPc(r, t, Bumped(pc.gen)).(generation := r.generation + 1, finalizer := None)
    case Unlock => WithPc(r, t, Inside)
    case Background(i) => WithMt(r, i, r.mts[i].(state := NextState(r.mts[i].state)))
    case Recycle(i) => WithMt(r, i, r.mts[i].(generation := r.mts[i].generation + r.maxMemtables, recycling := true))
    case MakeReady(i) => WithMt(r, i, r.mts[i].(state := Ready, recycling := false))
  }

  /* ---- The invariant ---- */

  /** Slot i holds a generation congruent to i, within the ring's length of the current one. */
  ghost predicate SlotOk(r: Ring, i: nat)
    requires Sized(r) && i < |r.mts|
  {
    var m := r.mts[i];
    && m.generation % r.maxMemtables == i
    && (m.recycling ==> m.state == Incorporated)
    && if m.state == Ready || m.recycling then r.generation <= m.generation < r.generation + r.maxMemtables
       else r.generation - r.maxMemtables <= m.generation < r.generation + (if r.finalizer.Some? then 1 else 0)
  }

  ghost predicate ThreadOk(r: Ring, t: nat)
    requires Sized(r) && t < |r.pcs|
  {
    var pc := r.pcs[t];
    && (pc.Looked? || pc.Admitted? || pc.Claimed? || pc.Locked? ==> pc.gen == r.generation)
    && (pc.Looked? || pc.Admitted? || (pc.Claimed? && !pc.forced) || (pc.Locked? && !pc.forced) ==>
          r.mts[SlotOf(r, r.generation)].state == Ready)
    && ((pc.Claimed? || pc.Locked?) && !pc.forced ==> r.mts[SlotOf(r, r.generation + 1)].state == Ready)
    && (pc.Retired? <==> r.finalizer == Some(t))
    && (pc.Retired? ==>
          pc.gen == r.generation && r.mts[SlotOf(r, pc.gen)] == Memtable(Finalized, pc.gen, false))
    && (HoldsClaim(pc) ==> NobodyElse(r, t, HoldsClaim))
    && (HoldsWrite(pc) ==> NobodyElse(r, t, HoldsRead))
  }

  ghost predicate Inv(r: Ring) {
    && Sized(r)
    && (forall i | 0 <= i < |r.mts| :: SlotOk(r, i))
    && (forall t | 0 <= t < |r.pcs| :: ThreadOk(r, t))
    && (r.finalizer.Some? ==> r.finalizer.value < |r.pcs|)
  }

  lemma SlotAt(r: Ring, i: nat)
    requires Inv(r) && i < |r.mts|
    ensures Sized(r) && SlotOk(r, i)
  {
  }

  lemma ThreadAt(r: Ring, t: nat)
    requires Inv(r) && t < |r.pcs|
    ensures ThreadOk(r, t)
  {
  }

  /** A READY current memtable carries the current generation. */
  lemma CurrentIsCurrent(r: Ring)
    requires Inv(r) && r.mts[SlotOf(r, r.generation)].state == Ready
    ensures r.mts[SlotOf(r, r.generation)].generation == r.generation
  {
    var i := SlotOf(r, r.generation);
    SlotAt(r, i);
    SameRemainder(r.generation, r.mts[i].generation, r.maxMemtables);
  }

  lemma SlotsKept(r: Ring, t: nat, step: Step, i: nat)
    requires Inv(r) && CanStep(r, t, step) && i < |r.mts|
    ensures Sized(Stepped(r, t, step)) && SlotOk(Stepped(r, t, step), i)
  {
    hide Inv, NobodyElse;
    SlotAt(r, i);
    ThreadAt(r, t);
    if step.Finalize? {
      CurrentIsCurrent(r);
      NotFinalizing(r, t);
    }
    if step.Bump? {
      BumpSlot(r, t, i);
    }
    if step.Recycle? && step.slot == i {
      RecycledInRange(r, i);
    }
  }

  lemma BumpSlot(r: Ring, t: nat, i: nat)
    requires Inv(r) && CanStep(r, t, Bump) && i < |r.mts|
    ensures SlotOk(Stepped(r, t, Bump), i)
  {
    hide Inv, NobodyElse;
    SlotAt(r, i);
    ThreadAt(r, t);
    var m, g := r.mts[i], r.generation;
    if i != SlotOf(r, g) {
      if m.generation == g {
        assert false;
      }
      if m.generation + r.maxMemtables == g {
        AddMultiple(r.maxMemtables, 1, m.generation);
        assert false;
      }
    }
  }

  lemma RecycledInRange(r: Ring, i: nat)
    requires Inv(r) && i < |r.mts| && r.mts[i].state == Incorporated && !r.mts[i].recycling
    ensures r.mts[i].generation < r.generation
    ensures (r.mts[i].generation + r.maxMemtables) % r.maxMemtables == r.mts[i].generation % r.maxMemtables
  {
    hide Inv, NobodyElse;
    SlotAt(r, i);
    AddMultiple(r.maxMemtables, 1, r.mts[i].generation);
    if r.mts[i].generation == r.generation {
      FinalizerAt(r);
      assert false;
    }
  }

  lemma FinalizerAt(r: Ring)
    requires Inv(r) && r.finalizer.Some?
    ensures r.mts[SlotOf(r, r.generation)].state == Finalized
  {
    ThreadAt(r, r.finalizer.value);
  }

  lemma NotFinalizing(r: Ring, t: nat)
    requires Inv(r) && t < |r.pcs| && r.pcs[t].Locked?
    ensures r.finalizer == None
  {
    if r.finalizer.Some? {
      ThreadAt(r, r.finalizer.value);
      OneClaim(r, t, r.finalizer.value);
    }
  }

  lemma OneClaim(r: Ring, t: nat, u: nat)
    requires Inv(r) && t < |r.pcs| && u < |r.pcs| && HoldsClaim(r.pcs[t]) && HoldsClaim(r.pcs[u])
    ensures t == u
  {
    ThreadAt(r, t);
  }

  lemma SelfKept(r: Ring, t: nat, step: Step)
    requires Inv(r) && CanStep(r, t, step)
    ensures ThreadOk(Stepped(r, t, step), t)
  {
    hide Inv;
    ThreadAt(r, t);
    if step.Finalize? || step.Look? {
      CurrentIsCurrent(r);
    }
    if step.Finalize? {
      NotFinalizing(r, t);
      SlotAt(r, SlotOf(r, r.generation));
    }
    if step.Recycle? && r.pcs[t].Retired? {
      SlotAt(r, step.slot);
    }
  }

  lemma OtherKept(r: Ring, t: nat, step: Step, u: nat)
    requires Inv(r) && CanStep(r, t, step) && u < |r.pcs| && u != t
    ensures ThreadOk(Stepped(r, t, step), u)
  {
    hide Inv;
    ThreadAt(r, t);
    ThreadAt(r, u);
  }

  lemma StepKeeps(r: Ring, t: nat, step: Step)
    requires Inv(r) && CanStep(r, t, step)
    ensures Inv(Stepped(r, t, step))
  {
    hide SlotOk, ThreadOk, NobodyElse;
    var r' := Stepped(r, t, step);
    forall i | 0 <= i < |r'.mts| ensures SlotOk(r', i) {
      SlotsKept(r, t, step, i);
    }
    forall u | 0 <= u < |r'.pcs| ensures ThreadOk(r', u) {
      if u == t {
        SelfKept(r, t, step);
      } else {
        OtherKept(r, t, step, u);
      }
    }
  }

  /* ---- Runs ---- */

  datatype Event = Event(thread: nat, step: Step)

  ghost predicate CanRun(r: Ring, run: seq<Event>)
    decreases |run|
  {
    run != [] ==> CanStep(r, run[0].thread, run[0].step) && CanRun(Stepped(r, run[0].thread, run[0].step), run[1..])
  }

  ghost function Final(r: Ring, run: seq<Event>): Ring
    requires CanRun(r, run)
    decreases |run|
  {
    if run == [] then r else Final(Stepped(r, run[0].thread, run[0].step), run[1..])
  }

  /** `memtable_context_create`. */
  ghost predicate Initial(r: Ring) {
    && Sized(r) && r.generation == 0 && r.finalizer == None
    && (forall i | 0 <= i < |r.mts| :: r.mts[i] == Memtable(Ready, i, false))
    && (forall t | 0 <= t < |r.pcs| :: r.pcs[t] == Outside)
  }

  lemma InitialInv(r: Ring)
    requires Initial(r)
    ensures Inv(r)
  {
    forall i | 0 <= i < |r.mts| ensures SlotOk(r, i) {
      Remainder(r.maxMemtables, 0, i);
    }
  }

  lemma {:induction false} RunKeeps(r: Ring, run: seq<Event>)
    requires Inv(r) && CanRun(r, run)
    ensures Inv(Final(r, run))
    decreases |run|
  {
    hide Inv, CanStep, Stepped;
    if run != [] {
      StepKeeps(r, run[0].thread, run[0].step);
      RunKeeps(Stepped(r, run[0].thread, run[0].step), run[1..]);
    }
  }

  /** Every slot holds the generation of its place, near the current one; READY slots are not behind it. */
  lemma RingInOrder(r: Ring, run: seq<Event>, i: nat)
    requires Initial(r) && CanRun(r, run) && i < |Final(r, run).mts|
    ensures var f := Final(r, run); var m := f.mts[i];
      && f.maxMemtables > 0 && m.generation % f.maxMemtables == i
      && m.generation < f.generation + f.maxMemtables && f.generation <= m.generation + f.maxMemtables
      && (m.state == Ready ==> f.generation <= m.generation)
  {
    hide Inv, Initial, CanRun, Final;
    InitialInv(r);
    RunKeeps(r, run);
    SlotAt(Final(r, run), i);
  }

  /** An admitted insert finds its memtable READY and of its generation until it ends. */
  lemma AdmittedStaysReady(r: Ring, run: seq<Event>, t: nat)
    requires Initial(r) && CanRun(r, run) && t < |Final(r, run).pcs| && Final(r, run).pcs[t].Admitted?
    ensures var f := Final(r, run); var gen := f.pcs[t].gen;
      Sized(f) && f.generation == gen && f.mts[SlotOf(f, gen)] == Memtable(Ready, gen, false)
  {
    hide Inv, Initial, CanRun, Final;
    InitialInv(r);
    RunKeeps(r, run);
    var f := Final(r, run);
    AdmittedNow(f, t);
  }

  lemma AdmittedNow(f: Ring, t: nat)
    requires Inv(f) && t < |f.pcs| && f.pcs[t].Admitted?
    ensures Sized(f) && f.generation == f.pcs[t].gen
    ensures f.mts[SlotOf(f, f.generation)] == Memtable(Ready, f.generation, false)
  {
    ThreadAt(f, t);
    CurrentIsCurrent(f);
    SlotAt(f, SlotOf(f, f.generation));
  }

  /** A rotation that was not forced leaves a READY memtable in charge. */
  lemma RotationFindsReady(r: Ring, run: seq<Event>, t: nat)
    requires Initial(r) && CanRun(r, run) && t < |Final(r, run).pcs|
    requires var pc := Final(r, run).pcs[t]; pc.Locked? && !pc.forced
    ensures var f := Final(r, run);
      && Sized(f) && CanStep(f, t, Finalize)
      && f.mts[SlotOf(f, f.generation + 1)].state == Ready
  {
    hide Inv, Initial, CanRun, Final, NobodyElse;
    InitialInv(r);
    RunKeeps(r, run);
    LockedNow(Final(r, run), t);
  }

  lemma LockedNow(f: Ring, t: nat)
    requires Inv(f) && t < |f.pcs| && f.pcs[t].Locked? && !f.pcs[t].forced
    ensures Sized(f) && CanStep(f, t, Finalize) && f.mts[SlotOf(f, f.generation + 1)].state == Ready
  {
    ThreadAt(f, t);
  }

  /* ---- The life of a memtable ---- */

  /** The states slot i takes over a run, one after the other, behind those in h. */
  ghost function History(r: Ring, run: seq<Event>, i: nat, h: seq<MemtableState>): seq<MemtableState>
    requires CanRun(r, run) && i < |r.mts|
    decreases |run|
  {
    if run == [] then h
    else
      var r' := Stepped(r, run[0].thread, run[0].step);
      History(r', run[1..], i, if r'.mts[i].state == r.mts[i].state then h else h + [r'.mts[i].state])
  }

  ghost predicate EndsWith(h: seq<MemtableState>, tail: seq<MemtableState>) {
    |tail| <= |h| && h[|h| - |tail|..] == tail
  }

  const LIFE: seq<MemtableState> :=
    [Ready, Finalized, Compacting, Compacted, IncorporationAssigned, Incorporating, Incorporated]

  /** How far a state is in a memtable's life. */
  function Age(s: MemtableState): (n: nat)
    ensures n < |LIFE| && LIFE[n] == s
  {
    match s
    case Ready => 0
    case Finalized => 1
    case Compacting => 2
    case Compacted => 3
    case IncorporationAssigned => 4
    case Incorporating => 5
    case Incorporated => 6
  }

  /** A step leaves a memtable its state, takes it on by one, or makes it READY. */
  lemma StepAges(r: Ring, t: nat, step: Step, i: nat)
    requires CanStep(r, t, step) && i < |r.mts|
    ensures var r' := Stepped(r, t, step); var s, s' := r.mts[i].state, r'.mts[i].state;
      |r'.mts| == |r.mts| && (s' == s || s' == Ready || Age(s') == Age(s) + 1)
  {
    hide NobodyElse;
  }

  lemma {:induction false} HistoryFollowsLife(r: Ring, run: seq<Event>, i: nat, h: seq<MemtableState>)
    requires CanRun(r, run) && i < |r.mts| && EndsWith(h, LIFE[..Age(r.mts[i].state) + 1])
    ensures i < |Final(r, run).mts|
    ensures EndsWith(History(r, run, i, h), LIFE[..Age(Final(r, run).mts[i].state) + 1])
    decreases |run|
  {
    hide CanStep, Stepped, EndsWith, Age;
    if run != [] {
      StepAges(r, run[0].thread, run[0].step, i);
      var r' := Stepped(r, run[0].thread, run[0].step);
      var s, s' := r.mts[i].state, r'.mts[i].state;
      if s' != s {
        OneAgeOn(h, s, s');
      }
      HistoryFollowsLife(r', run[1..], i, if s' == s then h else h + [s']);
    }
  }

  lemma OneAgeOn(h: seq<MemtableState>, s: MemtableState, s': MemtableState)
    requires EndsWith(h, LIFE[..Age(s) + 1]) && (s' == Ready || Age(s') == Age(s) + 1)
    ensures EndsWith(h + [s'], LIFE[..Age(s') + 1])
  {
    if s' != Ready {
      assert LIFE[..Age(s') + 1] == LIFE[..Age(s) + 1] + [s'];
    }
  }

  /** A memtable is recycled only when it has gone through all of its life since it was READY. */
  lemma RecycledAfterLife(r: Ring, run: seq<Event>, t: nat, i: nat)
    requires Initial(r) && CanRun(r, run) && i < |r.mts| && CanStep(Final(r, run), t, Recycle(i))
    ensures EndsWith(History(r, run, i, [Ready]),
      [Ready, Finalized, Compacting, Compacted, IncorporationAssigned, Incorporating, Incorporated])
  {
    hide CanRun, Final, History;
    HistoryFollowsLife(r, run, i, [Ready]);
  }

  /** Steps that look after the memtable in slot i. */
  predicate Tends(step: Step, i: nat) {
    step == Background(i) || step == Recycle(i) || step == MakeReady(i)
  }

  /** Such steps alone bring a finalized memtable to READY again, one turn of the ring further on. */
  lemma {:induction false} LifeCompletes(r: Ring, t: nat, i: nat) returns (run: seq<Event>)
    requires Sized(r) && t < |r.pcs| && i < |r.mts| && r.mts[i].generation < r.generation
    requires r.mts[i].state != Ready && !r.mts[i].recycling
    ensures CanRun(r, run) && forall j | 0 <= j < |run| :: run[j].thread == t && Tends(run[j].step, i)
    ensures Final(r, run) == WithMt(r, i, Memtable(Ready, r.mts[i].generation + r.maxMemtables, false))
    decreases |LIFE| - Age(r.mts[i].state)
  {
    if r.mts[i].state == Incorporated {
      run := RecycleAlone(r, t, i);
    } else {
      var r' := Stepped(r, t, Background(i));
      var rest := LifeCompletes(r', t, i);
      run := [Event(t, Background(i))] + rest;
      assert run[1..] == rest;
    }
  }

  lemma RecycleAlone(r: Ring, t: nat, i: nat) returns (run: seq<Event>)
    requires Sized(r) && t < |r.pcs| && i < |r.mts| && r.mts[i].state == Incorporated && !r.mts[i].recycling
    ensures CanRun(r, run) && forall j | 0 <= j < |run| :: run[j].thread == t && Tends(run[j].step, i)
    ensures Final(r, run) == WithMt(r, i, Memtable(Ready, r.mts[i].generation + r.maxMemtables, false))
  {
    run := [Event(t, Recycle(i)), Event(t, MakeReady(i))];
    var r1 := Stepped(r, t, Recycle(i));
    var r2 := Stepped(r1, t, MakeReady(i));
    assert run[1..] == [Event(t, MakeReady(i))] && run[1..][1..] == [];
    assert CanRun(r2, []) && Final(r2, []) == r2;
    assert CanRun(r1, run[1..]) && Final(r1, run[1..]) == r2;
  }

  /** One more step of thread t, which leads to r'. */
  lemma {:induction false} Turn(r: Ring, t: nat, r': Ring, before: seq<Event>, step: Step) returns (run: seq<Event>)
    requires CanRun(r, before) && CanStep(Final(r, before), t, step) && Stepped(Final(r, before), t, step) == r'
    requires forall j | 0 <= j < |before| :: before[j].thread == t
    ensures CanRun(r, run) && Final(r, run) == r' && forall j | 0 <= j < |run| :: run[j].thread == t
    decreases |before|
  {
    hide CanStep, Stepped;
    if before == [] {
      run := [Event(t, step)];
      assert run[1..] == [];
    } else {
      var rest := Turn(Stepped(r, before[0].thread, before[0].step), t, r', before[1..], step);
      run := [before[0]] + rest;
      assert run[1..] == rest;
    }
  }

  lemma StillAlone(r: Ring, t: nat)
    requires t < |r.pcs| && NobodyElse(r, t, HoldsRead)
    ensures NobodyElse(r, t, HoldsClaim)
    ensures forall pc :: NobodyElse(WithPc(r, t, pc), t, HoldsRead) && NobodyElse(WithPc(r, t, pc), t, HoldsClaim)
  {
  }

  /** With nobody else inside and the next memtable READY, a full memtable is rotated out. */
  lemma RotateAlone(r: Ring, t: nat) returns (run: seq<Event>)
    requires Sized(r) && t < |r.pcs| && r.pcs[t] == Inside && NobodyElse(r, t, HoldsRead) && r.finalizer == None
    requires r.mts[SlotOf(r, r.generation)].state == Ready && r.mts[SlotOf(r, r.generation + 1)].state == Ready
    ensures CanRun(r, run) && forall j | 0 <= j < |run| :: run[j].thread == t
    ensures var i := SlotOf(r, r.generation);
      Final(r, run) == WithMt(r, i, r.mts[i].(state := Finalized)).(generation := r.generation + 1)
  {
    hide CanRun, Final, CanStep, Stepped, NobodyElse, SlotOf;
    run := LockAlone(r, t);
    run := ReplaceLocked(r, t, run);
  }

  lemma LockAlone(r: Ring, t: nat) returns (run: seq<Event>)
    requires Sized(r) && t < |r.pcs| && r.pcs[t] == Inside && NobodyElse(r, t, HoldsRead)
    requires r.mts[SlotOf(r, r.generation)].state == Ready && r.mts[SlotOf(r, r.generation + 1)].state == Ready
    ensures CanRun(r, run) && forall j | 0 <= j < |run| :: run[j].thread == t
    ensures Final(r, run) == WithPc(r, t, Locked(r.generation, false))
  {
    hide NobodyElse, CanRun, Final;
    StillAlone(r, t);
    var g := r.generation;
    NoneYet(r, t);
    run := Turn(r, t, WithPc(r, t, Looked(g)), [], Look);
    assert WithPc(r, t, Claimed(g, false)) == WithPc(WithPc(r, t, Looked(g)), t, Claimed(g, false));
    run := Turn(r, t, WithPc(r, t, Claimed(g, false)), run, TryClaim);
    run := Turn(r, t, WithPc(r, t, Locked(g, false)), run, Lock);
  }

  lemma NoneYet(r: Ring, t: nat)
    ensures CanRun(r, []) && Final(r, []) == r
  {
  }

  lemma ReplaceLocked(r: Ring, t: nat, before: seq<Event>) returns (run: seq<Event>)
    requires Sized(r) && t < |r.pcs| && r.pcs[t] == Inside && r.finalizer == None
    requires r.mts[SlotOf(r, r.generation)].state == Ready
    requires CanRun(r, before) && Final(r, before) == WithPc(r, t, Locked(r.generation, false))
    requires forall j | 0 <= j < |before| :: before[j].thread == t
    ensures CanRun(r, run) && forall j | 0 <= j < |run| :: run[j].thread == t
    ensures var i := SlotOf(r, r.generation);
      Final(r, run) == WithMt(r, i, r.mts[i].(state := Finalized)).(generation := r.generation + 1)
  {
    hide NobodyElse, CanRun, Final;
    var g, i := r.generation, SlotOf(r, r.generation);
    var retired := WithMt(r, i, r.mts[i].(state := Finalized));
    run := Turn(r, t, WithPc(retired, t, Retired(g)).(finalizer := Some(t)), before, Finalize);
    run := Turn(r, t, WithPc(retired, t, Bumped(g)).(generation := g + 1), run, Bump);
    assert retired.pcs[t := Inside] == retired.pcs;
    run := Turn(r, t, retired.(generation := g + 1), run, Unlock);
  }
}
