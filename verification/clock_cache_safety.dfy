/**
  What the cache protocol guarantees over every run: exclusive write locks, and a cache
  that cannot be told from a flat store of pages.
 */
module ClockCacheSafety {
  import opened Wrappers
  import opened ClockCache
  import opened ClockCacheSteps

  datatype Event = Event(session: nat, act: Action)

  ghost predicate CanRun(s: State, trace: seq<Event>)
    decreases |trace|
  {
    trace != [] ==>
      && Enabled(s, trace[0].session, trace[0].act)
      && CanRun(Apply(s, trace[0].session, trace[0].act), trace[1..])
  }

  ghost function Final(s: State, trace: seq<Event>): State
    requires CanRun(s, trace)
    decreases |trace|
  {
    if trace == [] then s else Final(Apply(s, trace[0].session, trace[0].act), trace[1..])
  }

  /** One more step of session i at the end of a run. */
  lemma {:induction false} Then(s: State, run: seq<Event>, i: nat, act: Action) returns (longer: seq<Event>)
    requires CanRun(s, run) && Enabled(Final(s, run), i, act)
    ensures CanRun(s, longer) && Final(s, longer) == Apply(Final(s, run), i, act)
    ensures longer == run + [Event(i, act)]
    decreases |run|
  {
    hide Enabled, Apply;
    if run == [] {
      longer := [Event(i, act)];
      assert longer[1..] == [];
    } else {
      var rest := Then(Apply(s, run[0].session, run[0].act), run[1..], i, act);
      longer := [run[0]] + rest;
      assert longer[1..] == rest;
    }
  }

  /** `clockcache_init`: every entry free, nothing mapped, nobody at work. */
  ghost predicate Initial(s: State) {
    && |s.pcs| == |s.tids| && s.lookup == map[]
    && (forall i | 0 <= i < |s.pcs| :: s.pcs[i] == Idle)
    && (forall e | 0 <= e < |s.entries| ::
          s.entries[e].status == FREE_STATUS && s.entries[e].diskAddr == None && s.entries[e].refs == [0, 0, 0, 0])
  }

  lemma {:induction false} NoneCounted(pcs: seq<Pc>, tids: seq<nat>, e: nat, stripe: nat)
    requires |pcs| == |tids| && forall i | 0 <= i < |pcs| :: pcs[i] == Idle
    ensures CountRefs(pcs, tids, e, stripe) == 0
  {
    if pcs != [] {
      NoneCounted(pcs[..|pcs| - 1], tids[..|pcs| - 1], e, stripe);
    }
  }

  lemma InitialInv(s: State)
    requires Initial(s)
    ensures Inv(s)
  {
    forall e, stripe: nat | 0 <= e < |s.entries| && stripe < RC_WIDTH
      ensures s.entries[e].refs[stripe] == CountRefs(s.pcs, s.tids, e, stripe)
    {
      NoneCounted(s.pcs, s.tids, e, stripe);
    }
  }

  lemma {:induction false} RunKeeps(s: State, trace: seq<Event>)
    requires Inv(s) && CanRun(s, trace)
    ensures Inv(Final(s, trace))
    decreases |trace|
  {
    hide Inv, Enabled, Apply;
    if trace != [] {
      StepKeeps(s, trace[0].session, trace[0].act);
      RunKeeps(Apply(s, trace[0].session, trace[0].act), trace[1..]);
    }
  }

  /** Once a write lock is granted nobody else holds a lock on the page, and no write-back is under way. */
  lemma WriteExclusion(s: State, trace: seq<Event>, i: nat, j: nat, e: nat)
    requires Initial(s) && CanRun(s, trace) && i != j
    requires i < |Final(s, trace).pcs| && j < |Final(s, trace).pcs| && HoldsWriteLock(Final(s, trace).pcs[i], e)
    ensures !Admitted(Final(s, trace).pcs[j], e) && !WritesBack(Final(s, trace).pcs[j], e)
    ensures forall a :: !HoldsPage(Final(s, trace).pcs[j], a, e)
  {
    hide Inv, Initial, CanRun, Final, MapsTo;
    InitialInv(s);
    RunKeeps(s, trace);
    var t := Final(s, trace);
    InvPair(t, i, j);
    InvAt(t, i);
    InvAt(t, j);
  }

  /* ---- The flat store ---- */

  /** The value a page has: in its entry once it is loaded, on disk otherwise. */
  function Current(s: State, a: Addr): Value
    requires a in s.disk
  {
    if a in s.lookup && s.lookup[a] < |s.entries| && !s.entries[s.lookup[a]].status.loading
    then s.entries[s.lookup[a]].data else s.disk[a]
  }

  function Store(s: State): map<Addr, Value> {
    map a | a in s.disk :: Current(s, a)
  }

  /** What a step writes, seen from outside. */
  function Written(store: map<Addr, Value>, s: State, ev: Event): map<Addr, Value>
    requires Enabled(s, ev.session, ev.act)
  {
    if ev.act.Write? then store[s.pcs[ev.session].who.addr := ev.act.v] else store
  }

  lemma WriterMaps(s: State, i: nat, act: Action)
    requires Inv(s) && Enabled(s, i, act) && act.Write?
    ensures s.pcs[i].who.addr in s.disk && MapsTo(s, s.pcs[i].who.addr, s.pcs[i].e)
  {
    InvAt(s, i);
    InvAddr(s, s.pcs[i].who.addr);
  }

  /** A page that is in another entry, or in none. */
  lemma CurrentElsewhere(s: State, i: nat, act: Action, a: Addr)
    requires Enabled(s, i, act) && SessionOk(s, i) && UnmapsOwn(s, i, act) && a in s.disk && !act.Lookup?
    requires a in s.lookup ==> AddrOk(s, a) && s.lookup[a] != Target(s.pcs[i], act)
    requires act.Write? ==> a != s.pcs[i].who.addr
    ensures a in Apply(s, i, act).disk && Current(Apply(s, i, act), a) == Current(s, a)
  {
    hide RefsOk, NewPc;
  }

  /** A page that is in the entry of the step. */
  ghost predicate PageHere(s: State, i: nat, act: Action, a: Addr) {
    && Enabled(s, i, act) && SessionOk(s, i) && UnmapsOwn(s, i, act) && !act.Lookup? && !act.Miss?
    && a in s.disk && a in s.lookup && AddrOk(s, a) && s.lookup[a] == TargetOf(s, i, act)
    && (act.Write? ==> s.pcs[i].who.addr == a)
  }

  lemma QuietData(s: State, i: nat, act: Action)
    requires Enabled(s, i, act) && (Enters(act) || Locks(act))
    ensures !act.Lookup?
    ensures var x, x' := s.entries[TargetOf(s, i, act)], NewEntry(s, i, act);
      x'.data == (if act.Write? then act.v else x.data) && x'.status.loading == x.status.loading
  {
  }

  lemma CurrentHereQuiet(s: State, i: nat, act: Action, a: Addr)
    requires PageHere(s, i, act, a) && (Enters(act) || Locks(act))
    ensures a in Apply(s, i, act).disk
    ensures Current(Apply(s, i, act), a) == if act.Write? then act.v else Current(s, a)
  {
    hide RefsOk, NewPc, Apply, NewEntry;
    StaysInEntry(s, i, act);
    QuietData(s, i, act);
  }

  lemma CurrentHereMovingPages(s: State, i: nat, act: Action, a: Addr)
    requires PageHere(s, i, act, a) && !Enters(act) && !Locks(act)
    ensures a in Apply(s, i, act).disk && Current(Apply(s, i, act), a) == Current(s, a)
  {
    hide RefsOk, NewPc;
  }

  lemma CurrentStep(s: State, i: nat, act: Action, a: Addr)
    requires Enabled(s, i, act) && SessionOk(s, i) && UnmapsOwn(s, i, act) && a in s.disk
    requires a in s.lookup ==> AddrOk(s, a)
    requires act.Miss? ==> forall b | b in s.lookup :: s.lookup[b] != act.victim
    requires act.Write? ==> MapsTo(s, s.pcs[i].who.addr, s.pcs[i].e)
    ensures a in Apply(s, i, act).disk
    ensures Current(Apply(s, i, act), a)
         == if act.Write? && a == s.pcs[i].who.addr then act.v else Current(s, a)
  {
    hide SessionOk, AddrOk, UnmapsOwn, NewEntry, NewPc;
    if act.Lookup? {
    } else if a in s.lookup && s.lookup[a] == Target(s.pcs[i], act) {
      hide Apply, Enters, Locks, Current;
      if act.Write? {
        WritesHere(s, i, act, a);
      }
      if Enters(act) || Locks(act) {
        CurrentHereQuiet(s, i, act, a);
      } else {
        CurrentHereMovingPages(s, i, act, a);
      }
    } else {
      hide Apply;
      CurrentElsewhere(s, i, act, a);
    }
  }

  lemma WritesHere(s: State, i: nat, act: Action, a: Addr)
    requires Enabled(s, i, act) && !act.Lookup? && act.Write? && MapsTo(s, s.pcs[i].who.addr, s.pcs[i].e)
    requires a in s.lookup && AddrOk(s, a) && s.lookup[a] == Target(s.pcs[i], act)
    ensures a == s.pcs[i].who.addr && (Enters(act) || Locks(act))
  {
  }

  /** A step is a write to the flat store, or is not seen there at all. */
  lemma StepRefines(s: State, i: nat, act: Action)
    requires Inv(s) && Enabled(s, i, act)
    ensures Store(Apply(s, i, act)) == Written(Store(s), s, Event(i, act))
  {
    hide Inv, RefsOk, EntryOk, SessionOk, Apply, MapsTo, AddrOk, Current;
    InvAt(s, i);
    UnmapIsOwn(s, i, act);
    if act.Miss? {
      FreeIsUnmapped(s, act.victim);
    }
    if act.Write? {
      WriterMaps(s, i, act);
    }
    forall a | a in s.disk
      ensures a in Apply(s, i, act).disk
      ensures Current(Apply(s, i, act), a) == if act.Write? && a == s.pcs[i].who.addr then act.v else Current(s, a)
    {
      if a in s.lookup {
        InvAddr(s, a);
      }
      CurrentStep(s, i, act, a);
    }
    SameDisk(s, i, act);
  }

  lemma SameDisk(s: State, i: nat, act: Action)
    requires Inv(s) && Enabled(s, i, act)
    ensures Apply(s, i, act).disk.Keys == s.disk.Keys
  {
    hide RefsOk, EntryOk, Inv, NewPc, NewEntry;
    InvAt(s, i);
    if act.WriteDisk? {
      InvAddr(s, s.pcs[i].addr);
    }
  }

  ghost function AllWritten(store: map<Addr, Value>, s: State, trace: seq<Event>): map<Addr, Value>
    requires CanRun(s, trace)
    decreases |trace|
  {
    if trace == [] then store
    else AllWritten(Written(store, s, trace[0]), Apply(s, trace[0].session, trace[0].act), trace[1..])
  }

  /** Over any run the cache behaves as the pages on disk with the writes applied in order. */
  lemma {:induction false} RunRefines(s: State, trace: seq<Event>)
    requires Inv(s) && CanRun(s, trace)
    ensures Store(Final(s, trace)) == AllWritten(Store(s), s, trace)
    decreases |trace|
  {
    hide Inv, Enabled, Apply, Store, Written;
    if trace != [] {
      StepKeeps(s, trace[0].session, trace[0].act);
      StepRefines(s, trace[0].session, trace[0].act);
      RunRefines(Apply(s, trace[0].session, trace[0].act), trace[1..]);
    }
  }

  lemma InitialStore(s: State)
    requires Initial(s)
    ensures Store(s) == s.disk
  {
  }

  /**
    The main theorem: after any run from an empty cache, whoever holds a read lock that has
    been granted finds the last value written to the address.
   */
  lemma ReadersSeeLastWrite(s: State, trace: seq<Event>, i: nat)
    requires Initial(s) && CanRun(s, trace) && i < |Final(s, trace).pcs| && Final(s, trace).pcs[i].Reading?
    ensures var t := Final(s, trace); var pc := t.pcs[i]; var written := AllWritten(s.disk, s, trace);
      pc.addr in written && pc.e < |t.entries| && t.entries[pc.e].data == written[pc.addr]
  {
    hide Inv, Initial, CanRun, Final, AllWritten;
    InitialInv(s);
    InitialStore(s);
    RunKeeps(s, trace);
    RunRefines(s, trace);
    InvAt(Final(s, trace), i);
    InvAddr(Final(s, trace), Final(s, trace).pcs[i].addr);
  }

  /** An address that is not in the cache has its current value on disk. */
  lemma UnmappedIsOnDisk(s: State, trace: seq<Event>, a: Addr)
    requires Initial(s) && CanRun(s, trace) && a in Final(s, trace).disk && a !in Final(s, trace).lookup
    ensures a in AllWritten(s.disk, s, trace) && Final(s, trace).disk[a] == AllWritten(s.disk, s, trace)[a]
  {
    hide Inv, Initial, CanRun, Final, AllWritten;
    InitialInv(s);
    InitialStore(s);
    RunRefines(s, trace);
  }

  /** Two entries never hold one address, unless one of them is on its way out. */
  lemma OneEntryPerAddress(s: State, trace: seq<Event>, e: nat, f: nat)
    requires Initial(s) && CanRun(s, trace)
    requires e < |Final(s, trace).entries| && f < |Final(s, trace).entries|
    requires var t := Final(s, trace);
      t.entries[e].diskAddr.Some? && t.entries[f].diskAddr == t.entries[e].diskAddr
      && NobodyTakesOut(t, e) && NobodyTakesOut(t, f)
    ensures e == f
  {
    hide Inv, Initial, CanRun, Final, NobodyTakesOut;
    InitialInv(s);
    RunKeeps(s, trace);
    InvEntry(Final(s, trace), e);
    InvEntry(Final(s, trace), f);
  }

  /* ---- Pins ---- */

  /** How often a run pins entry e, and how often it unpins it. */
  ghost function Pins(s: State, trace: seq<Event>, e: nat): nat
    requires CanRun(s, trace)
    decreases |trace|
  {
    if trace == [] then 0
    else
      (if trace[0].act.Pin? && s.pcs[trace[0].session].e == e then 1 else 0)
      + Pins(Apply(s, trace[0].session, trace[0].act), trace[1..], e)
  }

  function Unpins(trace: seq<Event>, e: nat): nat {
    if trace == [] then 0
    else (if trace[0].act == Unpin(e) then 1 else 0) + Unpins(trace[1..], e)
  }

  lemma PinStep(s: State, i: nat, act: Action, e: nat)
    requires Enabled(s, i, act) && e < |s.entries|
    ensures Apply(s, i, act).entries[e].pins
         == s.entries[e].pins + (if act.Pin? && s.pcs[i].e == e then 1 else 0) - (if act == Unpin(e) then 1 else 0)
  {
    hide NewPc;
  }

  /** Nothing but Pin and Unpin moves a pin count. */
  lemma {:induction false} PinsAccounted(s: State, trace: seq<Event>, e: nat)
    requires CanRun(s, trace) && e < |s.entries|
    ensures e < |Final(s, trace).entries|
    ensures Final(s, trace).entries[e].pins == s.entries[e].pins + Pins(s, trace, e) - Unpins(trace, e)
    decreases |trace|
  {
    hide Enabled, Apply;
    if trace != [] {
      PinStep(s, trace[0].session, trace[0].act, e);
      PinsAccounted(Apply(s, trace[0].session, trace[0].act), trace[1..], e);
    }
  }

  /** Eviction never frees an entry that has been pinned more often than unpinned. */
  lemma PinnedNotFreed(s: State, trace: seq<Event>, i: nat)
    requires Initial(s) && CanRun(s, trace) && Enabled(Final(s, trace), i, SetFree)
    ensures var e := Final(s, trace).pcs[i].e;
      e < |s.entries| && s.entries[e].pins + Pins(s, trace, e) == Unpins(trace, e)
  {
    hide Inv, Initial, CanRun, Final, MapsTo, Pins;
    InitialInv(s);
    RunKeeps(s, trace);
    SameSize(s, trace);
    InvAt(Final(s, trace), i);
    PinsAccounted(s, trace, Final(s, trace).pcs[i].e);
  }

  lemma {:induction false} SameSize(s: State, trace: seq<Event>)
    requires CanRun(s, trace)
    ensures |Final(s, trace).entries| == |s.entries|
    decreases |trace|
  {
    hide Enabled, Apply;
    if trace != [] {
      SameSize(Apply(s, trace[0].session, trace[0].act), trace[1..]);
    }
  }

  /** Eviction frees only entries that are unpinned, on disk as they are, and held by nobody else. */
  lemma EvictsSafely(s: State, trace: seq<Event>, i: nat, j: nat)
    requires Initial(s) && CanRun(s, trace) && Enabled(Final(s, trace), i, SetFree)
    requires j < |Final(s, trace).pcs| && j != i
    ensures var t := Final(s, trace); var x := t.entries[t.pcs[i].e];
      x.status.clean && x.pins == 0 && !Admitted(t.pcs[j], t.pcs[i].e) && !WritesBack(t.pcs[j], t.pcs[i].e)
  {
    hide Inv, Initial, CanRun, Final, MapsTo;
    InitialInv(s);
    RunKeeps(s, trace);
    var t := Final(s, trace);
    InvAt(t, i);
    InvAt(t, j);
    InvPair(t, i, j);
  }
}
