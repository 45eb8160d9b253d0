/**
  The lock and eviction protocol of clockcache.c as atomic steps of sessions. A session is
  one thread's dealings with one page: getting it, claiming and locking it, evicting an
  entry, loading a page, or writing one back. A thread may run several sessions at once;
  all of its reference counts go to the same stripe.
 */
module ClockCache {
  import opened Wrappers

  type Addr = nat
  type Value = int

  /** CC_RC_WIDTH: stripes of an entry's reference count. */
  const RC_WIDTH := 4

  /** The status bits of an entry. */
  datatype Status = Status(free: bool, accessed: bool, clean: bool, writeback: bool, loading: bool,
                           writeLocked: bool, claimed: bool)

  const FREE_STATUS := Status(true, false, false, false, false, false, false)
  const EVICTABLE_STATUS := Status(false, false, true, false, false, false, false)
  const LOCKED_EVICTABLE_STATUS := Status(false, false, true, false, false, true, true)
  const CLEANABLE1_STATUS := Status(false, false, false, false, false, false, false)
  const CLEANABLE2_STATUS := Status(false, true, false, false, false, false, false)
  const READ_LOADING_STATUS := Status(false, true, true, false, true, false, false)

  datatype Entry = Entry(status: Status, diskAddr: Option<Addr>, data: Value, refs: seq<int>, pins: nat)

  datatype Who = Get(addr: Addr) | Evict

  /** Where a session stands: each constructor names what it has just done or seen. */
  datatype Pc =
    | Idle
    | Looked(who: Who, e: nat)
    | Tested(who: Who, e: nat)
    | Counted(who: Who, e: nat)
    | FreeTested(who: Who, e: nat, sawFree: bool)
    | Backing(who: Who, e: nat, sawFree: bool)
    | Passed(who: Who, e: nat)
    | Validated(addr: Addr, e: nat)
    | Reading(addr: Addr, e: nat)
    | Claimed(who: Who, e: nat)
    | NotLoading(e: nat)
    | Flagged(who: Who, e: nat)
    | Draining(who: Who, e: nat, stripe: nat)
    | Locked(who: Who, e: nat, dirty: bool)
    | Releasing(e: nat)
    | Verified(e: nat)
    | Unmapped(e: nat)
    | Cleared(e: nat)
    | Loading(addr: Addr, e: nat)
    | Addressed(addr: Addr, e: nat)
    | Filled(addr: Addr, e: nat)
    | WbStarted(addr: Addr, e: nat)
    | WbWritten(addr: Addr, e: nat)
    | WbCleaned(addr: Addr, e: nat)

  /** `tids[i]` is the thread that runs session i. */
  datatype State = State(entries: seq<Entry>, lookup: map<Addr, nat>, disk: map<Addr, Value>,
                         pcs: seq<Pc>, tids: seq<nat>)

  function Stripe(s: State, i: nat): (r: nat)
    requires i < |s.tids|
    ensures r < RC_WIDTH
  {
    s.tids[i] % RC_WIDTH
  }

  datatype Action =
    | Lookup(addr: Addr) | Miss(addr: Addr, victim: nat) | PickVictim(victim: nat)
    | TestWriting | GiveUp | CountRef | TestFree | TestWritingAgain | DropRef(again: bool) | Touch
    | CheckAddr | WaitLoaded | Unget
    | TryClaim | Unclaim | SetWriteLocked | WaitWriteback | DrainStripe | MarkDirty | Write(v: Value) | Pin | Unlock
    | TestLoading | BailOut | ReleaseClaim | Verify | Unmap | ClearAddr | SetFree
    | SetAddr | ReadDisk | ClearLoading
    | StartWriteback(victim: nat) | WriteDisk | SetClean | ClearWriteback
    | Unpin(victim: nat)

  /* ---- The steps ---- */

  /** The session's own reference does not count when its stripe is drained. */
  predicate Drained(s: State, i: nat, e: nat, stripe: nat)
    requires i < |s.tids| && e < |s.entries| && stripe < |s.entries[e].refs|
  {
    s.entries[e].refs[stripe] <= if Stripe(s, i) == stripe then 1 else 0
  }

  predicate InRange(s: State, i: nat) {
    && i < |s.pcs| == |s.tids|
    && (!s.pcs[i].Idle? ==> s.pcs[i].e < |s.entries| && |s.entries[s.pcs[i].e].refs| == RC_WIDTH)
  }

  predicate Enabled(s: State, i: nat, act: Action) {
    && InRange(s, i)
    && var pc := s.pcs[i];
       match act
       case Lookup(a) => pc.Idle? && a in s.lookup && a in s.disk && s.lookup[a] < |s.entries|
       case Miss(a, e) => pc.Idle? && a !in s.lookup && a in s.disk && e < |s.entries|
                          && |s.entries[e].refs| == RC_WIDTH && s.entries[e].status == FREE_STATUS
       case PickVictim(e) => pc.Idle? && e < |s.entries| && |s.entries[e].refs| == RC_WIDTH
       case TestWriting => pc.Looked?
       case GiveUp => pc.Looked? && pc.who.Get?
       case CountRef => pc.Tested?
       case TestFree => pc.Counted?
       case TestWritingAgain => pc.FreeTested?
       case DropRef(again) => pc.Backing? && (again ==> pc.who.Get? && !pc.sawFree)
       case Touch => (pc.Passed? && pc.who.Get?) || pc.Reading?
       case CheckAddr => pc.Passed? && pc.who.Get?
       case WaitLoaded => pc.Validated? && !s.entries[pc.e].status.loading
       case Unget => pc.Reading?
       case TryClaim => pc.Reading? || (pc.Passed? && pc.who.Evict?)
       case Unclaim => pc.Claimed? && pc.who.Get?
       case SetWriteLocked => (pc.Claimed? && pc.who.Get?) || pc.NotLoading?
       case WaitWriteback => pc.Flagged? && !s.entries[pc.e].status.writeback
       case DrainStripe => pc.Draining? && pc.stripe < RC_WIDTH && Drained(s, i, pc.e, pc.stripe)
       case MarkDirty => pc.Locked? && pc.who.Get?
       case Write(_) => pc.Locked? && pc.who.Get? && pc.dirty
       case Pin => pc.Locked? && pc.who.Get?
       case Unlock => pc.Locked? && pc.who.Get?
       case TestLoading => pc.Claimed? && pc.who.Evict?
       case BailOut => (pc.Flagged? || pc.Draining? || pc.Locked?) && pc.who.Evict?
       case ReleaseClaim => pc.Releasing?
       case Verify => pc.Locked? && pc.who.Evict?
       case Unmap => pc.Verified?
       case ClearAddr => pc.Unmapped?
       case SetFree => pc.Cleared?
       case SetAddr => pc.Loading?
       case ReadDisk => pc.Addressed? && pc.addr in s.disk
       case ClearLoading => pc.Filled?
       case StartWriteback(e) =>
         pc.Idle? && e < |s.entries| && s.entries[e].diskAddr.Some?
         && (s.entries[e].status == CLEANABLE1_STATUS || s.entries[e].status == CLEANABLE2_STATUS)
       case WriteDisk => pc.WbStarted?
       case SetClean => pc.WbWritten?
       case ClearWriteback => pc.WbCleaned?
       case Unpin(e) => pc.Idle? && e < |s.entries| && s.entries[e].pins > 0
  }

  /** The entry a step works on. */
  function Target(pc: Pc, act: Action): nat
    requires pc.Idle? ==> act.Miss? || act.PickVictim? || act.StartWriteback? || act.Unpin?
  {
    if pc.Idle? then act.victim else pc.e
  }

  function WithRef(x: Entry, stripe: nat, count: int): Entry
    requires stripe < |x.refs|
  {
    x.(refs := x.refs[stripe := count])
  }

  /** The fast tests before an eviction: an accessed entry only loses its mark. */
  predicate SeemsEvictable(x: Entry, stripe: nat)
    requires stripe < |x.refs|
  {
    x.status == EVICTABLE_STATUS && x.refs[stripe] == 0 && x.pins == 0
  }

  /** What a step leaves of its entry. */
  function NewEntry(s: State, i: nat, act: Action): Entry
    requires Enabled(s, i, act) && !act.Lookup?
  {
    var pc := s.pcs[i];
    var x := s.entries[Target(pc, act)];
    var st, me := x.status, Stripe(s, i);
    match act
    case Miss(_, _) => WithRef(x.(status := READ_LOADING_STATUS), me, x.refs[me] + 1)
    case PickVictim(_) => x.(status := st.(accessed := false))
    case CountRef => WithRef(x, me, x.refs[me] + 1)
    case DropRef(_) => WithRef(x, me, x.refs[me] - 1)
    case Touch => x.(status := st.(accessed := true))
    case Unget => WithRef(x, me, x.refs[me] - 1)
    case TryClaim => x.(status := st.(claimed := true))
    case Unclaim => x.(status := st.(claimed := false))
    case SetWriteLocked => x.(status := st.(writeLocked := true))
    case MarkDirty => x.(status := st.(clean := false))
    case Write(v) => x.(data := v)
    case Pin => x.(pins := x.pins + 1)
    case Unlock => x.(status := st.(writeLocked := false))
    case BailOut => x.(status := st.(writeLocked := false))
    case ReleaseClaim => x.(status := st.(claimed := false))
    case ClearAddr => x.(diskAddr := None)
    case SetFree => x.(status := FREE_STATUS)
    case SetAddr => x.(diskAddr := Some(pc.addr))
    case ReadDisk => x.(data := s.disk[pc.addr])
    case ClearLoading => x.(status := st.(loading := false))
    case StartWriteback(_) => x.(status := st.(writeback := true))
    case SetClean => x.(status := st.(clean := true))
    case ClearWriteback => x.(status := st.(writeback := false))
    case Unpin(_) => x.(pins := x.pins - 1)
    case _ => x
  }

  /** Where a step takes its session. */
  function NewPc(s: State, i: nat, act: Action): Pc
    requires Enabled(s, i, act)
  {
    var pc := s.pcs[i];
    if act.Lookup? then Looked(Get(act.addr), s.lookup[act.addr])
    else
      var x := s.entries[Target(pc, act)];
      match act
      case Miss(a, e) => Loading(a, e)
      case PickVictim(e) => if SeemsEvictable(x, Stripe(s, i)) then Looked(Evict, e) else Idle
      case TestWriting => if x.status.writeLocked then (if pc.who.Get? then pc else Idle) else Tested(pc.who, pc.e)
      case GiveUp => Idle
      case CountRef => Counted(pc.who, pc.e)
      case TestFree => FreeTested(pc.who, pc.e, x.status.free)
      case TestWritingAgain =>
        if pc.sawFree || x.status.writeLocked then Backing(pc.who, pc.e, pc.sawFree) else Passed(pc.who, pc.e)
      case DropRef(again) => if again then Looked(pc.who, pc.e) else Idle
      case CheckAddr =>
        if x.diskAddr == Some(pc.who.addr) then Validated(pc.who.addr, pc.e) else Backing(pc.who, pc.e, true)
      case WaitLoaded => Reading(pc.addr, pc.e)
      case Unget => Idle
      case TryClaim =>
        if x.status.claimed then (if pc.Reading? then pc else Backing(Evict, pc.e, true))
        else Claimed(if pc.Reading? then Get(pc.addr) else Evict, pc.e)
      case Unclaim => Reading(pc.who.addr, pc.e)
      case SetWriteLocked => Flagged(if pc.Claimed? then pc.who else Evict, pc.e)
      case WaitWriteback => Draining(pc.who, pc.e, 0)
      case DrainStripe =>
        if pc.stripe + 1 < RC_WIDTH then Draining(pc.who, pc.e, pc.stripe + 1) else Locked(pc.who, pc.e, false)
      case MarkDirty => Locked(pc.who, pc.e, true)
      case Unlock => Claimed(pc.who, pc.e)
      case TestLoading => if x.status.loading then Releasing(pc.e) else NotLoading(pc.e)
      case BailOut => Releasing(pc.e)
      case ReleaseClaim => Backing(Evict, pc.e, true)
      case Verify => if x.status == LOCKED_EVICTABLE_STATUS && x.pins == 0 then Verified(pc.e) else pc
      case Unmap => Unmapped(pc.e)
      case ClearAddr => Cleared(pc.e)
      case SetFree => Backing(Evict, pc.e, true)
      case SetAddr => Addressed(pc.addr, pc.e)
      case ReadDisk => Filled(pc.addr, pc.e)
      case ClearLoading => Reading(pc.addr, pc.e)
      case StartWriteback(e) => WbStarted(x.diskAddr.value, e)
      case WriteDisk => WbWritten(pc.addr, pc.e)
      case SetClean => WbCleaned(pc.addr, pc.e)
      case ClearWriteback => Idle
      case _ => pc
  }

  /** The state after session i has taken one atomic step. */
  function Apply(s: State, i: nat, act: Action): (next: State)
    requires Enabled(s, i, act)
    ensures |next.entries| == |s.entries| && |next.pcs| == |s.pcs| && next.tids == s.tids
  {
    var pc := s.pcs[i];
    if act.Lookup? then s.(pcs := s.pcs[i := NewPc(s, i, act)])
    else
      var e := Target(pc, act);
      var x := s.entries[e];
      State(
        s.entries[e := NewEntry(s, i, act)],
        match act
        case Miss(a, _) => s.lookup[a := e]
        case Unmap => if x.diskAddr.Some? then s.lookup - {x.diskAddr.value} else s.lookup
        case _ => s.lookup,
        if act.WriteDisk? then s.disk[pc.addr := x.data] else s.disk,
        s.pcs[i := NewPc(s, i, act)],
        s.tids)
  }

  /* ---- Who holds what ---- */

  predicate HoldsRef(pc: Pc, e: nat) {
    && !pc.Idle? && !pc.Looked? && !pc.Tested? && !pc.WbStarted? && !pc.WbWritten? && !pc.WbCleaned? && pc.e == e
  }

  /** Past both tests, or loading the page: a writer that drains the counts waits for these. */
  predicate Admitted(pc: Pc, e: nat) {
    HoldsRef(pc, e) && !pc.Counted? && !pc.FreeTested? && !pc.Backing?
  }

  predicate OwnsClaim(pc: Pc, e: nat) {
    && (pc.Claimed? || pc.NotLoading? || pc.Flagged? || pc.Draining? || pc.Locked? || pc.Releasing?
        || pc.Verified? || pc.Unmapped? || pc.Cleared?)
    && pc.e == e
  }

  predicate OwnsWriteBit(pc: Pc, e: nat) {
    OwnsClaim(pc, e) && !pc.Claimed? && !pc.NotLoading? && !pc.Releasing?
  }

  /** The write lock proper: write-back is over and every stripe has been drained. */
  predicate HoldsWriteLock(pc: Pc, e: nat) {
    (pc.Locked? || pc.Verified? || pc.Unmapped? || pc.Cleared?) && pc.e == e
  }

  predicate HasDrained(pc: Pc, e: nat, stripe: nat) {
    HoldsWriteLock(pc, e) || (pc.Draining? && pc.e == e && stripe < pc.stripe)
  }

  /** A validated lock on address a at entry e. */
  predicate HoldsPage(pc: Pc, a: Addr, e: nat) {
    || pc == Validated(a, e) || pc == Reading(a, e)
    || ((pc.Claimed? || pc.Flagged? || pc.Draining? || pc.Locked?) && pc.who == Get(a) && pc.e == e)
  }

  predicate LoadsInto(pc: Pc, e: nat) {
    (pc.Loading? || pc.Addressed? || pc.Filled?) && pc.e == e
  }

  predicate WritesBack(pc: Pc, e: nat) {
    (pc.WbStarted? || pc.WbWritten? || pc.WbCleaned?) && pc.e == e
  }

  predicate TakesOut(pc: Pc, e: nat) {
    (pc.Unmapped? || pc.Cleared?) && pc.e == e
  }

  /* ---- The invariant ---- */

  function CountRefs(pcs: seq<Pc>, tids: seq<nat>, e: nat, stripe: nat): nat
    requires |pcs| == |tids|
  {
    if pcs == [] then 0
    else
      var n := |pcs| - 1;
      CountRefs(pcs[..n], tids[..n], e, stripe)
      + if HoldsRef(pcs[n], e) && tids[n] % RC_WIDTH == stripe then 1 else 0
  }

  ghost predicate RefsOk(s: State) {
    && |s.pcs| == |s.tids|
    && (forall e | 0 <= e < |s.entries| :: |s.entries[e].refs| == RC_WIDTH)
    && (forall e, stripe: nat | 0 <= e < |s.entries| && stripe < RC_WIDTH ::
          s.entries[e].refs[stripe] == CountRefs(s.pcs, s.tids, e, stripe))
  }

  predicate MapsTo(s: State, a: Addr, e: nat) {
    e < |s.entries| && a in s.lookup && s.lookup[a] == e && s.entries[e].diskAddr == Some(a)
  }

  ghost predicate NobodyTakesOut(s: State, e: nat) {
    forall j | 0 <= j < |s.pcs| :: !TakesOut(s.pcs[j], e)
  }

  ghost predicate EntryOk(s: State, e: nat)
    requires e < |s.entries|
  {
    var x := s.entries[e];
    && (x.status.free ==> x.diskAddr == None && !x.status.loading && !x.status.writeback)
    && (x.status.loading ==> x.status.clean && (x.diskAddr.Some? ==> MapsTo(s, x.diskAddr.value, e)))
    && (!x.status.free && !x.status.loading && NobodyTakesOut(s, e) ==>
          x.diskAddr.Some? && MapsTo(s, x.diskAddr.value, e))
  }

  ghost predicate AddrOk(s: State, a: Addr)
    requires a in s.lookup
  {
    var e := s.lookup[a];
    && e < |s.entries| && a in s.disk && !s.entries[e].status.free
    && (s.entries[e].diskAddr == Some(a) || (s.entries[e].diskAddr == None && s.entries[e].status.loading))
    && (forall b | b in s.lookup && s.lookup[b] == e :: a == b)
    && (s.entries[e].status.clean && !s.entries[e].status.loading ==> s.entries[e].data == s.disk[a])
  }

  ghost predicate SessionOk(s: State, i: nat)
    requires i < |s.pcs|
  {
    var pc := s.pcs[i];
    !pc.Idle? ==>
      && pc.e < |s.entries|
      && var x := s.entries[pc.e];
         && (pc.Draining? ==> pc.stripe < RC_WIDTH)
         && (OwnsClaim(pc, pc.e) ==> x.status.claimed)
         && (OwnsWriteBit(pc, pc.e) ==> x.status.writeLocked)
         && (pc.Draining? || HoldsWriteLock(pc, pc.e) ==> !x.status.writeback)
         && (WritesBack(pc, pc.e) ==>
           x.status.writeback && !x.status.free && !x.status.loading && MapsTo(s, pc.addr, pc.e))
         && (pc.WbStarted? ==> !x.status.clean)
         && (pc.WbWritten? ==> !x.status.clean && pc.addr in s.disk && s.disk[pc.addr] == x.data)
         && (LoadsInto(pc, pc.e) ==> x.status.loading && pc.addr in s.lookup && s.lookup[pc.addr] == pc.e)
         && (pc.Loading? ==> x.diskAddr == None)
         && (pc.Addressed? || pc.Filled? ==> x.diskAddr == Some(pc.addr))
         && (pc.Filled? ==> pc.addr in s.disk && x.data == s.disk[pc.addr])
         && (pc.Validated? ==> MapsTo(s, pc.addr, pc.e))
         && (pc.Reading? ==> MapsTo(s, pc.addr, pc.e) && !x.status.loading)
         && ((pc.Claimed? || pc.Flagged? || pc.Draining? || pc.Locked?) && pc.who.Get? ==>
               MapsTo(s, pc.who.addr, pc.e) && !x.status.loading)
         && (pc.NotLoading? ==> !x.status.loading)
         && (OwnsWriteBit(pc, pc.e) ==> !x.status.loading)
         && (pc.Locked? && pc.dirty ==> pc.who.Get? && !x.status.clean)
         && (pc.Verified? ==> x.status.clean && x.pins == 0 && !x.status.free)
         && (pc.Unmapped? || pc.Cleared? ==>
               x.status.clean && x.pins == 0 && !x.status.free && forall a | a in s.lookup :: s.lookup[a] != pc.e)
         && (pc.Cleared? ==> x.diskAddr == None)
  }

  ghost predicate PairOk(s: State, i: nat, j: nat)
    requires i < |s.pcs| == |s.tids| && j < |s.pcs|
  {
    var p, q := s.pcs[i], s.pcs[j];
    !p.Idle? && !q.Idle? && p.e == q.e ==>
      && !(OwnsClaim(p, p.e) && OwnsClaim(q, p.e))
      && !(WritesBack(p, p.e) && WritesBack(q, p.e))
      && !(LoadsInto(p, p.e) && LoadsInto(q, p.e))
      && !(HasDrained(p, p.e, Stripe(s, j)) && Admitted(q, p.e))
  }

  ghost predicate Inv(s: State) {
    && RefsOk(s)
    && (forall e | 0 <= e < |s.entries| :: EntryOk(s, e))
    && (forall a | a in s.lookup :: AddrOk(s, a))
    && (forall i | 0 <= i < |s.pcs| :: SessionOk(s, i))
    && (forall i, j | 0 <= i < |s.pcs| && 0 <= j < |s.pcs| && i != j :: PairOk(s, i, j))
  }
}
