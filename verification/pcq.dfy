/**
  The multi-producer, single-consumer queue of pcq.h. Producers draw a ticket from `tail` and
  store their element in a second step; the consumer looks, clears and advances in steps of
  its own. The counters are 32 bits wide and wrap around.
 */
module Pcq {
  import opened Wrappers
  import opened Modulo

  type Elem = int

  const COUNTERS := 0x1_0000_0000

  /** The slot of the t-th ticket ever drawn, as the wrapped counter gives it. */
  function Slot(t: nat, numElems: nat): (slot: nat)
    requires numElems > 0
    ensures slot < numElems
  {
    t % COUNTERS % numElems
  }

  /** Any num_elems tickets in a row have slots of their own. */
  ghost predicate SlotsDistinct(numElems: nat)
    requires numElems > 0
  {
    forall t: nat, u: nat | t < u < t + numElems :: Slot(t, numElems) != Slot(u, numElems)
  }

  lemma WrapAround(t: nat, numElems: nat)
    requires numElems > 0 && COUNTERS % numElems == 0
    ensures Slot(t, numElems) == t % numElems
  {
    var q, m := t / COUNTERS, COUNTERS / numElems;
    assert COUNTERS == numElems * m;
    assert t == COUNTERS * q + t % COUNTERS;
    assert COUNTERS * q == numElems * (m * q);
    AddMultiple(numElems, m * q, t % COUNTERS);
  }

  /** The queue's slots survive the wrap of the counters exactly when num_elems divides their range. */
  lemma SlotsDistinctIff(numElems: nat)
    requires 0 < numElems <= COUNTERS
    ensures SlotsDistinct(numElems) <==> COUNTERS % numElems == 0
  {
    if COUNTERS % numElems == 0 {
      forall t: nat, u: nat | t < u < t + numElems ensures Slot(t, numElems) != Slot(u, numElems) {
        WrapAround(t, numElems);
        WrapAround(u, numElems);
        CloseDiffer(t, u, numElems);
      }
    } else {
      var r := COUNTERS % numElems;
      var t := COUNTERS - r;
      assert t == numElems * (COUNTERS / numElems);
      AddMultiple(numElems, COUNTERS / numElems, 0);
      assert Slot(t, numElems) == 0 && Slot(COUNTERS, numElems) == 0;
      assert t < COUNTERS < t + numElems;
    }
  }

  /* ---- The protocol ---- */

  datatype Consumer = Idle | NotEmpty | Holding(elem: Elem) | Cleared(elem: Elem)

  /**
    `issued` and `taken` record all elements ever enqueued, by ticket, and dequeued;
    `waiting` holds the tickets that have been drawn but not stored yet.
   */
  datatype Queue = Queue(numElems: nat, tail: nat, head: nat, elems: seq<Option<Elem>>, consumer: Consumer,
                         waiting: set<nat>, issued: seq<Elem>, taken: seq<Elem>)

  datatype Step = Draw(elem: Elem) | Store(ticket: nat) | Look | Fetch | Clear | Advance

  predicate CanStep(q: Queue, step: Step) {
    && q.numElems == |q.elems| && q.numElems > 0
    && match step
       case Draw(_) => |q.issued| < |q.taken| + q.numElems
       case Store(t) => t in q.waiting && t < |q.issued|
       case Look => q.consumer.Idle?
       case Fetch => q.consumer.NotEmpty?
       case Clear => q.consumer.Holding?
       case Advance => q.consumer.Cleared?
  }

  function Stepped(q: Queue, step: Step): Queue
    requires CanStep(q, step)
  {
    match step
    case Draw(e) => q.(tail := (q.tail + 1) % COUNTERS, issued := q.issued + [e], waiting := q.waiting + {|q.issued|})
    case Store(t) => q.(elems := q.elems[Slot(t, q.numElems) := Some(q.issued[t])], waiting := q.waiting - {t})
    case Look => if q.head == q.tail then q else q.(consumer := NotEmpty)
    case Fetch =>
      var e := q.elems[q.head % q.numElems];
      q.(consumer := if e.None? then Idle else Holding(e.value))
    case Clear => q.(elems := q.elems[q.head % q.numElems := None], consumer := Cleared(q.consumer.elem))
    case Advance => q.(head := (q.head + 1) % COUNTERS, consumer := Idle, taken := q.taken + [q.consumer.elem])
  }

  /** What slot of an outstanding ticket holds. */
  function Expected(q: Queue, t: nat): Option<Elem>
    requires t < |q.issued|
  {
    if t in q.waiting || (t == |q.taken| && q.consumer.Cleared?) then None else Some(q.issued[t])
  }

  ghost predicate CountersOk(q: Queue) {
    && q.numElems == |q.elems| && 0 < q.numElems <= COUNTERS && COUNTERS % q.numElems == 0
    && |q.taken| <= |q.issued| <= |q.taken| + q.numElems
    && q.tail == |q.issued| % COUNTERS && q.head == |q.taken| % COUNTERS
  }

  ghost predicate Filled(q: Queue)
    requires q.numElems == |q.elems| > 0
  {
    forall t: nat | |q.taken| <= t < |q.issued| :: q.elems[Slot(t, q.numElems)] == Expected(q, t)
  }

  ghost predicate EmptyElsewhere(q: Queue)
    requires q.numElems == |q.elems| > 0
  {
    forall s | 0 <= s < |q.elems| && (forall t: nat | |q.taken| <= t < |q.issued| :: Slot(t, q.numElems) != s) ::
      q.elems[s] == None
  }

  ghost predicate Inv(q: Queue) {
    && CountersOk(q) && Filled(q) && EmptyElsewhere(q)
    && q.taken == q.issued[..|q.taken|]
    && (forall t | t in q.waiting :: |q.taken| <= t < |q.issued|)
    && (q.consumer != Idle ==> |q.taken| < |q.issued|)
    && (q.consumer.Holding? || q.consumer.Cleared? ==>
          q.consumer.elem == q.issued[|q.taken|] && |q.taken| !in q.waiting)
  }

  ghost predicate Initial(q: Queue) {
    && q.numElems == |q.elems| && 0 < q.numElems <= COUNTERS && q.tail == q.head == 0
    && (forall s | 0 <= s < |q.elems| :: q.elems[s] == None)
    && q.consumer == Idle && q.waiting == {} && q.issued == [] && q.taken == []
  }

  lemma Distinct(q: Queue, t: nat, u: nat)
    requires Inv(q) && t < u < t + q.numElems
    ensures Slot(t, q.numElems) != Slot(u, q.numElems)
  {
    SlotsDistinctIff(q.numElems);
  }

  /** The slot a producer stores to is empty, as `pcq_enqueue` asserts. */
  lemma StoresToEmpty(q: Queue, t: nat)
    requires Inv(q) && CanStep(q, Store(t))
    ensures q.elems[Slot(t, q.numElems)] == None
  {
  }

  lemma DrawKeeps(q: Queue, e: Elem)
    requires Inv(q) && CanStep(q, Draw(e))
    ensures Inv(Stepped(q, Draw(e)))
  {
    hide Slot, Filled, EmptyElsewhere, CountersOk;
    DrawCounters(q, e);
    DrawFilled(q, e);
    DrawEmpty(q, e);
    assert Stepped(q, Draw(e)).issued[..|q.taken|] == q.issued[..|q.taken|];
  }

  lemma DrawCounters(q: Queue, e: Elem)
    requires Inv(q) && CanStep(q, Draw(e))
    ensures CountersOk(Stepped(q, Draw(e))) && |q.taken| <= |q.issued|
  {
    hide Filled, EmptyElsewhere;
    NextCounter(|q.issued|);
  }

  lemma DrawFilled(q: Queue, e: Elem)
    requires Inv(q) && CanStep(q, Draw(e))
    ensures Filled(Stepped(q, Draw(e)))
  {
    hide Slot;
    var q' := Stepped(q, Draw(e));
    var n := |q.issued|;
    assert q.elems[Slot(n, q.numElems)] == None by {
      forall t: nat | |q.taken| <= t < n ensures Slot(t, q.numElems) != Slot(n, q.numElems) {
        Distinct(q, t, n);
      }
    }
    forall t: nat | |q.taken| <= t < |q'.issued| ensures q'.elems[Slot(t, q.numElems)] == Expected(q', t) {
      if t < n {
        assert Expected(q', t) == Expected(q, t);
      }
    }
  }

  lemma DrawEmpty(q: Queue, e: Elem)
    requires Inv(q) && CanStep(q, Draw(e))
    ensures EmptyElsewhere(Stepped(q, Draw(e)))
  {
    hide Slot, Filled;
    var q' := Stepped(q, Draw(e));
    forall s | 0 <= s < |q'.elems| && (forall t: nat | |q.taken| <= t < |q'.issued| :: Slot(t, q.numElems) != s)
      ensures q'.elems[s] == None
    {
      assert forall t: nat | |q.taken| <= t < |q.issued| :: Slot(t, q.numElems) != s;
    }
  }

  lemma StoreKeeps(q: Queue, u: nat)
    requires Inv(q) && CanStep(q, Store(u))
    ensures Inv(Stepped(q, Store(u)))
  {
    hide Slot;
    var q' := Stepped(q, Store(u));
    forall t: nat | |q.taken| <= t < |q.issued| ensures q'.elems[Slot(t, q.numElems)] == Expected(q', t) {
      assert q.elems[Slot(t, q.numElems)] == Expected(q, t);
      if t < u {
        Distinct(q, t, u);
      } else if u < t {
        Distinct(q, u, t);
      }
    }
  }

  lemma ClearKeeps(q: Queue)
    requires Inv(q) && CanStep(q, Clear)
    ensures Inv(Stepped(q, Clear))
  {
    var q' := Stepped(q, Clear);
    var h := |q.taken|;
    assert q.head % q.numElems == Slot(h, q.numElems);
    hide Slot;
    forall t: nat | h <= t < |q.issued| ensures q'.elems[Slot(t, q.numElems)] == Expected(q', t) {
      assert q.elems[Slot(t, q.numElems)] == Expected(q, t);
      if h < t {
        Distinct(q, h, t);
      }
    }
  }

  lemma AdvanceKeeps(q: Queue)
    requires Inv(q) && CanStep(q, Advance)
    ensures Inv(Stepped(q, Advance))
  {
    hide Slot, CountersOk, Filled, EmptyElsewhere;
    var h := |q.taken|;
    AdvanceCounters(q);
    AdvanceFilled(q);
    AdvanceSlots(q);
    assert q.issued[..h + 1] == q.issued[..h] + [q.issued[h]];
  }

  lemma AdvanceCounters(q: Queue)
    requires Inv(q) && CanStep(q, Advance)
    ensures CountersOk(Stepped(q, Advance))
  {
    hide Filled, EmptyElsewhere;
    NextCounter(|q.taken|);
  }

  lemma NextCounter(t: nat)
    ensures (t % COUNTERS + 1) % COUNTERS == (t + 1) % COUNTERS
  {
  }

  lemma AdvanceFilled(q: Queue)
    requires Inv(q) && CanStep(q, Advance)
    ensures Filled(Stepped(q, Advance))
  {
    hide Slot, EmptyElsewhere;
    var q' := Stepped(q, Advance);
    forall t: nat | |q.taken| + 1 <= t < |q.issued| ensures q'.elems[Slot(t, q.numElems)] == Expected(q', t) {
      assert Expected(q', t) == Expected(q, t);
    }
  }

  lemma AdvanceSlots(q: Queue)
    requires Inv(q) && CanStep(q, Advance)
    ensures EmptyElsewhere(Stepped(q, Advance))
  {
    hide Slot;
    var h := |q.taken|;
    assert q.elems[Slot(h, q.numElems)] == Expected(q, h) == None;
    forall s | 0 <= s < |q.elems| && (forall t: nat | h + 1 <= t < |q.issued| :: Slot(t, q.numElems) != s)
      ensures q.elems[s] == None
    {
      if s != Slot(h, q.numElems) {
        assert forall t: nat | h <= t < |q.issued| :: Slot(t, q.numElems) != s;
      }
    }
  }

  lemma StepKeeps(q: Queue, step: Step)
    requires Inv(q) && CanStep(q, step)
    ensures Inv(Stepped(q, step))
  {
    match step
    case Draw(e) => DrawKeeps(q, e);
    case Store(t) => StoreKeeps(q, t);
    case Look => LookKeeps(q);
    case Fetch => FetchKeeps(q);
    case Clear => ClearKeeps(q);
    case Advance => AdvanceKeeps(q);
  }

  lemma LookKeeps(q: Queue)
    requires Inv(q) && CanStep(q, Look)
    ensures Inv(Stepped(q, Look))
  {
    hide Slot;
    var q' := Stepped(q, Look);
    forall t: nat | |q.taken| <= t < |q.issued| ensures Expected(q', t) == Expected(q, t) {
    }
  }

  lemma FetchKeeps(q: Queue)
    requires Inv(q) && CanStep(q, Fetch)
    ensures Inv(Stepped(q, Fetch))
  {
    var h := |q.taken|;
    assert q.head % q.numElems == Slot(h, q.numElems);
    hide Slot;
    var q' := Stepped(q, Fetch);
    assert q.elems[Slot(h, q.numElems)] == Expected(q, h);
    forall t: nat | h <= t < |q.issued| ensures Expected(q', t) == Expected(q, t) {
    }
  }

  ghost predicate CanRun(q: Queue, steps: seq<Step>)
    decreases |steps|
  {
    steps != [] ==> CanStep(q, steps[0]) && CanRun(Stepped(q, steps[0]), steps[1..])
  }

  ghost function Final(q: Queue, steps: seq<Step>): Queue
    requires CanRun(q, steps)
    decreases |steps|
  {
    if steps == [] then q else Final(Stepped(q, steps[0]), steps[1..])
  }

  lemma {:induction false} RunKeeps(q: Queue, steps: seq<Step>)
    requires Inv(q) && CanRun(q, steps)
    ensures Inv(Final(q, steps))
    decreases |steps|
  {
    hide Inv, CanStep, Stepped;
    if steps != [] {
      StepKeeps(q, steps[0]);
      RunKeeps(Stepped(q, steps[0]), steps[1..]);
    }
  }

  /**
    Over every interleaving, across any number of counter wraps: what has been dequeued is a
    prefix of what has been enqueued, in ticket order, and a stored element at the head
    cannot be missed.
   */
  lemma ExactlyOnceInOrder(q: Queue, steps: seq<Step>)
    requires Initial(q) && COUNTERS % q.numElems == 0 && CanRun(q, steps)
    ensures var f := Final(q, steps);
      && f.taken <= f.issued
      && (f.consumer.NotEmpty? && |f.taken| !in f.waiting ==>
            CanStep(f, Fetch) && |f.taken| < |f.issued|
            && Stepped(f, Fetch).consumer == Holding(f.issued[|f.taken|]))
      && (f.consumer.Idle? && |f.issued| - |f.taken| < COUNTERS ==>
            CanStep(f, Look) && (Stepped(f, Look).consumer == NotEmpty <==> f.taken != f.issued))
  {
    InitialInv(q);
    RunKeeps(q, steps);
    var f := Final(q, steps);
    if f.consumer.NotEmpty? && |f.taken| !in f.waiting {
      assert f.elems[Slot(|f.taken|, f.numElems)] == Expected(f, |f.taken|);
    }
    if f.head == f.tail && |f.issued| - |f.taken| < COUNTERS {
      SameCounter(|f.taken|, |f.issued|);
    }
  }

  /** Once the next ticket has been stored, one dequeue takes its element. */
  lemma DequeueTakesNext(q: Queue, steps: seq<Step>)
    requires Initial(q) && COUNTERS % q.numElems == 0 && CanRun(q, steps)
    requires var f := Final(q, steps);
      f.consumer.Idle? && |f.taken| < |f.issued| < |f.taken| + COUNTERS && |f.taken| !in f.waiting
    ensures var f, dequeue := Final(q, steps), [Look, Fetch, Clear, Advance];
      && CanRun(f, dequeue) && Final(f, dequeue).consumer.Idle?
      && Final(f, dequeue).taken == f.taken + [f.issued[|f.taken|]]
  {
    hide Inv, Initial, CanRun, Final;
    InitialInv(q);
    RunKeeps(q, steps);
    ExactlyOnceInOrder(q, steps);
    var f0 := Final(q, steps);
    var f1 := Stepped(f0, Look);
    StepKeeps(f0, Look);
    HeadIsStored(f1);
    var f2 := Stepped(f1, Fetch);
    FourSteps(f0);
  }

  lemma HeadIsStored(q: Queue)
    requires Inv(q) && q.consumer.NotEmpty? && |q.taken| !in q.waiting
    ensures |q.taken| < |q.issued| && CanStep(q, Fetch)
    ensures Stepped(q, Fetch).consumer == Holding(q.issued[|q.taken|])
  {
    assert q.elems[Slot(|q.taken|, q.numElems)] == Expected(q, |q.taken|);
  }

  lemma FourSteps(q: Queue)
    requires CanStep(q, Look) && CanStep(Stepped(q, Look), Fetch)
    requires var q' := Stepped(Stepped(q, Look), Fetch); q'.consumer.Holding?
    ensures var q', dequeue := Stepped(Stepped(q, Look), Fetch), [Look, Fetch, Clear, Advance];
      && CanRun(q, dequeue) && Final(q, dequeue).consumer.Idle?
      && Final(q, dequeue).taken == q.taken + [q'.consumer.elem]
  {
    var q2 := Stepped(Stepped(q, Look), Fetch);
    var q3 := Stepped(q2, Clear);
    var q4 := Stepped(q3, Advance);
    assert [Look, Fetch, Clear, Advance][1..] == [Fetch, Clear, Advance];
    assert [Fetch, Clear, Advance][1..] == [Clear, Advance];
    assert [Clear, Advance][1..] == [Advance];
    assert [Advance][1..] == [];
    assert CanRun(q4, []) && Final(q4, []) == q4;
    assert CanRun(q3, [Advance]) && Final(q3, [Advance]) == q4;
    assert CanRun(q2, [Clear, Advance]) && Final(q2, [Clear, Advance]) == q4;
    assert CanRun(Stepped(q, Look), [Fetch, Clear, Advance]);
  }

  lemma SameCounter(a: nat, b: nat)
    requires a <= b < a + COUNTERS && a % COUNTERS == b % COUNTERS
    ensures a == b
  {
  }

  lemma InitialInv(q: Queue)
    requires Initial(q) && COUNTERS % q.numElems == 0
    ensures Inv(q)
  {
  }
}
