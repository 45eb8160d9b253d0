/** Why a read lock counts only once the disk address has been checked (clockcache.c:961-996, 2143-2148). */
module ClockCacheStale {
  import opened Wrappers
  import opened ClockCache
  import opened ClockCacheSafety

  const PAGE: Addr := 7

  /** One entry, one page on disk, two threads. */
  function Start(): State {
    State([Entry(FREE_STATUS, None, 0, [0, 0, 0, 0], 0)], map[], map[PAGE := 42], [Idle, Idle], [0, 1])
  }

  /* The states the run passes through. */

  function State1(): State {
    State([Entry(Status(false, true, true, false, false, false, false), Some(PAGE), 42, [0, 0, 0, 0], 0)],
          map[PAGE := 0], map[PAGE := 42], [Idle, Idle], [0, 1])
  }

  function State2(): State {
    State([Entry(Status(false, false, true, false, false, false, false), Some(PAGE), 42, [0, 1, 0, 0], 0)],
          map[PAGE := 0], map[PAGE := 42], [Tested(Get(PAGE), 0), FreeTested(Evict, 0, false)], [0, 1])
  }

  /** As State2, once the evictor has claimed the entry. */
  function ClaimedState(): State {
    State([Entry(Status(false, false, true, false, false, false, true), Some(PAGE), 42, [0, 1, 0, 0], 0)],
          map[PAGE := 0], map[PAGE := 42], [Tested(Get(PAGE), 0), Claimed(Evict, 0)], [0, 1])
  }

  function State3(): State {
    State([Entry(Status(false, false, true, false, false, true, true), Some(PAGE), 42, [0, 1, 0, 0], 0)],
          map[PAGE := 0], map[PAGE := 42], [Tested(Get(PAGE), 0), Draining(Evict, 0, 0)], [0, 1])
  }

  function State4(): State {
    State([Entry(Status(false, false, true, false, false, true, true), Some(PAGE), 42, [0, 1, 0, 0], 0)],
          map[PAGE := 0], map[PAGE := 42], [Tested(Get(PAGE), 0), Verified(0)], [0, 1])
  }

  /** As State4, once the reader has counted itself and seen the entry in use. */
  function CountedState(): State {
    State([Entry(Status(false, false, true, false, false, true, true), Some(PAGE), 42, [1, 1, 0, 0], 0)],
          map[PAGE := 0], map[PAGE := 42], [FreeTested(Get(PAGE), 0, false), Verified(0)], [0, 1])
  }

  function State5(): State {
    State([Entry(Status(true, false, false, false, false, false, false), None, 42, [1, 1, 0, 0], 0)],
          map[], map[PAGE := 42], [FreeTested(Get(PAGE), 0, false), Backing(Evict, 0, true)], [0, 1])
  }

  function State6(): State {
    State([Entry(Status(true, false, false, false, false, false, false), None, 42, [1, 1, 0, 0], 0)],
          map[], map[PAGE := 42], [Passed(Get(PAGE), 0), Backing(Evict, 0, true)], [0, 1])
  }

  /** A page is read in and released. */
  lemma Load(before: seq<Event>) returns (run: seq<Event>)
    requires CanRun(Start(), before) && Final(Start(), before) == Start()
    ensures CanRun(Start(), run) && Final(Start(), run) == State1()
  {
    hide CanRun, Final;
    run := before;
    run := Then(Start(), run, 1, Miss(PAGE, 0));
    run := Then(Start(), run, 1, SetAddr);
    run := Then(Start(), run, 1, ReadDisk);
    run := Then(Start(), run, 1, ClearLoading);
    run := Then(Start(), run, 1, Unget);
    var f := Final(Start(), run);
    assert f.entries[0].refs == State1().entries[0].refs && f.entries == State1().entries;
    assert f.pcs == State1().pcs && f.lookup == State1().lookup;
  }

  /** The reader finds the entry unlocked; the evictor takes its reference. */
  lemma Find(before: seq<Event>) returns (run: seq<Event>)
    requires CanRun(Start(), before) && Final(Start(), before) == State1()
    ensures CanRun(Start(), run) && Final(Start(), run) == State2()
  {
    hide CanRun, Final;
    run := before;
    run := Then(Start(), run, 0, Lookup(PAGE));
    run := Then(Start(), run, 0, TestWriting);
    run := Then(Start(), run, 1, PickVictim(0));  // takes the mark
    run := Then(Start(), run, 1, PickVictim(0));
    run := Then(Start(), run, 1, TestWriting);
    run := Then(Start(), run, 1, CountRef);
    run := Then(Start(), run, 1, TestFree);
    var f := Final(Start(), run);
    assert f.entries[0].refs == State2().entries[0].refs && f.entries == State2().entries;
    assert f.pcs == State2().pcs && f.lookup == State2().lookup;
  }

  /** The evictor claims the entry. */
  lemma Claim(before: seq<Event>) returns (run: seq<Event>)
    requires CanRun(Start(), before) && Final(Start(), before) == State2()
    ensures CanRun(Start(), run) && Final(Start(), run) == ClaimedState()
  {
    hide CanRun, Final;
    run := before;
    run := Then(Start(), run, 1, TestWritingAgain);
    run := Then(Start(), run, 1, TryClaim);
    var f := Final(Start(), run);
    assert f.entries[0].refs == ClaimedState().entries[0].refs && f.entries == ClaimedState().entries;
    assert f.pcs == ClaimedState().pcs && f.lookup == ClaimedState().lookup;
  }

  /** It flags the entry write-locked. */
  lemma Lock(before: seq<Event>) returns (run: seq<Event>)
    requires CanRun(Start(), before) && Final(Start(), before) == ClaimedState()
    ensures CanRun(Start(), run) && Final(Start(), run) == State3()
  {
    hide CanRun, Final;
    run := before;
    run := Then(Start(), run, 1, TestLoading);
    run := Then(Start(), run, 1, SetWriteLocked);
    run := Then(Start(), run, 1, WaitWriteback);
    var f := Final(Start(), run);
    assert f.entries[0].refs == State3().entries[0].refs && f.entries == State3().entries;
    assert f.pcs == State3().pcs && f.lookup == State3().lookup;
  }

  /** It sees no other reference and finds the entry evictable. */
  lemma Drain(before: seq<Event>) returns (run: seq<Event>)
    requires CanRun(Start(), before) && Final(Start(), before) == State3()
    ensures CanRun(Start(), run) && Final(Start(), run) == State4()
  {
    hide CanRun, Final;
    run := before;
    run := Then(Start(), run, 1, DrainStripe);
    run := Then(Start(), run, 1, DrainStripe);
    run := Then(Start(), run, 1, DrainStripe);
    run := Then(Start(), run, 1, DrainStripe);
    run := Then(Start(), run, 1, Verify);
    var f := Final(Start(), run);
    assert f.entries[0].refs == State4().entries[0].refs && f.entries == State4().entries;
    assert f.pcs == State4().pcs && f.lookup == State4().lookup;
  }

  /** The reader counts itself and sees the entry in use. */
  lemma Count(before: seq<Event>) returns (run: seq<Event>)
    requires CanRun(Start(), before) && Final(Start(), before) == State4()
    ensures CanRun(Start(), run) && Final(Start(), run) == CountedState()
  {
    hide CanRun, Final;
    run := before;
    run := Then(Start(), run, 0, CountRef);
    run := Then(Start(), run, 0, TestFree);
    var f := Final(Start(), run);
    assert f.entries[0].refs == CountedState().entries[0].refs && f.entries == CountedState().entries;
    assert f.pcs == CountedState().pcs && f.lookup == CountedState().lookup;
  }

  /** Then the evictor frees it. */
  lemma Free(before: seq<Event>) returns (run: seq<Event>)
    requires CanRun(Start(), before) && Final(Start(), before) == CountedState()
    ensures CanRun(Start(), run) && Final(Start(), run) == State5()
  {
    hide CanRun, Final;
    run := before;
    run := Then(Start(), run, 1, Unmap);
    run := Then(Start(), run, 1, ClearAddr);
    run := Then(Start(), run, 1, SetFree);
    var f := Final(Start(), run);
    assert f.entries[0].refs == State5().entries[0].refs && f.entries == State5().entries;
    assert f.pcs == State5().pcs && f.lookup == State5().lookup;
  }

  /** The write lock has gone with the page, so the reader passes its second test. */
  lemma Pass(before: seq<Event>) returns (run: seq<Event>)
    requires CanRun(Start(), before) && Final(Start(), before) == State5()
    ensures CanRun(Start(), run) && Final(Start(), run) == State6()
  {
    hide CanRun, Final;
    run := before;
    run := Then(Start(), run, 0, TestWritingAgain);
    var f := Final(Start(), run);
    assert f.entries[0].refs == State6().entries[0].refs && f.entries == State6().entries;
    assert f.pcs == State6().pcs && f.lookup == State6().lookup;
  }

  /**
    From an empty cache a reader can pass both tests of `clockcache_try_get_read` and hold a
    counted reference on an entry that is free: only the comparison of the disk address that
    follows tells it.
   */
  lemma PassedOnFreeEntry() returns (run: seq<Event>)
    ensures Initial(Start()) && CanRun(Start(), run)
    ensures var f := Final(Start(), run);
      && |f.pcs| == 2 && |f.entries| == 1 && |f.entries[0].refs| == RC_WIDTH
      && f.pcs[0] == Passed(Get(PAGE), 0) && f.entries[0].status.free && f.entries[0].refs[0] == 1
  {
    hide Enabled, Apply;
    run := Load([]);
    run := Find(run);
    run := Claim(run);
    run := Lock(run);
    run := Drain(run);
    run := Count(run);
    run := Free(run);
    run := Pass(run);
  }
}
