/** Concrete runs that show where the guarantees end. Goroutine 1 stores and renews, goroutine 2 reads. */
module CounterRuns {
  import opened Common
  import opened Clock
  import opened Options
  import opened Stores
  import opened Concurrency
  import opened Reads
  import opened Exclusion
  import opened Conservation
  import opened LazyEviction

  const T: Time := TWO_63 + 1
  const KEY: Key := [1]
  const VALUE: Bytes := [2]
  const RENEWAL: GetRecord := NOTHING.(setTTL := Some(100))

  /** The state at `T + d`: the key maps to `mapped`, item 0 has deadline `deadline`. */
  ghost function At(mapped: Option<Ref>, heap: map<Ref, Item>, d: nat, threads: map<Tid, Pc>, lock: Option<Tid>)
    : System
  {
    System(Store(if mapped.Some? then map[KEY := mapped.value] else map[], heap), 0, T + d, threads, lock)
  }

  ghost function One(deadline: Time): map<Ref, Item> {
    map[0 := Item(VALUE, T + deadline)]
  }

  ghost predicate Leads(s: System, a: Action, s': System) {
    Enabled(s, a) && s' == Next(s, a)
  }

  lemma SingleOption(opt: GetOption)
    ensures Fold([opt]) == NOTHING.With(opt)
  {
    assert Fold([opt]) == FoldFrom(NOTHING.With([opt][0]), [opt][1..]);
  }

  // ----- two holders -----

  ghost const EXCLUSION: Run := Run(
    [At(None, map[], 0, map[], None),
     At(Some(0), One(10), 0, map[], None),
     At(Some(0), One(10), 0, map[2 := Read(KEY, 0)], None),
     At(Some(0), One(10), 0, map[2 := Read(KEY, 0), 1 := Renewing(KEY, 0, T, RENEWAL)], Some(1)),
     At(Some(0), One(10), 11, map[2 := Read(KEY, 0), 1 := Renewing(KEY, 0, T, RENEWAL)], Some(1)),
     At(Some(0), One(10), 11, map[2 := Evict(KEY, 0), 1 := Renewing(KEY, 0, T, RENEWAL)], Some(1)),
     At(Some(0), One(100), 11, map[2 := Evict(KEY, 0), 1 := Read(KEY, 0)], None),
     At(None, One(100), 11, map[2 := Idle, 1 := Read(KEY, 0)], None),
     At(Some(1), One(100)[1 := Item(VALUE, 0)], 11, map[2 := Idle, 1 := Read(KEY, 0)], None)],
    [SetOrFail(1, KEY, VALUE, [WithTTL(10)], T, 0),
     Snapshot(2, KEY),
     Sample(1, KEY, [AndSetTTL(100)]),
     Tick(T + 11),
     Decide(2),
     Write(1),
     CompareAndDelete(2),
     SetOrFail(3, KEY, VALUE, [], T + 11, 1)])

  lemma ExclusionRunStartsValid()
    ensures forall i :: 0 <= i < 4 ==> EXCLUSION.Step(i)
  {}

  lemma ExclusionRunMiddleValid()
    ensures EXCLUSION.Step(4) && EXCLUSION.Step(5)
  {}

  lemma ExclusionRunEndsValid()
    ensures EXCLUSION.Step(6) && EXCLUSION.Step(7)
  {}

  lemma ExclusionRunIsValid()
    ensures EXCLUSION.Valid()
  {
    ExclusionRunStartsValid();
    ExclusionRunMiddleValid();
    ExclusionRunEndsValid();
  }

  /**
   With a late write, two `SetOrFail` callers hold one key at once. A reader finds the first holder's item expired; the
   holder's renewal, sampled in time, is written late; the reader then evicts the renewed item, and the key is free.
   */
  lemma LateWriteBreaksExclusion()
    ensures EXCLUSION.Valid() && Wins(EXCLUSION, 0, KEY) && Wins(EXCLUSION, 7, KEY)
    ensures forall m :: 0 < m < 7 ==> !Releases(EXCLUSION, m, KEY)
    ensures !EXCLUSION.states[7].Expired(EXCLUSION.acts[0].ref)
    ensures LateFor(EXCLUSION.states[5], EXCLUSION.acts[5], EXCLUSION.acts[0].ref) && Stale(EXCLUSION, 6, KEY, 0)
  {
    ExclusionRunIsValid();
    SingleOption(AndSetTTL(100));
  }

  // ----- a miss without an absence -----

  ghost const MISS: Run := Run(
    [At(None, map[], 0, map[], None),
     At(Some(0), One(10), 0, map[], None),
     At(Some(0), One(10), 0, map[2 := Read(KEY, 0)], None),
     At(Some(1), One(10)[1 := Item(VALUE, 0)], 0, map[2 := Read(KEY, 0)], None),
     At(Some(1), One(10)[1 := Item(VALUE, 0)], 11, map[2 := Read(KEY, 0)], None),
     At(Some(1), One(10)[1 := Item(VALUE, 0)], 11, map[2 := Evict(KEY, 0)], None),
     At(Some(1), One(10)[1 := Item(VALUE, 0)], 11, map[2 := Idle], None)],
    [Set(1, KEY, VALUE, [WithTTL(10)], T, 0),
     Snapshot(2, KEY),
     Set(1, KEY, VALUE, [], T, 1),
     Tick(T + 11),
     Decide(2),
     CompareAndDelete(2)])

  lemma MissRunIsValid()
    ensures MISS.Valid() && MISS.Timely()
  {
    var s, a := MISS.states, MISS.acts;
    assert Leads(s[0], a[0], s[1]);
    assert Leads(s[1], a[1], s[2]);
    assert Leads(s[2], a[2], s[3]);
    assert Leads(s[3], a[3], s[4]);
    assert Leads(s[4], a[4], s[5]);
    assert Leads(s[5], a[5], s[6]);
  }

  /** Misses are justified but not linearizable: a read can miss a key that was live at every instant of the read. */
  lemma MissIsNotLinearizable()
    ensures MISS.Valid() && MISS.Timely()
    ensures BeganAt(MISS, 1, 5, 2, KEY, 0) && MISS.Answer(5) == Miss
    ensures forall m :: 1 <= m <= 6 ==> MISS.states[m].store.Live(KEY, MISS.states[m].clock)
  {
    MissRunIsValid();
  }

  // ----- taken, but not delivered -----

  ghost const TAKEN: Run := Run(
    [At(None, map[], 0, map[], None),
     At(Some(0), One(10), 0, map[], None),
     At(None, One(10), 0, map[1 := Read(KEY, 0)], None),
     At(None, One(10), 11, map[1 := Read(KEY, 0)], None),
     At(None, One(10), 11, map[1 := Evict(KEY, 0)], None),
     At(None, One(10), 11, map[1 := Idle], None)],
    [Set(1, KEY, VALUE, [WithTTL(10)], T, 0),
     Sample(1, KEY, [AndDelete]),
     Tick(T + 11),
     Decide(1),
     CompareAndDelete(1)])

  lemma TakenRunIsValid()
    ensures TAKEN.Valid() && TAKEN.Timely()
  {
    var s, a := TAKEN.states, TAKEN.acts;
    SingleOption(AndDelete);
    assert Leads(s[0], a[0], s[1]);
    assert Leads(s[1], a[1], s[2]);
    assert Leads(s[2], a[2], s[3]);
    assert Leads(s[3], a[3], s[4]);
    assert Leads(s[4], a[4], s[5]);
  }

  /** Delivery is at most once, not exactly once: `AndDelete` can remove a live item and still answer "not found". */
  lemma DeliveryIsNotExactlyOnce()
    ensures TAKEN.Valid() && TAKEN.Timely()
    ensures HandedOut(TAKEN, 1) == {0} && BeganAt(TAKEN, 1, 4, 1, KEY, 0) && TAKEN.Answer(4) == Miss
  {
    TakenRunIsValid();
    SingleOption(AndDelete);
  }

  // ----- drained, but not what was due -----

  ghost const DRAIN: Run := Run(
    [At(None, map[], 0, map[], None),
     At(Some(0), One(10), 0, map[], None),
     At(Some(0), One(10), 0, map[3 := Sweeping(T, true)], None),
     At(Some(0), One(10), 0, map[3 := Sweeping(T, true), 2 := Read(KEY, 0)], None),
     At(Some(0), One(10), 11, map[3 := Sweeping(T, true), 2 := Read(KEY, 0)], None),
     At(Some(0), One(10), 11, map[3 := Sweeping(T, true), 2 := Evict(KEY, 0)], None),
     At(None, One(10), 11, map[3 := Sweeping(T, true), 2 := Idle], None),
     At(None, One(10), 11, map[3 := Idle, 2 := Idle], None)],
    [Set(1, KEY, VALUE, [WithTTL(10)], T, 0),
     ReadSweepClock(3, true),
     Snapshot(2, KEY),
     Tick(T + 11),
     Decide(2),
     CompareAndDelete(2),
     Sweep(3)])

  lemma DrainRunIsValid()
    ensures DRAIN.Valid() && DRAIN.Timely()
  {
    var s, a := DRAIN.states, DRAIN.acts;
    assert Leads(s[0], a[0], s[1]);
    assert Leads(s[1], a[1], s[2]);
    assert Leads(s[2], a[2], s[3]);
    assert Leads(s[3], a[3], s[4]);
    assert Leads(s[4], a[4], s[5]);
    assert Leads(s[5], a[5], s[6]);
    assert Leads(s[6], a[6], s[7]);
  }

  lemma DrainRunIdeal()
    requires DRAIN.Valid()
    ensures Ideal(DRAIN, 6) == map[KEY := 0]
  {
    assert Ideal(DRAIN, 0) == map[];
    assert Ideal(DRAIN, 1) == map[KEY := 0];
    assert Ideal(DRAIN, 3) == Ideal(DRAIN, 2) == Ideal(DRAIN, 1);
    assert Ideal(DRAIN, 6) == Ideal(DRAIN, 5) == Ideal(DRAIN, 4) == Ideal(DRAIN, 3);
  }

  /** A drain can tell that eviction took place: it misses an entry that was unexpired when it read its clock. */
  lemma DrainIsNotIdeal()
    ensures DRAIN.Valid() && DRAIN.Timely()
    ensures DRAIN.acts[6] == Sweep(3) && DRAIN.states[6].Pc(3) == Sweeping(T, true)
    ensures DRAIN.Answer(6) == Drained(map[]) && IdealDrained(DRAIN, 6, T) == map[KEY := VALUE]
  {
    DrainRunIsValid();
    DrainRunIdeal();
  }
}
