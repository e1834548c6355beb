/** Exactly when a miss is linearizable, and exactly when an item taken by `AndDelete` is delivered. */
module ExactAnswers {
  import opened Common
  import opened Options
  import opened Concurrency
  import opened Reads
  import opened Conservation

  ghost predicate LiveAt(run: Run, n: nat, key: Key)
    requires n < |run.states|
  {
    run.states[n].store.Live(key, run.states[n].clock)
  }

  // ----- misses -----

  /** Step m is a `Set` that replaces item `r` under `key` while `r` is still live. */
  ghost predicate ReplacesLive(run: Run, m: nat, key: Key, r: Ref)
    requires run.Valid() && m < |run.acts|
  {
    run.acts[m].Set? && run.acts[m].key == key && Holds(run, m, key, r) && !run.states[m].Expired(r)
  }

  /** Step m replaces the item a read began with at step i; it was live until then, and the key stays live through j. */
  ghost predicate ReplacedThroughout(run: Run, i: nat, m: nat, j: nat, key: Key, r: Ref)
    requires run.Valid() && j <= |run.acts|
  {
    && i <= m < j && ReplacesLive(run, m, key, r) && run.TimelyFor(r, i, m)
    && forall n :: m < n <= j ==> LiveAt(run, n, key)
  }

  /** A key that stays live although the item read is found expired was given another item in time. */
  lemma LiveThroughoutWasReplaced(run: Run, i: nat, d: nat, key: Key, r: Ref)
    requires run.Valid() && i < d <= |run.acts| && Holds(run, i, key, r) && run.states[d].Expired(r)
    requires forall n :: i <= n <= d ==> LiveAt(run, n, key)
    ensures exists m: nat :: ReplacedThroughout(run, i, m, d, key, r)
  {
    assert LiveAt(run, d, key);
    SomeStepEndsIt(run, i, d, key, r);
    var m: nat :| i <= m < d && HeldThrough(run, i, m, key, r) && !Holds(run, m + 1, key, r);
    assert Holds(run, m, key, r) && LiveAt(run, m, key) && LiveAt(run, m + 1, key);
    assert run.Step(m);
    forall n | i <= n < m
      ensures !LateFor(run.states[n], run.acts[n], r)
    {
      assert Holds(run, n, key, r) && LiveAt(run, n, key);
    }
    assert ReplacedThroughout(run, i, m, d, key, r);
  }

  /** And in no other case is it. */
  lemma ReplacedWasLiveThroughout(run: Run, i: nat, m: nat, j: nat, key: Key, r: Ref)
    requires run.Valid() && j <= |run.acts| && ReplacedThroughout(run, i, m, j, key, r) && Holds(run, i, key, r)
    ensures forall n :: i <= n <= j ==> LiveAt(run, n, key)
  {
    forall n | i <= n <= m
      ensures LiveAt(run, n, key)
    {
      HeldThroughout(run, i, n, m, key, r);
      if run.states[n].Expired(r) {
        ExpiredForGood(run, n, m, r);
      }
    }
  }

  /**
   A read that misses after evicting, or finding evicted, the item it read: the key was live at every instant of the
   read if and only if a `Set` replaced that item while it was live, no write of it having been late before, and the key
   stayed live from then on. In all other cases the miss is linearizable: at some instant of the read the key held
   nothing live.
   */
  lemma MissLinearizesUnlessReplacedLive(run: Run, i: nat, j: nat, key: Key, r: Ref)
    requires run.Valid() && j < |run.acts| && run.acts[j].CompareAndDelete?
    requires run.states[j].Pc(run.acts[j].tid) == Evict(key, r) && BeganAt(run, i, j, run.acts[j].tid, key, r)
    ensures run.Answer(j) == Miss
    ensures (forall n :: i <= n <= j ==> LiveAt(run, n, key)) <==>
            exists m: nat :: ReplacedThroughout(run, i, m, j, key, r)
  {
    assert run.Step(j);
    if forall n :: i <= n <= j ==> LiveAt(run, n, key) {
      EvictWasDecided(run, i, j, run.acts[j].tid, key, r);
      var d: nat :| i < d < j && run.acts[d] == Decide(run.acts[j].tid) && run.states[d].Expired(r);
      LiveThroughoutWasReplaced(run, i, d, key, r);
      var m: nat :| ReplacedThroughout(run, i, m, d, key, r);
      assert ReplacedThroughout(run, i, m, j, key, r);
    }
    if m: nat :| ReplacedThroughout(run, i, m, j, key, r) {
      ReplacedWasLiveThroughout(run, i, m, j, key, r);
    }
  }

  /** What a key holds that nobody stored under meanwhile, it held before. */
  lemma {:induction false} OnlyStoresBringALiveKey(run: Run, i: nat, j: nat, key: Key)
    requires run.Valid() && i <= j <= |run.acts|
    requires forall m :: i <= m < j && (run.acts[m].Set? || run.acts[m].SetOrFail?) ==> run.acts[m].key != key
    ensures key in run.states[j].store.items ==>
              key in run.states[i].store.items && run.states[j].store.items[key] == run.states[i].store.items[key]
    decreases j - i
  {
    if i < j {
      OnlyStoresBringALiveKey(run, i, j - 1, key);
      assert run.Step(j - 1);
    }
  }

  /** Without stores under the key during the read, a miss finds the key live only if it evicts a live item itself. */
  lemma MissWithoutStoresIsCurrent(run: Run, i: nat, j: nat, key: Key, r: Ref)
    requires run.Valid() && j < |run.acts| && run.acts[j].CompareAndDelete?
    requires run.states[j].Pc(run.acts[j].tid) == Evict(key, r) && BeganAt(run, i, j, run.acts[j].tid, key, r)
    requires forall m :: i <= m < j && (run.acts[m].Set? || run.acts[m].SetOrFail?) ==> run.acts[m].key != key
    ensures LiveAt(run, j, key) <==> Stale(run, j, key, r)
  {
    OnlyStoresBringALiveKey(run, i, j, key);
  }

  // ----- deliveries -----

  /**
   A read with `AndDelete` that took item `r` at step i answers with it if and only if the item is still unexpired at
   the second clock reading; its deadline is what it was when it was taken.
   */
  lemma TakenIsDeliveredIffUnexpired(run: Run, i: nat, j: nat, key: Key, r: Ref)
    requires run.Valid() && j < |run.acts| && run.acts[j].Decide?
    requires run.states[j].Pc(run.acts[j].tid) == Read(key, r) && BeganAt(run, i, j, run.acts[j].tid, key, r)
    requires run.acts[i].Sample? && r in HandedOut(run, i)
    ensures run.Answer(j).Hit? <==> !run.states[i].store.Deref(r).Expired(run.states[j].clock)
    ensures run.Answer(j).Hit? ==> run.Answer(j).value == run.states[i].store.Deref(r).value
  {
    assert run.Step(j) && run.Step(i);
    HandedOutDeparts(run, i, r);
    StepConserves(run, i, r);
    Monotone(run, i, i + 1);
    NeverReturns(run, i + 1, j, r);
  }

  /** The read with `AndDelete` that began at step i answers item `r` at step j. */
  ghost predicate Delivers(run: Run, i: nat, j: nat, r: Ref)
    requires run.Valid()
  {
    && j < |run.acts| && run.acts[j].Decide? && run.Answer(j).Hit?
    && var t := run.acts[j].tid;
       && run.states[j].Pc(t).Read? && run.states[j].Pc(t).item == r
       && BeganAt(run, i, j, t, run.states[j].Pc(t).key, r)
       && run.acts[i].Sample? && Fold(run.acts[i].getOpts).delete
  }

  /** What such a read answers it took out of the map itself. */
  lemma DeliveredWasHandedOut(run: Run, i: nat, j: nat, r: Ref)
    requires run.Valid() && Delivers(run, i, j, r)
    ensures r in HandedOut(run, i)
  {
    assert run.Step(i) && run.Step(j);
    InvAt(run, i);
    if run.states[i].Expired(r) {
      ExpiredUnderLockIsFinal(run, i, j, r);
    }
  }

  /** A goroutine whose read is over does not move on without beginning another call. */
  lemma {:induction false} IdleStaysIdle(run: Run, a: nat, b: nat, t: Tid)
    requires run.Valid() && a <= b <= |run.acts| && run.states[a].Pc(t) == Idle
    requires forall m :: a <= m < b && Mover(run.acts[m]) == Some(t) ==> run.acts[m].Write? || run.acts[m].Decide?
    ensures run.states[b].Pc(t) == Idle
    decreases b - a
  {
    if a < b {
      IdleStaysIdle(run, a, b - 1, t);
      assert run.Step(b - 1);
    }
  }

  /** Two answers come from reads that began at different steps. */
  lemma AnswersHaveOwnBeginnings(run: Run, i: nat, j1: nat, j2: nat, r1: Ref, r2: Ref)
    requires run.Valid() && Delivers(run, i, j1, r1) && Delivers(run, i, j2, r2)
    ensures j1 == j2
  {
    var a, b := if j1 < j2 then j1 else j2, if j1 < j2 then j2 else j1;
    if a < b {
      assert run.Step(a);
      assert run.acts[a].tid == run.acts[i].tid == run.acts[b].tid;
      IdleStaysIdle(run, a + 1, b, run.acts[a].tid);
    }
  }

  /** At most one delivery, over answers: two reads with `AndDelete` that both answer a value answer different items. */
  lemma AnsweredAtMostOnce(run: Run, i1: nat, j1: nat, r1: Ref, i2: nat, j2: nat, r2: Ref)
    requires run.Valid() && Delivers(run, i1, j1, r1) && Delivers(run, i2, j2, r2) && j1 != j2
    ensures r1 != r2
  {
    if i1 == i2 {
      AnswersHaveOwnBeginnings(run, i1, j1, j2, r1, r2);
    }
    DeliveredWasHandedOut(run, i1, j1, r1);
    DeliveredWasHandedOut(run, i2, j2, r2);
    DeliveredAtMostOnce(run, i1, i2);
  }

  /** Nor does such a read answer an item that a drain, before or after, returns. */
  lemma AnsweredIsNotDrained(run: Run, i: nat, j: nat, r: Ref, d: nat)
    requires run.Valid() && Delivers(run, i, j, r) && d < |run.acts| && run.acts[d].Sweep?
    ensures r !in HandedOut(run, d)
  {
    DeliveredWasHandedOut(run, i, j, r);
    DeliveredAtMostOnce(run, i, d);
  }
}
