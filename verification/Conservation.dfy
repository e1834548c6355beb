/** What happens to every item over a whole run: it is mapped once, leaves at most once, and never comes back. */
module Conservation {
  import opened Common
  import opened Options
  import opened Concurrency
  import opened Reads

  ghost predicate MappedAt(run: Run, i: nat, r: Ref)
    requires i < |run.states|
  {
    run.states[i].store.Mapped(r)
  }

  /** Step i takes `r` out of the map. */
  ghost predicate Departs(run: Run, i: nat, r: Ref)
    requires run.Valid()
  {
    i < |run.acts| && MappedAt(run, i, r) && !MappedAt(run, i + 1, r)
  }

  /** An item outside the map is neither mapped again nor given a new deadline; a new item starts in the map. */
  lemma StepConserves(run: Run, i: nat, r: Ref)
    requires run.Valid() && i < |run.acts|
    ensures r in run.states[i].store.heap && !MappedAt(run, i, r) ==>
              !MappedAt(run, i + 1, r) && run.states[i + 1].store.Deref(r) == run.states[i].store.Deref(r)
    ensures r !in run.states[i].store.heap && r in run.states[i + 1].store.heap ==> MappedAt(run, i + 1, r)
    ensures MappedAt(run, i, r) ==> r in run.states[i].store.heap
  {
    var s, a := run.states[i], run.acts[i];
    var s' := run.states[i + 1];
    InvAt(run, i);
    assert run.Step(i);
    if a.Write? {
      assert PcOk(s, a.tid);
    }
    if (a.Set? || a.SetOrFail?) && r !in s.store.heap && r in s'.store.heap {
      assert s'.store.items[a.key] == r;
    }
    if r in s.store.heap && !MappedAt(run, i, r) {
      forall k | k in s'.store.items
        ensures s'.store.items[k] != r
      {
        if k in s.store.items && s.store.items[k] == s'.store.items[k] {
          assert s.store.items[k] != r;
        }
      }
    }
  }

  lemma {:induction false} NeverReturns(run: Run, i: nat, j: nat, r: Ref)
    requires run.Valid() && i <= j <= |run.acts|
    requires r in run.states[i].store.heap && !MappedAt(run, i, r)
    ensures !MappedAt(run, j, r) && run.states[j].store.Deref(r) == run.states[i].store.Deref(r)
    decreases j - i
  {
    if i < j {
      NeverReturns(run, i, j - 1, r);
      Monotone(run, i, j - 1);
      StepConserves(run, j - 1, r);
    }
  }

  /** Conservation: an item is in the map, under a single key, exactly as long as no step has taken it out. */
  lemma {:induction false} MappedUntilItDeparts(run: Run, j: nat, r: Ref)
    requires run.Valid() && j <= |run.acts| && r in run.states[j].store.heap
    ensures MappedAt(run, j, r) <==> !exists i :: 0 <= i < j && Departs(run, i, r)
    ensures var items := run.states[j].store.items;
            forall k, l :: k in items && l in items && items[k] == r && items[l] == r ==> k == l
  {
    InvAt(run, j);
    if j > 0 {
      StepConserves(run, j - 1, r);
      if r in run.states[j - 1].store.heap {
        MappedUntilItDeparts(run, j - 1, r);
        if MappedAt(run, j, r) {
          assert MappedAt(run, j - 1, r);
        } else if MappedAt(run, j - 1, r) {
          assert Departs(run, j - 1, r);
        }
      } else {
        forall i | 0 <= i < j
          ensures !Departs(run, i, r)
        {
          StepConserves(run, i, r);
          Monotone(run, i, j - 1);
        }
      }
    }
  }

  /** No item leaves twice. */
  lemma DepartsOnce(run: Run, i: nat, j: nat, r: Ref)
    requires run.Valid() && Departs(run, i, r) && Departs(run, j, r)
    ensures i == j
  {
    var a, b := if i < j then i else j, if i < j then j else i;
    if a < b {
      StepConserves(run, a, r);
      Monotone(run, a, a + 1);
      NeverReturns(run, a + 1, b, r);
    }
  }

  // ----- an item and its key -----

  /** A step that keeps an item in the map keeps it under its key. */
  lemma StepKeepsKey(run: Run, n: nat, key: Key, r: Ref)
    requires run.Valid() && n < |run.acts| && Holds(run, n, key, r) && MappedAt(run, n + 1, r)
    ensures Holds(run, n + 1, key, r)
  {
    InvAt(run, n);
    assert run.Step(n);
    var k :| k in run.states[n + 1].store.items && run.states[n + 1].store.items[k] == r;
  }

  /** While it stays in the map an item stays under its key. */
  lemma {:induction false} HeldThroughout(run: Run, i: nat, n: nat, m: nat, key: Key, r: Ref)
    requires run.Valid() && i <= n <= m <= |run.acts| && Holds(run, i, key, r) && MappedAt(run, m, r)
    ensures Holds(run, n, key, r)
    decreases n - i
  {
    if i < n {
      HeldThroughout(run, i, n - 1, m, key, r);
      StepConserves(run, n - 1, r);
      Monotone(run, n - 1, n);
      if !MappedAt(run, n, r) {
        NeverReturns(run, n, m, r);
      }
      StepKeepsKey(run, n - 1, key, r);
    }
  }

  ghost predicate HeldThrough(run: Run, i: nat, m: nat, key: Key, r: Ref)
    requires m < |run.states|
  {
    forall n :: i <= n <= m ==> Holds(run, n, key, r)
  }

  /** If the key no longer maps to the item, some step was the first to end that. */
  lemma {:induction false} SomeStepEndsIt(run: Run, i: nat, j: nat, key: Key, r: Ref)
    requires run.Valid() && i <= j <= |run.acts| && Holds(run, i, key, r) && !Holds(run, j, key, r)
    ensures exists m: nat :: i <= m < j && HeldThrough(run, i, m, key, r) && !Holds(run, m + 1, key, r)
    decreases j - i
  {
    if !Holds(run, j - 1, key, r) {
      SomeStepEndsIt(run, i, j - 1, key, r);
    } else if !HeldThrough(run, i, j - 1, key, r) {
      var n :| i <= n <= j - 1 && !Holds(run, n, key, r);
      SomeStepEndsIt(run, i, n, key, r);
    } else {
      assert !Holds(run, j - 1 + 1, key, r);
    }
  }

  /** What stops being held has left the map, and keeps the deadline it left with. */
  lemma AfterDeparture(run: Run, m: nat, j: nat, key: Key, r: Ref)
    requires run.Valid() && m < j <= |run.acts| && Holds(run, m, key, r) && !Holds(run, m + 1, key, r)
    ensures Departs(run, m, r) && !MappedAt(run, j, r)
    ensures run.states[j].store.Deref(r) == run.states[m].store.Deref(r)
  {
    InvAt(run, m);
    assert run.Step(m);
    Monotone(run, m, m + 1);
    if MappedAt(run, m + 1, r) {
      StepKeepsKey(run, m, key, r);
    }
    NeverReturns(run, m + 1, j, r);
  }

  // ----- causes -----

  datatype Cause = Overwritten | Deleted | RemovedExpired | Taken | DrainedOut | EvictedLive

  /** Why a step takes items out of the map. */
  ghost predicate HasCause(s: System, a: Action, r: Ref, cause: Cause)
    requires Enabled(s, a)
  {
    match cause
    case Overwritten => a.Set? && a.key in s.store.items && s.store.items[a.key] == r
    case Deleted => a.Delete? && a.key in s.store.items && s.store.items[a.key] == r
    case RemovedExpired =>
      if a.Sweep? then s.store.Deref(r).Expired(s.Pc(a.tid).t)
      else (a.SetOrFail? || a.CompareAndDelete?) && s.Expired(r)
    case Taken => a.Sample? && Fold(a.getOpts).delete && s.store.Live(a.key, s.clock) && s.store.items[a.key] == r
    case DrainedOut => a.Sweep? && s.Pc(a.tid).drain && s.store.Mapped(r) && !s.store.Deref(r).Expired(s.Pc(a.tid).t)
    case EvictedLive => a.CompareAndDelete? && s.Pc(a.tid).item == r && s.store.Mapped(r) && !s.Expired(r)
  }

  /**
   In every run, every departure has exactly one of the six causes. An item leaves unexpired only if a caller asked for
   it, or in a stale eviction.
   */
  lemma DepartureHasOneCause(run: Run, i: nat, r: Ref)
    requires run.Valid() && Departs(run, i, r)
    ensures run.Step(i)
    ensures exists c :: HasCause(run.states[i], run.acts[i], r, c)
    ensures forall c, d :: HasCause(run.states[i], run.acts[i], r, c) && HasCause(run.states[i], run.acts[i], r, d)
                           ==> c == d
    ensures HasCause(run.states[i], run.acts[i], r, EvictedLive) <==> exists key :: Stale(run, i, key, r)
  {
    var s, a, s' := run.states[i], run.acts[i], run.states[i + 1];
    assert run.Step(i);
    InvAt(run, i);
    var k :| k in s.store.items && s.store.items[k] == r;
    assert k !in s'.store.items || s'.store.items[k] != r;
    match a {
      case Set(_, key, _, _, _, _) =>
        assert k == key;
        assert HasCause(s, a, r, Overwritten);
      case SetOrFail(_, key, _, _, _, _) =>
        assert k == key;
        assert HasCause(s, a, r, RemovedExpired);
      case Delete(_, key) =>
        assert HasCause(s, a, r, Deleted);
      case Sample(_, _, _) =>
        assert HasCause(s, a, r, Taken);
      case CompareAndDelete(_) =>
        assert s.Expired(r) ==> HasCause(s, a, r, RemovedExpired);
        assert !s.Expired(r) ==> HasCause(s, a, r, EvictedLive) && Stale(run, i, k, r);
      case Sweep(t) =>
        assert HasCause(s, a, r, if s.store.Deref(r).Expired(s.Pc(t).t) then RemovedExpired else DrainedOut);
      case _ =>
        assert false;
    }
  }

  // ----- delivery -----

  /** The items whose ownership a step hands to its caller: a locked `AndDelete` read, or a drain. */
  ghost function HandedOut(run: Run, i: nat): set<Ref>
    requires run.Valid() && i < |run.acts|
  {
    assert run.Step(i);
    var s := run.states[i];
    match run.acts[i]
    case Sample(_, key, opts) =>
      if Fold(opts).delete && s.store.Live(key, s.clock) then {s.store.items[key]} else {}
    case Sweep(t) => if s.Pc(t).drain then s.store.Sweep(s.Pc(t).t).items.Values else {}
    case _ => {}
  }

  lemma HandedOutDeparts(run: Run, i: nat, r: Ref)
    requires run.Valid() && i < |run.acts| && r in HandedOut(run, i)
    ensures Departs(run, i, r)
  {
    var s, a := run.states[i], run.acts[i];
    assert run.Step(i);
    InvAt(run, i);
    if a.Sample? {
      assert s.store.items[a.key] == r;
    }
    if a.Sweep? {
      var k :| k in s.store.Sweep(s.Pc(a.tid).t).items && s.store.Sweep(s.Pc(a.tid).t).items[k] == r;
      assert s.store.items[k] == r;
    }
  }

  /** What is handed out is what leaves by being taken or drained. */
  lemma HandedOutIffTakenOrDrained(run: Run, i: nat, r: Ref)
    requires run.Valid() && i < |run.acts|
    ensures run.Step(i)
    ensures r in HandedOut(run, i) <==>
            HasCause(run.states[i], run.acts[i], r, Taken) || HasCause(run.states[i], run.acts[i], r, DrainedOut)
  {
    var s, a := run.states[i], run.acts[i];
    assert run.Step(i);
    if HasCause(s, a, r, DrainedOut) {
      var k :| k in s.store.items && s.store.items[k] == r;
      assert s.store.Sweep(s.Pc(a.tid).t).items[k] == r;
    }
  }

  /** At most one delivery: no item is handed out twice, and none is in the map afterwards. */
  lemma DeliveredAtMostOnce(run: Run, i: nat, j: nat)
    requires run.Valid() && i < |run.acts| && j < |run.acts|
    ensures i != j ==> HandedOut(run, i) !! HandedOut(run, j)
    ensures forall r, m :: r in HandedOut(run, i) && i < m <= |run.acts| ==> !MappedAt(run, m, r)
  {
    forall r | r in HandedOut(run, i) && r in HandedOut(run, j)
      ensures i == j
    {
      HandedOutDeparts(run, i, r);
      HandedOutDeparts(run, j, r);
      DepartsOnce(run, i, j, r);
    }
    forall r, m | r in HandedOut(run, i) && i < m <= |run.acts|
      ensures !MappedAt(run, m, r)
    {
      HandedOutDeparts(run, i, r);
      StepConserves(run, i, r);
      Monotone(run, i, i + 1);
      NeverReturns(run, i + 1, m, r);
    }
  }

  // ----- sweeps -----

  /** At step b goroutine `t` read the clock for a cleanup or a drain, and until step j it did nothing else. */
  ghost predicate SweepBegan(run: Run, b: nat, j: nat, t: Tid, drain: bool)
    requires run.Valid()
  {
    && b < j <= |run.acts| && run.acts[b] == ReadSweepClock(t, drain)
    && forall m :: b < m < j ==> Mover(run.acts[m]) != Some(t)
  }

  /** The instant a sweep works with is its own clock reading. */
  lemma {:induction false} SweepKeepsItsReading(run: Run, b: nat, j: nat, t: Tid, drain: bool)
    requires run.Valid() && SweepBegan(run, b, j, t, drain)
    ensures run.states[j].Pc(t) == Sweeping(run.states[b].clock, drain)
    decreases j
  {
    assert run.Step(j - 1);
    if j - 1 > b {
      SweepKeepsItsReading(run, b, j - 1, t, drain);
    }
  }

  lemma {:induction false} SweepHasAReading(run: Run, j: nat, t: Tid)
    requires run.Valid() && j <= |run.acts| && run.states[j].Pc(t).Sweeping?
    ensures exists b: nat :: SweepBegan(run, b, j, t, run.states[j].Pc(t).drain)
  {
    assert run.Step(j - 1);
    if run.states[j - 1].Pc(t).Sweeping? {
      SweepHasAReading(run, j - 1, t);
      var b: nat :| SweepBegan(run, b, j - 1, t, run.states[j - 1].Pc(t).drain);
      assert SweepBegan(run, b, j, t, run.states[j].Pc(t).drain);
    } else {
      assert SweepBegan(run, j - 1, j, t, run.states[j].Pc(t).drain);
    }
  }

  /** A cleanup removes exactly the entries that had expired at its own clock reading, and answers nothing. */
  lemma CleanupIsExact(run: Run, b: nat, i: nat)
    requires run.Valid() && i < |run.acts| && run.acts[i].Sweep? && SweepBegan(run, b, i, run.acts[i].tid, false)
    ensures run.Answer(i) == Nothing && run.states[i + 1].store.heap == run.states[i].store.heap
    ensures forall k, r :: Holds(run, i + 1, k, r) <==>
                           Holds(run, i, k, r) && !run.states[i].store.Deref(r).Expired(run.states[b].clock)
  {
    SweepKeepsItsReading(run, b, i, run.acts[i].tid, false);
    assert run.Step(i);
  }

  /**
   A drain empties the map. It returns every entry that is live under the lock, nothing that had expired when it read
   its clock before the lock, and so besides live entries only ones that expired in between.
   */
  lemma DrainIsExact(run: Run, b: nat, i: nat)
    requires run.Valid() && i < |run.acts| && run.acts[i].Sweep? && SweepBegan(run, b, i, run.acts[i].tid, true)
    ensures run.Answer(i).Drained? && run.states[i + 1].store.items == map[]
    ensures var s := run.states[i];
            var out := run.Answer(i).out;
            && (forall k :: s.store.Live(k, s.clock) ==> k in out)
            && (forall k :: k in out <==> s.store.Live(k, run.states[b].clock))
            && (forall k :: k in out ==> out[k] == s.store.Deref(s.store.items[k]).value)
  {
    SweepKeepsItsReading(run, b, i, run.acts[i].tid, true);
    Monotone(run, b, i);
    assert run.Step(i);
  }
}
