/**
 Lazy eviction under concurrency: next to the real item map runs an ideal one, from which nothing is ever removed for
 having expired. While no eviction is stale the real map is contained in it, and what is missing is expired.
 */
module LazyEviction {
  import opened Common
  import opened Clock
  import opened Options
  import opened Concurrency
  import opened Reads
  import opened Conservation
  import opened ExactAnswers

  /** The ideal map after one more step: evictions and sweeps do not touch it, only a drain empties it. */
  ghost function IdealNext(s: System, a: Action, ideal: map<Key, Ref>): map<Key, Ref>
    requires Enabled(s, a)
  {
    match a
    case Set(_, key, _, _, _, r) => ideal[key := r]
    case SetOrFail(_, key, _, _, _, r) => if key in ideal && !s.Expired(ideal[key]) then ideal else ideal[key := r]
    case Delete(_, key) => ideal - {key}
    case Sample(_, key, opts) =>
      if Fold(opts).delete && key in ideal && !s.Expired(ideal[key]) then ideal - {key} else ideal
    case Sweep(t) => if s.Pc(t).drain then map[] else ideal
    case _ => ideal
  }

  ghost function Ideal(run: Run, i: nat): map<Key, Ref>
    requires run.Valid() && i <= |run.acts|
  {
    if i == 0 then map[]
    else
      assert run.Step(i - 1);
      IdealNext(run.states[i - 1], run.acts[i - 1], Ideal(run, i - 1))
  }

  /** At one key: contained, and if missing expired now. */
  ghost predicate Contained(s: System, ideal: map<Key, Ref>, key: Key) {
    && (key in s.store.items ==> key in ideal && ideal[key] == s.store.items[key])
    && (key in ideal ==> ideal[key] in s.store.heap)
    && (key in ideal && key !in s.store.items ==> s.Expired(ideal[key]) && !s.store.Mapped(ideal[key]))
  }

  /** Every step keeps the containment, unless it evicts the key's item unexpired. */
  lemma StepKeepsContained(s: System, a: Action, ideal: map<Key, Ref>, key: Key)
    requires Inv(s) && Enabled(s, a) && Contained(s, ideal, key)
    requires a.CompareAndDelete? && s.Pc(a.tid).key == key ==>
               (key in s.store.items && s.store.items[key] == s.Pc(a.tid).item ==> s.Expired(s.Pc(a.tid).item))
    ensures Contained(Next(s, a), IdealNext(s, a, ideal), key)
  {
    if a.Write? || a.Sweep? {
      assert PcOk(s, a.tid);
    }
  }

  ghost predicate ContainedAt(run: Run, n: nat, key: Key)
    requires run.Valid() && n <= |run.acts|
  {
    Contained(run.states[n], Ideal(run, n), key)
  }

  /** No step before n evicts an unexpired item of `key`. */
  ghost predicate NeverStale(run: Run, key: Key, n: nat)
    requires run.Valid()
  {
    forall m: nat, r :: m < n ==> !Stale(run, m, key, r)
  }

  lemma {:induction false} EvictionIsInvisible(run: Run, i: nat, key: Key)
    requires run.Valid() && i <= |run.acts| && NeverStale(run, key, i)
    ensures ContainedAt(run, i, key)
  {
    if i > 0 {
      var s, a := run.states[i - 1], run.acts[i - 1];
      assert run.Step(i - 1);
      InvAt(run, i - 1);
      EvictionIsInvisible(run, i - 1, key);
      assert a.CompareAndDelete? ==> !Stale(run, i - 1, key, s.Pc(a.tid).item);
      StepKeepsContained(s, a, Ideal(run, i - 1), key);
    }
  }

  // ----- answers -----

  /** The ideal map holds the key unexpired. */
  ghost predicate IdealLive(run: Run, n: nat, key: Key)
    requires run.Valid() && n <= |run.acts|
  {
    key in Ideal(run, n) && !run.states[n].Expired(Ideal(run, n)[key])
  }

  /** For a caller who asks now, the key is live in one map exactly if it is in the other, with the same item. */
  ghost predicate SameLiveness(run: Run, n: nat, key: Key)
    requires run.Valid() && n <= |run.acts|
  {
    && (LiveAt(run, n, key) <==> IdealLive(run, n, key))
    && (LiveAt(run, n, key) ==> run.states[n].store.items[key] == Ideal(run, n)[key])
  }

  /** The step after a stale eviction shows it: the ideal map still holds the item unexpired, the real one does not. */
  lemma StaleEvictionShows(run: Run, m: nat, key: Key, r: Ref)
    requires run.Valid() && Stale(run, m, key, r) && SameLiveness(run, m, key)
    ensures !SameLiveness(run, m + 1, key)
  {
    assert run.Step(m);
    assert LiveAt(run, m, key);
  }

  /**
   Exactly when eviction is invisible: the real and the ideal map agree on what is live under a key, at every point of a
   run, if and only if no step evicts an unexpired item of that key. The same condition decides the containment.
   */
  lemma EvictionIsInvisibleIff(run: Run, i: nat, key: Key)
    requires run.Valid() && i <= |run.acts|
    ensures (forall n: nat :: n <= i ==> SameLiveness(run, n, key)) <==> NeverStale(run, key, i)
    ensures (forall n: nat :: n <= i ==> ContainedAt(run, n, key)) <==> NeverStale(run, key, i)
  {
    if NeverStale(run, key, i) {
      forall n: nat | n <= i
        ensures ContainedAt(run, n, key) && SameLiveness(run, n, key)
      {
        EvictionIsInvisible(run, n, key);
      }
    } else {
      var m: nat, r :| m < i && Stale(run, m, key, r);
      if SameLiveness(run, m, key) {
        StaleEvictionShows(run, m, key, r);
      }
      assert ContainedAt(run, m, key) ==> SameLiveness(run, m, key);
      assert ContainedAt(run, m + 1, key) ==> SameLiveness(run, m + 1, key);
    }
  }

  /** No write to `key` before step n is late. */
  ghost predicate TimelyAt(run: Run, key: Key, n: nat)
    requires run.Valid() && n <= |run.acts|
  {
    forall m :: 0 <= m < n && Late(run.states[m], run.acts[m]) ==> run.states[m].Pc(run.acts[m].tid).key != key
  }

  /** The writes of an item are writes to its one key. */
  lemma TimelyAtKeyIsTimelyForItem(run: Run, key: Key, n: nat, i: nat, r: Ref)
    requires run.Valid() && n <= |run.acts| && TimelyAt(run, key, n) && i <= |run.acts| && Holds(run, i, key, r)
    ensures run.TimelyFor(r, 0, n)
  {
    forall m | 0 <= m < n
      ensures !LateFor(run.states[m], run.acts[m], r)
    {
      if LateFor(run.states[m], run.acts[m], r) {
        var k := run.states[m].Pc(run.acts[m].tid).key;
        InvAt(run, m);
        InvAt(run, i);
        assert PcOk(run.states[m], run.acts[m].tid);
        assert Holds(run, m, k, r);
        if i <= m {
          HeldThroughout(run, i, m, m, key, r);
        } else {
          HeldThroughout(run, m, i, i, k, r);
        }
      }
    }
  }

  /** And then eviction is invisible there. */
  lemma TimelyAtKeyIsNeverStale(run: Run, key: Key, n: nat)
    requires run.Valid() && n <= |run.acts| && TimelyAt(run, key, n)
    ensures NeverStale(run, key, n)
  {
    forall m: nat, r | m < n
      ensures !Stale(run, m, key, r)
    {
      if Stale(run, m, key, r) {
        TimelyAtKeyIsTimelyForItem(run, key, n, m, r);
        StaleNeedsALateWrite(run, m, key, r);
      }
    }
  }

  /** An attempt to claim a key fails exactly when the ideal map holds it unexpired. */
  lemma ClaimsAnswerAsIdeal(run: Run, i: nat)
    requires run.Valid() && i < |run.acts| && run.acts[i].SetOrFail? && NeverStale(run, run.acts[i].key, i)
    ensures run.Answer(i) == if IdealLive(run, i, run.acts[i].key) then Exists else Stored
  {
    EvictionIsInvisible(run, i, run.acts[i].key);
    assert run.Step(i);
  }

  /** A read answered at step j began, under the lock, at step i: it found nothing there, or an item to decide about. */
  ghost predicate ReadOf(run: Run, i: nat, j: nat, key: Key)
    requires run.Valid() && i <= j < |run.acts|
  {
    if i == j then (run.acts[i].Snapshot? || run.acts[i].Sample?) && run.acts[i].key == key
    else
      && (run.acts[j].Decide? || run.acts[j].CompareAndDelete?)
      && exists r :: BeganAt(run, i, j, run.acts[j].tid, key, r)
  }

  /** What a read begun at step i of the ideal map answers, if it decides at step d. */
  ghost function IdealAnswer(run: Run, i: nat, d: nat, key: Key): Response
    requires run.Valid() && i <= |run.acts| && d <= |run.acts|
  {
    if key in Ideal(run, i) && !run.states[d].Expired(Ideal(run, i)[key])
    then Hit(run.states[d].store.Deref(Ideal(run, i)[key]).value)
    else Miss
  }

  /** A whole read gives the answer of the same read of the ideal map. */
  lemma ReadsAnswerAsIdeal(run: Run, i: nat, j: nat, key: Key)
    requires run.Valid() && i <= j < |run.acts| && ReadOf(run, i, j, key) && NeverStale(run, key, i)
    requires run.Answer(j).Hit? || run.Answer(j) == Miss
    ensures exists d: nat :: i <= d <= j && (d == i == j || run.acts[d] == Decide(run.acts[j].tid)) &&
                             run.Answer(j) == IdealAnswer(run, i, d, key)
  {
    EvictionIsInvisible(run, i, key);
    assert run.Step(j);
    if i == j {
      assert run.Answer(j) == IdealAnswer(run, i, i, key);
    } else {
      var t := run.acts[j].tid;
      var r :| BeganAt(run, i, j, t, key, r);
      ReadKeepsItsItem(run, i, j, t, key, r);
      if run.acts[j].Decide? {
        assert run.Answer(j) == IdealAnswer(run, i, j, key);
      } else {
        EvictWasDecided(run, i, j, t, key, r);
        var d :| i < d < j && run.acts[d] == Decide(t) && run.states[d].Expired(r);
        assert run.Answer(j) == IdealAnswer(run, i, d, key);
      }
    }
  }

  /** A read that finds nothing at once would find nothing in the ideal map however late it decides. */
  lemma EarlyMissIsFinal(run: Run, i: nat, d: nat)
    requires run.Valid() && i < |run.acts| && i <= d <= |run.acts|
    requires (run.acts[i].Snapshot? || run.acts[i].Sample?) && run.Answer(i) == Miss
    requires NeverStale(run, run.acts[i].key, i)
    ensures IdealAnswer(run, i, d, run.acts[i].key) == Miss
  {
    var key := run.acts[i].key;
    EvictionIsInvisible(run, i, key);
    assert run.Step(i);
    if key in Ideal(run, i) {
      ExpiredUnderLockIsFinal(run, i, d, Ideal(run, i)[key]);
    }
  }

  /**
   The output of a drain lies between two readings of the ideal map: it has every entry unexpired under the lock, and
   only entries that were unexpired at its own clock reading. Of those it lacks exactly the ones already evicted.
   */
  lemma DrainsAnswerWithinIdeal(run: Run, b: nat, i: nat, key: Key)
    requires run.Valid() && i < |run.acts| && run.acts[i].Sweep? && SweepBegan(run, b, i, run.acts[i].tid, true)
    requires NeverStale(run, key, i)
    ensures run.Answer(i).Drained?
    ensures var (s, t) := (run.states[i], run.states[b].clock);
            var (ideal, out) := (Ideal(run, i), run.Answer(i).out);
            && (IdealLive(run, i, key) ==> key in out)
            && (key in out ==>
                  key in ideal && !s.store.Deref(ideal[key]).Expired(t) && out[key] == s.store.Deref(ideal[key]).value)
            && (key in ideal && !s.store.Deref(ideal[key]).Expired(t) ==> (key in out <==> key in s.store.items))
  {
    EvictionIsInvisible(run, i, key);
    DrainIsExact(run, b, i);
  }

  /** What a drain of the ideal map would return at clock reading `t`. */
  ghost function IdealDrained(run: Run, i: nat, t: Time): map<Key, Bytes>
    requires run.Valid() && i <= |run.acts|
  {
    var s, ideal := run.states[i], Ideal(run, i);
    map k | k in ideal && !s.store.Deref(ideal[k]).Expired(t) :: s.store.Deref(ideal[k]).value
  }

  /** Hence a drain answers as the ideal one exactly if none of the entries due has been evicted already. */
  lemma DrainIsIdealIff(run: Run, b: nat, i: nat)
    requires run.Valid() && i < |run.acts| && run.acts[i].Sweep? && SweepBegan(run, b, i, run.acts[i].tid, true)
    requires forall key :: NeverStale(run, key, i)
    ensures var due := IdealDrained(run, i, run.states[b].clock);
            run.Answer(i) == Drained(due) <==> due.Keys <= run.states[i].store.items.Keys
  {
    DrainIsExact(run, b, i);
    var due, out := IdealDrained(run, i, run.states[b].clock), run.Answer(i).out;
    forall key
      ensures key in out ==> key in due && out[key] == due[key]
      ensures key in due ==> (key in out <==> key in run.states[i].store.items)
    {
      DrainsAnswerWithinIdeal(run, b, i, key);
    }
    if due.Keys <= run.states[i].store.items.Keys {
      assert forall key :: key in due <==> key in out;
      assert out == due;
    } else {
      var key :| key in due && key !in run.states[i].store.items;
      assert key !in out;
    }
  }
}
