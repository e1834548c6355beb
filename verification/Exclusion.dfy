/** `SetOrFail` as a mutual-exclusion primitive over whole runs: when exactly it excludes, and electing one winner. */
module Exclusion {
  import opened Common
  import opened Options
  import opened Concurrency
  import opened Reads
  import opened Conservation

  /** Step i is a `SetOrFail` on `key` that stores its value. */
  ghost predicate Wins(run: Run, i: nat, key: Key)
    requires run.Valid()
  {
    && i < |run.acts| && run.acts[i].SetOrFail? && run.acts[i].key == key
    && run.Answer(i) == Stored
  }

  /** The steps by which a caller takes `key` away from its holder on purpose. */
  ghost predicate Releases(run: Run, i: nat, key: Key)
    requires run.Valid() && i < |run.acts|
  {
    assert run.Step(i);
    match run.acts[i]
    case Set(_, k, _, _, _, _) => k == key
    case Delete(_, k) => k == key
    case Sample(_, k, opts) => k == key && Fold(opts).delete
    case Sweep(t) => run.states[i].Pc(t).drain
    case _ => false
  }

  /** The winner's item stays under the key until it is removed expired, or evicted unexpired. */
  lemma HeldUntilRemoved(run: Run, i: nat, j: nat, key: Key)
    requires run.Valid() && i < j <= |run.acts| && Wins(run, i, key)
    requires forall m :: i < m < j ==> !Releases(run, m, key)
    ensures var r := run.acts[i].ref;
            || Holds(run, j, key, r)
            || exists m: nat :: i < m < j && Holds(run, m, key, r) && !Holds(run, m + 1, key, r) &&
                                (run.states[m].Expired(r) || Stale(run, m, key, r))
  {
    var r := run.acts[i].ref;
    assert run.Step(i);
    if !Holds(run, j, key, r) {
      SomeStepEndsIt(run, i + 1, j, key, r);
      var m: nat :| i + 1 <= m < j && HeldThrough(run, i + 1, m, key, r) && !Holds(run, m + 1, key, r);
      assert Holds(run, m, key, r);
      RemovedExpiredOrStale(run, m, key, r);
    }
  }

  /** What no caller releases only expiry or a stale eviction takes away. */
  lemma RemovedExpiredOrStale(run: Run, m: nat, key: Key, r: Ref)
    requires run.Valid() && m < |run.acts| && Holds(run, m, key, r) && !Holds(run, m + 1, key, r)
    requires !Releases(run, m, key)
    ensures run.states[m].Expired(r) || Stale(run, m, key, r)
  {
    assert run.Step(m);
    InvAt(run, m);
    if run.acts[m].Sweep? {
      assert PcOk(run.states[m], run.acts[m].tid);
    }
  }

  /**
   Exclusion, exactly: of two winners in a row, the first one's item is expired when the second one wins if and only if
   no eviction in between removed it with a deadline that the second winner's clock has not passed.
   */
  lemma SetOrFailExcludesIff(run: Run, i: nat, j: nat, key: Key)
    requires run.Valid() && i < j && Wins(run, i, key) && Wins(run, j, key)
    requires forall m :: i < m < j ==> !Releases(run, m, key)
    ensures var r := run.acts[i].ref;
            run.states[j].Expired(r) <==>
            forall m: nat :: i < m < j && Stale(run, m, key, r) ==>
              run.states[m].store.Deref(r).Expired(run.states[j].clock)
  {
    var r := run.acts[i].ref;
    assert run.Step(j);
    HeldUntilRemoved(run, i, j, key);
    if m: nat :| i < m < j && Holds(run, m, key, r) && !Holds(run, m + 1, key, r) &&
                 (run.states[m].Expired(r) || Stale(run, m, key, r)) {
      AfterDeparture(run, m, j, key, r);
      Monotone(run, m, j);
    }
    forall m: nat | i < m < j && Stale(run, m, key, r)
      ensures run.states[j].store.Deref(r) == run.states[m].store.Deref(r)
    {
      StaleRemoves(run, m, key, r);
      AfterDeparture(run, m, j, key, r);
    }
  }

  lemma StaleRemoves(run: Run, m: nat, key: Key, r: Ref)
    requires run.Valid() && Stale(run, m, key, r)
    ensures Holds(run, m, key, r) && !Holds(run, m + 1, key, r)
  {
    assert run.Step(m);
  }

  /** Without late writes of the first winner's item it is always expired when the second one wins. */
  lemma SetOrFailExcludes(run: Run, i: nat, j: nat, key: Key)
    requires run.Valid() && i < j && Wins(run, i, key) && Wins(run, j, key)
    requires run.TimelyFor(run.acts[i].ref, i, j)
    requires forall m :: i < m < j ==> !Releases(run, m, key)
    ensures run.states[j].Expired(run.acts[i].ref)
  {
    var r := run.acts[i].ref;
    assert run.Step(i);
    forall m: nat | i < m < j
      ensures !Stale(run, m, key, r)
    {
      if Stale(run, m, key, r) {
        StaleNeedsALateWrite(run, m, key, r);
        var b: nat, n: nat :|
          BeganAt(run, b, m, run.acts[m].tid, key, r) && b < n < m && LateFor(run.states[n], run.acts[n], r);
        InvAt(run, b);
        if b <= i {
          Monotone(run, b, i);
        }
      }
    }
    SetOrFailExcludesIff(run, i, j, key);
  }

  // ----- one winner -----

  /** Step i does no more to `key` than contend for it: an attempt that never expires, or a plain read. */
  ghost predicate Contends(run: Run, i: nat, key: Key)
    requires run.Valid() && i < |run.acts|
  {
    && !Releases(run, i, key)
    && (run.acts[i].SetOrFail? && run.acts[i].key == key ==> AsksForever(run.states[0].ttl, run.acts[i].opts))
    && !(run.acts[i].Sample? && run.acts[i].key == key)
  }

  ghost function Winners(run: Run, n: nat, key: Key): set<nat>
    requires run.Valid() && n <= |run.acts|
  {
    set i: nat | i < n && Wins(run, i, key)
  }

  ghost predicate Attempted(run: Run, n: nat, key: Key)
    requires run.Valid() && n <= |run.acts|
  {
    exists i :: 0 <= i < n && run.acts[i].SetOrFail? && run.acts[i].key == key
  }

  /** The first attempt's item holds the key from then on: never expired, never renewed, never evicted. */
  ghost predicate HeldForever(s: System, key: Key) {
    && key in s.store.items
    && s.store.Deref(s.store.items[key]).validUntil == 0
    && forall t :: t in s.threads ==> match s.Pc(t)
         case Evict(_, r) => r != s.store.items[key]
         case Renewing(_, r, _, _) => r != s.store.items[key]
         case _ => true
  }

  /** Any number of contenders for a key with entries that never expire: exactly one attempt succeeds. */
  lemma {:induction false} ExactlyOneWinner(run: Run, n: nat, key: Key)
    requires run.Valid() && n <= |run.acts|
    requires forall i :: 0 <= i < n ==> Contends(run, i, key)
    ensures |Winners(run, n, key)| == if Attempted(run, n, key) then 1 else 0
    ensures if Attempted(run, n, key) then HeldForever(run.states[n], key) else key !in run.states[n].store.items
  {
    if n == 0 {
      assert Winners(run, 0, key) == {};
    } else {
      var a := run.acts[n - 1];
      ExactlyOneWinner(run, n - 1, key);
      assert Contends(run, n - 1, key);
      if a.SetOrFail? && a.key == key {
        AttemptTakesOrFails(run, n - 1, key);
        assert Attempted(run, n, key);
        if Attempted(run, n - 1, key) {
          assert Winners(run, n, key) == Winners(run, n - 1, key);
        } else {
          assert Winners(run, n - 1, key) == {};
          assert Winners(run, n, key) == {n - 1};
        }
      } else {
        assert Winners(run, n, key) == Winners(run, n - 1, key);
        assert Attempted(run, n, key) <==> Attempted(run, n - 1, key);
        OthersKeepIt(run, n - 1, key);
      }
    }
  }

  /** An attempt on a free key wins and holds it; an attempt on a held one fails and changes nothing. */
  lemma AttemptTakesOrFails(run: Run, i: nat, key: Key)
    requires run.Valid() && i < |run.acts| && Contends(run, i, key)
    requires run.acts[i].SetOrFail? && run.acts[i].key == key
    ensures key !in run.states[i].store.items ==> Wins(run, i, key) && HeldForever(run.states[i + 1], key)
    ensures HeldForever(run.states[i], key) ==> !Wins(run, i, key) && HeldForever(run.states[i + 1], key)
  {
    var s, a := run.states[i], run.acts[i];
    assert run.Step(i);
    InvAt(run, i);
    Monotone(run, 0, i);
    NewDeadlineIsZeroIffAsked(s.ttl, a.opts, a.at);
    assert forall t :: t in s.threads ==> PcOk(s, t);
  }

  lemma OthersKeepIt(run: Run, i: nat, key: Key)
    requires run.Valid() && i < |run.acts| && Contends(run, i, key)
    requires !(run.acts[i].SetOrFail? && run.acts[i].key == key)
    ensures key !in run.states[i].store.items ==> key !in run.states[i + 1].store.items
    ensures HeldForever(run.states[i], key) ==> HeldForever(run.states[i + 1], key)
  {
    assert run.Step(i);
    if HeldForever(run.states[i], key) {
      OthersKeepTheItem(run, i, key);
      OthersDoNotPursueIt(run, i, key);
    }
  }

  /** No goroutine comes to renew or to evict the item. */
  lemma OthersDoNotPursueIt(run: Run, i: nat, key: Key)
    requires run.Valid() && i < |run.acts| && Contends(run, i, key)
    requires !(run.acts[i].SetOrFail? && run.acts[i].key == key)
    requires HeldForever(run.states[i], key)
    ensures var s' := run.states[i + 1];
            forall t :: t in s'.threads ==> match s'.Pc(t)
              case Evict(_, r) => r != run.states[i].store.items[key]
              case Renewing(_, r, _, _) => r != run.states[i].store.items[key]
              case _ => true
  {
    assert run.Step(i);
    InvAt(run, i);
  }

  lemma OthersKeepTheItem(run: Run, i: nat, key: Key)
    requires run.Valid() && i < |run.acts| && Contends(run, i, key)
    requires !(run.acts[i].SetOrFail? && run.acts[i].key == key)
    requires HeldForever(run.states[i], key)
    ensures var s, s' := run.states[i].store, run.states[i + 1].store;
            key in s'.items && s'.items[key] == s.items[key] && s'.Deref(s.items[key]) == s.Deref(s.items[key])
  {
    var s, a := run.states[i], run.acts[i];
    assert run.Step(i);
    InvAt(run, i);
    if a.Write? || a.CompareAndDelete? || a.Sweep? {
      assert PcOk(s, a.tid);
    }
  }
}
