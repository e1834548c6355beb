/**
 The section of a read with options takes time: the clock is sampled first and the deadline written later. It is atomic
 all the same: whatever happens in between, its effect is that of the whole section at the sampled instant.
 */
module Sections {
  import opened Common
  import opened Clock
  import opened Options
  import opened Stores
  import opened Concurrency
  import opened Reads

  /** Goroutine `t` samples at step i, and until step j it does not move. */
  ghost predicate SampledAt(run: Run, i: nat, j: nat, t: Tid, key: Key, opts: seq<GetOption>)
    requires run.Valid()
  {
    && i < j <= |run.acts| && run.acts[i] == Sample(t, key, opts)
    && forall m :: i < m < j ==> Mover(run.acts[m]) != Some(t)
  }

  /** While the lock is held the store does not change, and the goroutine that holds it remembers what it sampled. */
  lemma {:induction false} LockedStoreIsUnchanged(run: Run, i: nat, j: nat, t: Tid, key: Key, opts: seq<GetOption>)
    requires run.Valid() && SampledAt(run, i, j, t, key, opts) && run.states[i + 1].Pc(t).Renewing?
    ensures run.states[j].store == run.states[i].store && run.states[j].lock == Some(t)
    ensures key in run.states[i].store.items
    ensures run.states[j].Pc(t) == Renewing(key, run.states[i].store.items[key], run.states[i].clock, Fold(opts))
    decreases j
  {
    assert run.Step(i);
    if j - 1 > i {
      LockedStoreIsUnchanged(run, i, j - 1, t, key, opts);
      InvAt(run, j - 1);
      assert run.Step(j - 1);
      var s, a := run.states[j - 1], run.acts[j - 1];
      if a.Write? {
        assert PcOk(s, a.tid);
      }
    }
  }

  lemma {:induction false} WriteHasASample(run: Run, j: nat, t: Tid)
    requires run.Valid() && j <= |run.acts| && run.states[j].Pc(t).Renewing?
    ensures exists i: nat, key, opts :: SampledAt(run, i, j, t, key, opts) && run.states[i + 1].Pc(t).Renewing?
  {
    assert run.Step(j - 1);
    if run.states[j - 1].Pc(t).Renewing? {
      WriteHasASample(run, j - 1, t);
      var i: nat, key, opts :| SampledAt(run, i, j - 1, t, key, opts) && run.states[i + 1].Pc(t).Renewing?;
      assert SampledAt(run, i, j, t, key, opts);
    } else {
      var a := run.acts[j - 1];
      assert SampledAt(run, j - 1, j, t, a.key, a.getOpts);
    }
  }

  /**
   Every deadline write ends the section that its own sample began, and section and write together do to the store what
   the whole section, at the sampled instant, does to the store the sample found.
   */
  lemma SplitSectionIsAtomic(run: Run, j: nat)
    requires run.Valid() && j < |run.acts| && run.acts[j].Write?
    ensures exists i: nat, key, opts ::
              && SampledAt(run, i, j, run.acts[j].tid, key, opts)
              && run.states[j].store == run.states[i].store
              && run.states[j + 1].store ==
                 run.states[i].store.LockedGet(key, Fold(opts), run.states[i].clock, run.states[i].ttl).store
  {
    var t := run.acts[j].tid;
    assert run.Step(j);
    WriteHasASample(run, j, t);
    var i: nat, key, opts :| SampledAt(run, i, j, t, key, opts) && run.states[i + 1].Pc(t).Renewing?;
    LockedStoreIsUnchanged(run, i, j, t, key, opts);
    Monotone(run, i, j);
    InvAt(run, j);
    assert PcOk(run.states[j], t);
    assert SampledAt(run, i, j, t, key, opts);
  }

  /** A section that has nothing to write is the whole section at once. */
  lemma ShortSectionIsAtomic(run: Run, i: nat)
    requires run.Valid() && i < |run.acts| && run.acts[i].Sample? && !run.states[i + 1].Pc(run.acts[i].tid).Renewing?
    ensures var (s, a) := (run.states[i], run.acts[i]);
            run.states[i + 1].store == s.store.LockedGet(a.key, Fold(a.getOpts), s.clock, s.ttl).store
  {
    assert run.Step(i);
  }

  /** The renewed item expires as its deciding option asked, counted from the sample however late the write. */
  lemma RenewalCountsFromItsSample(
    run: Run, i: nat, j: nat, key: Key, opts: seq<GetOption>, n: nat, later: Time)
    requires run.Valid() && j < |run.acts| && run.acts[j].Write? && SampledAt(run, i, j, run.acts[j].tid, key, opts)
    requires Decides(opts, n) && run.states[i].clock <= later
    ensures key in run.states[i].store.items
    ensures var r := run.states[i].store.items[key];
            var before := run.states[i].store.Deref(r);
            var after := run.states[j + 1].store.Deref(r);
            && Holds(run, j + 1, key, r) && after.value == before.value
            && (after.Expired(later) <==> TouchRunsOut(before, opts[n], run.states[i].clock, run.states[i].ttl, later))
  {
    var t := run.acts[j].tid;
    assert run.Step(j) && run.Step(i);
    StaysRenewing(run, i, j, t, key, opts);
    LockedStoreIsUnchanged(run, i, j, t, key, opts);
    Monotone(run, i, j);
    InvAt(run, i);
    InvAt(run, j);
    assert PcOk(run.states[j], t);
    var s := run.states[i];
    TouchedItemExpiresAsAsked(s.store.Deref(s.store.items[key]), opts, n, s.clock, s.ttl, later);
  }

  /** A goroutine does not come to hold the lock without moving. */
  lemma {:induction false} StaysRenewing(run: Run, i: nat, j: nat, t: Tid, key: Key, opts: seq<GetOption>)
    requires run.Valid() && SampledAt(run, i, j, t, key, opts) && run.states[j].Pc(t).Renewing?
    ensures run.states[i + 1].Pc(t).Renewing?
    decreases j
  {
    if j - 1 > i {
      assert run.Step(j - 1);
      StaysRenewing(run, i, j - 1, t, key, opts);
    }
  }
}
