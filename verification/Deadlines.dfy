/** How deadlines evolve over a run: never zero by accident, and extensions add up whatever the interleaving. */
module Deadlines {
  import opened Common
  import opened Clock
  import opened Options
  import opened Concurrency

  /** Step m asks for item `r` never to expire, when storing it or when reading it. */
  ghost predicate AskedForever(run: Run, m: nat, r: Ref)
    requires run.Valid()
  {
    && m < |run.acts|
    && var s, a := run.states[m], run.acts[m];
       || ((a.Set? || a.SetOrFail?) && a.ref == r && run.Answer(m) == Stored && AsksForever(s.ttl, a.opts))
       || (a.Write? && s.Pc(a.tid).Renewing? && s.Pc(a.tid).item == r && ReadAsksForever(s.Pc(a.tid).o, s.ttl))
  }

  /** After step m and through state i, item `r` exists and never expires. */
  ghost predicate ForeverSince(run: Run, m: nat, i: nat, r: Ref)
    requires run.Valid() && i <= |run.acts|
  {
    forall n :: m < n <= i ==> r in run.states[n].store.heap && run.states[n].store.Deref(r).validUntil == 0
  }

  /**
   No accidental immortality: in every reachable state, an item that never expires was asked for by some step, and has
   had no deadline ever since.
   */
  lemma {:induction false} ForeverWasAskedFor(run: Run, i: nat, r: Ref)
    requires run.Valid() && i <= |run.acts|
    requires r in run.states[i].store.heap && run.states[i].store.Deref(r).validUntil == 0
    ensures exists m :: 0 <= m < i && AskedForever(run, m, r) && ForeverSince(run, m, i, r)
  {
    assert i > 0;
    var s, a := run.states[i - 1], run.acts[i - 1];
    assert run.Step(i - 1);
    InvAt(run, i - 1);
    if r in s.store.heap && s.store.Deref(r).validUntil == 0 {
      ForeverWasAskedFor(run, i - 1, r);
      var m :| 0 <= m < i - 1 && AskedForever(run, m, r) && ForeverSince(run, m, i - 1, r);
      assert ForeverSince(run, m, i, r);
    } else {
      if a.Write? {
        var pc := s.Pc(a.tid);
        assert PcOk(s, a.tid);
        RewriteIsZeroIffAsked(pc.o, s.store.Deref(pc.item).validUntil, pc.now, s.ttl);
      }
      if a.Set? || a.SetOrFail? {
        NewDeadlineIsZeroIffAsked(s.ttl, a.opts, a.at);
      }
      assert AskedForever(run, i - 1, r) && ForeverSince(run, i - 1, i, r);
    }
  }

  /** Step m writes a deadline of item `r`. */
  ghost predicate Renews(run: Run, m: nat, r: Ref)
    requires m < |run.acts| && |run.states| == |run.acts| + 1
  {
    var s, a := run.states[m], run.acts[m];
    a.Write? && s.Pc(a.tid).Renewing? && s.Pc(a.tid).item == r
  }

  /** Every renewal of `r` between steps i and j is an `AndUpdateTTL`. */
  ghost predicate OnlyExtends(run: Run, i: nat, j: nat, r: Ref)
    requires run.Valid() && i <= j <= |run.acts|
  {
    forall m :: i <= m < j && Renews(run, m, r) ==>
      var o := run.states[m].Pc(run.acts[m].tid).o;
      o.validUntil == None && o.setTTL == None && o.updateTTL.Some?
  }

  /** The sum of the durations that steps i to j add to item `r`. */
  ghost function Added(run: Run, i: nat, j: nat, r: Ref): int
    requires run.Valid() && i <= j <= |run.acts| && OnlyExtends(run, i, j, r)
    decreases j - i
  {
    if i == j then 0
    else
      (if Renews(run, i, r) then run.states[i].Pc(run.acts[i].tid).o.updateTTL.value else 0) + Added(run, i + 1, j, r)
  }

  /** Where the count starts: the running deadline, or the clock of the first extension when there is none. */
  ghost function Start(run: Run, i: nat, j: nat, r: Ref): Time
    requires run.Valid() && i <= j <= |run.acts|
    decreases j - i
  {
    if run.states[i].store.Deref(r).validUntil != 0 || i == j then run.states[i].store.Deref(r).validUntil
    else if Renews(run, i, r) then run.states[i].Pc(run.acts[i].tid).now
    else Start(run, i + 1, j, r)
  }

  /** Concurrent extensions of one item are never lost and never counted twice. */
  lemma {:induction false} ExtensionsAddUp(run: Run, i: nat, j: nat, r: Ref)
    requires run.Valid() && i <= j <= |run.acts| && r in run.states[i].store.heap
    requires OnlyExtends(run, i, j, r)
    ensures run.states[j].store.Deref(r).validUntil == Start(run, i, j, r) + Added(run, i, j, r)
    decreases j - i
  {
    if i < j {
      var s, a := run.states[i], run.acts[i];
      var before, after := s.store.Deref(r).validUntil, run.states[i + 1].store.Deref(r).validUntil;
      assert run.Step(i);
      InvAt(run, i);
      Monotone(run, i, i + 1);
      ExtensionsAddUp(run, i + 1, j, r);
      if Renews(run, i, r) {
        var pc := s.Pc(a.tid);
        assert PcOk(s, a.tid);
        assert after == (if before == 0 then pc.now else before) + pc.o.updateTTL.value;
        assert after != 0;
      } else {
        assert after == before;
      }
    }
  }
}
