/** What reads promise in every run: justified evictions, linearizable hits, justified misses. */
module Reads {
  import opened Common
  import opened Stores
  import opened Concurrency

  /** The map holds item `r` under `key`. */
  ghost predicate Holds(run: Run, n: nat, key: Key, r: Ref)
    requires n < |run.states|
  {
    key in run.states[n].store.items && run.states[n].store.items[key] == r
  }

  /** Values never change. */
  lemma {:induction false} ValueIsFixed(run: Run, i: nat, j: nat, r: Ref)
    requires run.Valid() && i <= j <= |run.acts| && r in run.states[i].store.heap
    ensures run.states[j].store.Deref(r).value == run.states[i].store.Deref(r).value
    decreases j - i
  {
    if i < j {
      ValueIsFixed(run, i, j - 1, r);
      Monotone(run, i, j - 1);
      assert run.Step(j - 1);
    }
  }

  // ----- where an item came from -----

  /** Step m stored item `r` under its key, with its value, to last as long as its options ask for. */
  ghost predicate StoredAt(run: Run, m: nat, r: Ref)
    requires run.Valid()
  {
    && m < |run.acts| && (run.acts[m].Set? || run.acts[m].SetOrFail?) && run.Answer(m) == Stored
    && run.acts[m].ref == r && Holds(run, m + 1, run.acts[m].key, r)
    && var item := run.states[m + 1].store.Deref(r);
       var a := run.acts[m];
       && item.value == a.value
       && forall later :: a.at <= later ==> (item.Expired(later) <==> RunsOut(run.states[0].ttl, a.opts, a.at, later))
  }

  ghost predicate HeldOnlyUnder(run: Run, i: nat, key: Key, r: Ref)
    requires i < |run.states|
  {
    forall k :: Holds(run, i, k, r) ==> k == key
  }

  /** Every item was stored by some earlier step; it has that step's value, and is only ever held under its key. */
  lemma {:induction false} ItemWasStored(run: Run, i: nat, r: Ref)
    requires run.Valid() && i <= |run.acts| && r in run.states[i].store.heap
    ensures exists m: nat ::
              && m < i && StoredAt(run, m, r) && run.states[i].store.Deref(r).value == run.acts[m].value
              && HeldOnlyUnder(run, i, run.acts[m].key, r)
  {
    var s, a := run.states[i - 1], run.acts[i - 1];
    assert run.Step(i - 1);
    InvAt(run, i - 1);
    if r in s.store.heap {
      ItemWasStored(run, i - 1, r);
      var m: nat :|
        && m < i - 1 && StoredAt(run, m, r) && s.store.Deref(r).value == run.acts[m].value
        && HeldOnlyUnder(run, i - 1, run.acts[m].key, r);
      ValueIsFixed(run, i - 1, i, r);
      forall k | Holds(run, i, k, r)
        ensures k == run.acts[m].key
      {
        assert Holds(run, i - 1, k, r);
      }
    } else {
      Monotone(run, 0, i - 1);
      forall later | a.at <= later
        ensures run.states[i].store.Deref(r).Expired(later) <==> RunsOut(run.states[0].ttl, a.opts, a.at, later)
      {
        NewItemExpiresWhen(a.value, s.ttl, a.opts, a.at, later);
      }
      assert StoredAt(run, i - 1, r);
    }
  }

  // ----- where a read began -----

  function Mover(a: Action): Option<Tid> {
    if a.Tick? then None else Some(a.tid)
  }

  /** At step i goroutine `t` began to read `key`, which mapped to `r`; until step j it did nothing else. */
  ghost predicate BeganAt(run: Run, i: nat, j: nat, t: Tid, key: Key, r: Ref)
    requires run.Valid()
  {
    && i < j <= |run.acts|
    && (run.acts[i] == Snapshot(t, key) || (run.acts[i].Sample? && run.acts[i].tid == t && run.acts[i].key == key))
    && Holds(run, i, key, r)
    && forall m :: i < m < j && Mover(run.acts[m]) == Some(t) ==> run.acts[m].Write? || run.acts[m].Decide?
  }

  lemma {:induction false} ReadHasABeginning(run: Run, j: nat, t: Tid)
    requires run.Valid() && j <= |run.acts|
    requires run.states[j].Pc(t).Read? || run.states[j].Pc(t).Evict? || run.states[j].Pc(t).Renewing?
    ensures exists i: nat :: BeganAt(run, i, j, t, run.states[j].Pc(t).key, run.states[j].Pc(t).item)
  {
    assert j > 0;
    var pc, a := run.states[j].Pc(t), run.acts[j - 1];
    var before := run.states[j - 1].Pc(t);
    assert run.Step(j - 1);
    if before == Idle {
      assert BeganAt(run, j - 1, j, t, pc.key, pc.item);
    } else {
      assert before.Read? || before.Evict? || before.Renewing?;
      assert before.key == pc.key && before.item == pc.item;
      ReadHasABeginning(run, j - 1, t);
      var i: nat :| BeganAt(run, i, j - 1, t, pc.key, pc.item);
      assert BeganAt(run, i, j, t, pc.key, pc.item);
    }
  }

  // ----- evictions -----

  /** A read that wants to evict its item found it expired, by its own clock reading, on the way. */
  lemma {:induction false} EvictWasDecided(run: Run, i: nat, j: nat, t: Tid, key: Key, r: Ref)
    requires run.Valid() && BeganAt(run, i, j, t, key, r) && run.states[j].Pc(t).Evict?
    ensures run.states[j].Pc(t) == Evict(key, r)
    ensures exists d :: i < d < j && run.acts[d] == Decide(t) && run.states[d].Expired(r)
    decreases j
  {
    var before := run.states[j - 1].Pc(t);
    assert run.Step(j - 1) && run.Step(i);
    if j - 1 > i {
      assert BeganAt(run, i, j - 1, t, key, r);
      if before.Evict? {
        EvictWasDecided(run, i, j - 1, t, key, r);
      } else {
        ReadKeepsItsItem(run, i, j - 1, t, key, r);
        assert run.acts[j - 1] == Decide(t) && run.states[j - 1].Expired(r);
      }
    }
  }

  /** A read under way is about the key and the item it began with. */
  lemma {:induction false} ReadKeepsItsItem(run: Run, i: nat, j: nat, t: Tid, key: Key, r: Ref)
    requires run.Valid() && BeganAt(run, i, j, t, key, r)
    requires run.states[j].Pc(t).Read? || run.states[j].Pc(t).Evict? || run.states[j].Pc(t).Renewing?
    ensures run.states[j].Pc(t).key == key && run.states[j].Pc(t).item == r
    decreases j
  {
    assert run.Step(j - 1);
    if j - 1 > i {
      assert BeganAt(run, i, j - 1, t, key, r);
      ReadKeepsItsItem(run, i, j - 1, t, key, r);
    }
  }

  /** An item about to be evicted is expired, unless it was written late since its reader decided. */
  lemma PendingEvictionIsExpired(run: Run, i: nat, j: nat, t: Tid, key: Key, r: Ref)
    requires run.Valid() && BeganAt(run, i, j, t, key, r) && run.states[j].Pc(t).Evict?
    requires run.TimelyFor(r, i, j)
    ensures run.states[j].Expired(r)
  {
    EvictWasDecided(run, i, j, t, key, r);
    var d :| i < d < j && run.acts[d] == Decide(t) && run.states[d].Expired(r);
    ExpiredForGood(run, d, j, r);
  }

  /** Step m evicts item `r` although it is not expired any more. */
  ghost predicate Stale(run: Run, m: nat, key: Key, r: Ref)
    requires run.Valid()
  {
    && m < |run.acts| && run.acts[m].CompareAndDelete? && run.states[m].Pc(run.acts[m].tid) == Evict(key, r)
    && Holds(run, m, key, r) && !run.states[m].Expired(r)
  }

  /** Only a late write during its own read makes an eviction stale. */
  lemma StaleNeedsALateWrite(run: Run, m: nat, key: Key, r: Ref)
    requires run.Valid() && Stale(run, m, key, r)
    ensures exists b: nat, n: nat ::
              BeganAt(run, b, m, run.acts[m].tid, key, r) && b < n < m && LateFor(run.states[n], run.acts[n], r)
  {
    var t := run.acts[m].tid;
    ReadHasABeginning(run, m, t);
    var b: nat :| BeganAt(run, b, m, t, key, r);
    EvictWasDecided(run, b, m, t, key, r);
    var d :| b < d < m && run.acts[d] == Decide(t) && run.states[d].Expired(r);
    if run.TimelyFor(r, d, m) {
      ExpiredForGood(run, d, m, r);
    }
    var n :| d <= n < m && LateFor(run.states[n], run.acts[n], r);
    assert BeganAt(run, b, m, t, key, r) && b < n < m;
  }

  /**
   A compare-and-delete removes at most the item its reader began with and found expired, and it is expired still unless
   it was written late since; an item that a concurrent `Set` put in its place stays.
   */
  lemma EvictionIsJustified(run: Run, i: nat)
    requires run.Valid() && i < |run.acts| && run.acts[i].CompareAndDelete? && run.states[i].Pc(run.acts[i].tid).Evict?
    ensures var s := run.states[i];
            var s' := run.states[i + 1];
            var pc := s.Pc(run.acts[i].tid);
            && (forall k :: k in s'.store.items ==> k in s.store.items && s'.store.items[k] == s.store.items[k])
            && (forall k :: k in s.store.items && k !in s'.store.items ==> k == pc.key && s.store.items[k] == pc.item)
            && (pc.key in s.store.items && s.store.items[pc.key] != pc.item ==> s'.store == s.store)
    ensures var t := run.acts[i].tid;
            var pc := run.states[i].Pc(t);
            exists b: nat, d: nat ::
              && BeganAt(run, b, i, t, pc.key, pc.item)
              && b < d < i && run.acts[d] == Decide(t) && run.states[d].Expired(pc.item)
              && (run.TimelyFor(pc.item, d, i) ==> run.states[i].Expired(pc.item))
  {
    assert run.Step(i);
    var t := run.acts[i].tid;
    var pc := run.states[i].Pc(t);
    ReadHasABeginning(run, i, t);
    var b: nat :| BeganAt(run, b, i, t, pc.key, pc.item);
    EvictWasDecided(run, b, i, t, pc.key, pc.item);
    var d :| b < d < i && run.acts[d] == Decide(t) && run.states[d].Expired(pc.item);
    if run.TimelyFor(pc.item, d, i) {
      ExpiredForGood(run, d, i, pc.item);
    }
    assert BeganAt(run, b, i, t, pc.key, pc.item) && b < d < i;
  }

  // ----- answers -----

  /**
   Hits are linearizable, in every run: a read that returns a value returns the value of the item that the map held,
   unexpired, under that key when the read held the lock, and that is the value some earlier call stored under that key.
   */
  lemma HitIsLinearizable(run: Run, j: nat)
    requires run.Valid() && j < |run.acts| && run.Answer(j).Hit?
    ensures exists i: nat, key, r ::
              && BeganAt(run, i, j, run.acts[j].tid, key, r)
              && run.states[i].store.Live(key, run.states[i].clock)
              && run.states[i].store.Deref(r).value == run.Answer(j).value
              && exists m: nat ::
                   m < i && StoredAt(run, m, r) && run.acts[m].key == key && run.acts[m].value == run.Answer(j).value
  {
    assert run.Step(j);
    var t := run.acts[j].tid;
    var pc := run.states[j].Pc(t);
    ReadHasABeginning(run, j, t);
    var i: nat :| BeganAt(run, i, j, t, pc.key, pc.item);
    InvAt(run, i);
    ValueIsFixed(run, i, j, pc.item);
    ItemWasStored(run, i, pc.item);
    assert run.Step(i);
    if run.states[i].Expired(pc.item) {
      ExpiredUnderLockIsFinal(run, i, j, pc.item);
    }
  }

  /** A read misses at once if and only if its key is unmapped when it holds the lock. */
  lemma MissAtOnceIffUnmapped(run: Run, i: nat)
    requires run.Valid() && i < |run.acts| && (run.acts[i].Snapshot? || run.acts[i].Sample?)
    ensures run.Answer(i) == if run.acts[i].key in run.states[i].store.items then Nothing else Miss
  {
    assert run.Step(i);
  }

  /** A read that misses after finding its item expired leaves the item unmapped. */
  lemma MissLeavesNothing(run: Run, j: nat, key: Key, r: Ref)
    requires run.Valid() && j < |run.acts| && run.acts[j].CompareAndDelete?
    requires run.states[j].Pc(run.acts[j].tid) == Evict(key, r)
    ensures !Holds(run, j + 1, key, r)
  {
    assert run.Step(j);
  }

  /**
   Misses are justified, in every run: the key was unmapped when the read held the lock, or the item it read then was
   expired when the read decided, and is expired still unless it was written late since.
   */
  lemma MissIsJustified(run: Run, j: nat)
    requires run.Valid() && j < |run.acts| && run.Answer(j) == Miss
    ensures || ((run.acts[j].Snapshot? || run.acts[j].Sample?) && run.acts[j].key !in run.states[j].store.items)
            || exists i: nat, d: nat, key, r ::
                 && BeganAt(run, i, j, run.acts[j].tid, key, r)
                 && i < d < j && run.acts[d] == Decide(run.acts[j].tid) && run.states[d].Expired(r)
                 && (run.TimelyFor(r, d, j) ==> run.states[j].Expired(r))
  {
    assert run.Step(j);
    if run.acts[j].CompareAndDelete? {
      EvictionIsJustified(run, j);
    }
  }
}
