/**
 All interleavings of any number of goroutines on one memory cache.

 A step is one critical section, or the unlocked expiry decision between two of them. The section of a read with
 options is split in two: `Sample` takes the lock and reads the clock, `Write` stores the new deadline and
 releases the lock, and time may pass in between. `Set` and `SetOrFail` read the clock again for the new deadline; that
 reading, `at`, ends the step.
 */
module Concurrency {
  import opened Common
  import opened Clock
  import opened Options
  import opened Stores

  type Tid = nat
  type Ref = nat

  /** Where a goroutine is. The value a cache method returns is not kept here, see `StepAnswer`. */
  datatype Pc =
    | Idle
    | Read(key: Key, item: Ref)                                    // the getter returned an item
    | Evict(key: Key, item: Ref)                                   // the item was found expired
    | Renewing(key: Key, item: Ref, now: Time, o: GetRecord)       // holds the lock, deadline not yet written
    | Sweeping(t: Time, drain: bool)                               // Cleanup or Drain read its clock

  datatype System = System(
    store: Store<Ref>, ttl: Duration, clock: Time, threads: map<Tid, Pc>, lock: Option<Tid>)
  {
    function Pc(t: Tid): Pc {
      if t in threads then threads[t] else Idle
    }

    function Goto(t: Tid, pc: Pc): System {
      this.(threads := threads[t := pc])
    }

    ghost predicate Expired(r: Ref) {
      store.Deref(r).Expired(clock)
    }
  }

  datatype Action =
    | Tick(to: Time)
    | Set(tid: Tid, key: Key, value: Bytes, opts: seq<SetOption>, at: Time, ref: Ref)
    | SetOrFail(tid: Tid, key: Key, value: Bytes, opts: seq<SetOption>, at: Time, ref: Ref)
    | Delete(tid: Tid, key: Key)
    | Snapshot(tid: Tid, key: Key)
    | Sample(tid: Tid, key: Key, getOpts: seq<GetOption>)
    | Write(tid: Tid)
    | Decide(tid: Tid)
    | CompareAndDelete(tid: Tid)
    | ReadSweepClock(tid: Tid, drain: bool)
    | Sweep(tid: Tid)

  ghost predicate Init(s: System) {
    s.store == Store(map[], map[]) && Modern(s.clock) && s.threads == map[] && s.lock == None
  }

  ghost predicate Enabled(s: System, a: Action) {
    match a
    case Tick(to) => s.clock <= to
    case Set(t, _, _, _, at, r) => s.lock == None && s.Pc(t) == Idle && s.clock <= at && r !in s.store.heap
    case SetOrFail(t, _, _, _, at, r) => s.lock == None && s.Pc(t) == Idle && s.clock <= at && r !in s.store.heap
    case Delete(t, _) => s.lock == None && s.Pc(t) == Idle
    case Snapshot(t, _) => s.lock == None && s.Pc(t) == Idle
    case Sample(t, _, opts) => s.lock == None && s.Pc(t) == Idle && opts != []
    case Write(t) => s.Pc(t).Renewing?
    case Decide(t) => s.Pc(t).Read?
    case CompareAndDelete(t) => s.lock == None && s.Pc(t).Evict?
    case ReadSweepClock(t, _) => s.Pc(t) == Idle
    case Sweep(t) => s.lock == None && s.Pc(t).Sweeping?
  }

  /** What `Sample` does once it holds the lock. */
  ghost function NextSample(s: System, t: Tid, key: Key, o: GetRecord): System {
    if key !in s.store.items then s
    else
      var r := s.store.items[key];
      if s.Expired(r) then s.Goto(t, Read(key, r))
      else if o.delete then s.(store := s.store.Unmap(key)).Goto(t, Read(key, r))
      else s.(lock := Some(t)).Goto(t, Renewing(key, r, s.clock, o))
  }

  ghost function WrittenStore(store: Store<Ref>, pc: Pc, ttl: Duration): Store<Ref>
    requires pc.Renewing?
  {
    match EffectOf(pc.o, store.Deref(pc.item).validUntil, pc.now, ttl)
    case Rewrite(t) => store.SetDeadline(pc.item, t)
    case _ => store
  }

  ghost function Next(s: System, a: Action): System
    requires Enabled(s, a)
  {
    match a
    case Tick(to) => s.(clock := to)
    case Set(_, key, value, opts, at, r) =>
      s.(store := s.store.Put(key, r, Item(value, NewDeadline(s.ttl, opts, at))), clock := at)
    case SetOrFail(_, key, value, opts, at, r) =>
      if s.store.Live(key, s.clock) then s
      else s.(store := s.store.Put(key, r, Item(value, NewDeadline(s.ttl, opts, at))), clock := at)
    case Delete(_, key) => s.(store := s.store.Unmap(key))
    case Snapshot(t, key) => if key in s.store.items then s.Goto(t, Read(key, s.store.items[key])) else s
    case Sample(t, key, opts) => NextSample(s, t, key, Fold(opts))
    case Write(t) =>
      var pc := s.Pc(t);
      s.(store := WrittenStore(s.store, pc, s.ttl), lock := None).Goto(t, Read(pc.key, pc.item))
    case Decide(t) =>
      var pc := s.Pc(t);
      s.Goto(t, if s.Expired(pc.item) then Evict(pc.key, pc.item) else Idle)
    case CompareAndDelete(t) =>
      var pc := s.Pc(t);
      s.(store := s.store.CompareAndDelete(pc.key, pc.item)).Goto(t, Idle)
    case ReadSweepClock(t, drain) => s.Goto(t, Sweeping(s.clock, drain))
    case Sweep(t) =>
      var pc := s.Pc(t);
      s.(store := if pc.drain then s.store.Clear() else s.store.Sweep(pc.t)).Goto(t, Idle)
  }

  /** What the call a step completes returns. */
  datatype Response = Nothing | Hit(value: Bytes) | Miss | Stored | Exists | Drained(out: map<Key, Bytes>)

  ghost function StepAnswer(s: System, a: Action): Response
    requires Enabled(s, a)
  {
    match a
    case Set(_, _, _, _, _, _) => Stored
    case SetOrFail(_, key, _, _, _, _) => if s.store.Live(key, s.clock) then Exists else Stored
    case Snapshot(_, key) => if key in s.store.items then Nothing else Miss
    case Sample(_, key, _) => if key in s.store.items then Nothing else Miss
    case Decide(t) => if s.Expired(s.Pc(t).item) then Nothing else Hit(s.store.Deref(s.Pc(t).item).value)
    case CompareAndDelete(_) => Miss
    case Sweep(t) => if s.Pc(t).drain then Drained(s.store.Sweep(s.Pc(t).t).Values()) else Nothing
    case _ => Nothing
  }

  // ----- the inductive invariant -----

  ghost predicate PcOk(s: System, t: Tid) {
    match s.Pc(t)
    case Idle => true
    case Read(_, r) => r in s.store.heap
    case Evict(_, r) => r in s.store.heap
    case Renewing(key, r, now, o) =>
      && s.lock == Some(t)
      && r in s.store.heap && key in s.store.items && s.store.items[key] == r
      && Modern(now) && now <= s.clock && !s.store.Deref(r).Expired(now)
      && !o.delete
    case Sweeping(at, _) => at <= s.clock
  }

  ghost predicate Inv(s: System) {
    && s.store.Valid()
    && Modern(s.clock)
    && (s.lock.Some? ==> s.Pc(s.lock.value).Renewing?)
    && forall t :: t in s.threads ==> PcOk(s, t)
  }

  lemma NextKeepsInv(s: System, a: Action)
    requires Inv(s) && Enabled(s, a)
    ensures Inv(Next(s, a))
    ensures s.clock <= Next(s, a).clock
    ensures s.store.heap.Keys <= Next(s, a).store.heap.Keys
  {}

  // ----- expiry is irreversible, unless a deadline is written late -----

  /**
   A late write, told from the state before it: the deadline it replaces has passed, and the one it writes has not. When
   the section of a read takes less time than the item has left, its write is not late.
   */
  ghost predicate Late(s: System, a: Action) {
    && a.Write? && s.Pc(a.tid).Renewing?
    && var pc := s.Pc(a.tid);
       var current := s.store.Deref(pc.item).validUntil;
       && current != 0 && s.clock > current
       && match EffectOf(pc.o, current, pc.now, s.ttl)
          case Rewrite(t) => t == 0 || s.clock <= t
          case _ => false
  }

  /** The late writes that concern one item. */
  ghost predicate LateFor(s: System, a: Action, r: Ref) {
    Late(s, a) && s.Pc(a.tid).item == r
  }

  /** A step brings an item back from expiry if and only if it is a late write of that item. */
  lemma ResurrectsIffLate(s: System, a: Action, r: Ref)
    requires Inv(s) && Enabled(s, a)
    ensures r in s.store.heap && s.Expired(r) && !Next(s, a).Expired(r) <==> LateFor(s, a, r)
  {
    if a.Write? {
      assert PcOk(s, a.tid);
    }
  }

  // ----- runs -----

  /** A run: the states passed through and the actions between them. */
  datatype Run = Run(states: seq<System>, acts: seq<Action>) {
    ghost predicate Step(i: nat)
      requires i < |acts| && |states| == |acts| + 1
    {
      Enabled(states[i], acts[i]) && states[i + 1] == Next(states[i], acts[i])
    }

    ghost predicate Valid() {
      && |states| == |acts| + 1
      && Init(states[0])
      && forall i :: 0 <= i < |acts| ==> Step(i)
    }

    ghost function Answer(i: nat): Response
      requires Valid() && i < |acts|
    {
      assert Step(i);
      StepAnswer(states[i], acts[i])
    }

    /** No write of the run is late. */
    ghost predicate Timely()
      requires Valid()
    {
      forall i :: 0 <= i < |acts| ==> !Late(states[i], acts[i])
    }

    /** No write of item `r` is late from step i up to step j. */
    ghost predicate TimelyFor(r: Ref, i: nat, j: nat)
      requires Valid() && j <= |acts|
    {
      forall m :: i <= m < j ==> !LateFor(states[m], acts[m], r)
    }
  }

  lemma {:induction false} InvAt(run: Run, i: nat)
    requires run.Valid() && i <= |run.acts|
    ensures Inv(run.states[i])
  {
    if i > 0 {
      InvAt(run, i - 1);
      assert run.Step(i - 1);
      NextKeepsInv(run.states[i - 1], run.acts[i - 1]);
    }
  }

  lemma {:induction false} Monotone(run: Run, i: nat, j: nat)
    requires run.Valid() && i <= j <= |run.acts|
    ensures run.states[i].clock <= run.states[j].clock
    ensures run.states[i].store.heap.Keys <= run.states[j].store.heap.Keys
    ensures run.states[i].ttl == run.states[j].ttl
    decreases j - i
  {
    if i < j {
      Monotone(run, i, j - 1);
      InvAt(run, j - 1);
      assert run.Step(j - 1);
      NextKeepsInv(run.states[j - 1], run.acts[j - 1]);
    }
  }

  /** Once expired, always expired, while no write of the item is late. */
  lemma {:induction false} ExpiredForGood(run: Run, i: nat, j: nat, r: Ref)
    requires run.Valid() && i <= j <= |run.acts| && run.TimelyFor(r, i, j)
    requires r in run.states[i].store.heap && run.states[i].Expired(r)
    ensures run.states[j].Expired(r)
    decreases j - i
  {
    if i < j {
      ExpiredForGood(run, i, j - 1, r);
      Monotone(run, i, j - 1);
      InvAt(run, j - 1);
      assert run.Step(j - 1);
      ResurrectsIffLate(run.states[j - 1], run.acts[j - 1], r);
    }
  }

  /** An item is free of late writes exactly when it never comes back from expiry. */
  lemma TimelyIffExpiryIsIrreversible(run: Run, r: Ref)
    requires run.Valid()
    ensures run.TimelyFor(r, 0, |run.acts|) <==>
            forall i, j :: 0 <= i <= j <= |run.acts| && r in run.states[i].store.heap && run.states[i].Expired(r) ==>
              run.states[j].Expired(r)
  {
    if run.TimelyFor(r, 0, |run.acts|) {
      forall i, j | 0 <= i <= j <= |run.acts| && r in run.states[i].store.heap && run.states[i].Expired(r)
        ensures run.states[j].Expired(r)
      {
        ExpiredForGood(run, i, j, r);
      }
    } else {
      var i :| 0 <= i < |run.acts| && LateFor(run.states[i], run.acts[i], r);
      InvAt(run, i);
      assert run.Step(i);
      ResurrectsIffLate(run.states[i], run.acts[i], r);
      assert 0 <= i <= i + 1 <= |run.acts|;
    }
  }

  /**
   An item found expired while nobody holds the lock is lost: no late write can reach it any more, and its deadline
   never changes again.
   */
  lemma {:induction false} ExpiredUnderLockIsFinal(run: Run, i: nat, j: nat, r: Ref)
    requires run.Valid() && i <= j <= |run.acts|
    requires run.states[i].lock == None && r in run.states[i].store.heap && run.states[i].Expired(r)
    ensures run.states[j].Expired(r) && run.states[j].store.Deref(r) == run.states[i].store.Deref(r)
    ensures run.TimelyFor(r, i, j)
    ensures forall t :: run.states[j].Pc(t).Renewing? ==> run.states[j].Pc(t).item != r
    decreases j - i
  {
    InvAt(run, i);
    if i == j {
      assert forall t :: t in run.states[i].threads ==> PcOk(run.states[i], t);
    } else {
      ExpiredUnderLockIsFinal(run, i, j - 1, r);
      Monotone(run, i, j - 1);
      InvAt(run, j - 1);
      assert run.Step(j - 1);
    }
  }

  /** When every section of a read with options takes no time, the run is timely. */
  lemma InstantSectionsAreTimely(run: Run)
    requires run.Valid()
    requires forall i :: 0 <= i < |run.acts| && run.acts[i].Write? && run.states[i].Pc(run.acts[i].tid).Renewing? ==>
               run.states[i].Pc(run.acts[i].tid).now == run.states[i].clock
    ensures run.Timely()
  {
    forall i | 0 <= i < |run.acts|
      ensures !Late(run.states[i], run.acts[i])
    {
      InvAt(run, i);
      if run.acts[i].Write? {
        assert run.Step(i);
        assert PcOk(run.states[i], run.acts[i].tid);
      }
    }
  }
}
