/**
 What a cache is for its sequential callers: a map in which entries simply stop being visible when they expire. Nothing
 is ever removed for having expired, and `Cleanup` does nothing.
 */
module IdealCache {
  import opened Common
  import opened Clock
  import opened Options
  import opened Stores

  type View = map<Key, Item>

  /** A call with the clock readings it makes. Of the readings of `newItem` only `at`, the deciding one, is kept. */
  datatype Op =
    | Set(key: Key, value: Bytes, opts: seq<SetOption>, at: Time)
    | SetOrFail(key: Key, value: Bytes, opts: seq<SetOption>, check: Time, at: Time)
    | Get(key: Key, getOpts: seq<GetOption>, first: Time, second: Time)
    | Delete(key: Key)
    | Cleanup(t: Time)
    | Drain(t: Time)

  datatype Response = Done | Value(value: Bytes) | Failed(error: Error) | Drained(out: map<Key, Bytes>)

  function ToResponse(res: Result<Bytes>): Response {
    match res
    case Ok(v) => Value(v)
    case Err(e) => Failed(e)
  }

  /** The readings of a call made at or after `now` do not go back in time. */
  predicate InOrder(op: Op, now: Time) {
    match op
    case Set(_, _, _, at) => now <= at
    case SetOrFail(_, _, _, check, at) => now <= check <= at
    case Get(_, _, first, second) => now <= first <= second
    case Delete(_) => true
    case Cleanup(t) => now <= t
    case Drain(t) => now <= t
  }

  /** The clock after the call. */
  function After(op: Op, now: Time): Time {
    match op
    case Set(_, _, _, at) => at
    case SetOrFail(_, _, _, _, at) => at
    case Get(_, _, _, second) => second
    case Delete(_) => now
    case Cleanup(t) => t
    case Drain(t) => t
  }

  predicate AllInOrder(ops: seq<Op>, now: Time) {
    ops == [] || (InOrder(ops[0], now) && AllInOrder(ops[1..], After(ops[0], now)))
  }

  predicate Live(v: View, key: Key, now: Time) {
    key in v && !v[key].Expired(now)
  }

  function Answer(item: Item, now: Time): Response {
    if item.Expired(now) then Failed(KeyNotFound) else Value(item.value)
  }

  function Apply(v: View, op: Op, ttl: Duration): (View, Response) {
    match op
    case Set(key, value, opts, at) => (v[key := Item(value, NewDeadline(ttl, opts, at))], Done)
    case SetOrFail(key, value, opts, check, at) =>
      if Live(v, key, check) then (v, Failed(KeyExists))
      else (v[key := Item(value, NewDeadline(ttl, opts, at))], Done)
    case Get(key, opts, first, second) =>
      if key !in v || (opts != [] && v[key].Expired(first)) then (v, Failed(KeyNotFound))
      else if opts == [] then (v, Answer(v[key], second))
      else (
        match EffectOf(Fold(opts), v[key].validUntil, first, ttl)
        case Remove => (v - {key}, Answer(v[key], second))
        case Rewrite(t) =>
          var item := Item(v[key].value, t);
          (v[key := item], Answer(item, second))
        case Keep => (v, Answer(v[key], second)))
    case Delete(key) => (v - {key}, Done)
    case Cleanup(_) => (v, Done)
    case Drain(t) => (map[], Drained(map k | k in v && !v[k].Expired(t) :: v[k].value))
  }

  /** The responses to a sequence of calls. */
  function Responses(v: View, ops: seq<Op>, ttl: Duration): (rs: seq<Response>)
    ensures |rs| == |ops|
    decreases |ops|
  {
    if ops == [] then [] else [Apply(v, ops[0], ttl).1] + Responses(Apply(v, ops[0], ttl).0, ops[1..], ttl)
  }
}

/** The in-memory backend, lazy and explicit evictions included, answers every sequence of calls as the ideal cache. */
module MemoryIsIdeal {
  import opened Common
  import opened Clock
  import opened Options
  import opened Stores
  import opened Memory
  import opened IdealCache

  /** The call as `MemoryCache` performs it on its store; `r` is the identity of the item it may create. */
  ghost function MemoryApply<R>(s: Store<R>, op: Op, ttl: Duration, r: R): (Store<R>, Response) {
    match op
    case Set(key, value, opts, at) => (s.Put(key, r, Item(value, NewDeadline(ttl, opts, at))), Done)
    case SetOrFail(key, value, opts, check, at) =>
      if s.Live(key, check) then (s, Failed(KeyExists))
      else (s.Put(key, r, Item(value, NewDeadline(ttl, opts, at))), Done)
    case Get(key, opts, first, second) =>
      var (s', res) := s.Get(key, opts, first, second, ttl);
      (s', ToResponse(res))
    case Delete(key) => (s.Unmap(key), Done)
    case Cleanup(t) => (s.Sweep(t), Done)
    case Drain(t) => (s.Clear(), Drained(s.Sweep(t).Values()))
  }

  /** The store is contained in the ideal map, and whatever is missing there has expired. */
  ghost predicate Refines<R>(s: Store<R>, v: View, now: Time) {
    && s.Valid()
    && (forall k :: k in s.items ==> k in v && v[k] == s.Deref(s.items[k]))
    && (forall k :: k in v && k !in s.items ==> v[k].Expired(now))
  }

  lemma CallRefinesIdeal<R>(s: Store<R>, v: View, op: Op, ttl: Duration, r: R, now: Time)
    requires Refines(s, v, now) && InOrder(op, now) && r !in s.heap
    ensures MemoryApply(s, op, ttl, r).1 == Apply(v, op, ttl).1
    ensures Refines(MemoryApply(s, op, ttl, r).0, Apply(v, op, ttl).0, After(op, now))
  {
    match op
    case Set(key, value, opts, at) => PutRefinesIdeal(s, v, key, r, Item(value, NewDeadline(ttl, opts, at)), now, at);
    case SetOrFail(key, value, opts, check, at) =>
      PutRefinesIdeal(s, v, key, r, Item(value, NewDeadline(ttl, opts, at)), now, at);
    case Get(key, opts, first, second) => GetRefinesIdeal(s, v, key, opts, first, second, ttl);
    case Delete(_) =>
    case Cleanup(t) => SweepRefinesIdeal(s, v, now, t);
    case Drain(t) => SweepRefinesIdeal(s, v, now, t);
  }

  lemma PutRefinesIdeal<R>(s: Store<R>, v: View, key: Key, r: R, item: Item, now: Time, at: Time)
    requires Refines(s, v, now) && r !in s.heap && now <= at
    ensures Refines(s.Put(key, r, item), v[key := item], at)
  {}

  lemma SweepRefinesIdeal<R>(s: Store<R>, v: View, now: Time, t: Time)
    requires Refines(s, v, now) && now <= t
    ensures Refines(s.Sweep(t), v, t)
    ensures s.Sweep(t).Values() == map k | k in v && !v[k].Expired(t) :: v[k].value
  {}

  /** The ideal map after the locked part of a read. */
  ghost function IdealFirstPhase(v: View, key: Key, opts: seq<GetOption>, now: Time, ttl: Duration): View {
    Apply(v, Get(key, opts, now, now), ttl).0
  }

  lemma FirstPhaseRefinesIdeal<R>(s: Store<R>, v: View, key: Key, opts: seq<GetOption>, first: Time, ttl: Duration)
    requires Refines(s, v, first)
    ensures Refines(s.FirstPhase(key, opts, first, ttl).store, IdealFirstPhase(v, key, opts, first, ttl), first)
  {}

  lemma EvictionRefinesIdeal<R>(s: Store<R>, v: View, key: Key, r: R, now: Time, later: Time)
    requires Refines(s, v, now) && now <= later && s.Deref(r).Expired(later)
    ensures Refines(s.CompareAndDelete(key, r), v, later)
  {}

  /** The response of a read. */
  lemma GetAnswersAsIdeal<R>(
    s: Store<R>, v: View, key: Key, opts: seq<GetOption>, first: Time, second: Time, ttl: Duration)
    requires Refines(s, v, first) && first <= second
    ensures ToResponse(s.Get(key, opts, first, second, ttl).1) == Apply(v, Get(key, opts, first, second), ttl).1
  {}

  /** One read, evictions included: the ideal response, and the containment is kept. */
  lemma GetRefinesIdeal<R>(
    s: Store<R>, v: View, key: Key, opts: seq<GetOption>, first: Time, second: Time, ttl: Duration)
    requires Refines(s, v, first) && first <= second
    ensures var (s', res) := s.Get(key, opts, first, second, ttl);
            var (v', response) := Apply(v, Get(key, opts, first, second), ttl);
            ToResponse(res) == response && Refines(s', v', second)
  {
    GetAnswersAsIdeal(s, v, key, opts, first, second, ttl);
    FirstPhaseRefinesIdeal(s, v, key, opts, first, ttl);
    var got := s.FirstPhase(key, opts, first, ttl);
    var v' := IdealFirstPhase(v, key, opts, first, ttl);
    assert v' == Apply(v, Get(key, opts, first, second), ttl).0;
    if got.item.Some? && got.store.Deref(got.item.value).Expired(second) {
      EvictionRefinesIdeal(got.store, v', key, got.item.value, first, second);
    }
  }

  /** Performs a call on the class; `clock` readings that do not decide the deadline are taken equal to `at`. */
  method Perform(m: MemoryCache, op: Op) returns (response: Response, ghost r: MemoryItem)
    requires m.Valid()
    modifies m, m.pool
    ensures m.Valid() && fresh(r) && fresh(m.pool - old(m.pool))
    ensures (m.State(), response) == MemoryApply(old(m.State()), op, m.ttl, r)
  {
    // A call that creates no item still needs a fresh identity to speak of.
    var unused := new MemoryItem([], 0);
    r := unused;
    match op
    case Set(key, value, opts, at) =>
      r := m.Set(key, value, opts, at, seq(|opts|, _ => at));
      response := Done;
    case SetOrFail(key, value, opts, check, at) =>
      var ok, created := m.SetOrFail(key, value, opts, check, at, seq(|opts|, _ => at));
      if ok {
        r := created;
      }
      response := if ok then Done else Failed(KeyExists);
    case Get(key, opts, first, second) =>
      var res := m.Get(key, opts, first, second);
      response := ToResponse(res);
    case Delete(key) =>
      m.Delete(key);
      response := Done;
    case Cleanup(t) =>
      m.Cleanup(t);
      response := Done;
    case Drain(t) =>
      var out := m.Drain(t);
      response := Drained(out);
  }

  /** Any sequence of calls on a new `MemoryCache` gets the responses of the ideal cache. */
  method Replay(ops: seq<Op>, ttl: Duration, start: Time) returns (responses: seq<Response>)
    requires AllInOrder(ops, start)
    ensures responses == Responses(map[], ops, ttl)
  {
    var m := new MemoryCache(ttl);
    ghost var v: View, now := map[], start;
    responses := [];
    for i := 0 to |ops|
      invariant fresh(m) && fresh(m.pool) && m.Valid() && m.ttl == ttl
      invariant Refines(m.State(), v, now) && AllInOrder(ops[i..], now)
      invariant Responses(map[], ops, ttl) == responses + Responses(v, ops[i..], ttl)
    {
      assert ops[i..][0] == ops[i] && ops[i..][1..] == ops[i + 1..];
      ghost var s := m.State();
      var response, r := Perform(m, ops[i]);
      assert r !in s.heap;
      CallRefinesIdeal(s, v, ops[i], ttl, r, now);
      v, now := Apply(v, ops[i], ttl).0, After(ops[i], now);
      responses := responses + [response];
    }
  }
}
