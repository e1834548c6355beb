/**
 What the ideal cache means to callers who can only look: the answer of a plain read of any key, at any later instant,
 after each call, in terms of answers before the call and of the durations and instants the caller gave.
 */
module Meaning {
  import opened Common
  import opened Clock
  import opened Options
  import opened Stores
  import opened IdealCache

  /** The answer of a plain read. */
  function Look(v: View, key: Key, at: Time): Response {
    Apply(v, Get(key, [], at, at), 0).1
  }

  /** A value that can be read until something has run out. */
  function Unless(runOut: bool, value: Bytes): Response {
    if runOut then Failed(KeyNotFound) else Value(value)
  }

  lemma AfterSet(v: View, key: Key, value: Bytes, opts: seq<SetOption>, at: Time, ttl: Duration, k: Key, later: Time)
    requires Modern(at) && at <= later
    ensures var (v', response) := Apply(v, Set(key, value, opts, at), ttl);
            && response == Done
            && Look(v', k, later) ==
               if k == key then Unless(RunsOut(ttl, opts, at, later), value) else Look(v, k, later)
  {
    NewItemExpiresWhen(value, ttl, opts, at, later);
  }

  /** An attempt fails if and only if the key could be read at its check; then nothing has changed for any reader. */
  lemma AfterSetOrFail(
    v: View, key: Key, value: Bytes, opts: seq<SetOption>, check: Time, at: Time, ttl: Duration, k: Key, later: Time)
    requires Modern(check) && check <= at <= later
    ensures var (v', response) := Apply(v, SetOrFail(key, value, opts, check, at), ttl);
            var free := Look(v, key, check) == Failed(KeyNotFound);
            && response == (if free then Done else Failed(KeyExists))
            && Look(v', k, later) ==
               if free && k == key then Unless(RunsOut(ttl, opts, at, later), value) else Look(v, k, later)
  {
    NewItemExpiresWhen(value, ttl, opts, at, later);
  }

  lemma AfterDelete(v: View, key: Key, ttl: Duration, k: Key, later: Time)
    ensures var (v', response) := Apply(v, Delete(key), ttl);
            && response == Done
            && Look(v', k, later) == if k == key then Failed(KeyNotFound) else Look(v, k, later)
  {}

  lemma AfterCleanup(v: View, t: Time, ttl: Duration, k: Key, later: Time)
    ensures var (v', response) := Apply(v, Cleanup(t), ttl);
            response == Done && Look(v', k, later) == Look(v, k, later)
  {}

  /** A drain returns exactly what could be read at its clock reading, and nothing can be read afterwards. */
  lemma AfterDrain(v: View, t: Time, ttl: Duration, k: Key, later: Time)
    ensures var (v', response) := Apply(v, Drain(t), ttl);
            && response.Drained?
            && Look(v, k, t) == (if k in response.out then Value(response.out[k]) else Failed(KeyNotFound))
            && Look(v', k, later) == Failed(KeyNotFound)
  {}

  lemma AfterPlainGet(v: View, key: Key, first: Time, second: Time, ttl: Duration)
    ensures Apply(v, Get(key, [], first, second), ttl) == (v, Look(v, key, second))
  {}

  /** A read with options of a key that cannot be read misses, and changes nothing for any reader. */
  lemma AfterMissedGet(
    v: View, key: Key, opts: seq<GetOption>, first: Time, second: Time, ttl: Duration, k: Key, later: Time)
    requires Look(v, key, first) == Failed(KeyNotFound) && first <= second && first <= later
    ensures var (v', response) := Apply(v, Get(key, opts, first, second), ttl);
            response == Failed(KeyNotFound) && Look(v', k, later) == Look(v, k, later)
  {}

  /**
   A read with options of a key that can be read: the deciding option is all that counts. The answer is that of a plain
   read at `second` gets after the call, or before it if the call deletes; other keys are left alone.
   */
  lemma AfterGet(
    v: View, key: Key, x: Bytes, opts: seq<GetOption>, i: nat, first: Time, second: Time, ttl: Duration,
    k: Key, later: Time)
    requires Decides(opts, i) && Modern(first) && first <= second && first <= later && Look(v, key, first) == Value(x)
    ensures var (v', response) := Apply(v, Get(key, opts, first, second), ttl);
            && Look(v', k, later) ==
               (if k == key then Unless(TouchRunsOut(v[key], opts[i], first, ttl, later), x) else Look(v, k, later))
            && response ==
               (if opts[i] == AndDelete then Look(v, key, second)
                else Unless(TouchRunsOut(v[key], opts[i], first, ttl, second), x))
  {
    TouchedItemExpiresAsAsked(v[key], opts, i, first, ttl, later);
    TouchedItemExpiresAsAsked(v[key], opts, i, first, ttl, second);
  }

  /** For an entry that does not last for ever, expiry shifted by `d` is what a plain read sees `d` earlier. */
  lemma ShiftIsSeen(v: View, key: Key, d: Duration, first: Time, ttl: Duration, later: Time)
    requires key in v && v[key].validUntil != 0
    ensures Look(v, key, later - d) == Unless(TouchRunsOut(v[key], AndUpdateTTL(d), first, ttl, later), v[key].value)
  {}

  /** Every list of options has one that decides. */
  lemma {:induction false} SomeOptionDecides(opts: seq<GetOption>)
    requires opts != []
    ensures exists i: nat :: Decides(opts, i)
  {
    var n := |opts| - 1;
    if n == 0 {
      assert Decides(opts, 0);
    } else {
      SomeOptionDecides(opts[..n]);
      var i: nat :| Decides(opts[..n], i);
      assert forall j :: 0 <= j < n ==> opts[j] == opts[..n][j];
      assert Decides(opts, if Rank(opts[n]) >= Rank(opts[i]) then n else i);
    }
  }
}
