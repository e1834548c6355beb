/**
 When the Redis backend answers as the ideal cache, and so as the in-memory one: the exact condition for every call, and
 agreement over every sequence of calls that meets it. Clocks are on whole seconds here, and a call takes no time.
 */
module Agreement {
  import opened Common
  import opened Clock
  import opened Options
  import opened Stores
  import opened IdealCache
  import R = Redis
  import MemoryIsIdeal

  /** A whole second after 1970. */
  predicate WholeNow(now: Time) {
    Whole(now) && now >= FromUnix(1)
  }

  /** The same value, and the same deadline up to the second: Redis keeps whole seconds only. */
  predicate Same(f: R.Field, i: Item) {
    f.value == i.value && f.expiry == if i.validUntil == 0 then None else Some(FromUnix(Unix(i.validUntil)))
  }

  ghost predicate SameKey(h: R.Hash, v: View, k: Key, now: Time) {
    && (R.Visible(h, k, now) <==> Live(v, k, now))
    && (R.Visible(h, k, now) ==> Same(h[k], v[k]))
  }

  /** The visible parts of hash and ideal map are the same, deadlines included up to the second. */
  ghost predicate Agree(h: R.Hash, v: View, now: Time) {
    forall k :: SameKey(h, v, k, now)
  }

  /** Redis deadlines are whole seconds. */
  predicate WholeHash(h: R.Hash) {
    forall k :: k in h && h[k].expiry.Some? ==> Whole(h[k].expiry.value)
  }

  lemma AgreementLasts(h: R.Hash, v: View, now: Time, later: Time)
    requires WholeNow(now) && WholeNow(later) && Agree(h, v, now) && now <= later
    ensures Agree(h, v, later)
  {
    forall k
      ensures SameKey(h, v, k, later)
    {
      assert SameKey(h, v, k, now);
    }
  }

  // ----- agreement is what plain reads can see -----

  /** A plain read of `key` at instant `at` gets the same answer from both. */
  ghost predicate SameAnswer(h: R.Hash, v: View, key: Key, at: Time) {
    ToResponse(R.GetField(h, key, NOTHING, at, 0).1) == Apply(v, Get(key, [], at, at), 0).1
  }

  /** No plain read of any key, at `now` or any later whole second, is answered differently. */
  ghost predicate ReadsAgree(h: R.Hash, v: View, now: Time) {
    forall key, later :: now <= later && WholeNow(later) ==> SameAnswer(h, v, key, later)
  }

  /** A second after the earlier one of two different deadlines only one backend still has the entry. */
  lemma EarlierDeadlineShows(h: R.Hash, v: View, key: Key, s: Time, now: Time)
    requires WholeNow(now) && R.Visible(h, key, now) && Live(v, key, now) && Whole(s) && s >= now
    requires v[key].validUntil != 0 ==> FromUnix(Unix(v[key].validUntil)) >= s
    requires h[key].expiry.Some? ==> Whole(h[key].expiry.value) && h[key].expiry.value >= s
    requires (h[key].expiry == Some(s)) !=
             (v[key].validUntil != 0 && FromUnix(Unix(v[key].validUntil)) == s)
    ensures WholeNow(s + SECOND) && !SameAnswer(h, v, key, s + SECOND)
  {
    UnixRoundsDown(v[key].validUntil);
    assert R.Visible(h, key, s + SECOND) <==> h[key].expiry != Some(s);
    assert Live(v, key, s + SECOND) <==> v[key].validUntil == 0 || v[key].validUntil >= s + SECOND;
  }

  /** If two entries differ, a single plain read at some whole second tells them apart. */
  lemma DifferenceShows(h: R.Hash, v: View, key: Key, now: Time)
    requires WholeNow(now) && WholeHash(h) && !SameKey(h, v, key, now)
    ensures exists later :: now <= later && WholeNow(later) && !SameAnswer(h, v, key, later)
  {
    if R.Visible(h, key, now) && Live(v, key, now) && h[key].value == v[key].value {
      var expiry, deadline := h[key].expiry, v[key].validUntil;
      UnixRoundsDown(deadline);
      var s := if expiry == None || (deadline != 0 && FromUnix(Unix(deadline)) < expiry.value)
               then FromUnix(Unix(deadline)) else expiry.value;
      EarlierDeadlineShows(h, v, key, s, now);
    } else {
      assert !SameAnswer(h, v, key, now);
    }
  }

  /** Agreement is exactly what plain reads at whole seconds can see. */
  lemma AgreeIffReadsAgree(h: R.Hash, v: View, now: Time)
    requires WholeNow(now) && WholeHash(h)
    ensures Agree(h, v, now) <==> ReadsAgree(h, v, now)
  {
    if Agree(h, v, now) {
      forall key, later | now <= later && WholeNow(later)
        ensures SameAnswer(h, v, key, later)
      {
        AgreementLasts(h, v, now, later);
        assert SameKey(h, v, key, later);
      }
    } else {
      var key :| !SameKey(h, v, key, now);
      DifferenceShows(h, v, key, now);
    }
  }

  // ----- storing -----

  /** A deadline both backends treat alike: none, at least a second ahead, or already past (but not before 1970). */
  predicate StoreFragment(deadline: Time, now: Time) {
    || deadline == 0
    || deadline >= now + SECOND
    || UNIX_EPOCH <= deadline < now
  }

  /** Storing agrees for exactly the deadlines of the fragment. */
  lemma StoreAgreesIff(h: R.Hash, v: View, key: Key, value: Bytes, deadline: Time, now: Time)
    requires WholeNow(now) && Agree(h, v, now) && WholeHash(h)
    ensures var (h', error) := R.Store(h, key, value, deadline, now);
            && WholeHash(h')
            && (error == None && Agree(h', v[key := Item(value, deadline)], now) <==> StoreFragment(deadline, now))
  {
    var (h', error) := R.Store(h, key, value, deadline, now);
    var v' := v[key := Item(value, deadline)];
    UnixRoundsDown(deadline);
    UnixOrder(deadline, now);
    assert SameKey(h', v', key, now) && error == None <==> StoreFragment(deadline, now);
    OtherKeysAgree(h, h', v, v', key, now);
  }

  lemma UnixOrder(t: Time, now: Time)
    requires WholeNow(now)
    ensures Unix(t) < 0 <==> t < UNIX_EPOCH
    ensures FromUnix(Unix(t)) < now <==> t < now
    ensures FromUnix(Unix(t)) > now <==> t >= now + SECOND
    ensures Unix(t) > 0 <==> t >= FromUnix(1)
  {}

  /** A call that changes one key only can break the agreement only there. */
  lemma OtherKeysAgree(h: R.Hash, h': R.Hash, v: View, v': View, key: Key, now: Time)
    requires Agree(h, v, now)
    requires h' - {key} == h - {key} && v' - {key} == v - {key}
    ensures Agree(h', v', now) <==> SameKey(h', v', key, now)
  {
    if SameKey(h', v', key, now) {
      forall k
        ensures SameKey(h', v', k, now)
      {
        assert SameKey(h, v, k, now);
        if k != key {
          assert k in h <==> k in h - {key};
          assert k in h' <==> k in h' - {key};
          assert k in v <==> k in v - {key};
          assert k in v' <==> k in v' - {key};
          assert k in h ==> h[k] == (h - {key})[k];
          assert k in h' ==> h'[k] == (h' - {key})[k];
          assert k in v ==> v[k] == (v - {key})[k];
          assert k in v' ==> v'[k] == (v' - {key})[k];
        }
      }
    }
  }

  // ----- reading -----

  /** The part of an instant or a duration below the second. */
  function SubSecond(t: int): int {
    t % SECOND
  }

  /** What an extension by `d` must meet: the seconds Redis adds are the seconds by which the deadline moves. */
  predicate ExtensionFragment(d: Duration, current: Time) {
    if current == 0 then d >= SECOND
    else if d >= 0 then SubSecond(current) + SubSecond(d) < SECOND
    else SubSecond(current) + d >= 0
  }

  /** What a read may ask of a live entry for both backends to treat it alike. */
  predicate ReadFragment(o: GetRecord, current: Time, now: Time, ttl: Duration) {
    if o.delete then true
    else if o.validUntil.Some? then
      var t := o.validUntil.value;
      t >= now + SECOND || (t == 0 && current == 0)
    else if o.setTTL.Some? then o.setTTL.value >= SECOND
    else if o.updateTTL.Some? then ExtensionFragment(o.updateTTL.value, current)
    else if o.defaultTTL then if ttl > 0 then ttl >= SECOND else current == 0
    else true
  }

  /** The hash after the script answered with the value, and the ideal entry with deadline `t`, still fit together. */
  ghost predicate Fits(h': R.Hash, v: View, key: Key, t: Time, now: Time)
    requires key in v
  {
    WholeHash(h') && !Item(v[key].value, t).Expired(now) && SameKey(h', v[key := Item(v[key].value, t)], key, now)
  }

  /** A new deadline sent as an instant. */
  lemma InstantAgreesIff(h: R.Hash, v: View, key: Key, t: Time, now: Time)
    requires WholeNow(now) && SameKey(h, v, key, now) && WholeHash(h) && Live(v, key, now)
    ensures WholeHash(R.RunScript(h, key, false, Unix(t), 0, now).0)
    ensures Fits(R.RunScript(h, key, false, Unix(t), 0, now).0, v, key, t, now)
            <==> t >= now + SECOND || (t == 0 && v[key].validUntil == 0)
  {}

  /** A TTL from now, sent as an instant. */
  lemma TTLAgreesIff(h: R.Hash, v: View, key: Key, d: Duration, now: Time)
    requires WholeNow(now) && SameKey(h, v, key, now) && WholeHash(h) && Live(v, key, now)
    ensures WholeHash(R.RunScript(h, key, false, Unix(now + d), 0, now).0)
    ensures Fits(R.RunScript(h, key, false, Unix(now + d), 0, now).0, v, key, now + d, now) <==> d >= SECOND
  {}

  /** A script that is sent neither an instant nor an extension leaves the entry alone. */
  lemma NoChangeAgreesIff(h: R.Hash, v: View, key: Key, t: Time, delta: int, now: Time)
    requires WholeNow(now) && SameKey(h, v, key, now) && WholeHash(h) && Live(v, key, now) && delta <= 0
    ensures R.RunScript(h, key, false, 0, delta, now).0 == h
    ensures var current := v[key].validUntil;
            Fits(h, v, key, t, now) <==> (t == 0 <==> current == 0) && (t != 0 ==> Unix(t) == Unix(current))
  {}

  /** The deadline moves by the seconds left after truncation exactly when no second is crossed below them. */
  lemma SecondsMovedIff(current: Time, d: Duration)
    requires current != 0
    ensures var added := if TruncatedSeconds(d) > 0 then TruncatedSeconds(d) else 0;
            Unix(current + d) == Unix(current) + added <==> ExtensionFragment(d, current)
  {}

  /** On whole seconds `HTTL` is exact, so the script adds just the seconds it is sent. */
  lemma ScriptAddsSeconds(h: R.Hash, v: View, key: Key, seconds: int, now: Time)
    requires WholeNow(now) && SameKey(h, v, key, now) && WholeHash(h) && Live(v, key, now) && seconds > 0
    ensures var h' := R.RunScript(h, key, false, 0, seconds, now).0;
            var start := if v[key].validUntil == 0 then now else FromUnix(Unix(v[key].validUntil));
            && WholeHash(h') && start + seconds * SECOND > now
            && h' == h[key := R.Field(v[key].value, Some(start + seconds * SECOND))]
  {
    if v[key].validUntil != 0 {
      assert R.HTtl(h, key, now) * SECOND == h[key].expiry.value - now;
    }
  }

  /** An extension by the seconds left after truncation. */
  lemma ExtensionAgreesIff(h: R.Hash, v: View, key: Key, d: Duration, now: Time)
    requires WholeNow(now) && SameKey(h, v, key, now) && WholeHash(h) && Live(v, key, now)
    ensures WholeHash(R.RunScript(h, key, false, 0, TruncatedSeconds(d), now).0)
    ensures var current := v[key].validUntil;
            Fits(R.RunScript(h, key, false, 0, TruncatedSeconds(d), now).0, v, key,
                 if current == 0 then now + d else current + d, now)
            <==> ExtensionFragment(d, current)
  {
    var current, seconds := v[key].validUntil, TruncatedSeconds(d);
    if current != 0 {
      SecondsMovedIff(current, d);
    }
    if seconds <= 0 {
      NoChangeAgreesIff(h, v, key, if current == 0 then now + d else current + d, seconds, now);
    } else {
      ScriptAddsSeconds(h, v, key, seconds, now);
    }
  }

  /** A read with options that keeps a live entry: same answer and same entry, exactly in the fragment. */
  lemma RewriteAgreesIff(h: R.Hash, v: View, key: Key, o: GetRecord, now: Time, ttl: Duration)
    requires WholeNow(now) && SameKey(h, v, key, now) && WholeHash(h)
    requires Live(v, key, now) && !o.delete && !o.IsEmpty()
    ensures var (h', res) := R.GetField(h, key, o, now, ttl);
            var e := EffectOf(o, v[key].validUntil, now, ttl);
            && e.Rewrite? && WholeHash(h') && res == Ok(v[key].value)
            && (Fits(h', v, key, e.validUntil, now) <==> ReadFragment(o, v[key].validUntil, now, ttl))
  {
    var t := EffectOf(o, v[key].validUntil, now, ttl).validUntil;
    if o.validUntil.Some? {
      InstantAgreesIff(h, v, key, t, now);
    } else if o.setTTL.Some? {
      TTLAgreesIff(h, v, key, o.setTTL.value, now);
    } else if o.updateTTL.Some? {
      ExtensionAgreesIff(h, v, key, o.updateTTL.value, now);
    } else if ttl > 0 {
      TTLAgreesIff(h, v, key, ttl, now);
    } else {
      NoChangeAgreesIff(h, v, key, t, 0, now);
    }
  }

  // ----- whole calls -----

  /** A call all of whose clock readings are `now`. */
  predicate Instant(op: Op, now: Time) {
    match op
    case Set(_, _, _, at) => at == now
    case SetOrFail(_, _, _, check, at) => check == now && at == now
    case Get(_, _, first, second) => first == now && second == now
    case Delete(_) => true
    case Cleanup(t) => t == now
    case Drain(t) => t == now
  }

  predicate InFragment(v: View, op: Op, ttl: Duration, now: Time) {
    match op
    case Set(_, _, opts, _) => StoreFragment(NewDeadline(ttl, opts, now), now)
    case SetOrFail(key, _, opts, _, _) => Live(v, key, now) || StoreFragment(NewDeadline(ttl, opts, now), now)
    case Get(key, opts, _, _) => Live(v, key, now) ==> ReadFragment(Fold(opts), v[key].validUntil, now, ttl)
    case _ => true
  }

  function ErrorResponse(error: Option<Error>): Response {
    if error == None then Done else Failed(error.value)
  }

  /** The call as `RedisCache` performs it. */
  function RedisApply(h: R.Hash, op: Op, ttl: Duration, now: Time): (R.Hash, Response) {
    match op
    case Set(key, value, opts, _) =>
      var (h', error) := R.Store(h, key, value, NewDeadline(ttl, opts, now), now);
      (h', ErrorResponse(error))
    case SetOrFail(key, value, opts, _, _) =>
      if R.Visible(h, key, now) then (h, Failed(KeyExists))
      else
        var (h', error) := R.Store(h, key, value, NewDeadline(ttl, opts, now), now);
        (h', ErrorResponse(error))
    case Get(key, opts, _, _) =>
      var (h', res) := R.GetField(h, key, Fold(opts), now, ttl);
      (h', ToResponse(res))
    case Delete(key) => (h - {key}, Done)
    case Cleanup(_) => (h, Done)
    case Drain(_) => (if R.VisibleValues(h, now) == map[] then h else map[], Drained(R.VisibleValues(h, now)))
  }

  /** A deadline before 1970 is refused, unless the key is taken; every other store is answered as done. */
  lemma RefusalIsAnswered(h: R.Hash, key: Key, value: Bytes, opts: seq<SetOption>, ttl: Duration, now: Time)
    ensures var deadline := NewDeadline(ttl, opts, now);
            var answer := if deadline != 0 && deadline < UNIX_EPOCH then Failed(InvalidExpireTime) else Done;
            && RedisApply(h, Set(key, value, opts, now), ttl, now).1 == answer
            && RedisApply(h, SetOrFail(key, value, opts, now, now), ttl, now).1 ==
               if R.Visible(h, key, now) then Failed(KeyExists) else answer
  {
    UnixRoundsDown(NewDeadline(ttl, opts, now));
  }

  /** One call: same response and agreement afterwards, exactly in the fragment. */
  lemma CallAgreesIff(h: R.Hash, v: View, op: Op, ttl: Duration, now: Time)
    requires WholeNow(now) && Agree(h, v, now) && WholeHash(h) && Instant(op, now)
    ensures WholeHash(RedisApply(h, op, ttl, now).0)
    ensures RedisApply(h, op, ttl, now).1 == Apply(v, op, ttl).1
              && Agree(RedisApply(h, op, ttl, now).0, Apply(v, op, ttl).0, now)
            <==> InFragment(v, op, ttl, now)
  {
    match op
    case Set(key, value, opts, _) => StoreAgreesIff(h, v, key, value, NewDeadline(ttl, opts, now), now);
    case SetOrFail(key, value, opts, _, _) =>
      assert SameKey(h, v, key, now);
      StoreAgreesIff(h, v, key, value, NewDeadline(ttl, opts, now), now);
    case Get(key, opts, _, _) => GetAgreesIff(h, v, key, opts, ttl, now);
    case Delete(key) => OtherKeysAgree(h, h - {key}, v, v - {key}, key, now);
    case Cleanup(_) =>
    case Drain(_) => DrainAgrees(h, v, ttl, now);
  }

  lemma GetAgreesIff(h: R.Hash, v: View, key: Key, opts: seq<GetOption>, ttl: Duration, now: Time)
    requires WholeNow(now) && Agree(h, v, now) && WholeHash(h)
    ensures var (h', res) := R.GetField(h, key, Fold(opts), now, ttl);
            var (v', response) := Apply(v, Get(key, opts, now, now), ttl);
            && WholeHash(h')
            && (ToResponse(res) == response && Agree(h', v', now)
                <==> (Live(v, key, now) ==> ReadFragment(Fold(opts), v[key].validUntil, now, ttl)))
  {
    var o := Fold(opts);
    EmptyRecordIffNoOptions(opts);
    assert SameKey(h, v, key, now);
    var (h', res) := R.GetField(h, key, o, now, ttl);
    var (v', response) := Apply(v, Get(key, opts, now, now), ttl);
    if Live(v, key, now) && opts != [] {
      assert h' - {key} == h - {key} && v' - {key} == v - {key};
      OtherKeysAgree(h, h', v, v', key, now);
      if !o.delete {
        RewriteAgreesIff(h, v, key, o, now, ttl);
      }
    }
  }

  lemma DrainAgrees(h: R.Hash, v: View, ttl: Duration, now: Time)
    requires Agree(h, v, now)
    ensures RedisApply(h, Drain(now), ttl, now).1 == Apply(v, Drain(now), ttl).1
    ensures Agree(RedisApply(h, Drain(now), ttl, now).0, map[], now)
  {
    var out, out' := R.VisibleValues(h, now), Apply(v, Drain(now), ttl).1.out;
    forall k
      ensures (k in out <==> k in out') && (k in out ==> out[k] == out'[k])
    {
      assert SameKey(h, v, k, now);
    }
    assert out == out';
    forall k
      ensures SameKey(RedisApply(h, Drain(now), ttl, now).0, map[], k, now)
    {
      if out == map[] {
        assert k !in out;
      }
    }
  }

  /** One call, in answers only: its own response and every plain read after it are alike, exactly in the fragment. */
  lemma CallAnswersAlikeIff(h: R.Hash, v: View, op: Op, ttl: Duration, now: Time)
    requires WholeNow(now) && ReadsAgree(h, v, now) && WholeHash(h) && Instant(op, now)
    ensures WholeHash(RedisApply(h, op, ttl, now).0)
    ensures RedisApply(h, op, ttl, now).1 == Apply(v, op, ttl).1
              && ReadsAgree(RedisApply(h, op, ttl, now).0, Apply(v, op, ttl).0, now)
            <==> InFragment(v, op, ttl, now)
  {
    AgreeIffReadsAgree(h, v, now);
    CallAgreesIff(h, v, op, ttl, now);
    AgreeIffReadsAgree(RedisApply(h, op, ttl, now).0, Apply(v, op, ttl).0, now);
  }

  // ----- sequences of calls -----

  /** Calls made at whole seconds that do not go back in time. */
  predicate Synchronous(ops: seq<Op>, times: seq<Time>) {
    && |times| == |ops|
    && (forall i :: 0 <= i < |ops| ==> Instant(ops[i], times[i]) && WholeNow(times[i]))
    && (forall i, j :: 0 <= i < j < |times| ==> times[i] <= times[j])
  }

  predicate RunInFragment(v: View, ops: seq<Op>, times: seq<Time>, ttl: Duration)
    requires |times| == |ops|
    decreases |ops|
  {
    ops == [] ||
    (InFragment(v, ops[0], ttl, times[0]) && RunInFragment(Apply(v, ops[0], ttl).0, ops[1..], times[1..], ttl))
  }

  function RedisResponses(h: R.Hash, ops: seq<Op>, times: seq<Time>, ttl: Duration): (rs: seq<Response>)
    requires |times| == |ops|
    ensures |rs| == |ops|
    decreases |ops|
  {
    if ops == [] then []
    else
      var (h', response) := RedisApply(h, ops[0], ttl, times[0]);
      [response] + RedisResponses(h', ops[1..], times[1..], ttl)
  }

  lemma {:induction false} RedisAnswersAsIdeal(h: R.Hash, v: View, ops: seq<Op>, times: seq<Time>, ttl: Duration)
    requires Synchronous(ops, times) && RunInFragment(v, ops, times, ttl)
    requires WholeHash(h) && (ops != [] ==> Agree(h, v, times[0]))
    ensures RedisResponses(h, ops, times, ttl) == Responses(v, ops, ttl)
    decreases |ops|
  {
    if ops != [] {
      CallAgreesIff(h, v, ops[0], ttl, times[0]);
      var h', v' := RedisApply(h, ops[0], ttl, times[0]).0, Apply(v, ops[0], ttl).0;
      if |ops| > 1 {
        AgreementLasts(h', v', times[0], times[1]);
      }
      RedisAnswersAsIdeal(h', v', ops[1..], times[1..], ttl);
    }
  }

  /** Along the whole sequence no response differs, and after no call would a plain read be answered differently. */
  ghost predicate NeverTellApart(h: R.Hash, v: View, ops: seq<Op>, times: seq<Time>, ttl: Duration)
    requires |times| == |ops|
    decreases |ops|
  {
    ops == [] ||
    var (h', response) := RedisApply(h, ops[0], ttl, times[0]);
    var (v', ideal) := Apply(v, ops[0], ttl);
    response == ideal && ReadsAgree(h', v', times[0]) && NeverTellApart(h', v', ops[1..], times[1..], ttl)
  }

  /** The fragment is exact for sequences too: outside it some response or some plain read tells the backends apart. */
  lemma {:induction false} NeverTellApartIff(h: R.Hash, v: View, ops: seq<Op>, times: seq<Time>, ttl: Duration)
    requires Synchronous(ops, times) && WholeHash(h) && (ops != [] ==> ReadsAgree(h, v, times[0]))
    ensures NeverTellApart(h, v, ops, times, ttl) <==> RunInFragment(v, ops, times, ttl)
    decreases |ops|
  {
    if ops != [] {
      CallAnswersAlikeIff(h, v, ops[0], ttl, times[0]);
      var h', v' := RedisApply(h, ops[0], ttl, times[0]).0, Apply(v, ops[0], ttl).0;
      if ReadsAgree(h', v', times[0]) {
        NeverTellApartIff(h', v', ops[1..], times[1..], ttl);
      }
    }
  }

  // ----- a fragment that needs no knowledge of the state -----

  predicate SetOptionOk(opt: SetOption, now: Time) {
    match opt
    case WithTTL(d) => d == 0 || d >= SECOND
    case WithValidUntil(t) => t == 0 || t >= now + SECOND
  }

  predicate GetOptionOk(opt: GetOption, ttl: Duration, now: Time) {
    match opt
    case AndSetTTL(d) => d >= SECOND
    case AndUpdateTTL(d) => d > 0 && Whole(d)
    case AndSetValidUntil(t) => t >= now + SECOND
    case AndDefaultTTL => ttl > 0
    case AndDelete => true
  }

  predicate CallOk(op: Op, ttl: Duration, now: Time) {
    match op
    case Set(_, _, opts, _) => forall o :: o in opts ==> SetOptionOk(o, now)
    case SetOrFail(_, _, opts, _, _) => forall o :: o in opts ==> SetOptionOk(o, now)
    case Get(_, opts, _, _) => forall o :: o in opts ==> GetOptionOk(o, ttl, now)
    case _ => true
  }

  lemma CallOkIsInFragment(v: View, op: Op, ttl: Duration, now: Time)
    requires WholeNow(now) && Instant(op, now) && CallOk(op, ttl, now) && (ttl > 0 ==> ttl >= SECOND)
    ensures InFragment(v, op, ttl, now)
  {
    match op
    case Set(_, _, opts, _) => assert opts != [] ==> SetOptionOk(opts[|opts| - 1], now);
    case SetOrFail(_, _, opts, _, _) => assert opts != [] ==> SetOptionOk(opts[|opts| - 1], now);
    case Get(_, opts, _, _) => FoldIsLastOfEachKind(opts);
    case _ =>
  }

  lemma {:induction false} RunOkIsInFragment(v: View, ops: seq<Op>, times: seq<Time>, ttl: Duration)
    requires Synchronous(ops, times) && (ttl > 0 ==> ttl >= SECOND)
    requires forall i :: 0 <= i < |ops| ==> CallOk(ops[i], ttl, times[i])
    ensures RunInFragment(v, ops, times, ttl)
    decreases |ops|
  {
    if ops != [] {
      CallOkIsInFragment(v, ops[0], ttl, times[0]);
      RunOkIsInFragment(Apply(v, ops[0], ttl).0, ops[1..], times[1..], ttl);
    }
  }

  // ----- the two backends -----

  method Perform(c: R.RedisCache, op: Op, now: Time) returns (response: Response)
    requires Instant(op, now)
    modifies c.hash
    ensures (c.hash.fields, response) == RedisApply(old(c.hash.fields), op, c.ttl, now)
  {
    match op
    case Set(key, value, opts, _) =>
      var error := c.Set(key, value, opts, now);
      response := ErrorResponse(error);
    case SetOrFail(key, value, opts, _, _) =>
      var error := c.SetOrFail(key, value, opts, now);
      response := ErrorResponse(error);
    case Get(key, opts, _, _) =>
      var res := c.Get(key, opts, now);
      response := ToResponse(res);
    case Delete(key) =>
      c.Delete(key);
      response := Done;
    case Cleanup(_) =>
      response := Done;
    case Drain(_) =>
      var out := c.Drain(now);
      response := Drained(out);
  }

  method Replay(ops: seq<Op>, times: seq<Time>, ttl: Duration) returns (responses: seq<Response>)
    requires Synchronous(ops, times)
    ensures responses == RedisResponses(map[], ops, times, ttl)
  {
    var hash := new R.RedisHash();
    var c := new R.RedisCache(hash, ttl);
    responses := [];
    for i := 0 to |ops|
      invariant fresh(hash) && c.hash == hash && c.ttl == ttl
      invariant RedisResponses(map[], ops, times, ttl)
                == responses + RedisResponses(hash.fields, ops[i..], times[i..], ttl)
    {
      assert ops[i..][1..] == ops[i + 1..] && times[i..][1..] == times[i + 1..];
      var response := Perform(c, ops[i], times[i]);
      responses := responses + [response];
    }
  }

  lemma {:induction false} SynchronousIsInOrder(ops: seq<Op>, times: seq<Time>, now: Time)
    requires Synchronous(ops, times) && (ops != [] ==> now <= times[0])
    ensures AllInOrder(ops, now)
    decreases |ops|
  {
    if ops != [] {
      SynchronousIsInOrder(ops[1..], times[1..], After(ops[0], now));
    }
  }

  /** The two backends give the same responses to every sequence of calls in the fragment. */
  method CompareBackends(ops: seq<Op>, times: seq<Time>, ttl: Duration)
    returns (fromMemory: seq<Response>, fromRedis: seq<Response>)
    requires Synchronous(ops, times) && RunInFragment(map[], ops, times, ttl)
    ensures fromMemory == fromRedis == Responses(map[], ops, ttl)
  {
    SynchronousIsInOrder(ops, times, 0);
    fromMemory := MemoryIsIdeal.Replay(ops, ttl, 0);
    if ops != [] {
      assert Agree(map[], map[], times[0]);
    }
    RedisAnswersAsIdeal(map[], map[], ops, times, ttl);
    fromRedis := Replay(ops, times, ttl);
  }
}
