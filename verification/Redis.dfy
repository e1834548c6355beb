/**
 The Redis backend: the two Lua scripts, the argument computation and the flat-array decoding, over a hash whose fields
 can expire. What is assumed of the server: a field is readable up to and including its deadline; `HSET` and a
 successful `HSETNX` clear it; `HEXPIREAT` and `HEXPIRE` ignore missing fields and delete the field when the deadline is
 not in the future; `HEXPIREAT` refuses negative instants; `HTTL` is -2, -1 or the remaining seconds, rounded up. The
 server also refuses expiry instants above an upper bound thousands of years ahead; that bound is not modelled.
 */
module Redis {
  import opened Common
  import opened Clock
  import opened Options

  /** A field and its deadline, in the nanoseconds of module `Clock`. */
  datatype Field = Field(value: Bytes, expiry: Option<Time>)

  type Hash = map<Key, Field>

  // ----- the server's commands, on values -----

  predicate Visible(h: Hash, f: Key, now: Time) {
    f in h && (h[f].expiry == None || now <= h[f].expiry.value)
  }

  function VisibleValues(h: Hash, now: Time): map<Key, Bytes> {
    map f | f in h && Visible(h, f, now) :: h[f].value
  }

  function Expire(h: Hash, f: Key, deadline: Time, now: Time): Hash {
    if !Visible(h, f, now) then h
    else if deadline <= now then h - {f}
    else h[f := Field(h[f].value, Some(deadline))]
  }

  function HTtl(h: Hash, f: Key, now: Time): int {
    if !Visible(h, f, now) then -2
    else if h[f].expiry == None then -1
    else (h[f].expiry.value - now + SECOND - 1) / SECOND
  }

  // ----- the script of a read with options, on values -----

  /** The script's arguments: an instant in Unix seconds and a number of seconds to add; 0 stands for absent. */
  function ScriptArgs(o: GetRecord, now: Time, ttl: Duration): (int, int) {
    if o.validUntil.Some? then (Unix(o.validUntil.value), 0)
    else if o.setTTL.Some? then (Unix(now + o.setTTL.value), 0)
    else if o.updateTTL.Some? then (0, TruncatedSeconds(o.updateTTL.value))
    else if o.defaultTTL && ttl > 0 then (Unix(now + ttl), 0)
    else (0, 0)
  }

  function RunScript(h: Hash, f: Key, delete: bool, instant: int, delta: int, now: Time): (Hash, Option<Bytes>) {
    if !Visible(h, f, now) then (h, None)
    else if delete then (h - {f}, Some(h[f].value))
    else if instant > 0 then (Expire(h, f, FromUnix(instant), now), Some(h[f].value))
    else if delta > 0 then
      var ttl := HTtl(h, f, now);
      (Expire(h, f, now + ((if ttl < 0 then 0 else ttl) + delta) * SECOND, now), Some(h[f].value))
    else (h, Some(h[f].value))
  }

  function FoundOr(v: Option<Bytes>): Result<Bytes> {
    if v.Some? then Ok(v.value) else Err(KeyNotFound)
  }

  /** A whole `Get`. */
  function GetField(h: Hash, f: Key, o: GetRecord, now: Time, ttl: Duration): (Hash, Result<Bytes>) {
    if o.IsEmpty() then (h, if Visible(h, f, now) then Ok(h[f].value) else Err(KeyNotFound))
    else
      var (instant, delta) := ScriptArgs(o, now, ttl);
      var (h', v) := RunScript(h, f, o.delete, instant, delta, now);
      (h', FoundOr(v))
  }

  /** `HSET`, then `HEXPIREAT` when the deadline is not zero. */
  function Store(h: Hash, f: Key, value: Bytes, deadline: Time, now: Time): (Hash, Option<Error>) {
    var h' := h[f := Field(value, None)];
    if deadline == 0 then (h', None)
    else if Unix(deadline) < 0 then (h', Some(InvalidExpireTime))
    else (Expire(h', f, FromUnix(Unix(deadline)), now), None)
  }

  // ----- the flat array of HGETALL -----

  /** A listing of a map as alternating fields and values, in the order of `fields`. */
  function Flatten(fields: seq<Key>, m: map<Key, Bytes>): (flat: seq<Bytes>)
    requires forall f :: f in fields ==> f in m
    ensures |flat| == 2 * |fields|
  {
    if fields == [] then [] else [fields[0], m[fields[0]]] + Flatten(fields[1..], m)
  }

  /** Pairs read from the front, later ones winning. */
  function Decode(flat: seq<Bytes>): map<Key, Bytes>
    requires |flat| % 2 == 0
    decreases |flat|
  {
    if flat == [] then map[] else map[flat[0] := flat[1]] + Decode(flat[2..])
  }

  ghost predicate Enumerates(fields: seq<Key>, m: map<Key, Bytes>) {
    && (forall f :: f in fields <==> f in m)
    && (forall i, j :: 0 <= i < j < |fields| ==> fields[i] != fields[j])
  }

  /** Whatever the order of the listing, decoding it gives the map back. */
  lemma FlatArrayRoundTrip(fields: seq<Key>, m: map<Key, Bytes>)
    requires Enumerates(fields, m)
    ensures Decode(Flatten(fields, m)) == m
  {
    DecodeFlatten(fields, m);
  }

  lemma {:induction false} DecodeFlatten(fields: seq<Key>, m: map<Key, Bytes>)
    requires forall f :: f in fields ==> f in m
    ensures Decode(Flatten(fields, m)) == map f | f in fields :: m[f]
  {
    if fields != [] {
      DecodeFlatten(fields[1..], m);
      assert Flatten(fields, m)[2..] == Flatten(fields[1..], m);
      assert forall f :: f in fields <==> f == fields[0] || f in fields[1..];
    }
  }

  lemma {:induction false} DecodeAppend(flat: seq<Bytes>, f: Bytes, v: Bytes)
    requires |flat| % 2 == 0
    ensures Decode(flat + [f, v]) == Decode(flat)[f := v]
    decreases |flat|
  {
    if flat == [] {
      assert Decode([f, v]) == map[f := v] + Decode([f, v][2..]);
    } else {
      assert (flat + [f, v])[2..] == flat[2..] + [f, v];
      DecodeAppend(flat[2..], f, v);
    }
  }

  // ----- the server and the client as they run -----

  /** The hash on the server, changed by one command at a time. */
  class RedisHash {
    var fields: Hash

    constructor ()
      ensures fields == map[]
    {
      fields := map[];
    }

    method HGet(f: Key, now: Time) returns (v: Option<Bytes>)
      ensures v == if Visible(fields, f, now) then Some(fields[f].value) else None
    {
      v := if Visible(fields, f, now) then Some(fields[f].value) else None;
    }

    method HSet(f: Key, value: Bytes)
      modifies this
      ensures fields == old(fields)[f := Field(value, None)]
    {
      fields := fields[f := Field(value, None)];
    }

    method HSetNX(f: Key, value: Bytes, now: Time) returns (ok: bool)
      modifies this
      ensures ok <==> !Visible(old(fields), f, now)
      ensures fields == if ok then old(fields)[f := Field(value, None)] else old(fields)
    {
      ok := !Visible(fields, f, now);
      if ok {
        fields := fields[f := Field(value, None)];
      }
    }

    method HDel(f: Key)
      modifies this
      ensures fields == old(fields) - {f}
    {
      fields := fields - {f};
    }

    method HExpireAt(f: Key, instant: int, now: Time) returns (error: Option<Error>)
      modifies this
      ensures error == if instant < 0 then Some(InvalidExpireTime) else None
      ensures fields == if instant < 0 then old(fields) else Expire(old(fields), f, FromUnix(instant), now)
    {
      if instant < 0 {
        return Some(InvalidExpireTime);
      }
      fields := Expire(fields, f, FromUnix(instant), now);
      return None;
    }

    method HExpire(f: Key, seconds: nat, now: Time)
      modifies this
      ensures fields == Expire(old(fields), f, now + seconds * SECOND, now)
    {
      fields := Expire(fields, f, now + seconds * SECOND, now);
    }

    /** The reply lists the visible fields in an order of the server's choosing. */
    method HGetAll(now: Time) returns (flat: seq<Bytes>, ghost order: seq<Key>)
      ensures Enumerates(order, VisibleValues(fields, now))
      ensures flat == Flatten(order, VisibleValues(fields, now))
    {
      var all := VisibleValues(fields, now);
      var pending := all.Keys;
      flat, order := [], [];
      while pending != {}
        invariant pending <= all.Keys
        invariant forall f :: f in order <==> f in all && f !in pending
        invariant forall i, j :: 0 <= i < j < |order| ==> order[i] != order[j]
        invariant flat == Flatten(order, all)
        decreases pending
      {
        var f :| f in pending;
        pending := pending - {f};
        FlattenAppend(order, f, all);
        flat := flat + [f, all[f]];
        order := order + [f];
      }
    }

    static lemma {:induction false} FlattenAppend(order: seq<Key>, f: Key, m: map<Key, Bytes>)
      requires f in m && forall g :: g in order ==> g in m
      ensures Flatten(order + [f], m) == Flatten(order, m) + [f, m[f]]
    {
      if order != [] {
        assert (order + [f])[1..] == order[1..] + [f];
        FlattenAppend(order[1..], f, m);
      }
    }

    /** The script behind `Drain`. */
    method HGetAllAndDelete(now: Time) returns (flat: seq<Bytes>, ghost order: seq<Key>)
      modifies this
      ensures Enumerates(order, VisibleValues(old(fields), now))
      ensures flat == Flatten(order, VisibleValues(old(fields), now))
      ensures fields == if flat == [] then old(fields) else map[]
    {
      flat, order := HGetAll(now);
      if |flat| > 0 {
        fields := map[];
      }
    }

    /** The script behind a read with options. */
    method GetAndUpdateTTL(f: Key, deleteFlag: bool, ttlTs: int, ttlDelta: int, now: Time) returns (v: Option<Bytes>)
      modifies this
      ensures (fields, v) == RunScript(old(fields), f, deleteFlag, ttlTs, ttlDelta, now)
    {
      v := HGet(f, now);
      if v == None {
        return;
      }
      if deleteFlag {
        HDel(f);
        return;
      }
      if ttlTs > 0 {
        var _ := HExpireAt(f, ttlTs, now);
      } else if ttlDelta > 0 {
        var ttl := HTtl(fields, f, now);
        if ttl < 0 {
          ttl := 0;
        }
        HExpire(f, ttl + ttlDelta, now);
      }
    }
  }

  /** The client. Every call reads one clock, which is also the server's. */
  class RedisCache {
    const hash: RedisHash
    const ttl: Duration

    constructor (hash: RedisHash, ttl: Duration)
      ensures this.hash == hash && this.ttl == ttl
    {
      this.hash, this.ttl := hash, ttl;
    }

    method Deadline(opts: seq<SetOption>, now: Time) returns (validUntil: Time)
      ensures validUntil == NewDeadline(ttl, opts, now)
    {
      var o := new SetOptions(0);
      if ttl > 0 {
        o.validUntil := now + ttl;
      }
      o.Apply(opts, seq(|opts|, _ => now));
      validUntil := o.validUntil;
    }

    method Set(key: Key, value: Bytes, opts: seq<SetOption>, now: Time) returns (error: Option<Error>)
      modifies hash
      ensures (hash.fields, error) == Store(old(hash.fields), key, value, NewDeadline(ttl, opts, now), now)
    {
      var validUntil := Deadline(opts, now);
      hash.HSet(key, value);
      error := None;
      if validUntil != 0 {
        error := hash.HExpireAt(key, Unix(validUntil), now);
      }
    }

    method SetOrFail(key: Key, value: Bytes, opts: seq<SetOption>, now: Time) returns (error: Option<Error>)
      modifies hash
      ensures if Visible(old(hash.fields), key, now) then hash.fields == old(hash.fields) && error == Some(KeyExists)
              else (hash.fields, error) == Store(old(hash.fields), key, value, NewDeadline(ttl, opts, now), now)
    {
      var ok := hash.HSetNX(key, value, now);
      if !ok {
        return Some(KeyExists);
      }
      var validUntil := Deadline(opts, now);
      error := None;
      if validUntil != 0 {
        error := hash.HExpireAt(key, Unix(validUntil), now);
      }
    }

    method Get(key: Key, opts: seq<GetOption>, now: Time) returns (res: Result<Bytes>)
      modifies hash
      ensures (hash.fields, res) == GetField(old(hash.fields), key, Fold(opts), now, ttl)
    {
      var o := new GetOptions();
      o.Apply(opts);
      if o.Record().IsEmpty() {
        var val := hash.HGet(key, now);
        return FoundOr(val);
      }

      var ttlTimestamp, ttlDelta := 0, 0;
      if o.validUntil.Some? {
        ttlTimestamp := Unix(o.validUntil.value);
      } else if o.setTTL.Some? {
        ttlTimestamp := Unix(now + o.setTTL.value);
      } else if o.updateTTL.Some? {
        ttlDelta := TruncatedSeconds(o.updateTTL.value);
      } else if o.defaultTTL {
        if ttl > 0 {
          ttlTimestamp := Unix(now + ttl);
        }
      }

      var value := hash.GetAndUpdateTTL(key, o.delete, ttlTimestamp, ttlDelta, now);
      return FoundOr(value);
    }

    method Delete(key: Key)
      modifies hash
      ensures hash.fields == old(hash.fields) - {key}
    {
      hash.HDel(key);
    }

    /** The stride-two loop over the script's reply. */
    method DecodeReply(arr: seq<Bytes>) returns (out: map<Key, Bytes>)
      requires |arr| % 2 == 0
      ensures out == Decode(arr)
    {
      out := map[];
      var i := 0;
      while i < |arr|
        invariant 0 <= i <= |arr| && i % 2 == 0
        invariant out == Decode(arr[..i])
      {
        assert arr[..i + 2] == arr[..i] + [arr[i], arr[i + 1]];
        DecodeAppend(arr[..i], arr[i], arr[i + 1]);
        out := out[arr[i] := arr[i + 1]];
        i := i + 2;
      }
      assert arr[..i] == arr;
    }

    /** Returns every field the script removed: the stride-two loop undoes the server's listing. */
    method Drain(now: Time) returns (out: map<Key, Bytes>)
      modifies hash
      ensures out == VisibleValues(old(hash.fields), now)
      ensures hash.fields == if out == map[] then old(hash.fields) else map[]
    {
      ghost var all := VisibleValues(hash.fields, now);
      var arr, order := hash.HGetAllAndDelete(now);
      out := DecodeReply(arr);
      FlatArrayRoundTrip(order, all);
      if arr == [] {
        assert out == map[];
      } else {
        assert order[0] in out;
      }
    }
  }

  // ----- rounding -----

  /** The read sets its deadline by an exact instant, a TTL from now, or a positive default TTL. */
  predicate SendsInstant(o: GetRecord, ttl: Duration) {
    o.validUntil.Some? || o.setTTL.Some? || (o.updateTTL == None && o.defaultTTL && ttl > 0)
  }

  /** The deadline in whole seconds that the script is sent is never later than the exact one, nor a second earlier. */
  lemma SentDeadlineRoundsDown(o: GetRecord, current: Time, now: Time, ttl: Duration)
    requires !o.delete && SendsInstant(o, ttl)
    ensures EffectOf(o, current, now, ttl).Rewrite?
    ensures var exact := EffectOf(o, current, now, ttl).validUntil;
            var (instant, delta) := ScriptArgs(o, now, ttl);
            && delta == 0 && FromUnix(instant) <= exact < FromUnix(instant) + SECOND
            && (instant > 0 <==> exact >= FromUnix(1))
  {}

  /** The same for the deadline of a stored field, and for every deadline after 1970 one is sent. */
  lemma StoredDeadlineRoundsDown(h: Hash, f: Key, value: Bytes, deadline: Time, now: Time)
    requires deadline >= UNIX_EPOCH && Visible(Store(h, f, value, deadline, now).0, f, now)
    ensures var (h', error) := Store(h, f, value, deadline, now);
            && error == None && h'[f].expiry.Some?
            && h'[f].expiry.value <= deadline < h'[f].expiry.value + SECOND
  {}

  /** An extension loses less than a second to truncation, and gains less than a second from the rounded `HTTL`. */
  lemma ExtensionIsOffByLessThanASecond(h: Hash, f: Key, d: Duration, now: Time)
    requires Visible(h, f, now) && h[f].expiry.Some? && d > 0
    ensures var o := NOTHING.With(AndUpdateTTL(d));
            var h' := GetField(h, f, o, now, 0).0;
            var exact := h[f].expiry.value + d;
            f in h' && h'[f].expiry.Some? && exact - SECOND < h'[f].expiry.value < exact + SECOND
  {}

  /** A permanent field gets a deadline from an extension of at least a second; a shorter one leaves it permanent. */
  lemma ExtensionOfPermanentField(h: Hash, f: Key, d: Duration, now: Time)
    requires Visible(h, f, now) && h[f].expiry == None
    ensures var o := NOTHING.With(AndUpdateTTL(d));
            var h' := GetField(h, f, o, now, 0).0;
            f in h' && h'[f].expiry == if d >= SECOND then Some(now + (d / SECOND) * SECOND) else None
  {}

  // ----- what a reader sees afterwards -----

  /** `s` is the last whole second that is not after `t`. */
  predicate LastSecond(s: Time, t: Time) {
    Whole(s) && s <= t < s + SECOND
  }

  /** A stored field can be read through the last second before its deadline, and not at all if that is not ahead. */
  lemma StoredFieldIsSeen(
    h: Hash, f: Key, value: Bytes, deadline: Time, s: Time, now: Time, later: Time)
    requires LastSecond(s, deadline) && now <= later
    ensures var (h', error) := Store(h, f, value, deadline, now);
            var refused := deadline != 0 && deadline < UNIX_EPOCH;
            && error == (if refused then Some(InvalidExpireTime) else None)
            && h' - {f} == h - {f}
            && (Visible(h', f, later) <==> deadline == 0 || refused || (now < s && later <= s))
            && (Visible(h', f, later) ==> h'[f].value == value)
  {}

  /** Until when a visible field was to be read, in seconds from `now`, rounded up; `w` whole seconds. */
  predicate SecondsLeft(field: Field, now: Time, w: int) {
    field.expiry.Some? && (w - 1) * SECOND < field.expiry.value - now <= w * SECOND
  }

  /** A deadline sent as an instant counts from the first second after 1970 on; an earlier one changes nothing. */
  predicate SeenUntil(h: Hash, f: Key, t: Time, s: Time, now: Time, later: Time) {
    if t >= FromUnix(1) then now < s && later <= s else Visible(h, f, later)
  }

  /**
   What can be read of a visible field after a read applied option `opt` to it at `now`: the deadline asked for is cut
   to its last second `s`, and an extension adds its whole seconds to the `w` seconds left, if there are any.
   */
  predicate SeenAfter(
    h: Hash, f: Key, opt: GetOption, s: Time, w: int, now: Time, ttl: Duration, later: Time)
    requires f in h
  {
    match opt
    case AndDelete => false
    case AndSetValidUntil(t) => SeenUntil(h, f, t, s, now, later)
    case AndSetTTL(d) => SeenUntil(h, f, now + d, s, now, later)
    case AndUpdateTTL(d) =>
      if d < SECOND then Visible(h, f, later)
      else later <= now + (if h[f].expiry == None then 0 else w * SECOND) + (d - d % SECOND)
    case AndDefaultTTL => if ttl > 0 then SeenUntil(h, f, now + ttl, s, now, later) else Visible(h, f, later)
  }

  /** The instant option `opt` asks for, if it asks for one. */
  predicate AsksFor(opt: GetOption, now: Time, ttl: Duration, t: Time) {
    match opt
    case AndSetValidUntil(v) => t == v
    case AndSetTTL(d) => t == now + d
    case AndDefaultTTL => t == now + ttl
    case _ => true
  }

  /** A read with options of a visible field answers its value; the deciding option is all that counts afterwards. */
  lemma TouchedFieldIsSeen(
    h: Hash, f: Key, opts: seq<GetOption>, i: nat, t: Time, s: Time, w: int, now: Time, ttl: Duration,
    later: Time)
    requires Decides(opts, i) && AsksFor(opts[i], now, ttl, t) && LastSecond(s, t)
    requires Visible(h, f, now) && (h[f].expiry.Some? ==> SecondsLeft(h[f], now, w)) && now <= later
    ensures var (h', res) := GetField(h, f, Fold(opts), now, ttl);
            && res == Ok(h[f].value) && h' - {f} == h - {f}
            && (Visible(h', f, later) <==> SeenAfter(h, f, opts[i], s, w, now, ttl, later))
            && (f in h' ==> h'[f].value == h[f].value)
  {
    DecidingOptionSends(h, f, opts, i, now, ttl);
    OptionIsSeen(h, f, opts[i], t, s, w, now, ttl, later);
  }

  /** The script is sent what the deciding option alone would send. */
  lemma DecidingOptionSends(h: Hash, f: Key, opts: seq<GetOption>, i: nat, now: Time, ttl: Duration)
    requires Decides(opts, i)
    ensures GetField(h, f, Fold(opts), now, ttl) == GetField(h, f, NOTHING.With(opts[i]), now, ttl)
  {
    EmptyRecordIffNoOptions(opts);
    FoldIsLastOfEachKind(opts);
    LastOfIsLast(opts, i, KindOf(opts[i]));
  }

  lemma OptionIsSeen(
    h: Hash, f: Key, opt: GetOption, t: Time, s: Time, w: int, now: Time, ttl: Duration, later: Time)
    requires AsksFor(opt, now, ttl, t) && LastSecond(s, t)
    requires Visible(h, f, now) && (h[f].expiry.Some? ==> SecondsLeft(h[f], now, w)) && now <= later
    ensures var (h', res) := GetField(h, f, NOTHING.With(opt), now, ttl);
            && res == Ok(h[f].value) && h' - {f} == h - {f}
            && (Visible(h', f, later) <==> SeenAfter(h, f, opt, s, w, now, ttl, later))
            && (f in h' ==> h'[f].value == h[f].value)
  {
    match opt
    case AndDelete =>
    case AndUpdateTTL(d) => ExtensionIsSeen(h, f, d, w, now, later);
    case _ => InstantIsSeen(h, f, t, s, now, later);
  }

  lemma InstantIsSeen(h: Hash, f: Key, t: Time, s: Time, now: Time, later: Time)
    requires Visible(h, f, now) && LastSecond(s, t) && now <= later
    ensures var h' := RunScript(h, f, false, Unix(t), 0, now).0;
            && (Visible(h', f, later) <==> SeenUntil(h, f, t, s, now, later))
            && h' - {f} == h - {f} && (f in h' ==> h'[f].value == h[f].value)
  {
    assert FromUnix(Unix(t)) == s;
  }

  lemma ExtensionIsSeen(h: Hash, f: Key, d: Duration, w: int, now: Time, later: Time)
    requires Visible(h, f, now) && (h[f].expiry.Some? ==> SecondsLeft(h[f], now, w)) && now <= later
    ensures var h' := RunScript(h, f, false, 0, TruncatedSeconds(d), now).0;
            && (Visible(h', f, later) <==>
                if d < SECOND then Visible(h, f, later)
                else later <= now + (if h[f].expiry == None then 0 else w * SECOND) + (d - d % SECOND))
            && h' - {f} == h - {f} && (f in h' ==> h'[f].value == h[f].value)
  {
    if h[f].expiry.Some? {
      assert HTtl(h, f, now) == w;
    }
  }

  /** A read of an invisible field misses and changes nothing, whatever its options. */
  lemma MissedFieldIsUntouched(h: Hash, f: Key, o: GetRecord, now: Time, ttl: Duration)
    requires !Visible(h, f, now)
    ensures GetField(h, f, o, now, ttl) == (h, Err(KeyNotFound))
  {}
}
