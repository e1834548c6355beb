/**
 The state that the lock of a `MemoryCache` protects, and the effect of each of its critical sections.
 `R` is the type of item identities: object references for the class, numbers for the transition system.
 */
module Stores {
  import opened Common
  import opened Clock
  import opened Options

  datatype Item = Item(value: Bytes, validUntil: Time) {
    /** Expiry is strict: an item is still readable at exactly its deadline. */
    predicate Expired(now: Time) {
      validUntil != 0 && now > validUntil
    }
  }

  datatype Store<R> = Store(items: map<Key, R>, heap: map<R, Item>) {
    /** No dangling identity, and no item under two keys. */
    ghost predicate Valid() {
      && (forall k :: k in items ==> items[k] in heap)
      && (forall k, l :: k in items && l in items && items[k] == items[l] ==> k == l)
    }

    /** The item behind an identity. In a valid store the second branch is never asked for a mapped item. */
    ghost function Deref(r: R): Item {
      if r in heap then heap[r] else Item([], 0)
    }

    ghost predicate Mapped(r: R) {
      exists k :: k in items && items[k] == r
    }

    ghost predicate Live(key: Key, now: Time) {
      key in items && !Deref(items[key]).Expired(now)
    }

    ghost function Put(key: Key, r: R, item: Item): Store<R> {
      Store(items[key := r], heap[r := item])
    }

    ghost function Unmap(key: Key): Store<R> {
      Store(items - {key}, heap)
    }

    /** Deletes only while the map still holds the item that the caller read. */
    ghost function CompareAndDelete(key: Key, r: R): Store<R> {
      if key in items && items[key] == r then Unmap(key) else this
    }

    ghost function SetDeadline(r: R, validUntil: Time): Store<R> {
      Store(items, heap[r := Item(Deref(r).value, validUntil)])
    }

    ghost function Sweep(t: Time): Store<R> {
      Store(map k | k in items && !Deref(items[k]).Expired(t) :: items[k], heap)
    }

    ghost function Clear(): Store<R> {
      Store(map[], heap)
    }

    ghost function Values(): map<Key, Bytes> {
      map k | k in items :: Deref(items[k]).value
    }

    /** The locked part of a read with options. */
    ghost function LockedGet(key: Key, o: GetRecord, now: Time, ttl: Duration): Got<R> {
      if key !in items then Got(this, None)
      else
        var r := items[key];
        if Deref(r).Expired(now) then Got(this, Some(r))
        else
          match EffectOf(o, Deref(r).validUntil, now, ttl)
          case Remove => Got(Unmap(key), Some(r))
          case Rewrite(t) => Got(SetDeadline(r, t), Some(r))
          case Keep => Got(this, Some(r))
    }

    /** The first phase of any read: a snapshot without options, `LockedGet` with. */
    ghost function FirstPhase(key: Key, opts: seq<GetOption>, now: Time, ttl: Duration): Got<R> {
      if opts != [] then LockedGet(key, Fold(opts), now, ttl)
      else Got(this, if key in items then Some(items[key]) else None)
    }

    /** A whole read, undisturbed: first phase at `first`, expiry decision and eviction at `second`. */
    ghost function Get(key: Key, opts: seq<GetOption>, first: Time, second: Time, ttl: Duration)
      : (Store<R>, Result<Bytes>)
    {
      var got := FirstPhase(key, opts, first, ttl);
      if got.item == None then (got.store, Err(KeyNotFound))
      else
        var r := got.item.value;
        if got.store.Deref(r).Expired(second) then (got.store.CompareAndDelete(key, r), Err(KeyNotFound))
        else (got.store, Ok(got.store.Deref(r).value))
    }
  }

  datatype Got<R> = Got(store: Store<R>, item: Option<R>)

  /** What a store was asked to last, from `at` on, has run out: its last option decides, else the default TTL. */
  predicate RunsOut(ttl: Duration, opts: seq<SetOption>, at: Time, later: Time) {
    if opts == [] then ttl > 0 && later - at > ttl
    else
      match opts[|opts| - 1]
      case WithTTL(d) => d != 0 && later > at && later - at > d
      case WithValidUntil(t) => t != 0 && later > t
  }

  /** A new item expires exactly when what was asked for has run out. */
  lemma NewItemExpiresWhen(value: Bytes, ttl: Duration, opts: seq<SetOption>, at: Time, later: Time)
    requires Modern(at) && at <= later
    ensures Item(value, NewDeadline(ttl, opts, at)).Expired(later) <==> RunsOut(ttl, opts, at, later)
  {}

  /** A read that misses leaves nothing behind under its key. */
  lemma MissedKeyIsGone<R>(s: Store<R>, key: Key, opts: seq<GetOption>, first: Time, second: Time, ttl: Duration)
    requires s.Valid() && s.Get(key, opts, first, second, ttl).1.Err?
    ensures key !in s.Get(key, opts, first, second, ttl).0.items
  {}

  /** A positive TTL lasts through its last instant, a negative one through the present instant, zero for ever. */
  lemma StoredItemExpiresWhen(value: Bytes, opt: SetOption, now: Time, later: Time)
    requires Modern(now) && now <= later
    ensures Item(value, Deadline(opt, now)).Expired(later) <==>
            match opt
            case WithTTL(ttl) => ttl != 0 && later > now && later - now > ttl
            case WithValidUntil(t) => t != 0 && later > t
  {}

  /**
   What a read's deciding option asked for, from `first` on, of a live item has run out. An extension by `d` of a
   running deadline shifts expiry by `d`.
   */
  predicate TouchRunsOut(item: Item, opt: GetOption, first: Time, ttl: Duration, later: Time) {
    match opt
    case AndDelete => true
    case AndSetValidUntil(t) => t != 0 && later > t
    case AndSetTTL(d) => later - first > d
    case AndUpdateTTL(d) => if item.validUntil == 0 then later - first > d else item.Expired(later - d)
    case AndDefaultTTL => ttl > 0 && later - first > ttl
  }

  lemma TouchedItemExpiresAsAsked(
    item: Item, opts: seq<GetOption>, i: nat, first: Time, ttl: Duration, later: Time)
    requires Decides(opts, i) && Modern(first) && first <= later && !item.Expired(first)
    ensures match EffectOf(Fold(opts), item.validUntil, first, ttl)
            case Remove => opts[i] == AndDelete
            case Rewrite(t) =>
              opts[i] != AndDelete &&
              (Item(item.value, t).Expired(later) <==> TouchRunsOut(item, opts[i], first, ttl, later))
            case Keep => false
  {
    DecidingOptionActs(opts, i, item.validUntil, first, ttl);
  }

  /** A read that sets a TTL differs at zero: the item ends with the present instant. */
  lemma TouchedItemExpiresWhen(item: Item, ttl: Duration, now: Time, later: Time)
    requires Modern(now) && now <= later && !item.Expired(now)
    ensures var e := EffectOf(Fold([AndSetTTL(ttl)]), item.validUntil, now, 0);
            e.Rewrite? && (Item(item.value, e.validUntil).Expired(later) <==> later - now > ttl)
  {
    assert Fold([AndSetTTL(ttl)]) == FoldFrom(NOTHING.With(AndSetTTL(ttl)), [AndSetTTL(ttl)][1..]);
  }
}
