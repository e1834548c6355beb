/**
 The in-memory backend as it runs: an item map and mutable item objects. Every clock reading is a parameter, and every
 method is proved to perform one critical section (or one undisturbed sequence of them) of module `Stores`.
 */
module Memory {
  import opened Common
  import opened Clock
  import opened Options
  import opened Stores

  class MemoryItem {
    const value: Bytes
    var validUntil: Time

    constructor (value: Bytes, validUntil: Time)
      ensures this.value == value && this.validUntil == validUntil
    {
      this.value, this.validUntil := value, validUntil;
    }

    ghost function State(): Item
      reads this
    {
      Item(value, validUntil)
    }

    /** A nil item counts as expired. */
    static predicate IsExpired(item: MemoryItem?, now: Time)
      reads item
      ensures item == null ==> IsExpired(item, now)
      ensures item != null ==> IsExpired(item, now) == item.State().Expired(now)
    {
      item == null || (item.validUntil != 0 && now > item.validUntil)
    }
  }

  class MemoryCache {
    var items: map<Key, MemoryItem>
    const ttl: Duration

    /** Every item this cache ever created. */
    ghost var pool: set<MemoryItem>

    ghost predicate Valid()
      reads this
    {
      && (forall k :: k in items ==> items[k] in pool)
      && (forall k, l :: k in items && l in items && items[k] == items[l] ==> k == l)
    }

    ghost function State(): Store<MemoryItem>
      reads this, pool
    {
      Store(items, map p | p in pool :: p.State())
    }

    /** The entries not expired at `t`. */
    ghost function Kept(t: Time): map<Key, MemoryItem>
      requires Valid()
      reads this, pool
    {
      map k | k in items && !items[k].State().Expired(t) :: items[k]
    }

    constructor (ttl: Duration)
      ensures Valid() && State() == Store(map[], map[])
      ensures this.ttl == ttl && pool == {}
    {
      this.items, this.ttl, pool := map[], ttl, {};
    }

    /** The clock is read once for the default TTL and once by each option. */
    method NewItem(value: Bytes, opts: seq<SetOption>, now: Time, clock: seq<Time>) returns (item: MemoryItem)
      requires |clock| == |opts|
      ensures fresh(item)
      ensures item.State() == Item(value, NewDeadline(ttl, opts, if opts == [] then now else clock[|opts| - 1]))
    {
      var o := new SetOptions(0);
      if ttl > 0 {
        o.validUntil := now + ttl;
      }
      o.Apply(opts, clock);
      item := new MemoryItem(value, o.validUntil);
    }

    method Set(key: Key, value: Bytes, opts: seq<SetOption>, now: Time, clock: seq<Time>)
      returns (ghost r: MemoryItem)
      requires Valid() && |clock| == |opts|
      modifies this
      ensures Valid() && fresh(r) && pool == old(pool) + {r}
      ensures var at := if opts == [] then now else clock[|opts| - 1];
              State() == old(State()).Put(key, r, Item(value, NewDeadline(ttl, opts, at)))
    {
      var item := NewItem(value, opts, now, clock);
      items := items[key := item];
      pool := pool + {item};
      r := item;
    }

    method SetOrFail(key: Key, value: Bytes, opts: seq<SetOption>, check: Time, now: Time, clock: seq<Time>)
      returns (ok: bool, ghost r: MemoryItem?)
      requires Valid() && |clock| == |opts|
      modifies this
      ensures Valid()
      ensures ok <==> !old(State().Live(key, check))
      ensures !ok ==> State() == old(State()) && pool == old(pool)
      ensures ok ==> r != null && fresh(r) && pool == old(pool) + {r} &&
                     var at := if opts == [] then now else clock[|opts| - 1];
                     State() == old(State()).Put(key, r, Item(value, NewDeadline(ttl, opts, at)))
    {
      r := null;
      if key in items {
        if !MemoryItem.IsExpired(items[key], check) {
          return false, null;
        }
      }
      var item := NewItem(value, opts, now, clock);
      items := items[key := item];
      pool := pool + {item};
      return true, item;
    }

    method Delete(key: Key)
      requires Valid()
      modifies this`items
      ensures Valid() && State() == old(State()).Unmap(key)
    {
      items := items - {key};
    }

    /** The switch that gives a live item its new deadline. */
    method Renew(item: MemoryItem, o: GetOptions, now: Time)
      requires !o.delete
      modifies item
      ensures match EffectOf(o.Record(), old(item.validUntil), now, ttl)
              case Rewrite(t) => item.validUntil == t
              case _ => item.validUntil == old(item.validUntil)
    {
      if o.validUntil.Some? {
        item.validUntil := o.validUntil.value;
      } else if o.setTTL.Some? {
        item.validUntil := now + o.setTTL.value;
      } else if o.updateTTL.Some? {
        if item.validUntil == 0 {
          item.validUntil := now + o.updateTTL.value;
        } else {
          item.validUntil := item.validUntil + o.updateTTL.value;
        }
      } else if o.defaultTTL {
        if ttl > 0 {
          item.validUntil := now + ttl;
        } else {
          item.validUntil := 0;
        }
      }
    }

    /** The getter closure of a read: it holds the lock, and releases it before the expiry decision. */
    method Getter(key: Key, opts: seq<GetOption>, now: Time) returns (item: MemoryItem?, ok: bool)
      requires Valid()
      modifies this, pool
      ensures Valid() && pool == old(pool)
      ensures ok <==> key in old(items)
      ensures ok ==> item == old(items)[key]
      ensures State() == old(State()).FirstPhase(key, opts, now, ttl).store
    {
      item, ok := null, key in items;
      if ok {
        item := items[key];
      }
      if opts == [] {
        return;
      }

      var o := new GetOptions();
      o.Apply(opts);
      if !ok || MemoryItem.IsExpired(item, now) {
        return;
      }
      if o.delete {
        items := items - {key};
        return;
      }
      Renew(item, o, now);
    }

    /** The eviction of an item found expired: it needs its own write lock, and re-checks the identity. */
    method Evict(key: Key, item: MemoryItem)
      requires Valid()
      modifies this`items
      ensures Valid() && State() == old(State()).CompareAndDelete(key, item)
    {
      if key in items && items[key] == item {
        items := items - {key};
      }
    }

    method Get(key: Key, opts: seq<GetOption>, first: Time, second: Time) returns (res: Result<Bytes>)
      requires Valid()
      modifies this, pool
      ensures Valid() && pool == old(pool)
      ensures (State(), res) == old(State()).Get(key, opts, first, second, ttl)
    {
      var item, ok := Getter(key, opts, first);
      if !ok {
        return Err(KeyNotFound);
      }
      if MemoryItem.IsExpired(item, second) {
        Evict(key, item);
        return Err(KeyNotFound);
      }
      return Ok(item.value);
    }

    method GetAndDelete(key: Key, first: Time, second: Time) returns (res: Result<Bytes>)
      requires Valid()
      modifies this, pool
      ensures Valid() && pool == old(pool)
      ensures (State(), res) == old(State()).Get(key, [AndDelete], first, second, ttl)
    {
      res := Get(key, [AndDelete], first, second);
    }

    /** The range-and-delete loop of `cleanup`; `t` was read before the lock was taken. */
    method RemoveExpired(t: Time)
      requires Valid()
      modifies this`items
      ensures Valid() && State() == old(State()).Sweep(t)
    {
      var pending := items.Keys;
      while pending != {}
        invariant pending <= old(items).Keys && pending <= items.Keys <= old(items).Keys
        invariant forall k :: k in items ==> items[k] == old(items)[k]
        invariant forall k :: k in old(items) && k !in pending ==>
                    (k in items <==> !old(items)[k].State().Expired(t))
        invariant Valid()
        decreases pending
      {
        var key :| key in pending;
        pending := pending - {key};
        if MemoryItem.IsExpired(items[key], t) {
          items := items - {key};
        }
      }
    }

    method Cleanup(t: Time)
      requires Valid()
      modifies this`items
      ensures Valid() && State() == old(State()).Sweep(t)
      ensures items == old(Kept(t))
    {
      RemoveExpired(t);
    }

    method Drain(t: Time) returns (out: map<Key, Bytes>)
      requires Valid()
      modifies this`items
      ensures Valid() && State() == old(State()).Clear()
      ensures out == old(State()).Sweep(t).Values()
    {
      RemoveExpired(t);
      var copy := items;
      items := map[];

      out := map[];
      var pending := copy.Keys;
      while pending != {}
        invariant pending <= copy.Keys
        invariant out == map k | k in copy && k !in pending :: copy[k].value
        decreases pending
      {
        var key :| key in pending;
        pending := pending - {key};
        out := out[key := copy[key].value];
      }
    }
  }
}
