/** Factories, the tracker they share, the wrapper that unregisters a closed cache, and the sweep over open caches. */
module Factories {
  import opened Common
  import opened Clock
  import opened Stores
  import opened Memory
  import opened Registry
  import opened Names

  /** A backend: the in-memory cache, or one built by foreign code, of which only failures are seen. */
  datatype Backend = InMemory(cache: MemoryCache) | Foreign(id: nat)

  type Entry = Tracked<Wrapper>

  /** The cleanups that were run, in order. */
  class CleanupLog {
    ghost var calls: seq<Wrapper>
  }

  /** What a factory hands out: a backend that leaves the tracker when it is closed. */
  class Wrapper {
    const backend: Backend
    const tracker: CacheTracker

    constructor (backend: Backend, tracker: CacheTracker)
      ensures this.backend == backend && this.tracker == tracker
    {
      this.backend, this.tracker := backend, tracker;
    }

    /** The entry goes whether or not the backend's own close (whose error is `failure`) succeeds. */
    method Close(failure: Option<string>) returns (error: Option<string>)
      requires tracker.Valid()
      modifies tracker, tracker.caches
      ensures tracker.Valid() && tracker.caches == old(tracker.caches)
      ensures tracker.history == old(tracker.history) + [Closed(this)]
      ensures error == if backend.InMemory? then None else failure
    {
      var err := if backend.InMemory? then None else failure;
      tracker.Remove(this);
      return err;
    }

    /** Runs the backend's own cleanup, once. `failing` holds the errors of foreign backends. */
    method Cleanup(t: Time, failing: map<nat, string>, ghost log: CleanupLog) returns (error: Option<string>)
      requires backend.InMemory? ==> backend.cache.Valid()
      modifies log, (if backend.InMemory? then {backend.cache} else {})`items
      ensures log.calls == old(log.calls) + [this]
      ensures error == if backend.Foreign? && backend.id in failing then Some(failing[backend.id]) else None
      ensures backend.InMemory? ==> backend.cache.Valid() && backend.cache.items == old(backend.cache.Kept(t))
    {
      log.calls := log.calls + [this];
      match backend
      case InMemory(m) =>
        m.Cleanup(t);
        return None;
      case Foreign(id) =>
        return if id in failing then Some(failing[id]) else None;
    }
  }

  /** Every wrapper is handed out once, and every in-memory backend has one wrapper. */
  ghost predicate Apart(history: seq<Event<Wrapper>>) {
    && HandedOnce(history)
    && forall i, j :: 0 <= i < j < |history| && history[i].Handed? && history[j].Handed? ==>
         history[i].entry.cache.backend.Foreign? || history[i].entry.cache.backend != history[j].entry.cache.backend
  }

  /** The slice that a factory and all factories derived from it share: a backing array and a length. */
  class CacheTracker {
    var caches: array<Entry>
    var len: nat

    /** Everything that was ever added or removed. */
    ghost var history: seq<Event<Wrapper>>

    /** The slice holds what its history says. */
    ghost predicate Tidy()
      reads this, caches
    {
      len <= caches.Length && Contents() == Registered(history)
    }

    ghost predicate Valid()
      reads this, caches
    {
      Tidy() && Apart(history)
    }

    ghost function Contents(): seq<Entry>
      requires len <= caches.Length
      reads this, caches
    {
      caches[..len]
    }

    constructor ()
      ensures Valid() && fresh(caches) && history == []
    {
      caches := new Entry[0];
      len, history := 0, [];
    }

    /** `append`: in place while there is room, otherwise into a larger array. */
    method Add(c: Entry)
      requires Tidy()
      modifies this, caches
      ensures Tidy() && (caches == old(caches) || fresh(caches))
      ensures history == old(history) + [Handed(c)]
      ensures Contents() == old(Contents()) + [c]
    {
      RegisteredNext(history, Handed(c));
      Append(c);
      history := history + [Handed(c)];
    }

    /** Room for one more entry, and the entry in it. */
    method Append(c: Entry)
      requires len <= caches.Length
      modifies this`len, this`caches, caches
      ensures len <= caches.Length && (caches == old(caches) || fresh(caches))
      ensures Contents() == old(Contents()) + [c]
    {
      ghost var before := Contents();
      if len == caches.Length {
        var larger := new Entry[2 * len + 1](_ => c);
        for i := 0 to len
          invariant larger[..i] == before[..i]
          modifies larger
        {
          larger[i] := caches[i];
        }
        caches := larger;
      }
      assert caches[..len] == before;
      caches[len] := c;
      len := len + 1;
    }

    /** `append(s[:i], s[i+1:]...)`: the entries behind position `i` move down by one, in the same array. */
    method Cut(i: nat)
      requires i < len <= caches.Length
      modifies this`len, caches
      ensures len <= caches.Length
      ensures Contents() == old(Contents()[..i] + Contents()[i + 1..])
    {
      ghost var before := Contents();
      var j := i;
      while j + 1 < len
        invariant i <= j < len
        invariant forall k :: 0 <= k < i || j < k < len ==> caches[k] == before[k]
        invariant forall k :: i <= k < j ==> caches[k] == before[k + 1]
        modifies caches
      {
        caches[j] := caches[j + 1];
        j := j + 1;
      }
      len := len - 1;
      assert Contents() == before[..i] + before[i + 1..];
    }

    /** Removes the first entry of `c`. */
    method Remove(c: Wrapper)
      requires Tidy()
      modifies this, caches
      ensures Tidy() && caches == old(caches)
      ensures history == old(history) + [Closed(c)]
      ensures Contents() == Without(old(Contents()), c)
    {
      ghost var before := Contents();
      var i := 0;
      while i < len && caches[i].cache != c
        invariant i <= len
        invariant forall k :: 0 <= k < i ==> before[k].cache != c
      {
        i := i + 1;
      }
      WithoutAt(before, c, i);
      if i < len {
        Cut(i);
      }
      RegisteredNext(history, Closed(c));
      history := history + [Closed(c)];
    }

    /** A copy in storage of its own. */
    method List() returns (copy: array<Entry>)
      requires Tidy()
      ensures fresh(copy) && copy[..] == Contents()
    {
      copy := new Entry[len](i requires 0 <= i < len <= caches.Length reads this, caches => caches[i]);
    }

    /** What other goroutines do to the tracker while a sweep runs. */
    method Meddle(events: seq<Event<Wrapper>>)
      requires Tidy()
      modifies this, caches
      ensures Tidy() && (caches == old(caches) || fresh(caches))
      ensures history == old(history) + events
    {
      for i := 0 to |events|
        invariant Tidy() && (caches == old(caches) || fresh(caches))
        invariant history == old(history) + events[..i]
      {
        assert history + [events[i]] == old(history) + events[..i + 1];
        match events[i]
        case Handed(entry) =>
          Add(entry);
        case Closed(c) =>
          Remove(c);
      }
    }
  }

  ghost function Concat<T>(ss: seq<seq<T>>): seq<T> {
    if ss == [] then [] else Concat(ss[..|ss| - 1]) + ss[|ss| - 1]
  }

  /** The failures of a sweep: the name of every failing cache with its error, in order. */
  function Failures(s: seq<Entry>, failing: map<nat, string>): seq<(string, string)> {
    if s == [] then []
    else Failures(s[..|s| - 1], failing) + FailureOf(s[|s| - 1], failing)
  }

  function FailureOf(e: Entry, failing: map<nat, string>): seq<(string, string)> {
    if e.cache.backend.Foreign? && e.cache.backend.id in failing then [(e.name, failing[e.cache.backend.id])] else []
  }

  lemma OneMoreEntry(calls: seq<Wrapper>, s: seq<Entry>, i: nat, failing: map<nat, string>)
    requires i < |s|
    ensures calls + Caches(s[..i + 1]) == calls + Caches(s[..i]) + [s[i].cache]
    ensures Failures(s[..i + 1], failing) == Failures(s[..i], failing) + FailureOf(s[i], failing)
  {
    assert s[..i + 1][..i] == s[..i];
  }

  /** The caches of some entries, in order. */
  ghost function Caches(s: seq<Entry>): seq<Wrapper> {
    seq(|s|, i requires 0 <= i < |s| => s[i].cache)
  }

  /** The in-memory backends among some entries are in order. */
  ghost predicate AllValid(s: seq<Entry>)
    reads Memories(s)
  {
    forall i :: 0 <= i < |s| && s[i].cache.backend.InMemory? ==> s[i].cache.backend.cache.Valid()
  }

  /** For every entry, the items that a cleanup at its time leaves (none to speak of for a foreign one). */
  ghost function KeptBySweep(s: seq<Entry>, times: seq<Time>): (kept: seq<map<Key, MemoryItem>>)
    requires |s| == |times| && AllValid(s)
    reads Memories(s), set m, p | m in Memories(s) && p in m.pool :: p
    ensures |kept| == |s|
    ensures forall i :: 0 <= i < |s| && s[i].cache.backend.InMemory? ==>
              s[i].cache.backend.cache in Memories(s) && kept[i] == s[i].cache.backend.cache.Kept(times[i])
  {
    seq(|s|, i requires 0 <= i < |s| && AllValid(s)
             reads Memories(s), set m, p | m in Memories(s) && p in m.pool :: p =>
      if s[i].cache.backend.InMemory? then
        assert s[i].cache.backend.cache in Memories(s);
        s[i].cache.backend.cache.Kept(times[i])
      else map[])
  }

  /**
   `errors` reports every failing entry once, in order, under its name with its error, and nothing else: `at[k]` is the
   position of the entry that report number k is about.
   */
  ghost predicate Reports(errors: seq<(string, string)>, s: seq<Entry>, failing: map<nat, string>, at: seq<nat>) {
    && |at| == |errors|
    && (forall k, l :: 0 <= k < l < |at| ==> at[k] < at[l])
    && (forall k :: 0 <= k < |at| ==>
          && at[k] < |s| && s[at[k]].cache.backend.Foreign? && s[at[k]].cache.backend.id in failing
          && errors[k] == (s[at[k]].name, failing[s[at[k]].cache.backend.id]))
    && (forall i :: 0 <= i < |s| && s[i].cache.backend.Foreign? && s[i].cache.backend.id in failing ==> i in at)
  }

  ghost function FailingAt(s: seq<Entry>, failing: map<nat, string>): seq<nat> {
    if s == [] then []
    else
      var n := |s| - 1;
      FailingAt(s[..n], failing) + if FailureOf(s[n], failing) == [] then [] else [n]
  }

  /** The failures of a sweep report exactly the failing entries. */
  lemma {:induction false} FailuresReport(s: seq<Entry>, failing: map<nat, string>)
    ensures Reports(Failures(s, failing), s, failing, FailingAt(s, failing))
  {
    if s != [] {
      var n := |s| - 1;
      FailuresReport(s[..n], failing);
      OneMoreReport(Failures(s[..n], failing), s[..n], s[n], failing, FailingAt(s[..n], failing));
      assert s[..n] + [s[n]] == s;
    }
  }

  lemma OneMoreReport(
    errors: seq<(string, string)>, s: seq<Entry>, e: Entry, failing: map<nat, string>, at: seq<nat>)
    requires Reports(errors, s, failing, at)
    ensures var longer := at + if FailureOf(e, failing) == [] then [] else [|s|];
            Reports(errors + FailureOf(e, failing), s + [e], failing, longer)
  {
    if FailureOf(e, failing) == [] {
      assert forall i :: 0 <= i < |s| ==> (s + [e])[i] == s[i];
    } else {
      var longer := at + [|s|];
      assert |s| in longer && forall i :: i in at ==> i in longer;
    }
  }

  /** A sweep reports no error if and only if no cache failed. */
  lemma FailuresAreComplete(s: seq<Entry>, failing: map<nat, string>)
    ensures Failures(s, failing) == [] <==>
            forall e :: e in s ==> !(e.cache.backend.Foreign? && e.cache.backend.id in failing)
    ensures forall e :: e in s && e.cache.backend.Foreign? && e.cache.backend.id in failing ==>
                        (e.name, failing[e.cache.backend.id]) in Failures(s, failing)
  {
    FailuresReport(s, failing);
    var errors, at := Failures(s, failing), FailingAt(s, failing);
    forall e | e in s && e.cache.backend.Foreign? && e.cache.backend.id in failing
      ensures (e.name, failing[e.cache.backend.id]) in errors
    {
      var i :| 0 <= i < |s| && s[i] == e;
      var k :| 0 <= k < |at| && at[k] == i;
      assert errors[k] in errors;
    }
    if errors != [] {
      assert s[at[0]] in s;
    }
  }

  /** The in-memory backend of an entry, if it has one. */
  ghost function MemoryOf(e: Entry): set<MemoryCache> {
    if e.cache.backend.InMemory? then {e.cache.backend.cache} else {}
  }

  /** The in-memory backends among some entries. */
  ghost function Memories(s: seq<Entry>): set<MemoryCache> {
    set i | 0 <= i < |s| && s[i].cache.backend.InMemory? :: s[i].cache.backend.cache
  }

  ghost predicate OwnBackends(s: seq<Entry>) {
    forall i, j :: 0 <= i < j < |s| && s[i].cache.backend.InMemory? ==> s[i].cache.backend != s[j].cache.backend
  }

  /** The open caches have backends of their own, so a sweep treats each of them once. */
  lemma OpenBackendsAreApart(history: seq<Event<Wrapper>>)
    requires Apart(history)
    ensures OwnBackends(Registered(history))
  {
    RegisteredAreTheOpen(history);
    OpenEntriesWereHanded(history);
    var s := Registered(history);
    forall i, j | 0 <= i < j < |s| && s[i].cache.backend.InMemory?
      ensures s[i].cache.backend != s[j].cache.backend
    {
      assert s[i] in Open(history) && s[j] in Open(history);
      var a :| 0 <= a < |history| && history[a] == Handed(s[i]);
      var b :| 0 <= b < |history| && history[b] == Handed(s[j]);
      assert a != b;
    }
  }

  class Factory {
    const prefix: string
    /** Whether the URL's scheme was `memory`; otherwise foreign code builds the backends. */
    const inMemory: bool
    const tracker: CacheTracker

    constructor (prefix: string, inMemory: bool, tracker: CacheTracker)
      ensures this.prefix == prefix && this.inMemory == inMemory && this.tracker == tracker
    {
      this.prefix, this.inMemory, this.tracker := prefix, inMemory, tracker;
    }

    function FullName(name: string): string {
      Compose(prefix, name)
    }

    /** `foreign` is what the foreign constructor answers: a backend, or nothing when it fails. */
    method New(name: string, foreign: Option<nat>) returns (w: Wrapper?)
      requires tracker.Valid()
      modifies tracker, tracker.caches
      ensures tracker.Valid() && (tracker.caches == old(tracker.caches) || fresh(tracker.caches))
      ensures w == null <==> !inMemory && foreign == None
      ensures w == null ==> tracker.history == old(tracker.history) && tracker.Contents() == old(tracker.Contents())
      ensures w != null ==>
                && fresh(w) && w.tracker == tracker
                && (if inMemory then w.backend.InMemory? && fresh(w.backend.cache) && w.backend.cache.Valid() &&
                                     w.backend.cache.State() == Store(map[], map[]) && w.backend.cache.ttl == 0
                    else w.backend == Foreign(foreign.value))
                && tracker.history == old(tracker.history) + [Handed(Tracked(FullName(name), w))]
                && tracker.Contents() == old(tracker.Contents()) + [Tracked(FullName(name), w)]
    {
      var backend;
      if inMemory {
        var cache := new MemoryCache(0);
        backend := InMemory(cache);
      } else if foreign == None {
        return null;
      } else {
        backend := Foreign(foreign.value);
      }
      w := new Wrapper(backend, tracker);
      tracker.Add(Tracked(FullName(name), w));
    }

    /** A derived factory: the composed prefix, and the same tracker. */
    method WithName(name: string) returns (f: Factory)
      ensures fresh(f) && f.prefix == FullName(name) && f.inMemory == inMemory && f.tracker == tracker
    {
      f := new Factory(FullName(name), inMemory, tracker);
    }

    /**
     One turn of the sweep's loop: other goroutines change the tracker, then the cache's cleanup runs, and its error, if
     any, is reported under its name. The snapshot and the other caches in it stay as they are.
     */
    method Turn(
      caches: array<Entry>, i: nat, times: seq<Time>, failing: map<nat, string>, events: seq<Event<Wrapper>>,
      ghost log: CleanupLog)
      returns (failure: seq<(string, string)>)
      requires tracker.Tidy()
      requires i < caches.Length == |times| && caches != tracker.caches && OwnBackends(caches[..])
      requires AllValid(caches[..])
      modifies tracker, tracker.caches, log, MemoryOf(caches[i])`items
      ensures tracker.Tidy() && (tracker.caches == old(tracker.caches) || fresh(tracker.caches))
      ensures tracker.history == old(tracker.history) + events
      ensures caches != tracker.caches && caches[..] == old(caches[..])
      ensures log.calls == old(log.calls) + [caches[i].cache] && failure == FailureOf(caches[i], failing)
      ensures AllValid(caches[..])
      ensures forall j :: 0 <= j < caches.Length && caches[j].cache.backend.InMemory? ==>
                var m := caches[j].cache.backend.cache;
                if j == i then m.items == old(m.Kept(times[i]))
                else m.items == old(m.items) && m.Kept(times[j]) == old(m.Kept(times[j]))
    {
      var c := caches[i];
      tracker.Meddle(events);
      assert caches[..][i] == c;
      var error := c.cache.Cleanup(times[i], failing, log);
      failure := if error.Some? then [(c.name, error.value)] else [];
      forall j | 0 <= j < caches.Length && j != i && caches[j].cache.backend.InMemory?
        ensures caches[j].cache.backend != c.cache.backend
      {
        assert caches[..][j] == caches[j];
      }
    }

    /** The sweep's loop, over storage that the tracker does not share. */
    method SweepSnapshot(
      caches: array<Entry>, times: seq<Time>, failing: map<nat, string>, during: seq<seq<Event<Wrapper>>>,
      ghost log: CleanupLog)
      returns (errors: seq<(string, string)>)
      requires tracker.Tidy() && |times| == |during| == caches.Length
      requires caches != tracker.caches && OwnBackends(caches[..]) && AllValid(caches[..])
      modifies tracker, tracker.caches, log, Memories(caches[..])`items
      ensures caches[..] == old(caches[..])
      ensures log.calls == old(log.calls) + Caches(caches[..]) && errors == Failures(caches[..], failing)
      ensures tracker.Tidy() && tracker.history == old(tracker.history) + Concat(during)
      ensures forall i :: 0 <= i < caches.Length && caches[i].cache.backend.InMemory? ==>
                var m := caches[i].cache.backend.cache;
                m.Valid() && m.items == old(m.Kept(times[i]))
    {
      ghost var open, kept := caches[..], KeptBySweep(caches[..], times);
      errors := [];
      for i := 0 to caches.Length
        invariant tracker.Tidy() && (tracker.caches == old(tracker.caches) || fresh(tracker.caches))
        invariant caches != tracker.caches && caches[..] == open
        invariant tracker.history == old(tracker.history) + Concat(during[..i])
        invariant log.calls == old(log.calls) + Caches(open[..i]) && errors == Failures(open[..i], failing)
        invariant AllValid(open)
        invariant forall j :: 0 <= j < |open| && open[j].cache.backend.InMemory? ==>
                    var m := open[j].cache.backend.cache;
                    kept[j] == if j < i then m.items else m.Kept(times[j])
      {
        var failure := Turn(caches, i, times, failing, during[i], log);
        assert open[i] == caches[i];
        ConcatNext(old(tracker.history), during, i);
        OneMoreEntry(old(log.calls), open, i, failing);
        errors := errors + failure;
      }
      assert during[..|during|] == during && open[..|open|] == open;
    }

    /**
     The sweep. `times[i]` is the clock reading of the i-th cleanup, `failing` the errors of foreign backends, and
     `during[i]` what other goroutines do to the tracker just before the i-th cleanup.

     Every cache open at the start is cleaned once, in order, and no other, whatever fails and whatever happens to the
     tracker meanwhile; every failure is reported under its name. An in-memory cache loses exactly what had expired.
     */
    method CleanupAll(
      times: seq<Time>, failing: map<nat, string>, during: seq<seq<Event<Wrapper>>>, ghost log: CleanupLog)
      returns (errors: seq<(string, string)>, ghost open: seq<Entry>)
      requires tracker.Valid() && |times| == |during| == |tracker.Contents()|
      requires Apart(tracker.history + Concat(during))
      requires AllValid(tracker.Contents())
      modifies tracker, tracker.caches, log, Memories(tracker.Contents())`items
      ensures open == old(tracker.Contents()) == Open(old(tracker.history))
      ensures log.calls == old(log.calls) + Caches(open)
      ensures errors == Failures(open, failing) && Reports(errors, open, failing, FailingAt(open, failing))
      ensures errors == [] <==> forall e :: e in open ==> !(e.cache.backend.Foreign? && e.cache.backend.id in failing)
      ensures tracker.Valid() && tracker.history == old(tracker.history) + Concat(during)
      ensures forall i :: 0 <= i < |open| && open[i].cache.backend.InMemory? ==>
                var m := open[i].cache.backend.cache;
                m.Valid() && m.items == old(m.Kept(times[i]))
    {
      RegisteredAreTheOpen(tracker.history);
      OpenBackendsAreApart(tracker.history);
      var caches := tracker.List();
      open := caches[..];
      errors := SweepSnapshot(caches, times, failing, during, log);
      FailuresReport(open, failing);
      FailuresAreComplete(open, failing);
    }

    /**
     With nobody interfering, a sweep that starts at `start` leaves no open in-memory cache with an entry that was
     expired then, and takes away only entries expired by the time their cache was cleaned.
     */
    method SweepIsComplete(start: Time, times: seq<Time>, failing: map<nat, string>, ghost log: CleanupLog)
      returns (errors: seq<(string, string)>, ghost open: seq<Entry>)
      requires tracker.Valid() && |times| == |tracker.Contents()|
      requires forall i :: 0 <= i < |times| ==> start <= times[i]
      requires AllValid(tracker.Contents())
      modifies tracker, tracker.caches, log, Memories(tracker.Contents())`items
      ensures tracker.Valid() && tracker.Contents() == old(tracker.Contents()) == open
      ensures forall i :: 0 <= i < |open| && open[i].cache.backend.InMemory? ==>
                var m := open[i].cache.backend.cache;
                && (forall k :: k in m.items ==> !m.items[k].State().Expired(start))
                && (forall k :: k in old(m.items) && !old(m.items[k].State()).Expired(times[i]) ==>
                      k in m.items && m.items[k] == old(m.items)[k] && m.items[k].State() == old(m.items[k].State()))
    {
      var nothing := seq(|times|, _ => []);
      ConcatOfEmpties(nothing);
      assert tracker.history + [] == tracker.history;
      errors, open := CleanupAll(times, failing, nothing, log);
    }
  }

  /** A chain of factories, derived one from the other by the names of `path`. */
  method Derive(root: Factory, path: seq<string>) returns (f: Factory)
    requires root.prefix == ""
    ensures f.prefix == Composed(path) && f.inMemory == root.inMemory && f.tracker == root.tracker
  {
    f := root;
    for i := 0 to |path|
      invariant f.prefix == Composed(path[..i]) && f.inMemory == root.inMemory && f.tracker == root.tracker
    {
      assert path[..i + 1][..i] == path[..i];
      f := f.WithName(path[i]);
    }
    assert path[..|path|] == path;
  }

  /** A cache from such a chain is registered under the names joined by colons, empty ones at the front left out. */
  method OpenUnder(root: Factory, path: seq<string>, name: string, foreign: Option<nat>) returns (w: Wrapper?)
    requires root.prefix == "" && root.tracker.Valid()
    modifies root.tracker, root.tracker.caches
    ensures root.tracker.Valid()
    ensures w != null ==>
              root.tracker.Contents() ==
              old(root.tracker.Contents()) + [Tracked(Join(WithoutLeadingEmpties(path + [name])), w)]
  {
    var f := Derive(root, path);
    ComposedIsJoined(path + [name]);
    assert (path + [name])[..|path|] == path;
    w := f.New(name, foreign);
  }

  lemma ConcatNext<T>(before: seq<T>, ss: seq<seq<T>>, i: nat)
    requires i < |ss|
    ensures before + Concat(ss[..i + 1]) == before + Concat(ss[..i]) + ss[i]
  {
    assert ss[..i + 1][..i] == ss[..i];
  }

  lemma {:induction false} ConcatOfEmpties<T>(ss: seq<seq<T>>)
    requires forall i :: 0 <= i < |ss| ==> ss[i] == []
    ensures Concat(ss) == []
  {
    if ss != [] {
      ConcatOfEmpties(ss[..|ss| - 1]);
    }
  }
}
