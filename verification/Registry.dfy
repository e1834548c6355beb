/** The list of caches a factory family has handed out, as a function of everything that happened to it. */
module Registry {
  datatype Tracked<C> = Tracked(name: string, cache: C)

  datatype Event<C> = Handed(entry: Tracked<C>) | Closed(cache: C)

  /** One call of `remove`: the first entry for `c` goes, the others keep their order. */
  ghost function Without<C>(s: seq<Tracked<C>>, c: C): seq<Tracked<C>> {
    if s == [] then []
    else if s[0].cache == c then s[1..]
    else [s[0]] + Without(s[1..], c)
  }

  lemma {:induction false} WithoutAt<C>(s: seq<Tracked<C>>, c: C, i: nat)
    requires i <= |s| && (forall j :: 0 <= j < i ==> s[j].cache != c) && (i < |s| ==> s[i].cache == c)
    ensures Without(s, c) == if i < |s| then s[..i] + s[i + 1..] else s
  {
    if i > 0 {
      WithoutAt(s[1..], c, i - 1);
      if i < |s| {
        assert s[..i] == [s[0]] + s[1..][..i - 1];
        assert s[1..][i - 1 + 1..] == s[i + 1..];
      } else {
        assert s == [s[0]] + s[1..];
      }
    }
  }

  /** The list after a history, event by event. */
  ghost function Registered<C>(history: seq<Event<C>>): seq<Tracked<C>> {
    if history == [] then []
    else
      var before := Registered(history[..|history| - 1]);
      match history[|history| - 1]
      case Handed(entry) => before + [entry]
      case Closed(c) => Without(before, c)
  }

  /** The effect of one more event on the list. */
  lemma RegisteredNext<C>(history: seq<Event<C>>, e: Event<C>)
    ensures Registered(history + [e]) ==
            if e.Handed? then Registered(history) + [e.entry] else Without(Registered(history), e.cache)
  {
    assert (history + [e])[..|history|] == history;
  }

  /** Every cache is handed out once: `New` wraps each in an object of its own. */
  ghost predicate HandedOnce<C>(history: seq<Event<C>>) {
    forall i, j :: 0 <= i < j < |history| && history[i].Handed? && history[j].Handed? ==>
      history[i].entry.cache != history[j].entry.cache
  }

  ghost predicate WasHanded<C>(history: seq<Event<C>>, c: C) {
    exists i :: 0 <= i < |history| && history[i].Handed? && history[i].entry.cache == c
  }

  /** The entries handed out and not closed since, in the order they were handed out. */
  ghost function Open<C>(history: seq<Event<C>>): seq<Tracked<C>> {
    if history == [] then []
    else if history[0].Handed? && Closed(history[0].entry.cache) !in history[1..] then
      [history[0].entry] + Open(history[1..])
    else Open(history[1..])
  }

  ghost predicate NoDuplicates<C>(s: seq<Tracked<C>>) {
    forall i, j :: 0 <= i < j < |s| ==> s[i].cache != s[j].cache
  }

  lemma {:induction false} OpenEntriesWereHanded<C>(history: seq<Event<C>>)
    ensures forall e :: e in Open(history) ==> Handed(e) in history
  {
    if history != [] {
      OpenEntriesWereHanded(history[1..]);
    }
  }

  lemma {:induction false} OpenHasNoDuplicates<C>(history: seq<Event<C>>)
    requires HandedOnce(history)
    ensures NoDuplicates(Open(history))
  {
    if history != [] {
      OpenHasNoDuplicates(history[1..]);
      OpenEntriesWereHanded(history[1..]);
      forall e | e in Open(history[1..]) && history[0].Handed?
        ensures e.cache != history[0].entry.cache
      {
        var i :| 0 <= i < |history[1..]| && history[1..][i] == Handed(e);
        assert history[i + 1] == Handed(e);
      }
    }
  }

  lemma {:induction false} OpenAfterHanding<C>(history: seq<Event<C>>, entry: Tracked<C>)
    ensures Open(history + [Handed(entry)]) == Open(history) + [entry]
  {
    if history == [] {
      assert Open([Handed(entry)]) == [entry] + Open([Handed(entry)][1..]);
    } else {
      assert (history + [Handed(entry)])[1..] == history[1..] + [Handed(entry)];
      OpenAfterHanding(history[1..], entry);
    }
  }

  lemma WithoutCons<C>(x: Tracked<C>, s: seq<Tracked<C>>, c: C)
    ensures Without([x] + s, c) == if x.cache == c then s else [x] + Without(s, c)
  {}

  lemma {:induction false} OpenAfterClosing<C>(history: seq<Event<C>>, c: C)
    requires HandedOnce(history)
    ensures Open(history + [Closed(c)]) == Without(Open(history), c)
  {
    var longer := history + [Closed(c)];
    if history == [] {
      assert Open(longer) == Open(longer[1..]);
    } else {
      assert longer[1..] == history[1..] + [Closed(c)];
      OpenAfterClosing(history[1..], c);
      if history[0].Handed? && Closed(history[0].entry.cache) !in history[1..] {
        WithoutCons(history[0].entry, Open(history[1..]), c);
        if history[0].entry.cache == c {
          OpenHasNoDuplicates(history);
          AbsentAfterHead(history[0].entry, Open(history[1..]));
        }
      }
    }
  }

  lemma AbsentAfterHead<C>(x: Tracked<C>, s: seq<Tracked<C>>)
    requires NoDuplicates([x] + s)
    ensures Without(s, x.cache) == s
  {
    var all := [x] + s;
    forall j | 0 <= j < |s|
      ensures s[j].cache != x.cache
    {
      assert all[0] == x && all[j + 1] == s[j];
    }
    WithoutAt(s, x.cache, |s|);
  }

  /**
   The registry invariant: whatever the interleaving of handing out and (repeated) closing, the list holds exactly
   the caches handed out and not closed since, once each, in the order they were handed out.
   */
  lemma {:induction false} RegisteredAreTheOpen<C>(history: seq<Event<C>>)
    requires HandedOnce(history)
    ensures Registered(history) == Open(history) && NoDuplicates(Open(history))
  {
    OpenHasNoDuplicates(history);
    if history != [] {
      var n := |history| - 1;
      RegisteredAreTheOpen(history[..n]);
      assert history == history[..n] + [history[n]];
      match history[n]
      case Handed(entry) => OpenAfterHanding(history[..n], entry);
      case Closed(c) => OpenAfterClosing(history[..n], c);
    }
  }
}
