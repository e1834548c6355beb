/** The class and the transition system meet: a call whose steps no other goroutine interrupts is the class's call. */
module Undisturbed {
  import opened Common
  import opened Clock
  import opened Options
  import opened Concurrency
  import IdealCache
  import MemoryIsIdeal

  /** The locked steps of a read by goroutine `t`. */
  ghost function Begin(s: System, t: Tid, key: Key, opts: seq<GetOption>): (s': System)
    requires s.lock == None && s.Pc(t) == Idle
    ensures s'.Pc(t) == Idle || s'.Pc(t).Read?
  {
    var s1 := Next(s, if opts == [] then Snapshot(t, key) else Sample(t, key, opts));
    if s1.Pc(t).Renewing? then Next(s1, Write(t)) else s1
  }

  /** The rest of the read: time passes until `second`, then the expiry decision and perhaps the eviction. */
  ghost function Finish(s: System, t: Tid, second: Time): (System, Response)
    requires s.lock == None && s.Pc(t).Read? && s.clock <= second
  {
    var s1 := Next(s, Tick(second));
    var s2 := Next(s1, Decide(t));
    if s2.Pc(t).Evict? then (Next(s2, CompareAndDelete(t)), StepAnswer(s2, CompareAndDelete(t)))
    else (s2, StepAnswer(s1, Decide(t)))
  }

  lemma UndisturbedReadIsGet(s: System, t: Tid, key: Key, opts: seq<GetOption>, second: Time)
    requires Inv(s) && s.lock == None && s.Pc(t) == Idle && s.clock <= second
    ensures var s' := Begin(s, t, key, opts);
            var (store, res) := s.store.Get(key, opts, s.clock, second, s.ttl);
            if s'.Pc(t) == Idle then
              && s'.store == store && res == Err(KeyNotFound)
              && StepAnswer(s, if opts == [] then Snapshot(t, key) else Sample(t, key, opts)) == Miss
            else
              && s'.lock == None && s'.clock == s.clock
              && var (s2, answer) := Finish(s', t, second);
                 && s2.store == store && s2.Pc(t) == Idle
                 && (match res case Ok(v) => answer == Hit(v) case Err(e) => answer == Miss && e == KeyNotFound)
  {
    var s' := Begin(s, t, key, opts);
    if opts != [] && key in s.store.items {
      EmptyRecordIffNoOptions(opts);
      assert s.store.Valid();
    }
  }

  // ----- the other calls -----

  /** The system after a call other than a read, and its answer. Its goroutine, `t`, takes no notice of the others. */
  ghost function Call(s: System, t: Tid, op: IdealCache.Op, r: Ref): (System, Response)
    requires s.lock == None && s.Pc(t) == Idle && r !in s.store.heap && IdealCache.InOrder(op, s.clock) && !op.Get?
  {
    match op
    case Set(key, value, opts, at) =>
      var a := Action.Set(t, key, value, opts, at, r);
      (Next(s, a), StepAnswer(s, a))
    case SetOrFail(key, value, opts, check, at) =>
      var s1 := Next(s, Tick(check));
      var a := Action.SetOrFail(t, key, value, opts, at, r);
      (Next(s1, a), StepAnswer(s1, a))
    case Delete(key) => (Next(s, Action.Delete(t, key)), StepAnswer(s, Action.Delete(t, key)))
    case Cleanup(at) => SweepCall(s, t, at, false)
    case Drain(at) => SweepCall(s, t, at, true)
  }

  ghost function SweepCall(s: System, t: Tid, at: Time, drain: bool): (System, Response)
    requires s.lock == None && s.Pc(t) == Idle && s.clock <= at
  {
    var s1 := Next(Next(s, Tick(at)), ReadSweepClock(t, drain));
    (Next(s1, Sweep(t)), StepAnswer(s1, Sweep(t)))
  }

  /** How the transition system words the answers of the class. */
  ghost predicate SameResponse(op: IdealCache.Op, answer: Response, response: IdealCache.Response) {
    match response
    case Done => answer == if op.Set? || op.SetOrFail? then Stored else Nothing
    case Failed(e) => e == KeyExists && answer == Exists
    case Drained(out) => answer == Response.Drained(out)
    case Value(_) => false
  }

  /** A call that nobody interrupts does to the store, and answers, what the class does. */
  lemma UndisturbedCallIsTheClass(s: System, t: Tid, op: IdealCache.Op, r: Ref)
    requires Inv(s) && s.lock == None && s.Pc(t) == Idle && r !in s.store.heap
    requires IdealCache.InOrder(op, s.clock) && !op.Get?
    ensures var (s', answer) := Call(s, t, op, r);
            var (store, response) := MemoryIsIdeal.MemoryApply(s.store, op, s.ttl, r);
            && s'.store == store && s'.Pc(t) == Idle && s'.lock == None && s'.clock <= IdealCache.After(op, s.clock)
            && SameResponse(op, answer, response)
  {}
}
