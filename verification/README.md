# cachefx, verified

A Dafny model of the cache library: the concurrent in-memory backend with its lazy, identity-checked eviction; the option
language that rewrites deadlines; the Redis backend's scripts and second-granular deadlines; and the factory that keeps
track of every cache it handed out.

## How it is organised

- `Common.dfy`, `Options.dfy`: instants (nanoseconds after Go's zero time, which is 0), 64-bit durations, the option
  folds and their normal form.
- `Store.dfy`: the state behind a `MemoryCache`'s lock and the effect of each critical section, generic in the identity
  of items.
- `Memory.dfy`: the class itself, with its mutable items and its loops. Every method is proved to perform sections of
  `Store.dfy`. Clock readings are parameters, one for each place where the code reads the clock.
- `Concurrency.dfy`: all interleavings of any number of goroutines over the same sections, as runs. `Reads.dfy`,
  `Conservation.dfy`, `ExactAnswers.dfy`, `Exclusion.dfy`, `Deadlines.dfy` and `LazyEviction.dfy` prove what holds over
  whole runs, `Sections.dfy` that the section of a read with options is atomic though it takes time. `CounterRuns.dfy`
  shows runs at which the guarantees end, and `Undisturbed.dfy` ties uninterrupted calls back to the class.
- `IdealCache.dfy`: a map that never evicts, as the meaning of a cache for sequential callers; the class answers every
  sequence of calls as it does. `Meaning.dfy` says what that map is by what plain reads see after each call.
- `Redis.dfy`, `Agreement.dfy`: the second backend over a hash with field TTLs, and the exact condition, call by call,
  under which it answers as the ideal cache and hence as the in-memory one, at this call and at plain reads after it.
  `Perform`, `Replay` and `CompareBackends` in these files are callers of the classes; the library has no such loop.
- `Registry.dfy`, `Factory.dfy`: the shared slice, its in-place removal, snapshots and sweeps. `Names.dfy`: the names
  that chains of factories give, and when two of them share a Redis hash. `Derive` and `OpenUnder` are callers, too.

## Granularity and what it shows

Sections under the mutex are atomic, with one exception: the section of a read with options is two steps, the clock sample
and the deadline write (`cache/memory.go:225` and `:237-254`), with the lock held and time passing in between. The expiry
decision at `cache/memory.go:395` (clock reading and deadline read together) is a step of its own, outside any lock, and
so are the eviction and the pre-lock clock reading of `cleanup`. `Set` and `SetOrFail` read the clock again for the new
deadline; that reading ends their step.

A deadline write is late when it lands after the old deadline has passed, and the new deadline has not. An item never
comes back from expiry exactly when no write of that item is late (`Concurrency.TimelyIffExpiryIsIrreversible`). A late
write can turn a pending eviction stale: its compare-and-delete then removes an item that is not expired any more. Only a
late write during the evicting read can do that (`Reads.StaleNeedsALateWrite`), and sections that take no time are never
late.

Most results hold in every run: hits, justified misses and when a miss is linearizable, conservation and the one cause of
each departure, at-most-once delivery, the origin of permanent entries, the sum of extensions. Two promises hold exactly
as far as stale evictions allow:

- `SetOrFail` excludes unless a stale eviction took the first winner's item with a deadline the second winner's clock has
  not passed (`Exclusion.SetOrFailExcludesIff`); `CounterRuns.LateWriteBreaksExclusion` is such a run.
- The real item map and one that never evicts agree on what is live under a key, throughout a run, if and only if no
  eviction of that key is stale (`LazyEviction.EvictionIsInvisibleIff`). Then `SetOrFail` and whole reads answer as on the
  map that never evicts. A concurrent `Drain` does so up to entries that expired and were evicted between its clock
  reading and its lock (`LazyEviction.DrainIsIdealIff`, `CounterRuns.DrainIsNotIdeal`).

Two more promises fail without any late write, and the exact conditions are in `ExactAnswers.dfy`. A miss is always
justified, but it is linearizable unless a `Set` replaced the item read while it was live, and had been since the read
began, and the key stayed live from then on. A `GetAndDelete` that removed a live item answers with it if and only if the
item is unexpired at the second clock reading.

## Where code and documentation differ

- The documentation gives the two backends one interface with one meaning. On whole-second clocks they share it exactly
  on the fragment of `Agreement.dfy`, where deadlines are compared up to the second, which is all that plain reads at
  whole seconds can see. Outside it: a non-positive default TTL (`AndDefaultTTL`) or a zero `AndSetValidUntil` makes an
  in-memory entry permanent but leaves a Redis entry's deadline alone; a non-positive `AndUpdateTTL` shortens an in-memory
  entry but not a Redis one, which shows when it crosses a second; a deadline at or before the present set by `AndSetTTL`
  or `AndSetValidUntil` is a miss in memory and a hit in Redis (or, exactly at the present, a hit in both that only Redis
  forgets); a deadline less than a second ahead is already past in Redis; an extension is one second short in Redis when
  its part below the second and the deadline's add up to a second, and on a permanent entry Redis ignores it when it is
  shorter than a second; and Redis refuses to store a deadline before 1970.
- A negative `WithTTL` is documented to expire at once; the entry is still readable at that very instant, since expiry is
  strict. `WithTTL(0)` means "never expires", while `AndSetTTL(0)` ends the entry at the present instant.
- The composed name is all that keeps the caches of one Redis server apart. Names with colons, empty names at the front of
  a chain, and one empty name at its end do not: such caches share a hash (`Names.SameHashIff`, `Names.ColonsCollide`).

## Model

| member | source | states |
|---|---|---|
| Options.SetOptions.Apply | cache/options.go:17-50 | of any list of `Set` options only the last one, at its own clock reading, decides the deadline |
| Options.NewDeadlineIsZeroIffAsked | cache/memory.go:359-369 | a new item never expires if and only if the caller asked for that |
| Options.GetOptions.Apply | cache/options.go:93-97 | the loop over read options computes the fold |
| Options.RewriteIsZeroIffAsked | cache/memory.go:237-254 | for an unexpired item a rewritten deadline is "never" if and only if the read asked for that |
| Options.UnguardedExtensionCanBecomeForever | cache/memory.go:228-247 | without the unexpired guard, `AndUpdateTTL` could turn a deadline into "never" |
| Options.FoldIsLastOfEachKind | cache/options.go:93-209 | folding read options keeps the last option of each kind and nothing else |
| Options.ActsAsItsWinner | cache/memory.go:232-254 | any non-empty list acts on every entry as one of its options: delete, then instant, TTL, extension, default |
| Options.DecidingOptionActs | cache/memory.go:232-254 | that option is the last one of the highest rank in the list |
| Options.KindsCommute | cache/options.go:123-209 | reordering options of different kinds changes nothing |
| Options.EmptyRecordIffNoOptions | cache/options.go:99-106 | Redis's empty-record test and memory's empty-list test are the same test |
| Memory.MemoryItem.IsExpired | cache/memory.go:86-92 | nil counts as expired; otherwise expiry is strict and zero means never |
| Memory.MemoryCache.NewItem | cache/memory.go:359-369 | a fresh item with the value and the deadline the options decide |
| Memory.MemoryCache.Set | cache/memory.go:303-309 | maps the key to a fresh item and changes nothing else |
| Memory.MemoryCache.SetOrFail | cache/memory.go:334-346 | succeeds if and only if the key holds no live entry, and otherwise changes nothing |
| Memory.MemoryCache.Delete | cache/memory.go:133-139 | unmaps the key and nothing else |
| Memory.MemoryCache.Renew | cache/memory.go:237-254 | the switch gives the item the deadline its options decide |
| Memory.MemoryCache.Getter | cache/memory.go:210-257 | the locked part of a read, with and without options |
| Memory.MemoryCache.Evict | cache/memory.go:399-403 | compare-and-delete by item identity |
| Memory.MemoryCache.Get | cache/memory.go:388-430 | locked part, expiry decision at the second clock reading, eviction, response |
| Memory.MemoryCache.GetAndDelete | cache/memory.go:278-280 | `Get` with the delete option |
| Memory.MemoryCache.RemoveExpired | cache/memory.go:440-452 | the range-and-delete loop leaves exactly the entries not expired at the pre-lock instant |
| Memory.MemoryCache.Cleanup | cache/memory.go:111-115 | the same, as a cleanup |
| Memory.MemoryCache.Drain | cache/memory.go:162-176 | returns exactly the entries not expired at the pre-lock instant and empties the map |
| Stores.NewItemExpiresWhen | cache/memory.go:359-369 | a new item expires exactly when what its last option, or else the default TTL, asked for has run out |
| Stores.StoredItemExpiresWhen | cache/options.go:39-74 | when an item stored with an option stops being readable: strictly after its TTL, at once if negative, never if zero |
| Stores.TouchedItemExpiresWhen | cache/memory.go:240-241 | a read's TTL counts from the read, and a zero one ends the item there, unlike `WithTTL(0)` |
| Stores.TouchedItemExpiresAsAsked | cache/memory.go:232-254 | after a read with options a live item expires exactly when its deciding option asked: an extension shifts expiry by its duration |
| Stores.MissedKeyIsGone | cache/memory.go:395-405 | a read that misses leaves nothing under its key |
| Concurrency.NextKeepsInv | cache/memory.go:207-257 | every step keeps: no item under two keys, the lock holder's item mapped and unexpired at its sample |
| Concurrency.ResurrectsIffLate | cache/memory.go:225-254 | a step un-expires an item if and only if it is a late deadline write of that item, as told from the state before it |
| Concurrency.InstantSectionsAreTimely | cache/memory.go:222-254 | when every locked read writes its deadline at the instant it sampled, no write of the run is late |
| Concurrency.ExpiredForGood | cache/memory.go:228-230 | an expired item stays expired as long as no write of that item is late |
| Concurrency.TimelyIffExpiryIsIrreversible | cache/memory.go:225-254 | for each item: no write of it is late if and only if it never comes back from expiry |
| Concurrency.ExpiredUnderLockIsFinal | cache/memory.go:228-230 | in every run, an item expired while the lock is free keeps its deadline and stays expired: no pending write can reach it |
| Reads.PendingEvictionIsExpired | cache/memory.go:395-403 | an item awaiting eviction is expired unless it was written late during the read, whatever others did |
| Reads.StaleNeedsALateWrite | cache/memory.go:237-254 | an eviction that removes an unexpired item had a late write of that item during its own read |
| Reads.EvictionIsJustified | cache/memory.go:395-403 | compare-and-delete removes at most the item its reader began with and found expired; a concurrent `Set`'s item stays |
| Reads.ValueIsFixed | cache/memory.go:59-63 | an item's value never changes over a run |
| Reads.ItemWasStored | cache/memory.go:303-346 | every item was stored by an earlier `Set` or successful `SetOrFail`, has that call's value, lasts as long as it asked, and is only held under its key |
| Reads.HitIsLinearizable | cache/memory.go:210-257 | in every run, a hit returns the value of an item the map held unexpired under the key when the read held the lock, and that some earlier call stored under that key |
| Reads.MissIsJustified | cache/memory.go:388-406 | in every run, a miss means the key was unmapped under the lock, or the item read then was expired when the read decided |
| Reads.MissAtOnceIffUnmapped | cache/memory.go:391-393 | a read misses at once if and only if its key is unmapped when it holds the lock |
| Reads.MissLeavesNothing | cache/memory.go:399-403 | a read that misses after an expiry decision leaves its item unmapped |
| Sections.LockedStoreIsUnchanged | cache/memory.go:222-230 | while a read with options holds the lock nothing changes the store |
| Sections.SplitSectionIsAtomic | cache/memory.go:222-257 | sampling the clock and writing the deadline, whatever happens in between, does what the whole section does at the sampled instant |
| Sections.ShortSectionIsAtomic | cache/memory.go:228-235 | and so does a section that writes no deadline |
| Sections.RenewalCountsFromItsSample | cache/memory.go:237-254 | the renewed item expires as its deciding option asked, counted from the sample however late the write |
| Conservation.NeverReturns | cache/memory.go:399-403 | an item that left the map never re-enters it and keeps its deadline |
| Conservation.MappedUntilItDeparts | cache/memory.go:133-139 | an item is mapped, under one key, exactly until some step takes it out |
| Conservation.DepartsOnce | cache/memory.go:303-309 | no item leaves the map twice |
| Conservation.DepartureHasOneCause | cache/memory.go:232-235 | in every run each departure has exactly one cause: overwritten, deleted, removed expired, taken, drained, or evicted stale |
| Conservation.HandedOutIffTakenOrDrained | cache/memory.go:162-176 | the items handed to callers are exactly those that leave by being taken or drained |
| Conservation.DeliveredAtMostOnce | cache/memory.go:162-176 | over all concurrent `GetAndDelete` and `Drain` calls no item is handed out twice, nor is it mapped afterwards |
| Conservation.DrainIsExact | cache/memory.go:162-176 | a concurrent drain returns exactly the entries unexpired at its own earlier clock reading, hence all live ones, and empties the map |
| Conservation.SweepKeepsItsReading | cache/memory.go:440-442 | the instant a sweep uses is the clock reading with which it began |
| Conservation.CleanupIsExact | cache/memory.go:440-452 | a concurrent cleanup removes exactly the entries expired at its own clock reading |
| ExactAnswers.HeldThroughout | cache/memory.go:303-309 | an item that stays in the map stays under its key |
| ExactAnswers.MissLinearizesUnlessReplacedLive | cache/memory.go:395-405 | in every run, after a miss: the key was live at every instant of the read if and only if a `Set` replaced the item read, live until then, and the key stayed live since |
| ExactAnswers.MissWithoutStoresIsCurrent | cache/memory.go:395-405 | if nobody stores under the key during a read that misses, the key is live when it answers only if the read itself evicts a live item |
| ExactAnswers.TakenIsDeliveredIffUnexpired | cache/memory.go:232-235 | a read that took an item answers with it if and only if the item is unexpired at the second clock reading |
| ExactAnswers.DeliveredWasHandedOut | cache/memory.go:228-235 | in every run, what a read with `AndDelete` answers it took out of the map itself, live |
| ExactAnswers.AnsweredAtMostOnce | cache/memory.go:278-280 | two `AndDelete` reads that both answer a value answer different items |
| ExactAnswers.AnsweredIsNotDrained | cache/memory.go:162-176 | no drain returns an item that an `AndDelete` read answers |
| Exclusion.SetOrFailExcludesIff | cache/memory.go:334-346 | of two successes in a row without a release, the first one's item is expired at the second one's check if and only if no stale eviction removed it with a deadline not passed by then |
| Exclusion.SetOrFailExcludes | cache/memory.go:334-346 | without late writes of the first winner's item since it was stored, it is expired at the second winner's check |
| Exclusion.ExactlyOneWinner | cache/memory_concurrency_test.go:207-254 | among any number of attempts to store a non-expiring entry exactly one succeeds |
| Deadlines.ForeverWasAskedFor | cache/memory.go:228-254 | in every reachable state, a never-expiring item had that asked for by an earlier step and has had no deadline since |
| Deadlines.ExtensionsAddUp | cache/memory.go:242-247 | concurrent `AndUpdateTTL` reads of one item add up: original deadline (or first clock) plus all durations |
| LazyEviction.EvictionIsInvisible | cache/memory.go:388-409 | while no eviction of the key is stale, the item map holds what a map that never evicts holds, or that is expired |
| LazyEviction.EvictionIsInvisibleIff | cache/memory.go:399-403 | both maps agree on what is live under a key throughout a run if and only if no eviction of the key is stale; the containment has the same condition |
| LazyEviction.TimelyAtKeyIsTimelyForItem | cache/memory.go:245-254 | if no write to a key is late, none is of any item ever held under it |
| LazyEviction.TimelyAtKeyIsNeverStale | cache/memory.go:237-254 | and then no eviction at the key is stale |
| LazyEviction.ClaimsAnswerAsIdeal | cache/memory.go:334-346 | `SetOrFail` answers as on the map that never evicts |
| LazyEviction.ReadsAnswerAsIdeal | cache/memory.go:388-406 | a whole concurrent read, hit or miss, answers as the same read of the map that never evicts, deciding at its own clock reading |
| LazyEviction.EarlyMissIsFinal | cache/memory.go:210-220 | a read that finds no entry under the lock would miss on the map that never evicts however late it decides |
| LazyEviction.DrainsAnswerWithinIdeal | cache/memory.go:162-176 | a drain returns all ideal entries unexpired under the lock, only ideal entries unexpired at its clock reading, and of these exactly the ones not yet evicted |
| LazyEviction.DrainIsIdealIff | cache/memory.go:440-452 | a drain answers as on the map that never evicts if and only if no entry due has been evicted already |
| CounterRuns.LateWriteBreaksExclusion | cache/memory.go:237-254 | with a late deadline write, and the stale eviction it causes, two `SetOrFail` callers hold one key at once |
| CounterRuns.MissIsNotLinearizable | cache/memory.go:395-405 | the run behind the condition above: a read misses a key that was live at every instant of the read |
| CounterRuns.DeliveryIsNotExactlyOnce | cache/memory.go:232-235 | the run behind the condition above: `AndDelete` removes a live item and answers "not found" |
| CounterRuns.DrainIsNotIdeal | cache/memory.go:162-176 | a run without late writes in which a drain lacks an entry that was unexpired at its clock reading |
| Undisturbed.UndisturbedReadIsGet | cache/memory.go:207-258 | a read whose steps nobody interrupts is the read the class performs |
| Undisturbed.UndisturbedCallIsTheClass | cache/memory.go:111-176 | and so is every other call, in store and answer |
| Meaning.AfterSet | cache/memory.go:303-309 | after `Set` a plain read of the key gets the value until what was asked for has run out; other keys are not affected |
| Meaning.AfterSetOrFail | cache/memory.go:334-346 | it fails exactly when the key can be read, and then no reader notices; otherwise it is a `Set` |
| Meaning.AfterDelete | cache/memory.go:133-139 | the key cannot be read, other keys are not affected |
| Meaning.AfterDrain | cache/memory.go:162-176 | it returns exactly what could be read, and nothing can be read afterwards |
| Meaning.AfterMissedGet | cache/memory.go:228-230 | a read with options of a key that cannot be read misses and no reader notices |
| Meaning.AfterGet | cache/memory.go:232-254 | a read with options answers, and leaves for later readers, what its deciding option asked; other keys are not affected |
| Meaning.SomeOptionDecides | cache/memory.go:232-254 | every list of options has a deciding one |
| MemoryIsIdeal.GetRefinesIdeal | cache/memory.go:207-258 | one read, evictions included, answers as the ideal cache and keeps the containment |
| MemoryIsIdeal.CallRefinesIdeal | cache/memory.go:111-176 | every call answers as the ideal cache and keeps the containment |
| MemoryIsIdeal.Perform | cache/memory.go:303-346 | the class's methods perform the calls |
| MemoryIsIdeal.Replay | cache/memory.go:388-452 | any sequence of calls on a new cache, at clock readings that do not go back, gets the ideal responses |
| Redis.FlatArrayRoundTrip | cache/redis.go:16-23 | decoding a listing of a map in any order gives the map back |
| Redis.RedisHash.HGetAllAndDelete | cache/redis.go:16-23 | the drain script returns a listing of the visible fields and removes the hash |
| Redis.RedisHash.GetAndUpdateTTL | cache/redis.go:26-51 | the read script, command by command |
| Redis.RedisCache.Set | cache/redis.go:381-400 | the value and its second-granular deadline, or the server's refusal |
| Redis.RedisCache.SetOrFail | cache/redis.go:425-448 | fails on a visible field and otherwise stores value and deadline |
| Redis.RedisCache.Get | cache/redis.go:280-335 | fast path or script, with the arguments the options decide |
| Redis.RedisCache.Delete | cache/redis.go:200-206 | removes the field |
| Redis.RedisCache.DecodeReply | cache/redis.go:239-245 | the stride-two loop decodes the listing |
| Redis.RedisCache.Drain | cache/redis.go:228-248 | returns exactly the visible fields, all of which the script removed |
| Redis.SentDeadlineRoundsDown | cache/redis.go:299-312 | the instant sent is never later than the exact deadline and less than a second earlier |
| Redis.StoredDeadlineRoundsDown | cache/redis.go:388-394 | the same for a stored field |
| Redis.ExtensionIsOffByLessThanASecond | cache/redis.go:42-47 | an extension of a running deadline ends less than a second away from the exact one |
| Redis.ExtensionOfPermanentField | cache/redis.go:42-47 | a permanent entry gets a deadline of now plus the whole seconds of the extension, and stays permanent if it is shorter than one |
| Redis.StoredFieldIsSeen | cache/redis.go:381-400 | a stored field can be read through the last whole second before its deadline, for ever if the deadline is zero or refused, never if that second is not ahead |
| Redis.TouchedFieldIsSeen | cache/redis.go:280-335 | what can be read after a read with options, for any deciding option, in or out of the fragment |
| Redis.ExtensionIsSeen | cache/redis.go:42-47 | the whole seconds of an extension are added to the seconds left, rounded up; less than a second changes nothing |
| Redis.MissedFieldIsUntouched | cache/redis.go:28-31 | a read of an invisible field misses and changes nothing |
| Agreement.AgreementLasts | cache/redis.go:180-182 | agreement of the visible entries, deadlines compared up to the second, survives the passing of time |
| Agreement.DifferenceShows | cache/redis.go:394 | if two entries do not agree, one plain read at some whole second tells them apart |
| Agreement.AgreeIffReadsAgree | cache/redis.go:280-296 | two states agree if and only if plain reads at present and later whole seconds cannot tell them apart |
| Agreement.StoreAgreesIff | cache/redis.go:388-394 | storing agrees with the ideal cache exactly for no deadline, deadlines at least a second ahead, and past instants since 1970 |
| Agreement.ExtensionAgreesIff | cache/redis.go:306-307 | an extension agrees exactly when the seconds left after truncation are those by which the deadline moves |
| Agreement.RewriteAgreesIff | cache/redis.go:299-312 | a read that rewrites a live entry's deadline agrees exactly in the read fragment |
| Agreement.GetAgreesIff | cache/redis.go:280-335 | a whole read agrees exactly in the read fragment |
| Agreement.CallAgreesIff | cache/cache.go:110-280 | every call of the interface agrees, in response and state, exactly in the fragment |
| Agreement.CallAnswersAlikeIff | cache/cache.go:110-280 | the same in answers only: this response and every plain read after it are alike exactly in the fragment |
| Agreement.RefusalIsAnswered | cache/redis.go:395-397 | a deadline before 1970 is answered with the server's refusal, unless the key is taken |
| Agreement.RedisAnswersAsIdeal | cache/redis.go:280-335 | every sequence of calls in the fragment gets the ideal responses |
| Agreement.NeverTellApartIff | cache/cache.go:110-280 | the fragment is exact for sequences: outside it some response, or a plain read after some call, differs |
| Agreement.RunOkIsInFragment | cache/options.go:23-209 | TTLs of a second or more, whole-second extensions and deadlines a second or more ahead are in the fragment, whatever the state |
| Agreement.Perform | cache/redis.go:381-448 | the Redis client's methods perform the calls |
| Agreement.Replay | cache/redis.go:135-162 | a sequence of calls on a new Redis cache gets the responses of those calls |
| Agreement.CompareBackends | cache/cache.go:110-280 | both backends, run on one sequence of calls in the fragment, give the same responses |
| Registry.OpenAfterClosing | factory.go:45-56 | closing a cache takes out its entry only and keeps the order of the others |
| Registry.RegisteredAreTheOpen | factory.go:39-89 | after any interleaving the list is the caches handed out and not closed since, once each, in order |
| Factories.Wrapper.Close | factory.go:80-89 | unregisters whether or not the backend's close succeeds, and passes its error on |
| Factories.Wrapper.Cleanup | factory.go:171-175 | one cleanup of the wrapped backend, entered in the log of cleanups; its failure is returned |
| Factories.CacheTracker.Add | factory.go:39-43 | appends the entry and keeps the others in order, in place or in a larger array |
| Factories.CacheTracker.Cut | factory.go:51 | the in-place shift removes one position and keeps the rest in order |
| Factories.CacheTracker.Remove | factory.go:45-56 | removes the first entry of the cache, in place, or nothing |
| Factories.CacheTracker.List | factory.go:58-66 | a copy in fresh storage |
| Factories.OpenBackendsAreApart | factory.go:137-152 | no two open caches share an in-memory backend |
| Factories.FailuresAreComplete | factory.go:169-178 | a sweep reports no error if and only if no foreign backend failed, and every failure is in it |
| Factories.FailuresReport | factory.go:169-178 | the report has one entry for each failing cache, in order, under its name with its error, and nothing else |
| Factories.Factory.New | factory.go:137-152 | registers a fresh wrapper under the composed name, or registers nothing when the backend cannot be built |
| Factories.Factory.WithName | factory.go:155-166 | a derived factory composes the prefix and shares the tracker |
| Factories.Derive | factory.go:155-166 | a chain of derived factories has the composed prefix and shares the tracker |
| Factories.OpenUnder | factory.go:137-152 | a cache from such a chain is registered under the names joined by colons, leading empty ones left out |
| Names.ComposedIsJoined | factory.go:137-166 | the composed name is that join |
| Names.ComposeKeepsNames | factory.go:138-141 | one factory gives different names to different names, each ending with the name asked for |
| Names.SameNameIff | factory.go:155-159 | without colons in the names, two chains compose to one name exactly if they differ in leading empty names only |
| Names.ColonsCollide | factory.go:155-159 | with colons different chains can compose to one name |
| Names.SameHashIff | cache/redis.go:135-158 | without colons in the names, two Redis caches share a hash exactly if their chains differ in leading empty names and one last empty name |
| Factories.Factory.Turn | factory.go:171-175 | one cleanup of this cache, logged, with the tracker changing meanwhile; the snapshot and the other caches stay as they were |
| Factories.Factory.SweepSnapshot | factory.go:171-175 | the loop over the snapshot logs one cleanup of each entry's cache, in order, records every failure, and each cache keeps exactly its unexpired items |
| Factories.Factory.CleanupAll | factory.go:169-178 | the logged cleanups are those of the caches open at the start, once each, in order, whatever fails and whatever is added or removed meanwhile; each failing cache is reported once, by name, in order |
| Factories.Factory.SweepIsComplete | factory.go:169-178 | an undisturbed sweep leaves no entry expired at its start, and every entry live at its cleanup unchanged |

## Left out

- Redis server and client: commands are modelled by their effect on one hash, as stated at the top of `Redis.dfy`; network
  errors, URL parsing, connection ownership and client close are not part of this model.
- Redis.Expire: does not model the server's upper bound on expiry instants, thousands of years ahead.
- Redis.RedisCache.SetOrFail: does not model other clients acting between its two commands.
- Redis.RedisCache.Get: converts durations to seconds exactly; the `float64` detour of the code can round the last few
  nanoseconds of a duration longer than half a year up to the next second.
- Agreement.CallAgreesIff: client and server share one clock on whole seconds; other clocks have the rounding bounds only.
- The Go memory model: the mutex is atomicity of steps, and the unsynchronised read of a deadline at `cache/memory.go:395`
  is one step with its clock reading.
- Wall and monotonic components of `time.Time`: there is one integer clock that does not go back.
- Aliasing of value slices between caller and cache: values are immutable here.
- Contexts, error texts and wrapping, the typed cache, the sweeper's ticker and the module wiring: nothing hard to state.
- `NewFactory`'s URL parsing: a factory is created knowing whether its backends are in memory.
