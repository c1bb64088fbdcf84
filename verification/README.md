# Verified models of the nv-redfish cores

This project models the parts of nv-redfish whose correctness rests on facts the code relies on but
never states in one place, and proves those facts for all inputs, all reachable states and all
interleavings. `dafny verify dfyconfig.toml` checks everything.

## What is modelled

**The CAR cache** (`bmc-http/src/cache.rs`) in three layers.
`Slots`, `GhostLists` and `ClockLists` hold the slot vectors, free stacks, intrusive links and hands as
classes that update them in place; `CarIndex` is the key index; `CarCaches.CarCache` puts them together.
`CarSpec` is the algorithm of the CAR paper on four sequences. `CarMap` is the cache as its users see it,
a partial map. The class is proved equal, operation by operation, to the algorithm on sequences, and that
one to the map. `CarAccesses` says page by page what one access does: the bit it sets, the place of a new
page, the step of the target. `CarProperties` has the invariants I1 to I7, adaptation and ghost order over every run;
`CarSweep` has the closed form of `replace`, second chance and scan resistance. Capacities and indices are
natural numbers (`usize` overflow is not modelled).

**Conditional reads** (`bmc-http/src/lib.rs`, `get_with_cache`). `ConditionalReads` splits a read at its
await into two critical sections over the shared cache and interleaves any number of reads with server
changes. A representation carries the ETag that revalidates it, a decoder turns it into an entity of the
type asked for, and a repair rewrites it first. A server may answer 304 only to a request whose ETag is
the current one.

**The dispatcher runtime** (`dispatcher/src/runtime.rs`). `RuntimeSpec` is one `poll` as a function;
`DispatcherRuntimes` is the runtime and its handles as objects; `RuntimeProperties` is what every
interleaving of polls and handle calls keeps, stated as a law on the log of what happened; `RuntimeAnswers`
is what a poll takes, finishes and answers, in terms of its input alone, and shows that the log is true to
what the scheduler gave and the driver got. The clock, the
scheduler's replies, which payloads finish and when a handle raises the shutdown flag are inputs.

**The round-robin tree** (`dispatcher/examples/composable_tree.rs`, `dispatcher/src/work.rs`).
`SchedulerTrees` and `TreeProperties`: trees of any depth, routing paths cut to 32-bit indices, children
attached at any time.

**The SSE byte cap** (`bmc-http/src/reqwest.rs`): `SseCaps` checks the automaton against a splitter of
the stream into records.

**`Edm.Duration`** (`core/src/edm_duration.rs`): `Decimals`, `EdmDurations`, `DurationTexts`,
`StdDurations`. Values are
exact decimals. Decimal text is digits with at most one point and at least one digit, which is what
`take_digits` lets through of what the decimal library reads.

**Success messages** (`bmc-http/src/response.rs`): `SuccessMessages` keeps of a JSON body only what the
reader looks at.

## Where the code and its documentation or intent part

- `strict_success_code` documents that `NoOperation` must not stand beside `Success` or `Created`; the
  code also refuses it beside `ResetRequired`. `SuccessMessages.StricterThanDocumented` says that the code
  gives a strict code if and only if the documented condition holds and those two are not both named;
  `PartialResetIsRefused` is a body on which they differ.
- Deadlines given to the driver need not decrease until one of them is reached: an earlier deadline that
  was observed while an output was queued can be reached unreported, after which a later one is given.
  `RuntimeProperties.DeadlineGrowsUnreached` is such a run. `DeadlineCanGrowIff` says when it can happen:
  in a reachable state with a standing deadline the next poll can give one that is not earlier, before
  the standing one is reached, if and only if nothing is queued, the flag is down, there is room under the
  cap and the retained deadline is still to be given. Over runs, `ReportedIffPunctual` says that every
  deadline dropped as reached had been given if and only if no poll with nothing queued starts at or past
  a deadline still to be given, and `PunctualDeadlines` that in such runs deadlines decrease until a given
  one is reached, the scheduler has none or shutdown ends scheduling.
- A cached entity is reused for a read with another repair. `ConditionalReads.ReadsCorrectIffRepairsAgree`
  says that reads are correct under every interleaving if and only if caching is off or the repairs in use
  agree on what can be cached.
- A branch stores a child index in 32 bits. `TreeProperties.RoutesBack` says that a completion reaches
  the leaf that made the work if and only if every index on the way fits, which is always so when no
  branch has more than 2^32 children. `TooWideMisroutes` is a branch of 2^32 + 1 leaves whose last leaf's
  completion goes to the first.
- The duration reader takes more than the lexical form of `Edm.Duration`: the time components come in any
  order and number, digits before a `T` without a `D` and digits after the last designator are dropped, and
  the time part may be empty. `DurationTexts.ReadsExactlyDurations` says exactly which texts are read.
- Conversion to a standard duration can fail for a duration while it succeeds for a shorter and for a
  longer one (`StdDurations.SuccessIsNotMonotone`). `ConvertsIffFits` says that it succeeds if and only if
  the duration is not negative and its rounded count of seconds, milliseconds, microseconds or
  nanoseconds, as the number of its fraction digits decides, is below 2^64; success is monotone among
  durations counted in the same unit, and from a finer unit to a coarser one
  (`SuccessIsMonotoneWithinUnits`).

## Model

| member | source | states |
|---|---|---|
| GhostLists.GhostList.AcquireSlot | bmc-http/src/cache.rs:104-114 | A slot is found just when the list holds fewer keys than its capacity, and it is the one slot that is neither occupied nor left free. |
| GhostLists.GhostList.InsertAtTail | bmc-http/src/cache.rs:119-141 | Appends the key and keeps links, free slots, head and tail in order; fails just when the list is full. |
| GhostLists.GhostList.RemoveLru | bmc-http/src/cache.rs:144-164 | Pops the oldest key and keeps the list well formed; empty gives none. |
| GhostLists.GhostList.Remove | bmc-http/src/cache.rs:167-197 | Takes out the key at the given slot wherever it stands and keeps the order of the others; an empty slot changes nothing. |
| ClockLists.ClockList.AcquireSlot | bmc-http/src/cache.rs:241-251 | A slot is found just when the ring holds fewer pages than its capacity. |
| ClockLists.ClockList.InsertAtTail | bmc-http/src/cache.rs:256-285 | Read from the hand, insertion appends an unreferenced page; fails just when the ring is full. |
| ClockLists.ClockList.GetHeadPage | bmc-http/src/cache.rs:288-294 | Gives the page at the hand. |
| ClockLists.ClockList.RemoveHeadPage | bmc-http/src/cache.rs:297-314 | Read from the hand, removal pops the head and the hand moves on. |
| ClockLists.ClockList.Advance | bmc-http/src/cache.rs:317-323 | Advancing the hand makes the head page the tail page and changes nothing else. |
| ClockLists.ClockList.EntryAt | bmc-http/src/cache.rs:332-334 | Gives an entry just for the slots on the ring, and the page at that place. |
| ClockLists.ClockList.SetEntryAt | bmc-http/src/cache.rs:325-330 | Writing through the entry of a slot changes that page alone. |
| ClockLists.InsertLast | bmc-http/src/cache.rs:256-285 | Linking a node in behind the hand keeps the circle, the partition of the slots and the order of the pages. |
| ClockLists.RemoveFirst | bmc-http/src/cache.rs:297-314 | Unlinking the node at the hand keeps them too and says where the hand goes. |
| ClockLists.AdvanceHand | bmc-http/src/cache.rs:21-25 | "Make it the tail page" is the hand passing over the page: the same ring, read from the next slot. |
| GhostLists.HangLast | bmc-http/src/cache.rs:119-141 | Hanging a node behind the last one represents the longer list of keys. |
| GhostLists.Splice | bmc-http/src/cache.rs:167-197 | Emptying a slot and joining its neighbours represents the list without that key. |
| Slots.Occupy | bmc-http/src/cache.rs:104-141 | Occupied and free slots partition the slot vector after an insertion. |
| CarIndex.Where | bmc-http/src/cache.rs:343-348 | A key is on the list its index entry names, at that slot, and on no other. |
| CarIndex.Detach | bmc-http/src/cache.rs:475-489 | Removing a key from its list and from the index keeps the index exact. |
| CarIndex.Attach | bmc-http/src/cache.rs:543-556 | Adding an unknown key to a list and to the index keeps the index exact. |
| CarCaches.CarCache.constructor | bmc-http/src/cache.rs:383-399 | A new cache is the empty state, with one slack slot in each ghost list. |
| CarCaches.CarCache.IndexIsExact | bmc-http/src/cache.rs:351-368 | The index names exactly the keys of T1, T2, B1 and B2, each with the slot that holds it; occupied and free slots partition every slot vector. |
| CarCaches.CarCache.MoveToT2 | bmc-http/src/cache.rs:543-556 | The key goes to the tail of T2 and the index is exact again. |
| CarCaches.CarCache.TryReplaceFromT1 | bmc-http/src/cache.rs:585-614 | One pass over T1 of the paper, victim and index included. |
| CarCaches.CarCache.TryReplaceFromT2 | bmc-http/src/cache.rs:617-648 | One pass over T2 of the paper, but for the hand of a page that is spared. |
| CarCaches.CarCache.Replace | bmc-http/src/cache.rs:559-583 | The loop terminates with the state and the victim of the algorithm on sequences; no insertion in it fails. |
| CarCaches.CarCache.DiscardGhost | bmc-http/src/cache.rs:471-490 | Lines 6 to 9 of the paper. |
| CarCaches.CarCache.PromoteFromB1 | bmc-http/src/cache.rs:493-508 | Lines 14 to 16: the target grows, the ghost goes, the page enters T2. |
| CarCaches.CarCache.PromoteFromB2 | bmc-http/src/cache.rs:509-524 | Lines 17 to 19. |
| CarCaches.CarCache.Place | bmc-http/src/cache.rs:492-535 | Lines 12 to 19 for the location looked up after `replace`. |
| CarCaches.CarCache.Hit | bmc-http/src/cache.rs:441-453 | A resident key is found through the index, its bit set and its value refreshed; nothing else changes. |
| CarCaches.CarCache.Get | bmc-http/src/cache.rs:408-430 | A read is one `Get` of the algorithm and keeps the whole invariant. |
| CarCaches.CarCache.Put | bmc-http/src/cache.rs:435-537 | A write is one `Put` of the algorithm, the change to p and the evicted entry included, and keeps the whole invariant. |
| CarSpec.PassClearsOneBit | bmc-http/src/cache.rs:559-583 | On a full cache with p <= c a pass always has a page to look at, and one without a victim clears exactly one bit and leaves the cache full. |
| CarProperties.ReplaceShape | bmc-http/src/cache.rs:585-648 | `replace` gives up exactly its victim, whose key becomes the newest ghost; no ghost is lost and \|T1\| + \|B1\| does not grow. |
| CarProperties.ReplaceIsBounded | bmc-http/src/cache.rs:559-583 | `replace` makes at most one pass more than there are set bits, so at most c + 1. |
| CarProperties.MidPut | bmc-http/src/cache.rs:390-398 | In the middle of a `put` B1 holds at most c and B2 at most c + 1 keys, there is room for the page, and the requested ghost is still there. |
| CarProperties.GetKeepsInv | bmc-http/src/cache.rs:408-430 | A read keeps I1 to I7 and the directory. |
| CarProperties.PutKeepsInv | bmc-http/src/cache.rs:435-537 | A write keeps I1 to I6, p <= c, no key known twice, and a full cache full. |
| CarProperties.Run | bmc-http/src/cache.rs:738-836 | Every run of reads and writes from an empty cache satisfies I1 to I6, p <= c and knows no key twice. |
| CarProperties.FullForever | bmc-http/src/cache.rs:738-836 | A cache that was full at any point of a run is full for the rest of it (I7). |
| CarProperties.TargetMoves | bmc-http/src/cache.rs:493-524 | p moves only on a ghost hit, up on B1 and down on B2, strictly while it can. |
| CarAccesses.TargetStep | bmc-http/src/cache.rs:493-524 | On a ghost hit p moves by \|B2\| / \|B1\| or \|B1\| / \|B2\|, the whole quotient but at least 1, as the lists stand with the victim's ghost in, and stops at c or 0. |
| CarAccesses.NoAdaptationBeforeFull | bmc-http/src/cache.rs:383-399 | In any run, until the cache has filled up p is 0 and there are no ghosts. |
| CarAccesses.WriteMarks | bmc-http/src/cache.rs:440-453 | A write to a resident key gives its page, at its place, the value and a set bit; every other page, the ghosts, p and c stay, and nothing is evicted. |
| CarAccesses.ReadMarks | bmc-http/src/cache.rs:408-430 | A read of a resident key sets the bit of its page and changes nothing else. |
| CarAccesses.NewPagePlace | bmc-http/src/cache.rs:463-535 | A new page comes in unreferenced at the tail of T1, or of T2 if its ghost was known; the other pages and the victim are those of the sweep, or all of them and none while the cache is not full. |
| CarAccesses.WithoutKeepsOrder | bmc-http/src/cache.rs:167-197 | A ghost that leaves keeps the others in order. |
| CarProperties.GhostsStayInOrder | bmc-http/src/cache.rs:463-524 | On a miss one ghost list gains the victim at its new end. A requested ghost leaves its list; for an unknown key the oldest of B1 leaves if T1 and B1 have come to c keys, else the oldest of B2 if the directory holds 2c, else none. |
| CarMap.GetReadsMap | bmc-http/src/cache.rs:408-430 | A read answers from the map and does not change it. |
| CarMap.PutUpdatesMap | bmc-http/src/cache.rs:435-537 | `put` binds k to v, removes exactly the binding it returns, returns one just when k was not resident and the cache full, never k's own. |
| CarMap.ReplaceLosesVictim | bmc-http/src/cache.rs:559-648 | `replace` removes its victim's binding and no other. |
| CarMap.AnswersAreLatest | bmc-http/src/cache.rs:408-537 | After any run, an answered read gives the latest write of its key. |
| CarMap.NothingForgottenBeforeFull | bmc-http/src/cache.rs:435-537 | While the cache has not filled up, every key written is answered, with its latest value. |
| CarMap.DisabledCache | bmc-http/src/cache.rs:371-438 | Capacity 0 disables the cache: after any run no read is answered and no write stores or evicts. |
| CarSweep.ReplaceIsSweep | bmc-http/src/cache.rs:559-648 | The loop of `replace` equals a closed form: which page leaves, which move to T2, where each hand stops; all T1 passes come first. |
| CarSweep.T1Passes | bmc-http/src/cache.rs:585-614 | n fruitless T1 passes move the first n pages to the tail of T2, cleared. |
| CarSweep.T2Passes | bmc-http/src/cache.rs:617-648 | n fruitless T2 passes turn the ring by n and clear those bits. |
| CarSweep.SecondChance | bmc-http/src/cache.rs:559-648 | The victim had its bit set on entry if and only if every page of T2, and of T1 within its quota, did. |
| CarSweep.ReadPageIsSpared | bmc-http/src/cache.rs:408-430 | A page read since the last replacement leaves next only if every page the hands examine has its bit set. |
| CarAccesses.UsedPageIsSpared | bmc-http/src/cache.rs:408-453 | A page read or written at any time since the last eviction leaves next only if every page the hands examine has its bit set. |
| CarSweep.ScanResistance | bmc-http/src/cache.rs:463-537 | A run of any length of new keys, from a full cache with p <= 1 and an unreferenced page in T1, leaves T2 as a prefix of itself and p unchanged. |
| ConditionalReads.HttpBmc.BeginGet | bmc-http/src/lib.rs:625-646 | The lookup: the value kept for a 304 has the type asked for, and its ETag is the one sent. |
| ConditionalReads.HttpBmc.FinishGet | bmc-http/src/lib.rs:650-687 | The conclusion: what is returned and what is put in the cache for each kind of response. |
| ConditionalReads.ResultIsTheAnswers | bmc-http/src/lib.rs:650-687 | In every run a finished read returns an entity if and only if a full answer decodes to it or it was kept for a 304, `DecodeFailure` if and only if a full answer does not decode, `Transport` if and only if the request failed, a miss only on a 304 with nothing kept. |
| ConditionalReads.LookUpFinds | bmc-http/src/lib.rs:632-640 | The lookup finds what the map binds if caching is on and the type fits, and marks the page it meets even if the type does not. |
| ConditionalReads.ConcludeStores | bmc-http/src/lib.rs:661-678 | A full answer with an ETag binds the URL to its entity if caching is on; anything else leaves the cache alone. |
| ConditionalReads.RunKeepsWorldOk | bmc-http/src/lib.rs:620-688 | In every reachable world each cached or kept entity is what an allowed repair makes of the representation its ETag stands for. |
| ConditionalReads.AgreeingRepairsSuffice | bmc-http/src/lib.rs:620-688 | Under every interleaving a 304 to a conditional request never ends in a miss, whatever was evicted, and a returned entity is what a full answer would have given at the time. |
| ConditionalReads.AgreeingRepairsNeeded | bmc-http/src/lib.rs:620-688 | Repairs that disagree on a cacheable representation give a run that returns the wrong entity. |
| ConditionalReads.ReadsCorrectIffRepairsAgree | bmc-http/src/lib.rs:620-688 | Both directions, caching disabled included. |
| ConditionalReads.OneRepairAgrees | bmc-http/src/lib.rs:697-703 | A client with a single repair meets the condition. |
| DispatcherRuntimes.RuntimeHandle.GracefulShutdown | dispatcher/src/runtime.rs:618-626 | Sets the shared flag; a second call changes nothing. |
| DispatcherRuntimes.Runtime.Handle | dispatcher/src/runtime.rs:170-176 | A handle shares the runtime's locked state. |
| DispatcherRuntimes.Runtime.ForwardCompletions | dispatcher/src/runtime.rs:268-278 | Every pending completion is forwarded once, in order, and none is left. |
| DispatcherRuntimes.Runtime.DispatchAvailable | dispatcher/src/runtime.rs:311-339 | Dispatches until the cap, a deadline or no work; an earlier retained deadline is not postponed. |
| DispatcherRuntimes.Runtime.DrainCompleted | dispatcher/src/runtime.rs:191-226 | Each finished payload becomes one completion and one queued output; progress is reported just when one did. |
| DispatcherRuntimes.Runtime.AskScheduler | dispatcher/src/runtime.rs:303-346 | The section under the scheduler lock: dispatch, or notice the shutdown and drop the deadline. |
| DispatcherRuntimes.Runtime.Turn | dispatcher/src/runtime.rs:295-388 | One turn of the loop with nothing queued. |
| DispatcherRuntimes.Runtime.Poll | dispatcher/src/runtime.rs:264-394 | The loop computes the poll function; its second turn only forwards and pops. |
| RuntimeProperties.PollKeeps | dispatcher/src/runtime.rs:264-394 | At every return of `poll` the invariant holds and no completion is pending. |
| RuntimeProperties.EveryRunIsLawful | dispatcher/src/runtime.rs:264-394 | In every interleaving of polls and handle calls the log obeys the law on order, shutdown and deadlines. |
| RuntimeAnswers.PickedMeans | dispatcher/src/runtime.rs:191-226 | The finished and the pending payloads are together those in flight, none twice; draining goes on until nothing named is in flight. |
| RuntimeAnswers.DispatchTakes | dispatcher/src/runtime.rs:311-323 | Asking takes exactly the work that the ready replies give, in order, up to the room under the cap, and starts each item at this poll's time. |
| RuntimeAnswers.DrainFinishes | dispatcher/src/runtime.rs:191-226 | Each ready payload becomes one completion and one output with its outcome, the time since its own start and, for the scheduler, the time it was seen. |
| RuntimeAnswers.PollAnswers | dispatcher/src/runtime.rs:264-394 | What a poll takes, tells the scheduler, answers and keeps, decided from the replies, the ready payloads and the clock: queued output, else the first finished work, else `Shutdown`, else the held deadline if still to be given, else nothing. |
| RuntimeAnswers.LogIsTrue | dispatcher/src/runtime.rs:264-394 | In every run the work dispatched, the completions told and the outputs returned, as logged, are those the scheduler gave, those that finished and those the polls answered, in order. |
| RuntimeAnswers.ExactlyOnce | dispatcher/src/runtime.rs:191-226 | The items the scheduler gave are those in flight, those queued and those the polls returned, each once; the scheduler was told of exactly what was returned and then what is queued, in that order, with the same outcome and latency; the cap holds. |
| RuntimeAnswers.DeadlinesAreTheSchedulers | dispatcher/src/runtime.rs:324-339 | Every deadline held or given to the driver was named by the scheduler in some poll. |
| RuntimeProperties.HandedOutAfterForwarded | dispatcher/src/runtime.rs:267-294 | At every moment, what was handed out is a prefix of what was forwarded, which was dispatched. |
| RuntimeProperties.NoDispatchAfterShutdown | dispatcher/src/runtime.rs:303-314 | Nothing is dispatched once the flag is set. |
| RuntimeProperties.ShutdownIsLast | dispatcher/src/runtime.rs:368-378 | `Shutdown` comes only when every dispatched item has been handed out, and only `Shutdown` follows it. |
| RuntimeProperties.DrainsThenShutsDown | dispatcher/src/runtime.rs:606-609 | With the flag set and payloads still finishing, polls hand out the queue in order, then one finished item each, and then return `Shutdown` at every poll. |
| RuntimeProperties.EverythingIsHandedOut | dispatcher/src/runtime.rs:606-609 | The items handed out meanwhile are those that were queued and in flight, each once. |
| RuntimeProperties.PollDeadlines | dispatcher/src/runtime.rs:380-393 | A poll that parks has reported every deadline it holds; a deadline the scheduler names is retained and the one reported is no later. |
| RuntimeProperties.DeadlinesDecrease | dispatcher/src/runtime.rs:299-346 | Successive deadlines given to the driver strictly decrease until a retained one is dropped. |
| RuntimeProperties.WhyADeadlineGrew | dispatcher/src/runtime.rs:299-346 | A deadline that did not decrease is explained by a dropped one, no later than the first, that was reached, or by the scheduler having none or being shut down; a dropped one marked as emitted had been given in between. |
| RuntimeProperties.PollReported | dispatcher/src/runtime.rs:299-302 | A poll drops a reached deadline that was never given just when it starts with nothing queued at or past an observed one. |
| RuntimeProperties.ReportedIffPunctual | dispatcher/src/runtime.rs:264-394 | In any run, every deadline dropped as reached had been given to the driver if and only if no poll was late in that sense. |
| RuntimeProperties.PunctualDeadlines | dispatcher/src/runtime.rs:299-346 | In a run without late polls, a deadline that did not decrease means that a given one, no later than the first, was reached, or that the scheduler had none or was shut down. |
| RuntimeProperties.GivenDeadline | dispatcher/src/runtime.rs:324-388 | A poll gives a deadline only with nothing queued; it is the one still to be given or earlier than any retained one not yet reached, and with none retained the scheduler was asked. |
| RuntimeProperties.DeadlineCanGrowIff | dispatcher/src/runtime.rs:299-346 | The next poll can give a deadline not earlier than the standing one before that is reached if and only if nothing is queued, the flag is down, there is room under the cap and the retained deadline is still to be given. |
| RuntimeProperties.DeadlineGrowsUnreached | dispatcher/src/runtime.rs:299-346 | A run in which the dropped deadline was never given to the driver. |
| SchedulerTrees.TakeNextByLoop | dispatcher/examples/composable_tree.rs:196-213 | The loop asks each child once from the cursor on and stamps the one that had work. |
| SchedulerTrees.Advance | dispatcher/examples/composable_tree.rs:205 | The cursor wraps to the first child behind the last. |
| TreeProperties.ScanTakes | dispatcher/examples/composable_tree.rs:196-213 | A take leaves every child alone or asks it once, and work comes from the child the cursor has just passed. |
| TreeProperties.TakeAsks | dispatcher/examples/composable_tree.rs:196-213 | A take asks the children in order from the cursor on until one has work, and no other; there is no ticket just when all were asked and had none. |
| TreeProperties.Producer | dispatcher/src/work.rs:97-116 | The stamped path carries the place of the leaf that made the work, each index cut to 32 bits. |
| TreeProperties.Delivers | dispatcher/examples/composable_tree.rs:215-222 | A completion reaches the leaf its path leads to or through, with what is left of the path, and no other leaf at any depth changes. |
| TreeProperties.RoutesBack | dispatcher/examples/composable_tree.rs:196-222 | In a tree of any depth the path leads back to the producing leaf and arrives empty, whatever was taken, completed or attached meanwhile, if and only if the indices on the way fit in 32 bits; no other leaf hears of it then. |
| TreeProperties.TooWideMisroutes | dispatcher/examples/composable_tree.rs:196-222 | With 2^32 + 1 leaves the last one's work comes back to the first, and the last hears nothing. |
| TreeProperties.AttachExtends | dispatcher/examples/composable_tree.rs:164-166 | Attaching a child anywhere keeps every leaf at its place. |
| TreeProperties.AttachArrives | dispatcher/examples/composable_tree.rs:164-166 | The child arrives behind the children of the branch the path leads to, which keeps its cursor, and nothing that the path does not pass changes. |
| TreeProperties.AttachElsewhere | dispatcher/examples/composable_tree.rs:164-166 | A branch the path leads through keeps its cursor and its number of children; every other place is unchanged. |
| TreeProperties.AttachNowhere | dispatcher/examples/composable_tree.rs:164-166 | A path that leads to no branch attaches nothing. |
| TreeProperties.AttachedIsServed | dispatcher/examples/composable_tree.rs:196-246 | An attached child that has work is served within n + 1 takes of a branch that had n children. |
| TreeProperties.StampIsExact | dispatcher/examples/composable_tree.rs:206-209 | A branch recognises its stamp if and only if the child's index fits in 32 bits. |
| TreeProperties.ServedWithinOneRound | dispatcher/examples/composable_tree.rs:196-213 | A child that has work is served within n takes of its branch. |
| TreeProperties.ServedWithinWidths | dispatcher/examples/composable_tree.rs:196-213 | A leaf that always has work is served within as many takes of the root as the product of the widths above it. |
| SseCaps.EventCap.Next | bmc-http/src/reqwest.rs:339-375 | A chunk is refused just when the automaton trips in it; the state kept is that of the bytes read; upstream errors pass. |
| SseCaps.ChunkingDoesNotMatter | bmc-http/src/reqwest.rs:344-372 | The byte at which the cap first trips does not depend on the chunking. |
| SseCaps.RecordsAreTheStream | bmc-http/src/reqwest.rs:315-330 | The reference splitter cuts up the stream and loses nothing. |
| SseCaps.RecordEndsAtBlankLine | bmc-http/src/reqwest.rs:315-330 | A record is any lines and a blank one, each ended by byte 10, byte 13 or 13 and 10; what follows is split on its own. |
| SseCaps.TripsAtFirstOverlongRecord | bmc-http/src/reqwest.rs:332-375 | The cap trips exactly at the byte by which the first overlong record crosses the limit. |
| SseCaps.TripsIffSomeRecordIsTooLong | bmc-http/src/reqwest.rs:332-375 | However chunked, the cap trips if and only if some record, through its closing blank line, exceeds the limit. |
| Decimals.ParsePrinted | core/src/edm_duration.rs:199-204 | A printed decimal reads back as itself, scale included. |
| EdmDurations.PartsOf | core/src/edm_duration.rs:114-117 | Days, hours below 24, minutes below 60 and seconds below 60 that add up to the value. |
| EdmDurations.Display | core/src/edm_duration.rs:240-271 | The writer, piece by piece, gives the text. |
| EdmDurations.FromStr | core/src/edm_duration.rs:185-237 | The reader, character by character, gives the parse. |
| EdmDurations.TakeDigits | core/src/edm_duration.rs:91-102 | Splits off digits and points and makes progress. |
| EdmDurations.ReadsComponents | core/src/edm_duration.rs:222-236 | Components in any order and number add up. |
| DurationTexts.ReadsDuration | core/src/edm_duration.rs:185-237 | A text of the described form reads as its sign times the exact sum of its days, hours, minutes and seconds. |
| DurationTexts.ReadsExactlyDurations | core/src/edm_duration.rs:185-237 | A text is read if and only if it has that form; every other one is refused as invalid. |
| DurationTexts.NumbersRead | core/src/edm_duration.rs:199-204 | A number is digits, or digits around one point, with at least one digit; its fraction keeps its digits. |
| DurationTexts.TwoPoints | core/src/edm_duration.rs:199-204 | Two points make no number. |
| DurationTexts.DigitsMean | core/src/edm_duration.rs:199-204 | Each digit has its own value. |
| DurationTexts.AddIsExact | core/src/edm_duration.rs:232-235 | Adding up components of different precision is exact. |
| DurationTexts.WritesParts | core/src/edm_duration.rs:240-271 | A duration of given days, hours below 24, minutes below 60 and seconds below 60 is written as those numbers, without the zero ones but for the seconds of a time part. |
| EdmDurations.RoundTrip | core/src/edm_duration.rs:185-271 | Every duration, printed and read, is the same value in normal form. |
| EdmDurations.PrintingIsAFixedPoint | core/src/edm_duration.rs:185-271 | Printing what any accepted input reads as is a fixed point of reading and printing. |
| StdDurations.AnswerIsRounded | core/src/edm_duration.rs:154-182 | Whichever of the four branches answers, the answer is the exact value rounded to nanoseconds. |
| StdDurations.WithinHalfANanosecond | core/src/edm_duration.rs:147-182 | The result is within half a nanosecond, and exact for whole nanoseconds. |
| StdDurations.ConversionIsMonotone | core/src/edm_duration.rs:154-182 | Conversion is monotone across branches and scales. |
| StdDurations.ShortDurationsConvert | core/src/edm_duration.rs:154-182 | Every non-negative duration of at most 2^64 - 1 nanoseconds converts. |
| StdDurations.FractionDigits | core/src/edm_duration.rs:158-177 | An amount in 10^-k seconds is an integer if and only if the normal form has at most k fraction digits. |
| StdDurations.ConvertsIffFits | core/src/edm_duration.rs:154-182 | A duration converts if and only if it is not negative and its count of the unit its fraction digits call for, rounded, fits in 64 bits; the error for a negative one is its own. |
| StdDurations.SuccessIsMonotoneWithinUnits | core/src/edm_duration.rs:154-182 | If a duration converts, so does every shorter one counted in the same or a coarser unit, to no greater a value. |
| StdDurations.SuccessIsNotMonotone | core/src/edm_duration.rs:158-181 | A shorter one counted in a finer unit need not. |
| SuccessMessages.ReadMessages | bmc-http/src/response.rs:291-318 | The loop over a message array gives its record, or none at a critical or ID-less message. |
| SuccessMessages.ReadReport | bmc-http/src/response.rs:321-352 | The reading of a body with its two status objects. |
| SuccessMessages.ReadAllMeans | bmc-http/src/response.rs:267-318 | Reading one by one adds up to what the messages name as a set. |
| SuccessMessages.IdNames | bmc-http/src/response.rs:142-181 | An ID names `Success`, `Created` or `NoOperation` exactly by the key after its last point, `ResetRequired` exactly if the text before its first point is `Base` too, and nothing else names any. |
| SuccessMessages.BareIdNames | bmc-http/src/response.rs:142-181 | The same for an ID without a point, which never names `ResetRequired`. |
| SuccessMessages.KeyIsLast | bmc-http/src/response.rs:179-181 | Every ID is of one of these two forms. |
| SuccessMessages.StatusReads | bmc-http/src/response.rs:321-352 | A body of one status object, under either name, reports what the text of its code names, strictly too. |
| SuccessMessages.OneMessageReads | bmc-http/src/response.rs:168-318 | A body of one message: critical in either property or without an ID is no success; the strict code needs each severity to be absent, `OK`, or `Warning` for `NoOperation` and `ResetRequired`. |
| SuccessMessages.ReportMeans | bmc-http/src/response.rs:177-243 | Both codes, stated without order: when there is none, which one it is, and exactly when the strict one is given; the strict one equals the lenient one. |
| SuccessMessages.StricterThanDocumented | bmc-http/src/response.rs:216-243 | A strict code is given if and only if the documented condition holds and `NoOperation` is not named beside `ResetRequired`. |
| SuccessMessages.PartialResetIsRefused | bmc-http/src/response.rs:339-351 | A `ResetRequired` status with a `NoOperation` message meets the documented condition, is `ResetRequired` to the lenient reader and none to the strict one. |
| SuccessMessages.OrderDoesNotMatter | bmc-http/src/response.rs:216-243 | Neither code depends on the order of any array, or on repetitions. |
| SuccessMessages.PermutedIsAlike | bmc-http/src/response.rs:291-318 | A permuted array is the same array in that sense. |
| SuccessMessages.RuinousMessageRules | bmc-http/src/response.rs:207-209 | A critical or ID-less message in any of the three arrays makes both codes none. |
| SuccessMessages.ForeignMessage | bmc-http/src/response.rs:209-236 | A non-critical message from another registry, anywhere in an existing array, keeps the lenient code and takes the strict one away. |

## Left out

- Hashing, key cloning and `Box<dyn Any>` of the cache: keys are values with equality, and a cached value of another type is absent.
- TLS, redirects, credentials, headers and URL building of the HTTP client: plumbing over libraries that are not part of this model.
- Poisoned locks, wakers, statistics cells and the `runtime-events` feature of the runtime: each section under a lock is one step.
- The built-in schedulers under `dispatcher/src/schedulers`, and `update_ready` of the example branch: the runtime takes any replies.
- The scheduler tree as boxed objects updated in place: trees are values, so aliasing between branches is not captured.
- Which wake-up makes a parked driver poll again: runs are sequences of polls and calls, without fairness.
- The 96-bit range of the decimal library, and with it the overflow errors of reading: decimals are unbounded.
- `as_f64_seconds` and the serde glue of durations: floating point and delegation.
- What the byte cap does with chunks after the first refusal: the state kept is stated by `SseCaps.EventCap.Next`, the records are not.
- `decode_modification`, `decode_poll` and the header readers of `response.rs`: easy members over HTTP types.
- `$filter` and `$expand` builders, quirk tables, the CSDL compiler, mocks and generated wrappers: not modelled.
