# Qu: its stateful engines, modelled and proved

Qu is a peer-to-peer application framework: a bus for events, Views that stay up to date,
registries replicated as append-only lists, and a relay that tells the Kind of a Node from its
id. Its hard logic sits in a few small engines. Each has a simple meaning and a cleverer form:
incremental, concurrent or event-driven. Here the simple meaning is a function or a step
machine, the clever form is a class or a method proved against it, and lemmas over every input
and every run say what a user may rely on.

| files | engine |
|---|---|
| `Topics`, `BusSpec`, `Dispatch`, `Overlap`, `EventBus` | the bus: a heap trie with a reverse index, refined against a scan of every live pattern; dispatch while handlers register and remove, and dispatches that overlap |
| `Sorting`, `Texts`, `ViewPipeline`, `LiveView` | a View: overlapping recomputes under a generation guard against the batch pipeline |
| `CollectionSource` | item subscriptions: conservation of handles over every interleaving |
| `BoundedWait`, `WaitOnBus` | waiting with a settle margin and a deadline: event-driven and polling form of one specification; the event-driven one together with the bus it listens on |
| `Paths`, `PlatformRegistry` | the log of apps, its setters and its readers |
| `RelayResolver`, `LiveAppResolver` | the classifier's id index, and the mutually recursive rebuild that feeds it |
| `IdentityStore`, `VerifyWrites`, `Messenger` | creation in flight, counting acks, the rendezvous for a private chat |
| `Codecs`, `Rooms`, `Links` | byte codecs (RFC 4648), room paths (RFC 3986, RFC 3629), personal links |

`Wrappers` holds `Option` and `Result`, `Sequences` what is shared about lists.

How asynchronous code is modelled: one step is the code between two awaits, an event chooses
which suspended call goes on, and a run is any sequence of events, so a statement about every
run is one about every interleaving. The class beside each machine has the source's own
variables and changes them as the source does; its ghost `model` ties it to the machine.

Where the code does not do what its comments say, the code is modelled. A lemma says for all
inputs when the promise holds, in most cases with a concrete run beside it:

- The function that `on` returns need not remove that registration (`BusSpec.UnsubscribeExactly`).
- A `once` handler runs twice when an overlapping emit still has it ahead and reaches it
  (`Overlap.OnceRunsTwiceExactly`, with the run `Overlap.OnceMayRunTwice`); at the head of every
  list it does not (`Overlap.OnceAtHeadRunsOnce`).
- `setQuery` may resolve while the old query is still shown (`LiveView.SetQueryReflectsExactly`,
  against `view-sources.js:364-366`).
- A wait that is over can still set a timer (`BoundedWait.LateTimerExactly`), and it leaves its
  `changed` listener on the bus for good: one callback is registered under two patterns, the bus
  remembers the second, and the first unsubscribe function does nothing
  (`WaitOnBus.ListenersExactly`). Nothing is left exactly when the first check answers or the
  Space has no bus (`WaitOnBus.LeftExactly`).
- Overlapping opens of one path lose a handle (`CollectionSource.LostExactly`,
  `CollectionSource.OverlapLeaks`); runs without them balance (`CollectionSource.ApartBalances`).
- A setter accepts a retracted prefix although its message speaks of registered apps
  (`PlatformRegistry.SetterRefusedExactly`); an app that is off does not look absent when its
  prefix is itself an owner key (`PlatformRegistry.OffLooksAbsentExactly`, with a log in
  `PlatformRegistry.OffKeyLooksDifferent`, against `platform.js:162-166`).
- A rebuild subscribes twice to a new prefix that is listed twice
  (`LiveAppResolver.ObservedPerOccurrence`, against `live-app-resolver.js:124-125`), and names
  that were set back to none, or whose app was retracted, stay in force
  (`LiveAppResolver.LastDeclaredIsCurrentExactly`, with logs in
  `LiveAppResolver.NamesStayInForce`, against lines 158-159).
- A call for one storage can be answered from another one (`IdentityStore.OwnStorageExactly`).
- `verifyWritesAcked` goes on one step after its promise is settled: a write reported in between
  is returned unconfirmed, and an ack in between, had the host room for it, would not undo a refusal
  (`VerifyWrites.ReturnMeansConfirmedExactly`, `VerifyWrites.RefusalIsStaleExactly`). One stray
  ack also confirms a write that was never acked (`VerifyWrites.StrayAckReturnsEarly`).
- Two calls of one peer can create a private chat twice (`Messenger.CreatesTwiceExactly`).

## Model

| member | source | states |
|---|---|---|
| `Topics.SplitIsUnique` | packages/events/src/event-bus.js:215-218 | the segments are the dot-free parts that join to the topic again |
| `Topics.PathMatchesIsMatches` | packages/events/src/event-bus.js:19-23 | matching along the trie path with a `**` flag is the documented segment matcher, for every well-formed pattern |
| `Topics.MatchesExactly` | packages/events/src/event-bus.js:19-23 | the matcher accepts as many segments, each equal or under `*`, and with a final `**` any further ones |
| `BusSpec.DeliveriesAreExact` | packages/events/src/event-bus.js:34-39 | a delivery list holds exactly the live entries whose pattern matches, each once, lower orders first and equal orders as they were registered |
| `BusSpec.RunKeepsValid` | packages/events/src/event-bus.js:43-45 | over every run every record of the reverse index names a live entry and counters increase |
| `BusSpec.OffUndoesOn` | packages/events/src/event-bus.js:54-96 | `off` right after `on` restores the live list and every delivery; the reverse index comes back exactly when the handler had no record or the pattern was refused |
| `BusSpec.RecordSurvivesExactly` | packages/events/src/event-bus.js:71 | after any later operations the index names an entry exactly when its handler was neither registered again nor taken off under that pattern |
| `BusSpec.UnsubscribeExactly` | packages/events/src/event-bus.js:52-72 | the returned unsubscribe function removes exactly its own entry if and only if no operation in between touched that handler's record |
| `BusSpec.UnsubscribeOfDoubleRegistration` | packages/events/src/event-bus.js:71-72 | a handler registered twice: the first unsubscribe removes the second entry, and the first can never be removed |
| `BusSpec.OrphanStays` | packages/events/src/event-bus.js:88-96 | an entry that the index does not name stays live for ever |
| `EventBus.GatheredElements` | packages/events/src/event-bus.js:237-248 | the walk meets each live entry that matches the rest of the topic exactly as often as it is live, and no other |
| `EventBus.WalkIsNaiveMatch` | packages/events/src/event-bus.js:205-212 | sorting what the walk gathers is the naive scan of all live patterns |
| `EventBus.Node.Child` | packages/events/src/event-bus.js:231-235 | the child for a segment, made on first use, all other links unchanged |
| `EventBus.EventBus.Descend` | packages/events/src/event-bus.js:67 | one step down the trie keeps the whole representation and every subscription |
| `EventBus.EventBus.On` | packages/events/src/event-bus.js:54-73 | refuses exactly the empty pattern and a misplaced `**`; a refused call leaves every subscription as it was, although nodes may have been made |
| `EventBus.EventBus.Attach` | packages/events/src/event-bus.js:69-71 | pushing and indexing the entry refines the registration on the list of live entries |
| `EventBus.EventBus.Off` | packages/events/src/event-bus.js:89-96 | removes the entry that the index names; a handler or pattern that does not match changes nothing |
| `EventBus.EventBus.CollectMatches` | packages/events/src/event-bus.js:237-248 | the recursive walk of the heap trie returns what the pure walk over live entries gathers |
| `EventBus.EventBus.Match` | packages/events/src/event-bus.js:206-212 | the trie delivers a topic as the naive scan does: to exactly the live matching entries, lower orders first and equal orders as they were registered; only the empty topic is refused |
| `EventBus.EventBus.ListenerCount` | packages/events/src/event-bus.js:201-203 | the number of those deliveries |
| `EventBus.EventBus.Emit` | packages/events/src/event-bus.js:121-138 | calls the list matched at the start up to the first stop; the new failures are one for each handler that threw, in the order of the calls, with its error; handlers' registrations and removals reach the bus and not this dispatch |
| `EventBus.EventBus.Collect` | packages/events/src/event-bus.js:168-179 | asks every matched handler; the answers can be cut into one piece for each, in order: what it gave, an array element by element, or nothing when it threw or gave nothing |
| `EventBus.EventBus.RunPatches` | packages/events/src/event-bus.js:191-198 | the left fold of the patches; a throw rejects the call and the bus keeps what was done until then |
| `EventBus.DeliverAfter` | packages/events/src/event-bus.js:41-213 | for every sequence of `on` and `off` on a new bus, the trie delivers to exactly the live matching entries, lower orders first and equal orders as they were registered |
| `Dispatch.ServedIsFirstStop` | packages/events/src/event-bus.js:105-107 | the handlers called are the shortest prefix ending in one that stops, or all |
| `Dispatch.EmittedIsExact` | packages/events/src/event-bus.js:128-129 | who is called is a prefix of the list that ends at the first handler that stops the emit, or with the list, and the flag says whether one did |
| `Dispatch.FailuresAreExact` | packages/events/src/event-bus.js:132-133 | no throw goes unrecorded, nothing else is recorded, and the records are in the order of the calls |
| `Dispatch.AnswersAreExact` | packages/events/src/event-bus.js:172-173 | the answers, cut handler by handler |
| `Dispatch.AfterIsExact` | packages/events/src/event-bus.js:128-131 | each handler's operations act on the bus that the earlier ones left |
| `Dispatch.FoldIsExact` | packages/events/src/event-bus.js:192-197 | each handler of a `run` sees the payload as patched by the ones before, a later patch overrides an earlier one field by field, and it ends with the last payload or the error of the first handler that throws |
| `Dispatch.OnceIsSpent` | packages/events/src/event-bus.js:75-86 | once a `once` wrapper has begun to run, no later delivery list names it, whatever else happens |
| `Overlap.RunKeepsInv` | packages/events/src/event-bus.js:75-138 | over every run of overlapping emits each calls the wrapper at most once, and exactly when it has gone past it; once called, no live entry names it |
| `Overlap.Progress` | packages/events/src/event-bus.js:128-136 | an emit keeps the list it matched and gets exactly as far as the turns it is given before a stop |
| `Overlap.OnceRunsTwiceExactly` | packages/events/src/event-bus.js:75-86 | over every run after `once` its handler is called more than once if and only if, at the first call, another emit in flight has it still ahead and is given the turns to reach it before it is stopped |
| `Overlap.OnceMayRunTwice` | packages/events/src/event-bus.js:75-86 | a run of two emits of one topic that both pause behind a handler of lower order, after which both call it |
| `Overlap.OnceAtHeadRunsOnce` | packages/events/src/event-bus.js:121-131 | where the wrapper is first in every list that names it, it is called once at most, since an emit matches and calls its first handler in one step |
| `Sorting.StableSortOrders` | packages/app-core/src/view-sources.js:349 | under a consistent comparator the sort is an ordered permutation |
| `Sorting.StableSortKeepsTies` | packages/app-core/src/view-sources.js:349 | elements that tie keep their order |
| `Sorting.StableSortArranges` | packages/app-core/src/view-sources.js:349 | the result uses every place of the input once, ranks no earlier element behind a later one, and keeps ties in the order of their places |
| `Sorting.OrderedIsUnique` | packages/events/src/event-bus.js:210 | without ties the sorted form does not depend on the order of collection |
| `ViewPipeline.ViewIsTopOfRanking` | packages/app-core/src/view-sources.js:346-350 | with keys of one type, the list continued by what the limit drops is every item of the sources that the query finds, once, by its place; ascending keys rise and descending ones fall, also across the limit; equal keys keep the order of the sources; the limit is met exactly, a negative one from the end |
| `ViewPipeline.UnsortedView` | packages/app-core/src/view-sources.js:346-350 | without a sort key, the found items in the order of the sources, and the limit |
| `ViewPipeline.FilterIsExact` | packages/app-core/src/view-sources.js:348 | what is kept are exactly the items in one of whose searched fields, in lower case, the query occurs, in their order |
| `ViewPipeline.FlattenIsExact` | packages/app-core/src/view-sources.js:346 | the sources one after the other, each whole |
| `Texts.LexLessIsFirstDifference` | packages/app-core/src/view-sources.js:265-266 | texts compare by their first difference, a text before its continuations |
| `ViewPipeline.MixedKeysHaveNoRanking` | packages/app-core/src/view-sources.js:259-269 | keys of different types give a comparator with no consistent order |
| `LiveView.RunKeepsInv` | packages/app-core/src/view-sources.js:343-381 | over every interleaving the newest recompute has read what the sources hold, and what it wrote is the batch result |
| `LiveView.SettledIsBatch` | packages/app-core/src/view-sources.js:325-354 | when no recompute is in flight the View shows the batch pipeline on the latest sources and query, unless it was closed and a source changed since |
| `LiveView.NewestWriterIsBatch` | packages/app-core/src/view-sources.js:344-352 | the same with rejected reads, whenever the newest recompute is the one that wrote |
| `LiveView.SupersededNeverWrites` | packages/app-core/src/view-sources.js:330-351 | only the newest recompute writes or notifies, and it notifies every listener once |
| `LiveView.ListenersAreExact` | packages/app-core/src/view-sources.js:360-380 | before closing, a listener is on the View, once, exactly when it was put on last and not taken off; closing takes all off |
| `LiveView.AppliedGrows` | packages/app-core/src/view-sources.js:330-342 | what is shown never goes back to an older recompute |
| `LiveView.SetQueryReflectsExactly` | packages/app-core/src/view-sources.js:364-370 | as `setQuery` resolves, its recompute or a newer one has written if and only if no source change or query started another one since, or one that was then the newest has finished |
| `LiveView.ReflectedIsResult` | packages/app-core/src/view-sources.js:364-370 | what is shown then is the batch result for its query on a snapshot of states the sources have had, unless another query was asked since |
| `LiveView.ShownWasSeen` | packages/app-core/src/view-sources.js:344-351 | over every run, once something was written, the View shows the batch result, for the query it was written under, of states that each source really had |
| `LiveView.SetQueryMayResolveStale` | packages/app-core/src/view-sources.js:364-370 | a run in which it resolves with the old query still shown |
| `LiveView.LiveView.BeginRecompute` | packages/app-core/src/view-sources.js:344-346 | the code before the await is the machine's start of a recompute |
| `LiveView.LiveView.SourceChanged` | packages/app-core/src/view-sources.js:354 | a source's observer starts a recompute unless the View is closed |
| `LiveView.LiveView.AskQuery` | packages/app-core/src/view-sources.js:367-370 | trims, lowers and stores the query and starts a recompute |
| `LiveView.LiveView.FinishRecompute` | packages/app-core/src/view-sources.js:347-351 | the code after the awaits, with its filter and its notifications, is the machine's finish |
| `LiveView.LiveView.ObserveView` | packages/app-core/src/view-sources.js:360-363 | a listener is added once |
| `LiveView.LiveView.CloseView` | packages/app-core/src/view-sources.js:375-381 | closing is idempotent and drops the listeners |
| `CollectionSource.RunKeepsInv` | packages/app-core/src/view-sources.js:182-246 | conservation: over every interleaving each live handle is held by exactly one of an open item, an open in flight, nobody |
| `CollectionSource.ReleaseBalancesExactly` | packages/app-core/src/view-sources.js:238-245 | `release` returns every handle if and only if no open is in flight and none was lost before |
| `CollectionSource.BeginOverlapsExactly` | packages/app-core/src/view-sources.js:186-196 | opens stay apart exactly when none for that path is in flight |
| `CollectionSource.OthersKeepApart` | packages/app-core/src/view-sources.js:186-206 | no other step makes opens overlap or loses a handle |
| `CollectionSource.OverlapLosesAHandle` | packages/app-core/src/view-sources.js:186-196 | two overlapping opens of one path leak one handle, in either order of landing |
| `CollectionSource.ApartBalances` | packages/app-core/src/view-sources.js:186-245 | over every run in which an open of a path begins only while none of it is in flight, `release` returns every handle but those still in flight |
| `CollectionSource.LostExactly` | packages/app-core/src/view-sources.js:190-193 | over every run a handle is lost if and only if some open lands on a path that is open already |
| `CollectionSource.OverlapLeaks` | packages/app-core/src/view-sources.js:186-196 | a second open of a path that begins while one is in flight loses a handle in every run that lets both land before items are dropped or the source is released |
| `CollectionSource.RegistryNamesAreExact` | packages/app-core/src/dev.js:216-241 | over every run a registry lists each name at most once, and exactly the names registered last |
| `CollectionSource.Collection.BeginOpen` | packages/app-core/src/view-sources.js:186-190 | `ensureItemOpen` up to its await |
| `CollectionSource.Collection.LandOpen` | packages/app-core/src/view-sources.js:190-195 | `ensureItemOpen` after it |
| `CollectionSource.Collection.ReleaseRemoved` | packages/app-core/src/view-sources.js:199-206 | releases and forgets exactly the items no longer listed |
| `CollectionSource.Collection.ReadItems` | packages/app-core/src/view-sources.js:208-225 | after a read that nothing overlaps, the open items are exactly the listed names, one live handle for each, landing in any order |
| `CollectionSource.Collection.ReleaseAll` | packages/app-core/src/view-sources.js:238-245 | afterwards no handle is held, the registry's own included |
| `BoundedWait.EveryOutcomeIsLegal` | packages/app-core/src/resolver.js:102-124 | in every order of events, checks and timers, a value comes from the check that just returned it, and null only when all checks were empty, at the deadline or a settle margin after an empty check of a synced node; with the outcome the deadline timer and the `sync-ack` subscription are gone and the `changed` one is not |
| `BoundedWait.ResolvedOnce` | packages/app-core/src/resolver.js:105-113 | later events never change the outcome |
| `BoundedWait.ResolvesExactly` | packages/app-core/src/resolver.js:114-122 | an open wait ends exactly with a check that returns a value, with that value, or with one of the two timers when it is due, with null |
| `BoundedWait.SettleTimerExactly` | packages/app-core/src/resolver.js:118 | over every run the settle timer of an open wait is due a margin after the first check from a synced node, and not set before |
| `BoundedWait.NotifiedWaitAnswers` | packages/app-core/src/resolver.js:114-121 | every change or ack starts another check while the wait is open, and a value that it finds ends the wait |
| `BoundedWait.DeadlineResolves` | packages/app-core/src/resolver.js:122 | an open wait always has its deadline timer, which resolves it |
| `BoundedWait.CleanOnResolution` | packages/app-core/src/resolver.js:105-113 | the step that resolves clears both timers and takes off the `sync-ack` subscription; the `changed` one stays |
| `BoundedWait.LateTimerExactly` | packages/app-core/src/resolver.js:114-119 | over every run after its resolution a wait without timers has its settle timer set at some moment if and only if it never had one and a check in flight comes back empty from a synced node |
| `BoundedWait.DeadlineLeavesTimer` | packages/app-core/src/resolver.js:114-122 | a run in which that happens |
| `BoundedWait.Poll` | packages/app-core/src/resolver.js:128-141 | the polling loop meets the same specification and goes on exactly while it must: it ends in the first turn that finds a value, sees the settle margin over or sees the deadline, at the time of that turn |
| `WaitOnBus.TakenOffExactly` | packages/app-core/src/resolver.js:110-111 | of the two unsubscribe calls the first does nothing and the second removes the second entry, on any bus |
| `WaitOnBus.ListenersExactly` | packages/app-core/src/resolver.js:102-124 | over every run of a wait and of everything else on its bus, the callback's entries are the `changed` one for ever and the `sync-ack` one exactly until the wait has resolved; every later change of the node is still delivered to it |
| `WaitOnBus.LeftExactly` | packages/app-core/src/resolver.js:96-124 | a wait leaves its callback on the bus if and only if there is a bus and the first check did not answer |
| `WaitOnBus.Waiter.constructor` | packages/app-core/src/resolver.js:102-122 | registers the one callback under both patterns on the trie and sets the deadline |
| `WaitOnBus.Waiter.FinishWith` | packages/app-core/src/resolver.js:105-113 | only the first call has an effect: it clears the timers and makes both `off` calls on the trie |
| `WaitOnBus.Waiter.BeginRecheck` | packages/app-core/src/resolver.js:114-116 | `recheck` up to its await; it returns at once when the wait has resolved |
| `WaitOnBus.Waiter.CheckReturned` | packages/app-core/src/resolver.js:114-119 | `recheck` after its await is the step of wait and bus |
| `WaitOnBus.Waiter.OnSettle` | packages/app-core/src/resolver.js:118 | the settle timer's callback |
| `WaitOnBus.Waiter.OnDeadline` | packages/app-core/src/resolver.js:122 | the deadline's callback |
| `PlatformRegistry.OnlyOwnPrefix` | packages/app-core/src/dev.js:967-1190 | an operation changes the current entry of its own prefix only; a refused one leaves the log as it was |
| `PlatformRegistry.CurrentIsLast` | packages/app-core/src/dev.js:1009 | the current entry is the prefix's last one in the log |
| `PlatformRegistry.RegisterIsExact` | packages/app-core/src/dev.js:980-989 | field by field what a registration stores: owner, name and realm always, mode and personal-instance fields for global apps only, and of the name lists those the realm has; nothing is carried over |
| `PlatformRegistry.UnregisterIsExact` | packages/app-core/src/dev.js:1188 | a retraction keeps the prefix and nothing else |
| `PlatformRegistry.SetterChangesOneField` | packages/app-core/src/dev.js:1006-1147 | each setter changes its own field only; name lists become the duplicate-free union; a config keeps every key that is not named |
| `PlatformRegistry.AddIsIdempotent` | packages/app-core/src/dev.js:1063-1127 | adding the same names again changes nothing in the reduced view, and earlier duplicate-free names stay in front |
| `PlatformRegistry.ListedExactly` | packages/app-core/src/dev.js:967-1190 | over every run a prefix is listed if and only if its latest registration or retraction was a registration; no setter brings it back |
| `PlatformRegistry.SetterRefusedExactly` | packages/app-core/src/dev.js:1006-1016 | a setter is refused exactly when no entry of the prefix exists, or for the mode of an app that is not global |
| `PlatformRegistry.ResolveApps` | packages/app-core/src/platform.js:116-131 | the map filled in log order yields the apps in order of first appearance |
| `PlatformRegistry.ResolvedAppsAreExact` | packages/app-core/src/platform.js:118-131 | one app for each listed prefix, made from its last entry, with realm main and mode global where it says nothing, in the order in which the prefixes first appear |
| `PlatformRegistry.ResolvesExactly` | packages/app-core/src/platform.js:168-183 | a path leads to the listed app of its first segment unless that is off, otherwise to the owner whose key the segment is, with the rest of the path |
| `Paths.SplitPathExactly` | packages/app-core/src/platform.js:72-77 | the path is slashes, a slash-free first segment and the rest, an empty rest standing for "/" |
| `PlatformRegistry.OffLooksAbsentExactly` | packages/app-core/src/platform.js:162-183 | an app that is off resolves as if it had never been registered if and only if its prefix is no owner key |
| `PlatformRegistry.OffKeyLooksDifferent` | packages/app-core/src/platform.js:168-183 | a log for every owner key under whose 43 characters it does not |
| `PlatformRegistry.RetractedLooksAbsent` | packages/app-core/src/platform.js:168-183 | a retracted app always does |
| `PlatformRegistry.Registry.Perform` | packages/app-core/src/dev.js:967-1190 | each operation pushes the one entry that `RegisterIsExact`, `UnregisterIsExact` and `SetterChangesOneField` describe, or is refused and pushes none |
| `PlatformRegistry.Registry.FindCurrent` | packages/app-core/src/dev.js:1009 | the search from the end finds the current entry |
| `RelayResolver.Build` | packages/app-core/src/relay-resolver.js:173-205 | the index holds exactly the declared ids under their Kinds; it is rejected if and only if a content name is empty |
| `RelayResolver.ContentIds` | packages/app-core/src/relay-resolver.js:190-193 | exactly the content ids of the names, or a rejection for an empty one |
| `RelayResolver.AppIds` | packages/app-core/src/relay-resolver.js:186-194 | the ids of one global app, Kind by Kind, are exactly what it declares |
| `RelayResolver.GlobalIds` | packages/app-core/src/relay-resolver.js:180-194 | so are those of all of them |
| `RelayResolver.CollectionIds` | packages/app-core/src/relay-resolver.js:196-201 | every owner's registry of every collection Kind, under that Kind |
| `RelayResolver.ChecksAreSound` | packages/app-core/src/relay-resolver.js:213-225 | an id found in a set is declared under that set's Kind |
| `RelayResolver.ChecksAreComplete` | packages/app-core/src/relay-resolver.js:213-225 | every declared id is in a set of its Kind |
| `RelayResolver.ClassifierIsExact` | packages/app-core/src/relay-resolver.js:207-265 | whatever the order of the checks, a Kind is returned if and only if the Node is declared under it, is the claimed owner's singleton of it, or belongs to the referenced group; all else is a page |
| `LiveAppResolver.Resolver.Rebuild` | packages/app-shell/src/live-app-resolver.js:149-194 | the mutual recursion ends; every global prefix is watched once noted, its routes are synced, and the classifier indexes the resulting configuration |
| `LiveAppResolver.Resolver.EnsureGlobalWatches` | packages/app-shell/src/live-app-resolver.js:142-147 | watched prefixes only grow, by exactly the new global ones |
| `LiveAppResolver.Resolver.WatchEach` | packages/app-shell/src/live-app-resolver.js:146 | each occurrence of a new prefix is watched |
| `LiveAppResolver.Resolver.WatchGlobalRouteRegistry` | packages/app-shell/src/live-app-resolver.js:129-140 | observes the route registry and takes its first snapshot |
| `LiveAppResolver.Resolver.SyncRoutes` | packages/app-shell/src/live-app-resolver.js:134-137 | replaces that prefix's routes and rebuilds |
| `LiveAppResolver.ObservedPerOccurrence` | packages/app-shell/src/live-app-resolver.js:143-146 | a registry is observed once for each occurrence of a new prefix: more than once if and only if the log lists a new one more than once |
| `LiveAppResolver.ListedNames` | packages/app-shell/src/live-app-resolver.js:175-184 | a watched app lists exactly its published routes and, of each kind, the names of the last global entry that declares any, with the console's own template |
| `LiveAppResolver.LastDeclaredIsCurrentExactly` | packages/app-shell/src/live-app-resolver.js:157-174 | the names in force are those of the prefix's last entry if and only if that entry is global and declares some, or no global entry of the prefix ever has |
| `LiveAppResolver.LastDeclaredIsLast` | packages/app-shell/src/live-app-resolver.js:169-174 | the names in force are those of the one declaring entry behind which none declares any; there are none if and only if no entry declares any |
| `LiveAppResolver.NamesStayInForce` | packages/app-shell/src/live-app-resolver.js:157-174 | registering an app again without names, or retracting it, leaves the old names in force |
| `LiveAppResolver.DeclaredNames` | packages/app-shell/src/live-app-resolver.js:160-174 | the loop that fills the three maps holds, for every prefix, the names in force |
| `LiveAppResolver.Resolver.Configured` | packages/app-shell/src/live-app-resolver.js:152-193 | the configuration built from those maps |
| `LiveAppResolver.GlobalsAreExact` | packages/app-shell/src/live-app-resolver.js:175-193 | the configuration declares of each global Kind exactly what watched apps list |
| `LiveAppResolver.SharedListsAreExact` | packages/app-shell/src/live-app-resolver.js:185-192 | it declares exactly the shared lists that some entry ever declared |
| `LiveAppResolver.OwnersElements` | packages/app-shell/src/live-app-resolver.js:152-155 | the owners are exactly those of the entries of the log, whatever their realm |
| `LiveAppResolver.PagesAreExact` | packages/app-shell/src/live-app-resolver.js:119-123 | after the first rebuild the declared admin pages are exactly the published routes of registered global apps |
| `LiveAppResolver.FirstKindsAreExact` | packages/app-shell/src/live-app-resolver.js:169-193 | after the first rebuild each of the six global Kinds declares exactly what the log and the route registries say |
| `LiveAppResolver.FirstDeclaresExactly` | packages/app-shell/src/live-app-resolver.js:149-193 | for every Kind, the first rebuild declares exactly what deployment, log and route registries say |
| `LiveAppResolver.StartAndClassify` | packages/app-shell/src/live-app-resolver.js:195-199 | a relay starts exactly when no declared name is empty, and then takes a Node for a Kind if and only if deployment, log or route registries declare it, it is such a singleton of the claimed owner, or it belongs to the referenced group; it throws only for a reference to a group without a name |
| `IdentityStore.OneKeypair` | packages/bootstrap/src/identity-stores.js:52-67 | in every interleaving one keypair is made for each storage and key that something is stored for now and was not before, and no other |
| `IdentityStore.GeneratedOnce` | packages/bootstrap/src/identity-stores.js:59-92 | read off the events: no two generate for one storage and key, none where something was stored, and the generated one stays |
| `IdentityStore.CallersAgree` | packages/bootstrap/src/identity-stores.js:69-92 | a caller that gets an identity gets the one its promise's storage holds |
| `IdentityStore.OwnStorageExactly` | packages/bootstrap/src/identity-stores.js:48-61 | a call is answered from its own storage if and only if no promise for its key is in flight about another one |
| `IdentityStore.OtherStorageAnswers` | packages/bootstrap/src/identity-stores.js:59-61 | a run in which it is answered from the other one and its own stays empty |
| `IdentityStore.FailureAllowsRetry` | packages/bootstrap/src/identity-stores.js:62-64 | once a failed attempt has settled nothing is in flight for its key, and with an empty slot the next call generates anew |
| `IdentityStore.Identities.LoadOrCreate` | packages/bootstrap/src/identity-stores.js:59-67 | joins the promise in flight or starts one |
| `IdentityStore.Identities.StoreGenerated` | packages/bootstrap/src/identity-stores.js:80-91 | stores the keypair and settles the promise with it |
| `IdentityStore.Identities.RunFinally` | packages/bootstrap/src/identity-stores.js:62-64 | removes its own promise from the map, and no other |
| `VerifyWrites.UnconfirmedIsStray` | packages/app-shell/src/verify-writes.js:42-51 | at any moment the unconfirmed writes are as many as the stray acks less the surplus of acks |
| `VerifyWrites.DecisionAtMostStray` | packages/app-shell/src/verify-writes.js:63-69 | over every run a decision for the save leaves at most as many writes unconfirmed as stray acks have come in |
| `VerifyWrites.UnconfirmedExactly` | packages/app-shell/src/verify-writes.js:52-80 | over every orderly run the decision is for the save if and only if all is confirmed then; at the end exactly what was missing then or reported since, and not confirmed since, is unconfirmed |
| `VerifyWrites.ReturnMeansConfirmedExactly` | packages/app-shell/src/verify-writes.js:63-80 | without stray acks a normal return means that every counted write was acked, if and only if each one reported between the decision and the return was acked there |
| `VerifyWrites.RefusalIsStaleExactly` | packages/app-shell/src/verify-writes.js:68-75 | a refusal is right at the deadline, and wrong at the throw if and only if all that was missing or reported since was acked in between |
| `VerifyWrites.GapLosesAWrite` | packages/app-shell/src/verify-writes.js:63-80 | an orderly run that returns normally with a write unconfirmed |
| `VerifyWrites.GapMissesAnAck` | packages/app-shell/src/verify-writes.js:63-80 | a run of the machine that is refused with every write confirmed |
| `VerifyWrites.StrayAckReturnsEarly` | packages/app-shell/src/verify-writes.js:48-51 | one stray ack is enough to return with a write unconfirmed |
| `VerifyWrites.EndedIsFinal` | packages/app-shell/src/verify-writes.js:70-80 | whatever the exit, once it has ended both listeners are off for good; a throwing save ends it at once, and only the deadline's decision refuses |
| `VerifyWrites.DecisionCounts` | packages/app-shell/src/verify-writes.js:63-69 | it waits only while acks are missing; a decision for the save has enough, one against it too few, and the exit follows the decision |
| `VerifyWrites.Verification.OnAck` | packages/app-shell/src/verify-writes.js:48-51 | counts the ack, settles the promise when the decision is awaited and none is missing, and leaves the listener on |
| `VerifyWrites.Verification.Decide` | packages/app-shell/src/verify-writes.js:63-69 | settles the promise or sets `onAcked` |
| `VerifyWrites.Verification.GoOn` | packages/app-shell/src/verify-writes.js:70-80 | returns or throws as was decided and takes both listeners off |
| `Links.ParseSpelledOut` | packages/app-shell/src/boot.js:168-174 | a path `/u/` + ref + rest is read as that ref, with the rest after the next slash, exactly when what follows is one line |
| `Links.ParseBare` | packages/app-shell/src/boot.js:168-174 | without `/u/` the first segment is the reference exactly when it looks like a key and what follows is one line |
| `Links.OtherLinksStay` | packages/app-shell/src/view-actions.js:95-98 | without a namespace or a user, and outside the namespace, a link is left alone |
| `Links.RewrittenLinkExactly` | packages/app-shell/src/view-actions.js:95-99 | splitting, parsing and re-prefixing a rewritten link gives back person and route if and only if the rest starts with a slash and has no line break |
| `Links.AggregateIsHref` | packages/app-shell/src/blog-actions.js:189 | a blog index entry is the same link for every post route, under the same condition |
| `Codecs.Base64RoundTrip` | packages/core/src/crypto.js:245-258 | decoding undoes encoding for every byte string |
| `Codecs.Base64IsInjective` | packages/core/src/crypto.js:245-250 | different byte strings never share an encoding |
| `Codecs.EncodesExactly` | packages/core/src/crypto.js:245-250 | the encoding is that of section 4 of RFC 4648: the 24 bits of each three bytes as four digits, with padding |
| `Codecs.DigitsAreStandard` | packages/core/src/crypto.js:245-258 | the digits are those of its table 1, by code point |
| `Codecs.DecodesExactly` | packages/core/src/crypto.js:252-258 | what decodes is exactly whole groups of digits with at most two padding characters |
| `Codecs.UrlIsMappedData` | packages/core/src/crypto.js:260-262 | the url form is the unpadded data with two digits replaced; it holds no dot, slash, colon or equals sign and is empty only for no bytes |
| `Codecs.UrlExactly` | packages/core/src/crypto.js:260-262 | section 5: '-' and '_' for '+' and '/', and no padding |
| `Codecs.UrlRoundTrip` | packages/core/src/crypto.js:260-268 | restoring the padding and decoding undoes it |
| `Codecs.HexRoundTrip` | packages/core/src/crypto.js:270-281 | decoding undoes encoding in hex |
| `Codecs.HexExactly` | packages/core/src/crypto.js:270-272 | section 8 in lower case: two digits for each byte, the high one first |
| `Codecs.HexIsExact` | packages/core/src/crypto.js:275 | hex is an even number of digits of either case |
| `Codecs.HexDecodeEncode` | packages/core/src/crypto.js:270-281 | encoding what was decoded gives the text back in lower case |
| `Codecs.FromHex` | packages/core/src/crypto.js:274-281 | the loop fills exactly the decoded bytes; it throws exactly for text that is no hex |
| `Codecs.ToBase64` | packages/core/src/crypto.js:247-249 | the loop over code units yields the standard encoding |
| `Rooms.PercentRoundTrip` | apps/chat/actions.js:74 | percent decoding undoes encoding for every text, through its UTF-8 bytes with overlong forms and surrogates refused, and the encoded form holds no slash |
| `Rooms.EscapesExactly` | apps/chat/actions.js:187 | all but letters, digits and nine marks is escaped, each byte of the UTF-8 form as '%' and two upper-case digits |
| `Rooms.Utf8Exactly` | apps/chat/actions.js:187 | the bytes of a character are those of the table in section 3 of RFC 3629 |
| `Rooms.EscapedCharExactly` | apps/chat/actions.js:74 | a character is read exactly from its one UTF-8 form: truncated and overlong forms, surrogates and stray bytes are refused |
| `Rooms.DecodesStepwise` | apps/chat/actions.js:74 | a plain character stands for itself, '%' begins an escaped character, and where it begins none decoding throws |
| `Rooms.RoomIdRoundTrip` | apps/chat/actions.js:56-69 | a room id decodes to its room, dots in the name included, if and only if the owner key is not empty; otherwise to nothing |
| `Rooms.RoomIdExactly` | apps/chat/actions.js:61-69 | a room id is an owner key that decodes, up to the first dot, and behind that the name |
| `Rooms.RoomPathRoundTrip` | apps/chat/actions.js:72-75 | the percent-encoded room path leads back to the room for every non-empty owner key and any group name, and to none for an empty key |
| `Rooms.OnlyRoomPaths` | apps/chat/actions.js:72-75 | nothing else is a room's path than one slash-free segment behind `/room/`, with or without a final slash |
| `Rooms.EscapedCharIsRead` | apps/chat/actions.js:74 | the escaped bytes of a character, whatever follows them, are read as that character and no further |
| `Messenger.NameIsPair` | packages/app-core/src/messenger.js:104-108 | both sides hash the same text, and two pairs of keys share it if and only if they are the same pair |
| `Messenger.NameIsSorted` | packages/app-core/src/messenger.js:105-106 | it is the two encoded keys, the one that sorts first in front |
| `Messenger.GetOrCreateDirectChat` | packages/app-core/src/messenger.js:122-143 | finds the own group, then the peer's, then creates; it reports `existed` exactly when nothing was created |
| `Messenger.RunKeepsSound` | packages/app-core/src/messenger.js:122-143 | over every run the groups created are exactly those of the calls that returned a new one, each once, and every returned owner has a group |
| `Messenger.OneGroup` | packages/app-core/src/messenger.js:110-113 | when each creation is visible before the next lookup, at most one group is created in every run and everyone is told its owner |
| `Messenger.AtMostTwoGroups` | packages/app-core/src/messenger.js:122-143 | in every run in which no two calls of one peer overlap each peer creates at most one group, so at most two are created |
| `Messenger.CreatesTwiceExactly` | packages/app-core/src/messenger.js:125-130 | over every run a peer creates a second group if and only if two of its own calls cross: one is about to create, the other has looked under its own key already, and both go on without finding the peer's |
| `Messenger.OwnOverlapCreatesTwice` | packages/app-core/src/messenger.js:125-130 | a run in which it does, where the second call looks under the peer's key only after the first creation |
| `Messenger.BothOwnExactly` | packages/app-core/src/messenger.js:125-130 | over every run both peers come to own a group if and only if a call of each has passed both lookups at one moment and goes on to create |
| `Messenger.PeersAgreeExactly` | packages/app-core/src/messenger.js:125-128 | in every reached state with a group, later whole calls find one, a peer that owns one its own, and the peers are told the same owner if and only if no calls of theirs have crossed |
| `Messenger.OverlapMayCreateTwo` | packages/app-core/src/messenger.js:110-113 | the accepted race: two overlapping calls create both |

## Left out

- `EventBus.notify`: its handlers run in parallel and give nothing back; it matches as `emit` does.
- Odd orders: `order` is a real number, so NaN and infinities are not covered.
- Handlers: what one does between two steps of a dispatch is a script of `on` and `off` calls, whether it has called `stop`, and how it ended; payloads of `emit` and `collect` are not modelled.
- `EventBus.EventBus.CollectMatches`: returns its list instead of pushing into a shared array, so aliasing of that array is not captured.
- View sources: a source's snapshot is one step of `LiveView`; the field mapping of the adapters, listeners that act on the View while they are called, and `waitUntilSynced` are not modelled. A collection's own read, which takes several steps, is in `CollectionSource`.
- Host conversions: trimming, lower-casing and number/text conversion of the host language are parameters of the View; sorting by mixed key types is the host's own business, and the model is one stable sort.
- Rejections of `useNode`: an item that cannot be opened stays in flight in `CollectionSource`.
- Waiting: the first check before anything is set up returns or goes on; the two waits in `dev.js` and `platform.js` are the same two forms with other names, and `platform.js` has the polling one only.
- `BoundedWait.Poll`: takes the checks and clock readings of its turns as a sequence, so the sleep between turns is not modelled.
- Registry reads: what is synced, storage and transport are the environment; two setters that race from different admins are not covered, since the code has no guard there. `setPlatformConfig` merges one record and is left out.
- `LiveAppResolver.Resolver.Rebuild`: one run to completion, with the log and the routes steady meanwhile and the new watches one after the other; overlapping rebuilds have no guard in the code.
- Derived ids: hashes are free constructors of their parts, and Kinds are told apart by name, which is what injective derivation and distinct Kind names mean.
- Identities: keypairs are numbers, a stored text that does not parse is one value, and nobody else writes the storage.
- Order of microtasks: any event may come between two steps. A host that drains its microtasks right after a timer callback has fewer runs, so statements about every run hold of it; `VerifyWrites.GapMissesAnAck` is a run of the machine that such a host does not have.
- Node topics: a node id is taken to hold no `*`, which derived ids do not.
- Acks: a timer that fires after the end is without effect and is left out; without a bus the function is the call itself.
- Private chats: a chat with oneself is not covered, and a lookup that gives up although a group exists counts as one made before that group is visible.
- `Codecs`: decoding is strict, as RFC 4648 is; that `Buffer` and, for missing padding and spaces, `atob` read more than encodings is not modelled.
- Text: a string is a sequence of characters, so unpaired surrogates, for which percent encoding throws, do not occur, and the order by code unit is an order by character.
- Contacts and conversation lists, the admin sub path, dispatch in `startPlatform`, chat navigation, signing, key agreement, encryption, documents and user interface are not part of this model.
