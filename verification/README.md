# Verification of the Ceramic test harness

A Dafny model of the hand-written algorithms of the Ceramic test harness, with proofs about them. The
harness has to get a correct answer out of an environment it does not control: a feed that grows while
it is read, a table that is scanned in pages, a watch that is cut into windows, replicas that lag behind.
Each environment is a parameter that answers as it likes; what is assumed of it is a named predicate that
the theorems which need it require.

`dafny verify dfyconfig.toml` checks everything.

| file | what it models |
|---|---|
| `ModelEvents.dfy` | events and the canonical order the sync scenarios compare them in |
| `FeedReader.dfy`, `ReadRuns.dfy` | the cursor-driven feed reader, and how a read ends poll by poll |
| `SyncScenarios.dfy` | the two passes over all nodes, and logs made by concurrent writers |
| `DynamoScan.dfy`, `ScanRuns.dfy` | the paged table scan with its soft cap, and how a scan ends call by call |
| `DecimalSeconds.dfy` | timestamps printed as decimal seconds and read back as integers |
| `RequestTable.dfy` | the keyed table of anchor requests |
| `AnchorRuns.dfy` | one run of the anchor check, and repeated runs |
| `Lifecycle.dfy` | garbage collection, and any sequence of serialised jobs on the table |
| `WatchLoop.dfy`, `Waiters.dfy` | the windowed watch loop and the three waiters on it |
| `UpdateSchedule.dfy` | the single-writer update schedule and its rotations |
| `StreamWait.dfy` | waiting for a stream to reach a state |
| `UrlLists.dfy` | the two shell printers of comma-separated lists, and the split that reads them |
| `EventAccumulator.dfy` | the accumulator of server-sent events |
| `Sets.dfy`, `Wrappers.dfy` | sizes of sets and lists; absence and failure as values |

## What is assumed of the environment

- Feed (`FeedReader.ServesLog`, `Faithful`, `DeliversOnce`, `Eager`): resume tokens are positions in a log
  that only grows, and a page is the stretch of log between two tokens, cut anywhere; fetching an id gives
  the event with that id, as written; past the starting token no expected id is in the log twice; a poll
  with something to deliver delivers something. Any poll or fetch may be refused. At-most-once delivery is
  proved, not assumed, for logs made by interleaving the lists of concurrent writers with unrelated events.
- Clock (`FeedReader.Ticks`): abstract, and advancing between polls, as the delay after each poll makes it.
- Database (`DynamoScan.ServesTable`): the table does not change during a scan, a page evaluates the rows
  after its start key before filtering them, and a page that carries a continuation key has moved forward.
  Any call may be refused, and a write may take effect although its call throws. Runs are serialised, as
  the suite is run in band (`suite/package.json`, line 8).
- Loading a stream by a request's id gives the stream with that id.
- Watch: what each window yields, and what the API answers about pods and logs at each event, is arbitrary.
- Replicas hold prefixes of the single writer's log. A stream's source may emit, complete or error at any time.
- Ids and URLs are ASCII, so comparing characters is comparing the code units the language compares.

## Where the code does not do what it seems to

- Counting events is a completeness test only if no expected event is delivered twice. `ReadBackIffCountsOnce`
  gives the exact condition on a node's log; for a log that comes to hold everything it is at-most-once
  delivery itself (`CountsOnceIsDeliversOnce`). `DuplicateDeliverySatisfiesCount` is an input that fails it.
- A creation time is read back as the floor of its seconds exactly when it is not negative or is a whole
  second (`ParseIsFloor`); exactly then does no interval miss a request that has reached it (`TimeoutBound`).
- A wait on a stream that completes resolves although its condition may never have held (`ResolvesIffSeen`,
  and `CompletionWithoutMatchResolves` for a trace).
- The simulation waiter does not look at deletions, which the other two waiters count as any other event
  (`SimulationMissesDeletedEnd`, and `DeletedEndTimesOut` for a run).
- A scan can return a prefix of the matches without saying so. The scan of a table is complete on every
  database that serves it if and only if the table has at most MAX_SCAN_RESULTS matches
  (`EveryDatabaseCompleteIff`); the database of `OneRowStopsAtCap` leaves out all the others.
- When the peers file cannot be read, the script that prints the lists succeeds at once with empty lists
  instead of waiting (`NoSeedsIffUnreadable`, `UnreadableFileSucceeds`). Other JSON counts with its length.
- The network counts as ready when the ready replicas equal the replicas, so also when both are zero
  (`NoReplicasAreReady`).
- The anchor check deletes the record of a request that it times out but does not unpin its stream.
- The garbage collection is marked as skipped in the suite; it is modelled as written.

## Model

| member | source | states |
|---|---|---|
| ModelEvents.StableSortIsUnique | suite/src/__tests__/correctness/fast/sync-events.test.ts:102-112 | any sorted list that keeps events of equal id in order is the list returned, whatever the sort algorithm |
| ModelEvents.BelowIffLess | suite/src/__tests__/correctness/fast/sync-events.test.ts:105-106 | the order on ids is the lexicographic one: the first differing character decides, and a proper prefix comes first |
| ModelEvents.SortIsSortedPermutation | suite/src/__tests__/correctness/fast/sync-events.test.ts:102-112 | the result is sorted by id and a permutation of the input |
| ModelEvents.SortedIffAscending | suite/src/__tests__/correctness/fast/sync-events.test.ts:102-112 | sorted by the comparator means that no event comes before one whose id is smaller in that order |
| ModelEvents.SortIsCanonical | suite/src/__tests__/correctness/fast/sync-events.test.ts:99-112 | with distinct ids, two lists sort to the same sequence if and only if they are permutations of each other |
| FeedReader.ReadEvents | suite/src/__tests__/correctness/fast/sync-events.test.ts:64-100 | the polling loop ends as the recursive reader does: same throw, timeout, token use, filter and sort, and the same number of polls |
| ReadRuns.EndsAt | suite/src/__tests__/correctness/fast/sync-events.test.ts:71-100 | a read that gets to its n-th poll and no further ends there: with the count, with the timeout, or with a throw, and with the events and the token of the polls so far |
| ReadRuns.ThrowsIffRefused | suite/src/__tests__/correctness/fast/sync-events.test.ts:58-89 | a read throws if and only if a poll that it makes, or a fetch for its page, is answered with another status than 200; it stops if and only if it gets to having found enough or being late |
| ReadRuns.AnsweredReadStops | suite/src/__tests__/correctness/fast/sync-events.test.ts:71-100 | on a node that refuses nothing no read throws, however many pages are empty |
| FeedReader.CursorInvariant | suite/src/__tests__/correctness/fast/sync-events.test.ts:75-98 | after any polls with appends between them, what was found is the log between the starting and the current token, filtered by the CIDs |
| FeedReader.CountIsCompleteness | suite/src/__tests__/correctness/fast/sync-events.test.ts:75-95 | the count is reached if and only if every expected CID was read; it is never exceeded; a shorter result comes only after the timeout |
| FeedReader.ReadBackIffOnce | suite/src/__tests__/correctness/fast/sync-events.test.ts:64-112 | when the count is reached, the result is the written events in canonical order if and only if the pages consumed hold no expected id twice |
| FeedReader.ReadBackIffCountsOnce | suite/src/__tests__/correctness/fast/sync-events.test.ts:64-112 | every node that serves a log, in any pages and read at any time, reads back the sorted written events if and only if the log never holds the count past the token with an expected id in it twice |
| FeedReader.CountsOnceIsDeliversOnce | suite/src/__tests__/correctness/fast/sync-events.test.ts:75-95 | for a log that comes to hold every expected id, that condition is at-most-once delivery past the token |
| FeedReader.ReadReturnsWritten | suite/src/__tests__/correctness/fast/sync-events.test.ts:64-112 | for any page boundaries and unrelated events, a read that does not time out returns exactly the sorted written events |
| FeedReader.RepeatedCidNeverCompletes | suite/src/__tests__/correctness/fast/sync-events.test.ts:75-95 | an id expected twice makes every read end short |
| FeedReader.DuplicateDeliverySatisfiesCount | suite/src/__tests__/correctness/fast/sync-events.test.ts:75-95 | a concrete node that meets every other premise but has one event twice in its log satisfies the count with another event missing |
| SyncScenarios.WaitForEventCount | suite/src/__tests__/correctness/fast/sync-events.test.ts:115-132 | refuses lists of different lengths, otherwise ends as the recursive first pass does |
| SyncScenarios.WaitFailsOnlyOnARead | suite/src/__tests__/correctness/fast/sync-events.test.ts:120-131 | the first pass fails only if the read of some node throws or stops short |
| SyncScenarios.PassOutcome | suite/src/__tests__/correctness/fast/sync-events.test.ts:115-132 | the reads follow one another; the pass succeeds if and only if each is complete, throws if and only if the first incomplete one threw, and reports a timeout if and only if that one stopped short |
| SyncScenarios.ReadyNodesPass | suite/src/__tests__/correctness/fast/sync-events.test.ts:115-132 | a pass over nodes that refuse nothing, hold everything and have a poll's time for each log entry succeeds |
| SyncScenarios.FirstPassMeansAllThere | suite/src/__tests__/correctness/fast/sync-events.test.ts:115-132 | a first pass that succeeds leaves every expected event in every node's log past its resume token |
| SyncScenarios.ReadOfCompleteLog | suite/src/__tests__/correctness/fast/sync-events.test.ts:161-170 | a read of a log that holds everything returns the sorted written events, given a poll for each log entry and a node that refuses nothing |
| SyncScenarios.SecondPassAgrees | suite/src/__tests__/correctness/fast/sync-events.test.ts:161-170 | after a successful first pass, a later read from the same token returns the sorted written events; it cannot time out given a poll for each log entry, nor throw if the node refuses nothing |
| SyncScenarios.InterleavingIsPermutation | suite/src/__tests__/correctness/fast/sync-events.test.ts:246-250 | however writers interleave, the log holds each event as often as it was written |
| SyncScenarios.NoiseIsFilteredOut | suite/src/__tests__/correctness/fast/sync-events.test.ts:90-95 | filtering by the CIDs turns an interleaving with unrelated events into an interleaving of the writers' lists alone |
| SyncScenarios.WritersReadBack | suite/src/__tests__/correctness/fast/sync-events.test.ts:294-316 | for any number of concurrent writers, any interleaving, unrelated events and pages, a read that does not time out returns everything written in canonical order |
| SyncScenarios.NodesAgree | suite/src/__tests__/correctness/fast/sync-events.test.ts:231-264 | any number of writers, any interleaving on each node, any pages: two reads that do not time out return the same canonical sequence of everything written |
| SyncScenarios.WritersDeliverOnce | suite/src/__tests__/correctness/fast/sync-events.test.ts:294-316 | logs written concurrently with distinct ids deliver each expected event at most once |
| DynamoScan.Scan | suite/src/utils/dynamoDbHelpers.ts:200-240 | the result is the filter of a prefix of the table; the prefix is the whole table unless the cap was reached, and the cap is overshot by less than one page; an error is that of a refused call; the database's answers determine the result |
| ScanRuns.EndsAt | suite/src/utils/dynamoDbHelpers.ts:211-236 | a scan that gets to call n and no further ends there: at the cap, with the error of that call, or with the last page, and with the items of all its calls |
| ScanRuns.ErrsIffRefused | suite/src/utils/dynamoDbHelpers.ts:219-239 | a scan fails if and only if one of the calls it makes is refused, with the error of that call |
| ScanRuns.PageSizeLimits | suite/src/utils/dynamoDbHelpers.ts:200-210 | only a positive page size limits a page, and then none is larger than it |
| DynamoScan.BelowCapIffComplete | suite/src/utils/dynamoDbHelpers.ts:200-240 | the result is below the cap if and only if the table's matches are, and is then the filter of the whole table |
| DynamoScan.WholeUpToCap | suite/src/utils/dynamoDbHelpers.ts:200-240 | a table with at most MAX_SCAN_RESULTS matches is returned whole; of one with more, at least the first MAX_SCAN_RESULTS matches are |
| DynamoScan.EveryDatabaseCompleteIff | suite/src/utils/dynamoDbHelpers.ts:200-240 | with any page size, the scan returns all matches from every database that serves the table and does not refuse, if and only if there are at most MAX_SCAN_RESULTS of them |
| DynamoScan.OneRowServes | suite/src/utils/dynamoDbHelpers.ts:219-235 | a database of one-row pages that refuses only a limit of zero serves the table |
| DynamoScan.OneRowStopsAtCap | suite/src/utils/dynamoDbHelpers.ts:200-240 | scanning that database ends well, and returns exactly the first MAX_SCAN_RESULTS matches if there are more |
| DynamoScan.CompleteIffWithinCap | suite/src/utils/dynamoDbHelpers.ts:200-240 | all results that the contract of the scan allows are complete if and only if there are at most MAX_SCAN_RESULTS matches |
| DynamoScan.SingleRowPagesStopAtCap | suite/src/utils/dynamoDbHelpers.ts:201-236 | with one row a page a scan is complete if and only if there are at most MAX_SCAN_RESULTS matches, and otherwise returns exactly that many |
| DynamoScan.ScanListsRecords | suite/src/utils/dynamoDbHelpers.ts:113-140 | a fetch lists matching records of the table, none twice, and all of them below the cap |
| DecimalSeconds.DigitsReadBack | suite/src/utils/dynamoDbHelpers.ts:97-99 | printed digits are read back as the number, whatever follows them |
| DecimalSeconds.PrintIsExact | suite/src/utils/dynamoDbHelpers.ts:97-102 | a time printed as decimal seconds reads back to the millisecond |
| DecimalSeconds.ParseIsFloor | suite/src/__tests__/correctness/fast/anchor.test.ts:23 | printing as decimal seconds and parsing as an integer gives the floor if and only if the time is not negative or is a whole second |
| DecimalSeconds.AgeBound | suite/src/__tests__/correctness/fast/anchor.test.ts:22-31 | the computed age exceeds the true age by less than a second, and is at least the true age if and only if the creation time is not negative or is a whole second |
| DecimalSeconds.AgeError | suite/src/__tests__/correctness/fast/anchor.test.ts:22-24 | the age is off by exactly the fraction of the second that parsing drops |
| DecimalSeconds.TimeoutBound | suite/src/__tests__/correctness/fast/anchor.test.ts:24-31 | no interval times a request out a full second early; some interval misses a request if and only if its creation time is negative and not a whole second |
| RequestTable.Table.StoreStreamReq | suite/src/utils/dynamoDbHelpers.ts:88-111 | replaces the record with a fresh unanchored one, or throws with or without having done so |
| RequestTable.Table.MarkStreamReqAsAnchored | suite/src/utils/dynamoDbHelpers.ts:157-172 | marks the record, creating it when missing |
| RequestTable.Table.MakeStreamReqAppearExpired | suite/src/utils/dynamoDbHelpers.ts:180-198 | moves the creation time a second past the TTL, creating the record when missing |
| RequestTable.Table.DeleteStreamReq | suite/src/utils/dynamoDbHelpers.ts:142-155 | removes the record |
| RequestTable.WritesMeaning | suite/src/utils/dynamoDbHelpers.ts:88-198 | a stored record expires two TTLs after its creation; a mark and an expiry change one attribute each, commute, and create a missing record; a delete undoes any of them, and other records stay |
| RequestTable.ScanFetches | suite/src/utils/dynamoDbHelpers.ts:113-120 | whatever the paging, unanchored requests are fetched from the table, none twice, each with its creation time |
| RequestTable.FetchesExactlyExpired | suite/src/utils/dynamoDbHelpers.ts:131-140 | below the cap, a record is fetched as expired if and only if it was created more than the TTL ago |
| RequestTable.ExpirationFlow | suite/src/__tests__/correctness/fast/helpers.test.ts:50-61 | a request within the TTL is not fetched as expired; one made to appear expired is, from then on |
| RequestTable.AnchoringFlow | suite/src/__tests__/correctness/fast/helpers.test.ts:37-48 | a stored request is fetched as unanchored, a marked one is not while the others still are |
| AnchorRuns.CheckAnchors | suite/src/__tests__/correctness/fast/anchor.test.ts:18-57 | the loop over fetched requests changes the table and ends as the recursive run does |
| AnchorRuns.CheckExact | suite/src/__tests__/correctness/fast/anchor.test.ts:18-55 | each way for the check of one request to end, as an if and only if on its load, age, mark and delete; and what is then in the table |
| AnchorRuns.RunExact | suite/src/__tests__/correctness/fast/anchor.test.ts:18-57 | on any table, the run marks the anchored streams before the first request that does not pass; how it ends and what becomes of that record is decided by that request alone; a delete that is reached and takes effect leaves no record |
| AnchorRuns.TestAnchors | suite/src/__tests__/correctness/fast/anchor.test.ts:14-58 | fetch and check together: a refused fetch changes nothing, a failing run removes one fetched record, anchored records stay |
| AnchorRuns.DeletedOnlyIf | suite/src/__tests__/correctness/fast/anchor.test.ts:31-55 | a run deletes only the record it stopped at, and only if unanchored past the interval or the mark failed; in true time, less than a second short of it |
| AnchorRuns.AnchoredOnlyIf | suite/src/__tests__/correctness/fast/anchor.test.ts:31-40 | a record becomes anchored only if the run reached it and observed ANCHORED; the outer guard and the inner expectation agree |
| AnchorRuns.StopsAtFirstFailure | suite/src/__tests__/correctness/fast/anchor.test.ts:18-57 | the run stops at the first request that cannot be loaded, is too old or cannot be marked |
| AnchorRuns.CompletesIffAllPass | suite/src/__tests__/correctness/fast/anchor.test.ts:18-57 | the run completes if and only if every request passes |
| AnchorRuns.RunSettlesPrefix | suite/src/__tests__/correctness/fast/anchor.test.ts:18-57 | a run settles a prefix of the requests, removes exactly the one it fails on, and leaves later ones and all other records untouched |
| AnchorRuns.FailuresAreBounded | suite/src/__tests__/correctness/fast/anchor.test.ts:41-55 | over any sequence of runs without new stores, failing runs plus unanchored records left are at most the unanchored records at the start |
| AnchorRuns.ScanFetchesSome | suite/src/__tests__/correctness/fast/anchor.test.ts:15 | any scan of a table with unanchored records fetches some of them |
| AnchorRuns.FirstIsSettled | suite/src/__tests__/correctness/fast/anchor.test.ts:18-57 | a run whose first request can be settled leaves fewer unanchored records, however it ends: it is enough that the mark of an anchored stream, or else the delete, takes effect |
| AnchorRuns.RunsSettleAll | suite/src/__tests__/correctness/fast/anchor.test.ts:26-55 | such runs lower the number of unanchored records by one or more each until none is left |
| AnchorRuns.EventuallyAllComplete | suite/src/__tests__/correctness/fast/anchor.test.ts:18-57 | after as many such runs as there were unanchored records none is left, and every later run completes |
| Lifecycle.CollectGarbage | suite/src/__tests__/correctness/fast/garbage-collect.test.ts:45-52 | the nested loops change pins and table as the recursive collection does, aborted at any point |
| Lifecycle.ThrowsIffCallThrows | suite/src/__tests__/correctness/fast/garbage-collect.test.ts:45-52 | a collection throws if and only if one of its calls does, and stops at the first request with such a call |
| Lifecycle.RecordsExact | suite/src/__tests__/correctness/fast/garbage-collect.test.ts:45-52 | a record goes if and only if the delete for a request for it is reached and takes effect |
| Lifecycle.PinsExact | suite/src/__tests__/correctness/fast/garbage-collect.test.ts:45-52 | a pin goes if and only if its removal is reached and takes effect |
| Lifecycle.TestGarbageCollection | suite/src/__tests__/correctness/fast/garbage-collect.test.ts:41-53 | fetch and collect together: a record that is gone was older than the TTL and is pinned on no node; other records are unchanged; it throws if and only if a call does, and otherwise, below the cap, every expired record is gone |
| Lifecycle.DeletedWasUnpinned | suite/src/__tests__/correctness/fast/garbage-collect.test.ts:45-52 | whatever point the run aborts at, a deleted record's stream was unpinned on every node, and no other stream loses a pin |
| Lifecycle.CollectionSettlesPrefix | suite/src/__tests__/correctness/fast/garbage-collect.test.ts:45-52 | however the run ends, requests before the one it stopped at have their record deleted and are pinned nowhere |
| Lifecycle.CollectionFrame | suite/src/__tests__/correctness/fast/garbage-collect.test.ts:45-52 | a stream with no request up to the stop keeps its record and all its pins |
| Lifecycle.CollectionIsComplete | suite/src/__tests__/correctness/fast/garbage-collect.test.ts:45-52 | a collection of whose calls none throws ends normally, deletes all requested records, pinned or not, only those, and leaves them pinned nowhere |
| Lifecycle.AnchoredWasObserved | suite/src/__tests__/correctness/fast/anchor.test.ts:31-40 | after any sequence of jobs, a record is anchored only if some check observed its stream ANCHORED since it was last stored |
| Lifecycle.MissingWasRemovedForAReason | suite/src/__tests__/correctness/fast/anchor.test.ts:41-52 | over any sequence of jobs, a missing record was removed by a check that reached it and timed it out or could not mark it, or by a collection that had unpinned it everywhere; if the job fetched from the table as it found it, the age that counted is the record's own |
| Lifecycle.TableStaysWellFormed | suite/src/utils/dynamoDbHelpers.ts:88-198 | in every table that can arise, a record fetched as unanchored has a creation time |
| Lifecycle.Perform | suite/src/__tests__/correctness/fast/anchor.test.ts:14-58 | a job done on the table and the connections is the step of the machine that the lifecycle theorems are about |
| WatchLoop.LoopWithMaxTimeout | hermetic/src/cli/tester.rs:394-409 | in u32 without overflow: calls are made with the windows of the budget in order, none after the first decisive one, and the result is that of the decisive one or the timeout error |
| WatchLoop.FirstDecisiveCallDecides | hermetic/src/cli/tester.rs:394-409 | the loop returns or fails as the first decisive call does, and times out if none is |
| WatchLoop.WindowsSpendBudget | hermetic/src/cli/tester.rs:399-407 | windows sum to exactly the timeout, each is of 1 to max seconds, and all but the last are of max |
| WatchLoop.WindowsCount | hermetic/src/cli/tester.rs:399-407 | exhausting the timeout takes exactly ceil(timeout / max) calls |
| WatchLoop.DrainWindow | hermetic/src/cli/tester.rs:272-289 | one window fails as its watch is refused, ends as its first decisive item says, and gives None when all items are skipped |
| WatchLoop.SlicingLosesNothing | hermetic/src/cli/tester.rs:262-293 | for any windows, the verdict is that of one scan of the concatenated items |
| WatchLoop.SameItemsSameVerdict | hermetic/src/cli/tester.rs:394-409 | two slicings of the same items into windows of any sizes reach the same verdict |
| WatchLoop.VerdictIsFirstDecisive | hermetic/src/cli/tester.rs:273-289 | a scan returns, fails or times out exactly according to the first decisive item |
| Waiters.WaitForNetwork | hermetic/src/cli/tester.rs:262-293 | the network waiter's verdict is that of one scan of everything its windows yield |
| Waiters.WaiterWindows | hermetic/src/cli/tester.rs:265-271 | every window is of 1 to 290 seconds, and they take up exactly the timeout |
| Waiters.NetworkReadyIff | hermetic/src/cli/tester.rs:275-287 | ready if and only if an object with ready replicas equal to replicas arrives before any error |
| Waiters.NetworkErrorIff | hermetic/src/cli/tester.rs:275-292 | the wait fails with the first error, if the network is not ready before it, and otherwise only by timing out |
| Waiters.NoReplicasAreReady | hermetic/src/cli/tester.rs:279-282 | a network of zero replicas is reported ready |
| Waiters.FirstTerminalDecides | hermetic/src/cli/tester.rs:416-429 | a job fails or passes if and only if the first of its conditions that is Failed or Complete with status True says so |
| Waiters.CheckJobResultIff | hermetic/src/cli/tester.rs:416-429 | a job fails or passes if and only if it has a status with conditions and the first decisive one is Failed or Complete |
| Waiters.CollectLogs | hermetic/src/cli/tester.rs:320-327 | the loop collects the logs as the recursive definition does |
| Waiters.LogsAreAllOrFirstError | hermetic/src/cli/tester.rs:320-327 | collecting succeeds if and only if every log can be read, with all texts in order; otherwise it gives the first error |
| Waiters.WaitForJob | hermetic/src/cli/tester.rs:295-339 | the job waiter's verdict is that of one scan of everything its windows yield |
| Waiters.JobVerdictIff | hermetic/src/cli/tester.rs:313-332 | a result and logs are returned if and only if the first item showing a job with a decisive condition shows that condition, all its logs can be read and these are their texts, and nothing before it fails |
| Waiters.JobErrorIff | hermetic/src/cli/tester.rs:313-335 | the wait fails with the first error of the watch or of collecting the logs of a finished job, and otherwise only by timing out |
| Waiters.WaitForSimulation | hermetic/src/cli/tester.rs:342-386 | the simulation waiter's verdict is that of one scan of everything its windows yield |
| Waiters.SimulationVerdictIff | hermetic/src/cli/tester.rs:357-380 | a result is returned if and only if the manager pod is first seen ended, not deleted, with it and nothing before it fails |
| Waiters.SimulationErrorIff | hermetic/src/cli/tester.rs:357-383 | the wait fails with the first error of the watch or of reading the ended pod's log, and otherwise only by timing out |
| Waiters.SimulationIgnoresDeleted | hermetic/src/cli/tester.rs:378 | leaving out deletions and bookmarks changes no simulation verdict |
| Waiters.SimulationMissesDeletedEnd | hermetic/src/cli/tester.rs:357-380 | a pod whose end is only seen in its deletion makes the simulation waiter time out |
| Waiters.DeletedEndTimesOut | hermetic/src/cli/tester.rs:357-380 | a pod seen running and then succeeded in its deletion times out, and passes if the deletion is turned into a modification |
| Waiters.NetworkCountsDeleted | hermetic/src/cli/tester.rs:276-278 | turning deletions into modifications changes no network verdict |
| Waiters.JobCountsDeleted | hermetic/src/cli/tester.rs:314-316 | turning deletions into modifications changes no job verdict |
| UpdateSchedule.TestUpdate | suite/src/__tests__/correctness/fast/update.test.ts:57-141 | whatever fails, before or after taking effect, the counter ends at n and the log is the writes that landed; a load test passes exactly if the document is there, the current write landed and the node holds the whole log, a sync test exactly if also the write did not throw; at most one request is stored, after the last sync |
| UpdateSchedule.LogShape | suite/src/__tests__/correctness/fast/update.test.ts:81-125 | steps strictly increase, and a write asks for an anchor exactly if it is the last of two or more nodes |
| UpdateSchedule.ConditionMeansWholeLog | suite/src/__tests__/correctness/fast/update.test.ts:104-126 | a replica meets the wait condition if and only if the current write landed and it holds the whole log |
| UpdateSchedule.StepsInLog | suite/src/__tests__/correctness/fast/update.test.ts:64-125 | a step is in the log if and only if it is not past the counter, its call took effect and, for a replace, the creation did not throw |
| UpdateSchedule.LoadPassesIff | suite/src/__tests__/correctness/fast/update.test.ts:93-110 | a load test passes if and only if the document was created and loaded and the replica showed step idx |
| UpdateSchedule.SyncPassesIff | suite/src/__tests__/correctness/fast/update.test.ts:111-138 | a sync test passes if and only if also its own write did not throw, the replica showed step idx + 1 and, on the last node, the request was stored |
| UpdateSchedule.AllPassIff | suite/src/__tests__/correctness/fast/update.test.ts:57-141 | all tests over two or more nodes pass if and only if nothing is lost and nothing throws, but for a plain update that took effect |
| UpdateSchedule.RequestsStoredIff | suite/src/__tests__/correctness/fast/update.test.ts:126-138 | the one request is stored if and only if the last sync met its wait and storing took effect |
| UpdateSchedule.FlawlessPasses | suite/src/__tests__/correctness/fast/update.test.ts:57-141 | every test of a flawless schedule passes |
| UpdateSchedule.RotationEntry | suite/src/__tests__/correctness/fast/update.test.ts:53-55 | entry j of rotation i is URL (i + j) mod n |
| UpdateSchedule.LatinSquare | suite/src/__tests__/correctness/fast/update.test.ts:53-55 | every row and every column is a permutation of the URLs, and column j is row j |
| UpdateSchedule.EachNodeWritesOnce | suite/src/__tests__/correctness/fast/update.test.ts:50-59 | over all rotations of distinct URLs each node is the writer exactly once, and flawless schedules store one request each if there are two nodes or more |
| StreamWait.ResolvesIffSeen | suite/src/utils/ceramicHelpers.ts:94-117 | for every interleaving of emissions, completion and error, the wait resolves if and only if the condition is seen before the deadline or the source completes, and otherwise rejects |
| StreamWait.ResolvesAtOnce | suite/src/utils/ceramicHelpers.ts:94-117 | at any moment between the check and the deadline the wait has resolved if what it waits for has happened, and is otherwise pending |
| StreamWait.CompletionWithoutMatchResolves | suite/src/utils/ceramicHelpers.ts:94-117 | a source that completes without ever reaching the condition resolves the wait; one that errors does not |
| StreamWait.SettlesOnce | suite/src/utils/ceramicHelpers.ts:38-49 | once settled by timer or source, the outcome never changes |
| StreamWait.CheckFirstLosesWakeUp | suite/src/utils/ceramicHelpers.ts:100-117 | with the check before the subscription, a state reached in between would be missed |
| StreamWait.ConditionWait.Handle | suite/src/utils/ceramicHelpers.ts:38-117 | each action changes the stream, the waiter and the promise as the machine's step does |
| StreamWait.ConditionWait.Deliver | suite/src/utils/ceramicHelpers.ts:38-117 | a sequence of actions takes the object through the machine's run |
| StreamWait.WaitForCondition | suite/src/utils/ceramicHelpers.ts:94-117 | the promise of a whole wait ends resolved if and only if the condition is seen before the deadline or the source completes |
| UrlLists.PrintSeeds | hermetic/src/cli/process-peers.sh:23-31 | the suffix-comma loop prints the joined list of copies of the secret |
| UrlLists.PrintForwards | port-forward.sh:27-51 | the prefix-comma loop prints the joined lists of URLs and of keys |
| UrlLists.ProcessPeers | hermetic/src/cli/process-peers.sh:7-44 | thirty looks at the peers file: fails if and only if all show no peers; otherwise the URLs split into exactly the addresses the peers have, in order and once a peer, and the seeds into one copy of the secret a peer |
| UrlLists.PresentConcat | hermetic/src/cli/process-peers.sh:18-19 | filtering the addresses of two lists of peers one after the other is filtering them together |
| UrlLists.PresentInOrder | hermetic/src/cli/process-peers.sh:18-19 | every address that a peer has is listed once for that peer, in the order of the peers, and nothing else is |
| UrlLists.UrlsReadBack | hermetic/src/cli/process-peers.sh:19-35 | with some address and no commas in any, splitting the printed URLs gives exactly those addresses |
| UrlLists.AllUrlsReadBack | hermetic/src/cli/process-peers.sh:19-35 | if every peer has an address, that is the whole list |
| UrlLists.SeedsReadBack | hermetic/src/cli/process-peers.sh:21-31 | a secret without commas is read back once for each peer |
| UrlLists.EndsAtFirstLook | hermetic/src/cli/process-peers.sh:7-44 | the script fails if and only if every look shows an empty list, and otherwise prints what the first other look shows, an unreadable file and JSON that is no list included |
| UrlLists.NoSeedsIffUnreadable | hermetic/src/cli/process-peers.sh:11-35 | no seeds are printed if and only if no number can be got from that look, or it is 1 and the secret is empty |
| UrlLists.UnreadableFileSucceeds | hermetic/src/cli/process-peers.sh:11-40 | with an unreadable file the script succeeds at the first look with empty lists, which the tests read as one empty URL |
| UrlLists.GuardNeverFires | suite/src/__tests__/correctness/fast/update.test.ts:29-33 | whatever the script prints, the tests find at least as many seeds as URLs |
| UrlLists.SplitUndoesJoin | suite/src/__tests__/correctness/fast/update.test.ts:15-16 | splitting a printed list gives back its items if they have no commas and there is at least one |
| UrlLists.JoinUndoesSplit | suite/src/__tests__/correctness/fast/update.test.ts:15-16 | joining the pieces of any text gives the text back |
| UrlLists.ForwardsReadBack | port-forward.sh:31-46 | the forwarded URLs are read back from the list, one for each pod and all different, the i-th naming the port i + 1 after the base |
| UrlLists.SeedCount | hermetic/src/cli/process-peers.sh:21-31 | the tests read one seed a peer, and one more for each comma in the secret |
| UrlLists.SeedsCoverUrls | suite/src/__tests__/correctness/fast/update.test.ts:29-33 | for lists printed for the same peers the guard never fires, even with filtered URLs and for any secret |
| EventAccumulator.Accumulator.ReceivedAll | suite/src/utils/common.ts:51-56 | the size comparison holds if and only if every expected event was received |
| EventAccumulator.Accumulator.OnMessage | suite/src/utils/common.ts:62-67 | each message adds what it parses to |
| EventAccumulator.Accumulator.Listen | suite/src/utils/common.ts:62-67 | a sequence of messages adds everything heard in it |
| EventAccumulator.WaitForEvents | suite/src/utils/common.ts:51-56 | polling at once and after each batch, the wait succeeds if and only if every expected event is what some message of some batch parses to |
| EventAccumulator.SizeTestIsSubset | suite/src/utils/common.ts:53-54 | filtering and comparing sizes is a subset test |
| EventAccumulator.StaysComplete | suite/src/utils/common.ts:43-56 | once all expected events were received, further messages keep it so |

## Left out

- Scan: requires `ServesTable`, because without a continuation key that moves forward the loop does not end; a database that omits the items of a page in mid-table is not modelled.
- LoopWithMaxTimeout: requires a positive window, as its only callers pass 290; with a window of zero the code would call again for ever.
- ReadEvents, WaitForEventCount: require a clock that advances between polls, without which the loop does not end.
- DrainWindow: the waiters use the function it is proved equal to, since a closure cannot call a method.
- Time is exact milliseconds; luxon durations and the seconds in the table are not modelled as IEEE doubles, and the anchor interval and TTL are parameters, not read from the environment.
- The waiter of a source that errors is left as a rejected promise without a handler; what the runtime does about that is not modelled, only that it has no effect on the wait.
- EventAccumulator.WaitForEvents: the polling and its timeout are the library's, which is not part of this model; batches stand for the messages between its polls.
- The status text of refused requests and the messages of most errors are fixed strings.
- `loadDocumentOrTimeout`: its retries until the deadline are not modelled, only whether a node ends up with the document. `getResumeTokens`, `registerInterest`, `writeEvents`: their requests and refusals are not modelled; a token is a position in a log, and what was written is a list of events.
- `createTestTable`, `waitForVersionChange`, `waitForNodeAlive` poll without a bound; nothing holds of them without assuming that the environment gets there.
- Kubernetes objects, their creation, command-line parsing and the run that strings the waiters together; HTTP, the database client, the Ceramic clients, CAR and CBOR encoding and key material.
- Replication as an assertion about Ceramic: that replicas receive events at all is an answer of the environment.
- The peers file is taken to stay the same between the reads of one look, and `CERAMIC_URLS`, printed as `COMPOSEDB_URLS` is, has no list of its own.
- The resource version each watch restarts from: what a window yields is arbitrary.
