# Verified core of buildd

buildd plans work as missions, hands tasks to runners, and paces them against plan budgets. This project
models the parts of it whose correctness is an argument over all inputs or all runs, and proves those
arguments. `dafny verify dfyconfig.toml` checks everything.

| module | what it models |
|---|---|
| `Skyline` with `Spans`, `Lanes`, `SweepLine`, `TimeTotals`, `Blocks` | the chart of a mission's workers: lanes by greedy packing, the peak by a sweep line, time totals, 15-minute blocks |
| `MissionProgress` | totals and percentage of a mission, with retry attempts collapsed under the task they retry |
| `PathOverlap` | dependency edges between tasks that touch the same files, and a scheduler that obeys them |
| `Outbox` | the retry queue of the runner: compaction of PATCHes, retries, backoff, replay against a server |
| `OutboxOrder`, `OutboxFlush`, `OutboxOverlap` | the order in which posts arrive, requests made while a flush is under way, and flushes that overlap |
| `SecretRedaction` | the literal loop of the secret redactor, and the list it works through |
| `SecretPatterns`, `SecretRegexes`, `RegexMatches` | the redactor's second pass, with arbitrary matches and with its six regular expressions, and what those match |
| `JsonBodies` | the walk over a request body that redacts its strings |
| `Masking`, `MaskPatterns`, `PiiPass` | masking UUIDs and hex strings before a PII scan and restoring them after it: what is masked, and what comes back without and with PII matches |
| `CredentialRefresh` | many runners refreshing one credential under a database lock, with rotating refresh tokens |
| `TierRegistry` | the model-tier resolver and its 60-second cache, with overlapping resolves |
| `StepRunner`, `ProvisionGate` | planning and running the steps of an environment manifest, and the gate's ten-minute cache |
| `ClaimBreaker` | pauses per auth context, and the wait until a reset time |
| `OauthBudget`, `ModelRouter` | from worker start times and usage to a budget pressure, and from pressure to a model tier |
| `WorkerPool` | workers that share one index into a list |
| `Seqs`, `Strings`, `Patterns`, `Options` | sums, sorting, permutations, substrings, word boundaries |

Loops and objects are methods and classes that are proved against functions or predicates on values; what
the code promises is then proved about those. Protocols (credential refresh, tier cache, gate cache,
scheduler, worker pool, outbox and server) are step relations, with theorems about every state of every run.
Time is an integer number of milliseconds passed in; the order of steps is arbitrary unless said otherwise.

## What came out false, and when it holds

Where the code falls short of what it or its comments say, the model keeps the code, a lemma names an input,
and another says exactly when the claim holds.

- The chart's development check expects `parallelFactor > 1` whenever two workers ran at once. Idle gaps break
  it (`Skyline.CheckFiresOnGaps`); the factor exceeds 1 exactly when more is worked in surplus than is idle
  (`Skyline.CheckFires`), always so without gaps (`TimeTotals.GapFreeParallelism`).
- A cancelled retry of a task that is in progress or in review takes the task out of the mission's total,
  because those statuses have no rank (`MissionProgress.CancelledRetryDropsRunningTask`,
  `MissionProgress.CancelledAttemptDropsExactly`). A mission of two hundred tasks shows 100 percent with one open
  (`MissionProgress.HundredWithOneOpen`, `MissionProgress.ProgressIsHundredExactly`).
- A task that declares a dependency on a later, overlapping task of its batch blocks the batch
  (`PathOverlap.Batch.ForwardOverlapBlocks`), and so do overlapping tasks that share an id
  (`PathOverlap.Batch.SharedIdBlocks`); a batch drains exactly when its combined edges have no cycle and
  name no unknown task (`PathOverlap.Batch.DrainsWithoutCycles`).
- Compacting PATCHes is lossless exactly for servers that overwrite (`Outbox.LosslessExactly`); on one that
  merges fields, exactly when the last body mentions every field (`Outbox.MergeLosesField`,
  `Outbox.MergeLossless`). A direct PATCH is overwritten by an older one that is still queued
  (`Outbox.OlderPatchComesLate`): it arrives exactly when no other body waits (`Outbox.DirectArrivesExactly`). The
  exclusion of the claim endpoint is dead code (`Outbox.ClaimIsNeverExcluded`).
- Posts to one endpoint can arrive in another order than they were requested: a flush that has one refused goes
  on with the next (`OutboxOrder.PartialFlushReorders`). Exactly the steps that deliver a post ahead of one that
  stays break the order (`OutboxOrder.PostsArriveInOrderExactly`, `OutboxOrder.OrderKeptExactly`).
- A request queued during a flush can vanish when the flush ends. With any number of flushes under way it may
  happen exactly when one of them walks over an array that is not the queue the request was put on
  (`OutboxOverlap.QueuedLosableExactly`, `OutboxOverlap.LosableExactly`): when another flush has ended since
  (`OutboxOverlap.PostLostToOlderFlush`), or, and only this with a single flush, when a PATCH was queued or the
  outbox cleared no later than the request (`OutboxOverlap.OnlyFlushLosesExactly`,
  `OutboxFlush.LateEntryLostExactly`). So a newer PATCH is dropped in favour of the older one
  (`OutboxFlush.NewerPatchLost`, `OutboxFlush.LatePatchArrivesExactly`), and a cleared one is still written over a
  newer one sent at once (`OutboxFlush.ClearedPatchComesLate`, `OutboxFlush.LateDirectArrivesExactly`).
- Entries can be delivered twice, because queueing starts the timer also during a flush, and the second flush walks
  over the same entries (`OutboxOverlap.OneEntryTwice`). Without overlap it never happens
  (`OutboxOverlap.CalmRunsDeliverOnce`), nor while every flush finds the queue free of what was delivered and of
  what other flushes hold (`OutboxOverlap.CarefulRunsDeliverOnce`); a flush that starts during others is harmless
  exactly then (`OutboxOverlap.SecondFlushExactly`).
- A listed secret can survive redaction, because what the redactor writes can show it: a token of the loop, such
  as `REDACTED` or a label; a text of the second pass, such as `credential` for 48 hex digits
  (`SecretRegexes.CredentialSurvives`); and the unbracketed `Authorization: `, by itself or behind other text
  (`SecretRegexes.HeaderNameSurvives`). Nothing else does: whatever the patterns match, no listed value without
  brackets is left in any text exactly when the list shows none in these places
  (`SecretPatterns.RedactorHidesExactly`; for plain keys, `SecretPatterns.UnlabelledWordsExactly`). A value with
  brackets can be rebuilt by its own token (`SecretRedaction.BracketedSecretReturns`); for a list of one value,
  `SecretRedaction.LoneValueExactly` says exactly when. In a body, keys are left as they are
  (`SecretRegexes.SecretKeySurvives`, `SecretRegexes.BodyHidesSecretsExactly`).
- Masking loses text that already looks like a placeholder, and only that (`Masking.PlaceholderIsLost`,
  `Masking.RoundTripExactly`). When the PII pass does change the text, but not the placeholders, every masked word
  comes back (`PiiPass.EveryWordReturns`), except where the pass leaves just an H and a number between two of them
  (`PiiPass.GluedIsLost`, `PiiPass.PassExactly`).
- The commit response is not checked, so a rotated token can be lost, and the next runner sends a dead one
  (`CredentialRefresh.LostRotationSendsDeadToken`); after a loss, and only then, the stored token is dead
  (`CredentialRefresh.StoredExactlyUnlessLost`). A runner that stalls past the 60-minute lock sends a dead token
  (`CredentialRefresh.LateRunnerSendsDeadToken`): while nothing is lost, all runs send only live tokens exactly when
  no runner takes longer than the lock (`CredentialRefresh.LockSufficesExactly`).
- The 60-second window of the tier cache is outlived by any read that takes time
  (`TierRegistry.SlowReadOutlivesWindow`); it holds exactly when reads take none
  (`TierRegistry.WindowHoldsExactly`). A read that overtakes an invalidation puts the old row back
  (`TierRegistry.InvalidationRace`); the invalidation works for good exactly when every read of the key in the air
  resolves as the registry does (`TierRegistry.InvalidationIsFreshExactly`). A registry write does not flush the
  whole cache, as its comment says: a workspace that falls back to its team's row keeps the old one
  (`TierRegistry.TeamWriteLeavesWorkspaceStale`), and only such a workspace does
  (`TierRegistry.StaleAfterWriteExactly`).
- The gate's cache key leaves out the skipped phases. A warm pass is right for another call, in every world,
  exactly when the commands that call wants are a prefix of those that ran
  (`ProvisionGate.WarmAnswerCarriesOver`, `ProvisionGate.SkippedInstallLeavesWrongPass`); over all histories the
  cache changes no verdict exactly when calls for one gate want the same commands
  (`ProvisionGate.CacheChangesNoVerdict`).
- When the clock goes back, the claim breaker has forgotten pauses still to come
  (`ClaimBreaker.ClockGoingBackForgets`); `ClaimBreaker.ReportedHeldExactly` says what it reports, whatever the clock
  does.
- The inferred budget window may have expired, although the comment promises the live one
  (`OauthBudget.ExpiredWindowIsInferred`, `OauthBudget.ExpiredExactly`). Which episodes are learned from depends on
  their order exactly when different ones of the same time lie at the sample limit
  (`OauthBudget.RecentForgetsOrderExactly`).
- With a concurrency below one the worker pool reports success and runs nothing (`WorkerPool.BelowOneRunsNothing`,
  `WorkerPool.CompletesExactly`).

## Assumptions

- `CredentialRefresh`: the server applies each lock and commit atomically. That an accepted commit is stored is read off the server route, not off the runner, which
  does not look.
- `ProvisionGate`: how a command ends is a function of the checked-out commit and the commands that ran before
  it, as the cache's own comment claims; the 32-bit manifest hash is injective on the manifests of a run.
- `TierRegistry`: a team id holds no colon and no workspace is called `null`.
- `PathOverlap`: ids in a batch are unique; tasks outside the batch keep their status during a run.
- `Outbox`: a request that is reported as failed did not reach the server; flushes overlap in
  `OutboxOverlap` only.
- `SecretPatterns`: the first pattern matches at word boundaries only, as its regular expression says.
- `Skyline`, `OauthBudget`, `MissionProgress`: arithmetic is exact.

## Model

| member | source | states |
|---|---|---|
| `Spans.CollectSpans` | packages/core/mission-helpers.ts:582-619 | one span for each started worker that ends later than it starts, in row order, from its start to its completion, or else its last update, or else now, with the state of its outcome |
| `Spans.SpansExactly` | packages/core/mission-helpers.ts:609-619 | the same of the spans as a function of the rows |
| `Spans.SpanStays` | packages/core/mission-helpers.ts:582-586 | a worker with a stamp has the same span whenever one asks, a completed one whatever its last update |
| `Spans.CompletedSpansStay` | packages/core/mission-helpers.ts:582-619 | of completed workers all spans stay as they are when last updates and the clock change |
| `Lanes.FindFreeLane` | packages/core/mission-helpers.ts:641 | the first lane whose occupant ended by the given start, or -1 when every lane is taken |
| `Lanes.AssignLanes` | packages/core/mission-helpers.ts:632-650 | no two spans of a lane overlap, every span is in the lowest lane free at its start, spans of equal start and end climb in row order, no lane is unused, and the number of lanes is the largest number of spans covering one instant |
| `Lanes.PackingNeedsPeak` | packages/core/mission-helpers.ts:628-650 | no assignment of spans to lanes without overlap uses fewer lanes than the concurrency at any instant |
| `Lanes.GreedyLanesArePeak` | packages/core/mission-helpers.ts:628-650 | any lowest-free-lane packing opens exactly as many lanes as the peak concurrency |
| `Lanes.PackingIsUnique` | packages/core/mission-helpers.ts:632-648 | such a packing is the only one |
| `SweepLine.EventsCountConcurrency` | packages/core/mission-helpers.ts:657-661 | starts up to an instant minus ends up to it is the number of half-open spans covering it; abutting spans do not count together |
| `SweepLine.SweepFindsPeak` | packages/core/mission-helpers.ts:662-668 | the largest running count over the sorted events is the true peak |
| `SweepLine.PeakConcurrency` | packages/core/mission-helpers.ts:653-668 | the sweep returns the largest number of spans covering one instant |
| `Lanes.PeakUnique` | packages/core/mission-helpers.ts:650-668 | there is one peak, so the packer's lanes and the sweep's peak agree |
| `Skyline.AgentTime` | packages/core/mission-helpers.ts:625 | the accumulated minutes are the sum of the span lengths |
| `TimeTotals.AgentTimeIsIntegral` | packages/core/mission-helpers.ts:622-626 | agent time counted span by span equals concurrency summed over instants |
| `TimeTotals.AgentTimeLaws` | packages/core/mission-helpers.ts:622-670 | agent time is at most peak times active span, and exceeds the active span exactly when surplus work exceeds idle time |
| `TimeTotals.GapFreeParallelism` | packages/core/mission-helpers.ts:670-680 | in a mission without gaps the peak is above one exactly when agent time exceeds the active span |
| `Skyline.CheckFires` | packages/core/mission-helpers.ts:670-680 | the parallel factor of a chart is at most one exactly when idle time is at least the surplus; the check cannot fire without a gap; the factor is at most the peak |
| `Skyline.CheckFiresOnGaps` | packages/core/mission-helpers.ts:672-680 | every right chart of two workers at once and, after a pause, a third has a peak of two and a parallel factor of at most one, so the check fires |
| `Blocks.SlottedMeaning` | packages/core/mission-helpers.ts:685-690 | a slot is in a span's range exactly when the span covers an instant of the slot |
| `Blocks.SlottedExactly` | packages/core/mission-helpers.ts:685-690 | the slots of a span are those of its first and its last instant, quarters of an hour from the start of the mission |
| `Blocks.GroupByLane` | packages/core/mission-helpers.ts:696-700 | every lane with spans is listed once, in order of first use, with exactly its spans |
| `Blocks.MergeLane` | packages/core/mission-helpers.ts:704-716 | the blocks of a lane are apart, cover exactly the slots of its spans, are joined only where a span reaches across, cut no span, and show the state of their last span, by slots and then by the order of the rows |
| `Blocks.BuildBlocks` | packages/core/mission-helpers.ts:692-717 | the same over all lanes, lanes in order of first use, with every block inside [0, totalSlots) |
| `Skyline.ComputeMissionSkyline` | packages/core/mission-helpers.ts:603-737 | no chart exactly when there is no span; otherwise it is drawn from exactly the spans of the workers: optimal lanes equal to the swept peak, all beyond four folded, exact time totals, blocks exactly where a lane works, and the review tail only when longer than five minutes |
| `MissionProgress.SplitRows` | packages/core/mission-helpers.ts:389-401 | rows that are not attempts with a parent stand for themselves; the others are filed under their parent in order |
| `MissionProgress.SplitKeepsOrder` | packages/core/mission-helpers.ts:389-401 | the rows that stand for themselves and the attempts at each are those of the list, in its order |
| `MissionProgress.ClassDecides` | packages/core/mission-helpers.ts:324-391 | a row with a recorded class goes by it alone |
| `MissionProgress.OlderAttempt` | packages/core/mission-helpers.ts:22-39 | an older row is an attempt when it has a parent, unless it runs in execution mode under a title that does not start like a retry or a review |
| `MissionProgress.OlderDeliverable` | packages/core/mission-helpers.ts:325-333 | an older row is no deliverable exactly when it is a review, coordination or planning, or has one of the four titles of the mission itself |
| `MissionProgress.ResolveRow` | packages/core/mission-helpers.ts:412-426 | a row gets the first of the best-ranked statuses of itself and its attempts, and all their workers |
| `MissionProgress.BestIsFirst` | packages/core/mission-helpers.ts:415-419 | the status a row gets is the first of those that no other outranks |
| `MissionProgress.ComputeMissionProgress` | packages/core/mission-helpers.ts:374-448 | total and completed are the sums of the rows' contributions; progress is the percentage to the nearest whole number, halves up, and 0 without countable tasks |
| `MissionProgress.CountsExactly` | packages/core/mission-helpers.ts:412-437 | a row counts exactly when it is no attempt, is deliverable or a plan with a pull request, and is not given up; it is done exactly when it or an attempt is completed, whatever the order of the rows |
| `MissionProgress.DoneByStatus` | packages/core/mission-helpers.ts:404-437 | a counted row is done exactly when it or an attempt is completed, and given up exactly when one is cancelled and none completed, pending, assigned or failed |
| `MissionProgress.OrderDoesNotMatter` | packages/core/mission-helpers.ts:374-447 | permuting the rows changes neither total nor completed nor progress |
| `MissionProgress.CompletedIsPartOfTotal` | packages/core/mission-helpers.ts:436-437 | completed lies between zero and total |
| `MissionProgress.ProgressFollowsCompletion` | packages/core/mission-helpers.ts:445 | progress is off by half a percent at most, one more completed task never lowers it, and raises it when there are no more than a hundred |
| `MissionProgress.ProgressIsHundredExactly` | packages/core/mission-helpers.ts:442-447 | progress lies in 0 to 100, and is 100 exactly when at most one countable task in two hundred is missing |
| `MissionProgress.HundredWithOneOpen` | packages/core/mission-helpers.ts:442-447 | two hundred tasks, one of them pending: progress is 100 |
| `MissionProgress.AttemptsKeepCompleted` | packages/core/mission-helpers.ts:364-366 | appending an attempt row never lowers completed, and lowers the total only if the attempt is cancelled |
| `MissionProgress.CancelledAttemptDropsExactly` | packages/core/mission-helpers.ts:403-435 | a cancelled attempt lowers the total exactly when it is an attempt at a counted task none of whose statuses is ranked; for one with a pull request, where no two rows share an id |
| `MissionProgress.CancelledAttemptChange` | packages/core/mission-helpers.ts:403-437 | for all rows: the new total is the old one less the counted tasks that the cancelled attempt drops, plus the plans that its pull request takes up |
| `MissionProgress.CancelledRetryDropsRunningTask` | packages/core/mission-helpers.ts:403-435 | a task in progress and a cancelled retry of it: the total goes from one to zero |
| `PathOverlap.PrefixIsComponents` | packages/core/path-overlap.ts:36-40 | continuing a path with a slash is the same as properly extending its list of components |
| `PathOverlap.OverlapByText` | packages/core/path-overlap.ts:27-40 | comparing texts with trailing slashes stripped decides whether one component list is a prefix of the other |
| `PathOverlap.PathsOverlap` | packages/core/path-overlap.ts:24-43 | true exactly when some path of one manifest and some path of the other overlap; false for an empty manifest |
| `PathOverlap.NormalizeExactly` | packages/core/path-overlap.ts:27 | exactly the slashes at the end of a path are taken off |
| `PathOverlap.OverlapSymmetric` | packages/core/path-overlap.ts:24-43 | overlap is symmetric |
| `PathOverlap.SerializeBatchByManifest` | packages/core/path-overlap.ts:72-99 | the edges, in task order: one for each task with an earlier overlapping task that it does not declare, carrying its id and exactly the ids of those, each once |
| `PathOverlap.EdgesExactly` | packages/core/path-overlap.ts:72-98 | with unique ids, an edge makes a task wait for an id exactly when the task does not declare it and it belongs to an earlier task whose manifest overlaps; there is one edge a task, and none is empty |
| `PathOverlap.OverlapIsOrdered` | packages/core/path-overlap.ts:79-91 | every overlap with an earlier task is declared or added |
| `PathOverlap.AddedIsOverlap` | packages/core/path-overlap.ts:79-91 | nothing is added without an overlap, nothing that is declared, and nothing twice |
| `PathOverlap.Batch.OverlappingTasksNeverRunTogether` | packages/core/path-overlap.ts:1-10 | scheduled by the declared dependencies and the returned edges, in no state of any run are two tasks with overlapping manifests running together, and the later has not begun before the earlier is done |
| `PathOverlap.Batch.RunsAreShort` | packages/core/path-overlap.ts:57-71 | every step uses up one of two steps per task, so every run is finite |
| `PathOverlap.Batch.DrainsExactly` | packages/core/path-overlap.ts:57-99 | from every reachable unfinished state some task can start or finish exactly when the tasks can be put in an order in which every dependency comes first |
| `PathOverlap.Batch.OrderableExactly` | packages/core/path-overlap.ts:57-99 | there is such an order exactly when every dependency is a task of the batch or finished outside it, and none leads back to its own task |
| `PathOverlap.Batch.DrainsWithoutCycles` | packages/core/path-overlap.ts:57-99 | so the batch never gets stuck exactly without unknown dependencies and without cycles |
| `PathOverlap.Batch.BackwardDrains` | packages/core/path-overlap.ts:62-67 | with unique ids and declared edges that point back or to finished outside tasks, the tasks can be ordered and every run drains |
| `PathOverlap.Batch.SharedIdBlocks` | packages/core/path-overlap.ts:51-55 | edges name tasks by id: where two overlapping tasks share one and the later does not declare it, neither ever starts |
| `PathOverlap.Batch.ForwardOverlapBlocks` | packages/core/path-overlap.ts:82-91 | a declared edge to a later, overlapping task makes the batch get stuck |
| `Outbox.ClaimIsNeverExcluded` | apps/runner/src/outbox.ts:17-31 | the exclusion of the claim endpoint contradicts its own guard; a PATCH to it is queued |
| `Outbox.QueuedExactly` | apps/runner/src/outbox.ts:17-35 | queued are exactly the PATCHes of one worker, and the POSTs of memories and plans unless they go to tasks and not to workers |
| `Outbox.Outbox.constructor` | apps/runner/src/outbox.ts:37-57 | starts with the loaded entries, no timer, no handler and a 30-second interval |
| `Outbox.Outbox.Enqueue` | apps/runner/src/outbox.ts:74-90 | a queueable request is appended after any older PATCH for its endpoint is removed, and the timer runs; any other request changes nothing |
| `Outbox.Outbox.SetFlushHandler` | apps/runner/src/outbox.ts:102-105 | a handler is set, on which every flush depends, and nothing else changes |
| `Outbox.Outbox.Flush` | apps/runner/src/outbox.ts:108-165 | the accepted entries leave, the others keep their order with one more retry until the tenth, the interval resets or doubles to its cap, and the counts add up to the old queue |
| `Outbox.Outbox.TimerFires` | apps/runner/src/outbox.ts:168-174 | the timer clears itself and flushes; it is running afterwards exactly when there is a handler and something is left, so without a handler it dies with entries waiting |
| `Outbox.Outbox.Clear` | apps/runner/src/outbox.ts:185-189 | empties the queue and stops the timer |
| `Outbox.BackoffDoublesToCap` | apps/runner/src/outbox.ts:40-41 | after k flushes that deliver nothing the wait is 30 seconds times 2 to the k, at most 5 minutes |
| `Outbox.IntervalStaysInRange` | apps/runner/src/outbox.ts:148-155 | the wait lies between 30 seconds and five minutes after any flushes, and is 30 seconds after a delivery |
| `Outbox.GivenUpAtTenth` | apps/runner/src/outbox.ts:119-145 | after k flushes in an outage exactly the entries with fewer than ten failures, old and new together, are left, in order; a queue without failures is kept whole through nine flushes and given up at the tenth |
| `Outbox.EnqueuedSays` | apps/runner/src/outbox.ts:79-84 | for the last body of each endpoint and the sequence of records posted to it, queueing with removal says the same as appending |
| `Outbox.CompactedFacts` | apps/runner/src/outbox.ts:79-84 | a compacted log holds one PATCH per endpoint, the last body of each, and every posted record in its order |
| `Outbox.LosslessExactly` | apps/runner/src/outbox.ts:79-84 | replaying the compacted log always gives the state of the full log exactly when a later PATCH wipes out an earlier one |
| `Outbox.OverwriteIsAbsorbing` | apps/runner/src/outbox.ts:79-84 | a server that overwrites its document meets that condition |
| `Outbox.MergeLossless` | apps/runner/src/outbox.ts:79-84 | on a server that merges fields a log survives compaction exactly when its last body mentions every field an earlier one did |
| `Outbox.MergeLosesField` | apps/runner/src/outbox.ts:79-84 | of two PATCHes, a field that only the first mentions is lost |
| `Outbox.RunsAreFaithful` | apps/runner/src/outbox.ts:74-189 | the invariant of every run: a compact queue that, with what was delivered and lost, accounts for the log |
| `Outbox.DeliveryMatchesLog` | apps/runner/src/outbox.ts:74-189 | over all runs from any saved queue, with direct requests at any time, flushes of any outcome and clears: one PATCH per endpoint in the queue, every posted record delivered, waiting or lost, and a delivered queue leaves each endpoint whose latest update was neither lost nor overtaken as the full log would |
| `Outbox.DirectPatchOvertaken` | apps/runner/src/outbox.ts:73-84 | a direct PATCH while one waits ends right exactly when nothing waits for the endpoint or both bodies agree |
| `Outbox.DirectArrivesExactly` | apps/runner/src/outbox.ts:73-84 | in any state, a direct PATCH is what its endpoint will hold exactly when no other body waits for it |
| `Outbox.OlderPatchComesLate` | apps/runner/src/outbox.ts:73-84 | a run in which a queued PATCH is flushed over a newer one that was sent at once |
| `OutboxOrder.OrderlyRunsKeepOrder` | apps/runner/src/outbox.ts:119-145 | while no post is sent ahead of one that waits and no flush delivers one behind one it keeps, delivered and waiting posts stand in the order of the requests |
| `OutboxOrder.PostsArriveInOrderExactly` | apps/runner/src/outbox.ts:119-145 | with nothing waiting and nothing lost, the server has the posts to an endpoint in the order of the requests exactly when every step was orderly |
| `OutboxOrder.OrderKeptExactly` | apps/runner/src/outbox.ts:119-145 | delivered and waiting posts are in order at every moment exactly when every step is orderly |
| `OutboxOrder.PartialFlushReorders` | apps/runner/src/outbox.ts:119-145 | a flush with the first of two posts refused, and the next flush, deliver them the other way round |
| `OutboxFlush.FlushEndsAs` | apps/runner/src/outbox.ts:108-146 | a flush during which requests are made handles the old queue and what joined its array, and what it keeps becomes the queue, whatever else was queued, sent or cleared |
| `OutboxFlush.LateEntryLostExactly` | apps/runner/src/outbox.ts:79-84 | an entry queued during a flush that is the only one is lost exactly when a PATCH was queued or the outbox cleared no later than it |
| `OutboxFlush.UnsplitIsOneStep` | apps/runner/src/outbox.ts:119-146 | with nothing but posts queued in the meantime the flush is an ordinary one of the longer queue |
| `OutboxFlush.AfterFlushKeeps` | apps/runner/src/outbox.ts:108-146 | at every moment of a flush what it has in hand, with what was delivered and lost, accounts for the log |
| `OutboxFlush.LateRunsAreFaithful` | apps/runner/src/outbox.ts:74-189 | the invariant also holds over runs with failed and direct requests and clears during flushes |
| `OutboxFlush.LatePatchArrivesExactly` | apps/runner/src/outbox.ts:79-146 | an endpoint ends with its latest body exactly when no PATCH for it was requested during the flush, or the last one repeats the body last heard: that of a direct PATCH sent while the flush had none for the endpoint in hand, or else the one before the flush |
| `OutboxFlush.LateDirectArrivesExactly` | apps/runner/src/outbox.ts:119-146 | a direct PATCH during a flush is what its endpoint will hold exactly when the flush has no other body for it in hand |
| `OutboxFlush.ClearedPatchComesLate` | apps/runner/src/outbox.ts:119-189 | the outbox is cleared during a flush and a newer PATCH sent: the flush still writes the older one over it |
| `OutboxFlush.NewerPatchLost` | apps/runner/src/outbox.ts:79-146 | a newer PATCH queued while the older one is refused is gone, and the older one stays |
| `OutboxOverlap.CarefulRunsDeliverOnce` | apps/runner/src/outbox.ts:108-146 | over all runs in which every flush starts alone or finds the queue free of what was delivered and of what other flushes hold, no entry is delivered twice |
| `OutboxOverlap.CalmRunsDeliverOnce` | apps/runner/src/outbox.ts:108-146 | in particular over all runs in which no flush starts during another, with requests and clears at any time |
| `OutboxOverlap.SecondFlushExactly` | apps/runner/src/outbox.ts:89-174 | a flush starts during any number of others, with no entry in two hands so far: while later flushes start alone or with the same care, nothing can be delivered twice exactly when no entry of the queue had been delivered or was in the hands of another |
| `OutboxOverlap.SharedArrayIsUnsafe` | apps/runner/src/outbox.ts:108-120 | as long as the queue is the array that some flush walks over, another flush can deliver twice |
| `OutboxOverlap.OneEntryTwice` | apps/runner/src/outbox.ts:108-146 | one entry and two flushes: it is delivered twice |
| `OutboxOverlap.LosableExactly` | apps/runner/src/outbox.ts:108-146 | with any number of flushes under way, a waiting entry may get lost, without being given up, cleared or replaced, exactly when some flush does not hold it |
| `OutboxOverlap.QueuedLosableExactly` | apps/runner/src/outbox.ts:79-146 | in every run, an entry may get lost from the moment it is queued exactly when some flush walks over an array that is not the queue it was put on |
| `OutboxOverlap.PostLostToOlderFlush` | apps/runner/src/outbox.ts:119-146 | two flushes of one entry: a POST queued after the first has ended is gone when the second ends |
| `OutboxOverlap.OnlyFlushLosesExactly` | apps/runner/src/outbox.ts:79-84 | when a flush is the only one, that is when a PATCH was queued or the outbox cleared during it, no later than the entry |
| `SecretRedaction.JoinSplitReplaces` | packages/core/redaction.ts:303-306 | splitting at a value and joining with the token replaces its leftmost, non-overlapping occurrences |
| `SecretRedaction.FirstReplacement` | packages/core/redaction.ts:303-306 | a value that occurs is replaced at its first occurrence, and what follows that is replaced in the same way |
| `SecretRedaction.ReplaceAbsent` | packages/core/redaction.ts:303-306 | a text without the value is left as it is |
| `SecretRedaction.RedactLiterals` | packages/core/redaction.ts:299-307 | the loop replaces every listed value in turn |
| `SecretRedaction.Origin` | packages/core/redaction.ts:301-307 | a bracket-free word in the output was in the input or is shown by a token: seams create nothing |
| `SecretRedaction.FirstIsGone` | packages/core/redaction.ts:301-307 | a replaced value comes back only through a token |
| `SecretRedaction.SecretAlone` | packages/core/redaction.ts:285-286 | longest first, a listed value standing alone is replaced whole by its own token |
| `SecretRedaction.LoopHidesExactly` | packages/core/redaction.ts:301-307 | no listed value survives the loop in any text exactly when no redacted token shows one |
| `SecretRedaction.LoopIdempotentExactly` | packages/core/redaction.ts:301-307 | going through the loop twice is going through it once, on every text, exactly under the same condition |
| `SecretRedaction.DisjointFromTokens` | packages/core/redaction.ts:301-307 | values that are no part of any token's text are all removed by the loop |
| `SecretRedaction.UnlabelledLoopExactly` | packages/core/redaction.ts:301-307 | unlabelled values of at least eight characters are removed by the loop from every text exactly when none of them is "REDACTED" |
| `SecretRedaction.LoneValueExactly` | packages/core/redaction.ts:301-307 | a single value, with or without brackets, survives the loop in some text exactly when its token between a start and an end of the value rebuilds it |
| `SecretRedaction.BracketedSecretReturns` | packages/core/redaction.ts:301-307 | every value that ends in an opening bracket is rebuilt by its own token in some text |
| `SecretRedaction.SanitizeTag` | packages/core/redaction.ts:293-294 | a label keeps its length and its permitted characters, and every other becomes an underscore, so no bracket is left; an empty one is none |
| `SecretRedaction.BuildList` | packages/core/redaction.ts:288-297 | the list holds every eligible value once, under its last label, longest first, and values of one length in the order of their first mention |
| `SecretRedaction.ListedExactly` | packages/core/redaction.ts:288-297 | a value is listed exactly when some secret gives it and it has at least eight characters between its outer blanks |
| `SecretRedaction.ListedLabel` | packages/core/redaction.ts:291-295 | its label is that of the last secret that gives it, cleaned up, and none when that is a bare value |
| `SecretPatterns.ReplaceMatches` | packages/core/redaction.ts:308-310 | one pattern: every match, left to right, is replaced |
| `SecretPatterns.ScanUntil` | packages/core/redaction.ts:308-310 | the text before the first match stays, the match is replaced, and the scan goes on behind it |
| `SecretPatterns.ScanNever` | packages/core/redaction.ts:308-310 | a text without a match stays as it is |
| `SecretPatterns.Redact` | packages/core/redaction.ts:299-312 | the loop and then the six patterns in turn |
| `SecretPatterns.ScanShows` | packages/core/redaction.ts:308-310 | a bracket-free word behind a pattern was there before, is part of the bracketed text, or stands at the seam before it |
| `SecretPatterns.RedactorHidesExactly` | packages/core/redaction.ts:273-312 | whatever the patterns match, no listed value without brackets is left in any text exactly when no token, no text of a pattern and no seam shows one |
| `SecretPatterns.UnlabelledWordsExactly` | packages/core/redaction.ts:273-312 | for unlabelled values of word characters this means that none is part of a text that a pattern writes |
| `SecretRegexes.RegexesAllowed` | packages/core/redaction.ts:274 | the first regular expression starts at a word boundary, as the theorem asks |
| `RegexMatches.HeaderExactly` | packages/core/redaction.ts:274 | the longest stretch that is an authorization header: the name, a colon, a scheme and a value, with the blanks the expression allows |
| `RegexMatches.JwtExactly` | packages/core/redaction.ts:275 | the longest stretch of three dotted groups that starts with eyJ |
| `RegexMatches.KeyExactly` | packages/core/redaction.ts:276 | the longest stretch of sk- and at least twenty key characters |
| `RegexMatches.PrefixedExactly` | packages/core/redaction.ts:277 | the longest stretch of one of the listed prefixes, an underscore and at least sixteen key characters |
| `RegexMatches.HexExactly` | packages/core/redaction.ts:278 | the longest stretch of at least 48 hex digits |
| `RegexMatches.LongExactly` | packages/core/redaction.ts:279 | the longest stretch of at least 48 token characters that looks ahead at a letter and a digit |
| `SecretRegexes.BodyHidesSecrets` | packages/core/redaction.ts:315-336 | with the six regular expressions, no string value anywhere in a redacted body contains a listed value, when the list shows none |
| `SecretRegexes.BodyHidesSecretsExactly` | packages/core/redaction.ts:315-336 | with the keys included, a redacted body shows no listed value exactly when none of its keys did |
| `SecretRegexes.SecretKeySurvives` | packages/core/redaction.ts:330-333 | a listed value used as a key is still there |
| `SecretRegexes.CredentialSurvives` | packages/core/redaction.ts:278 | any text of 48 or more hex digits comes out showing a listed part of "REDACTED:credential" |
| `SecretRegexes.HeaderSurvives` | packages/core/redaction.ts:274 | a header in capitals, behind a few characters or none, comes out showing a listed value that ends in the start of "Authorization: " |
| `SecretRegexes.HeaderNameSurvives` | packages/core/redaction.ts:274 | a list of "Authorization" alone, or with a few characters in front, is such a case |
| `JsonBodies.VisitKeepsSkeleton` | packages/core/redaction.ts:327-335 | redacting a body keeps its shape, keys and other values |
| `JsonBodies.KeysStay` | packages/core/redaction.ts:330-333 | the keys of a redacted body are those of the body |
| `JsonBodies.TextsComeFrom` | packages/core/redaction.ts:327-335 | every string of the redacted body is the redaction of a string of the body |
| `JsonBodies.TextsGoTo` | packages/core/redaction.ts:327-335 | the redaction of every string of the body is in the redacted body |
| `JsonBodies.RedactedInPlace` | packages/core/redaction.ts:327-335 | at every place the redacted body has what the body has there, redacted |
| `Masking.UuidPatternBounded` | packages/core/redaction.ts:147-148 | every UUID match is a word that starts with a hex digit, holds no NUL, is no number and does not start with U, with no word character on either side |
| `Masking.HexPatternBounded` | packages/core/redaction.ts:149-152 | the same for every hex match |
| `MaskPatterns.UuidPatternExactly` | packages/core/redaction.ts:147-148 | the first pattern matches exactly the UUIDs with no word character on either side |
| `MaskPatterns.HexPatternExactly` | packages/core/redaction.ts:149-152 | the second matches exactly the words of seven or more hex digits, one of them a letter, that stand alone |
| `MaskPatterns.NothingGetsPast` | packages/core/redaction.ts:156-169 | whatever the text, what the PII patterns see holds no UUID and no hex string of these kinds |
| `Masking.DecRoundTrip` | packages/core/redaction.ts:161-188 | reading back a printed index gives the index |
| `Masking.Mask` | packages/core/redaction.ts:157-169 | the loop replaces every match, left to right, by its numbered placeholder and lists the matches |
| `Masking.MaskRun` | packages/core/redaction.ts:159-169 | masking neither makes nor breaks the part of a placeholder behind its opening NUL |
| `Masking.RestoreMasked` | packages/core/redaction.ts:164-187 | masking and restoring one kind does to any text what restoring alone does |
| `Masking.UuidsReturn` | packages/core/redaction.ts:157-188 | masking UUIDs makes no difference once both kinds are restored, hex strings first |
| `Masking.MasksCancel` | packages/core/redaction.ts:156-191 | without a PII match redaction does what the two restorations alone do |
| `Masking.RestoreLosesNuls` | packages/core/redaction.ts:186-188 | restoring changes a text exactly when it holds a placeholder, and then it loses a NUL |
| `Masking.HasPlaceholderExactly` | packages/core/redaction.ts:186-188 | the restoration finds a placeholder exactly in the texts that hold NUL, the mark, at least one digit and NUL |
| `Masking.RoundTripExactly` | packages/core/redaction.ts:156-191 | when no PII pattern fires, a text comes back unchanged exactly when it holds no placeholder of its own |
| `Masking.PlaceholderIsLost` | packages/core/redaction.ts:164-188 | a text that is itself a placeholder, of any kind and number, comes back as "undefined" |
| `Masking.RedactText` | packages/core/redaction.ts:156-191 | the five passes in their order; without a PII match the result is the text exactly when that holds no placeholder |
| `Masking.RoundTripOrdinaryText` | packages/core/redaction.ts:156-191 | text without NUL always comes back unchanged when no PII pattern fires |
| `PiiPass.ScannedIsRow` | packages/core/redaction.ts:156-169 | what the PII patterns see is the text with each match of either kind replaced by a placeholder, which put back gives the text |
| `PiiPass.RestoreRowExactly` | packages/core/redaction.ts:186-188 | restoring characters and placeholders puts every placeholder back exactly when no H and number stand alone between a UUID's and the next |
| `PiiPass.PassExactly` | packages/core/redaction.ts:156-191 | the same for redaction, whatever the PII pass made of the characters |
| `PiiPass.EveryWordReturns` | packages/core/redaction.ts:156-191 | when the pass leaves the placeholders alone, every masked UUID and hex string is in the result |
| `PiiPass.GluedIsLost` | packages/core/redaction.ts:186-188 | a pass that writes H1 between two UUIDs does not give both back |
| `CredentialRefresh.RunnerRefreshCredential` | apps/runner/src/credential-refresh.ts:21-137 | the token sent, the revocation or commit posted and the result, for every combination of answers: locked, no credential, error or refreshed each exactly when, and refreshed whether or not the server accepted the commit |
| `CredentialRefresh.RunInvariant` | apps/runner/src/credential-refresh.ts:30-137 | in every timely run of any number of runners the lock, the runners' states, the provider and the database agree, or a token has been lost |
| `CredentialRefresh.GrantedExactly` | apps/web/src/app/api/runner/credential-refresh/route.ts:48-104 | in any run, the lock is granted exactly when the last lock or commit is more than an hour old |
| `CredentialRefresh.SentTokensAreLive` | apps/runner/src/credential-refresh.ts:30-137 | as long as no rotated token was lost, every token sent was the live one, one runner at most is inside the protocol, and at rest the stored token is live, with or without rotation |
| `CredentialRefresh.StoredExactlyUnlessLost` | apps/runner/src/credential-refresh.ts:109-137 | at rest the stored token is live exactly when no rotated token was lost |
| `CredentialRefresh.DeadAfterLoss` | apps/runner/src/credential-refresh.ts:116-132 | after a loss every token sent is dead |
| `CredentialRefresh.LostRotationSendsDeadToken` | apps/runner/src/credential-refresh.ts:116-132 | a run in which a commit does not arrive, the stored token is dead at rest, and the next runner sends it |
| `CredentialRefresh.LateRunnerSendsDeadToken` | apps/web/src/app/api/runner/credential-refresh/route.ts:48-67 | a run with one runner inside the protocol for a millisecond more than the lock's window: it sends a token that another has rotated away |
| `CredentialRefresh.LockSufficesExactly` | apps/web/src/app/api/runner/credential-refresh/route.ts:48-67 | over all runs whose runners are inside the protocol for at most a given time, only live tokens are sent while none is lost, exactly when that time is at most the lock's window |
| `TierRegistry.KeysAreDistinct` | packages/core/model-tier-registry.ts:35-37 | proper scopes have different cache keys |
| `TierRegistry.ResolvedExactly` | packages/core/model-tier-registry.ts:72-110 | the entry is that of the first row of this team, tier and workspace, if a workspace is named and has one, else that of the first row of team and tier without a workspace, else the default; source, provider, model and settings say so |
| `TierRegistry.OtherRowsDoNotMatter` | packages/core/model-tier-registry.ts:74-79 | rows of other teams or tiers make no difference |
| `TierRegistry.TierCache.CheckCache` | packages/core/model-tier-registry.ts:62-70 | the cached entry exactly when its slot is younger than 60 seconds and holds the tier |
| `TierRegistry.TierCache.UseRows` | packages/core/model-tier-registry.ts:72-111 | workspace row, else team row, else the default; a row found is stored in a slot that is renewed when too old, a failed read stores nothing |
| `TierRegistry.TierCache.ResolveTierEntry` | packages/core/model-tier-registry.ts:57-111 | a resolve that nothing interrupts: a hit changes nothing, a miss does what follows the read |
| `TierRegistry.TierCache.InvalidateTierCache` | packages/core/model-tier-registry.ts:40-47 | drops the team key, and the workspace key if one is given |
| `TierRegistry.RunIsFine` | packages/core/model-tier-registry.ts:30-111 | the invariant of every run: what is cached or in flight stood in the registry recently enough |
| `TierRegistry.AnswersAreRecent` | packages/core/model-tier-registry.ts:9-10 | over all interleavings every answer not caused by a failed read is the uncached resolution of the registry as it stood less than 60 seconds plus the longest resolve ago |
| `TierRegistry.InvalidationIsFresh` | packages/core/model-tier-registry.ts:30-47 | after an invalidation, when every read of the key in the air resolves as the registry does, every later answer is one the registry gave at or after it |
| `TierRegistry.InvalidationIsFreshExactly` | packages/core/model-tier-registry.ts:39-47 | an invalidation makes its key fresh in every continuation exactly when every read of the key in the air resolves as the registry does at that moment |
| `TierRegistry.InvalidationRace` | packages/core/model-tier-registry.ts:72-104 | a resolve that read before a write and its invalidation makes the next answer stale |
| `TierRegistry.SlowReadOutlivesWindow` | packages/core/model-tier-registry.ts:97-104 | for a read of any positive length, stored into a slot loaded meanwhile: it is served when the registry has not given it for 60 seconds |
| `TierRegistry.WindowHoldsExactly` | packages/core/model-tier-registry.ts:9-10 | over all runs whose reads take at most a given time, every answer is less than 60 seconds old exactly when that time is zero |
| `TierRegistry.StaleAfterWriteExactly` | packages/core/model-tier-registry.ts:30-47 | after a write of one row and its invalidation, in a cache that was right before: stale are exactly the cached workspaces of that tier that fall back to the team's row, when it is that row and its resolution changed |
| `TierRegistry.TeamWriteLeavesWorkspaceStale` | packages/core/model-tier-registry.ts:30-47 | a run in which a workspace is still answered with the old row after its team's row was written and invalidated |
| `StepRunner.PlanInPhaseOrder` | apps/runner/src/env-verify.ts:189-193 | planned steps never go back to an earlier phase |
| `StepRunner.PlanExactly` | apps/runner/src/env-verify.ts:183-250 | a plan holds, with their commands, tool, variables and time limits, a toolchain, install, env and readiness step exactly when the manifest has the field, its provision commands in order and each once, and nothing else |
| `StepRunner.MissingExactly` | apps/runner/src/env-verify.ts:358-362 | nothing is missing exactly when every required variable is set and not empty |
| `StepRunner.ExecuteSteps` | apps/runner/src/env-verify.ts:337-381 | the loop yields the results, and hands the runner the commands, of the step-by-step execution |
| `StepRunner.ExecutedExactly` | apps/runner/src/env-verify.ts:332-381 | a step is ok exactly when it and all wanted steps before it pass, failed exactly when it is the first that does not, and exactly the wanted commands up to that one are run |
| `StepRunner.AtMostOneFailure` | apps/runner/src/env-verify.ts:332-381 | at most one step is reported failed |
| `StepRunner.ResultsTell` | apps/runner/src/env-verify.ts:345-378 | every result says why: skipped by the caller or after a failure, found or not on the path, which variables are missing, or how the command ended |
| `ProvisionGate.FindFail` | apps/runner/src/env-verify.ts:511 | the first failed result, and none exactly when no result failed |
| `ProvisionGate.WarmGate.Lookup` | apps/runner/src/env-verify.ts:498-508 | a warm pass exactly when the call is cacheable and its key was stored less than ten minutes ago |
| `ProvisionGate.WarmGate.RunFresh` | apps/runner/src/env-verify.ts:510-522 | the answer of a gate without a cache; only a cacheable pass is stored |
| `ProvisionGate.WarmGate.RunProvisionGate` | apps/runner/src/env-verify.ts:492-523 | an uninterrupted call answers from the cache or runs afresh, and leaves the cache accordingly |
| `ProvisionGate.WarmGate.ClearProvisionGateCache` | apps/runner/src/env-verify.ts:467-469 | forgets every pass |
| `ProvisionGate.FreshPassesExactly` | apps/runner/src/env-verify.ts:510-521 | a declared gate passes exactly when every wanted step does, and reports a failure exactly when it does not pass |
| `ProvisionGate.AllPassExactly` | apps/runner/src/env-verify.ts:332-381 | all wanted steps pass exactly when the variables are set and the wanted commands, each run after those before it, end with 0 |
| `ProvisionGate.PlanIsListed` | apps/runner/src/env-verify.ts:194-250 | a plan hands over exactly the commands that the manifest lists outside the skipped phases |
| `ProvisionGate.PassProves` | apps/runner/src/env-verify.ts:510-521 | a declared gate passes exactly when every required variable has a value and every listed command, outside the skipped phases, ends with 0 when run after those before it |
| `ProvisionGate.FreshBlames` | apps/runner/src/env-verify.ts:511-521 | the failure of a blocking gate names the phase of the first step that does not pass |
| `ProvisionGate.FreshNames` | apps/runner/src/env-verify.ts:433-448 | the failure has the code of its phase and the message of the failed step |
| `ProvisionGate.FreshBlamesEarliestPhase` | apps/runner/src/env-verify.ts:189-193 | every wanted step of a phase earlier than the one blamed passes |
| `ProvisionGate.KeysAreDistinct` | apps/runner/src/env-verify.ts:471-502 | equal keys mean one commit and one manifest |
| `ProvisionGate.WarmAnswerCarriesOver` | apps/runner/src/env-verify.ts:450-461 | a pass of one call is right for another of the same commit in every world exactly when the second's commands are a prefix of the first's |
| `ProvisionGate.SkippedInstallLeavesWrongPass` | apps/runner/src/env-verify.ts:501-508 | a call that skips install leaves a pass that is wrongly served to one that does not |
| `ProvisionGate.ServedExactly` | apps/runner/src/env-verify.ts:492-513 | in every history of overlapping calls, whatever the clock does, the cache answers exactly when the last real pass of the same gate since the cache was cleared ended less than ten minutes before |
| `ProvisionGate.ServedWhileClockRuns` | apps/runner/src/env-verify.ts:498-508 | while the clock runs, exactly when any such pass did |
| `ProvisionGate.CacheChangesNoVerdict` | apps/runner/src/env-verify.ts:450-461 | the cache changes no verdict and no failure, in any history of the calls, exactly when calls for one gate want the same commands |
| `ClaimBreaker.ContextBreaker.constructor` | apps/runner/src/claim-breaker.ts:135-137 | starts with nothing paused |
| `ClaimBreaker.ContextBreaker.IsPaused` | apps/runner/src/claim-breaker.ts:139-147 | paused exactly when the stored moment lies ahead; an expired pause is deleted, nothing else changes |
| `ClaimBreaker.ContextBreaker.Pause` | apps/runner/src/claim-breaker.ts:149-154 | stores the later of the two moments; a pause is never shortened |
| `ClaimBreaker.ContextBreaker.Clear` | apps/runner/src/claim-breaker.ts:159-161 | forgets the context and no other |
| `ClaimBreaker.ReportedHeldExactly` | apps/runner/src/claim-breaker.ts:131-162 | over every history, whatever the clock does: a context is reported paused exactly when some pause of it ends after now and since then it was neither cleared nor asked about at a moment when that pause was over |
| `ClaimBreaker.ReportedExactly` | apps/runner/src/claim-breaker.ts:131-162 | for a question asked no earlier than those before it, that is when some pause since the last clear ends after now: forgetting expired pauses changes nothing |
| `ClaimBreaker.ClockGoingBackForgets` | apps/runner/src/claim-breaker.ts:142-145 | asked late and then early, a pause still to come is forgotten |
| `ClaimBreaker.DelayIsBounded` | apps/runner/src/claim-breaker.ts:113-129 | whatever the text, the delay lies between five minutes and 24 hours |
| `ClaimBreaker.ParsedHour` | apps/runner/src/claim-breaker.ts:114-120 | 12am is midnight, the hours from 1pm count on from twelve, any other number stands for itself |
| `ClaimBreaker.ParsedExactly` | apps/runner/src/claim-breaker.ts:114-115 | a time is one or two digits with nothing, am or pm behind them in any case; any other text means an hour |
| `ClaimBreaker.LateHours` | apps/runner/src/claim-breaker.ts:122-128 | hours from 24 on count from the last midnight, with a day as the longest wait |
| `ClaimBreaker.DelayReachesTheHour` | apps/runner/src/claim-breaker.ts:114-128 | for an hour of the clock the delay ends at the first later moment that shows it, or after five minutes if that is nearer |
| `OauthBudget.SessionizationUnique` | packages/core/oauth-budget.ts:276-288 | a set of start times can be cut into five-hour windows in one way only |
| `OauthBudget.InferWindowStart` | packages/core/oauth-budget.ts:293-316 | the last boundary of that cut over the starts that are not in the future and not before a reset that has happened, or now when there is none; input order does not matter |
| `OauthBudget.LastBoundaryUnique` | packages/core/oauth-budget.ts:276-291 | there is one last boundary |
| `OauthBudget.OlderStartsDoNotMatter` | packages/core/oauth-budget.ts:283-284 | forgetting every start before a true boundary leaves the inferred start where it was |
| `OauthBudget.ExpiredExactly` | packages/core/oauth-budget.ts:278-291 | the inferred window still holds the present exactly when a request made now would not open a new one |
| `OauthBudget.ExpiredWindowIsInferred` | packages/core/oauth-budget.ts:293-316 | one start, asked about when its window has run out: that window is inferred, and a request now would open another |
| `OauthBudget.QuantileBetweenNeighbours` | packages/core/oauth-budget.ts:169-181 | the floored quantile lies between the order statistics at the floor and the ceiling of its position |
| `OauthBudget.QuantileInterpolates` | packages/core/oauth-budget.ts:173-181 | it is the value at position q(n-1) of the sorted list, on the straight line between its neighbours, rounded down |
| `OauthBudget.QuantileForgetsOrder` | packages/core/oauth-budget.ts:173-181 | the order of the values does not matter |
| `OauthBudget.LowerQuantileIsCautious` | packages/core/oauth-budget.ts:169-181 | a lower quantile never gives a larger value |
| `OauthBudget.LearnedIsObserved` | packages/core/oauth-budget.ts:213-218 | a learned capacity lies between positive values that chosen episodes reported |
| `OauthBudget.RecentIsNewest` | packages/core/oauth-budget.ts:196-199 | the chosen episodes are ones that measured work, as many as the limit allows, and none left out is newer |
| `OauthBudget.LearnedConfidence` | packages/core/oauth-budget.ts:201-211 | the confidence is good from five episodes on, low from three, and with fewer nothing is learned |
| `OauthBudget.LearnedExactly` | packages/core/oauth-budget.ts:213-228 | from three episodes on each metric is learned from its own field: the quantile of its positive values, when at least three report one |
| `OauthBudget.LearningForgetsOrder` | packages/core/oauth-budget.ts:213-218 | one metric does not depend on the order of the chosen episodes |
| `OauthBudget.LearnedCapacityForgetsOrder` | packages/core/oauth-budget.ts:187-229 | the learned capacity does not depend on the order of the episodes, unless the sample limit falls between two different ones of the same time |
| `OauthBudget.RecentForgetsOrderExactly` | packages/core/oauth-budget.ts:196-199 | the episodes used are the same in every order exactly when no two different ones of the same time lie on either side of the limit |
| `OauthBudget.LearnedCapacityIsValid` | packages/core/oauth-budget.ts:187-229 | every learned capacity is positive, so no ratio divides by zero |
| `OauthBudget.ModelWeight` | packages/core/oauth-budget.ts:81-99 | an unknown model is neither free nor dearer than the dearest |
| `OauthBudget.WeightExactly` | packages/core/oauth-budget.ts:91-99 | the weights in hundredths, by name: 500, 27 or 100 |
| `OauthBudget.SummarizeWindowUsage` | packages/core/oauth-budget.ts:122-139 | the totals are the sums over the rows, weighted ones floored once |
| `OauthBudget.UsageExactly` | packages/core/oauth-budget.ts:122-139 | in whole numbers: the weighted totals are sums of hundredths, cut off once |
| `OauthBudget.OauthBudgetPressure` | packages/core/oauth-budget.ts:235-273 | the pressure is the highest ratio held in [0, 1], zero when nothing was learned, and the limiter is the metric of the highest ratio, clamped or not |
| `OauthBudget.HighestIsFirst` | packages/core/oauth-budget.ts:266-273 | of equal ratios the one listed first binds |
| `OauthBudget.RatiosExactly` | packages/core/oauth-budget.ts:254-265 | which ratios take part: workers, weighted turns and tokens where learned, raw ones where only those were |
| `OauthBudget.PressureMonotone` | packages/core/oauth-budget.ts:235-273 | more usage never lowers the pressure |
| `OauthBudget.MoreRowsMoreUsage` | packages/core/oauth-budget.ts:122-139 | further rows never lower a total |
| `OauthBudget.MoreWorkNeverRaisesTier` | packages/core/model-router.ts:112-157 | from rows to tier: further work in the window never routes a task to a higher tier |
| `ModelRouter.ResolveEffectiveModel` | packages/core/model-router.ts:86-165 | an override wins; otherwise the tier is the baseline lowered by pressure and held at the floor, the reason is justified, and downshifted says whether it is below the baseline |
| `ModelRouter.OneReason` | packages/core/model-router.ts:47-54 | one reason at most |
| `ModelRouter.BaselineExactly` | packages/core/model-router.ts:65-110 | the baseline of every kind and complexity, engineering and normal when not given |
| `ModelRouter.HarderIsNotLower` | packages/core/model-router.ts:65-73 | of two complexities the harder never gets a lower tier |
| `ModelRouter.RoutedExactly` | packages/core/model-router.ts:112-157 | the tier of a task that does not wait is the baseline, one lower exactly under the pressure that its kind gives way to, held at haiku and at the floor |
| `ModelRouter.PressureLowersTier` | packages/core/model-router.ts:112-141 | monotone in budget pressure |
| `ModelRouter.SpikeLowersTier` | packages/core/model-router.ts:143-149 | monotone in recent claims |
| `ModelRouter.FloorHolds` | packages/core/model-router.ts:151-157 | the floor |
| `ModelRouter.PausesExactly` | packages/core/model-router.ts:116-127 | when a task waits |
| `WorkerPool.GetTestConcurrency` | scripts/run-unit-tests.ts:32-37 | a whole number from 1 to 16; within that range the floor of the setting, four when it is not a number, the nearer end when it is infinite |
| `WorkerPool.PoolIsEmptyExactly` | scripts/run-unit-tests.ts:52-54 | the pool has as many workers as were asked for, in whole numbers, and no more than there are items; none exactly when less than one is asked for or there is nothing to do |
| `WorkerPool.SharedIndex.constructor` | scripts/run-unit-tests.ts:44 | the index starts at zero |
| `WorkerPool.SharedIndex.Take` | scripts/run-unit-tests.ts:46-50 | takes the next item and moves on, or leaves the index when the list is used up |
| `WorkerPool.RunInv` | scripts/run-unit-tests.ts:44-54 | the invariant of every interleaving: workers and items in flight are paired, and each item handed out once |
| `WorkerPool.StartsAreInOrder` | scripts/run-unit-tests.ts:44-54 | items are handed out in index order, each once, and no more are in flight than the pool has workers |
| `WorkerPool.CompletesExactly` | scripts/run-unit-tests.ts:39-55 | when all workers have stopped and none rejected, every item has finished exactly when at least one worker was asked for or there was nothing to do |
| `WorkerPool.BelowOneRunsNothing` | scripts/run-unit-tests.ts:52-54 | with less than one worker asked for and something to do, the pool is settled at once, without a rejection, and nothing has run |
| `WorkerPool.LeftOverOnlyIfAllReject` | scripts/run-unit-tests.ts:46-54 | items are left over only when every worker rejected |
| `WorkerPool.EveryRunEnds` | scripts/run-unit-tests.ts:46-54 | a run has at most three steps an item and one a worker, and until the workers stop one of them can go on |

## Left out

- HTTP, files, timers, the database, child processes and push messages: their results are parameters or steps.
- The regular expressions for PII are abstract: `Masking` takes the scan as a function of the text.
- PiiPass.PassExactly: is about passes that leave no NUL outside the placeholders; for text with NULs of its own `Masking.RoundTripExactly` covers only scans without a match.
- SecretRedaction.LoopHidesExactly: is about values without brackets; for a list of several values with brackets no exact condition is given.
- The in-place walk that applies text redaction to a body, the activation counter and the hit counters.
- SecretRedaction.BuildList: lengths and label clean-up go by character; a character outside the basic plane is one here and two in the original.
- MissionProgress.ComputeMissionProgress: per-task segments are not modelled, because they depend on the order of rows at ties; the percentage is rounded exactly rather than in floating point.
- The initiative rollup, goal criteria and milestones of packages/core/mission-helpers.ts, which fold values without interaction.
- The search for a blocking pull request in packages/core/path-overlap.ts, a single scan.
- Outbox.Outbox.Flush: the method is one uninterrupted flush; OutboxFlush has requests of every kind and clears in between, and OutboxOverlap has other flushes.
- MissionProgress.CancelledAttemptDropsExactly: for an attempt with a pull request the ids of the rows are taken to be distinct, as they are in the database; CancelledAttemptChange has no such condition.
- Outbox.DeliveryMatchesLog: a request that fails after reaching the server would be delivered twice; this is not modelled.
- Which body an endpoint ends with when flushes overlap: `OutboxOverlap` follows entries, not bodies, and leaves open whether a failed entry is kept or given up.
- The bootstrap action and the leases of the refresh endpoint, and the classification of provider errors, which only decides whether a revocation is posted.
- ProvisionGate.RunFresh: step labels, durations, the text of messages and manifest parsing are not modelled; a manifest field that is missing and one that is empty are one case.
- The concrete FNV hash of a manifest and its JSON text.
- Invalid dates, NaN, and floating-point rounding.
- Discovery, spawning and reporting of test files in scripts/run-unit-tests.ts.
- The routing analytics, whose baseline table differs from the router's.
