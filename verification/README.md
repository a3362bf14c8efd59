# A model of the swarm API layer, and what is proved of it

The repository is a control room for AI agents. Its API layer keeps several protocols and bounded stores that have to hold together under interleavings, restarts of a connection, full disks and hostile names. This project models those parts in Dafny and proves what they promise, for every input and every run.

Code that changes state is modelled as classes and methods proved against specification functions; what the source promises is then proved of those functions. Code that several tasks run at once is modelled as a state and a step function whose sequences are the interleavings. Every theorem about a run quantifies over all sequences of steps.

The modules:

- `FederationEvents`: the doorbell between a Keeper and its member Hives. `CoordinationDeadline` and `BackgroundServices`: a deadline many tasks await, and the loops that own periodic passes, composed with it.
- `DiskTree`, `PruneTarget`, `Eviction`, `RunLog`: pruning a cargo target directory, over inodes and hard links. `Sorting` is a stable sort.
- `DiagnosticLog`, `MemberDiagnostics`, `LogShipping`: a Hive's log, its Keeper's copy of it, and the batches between them, late, repeated or unanswered.
- `AttachGrants`, `AgentToolCosts`, `AnsweredQuestions`: bounded stores that must agree with something unbounded and simple.
- `ApiaryUsage`: saturating totals that survive regrouping. `Ranking` lists a map by name and ranks its rows.
- `Utf8`, `EmailReply`: cuts on character boundaries under a byte budget.
- `Text`, `MediaTypes`, `PrivateStore`, `Attachments`, `EmailAttachments`, `EmailRefusal`: files kept under names made of their own content, by a writer and a reader that must agree.
- `AttentionEvidence`: what may be said of a worker's terminal after a read the world could change under.
- `CiChecks`: the tips of recorded work, and what CI says of them. `OperatorToken`: rewriting a configuration.

Where the code does not do what its own documentation says, or what one would expect of it, the model follows the code. A lemma shows the case, and another says exactly when it arises:

- Nothing rings a member again after a reconcile that failed, and one may be left behind (`FederationEvents.FailedReconcileLeavesAGap`). Whatever a reconcile applies, it leaves the member current exactly when it succeeded or nothing was owed (`FederationEvents.ReconcileOutcomeDecides`).
- Spending a deadline notifies nobody, so a second sleeper sleeps on over an empty cell (`CoordinationDeadline.SpendingNotifiesNobody`). In every run every sleeper knows the deadline in force exactly when there is at most one waiter (`CoordinationDeadline.SleepersKnowExactlyWhenAlone`). A due deadline is still never slept through.
- A unit's outputs can go while its fingerprint stays, because removing a directory skips in silence what cannot be deleted (`Eviction.FingerprintOutlivesItsOutput`; exactly when: `Eviction.InterruptedEvictionIsSafe`). The comment above `evict` says no record survives an output.
- Bytes reported as freed include what a directory removal skipped (`Eviction.StuckFilesOverstateFreed`; the figure is honest exactly when: `Eviction.FreedIsHonestExactlyWhen`).
- A Keeper keeps each line of a Hive once, but adds up the losses batches report without looking for lines it holds: a kept line can be counted as lost (`LogShipping.KeptLineCountedAsLost`) and a lost one twice (`LogShipping.LossCountedTwice`). Its count is exact exactly when `LogShipping.LossesAreExactExactlyWhen` says.
- A Keeper's own usage rows are not clamped at zero as its members' are. With a negative figure their total can be off, and on which days the same figures fall decides it (`ApiaryUsage.DaysDecideTheTotal`; it is right wherever they fall exactly when: `ApiaryUsage.TotalIsRightExactlyWhen`).
- A write cut short whose remains cannot be removed leaves a part of a file under the whole file's name; the next save of that file is accepted, and the part is what is read (`Attachments.TornWriteIsServed`; a save keeps the store sound exactly when: `Attachments.SaveKeepsSound`).
- The email store accepts a save whose data it finds without its type, and the name it answers cannot be read (`EmailAttachments.AcceptedYetNotFound`; what is accepted reads back exactly when: `EmailAttachments.SavedReadsBack`).
- It can also evict data and keep its type file, and then refuses to take the same bytes again: thirteen saves into an empty store and a disk that grows lead there (`EmailRefusal.WhatItHeldIsRefused`; exactly when: `EmailAttachments.LeftoverTypeRefuses`).
- Rotating the operator token takes carriage returns off other settings' lines, which its documentation calls untouched (`OperatorToken.OtherSettingsLoseTheirReturns`; exactly when: `OperatorToken.RewriteKeepsEverythingElse`).

Assumptions the theorems rest on, each visible in a contract: one clock that does not run backwards for the deadline and for grants; a reconcile that succeeds applies everything stored when it began, and serialising a notice succeeds; the prefix of a digest used in a name tells apart the contents in play; git's ancestry is a partial order; the store returns recovery identities without a terminal revision; notes on a task are already trimmed; directory walks and listings give every entry once.

## Model

| member | source | states |
|---|---|---|
| FederationEvents.FederationEventBus.Announce | crates/swarm-api/src/federation_events.rs:53-57 | a ring reaches the bus of those listening, and is dropped when nobody is |
| FederationEvents.FederationEventBus.Subscribe | crates/swarm-api/src/federation_events.rs:59-61 | a subscriber hears what is rung after it subscribed, and nobody else's place moves |
| FederationEvents.FederationEventBus.Recv | crates/swarm-api/src/federation_events.rs:44-57 | one reader's next ring, or how many it missed once the buffer of 64 ran past it; other readers keep their place |
| FederationEvents.Receive | crates/swarm-api/src/federation_events.rs:36 | a reader lags exactly when more than 64 rings are unread, is told exactly how many are gone, and resumes at the oldest held |
| FederationEvents.Heard | crates/swarm-api/src/federation_events.rs:129-151 | a handler rings its member for a ring of its own Apiary, as it came, and for any lag without a kind, and for nothing else |
| FederationEvents.ServeNotices | crates/swarm-api/src/federation_events.rs:111-153 | frames sent over any run of a handler: until the socket closes, the bus closes or a send fails |
| FederationEvents.ForwardedIsForThisApiary | crates/swarm-api/src/federation_events.rs:129-151 | every frame is for the handler's own Apiary, with exactly one for each ring of its own and one for each lag |
| FederationEvents.ScheduleKeepsInv | crates/swarm-api/src/federation_events.rs:103-153 | over any interleaving, a member owes nothing that no ring, frame or reconcile is on its way to bring |
| FederationEvents.QuietMemberIsCurrent | crates/swarm-api/src/federation_events.rs:248-277 | losing a ring costs latency and not correctness: in every interleaving, a quiet member whose last reconcile succeeded has applied every change announced for its Apiary |
| FederationEvents.NoForeignFrame | crates/swarm-api/src/federation_events.rs:143-145 | in every interleaving no frame on a socket names another Apiary |
| FederationEvents.FailedReconcileLeavesAGap | crates/swarm-api/src/federation_events.rs:258-268 | a run in which the only reconcile fails leaves a quiet member behind |
| FederationEvents.ReconcileOutcomeDecides | crates/swarm-api/src/federation_events.rs:248-277 | in every reachable state with a reconcile running and nothing else on its way, the member ends current whatever the reconcile applied exactly when it succeeded or nothing was owed |
| FederationEvents.OwnStepMakesProgress | crates/swarm-api/src/federation_events.rs:260-269 | the next own step of a member that is not quiet can happen and brings it strictly nearer, losing nothing |
| FederationEvents.AttachedMemberCatchesUp | crates/swarm-api/src/federation_events.rs:248-277 | in any reachable state, an attached member whose last reconcile did not fail, or that has a ring coming, is brought up to date by a bounded number of its own steps, each able to happen |
| FederationEvents.RedialCatchesUp | crates/swarm-api/src/federation_events.rs:230-277 | from any reachable state a member that drops its connection and dials again is brought up to date by those steps alone |
| FederationEvents.PassesGoInOrder | crates/swarm-api/src/federation_events.rs:230-277 | whatever happens, a member goes through its pass in order, keeps its Apiary and keeps what it has applied |
| FederationEvents.RunsKeep | crates/swarm-api/src/federation_events.rs:103-153 | over any run, what a member applied stays applied, and a handler that has ended reads nothing, sends nothing and never serves again |
| FederationEvents.HandlersEndForGood | crates/swarm-api/src/federation_events.rs:119-153 | a handler stops serving when it ends or cannot send a frame, and at nothing else |
| FederationEvents.AnnouncedToWhoeverListens | crates/swarm-api/src/federation_events.rs:53-57 | an announced change rings every place on the bus when some handler serves, and none otherwise |
| FederationEvents.PacedPassCatchesUp | crates/swarm-api/src/federation_events.rs:6-13 | the paced pass alone, without a connection, makes a member current when it fetches what is stored |
| FederationEvents.MemberEventBackoff.PollMemberEvents | crates/swarm-api/src/federation_events.rs:211-228 | what a pass sleeps, and the wait it leaves for the next |
| FederationEvents.PollEveryPass | crates/swarm-api/src/federation_events.rs:185-202 | passes that each hold a clone share one wait |
| FederationEvents.BackoffDoublesToTheCeiling | crates/swarm-api/src/federation_events.rs:161-162 | after any passes the wait is two seconds doubled once for each drop since one ended well, up to two minutes, and it is slept out exactly after a drop |
| CoordinationDeadline.CoordinationDeadline.Set | crates/swarm-api/src/coordination_deadline.rs:28-35 | the value is stored, and waiters are to be notified exactly when it changed |
| CoordinationDeadline.CoordinationDeadline.Spend | crates/swarm-api/src/coordination_deadline.rs:57-63 | only the task that slept for the deadline still in force clears it, once |
| CoordinationDeadline.ScheduleKeepsInv | crates/swarm-api/src/coordination_deadline.rs:46-67 | over any interleaving of setters and waiters, a sleeper with no wakeup coming knows the deadline, or a setter is between store and notify, or another waiter spent it |
| CoordinationDeadline.OnlyTheDeadlineInForceIsSpent | crates/swarm-api/src/coordination_deadline.rs:46-67 | in every reachable state and step, the deadline changes only by a value stored or by a waiter that slept until exactly it, when past; a call ends only by that or by being dropped, and a waiter whose deadline was replaced leaves the new one alone and looks again |
| CoordinationDeadline.OvertakenSleeperLooksAgain | crates/swarm-api/src/coordination_deadline.rs:42-67 | from the start, for any two deadlines, a sleeper on the earlier that was replaced looks again and returns at the later |
| CoordinationDeadline.NoWakeupIsLost | crates/swarm-api/src/coordination_deadline.rs:46-54 | in every interleaving, with no setter in between, a sleeper nobody has notified knows the deadline in force, or there is none and another waiter exists |
| CoordinationDeadline.SleepersKnowExactlyWhenAlone | crates/swarm-api/src/coordination_deadline.rs:46-67 | over all runs every unnotified sleeper knows the deadline in force, exactly when there is at most one waiter |
| CoordinationDeadline.ReturnsOnlyWhenDue | crates/swarm-api/src/coordination_deadline.rs:55-63 | a wait returns only for a deadline in force and past, and leaves none behind |
| CoordinationDeadline.ReturnsNeverOutnumberStores | crates/swarm-api/src/coordination_deadline.rs:28-35 | over any run with any number of waiters, returns never outnumber the values stored |
| CoordinationDeadline.CallFallsAsleep | crates/swarm-api/src/coordination_deadline.rs:47-55 | a wait that begins with a deadline in force sleeps until it and no longer |
| CoordinationDeadline.SpendingNotifiesNobody | crates/swarm-api/src/coordination_deadline.rs:57-63 | for any two waiters, a run of seven steps from the start in which one spends the deadline and the other is left asleep, unnotified, over an empty cell |
| CoordinationDeadline.DueDeadlineIsNeverSleptThrough | crates/swarm-api/src/coordination_deadline.rs:46-67 | a due deadline is spent by any waiter left to itself, in at most four steps |
| BackgroundServices.ScheduleKeepsInv | crates/swarm-api/src/background_services.rs:88-123 | what every schedule of services, notifications, ticks, deadlines, stop and shutdown keeps |
| BackgroundServices.PassesAreOwned | crates/swarm-api/src/background_services.rs:94-148 | a service's passes never overlap, at most one starts after stop is written, one is cut short only by an expired shutdown budget, and no loop ends before it is stopped |
| BackgroundServices.EveryCauseIsServed | crates/swarm-api/src/background_services.rs:98-121 | every wakeup, tick or deadline taken has started a pass of its own, is about to, or was given up to stop; no more wakeups or ticks are taken than the run made |
| BackgroundServices.ReadyCauseBecomesAPass | crates/swarm-api/src/background_services.rs:87-123 | from any reachable state without stop, whatever the service is doing: a held request, a ready tick or a due deadline becomes a pass of its own in at most ten steps of the service's own, each able to happen |
| BackgroundServices.AskedIsServed | crates/swarm-api/src/background_services.rs:98-121 | a request made of a service at any moment, or a tick, becomes a pass of its own |
| BackgroundServices.NewDeadlineIsServed | crates/swarm-api/src/background_services.rs:108-121 | a deadline set, announced and come due becomes a pass of any service that awaits it |
| BackgroundServices.ServicesKeepToThemselves | crates/swarm-api/src/background_services.rs:97-117 | in every schedule a service is registered for the deadline only while it waits, its own steps touch no other service, and it spends only a deadline in force and past, for the pass it starts |
| BackgroundServices.StoppedServiceEnds | crates/swarm-api/src/background_services.rs:95-121 | from any reachable state after stop, a run of at most three of a service's own moves ends it, starting a pass only if it had read the flag as clear |
| BackgroundServices.StopEndsAService | crates/swarm-api/src/background_services.rs:94-121 | writing stop lets every service that is running end by at most three moves |
| BackgroundServices.ShutdownEndsEverything | crates/swarm-api/src/background_services.rs:128-148 | once shutdown's budget is spent nothing runs or waits, and exactly the services in a pass were cut short in one |
| BackgroundServices.AsksOnlySetThePermit | crates/swarm-api/src/background_services.rs:101-107 | any number of notifications in a row leave one permit and change nothing else |
| BackgroundServices.RequestsDuringAPassCauseOneMore | crates/swarm-api/src/background_services.rs:98-121 | any number of requests during one pass, at any points of it and among any steps of other services, the clock and the deadline's setters, cause exactly one more pass |
| DiskTree.DiskUsage | scripts/prune-target.py:83-98 | the bytes of the paths walked, each inode once |
| DiskTree.FreedOfDisjoint | scripts/prune-target.py:112-121 | what disjoint sets of paths are sure to free adds up |
| DiskTree.RemovalFreesAtLeast | scripts/prune-target.py:119-121 | removing paths leaves at most the usage before less what they were sure to free, hard links and all |
| DiskTree.RemovalAddsUp | scripts/prune-target.py:112-121 | usage before is usage after, the bytes counted as freed, and the inodes that lost every name without being counted |
| DiskTree.UncountedAreShared | scripts/prune-target.py:112-121 | what goes without being counted is files with more than one link and nothing else |
| DiskTree.SingleLinksAddUp | scripts/prune-target.py:112-121 | where every file that goes has one link, usage falls by exactly the bytes counted |
| PruneTarget.HashFrom | scripts/prune-target.py:62 | the hash found is the leftmost that matches, and none is found exactly when none matches |
| PruneTarget.HashIsTheLeftmost | scripts/prune-target.py:62 | a name has a hash exactly when it carries a hyphen, sixteen of 0-9 and a-f, and then nothing or a dot; the leftmost is the one |
| PruneTarget.Describe | scripts/prune-target.py:101-122 | a unit's last use is the newest stamp below its paths, with directories' access times left out; its bytes are those of the directories and of the files with no second link below them |
| PruneTarget.Profiles | scripts/prune-target.py:147-162 | exactly the profile directories, none inside another |
| PruneTarget.GroupByHash | scripts/prune-target.py:125-136 | every listed path is in the unit of its hash and in no other |
| PruneTarget.ListedByName | scripts/prune-target.py:125-136 | the paths of a hash are those of every name that carries it in the fingerprint, deps, build and examples directories |
| PruneTarget.ProfileUnits | scripts/prune-target.py:125-144 | units are whole and apart: nothing extra, nothing split, fingerprints listed first, recency and bytes right |
| Eviction.UnitsAddUp | scripts/prune-target.py:112-121 | units' bytes add up to what everything below all of them frees |
| Eviction.FreedIsNeverOverstated | scripts/prune-target.py:266-275 | after evicting any units, real usage is at most the total less the bytes counted as freed, but for what could not be deleted |
| Eviction.FreedIsHonestExactlyWhen | scripts/prune-target.py:266-275 | the freed figure of any units evicted is honest exactly when what was left behind is no more than the shared inodes that went; so whenever nothing at or below an evicted path is stuck |
| Eviction.FreedIsExact | scripts/prune-target.py:112-121 | with nothing stuck and no second links below the units, usage after and bytes freed add up to usage before |
| Eviction.StuckFilesOverstateFreed | scripts/prune-target.py:190-197 | a directory that cannot be removed is counted as freed |
| Eviction.OrderIsAPermutation | scripts/prune-target.py:204-205 | a unit's paths all go, fingerprints before the rest |
| Eviction.FingerprintsLieInside | scripts/prune-target.py:204 | a fingerprint is what lies anywhere inside a directory of that name, and not that directory |
| Eviction.FingerprintsThenOutputs | scripts/prune-target.py:204-205 | the fingerprints go first and the rest after them, both in the order they were listed |
| Eviction.InterruptedEvictionIsSafe | scripts/prune-target.py:200-205 | there is a point of an eviction at which something of an output is gone while something of a fingerprint remains, exactly when something at or below a fingerprint path is stuck and an output with anything to delete is reached |
| Eviction.EvictionEndsThere | scripts/prune-target.py:190-205 | once every deletion is done, the tree is what the eviction leaves |
| Eviction.FingerprintsAreDeletedFirst | scripts/prune-target.py:200-205 | whatever is deleted at or below a fingerprint path is deleted before anything of an output |
| Eviction.FingerprintOutlivesItsOutput | scripts/prune-target.py:190-205 | a unit of one fingerprint and one output, of which the output goes and the fingerprint's file stays |
| Eviction.UnitGoesWholeUnlessStuck | scripts/prune-target.py:190-205 | a unit goes whole exactly when nothing at or below its paths is stuck |
| Eviction.Target.LockProfile | scripts/prune-target.py:165-181 | cargo's three locks in a profile are taken, exactly when no build holds one, or none |
| Eviction.Target.Unlock | scripts/prune-target.py:184-187 | exactly these locks are let go |
| Eviction.Target.Remove | scripts/prune-target.py:190-197 | a file goes or raises; a directory goes as far as it can in silence |
| Eviction.Target.Evict | scripts/prune-target.py:200-205 | everything below the unit's paths goes, but for what is stuck, up to the first path in order that raises; it raises exactly when one of them is a file that is there and cannot go |
| Eviction.Target.EvictDown | scripts/prune-target.py:267-275 | the shortest prefix that reaches the goal is evicted, or every unit before the first that holds a file which cannot go, and that one as far as the file; a dry run changes nothing |
| Eviction.Target.Candidates | scripts/prune-target.py:256-265 | exactly the units unused for 48 hours of the profiles no build holds, with those profiles' locks held and the others counted |
| Eviction.Target.Prune | scripts/prune-target.py:239-290 | evicts the shortest least recently used run of unused units that reaches the goal, or all; reports honestly; is refused exactly when the goal asks for a unit with a file that cannot go, with everything before that file evicted; lets every lock go whatever happens |
| Eviction.OldUnitIsUnused | scripts/prune-target.py:112-119 | a unit is old enough exactly when nothing below it was modified, and no file accessed, within 48 hours |
| RunLog.Log.Record | scripts/prune-target.py:212-227 | the log after one run, whichever step failed |
| RunLog.KeepsTheNewest | scripts/prune-target.py:220-224 | after any runs the log is the newest lines in order, at least a thousand if any were cut, at most two thousand after a run without trouble |
| DiagnosticLog.DiagnosticLog.Record | crates/swarm-api/src/diagnostic_log.rs:77-94 | the ring after a line, the oldest out first |
| DiagnosticLog.DiagnosticLog.PendingBatch | crates/swarm-api/src/diagnostic_log.rs:98-114 | the batch after what was shipped, found by walking the ring |
| DiagnosticLog.DiagnosticLog.MarkShipped | crates/swarm-api/src/diagnostic_log.rs:117-121 | the mark never goes back |
| DiagnosticLog.DiagnosticLog.Recent | crates/swarm-api/src/diagnostic_log.rs:124-130 | the newest lines, as many as asked for, oldest first |
| DiagnosticLog.RecordHolds | crates/swarm-api/src/diagnostic_log.rs:77-94 | the ring holds exactly the newest thousand lines under consecutive numbers, each cut to its bounds |
| DiagnosticLog.KeptIsTheLine | crates/swarm-api/src/diagnostic_log.rs:77-94 | a line is kept with its time and level, and as much of its target as fits 128 bytes and of its message as fits 1024, in whole characters |
| DiagnosticLog.BatchCoversTheGap | crates/swarm-api/src/diagnostic_log.rs:98-114 | a batch covers exactly the gap after the mark as lines carried and lines lost, up to 200, and passes both sides' check |
| DiagnosticLog.CarriedBatchIsValid | crates/swarm-domain/src/hive_diagnostics.rs:56-77 | any batch of consecutive kept lines is within every bound |
| DiagnosticLog.ValidatesExactlyWhen | crates/swarm-domain/src/hive_diagnostics.rs:56-77 | a batch passes exactly when its run is named within 64 bytes, it has at most 200 lines, each within its bounds, and they rise |
| MemberDiagnostics.NotHeld | crates/swarm-api/src/member_diagnostics.rs:67-72 | the entries of a batch above the mark held for its run |
| MemberDiagnostics.PushEach | crates/swarm-api/src/member_diagnostics.rs:73-78 | the Keeper's lines of a Hive after more of them, the oldest out first |
| MemberDiagnostics.MemberDiagnostics.Accept | crates/swarm-api/src/member_diagnostics.rs:48-84 | the Keeper's logs after a batch, at most 256 Hives, and what it has for the journal |
| MemberDiagnostics.PushedAreNewest | crates/swarm-api/src/member_diagnostics.rs:73-78 | however they came, the lines held are the newest thousand |
| LogShipping.ScheduleKeepsInv | crates/swarm-api/src/lib.rs:1376-1406 | what every interleaving of recording, sending, arriving and hearing back keeps, on both sides |
| LogShipping.EveryLineIsKeptOrSaidLost | crates/swarm-api/src/member_diagnostics.rs:48-84 | over any run, with batches late, repeated or unanswered: the Keeper's lines rise strictly, each exactly as recorded and kept once, and every line up to its mark is kept or lies in the gap of a batch that arrived |
| LogShipping.LossesAreExactExactlyWhen | crates/swarm-api/src/member_diagnostics.rs:65-72 | over any run the Keeper's count of lost lines is never too low, and exact exactly when every batch that arrived with a gap was drawn from the Keeper's own mark |
| LogShipping.KeptLineCountedAsLost | crates/swarm-api/src/member_diagnostics.rs:65-72 | two passes from the same mark: a line one carries is counted as lost by the other |
| LogShipping.LossCountedTwice | crates/swarm-api/src/lib.rs:1376-1406 | an answer that never comes makes one lost line count as two |
| LogShipping.OneAtATimeConservesLines | crates/swarm-api/src/diagnostic_log.rs:77-121 | with one batch on its way at a time, accepted batches follow each other without gap or overlap up to the mark, and lines kept and lost add up to it |
| LogShipping.OverlappingPassesKeepALineOnce | crates/swarm-api/src/lib.rs:1351-1406 | two overlapping passes that both carry a line leave it kept once and nothing lost |
| AttachGrants.AttachGrantStore.IssueAt | crates/swarm-api/src/attach.rs:89-114 | what an issue answers and leaves, with at most four draws of a token; with room and a free first draw, that draw is issued and held |
| AttachGrants.AttachGrantStore.ConsumeAt | crates/swarm-api/src/attach.rs:116-128 | a token is spent by any attempt, and accepted for its own session and protocol before it expires |
| AttachGrants.FreeToken | crates/swarm-api/src/attach.rs:101-113 | the token is a draw that was free, every draw before it made and taken; there is none exactly when there is no such draw |
| AttachGrants.IssuesTheFirstFreeDraw | crates/swarm-api/src/attach.rs:89-114 | refused for capacity exactly when full; otherwise the token is the first free draw, and there is none exactly when none is free before the first failed one |
| AttachGrants.HonouredByHistory | crates/swarm-api/src/attach.rs:89-128 | whatever the order of the times, a token is accepted exactly when its latest issue matches, has not expired, been tried since or been swept; never more grants than allowed |
| AttachGrants.HonouredExactlyOnce | crates/swarm-api/src/attach.rs:116-128 | with a monotone clock, exactly when its latest issue named this session and protocol, is unexpired, and nobody tried it since |
| AttachGrants.CapacityCountsOutstanding | crates/swarm-api/src/attach.rs:95-100 | an issue is refused for capacity exactly when that many unexpired, untried grants are outstanding, and never are there more |
| AttachGrants.TriedIsSpent | crates/swarm-api/src/attach.rs:124-126 | after any attempt a token stays refused until it is issued again |
| ApiaryUsage.WeightIsNonNegative | crates/swarm-api/src/provider_usage.rs:129-141 | a row that is not negative has a weight that is not |
| ApiaryUsage.WeightIsTheCost | crates/swarm-api/src/provider_usage.rs:107-143 | a row's weight is its cost by kind of token and model, cut toward zero, and the largest number when 64 bits cannot hold it |
| ApiaryUsage.ModelsWeigh | crates/swarm-api/src/provider_usage.rs:114-127 | a model costs by whether its name has Sonnet, or else Haiku, in it, in either case |
| ApiaryUsage.BiggestSpenderIsFirst | crates/swarm-api/src/apiary_usage.rs:337-352 | a ranking goes by spend, then by busy time, then by name |
| ApiaryUsage.ReportedIsNonNegative | crates/swarm-api/src/apiary_usage.rs:165-177 | what a member reports is its rows with nothing below zero |
| ApiaryUsage.Summarise | crates/swarm-api/src/apiary_usage.rs:300-335 | a Hive's totals and its two rankings are the saturated sums of exactly the rows in the window, by bucket |
| ApiaryUsage.AddUp | crates/swarm-api/src/apiary_usage.rs:411-421 | the Apiary's totals and ranking, added up from the Hives' |
| ApiaryUsage.SaturatedSumIsCapped | crates/swarm-api/src/apiary_usage.rs:239-270 | for figures that are not negative a saturated sum is the exact sum, capped |
| ApiaryUsage.OrderDoesNotMatter | crates/swarm-api/src/apiary_usage.rs:300-335 | totals and every bucket are the same however the rows are ordered |
| ApiaryUsage.RegroupingAgrees | crates/swarm-api/src/apiary_usage.rs:411-421 | totals and model buckets built from already capped Hive figures equal those of all the rows together |
| ApiaryUsage.BreakdownAddsUp | crates/swarm-api/src/apiary_usage.rs:300-335 | capped buckets add up to the capped totals, by workspace whole and by model but for busy time |
| ApiaryUsage.BreakdownAddsUpExactly | crates/swarm-api/src/apiary_usage.rs:300-335 | below 64 bits the same holds of plain addition |
| ApiaryUsage.TotalIsRightExactlyWhen | crates/swarm-api/src/apiary_usage.rs:366-396 | for the rows of a Keeper, in the one order of their distinct keys: whichever of them the same figures of a transcript fall on, the total is their capped exact sum, exactly when the signs agree or neither bound can be reached |
| ApiaryUsage.AssignedIsStored | crates/swarm-persistence/src/provider_usage.rs:200-232 | rows given other figures are still one a key and in the order of their keys |
| ApiaryUsage.DaysDecideTheTotal | crates/swarm-persistence/src/provider_usage.rs:69-79 | three days of one workspace and model whose total is off by one, and the same three figures on the days in another order, whose total is right |
| ApiaryUsage.RecordBusyTime | crates/swarm-api/src/apiary_usage.rs:47-87 | each busy worker credits its workspace once with the time since the last look, at most 90 seconds, never for a clock that went back |
| Ranking.Listed | crates/swarm-api/src/apiary_usage.rs:338-342 | a map's names, each once, in order |
| Ranking.Ranked | crates/swarm-api/src/apiary_usage.rs:338-351 | every entry once, ranked, level ones by name |
| Ranking.RankingIsUnique | crates/swarm-api/src/apiary_usage.rs:343-350 | a map has only one ranking |
| AgentToolCosts.AgentToolCosts.Record | crates/swarm-api/src/agent_tool_costs.rs:75-92 | the rows after a call |
| AgentToolCosts.AgentToolCosts.Reading | crates/swarm-api/src/agent_tool_costs.rs:94-115 | every row once, costliest first, level ones by name |
| AgentToolCosts.ReadingIsCostliestFirst | crates/swarm-api/src/agent_tool_costs.rs:104-110 | a reading begins with the longest total time, and level rows go by name |
| AgentToolCosts.AgreesWithUnbounded | crates/swarm-api/src/agent_tool_costs.rs:75-92 | after any calls, each named row is the tally of every call its name ever had, the overflow row of all the others, and a short name goes without only once the rows are full |
| AgentToolCosts.ExtraRowIsOverflow | crates/swarm-api/src/agent_tool_costs.rs:79-85 | there is at most one row past the capacity, the overflow row |
| AgentToolCosts.AdmittedKeepsEveryCall | crates/swarm-api/src/agent_tool_costs.rs:79-84 | a name once admitted keeps every later call |
| AgentToolCosts.TallyIsExactBelowTheCap | crates/swarm-api/src/agent_tool_costs.rs:86-91 | a row's calls, failures, time and bytes are exact up to 64 bits, and its largest call is one of its calls and at most its total |
| AgentToolCosts.ReadingAddsUp | crates/swarm-api/src/agent_tool_costs.rs:94-115 | the rows of a reading account for every call, once |
| AnsweredQuestions.AnsweredQuestions.Record | crates/swarm-api/src/answered_question_close.rs:61-68 | the memory after a press, the oldest out first |
| AnsweredQuestions.AnsweredQuestions.CloseMatchingMenu | crates/swarm-api/src/answered_question_close.rs:127-174 | Esc is written exactly on the decision's own question not pressed before; a press that may have landed is remembered, a refused one is not; closed exactly when a later look shows it gone |
| AnsweredQuestions.PressedOncePerMemory | crates/swarm-api/src/answered_question_close.rs:45-69 | with no decision in two passes at once, two presses for one have at least 256 for others between them; no duplicates, never more than 256 |
| AnsweredQuestions.SpacedExactlyWhenFresh | crates/swarm-api/src/answered_question_close.rs:45-69 | over every schedule, two presses for one decision have at least 256 for others between them exactly when no pass wrote for a decision remembered since it looked |
| AnsweredQuestions.TwoPassesAtOnceBreakIt | crates/swarm-api/src/answered_question_close.rs:139-159 | two passes at once for one decision break that for good if both writes may land and fewer than 256 others do between them |
| AnsweredQuestions.OneAfterAnotherIsEnough | crates/swarm-api/src/answered_question_close.rs:127-174 | passes one after another meet that condition |
| AnsweredQuestions.RefusedLeavesNoTrace | crates/swarm-api/src/answered_question_close.rs:160-162 | a refused press leaves everything as it was |
| AnsweredQuestions.PassesAtOncePressTwice | crates/swarm-api/src/answered_question_close.rs:139-153 | the memory alone does not stop two passes at once |
| Utf8.CutWithin | crates/swarm-api/src/email_reply_ai.rs:137-143 | stepping back from the limit ends at the last boundary |
| Utf8.PrefixWithinIsLongest | crates/swarm-api/src/email_reply_ai.rs:136-143 | on valid text, the longest valid prefix within the limit, at most three bytes short when it cuts |
| Utf8.BoundaryEndsAValidPrefix | crates/swarm-api/src/email_reply_ai.rs:139-141 | in valid text the boundaries are exactly where a valid prefix ends |
| EmailReply.LastHandoff | crates/swarm-api/src/email_reply_ai.rs:105-109 | the latest handoff by the worker into review, if there is one |
| EmailReply.NotesFrom | crates/swarm-api/src/email_reply_ai.rs:113-119 | the handoff's note and every later correction, in order |
| EmailReply.WriteContext | crates/swarm-api/src/email_reply_ai.rs:101-134 | the context as it is put together |
| EmailReply.ContextFits | crates/swarm-api/src/email_reply_ai.rs:124-134 | the context is within 24 KiB whatever was written |
| EmailReply.ContextKeepsTheReport | crates/swarm-api/src/email_reply_ai.rs:123-134 | the text, word for word: the heading that says "(truncated)" exactly when the original was cut, the longest original that still fits, and the whole bounded report |
| EmailReply.ReportIsTheLatestHandoff | crates/swarm-api/src/email_reply_ai.rs:105-121 | nothing before the latest handoff is in the report |
| EmailReply.NoHandoffNoReport | crates/swarm-api/src/email_reply_ai.rs:109-112 | without a handoff the report says that nothing was recorded |
| EmailReply.ReportFollowsTheHistory | crates/swarm-api/src/email_reply_ai.rs:101-121 | one more event: the worker's handoff with a note replaces the report, its correction is appended to one handed over, anything else or anybody else's changes nothing |
| EmailReply.CorrectionsKeepTheirOrder | crates/swarm-api/src/email_reply_ai.rs:113-119 | corrections come in the order they were made |
| EmailReply.CorrectionsAreNotes | crates/swarm-api/src/email_reply_ai.rs:114-119 | the corrections are exactly the worker's correction notes |
| EmailReply.OthersNotesAreLeftOut | crates/swarm-api/src/email_reply_ai.rs:102-104 | nobody else's note changes the report |
| MediaTypes.HexPrefix | crates/swarm-api/src/attachments.rs:241-251 | the first digits of the bytes in hexadecimal |
| MediaTypes.EssenceIsItsOwn | crates/swarm-api/src/email_attachments.rs:156-159 | the type without its parameters is its own |
| MediaTypes.NormalizedIgnores | crates/swarm-api/src/attachments.rs:186-191 | parameters make no difference to a declared type, nor does the case of its letters |
| MediaTypes.LoweredOthers | crates/swarm-api/src/attachments.rs:186-191 | lowering changes capital letters and nothing else |
| Text.TrimIsASlice | crates/swarm-api/src/attachments.rs:186-191 | trimming takes white space off both ends, all of it, and nothing else |
| Text.BlankIsWhiteSpace | crates/swarm-api/src/attachments.rs:186-191 | what trimming takes off, code point by code point |
| MediaTypes.KindOfItsName | crates/swarm-api/src/attachments.rs:183-239 | every known type is told from every other by its name |
| MediaTypes.SignaturesByteByByte | crates/swarm-api/src/attachments.rs:190-229 | which bytes a type with a signature has to begin with or hold, byte by byte, and that the rest need none |
| MediaTypes.NoContentIsTwo | crates/swarm-api/src/attachments.rs:190-229 | no content passes for two of the types told by how they begin |
| PrivateStore.StoreAllowance | crates/swarm-api/src/private_store.rs:27-37 | the exact share of the free space, no less than 128 MiB and no more than 8 GiB, wherever a product saturates; 128 MiB when the disk cannot be asked |
| PrivateStore.Directory.Usage | crates/swarm-api/src/private_store.rs:92-103 | how many files there are, and their bytes |
| PrivateStore.Directory.MakeRoomFor | crates/swarm-api/src/private_store.rs:66-89 | exactly the oldest that have to give way go; it fits exactly when the file fits the whole allowance |
| PrivateStore.SparedIsTheLongestThatFits | crates/swarm-api/src/private_store.rs:77-88 | what is spared is the longest run of the newest that leaves room |
| PrivateStore.RoomExactlyWhenItFitsAlone | crates/swarm-api/src/private_store.rs:88 | room is found exactly when the file fits by itself |
| PrivateStore.RoomIsRoom | crates/swarm-api/src/private_store.rs:72-88 | with nothing stuck, the store is within its bounds before the file arrives |
| PrivateStore.OlderGiveWayFirst | crates/swarm-api/src/private_store.rs:42-57 | nothing gives way before something older that could have gone |
| PrivateStore.TotalIsEveryByte | crates/swarm-api/src/private_store.rs:92-103 | what the store counts is every byte its files hold |
| PrivateStore.Directory.WritePrivate | crates/swarm-api/src/email_attachments.rs:188-210 | a file is written only where none is, or not at all, or is cut short and taken back unless it will not go |
| Attachments.AttachmentStore.PruneExpired | crates/swarm-api/src/attachments.rs:252-275 | files past seven days go in listing order, up to one that will not |
| Attachments.PruningLeavesAWeek | crates/swarm-api/src/attachments.rs:252-275 | pruning succeeds exactly when nothing older than seven days is stuck, and leaves the rest |
| Attachments.AttachmentStore.Save | crates/swarm-api/src/attachments.rs:66-99 | the store and the answer after a save, every error branch included |
| Attachments.SavedExactlyWhen | crates/swarm-api/src/attachments.rs:66-99 | which saves are refused for their size or their bytes, which are taken, and exactly what is in the store after one that is taken |
| Attachments.AttachmentStore.Read | crates/swarm-api/src/attachments.rs:101-123 | what a name reads as |
| Attachments.NamesOfAttachments | crates/swarm-api/src/attachments.rs:125-151 | a name of hexadecimal digits and an extension is of an attachment exactly when the digits are twenty and the extension is some type's |
| Attachments.FoundUnderItsDigits | crates/swarm-api/src/attachments.rs:101-128 | what is found is a file of 1 byte to 32 MiB under twenty hexadecimal digits |
| Attachments.NameReadsBack | crates/swarm-api/src/attachments.rs:125-151 | every name a save makes parses to a type under which the same bytes pass and keep their extension |
| Attachments.PicturesAndFilms | crates/swarm-api/src/attachments.rs:183-239 | type by type: the signature asked for, the extension and the type it reads as |
| Attachments.Documents | crates/swarm-api/src/attachments.rs:183-239 | type by type: the signature asked for, the extension and the type it reads as |
| Attachments.ArchivesAndTheRest | crates/swarm-api/src/attachments.rs:183-239 | type by type: the signature asked for, the extension and the type it reads as |
| Attachments.OfficeFiles | crates/swarm-api/src/attachments.rs:154-160 | each office type keeps an extension of its own and reads back as itself |
| Attachments.UnknownIsKeptAsItIs | crates/swarm-api/src/attachments.rs:237 | any other type is kept without looking |
| Attachments.SavedReadsBack | crates/swarm-api/src/attachments.rs:66-123 | what a save accepts into a sound store reads back; after any later saves that leave no part of a file behind, its name gives those bytes or is not found, never anything else |
| Attachments.AfterOneMore | crates/swarm-api/src/attachments.rs:66-99 | a run of saves is one save after the other, each of what the one before it left |
| Attachments.SaveKeepsSound | crates/swarm-api/src/attachments.rs:66-99 | after a save every file is under a name made of its own content, exactly when the save did not leave behind a part of its file |
| Attachments.TornWriteIsServed | crates/swarm-api/src/attachments.rs:66-123 | from an empty store, a write cut short and stuck, an accepted save of the same bytes, and a read that answers the part |
| Attachments.NeverFull | crates/swarm-api/src/attachments.rs:84-95 | a file of a size that may be saved is never refused for room, and the store stays within 512 files and its allowance |
| EmailAttachments.EmailAttachmentStore.Save | crates/swarm-api/src/email_attachments.rs:46-89 | the store and the answer after a save, every error branch included |
| EmailAttachments.SavedExactlyWhen | crates/swarm-api/src/email_attachments.rs:46-89 | which saves are refused for their size or their bytes, which are taken, and exactly what is in the store after one that is taken |
| EmailAttachments.EmailAttachmentStore.Read | crates/swarm-api/src/email_attachments.rs:91-111 | what a name reads as |
| EmailAttachments.NamesOfData | crates/swarm-api/src/email_attachments.rs:162-175 | a name of hexadecimal digits and an extension can be read exactly when the digits are 32 and the extension is one to eight letters or figures |
| EmailAttachments.FoundUnderItsDigits | crates/swarm-api/src/email_attachments.rs:91-111 | what is found is a file of 1 byte to 10 MiB, with its type, under 32 hexadecimal digits and a short extension |
| EmailAttachments.OnlyTheDataHasAName | crates/swarm-api/src/email_attachments.rs:162-175 | every name a save makes can be read, and no type file's can |
| EmailAttachments.SignedAreKept | crates/swarm-api/src/email_attachments.rs:114-160 | type by type: the signature asked for and the extension |
| EmailAttachments.OfficeFilesAreKept | crates/swarm-api/src/email_attachments.rs:114-160 | the office types are asked for a zip and kept as one |
| EmailAttachments.UnsignedAreKept | crates/swarm-api/src/email_attachments.rs:114-160 | JSON has to parse and nothing is asked of the other types; the extension of each |
| EmailAttachments.UnknownIsKeptAsItIs | crates/swarm-api/src/email_attachments.rs:114-160 | any other type is kept without looking |
| EmailAttachments.FoundIsSaved | crates/swarm-api/src/email_attachments.rs:91-111 | a name answers its content under a type declared of it exactly when both its files are there |
| EmailAttachments.SavedReadsBack | crates/swarm-api/src/email_attachments.rs:46-111 | what a save accepts reads back at once exactly when its data was not there yet or had its type beside it, and afterwards exactly as long as both files are left |
| EmailAttachments.AfterOneMore | crates/swarm-api/src/email_attachments.rs:46-89 | a run of saves is one save after the other, each of what the one before it left |
| EmailAttachments.SaveKeepsSound | crates/swarm-api/src/email_attachments.rs:46-89 | after a save every file is what its name says, exactly when the save did not leave behind a part of its data |
| EmailAttachments.AcceptedYetNotFound | crates/swarm-api/src/email_attachments.rs:62-88 | from an empty store, a save without a type, an accepted save of the same byte, and a read that finds nothing |
| EmailAttachments.LeftoverTypeRefuses | crates/swarm-api/src/email_attachments.rs:82-87 | with every write working, a save of absent data succeeds exactly when no type file is left under its name |
| EmailAttachments.OneByteIsRefused | crates/swarm-api/src/email_attachments.rs:69-87 | a store holding only an old type file refuses one byte of plain text |
| EmailAttachments.GrownDiskRefusesWhatItHeld | crates/swarm-api/src/email_attachments.rs:69-87 | data evicted without its type is refused once the disk has grown |
| EmailRefusal.WhatItHeldIsRefused | crates/swarm-api/src/email_attachments.rs:46-89 | from an empty store, thirteen saves that are all accepted, after which the first one's bytes are refused |
| EmailAttachments.NeverFull | crates/swarm-api/src/email_attachments.rs:69-80 | a file of a size that may be saved is never refused for room |
| AttentionEvidence.Observe | crates/swarm-api/src/coordination_attention_evidence.rs:41-121 | one observation, from four reads of a world that changes as it likes between them |
| AttentionEvidence.TerminalCurrentMeansRead | crates/swarm-api/src/coordination_attention_evidence.rs:103-117 | a fact is terminal-current exactly when the identity is the item's and an untruncated snapshot of its session was read between two looks that found it active; it names that snapshot |
| AttentionEvidence.OnlyAHeldReadSaysResting | crates/swarm-api/src/coordination_attention_evidence.rs:258-301 | resting is said exactly of a read that held and showed it; otherwise activity, prompt and excerpt are all unknown |
| AttentionEvidence.HeldReadIsReported | crates/swarm-api/src/coordination_attention_evidence.rs:66-100 | of a read that held, the activity and background as derived, prompt input only at rest, and an excerpt exactly of quiet stale work nobody is engaged with |
| AttentionEvidence.FactsAreWhatWasObserved | crates/swarm-api/src/coordination_attention_evidence.rs:257-286 | the identity is current exactly when it is the item's, and the facts are the observation's |
| AttentionEvidence.StoredRevisionWouldPassForCurrent | crates/swarm-api/src/coordination_attention_evidence.rs:103-117 | a stored revision would be passed on as current without any read |
| AttentionEvidence.ListedWorkWasReadAtRest | crates/swarm-api/src/coordination_attention_evidence.rs:345-377 | the work listed for recovery is exactly the candidates read at rest, at most 32 |
| AttentionEvidence.FirstOfKeeps | crates/swarm-api/src/coordination_attention_evidence.rs:33-38 | the first items asked for are kept, and one is left out only past the limit |
| AttentionEvidence.CandidatesAreTheFirst | crates/swarm-api/src/coordination_attention_evidence.rs:33-38 | recovery looks at the first 32 items that are stale, not started or never briefed, in order |
| AttentionEvidence.PreimageIsInjective | crates/swarm-api/src/coordination_attention_evidence.rs:127-136 | snapshots with equal preimages are equal in every field |
| AttentionEvidence.RevisionNamesTheSnapshot | crates/swarm-api/src/coordination_attention_evidence.rs:127-136 | under a collision-free digest a revision names one snapshot |
| AttentionEvidence.BigEndianRoundTrip | crates/swarm-api/src/coordination_attention_evidence.rs:130-132 | a number in range is read back from its big-endian bytes |
| CiChecks.ClassifyChecks | crates/swarm-domain/src/check_gate.rs:100-125 | the outcome of one commit's checks, name by name |
| CiChecks.ClassifiedMeans | crates/swarm-domain/src/check_gate.rs:95-140 | a commit passes exactly when CI ran on it and every run completed as success, neutral or skipped and every status is success; it fails blaming exactly what ended otherwise; it waits for exactly what has not |
| CiChecks.SortedNamesRise | crates/swarm-domain/src/check_gate.rs:128-140 | names come in order and once each |
| CiChecks.CombinedMeans | crates/swarm-domain/src/check_gate.rs:144-164 | several outcomes pass exactly when each does, fail exactly when one does, blaming all of theirs |
| CiChecks.JudgeTip | crates/swarm-api/src/ci_checks.rs:184-231 | the outcome of one tip and the commit it was judged on |
| CiChecks.JudgedOnTheFirstThatSettles | crates/swarm-api/src/ci_checks.rs:205-230 | that is the first of the tip and its first twenty descendants that CI said anything of or that could not be read, with what was said; or else the tip, waiting for fifteen minutes for CI to start and then unreadable |
| CiChecks.Judge | crates/swarm-api/src/ci_checks.rs:133-182 | the whole judgement, every early return included |
| CiChecks.TipsCoverTheWork | crates/swarm-api/src/ci_checks.rs:163-176 | every commit is a tip or an ancestor of one, and no tip of a different tip |
| CiChecks.OneJudgementPerTip | crates/swarm-api/src/ci_checks.rs:177-181 | exactly one commit is judged for each tip, and the whole passes exactly when every tip does |
| CiChecks.NoCommitsPass | crates/swarm-api/src/ci_checks.rs:163-181 | work without commits passes with nothing judged, as is documented of it |
| CiChecks.RemoteReadsBack | crates/swarm-api/src/ci_checks.rs:105-114 | a repository's remote reads as its owner and name however it is written |
| CiChecks.RemoteNamesARepository | crates/swarm-api/src/ci_checks.rs:105-114 | whatever a remote reads as is one owner and one name |
| OperatorToken.ReplaceTokenLines | crates/swarm-api/src/auth.rs:124-138 | every token line is replaced, or one added |
| OperatorToken.Operator.Persist | crates/swarm-api/src/auth.rs:115-157 | the configuration is rewritten whole or left as it was |
| OperatorToken.Operator.RotateToken | crates/swarm-api/src/auth.rs:69-109 | which requests are refused and why, and what each leaves on disk and in memory |
| OperatorToken.RewriteKeepsEverythingElse | crates/swarm-api/src/auth.rs:111-140 | read back, every token line is the new one and the others are in order; nothing else was touched exactly when no other line ended in a carriage return and a line feed |
| OperatorToken.RewriteIsFaithful | crates/swarm-api/src/auth.rs:123-140 | without carriage returns, every other setting is untouched |
| OperatorToken.RotatingTwiceIsOnce | crates/swarm-api/src/auth.rs:123-140 | rotating twice is rotating once with the last token, exactly when no other line as read ends in a carriage return |
| OperatorToken.OtherSettingsLoseTheirReturns | crates/swarm-api/src/auth.rs:111-140 | a setting with a carriage return loses it |
| Sorting.SortSorts | scripts/prune-target.py:266 | a sort is in order and holds exactly what it was given |
| Sorting.SortIsStable | scripts/prune-target.py:204 | level elements keep the order they came in |

## Left out

- Eviction.Target.Prune: does not state the line a run logs or prints; `RunLog` models the log itself.
- AnsweredQuestions.PressedOncePerMemory: needs no decision in two passes at once, which the memory does not enforce; `SpacedExactlyWhenFresh` says exactly what is needed.
- AttachGrants.HonouredExactlyOnce: assumes calls reach the store in the order of their times; `HonouredByHistory` says what holds without.
- CiChecks.CombinedMeans: the wording of the reasons for an unreadable reading, and their sorting and joining into one text.
- The goal of a prune is three quarters of the limit in whole numbers; the source multiplies by 0.75 in floating point and truncates, which is the same for limits below 2^51 bytes.
- Lock files that locking creates are not added to the tree, so their own few bytes are not counted.
- A target directory whose own absolute path contains a fingerprint directory's name, which would make every path sort first.
- The order in which removing a directory deletes what is below it, which is left open.
- 64-bit overflow of the log's sequence numbers, of the Keeper's count of lost lines, and of byte totals of one store.
- LogShipping.EveryLineIsKeptOrSaidLost: one run of one Hive; `MemberDiagnostics.Accept` has restarts and several Hives, but no theorem follows a Hive across them.
- What a Keeper shows of its members' logs, and the time of the last batch beyond its being stored.
- EmailAttachments.EmailAttachmentStore.Save: a type file is written whole or not at all; one cut short that will not go is not modelled, nor is a process that dies in the middle of a save.
- Attachments.AttachmentStore.Save: a process that dies in the middle of a save, which leaves what a write cut short and stuck leaves, without an answer.
- Concurrent access to one attachment store by other processes, and directory reads that fail.
- SHA-256, random tokens, JSON parsing, git, the GitHub command, the terminal host and SQLite: parameters of the model.
- Lock poisoning, logging text and JSON rendering.
- The latest request from the coordinator beside an observation, and the briefings view, which repeat the same fence.
- Operator sessions, cookies and the origin policy in `auth.rs`; HTTP handlers, user interface and provider subprocesses everywhere.
- The gate's verdict on an observation, the member's shipping of usage, and the report a member derives: plumbing around the modelled cores.
