# Verified models of the repository's core algorithms

A Dafny project that models the self-contained logic of the repository and
proves its laws for all inputs and all runs. `dafny verify dfyconfig.toml`
checks everything.

| file | models |
|---|---|
| `Turns.dfy` | the turn registry: per-turn event logs, paging by cursor, terminal turns and their pruning |
| `EventBus.dfy` | the event bus as a class, and the interleaving of its recorders and waiters step by step |
| `BusReader.dfy`, `BusSubscriber.dfy` | readers that follow the event bus by polling, and by subscription |
| `ShutdownSignal.dfy` | the wake-up protocol of the concurrent CLI shutdown |
| `Leases.dfy` | connection leases that are purged lazily, acknowledged, snapshotted and restored |
| `Challenges.dfy` | one-shot nonces |
| `Pairing.dfy` | device pairing: request, approve, connect |
| `BackgroundTasks.dfy` | deduplication and order of background-task candidates |
| `Glob.dfy`, `Regex.dfy`, `GlobNewlines.dfy` | the compiler from glob patterns to regular expressions |
| `Wrap.dfy`, `WrapWidths.dfy`, `WrapWords.dfy` | the width-bounded text wrapper, exactly when its lines fit, and exactly when words stay whole |
| `Schema.dfy`, `Stats.dfy` | the JSON schema canonicaliser and the benchmark statistics |
| `PackageGraph.dfy` | the workspace graph and the closure of affected packages |
| `ProfileNote.dfy` | the splitting of profile notes into identity and advisory blocks |
| `FtsQuery.dfy` | full-text query building |
| `SelfBudget.dfy` | the character budget of the runtime self model |
| `Secrets.dfy` | environment spellings and canonical secret references |
| `Advisory.dfy` | demotion of governed Markdown headings |
| `Text.dfy`, `Ordering.dfy`, `Sequences.dfy`, `Results.dfy`, `Clock.dfy`, `Retention.dfy` | strings, sorting, time, bounded buffers and other shared vocabulary |

Conventions. A method that runs under a lock is one atomic step, and the time
it reads from the clock is a parameter. Generated ids are a prefix, a counter
and an arbitrary random part, and freshness is proved from the counter alone.
The token hash is an arbitrary function; where it has to be collision-free a
statement says so. Persistence is an outcome supplied with each operation.
`Notify` is a generation counter: a future is signalled by any notification
after its creation. Objects whose methods update fields are classes, each
method proved against a step function, and the laws over whole runs are proved
about the step functions.

Where the code does something its names or documentation do not suggest, the
model follows the code, and a statement says exactly when:

- Revoking a lease that has expired answers `true` as long as no other
  operation has purged it (`Leases.LazyIsInvisible`, `Leases.StaleRevokeShows`).
  So a registry that restored its own snapshot, which drops expired leases,
  can be told from one that did not (`Leases.OwnSnapshotInvisible`,
  `Leases.SplitRevokeShows`).
- A restart restores leases into a registry whose counter is zero; the counter
  alone no longer keeps new tokens apart from restored ones
  (`Leases.RestartInvisible`, `Leases.RestartFreshExactlyWhen`,
  `Leases.RestartReissues`).
- A turn that has just been completed can be pruned by the same call
  (`Turns.CompletedTurnMayGo`, `Turns.FirstTurnGoes`).
- Event numbers are taken before the retention lock, so events can be published
  out of order and a reader can miss one (`BusReader.ReaderSeesLog`,
  `BusSubscriber.SubscriberSeesLog`, `EventBus.LateEventIsMissed`).
- A subscriber is given one page of at most 50 retained events and after it live
  events only. If more than 50 wait when it subscribes, or some of them have
  left the window, it misses an event for good, also from the default cursor 0
  and with every event retained (`BusSubscriber.InStepExactlyWhen`,
  `BusSubscriber.FiftyFirstIsMissed`). A lag costs it an event exactly when the
  channel dropped one it waited for (`BusSubscriber.LagCostsExactlyWhen`).
- Restoring a snapshot takes acknowledged numbers back (`Leases.RestoreForgets`).
- Compiled glob patterns treat newlines differently from the segments they
  stand for, except for a few shapes of the last segment
  (`GlobNewlines.AgreesExactlyWhen`, `Glob.NewlineDisagreement`).
- The wrapper loops for ever on a long segment when the continuation prefix is
  as wide as the line (`Wrap.TerminatesExactlyWhen`, `Wrap.EndsExactlyWhen`).
- Wide characters, and segments without width, can make a line wider than the
  effective width (`WrapWidths.FitsExactlyWhen`, `WrapWidths.WideSticksOut`,
  `Wrap.ZeroWidthSticksOut`).
- The first word is cut although it fits a line of its own when the prefix leaves
  some room but too little (`WrapWords.WordsStayWholeExactlyWhen`,
  `WrapWords.FirstWordIsCut`).
- The list of background tasks is independent of the order of the sessions
  unless two different candidates tie for newest, owner id included. Owner ids
  are session ids, so that takes the same session twice among the inputs
  (`BackgroundTasks.OrderIndependence`).
- Heading demotion is idempotent on lines but not on texts (`Advisory.DemoteTwice`).

## Model

| member | source | states |
|---|---|---|
| Turns.PushEventLocked | crates/app/src/control_plane.rs:370-389 | the loop that pushes and evicts leaves exactly the record and event of one push: next number, count of all events, last 256 retained |
| Turns.PushedOk | crates/app/src/control_plane.rs:370-389 | a push onto a running turn keeps the full log numbered without gaps, at most one terminal event and it last; the retained events are the last 256 and all counters fit; if the event is not terminal the whole record invariant holds, also that a terminal status goes with a terminal last event |
| Turns.FinishedOk | crates/app/src/control_plane.rs:271-346 | completing a running turn keeps the record invariant: the status is terminal and the last event is the terminal one |
| Turns.PageOfWindow | crates/app/src/control_plane.rs:238-257 | a page read from the retained window is the contiguous slice of the full log that starts after the cursor, or at the oldest retained event when the cursor fell behind; empty for a cursor at or beyond the newest event |
| Turns.ReaderSeesPrefix | crates/app/src/control_plane.rs:238-257 | for every interleaving of pushes and polls, a reader that moves its cursor to the last number it saw has seen a gap-free, duplicate-free prefix of the log if and only if it was never more than 256 events behind at a poll |
| Turns.GapStays | crates/app/src/control_plane.rs:238-257 | once such a reader has missed an event, no later push or poll repairs it |
| Turns.PruneTerminalTurns | crates/app/src/control_plane.rs:391-421 | the pruning loop removes terminal turns only, leaves min(256, count) of them and every running turn, and all it removes precede all it keeps in (completed, submitted, id) order |
| Turns.SurvivorsAreLatest | crates/app/src/control_plane.rs:391-421 | a terminal turn survives pruning if and only if fewer than 256 terminal turns come after it |
| Turns.PrunedUnique | crates/app/src/control_plane.rs:391-421 | the promise of pruning has one possible outcome |
| Turns.OldestGo | crates/app/src/control_plane.rs:391-421 | in terms of the snapshots: a turn that is pruned completed no later than one that stays, completed together it was submitted no later, and submitted together its id comes first |
| Text.LeqMeaning | crates/app/src/control_plane.rs:411-415 | strings compare by the first character that differs, or else by length |
| Turns.CompletedTurnMayGo | crates/app/src/control_plane.rs:271-346 | in every valid registry, a turn completed now is pruned by the same call if and only if 256 terminal turns are retained and (now, its submission, its id) comes before all of them |
| Turns.FirstTurnGoes | crates/app/src/control_plane.rs:271-312 | a concrete such registry: turn 1 completes in the millisecond in which 256 later ones did, and goes at once |
| Turns.ConcludeKeeps | crates/app/src/control_plane.rs:271-346 | completing a turn and pruning keeps the registry invariant: every retained record in step with its full log, at most 256 terminal turns |
| Turns.TurnRegistry.IssueTurn | crates/app/src/control_plane.rs:202-230 | a new running turn, field by field, with an empty log under an id never used before; nothing else changes |
| Text.HexMeaning | crates/app/src/control_plane.rs:206-206 | the counter and the random part of an id are written in hexadecimal, zero-padded to sixteen digits and no longer than it takes |
| Turns.TurnRegistry.ReadTurn | crates/app/src/control_plane.rs:232-236 | the snapshot of a known turn counts all its events, and its status is terminal if and only if its log holds a terminal event |
| Turns.TurnRegistry.RecentEventsAfter | crates/app/src/control_plane.rs:238-257 | a page of the last 256 events of the full log of the turn, or not found |
| Turns.TurnRegistry.RecordRuntimeEvent | crates/app/src/control_plane.rs:348-368 | appends one event, given field by field, to the log of a running turn and counts it; unknown and terminal turns are refused and nothing changes |
| Turns.TurnRegistry.CompleteSuccess | crates/app/src/control_plane.rs:271-312 | a running turn ends as completed, or as cancelled for the stop reason "cancelled", with one last terminal event, followed by pruning; unless pruned its snapshot has the output text, stop reason and usage given, the time, no error, and is otherwise as before; refusals change nothing |
| Turns.TurnRegistry.CompleteFailure | crates/app/src/control_plane.rs:314-346 | a running turn ends as failed with one last terminal event, followed by pruning; unless pruned its snapshot has the error given, the time, no output, stop reason or usage, and is otherwise as before; refusals change nothing |
| Turns.TurnRegistry.Conclude | crates/app/src/control_plane.rs:271-346 | the state change the two completions share, with every field of the event and of the stored snapshot |
| EventBus.RecordKeeps | crates/app/src/control_plane.rs:756-829 | recording one event atomically keeps the bus invariant: numbers by position, growing versions, the last 256 events retained |
| EventBus.PageNonempty | crates/app/src/control_plane.rs:536-552 | a page is empty if and only if no awaited event is retained |
| EventBus.PageMeaning | crates/app/src/control_plane.rs:536-552 | a page holds retained events beyond the cursor in number order, targeted ones only on demand, and no more than allowed; one that is left out comes after a full page |
| EventBus.Manager.RecordEvent | crates/app/src/control_plane.rs:756-775 | the event gets the next number and a version that counts one more on its own lane and no other, and is appended to the log |
| EventBus.Manager.RecordPresenceChanged | crates/app/src/control_plane.rs:615-625 | records one presence event and stores the count |
| EventBus.Manager.RecentEventsAfter | crates/app/src/control_plane.rs:536-552 | the first events of the retained window beyond the cursor, targeted ones only on demand, none left out before a full page |
| EventBus.NoLostWakeup | crates/app/src/control_plane.rs:558-585 | for any number of recorders and waiters and any interleaving: with the retention lock free, a waiter blocked on an unsignalled future has no awaited event retained; what a waiter delivers is not empty and was awaited |
| EventBus.WaiterDelivers | crates/app/src/control_plane.rs:558-585 | with the lock free and an awaited event retained, the next steps of a waiter are enabled and deliver the page |
| EventBus.OrderedPublication | crates/app/src/control_plane.rs:756-775 | numbers are taken before the retention lock: on every run from the start, the log is numbered by position if and only if every publication was of the oldest outstanding number |
| EventBus.LateEventIsMissed | crates/app/src/control_plane.rs:756-829 | two recorders and one reader, concretely: event 2 is published first, the reader sees it and moves its cursor, and event 1 is never returned to it |
| BusReader.ReaderSeesLog | crates/app/src/control_plane.rs:536-552 | on every run of the bus and for every polling schedule that stays within 256 events: a cursor reader of all events has seen exactly the log up to its cursor if and only if the visible log is in the order of its numbers; with the lock free at the end, if and only if every publication was of the oldest outstanding number |
| BusReader.OrderSuffices | crates/app/src/control_plane.rs:536-552 | ordered publication keeps every reader in step, also one that is shown untargeted events only: it has seen exactly those of the log up to its cursor |
| BusReader.PollInStep | crates/app/src/control_plane.rs:536-552 | a poll of an ordered log within 256 events keeps a reader in step |
| BusReader.DisorderShows | crates/app/src/control_plane.rs:536-552 | for every run with a disordered visible log, a schedule that puts a reader out of step: poll after every publication up to the first one out of order |
| BusReader.PassedIsLost | crates/app/src/control_plane.rs:536-552 | an event whose number the cursor has passed unseen is not returned by any later poll |
| BusSubscriber.SubscriberSeesLog | crates/daemon/src/control_plane_server/events.rs:3-96 | on every run of the bus and under every schedule in which no event the subscriber waits for leaves the window before it loads or the channel before it takes it: a subscriber to all events from the start has been given exactly the log up to its last number if and only if every publication was of the oldest outstanding number |
| BusSubscriber.InStepExactlyWhen | crates/daemon/src/control_plane_server/events.rs:3-96 | of a run that publishes in order, for every cursor, with or without targeted events, as soon as one more event is shown: a subscriber has been given exactly what it may see between its start and its last number, under every such schedule, if and only if all it waited for when it subscribed was still retained and was no more than 50 events |
| BusSubscriber.FiftyFirstIsMissed | crates/daemon/src/control_plane_server/events.rs:3-22 | a concrete subscriber from the default cursor 0, with 51 events published in order and all retained: it is given events 1 to 50, then event 52 |
| BusSubscriber.OrderSuffices | crates/daemon/src/control_plane_server/events.rs:3-96 | ordered publication keeps a subscriber in step, whenever it subscribes and from whatever cursor, if all it waits for then is retained and no more than 50 events; no later event is needed |
| BusSubscriber.LagCostsExactlyWhen | crates/daemon/src/control_plane_server/events.rs:66-96 | after a lag the refilled page and the live events still make up what the subscriber waits for if and only if nothing the channel dropped was shown and beyond its cursor; otherwise some event is missed |
| BusSubscriber.MissedForGood | crates/daemon/src/control_plane_server/events.rs:47-96 | no later move of any schedule gives a missed event |
| BusSubscriber.DisorderMissed | crates/daemon/src/control_plane_server/events.rs:66-82 | for every run that publishes out of order, a schedule that puts a subscriber out of step: take every event as it is sent, up to the first one out of order |
| ShutdownSignal.NoLostWakeup | crates/app/src/chat.rs:202-226 | for any number of requesters and waiters and any interleaving: a waiter blocked on an unsignalled future implies that the flag is unset or some requester has stored it and not yet notified; a wait returns only after a request |
| ShutdownSignal.EveryWaiterReturns | crates/app/src/chat.rs:211-226 | once a request is complete, every waiter that has not returned can step, and any schedule of waiter steps is no longer than the sum of their ranks |
| ShutdownSignal.UndisturbedWait | crates/app/src/chat.rs:211-226 | a waiter on its own that finds no request looks twice, creates its future, looks again and waits |
| ShutdownSignal.UndisturbedRequest | crates/app/src/chat.rs:202-205 | a request stores the flag, then signals every future created before |
| Leases.StepAgrees | crates/app/src/control_plane.rs:873-984 | one operation on the lazily purged registry answers as on one that never purges, except that revoking an expired lease reports success exactly while it is not purged |
| Leases.LazyIsInvisible | crates/app/src/control_plane.rs:873-984 | under a non-decreasing clock, all answers over a run equal those of the registry that never purges if and only if no revocation names an expired lease still stored |
| Leases.BackwardClockShows | crates/app/src/control_plane.rs:873-893 | a concrete run with a clock that goes back, on which the two registries differ |
| Leases.StaleRevokeShows | crates/app/src/control_plane.rs:927-937 | a run from an empty registry, issue for one millisecond then revoke after it, on which the two registries differ |
| Leases.AckIsMaximum | crates/app/src/control_plane.rs:895-925 | while a lease is stored and no snapshot is restored, its acknowledged number is the maximum of its start value and of every acknowledgement answered with it, in any order and whatever the clock does |
| Leases.RestoreForgets | crates/app/src/control_plane.rs:895-984 | a restore takes the acknowledged number of a lease back to the value of the snapshot, whatever was acknowledged since |
| Leases.IssuedLeaseLives | crates/app/src/control_plane.rs:873-1012 | an issued lease that is neither revoked, replaced nor lost to a restore is found by a lookup no earlier than what came before if and only if that is before its issue plus its time to live, at least a millisecond and cut at the largest 64-bit number |
| Leases.FoundUntilExpiry | crates/app/src/control_plane.rs:873-984 | the same for any stored lease and its expiry, with its principal and times |
| Leases.LoadedMeaning | crates/app/src/control_plane.rs:960-984 | a restore keeps of each token the last lease given that has not expired |
| Leases.ListingRoundTrip | crates/app/src/control_plane.rs:939-984 | loading a listing gives back exactly the unexpired part of what was listed |
| Leases.OwnSnapshotInvisible | crates/app/src/control_plane.rs:939-984 | after restoring its own snapshot the registry holds its unexpired leases, and it answers a later run like one never restored if and only if no revocation names a lease that only one of the two still stores |
| Leases.SplitRevokeShows | crates/app/src/control_plane.rs:927-984 | a concrete snapshot, restore and revocation on which the two differ |
| Leases.RestartInvisible | crates/daemon/src/gateway/control.rs:534-545 | the same for a restore into a new registry: the answers agree if and only if moreover nothing is issued, unless nothing ever was |
| Leases.IssuedIsFresh | crates/app/src/control_plane.rs:986-1012 | from an empty registry on and as long as the counter is kept, an issued token is not in use |
| Leases.FreshExactlyWhen | crates/app/src/control_plane.rs:986-1012 | on all runs without a restore every token is unused when issued, whatever the random parts, if and only if no stored token has the form of one still to come |
| Leases.RestartFreshExactlyWhen | crates/daemon/src/gateway/control.rs:534-545 | after a restart that restores leases, if and only if none of the restored ones has a token that a registry issued |
| Leases.RestartReissues | crates/daemon/src/gateway/control.rs:534-545 | after a restart the first token issued replaces the live lease issued first, if their random parts coincide |
| Leases.ListConnections | crates/app/src/control_plane.rs:939-958 | the listing loop gives every lease once, in token order |
| Leases.ConnectionRegistry.Issue | crates/app/src/control_plane.rs:986-1012 | one issue step, and its lease field by field: the next token, the principal, the time, an expiry of the time plus the larger of one and the time to live, cut at the largest 64-bit number, nothing acknowledged |
| Leases.ConnectionRegistry.Resolve | crates/app/src/control_plane.rs:873-893 | one lookup step: the lease stored under the trimmed token, if not expired, and only unexpired leases stay |
| Leases.ConnectionRegistry.AcknowledgeSeq | crates/app/src/control_plane.rs:895-925 | one acknowledgement step: an unexpired lease keeps the larger number, everything else of it stays, and only unexpired leases stay |
| Leases.ConnectionRegistry.Revoke | crates/app/src/control_plane.rs:927-937 | one revocation step: true if and only if the trimmed token was stored, which then is not any more; nothing is purged |
| Leases.ConnectionRegistry.SnapshotLeases | crates/app/src/control_plane.rs:939-958 | one snapshot step: every unexpired lease once, in token order, and only these stay |
| Leases.ConnectionRegistry.RestoreLeases | crates/app/src/control_plane.rs:960-984 | one restore step: the last unexpired lease given of each token replaces everything stored, and all unexpired ones are counted |
| Challenges.StepKeepsOk | crates/app/src/control_plane.rs:1038-1067 | every step keeps challenges under their own issued nonces, and a nonce that was issued and is gone never comes back |
| Challenges.AtMostOnce | crates/app/src/control_plane.rs:1038-1067 | on every run, whatever the clock does, no nonce is handed out twice and each only before it expires |
| Challenges.FirstClaimTakes | crates/app/src/control_plane.rs:1038-1050 | under a non-decreasing clock the first operation that names a retained challenge receives it if and only if that is before expiry |
| Challenges.ClaimedInTime | crates/app/src/control_plane.rs:1038-1067 | under a non-decreasing clock an issued challenge is handed out by the first operation that names it if and only if that comes before its issue plus its time to live, at least a millisecond and cut at the largest 64-bit number |
| Challenges.IssuedIsClaimable | crates/app/src/control_plane.rs:1052-1067 | every issued nonce is fresh, not blank and unchanged by trimming, and is retained |
| Challenges.ChallengeRegistry.Issue | crates/app/src/control_plane.rs:1052-1067 | one issue step; the nonce was not in use, and the expiry is the time plus the larger of one and the time to live, cut at the largest 64-bit number |
| Challenges.ChallengeRegistry.Consume | crates/app/src/control_plane.rs:1038-1050 | one consumption step: the challenge stored under the trimmed nonce, if not expired, is handed out and removed with everything expired |
| Pairing.RunKeeps | crates/app/src/control_plane.rs:1183-1415 | on every run no two pending requests share device, key, role and scopes, and a request that has left the pending state never changes |
| Pairing.FailedPersist | crates/app/src/control_plane.rs:1183-1415 | a failed persist changes neither the requests nor the approved devices |
| Pairing.DecisionMeaning | crates/app/src/control_plane.rs:1362-1415 | a decision on a pending request that is stored is carried out as made: approval gives it a token id and a token and stores the device under the hash of that token, rejection gives it no token and leaves the devices alone; the rest of the request stays |
| Pairing.NoDecision | crates/app/src/control_plane.rs:1362-1415 | what decides nothing changes neither requests nor devices: a blank id, an unknown or settled request, a failed persist, each with its answer |
| Pairing.ApprovedConnect | crates/app/src/control_plane.rs:1183-1228 | a device approved with this key and role for every scope asked for is told that its token is missing, wrong or right |
| Pairing.IncompleteConnect | crates/app/src/control_plane.rs:1183-1196 | a connection that leaves a field blank is told the first one |
| Pairing.PairingConnect | crates/app/src/control_plane.rs:1228-1274 | every other connection is answered with a pending request that asks for the same device, key, role and trimmed scopes: one found, or else a new one, which is stored unless persisting fails |
| Pairing.AuthorizedExactlyWhen | crates/app/src/control_plane.rs:1183-1274 | over every run from an empty registry a connection is authorized if and only if the latest decision to approve its device, among those made on a pending request and stored, entitles it: same key and role, every scope covered, and a token with the same hash |
| Pairing.RunReflects | crates/app/src/control_plane.rs:1362-1415 | the table of approved devices is, over every run, the latest decision to approve each device |
| Pairing.SupersededToken | crates/app/src/control_plane.rs:1362-1415 | with a collision-free hash, a token that a later approval of the same device replaced never authorizes again |
| Pairing.PairingRegistry.FindPending | crates/app/src/control_plane.rs:1183-1274 | the search loop finds the pending request of a key if there is one |
| Pairing.PairingRegistry.EvaluateConnect | crates/app/src/control_plane.rs:1183-1274 | the state and answer of one connect step, and the invariant |
| Pairing.PairingRegistry.ResolveRequest | crates/app/src/control_plane.rs:1362-1415 | one resolution step and the invariant: a stored approval makes a pending request approved with a token, a stored rejection makes it rejected without one and leaves the devices alone |
| BackgroundTasks.WinnersMeaning | crates/app/src/control_plane.rs:2068-2093 | every task id keeps one candidate and it is a newest of its group |
| BackgroundTasks.OutputDeduplicated | crates/app/src/control_plane.rs:2068-2093 | one entry per task id, each a newest of its group, sorted by the comparator |
| BackgroundTasks.NewestFirst | crates/app/src/control_plane.rs:2204-2221 | every listing that is deduplicated by the comparator is one in these terms |
| BackgroundTasks.UntiedUnique | crates/app/src/control_plane.rs:2204-2221 | without a tie for newest, any two deduplicated listings of the same candidates are equal |
| BackgroundTasks.OrderIndependence | crates/app/src/control_plane.rs:2068-2093 | the listing is the same for every order of the sessions if and only if no two different candidates tie for the newest of a task; distinct owner ids suffice |
| BackgroundTasks.LoadBackgroundTaskCandidates | crates/app/src/control_plane.rs:2068-2093 | the loop returns the first failure if any candidate fails to build, and otherwise one candidate of each task that has one: the one updated last, of those updated together the one whose owner comes first; tasks updated last come first, those updated together by name |
| Glob.NormalizeRepoPath | scripts/sync_github_labels.py:40-44 | the loop that drops leading "./" pairs computes the normalised path |
| Glob.NormalizedPathMeaning | scripts/sync_github_labels.py:40-44 | a normalised path has no backslash and no leading "./", is a suffix of the converted path behind "./" pairs only, and normalising again changes nothing |
| Glob.ValidateSupportedGlobPattern | scripts/sync_github_labels.py:47-105 | a pattern is accepted if and only if it is not empty, has no empty segment, no unsupported token and "**" only as a whole segment; each error names its cause |
| Glob.UnsupportedMeaning | scripts/sync_github_labels.py:47-69 | what is reported: each extended glob token that occurs, a leading exclamation mark without one, a character class and a brace expansion, each where a text of its form occurs |
| Glob.AcceptedMeaning | scripts/sync_github_labels.py:72-105 | a pattern is accepted if and only if no text of these forms occurs in it, no segment is empty, and two stars occur in a segment only as the whole of it |
| Glob.GlobSegmentToRegex | scripts/sync_github_labels.py:108-118 | the loop emits the text of the pieces of the segment |
| Glob.GlobPatternToRegex | scripts/sync_github_labels.py:121-146 | accepted patterns give the text of the compiled pieces, all others an error |
| Regex.ParseText | scripts/sync_github_labels.py:108-146 | the emitted text is read back as exactly the pieces it was made from: escaping never lets a literal become an operator |
| Glob.SegmentExpr | scripts/sync_github_labels.py:108-118 | the expression of one segment matches exactly the slash-free runs that "*", "?" and literals describe |
| Glob.CompiledBody | scripts/sync_github_labels.py:121-146 | the compiled expression accepts a path if and only if the segment-by-segment matcher accepts its parts |
| Glob.CompiledPattern | scripts/sync_github_labels.py:149-157 | what matching answers on every path, newlines included: a final newline is also let through by the end anchor |
| Glob.CompiledPatternOneLine | scripts/sync_github_labels.py:149-157 | on a newline-free path the regular expression and the segment-by-segment matcher agree: "*" and "?" never cross "/", an inner "**" takes zero or more non-empty segments, a final one takes one or more of any content |
| Glob.NewlineDisagreement | scripts/sync_github_labels.py:149-157 | two concrete paths with newlines on which they differ, one each way |
| GlobNewlines.AgreesExactlyWhen | scripts/sync_github_labels.py:121-157 | a compiled pattern and the reference matcher agree on every path, newlines included, if and only if the last segment is not "**", has a star, and behind its last star only question marks (then newlines, should the pattern contain any) |
| GlobNewlines.NewlineFreeTail | scripts/sync_github_labels.py:108-118 | for a newline-free last segment the condition is a star with only question marks behind the last one |
| GlobNewlines.AbsorbsNewline | scripts/sync_github_labels.py:108-118 | such a segment still matches when a newline is appended to what it matched |
| GlobNewlines.Refuses | scripts/sync_github_labels.py:108-118 | every other segment matches some text that it no longer matches with a newline appended |
| Glob.PathMatchesPattern | scripts/sync_github_labels.py:154-157 | an error exactly for refused patterns; otherwise the answer of the compiled expression, which on newline-free paths is that of the reference matcher |
| Glob.LabelsForPath | scripts/sync_github_labels.py:160-172 | the sorted labels of the entries with a matching pattern, or an error exactly when an entry reaches a refused pattern before a match |
| Wrap.FitCountFits | crates/app/src/presentation.rs:553-571 | the prefix taken fits and one more character would not |
| Wrap.TakeFittingPrefix | crates/app/src/presentation.rs:553-571 | the loop takes the longest prefix that fits, or one character |
| Wrap.PassProgress | crates/app/src/presentation.rs:507-545 | with room on a continuation line, every pass of the inner loop shortens the text left or lowers a phase that is then zero |
| Wrap.RenderWrappedSegments | crates/app/src/presentation.rs:489-551 | whenever the inner loop can end on every segment in turn, the nested loop ends and produces the lines the other statements are about |
| Wrap.RoomSuffices | crates/app/src/presentation.rs:489-551 | with room on a continuation line wrapping terminates on all segments |
| Wrap.WrappedConserves | crates/app/src/presentation.rs:489-551 | with blank continuation and separator, the non-space characters of the lines are exactly those of the prefix and the segments, in order, for all character widths |
| Wrap.WrappedFits | crates/app/src/presentation.rs:489-551 | if no character is wider than m columns, no line exceeds its reach by more than m - 1 columns; the reach is the effective width when every segment has some width, and grows by a separator (over a wide prefix, if that is wider) with each segment that has none |
| Wrap.EndsExactlyWhen | crates/app/src/presentation.rs:508-545 | placing a segment ends if and only if continuation lines have room, or the segment fits where the line is, or it is cut on a line without content so that nothing with width is left |
| Wrap.TerminatesStep | crates/app/src/presentation.rs:489-551 | wrapping one more segment terminates if and only if it did before and placing that segment ends |
| Wrap.TerminatesExactlyWhen | crates/app/src/presentation.rs:489-545 | wrapping terminates on all segments if and only if the effective width exceeds the width of the continuation prefix |
| Wrap.ZeroWidthSticksOut | crates/app/src/presentation.rs:489-551 | a concrete layout and two segments on which a line is as wide as its reach and wider than the effective width |
| WrapWidths.WideFitsExactlyWhen | crates/app/src/presentation.rs:489-571 | given a widest character, all texts whose segments have width fit the effective width if and only if the prefix and the continuation each leave no room at all or room for that character |
| WrapWidths.ZeroFitsExactlyWhen | crates/app/src/presentation.rs:489-551 | given a character without width and one of one column, and no danger from wide ones, all texts fit if and only if the separator takes no columns and the prefix is no wider than the line |
| WrapWidths.FitsExactlyWhen | crates/app/src/presentation.rs:489-571 | the two together: all texts fit if and only if both conditions hold |
| WrapWidths.OnesFitExactlyWhen | crates/app/src/presentation.rs:489-551 | where no character is wider than one column, all texts fit if and only if the separator takes no columns and the prefix is no wider than the line |
| WrapWidths.WideSticksOut | crates/app/src/presentation.rs:489-571 | a concrete wide character that takes four columns at an effective width of three, with an empty line behind it |
| WrapWords.RenderWrappedTextLine | crates/app/src/presentation.rs:310-321 | the words of the text, wrapped; with a blank continuation no visible character is lost, added or moved; words that fit a continuation line stay whole and single-spaced if the first one fits behind the prefix or the prefix leaves no room |
| WrapWords.SplitWhitespaceMeaning | crates/app/src/presentation.rs:316-319 | the words are not empty and hold no whitespace, and the text is the words with blanks between them and around them |
| WrapWords.SplitWhitespaceOf | crates/app/src/presentation.rs:316-319 | every such list of words is the one the text is split into |
| WrapWords.WordsStayWholeExactlyWhen | crates/app/src/presentation.rs:489-551 | of words that have width and fit a continuation line: the lines are the words in order, whole, with the separator between two of a line, no line too wide and none ended before it has to be, if and only if the first word fits behind the prefix or the prefix leaves no room |
| WrapWords.FirstWordIsCut | crates/app/src/presentation.rs:489-551 | a concrete prefix that leaves two columns: the first word is cut although it fits the next line |
| Schema.DedupMeaning | crates/bench/src/benchmark_harness.rs:1347-1348 | deduplicating a sorted list keeps exactly its elements, once each, in order |
| Schema.NormalizedCanonical | crates/bench/src/benchmark_harness.rs:1339-1348 | two normalised entry lists are equal if and only if they have the same set of entries, whatever the order or repetition |
| Schema.ArrayIsNoObject | crates/bench/src/benchmark_harness.rs:1338-1361 | an array is never described like an object, not even like one with an "array" key |
| Schema.DescriptorForm | crates/bench/src/benchmark_harness.rs:1332-1362 | the descriptor of a scalar is the name of its kind; of an array the one key "array" with what describes its entries, once each and in text order; of an object the same keys with what describes their values |
| Schema.DescriptorIsShape | crates/bench/src/benchmark_harness.rs:1332-1362 | two JSON values get the same descriptor if and only if they have the same shape |
| Stats.PercentileMonotone | crates/bench/src/benchmark_harness.rs:1424-1444 | percentiles grow with the ratio, across sample boundaries too |
| Stats.PercentileEnds | crates/bench/src/benchmark_harness.rs:1424-1444 | ratios at or below 0 give the minimum, at or above 1 the maximum |
| Stats.PercentileInterpolates | crates/bench/src/benchmark_harness.rs:1424-1444 | the percentile is the piecewise linear curve through the samples at evenly spaced ratios |
| Stats.StatsInOrder | crates/bench/src/benchmark_harness.rs:1404-1422 | min <= p50 <= p95 <= p99 <= max, the extremes are samples and bound all samples, the average is in range and times the count is the sum |
| Stats.WholeRanks | crates/bench/src/benchmark_harness.rs:1404-1422 | with 100m + 1 samples the percentiles are the sorted samples at 50m, 95m and 99m |
| Stats.StatsPermutation | crates/bench/src/benchmark_harness.rs:1404-1422 | the statistics do not depend on the order of the samples |
| PackageGraph.BuildWorkspaceGraph | scripts/rust_changed_packages.py:100-126 | the graph has an edge for exactly the path dependencies between listed packages, in both directions; an error exactly when a workspace member is not listed, naming the first |
| PackageGraph.Register | scripts/rust_changed_packages.py:105-111 | names and roots of the package list, the last entry winning, with no edges |
| PackageGraph.NameAtLast | scripts/rust_changed_packages.py:105-111 | a root directory stands for the package of the last entry listed with it, or for none |
| PackageGraph.NameOfIdLast | scripts/rust_changed_packages.py:101-103 | a member id stands for the name of the last entry listed with it, or for none |
| PackageGraph.Link | scripts/rust_changed_packages.py:113-124 | dependencies and reverse dependencies are the same edges seen from both ends |
| PackageGraph.ReverseDependencyClosure | scripts/rust_changed_packages.py:162-172 | terminates with exactly the names reached from the direct ones over reverse dependencies, or with a reached name that is unknown |
| PackageGraph.ReachedIsLeastClosed | scripts/rust_changed_packages.py:162-172 | that set is the least one that contains the direct names and is closed under reverse dependencies |
| PackageGraph.ReachedIsDependent | scripts/rust_changed_packages.py:100-172 | a package is selected if and only if it depends, through a chain of path dependencies of the package list, on a direct one |
| PackageGraph.ReachedIsKnown | scripts/rust_changed_packages.py:162-172 | from known direct names no unknown name is reached |
| PackageGraph.OrderedSubsetSplit | scripts/rust_changed_packages.py:175-176 | filtering distributes over concatenation, so selected names keep their place in the workspace order |
| PackageGraph.OrderedSubsetCounts | scripts/rust_changed_packages.py:175-176 | selected names keep their multiplicity and all others vanish |
| PackageGraph.SelectPackages | scripts/rust_changed_packages.py:179-187 | from the package list to the output: the workspace members, in workspace order, that depend through path dependencies on a direct package, or the direct ones alone when dependents are not wanted; an error exactly when a member is not listed, or dependents are wanted and a direct package is not |
| ProfileNote.SplitProfileNoteBlocks | crates/app/src/runtime_identity.rs:190-220 | the splitting loop yields the finalised groups of lines |
| ProfileNote.FinalizeContent | crates/app/src/runtime_identity.rs:236-248 | a block holds exactly the trimmed non-empty lines of its group; there is none if and only if all are blank |
| ProfileNote.FinalizeText | crates/app/src/runtime_identity.rs:236-248 | the text of a block is that of its lines, joined by line feeds, without the blanks around it |
| ProfileNote.SplitsBeforeMeaning | crates/app/src/runtime_identity.rs:222-234 | re-finalising the buffer amounts to looking at the first non-blank line of the open group |
| ProfileNote.SplitterRefinesScan | crates/app/src/runtime_identity.rs:190-234 | the splitter refines a one-bit scan over the lines: the groups concatenate to the note and lie in the lane of the scan |
| ProfileNote.PartitionProfileNote | crates/app/src/runtime_identity.rs:174-188 | every non-blank line lands, in order, in the identity blocks if and only if the scan is in identity mode there, and else in the advisory blocks |
| ProfileNote.BlocksConserve | crates/app/src/runtime_identity.rs:190-220 | the blocks, in order, hold exactly the visible characters of the note |
| FtsQuery.QueryRoundTrip | crates/app/src/search_text.rs:67-90 | a reader of doubled-quote strings joined by OR recovers exactly the terms, even when they contain quotation marks or the operator |
| FtsQuery.TermsMeaning | crates/app/src/search_text.rs:67-90 | the terms are pairwise distinct, at most max_terms + 1, start with the whole text, and are otherwise exactly the first tokens |
| FtsQuery.FirstOccurrencesOrder | crates/app/src/search_text.rs:128-138 | entries kept once keep the order in which they first occur |
| FtsQuery.TokensMeaning | crates/app/src/search_text.rs:112-126 | tokens are distinct, at least two characters long, and exactly the normalised forms of the trimmed words that are that long |
| FtsQuery.TokensOrder | crates/app/src/search_text.rs:112-126 | tokens come in the order of the words that first give them |
| FtsQuery.Collector.PushQuotedTerm | crates/app/src/search_text.rs:128-138 | appends the quoted term once; the empty term is ignored |
| FtsQuery.Collector.PushToken | crates/app/src/search_text.rs:112-126 | appends the normalised trimmed word once if it is at least two characters long |
| FtsQuery.TokenizeNormalized | crates/app/src/search_text.rs:49-65 | the loop collects the kept words once each, in order of appearance |
| FtsQuery.BuildSearchFtsQuery | crates/app/src/search_text.rs:67-90 | no query if and only if the text normalises to nothing; otherwise one that is read as exactly the terms |
| SelfBudget.CompactIsLongest | crates/app/src/runtime_self.rs:379-410 | the compact notice is the longest form that fits, dots below three characters |
| SelfBudget.TruncateMeaning | crates/app/src/runtime_self.rs:287-358 | with budget left a source renders to at most what it is charged, which is at most both limits; whole if it fits; an exhausted budget charges nothing |
| SelfBudget.CutMeaning | crates/app/src/runtime_self.rs:314-358 | a source that is cut shows a proper prefix and the notice with its file name and cause in exactly the allowed characters when these have room, and otherwise one of the shorter notices or dots |
| SelfBudget.FreshMeaning | crates/app/src/runtime_self.rs:97-130 | the sources that count are the readable ones, one per path key, none lost |
| SelfBudget.RunIsLawful | crates/app/src/runtime_self.rs:97-130 | each entry meets the initial budget less all earlier charges, which never underflows; only the last can meet an exhausted budget; sources are dropped only behind it; the text shown exceeds the budget by at most that notice |
| SelfBudget.EntriesAreTruncated | crates/app/src/runtime_self.rs:232-358 | each entry shows its source truncated for the budget it met, and is charged that |
| SelfBudget.LanesMeaning | crates/app/src/runtime_self.rs:266-285 | each lane of the model holds what is shown of the entries of that lane, in order |
| SelfBudget.Loader.Ingest | crates/app/src/runtime_self.rs:232-264 | a new path is truncated, charged and appended to its own lane, a known one changes nothing |
| SelfBudget.LoadRuntimeSelfModel | crates/app/src/runtime_self.rs:97-130 | every lane of the model holds exactly what is shown of the entries of the run for it, in order, and the remaining budget is the initial one less everything charged |
| Secrets.SpellingParses | crates/contracts/src/secret_ref.rs:219-281 | every padded spelling of a valid name is read as that name |
| Secrets.ParsedIsSpelling | crates/contracts/src/secret_ref.rs:219-281 | whatever is read as a name is a padded spelling of it |
| Secrets.NameMeaning | crates/contracts/src/secret_ref.rs:271-281 | a name by ASCII codes: letters, digits and underscores, no digit first |
| Secrets.CanonicalResolves | crates/app/src/secrets.rs:197-266 | canonicalising preserves the resolved value in every world, for every kind of reference and every spelling |
| Secrets.CanonicalIsFixed | crates/app/src/secrets.rs:242-266 | canonicalising is idempotent; an environment reference stays only beside a different configured name |
| Secrets.CanonicalMeaning | crates/app/src/secrets.rs:242-266 | rewritten are exactly environment references, plain or spelled inline, beside no other configured name; each becomes its name |
| Secrets.EnvValueEitherWay | crates/app/src/secrets.rs:55-78 | an environment reference resolves to what the legacy lookup of its name gives, whatever name is configured beside it |
| Secrets.ValueMeaning | crates/app/src/secrets.rs:55-297 | the value a setting has, for every kind of reference: variables named or spelled are looked up, other inline text counts trimmed, and the legacy variable is asked only without a reference or with a blank inline one |
| Secrets.SecretSetting.CanonicalizeEnvSecretReference | crates/app/src/secrets.rs:242-266 | rewrites both settings in place to the canonical pair, which resolves as before in every world |
| Advisory.MarkdownHeadingText | crates/app/src/advisory_prompt.rs:145-166 | the counting loop finds the text of a heading of one to six marks |
| Advisory.HeadingTextMeaning | crates/app/src/advisory_prompt.rs:145-166 | a heading is one to six marks, not followed by another, and behind them what trims to its text |
| Advisory.StripClosingMeaning | crates/app/src/advisory_prompt.rs:178-202 | a closing run of marks behind whitespace that follows text is dropped with the whitespace, and nothing else is |
| Advisory.GovernedMeaning | crates/app/src/advisory_prompt.rs:87-118 | a line is governed when the text of its heading, without a closing run and in lower case, is one of twelve names |
| Advisory.FirstMarkdownHeadingLineIndex | crates/app/src/advisory_prompt.rs:120-130 | the loop finds the first heading |
| Advisory.DemoteGovernedHeadingLine | crates/app/src/advisory_prompt.rs:87-118 | the early returns amount to demoting a governed heading that is not an allowed first heading |
| Advisory.DemoteGovernedHeadings | crates/app/src/advisory_prompt.rs:22-40 | the loop demotes line by line and joins |
| Advisory.DemotedLine | crates/app/src/advisory_prompt.rs:87-118 | a demoted line is the advisory prefix with the name of the heading, and no heading; every other line is kept |
| Advisory.DemotionSettles | crates/app/src/advisory_prompt.rs:22-40 | the line count is kept, and a governed heading is left only as the first heading of the text, under an allowed name, where it was |
| Advisory.DemotionIdempotent | crates/app/src/advisory_prompt.rs:22-40 | on the list of lines, demoting twice is demoting once |
| Advisory.RereadIsSettled | crates/app/src/advisory_prompt.rs:22-40 | the demoted text, split into lines again, holds no governed heading but possibly its first heading under an allowed name |
| Advisory.DemoteTwice | crates/app/src/advisory_prompt.rs:22-40 | on whole texts, demoting twice is demoting once if and only if every line but the last that ends in a carriage return is demoted and the text has at most one line or its last line is not empty |
| Advisory.TrailingFeedIsLost | crates/app/src/advisory_prompt.rs:22-40 | a concrete text that loses one line feed at each of two passes |

## Left out

- WrapWords.RenderWrappedTextLine: display width is the sum of per-character widths; sequences that a terminal draws narrower than their characters are not modelled.
- Stats.StatsInOrder: over the reals; rounding, infinities and NaN samples are not modelled.
- Schema.DescriptorIsShape: numbers are integers and the text form of a value is an injective parameter; the sort and deduplication of the local vector are functions on values.
- FtsQuery.BuildSearchFtsQuery: Unicode normalisation, word segmentation and the Han tokeniser are arbitrary functions.
- PackageGraph.BuildWorkspaceGraph: resolving paths on disk is not modelled, roots and dependency paths arrive resolved; direct packages are an input.
- SelfBudget.LoadRuntimeSelfModel: reading files and canonical path keys are inputs; the list of candidate locations is arbitrary.
- Secrets.CanonicalResolves: what a file or a program yields is an arbitrary function; process handling is not modelled.
- EventBus.OrderedPublication: relaxed-memory effects between the separate version counters are not modelled, each atomic operation is one step of a sequential interleaving.
- BusSubscriber.SubscriberSeesLog: about schedules in which nothing the subscriber waits for leaves the window before its page is read, which follows its subscription at once, or is dropped by the channel; a lag that drops anything else is included, and `BusSubscriber.LagCostsExactlyWhen` says what one costs.
- BusSubscriber.InStepExactlyWhen: under the same schedules; without a later event a subscriber behind a full page has not yet passed what it will miss.
- BusReader.ReaderSeesLog: about readers that only poll; those that also take live events from the channel are the subject of `BusSubscriber.SubscriberSeesLog`.
- EventBus.NoLostWakeup: the timeout of a wait is a step that may happen whenever the waiter finds nothing; durations are not modelled.
- 64-bit wrap-around of the counters for ids, events and versions is not modelled; only the saturating expiry is.
- Regular expressions are modelled for the constructs the compiler emits; the general matching engine is not.
- The broadcast channel of the turn registry is not modelled, it carries copies of recorded events.
- Pairing: loading requests and devices from storage, and the listing and counting views, are not modelled.
- The other recording wrappers of the event bus differ from the modelled one in lane and kind only.
- The list views over sessions, approvals and ACP sessions, apart from the background-task candidates, would only add easy members.
- TUI screens, banners and generated YAML and Markdown texts are presentation only.
