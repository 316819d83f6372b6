# Keep It Up: verification model

Keep It Up is a shared countdown. Players *save* a game (push its deadline out by some seconds), *pause* it (freeze
the clock) and *resume* it; every move is a row in an append-only table, and the deadline is recomputed by replaying
the rows. Devices retry over bad networks, so every mutation may carry an idempotency key. This project models the two
stateful cores of the server and their composition, in Dafny, and proves what they promise.

**The deadline clock.** The write side is a trigger that looks at text timestamps and the last action only. The read
side is an independent state machine that replays the whole log and does the deadline arithmetic in 64-bit
nanoseconds. Proved: the two guards agree on every log, in both directions and for the same reason; every log that
concurrent players can produce replays without error; the time left is the time saved minus the time played; pauses
can be erased without changing the meaning of a log; a verdict decays at most once while playing, and exactly when a
pause freezes it; and exactly when the 64-bit replay equals the replay over unbounded integers.

**The idempotency protocol.** Any number of concurrent requests acquire a key, read its record or run their handler
and complete it, against a store whose keys expire, with arbitrary latency, failing calls (before or after they took
effect), aborted requests and late completes. Proved: two wins of a key are at least one effective TTL apart; wins and
re-creations balance expirations; a replayed response is exactly the recorded response of the last writer of the key;
it is the most recent execution's response in all runs if and only if completes land within one effective TTL; records
and store keys round-trip and never collide. The requests of the transition system are the game commands. `POST /login`
runs behind the same middleware, under anonymous keys, and is not one of them, so the replay theorems say nothing about
a login's response.

**The composition.** One transition system joins both. In every run in which all requests with one key are retries of
one save and try to acquire it within one TTL, at most one row of the table is theirs, so the deadline contains the
saved duration once or not at all; exactly once, if any try was told that it succeeded. One TTL is the exact bound:
for any longer one there is a run in which the deadline contains the duration twice.

## Layout

| files | contents |
|---|---|
| `Prelude`, `Text`, `GoTime`, `Timestamps` | options and results; text order and decimal numbers; 64-bit time arithmetic; calendar dates and RFC 3339 text |
| `DeadlineClock`, `ClockLaws`, `MachineBound` | the replay loop and its fold; laws over whole logs; when 64 bits suffice |
| `InteractionTable`, `Mapping`, `GuardEquivalence`, `Zones` | the guarded table and its orderings; rows to domain; trigger against replay, in one zone and in two |
| `GameCommands`, `DataFetching` | the commands and the reads |
| `IdempotencyRecord`, `IdempotencyStore`, `Middleware` | the record and its keys; the store and the response recorder; the middleware and the command handlers |
| `System`, `KeyLifetime`, `AtMostOnce`, `ReplayFidelity`, `History` | the transition system and what holds in all its runs |
| `Executions`, `Limits` | concrete pieces of runs; the exact reach of the two promises of an idempotency key |

Code that the program writes as a loop or as updates of an object is a method or a class here, proved against a
specification function; the laws are lemmas about those functions. `dafny verify dfyconfig.toml` checks everything.

## Assumptions

- A new row's id is one above the largest, so ids do not run out.
- In the transition system all stored timestamps share one zone offset of whole minutes. The server writes local time,
  and this is not a consequence of any table constraint. `Zones` says exactly what happens without it: the trigger
  compares local clock times and the replay compares instants, so one race of a second while the clock goes back an
  hour can make a game unreadable for good (`FallBackMakesUnreadable`).
- In the transition system clock readings are at least one second after Go's zero time and have four-digit local years.
  Nothing else is assumed about them: players' readings may disagree and run backwards. The command methods themselves
  take any reading in any zone. The idempotency store's own time never runs backwards.
- The address of a loop variable is that of the current round's variable (Go 1.22 and later; `go.mod:3` asks for 1.26),
  so optional values stand for the nullable fields of the shared data.
- A store key vanishes only by expiring, at any moment from its expiry instant on.
- The laws of `ClockLaws` are about the replay over unbounded integers. `MachineReplayExactIff` says exactly when the
  program's 64-bit replay is the same, for logs of at most 900 million rows.

## Where the code and its documentation part

The model follows the code. Each difference is stated with the exact condition under which the promise holds and with
inputs for which it does not.

- README.md:78 says that a retried save cannot be double-counted, and
  `internal/infrastructure/driver/httpadapter/idempotency.go:38-40` promises at-most-once execution; neither names a
  time limit. The promise holds in all runs if and only if the tries lie less than one effective TTL apart
  (`SavesCountOnceIff`). For every gap of at least that, a save tried again is inserted again and the deadline contains it twice
  (`RetryAfterExpiryCountsTwice`). Over a whole run, executions are at most one more than the key's expirations
  (`ExecutionAccounting`).
- A retry is told the most recent execution's response in all runs if and only if every Complete lands less than one
  effective TTL after its Acquire (`ReplaysAreLatestIff`). For every delay of at least that, a Complete overwrites the record of
  a newer, successful execution, and the client is told the older error although its save is in the table
  (`LateCompleteReplaysOlderExecution`).
- The middleware tells a retry 409 while the first request is running, rather than answering or executing it again. In
  all runs this holds under the same bound and no larger one (`RetriesAreHeldOffIff`); beyond it a retry can be told an
  older error while the request is still in its handler (`LateCompleteMisleadsRetry`).
- README.md:12 and README.md:124 say that a pause freezes the deadline. The verdict of `ComputeValid` is frozen if and
  only if the pause is strictly later than the last save or the deadline had already passed (`PauseFreezesVerdict`).
  With timestamps cut to whole seconds, a pause in the second of a save is an ordinary case, and it is not frozen
  (`PauseTieDoesNotFreeze`).
- The 64-bit deadline of a stored log is the intended one if and only if every saved duration is at most 9223372036
  seconds and every completed pause is below 2^63 nanoseconds; otherwise it is too early (`MachineReplayExactIff`). One
  second more turns into a deadline before the save itself (`OverflowingSave`).
- The trigger and the replay are meant as two guards of one order. In one zone they agree (`TriggerAgreesWithReplay`);
  across two zones the trigger compares local clock times and the replay instants (`TriggerComparesLocalTime`,
  `ReplayComparesInstants`), and a game can become unreadable (`FallBackMakesUnreadable`).
- A log that passes the order test of the replay is in order if and only if no row at Go's zero time is directly
  followed by an earlier one (`AcceptedLogIsSorted`). The log that defeats it (`ZeroTimeDefeatsOrderCheck`) reaches
  `BuildSharedData` only when that is called directly: the trigger refuses it (`TriggerRefusesDropFromZero`).

## Main results

- `TriggerAgreesWithReplay` and `EveryReachableLogReplays`: the write-side guard and the read-side replay agree, in
  both directions, and so in every run every game stays readable.
- `Conservation`, `PauseErasure`, `PauseFreezesVerdict`, `PlayingVerdictDecaysOnce`: the meaning of the deadline and of
  the verdict; `MachineReplayExactIff`, `MachineVerdict`, `MachineResume`, `MachinePauseErasure`: the same in 64 bits.
- `TtlSeparation`, `ExecutionAccounting`: how often a key is won and a handler entered, in every run.
- `SaveCountedAtMostOnce`, `ToldSaveCountedOnce`, `SavesCountOnceIff`: a retried save in the deadline, and the exact
  reach of that promise.
- `ReplaysLastWriter`, `ReplaysMostRecentExecution`, `RetryHeldOff`, `ReplaysAreLatestIff`, `RetriesAreHeldOffIff`: what
  a retry is told after and during the first request, and the exact reach.
- `AcceptedIffWellFormed`, `ReplayMeans`: the replayed state machine without a state machine.
- `HistoryIsReversedReplay`, `PagesSurviveTheRun`: the paged history against the replay and against later inserts.
- `MiddlewareIsARun`: the imperative middleware and command handlers are runs of the transition system.

## Model

| member | source | states |
|---|---|---|
| DeadlineClock.Step | internal/core/service/shared_data.go:49-119 | one round of the replay, whatever the interaction: if it is accepted, deadline and last save are present iff the game has started and the last pause iff it is paused; so the dereferences at 86 and 108 are never nil |
| ClockLaws.ReplayMeans | internal/core/service/shared_data.go:65-111 | the state of every accepted log, read off the log: status and pause instant from its last row, and the last save is the last saved row's instant, whatever was paused or resumed since |
| ClockLaws.AcceptedIffWellFormed | internal/core/service/shared_data.go:49-119 | a log is accepted if and only if every row is of the game, not before its predecessor, and an action that may follow its predecessor's; otherwise the error names the first row that is not and says which of the seven things is wrong with it |
| DeadlineClock.ReplayKeepsFailure | internal/core/service/shared_data.go:49-119 | the first failing interaction decides: an error of any prefix is the error of the whole log |
| DeadlineClock.BuildSharedData | internal/core/service/shared_data.go:35-123 | the loop computes the fold over the whole log in 64-bit arithmetic, with the same error or the same fields, and stores the verdict at `now` |
| DeadlineClock.ComputeValid | internal/core/service/shared_data.go:10-30 | writes only `valid`, with the specified verdict: none without a deadline, true under the paused exception, else the plain deadline test |
| ClockLaws.LastActionDecidesStatus | internal/core/service/shared_data.go:49-119 | an accepted log's status is decided by its last action; its previous instant and its pause instant are that row's |
| ClockLaws.InstantsInOrder | internal/core/service/shared_data.go:38-119 | for any list after the zero time, in the state after every accepted prefix: presence of the optional fields matches the status, and last save <= last pause <= latest interaction |
| ClockLaws.AcceptedLogIsSorted | internal/core/service/shared_data.go:57-63 | an accepted log has nondecreasing instants if and only if no row at the zero time is directly followed by an earlier one; so always after the zero time |
| ClockLaws.ZeroTimeDefeatsOrderCheck | internal/core/service/shared_data.go:57-63 | a log of whole seconds with a row at the zero time that the replay, called directly, accepts with a pause before its save |
| ClockLaws.SpanIsPlayPlusPause | internal/core/service/shared_data.go:65-111 | any log's span is exactly its play time plus its completed pauses |
| ClockLaws.Conservation | internal/core/service/shared_data.go:79-111 | deadline minus t is the total saved minus the play time up to t, for every t when playing and for the pause instant when paused; play time is defined on the log alone |
| ClockLaws.DeadlineFormula | internal/core/service/shared_data.go:79-111 | the deadline is the first save's instant plus total saved plus completed pauses, however the durations are distributed among saves |
| ClockLaws.PlayingVerdictDecaysOnce | internal/core/service/shared_data.go:10-29 | a playing game is valid exactly while play time is below total saved; with no new rows the verdict only goes from true to false |
| ClockLaws.PauseFreezesVerdict | internal/core/service/shared_data.go:16-29 | a paused verdict is the same at every later instant if and only if the pause is strictly after the last save or the deadline had already passed; strictly after, it says whether play time was left; at a tie it is the plain deadline test |
| ClockLaws.ResumeKeepsVerdict | internal/core/service/shared_data.go:101-111 | a resume, however late, starts from the verdict of the pause instant |
| ClockLaws.PauseTieDoesNotFreeze | internal/core/service/shared_data.go:18-27 | a pause in the second of its save is valid at first and invalid later, although still paused |
| ClockLaws.EraseInStep | internal/core/service/shared_data.go:65-111 | for every accepted log the replay of the erased log follows it, behind by exactly the completed pauses |
| ClockLaws.ErasedLogIsTheSaves | internal/core/service/shared_data.go:65-111 | erasing keeps exactly the saves, in order and unchanged but for their instants, with the same total saved and no pauses |
| ClockLaws.PauseErasure | internal/core/service/shared_data.go:65-111 | a log ending in playing and its save-only erasure replay to the same status, deadlines apart by exactly the paused time, and to the same verdict with `now` pulled back by it |
| GoTime.Add64Exact | internal/core/service/shared_data.go:82-108 | adding a duration to an instant is exact if and only if the sum's seconds fit in 64 bits |
| GoTime.Seconds64Error | internal/core/service/shared_data.go:79 | the wrapped product never exceeds the true one, and equals it iff the seconds are at most 9223372036 |
| MachineBound.AcceptanceIgnoresArithmetic | internal/core/service/shared_data.go:49-119 | 64-bit and unbounded replay accept the same logs, fail with the same error, and differ in the deadline only |
| MachineBound.MachineReplayExactIff | internal/core/service/shared_data.go:79-108 | the 64-bit replay equals the unbounded one iff every saved duration and every completed pause fits in 64 bits of nanoseconds; otherwise its deadline is too early |
| MachineBound.OverflowingSave | internal/core/service/shared_data.go:79-82 | at every instant up to year 9999, the smallest overflowing duration gives a deadline before the save |
| MachineBound.MachineDeadlineFormula | internal/core/service/shared_data.go:79-111 | the deadline formula for the 64-bit replay of a fitting log |
| MachineBound.MachineVerdict | internal/core/service/shared_data.go:10-30 | on a fitting log the verdict the program computes is "play time below total saved", up to now when playing and up to the pause when frozen; a pause in the second of the log's last saved row does not stop the clock |
| MachineBound.MachineResume | internal/core/service/shared_data.go:101-111 | the 64-bit replay of a fitting log resumes, however late, with the verdict of the pause instant, which a pause after the last save has kept |
| MachineBound.MachinePauseErasure | internal/core/service/shared_data.go:65-111 | pause erasure for the 64-bit replay of a fitting log, whose erasure is shown to fit too |
| MachineBound.StampedLogExact | internal/application/usecase/data_fetching.go:44-69 | logs read from the guarded table need no assumption beyond the fitting durations and pauses, for the replay and for the meaning of the verdict |
| Timestamps.CivilOfCorrect | internal/infrastructure/constant/constant.go:5 | the date of every day number, of either sign, is the one the textbook formula of the Gregorian calendar (365 days, leap days, 367/12 per month) gives that number, and lies in the month that contains the day |
| Timestamps.DayNumberClosed | internal/infrastructure/constant/constant.go:5 | counting years and months one by one is that formula |
| Timestamps.KnownTexts | internal/infrastructure/constant/constant.go:5 | Go's zero time in UTC and in a zone ahead of it, and a later time in a zone behind it, letter for letter; so are years and zones beyond the modelled range |
| Timestamps.WrittenIsLocalTime | internal/application/usecase/game_commands.go:57-62 | for every time and zone the text written for a command is that of a real date and time of day, whose distance from the zero time is the reading plus the zone |
| Timestamps.FourDigitYears | internal/infrastructure/constant/constant.go:5 | exactly which day numbers have a year of at most four digits |
| Timestamps.ParseIff | internal/infrastructure/database/mapping/interaction.go:15-21 | exactly which texts are read, and as which instant: a real date, a time of day and a zone |
| Timestamps.ParseFormat | internal/infrastructure/database/mapping/interaction.go:15-21 | parsing a formatted time gives it back truncated to the second, for every four-digit year and every whole-minute offset (section 5.6 of RFC 3339) |
| Timestamps.FormatOfStamp | internal/infrastructure/driver/httpadapter/handlers.go:222-234 | a stored stamp read and written again in its zone is the same text, so clients are shown the stored timestamps |
| Timestamps.WrittenIsFormat | internal/infrastructure/constant/constant.go:5 | the writer for any time and zone agrees, on four-digit years and whole-minute zones, with the one the theorems are about |
| Timestamps.FormatOrderIsLocal | database/migrations/20260815203118_initial.sql:59-63 | exactly what comparing two stored texts compares, whatever their offsets: local clock times, then the zone texts |
| Timestamps.FormatOrderIff | internal/infrastructure/constant/constant.go:5 | with one offset, stored texts compare as the seconds they were written from, and are equal iff those are |
| Timestamps.TextOrderIsInstantOrder | database/migrations/20260815203118_initial.sql:59-63 | the text comparison of the trigger and of ORDER BY is the instant comparison of the replay, and reading back is monotone (section 5.1 of RFC 3339) |
| Zones.TriggerComparesLocalTime | database/migrations/20260815203118_initial.sql:59-63 | of two saves written in any two zones, the trigger admits the second if and only if its local clock time, then its zone text, is not before the first |
| Zones.ReplayComparesInstants | internal/core/service/shared_data.go:57-63 | the replay accepts the same two if and only if the second instant is not before the first |
| Zones.UnreadableForGood | internal/core/service/shared_data.go:57-63 | two such rows whose instants run backwards make every later replay of the game fail, whatever is inserted after them |
| Zones.FallBackMakesUnreadable | database/migrations/20260815203118_initial.sql:59-63 | at every whole second, two readings a second apart on either side of a clock going back an hour, inserted the wrong way round: both admitted, and the game unreadable from then on |
| InteractionTable.Interactions.Insert | database/queries/commands.sql:1-33 | a refused insert changes nothing; an accepted one appends the given columns under the next id, is then the newest row of its game and the last of its player's, and leaves every other game's rows as they were |
| InteractionTable.ChecksDecide | database/migrations/20260815203118_initial.sql:31-45 | a row the trigger lets pass is stored if and only if it is a save with a positive duration, or a pause or a resume without one; a refusal of the trigger comes first |
| InteractionTable.AcceptedInsertIsNewest | database/migrations/20260815203118_initial.sql:55-88 | a row the trigger admits becomes the one its newest-row subquery finds next, and no other game's selection changes |
| InteractionTable.SelectedRows | database/queries/fetching.sql:9-27 | a row is selected if and only if it is stored and of the game, and for a player's history of that player |
| InteractionTable.SelectInPlace | database/queries/fetching.sql:9-41 | a row is selected in its place and once, exactly if it is of the game, or of the player in the game |
| InteractionTable.OrderAscSorts | database/queries/fetching.sql:16-20 | the ascending order is a sorted permutation of the rows |
| InteractionTable.DescIsReversedAsc | database/queries/fetching.sql:9-41 | newest first is oldest first read backwards, ties included |
| InteractionTable.OrderCommutesWithSelect | database/queries/fetching.sql:22-27 | filtering before or after ordering gives the same sequence |
| Mapping.ToDomainInteractions | internal/infrastructure/database/mapping/interaction.go:34-44 | every row in order with all its columns and its parsed timestamp, or the error of the first row whose timestamp is unreadable and no partial result |
| Mapping.StampedParses | internal/infrastructure/database/mapping/interaction.go:15-30 | a stored stamp parses to the written instant truncated to the second |
| Mapping.StampOrder | database/migrations/20260815203118_initial.sql:59-63 | stamps of one offset compare as text exactly as they compare as instants |
| Mapping.StampedRowsMap | internal/infrastructure/database/mapping/interaction.go:34-44 | rows with stamps of one offset always map, to their domain log |
| GuardEquivalence.LatestIsLast | database/migrations/20260815203118_initial.sql:67-69 | the trigger's newest row is the last row of the replay |
| GuardEquivalence.PrecedesIffBeforeLast | database/migrations/20260815203118_initial.sql:59-63 | some row of the game is later than the new one iff the last row of the replay is |
| GuardEquivalence.GuardAgreesWithStep | database/migrations/20260815203118_initial.sql:59-87 | in every replayed state the four guards refuse exactly what the next round of the replay refuses, for the same reason |
| GuardEquivalence.TriggerAgreesWithReplay | database/migrations/20260815203118_initial.sql:55-88 | for a log that replays and a row that meets the constraints, the trigger admits the row iff the log with it appended still replays, and each refusal is the replay's own error |
| GuardEquivalence.ReplayOrderIsInsertionOrder | database/queries/fetching.sql:16-20 | in a table that only guarded inserts built, the replay order of each game is its insertion order, and newest first is its reverse |
| GuardEquivalence.OrderIsInsertionOrder | database/queries/fetching.sql:9-41 | the same for the rows of a player in a game |
| GuardEquivalence.TriggerRefusesDropFromZero | database/migrations/20260815203118_initial.sql:59-63 | the trigger refuses the row that would defeat the replay's order test |
| GuardEquivalence.InsertAppendsToLog | database/queries/commands.sql:1-33 | an accepted insert appends to its own game's log and leaves every other game's log alone |
| GuardEquivalence.InsertKeepsTableOk | database/migrations/20260815203118_initial.sql:55-88 | every accepted insert keeps the table ordered and every game's log replayable |
| GuardEquivalence.FirstSaveAdmitted | database/migrations/20260815203118_initial.sql:55-88 | the empty table satisfies the invariant and admits any first save |
| GameCommands.Commands.SaveGame | internal/application/usecase/game_commands.go:35-69 | argument and clock errors in their order leave the table alone; otherwise one guarded insert, and if it is stored the new row is of this game and player, saved, with the duration and the reading's text, and joins both histories at the end; a database failure is told as such, whether the row is in or not |
| GameCommands.Commands.ResumeGame | internal/application/usecase/game_commands.go:71-100 | the same for a resume, stored without a duration |
| GameCommands.Commands.PauseGame | internal/application/usecase/game_commands.go:102-131 | the same for a pause, stored without a duration |
| GameCommands.CommandRefusedIffReplayBreaks | internal/application/usecase/game_commands.go:35-131 | a well-formed command is refused iff its row would break the replay, and the three domain errors name the replay's reason |
| DataFetching.GetSharedData | internal/application/usecase/data_fetching.go:44-69 | argument, read and clock errors in their order, then the first mapping or replay error, else the replayed clock with its verdict; on a table built by guarded inserts neither fails, the state is the one the log means, and on fitting logs deadline and verdict are about time saved, played and paused |
| DataFetching.ListPage | internal/application/usecase/data_fetching.go:71-142 | argument and read errors in their order, else exactly the mapped page of the newest-first history; at most `limit` interactions, each of the game, and of the player if one is given |
| DataFetching.PagesCoverOnce | database/queries/fetching.sql:9-14 | pages at successive offsets concatenate to the rest of the history, nothing lost or repeated |
| DataFetching.HistoryIsReversedReplay | database/queries/fetching.sql:9-41 | the paged history is the reverse of the replay order, first and last are its ends, and a player's history is the game's history filtered |
| DataFetching.PagesShiftWithInserts | database/queries/fetching.sql:9-27 | after k more rows in a game, or of a player in a game, the page of that history at offset + k is the page that was at offset |
| IdempotencyRecord.Base64RoundTrip | internal/infrastructure/driven/valkey_idempotency_store.go:76-88 | decoding an encoded body gives it back, for every byte sequence (sections 5 and 3.2 of RFC 4648) |
| IdempotencyRecord.GroupBits | internal/infrastructure/driven/valkey_idempotency_store.go:86-88 | the 24 bits of three bytes are, in order, the four numbers the encoding writes (section 5 of RFC 4648) |
| IdempotencyRecord.SextetsAreAlphabet | internal/infrastructure/driven/valkey_idempotency_store.go:86-88 | the alphabet by code points (table 2 of RFC 4648) |
| IdempotencyRecord.EncodedLength | internal/infrastructure/driven/valkey_idempotency_store.go:86-88 | the encoding is as long as it must be without padding (section 3.2 of RFC 4648) |
| IdempotencyRecord.LineBreaksIgnored | internal/infrastructure/driven/valkey_idempotency_store.go:76 | a line break anywhere in a stored body makes no difference to its reading |
| IdempotencyRecord.AtoiItoa | internal/infrastructure/driven/valkey_idempotency_store.go:72-87 | reading a printed code gives it back, for every 64-bit integer |
| IdempotencyRecord.AtoiReads | internal/infrastructure/driven/valkey_idempotency_store.go:72-75 | digits with or without a sign are read by their value if it fits in 64 bits |
| IdempotencyRecord.AtoiRefuses | internal/infrastructure/driven/valkey_idempotency_store.go:72-75 | and nothing else is read |
| IdempotencyRecord.RecordRoundTrip | internal/infrastructure/driven/valkey_idempotency_store.go:64-88 | what `State` reads of what `Complete` writes is the completed code and body, for every code and body |
| IdempotencyRecord.CompletedIff | internal/infrastructure/driven/valkey_idempotency_store.go:64-80 | exactly which stored texts are read as completed, and as which code and body |
| IdempotencyRecord.KnownRecords | internal/infrastructure/driven/valkey_idempotency_store.go:22-27 | a record letter for letter |
| IdempotencyRecord.RecordsNeverConfused | internal/infrastructure/driven/valkey_idempotency_store.go:64-71 | a record reads as in progress iff it is the in-progress text, which no completed record is |
| IdempotencyRecord.StoreKeyInjective | internal/infrastructure/driver/httpadapter/idempotency.go:97-105 | two requests share a store key iff they have the same actor and the same raw key, even with ':' inside raw keys |
| IdempotencyRecord.KnownKeys | internal/infrastructure/driver/httpadapter/idempotency.go:97-105 | a player's and an anonymous store key letter for letter |
| IdempotencyRecord.ValidKeyIff | internal/infrastructure/driver/httpadapter/idempotency.go:117-134 | a key is admitted if and only if it has 1 to 128 characters, each a letter, a digit or one of four signs |
| IdempotencyRecord.KnownKeyVerdicts | internal/infrastructure/driver/httpadapter/idempotency.go:117-134 | 128 characters are admitted and 129 are not; a key may use every class of characters, and no space or slash |
| IdempotencyStore.ValkeyIdempotencyStore.Acquire | internal/infrastructure/driven/valkey_idempotency_store.go:39-50 | writes in-progress with a fresh TTL iff the key is absent, and tells so unless the call failed, before or after taking effect |
| IdempotencyStore.ValkeyIdempotencyStore.State | internal/infrastructure/driven/valkey_idempotency_store.go:54-81 | an error exactly if the call failed; absent exactly for an absent key, in progress exactly for the in-progress text, and for a completed key exactly the code and body it was completed with |
| IdempotencyStore.ValkeyIdempotencyStore.Complete | internal/infrastructure/driven/valkey_idempotency_store.go:85-92 | overwrites the key's record and expiry, present or not, unless the call failed before taking effect |
| IdempotencyStore.WritesReadBack | internal/infrastructure/driven/valkey_idempotency_store.go:39-92 | a won Acquire is read as in progress, a lost one changes nothing, a Complete is read as its own code and body, and other keys are unaffected |
| IdempotencyStore.RecordingWriter.WriteHeader | internal/infrastructure/driver/httpadapter/idempotency.go:144-149 | passes the status on and keeps the recorder equal to its specification over all calls so far |
| IdempotencyStore.RecordingWriter.Write | internal/infrastructure/driver/httpadapter/idempotency.go:157-163 | passes the bytes on and keeps the recorder equal to its specification over all calls so far |
| IdempotencyStore.RecordingWriter.Recorded | internal/infrastructure/driver/httpadapter/idempotency.go:165-174 | the first status announced by all the calls, 200 if none, and the concatenation of all bytes written |
| IdempotencyStore.CallsAppend | internal/infrastructure/driver/httpadapter/idempotency.go:144-163 | a further call never changes an announced status, and appends exactly its bytes |
| KeyLifetime.CompleteKeepsKeys | internal/infrastructure/driven/valkey_idempotency_store.go:85-92 | a Complete, however late, removes no key and only moves expiries later |
| KeyLifetime.RunKeepsKeys | internal/infrastructure/driver/httpadapter/idempotency.go:55-95 | in every reachable state no entry outlives one TTL from now, and whoever won a key less than a TTL ago is still its last winner with the key present |
| KeyLifetime.TtlSeparation | internal/infrastructure/driven/valkey_idempotency_store.go:39-50 | in every run two successful Acquires of one key are at least the effective TTL apart |
| KeyLifetime.ExecutionAccounting | internal/infrastructure/driver/httpadapter/idempotency.go:58-92 | for every key and run, Acquires won plus re-creations by late Completes equal expirations plus one if the key is present; handler entries are at most one more than expirations |
| KeyLifetime.WonOncePerWindow | internal/infrastructure/driver/httpadapter/idempotency.go:58-79 | when all attempts fall within a span of at most one effective TTL, the key is won at most once |
| AtMostOnce.EveryReachableLogReplays | internal/application/usecase/game_commands.go:50-60 | in every run, with any clocks and any interleaving of clock readings and inserts, each game's replay order is its insertion order, all rows map, and the program's replay accepts them |
| AtMostOnce.RowsWithinExecutions | internal/infrastructure/driver/httpadapter/handlers.go:105-126 | rows appended for a key plus requests of the key still undecided are at most the handler entries |
| AtMostOnce.RowsPerKey | internal/infrastructure/driver/httpadapter/idempotency.go:55-95 | in every run the rows of a key are at most one more than its expirations, and at most one if all attempts fall within a span of at most one TTL |
| AtMostOnce.TableDeadline | internal/core/service/shared_data.go:79-111 | in every reachable table the deadline is first save, plus completed pauses, plus what the key's rows saved, plus what all other rows saved |
| AtMostOnce.SaveCountedAtMostOnce | README.md:78 | in every run whose requests under one key are retries of one save within a span of at most one TTL, at most one row is theirs and the deadline contains the duration once or not at all |
| Limits.SavesCountOnceIff | README.md:78 | for any bound on how far apart the tries of a save lie: in all runs they append at most one row if and only if the bound is at most one effective TTL |
| Limits.RetryAfterExpiryCountsTwice | internal/infrastructure/driver/httpadapter/idempotency.go:55-95 | for every configuration, save, valid key and gap of at least the TTL, a run of two tries with two rows and a deadline that contains the duration twice |
| ReplayFidelity.RunKeepsOutcomes | internal/infrastructure/driver/httpadapter/handlers.go:105-126 | in every run a request is answered 204 only if its own row was appended, and that row is in the table under its key |
| ReplayFidelity.RecordsAreLastWriters | internal/infrastructure/driven/valkey_idempotency_store.go:83-92 | in every run a present record is in progress or encodes the answer of the request that last wrote the key |
| ReplayFidelity.ReplaysLastWriter | internal/infrastructure/driver/httpadapter/idempotency.go:64-79 | in every run a replay is exactly the code and body answered by the key's last writer, and a replayed 204 means its row is in the table |
| ReplayFidelity.SuccessHasRow | internal/infrastructure/driver/httpadapter/handlers.go:105-126 | in every run, whoever was told 204, by the handler or by a replay, a row of its key is in the table |
| ReplayFidelity.ToldSaveCountedOnce | README.md:78 | a retried save of which any try was told 204, within a span of at most one TTL, is in the deadline exactly once |
| ReplayFidelity.TimelyWriterIsWinner | internal/infrastructure/driver/httpadapter/idempotency.go:88-92 | when every Complete lands within a bound of at most one TTL after its own Acquire, the last writer of a key is its last winner |
| ReplayFidelity.ReplaysMostRecentExecution | internal/infrastructure/driver/httpadapter/idempotency.go:64-92 | then a replay is exactly the answer of the most recent execution, the request of the last successful Acquire |
| ReplayFidelity.RetryHeldOffIff | internal/infrastructure/driver/httpadapter/idempotency.go:64-75 | while a key's winner is in its handler, less than a TTL after its Acquire, a retry is told 409 and does not run if and only if the last write to the key was that winner's Acquire |
| ReplayFidelity.RetryHeldOff | internal/infrastructure/driver/httpadapter/idempotency.go:64-75 | so whenever every Complete lands within the TTL of its Acquire |
| Limits.LateCompleteReplaysOlderExecution | internal/infrastructure/driver/httpadapter/idempotency.go:84-92 | for every configuration, delay of at least the TTL and error with a body, a run in which a retry saved and was told 204, and further retries are told the older error |
| Limits.ReplaysAreLatestIff | internal/infrastructure/driver/httpadapter/idempotency.go:64-92 | for any bound on how late a Complete lands: in all runs every replay is the most recent execution's answer if and only if the bound is at most one effective TTL |
| Limits.RetriesAreHeldOffIff | internal/infrastructure/driver/httpadapter/idempotency.go:64-75 | for any bound on how late a Complete lands: in all runs retries of a running request are told 409 if and only if the bound is at most one effective TTL |
| Limits.LateCompleteMisleadsRetry | internal/infrastructure/driver/httpadapter/idempotency.go:84-92 | for every configuration and delay of at least the TTL, a run in which a retry is still in its handler and a third try is told the older error instead of 409 |
| Middleware.HTTPAdapter.Idempotency | internal/infrastructure/driver/httpadapter/idempotency.go:41-95 | around a command handler: it runs without a store or a key, or if the key was free; a malformed key is told 400 and a failing store 500; a taken key is left alone and told 409 in progress, its own code and body completed, 500 for anything else; the winner's answer is recorded with a fresh TTL, and is 204 iff its row was stored and acknowledged |
| Middleware.HandleCommand | internal/infrastructure/driver/httpadapter/handlers.go:105-156 | denied or unreadable requests insert nothing; otherwise 204 iff the command's row was appended and its insert's reply was not lost; a refused insert is told 409 iff the state machine refused it and 500 iff the order check did; 500 for the rest; the status is written first |
| Middleware.ServedAloneIsARun | internal/infrastructure/driver/httpadapter/idempotency.go:41-95 | one request served from start to end, with any latency, inserting or not, is a run of the transition system with the same store, the same table and the same reply |
| Middleware.MiddlewareIsARun | internal/infrastructure/driver/httpadapter/idempotency.go:41-95 | the middleware around a command handler, as its method is specified, is such a run: for every call, key, latency and failure of store or database, with the same store, table and reply |
| History.RunExtendsRows | database/queries/commands.sql:1-33 | in every run the table only grows, at its end |
| History.PagesSurviveTheRun | database/queries/fetching.sql:9-27 | a page of a game's or a player's history read early in a run is found again later, further down by exactly the rows that history has gained |

## Left out

- Timestamps.Parse: does not accept the lenient forms Go also reads (a fraction of a second, a one-digit hour), which
  the program never writes; `ParseIff` says exactly what it accepts.
- Timestamps.Format: the theorems are about four-digit years and whole-minute zones; `Written` covers the rest for the
  commands only.
- MachineBound.MachineReplayExactIff: speaks of logs of at most 900 million rows with storable values.
- AtMostOnce.SaveCountedAtMostOnce: safety only; nothing says that a retry ever succeeds. A failed handler or a failed
  Complete leaves the key in progress until it expires, by design.
- Middleware.HTTPAdapter.Idempotency: the wrapped handlers are the three command handlers; the login handler, the JSON
  of the middleware's own errors, and the headers and cookies of a replayed response are not modelled.
- Middleware.HandleCommand: the JSON of an error is an arbitrary body; finding the game in the query, checking access
  and decoding a save's body appear as inputs.
- The constraint `valid_occurred_at_iso` (database/migrations/20260815203118_initial.sql:38-39): its effect depends on
  the SQLite engine's `strftime`. An insert that fails for it looks like any other denied insert.
- Rows are never updated or deleted; foreign keys, cascade deletes and cascading reads of games and players are absent.
- The wording of database errors, which the commands recognise by substring and the model by constructor.
- Eviction, restart and replication of the idempotency store.
- The other fields of the transfer objects of `handlers.go`, which are copied one by one.
- HTTP and routing, tokens, cookies, password hashing, the command-line adapter, configuration reading, and player,
  game and access management: libraries, plumbing, or easy members.
