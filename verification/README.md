# The chat application's protocols and algorithms, modelled and proved

This project models the parts of the chat application that decide something over time or over all texts: the call
protocol, the cron engine, the rate limiter, the migration runner, the OIDC login flow, the shared token refresh of the
TypeScript API client, catch-up paging with its mobile client, the WebSocket room registry, outbox processing, money
texts, Prometheus labels and the key of a direct conversation.

A protocol is a state machine: `World` holds the stored rows, what every goroutine, task or request still has to do, and
a record of what happened; `Step` is one atomic action; `Run` takes any list of steps, so a theorem about `Run` holds for
every interleaving of any number of actors. A step that is not enabled changes nothing. Beside the machine stands a class
with the source's fields whose methods, with the source's branches and loops, are proved to do exactly some steps of the
machine (`world == Run(old(world), steps)`), or to compute a specification function about which the lemmas speak.

Files, from the shared one to the larger ones:

- `GoText.dfy`: 64-bit arithmetic, `strings`, `strconv` and `sort` as far as the modelled code calls them
- `Calls.dfy`, `CallSignals.dfy`, `CallService.dfy`: the call protocol
- `Calendar.dfy`, `CronField.dfy`, `CronGrammar.dfy`, `CronSchedule.dfy`, `CronCycle.dfy`, `CronTexts.dfy`: the cron
  engine
- `RateLimit.dfy`, `RateLimitBounds.dfy`, `RateLimitDelays.dfy`: the rate limiter, and its bounds for requests, in and out
  of lock order
- `Sync.dfy`, `SyncChanges.dfy`: catch-up paging, and paging while the table changes
- `Migrations.dfy`, `HttpClient.dfy`, `WebSocket.dfy`, `Outbox.dfy`
- `Oidc.dfy`, `OidcService.dfy`, `OidcLimits.dfy`: the OIDC login flow
- `Money.dfy`, `Metrics.dfy`, `DirectKey.dfy`

Some properties one would expect do not hold of the code for all inputs. For each there is the exact
condition or, where a bound is missed, the bound that is kept:

- A cron step near the largest 64-bit integer wraps the loop counter, so a field can hold values outside its bounds:
  exactly when `start + step` exceeds it (`CronGrammar.ValuesAreTheDenotedOnes`, `CronField.WrapHitsOtherValues`).
- The 366-day search can fail for an expression that has runs, such as 29 February. It never fails exactly when every
  366-day window of one 400-year cycle holds a match (`CronCycle.NeverFailsExactly`); with a free weekday, exactly when
  some selected month and day exists in every year (`CronSchedule.CutOffSufficesExactly`).
- Recorded migrations stay a prefix of the file list exactly when the paths sort as the bare versions do
  (`Migrations.PrefixExactlyWhenOrdersAgree`).
- A session can be issued more than twelve minutes after its login was started. The second time limit begins after the
  token exchange and ends before the account is resolved, so the time that the callback takes, and the time from
  consuming the completion code to issuing the session, come on top (`Oidc.SessionsMapToStarts`); twelve minutes are kept
  exactly when the two together take at most two microseconds (`Oidc.TwelveMinutesExactly`).
- The status check of a signal is as old as the read. A signal is stored for a call that is still accepted exactly when
  no hangup was committed in between (`CallSignals.SignalIsFreshExactly`), and no continuation stores one late exactly
  when nobody is left who could (`CallSignals.NoLateSignalExactly`).
- Cleanup of the rate limiter can be noticed when clock readings go back: exactly when some reading opens a window, a
  later sweep finds it over, and a still later reading falls into it again (`RateLimit.CleanupInvisibleExactly`).
- The clock is read before the lock is taken, so readings can be out of lock order, and then sixty seconds can admit more
  than twice the limit (`RateLimitDelays.TwiceTheLimitIsExceeded`). With delays of at most d, an interval of length L admits
  at most n times the limit when L + 60 s + d is at most n times 60 s - d (`RateLimitDelays.DelayedBound`): twice in
  60 s - 3d, and three times in any sixty seconds for delays of up to fifteen seconds (`RateLimitDelays.DelayedMinute`).
- A catch-up misses an event exactly when the event lands, by its `created_at`, before the client's cursor
  (`Sync.LateEventSeenExactly`). However the table changes between pages, the loop delivers an event exactly when it is
  there at the page whose span holds it (`SyncChanges.DrainUnderChanges`).
- After the cleanup job a device that sends no cursor resumes after the event it acknowledged exactly when that event is
  left or all before it are gone too; otherwise everything left is delivered again, for the foreign key has cleared the
  acknowledgement (`Sync.AckSurvivesCleanupExactly`). A client that sends its own cursor is told that there is nothing
  when that event is gone (`Sync.CleanupKeepsCursorExactly`, `Sync.LostCursorStalls`).
- Registering an id that is still live keeps the old client's rooms: private rooms stay private exactly when the id is in
  none but the new owner's (`WebSocket.RegisterKeepsIsolationExactly`).
- A user room can belong to two owners when their zones or users hold colons: nobody shares it exactly when it can be
  cut in one place only (`WebSocket.RoomIsUnsharedExactly`; `WebSocket.ColonsCollide` is a room of two owners).
- A published event can be claimed and handled again, by way of a slow worker's late failure: it is not, whatever the
  workers do, exactly when no worker still holds a claim on it or one more failure makes it dead
  (`Outbox.PublishedForGoodExactly`).
- The same users can get two direct conversations, for ids are compared as spelled: they do not exactly when no user is
  spelled in two ways (`DirectKey.SpellingsMatterExactly`).
- The least 64-bit amount is printed with two signs and is read back as 0 (`Money.RoundTripExactly`).

Small lemmas tie definitions that the theorems share to figures and known cases: day 0 is Monday 1 January of year 1 and
day 719162 Thursday 1 January 1970 (`Calendar.FirstDay`, `Calendar.UnixDay`), weekdays follow one another
(`Calendar.WeekdaysFollow`), white space is Unicode's (`GoText.SpacesAreWhiteSpace`), numbers are written in decimal
(`GoText.Decimal`), announcements that can be delivered are the ones sent (`CallService.SentExactly`), calls to handlers
and the repository go as their answers say (`Outbox.BatchHeedsAnswers`), and workers' steps, table changes, requests for
a conversation and the text of up to two labels are spelled out case by case (`Outbox.WorkerSteps`, `Sync.ChangedRows`,
`DirectKey.RequestsAreAnswered`, `Metrics.FewLabels`).

## Model

| member | source | states |
|---|---|---|
| Calls.StepKeepsInv | backend/internal/modules/calls/application/service.go:215-333 | every step of a status change, ring timer, expiry batch, announcement or signal, and a lost response or stopped process, keeps the invariant: legal history, only the goroutine that ended a call announces it, each announcement once, none lost unseen |
| Calls.HistoriesAreLegal | backend/internal/modules/calls/application/service.go:352-385 | in every interleaving a call's statuses are a prefix of ringing, accepted, ended or of ringing and one of rejected, cancelled, missed, and the last one is stored |
| Calls.TerminalStep | backend/internal/modules/calls/application/service.go:533-535 | no step changes a call that has ended |
| Calls.TerminalIsAbsorbing | backend/internal/modules/calls/infrastructure/postgres/repository.go:77-151 | once terminal, a call is the same after any continuation of any run |
| Calls.CommitDecidesOnStoredRow | backend/internal/modules/calls/application/service.go:216-234 | deciding on a stale read and comparing the status commits exactly when the decision on the row stored at that moment allows it, with the same new status |
| Calls.OnlyAllowedMoves | backend/internal/modules/calls/application/service.go:352-385 | a status changes only by a commit of the action for the new status, allowed to that actor from the stored status, or by an expiry from ringing to missed |
| Calls.CommitMovesExactly | backend/internal/modules/calls/application/service.go:216-385 | when a commit moves the stored row, for every action: accept and reject exactly for the target and cancel exactly for the initiator of a call read and stored as ringing, miss for a participant of one, hangup for a participant of one read and stored as accepted |
| Calls.StatusTellsAction | backend/internal/modules/calls/application/service.go:215-279 | in every run a status other than ringing was made by a step of that run: the commit of the one action for it from the one status before it, or for missed an expiry; no later step changed it |
| Calls.WhoMovesACall | backend/internal/modules/calls/application/service.go:352-385 | only the target accepts or rejects, only the initiator cancels, only a participant hangs up, and only a participant or an expiry of an old enough call makes it missed |
| Calls.AnnouncedAtMostOnce | backend/internal/modules/calls/application/service.go:235-238 | each call gets at most one call message and one terminal notice, both of its final state, and "completed" exactly for an accepted and ended call |
| Calls.EveryEndIsAnnounced | backend/internal/modules/calls/application/service.go:235-277 | if no write fails and nobody is half-way, an ended call has its message, and its notice, exactly when the goroutine that ended it did not give it up because the response of its update was lost or it was stopped |
| Calls.SignalsFollowAcceptance | backend/internal/modules/calls/application/service.go:281-322 | every stored signal was sent by a participant of a call that had been accepted, offers by the initiator, answers and readiness by the target |
| Calls.LateSignal | backend/internal/modules/calls/application/service.go:282-319 | whenever a signal passes its check there is a continuation that stores it after the call ended |
| CallSignals.SignalIsFreshExactly | backend/internal/modules/calls/application/service.go:282-319 | in every run, a signal whose check passed on the row read finds the call still accepted when it is stored exactly when no step between committed a hangup of that call |
| CallSignals.NoLateSignalExactly | backend/internal/modules/calls/application/service.go:281-333 | no continuation stores a signal of a call that is no longer accepted exactly when the call has ended and no passing check is pending, or there is nobody to accept it or to signal |
| Calls.ReadThenCommit | backend/internal/modules/calls/application/service.go:216-238 | what a read and its commit do when nothing comes between them |
| Calls.BatchMoves | backend/internal/modules/calls/infrastructure/postgres/repository.go:116-151 | a batch expiry moves exactly its rows and leaves its worker exactly those calls to announce |
| CallService.Service.ChangeStatus | backend/internal/modules/calls/application/service.go:215-245 | for every call, actor and action the new status or the error, the new row, and that its announcements follow exactly when the call ended; it is a run of the machine |
| CallService.Service.FireRingTimer | backend/internal/modules/calls/application/service.go:263-279 | moves the call to missed exactly when it still rings and is old enough, and announces only then |
| CallService.Service.ExpireUnanswered | backend/internal/modules/calls/application/service.go:247-261 | moves and announces, in order, exactly the calls of the batch, and counts them |
| CallService.Service.SendSignal | backend/internal/modules/calls/application/service.go:281-333 | stores a signal exactly of a known type, for an accepted call, from a participant in the role for it, and nothing else; which error there is otherwise |
| CallService.Service.AnnounceAll | backend/internal/modules/calls/application/service.go:255-259 | the worker's loop sends each announcement that gets through once and leaves nothing to announce |
| CallService.SentInOrder | backend/internal/modules/calls/application/service.go:255-258 | calls are announced in their order, each with its message before its notice |
| Calendar.YearOfBrackets | backend/internal/modules/cronjobs/application/schedule.go:31-38 | the year computed for a day is the one whose days it lies in |
| Calendar.YearIsUnique | backend/internal/modules/cronjobs/application/schedule.go:31-38 | no other year holds the day |
| Calendar.DateRoundTrip | backend/internal/modules/cronjobs/application/schedule.go:38-38 | year, month and day of the day made from a valid date are that date |
| Calendar.DayRoundTrip | backend/internal/modules/cronjobs/application/schedule.go:87-88 | every day has a valid date and is the day of that date |
| Calendar.MonthLengths | backend/internal/modules/cronjobs/application/schedule.go:87-88 | how many days each month has, in figures |
| CronField.Parse | backend/internal/modules/cronjobs/application/schedule.go:98-140 | the loop over the comma list computes the field, and fails, as the specification does |
| CronField.AddPart | backend/internal/modules/cronjobs/application/schedule.go:107-133 | one part adds the values of its range and step, or is rejected |
| CronField.AddSteps | backend/internal/modules/cronjobs/application/schedule.go:131-133 | the counting loop ends for every positive step, even when the counter wraps around |
| CronField.ParseRange | backend/internal/modules/cronjobs/application/schedule.go:142-169 | an accepted range lies within the bounds, low end first |
| CronField.StepFromIsProgression | backend/internal/modules/cronjobs/application/schedule.go:131-133 | without wrap-around the values are the arithmetic progression |
| CronField.StepFromWraps | backend/internal/modules/cronjobs/application/schedule.go:131-133 | with wrap-around a negative value gets in |
| CronField.WrapHitsOtherValues | backend/internal/modules/cronjobs/application/schedule.go:131-133 | a wrapped counter can come back inside the bounds at a value that was not written |
| CronGrammar.PrintedFieldParses | backend/internal/modules/cronjobs/application/schedule.go:98-180 | every comma list of star, number or range with an optional step within the bounds is accepted, with the values of its parts |
| CronGrammar.AcceptedFieldIsPrinted | backend/internal/modules/cronjobs/application/schedule.go:98-180 | every accepted text without blanks is the text of such a list |
| CronGrammar.ValuesAreTheDenotedOnes | backend/internal/modules/cronjobs/application/schedule.go:106-139 | the value set is nonempty; it is the union of the denoted progressions, and within the bounds, exactly when no counter wraps |
| CronGrammar.FoldIsModuloSeven | backend/internal/modules/cronjobs/application/schedule.go:76-79 | folding weekday 7 into 0 leaves exactly the image modulo 7 if and only if the field holds only 0 to 7, which is when no counter wrapped |
| CronSchedule.Search | backend/internal/modules/cronjobs/application/schedule.go:81-95 | the minute loop computes the bounded search |
| CronSchedule.NextOfFields | backend/internal/modules/cronjobs/application/schedule.go:51-95 | splitting, parsing, folding and searching compute the next run of the five fields |
| CronSchedule.SearchFindsLeast | backend/internal/modules/cronjobs/application/schedule.go:81-95 | the answer is the least minute strictly after the instant that matches all five fields, day and weekday both; there is an error exactly when no minute of 366 days matches |
| CronSchedule.NextRunIsLater | backend/internal/modules/cronjobs/application/schedule.go:20-96 | whatever the schedule, the next run comes after the instant and within 366 days |
| CronSchedule.SameAnswerUntilRun | backend/internal/modules/cronjobs/application/schedule.go:81-93 | every instant before the next run has the same next run |
| CronSchedule.RunsGrow | backend/internal/modules/cronjobs/application/schedule.go:81-93 | iterated runs grow strictly |
| CronSchedule.RunsSkipNothing | backend/internal/modules/cronjobs/application/schedule.go:81-95 | iterating lists exactly the matching minutes up to the last run, and stops early only where 366 days hold no match |
| CronSchedule.HourlyIsSearch | backend/internal/modules/cronjobs/application/schedule.go:27-28 | for every instant @hourly gives what `0 * * * *` gives |
| CronSchedule.DailyIsSearch | backend/internal/modules/cronjobs/application/schedule.go:29-31 | for every instant @daily gives what `0 0 * * *` gives |
| CronSchedule.WeeklyIsSearch | backend/internal/modules/cronjobs/application/schedule.go:32-39 | for every instant @weekly gives what `0 0 * * 1` gives |
| CronSchedule.ParsedFieldsUsable | backend/internal/modules/cronjobs/application/schedule.go:56-79 | every accepted expression has a value in the range of each field |
| CronSchedule.FoundWithinAYear | backend/internal/modules/cronjobs/application/schedule.go:82-95 | with a free weekday and a date that exists in every year the search never fails |
| CronSchedule.CutOffSufficesExactly | backend/internal/modules/cronjobs/application/schedule.go:82-95 | with a free weekday the search never fails, for any instant, exactly when some selected month and day exists in every year |
| CronSchedule.FoundWithinAWeek | backend/internal/modules/cronjobs/application/schedule.go:82-93 | with free day and month a run is found in under seven days from the first candidate |
| CronTexts.ParseFieldsExactly | backend/internal/modules/cronjobs/application/schedule.go:51-79 | words are accepted exactly when they are five, the texts of a minute, hour, day, month and weekday field in that order |
| CronTexts.NextRunOfText | backend/internal/modules/cronjobs/application/schedule.go:20-96 | the text of five fields, in any white space, runs next at the least later minute whose minute, hour, day, month and weekday are written in the first to the fifth field, 7 for Sunday too; an error exactly when 366 days hold none (no counter wraps) |
| CronTexts.YearlyRun | backend/internal/modules/cronjobs/application/schedule.go:20-96 | `n h d m *`, for a date that every year has, runs next at the first such date and time after the instant |
| CronTexts.EveryExactly | backend/internal/modules/cronjobs/application/schedule.go:43-49 | `@every` adds its duration exactly when it lies between ten seconds and 366 days, in nanoseconds; nothing but white space is an error |
| CronTexts.CaseDoesNotMatter | backend/internal/modules/cronjobs/application/schedule.go:21-21 | capitals in a schedule read like small letters |
| CronCycle.DayRepeats | backend/internal/modules/cronjobs/application/schedule.go:84-89 | month, day and weekday repeat after 146097 days |
| CronCycle.NeverFailsExactly | backend/internal/modules/cronjobs/application/schedule.go:81-95 | for any fields the search never fails, for any instant, exactly when every 366-day window that begins in one 400-year cycle holds a match |
| RateLimit.KeyTextInjective | backend/internal/shared/middleware/rate_limit.go:105-122 | user and address buckets never share a key text |
| RateLimit.BucketsOfRequest | backend/internal/shared/middleware/rate_limit.go:104-123 | the first bucket of a request, whose quota it is told, is its user's with the base limit, before its address with ten times it; an anonymous request, or one on a strict route, has its address with the base limit only |
| RateLimit.ChargedOnce | backend/internal/shared/middleware/rate_limit.go:86-89 | charging adds one to each bucket of the request and touches no other entry |
| RateLimit.AllOrNothing | backend/internal/shared/middleware/rate_limit.go:52-89 | a request is admitted exactly when every bucket has room; a rejected one charges none, an admitted one each once |
| RateLimit.WindowBound | backend/internal/shared/middleware/rate_limit.go:54-89 | while readings stay within the window a key has, in whatever order, no more requests that test the key against a limit are admitted than the limit leaves |
| RateLimit.SlidingBound | backend/internal/shared/middleware/rate_limit.go:38-89 | with clock readings in lock order any 60-second interval admits at most twice a limit of the requests that test a key against at most that limit |
| RateLimitBounds.TestsOfRequest | backend/internal/shared/middleware/rate_limit.go:104-124 | which requests are tested against the base limit of their address, against ten times it, and against their user's limit |
| RateLimitBounds.AddressWindowBound | backend/internal/shared/middleware/rate_limit.go:42-124 | within one window of an address, opened by an admitted request, in whatever order the clock was read: at most the base limit of the requests with only the address bucket are admitted, and at most ten times it of all |
| RateLimitBounds.SlidingBounds | backend/internal/shared/middleware/rate_limit.go:38-124 | with clock readings in lock order, any 60 seconds admit at most twice the limit of an address's requests with only its bucket, twenty times it of all from the address, and twice it of one user's |
| RateLimitDelays.OpensFarApart | backend/internal/shared/middleware/rate_limit.go:39-61 | with readings out of lock order by at most a delay, windows of a key open more than sixty seconds less the delay apart, swept or not |
| RateLimitDelays.DelayedBound | backend/internal/shared/middleware/rate_limit.go:39-89 | then an interval whose length, with one window and the delay, is at most n times sixty seconds less the delay admits at most n times the limit |
| RateLimitDelays.DelayedBounds | backend/internal/shared/middleware/rate_limit.go:39-124 | the same for the requests of an address with only its bucket, for all from the address, and for those of one user |
| RateLimitDelays.DelayedMinute | backend/internal/shared/middleware/rate_limit.go:39-124 | twice the limit in sixty seconds less three delays; three times in any sixty, for delays of up to fifteen seconds |
| RateLimitDelays.TwiceTheLimitIsExceeded | backend/internal/shared/middleware/rate_limit.go:39-50 | a run with one delay of 51 milliseconds in which a limit of 3 lets seven requests pass within sixty seconds |
| RateLimit.CountersStayBounded | backend/internal/shared/middleware/rate_limit.go:54-89 | whatever the clock does, a counter never exceeds the largest limit its key is tested against |
| RateLimit.CleanupIsInvisible | backend/internal/shared/middleware/rate_limit.go:43-50 | with clock readings in lock order the limiter decides as one that never deletes an entry |
| RateLimit.SweepLeavesLiveEntries | backend/internal/shared/middleware/rate_limit.go:43-50 | a request more than a window after the last sweep leaves no entry whose window is over |
| RateLimit.CleanupInvisibleExactly | backend/internal/shared/middleware/rate_limit.go:39-50 | every run with given clock readings decides as the limiter that never deletes exactly when no sweep drops a window, opened by an earlier reading, into which a later reading falls |
| RateLimit.CleanupVisibleWhenClockGoesBack | backend/internal/shared/middleware/rate_limit.go:39-50 | three requests with one reading that goes back, on which it decides otherwise |
| RateLimit.Limiter.Sweep | backend/internal/shared/middleware/rate_limit.go:43-50 | drops exactly the entries whose window is over, at most once a window, in any map order |
| RateLimit.Limiter.Inspect | backend/internal/shared/middleware/rate_limit.go:52-66 | the entries that the buckets are tested against, and the first full bucket if there is one |
| RateLimit.Limiter.Charge | backend/internal/shared/middleware/rate_limit.go:86-93 | stores every inspected entry with one more |
| RateLimit.Limiter.Admit | backend/internal/shared/middleware/rate_limit.go:42-94 | one request under the lock: the decision, the new state, what is left of its first bucket and when that window ends, or the limit of the first full bucket |
| RateLimit.Limiter.Serve | backend/internal/shared/middleware/rate_limit.go:38-153 | the middleware on a request, in figures: when it goes on, which key's quota it is told, that between 0 and one less than the limit is left, when the window of sixty seconds ends, and which limit a refused one is told |
| Migrations.Runner.RunUp | backend/internal/platform/database/migrate.go:27-70 | the loop over the files, stopped by an error at any transaction, computes Up |
| Migrations.Runner.RunDown | backend/internal/platform/database/migrate.go:73-127 | the loop over the newest versions, stopped by an error at any transaction, computes Down; a count that is not positive is an error and changes nothing |
| Migrations.VersionOfPath | backend/internal/platform/database/migrate.go:160-163 | the version read from a path is the one the path was made from |
| Migrations.PathOrderIsVersionOrder | backend/internal/platform/database/migrate.go:150-158 | two versions neither of which begins the other sort alike as paths |
| Migrations.PathOrderOfPrefix | backend/internal/platform/database/migrate.go:150-158 | when one version begins the other, the path order depends on how the suffix sorts against the rest |
| Migrations.OrdersCanDisagree | backend/internal/platform/database/migrate.go:84-89 | two versions that sort one way as versions and the other way as paths |
| Migrations.UpOrderIsVersionOrder | backend/internal/platform/database/migrate.go:150-163 | if no version begins another, Up goes through the versions in byte order, the order that Down reverses |
| Migrations.UpFrom | backend/internal/platform/database/migrate.go:41-67 | an Up that is stopped anywhere leaves a longer prefix recorded, and stops only at an error |
| Migrations.DownUndoesNewest | backend/internal/platform/database/migrate.go:84-125 | a Down that is stopped anywhere has undone the newest versions, as many as it got to |
| Migrations.EveryRunHolds | backend/internal/platform/database/migrate.go:27-127 | if down scripts undo up scripts, then after any commands, each stopped anywhere, the recorded versions are a prefix and the schema is their up scripts applied in order |
| Migrations.FilesStayInOrder | backend/internal/platform/database/migrate.go:27-163 | the same of the files of a directory in which no version begins another |
| Migrations.SuccessfulUpRecordsAll | backend/internal/platform/database/migrate.go:41-69 | a successful Up records every version, and one more changes nothing |
| Migrations.UpAppliesMissing | backend/internal/platform/database/migrate.go:41-69 | whatever is recorded, with holes or not, Up applies the missing versions in path order, each once, up to the error that stops it |
| Migrations.NewestExactly | backend/internal/platform/database/migrate.go:84-89 | Down picks the greatest recorded versions, the greatest first, as many as it asks for |
| Migrations.DownRemovesPicked | backend/internal/platform/database/migrate.go:108-125 | whatever is recorded, Down runs the down scripts of the picked versions in order and takes exactly those off the record, up to the error that stops it |
| Migrations.PrefixExactlyWhenOrdersAgree | backend/internal/platform/database/migrate.go:41-125 | every run leaves a prefix recorded exactly when the paths sort as the versions do |
| Migrations.InversionLeavesHole | backend/internal/platform/database/migrate.go:84-125 | where a later path has a smaller version, one Up and one Down leave a hole |
| Oidc.StepKeepsInv | backend/internal/modules/auth/application/oidc.go:229-431 | every step keeps each flow in one place, with rows that match its Start |
| Oidc.SessionsMapToStarts | backend/internal/modules/auth/application/oidc.go:278-431 | in every interleaving a session belongs to a Start with its provider, zone and domain, carries the claims verified in that flow's exchange, is issued at most twelve minutes, plus what Callback and Complete take, less two microseconds later, and shares its Start with no other session |
| Oidc.ExchangeMatchesAuthorization | backend/internal/modules/auth/application/oidc.go:263-340 | redirect URI, nonce, PKCE verifier and provider of every exchange are those the flow's authorization URL was built from (section 4.1.3 of RFC 6749, section 4.6 of RFC 7636), and a flow has one exchange |
| Oidc.SpentForGood | backend/internal/modules/auth/infrastructure/postgres/oidc.go:97-231 | a state or code that has been consumed is never accepted again |
| Oidc.TwelveMinutesExactly | backend/internal/modules/auth/application/oidc.go:308-431 | sessions are issued within twelve minutes of their Start exactly when Callback, between its clock readings, and Complete, from its reading to the session, together take at most two microseconds, the precision of the stored times |
| Oidc.SlowestIsReached | backend/internal/modules/auth/application/oidc.go:278-431 | the bound on the gap is reached, whatever Callback and Complete take |
| OidcService.Service.Start | backend/internal/modules/auth/application/oidc.go:229-298 | stores one state row, for ten minutes, if the provider resolves and the client secret, the authorization URL and the sealed verifier could be made, and nothing otherwise |
| OidcService.Service.Callback | backend/internal/modules/auth/application/oidc.go:300-377 | which of its endings a callback takes, exactly; the state is spent exactly if it was unexpired, and a result, for two minutes, is stored exactly with a redirect to its code; the verifier always decrypts |
| OidcService.Service.Complete | backend/internal/modules/auth/application/oidc.go:379-431 | issues a session exactly for an unspent code, unexpired when it is consumed, on its own domain, whose zone still resolves and whose claims are accepted |
| OidcLimits.StateLivesTenMinutes | backend/internal/modules/auth/application/oidc.go:276-377 | over any steps between a Start and a Callback with its state, the state is found, and a result stored, exactly less than 600,000,000 microseconds after the Start; from then on the Callback changes no table |
| OidcLimits.CodeLivesTwoMinutes | backend/internal/modules/auth/application/oidc.go:360-431 | over any steps between a Callback and a Complete with its code, the code is redeemed exactly on its own domain and less than 120,000,000 microseconds after it was stored |
| HttpClient.StepKeepsInv | frontend/packages/api-client/src/http-client.ts:144-312 | every event keeps the field on the one open refresh and each refresh with a request of its own |
| HttpClient.AtMostOneUnresolved | frontend/packages/api-client/src/http-client.ts:304-312 | in every order of events at most one refresh call is unresolved |
| HttpClient.SameOutcome | frontend/packages/api-client/src/http-client.ts:154-157 | requests that joined one refresh hear the same outcome, the one it settled to |
| HttpClient.AtMostTwoFetches | frontend/packages/api-client/src/http-client.ts:144-163 | a request makes at most two fetches, the second exactly after its refresh gave a token |
| HttpClient.RefreshesExactly | frontend/packages/api-client/src/http-client.ts:150-170 | a request joins a refresh exactly on a 401 to its first, authenticated fetch of a client that can refresh, and starts one exactly when none is open |
| HttpClient.JoinedAndSettledStay | frontend/packages/api-client/src/http-client.ts:304-312 | a request joins one refresh at most, and a settled outcome never changes |
| HttpClient.RefreshesCount | frontend/packages/api-client/src/http-client.ts:150-156 | there are no more refresh calls than authenticated requests that received 401 |
| HttpClient.NeverStuck | frontend/packages/api-client/src/http-client.ts:144-170 | while a request has not ended some event can happen |
| HttpClient.EventsRunOut | frontend/packages/api-client/src/http-client.ts:144-170 | once no request starts, every order of events ends within a bound read off the state |
| HttpClient.Client.OnAnswer | frontend/packages/api-client/src/http-client.ts:148-170 | what a response makes of its request, the shared refresh and the field, in every case, and of nothing else; it is one step of the machine |
| HttpClient.Client.OnFinally | frontend/packages/api-client/src/http-client.ts:306-308 | the finally callback clears the field of its own promise, never of another |
| HttpClient.Client.OnRefreshed | frontend/packages/api-client/src/http-client.ts:156-170 | a waiting request hears its refresh's outcome, fetches again exactly on a token, and ends with 401 or the rejection otherwise |
| Sync.PageSplits | backend/internal/modules/sync/application/service.go:87-126 | a page and what its cursor leaves are what there was to deliver; HasMore implies a cursor and a full page, and no HasMore means nothing is left |
| Sync.DrainIsExact | backend/internal/modules/sync/application/service.go:87-126 | paging until HasMore is false delivers exactly the events after the starting cursor, in order, with no gap or duplicate, while events are appended between pages; a loop cut short has delivered all but what its cursor leaves |
| Sync.QuietDrainFinishes | backend/internal/modules/sync/application/service.go:87-126 | while nothing is appended the loop stops within a bounded number of pages |
| SyncChanges.DrainUnderChanges | backend/internal/modules/sync/application/service.go:87-126 | under any changes of the table between pages, the loop delivers an event exactly when it is in the table at the page beyond whose cursor, still there, and not beyond whose next cursor it lies |
| SyncChanges.DrainStaysInOrder | backend/internal/modules/sync/infrastructure/postgres/repository.go:22-44 | and what it delivers is in order, each event once, beyond the starting cursor and not beyond the last |
| SyncChanges.SteadyEventsExactly | backend/internal/modules/sync/application/service.go:87-126 | an event that stays in the table is delivered exactly when the loop ends by itself with a cursor that is still there, or has passed it before |
| Sync.EventsGrow | backend/internal/modules/sync/infrastructure/postgres/repository.go:22-44 | appended events follow all that there was to deliver after a known cursor |
| Sync.EventsExactly | backend/internal/modules/sync/infrastructure/postgres/repository.go:22-44 | what there is to deliver is the workspace's rows that lie after the row of the cursor, all for an empty cursor, each once and in table order |
| Sync.LateEventSeenExactly | backend/internal/modules/sync/infrastructure/postgres/repository.go:22-44 | an event of the workspace that lands in the middle of the order is among what a client gets next exactly when it lands after its cursor |
| Sync.CleanupKeepsCursorExactly | backend/internal/modules/cronjobs/infrastructure/postgres/repository.go:233-244 | after rows are deleted a client that sends its own cursor gets the rest after it exactly when the cursor's row is left or nothing is |
| Sync.LostCursorStalls | backend/internal/modules/sync/infrastructure/postgres/repository.go:24-41 | a cursor that a client sends and whose event is gone gets an empty last page |
| Sync.OwnedCursorResumes | backend/internal/modules/sync/infrastructure/postgres/repository.go:59-103 | among a workspace's events a cursor of that workspace leaves exactly those after its event |
| Sync.AckResumesExactly | backend/internal/modules/sync/application/service.go:93-149 | after an acknowledgement the device's catch-up with an empty cursor resumes exactly after that event, however much was appended |
| Sync.AckSurvivesCleanupExactly | backend/db/migrations/000020_mobile_p0_contract.up.sql:50-61 | after an acknowledgement, a cleanup and more events, that catch-up resumes exactly after the acknowledged event, less deleted rows, if and only if the event is left or all the workspace's events before it are gone too; otherwise it delivers all that is left |
| Sync.AcksStayOwned | backend/db/migrations/000020_mobile_p0_contract.up.sql:50-61 | whatever is appended, lands, is acknowledged or deleted, a stored cursor names an event of its workspace that is there, so a device that sends no cursor is never stalled |
| Sync.Server.CatchUp | backend/internal/modules/sync/application/service.go:87-126 | the first events after the cursor that was sent, or else after the device's acknowledged one: as many as asked for between 1 and 200, or 100; HasMore exactly when there are more; the cursor of the last |
| Sync.Server.Ack | backend/internal/modules/sync/application/service.go:129-149 | stores the cursor exactly when device and cursor are given and the event belongs to the workspace |
| Sync.Phone.Execute | mobile/lib/features/sync/application/use_cases/workspace_sync_use_cases.dart:18-99 | the mobile client's loop collects what the paging specification says, ends with the cursor of its last event, and has acknowledged exactly that |
| WebSocket.NoEmptyRooms | backend/internal/platform/websocket/manager.go:39-114 | after any calls no room is empty and every member is registered |
| WebSocket.MemberExactly | backend/internal/platform/websocket/manager.go:39-114 | after any calls a client is in a room exactly when a Join of the registered client that the room is open to, or the registration of its owner, put it there and no later Leave or Unregister took it out |
| WebSocket.UserRoomIsNamed | backend/internal/platform/websocket/manager.go:95-102 | a user room is named after the zone and the user, whatever white space is around them, and a blank zone or user has none |
| WebSocket.PrivateRoomsStayPrivate | backend/internal/platform/websocket/manager.go:77-93 | if no live id is registered again, every member of a `zone:`...`:user:` room has it as its own room |
| WebSocket.RegisterKeepsIsolationExactly | backend/internal/platform/websocket/manager.go:50-56 | a registration, even of a live id, keeps that exactly when the id is in no private room but its new owner's |
| WebSocket.UserRoomIsInjective | backend/internal/platform/websocket/manager.go:95-102 | with colon-free zones two owners share a room exactly when their trimmed zones and users are equal |
| WebSocket.RoomIsUnsharedExactly | backend/internal/platform/websocket/manager.go:95-102 | no other owner has the same room exactly when the text after "zone:" can be cut at ":user:" into a nonblank trimmed zone and user in one place only |
| WebSocket.UserRoomIsPrivate | backend/internal/platform/websocket/manager.go:83-102 | a user room has the shape that Join guards |
| WebSocket.UserRoomHoldsItsUser | backend/internal/platform/websocket/manager.go:39-114 | if no live id was registered again, a user's room holds clients of that user and zone only, when the room can be cut in one place only or neither zone holds a colon |
| WebSocket.Manager.Register | backend/internal/platform/websocket/manager.go:39-58 | the registry and every membership afterwards, the default buffer, and the rejected empty id |
| WebSocket.Manager.Unregister | backend/internal/platform/websocket/manager.go:60-75 | the client is closed and out of every room, by a loop in any map order, and every other membership stays |
| WebSocket.Manager.Join | backend/internal/platform/websocket/manager.go:77-93 | a registered client is in the room afterwards unless the room is another user's, and every other membership stays |
| WebSocket.Manager.Leave | backend/internal/platform/websocket/manager.go:104-114 | the client is not in the room afterwards, the room goes with its last member, and every other membership stays |
| WebSocket.Manager.IsMember | backend/internal/platform/websocket/manager.go:116-121 | membership; a member is registered |
| WebSocket.Manager.IsUserMember | backend/internal/platform/websocket/manager.go:123-132 | whether some registered member has that user id |
| WebSocket.Manager.Broadcast | backend/internal/platform/websocket/manager.go:134-165 | each member with room in its buffer gets exactly one stamped copy, and nobody else anything |
| Outbox.PublishedOnlyAfterAll | backend/internal/modules/outbox/application/service.go:45-68 | over all runs an event is marked published only right after every handler and the publisher succeeded on it in that attempt |
| Outbox.StagesRunInOrder | backend/internal/modules/outbox/application/service.go:58-68 | at every moment a stage was called on an event no more often than the stage before it succeeded |
| Outbox.BatchMarksInOrder | backend/internal/modules/outbox/application/service.go:45-54 | a batch marks each of its events once, in order; a failing MarkPublished is its last call and what follows is neither handled nor marked |
| Outbox.AttemptExactly | backend/internal/modules/outbox/application/service.go:58-68 | an attempt calls the stages in order up to the first whose answer is a failure, and ends well exactly when none is |
| Outbox.RetryDelayExactly | backend/internal/modules/outbox/application/service.go:70-76 | of counts up to 614891468, thirty seconds a retry and at most five minutes exactly up to 307445733, and negative after that |
| Outbox.ClaimedBelowMaximum | backend/internal/modules/outbox/infrastructure/postgres/repository.go:20-83 | whatever workers did to a row, it can be claimed only while it has failed fewer than five times |
| Outbox.RowTellsItsLife | backend/internal/modules/outbox/infrastructure/postgres/repository.go:20-83 | over every life of a row: it counts its failures, its status tells what was done last, it is dead from the fifth failure on, and it can be claimed exactly while pending, processing or failed |
| Outbox.ClaimedDelay | backend/internal/modules/outbox/application/service.go:70-76 | so the delay of a claimed event is thirty seconds a try, thirty more than the last, and never more than two and a half minutes |
| Outbox.FailuresAreDelayed | backend/internal/modules/outbox/application/service.go:45-50 | over all runs on claimed events every recorded failure follows a failing call on that event and carries that delay |
| Outbox.PublishedForGoodExactly | backend/internal/modules/outbox/infrastructure/postgres/repository.go:20-83 | with any number of workers, a published event is never claimed again exactly when nobody holds a claim on it or one more failure makes it dead |
| Outbox.Service.Process | backend/internal/modules/outbox/application/service.go:37-56 | the loop makes the calls of the specification, whatever each answers, and returns the count, 0 on an error |
| Outbox.Service.ProcessEvent | backend/internal/modules/outbox/application/service.go:58-68 | handlers in order, then the publisher if there is one, up to the first error: which calls are made, with which answers |
| Money.RoundTripExactly | backend/internal/modules/order/application/service.go:1346-1363 | reading a printed amount without its " VND" gives it back exactly when it is not the least 64-bit integer, which reads as 0 |
| Money.SuffixMultiplies | backend/internal/modules/order/application/service.go:1346-1363 | a final k or m of either case multiplies the number before it by a thousand or a million, in 64 bits |
| Money.ReadsThroughSeparators | backend/internal/modules/order/application/service.go:1346-1363 | a number is read through white space around it and dots, commas and blanks anywhere in it |
| Money.ReadsSuffix | backend/internal/modules/order/application/service.go:1346-1363 | and so it is before a final k or m, which multiplies it in 64 bits |
| Money.NoNumberIsZero | backend/internal/modules/order/application/service.go:1346-1363 | a text that ends in no k or m and holds any other character is 0 |
| Money.GroupsOfAmount | backend/internal/modules/order/application/service.go:1852-1866 | dots cut the number into groups of digits, three in each but the first, which has one to three |
| Money.Format | backend/internal/modules/order/application/service.go:1852-1866 | the loop that cuts chunks off the end prints that text |
| Metrics.EscapeLabelIsOnePass | backend/internal/shared/middleware/metrics.go:183-188 | the three replacements, in their order, are one pass that escapes each character once |
| Metrics.EscapesEachCharacter | backend/internal/shared/middleware/metrics.go:183-188 | a backslash, a line feed and a quote become two characters each wherever they stand, and no other character changes |
| Metrics.UnescapeInvertsExactly | backend/internal/shared/middleware/metrics.go:183-188 | a quoted text is read as a value, by the text format's rules, exactly when it is the escaped value |
| Metrics.EscapeLabelIsQuotable | backend/internal/shared/middleware/metrics.go:183-188 | an escaped value has no raw line feed, and each quote follows an odd number of backslashes |
| Metrics.AnyOrderSameText | backend/internal/shared/middleware/metrics.go:165-181 | the label text is the same for every order of ranging over the map |
| Metrics.FormatLabels | backend/internal/shared/middleware/metrics.go:165-181 | the method, ranging in any order, gives the text that every order gives |
| Metrics.LabelsReadBack | backend/internal/shared/middleware/metrics.go:165-181 | a printed label set reads back as its pairs in order of their names |
| Metrics.LabelsTextIsInjective | backend/internal/shared/middleware/metrics.go:165-181 | two label sets print alike exactly when they are equal |
| DirectKey.NormalizeParticipants | backend/internal/modules/channels/application/service.go:627-640 | the loop and the sort give the increasing list of the trimmed nonblank ids with the actor |
| DirectKey.NamedIsTheSet | backend/internal/modules/channels/application/service.go:627-637 | an id is among the participants exactly when it is nonblank and some given id trims to it |
| DirectKey.ParticipantsExactly | backend/internal/modules/channels/application/service.go:501-637 | the participants are the actor and the given ids, trimmed, but for blank ones |
| DirectKey.CreateDirect | backend/internal/modules/channels/application/service.go:497-545 | each error exactly, the first participant in order that is no contact deciding; one_to_one exactly for two; the key is the canonical list joined by colons, and no id in it holds one |
| DirectKey.KeyIsTheSet | backend/internal/modules/channels/application/service.go:505-518 | with colon-free ids two keys are equal exactly when the participant sets are |
| DirectKey.OneConversationPerSet | backend/internal/modules/channels/infrastructure/postgres/repository.go:453-493 | after any requests two were given the same conversation exactly when workspace and participant set are equal |
| DirectKey.SpellingsMatterExactly | backend/internal/modules/channels/infrastructure/postgres/repository.go:552-567 | among requests with given ids, the same users in one workspace always get one conversation exactly when no user is spelled in two ways (no id holds a colon, and at least two users are named) |

## Left out

- SQL, HTTP handlers, DTO mapping, message texts and the UI: a query is the stated effect on its rows, in one step.
- Cryptography: hashing is taken as injective, random tokens as fresh, and decryption as inverse to encryption under the same additional data.
- Permission checks before a call, sync or channel operation; whether two users are contacts is a parameter.
- Realtime publishing after a status change or signal, its target user, and the incoming-call notification.
- Times are integers in nanoseconds; the monotonic part of Go's clock readings and the range of `time.Time` are not modelled.
- `strings.ToLower` changes only the letters whose lower case a schedule can use: the ASCII capitals, U+212A, U+0130 and U+039C. Any other capital is an error in a schedule before and after.
- `time.ParseDuration` of `@every` is a parameter.
- Calls: creating a call with a client id that exists already, the checks of its mode, metadata and channel, signal payloads, the duration in a call message, and which rows a batch picks; `CallService` methods run to completion, interleavings are in `Calls`.
- Rate limiter: a limit of zero or less, which installs no limiter; overflow of ten times the limit; the Retry-After header; verification of the access token.
- Migrations: reading script files (a failure is a stopped run) and database locales whose `ORDER BY` is not byte order.
- OIDC: validation of return and redirect addresses, provider listing, claim mapping and account provisioning (one flag says whether they accept), storing errors, and session tokens. Times are whole microseconds, as the database keeps them.
- HttpClient: bodies, headers, address building, response decoding and `onUnauthorized`; a refresh that itself waits for the shared refresh, which the application avoids by refreshing without authentication.
- Sync: ids that are no UUIDs, membership errors, failing page requests in the mobile loop, which end it with what it has, and its stored cursor's read errors.
- WebSocket: a broadcast is one atomic step with a live context; sending after the lock is released, while Unregister closes a channel, is not modelled, and Register is given a client whose channel is open.
- Outbox: which events a claim returns, the default batch size, and workers that interleave in one log; the log is that of one worker, while a row's life (`RunRow`) is under any number of them.
- Money: `compactSummary` and the other helpers of the order module.
- Metrics: counters, gauges and help texts; label names are taken to hold no equals sign, as the text format demands.
- Direct conversations: inserting members, and conversations that have been archived.
- CRUD services, zone lifecycle, webhook delivery and the script runners.
