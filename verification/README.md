# Verified model of the Helpers Platform core

This Dafny project models the parts of the Helpers Platform that carry logic of their own, and
proves what they keep over whole runs, under any interleaving the source allows. Where a file of
the source updates state step by step, a class with the same fields and methods does so here and is
proved against functions on values; the properties of every run are proved about those functions.

| file | models |
|---|---|
| `CircuitBreaker.dfy`, `BreakerRuns.dfy` | the circuit breaker, and all interleavings of overlapping calls on one breaker |
| `HttpClient.dfy`, `ClientRuns.dfy` | the retry loop through the breaker, and overlapping requests of one client |
| `RateLimiter.dfy`, `LimiterFleet.dfy`, `RedisKeys.dfy` | the fixed-window limiter, all bots and replicas on one Redis, and the Redis keys |
| `Dispatcher.dfy`, `DispatchHistory.dfy`, `Schedule.dfy`, `DispatchSchedule.dfy`, `Calendar.dfy` | task notifications: one run, histories of runs, the beat schedule, histories on that schedule, the calendar |
| `Membership.dfy` | the cached channel-membership check with overlapping misses |
| `KeyList.dfy`, `KeyRing.dfy` | the comma-separated settings, Fernet encryption and key rotation |
| `Middleware.dfy` | error accounting, throttling and the database session around a handler |
| `Wrappers.dfy`, `Arithmetic.dfy` | `Option`, `Result` and `History`; repeated sums, quotients and remainders, decimal digits |

Conventions. What the source cannot know is an argument: clock readings, replies of the network, of
Redis and of Telegram, whether a send, a flush or a commit succeeds, and the order in which the
database lists rows. Exceptions are `Result`, `Option` or outcome values. A `History` is a run of
atomic steps, latest last; a step is what the source does between two awaits. Breaker times are real
numbers (`time.monotonic()`), Redis times are milliseconds. Redis keeps a key until its expiry, drops
it after, and may do either at that very instant; nothing is evicted. tenacity is: try, retry the listed
exceptions up to the limit, re-raise the last one. SQLAlchemy 2 rolls the
transaction of a session back when a flush of it fails, expires the rows it loaded, and raises on every
later use, the commit included, until the session itself is rolled back. A Fernet token is its key,
timestamp, nonce and plaintext, and decrypts exactly under its key.

## Where the code and its documentation differ

- `circuit_breaker.py:12` promises a single probe while half open. The code admits every caller until
  one returns or raises, so overlapping calls break the promise, and so does a cancelled probe without
  any overlap: `BreakerRuns.SingleProbeExactlyWhen`; `BreakerRuns.ProbesBound` says how many it can be.
- `repositories.py:116-119` says hour and minute are compared. The code compares the whole time, so a
  task with seconds is never notified: `DispatchSchedule.OneMessagePerDay`.
- `settings.py:101` means to guarantee a key. A value of white space and commas passes and yields none:
  `KeyList.ValidatorExactlyWhen`.
- `crypto.py:12-14` says rotation converges by itself. It has converged exactly when every row was
  written or rotated since: `KeyRing.FreshKeyConvergedExactlyWhen`.
- `throttler.py:1` calls the limiter sliding-window. It is a fixed window, a sliding one exactly for a
  limit of 1 (`RateLimiter.SlidingWindowExactlyWhen`), and nearly twice the limit passes within one
  window length: `RateLimiter.SlidingBoundIsAttained`.
- `throttling.py:3-6` promises throttling per user. `bootstrap.py:77-80` registers the middleware for the
  event of aiogram's `dispatcher.update`, the `Update` itself, which has no `from_user`; `throttling.py:59-61`
  then finds no user, and every update passes: `Middleware.UnidentifiedUpdatesPass`.

## Model

| member | source | states |
|---|---|---|
| CircuitBreaker.Breaker.Create | src/helpers_core/http/circuit_breaker.py:56-72 | non-positive parameters are rejected, threshold first; otherwise a fresh closed breaker |
| CircuitBreaker.Breaker.OnSuccess | src/helpers_core/http/circuit_breaker.py:82-84 | a success resets failures, opening time and state, whatever the state was |
| CircuitBreaker.Breaker.OnFailure | src/helpers_core/http/circuit_breaker.py:86-91 | a failure counts, and from the threshold on opens the breaker now |
| CircuitBreaker.Breaker.Precheck | src/helpers_core/http/circuit_breaker.py:93-101 | refuses exactly when open for less than the reset timeout; otherwise an open breaker turns half open |
| CircuitBreaker.Breaker.Call | src/helpers_core/http/circuit_breaker.py:103-117 | a refused call changes nothing; a cancelled one is seen neither as success nor as failure |
| BreakerRuns.StateIsAFunctionOfTheLog | src/helpers_core/http/circuit_breaker.py:82-101 | in every reachable interleaved state the three fields are read off the log: failures since the last success, time of the latest failure, admissions since it |
| BreakerRuns.RefusedExactlyWhen | src/helpers_core/http/circuit_breaker.py:93-101 | a call is refused if and only if the logged failures reached the threshold, the latest is younger than the reset timeout and nothing was admitted since |
| BreakerRuns.NeverWedges | src/helpers_core/http/circuit_breaker.py:93-117 | from every reachable state, cancelled probes included, a call is admitted once all failures are a reset timeout old |
| BreakerRuns.RefusedCallsStutter | src/helpers_core/http/circuit_breaker.py:93-101 | erasing the refused calls of any run changes no later state, admission or completion |
| BreakerRuns.OutageKeepsInvariant | src/helpers_core/http/circuit_breaker.py:86-117 | what every step of an outage keeps: reopenings lie a reset timeout apart and each admits at most the calls that fit in flight, plus cancelled ones |
| BreakerRuns.OutageLoadBound | src/helpers_core/http/circuit_breaker.py:86-117 | with at most n calls in flight and none succeeding, the coroutine is invoked within t at most threshold - 1 + n + n * floor(t / reset timeout) times, plus once per cancellation |
| BreakerRuns.OutageLoadBoundIsAttained | src/helpers_core/http/circuit_breaker.py:86-117 | for every n, every number of cancellations and every number of reset timeouts some run attains that bound |
| BreakerRuns.SingleProbeExactlyWhen | src/helpers_core/http/circuit_breaker.py:8-13 | the documented single probe per half-open period holds in all runs with at most n calls in flight if and only if n is 0, or n is 1 and no call is cancelled |
| BreakerRuns.ProbesBound | src/helpers_core/http/circuit_breaker.py:93-117 | in any interleaving a half-open period has admitted at most the calls still in flight plus those cancelled in it |
| BreakerRuns.TwoProbes | src/helpers_core/http/circuit_breaker.py:93-101 | a run with two calls in flight and no cancellation that admits two probes in one half-open period |
| BreakerRuns.ProbeAfterCancellation | src/helpers_core/http/circuit_breaker.py:110-117 | a run without overlapping calls in which a cancelled probe is followed by a second one in the same half-open period |
| HttpClient.Client.DoCall | src/helpers_core/http/client.py:184-212 | what each reply of the session becomes, the request counter by method and status, and a gauge left as it was on every path |
| HttpClient.Client.Request | src/helpers_core/http/client.py:162-235 | the loop's outcome, number of network calls, breaker state and counters; an unstarted client fails without a call |
| HttpClient.RequestRefinesRetryRule | src/helpers_core/http/client.py:214-231 | the outcome is that of the first attempt not to be retried, or of the last one allowed, unless the breaker refuses one first |
| HttpClient.ExactlyOneAttemptEnds | src/helpers_core/http/client.py:216-225 | whatever the replies, exactly one attempt ends the request |
| HttpClient.RequestGuarantees | src/helpers_core/http/client.py:94-99 | an idempotent method never returns a transient status; any other method makes at most one network call |
| HttpClient.RequestOnClosedBreaker | src/helpers_core/http/client.py:214-231 | starting closed at f failures, a request that fits under the threshold or pauses less than the reset timeout makes exactly min(n, threshold - f) calls, and ends as the retry rule says exactly when n fit, with CircuitBreakerOpen otherwise; the failure counter afterwards is exact, and the breaker is open exactly when it reached the threshold |
| HttpClient.RequestOnAnyBreaker | src/helpers_core/http/client.py:214-231 | the same from any state the breaker can be in: exactly min(n, room) calls, where room is threshold - f when closed, one probe when the first attempt is admitted otherwise, and none when it is refused; outcome, failure counter and final phase follow |
| HttpClient.IdempotentExactlyWhen | src/helpers_core/http/client.py:97-99 | GET, HEAD, OPTIONS, PUT and DELETE, in any case, are retried and no other method is |
| HttpClient.IdempotentRequest | src/helpers_core/http/client.py:184-231 | after n - 1 replies that are a connection fault, a timeout or one of 408, 425, 429, 500, 502, 503, 504, an idempotent request makes its n-th call and returns its response of any other status, clearing the breaker; any other last reply is raised as its own exception, and every call but a cancelled one counts as a failure |
| HttpClient.OtherRequest | src/helpers_core/http/client.py:206-217 | any other method is called once and every status is its answer |
| HttpClient.SeriesCountResponses | src/helpers_core/http/client.py:201-205 | each counter series grows by exactly the responses with its method in capitals and its status |
| HttpClient.TransientFailuresOnly | src/helpers_core/http/client.py:214-231 | with only transient replies, whatever max_retries, and the reset timeout above the backoff cap: min(attempts, threshold - f) calls, the last reply's own exception or CircuitBreakerOpen, and the breaker is open afterwards exactly when the attempts reach the threshold |
| ClientRuns.EveryInterleaving | src/helpers_core/http/client.py:184-231 | for overlapping requests the in-flight gauge is the number inside the session, the breaker run has exactly the open requests in flight, and every request makes exactly the attempts the retry rule asks for on its own replies: it finishes with the outcome of the reply that ends the rule, or, before that, refused by the breaker or cancelled |
| ClientRuns.JobsAsSubmitted | src/helpers_core/http/client.py:181-182 | the requests of the interleaved machine are the submitted ones, each retryable as submitted |
| ClientRuns.BodyIsReadInsideTheBreaker | src/helpers_core/http/client.py:198-212 | a retried status leaves the gauge at once but is a failure of the breaker only after its body is read; any other response ends the attempt as a success |
| ClientRuns.ClientOutageLoad | src/helpers_core/http/client.py:228-231 | during an outage all overlapping requests with all their retries stay within the breaker's load bound |
| ClientRuns.AloneIsTheRetryLoop | src/helpers_core/http/client.py:214-231 | a request left alone in the interleaved machine ends with the outcome, calls and breaker of the sequential loop |
| RateLimiter.Redis.Incr | src/helpers_core/cache/throttler.py:22-23 | INCR on a live key keeps its expiry, on a lapsed or missing one starts at 1 without expiry |
| RateLimiter.Redis.PExpire | src/helpers_core/cache/throttler.py:24-26 | PEXPIRE sets the expiry of an existing key and touches nothing else |
| RateLimiter.RedisRateLimiter.Create | src/helpers_core/cache/throttler.py:56-73 | non-positive limit or window is rejected; the window is kept in milliseconds |
| RateLimiter.RedisRateLimiter.Hit | src/helpers_core/cache/throttler.py:75-83 | runs the script on the prefixed key alone and decides by its count |
| RateLimiter.CellIsTheAnchor | src/helpers_core/cache/throttler.py:22-28 | counter and expiry are those of the window anchored at its own first hit, so exactly its first `limit` hits are allowed and a denied hit never moves the expiry |
| RateLimiter.DecisionIsTheRank | src/helpers_core/cache/throttler.py:75-83 | the caller is told the hit's rank in its window, the limit, and whether the rank is within it |
| RateLimiter.ExpiryWithinWindow | src/helpers_core/cache/throttler.py:22-28 | every stored counter expires at most one window ahead, and the next hit after that is allowed however many were denied |
| RateLimiter.SlidingBound | src/helpers_core/cache/throttler.py:22-28 | no half-open interval of m windows contains more than (m + 1) * limit - 1 allowed hits |
| RateLimiter.SlidingBoundIsAttained | src/helpers_core/cache/throttler.py:7-13 | for every m some hits attain that bound, and below the window length even without a hit at an expiry instant |
| RateLimiter.SlidingWindowExactlyWhen | src/helpers_core/cache/throttler.py:1-13 | every interval of one window length has at most `limit` allowed hits if and only if the limit is 1 |
| LimiterFleet.UsersAreIndependent | src/helpers_core/telegram/bootstrap.py:70-75 | in any interleaving of all bots and replicas, a user's key holds exactly what that user's hits alone would leave there |
| LimiterFleet.StoreHoldsOnlyLiveWindows | src/helpers_core/cache/throttler.py:75-83 | every stored key is some user's, and expires within that bot's window |
| LimiterFleet.FleetSlidingBound | src/helpers_core/telegram/middlewares/throttling.py:3-6 | the sliding bound holds per user of a bot on the shared store, whatever the number of replicas |
| RedisKeys.LimiterKeyIsInjective | src/helpers_core/telegram/middlewares/throttling.py:47 | distinct (bot, user) pairs never share a limiter key, for all bot names |
| RedisKeys.MembershipKeyIsInjective | src/helpers_core/telegram/subs_check.py:48 | distinct (chat, user) pairs never share a cache key |
| Dispatcher.Session.ListDue | src/helpers_core/domain/repositories.py:115-126 | lists exactly the active tasks with exactly this time, each once, in any order |
| Dispatcher.Session.Deactivate | src/helpers_core/domain/repositories.py:128-132 | marks an existing task inactive and nothing else; an unknown id is ignored; a failed flush undoes the whole transaction and breaks the session |
| Dispatcher.Session.Commit | src/helpers_core/db/session.py:85-94 | what the session sees becomes the committed table, unless the commit raises, as it does after a failed flush |
| Dispatcher.Deliver | src/worker/runtime.py:52-66 | a failed send changes nothing, a one-time task whose message went out is deactivated or breaks the session, and the send counts either way |
| Dispatcher.AbortsExactlyWhen | src/worker/runtime.py:85-98 | a run meets data it cannot read exactly in a due weekly task with an unreadable day_of_week or a due monthly one with an unreadable day_of_month |
| Dispatcher.NotifyAll | src/worker/runtime.py:49-66 | tasks have their turn in listing order until one has unreadable data or a deactivation breaks the session |
| Dispatcher.MessagesAreTheDelivered | src/worker/runtime.py:49-66 | a listed task gets one message or none, by its own turn only, whatever the order and the other tasks' failures |
| Dispatcher.ViewRetiresTheDelivered | src/worker/runtime.py:62-64 | after all turns exactly the delivered one-time tasks are inactive |
| Dispatcher.Dispatch | src/worker/runtime.py:28-69 | the run fails exactly when a due task is unreadable, a deactivation fails to flush or the commit fails, then nothing is committed; otherwise every due, matching, deliverable task is sent once, the count is that of the messages, and the table changes exactly for retired tasks |
| DispatchHistory.DispatchOnce | src/helpers_core/db/session.py:87-94 | every dispatch is a legal event of a history |
| DispatchHistory.TasksKeepTheirOrigin | src/worker/runtime.py:47-66 | a task is in the table exactly from the moment it is added, and no history of runs changes anything of it but whether it is active |
| DispatchHistory.OnceSendsAddUp | src/worker/runtime.py:47-66 | over any history the sends of a one-time task are those of runs that rolled back, and one more exactly if the row is inactive |
| DispatchHistory.OnceAtMostOncePlusRollbacks | src/worker/runtime.py:47-66 | a one-time task, there from the start or added later, is sent at most 1 + rollbacks times |
| DispatchHistory.OnceBoundIsAttained | src/worker/runtime.py:47-66 | for every n, n failing commits send a deliverable one-time task n + 1 times |
| DispatchHistory.InactiveForever | src/worker/runtime.py:62-64 | an inactive task is never sent nor changed again |
| DispatchHistory.RecurringTasksNeverChange | src/worker/runtime.py:63 | no history changes a task that is not one-time |
| Schedule.MinutesConsecutiveExactlyWhen | src/worker/runtime.py:22-25 | ticks every 60 s fall into consecutive minutes if and only if no delay crosses a minute boundary |
| Schedule.MatchesOneMinuteOfTheDay | src/worker/runtime.py:22-25 | the current minute equals a stored time exactly in its minute of the day and only if the time is a whole minute |
| Schedule.OneFiringPerDay | src/worker/tasks.py:73-80 | the ticks of k days, whenever the beat was started, fire an active whole-minute task exactly once on each of k consecutive days its rule picks, and one with seconds never |
| DispatchSchedule.SendsAreFirings | src/worker/runtime.py:28-69 | over any history of dispatch runs on the beat that are not cut short, a recurring task gets one message for every tick that fires it |
| DispatchSchedule.OneMessagePerDay | src/worker/tasks.py:73-80 | so over k days it gets exactly one message on each of k consecutive days its rule picks if its time is a whole minute, and none otherwise |
| DispatchSchedule.OnceIsSentAtItsFirstFiring | src/worker/runtime.py:47-66 | without a rollback, a run sends a one-time task if and only if its tick fires it and no earlier run sent it |
| DispatchSchedule.OneMessageOnTheNamedDay | src/worker/runtime.py:96-97 | so over k days it gets one message if one of k consecutive days is the one its text names, and none otherwise |
| Schedule.WeekdayNumbers | src/worker/runtime.py:92-93 | a weekly task fires on a day, counted from 1 January 1970, exactly if its stored day_of_week is that day's number, Monday being 1 |
| Schedule.WeeklyFiresOncePerWeek | src/worker/runtime.py:92-93 | a weekly task whose stored day_of_week is 1 to 7 fires exactly once in any 7 consecutive days; with another number, none, or unreadable data, never |
| Schedule.MonthlyFiresOncePerLongMonth | src/worker/runtime.py:94-95 | over whole months a monthly task fires once in every month that has its stored day_of_month, and without a number there never |
| Schedule.OnceFiresAtMostOnce | src/worker/runtime.py:96-97 | a one-time task fires on at most one day of any span, exactly if the span contains the day its text names |
| Calendar.OrdinalClosed | src/worker/runtime.py:92-93 | the day number behind weekday() in closed form, month by month |
| Calendar.IsoFormatReads | src/worker/runtime.py:97 | the text of a date of years 1 to 9999 is ten characters that read back as year, month and day |
| Calendar.IsoFormatIsInjective | src/worker/runtime.py:97 | distinct dates of years 1 to 9999 have distinct ISO texts |
| Membership.SubscriptionChecker.IsSubscribed | src/helpers_core/telegram/subs_check.py:46-63 | a live entry is answered from the cache; a miss answers true exactly for creator, administrator, member and restricted, and stores "1" or "0" for the TTL; an API error answers False and stores nothing; other chats and users are untouched |
| Membership.StalenessIsBounded | src/helpers_core/telegram/subs_check.py:46-63 | under any interleaving a true answer means the user was creator, administrator, member or restricted at some instant of the last TTL + delay, a false one that is no API error that the user was none of them, and so does whatever is cached |
| Membership.StalenessIsAttained | src/helpers_core/telegram/subs_check.py:46-63 | that staleness bound cannot be improved |
| KeyList.KeysAppend | src/helpers_core/config/settings.py:110-114 | parsing turns a comma into concatenation, for all strings |
| KeyList.KeysRoundTrip | src/helpers_core/config/settings.py:110-114 | comma-free keys joined by commas, with any white space around them and blank entries between them, parse back to the same list |
| KeyList.TypedKeysRoundTrip | src/helpers_core/config/settings.py:110-114 | base64url keys with blanks, tabs and line ends around them parse back to the same list |
| KeyList.SpacesByCodePoint | src/helpers_core/config/settings.py:114 | the white space that strip() removes, by code point |
| KeyList.PrependKey | src/helpers_core/config/settings.py:87-93 | writing "new," in front of the variable prepends exactly that key |
| KeyList.ValidatorExactlyWhen | src/helpers_core/config/settings.py:99-114 | no key results if and only if the value is all white space and commas; the validator lets that pass if and only if there is a comma |
| KeyList.AdminIds | src/helpers_core/config/settings.py:128-140 | the loop collects the numbers of the segments in order |
| KeyList.AdminIdsAppend | src/helpers_core/config/settings.py:128-140 | the ids of a joined text are those of its two parts |
| KeyList.AdminIdsRoundTrip | src/helpers_core/config/settings.py:128-140 | a list of entries yields, in order, exactly the numbers among them: white space is ignored, blank and non-numeric entries contribute nothing |
| KeyList.AdminIdsOfNumbers | src/helpers_core/config/settings.py:128-140 | any integers written in decimal and joined by commas are read back as they are |
| KeyRing.DecryptsExactlyWhen | src/helpers_core/security/crypto.py:58-64 | a token decrypts, to its own plaintext, exactly when its key is somewhere on the list |
| KeyRing.RotationOfOneToken | src/helpers_core/security/crypto.py:66-84 | rotation succeeds exactly for a token of a listed key, as decryption does, keeps plaintext and timestamp, and the primary key alone reads the result; both failures carry the source's messages |
| KeyRing.RotationIsAConfigChange | src/helpers_core/security/crypto.py:9-15 | prepending a key to the variable keeps every readable token readable, and new tokens are made with the new key, their own timestamp and plaintext, and need that key alone |
| KeyRing.ConfiguredExactlyWhen | src/helpers_core/security/crypto.py:46-52 | the cipher exists exactly when the variable is more than white space and commas |
| KeyRing.RotationProtocol | src/helpers_core/security/crypto.py:54-72 | over any writes, rotations, prepends of any key and drops of unneeded keys exactly the written rows exist, and each decrypts to the plaintext of the latest write to it |
| KeyRing.UntouchedRowsStay | src/helpers_core/security/crypto.py:66-72 | while the primary key stays, every row written or rotated is under it and every other row is unchanged |
| KeyRing.DropIsSafeExactlyWhen | src/helpers_core/security/crypto.py:58-64 | dropping a key keeps all rows readable if and only if no row still needs it |
| KeyRing.ConvergedExactlyWhen | src/helpers_core/security/crypto.py:11-15 | the primary key alone reads everything if and only if every row was written or rotated since any earlier moment it has been primary from, or was under that key then |
| KeyRing.FreshKeyConvergedExactlyWhen | src/helpers_core/security/crypto.py:11-15 | a fresh key alone reads everything if and only if every row was written or rotated since it was prepended |
| KeyRing.Sweep | src/helpers_core/security/crypto.py:74-84 | rotating the rows that need it succeeds exactly when all rows decrypt |
| KeyRing.SweepConverges | src/helpers_core/security/crypto.py:66-84 | a sweep keeps all plaintexts, leaves rows under the primary key identical, makes that key alone sufficient, and a second sweep changes nothing |
| KeyRing.TokenLayout | src/helpers_core/security/crypto.py:54-56 | a token takes just the base64 quanta for version, timestamp, nonce, the plaintext padded to whole blocks, and HMAC |
| KeyRing.FitsExactlyWhen | src/helpers_core/domain/models.py:94-100 | a ciphertext fits a column of any width exactly up to the column's capacity: 319, 703 and 1471 bytes for 512, 1024 and 2048 |
| KeyRing.ColumnsInCharacters | src/helpers_core/domain/models.py:94-100 | how many characters of one script each column holds, exactly |
| KeyRing.RotationKeepsLength | src/helpers_core/db/types.py:24-26 | rotation keeps the stored length, and any text of 79 characters fits the narrowest column |
| Middleware.Pipeline.HandleInSession | src/helpers_core/telegram/middlewares/db_session.py:32-47 | commits the handler's effect exactly when handler and commit succeed |
| Middleware.Pipeline.Throttle | src/helpers_core/telegram/middlewares/throttling.py:37-56 | an unknown sender passes unthrottled, a denied hit is counted and never reaches the handler |
| Middleware.Pipeline.Process | src/helpers_core/telegram/middlewares/errors.py:37-58 | one update moves counters, database and limiter as the stacked middlewares do |
| Middleware.PipelineRun | src/helpers_core/telegram/middlewares/errors.py:43-58 | over any run each counter counts exactly its updates (a throttled one also as ok), together they miss only cancelled ones, and the database holds exactly the effects of the successful handled updates |
| Middleware.HandlersAreThrottled | src/helpers_core/telegram/middlewares/throttling.py:43-56 | no user gets more than (m + 1) * limit - 1 of the updates whose event carries that from_user handled within m windows |
| Middleware.UnidentifiedUpdatesPass | src/helpers_core/telegram/bootstrap.py:77-80 | updates whose event has no from_user are never throttled and never counted by the limiter, whatever the policy |

## Left out

- aiohttp sessions, DNS, orjson, real sleeping and jitter: an attempt is its times and its reply, a pause is a bounded number.
- `HttpClient.start`, `close`, `get_json`, `post_json` and `_read_json`: they add only easy members.
- Method names outside ASCII: `HttpClient.Upper` raises only the letters a to z.
- Base64, AES and HMAC inside Fernet, and the validation of key material: tokens are symbolic, lengths follow the published token format.
- Database failures other than of listing, flushing and committing: a failing listing raises before anything is sent, so it would only add an easy case.
- Overlapping dispatch runs: histories are sequential, as the source's own single schedule intends.
- The schedule of Celery's retries (`tasks.py:48-57`): in a history a retry is one more run, and `DispatchSchedule` speaks of histories with one run per tick.
- Message texts, the choice among bot tokens, and every other repository: they add only easy members.
- `int()` on the data of a task and on admin ids: a field is a number, missing or unreadable, and the admin parser is an argument.
- Concurrent database transactions of different updates: the pipeline applies committed updates one after the other.
- Marketplace clients, FastAPI routes, keyboards, logging, process start-up and module-level singletons: thin wiring.
