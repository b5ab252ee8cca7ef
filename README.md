# iplog expiry store and sweep scheduler in Dafny

This project models the core of iplog, a small service that keeps a list of IPv4
addresses. Each address expires a configurable number of seconds after it was added.
Expired addresses are removed by a sweep. The sweep runs before every listing and, on a
timer, in the background. The model covers:

- the two SQLite tables, `ip_records` and `config`, as an in-memory class `Init.Db`;
- the data-access objects `IPRecordDAO` and `ConfigDAO` (module `Models`);
- default seeding and the expiry sweep `cleanupExpiredIPs` (module `Init`);
- the service layer `IPService` / `ConfigService` (module `IpService`), including the
  dotted-quad address check;
- the sweep scheduler of the server entry point (module `App`);
- the browser's expiry helpers `isIPExpired` and `getTimeRemaining` (module `ClientApi`).

Supporting modules: `Base` (Option, Result) and `Decimal` (the decimal text that
`toString()` writes and `parseInt` reads, which is how settings are stored).

Units:

- Table timestamps are whole seconds, the resolution of SQLite's `CURRENT_TIMESTAMP` and
  `datetime('now')`.
- Scheduler and client times are milliseconds, as `Date.now()` gives them.
- A timer firing at `nowMs` runs the sweep at second `nowMs / 1000`.
- JavaScript numbers at the service boundary are `real`, so `Number.isInteger` is
  modelled.

Three behaviours of the code shape the model:

- A missing `auto_cleanup_enabled` key reads as disabled: `enabled === 'true'` is false
  on `null` (api/services/ipService.ts:189).
- Starting with auto-cleanup disabled clears the running interval but leaves
  `nextCleanupTime` at its previous value (api/app.ts:54-56).
- A sweep tick whose cleanup fails is only logged; it does not advance
  `nextCleanupTime` (api/app.ts:45-52).
- A timeout above 8.64e12 seconds passes `isValidTimeout`, but it puts the expiry of
  any row stored after 1970 outside the JavaScript Date range. `toISOString()` then throws, and the listing's
  catch block returns an empty list (api/services/ipService.ts:73-81, 133-138).

## Model

| member | source | states |
|---|---|---|
| `Decimal.NatToString` | api/database/models.ts:150-152 | `toString()` of a non-negative integer is decimal digits with no leading zero, and is "0" exactly for 0 |
| `Decimal.ParseNatToString` | api/database/models.ts:137-152 | `parseInt` of the text `toString()` wrote gives the number back |
| `Decimal.NatToStringParse` | api/database/models.ts:141 | the converse: writing the value of canonical decimal text gives the same text |
| `Init.Db.constructor` | api/database/init.ts:28-66 | a new database has both tables empty and the autoincrement counter at 1 |
| `Init.Filter` | api/database/init.ts:104-107 | a DELETE keeps exactly the rows that do not meet its condition, and never adds rows |
| `Init.FilterDropsCounted` | api/database/init.ts:109-116 | the change count a DELETE reports equals the number of rows it removed |
| `Init.FilterIdempotent` | api/database/init.ts:104-107 | repeating the same DELETE removes nothing more |
| `Init.FilterKeepsInvariant` | api/database/init.ts:33-37 | deleting rows keeps ids unique, ips unique and all ids below the counter |
| `Init.IsExpiredRow` | api/database/init.ts:106 | the sweep's condition `created_at + timeout < now` in whole seconds; its meaning over a table is fixed by `Init.SweepKeepsExactlyFresh` and, against the client, by `ClientApi.ClientAndSweepAtMilliseconds` |
| `Init.SweepTimeout` | api/database/init.ts:106 | the subquery's value: the stored timeout as a number, or NULL when the key is absent; `Init.AfterSweep` and `Models.TimeoutRoundTrip` fix what the sweep does with it |
| `Init.AfterSweep` | api/database/init.ts:106 | with no `timeout` key the condition is NULL and the sweep deletes nothing |
| `Init.SweepKeepsExactlyFresh` | api/database/init.ts:104-107 | the sweep keeps exactly the rows with `created_at + timeout >= now`; a row whose expiry equals now stays |
| `Init.SweepTwiceDeletesNothing` | api/database/init.ts:104-107 | a second sweep at the same time deletes no row |
| `Init.CleanupExpiredIPs` | api/database/init.ts:102-119 | the sweep removes the expired rows, returns how many, and leaves the surviving rows, the config and the counter unchanged |
| `Init.Seeded` | api/database/init.ts:67-73 | seeding adds `timeout=3600`, `auto_cleanup_enabled=true`, `auto_cleanup_interval=300` only for absent keys and keeps every stored value |
| `Init.SeedingIdempotent` | api/database/init.ts:67-73 | seeding twice equals seeding once |
| `Init.SeededHasSettings` | api/database/init.ts:67-73 | after seeding all three settings are present and well formed |
| `Init.InitDatabase` | api/database/init.ts:28-84 | `initDatabase` keeps the rows and replaces the config with its seeded form |
| `Models.Find` | api/database/models.ts:50-61 | a lookup returns a row that matches, or reports that no row matches |
| `Models.SortByCreatedDesc` | api/database/models.ts:66 | ORDER BY created_at DESC returns every row exactly once, newest first |
| `Models.GetIPById` | api/database/models.ts:34-47 | the row with that id, or a not-found rejection exactly when there is none |
| `Models.AddIP` | api/database/models.ts:19-31 | a new ip gets one row whose id is above every earlier id and whose time is now, and that row is returned; an ip already present is rejected by the UNIQUE constraint and nothing changes |
| `Models.CheckIPExists` | api/database/models.ts:50-61 | returns the row with that ip, or none exactly when no row has it; changes nothing |
| `Models.GetAllIPs` | api/database/models.ts:64-75 | every row exactly once (same multiset), sorted by creation time, newest first |
| `Models.DeleteIP` | api/database/models.ts:78-89 | true exactly when a row with that id existed; afterwards no row has that id and the other rows are unchanged, in order |
| `Models.ClearAllIPs` | api/database/models.ts:92-103 | returns the number of rows before the call and leaves the table empty; the id counter is not reset |
| `Models.GetConfig` | api/database/models.ts:109-120 | the stored value of a key, or null exactly when the key is absent |
| `Models.SetConfig` | api/database/models.ts:123-134 | INSERT OR REPLACE sets one key and leaves every other key unchanged |
| `Models.ConfigReadsBackWrite` | api/database/models.ts:109-134 | after `setConfig(k, v)`, `getConfig(k)` is `v` and any other key reads as before |
| `Models.TimeoutOf` | api/database/models.ts:137-147 | the timeout is 3600 when the key is absent, otherwise the same number the sweep uses |
| `Models.TimeoutRoundTrip` | api/database/models.ts:137-152 | a timeout written by `setTimeout` is read back by `getTimeout` and by the sweep |
| `Models.GetTimeout` | api/database/models.ts:137-147 | `getTimeout` returns the stored timeout as a number, or 3600 when absent |
| `Models.SetTimeout` | api/database/models.ts:150-152 | `setTimeout` stores the decimal text; `getTimeout` then returns the same number |
| `IpService.OctetPatternIsOctet` | api/services/ipService.ts:128 | the octet alternatives accept exactly 1 to 3 decimal digits with value at most 255, leading zeros allowed |
| `IpService.IsValidIP` | api/services/ipService.ts:127-130 | the dotted-quad regex: splitting on '.' gives four pieces, each matching one of the octet alternatives; its meaning is fixed by `IpService.OctetPatternIsOctet`, `IpService.ValidIPIsDottedQuad` and `IpService.FormattedAddressIsValid` |
| `IpService.ValidIPIsDottedQuad` | api/services/ipService.ts:127-130 | `isValidIP` holds exactly when the string has four dot-separated pieces and each is such an octet |
| `IpService.FormattedAddressIsValid` | api/services/ipService.ts:127-130 | every address `a.b.c.d` written from numbers 0..255 is accepted |
| `IpService.AcceptsPrivateAddress` | api/services/ipService.ts:127-130 | "192.168.1.1" is accepted |
| `IpService.RejectsOctetAbove255` | api/services/ipService.ts:127-130 | "999.1.1.1" is rejected |
| `IpService.RejectsThreeOctets` | api/services/ipService.ts:127-130 | "1.2.3" is rejected |
| `IpService.RejectsText` | api/services/ipService.ts:127-130 | "abc" is rejected |
| `IpService.CalculateExpiryTime` | api/services/ipService.ts:133-138 | the expiry `created*1000 + timeout*1000` ms, or none where it lies outside the JavaScript Date range of ±8.64e15 ms and `toISOString()` throws; fixed by `IpService.ExpiryDefinedForStoredRows`, `IpService.OversizedTimeoutHasNoExpiry`, `IpService.ExpiryAgreesWithSweep` and `ClientApi.ClientAndSweepAtMilliseconds` |
| `IpService.ExpiryDefinedForStoredRows` | api/services/ipService.ts:133-138 | for a row dated within SQLite's years 0000–9999, every timeout up to 8.64e12 s less the last SQLite second yields a defined expiry |
| `IpService.OversizedTimeoutHasNoExpiry` | api/services/ipService.ts:133-138 | a timeout above 8.64e12 s gives a row created after 1970 no expiry: the Date is invalid and formatting throws |
| `IpService.ExpiryAgreesWithSweep` | api/services/ipService.ts:133-138 | at a whole-second instant `now * 1000`, the expiry `created*1000 + timeout*1000` ms is before it exactly when the sweep at second `now` deletes the row |
| `IpService.AddIP` | api/services/ipService.ts:12-46 | an invalid address fails and changes nothing; a present address succeeds with its stored row and inserts nothing; a new valid address inserts one row and returns it |
| `IpService.AddIPTwice` | api/services/ipService.ts:22-30 | adding the same valid address twice adds at most one row, and the second call returns the first call's record |
| `IpService.CheckIP` | api/services/ipService.ts:49-62 | `exists` is true exactly when a row has that ip, and then `data` is that row |
| `IpService.AttachExpiry` | api/services/ipService.ts:73-77 | when every row has an expiry, the listed records are the given rows in order, each with its expiry; otherwise the map throws (none) |
| `IpService.ListedRecordsNotExpired` | api/services/ipService.ts:65-77 | after the sweep at second `now`, with a timeout stored, no remaining row has an expiry before `now * 1000` ms |
| `IpService.GetIPList` | api/services/ipService.ts:65-82 | the sweep runs first; if some remaining row has no expiry in the Date range the catch returns an empty list; otherwise the list holds each remaining row once, newest first, with its expiry under the current timeout; when a timeout is stored, no listed expiry is before `now * 1000` ms, the start of the sweep's second |
| `IpService.OversizedTimeoutListsNothing` | api/services/ipService.ts:73-81 | after `setTimeout(9000000000000)`, which `isValidTimeout` accepts, a stored row survives the sweep but the listing comes back empty |
| `IpService.DeleteIP` | api/services/ipService.ts:85-106 | success exactly when the id existed, with the matching message; the row is gone |
| `IpService.ClearAllIPs` | api/services/ipService.ts:109-124 | succeeds with the number of rows there were, and empties the table |
| `IpService.IsValidTimeout` | api/services/ipService.ts:179-181 | `Number.isInteger(seconds) && seconds > 0`; fixed for all inputs by `IpService.ValidTimeoutOnWholeNumbers` and `IpService.FractionalTimeoutRejected` |
| `IpService.ValidTimeoutOnWholeNumbers` | api/services/ipService.ts:179-181 | a whole number is a valid timeout exactly when it is at least 1 |
| `IpService.FractionalTimeoutRejected` | api/services/ipService.ts:179-181 | a number strictly between two consecutive whole numbers is rejected |
| `IpService.TimeoutValidationExamples` | api/services/ipService.ts:179-181 | 10 is a valid timeout; 0, -5 and 1.5 are not |
| `IpService.GetTimeout` | api/services/ipService.ts:144-151 | the stored timeout, or 3600 when absent |
| `IpService.SetTimeout` | api/services/ipService.ts:154-176 | succeeds exactly for a positive integer; a rejection writes nothing; on success `getTimeout` returns the new value |
| `IpService.AutoCleanupRoundTrip` | api/services/ipService.ts:184-225 | what `setAutoCleanup(e, i)` writes, `getAutoCleanup` reads back as `{e, i}`; the timeout is untouched |
| `IpService.SeededDefaultsReadBack` | api/database/init.ts:67-73 | a freshly seeded config reads as enabled, interval 300 and timeout 3600 |
| `IpService.AutoCleanupOf` | api/services/ipService.ts:184-199 | the settings `getAutoCleanup` returns from the stored texts; fixed by `IpService.AutoCleanupRoundTrip` and `IpService.SeededDefaultsReadBack` |
| `IpService.GetAutoCleanup` | api/services/ipService.ts:184-199 | enabled exactly when the stored text is "true"; the interval is the stored number, or 300 when absent |
| `IpService.SetAutoCleanup` | api/services/ipService.ts:202-225 | fails with no write when the interval is not an integer or is below 30; otherwise both settings are stored and read back |
| `App.Without` | api/app.ts:34-36 | clearing a handle stops exactly that interval; clearing a stale handle does nothing |
| `App.Scheduler.constructor` | api/app.ts:25-26 | no timer is held or running and the next cleanup time is 0 |
| `App.Scheduler.GetNextCleanupTime` | api/app.ts:79 | returns 0 until some start has armed a timer |
| `App.Scheduler.ClearCurrent` | api/app.ts:34-36 | clearing the held handle leaves no interval running |
| `App.Scheduler.Arm` | api/app.ts:42-53 | arms one new interval with the given period, holds its handle and sets the next cleanup time to now plus the interval |
| `App.Scheduler.Start` | api/app.ts:28-70 | always clears the current interval first, keeping at most one running; when enabled, arms the configured interval and sets next cleanup to now + interval*1000; when disabled, arms nothing and keeps the next cleanup time; when the settings read fails, arms 300 s and sets now + 300000 |
| `App.Scheduler.StartAsWritten` | api/app.ts:28-70 | `startAutoCleanup` as written: a failed settings read arms the fallback interval beside the one already running; otherwise one interval with the configured period runs when enabled, none when disabled, and `nextCleanupTime` is unchanged when disabled |
| `App.Scheduler.Tick` | api/app.ts:45-53 | a successful firing runs the sweep and sets next cleanup to now plus the interval captured at start; a failed firing deletes nothing and leaves the next cleanup time and the timer as they were |
| `App.RemainingSeconds` | api/routes/ip.ts:188 | `max(0, floor((next - now)/1000))`: never negative, zero under one second, otherwise the whole seconds left |
| `App.FallbackStartLeavesTwoTimers` | api/app.ts:28-70 | start, then a start whose settings read fails, leaves two intervals running as written |
| `App.FallbackStartKeepsOneTimer` | api/app.ts:28-70 | the same sequence with the corrected start leaves one interval running |
| `ClientApi.BreakdownBounds` | src/services/api.ts:132-134 | hours, minutes and seconds recompose the difference to within one second, with minutes and seconds below 60 |
| `ClientApi.IsIPExpired` | src/services/api.ts:118-120 | the expiry lies strictly before now; related to the sweep by `ClientApi.ClientAgreesWithSweep`, `ClientApi.ClientAndSweepAtMilliseconds` and `ClientApi.BoundaryInstant` |
| `ClientApi.GetTimeRemaining` | src/services/api.ts:123-142 | the remaining-time text; fixed by `ClientApi.ExpiredExactlyWhenNotFuture`, `ClientApi.BreakdownBounds`, `ClientApi.RemainingForm` and `ClientApi.UnderASecondReadsZeroSeconds` |
| `ClientApi.ExpiredExactlyWhenNotFuture` | src/services/api.ts:123-130 | the text is "已过期" exactly when `expiresAt - now <= 0` |
| `ClientApi.RemainingForm` | src/services/api.ts:136-142 | the text has the form "{h}小时{m}分钟" from one hour up, "{m}分钟{s}秒" from one minute up, and "{s}秒" below a minute |
| `ClientApi.UnderASecondReadsZeroSeconds` | src/services/api.ts:128-141 | a difference between 0 and 1000 ms reads "0秒", not expired |
| `ClientApi.ClientAgreesWithSweep` | src/services/api.ts:118-120 | at whole-second instants `isIPExpired` on a listed expiry is true exactly when the sweep at that second deletes the row (same strict comparison) |
| `ClientApi.ClientAndSweepAtMilliseconds` | src/services/api.ts:118-120 | at any millisecond, a row the sweep of second `nowMs / 1000` deletes already shows as expired, and a row that shows as expired is deleted by the sweep of the next second |
| `ClientApi.ClientAheadOfSweepWithinSecond` | src/services/api.ts:118-120 | the converse fails within a second: created at 0 with timeout 5, at 5500 ms the client shows expired while the sweep of second 5 keeps the row |
| `ClientApi.BoundaryInstant` | src/services/api.ts:118-130 | at the exact expiry instant the text already reads expired while `isIPExpired` is still false |

## Left out

- SQLite itself is not modelled: the connection, the data directory, `closeDatabase`, the indexes and the SQL text. The tables are in-memory fields. The indexes do not change results.
- Storage errors are not modelled, since the in-memory tables cannot fail. So the catch branches of the services are left out, together with their failure messages ("添加IP失败", "删除IP失败", "清空IP记录失败", "设置…失败"). The scheduler keeps its two failure paths, as the `storageFails` and `configReadFails` parameters.
- Messages are result tags (for example `InvalidFormat`, `AlreadyExists`, `Added`), not the Chinese texts.
- Concurrency is not modelled. This covers the check-then-insert race in `addIP`, interleaved async calls, and the first `startAutoCleanup` running before `initDatabase` has finished. Every operation runs to completion before the next.
- Real timers are replaced by explicit calls: `setInterval` firings are `Tick` calls with the current time. Node clamps delays above 2147483647 ms to 1 ms; intervals above about 24.8 days are therefore not modelled faithfully.
- Date strings are not modelled. `created_at` and `expires_at` are integers, and ISO formatting is left out except for its range: an expiry outside ±8.64e15 ms makes `toISOString()` throw. `new Date(created_at)` reads SQLite's "YYYY-MM-DD HH:MM:SS" as local time, while SQLite stores UTC. The displayed expiry is therefore off by the server's UTC offset, and the model does not include that offset.
- Rows with equal `created_at` may come back from ORDER BY in any order. `Models.GetAllIPs` allows any order of ties. `Models.SortByCreatedDesc` fixes one order.
- Init.IsExpiredRow: compares whole numbers of seconds. SQLite's `datetime` is NULL outside the years 0000–9999, and a NULL condition keeps the row. The two differ only when `now` itself lies outside that range.
- `parseInt` on arbitrary text is not modelled. The `timeout` and `auto_cleanup_interval` values are decimal digits (`Init.ConfigWellFormed`), as `toString()` writes them.
- Models.SetConfig: requires decimal-digit text for the `timeout` and `auto_cleanup_interval` keys, because `parseInt` on other text is not modelled. The only callers in the source write `toString()` of validated integers.
- Models.SetTimeout: takes a non-negative integer. `ConfigDAO.setTimeout` accepts any number, but its only caller passes a validated positive integer. SQLite's reading of a negative modifier such as '+-5 seconds' is not modelled.
- JavaScript number edge cases are not modelled: NaN, Infinity, and the exponent form `toString()` uses from 1e21 up.
- SQLite's id exhaustion (SQLITE_FULL at the largest rowid) is not modelled.
- HTTP routing, Express setup, the health, 404 and SPA handlers, and the route handlers are left out. Only the `remainingSeconds` formula of the next-cleanup route is modelled.
- The browser network client (`request`, `ipApi`) and `formatDateTime` are left out. The client's `now` is a parameter.

## Findings

| source | as written | input that shows it | evidently intended | confidence | as-written member | corrected member |
|---|---|---|---|---|---|---|
| api/app.ts:57-69 | if reading the settings rejects, the catch block arms a 300 s interval without reaching `clearInterval`, so the earlier interval keeps running | an armed scheduler, then a restart whose settings read rejects: two intervals run (`App.FallbackStartLeavesTwoTimers`) | clear the current interval before arming the fallback, so at most one runs | low: `getAutoCleanup` (api/services/ipService.ts:184-199) catches its own errors today, so the branch is latent; not executed | `App.Scheduler.StartAsWritten` | `App.Scheduler.Start` |
