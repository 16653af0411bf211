# Login brute-force guard of the ISUCON4 application, with its helpers

This project models the core of two Go web applications in Dafny.

The main part is the login brute-force guard of the ISUCON4 qualifier
application (`4/webapp/db.go`). `attemptLogin` decides each login attempt with
a fixed chain of checks:

1. the IP is banned;
2. the user is locked;
3. the login is unknown;
4. the password is wrong;
5. otherwise the attempt succeeds.

The checks read Redis counters. A deferred `createLoginLog` then records every
attempt twice:

- in the counters: `INCR` on failure and `DEL` on success, for the user id and the IP;
- as one row of the `login_log` ledger.

The `/report` queries `bannedIPs` and `lockedUsers` recompute bans and locks
from the ledger alone, with a two-part rule: "never succeeded and at least
*t* attempts", or "at least *t* attempts after the latest success".

Around the guard the project models:

- the ISUCON4 partitioned last-login map (`multimap.go`);
- the last-login lookup (`user.go`);
- the environment and flash helpers (`util.go`);
- the threshold start-up and `/login` response (`main.go`);
- the ISUCON5 three-index user cache (`cache.go`);
- the ISUCON5 rule helpers (`app.go`).

Modules, one per file:

| file | module | models |
|---|---|---|
| `wrappers.dfy` | `Wrappers` | `Option` and `Result` |
| `strconv.dfy` | `Strconv` | Go's `strconv.Itoa` and `Atoi` on 64-bit `int`, also the Redis client's key formatting |
| `ledger.dfy` | `Ledger` | the `login_log` table and its SQL aggregates as functions over a `seq` of rows |
| `counters.dfy` | `Counters` | the Redis store: a `map<string, int>` and whether the connection is up |
| `util.dfy` | `Util` | `getEnv`, `getFlash` and `calcPassHash` |
| `guard.dfy` | `Guard` | `isBannedIP`, `isLockedUser`, `createLoginLog` and `attemptLogin` (class `LoginGuard`) |
| `scenarios.dfy` | `GuardScenarios` | end-to-end runs of the guard with the default thresholds |
| `report.dfy` | `Report` | `bannedIPs` (as written and corrected) and `lockedUsers`, and how they agree with the fast path |
| `lastlogin.dfy` | `LastLogins` | `getLastLogin` |
| `multimap.dfy` | `LastLoginMap` | `MultiMapLastLogin` (class `LoginMap` over an `array` of maps) |
| `webapp.dfy` | `Webapp` | `init`'s thresholds and the `/login` notice and redirect |
| `usercache.dfy` | `UserCache` | `unsafeSetUser`, `fromAccount`, `fromEmail` and `fromID` (class `Cache`) |
| `social.dfy` | `Social` | `substring`, entry body encoding and decoding, `permitted`, `markFootprint`, `PostFriends`, `myHandler` |

Conventions of the model:

- **Ledger ids.** Row `i` of the ledger has id `i + 1` (`Ledger.IdsSequential`, kept by `LoginGuard.Valid`). So `ORDER BY id DESC` walks the sequence from its end.
- **Group order.** Rows of a `GROUP BY` come in order of first appearance, which SQL leaves unspecified.
- **The `login` column of `GROUP BY user_id`.** It is the login of the group's first row; MySQL may pick any row of the group.
- **Database faults.** The report queries and `getLastLogin` take a parameter `failsAt: Option<nat>`: the index of the first database call that fails, if any.
- **Foreign code and the outside world.** These become parameters:
  - SHA-256 is the function parameter `sha`;
  - the clock reading of an insert is the parameter `now`;
  - the process environment is a `map`;
  - a broken Redis connection is `CounterStore.up == false`.

Some of the code's behaviour may surprise a reader; the model follows the code:

- **Report errors.** An audit report would be expected to fail on a database error; the code instead returns the list built so far (4/webapp/db.go:151-153, 159-161, 172-174, 181-183, 192-194, 217-219, 239-241, 249-251, 260-262).
- **Shared keyspace.** User-id counters and IP counters are not independent. User ids are formatted in decimal into the same Redis keyspace as IP strings. An `X-Forwarded-For` header equal to a user's id therefore feeds that user's lock counter (4/webapp/db.go:31-40, 57, 66, 85-87). `GuardScenarios.ForwardedForLocksAccount` shows this. `Report.BanAgreement` and `Report.LockAgreement` hold only without such a collision.
- **Part two of `bannedIPs`.** It never adds an IP (see Findings).
- **Partition index.** It is Go's truncated `%`, so a negative key gives a negative index unless the size divides it.

## Model

| member | source | states |
|---|---|---|
| Strconv.Atoi | 4/webapp/main.go:47-55 | a success only for an optional sign followed by at least one digit, whose signed value is in the 64-bit range and is the one the digits denote; the empty string is a syntax error |
| Strconv.AtoiItoa | 4/webapp/main.go:94 | parsing the decimal form of any 64-bit integer gives that integer back |
| Strconv.ItoaInjective | 4/webapp/db.go:31-33 | distinct user ids are written as distinct counter keys |
| Strconv.AtoiRejectsNonDigit | 4/webapp/main.go:47-55 | a character that is neither a digit nor a leading sign makes the value an error |
| Strconv.ScanUint | 4/webapp/main.go:48-55 | the digit scan succeeds only for an all-digit string within 64 unsigned bits, and then yields the value the digits denote |
| Strconv.AtoiSyntaxError | 4/webapp/main.go:48-55 | the first non-digit of an unsigned string is a syntax error when the digits before it fit in 64 unsigned bits |
| Strconv.AtoiRangeError | 4/webapp/main.go:48-55 | digits that overflow 64 unsigned bits make a range error, whatever characters come after them |
| Strconv.AtoiRangeBeforeSyntax | 4/webapp/main.go:48-55 | "99999999999999999999x" is a range error, not a syntax error |
| Strconv.Itoa | 4/webapp/main.go:94 | a minus sign exactly for a negative number, then decimal digits without leading zeros |
| Ledger.CountPositive | 4/webapp/db.go:146 | a group's `COUNT(1)` is positive exactly when the group has a row |
| Ledger.Count | 4/webapp/db.go:146 | a group's `COUNT(1)` is at most the number of rows of the ledger |
| Ledger.CountAfter | 4/webapp/db.go:188 | the count of a group's rows after an id is at most the group's count |
| Ledger.LatestSuccessIsMax | 4/webapp/db.go:169 | `MAX(id)` over a group's successes is NULL exactly when the group never succeeded; otherwise it is the id of one of its successes and at least the id of every other |
| Ledger.ReportCountsAreTrailing | 4/webapp/db.go:146-147 | with sequential ids, the count of a group without a success, and the count after the latest success, both equal the group's failures since its last success |
| Ledger.IpGroups | 4/webapp/db.go:146 | `GROUP BY ip` yields each IP of the ledger exactly once, and nothing else |
| Ledger.UserGroups | 4/webapp/db.go:212-213 | `GROUP BY user_id` restricted to non-NULL ids yields each resolved user id exactly once, and nothing else |
| Ledger.IpCounterIsTrailing | 4/webapp/db.go:37-41 | without a user id written like the IP, the IP's Redis counter equals the IP's failures since its last success |
| Ledger.UserCounterIsTrailing | 4/webapp/db.go:25-35 | without an IP written like the user id, the user's counter equals the user's failures since their last success |
| Counters.ReplyOf | 4/webapp/db.go:57 | `GET` answers an integer exactly for a present key on a live connection, nil for a missing key, an error for a dead connection |
| Counters.AfterIncr | 4/webapp/db.go:33 | `INCR` adds one to the key, creating it at 1, and leaves every other key unchanged |
| Counters.AfterDel | 4/webapp/db.go:31 | `DEL` removes the key, and a missing key is a no-op; it leaves every other key unchanged |
| Counters.ConsecutiveIncrs | 4/webapp/db.go:40 | `n` failures on a key without a counter leave the counter at `n` |
| Counters.DelIdempotent | 4/webapp/db.go:38 | `DEL` twice is `DEL` once |
| Counters.CounterStore.Get | 4/webapp/db.go:66 | the store's reply for the current map and connection state |
| Counters.CounterStore.Incr | 4/webapp/db.go:40 | the store after `INCR`; a dead connection changes nothing |
| Counters.CounterStore.Del | 4/webapp/db.go:38 | the store after `DEL`; a dead connection changes nothing |
| Util.GetEnv | 4/webapp/util.go:12-19 | the environment value when it is set and non-empty, the default otherwise |
| Util.PassHashOfJoinedString | 4/webapp/util.go:30-36 | the hash depends only on `password + ":" + salt`, whatever SHA-256 computes |
| Util.SeparatorIsAmbiguous | 4/webapp/util.go:30-36 | different password/salt pairs can join to the same hashed string |
| Util.Session.GetFlash | 4/webapp/util.go:21-28 | a present key yields its value and is removed; an absent key yields "" and the map is unchanged |
| Util.FlashReadTwice | 4/webapp/util.go:21-28 | a second read of the same flash key yields "" |
| Guard.ClientAddr | 4/webapp/db.go:84-87 | a non-empty `X-Forwarded-For` is the attempt's IP, the peer address otherwise |
| Guard.IsBannedIP | 4/webapp/db.go:65-72 | banned exactly when the counter was read and reaches the threshold; an absent or unreadable counter means not banned, with an error |
| Guard.IsLockedUser | 4/webapp/db.go:52-63 | locked exactly for a resolved user whose counter was read and reaches the threshold; never an error |
| Guard.Decide | 4/webapp/db.go:106-123 | `ErrBannedIP` exactly for a banned IP; `ErrLockedUser` exactly for a locked user from an IP that is not banned; `ErrUserNotFound` exactly for an unknown login that is neither; `ErrWrongPassword` exactly for a known user whose hash does not match; success exactly when every check passes, and then the found user is returned |
| Guard.FindUser | 4/webapp/db.go:93-101 | a user exactly when the login is in the users table, and then that login's row |
| Guard.LoginGuard.Verdict | 4/webapp/db.go:106-112 | refused as banned exactly when the IP's counter was read and reaches the ban threshold; as locked exactly when not banned and the resolved user's counter was read and reaches the lock threshold; with the store down, the chain runs as if nothing were banned or locked |
| Guard.LoggedCounters | 4/webapp/db.go:25-41 | a success removes the IP's key and the resolved user's key, a failure leaves both present; every other key keeps its counter, and no other key appears |
| Guard.LoggingKeepsAgreement | 4/webapp/db.go:18-41 | recording one attempt in both the counters and the ledger keeps the counters equal to what the ledger implies |
| Guard.LoggedCounterAt | 4/webapp/db.go:25-41 | at any one key: a key the attempt does not name keeps its counter; a success removes a named key; a failure adds one for each time the attempt names the key, starting from 0 |
| Guard.FailureKeepsBan | 4/webapp/db.go:106-108 | a rejected attempt from a banned IP still increments its counter, so the ban persists |
| Guard.SuccessClearsCounters | 4/webapp/db.go:30-31 | a success deletes the IP's key and, for a resolved user, the user's key |
| Guard.FailureCountsOnce | 4/webapp/db.go:25-41 | a failure for an unresolved login adds exactly one to the IP's counter (creating it at 1) and touches no other key |
| Guard.LoginGuard.CreateLoginLog | 4/webapp/db.go:18-50 | updates the user key first, then the IP key, and appends exactly one ledger row with the next id; the guard invariant is kept |
| Guard.LoginGuard.AttemptLogin | 4/webapp/db.go:74-124 | returns the decision chain's verdict on the counters as read; records exactly one row whose `succeeded` is set exactly when no error was returned; updates the counters of that outcome |
| Guard.BannedBeforeCredentials | 4/webapp/db.go:106-108 | the correct password of an existing user from a banned IP yields `ErrBannedIP` |
| Guard.UnreachableStoreFailsOpen | 4/webapp/db.go:57-60 | with the counter store unreachable, no attempt is refused as banned or locked |
| GuardScenarios.UserKey42 | 4/webapp/db.go:57 | user id 42 is counter key "42" |
| GuardScenarios.SuccessBelowBanThreshold | 4/webapp/db.go:106-123 | three failures from an IP do not stop a correct login from it, and that success clears the IP's counter |
| GuardScenarios.BannedIpRefusesCorrectPassword | 4/webapp/db.go:106-108 | after ten failures from an IP, the correct password from that IP is refused as banned |
| GuardScenarios.LockedAccountRefusesCorrectPassword | 4/webapp/db.go:110-112 | after three wrong passwords, the correct password is refused as locked |
| GuardScenarios.ForwardedForLocksAccount | 4/webapp/db.go:85-87 | three failures with `X-Forwarded-For: 42` lock the account with id 42 |
| Report.SelectMembership | 4/webapp/db.go:144-149 | a query's rows are exactly the groups its condition holds for |
| Report.FailedIpMembership | 4/webapp/db.go:144-149 | an IP is among the first query's rows exactly when it appears in the ledger, never succeeded and has at least the threshold of rows |
| Report.BannedIPs | 4/webapp/db.go:141-205 | as written: nothing if the first query fails, otherwise only the IPs that never succeeded and have at least the threshold of attempts |
| Report.ScanIpsAfterSuccess | 4/webapp/db.go:177-199 | the corrected second loop lists exactly the succeeded IPs with at least the threshold of attempts after their latest success, or a prefix of that list on a database error |
| Report.ScanLoginsAfterSuccess | 4/webapp/db.go:244-267 | the same for users, by login |
| Report.BannedIPsCorrected | 4/webapp/db.go:141-205 | with the scan on `rowsB`: the two-part rule's IPs when no call fails, a prefix of them otherwise |
| Report.LockedUsers | 4/webapp/db.go:207-273 | the two-part rule's logins when no call fails, a prefix of them otherwise, nothing when the first query fails |
| Report.OverThresholdIsTrailing | 4/webapp/db.go:196 | with sequential ids, the two-part rule is "at least *t* failures since the latest success" |
| Report.IntendedBannedMembership | 4/webapp/db.go:144-149 | an IP is among the two-part rule's rows exactly when it appears in the ledger and passes the rule |
| Report.IntendedBannedAreIps | 4/webapp/db.go:168-170 | every row the IP rules select is an IP |
| Report.LockedUserMembership | 4/webapp/db.go:210-215 | a user is listed exactly when the user has ledger rows and passes the rule |
| Report.TrailingReachedMeansRows | 4/webapp/db.go:146 | a group reaching a positive threshold has rows |
| Report.BanAgreement | 4/webapp/db.go:65-72 | without a key collision, the fast path bans an IP exactly when the intended report lists it |
| Report.LockAgreement | 4/webapp/db.go:52-63 | without a key collision, the fast path locks a user exactly when the report lists that user |
| Report.IpsOfSelectStep | 4/webapp/db.go:196-198 | one more row adds its IP exactly when the rule holds for it |
| Report.LoginsOfSelectStep | 4/webapp/db.go:264-266 | one more row adds its login exactly when the rule holds for it |
| Report.RebanMissedAsWritten | 4/webapp/db.go:177-183 | for a success of user 1 followed by a failure of an unknown login from the same IP, with threshold 1, the intended report lists the IP and the as-written result does not |
| LastLogins.Successes | 4/webapp/user.go:22 | each of the user's successful rows of the ledger, and nothing else |
| LastLogins.SuccessesInIdOrder | 4/webapp/user.go:22-23 | with sequential ids, the user's successes come in ascending id order |
| LastLogins.NewestSuccesses | 4/webapp/user.go:21-24 | at most `n` rows, each a success of the user from the ledger |
| LastLogins.NewestSuccessesAreLatest | 4/webapp/user.go:21-24 | `ORDER BY id DESC LIMIT n` returns the user's `n` most recent successes, most recent first |
| LastLogins.SuccessesAppend | 4/webapp/user.go:22 | a new row joins the user's successes, at the end, exactly when it is a success of that user |
| LastLogins.PreviousLoginAfterSuccess | 4/webapp/user.go:31-40 | right after a success, `/mypage` shows the success before it, or the new one when it is the first |
| LastLogins.GetLastLogin | 4/webapp/user.go:20-41 | the second most recent success when there are two, the only one when there is one, the zero value when there are none; nil exactly when the query or a scan fails |
| LastLoginMap.GoRem | 4/webapp/multimap.go:90-92 | Go's remainder: in `[0, size)` for non-negative keys, in `(-size, 0]` for negative ones, and the key itself when its magnitude is below the size |
| LastLoginMap.Hash | 4/webapp/multimap.go:90-92 | the partition of a non-negative key is in `[0, size)`, that of a negative key in `(-size, 0]`, and a key whose magnitude is below the size is its own partition |
| LastLoginMap.NegativeKeys | 4/webapp/multimap.go:90-92 | negative keys get negative partition indices unless the size divides them |
| LastLoginMap.LoginMap.constructor | 4/webapp/multimap.go:21-38 | 256 partitions for a non-positive size, otherwise exactly `size`; all partitions empty |
| LastLoginMap.LoginMap.Set | 4/webapp/multimap.go:48-54 | the key maps to the new value, overwriting the old one; only that key of that partition changes, and every key stays in its own partition |
| LastLoginMap.LoginMap.Del | 4/webapp/multimap.go:40-46 | the key is gone, and deleting an absent key changes nothing; no other partition changes |
| LastLoginMap.LoginMap.Get | 4/webapp/multimap.go:56-64 | the stored value and true, or the zero value and false |
| LastLoginMap.LoginMap.Has | 4/webapp/multimap.go:66-74 | the `ok` of `Get` |
| LastLoginMap.SetGetDelHas | 4/webapp/multimap.go:40-74 | `Get` after `Set` finds the value; `Has` after `Del` finds nothing |
| Webapp.InitThresholds | 4/webapp/main.go:47-55 | the thresholds, within the 64-bit range, or the parse error that aborts start-up |
| Webapp.DefaultThresholds | 4/webapp/main.go:47-52 | unset or empty variables give a lock threshold of 3 and a ban threshold of 10 |
| Webapp.ThresholdsFromEnv | 4/webapp/main.go:47-55 | any 64-bit values written in decimal are read back unchanged |
| Webapp.NonIntegerThresholdPanics | 4/webapp/main.go:48-55 | a non-integer value of either variable aborts start-up |
| Webapp.LoginResponseOf | 4/webapp/main.go:72-97 | "You're banned." for a banned IP, "This account is locked." for a locked user, "Wrong username or password" for every other failure, all redirecting to `/`; on success `user_id` is the decimal id and the redirect is `/mypage` |
| Webapp.LoginResponseOfDecision | 4/webapp/main.go:76-96 | over every decision, the handler says "banned" exactly for a banned IP, signs in exactly on success, and stores a `user_id` that parses back to the user's id |
| UserCache.Cache.constructor | 5/webapp/go/cache.go:12-16 | all three maps start empty |
| UserCache.Cache.SetUser | 5/webapp/go/cache.go:22-26 | exactly the three entries under the user's account name, email and id are overwritten; every record stays filed under its own keys |
| UserCache.Cache.FromAccount | 5/webapp/go/cache.go:28-33 | the cached user and true, or nil and false |
| UserCache.Cache.FromEmail | 5/webapp/go/cache.go:35-40 | the cached user and true, or nil and false |
| UserCache.Cache.FromId | 5/webapp/go/cache.go:42-47 | the cached user and true, or nil and false |
| UserCache.SetThenLookUp | 5/webapp/go/cache.go:22-47 | after `unsafeSetUser(u)` all three lookups return `u` |
| UserCache.EmptyCacheMisses | 5/webapp/go/cache.go:12-16 | a fresh cache misses every lookup |
| UserCache.StaleEmailAfterChange | 5/webapp/go/cache.go:23-24 | after a user's email changes, the old email still finds the old record |
| Social.Substring | 5/webapp/go/app.go:31-36 | a prefix of `s` of length `min(len(s), l)` for `l >= 0`; for a negative `l` the slice fails |
| Social.PostEntryRow | 5/webapp/go/app.go:759-770 | the row belongs to the poster; `private` is 0 exactly for an empty form field and 1 otherwise; the body is the title (or the default) then one newline then the content |
| Social.IndexNewline | 5/webapp/go/app.go:553 | the first newline of a body, or none exactly when it has no newline |
| Social.SplitN2 | 5/webapp/go/app.go:553 | `SplitN(s, "\n", 2)`: the whole string when it has no newline, otherwise the newline-free part before the first newline and the rest |
| Social.ReadEntry | 5/webapp/go/app.go:792 | decoding succeeds exactly for a body with a newline |
| Social.DefaultTitleHasNoNewline | 5/webapp/go/app.go:760-762 | the default title has no newline |
| Social.ReadPostedEntry | 5/webapp/go/app.go:759-770 | a posted entry whose title has no newline reads back with that title (or the default), the same content, and `private` exactly when the form field was non-empty |
| Social.FirstNewlineAfter | 5/webapp/go/app.go:770 | the first newline of an encoded body is the separator when the title has none |
| Social.NewlineFreeSplit | 5/webapp/go/app.go:770 | title and content are recovered uniquely from a body whose title has no newline |
| Social.NewlineInTitleMovesIntoContent | 5/webapp/go/app.go:770 | a title with a newline loses its tail to the content |
| Social.PermittedCases | 5/webapp/go/app.go:188-193 | always permitted for oneself; otherwise exactly when the session's user lists the other as a friend |
| Social.Permitted | 5/webapp/go/app.go:188-193 | oneself is always permitted; a refusal means the session's user holds no relation to the other |
| Social.SocialDb.MarkFootprint | 5/webapp/go/app.go:195-200 | one footprint `(user_id = id, owner_id = user.ID)` exactly when a signed-in user views someone else's page |
| Social.SocialDb.PostFriends | 5/webapp/go/app.go:869-882 | an unknown account is `ErrContentNotFound`; otherwise both directions are inserted unless the friendship exists, and afterwards it exists |
| Social.BefriendTwice | 5/webapp/go/app.go:869-882 | befriending twice inserts only once |
| Social.HandlerStatuses | 5/webapp/go/app.go:202-232 | 401 (which alone clears `user_id`), 403, 404 and 500 for the three sentinel errors and every other error value |
| Social.HandlerOutcome | 5/webapp/go/app.go:202-232 | as written: the wrapped handler's own response exactly when it did not panic; a second panic exactly for a string or other non-error value; a plain 500 error exactly for a non-sentinel error |
| Social.HandlerOutcomeCorrected | 5/webapp/go/app.go:202-232 | corrected: never a second panic; a plain 500 error exactly for every non-sentinel panic value |
| Social.StringPanicEscapes | 5/webapp/go/app.go:222-229 | as written a string panic re-panics with no response; corrected it is a 500 with the string |
| Social.CorrectedHandlerAlwaysResponds | 5/webapp/go/app.go:222-229 | corrected, every panic gets a status, the same as before for error values |

## Left out

- **Concurrency.** The locks and goroutines are left out: the `sync.RWMutex` partitions in `multimap.go`, the lock array in `cache.go`, and the `WaitGroup` fan-outs in `app.go`. Every operation is modelled as sequential.
- **The interleaving of concurrent attempts.** It is not modelled, so the race in which two attempts both read a counter below the threshold is not represented.
- **Foreign primitives.** SHA-256 (`calcPassHash`) and MySQL `SHA2` are left uninterpreted; the first is the parameter `sha`.
- **The clock.** `time.Now()` is the parameter `now`. The row id alone orders the ledger.
- **Infrastructure errors.** The ledger `INSERT` in `createLoginLog` always succeeds, and its error is not modelled (4/webapp/db.go:43-49). The user-lookup infrastructure error of `attemptLogin` (4/webapp/db.go:102-103) is left out, so the lookup is found or not found.
- **Row scans of the first result set of `bannedIPs` and `lockedUsers`, and the `rows.Err` checks.** These are not separate fault points; only the queries and the per-row count queries are.
- **`getCurrentUser`, `/mypage` and `/report` routing, templates, sessions and cookies, `unixSocketServe`, the DSN plumbing of `init`, `createDB` and `GetInitialize`.** These are web and configuration plumbing around the core.
- **SQL ordering.** The row order of `GROUP BY` results is fixed as first appearance in the ledger. The `login` of a `GROUP BY user_id` group is that of its first row; MySQL may return any row's.
- **Social.SocialDb.PostFriends:** the session user id that `isFriend` reads is taken to be `me.id`. Befriending oneself inserts two identical rows, as the code does. Database errors in the inserts are not modelled.
- **Social.SplitN2:** bodies are byte strings; no UTF-8 validity is modelled.
- **LastLoginMap.LoginMap:** each operation requires a non-negative partition index, because Go panics on a negative one. Behaviour after that panic is not modelled.
- **Webapp.InitThresholds:** the panic on a parse error is a `Failure`, with no process abort modelled.
- **Report.BanAgreement, Report.LockAgreement:** these hold only while the counters agree with the ledger, which needs every attempt to have found Redis up since both were empty. They also need no key collision, and a positive threshold: `init` accepts a threshold of 0 or below, and then the report lists every IP or user of the ledger while the fast path refuses only keys that hold a counter.
- **Integer width.** Counters, ids and thresholds are unbounded `int`s. Redis counters and user ids are 64-bit, and `INCR` fails at the largest 64-bit value; reaching it takes 2^63 attempts, which is unreachable in practice, so the wrap-around and that error are not modelled.
- **Util.Session:** only string values are modelled, so the panic of the type assertion `value.(string)` on a non-string session value (4/webapp/util.go:25) is not represented.

## Findings

| source | as written | input that shows it | evidently intended | confidence | as-written member | corrected member |
|---|---|---|---|---|---|---|
| 4/webapp/db.go:181 | the second loop of `bannedIPs` scans `rows`, the first result set, which is closed once its loop ends; the scan fails on the first row and the function returns, so IPs re-attacked after a success are never reported | ledger `(1, user 1, ip 1.2.3.4, success), (2, unknown login, ip 1.2.3.4, failure)` with threshold 1: the counter path bans the IP, the report omits it | `rowsB.Scan(&ip, &lastLoginId)` | high (not executed) | Report.BannedIPs, Report.RebanMissedAsWritten | Report.BannedIPsCorrected |
| 5/webapp/go/app.go:228 | `msg = rcv.(error).Error()` runs after the string and run-time-error cases and asserts that every recovered value is an `error`; a string panic therefore panics again inside the deferred function and gets no 500 response | a handler calling `panic("boom")` | take the message from whichever case matched and answer 500 | medium (not executed) | Social.HandlerOutcome, Social.StringPanicEscapes | Social.HandlerOutcomeCorrected, Social.CorrectedHandlerAlwaysResponds |
