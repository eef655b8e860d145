# Sliding-window rate limiter (model of `smoya/ratio`, package `rate`)

This project models the core of the `rate` package of the ratio rate limiter in Dafny.

- **Limits.** A limit is a quantity of hits allowed per unit of time (a `Frequency`). `ParseFrequency` and `ParseLimit` read its textual form, `"<quantity>/<frequency>"`.
- **The sliding-window check.** For the key `owner-resource`, one check:
  1. purges the hits older than `now - unit`;
  2. counts the hits at or before `now`;
  3. records the current attempt;
  4. admits the caller when the count was below the quantity.
- **The in-memory store.** This is the `SlideWindowStorage` implementation that keeps one map from key to the hits recorded under it.

The model is split into modules:

- `Results` holds the `Option` and `Result` datatypes. Go's `(T, error)` pairs become these.
- `Durations` holds Go's duration constants, in nanoseconds.
- `Text` holds two library routines the parser calls: `strings.Split` with a one-character separator, and `strconv.Atoi` on a 64-bit platform. It also holds `strconv.Itoa`, which the parser does not call; it is there to state the round-trip lemmas.
- `Storage` holds the specification functions over one key's hit list: `KeepFrom` (the purge), `CountUpTo` (the count) and `InWindow` (the reference count). It also holds the class `InMemoryStorage`, whose methods change its `store` map in place. Their loops are proved against those functions.
- `Limits` holds frequencies, limits and the parser.
- `Limiter` holds the check. It has two parts:
  - `Respond`: how a check turns any store's reply to `Count` into a decision. This is a pure function, so it holds for every backend.
  - `SlideWindowCheck`: the check run against the in-memory store, as a method that modifies that store.

  `Replay` chains checks over time, and the window lemmas are stated about it.

Instants and durations are integer nanoseconds. The clock is the parameter `now`.

Where the written behaviour and the package's own description differ, the model follows the code:

- Frequency tokens are matched exactly. Only `day`/`DAY`/`d`, `hour`/`HOUR`/`h` and `minute`/`MINUTE`/`m` are accepted, so `Day` or `Hour` fail.
- A negative quantity such as `-5/m` parses. `strconv.Atoi` accepts a sign.
- `PerDay` is sixty hours, as `rate.go` defines it.
- A denied check is still recorded, and the window includes its start instant. So under `1/minute` with a hit 45 seconds old, the check after exactly one more minute is still denied. The recorded denied attempt is exactly one minute old and still in the window. A check one nanosecond later is admitted (`DeniedAttemptsAreCounted`).

## Model

| member | source | states |
|---|---|---|
| Storage.InMemoryStorage.constructor | pkg/rate/storage.go:16-18 | the new store holds exactly the map it was given |
| Storage.InMemoryStorage.Add | pkg/rate/storage.go:20-27 | the key's hit list becomes its old list (empty if absent) followed by `now`; no other key changes; no error |
| Storage.InMemoryStorage.Drop | pkg/rate/storage.go:29-47 | a missing or empty key leaves the store untouched; otherwise the key keeps exactly `KeepFrom(old hits, until)`, the hits at or after `until` in order; returns the number removed; no error |
| Storage.InMemoryStorage.Count | pkg/rate/storage.go:49-58 | returns `CountUpTo(hits, until)`, the number of the key's hits at or before `until`, and changes nothing |
| Storage.InMemoryStorage.Flush | pkg/rate/storage.go:60-63 | the store becomes the empty map |
| Storage.Hits | pkg/rate/storage.go:30-36 | a stored key reads as its list; a key that was never written reads as the empty list |
| Storage.KeepFrom | pkg/rate/storage.go:34-44 | the purge never grows the list and leaves only hits at or after the bound |
| Storage.CountUpTo | pkg/rate/storage.go:50-55 | the count is at most the number of hits |
| Storage.KeepFromAppend | pkg/rate/storage.go:36-42 | purging a concatenation purges each part, so surviving hits keep their relative order |
| Storage.KeepFromMembers | pkg/rate/storage.go:37-41 | a hit survives the purge if and only if it was stored and is not older than the bound |
| Storage.KeepFromAll | pkg/rate/storage.go:37-38 | when no hit is older than the bound, the purge removes nothing |
| Storage.KeepFromIdempotent | pkg/rate/storage.go:36-44 | purging twice with the same bound equals purging once |
| Storage.CountUpToAll | pkg/rate/storage.go:51-55 | when every hit is at or before the bound, all are counted |
| Storage.CountUpToAdd | pkg/rate/storage.go:25 | a hit appended at `t` is counted exactly once by a count up to `t` |
| Storage.CountAfterPurge | pkg/rate/storage.go:36-55 | counting up to `hi` after purging below `lo` equals the reference count of hits in the closed window [lo, hi] |
| Storage.DropTwice | pkg/rate/storage.go:29-47 | a second `Drop` with the same bound removes zero hits and leaves the list as it was |
| Storage.DropTwiceOnStore | pkg/rate/storage.go:29-47 | on a real in-memory store, a second `Drop` with the same bound returns 0 and leaves the store as the first `Drop` left it |
| Storage.CountAfterFlush | pkg/rate/storage.go:60-63 | after a flush every key counts zero hits |
| Storage.ScenarioValues | pkg/rate/redis_test.go:55-69 | hits at now, now-1m and now-2m: purging below now-1m leaves [now, now-1m], and counts up to any `v` are 2, 1 or 0 as `v` passes those instants |
| Storage.DropScenario | pkg/rate/redis_test.go:47-70 | on a real in-memory store: three adds a minute apart, then `Drop(now - minute)` removes exactly one hit and leaves [now, now-minute] in order; a later `Count` sees only the remaining hits |
| Text.OccurrencesAppend | pkg/rate/rate.go:57-58 | the separator count of a concatenation is the sum of the parts' counts |
| Text.Split | pkg/rate/rate.go:57 | `strings.Split` returns one more piece than there are separators |
| Text.SplitPieces | pkg/rate/rate.go:57 | no piece contains the separator |
| Text.SplitStep | pkg/rate/rate.go:57 | one step of splitting: a leading separator starts a new empty piece, any other character joins the first piece |
| Text.SplitPrefix | pkg/rate/rate.go:57 | a separator-free prefix is glued onto the first piece of what follows |
| Text.SplitJoin | pkg/rate/rate.go:57 | splitting undoes joining when no piece contains the separator |
| Text.JoinCons | pkg/rate/rate.go:57 | joining at least two pieces puts the separator after the first |
| Text.JoinGlue | pkg/rate/rate.go:57 | a character glued onto the first piece ends up at the front of the joined text |
| Text.JoinSplit | pkg/rate/rate.go:57 | joining undoes splitting: nothing of the input is lost |
| Text.SplitPair | pkg/rate/rate.go:57-58 | "a/b" with separator-free parts splits into exactly [a, b] |
| Text.DigitChar | pkg/rate/rate.go:67 | the character of a digit is a digit with that value |
| Text.NatDigits | pkg/rate/rate.go:67 | the numeral of `n` is nonempty, all digits, has value `n` and no leading zero |
| Text.Atoi | pkg/rate/rate.go:67-70 | a parsed value comes only from a well-formed numeral and lies in the 64-bit range |
| Text.AtoiItoa | pkg/rate/rate.go:67 | every 64-bit integer reads back from its own numeral |
| Text.AtoiOutOfRange | pkg/rate/rate.go:67-70 | a well-formed numeral outside the 64-bit range is refused |
| Text.AtoiPlus | pkg/rate/rate.go:67 | an explicit `+` sign is accepted |
| Text.Zeros | pkg/rate/rate.go:67 | (helper) a run of `z` zero digits |
| Text.ZerosValue | pkg/rate/rate.go:67 | a run of zeros has value zero |
| Text.LeadingZerosValue | pkg/rate/rate.go:67 | leading zeros do not change a numeral's value |
| Text.AtoiUnsigned | pkg/rate/rate.go:67-70 | an unsigned run of digits is accepted if and only if its value fits in 64 bits, and then reads as that value |
| Text.AtoiSigned | pkg/rate/rate.go:67-70 | a sign followed by digits is accepted if and only if its signed value fits in 64 bits, and then reads as that value |
| Text.AtoiLeadingZeros | pkg/rate/rate.go:67-70 | zeros followed by the digits of `n` are accepted if and only if `n` fits in 64 bits, and then read as `n` ("007" is 7) |
| Text.AtoiSignedLeadingZeros | pkg/rate/rate.go:67-70 | the same after a "+" or "-": accepted if and only if the signed value fits in 64 bits, and then read as that value ("-0" is 0, "-007" is -7) |
| Text.AtoiRejectsNonNumeral | pkg/rate/rate.go:67-70 | anything that is not an optional sign followed by digits is refused |
| Limits.ParseFrequency | pkg/rate/rate.go:29-40 | succeeds if and only if the token is one of the nine accepted spellings; day/DAY/d give PerDay, hour/HOUR/h give PerHour, minute/MINUTE/m give PerMinute; a failure names the token |
| Limits.FrequencyOrder | pkg/rate/rate.go:22-26 | PerMinute < PerHour < PerDay, with PerHour = 60 PerMinute and PerDay = 60 PerHour (sixty hours) |
| Limits.Duration | pkg/rate/rate.go:17-19 | a frequency's duration is the same number of nanoseconds |
| Limits.NewLimit | pkg/rate/rate.go:49-51 | the limit has exactly the given unit and quantity |
| Limits.LimitError.Message | pkg/rate/rate.go:39-69 | every error text is the offending text (the token, the whole limit or the quantity part) followed by its kind's suffix: " is not a valid frequency for a rate", " is not a valid limit" or " is not a valid quantity" |
| Limits.MessagesDiffer | pkg/rate/rate.go:39-69 | the three kinds of error give three different texts for the same offending text |
| Limits.ParseFrequencyCaseSensitive | pkg/rate/rate.go:30-39 | "Day", "Hour", "M" and "week" are refused, each error naming its token |
| Limits.ParseLimit | pkg/rate/rate.go:55-76 | a success has exactly one slash, one of the three frequencies and a 64-bit quantity |
| Limits.ParseLimitNeedsOneSlash | pkg/rate/rate.go:57-60 | text without exactly one slash fails as an invalid limit naming the whole text |
| Limits.ParseLimitOfParts | pkg/rate/rate.go:57-75 | on "a/b": a bad frequency is reported first (even when the quantity is also bad), then a bad quantity naming `a`, else the limit (frequency of `b`, value of `a`) |
| Limits.ParseLimitRoundTrip | pkg/rate/rate.go:55-76 | printing a 64-bit quantity and a valid token and parsing the result gives back that limit |
| Limits.ParseLimitQuantityOutOfRange | pkg/rate/rate.go:67-70 | a quantity outside the 64-bit range is reported as an invalid quantity |
| Limits.ParseLimitLeadingZeros | pkg/rate/rate.go:67-75 | a quantity written with leading zeros is accepted: "007/h" is seven per hour |
| Limits.NoSlashInDigits | pkg/rate/rate.go:57 | a run of digits never contains the separator |
| Limits.NoSlashInNumeral | pkg/rate/rate.go:57 | a printed integer never contains the separator |
| Limits.ParseLimitHundredPerDay | pkg/rate/rate.go:54-55 | "100/day" parses to 100 per (sixty-hour) day |
| Limits.ParseLimitUnknownUnit | pkg/rate/rate.go:62-65 | "1/WEEK" fails naming "WEEK" as the frequency |
| Limits.ParseLimitNonNumeric | pkg/rate/rate.go:67-70 | "abc/hour" fails naming "abc" as the quantity |
| Limits.ParseLimitBothBad | pkg/rate/rate.go:62-70 | "abc/week" reports the frequency, which is checked first |
| Limits.ParseLimitNegative | pkg/rate/rate.go:67-73 | "-5/m" parses to -5 per minute |
| Limits.ParseLimitWrongShape | pkg/rate/rate.go:57-60 | "10" and "1/h/x" fail as invalid limits |
| Limiter.Respond | pkg/rate/rate.go:89-111 | admitted if and only if the count reply is not a fatal error and its value is below the quantity; an error is returned if and only if the count failed fatally, with the "getting hits count: " message; the attempt is recorded if and only if there was no fatal count error |
| Limiter.KeyOf | pkg/rate/rate.go:87 | the key is the owner, a "-", then the resource |
| Limiter.WindowStart | pkg/rate/rate.go:85 | the window starts exactly one unit before `now` |
| Limiter.NotFoundIsNotAnError | pkg/rate/rate.go:94-97 | a "not found" reply is handled exactly like success |
| Limiter.NonPositiveQuantityDenies | pkg/rate/rate.go:111 | a quantity of zero or less denies every check |
| Limiter.SlideWindowCheck | pkg/rate/rate.go:83-112 | on the in-memory store, the key ends with the in-window hits followed by `now`; no other key changes; the decision is what `Respond` gives for the count, which is `Admits`; no error |
| Limiter.AdmitsInWindow | pkg/rate/rate.go:85-111 | a check is admitted if and only if the number of hits in the closed window [now - unit, now] is below the quantity |
| Limiter.WindowBoundary | pkg/rate/rate.go:85-94 | a hit exactly one unit old is counted; one a nanosecond older is not |
| Limiter.ZeroUnitForgetsEarlierHits | pkg/rate/rate.go:85-111 | with a zero unit, every earlier hit is purged and the check admits if and only if the quantity is positive |
| Limiter.Replay | pkg/rate/rate.go:83-112 | successive checks give one decision each |
| Limiter.ReplayFrom | pkg/rate/rate.go:83-112 | from any position, the decisions are the check at that instant followed by the decisions against the store it left |
| Limiter.ReplayStep | pkg/rate/rate.go:83-112 | one more check extends the decisions so far by its own decision, and the rest are decided against the store it left |
| Limiter.CheckAll | pkg/rate/rate.go:83-112 | successive real checks on one key of an in-memory store return exactly the decisions `Replay` gives, so the window and quota lemmas hold of the method |
| Limiter.ReplayWithinWindow | pkg/rate/rate.go:89-111 | checks all within one unit, against hits inside every window: the i-th is admitted if and only if earlier hits plus i are below the quantity |
| Limiter.FirstQuantityAdmitted | pkg/rate/rate.go:89-111 | from an empty key, within one unit, exactly the first `quantity` checks are admitted |
| Limiter.HourlyQuota | pkg/rate/redis_test.go:104-119 | after three checks within an hour, a fourth is admitted under 4/hour and denied under 3/hour |
| Limiter.ReplayTwo | pkg/rate/rate.go:83-112 | two successive checks: the second sees the store the first left |
| Limiter.FirstCheckDenied | pkg/rate/rate.go:89-105 | under 1/minute, with one hit in the window, a check is denied and still recorded |
| Limiter.SecondCheck | pkg/rate/rate.go:85-94 | a recorded attempt still counts exactly one unit later and no longer one nanosecond after that |
| Limiter.DeniedAttemptsAreCounted | pkg/rate/rate.go:99-111 | 1/minute with a hit 45 s old: denied now, denied again exactly one minute later, admitted one nanosecond after that |
| Limiter.ExampleHourWindow | pkg/rate/rate_test.go:61-70 | three of the seeded hits lie in the hour window |
| Limiter.ExampleMinuteWindow | pkg/rate/rate_test.go:61-70 | one seeded hit lies in the minute window |
| Limiter.ExampleDecisions | pkg/rate/rate_test.go:22-49 | against the seeded hits, 4/hour and 2/minute admit, 3/hour and 1/minute deny |
| Limiter.SeededKeyIsNotTheCheckKey | pkg/rate/rate_test.go:61-63 | a store seeded under "myservice_resource1" is not read by a check for ("myservice", "resource1"), whose key is "myservice-resource1", so even 3/hour admits |
| Limiter.KeysCanCollide | pkg/rate/rate.go:87 | the key does not separate owner from resource: ("a-b", "c") and ("a", "b-c") share a key |

## Left out

- The asynchronous recording branch (`async == true`, pkg/rate/rate.go:99-103) is left out. It runs `Add` in a goroutine, and the model has no concurrency. Only the synchronous path is modelled.
- `time.Now` and the monotonic-clock details of Go's `time.Time` are not modelled. The clock is the parameter `now`, and instants are integer nanoseconds.
- Logging of the `Drop` and `Add` errors is not modelled. Those errors never change the result, and `Respond` takes only the `Count` reply.
- The Redis-backed store (`redisSlideWindowStorage` and `NewRedisSlideWindowStorage`) is not part of this model. Its source file is not among the modelled files. The in-memory store is the only storage implementation modelled.
- `RedisSlideWindowRateLimiter` (pkg/rate/redis.go:3-18) is not modelled. It is an unfinished stub that compares a fixed count of 10 with the quantity.
- The storage factory (pkg/rate/factory.go), the gRPC service (internal/server/server.go) and the gRPC `main` (cmd/server/main.go) are not part of this model.
- Storage.InMemoryStorage.Add: the expiry hint is ignored, as the in-memory store ignores it. The key expiry that the Redis store relies on is therefore absent, and so is the Redis test case that fast-forwards the key's expiry.
- Storage.InMemoryStorage.Add: writing to a nil map panics in Go. The model's map is always a value.
- Storage.InMemoryStorage.Drop: Go reuses the slice's backing array in place. The model assigns a new sequence, so aliasing of the caller's map and slices is not captured.
- Limits.Frequency: an unbounded integer, where Go's `time.Duration` is a 64-bit integer. Two things at pkg/rate/rate.go:85 are therefore not modelled: the wrap-around of `-Unit` for the most negative duration, and the overflow handling of `time.Time.Add`. Only `NewLimit` can build such a unit; `ParseLimit` yields just the three frequencies.
- Go strings are byte strings; the model's `string` is a sequence of characters. For valid UTF-8 this loses nothing, because the parser only compares tokens exactly and looks only at the ASCII '/', signs and digits.
- Text.Atoi assumes a 64-bit platform. The 32-bit range of `int` is not modelled.
- Text.Split models `strings.Split` only for the one-character separator the parser uses.
- The in-memory limiter test (pkg/rate/rate_test.go) is stale: it passes `time.Hour` where a `Frequency` is expected, and it calls `InMemorySlideWindowRateLimiter`, which the package does not define. Its seeded store is also keyed `myservice_resource1`, which the check never reads. `Limiter.ExampleDecisions` states the decisions that the test expects, computed on the seeded hits themselves. `Limiter.SeededKeyIsNotTheCheckKey` shows that the test as written would not feed them to the check.
