# WeatherSearch sessions and "feeling lucky" selector, in Dafny

This project models two parts of the WeatherSearch web front-end. The first is
cookie-based session handling: login, verification with a six-hour validity window
and lazy deletion, logout, the periodic sweep of old sessions, and the session-history
audit trail. The second is the "I'm feeling lucky" city selector, which steps a
per-user index through the city table by double hashing.

The SQLite database is a `Database` object. Each table (`users`, `usersSession`,
`usersHistory`, `luckyTracker`, `city`) is a field holding a sequence of rows in table
order. A statement replaces the table it changes by a function of the old table. A
query loop (`for query.Next()`) is a method with a `while` loop over the rows the
query selects. The clock is an integer `now`, in whole seconds.

Modules, one per concern:

- `CityHash` (`city_hash.dfy`): `doubleHashing` and the full-cycle theorem. 7 and
  209497 are coprime, so from any seed in `[1, 209497]` the iterates are pairwise
  distinct for 209497 steps, cover the whole table, and then return to the seed.
- `Decimal` (`decimal.dfy`): the decimal text that `strconv.Itoa` and `%d` produce,
  and a parser that inverts it.
- `Tables` (`tables.dfy`): row datatypes, the functions that say what each query and
  statement does to a table, and the lemmas about them.
- `Helper` (`helper.dfy`): the `Database` class with the operations of
  `src/helper/helper.go`, plus the query scans as loop methods.
- `Session` (`session.dfy`): the operations of `src/session/session.go` over an
  abstract secure-cookie codec.

### Behaviour worth knowing, modelled as the code has it

- Verification can delete a session other than the caller's expired one. The lazy
  deletion in `IsValidSessionKey` deletes the key of the *last* row scanned for the
  user, not necessarily the caller's expired key. `Tables.LazyDeleteHitsLastRow`
  shows this: an expired `k1` row followed by a fresh `k2` login of the same user.
  Verifying `k1` deletes the fresh `k2` session and keeps the expired `k1` row.
- Verification treats an age of at most 21600 seconds as valid (`<= 6` hours). The
  sweep deletes at six *whole* hours or more (integer division). A session exactly six
  hours old is therefore valid for verification, yet swept
  (`Tables.ValidAndSweptOnlyAtBoundary`).
- A first-time seed comes from `rand.Intn(209490-1) + 1`, so it lies in
  `[1, 209489]`, while `doubleHashing` wraps around a 209497-entry table. The indices
  209490 to 209497 are never a seed, but later steps still reach them.
- A cookie that fails to decode is not handled like a missing cookie.
  `ReadCookieHandler` yields `("", "")`, which `IsValidSessionKey` then checks. The
  result is `(false, "Session expired, please login")`, not `(false, "")`.

## Model

| member | source | states |
|---|---|---|
| `CityHash.DoubleHashing` | src/helper/helper.go:322-336 | an index in [1, 209497] steps to an index in [1, 209497], namely the residue of index − 7 modulo 209497 |
| `CityHash.DoubleHashingCases` | src/helper/helper.go:328-333 | indices of 8 and more drop by exactly 7; indices 1..7 wrap to index − 7 + 209497; no index is its own successor |
| `CityHash.DoubleHashingInjective` | src/helper/helper.go:322-336 | two different table indices never step to the same index |
| `CityHash.DecrementCoprime` | src/helper/helper.go:323-326 | gcd(7, 209497) = 1, with 179569 as the inverse of 7 modulo 209497 |
| `CityHash.IterateClosedForm` | src/helper/helper.go:328-333 | k steps from a table index r give the residue of r − 7k modulo 209497 |
| `CityHash.CoprimeCancel` | src/helper/helper.go:323-324 | if 209497 divides 7k then it divides k |
| `CityHash.IterateRepeatsOnlyAfterCycle` | src/helper/helper.go:320-321 | two iterates from a table index agree only when their step counts differ by a multiple of 209497 |
| `CityHash.NoRepeatWithinCycle` | src/helper/helper.go:320-321 | from any table index, two iterates fewer than 209497 steps apart are different |
| `CityHash.CycleCloses` | src/helper/helper.go:320-336 | after exactly 209497 steps the iteration is back at its seed |
| `CityHash.EveryIndexVisited` | src/helper/helper.go:320-321 | every table index is among the first 209497 iterates from any seed |
| `CityHash.FullCycle` | src/helper/helper.go:320-336 | the full cycle: back to the seed after 209497 steps and never earlier, no repeats within the cycle, every index visited |
| `Decimal.NatToDecimal` | src/helper/helper.go:317 | the text of a natural number is a non-empty run of digits that starts with '0' only for zero |
| `Decimal.Itoa` | src/helper/helper.go:317 | the text starts with '-' exactly for negative numbers |
| `Decimal.AtoiItoa` | src/helper/helper.go:317 | parsing the text Itoa writes gives back the number |
| `Decimal.ItoaInjective` | src/helper/helper.go:251 | different numbers never render to the same text |
| `Tables.UserRowsFor` | src/helper/helper.go:55 | the username query returns exactly the user rows with that name |
| `Tables.WithinWindow` | src/helper/helper.go:126 | the validity test, in whole seconds: the session is at most 21600 seconds old |
| `Tables.HoursOld` | src/helper/helper.go:173 | the session's age in whole hours, ((now − logintime)/60)/60, with division truncated toward zero as in SQLite |
| `Tables.SweepDue` | src/helper/helper.go:173 | the sweep's condition: the whole-hour age is at least 6 (SweepDueIff turns this into age ≥ 21600 s) |
| `Tables.SweepDueIff` | src/helper/helper.go:173 | ((now − logintime)/60)/60 ≥ 6 with truncating division holds exactly when the age is at least 21600 seconds |
| `Tables.ValidAndSweptOnlyAtBoundary` | src/helper/helper.go:126 | a session is both valid for verification and due for the sweep exactly when it is 21600 seconds old; at every age it is at least one of the two |
| `Tables.LastKeyOf` | src/helper/helper.go:115-131 | the key the scan leaves in sessionKey: that of the user's last row, else ""; its meaning is proved in LastKeyOfAbsent and LastKeyOfIsLast |
| `Tables.LastKeyOfAbsent` | src/helper/helper.go:115-131 | the key left in sessionKey is "" when the user has no row |
| `Tables.LastKeyOfIsLast` | src/helper/helper.go:115-131 | for a user with a row, the key left in sessionKey is the key of the user's last row |
| `Tables.WithoutKey` | src/helper/helper.go:144-147 | deleting by key keeps exactly the rows with other keys |
| `Tables.WithoutAbsentKey` | src/helper/helper.go:143-151 | deleting a key no row has leaves the table unchanged |
| `Tables.DeleteKeyIdempotent` | src/helper/helper.go:143-151 | deleting the same key twice equals deleting it once |
| `Tables.AfterVerify` | src/helper/helper.go:133-137 | the session table after a verification: when a row of the user with the key has expired, the rows with the last scanned key are deleted; otherwise the table is unchanged |
| `Tables.VerifyOnlyDeletes` | src/helper/helper.go:128-137 | verification never adds rows and changes the table only when a row of the user with the key has expired |
| `Tables.VerifyInvalidStaysInvalid` | src/helper/helper.go:126-139 | a key that fails verification fails again on the next verification |
| `Tables.LazyDeleteOfLastRow` | src/helper/helper.go:128-137 | when the expired match is the user's last row, every row with the key is deleted and a second verification changes nothing |
| `Tables.LazyDeleteHitsLastRow` | src/helper/helper.go:115-137 | the deletion uses the last scanned key: verifying an expired k1 deletes the user's later, fresh k2 row and keeps the k1 row |
| `Tables.Swept` | src/helper/helper.go:173 | the sweep keeps exactly the rows whose whole-hour age is below 6 |
| `Tables.SweepKeepsYoungRows` | src/helper/helper.go:173 | the sweep keeps exactly the rows younger than 21600 seconds |
| `Tables.SweepIdempotent` | src/helper/helper.go:171-182 | sweeping twice at the same time equals sweeping once |
| `Tables.SweepExample` | src/helper/helper.go:172-173 | of sessions aged 2h, 5h and 7h the sweep removes exactly the 7h one |
| `Tables.MarkByKey` | src/helper/helper.go:206-210 | the update by key keeps every row's login identity; each row is either unchanged or has the new status stamped with now |
| `Tables.StaleActive` | src/helper/helper.go:199 | the cleanup update's row condition: status "Active user" and a whole-hour age of at least 6 |
| `Tables.MarkStale` | src/helper/helper.go:199-203 | the cleanup update keeps the table's length and every row's login identity |
| `Tables.MarkByKeyExactly` | src/helper/helper.go:206-210 | exactly the history rows with the key get the new status; the others are unchanged |
| `Tables.MarkStaleExactly` | src/helper/helper.go:199-204 | only "Active user" rows at least 21600 seconds old change, they get the new status, and no stale active row remains |
| `Tables.TrackedIndex` | src/helper/helper.go:263-274 | what the tracker loop leaves: the value of the user's last row, or nothing; its meaning is proved in TrackedIndexIsLast |
| `Tables.TrackedIndexIsLast` | src/helper/helper.go:263-274 | the tracker query finds nothing exactly when the user has no row, and otherwise yields the value of the user's last row |
| `Tables.SetTracked` | src/helper/helper.go:297-301 | the tracker update keeps the table's length and every row's user |
| `Tables.NextIndex` | src/helper/helper.go:278-284 | the index a draw shows: one double-hashing step from a tracked user's index, else the seed |
| `Tables.AfterDraw` | src/helper/helper.go:286-303 | the tracker after a draw: a tracked user's rows are updated to the new index, and an untracked user gets a new row |
| `Tables.DrawRecordsIndex` | src/helper/helper.go:286-303 | after a draw the user's tracked index is the index the draw showed |
| `Tables.DrawLeavesOthers` | src/helper/helper.go:286-303 | a draw leaves every other user's tracked index as it was |
| `Tables.SetTrackedLeavesOthers` | src/helper/helper.go:297-301 | the tracker update leaves every other user's tracked index as it was |
| `Tables.DrawKeepsTrackerValid` | src/helper/helper.go:278-303 | a draw keeps one tracker row per user and every tracked index in [1, 209497] |
| `Tables.DrawsTrackIteration` | src/helper/helper.go:278-303 | for a new user, k draws leave the seed stepped k − 1 times as the tracked index |
| `Tables.DrawsFollowIteration` | src/helper/helper.go:278-284 | for a new user, the k-th draw shows the seed stepped k − 1 times |
| `Tables.NoRepeatedDraws` | src/helper/helper.go:258-261 | for a new user, two draws fewer than 209497 draws apart never show the same city index |
| `Tables.CityKeyFor` | src/helper/helper.go:306-315 | the key the city loop leaves in cityKey: that of the last row with the index, else 0; its meaning is proved in CityKeyForIsLast |
| `Tables.CityKeyForIsLast` | src/helper/helper.go:306-315 | the city lookup yields 0 when no row has the index, else the key of the last row with it |
| `Tables.CityEntry` | src/helper/helper.go:251 | one autocomplete entry, `{"value":<key>,"label":"<region>"},`, with the key in %d text; its shape is proved in CityEntryShape |
| `Tables.CityEntries` | src/helper/helper.go:248-255 | the loop's output: the entries of the rows, in order; its properties are proved in CityEntriesShape, CityEntriesExtend and CityEntriesAppend |
| `Tables.CityEntryShape` | src/helper/helper.go:251 | an entry starts with `{"value":`, its value digits parse back to the city key, and it ends with a comma |
| `Tables.CityEntriesShape` | src/helper/helper.go:248-255 | the output is empty exactly when there are no rows, and otherwise ends with a comma |
| `Tables.CityEntriesExtend` | src/helper/helper.go:248-255 | one more pass of the loop appends the next row's entry to the output |
| `Tables.CityEntriesAppend` | src/helper/helper.go:248-255 | the output for consecutive rows is the concatenation of their outputs, in order |
| `Helper.ScanSessions` | src/helper/helper.go:118-131 | the loop's validSession is "some row of the user with the key is at most 21600 s old", deleteSession is "some such row is older", and sessionKey is the key of the user's last row |
| `Helper.ScanTracker` | src/helper/helper.go:263-274 | found is "the user has a tracker row"; lastshownkey is the last such row's value, or 0 |
| `Helper.ScanCityKey` | src/helper/helper.go:306-315 | the loop leaves the key of the last city row with the index, and 0 when there is none |
| `Helper.CityQuery` | src/helper/helper.go:240-256 | the output is the entries of the first min(5, n) matched rows in order; empty exactly when nothing matched; otherwise it ends with a comma |
| `Helper.Database.CheckUsernameExists` | src/helper/helper.go:54-66 | true exactly when some user row has the name |
| `Helper.Database.IsValidSessionKey` | src/helper/helper.go:108-140 | returns whether the user has a row with the key at most 21600 s old; if a matching row is older, rows with the key of the user's last row are deleted; otherwise the table is unchanged |
| `Helper.Database.DeleteSessionKey` | src/helper/helper.go:143-151 | removes exactly the session rows with the key and keeps the rest in order |
| `Helper.Database.CreateSession` | src/helper/helper.go:154-167 | appends one session row with the user, the key and login time now, and returns the key |
| `Helper.Database.DeleteOldSessions` | src/helper/helper.go:171-182 | keeps exactly the sessions younger than 21600 s, then marks the stale "Active user" history rows "Session cleaned up" |
| `Helper.Database.CreateSessionHistory` | src/helper/helper.go:186-194 | appends one "Active user" history row for the user and key |
| `Helper.Database.UpdateSessionHistory` | src/helper/helper.go:197-213 | with oldSessions, the stale active rows get the status; otherwise exactly the rows with the key do |
| `Helper.Database.GetRandomCity` | src/helper/helper.go:262-318 | a tracked user's index takes one double-hashing step and a new user's starts at draw + 1 in [1, 209489]; the index is stored, other users are untouched, the tracker invariant is kept, and the result is the text of that city's key, or "0" |
| `Session.Encode` | src/session/session.go:24 | sealing the payload under the cookie name; DecodeEncode proves that decoding inverts it |
| `Session.Decode` | src/session/session.go:39 | decoding succeeds only on a value sealed under the same cookie name |
| `Session.DecodeEncode` | src/session/session.go:24 | decoding inverts encoding under the same name |
| `Session.SetCookieHandler` | src/session/session.go:19-32 | the cookie is named "session" with path "/" and its payload maps "u" to the user and "key" to the session key |
| `Session.ReadCookieHandler` | src/session/session.go:36-43 | a value that fails to decode reads as ("", ""); a decoded payload reads as its "u" and "key" fields, with "" for a missing field |
| `Session.ReadCookieRoundTrip` | src/session/session.go:40 | reading the cookie setCookieHandler wrote gives back its user and key |
| `Session.VerifySession` | src/session/session.go:46-56 | no cookie: (false, "") with no table touched; otherwise valid iff the decoded user and key pass IsValidSessionKey, the message is "" or "Session expired, please login", and the table is left as IsValidSessionKey leaves it |
| `Session.ClearSession` | src/session/session.go:59-63 | deletes the session rows with the cookie's key and marks exactly the history rows with it "User logged out" |
| `Session.SetSession` | src/session/session.go:67-71 | appends one session row and one "Active user" history row with the same key, and sets a cookie that reads back as the user and key |
| `Session.LoginThenVerify` | src/session/session.go:67-71 | the cookie set at login verifies as valid until 21600 s after it, inclusive |
| `Session.LogoutThenVerify` | src/session/session.go:59-63 | after logout the same cookie no longer verifies |
| `Session.ForgedCookieNotValid` | src/session/session.go:39-42 | a value the codec did not seal reads as ("", "") and is not valid while no row has the empty key |

## Left out

- Concurrency and atomicity: the request-per-goroutine server, and running each read-modify-write in one transaction. The model runs one operation at a time, so lost updates between concurrent draws or verifications are not modelled.
- `CleanSessions` (src/session/session.go:74-86): the ticker, the quit channel and the shutdown sweep are timer-driven concurrency. Only the `DeleteOldSessions` step it calls is modelled.
- bcrypt: the session key that `CreateSession` hashes from the user, the pepper and the password is a parameter supplied by the caller. `CreateUser`, `ResetPassword`, `IsValidUser` and `GetSecretQuestion` are not part of this model, because they are credential-store plumbing around bcrypt.
- The securecookie codec is abstract: sealed values decode under their name and nothing else does. Signing, encryption and an encoding failure in `setCookieHandler` (which then sets no cookie) are not modelled.
- `ReadCookieHandler` takes a cookie that is present. Without one, the Go code dereferences a nil cookie, and every caller checks for the cookie first.
- HTTP: requests are reduced to their optional "session" cookie, and responses to the cookie set. Handlers, templates and the weather API client are not part of this model.
- SQL: tables are sequences whose order is the order queries return rows. The text of the statements, the driver and opening or closing the database are not modelled. `checkErr` only logs, so every statement is taken to succeed.
- `CityQuery`: the `LOWER(region) LIKE '%term%'` filter is not modelled. The method takes the rows the filter matched and applies the `LIMIT 5`. Region text is inserted without JSON escaping, as in the code.
- Randomness: `rand.Seed(time.Now().Unix())` is left out. The value `rand.Intn(209490-1)` returns is the parameter `draw`, in `[0, 209489)`.
- Time: `time.Since(loginTime).Hours() <= 6` is compared in whole seconds, as an age of at most 21600 seconds, not as floating-point hours. The `logintime` of session and history rows is taken to be the insertion time. `statusupdatedat = current_timestamp` is `Some(now)`.
- Go's `int` is 64 bits wide. No value in the model comes near that width, so wrap-around is not modelled.
- `PrintSessionHistory`: console output.
