# pastebin-go: paste identity and persistence, modelled in Dafny

This project models the core of a small paste service (`pastebin.go`): how a submitted paste
is checked and given its defaults, how a free 4-letter id is drawn against the Redis store,
how the paste is written as a Redis hash with an optional time-to-live, and how it is read back
by route with one click counted.

Layout, one module per concern:

- `wrappers.dfy` — `Wrappers`: `Option` and `Result`.
- `strconv.dfy` — `Strconv`: decimal text of integers (`strconv.FormatInt`, `strconv.ParseInt`)
  and the round trip between them.
- `pastes.dfy` — `Pastes`: the `Paste` record, the error kinds, the MIME type table, the title and
  body rules and defaults of `createPaste` (as the pure `BuildPaste`, taking the id and the time as
  parameters), and the display and clone tweaks.
- `shortids.dfy` — `ShortIds`: the 62-letter alphabet, the ids a chooser draws, the `paste:<id>` key,
  and the route pattern `^(|/(p|clone))/([a-zA-Z0-9]+)$` as `ParseRoute`.
- `redis.dfy` — `Redis`: how the client flattens a paste into a hash and scans it back, the store
  contents as a value (`Db`: hashes by key, time-to-live by key) with one function per command, and
  the `Store` class whose methods perform those commands in place.
- `pastebin.dfy` — `Pastebin`: `randomString`, `generateUrl`, `createPaste`, `handleAndValidateForm`,
  `savePaste`, `getPaste`, the clone view, the document endpoint and the POST form path, with the
  lifecycle properties (save then read, one click per read, nothing else changes).

Modelling choices:

- A Go string is a Dafny `string` holding one element per byte, so `len(s)` is `|s|`.
- `rand.Intn(62)` is a chooser `draw: nat -> LetterIndex`; `draw(k)` is the k-th value drawn during
  one id generation. The first id generateUrl draws is thrown away; attempt k (k >= 1) uses
  `draw(4k)` to `draw(4k + 3)`.
- Every store command takes a flag (or, for the repeated EXISTS, a function of the attempt) saying
  whether the store answers it with an error; a failed command changes nothing.
- Redis behaviour the service relies on is written out: HMSET sets the given fields and keeps the
  others and the time-to-live; EXPIRE on a missing key does nothing, a positive time sets the
  time-to-live and a time of zero or less deletes the key, for times within EXPIRE's range (beyond
  LLONG_MAX / 1000 seconds either way EXPIRE is refused and changes nothing); HINCRBY counts a missing field as 0,
  refuses a field that is not a canonical integer, and creates a missing key.
- The retry loop has no bound in the source. The model requires that some attempt ends it (a free
  id is drawn or the check errs), which random draws over 62^4 ids do almost surely.
- The stored hash also holds `Url` (the client writes every field not tagged `redis:"-"`), and
  getPaste counts the click on `paste:<Url>` as read from that hash. `Pastebin.Consistent` states
  when that is the key just read; saving and reading keep it.

Behaviour of the code worth noting: the expiry text may carry a sign (`strconv.ParseInt`
accepts `+5` and `-5`), so a negative expiration reaches EXPIRE and, within EXPIRE's range, deletes the new paste at once
(`Pastebin.NegativeExpiryDeletes`); `Size` is never computed and stays 0; an EXISTS error during
id generation reads as "no such paste", so the unchecked id is handed out (see Findings). The
operations that create pastes build on the corrected `Pastebin.GenerateUrl`, which reports that
error instead (see Left out).

## Model

| member | source | states |
|---|---|---|
| `Strconv.FormatInt` | pastebin.go:213 | integers are written in decimal, with a leading "-" exactly for negatives |
| `Strconv.ParseInt` | pastebin.go:194 | a value exactly for text that is an optional sign followed by one or more decimal digits; the digits' value, negated after a "-" |
| `Strconv.ParseIntOrZero` | pastebin.go:194 | text that is not a decimal integer reads as 0; decimal text reads as its value |
| `Strconv.FormatParseRoundTrip` | pastebin.go:213 | every integer written in decimal is read back as itself |
| `Strconv.FormatIntInjective` | pastebin.go:213 | two different integers are never written as the same text |
| `Pastes.TableTagsNonEmpty` | pastebin.go:48-79 | no syntax tag in the MIME table is empty |
| `Pastes.SyntaxFor` | pastebin.go:168 | the lookup is empty exactly for a MIME type outside the table, else the table's tag |
| `Pastes.Validate` | pastebin.go:177-187 | the title and body rules pass exactly when the title has at most 50 bytes and the body 1 to 100000 |
| `Pastes.BuildPaste` | pastebin.go:174-206 | createPaste fails exactly when a rule is broken, with the first broken rule; a built paste has a 1-50 byte title, a 1-100000 byte body, the given id and time |
| `Pastes.TitleCheckedFirst` | pastebin.go:177-181 | a title over 50 bytes fails with TitleTooLong whatever the body |
| `Pastes.BodyErrors` | pastebin.go:183-187 | with a good title, an empty body fails with EmptyBody and one over 100000 bytes with BodyTooBig |
| `Pastes.BuiltPasteIsFresh` | pastebin.go:196-204 | a new paste has 0 clicks, size 0, no countdown, the body given and the title given or "Untitled paste" |
| `Pastes.SyntaxFallback` | pastebin.go:189-192 | if syntax or MIME type is empty both become text and text/plain, otherwise both pass through |
| `Pastes.FormMimeLookup` | pastebin.go:168 | with the tag looked up from the MIME type, a listed type keeps its tag and any other becomes text/plain |
| `Pastes.LenientExpiry` | pastebin.go:194 | an expiry that is not a decimal integer gives expiration 0, otherwise its value |
| `Pastes.ExpiryText` | pastebin.go:194 | an expiry written as the decimal text of n gives expiration n |
| `Pastes.ForDisplay` | pastebin.go:245-251 | the "generic" tag is shown as "" and any other tag is kept; a countdown to createdOn + expiration is set exactly when the paste expires; nothing else changes |
| `Pastes.CloneView` | pastebin.go:270 | the clone's title is the original title followed by " Copy"; nothing else changes |
| `Pastes.CloneOfLongTitleRefused` | pastebin.go:179 | the clone of a title over 45 bytes carries a title createPaste refuses |
| `Pastes.DocumentDefaults` | pastebin.go:302 | the document endpoint builds an untitled text/plain paste that never expires |
| `ShortIds.LettersLayout` | pastebin.go:47 | the alphabet is a-z, A-Z, 1-9, 0 in that order |
| `ShortIds.LettersAreAlnum` | pastebin.go:47 | the alphabet has 62 letters, each in [a-zA-Z0-9] |
| `ShortIds.AlnumInLetters` | pastebin.go:45 | every character of [a-zA-Z0-9] is in the alphabet |
| `ShortIds.DrawnIsId` | pastebin.go:142-148 | drawn text is a non-empty run of alphabet letters |
| `ShortIds.Candidate` | pastebin.go:154-157 | every id drawn has 4 characters, all in [a-zA-Z0-9] |
| `ShortIds.Key` | pastebin.go:212 | the key of an id is "paste:" followed by the id |
| `ShortIds.KeyInjective` | pastebin.go:236 | different ids have different keys |
| `ShortIds.ParseRoute` | pastebin.go:225-230 | a failure is always InvalidRoute; an accepted id is a non-empty [a-zA-Z0-9] run |
| `ShortIds.ParseRouteExact` | pastebin.go:45 | the route gives id exactly when the path is /id, /p/id or /clone/id with id non-empty alphanumeric |
| `ShortIds.CandidateRoutes` | pastebin.go:150-161 | every id generateUrl can produce is read back by all three routes |
| `Redis.Flatten` | pastebin.go:213 | the hash written holds exactly the nine stored fields |
| `Redis.Scan` | pastebin.go:241 | a scanned paste has no countdown |
| `Redis.ScanFlatten` | pastebin.go:241 | scanning the hash of a paste gives the paste back |
| `Redis.ScanOverwrite` | pastebin.go:213 | a paste written over an older hash scans as the paste, whatever the older hash held |
| `Redis.StoredInt` | pastebin.go:243 | Redis reads a field as an integer only when it is that integer's canonical decimal text |
| `Redis.StoredIntFormat` | pastebin.go:243 | every integer the client writes can be incremented by Redis |
| `Redis.Db.HSet` | pastebin.go:213 | HMSET sets the given fields, keeps the key's other fields, the time-to-live and every other key |
| `Redis.Db.Expire` | pastebin.go:216 | EXPIRE refuses, changing nothing, a time beyond LLONG_MAX / 1000 seconds either way; otherwise it sets a positive time-to-live, deletes the key for a non-positive one, ignores a missing key, and touches no other key |
| `Redis.Db.HIncrBy` | pastebin.go:243 | HINCRBY writes the old count (0 if missing) plus delta, or changes nothing when the field is not an integer |
| `Redis.CommandsKeepValid` | pastebin.go:208-243 | no command gives a time-to-live to a key that does not exist |
| `Redis.Store.Exists` | pastebin.go:156 | the EXISTS reply read as an integer: 1 or 0 for presence, 0 together with the error on a failure |
| `Redis.Store.HGetAll` | pastebin.go:236 | the key's fields, none for a missing key, and none with the error on a failure |
| `Redis.Store.HMSet` | pastebin.go:213 | the store afterwards is Db.HSet of the store before, unless the command failed |
| `Redis.Store.Expire` | pastebin.go:216 | the store afterwards is Db.Expire of the store before, unless the command failed; an error is answered on a failure or an out-of-range time |
| `Redis.Store.HIncrBy` | pastebin.go:243 | the store afterwards is Db.HIncrBy of the store before, and the error says whether it failed |
| `Pastebin.RandomString` | pastebin.go:142-148 | n letters, the i-th being the alphabet letter the chooser picks for it |
| `Pastebin.DrawUntilFree` | pastebin.go:154-159 | the id of the first attempt whose EXISTS check errs or finds the key free, with that error; the store is only read |
| `Pastebin.GenerateUrlAsWritten` | pastebin.go:150-161 | a 4-letter alphanumeric id from the loop, free in the store whenever its check did not err |
| `Pastebin.ErrorReadAsFree` | pastebin.go:156-158 | a store whose EXISTS errs makes generateUrl as written return an id already in use |
| `Pastebin.GenerateUrl` | pastebin.go:150-161 | a 4-letter alphanumeric id not in the store, or StoreUnavailable exactly when the last check erred |
| `Pastebin.CreatePaste` | pastebin.go:174-206 | a broken rule fails before any id is drawn; valid input succeeds exactly when the id check did not err, with the built paste and the first free 4-letter candidate as its id; otherwise StoreUnavailable |
| `Pastebin.HandleAndValidateForm` | pastebin.go:163-172 | createPaste with the tag looked up from the MIME type: listed types keep their tag, others become text/plain; a valid form is accepted exactly when the id check did not err |
| `Pastebin.SavePaste` | pastebin.go:208-222 | the store afterwards is HMSET of the paste's fields under paste:id, then EXPIRE only for a non-zero expiration; only the HMSET error is returned |
| `Pastebin.SubmitForm` | pastebin.go:335-341 | a refused or failed submission leaves the store as it was; a valid form is accepted exactly when neither the first settling id check nor HMSET fails, and is then saved under that free candidate key and, unless EXPIRE deleted it, reads back through /p/id as displayed |
| `Pastebin.Lookup` | pastebin.go:224-253 | a read fails only with InvalidRoute or NotFound |
| `Pastebin.GetPaste` | pastebin.go:224-254 | returns the route's paste as displayed, or InvalidRoute/NotFound; the store afterwards has one click counted on a found paste |
| `Pastebin.Clone` | pastebin.go:265-273 | the paste getPaste returns with " Copy" added to the title, and the same click counted |
| `Pastebin.DocumentAsWritten` | pastebin.go:302-309 | valid data gets a key exactly when the first settling id check did not err; the key was free, and reading it gives NotFound because nothing was saved |
| `Pastebin.Document` | pastebin.go:302-309 | valid data gets a key exactly when neither the first settling id check nor HMSET fails; the key was free, the new store is the old one with that paste saved, a failure changes nothing, and the key reads back the untitled text/plain paste holding the data |
| `Pastebin.SaveChangesOnlyItsKey` | pastebin.go:212-217 | saving changes no key but paste:id, neither its hash nor its time-to-live |
| `Pastebin.SaveStoresPaste` | pastebin.go:212-213 | after a successful save the key holds the paste's fields exactly, unless an EXPIRE in range with a negative time deleted it |
| `Pastebin.SaveSetsTtl` | pastebin.go:215-217 | a paste that does not expire leaves every time-to-live alone; a positive expiration within EXPIRE's range, with both HMSET and EXPIRE succeeding, gets exactly its expiration; beyond that range the store is as if EXPIRE had failed |
| `Pastebin.HugeExpiryNeverExpires` | pastebin.go:194-221 | an expiration too large for EXPIRE is refused unseen, so the paste stays stored with no time-to-live |
| `Pastebin.NegativeExpiryDeletes` | pastebin.go:194-216 | a negative expiration within EXPIRE's range deletes the paste just saved; one beyond it leaves the paste stored |
| `Pastebin.SaveKeepsConsistent` | pastebin.go:208-222 | saving keeps every hash under the key of its Url and every click count incrementable |
| `Pastebin.ReadAfterSave` | pastebin.go:208-253 | a saved paste that EXPIRE did not delete (expiration not negative, EXPIRE failed, or the time out of EXPIRE's range), read through any of its routes, is the paste as displayed |
| `Pastebin.ExpiredPasteNotFound` | pastebin.go:236-240 | a paste the store dropped is not found and the read changes nothing |
| `Pastebin.ReadReturnsRequestedId` | pastebin.go:230-243 | in a consistent store a read returns the paste whose id the path names |
| `Pastebin.FailedReadChangesNothing` | pastebin.go:225-240 | a read that fails leaves the store unchanged |
| `Pastebin.ReadCountsOneClick` | pastebin.go:236-243 | a found paste gets exactly one more click, shows the count from before, and no other key or time-to-live changes |
| `Pastebin.ReadKeepsConsistent` | pastebin.go:243 | reading keeps every hash under the key of its Url and every click count incrementable |
| `Pastebin.ReadTwice` | pastebin.go:243-253 | two reads in a row: the second sees one click more and two clicks are counted |
| `Pastebin.PythonRoundTrip` | pastebin.go:168-253 | a Python paste titled T with body hello and expiry 0 reads back as python, text/x-python, T, hello, no countdown |

## Left out

- Redis connection pool, dial, AUTH and PING (pastebin.go:91-123): network set-up; the store is the `Store` object.
- Template rendering, response writing, redirects, headers, the GET raw output of pasteHandler and gzip (pastebin.go:125-140, 256-375, 405): HTTP glue.
- Loading config.json and `main` (pastebin.go:377-407): file I/O and process start.
- Time: `time.Now`, `CreatedOnFormatted` and the durafmt countdown text; the time is a parameter and the countdown is the instant it counts to.
- Random seeding (pastebin.go:396): the chooser stands for rand.
- `panicOnError` and `log.Fatalf` end the process in the source; the model returns StoreUnavailable instead.
- Concurrent requests: click increments that race, and a second writer between EXISTS and HMSET.
- Cancelling the id retry loop: the source has none; the model requires instead that some attempt ends it.
- assets/js/paste.js and gulpfile.js: browser UI and build pipeline.
- Strconv.ParseInt: does not clamp values outside the 64-bit range (strconv returns the bound with an error); the model keeps the unbounded value.
- Pastes.BuildPaste: Size, Clicks, Expiration and CreatedOn are unbounded integers, not Go's 64-bit ones.
- Redis.Scan: ScanStruct stops at the first field it cannot convert, so later fields stay zero; the model reads each field on its own. Hashes the service writes never hold such a field.
- Redis.Db.HIncrBy: does not model Redis' refusal of an increment that overflows 64 bits.
- Redis.Db.HSet: assumes every key holds a hash; a key of another Redis type (a WRONGTYPE error) is not modelled.
- Redis.Db.Expire: models the refusal of a time beyond LLONG_MAX / 1000 seconds, as Redis 7 does, but not the further refusal when the milliseconds plus the current time overflow 64 bits (the clock is not modelled), nor older Redis versions, which let the multiplication wrap.
- Pastebin.CreatePaste: builds on the corrected `Pastebin.GenerateUrl`, as do `Pastebin.HandleAndValidateForm`, `Pastebin.SubmitForm`, `Pastebin.Document` and `Pastebin.DocumentAsWritten`; on an EXISTS error the source's createPaste still returns a paste carrying the unchecked id (pastebin.go:156-160, 197), while these report StoreUnavailable. The as-written behaviour is `Pastebin.GenerateUrlAsWritten`.

## Findings

| source | as written | input that shows it | evidently intended | confidence | as-written member | corrected member |
|---|---|---|---|---|---|---|
| pastebin.go:156-158 | `redis.Int` turns an EXISTS error into the reply 0, so the loop ends with an id that was never checked and `panicOnError` inside the loop can never fire | a store whose EXISTS check errs on attempt 1 while `paste:<drawn id>` exists: the taken id is returned and saving it writes over that paste | a store error ends id generation with an error instead of returning an unchecked id | not executed; high | `Pastebin.ErrorReadAsFree` | `Pastebin.GenerateUrl` |
| pastebin.go:302-309 | documentHandler builds a paste and returns its key but never calls `savePaste` | POST /documents with body "hello": the key K is returned, and GET /K then gives NotFound | the paste is saved, as the form path does at line 341 | not executed; high | `Pastebin.DocumentAsWritten` | `Pastebin.Document` |
