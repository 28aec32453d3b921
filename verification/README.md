# tinyurl core, modelled in Dafny

This project models the core of a URL shortener. The service does four things:

- It maps a long URL to an eight-symbol short code. The code is drawn at random from a 32-symbol alphabet. If a code is already taken, it retries with a fresh code, up to five saves.
- It redirects a short code to its long URL. On the side, it records a click, and that recording is best effort.
- It deletes a code. A delete is idempotent, and it cascades to the code's clicks.
- It reports a code's click counts for three fixed windows: the last day, the last week, and all time. The windows come in that order and are all measured from one clock reading.

Everything is pure. These things are explicit inputs:

- the random draws;
- the clock readings;
- which store calls fail.

The store is an immutable value:

- the `urls` table, keyed by short code;
- the `url_stats` rows;
- an identity counter for each table.

Modules, one per source component:

- `Outcomes` (outcomes.dfy): `Option`, and `Response` (Ok / BadRequest / NotFound / Conflict / Unavailable). `Response` stands in for the HTTP status exceptions.
- `RandomUrl` (random_url.dfy): the alphabet and `Generate`. Also `Calls`, the codes returned by successive `generate()` calls, each reading the draws the previous call left.
- `Entities` (entities.dfy): the `Url` and `UrlStat` records.
- `Repository` (repository.dfy): the store, the schema constraints (`Valid`), lookup, save, delete with cascade, and `CountBy`.
- `WindowStats` (window_stat.dfy): the `Window` enum, its durations and thresholds, and `WindowStat`.
- `UrlController` (url_controller.dfy): create with its retry loop, redirect, and delete.
- `UrlStatsController` (url_stats_controller.dfy): the per-window statistics.

Where a store call can fail for reasons outside the store's own constraints, the failure is an input:

- create: a map `faults` from save-call number to `Fault`. `IntegrityViolation` is any other data-integrity violation of the insert, such as a long URL the column rejects; the loop retries it. `Failure` is any other exception; it ends the request.
- redirect: a `bool` `lookupFails` for the lookup, and a `bool` `recordSucceeds` for whether the background click save lands;
- delete: a `bool` for the delete;
- stats: a `bool` `lookupFails` for the lookup, and a set of windows whose count query throws.

A uniqueness violation on the short code is not an input. It comes from the store model itself.

On an exhausted create, the code calls `generate()` a sixth time after the fifth rejected save, and that code is never saved. A description of the loop as "generate up to five codes" would miss this. The model follows the code: a conflict leaves 6 generated codes and 5 saves.

## Model

| member | source | states |
|---|---|---|
| RandomUrl.AlphabetAscending | src/main/java/tinyurl/random/RandomUrlImpl.java:10-12 | the alphabet has 32 symbols, listed in strictly increasing order |
| RandomUrl.AlphabetDistinct | src/main/java/tinyurl/random/RandomUrlImpl.java:10-12 | the 32 symbols are pairwise distinct |
| RandomUrl.AlphabetExcludesLookalikes | src/main/java/tinyurl/random/RandomUrlImpl.java:10-12 | none of '0', '1', 'l', 'o' is in the alphabet |
| RandomUrl.Encode | src/main/java/tinyurl/random/RandomUrlImpl.java:17-21 | the append loop: output length equals the number of draws, and position i is the symbol that draw i picks |
| RandomUrl.Generate | src/main/java/tinyurl/random/RandomUrlImpl.java:9-21 | one generate(): a code of exactly 8 symbols where symbol i is chars[d_i]; exactly 8 draws are consumed and the rest is returned |
| RandomUrl.GenerateInAlphabet | src/main/java/tinyurl/random/RandomUrlImpl.java:9-21 | every code generate() returns is spelled over the 32-symbol alphabet |
| RandomUrl.DecodeEncode | src/main/java/tinyurl/random/RandomUrlImpl.java:18-20 | the draws can be recovered from the code, so the code is a deterministic, injective function of the draws |
| RandomUrl.EncodeDecode | src/main/java/tinyurl/random/RandomUrlImpl.java:18-20 | every string over the alphabet is the encoding of some draws |
| RandomUrl.GenerateInjective | src/main/java/tinyurl/random/RandomUrlImpl.java:18-20 | two calls that return the same code read the same 8 draws |
| RandomUrl.GenerateOnto | src/main/java/tinyurl/random/RandomUrlImpl.java:9-20 | every 8-symbol code over the alphabet can be generated, so the output space is all 32^8 codes |
| RandomUrl.Calls | src/main/java/tinyurl/UrlController.java:79-86 | n successive generate() calls give n codes of 8 symbols each |
| RandomUrl.CallsStep | src/main/java/tinyurl/UrlController.java:79-86 | the first call's code is generate() on the draws; the remaining calls read only what the first call left |
| RandomUrl.CallReadsItsBlock | src/main/java/tinyurl/random/RandomUrlImpl.java:18-20 | call number i reads exactly the i-th block of 8 draws |
| Entities.NewUrl | src/main/java/tinyurl/Url.java:42-45 | the 2-argument constructor keeps shortUrl and longUrl and leaves the id unassigned (0) for the store |
| Entities.NewUrlStat | src/main/java/tinyurl/UrlStat.java:41-44 | the click constructor keeps the owner and timestampMillis and leaves the id unassigned |
| Entities.UrlAccessors | src/main/java/tinyurl/Url.java:47-69 | each Url getter returns what its setter stored, and a setter changes only its own field |
| Entities.UrlStatAccessors | src/main/java/tinyurl/UrlStat.java:46-68 | each UrlStat getter returns what its setter stored, and a setter changes only its own field |
| Repository.EmptyStoreValid | src/main/java/tinyurl/Url.java:14-30 | a store with no rows meets every schema constraint |
| Repository.ValidHasUniqueShortUrls | src/main/java/tinyurl/Url.java:17 | a store meeting the schema never holds two urls with the same short code |
| Repository.OwnerIsUnique | src/main/java/tinyurl/UrlStat.java:28-29 | every stored click references exactly one stored url |
| Repository.FindByShortUrl | src/main/java/tinyurl/UrlRepository.java:14-15 | finds a url exactly when the code is stored, and then returns the row whose shortUrl is that code; it is a pure lookup |
| Repository.SaveUrl | src/main/java/tinyurl/Url.java:15-22 | a duplicate short code is rejected and leaves the store unchanged; otherwise the row is inserted under a fresh identity with the given code and long URL, and the clicks and their identity counter stay as they were; no stored row is updated |
| Repository.SaveUrlPreservesValid | src/main/java/tinyurl/Url.java:17-22 | inserting a url keeps unique codes, distinct identities and click ownership |
| Repository.FindAfterSave | src/main/java/tinyurl/UrlRepository.java:14-15 | after a successful save, the code looks up to the inserted row |
| Repository.SaveExistingCodeRejected | src/main/java/tinyurl/Url.java:17 | saving a url whose code is already stored is an integrity violation that changes nothing, whatever the long URL |
| Repository.RemoveOwned | src/main/java/tinyurl/UrlStat.java:30 | the cascade removes every click of the deleted url and keeps every other click with its multiplicity |
| Repository.DeleteByShortUrl | src/main/java/tinyurl/UrlRepository.java:17-20 | afterwards the code is absent; an absent code leaves the store unchanged; every other url row is kept unchanged; the url's clicks are removed by the cascade; the identity counters do not move |
| Repository.DeletePreservesValid | src/main/java/tinyurl/UrlStat.java:28-30 | after a delete with cascade, every remaining click still references a stored url |
| Repository.RemoveOwnedKeeps | src/main/java/tinyurl/UrlStat.java:30 | a click that survives the cascade was stored before and does not belong to the deleted url |
| Repository.SurvivorOwnerStored | src/main/java/tinyurl/UrlStat.java:28-30 | the url a surviving click references is still stored after the delete |
| Repository.FindAfterDelete | src/main/java/tinyurl/UrlRepository.java:17-20 | after deleteByShortUrl(c), findByShortUrl(c) is empty |
| Repository.FindOtherAfterDelete | src/main/java/tinyurl/UrlRepository.java:19 | deleting c does not change the lookup of any other code |
| Repository.SaveStat | src/main/java/tinyurl/UrlStat.java:28-29 | a click whose owner is not stored is rejected by the foreign key; otherwise one row (owner id, time) is appended and the urls are untouched |
| Repository.SaveStatPreservesValid | src/main/java/tinyurl/UrlStat.java:28-29 | saving a click keeps the schema constraints |
| Repository.CountBy | src/main/java/tinyurl/UrlStatRepository.java:9-10 | the count never exceeds the number of rows, and it is 0 when no row belongs to the url after the threshold |
| Repository.CountByAppend | src/main/java/tinyurl/UrlStatRepository.java:9 | the count is additive over the rows; with CountBySingle this makes it the number of the url's rows strictly after the threshold |
| Repository.CountBySingle | src/main/java/tinyurl/UrlStatRepository.java:9 | a row counts exactly when it has the url's id and a time strictly greater than the threshold; a row at the threshold does not count |
| Repository.CountByAntitone | src/main/java/tinyurl/UrlStatRepository.java:9 | a lower threshold never gives a smaller count |
| Repository.CountByAfterCascade | src/main/java/tinyurl/UrlStat.java:30 | after the cascade, the deleted url counts 0 and every other url keeps its count |
| Repository.CountAfterDelete | src/main/java/tinyurl/UrlRepository.java:17-20 | deleting a code removes exactly that code's clicks from every count |
| Repository.CountAfterSaveStat | src/main/java/tinyurl/UrlStatRepository.java:9-10 | a saved click adds one to its owner's count for every threshold before its time, and changes no other count |
| WindowStats.Duration | src/main/java/tinyurl/WindowStat.java:18-31 | Day and Week carry a positive duration, All carries none |
| WindowStats.QueryTimestamp | src/main/java/tinyurl/WindowStat.java:33-35 | Day gives now - 86 400 000, Week gives now - 604 800 000, All gives 0 |
| WindowStats.ValuesInDeclarationOrder | src/main/java/tinyurl/WindowStat.java:18-21 | values() has length 3, in the order Day, Week, All, and contains every window |
| WindowStats.DayStartsAfterWeek | src/main/java/tinyurl/WindowStat.java:19-34 | for the same now, the Week threshold < the Day threshold < now |
| WindowStats.ThresholdsFitInLong | src/main/java/tinyurl/WindowStat.java:33-35 | for a clock reading that is a non-negative long, no threshold leaves the long range |
| UrlController.RequestedLongUrl | src/main/java/tinyurl/UrlController.java:75-76 | the body's longUrl is rejected exactly when it is missing or empty |
| UrlController.RetryLoop | src/main/java/tinyurl/UrlController.java:79-93 | the loop ends in Ok, Conflict or Unavailable. Every save but the last raised a data-integrity violation: an injected one, or the unique constraint on a taken code. Conflict means all remaining attempts were used, with the store unchanged. Unavailable means the last save raised another failure, with the store unchanged. Ok means the last save met no fault and a free code, returns the prefix plus that code and inserts it |
| UrlController.CreateCodes | src/main/java/tinyurl/UrlController.java:79-86 | one create draws on MAX_ATTEMPTS + 1 successive generate() calls at most |
| UrlController.Create | src/main/java/tinyurl/UrlController.java:74-94 | BadRequest exactly when longUrl is missing or empty, with no generate or save. Otherwise attempt i saves the i-th successive generate() result, and every attempt before the last raised a data-integrity violation. Conflict comes after 5 saves and 6 generate() calls. Unavailable comes right after a save that raised another failure, with the store unchanged. Ok comes after a save with no fault; it returns URL_PREFIX plus the last generated code, which was free and is now stored with the long URL |
| UrlController.RetryPastCollisions | src/main/java/tinyurl/UrlController.java:81-86 | a save that hits a duplicate changes nothing but the attempt number, so a run of duplicates only adds that many saves |
| UrlController.CreateSucceedsAfterRetries | src/main/java/tinyurl/UrlController.java:79-86 | if the first k < 5 saves raise a data-integrity violation and save k meets no fault and a free code, the answer is URL_PREFIX + code k, after exactly k + 1 generates and k + 1 saves |
| UrlController.CreateConflictsWhenAllTaken | src/main/java/tinyurl/UrlController.java:79-93 | if every save raises a data-integrity violation, the answer is Conflict after exactly 5 saves and 6 generates, and the store is unchanged |
| UrlController.CreateConflictsOnRejectedUrl | src/main/java/tinyurl/UrlController.java:84-93 | a long URL the store rejects with an integrity violation on every insert is retried like a collision and ends in Conflict, whatever codes are drawn, with the store unchanged |
| UrlController.CreateFailsFast | src/main/java/tinyurl/UrlController.java:87-90 | a save failure other than an integrity violation gives Unavailable at once, with no retry: saves and generates both equal that save's number, and the store is unchanged |
| UrlController.CreatePreservesValid | src/main/java/tinyurl/UrlController.java:83 | create keeps the schema constraints of the store |
| UrlController.Redirect | src/main/java/tinyurl/UrlController.java:40-59 | a failing lookup is Unavailable and records nothing. An unknown code is NotFound and records nothing. A found code answers its longUrl and hands over a click (url, clock time) to record, which changes only the clicks table and only when the recording succeeds: the urls and their identity counter stay as they were |
| UrlController.RedirectIgnoresRecording | src/main/java/tinyurl/UrlController.java:49-58 | the answer of a redirect depends neither on the click time nor on whether recording the click fails |
| UrlController.RedirectRecordsClick | src/main/java/tinyurl/UrlController.java:51 | a recorded click raises the code's count by one for every threshold before its time |
| UrlController.RedirectPreservesValid | src/main/java/tinyurl/UrlController.java:49-55 | recording a click keeps the schema constraints |
| UrlController.Delete | src/main/java/tinyurl/UrlController.java:63-70 | a store failure is Unavailable with the store unchanged. Otherwise the answer is Ok whether or not the code existed, the code is gone, every other code looks up as before, and the store is the repository delete with its cascade to the code's clicks |
| UrlController.DeletePreservesValid | src/main/java/tinyurl/UrlController.java:63-70 | delete, failed or not, keeps the schema constraints: no click is left without its url |
| UrlController.DeleteClearsClicks | src/main/java/tinyurl/UrlStat.java:28-30 | after a successful delete the code's url has no clicks in any window, and every other url keeps its count |
| UrlController.DeleteIdempotent | src/main/java/tinyurl/UrlController.java:63-69 | deleting twice gives the same answer and store as deleting once |
| UrlStatsController.CountWindows | src/main/java/tinyurl/UrlStatsController.java:48-57 | fails exactly when some window's count fails. Otherwise it has one entry per window, in the given order, whose count is countBy(url id, that window's threshold) |
| UrlStatsController.UrlStats | src/main/java/tinyurl/UrlStatsController.java:36-59 | a failing lookup is Unavailable and an unknown code is NotFound; neither issues a count query. Any failing window makes the whole answer Unavailable. Otherwise there are 3 entries in the order Day, Week, All, each with countBy(url id, threshold of the one now) |
| UrlStatsController.SomeWindowFails | src/main/java/tinyurl/UrlStatsController.java:54-57 | a non-empty set of failing windows always meets one of the queried windows |
| UrlStatsController.StatsInWindowOrder | src/main/java/tinyurl/UrlStatsController.java:48-53 | the answer is exactly [(Day, count after now - 1 day), (Week, count after now - 1 week), (All, count after 0)] |
| UrlStatsController.StatsCountsNested | src/main/java/tinyurl/UrlStatsController.java:51-52 | for now of at least one week, and all three counts read from one store state, the Day count ≤ the Week count ≤ the All count |
| UrlStatsController.StatsAllOrNothing | src/main/java/tinyurl/UrlStatsController.java:54-57 | any single failing window fails the whole call, with no partial result |

## Left out

- The HTTP layer (routing, `ResponseStatusException`, status codes, messages) is replaced by `Response` variants. Dependency injection is also left out.
- Logging is left out; it has no effect on results.
- The `toString` methods are left out; they are only used for logging.
- The JPA-only no-argument constructors are left out.
- The background click save in redirect is a detached task. It becomes an effect applied after the lookup, and `recordSucceeds` decides whether it lands. The clock reading taken inside the task is the `clickMillis` input. Its interleaving with other requests is not modelled.
- The stats worker pool and the parallel stream become an in-order sequential map. Thread scheduling, blocking and cancellation are not modelled.
- UrlStatsController.StatsCountsNested: the three counts are taken from one store state. The source runs three separate count queries in parallel with no snapshot, and a click saved in the background by a concurrent redirect can land between them. A Day count read after such a click and a Week count read before it give Day = Week + 1, so the ordering is not promised for the source under concurrency.
- UrlStatsController.UrlStats: once the code is found, the model reports all three windows as queried even when a count fails. In the source, the parallel stream may have skipped some windows by then.
- `ThreadLocalRandom` is replaced by a sequence of draws in [0, 32). Create requires 48 draws, enough for its longest run. The statistical uniformity of the source is not stated; the bijection lemmas only show that the code determines its draws and vice versa.
- Java `long` arithmetic is modelled with unbounded integers. `WindowStats.ThresholdsFitInLong` shows that no subtraction wraps for clock readings in [0, Long.MAX_VALUE].
- Identity generation is modelled as one increasing counter per table. Database sequences and id reuse are not modelled.
- Store failures other than the unique constraint and the foreign key are inputs, not causes: the model does not say which long URLs or other data the real columns reject, only how create answers when an insert is rejected. A failed delete is taken to roll back, as the repository method is transactional.
- A JSON `null` for `longUrl` is treated like a missing key. `StringUtils.isEmpty` treats both as empty.
- The greeting endpoint (src/main/java/tinyurl/Controller.java) is left out; it has no design content.
