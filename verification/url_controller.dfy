/** The create, redirect and delete endpoints. The HTTP layer is replaced by
    Response values; the random source, the clock and the store's failures
    are inputs. */
module UrlController {
  import opened Outcomes
  import opened Entities
  import opened Repository
  import RandomUrl

  /** How many saves create tries before it gives up with Conflict. */
  const MaxAttempts: nat := 5

  /** What create puts in front of the short code it returns. */
  const UrlPrefix: string := "http://tinyurl.com/"

  /** The request-body field that holds the URL to shorten. */
  const LongUrlKey: string := "longUrl"

  /** Draws that cover the longest create: one generate() before the loop and
      one after each of the MaxAttempts rejected saves. */
  const DrawsPerCreate: nat := RandomUrl.ShortUrlLength * (MaxAttempts + 1)

  /** The long URL of the request body, or None when it is missing or empty. */
  function RequestedLongUrl(body: map<string, string>): (r: Option<string>)
    ensures r.None? <==> LongUrlKey !in body || body[LongUrlKey] == ""
    ensures r.Some? ==> r.value == body[LongUrlKey] && r.value != ""
  {
    if LongUrlKey in body && body[LongUrlKey] != "" then Some(body[LongUrlKey]) else None
  }

  /** What a create did: its answer, the store afterwards, and the number of
      generate() and save calls. Call number i of generate() returns code i
      of the create's code list, so the count names the codes generated. */
  datatype CreateRun = CreateRun(response: Response<string>, store: Store, generates: nat, saves: nat)

  /** How a save call of create can fail apart from the store's own unique
      constraint: with a data-integrity violation, which the loop retries
      like a taken code (a long URL the column rejects, say), or with any
      other failure, which ends the request. */
  datatype Fault = IntegrityViolation | Failure

  /** Save call i raised a data-integrity violation: an injected one, or the
      unique constraint on a code that is already stored. */
  predicate Retried(s: Store, codes: seq<string>, faults: map<nat, Fault>, i: nat)
    requires i < |codes|
  {
    if i in faults then faults[i] == IntegrityViolation else codes[i] in s.urls
  }

  /** The retry loop from the given attempt on, holding the code of
      generate() call number attempt; codes lists what the successive calls
      return. Save calls are numbered like attempts; faults gives the ones
      that fail for a reason outside the store model. The generate() calls
      counted are the ones made inside the loop. */
  function RetryLoop(s: Store, longUrl: string, codes: seq<string>, attempt: nat, faults: map<nat, Fault>): (run: CreateRun)
    requires attempt <= MaxAttempts && |codes| == MaxAttempts + 1
    decreases MaxAttempts - attempt
    ensures run.response.Ok? || run.response.Conflict? || run.response.Unavailable?
    ensures run.saves <= MaxAttempts - attempt
    ensures run.generates <= run.saves
    // every save before the last one raised a data-integrity violation
    ensures forall i :: attempt <= i < attempt + run.generates ==> Retried(s, codes, faults, i)
    ensures run.response.Conflict? ==>
      run.saves == MaxAttempts - attempt && run.generates == run.saves && run.store == s
    ensures run.response.Unavailable? ==>
      && run.saves >= 1 && run.generates == run.saves - 1 && run.store == s
      && var last := attempt + run.saves - 1;
      && last in faults && faults[last] == Failure
    ensures run.response.Ok? ==>
      && run.saves >= 1
      && run.generates == run.saves - 1
      && var last := attempt + run.saves - 1;
      && last !in faults
      && run.response.value == UrlPrefix + codes[last]
      && codes[last] !in s.urls
      && run.store == SaveUrl(s, NewUrl(codes[last], longUrl)).store
  {
    if attempt == MaxAttempts then CreateRun(Conflict, s, 0, 0)
    else if attempt in faults then
      if faults[attempt] == Failure then CreateRun(Unavailable, s, 0, 1)
      else Rejected(RetryLoop(s, longUrl, codes, attempt + 1, faults))
    else
      match SaveUrl(s, NewUrl(codes[attempt], longUrl))
      case Saved(Inserted(u), s') => CreateRun(Ok(UrlPrefix + u.shortUrl), s', 0, 1)
      case Saved(DuplicateKey, _) => Rejected(RetryLoop(s, longUrl, codes, attempt + 1, faults))
  }

  /** A save rejected with a data-integrity violation: one more save and one
      more generate() call in front of the next attempt's run. */
  function Rejected(next: CreateRun): (run: CreateRun)
    ensures run.response == next.response && run.store == next.store
    ensures run.saves == next.saves + 1 && run.generates == next.generates + 1
  {
    next.(generates := next.generates + 1, saves := next.saves + 1)
  }

  /** The codes the generate() calls of one create return, from its draws. */
  function CreateCodes(draws: seq<RandomUrl.Draw>): (codes: seq<string>)
    requires |draws| >= DrawsPerCreate
    ensures |codes| == MaxAttempts + 1
  {
    RandomUrl.Calls(draws, MaxAttempts + 1)
  }

  /** POST /url: validate the body, generate a code, then save it, generating
      a fresh code after each duplicate, for at most MaxAttempts saves. */
  function Create(s: Store, body: map<string, string>, draws: seq<RandomUrl.Draw>, faults: map<nat, Fault>): (run: CreateRun)
    requires |draws| >= DrawsPerCreate
    ensures run.response == BadRequest <==> RequestedLongUrl(body).None?
    ensures run.response == BadRequest ==> run.generates == 0 && run.saves == 0 && run.store == s
    ensures !run.response.NotFound?
    ensures run.response != BadRequest ==> 1 <= run.generates <= MaxAttempts + 1 && run.saves <= MaxAttempts
    // every save before the last one raised a data-integrity violation
    ensures forall i :: 0 <= i < run.generates - 1 ==> Retried(s, CreateCodes(draws), faults, i)
    ensures run.response.Conflict? ==>
      run.saves == MaxAttempts && run.generates == MaxAttempts + 1 && run.store == s
    ensures run.response.Unavailable? ==>
      && run.saves >= 1 && run.generates == run.saves && run.store == s
      && run.saves - 1 in faults && faults[run.saves - 1] == Failure
    ensures run.response.Ok? ==>
      && run.saves >= 1
      && run.generates == run.saves
      && run.saves - 1 !in faults
      && var code := CreateCodes(draws)[run.saves - 1];
      && run.response.value == UrlPrefix + code
      && code !in s.urls
      && run.store == SaveUrl(s, NewUrl(code, body[LongUrlKey])).store
      && FindByShortUrl(run.store, code) == Some(Url(s.nextUrlId, code, body[LongUrlKey]))
  {
    match RequestedLongUrl(body)
    case None => CreateRun(BadRequest, s, 0, 0)
    case Some(longUrl) =>
      var run := RetryLoop(s, longUrl, CreateCodes(draws), 0, faults);
      run.(generates := run.generates + 1)
  }

  /** Saves that raise a data-integrity violation only move the loop on: the
      loop from attempt a ends as the loop from attempt k, after k - a more
      saves. */
  lemma {:induction false} RetryPastCollisions(s: Store, longUrl: string, codes: seq<string>,
                                               a: nat, k: nat, faults: map<nat, Fault>)
    requires a <= k <= MaxAttempts && |codes| == MaxAttempts + 1
    requires forall i :: a <= i < k ==> Retried(s, codes, faults, i)
    ensures RetryLoop(s, longUrl, codes, a, faults).response == RetryLoop(s, longUrl, codes, k, faults).response
    ensures RetryLoop(s, longUrl, codes, a, faults).store == RetryLoop(s, longUrl, codes, k, faults).store
    ensures RetryLoop(s, longUrl, codes, a, faults).saves == k - a + RetryLoop(s, longUrl, codes, k, faults).saves
    decreases k - a
  {
    if a < k {
      assert Retried(s, codes, faults, a);
      assert a in faults || SaveUrl(s, NewUrl(codes[a], longUrl)).outcome == DuplicateKey;
      RetryPastCollisions(s, longUrl, codes, a + 1, k, faults);
    }
  }

  /** When the first k saves raise a data-integrity violation and save k
      meets a free code and no fault, create answers with code k after
      exactly k + 1 generate and k + 1 save calls. */
  lemma CreateSucceedsAfterRetries(s: Store, body: map<string, string>, draws: seq<RandomUrl.Draw>,
                                   faults: map<nat, Fault>, k: nat)
    requires |draws| >= DrawsPerCreate && RequestedLongUrl(body).Some?
    requires k < MaxAttempts
    requires forall i :: 0 <= i < k ==> Retried(s, CreateCodes(draws), faults, i)
    requires k !in faults && CreateCodes(draws)[k] !in s.urls
    ensures Create(s, body, draws, faults).response == Ok(UrlPrefix + CreateCodes(draws)[k])
    ensures Create(s, body, draws, faults).generates == k + 1
    ensures Create(s, body, draws, faults).saves == k + 1
  {
    RetryPastCollisions(s, body[LongUrlKey], CreateCodes(draws), 0, k, faults);
  }

  /** When every save raises a data-integrity violation, create answers
      Conflict after exactly MaxAttempts saves and MaxAttempts + 1 generate
      calls. */
  lemma CreateConflictsWhenAllTaken(s: Store, body: map<string, string>, draws: seq<RandomUrl.Draw>,
                                    faults: map<nat, Fault>)
    requires |draws| >= DrawsPerCreate && RequestedLongUrl(body).Some?
    requires forall i :: 0 <= i < MaxAttempts ==> Retried(s, CreateCodes(draws), faults, i)
    ensures Create(s, body, draws, faults).response == Conflict
    ensures Create(s, body, draws, faults).saves == MaxAttempts
    ensures Create(s, body, draws, faults).generates == MaxAttempts + 1
    ensures Create(s, body, draws, faults).store == s
  {
    RetryPastCollisions(s, body[LongUrlKey], CreateCodes(draws), 0, MaxAttempts, faults);
  }

  /** A long URL that the store rejects on every insert is retried like a
      collision, so create ends in Conflict whatever codes it draws. */
  lemma CreateConflictsOnRejectedUrl(s: Store, body: map<string, string>, draws: seq<RandomUrl.Draw>,
                                     faults: map<nat, Fault>)
    requires |draws| >= DrawsPerCreate && RequestedLongUrl(body).Some?
    requires forall i :: 0 <= i < MaxAttempts ==> i in faults && faults[i] == IntegrityViolation
    ensures Create(s, body, draws, faults).response == Conflict
    ensures Create(s, body, draws, faults).store == s
  {
    CreateConflictsWhenAllTaken(s, body, draws, faults);
  }

  /** A save that fails for any other reason ends create at once with
      Unavailable: no further save and no further generate. */
  lemma CreateFailsFast(s: Store, body: map<string, string>, draws: seq<RandomUrl.Draw>,
                        faults: map<nat, Fault>, k: nat)
    requires |draws| >= DrawsPerCreate && RequestedLongUrl(body).Some?
    requires k < MaxAttempts && k in faults && faults[k] == Failure
    requires forall i :: 0 <= i < k ==> Retried(s, CreateCodes(draws), faults, i)
    ensures Create(s, body, draws, faults).response == Unavailable
    ensures Create(s, body, draws, faults).saves == k + 1
    ensures Create(s, body, draws, faults).generates == k + 1
    ensures Create(s, body, draws, faults).store == s
  {
    RetryPastCollisions(s, body[LongUrlKey], CreateCodes(draws), 0, k, faults);
  }

  /** Create keeps the schema constraints. */
  lemma CreatePreservesValid(s: Store, body: map<string, string>, draws: seq<RandomUrl.Draw>, faults: map<nat, Fault>)
    requires |draws| >= DrawsPerCreate && Valid(s)
    ensures Valid(Create(s, body, draws, faults).store)
  {
    var run := Create(s, body, draws, faults);
    if run.response.Ok? {
      SaveUrlPreservesValid(s, NewUrl(CreateCodes(draws)[run.saves - 1], body[LongUrlKey]));
    }
  }

  // ---------------------------------------------------------------- redirect

  /** What a redirect did: its answer, the store afterwards, and the click it
      handed to the background save, if any. */
  datatype RedirectRun = RedirectRun(response: Response<string>, store: Store, click: Option<UrlStat>)

  /** GET /url/{shortUrl}. A failing lookup is Unavailable. A found code
      answers its long URL and hands a click stamped clickMillis to a
      background save, which takes effect only when recordSucceeds; its
      failure is swallowed. */
  function Redirect(s: Store, shortUrl: string, lookupFails: bool, clickMillis: int, recordSucceeds: bool): (run: RedirectRun)
    ensures lookupFails ==> run.response == Unavailable
    ensures !lookupFails && shortUrl !in s.urls ==> run.response == NotFound
    ensures run.response.Ok? <==> !lookupFails && shortUrl in s.urls
    ensures run.response.Ok? ==> run.response.value == s.urls[shortUrl].longUrl
    ensures run.click.Some? <==> run.response.Ok?
    ensures run.click.Some? ==> run.click.value == NewUrlStat(s.urls[shortUrl], clickMillis)
    ensures run.store.urls == s.urls && run.store.nextUrlId == s.nextUrlId
    ensures !(run.response.Ok? && recordSucceeds) ==> run.store == s
    ensures run.response.Ok? && recordSucceeds ==>
      run.store.stats == s.stats + [StatRow(s.nextStatId, s.urls[shortUrl].id, clickMillis)]
  {
    if lookupFails then RedirectRun(Unavailable, s, None)
    else
      match FindByShortUrl(s, shortUrl)
      case None => RedirectRun(NotFound, s, None)
      case Some(url) =>
        var click := NewUrlStat(url, clickMillis);
        var recorded := if recordSucceeds then SaveStat(s, click) else None;
        var s' := if recorded.Some? then recorded.value else s;
        RedirectRun(Ok(url.longUrl), s', Some(click))
  }

  /** The answer of a redirect depends neither on the click time nor on
      whether the background save succeeds. */
  lemma RedirectIgnoresRecording(s: Store, shortUrl: string, lookupFails: bool,
                                 t1: int, ok1: bool, t2: int, ok2: bool)
    ensures Redirect(s, shortUrl, lookupFails, t1, ok1).response == Redirect(s, shortUrl, lookupFails, t2, ok2).response
  {
  }

  /** A recorded click raises the code's count by one for every threshold
      before its time. */
  lemma RedirectRecordsClick(s: Store, shortUrl: string, clickMillis: int, threshold: int)
    requires shortUrl in s.urls && clickMillis > threshold
    ensures CountBy(Redirect(s, shortUrl, false, clickMillis, true).store.stats, s.urls[shortUrl].id, threshold)
      == CountBy(s.stats, s.urls[shortUrl].id, threshold) + 1
  {
    CountAfterSaveStat(s, NewUrlStat(s.urls[shortUrl], clickMillis), s.urls[shortUrl].id, threshold);
  }

  lemma RedirectPreservesValid(s: Store, shortUrl: string, lookupFails: bool, clickMillis: int, recordSucceeds: bool)
    requires Valid(s)
    ensures Valid(Redirect(s, shortUrl, lookupFails, clickMillis, recordSucceeds).store)
  {
    if !lookupFails && shortUrl in s.urls && recordSucceeds {
      SaveStatPreservesValid(s, NewUrlStat(s.urls[shortUrl], clickMillis));
    }
  }

  // ---------------------------------------------------------------- delete

  /** A call's answer together with the store afterwards. */
  datatype Step<T> = Step(response: Response<T>, store: Store)

  /** DELETE /url/{shortUrl}: succeeds whether or not the code exists; a
      store failure is Unavailable and rolls back. */
  function Delete(s: Store, shortUrl: string, storeFails: bool): (r: Step<()>)
    ensures storeFails ==> r == Step(Unavailable, s)
    ensures !storeFails ==> r.response == Ok(()) && FindByShortUrl(r.store, shortUrl) == None
    ensures !storeFails ==> forall c :: c != shortUrl ==> FindByShortUrl(r.store, c) == FindByShortUrl(s, c)
    ensures shortUrl !in s.urls ==> r.store == s
    // the repository delete, with its cascade to the code's clicks
    ensures !storeFails ==> r.store == DeleteByShortUrl(s, shortUrl)
  {
    if storeFails then Step(Unavailable, s) else Step(Ok(()), DeleteByShortUrl(s, shortUrl))
  }

  /** Delete keeps the schema constraints: no click is left without its url. */
  lemma DeletePreservesValid(s: Store, shortUrl: string, storeFails: bool)
    requires Valid(s)
    ensures Valid(Delete(s, shortUrl, storeFails).store)
  {
    if !storeFails {
      Repository.DeletePreservesValid(s, shortUrl);
    }
  }

  /** A successful delete of a stored code leaves it no clicks in any window,
      and every other url keeps its count. */
  lemma DeleteClearsClicks(s: Store, shortUrl: string, urlId: int, threshold: int)
    requires shortUrl in s.urls
    ensures CountBy(Delete(s, shortUrl, false).store.stats, s.urls[shortUrl].id, threshold) == 0
    ensures urlId != s.urls[shortUrl].id ==>
      CountBy(Delete(s, shortUrl, false).store.stats, urlId, threshold) == CountBy(s.stats, urlId, threshold)
  {
    CountAfterDelete(s, shortUrl, urlId, threshold);
  }

  /** Deleting twice is deleting once. */
  lemma DeleteIdempotent(s: Store, shortUrl: string)
    ensures Delete(Delete(s, shortUrl, false).store, shortUrl, false) == Delete(s, shortUrl, false)
  {
  }
}
