/** The relational store the controllers talk to: the urls table with its
    unique short code, and the url_stats table whose rows reference a url and
    are deleted with it. */
module Repository {
  import opened Outcomes
  import opened Entities

  /** A stored click: its own id, the id of the owning url and the time. */
  datatype StatRow = StatRow(id: int, urlId: int, timestampMillis: int)

  /** The urls table keyed by short code, the url_stats rows in insertion
      order, and the next identity value of each table. */
  datatype Store = Store(urls: map<string, Url>, stats: seq<StatRow>, nextUrlId: int, nextStatId: int)

  /** A store with no rows. */
  const EmptyStore: Store := Store(map[], [], 1, 1)

  /** The ids of the stored urls. */
  function UrlIds(s: Store): set<int> {
    set c | c in s.urls :: s.urls[c].id
  }

  /** The constraints of the schema: each row sits under its own short code,
      url ids are distinct identity values, and every click references a
      stored url. */
  ghost predicate Valid(s: Store) {
    && 1 <= s.nextUrlId
    && 1 <= s.nextStatId
    && (forall c :: c in s.urls ==> s.urls[c].shortUrl == c && 1 <= s.urls[c].id < s.nextUrlId)
    && (forall c, d :: c in s.urls && d in s.urls && c != d ==> s.urls[c].id != s.urls[d].id)
    && (forall i :: 0 <= i < |s.stats| ==> s.stats[i].urlId in UrlIds(s) && 1 <= s.stats[i].id < s.nextStatId)
  }

  /** The store a fresh schema starts from meets every constraint. */
  lemma EmptyStoreValid()
    ensures Valid(EmptyStore)
  {
  }

  /** No two stored urls share a short code. */
  ghost predicate UniqueShortUrls(s: Store) {
    forall c, d :: c in s.urls && d in s.urls && c != d ==> s.urls[c].shortUrl != s.urls[d].shortUrl
  }

  /** Rows are never updated: a url row still present in s' is the row of s,
      and a click row of s' is a row of s or a freshly inserted one. */
  ghost predicate NoRowUpdated(s: Store, s': Store) {
    && (forall c :: c in s.urls && c in s'.urls ==> s'.urls[c] == s.urls[c])
    && (forall i :: 0 <= i < |s'.stats| ==> s'.stats[i] in s.stats || s'.stats[i].id >= s.nextStatId)
  }

  lemma ValidHasUniqueShortUrls(s: Store)
    requires Valid(s)
    ensures UniqueShortUrls(s)
  {
  }

  /** The unique constraint on short codes also makes every click's owner
      exactly one stored url. */
  lemma OwnerIsUnique(s: Store, i: int)
    requires Valid(s) && 0 <= i < |s.stats|
    ensures exists c :: c in s.urls && s.urls[c].id == s.stats[i].urlId
    ensures forall c, d ::
      (c in s.urls && d in s.urls && s.urls[c].id == s.stats[i].urlId && s.urls[d].id == s.stats[i].urlId) ==> c == d
  {
    OwnerExists(s, s.stats[i].urlId);
  }

  /** An id in UrlIds names a stored url. */
  lemma OwnerExists(s: Store, urlId: int)
    requires urlId in UrlIds(s)
    ensures exists c :: c in s.urls && s.urls[c].id == urlId
  {
  }

  // ---------------------------------------------------------------- urls

  /** SELECT by short code: the stored url with that code, if any. */
  function FindByShortUrl(s: Store, shortUrl: string): (r: Option<Url>)
    ensures r.Some? <==> shortUrl in s.urls
    ensures r.Some? ==> r.value == s.urls[shortUrl]
    ensures Valid(s) && r.Some? ==> r.value.shortUrl == shortUrl && r.value.id in UrlIds(s)
  {
    if shortUrl in s.urls then Some(s.urls[shortUrl]) else None
  }

  /** How an insert of a url ends. */
  datatype SaveOutcome = Inserted(url: Url) | DuplicateKey
  datatype Saved = Saved(outcome: SaveOutcome, store: Store)

  /** save() of a new url: the unique constraint on the short code rejects a
      duplicate and leaves the store as it was; otherwise the row is inserted
      under the next identity value. */
  function SaveUrl(s: Store, u: Url): (r: Saved)
    ensures r.outcome.DuplicateKey? <==> u.shortUrl in s.urls
    ensures r.outcome.DuplicateKey? ==> r.store == s
    ensures r.outcome.Inserted? ==>
      && r.outcome.url.shortUrl == u.shortUrl
      && r.outcome.url.longUrl == u.longUrl
      && r.outcome.url.id == s.nextUrlId
      && r.store.urls == s.urls[u.shortUrl := r.outcome.url]
      && r.store.stats == s.stats
      && r.store.nextUrlId > s.nextUrlId
      && r.store.nextStatId == s.nextStatId
    ensures NoRowUpdated(s, r.store)
  {
    if u.shortUrl in s.urls then Saved(DuplicateKey, s)
    else
      var row := Url(s.nextUrlId, u.shortUrl, u.longUrl);
      Saved(Inserted(row), s.(urls := s.urls[u.shortUrl := row], nextUrlId := s.nextUrlId + 1))
  }

  lemma SaveUrlPreservesValid(s: Store, u: Url)
    requires Valid(s)
    ensures Valid(SaveUrl(s, u).store)
  {
    var s' := SaveUrl(s, u).store;
    if u.shortUrl !in s.urls {
      forall i | 0 <= i < |s'.stats|
        ensures s'.stats[i].urlId in UrlIds(s')
      {
        assert s'.stats[i] == s.stats[i];
        OwnerExists(s, s.stats[i].urlId);
        var c :| c in s.urls && s.urls[c].id == s.stats[i].urlId;
        assert s'.urls[c] == s.urls[c];
      }
    }
  }

  /** After a successful save the code looks up to the inserted row. */
  lemma FindAfterSave(s: Store, u: Url)
    requires SaveUrl(s, u).outcome.Inserted?
    ensures FindByShortUrl(SaveUrl(s, u).store, u.shortUrl) == Some(SaveUrl(s, u).outcome.url)
  {
  }

  /** Saving a url whose code is already stored is an integrity violation and
      changes nothing, whatever the long URL. */
  lemma SaveExistingCodeRejected(s: Store, shortUrl: string, longUrl: string)
    requires FindByShortUrl(s, shortUrl).Some?
    ensures SaveUrl(s, NewUrl(shortUrl, longUrl)) == Saved(DuplicateKey, s)
  {
  }

  /** The clicks of all urls except the one with the given id, in order: what
      the cascade on the foreign key leaves behind. */
  function RemoveOwned(stats: seq<StatRow>, urlId: int): (r: seq<StatRow>)
    ensures forall x :: multiset(r)[x] == if x.urlId == urlId then 0 else multiset(stats)[x]
  {
    if stats == [] then []
    else
      assert stats == [stats[0]] + stats[1..];
      (if stats[0].urlId == urlId then [] else [stats[0]]) + RemoveOwned(stats[1..], urlId)
  }

  /** DELETE by short code, cascading to the code's clicks. Deleting a code
      that is not stored changes nothing. */
  function DeleteByShortUrl(s: Store, shortUrl: string): (s': Store)
    ensures shortUrl !in s'.urls
    ensures shortUrl !in s.urls ==> s' == s
    ensures s'.urls.Keys == s.urls.Keys - {shortUrl}
    ensures forall c :: c in s'.urls ==> s'.urls[c] == s.urls[c]
    ensures shortUrl in s.urls ==> s'.stats == RemoveOwned(s.stats, s.urls[shortUrl].id)
    ensures s'.nextUrlId == s.nextUrlId && s'.nextStatId == s.nextStatId
    ensures NoRowUpdated(s, s')
  {
    if shortUrl !in s.urls then s
    else
      s.(urls := s.urls - {shortUrl}, stats := RemoveOwned(s.stats, s.urls[shortUrl].id))
  }

  /** A click that survives the cascade was stored before and is not owned by
      the deleted url. */
  lemma RemoveOwnedKeeps(stats: seq<StatRow>, urlId: int, x: StatRow)
    requires x in RemoveOwned(stats, urlId)
    ensures x.urlId != urlId && x in stats
  {
    assert x in multiset(RemoveOwned(stats, urlId));
    assert x in multiset(stats);
  }

  /** The owner of a surviving click is still stored after the delete. */
  lemma SurvivorOwnerStored(s: Store, shortUrl: string, x: StatRow)
    requires Valid(s) && shortUrl in s.urls
    requires x in DeleteByShortUrl(s, shortUrl).stats
    ensures x.urlId in UrlIds(DeleteByShortUrl(s, shortUrl)) && 1 <= x.id < s.nextStatId
  {
    var s' := DeleteByShortUrl(s, shortUrl);
    RemoveOwnedKeeps(s.stats, s.urls[shortUrl].id, x);
    var j :| 0 <= j < |s.stats| && s.stats[j] == x;
    assert s.stats[j].urlId in UrlIds(s);
    OwnerExists(s, x.urlId);
    var c :| c in s.urls && s.urls[c].id == x.urlId;
    assert c != shortUrl && c in s'.urls;
  }

  lemma DeletePreservesValid(s: Store, shortUrl: string)
    requires Valid(s)
    ensures Valid(DeleteByShortUrl(s, shortUrl))
  {
    var s' := DeleteByShortUrl(s, shortUrl);
    if shortUrl in s.urls {
      forall i | 0 <= i < |s'.stats|
        ensures s'.stats[i].urlId in UrlIds(s') && 1 <= s'.stats[i].id < s'.nextStatId
      {
        SurvivorOwnerStored(s, shortUrl, s'.stats[i]);
      }
    }
  }

  /** After a delete the code is not found any more. */
  lemma FindAfterDelete(s: Store, shortUrl: string)
    ensures FindByShortUrl(DeleteByShortUrl(s, shortUrl), shortUrl) == None
  {
  }

  /** A delete leaves the lookup of every other code as it was. */
  lemma FindOtherAfterDelete(s: Store, shortUrl: string, other: string)
    requires other != shortUrl
    ensures FindByShortUrl(DeleteByShortUrl(s, shortUrl), other) == FindByShortUrl(s, other)
  {
  }

  // ---------------------------------------------------------------- clicks

  /** save() of a click: the foreign key rejects a click whose owner is not a
      stored url; otherwise the row is appended under the next identity value. */
  function SaveStat(s: Store, st: UrlStat): (r: Option<Store>)
    ensures r.None? <==> st.url.id !in UrlIds(s)
    ensures r.Some? ==>
      && r.value.urls == s.urls
      && r.value.stats == s.stats + [StatRow(s.nextStatId, st.url.id, st.timestampMillis)]
      && r.value.nextUrlId == s.nextUrlId
    ensures r.Some? ==> NoRowUpdated(s, r.value)
  {
    if st.url.id !in UrlIds(s) then None
    else Some(s.(stats := s.stats + [StatRow(s.nextStatId, st.url.id, st.timestampMillis)],
                 nextStatId := s.nextStatId + 1))
  }

  lemma SaveStatPreservesValid(s: Store, st: UrlStat)
    requires Valid(s) && SaveStat(s, st).Some?
    ensures Valid(SaveStat(s, st).value)
  {
  }

  /** Whether a click row is counted for the given url and threshold. */
  predicate Counted(row: StatRow, urlId: int, threshold: int) {
    row.urlId == urlId && row.timestampMillis > threshold
  }

  /** SELECT count(*) of the url's clicks strictly after the threshold. */
  function CountBy(stats: seq<StatRow>, urlId: int, threshold: int): (n: nat)
    ensures n <= |stats|
    ensures n == 0 <== forall i :: 0 <= i < |stats| ==> !Counted(stats[i], urlId, threshold)
  {
    if stats == [] then 0
    else (if Counted(stats[0], urlId, threshold) then 1 else 0) + CountBy(stats[1..], urlId, threshold)
  }

  /** Counting is additive over concatenation: with the single-row case this
      pins the count down as the number of counted rows. */
  lemma {:induction false} CountByAppend(a: seq<StatRow>, b: seq<StatRow>, urlId: int, threshold: int)
    ensures CountBy(a + b, urlId, threshold) == CountBy(a, urlId, threshold) + CountBy(b, urlId, threshold)
  {
    if a != [] {
      assert (a + b)[0] == a[0];
      assert (a + b)[1..] == a[1..] + b;
      CountByAppend(a[1..], b, urlId, threshold);
    } else {
      assert a + b == b;
    }
  }

  /** A single row counts exactly when it belongs to the url and lies
      strictly after the threshold; a row at the threshold is not counted. */
  lemma CountBySingle(row: StatRow, urlId: int, threshold: int)
    ensures CountBy([row], urlId, threshold) == if Counted(row, urlId, threshold) then 1 else 0
    ensures row.timestampMillis == threshold ==> CountBy([row], urlId, threshold) == 0
  {
    assert [row][1..] == [];
  }

  /** A lower threshold counts at least as many clicks. */
  lemma {:induction false} CountByAntitone(stats: seq<StatRow>, urlId: int, lower: int, higher: int)
    requires lower <= higher
    ensures CountBy(stats, urlId, higher) <= CountBy(stats, urlId, lower)
  {
    if stats != [] {
      CountByAntitone(stats[1..], urlId, lower, higher);
    }
  }

  /** After the cascade, the deleted url has no clicks left to count and every
      other url keeps its count. */
  lemma {:induction false} CountByAfterCascade(stats: seq<StatRow>, gone: int, urlId: int, threshold: int)
    ensures CountBy(RemoveOwned(stats, gone), gone, threshold) == 0
    ensures urlId != gone ==> CountBy(RemoveOwned(stats, gone), urlId, threshold) == CountBy(stats, urlId, threshold)
  {
    if stats != [] {
      var head := if stats[0].urlId == gone then [] else [stats[0]];
      CountByAfterCascade(stats[1..], gone, urlId, threshold);
      CountByAppend(head, RemoveOwned(stats[1..], gone), gone, threshold);
      CountByAppend(head, RemoveOwned(stats[1..], gone), urlId, threshold);
      if head != [] {
        CountBySingle(stats[0], gone, threshold);
        CountBySingle(stats[0], urlId, threshold);
      }
    }
  }

  /** Deleting a code removes exactly its clicks from every count. */
  lemma CountAfterDelete(s: Store, shortUrl: string, urlId: int, threshold: int)
    requires shortUrl in s.urls
    ensures CountBy(DeleteByShortUrl(s, shortUrl).stats, s.urls[shortUrl].id, threshold) == 0
    ensures urlId != s.urls[shortUrl].id ==>
      CountBy(DeleteByShortUrl(s, shortUrl).stats, urlId, threshold) == CountBy(s.stats, urlId, threshold)
  {
    CountByAfterCascade(s.stats, s.urls[shortUrl].id, urlId, threshold);
  }

  /** A saved click adds one to its owner's count exactly for thresholds
      before its time, and changes no other url's count. */
  lemma CountAfterSaveStat(s: Store, st: UrlStat, urlId: int, threshold: int)
    requires SaveStat(s, st).Some?
    ensures CountBy(SaveStat(s, st).value.stats, urlId, threshold)
      == CountBy(s.stats, urlId, threshold) + (if urlId == st.url.id && st.timestampMillis > threshold then 1 else 0)
  {
    var row := StatRow(s.nextStatId, st.url.id, st.timestampMillis);
    CountByAppend(s.stats, [row], urlId, threshold);
    CountBySingle(row, urlId, threshold);
  }
}
