/** The two persisted records: a short-code mapping and a click on it. */
module Entities {

  /** The id a record carries before the store has inserted it: the default
      value of the Java long field. */
  const UnassignedId: int := 0

  /** A mapping from a short code to the long URL it stands for (table urls). */
  datatype Url = Url(id: int, shortUrl: string, longUrl: string)

  /** A click on a short code at a given time (table url_stats). The owning
      Url is a plain field, so every click has exactly one owner. */
  datatype UrlStat = UrlStat(id: int, url: Url, timestampMillis: int)

  /** The two-argument constructor: the id is left for the store to assign. */
  function NewUrl(shortUrl: string, longUrl: string): (u: Url)
    ensures u.id == UnassignedId
    ensures u.shortUrl == shortUrl && u.longUrl == longUrl
  {
    Url(UnassignedId, shortUrl, longUrl)
  }

  /** The click constructor: the owner and the time are kept as given, the
      id is left for the store to assign. */
  function NewUrlStat(url: Url, timestampMillis: int): (st: UrlStat)
    ensures st.id == UnassignedId
    ensures st.url == url && st.timestampMillis == timestampMillis
  {
    UrlStat(UnassignedId, url, timestampMillis)
  }

  /** Each Url getter returns what its setter stored, and a setter changes
      only its own field. The setters are datatype updates. */
  lemma UrlAccessors(u: Url, id: int, shortUrl: string, longUrl: string)
    ensures u.(id := id).id == id
    ensures u.(id := id).shortUrl == u.shortUrl && u.(id := id).longUrl == u.longUrl
    ensures u.(shortUrl := shortUrl).shortUrl == shortUrl
    ensures u.(shortUrl := shortUrl).id == u.id && u.(shortUrl := shortUrl).longUrl == u.longUrl
    ensures u.(longUrl := longUrl).longUrl == longUrl
    ensures u.(longUrl := longUrl).id == u.id && u.(longUrl := longUrl).shortUrl == u.shortUrl
  {
  }

  /** The same for the UrlStat getters and setters. */
  lemma UrlStatAccessors(st: UrlStat, id: int, url: Url, timestampMillis: int)
    ensures st.(id := id).id == id
    ensures st.(id := id).url == st.url && st.(id := id).timestampMillis == st.timestampMillis
    ensures st.(url := url).url == url
    ensures st.(url := url).id == st.id && st.(url := url).timestampMillis == st.timestampMillis
    ensures st.(timestampMillis := timestampMillis).timestampMillis == timestampMillis
    ensures st.(timestampMillis := timestampMillis).id == st.id
    ensures st.(timestampMillis := timestampMillis).url == st.url
  {
  }
}
