/** The statistics endpoint: click counts of one short code over the fixed
    windows, all measured from one clock reading. The worker pool and the
    parallel stream are modelled as an in-order map; the store's failures
    are inputs. */
module UrlStatsController {
  import opened Outcomes
  import opened Repository
  import opened WindowStats

  /** What a statistics call did: its answer and the windows whose count it
      queried. */
  datatype StatsRun = StatsRun(response: Response<seq<WindowStat>>, queried: seq<Window>)

  /** The entry of one window: its count of the url's clicks after the
      window's threshold for the given clock reading. */
  function EntryFor(stats: seq<StatRow>, urlId: int, w: Window, now: int): WindowStat {
    WindowStat(w, CountBy(stats, urlId, QueryTimestamp(w, now)))
  }

  /** Counts the given windows in order. A window in failing stands for a
      count query that throws; any such failure fails the whole collection. */
  function CountWindows(stats: seq<StatRow>, urlId: int, windows: seq<Window>, now: int,
                        failing: set<Window>): (r: Option<seq<WindowStat>>)
    ensures r.None? <==> exists w :: w in windows && w in failing
    ensures r.Some? ==> |r.value| == |windows|
    ensures r.Some? ==> forall i :: 0 <= i < |windows| ==>
      r.value[i].window == windows[i]
      && r.value[i].count == CountBy(stats, urlId, QueryTimestamp(windows[i], now))
  {
    if windows == [] then Some([])
    else if windows[0] in failing then None
    else
      match CountWindows(stats, urlId, windows[1..], now, failing)
      case None =>
        assert exists w :: w in windows && w in failing by {
          var w :| w in windows[1..] && w in failing;
          assert w in windows;
        }
        None
      case Some(rest) => Some([EntryFor(stats, urlId, windows[0], now)] + rest)
  }

  /** GET /urlStats/{shortUrl}, with now the clock reading taken before the
      lookup. A failing lookup or count is Unavailable, an unknown code is
      NotFound; otherwise one entry per window in declaration order. */
  function UrlStats(s: Store, shortUrl: string, now: int, lookupFails: bool, failing: set<Window>): (run: StatsRun)
    ensures lookupFails ==> run == StatsRun(Unavailable, [])
    ensures !lookupFails && shortUrl !in s.urls ==> run == StatsRun(NotFound, [])
    ensures !lookupFails && shortUrl in s.urls ==> run.queried == Values
    ensures run.response.Ok? <==> !lookupFails && shortUrl in s.urls && failing == {}
    ensures !lookupFails && shortUrl in s.urls && failing != {} ==> run.response == Unavailable
    ensures run.response.Ok? ==>
      && |run.response.value| == |Values|
      && forall i :: 0 <= i < |Values| ==>
        run.response.value[i].window == Values[i]
        && run.response.value[i].count == CountBy(s.stats, s.urls[shortUrl].id, QueryTimestamp(Values[i], now))
  {
    if lookupFails then StatsRun(Unavailable, [])
    else
      match FindByShortUrl(s, shortUrl)
      case None => StatsRun(NotFound, [])
      case Some(url) =>
        SomeWindowFails(failing);
        match CountWindows(s.stats, url.id, Values, now, failing)
        case None => StatsRun(Unavailable, Values)
        case Some(entries) => StatsRun(Ok(entries), Values)
  }

  /** A non-empty set of failing windows always hits one of the windows the
      call queries. */
  lemma SomeWindowFails(failing: set<Window>)
    ensures failing != {} <==> exists w :: w in Values && w in failing
  {
    ValuesInDeclarationOrder();
    if failing != {} {
      var w :| w in failing;
      assert w in Values;
    }
  }

  /** The answer lists Day, Week and All in that order, with the counts of
      the three thresholds of one clock reading. */
  lemma StatsInWindowOrder(s: Store, shortUrl: string, now: int)
    requires shortUrl in s.urls
    ensures var id := s.urls[shortUrl].id;
      UrlStats(s, shortUrl, now, false, {}).response == Ok([
        WindowStat(Day, CountBy(s.stats, id, now - 86_400_000)),
        WindowStat(Week, CountBy(s.stats, id, now - 604_800_000)),
        WindowStat(All, CountBy(s.stats, id, 0))])
  {
    var r := UrlStats(s, shortUrl, now, false, {}).response;
    var id := s.urls[shortUrl].id;
    var expected := [
      WindowStat(Day, CountBy(s.stats, id, now - 86_400_000)),
      WindowStat(Week, CountBy(s.stats, id, now - 604_800_000)),
      WindowStat(All, CountBy(s.stats, id, 0))];
    ValuesInDeclarationOrder();
    assert r.Ok? && |r.value| == 3;
    assert r.value[0] == expected[0] && r.value[1] == expected[1] && r.value[2] == expected[2];
    assert r.value == expected;
  }

  /** When the three counts are read from one store state, they never
      increase from the all-time window to the week to the day, since each
      window's threshold is at or after the previous one's for a clock
      reading at least one week past the epoch. Clicks saved between the
      source's three parallel queries can break this; see README. */
  lemma StatsCountsNested(s: Store, shortUrl: string, now: int)
    requires shortUrl in s.urls && now >= WeekMillis
    ensures var r := UrlStats(s, shortUrl, now, false, {}).response;
      r.Ok? && r.value[0].count <= r.value[1].count <= r.value[2].count
  {
    var id := s.urls[shortUrl].id;
    var r := UrlStats(s, shortUrl, now, false, {}).response;
    ValuesInDeclarationOrder();
    assert r.Ok?;
    assert r.value[0].count == CountBy(s.stats, id, QueryTimestamp(Day, now));
    assert r.value[1].count == CountBy(s.stats, id, QueryTimestamp(Week, now));
    assert r.value[2].count == CountBy(s.stats, id, QueryTimestamp(All, now));
    CountByAntitone(s.stats, id, now - 604_800_000, now - 86_400_000);
    CountByAntitone(s.stats, id, 0, now - 604_800_000);
  }

  /** A single failing window fails the whole call: there is no partial
      answer, whichever window it is. */
  lemma StatsAllOrNothing(s: Store, shortUrl: string, now: int, w: Window)
    requires shortUrl in s.urls
    ensures UrlStats(s, shortUrl, now, false, {w}).response == Unavailable
  {
  }
}
