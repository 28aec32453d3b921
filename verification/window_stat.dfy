/** The fixed time windows of the click statistics and the (window, count)
    pairs the statistics endpoint returns. */
module WindowStats {
  import opened Outcomes

  /** One day and one week in milliseconds, the durations of the chrono units. */
  const DayMillis: int := 86_400_000
  const WeekMillis: int := 7 * DayMillis

  /** The range of a Java long. */
  const LongMin: int := -0x8000_0000_0000_0000
  const LongMax: int := 0x7FFF_FFFF_FFFF_FFFF

  /** The windows, in declaration order. */
  datatype Window = Day | Week | All

  /** One entry of the statistics answer. */
  datatype WindowStat = WindowStat(window: Window, count: int)

  /** Every window, in declaration order: the enum's values(). */
  const Values: seq<Window> := [Day, Week, All]

  /** The optional duration each window carries; All has none. */
  function Duration(w: Window): (d: Option<int>)
    ensures d.None? <==> w == All
    ensures d.Some? ==> d.value > 0
  {
    match w
    case Day => Some(DayMillis)
    case Week => Some(WeekMillis)
    case All => None
  }

  /** The timestamp a window counts from: clicks strictly after it are in the
      window. A window with a duration reaches back that far from now; a
      window without one reaches back to the epoch. */
  function QueryTimestamp(w: Window, now: int): (t: int)
    ensures w == Day ==> t == now - 86_400_000
    ensures w == Week ==> t == now - 604_800_000
    ensures w == All ==> t == 0
  {
    match Duration(w)
    case Some(d) => now - d
    case None => 0
  }

  /** values() has one entry per window, in the order Day, Week, All. */
  lemma ValuesInDeclarationOrder()
    ensures |Values| == 3
    ensures Values[0] == Day && Values[1] == Week && Values[2] == All
    ensures forall w: Window :: w in Values
  {
    forall w: Window
      ensures w in Values
    {
      match w
      case Day => assert Values[0] == w;
      case Week => assert Values[1] == w;
      case All => assert Values[2] == w;
    }
  }

  /** For the same now, the day window starts strictly later than the week
      window, and both start no later than now. */
  lemma DayStartsAfterWeek(now: int)
    ensures QueryTimestamp(Week, now) < QueryTimestamp(Day, now) < now
  {
  }

  /** A clock reading that is a non-negative Java long gives thresholds that
      are Java longs too, so the subtraction never wraps around. */
  lemma ThresholdsFitInLong(w: Window, now: int)
    requires 0 <= now <= LongMax
    ensures LongMin <= QueryTimestamp(w, now) <= LongMax
  {
  }
}
