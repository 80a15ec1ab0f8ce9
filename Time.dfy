/**
 Timestamps of payment records. A record's time is parsed at a resolution of
 one second; `Date.getTime()` gives it in milliseconds, and the graph compares
 times through `timeDifference`, which converts a millisecond difference back to
 whole seconds the way `TimeUnit.MILLISECONDS.toSeconds` does.
 */
module Time {

  /** Milliseconds per second. */
  const MillisPerSecond := 1000

  /** `Date.getTime()` of a timestamp parsed at second resolution, `s` seconds after the epoch. */
  function GetTime(s: int): int
  {
    s * MillisPerSecond
  }

  /** `timeDifference(d1, d2)`: (d1 - d2) milliseconds in whole seconds, truncated toward zero. */
  function TimeDifference(d1: int, d2: int): (r: int)
    ensures d1 >= d2 ==> 0 <= r * MillisPerSecond <= d1 - d2 < (r + 1) * MillisPerSecond
    ensures d1 <= d2 ==> (r - 1) * MillisPerSecond < d1 - d2 <= r * MillisPerSecond <= 0
  {
    var diff := d1 - d2;
    if diff >= 0 then diff / MillisPerSecond else -((-diff) / MillisPerSecond)
  }

  /** On timestamps of whole seconds the difference is exact. */
  lemma DifferenceOfWholeSeconds(s1: int, s2: int)
    ensures TimeDifference(GetTime(s1), GetTime(s2)) == s1 - s2
  {
    var r := TimeDifference(GetTime(s1), GetTime(s2));
    assert GetTime(s1) - GetTime(s2) == (s1 - s2) * MillisPerSecond;
    if s1 >= s2 {
      assert r * MillisPerSecond <= (s1 - s2) * MillisPerSecond < (r + 1) * MillisPerSecond;
    } else {
      assert (r - 1) * MillisPerSecond < (s1 - s2) * MillisPerSecond <= r * MillisPerSecond;
    }
  }

}
