/** The cache-freshness decision shared by the APT and RPM inspectors: a
    cached index is downloaded anew when it is missing or when `file_age`
    exceeds the configured maximum age.

    The file system and the clock are inputs: a cache file is either missing
    or present with an age, given as the integer number of microseconds
    between its modification time and now (`datetime` has microsecond
    resolution; the age is negative for a file dated in the future). */
module Cache {

  const MicrosPerSecond: int := 1_000_000
  const SecondsPerDay: int := 86400
  const MicrosPerDay: int := SecondsPerDay * MicrosPerSecond

  /** The command-line default of `--max-cache-age`, in seconds. */
  const DefaultMaxCacheAge: int := 86400

  datatype CacheState = Missing | Present(ageMicros: int)

  /** `file_age`: the `seconds` field of the `timedelta` now - mtime.  A
      `timedelta` keeps whole days apart, so this field is the age modulo one
      day, rounded down to the second. */
  function FileAge(ageMicros: int): (r: int)
    ensures 0 <= r < SecondsPerDay
    ensures 0 <= ageMicros < MicrosPerDay ==> r == ageMicros / MicrosPerSecond
  {
    (ageMicros % MicrosPerDay) / MicrosPerSecond
  }

  /** The same value reached the other way round: whole seconds, then the
      remainder of a day. */
  lemma FileAgeIsSecondsModDay(ageMicros: int)
    ensures FileAge(ageMicros) == (ageMicros / MicrosPerSecond) % SecondsPerDay
  {
    var q := ageMicros / MicrosPerDay;
    var m := ageMicros % MicrosPerDay;
    assert ageMicros == q * MicrosPerDay + m;
    var s := m / MicrosPerSecond;
    var u := m % MicrosPerSecond;
    assert m == s * MicrosPerSecond + u;
    assert ageMicros == (q * SecondsPerDay + s) * MicrosPerSecond + u;
    assert ageMicros / MicrosPerSecond == q * SecondsPerDay + s;
  }

  /** The decision of `_update_packages_cache` / `_update_package_list_cache`:
      download when the file is missing or its age exceeds `maxAge` (the
      age is only looked at when the file exists). */
  predicate NeedsDownload(state: CacheState, maxAge: int) {
    state.Missing? || FileAge(state.ageMicros) > maxAge
  }

  datatype CacheAction = Download | Reuse

  /** `_update_packages_cache` (APT) and `_update_package_list_cache` (RPM):
      the action taken on the cache file. */
  function Decide(state: CacheState, maxAge: int): (r: CacheAction)
    ensures r == Download <==> state.Missing? || FileAge(state.ageMicros) > maxAge
  {
    if NeedsDownload(state, maxAge) then Download else Reuse
  }

  /** For files less than a day old the decision is the intended one: an age
      equal to the maximum reuses the file, one second more downloads it. */
  lemma FreshnessWithinADay(ageMicros: int, maxAge: int)
    requires 0 <= ageMicros < MicrosPerDay
    ensures NeedsDownload(Present(ageMicros), maxAge) <==> ageMicros / MicrosPerSecond > maxAge
  {
  }

  /** With the default maximum age (or anything at least one day minus a
      second) an existing cache file is never downloaded again, however old. */
  lemma DefaultMaxAgeNeverRefreshes(ageMicros: int, maxAge: int)
    requires maxAge >= SecondsPerDay - 1
    ensures !NeedsDownload(Present(ageMicros), maxAge)
  {
  }

  /** As written, staleness does not grow with age: with a one-hour maximum,
      a two-hour-old file is downloaded again but a 25-hour-old one is not. */
  lemma FreshnessNotMonotone()
    ensures NeedsDownload(Present(2 * 3600 * MicrosPerSecond), 3600)
    ensures !NeedsDownload(Present(25 * 3600 * MicrosPerSecond), 3600)
  {
    assert FileAge(25 * 3600 * MicrosPerSecond) == 3600;
  }

  // ---------------------------------------------------------------------
  // the decision on the file's full age

  /** The corrected decision: compare the file's whole age (in seconds, as
      `timedelta.total_seconds()` gives it) with the maximum. */
  predicate NeedsDownloadFixed(state: CacheState, maxAge: int) {
    state.Missing? || state.ageMicros > maxAge * MicrosPerSecond
  }

  /** The corrected decision ages monotonically: once a file is old enough to
      be downloaded again it stays so, and a file more than `maxAge` seconds
      old is always downloaded again. */
  lemma NeedsDownloadFixedMonotone(a1: int, a2: int, maxAge: int)
    requires a1 <= a2
    ensures NeedsDownloadFixed(Present(a1), maxAge) ==> NeedsDownloadFixed(Present(a2), maxAge)
    ensures a1 >= (maxAge + 1) * MicrosPerSecond ==> NeedsDownloadFixed(Present(a1), maxAge)
  {
  }

  /** On files less than a day old the two decisions differ only inside
      the last fraction of a second: the one as written rounds the age down. */
  lemma FixedAgreesWithinADay(ageMicros: int, maxAge: int)
    requires 0 <= ageMicros < MicrosPerDay
    ensures NeedsDownload(Present(ageMicros), maxAge) ==> NeedsDownloadFixed(Present(ageMicros), maxAge)
    ensures ageMicros % MicrosPerSecond == 0 ==>
              (NeedsDownloadFixed(Present(ageMicros), maxAge) ==> NeedsDownload(Present(ageMicros), maxAge))
  {
    var s := ageMicros / MicrosPerSecond;
    assert ageMicros == s * MicrosPerSecond + ageMicros % MicrosPerSecond;
    if s > maxAge {
      assert s >= maxAge + 1;
      assert ageMicros >= (maxAge + 1) * MicrosPerSecond;
    }
  }
}
