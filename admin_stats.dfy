/** The administrator's cache report: the service's four counters, the number of entries
    still active, and the share of lookups the cache answered. */
module AdminStats {
  import opened Seqs
  import opened CacheStore
  import opened CacheService

  /** The report. `activeEntries` and `hitRate` are derived; the rest are the counters. */
  datatype CacheStatsView = CacheStatsView(
    totalEntries: nat,
    expiredEntries: nat,
    activeEntries: int,
    hitRate: real,
    totalHits: nat,
    totalMisses: nat)

  /** Hits over lookups, and 0 when there were no lookups. */
  function HitRate(hits: nat, misses: nat): (r: real)
    ensures hits + misses == 0 ==> r == 0.0
    ensures hits + misses > 0 ==> r * ((hits + misses) as real) == hits as real
    ensures 0.0 <= r <= 1.0
  {
    if hits + misses == 0 then 0.0
    else
      var n := (hits + misses) as real;
      RatioBounds(hits as real, n);
      (hits as real) / n
  }

  /** The report for the service's counters, which it passes through unchanged. */
  function CacheStatsReport(total: nat, expired: nat, hits: nat, misses: nat): (v: CacheStatsView)
    ensures v.totalEntries == total && v.expiredEntries == expired
    ensures v.totalHits == hits && v.totalMisses == misses
    ensures v.activeEntries + v.expiredEntries == v.totalEntries
    ensures v.hitRate == HitRate(hits, misses)
  {
    CacheStatsView(total, expired, total - expired, HitRate(hits, misses), hits, misses)
  }

  // ---------------------------------------------------------------- properties

  /** Over a cache table, the active entries are exactly the valid ones, and never negative. */
  lemma ActiveEntriesAreValid(entries: seq<LlmCache>, now: int, hits: nat, misses: nat)
    ensures var v := CacheStatsReport(|entries|, |Filter(entries, ExpiredAt(now))|, hits, misses);
            v.activeEntries == CountValid(entries, now) && v.activeEntries >= 0
  {
    FilterComplement(entries, ValidAt(now), ExpiredAt(now));
  }

  /** 100 entries of which 20 expired, 60 hits and 40 misses: 80 active and a hit rate of 0.6. */
  lemma SampleReport()
    ensures var v := CacheStatsReport(100, 20, 60, 40);
            v.activeEntries == 80 && v.hitRate == 0.6
  {
    var r := HitRate(60, 40);
    assert r * 100.0 == 60.0;
  }

  /** With no lookups at all the hit rate is 0, not a division by zero. */
  lemma NoLookupsZeroRate()
    ensures CacheStatsReport(0, 0, 0, 0).hitRate == 0.0
  {
  }
}
