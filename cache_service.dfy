/** `LlmCacheService`: the cache key, the validity-aware read path, the guarded insert and the
    statistics, all over the `llm_cache` table of `CacheStore`. */
module CacheService {
  import opened Wrappers
  import opened Seqs
  import opened Ingredients
  import opened Llm
  import opened CacheStore

  const SecondsPerDay: int := 86400

  type byte = x: int | 0 <= x < 256

  /** A SHA-256 digest: 32 bytes. */
  type Digest = s: seq<byte> | |s| == 32 witness seq(32, _ => 0)

  // ---------------------------------------------------------------------------------------
  // Hex encoding of the digest

  predicate IsLowerHex(c: char) { '0' <= c <= '9' || 'a' <= c <= 'f' }

  function HexDigit(n: int): (c: char)
    requires 0 <= n < 16
    ensures IsLowerHex(c)
  {
    if n < 10 then (n + '0' as int) as char else (n - 10 + 'a' as int) as char
  }

  function HexValue(c: char): (n: int)
    requires IsLowerHex(c)
    ensures 0 <= n < 16
  {
    if c <= '9' then c as int - '0' as int else c as int - 'a' as int + 10
  }

  /** Two lower-case hex digits per byte, high nibble first. */
  function ToHex(d: seq<byte>): (r: string)
    ensures |r| == 2 * |d|
    ensures forall i :: 0 <= i < |r| ==> IsLowerHex(r[i])
  {
    if |d| == 0 then [] else [HexDigit(d[0] / 16), HexDigit(d[0] % 16)] + ToHex(d[1..])
  }

  predicate IsHexString(s: string) {
    |s| % 2 == 0 && forall i :: 0 <= i < |s| ==> IsLowerHex(s[i])
  }

  function FromHex(s: string): (d: seq<byte>)
    requires IsHexString(s)
    ensures |d| == |s| / 2
  {
    if |s| == 0 then []
    else
      assert IsHexString(s[2..]) by {
        assert forall i :: 0 <= i < |s[2..]| ==> s[2..][i] == s[i + 2];
      }
      [HexValue(s[0]) * 16 + HexValue(s[1])] + FromHex(s[2..])
  }

  /** Decoding the hex text gives back the digest bytes. */
  lemma {:induction false} HexRoundTrip(d: seq<byte>)
    ensures IsHexString(ToHex(d)) && FromHex(ToHex(d)) == d
  {
    if |d| > 0 {
      var b := d[0];
      var h := ToHex(d);
      assert HexValue(HexDigit(b / 16)) == b / 16;
      assert HexValue(HexDigit(b % 16)) == b % 16;
      assert h[2..] == ToHex(d[1..]);
      HexRoundTrip(d[1..]);
      assert d == [b] + d[1..];
    }
  }

  /** Different digests are never rendered as the same text. */
  lemma ToHexInjective(a: seq<byte>, b: seq<byte>)
    ensures ToHex(a) == ToHex(b) <==> a == b
  {
    HexRoundTrip(a);
    HexRoundTrip(b);
  }

  // ---------------------------------------------------------------------------------------
  // Canonical form and key

  /** What the hash is computed over: the set of normalised ingredient names, the prompt, the
      model and the temperature. The user is not part of it. */
  datatype CanonicalRequest = CanonicalRequest(
    ingredients: set<string>,
    prompt: string,
    model: string,
    temperature: real)

  function Canonical(r: LlmRequest): CanonicalRequest {
    CanonicalRequest(NormalizedSet(r.ingredients), r.prompt, r.model, r.temperature)
  }

  /** The key stored in `inputHash`: the digest of the canonical form, in hex. */
  function KeyOf(digest: CanonicalRequest -> Digest, r: LlmRequest): (k: string)
    ensures |k| == 64
    ensures forall i :: 0 <= i < |k| ==> IsLowerHex(k[i])
  {
    ToHex(digest(Canonical(r)))
  }

  lemma {:induction false} NormalizedSetOfEach(xs: seq<string>)
    ensures NormalizedSet(xs) == set x | x in NormalizeEach(xs)
  {
    var each := NormalizeEach(xs);
    forall x | x in NormalizedSet(xs) ensures x in each {
      var y :| y in xs && x == NormalizeIngredient(y);
      var i :| 0 <= i < |xs| && xs[i] == y;
      assert each[i] == x;
    }
    forall x | x in each ensures x in NormalizedSet(xs) {
      var i :| 0 <= i < |each| && each[i] == x;
      assert xs[i] in xs;
    }
  }

  /** Requests whose ingredient lists name the same ingredients once normalised (in any order,
      case, surrounding spaces, or number of repeats), with the same prompt, model and
      temperature, get the same key; the user does not matter. */
  lemma SameKeyForEquivalentRequests(digest: CanonicalRequest -> Digest, r1: LlmRequest, r2: LlmRequest)
    requires forall x :: x in NormalizeEach(r1.ingredients) <==> x in NormalizeEach(r2.ingredients)
    requires r1.prompt == r2.prompt && r1.model == r2.model && r1.temperature == r2.temperature
    ensures KeyOf(digest, r1) == KeyOf(digest, r2)
  {
    NormalizedSetOfEach(r1.ingredients);
    NormalizedSetOfEach(r2.ingredients);
    assert Canonical(r1) == Canonical(r2);
  }

  /** In particular a permutation of the ingredient list leaves the key unchanged. */
  lemma PermutedIngredientsSameKey(digest: CanonicalRequest -> Digest, r: LlmRequest, xs: seq<string>)
    requires multiset(xs) == multiset(r.ingredients)
    ensures KeyOf(digest, r.(ingredients := xs)) == KeyOf(digest, r)
  {
    var r' := r.(ingredients := xs);
    forall x | x in NormalizedSet(xs) ensures x in NormalizedSet(r.ingredients) {
      var y :| y in xs && x == NormalizeIngredient(y);
      assert y in multiset(xs);
    }
    forall x | x in NormalizedSet(r.ingredients) ensures x in NormalizedSet(xs) {
      var y :| y in r.ingredients && x == NormalizeIngredient(y);
      assert y in multiset(r.ingredients);
    }
    assert Canonical(r') == Canonical(r);
  }

  /** Sending the already-normalised list (as `RecipeService` does) yields the key of the raw
      list. */
  lemma NormalizedListSameKey(digest: CanonicalRequest -> Digest, r: LlmRequest)
    ensures KeyOf(digest, r.(ingredients := NormalizeIngredients(r.ingredients))) == KeyOf(digest, r)
  {
    NormalizedSetOfNormalized(r.ingredients);
    assert Canonical(r.(ingredients := NormalizeIngredients(r.ingredients))) == Canonical(r);
  }

  /** Keys are equal exactly when the digests of the canonical forms are: the hex rendering
      neither merges nor splits digests. */
  lemma KeyDistinguishes(digest: CanonicalRequest -> Digest, r1: LlmRequest, r2: LlmRequest)
    ensures KeyOf(digest, r1) == KeyOf(digest, r2) <==> digest(Canonical(r1)) == digest(Canonical(r2))
  {
    ToHexInjective(digest(Canonical(r1)), digest(Canonical(r2)));
  }

  /** Requests with different prompts, models or temperatures have different canonical forms,
      so their keys differ whenever the digest tells those forms apart. */
  lemma CanonicalDistinguishes(digest: CanonicalRequest -> Digest, r1: LlmRequest, r2: LlmRequest)
    requires r1.prompt != r2.prompt || r1.model != r2.model || r1.temperature != r2.temperature
    ensures Canonical(r1) != Canonical(r2)
    ensures digest(Canonical(r1)) != digest(Canonical(r2)) ==> KeyOf(digest, r1) != KeyOf(digest, r2)
  {
    KeyDistinguishes(digest, r1, r2);
  }

  // ---------------------------------------------------------------------------------------
  // Read path

  /** The response served from a cache entry: its payload, model and token count, marked as
      cached with the cache-hit status and no latency. */
  function HitResponse(e: LlmCache): (r: LlmResponse)
    ensures r.cached && r.status == StatusCacheHit && r.latencyMs == 0
    ensures r.content == e.response && r.model == e.model && r.tokensUsed == e.tokensUsed
  {
    LlmResponse(e.response, e.model, e.tokensUsed, true, StatusCacheHit, None, 0)
  }

  lemma ValidRowExists(entries: seq<LlmCache>, e: LlmCache, now: int)
    requires e in entries && IsValidAt(e, now)
    ensures ExistsValid(entries, e.inputHash, now)
  {
    var i :| 0 <= i < |entries| && entries[i] == e;
  }

  /** `getCachedResponse`: the raw lookup, then an expired entry counts as a miss. */
  function Lookup(entries: seq<LlmCache>, h: string, now: int): (r: Option<LlmResponse>)
    ensures r.Some? ==> ExistsValid(entries, h, now)
    ensures r.Some? ==> r.value.cached && r.value.status == StatusCacheHit
    ensures r.Some? ==> FindByHash(entries, h).Some? && r.value == HitResponse(FindByHash(entries, h).value)
    ensures FindByHash(entries, h).Some? && !IsValidAt(FindByHash(entries, h).value, now) ==> r.None?
    ensures (forall i :: 0 <= i < |entries| ==> entries[i].inputHash != h) ==> r.None?
  {
    match FindByHash(entries, h)
    case None => None
    case Some(e) =>
      if IsValidAt(e, now) then
        ValidRowExists(entries, e, now);
        Some(HitResponse(e))
      else None
  }

  /** While at most one entry exists per key, `getCachedResponse` hits exactly when
      `isCached` says so, and serves that entry. */
  lemma LookupAgreesWithIsCached(entries: seq<LlmCache>, h: string, now: int)
    requires UniqueHashes(entries)
    ensures Lookup(entries, h, now).Some? <==> ExistsValid(entries, h, now)
  {
    FindAgreesWithExists(entries, h, now);
  }

  lemma LookupWhenUnique(entries: seq<LlmCache>, h: string, now: int)
    ensures UniqueHashes(entries) ==>
              (Lookup(entries, h, now).Some? <==> ExistsValid(entries, h, now)) &&
              (ExistsValid(entries, h, now) <==> FindByHash(entries, h).Some? && IsValidAt(FindByHash(entries, h).value, now))
  {
    if UniqueHashes(entries) {
      FindAgreesWithExists(entries, h, now);
    }
  }

  // ---------------------------------------------------------------------------------------
  // Write path

  /** The entry `cacheResponse` builds: the response's payload, model and tokens, created now,
      expiring `ttlDays` days later. */
  function NewEntry(h: string, resp: LlmResponse, now: int, ttlDays: nat): (e: LlmCache)
    ensures e.inputHash == h && e.response == resp.content && e.model == resp.model
    ensures e.tokensUsed == resp.tokensUsed && e.createdAt == now
    ensures e.expiresAt - e.createdAt == ttlDays * SecondsPerDay
  {
    LlmCache(h, resp.content, resp.model, resp.tokensUsed, now, now + ttlDays * SecondsPerDay)
  }

  /** Insert-if-absent, guarded by the raw lookup: an existing entry for the key, expired or
      not, is never overwritten. */
  function GuardedInsert(entries: seq<LlmCache>, e: LlmCache): (r: seq<LlmCache>)
    ensures FindByHash(entries, e.inputHash).Some? ==> r == entries
    ensures FindByHash(entries, e.inputHash).None? ==> r == entries + [e]
  {
    if FindByHash(entries, e.inputHash).Some? then entries else entries + [e]
  }

  /** Looking a hash up after appending a row for it that the table lacked finds that row. */
  lemma {:induction false} FindAppended(entries: seq<LlmCache>, e: LlmCache)
    requires FindByHash(entries, e.inputHash).None?
    ensures FindByHash(entries + [e], e.inputHash) == Some(e)
  {
    if |entries| > 0 {
      assert (entries + [e])[1..] == entries[1..] + [e];
      FindAppended(entries[1..], e);
    }
  }

  /** The guarded insert keeps at most one entry per key. */
  lemma GuardedInsertKeepsUnique(entries: seq<LlmCache>, e: LlmCache)
    requires UniqueHashes(entries)
    ensures UniqueHashes(GuardedInsert(entries, e))
  {
  }

  /** First writer wins: of two inserts for the same key, only the first is stored, and it is
      what the key then finds. */
  lemma FirstWriterWins(entries: seq<LlmCache>, e1: LlmCache, e2: LlmCache)
    requires FindByHash(entries, e1.inputHash).None?
    requires e2.inputHash == e1.inputHash
    ensures GuardedInsert(GuardedInsert(entries, e1), e2) == entries + [e1]
    ensures FindByHash(GuardedInsert(GuardedInsert(entries, e1), e2), e1.inputHash) == Some(e1)
  {
    FindAppended(entries, e1);
  }

  /** Cache round trip: once a response is cached for a key the table lacked, the key is valid
      and served from the new entry at every time from now until the expiry, and invalid from
      the expiry on. */
  lemma CacheRoundTrip(entries: seq<LlmCache>, h: string, resp: LlmResponse, now: int, ttlDays: nat, t: int)
    requires UniqueHashes(entries)
    requires FindByHash(entries, h).None?
    ensures var e := NewEntry(h, resp, now, ttlDays);
            var after := GuardedInsert(entries, e);
            (now <= t < e.expiresAt ==> ExistsValid(after, h, t) && Lookup(after, h, t) == Some(HitResponse(e))) &&
            (e.expiresAt <= t ==> !ExistsValid(after, h, t) && Lookup(after, h, t).None?)
  {
    var e := NewEntry(h, resp, now, ttlDays);
    var after := GuardedInsert(entries, e);
    FindAppended(entries, e);
    GuardedInsertKeepsUnique(entries, e);
    FindAgreesWithExists(after, h, t);
  }

  /** A consequence of guarding with the raw lookup: while an expired entry for the key is
      still in the table, caching a fresh response for it stores nothing, and the key keeps
      missing until a sweep removes the old entry. */
  lemma ExpiredEntryBlocksRefresh(entries: seq<LlmCache>, e: LlmCache, now: int)
    requires UniqueHashes(entries)
    requires FindByHash(entries, e.inputHash).Some?
    requires !IsValidAt(FindByHash(entries, e.inputHash).value, now)
    ensures GuardedInsert(entries, e) == entries
    ensures Lookup(GuardedInsert(entries, e), e.inputHash, now).None?
    ensures !ExistsValid(GuardedInsert(entries, e), e.inputHash, now)
  {
    FindAgreesWithExists(entries, e.inputHash, now);
  }

  /** With a seven-day lifetime, one response cached at `t0` into a table without its key is
      removed by the sweep at `t0` plus eight days (one deletion), after which the key is not
      cached. */
  lemma TtlScenario(entries: seq<LlmCache>, h: string, resp: LlmResponse, t0: int)
    requires forall i :: 0 <= i < |entries| ==> entries[i].inputHash != h
    requires forall i :: 0 <= i < |entries| ==> IsValidAt(entries[i], t0 + 8 * SecondsPerDay)
    ensures var after := GuardedInsert(entries, NewEntry(h, resp, t0, 7));
            var sweepAt := t0 + 8 * SecondsPerDay;
            |Filter(after, ExpiredAt(sweepAt))| == 1 &&
            !ExistsValid(Filter(after, ValidAt(sweepAt)), h, sweepAt)
  {
    var e := NewEntry(h, resp, t0, 7);
    var sweepAt := t0 + 8 * SecondsPerDay;
    var after := GuardedInsert(entries, e);
    assert after == entries + [e];
    FilterNone(entries, ExpiredAt(sweepAt));
    FilterSnoc(entries, e, ExpiredAt(sweepAt));
    DeleteKeepsValidView(after, h, sweepAt);
  }

  // ---------------------------------------------------------------------------------------
  // Statistics

  datatype CacheStats = CacheStats(validEntries: nat, totalEntries: nat) {
    /** Valid entries over all entries, and 0 for an empty table. */
    function HitRate(): (r: real)
      ensures totalEntries == 0 ==> r == 0.0
      ensures totalEntries > 0 ==> r * totalEntries as real == validEntries as real
    {
      if totalEntries == 0 then 0.0 else validEntries as real / totalEntries as real
    }
  }

  /** The statistics of any table have a hit rate between 0 and 1. */
  lemma StatsHitRateBounds(entries: seq<LlmCache>, now: int)
    ensures var r := CacheStats(CountValid(entries, now), |entries|).HitRate(); 0.0 <= r <= 1.0
  {
    var v, t := CountValid(entries, now), |entries|;
    if t > 0 {
      RatioBounds(v as real, t as real);
    }
  }

  /** A part over a positive whole lies between 0 and 1. */
  lemma RatioBounds(h: real, n: real)
    requires 0.0 <= h <= n && n > 0.0
    ensures (h / n) * n == h && 0.0 <= h / n <= 1.0
  {
  }

  /** Four valid entries out of eight give a hit rate of one half. */
  lemma HalfHitRate()
    ensures CacheStats(4, 8).HitRate() == 0.5
  {
  }

  // ---------------------------------------------------------------------------------------
  // The service

  class LlmCacheService {
    const repo: LlmCacheRepository
    const digest: CanonicalRequest -> Digest
    const cacheTtlDays: nat

    constructor(repo: LlmCacheRepository, digest: CanonicalRequest -> Digest, cacheTtlDays: nat)
      requires UniqueHashes(repo.entries)
      ensures this.repo == repo && this.digest == digest && this.cacheTtlDays == cacheTtlDays
      ensures Valid()
    {
      this.repo := repo;
      this.digest := digest;
      this.cacheTtlDays := cacheTtlDays;
    }

    /** At most one entry per key. */
    ghost predicate Valid()
      reads repo
    {
      UniqueHashes(repo.entries)
    }

    /** The request's key: 64 lower-case hex digits. */
    function Key(r: LlmRequest): (k: string)
      ensures |k| == 64 && forall i :: 0 <= i < |k| ==> IsLowerHex(k[i])
    {
      KeyOf(digest, r)
    }

    /** While at most one entry exists per key, the request is cached exactly when the raw
        lookup of its key finds an entry that has not expired. */
    predicate IsCached(r: LlmRequest, now: int)
      reads repo
      ensures Valid() ==>
                (IsCached(r, now) <==>
                 repo.FindByInputHash(Key(r)).Some? && IsValidAt(repo.FindByInputHash(Key(r)).value, now))
    {
      LookupWhenUnique(repo.entries, Key(r), now);
      repo.ExistsByInputHashAndNotExpired(Key(r), now)
    }

    /** A hit is served from the entry the key finds, with the cache-hit status; a found but
        expired entry is a miss; while at most one entry exists per key, there is a hit
        exactly when `IsCached` holds. */
    function GetCachedResponse(r: LlmRequest, now: int): (res: Option<LlmResponse>)
      reads repo
      ensures res.Some? ==> res.value.cached && res.value.status == StatusCacheHit && res.value.latencyMs == 0
      ensures res.Some? ==> repo.FindByInputHash(Key(r)).Some? &&
                            res.value == HitResponse(repo.FindByInputHash(Key(r)).value)
      ensures repo.FindByInputHash(Key(r)).Some? && !IsValidAt(repo.FindByInputHash(Key(r)).value, now) ==> res.None?
      ensures Valid() ==> (res.Some? <==> IsCached(r, now))
    {
      LookupWhenUnique(repo.entries, Key(r), now);
      Lookup(repo.entries, Key(r), now)
    }

    /** Saves a new entry for the request's key unless one exists. */
    method CacheResponse(r: LlmRequest, resp: LlmResponse, now: int)
      requires Valid()
      modifies repo
      ensures Valid()
      ensures repo.entries == GuardedInsert(old(repo.entries), NewEntry(Key(r), resp, now, cacheTtlDays))
    {
      var h := Key(r);
      var existing := repo.FindByInputHash(h);
      if existing.None? {
        repo.Save(NewEntry(h, resp, now, cacheTtlDays));
      }
      GuardedInsertKeepsUnique(old(repo.entries), NewEntry(h, resp, now, cacheTtlDays));
    }

    /** Sweeps the entries expired at `now` and returns how many went. */
    method CleanupExpiredEntries(now: int) returns (deleted: nat)
      requires Valid()
      modifies repo
      ensures Valid()
      ensures repo.entries == Filter(old(repo.entries), ValidAt(now))
      ensures deleted == |Filter(old(repo.entries), ExpiredAt(now))|
    {
      FilterKeepsUnique(repo.entries, ValidAt(now));
      deleted := repo.DeleteExpiredEntries(now);
    }

    /** Valid and total entries of the table; the valid ones never outnumber the total, and
        the hit rate lies between 0 and 1. */
    function GetStats(now: int): (s: CacheStats)
      reads repo
      ensures s.validEntries == CountValid(repo.entries, now) && s.totalEntries == |repo.entries|
      ensures s.validEntries <= s.totalEntries && 0.0 <= s.HitRate() <= 1.0
    {
      StatsHitRateBounds(repo.entries, now);
      CacheStats(repo.CountValidEntries(now), repo.Count())
    }
  }
}
