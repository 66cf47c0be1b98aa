/** The `llm_cache` table and its repository. `findByInputHash` is a raw lookup that also
    returns expired rows; the other queries and the delete treat an entry as valid at `now`
    exactly when `now < expiresAt`, so "valid" and "expired" are complements. */
module CacheStore {
  import opened Wrappers
  import opened Seqs

  /** One cached generation. Times are seconds on the server clock. */
  datatype LlmCache = LlmCache(
    inputHash: string,
    response: Option<string>,
    model: string,
    tokensUsed: nat,
    createdAt: int,
    expiresAt: int)

  predicate IsValidAt(e: LlmCache, now: int) { now < e.expiresAt }

  function ValidAt(now: int): LlmCache -> bool { e => IsValidAt(e, now) }

  function ExpiredAt(now: int): LlmCache -> bool { e => !IsValidAt(e, now) }

  /** The first row with hash `h`, expired or not. */
  function FindByHash(entries: seq<LlmCache>, h: string): (r: Option<LlmCache>)
    ensures r.Some? ==> r.value in entries && r.value.inputHash == h
    ensures r.None? <==> forall i :: 0 <= i < |entries| ==> entries[i].inputHash != h
  {
    if |entries| == 0 then None
    else if entries[0].inputHash == h then Some(entries[0])
    else
      var r := FindByHash(entries[1..], h);
      assert r.Some? ==> r.value in entries;
      assert forall i :: 1 <= i < |entries| ==> entries[i] == entries[1..][i - 1];
      r
  }

  /** Some row with hash `h` has not expired at `now`. */
  predicate ExistsValid(entries: seq<LlmCache>, h: string, now: int)
    ensures ExistsValid(entries, h, now) ==> FindByHash(entries, h).Some?
  {
    exists i :: 0 <= i < |entries| && entries[i].inputHash == h && IsValidAt(entries[i], now)
  }

  /** At most one row per hash: the invariant the guarded insert keeps. */
  predicate UniqueHashes(entries: seq<LlmCache>) {
    forall i, j :: 0 <= i < j < |entries| ==> entries[i].inputHash != entries[j].inputHash
  }

  /** The number of rows valid at `now`: never more than the table holds, and 0 exactly
      when every row has expired (in particular on an empty table). */
  function CountValid(entries: seq<LlmCache>, now: int): (n: nat)
    ensures n <= |entries|
    ensures n == 0 <==> forall i :: 0 <= i < |entries| ==> !IsValidAt(entries[i], now)
  {
    FilterEmptyIff(entries, ValidAt(now));
    |Filter(entries, ValidAt(now))|
  }

  /** Every row is either valid or expired at `now`, never both. */
  lemma ValidPlusExpired(entries: seq<LlmCache>, now: int)
    ensures CountValid(entries, now) + |Filter(entries, ExpiredAt(now))| == |entries|
  {
    FilterComplement(entries, ValidAt(now), ExpiredAt(now));
  }

  /** When hashes are unique the raw lookup and the validity-aware check agree: the row found
      is valid exactly when a valid row exists. */
  lemma {:induction false} FindAgreesWithExists(entries: seq<LlmCache>, h: string, now: int)
    requires UniqueHashes(entries)
    ensures ExistsValid(entries, h, now) <==> (FindByHash(entries, h).Some? && IsValidAt(FindByHash(entries, h).value, now))
  {
    if |entries| > 0 && entries[0].inputHash != h {
      var tail := entries[1..];
      assert UniqueHashes(tail) by {
        forall i, j | 0 <= i < j < |tail| ensures tail[i].inputHash != tail[j].inputHash {
          assert tail[i] == entries[i + 1] && tail[j] == entries[j + 1];
        }
      }
      FindAgreesWithExists(tail, h, now);
      if ExistsValid(entries, h, now) {
        var i :| 0 <= i < |entries| && entries[i].inputHash == h && IsValidAt(entries[i], now);
        assert tail[i - 1] == entries[i];
      }
      if ExistsValid(tail, h, now) {
        var i :| 0 <= i < |tail| && tail[i].inputHash == h && IsValidAt(tail[i], now);
        assert entries[i + 1] == tail[i];
      }
    } else if |entries| > 0 {
      if ExistsValid(entries, h, now) {
        var i :| 0 <= i < |entries| && entries[i].inputHash == h && IsValidAt(entries[i], now);
        assert i == 0;
      }
    }
  }

  /** With nothing expired the sweep keeps every row and deletes none (in particular on an
      empty table). */
  lemma NothingExpiredNothingDeleted(entries: seq<LlmCache>, now: int)
    requires forall i :: 0 <= i < |entries| ==> IsValidAt(entries[i], now)
    ensures Filter(entries, ValidAt(now)) == entries
    ensures |Filter(entries, ExpiredAt(now))| == 0
  {
    FilterAll(entries, ValidAt(now));
    FilterNone(entries, ExpiredAt(now));
  }

  lemma ExistsWhenUnique(entries: seq<LlmCache>, h: string, now: int)
    ensures UniqueHashes(entries) ==>
              (ExistsValid(entries, h, now) <==> FindByHash(entries, h).Some? && IsValidAt(FindByHash(entries, h).value, now))
  {
    if UniqueHashes(entries) {
      FindAgreesWithExists(entries, h, now);
    }
  }

  /** Filtering keeps hashes unique. */
  lemma {:induction false} FilterKeepsUnique(entries: seq<LlmCache>, p: LlmCache -> bool)
    requires UniqueHashes(entries)
    ensures UniqueHashes(Filter(entries, p))
  {
    if |entries| > 0 {
      var init := entries[..|entries| - 1];
      var last := entries[|entries| - 1];
      assert entries == init + [last];
      assert UniqueHashes(init);
      FilterKeepsUnique(init, p);
      var f := Filter(init, p);
      forall i | 0 <= i < |f| ensures f[i].inputHash != last.inputHash {
        var k :| 0 <= k < |init| && init[k] == f[i];
        assert entries[k] == f[i];
      }
    }
  }

  /** After the sweep at `now` a hash is still findable exactly when it had a valid row, so
      valid rows survive and expired ones are gone. */
  lemma FindAfterDelete(entries: seq<LlmCache>, h: string, now: int)
    ensures FindByHash(Filter(entries, ValidAt(now)), h).Some? <==> ExistsValid(entries, h, now)
  {
    var kept := Filter(entries, ValidAt(now));
    if ExistsValid(entries, h, now) {
      var i :| 0 <= i < |entries| && entries[i].inputHash == h && IsValidAt(entries[i], now);
      assert ValidAt(now)(entries[i]);
      var k :| 0 <= k < |kept| && kept[k] == entries[i];
    }
    if FindByHash(kept, h).Some? {
      var e := FindByHash(kept, h).value;
      var k :| 0 <= k < |kept| && kept[k] == e;
      assert ValidAt(now)(kept[k]);
      var i :| 0 <= i < |entries| && entries[i] == e;
    }
  }

  /** The sweep changes neither the validity-aware check nor the valid count, and a second
      sweep at the same time finds nothing to delete. */
  lemma DeleteKeepsValidView(entries: seq<LlmCache>, h: string, now: int)
    ensures ExistsValid(Filter(entries, ValidAt(now)), h, now) == ExistsValid(entries, h, now)
    ensures CountValid(Filter(entries, ValidAt(now)), now) == CountValid(entries, now)
  {
    FilterIdempotent(entries, ValidAt(now));
    ValidRowsSurvive(entries, h, now);
  }

  lemma ValidRowsSurvive(entries: seq<LlmCache>, h: string, now: int)
    ensures ExistsValid(Filter(entries, ValidAt(now)), h, now) == ExistsValid(entries, h, now)
  {
    if ExistsValid(entries, h, now) {
      var i :| 0 <= i < |entries| && entries[i].inputHash == h && IsValidAt(entries[i], now);
      KeptRowValid(entries, entries[i], now);
    }
    if ExistsValid(Filter(entries, ValidAt(now)), h, now) {
      KeptRowsValid(entries, h, now);
    }
  }

  lemma KeptRowValid(entries: seq<LlmCache>, e: LlmCache, now: int)
    requires e in entries && IsValidAt(e, now)
    ensures ExistsValid(Filter(entries, ValidAt(now)), e.inputHash, now)
  {
    var kept := Filter(entries, ValidAt(now));
    var i :| 0 <= i < |entries| && entries[i] == e;
    assert ValidAt(now)(entries[i]);
    assert e in kept;
    var k :| 0 <= k < |kept| && kept[k] == e;
  }

  lemma KeptRowsValid(entries: seq<LlmCache>, h: string, now: int)
    requires ExistsValid(Filter(entries, ValidAt(now)), h, now)
    ensures ExistsValid(entries, h, now)
  {
    var kept := Filter(entries, ValidAt(now));
    var k :| 0 <= k < |kept| && kept[k].inputHash == h && IsValidAt(kept[k], now);
    assert kept[k] in entries;
    var i :| 0 <= i < |entries| && entries[i] == kept[k];
  }

  /** A second sweep at the same time finds nothing to delete. */
  lemma DeleteIdempotent(entries: seq<LlmCache>, now: int)
    ensures Filter(Filter(entries, ValidAt(now)), ExpiredAt(now)) == []
  {
    var kept := Filter(entries, ValidAt(now));
    FilterNone(kept, ExpiredAt(now));
  }

  /** An entry that is expired at `now` is expired at every later time too, so a sweep never
      needs to be repeated for rows it has already judged. */
  lemma ExpiryIsPermanent(e: LlmCache, now: int, later: int)
    requires now <= later
    requires !IsValidAt(e, now)
    ensures !IsValidAt(e, later)
  {
  }

  /** The rows of the deletion scenario: two valid and three expired entries with five
      distinct hashes; the sweep removes three, and "keep-1", "keep-2" remain findable while
      "delete-1" does not. */
  lemma DeleteScenario(k1: LlmCache, k2: LlmCache, d1: LlmCache, d2: LlmCache, d3: LlmCache, now: int)
    requires IsValidAt(k1, now) && IsValidAt(k2, now)
    requires !IsValidAt(d1, now) && !IsValidAt(d2, now) && !IsValidAt(d3, now)
    requires d1.inputHash != k1.inputHash && d1.inputHash != k2.inputHash
    ensures |Filter([k1, k2, d1, d2, d3], ExpiredAt(now))| == 3
    ensures FindByHash(Filter([k1, k2, d1, d2, d3], ValidAt(now)), k1.inputHash).Some?
    ensures FindByHash(Filter([k1, k2, d1, d2, d3], ValidAt(now)), k2.inputHash).Some?
    ensures FindByHash(Filter([k1, k2, d1, d2, d3], ValidAt(now)), d1.inputHash).None?
  {
    var keep, gone := [k1, k2], [d1, d2, d3];
    assert [k1, k2, d1, d2, d3] == keep + gone;
    SweepSplits(keep, gone, now);
    assert keep[1..] == [k2];
  }

  /** Valid entries followed by expired ones: the sweep keeps the first and deletes the second. */
  lemma SweepSplits(keep: seq<LlmCache>, gone: seq<LlmCache>, now: int)
    requires forall i :: 0 <= i < |keep| ==> IsValidAt(keep[i], now)
    requires forall i :: 0 <= i < |gone| ==> !IsValidAt(gone[i], now)
    ensures Filter(keep + gone, ValidAt(now)) == keep
    ensures |Filter(keep + gone, ExpiredAt(now))| == |gone|
  {
    var v, x := ValidAt(now), ExpiredAt(now);
    FilterAppend(keep, gone, v);
    FilterAppend(keep, gone, x);
    FilterAll(keep, v);
    FilterNone(gone, v);
    FilterAll(gone, x);
    FilterNone(keep, x);
  }

  /** One pass over `s`: the entries still valid at `now`, in order, and the number expired. */
  method SplitExpired(s: seq<LlmCache>, now: int) returns (kept: seq<LlmCache>, expired: nat)
    ensures kept == Filter(s, ValidAt(now))
    ensures expired == |Filter(s, ExpiredAt(now))|
  {
    var valid := ValidAt(now);
    kept := [];
    var i := 0;
    while i < |s|
      invariant 0 <= i <= |s|
      invariant kept == Filter(s[..i], valid)
    {
      assert s[..i + 1] == s[..i] + [s[i]];
      FilterSnoc(s[..i], s[i], valid);
      if valid(s[i]) {
        kept := kept + [s[i]];
      }
      i := i + 1;
    }
    assert s[..i] == s;
    ValidPlusExpired(s, now);
    expired := |s| - |kept|;
  }

  /** The `llm_cache` table. */
  class LlmCacheRepository {
    var entries: seq<LlmCache>

    constructor()
      ensures entries == []
    {
      entries := [];
    }

    method Save(e: LlmCache)
      modifies this
      ensures entries == old(entries) + [e]
    {
      entries := entries + [e];
    }

    /** The raw lookup: some row with hash `h`, expired or not, and none exactly when no
        row carries `h`. */
    function FindByInputHash(h: string): (r: Option<LlmCache>)
      reads this
      ensures r.Some? ==> r.value in entries && r.value.inputHash == h
      ensures r.None? <==> forall i :: 0 <= i < |entries| ==> entries[i].inputHash != h
    {
      FindByHash(entries, h)
    }

    /** A row with hash `h` that has not expired at `now` exists; with one row per hash,
        exactly when the raw lookup finds a row that has not expired. */
    predicate ExistsByInputHashAndNotExpired(h: string, now: int)
      reads this
      ensures ExistsByInputHashAndNotExpired(h, now) ==> FindByInputHash(h).Some?
      ensures UniqueHashes(entries) ==>
                (ExistsByInputHashAndNotExpired(h, now) <==>
                 FindByInputHash(h).Some? && IsValidAt(FindByInputHash(h).value, now))
    {
      ExistsWhenUnique(entries, h, now);
      ExistsValid(entries, h, now)
    }

    /** The rows valid at `now`; together with the expired ones they are all rows. */
    function CountValidEntries(now: int): (n: nat)
      reads this
      ensures n + |Filter(entries, ExpiredAt(now))| == |entries|
      ensures n == 0 <==> forall i :: 0 <= i < |entries| ==> !IsValidAt(entries[i], now)
    {
      ValidPlusExpired(entries, now);
      CountValid(entries, now)
    }

    function Count(): nat
      reads this
    {
      |entries|
    }

    /** Removes every entry expired at `now`, keeping the others in order, and returns how
        many it removed. */
    method DeleteExpiredEntries(now: int) returns (deleted: nat)
      modifies this
      ensures entries == Filter(old(entries), ValidAt(now))
      ensures deleted == |Filter(old(entries), ExpiredAt(now))|
      ensures deleted == |old(entries)| - |entries|
    {
      var kept;
      kept, deleted := SplitExpired(entries, now);
      ValidPlusExpired(entries, now);
      entries := kept;
    }
  }
}
