/** The audit trail of generation requests: one row per request, and the per-user queries
    that read it. Rows are kept in the order they were saved. */
module GenerationAudit {
  import opened Wrappers
  import opened Seqs
  import opened Paging
  import opened Llm

  /** One audited generation request; `createdAt` is the time it was saved, in seconds. */
  datatype RecipeGeneration = RecipeGeneration(
    userId: string,
    ingredients: seq<string>,
    prompt: string,
    modelUsed: string,
    status: string,
    cached: bool,
    latencyMs: nat,
    tokensUsed: nat,
    createdAt: int)

  function OfUser(u: string): RecipeGeneration -> bool { (g: RecipeGeneration) => g.userId == u }
  function SuccessOf(u: string): RecipeGeneration -> bool { (g: RecipeGeneration) => g.userId == u && g.status == StatusSuccess }
  function CacheHitOf(u: string): RecipeGeneration -> bool { (g: RecipeGeneration) => g.userId == u && g.cached }
  function CreatedAfterOf(u: string, cutoff: int): RecipeGeneration -> bool { (g: RecipeGeneration) => g.userId == u && g.createdAt > cutoff }

  function CreatedAt(g: RecipeGeneration): int { g.createdAt }
  function Latency(g: RecipeGeneration): int { g.latencyMs }
  function Tokens(g: RecipeGeneration): int { g.tokensUsed }

  /** The user's rows, newest first. */
  function NewestFirst(rows: seq<RecipeGeneration>, u: string): (r: seq<RecipeGeneration>)
    ensures multiset(r) == multiset(Filter(rows, OfUser(u)))
    ensures forall i, j :: 0 <= i < j < |r| ==> r[i].createdAt >= r[j].createdAt
  {
    SortDesc(Filter(rows, OfUser(u)), CreatedAt)
  }

  /** One page of the user's rows, newest first. */
  function FindByUserIdOrderByCreatedAtDesc(rows: seq<RecipeGeneration>, u: string, page: nat, size: nat)
    : (p: Page<RecipeGeneration>)
    requires size >= 1
    ensures p.totalElements == |Filter(rows, OfUser(u))|
    ensures forall i :: 0 <= i < |p.content| ==> p.content[i] in rows && p.content[i].userId == u
    ensures forall i, j :: 0 <= i < j < |p.content| ==> p.content[i].createdAt >= p.content[j].createdAt
    ensures |p.content| == if page * size < p.totalElements then Min(size, p.totalElements - page * size) else 0
  {
    PageOfNewest(rows, u, page, size);
    assert |NewestFirst(rows, u)| == |Filter(rows, OfUser(u))|;
    PageOf(NewestFirst(rows, u), page, size)
  }

  lemma NewestFirstRows(rows: seq<RecipeGeneration>, u: string)
    ensures forall x :: x in NewestFirst(rows, u) ==> x in rows && x.userId == u
  {
    var s := NewestFirst(rows, u);
    forall x | x in s ensures x in rows && x.userId == u {
      assert x in multiset(s);
      assert x in Filter(rows, OfUser(u));
    }
  }

  lemma PageOfNewest(rows: seq<RecipeGeneration>, u: string, page: nat, size: nat)
    requires size >= 1
    ensures var c := PageOf(NewestFirst(rows, u), page, size).content;
            (forall i :: 0 <= i < |c| ==> c[i] in rows && c[i].userId == u) &&
            (forall i, j :: 0 <= i < j < |c| ==> c[i].createdAt >= c[j].createdAt)
  {
    NewestFirstRows(rows, u);
    SortedPage(NewestFirst(rows, u), page, size);
  }

  /** A page of rows listed newest first is itself newest first. */
  lemma SortedPage(s: seq<RecipeGeneration>, page: nat, size: nat)
    requires size >= 1
    requires forall i, j :: 0 <= i < j < |s| ==> s[i].createdAt >= s[j].createdAt
    ensures var c := PageOf(s, page, size).content;
            (forall i :: 0 <= i < |c| ==> c[i] in s) &&
            (forall i, j :: 0 <= i < j < |c| ==> c[i].createdAt >= c[j].createdAt)
  {
    var c := PageOf(s, page, size).content;
    PageRows(s, page, size);
    forall i, j | 0 <= i < j < |c| ensures c[i].createdAt >= c[j].createdAt {
      assert c[i] == s[page * size + i] && c[j] == s[page * size + j];
    }
  }

  /** One page of the user's rows saved strictly after `cutoff`. The query promises no
      order; here they come in the order they were saved. */
  function FindByUserIdAndCreatedAtAfter(rows: seq<RecipeGeneration>, u: string, cutoff: int, page: nat, size: nat)
    : (p: Page<RecipeGeneration>)
    requires size >= 1
    ensures p.totalElements == |Filter(rows, CreatedAfterOf(u, cutoff))|
    ensures |p.content| == if page * size < p.totalElements then Min(size, p.totalElements - page * size) else 0
    ensures forall i :: 0 <= i < |p.content| ==> p.content[i] in rows && p.content[i].userId == u && p.content[i].createdAt > cutoff
  {
    PageOf(Filter(rows, CreatedAfterOf(u, cutoff)), page, size)
  }

  /** The number of the user's requests: never more than the table holds, and 0 exactly
      when the user has no row. */
  function CountByUserId(rows: seq<RecipeGeneration>, u: string): (n: nat)
    ensures n <= |rows|
    ensures n == 0 <==> forall i :: 0 <= i < |rows| ==> rows[i].userId != u
  {
    FilterEmptyIff(rows, OfUser(u));
    |Filter(rows, OfUser(u))|
  }

  /** The number of the user's requests that were served from the cache; never more than
      the user's requests. */
  function CountCacheHitsByUserId(rows: seq<RecipeGeneration>, u: string): (n: nat)
    ensures n <= CountByUserId(rows, u)
  {
    FilterStronger(rows, OfUser(u), CacheHitOf(u));
    |Filter(rows, CacheHitOf(u))|
  }

  /** The total of the user's tokens, 0 when the user has no rows. */
  function SumTokensUsedByUserId(rows: seq<RecipeGeneration>, u: string): (n: int)
    ensures n >= 0
    ensures CountByUserId(rows, u) == 0 ==> n == 0
  {
    var mine := Filter(rows, OfUser(u));
    assert |mine| == 0 ==> mine == [];
    Sum(mine, Tokens)
  }

  /** The mean latency of the user's SUCCESS rows; absent (SQL `NULL`) when there are none. */
  function CalculateAverageLatencyByUserId(rows: seq<RecipeGeneration>, u: string): (r: Option<real>)
    ensures r.None? <==> forall i :: 0 <= i < |rows| && rows[i].userId == u ==> rows[i].status != StatusSuccess
    ensures r.Some? ==> IsMeanLatency(r.value, Filter(rows, SuccessOf(u)))
  {
    NoSuccessIffEmpty(rows, u);
    MeanLatency(Filter(rows, SuccessOf(u)))
  }

  lemma NoSuccessIffEmpty(rows: seq<RecipeGeneration>, u: string)
    ensures Filter(rows, SuccessOf(u)) == [] <==>
            forall i :: 0 <= i < |rows| && rows[i].userId == u ==> rows[i].status != StatusSuccess
  {
    var p := SuccessOf(u);
    if forall i :: 0 <= i < |rows| && rows[i].userId == u ==> rows[i].status != StatusSuccess {
      assert forall i :: 0 <= i < |rows| ==> !p(rows[i]);
      FilterNone(rows, p);
    } else {
      var i :| 0 <= i < |rows| && rows[i].userId == u && rows[i].status == StatusSuccess;
      assert p(rows[i]);
      assert rows[i] in Filter(rows, p);
    }
  }

  // ---------------------------------------------------------------- properties

  /** The mean of SUCCESS latencies lies between their smallest and largest value. */
  lemma AverageLatencyBounds(rows: seq<RecipeGeneration>, u: string, lo: int, hi: int)
    requires forall i :: 0 <= i < |rows| && SuccessOf(u)(rows[i]) ==> lo <= rows[i].latencyMs <= hi
    requires CalculateAverageLatencyByUserId(rows, u).Some?
    ensures lo as real <= CalculateAverageLatencyByUserId(rows, u).value <= hi as real
  {
    var ok := Filter(rows, SuccessOf(u));
    forall i | 0 <= i < |ok| ensures lo <= ok[i].latencyMs <= hi {
      var k :| 0 <= k < |rows| && rows[k] == ok[i];
    }
    MeanLatencyBounds(ok, lo, hi, CalculateAverageLatencyByUserId(rows, u).value);
  }

  lemma MeanLatencyBounds(ok: seq<RecipeGeneration>, lo: int, hi: int, avg: real)
    requires ok != [] && IsMeanLatency(avg, ok)
    requires forall i :: 0 <= i < |ok| ==> lo <= ok[i].latencyMs <= hi
    ensures lo as real <= avg <= hi as real
  {
    SumBounds(ok, Latency, lo, hi);
    DivBounds(Sum(ok, Latency), |ok|, lo, hi, avg);
  }

  lemma DivBounds(total: int, n: nat, lo: int, hi: int, avg: real)
    requires n > 0 && lo * n <= total <= hi * n
    requires avg * (n as real) == total as real
    ensures lo as real <= avg <= hi as real
  {
    var m := n as real;
    CastMul(lo, n);
    CastMul(hi, n);
    LeByPositive(lo as real, avg, m);
    LeByPositive(avg, hi as real, m);
  }

  lemma CastMul(a: int, b: int)
    ensures (a * b) as real == (a as real) * (b as real)
  {
  }

  lemma LeByPositive(a: real, b: real, m: real)
    requires m > 0.0 && a * m <= b * m
    ensures a <= b
  {
  }

  /** `avg` is the mean latency of `rows`: `avg` times their number is their total latency. */
  predicate IsMeanLatency(avg: real, rows: seq<RecipeGeneration>) {
    avg * (|rows| as real) == Sum(rows, Latency) as real
  }

  /** The mean latency of `rows`, absent when there are none. */
  function MeanLatency(rows: seq<RecipeGeneration>): (r: Option<real>)
    ensures r.None? <==> rows == []
    ensures r.Some? ==> IsMeanLatency(r.value, rows)
  {
    if |rows| == 0 then None else Some(Mean(Sum(rows, Latency), |rows|))
  }

  /** `total / n` as a real number. */
  function Mean(total: int, n: nat): (m: real)
    requires n > 0
    ensures m * (n as real) == total as real
  {
    DivMul(total as real, n as real);
    (total as real) / (n as real)
  }

  lemma DivMul(t: real, m: real)
    requires m != 0.0
    ensures (t / m) * m == t
  {
  }

  lemma {:induction false} SumBounds(s: seq<RecipeGeneration>, f: RecipeGeneration -> int, lo: int, hi: int)
    requires forall i :: 0 <= i < |s| ==> lo <= f(s[i]) <= hi
    ensures lo * |s| <= Sum(s, f) <= hi * |s|
  {
    if |s| > 0 {
      var init := s[..|s| - 1];
      assert forall i :: 0 <= i < |init| ==> init[i] == s[i];
      SumBounds(init, f, lo, hi);
      var x := f(s[|s| - 1]);
      assert lo <= x <= hi;
      StepBounds(Sum(init, f), x, lo, hi, |init|);
    }
  }

  lemma StepBounds(t: int, x: int, lo: int, hi: int, n: nat)
    requires lo * n <= t <= hi * n && lo <= x <= hi
    ensures lo * (n + 1) <= t + x <= hi * (n + 1)
  {
    MulStep(n, lo);
    MulStep(n, hi);
  }

  /** Saving another user's row changes none of this user's query results. */
  lemma OtherUsersRowsInvisible(rows: seq<RecipeGeneration>, g: RecipeGeneration, u: string, cutoff: int)
    requires g.userId != u
    ensures Filter(rows + [g], OfUser(u)) == Filter(rows, OfUser(u))
    ensures NewestFirst(rows + [g], u) == NewestFirst(rows, u)
    ensures CountByUserId(rows + [g], u) == CountByUserId(rows, u)
    ensures CountCacheHitsByUserId(rows + [g], u) == CountCacheHitsByUserId(rows, u)
    ensures SumTokensUsedByUserId(rows + [g], u) == SumTokensUsedByUserId(rows, u)
    ensures CalculateAverageLatencyByUserId(rows + [g], u) == CalculateAverageLatencyByUserId(rows, u)
    ensures Filter(rows + [g], CreatedAfterOf(u, cutoff)) == Filter(rows, CreatedAfterOf(u, cutoff))
  {
    FilterSnoc(rows, g, OfUser(u));
    FilterSnoc(rows, g, CacheHitOf(u));
    FilterSnoc(rows, g, SuccessOf(u));
    FilterSnoc(rows, g, CreatedAfterOf(u, cutoff));
    assert Filter(rows + [g], OfUser(u)) == Filter(rows, OfUser(u));
    assert Filter(rows + [g], CacheHitOf(u)) == Filter(rows, CacheHitOf(u));
    assert Filter(rows + [g], SuccessOf(u)) == Filter(rows, SuccessOf(u));
  }

  /** Saving one of the user's rows adds one request, one hit if it was served from the
      cache, and its tokens. */
  lemma OwnRowCounted(rows: seq<RecipeGeneration>, g: RecipeGeneration)
    ensures CountByUserId(rows + [g], g.userId) == CountByUserId(rows, g.userId) + 1
    ensures CountCacheHitsByUserId(rows + [g], g.userId) == CountCacheHitsByUserId(rows, g.userId) + (if g.cached then 1 else 0)
    ensures SumTokensUsedByUserId(rows + [g], g.userId) == SumTokensUsedByUserId(rows, g.userId) + g.tokensUsed
  {
    var u := g.userId;
    FilterSnoc(rows, g, OfUser(u));
    FilterSnoc(rows, g, CacheHitOf(u));
    SumAppend(Filter(rows, OfUser(u)), [g], Tokens);
    assert [g][..0] == [];
  }

  /** Reading every page of the newest-first query reports each of the user's rows exactly once. */
  lemma NewestFirstPagesCoverUser(rows: seq<RecipeGeneration>, u: string, size: nat)
    requires size >= 1
    ensures var n := FindByUserIdOrderByCreatedAtDesc(rows, u, 0, size).totalPages;
            multiset(Pages(NewestFirst(rows, u), n, size)) == multiset(Filter(rows, OfUser(u)))
  {
    PagesReassemble(NewestFirst(rows, u), size);
  }

  /** The first row of the first page is the user's most recent request. */
  lemma FirstIsNewest(rows: seq<RecipeGeneration>, u: string, size: nat, k: nat)
    requires size >= 1
    requires k < |rows| && rows[k].userId == u
    ensures var p := FindByUserIdOrderByCreatedAtDesc(rows, u, 0, size);
            |p.content| > 0 && p.content[0].createdAt >= rows[k].createdAt
  {
    var s := NewestFirst(rows, u);
    assert OfUser(u)(rows[k]);
    assert rows[k] in Filter(rows, OfUser(u));
    assert rows[k] in multiset(s);
    HeadIsNewest(s, rows[k]);
    assert PageOf(s, 0, size).content == s[0..Min(|s|, size)];
  }

  lemma HeadIsNewest(s: seq<RecipeGeneration>, x: RecipeGeneration)
    requires forall i, j :: 0 <= i < j < |s| ==> s[i].createdAt >= s[j].createdAt
    requires x in s
    ensures s[0].createdAt >= x.createdAt
  {
    var j :| 0 <= j < |s| && s[j] == x;
    assert j == 0 || s[0].createdAt >= s[j].createdAt;
  }

  /** Reading every page of the created-after query reports, in saving order, exactly the
      user's rows newer than the cutoff, and every such row. */
  lemma CreatedAfterPagesCover(rows: seq<RecipeGeneration>, u: string, cutoff: int, size: nat)
    requires size >= 1
    ensures var n := FindByUserIdAndCreatedAtAfter(rows, u, cutoff, 0, size).totalPages;
            var all := Pages(Filter(rows, CreatedAfterOf(u, cutoff)), n, size);
            all == Filter(rows, CreatedAfterOf(u, cutoff)) &&
            forall i :: 0 <= i < |rows| && rows[i].userId == u && rows[i].createdAt > cutoff ==> rows[i] in all
  {
    PagesReassemble(Filter(rows, CreatedAfterOf(u, cutoff)), size);
    forall i | 0 <= i < |rows| && rows[i].userId == u && rows[i].createdAt > cutoff
      ensures rows[i] in Filter(rows, CreatedAfterOf(u, cutoff))
    {
      assert CreatedAfterOf(u, cutoff)(rows[i]);
    }
  }

  /** A cutoff no row is newer than selects nothing. */
  lemma NothingAfterLatest(rows: seq<RecipeGeneration>, u: string, cutoff: int, size: nat)
    requires size >= 1
    requires forall i :: 0 <= i < |rows| ==> rows[i].createdAt <= cutoff
    ensures FindByUserIdAndCreatedAtAfter(rows, u, cutoff, 0, size).totalElements == 0
  {
    FilterNone(rows, CreatedAfterOf(u, cutoff));
  }

  /** Two SUCCESS rows of 200 ms and 400 ms and an ERROR row of 9999 ms average to 300 ms. */
  lemma AverageIgnoresErrors(a: RecipeGeneration, b: RecipeGeneration, c: RecipeGeneration)
    requires a.userId == b.userId == c.userId
    requires a.status == StatusSuccess && a.latencyMs == 200
    requires b.status == StatusSuccess && b.latencyMs == 400
    requires c.status == StatusError && c.latencyMs == 9999
    ensures CalculateAverageLatencyByUserId([a, b, c], a.userId) == Some(300.0)
  {
    var p := SuccessOf(a.userId);
    FilterSnoc([], a, p);
    FilterSnoc([a], b, p);
    FilterSnoc([a, b], c, p);
    assert [a] + [b] == [a, b] && [a, b] + [c] == [a, b, c];
    assert Filter([a, b, c], p) == [a, b];
    assert [a, b][..1] == [a] && [a][..0] == [];
    assert Sum([a], Latency) == 200;
    assert Sum([a, b], Latency) == 600;
  }

  /** Of two requests, the later one is listed first. */
  lemma LaterListedFirst(a: RecipeGeneration, b: RecipeGeneration)
    requires a.userId == b.userId && a.createdAt < b.createdAt
    ensures FindByUserIdOrderByCreatedAtDesc([a, b], a.userId, 0, 10).content == [b, a]
  {
    var p := OfUser(a.userId);
    FilterSnoc([], a, p);
    FilterSnoc([a], b, p);
    assert [a] + [b] == [a, b];
    assert Filter([a, b], p) == [a, b];
    SortTwo(a, b, CreatedAt);
    assert NewestFirst([a, b], a.userId) == [b, a];
    FirstPageOfTwo(b, a, 10);
  }

  /** The audit table. */
  class RecipeGenerationRepository {
    var rows: seq<RecipeGeneration>

    constructor ()
      ensures rows == []
    {
      rows := [];
    }

    method Save(g: RecipeGeneration)
      modifies this
      ensures rows == old(rows) + [g]
    {
      rows := rows + [g];
    }
  }
}
