/** `LlmOrchestrator.generateWithCache`: serve a valid cache entry if there is one; otherwise
    call the backend, turn a thrown fault into an ERROR response, and cache only a SUCCESS. */
module Orchestration {
  import opened Wrappers
  import opened Text
  import opened Seqs
  import opened Llm
  import opened CacheStore
  import opened CacheService

  const GenerationFailedMessage: string := "Failed to generate response after retries"

  /** How a backend call ends: it returns a response, whose status says whether it
      succeeded, or it throws. */
  datatype ClientOutcome = Returned(response: LlmResponse) | Threw(cause: string)

  /** The response built when the backend throws: no content, the failure message followed by
      the cause, not cached. */
  function ErrorResponse(request: LlmRequest, cause: string): (r: LlmResponse)
    ensures r.status == StatusError && !r.cached && r.content.None? && r.model == request.model
    ensures r.errorMessage.Some? && Contains(r.errorMessage.value, GenerationFailedMessage)
  {
    var msg := GenerationFailedMessage + ": " + cause;
    assert msg[..|GenerationFailedMessage|] == GenerationFailedMessage;
    LlmResponse(None, request.model, 0, false, StatusError, Some(msg), 0)
  }

  /** The outcome of one `generateWithCache` call on the table `entries`: the response, the
      table afterwards, and whether the backend was called. */
  datatype StepResult = StepResult(response: LlmResponse, entries: seq<LlmCache>, backendCalled: bool)

  /** The hit/miss/error router. A hit is served as it is, without the backend and without
      a write. After a miss the backend is called: a throw becomes an ERROR response, a
      returned response is passed on, and only a SUCCESS is offered to the guarded insert,
      which saves it exactly once when the key is absent. At most one entry per key is kept. */
  function Step(entries: seq<LlmCache>, key: string, now: int, ttlDays: nat,
                request: LlmRequest, outcome: ClientOutcome): (s: StepResult)
    ensures Lookup(entries, key, now).Some? <==> !s.backendCalled
    ensures Lookup(entries, key, now).Some? ==>
              s.response == Lookup(entries, key, now).value && s.entries == entries
    ensures s.entries != entries ==>
              s.backendCalled && outcome.Returned? && outcome.response.status == StatusSuccess
    ensures FindByHash(entries, key).None? && outcome.Returned? && outcome.response.status == StatusSuccess ==>
              s.response == outcome.response && s.entries == entries + [NewEntry(key, outcome.response, now, ttlDays)]
    ensures s.backendCalled && outcome.Returned? ==> s.response == outcome.response
    ensures s.backendCalled && outcome.Threw? ==>
              s.response.status == StatusError && !s.response.cached &&
              s.response.errorMessage.Some? && Contains(s.response.errorMessage.value, GenerationFailedMessage)
    ensures UniqueHashes(entries) ==> UniqueHashes(s.entries)
  {
    match Lookup(entries, key, now)
    case Some(hit) => StepResult(hit, entries, false)
    case None =>
      match outcome
      case Threw(cause) => StepResult(ErrorResponse(request, cause), entries, true)
      case Returned(resp) =>
        if resp.status == StatusSuccess then
          StepResult(resp, GuardedInsert(entries, NewEntry(key, resp, now, ttlDays)), true)
        else
          StepResult(resp, entries, true)
  }

  /** On a hit the backend's outcome makes no difference to the step. */
  lemma HitIgnoresOutcome(entries: seq<LlmCache>, key: string, now: int, ttlDays: nat,
                          request: LlmRequest, o1: ClientOutcome, o2: ClientOutcome)
    requires Lookup(entries, key, now).Some?
    ensures Step(entries, key, now, ttlDays, request, o1) == Step(entries, key, now, ttlDays, request, o2)
  {
  }

  /** Asking again before the entry expires is a hit: the second call does not reach the
      backend and serves the content, model and tokens of the first call's SUCCESS. */
  lemma RepeatedRequestHits(entries: seq<LlmCache>, key: string, now: int, later: int, ttlDays: nat,
                            request: LlmRequest, resp: LlmResponse, outcome: ClientOutcome)
    requires UniqueHashes(entries)
    requires FindByHash(entries, key).None?
    requires resp.status == StatusSuccess
    requires now <= later < now + ttlDays * SecondsPerDay
    ensures var first := Step(entries, key, now, ttlDays, request, Returned(resp));
            var second := Step(first.entries, key, later, ttlDays, request, outcome);
            !second.backendCalled && second.entries == first.entries &&
            second.response.cached && second.response.status == StatusCacheHit &&
            second.response.content == resp.content && second.response.model == resp.model &&
            second.response.tokensUsed == resp.tokensUsed
  {
    CacheRoundTrip(entries, key, resp, now, ttlDays, later);
  }

  /** The language-model backend. Its answer to a request is a fixed function of the request;
      `invocations` counts the calls. */
  class LlmClient {
    const backend: LlmRequest -> ClientOutcome
    const modelName: string
    var available: bool
    var invocations: nat

    constructor(backend: LlmRequest -> ClientOutcome, modelName: string, available: bool)
      ensures this.backend == backend && this.modelName == modelName
      ensures this.available == available && invocations == 0
    {
      this.backend := backend;
      this.modelName := modelName;
      this.available := available;
      invocations := 0;
    }

    method Generate(request: LlmRequest) returns (outcome: ClientOutcome)
      modifies this
      ensures outcome == backend(request)
      ensures invocations == old(invocations) + 1 && available == old(available)
    {
      invocations := invocations + 1;
      outcome := backend(request);
    }
  }

  class LlmOrchestrator {
    const client: LlmClient
    const cache: LlmCacheService

    constructor(client: LlmClient, cache: LlmCacheService)
      ensures this.client == client && this.cache == cache
    {
      this.client := client;
      this.cache := cache;
    }

    /** One routed generation at time `now`: the response and the new table are those of
        `Step`, and the backend is invoked once on a miss and never on a hit. */
    method GenerateWithCache(request: LlmRequest, now: int) returns (response: LlmResponse)
      requires cache.Valid()
      modifies client, cache.repo
      ensures cache.Valid()
      ensures var s := Step(old(cache.repo.entries), cache.Key(request), now, cache.cacheTtlDays,
                            request, client.backend(request));
              response == s.response && cache.repo.entries == s.entries &&
              client.invocations == old(client.invocations) + (if s.backendCalled then 1 else 0)
      ensures client.available == old(client.available)
    {
      var hit := cache.GetCachedResponse(request, now);
      if hit.Some? {
        return hit.value;
      }
      var outcome := client.Generate(request);
      match outcome {
        case Threw(cause) =>
          response := ErrorResponse(request, cause);
        case Returned(resp) =>
          response := resp;
          if resp.status == StatusSuccess {
            cache.CacheResponse(request, resp, now);
          }
      }
    }

    predicate IsAvailable()
      reads client
    {
      client.available
    }

    function GetModelName(): string {
      client.modelName
    }

    /** The service's statistics: valid and total entries of the table. */
    function GetCacheStats(now: int): (r: CacheStats)
      reads cache.repo
      ensures r.validEntries == CountValid(cache.repo.entries, now)
      ensures r.totalEntries == |cache.repo.entries|
    {
      cache.GetStats(now)
    }

    /** The sweep, delegated to the service: returns the number of entries it removed. */
    method CleanupCache(now: int) returns (deleted: nat)
      requires cache.Valid()
      modifies cache.repo
      ensures cache.Valid()
      ensures cache.repo.entries == Filter(old(cache.repo.entries), ValidAt(now))
      ensures deleted == |old(cache.repo.entries)| - |cache.repo.entries|
    {
      deleted := cache.CleanupExpiredEntries(now);
      ValidPlusExpired(old(cache.repo.entries), now);
    }
  }
}
