/** The request and response values exchanged with the language-model backend. */
module Llm {
  import opened Wrappers

  const StatusSuccess: string := "SUCCESS"
  const StatusError: string := "ERROR"
  const StatusCacheHit: string := "CACHE_HIT"

  /** A generation request. `userId` travels with the request but takes no part in the
      cache key. */
  datatype LlmRequest = LlmRequest(
    prompt: string,
    ingredients: seq<string>,
    model: string,
    temperature: real,
    userId: Option<string>)

  /** What the backend, or the cache, answers. `content` is absent on errors and may also be
      absent on a response that claims success. */
  datatype LlmResponse = LlmResponse(
    content: Option<string>,
    model: string,
    tokensUsed: nat,
    cached: bool,
    status: string,
    errorMessage: Option<string>,
    latencyMs: nat)
}
