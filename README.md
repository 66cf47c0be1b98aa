# MasterChef backend: the LLM cache, the generation router and the recipe service

MasterChef turns a list of ingredients into a recipe by asking a language model. This
project models the backend's core and proves properties of it. The core has five parts:

- **The `llm_cache` table** (`CacheStore`) holds one row per cache key, with an expiry time.
  - `findByInputHash` is a raw lookup that also returns expired rows.
  - The other queries count a row as valid at `now` exactly when `now < expiresAt`: the
    validity check, the count of valid entries and the sweep that deletes expired rows.
- **`LlmCacheService`** (`CacheService`) does four things:
  - It computes the cache key. The key is the SHA-256 digest, in lower-case hex, of a
    canonical form of the request: the set of normalised ingredient names, the prompt, the
    model and the temperature. The user is not part of it.
  - It serves hits: an expired entry counts as a miss.
  - It stores new entries with a lifetime of `cacheTtlDays` days. It writes nothing when the
    key is already present.
  - It reports statistics.
- **`LlmOrchestrator.generateWithCache`** (`Orchestration`) routes each request:
  - a valid cache entry is served without calling the backend;
  - otherwise the backend is called, and a thrown fault becomes an `ERROR` response;
  - only a `SUCCESS` response is cached.
- **`RecipeService.generateRecipe`** (`Recipes`, `Ingredients`, `RecipeParsing`) runs one
  generation:
  - it rejects unknown users;
  - it normalises ingredient names (trim, lower case, drop repeats) before building the
    model request;
  - it saves one audit row per attempt;
  - it fails on an `ERROR` response or on one without text;
  - otherwise it strips Markdown code fences, decodes the JSON, and falls back to a fixed
    recipe when decoding fails; it stores the recipe as saved and returns it with the
    model's metadata.
- **The repositories' per-user queries** read the audit trail and the recipes:
  - `GenerationAudit` covers the audit trail: newest first, created after a cutoff, counts,
    cache hits, token totals, and the mean latency of successful requests;
  - `RecipeStore` covers recipes: saved ones, paged, filtered by the saved flag, counted;
  - `AdminStats` is the administrator's cache report.

The tables are classes. Each holds a `seq` field that its `Save` and delete methods reassign.
Each query is a function over that sequence. The services are classes whose collaborators
are `const` fields.

Inputs the model cannot see are parameters or function-valued constants:

- the SHA-256 digest `digest`;
- the JSON decoder `decode`;
- the prompt template `promptFor`;
- the backend's answer `backend`;
- the clock `now`, in seconds.

Stateful operations are methods. Each one is proved against a function-level specification
(`Step`, `Finish`, `GuardedInsert`, `Filter`), and the properties are proved as lemmas about
that specification.

The behaviour modelled is the behaviour the repository's tests describe. The recipe service
fails on status `ERROR` or on missing content. A cache hit carries `CACHE_HIT` and still
produces a recipe.

Files:

- `seqs.dfy`: the order-preserving filter, sums and descending insertion sort.
- `paging.dfy`: Spring Data pages.
- `text.dfy`: trimming and ASCII lower case.
- `wrappers.dfy`: Option and Result.
- `llm.dfy`: request and response values.
- `ingredients.dfy`, `cache_store.dfy`, `cache_service.dfy`, `orchestrator.dfy`,
  `recipe_parsing.dfy`, `generation_audit.dfy`, `recipe_store.dfy`, `recipes.dfy`,
  `admin_stats.dfy`: the modules named above.

## Model

All source paths below are under `masterchef-backend/src/test/java/com/masterchef/masterchef_backend/`;
the cells repeat the full path.

| member | source | states |
|---|---|---|
| CacheStore.FindByHash | masterchef-backend/src/test/java/com/masterchef/masterchef_backend/repository/LlmCacheRepositoryTest.java:64-91 | finds a row with the hash when one exists, expired or not, and finds nothing exactly when no row carries the hash |
| CacheStore.ExistsValid | masterchef-backend/src/test/java/com/masterchef/masterchef_backend/repository/LlmCacheRepositoryTest.java:102-129 | a valid row for a hash is always one the raw lookup can find a row for; FindAgreesWithExists gives the exact condition |
| CacheStore.LlmCacheRepository.FindByInputHash | masterchef-backend/src/test/java/com/masterchef/masterchef_backend/repository/LlmCacheRepositoryTest.java:64-91 | finds a row of the table with the hash, expired or not, and nothing exactly when no row carries it |
| CacheStore.LlmCacheRepository.ExistsByInputHashAndNotExpired | masterchef-backend/src/test/java/com/masterchef/masterchef_backend/repository/LlmCacheRepositoryTest.java:102-129 | true only when the raw lookup finds a row; with one row per hash, exactly when that row has not expired |
| CacheStore.ExistsWhenUnique | masterchef-backend/src/test/java/com/masterchef/masterchef_backend/repository/LlmCacheRepositoryTest.java:102-129 | with one row per hash, the validity check equals "the raw lookup finds a row that has not expired" |
| CacheStore.LlmCacheRepository.CountValidEntries | masterchef-backend/src/test/java/com/masterchef/masterchef_backend/repository/LlmCacheRepositoryTest.java:184-209 | valid plus expired rows are all rows of the table, and the count is 0 exactly when every row has expired |
| CacheStore.LlmCacheRepository.Save | masterchef-backend/src/test/java/com/masterchef/masterchef_backend/repository/LlmCacheRepositoryTest.java:140-155 | appends the row at the end of the table and changes nothing else |
| CacheStore.FindAgreesWithExists | masterchef-backend/src/test/java/com/masterchef/masterchef_backend/repository/LlmCacheRepositoryTest.java:102-129 | with unique hashes, a valid row for the hash exists exactly when the raw lookup finds a row and that row has not expired |
| CacheStore.CountValid | masterchef-backend/src/test/java/com/masterchef/masterchef_backend/repository/LlmCacheRepositoryTest.java:184-209 | the valid count never exceeds the table size, and is 0 exactly when every row has expired, which covers the empty table |
| CacheStore.ValidPlusExpired | masterchef-backend/src/test/java/com/masterchef/masterchef_backend/repository/LlmCacheRepositoryTest.java:184-192 | valid and expired rows together are all rows, each counted once |
| CacheStore.SplitExpired | masterchef-backend/src/test/java/com/masterchef/masterchef_backend/repository/LlmCacheRepositoryTest.java:140-173 | one pass returns the still-valid rows in order and the number of expired ones |
| CacheStore.LlmCacheRepository.DeleteExpiredEntries | masterchef-backend/src/test/java/com/masterchef/masterchef_backend/repository/LlmCacheRepositoryTest.java:140-173 | the table keeps exactly its valid rows in order; the result is the number of expired rows, which is the number removed |
| CacheStore.NothingExpiredNothingDeleted | masterchef-backend/src/test/java/com/masterchef/masterchef_backend/repository/LlmCacheRepositoryTest.java:159-173 | with no expired row the sweep keeps every row and deletes none |
| CacheStore.DeleteScenario | masterchef-backend/src/test/java/com/masterchef/masterchef_backend/repository/LlmCacheRepositoryTest.java:140-155 | two valid and three expired rows: three deleted, both kept hashes still found, a deleted hash no longer found |
| CacheStore.SweepSplits | masterchef-backend/src/test/java/com/masterchef/masterchef_backend/repository/LlmCacheRepositoryTest.java:140-155 | valid rows followed by expired ones: the sweep keeps exactly the first and deletes as many as the second |
| CacheStore.FindAfterDelete | masterchef-backend/src/test/java/com/masterchef/masterchef_backend/repository/LlmCacheRepositoryTest.java:140-155 | after the sweep a hash is found exactly when it had a valid row before |
| CacheStore.DeleteKeepsValidView | masterchef-backend/src/test/java/com/masterchef/masterchef_backend/service/LlmCacheServiceTest.java:339-372 | the sweep changes neither the validity check for any hash nor the valid count |
| CacheStore.DeleteIdempotent | masterchef-backend/src/test/java/com/masterchef/masterchef_backend/service/LlmCacheServiceTest.java:349-355 | a second sweep at the same time deletes nothing |
| CacheStore.FilterKeepsUnique | masterchef-backend/src/test/java/com/masterchef/masterchef_backend/service/LlmCacheServiceTest.java:339-372 | the sweep keeps at most one row per hash |
| CacheStore.ExpiryIsPermanent | masterchef-backend/src/test/java/com/masterchef/masterchef_backend/repository/LlmCacheRepositoryTest.java:113-120 | a row expired at one time is expired at every later time |
| CacheService.HexDigit | masterchef-backend/src/test/java/com/masterchef/masterchef_backend/service/LlmCacheServiceTest.java:104-123 | each nibble is written as one lower-case hex digit |
| CacheService.ToHex | masterchef-backend/src/test/java/com/masterchef/masterchef_backend/service/LlmCacheServiceTest.java:104-123 | the hex text has two lower-case hex digits per byte |
| CacheService.FromHex | masterchef-backend/src/test/java/com/masterchef/masterchef_backend/service/LlmCacheServiceTest.java:104-123 | hex text decodes to half as many bytes |
| CacheService.HexRoundTrip | masterchef-backend/src/test/java/com/masterchef/masterchef_backend/service/LlmCacheServiceTest.java:104-123 | decoding the hex of a digest gives back the digest |
| CacheService.ToHexInjective | masterchef-backend/src/test/java/com/masterchef/masterchef_backend/service/LlmCacheServiceTest.java:147-167 | two digests have the same hex text exactly when they are equal |
| CacheService.KeyOf | masterchef-backend/src/test/java/com/masterchef/masterchef_backend/service/LlmCacheServiceTest.java:104-123 | the key is 64 lower-case hex digits |
| CacheService.LlmCacheService.Key | masterchef-backend/src/test/java/com/masterchef/masterchef_backend/service/LlmCacheServiceTest.java:104-123 | the service's key is 64 lower-case hex digits |
| CacheService.LlmCacheService.constructor | masterchef-backend/src/test/java/com/masterchef/masterchef_backend/service/LlmCacheServiceTest.java:60-70 | a service over a table with one row per key starts valid, with the given repository, digest and lifetime |
| CacheService.SameKeyForEquivalentRequests | masterchef-backend/src/test/java/com/masterchef/masterchef_backend/service/LlmCacheServiceTest.java:127-143 | requests with the same normalised ingredient names, prompt, model and temperature get the same key, whoever the user is |
| CacheService.PermutedIngredientsSameKey | masterchef-backend/src/test/java/com/masterchef/masterchef_backend/service/LlmCacheServiceTest.java:127-143 | reordering the ingredient list leaves the key unchanged |
| CacheService.NormalizedListSameKey | masterchef-backend/src/test/java/com/masterchef/masterchef_backend/service/LlmCacheServiceTest.java:127-143 | the normalised ingredient list has the key of the raw list |
| CacheService.NormalizedSetOfEach | masterchef-backend/src/test/java/com/masterchef/masterchef_backend/service/LlmCacheServiceTest.java:127-143 | the canonical ingredient set is the set of the names normalised one by one |
| CacheService.KeyDistinguishes | masterchef-backend/src/test/java/com/masterchef/masterchef_backend/service/LlmCacheServiceTest.java:147-167 | keys are equal exactly when the digests of the canonical forms are |
| CacheService.CanonicalDistinguishes | masterchef-backend/src/test/java/com/masterchef/masterchef_backend/service/LlmCacheServiceTest.java:147-167 | a different prompt, model or temperature gives a different canonical form, and then a different key whenever the digests of the two forms differ |
| CacheService.HitResponse | masterchef-backend/src/test/java/com/masterchef/masterchef_backend/service/LlmCacheServiceTest.java:211-238 | a hit carries the entry's content, model and tokens, is marked cached with status CACHE_HIT, and has zero latency |
| CacheService.ValidRowExists | masterchef-backend/src/test/java/com/masterchef/masterchef_backend/service/LlmCacheServiceTest.java:82-89 | a table containing a row that has not expired has a valid entry for that row's key |
| CacheService.Lookup | masterchef-backend/src/test/java/com/masterchef/masterchef_backend/service/LlmCacheServiceTest.java:180-238 | a hit is the HitResponse of the row the raw lookup finds, and that row is valid; a key with no row, or whose found row has expired, is a miss |
| CacheService.LookupAgreesWithIsCached | masterchef-backend/src/test/java/com/masterchef/masterchef_backend/service/LlmCacheServiceTest.java:82-100 | with one row per key, the read path hits exactly when the validity check holds |
| CacheService.LookupWhenUnique | masterchef-backend/src/test/java/com/masterchef/masterchef_backend/service/LlmCacheServiceTest.java:190-207 | with one row per key, a hit means a valid row exists, and that holds exactly when the raw lookup finds a row that has not expired; an expired row is a miss |
| CacheService.LlmCacheService.IsCached | masterchef-backend/src/test/java/com/masterchef/masterchef_backend/service/LlmCacheServiceTest.java:82-123 | with one row per key, a request is cached exactly when its key's row exists and has not expired |
| CacheService.LlmCacheService.GetCachedResponse | masterchef-backend/src/test/java/com/masterchef/masterchef_backend/service/LlmCacheServiceTest.java:180-238 | a hit is the entry the key finds, served with its content, model and tokens, cached, CACHE_HIT and zero latency; a found but expired entry is a miss; with one row per key it is a hit exactly when the request is cached |
| CacheService.NewEntry | masterchef-backend/src/test/java/com/masterchef/masterchef_backend/service/LlmCacheServiceTest.java:295-326 | the entry stores the key, the content, the model and the tokens, created now and expiring after ttlDays of 86400 seconds each |
| CacheService.GuardedInsert | masterchef-backend/src/test/java/com/masterchef/masterchef_backend/service/LlmCacheServiceTest.java:263-291 | appends the entry when its key has no row, and changes nothing when it has one |
| CacheService.FindAppended | masterchef-backend/src/test/java/com/masterchef/masterchef_backend/service/LlmCacheServiceTest.java:263-271 | once appended to a table without its key, the entry is what its key finds |
| CacheService.GuardedInsertKeepsUnique | masterchef-backend/src/test/java/com/masterchef/masterchef_backend/service/LlmCacheServiceTest.java:275-291 | the guarded insert keeps at most one row per key |
| CacheService.FirstWriterWins | masterchef-backend/src/test/java/com/masterchef/masterchef_backend/service/LlmCacheServiceTest.java:275-291 | of two inserts for one key only the first is stored, and it is what the key finds |
| CacheService.CacheRoundTrip | masterchef-backend/src/test/java/com/masterchef/masterchef_backend/service/LlmCacheServiceTest.java:263-326 | a response cached for a new key is served from its entry at every time up to its expiry, and missed from then on |
| CacheService.ExpiredEntryBlocksRefresh | masterchef-backend/src/test/java/com/masterchef/masterchef_backend/service/LlmCacheServiceTest.java:275-291 | while the key's expired row remains, caching stores nothing and the key keeps missing |
| CacheService.TtlScenario | masterchef-backend/src/test/java/com/masterchef/masterchef_backend/service/LlmCacheServiceTest.java:311-326 | an entry cached with a 7-day lifetime is deleted by a sweep 8 days later, after which its key is not cached |
| CacheService.LlmCacheService.CacheResponse | masterchef-backend/src/test/java/com/masterchef/masterchef_backend/service/LlmCacheServiceTest.java:263-326 | the table becomes the guarded insert of the new entry, keeping one row per key |
| CacheService.LlmCacheService.CleanupExpiredEntries | masterchef-backend/src/test/java/com/masterchef/masterchef_backend/service/LlmCacheServiceTest.java:339-372 | the table keeps its valid rows and the result is the number of expired rows; one row per key is kept |
| CacheService.CacheStats.HitRate | masterchef-backend/src/test/java/com/masterchef/masterchef_backend/service/LlmCacheServiceTest.java:397-417 | the rate times the total is the valid count, and it is 0 for an empty table |
| CacheService.StatsHitRateBounds | masterchef-backend/src/test/java/com/masterchef/masterchef_backend/service/LlmCacheServiceTest.java:385-417 | the statistics of any table have a rate between 0 and 1 |
| CacheService.HalfHitRate | masterchef-backend/src/test/java/com/masterchef/masterchef_backend/service/LlmCacheServiceTest.java:397-405 | 4 valid entries out of 8 give a rate of 0.5 |
| CacheService.LlmCacheService.GetStats | masterchef-backend/src/test/java/com/masterchef/masterchef_backend/service/LlmCacheServiceTest.java:385-417 | reports the valid count and the table size; valid never exceeds total, and the rate lies between 0 and 1 |
| Ingredients.NormalizeIngredient | masterchef-backend/src/test/java/com/masterchef/masterchef_backend/service/RecipeServiceTest.java:229-252 | a normalised name has no surrounding spaces and no upper-case ASCII letter |
| Ingredients.NormalizeIngredientIdempotent | masterchef-backend/src/test/java/com/masterchef/masterchef_backend/service/RecipeServiceTest.java:229-252 | normalising a normalised name changes nothing |
| Ingredients.Distinct | masterchef-backend/src/test/java/com/masterchef/masterchef_backend/service/RecipeServiceTest.java:256-274 | the same members as the input, no repeats, and no longer than the input |
| Ingredients.NormalizeEach | masterchef-backend/src/test/java/com/masterchef/masterchef_backend/service/RecipeServiceTest.java:229-252 | element i of the result is input name i normalised |
| Ingredients.NormalizeIngredients | masterchef-backend/src/test/java/com/masterchef/masterchef_backend/service/RecipeServiceTest.java:229-274 | the list sent contains each normalised name exactly once, and nothing else |
| Ingredients.NormalizedNamesAreNormal | masterchef-backend/src/test/java/com/masterchef/masterchef_backend/service/RecipeServiceTest.java:229-252 | every name sent is already normal |
| Ingredients.NormalizedSetOfNormalized | masterchef-backend/src/test/java/com/masterchef/masterchef_backend/service/RecipeServiceTest.java:229-274 | normalising the sent list again gives the same set of names |
| Ingredients.NormalizedCount | masterchef-backend/src/test/java/com/masterchef/masterchef_backend/service/RecipeServiceTest.java:256-274 | the number of names sent is the number of distinct normalised names |
| Ingredients.RepeatsDropped | masterchef-backend/src/test/java/com/masterchef/masterchef_backend/service/RecipeServiceTest.java:256-274 | three distinct normal names given as repeats are sent three times in all |
| Ingredients.ChickenGarlicOilDropped | masterchef-backend/src/test/java/com/masterchef/masterchef_backend/service/RecipeServiceTest.java:256-274 | chicken, chicken, garlic, garlic, olive oil is sent as three names |
| Ingredients.ThreeNamesNormalized | masterchef-backend/src/test/java/com/masterchef/masterchef_backend/service/RecipeServiceTest.java:229-252 | three names with distinct normal forms are sent as exactly those three forms |
| Ingredients.PaddedNormalized | masterchef-backend/src/test/java/com/masterchef/masterchef_backend/service/RecipeServiceTest.java:229-252 | a name padded with spaces is sent as the bare name in lower case |
| Ingredients.ChickenNormalized | masterchef-backend/src/test/java/com/masterchef/masterchef_backend/service/RecipeServiceTest.java:229-252 | "  CHICKEN  " is sent as "chicken" |
| Ingredients.GarlicNormalized | masterchef-backend/src/test/java/com/masterchef/masterchef_backend/service/RecipeServiceTest.java:229-252 | "  Garlic  " is sent as "garlic" |
| Ingredients.NormalFixed | masterchef-backend/src/test/java/com/masterchef/masterchef_backend/service/RecipeServiceTest.java:229-252 | a name already normal, such as "olive oil", is sent unchanged |
| Text.TrimIdempotent | masterchef-backend/src/test/java/com/masterchef/masterchef_backend/service/RecipeServiceTest.java:229-252 | trimming twice is trimming once |
| Text.PaddedTrim | masterchef-backend/src/test/java/com/masterchef/masterchef_backend/service/RecipeServiceTest.java:229-252 | trimming a trimmed word padded with spaces on both sides gives the word |
| Text.ToLowerIdempotent | masterchef-backend/src/test/java/com/masterchef/masterchef_backend/service/RecipeServiceTest.java:229-252 | lower-casing twice is lower-casing once |
| Orchestration.ErrorResponse | masterchef-backend/src/test/java/com/masterchef/masterchef_backend/service/LlmOrchestratorTest.java:211-226 | a thrown fault becomes an uncached ERROR without content whose message contains "Failed to generate response after retries" |
| Orchestration.Step | masterchef-backend/src/test/java/com/masterchef/masterchef_backend/service/LlmOrchestratorTest.java:94-226 | the backend is called exactly on a miss; a hit is served unchanged with no write; the table changes only after a returned SUCCESS, which is appended when its key is absent; a returned response is passed on; a throw gives ERROR; one row per key is kept |
| Orchestration.HitIgnoresOutcome | masterchef-backend/src/test/java/com/masterchef/masterchef_backend/service/LlmOrchestratorTest.java:94-134 | on a hit, the backend's behaviour makes no difference |
| Orchestration.RepeatedRequestHits | masterchef-backend/src/test/java/com/masterchef/masterchef_backend/service/LlmOrchestratorTest.java:94-189 | after a SUCCESS is cached, asking again before expiry does not call the backend and serves the first answer's content, model and tokens as a CACHE_HIT |
| Orchestration.LlmClient.Generate | masterchef-backend/src/test/java/com/masterchef/masterchef_backend/service/LlmOrchestratorTest.java:157-163 | returns the backend's outcome for the request and counts one invocation |
| Orchestration.LlmOrchestrator.GenerateWithCache | masterchef-backend/src/test/java/com/masterchef/masterchef_backend/service/LlmOrchestratorTest.java:94-226 | the response and the new table are those of Step; the backend is invoked once on a miss and never on a hit |
| Orchestration.LlmOrchestrator.GetCacheStats | masterchef-backend/src/test/java/com/masterchef/masterchef_backend/service/LlmOrchestratorTest.java:270-278 | passes the service's valid and total counts through |
| Orchestration.LlmOrchestrator.CleanupCache | masterchef-backend/src/test/java/com/masterchef/masterchef_backend/service/LlmOrchestratorTest.java:282-289 | the service's sweep: valid rows kept, the result is the number removed |
| RecipeParsing.FallbackRecipe | masterchef-backend/src/test/java/com/masterchef/masterchef_backend/service/RecipeServiceTest.java:448-477 | title "Recipe from Ingredients", description "Generated recipe (parsing failed)", no timings, no steps, no tags |
| RecipeParsing.AfterFirstLine | masterchef-backend/src/test/java/com/masterchef/masterchef_backend/service/RecipeServiceTest.java:322-369 | the result is a suffix of the text |
| RecipeParsing.AfterFirstLineOf | masterchef-backend/src/test/java/com/masterchef/masterchef_backend/service/RecipeServiceTest.java:322-369 | what follows a first line without a line break is the rest of the text |
| RecipeParsing.DropOpeningFence | masterchef-backend/src/test/java/com/masterchef/masterchef_backend/service/RecipeServiceTest.java:322-369 | text that does not open with a fence is left alone; the result is never longer |
| RecipeParsing.DropClosingFence | masterchef-backend/src/test/java/com/masterchef/masterchef_backend/service/RecipeServiceTest.java:322-369 | a closing fence is removed and nothing else; other text is left alone |
| RecipeParsing.StripCodeFences | masterchef-backend/src/test/java/com/masterchef/masterchef_backend/service/RecipeServiceTest.java:322-369 | the stripped text is trimmed and never longer |
| RecipeParsing.PlainTextOnlyTrimmed | masterchef-backend/src/test/java/com/masterchef/masterchef_backend/service/RecipeServiceTest.java:322-369 | text neither opening nor closing with a fence is only trimmed |
| RecipeParsing.FencedStripsToBody | masterchef-backend/src/test/java/com/masterchef/masterchef_backend/service/RecipeServiceTest.java:322-369 | a fenced block, with or without a language tag, strips to its trimmed body |
| RecipeParsing.ParseRecipe | masterchef-backend/src/test/java/com/masterchef/masterchef_backend/service/RecipeServiceTest.java:322-369 | when the stripped text decodes, the recipe is the decoded one; when it does not, it is the fallback; parsing never fails |
| RecipeParsing.FencedParsesLikePlain | masterchef-backend/src/test/java/com/masterchef/masterchef_backend/service/RecipeServiceTest.java:322-369 | fenced JSON parses to the same recipe as the JSON alone |
| Recipes.BuildLlmRequest | masterchef-backend/src/test/java/com/masterchef/masterchef_backend/service/RecipeServiceTest.java:229-318 | the request uses model "mistral" and the caller's id, and holds the normalised names once each, no more than were given |
| Recipes.TotalTime | masterchef-backend/src/test/java/com/masterchef/masterchef_backend/service/RecipeServiceTest.java:181-208 | total time is preparation plus cooking, present exactly when both are |
| Recipes.RecipeOf | masterchef-backend/src/test/java/com/masterchef/masterchef_backend/service/RecipeServiceTest.java:200-302 | the stored recipe belongs to the caller, is saved, records the ingredients sent, and has the parsed title, description, preparation and cooking times, with their total |
| Recipes.ResponseOf | masterchef-backend/src/test/java/com/masterchef/masterchef_backend/service/RecipeServiceTest.java:181-225 | the response repeats the recipe's title, description and times, with the model, cached flag and tokens of the model's response |
| Recipes.AuditRecord | masterchef-backend/src/test/java/com/masterchef/masterchef_backend/service/RecipeServiceTest.java:278-289 | the audit row records the user, the time, the ingredients sent, and the response's status, cached flag and tokens |
| Recipes.Finish | masterchef-backend/src/test/java/com/masterchef/masterchef_backend/service/RecipeServiceTest.java:200-477 | fails with "LLM generation failed" and stores nothing exactly on ERROR or missing content; otherwise stores one saved recipe for the user and returns the decoded title, description, preparation and cooking times, or the fallback title and description when decoding fails |
| Recipes.FailureCases | masterchef-backend/src/test/java/com/masterchef/masterchef_backend/service/RecipeServiceTest.java:404-444 | a throw always fails; a returned response fails exactly on ERROR or no content; a hit fails only without content |
| Recipes.FencedContentSameResult | masterchef-backend/src/test/java/com/masterchef/masterchef_backend/service/RecipeServiceTest.java:322-369 | a fenced answer gives the same result and stored recipe as the bare JSON |
| Recipes.AuditCountsEveryAttempt | masterchef-backend/src/test/java/com/masterchef/masterchef_backend/service/RecipeServiceTest.java:481-500 | every attempt, failed or not, adds one row to the user's audit count |
| Recipes.EquivalentIngredientsShareKey | masterchef-backend/src/test/java/com/masterchef/masterchef_backend/service/RecipeServiceTest.java:229-274 | for a prompt template that depends only on which ingredients it gets, ingredient lists with the same normalised names lead to the same cache key |
| Recipes.SameNormalizedListSameKey | masterchef-backend/src/test/java/com/masterchef/masterchef_backend/service/RecipeServiceTest.java:229-274 | lists that normalise to the same list give the same model request and the same cache key, whatever the template |
| Recipes.RecipeService.GenerateRecipe | masterchef-backend/src/test/java/com/masterchef/masterchef_backend/service/RecipeServiceTest.java:181-500 | an unknown user fails with "User not found" and nothing changes; otherwise the cache table follows Step, one audit row is appended, the result and stored recipes are those of Finish, and the backend client's invocation count rises by one exactly when Step called the backend; the client's `available` flag never changes |
| GenerationAudit.NewestFirst | masterchef-backend/src/test/java/com/masterchef/masterchef_backend/repository/RecipeGenerationRepositoryTest.java:67-80 | the user's rows, each exactly once, ordered newest first |
| GenerationAudit.FindByUserIdOrderByCreatedAtDesc | masterchef-backend/src/test/java/com/masterchef/masterchef_backend/repository/RecipeGenerationRepositoryTest.java:67-104 | the page holds only the user's rows, newest first, with the exact page length, and the total is the user's row count |
| GenerationAudit.PageOfNewest | masterchef-backend/src/test/java/com/masterchef/masterchef_backend/repository/RecipeGenerationRepositoryTest.java:67-104 | a page of the newest-first list holds the user's rows in newest-first order |
| GenerationAudit.SortedPage | masterchef-backend/src/test/java/com/masterchef/masterchef_backend/repository/RecipeGenerationRepositoryTest.java:67-80 | a page of a newest-first list is newest first |
| GenerationAudit.LaterListedFirst | masterchef-backend/src/test/java/com/masterchef/masterchef_backend/repository/RecipeGenerationRepositoryTest.java:67-80 | of two requests the later is listed first |
| GenerationAudit.FirstIsNewest | masterchef-backend/src/test/java/com/masterchef/masterchef_backend/repository/RecipeGenerationRepositoryTest.java:67-80 | the first row of the first page is at least as recent as any of the user's rows |
| GenerationAudit.NewestFirstPagesCoverUser | masterchef-backend/src/test/java/com/masterchef/masterchef_backend/repository/RecipeGenerationRepositoryTest.java:67-104 | reading every page yields each of the user's rows exactly once |
| GenerationAudit.OtherUsersRowsInvisible | masterchef-backend/src/test/java/com/masterchef/masterchef_backend/repository/RecipeGenerationRepositoryTest.java:84-104 | another user's row changes none of this user's query results |
| GenerationAudit.FindByUserIdAndCreatedAtAfter | masterchef-backend/src/test/java/com/masterchef/masterchef_backend/repository/RecipeGenerationRepositoryTest.java:115-141 | the page holds only the user's rows created strictly after the cutoff, as many as fit on that page, and the total counts them all |
| GenerationAudit.CreatedAfterPagesCover | masterchef-backend/src/test/java/com/masterchef/masterchef_backend/repository/RecipeGenerationRepositoryTest.java:115-128 | reading every page yields exactly the user's rows newer than the cutoff, and every such row appears |
| GenerationAudit.NothingAfterLatest | masterchef-backend/src/test/java/com/masterchef/masterchef_backend/repository/RecipeGenerationRepositoryTest.java:132-141 | a cutoff no row is newer than selects nothing |
| GenerationAudit.CountByUserId | masterchef-backend/src/test/java/com/masterchef/masterchef_backend/repository/RecipeGenerationRepositoryTest.java:152-164 | never more than the table holds, and 0 exactly when the user has no row |
| GenerationAudit.RecipeGenerationRepository.Save | masterchef-backend/src/test/java/com/masterchef/masterchef_backend/repository/RecipeGenerationRepositoryTest.java:67-80 | appends the row at the end of the audit table and changes nothing else |
| GenerationAudit.OwnRowCounted | masterchef-backend/src/test/java/com/masterchef/masterchef_backend/repository/RecipeGenerationRepositoryTest.java:152-241 | saving the user's row adds one to the count, one hit if it was cached, and its tokens to the total |
| GenerationAudit.CountCacheHitsByUserId | masterchef-backend/src/test/java/com/masterchef/masterchef_backend/repository/RecipeGenerationRepositoryTest.java:175-191 | the cache hits never outnumber the user's requests |
| GenerationAudit.SumTokensUsedByUserId | masterchef-backend/src/test/java/com/masterchef/masterchef_backend/repository/RecipeGenerationRepositoryTest.java:234-250 | the total is never negative and is 0 for a user without rows |
| GenerationAudit.CalculateAverageLatencyByUserId | masterchef-backend/src/test/java/com/masterchef/masterchef_backend/repository/RecipeGenerationRepositoryTest.java:202-223 | absent exactly when the user has no SUCCESS row; otherwise the mean latency of the SUCCESS rows |
| GenerationAudit.NoSuccessIffEmpty | masterchef-backend/src/test/java/com/masterchef/masterchef_backend/repository/RecipeGenerationRepositoryTest.java:216-223 | the user has no SUCCESS rows exactly when none of the user's rows is a SUCCESS |
| GenerationAudit.AverageLatencyBounds | masterchef-backend/src/test/java/com/masterchef/masterchef_backend/repository/RecipeGenerationRepositoryTest.java:202-212 | the mean lies between the smallest and the largest SUCCESS latency |
| GenerationAudit.MeanLatencyBounds | masterchef-backend/src/test/java/com/masterchef/masterchef_backend/repository/RecipeGenerationRepositoryTest.java:202-212 | the mean of bounded latencies lies within the bounds |
| GenerationAudit.SumBounds | masterchef-backend/src/test/java/com/masterchef/masterchef_backend/repository/RecipeGenerationRepositoryTest.java:202-212 | a sum of n values between lo and hi lies between n times lo and n times hi |
| GenerationAudit.MeanLatency | masterchef-backend/src/test/java/com/masterchef/masterchef_backend/repository/RecipeGenerationRepositoryTest.java:202-223 | absent exactly for no rows; otherwise the mean times the count is the total latency |
| GenerationAudit.AverageIgnoresErrors | masterchef-backend/src/test/java/com/masterchef/masterchef_backend/repository/RecipeGenerationRepositoryTest.java:202-212 | SUCCESS rows of 200 and 400 ms and an ERROR row of 9999 ms average to 300 ms |
| RecipeStore.FindByUserIdAndIsSavedTrue | masterchef-backend/src/test/java/com/masterchef/masterchef_backend/repository/RecipeRepositoryTest.java:69-99 | exactly the user's saved recipes |
| RecipeStore.NoSavedIffEmpty | masterchef-backend/src/test/java/com/masterchef/masterchef_backend/repository/RecipeRepositoryTest.java:93-99 | the saved list is empty exactly when none of the user's recipes is saved |
| RecipeStore.FindByUserId | masterchef-backend/src/test/java/com/masterchef/masterchef_backend/repository/RecipeRepositoryTest.java:110-148 | the page holds only the user's recipes, as many as fit on that page, and the total is the user's recipe count |
| RecipeStore.UserPagesCover | masterchef-backend/src/test/java/com/masterchef/masterchef_backend/repository/RecipeRepositoryTest.java:110-120 | reading every page yields all of the user's recipes, each of them once |
| RecipeStore.ThreeRecipesTwoPerPage | masterchef-backend/src/test/java/com/masterchef/masterchef_backend/repository/RecipeRepositoryTest.java:124-135 | three recipes read two per page: two on the first page, three in all, two pages |
| RecipeStore.FindByUserIdAndIsSaved | masterchef-backend/src/test/java/com/masterchef/masterchef_backend/repository/RecipeRepositoryTest.java:159-181 | the page holds only the user's recipes with the given flag, as many as fit on that page, and the total counts them all |
| RecipeStore.SavedFlagPagesCover | masterchef-backend/src/test/java/com/masterchef/masterchef_backend/repository/RecipeRepositoryTest.java:159-181 | reading every page yields exactly the user's recipes with the flag, and every such recipe appears |
| RecipeStore.EachFlagFindsItsOwn | masterchef-backend/src/test/java/com/masterchef/masterchef_backend/repository/RecipeRepositoryTest.java:159-181 | of a saved and an unsaved recipe, each flag finds exactly its own |
| RecipeStore.SavedAndUnsavedPartition | masterchef-backend/src/test/java/com/masterchef/masterchef_backend/repository/RecipeRepositoryTest.java:159-181 | saved and unsaved together are all of the user's recipes |
| RecipeStore.CountByUserIdAndIsSavedTrue | masterchef-backend/src/test/java/com/masterchef/masterchef_backend/repository/RecipeRepositoryTest.java:192-210 | never more than the user's recipes, and 0 exactly when none of them is saved |
| RecipeStore.OtherUsersRecipesInvisible | masterchef-backend/src/test/java/com/masterchef/masterchef_backend/repository/RecipeRepositoryTest.java:214-222 | another user's recipe changes none of this user's lists or counts |
| RecipeStore.OwnRecipeListed | masterchef-backend/src/test/java/com/masterchef/masterchef_backend/repository/RecipeRepositoryTest.java:192-200 | saving the user's recipe appends it to the list and adds one to the count when it is saved |
| RecipeStore.RecipeRepository.Save | masterchef-backend/src/test/java/com/masterchef/masterchef_backend/repository/RecipeRepositoryTest.java:69-77 | appends the recipe at the end of the table and changes nothing else |
| Paging.CeilDiv | masterchef-backend/src/test/java/com/masterchef/masterchef_backend/repository/RecipeRepositoryTest.java:124-135 | the page count is the least number of pages that covers the rows |
| Paging.PageOf | masterchef-backend/src/test/java/com/masterchef/masterchef_backend/repository/RecipeRepositoryTest.java:124-135 | the page is the slice of at most size rows starting at page times size, with the total count and the page count |
| Paging.PagesReassemble | masterchef-backend/src/test/java/com/masterchef/masterchef_backend/repository/RecipeRepositoryTest.java:124-135 | the pages read in order give back all rows |
| Paging.FullPagesBeforeLast | masterchef-backend/src/test/java/com/masterchef/masterchef_backend/repository/RecipeRepositoryTest.java:124-135 | every page before the last holds exactly `size` rows |
| AdminStats.HitRate | masterchef-backend/src/test/java/com/masterchef/masterchef_backend/controller/AdminControllerTest.java:59-90 | hits over lookups, 0 with no lookups, always between 0 and 1 |
| AdminStats.CacheStatsReport | masterchef-backend/src/test/java/com/masterchef/masterchef_backend/controller/AdminControllerTest.java:59-75 | passes the four counters through; active plus expired is total |
| AdminStats.ActiveEntriesAreValid | masterchef-backend/src/test/java/com/masterchef/masterchef_backend/controller/AdminControllerTest.java:59-75 | over a table, the active entries are exactly the valid ones |
| AdminStats.SampleReport | masterchef-backend/src/test/java/com/masterchef/masterchef_backend/controller/AdminControllerTest.java:59-75 | 100 entries with 20 expired, 60 hits and 40 misses give 80 active and a rate of 0.6 |
| AdminStats.NoLookupsZeroRate | masterchef-backend/src/test/java/com/masterchef/masterchef_backend/controller/AdminControllerTest.java:79-90 | with no lookups the rate is 0 |

## Left out

- SHA-256 is not computed. `digest` is a function-valued constant returning 32 bytes.
  CacheService.CanonicalDistinguishes: different prompts, models or temperatures are proved
  to give different canonical forms. They give different keys only when the digests of those
  forms differ, and that cannot be proved of an arbitrary digest.
- The JSON decoding of recipes and the JSON rendering behind `exportRecipeAsJson` are not
  modelled. Decoding is the parameter `decode`; rendering is left out because it is a
  serialisation library call.
- The prompt template is not modelled: it is the parameter `promptFor`.
- The backend's retries and its HTTP calls are not modelled. The backend is a fixed function
  `backend` from request to outcome (a returned response, or a thrown fault with its
  message).
- Wall-clock time is not modelled: `now` is a parameter in whole seconds. Rows saved in the
  same call share one time.
- Floating point is not modelled. Temperatures, hit rates and mean latencies are exact reals,
  so the rounding of `double` is absent.
- Lower-casing covers the ASCII letters only. Locale-specific and other Unicode case mappings
  are not modelled.
- Concurrency is not modelled. Two threads that both pass the raw lookup in `cacheResponse`
  before either saves are outside the model.
- Metrics and logging (Micrometer counters and timers) are not modelled.
- The four counters shown in the administrator's report come from `LlmCacheService` getters:
  `getTotalCacheEntries`, `getExpiredCacheEntries`, `getCacheHitCount` and
  `getCacheMissCount`. All four are inputs to `CacheStatsReport`. How the service increments
  the hit and miss counters is not modelled. The total and expired counts are tied to a table
  only by the hypothesis of `AdminStats.ActiveEntriesAreValid`.
- The HTTP layer is not modelled: controllers, status codes (200, 204, 401) and
  authentication. The administrator's DELETE route on the cache calls
  `LlmCacheService.clearExpiredCache()`; the model's nearest counterpart is
  `CacheService.LlmCacheService.CleanupExpiredEntries`.
- The user table, authentication, storage and their repositories are not modelled;
  `RecipeService.users` is a fixed set of known user ids.
- Orchestration.LlmOrchestrator.IsAvailable and GetModelName are not rows of the table: they
  only read the client's `available` flag and model name, and carry no contract. Likewise
  CacheStore.LlmCacheRepository.Count is the table size; CountValidEntries states how it
  splits into valid and expired rows.
- Recipes.EquivalentIngredientsShareKey: holds only for a prompt template that ignores the
  order of the ingredients. The list sent keeps first occurrences in order, so a template
  that lists them can give reordered lists different keys. SameNormalizedListSameKey states
  the part that needs no such assumption.
- Database ids, Spring wiring and Mockito verification counts are left out. The model states
  the effect that verification checks instead: which tables change, and how often the
  backend is invoked.
- Recipes.Finish: when the model's text does not decode, the recipe keeps only the fixed
  title and description. Any other defaults the fallback may set are not pinned down.
