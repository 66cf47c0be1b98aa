/** Recipe generation: the service normalises the ingredients, asks the model (through the
    cached orchestrator) for a recipe, records the attempt in the audit trail, and either
    fails or stores and returns the parsed recipe. */
module Recipes {
  import opened Wrappers
  import opened Text
  import opened Ingredients
  import opened Llm
  import opened CacheStore
  import opened CacheService
  import opened Orchestration
  import opened RecipeParsing
  import opened GenerationAudit
  import opened RecipeStore

  const RecipeModel: string := "mistral"
  const UserNotFound: string := "User not found"
  const LlmGenerationFailed: string := "LLM generation failed"

  /** What the client asks for. */
  datatype RecipeRequest = RecipeRequest(ingredients: seq<string>, servings: int, difficulty: Option<string>)

  /** How the recipe was produced. */
  datatype RecipeMetadata = RecipeMetadata(model: string, cached: bool, tokensUsed: nat)

  /** What the client gets back. */
  datatype RecipeResponse = RecipeResponse(
    title: string,
    description: string,
    prepTime: Option<int>,
    cookTime: Option<int>,
    totalTime: Option<int>,
    servings: int,
    metadata: RecipeMetadata)

  /** The request sent to the model: the normalised ingredient list, the prompt built from
      it, the fixed model name and the caller's user id. */
  function BuildLlmRequest(promptFor: seq<string> -> string, temperature: real,
                           request: RecipeRequest, userId: string): (r: LlmRequest)
    ensures r.model == RecipeModel && r.userId == Some(userId) && r.temperature == temperature
    ensures NoDuplicates(r.ingredients) && |r.ingredients| <= |request.ingredients|
    ensures forall x :: x in r.ingredients <==> x in NormalizedSet(request.ingredients)
    ensures r.prompt == promptFor(r.ingredients)
  {
    var ingredients := NormalizeIngredients(request.ingredients);
    LlmRequest(promptFor(ingredients), ingredients, RecipeModel, temperature, Some(userId))
  }

  /** The service gives up on a response whose status is ERROR or that carries no text. A
      cache hit (status CACHE_HIT) with text is not a failure. */
  predicate IsGenerationFailure(response: LlmResponse) {
    response.status == StatusError || response.content.None?
  }

  /** The recipe's total time: preparation plus cooking, when both are known. */
  function TotalTime(prep: Option<int>, cook: Option<int>): (t: Option<int>)
    ensures t.Some? <==> prep.Some? && cook.Some?
    ensures t.Some? ==> t.value == prep.value + cook.value
  {
    if prep.Some? && cook.Some? then Some(prep.value + cook.value) else None
  }

  /** The recipe row stored for a parsed recipe; it is stored as saved. */
  function RecipeOf(parsed: ParsedRecipe, request: RecipeRequest, userId: string, ingredients: seq<string>): (r: Recipe)
    ensures r.userId == userId && r.isSaved && r.ingredientsUsed == ingredients
    ensures r.title == parsed.title && r.description == parsed.description
    ensures r.prepTime == parsed.prepTime && r.cookTime == parsed.cookTime
    ensures r.totalTime == TotalTime(r.prepTime, r.cookTime) && r.servings == request.servings
  {
    var difficulty := if parsed.difficulty.Some? then parsed.difficulty else request.difficulty;
    Recipe(userId, parsed.title, parsed.description, parsed.prepTime, parsed.cookTime,
           TotalTime(parsed.prepTime, parsed.cookTime), request.servings, difficulty,
           parsed.cuisine, ingredients, parsed.instructions, parsed.tags, true)
  }

  /** The response for a stored recipe, with the metadata of the model's response. */
  function ResponseOf(recipe: Recipe, response: LlmResponse): (r: RecipeResponse)
    ensures r.title == recipe.title && r.description == recipe.description
    ensures r.prepTime == recipe.prepTime && r.cookTime == recipe.cookTime && r.totalTime == recipe.totalTime
    ensures r.metadata == RecipeMetadata(response.model, response.cached, response.tokensUsed)
  {
    RecipeResponse(recipe.title, recipe.description, recipe.prepTime, recipe.cookTime,
                   recipe.totalTime, recipe.servings,
                   RecipeMetadata(response.model, response.cached, response.tokensUsed))
  }

  /** The audit row of one attempt, whatever its outcome. */
  function AuditRecord(userId: string, llmRequest: LlmRequest, response: LlmResponse, now: int): (g: RecipeGeneration)
    ensures g.userId == userId && g.createdAt == now && g.ingredients == llmRequest.ingredients
    ensures g.status == response.status && g.cached == response.cached && g.tokensUsed == response.tokensUsed
  {
    RecipeGeneration(userId, llmRequest.ingredients, llmRequest.prompt, response.model,
                     response.status, response.cached, response.latencyMs, response.tokensUsed, now)
  }

  /** What an attempt returns and the recipe rows it stores (none or one). */
  datatype Attempt = Attempt(result: Result<RecipeResponse, string>, stored: seq<Recipe>)

  /** The end of an attempt, once the model has answered. */
  function Finish(decode: string -> Option<ParsedRecipe>, request: RecipeRequest, userId: string,
                  ingredients: seq<string>, response: LlmResponse): (a: Attempt)
    ensures a.result.Failure? <==> IsGenerationFailure(response)
    ensures a.result.Failure? ==> a.result.error == LlmGenerationFailed && a.stored == []
    ensures a.result.Success? ==>
              |a.stored| == 1 && a.stored[0].userId == userId && a.stored[0].isSaved &&
              a.result.value.title == a.stored[0].title &&
              a.result.value.totalTime == TotalTime(a.result.value.prepTime, a.result.value.cookTime) &&
              a.result.value.metadata == RecipeMetadata(response.model, response.cached, response.tokensUsed)
    ensures a.result.Success? ==>
              var decoded := decode(StripCodeFences(response.content.value));
              (decoded.Some? ==> a.result.value.title == decoded.value.title &&
                                 a.result.value.description == decoded.value.description &&
                                 a.result.value.prepTime == decoded.value.prepTime &&
                                 a.result.value.cookTime == decoded.value.cookTime) &&
              (decoded.None? ==> a.result.value.title == FallbackTitle &&
                                 a.result.value.description == FallbackDescription)
  {
    if IsGenerationFailure(response) then Attempt(Failure(LlmGenerationFailed), [])
    else
      var recipe := RecipeOf(ParseRecipe(decode, response.content.value), request, userId, ingredients);
      Attempt(Success(ResponseOf(recipe, response)), [recipe])
  }

  // ---------------------------------------------------------------- properties

  /** Which routed responses make the attempt fail: a thrown backend, an ERROR status, or a
      SUCCESS without text; a cache hit with text never does. */
  lemma FailureCases(entries: seq<LlmCache>, key: string, now: int, ttlDays: nat,
                     request: LlmRequest, outcome: ClientOutcome)
    ensures var s := Step(entries, key, now, ttlDays, request, outcome);
            (s.backendCalled && outcome.Threw? ==> IsGenerationFailure(s.response)) &&
            (s.backendCalled && outcome.Returned? ==>
               (IsGenerationFailure(s.response) <==>
                outcome.response.status == StatusError || outcome.response.content.None?)) &&
            (!s.backendCalled ==>
               (IsGenerationFailure(s.response) <==> Lookup(entries, key, now).value.content.None?))
  {
  }

  /** Code-fenced JSON yields the same recipe as the JSON alone. */
  lemma FencedContentSameResult(decode: string -> Option<ParsedRecipe>, request: RecipeRequest, userId: string,
                                ingredients: seq<string>, response: LlmResponse, lang: string, body: string)
    requires forall i :: 0 <= i < |lang| ==> lang[i] != '\n'
    requires !StartsWith(Trim(body), Fence) && !EndsWith(Trim(body), Fence)
    requires response.status != StatusError
    ensures var fenced := response.(content := Some(Fence + lang + "\n" + (body + "\n" + Fence)));
            var plain := response.(content := Some(body));
            Finish(decode, request, userId, ingredients, fenced) == Finish(decode, request, userId, ingredients, plain)
  {
    var fenced := response.(content := Some(Fence + lang + "\n" + (body + "\n" + Fence)));
    var plain := response.(content := Some(body));
    FencedParsesLikePlain(decode, lang, body);
    assert ParseRecipe(decode, fenced.content.value) == ParseRecipe(decode, plain.content.value);
    assert !IsGenerationFailure(fenced) && !IsGenerationFailure(plain);
  }

  /** Every attempt by a known user adds exactly one row to that user's audit history. */
  lemma AuditCountsEveryAttempt(rows: seq<RecipeGeneration>, userId: string, llmRequest: LlmRequest,
                                response: LlmResponse, now: int)
    ensures CountByUserId(rows + [AuditRecord(userId, llmRequest, response, now)], userId)
         == CountByUserId(rows, userId) + 1
  {
    OwnRowCounted(rows, AuditRecord(userId, llmRequest, response, now));
  }

  /** Two ingredient lists that normalise to the same list (they differ only in case,
      surrounding spaces or later repeats) produce the same model request, and so the same
      cache key, whatever the prompt template. */
  lemma SameNormalizedListSameKey(digest: CanonicalRequest -> Digest, promptFor: seq<string> -> string,
                                  temperature: real, r1: RecipeRequest, r2: RecipeRequest, userId: string)
    requires NormalizeIngredients(r1.ingredients) == NormalizeIngredients(r2.ingredients)
    ensures BuildLlmRequest(promptFor, temperature, r1, userId) == BuildLlmRequest(promptFor, temperature, r2, userId)
    ensures KeyOf(digest, BuildLlmRequest(promptFor, temperature, r1, userId))
         == KeyOf(digest, BuildLlmRequest(promptFor, temperature, r2, userId))
  {
  }

  /** Two ingredient lists naming the same ingredients (up to case, spaces, order and
      repetition) lead to the same cache key, provided the prompt template depends only on
      which ingredients it is given and not on their order; a template that lists them in
      order does not qualify. */
  lemma EquivalentIngredientsShareKey(digest: CanonicalRequest -> Digest, promptFor: seq<string> -> string,
                                      temperature: real, r1: RecipeRequest, r2: RecipeRequest, userId: string)
    requires NormalizedSet(r1.ingredients) == NormalizedSet(r2.ingredients)
    requires forall xs, ys :: (forall x :: x in xs <==> x in ys) ==> promptFor(xs) == promptFor(ys)
    ensures KeyOf(digest, BuildLlmRequest(promptFor, temperature, r1, userId))
         == KeyOf(digest, BuildLlmRequest(promptFor, temperature, r2, userId))
  {
    var a := BuildLlmRequest(promptFor, temperature, r1, userId);
    var b := BuildLlmRequest(promptFor, temperature, r2, userId);
    assert forall x :: x in a.ingredients <==> x in b.ingredients;
    assert a.prompt == b.prompt;
    var a', b' := a.(ingredients := r1.ingredients), b.(ingredients := r2.ingredients);
    NormalizedListSameKey(digest, a');
    NormalizedListSameKey(digest, b');
    assert Canonical(a') == Canonical(b');
  }

  /** The service, with its collaborators. The user table is read only here, so it is a
      fixed set of ids. */
  class RecipeService {
    const orchestrator: LlmOrchestrator
    const recipes: RecipeRepository
    const generations: RecipeGenerationRepository
    const users: set<string>
    const decode: string -> Option<ParsedRecipe>
    const promptFor: seq<string> -> string
    const temperature: real

    constructor(orchestrator: LlmOrchestrator, recipes: RecipeRepository, generations: RecipeGenerationRepository,
                users: set<string>, decode: string -> Option<ParsedRecipe>, promptFor: seq<string> -> string,
                temperature: real)
      ensures this.orchestrator == orchestrator && this.recipes == recipes && this.generations == generations
      ensures this.users == users && this.decode == decode && this.promptFor == promptFor
      ensures this.temperature == temperature
    {
      this.orchestrator := orchestrator;
      this.recipes := recipes;
      this.generations := generations;
      this.users := users;
      this.decode := decode;
      this.promptFor := promptFor;
      this.temperature := temperature;
    }

    /** One generation attempt by `userId` at time `now`. An unknown user fails before
        anything is touched; otherwise the routed response is recorded in the audit trail,
        and the attempt either fails or stores exactly one recipe. */
    method GenerateRecipe(request: RecipeRequest, userId: string, now: int)
      returns (result: Result<RecipeResponse, string>)
      requires orchestrator.cache.Valid()
      modifies orchestrator.client, orchestrator.cache.repo, recipes, generations
      ensures orchestrator.cache.Valid()
      ensures userId !in users ==>
                result == Failure(UserNotFound) &&
                orchestrator.client.invocations == old(orchestrator.client.invocations) &&
                orchestrator.client.available == old(orchestrator.client.available) &&
                orchestrator.cache.repo.entries == old(orchestrator.cache.repo.entries) &&
                recipes.rows == old(recipes.rows) && generations.rows == old(generations.rows)
      ensures userId in users ==>
                var llmRequest := BuildLlmRequest(promptFor, temperature, request, userId);
                var s := Step(old(orchestrator.cache.repo.entries), orchestrator.cache.Key(llmRequest), now,
                              orchestrator.cache.cacheTtlDays, llmRequest, orchestrator.client.backend(llmRequest));
                var a := Finish(decode, request, userId, llmRequest.ingredients, s.response);
                orchestrator.cache.repo.entries == s.entries &&
                orchestrator.client.invocations ==
                  old(orchestrator.client.invocations) + (if s.backendCalled then 1 else 0) &&
                orchestrator.client.available == old(orchestrator.client.available) &&
                generations.rows == old(generations.rows) + [AuditRecord(userId, llmRequest, s.response, now)] &&
                recipes.rows == old(recipes.rows) + a.stored &&
                result == a.result
    {
      if userId !in users {
        return Failure(UserNotFound);
      }
      var llmRequest := BuildLlmRequest(promptFor, temperature, request, userId);
      var response := orchestrator.GenerateWithCache(llmRequest, now);
      generations.Save(AuditRecord(userId, llmRequest, response, now));
      if IsGenerationFailure(response) {
        return Failure(LlmGenerationFailed);
      }
      var recipe := RecipeOf(ParseRecipe(decode, response.content.value), request, userId, llmRequest.ingredients);
      recipes.Save(recipe);
      result := Success(ResponseOf(recipe, response));
    }
  }
}
