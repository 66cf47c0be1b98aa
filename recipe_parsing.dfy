/** Turning the model's text into a recipe: code fences are stripped, the rest is decoded as
    JSON, and text that does not decode yields a fixed fallback recipe instead of an error. */
module RecipeParsing {
  import opened Wrappers
  import opened Text

  const Fence: string := "```"
  const FallbackTitle: string := "Recipe from Ingredients"
  const FallbackDescription: string := "Generated recipe (parsing failed)"

  /** The fields of the recipe JSON the service reads. */
  datatype ParsedRecipe = ParsedRecipe(
    title: string,
    description: string,
    prepTime: Option<int>,
    cookTime: Option<int>,
    difficulty: Option<string>,
    cuisine: Option<string>,
    instructions: seq<string>,
    tags: seq<string>)

  /** The recipe used when the text does not decode: fixed title and description, no
      timings, nothing else. */
  function FallbackRecipe(): (r: ParsedRecipe)
    ensures r.title == FallbackTitle && r.description == FallbackDescription
    ensures r.prepTime.None? && r.cookTime.None? && r.instructions == [] && r.tags == []
  {
    ParsedRecipe(FallbackTitle, FallbackDescription, None, None, None, None, [], [])
  }

  /** What follows the first line break of `s`. */
  function AfterFirstLine(s: string): (r: string)
    ensures |r| <= |s| && r == s[|s| - |r|..]
  {
    if |s| == 0 then [] else if s[0] == '\n' then s[1..] else AfterFirstLine(s[1..])
  }

  lemma {:induction false} AfterFirstLineOf(head: string, rest: string)
    requires forall i :: 0 <= i < |head| ==> head[i] != '\n'
    ensures AfterFirstLine(head + "\n" + rest) == rest
  {
    var s := head + "\n" + rest;
    if |head| > 0 {
      assert s[1..] == head[1..] + "\n" + rest;
      AfterFirstLineOf(head[1..], rest);
    } else {
      assert s == "\n" + rest;
    }
  }

  /** Without a leading fence line: the fence and an optional language tag up to the first
      line break (or just the fence when the text has no line break). */
  function DropOpeningFence(t: string): (r: string)
    ensures |r| <= |t|
    ensures !StartsWith(t, Fence) ==> r == t
  {
    if StartsWith(t, Fence) then (if '\n' in t then AfterFirstLine(t) else t[|Fence|..]) else t
  }

  /** Without a trailing fence. */
  function DropClosingFence(t: string): (r: string)
    ensures |r| <= |t|
    ensures !EndsWith(t, Fence) ==> r == t
    ensures EndsWith(t, Fence) ==> t == r + Fence
  {
    if EndsWith(t, Fence) then t[..|t| - |Fence|] else t
  }

  /** Trims the text, drops the fences around it, and trims again. */
  function StripCodeFences(content: string): (r: string)
    ensures IsTrimmed(r)
    ensures |r| <= |content|
  {
    Trim(DropClosingFence(DropOpeningFence(Trim(content))))
  }

  /** Text that does not begin or end with a fence is only trimmed. */
  lemma PlainTextOnlyTrimmed(content: string)
    requires !StartsWith(Trim(content), Fence) && !EndsWith(Trim(content), Fence)
    ensures StripCodeFences(content) == Trim(content)
  {
    TrimIdempotent(content);
  }

  lemma StripOpenedAndClosed(t: string, rest: string)
    requires IsTrimmed(t) && StartsWith(t, Fence) && '\n' in t && AfterFirstLine(t) == rest
    requires EndsWith(rest, Fence)
    ensures StripCodeFences(t) == Trim(rest[..|rest| - |Fence|])
  {
    TrimOfTrimmed(t);
  }

  /** An opening fence line, `lang` being the optional language tag. */
  lemma FenceLine(lang: string, rest: string)
    requires forall i :: 0 <= i < |lang| ==> lang[i] != '\n'
    requires rest != [] && !IsSpace(rest[|rest| - 1])
    ensures var t := Fence + lang + "\n" + rest;
            IsTrimmed(t) && StartsWith(t, Fence) && '\n' in t && AfterFirstLine(t) == rest
  {
    var head := Fence + lang;
    var t := Fence + lang + "\n" + rest;
    assert t == head + "\n" + rest;
    assert t[0] == '`' && t[|t| - 1] == rest[|rest| - 1];
    assert t[..|Fence|] == Fence;
    assert t[|head|] == '\n';
    forall i | 0 <= i < |head| ensures head[i] != '\n' {
      if i >= |Fence| { assert head[i] == lang[i - |Fence|]; }
    }
    AfterFirstLineOf(head, rest);
  }

  /** A closing fence on a line of its own. */
  lemma ClosingFence(body: string)
    ensures var rest := body + "\n" + Fence;
            rest[|rest| - 1] == '`' && EndsWith(rest, Fence) && rest[..|rest| - |Fence|] == body + "\n"
  {
    var rest := body + "\n" + Fence;
    assert rest[|rest| - |Fence|..] == Fence;
    assert rest[..|rest| - |Fence|] == body + "\n";
  }

  /** A fenced block whose closing fence sits on a line of its own strips to its trimmed body. */
  lemma StripFencedBody(t: string, rest: string, body: string)
    requires IsTrimmed(t) && StartsWith(t, Fence) && '\n' in t && AfterFirstLine(t) == rest
    requires EndsWith(rest, Fence) && rest[..|rest| - |Fence|] == body + "\n"
    ensures StripCodeFences(t) == Trim(body)
  {
    StripOpenedAndClosed(t, rest);
    TrimDropsNewline(body);
  }

  lemma TrimDropsNewline(body: string)
    ensures Trim(body + "\n") == Trim(body)
  {
    assert AllSpace("\n");
    TrimAppendSpaces(body, "\n");
  }

  /** A fenced block, with or without a language tag, strips to its trimmed body. */
  lemma FencedStripsToBody(lang: string, body: string)
    requires forall i :: 0 <= i < |lang| ==> lang[i] != '\n'
    ensures StripCodeFences(Fence + lang + "\n" + (body + "\n" + Fence)) == Trim(body)
  {
    var rest := body + "\n" + Fence;
    ClosingFence(body);
    FenceLine(lang, rest);
    StripFencedBody(Fence + lang + "\n" + rest, rest, body);
  }

  /** The service's parse: decode the stripped text, or fall back. It never fails. */
  function ParseRecipe(decode: string -> Option<ParsedRecipe>, content: string): (r: ParsedRecipe)
    ensures decode(StripCodeFences(content)).Some? ==> r == decode(StripCodeFences(content)).value
    ensures decode(StripCodeFences(content)).None? ==> r == FallbackRecipe()
  {
    match decode(StripCodeFences(content))
    case Some(recipe) => recipe
    case None => FallbackRecipe()
  }

  /** JSON wrapped in a code fence parses to the same recipe as the JSON on its own. */
  lemma FencedParsesLikePlain(decode: string -> Option<ParsedRecipe>, lang: string, body: string)
    requires forall i :: 0 <= i < |lang| ==> lang[i] != '\n'
    requires !StartsWith(Trim(body), Fence) && !EndsWith(Trim(body), Fence)
    ensures ParseRecipe(decode, Fence + lang + "\n" + (body + "\n" + Fence)) == ParseRecipe(decode, body)
  {
    FencedStripsToBody(lang, body);
    PlainTextOnlyTrimmed(body);
  }
}
