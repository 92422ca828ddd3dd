# pantry_pal in Dafny

A model of the core of pantry_pal, a recipe suggester. The user lists what
is in their pantry. Each entry is reduced to an ingredient key and resolved
through an alias table to a canonical ingredient. Candidate recipes are then
scored by how many of their required and optional ingredients the pantry
holds, ranked by score and cut to a maximum. Offline, an ingestion script
takes unprocessed raw recipes and has a language model normalise each one.
Each usable result becomes a recipe with ingredient links, creating
ingredients and aliases for names seen for the first time.

Modules, one concept each:

- `Text` (text.dfy): the string edits the sources use: `trim`,
  `toLowerCase`, anchored and global `replace` of a character class,
  `indexOf`, `lastIndexOf`, and `slice(0, n)` for a non-negative `n`. The
  global replacement of a run is also given as a left-to-right scan
  (`Collapsed`) and proved equal to it.
- `PantryTypes` (pantry_types.dfy): the records of the matcher.
- `Normalizer` (normalizer.dfy): `normalizeIngredientKey` and
  `normalizePantryItems`. The alias table is a parameter: a sequence of
  rows, each with its ingredient.
- `Matcher` (matcher.dfy): `suggestRecipes`, meaning scoring, the stable
  sort by score and the truncation `slice(0, max)`, and the route's default.
  The candidate recipes are a parameter.
- `SampleRecipes` (sample_recipes.dfy): the sample catalogue and the scores
  it gets for a few pantries.
- `OllamaClient` (ollama_client.dfy): `extractJson`, and the shape check and
  coercion applied to the parsed model reply. The reply is a `Json` value.
- `Ingestion` (ingestion.dfy): `processBatch` of the ingestion script,
  covering the slug, the difficulty, `getOrCreateIngredientId`, the link loop,
  and the outcome and count of each raw recipe. The database is the class
  `Store`, with one field per table. Five methods of `Store` are proved
  equal to a pure function: `GetOrCreateIngredientId` to `Lookup`,
  `BuildLinks` to `LinkLoop`, `Transact` to `Transaction`, `ProcessRaw` to
  `Step` and `ProcessBatch` to `RunBatch`. The properties are lemmas about
  those functions. `NewId` and `CreateRecipe` state their new state
  directly.
- `Wrappers`, `Seqs`: `Option` and two sequence facts.

The ids `randomUUID` returns are a stream `uuid: nat -> string` that never
repeats itself, of which `issued` are used. What the language model returns
for a raw recipe, or that an error is thrown while it is processed, is the
parameter `respond`.

The ingredient key is not idempotent: `"( a"` has the key `" a"`, whose key
is `"a"` (`Normalizer.KeyNotIdempotent`). A name that none of the steps
changes is its own key (`Normalizer.KeyOfClean`).

## Model

| member | source | states |
|---|---|---|
| Text.LowerChar | src/lib/pantry/normalizer.ts:48 | lower-casing maps `A`-`Z` to `a`-`z` and leaves every other character alone |
| Text.ToLowerAt | src/lib/pantry/normalizer.ts:48 | `toLowerCase` lower-cases each character in place, keeping the length |
| Text.StripEmpty | src/lib/pantry/normalizer.ts:48 | stripping a class from both ends leaves nothing exactly when every character is in the class |
| Text.ToLower | src/lib/pantry/normalizer.ts:48 | lower-casing keeps the length |
| Text.Trim | src/lib/pantry/normalizer.ts:48 | the trimmed text has no whitespace at either end |
| Text.CollapseRuns | src/lib/pantry/normalizer.ts:56 | a global run replacement never lengthens the text, is empty only for empty text, and replaces the first and last characters when they are in the class |
| Text.CollapseRunsScan | src/lib/pantry/normalizer.ts:56 | the run replacement equals the left-to-right scan `Collapsed`: a class character writes `sub` unless the one before it was in the class, any other character is copied |
| Text.CollapseRunsOutside | src/lib/pantry/normalizer.ts:56 | the characters outside the class are kept, in order, and none is added |
| Text.CollapseRunsShape | src/lib/pantry/normalizer.ts:56 | after the replacement every character of the class is the substitute and no two class characters are adjacent |
| Text.WhitespaceCollapsed | src/lib/pantry/normalizer.ts:56 | after `replace(/\s+/g, " ")` all whitespace is a plain space and no two spaces are adjacent |
| Text.IndexOf | src/lib/ai/ollamaClient.ts:60 | -1 exactly when the character is absent, otherwise its first position |
| Text.LastIndexOf | src/lib/ai/ollamaClient.ts:61 | -1 exactly when the character is absent, otherwise its last position |
| Normalizer.KeyChain | src/lib/pantry/normalizer.ts:47-59 | the key is trim, lower-case, strip leading `[`/`(`, trailing `]`/`)`, leading and trailing quotes, trailing commas, then collapse whitespace, in that order |
| Normalizer.KeyLength | src/lib/pantry/normalizer.ts:47-59 | a key is never longer than the raw name |
| Normalizer.KeyOfBlank | src/lib/pantry/normalizer.ts:47-59 | a blank name has the empty key |
| Normalizer.KeyLowerCase | src/lib/pantry/normalizer.ts:48 | a key holds no ASCII capital letter |
| Normalizer.KeySpacing | src/lib/pantry/normalizer.ts:56 | every whitespace character of a key is a single space and no two spaces are adjacent |
| Normalizer.KeyNoTrailingComma | src/lib/pantry/normalizer.ts:54-56 | a key never ends with a comma |
| Normalizer.KeyOfClean | src/lib/pantry/normalizer.ts:47-59 | a name with no whitespace, bracket or quote at its ends, no trailing comma, no capital letter and single spacing is its own key |
| Normalizer.IngredientKey | src/lib/pantry/normalizer.ts:47-59 | `normalizeIngredientKey` as the list of its edits in source order; no contract of its own, its properties are the `Key…` lemmas |
| Normalizer.KeyNotIdempotent | src/lib/pantry/normalizer.ts:47-59 | `"( c"` keys to `" c"`, which keys to `"c"`: the key is not a fixpoint of itself |
| Normalizer.NonEmptyMembers | src/lib/pantry/normalizer.ts:7-11 | `.filter(Boolean)` keeps exactly the non-empty keys, and leaves nothing exactly when all keys are empty |
| Normalizer.AliasQuery | src/lib/pantry/normalizer.ts:13-22 | the query returns exactly the alias rows whose stored name is one of the cleaned names |
| Normalizer.MapOfPairsKeys | src/lib/pantry/normalizer.ts:24-26 | `new Map(pairs)` holds exactly the keys of the pairs |
| Normalizer.MapOfPairsLastWins | src/lib/pantry/normalizer.ts:24-26 | each key is bound to the value of the last pair with that key |
| Normalizer.MapOfPairsValues | src/lib/pantry/normalizer.ts:24-26 | every binding of the map is one of the pairs |
| Normalizer.AliasIndexKeys | src/lib/pantry/normalizer.ts:24-26 | the key of every fetched alias row is in `byAlias` |
| Normalizer.AliasIndexValues | src/lib/pantry/normalizer.ts:24-26 | each `byAlias` entry is the ingredient of a fetched row with that key |
| Normalizer.AliasIndex | src/lib/pantry/normalizer.ts:24-26 | `byAlias`; no contract of its own, see `AliasIndexKeys` and `AliasIndexValues` |
| Normalizer.Resolve | src/lib/pantry/normalizer.ts:30-39 | `mapped` is no longer than the pantry |
| Normalizer.ResolveExact | src/lib/pantry/normalizer.ts:30-39 | `mapped` holds an entry for every pantry key found in `byAlias` and nothing else |
| Normalizer.MapPantryItems | src/lib/pantry/normalizer.ts:30-39 | the first loop builds exactly `Resolve` of the pantry keys |
| Normalizer.FirstOccurrencesProps | src/lib/pantry/normalizer.ts:41-44 | the reference de-duplication has distinct ids, is no longer, and keeps every id |
| Normalizer.UniqueById | src/lib/pantry/normalizer.ts:41-44 | the values of `unique`; no contract of its own, see `UniqueByIdOrder` and `UniqueByIdLastWins` |
| Normalizer.UniqueByIdOrder | src/lib/pantry/normalizer.ts:41-44 | the ids of the de-duplicated list are the distinct ids of `mapped` in order of first occurrence |
| Normalizer.UniqueByIdLastWins | src/lib/pantry/normalizer.ts:41-44 | each de-duplicated entry is the last mapped entry with its id |
| Normalizer.SetMirrors | src/lib/pantry/normalizer.ts:42 | `unique.set` on the Map, seen as insertion order plus bindings, performs `Upsert` on the list |
| Normalizer.UniqueValues | src/lib/pantry/normalizer.ts:41-44 | the second loop and `Array.from(unique.values())` give exactly `UniqueById(mapped)` |
| Normalizer.NormalizedPantry | src/lib/pantry/normalizer.ts:4-45 | `normalizePantryItems` as a function; no contract of its own, see `NormalizedSound`, `NormalizedComplete`, `NormalizedDistinct` and `NormalizedBlank` |
| Normalizer.NormalizePantryItems | src/lib/pantry/normalizer.ts:4-45 | the method returns `NormalizedPantry` of the pantry and the alias table |
| Normalizer.NormalizedBlank | src/lib/pantry/normalizer.ts:7-11 | if every name has an empty key the result is empty whatever the alias table holds |
| Normalizer.NormalizedSound | src/lib/pantry/normalizer.ts:4-45 | every resolved entry is the ingredient of a fetched alias row matching some pantry item |
| Normalizer.NormalizedComplete | src/lib/pantry/normalizer.ts:4-45 | every pantry item matched by some fetched alias row is represented by the id of a matching row |
| Normalizer.NormalizedDistinct | src/lib/pantry/normalizer.ts:41-44 | the result's ids are pairwise distinct, it is no longer than the pantry, and ids appear in order of first resolution |
| Matcher.WithFlagMembers | src/lib/pantry/matcher.ts:26-27 | the required/optional filters keep exactly the links with that flag |
| Matcher.WithFlagPartition | src/lib/pantry/matcher.ts:26-27 | required and optional links together are the recipe's links, each once |
| Matcher.InPantryMembers | src/lib/pantry/matcher.ts:29-37 | the used/missing filters keep exactly the links whose ingredient is (is not) in the pantry set |
| Matcher.InPantryPartition | src/lib/pantry/matcher.ts:29-37 | used and missing links together are the links, each once |
| Matcher.Ratio | src/lib/pantry/matcher.ts:41-45 | a ratio lies in [0, 1], is 0 exactly when nothing is used and 1 exactly when all of a non-empty list is used |
| Matcher.ScoreRecipe | src/lib/pantry/matcher.ts:25-65 | a suggestion copies the recipe's id, title, description, time and difficulty and has no steps |
| Matcher.ScoreRecipeEligible | src/lib/pantry/matcher.ts:39 | a recipe is suggested exactly when one of its required ingredients is in the pantry |
| Matcher.ScoreRecipeScore | src/lib/pantry/matcher.ts:41-47 | the score is `0.7 * matchRatio + 0.3 * optionalRatio` with empty lists counting 0, and lies in (0, 1] |
| Matcher.ScoreWithoutOptional | src/lib/pantry/matcher.ts:41-47 | a recipe without optional ingredients scores `0.7 * matchRatio`, at most 0.7 |
| Matcher.ScoreFullMatch | src/lib/pantry/matcher.ts:41-47 | a recipe with required and optional ingredients, all in the pantry, scores exactly 1 |
| Matcher.LinksSplit | src/lib/pantry/matcher.ts:57-63 | used and missing links are together the recipe's links, each once |
| Matcher.MissingLinksOrder | src/lib/pantry/matcher.ts:60-63 | the missing required links come before the missing optional ones |
| Matcher.ScoreRecipeUsed | src/lib/pantry/matcher.ts:57-59 | `usedIngredients` names exactly the recipe's ingredients that are in the pantry |
| Matcher.ScoreRecipeMissing | src/lib/pantry/matcher.ts:60-63 | `missingIngredients` names exactly the absent ones, each with its own flag, required first; used plus missing is the number of links |
| Matcher.ScoredList | src/lib/pantry/matcher.ts:23-65 | `scored` is no longer than the candidate list |
| Matcher.ScoredListFrom | src/lib/pantry/matcher.ts:25-65 | every entry of `scored` is the suggestion of some candidate |
| Matcher.ScoredListComplete | src/lib/pantry/matcher.ts:25-65 | every eligible candidate's suggestion is in `scored` |
| Matcher.ScoreCandidates | src/lib/pantry/matcher.ts:23-65 | the loop over the recipes builds exactly `ScoredList` |
| Matcher.SortByScore | src/lib/pantry/matcher.ts:67 | the sort keeps the length; see `SortByScoreSorted`, `SortByScorePermutation` and `SortByScoreStable` |
| Matcher.InsertSorted | src/lib/pantry/matcher.ts:67 | inserting into a list sorted by descending score keeps it sorted |
| Matcher.SortByScoreSorted | src/lib/pantry/matcher.ts:67 | the sort orders by non-increasing score |
| Matcher.SortByScorePermutation | src/lib/pantry/matcher.ts:67 | the sort is a permutation |
| Matcher.SortByScoreStable | src/lib/pantry/matcher.ts:67 | the sort keeps the relative order of entries with equal scores |
| Matcher.SliceEnd | src/lib/pantry/matcher.ts:68 | `slice(0, max)` ends at `max` clamped to the length, counting a negative `max` from the end |
| Matcher.Truncate | src/lib/pantry/matcher.ts:68 | the result is the prefix of that length |
| Matcher.Suggestions | src/lib/pantry/matcher.ts:9-69 | `suggestRecipes` as a function; no contract of its own, see `SuggestionsShape`, `SuggestionsSound` and `SuggestionsBest` |
| Matcher.SuggestRecipes | src/lib/pantry/matcher.ts:9-69 | the method returns `Suggestions` of the pantry, alias table, candidates and `maxResults` |
| Matcher.SuggestionsShape | src/lib/pantry/matcher.ts:13-21 | nothing for an empty normalised pantry or no candidates; otherwise the first `maxResults` (default 5) of the ranked list |
| Matcher.SuggestionsSound | src/lib/pantry/matcher.ts:9-69 | every suggestion is the score of a candidate with a required ingredient in the pantry, and scores in (0, 1] |
| Matcher.RankedBest | src/lib/pantry/matcher.ts:67-68 | the truncated ranking is sorted and no eligible recipe cut off outscores one kept |
| Matcher.SuggestionsBest | src/lib/pantry/matcher.ts:67-68 | the suggestions are sorted by descending score and no eligible candidate left out outscores one kept |
| Matcher.SuggestRoute | app/api/recipes/suggest/route.ts:4-13 | the route's call of `suggestRecipes` with `maxResults` defaulting to 10; no contract of its own, see `SuggestRouteDefault` |
| Matcher.SuggestRouteDefault | app/api/recipes/suggest/route.ts:8-10 | without a maximum in the request the route returns the first ten suggestions, at most ten; a given maximum is passed on |
| SampleRecipes.TomatoPastaExample | src/lib/pantry/recipes.ts:12-32 | pasta, tomato and olive oil give the pasta score 0.7, all three used, garlic and cheese missing as optional |
| SampleRecipes.CheesyEggsExample | src/lib/pantry/recipes.ts:33-50 | egg and cheese give the eggs score 0.7 with olive oil missing as optional |
| SampleRecipes.OptionalOnlyExample | src/lib/pantry/recipes.ts:12-50 | garlic and cheese do not suggest the pasta (both optional) and give the eggs 0.35 |
| OllamaClient.StripFence | src/lib/ai/ollamaClient.ts:53-58 | text that does not start with a fence is left as it is |
| OllamaClient.FenceRule | src/lib/ai/ollamaClient.ts:53-58 | from fenced text the fence, a run of letters and a run of whitespace go in front, and at most one closing fence at the end |
| OllamaClient.BracePairIndices | src/lib/ai/ollamaClient.ts:60-62 | the cut condition holds exactly when a `{` is followed somewhere by a `}` |
| OllamaClient.CutToBraces | src/lib/ai/ollamaClient.ts:60-64 | the cut is never longer, and a text it changes becomes one starting with `{` and ending with `}` |
| OllamaClient.BraceCut | src/lib/ai/ollamaClient.ts:60-64 | the cut runs from the first `{` to the last `}` |
| OllamaClient.BraceCutEnds | src/lib/ai/ollamaClient.ts:60-64 | the cut starts with `{` and ends with `}` |
| OllamaClient.NoBraceCut | src/lib/ai/ollamaClient.ts:60-64 | without a brace pair the text is unchanged |
| OllamaClient.ExtractJson | src/lib/ai/ollamaClient.ts:50-67 | the result has no whitespace at either end |
| OllamaClient.ExtractJsonIsSlice | src/lib/ai/ollamaClient.ts:50-67 | the result is a contiguous piece of the reply |
| OllamaClient.ExtractJsonBraced | src/lib/ai/ollamaClient.ts:50-67 | a bare braced object comes back unchanged |
| OllamaClient.ExtractJsonFenced | src/lib/ai/ollamaClient.ts:50-67 | a braced object in a fenced block with a language tag comes out without the fence |
| OllamaClient.Get | src/lib/ai/ollamaClient.ts:116-145 | a property read finds only a member of an object |
| OllamaClient.MemberAt | src/lib/ai/ollamaClient.ts:116-145 | a member is read when no later member has its key (the last duplicate wins) |
| OllamaClient.CoerceIngredient | src/lib/ai/ollamaClient.ts:137-141 | name defaults to `""`, amount and unit to `null`, unless of the right type |
| OllamaClient.CoerceIngredients | src/lib/ai/ollamaClient.ts:137-141 | one coerced ingredient per parsed entry, in order |
| OllamaClient.CoerceDifficulty | src/lib/ai/ollamaClient.ts:131-136 | the difficulty is kept exactly when it is `easy`, `medium` or `hard`; the ingestion script applies the same rule again (scripts/process-raw-recipes.ts lines 88-93) |
| OllamaClient.CoerceSteps | src/lib/ai/ollamaClient.ts:142-144 | no steps unless `steps` is an array; otherwise one text per entry |
| OllamaClient.CoerceRecipe | src/lib/ai/ollamaClient.ts:116-123 | a recipe comes out exactly when `title` is a string and `ingredients` an array |
| OllamaClient.CoerceRecipeFields | src/lib/ai/ollamaClient.ts:125-145 | the coerced fields: title, typed description and time, whitelisted difficulty, one ingredient per entry, steps only from an array |
| OllamaClient.IngredientsRoundTrip | src/lib/ai/ollamaClient.ts:137-141 | ingredients written as JSON coerce back to themselves |
| OllamaClient.StepsRoundTrip | src/lib/ai/ollamaClient.ts:142-144 | steps written as a JSON array coerce back to themselves |
| OllamaClient.CoerceRoundTrip | src/lib/ai/ollamaClient.ts:116-145 | every recipe the coercion can produce, written as JSON, coerces back to itself |
| Ingestion.Stripped | scripts/process-raw-recipes.ts:125-128 | the stripped title neither starts nor ends with a dash |
| Ingestion.StrippedLetters | scripts/process-raw-recipes.ts:125-128 | the letters and digits of the stripped title are exactly those of the lower-cased title, in order |
| Ingestion.BaseSlug | scripts/process-raw-recipes.ts:125-129 | the base slug is the first at most 80 characters of the stripped title |
| Ingestion.Slug | scripts/process-raw-recipes.ts:134 | the slug is the base slug, a dash, and the first eight characters of the recipe id |
| Ingestion.BaseSlugShaped | scripts/process-raw-recipes.ts:125-129 | a base slug holds only `a-z`, `0-9` and single dashes, and does not start with a dash |
| Ingestion.BaseSlugEnd | scripts/process-raw-recipes.ts:125-129 | a stripped title of at most 80 characters is kept whole and does not end with a dash |
| Ingestion.SlugDoubleDash | scripts/process-raw-recipes.ts:125-134 | the cut to 80 can leave a trailing dash, so a slug can hold `--` |
| Ingestion.Usable | scripts/process-raw-recipes.ts:97-100 | the ingredients the link loop keeps, in order, each with a non-empty key |
| Ingestion.UsableEmpty | scripts/process-raw-recipes.ts:97-100 | no ingredient is usable exactly when every key is empty |
| Ingestion.LinksFor | scripts/process-raw-recipes.ts:104-111 | one required link row per usable ingredient, to the recipe, with its amount and unit |
| Ingestion.Lookup | scripts/process-raw-recipes.ts:48-76 | afterwards `name` is an alias for the returned id, and the alias table has grown by `name` only |
| Ingestion.LookupValid | scripts/process-raw-recipes.ts:44-77 | the tables stay valid and only grow, each new alias naming a new ingredient of that name |
| Ingestion.LookupCases | scripts/process-raw-recipes.ts:53-76 | an existing alias returns its ingredient and changes nothing; otherwise one ingredient and one alias are added under a fresh id |
| Ingestion.LookupRepeat | scripts/process-raw-recipes.ts:44-77 | asking again for the same name returns the same id and changes nothing |
| Ingestion.LinkLoop | scripts/process-raw-recipes.ts:97-112 | the loop builds at most one row per ingredient |
| Ingestion.LinkLoopGrown | scripts/process-raw-recipes.ts:97-112 | the link loop keeps the tables valid and only grows them |
| Ingestion.LinkLoopRows | scripts/process-raw-recipes.ts:97-112 | the aliases grow by the usable keys, and the rows link the recipe, in order, to the ingredients those keys name |
| Ingestion.LinkLoopNone | scripts/process-raw-recipes.ts:97-123 | with no usable ingredient there are no rows and nothing changes |
| Ingestion.OutcomeOf | scripts/process-raw-recipes.ts:22-158 | which of failed, rejected, no links or created a response leads to; no contract of its own, see `OutcomeCases` |
| Ingestion.RecipeRowOf | scripts/process-raw-recipes.ts:131-141 | the recipe row written: the slug, the title, description and time, the whitelisted difficulty and `isActive`; no contract of its own |
| Ingestion.Transaction | scripts/process-raw-recipes.ts:41-151 | the transaction on the database value; no contract of its own, see `StepOutcome` |
| Ingestion.Step | scripts/process-raw-recipes.ts:22-158 | one iteration on the database value; no contract of its own, see `StepValid`, `StepOutcome` and `StepCounts` |
| Ingestion.RunBatch | scripts/process-raw-recipes.ts:19-161 | the loop over a batch on the database value; no contract of its own, see the `RunBatch…` lemmas |
| Ingestion.OutcomeCases | scripts/process-raw-recipes.ts:22-158 | a recipe is created exactly when the reply is usable and some key is non-empty; counted exactly when the reply is usable; failed exactly when an error is thrown |
| Ingestion.StepValid | scripts/process-raw-recipes.ts:22-158 | processing one raw recipe keeps the database valid |
| Ingestion.TransactionValid | scripts/process-raw-recipes.ts:41-151 | the transaction keeps the database valid and never moves the id stream back |
| Ingestion.StepOutcome | scripts/process-raw-recipes.ts:22-158 | the count moves exactly for a usable reply; the raw recipe is marked unless an error is thrown; a new recipe row and at least one link are added exactly on `Created`, and nothing else changes otherwise |
| Ingestion.StepCounts | scripts/process-raw-recipes.ts:22-158 | one raw recipe adds at most one recipe, and only when counted |
| Ingestion.Unprocessed | scripts/process-raw-recipes.ts:7-10 | the pending list holds only raw recipes that are not processed |
| Ingestion.UnprocessedComplete | scripts/process-raw-recipes.ts:7-10 | every unprocessed raw recipe is pending |
| Ingestion.Batch | scripts/process-raw-recipes.ts:7-10 | the batch is the first `limit` pending raw recipes |
| Ingestion.CountOf | scripts/process-raw-recipes.ts:19-161 | the count is at most the batch size |
| Ingestion.MarkedOfMembers | scripts/process-raw-recipes.ts:22-157 | a raw recipe is marked processed exactly when no error is thrown for it |
| Ingestion.CountOfExtremes | scripts/process-raw-recipes.ts:19-161 | the count is 0 exactly when no reply is usable, and the batch size exactly when all are |
| Ingestion.RunBatchValid | scripts/process-raw-recipes.ts:6-162 | a batch keeps the database valid |
| Ingestion.RunBatchCount | scripts/process-raw-recipes.ts:19-161 | a batch returns the number of raw recipes with a usable reply |
| Ingestion.RunBatchMarks | scripts/process-raw-recipes.ts:21-159 | a batch marks exactly the raw recipes not met by an error |
| Ingestion.RunBatchRecipes | scripts/process-raw-recipes.ts:21-159 | a batch creates at most one recipe per raw recipe it counts |
| Ingestion.Store.NewId | scripts/process-raw-recipes.ts:95 | the next id of the stream, used by no ingredient and no recipe |
| Ingestion.Store.GetOrCreateIngredientId | scripts/process-raw-recipes.ts:44-77 | the new tables and id are `Lookup`'s, and the cache gains the name |
| Ingestion.Store.CreateIngredient | scripts/process-raw-recipes.ts:58-76 | for a name no alias has, the new tables and id are `Lookup`'s: a new ingredient under the next id and an alias for it; the database stays valid |
| Ingestion.Store.BuildLinks | scripts/process-raw-recipes.ts:97-112 | the rows and tables are `LinkLoop`'s; no rows exactly when no key is usable, and then nothing changes |
| Ingestion.Store.CreateRecipe | scripts/process-raw-recipes.ts:131-145 | the recipe row is added under its id and the link rows are appended |
| Ingestion.Store.Transact | scripts/process-raw-recipes.ts:41-151 | the transaction changes the store as `Transaction` says |
| Ingestion.Store.ProcessRaw | scripts/process-raw-recipes.ts:22-158 | one iteration changes the store as `Step` says |
| Ingestion.Store.ProcessBatch | scripts/process-raw-recipes.ts:6-162 | `processBatch(limit)` changes the store and returns the count as `RunBatch` says for the batch `Batch` selects |

## Left out

- The HTTP call to the language model, `buildPrompt`, `JSON.parse` and console logging are not modelled. The coercion starts from a parsed `Json` value, and the model's reply or a thrown error is the parameter `respond`.
- The database is in memory. Errors a write could throw (such as a uniqueness violation) are not derived. A thrown error is the `Threw` response, and the rolled-back transaction changes nothing.
- The ids `randomUUID` gives alias rows and link rows (lines 69 and 105 of the script) are not modelled. Those rows carry no id of their own.
- Alias names are unique: the alias table is a map from alias name to ingredient id.
- Rows come back from `findMany` in table order, the order of the `rawRecipes` field.
- The ingestion loop in `main` (lines 164-195) is not modelled, nor is the default `limit` of 10 of `processBatch`.
- `Ingestion.Store.ProcessBatch`: a negative `take` is not modelled. `limit` is a `nat`.
- The check `Array.isArray(normalizedJson.ingredients)` at line 28 of the script always holds after the coercion, so it is not modelled.
- Matcher.Truncate: `maxResults` is an integer. A non-integer, `NaN` or infinite `maxResults` from the request body, which `slice` truncates toward zero, treats as 0, or clamps, is not modelled.
- `toLowerCase` is modelled for ASCII letters only; other characters are left as they are.
- `OllamaClient.CoerceSteps`: `String(s)` for a step that is neither a string nor `null` is the parameter `render`. JavaScript's number and object rendering is not modelled.
- Numbers are `real`; JavaScript's floating point and its rounding in the score are not modelled.
- `getCandidateRecipesByIngredients` (src/lib/pantry/recipes.repo.ts) is not part of this model. The candidate recipes are a parameter of `suggestRecipes`.
- The key function and the recipe-row function are the `Store` constants `key` and `rowOf`, which the constructor sets to `Normalizer.IngredientKey` and `Ingestion.RecipeRowOf`.
