/** The records of the pantry matcher: what the user types, what the alias
    store returns, the recipes handed to the scorer and what it returns. */
module PantryTypes {
  import opened Wrappers

  /** One raw pantry entry as the user typed it; only `name` is used. */
  datatype PantryItemInput = PantryItemInput(name: string, qty: Option<real>, unit: Option<string>)

  /** A canonical ingredient row. */
  datatype Ingredient = Ingredient(id: string, canonicalName: string)

  /** One row of the alias table, with the ingredient it resolves to. */
  datatype AliasRecord = AliasRecord(aliasName: string, ingredient: Ingredient)

  /** One resolved pantry entry. */
  datatype PantryIngredient = PantryIngredient(ingredientId: string, name: string)

  /** A recipe's link to an ingredient; a link stored without the flag is
      required, so it carries `optional == false`. */
  datatype RecipeLink = RecipeLink(ingredientId: string, canonicalName: string, optional: bool)

  /** A candidate recipe with its full ingredient list. */
  datatype CandidateRecipe = CandidateRecipe(
    id: string,
    title: string,
    description: Option<string>,
    timeMinutes: Option<real>,
    difficulty: Option<string>,
    ingredients: seq<RecipeLink>)

  datatype UsedIngredient = UsedIngredient(name: string)

  datatype MissingIngredient = MissingIngredient(name: string, optional: bool)

  /** One scored suggestion. */
  datatype SuggestedRecipe = SuggestedRecipe(
    id: string,
    title: string,
    score: real,
    missingIngredients: seq<MissingIngredient>,
    usedIngredients: seq<UsedIngredient>,
    timeMinutes: Option<real>,
    difficulty: Option<string>,
    steps: seq<string>,
    description: Option<string>)
}
