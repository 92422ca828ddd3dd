/** The sample catalogue (src/lib/pantry/recipes.ts) as candidate recipes,
    and what the scorer makes of it for a few pantries. */
module SampleRecipes {
  import opened Wrappers
  import opened PantryTypes
  import opened Matcher

  const Tomato := Ingredient("tomato", "tomato")
  const Pasta := Ingredient("pasta", "pasta")
  const OliveOil := Ingredient("olive_oil", "olive oil")
  const Garlic := Ingredient("garlic", "garlic")
  const Egg := Ingredient("egg", "egg")
  const Cheese := Ingredient("cheese", "cheese")

  function Required(i: Ingredient): RecipeLink {
    RecipeLink(i.id, i.canonicalName, false)
  }

  function Optional(i: Ingredient): RecipeLink {
    RecipeLink(i.id, i.canonicalName, true)
  }

  const TomatoPasta := CandidateRecipe(
    "simple-tomato-pasta",
    "Simple Tomato Pasta",
    Some("A quick pasta with tomatoes, garlic, and olive oil."),
    Some(20.0),
    Some("easy"),
    [Required(Pasta), Required(Tomato), Required(OliveOil), Optional(Garlic), Optional(Cheese)])

  const CheesyEggs := CandidateRecipe(
    "cheesy-eggs",
    "Cheesy Scrambled Eggs",
    Some("Soft scrambled eggs with cheese."),
    Some(10.0),
    Some("easy"),
    [Required(Egg), Required(Cheese), Optional(OliveOil)])

  /** The pasta's links split into its three required and two optional
      ingredients. */
  lemma TomatoPastaSplit()
    ensures WithFlag(TomatoPasta.ingredients, false) == [Required(Pasta), Required(Tomato), Required(OliveOil)]
    ensures WithFlag(TomatoPasta.ingredients, true) == [Optional(Garlic), Optional(Cheese)]
  {
    var required := [Required(Pasta), Required(Tomato), Required(OliveOil)];
    var optional := [Optional(Garlic), Optional(Cheese)];
    assert TomatoPasta.ingredients == required + optional;
    WithFlagAppend(required, optional, false);
    WithFlagAppend(required, optional, true);
    WithFlagAll(required, false);
    WithFlagNone(optional, false);
    WithFlagNone(required, true);
    WithFlagAll(optional, true);
  }

  lemma CheesyEggsSplit()
    ensures WithFlag(CheesyEggs.ingredients, false) == [Required(Egg), Required(Cheese)]
    ensures WithFlag(CheesyEggs.ingredients, true) == [Optional(OliveOil)]
  {
    var required := [Required(Egg), Required(Cheese)];
    var optional := [Optional(OliveOil)];
    assert CheesyEggs.ingredients == required + optional;
    WithFlagAppend(required, optional, false);
    WithFlagAppend(required, optional, true);
    WithFlagAll(required, false);
    WithFlagNone(optional, false);
    WithFlagNone(required, true);
    WithFlagAll(optional, true);
  }

  /** Pasta, tomato and olive oil cover every required ingredient of the
      pasta and none of its optional ones: score 0.7, with garlic and cheese
      listed as missing optional ingredients. */
  lemma TomatoPastaExample()
    ensures var r := ScoreRecipe({"pasta", "tomato", "olive_oil"}, TomatoPasta);
      && r.Some?
      && r.value.score == 0.7
      && r.value.usedIngredients == [UsedIngredient("pasta"), UsedIngredient("tomato"), UsedIngredient("olive oil")]
      && r.value.missingIngredients == [MissingIngredient("garlic", true), MissingIngredient("cheese", true)]
  {
    var pantry := {"pasta", "tomato", "olive_oil"};
    var required := [Required(Pasta), Required(Tomato), Required(OliveOil)];
    var optional := [Optional(Garlic), Optional(Cheese)];
    TomatoPastaSplit();
    InPantryAll(required, pantry, true);
    InPantryNone(required, pantry, false);
    InPantryNone(optional, pantry, true);
    InPantryAll(optional, pantry, false);
  }

  /** Egg and cheese cover the eggs' required ingredients but not the
      optional olive oil: score 0.7. */
  lemma CheesyEggsExample()
    ensures var r := ScoreRecipe({"egg", "cheese"}, CheesyEggs);
      && r.Some?
      && r.value.score == 0.7
      && r.value.missingIngredients == [MissingIngredient("olive oil", true)]
  {
    var pantry := {"egg", "cheese"};
    var required := [Required(Egg), Required(Cheese)];
    var optional := [Optional(OliveOil)];
    CheesyEggsSplit();
    InPantryAll(required, pantry, true);
    InPantryNone(required, pantry, false);
    InPantryNone(optional, pantry, true);
    InPantryAll(optional, pantry, false);
  }

  /** Garlic and cheese are optional for the pasta, so it is not suggested;
      cheese alone is one of the eggs' two required ingredients, giving half
      the required weight. */
  lemma OptionalOnlyExample()
    ensures ScoreRecipe({"garlic", "cheese"}, TomatoPasta) == None
    ensures var r := ScoreRecipe({"garlic", "cheese"}, CheesyEggs);
      r.Some? && r.value.score == 0.35
  {
    var pantry := {"garlic", "cheese"};
    TomatoPastaSplit();
    InPantryNone([Required(Pasta), Required(Tomato), Required(OliveOil)], pantry, true);
    CheesyEggsSplit();
    InPantryAppend([Required(Egg)], [Required(Cheese)], pantry, true);
    assert [Required(Egg)] + [Required(Cheese)] == [Required(Egg), Required(Cheese)];
    InPantryNone([Required(Egg)], pantry, true);
    InPantryAll([Required(Cheese)], pantry, true);
    InPantryNone([Optional(OliveOil)], pantry, true);
  }
}
