/** The recipe scorer and ranker (src/lib/pantry/matcher.ts). The candidate
    recipes, which the source fetches by ingredient id, are an input. */
module Matcher {
  import opened Wrappers
  import opened PantryTypes
  import opened Normalizer
  import opened Seqs

  /** The links whose `optional` flag equals `optional`:
      `recipe.ingredients.filter(i => !i.optional)` and `.filter(i => i.optional)`. */
  function WithFlag(links: seq<RecipeLink>, optional: bool): (r: seq<RecipeLink>)
    ensures |r| <= |links|
  {
    if links == [] then []
    else
      var prev := WithFlag(links[..|links| - 1], optional);
      var l := links[|links| - 1];
      if l.optional == optional then prev + [l] else prev
  }

  /** The links whose ingredient is (`present`) or is not (`!present`) in the
      pantry set: `.filter(r => pantrySet.has(r.ingredientId))` and its negation. */
  function InPantry(links: seq<RecipeLink>, pantry: set<string>, present: bool): (r: seq<RecipeLink>)
    ensures |r| <= |links|
  {
    if links == [] then []
    else
      var prev := InPantry(links[..|links| - 1], pantry, present);
      var l := links[|links| - 1];
      if (l.ingredientId in pantry) == present then prev + [l] else prev
  }

  lemma {:induction false} WithFlagMembers(links: seq<RecipeLink>, optional: bool)
    ensures forall l :: l in WithFlag(links, optional) <==> l in links && l.optional == optional
    ensures forall l :: l in WithFlag(links, optional) ==> l.optional == optional
  {
    if links != [] {
      WithFlagMembers(links[..|links| - 1], optional);
      assert links == links[..|links| - 1] + [links[|links| - 1]];
    }
  }

  lemma {:induction false} InPantryMembers(links: seq<RecipeLink>, pantry: set<string>, present: bool)
    ensures forall l :: l in InPantry(links, pantry, present) <==> l in links && (l.ingredientId in pantry) == present
  {
    if links != [] {
      InPantryMembers(links[..|links| - 1], pantry, present);
      assert links == links[..|links| - 1] + [links[|links| - 1]];
    }
  }

  /** The two filters on the flag split the links: together they hold every
      link exactly once. */
  lemma {:induction false} WithFlagPartition(links: seq<RecipeLink>)
    ensures multiset(WithFlag(links, false)) + multiset(WithFlag(links, true)) == multiset(links)
  {
    if links != [] {
      var init := links[..|links| - 1];
      WithFlagPartition(init);
      assert links == init + [links[|links| - 1]];
    }
  }

  /** The two filters on pantry membership split the links. */
  lemma {:induction false} InPantryPartition(links: seq<RecipeLink>, pantry: set<string>)
    ensures multiset(InPantry(links, pantry, true)) + multiset(InPantry(links, pantry, false)) == multiset(links)
  {
    if links != [] {
      var init := links[..|links| - 1];
      InPantryPartition(init, pantry);
      assert links == init + [links[|links| - 1]];
    }
  }

  /** `used / total`, or 0 when there is nothing to count. */
  function Ratio(used: nat, total: nat): (r: real)
    requires used <= total
    ensures 0.0 <= r <= 1.0
    ensures r == 0.0 <==> used == 0
    ensures r == 1.0 <==> used == total && total > 0
  {
    if total > 0 then
      QuotientBounds(used as real, total as real);
      used as real / total as real
    else 0.0
  }

  lemma QuotientBounds(a: real, b: real)
    requires 0.0 <= a <= b && 0.0 < b
    ensures 0.0 <= a / b <= 1.0
    ensures a / b == 0.0 <==> a == 0.0
    ensures a / b == 1.0 <==> a == b
  {
    var q := a / b;
    assert q * b == a;
  }

  /** `matchRatio * 0.7 + optionalRatio * 0.3` */
  function Score(matchRatio: real, optionalRatio: real): real {
    matchRatio * 0.7 + optionalRatio * 0.3
  }

  function UsedOf(l: RecipeLink): UsedIngredient {
    UsedIngredient(l.canonicalName)
  }

  function MissingOf(l: RecipeLink): MissingIngredient {
    MissingIngredient(l.canonicalName, l.optional)
  }

  function UsedList(links: seq<RecipeLink>): (r: seq<UsedIngredient>)
    ensures |r| == |links|
    ensures forall k :: 0 <= k < |links| ==> r[k] == UsedOf(links[k])
  {
    seq(|links|, k requires 0 <= k < |links| => UsedOf(links[k]))
  }

  function MissingList(links: seq<RecipeLink>): (r: seq<MissingIngredient>)
    ensures |r| == |links|
    ensures forall k :: 0 <= k < |links| ==> r[k] == MissingOf(links[k])
  {
    seq(|links|, k requires 0 <= k < |links| => MissingOf(links[k]))
  }

  /** One turn of the loop over the recipes: nothing when no required
      ingredient is in the pantry, else the scored suggestion. */
  function ScoreRecipe(pantry: set<string>, recipe: CandidateRecipe): (r: Option<SuggestedRecipe>)
    ensures r.Some? ==> && r.value.id == recipe.id && r.value.title == recipe.title
                        && r.value.description == recipe.description
                        && r.value.timeMinutes == recipe.timeMinutes
                        && r.value.difficulty == recipe.difficulty
                        && r.value.steps == []
  {
    var required := WithFlag(recipe.ingredients, false);
    var optional := WithFlag(recipe.ingredients, true);
    var usedRequired := InPantry(required, pantry, true);
    var usedOptional := InPantry(optional, pantry, true);
    if |usedRequired| == 0 then None
    else
      var matchRatio := Ratio(|usedRequired|, |required|);
      var optionalRatio := Ratio(|usedOptional|, |optional|);
      Some(SuggestedRecipe(
        recipe.id,
        recipe.title,
        Score(matchRatio, optionalRatio),
        MissingList(MissingLinks(pantry, recipe.ingredients)),
        UsedList(UsedLinks(pantry, recipe.ingredients)),
        recipe.timeMinutes,
        recipe.difficulty,
        [],
        recipe.description))
  }

  /** Some required link of the recipe is in the pantry. */
  ghost predicate HasRequiredInPantry(pantry: set<string>, recipe: CandidateRecipe) {
    exists l :: l in recipe.ingredients && !l.optional && l.ingredientId in pantry
  }

  /** A recipe is suggested exactly when one of its required ingredients is in
      the pantry. */
  lemma ScoreRecipeEligible(pantry: set<string>, recipe: CandidateRecipe)
    ensures ScoreRecipe(pantry, recipe).Some? <==> HasRequiredInPantry(pantry, recipe)
  {
    var required := WithFlag(recipe.ingredients, false);
    WithFlagMembers(recipe.ingredients, false);
    InPantryMembers(required, pantry, true);
    var usedRequired := InPantry(required, pantry, true);
    if HasRequiredInPantry(pantry, recipe) {
      var l :| l in recipe.ingredients && !l.optional && l.ingredientId in pantry;
      assert l in usedRequired;
    }
    if usedRequired != [] {
      var l := usedRequired[0];
      assert l in recipe.ingredients && !l.optional && l.ingredientId in pantry;
    }
  }

  /** The score of a suggestion is the weighted sum of the two ratios, with an
      empty list contributing 0, and lies in (0, 1]. */
  lemma ScoreRecipeScore(pantry: set<string>, recipe: CandidateRecipe)
    requires ScoreRecipe(pantry, recipe).Some?
    ensures var s := ScoreRecipe(pantry, recipe).value;
      var required := WithFlag(recipe.ingredients, false);
      var optional := WithFlag(recipe.ingredients, true);
      && s.score == 0.7 * Ratio(|InPantry(required, pantry, true)|, |required|)
                    + 0.3 * Ratio(|InPantry(optional, pantry, true)|, |optional|)
      && 0.0 < s.score <= 1.0
  {
  }

  /** A recipe without optional ingredients scores `0.7 · ratio`, at most 0.7. */
  lemma ScoreWithoutOptional(pantry: set<string>, recipe: CandidateRecipe)
    requires ScoreRecipe(pantry, recipe).Some?
    requires forall l :: l in recipe.ingredients ==> !l.optional
    ensures var required := WithFlag(recipe.ingredients, false);
      ScoreRecipe(pantry, recipe).value.score == 0.7 * Ratio(|InPantry(required, pantry, true)|, |required|)
    ensures ScoreRecipe(pantry, recipe).value.score <= 0.7
  {
    var optional := WithFlag(recipe.ingredients, true);
    WithFlagMembers(recipe.ingredients, true);
  }

  /** A recipe whose every ingredient is in the pantry and that has an
      optional ingredient scores 1. */
  lemma ScoreFullMatch(pantry: set<string>, recipe: CandidateRecipe)
    requires forall l :: l in recipe.ingredients ==> l.ingredientId in pantry
    requires exists l :: l in recipe.ingredients && !l.optional
    requires exists l :: l in recipe.ingredients && l.optional
    ensures ScoreRecipe(pantry, recipe).Some? && ScoreRecipe(pantry, recipe).value.score == 1.0
  {
    var links := recipe.ingredients;
    var required := WithFlag(links, false);
    var optional := WithFlag(links, true);
    WithFlagMembers(links, false);
    WithFlagMembers(links, true);
    InPantryAll(required, pantry, true);
    InPantryAll(optional, pantry, true);
    var l :| l in links && !l.optional;
    assert l in required;
    var o :| o in links && o.optional;
    assert o in optional;
  }

  /** The pantry filter keeps every link when all of them pass it. */
  lemma {:induction false} InPantryAll(links: seq<RecipeLink>, pantry: set<string>, present: bool)
    requires forall k :: 0 <= k < |links| ==> (links[k].ingredientId in pantry) == present
    ensures InPantry(links, pantry, present) == links
  {
    if links != [] {
      var init := links[..|links| - 1];
      InPantryAll(init, pantry, present);
      FrontLast(links);
    }
  }

  /** The pantry filter keeps nothing when no link passes it. */
  lemma {:induction false} InPantryNone(links: seq<RecipeLink>, pantry: set<string>, present: bool)
    requires forall k :: 0 <= k < |links| ==> (links[k].ingredientId in pantry) != present
    ensures InPantry(links, pantry, present) == []
  {
    if links != [] {
      var init := links[..|links| - 1];
      InPantryNone(init, pantry, present);
    }
  }

  /** The flag filter keeps every link when all carry the flag. */
  lemma {:induction false} WithFlagAll(links: seq<RecipeLink>, optional: bool)
    requires forall k :: 0 <= k < |links| ==> links[k].optional == optional
    ensures WithFlag(links, optional) == links
  {
    if links != [] {
      var init := links[..|links| - 1];
      WithFlagAll(init, optional);
      FrontLast(links);
    }
  }

  /** The flag filter keeps nothing when no link carries the flag. */
  lemma {:induction false} WithFlagNone(links: seq<RecipeLink>, optional: bool)
    requires forall k :: 0 <= k < |links| ==> links[k].optional != optional
    ensures WithFlag(links, optional) == []
  {
    if links != [] {
      var init := links[..|links| - 1];
      WithFlagNone(init, optional);
    }
  }

  /** Both filters distribute over concatenation. */
  lemma {:induction false} WithFlagAppend(a: seq<RecipeLink>, b: seq<RecipeLink>, optional: bool)
    ensures WithFlag(a + b, optional) == WithFlag(a, optional) + WithFlag(b, optional)
    decreases |b|
  {
    if b != [] {
      var init := b[..|b| - 1];
      WithFlagAppend(a, init, optional);
      assert (a + b)[..|a + b| - 1] == a + init;
    } else {
      assert a + b == a;
    }
  }

  lemma {:induction false} InPantryAppend(a: seq<RecipeLink>, b: seq<RecipeLink>, pantry: set<string>, present: bool)
    ensures InPantry(a + b, pantry, present) == InPantry(a, pantry, present) + InPantry(b, pantry, present)
    decreases |b|
  {
    if b != [] {
      var init := b[..|b| - 1];
      InPantryAppend(a, init, pantry, present);
      assert (a + b)[..|a + b| - 1] == a + init;
    } else {
      assert a + b == a;
    }
  }

  /** The used links: `[...usedRequired, ...usedOptional]`. */
  function UsedLinks(pantry: set<string>, links: seq<RecipeLink>): seq<RecipeLink> {
    InPantry(WithFlag(links, false), pantry, true) + InPantry(WithFlag(links, true), pantry, true)
  }

  /** The missing links: `[...missingRequired, ...missingOptional]`. */
  function MissingLinks(pantry: set<string>, links: seq<RecipeLink>): seq<RecipeLink> {
    InPantry(WithFlag(links, false), pantry, false) + InPantry(WithFlag(links, true), pantry, false)
  }

  /** A link is used exactly when its ingredient is in the pantry. */
  lemma UsedLinksMembers(pantry: set<string>, links: seq<RecipeLink>)
    ensures forall l :: l in UsedLinks(pantry, links) <==> l in links && l.ingredientId in pantry
  {
    WithFlagMembers(links, false);
    WithFlagMembers(links, true);
    InPantryMembers(WithFlag(links, false), pantry, true);
    InPantryMembers(WithFlag(links, true), pantry, true);
  }

  /** A link is missing exactly when its ingredient is not in the pantry. */
  lemma MissingLinksMembers(pantry: set<string>, links: seq<RecipeLink>)
    ensures forall l :: l in MissingLinks(pantry, links) <==> l in links && l.ingredientId !in pantry
  {
    WithFlagMembers(links, false);
    WithFlagMembers(links, true);
    InPantryMembers(WithFlag(links, false), pantry, false);
    InPantryMembers(WithFlag(links, true), pantry, false);
  }

  /** Used and missing links together are the recipe's links, each once. */
  lemma LinksSplit(pantry: set<string>, links: seq<RecipeLink>)
    ensures multiset(UsedLinks(pantry, links)) + multiset(MissingLinks(pantry, links)) == multiset(links)
    ensures |UsedLinks(pantry, links)| + |MissingLinks(pantry, links)| == |links|
  {
    WithFlagPartition(links);
    InPantryPartition(WithFlag(links, false), pantry);
    InPantryPartition(WithFlag(links, true), pantry);
    assert |multiset(links)| == |links|;
  }

  /** The missing required links come before the missing optional ones. */
  lemma MissingLinksOrder(pantry: set<string>, links: seq<RecipeLink>)
    ensures var m := MissingLinks(pantry, links);
      forall i, j :: 0 <= i < j < |m| && m[i].optional ==> m[j].optional
  {
    var required := InPantry(WithFlag(links, false), pantry, false);
    var optional := InPantry(WithFlag(links, true), pantry, false);
    var m := required + optional;
    WithFlagMembers(links, false);
    WithFlagMembers(links, true);
    InPantryMembers(WithFlag(links, false), pantry, false);
    InPantryMembers(WithFlag(links, true), pantry, false);
    forall k | 0 <= k < |required|
      ensures !m[k].optional
    {
      assert m[k] in required;
    }
    forall k | |required| <= k < |m|
      ensures m[k].optional
    {
      assert m[k] in optional;
    }
  }

  /** The used list of a suggestion names exactly the recipe's ingredients
      that are in the pantry. */
  lemma ScoreRecipeUsed(pantry: set<string>, recipe: CandidateRecipe)
    requires ScoreRecipe(pantry, recipe).Some?
    ensures forall l :: l in recipe.ingredients && l.ingredientId in pantry ==>
              UsedOf(l) in ScoreRecipe(pantry, recipe).value.usedIngredients
    ensures forall u :: u in ScoreRecipe(pantry, recipe).value.usedIngredients ==>
              exists l :: l in recipe.ingredients && l.ingredientId in pantry && u == UsedOf(l)
  {
    var used := UsedLinks(pantry, recipe.ingredients);
    var s := ScoreRecipe(pantry, recipe).value;
    UsedLinksMembers(pantry, recipe.ingredients);
    forall l | l in recipe.ingredients && l.ingredientId in pantry
      ensures UsedOf(l) in s.usedIngredients
    {
      var k :| 0 <= k < |used| && used[k] == l;
      assert s.usedIngredients[k] == UsedOf(l);
    }
    forall u | u in s.usedIngredients
      ensures exists l :: l in recipe.ingredients && l.ingredientId in pantry && u == UsedOf(l)
    {
      var k :| 0 <= k < |s.usedIngredients| && s.usedIngredients[k] == u;
      assert used[k] in used;
    }
  }

  /** The missing list of a suggestion names exactly the recipe's ingredients
      that are not in the pantry, each with its own `optional` flag, the
      required ones first; used and missing together are as many as the
      recipe's ingredients. */
  lemma ScoreRecipeMissing(pantry: set<string>, recipe: CandidateRecipe)
    requires ScoreRecipe(pantry, recipe).Some?
    ensures var s := ScoreRecipe(pantry, recipe).value;
      && (forall l :: l in recipe.ingredients && l.ingredientId !in pantry ==> MissingOf(l) in s.missingIngredients)
      && (forall m :: m in s.missingIngredients ==>
            exists l :: l in recipe.ingredients && l.ingredientId !in pantry && m == MissingOf(l))
      && (forall i, j :: 0 <= i < j < |s.missingIngredients| && s.missingIngredients[i].optional ==>
            s.missingIngredients[j].optional)
      && |s.usedIngredients| + |s.missingIngredients| == |recipe.ingredients|
  {
    var missing := MissingLinks(pantry, recipe.ingredients);
    var s := ScoreRecipe(pantry, recipe).value;
    MissingLinksMembers(pantry, recipe.ingredients);
    MissingLinksOrder(pantry, recipe.ingredients);
    LinksSplit(pantry, recipe.ingredients);
    forall l | l in recipe.ingredients && l.ingredientId !in pantry
      ensures MissingOf(l) in s.missingIngredients
    {
      var k :| 0 <= k < |missing| && missing[k] == l;
      assert s.missingIngredients[k] == MissingOf(l);
    }
    forall m | m in s.missingIngredients
      ensures exists l :: l in recipe.ingredients && l.ingredientId !in pantry && m == MissingOf(l)
    {
      var k :| 0 <= k < |s.missingIngredients| && s.missingIngredients[k] == m;
      assert missing[k] in missing;
    }
  }

  /** The `scored` list: the suggestions of the eligible recipes, in
      candidate order. */
  function ScoredList(pantry: set<string>, recipes: seq<CandidateRecipe>): (scored: seq<SuggestedRecipe>)
    ensures |scored| <= |recipes|
  {
    if recipes == [] then []
    else
      var prev := ScoredList(pantry, recipes[..|recipes| - 1]);
      match ScoreRecipe(pantry, recipes[|recipes| - 1])
      case None => prev
      case Some(s) => prev + [s]
  }

  /** Every entry of `scored` is the suggestion of some candidate. */
  lemma {:induction false} ScoredListFrom(pantry: set<string>, recipes: seq<CandidateRecipe>)
    ensures forall s :: s in ScoredList(pantry, recipes) ==>
              exists c :: c in recipes && ScoreRecipe(pantry, c) == Some(s)
  {
    if recipes != [] {
      var init := recipes[..|recipes| - 1];
      ScoredListFrom(pantry, init);
      assert forall c :: c in init ==> c in recipes;
    }
  }

  /** The loop over the recipes. */
  method ScoreCandidates(pantry: set<string>, recipes: seq<CandidateRecipe>)
    returns (scored: seq<SuggestedRecipe>)
    ensures scored == ScoredList(pantry, recipes)
  {
    scored := [];
    var i := 0;
    while i < |recipes|
      invariant 0 <= i <= |recipes|
      invariant scored == ScoredList(pantry, recipes[..i])
    {
      TakeSnoc(recipes, i);
      assert recipes[..i + 1][..i] == recipes[..i];
      var suggestion := ScoreRecipe(pantry, recipes[i]);
      if suggestion.Some? {
        scored := scored + [suggestion.value];
      }
      i := i + 1;
    }
    assert recipes[..i] == recipes;
  }

  /** Non-increasing scores. */
  ghost predicate SortedByScore(xs: seq<SuggestedRecipe>) {
    forall i, j :: 0 <= i < j < |xs| ==> xs[i].score >= xs[j].score
  }

  /** The entries with score `v`, in order. */
  function WithScore(xs: seq<SuggestedRecipe>, v: real): (r: seq<SuggestedRecipe>)
    ensures |r| <= |xs|
  {
    if xs == [] then []
    else (if xs[0].score == v then [xs[0]] else []) + WithScore(xs[1..], v)
  }

  /** Put `x` after every entry whose score is at least its own. */
  function Insert(sorted: seq<SuggestedRecipe>, x: SuggestedRecipe): (r: seq<SuggestedRecipe>)
    ensures |r| == |sorted| + 1
  {
    if sorted == [] then [x]
    else if sorted[0].score < x.score then [x] + sorted
    else [sorted[0]] + Insert(sorted[1..], x)
  }

  /** `scored.sort((a, b) => b.score - a.score)`: a stable sort by descending
      score, written as an insertion sort. */
  function SortByScore(xs: seq<SuggestedRecipe>): (r: seq<SuggestedRecipe>)
    ensures |r| == |xs|
  {
    if xs == [] then [] else Insert(SortByScore(xs[..|xs| - 1]), xs[|xs| - 1])
  }

  lemma {:induction false} InsertMultiset(sorted: seq<SuggestedRecipe>, x: SuggestedRecipe)
    ensures multiset(Insert(sorted, x)) == multiset(sorted) + multiset{x}
  {
    if sorted != [] && sorted[0].score >= x.score {
      InsertMultiset(sorted[1..], x);
      assert sorted == [sorted[0]] + sorted[1..];
    }
  }

  /** Every score is at most `b`. */
  ghost predicate ScoresAtMost(xs: seq<SuggestedRecipe>, b: real) {
    forall k :: 0 <= k < |xs| ==> xs[k].score <= b
  }

  lemma {:induction false} InsertAtMost(sorted: seq<SuggestedRecipe>, x: SuggestedRecipe, b: real)
    requires ScoresAtMost(sorted, b) && x.score <= b
    ensures ScoresAtMost(Insert(sorted, x), b)
  {
    if sorted != [] && sorted[0].score >= x.score {
      var tail := sorted[1..];
      assert ScoresAtMost(tail, b) by {
        forall k | 0 <= k < |tail| ensures tail[k].score <= b {
          assert tail[k] == sorted[k + 1];
        }
      }
      InsertAtMost(tail, x, b);
    }
  }

  /** A head scoring at least every entry of a sorted tail keeps it sorted. */
  lemma SortedCons(h: SuggestedRecipe, rest: seq<SuggestedRecipe>)
    requires SortedByScore(rest) && ScoresAtMost(rest, h.score)
    ensures SortedByScore([h] + rest)
  {
    var r := [h] + rest;
    forall i, j | 0 <= i < j < |r|
      ensures r[i].score >= r[j].score
    {
      assert r[j] == rest[j - 1];
      if i > 0 {
        assert r[i] == rest[i - 1];
      }
    }
  }

  lemma {:induction false} InsertSorted(sorted: seq<SuggestedRecipe>, x: SuggestedRecipe)
    requires SortedByScore(sorted)
    ensures SortedByScore(Insert(sorted, x))
  {
    if sorted == [] {
    } else if sorted[0].score < x.score {
      assert ScoresAtMost(sorted, x.score) by {
        forall k | 0 <= k < |sorted| ensures sorted[k].score <= x.score {
          assert sorted[0].score >= sorted[k].score;
        }
      }
      SortedCons(x, sorted);
    } else {
      var tail := sorted[1..];
      SortedTail(sorted);
      InsertSorted(tail, x);
      assert ScoresAtMost(tail, sorted[0].score) by {
        forall k | 0 <= k < |tail| ensures tail[k].score <= sorted[0].score {
          assert tail[k] == sorted[k + 1];
        }
      }
      InsertAtMost(tail, x, sorted[0].score);
      SortedCons(sorted[0], Insert(tail, x));
    }
  }

  /** No entry has score `v`. */
  lemma {:induction false} WithScoreNone(xs: seq<SuggestedRecipe>, v: real)
    requires forall k :: 0 <= k < |xs| ==> xs[k].score != v
    ensures WithScore(xs, v) == []
  {
    if xs != [] {
      WithScoreNone(xs[1..], v);
    }
  }

  /** Inserting into a sorted list adds `x` after every earlier entry with
      the same score. */
  lemma {:induction false} InsertStable(sorted: seq<SuggestedRecipe>, x: SuggestedRecipe, v: real)
    requires SortedByScore(sorted)
    ensures WithScore(Insert(sorted, x), v) == WithScore(sorted, v) + (if x.score == v then [x] else [])
  {
    if sorted == [] {
      WithScoreCons(x, [], v);
    } else if sorted[0].score < x.score {
      WithScoreCons(x, sorted, v);
      if x.score == v {
        forall k | 0 <= k < |sorted|
          ensures sorted[k].score != v
        {
          assert sorted[0].score >= sorted[k].score;
        }
        WithScoreNone(sorted, v);
      }
    } else {
      var tail := sorted[1..];
      SortedTail(sorted);
      InsertStable(tail, x, v);
      WithScoreCons(sorted[0], Insert(tail, x), v);
      WithScoreCons(sorted[0], tail, v);
      assert [sorted[0]] + tail == sorted;
    }
  }

  lemma WithScoreCons(y: SuggestedRecipe, rest: seq<SuggestedRecipe>, v: real)
    ensures WithScore([y] + rest, v) == (if y.score == v then [y] else []) + WithScore(rest, v)
  {
    assert ([y] + rest)[0] == y && ([y] + rest)[1..] == rest;
  }

  lemma SortedTail(xs: seq<SuggestedRecipe>)
    requires SortedByScore(xs) && xs != []
    ensures SortedByScore(xs[1..])
  {
    forall i, j | 0 <= i < j < |xs| - 1
      ensures xs[1..][i].score >= xs[1..][j].score
    {
      assert xs[1..][i] == xs[i + 1] && xs[1..][j] == xs[j + 1];
    }
  }

  lemma {:induction false} WithScoreSnoc(xs: seq<SuggestedRecipe>, x: SuggestedRecipe, v: real)
    ensures WithScore(xs + [x], v) == WithScore(xs, v) + (if x.score == v then [x] else [])
  {
    if xs == [] {
      assert WithScore([x], v) == (if x.score == v then [x] else []) + WithScore([], v);
    } else {
      WithScoreSnoc(xs[1..], x, v);
      assert xs + [x] == [xs[0]] + (xs[1..] + [x]);
      WithScoreCons(xs[0], xs[1..] + [x], v);
      WithScoreCons(xs[0], xs[1..], v);
      assert [xs[0]] + xs[1..] == xs;
    }
  }

  /** The sort orders by non-increasing score. */
  lemma {:induction false} SortByScoreSorted(xs: seq<SuggestedRecipe>)
    ensures SortedByScore(SortByScore(xs))
  {
    if xs != [] {
      SortByScoreSorted(xs[..|xs| - 1]);
      InsertSorted(SortByScore(xs[..|xs| - 1]), xs[|xs| - 1]);
    }
  }

  /** The sort is a permutation. */
  lemma {:induction false} SortByScorePermutation(xs: seq<SuggestedRecipe>)
    ensures multiset(SortByScore(xs)) == multiset(xs)
  {
    if xs != [] {
      var init := xs[..|xs| - 1];
      SortByScorePermutation(init);
      InsertMultiset(SortByScore(init), xs[|xs| - 1]);
      assert xs == init + [xs[|xs| - 1]];
    }
  }

  /** The sort keeps the order of entries with equal scores. */
  lemma {:induction false} SortByScoreStable(xs: seq<SuggestedRecipe>, v: real)
    ensures WithScore(SortByScore(xs), v) == WithScore(xs, v)
  {
    if xs != [] {
      var init := xs[..|xs| - 1];
      var x := xs[|xs| - 1];
      SortByScoreStable(init, v);
      SortByScoreSorted(init);
      InsertStable(SortByScore(init), x, v);
      WithScoreSnoc(init, x, v);
      assert xs == init + [x];
    }
  }

  /** The end index of `slice(0, end)` on a list of length `len`. */
  function SliceEnd(len: nat, end: int): (k: nat)
    ensures k <= len
    ensures 0 <= end ==> k == if end < len then end else len
    ensures end < 0 ==> k == if len + end < 0 then 0 else len + end
  {
    if end < 0 then (if len + end < 0 then 0 else len + end)
    else if end < len then end
    else len
  }

  /** `xs.slice(0, max)` */
  function Truncate<T>(xs: seq<T>, max: int): (r: seq<T>)
    ensures |r| == SliceEnd(|xs|, max)
    ensures r == xs[..|r|]
  {
    xs[..SliceEnd(|xs|, max)]
  }

  /** The ids of the normalised pantry, as a set. */
  function PantrySet(normalized: seq<PantryIngredient>): set<string> {
    set k | 0 <= k < |normalized| :: normalized[k].ingredientId
  }

  /** `suggestRecipes`, as a function of the pantry, the alias table, the
      candidate recipes and `options.maxResults`. */
  function Suggestions(pantryItems: seq<PantryItemInput>, store: seq<AliasRecord>,
                       candidates: seq<CandidateRecipe>, maxResults: Option<int>): seq<SuggestedRecipe>
  {
    var normalized := NormalizedPantry(pantryItems, store);
    if |normalized| == 0 || |candidates| == 0 then []
    else Truncate(SortByScore(ScoredList(PantrySet(normalized), candidates)), maxResults.GetOr(5))
  }

  /** `suggestRecipes`. */
  method SuggestRecipes(pantryItems: seq<PantryItemInput>, store: seq<AliasRecord>,
                        candidates: seq<CandidateRecipe>, maxResults: Option<int>)
    returns (result: seq<SuggestedRecipe>)
    ensures result == Suggestions(pantryItems, store, candidates, maxResults)
  {
    var normalized := NormalizePantryItems(pantryItems, store);
    if |normalized| == 0 {
      return [];
    }
    if |candidates| == 0 {
      return [];
    }
    var pantrySet := PantrySet(normalized);
    var max := maxResults.GetOr(5);
    var scored := ScoreCandidates(pantrySet, candidates);
    scored := SortByScore(scored);
    result := Truncate(scored, max);
  }

  /** Every eligible candidate's suggestion is in the `scored` list. */
  lemma {:induction false} ScoredListComplete(pantry: set<string>, recipes: seq<CandidateRecipe>)
    ensures forall c :: c in recipes && ScoreRecipe(pantry, c).Some? ==>
              ScoreRecipe(pantry, c).value in ScoredList(pantry, recipes)
  {
    if recipes != [] {
      var init := recipes[..|recipes| - 1];
      ScoredListComplete(pantry, init);
      assert recipes == init + [recipes[|recipes| - 1]];
    }
  }

  /** The ranked list before truncation. */
  function Ranked(pantryItems: seq<PantryItemInput>, store: seq<AliasRecord>,
                  candidates: seq<CandidateRecipe>): seq<SuggestedRecipe>
  {
    SortByScore(ScoredList(PantrySet(NormalizedPantry(pantryItems, store)), candidates))
  }

  /** No suggestion for an empty normalised pantry or no candidates;
      otherwise the result is the first `maxResults` (default 5) entries of
      the ranked list. */
  lemma SuggestionsShape(pantryItems: seq<PantryItemInput>, store: seq<AliasRecord>,
                         candidates: seq<CandidateRecipe>, maxResults: Option<int>)
    ensures |NormalizedPantry(pantryItems, store)| == 0 || |candidates| == 0 ==>
              Suggestions(pantryItems, store, candidates, maxResults) == []
    ensures |NormalizedPantry(pantryItems, store)| > 0 && |candidates| > 0 ==>
              var r := Suggestions(pantryItems, store, candidates, maxResults);
              var all := Ranked(pantryItems, store, candidates);
              && |r| == SliceEnd(|all|, maxResults.GetOr(5))
              && r == all[..|r|]
  {
  }

  /** Every suggestion comes from a candidate with a required ingredient in
      the pantry, and its score lies in (0, 1]. */
  lemma SuggestionsSound(pantryItems: seq<PantryItemInput>, store: seq<AliasRecord>,
                         candidates: seq<CandidateRecipe>, maxResults: Option<int>)
    ensures forall s :: s in Suggestions(pantryItems, store, candidates, maxResults) ==>
              && 0.0 < s.score <= 1.0
              && exists c :: && c in candidates
                             && ScoreRecipe(PantrySet(NormalizedPantry(pantryItems, store)), c) == Some(s)
                             && HasRequiredInPantry(PantrySet(NormalizedPantry(pantryItems, store)), c)
  {
    var pantry := PantrySet(NormalizedPantry(pantryItems, store));
    var scored := ScoredList(pantry, candidates);
    var r := Suggestions(pantryItems, store, candidates, maxResults);
    ScoredListFrom(pantry, candidates);
    SortByScoreSorted(scored);
    SortByScorePermutation(scored);
    forall s | s in r
      ensures 0.0 < s.score <= 1.0
      ensures exists c :: c in candidates && ScoreRecipe(pantry, c) == Some(s) && HasRequiredInPantry(pantry, c)
    {
      assert s in SortByScore(scored);
      assert s in multiset(scored);
      var c :| c in candidates && ScoreRecipe(pantry, c) == Some(s);
      ScoreRecipeEligible(pantry, c);
      ScoreRecipeScore(pantry, c);
    }
  }

  /** A prefix of a sorted list holds entries scoring at least as high as any
      entry left out. */
  lemma PrefixDominates(all: seq<SuggestedRecipe>, n: nat)
    requires SortedByScore(all) && n <= |all|
    ensures forall x, y :: x in all[..n] && y in all && y !in all[..n] ==> x.score >= y.score
  {
    forall x, y | x in all[..n] && y in all && y !in all[..n]
      ensures x.score >= y.score
    {
      var i :| 0 <= i < n && all[..n][i] == x;
      var j :| 0 <= j < |all| && all[j] == y;
      assert forall k :: 0 <= k < n ==> all[..n][k] == all[k];
      assert n <= j;
    }
  }

  /** Scored, ranked and truncated: sorted, and no eligible recipe that was
      cut off scores higher than a kept one. */
  lemma RankedBest(pantry: set<string>, candidates: seq<CandidateRecipe>, max: int)
    ensures SortedByScore(Truncate(SortByScore(ScoredList(pantry, candidates)), max))
    ensures forall c, s :: && c in candidates && ScoreRecipe(pantry, c).Some?
                           && ScoreRecipe(pantry, c).value !in Truncate(SortByScore(ScoredList(pantry, candidates)), max)
                           && s in Truncate(SortByScore(ScoredList(pantry, candidates)), max)
                           ==> s.score >= ScoreRecipe(pantry, c).value.score
  {
    var scored := ScoredList(pantry, candidates);
    var all := SortByScore(scored);
    var r := Truncate(all, max);
    SortByScoreSorted(scored);
    SortByScorePermutation(scored);
    ScoredListComplete(pantry, candidates);
    PrefixDominates(all, |r|);
    forall c | c in candidates && ScoreRecipe(pantry, c).Some?
      ensures ScoreRecipe(pantry, c).value in all
    {
      assert ScoreRecipe(pantry, c).value in multiset(scored);
    }
  }

  /** The suggestions are in order of non-increasing score, and no eligible
      candidate that was cut off scores higher than any suggestion kept. */
  lemma SuggestionsBest(pantryItems: seq<PantryItemInput>, store: seq<AliasRecord>,
                        candidates: seq<CandidateRecipe>, maxResults: Option<int>)
    ensures SortedByScore(Suggestions(pantryItems, store, candidates, maxResults))
    ensures |NormalizedPantry(pantryItems, store)| > 0 ==>
              var pantry := PantrySet(NormalizedPantry(pantryItems, store));
              var r := Suggestions(pantryItems, store, candidates, maxResults);
              forall c, s :: && c in candidates && ScoreRecipe(pantry, c).Some?
                             && ScoreRecipe(pantry, c).value !in r && s in r
                             ==> s.score >= ScoreRecipe(pantry, c).value.score
  {
    var pantry := PantrySet(NormalizedPantry(pantryItems, store));
    RankedBest(pantry, candidates, maxResults.GetOr(5));
  }

  /** The route handler's call: `maxResults` defaults to 10 there. */
  function SuggestRoute(items: seq<PantryItemInput>, store: seq<AliasRecord>,
                        candidates: seq<CandidateRecipe>, maxResults: Option<int>): seq<SuggestedRecipe>
  {
    Suggestions(items, store, candidates, Some(maxResults.GetOr(10)))
  }

  /** The route returns at most ten suggestions when the request names no
      maximum, and otherwise passes the request's maximum on. */
  lemma SuggestRouteDefault(items: seq<PantryItemInput>, store: seq<AliasRecord>,
                            candidates: seq<CandidateRecipe>, maxResults: Option<int>)
    ensures |SuggestRoute(items, store, candidates, None)| <= 10
    ensures SuggestRoute(items, store, candidates, None) == Suggestions(items, store, candidates, Some(10))
    ensures maxResults.Some? ==>
              SuggestRoute(items, store, candidates, maxResults) == Suggestions(items, store, candidates, maxResults)
  {
  }
}
