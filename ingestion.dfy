/** The recipe-ingestion script, scripts/process-raw-recipes.ts: a batch of
    unprocessed raw recipes is normalised by the language model, and each
    usable result becomes a recipe, its ingredient links, and any ingredients
    and aliases it names for the first time.

    The database is the class `Store`, one field per table. The ids that
    `randomUUID` hands out are the stream `uuid`, of which `issued` have been
    used. What the language model returns for a raw recipe, or that an error
    is thrown while that raw recipe is processed, is the parameter `respond`. */
module Ingestion {
  import opened Wrappers
  import opened Text
  import opened Seqs
  import opened OllamaClient
  import Normalizer

  // ---------------------------------------------------------------------
  // Slug
  // ---------------------------------------------------------------------

  /** The class `[a-z0-9]`. */
  predicate IsSlugChar(c: char) { IsAsciiLower(c) || IsAsciiDigit(c) }

  /** The class `[^a-z0-9]`. */
  predicate IsSeparator(c: char) { !IsSlugChar(c) }

  predicate IsDash(c: char) { c == '-' }

  const SlugLength: nat := 80
  const IdPrefixLength: nat := 8

  /** The title lower-cased, every run of characters outside `[a-z0-9]`
      replaced by one `-`, and leading and trailing `-` removed. */
  function Stripped(title: string): (r: string)
    ensures r == [] || (r[0] != '-' && r[|r| - 1] != '-')
  {
    Strip(CollapseRuns(ToLower(title), IsSeparator, '-'), IsDash)
  }

  /** `baseSlug`: the stripped title cut to its first 80 characters. */
  function BaseSlug(title: string): (r: string)
    ensures |r| <= SlugLength && |r| <= |Stripped(title)|
    ensures r == Stripped(title)[..|r|]
  {
    Prefix(Stripped(title), SlugLength)
  }

  /** The slug of the created recipe: the base slug, a dash, and the first
      eight characters of the recipe id. */
  function Slug(title: string, recipeId: string): (r: string)
    ensures |r| == |BaseSlug(title)| + 1 + if |recipeId| < IdPrefixLength then |recipeId| else IdPrefixLength
    ensures r[..|BaseSlug(title)| + 1] == BaseSlug(title) + "-"
    ensures StartsWith(recipeId, r[|BaseSlug(title)| + 1..])
  {
    BaseSlug(title) + "-" + Prefix(recipeId, IdPrefixLength)
  }

  /** Only `a-z`, `0-9` and `-`, no two dashes in a row, no leading dash. */
  ghost predicate SlugShaped(s: string) {
    Dashed(s) && (s == [] || s[0] != '-')
  }

  /** Only `[a-z0-9]` and `-`, never two dashes in a row. */
  ghost predicate Dashed(s: string) {
    && (forall i :: 0 <= i < |s| ==> IsSlugChar(s[i]) || s[i] == '-')
    && (forall i :: 0 <= i < |s| - 1 ==> !(s[i] == '-' && s[i + 1] == '-'))
  }

  lemma DashedSlice(s: string, a: int, b: int)
    requires Dashed(s) && 0 <= a <= b <= |s|
    ensures Dashed(s[a..b])
  {
    var t := s[a..b];
    forall i | 0 <= i < |t| - 1
      ensures !(t[i] == '-' && t[i + 1] == '-')
    {
      assert t[i] == s[a + i] && t[i + 1] == s[a + i + 1];
    }
  }

  /** Once the runs are replaced, every character is in `[a-z0-9]` or is a
      lone `-`. */
  lemma DashedAt(s: string, i: int)
    requires 0 <= i < |CollapseRuns(s, IsSeparator, '-')|
    ensures CollapseRuns(s, IsSeparator, '-')[i] == '-' || !IsSeparator(CollapseRuns(s, IsSeparator, '-')[i])
    ensures i + 1 < |CollapseRuns(s, IsSeparator, '-')| ==>
      !(IsSeparator(CollapseRuns(s, IsSeparator, '-')[i]) && IsSeparator(CollapseRuns(s, IsSeparator, '-')[i + 1]))
  {
    CollapseRunsShape(s, IsSeparator, '-');
  }

  /** Replacing the runs leaves a dashed string. */
  lemma CollapsedDashed(s: string)
    ensures Dashed(CollapseRuns(s, IsSeparator, '-'))
  {
    var t := CollapseRuns(s, IsSeparator, '-');
    assert IsSeparator('-');
    forall i | 0 <= i < |t|
      ensures IsSlugChar(t[i]) || t[i] == '-'
      ensures i + 1 < |t| ==> !(t[i] == '-' && t[i + 1] == '-')
    {
      DashedAt(s, i);
    }
  }

  lemma BaseSlugShaped(title: string)
    ensures SlugShaped(BaseSlug(title))
  {
    var t := CollapseRuns(ToLower(title), IsSeparator, '-');
    var d := Stripped(title);
    var a := |t| - |DropWhile(t, IsDash)|;
    CollapsedDashed(ToLower(title));
    DashedSlice(t, a, a + |d|);
    var r := BaseSlug(title);
    DashedSlice(d, 0, |r|);
    assert r == [] || r[0] == d[0];
  }

  /** The letters and digits of the stripped title are those of the
      lower-cased title, in order: only separators are rewritten or removed. */
  lemma StrippedLetters(title: string)
    ensures Outside(Stripped(title), IsSeparator) == Outside(ToLower(title), IsSeparator)
  {
    var t := CollapseRuns(ToLower(title), IsSeparator, '-');
    assert IsSeparator('-');
    CollapseRunsOutside(ToLower(title), IsSeparator, '-');
    OutsideDropWhile(t, IsDash, IsSeparator);
    OutsideDropWhileEnd(DropWhile(t, IsDash), IsDash, IsSeparator);
  }

  /** A trailing dash is left only when the cut to 80 characters falls
      just after a dash. */
  lemma BaseSlugEnd(title: string)
    requires |Stripped(title)| <= SlugLength
    ensures BaseSlug(title) == Stripped(title)
    ensures BaseSlug(title) == [] || BaseSlug(title)[|BaseSlug(title)| - 1] != '-'
  {
  }

  /** The cut to 80 characters can leave a trailing dash, so that the slug
      holds two dashes in a row: 79 letters, a dash and one more letter. */
  lemma SlugDoubleDash(u: string, recipeId: string)
    requires |u| == 79 && All(u, IsAsciiLower)
    ensures BaseSlug(u + "-b") == u + "-"
    ensures Slug(u + "-b", recipeId)[79..81] == "--"
  {
    var title := u + "-b";
    forall i | 0 <= i < |title|
      ensures !IsAsciiUpper(title[i]) && (IsSeparator(title[i]) ==> i == 79 && title[i] == '-')
    {
      if i < 79 {
        assert title[i] == u[i];
      }
    }
    ToLowerKeeps(title);
    CollapseRunsKeepsShape(title, IsSeparator, '-');
    assert CollapseRuns(ToLower(title), IsSeparator, '-') == title;
    assert title[0] == u[0];
    assert LeadingRun(title, IsDash) == 0;
    assert TrailingRun(title, IsDash) == 0;
    assert Stripped(title) == title;
    assert title[..80] == u + "-";
  }

  // ---------------------------------------------------------------------
  // Link loop
  // ---------------------------------------------------------------------

  /** The ingredients the link loop does not skip, in order: those whose key
      is not empty. */
  function Usable(ings: seq<NormalizedIngredient>, key: string -> string): (r: seq<NormalizedIngredient>)
    ensures |r| <= |ings|
    ensures forall k :: 0 <= k < |r| ==> key(r[k].name) != ""
  {
    if ings == [] then []
    else
      var front := Usable(ings[..|ings| - 1], key);
      var last := ings[|ings| - 1];
      if key(last.name) == "" then front else front + [last]
  }

  lemma UsableStep(ings: seq<NormalizedIngredient>, i: int, key: string -> string)
    requires 0 <= i < |ings|
    ensures Usable(ings[..i + 1], key) == Usable(ings[..i], key) + (if key(ings[i].name) == "" then [] else [ings[i]])
  {
    assert ings[..i + 1][..i] == ings[..i];
  }

  /** Nothing is usable exactly when every key is empty. */
  lemma {:induction false} UsableEmpty(ings: seq<NormalizedIngredient>, key: string -> string)
    ensures Usable(ings, key) == [] <==> forall k :: 0 <= k < |ings| ==> key(ings[k].name) == ""
  {
    if ings != [] {
      var front := ings[..|ings| - 1];
      UsableEmpty(front, key);
      assert forall k :: 0 <= k < |front| ==> front[k] == ings[k];
    }
  }

  /** The keys of the usable ingredients. */
  function KeysOf(usable: seq<NormalizedIngredient>, key: string -> string): set<string> {
    set k | 0 <= k < |usable| :: key(usable[k].name)
  }

  lemma KeysOfSnoc(usable: seq<NormalizedIngredient>, ing: NormalizedIngredient, key: string -> string)
    ensures KeysOf(usable + [ing], key) == KeysOf(usable, key) + {key(ing.name)}
  {
    var s := usable + [ing];
    assert key(s[|usable|].name) == key(ing.name);
    forall x | x in KeysOf(usable, key)
      ensures x in KeysOf(s, key)
    {
      var k :| 0 <= k < |usable| && x == key(usable[k].name);
      assert s[k] == usable[k];
    }
  }

  /** One row of `recipeIngredientData` per usable ingredient, linking the
      recipe to the ingredient its key names in `aliases`. */
  function LinksFor(recipeId: string, usable: seq<NormalizedIngredient>, aliases: map<string, string>, key: string -> string): (r: seq<LinkRow>)
    requires KeysOf(usable, key) <= aliases.Keys
    ensures |r| == |usable|
    ensures forall k :: 0 <= k < |r| ==>
      && r[k].recipeId == recipeId && !r[k].optional
      && r[k].ingredientId == aliases[key(usable[k].name)]
      && r[k].amount == usable[k].amount && r[k].unit == usable[k].unit
  {
    seq(|usable|, k requires 0 <= k < |usable| =>
      assert key(usable[k].name) in KeysOf(usable, key);
      LinkRow(recipeId, aliases[key(usable[k].name)], usable[k].amount, usable[k].unit, false))
  }

  /** A row appended for one more usable ingredient. */
  lemma LinksForSnoc(recipeId: string, usable: seq<NormalizedIngredient>, ing: NormalizedIngredient, aliases: map<string, string>, key: string -> string)
    requires KeysOf(usable + [ing], key) <= aliases.Keys
    ensures KeysOf(usable, key) <= aliases.Keys && key(ing.name) in aliases
    ensures LinksFor(recipeId, usable + [ing], aliases, key)
      == LinksFor(recipeId, usable, aliases, key) + [LinkRow(recipeId, aliases[key(ing.name)], ing.amount, ing.unit, false)]
  {
    KeysOfSnoc(usable, ing, key);
    var s := usable + [ing];
    assert forall k :: 0 <= k < |usable| ==> s[k] == usable[k];
  }

  /** Rows already built stay the same while the alias table only grows. */
  lemma LinksForGrown(recipeId: string, usable: seq<NormalizedIngredient>, aliases: map<string, string>, aliases': map<string, string>, key: string -> string)
    requires KeysOf(usable, key) <= aliases.Keys
    requires Extends(aliases, aliases')
    ensures KeysOf(usable, key) <= aliases'.Keys
    ensures LinksFor(recipeId, usable, aliases', key) == LinksFor(recipeId, usable, aliases, key)
  {
    var r := LinksFor(recipeId, usable, aliases, key);
    var r' := LinksFor(recipeId, usable, aliases', key);
    forall k | 0 <= k < |usable|
      ensures r'[k] == r[k]
    {
      assert key(usable[k].name) in KeysOf(usable, key);
    }
  }

  /** Every row links the recipe to an ingredient of the table. */
  lemma LinksForTargets(recipeId: string, usable: seq<NormalizedIngredient>, t: Tables, key: string -> string)
    requires forall a :: a in t.aliases ==> t.aliases[a] in t.ingredients
    requires KeysOf(usable, key) <= t.aliases.Keys
    ensures var rows := LinksFor(recipeId, usable, t.aliases, key);
      forall k :: 0 <= k < |rows| ==> rows[k].recipeId == recipeId && rows[k].ingredientId in t.ingredients
  {
  }

  lemma UnionSnoc(a: set<string>, b: set<string>, c: set<string>, x: string)
    requires a == b + c
    ensures a + {x} == b + (c + {x})
  {
  }

  // ---------------------------------------------------------------------
  // Ingredient and alias tables
  // ---------------------------------------------------------------------

  /** The ingredient table (id to canonical name), the alias table (alias
      name to ingredient id; an alias names exactly one ingredient), and how
      many ids of the `randomUUID` stream are used. */
  datatype Tables = Tables(ingredients: map<string, string>, aliases: map<string, string>, issued: nat)

  /** Every alias names an existing ingredient; the id stream never repeats
      itself and none of its unused ids is an ingredient id yet. */
  ghost predicate TablesValid(t: Tables, uuid: nat -> string) {
    && (forall a :: a in t.aliases ==> t.aliases[a] in t.ingredients)
    && (forall m, n :: m < n ==> uuid(m) != uuid(n))
    && (forall n :: t.issued <= n ==> uuid(n) !in t.ingredients)
  }

  /** `m` keeps every entry of `m0`. */
  ghost predicate Extends(m0: map<string, string>, m: map<string, string>) {
    forall k :: k in m0 ==> k in m && m[k] == m0[k]
  }

  /** How the tables `t` have grown from `t0`: every old row is kept, and each
      new alias names exactly one new ingredient, which has the alias name as
      its canonical name and is named by no other new alias. */
  ghost predicate Grown(t0: Tables, t: Tables) {
    && Extends(t0.ingredients, t.ingredients)
    && Extends(t0.aliases, t.aliases)
    && (forall a :: a in t.aliases && a !in t0.aliases ==>
          t.aliases[a] in t.ingredients && t.aliases[a] !in t0.ingredients && t.ingredients[t.aliases[a]] == a)
    && (forall id :: id in t.ingredients && id !in t0.ingredients ==>
          t.ingredients[id] in t.aliases && t.ingredients[id] !in t0.aliases && t.aliases[t.ingredients[id]] == id)
  }

  /** `getOrCreateIngredientId` on the tables (lines 48-76): the ingredient
      the alias `name` names, or else a new ingredient and a new alias, both
      called `name`, under the next id of the stream. */
  function Lookup(t: Tables, uuid: nat -> string, name: string): (r: (Tables, string))
    ensures name in r.0.aliases && r.0.aliases[name] == r.1
    ensures r.0.aliases.Keys == t.aliases.Keys + {name} && Extends(t.aliases, r.0.aliases)
  {
    if name in t.aliases then (t, t.aliases[name])
    else
      var id := uuid(t.issued);
      (Tables(t.ingredients[id := name], t.aliases[name := id], t.issued + 1), id)
  }

  /** Looking a name up keeps the tables valid and only grows them. */
  lemma LookupValid(t: Tables, uuid: nat -> string, name: string)
    requires TablesValid(t, uuid)
    ensures var t' := Lookup(t, uuid, name).0;
      TablesValid(t', uuid) && t.issued <= t'.issued && Grown(t, t')
  {
    var (t', id) := Lookup(t, uuid, name);
    if name !in t.aliases {
      assert id == uuid(t.issued);
      forall n | t'.issued <= n
        ensures uuid(n) !in t'.ingredients
      {
        assert uuid(n) != id;
      }
    }
  }

  /** An existing alias gives its ingredient and changes nothing; otherwise
      exactly one ingredient and one alias are added, under an id no
      ingredient had. */
  lemma LookupCases(t: Tables, uuid: nat -> string, name: string)
    requires TablesValid(t, uuid)
    ensures var (t', id) := Lookup(t, uuid, name);
      && (name in t.aliases ==> t' == t && id == t.aliases[name])
      && (name !in t.aliases ==>
            && id == uuid(t.issued) && id !in t.ingredients && t'.ingredients[id] == name
            && |t'.ingredients| == |t.ingredients| + 1 && |t'.aliases| == |t.aliases| + 1)
  {
    var (t', id) := Lookup(t, uuid, name);
    if name !in t.aliases {
      assert id == uuid(t.issued);
      assert id !in t.ingredients;
    }
  }

  /** Asking again for the same name gives the same id and changes nothing. */
  lemma LookupRepeat(t: Tables, uuid: nat -> string, name: string)
    ensures var (t', id) := Lookup(t, uuid, name);
      Lookup(t', uuid, name) == (t', id)
  {
  }

  /** The link loop (lines 97-112) on the tables: one row per ingredient
      whose key is not empty, with the id `Lookup` gives for that key. */
  function LinkLoop(t: Tables, uuid: nat -> string, recipeId: string, ings: seq<NormalizedIngredient>, key: string -> string): (r: (Tables, seq<LinkRow>))
    ensures |r.1| <= |ings|
  {
    if ings == [] then (t, [])
    else
      var (t1, rows) := LinkLoop(t, uuid, recipeId, ings[..|ings| - 1], key);
      var ing := ings[|ings| - 1];
      var name := key(ing.name);
      if name == "" then (t1, rows)
      else
        var (t2, id) := Lookup(t1, uuid, name);
        (t2, rows + [LinkRow(recipeId, id, ing.amount, ing.unit, false)])
  }

  lemma LinkLoopStep(t: Tables, uuid: nat -> string, recipeId: string, ings: seq<NormalizedIngredient>, i: int, key: string -> string)
    requires 0 <= i < |ings|
    ensures var (t1, rows) := LinkLoop(t, uuid, recipeId, ings[..i], key);
      var name := key(ings[i].name);
      LinkLoop(t, uuid, recipeId, ings[..i + 1], key) ==
        if name == "" then (t1, rows)
        else
          var (t2, id) := Lookup(t1, uuid, name);
          (t2, rows + [LinkRow(recipeId, id, ings[i].amount, ings[i].unit, false)])
  {
    assert ings[..i + 1][..i] == ings[..i];
  }

  /** The link loop keeps the tables valid and only grows them. */
  lemma {:induction false} LinkLoopGrown(t: Tables, uuid: nat -> string, recipeId: string, ings: seq<NormalizedIngredient>, key: string -> string)
    requires TablesValid(t, uuid)
    ensures var t' := LinkLoop(t, uuid, recipeId, ings, key).0;
      TablesValid(t', uuid) && t.issued <= t'.issued && Grown(t, t')
  {
    if ings != [] {
      var front := ings[..|ings| - 1];
      var ing := ings[|ings| - 1];
      LinkLoopGrown(t, uuid, recipeId, front, key);
      var t1 := LinkLoop(t, uuid, recipeId, front, key).0;
      var name := key(ing.name);
      if name != "" {
        LookupValid(t1, uuid, name);
        GrownTrans(t, t1, Lookup(t1, uuid, name).0);
      }
    }
  }

  /** The alias table grows by the keys of the usable ingredients, and the
      rows link the recipe, in order, to the ingredients those keys name at
      the end. */
  lemma {:induction false} LinkLoopRows(t: Tables, uuid: nat -> string, recipeId: string, ings: seq<NormalizedIngredient>, key: string -> string)
    ensures var (t', rows) := LinkLoop(t, uuid, recipeId, ings, key);
      && t'.aliases.Keys == t.aliases.Keys + KeysOf(Usable(ings, key), key)
      && Extends(t.aliases, t'.aliases)
      && rows == LinksFor(recipeId, Usable(ings, key), t'.aliases, key)
  {
    if ings == [] {
      assert KeysOf([], key) == {};
    } else {
      var front := ings[..|ings| - 1];
      var ing := ings[|ings| - 1];
      LinkLoopRows(t, uuid, recipeId, front, key);
      var t1 := LinkLoop(t, uuid, recipeId, front, key).0;
      var usable := Usable(front, key);
      var name := key(ing.name);
      if name != "" {
        var t2 := Lookup(t1, uuid, name).0;
        assert Usable(ings, key) == usable + [ing];
        KeysOfSnoc(usable, ing, key);
        UnionSnoc(t1.aliases.Keys, t.aliases.Keys, KeysOf(usable, key), name);
        LinksForGrown(recipeId, usable, t1.aliases, t2.aliases, key);
        LinksForSnoc(recipeId, usable, ing, t2.aliases, key);
      } else {
        assert Usable(ings, key) == usable;
      }
    }
  }

  /** With no usable ingredient the loop builds no row and changes nothing. */
  lemma {:induction false} LinkLoopNone(t: Tables, uuid: nat -> string, recipeId: string, ings: seq<NormalizedIngredient>, key: string -> string)
    requires Usable(ings, key) == []
    ensures LinkLoop(t, uuid, recipeId, ings, key) == (t, [])
  {
    if ings != [] {
      var front := ings[..|ings| - 1];
      UsableStep(ings, |ings| - 1, key);
      assert ings[..|ings| - 1] == front;
      LinkLoopNone(t, uuid, recipeId, front, key);
    }
  }

  lemma GrownTrans(t0: Tables, t1: Tables, t2: Tables)
    requires Grown(t0, t1) && Grown(t1, t2)
    ensures Grown(t0, t2)
  {
  }

  // ---------------------------------------------------------------------
  // Outcome of one raw recipe
  // ---------------------------------------------------------------------

  datatype RawRecipe = RawRecipe(id: string, rawJson: string)

  datatype RecipeRow = RecipeRow(
    slug: string,
    title: string,
    description: Option<string>,
    timeMinutes: Option<real>,
    difficulty: Option<string>,
    isActive: bool)

  datatype LinkRow = LinkRow(
    recipeId: string,
    ingredientId: string,
    amount: Option<real>,
    unit: Option<string>,
    optional: bool)

  /** What processing one raw recipe meets: an error thrown on the way (by
      the language model call or by a write), or the normalised recipe the
      model call returns, `None` standing for `null`. */
  datatype Response = Threw | Returned(normalized: Option<NormalizedRecipe>)

  /** `Failed`: left unprocessed. `Rejected`: the normalised recipe is
      unusable. `NoLinks`: no ingredient has a key. `Created`: a recipe is
      created. */
  datatype Outcome = Failed | Rejected | NoLinks | Created

  /** The checks at lines 25-30: `null`, an empty title, or an empty
      ingredient list. */
  predicate IsUsableRecipe(n: Option<NormalizedRecipe>) {
    n.Some? && n.value.title != "" && n.value.ingredients != []
  }

  function OutcomeOf(response: Response, key: string -> string): Outcome {
    match response
    case Threw => Failed
    case Returned(n) =>
      if !IsUsableRecipe(n) then Rejected
      else if Usable(n.value.ingredients, key) == [] then NoLinks
      else Created
  }

  /** Whether `processed` is incremented for the raw recipe: the model
      returned a usable recipe, whether or not any link comes of it. */
  predicate Counted(response: Response) {
    response.Returned? && IsUsableRecipe(response.normalized)
  }

  /** A recipe is created exactly when the model returns a titled recipe with
      at least one ingredient whose key is not empty; one with ingredients
      whose keys are all empty is counted without one. */
  lemma OutcomeCases(response: Response, key: string -> string)
    ensures OutcomeOf(response, key) == Failed <==> response.Threw?
    ensures OutcomeOf(response, key) == Created <==>
      && response.Returned? && IsUsableRecipe(response.normalized)
      && exists k :: 0 <= k < |response.normalized.value.ingredients|
           && key(response.normalized.value.ingredients[k].name) != ""
    ensures OutcomeOf(response, key) == NoLinks <==>
      && response.Returned? && IsUsableRecipe(response.normalized)
      && forall k :: 0 <= k < |response.normalized.value.ingredients|
           ==> key(response.normalized.value.ingredients[k].name) == ""
    ensures Counted(response) <==> OutcomeOf(response, key) == NoLinks || OutcomeOf(response, key) == Created
  {
    if response.Returned? && response.normalized.Some? {
      UsableEmpty(response.normalized.value.ingredients, key);
    }
  }

  /** The row `tx.recipe.create` writes. */
  function RecipeRowOf(n: NormalizedRecipe, recipeId: string): RecipeRow {
    RecipeRow(Slug(n.title, recipeId), n.title, n.description, n.timeMinutes, CoerceDifficulty(n.difficulty), true)
  }

  // ---------------------------------------------------------------------
  // Batch
  // ---------------------------------------------------------------------

  /** The raw recipes not yet processed, in table order. */
  function Unprocessed(raws: seq<RawRecipe>, processed: set<string>): (r: seq<RawRecipe>)
    ensures |r| <= |raws|
    ensures forall k :: 0 <= k < |r| ==> r[k] in raws && r[k].id !in processed
  {
    if raws == [] then []
    else
      var front := Unprocessed(raws[..|raws| - 1], processed);
      var last := raws[|raws| - 1];
      if last.id in processed then front else front + [last]
  }

  /** Every raw recipe not yet processed is pending. */
  lemma {:induction false} UnprocessedComplete(raws: seq<RawRecipe>, processed: set<string>, x: RawRecipe)
    requires x in raws && x.id !in processed
    ensures x in Unprocessed(raws, processed)
  {
    var front := raws[..|raws| - 1];
    if x != raws[|raws| - 1] {
      assert raws == front + [raws[|raws| - 1]];
      UnprocessedComplete(front, processed, x);
    }
  }

  /** `findMany({ where: { processed: false }, take: limit })`. */
  function Batch(raws: seq<RawRecipe>, processed: set<string>, limit: nat): (r: seq<RawRecipe>)
    ensures |r| == if limit < |Unprocessed(raws, processed)| then limit else |Unprocessed(raws, processed)|
    ensures r == Unprocessed(raws, processed)[..|r|]
  {
    var pending := Unprocessed(raws, processed);
    if limit < |pending| then pending[..limit] else pending
  }

  /** The value `processBatch` returns for a batch. */
  function CountOf(batch: seq<RawRecipe>, respond: RawRecipe -> Response): (n: nat)
    ensures n <= |batch|
  {
    if batch == [] then 0
    else
      var last := batch[|batch| - 1];
      CountOf(batch[..|batch| - 1], respond) + if Counted(respond(last)) then 1 else 0
  }

  /** The ids of the raw recipes of a batch that end up marked processed. */
  function MarkedOf(batch: seq<RawRecipe>, respond: RawRecipe -> Response): set<string> {
    if batch == [] then {}
    else
      var last := batch[|batch| - 1];
      MarkedOf(batch[..|batch| - 1], respond) + if respond(last).Threw? then {} else {last.id}
  }

  /** A raw recipe of the batch is marked processed exactly when no error is
      thrown while it is processed. */
  lemma {:induction false} MarkedOfMembers(batch: seq<RawRecipe>, respond: RawRecipe -> Response, id: string)
    ensures id in MarkedOf(batch, respond) <==>
      exists k :: 0 <= k < |batch| && batch[k].id == id && !respond(batch[k]).Threw?
  {
    if batch != [] {
      var front := batch[..|batch| - 1];
      MarkedOfMembers(front, respond, id);
      assert forall k :: 0 <= k < |front| ==> front[k] == batch[k];
    }
  }

  /** The count is the number of raw recipes whose response is a usable
      normalised recipe: all of the batch exactly when all are, none exactly
      when none is. */
  lemma {:induction false} CountOfExtremes(batch: seq<RawRecipe>, respond: RawRecipe -> Response)
    ensures CountOf(batch, respond) == 0 <==>
      forall k :: 0 <= k < |batch| ==> !Counted(respond(batch[k]))
    ensures CountOf(batch, respond) == |batch| <==>
      forall k :: 0 <= k < |batch| ==> Counted(respond(batch[k]))
  {
    if batch != [] {
      var front := batch[..|batch| - 1];
      CountOfExtremes(front, respond);
      assert forall k :: 0 <= k < |front| ==> front[k] == batch[k];
    }
  }

  // ---------------------------------------------------------------------
  // Processing on database values
  // ---------------------------------------------------------------------

  /** The tables the script writes: processed raw recipes, ingredients and
      aliases, recipes (id to row) and recipe-ingredient links. */
  datatype Db = Db(processed: set<string>, tables: Tables, recipes: map<string, RecipeRow>, links: seq<LinkRow>)

  /** The tables are valid, no unused id names a recipe, and every link
      joins an existing recipe to an existing ingredient. */
  ghost predicate DbValid(db: Db, uuid: nat -> string) {
    && TablesValid(db.tables, uuid)
    && (forall n :: db.tables.issued <= n ==> uuid(n) !in db.recipes)
    && (forall k :: 0 <= k < |db.links| ==>
          db.links[k].recipeId in db.recipes && db.links[k].ingredientId in db.tables.ingredients)
  }

  /** The transaction of lines 41-151 for a usable normalised recipe: the
      next id of the stream for the recipe, the link loop, then either the
      recipe with its links or nothing; the raw recipe is marked processed
      either way. */
  function Transaction(db: Db, uuid: nat -> string, key: string -> string, rowOf: (NormalizedRecipe, string) -> RecipeRow, raw: RawRecipe, n: NormalizedRecipe): (Db, bool) {
    var recipeId := uuid(db.tables.issued);
    var (t, rows) := LinkLoop(db.tables.(issued := db.tables.issued + 1), uuid, recipeId, n.ingredients, key);
    if rows == [] then (db.(processed := db.processed + {raw.id}, tables := t), false)
    else (Db(db.processed + {raw.id}, t, db.recipes[recipeId := rowOf(n, recipeId)], db.links + rows), true)
  }

  /** One iteration of the `processBatch` loop (lines 22-158) and whether it
      increments the count: a thrown error changes nothing, an unusable
      recipe is only marked processed. */
  function Step(db: Db, uuid: nat -> string, key: string -> string, rowOf: (NormalizedRecipe, string) -> RecipeRow, raw: RawRecipe, response: Response): (Db, bool) {
    match response
    case Threw => (db, false)
    case Returned(n) =>
      if !IsUsableRecipe(n) then (db.(processed := db.processed + {raw.id}), false)
      else (Transaction(db, uuid, key, rowOf, raw, n.value).0, true)
  }

  /** Grown tables keep the database valid. */
  lemma TablesGrownValid(db: Db, t: Tables, uuid: nat -> string)
    requires DbValid(db, uuid) && TablesValid(t, uuid)
    requires db.tables.issued <= t.issued && Extends(db.tables.ingredients, t.ingredients)
    ensures DbValid(db.(tables := t), uuid)
  {
  }

  /** A step keeps the database valid. */
  lemma StepValid(db: Db, uuid: nat -> string, key: string -> string, rowOf: (NormalizedRecipe, string) -> RecipeRow, raw: RawRecipe, response: Response)
    requires DbValid(db, uuid)
    ensures var db' := Step(db, uuid, key, rowOf, raw, response).0;
      DbValid(db', uuid) && db.tables.issued <= db'.tables.issued
  {
    if response.Returned? && IsUsableRecipe(response.normalized) {
      TransactionValid(db, uuid, key, rowOf, raw, response.normalized.value);
    }
  }

  /** The transaction once the link loop has given tables `t` and rows `rows`. */
  lemma TransactionOf(db: Db, uuid: nat -> string, key: string -> string, rowOf: (NormalizedRecipe, string) -> RecipeRow, raw: RawRecipe, n: NormalizedRecipe,
                      t: Tables, rows: seq<LinkRow>)
    requires (t, rows) == LinkLoop(db.tables.(issued := db.tables.issued + 1), uuid, uuid(db.tables.issued), n.ingredients, key)
    ensures rows == [] ==> Transaction(db, uuid, key, rowOf, raw, n) == (db.(processed := db.processed + {raw.id}, tables := t), false)
    ensures rows != [] ==>
      var recipeId := uuid(db.tables.issued);
      Transaction(db, uuid, key, rowOf, raw, n) ==
        (Db(db.processed + {raw.id}, t, db.recipes[recipeId := rowOf(n, recipeId)], db.links + rows), true)
  {
  }

  /** The transaction keeps the database valid. */
  lemma TransactionValid(db: Db, uuid: nat -> string, key: string -> string, rowOf: (NormalizedRecipe, string) -> RecipeRow, raw: RawRecipe, n: NormalizedRecipe)
    requires DbValid(db, uuid)
    ensures var db' := Transaction(db, uuid, key, rowOf, raw, n).0;
      DbValid(db', uuid) && db.tables.issued <= db'.tables.issued
  {
    var recipeId := uuid(db.tables.issued);
    var t0 := db.tables.(issued := db.tables.issued + 1);
    var (t, rows) := LinkLoop(t0, uuid, recipeId, n.ingredients, key);
    LinkLoopGrown(t0, uuid, recipeId, n.ingredients, key);
    if rows == [] {
      assert Transaction(db, uuid, key, rowOf, raw, n).0 == db.(processed := db.processed + {raw.id}, tables := t);
      TablesGrownValid(db.(processed := db.processed + {raw.id}), t, uuid);
    } else {
      var created := Db(db.processed + {raw.id}, t, db.recipes[recipeId := rowOf(n, recipeId)], db.links + rows);
      assert Transaction(db, uuid, key, rowOf, raw, n).0 == created;
      LinkLoopRows(t0, uuid, recipeId, n.ingredients, key);
      LinksForTargets(recipeId, Usable(n.ingredients, key), t, key);
      CreatedValid(db, uuid, recipeId, t, rows, rowOf(n, recipeId), raw.id);
    }
  }

  /** Adding a recipe under the next id, with links to ingredients of the
      grown tables, keeps the database valid. */
  lemma CreatedValid(db: Db, uuid: nat -> string, recipeId: string, t: Tables, rows: seq<LinkRow>, row: RecipeRow, rawId: string)
    requires DbValid(db, uuid) && recipeId == uuid(db.tables.issued)
    requires TablesValid(t, uuid) && db.tables.issued < t.issued
    requires Extends(db.tables.ingredients, t.ingredients)
    requires forall k :: 0 <= k < |rows| ==> rows[k].recipeId == recipeId && rows[k].ingredientId in t.ingredients
    ensures DbValid(Db(db.processed + {rawId}, t, db.recipes[recipeId := row], db.links + rows), uuid)
  {
    var links := db.links + rows;
    forall m | t.issued <= m
      ensures uuid(m) !in db.recipes[recipeId := row]
    {
      assert db.tables.issued < m;
    }
    forall k | 0 <= k < |links|
      ensures links[k].recipeId in db.recipes[recipeId := row] && links[k].ingredientId in t.ingredients
    {
      if k < |db.links| {
        assert links[k] == db.links[k];
      } else {
        assert links[k] == rows[k - |db.links|];
      }
    }
  }

  /** What one raw recipe does to the database: the count moves exactly for
      a usable normalised recipe, the raw recipe is marked processed unless
      an error is thrown, and a recipe row, under a new id, and at least one
      link are added exactly when `OutcomeOf` says a recipe is created. */
  lemma StepOutcome(db: Db, uuid: nat -> string, key: string -> string, rowOf: (NormalizedRecipe, string) -> RecipeRow, raw: RawRecipe, response: Response)
    requires DbValid(db, uuid)
    ensures var (db', counted) := Step(db, uuid, key, rowOf, raw, response);
      && (counted <==> Counted(response))
      && db'.processed == (if response.Threw? then db.processed else db.processed + {raw.id})
      && (OutcomeOf(response, key) != Created ==>
            && db'.recipes == db.recipes && db'.links == db.links
            && db'.tables.ingredients == db.tables.ingredients && db'.tables.aliases == db.tables.aliases)
      && (OutcomeOf(response, key) == Created ==>
            var recipeId := uuid(db.tables.issued);
            && recipeId !in db.recipes
            && db'.recipes == db.recipes[recipeId := rowOf(response.normalized.value, recipeId)]
            && |db'.recipes| == |db.recipes| + 1
            && |db.links| < |db'.links| && db'.links[..|db.links|] == db.links)
  {
    if response.Returned? && IsUsableRecipe(response.normalized) {
      var n := response.normalized.value;
      var recipeId := uuid(db.tables.issued);
      var t0 := db.tables.(issued := db.tables.issued + 1);
      LinkLoopRows(t0, uuid, recipeId, n.ingredients, key);
      if Usable(n.ingredients, key) == [] {
        LinkLoopNone(t0, uuid, recipeId, n.ingredients, key);
      } else {
        assert recipeId !in db.recipes;
        var rows := LinkLoop(t0, uuid, recipeId, n.ingredients, key).1;
        assert (db.links + rows)[..|db.links|] == db.links;
      }
    }
  }

  /** A step adds at most one recipe, and only when it is counted. */
  lemma StepCounts(db: Db, uuid: nat -> string, key: string -> string, rowOf: (NormalizedRecipe, string) -> RecipeRow, raw: RawRecipe, response: Response)
    ensures var (db', counted) := Step(db, uuid, key, rowOf, raw, response);
      && (counted <==> Counted(response))
      && db'.processed == (if response.Threw? then db.processed else db.processed + {raw.id})
      && |db'.recipes| <= |db.recipes| + (if counted then 1 else 0)
  {
  }

  /** `processBatch` over a batch: every raw recipe of it in turn, and the
      count. */
  function RunBatch(db: Db, uuid: nat -> string, key: string -> string, rowOf: (NormalizedRecipe, string) -> RecipeRow, batch: seq<RawRecipe>, respond: RawRecipe -> Response): (Db, nat) {
    if batch == [] then (db, 0)
    else
      var (db1, count) := RunBatch(db, uuid, key, rowOf, batch[..|batch| - 1], respond);
      var last := batch[|batch| - 1];
      var (db2, counted) := Step(db1, uuid, key, rowOf, last, respond(last));
      (db2, if counted then count + 1 else count)
  }

  lemma RunBatchStep(db: Db, uuid: nat -> string, key: string -> string, rowOf: (NormalizedRecipe, string) -> RecipeRow, batch: seq<RawRecipe>, respond: RawRecipe -> Response, i: int)
    requires 0 <= i < |batch|
    ensures var (db1, count) := RunBatch(db, uuid, key, rowOf, batch[..i], respond);
      var (db2, counted) := Step(db1, uuid, key, rowOf, batch[i], respond(batch[i]));
      RunBatch(db, uuid, key, rowOf, batch[..i + 1], respond) == (db2, if counted then count + 1 else count)
  {
    assert batch[..i + 1][..i] == batch[..i];
  }

  /** A batch keeps the database valid. */
  lemma {:induction false} RunBatchValid(db: Db, uuid: nat -> string, key: string -> string, rowOf: (NormalizedRecipe, string) -> RecipeRow, batch: seq<RawRecipe>, respond: RawRecipe -> Response)
    requires DbValid(db, uuid)
    ensures DbValid(RunBatch(db, uuid, key, rowOf, batch, respond).0, uuid)
  {
    if batch != [] {
      var front := batch[..|batch| - 1];
      var last := batch[|batch| - 1];
      RunBatchValid(db, uuid, key, rowOf, front, respond);
      StepValid(RunBatch(db, uuid, key, rowOf, front, respond).0, uuid, key, rowOf, last, respond(last));
    }
  }

  /** A batch returns the number of raw recipes whose response is a usable
      recipe. */
  lemma {:induction false} RunBatchCount(db: Db, uuid: nat -> string, key: string -> string, rowOf: (NormalizedRecipe, string) -> RecipeRow, batch: seq<RawRecipe>, respond: RawRecipe -> Response)
    ensures RunBatch(db, uuid, key, rowOf, batch, respond).1 == CountOf(batch, respond)
  {
    if batch != [] {
      var front := batch[..|batch| - 1];
      var last := batch[|batch| - 1];
      RunBatchCount(db, uuid, key, rowOf, front, respond);
      StepCounts(RunBatch(db, uuid, key, rowOf, front, respond).0, uuid, key, rowOf, last, respond(last));
    }
  }

  /** A batch marks processed exactly the raw recipes not met by an error. */
  lemma {:induction false} RunBatchMarks(db: Db, uuid: nat -> string, key: string -> string, rowOf: (NormalizedRecipe, string) -> RecipeRow, batch: seq<RawRecipe>, respond: RawRecipe -> Response)
    ensures RunBatch(db, uuid, key, rowOf, batch, respond).0.processed == db.processed + MarkedOf(batch, respond)
  {
    if batch != [] {
      var front := batch[..|batch| - 1];
      var last := batch[|batch| - 1];
      RunBatchMarks(db, uuid, key, rowOf, front, respond);
      StepCounts(RunBatch(db, uuid, key, rowOf, front, respond).0, uuid, key, rowOf, last, respond(last));
    }
  }

  /** A batch creates at most one recipe per raw recipe it counts. */
  lemma {:induction false} RunBatchRecipes(db: Db, uuid: nat -> string, key: string -> string, rowOf: (NormalizedRecipe, string) -> RecipeRow, batch: seq<RawRecipe>, respond: RawRecipe -> Response)
    ensures var (db', count) := RunBatch(db, uuid, key, rowOf, batch, respond);
      |db'.recipes| <= |db.recipes| + count
  {
    if batch != [] {
      var front := batch[..|batch| - 1];
      var last := batch[|batch| - 1];
      RunBatchRecipes(db, uuid, key, rowOf, front, respond);
      StepCounts(RunBatch(db, uuid, key, rowOf, front, respond).0, uuid, key, rowOf, last, respond(last));
    }
  }

  // ---------------------------------------------------------------------
  // The database
  // ---------------------------------------------------------------------

  class Store {
    var rawRecipes: seq<RawRecipe>
    /** Ids of the raw recipes marked processed. */
    var processed: set<string>
    /** Ingredient id to canonical name. */
    var ingredients: map<string, string>
    /** Alias name to ingredient id; an alias names exactly one ingredient. */
    var aliases: map<string, string>
    /** Recipe id to recipe. */
    var recipes: map<string, RecipeRow>
    var links: seq<LinkRow>
    /** The ids `randomUUID` returns, in order, and how many are used. */
    const uuid: nat -> string
    /** The key names are looked up by: `normalizeIngredientKey`. */
    const key: string -> string
    /** The recipe row written for a normalised recipe: `RecipeRowOf`. */
    const rowOf: (NormalizedRecipe, string) -> RecipeRow
    var issued: nat

    /** The ingredient and alias tables with the position in the id stream. */
    ghost function TablesOf(): Tables
      reads this`ingredients, this`aliases, this`issued
    {
      Tables(ingredients, aliases, issued)
    }

    /** The database this store holds. */
    ghost function DbOf(): Db
      reads this`processed, this`ingredients, this`aliases, this`issued, this`recipes, this`links
    {
      Db(processed, TablesOf(), recipes, links)
    }

    ghost predicate Valid()
      reads this`processed, this`ingredients, this`aliases, this`issued, this`recipes, this`links
    {
      DbValid(DbOf(), uuid)
    }

    constructor (rawRecipes: seq<RawRecipe>, processed: set<string>, ingredients: map<string, string>,
                 aliases: map<string, string>, recipes: map<string, RecipeRow>, links: seq<LinkRow>,
                 uuid: nat -> string)
      requires forall a :: a in aliases ==> aliases[a] in ingredients
      requires forall k :: 0 <= k < |links| ==> links[k].recipeId in recipes && links[k].ingredientId in ingredients
      requires forall m, n :: m < n ==> uuid(m) != uuid(n)
      requires forall n :: uuid(n) !in ingredients && uuid(n) !in recipes
      ensures Valid()
      ensures this.rawRecipes == rawRecipes && this.processed == processed
      ensures this.ingredients == ingredients && this.aliases == aliases
      ensures this.recipes == recipes && this.links == links
      ensures this.uuid == uuid && issued == 0
      ensures key == Normalizer.IngredientKey && rowOf == RecipeRowOf
    {
      this.rawRecipes := rawRecipes;
      this.processed := processed;
      this.ingredients := ingredients;
      this.aliases := aliases;
      this.recipes := recipes;
      this.links := links;
      this.uuid := uuid;
      key := Normalizer.IngredientKey;
      rowOf := RecipeRowOf;
      issued := 0;
    }

    /** Every cached name maps to what the alias table says. */
    ghost predicate Caches(cache: map<string, string>)
      reads this`aliases
    {
      forall n :: n in cache ==> n in aliases && aliases[n] == cache[n]
    }

    /** `randomUUID()`: the next id of the stream, used by no ingredient and
        no recipe. */
    method NewId() returns (id: string)
      requires Valid()
      modifies this`issued
      ensures Valid()
      ensures id == uuid(old(issued)) && issued == old(issued) + 1
      ensures id !in ingredients && id !in recipes
    {
      id := uuid(issued);
      issued := issued + 1;
    }

    /** `getOrCreateIngredientId` (lines 44-77): the cache first, then the
        alias table; otherwise a new ingredient named `name` and an alias
        `name` for it. The cache never changes the answer `Lookup` gives. */
    method GetOrCreateIngredientId(name: string, cache: map<string, string>) returns (id: string, cache': map<string, string>)
      requires Valid() && Caches(cache)
      modifies this`ingredients, this`aliases, this`issued
      ensures Valid() && Caches(cache')
      ensures (TablesOf(), id) == Lookup(old(TablesOf()), uuid, name)
      ensures cache' == cache[name := id]
    {
      if name in cache && cache[name] != "" {
        id := cache[name];
        cache' := cache;
        assert cache' == cache[name := id];
        return;
      }
      if name in aliases {
        id := aliases[name];
        cache' := cache[name := id];
        return;
      }
      id := CreateIngredient(name);
      cache' := cache[name := id];
    }

    /** The creating branch of `getOrCreateIngredientId` (lines 58-76): a
        new ingredient under the next id and an alias `name` for it. */
    method CreateIngredient(name: string) returns (id: string)
      requires Valid() && name !in aliases
      modifies this`ingredients, this`aliases, this`issued
      ensures Valid()
      ensures (TablesOf(), id) == Lookup(old(TablesOf()), uuid, name)
    {
      ghost var db0 := DbOf();
      ghost var t := Lookup(TablesOf(), uuid, name).0;
      LookupValid(TablesOf(), uuid, name);
      TablesGrownValid(db0, t, uuid);
      id := NewId();
      ingredients := ingredients[id := name];
      aliases := aliases[name := id];
      assert TablesOf() == t;
      assert DbOf() == db0.(tables := t);
    }

    /** The ingredient cache (line 42) and the link loop (lines 97-112),
        which build the rows `LinkLoop` specifies: none exactly when no
        ingredient has a key, each to an ingredient of the table. */
    method BuildLinks(recipeId: string, ings: seq<NormalizedIngredient>) returns (rows: seq<LinkRow>)
      requires Valid()
      modifies this`ingredients, this`aliases, this`issued
      ensures Valid() && old(issued) <= issued
      ensures (TablesOf(), rows) == LinkLoop(old(TablesOf()), uuid, recipeId, ings, key)
      ensures rows == [] <==> Usable(ings, key) == []
      ensures rows == [] ==> ingredients == old(ingredients) && aliases == old(aliases)
      ensures forall k :: 0 <= k < |rows| ==> rows[k].recipeId == recipeId && rows[k].ingredientId in ingredients
    {
      var cache: map<string, string> := map[];
      rows := [];
      for i := 0 to |ings|
        invariant Valid() && Caches(cache)
        invariant (TablesOf(), rows) == LinkLoop(old(TablesOf()), uuid, recipeId, ings[..i], key)
      {
        LinkLoopStep(old(TablesOf()), uuid, recipeId, ings, i, key);
        var ing := ings[i];
        var name := key(ing.name);
        if name == "" {
          continue;
        }
        var id;
        id, cache := GetOrCreateIngredientId(name, cache);
        rows := rows + [LinkRow(recipeId, id, ing.amount, ing.unit, false)];
      }
      assert ings[..|ings|] == ings;
      LinkLoopGrown(old(TablesOf()), uuid, recipeId, ings, key);
      LinkLoopRows(old(TablesOf()), uuid, recipeId, ings, key);
      LinksForTargets(recipeId, Usable(ings, key), TablesOf(), key);
      if rows == [] {
        LinkLoopNone(old(TablesOf()), uuid, recipeId, ings, key);
      }
    }

    /** `tx.recipe.create` and `tx.recipeIngredient.createMany` (lines
        131-145): the recipe row under an id of the stream already used, and
        its links, each to an existing ingredient. */
    method CreateRecipe(recipeId: string, row: RecipeRow, rows: seq<LinkRow>, ghost drawn: nat)
      requires Valid()
      requires recipeId !in recipes && drawn < issued && recipeId == uuid(drawn)
      requires forall k :: 0 <= k < |rows| ==> rows[k].recipeId == recipeId && rows[k].ingredientId in ingredients
      modifies this`recipes, this`links
      ensures Valid()
      ensures recipes == old(recipes)[recipeId := row] && links == old(links) + rows
      ensures |recipes| == |old(recipes)| + 1
    {
      recipes := recipes[recipeId := row];
      links := links + rows;
    }

    /** The transaction of lines 41-151, as `Transaction` specifies it. */
    method Transact(raw: RawRecipe, n: NormalizedRecipe) returns (created: bool)
      requires Valid()
      modifies this`processed, this`ingredients, this`aliases, this`recipes, this`links, this`issued
      ensures Valid()
      ensures (DbOf(), created) == Transaction(old(DbOf()), uuid, key, rowOf, raw, n)
    {
      ghost var db0 := DbOf();
      processed := processed + {raw.id};
      var recipeId := NewId();
      ghost var t0 := TablesOf();
      assert t0 == db0.tables.(issued := db0.tables.issued + 1);
      var rows := BuildLinks(recipeId, n.ingredients);
      assert (TablesOf(), rows) == LinkLoop(t0, uuid, recipeId, n.ingredients, key);
      TransactionOf(db0, uuid, key, rowOf, raw, n, TablesOf(), rows);
      created := rows != [];
      if created {
        CreateRecipe(recipeId, rowOf(n, recipeId), rows, old(issued));
      }
    }

    /** One iteration of the `processBatch` loop (lines 22-158), as `Step`
        specifies it. */
    method ProcessRaw(raw: RawRecipe, response: Response) returns (counted: bool)
      requires Valid()
      modifies this`processed, this`ingredients, this`aliases, this`recipes, this`links, this`issued
      ensures Valid()
      ensures (DbOf(), counted) == Step(old(DbOf()), uuid, key, rowOf, raw, response)
    {
      if response.Threw? {
        return false;
      }
      var normalized := response.normalized;
      if !IsUsableRecipe(normalized) {
        processed := processed + {raw.id};
        return false;
      }
      var created := Transact(raw, normalized.value);
      counted := true;
    }

    /** `processBatch(limit)` (lines 6-162): the batch `findMany` selects,
        processed as `RunBatch` specifies. */
    method ProcessBatch(limit: nat, respond: RawRecipe -> Response) returns (count: nat)
      requires Valid()
      modifies this`processed, this`ingredients, this`aliases, this`recipes, this`links, this`issued
      ensures Valid()
      ensures (DbOf(), count) == RunBatch(old(DbOf()), uuid, key, rowOf, Batch(rawRecipes, old(processed), limit), respond)
    {
      var batch := Batch(rawRecipes, processed, limit);
      if |batch| == 0 {
        return 0;
      }
      count := 0;
      for i := 0 to |batch|
        invariant Valid()
        invariant (DbOf(), count) == RunBatch(old(DbOf()), uuid, key, rowOf, batch[..i], respond)
      {
        var counted := ProcessRaw(batch[i], respond(batch[i]));
        if counted {
          count := count + 1;
        }
        RunBatchStep(old(DbOf()), uuid, key, rowOf, batch, respond, i);
      }
      assert batch[..|batch|] == batch;
    }
  }
}
