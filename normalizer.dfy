/** The ingredient-key normaliser and the pantry resolver
    (src/lib/pantry/normalizer.ts). The alias store is a parameter: the whole
    alias table as a sequence of rows, which the resolver queries by name. */
module Normalizer {
  import opened Text
  import opened PantryTypes
  import opened Seqs

  predicate IsOpenBracket(c: char) { c == '[' || c == '(' }

  predicate IsCloseBracket(c: char) { c == ']' || c == ')' }

  predicate IsQuote(c: char) { c == '\'' || c == '"' }

  predicate IsComma(c: char) { c == ',' }

  predicate NotAsciiUpper(c: char) { !IsAsciiUpper(c) }

  /** One statement of `normalizeIngredientKey`: each rewrites the local `s`. */
  datatype Edit =
    | TrimEnds                        // `s.trim()`
    | LowerCase                       // `s.toLowerCase()`
    | StripLeading(cls: CharClass)    // `s.replace(/^[...]+/, "")`
    | StripTrailing(cls: CharClass)   // `s.replace(/[...]+$/, "")`
    | CollapseWhitespace              // `s.replace(/\s+/g, " ")`

  datatype CharClass = OpenBrackets | CloseBrackets | Quotes | Commas

  function ClassOf(cls: CharClass): char -> bool {
    match cls
    case OpenBrackets => IsOpenBracket
    case CloseBrackets => IsCloseBracket
    case Quotes => IsQuote
    case Commas => IsComma
  }

  function ApplyEdit(e: Edit, s: string): string {
    match e
    case TrimEnds => Trim(s)
    case LowerCase => ToLower(s)
    case StripLeading(cls) => DropWhile(s, ClassOf(cls))
    case StripTrailing(cls) => DropWhileEnd(s, ClassOf(cls))
    case CollapseWhitespace => CollapseRuns(s, IsWhitespace, ' ')
  }

  /** The edits applied in order. */
  function ApplyEdits(s: string, edits: seq<Edit>): string
    decreases |edits|
  {
    if edits == [] then s else ApplyEdits(ApplyEdit(edits[0], s), edits[1..])
  }

  /** The chain of `normalizeIngredientKey`, in source order. */
  const KeyEdits: seq<Edit> := [
    TrimEnds, LowerCase,
    StripLeading(OpenBrackets), StripTrailing(CloseBrackets),
    StripLeading(Quotes), StripTrailing(Quotes),
    StripTrailing(Commas),
    CollapseWhitespace
  ]

  /** `normalizeIngredientKey`. */
  function IngredientKey(raw: string): string {
    ApplyEdits(raw, KeyEdits)
  }

  /** The same chain up to the whitespace collapse, written out as one
      expression. */
  ghost function KeyBeforeCollapse(raw: string): string {
    var lowered := ToLower(Trim(raw));
    var unbracketed := DropWhileEnd(DropWhile(lowered, IsOpenBracket), IsCloseBracket);
    var unquoted := DropWhileEnd(DropWhile(unbracketed, IsQuote), IsQuote);
    DropWhileEnd(unquoted, IsComma)
  }

  /** Applying a list of edits is applying its first edit, then the rest. */
  lemma ApplyEditsCons(s: string, e: Edit, rest: seq<Edit>)
    ensures ApplyEdits(s, [e] + rest) == ApplyEdits(ApplyEdit(e, s), rest)
  {
    assert ([e] + rest)[1..] == rest;
  }

  /** The edit list performs the written-out chain. */
  lemma KeyChain(raw: string)
    ensures IngredientKey(raw) == CollapseRuns(KeyBeforeCollapse(raw), IsWhitespace, ' ')
  {
    var s1 := Trim(raw);
    var s2 := ToLower(s1);
    var s3 := DropWhile(s2, IsOpenBracket);
    var s4 := DropWhileEnd(s3, IsCloseBracket);
    var s5 := DropWhile(s4, IsQuote);
    var s6 := DropWhileEnd(s5, IsQuote);
    var s7 := DropWhileEnd(s6, IsComma);
    var s8 := CollapseRuns(s7, IsWhitespace, ' ');
    assert KeyBeforeCollapse(raw) == s7;
    var e7 := [CollapseWhitespace];
    var e6 := [StripTrailing(Commas)] + e7;
    var e5 := [StripTrailing(Quotes)] + e6;
    var e4 := [StripLeading(Quotes)] + e5;
    var e3 := [StripTrailing(CloseBrackets)] + e4;
    var e2 := [StripLeading(OpenBrackets)] + e3;
    var e1 := [LowerCase] + e2;
    assert KeyEdits == [TrimEnds] + e1;
    ApplyEditsCons(raw, TrimEnds, e1);
    ApplyEditsCons(s1, LowerCase, e2);
    ApplyEditsCons(s2, StripLeading(OpenBrackets), e3);
    ApplyEditsCons(s3, StripTrailing(CloseBrackets), e4);
    ApplyEditsCons(s4, StripLeading(Quotes), e5);
    ApplyEditsCons(s5, StripTrailing(Quotes), e6);
    ApplyEditsCons(s6, StripTrailing(Commas), e7);
    ApplyEditsCons(s7, CollapseWhitespace, []);
    assert [CollapseWhitespace] + [] == e7;
  }

  /** A key is never longer than the raw name. */
  lemma KeyLength(raw: string)
    ensures |IngredientKey(raw)| <= |raw|
  {
    KeyChain(raw);
  }

  /** A blank name has the empty key. */
  lemma KeyOfBlank(raw: string)
    requires forall i :: 0 <= i < |raw| ==> IsWhitespace(raw[i])
    ensures IngredientKey(raw) == ""
  {
    KeyChain(raw);
    StripEmpty(raw, IsWhitespace);
  }

  /** A key holds no ASCII capital letter. */
  lemma KeyLowerCase(raw: string)
    ensures All(IngredientKey(raw), NotAsciiUpper)
  {
    KeyChain(raw);
    var lowered := ToLower(Trim(raw));
    ToLowerAt(Trim(raw));
    assert All(lowered, NotAsciiUpper);
    var a := DropWhile(lowered, IsOpenBracket);
    AllDropWhile(lowered, IsOpenBracket, NotAsciiUpper);
    var unbracketed := DropWhileEnd(a, IsCloseBracket);
    AllDropWhile(a, IsCloseBracket, NotAsciiUpper);
    var b := DropWhile(unbracketed, IsQuote);
    AllDropWhile(unbracketed, IsQuote, NotAsciiUpper);
    var unquoted := DropWhileEnd(b, IsQuote);
    AllDropWhile(b, IsQuote, NotAsciiUpper);
    AllDropWhile(unquoted, IsComma, NotAsciiUpper);
    CollapseRunsKeeps(KeyBeforeCollapse(raw), IsWhitespace, ' ', NotAsciiUpper);
  }

  /** Every whitespace character of a key is a plain space, and no two spaces
      are adjacent. */
  lemma KeySpacing(raw: string)
    ensures SingleSpaced(IngredientKey(raw))
  {
    KeyChain(raw);
    WhitespaceCollapsed(KeyBeforeCollapse(raw));
  }

  /** A key never ends with a comma. */
  lemma KeyNoTrailingComma(raw: string)
    ensures IngredientKey(raw) == "" || IngredientKey(raw)[|IngredientKey(raw)| - 1] != ','
  {
    KeyChain(raw);
    NoTrailingComma(raw);
    CollapseNoTrailingComma(KeyBeforeCollapse(raw));
  }

  lemma CollapseNoTrailingComma(s: string)
    requires s == [] || s[|s| - 1] != ','
    ensures CollapseRuns(s, IsWhitespace, ' ') == [] || CollapseRuns(s, IsWhitespace, ' ')[|CollapseRuns(s, IsWhitespace, ' ')| - 1] != ','
  {
  }

  lemma NoTrailingComma(raw: string)
    ensures KeyBeforeCollapse(raw) == [] || KeyBeforeCollapse(raw)[|KeyBeforeCollapse(raw)| - 1] != ','
  {
  }

  /** When the lower-cased, trimmed name loses only leading brackets and
      nothing else, the key before the collapse is what the bracket removal
      left. */
  lemma KeyStages(raw: string, u: string)
    requires DropWhile(ToLower(Trim(raw)), IsOpenBracket) == u
    requires u != [] && !IsCloseBracket(u[|u| - 1])
    requires !IsQuote(u[0]) && !IsQuote(u[|u| - 1]) && !IsComma(u[|u| - 1])
    ensures KeyBeforeCollapse(raw) == u
  {
    DropWhileEndNone(u, IsCloseBracket);
    DropWhileNone(u, IsQuote);
    DropWhileEndNone(u, IsQuote);
    DropWhileEndNone(u, IsComma);
  }

  lemma LowerLetter(c: char)
    requires IsAsciiLower(c)
    ensures ToLower([c]) == [c]
    ensures DropWhile([c], IsOpenBracket) == [c]
  {
    ToLowerAt([c]);
  }

  lemma LowerBracketed(c: char)
    requires IsAsciiLower(c)
    ensures ToLower(['(', ' ', c]) == ['(', ' ', c]
  {
    ToLowerAt(['(', ' ', c]);
  }

  lemma TrimSpaced(c: char)
    requires IsAsciiLower(c)
    ensures Trim([' ', c]) == [c]
  {
    DropWhileStep([' ', c], IsWhitespace);
    assert [' ', c][1..] == [c];
    assert DropWhile([c], IsWhitespace) == [c];
    assert DropWhileEnd([c], IsWhitespace) == [c];
  }

  lemma TrimBracketed(c: char)
    requires IsAsciiLower(c)
    ensures Trim(['(', ' ', c]) == ['(', ' ', c]
    ensures DropWhile(['(', ' ', c], IsOpenBracket) == [' ', c]
  {
    DropWhileStep(['(', ' ', c], IsOpenBracket);
    assert ['(', ' ', c][1..] == [' ', c];
    assert DropWhile([' ', c], IsOpenBracket) == [' ', c];
  }

  /** `" c"` has the key `"c"`. */
  lemma SpacedKey(c: char)
    requires IsAsciiLower(c)
    ensures KeyBeforeCollapse([' ', c]) == [c]
  {
    TrimSpaced(c);
    LowerLetter(c);
    KeyStages([' ', c], [c]);
  }

  /** `"( c"` loses its bracket after the trim and keeps the space. */
  lemma BracketedKey(c: char)
    requires IsAsciiLower(c)
    ensures KeyBeforeCollapse(['(', ' ', c]) == [' ', c]
  {
    BracketedStages(c);
    SpacedEnds(c);
    KeyStagesUnchanged(['(', ' ', c], [' ', c]);
  }

  lemma BracketedStages(c: char)
    requires IsAsciiLower(c)
    ensures Trim(['(', ' ', c]) == ['(', ' ', c] && ToLower(['(', ' ', c]) == ['(', ' ', c]
    ensures DropWhile(['(', ' ', c], IsOpenBracket) == [' ', c]
  {
    TrimBracketed(c);
    LowerBracketed(c);
  }

  lemma SpacedEnds(c: char)
    requires IsAsciiLower(c)
    ensures !IsCloseBracket(c) && !IsQuote(' ') && !IsQuote(c) && !IsComma(c)
  {
  }

  lemma KeyStagesUnchanged(raw: string, u: string)
    requires Trim(raw) == raw && ToLower(raw) == raw
    requires DropWhile(raw, IsOpenBracket) == u
    requires u != [] && !IsCloseBracket(u[|u| - 1])
    requires !IsQuote(u[0]) && !IsQuote(u[|u| - 1]) && !IsComma(u[|u| - 1])
    ensures KeyBeforeCollapse(raw) == u
  {
    KeyStages(raw, u);
  }

  lemma CollapseShort(c: char)
    requires IsAsciiLower(c)
    ensures CollapseRuns([c], IsWhitespace, ' ') == [c]
    ensures CollapseRuns([' ', c], IsWhitespace, ' ') == [' ', c]
  {
    assert [c][1..] == [];
    DropWhileStep([' ', c], IsWhitespace);
    assert [' ', c][1..] == [c];
    assert DropWhile([c], IsWhitespace) == [c];
  }

  /** The key is not a fixpoint: the leading bracket goes after the trim, so
      the space behind it survives one pass and not the next. */
  lemma KeyNotIdempotent(c: char)
    requires IsAsciiLower(c)
    ensures IngredientKey(['(', ' ', c]) == [' ', c]
    ensures IngredientKey([' ', c]) == [c]
    ensures IngredientKey(IngredientKey(['(', ' ', c])) != IngredientKey(['(', ' ', c])
  {
    KeyChain(['(', ' ', c]);
    KeyChain([' ', c]);
    BracketedKey(c);
    SpacedKey(c);
    CollapseShort(c);
  }

  /** A name none of the steps would change: no whitespace at either end, no
      capital letter, no leading bracket or quote, no trailing bracket, quote
      or comma, and single-spaced. */
  ghost predicate IsCleanName(s: string) {
    && (s == [] || (!IsWhitespace(s[0]) && !IsOpenBracket(s[0]) && !IsQuote(s[0])))
    && (s == [] || (!IsWhitespace(s[|s| - 1]) && !IsCloseBracket(s[|s| - 1])
                    && !IsQuote(s[|s| - 1]) && !IsComma(s[|s| - 1])))
    && All(s, NotAsciiUpper)
    && SingleSpaced(s)
  }

  /** A clean name is its own key: the key keeps the text of a name and only
      removes what the steps name. */
  lemma KeyOfClean(s: string)
    requires IsCleanName(s)
    ensures IngredientKey(s) == s
  {
    KeyChain(s);
    DropWhileNone(s, IsWhitespace);
    DropWhileEndNone(s, IsWhitespace);
    assert Trim(s) == s;
    ToLowerKeeps(s);
    DropWhileNone(s, IsOpenBracket);
    DropWhileEndNone(s, IsCloseBracket);
    DropWhileNone(s, IsQuote);
    DropWhileEndNone(s, IsQuote);
    DropWhileEndNone(s, IsComma);
    assert KeyBeforeCollapse(s) == s;
    CollapseRunsKeepsShape(s, IsWhitespace, ' ');
  }

  /** `pantry.map(p => normalizeIngredientKey(p.name))` */
  function Keys(pantry: seq<PantryItemInput>): (keys: seq<string>)
    ensures |keys| == |pantry|
  {
    seq(|pantry|, i requires 0 <= i < |pantry| => IngredientKey(pantry[i].name))
  }

  /** `.filter(Boolean)` on strings: drop the empty ones, keep the order. */
  function NonEmpty(keys: seq<string>): (names: seq<string>)
    ensures |names| <= |keys|
  {
    if keys == [] then []
    else
      var prev := NonEmpty(keys[..|keys| - 1]);
      if keys[|keys| - 1] == "" then prev else prev + [keys[|keys| - 1]]
  }

  lemma {:induction false} NonEmptyMembers(keys: seq<string>)
    ensures forall n :: n in NonEmpty(keys) <==> n in keys && n != ""
    ensures NonEmpty(keys) == [] <==> forall i :: 0 <= i < |keys| ==> keys[i] == ""
  {
    if keys != [] {
      var init := keys[..|keys| - 1];
      NonEmptyMembers(init);
      assert keys == init + [keys[|keys| - 1]];
    }
  }

  function CleanedNames(pantry: seq<PantryItemInput>): seq<string> {
    NonEmpty(Keys(pantry))
  }

  /** The rows the bulk query returns: those whose stored alias name is one
      of the cleaned names. */
  function AliasQuery(store: seq<AliasRecord>, names: seq<string>): (rows: seq<AliasRecord>)
    ensures |rows| <= |store|
    ensures forall r :: r in rows <==> r in store && r.aliasName in names
  {
    if store == [] then []
    else
      var prev := AliasQuery(store[..|store| - 1], names);
      var last := store[|store| - 1];
      assert store == store[..|store| - 1] + [last];
      if last.aliasName in names then prev + [last] else prev
  }

  /** `aliases.map(a => [normalizeIngredientKey(a.aliasName), a.ingredient])` */
  function AliasPairs(rows: seq<AliasRecord>): (pairs: seq<(string, Ingredient)>)
    ensures |pairs| == |rows|
  {
    seq(|rows|, j requires 0 <= j < |rows| => (IngredientKey(rows[j].aliasName), rows[j].ingredient))
  }

  /** `new Map(pairs)`: a later pair overrides an earlier one with the same key. */
  function MapOfPairs(pairs: seq<(string, Ingredient)>): map<string, Ingredient> {
    if pairs == [] then map[]
    else
      var last := pairs[|pairs| - 1];
      MapOfPairs(pairs[..|pairs| - 1])[last.0 := last.1]
  }

  /** No pair after pair `j` has the same key. */
  ghost predicate LastWithKey(pairs: seq<(string, Ingredient)>, j: int)
    requires 0 <= j < |pairs|
  {
    forall j' :: j < j' < |pairs| ==> pairs[j'].0 != pairs[j].0
  }

  /** The map holds exactly the keys of the pairs. */
  lemma {:induction false} MapOfPairsKeys(pairs: seq<(string, Ingredient)>)
    ensures forall k :: k in MapOfPairs(pairs) <==> exists j :: 0 <= j < |pairs| && pairs[j].0 == k
  {
    if pairs != [] {
      var init := pairs[..|pairs| - 1];
      MapOfPairsKeys(init);
      assert pairs == init + [pairs[|pairs| - 1]];
    }
  }

  /** Each key is bound to the value of the last pair with that key. */
  lemma {:induction false} MapOfPairsLastWins(pairs: seq<(string, Ingredient)>)
    ensures forall j :: 0 <= j < |pairs| && LastWithKey(pairs, j) ==>
              pairs[j].0 in MapOfPairs(pairs) && MapOfPairs(pairs)[pairs[j].0] == pairs[j].1
  {
    if pairs != [] {
      var init := pairs[..|pairs| - 1];
      var last := pairs[|pairs| - 1];
      MapOfPairsLastWins(init);
      assert MapOfPairs(pairs) == MapOfPairs(init)[last.0 := last.1];
      forall j | 0 <= j < |pairs| && LastWithKey(pairs, j)
        ensures pairs[j].0 in MapOfPairs(pairs) && MapOfPairs(pairs)[pairs[j].0] == pairs[j].1
      {
        if j < |pairs| - 1 {
          assert init[j] == pairs[j];
          assert pairs[j].0 != last.0;
          assert LastWithKey(init, j) by {
            forall j' | j < j' < |init|
              ensures init[j'].0 != init[j].0
            {
              assert init[j'] == pairs[j'];
            }
          }
        }
      }
    }
  }

  /** Every binding of the map is one of the pairs. */
  lemma {:induction false} MapOfPairsValues(pairs: seq<(string, Ingredient)>)
    ensures forall k :: k in MapOfPairs(pairs) ==> (k, MapOfPairs(pairs)[k]) in pairs
  {
    if pairs != [] {
      var init := pairs[..|pairs| - 1];
      MapOfPairsValues(init);
      assert pairs == init + [pairs[|pairs| - 1]];
    }
  }

  function EntryOf(ing: Ingredient): PantryIngredient {
    PantryIngredient(ing.id, ing.canonicalName)
  }

  /** The `mapped` list: one entry per pantry key found in the index, in pantry
      order. */
  function Resolve(keys: seq<string>, index: map<string, Ingredient>): (mapped: seq<PantryIngredient>)
    ensures |mapped| <= |keys|
  {
    if keys == [] then []
    else
      var prev := Resolve(keys[..|keys| - 1], index);
      var k := keys[|keys| - 1];
      if k in index then prev + [EntryOf(index[k])] else prev
  }

  /** Every mapped entry comes from a key found in the index, and every key
      found in the index contributes its entry; other keys contribute nothing. */
  lemma {:induction false} ResolveExact(keys: seq<string>, index: map<string, Ingredient>)
    ensures forall e :: e in Resolve(keys, index) ==>
              exists i :: 0 <= i < |keys| && keys[i] in index && e == EntryOf(index[keys[i]])
    ensures forall i :: 0 <= i < |keys| && keys[i] in index ==> EntryOf(index[keys[i]]) in Resolve(keys, index)
  {
    if keys != [] {
      var init := keys[..|keys| - 1];
      ResolveExact(init, index);
      assert forall i :: 0 <= i < |init| ==> init[i] == keys[i];
    }
  }

  lemma ResolvePrefixStep(keys: seq<string>, i: int, index: map<string, Ingredient>)
    requires 0 <= i < |keys|
    ensures Resolve(keys[..i + 1], index)
            == if keys[i] in index then Resolve(keys[..i], index) + [EntryOf(index[keys[i]])] else Resolve(keys[..i], index)
  {
    assert keys[..i + 1][..i] == keys[..i];
  }

  /** Position of the entry with ingredient id `id`, or -1. */
  function FindId(entries: seq<PantryIngredient>, id: string): (k: int)
    ensures -1 <= k < |entries|
    ensures 0 <= k ==> entries[k].ingredientId == id
  {
    if entries == [] then -1
    else if entries[|entries| - 1].ingredientId == id then |entries| - 1
    else FindId(entries[..|entries| - 1], id)
  }

  lemma {:induction false} FindIdAbsent(entries: seq<PantryIngredient>, id: string)
    ensures FindId(entries, id) == -1 <==> id !in Ids(entries)
  {
    if entries != [] {
      var init := entries[..|entries| - 1];
      FindIdAbsent(init, id);
      assert Ids(entries) == Ids(init) + [entries[|entries| - 1].ingredientId];
    }
  }

  /** `unique.set(m.ingredientId, m)` on a JavaScript `Map`, seen through its
      insertion-ordered values: an existing key keeps its place and takes the
      new value, a new key goes last. */
  function Upsert(entries: seq<PantryIngredient>, m: PantryIngredient): seq<PantryIngredient> {
    var k := FindId(entries, m.ingredientId);
    if 0 <= k then entries[k := m] else entries + [m]
  }

  /** `Array.from(unique.values())` after setting every mapped entry in turn. */
  function UniqueById(mapped: seq<PantryIngredient>): seq<PantryIngredient> {
    if mapped == [] then []
    else Upsert(UniqueById(mapped[..|mapped| - 1]), mapped[|mapped| - 1])
  }

  lemma UniqueByIdSnoc(ms: seq<PantryIngredient>, m: PantryIngredient)
    ensures UniqueById(ms + [m]) == Upsert(UniqueById(ms), m)
  {
    assert (ms + [m])[..|ms|] == ms;
  }

  function Ids(entries: seq<PantryIngredient>): (ids: seq<string>)
    ensures |ids| == |entries|
  {
    seq(|entries|, i requires 0 <= i < |entries| => entries[i].ingredientId)
  }

  ghost predicate Distinct(xs: seq<string>) {
    forall i, j :: 0 <= i < j < |xs| ==> xs[i] != xs[j]
  }

  /** Reference definition: each id once, in the order of its first occurrence. */
  function FirstOccurrences(xs: seq<string>): seq<string> {
    if xs == [] then []
    else
      var prev := FirstOccurrences(xs[..|xs| - 1]);
      if xs[|xs| - 1] in prev then prev else prev + [xs[|xs| - 1]]
  }

  lemma {:induction false} FirstOccurrencesProps(xs: seq<string>)
    ensures Distinct(FirstOccurrences(xs))
    ensures |FirstOccurrences(xs)| <= |xs|
    ensures forall x :: x in FirstOccurrences(xs) <==> x in xs
  {
    if xs != [] {
      var init := xs[..|xs| - 1];
      FirstOccurrencesProps(init);
      assert xs == init + [xs[|xs| - 1]];
    }
  }

  /** The ids of the de-duplicated list are the distinct ids of `mapped`, in
      order of first occurrence. */
  lemma {:induction false} UniqueByIdOrder(mapped: seq<PantryIngredient>)
    ensures Ids(UniqueById(mapped)) == FirstOccurrences(Ids(mapped))
  {
    if mapped != [] {
      var init := mapped[..|mapped| - 1];
      var last := mapped[|mapped| - 1];
      var prev := UniqueById(init);
      UniqueByIdOrder(init);
      assert Ids(mapped)[..|mapped| - 1] == Ids(init);
      FindIdAbsent(prev, last.ingredientId);
      var k := FindId(prev, last.ingredientId);
      if 0 <= k {
        assert Ids(prev[k := last]) == Ids(prev);
      } else {
        assert Ids(prev + [last]) == Ids(prev) + [last.ingredientId];
      }
    }
  }

  /** No entry after entry `j` has the same ingredient id. */
  ghost predicate LastWithId(mapped: seq<PantryIngredient>, j: int)
    requires 0 <= j < |mapped|
  {
    forall j' :: j < j' < |mapped| ==> mapped[j'].ingredientId != mapped[j].ingredientId
  }

  /** `e` is the last entry of `mapped` with its ingredient id. */
  ghost predicate IsLastOfItsId(mapped: seq<PantryIngredient>, e: PantryIngredient) {
    exists j :: 0 <= j < |mapped| && mapped[j] == e && LastWithId(mapped, j)
  }

  /** Appending an entry with another id keeps an entry last of its id. */
  lemma LastOfItsIdExtends(init: seq<PantryIngredient>, last: PantryIngredient, e: PantryIngredient)
    requires IsLastOfItsId(init, e) && e.ingredientId != last.ingredientId
    ensures IsLastOfItsId(init + [last], e)
  {
    var j :| 0 <= j < |init| && init[j] == e && LastWithId(init, j);
    assert (init + [last])[j] == e && LastWithId(init + [last], j);
  }

  /** Each de-duplicated entry is the last mapped entry with its id. */
  lemma {:induction false} UniqueByIdLastWins(mapped: seq<PantryIngredient>)
    ensures forall i :: 0 <= i < |UniqueById(mapped)| ==> IsLastOfItsId(mapped, UniqueById(mapped)[i])
  {
    if mapped != [] {
      var n := |mapped|;
      var init := mapped[..n - 1];
      var last := mapped[n - 1];
      assert mapped == init + [last];
      var prev := UniqueById(init);
      var u := UniqueById(mapped);
      UniqueByIdLastWins(init);
      UniqueByIdOrder(init);
      FirstOccurrencesProps(Ids(init));
      FindIdAbsent(prev, last.ingredientId);
      var k := FindId(prev, last.ingredientId);
      assert Distinct(Ids(prev));
      assert u == if 0 <= k then prev[k := last] else prev + [last];
      assert IsLastOfItsId(mapped, last) by {
        assert mapped[n - 1] == last && LastWithId(mapped, n - 1);
      }
      forall i | 0 <= i < |u|
        ensures IsLastOfItsId(mapped, u[i])
      {
        if (0 <= k && i == k) || (k < 0 && i == |prev|) {
          assert u[i] == last;
        } else {
          assert i < |prev| && u[i] == prev[i];
          assert Ids(prev)[i] == prev[i].ingredientId;
          if k < 0 {
            assert last.ingredientId !in Ids(prev);
          } else {
            assert Ids(prev)[k] == last.ingredientId;
          }
          LastOfItsIdExtends(init, last, prev[i]);
        }
      }
    }
  }

  /** `normalizePantryItems`, as a function of the pantry and the alias table. */
  function NormalizedPantry(pantry: seq<PantryItemInput>, store: seq<AliasRecord>): seq<PantryIngredient> {
    var names := CleanedNames(pantry);
    if |names| == 0 then []
    else UniqueById(Resolve(Keys(pantry), AliasIndex(store, names)))
  }

  /** `byAlias`: the fetched rows, keyed by the key of their alias name. */
  function AliasIndex(store: seq<AliasRecord>, names: seq<string>): map<string, Ingredient> {
    MapOfPairs(AliasPairs(AliasQuery(store, names)))
  }

  /** The index holds the key of every fetched row. */
  lemma AliasIndexKeys(store: seq<AliasRecord>, names: seq<string>)
    ensures forall r :: r in store && r.aliasName in names ==> IngredientKey(r.aliasName) in AliasIndex(store, names)
  {
    var rows := AliasQuery(store, names);
    var pairs := AliasPairs(rows);
    MapOfPairsKeys(pairs);
    forall r | r in store && r.aliasName in names
      ensures IngredientKey(r.aliasName) in AliasIndex(store, names)
    {
      var j :| 0 <= j < |rows| && rows[j] == r;
      assert pairs[j].0 == IngredientKey(r.aliasName);
    }
  }

  /** Each value of the index is the ingredient of a fetched row whose key is
      the value's key. */
  lemma AliasIndexValues(store: seq<AliasRecord>, names: seq<string>)
    ensures forall k :: k in AliasIndex(store, names) ==>
              exists r :: r in store && r.aliasName in names && IngredientKey(r.aliasName) == k
                          && AliasIndex(store, names)[k] == r.ingredient
  {
    var rows := AliasQuery(store, names);
    var pairs := AliasPairs(rows);
    var index := AliasIndex(store, names);
    assert index == MapOfPairs(pairs);
    MapOfPairsValues(pairs);
    forall k | k in index
      ensures exists r :: r in store && r.aliasName in names && IngredientKey(r.aliasName) == k
                          && index[k] == r.ingredient
    {
      assert (k, index[k]) in pairs;
      var j :| 0 <= j < |pairs| && pairs[j] == (k, index[k]);
      var r := rows[j];
      assert r in rows;
      assert IngredientKey(r.aliasName) == k && index[k] == r.ingredient;
    }
  }

  /** Pantry item `i` and alias row `r` meet: the row is among those fetched
      for the cleaned names, and its key is the item's key. */
  ghost predicate Matches(pantry: seq<PantryItemInput>, store: seq<AliasRecord>, i: int, r: AliasRecord) {
    && 0 <= i < |pantry|
    && r in store
    && r.aliasName in CleanedNames(pantry)
    && IngredientKey(r.aliasName) == IngredientKey(pantry[i].name)
  }

  /** When every pantry name has an empty key, the result is empty (and the
      alias table plays no part). */
  lemma NormalizedBlank(pantry: seq<PantryItemInput>, store: seq<AliasRecord>)
    requires forall i :: 0 <= i < |pantry| ==> IngredientKey(pantry[i].name) == ""
    ensures NormalizedPantry(pantry, store) == []
  {
    NonEmptyMembers(Keys(pantry));
  }

  /** Every de-duplicated entry is the indexed ingredient of some key. */
  lemma UniqueResolvedFrom(keys: seq<string>, index: map<string, Ingredient>)
    ensures forall e :: e in UniqueById(Resolve(keys, index)) ==>
              exists i :: 0 <= i < |keys| && keys[i] in index && e == EntryOf(index[keys[i]])
  {
    var mapped := Resolve(keys, index);
    var u := UniqueById(mapped);
    UniqueByIdLastWins(mapped);
    ResolveExact(keys, index);
    forall e | e in u
      ensures exists i :: 0 <= i < |keys| && keys[i] in index && e == EntryOf(index[keys[i]])
    {
      var t :| 0 <= t < |u| && u[t] == e;
      assert IsLastOfItsId(mapped, e);
      assert e in mapped;
    }
  }

  /** The id of every indexed key survives the de-duplication. */
  lemma ResolvedIdsKept(keys: seq<string>, index: map<string, Ingredient>)
    ensures forall i :: 0 <= i < |keys| && keys[i] in index ==>
              index[keys[i]].id in Ids(UniqueById(Resolve(keys, index)))
  {
    var mapped := Resolve(keys, index);
    ResolveExact(keys, index);
    UniqueByIdOrder(mapped);
    FirstOccurrencesProps(Ids(mapped));
    forall i | 0 <= i < |keys| && keys[i] in index
      ensures index[keys[i]].id in Ids(UniqueById(mapped))
    {
      var e := EntryOf(index[keys[i]]);
      var t :| 0 <= t < |mapped| && mapped[t] == e;
      assert Ids(mapped)[t] == e.ingredientId;
    }
  }

  /** Soundness: every resolved entry is the ingredient of a fetched alias row
      that matches some pantry item. */
  lemma NormalizedSound(pantry: seq<PantryItemInput>, store: seq<AliasRecord>)
    ensures forall e :: e in NormalizedPantry(pantry, store) ==>
              exists i, r :: Matches(pantry, store, i, r) && e == EntryOf(r.ingredient)
  {
    var names := CleanedNames(pantry);
    if |names| != 0 {
      var keys := Keys(pantry);
      var index := AliasIndex(store, names);
      UniqueResolvedFrom(keys, index);
      forall e | e in UniqueById(Resolve(keys, index))
        ensures exists i, r :: Matches(pantry, store, i, r) && e == EntryOf(r.ingredient)
      {
        var i :| 0 <= i < |keys| && keys[i] in index && e == EntryOf(index[keys[i]]);
        IndexedItemMatches(pantry, store, i);
      }
    }
  }

  /** A pantry item whose key is in the index matches the row the index took
      its ingredient from. */
  lemma IndexedItemMatches(pantry: seq<PantryItemInput>, store: seq<AliasRecord>, i: int)
    requires 0 <= i < |pantry|
    requires Keys(pantry)[i] in AliasIndex(store, CleanedNames(pantry))
    ensures exists r :: Matches(pantry, store, i, r)
                        && AliasIndex(store, CleanedNames(pantry))[Keys(pantry)[i]] == r.ingredient
  {
    var names := CleanedNames(pantry);
    var key := Keys(pantry)[i];
    AliasIndexValues(store, names);
    var r :| r in store && r.aliasName in names && IngredientKey(r.aliasName) == key
             && AliasIndex(store, names)[key] == r.ingredient;
    assert Matches(pantry, store, i, r);
  }

  /** Completeness: a pantry item that some fetched alias row matches is
      represented in the result by the id of a matching row. */
  lemma NormalizedComplete(pantry: seq<PantryItemInput>, store: seq<AliasRecord>)
    ensures forall i, r :: Matches(pantry, store, i, r) ==>
              exists r' :: Matches(pantry, store, i, r') && r'.ingredient.id in Ids(NormalizedPantry(pantry, store))
  {
    var names := CleanedNames(pantry);
    var keys := Keys(pantry);
    var index := AliasIndex(store, names);
    AliasIndexKeys(store, names);
    AliasIndexValues(store, names);
    ResolvedIdsKept(keys, index);
    forall i, r | Matches(pantry, store, i, r)
      ensures exists r' :: Matches(pantry, store, i, r') && r'.ingredient.id in Ids(NormalizedPantry(pantry, store))
    {
      assert |names| != 0;
      assert keys[i] == IngredientKey(r.aliasName);
      var r' :| r' in store && r'.aliasName in names && IngredientKey(r'.aliasName) == keys[i]
                && index[keys[i]] == r'.ingredient;
      assert Matches(pantry, store, i, r');
    }
  }

  /** The result has pairwise distinct ids, is no longer than the pantry, and
      lists the ids in the order they are first resolved. */
  lemma NormalizedDistinct(pantry: seq<PantryItemInput>, store: seq<AliasRecord>)
    ensures Distinct(Ids(NormalizedPantry(pantry, store)))
    ensures |NormalizedPantry(pantry, store)| <= |pantry|
    ensures |CleanedNames(pantry)| != 0 ==>
              Ids(NormalizedPantry(pantry, store))
              == FirstOccurrences(Ids(Resolve(Keys(pantry), AliasIndex(store, CleanedNames(pantry)))))
  {
    var names := CleanedNames(pantry);
    if |names| != 0 {
      var mapped := Resolve(Keys(pantry), AliasIndex(store, names));
      UniqueByIdOrder(mapped);
      FirstOccurrencesProps(Ids(mapped));
    }
  }

  /** The `unique` Map seen as its insertion order `order` and its bindings
      `table` mirrors the list `u`: the order is the ids of `u`, and each id
      is bound to its entry. */
  ghost predicate Mirrors(order: seq<string>, table: map<string, PantryIngredient>, u: seq<PantryIngredient>) {
    && order == Ids(u)
    && (forall id :: id in table <==> id in order)
    && (forall k :: 0 <= k < |u| ==> u[k].ingredientId in table && table[u[k].ingredientId] == u[k])
  }

  /** `unique.set(m.ingredientId, m)` keeps the mirror of `Upsert`. */
  lemma SetMirrors(order: seq<string>, table: map<string, PantryIngredient>, u: seq<PantryIngredient>, m: PantryIngredient)
    requires Mirrors(order, table, u) && Distinct(Ids(u))
    ensures Mirrors(if m.ingredientId in table then order else order + [m.ingredientId],
                    table[m.ingredientId := m], Upsert(u, m))
  {
    FindIdAbsent(u, m.ingredientId);
    var k := FindId(u, m.ingredientId);
    if 0 <= k {
      assert Ids(u[k := m]) == Ids(u);
      forall t | 0 <= t < |u| && t != k
        ensures u[t].ingredientId != m.ingredientId
      {
        assert Ids(u)[t] == u[t].ingredientId && Ids(u)[k] == u[k].ingredientId;
      }
    } else {
      assert Ids(u + [m]) == Ids(u) + [m.ingredientId];
    }
  }

  /** `normalizePantryItems`: the alias query and the construction of
      `byAlias` are the functions above; the two loops are the methods below. */
  method NormalizePantryItems(pantry: seq<PantryItemInput>, store: seq<AliasRecord>)
    returns (result: seq<PantryIngredient>)
    ensures result == NormalizedPantry(pantry, store)
  {
    var cleanedNames := CleanedNames(pantry);
    if |cleanedNames| == 0 {
      return [];
    }
    var byAlias := AliasIndex(store, cleanedNames);
    var mapped := MapPantryItems(pantry, byAlias);
    result := UniqueValues(mapped);
  }

  /** The first loop: push the indexed ingredient of every pantry item whose
      key is in `byAlias`. */
  method MapPantryItems(pantry: seq<PantryItemInput>, byAlias: map<string, Ingredient>)
    returns (mapped: seq<PantryIngredient>)
    ensures mapped == Resolve(Keys(pantry), byAlias)
  {
    ghost var keys := Keys(pantry);
    mapped := [];
    var i := 0;
    while i < |pantry|
      invariant 0 <= i <= |pantry|
      invariant mapped == Resolve(keys[..i], byAlias)
    {
      var key := IngredientKey(pantry[i].name);
      assert key == keys[i];
      ResolvePrefixStep(keys, i, byAlias);
      if key in byAlias {
        var ing := byAlias[key];
        mapped := mapped + [PantryIngredient(ing.id, ing.canonicalName)];
      }
      i := i + 1;
    }
    assert keys[..i] == keys;
  }

  /** One turn of the second loop keeps the mirror of the de-duplicated
      prefix. */
  lemma SetStep(order: seq<string>, table: map<string, PantryIngredient>, mapped: seq<PantryIngredient>, j: int)
    requires 0 <= j < |mapped|
    requires Mirrors(order, table, UniqueById(mapped[..j]))
    ensures Mirrors(if mapped[j].ingredientId in table then order else order + [mapped[j].ingredientId],
                    table[mapped[j].ingredientId := mapped[j]], UniqueById(mapped[..j + 1]))
  {
    TakeSnoc(mapped, j);
    UniqueByIdSnoc(mapped[..j], mapped[j]);
    UniqueByIdOrder(mapped[..j]);
    FirstOccurrencesProps(Ids(mapped[..j]));
    SetMirrors(order, table, UniqueById(mapped[..j]), mapped[j]);
  }

  /** Reading the map's values in insertion order gives the mirrored list. */
  lemma MirroredValue(order: seq<string>, table: map<string, PantryIngredient>, u: seq<PantryIngredient>, t: int)
    requires Mirrors(order, table, u) && 0 <= t < |order|
    ensures order[t] in table && table[order[t]] == u[t]
  {
    assert order[t] == Ids(u)[t];
  }

  /** The second loop: `unique.set(m.ingredientId, m)` for every entry, then
      the values in insertion order. The Map is its insertion order together
      with its bindings. */
  method UniqueValues(mapped: seq<PantryIngredient>) returns (values: seq<PantryIngredient>)
    ensures values == UniqueById(mapped)
  {
    var order: seq<string> := [];
    var table: map<string, PantryIngredient> := map[];
    var j := 0;
    while j < |mapped|
      invariant 0 <= j <= |mapped|
      invariant Mirrors(order, table, UniqueById(mapped[..j]))
    {
      var m := mapped[j];
      SetStep(order, table, mapped, j);
      if m.ingredientId !in table {
        order := order + [m.ingredientId];
      }
      table := table[m.ingredientId := m];
      j := j + 1;
    }
    assert mapped[..j] == mapped;
    ghost var u := UniqueById(mapped);
    values := [];
    var t := 0;
    while t < |order|
      invariant 0 <= t <= |order|
      invariant values == u[..t]
    {
      MirroredValue(order, table, u, t);
      TakeSnoc(u, t);
      values := values + [table[order[t]]];
      t := t + 1;
    }
    assert u[..t] == u;
  }
}
