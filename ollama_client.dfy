/** Cleaning the language model's reply and coercing the parsed reply into a
    normalised recipe (src/lib/ai/ollamaClient.ts). The HTTP call and
    `JSON.parse` are not modelled: the coercion starts from a parsed value. */
module OllamaClient {
  import opened Wrappers
  import opened Text

  /** The Markdown code fence. */
  const Fence: seq<char> := "```"

  /** Removes an opening fence with its language tag and the whitespace after
      it, and then a closing fence, when `t` starts with a fence; anything
      else is left as it is. */
  function StripFence(t: seq<char>): (r: seq<char>)
    ensures !StartsWith(t, Fence) ==> r == t
  {
    if StartsWith(t, Fence) then
      var body := DropWhile(DropWhile(t[3..], IsAsciiLetter), IsWhitespace);
      if EndsWith(body, Fence) then body[..|body| - 3] else body
    else t
  }

  /** Cuts from the first `{` to the last `}` when there is a `}` after the
      first `{`. */
  function CutToBraces(c: seq<char>): (r: seq<char>)
    ensures |r| <= |c|
    ensures r != c ==> |r| >= 2 && r[0] == '{' && r[|r| - 1] == '}'
  {
    var first := IndexOf(c, '{');
    var last := LastIndexOf(c, '}');
    if first != -1 && last != -1 && last > first then c[first..last + 1] else c
  }

  /** `extractJson` */
  function ExtractJson(text: seq<char>): (r: seq<char>)
    ensures Trimmed(r)
  {
    Trim(CutToBraces(StripFence(Trim(text))))
  }

  /** The text after the fence and its language tag and whitespace start at
      offset `k`; that text ends at `e`, before a closing fence if there is
      one. */
  ghost predicate FenceCut(t: seq<char>, k: int, e: int) {
    && 3 <= k <= e <= |t|
    && StripFence(t) == t[k..e]
    && (forall i :: 3 <= i < k ==> IsAsciiLetter(t[i]) || IsWhitespace(t[i]))
    && (e == |t| || t[e..] == Fence)
  }

  /** A fence is removed only from text that starts with one; what is removed
      in front is the fence, a run of ASCII letters and a run of whitespace,
      and at most one closing fence goes at the end. */
  lemma FenceRule(t: seq<char>)
    requires StartsWith(t, Fence)
    ensures exists k, e :: FenceCut(t, k, e)
  {
    var k := FenceFront(t);
    var e := FenceEnd(t, k);
    assert FenceCut(t, k, e);
  }

  /** The fence, the language tag and the whitespace after it end at `k`. */
  lemma FenceFront(t: seq<char>) returns (k: int)
    requires StartsWith(t, Fence)
    ensures 3 <= k <= |t|
    ensures DropWhile(DropWhile(t[3..], IsAsciiLetter), IsWhitespace) == t[k..]
    ensures forall i :: 3 <= i < k ==> IsAsciiLetter(t[i]) || IsWhitespace(t[i])
  {
    var a := t[3..];
    var lang := LeadingRun(a, IsAsciiLetter);
    var b := DropWhile(a, IsAsciiLetter);
    var ws := LeadingRun(b, IsWhitespace);
    LeadingRunAll(a, IsAsciiLetter);
    LeadingRunAll(b, IsWhitespace);
    k := 3 + lang + ws;
    forall i | 3 <= i < k
      ensures IsAsciiLetter(t[i]) || IsWhitespace(t[i])
    {
      if i < 3 + lang {
        assert t[i] == a[i - 3];
      } else {
        assert t[i] == b[i - 3 - lang];
      }
    }
  }

  /** Where the body after the front ends: before a closing fence, if any. */
  lemma FenceEnd(t: seq<char>, k: int) returns (e: int)
    requires StartsWith(t, Fence) && 3 <= k <= |t|
    requires DropWhile(DropWhile(t[3..], IsAsciiLetter), IsWhitespace) == t[k..]
    ensures k <= e <= |t| && StripFence(t) == t[k..e]
    ensures e == |t| || t[e..] == Fence
  {
    StripFenceAt(t, k);
    if EndsWith(t[k..], Fence) {
      e := |t| - 3;
      ClosedFenceEnd(t, k);
    } else {
      e := |t|;
    }
  }

  /** The fence stage once the front is known to end at `k`. */
  lemma StripFenceAt(t: seq<char>, k: int)
    requires StartsWith(t, Fence) && 3 <= k <= |t|
    requires DropWhile(DropWhile(t[3..], IsAsciiLetter), IsWhitespace) == t[k..]
    ensures StripFence(t) == if EndsWith(t[k..], Fence) then t[k..][..|t| - k - 3] else t[k..]
  {
  }

  lemma ClosedFenceEnd(t: seq<char>, k: int)
    requires 0 <= k <= |t| && EndsWith(t[k..], Fence)
    ensures k <= |t| - 3 && t[k..][..|t| - k - 3] == t[k..|t| - 3] && t[|t| - 3..] == Fence
  {
    var body := t[k..];
    assert body[|body| - 3..] == t[|t| - 3..];
  }

  /** Text has a `{` followed, somewhere later, by a `}`. */
  ghost predicate HasBracePair(c: seq<char>) {
    exists i, j :: 0 <= i < j < |c| && c[i] == '{' && c[j] == '}'
  }

  /** A brace pair exists exactly when the last `}` comes after the first `{`. */
  lemma BracePairIndices(c: seq<char>)
    ensures HasBracePair(c) <==>
      IndexOf(c, '{') != -1 && LastIndexOf(c, '}') != -1 && LastIndexOf(c, '}') > IndexOf(c, '{')
  {
    var first := IndexOf(c, '{');
    var last := LastIndexOf(c, '}');
    if HasBracePair(c) {
      var i, j :| 0 <= i < j < |c| && c[i] == '{' && c[j] == '}';
      FirstBefore(c, '{', i);
      LastAfter(c, '}', j);
    }
    if first != -1 && last != -1 && last > first {
      assert c[first] == '{' && c[last] == '}';
    }
  }

  /** No occurrence comes before the one `IndexOf` finds. */
  lemma FirstBefore(c: seq<char>, x: char, i: int)
    requires 0 <= i < |c| && c[i] == x
    ensures 0 <= IndexOf(c, x) <= i
  {
    var k := IndexOf(c, x);
    assert c[i] in c;
    assert forall m :: 0 <= m < k ==> c[..k][m] == c[m];
  }

  /** No occurrence comes after the one `LastIndexOf` finds. */
  lemma LastAfter(c: seq<char>, x: char, j: int)
    requires 0 <= j < |c| && c[j] == x
    ensures j <= LastIndexOf(c, x) < |c|
  {
    var k := LastIndexOf(c, x);
    assert c[j] in c;
    assert forall m :: k < m < |c| ==> c[k + 1..][m - k - 1] == c[m];
  }

  lemma CutAt(c: seq<char>, first: int, last: int)
    requires first == IndexOf(c, '{') && last == LastIndexOf(c, '}')
    requires 0 <= first < last
    ensures CutToBraces(c) == c[first..last + 1]
  {
  }

  /** With a brace pair, the cut runs from the first `{` to the last `}`,
      and no `{` comes before it and no `}` after it. */
  lemma BraceCut(c: seq<char>, first: int, last: int)
    requires HasBracePair(c)
    requires first == IndexOf(c, '{') && last == LastIndexOf(c, '}')
    ensures 0 <= first < last < |c|
    ensures CutToBraces(c) == c[first..last + 1]
    ensures '{' !in c[..first] && '}' !in c[last + 1..]
  {
    var i, j :| 0 <= i < j < |c| && c[i] == '{' && c[j] == '}';
    FirstBefore(c, '{', i);
    LastAfter(c, '}', j);
    CutAt(c, first, last);
  }

  /** The cut starts with `{` and ends with `}`. */
  lemma BraceCutEnds(c: seq<char>)
    requires HasBracePair(c)
    ensures var r := CutToBraces(c); |r| >= 2 && r[0] == '{' && r[|r| - 1] == '}'
  {
    var first := IndexOf(c, '{');
    var last := LastIndexOf(c, '}');
    BraceCut(c, first, last);
    var r := c[first..last + 1];
    assert r[0] == c[first] && r[|r| - 1] == c[last];
  }

  /** Without a brace pair the text is unchanged. */
  lemma NoBraceCut(c: seq<char>)
    requires !HasBracePair(c)
    ensures CutToBraces(c) == c
  {
    BracePairIndices(c);
  }

  /** `r` is a contiguous piece of `s`. */
  ghost predicate IsSliceOf(r: seq<char>, s: seq<char>) {
    exists i, j :: 0 <= i <= j <= |s| && r == s[i..j]
  }

  /** A slice of a slice is a slice. */
  lemma SliceOfSlice(r: seq<char>, m: seq<char>, s: seq<char>)
    requires IsSliceOf(r, m) && IsSliceOf(m, s)
    ensures IsSliceOf(r, s)
  {
    var a, b :| 0 <= a <= b <= |m| && r == m[a..b];
    var i, j :| 0 <= i <= j <= |s| && m == s[i..j];
    var t := s[i + a..i + b];
    forall x | 0 <= x < b - a
      ensures r[x] == t[x]
    {
      assert r[x] == m[a + x];
    }
    assert r == t;
  }

  lemma TrimSlice(s: seq<char>)
    ensures IsSliceOf(Trim(s), s)
  {
    var a := |s| - |DropWhile(s, IsWhitespace)|;
    assert Trim(s) == s[a..a + |Trim(s)|];
  }

  lemma FenceSlice(t: seq<char>)
    ensures IsSliceOf(StripFence(t), t)
  {
    if StartsWith(t, Fence) {
      FenceRule(t);
      var k, e :| FenceCut(t, k, e);
    } else {
      assert StripFence(t) == t[0..|t|];
    }
  }

  lemma CutSlice(c: seq<char>)
    ensures IsSliceOf(CutToBraces(c), c)
  {
    var first := IndexOf(c, '{');
    var last := LastIndexOf(c, '}');
    if !(first != -1 && last != -1 && last > first) {
      assert CutToBraces(c) == c[0..|c|];
    }
  }

  /** What `extractJson` returns is a contiguous piece of its input. */
  lemma ExtractJsonIsSlice(text: seq<char>)
    ensures IsSliceOf(ExtractJson(text), text)
  {
    var t := Trim(text);
    var f := StripFence(t);
    var c := CutToBraces(f);
    TrimSlice(text);
    FenceSlice(t);
    CutSlice(f);
    TrimSlice(c);
    SliceOfSlice(f, t, text);
    SliceOfSlice(c, f, text);
    SliceOfSlice(Trim(c), c, text);
  }

  /** A reply that already is a braced object, with no surrounding text,
      comes back unchanged. */
  lemma ExtractJsonBraced(b: seq<char>)
    requires |b| >= 2 && b[0] == '{' && b[|b| - 1] == '}'
    ensures ExtractJson(b) == b
  {
    BracedTrim(b);
    BracedUnfenced(b);
    BracedCut(b);
  }

  lemma BracedTrim(b: seq<char>)
    requires |b| >= 2 && b[0] == '{' && b[|b| - 1] == '}'
    ensures Trim(b) == b
  {
    StripNone(b);
  }

  lemma BracedUnfenced(b: seq<char>)
    requires |b| >= 2 && b[0] == '{'
    ensures StripFence(b) == b
  {
    if |b| >= 3 {
      assert b[..3][0] == '{';
    }
  }

  lemma BracedCut(b: seq<char>)
    requires |b| >= 2 && b[0] == '{' && b[|b| - 1] == '}'
    ensures CutToBraces(b) == b
  {
    assert IndexOf(b, '{') == 0;
    LastAfter(b, '}', |b| - 1);
    assert b[0..|b|] == b;
  }

  /** After the opening fence: the language tag and the line break go. */
  lemma FencedBody(lang: seq<char>, rest: seq<char>)
    requires All(lang, IsAsciiLetter)
    requires rest != [] && !IsWhitespace(rest[0])
    ensures DropWhile(DropWhile(lang + "\n" + rest, IsAsciiLetter), IsWhitespace) == rest
  {
    assert lang + "\n" + rest == lang + ("\n" + rest);
    LeadingRunOf(lang, "\n" + rest, IsAsciiLetter);
    LeadingRunOf("\n", rest, IsWhitespace);
  }

  /** The fence stage on a fenced block: what is left is the block's body
      with the line break before the closing fence. */
  lemma FencedStrip(lang: seq<char>, b: seq<char>)
    requires All(lang, IsAsciiLetter)
    requires b != [] && b[0] == '{'
    ensures StripFence(Trim(Fence + lang + "\n" + b + "\n" + Fence)) == b + "\n"
  {
    FencedTrim(Fence + lang + "\n" + b + "\n" + Fence);
    FencedUnfence(lang, b);
  }

  lemma FencedTrim(t: seq<char>)
    requires |t| >= 6 && t[..3] == Fence && t[|t| - 3..] == Fence
    ensures Trim(t) == t
  {
    assert t[0] == t[..3][0];
    assert t[|t| - 1] == t[|t| - 3..][2];
    StripNone(t);
  }

  lemma FencedUnfence(lang: seq<char>, b: seq<char>)
    requires All(lang, IsAsciiLetter)
    requires b != [] && b[0] == '{'
    ensures StripFence(Fence + lang + "\n" + b + "\n" + Fence) == b + "\n"
  {
    var t := Fence + lang + "\n" + b + "\n" + Fence;
    var rest := b + "\n" + Fence;
    var k := 3 + |lang| + 1;
    assert t[..3] == Fence;
    assert t[3..] == lang + "\n" + rest;
    assert t[k..] == rest;
    FencedBody(lang, rest);
    StripFenceAt(t, k);
    assert rest[|rest| - 3..] == Fence;
    assert rest[..|rest| - 3] == b + "\n";
  }

  /** The brace cut drops what follows the last `}`. */
  lemma CutTrailing(b: seq<char>, tail: seq<char>)
    requires |b| >= 2 && b[0] == '{' && b[|b| - 1] == '}' && '}' !in tail
    ensures CutToBraces(b + tail) == b
  {
    var f := b + tail;
    assert f[0] == '{';
    assert f[|b| - 1] == '}';
    assert forall i :: |b| <= i < |f| ==> f[i] == tail[i - |b|];
    LastAfter(f, '}', |b| - 1);
    CutAt(f, 0, |b| - 1);
    assert f[0..|b|] == b;
  }

  /** A braced object in a fenced block with a language tag comes out
      without the fence. */
  lemma ExtractJsonFenced(lang: seq<char>, b: seq<char>)
    requires All(lang, IsAsciiLetter)
    requires |b| >= 2 && b[0] == '{' && b[|b| - 1] == '}'
    ensures ExtractJson(Fence + lang + "\n" + b + "\n" + Fence) == b
  {
    FencedStrip(lang, b);
    CutTrailing(b, "\n");
    BracedTrim(b);
    ExtractJsonStages(Fence + lang + "\n" + b + "\n" + Fence, b + "\n", b);
  }

  lemma ExtractJsonStages(t: seq<char>, f: seq<char>, c: seq<char>)
    requires StripFence(Trim(t)) == f && CutToBraces(f) == c
    ensures ExtractJson(t) == Trim(c)
  {
  }

  /** A value as `JSON.parse` returns it. Object members keep their source
      order, duplicates included. */
  datatype Json =
    | JNull
    | JBool(b: bool)
    | JNumber(n: real)
    | JString(s: string)
    | JArray(items: seq<Json>)
    | JObject(members: seq<(string, Json)>)

  /** A property read `value.key`: the last member with that key, as
      `JSON.parse` keeps the last of duplicate keys; `None` stands for
      `undefined`, which is also what any non-object yields here. */
  function Get(value: Json, key: string): (r: Option<Json>)
    ensures r.Some? ==> value.JObject? && (key, r.value) in value.members
  {
    if value.JObject? then Member(value.members, key) else None
  }

  function Member(members: seq<(string, Json)>, key: string): (r: Option<Json>)
    ensures r.Some? ==> (key, r.value) in members
  {
    if members == [] then None
    else if members[|members| - 1].0 == key then Some(members[|members| - 1].1)
    else Member(members[..|members| - 1], key)
  }

  /** The member at `i` is read when no later member has its key. */
  lemma {:induction false} MemberAt(members: seq<(string, Json)>, i: int)
    requires 0 <= i < |members|
    requires forall k :: i < k < |members| ==> members[k].0 != members[i].0
    ensures Member(members, members[i].0) == Some(members[i].1)
  {
    if i < |members| - 1 {
      MemberAt(members[..|members| - 1], i);
    }
  }

  /** The string read at `key`, or `None` when it is absent or not a string. */
  function StringAt(value: Json, key: string): Option<string> {
    match Get(value, key)
    case Some(JString(s)) => Some(s)
    case _ => None
  }

  /** The number read at `key`, or `None`. */
  function NumberAt(value: Json, key: string): Option<real> {
    match Get(value, key)
    case Some(JNumber(n)) => Some(n)
    case _ => None
  }

  datatype NormalizedIngredient = NormalizedIngredient(name: string, amount: Option<real>, unit: Option<string>)

  /** `NormalizedRecipe`: `None` stands for `null`. */
  datatype NormalizedRecipe = NormalizedRecipe(
    title: string,
    description: Option<string>,
    timeMinutes: Option<real>,
    difficulty: Option<string>,
    ingredients: seq<NormalizedIngredient>,
    steps: seq<string>)

  predicate IsDifficulty(d: string) {
    d == "easy" || d == "medium" || d == "hard"
  }

  /** One entry of `parsed.ingredients`: `name` defaults to `""`, `amount`
      and `unit` to `null`, when missing or of the wrong type. */
  function CoerceIngredient(ing: Json): (r: NormalizedIngredient)
    ensures StringAt(ing, "name").None? ==> r.name == ""
    ensures StringAt(ing, "name").Some? ==> r.name == StringAt(ing, "name").value
    ensures r.amount == NumberAt(ing, "amount") && r.unit == StringAt(ing, "unit")
  {
    NormalizedIngredient(StringAt(ing, "name").GetOr(""), NumberAt(ing, "amount"), StringAt(ing, "unit"))
  }

  /** `parsed.ingredients.map(...)` */
  function CoerceIngredients(items: seq<Json>): (r: seq<NormalizedIngredient>)
    ensures |r| == |items|
    ensures forall k :: 0 <= k < |items| ==> r[k] == CoerceIngredient(items[k])
  {
    seq(|items|, k requires 0 <= k < |items| => CoerceIngredient(items[k]))
  }

  /** The difficulty is kept only when it is one of the three levels. */
  function CoerceDifficulty(d: Option<string>): (r: Option<string>)
    ensures r.Some? <==> d.Some? && IsDifficulty(d.value)
    ensures r.Some? ==> r == d
  {
    if d.Some? && IsDifficulty(d.value) then d else None
  }

  /** `String(s ?? "")` for one step; the conversion of a value that is
      neither a string nor `null` is the parameter `render`. */
  function StepText(step: Json, render: Json -> string): string {
    match step
    case JString(s) => s
    case JNull => ""
    case _ => render(step)
  }

  /** The steps: one text per entry when `steps` is an array, else none. */
  function CoerceSteps(steps: Option<Json>, render: Json -> string): (r: seq<string>)
    ensures !(steps.Some? && steps.value.JArray?) ==> r == []
    ensures steps.Some? && steps.value.JArray? ==>
      |r| == |steps.value.items| &&
      forall k :: 0 <= k < |steps.value.items| ==> r[k] == StepText(steps.value.items[k], render)
  {
    if steps.Some? && steps.value.JArray?
    then seq(|steps.value.items|, k requires 0 <= k < |steps.value.items| => StepText(steps.value.items[k], render))
    else []
  }

  /** The shape check and coercion after parsing: `None` unless the value has
      a string `title` and an array `ingredients`. */
  function CoerceRecipe(parsed: Json, render: Json -> string): (r: Option<NormalizedRecipe>)
    ensures r.Some? <==> StringAt(parsed, "title").Some? && Get(parsed, "ingredients").Some?
                         && Get(parsed, "ingredients").value.JArray?
  {
    var title := StringAt(parsed, "title");
    var ingredients := Get(parsed, "ingredients");
    if title.None? || ingredients.None? || !ingredients.value.JArray? then None
    else
      Some(NormalizedRecipe(
        title.value,
        StringAt(parsed, "description"),
        NumberAt(parsed, "timeMinutes"),
        CoerceDifficulty(StringAt(parsed, "difficulty")),
        CoerceIngredients(ingredients.value.items),
        CoerceSteps(Get(parsed, "steps"), render)))
  }

  /** The fields of a coerced recipe: the title; description and time only
      when correctly typed; a whitelisted difficulty; one ingredient per
      parsed entry, with its own defaults; and no steps unless `steps` is an
      array. */
  lemma CoerceRecipeFields(parsed: Json, render: Json -> string)
    requires CoerceRecipe(parsed, render).Some?
    ensures var n := CoerceRecipe(parsed, render).value;
      var items := Get(parsed, "ingredients").value.items;
      && n.title == StringAt(parsed, "title").value
      && n.description == StringAt(parsed, "description")
      && n.timeMinutes == NumberAt(parsed, "timeMinutes")
      && (n.difficulty.Some? <==> StringAt(parsed, "difficulty").Some? && IsDifficulty(StringAt(parsed, "difficulty").value))
      && (n.difficulty.Some? ==> n.difficulty == StringAt(parsed, "difficulty"))
      && |n.ingredients| == |items|
      && (forall k :: 0 <= k < |items| ==> n.ingredients[k] == CoerceIngredient(items[k]))
      && ((Get(parsed, "steps").None? || !Get(parsed, "steps").value.JArray?) ==> n.steps == [])
      && (Get(parsed, "steps").Some? && Get(parsed, "steps").value.JArray? ==>
            |n.steps| == |Get(parsed, "steps").value.items|)
  {
  }

  /** A normalised recipe written back as JSON. */
  function IngredientJson(i: NormalizedIngredient): Json {
    JObject([
      ("name", JString(i.name)),
      ("amount", if i.amount.Some? then JNumber(i.amount.value) else JNull),
      ("unit", if i.unit.Some? then JString(i.unit.value) else JNull)])
  }

  function IngredientsJson(ings: seq<NormalizedIngredient>): (r: seq<Json>)
    ensures |r| == |ings|
    ensures forall k :: 0 <= k < |ings| ==> r[k] == IngredientJson(ings[k])
  {
    seq(|ings|, k requires 0 <= k < |ings| => IngredientJson(ings[k]))
  }

  function StepsJson(steps: seq<string>): (r: seq<Json>)
    ensures |r| == |steps|
    ensures forall k :: 0 <= k < |steps| ==> r[k] == JString(steps[k])
  {
    seq(|steps|, k requires 0 <= k < |steps| => JString(steps[k]))
  }

  function RecipeJson(n: NormalizedRecipe): Json {
    JObject([
      ("title", JString(n.title)),
      ("description", if n.description.Some? then JString(n.description.value) else JNull),
      ("timeMinutes", if n.timeMinutes.Some? then JNumber(n.timeMinutes.value) else JNull),
      ("difficulty", if n.difficulty.Some? then JString(n.difficulty.value) else JNull),
      ("ingredients", JArray(IngredientsJson(n.ingredients))),
      ("steps", JArray(StepsJson(n.steps)))])
  }

  /** Reading members with the three ingredient keys, each present once. */
  lemma ReadIngredientKeys(ms: seq<(string, Json)>)
    requires |ms| == 3 && ms[0].0 == "name" && ms[1].0 == "amount" && ms[2].0 == "unit"
    ensures Member(ms, "name") == Some(ms[0].1) && Member(ms, "amount") == Some(ms[1].1)
    ensures Member(ms, "unit") == Some(ms[2].1)
  {
    MemberAt(ms, 0);
    MemberAt(ms, 1);
    MemberAt(ms, 2);
  }

  lemma IngredientRoundTrip(i: NormalizedIngredient)
    ensures CoerceIngredient(IngredientJson(i)) == i
  {
    ReadIngredientKeys(IngredientJson(i).members);
  }

  lemma IngredientsRoundTrip(ings: seq<NormalizedIngredient>)
    ensures CoerceIngredients(IngredientsJson(ings)) == ings
  {
    forall k | 0 <= k < |ings|
      ensures CoerceIngredients(IngredientsJson(ings))[k] == ings[k]
    {
      IngredientRoundTrip(ings[k]);
    }
  }

  lemma StepsRoundTrip(steps: seq<string>, render: Json -> string)
    ensures CoerceSteps(Some(JArray(StepsJson(steps))), render) == steps
  {
  }

  /** Reading members with the six recipe keys, each present once. */
  lemma ReadRecipeKeys(ms: seq<(string, Json)>)
    requires |ms| == 6
    requires ms[0].0 == "title" && ms[1].0 == "description" && ms[2].0 == "timeMinutes"
    requires ms[3].0 == "difficulty" && ms[4].0 == "ingredients" && ms[5].0 == "steps"
    ensures Member(ms, "title") == Some(ms[0].1) && Member(ms, "description") == Some(ms[1].1)
    ensures Member(ms, "timeMinutes") == Some(ms[2].1) && Member(ms, "difficulty") == Some(ms[3].1)
    ensures Member(ms, "ingredients") == Some(ms[4].1) && Member(ms, "steps") == Some(ms[5].1)
  {
    MemberAt(ms, 0);
    MemberAt(ms, 1);
    MemberAt(ms, 2);
    MemberAt(ms, 3);
    MemberAt(ms, 4);
    MemberAt(ms, 5);
  }

  /** Reading the members of a written recipe. */
  lemma RecipeJsonReads(n: NormalizedRecipe)
    ensures StringAt(RecipeJson(n), "title") == Some(n.title)
    ensures StringAt(RecipeJson(n), "description") == n.description
    ensures NumberAt(RecipeJson(n), "timeMinutes") == n.timeMinutes
    ensures StringAt(RecipeJson(n), "difficulty") == n.difficulty
    ensures Get(RecipeJson(n), "ingredients") == Some(JArray(IngredientsJson(n.ingredients)))
    ensures Get(RecipeJson(n), "steps") == Some(JArray(StepsJson(n.steps)))
  {
    ReadRecipeKeys(RecipeJson(n).members);
  }

  /** Every recipe the coercion can produce survives being written as JSON
      and coerced again. */
  lemma CoerceRoundTrip(n: NormalizedRecipe, render: Json -> string)
    requires n.difficulty.Some? ==> IsDifficulty(n.difficulty.value)
    ensures CoerceRecipe(RecipeJson(n), render) == Some(n)
  {
    RecipeJsonReads(n);
    IngredientsRoundTrip(n.ingredients);
    StepsRoundTrip(n.steps, render);
  }
}
