/** Character classes and the string edits the TypeScript sources perform with
    `trim`, `toLowerCase`, anchored `replace`, global `replace` of a character
    run, `indexOf`, `lastIndexOf` and `slice`. Strings are sequences of
    characters; lower-casing covers ASCII letters only. */
module Text {

  /** The characters that `String.prototype.trim` removes and that the regular
      expression class `\s` matches: ECMAScript WhiteSpace and LineTerminator. */
  predicate IsWhitespace(c: char) {
    || c == ' ' || c == '\t' || c == '\n' || c == '\r' || c == '\U{B}' || c == '\U{C}'
    || c == '\U{A0}' || c == '\U{1680}' || ('\U{2000}' <= c <= '\U{200A}')
    || c == '\U{2028}' || c == '\U{2029}' || c == '\U{202F}' || c == '\U{205F}'
    || c == '\U{3000}' || c == '\U{FEFF}'
  }

  predicate IsAsciiUpper(c: char) { 'A' <= c <= 'Z' }

  predicate IsAsciiLower(c: char) { 'a' <= c <= 'z' }

  predicate IsAsciiLetter(c: char) { IsAsciiUpper(c) || IsAsciiLower(c) }

  predicate IsAsciiDigit(c: char) { '0' <= c <= '9' }

  /** `toLowerCase` on one character, for the ASCII range. */
  function LowerChar(c: char): (d: char)
    ensures !IsAsciiUpper(d)
    ensures IsAsciiUpper(c) ==> IsAsciiLower(d) && d as int == c as int + 32
    ensures !IsAsciiUpper(c) ==> d == c
  {
    if IsAsciiUpper(c) then (c as int + 32) as char else c
  }

  /** `String.prototype.toLowerCase`, for the ASCII range. */
  function ToLower(s: seq<char>): (r: seq<char>)
    ensures |r| == |s|
  {
    if s == [] then [] else ToLower(s[..|s| - 1]) + [LowerChar(s[|s| - 1])]
  }

  lemma {:induction false} ToLowerAt(s: seq<char>)
    ensures forall i :: 0 <= i < |s| ==> ToLower(s)[i] == LowerChar(s[i])
  {
    if s != [] {
      ToLowerAt(s[..|s| - 1]);
    }
  }

  /** The length of the longest prefix of `s` in the class `p`. */
  function LeadingRun(s: seq<char>, p: char -> bool): (n: nat)
    ensures n <= |s|
    ensures n < |s| ==> !p(s[n])
  {
    if s != [] && p(s[0]) then 1 + LeadingRun(s[1..], p) else 0
  }

  /** Every character of the leading run is in the class. */
  lemma {:induction false} LeadingRunAll(s: seq<char>, p: char -> bool)
    ensures forall i :: 0 <= i < LeadingRun(s, p) ==> p(s[i])
  {
    if s != [] && p(s[0]) {
      LeadingRunAll(s[1..], p);
      assert forall i :: 1 <= i < |s| ==> s[i] == s[1..][i - 1];
    }
  }

  /** The length of the longest suffix of `s` in the class `p`. */
  function TrailingRun(s: seq<char>, p: char -> bool): (n: nat)
    ensures n <= |s|
    ensures n < |s| ==> !p(s[|s| - 1 - n])
  {
    if s != [] && p(s[|s| - 1]) then 1 + TrailingRun(s[..|s| - 1], p) else 0
  }

  lemma {:induction false} TrailingRunAll(s: seq<char>, p: char -> bool)
    ensures forall i :: |s| - TrailingRun(s, p) <= i < |s| ==> p(s[i])
  {
    if s != [] && p(s[|s| - 1]) {
      TrailingRunAll(s[..|s| - 1], p);
    }
  }

  /** A run of the class followed by a character outside it is exactly the
      leading run. */
  lemma {:induction false} LeadingRunOf(u: seq<char>, v: seq<char>, p: char -> bool)
    requires forall i :: 0 <= i < |u| ==> p(u[i])
    requires v == [] || !p(v[0])
    ensures LeadingRun(u + v, p) == |u|
  {
    if u != [] {
      assert (u + v)[1..] == u[1..] + v;
      LeadingRunOf(u[1..], v, p);
    } else {
      assert u + v == v;
    }
  }

  /** What `s.replace(/^X+/, "")` leaves, where X is the class `p`. */
  function DropWhile(s: seq<char>, p: char -> bool): (r: seq<char>)
    ensures r == [] || !p(r[0])
  {
    s[LeadingRun(s, p)..]
  }

  /** Everything `DropWhile` removed is in the class. */
  lemma DropWhileRemoved(s: seq<char>, p: char -> bool)
    ensures forall i :: 0 <= i < |s| - |DropWhile(s, p)| ==> p(s[i])
  {
    LeadingRunAll(s, p);
  }

  /** A leading character of the class is removed with the rest of the run. */
  lemma DropWhileStep(s: seq<char>, p: char -> bool)
    requires s != [] && p(s[0])
    ensures DropWhile(s, p) == DropWhile(s[1..], p)
  {
    assert s[1..][LeadingRun(s[1..], p)..] == s[1 + LeadingRun(s[1..], p)..];
  }

  /** What `s.replace(/X+$/, "")` leaves, where X is the class `p`. */
  function DropWhileEnd(s: seq<char>, p: char -> bool): (r: seq<char>)
    ensures r == [] || !p(r[|r| - 1])
  {
    s[..|s| - TrailingRun(s, p)]
  }

  /** Everything `DropWhileEnd` removed is in the class. */
  lemma DropWhileEndRemoved(s: seq<char>, p: char -> bool)
    ensures forall i :: |DropWhileEnd(s, p)| <= i < |s| ==> p(s[i])
  {
    TrailingRunAll(s, p);
  }

  /** `s.replace(/^X+/, "").replace(/X+$/, "")`, where X is the class `p`. */
  function Strip(s: seq<char>, p: char -> bool): (r: seq<char>)
    ensures |s| - |DropWhile(s, p)| + |r| <= |s|
    ensures r == s[|s| - |DropWhile(s, p)|..|s| - |DropWhile(s, p)| + |r|]
    ensures r == [] || (!p(r[0]) && !p(r[|r| - 1]))
  {
    DropWhileEnd(DropWhile(s, p), p)
  }

  /** Stripping leaves nothing exactly when every character is in the class. */
  lemma StripEmpty(s: seq<char>, p: char -> bool)
    ensures Strip(s, p) == [] <==> forall i :: 0 <= i < |s| ==> p(s[i])
  {
    var d := DropWhile(s, p);
    DropWhileRemoved(s, p);
    DropWhileEndRemoved(d, p);
    assert forall i :: |s| - |d| <= i < |s| ==> s[i] == d[i - (|s| - |d|)];
  }

  /** Every character is in the class `q`. */
  ghost predicate All(s: seq<char>, q: char -> bool) {
    forall i :: 0 <= i < |s| ==> q(s[i])
  }

  lemma AllDropWhile(s: seq<char>, p: char -> bool, q: char -> bool)
    requires All(s, q)
    ensures All(DropWhile(s, p), q) && All(DropWhileEnd(s, p), q)
  {
    var d := DropWhile(s, p);
    assert forall i :: 0 <= i < |d| ==> d[i] == s[|s| - |d| + i];
  }

  /** `String.prototype.trim`. */
  /** Text with no whitespace at either end. */
  predicate Trimmed(r: seq<char>) {
    r == [] || (!IsWhitespace(r[0]) && !IsWhitespace(r[|r| - 1]))
  }

  function Trim(s: seq<char>): (r: seq<char>)
    ensures Trimmed(r)
  {
    Strip(s, IsWhitespace)
  }

  /** What `s.replace(/X+/g, sub)` gives, where X is the class `p`: every maximal
      run of characters in `p` becomes the single character `sub`. */
  function CollapseRuns(s: seq<char>, p: char -> bool, sub: char): (t: seq<char>)
    ensures |t| <= |s|
    ensures (t == []) == (s == [])
    ensures s != [] ==> t[0] == (if p(s[0]) then sub else s[0])
    ensures s != [] ==> t[|t| - 1] == (if p(s[|s| - 1]) then sub else s[|s| - 1])
    decreases |s|
  {
    if s == [] then []
    else if p(s[0]) then
      var d := DropWhile(s, p);
      DropWhileRemoved(s, p);
      assert d != [] ==> d[|d| - 1] == s[|s| - 1];
      [sub] + CollapseRuns(d, p, sub)
    else
      [s[0]] + CollapseRuns(s[1..], p, sub)
  }

  /** In the collapsed string every character of the class is `sub`, and no two
      characters of the class are adjacent. */
  lemma {:induction false} CollapseRunsShape(s: seq<char>, p: char -> bool, sub: char)
    ensures var t := CollapseRuns(s, p, sub);
      && (forall i :: 0 <= i < |t| ==> t[i] == sub || !p(t[i]))
      && (forall i :: 0 <= i < |t| - 1 ==> !(p(t[i]) && p(t[i + 1])))
    decreases |s|
  {
    if s == [] {
    } else if p(s[0]) {
      var d := DropWhile(s, p);
      CollapseRunsShape(d, p, sub);
      assert CollapseRuns(s, p, sub) == [sub] + CollapseRuns(d, p, sub);
    } else {
      CollapseRunsShape(s[1..], p, sub);
      assert CollapseRuns(s, p, sub) == [s[0]] + CollapseRuns(s[1..], p, sub);
    }
  }

  /** Every whitespace character is a plain space and no two spaces are
      adjacent. */
  ghost predicate SingleSpaced(t: seq<char>) {
    && (forall i :: 0 <= i < |t| ==> IsWhitespace(t[i]) ==> t[i] == ' ')
    && (forall i :: 0 <= i < |t| - 1 ==> !(t[i] == ' ' && t[i + 1] == ' '))
  }

  /** `s.replace(/\s+/g, " ")` is single-spaced. */
  lemma WhitespaceCollapsed(s: seq<char>)
    ensures SingleSpaced(CollapseRuns(s, IsWhitespace, ' '))
  {
    CollapseRunsShape(s, IsWhitespace, ' ');
    assert IsWhitespace(' ');
  }

  /** Any class of characters that holds of every character of `s` and of
      `sub` holds of every character of the collapsed string. */
  lemma {:induction false} CollapseRunsKeeps(s: seq<char>, p: char -> bool, sub: char, q: char -> bool)
    requires q(sub)
    requires All(s, q)
    ensures All(CollapseRuns(s, p, sub), q)
    decreases |s|
  {
    if s == [] {
    } else if p(s[0]) {
      var d := DropWhile(s, p);
      forall i | 0 <= i < |d| ensures q(d[i]) {
        assert d[i] == s[|s| - |d| + i];
      }
      CollapseRunsKeeps(d, p, sub, q);
      var rest := CollapseRuns(d, p, sub);
      assert CollapseRuns(s, p, sub) == [sub] + rest;
    } else {
      forall i | 0 <= i < |s| - 1 ensures q(s[1..][i]) {
        assert s[1..][i] == s[i + 1];
      }
      CollapseRunsKeeps(s[1..], p, sub, q);
      var rest := CollapseRuns(s[1..], p, sub);
      assert CollapseRuns(s, p, sub) == [s[0]] + rest;
    }
  }

  predicate StartsWith(s: seq<char>, prefix: seq<char>) {
    |prefix| <= |s| && s[..|prefix|] == prefix
  }

  predicate EndsWith(s: seq<char>, suffix: seq<char>) {
    |suffix| <= |s| && s[|s| - |suffix|..] == suffix
  }

  /** `String.prototype.indexOf` for one character: -1 when absent. */
  function IndexOf(s: seq<char>, c: char): (k: int)
    ensures -1 <= k < |s|
    ensures k == -1 <==> c !in s
    ensures 0 <= k ==> s[k] == c && c !in s[..k]
  {
    if s == [] then -1
    else if s[0] == c then 0
    else
      var k := IndexOf(s[1..], c);
      assert s[1..][..if k < 0 then 0 else k] == s[1..if k < 0 then 1 else k + 1];
      if k == -1 then -1 else k + 1
  }

  /** `String.prototype.lastIndexOf` for one character: -1 when absent. */
  function LastIndexOf(s: seq<char>, c: char): (k: int)
    ensures -1 <= k < |s|
    ensures k == -1 <==> c !in s
    ensures 0 <= k ==> s[k] == c && c !in s[k + 1..]
  {
    if s == [] then -1
    else if s[|s| - 1] == c then |s| - 1
    else
      var k := LastIndexOf(s[..|s| - 1], c);
      assert s == s[..|s| - 1] + [s[|s| - 1]];
      if k == -1 then -1 else k
  }

  /** `s.slice(0, n)` for a non-negative `n`. */
  function Prefix(s: seq<char>, n: nat): (r: seq<char>)
    ensures |r| == if n < |s| then n else |s|
    ensures r == s[..|r|]
  {
    if n < |s| then s[..n] else s
  }

  /** Text that does not start in the class loses nothing at the front. */
  lemma DropWhileNone(s: seq<char>, p: char -> bool)
    requires s == [] || !p(s[0])
    ensures DropWhile(s, p) == s
  {
    assert LeadingRun(s, p) == 0;
  }

  /** Text that does not end in the class loses nothing at the back. */
  lemma DropWhileEndNone(s: seq<char>, p: char -> bool)
    requires s == [] || !p(s[|s| - 1])
    ensures DropWhileEnd(s, p) == s
  {
    assert TrailingRun(s, p) == 0;
  }

  /** Trimming text with no whitespace at either end changes nothing. */
  lemma StripNone(s: seq<char>)
    requires s != [] && !IsWhitespace(s[0]) && !IsWhitespace(s[|s| - 1])
    ensures Trim(s) == s
  {
    DropWhileNone(s, IsWhitespace);
    DropWhileEndNone(s, IsWhitespace);
  }

  /** `toLowerCase` leaves a string without upper-case letters as it is. */
  lemma ToLowerKeeps(s: seq<char>)
    requires forall i :: 0 <= i < |s| ==> !IsAsciiUpper(s[i])
    ensures ToLower(s) == s
  {
    ToLowerAt(s);
  }

  /** Collapsing changes nothing when every character of the class is
      already `sub` and no two of them are adjacent. */
  lemma {:induction false} CollapseRunsKeepsShape(s: seq<char>, p: char -> bool, sub: char)
    requires forall i :: 0 <= i < |s| ==> p(s[i]) ==> s[i] == sub
    requires forall i :: 0 <= i < |s| - 1 ==> !(p(s[i]) && p(s[i + 1]))
    ensures CollapseRuns(s, p, sub) == s
    decreases |s|
  {
    if s != [] {
      var t := s[1..];
      assert forall i :: 0 <= i < |t| ==> t[i] == s[i + 1];
      CollapseRunsKeepsShape(t, p, sub);
      if p(s[0]) {
        assert LeadingRun(t, p) == 0;
        assert DropWhile(s, p) == t;
      }
      assert s == [s[0]] + t;
    }
  }

  /** The characters of `s` outside the class `p`, in order. */
  function Outside(s: seq<char>, p: char -> bool): (r: seq<char>)
    ensures |r| <= |s|
  {
    if s == [] then [] else (if p(s[0]) then [] else [s[0]]) + Outside(s[1..], p)
  }

  lemma {:induction false} OutsideAppend(a: seq<char>, b: seq<char>, p: char -> bool)
    ensures Outside(a + b, p) == Outside(a, p) + Outside(b, p)
    decreases |a|
  {
    if a != [] {
      var x := if p(a[0]) then [] else [a[0]];
      assert (a + b)[0] == a[0] && (a + b)[1..] == a[1..] + b;
      assert Outside(a + b, p) == x + Outside(a[1..] + b, p);
      OutsideAppend(a[1..], b, p);
      assert Outside(a, p) == x + Outside(a[1..], p);
    } else {
      assert a + b == b;
    }
  }

  lemma {:induction false} OutsideNone(s: seq<char>, p: char -> bool)
    requires All(s, p)
    ensures Outside(s, p) == []
    decreases |s|
  {
    if s != [] {
      OutsideNone(s[1..], p);
    }
  }

  /** Removing a leading run of a class `q` that lies within the class `p`
      keeps everything outside `p`. */
  lemma {:induction false} OutsideDropWhile(s: seq<char>, q: char -> bool, p: char -> bool)
    requires forall i :: 0 <= i < |s| ==> q(s[i]) ==> p(s[i])
    ensures Outside(DropWhile(s, q), p) == Outside(s, p)
  {
    var d := DropWhile(s, q);
    var u := s[..|s| - |d|];
    DropWhileRemoved(s, q);
    assert All(u, p);
    assert s == u + d;
    OutsideAppend(u, d, p);
    OutsideNone(u, p);
  }

  /** The same for a trailing run. */
  lemma {:induction false} OutsideDropWhileEnd(s: seq<char>, q: char -> bool, p: char -> bool)
    requires forall i :: 0 <= i < |s| ==> q(s[i]) ==> p(s[i])
    ensures Outside(DropWhileEnd(s, q), p) == Outside(s, p)
  {
    var e := DropWhileEnd(s, q);
    var v := s[|e|..];
    assert s == e + v;
    DropWhileEndRemoved(s, q);
    forall i | 0 <= i < |v|
      ensures p(v[i])
    {
      assert v[i] == s[|e| + i];
    }
    OutsideAppend(e, v, p);
    OutsideNone(v, p);
  }

  /** The run replacement keeps every character outside the class, in
      order, and adds none: only runs of the class are rewritten. */
  lemma {:induction false} CollapseRunsOutside(s: seq<char>, p: char -> bool, sub: char)
    requires p(sub)
    ensures Outside(CollapseRuns(s, p, sub), p) == Outside(s, p)
    decreases |s|
  {
    if s == [] {
    } else if p(s[0]) {
      var d := DropWhile(s, p);
      var t := CollapseRuns(d, p, sub);
      CollapseRunsOutside(d, p, sub);
      OutsideDropWhile(s, p, p);
      assert ([sub] + t)[1..] == t;
    } else {
      var t := CollapseRuns(s[1..], p, sub);
      CollapseRunsOutside(s[1..], p, sub);
      assert ([s[0]] + t)[1..] == t;
    }
  }

  /** Appending a character leaves the dropped run as it was, unless the
      whole text is in the class. */
  lemma DropWhileSnoc(s: seq<char>, c: char, p: char -> bool)
    ensures DropWhile(s + [c], p) == if DropWhile(s, p) == [] then DropWhile([c], p) else DropWhile(s, p) + [c]
  {
    var k := LeadingRun(s, p);
    LeadingRunAll(s, p);
    var u := s[..k];
    assert forall i :: 0 <= i < |u| ==> p(u[i]);
    if k < |s| {
      assert s + [c] == u + (s[k..] + [c]);
      LeadingRunOf(u, s[k..] + [c], p);
    } else if !p(c) {
      assert s + [c] == u + [c];
      LeadingRunOf(u, [c], p);
    } else {
      assert s + [c] == (u + [c]) + [];
      LeadingRunOf(u + [c], [], p);
    }
  }

  /** The run replacement as a left-to-right scan: a character of the class
      writes `sub` unless the character before it was in the class too; any
      other character is copied. */
  function Collapsed(s: seq<char>, p: char -> bool, sub: char): (t: seq<char>)
    ensures |t| <= |s|
  {
    if s == [] then []
    else
      var front := s[..|s| - 1];
      var c := s[|s| - 1];
      if !p(c) then Collapsed(front, p, sub) + [c]
      else if front != [] && p(front[|front| - 1]) then Collapsed(front, p, sub)
      else Collapsed(front, p, sub) + [sub]
  }

  /** What one more character does to the replacement, as the scan says. */
  function SnocCollapsed(r: seq<char>, s: seq<char>, c: char, p: char -> bool, sub: char): seq<char> {
    if !p(c) then r + [c]
    else if s != [] && p(s[|s| - 1]) then r
    else r + [sub]
  }

  /** A text wholly in the class is replaced by one `sub`. */
  lemma CollapseRunsOfRun(s: seq<char>, p: char -> bool, sub: char)
    requires s != [] && p(s[0]) && DropWhile(s, p) == []
    ensures CollapseRuns(s, p, sub) == [sub]
  {
  }

  /** A text starting with a character outside the class copies it. */
  lemma CollapseRunsCopy(s: seq<char>, p: char -> bool, sub: char)
    requires s != [] && !p(s[0])
    ensures CollapseRuns(s, p, sub) == [s[0]] + CollapseRuns(s[1..], p, sub)
  {
  }

  /** A text starting in the class writes `sub` for its leading run. */
  lemma CollapseRunsRun(s: seq<char>, p: char -> bool, sub: char)
    requires s != [] && p(s[0])
    ensures CollapseRuns(s, p, sub) == [sub] + CollapseRuns(DropWhile(s, p), p, sub)
  {
  }

  /** One more character extends the replacement as the scan does. */
  lemma {:induction false} CollapseRunsSnoc(s: seq<char>, c: char, p: char -> bool, sub: char)
    ensures CollapseRuns(s + [c], p, sub) == SnocCollapsed(CollapseRuns(s, p, sub), s, c, p, sub)
    decreases |s|, 2
  {
    if s == [] {
      assert [] + [c] == [c];
      SingleCollapsed(c, p, sub);
    } else if p(s[0]) {
      RunSnoc(s, c, p, sub);
    } else {
      CopySnoc(s, c, p, sub);
    }
  }

  /** The replacement of a single character. */
  lemma SingleCollapsed(c: char, p: char -> bool, sub: char)
    ensures CollapseRuns([c], p, sub) == (if p(c) then [sub] else [c])
  {
    if p(c) {
      DropWhileStep([c], p);
      CollapseRunsOfRun([c], p, sub);
    } else {
      CollapseRunsCopy([c], p, sub);
    }
  }

  /** `CollapseRunsSnoc` for a text starting outside the class. */
  lemma {:induction false} CopySnoc(s: seq<char>, c: char, p: char -> bool, sub: char)
    requires s != [] && !p(s[0])
    ensures CollapseRuns(s + [c], p, sub) == SnocCollapsed(CollapseRuns(s, p, sub), s, c, p, sub)
    decreases |s|, 1
  {
    var t := s[1..];
    CopyPrefixSnoc(s, c, p, sub);
    CollapseRunsSnoc(t, c, p, sub);
    CollapseRunsCopy(s, p, sub);
    SnocCollapsedCons(s[0], CollapseRuns(t, p, sub), t, s, c, p, sub);
  }

  /** A character outside the class stays in front when a character is
      added at the end. */
  lemma CopyPrefixSnoc(s: seq<char>, c: char, p: char -> bool, sub: char)
    requires s != [] && !p(s[0])
    ensures CollapseRuns(s + [c], p, sub) == [s[0]] + CollapseRuns(s[1..] + [c], p, sub)
    ensures s[1..] != [] ==> s[1..][|s[1..]| - 1] == s[|s| - 1]
  {
    assert (s + [c])[1..] == s[1..] + [c];
    CollapseRunsCopy(s + [c], p, sub);
  }

  /** `CollapseRunsSnoc` for a text starting in the class. */
  lemma {:induction false} RunSnoc(s: seq<char>, c: char, p: char -> bool, sub: char)
    requires s != [] && p(s[0])
    ensures CollapseRuns(s + [c], p, sub) == SnocCollapsed(CollapseRuns(s, p, sub), s, c, p, sub)
    decreases |s|, 1
  {
    if DropWhile(s, p) == [] {
      WholeRunSnoc(s, c, p, sub);
    } else {
      RunThenRestSnoc(s, c, p, sub);
    }
  }

  /** `RunSnoc` for a text wholly in the class. */
  lemma WholeRunSnoc(s: seq<char>, c: char, p: char -> bool, sub: char)
    requires s != [] && p(s[0]) && DropWhile(s, p) == []
    ensures CollapseRuns(s + [c], p, sub) == SnocCollapsed(CollapseRuns(s, p, sub), s, c, p, sub)
  {
    DropWhileSnoc(s, c, p);
    DropWhileRemoved(s, p);
    assert p(s[|s| - 1]);
    CollapseRunsOfRun(s, p, sub);
    CollapseRunsRun(s + [c], p, sub);
    if p(c) {
      DropWhileStep([c], p);
    } else {
      DropWhileNone([c], p);
      CollapseRunsCopy([c], p, sub);
    }
  }

  /** `RunSnoc` for a leading run followed by more text. */
  lemma {:induction false} RunThenRestSnoc(s: seq<char>, c: char, p: char -> bool, sub: char)
    requires s != [] && p(s[0]) && DropWhile(s, p) != []
    ensures CollapseRuns(s + [c], p, sub) == SnocCollapsed(CollapseRuns(s, p, sub), s, c, p, sub)
    decreases |s|, 0
  {
    var d := DropWhile(s, p);
    RunPrefixSnoc(s, c, p, sub);
    CollapseRunsSnoc(d, c, p, sub);
    CollapseRunsRun(s, p, sub);
    SnocCollapsedCons(sub, CollapseRuns(d, p, sub), d, s, c, p, sub);
  }

  /** A leading run followed by more text stays one run when a character is
      added at the end. */
  lemma RunPrefixSnoc(s: seq<char>, c: char, p: char -> bool, sub: char)
    requires s != [] && p(s[0]) && DropWhile(s, p) != []
    ensures CollapseRuns(s + [c], p, sub) == [sub] + CollapseRuns(DropWhile(s, p) + [c], p, sub)
    ensures DropWhile(s, p)[|DropWhile(s, p)| - 1] == s[|s| - 1]
  {
    DropWhileSnoc(s, c, p);
    CollapseRunsRun(s + [c], p, sub);
  }

  /** The scan step commutes with writing `sub` in front. */
  lemma {:induction false} SnocCollapsedCons(x: char, r: seq<char>, d: seq<char>, s: seq<char>, c: char, p: char -> bool, sub: char)
    requires s != [] && (if d == [] then !p(s[|s| - 1]) else d[|d| - 1] == s[|s| - 1])
    ensures [x] + SnocCollapsed(r, d, c, p, sub) == SnocCollapsed([x] + r, s, c, p, sub)
  {
    if !p(c) {
      assert [x] + (r + [c]) == ([x] + r) + [c];
    } else if !p(s[|s| - 1]) {
      assert [x] + (r + [sub]) == ([x] + r) + [sub];
    }
  }

  /** The replacement the regular expression performs is the scan. */
  lemma {:induction false} CollapseRunsScan(s: seq<char>, p: char -> bool, sub: char)
    ensures CollapseRuns(s, p, sub) == Collapsed(s, p, sub)
    decreases |s|
  {
    if s != [] {
      var front := s[..|s| - 1];
      CollapseRunsScan(front, p, sub);
      assert front + [s[|s| - 1]] == s;
      CollapseRunsSnoc(front, s[|s| - 1], p, sub);
      assert Collapsed(s, p, sub) == SnocCollapsed(Collapsed(front, p, sub), front, s[|s| - 1], p, sub);
    }
  }
}
