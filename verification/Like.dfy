/** LIKE escaping (src/hookguard_console/store/_base.py) against the meaning of SQL's LIKE with
  * ESCAPE '\' (SQL-92 section 8.5), with the ASCII case folding SQLite applies. */
module Like {
  import opened Text

  /** `s.replace(c, by)` for a one-character needle. */
  function Replace(s: string, c: char, replacement: string): string {
    if s == "" then ""
    else (if s[0] == c then replacement else [s[0]]) + Replace(s[1..], c, replacement)
  }

  /** `like_escape`: three replacements, one after the other, the backslash first. */
  function LikeEscape(s: string): string {
    Replace(Replace(Replace(s, '\\', ['\\', '\\']), '%', ['\\', '%']), '_', ['\\', '_'])
  }

  predicate IsMeta(c: char) {
    c == '\\' || c == '%' || c == '_'
  }

  function EscapeChar(c: char): string {
    if IsMeta(c) then ['\\', c] else [c]
  }

  /** One pass: a backslash in front of every metacharacter. */
  function EscapeEach(s: string): string {
    if s == "" then "" else EscapeChar(s[0]) + EscapeEach(s[1..])
  }

  lemma {:induction false} ReplaceAppend(a: string, b: string, c: char, replacement: string)
    ensures Replace(a + b, c, replacement) == Replace(a, c, replacement) + Replace(b, c, replacement)
  {
    if a == "" {
      assert a + b == b;
    } else {
      assert (a + b)[1..] == a[1..] + b;
      ReplaceAppend(a[1..], b, c, replacement);
    }
  }

  lemma ReplaceChar(x: char, c: char, replacement: string)
    ensures Replace([x], c, replacement) == if x == c then replacement else [x]
  {
    assert [x][1..] == "";
  }

  lemma ReplacePair(x: char, y: char, c: char, replacement: string)
    ensures Replace([x, y], c, replacement)
            == (if x == c then replacement else [x]) + (if y == c then replacement else [y])
  {
    assert [x, y] == [x] + [y];
    ReplaceAppend([x], [y], c, replacement);
    ReplaceChar(x, c, replacement);
    ReplaceChar(y, c, replacement);
  }

  lemma EscapeOfChar(c: char)
    ensures LikeEscape([c]) == EscapeChar(c)
  {
    ReplaceChar(c, '\\', ['\\', '\\']);
    if c == '\\' {
      ReplacePair('\\', '\\', '%', ['\\', '%']);
      ReplacePair('\\', '\\', '_', ['\\', '_']);
    } else {
      ReplaceChar(c, '%', ['\\', '%']);
      ReplacePair('\\', '%', '_', ['\\', '_']);
      ReplaceChar(c, '_', ['\\', '_']);
    }
  }

  lemma LikeEscapeAppend(a: string, b: string)
    ensures LikeEscape(a + b) == LikeEscape(a) + LikeEscape(b)
  {
    var a1, b1 := Replace(a, '\\', ['\\', '\\']), Replace(b, '\\', ['\\', '\\']);
    ReplaceAppend(a, b, '\\', ['\\', '\\']);
    ReplaceAppend(a1, b1, '%', ['\\', '%']);
    ReplaceAppend(Replace(a1, '%', ['\\', '%']), Replace(b1, '%', ['\\', '%']), '_', ['\\', '_']);
  }

  /** The three sequential replacements are one escape of each character: no replacement disturbs
    * what an earlier one wrote. */
  lemma {:induction false} EscapeIsPerCharacter(s: string)
    ensures LikeEscape(s) == EscapeEach(s)
  {
    if s == "" {
    } else {
      EscapeIsPerCharacter(s[1..]);
      EscapeOfChar(s[0]);
      LikeEscapeAppend([s[0]], s[1..]);
      assert s == [s[0]] + s[1..];
    }
  }

  // ---------------------------------------------------------------- LIKE

  /** Whether `x LIKE pattern ESCAPE '\'`. */
  predicate Matches(pattern: string, x: string)
    decreases |pattern|, |x|
  {
    if pattern == "" then x == ""
    else if pattern[0] == '%' then Matches(pattern[1..], x) || (x != "" && Matches(pattern, x[1..]))
    else if pattern[0] == '_' then x != "" && Matches(pattern[1..], x[1..])
    else if pattern[0] == '\\' then
      |pattern| >= 2 && x != "" && LowerChar(pattern[1]) == LowerChar(x[0]) && Matches(pattern[2..], x[1..])
    else x != "" && LowerChar(pattern[0]) == LowerChar(x[0]) && Matches(pattern[1..], x[1..])
  }

  /** The three metacharacters, and a plain character. */
  lemma MetaMeaning(c: char, x: string)
    ensures Matches("%", x)
    ensures Matches("_", x) <==> |x| == 1
    ensures Matches(['\\', c], x) <==> |x| == 1 && LowerChar(x[0]) == LowerChar(c)
    ensures c !in {'%', '_', '\\'} ==> (Matches([c], x) <==> |x| == 1 && LowerChar(x[0]) == LowerChar(c))
  {
    PercentMatchesAll(x);
    assert x != "" ==> (x[1..] == "" <==> |x| == 1);
    assert ['\\', c][2..] == "" && [c][1..] == "" && "_"[1..] == "";
  }

  lemma {:induction false} PercentMatchesAll(x: string)
    ensures Matches("%", x)
  {
    if x == "" {
    } else {
      PercentMatchesAll(x[1..]);
    }
  }

  /** A leading percent sign skips any number of characters. */
  lemma {:induction false} PercentSkips(rest: string, x: string)
    ensures Matches(['%'] + rest, x) <==> exists i :: 0 <= i <= |x| && Matches(rest, x[i..])
  {
    var pattern := ['%'] + rest;
    assert pattern[0] == '%' && pattern[1..] == rest;
    assert x[0..] == x;
    if x == "" {
    } else {
      PercentSkips(rest, x[1..]);
      assert forall i :: 0 <= i <= |x[1..]| ==> x[1..][i..] == x[i + 1..];
      if exists i :: 0 <= i <= |x| && Matches(rest, x[i..]) {
        var i :| 0 <= i <= |x| && Matches(rest, x[i..]);
        assert i > 0 ==> x[1..][i - 1..] == x[i..];
      }
      if exists i :: 0 <= i <= |x[1..]| && Matches(rest, x[1..][i..]) {
        var i :| 0 <= i <= |x[1..]| && Matches(rest, x[1..][i..]);
        assert x[i + 1..] == x[1..][i..];
      }
    }
  }

  /** An escaped character matches that character and no other, up to case. */
  lemma EscapedCharMatches(c: char, rest: string, x: string)
    ensures Matches(EscapeChar(c) + rest, x)
            <==> x != "" && LowerChar(c) == LowerChar(x[0]) && Matches(rest, x[1..])
  {
    var pattern := EscapeChar(c) + rest;
    if IsMeta(c) {
      assert pattern[0] == '\\' && pattern[1] == c && pattern[2..] == rest;
    } else {
      assert pattern[0] == c && pattern[1..] == rest;
    }
  }

  /** Up to case, `x` starts with `s`. */
  ghost predicate FoldPrefix(s: string, x: string) {
    |s| <= |x| && forall i :: 0 <= i < |s| ==> LowerChar(s[i]) == LowerChar(x[i])
  }

  lemma FoldPrefixCons(s: string, x: string)
    requires s != ""
    ensures FoldPrefix(s, x) <==> x != "" && LowerChar(s[0]) == LowerChar(x[0]) && FoldPrefix(s[1..], x[1..])
  {
    if x != "" && LowerChar(s[0]) == LowerChar(x[0]) && FoldPrefix(s[1..], x[1..]) {
      forall i | 0 <= i < |s|
        ensures LowerChar(s[i]) == LowerChar(x[i])
      {
        if i > 0 {
          assert s[1..][i - 1] == s[i] && x[1..][i - 1] == x[i];
        }
      }
    }
  }

  lemma FoldPrefixOccurs(s: string, x: string, i: nat)
    requires i <= |x|
    ensures FoldPrefix(s, x[i..]) <==> OccursAt(Lower(x), Lower(s), i)
  {
    if i + |s| <= |x| {
      var there := Lower(x)[i..i + |s|];
      assert forall k :: 0 <= k < |s| ==> there[k] == LowerChar(x[i..][k]) && Lower(s)[k] == LowerChar(s[k]);
      if FoldPrefix(s, x[i..]) {
        assert there == Lower(s);
      }
    }
  }

  lemma {:induction false} EscapedPrefix(s: string, x: string)
    ensures Matches(EscapeEach(s) + ['%'], x) <==> FoldPrefix(s, x)
  {
    if s == "" {
      assert EscapeEach(s) + ['%'] == "%";
      PercentMatchesAll(x);
    } else {
      var rest := EscapeEach(s[1..]) + ['%'];
      assert EscapeEach(s) + ['%'] == EscapeChar(s[0]) + rest;
      EscapedCharMatches(s[0], rest, x);
      FoldPrefixCons(s, x);
      if x != "" {
        EscapedPrefix(s[1..], x[1..]);
      }
    }
  }

  /** The pattern the store builds for "contains `s`". */
  function SubstringPattern(s: string): string {
    ['%'] + (LikeEscape(s) + ['%'])
  }

  /** It matches exactly the texts that contain `s` literally, up to ASCII case: no metacharacter of
    * `s` acts as one. */
  lemma PatternMeansSubstring(s: string, x: string)
    ensures Matches(SubstringPattern(s), x) <==> Contains(Lower(x), Lower(s))
  {
    EscapeIsPerCharacter(s);
    var rest := EscapeEach(s) + ['%'];
    PercentSkips(rest, x);
    forall i | 0 <= i <= |x|
      ensures Matches(rest, x[i..]) <==> OccursAt(Lower(x), Lower(s), i)
    {
      EscapedPrefix(s, x[i..]);
      FoldPrefixOccurs(s, x, i);
    }
    if Contains(Lower(x), Lower(s)) {
      var i :| 0 <= i <= |Lower(x)| && OccursAt(Lower(x), Lower(s), i);
      assert Matches(rest, x[i..]);
    }
  }

  lemma ContainsFolded(s: string, x: string)
    requires Contains(x, s)
    ensures Contains(Lower(x), Lower(s))
  {
    var i :| 0 <= i <= |x| && OccursAt(x, s, i);
    assert Lower(x)[i..i + |s|] == Lower(x[i..i + |s|]);
    assert OccursAt(Lower(x), Lower(s), i);
  }

  // ---------------------------------------------------------------- texts that case does not change

  predicate IsLetter(c: char) {
    'A' <= c <= 'Z' || 'a' <= c <= 'z'
  }

  predicate HasLetter(s: string) {
    exists i :: 0 <= i < |s| && IsLetter(s[i])
  }

  function SwapChar(c: char): char {
    if 'a' <= c <= 'z' then (c as int - 32) as char else LowerChar(c)
  }

  function SwapCase(s: string): string {
    seq(|s|, i requires 0 <= i < |s| => SwapChar(s[i]))
  }

  lemma ContainsItself(s: string)
    ensures Contains(s, s)
  {
    assert s[0..0 + |s|] == s;
    assert OccursAt(s, s, 0);
  }

  /** Swapping the case of every letter leaves a text that folds alike, and is not found in it when it
    * has a letter. */
  lemma SwapCaseFacts(s: string)
    ensures Lower(SwapCase(s)) == Lower(s)
    ensures HasLetter(s) ==> !Contains(SwapCase(s), s)
  {
    if Contains(SwapCase(s), s) {
      var i :| 0 <= i <= |s| && OccursAt(SwapCase(s), s, i);
      assert SwapCase(s)[i..i + |s|] == SwapCase(s);
      assert forall k :: 0 <= k < |s| ==> SwapChar(s[k]) == SwapCase(s)[k];
    }
  }

  /** Without letters, folding makes no difference to where a text is found. */
  lemma CaselessContains(s: string, x: string)
    requires !HasLetter(s)
    ensures Contains(Lower(x), Lower(s)) <==> Contains(x, s)
  {
    if Contains(Lower(x), Lower(s)) {
      var i :| 0 <= i <= |Lower(x)| && OccursAt(Lower(x), Lower(s), i);
      forall k | 0 <= k < |s|
        ensures x[i..i + |s|][k] == s[k]
      {
        assert Lower(x)[i..i + |s|][k] == Lower(s)[k] == LowerChar(s[k]);
        assert !IsLetter(s[k]);
      }
      assert x[i..i + |s|] == s;
      assert OccursAt(x, s, i);
    }
    if Contains(x, s) {
      ContainsFolded(s, x);
    }
  }
}
