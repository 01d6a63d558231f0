/** The string operations the source takes from Python: split, strip, partition and `in`. */
module Text {
  /** The first position of `c`, or the length when there is none. */
  function Index(s: string, c: char): (i: nat)
    ensures i <= |s| && c !in s[..i]
    ensures i < |s| ==> s[i] == c
  {
    if s == "" || s[0] == c then 0 else 1 + Index(s[1..], c)
  }

  lemma IndexOf(before: string, c: char, after: string)
    requires c !in before
    ensures Index(before + [c] + after, c) == |before|
  {
    var s := before + [c] + after;
    var i := Index(s, c);
    assert forall k :: 0 <= k < |before| ==> s[k] == before[k];
    assert s[|before|] == c;
    assert forall k :: 0 <= k < i ==> s[..i][k] == s[k];
  }

  /** `s.split(c)` for a one-character separator. */
  function Split(s: string, c: char): (parts: seq<string>)
    ensures parts != []
  {
    if s == "" then [""]
    else
      var rest := Split(s[1..], c);
      if s[0] == c then [""] + rest else Prepend(s[0], rest)
  }

  /** Put one character in front of the first part. */
  function Prepend(first: char, parts: seq<string>): seq<string>
    requires parts != []
  {
    parts[0 := [first] + parts[0]]
  }

  lemma {:induction false} SplitWhole(s: string, c: char)
    requires c !in s
    ensures Split(s, c) == [s]
  {
    if s == "" {
    } else {
      SplitWhole(s[1..], c);
      assert s[0] in s && [s[0]] + s[1..] == s;
    }
  }

  /** Splitting a join at a separator splits the two sides separately. */
  lemma {:induction false} SplitJoin(a: string, c: char, b: string)
    ensures Split(a + ([c] + b), c) == Split(a, c) + Split(b, c)
  {
    var s := a + ([c] + b);
    if a == "" {
      assert s[0] == c && s[1..] == b;
    } else {
      assert s[0] == a[0] && s[1..] == a[1..] + ([c] + b);
      SplitJoin(a[1..], c, b);
    }
  }

  lemma SplitFirst(before: string, c: char, after: string)
    requires c !in before
    ensures Split(before + ([c] + after), c) == [before] + Split(after, c)
  {
    SplitJoin(before, c, after);
    SplitWhole(before, c);
  }

  /** `s.partition(c)`: the text before the first `c`, whether there is one, and the text after. */
  function Partition(s: string, c: char): (string, bool, string) {
    var i := Index(s, c);
    if i < |s| then (s[..i], true, s[i + 1..]) else (s, false, "")
  }

  lemma PartitionOf(before: string, c: char, after: string)
    requires c !in before
    ensures Partition(before + [c] + after, c) == (before, true, after)
  {
    IndexOf(before, c, after);
    var s := before + [c] + after;
    assert s[..|before|] == before && s[|before| + 1..] == after;
  }

  /** Python's whitespace among the Latin-1 characters a header can hold. */
  predicate IsSpace(c: char) {
    c == ' ' || 9 as char <= c <= 13 as char || 28 as char <= c <= 31 as char
    || c == 0x85 as char || c == 0xA0 as char
  }

  /** The whitespace of the C locale, which `int()` and `bytes.fromhex` skip in ASCII text. */
  predicate IsAsciiSpace(c: char) {
    c == ' ' || 9 as char <= c <= 13 as char
  }

  function StripLeft(s: string, space: char -> bool): string {
    if s != "" && space(s[0]) then StripLeft(s[1..], space) else s
  }

  function StripRight(s: string, space: char -> bool): string {
    if s != "" && space(s[|s| - 1]) then StripRight(s[..|s| - 1], space) else s
  }

  /** `s.strip()`, for a given notion of whitespace. */
  function StripOf(s: string, space: char -> bool): string {
    StripRight(StripLeft(s, space), space)
  }

  function Strip(s: string): string {
    StripOf(s, IsSpace)
  }

  lemma StripKeeps(s: string, space: char -> bool)
    requires s != "" && !space(s[0]) && !space(s[|s| - 1])
    ensures StripOf(s, space) == s
  {}

  /** ASCII lower case. */
  function LowerChar(c: char): char {
    if 'A' <= c <= 'Z' then (c as int + 32) as char else c
  }

  function Lower(s: string): string {
    seq(|s|, i requires 0 <= i < |s| => LowerChar(s[i]))
  }

  /** `needle in haystack`. */
  predicate Contains(haystack: string, needle: string) {
    exists i :: 0 <= i <= |haystack| && OccursAt(haystack, needle, i)
  }

  predicate OccursAt(haystack: string, needle: string, i: nat) {
    i + |needle| <= |haystack| && haystack[i..i + |needle|] == needle
  }

  // ---------------------------------------------------------------- surrounding whitespace

  lemma {:induction false} StripLeftPast(pre: string, s: string, space: char -> bool)
    requires forall i :: 0 <= i < |pre| ==> space(pre[i])
    ensures StripLeft(pre + s, space) == StripLeft(s, space)
  {
    if pre == "" {
      assert pre + s == s;
    } else {
      assert (pre + s)[1..] == pre[1..] + s;
      StripLeftPast(pre[1..], s, space);
    }
  }

  lemma {:induction false} StripRightPast(s: string, post: string, space: char -> bool)
    requires forall i :: 0 <= i < |post| ==> space(post[i])
    ensures StripRight(s + post, space) == StripRight(s, space)
  {
    if post == "" {
      assert s + post == s;
    } else {
      var init := post[..|post| - 1];
      assert (s + post)[..|s + post| - 1] == s + init;
      StripRightPast(s, init, space);
    }
  }

  lemma {:induction false} StripLeftOf(s: string, post: string, space: char -> bool)
    requires forall i :: 0 <= i < |post| ==> space(post[i])
    ensures StripLeft(s + post, space) == if StripLeft(s, space) == "" then "" else StripLeft(s, space) + post
  {
    if s == "" {
      assert s + post == post + "";
      StripLeftPast(post, "", space);
    } else {
      assert (s + post)[1..] == s[1..] + post;
      if space(s[0]) {
        StripLeftOf(s[1..], post, space);
      }
    }
  }

  /** Whitespace around a text is stripped with the text's own. */
  lemma StripPast(pre: string, s: string, post: string, space: char -> bool)
    requires forall i :: 0 <= i < |pre| ==> space(pre[i])
    requires forall i :: 0 <= i < |post| ==> space(post[i])
    ensures StripOf(pre + (s + post), space) == StripOf(s, space)
  {
    StripLeftPast(pre, s + post, space);
    StripLeftOf(s, post, space);
    StripRightPast(StripLeft(s, space), post, space);
  }
}
