/**
  The resumable string matcher of the web server.

  On a mismatch the matcher falls back to the first character of the pattern only.  That is exactly
  right for some patterns and wrong for all others; `MatcherReliableIff` draws the line.
*/
module Matcher {

  /** The macro TO_LOWER. */
  function ToLower(c: char, caseSens: bool): char {
    if !caseSens && 'A' <= c <= 'Z' then (c as int + 32) as char else c
  }

  function Fold(s: seq<char>, caseSens: bool): (r: seq<char>)
    ensures |r| == |s|
  {
    seq(|s|, i requires 0 <= i < |s| => ToLower(s[i], caseSens))
  }

  /** Without case the 26 letters fold, and no other character does; with case none does. */
  lemma FoldsLetters(c: char, i: nat)
    requires i < 26
    ensures ToLower("ABCDEFGHIJKLMNOPQRSTUVWXYZ"[i], false) == "abcdefghijklmnopqrstuvwxyz"[i]
    ensures c !in "ABCDEFGHIJKLMNOPQRSTUVWXYZ" ==> ToLower(c, false) == c
    ensures ToLower(c, true) == c
  {
    var upper := "ABCDEFGHIJKLMNOPQRSTUVWXYZ";
    if 'A' <= c <= 'Z' { assert upper[c as int - 65] == c; }
  }

  // ----- the matcher on folded text

  /** The characters matched so far, after one more character. */
  function Step(pattern: seq<char>, m: nat, c: char): nat
    requires m < |pattern|
  {
    if c == pattern[m] then m + 1 else if c == pattern[0] then 1 else 0
  }

  datatype Result = Found(pos: nat, matched: nat) | NotFound(matched: nat)

  function Shift(r: Result, n: nat): Result {
    if r.Found? then r.(pos := r.pos + n) else r
  }

  /** A match is noticed only when there is another character after it. */
  function Scan(pattern: seq<char>, m: nat, text: seq<char>): (r: Result)
    requires m <= |pattern|
    ensures r.matched <= |pattern| && (r.Found? ==> r.pos < |text| && r.matched == |pattern|)
    decreases text
  {
    if text == [] then NotFound(m)
    else if m == |pattern| then Found(0, m)
    else Shift(Scan(pattern, Step(pattern, m, text[0]), text[1..]), 1)
  }

  lemma ScanStep(pattern: seq<char>, m: nat, text: seq<char>, p: nat)
    requires m < |pattern| && p < |text|
    ensures Scan(pattern, m, text[p..]) == Shift(Scan(pattern, Step(pattern, m, text[p]), text[p + 1..]), 1)
  {
    assert text[p..][1..] == text[p + 1..];
  }

  /** The body of the scanning loop. */
  method Advance(pattern: seq<char>, mp: nat, c: char, caseSens: bool) returns (next: nat)
    requires mp < |pattern|
    ensures next == Step(Fold(pattern, caseSens), mp, ToLower(c, caseSens))
  {
    next := mp;
    if ToLower(c, caseSens) != ToLower(pattern[next], caseSens) {
      next := 0;
      if ToLower(c, caseSens) == ToLower(pattern[next], caseSens) {
        next := next + 1;
      }
    } else {
      next := next + 1;
    }
  }

  method MatchString(pattern: seq<char>, matchOffset: nat, src: seq<char>, caseSens: bool) returns (r: Result)
    requires matchOffset <= |pattern|
    ensures r == Scan(Fold(pattern, caseSens), matchOffset, Fold(src, caseSens))
  {
    ghost var pat, text := Fold(pattern, caseSens), Fold(src, caseSens);
    var p: nat, mp: nat := 0, matchOffset;
    ghost var whole := Scan(pat, matchOffset, text);
    assert text[0..] == text;
    while p < |src|
      invariant p <= |src| && mp <= |pattern|
      invariant whole == Shift(Scan(pat, mp, text[p..]), p)
    {
      if mp == |pattern| {
        return Found(p, mp);
      }
      ScanStep(pat, mp, text, p);
      mp := Advance(pattern, mp, src[p], caseSens);
      p := p + 1;
    }
    r := NotFound(mp);
  }

  // ----- resuming

  /** Passing the offset on, any split of the input gives the same answer as the whole input. */
  lemma {:induction false} ScanSplit(pattern: seq<char>, m: nat, a: seq<char>, b: seq<char>)
    requires m <= |pattern|
    ensures var first := Scan(pattern, m, a);
            Scan(pattern, m, a + b) == if first.Found? then first else Shift(Scan(pattern, first.matched, b), |a|)
    decreases a
  {
    if a == [] {
      assert a + b == b;
    } else if m < |pattern| {
      assert (a + b)[1..] == a[1..] + b;
      ScanSplit(pattern, Step(pattern, m, a[0]), a[1..], b);
    }
  }

  // ----- what is found

  /** The first n characters of the pattern end the text. */
  predicate Ends(pattern: seq<char>, n: nat, text: seq<char>) {
    n <= |pattern| && n <= |text| && pattern[..n] == text[|text| - n..]
  }

  /** The pattern ends at position i of the text. */
  predicate EndsAt(pattern: seq<char>, text: seq<char>, i: nat) {
    i <= |text| && Ends(pattern, |pattern|, text[..i])
  }

  predicate Longest(pattern: seq<char>, n: nat, text: seq<char>) {
    Ends(pattern, n, text) && forall j :: n < j <= |pattern| ==> !Ends(pattern, j, text)
  }

  /** A shorter matched prefix inside a longer one is always continued the same way. */
  predicate Regular(pattern: seq<char>) {
    forall j, k :: 1 <= j < k < |pattern| && Ends(pattern, j, pattern[..k]) ==> pattern[j] == pattern[k]
  }

  lemma FirstCharacterUniqueIsRegular(pattern: seq<char>)
    requires forall i :: 1 <= i < |pattern| ==> pattern[i] != pattern[0]
    ensures Regular(pattern)
  {
    forall j, k | 1 <= j < k < |pattern| ensures !Ends(pattern, j, pattern[..k]) {
      assert pattern[..j][0] == pattern[0] && pattern[..k][k - j..][0] == pattern[k - j];
    }
  }

  lemma EndsStep(pattern: seq<char>, n: nat, text: seq<char>, c: char)
    ensures Ends(pattern, n + 1, text + [c]) <==> n < |pattern| && Ends(pattern, n, text) && pattern[n] == c
  {
    if n < |pattern| && n <= |text| {
      assert pattern[..n + 1] == pattern[..n] + [pattern[n]];
      assert (text + [c])[|text| - n..] == text[|text| - n..] + [c];
      assert pattern[..n + 1][..n] == pattern[..n] && pattern[..n + 1][n] == pattern[n];
      assert (text[|text| - n..] + [c])[..n] == text[|text| - n..];
    }
  }

  /** Whatever the pattern: what the matcher counts as matched does end the text. */
  lemma StepEnds(pattern: seq<char>, m: nat, text: seq<char>, c: char)
    requires m < |pattern| && Ends(pattern, m, text)
    ensures Ends(pattern, Step(pattern, m, c), text + [c])
  {
    EndsStep(pattern, m, text, c);
    EndsStep(pattern, 0, text, c);
  }

  lemma ShorterInside(pattern: seq<char>, j: nat, m: nat, text: seq<char>)
    requires j <= m && Ends(pattern, j, text) && Ends(pattern, m, text)
    ensures Ends(pattern, j, pattern[..m])
  {
    assert text[|text| - j..] == text[|text| - m..][m - j..];
  }

  /** For a regular pattern the fallback keeps the longest match. */
  lemma StepKeepsLongest(pattern: seq<char>, m: nat, text: seq<char>, c: char)
    requires Regular(pattern) && m < |pattern| && Longest(pattern, m, text)
    ensures Longest(pattern, Step(pattern, m, c), text + [c])
  {
    StepEnds(pattern, m, text, c);
    var n := Step(pattern, m, c);
    forall i | n < i <= |pattern| ensures !Ends(pattern, i, text + [c]) {
      var j := i - 1;
      EndsStep(pattern, j, text, c);
      if Ends(pattern, j, text) && pattern[j] == c && 1 <= j < m {
        ShorterInside(pattern, j, m, text);
      }
    }
  }

  /** Whatever the pattern, a reported match is one: it ends just before the reported position. */
  lemma {:induction false} FoundIsMatch(pattern: seq<char>, m: nat, seen: seq<char>, text: seq<char>)
    requires m <= |pattern| && Ends(pattern, m, seen)
    ensures var r := Scan(pattern, m, text);
            r.Found? ==> EndsAt(pattern, seen + text, |seen| + r.pos)
    decreases text
  {
    if text != [] {
      if m == |pattern| {
        assert (seen + text)[..|seen|] == seen;
      } else {
        StepEnds(pattern, m, seen, text[0]);
        FoundIsMatch(pattern, Step(pattern, m, text[0]), seen + [text[0]], text[1..]);
        assert seen + [text[0]] + text[1..] == seen + text;
      }
    }
  }

  /** For a regular pattern the first match that is followed by another character is found, and the
      offset is always the longest pattern prefix that ends the consumed text. */
  lemma {:induction false} RegularFindsFirst(pattern: seq<char>, m: nat, seen: seq<char>, text: seq<char>)
    requires Regular(pattern) && m <= |pattern| && Longest(pattern, m, seen)
    ensures var r := Scan(pattern, m, text);
            if r.Found? then forall i :: |seen| <= i < |seen| + r.pos ==> !EndsAt(pattern, seen + text, i)
            else Longest(pattern, r.matched, seen + text) &&
                 forall i :: |seen| <= i < |seen + text| ==> !EndsAt(pattern, seen + text, i)
    decreases text
  {
    if text == [] {
      assert seen + text == seen;
    } else if m < |pattern| {
      StepKeepsLongest(pattern, m, seen, text[0]);
      RegularFindsFirst(pattern, Step(pattern, m, text[0]), seen + [text[0]], text[1..]);
      assert seen + [text[0]] + text[1..] == seen + text;
      assert (seen + text)[..|seen|] == seen;
    }
  }

  /** For a regular pattern a match is reported exactly if the text goes on behind one. */
  lemma {:induction false} RegularReportsIff(pattern: seq<char>, text: seq<char>)
    requires Regular(pattern)
    ensures Scan(pattern, 0, text).Found? <==> exists i: nat :: i < |text| && EndsAt(pattern, text, i)
  {
    RegularFindsFirst(pattern, 0, [], text);
    FoundIsMatch(pattern, 0, [], text);
    assert [] + text == text;
    var r := Scan(pattern, 0, text);
    if r.Found? { assert EndsAt(pattern, text, r.pos); }
  }

  /** The only match in the text is the one that ends it. */
  predicate OnlyAtEnd(pattern: seq<char>, text: seq<char>) {
    EndsAt(pattern, text, |text|) && forall i :: 0 <= i < |text| ==> !EndsAt(pattern, text, i)
  }

  /** For a regular pattern: a full offset is left waiting exactly if the first match ends the buffer, and
      the first character of the next buffer, whatever it is, then reports it. */
  lemma {:induction false} MatchAtEndIsPending(pattern: seq<char>, text: seq<char>, next: char)
    requires Regular(pattern)
    ensures Scan(pattern, 0, text) == NotFound(|pattern|) <==> OnlyAtEnd(pattern, text)
    ensures Scan(pattern, |pattern|, [next]) == Found(0, |pattern|)
    ensures OnlyAtEnd(pattern, text) ==> Scan(pattern, 0, text + [next]) == Found(|text|, |pattern|)
  {
    RegularFindsFirst(pattern, 0, [], text);
    FoundIsMatch(pattern, 0, [], text);
    assert [] + text == text && text[..|text|] == text;
    ScanSplit(pattern, 0, text, [next]);
  }

  // ----- patterns for which the fallback is wrong

  lemma {:induction false} MatchesItself(pattern: seq<char>, k: nat)
    requires k <= |pattern|
    ensures Scan(pattern, 0, pattern[..k]) == NotFound(k)
  {
    if k > 0 {
      MatchesItself(pattern, k - 1);
      assert pattern[..k] == pattern[..k - 1] + [pattern[k - 1]];
      ScanSplit(pattern, 0, pattern[..k - 1], [pattern[k - 1]]);
      assert Scan(pattern, k - 1, [pattern[k - 1]]) == Shift(Scan(pattern, k, []), 1);
    }
  }

  /** Each character advances the match by one at most. */
  lemma {:induction false} NotEnoughText(pattern: seq<char>, m: nat, text: seq<char>)
    requires m + |text| < |pattern|
    ensures Scan(pattern, m, text).NotFound? && Scan(pattern, m, text).matched <= m + |text|
    decreases text
  {
    if text != [] { NotEnoughText(pattern, Step(pattern, m, text[0]), text[1..]); }
  }

  /** After a fallback the rest of the text is too short, even with one character more. */
  lemma FallbackIsTooLate(pattern: seq<char>, j: nat, k: nat, next: char)
    requires 1 <= j < k < |pattern| && pattern[j] != pattern[k]
    ensures Scan(pattern, k, pattern[j..] + [next]).NotFound?
  {
    var text := pattern[j..] + [next];
    var m := Step(pattern, k, pattern[j]);
    var tail := pattern[j + 1..] + [next];
    assert text[0..] == text && text[1..] == tail;
    ScanStep(pattern, k, text, 0);
    NotEnoughText(pattern, m, pattern[j + 1..]);
    ScanSplit(pattern, m, pattern[j + 1..], [next]);
    var q := Scan(pattern, m, pattern[j + 1..]).matched;
    assert [next][0..] == [next] && [next][1..] == [];
    if q < |pattern| { ScanStep(pattern, q, [next], 0); }
  }

  /** A text that contains the pattern, and that the matcher misses. */
  lemma IrregularMisses(pattern: seq<char>, j: nat, k: nat, next: char)
    requires 1 <= j < k < |pattern| && Ends(pattern, j, pattern[..k]) && pattern[j] != pattern[k]
    ensures var text := pattern[..k] + pattern[j..];
            EndsAt(pattern, text + [next], |text|) && Scan(pattern, 0, text + [next]).NotFound?
  {
    var text := pattern[..k] + pattern[j..];
    MatchesItself(pattern, k);
    assert text + [next] == pattern[..k] + (pattern[j..] + [next]);
    ScanSplit(pattern, 0, pattern[..k], pattern[j..] + [next]);
    FallbackIsTooLate(pattern, j, k, next);
    assert (text + [next])[..|text|] == text;
    assert text[k - j..] == pattern[..j] + pattern[j..] == pattern;
  }

  /** The matcher finds every first match (that is followed by another character) in every text
      exactly when the pattern is regular. */
  lemma MatcherReliableIff(pattern: seq<char>)
    ensures Regular(pattern) <==>
            forall text, i: nat :: EndsAt(pattern, text, i) && i < |text| ==> Scan(pattern, 0, text).Found?
  {
    if Regular(pattern) {
      forall text, i: nat | EndsAt(pattern, text, i) && i < |text| ensures Scan(pattern, 0, text).Found? {
        RegularFindsFirst(pattern, 0, [], text);
        assert [] + text == text;
      }
    } else {
      var j, k :| 1 <= j < k < |pattern| && Ends(pattern, j, pattern[..k]) && pattern[j] != pattern[k];
      IrregularMisses(pattern, j, k, 'x');
      assert EndsAt(pattern, pattern[..k] + pattern[j..] + ['x'], |pattern[..k] + pattern[j..]|);
    }
  }

  /** The smallest kind of pattern that can be missed. */
  lemma MissedPattern()
    ensures !Regular("aab")
    ensures EndsAt("aab", "aaabx", 4) && Scan("aab", 0, "aaabx").NotFound?
  {
    assert "aab"[..2] == "aa" && "aa"[1..] == "a" && "aab"[..1] == "a";
    assert Ends("aab", 1, "aab"[..2]);
    IrregularMisses("aab", 1, 2, 'x');
    assert "aab"[..2] + "aab"[1..] == "aaab" && "aaab" + ['x'] == "aaabx";
  }
}
