/**
 * String helpers with the semantics of the Python built-ins the scraper uses:
 * `str.lower`, `str.strip`, `re.sub(r"\s+", ...)`, `str.split`, `in` on strings,
 * `str.startswith`, `str.replace` and `str.join`.
 * Whitespace is the ASCII part of Python's whitespace and case mapping is
 * ASCII only.
 */
module Text {

  /**
   * The ASCII characters `str.isspace()` accepts, which `\s`, `str.strip()`
   * and `str.split()` treat as whitespace: space, \t, \n, \v, \f, \r and the
   * four separators \x1c to \x1f.
   */
  const Whitespace: set<char> :=
    {' ', '\t', '\n', '\r', '\U{0B}', '\U{0C}', '\U{1C}', '\U{1D}', '\U{1E}', '\U{1F}'}

  predicate IsSpace(c: char) {
    c in Whitespace
  }

  predicate IsUpper(c: char) {
    'A' <= c <= 'Z'
  }

  function LowerChar(c: char): (r: char)
    ensures !IsUpper(r)
    ensures IsUpper(c) ==> r as int == c as int + 32
    ensures !IsUpper(c) ==> r == c
  {
    if IsUpper(c) then (c as int + 32) as char else c
  }

  /** `s.lower()`, restricted to ASCII letters. */
  function Lower(s: string): (r: string)
    ensures |r| == |s|
    ensures forall i :: 0 <= i < |r| ==> r[i] == LowerChar(s[i])
    ensures forall i :: 0 <= i < |r| ==> !IsUpper(r[i])
  {
    seq(|s|, i requires 0 <= i < |s| => LowerChar(s[i]))
  }

  // ---------------------------------------------------------------------------
  // Prefixes and substrings

  /** `s.startswith(p)`. */
  predicate StartsWith(s: string, p: string) {
    |p| <= |s| && s[..|p|] == p
  }

  /** Python's `sub in s`: some suffix of `s` starts with `sub`. */
  predicate Contains(s: string, sub: string)
    decreases |s|
  {
    StartsWith(s, sub) || (|s| > 0 && Contains(s[1..], sub))
  }

  lemma {:induction false} ContainsAt(s: string, sub: string, i: nat)
    requires i + |sub| <= |s| && s[i..i + |sub|] == sub
    ensures Contains(s, sub)
    decreases i
  {
    if i > 0 {
      assert s[1..][i - 1..i - 1 + |sub|] == s[i..i + |sub|];
      ContainsAt(s[1..], sub, i - 1);
    }
  }

  lemma {:induction false} ContainsWitness(s: string, sub: string) returns (i: nat)
    requires Contains(s, sub)
    ensures i + |sub| <= |s| && s[i..i + |sub|] == sub
    decreases |s|
  {
    if StartsWith(s, sub) {
      i := 0;
    } else {
      var j := ContainsWitness(s[1..], sub);
      assert s[1..][j..j + |sub|] == s[j + 1..j + 1 + |sub|];
      i := j + 1;
    }
  }

  // ---------------------------------------------------------------------------
  // Stripping a character set from both ends

  /** Number of leading characters of `s` that belong to `cs`. */
  function LeadingIn(s: string, cs: set<char>): (n: nat)
    ensures n <= |s|
    ensures forall k :: 0 <= k < n ==> s[k] in cs
    ensures n < |s| ==> s[n] !in cs
    decreases |s|
  {
    if |s| > 0 && s[0] in cs then 1 + LeadingIn(s[1..], cs) else 0
  }

  /** Length of `s` once its trailing characters in `cs` are removed. */
  function TrailingStart(s: string, cs: set<char>): (n: nat)
    ensures n <= |s|
    ensures forall k :: n <= k < |s| ==> s[k] in cs
    ensures n > 0 ==> s[n - 1] !in cs
    decreases |s|
  {
    if |s| > 0 && s[|s| - 1] in cs then TrailingStart(s[..|s| - 1], cs) else |s|
  }

  /** `r` sits at offset `i` of `s`, and everything around it is in `cs`. */
  predicate InfixAfterStrip(s: string, r: string, i: int, cs: set<char>) {
    && 0 <= i <= |s| - |r|
    && r == s[i..i + |r|]
    && (forall k :: 0 <= k < i ==> s[k] in cs)
    && (forall k :: i + |r| <= k < |s| ==> s[k] in cs)
  }

  /**
   * `s.strip(chars)`: the infix of `s` left once every leading and trailing
   * character in `cs` is removed.
   */
  function StripChars(s: string, cs: set<char>): (r: string)
    ensures |r| <= |s|
    ensures |r| > 0 ==> r[0] !in cs && r[|r| - 1] !in cs
    ensures (forall k :: 0 <= k < |s| ==> s[k] in cs) <==> r == []
    ensures exists i :: InfixAfterStrip(s, r, i, cs)
  {
    var i := LeadingIn(s, cs);
    var t := s[i..];
    var j := TrailingStart(t, cs);
    assert t[..j] == s[i..i + j];
    assert InfixAfterStrip(s, t[..j], i, cs);
    t[..j]
  }

  /** `s.strip()`. */
  function Strip(s: string): (r: string)
    ensures |r| > 0 ==> !IsSpace(r[0]) && !IsSpace(r[|r| - 1])
    ensures r == [] <==> forall k :: 0 <= k < |s| ==> IsSpace(s[k])
  {
    StripChars(s, Whitespace)
  }

  /** Stripping is idempotent: a stripped string is its own strip. */
  lemma StripCharsIdempotent(s: string, cs: set<char>)
    ensures StripChars(StripChars(s, cs), cs) == StripChars(s, cs)
  {
    var r := StripChars(s, cs);
    assert LeadingIn(r, cs) == 0;
    assert TrailingStart(r, cs) == |r|;
    assert r[0..][..|r|] == r;
  }

  /**
   * `StripChars` is the only infix with both properties: surrounded by
   * characters of `cs` only, and neither starting nor ending with one.
   */
  lemma StripCharsUnique(s: string, cs: set<char>, r: string, i: int)
    requires InfixAfterStrip(s, r, i, cs)
    requires |r| > 0 ==> r[0] !in cs && r[|r| - 1] !in cs
    ensures r == StripChars(s, cs)
  {
    var r2 := StripChars(s, cs);
    var i2 :| InfixAfterStrip(s, r2, i2, cs);
    if |r| == 0 {
      assert forall k :: 0 <= k < |s| ==> s[k] in cs by {
        forall k | 0 <= k < |s| ensures s[k] in cs {
          if k >= i {
            assert i + |r| <= k;
          }
        }
      }
    } else {
      assert s[i] == r[0];
      assert r2 != [];
      assert s[i2] == r2[0];
      assert s[i + |r| - 1] == r[|r| - 1];
      assert s[i2 + |r2| - 1] == r2[|r2| - 1];
      assert i == i2;
      assert i + |r| == i2 + |r2|;
    }
  }

  /** Stripping ignores padding made of stripped characters. */
  lemma StripCharsPadded(pre: string, s: string, post: string, cs: set<char>)
    requires forall k :: 0 <= k < |pre| ==> pre[k] in cs
    requires forall k :: 0 <= k < |post| ==> post[k] in cs
    ensures StripChars(pre + s + post, cs) == StripChars(s, cs)
  {
    var r := StripChars(s, cs);
    var i :| InfixAfterStrip(s, r, i, cs);
    var t := pre + s + post;
    assert t[|pre| + i..|pre| + i + |r|] == s[i..i + |r|];
    forall k | 0 <= k < |pre| + i ensures t[k] in cs {
      if k >= |pre| {
        assert t[k] == s[k - |pre|];
      }
    }
    forall k | |pre| + i + |r| <= k < |t| ensures t[k] in cs {
      if k < |pre| + |s| {
        assert t[k] == s[k - |pre|];
      } else {
        assert t[k] == post[k - |pre| - |s|];
      }
    }
    StripCharsUnique(t, cs, r, |pre| + i);
  }

  /** A string that neither starts nor ends with a stripped character is left as it is. */
  lemma StripCharsNoop(s: string, cs: set<char>)
    requires |s| > 0 ==> s[0] !in cs && s[|s| - 1] !in cs
    ensures StripChars(s, cs) == s
  {
    assert s[0..0 + |s|] == s;
    StripCharsUnique(s, cs, s, 0);
  }

  /** Whitespace in front of a string with non-space ends is all that `strip` removes. */
  lemma StripLeadingSpaces(pad: string, s: string)
    requires forall k :: 0 <= k < |pad| ==> IsSpace(pad[k])
    requires |s| > 0 && !IsSpace(s[0]) && !IsSpace(s[|s| - 1])
    ensures Strip(pad + s) == s
  {
    var r := Strip(pad + s);
    var i :| InfixAfterStrip(pad + s, r, i, Whitespace);
    assert (pad + s)[|pad|] == s[0];
    assert (pad + s)[|pad + s| - 1] == s[|s| - 1];
    assert r == (pad + s)[|pad|..] == s;
  }

  lemma StripIdempotent(s: string)
    ensures Strip(Strip(s)) == Strip(s)
  {
    StripCharsIdempotent(s, Whitespace);
  }

  // ---------------------------------------------------------------------------
  // Whitespace runs

  /** Length of the whitespace run at the start of `s`. */
  function SpaceRun(s: string): (n: nat)
    ensures n <= |s|
    ensures forall k :: 0 <= k < n ==> IsSpace(s[k])
    ensures n < |s| ==> !IsSpace(s[n])
  {
    LeadingIn(s, Whitespace)
  }

  /**
   * `re.sub(r"\s+", rep, s)`: every maximal run of whitespace becomes the
   * single character `rep`; everything else is kept in place.
   */
  function SubSpaceRuns(s: string, rep: char): (r: string)
    ensures |r| <= |s|
    ensures |s| > 0 ==> |r| > 0
    ensures |s| > 0 && IsSpace(s[0]) ==> r[0] == rep
    ensures |s| > 0 && !IsSpace(s[0]) ==> r[0] == s[0]
    decreases |s|
  {
    if |s| == 0 then []
    else if IsSpace(s[0]) then [rep] + SubSpaceRuns(s[SpaceRun(s)..], rep)
    else [s[0]] + SubSpaceRuns(s[1..], rep)
  }

  /** The only whitespace in `r` is `rep`, and never twice in a row. */
  predicate RunsCollapsed(r: string, rep: char) {
    && (forall i :: 0 <= i < |r| && IsSpace(r[i]) ==> r[i] == rep)
    && (forall i, j :: 0 <= i < |r| && j == i + 1 && j < |r| ==> !(IsSpace(r[i]) && IsSpace(r[j])))
  }

  /** After the substitution the only whitespace left is `rep`, never twice in a row. */
  lemma {:induction false} SubSpaceRunsShape(s: string, rep: char)
    ensures RunsCollapsed(SubSpaceRuns(s, rep), rep)
    decreases |s|
  {
    if |s| > 0 {
      var n := if IsSpace(s[0]) then SpaceRun(s) else 1;
      var c := if IsSpace(s[0]) then rep else s[0];
      var t := SubSpaceRuns(s[n..], rep);
      SubSpaceRunsShape(s[n..], rep);
      var r := SubSpaceRuns(s, rep);
      assert r == [c] + t;
      assert |t| > 0 && IsSpace(c) ==> !IsSpace(t[0]);
      forall i | 0 <= i < |r| && IsSpace(r[i])
        ensures r[i] == rep
      {
        if i > 0 {
          assert r[i] == t[i - 1];
        }
      }
      forall i, j | 0 <= i < |r| && j == i + 1 && j < |r|
        ensures !(IsSpace(r[i]) && IsSpace(r[j]))
      {
        if i > 0 {
          assert r[i] == t[i - 1] && r[j] == t[j - 1];
        } else {
          assert r[j] == t[0];
        }
      }
    }
  }

  /** `re.sub(r"\s+", " ", s)`. */
  function CollapseSpaces(s: string): (r: string)
    ensures SingleSpaced(r)
  {
    SubSpaceRunsShape(s, ' ');
    SubSpaceRuns(s, ' ')
  }

  /** `s` holds no whitespace besides single spaces. */
  predicate SingleSpaced(s: string) {
    RunsCollapsed(s, ' ')
  }

  /** Any infix of a single-spaced string is single-spaced, so stripping keeps it. */
  lemma SingleSpacedStrip(s: string, cs: set<char>)
    requires SingleSpaced(s)
    ensures SingleSpaced(StripChars(s, cs))
  {
    var r := StripChars(s, cs);
    var i :| InfixAfterStrip(s, r, i, cs);
    forall k | 0 <= k < |r| - 1
      ensures !(IsSpace(r[k]) && IsSpace(r[k + 1]))
    {
      assert r[k] == s[i + k] && r[k + 1] == s[i + k + 1];
    }
    forall k | 0 <= k < |r| && IsSpace(r[k])
      ensures r[k] == ' '
    {
      assert r[k] == s[i + k];
    }
  }

  // ---------------------------------------------------------------------------
  // Word count

  /** Length of the non-whitespace run at the start of `s`. */
  function WordRun(s: string): (n: nat)
    ensures n <= |s|
    ensures forall k :: 0 <= k < n ==> !IsSpace(s[k])
    ensures n < |s| ==> IsSpace(s[n])
    decreases |s|
  {
    if |s| > 0 && !IsSpace(s[0]) then 1 + WordRun(s[1..]) else 0
  }

  /** `len(s.split())`: skip whitespace, consume a word, repeat. */
  function WordCount(s: string): (n: nat)
    ensures n == 0 <==> forall k :: 0 <= k < |s| ==> IsSpace(s[k])
    decreases |s|
  {
    if |s| == 0 then 0
    else if IsSpace(s[0]) then WordCount(s[1..])
    else 1 + WordCount(s[WordRun(s)..])
  }

  /**
   * Reference count of words: the positions where a word begins, that is a
   * non-whitespace character whose predecessor is whitespace or absent
   * (`afterSpace` says whether the character before `s` was whitespace).
   */
  function WordStarts(s: string, afterSpace: bool): nat
    decreases |s|
  {
    if |s| == 0 then 0
    else (if afterSpace && !IsSpace(s[0]) then 1 else 0) + WordStarts(s[1..], IsSpace(s[0]))
  }

  lemma {:induction false} WordStartsInsideWord(s: string, n: nat)
    requires n <= WordRun(s)
    ensures WordStarts(s, false) == WordStarts(s[n..], false)
    decreases n
  {
    if n > 0 {
      assert !IsSpace(s[0]);
      assert s[1..][n - 1..] == s[n..];
      WordStartsInsideWord(s[1..], n - 1);
    }
  }

  /** `WordCount` counts exactly the word starts. */
  lemma {:induction false} WordCountIsWordStarts(s: string)
    ensures WordCount(s) == WordStarts(s, true)
    decreases |s|
  {
    if |s| == 0 {
    } else if IsSpace(s[0]) {
      WordCountIsWordStarts(s[1..]);
    } else {
      var n := WordRun(s);
      WordCountIsWordStarts(s[n..]);
      WordStartsInsideWord(s[1..], n - 1);
      assert s[1..][n - 1..] == s[n..];
      if n < |s| {
        assert WordStarts(s[n..], false) == WordStarts(s[n..], true);
      }
    }
  }

  // ---------------------------------------------------------------------------
  // Words

  /** `s.split()`: the maximal runs of non-whitespace characters, in order. */
  function Words(s: string): seq<string>
    decreases |s|
  {
    if |s| == 0 then []
    else if IsSpace(s[0]) then Words(s[1..])
    else [s[..WordRun(s)]] + Words(s[WordRun(s)..])
  }

  /** `s.split()` is empty exactly when `s` is all whitespace, and each of its elements is a word. */
  lemma {:induction false} WordsShape(s: string)
    ensures Words(s) == [] <==> forall k :: 0 <= k < |s| ==> IsSpace(s[k])
    ensures forall j :: 0 <= j < |Words(s)| ==> IsWord(Words(s)[j])
    decreases |s|
  {
    if |s| > 0 {
      if IsSpace(s[0]) {
        WordsShape(s[1..]);
        assert forall k :: 1 <= k < |s| ==> s[k] == s[1..][k - 1];
      } else {
        WordsShape(s[WordRun(s)..]);
      }
    }
  }

  /** A word of `str.split()`: non-empty and without whitespace. */
  predicate IsWord(w: string) {
    w != [] && forall k :: 0 <= k < |w| ==> !IsSpace(w[k])
  }

  /** `len(s.split())` counts the words. */
  lemma {:induction false} WordCountIsWords(s: string)
    ensures WordCount(s) == |Words(s)|
    decreases |s|
  {
    if |s| > 0 {
      if IsSpace(s[0]) {
        WordCountIsWords(s[1..]);
      } else {
        WordCountIsWords(s[WordRun(s)..]);
      }
    }
  }

  lemma {:induction false} WordsSkipSpaces(s: string, n: nat)
    requires n <= |s| && forall k :: 0 <= k < n ==> IsSpace(s[k])
    ensures Words(s) == Words(s[n..])
    decreases n
  {
    if n > 0 {
      assert s[1..][n - 1..] == s[n..];
      WordsSkipSpaces(s[1..], n - 1);
    }
  }

  /** A word followed by nothing or by whitespace is split off whole. */
  lemma WordsAfterWord(w: string, t: string)
    requires IsWord(w)
    requires |t| > 0 ==> IsSpace(t[0])
    ensures Words(w + t) == [w] + Words(t)
  {
    var s := w + t;
    WordRunIs(s, |w|);
    assert s[..|w|] == w && s[|w|..] == t;
  }

  lemma {:induction false} WordRunIs(s: string, n: nat)
    requires n <= |s| && forall k :: 0 <= k < n ==> !IsSpace(s[k])
    requires n < |s| ==> IsSpace(s[n])
    ensures WordRun(s) == n
    decreases n
  {
    if n > 0 {
      assert forall k :: 0 <= k < n - 1 ==> s[1..][k] == s[k + 1];
      WordRunIs(s[1..], n - 1);
    }
  }

  /** Whitespace after the last word changes nothing. */
  lemma {:induction false} WordsTrailingSpaces(s: string, post: string)
    requires forall k :: 0 <= k < |post| ==> IsSpace(post[k])
    ensures Words(s + post) == Words(s)
    decreases |s|
  {
    if |s| == 0 {
      assert s + post == post;
      WordsShape(post);
    } else if IsSpace(s[0]) {
      assert (s + post)[1..] == s[1..] + post;
      WordsTrailingSpaces(s[1..], post);
    } else {
      var n := WordRun(s);
      var w := s[..n];
      var t := s[n..];
      assert s == w + t;
      assert s + post == w + (t + post);
      WordsAfterWord(w, t + post);
      WordsTrailingSpaces(t, post);
    }
  }

  /** `s.strip().split()` is `s.split()`. */
  lemma WordsStrip(s: string)
    ensures Words(Strip(s)) == Words(s)
  {
    var r := Strip(s);
    var i :| InfixAfterStrip(s, r, i, Whitespace);
    var pre, post := s[..i], s[i + |r|..];
    assert s == pre + r + post;
    forall k | 0 <= k < |pre| ensures IsSpace(pre[k]) {
      assert pre[k] == s[k];
    }
    forall k | 0 <= k < |post| ensures IsSpace(post[k]) {
      assert post[k] == s[i + |r| + k];
    }
    WordsPadded(pre, r, post);
  }

  /** Whitespace around a string changes none of its words. */
  lemma WordsPadded(pre: string, r: string, post: string)
    requires forall k :: 0 <= k < |pre| ==> IsSpace(pre[k])
    requires forall k :: 0 <= k < |post| ==> IsSpace(post[k])
    ensures Words(pre + r + post) == Words(r)
  {
    var s := pre + r + post;
    WordsSkipSpaces(s, |pre|);
    assert s[|pre|..] == r + post;
    WordsTrailingSpaces(r, post);
  }

  /** Words joined by a single space split back into the same words. */
  lemma {:induction false} WordsJoin(ws: seq<string>)
    requires forall j :: 0 <= j < |ws| ==> IsWord(ws[j])
    ensures Words(Join(" ", ws)) == ws
    decreases |ws|
  {
    if |ws| == 1 {
      WordsAfterWord(ws[0], []);
      assert ws[0] + [] == ws[0];
    } else if |ws| > 1 {
      var rest := Join(" ", ws[1..]);
      WordsJoin(ws[1..]);
      assert Join(" ", ws) == ws[0] + (" " + rest);
      WordsAfterWord(ws[0], " " + rest);
      assert (" " + rest)[1..] == rest;
    }
  }

  /** `[rep]` when `b` holds, else nothing. */
  function Edge(b: bool, rep: char): string {
    if b then [rep] else []
  }

  /**
   * Reference for `re.sub(r"\s+", rep, s)`: the words of `s` joined by `rep`,
   * with one more `rep` in front when `s` starts with whitespace and one more
   * at the end when it ends with whitespace; a string of whitespace only
   * becomes a single `rep`.
   */
  function JoinedWords(s: string, rep: char): string {
    if Words(s) == [] then Edge(|s| > 0, rep)
    else Edge(IsSpace(s[0]), rep) + Join([rep], Words(s)) + Edge(IsSpace(s[|s| - 1]), rep)
  }

  /** `SubSpaceRuns` agrees with the word-based reference on every string. */
  lemma {:induction false} SubSpaceRunsWords(s: string, rep: char)
    ensures SubSpaceRuns(s, rep) == JoinedWords(s, rep)
    decreases |s|
  {
    if |s| == 0 {
    } else if IsSpace(s[0]) {
      SubSpaceRunsWords(s[SpaceRun(s)..], rep);
      SpaceRunStep(s, rep);
    } else {
      SubSpaceRunsWords(s[WordRun(s)..], rep);
      WordRunStep(s, rep);
    }
  }

  lemma SpaceRunStep(s: string, rep: char)
    requires |s| > 0 && IsSpace(s[0])
    requires SubSpaceRuns(s[SpaceRun(s)..], rep) == JoinedWords(s[SpaceRun(s)..], rep)
    ensures SubSpaceRuns(s, rep) == JoinedWords(s, rep)
  {
    var n := SpaceRun(s);
    var t := s[n..];
    assert SubSpaceRuns(s, rep) == [rep] + SubSpaceRuns(t, rep);
    WordsSkipSpaces(s, n);
    if |t| == 0 {
      assert Words(s) == [];
      assert JoinedWords(s, rep) == [rep];
      assert SubSpaceRuns(s, rep) == [rep] + [];
    } else {
      assert !IsSpace(t[0]);
      assert t[|t| - 1] == s[|s| - 1];
      SpaceThenWords(s, t, Words(t), rep);
    }
  }

  lemma SpaceThenWords(s: string, t: string, ws: seq<string>, rep: char)
    requires |s| > 0 && |t| > 0 && IsSpace(s[0]) && !IsSpace(t[0])
    requires t[|t| - 1] == s[|s| - 1] && Words(s) == ws && Words(t) == ws
    ensures [rep] + JoinedWords(t, rep) == JoinedWords(s, rep)
  {
    var e := Edge(IsSpace(s[|s| - 1]), rep);
    WordsShape(t);
    assert ws != [];
    JoinedWordsOf(t, rep, ws);
    JoinedWordsOf(s, rep, ws);
    assert JoinedWords(t, rep) == Join([rep], ws) + e;
    assert Edge(IsSpace(s[0]), rep) == [rep];
  }

  /** `JoinedWords` of a string with at least one word, once its words are known. */
  lemma JoinedWordsOf(s: string, rep: char, ws: seq<string>)
    requires |s| > 0 && Words(s) == ws
    ensures ws != [] ==> JoinedWords(s, rep) == Edge(IsSpace(s[0]), rep) + Join([rep], ws) + Edge(IsSpace(s[|s| - 1]), rep)
    ensures ws != [] && !IsSpace(s[0]) ==> JoinedWords(s, rep) == Join([rep], ws) + Edge(IsSpace(s[|s| - 1]), rep)
  {
    if ws != [] && !IsSpace(s[0]) {
      assert Edge(IsSpace(s[0]), rep) == [];
      assert [] + Join([rep], ws) == Join([rep], ws);
    }
  }

  lemma WordRunStep(s: string, rep: char)
    requires |s| > 0 && !IsSpace(s[0])
    requires SubSpaceRuns(s[WordRun(s)..], rep) == JoinedWords(s[WordRun(s)..], rep)
    ensures SubSpaceRuns(s, rep) == JoinedWords(s, rep)
  {
    var m := WordRun(s);
    var w := s[..m];
    var t := s[m..];
    assert s == w + t;
    SubSpaceRunsWord(w, t, rep);
    JoinedAfterWord(s, w, t, rep);
  }

  /** The reference, too, keeps the leading word `w` of `s == w + t` and goes on with `t`. */
  lemma JoinedAfterWord(s: string, w: string, t: string, rep: char)
    requires |s| > 0 && !IsSpace(s[0]) && w == s[..WordRun(s)] && t == s[WordRun(s)..]
    ensures w + JoinedWords(t, rep) == JoinedWords(s, rep)
  {
    assert Words(s) == [w] + Words(t);
    if |t| == 0 {
      assert s == w;
      WordAlone(s, w, rep);
      assert w + [] == w;
    } else {
      assert t[|t| - 1] == s[|s| - 1];
      assert IsSpace(t[0]);
      var ws := Words(t);
      if ws == [] {
        WordThenTrailingSpace(s, w, t, rep);
      } else {
        WordThenWords(s, w, t, ws, rep);
      }
    }
  }

  lemma WordAlone(s: string, w: string, rep: char)
    requires s == w && |s| > 0 && !IsSpace(s[0]) && !IsSpace(s[|s| - 1]) && Words(s) == [w]
    ensures JoinedWords(s, rep) == w
  {
    JoinedWordsOf(s, rep, [w]);
    assert Join([rep], [w]) == w;
  }

  lemma WordThenTrailingSpace(s: string, w: string, t: string, rep: char)
    requires |s| > 0 && |t| > 0 && !IsSpace(s[0]) && IsSpace(t[0]) && t[|t| - 1] == s[|s| - 1]
    requires Words(t) == [] && Words(s) == [w]
    ensures w + JoinedWords(t, rep) == JoinedWords(s, rep)
  {
    WordsShape(t);
    assert IsSpace(t[|t| - 1]);
    assert JoinedWords(t, rep) == [rep];
    JoinedWordsOf(s, rep, [w]);
    assert Join([rep], [w]) == w;
  }

  lemma WordThenWords(s: string, w: string, t: string, ws: seq<string>, rep: char)
    requires |s| > 0 && |t| > 0 && !IsSpace(s[0]) && IsSpace(t[0]) && t[|t| - 1] == s[|s| - 1]
    requires ws != [] && Words(t) == ws && Words(s) == [w] + ws
    ensures w + JoinedWords(t, rep) == JoinedWords(s, rep)
  {
    var e := Edge(IsSpace(s[|s| - 1]), rep);
    var j := Join([rep], ws);
    JoinedWordsOf(t, rep, ws);
    JoinedWordsOf(s, rep, [w] + ws);
    JoinCons([rep], w, ws);
    ConcatAssoc(w, [rep], j, e);
  }

  lemma ConcatAssoc(a: string, b: string, c: string, d: string)
    ensures a + (b + c + d) == a + b + c + d
  {
  }

  lemma JoinCons(sep: string, w: string, ws: seq<string>)
    requires ws != []
    ensures Join(sep, [w] + ws) == w + sep + Join(sep, ws)
  {
    assert ([w] + ws)[0] == w && ([w] + ws)[1..] == ws;
  }

  lemma {:induction false} SubSpaceRunsWord(w: string, t: string, rep: char)
    requires forall k :: 0 <= k < |w| ==> !IsSpace(w[k])
    ensures SubSpaceRuns(w + t, rep) == w + SubSpaceRuns(t, rep)
    decreases |w|
  {
    if |w| > 0 {
      assert (w + t)[0] == w[0];
      assert (w + t)[1..] == w[1..] + t;
      SubSpaceRunsWord(w[1..], t, rep);
      assert w == [w[0]] + w[1..];
    } else {
      assert w + t == t;
    }
  }

  /** On a string with no whitespace at either end, `re.sub(r"\s+", rep, s)` is `rep.join(s.split())`. */
  lemma SubSpaceRunsStripped(s: string, rep: char)
    requires |s| > 0 ==> !IsSpace(s[0]) && !IsSpace(s[|s| - 1])
    ensures SubSpaceRuns(s, rep) == Join([rep], Words(s))
  {
    SubSpaceRunsWords(s, rep);
    if |s| > 0 {
      WordsShape(s);
      assert Words(s) != [];
      assert JoinedWords(s, rep) == [] + Join([rep], Words(s)) + [];
    }
  }

  /** Lower-casing never turns a character into whitespace or whitespace into something else. */
  lemma LowerKeepsSpace(c: char)
    ensures IsSpace(LowerChar(c)) <==> IsSpace(c)
  {
  }

  /** `s.strip().lower() == s.lower().strip()`. */
  lemma LowerStrip(s: string)
    ensures Lower(Strip(s)) == Strip(Lower(s))
  {
    var r := Strip(s);
    var i :| InfixAfterStrip(s, r, i, Whitespace);
    LowerInfix(s, r, i);
    if |r| > 0 {
      LowerKeepsSpace(r[0]);
      LowerKeepsSpace(r[|r| - 1]);
    }
    StripCharsUnique(Lower(s), Whitespace, Lower(r), i);
  }

  lemma LowerInfix(s: string, r: string, i: int)
    requires InfixAfterStrip(s, r, i, Whitespace)
    ensures InfixAfterStrip(Lower(s), Lower(r), i, Whitespace)
  {
    var l := Lower(s);
    assert Lower(r) == l[i..i + |r|];
    forall k | 0 <= k < i ensures l[k] in Whitespace {
      LowerKeepsSpace(s[k]);
    }
    forall k | i + |r| <= k < |l| ensures l[k] in Whitespace {
      LowerKeepsSpace(s[k]);
    }
  }

  /** Collapsing whitespace runs keeps the words: `CollapseSpaces(s).split() == s.split()`. */
  lemma CollapseSpacesWords(s: string)
    ensures Words(CollapseSpaces(s)) == Words(s)
  {
    SubSpaceRunsWords(s, ' ');
    var ws := Words(s);
    assert CollapseSpaces(s) == JoinedWords(s, ' ');
    if ws == [] {
      assert CollapseSpaces(s) == Edge(|s| > 0, ' ');
    } else {
      var lead := Edge(IsSpace(s[0]), ' ');
      var trail := Edge(IsSpace(s[|s| - 1]), ' ');
      var j := Join(" ", ws);
      assert CollapseSpaces(s) == lead + (j + trail);
      WordsSkipSpaces(lead + (j + trail), |lead|);
      assert (lead + (j + trail))[|lead|..] == j + trail;
      WordsTrailingSpaces(j, trail);
      WordsShape(s);
      WordsJoin(ws);
    }
  }

  // ---------------------------------------------------------------------------
  // Replacement and joining

  /** `s.replace(a, b)` for single characters. */
  function ReplaceChar(s: string, a: char, b: char): (r: string)
    ensures |r| == |s|
    ensures forall i :: 0 <= i < |s| ==> r[i] == (if s[i] == a then b else s[i])
  {
    seq(|s|, i requires 0 <= i < |s| => if s[i] == a then b else s[i])
  }

  /** `sep.join(xs)`. */
  function Join(sep: string, xs: seq<string>): (r: string)
    ensures |xs| == 0 ==> r == []
    ensures |xs| > 0 && |xs[0]| > 0 ==> |r| > 0
  {
    if |xs| == 0 then []
    else if |xs| == 1 then xs[0]
    else xs[0] + sep + Join(sep, xs[1..])
  }

  /** Joining non-empty strings: the result starts with the first one's first character and ends with the last one's last. */
  lemma {:induction false} JoinEnds(sep: string, xs: seq<string>)
    requires |xs| > 0 && forall j :: 0 <= j < |xs| ==> xs[j] != []
    ensures |Join(sep, xs)| > 0
    ensures Join(sep, xs)[0] == xs[0][0]
    ensures Join(sep, xs)[|Join(sep, xs)| - 1] == xs[|xs| - 1][|xs[|xs| - 1]| - 1]
    decreases |xs|
  {
    if |xs| > 1 {
      var rest := Join(sep, xs[1..]);
      assert xs[1..][|xs[1..]| - 1] == xs[|xs| - 1];
      JoinEnds(sep, xs[1..]);
      assert Join(sep, xs) == xs[0] + sep + rest;
    }
  }
}
