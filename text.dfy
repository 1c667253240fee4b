/** The parts of Python's `str` that the vocabulary generator relies on:
    `isspace()` (the separators of `split()` and `strip()` without arguments),
    `strip(chars)`, `split()`, `lower()` and the code-point ordering that
    `sorted()` applies to strings. */
module Text {

  /** `str.isspace()`: tab through carriage return, the four information
      separators, space, NEL, NBSP and the Unicode space separators. */
  predicate IsSpace(c: char) {
    var n := c as int;
    (0x09 <= n <= 0x0D) || (0x1C <= n <= 0x20) || n == 0x85 || n == 0xA0 || n == 0x1680
    || (0x2000 <= n <= 0x200A) || n == 0x2028 || n == 0x2029 || n == 0x202F || n == 0x205F
    || n == 0x3000
  }

  /** The characters the tokenizer strips from both ends of a token. */
  predicate IsPunct(c: char) {
    c == '.' || c == ',' || c == '!' || c == '?' || c == ';' || c == ':'
    || c == '\'' || c == '\"' || c == '«' || c == '»'
  }

  /** Lower-casing of one character: the ASCII capitals and the Latin-1
      capitals (À to Þ, without the multiplication sign) become their small
      letters; every other character is left as it is. */
  function LowerChar(c: char): (d: char)
    ensures IsPunct(d) <==> IsPunct(c)
    ensures IsSpace(d) <==> IsSpace(c)
  {
    var n := c as int;
    if 0x41 <= n <= 0x5A || 0xC0 <= n <= 0xD6 || 0xD8 <= n <= 0xDE then (n + 0x20) as char else c
  }

  /** `str.lower()`, character by character. */
  function Lower(s: string): string {
    seq(|s|, k requires 0 <= k < |s| => LowerChar(s[k]))
  }

  /** `str.lstrip(chars)`: drops leading `drop` characters. */
  function StripLeft(s: string, drop: char -> bool): (r: string)
    ensures |r| <= |s|
    decreases |s|
  {
    if s != [] && drop(s[0]) then StripLeft(s[1..], drop) else s
  }

  /** `lstrip` removes the longest prefix made of `drop` characters. */
  lemma {:induction false} StripLeftSpec(s: string, drop: char -> bool)
    ensures var r := StripLeft(s, drop);
            && r == s[|s| - |r|..]
            && (forall k :: 0 <= k < |s| - |r| ==> drop(s[k]))
            && (r != [] ==> !drop(r[0]))
    decreases |s|
  {
    if s != [] && drop(s[0]) {
      StripLeftSpec(s[1..], drop);
    }
  }

  /** `str.rstrip(chars)`: drops trailing `drop` characters. */
  function StripRight(s: string, drop: char -> bool): (r: string)
    ensures |r| <= |s|
    decreases |s|
  {
    if s != [] && drop(s[|s| - 1]) then StripRight(s[..|s| - 1], drop) else s
  }

  /** `rstrip` removes the longest suffix made of `drop` characters. */
  lemma {:induction false} StripRightSpec(s: string, drop: char -> bool)
    ensures var r := StripRight(s, drop);
            && r == s[..|r|]
            && (forall k :: |r| <= k < |s| ==> drop(s[k]))
            && (r != [] ==> !drop(r[|r| - 1]))
    decreases |s|
  {
    if s != [] && drop(s[|s| - 1]) {
      StripRightSpec(s[..|s| - 1], drop);
    }
  }

  /** `a` occurs in `s` as a contiguous run. */
  ghost predicate IsInfix(a: string, s: string) {
    exists i, j :: 0 <= i <= j <= |s| && a == s[i..j]
  }

  lemma InfixTransitive(a: string, b: string, c: string)
    requires IsInfix(a, b) && IsInfix(b, c)
    ensures IsInfix(a, c)
  {
    var i, j :| 0 <= i <= j <= |b| && a == b[i..j];
    var i', j' :| 0 <= i' <= j' <= |c| && b == c[i'..j'];
    forall k | 0 <= k < j - i ensures a[k] == c[i' + i + k] {
      assert a[k] == b[i + k];
    }
    assert a == c[i' + i..i' + j];
  }

  /** `str.strip(chars)`. */
  function Strip(s: string, drop: char -> bool): string {
    StripRight(StripLeft(s, drop), drop)
  }

  /** The result of `strip(chars)` is the infix of `s` left once every `drop`
      character is removed from both ends, and it neither starts nor ends
      with one. */
  lemma StripIsTrimmedInfix(s: string, drop: char -> bool)
    ensures exists i, j :: 0 <= i <= j <= |s| && Strip(s, drop) == s[i..j]
              && (forall k :: 0 <= k < i ==> drop(s[k]))
              && (forall k :: j <= k < |s| ==> drop(s[k]))
    ensures IsInfix(Strip(s, drop), s)
    ensures var r := Strip(s, drop); r != [] ==> !drop(r[0]) && !drop(r[|r| - 1])
  {
    var t := StripLeft(s, drop);
    var r := StripRight(t, drop);
    StripLeftSpec(s, drop);
    StripRightSpec(t, drop);
    var i := |s| - |t|;
    var j := i + |r|;
    assert r == s[i..j] by {
      assert t == s[i..];
      assert r == t[..|r|];
    }
    forall k | j <= k < |s| ensures drop(s[k]) {
      assert s[k] == t[k - i];
    }
  }

  /** Length of the run of non-space characters at the start of `t`. */
  function TokenLength(t: string): (n: nat)
    ensures n <= |t|
  {
    if t == [] || IsSpace(t[0]) then 0 else 1 + TokenLength(t[1..])
  }

  /** The run is maximal: it holds no space and is followed by one, if by anything. */
  lemma {:induction false} TokenLengthSpec(t: string)
    ensures var n := TokenLength(t);
            && (forall k :: 0 <= k < n ==> !IsSpace(t[k]))
            && (n < |t| ==> IsSpace(t[n]))
  {
    if t != [] && !IsSpace(t[0]) {
      TokenLengthSpec(t[1..]);
    }
  }

  /** `str.split()` without a separator: the maximal runs of non-space
      characters, in order. */
  function Split(s: string): seq<string>
    decreases |s|
  {
    var t := StripLeft(s, IsSpace);
    if t == [] then []
    else
      var n := TokenLength(t);
      [t[..n]] + Split(t[n..])
  }

  /** Every token of `split()` is non-empty and holds no space. */
  lemma {:induction false} SplitTokensAreWords(s: string)
    ensures forall t :: t in Split(s) ==> t != [] && forall k :: 0 <= k < |t| ==> !IsSpace(t[k])
    decreases |s|
  {
    var t := StripLeft(s, IsSpace);
    StripLeftSpec(s, IsSpace);
    if t != [] {
      var n := TokenLength(t);
      TokenLengthSpec(t);
      assert n > 0;
      SplitTokensAreWords(t[n..]);
      assert Split(s) == [t[..n]] + Split(t[n..]);
    }
  }

  /** The characters of `s` that are not spaces, in order. */
  function NonSpace(s: string): string {
    if s == [] then [] else (if IsSpace(s[0]) then [] else [s[0]]) + NonSpace(s[1..])
  }

  function Concat(toks: seq<string>): string {
    if toks == [] then [] else toks[0] + Concat(toks[1..])
  }

  lemma {:induction false} NonSpaceAppend(a: string, b: string)
    ensures NonSpace(a + b) == NonSpace(a) + NonSpace(b)
  {
    if a != [] {
      assert (a + b)[1..] == a[1..] + b;
      NonSpaceAppend(a[1..], b);
    } else {
      assert a + b == b;
    }
  }

  lemma {:induction false} NonSpaceOfSpaces(s: string)
    requires forall k :: 0 <= k < |s| ==> IsSpace(s[k])
    ensures NonSpace(s) == []
  {
    if s != [] {
      NonSpaceOfSpaces(s[1..]);
    }
  }

  lemma {:induction false} NonSpaceOfWord(s: string)
    requires forall k :: 0 <= k < |s| ==> !IsSpace(s[k])
    ensures NonSpace(s) == s
  {
    if s != [] {
      NonSpaceOfWord(s[1..]);
    }
  }

  lemma NonSpaceAfterStrip(s: string)
    ensures NonSpace(StripLeft(s, IsSpace)) == NonSpace(s)
  {
    var t := StripLeft(s, IsSpace);
    StripLeftSpec(s, IsSpace);
    var p := s[..|s| - |t|];
    assert s == p + t;
    NonSpaceOfSpaces(p);
    NonSpaceAppend(p, t);
  }

  lemma NonSpaceOfToken(t: string)
    ensures NonSpace(t) == t[..TokenLength(t)] + NonSpace(t[TokenLength(t)..])
  {
    var n := TokenLength(t);
    TokenLengthSpec(t);
    var word, rest := t[..n], t[n..];
    assert t == word + rest;
    NonSpaceAppend(word, rest);
    NonSpaceOfWord(word);
  }

  /** `split()` loses only whitespace: joining its tokens gives back every
      non-space character of the line, in order. */
  lemma {:induction false} SplitKeepsNonSpace(s: string)
    ensures Concat(Split(s)) == NonSpace(s)
    decreases |s|
  {
    var t := StripLeft(s, IsSpace);
    NonSpaceAfterStrip(s);
    if t != [] {
      var n := TokenLength(t);
      NonSpaceOfToken(t);
      SplitKeepsNonSpace(t[n..]);
      var toks := Split(s);
      assert toks == [t[..n]] + Split(t[n..]);
      assert toks[1..] == Split(t[n..]);
    }
  }

  /** Stripping leading characters from `x + y` strips inside `x` when `x`
      has a character to keep, and inside `y` otherwise. */
  lemma {:induction false} StripLeftAppend(x: string, y: string, drop: char -> bool)
    ensures StripLeft(x, drop) != [] ==> StripLeft(x + y, drop) == StripLeft(x, drop) + y
    ensures StripLeft(x, drop) == [] ==> StripLeft(x + y, drop) == StripLeft(y, drop)
    decreases |x|
  {
    if x == [] {
      assert x + y == y;
    } else {
      assert (x + y)[0] == x[0];
      if drop(x[0]) {
        assert (x + y)[1..] == x[1..] + y;
        StripLeftAppend(x[1..], y, drop);
      }
    }
  }

  /** A token of `t` is not lengthened by what follows `t`, unless it runs to
      the end of `t`; then a following space still ends it. */
  lemma {:induction false} TokenLengthAppend(t: string, y: string)
    ensures TokenLength(t) < |t| ==> TokenLength(t + y) == TokenLength(t)
    ensures TokenLength(t) == |t| && y != [] && IsSpace(y[0]) ==> TokenLength(t + y) == |t|
  {
    if t == [] {
      assert t + y == y;
    } else {
      assert (t + y)[0] == t[0];
      if !IsSpace(t[0]) {
        assert (t + y)[1..] == t[1..] + y;
        TokenLengthAppend(t[1..], y);
      }
    }
  }

  /** A word without spaces is its own single token. */
  lemma {:induction false} TokenLengthOfWord(w: string)
    requires forall k :: 0 <= k < |w| ==> !IsSpace(w[k])
    ensures TokenLength(w) == |w|
  {
    if w != [] {
      TokenLengthOfWord(w[1..]);
    }
  }

  /** `split()` of a non-empty word without spaces is that word alone. */
  lemma SplitOfWord(w: string)
    requires w != [] && forall k :: 0 <= k < |w| ==> !IsSpace(w[k])
    ensures Split(w) == [w]
  {
    TokenLengthOfWord(w);
    assert StripLeft(w, IsSpace) == w;
    assert w[..|w|] == w;
    assert w[|w|..] == [];
  }

  /** `split()` looks only at what is left once the leading spaces are gone. */
  lemma SplitSameStrip(x: string, y: string)
    requires StripLeft(x, IsSpace) == StripLeft(y, IsSpace)
    ensures Split(x) == Split(y)
  {
  }

  lemma SplitUnfold(x: string)
    requires StripLeft(x, IsSpace) != []
    ensures var t := StripLeft(x, IsSpace);
            Split(x) == [t[..TokenLength(t)]] + Split(t[TokenLength(t)..])
  {
  }

  /** A line that starts with spaces only, then a space, splits as what
      follows the space. */
  lemma SplitAfterSpaces(a: string, y: string)
    requires StripLeft(a, IsSpace) == [] && y != [] && IsSpace(y[0])
    ensures Split(a + y) == Split(y[1..])
  {
    StripLeftAppend(a, y, IsSpace);
    assert y == [y[0]] + y[1..];
    StripLeftAppend([y[0]], y[1..], IsSpace);
    assert StripLeft([y[0]], IsSpace) == [];
    SplitSameStrip(a + y, y[1..]);
  }

  /** The first token of a line is not extended by what follows it when
      that starts with a space. */
  lemma SplitFirstToken(a: string, y: string)
    requires StripLeft(a, IsSpace) != [] && y != [] && IsSpace(y[0])
    ensures var t := StripLeft(a, IsSpace);
            var n := TokenLength(t);
            Split(a + y) == [t[..n]] + Split(t[n..] + y)
  {
    var t := StripLeft(a, IsSpace);
    var n := TokenLength(t);
    var u := t + y;
    assert StripLeft(a + y, IsSpace) == u by {
      StripLeftAppend(a, y, IsSpace);
    }
    assert TokenLength(u) == n by {
      TokenLengthAppend(t, y);
    }
    SplitUnfold(a + y);
    assert u[..n] == t[..n];
    assert u[n..] == t[n..] + y;
  }

  /** Tokens are maximal runs: a space splits a line into the tokens before
      it followed by the tokens after it, and no token spans it. */
  lemma {:induction false} SplitAtSpace(a: string, c: char, b: string)
    requires IsSpace(c)
    ensures Split(a + [c] + b) == Split(a) + Split(b)
    decreases |a|
  {
    var y := [c] + b;
    assert a + [c] + b == a + y;
    assert y[1..] == b;
    var t := StripLeft(a, IsSpace);
    if t == [] {
      SplitAfterSpaces(a, y);
    } else {
      var n := TokenLength(t);
      StripLeftSpec(a, IsSpace);
      SplitFirstToken(a, y);
      SplitUnfold(a);
      assert t[n..] + [c] + b == t[n..] + y;
      SplitAtSpace(t[n..], c, b);
    }
  }

  /** Python's string comparison: lexicographic by code point, a proper
      prefix coming first. */
  predicate Less(a: string, b: string)
    decreases |a|
  {
    if a == [] then b != []
    else if b == [] then false
    else if a[0] != b[0] then a[0] < b[0]
    else Less(a[1..], b[1..])
  }

  lemma {:induction false} LessIrreflexive(a: string)
    ensures !Less(a, a)
  {
    if a != [] {
      LessIrreflexive(a[1..]);
    }
  }

  lemma {:induction false} LessAsymmetric(a: string, b: string)
    ensures Less(a, b) ==> !Less(b, a)
    decreases |a|
  {
    if a != [] && b != [] && a[0] == b[0] {
      LessAsymmetric(a[1..], b[1..]);
    }
  }

  lemma {:induction false} LessTotal(a: string, b: string)
    ensures a == b || Less(a, b) || Less(b, a)
    decreases |a|
  {
    if a != [] && b != [] && a[0] == b[0] {
      LessTotal(a[1..], b[1..]);
      if a[1..] == b[1..] {
        assert a == [a[0]] + a[1..] && b == [b[0]] + b[1..];
      }
    }
  }

  /** An element below the head of a strictly sorted sequence is below all of it. */
  lemma LessTransitiveAll(x: string, r: seq<string>)
    requires r != [] && Less(x, r[0])
    requires forall k :: 0 < k < |r| ==> Less(r[0], r[k])
    ensures forall k :: 0 <= k < |r| ==> Less(x, r[k])
  {
    forall k | 0 < k < |r| ensures Less(x, r[k]) {
      LessTransitive(x, r[0], r[k]);
    }
  }

  /** The string order is transitive. */
  lemma {:induction false} LessTransitive(a: string, b: string, c: string)
    requires Less(a, b) && Less(b, c)
    ensures Less(a, c)
    decreases |a|
  {
    if a != [] && b != [] && c != [] && a[0] == b[0] && b[0] == c[0] {
      LessTransitive(a[1..], b[1..], c[1..]);
    }
  }

  /** The order `sorted()` produces from a set: strictly increasing. */
  ghost predicate StrictlySorted(r: seq<string>) {
    forall i, j :: 0 <= i < j < |r| ==> Less(r[i], r[j])
  }

  lemma StrictlySortedDistinct(r: seq<string>)
    requires StrictlySorted(r)
    ensures forall i, j :: 0 <= i < j < |r| ==> r[i] != r[j]
  {
    forall i, j | 0 <= i < j < |r| ensures r[i] != r[j] {
      LessIrreflexive(r[i]);
    }
  }
}
