/** `extract_unique_words`: the lower-cased, punctuation-stripped tokens of
    the lyric lines that are longer than two characters, deduplicated and
    returned in sorted order. */
module Tokenizer {
  import opened Text

  /** The cleaned form of one whitespace token: the punctuation set stripped
      from both ends, then lower-cased. */
  function Clean(tok: string): string {
    Lower(Strip(tok, IsPunct))
  }

  /** A cleaned token is the lower-cased form of an infix of the token
      reached by removing punctuation only, and, since lower-casing adds no
      punctuation, it neither starts nor ends with a punctuation character. */
  lemma CleanIsLoweredTrimmedInfix(tok: string)
    ensures exists i, j :: 0 <= i <= j <= |tok| && Clean(tok) == Lower(tok[i..j])
              && (forall k :: 0 <= k < i ==> IsPunct(tok[k]))
              && (forall k :: j <= k < |tok| ==> IsPunct(tok[k]))
    ensures var w := Clean(tok); w != [] ==> !IsPunct(w[0]) && !IsPunct(w[|w| - 1])
  {
    StripIsTrimmedInfix(tok, IsPunct);
    var w := Clean(tok);
    if w != [] {
      assert w[0] == LowerChar(Strip(tok, IsPunct)[0]);
      assert w[|w| - 1] == LowerChar(Strip(tok, IsPunct)[|w| - 1]);
    }
  }

  /** The union of `f(x)` over the elements of `xs`, built left to right as
      the loops add to the set. */
  ghost function UnionOver(xs: seq<string>, f: string -> set<string>): set<string> {
    if xs == [] then {} else UnionOver(xs[..|xs| - 1], f) + f(xs[|xs| - 1])
  }

  lemma {:induction false} UnionOverMembership(xs: seq<string>, f: string -> set<string>, w: string)
    ensures w in UnionOver(xs, f) <==> exists i :: 0 <= i < |xs| && w in f(xs[i])
  {
    if xs != [] {
      var n := |xs| - 1;
      UnionOverMembership(xs[..n], f, w);
      assert forall i :: 0 <= i < n ==> xs[..n][i] == xs[i];
    }
  }

  /** What one token adds: its cleaned form, when longer than two characters. */
  ghost function TokenWord(tok: string): set<string> {
    var w := Clean(tok);
    if |w| > 2 then {w} else {}
  }

  /** What one line adds. */
  ghost function LineWords(line: string): set<string> {
    UnionOver(Split(line), TokenWord)
  }

  /** The set the nested loops fill. */
  ghost function WordSet(lines: seq<string>): set<string> {
    UnionOver(lines, LineWords)
  }

  /** `sorted(list(words))`: the one strictly increasing sequence holding
      exactly the elements of `s`. */
  ghost function SortedOf(s: set<string>): seq<string> {
    SortedExists(s);
    var r :| StrictlySorted(r) && (forall x :: x in r <==> x in s); r
  }

  lemma SortedOfSpec(s: set<string>)
    ensures StrictlySorted(SortedOf(s))
    ensures forall x :: x in SortedOf(s) <==> x in s
  {
  }

  /** What `extract_unique_words(lines)` returns. */
  ghost function UniqueWords(lines: seq<string>): seq<string> {
    SortedOf(WordSet(lines))
  }

  /** Inserting a new element into a strictly sorted sequence. */
  function Insert(r: seq<string>, x: string): (r': seq<string>)
    requires StrictlySorted(r) && x !in r
    ensures StrictlySorted(r')
    ensures forall y :: y in r' <==> y in r || y == x
    ensures |r'| == |r| + 1
  {
    if r == [] then [x]
    else if Less(x, r[0]) then
      assert forall k :: 0 < k < |r| ==> Less(r[0], r[k]);
      LessTransitiveAll(x, r);
      [x] + r
    else
      LessTotal(x, r[0]);
      assert StrictlySorted(r[1..]) by {
        forall i, j | 0 <= i < j < |r[1..]| ensures Less(r[1..][i], r[1..][j]) {
          assert r[1..][i] == r[i + 1] && r[1..][j] == r[j + 1];
        }
      }
      assert x !in r[1..];
      var tail := Insert(r[1..], x);
      assert forall y :: y in tail ==> Less(r[0], y) by {
        forall y | y in tail ensures Less(r[0], y) {
          if y != x {
            var k :| 0 <= k < |r[1..]| && r[1..][k] == y;
            assert y == r[k + 1];
          }
        }
      }
      [r[0]] + tail
  }

  lemma {:induction false} SortedExists(s: set<string>)
    ensures exists r :: StrictlySorted(r) && (forall x :: x in r <==> x in s)
    decreases s
  {
    if s == {} {
      assert StrictlySorted([]) && (forall x :: x in [] <==> x in s);
    } else {
      var x :| x in s;
      SortedExists(s - {x});
      var r :| StrictlySorted(r) && (forall y :: y in r <==> y in s - {x});
      var r' := Insert(r, x);
      assert StrictlySorted(r') && (forall y :: y in r' <==> y in s);
    }
  }

  /** Two strictly sorted sequences with the same elements are equal, so
      `sorted` of a set is determined by the set. */
  lemma {:induction false} SortedUnique(a: seq<string>, b: seq<string>)
    requires StrictlySorted(a) && StrictlySorted(b)
    requires forall x :: x in a <==> x in b
    ensures a == b
    decreases |a|
  {
    NoElementsIsEmpty(a);
    NoElementsIsEmpty(b);
    if a != [] && b != [] {
      if a[0] != b[0] {
        assert b[0] in a && a[0] in b;
        var k :| 0 <= k < |a| && a[k] == b[0];
        var m :| 0 <= m < |b| && b[m] == a[0];
        assert Less(a[0], b[0]);
        assert Less(b[0], a[0]);
        LessAsymmetric(a[0], b[0]);
      }
      forall x | x in a[1..] ensures x in b[1..] {
        var k :| 0 <= k < |a[1..]| && a[1..][k] == x;
        assert Less(a[0], a[k + 1]);
        LessIrreflexive(a[0]);
        assert a[k + 1] in a;
        var m :| 0 <= m < |b| && b[m] == x;
        assert b[1..][m - 1] == x;
      }
      forall x | x in b[1..] ensures x in a[1..] {
        var k :| 0 <= k < |b[1..]| && b[1..][k] == x;
        assert Less(b[0], b[k + 1]);
        LessIrreflexive(b[0]);
        assert b[k + 1] in b;
        var m :| 0 <= m < |a| && a[m] == x;
        assert a[1..][m - 1] == x;
      }
      assert StrictlySorted(a[1..]) by {
        forall i, j | 0 <= i < j < |a[1..]| ensures Less(a[1..][i], a[1..][j]) {
          assert a[1..][i] == a[i + 1] && a[1..][j] == a[j + 1];
        }
      }
      assert StrictlySorted(b[1..]) by {
        forall i, j | 0 <= i < j < |b[1..]| ensures Less(b[1..][i], b[1..][j]) {
          assert b[1..][i] == b[i + 1] && b[1..][j] == b[j + 1];
        }
      }
      SortedUnique(a[1..], b[1..]);
      assert a == [a[0]] + a[1..] && b == [b[0]] + b[1..];
    }
  }

  lemma NoElementsIsEmpty(r: seq<string>)
    ensures (forall x :: x !in r) ==> r == []
  {
    if r != [] {
      assert r[0] in r;
    }
  }

  /** `sorted(list(words))` on the collected set. */
  method SortWords(s: set<string>) returns (r: seq<string>)
    ensures r == SortedOf(s)
  {
    r := [];
    var rest := s;
    while rest != {}
      invariant rest <= s
      invariant StrictlySorted(r)
      invariant forall x :: x in r <==> x in s && x !in rest
      decreases rest
    {
      var x :| x in rest;
      r := Insert(r, x);
      rest := rest - {x};
    }
    SortedOfSpec(s);
    SortedUnique(r, SortedOf(s));
  }

  /** `extract_unique_words`: every token of every line is cleaned and kept
      when longer than two characters; the kept set comes back sorted. */
  method ExtractUniqueWords(lines: seq<string>) returns (words: seq<string>)
    ensures words == UniqueWords(lines)
    ensures StrictlySorted(words)
    ensures forall w :: w in words ==> |w| > 2
  {
    var seen: set<string> := {};
    for i := 0 to |lines|
      invariant seen == WordSet(lines[..i])
    {
      var toks := Split(lines[i]);
      for j := 0 to |toks|
        invariant seen == WordSet(lines[..i]) + UnionOver(toks[..j], TokenWord)
      {
        var cleaned := Clean(toks[j]);
        if cleaned != [] && |cleaned| > 2 {
          seen := seen + {cleaned};
        }
        assert toks[..j + 1][..j] == toks[..j];
      }
      assert toks[..|toks|] == toks;
      assert lines[..i + 1][..i] == lines[..i];
    }
    assert lines[..|lines|] == lines;
    words := SortWords(seen);
    SortedOfSpec(seen);
    forall w | w in words ensures |w| > 2 {
      WordSetSound(lines, w);
    }
  }

  /** A collected word is the kept cleaned form of some token of some line. */
  lemma WordSetSound(lines: seq<string>, w: string)
    requires w in WordSet(lines)
    ensures exists i, j :: 0 <= i < |lines| && 0 <= j < |Split(lines[i])| && w in TokenWord(Split(lines[i])[j])
  {
    UnionOverMembership(lines, LineWords, w);
    var i :| 0 <= i < |lines| && w in LineWords(lines[i]);
    UnionOverMembership(Split(lines[i]), TokenWord, w);
  }

  /** The kept cleaned form of every token of every line is collected. */
  lemma WordSetComplete(lines: seq<string>, i: nat, j: nat, w: string)
    requires i < |lines| && j < |Split(lines[i])| && w in TokenWord(Split(lines[i])[j])
    ensures w in WordSet(lines)
  {
    UnionOverMembership(Split(lines[i]), TokenWord, w);
    UnionOverMembership(lines, LineWords, w);
  }

  /** Sorted and without duplicates. */
  lemma UniqueWordsSortedDistinct(lines: seq<string>)
    ensures StrictlySorted(UniqueWords(lines))
    ensures forall i, j :: 0 <= i < j < |UniqueWords(lines)| ==> UniqueWords(lines)[i] != UniqueWords(lines)[j]
  {
    SortedOfSpec(WordSet(lines));
    StrictlySortedDistinct(UniqueWords(lines));
  }

  /** Every returned word is longer than two characters, neither starts nor
      ends with a punctuation character, and is the cleaned form of some
      whitespace token of some line. */
  lemma UniqueWordsSound(lines: seq<string>, w: string)
    requires w in UniqueWords(lines)
    ensures |w| > 2
    ensures !IsPunct(w[0]) && !IsPunct(w[|w| - 1])
    ensures exists i, j :: 0 <= i < |lines| && 0 <= j < |Split(lines[i])| && Clean(Split(lines[i])[j]) == w
  {
    SortedOfSpec(WordSet(lines));
    WordSetSound(lines, w);
    var i, j :| 0 <= i < |lines| && 0 <= j < |Split(lines[i])| && w in TokenWord(Split(lines[i])[j]);
    var tok := Split(lines[i])[j];
    assert Clean(tok) == w;
    CleanIsLoweredTrimmedInfix(tok);
  }

  /** Every whitespace token whose cleaned form is longer than two characters
      is returned. */
  lemma UniqueWordsComplete(lines: seq<string>, i: nat, j: nat)
    requires i < |lines| && j < |Split(lines[i])|
    requires |Clean(Split(lines[i])[j])| > 2
    ensures Clean(Split(lines[i])[j]) in UniqueWords(lines)
  {
    var tok := Split(lines[i])[j];
    var w := Clean(tok);
    assert w in TokenWord(tok);
    WordSetComplete(lines, i, j, w);
    assert w in WordSet(lines);
    SortedOfSpec(WordSet(lines));
  }

  /** No lines, no words. */
  lemma UniqueWordsOfNoLines()
    ensures UniqueWords([]) == []
  {
    SortedOfSpec(WordSet([]));
    NoElementsIsEmpty(UniqueWords([]));
  }
}
