/** The song loop of `process_songs`: every song without a vocabulary, but
    with lyric lines and extracted words, gets one vocabulary entry per word
    the collaborator succeeds on, in sorted word order; every other song,
    and every other field, is left as it was. */
module Songs {
  import opened Wrappers
  import opened Text
  import opened Tokenizer
  import opened Reply

  /** `{"word": ..., "translation": ..., "explanation": ...}`. */
  datatype Entry = Entry(word: string, translation: string, explanation: string)

  /** A JSON value, carried along untouched; a number is kept as its
      literal text. */
  datatype Json =
    | JNull
    | JBool(b: bool)
    | JNumber(literal: string)
    | JString(text: string)
    | JArray(items: seq<Json>)
    | JObject(fields: map<string, Json>)

  /** A song object: its optional `lines` and `vocabulary` keys; every other
      key (the title among them) is carried along untouched in `others`. */
  datatype Song = Song(lines: Option<seq<string>>, vocabulary: Option<seq<Entry>>, others: map<string, Json>)

  /** The collaborator, as `generate_vocabulary(word, language, client, model)`. */
  type Oracle = string -> Option<VocabResult>

  /** `song.get('vocabulary')` is truthy: present and non-empty. */
  predicate HasVocabulary(s: Song) {
    s.vocabulary.Some? && s.vocabulary.value != []
  }

  /** `song.get('lines', [])`. */
  function LinesOf(s: Song): seq<string> {
    if s.lines.Some? then s.lines.value else []
  }

  function EntryWords(v: seq<Entry>): (ws: seq<string>)
    ensures |ws| == |v|
    ensures forall k :: 0 <= k < |v| ==> ws[k] == v[k].word
  {
    seq(|v|, k requires 0 <= k < |v| => v[k].word)
  }

  /** The entries the inner loop appends: one for each word the oracle
      succeeds on, in the order of `words`. */
  function Enriched(words: seq<string>, oracle: Oracle): seq<Entry> {
    if words == [] then []
    else
      var w := words[|words| - 1];
      Enriched(words[..|words| - 1], oracle)
        + match oracle(w)
          case Some(v) => [Entry(w, v.translation, v.explanation)]
          case None => []
  }

  /** The inner loop: one oracle call per word, successes appended in order.
      `asked` logs the word of every call, as the call is made. */
  method EnrichWords(words: seq<string>, oracle: Oracle) returns (vocabulary: seq<Entry>, asked: seq<string>)
    ensures vocabulary == Enriched(words, oracle)
    ensures asked == words
  {
    vocabulary, asked := [], [];
    for i := 0 to |words|
      invariant vocabulary == Enriched(words[..i], oracle)
      invariant asked == words[..i]
    {
      var entry := oracle(words[i]);
      asked := asked + [words[i]];
      if entry.Some? {
        vocabulary := vocabulary + [Entry(words[i], entry.value.translation, entry.value.explanation)];
      }
      assert words[..i + 1][..i] == words[..i];
    }
    assert words[..|words|] == words;
  }

  /** The words the song's turn asks the oracle about, in order: none for a
      song that already has a vocabulary or has no lines. */
  ghost function Queries(s: Song): seq<string> {
    if HasVocabulary(s) || LinesOf(s) == [] then [] else UniqueWords(LinesOf(s))
  }

  /** The song as it is after its turn in the loop: the vocabulary key is
      written exactly when some asked word produced an entry. */
  ghost function ProcessedSong(s: Song, oracle: Oracle): Song {
    var vocabulary := Enriched(Queries(s), oracle);
    if vocabulary != [] then s.(vocabulary := Some(vocabulary)) else s
  }

  /** One turn of the outer loop. */
  method ProcessSong(song: Song, oracle: Oracle) returns (out: Song, asked: seq<string>)
    ensures out == ProcessedSong(song, oracle)
    ensures asked == Queries(song)
  {
    out, asked := song, [];
    if HasVocabulary(song) {
      return;
    }
    var lines := LinesOf(song);
    if lines == [] {
      return;
    }
    var words := ExtractUniqueWords(lines);
    if words == [] {
      return;
    }
    var vocabulary;
    vocabulary, asked := EnrichWords(words, oracle);
    if vocabulary != [] {
      out := song.(vocabulary := Some(vocabulary));
    }
  }

  /** Every call the whole loop makes, in order. */
  ghost function AllQueries(songs: seq<Song>): seq<string> {
    if songs == [] then [] else AllQueries(songs[..|songs| - 1]) + Queries(songs[|songs| - 1])
  }

  /** The collection after the loop. */
  ghost function ProcessedAll(songs: seq<Song>, oracle: Oracle): (r: seq<Song>)
    ensures |r| == |songs|
    ensures forall k :: 0 <= k < |songs| ==> r[k] == ProcessedSong(songs[k], oracle)
  {
    seq(|songs|, k requires 0 <= k < |songs| => ProcessedSong(songs[k], oracle))
  }

  lemma AllQueriesStep(songs: seq<Song>, k: nat)
    requires k < |songs|
    ensures AllQueries(songs[..k + 1]) == AllQueries(songs[..k]) + Queries(songs[k])
  {
    assert songs[..k + 1][..k] == songs[..k];
  }

  /** The collection part-way through the loop: the first `k` songs have
      had their turn, the rest are as they were. */
  ghost function PartlyProcessed(songs: seq<Song>, k: nat, oracle: Oracle): seq<Song>
    requires k <= |songs|
  {
    ProcessedAll(songs[..k], oracle) + songs[k..]
  }

  lemma PartlyProcessedEnds(songs: seq<Song>, oracle: Oracle)
    ensures PartlyProcessed(songs, 0, oracle) == songs
    ensures PartlyProcessed(songs, |songs|, oracle) == ProcessedAll(songs, oracle)
  {
    assert songs[..|songs|] == songs;
  }

  lemma PartlyProcessedStep(songs: seq<Song>, k: nat, oracle: Oracle)
    requires k < |songs|
    ensures PartlyProcessed(songs, k, oracle)[k] == songs[k]
    ensures PartlyProcessed(songs, k, oracle)[k := ProcessedSong(songs[k], oracle)] == PartlyProcessed(songs, k + 1, oracle)
  {
  }

  /** The loop over the song list, each song object updated in its slot. */
  method ProcessSongs(songs: array<Song>, oracle: Oracle) returns (asked: seq<string>)
    modifies songs
    ensures songs[..] == ProcessedAll(old(songs[..]), oracle)
    ensures asked == AllQueries(old(songs[..]))
  {
    ghost var original := songs[..];
    PartlyProcessedEnds(original, oracle);
    asked := [];
    for k := 0 to songs.Length
      invariant songs[..] == PartlyProcessed(original, k, oracle)
      invariant asked == AllQueries(original[..k])
    {
      PartlyProcessedStep(original, k, oracle);
      AllQueriesStep(original, k);
      var song, songAsked := ProcessSong(songs[k], oracle);
      songs[k] := song;
      asked := asked + songAsked;
    }
    assert original[..songs.Length] == original;
  }

  // Properties of one song's turn

  /** A song that already has a non-empty vocabulary is left exactly as it
      is, and the oracle is not asked about any of its words. */
  lemma PassThrough(s: Song, oracle: Oracle)
    requires HasVocabulary(s)
    ensures ProcessedSong(s, oracle) == s
    ensures Queries(s) == []
  {
  }

  /** A song without lyric lines is skipped without a call. */
  lemma SkipsSongWithoutLines(s: Song, oracle: Oracle)
    requires LinesOf(s) == []
    ensures ProcessedSong(s, oracle) == s
    ensures Queries(s) == []
  {
  }

  /** Only the vocabulary key is ever written. */
  lemma OnlyVocabularyChanges(s: Song, oracle: Oracle)
    ensures ProcessedSong(s, oracle).lines == s.lines
    ensures ProcessedSong(s, oracle).others == s.others
  {
  }

  /** When the oracle fails on every extracted word, the song keeps its
      prior vocabulary (absent or empty). */
  lemma KeepsVocabularyWhenAllFail(s: Song, oracle: Oracle)
    requires forall w :: w in UniqueWords(LinesOf(s)) ==> oracle(w).None?
    ensures ProcessedSong(s, oracle) == s
  {
    EnrichedEmpty(UniqueWords(LinesOf(s)), oracle);
  }

  /** A generated vocabulary is non-empty; its words are a subsequence of
      the song's extracted words, hence strictly increasing and distinct;
      each entry carries the oracle's answer for its word; and every extracted
      word the oracle succeeds on has an entry. */
  lemma GeneratedVocabulary(s: Song, oracle: Oracle)
    requires ProcessedSong(s, oracle).vocabulary != s.vocabulary
    ensures !HasVocabulary(s)
    ensures var words := UniqueWords(LinesOf(s));
            var v := ProcessedSong(s, oracle).vocabulary.value;
            && v != []
            && IsSubsequence(EntryWords(v), words)
            && StrictlySorted(EntryWords(v))
            && (forall i, j :: 0 <= i < j < |v| ==> v[i].word != v[j].word)
            && (forall e :: e in v ==> oracle(e.word) == Some(VocabResult(e.translation, e.explanation)))
            && (forall w :: w in words && oracle(w).Some? ==> w in EntryWords(v))
  {
    var words := UniqueWords(LinesOf(s));
    var v := Enriched(words, oracle);
    EnrichedSubsequence(words, oracle);
    EnrichedSorted(words, oracle);
    StrictlySortedDistinct(EntryWords(v));
    forall e | e in v ensures oracle(e.word) == Some(VocabResult(e.translation, e.explanation)) {
      EnrichedEntry(words, oracle, e);
    }
    forall w | w in words && oracle(w).Some? ensures w in EntryWords(v) {
      EnrichedComplete(words, oracle, w);
    }
  }

  /** A song that already had a vocabulary, or got one on this turn, keeps
      it on any later run, whatever the collaborator answers then, and costs
      that run no call. (A song this turn left unchanged is asked again on a
      later run and may then get a vocabulary.) */
  lemma StableOnRerun(s: Song, first: Oracle, later: Oracle)
    requires HasVocabulary(s) || ProcessedSong(s, first) != s
    ensures ProcessedSong(ProcessedSong(s, first), later) == ProcessedSong(s, first)
    ensures Queries(ProcessedSong(s, first)) == []
  {
  }

  // Properties of the inner loop

  /** `a` can be obtained from `b` by deleting elements. */
  ghost predicate IsSubsequence(a: seq<string>, b: seq<string>)
    decreases |b|
  {
    a == []
    || (b != []
        && ((a[|a| - 1] == b[|b| - 1] && IsSubsequence(a[..|a| - 1], b[..|b| - 1]))
            || IsSubsequence(a, b[..|b| - 1])))
  }

  lemma EntryWordsAppend(v: seq<Entry>, e: Entry)
    ensures EntryWords(v + [e]) == EntryWords(v) + [e.word]
  {
  }

  lemma {:induction false} EnrichedSubsequence(words: seq<string>, oracle: Oracle)
    ensures IsSubsequence(EntryWords(Enriched(words, oracle)), words)
  {
    if words != [] {
      var n := |words| - 1;
      var w := words[n];
      var prev := Enriched(words[..n], oracle);
      EnrichedSubsequence(words[..n], oracle);
      match oracle(w)
      case Some(r) =>
        var e := Entry(w, r.translation, r.explanation);
        assert Enriched(words, oracle) == prev + [e];
        EntryWordsAppend(prev, e);
        var a := EntryWords(prev + [e]);
        assert a[..|a| - 1] == EntryWords(prev);
      case None =>
        assert Enriched(words, oracle) == prev;
    }
  }

  /** Every entry is for a word of the list, with the oracle's answer. */
  lemma {:induction false} EnrichedEntry(words: seq<string>, oracle: Oracle, e: Entry)
    requires e in Enriched(words, oracle)
    ensures e.word in words
    ensures oracle(e.word) == Some(VocabResult(e.translation, e.explanation))
  {
    var n := |words| - 1;
    if e in Enriched(words[..n], oracle) {
      EnrichedEntry(words[..n], oracle, e);
      assert words[..n] <= words;
    }
  }

  /** Every word of the list that the oracle succeeds on has an entry. */
  lemma {:induction false} EnrichedComplete(words: seq<string>, oracle: Oracle, w: string)
    requires w in words && oracle(w).Some?
    ensures w in EntryWords(Enriched(words, oracle))
  {
    var n := |words| - 1;
    var prev := Enriched(words[..n], oracle);
    if words[n] == w {
      var r := oracle(w).value;
      EntryWordsAppend(prev, Entry(w, r.translation, r.explanation));
    } else {
      assert w in words[..n];
      EnrichedComplete(words[..n], oracle, w);
      match oracle(words[n])
      case Some(r) =>
        EntryWordsAppend(prev, Entry(words[n], r.translation, r.explanation));
      case None =>
        assert Enriched(words, oracle) == prev;
    }
  }

  /** Entries follow the order of a strictly sorted word list. */
  lemma {:induction false} EnrichedSorted(words: seq<string>, oracle: Oracle)
    requires StrictlySorted(words)
    ensures StrictlySorted(EntryWords(Enriched(words, oracle)))
  {
    if words != [] {
      var n := |words| - 1;
      var w := words[n];
      var prev := Enriched(words[..n], oracle);
      EnrichedSorted(words[..n], oracle);
      match oracle(w)
      case Some(r) =>
        var e := Entry(w, r.translation, r.explanation);
        EntryWordsAppend(prev, e);
        var a := EntryWords(prev + [e]);
        forall i, j | 0 <= i < j < |a| ensures Less(a[i], a[j]) {
          if j == |a| - 1 {
            assert a[i] == prev[i].word;
            EnrichedEntry(words[..n], oracle, prev[i]);
            var k :| 0 <= k < n && words[..n][k] == prev[i].word;
            assert words[k] == a[i];
          } else {
            assert a[i] == EntryWords(prev)[i] && a[j] == EntryWords(prev)[j];
          }
        }
      case None =>
    }
  }

  /** The list of entries is empty exactly when the oracle fails on every word. */
  lemma {:induction false} EnrichedEmpty(words: seq<string>, oracle: Oracle)
    ensures Enriched(words, oracle) == [] <==> forall w :: w in words ==> oracle(w).None?
  {
    if words != [] {
      var n := |words| - 1;
      EnrichedEmpty(words[..n], oracle);
      assert forall w :: w in words <==> w in words[..n] || w == words[n];
    }
  }

  // Properties of the whole loop

  /** The collection keeps its length and order: the k-th song out is the
      k-th song in after its turn, and a song passed through is equal to the
      song that came in. */
  lemma CollectionShape(songs: seq<Song>, oracle: Oracle, k: nat)
    requires k < |songs|
    ensures |ProcessedAll(songs, oracle)| == |songs|
    ensures HasVocabulary(songs[k]) ==> ProcessedAll(songs, oracle)[k] == songs[k]
    ensures ProcessedAll(songs, oracle)[k].lines == songs[k].lines
    ensures ProcessedAll(songs, oracle)[k].others == songs[k].others
  {
  }

  /** A collection whose every song already has a vocabulary costs no
      oracle call at all. */
  lemma {:induction false} NoCallsForPassedSongs(songs: seq<Song>)
    requires forall k :: 0 <= k < |songs| ==> HasVocabulary(songs[k])
    ensures AllQueries(songs) == []
  {
    if songs != [] {
      NoCallsForPassedSongs(songs[..|songs| - 1]);
    }
  }
}
