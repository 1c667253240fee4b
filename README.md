# Vocabulary generator for the Lyrics Trainer, modelled in Dafny

`generate_vocabulary.py` reads a JSON array of songs. For every song that
has no vocabulary yet, it does the following:

- It extracts the song's unique words from its lyric lines: split on
  whitespace, strip punctuation, lower-case, keep words longer than two
  characters, sort.
- It asks a chat-completion service for a translation and an explanation of
  each word.
- It stores one vocabulary entry per word that got an answer.

Finally it writes the collection back out.

This project models that core:

- `wrappers.dfy`: `Option` and `Result`.
- `text.dfy`: the pieces of Python's `str` semantics the core depends on.
  - `str.split()` with no separator, using the exact `str.isspace`
    character set.
  - `str.strip(chars)` and `str.lower()`.
  - Python's lexicographic code-point ordering of strings.
- `tokenizer.dfy`: `extract_unique_words`.
  - Two nested loops fill a set.
  - The set is sorted by repeated insertion.
  - The result is tied to a ghost specification `UniqueWords`: the unique
    strictly increasing sequence holding the kept cleaned tokens.
- `reply.dfy`: the reply handling of `generate_vocabulary`.
  - Trim.
  - The three fence-stripping reassignments.
  - Trim again.
  - JSON parse, then read both keys with `""` as the default.
  - The completion service and the JSON parser are function parameters.
- `songs.dfy`: the song loop of `process_songs`.
  - The song list is an `array<Song>` whose slots the loop overwrites.
  - The word collaborator is a function parameter (the oracle).
  - Each song's turn is specified by the ghost function `ProcessedSong`.
  - The calls the loop makes are specified by `Queries` / `AllQueries`.
- `pipeline.dfy`: `process_songs` end to end.
  - The outcomes of loading and writing the file are inputs.
  - The fatal failures are checked in the source's order, then the loop
    runs, then the collection is written.

## Model

| member | source | states |
|---|---|---|
| Tokenizer.ExtractUniqueWords | generate_vocabulary.py:34-48 | The nested loops return exactly `UniqueWords(lines)`. The result is strictly increasing, and every word in it is longer than two characters. |
| Tokenizer.SortWords | generate_vocabulary.py:48 | `sorted(list(words))` returns the unique strictly increasing sequence whose elements are exactly those of the set. |
| Tokenizer.UniqueWordsSortedDistinct | generate_vocabulary.py:39-48 | The extracted words are strictly increasing in code-point order and hold no duplicate. |
| Tokenizer.UniqueWordsSound | generate_vocabulary.py:40-47 | Every returned word is longer than two characters and neither starts nor ends with a punctuation character. It is the cleaned form of some whitespace token of some line. |
| Tokenizer.UniqueWordsComplete | generate_vocabulary.py:40-47 | Every whitespace token of every line whose cleaned form is longer than two characters is in the result. |
| Tokenizer.UniqueWordsOfNoLines | generate_vocabulary.py:39-48 | No lines give no words. |
| Tokenizer.CleanIsLoweredTrimmedInfix | generate_vocabulary.py:45 | A cleaned token is the lower-cased form of an infix of the token. Only punctuation is removed on either side. A non-empty result neither starts nor ends with punctuation. |
| Tokenizer.SortedUnique | generate_vocabulary.py:48 | Two strictly increasing sequences with the same elements are equal, so the sorted order is determined by the set. |
| Tokenizer.Insert | generate_vocabulary.py:48 | Inserting a new element keeps a sequence strictly increasing, adds exactly that element, and grows the length by one. |
| Tokenizer.WordSetSound | generate_vocabulary.py:40-47 | Every element of the collected set comes from a kept token of some line. |
| Tokenizer.WordSetComplete | generate_vocabulary.py:40-47 | Every kept token of every line is in the collected set. |
| Tokenizer.UnionOverMembership | generate_vocabulary.py:40-47 | An element is in the union of a per-item set over a list exactly when it is in the set of some item. |
| Text.SplitTokensAreWords | generate_vocabulary.py:42 | Every token of `split()` is non-empty and holds no whitespace character. |
| Text.SplitKeepsNonSpace | generate_vocabulary.py:42 | Joining the tokens of `split()` gives back every non-whitespace character of the line, in order. Nothing but whitespace is lost. |
| Text.StripIsTrimmedInfix | generate_vocabulary.py:45 | `strip(chars)` returns an infix of its input. Everything removed on the left and on the right is in `chars`. The ends of a non-empty result are not in `chars`. |
| Text.StripLeftSpec | generate_vocabulary.py:45 | The left strip returns a suffix. Every removed character is in `chars`. The first remaining character is not. |
| Text.StripRightSpec | generate_vocabulary.py:45 | The right strip returns a prefix. Every removed character is in `chars`. The last remaining character is not. |
| Text.SplitAtSpace | generate_vocabulary.py:42 | Tokens are maximal runs: a line with a space in it splits into the tokens before the space followed by the tokens after it, so no token spans a space. |
| Text.SplitOfWord | generate_vocabulary.py:42 | A non-empty word without spaces splits into itself alone. |
| Text.TokenLengthSpec | generate_vocabulary.py:42 | A token ends at the first whitespace character. |
| Text.LowerChar | generate_vocabulary.py:45 | Lower-casing maps punctuation to punctuation, whitespace to whitespace, and nothing else to either. |
| Text.LessIrreflexive | generate_vocabulary.py:48 | No string sorts before itself. |
| Text.LessAsymmetric | generate_vocabulary.py:48 | Two strings are never each before the other. |
| Text.LessTotal | generate_vocabulary.py:48 | Of two different strings, one sorts before the other. |
| Text.LessTransitive | generate_vocabulary.py:48 | The string order is transitive. |
| Text.StrictlySortedDistinct | generate_vocabulary.py:48 | A strictly increasing sequence has no duplicates. |
| Text.InfixTransitive | generate_vocabulary.py:88-97 | An infix of an infix is an infix. |
| Reply.StripFences | generate_vocabulary.py:89-95 | The three conditional reassignments compute `Unfenced(content)`. |
| Reply.UnfencedIsInfix | generate_vocabulary.py:89-95 | Fence stripping returns an infix of the reply, at most 13 characters shorter: a tagged fence, a bare fence and a closing fence. |
| Reply.UnfencedUnchanged | generate_vocabulary.py:89-95 | A reply that neither starts nor ends with a fence is unchanged. |
| Reply.UnfencedTaggedBlock | generate_vocabulary.py:90-95 | The tagged opening fence is checked first. A reply wrapped in "```json" and a closing fence gives back exactly its body, unless the body itself starts with a fence. |
| Reply.UnfencedBareBlock | generate_vocabulary.py:90-95 | A reply wrapped in bare fences gives back exactly its body, unless the body begins with the tag `json`. |
| Reply.BareFenceNotTagged | generate_vocabulary.py:90-93 | A bare fence followed by anything other than `json` is not taken for the tagged fence. |
| Reply.ReplyBodyIsTrimmedInfix | generate_vocabulary.py:88-97 | The text handed to the JSON parser is an infix of the reply and has no whitespace at either end. |
| Reply.GenerateVocabulary | generate_vocabulary.py:69-107 | A result exists exactly when there is a client, the service answers, and the parser accepts the trimmed unfenced reply. When a result exists, each key takes the object's value when present and `""` when absent. |
| Songs.EnrichWords | generate_vocabulary.py:187-201 | The inner loop logs the word of each oracle call as it makes it, and the log is exactly the word list, in order. It appends one entry per word the oracle answers, and returns `Enriched(words, oracle)`. |
| Songs.ProcessSong | generate_vocabulary.py:168-207 | One song's turn yields `ProcessedSong(song, oracle)`. Its call log, empty on each early return and otherwise the inner loop's log, is exactly `Queries(song)`. |
| Songs.ProcessSongs | generate_vocabulary.py:164-207 | After the loop, each slot holds its original song after that song's turn, in the same order. The oracle calls are the songs' queries, song by song. |
| Songs.PassThrough | generate_vocabulary.py:169-171 | A song that already has a non-empty vocabulary is left exactly as it is and costs no call. |
| Songs.SkipsSongWithoutLines | generate_vocabulary.py:174-177 | A song without lyric lines is left as it is and costs no call. |
| Songs.OnlyVocabularyChanges | generate_vocabulary.py:203-204 | A song's turn never changes its lines or any key other than `vocabulary`. |
| Songs.KeepsVocabularyWhenAllFail | generate_vocabulary.py:203-207 | When the oracle fails on every extracted word, the song keeps its prior vocabulary, absent or empty. |
| Songs.GeneratedVocabulary | generate_vocabulary.py:179-204 | A written vocabulary has the following properties: <br>- It is written only to a song that had none. <br>- It is non-empty. <br>- Its words are a subsequence of the extracted words, so strictly increasing and distinct. <br>- Each entry carries the oracle's answer for its word. <br>- Every extracted word the oracle answers has an entry. |
| Songs.StableOnRerun | generate_vocabulary.py:169-204 | A song that already had a vocabulary, or got one on its turn, is left as it is by any later run, whatever the collaborator answers then, and costs that run no call. A song its turn left unchanged is not covered: it is asked again later and may then get a vocabulary. |
| Songs.CollectionShape | generate_vocabulary.py:164-207 | The loop keeps the collection's length and order. Songs that already had a vocabulary are unchanged. No song's lines or other keys change. |
| Songs.NoCallsForPassedSongs | generate_vocabulary.py:164-171 | A collection whose every song already has a vocabulary costs no call. |
| Songs.EnrichedSubsequence | generate_vocabulary.py:188-196 | The entry words are a subsequence of the asked words. |
| Songs.EnrichedEntry | generate_vocabulary.py:189-196 | Every entry is for an asked word and carries the oracle's answer for it. |
| Songs.EnrichedComplete | generate_vocabulary.py:188-196 | Every asked word the oracle answers has an entry. |
| Songs.EnrichedSorted | generate_vocabulary.py:188-196 | Entries for a strictly increasing word list are strictly increasing. |
| Songs.EnrichedEmpty | generate_vocabulary.py:188-203 | No entry is produced exactly when the oracle fails on every word. |
| Pipeline.ResolveKey | generate_vocabulary.py:149-154 | A usable key exists exactly when the explicit key or the library default key is non-empty. |
| Pipeline.ProcessFile | generate_vocabulary.py:133-219 | The run fails on a missing input file, invalid JSON, a non-array, a missing key and a failed write, checked in that order. It succeeds exactly when none of those happens, given that no uncaught exception is raised (see "## Left out"). On success the written collection is the loaded one with every song processed by the collaborator. |

## Left out

- The chat-completion call: the prompt text, model name, temperature and token limit are not modelled. A reply is either a string or `ApiError`, given by a function parameter.
- `json.loads` and `json.load`: the parser is a parameter. Its result is reduced to the string-valued keys of a JSON object. A reply that parses to something other than an object makes the source raise an uncaught `AttributeError`, and that crash is not modelled.
- Reply.GenerateVocabulary: does not model a reply whose `message.content` is `None`, or keys whose values are not strings. In the source both lead to an uncaught exception or a non-string entry.
- Reading and writing the files: their outcomes are inputs of `Pipeline.ProcessFile` (the `Loaded` value and `writeSucceeds`). The output formatting (`ensure_ascii`, indentation, and the position of a newly added `vocabulary` key, which `json.dump` writes after the song's other keys) is not modelled.
- Every `print` (progress output, the song title and its `Song N` default) is I/O and does not affect the result.
- Pipeline.ProcessFile: assumes `batch_size` is non-zero. With `--batch-size 0` the progress test `word_idx % batch_size` raises an uncaught `ZeroDivisionError` at the first answered word, and nothing is written. The other uncaught crashes are not modelled either, so the model reports success where the source would raise:
  - errors from `open` and `json.load` other than a missing file or invalid JSON (`PermissionError`, `IsADirectoryError`, `UnicodeDecodeError`);
  - an `IndexError` for a completion without choices.
- `main`: argument parsing, the default output path and the exit code are not modelled.
- Tokenizer.Clean: `str.lower()` is modelled for ASCII and Latin-1 capitals only. Other scripts and multi-character lower-case mappings are not modelled.
- Songs.ProcessSongs: the collaborator is modelled as a function of the word. Two calls with the same word give the same answer, whereas the real service may answer differently each time. Across runs the model allows a different collaborator per run (`Songs.StableOnRerun`), but within one run every call for a word gets the same answer.
- Song objects: the `lines` key is either absent or a list of strings, and the `vocabulary` key is either absent or a list of entries. Any other JSON value under these two keys is not modelled (for example `null`, a string, or `0`, whose truthiness the source tests). Songs that are not JSON objects are not modelled either. Every other key holds an arbitrary JSON value (`Songs.Json`). The `others` map is meant never to hold the keys `lines` or `vocabulary` themselves, but no predicate enforces this, and none of the properties depends on it.
- The song dictionaries are updated in place in the source, while the model stores each updated song back into its array slot. The two agree because every song decoded by `json.load` is a distinct object.
