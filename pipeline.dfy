/** `process_songs` end to end: load, credential, the song loop, write. File
    reading, JSON decoding and writing are not modelled; their outcomes are
    inputs. */
module Pipeline {
  import opened Wrappers
  import opened Reply
  import opened Songs

  /** What opening and decoding the input file gave. */
  datatype Loaded = FileNotFound | InvalidJson | NotAnArray | SongArray(songs: seq<Song>)

  /** The reasons the run returns False. */
  datatype RunError = InputNotFound | InputMalformed | InputShapeInvalid | MissingCredential | OutputWriteError

  /** A key counts when it is present and non-empty. */
  predicate HasKey(key: Option<string>) {
    key.Some? && key.value != ""
  }

  /** The explicit key, or else the library-wide default key. */
  function ResolveKey(apiKey: Option<string>, defaultKey: Option<string>): (k: Option<string>)
    ensures HasKey(k) <==> HasKey(apiKey) || HasKey(defaultKey)
  {
    if HasKey(apiKey) then apiKey else defaultKey
  }

  /** `generate_vocabulary` with a client in place, as the loop calls it. */
  function Collaborator(complete: string -> Completion, parse: string -> Option<JsonObject>): Oracle {
    w => GenerateVocabulary(w, true, complete, parse)
  }

  /** The run: the fatal failures in the order the source checks them, and
      on success the written collection, which is the loaded one with every
      song processed. */
  method ProcessFile(input: Loaded, apiKey: Option<string>, defaultKey: Option<string>,
                     complete: string -> Completion, parse: string -> Option<JsonObject>,
                     writeSucceeds: bool)
    returns (r: Result<seq<Song>, RunError>)
    ensures input.FileNotFound? ==> r == Failure(InputNotFound)
    ensures input.InvalidJson? ==> r == Failure(InputMalformed)
    ensures input.NotAnArray? ==> r == Failure(InputShapeInvalid)
    ensures input.SongArray? && !HasKey(apiKey) && !HasKey(defaultKey) ==> r == Failure(MissingCredential)
    ensures input.SongArray? && (HasKey(apiKey) || HasKey(defaultKey)) && !writeSucceeds ==> r == Failure(OutputWriteError)
    ensures r.Success? <==> input.SongArray? && (HasKey(apiKey) || HasKey(defaultKey)) && writeSucceeds
    ensures r.Success? ==> r.value == ProcessedAll(input.songs, Collaborator(complete, parse))
  {
    match input
    case FileNotFound => return Failure(InputNotFound);
    case InvalidJson => return Failure(InputMalformed);
    case NotAnArray => return Failure(InputShapeInvalid);
    case SongArray(loaded) =>
      var key := ResolveKey(apiKey, defaultKey);
      if !HasKey(key) {
        return Failure(MissingCredential);
      }
      var songs := new Song[|loaded|](k requires 0 <= k < |loaded| => loaded[k]);
      assert songs[..] == loaded;
      var _ := ProcessSongs(songs, Collaborator(complete, parse));
      if !writeSucceeds {
        return Failure(OutputWriteError);
      }
      return Success(songs[..]);
  }
}
