/** The reply handling of `generate_vocabulary`: the completion text is
    trimmed, an optional markdown fence is removed, the rest goes to the
    JSON parser, and the two keys are read with "" as their default. The
    text-generation call and the JSON parser are parameters. */
module Reply {
  import opened Wrappers
  import opened Text

  /** What the text-generation service gives back for one request. */
  datatype Completion = ApiError | Reply(content: string)

  /** The parsed JSON object, reduced to its string-valued keys. */
  type JsonObject = map<string, string>

  /** The dictionary `generate_vocabulary` returns. */
  datatype VocabResult = VocabResult(translation: string, explanation: string)

  predicate StartsWith(s: string, p: string) {
    |p| <= |s| && s[..|p|] == p
  }

  predicate EndsWith(s: string, p: string) {
    |p| <= |s| && s[|s| - |p|..] == p
  }

  const Fence: string := "```"
  const JsonFence: string := "```json"

  /** How many leading characters fence stripping removes: the tagged
      opening fence, a bare opening fence right after it, or a bare one. */
  function LeadingFence(c: string): (n: nat)
    ensures n <= |c|
  {
    if StartsWith(c, JsonFence) then (if StartsWith(c[7..], Fence) then 10 else 7)
    else if StartsWith(c, Fence) then 3
    else 0
  }

  /** The reply once the fences are removed: the leading fences, then a
      closing fence if what is left ends with one. */
  function Unfenced(c: string): string {
    var i := LeadingFence(c);
    if EndsWith(c[i..], Fence) then c[i..|c| - 3] else c[i..]
  }

  /** The three conditional reassignments of `content`. */
  method StripFences(content: string) returns (r: string)
    ensures r == Unfenced(content)
  {
    r := content;
    if StartsWith(r, JsonFence) {
      r := r[7..];
    }
    if StartsWith(r, Fence) {
      r := r[3..];
    }
    if EndsWith(r, Fence) {
      r := r[..|r| - 3];
    }
  }

  /** The unfenced reply is an infix of the reply, at most 13 characters
      shorter (a tagged fence, a bare fence, a closing fence). */
  lemma UnfencedIsInfix(c: string)
    ensures IsInfix(Unfenced(c), c)
    ensures |Unfenced(c)| + 13 >= |c|
  {
    var i := LeadingFence(c);
    if EndsWith(c[i..], Fence) {
      assert Unfenced(c) == c[i..|c| - 3];
    } else {
      assert Unfenced(c) == c[i..|c|];
    }
  }

  /** A reply that neither starts nor ends with a fence is left alone. */
  lemma UnfencedUnchanged(c: string)
    requires !StartsWith(c, Fence) && !EndsWith(c, Fence)
    ensures Unfenced(c) == c
  {
  }

  /** The tag is taken off together with its fence: a reply wrapped as
      "```json" + body + "```" gives back the body, unless the body itself
      starts with a fence. */
  lemma UnfencedTaggedBlock(body: string)
    requires !StartsWith(body, Fence)
    ensures Unfenced(JsonFence + body + Fence) == body
  {
    var c := JsonFence + body + Fence;
    assert c[..7] == JsonFence;
    assert c[7..] == body + Fence;
    if StartsWith(c[7..], Fence) {
      // body is shorter than a fence and made of backticks
      assert |body| < 3;
      assert c[10..] == (body + Fence)[3..];
      assert (body + Fence)[3..] == body by {
        assert body == (body + Fence)[..|body|];
        forall k | 0 <= k < |body| ensures body[k] == '`' {
          assert (body + Fence)[k] == Fence[k];
        }
      }
      assert !EndsWith(body, Fence);
    } else {
      assert c[7..][|c[7..]| - 3..] == Fence;
      assert c[7..|c| - 3] == body;
    }
  }

  /** A bare fence followed by something other than the tag is not a
      tagged fence. */
  lemma BareFenceNotTagged(body: string)
    requires !StartsWith(body, "json")
    ensures !StartsWith(Fence + body + Fence, JsonFence)
  {
    var c := Fence + body + Fence;
    if |body| >= 4 {
      assert c[3..7] == body[..4];
      assert JsonFence[3..7] == "json";
    } else if |body| >= 1 {
      assert c[6] == '`';
      assert JsonFence[6] == 'n';
    }
  }

  /** A bare fence is removed once, whatever follows it, as long as the
      body does not begin with the "json" tag (which would then be taken as
      part of a tagged fence). */
  lemma UnfencedBareBlock(body: string)
    requires !StartsWith(body, "json")
    ensures Unfenced(Fence + body + Fence) == body
  {
    var c := Fence + body + Fence;
    BareFenceNotTagged(body);
    assert c[..3] == Fence;
    assert c[3..] == body + Fence;
    assert c[3..][|c[3..]| - 3..] == Fence;
    assert c[3..|c| - 3] == body;
  }

  /** The text handed to the JSON parser: the reply trimmed, unfenced and
      trimmed again. */
  function ReplyBody(content: string): string {
    Strip(Unfenced(Strip(content, IsSpace)), IsSpace)
  }

  /** `result.get(key, "")`. */
  function Get(obj: JsonObject, key: string): string {
    if key in obj then obj[key] else ""
  }

  /** `generate_vocabulary(word, ...)`: no client or an API error gives
      nothing, a reply the parser rejects gives nothing, and otherwise the
      two keys are read with "" for a missing one. */
  function GenerateVocabulary(word: string, hasClient: bool, complete: string -> Completion,
                              parse: string -> Option<JsonObject>): (r: Option<VocabResult>)
    ensures r.Some? <==> hasClient && complete(word).Reply? && parse(ReplyBody(complete(word).content)).Some?
    ensures r.Some? ==> var obj := parse(ReplyBody(complete(word).content)).value;
              && ("translation" in obj ==> r.value.translation == obj["translation"])
              && ("translation" !in obj ==> r.value.translation == "")
              && ("explanation" in obj ==> r.value.explanation == obj["explanation"])
              && ("explanation" !in obj ==> r.value.explanation == "")
  {
    if !hasClient then None
    else match complete(word)
      case ApiError => None
      case Reply(content) =>
        match parse(ReplyBody(content))
        case None => None
        case Some(obj) => Some(VocabResult(Get(obj, "translation"), Get(obj, "explanation")))
  }

  /** The parser sees an infix of the reply that neither starts nor ends
      with whitespace. */
  lemma ReplyBodyIsTrimmedInfix(content: string)
    ensures IsInfix(ReplyBody(content), content)
    ensures var b := ReplyBody(content); b != [] ==> !IsSpace(b[0]) && !IsSpace(b[|b| - 1])
  {
    var s1 := Strip(content, IsSpace);
    StripIsTrimmedInfix(content, IsSpace);
    var s2 := Unfenced(s1);
    UnfencedIsInfix(s1);
    StripIsTrimmedInfix(s2, IsSpace);
    InfixTransitive(s2, s1, content);
    InfixTransitive(ReplyBody(content), s2, content);
  }
}
