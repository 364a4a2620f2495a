/** The speech-recognition response as the analyzer reads it, the sentence
    record both revisions produce, and the two ways the revisions collect the
    response's words into one array. */
module Speech {
  import opened Wrappers
  import opened TimeOffsets

  /** One recognised word. `punctuated` is the optional field the older
      revision tests for sentence punctuation. */
  datatype WordInfo = WordInfo(
    word: string,
    startTime: TimeOffset,
    endTime: TimeOffset,
    punctuated: Option<string>)

  datatype Alternative = Alternative(transcript: string, words: Option<seq<WordInfo>>)

  datatype RecognitionResult = RecognitionResult(alternatives: Option<seq<Alternative>>)

  datatype Response = Response(results: Option<seq<RecognitionResult>>)

  /** A sentence span, times in seconds. */
  datatype Sentence = Sentence(text: string, startTime: real, endTime: real)

  /** Why an analysis fails: the property reads on `undefined` that throw a
      TypeError, and a rejected extraction. */
  datatype Fault =
    | MissingTranscription
    | MissingResults
    | MissingAlternative(result: nat)
    | MissingWords(result: nat)
    | NullMatch
    | ExtractionFailed(reason: string)

  /** The words one result contributes to the backend's word array: those of its
      first alternative, when it has alternatives and that one has a word list. */
  function ResultWords(r: RecognitionResult): (ws: seq<WordInfo>)
    ensures HasWords(r) ==> ws == r.alternatives.value[0].words.value
    ensures !HasWords(r) ==> ws == []
  {
    if r.alternatives.Some? && |r.alternatives.value| > 0 && r.alternatives.value[0].words.Some?
    then r.alternatives.value[0].words.value
    else []
  }

  /** The backend's word array for a list of results. */
  function FlattenResults(rs: seq<RecognitionResult>): (ws: seq<WordInfo>)
    ensures |rs| == 1 ==> ws == ResultWords(rs[0])
    ensures (forall i :: 0 <= i < |rs| ==> !HasWords(rs[i])) ==> ws == []
  {
    if rs == [] then [] else ResultWords(rs[0]) + FlattenResults(rs[1..])
  }

  /** The backend's word collection: nothing for a missing transcription or a
      missing result list, otherwise every result's words in order. */
  function CollectWords(tr: Option<Response>): (words: seq<WordInfo>)
    ensures tr.None? || tr.value.results.None? ==> words == []
    ensures tr.Some? && tr.value.results.Some? && |tr.value.results.value| == 1 ==>
              words == ResultWords(tr.value.results.value[0])
  {
    if tr.Some? && tr.value.results.Some? then
      var rs := tr.value.results.value;
      assert |rs| == 1 ==> FlattenResults(rs) == ResultWords(rs[0]) + FlattenResults([]);
      FlattenResults(rs)
    else []
  }

  /** Flattening is in order: the words of a split list of results are the
      words of the first part followed by those of the second. */
  lemma {:induction false} FlattenAppend(a: seq<RecognitionResult>, b: seq<RecognitionResult>)
    ensures FlattenResults(a + b) == FlattenResults(a) + FlattenResults(b)
    decreases |a|
  {
    if a == [] {
      assert a + b == b;
    } else {
      assert (a + b)[1..] == a[1..] + b;
      FlattenAppend(a[1..], b);
    }
  }

  /** A result without alternatives, or whose first alternative has no word
      list, contributes nothing wherever it stands. */
  lemma FlattenSkipsWordless(a: seq<RecognitionResult>, r: RecognitionResult, b: seq<RecognitionResult>)
    requires r.alternatives.None? || r.alternatives.value == [] || r.alternatives.value[0].words.None?
    ensures FlattenResults(a + [r] + b) == FlattenResults(a + b)
  {
    var w := FlattenResults([r]);
    assert w == [] by {
      assert !HasWords(r);
      assert |[r]| == 1;
    }
    FlattenAppend(a, [r]);
    FlattenAppend(a + [r], b);
    FlattenAppend(a, b);
  }

  /** The older revision reads `result.alternatives[0].words` unguarded: the
      result must have a first alternative with a word list. */
  predicate HasWords(r: RecognitionResult) {
    r.alternatives.Some? && |r.alternatives.value| > 0 && r.alternatives.value[0].words.Some?
  }

  /** The fault the unguarded read throws on a result that lacks words. */
  function WordsFault(r: RecognitionResult, index: nat): Fault
    requires !HasWords(r)
  {
    if r.alternatives.None? || |r.alternatives.value| == 0 then MissingAlternative(index)
    else MissingWords(index)
  }

  /** The older revision's word walk over results from position `from` on:
      it throws at the first result without words. */
  function LegacyFlatten(rs: seq<RecognitionResult>, from: nat): (r: Result<seq<WordInfo>, Fault>)
    requires from <= |rs|
    ensures r.Success? <==> forall i :: from <= i < |rs| ==> HasWords(rs[i])
    ensures r.Success? ==> r.value == FlattenResults(rs[from..])
    ensures r.Failure? ==>
              exists i :: from <= i < |rs| && !HasWords(rs[i]) && r.error == WordsFault(rs[i], i)
                          && forall j :: from <= j < i ==> HasWords(rs[j])
    decreases |rs| - from
  {
    if from == |rs| then Success([])
    else if !HasWords(rs[from]) then Failure(WordsFault(rs[from], from))
    else
      var rest := LegacyFlatten(rs, from + 1);
      assert rs[from..][1..] == rs[from + 1..];
      if rest.Failure? then rest
      else Success(rs[from].alternatives.value[0].words.value + rest.value)
  }

  /** The older revision's word collection: `transcription.results.forEach` and
      `result.alternatives[0].words.forEach`, each of which throws on `undefined`. */
  function LegacyWords(tr: Option<Response>): (r: Result<seq<WordInfo>, Fault>)
    ensures tr.None? ==> r == Failure(MissingTranscription)
    ensures tr.Some? && tr.value.results.None? ==> r == Failure(MissingResults)
    ensures r.Success? <==>
              (&& tr.Some? && tr.value.results.Some?
               && forall i :: 0 <= i < |tr.value.results.value| ==> HasWords(tr.value.results.value[i]))
    ensures r.Success? ==> r.value == CollectWords(tr)
  {
    if tr.None? then Failure(MissingTranscription)
    else if tr.value.results.None? then Failure(MissingResults)
    else
      var rs := tr.value.results.value;
      assert rs[0..] == rs;
      LegacyFlatten(rs, 0)
  }
}
