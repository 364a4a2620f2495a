/** `splitAudioIntoSentences` in both revisions, reduced to its pure shape:
    sentence `i` becomes clip `sentence_{i+1}.mp3` in the output directory,
    cut from `startTime` for `endTime - startTime` seconds; every cut is
    requested and the call succeeds only if all of them do. The cutter itself
    is the parameter `extract`: its outcome per request is all the model sees. */
module Splitter {
  import opened Wrappers
  import opened Speech
  import opened Decimal
  import BackendSentences
  import LegacySentences

  const ClipPrefix: string := "sentence_"
  const ClipSuffix: string := ".mp3"

  /** `sentence_${index + 1}.mp3`: the clip name of the sentence at `index`. */
  function ClipName(index: nat): (name: string)
    ensures |name| > |ClipPrefix| + |ClipSuffix|
    ensures name[..|ClipPrefix|] == ClipPrefix
    ensures name[|name| - |ClipSuffix|..] == ClipSuffix
  {
    ClipPrefix + NatToString(index + 1) + ClipSuffix
  }

  /** The 1-based ordinal a clip name carries, if the name has the clip shape. */
  function OrdinalOf(name: string): Option<nat> {
    var lo := |ClipPrefix|;
    var hi := |name| - |ClipSuffix|;
    if lo < hi && name[..lo] == ClipPrefix && name[hi..] == ClipSuffix
       && forall i :: lo <= i < hi ==> IsDigit(name[i])
    then Some(ParseDecimal(name[lo..hi]))
    else None
  }

  /** Every clip name carries the ordinal of its sentence. */
  lemma OrdinalOfClipName(index: nat)
    ensures OrdinalOf(ClipName(index)) == Some(index + 1)
  {
    var digits := NatToString(index + 1);
    var name := ClipName(index);
    var lo := |ClipPrefix|;
    var hi := |name| - |ClipSuffix|;
    assert name[..lo] == ClipPrefix;
    assert name[hi..] == ClipSuffix;
    assert name[lo..hi] == digits;
    ParseNatToString(index + 1);
  }

  /** Distinct sentences get distinct clip names. */
  lemma ClipNamesDistinct(i: nat, j: nat)
    ensures ClipName(i) == ClipName(j) <==> i == j
  {
    if ClipName(i) == ClipName(j) {
      OrdinalOfClipName(i);
      OrdinalOfClipName(j);
    }
  }

  /** `path.join(dir, name)` for a plain file name: a single `/` between a
      non-empty directory and the name. */
  function PathJoin(dir: string, name: string): (p: string)
    ensures |p| >= |name| && p[|p| - |name|..] == name
  {
    if dir == [] then name
    else if dir[|dir| - 1] == '/' then dir + name
    else dir + "/" + name
  }

  /** Within one directory, distinct names give distinct paths. */
  lemma PathJoinInjective(dir: string, a: string, b: string)
    ensures PathJoin(dir, a) == PathJoin(dir, b) <==> a == b
  {
    var sep := if dir == [] then "" else if dir[|dir| - 1] == '/' then dir else dir + "/";
    assert PathJoin(dir, a) == sep + a && PathJoin(dir, b) == sep + b;
    if sep + a == sep + b {
      assert a == (sep + a)[|sep|..];
    }
  }

  /** One call of the audio cutter: input file, output file, start and duration in seconds. */
  datatype Request = Request(input: string, output: string, start: real, duration: real)

  /** What the cutter reports for a request. */
  datatype Outcome = Done | Failed(reason: string)

  /** The cut for sentence `index`: its clip path, from its start, for its length. */
  function RequestFor(input: string, dir: string, s: Sentence, index: nat): (q: Request)
    ensures q.input == input
    ensures q.output == PathJoin(dir, ClipName(index))
    ensures q.start == s.startTime && q.start + q.duration == s.endTime
  {
    Request(input, PathJoin(dir, ClipName(index)), s.startTime, s.endTime - s.startTime)
  }

  /** The cuts for a list of sentences, in sentence order. */
  function Requests(input: string, dir: string, ss: seq<Sentence>): (qs: seq<Request>)
    ensures |qs| == |ss|
    ensures forall i :: 0 <= i < |ss| ==> qs[i] == RequestFor(input, dir, ss[i], i)
  {
    seq(|ss|, i requires 0 <= i < |ss| => RequestFor(input, dir, ss[i], i))
  }

  /** No two cuts of one call write the same file. */
  lemma RequestOutputsDistinct(input: string, dir: string, ss: seq<Sentence>)
    ensures var qs := Requests(input, dir, ss);
      forall i, j :: 0 <= i < j < |qs| ==> qs[i].output != qs[j].output
  {
    var qs := Requests(input, dir, ss);
    forall i, j | 0 <= i < j < |qs| ensures qs[i].output != qs[j].output {
      ClipNamesDistinct(i, j);
      PathJoinInjective(dir, ClipName(i), ClipName(j));
    }
  }

  /** `Promise.all` over the cuts as an all-or-fail join: success exactly when
      every cut succeeds; a failure carries the reason of some failed cut (which
      one depends on timing, so the model promises no particular one). */
  function JoinAll(qs: seq<Request>, extract: Request -> Outcome): (r: Result<(), string>)
    ensures r.Success? <==> forall i :: 0 <= i < |qs| ==> extract(qs[i]).Done?
    ensures r.Failure? ==> exists i :: 0 <= i < |qs| && extract(qs[i]) == Failed(r.error)
    decreases |qs|
  {
    if qs == [] then Success(())
    else
      var rest := JoinAll(qs[1..], extract);
      assert forall i :: 0 < i < |qs| ==> qs[i] == qs[1..][i - 1];
      match extract(qs[0])
      case Failed(e) => Failure(e)
      case Done => rest
  }

  /** A sentence of the backend's answer: the sentence and its clip name. */
  datatype SentenceData = SentenceData(text: string, startTime: real, endTime: real, fileName: string)

  /** The backend's answer: the sentence data and the transcription it came from. */
  datatype Analysis = Analysis(sentenceData: seq<SentenceData>, transcription: Option<Response>)

  /** `{ ...sentence, fileName }` for every sentence, in order. */
  function WithClipNames(ss: seq<Sentence>): (data: seq<SentenceData>)
    ensures |data| == |ss|
    ensures forall i :: 0 <= i < |ss| ==>
              && data[i].text == ss[i].text
              && data[i].startTime == ss[i].startTime
              && data[i].endTime == ss[i].endTime
              && data[i].fileName == ClipName(i)
  {
    seq(|ss|, i requires 0 <= i < |ss| =>
      SentenceData(ss[i].text, ss[i].startTime, ss[i].endTime, ClipName(i)))
  }

  /** Cutting every sentence's clip and joining: the sentence data, one entry
      per sentence in order with its clip name, once every cut has succeeded;
      otherwise the reason of some failed cut. */
  function CutClips(input: string, dir: string, ss: seq<Sentence>,
                    extract: Request -> Outcome): (r: Result<seq<SentenceData>, Fault>)
    ensures r.Success? <==> forall i :: 0 <= i < |ss| ==> extract(RequestFor(input, dir, ss[i], i)).Done?
    ensures r.Success? ==>
              && |r.value| == |ss|
              && forall i :: 0 <= i < |ss| ==>
                   && r.value[i].text == ss[i].text
                   && r.value[i].startTime == ss[i].startTime
                   && r.value[i].endTime == ss[i].endTime
                   && r.value[i].fileName == ClipName(i)
    ensures r.Failure? ==>
              exists i :: 0 <= i < |ss| && extract(RequestFor(input, dir, ss[i], i)).Failed?
                          && r.error == ExtractionFailed(extract(RequestFor(input, dir, ss[i], i)).reason)
  {
    var qs := Requests(input, dir, ss);
    match JoinAll(qs, extract)
    case Failure(e) => Failure(ExtractionFailed(e))
    case Success(_) => Success(WithClipNames(ss))
  }

  /** The backend `splitAudioIntoSentences`, given the transcription the
      recogniser returned: sentence extraction, then the clips; the answer
      carries the transcription unchanged. */
  function SplitAudioIntoSentences(input: string, dir: string, tr: Option<Response>,
                                   extract: Request -> Outcome): (r: Result<Analysis, Fault>)
    ensures BackendSentences.ExtractSentences(tr).Failure? ==>
              r == Failure(BackendSentences.ExtractSentences(tr).error)
    ensures BackendSentences.ExtractSentences(tr).Success? ==>
              var cut := CutClips(input, dir, BackendSentences.ExtractSentences(tr).value, extract);
              && (r.Success? <==> cut.Success?)
              && (r.Success? ==> r.value == Analysis(cut.value, tr))
              && (r.Failure? ==> r.error == cut.error)
  {
    var ss :- BackendSentences.ExtractSentences(tr);
    var data :- CutClips(input, dir, ss, extract);
    Success(Analysis(data, tr))
  }

  /** The clip paths, in sentence order, once every cut has succeeded. */
  function CutClipPaths(input: string, dir: string, ss: seq<Sentence>,
                        extract: Request -> Outcome): (r: Result<seq<string>, Fault>)
    ensures r.Success? <==> forall i :: 0 <= i < |ss| ==> extract(RequestFor(input, dir, ss[i], i)).Done?
    ensures r.Success? ==>
              && |r.value| == |ss|
              && forall i :: 0 <= i < |ss| ==>
                   && r.value[i] == RequestFor(input, dir, ss[i], i).output
                   && r.value[i] == PathJoin(dir, ClipName(i))
    ensures r.Failure? ==>
              exists i :: 0 <= i < |ss| && extract(RequestFor(input, dir, ss[i], i)).Failed?
                          && r.error == ExtractionFailed(extract(RequestFor(input, dir, ss[i], i)).reason)
  {
    var qs := Requests(input, dir, ss);
    match JoinAll(qs, extract)
    case Failure(e) => Failure(ExtractionFailed(e))
    case Success(_) => Success(seq(|qs|, i requires 0 <= i < |qs| => qs[i].output))
  }

  /** The older `splitAudioIntoSentences`: sentence extraction, then the clip paths. */
  function LegacySplitAudioIntoSentences(input: string, dir: string, tr: Option<Response>,
                                         extract: Request -> Outcome): (r: Result<seq<string>, Fault>)
    ensures LegacySentences.ExtractSentences(tr).Failure? ==>
              r == Failure(LegacySentences.ExtractSentences(tr).error)
    ensures LegacySentences.ExtractSentences(tr).Success? ==>
              r == CutClipPaths(input, dir, LegacySentences.ExtractSentences(tr).value, extract)
  {
    var ss :- LegacySentences.ExtractSentences(tr);
    CutClipPaths(input, dir, ss, extract)
  }
}
