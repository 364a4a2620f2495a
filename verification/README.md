# Sentence reconstruction in mumble-assist, modelled in Dafny

mumble-assist sends a recording to a speech recogniser. From the
recogniser's word list it rebuilds sentences with start and end times, then
cuts one audio clip per sentence. This project models two revisions of that
core:

- **The backend revision** (`src/backend/utils/AudioAnalyzer.js`).
  `extractSentences` flattens the words of every result's first alternative
  and joins the tokens with single spaces. It cuts the transcript with the
  global regex `/[^.!?]+[.!?]*/g`. It then ties every piece back to the words
  with a cursor that moves by the piece's whitespace-token count, clamping the
  last word at the end of the array. `convertTimeOffset` turns a
  `{seconds, nanos}` offset into seconds. `splitAudioIntoSentences` requests
  one clip per sentence, named `sentence_<i+1>.mp3`, and returns the sentence
  data with the clip names beside the transcription.
- **The older revision** (`src/utils/AudioAnalyzer.jsx`). `extractSentences`
  walks the words with an accumulator. It closes a sentence at every word
  whose `punctuated` field contains `.`, `!` or `?`, and pushes a non-blank
  remainder at the end. `splitAudioIntoSentences` returns the clip paths.

Modules, one per concern:

| module | file | what it holds |
|---|---|---|
| `Wrappers` | wrappers.dfy | `Option` stands for `undefined`; `Result` stands for a throw or a rejected promise |
| `TimeOffsets` | time_offset.dfy | offsets and their exact conversion to seconds |
| `JsText` | js_text.dfy | the `\s` class, `trim`, `split(/\s+/)`, `join(' ')` |
| `Segmenter` | segmenter.dfy | the global match of `/[^.!?]+[.!?]*/g` |
| `Speech` | speech.dfy | the recogniser response; word collection in both revisions |
| `BackendSentences` | backend_sentences.dfy | the backend `extractSentences` and its cursor walk |
| `LegacySentences` | legacy_sentences.dfy | the older `extractSentences` and its accumulator |
| `Decimal` | decimal.dfy | `${n}` for a natural number, and its inverse |
| `Splitter` | splitter.dfy | `splitAudioIntoSentences` in both revisions, with the cutter as a parameter |
| `Alignment` | alignment.dfy | the intended sentences of clean words, and the regex on their text |
| `ExactAlignment` | exact_alignment.dfy | the theorem that the backend recovers the intended sentences on clean words |

The main results:

- **Backend.** `ExtractSentences` fails exactly when the transcript has no
  character outside `[.!?]`. Otherwise it returns between one sentence and
  as many sentences as there are words. The result equals the closed form of
  the cursor walk (`IsCursorWalk`).
- **Word ranges.** The sentences' word ranges partition a prefix of the
  words. With ordered word times, every duration handed to the cutter is
  non-negative (`SentenceTimesOrdered`).
- **Exact alignment** (`CleanTokensAlignExactly`). Suppose every token is
  free of whitespace and matches `[^.!?]+[.!?]*` as a whole: one or more
  characters other than `.`, `!` and `?`, followed only by terminators. A
  token that is only `?` or `...` is excluded (for words `?` and `Hi` the
  regex skips the leading `?`, and the one sentence `Hi` is timed on the `?`
  word). Under this hypothesis the regex pieces and the token counts
  recover exactly the intended sentences:
  - each sentence is a maximal run of words closed by a word ending in
    `.`, `!` or `?`, or by the last word;
  - it is timed from its first word's start to its last word's end;
  - no word is dropped or repeated (`IntendedKeepsEveryWord`);
  - there is one sentence per closing word (`IntendedCount`).
- **Older revision.** `IsLegacyOutcome` gives the result in closed form and
  fixes it completely (`OutcomeUnique`). Sentence `k` belongs to the `k`-th
  boundary word. Its text is the words after the previous boundary word, up
  to and including its own, each followed by one space. It runs from the end
  of the previous boundary word, or from 0 for the first sentence, to the end
  of its own boundary word. One more sentence follows when the words after
  the last boundary are not blank: it holds those words and ends at the last
  word. From this closed form, the texts spell out every word in order
  (`OutcomeKeepsEveryWord`), and the times form a chain that starts at 0
  (`OutcomeTimesChain`).
- **Clips.** Clip names are distinct, and so are the clip paths in one
  directory. The split succeeds exactly when every cut succeeds.

Edge cases of the code that the model keeps:

- In the backend, a transcript with no words, or with only terminator
  characters, makes `match` return `null`, and the `forEach` that follows
  throws. The model returns `Failure(NullMatch)` for it; the backend never
  returns an empty sentence list.
- No clip is padded: each runs from the sentence's start for
  `endTime - startTime` seconds, in both revisions.
- Clip names always end in `.mp3`, whatever the input's extension.
- In the older revision the first sentence starts at 0, not at its first
  word. Each later sentence starts where the previous boundary word ends.

## Model

| member | source | states |
|---|---|---|
| TimeOffsets.Seconds | src/backend/utils/AudioAnalyzer.js:134-136 | a normalised offset converts to a value in `[seconds, seconds + 1)`, and to exactly `seconds` when `nanos` is 0 |
| TimeOffsets.SecondsIsScaledNanos | src/backend/utils/AudioAnalyzer.js:134-136 | the conversion is the total nanosecond count scaled by 10^-9 |
| TimeOffsets.SecondsMonotonic | src/utils/AudioAnalyzer.jsx:105-107 | the conversion preserves and reflects both the order and the equality of offsets |
| Speech.ResultWords | src/backend/utils/AudioAnalyzer.js:85-90 | a result contributes its first alternative's words exactly when it has a first alternative with a word list (the older revision's `HasWords`), and nothing otherwise |
| Speech.FlattenResults | src/backend/utils/AudioAnalyzer.js:84-92 | one result gives exactly its own words, and results none of which has words give none |
| Speech.CollectWords | src/backend/utils/AudioAnalyzer.js:83-93 | a missing transcription or result list gives no words; a single result gives exactly its first alternative's words |
| Speech.FlattenAppend | src/backend/utils/AudioAnalyzer.js:84-92 | word collection keeps result order: the words of `a + b` are those of `a`, then those of `b` |
| Speech.FlattenSkipsWordless | src/backend/utils/AudioAnalyzer.js:85-91 | a result without alternatives, or whose first alternative has no words, contributes nothing wherever it stands |
| Speech.LegacyFlatten | src/utils/AudioAnalyzer.jsx:76-77 | the unguarded walk succeeds exactly when every result from `from` on has words, and then yields the same words as the backend; otherwise it fails at the first result lacking them, with that result's fault |
| Speech.LegacyWords | src/utils/AudioAnalyzer.jsx:76-77 | a missing transcription or result list throws; success exactly when every result has a first alternative with words, and then the words equal the backend's collection |
| JsText.Span | src/backend/utils/AudioAnalyzer.js:99 | the greedy run length: every character before it is in or out of the class as asked, and the character after it is not |
| JsText.SpanUnique | src/backend/utils/AudioAnalyzer.js:99 | any length with that characterisation is the greedy run length |
| JsText.Trim | src/backend/utils/AudioAnalyzer.js:105 | `trim()` never lengthens a string; `TrimIsInfix` and `TrimEnds` characterise it as the infix left after dropping whitespace at both ends, with no whitespace at either end (also `trim()` at src/utils/AudioAnalyzer.jsx:93) |
| JsText.TrimStartDropsWhitespace | src/backend/utils/AudioAnalyzer.js:105 | `trimStart` gives a suffix, drops only whitespace, and leaves no leading whitespace |
| JsText.TrimEndDropsWhitespace | src/backend/utils/AudioAnalyzer.js:105 | `trimEnd` gives a prefix, drops only whitespace, and leaves no trailing whitespace |
| JsText.TrimEnds | src/backend/utils/AudioAnalyzer.js:105 | neither end of a trimmed string is whitespace |
| JsText.TrimIsInfix | src/backend/utils/AudioAnalyzer.js:105 | `trim` returns a contiguous infix with only whitespace on either side of it |
| JsText.TrimKeepsTrimmed | src/backend/utils/AudioAnalyzer.js:105 | `trim` leaves a string with no whitespace at either end unchanged |
| JsText.BlankIffAllWhitespace | src/utils/AudioAnalyzer.jsx:93 | `s.trim().length > 0` fails exactly when `s` is all whitespace (both directions) |
| JsText.SplitWs | src/backend/utils/AudioAnalyzer.js:106 | `split(/\s+/)` always gives at least one piece; `SplitWsPiecesClean` and `SplitJoinRoundTrip` characterise the pieces as whitespace-free and inverse to `join(' ')` on word lists |
| JsText.SplitWsPiecesClean | src/backend/utils/AudioAnalyzer.js:106 | no piece of `split(/\s+/)` contains whitespace |
| JsText.SplitWsStep | src/backend/utils/AudioAnalyzer.js:106 | a whitespace-free word, one space and a non-space text split into that word followed by the text's pieces |
| JsText.SplitJoinRoundTrip | src/backend/utils/AudioAnalyzer.js:96-106 | round trip: splitting a space-joined list of non-empty whitespace-free tokens gives the list back |
| JsText.TrimJoin | src/backend/utils/AudioAnalyzer.js:96-105 | the space-joined text of such tokens is already trimmed |
| JsText.JoinWithSpace | src/backend/utils/AudioAnalyzer.js:96 | `join(' ')` of nothing is empty; otherwise the text begins with the first part, followed by a space when more parts follow; `JoinEnds` and `TranscriptSplit` give the rest |
| JsText.JoinEnds | src/backend/utils/AudioAnalyzer.js:96 | the joined text begins with the first token and ends with the last token's last character |
| Segmenter.Segments | src/backend/utils/AudioAnalyzer.js:99 | the matches concatenate to the text without its leading terminators; each match is a whole-pattern match; all but the last end in a terminator; there are none exactly when the text is all terminators |
| Segmenter.Match | src/backend/utils/AudioAnalyzer.js:99 | `match` returns `null` exactly when the text has no non-terminator; otherwise at least one match, and together they cover the text after its leading terminators |
| Segmenter.MatchStep | src/backend/utils/AudioAnalyzer.js:99 | a match attempt at a non-terminator succeeds with a whole-pattern match; what follows is empty or starts with a non-terminator, and a match that stops early ends in a terminator |
| Segmenter.SkipStep | src/backend/utils/AudioAnalyzer.js:99 | a match attempt at a terminator fails, and the search resumes one character later |
| Segmenter.SegmentsUnique | src/backend/utils/AudioAnalyzer.js:99 | any decomposition of the text into whole-pattern matches, all but the last ending in a terminator, is the regex's result |
| Segmenter.SegmentsOfAppend | src/backend/utils/AudioAnalyzer.js:99 | a leading whole-pattern match that ends in a terminator, followed by text starting with a non-terminator, is the first match, and the rest is matched on its own |
| Segmenter.MatchEndOfAppend | src/backend/utils/AudioAnalyzer.js:99 | a match that starts such a text ends exactly where the leading match does |
| BackendSentences.TokenCount | src/backend/utils/AudioAnalyzer.js:105-107 | the token count is at least 1, and exactly 1 for a blank piece (`"".split(/\s+/)` is `[""]`) |
| BackendSentences.Tokens | src/backend/utils/AudioAnalyzer.js:96 | `words.map(w => w.word)`: same length, token `i` is word `i`'s text |
| BackendSentences.Transcript | src/backend/utils/AudioAnalyzer.js:96 | the transcript of no words is empty, and any other transcript begins with the first word |
| BackendSentences.LastWordIndex | src/backend/utils/AudioAnalyzer.js:112-115 | the last word index is `cursor + n - 1` when that is inside the array, else the array's last index, and always lies in `[cursor, count)` |
| BackendSentences.SentenceAt | src/backend/utils/AudioAnalyzer.js:105-121 | the sentence's text is the trimmed piece; it starts at the cursor word's start and ends at the end of the word `TokenCount - 1` further on, or of the last word when that runs past the array |
| BackendSentences.Align | src/backend/utils/AudioAnalyzer.js:104-124 | at most one sentence per piece, and a non-empty result never has more sentences than there are words from the start cursor on |
| BackendSentences.Cursors | src/backend/utils/AudioAnalyzer.js:101-122 | the cursor starts at 0, or at the given position, and each piece advances it by that piece's token count; the code advances it only while it is inside the word array, but past the end no sentence is emitted, so the outputs agree |
| BackendSentences.CursorWalkCons | src/backend/utils/AudioAnalyzer.js:110-122 | emitting the first piece's sentence in front of a walk from the advanced cursor is a walk from the current cursor |
| BackendSentences.AlignClosedForm | src/backend/utils/AudioAnalyzer.js:104-124 | sentence `i` is piece `i`, trimmed, timed at the cursor the earlier pieces leave; sentences stop exactly when the pieces run out or the cursor passes the last word |
| BackendSentences.ExtractSentences | src/backend/utils/AudioAnalyzer.js:78-127 | failure (`NullMatch`) exactly when the transcript has no non-terminator, in particular with no words; otherwise 1 to `|words|` sentences; the first starts at word 0; the result is the cursor walk over the regex pieces |
| BackendSentences.WordRangesPartitionPrefix | src/backend/utils/AudioAnalyzer.js:110-122 | each sentence's word range starts inside the array, and each range starts right after the previous one ends: together they partition a prefix of the words |
| BackendSentences.SentenceTimesOrdered | src/backend/utils/AudioAnalyzer.js:110-122 | with ordered word times, each sentence ends no earlier than it starts and no earlier than the previous sentence ends |
| LegacySentences.IsBoundary | src/utils/AudioAnalyzer.jsx:85 | `wordInfo.punctuated && /[.!?]/.test(wordInfo.punctuated)` holds exactly when the word has a `punctuated` field containing `.`, `!` or `?` (through `HasTerminatorIff`) |
| LegacySentences.HasTerminatorIff | src/utils/AudioAnalyzer.jsx:85 | `/[.!?]/.test(s)` holds exactly when some character of `s` is a terminator |
| LegacySentences.Step | src/utils/AudioAnalyzer.jsx:78-88 | one word pushes one sentence exactly when it is a boundary, keeps the sentences already pushed, extends the pushed texts plus the current text by `word + ' '`, and sets the current end to the word's end |
| LegacySentences.Walk | src/utils/AudioAnalyzer.jsx:74-90 | after the first `n` words there is one pushed sentence per boundary word among them |
| LegacySentences.WalkStep | src/utils/AudioAnalyzer.jsx:78-88 | one step keeps the closed form: pushed sentence `k` is the sentence closed at boundary `k`, the current sentence holds the words since the last boundary and is timed from its end to the latest word's end, and all texts together spell out every word so far |
| LegacySentences.WalkInvariants | src/utils/AudioAnalyzer.jsx:74-90 | the closed form holds after the walk over the first `n` words, for every `n` |
| LegacySentences.BoundariesExact | src/utils/AudioAnalyzer.jsx:85-88 | the boundary list holds exactly the boundary positions, in strictly increasing order |
| LegacySentences.TailStartExact | src/utils/AudioAnalyzer.jsx:85-88 | the current sentence's words start right after the last boundary word, and none of them is a boundary |
| LegacySentences.WordsTextBlank | src/utils/AudioAnalyzer.jsx:82-93 | the accumulated text is blank exactly when every word's text is |
| LegacySentences.Finish | src/utils/AudioAnalyzer.jsx:92-95 | the current sentence is pushed last exactly when its text is not blank; the pushed sentences are kept as they are |
| LegacySentences.FinishOutcome | src/utils/AudioAnalyzer.jsx:72-98 | the walk followed by the final push gives the closed form `IsLegacyOutcome`: each sentence's text and both of its times are fixed by the boundary positions |
| LegacySentences.OutcomeUnique | src/utils/AudioAnalyzer.jsx:72-98 | the closed form admits exactly one list of sentences |
| LegacySentences.OutcomeKeepsEveryWord | src/utils/AudioAnalyzer.jsx:82-95 | no word is lost: the sentences' texts, followed by the dropped blank remainder if there is one, spell out every word with its space |
| LegacySentences.OutcomeTimesChain | src/utils/AudioAnalyzer.jsx:74-87 | the first sentence starts at 0 and every later one starts where the one before it ended |
| LegacySentences.ExtractSentences | src/utils/AudioAnalyzer.jsx:72-98 | throws exactly where the unguarded word reads do, with their fault; otherwise the sentences are the closed form `IsLegacyOutcome` |
| Decimal.NatToString | src/backend/utils/AudioAnalyzer.js:32 | `${n}` is a non-empty string of digits with no leading zero |
| Decimal.ParseNatToString | src/backend/utils/AudioAnalyzer.js:32 | round trip: parsing the rendering of `n` gives `n` |
| Decimal.NatToStringInjective | src/backend/utils/AudioAnalyzer.js:32 | distinct numbers render differently |
| Splitter.ClipName | src/backend/utils/AudioAnalyzer.js:32 | a clip name is `sentence_`, then at least one more character, then `.mp3` |
| Splitter.OrdinalOfClipName | src/backend/utils/AudioAnalyzer.js:32 | every clip name carries its sentence's 1-based ordinal, which can be read back |
| Splitter.ClipNamesDistinct | src/backend/utils/AudioAnalyzer.js:32 | two clip names are equal exactly when their sentence indices are |
| Splitter.PathJoin | src/backend/utils/AudioAnalyzer.js:33 | the joined path ends with the file name |
| Splitter.PathJoinInjective | src/utils/AudioAnalyzer.jsx:33 | within one directory, two paths are equal exactly when the names are |
| Splitter.RequestFor | src/backend/utils/AudioAnalyzer.js:30-34 | the cut reads the input file, writes the sentence's clip path in the output directory, starts at the sentence's start, and start plus duration is the sentence's end |
| Splitter.Requests | src/backend/utils/AudioAnalyzer.js:29-34 | one cut per sentence, in sentence order, cut `i` being sentence `i`'s request |
| Splitter.RequestOutputsDistinct | src/backend/utils/AudioAnalyzer.js:29-34 | no two cuts of one call write the same file |
| Splitter.JoinAll | src/backend/utils/AudioAnalyzer.js:28-41 | `Promise.all` succeeds exactly when every cut succeeds; a failure carries the reason of some failed cut |
| Splitter.WithClipNames | src/backend/utils/AudioAnalyzer.js:36-39 | one entry per sentence, in order, with the sentence's text and times and its clip name |
| Splitter.CutClips | src/backend/utils/AudioAnalyzer.js:28-41 | success exactly when every cut succeeds, and then one entry per sentence, in order, with its text, times and clip name; otherwise the reason of a failed cut |
| Splitter.SplitAudioIntoSentences | src/backend/utils/AudioAnalyzer.js:17-44 | an extraction failure is passed through; otherwise the outcome of cutting every sentence, with the transcription returned unchanged |
| Splitter.CutClipPaths | src/utils/AudioAnalyzer.jsx:28-37 | success exactly when every cut succeeds, and then path `i` is the output path of sentence `i`'s cut; otherwise the reason of a failed cut |
| Splitter.LegacySplitAudioIntoSentences | src/utils/AudioAnalyzer.jsx:18-40 | an extraction failure is passed through; otherwise the clip paths of every sentence |
| Alignment.CleanIsWordList | src/backend/utils/AudioAnalyzer.js:96 | clean tokens form a list that `split(/\s+/)` gives back unchanged |
| Alignment.PrependOpen | src/backend/utils/AudioAnalyzer.js:99 | non-terminators in front of a whole-pattern match keep it one, with the same last character |
| Alignment.TranscriptSplit | src/backend/utils/AudioAnalyzer.js:96 | the transcript splits at any word boundary into the two transcripts and one space |
| Alignment.GroupTextIsSegment | src/backend/utils/AudioAnalyzer.js:96-99 | the text of a run of clean words, none but the last ending in a terminator, is one whole-pattern match; it ends in a terminator exactly when its last word does |
| Alignment.GroupEndCloses | src/backend/utils/AudioAnalyzer.js:99 | no word before a group's last ends in a terminator, and the last one does unless the group reaches the end of the words |
| Alignment.BetweenShape | src/backend/utils/AudioAnalyzer.js:96-106 | the text of clean words is non-empty, has no whitespace at either end, and splits into exactly as many tokens as words |
| Alignment.LeadCounts | src/backend/utils/AudioAnalyzer.js:105-107 | a group's text, with or without the joining space in front, trims to the text and counts as many tokens as the text has |
| Alignment.TextBetweenIsTranscript | src/backend/utils/AudioAnalyzer.js:96 | a stretch of words joined with spaces is the transcript of that stretch |
| Alignment.GroupSegmentIsMatch | src/backend/utils/AudioAnalyzer.js:99 | each group's segment is a whole-pattern match, ending in a terminator when more words follow |
| Alignment.SegmentsOfGroups | src/backend/utils/AudioAnalyzer.js:96-99 | the regex cuts the transcript of clean words exactly at the group boundaries |
| Alignment.IntendedKeepsEveryWord | src/backend/utils/AudioAnalyzer.js:96-124 | no word is dropped or repeated: the intended sentences, joined with spaces, give back the text of the words |
| Alignment.IntendedCount | src/backend/utils/AudioAnalyzer.js:99-124 | there are as many intended sentences as words ending in a terminator, plus one when the last word does not end in one |
| ExactAlignment.AlignIsWalk | src/backend/utils/AudioAnalyzer.js:104-124 | the cursor walk over the pieces depends on each piece only through its trimmed text and its token count |
| ExactAlignment.PiecesOfGroups | src/backend/utils/AudioAnalyzer.js:105-107 | on clean words, each group's piece trims to the group's text and counts exactly the group's words |
| ExactAlignment.WalkGroups | src/backend/utils/AudioAnalyzer.js:110-122 | walking the groups' texts and sizes lands the cursor on each group's first word, never clamps, and yields the intended sentences |
| ExactAlignment.CleanTokensAlignExactly | src/backend/utils/AudioAnalyzer.js:78-127 | for a non-empty list of clean words, `extractSentences` succeeds with exactly the intended sentences |

## Left out

- `transcribeAudio` (the file read, base64 encoding and the recogniser call) is network and file I/O. The recogniser's response is a parameter of the model (`Option<Response>`).
- `extractAudioSegment` (ffmpeg) is an external process. The cutter is the parameter `extract: Request -> Outcome`, and the model sees only its outcome per request.
- `fs.existsSync` / `fs.mkdirSync` on the output directory, and every `console.log` / `console.error`, are side effects with no bearing on the results.
- Splitter.JoinAll: which failed cut's reason `Promise.all` reports depends on completion order. The contract promises only that it is the reason of some failed cut.
- TimeOffsets.Seconds: computes `seconds + nanos / 1e9` exactly over the reals. The rounding of JavaScript doubles and `parseFloat`'s parsing of string-typed seconds are not modelled.
- Malformed offsets are not modelled: every word carries both offsets, each with its `seconds` and `nanos`. In the code, a missing offset object makes `convertTimeOffset` throw a TypeError (src/backend/utils/AudioAnalyzer.js:135, src/utils/AudioAnalyzer.jsx:106). The backend reads only the offsets that time a sentence. The older revision reads both offsets of every word (src/utils/AudioAnalyzer.jsx:79-80), so there any word without one throws. A present offset with a missing `seconds` or `nanos` field gives `NaN` instead.
- Splitter.PathJoin: models `path.join` for a plain file name only. The normalisation of `.`, `..` and repeated separators in the directory is not modelled.
- The `transcript` field of an alternative is only logged by the backend, so no result depends on it.
- The server (`src/backend/server.js`), the temp-file helper (`src/backend/utils/temp.js`) and the UI components call the core but are not part of this model.
