/** The backend revision of `extractSentences`: words are flattened, joined
    into one transcript, cut by the sentence regex, and each piece is tied back
    to the words by counting its whitespace-separated tokens. */
module BackendSentences {
  import opened Wrappers
  import opened TimeOffsets
  import opened JsText
  import opened Segmenter
  import opened Speech

  /** `text.trim().split(/\s+/).length`: at least one, and exactly one for a
      blank text (`"".split(/\s+/)` is `[""]`). */
  function TokenCount(text: string): (n: nat)
    ensures n >= 1
    ensures IsBlank(text) ==> n == 1
  {
    |SplitWs(Trim(text))|
  }

  /** `words.map(w => w.word)`. */
  function Tokens(words: seq<WordInfo>): (ts: seq<string>)
    ensures |ts| == |words|
    ensures forall i :: 0 <= i < |words| ==> ts[i] == words[i].word
  {
    if words == [] then [] else [words[0].word] + Tokens(words[1..])
  }

  /** The full transcript the regex runs on. */
  function Transcript(words: seq<WordInfo>): (t: string)
    ensures words == [] ==> t == ""
    ensures words != [] ==> |t| >= |words[0].word| && t[..|words[0].word|] == words[0].word
  {
    JoinWithSpace(Tokens(words))
  }

  /** The index of a sentence's last word: `cursor + n - 1`, or the last word of
      the array when that runs past its end. */
  function LastWordIndex(cursor: nat, n: nat, count: nat): (e: nat)
    requires cursor < count && n >= 1
    ensures cursor <= e < count
    ensures e == cursor + n - 1 || (e == count - 1 && cursor + n - 1 >= count)
  {
    if cursor + n - 1 < count then cursor + n - 1 else count - 1
  }

  /** The sentence a segment yields when the cursor is on word `cursor`. */
  function SentenceAt(words: seq<WordInfo>, seg: string, cursor: nat): (s: Sentence)
    requires cursor < |words|
    ensures s.text == Trim(seg)
    ensures s.startTime == Seconds(words[cursor].startTime)
    ensures cursor + TokenCount(seg) <= |words| ==>
              s.endTime == Seconds(words[cursor + TokenCount(seg) - 1].endTime)
    ensures cursor + TokenCount(seg) > |words| ==> s.endTime == Seconds(words[|words| - 1].endTime)
  {
    var e := LastWordIndex(cursor, TokenCount(seg), |words|);
    Sentence(Trim(seg), Seconds(words[cursor].startTime), Seconds(words[e].endTime))
  }

  /** The cursor walk over the segments. A segment emits a sentence only while
      the cursor is inside the word array; the cursor then moves by the
      segment's token count. At most one sentence per segment and per word. */
  function Align(words: seq<WordInfo>, segs: seq<string>, cursor: nat): (out: seq<Sentence>)
    ensures |out| <= |segs|
    ensures out == [] || cursor + |out| <= |words|
    decreases |segs|
  {
    if segs == [] then []
    else
      var rest := Align(words, segs[1..], cursor + TokenCount(segs[0]));
      if cursor < |words| then [SentenceAt(words, segs[0], cursor)] + rest else rest
  }

  /** `extractSentences` of the backend. When the transcript holds no character
      outside `[.!?]` (in particular when there are no words at all) `match`
      returns null and the following `forEach` throws. Otherwise the first
      segment always lands on word 0, so at least one sentence comes out, and
      never more sentences than words. */
  function ExtractSentences(tr: Option<Response>): (r: Result<seq<Sentence>, Fault>)
    ensures r.Failure? <==> AllIn(Transcript(CollectWords(tr)), Terminator)
    ensures r.Failure? ==> r.error == NullMatch
    ensures CollectWords(tr) == [] ==> r == Failure(NullMatch)
    ensures r.Success? ==> 1 <= |r.value| <= |CollectWords(tr)|
    ensures r.Success? ==> r.value[0].startTime == Seconds(CollectWords(tr)[0].startTime)
    ensures r.Success? ==>
              IsCursorWalk(CollectWords(tr), Segments(Transcript(CollectWords(tr))), 0, r.value)
  {
    var words := CollectWords(tr);
    match Match(Transcript(words))
    case None => Failure(NullMatch)
    case Some(segs) =>
      var out := Align(words, segs, 0);
      AlignClosedForm(words, segs, 0);
      Success(out)
  }

  /** The cursor positions of the walk: where it stands on reaching each
      segment, then after the last one. It starts at `cursor` and each segment
      moves it on by that segment's token count. The code advances the cursor
      only while it is inside the word array; once it has reached the end no
      further sentence is emitted, so advancing it further changes nothing
      the walk returns. */
  function Cursors(segs: seq<string>, cursor: nat): (cs: seq<nat>)
    ensures |cs| == |segs| + 1
    ensures cs[0] == cursor
    ensures forall i {:trigger TokenCount(segs[i])} :: 0 <= i < |segs| ==> cs[i + 1] == cs[i] + TokenCount(segs[i])
    decreases |segs|
  {
    if segs == [] then [cursor]
    else
      var rest := Cursors(segs[1..], cursor + TokenCount(segs[0]));
      assert forall i :: 0 <= i < |segs| - 1 ==> segs[1..][i] == segs[i + 1];
      [cursor] + rest
  }

  /** Sentence `s` is what segment `seg` yields with the cursor on word `c`:
      the trimmed segment, starting at word `c` and ending at the clamped last word. */
  predicate YieldedAt(words: seq<WordInfo>, seg: string, c: nat, s: Sentence) {
    && c < |words|
    && s.text == Trim(seg)
    && s.startTime == Seconds(words[c].startTime)
    && s.endTime == Seconds(words[LastWordIndex(c, TokenCount(seg), |words|)].endTime)
  }

  /** The closed form of the cursor walk: sentence `i` is segment `i` yielded at
      the cursor the earlier segments leave, and the sentences stop exactly when
      the segments run out or the cursor passes the last word. */
  predicate IsCursorWalk(words: seq<WordInfo>, segs: seq<string>, cursor: nat, out: seq<Sentence>) {
    var cs := Cursors(segs, cursor);
    && |out| <= |segs|
    && (forall i :: 0 <= i < |out| ==> YieldedAt(words, segs[i], cs[i], out[i]))
    && (|out| == |segs| || cs[|out|] >= |words|)
  }

  /** Emitting a sentence for the first segment and walking the rest from the
      advanced cursor is a walk from the current cursor. */
  lemma CursorWalkCons(words: seq<WordInfo>, segs: seq<string>, cursor: nat, rest: seq<Sentence>)
    requires segs != [] && cursor < |words|
    requires IsCursorWalk(words, segs[1..], cursor + TokenCount(segs[0]), rest)
    ensures IsCursorWalk(words, segs, cursor, [SentenceAt(words, segs[0], cursor)] + rest)
  {
    var tail := segs[1..];
    var out := [SentenceAt(words, segs[0], cursor)] + rest;
    var cs := Cursors(segs, cursor);
    var ts := Cursors(tail, cursor + TokenCount(segs[0]));
    assert cs == [cursor] + ts;
    forall i | 0 <= i < |out| ensures YieldedAt(words, segs[i], cs[i], out[i]) {
      if i > 0 {
        assert out[i] == rest[i - 1] && segs[i] == tail[i - 1] && cs[i] == ts[i - 1];
      }
    }
  }

  lemma CursorWalkStep(words: seq<WordInfo>, segs: seq<string>, cursor: nat)
    requires segs != [] && cursor < |words|
    requires IsCursorWalk(words, segs[1..], cursor + TokenCount(segs[0]),
                          Align(words, segs[1..], cursor + TokenCount(segs[0])))
    ensures IsCursorWalk(words, segs, cursor, Align(words, segs, cursor))
  {
    var rest := Align(words, segs[1..], cursor + TokenCount(segs[0]));
    assert Align(words, segs, cursor) == [SentenceAt(words, segs[0], cursor)] + rest;
    CursorWalkCons(words, segs, cursor, rest);
  }

  /** The cursor walk computes its closed form. */
  lemma {:induction false} AlignClosedForm(words: seq<WordInfo>, segs: seq<string>, cursor: nat)
    ensures IsCursorWalk(words, segs, cursor, Align(words, segs, cursor))
    decreases |segs|
  {
    if segs != [] {
      if cursor < |words| {
        AlignClosedForm(words, segs[1..], cursor + TokenCount(segs[0]));
        CursorWalkStep(words, segs, cursor);
      } else {
        assert Align(words, segs, cursor) == [];
        assert Cursors(segs, cursor)[0] == cursor;
      }
    }
  }

  /** The provider's ordering guarantee: every word ends no earlier than it
      starts, and no earlier word ends after a later one starts. */
  predicate TimesOrdered(words: seq<WordInfo>) {
    && (forall i :: 0 <= i < |words| ==> Seconds(words[i].startTime) <= Seconds(words[i].endTime))
    && (forall i, j :: 0 <= i < j < |words| ==> Seconds(words[i].endTime) <= Seconds(words[j].startTime))
  }

  /** Sentence `i` of a walk covers words `Cursors[i]` through its clamped last
      word. These ranges are non-empty, the first starts at the initial cursor,
      and each later one starts right after the one before it ends: together
      they partition a prefix of the word array. Only the last range can be
      clamped. */
  lemma {:induction false} WordRangesPartitionPrefix(words: seq<WordInfo>, segs: seq<string>, cursor: nat)
    ensures var out := Align(words, segs, cursor);
      var cs := Cursors(segs, cursor);
      && (forall i :: 0 <= i < |out| ==> cs[i] < |words|)
      && (forall i :: 0 <= i < |out| - 1 ==>
            cs[i] < |words| && LastWordIndex(cs[i], TokenCount(segs[i]), |words|) + 1 == cs[i + 1])
  {
    var out := Align(words, segs, cursor);
    var cs := Cursors(segs, cursor);
    AlignClosedForm(words, segs, cursor);
    forall i | 0 <= i < |out| - 1
      ensures cs[i] < |words| && LastWordIndex(cs[i], TokenCount(segs[i]), |words|) + 1 == cs[i + 1]
    {
      assert YieldedAt(words, segs[i], cs[i], out[i]);
      assert YieldedAt(words, segs[i + 1], cs[i + 1], out[i + 1]);
      assert cs[i + 1] == cs[i] + TokenCount(segs[i]);
    }
  }

  /** With ordered word times, a word starts no later than any word at or after
      it ends. */
  lemma WordSpanOrdered(words: seq<WordInfo>, a: nat, b: nat)
    requires TimesOrdered(words)
    requires a <= b < |words|
    ensures Seconds(words[a].startTime) <= Seconds(words[b].endTime)
  {
    assert Seconds(words[a].startTime) <= Seconds(words[a].endTime);
    if a < b {
      assert Seconds(words[a].endTime) <= Seconds(words[b].startTime);
      assert Seconds(words[b].startTime) <= Seconds(words[b].endTime);
    }
  }

  /** With ordered word times, every sentence ends no earlier than it starts and
      no sentence overlaps the next one, so every extraction duration
      `endTime - startTime` is non-negative. */
  lemma SentenceTimesOrdered(words: seq<WordInfo>, segs: seq<string>, cursor: nat)
    requires TimesOrdered(words)
    ensures var out := Align(words, segs, cursor);
      && (forall i :: 0 <= i < |out| ==> out[i].startTime <= out[i].endTime)
      && (forall i :: 0 <= i < |out| - 1 ==> out[i].endTime <= out[i + 1].startTime)
  {
    var out := Align(words, segs, cursor);
    var cs := Cursors(segs, cursor);
    AlignClosedForm(words, segs, cursor);
    WordRangesPartitionPrefix(words, segs, cursor);
    forall i | 0 <= i < |out| ensures out[i].startTime <= out[i].endTime {
      assert YieldedAt(words, segs[i], cs[i], out[i]);
      WordSpanOrdered(words, cs[i], LastWordIndex(cs[i], TokenCount(segs[i]), |words|));
    }
    forall i | 0 <= i < |out| - 1 ensures out[i].endTime <= out[i + 1].startTime {
      assert YieldedAt(words, segs[i], cs[i], out[i]);
      assert YieldedAt(words, segs[i + 1], cs[i + 1], out[i + 1]);
      var e := LastWordIndex(cs[i], TokenCount(segs[i]), |words|);
      assert e < cs[i + 1];
      assert Seconds(words[e].endTime) <= Seconds(words[cs[i + 1]].startTime);
    }
  }
}
