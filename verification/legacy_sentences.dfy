/** The older revision of `extractSentences`: an accumulator walks the words
    and closes the sentence under construction at every word whose
    `punctuated` field holds a `.`, `!` or `?`.

    Everything about the walk is indexed by position in one word list: the
    accumulator after the first `n` words, the boundary positions among them,
    and the text of the words between two positions. */
module LegacySentences {
  import opened Wrappers
  import opened TimeOffsets
  import opened JsText
  import opened Speech

  /** `/[.!?]/.test(s)`: scanning from the left finds a terminator. */
  predicate HasTerminator(s: string) {
    TerminatorFrom(s, 0)
  }

  /** The scan from position `i` on finds a terminator. */
  predicate TerminatorFrom(s: string, i: nat)
    decreases |s| - i
  {
    i < |s| && (IsTerminator(s[i]) || TerminatorFrom(s, i + 1))
  }

  lemma {:induction false} TerminatorFromIff(s: string, i: nat)
    ensures TerminatorFrom(s, i) <==> exists j :: i <= j < |s| && IsTerminator(s[j])
    decreases |s| - i
  {
    if i < |s| {
      TerminatorFromIff(s, i + 1);
      if exists j :: i <= j < |s| && IsTerminator(s[j]) {
        var j :| i <= j < |s| && IsTerminator(s[j]);
        assert j == i || (i + 1 <= j < |s| && IsTerminator(s[j]));
      }
    }
  }

  /** The scan finds a terminator exactly when the string contains one. */
  lemma HasTerminatorIff(s: string)
    ensures HasTerminator(s) <==> exists i :: 0 <= i < |s| && IsTerminator(s[i])
  {
    TerminatorFromIff(s, 0);
  }

  /** `wordInfo.punctuated && /[.!?]/.test(wordInfo.punctuated)`. */
  predicate IsBoundary(w: WordInfo): (b: bool)
    ensures b <==> w.punctuated.Some?
                   && exists i :: 0 <= i < |w.punctuated.value| && IsTerminator(w.punctuated.value[i])
  {
    if w.punctuated.Some? then HasTerminatorIff(w.punctuated.value); HasTerminator(w.punctuated.value)
    else false
  }

  /** The accumulator: sentences pushed so far and the sentence under construction. */
  datatype Walker = Walker(done: seq<Sentence>, current: Sentence)

  /** The accumulator before the first word: `{text: '', startTime: 0, endTime: 0}`. */
  const Initial: Walker := Walker([], Sentence("", 0.0, 0.0))

  /** The texts of a list of sentences, concatenated in order. */
  function SentencesText(ss: seq<Sentence>): string
    decreases |ss|
  {
    if ss == [] then "" else SentencesText(ss[..|ss| - 1]) + ss[|ss| - 1].text
  }

  lemma SentencesTextPush(ss: seq<Sentence>, s: Sentence)
    ensures SentencesText(ss + [s]) == SentencesText(ss) + s.text
  {
    assert (ss + [s])[..|ss|] == ss;
  }

  /** One word: append `word + ' '`, move the end time to the word's end, and
      at a boundary push a copy and restart at the word's end. The pushed
      sentences are never rewritten, at most one is added (exactly at a
      boundary), the text so far grows by the word and a space, and the
      sentence under construction ends where the word ends. */
  function Step(st: Walker, w: WordInfo): (r: Walker)
    ensures |r.done| == |st.done| + (if IsBoundary(w) then 1 else 0)
    ensures r.done[..|st.done|] == st.done
    ensures SentencesText(r.done) + r.current.text == SentencesText(st.done) + st.current.text + w.word + " "
    ensures r.current.endTime == Seconds(w.endTime)
  {
    var endSecs := Seconds(w.endTime);
    var grown := Sentence(st.current.text + w.word + " ", st.current.startTime, endSecs);
    if IsBoundary(w) then
      SentencesTextPush(st.done, grown);
      assert (st.done + [grown])[..|st.done|] == st.done;
      Walker(st.done + [grown], Sentence("", endSecs, endSecs))
    else Walker(st.done, grown)
  }

  /** The positions of the boundary words among the first `n`, in increasing order. */
  function Boundaries(ws: seq<WordInfo>, n: nat): (b: seq<nat>)
    requires n <= |ws|
    ensures forall k :: 0 <= k < |b| ==> b[k] < n
    decreases n
  {
    if n == 0 then []
    else
      var b := Boundaries(ws, n - 1);
      if IsBoundary(ws[n - 1]) then b + [n - 1] else b
  }

  /** The accumulator after the first `n` words, in order: one pushed sentence
      per boundary word among them. */
  function Walk(ws: seq<WordInfo>, n: nat): (st: Walker)
    requires n <= |ws|
    ensures |st.done| == |Boundaries(ws, n)|
    decreases n
  {
    if n == 0 then Initial else Step(Walk(ws, n - 1), ws[n - 1])
  }

  /** The text the walk appends for words `lo` to `hi - 1`: each word followed
      by one space (nothing when `hi <= lo`). */
  function WordsText(ws: seq<WordInfo>, lo: nat, hi: nat): string
    requires hi <= |ws|
    decreases hi
  {
    if hi <= lo then "" else WordsText(ws, lo, hi - 1) + ws[hi - 1].word + " "
  }

  /** Where the words after the last boundary among the first `n` begin (0
      when there is none). */
  function TailStart(ws: seq<WordInfo>, n: nat): (s: nat)
    requires n <= |ws|
    ensures s <= n
    decreases n
  {
    if n == 0 then 0
    else if IsBoundary(ws[n - 1]) then n
    else TailStart(ws, n - 1)
  }

  /** The text of sentence `k` closed at the boundaries `b`: the words after
      boundary word `k - 1` (from the first word when `k` is 0) up to and
      including boundary word `k`. */
  function ClosedText(ws: seq<WordInfo>, b: seq<nat>, k: nat): string
    requires k < |b| && b[k] < |ws|
  {
    WordsText(ws, if k == 0 then 0 else b[k - 1] + 1, b[k] + 1)
  }

  /** Sentence `k` closed at the boundaries `b`: its words, from the end of
      boundary word `k - 1` (0 for the first) to the end of boundary word `k`. */
  function ClosedSentence(ws: seq<WordInfo>, b: seq<nat>, k: nat): Sentence
    requires k < |b| && b[k] < |ws| && (k > 0 ==> b[k - 1] < |ws|)
  {
    Sentence(ClosedText(ws, b, k),
             if k == 0 then 0.0 else Seconds(ws[b[k - 1]].endTime),
             Seconds(ws[b[k]].endTime))
  }

  /** The text under construction after the first `n` words: the words after
      the last boundary among them. */
  function OpenText(ws: seq<WordInfo>, n: nat): string
    requires n <= |ws|
  {
    WordsText(ws, TailStart(ws, n), n)
  }

  /** The sentence under construction after the first `n` words: its words,
      from the end of the last boundary word (0 without one) to the end of the
      latest word (0 before the first). */
  function OpenSentence(ws: seq<WordInfo>, n: nat): Sentence
    requires n <= |ws|
  {
    var b := Boundaries(ws, n);
    Sentence(OpenText(ws, n),
             if b == [] then 0.0 else Seconds(ws[b[|b| - 1]].endTime),
             if n == 0 then 0.0 else Seconds(ws[n - 1].endTime))
  }

  /** The accumulator after the first `n` words in closed form: pushed sentence
      `k` is the sentence closed at boundary `k`, the sentence under
      construction is the open one, and the pushed texts followed by the
      current text spell out every word so far, each with its space. */
  predicate WalkInvariant(ws: seq<WordInfo>, n: nat, st: Walker)
    requires n <= |ws|
  {
    var b := Boundaries(ws, n);
    && |st.done| == |b|
    && (forall k :: 0 <= k < |b| ==> st.done[k] == ClosedSentence(ws, b, k))
    && st.current == OpenSentence(ws, n)
    && SentencesText(st.done) + st.current.text == WordsText(ws, 0, n)
  }

  /** The words after the last boundary start just past it (at 0 without one). */
  lemma {:induction false} TailStartAfterBoundaries(ws: seq<WordInfo>, n: nat)
    requires n <= |ws|
    ensures var b := Boundaries(ws, n);
            TailStart(ws, n) == (if b == [] then 0 else b[|b| - 1] + 1)
    decreases n
  {
    if n > 0 && !IsBoundary(ws[n - 1]) {
      TailStartAfterBoundaries(ws, n - 1);
    }
  }

  /** A sentence closed at an earlier boundary stays as it was when later
      boundaries are added. */
  lemma ClosedKept(ws: seq<WordInfo>, b: seq<nat>, later: seq<nat>, k: nat)
    requires k < |b| && b[k] < |ws| && (k > 0 ==> b[k - 1] < |ws|)
    ensures ClosedSentence(ws, b + later, k) == ClosedSentence(ws, b, k)
  {
    assert (b + later)[k] == b[k];
    if k > 0 {
      assert (b + later)[k - 1] == b[k - 1];
    }
  }

  /** At a boundary word the open sentence, grown by that word, is the
      sentence closed at the new boundary. */
  lemma OpenCloses(ws: seq<WordInfo>, n: nat, cur: Sentence)
    requires n < |ws| && cur == OpenSentence(ws, n)
    ensures var b := Boundaries(ws, n);
            ClosedSentence(ws, b + [n], |b|)
            == Sentence(cur.text + ws[n].word + " ", cur.startTime, Seconds(ws[n].endTime))
  {
    OpenClosesText(ws, n);
    OpenClosesTimes(ws, n);
  }

  lemma OpenClosesText(ws: seq<WordInfo>, n: nat)
    requires n < |ws|
    ensures var b := Boundaries(ws, n);
            ClosedText(ws, b + [n], |b|) == OpenText(ws, n) + ws[n].word + " "
  {
    TailStartAfterBoundaries(ws, n);
    CloseAt(ws, Boundaries(ws, n), n, TailStart(ws, n));
  }

  /** Closing at word `n` after boundaries `b`: the new sentence's text is the
      text from just past the last boundary, then word `n`. */
  lemma CloseAt(ws: seq<WordInfo>, b: seq<nat>, n: nat, lo: nat)
    requires n < |ws| && lo <= n
    requires lo == (if b == [] then 0 else b[|b| - 1] + 1)
    ensures ClosedText(ws, b + [n], |b|) == WordsText(ws, lo, n) + ws[n].word + " "
  {
    var b' := b + [n];
    assert b'[|b|] == n;
    if b != [] {
      assert b'[|b| - 1] == b[|b| - 1];
    }
    assert ClosedText(ws, b', |b|) == WordsText(ws, lo, n + 1);
    WordsTextSnoc(ws, lo, n);
  }

  /** One more word at the end of a stretch of words. */
  lemma WordsTextSnoc(ws: seq<WordInfo>, lo: nat, n: nat)
    requires lo <= n < |ws|
    ensures WordsText(ws, lo, n + 1) == WordsText(ws, lo, n) + ws[n].word + " "
  {
  }

  lemma OpenClosesTimes(ws: seq<WordInfo>, n: nat)
    requires n < |ws|
    ensures var b := Boundaries(ws, n);
            && ClosedSentence(ws, b + [n], |b|).startTime == OpenSentence(ws, n).startTime
            && ClosedSentence(ws, b + [n], |b|).endTime == Seconds(ws[n].endTime)
  {
    var b := Boundaries(ws, n);
    assert (b + [n])[|b|] == n;
    if b != [] {
      assert (b + [n])[|b| - 1] == b[|b| - 1];
    }
  }

  /** After a boundary word the open sentence is empty and starts and ends
      where that word ends. */
  lemma OpenRestarts(ws: seq<WordInfo>, n: nat)
    requires n < |ws| && IsBoundary(ws[n])
    ensures OpenSentence(ws, n + 1) == Sentence("", Seconds(ws[n].endTime), Seconds(ws[n].endTime))
  {
    var b' := Boundaries(ws, n + 1);
    assert b'[|b'| - 1] == n;
  }

  /** Any other word joins the open sentence and moves its end. */
  lemma OpenGrows(ws: seq<WordInfo>, n: nat, cur: Sentence)
    requires n < |ws| && !IsBoundary(ws[n]) && cur == OpenSentence(ws, n)
    ensures OpenSentence(ws, n + 1)
            == Sentence(cur.text + ws[n].word + " ", cur.startTime, Seconds(ws[n].endTime))
  {
    assert Boundaries(ws, n + 1) == Boundaries(ws, n);
    assert TailStart(ws, n + 1) == TailStart(ws, n);
  }

  /** One word keeps the closed form: earlier sentences stay closed as they
      were, a boundary closes the open sentence, and the open sentence takes
      the word. */
  lemma WalkStep(ws: seq<WordInfo>, n: nat, st: Walker)
    requires n < |ws| && WalkInvariant(ws, n, st)
    ensures WalkInvariant(ws, n + 1, Step(st, ws[n]))
  {
    if IsBoundary(ws[n]) {
      WalkStepCloses(ws, n, st);
    } else {
      WalkStepGrows(ws, n, st);
    }
  }

  /** A boundary word closes the open sentence and opens an empty one. */
  lemma WalkStepCloses(ws: seq<WordInfo>, n: nat, st: Walker)
    requires n < |ws| && IsBoundary(ws[n]) && WalkInvariant(ws, n, st)
    ensures WalkInvariant(ws, n + 1, Step(st, ws[n]))
  {
    var b := Boundaries(ws, n);
    var st' := Step(st, ws[n]);
    BoundariesSnoc(ws, n);
    OpenCloses(ws, n, st.current);
    OpenRestarts(ws, n);
    forall k | 0 <= k < |b| ensures st'.done[k] == ClosedSentence(ws, b + [n], k) {
      ClosedKept(ws, b, [n], k);
      assert st'.done[k] == st.done[k];
    }
  }

  /** Any other word joins the open sentence; the closed ones stay. */
  lemma WalkStepGrows(ws: seq<WordInfo>, n: nat, st: Walker)
    requires n < |ws| && !IsBoundary(ws[n]) && WalkInvariant(ws, n, st)
    ensures WalkInvariant(ws, n + 1, Step(st, ws[n]))
  {
    BoundariesSnoc(ws, n);
    assert Boundaries(ws, n) + [] == Boundaries(ws, n);
    OpenGrows(ws, n, st.current);
  }

  /** The closed form holds after every prefix of the words. */
  lemma {:induction false} WalkInvariants(ws: seq<WordInfo>, n: nat)
    requires n <= |ws|
    ensures WalkInvariant(ws, n, Walk(ws, n))
    decreases n
  {
    if n > 0 {
      WalkInvariants(ws, n - 1);
      WalkStep(ws, n - 1, Walk(ws, n - 1));
    }
  }

  /** `b` lists exactly the positions of the boundary words among the first
      `n`, in increasing order. */
  predicate ListsBoundaries(ws: seq<WordInfo>, b: seq<nat>, n: nat)
    requires n <= |ws|
  {
    && (forall k :: 0 <= k < |b| ==> b[k] < n && IsBoundary(ws[b[k]]))
    && (forall i, j :: 0 <= i < j < |b| ==> b[i] < b[j])
    && (forall i :: 0 <= i < n && IsBoundary(ws[i]) ==> i in b)
  }

  /** One word further, the boundary list gains that word exactly when it is a boundary. */
  lemma BoundariesSnoc(ws: seq<WordInfo>, n: nat)
    requires n < |ws|
    ensures Boundaries(ws, n + 1) == Boundaries(ws, n) + (if IsBoundary(ws[n]) then [n] else [])
  {
  }

  /** Listing the boundaries one word further: word `n` joins the list exactly
      when it is a boundary. */
  lemma ListsBoundariesStep(ws: seq<WordInfo>, b: seq<nat>, b': seq<nat>, n: nat)
    requires n < |ws| && b == Boundaries(ws, n) && b' == Boundaries(ws, n + 1)
    requires ListsBoundaries(ws, b, n)
    ensures ListsBoundaries(ws, b', n + 1)
  {
    BoundariesSnoc(ws, n);
    if IsBoundary(ws[n]) {
      ListsBoundariesPush(ws, b, n);
    } else {
      assert b' == b;
      forall i | 0 <= i < n + 1 && IsBoundary(ws[i]) ensures i in b {
        assert i < n;
      }
    }
  }

  /** A boundary word at `n` extends the listing by itself. */
  lemma ListsBoundariesPush(ws: seq<WordInfo>, b: seq<nat>, n: nat)
    requires n < |ws| && ListsBoundaries(ws, b, n) && IsBoundary(ws[n])
    ensures ListsBoundaries(ws, b + [n], n + 1)
  {
    var b' := b + [n];
    forall k | 0 <= k < |b'| ensures b'[k] < n + 1 && IsBoundary(ws[b'[k]]) {
      if k < |b| {
        assert b'[k] == b[k];
      } else {
        assert b'[k] == n;
      }
    }
    forall i, j | 0 <= i < j < |b'| ensures b'[i] < b'[j] {
      assert b'[i] == b[i];
      if j < |b| {
        assert b'[j] == b[j];
      } else {
        assert b'[j] == n;
      }
    }
    forall i | 0 <= i < n + 1 && IsBoundary(ws[i]) ensures i in b' {
      if i < n {
        var k :| 0 <= k < |b| && b[k] == i;
        assert b'[k] == i;
      } else {
        assert b'[|b|] == i;
      }
    }
  }

  /** `Boundaries` lists exactly the boundary positions among the first `n`
      words, in increasing order. */
  lemma {:induction false} BoundariesExact(ws: seq<WordInfo>, n: nat)
    requires n <= |ws|
    ensures ListsBoundaries(ws, Boundaries(ws, n), n)
    decreases n
  {
    if n > 0 {
      BoundariesExact(ws, n - 1);
      ListsBoundariesStep(ws, Boundaries(ws, n - 1), Boundaries(ws, n), n - 1);
    }
  }

  /** `TailStart` is just past the last boundary among the first `n` words: no
      word from there on is a boundary, and the word before it (if any) is one. */
  lemma {:induction false} TailStartExact(ws: seq<WordInfo>, n: nat)
    requires n <= |ws|
    ensures var s := TailStart(ws, n);
      && (s > 0 ==> IsBoundary(ws[s - 1]))
      && (forall i :: s <= i < n ==> !IsBoundary(ws[i]))
    decreases n
  {
    if n > 0 && !IsBoundary(ws[n - 1]) {
      TailStartExact(ws, n - 1);
    }
  }

  lemma {:induction false} WordsTextWhitespace(ws: seq<WordInfo>, lo: nat, hi: nat)
    requires lo <= hi <= |ws|
    ensures AllIn(WordsText(ws, lo, hi), Whitespace) <==> forall i :: lo <= i < hi ==> AllIn(ws[i].word, Whitespace)
    decreases hi - lo
  {
    if lo < hi {
      WordsTextWhitespace(ws, lo, hi - 1);
      AllInAppend(WordsText(ws, lo, hi - 1), ws[hi - 1].word, Whitespace);
      AllInAppend(WordsText(ws, lo, hi - 1) + ws[hi - 1].word, " ", Whitespace);
    }
  }

  /** The text of words `lo` to `hi - 1` is blank exactly when every one of
      those words' text is. */
  lemma WordsTextBlank(ws: seq<WordInfo>, lo: nat, hi: nat)
    requires lo <= hi <= |ws|
    ensures IsBlank(WordsText(ws, lo, hi)) <==> forall i :: lo <= i < hi ==> IsBlank(ws[i].word)
  {
    BlankIffAllWhitespace(WordsText(ws, lo, hi));
    forall i | lo <= i < hi {
      BlankIffAllWhitespace(ws[i].word);
    }
    WordsTextWhitespace(ws, lo, hi);
  }

  /** Pushing the current sentence after the walk when its text is not blank;
      the pushed sentences are kept as they are. */
  function Finish(st: Walker): (out: seq<Sentence>)
    ensures |out| == |st.done| + (if IsBlank(st.current.text) then 0 else 1)
    ensures out[..|st.done|] == st.done
    ensures |out| > |st.done| ==> out[|st.done|] == st.current
  {
    if !IsBlank(st.current.text) then
      assert (st.done + [st.current])[..|st.done|] == st.done;
      st.done + [st.current]
    else st.done
  }

  /** The sentences the older revision returns for words `ws`, in closed form:
      sentence `k`, for each boundary word `k`, holds the words after boundary
      word `k - 1` up to and including boundary word `k`, each followed by a
      space, and runs from the end of boundary word `k - 1` (0 for the first)
      to the end of boundary word `k`; after them, when the words after the
      last boundary are not blank, one more sentence holds those words and runs
      from the end of the last boundary word (0 without one) to the end of the
      last word. */
  predicate IsLegacyOutcome(ws: seq<WordInfo>, out: seq<Sentence>) {
    var b := Boundaries(ws, |ws|);
    var flushed := !IsBlank(WordsText(ws, TailStart(ws, |ws|), |ws|));
    && |out| == |b| + (if flushed then 1 else 0)
    && (forall k :: 0 <= k < |b| ==> out[k] == ClosedSentence(ws, b, k))
    && (flushed ==> out[|b|] == OpenSentence(ws, |ws|))
  }

  /** The walk, finished, gives the closed form. */
  lemma FinishOutcome(ws: seq<WordInfo>)
    ensures IsLegacyOutcome(ws, Finish(Walk(ws, |ws|)))
  {
    var st := Walk(ws, |ws|);
    WalkInvariants(ws, |ws|);
    var out := Finish(st);
    forall k | 0 <= k < |st.done| ensures out[k] == st.done[k] {
      assert out[k] == out[..|st.done|][k];
    }
  }

  /** The closed form admits one list of sentences only. */
  lemma OutcomeUnique(ws: seq<WordInfo>, out: seq<Sentence>, out': seq<Sentence>)
    requires IsLegacyOutcome(ws, out) && IsLegacyOutcome(ws, out')
    ensures out == out'
  {
    var b := Boundaries(ws, |ws|);
    forall k | 0 <= k < |out| ensures out[k] == out'[k] {
      if k < |b| {
        assert out[k] == ClosedSentence(ws, b, k);
      }
    }
  }

  /** No word is lost: the sentences' texts, followed by the blank trailing
      part when that is dropped, spell out every word with its space. */
  lemma OutcomeKeepsEveryWord(ws: seq<WordInfo>, out: seq<Sentence>)
    requires IsLegacyOutcome(ws, out)
    ensures var tail := WordsText(ws, TailStart(ws, |ws|), |ws|);
            SentencesText(out) + (if IsBlank(tail) then tail else "") == WordsText(ws, 0, |ws|)
  {
    var st := Walk(ws, |ws|);
    FinishOutcome(ws);
    OutcomeUnique(ws, out, Finish(st));
    WalkInvariants(ws, |ws|);
    if !IsBlank(st.current.text) {
      SentencesTextPush(st.done, st.current);
      assert out == st.done + [st.current];
    } else {
      assert out == st.done;
    }
  }

  /** The sentences are chained in time: the first starts at 0 and each later
      one starts where the one before it ended. */
  lemma OutcomeTimesChain(ws: seq<WordInfo>, out: seq<Sentence>)
    requires IsLegacyOutcome(ws, out)
    ensures |out| > 0 ==> out[0].startTime == 0.0
    ensures forall k :: 0 <= k < |out| - 1 ==> out[k + 1].startTime == out[k].endTime
  {
    var b := Boundaries(ws, |ws|);
    if |out| > 0 && b == [] {
      assert out[0] == OpenSentence(ws, |ws|);
    }
    forall k | 0 <= k < |out| - 1 ensures out[k + 1].startTime == out[k].endTime {
      assert out[k] == ClosedSentence(ws, b, k);
      if k + 1 < |b| {
        assert out[k + 1] == ClosedSentence(ws, b, k + 1);
      } else {
        assert out[k + 1] == OpenSentence(ws, |ws|);
      }
    }
  }

  /** `extractSentences` of the older revision: it throws where the word
      collection does, and otherwise returns the walk's sentences with the
      non-blank remainder pushed last. */
  function ExtractSentences(tr: Option<Response>): (r: Result<seq<Sentence>, Fault>)
    ensures r.Failure? <==> LegacyWords(tr).Failure?
    ensures r.Failure? ==> r.error == LegacyWords(tr).error
    ensures r.Success? ==> IsLegacyOutcome(LegacyWords(tr).value, r.value)
  {
    var ws :- LegacyWords(tr);
    FinishOutcome(ws);
    Success(Finish(Walk(ws, |ws|)))
  }
}
