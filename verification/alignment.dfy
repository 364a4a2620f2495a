/** When positional alignment is exact. If every word token is free of
    whitespace and matches `[^.!?]+[.!?]*` as a whole (one or more characters
    other than `.`, `!`, `?`, followed only by terminators; so a token that is
    only `?` or `...` is excluded), then the backend's text segmentation and
    token counting recover the sentences exactly: each
    sentence is a maximal run of words closed by a word ending in `.`, `!` or
    `?` (or by the last word), timed from its first word's start to its last
    word's end, and no word is left over. */
module Alignment {
  import opened TimeOffsets
  import opened JsText
  import opened Segmenter
  import opened Speech
  import opened BackendSentences

  /** A token the alignment handles: no whitespace, and at least one
      non-terminator followed only by terminators. */
  predicate IsCleanToken(t: string) {
    IsSegment(t) && NoneIn(t, Whitespace)
  }

  predicate CleanAt(ws: seq<WordInfo>, i: nat)
    requires i < |ws|
  {
    IsCleanToken(ws[i].word)
  }

  /** Every word's token is clean. */
  predicate AllClean(ws: seq<WordInfo>) {
    forall i :: 0 <= i < |ws| ==> CleanAt(ws, i)
  }

  lemma CleanSlice(ws: seq<WordInfo>, a: nat, b: nat)
    requires AllClean(ws) && a <= b <= |ws|
    ensures AllClean(ws[a..b])
  {
    forall i | 0 <= i < b - a ensures CleanAt(ws[a..b], i) {
      assert CleanAt(ws, a + i);
      assert ws[a..b][i] == ws[a + i];
    }
  }

  /** Clean tokens form a word list `split(/\s+/)` gives back. */
  lemma CleanIsWordList(ws: seq<WordInfo>)
    requires ws != [] && AllClean(ws)
    ensures IsWordList(Tokens(ws))
  {
    var ts := Tokens(ws);
    forall i | 0 <= i < |ts| ensures ts[i] != [] && NoneIn(ts[i], Whitespace) {
      assert CleanAt(ws, i);
    }
  }

  /** A clean token that does not end in a terminator has none at all. */
  lemma OpenTokenHasNoTerminator(t: string)
    requires IsSegment(t) && !EndsWithTerminator(t)
    ensures NoneIn(t, Terminator)
  {
  }

  /** Non-terminators in front of a whole-pattern match keep it one. */
  lemma PrependOpen(p: string, x: string)
    requires NoneIn(p, Terminator) && IsSegment(x)
    ensures IsSegment(p + x)
    ensures EndsWithTerminator(p + x) <==> EndsWithTerminator(x)
  {
    var s := p + x;
    var kx := Span(x, Terminator, false);
    forall i | 0 <= i < |p| + kx ensures !InClass(s[i], Terminator) {
      if i < |p| { assert s[i] == p[i]; } else { assert s[i] == x[i - |p|]; }
    }
    if |p| + kx < |s| {
      assert s[|p| + kx] == x[kx];
    }
    SpanUnique(s, Terminator, false, |p| + kx);
    assert s[|p| + kx..] == x[kx..];
    assert s[|s| - 1] == x[|x| - 1];
  }

  /** Joining tokens with spaces across `n`: the tokens before, a space, the tokens after. */
  lemma {:induction false} JoinSplit(parts: seq<string>, n: nat)
    requires 0 < n < |parts|
    ensures JoinWithSpace(parts) == JoinWithSpace(parts[..n]) + " " + JoinWithSpace(parts[n..])
    decreases n
  {
    if n > 1 {
      JoinSplit(parts[1..], n - 1);
      assert parts[1..][..n - 1] == parts[..n][1..];
      assert parts[1..][n - 1..] == parts[n..];
    }
  }

  /** The transcript of words splits at a word boundary with one space. */
  lemma TranscriptSplit(ws: seq<WordInfo>, n: nat)
    requires 0 < n < |ws|
    ensures Transcript(ws) == Transcript(ws[..n]) + " " + Transcript(ws[n..])
  {
    JoinSplit(Tokens(ws), n);
    assert Tokens(ws[..n]) == Tokens(ws)[..n];
    assert Tokens(ws[n..]) == Tokens(ws)[n..];
  }

  /** The transcript of two or more words is the first word, a space, and the
      transcript of the rest. */
  lemma TranscriptCons(ws: seq<WordInfo>)
    requires |ws| > 1
    ensures Transcript(ws) == ws[0].word + " " + Transcript(ws[1..])
  {
    assert Tokens(ws)[1..] == Tokens(ws[1..]);
  }

  /** The text of one group is a whole-pattern match, ending in a terminator
      exactly when its last token does. */
  lemma {:induction false} GroupTextIsSegment(g: seq<WordInfo>)
    requires g != [] && AllClean(g)
    requires forall i :: 0 <= i < |g| - 1 ==> !EndsWithTerminator(g[i].word)
    ensures IsSegment(Transcript(g))
    ensures EndsWithTerminator(Transcript(g)) <==> EndsWithTerminator(g[|g| - 1].word)
    decreases |g|
  {
    assert CleanAt(g, 0);
    if |g| == 1 {
      assert Transcript(g) == g[0].word;
    } else {
      var t := g[0].word;
      var rest := g[1..];
      CleanSlice(g, 1, |g|);
      assert g[1..|g|] == rest;
      assert forall i :: 0 <= i < |rest| - 1 ==> rest[i] == g[i + 1];
      GroupTextIsSegment(rest);
      TranscriptCons(g);
      PrependOpenToken(t, Transcript(rest));
      assert g[|g| - 1] == rest[|rest| - 1];
    }
  }

  /** A whole-pattern match without a final terminator, a space, and a
      whole-pattern match make one whole-pattern match that ends like the second. */
  lemma PrependOpenToken(t: string, x: string)
    requires IsSegment(t) && !EndsWithTerminator(t) && IsSegment(x)
    ensures IsSegment(t + " " + x)
    ensures EndsWithTerminator(t + " " + x) <==> EndsWithTerminator(x)
  {
    OpenTokenHasNoTerminator(t);
    AllInAppendNone(t, " ");
    PrependOpen(t + " ", x);
  }

  lemma AllInAppendNone(a: string, b: string)
    requires NoneIn(a, Terminator) && NoneIn(b, Terminator)
    ensures NoneIn(a + b, Terminator)
  {
    forall i | 0 <= i < |a + b| ensures !InClass((a + b)[i], Terminator) {
      if i < |a| { assert (a + b)[i] == a[i]; } else { assert (a + b)[i] == b[i - |a|]; }
    }
  }

  /** `trim` removes one leading space from a string with no whitespace at either end. */
  lemma TrimLeadingSpace(x: string)
    requires x != [] && !IsWhitespace(x[0]) && !IsWhitespace(x[|x| - 1])
    ensures Trim(" " + x) == x
  {
    var s := " " + x;
    SpanUnique(s, Whitespace, true, 1);
    assert s[1..] == x;
    assert TrimStart(s) == x;
    assert TrimEnd(x) == x;
  }

  /** One past the last word of the sentence that starts at word `c`: the
      first word from `c` on whose token ends in a terminator closes it, and
      without one the sentence runs to the last word. */
  function GroupEnd(words: seq<WordInfo>, c: nat): (e: nat)
    requires c < |words|
    ensures c < e <= |words|
    decreases |words| - c
  {
    if c == |words| - 1 || EndsWithTerminator(words[c].word) then c + 1
    else GroupEnd(words, c + 1)
  }

  /** No word before the last of a group ends in a terminator, and the last one
      does unless the group runs to the end of the words. */
  lemma {:induction false} GroupEndCloses(words: seq<WordInfo>, c: nat)
    requires c < |words|
    ensures forall i :: c <= i < GroupEnd(words, c) - 1 ==> !EndsWithTerminator(words[i].word)
    ensures GroupEnd(words, c) < |words| ==> EndsWithTerminator(words[GroupEnd(words, c) - 1].word)
    decreases |words| - c
  {
    if !(c == |words| - 1 || EndsWithTerminator(words[c].word)) {
      GroupEndCloses(words, c + 1);
    }
  }

  /** The tokens of words `c` to `e - 1` joined with single spaces. */
  function TextBetween(words: seq<WordInfo>, c: nat, e: nat): string
    requires c < e <= |words|
    decreases e - c
  {
    if e == c + 1 then words[c].word else words[c].word + " " + TextBetween(words, c + 1, e)
  }

  /** The text of clean words `c` to `e - 1` has no whitespace at either end
      and splits back into exactly those words' tokens. */
  lemma {:induction false} BetweenShape(words: seq<WordInfo>, c: nat, e: nat)
    requires c < e <= |words| && AllClean(words)
    ensures var x := TextBetween(words, c, e);
            x != [] && !IsWhitespace(x[0]) && !IsWhitespace(x[|x| - 1]) && |SplitWs(x)| == e - c
    decreases e - c
  {
    var w := words[c].word;
    assert CleanAt(words, c);
    assert !InClass(w[0], Whitespace) && !InClass(w[|w| - 1], Whitespace);
    if e == c + 1 {
      SpanUnique(w, Whitespace, false, |w|);
    } else {
      var rest := TextBetween(words, c + 1, e);
      BetweenShape(words, c + 1, e);
      SplitWsStep(w, rest);
      var x := w + " " + rest;
      assert x[0] == w[0] && x[|x| - 1] == rest[|rest| - 1];
    }
  }

  /** A text, behind the joining space when `spaced` holds. */
  function Behind(spaced: bool, x: string): string {
    if spaced then " " + x else x
  }

  /** A group's text, with or without a leading space, trims to the text and
      counts as many tokens as the text splits into. */
  lemma LeadCounts(x: string, spaced: bool)
    requires x != [] && !IsWhitespace(x[0]) && !IsWhitespace(x[|x| - 1])
    ensures Trim(Behind(spaced, x)) == x
    ensures TokenCount(Behind(spaced, x)) == |SplitWs(x)|
  {
    if spaced {
      TrimLeadingSpace(x);
    } else {
      TrimKeepsTrimmed(x);
    }
  }

  /** `TextBetween` is the transcript of that stretch of words. */
  lemma {:induction false} TextBetweenIsTranscript(words: seq<WordInfo>, c: nat, e: nat)
    requires c < e <= |words|
    ensures TextBetween(words, c, e) == Transcript(words[c..e])
    decreases e - c
  {
    var g := words[c..e];
    if e == c + 1 {
      assert g == [words[c]];
      assert Tokens(g) == [words[c].word];
    } else {
      TextBetweenIsTranscript(words, c + 1, e);
      TranscriptSplit(g, 1);
      assert g[..1] == [words[c]];
      assert Tokens([words[c]]) == [words[c].word];
      assert g[1..] == words[c + 1..e];
    }
  }

  /** The text of a stretch of words splits with one space at any inner word. */
  lemma {:induction false} TextBetweenSplit(words: seq<WordInfo>, c: nat, m: nat, e: nat)
    requires c < m < e <= |words|
    ensures TextBetween(words, c, e) == TextBetween(words, c, m) + " " + TextBetween(words, m, e)
    decreases m - c
  {
    if m > c + 1 {
      TextBetweenSplit(words, c + 1, m, e);
    }
  }

  /** The intended sentence starting at word `c`: its words' tokens joined with
      spaces, from the first word's start to the last word's end. */
  function GroupSentence(words: seq<WordInfo>, c: nat): Sentence
    requires c < |words|
  {
    var e := GroupEnd(words, c);
    Sentence(TextBetween(words, c, e), Seconds(words[c].startTime), Seconds(words[e - 1].endTime))
  }

  /** The intended sentences of the words from `c` on, one per group. */
  function IntendedFrom(words: seq<WordInfo>, c: nat): seq<Sentence>
    requires c <= |words|
    decreases |words| - c
  {
    if c == |words| then [] else [GroupSentence(words, c)] + IntendedFrom(words, GroupEnd(words, c))
  }

  /** The intended sentences of a word list. */
  function Intended(words: seq<WordInfo>): seq<Sentence> {
    IntendedFrom(words, 0)
  }

  /** The text of the group starting at word `c`, behind the joining space
      when `spaced` holds. */
  function GroupSegment(words: seq<WordInfo>, c: nat, spaced: bool): string
    requires c < |words|
  {
    Behind(spaced, TextBetween(words, c, GroupEnd(words, c)))
  }

  /** The segments the regex cuts `Behind(spaced, TextBetween(words, c, |words|))` into:
      one per group, each after the first carrying the joining space in front. */
  function GroupSegments(words: seq<WordInfo>, c: nat, spaced: bool): seq<string>
    requires c <= |words|
    decreases |words| - c
  {
    if c == |words| then []
    else [GroupSegment(words, c, spaced)] + GroupSegments(words, GroupEnd(words, c), true)
  }

  /** The segment of a group is a whole-pattern match, and it ends in a
      terminator when more words follow. */
  lemma GroupSegmentIsMatch(words: seq<WordInfo>, c: nat, spaced: bool)
    requires c < |words| && AllClean(words)
    ensures IsSegment(GroupSegment(words, c, spaced))
    ensures GroupEnd(words, c) < |words| ==> EndsWithTerminator(GroupSegment(words, c, spaced))
  {
    var e := GroupEnd(words, c);
    var g := words[c..e];
    GroupEndCloses(words, c);
    TextBetweenIsTranscript(words, c, e);
    CleanSlice(words, c, e);
    assert forall i :: 0 <= i < |g| ==> g[i] == words[c + i];
    GroupTextIsSegment(g);
    if spaced {
      PrependOpen(" ", Transcript(g));
    }
  }

  /** The regex cuts the text of clean words (behind the joining space when
      `spaced` holds) exactly at the group boundaries. */
  lemma {:induction false} SegmentsOfGroups(words: seq<WordInfo>, c: nat, spaced: bool)
    requires c < |words| && AllClean(words)
    ensures Segments(Behind(spaced, TextBetween(words, c, |words|))) == GroupSegments(words, c, spaced)
    decreases |words| - c
  {
    var e := GroupEnd(words, c);
    var a := GroupSegment(words, c, spaced);
    GroupSegmentIsMatch(words, c, spaced);
    if e == |words| {
      SegmentsStep(a, a, [], []);
    } else {
      TextBetweenSplit(words, c, e, |words|);
      var b := Behind(true, TextBetween(words, e, |words|));
      assert Behind(spaced, TextBetween(words, c, |words|)) == a + b;
      assert b[0] == ' ';
      SegmentsOfGroups(words, e, true);
      SegmentsStep(Behind(spaced, TextBetween(words, c, |words|)), a, b, GroupSegments(words, e, true));
    }
  }

  /** One step of the regex over a text made of a match followed by more text. */
  lemma SegmentsStep(x: string, a: string, b: string, rest: seq<string>)
    requires IsSegment(a) && x == a + b && Segments(b) == rest
    requires b == [] || (EndsWithTerminator(a) && !IsTerminator(b[0]))
    ensures Segments(x) == [a] + rest
  {
    SegmentsOfAppend(a, b);
  }

  /** The texts of a list of sentences. */
  function Texts(ss: seq<Sentence>): (ts: seq<string>)
    ensures |ts| == |ss|
    ensures forall i :: 0 <= i < |ss| ==> ts[i] == ss[i].text
  {
    seq(|ss|, i requires 0 <= i < |ss| => ss[i].text)
  }

  /** No word is dropped or repeated: the intended sentences of the words from
      `c` on, joined with spaces, give back the text of those words. */
  lemma {:induction false} IntendedKeepsEveryWord(words: seq<WordInfo>, c: nat)
    requires c < |words|
    ensures JoinWithSpace(Texts(IntendedFrom(words, c))) == TextBetween(words, c, |words|)
    decreases |words| - c
  {
    var e := GroupEnd(words, c);
    var first := GroupSentence(words, c);
    var rest := IntendedFrom(words, e);
    var ts := Texts([first] + rest);
    if e == |words| {
      assert ts == [first.text];
    } else {
      IntendedKeepsEveryWord(words, e);
      TextBetweenSplit(words, c, e, |words|);
      assert ts == [first.text] + Texts(rest);
      assert ts[1..] == Texts(rest);
    }
  }

  /** The number of words from `c` on whose token ends in a terminator. */
  function ClosersFrom(words: seq<WordInfo>, c: nat): nat
    requires c <= |words|
    decreases |words| - c
  {
    if c == |words| then 0
    else (if EndsWithTerminator(words[c].word) then 1 else 0) + ClosersFrom(words, c + 1)
  }

  /** A group holds one closing word when its last word closes it, none otherwise. */
  lemma {:induction false} ClosersOfGroup(words: seq<WordInfo>, c: nat)
    requires c < |words|
    ensures var e := GroupEnd(words, c);
            ClosersFrom(words, c) == (if EndsWithTerminator(words[e - 1].word) then 1 else 0) + ClosersFrom(words, e)
    decreases |words| - c
  {
    if !(c == |words| - 1 || EndsWithTerminator(words[c].word)) {
      ClosersOfGroup(words, c + 1);
    }
  }

  /** The intended sentences are as many as the words ending in a terminator,
      plus one when the last word does not end in one. */
  lemma {:induction false} IntendedCount(words: seq<WordInfo>, c: nat)
    requires c <= |words|
    ensures |IntendedFrom(words, c)|
            == ClosersFrom(words, c) + (if c < |words| && !EndsWithTerminator(words[|words| - 1].word) then 1 else 0)
    decreases |words| - c
  {
    if c < |words| {
      var e := GroupEnd(words, c);
      IntendedCount(words, e);
      ClosersOfGroup(words, c);
      GroupEndCloses(words, c);
    }
  }
}
