/** The regex match that cuts the backend transcript into candidate sentences:
    `text.match` with the pattern `[^.!?]+[.!?]*` and the global flag, which
    returns every non-overlapping match from left to right, or `null` when
    there is none. */
module Segmenter {
  import opened Wrappers
  import opened JsText

  /** A string the pattern matches whole: one or more non-terminators followed
      by zero or more terminators. */
  predicate IsSegment(seg: string) {
    var k := Span(seg, Terminator, false);
    k >= 1 && AllIn(seg[k..], Terminator)
  }

  predicate EndsWithTerminator(seg: string) {
    seg != [] && IsTerminator(seg[|seg| - 1])
  }

  /** The shape of a list of consecutive matches: each one matches the pattern
      whole, and each but the last ends in a terminator. */
  predicate AreMatches(segs: seq<string>) {
    && (forall i :: 0 <= i < |segs| ==> IsSegment(segs[i]))
    && (forall i :: 0 <= i < |segs| - 1 ==> EndsWithTerminator(segs[i]))
  }

  lemma ConsMatches(first: string, rest: seq<string>)
    requires IsSegment(first) && AreMatches(rest)
    requires rest != [] ==> EndsWithTerminator(first)
    ensures AreMatches([first] + rest)
  {
    var segs := [first] + rest;
    forall i | 0 <= i < |segs| ensures IsSegment(segs[i]) {
      if i > 0 { assert segs[i] == rest[i - 1]; }
    }
    forall i | 0 <= i < |segs| - 1 ensures EndsWithTerminator(segs[i]) {
      if i > 0 { assert segs[i] == rest[i - 1]; }
    }
  }

  /** Length of the leading run of terminators, which no match can start in. */
  function LeadingTerminators(s: string): nat {
    Span(s, Terminator, true)
  }

  /** Where a match starting at a non-terminator ends: after the greedy run of
      non-terminators and the greedy run of terminators that follows it. */
  function MatchEnd(s: string): (m: nat)
    ensures m <= |s|
  {
    var k := Span(s, Terminator, false);
    k + Span(s[k..], Terminator, true)
  }

  /** A match attempt at a terminator fails, so that character is skipped. */
  lemma SkipStep(s: string)
    requires s != [] && IsTerminator(s[0])
    ensures LeadingTerminators(s) == 1 + LeadingTerminators(s[1..])
    ensures AllIn(s, Terminator) <==> AllIn(s[1..], Terminator)
  {
    if AllIn(s[1..], Terminator) {
      forall i | 0 <= i < |s| ensures InClass(s[i], Terminator) {
        if i > 0 { assert s[1..][i - 1] == s[i]; }
      }
    }
  }

  /** A match attempt at a non-terminator succeeds with a whole-pattern match,
      and the text after it is empty or starts with a non-terminator. */
  lemma MatchStep(s: string)
    requires s != [] && !IsTerminator(s[0])
    ensures MatchEnd(s) >= 1
    ensures IsSegment(s[..MatchEnd(s)])
    ensures MatchEnd(s) < |s| ==> !IsTerminator(s[MatchEnd(s)]) && EndsWithTerminator(s[..MatchEnd(s)])
    ensures LeadingTerminators(s) == 0 && LeadingTerminators(s[MatchEnd(s)..]) == 0
    ensures !AllIn(s, Terminator)
    ensures AllIn(s[MatchEnd(s)..], Terminator) <==> MatchEnd(s) == |s|
  {
    var k := Span(s, Terminator, false);
    var m := MatchEnd(s);
    var first := s[..m];
    assert first[..k] == s[..k];
    SpanUnique(first, Terminator, false, k);
    assert first[k..] == s[k..m];
    SpanUnique(s[m..], Terminator, true, 0);
    SpanUnique(s, Terminator, true, 0);
    assert !InClass(s[0], Terminator);
    if m < |s| {
      assert s[m..][0] == s[m];
    }
  }

  /** The matches of the global regex, in order. A match attempt at a terminator
      fails and the search moves on one character; at a non-terminator the two
      greedy runs are taken, and the next search starts where the match ended.
      Concatenated, the matches give the input without its leading terminators;
      every match but the last ends in a terminator (otherwise the greedy runs
      would have continued). */
  function Segments(s: string): (segs: seq<string>)
    ensures Concat(segs) == s[LeadingTerminators(s)..]
    ensures AreMatches(segs)
    ensures segs == [] <==> AllIn(s, Terminator)
    decreases |s|
  {
    if s == [] then []
    else if IsTerminator(s[0]) then
      var rest := Segments(s[1..]);
      SkipKeeps(s, rest);
      rest
    else
      var rest := Segments(s[MatchEnd(s)..]);
      MatchKeeps(s, rest);
      [s[..MatchEnd(s)]] + rest
  }

  /** Skipping a leading terminator keeps the matches of the rest valid for the
      whole text. */
  lemma SkipKeeps(s: string, rest: seq<string>)
    requires s != [] && IsTerminator(s[0])
    requires Concat(rest) == s[1..][LeadingTerminators(s[1..])..]
    requires rest == [] <==> AllIn(s[1..], Terminator)
    ensures Concat(rest) == s[LeadingTerminators(s)..]
    ensures rest == [] <==> AllIn(s, Terminator)
  {
    SkipStep(s);
    assert s[1..][LeadingTerminators(s[1..])..] == s[LeadingTerminators(s)..];
  }

  /** A whole-pattern match at the start, followed by the matches of the text
      after it, is a valid list of matches for the whole text. */
  lemma MatchKeeps(s: string, rest: seq<string>)
    requires s != [] && !IsTerminator(s[0])
    requires Concat(rest) == s[MatchEnd(s)..][LeadingTerminators(s[MatchEnd(s)..])..]
    requires AreMatches(rest)
    requires rest == [] <==> AllIn(s[MatchEnd(s)..], Terminator)
    ensures Concat([s[..MatchEnd(s)]] + rest) == s[LeadingTerminators(s)..]
    ensures AreMatches([s[..MatchEnd(s)]] + rest)
    ensures !AllIn(s, Terminator)
  {
    var m := MatchEnd(s);
    MatchStep(s);
    var segs := [s[..m]] + rest;
    assert segs[0] == s[..m] && segs[1..] == rest;
    assert Concat(segs) == s[..m] + Concat(rest);
    assert s[m..][0..] == s[m..];
    assert s[..m] + s[m..] == s[0..];
    ConsMatches(s[..m], rest);
  }

  /** `String.prototype.match` with a global regex: `null` when nothing matches,
      which happens exactly when the text has no non-terminator character. */
  function Match(s: string): (r: Option<seq<string>>)
    ensures r.None? <==> AllIn(s, Terminator)
    ensures r.Some? ==> |r.value| >= 1 && Concat(r.value) == s[LeadingTerminators(s)..]
  {
    var segs := Segments(s);
    if segs == [] then None else Some(segs)
  }

  /** A match starting a text that begins with a whole-pattern match `a` ends
      exactly where `a` does, when `a` ends in a terminator and the text after it
      does not start with one. */
  lemma MatchEndOfAppend(a: string, tail: string)
    requires IsSegment(a)
    requires tail == [] || (EndsWithTerminator(a) && !IsTerminator(tail[0]))
    ensures a + tail != [] && !IsTerminator((a + tail)[0])
    ensures MatchEnd(a + tail) == |a|
  {
    var s := a + tail;
    var ka := Span(a, Terminator, false);
    assert s[0] == a[0];
    assert !InClass(a[0], Terminator);
    forall i | 0 <= i < ka ensures InClass(s[i], Terminator) == false {
      assert s[i] == a[i];
    }
    if tail == [] {
      assert s == a;
      SpanUnique(a[ka..], Terminator, true, |a| - ka);
    } else {
      assert ka < |a| by {
        assert InClass(a[|a| - 1], Terminator);
      }
      assert s[ka] == a[ka];
      SpanUnique(s, Terminator, false, ka);
      var t := s[ka..];
      assert t == a[ka..] + tail;
      forall i | 0 <= i < |a| - ka ensures InClass(t[i], Terminator) {
        assert t[i] == a[ka..][i];
      }
      assert t[|a| - ka] == tail[0];
      SpanUnique(t, Terminator, true, |a| - ka);
    }
  }

  /** A list of matches splits into its first match and the matches after it,
      and the text after the first match starts with a non-terminator. */
  lemma UnconsMatches(segs: seq<string>)
    requires segs != [] && AreMatches(segs)
    ensures segs == [segs[0]] + segs[1..]
    ensures IsSegment(segs[0]) && AreMatches(segs[1..])
    ensures Concat(segs) == segs[0] + Concat(segs[1..])
    ensures segs[1..] == [] || (EndsWithTerminator(segs[0]) && !IsTerminator(Concat(segs[1..])[0]))
  {
    var rest := segs[1..];
    forall i | 0 <= i < |rest| ensures IsSegment(rest[i]) {
      assert rest[i] == segs[i + 1];
    }
    forall i | 0 <= i < |rest| - 1 ensures EndsWithTerminator(rest[i]) {
      assert rest[i] == segs[i + 1];
    }
    if rest != [] {
      assert IsSegment(rest[0]);
      assert Concat(rest) == rest[0] + Concat(rest[1..]);
      assert !InClass(rest[0][0], Terminator);
    }
  }

  /** A whole-pattern match ending in a terminator, followed by text that does
      not start with a terminator, is the first match; the rest of the text is
      matched on its own. */
  lemma SegmentsOfAppend(a: string, b: string)
    requires IsSegment(a)
    requires b == [] || (EndsWithTerminator(a) && !IsTerminator(b[0]))
    ensures Segments(a + b) == [a] + Segments(b)
  {
    var s := a + b;
    MatchEndOfAppend(a, b);
    MatchStep(s);
    assert s[..|a|] == a;
    assert s[|a|..] == b;
  }

  /** The matches are the only decomposition of the text into consecutive
      whole-pattern matches of which all but the last end in a terminator: any
      such decomposition is what the global regex returns. */
  lemma {:induction false} SegmentsUnique(s: string, segs: seq<string>)
    requires AreMatches(segs)
    requires Concat(segs) == s
    ensures Segments(s) == segs
    decreases |segs|
  {
    if segs != [] {
      var rest := segs[1..];
      UnconsMatches(segs);
      SegmentsUnique(Concat(rest), rest);
      SegmentsOfAppend(segs[0], Concat(rest));
    }
  }
}
