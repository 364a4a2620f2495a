/** The JavaScript string primitives the reconstruction relies on:
    the `\s` character class (the same set `String.prototype.trim` strips),
    the sentence-terminator class `[.!?]`, `trim`, `split(/\s+/)` and `join(' ')`. */
module JsText {

  /** ECMAScript WhiteSpace and LineTerminator code points: what `\s` matches. */
  predicate IsWhitespace(c: char) {
    || c == '\t' || c == '\n' || c == '\U{000B}' || c == '\U{000C}' || c == '\r' || c == ' '
    || c == '\U{00A0}' || c == '\U{1680}' || ('\U{2000}' <= c <= '\U{200A}')
    || c == '\U{2028}' || c == '\U{2029}' || c == '\U{202F}' || c == '\U{205F}'
    || c == '\U{3000}' || c == '\U{FEFF}'
  }

  /** The characters of the class `[.!?]`. */
  predicate IsTerminator(c: char) {
    c == '.' || c == '!' || c == '?'
  }

  datatype CharClass = Whitespace | Terminator

  predicate InClass(c: char, k: CharClass) {
    match k
    case Whitespace => IsWhitespace(c)
    case Terminator => IsTerminator(c)
  }

  predicate NoneIn(s: string, k: CharClass) {
    forall i :: 0 <= i < |s| ==> !InClass(s[i], k)
  }

  predicate AllIn(s: string, k: CharClass) {
    forall i :: 0 <= i < |s| ==> InClass(s[i], k)
  }

  /** Length of the longest prefix of `s` whose characters are in class `k`
      exactly when `member` holds: a greedy regex run such as `[.!?]*` or `[^.!?]+`. */
  function Span(s: string, k: CharClass, member: bool): (n: nat)
    ensures n <= |s|
    ensures forall i :: 0 <= i < n ==> InClass(s[i], k) == member
    ensures n < |s| ==> InClass(s[n], k) != member
  {
    RunEnd(s, k, member, 0)
  }

  /** The end of the run of such characters that starts at index `i`. */
  function RunEnd(s: string, k: CharClass, member: bool, i: nat): (e: nat)
    requires i <= |s|
    ensures i <= e <= |s|
    ensures forall j :: i <= j < e ==> InClass(s[j], k) == member
    ensures e < |s| ==> InClass(s[e], k) != member
    decreases |s| - i
  {
    if i == |s| || InClass(s[i], k) != member then i else RunEnd(s, k, member, i + 1)
  }

  /** `trimStart`: drop the leading run of whitespace. */
  function TrimStart(s: string): (r: string)
    ensures |r| <= |s|
  {
    s[Span(s, Whitespace, true)..]
  }

  /** What `trimStart` drops is the leading whitespace, and only that. */
  lemma TrimStartDropsWhitespace(s: string)
    ensures var r := TrimStart(s);
            r == s[|s| - |r|..] && AllIn(s[..|s| - |r|], Whitespace)
            && (r == [] || !IsWhitespace(r[0]))
  {
    var k := Span(s, Whitespace, true);
    assert TrimStart(s) == s[k..];
    forall i | 0 <= i < k ensures InClass(s[..k][i], Whitespace) {
      assert s[..k][i] == s[i];
    }
  }

  /** `trimEnd`: drop the trailing run of whitespace. */
  function TrimEnd(s: string): (r: string)
    ensures |r| <= |s|
    decreases |s|
  {
    if s != [] && IsWhitespace(s[|s| - 1]) then TrimEnd(s[..|s| - 1]) else s
  }

  /** What `trimEnd` drops is the trailing whitespace, and only that. */
  lemma {:induction false} TrimEndDropsWhitespace(s: string)
    ensures var r := TrimEnd(s);
            r == s[..|r|] && AllIn(s[|r|..], Whitespace)
            && (r == [] || !IsWhitespace(r[|r| - 1]))
    decreases |s|
  {
    if s != [] && IsWhitespace(s[|s| - 1]) {
      var t := s[..|s| - 1];
      TrimEndDropsWhitespace(t);
      var r := TrimEnd(t);
      assert s[|r|..] == t[|r|..] + [s[|s| - 1]];
    }
  }

  /** `trim`: drop whitespace at both ends. */
  function Trim(s: string): (r: string)
    ensures |r| <= |s|
  {
    TrimEnd(TrimStart(s))
  }

  /** Neither end of a trimmed string is whitespace. */
  lemma TrimEnds(s: string)
    ensures var r := Trim(s);
            r == [] || (!IsWhitespace(r[0]) && !IsWhitespace(r[|r| - 1]))
  {
    var t := TrimStart(s);
    TrimStartDropsWhitespace(s);
    TrimEndDropsWhitespace(t);
    if Trim(s) != [] {
      assert Trim(s)[0] == t[0];
    }
  }

  /** What `trim` removes is whitespace: its result is a contiguous infix of
      the input with only whitespace before and after it. */
  lemma TrimIsInfix(s: string)
    ensures var r := Trim(s);
            exists i :: 0 <= i <= |s| - |r| && r == s[i..i + |r|]
              && AllIn(s[..i], Whitespace) && AllIn(s[i + |r|..], Whitespace)
  {
    var t := TrimStart(s);
    var r := TrimEnd(t);
    var i := |s| - |t|;
    TrimStartDropsWhitespace(s);
    TrimEndDropsWhitespace(t);
    assert s[i..i + |r|] == r;
    assert s[i + |r|..] == t[|r|..];
  }

  /** `s.split(/\s+/)`: the pieces between maximal whitespace runs. A leading or
      trailing run yields an empty first or last piece, and `""` splits to `[""]`. */
  function SplitWs(s: string): (parts: seq<string>)
    ensures |parts| >= 1
    decreases |s|
  {
    var i := Span(s, Whitespace, false);
    if i == |s| then [s]
    else
      var j := RunEnd(s, Whitespace, true, i);
      [s[..i]] + SplitWs(s[j..])
  }

  /** No piece of `split(/\s+/)` holds whitespace. */
  lemma {:induction false} SplitWsPiecesClean(s: string)
    ensures forall i :: 0 <= i < |SplitWs(s)| ==> NoneIn(SplitWs(s)[i], Whitespace)
    decreases |s|
  {
    var i := Span(s, Whitespace, false);
    if i < |s| {
      var j := RunEnd(s, Whitespace, true, i);
      SplitWsPiecesClean(s[j..]);
      var parts := SplitWs(s);
      forall k | 0 <= k < |parts| ensures NoneIn(parts[k], Whitespace) {
        if k > 0 { assert parts[k] == SplitWs(s[j..])[k - 1]; }
      }
    }
  }

  /** `parts.join(' ')`. */
  function JoinWithSpace(parts: seq<string>): (r: string)
    ensures parts == [] ==> r == ""
    ensures parts != [] ==> |r| >= |parts[0]| && r[..|parts[0]|] == parts[0]
    ensures |parts| > 1 ==> |r| > |parts[0]| && r[|parts[0]|] == ' '
  {
    if parts == [] then ""
    else if |parts| == 1 then parts[0]
    else parts[0] + " " + JoinWithSpace(parts[1..])
  }

  /** Concatenation of a sequence of strings (`parts.join('')`). */
  function Concat(parts: seq<string>): string
  {
    if parts == [] then "" else parts[0] + Concat(parts[1..])
  }

  predicate IsBlank(s: string) {
    Trim(s) == []
  }

  /** A sequence of strings that `split(/\s+/)` can give back unchanged: at least
      one piece, every piece non-empty and free of whitespace. */
  predicate IsWordList(parts: seq<string>) {
    && |parts| >= 1
    && forall i :: 0 <= i < |parts| ==> parts[i] != [] && NoneIn(parts[i], Whitespace)
  }

  /** `Span` is determined by its contract: any run length with the same
      characterisation is the span. */
  lemma SpanUnique(s: string, k: CharClass, member: bool, n: nat)
    requires n <= |s|
    requires forall i :: 0 <= i < n ==> InClass(s[i], k) == member
    requires n < |s| ==> InClass(s[n], k) != member
    ensures Span(s, k, member) == n
  {
    RunEndUnique(s, k, member, 0, n);
  }

  lemma {:induction false} RunEndUnique(s: string, k: CharClass, member: bool, i: nat, n: nat)
    requires i <= n <= |s|
    requires forall j :: i <= j < n ==> InClass(s[j], k) == member
    requires n < |s| ==> InClass(s[n], k) != member
    ensures RunEnd(s, k, member, i) == n
    decreases n - i
  {
    if i < n {
      RunEndUnique(s, k, member, i + 1, n);
    }
  }

  /** The joined text of a word list begins with its first word and ends with
      its last word's last character. */
  lemma JoinEnds(parts: seq<string>)
    requires IsWordList(parts)
    ensures |JoinWithSpace(parts)| >= |parts[0]| > 0
    ensures JoinWithSpace(parts)[..|parts[0]|] == parts[0]
    ensures JoinWithSpace(parts)[|JoinWithSpace(parts)| - 1] == parts[|parts| - 1][|parts[|parts| - 1]| - 1]
  {
    if |parts| > 1 {
      JoinEnds(parts[1..]);
    }
  }

  /** `trim` leaves a string with no whitespace at either end unchanged. */
  lemma TrimKeepsTrimmed(s: string)
    requires s == [] || (!IsWhitespace(s[0]) && !IsWhitespace(s[|s| - 1]))
    ensures Trim(s) == s
  {
    if s != [] {
      SpanUnique(s, Whitespace, true, 0);
      assert TrimStart(s) == s;
    }
  }

  /** A joined word list has no whitespace at either end, so `trim` keeps it. */
  lemma TrimJoin(parts: seq<string>)
    requires IsWordList(parts)
    ensures Trim(JoinWithSpace(parts)) == JoinWithSpace(parts)
  {
    JoinEnds(parts);
    var s := JoinWithSpace(parts);
    var w := parts[0];
    var v := parts[|parts| - 1];
    assert s[0] == w[0];
    assert NoneIn(w, Whitespace) && NoneIn(v, Whitespace);
    assert !InClass(w[0], Whitespace) && !InClass(v[|v| - 1], Whitespace);
    TrimKeepsTrimmed(s);
  }

  /** One step of `split(/\s+/)`: a whitespace-free word followed by one space
      and a non-whitespace character splits off as the first piece. */
  lemma SplitWsStep(w: string, rest: string)
    requires NoneIn(w, Whitespace)
    requires rest != [] && !IsWhitespace(rest[0])
    ensures SplitWs(w + " " + rest) == [w] + SplitWs(rest)
  {
    var s := w + " " + rest;
    forall i | 0 <= i < |w| ensures !InClass(s[i], Whitespace) {
      assert s[i] == w[i];
    }
    assert s[|w|] == ' ';
    SpanUnique(s, Whitespace, false, |w|);
    RunEndUnique(s, Whitespace, true, |w|, |w| + 1);
    assert s[..|w|] == w;
    assert s[|w| + 1..] == rest;
  }

  /** Round trip: splitting a space-joined word list on whitespace gives the list back. */
  lemma {:induction false} SplitJoinRoundTrip(parts: seq<string>)
    requires IsWordList(parts)
    ensures SplitWs(JoinWithSpace(parts)) == parts
    decreases |parts|
  {
    var w := parts[0];
    assert NoneIn(w, Whitespace);
    if |parts| == 1 {
      SpanUnique(w, Whitespace, false, |w|);
    } else {
      var tail := parts[1..];
      assert IsWordList(tail) by {
        forall i | 0 <= i < |tail| ensures tail[i] != [] && NoneIn(tail[i], Whitespace) {
          assert tail[i] == parts[i + 1];
        }
      }
      var rest := JoinWithSpace(tail);
      JoinEnds(tail);
      assert NoneIn(tail[0], Whitespace);
      assert rest[0] == tail[0][0];
      assert !InClass(rest[0], Whitespace);
      SplitWsStep(w, rest);
      SplitJoinRoundTrip(tail);
      assert JoinWithSpace(parts) == w + " " + rest;
    }
  }

  lemma AllInAppend(a: string, b: string, k: CharClass)
    ensures AllIn(a + b, k) <==> AllIn(a, k) && AllIn(b, k)
  {
    if AllIn(a + b, k) {
      forall i | 0 <= i < |b| ensures InClass(b[i], k) {
        assert (a + b)[|a| + i] == b[i];
      }
      forall i | 0 <= i < |a| ensures InClass(a[i], k) {
        assert (a + b)[i] == a[i];
      }
    }
  }

  /** A blank string (one `trim` empties) is one made only of whitespace. */
  lemma BlankIffAllWhitespace(s: string)
    ensures IsBlank(s) <==> AllIn(s, Whitespace)
  {
    var t := TrimStart(s);
    var k := |s| - |t|;
    TrimStartDropsWhitespace(s);
    TrimEndDropsWhitespace(t);
    if TrimEnd(t) == [] {
      assert t[0..] == t;
      assert s == s[..k] + t;
      AllInAppend(s[..k], t, Whitespace);
    } else {
      assert t[0] == s[k];
    }
  }
}
