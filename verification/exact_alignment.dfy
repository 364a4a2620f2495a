/** The exact-alignment theorem for the backend: on clean words the cursor
    walk over the regex segments reproduces the intended sentences.

    The proof goes through the pieces the walk reads off each segment, its
    trimmed text and its token count: the walk over the segments is the walk
    over their pieces, the pieces of the group segments are the groups' texts
    and sizes, and the walk over those is the intended sentence list. */
module ExactAlignment {
  import opened Wrappers
  import opened TimeOffsets
  import opened JsText
  import opened Segmenter
  import opened Speech
  import opened BackendSentences
  import opened Alignment

  /** A token count: `split` never yields fewer than one piece. */
  type Positive = n: nat | n >= 1 witness 1

  /** What the walk reads off one segment. */
  datatype Piece = Piece(text: string, count: Positive)

  function PieceOf(seg: string): Piece {
    Piece(Trim(seg), TokenCount(seg))
  }

  function Pieces(segs: seq<string>): (ps: seq<Piece>)
    ensures |ps| == |segs|
  {
    if segs == [] then [] else [PieceOf(segs[0])] + Pieces(segs[1..])
  }

  /** The sentence a piece yields when the cursor is on word `cursor`. */
  function PieceSentence(words: seq<WordInfo>, p: Piece, cursor: nat): Sentence
    requires cursor < |words|
  {
    var e := LastWordIndex(cursor, p.count, |words|);
    Sentence(p.text, Seconds(words[cursor].startTime), Seconds(words[e].endTime))
  }

  /** A segment's sentence depends on the segment only through its piece. */
  lemma SentenceOfPiece(words: seq<WordInfo>, seg: string, cursor: nat)
    requires cursor < |words|
    ensures SentenceAt(words, seg, cursor) == PieceSentence(words, PieceOf(seg), cursor)
  {
  }

  /** The cursor walk of `Align`, over pieces instead of segments. */
  function Walk(words: seq<WordInfo>, ps: seq<Piece>, cursor: nat): seq<Sentence>
    decreases |ps|
  {
    if ps == [] then []
    else
      var rest := Walk(words, ps[1..], cursor + ps[0].count);
      if cursor < |words| then [PieceSentence(words, ps[0], cursor)] + rest else rest
  }

  /** The pieces of a list with a first segment: that segment's piece, then the rest's. */
  lemma PiecesCons(a: string, rest: seq<string>)
    ensures Pieces([a] + rest) == [PieceOf(a)] + Pieces(rest)
  {
    assert ([a] + rest)[1..] == rest;
  }

  /** One step of the cursor walk over segments. */
  lemma AlignStep(words: seq<WordInfo>, a: string, rest: seq<string>, c: nat)
    ensures Align(words, [a] + rest, c)
            == (if c < |words| then [SentenceAt(words, a, c)] else []) + Align(words, rest, c + TokenCount(a))
  {
    assert ([a] + rest)[1..] == rest;
  }

  /** One step of the cursor walk over pieces. */
  lemma WalkStep(words: seq<WordInfo>, p: Piece, ps: seq<Piece>, c: nat)
    ensures Walk(words, [p] + ps, c)
            == (if c < |words| then [PieceSentence(words, p, c)] else []) + Walk(words, ps, c + p.count)
  {
    assert ([p] + ps)[1..] == ps;
  }

  /** The walk over the segments is the walk over their pieces. */
  lemma {:induction false} AlignIsWalk(words: seq<WordInfo>, segs: seq<string>, c: nat)
    ensures Align(words, segs, c) == Walk(words, Pieces(segs), c)
    decreases |segs|
  {
    if segs != [] {
      var a, rest := segs[0], segs[1..];
      assert segs == [a] + rest;
      AlignStep(words, a, rest, c);
      PiecesCons(a, rest);
      WalkStep(words, PieceOf(a), Pieces(rest), c);
      AlignIsWalk(words, rest, c + TokenCount(a));
      if c < |words| {
        SentenceOfPiece(words, a, c);
      }
    }
  }

  /** The pieces of the groups from word `c` on: each group's text and size. */
  function GroupPieces(words: seq<WordInfo>, c: nat): seq<Piece>
    requires c <= |words|
    decreases |words| - c
  {
    if c == |words| then []
    else
      var e := GroupEnd(words, c);
      [Piece(TextBetween(words, c, e), e - c)] + GroupPieces(words, e)
  }

  /** The segment of a clean group yields the group's text and size. */
  lemma GroupPiece(words: seq<WordInfo>, c: nat, spaced: bool)
    requires c < |words| && AllClean(words)
    ensures var e := GroupEnd(words, c);
            PieceOf(GroupSegment(words, c, spaced)) == Piece(TextBetween(words, c, e), e - c)
  {
    var e := GroupEnd(words, c);
    BetweenShape(words, c, e);
    LeadCounts(TextBetween(words, c, e), spaced);
  }

  /** The pieces of the group segments are the group pieces. */
  lemma {:induction false} PiecesOfGroups(words: seq<WordInfo>, c: nat, spaced: bool)
    requires c <= |words| && AllClean(words)
    ensures Pieces(GroupSegments(words, c, spaced)) == GroupPieces(words, c)
    decreases |words| - c
  {
    if c < |words| {
      var e := GroupEnd(words, c);
      var a, rest := GroupSegment(words, c, spaced), GroupSegments(words, e, true);
      PiecesOfGroups(words, e, true);
      GroupPiece(words, c, spaced);
      PiecesStep(a, rest, Piece(TextBetween(words, c, e), e - c), GroupPieces(words, e));
      GroupSegmentsCons(words, c, spaced);
      GroupPiecesCons(words, c);
    }
  }

  lemma GroupSegmentsCons(words: seq<WordInfo>, c: nat, spaced: bool)
    requires c < |words|
    ensures GroupSegments(words, c, spaced)
            == [GroupSegment(words, c, spaced)] + GroupSegments(words, GroupEnd(words, c), true)
  {
  }

  lemma GroupPiecesCons(words: seq<WordInfo>, c: nat)
    requires c < |words|
    ensures var e := GroupEnd(words, c);
            GroupPieces(words, c) == [Piece(TextBetween(words, c, e), e - c)] + GroupPieces(words, e)
  {
  }

  /** The pieces of a first segment and the rest, from what each part yields. */
  lemma PiecesStep(a: string, rest: seq<string>, p: Piece, ps: seq<Piece>)
    requires PieceOf(a) == p && Pieces(rest) == ps
    ensures Pieces([a] + rest) == [p] + ps
  {
    PiecesCons(a, rest);
  }

  /** A group's piece yields the group's sentence: its count lands the last
      word exactly on the group's last word. */
  lemma GroupPieceSentence(words: seq<WordInfo>, c: nat)
    requires c < |words|
    ensures var e := GroupEnd(words, c);
            PieceSentence(words, Piece(TextBetween(words, c, e), e - c), c) == GroupSentence(words, c)
  {
  }

  /** Walking the group pieces from word `c` yields the intended sentences
      from `c` on: every count lands the cursor on the next group's first
      word, and no clamp ever fires. */
  lemma {:induction false} WalkGroups(words: seq<WordInfo>, c: nat)
    requires c <= |words|
    ensures Walk(words, GroupPieces(words, c), c) == IntendedFrom(words, c)
    decreases |words| - c
  {
    if c < |words| {
      var e := GroupEnd(words, c);
      var p := Piece(TextBetween(words, c, e), e - c);
      WalkStep(words, p, GroupPieces(words, e), c);
      WalkGroups(words, e);
      GroupPieceSentence(words, c);
    }
  }

  /** Exact alignment: for a non-empty list of clean words the backend
      `extractSentences` succeeds and returns exactly the intended sentences. */
  lemma CleanTokensAlignExactly(tr: Option<Response>)
    requires CollectWords(tr) != [] && AllClean(CollectWords(tr))
    ensures ExtractSentences(tr) == Success(Intended(CollectWords(tr)))
  {
    var words := CollectWords(tr);
    var text := Transcript(words);
    assert words[0..|words|] == words;
    TextBetweenIsTranscript(words, 0, |words|);
    SegmentsOfGroups(words, 0, false);
    CleanIsWordList(words);
    JoinEnds(Tokens(words));
    assert CleanAt(words, 0);
    assert text[0] == words[0].word[0];
    assert !AllIn(text, Terminator);
    var segs := GroupSegments(words, 0, false);
    AlignIsWalk(words, segs, 0);
    PiecesOfGroups(words, 0, false);
    WalkGroups(words, 0);
  }
}
