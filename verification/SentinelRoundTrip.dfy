/** restore_segment after protect_segment (tools/translate_ts.py, 582-630): what comes
    back differs from the line in three ways only. */
module SentinelRoundTrip {
  import opened SentinelRules
  import opened SentinelPieces
  import opened SentinelRestore
  import opened SentinelProtect
  import opened SentinelGlyphs
  import opened SentinelTerms

  /** One substitution on the pieces. */
  function CutAt(terms: seq<string>, stage: nat, pieces: seq<Piece>): seq<Piece>
    requires 1 <= stage < 11 + |terms|
  {
    if stage == 1 then CutPossessives(pieces)
    else if stage < 8 then CutMarks(stage - 2, pieces)
    else if stage < 10 then CutLines(stage - 8, pieces)
    else if stage == 10 then CutAccels(pieces)
    else CutNames(stage - 11, terms[stage - 11], false, pieces)
  }

  /** The pieces after the first so many substitutions. */
  function PiecesTo(terms: seq<string>, stage: nat, line: string): seq<Piece>
    requires 1 <= stage <= 11 + |terms|
  {
    if stage == 1 then CutPlaceholders(line) else CutAt(terms, stage - 1, PiecesTo(terms, stage - 1, line))
  }

  lemma NextPieces(terms: seq<string>, stage: nat, line: string)
    requires 1 <= stage < 11 + |terms|
    ensures PiecesTo(terms, stage + 1, line) == CutAt(terms, stage, PiecesTo(terms, stage, line))
  {
  }

  /** One term more. */
  lemma NextTerm(terms: seq<string>, n: nat, line: string)
    requires n < |terms|
    ensures PiecesTo(terms, 12 + n, line) == CutNames(n, terms[n], false, PiecesTo(terms, 11 + n, line))
  {
    NextPieces(terms, 11 + n, line);
  }

  function Pieces(terms: seq<string>, line: string): seq<Piece> {
    PiecesTo(terms, 11 + |terms|, line)
  }

  /** What holds of the pieces at a stage. */
  ghost predicate Staged(terms: seq<string>, stage: nat, line: string, pieces: seq<Piece>) {
    && Source(pieces) == line
    && (stage == 1 ==> Fresh(pieces))
    && (2 <= stage < 11 ==> Basic(pieces))
    && (stage >= 11 ==> WellMade(terms, pieces) && Plain('&') !in pieces)
  }

  lemma ProtectOnce(terms: seq<string>, stage: nat, segment: string, sealed: string)
    requires stage < 11 + |terms| && ProtectTo(terms, stage, segment) == sealed
    ensures ProtectTo(terms, stage + 1, segment) == Sub(InRule(terms, stage), false, sealed)
  {
  }

  /** A cut that agrees with the substitution of its stage. */
  ghost predicate Cuts(terms: seq<string>, stage: nat, pieces: seq<Piece>, after: seq<Piece>)
    requires stage < 11 + |terms|
  {
    Source(after) == Source(pieces) && Sub(InRule(terms, stage), false, Sealed(pieces)) == Sealed(after)
  }

  lemma PossessiveCut(terms: seq<string>, pieces: seq<Piece>)
    requires Clean(Source(pieces)) && Fresh(pieces)
    ensures Basic(CutPossessives(pieces)) && Cuts(terms, 1, pieces, CutPossessives(pieces))
  {
    PossessivesSealed(false, pieces);
    PossessivesSource(pieces);
    PossessivesBasic(pieces);
  }

  lemma MarkCut(terms: seq<string>, stage: nat, pieces: seq<Piece>)
    requires 2 <= stage < 8 && Basic(pieces)
    ensures Basic(CutMarks(stage - 2, pieces)) && Cuts(terms, stage, pieces, CutMarks(stage - 2, pieces))
  {
    MarksSealed(stage - 2, false, pieces);
    MarksSource(stage - 2, pieces);
  }

  lemma LineCut(terms: seq<string>, stage: nat, pieces: seq<Piece>)
    requires 8 <= stage < 10 && Basic(pieces)
    ensures Basic(CutLines(stage - 8, pieces)) && Cuts(terms, stage, pieces, CutLines(stage - 8, pieces))
  {
    var line := stage - 8;
    assert InRule(terms, stage) == RunIn(line);
    LinesSealed(line, false, pieces);
    LinesSource(line, pieces);
  }

  lemma AccelCut(terms: seq<string>, pieces: seq<Piece>)
    requires Basic(pieces)
    ensures var after := CutAt(terms, 10, pieces);
            WellMade(terms, after) && Plain('&') !in after && Cuts(terms, 10, pieces, after)
  {
    AccelsSealed(false, pieces);
    AccelsSource(pieces);
    AccelsNameless(pieces);
    NamelessWellMade(terms, CutAccels(pieces));
  }

  lemma NameCut(terms: seq<string>, index: nat, pieces: seq<Piece>)
    requires TableOk(terms) && index < |terms| && WellMade(terms, pieces) && Plain('&') !in pieces
    ensures var after := CutAt(terms, 11 + index, pieces);
            WellMade(terms, after) && Plain('&') !in after && Cuts(terms, 11 + index, pieces, after)
  {
    var term := terms[index];
    NamesSealed(terms, index, term, false, pieces);
    NamesSource(index, term, false, pieces);
    NamesWellMade(terms, index, false, pieces);
  }

  /** One substitution cuts the pieces of its kind. */
  lemma CutStep(terms: seq<string>, stage: nat, line: string, pieces: seq<Piece>)
    requires TableOk(terms) && Clean(line) && 1 <= stage < 11 + |terms|
    requires Staged(terms, stage, line, pieces)
    ensures Staged(terms, stage + 1, line, CutAt(terms, stage, pieces))
    ensures Cuts(terms, stage, pieces, CutAt(terms, stage, pieces))
  {
    if stage == 1 {
      PossessiveCut(terms, pieces);
    } else if stage < 8 {
      MarkCut(terms, stage, pieces);
    } else if stage < 10 {
      LineCut(terms, stage, pieces);
    } else if stage == 10 {
      AccelCut(terms, pieces);
    } else {
      NameCut(terms, stage - 11, pieces);
    }
  }

  /** The pieces of a stage hold the line, and the protected text is their sealed form. */
  ghost predicate Agrees(terms: seq<string>, stage: nat, line: string)
    requires 1 <= stage <= 11 + |terms|
  {
    && Staged(terms, stage, line, PiecesTo(terms, stage, line))
    && ProtectTo(terms, stage, line) == Sealed(PiecesTo(terms, stage, line))
  }

  lemma AgreesFirst(terms: seq<string>, line: string)
    ensures Agrees(terms, 1, line)
  {
    PlaceholdersSealed(false, line);
    PlaceholdersSource(line);
    PlaceholdersFresh(line);
    ProtectOnce(terms, 0, line, line);
  }

  lemma AgreesNext(terms: seq<string>, stage: nat, line: string)
    requires TableOk(terms) && Clean(line) && 1 <= stage < 11 + |terms| && Agrees(terms, stage, line)
    ensures Agrees(terms, stage + 1, line)
  {
    var pieces := PiecesTo(terms, stage, line);
    CutStep(terms, stage, line, pieces);
    ProtectOnce(terms, stage, line, Sealed(pieces));
  }

  lemma {:induction false} CutSteps(terms: seq<string>, stage: nat, line: string)
    requires TableOk(terms) && Clean(line) && 1 <= stage <= 11 + |terms|
    ensures Agrees(terms, stage, line)
    decreases stage
  {
    if stage == 1 {
      AgreesFirst(terms, line);
    } else {
      CutSteps(terms, stage - 1, line);
      AgreesNext(terms, stage - 1, line);
    }
  }

  /** For every line without sentinel-shaped text: the pieces hold the whole line,
      protecting seals them, and restoring gives their canonical forms. */
  lemma RoundTrip(terms: seq<string>, line: string)
    requires TableOk(terms) && Clean(line)
    ensures var pieces := Pieces(terms, line);
            && WellMade(terms, pieces) && Source(pieces) == line
            && ProtectSegment(terms, line) == Sealed(pieces)
            && RestoreSegment(terms, ProtectSegment(terms, line)) == Canonical(terms, pieces)
  {
    CutSteps(terms, 11 + |terms|, line);
    SealedRestored(terms, Pieces(terms, line));
  }

  // ----- What can differ ------------------------------------------------------

  /** A piece that comes back as it was. */
  predicate Unchanged(terms: seq<string>, piece: Piece) {
    && (piece.Placeholder? ==> piece.possessive == "")
    && (piece.Accel? ==> piece.spaces == 0)
    && (piece.Name? ==> piece.index < |terms| && piece.spelled == terms[piece.index])
  }

  lemma PieceUnchanged(terms: seq<string>, piece: Piece)
    requires PieceOk(terms, piece)
    ensures |CanonicalOf(terms, piece)| <= |SourceOf(piece)|
    ensures CanonicalOf(terms, piece) == SourceOf(piece) <==> Unchanged(terms, piece)
  {
    match piece
    case Placeholder(body, possessive) =>
      assert |SourceOf(piece)| == |CanonicalOf(terms, piece)| + |possessive|;
    case Accel(spaces) =>
      assert |SourceOf(piece)| == 1 + spaces;
    case _ =>
  }

  lemma {:induction false} CanonicalLength(terms: seq<string>, pieces: seq<Piece>)
    requires WellMade(terms, pieces)
    ensures |Canonical(terms, pieces)| <= |Source(pieces)|
  {
    if pieces != [] {
      PieceUnchanged(terms, pieces[0]);
      CanonicalLength(terms, pieces[1..]);
    }
  }

  lemma SplitEqual(a: string, b: string, c: string, d: string)
    requires a + b == c + d && |a| <= |c| && |b| <= |d|
    ensures a == c && b == d
  {
    assert |a| == |c|;
    assert (a + b)[..|a|] == a && (c + d)[..|c|] == c;
    assert (a + b)[|a|..] == b && (c + d)[|c|..] == d;
  }

  lemma {:induction false} SameIffUnchanged(terms: seq<string>, pieces: seq<Piece>)
    requires WellMade(terms, pieces)
    ensures Canonical(terms, pieces) == Source(pieces) <==> forall piece | piece in pieces :: Unchanged(terms, piece)
  {
    if pieces != [] {
      var piece, rest := pieces[0], pieces[1..];
      PieceUnchanged(terms, piece);
      CanonicalLength(terms, rest);
      SameIffUnchanged(terms, rest);
      assert forall p :: p in pieces <==> p == piece || p in rest;
      if Canonical(terms, pieces) == Source(pieces) {
        SplitEqual(CanonicalOf(terms, piece), Canonical(terms, rest), SourceOf(piece), Source(rest));
      }
    }
  }

  /** Restoring is the inverse of protecting exactly for the lines whose protected terms
      are in canonical case, with no possessive cut off with a placeholder and no space
      behind a mnemonic. */
  lemma InverseIff(terms: seq<string>, line: string)
    requires TableOk(terms) && Clean(line)
    ensures RestoreSegment(terms, ProtectSegment(terms, line)) == line
            <==> forall piece | piece in Pieces(terms, line) :: Unchanged(terms, piece)
  {
    RoundTrip(terms, line);
    SameIffUnchanged(terms, Pieces(terms, line));
  }

  function TrimmedOf(piece: Piece): string {
    match piece
    case Placeholder(body, _) => "%" + body
    case Accel(_) => "&"
    case _ => SourceOf(piece)
  }

  /** The line without the possessives cut off with placeholders and the spaces behind
      mnemonics. */
  function Trimmed(pieces: seq<Piece>): string {
    if pieces == [] then "" else TrimmedOf(pieces[0]) + Trimmed(pieces[1..])
  }

  lemma {:induction false} UpperAllPlus(a: string, b: string)
    ensures UpperAll(a + b) == UpperAll(a) + UpperAll(b)
  {
    if a == "" {
      assert a + b == b;
    } else {
      assert (a + b)[1..] == a[1..] + b;
      UpperAllPlus(a[1..], b);
    }
  }

  lemma {:induction false} SpelledUpper(term: string, text: string)
    requires SpelledAt(term, text) && |term| == |text|
    ensures UpperAll(term) == UpperAll(text)
  {
    if term != "" {
      SpelledUpper(term[1..], text[1..]);
    }
  }

  lemma {:induction false} TrimmedUpper(terms: seq<string>, pieces: seq<Piece>)
    requires WellMade(terms, pieces)
    ensures UpperAll(Canonical(terms, pieces)) == UpperAll(Trimmed(pieces))
  {
    if pieces != [] {
      var piece := pieces[0];
      TrimmedUpper(terms, pieces[1..]);
      UpperAllPlus(CanonicalOf(terms, piece), Canonical(terms, pieces[1..]));
      UpperAllPlus(TrimmedOf(piece), Trimmed(pieces[1..]));
      if piece.Name? {
        SpelledUpper(terms[piece.index], piece.spelled);
      }
    }
  }

  /** Up to the case of ASCII letters, what comes back is the line without the dropped
      possessives and spaces: glyphs, separator lines and all other text survive. */
  lemma RestoredUpToCase(terms: seq<string>, line: string)
    requires TableOk(terms) && Clean(line)
    ensures UpperAll(RestoreSegment(terms, ProtectSegment(terms, line))) == UpperAll(Trimmed(Pieces(terms, line)))
    ensures Source(Pieces(terms, line)) == line
  {
    RoundTrip(terms, line);
    TrimmedUpper(terms, Pieces(terms, line));
  }
}
