/** What the round trip of protect_segment and restore_segment (tools/translate_ts.py,
    582-630) takes away, told on the line itself. */
module SentinelDropped {
  import opened SentinelRules
  import opened SentinelPieces
  import opened SentinelRestore
  import opened SentinelProtect
  import opened SentinelGlyphs
  import opened SentinelTerms
  import opened SentinelRoundTrip

  // ----- On the line ----------------------------------------------------------

  /** A possessive that is dropped behind a placeholder: a quote and an s, and behind them
      the end of the line, or something that is neither a word character nor the next
      placeholder, whose token would be a word. */
  predicate DropsPossessive(text: string) {
    && |text| >= 2 && (text[0] == '\'' || text[0] == '\U{2019}') && text[1] == 's'
    && (|text| == 2 || (!IsWord(text[2]) && PlaceholderLength(text[2..]) == 0))
  }

  function WithoutPossessives(line: string): string
    decreases |line|
  {
    if line == "" then ""
    else
      var n := PlaceholderLength(line);
      if 0 < n <= |line| then
        line[..n] + WithoutPossessives(if DropsPossessive(line[n..]) then line[n..][2..] else line[n..])
      else [line[0]] + WithoutPossessives(line[1..])
  }

  /** The text without the spaces behind its mnemonics. */
  function WithoutSpaces(text: string): string
    decreases |text|
  {
    if text == "" then ""
    else if text[0] == '&' then "&" + WithoutSpaces(text[1..][CharRun(' ', text[1..])..])
    else [text[0]] + WithoutSpaces(text[1..])
  }

  /** What is left of a line. */
  function Left(line: string): string { WithoutSpaces(WithoutPossessives(line)) }

  // ----- Placeholders and possessives -----------------------------------------

  lemma PlainFirst(text: string)
    requires text != "" && PlaceholderLength(text) == 0
    ensures CutPlaceholders(text) == [Plain(text[0])] + CutPlaceholders(text[1..])
  {
  }

  lemma SealedStarts(text: string)
    ensures var sealed := Sealed(CutPlaceholders(text));
            if text == "" then sealed == ""
            else sealed != "" && (IsWord(sealed[0]) <==> IsWord(text[0]) || PlaceholderLength(text) > 0)
  {
    if text != "" && PlaceholderLength(text) > 0 {
      PlaceholderBody(text);
      var piece := Placeholder(text[1..PlaceholderLength(text)], "");
      assert CutPlaceholders(text)[0] == piece;
      assert Core(piece)[0] == 'P';
    } else if text != "" {
      PlainFirst(text);
    }
  }

  lemma TwoPlain(text: string)
    requires |text| >= 2 && text[0] != '%' && text[1] != '%'
    ensures CutPlaceholders(text) == [Plain(text[0]), Plain(text[1])] + CutPlaceholders(text[2..])
  {
    var rest := text[1..];
    assert rest[1..] == text[2..] && rest[0] == text[1];
    NoPlaceholder(text);
    NoPlaceholder(rest);
    PlainFirst(text);
    PlainFirst(rest);
    TwoInFront(Plain(text[0]), Plain(text[1]), CutPlaceholders(text[2..]));
  }

  lemma NoPlaceholder(text: string)
    requires text != "" && text[0] != '%'
    ensures PlaceholderLength(text) == 0
  {
  }

  lemma TwoInFront(a: Piece, b: Piece, pieces: seq<Piece>)
    ensures [a] + ([b] + pieces) == [a, b] + pieces
  {
  }

  lemma PossessiveOfTwo(a: char, b: char, tail: seq<Piece>)
    ensures PossessivePieces([Plain(a), Plain(b)] + tail)
            <==> (a == '\'' || a == '\U{2019}') && b == 's' && (Sealed(tail) == "" || !IsWord(Sealed(tail)[0]))
  {
    assert ([Plain(a), Plain(b)] + tail)[2..] == tail;
  }

  /** The first piece of a text is its first character, or a placeholder. */
  lemma FirstPiece(text: string)
    ensures text == "" ==> CutPlaceholders(text) == []
    ensures text != "" ==> CutPlaceholders(text) != []
    ensures text != "" && CutPlaceholders(text)[0].Plain? ==> CutPlaceholders(text)[0].c == text[0]
  {
  }

  lemma NoPossessiveOnLine(text: string)
    requires |text| < 2 || text[0] == '%' || text[1] == '%'
    ensures !PossessivePieces(CutPlaceholders(text))
  {
    FirstPiece(text);
    if text != "" && text[0] != '%' {
      PlainFirst(text);
      FirstPiece(text[1..]);
    }
  }

  lemma PossessiveOnLine(text: string)
    ensures PossessivePieces(CutPlaceholders(text)) <==> DropsPossessive(text)
    ensures DropsPossessive(text) ==>
              CutPlaceholders(text) == [Plain(text[0]), Plain('s')] + CutPlaceholders(text[2..])
  {
    if |text| < 2 || text[0] == '%' || text[1] == '%' {
      NoPossessiveOnLine(text);
    } else {
      TwoPlain(text);
      PossessiveOfTwo(text[0], text[1], CutPlaceholders(text[2..]));
      SealedStarts(text[2..]);
    }
  }

  lemma TrimmedCons(piece: Piece, rest: seq<Piece>)
    ensures Trimmed([piece] + rest) == TrimmedOf(piece) + Trimmed(rest)
  {
    assert ([piece] + rest)[1..] == rest;
  }

  lemma {:induction false} PossessivesTrimmed(line: string)
    ensures Trimmed(CutPossessives(CutPlaceholders(line))) == WithoutPossessives(line)
    decreases |line|
  {
    if line != "" {
      var n := PlaceholderLength(line);
      if n > 0 {
        PlaceholderBody(line);
        PossessivesBehind(line, n);
      } else {
        PossessivesTrimmed(line[1..]);
        PlainFirst(line);
        TrimmedCons(Plain(line[0]), CutPossessives(CutPlaceholders(line[1..])));
      }
    }
  }

  lemma {:induction false} PossessivesBehind(line: string, n: nat)
    requires n == PlaceholderLength(line) && 2 <= n <= |line| && line[0] == '%'
    ensures Trimmed(CutPossessives(CutPlaceholders(line))) == WithoutPossessives(line)
    decreases |line|, 0
  {
    var piece, text := Placeholder(line[1..n], ""), line[n..];
    var rest := CutPlaceholders(text);
    assert CutPlaceholders(line) == [piece] + rest;
    PossessiveOnLine(text);
    PlaceholdersFresh(text);
    assert "%" + piece.body == line[..n];
    if DropsPossessive(text) {
      var tail := CutPlaceholders(text[2..]);
      var dropped := Placeholder(piece.body, [text[0], 's']);
      PossessivesTrimmed(text[2..]);
      CutAtPossessive(piece, rest);
      assert rest[2..] == tail;
      TrimmedCons(dropped, CutPossessives(tail));
    } else {
      PossessivesTrimmed(text);
      NoCutAt(piece, rest);
      TrimmedCons(piece, CutPossessives(rest));
    }
  }

  // ----- Glyphs and separator lines -------------------------------------------

  lemma {:induction false} MarksTrimmed(glyph: nat, pieces: seq<Piece>)
    requires glyph < 6
    ensures Trimmed(CutMarks(glyph, pieces)) == Trimmed(pieces)
  {
    if pieces != [] {
      MarksTrimmed(glyph, pieces[1..]);
    }
  }

  lemma {:induction false} LeadingTrimmed(c: char, pieces: seq<Piece>)
    ensures Trimmed(pieces) == Repeat(c, Leading(c, pieces)) + Trimmed(pieces[Leading(c, pieces)..])
  {
    if pieces != [] && pieces[0] == Plain(c) {
      var n := Leading(c, pieces);
      var behind := pieces[n..];
      LeadingTrimmed(c, pieces[1..]);
      LeadingSplit(c, pieces);
      assert Trimmed(pieces) == [c] + Trimmed(pieces[1..]);
      RepeatFront(c, n, Trimmed(behind));
    } else {
      assert pieces[0..] == pieces;
    }
  }

  lemma {:induction false} LinesTrimmed(line: nat, pieces: seq<Piece>)
    requires line < 2
    ensures Trimmed(CutLines(line, pieces)) == Trimmed(pieces)
    decreases |pieces|
  {
    if pieces != [] {
      var n := Leading(LineChar(line), pieces);
      if n >= 2 {
        LeadingTrimmed(LineChar(line), pieces);
        LinesTrimmed(line, pieces[n..]);
        TrimmedCons(Line(line, n), CutLines(line, pieces[n..]));
      } else {
        LinesTrimmed(line, pieces[1..]);
        TrimmedCons(pieces[0], CutLines(line, pieces[1..]));
      }
    }
  }

  // ----- Mnemonics ------------------------------------------------------------

  lemma {:induction false} NoMnemonic(front: string, rest: string)
    requires '&' !in front
    ensures WithoutSpaces(front + rest) == front + WithoutSpaces(rest)
  {
    if front == "" {
      assert front + rest == rest;
    } else {
      assert (front + rest)[1..] == front[1..] + rest;
      NoMnemonic(front[1..], rest);
    }
  }

  lemma MnemonicFirst(n: nat, rest: string)
    requires rest == "" || rest[0] != ' '
    ensures WithoutSpaces("&" + (Repeat(' ', n) + rest)) == "&" + WithoutSpaces(rest)
  {
    var spaces := Repeat(' ', n);
    var text := "&" + (spaces + rest);
    assert text[1..] == spaces + rest;
    RepeatRun(' ', n, rest);
    assert text[1..][n..] == rest;
  }

  lemma TrimmedFront(piece: Piece)
    requires PieceOk([], piece) && !piece.Accel? && !piece.Name?
    ensures TrimmedOf(piece) != "" && (piece != Plain(' ') ==> TrimmedOf(piece)[0] != ' ')
    ensures piece != Plain('&') ==> '&' !in TrimmedOf(piece)
  {
    match piece
    case Line(line, count) => RepeatChars(LineChar(line), count);
    case Placeholder(body, _) => if body != "n" { DigitChars(body); }
    case _ =>
  }

  lemma {:induction false} AccelsTrimmed(pieces: seq<Piece>)
    requires Basic(pieces)
    ensures Trimmed(CutAccels(pieces)) == WithoutSpaces(Trimmed(pieces))
    decreases |pieces|
  {
    if pieces != [] {
      var piece, rest := pieces[0], pieces[1..];
      if piece == Plain('&') {
        var n := Leading(' ', rest);
        LeadingParts(' ', rest);
        LeadingTrimmed(' ', rest);
        AccelsTrimmed(rest[n..]);
        TrimmedCons(Accel(n), CutAccels(rest[n..]));
        if n < |rest| { TrimmedFront(rest[n]); }
        MnemonicFirst(n, Trimmed(rest[n..]));
      } else {
        AccelsTrimmed(rest);
        TrimmedCons(piece, CutAccels(rest));
        TrimmedFront(piece);
        NoMnemonic(TrimmedOf(piece), Trimmed(rest));
      }
    }
  }

  // ----- Terms ----------------------------------------------------------------

  lemma {:induction false} TrimmedPlus(a: seq<Piece>, b: seq<Piece>)
    ensures Trimmed(a + b) == Trimmed(a) + Trimmed(b)
  {
    if a == [] {
      assert a + b == b;
    } else {
      assert (a + b)[1..] == a[1..] + b;
      TrimmedPlus(a[1..], b);
      Associative(TrimmedOf(a[0]), Trimmed(a[1..]), Trimmed(b));
    }
  }

  lemma {:induction false} SpellingTrimmed(term: string, pieces: seq<Piece>)
    requires SpelledPieces(term, pieces) && |pieces| == |term|
    ensures Trimmed(pieces) == Source(pieces)
  {
    if term != "" {
      SpellingTrimmed(term[1..], pieces[1..]);
    }
  }

  lemma {:induction false} NamesTrimmed(index: nat, term: string, behind: bool, pieces: seq<Piece>)
    ensures Trimmed(CutNames(index, term, behind, pieces)) == Trimmed(pieces)
    decreases |pieces|
  {
    if pieces != [] {
      if NameAt(term, behind, pieces) {
        var spelled, rest := Source(pieces[..|term|]), pieces[|term|..];
        SpelledSplit(term, pieces);
        NamesTrimmed(index, term, Behind(behind, spelled), rest);
        NameTrimmed(index, term, pieces, CutNames(index, term, Behind(behind, spelled), rest));
      } else {
        var after := Behind(behind, Core(pieces[0]) + Trail(pieces[0]));
        NamesTrimmed(index, term, after, pieces[1..]);
        TrimmedCons(pieces[0], CutNames(index, term, after, pieces[1..]));
      }
    }
  }

  /** A name in front stands for the characters that spell it. */
  lemma NameTrimmed(index: nat, term: string, pieces: seq<Piece>, cut: seq<Piece>)
    requires SpelledPieces(term, pieces) && |term| <= |pieces| && Trimmed(cut) == Trimmed(pieces[|term|..])
    ensures Trimmed([Name(index, Source(pieces[..|term|]))] + cut) == Trimmed(pieces)
  {
    var front, rest := pieces[..|term|], pieces[|term|..];
    SpelledFront(term, pieces);
    SpellingTrimmed(term, front);
    assert pieces == front + rest;
    TrimmedPlus(front, rest);
    TrimmedCons(Name(index, Source(front)), cut);
  }

  // ----- All stages -----------------------------------------------------------

  lemma MarkStage(terms: seq<string>, stage: nat, pieces: seq<Piece>)
    requires 2 <= stage < 8
    ensures Trimmed(CutAt(terms, stage, pieces)) == Trimmed(pieces)
  {
    MarksTrimmed(stage - 2, pieces);
  }

  lemma LineStage(terms: seq<string>, stage: nat, pieces: seq<Piece>)
    requires 8 <= stage < 10
    ensures Trimmed(CutAt(terms, stage, pieces)) == Trimmed(pieces)
  {
    LinesTrimmed(stage - 8, pieces);
  }

  lemma NameStage(terms: seq<string>, stage: nat, pieces: seq<Piece>)
    requires 11 <= stage < 11 + |terms|
    ensures Trimmed(CutAt(terms, stage, pieces)) == Trimmed(pieces)
  {
    var index := stage - 11;
    var term := terms[index];
    assert CutAt(terms, stage, pieces) == CutNames(index, term, false, pieces);
    NamesTrimmed(index, term, false, pieces);
  }

  lemma CutTrimmed(terms: seq<string>, stage: nat, pieces: seq<Piece>)
    requires 2 <= stage < 11 + |terms| && stage != 10
    ensures Trimmed(CutAt(terms, stage, pieces)) == Trimmed(pieces)
  {
    if stage < 8 {
      MarkStage(terms, stage, pieces);
    } else if stage < 10 {
      LineStage(terms, stage, pieces);
    } else {
      NameStage(terms, stage, pieces);
    }
  }

  /** What the pieces of a stage show of the line. */
  ghost predicate Shows(terms: seq<string>, stage: nat, line: string)
    requires 1 <= stage <= 11 + |terms|
  {
    var text := Trimmed(PiecesTo(terms, stage, line));
    if stage == 1 then true
    else if stage <= 10 then text == WithoutPossessives(line)
    else text == Left(line)
  }

  lemma ShowsNext(terms: seq<string>, stage: nat, line: string, pieces: seq<Piece>)
    requires 2 <= stage < 11 + |terms| && pieces == PiecesTo(terms, stage, line)
    requires stage == 10 ==> Basic(pieces)
    requires Shows(terms, stage, line)
    ensures Shows(terms, stage + 1, line)
  {
    NextPieces(terms, stage, line);
    if stage == 10 {
      AccelsTrimmed(pieces);
    } else {
      CutTrimmed(terms, stage, pieces);
    }
  }

  lemma {:induction false} AllShow(terms: seq<string>, stage: nat, line: string)
    requires TableOk(terms) && Clean(line) && 2 <= stage <= 11 + |terms|
    ensures Shows(terms, stage, line)
    decreases stage
  {
    if stage == 2 {
      PossessivesTrimmed(line);
    } else {
      var before := stage - 1;
      AllShow(terms, before, line);
      StageBasic(terms, before, line);
      ShowsNext(terms, before, line, PiecesTo(terms, before, line));
    }
  }

  lemma StageBasic(terms: seq<string>, stage: nat, line: string)
    requires TableOk(terms) && Clean(line) && 2 <= stage <= 11 + |terms|
    ensures stage < 11 ==> Basic(PiecesTo(terms, stage, line))
  {
    CutSteps(terms, stage, line);
  }

  /** Up to the case of ASCII letters, what comes back from the translation chain is the
      line without the possessives right behind its placeholders, unless a word character
      or the next placeholder follows them, and without the spaces behind its mnemonics.
      Glyphs, separator lines and all other text survive. */
  lemma RestoredOnLine(terms: seq<string>, line: string)
    requires TableOk(terms) && Clean(line)
    ensures UpperAll(RestoreSegment(terms, ProtectSegment(terms, line))) == UpperAll(Left(line))
  {
    LeftIsTrimmed(terms, line);
    RestoredUpToCase(terms, line);
  }

  // ----- The inverse ----------------------------------------------------------

  /** Every term of the line is spelled as the table spells it. */
  ghost predicate CanonicalTerms(terms: seq<string>, line: string) {
    AllCanonical(terms, Pieces(terms, line))
  }

  predicate IsCanonical(terms: seq<string>, piece: Piece) {
    piece.Name? ==> piece.index < |terms| && piece.spelled == terms[piece.index]
  }

  ghost predicate AllCanonical(terms: seq<string>, pieces: seq<Piece>) {
    forall piece | piece in pieces :: IsCanonical(terms, piece)
  }

  predicate NothingDropped(piece: Piece) {
    (piece.Placeholder? ==> piece.possessive == "") && (piece.Accel? ==> piece.spaces == 0)
  }

  lemma PieceTrimmed(piece: Piece)
    ensures |TrimmedOf(piece)| <= |SourceOf(piece)|
    ensures TrimmedOf(piece) == SourceOf(piece) <==> NothingDropped(piece)
  {
    match piece
    case Placeholder(body, possessive) =>
      assert |SourceOf(piece)| == |TrimmedOf(piece)| + |possessive|;
    case Accel(spaces) =>
      assert |SourceOf(piece)| == 1 + spaces;
    case _ =>
  }

  lemma {:induction false} TrimmedSameIff(pieces: seq<Piece>)
    ensures |Trimmed(pieces)| <= |Source(pieces)|
    ensures Trimmed(pieces) == Source(pieces) <==> forall piece | piece in pieces :: NothingDropped(piece)
  {
    if pieces != [] {
      var piece, rest := pieces[0], pieces[1..];
      PieceTrimmed(piece);
      TrimmedSameIff(rest);
      assert forall p :: p in pieces <==> p == piece || p in rest;
      if Trimmed(pieces) == Source(pieces) {
        SplitEqual(TrimmedOf(piece), Trimmed(rest), SourceOf(piece), Source(rest));
      }
    }
  }

  lemma UnchangedIff(terms: seq<string>, piece: Piece)
    ensures Unchanged(terms, piece) <==> NothingDropped(piece) && IsCanonical(terms, piece)
  {
  }

  /** Restoring is the inverse of protecting for a line exactly when nothing of it is
      dropped, and its terms are spelled as the table spells them. */
  lemma InverseOnLineIff(terms: seq<string>, line: string)
    requires TableOk(terms) && Clean(line)
    ensures RestoreSegment(terms, ProtectSegment(terms, line)) == line
            <==> Left(line) == line && CanonicalTerms(terms, line)
  {
    var pieces := Pieces(terms, line);
    InverseIff(terms, line);
    LeftIsTrimmed(terms, line);
    AllUnchangedIff(terms, pieces);
  }

  lemma LeftIsTrimmed(terms: seq<string>, line: string)
    requires TableOk(terms) && Clean(line)
    ensures Left(line) == Trimmed(Pieces(terms, line)) && Source(Pieces(terms, line)) == line
  {
    AllShow(terms, 11 + |terms|, line);
    RestoredUpToCase(terms, line);
  }

  lemma AllUnchangedIff(terms: seq<string>, pieces: seq<Piece>)
    ensures (forall piece | piece in pieces :: Unchanged(terms, piece))
            <==> Trimmed(pieces) == Source(pieces) && AllCanonical(terms, pieces)
  {
    TrimmedSameIff(pieces);
    forall piece | piece in pieces
      ensures Unchanged(terms, piece) <==> NothingDropped(piece) && IsCanonical(terms, piece)
    {
      UnchangedIff(terms, piece);
    }
  }

  /** If the line spells the term at a place, it does as the table does. */
  predicate CanonicalAt(term: string, line: string, i: nat) {
    i + |term| <= |line| && SpelledAt(term, line[i..i + |term|]) ==> line[i..i + |term|] == term
  }

  ghost predicate SpelledAsInTable(terms: seq<string>, line: string) {
    forall k, i: nat | 0 <= k < |terms| :: CanonicalAt(terms[k], line, i)
  }

  lemma NameCanonical(term: string, line: string, front: string, spelled: string, rest: string)
    requires line == front + spelled + rest && SpelledAt(term, spelled) && |spelled| == |term|
    requires CanonicalAt(term, line, |front|)
    ensures spelled == term
  {
    assert line[|front|..|front| + |term|] == spelled;
  }

  lemma PieceThere(front: string, spelled: string, rest: string, before: string, behind: string, line: string)
    requires rest == before + spelled + behind && line == front + rest
    ensures line == (front + before) + spelled + behind
  {
  }

  /** A piece of the line, between what stands in front of it and behind. */
  lemma {:induction false} PieceInLine(pieces: seq<Piece>, k: nat) returns (front: string, rest: string)
    requires k < |pieces|
    ensures Source(pieces) == front + SourceOf(pieces[k]) + rest
    decreases k
  {
    if k == 0 {
      front, rest := "", Source(pieces[1..]);
    } else {
      var before;
      before, rest := PieceInLine(pieces[1..], k - 1);
      front := SourceOf(pieces[0]) + before;
      PieceThere(SourceOf(pieces[0]), SourceOf(pieces[k]), Source(pieces[1..]), before, rest, Source(pieces));
    }
  }

  lemma {:induction false} PieceMade(terms: seq<string>, pieces: seq<Piece>, k: nat)
    requires WellMade(terms, pieces) && k < |pieces|
    ensures PieceOk(terms, pieces[k])
    decreases k
  {
    if k > 0 {
      PieceMade(terms, pieces[1..], k - 1);
    }
  }

  lemma PieceCanonical(terms: seq<string>, line: string, pieces: seq<Piece>, k: nat)
    requires WellMade(terms, pieces) && Source(pieces) == line && SpelledAsInTable(terms, line) && k < |pieces|
    ensures IsCanonical(terms, pieces[k])
  {
    PieceMade(terms, pieces, k);
    if pieces[k].Name? {
      var term := terms[pieces[k].index];
      var front, rest := PieceInLine(pieces, k);
      assert CanonicalAt(term, line, |front|);
      NameCanonical(term, line, front, pieces[k].spelled, rest);
    }
  }

  lemma PiecesCanonical(terms: seq<string>, line: string, pieces: seq<Piece>)
    requires WellMade(terms, pieces) && Source(pieces) == line && SpelledAsInTable(terms, line)
    ensures AllCanonical(terms, pieces)
  {
    forall k: nat | k < |pieces| ensures IsCanonical(terms, pieces[k]) {
      PieceCanonical(terms, line, pieces, k);
    }
  }

  /** So restoring is the inverse for every line from which nothing is dropped and that
      spells no term otherwise than the table. */
  lemma InverseOnLine(terms: seq<string>, line: string)
    requires TableOk(terms) && Clean(line) && Left(line) == line && SpelledAsInTable(terms, line)
    ensures RestoreSegment(terms, ProtectSegment(terms, line)) == line
  {
    RoundTrip(terms, line);
    PiecesCanonical(terms, line, Pieces(terms, line));
    InverseOnLineIff(terms, line);
  }
}
